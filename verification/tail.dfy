/** The count-driven tail shared by ArtCommand and ArtDmx: the decoder pushes
    exactly `count` bytes read from offset `at`, returning `None` as soon as
    the buffer runs out, and never looks past them. */
module Tail {
  import opened Wire
  import opened Outcomes

  /** The `count` bytes from `at`, or `None` when the buffer is shorter. */
  function ReadTail(b: Bytes, at: nat, count: nat): (r: Option<Bytes>)
    ensures r.Some? <==> at + count <= |b|
    ensures r.Some? ==> |r.value| == count
    ensures r.Some? ==> forall i | 0 <= i < count :: r.value[i] == b[at + i]
  {
    if |b| < at + count then None else Some(b[at .. at + count])
  }

  /** The decoder's loop as written, one `read_u8` at a time: push the byte
      at `at` onto `read` and go on, or return `None` once the buffer runs
      out. `ReadTail` is its closed form. */
  function ReadLoop(b: Bytes, at: nat, count: nat, read: Bytes): Option<Bytes>
    decreases count
  {
    if count == 0 then Some(read)
    else if at >= |b| then None
    else ReadLoop(b, at + 1, count - 1, read + [b[at]])
  }

  /** The loop fails exactly when the buffer runs out before `count` bytes,
      and otherwise pushes the whole window from `at`. */
  lemma {:induction false} LoopAgrees(b: Bytes, at: nat, count: nat, read: Bytes)
    requires at <= |b|
    ensures ReadLoop(b, at, count, read)
         == if at + count <= |b| then Some(read + b[at .. at + count]) else None
    decreases count
  {
    if count == 0 {
      assert read + b[at .. at] == read;
    } else if at < |b| {
      LoopAgrees(b, at + 1, count - 1, read + [b[at]]);
      if at + count <= |b| {
        assert read + [b[at]] + b[at + 1 .. at + count] == read + b[at .. at + count];
      }
    }
  }

  /** The closed form is the loop started with nothing read. */
  lemma ReadTailIsLoop(b: Bytes, at: nat, count: nat)
    requires at <= |b|
    ensures ReadTail(b, at, count) == ReadLoop(b, at, count, [])
  {
    LoopAgrees(b, at, count, []);
    if at + count <= |b| {
      assert [] + b[at .. at + count] == b[at .. at + count];
    }
  }

  /** Bytes after the tail do not change what is read. */
  lemma {:induction false} ReadTailIgnoresTrailing(b: Bytes, extra: Bytes, at: nat, count: nat)
    requires at + count <= |b|
    ensures ReadTail(b + extra, at, count) == ReadTail(b, at, count)
  {
    assert (b + extra)[at .. at + count] == b[at .. at + count];
  }

  /** Reading back a tail that was written at `at`: exactly the first `count`
      bytes of it, or `None` when it holds fewer. */
  lemma {:induction false} ReadWrittenTail(head: Bytes, data: Bytes, count: nat)
    ensures ReadTail(head + data, |head|, count)
         == if count <= |data| then Some(data[..count]) else None
  {
    if count <= |data| {
      assert (head + data)[|head| .. |head| + count] == data[..count];
    }
  }
}
