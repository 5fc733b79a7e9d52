/** The zero-terminated text fields of ArtPollReply (short name, long name,
    node report): how the encoder packs a name into a fixed zeroed field and
    how the decoder takes it back out. Text is kept as its bytes. */
module Text {
  import opened Wire
  import opened Outcomes

  /** The encoder's copy loop: at most `width - 1` bytes of `text` copied to
      the front of a zeroed `width`-byte field, so its last byte stays zero. */
  function PackName(text: Bytes, width: nat): (field: Bytes)
    requires width >= 1
    ensures |field| == width && field[width - 1] == 0
    ensures forall i | 0 <= i < width :: field[i] == (if i < Min(|text|, width - 1) then text[i] else 0)
  {
    var n := Min(|text|, width - 1);
    text[..n] + Zeros(width - n)
  }

  /** `CStr::from_bytes_until_nul`: the bytes before the first zero byte, or
      `None` (the source unwraps it and panics) when the field has no zero. */
  function UntilNul(field: Bytes): (r: Option<Bytes>)
    ensures r.Some? <==> 0 in field
    ensures r.Some? ==> |r.value| < |field| && r.value == field[..|r.value|]
    ensures r.Some? ==> field[|r.value|] == 0 && 0 !in r.value
  {
    if |field| == 0 then None
    else if field[0] == 0 then Some([])
    else match UntilNul(field[1..])
      case None => None
      case Some(rest) => Some([field[0]] + rest)
  }

  /** The text a reader sees in `text`: everything before its first zero
      byte, or all of it when it has none. */
  function BeforeNul(text: Bytes): (r: Bytes)
    ensures |r| <= |text| && r == text[..|r|] && 0 !in r
    ensures |r| < |text| ==> text[|r|] == 0
  {
    if |text| == 0 || text[0] == 0 then []
    else [text[0]] + BeforeNul(text[1..])
  }

  /** What a name shows after it has been packed into a field with room for
      `capacity` bytes and read back. */
  function Visible(text: Bytes, capacity: nat): Bytes {
    BeforeNul(text[..Min(|text|, capacity)])
  }

  /** The prefix before the first zero is unique. */
  lemma {:induction false} FirstNulUnique(s: Bytes, p: Bytes, q: Bytes)
    requires |p| <= |s| && p == s[..|p|] && 0 !in p && (|p| < |s| ==> s[|p|] == 0)
    requires |q| <= |s| && q == s[..|q|] && 0 !in q && (|q| < |s| ==> s[|q|] == 0)
    ensures p == q
  {
  }

  /** Reading a packed field back gives the visible part of the text: the
      text cut to the field's capacity, then cut at its first zero byte. */
  lemma {:induction false} PackedNameReads(text: Bytes, width: nat)
    requires width >= 1
    ensures UntilNul(PackName(text, width)) == Some(Visible(text, width - 1))
  {
    var field := PackName(text, width);
    var r := UntilNul(field);
    var n := Min(|text|, width - 1);
    var t := text[..n];
    var v := BeforeNul(t);
    assert field[..n] == t;
    assert 0 in field by { assert field[width - 1] == 0; }
    var u := r.value;
    assert |v| <= n && v == field[..|v|];
    assert |v| < |field| && field[|v|] == 0 by {
      if |v| < |t| { assert field[|v|] == t[|v|]; } else { assert field[n] == 0; }
    }
    // `u` and `v` are both the zero-free prefix of `field` that ends at a zero.
    FirstNulUnique(field, u, v);
  }

  /** The same, for a field found at offset `at` of a larger buffer. */
  lemma PackedFieldReads(r: Bytes, at: nat, text: Bytes, width: nat)
    requires width >= 1 && at + width <= |r| && r[at .. at + width] == PackName(text, width)
    ensures UntilNul(r[at .. at + width]) == Some(Visible(text, width - 1))
  {
    PackedNameReads(text, width);
  }

  /** A name no longer than the capacity and free of zero bytes survives. */
  lemma {:induction false} PlainNameSurvives(text: Bytes, capacity: nat)
    requires |text| <= capacity && 0 !in text
    ensures Visible(text, capacity) == text
  {
    var v := Visible(text, capacity);
    assert text[..Min(|text|, capacity)] == text;
  }
}
