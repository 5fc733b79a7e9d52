# Art-Net packet codec of artnet_rs, modelled in Dafny

This project models the packet codec of `artnet_rs`. That codec turns Art-Net packets into UDP payload bytes and back. The model covers:

- the opcode registry (`OpCodeValues::try_from`);
- the top-level `ArtPkt::serialize` / `ArtPkt::deserialize` dispatch;
- the encoder and decoder of the eight packet kinds: ArtPoll, ArtPollReply, ArtTodRequest, ArtTodData, ArtTodControl, ArtRdm, ArtCommand and ArtDmx.

The model follows the Rust code as written. The encoders are total functions from a record to `seq<u8>`. The decoders take the whole datagram:

- A decoder that can only fail returns `Option`.
- The ArtPollReply and ArtTodRequest decoders can panic, so they return an `Outcome`. That is either `Returned(Option)` or `Panicked(site)`, so a panic is never mistaken for a rejected packet. The panic sites are:
  - the 16-bit addition that rebuilds `universe_switch`;
  - `CStr::from_bytes_until_nul(..).unwrap()` on each of the three name fields;
  - `address[i]` past the 32-entry array.

Modules follow the source's structure:

| module | what it holds |
|---|---|
| `Wire` | bytes, u8/u16 and the byteorder reads and writes |
| `Outcomes` | `Option`, `Outcome` and the panic sites |
| `External` | UID, MAC and IP address as their wire bytes |
| `OpCodes` | the opcode registry and the packet prefix |
| `Text` | the zero-terminated name fields |
| `Tail` | the byte-by-byte payload loops |
| one module per packet kind | that kind's record, encoder and decoder |
| `Envelope` | `ArtPkt` and its dispatch |

Every operation has a partner lemma. Where the code is symmetric, the partner is a round trip. Where it is not, the partner is a lemma giving exactly what `decode(encode(x))` yields:

- **ArtRdm.** The decoder reads every field one byte early, so the round trip never holds (`Rdm.Shifted`).
- **ArtPollReply.** The decoder:
  - reads little-endian fields as big-endian;
  - rebuilds `universe_switch` as `(b[19] << 4) + (b[18] << 8)`;
  - skips `bind_ip`, so the five fields after it come from the wrong offsets (`PollReply.Reflected`).
- **ArtTodData.** It is encoded with the ArtTodRequest opcode `0x8000`, so the dispatcher decodes it as an ArtTodRequest.

Two further behaviours of the code that the model states:

- **ArtDmx.** The universe is little-endian at bytes 14–15 and the length big-endian at bytes 16–17 (`Dmx.ThreeSlotExample`).
- **ArtTodRequest.** An `add_count` above 32 panics when the buffer holds at least 57 bytes, and gives `None` below that.

## Model

| member | source | states |
|---|---|---|
| OpCodes.TryFrom | src/lib.rs:31-48 | a recognised code maps to the opcode whose value it is, and an unrecognised code matches no opcode value (the `Err(())` case) |
| OpCodes.TryFromValue | src/lib.rs:19-48 | every opcode's value converts back to that same opcode |
| OpCodes.TryFromRecognises | src/lib.rs:19-48 | exactly the nine listed values 0x2000, 0x2100, 0x8000, 0x8100, 0x8200, 0x8300, 0x2400, 0x5000 and 0 are accepted |
| External.WireOctets | src/lib.rs:309-312 | an IPv4 address is written as its four octets and an IPv6 address as four zero bytes |
| Wire.LittleReadAsBig | src/lib.rs:315-317 | a u16 written little-endian and read big-endian comes back byte-swapped |
| Poll.Serialize | src/lib.rs:191-212 | an ArtPoll is 18 bytes: magic, opcode 0x2000 little-endian, version 0.14, flags, diag_priority and four zero bytes |
| Poll.Deserialize | src/lib.rs:215-227 | a buffer decodes exactly when it has at least 14 bytes, and flags and diag_priority are bytes 12 and 13 |
| Poll.RoundTrip | src/lib.rs:191-227 | decoding an encoded ArtPoll gives the same record |
| Poll.ReserializeAgrees | src/lib.rs:191-227 | re-encoding a decoded ArtPoll reproduces the two payload bytes it came from |
| TodControl.Serialize | src/lib.rs:831-854 | an ArtTodControl is 24 bytes: the versioned prefix, nine zero bytes, then net, command and address |
| TodControl.Deserialize | src/lib.rs:857-870 | a buffer decodes exactly when it has at least 24 bytes, and net, command and address are bytes 21 to 23 |
| TodControl.RoundTrip | src/lib.rs:831-870 | decoding an encoded ArtTodControl gives the same record |
| TodControl.ReserializeAgrees | src/lib.rs:831-870 | re-encoding a decoded ArtTodControl reproduces bytes 21 to 23 it came from |
| Rdm.Serialize | src/lib.rs:894-921 | an ArtRdm is 24 bytes plus the RDM packet: rdm_ver at 12, eight zero bytes, net, command and address at 21 to 23, the packet from 24 |
| Rdm.Deserialize | src/lib.rs:924-943 | a buffer decodes exactly when it has at least 24 bytes; rdm_ver is read from byte 11, net, command and address from 20 to 22, and the packet from byte 23 on, so it is never empty |
| Rdm.ShiftedRoundTrip | src/lib.rs:894-943 | decoding an encoded ArtRdm yields the record read one byte early: rdm_ver 14, net 0, command = net, address = command, and the packet prefixed by the address |
| Rdm.NeverRoundTrips | src/lib.rs:894-943 | no ArtRdm survives an encode-decode round trip |
| Command.Serialize | src/lib.rs:964-985 | an ArtCommand is 16 bytes plus its data, with esta_mfg and length big-endian at 12 and 14 and the data from 16 |
| Command.Deserialize | src/lib.rs:988-1015 | a buffer decodes exactly when it holds 16 bytes and the `length` data bytes it announces; the result's length field agrees with its data |
| Command.DecodeOfEncoding | src/lib.rs:964-1015 | decoding an encoding keeps the declared length and gives back that many data bytes, or `None` when the data is shorter than the length |
| Command.RoundTrip | src/lib.rs:964-1015 | an ArtCommand whose length field matches its data survives the round trip |
| Command.IgnoresTrailing | src/lib.rs:1006-1012 | bytes after the announced data do not change the decoded ArtCommand |
| Command.TruncatedFails | src/lib.rs:1006-1012 | an encoding that loses its last data byte is rejected |
| Tail.ReadTail | src/lib.rs:1006-1012 | the payload slice of `count` bytes is present exactly when the buffer holds them, and it is those bytes in order |
| Tail.LoopAgrees | src/lib.rs:1006-1012 | the byte-at-a-time read loop, started anywhere within the buffer, returns `None` exactly when the buffer runs out before `count` bytes, and otherwise pushes the whole window |
| Tail.ReadTailIsLoop | src/lib.rs:1094-1100 | the payload slice the ArtCommand and ArtDmx decoders use equals that loop started with nothing read |
| Dmx.Serialize | src/lib.rs:1039-1064 | an ArtDmx is 18 bytes plus its slots: sequence, physical, universe little-endian at 14, length big-endian at 16, slots from 18 |
| Dmx.Deserialize | src/lib.rs:1067-1103 | a buffer decodes exactly when it holds 18 bytes and the `length` slots it announces, with universe little-endian and length big-endian |
| Dmx.DecodeOfEncoding | src/lib.rs:1039-1103 | decoding an encoding keeps the declared length and gives back that many slots, or `None` when there are fewer slots |
| Dmx.RoundTrip | src/lib.rs:1039-1103 | an ArtDmx whose length field matches its slots survives the round trip |
| Dmx.IgnoresTrailing | src/lib.rs:1094-1100 | bytes after the announced slots do not change the decoded ArtDmx |
| Dmx.TruncatedFails | src/lib.rs:1094-1100 | an encoding that loses its last slot is rejected |
| Dmx.ThreeSlotExample | src/lib.rs:1054-1061 | three slots on universe 0 put the length 00 03 at bytes 16 and 17, after the universe |
| TodRequest.Serialize | src/lib.rs:610-640 | an ArtTodRequest is always 56 bytes: the prefix, nine zero bytes, net, command, add_count, then all 32 address bytes |
| TodRequest.ReadAddresses | src/lib.rs:667-672 | the address loop returns `None` when a byte is missing, and panics at index 32 when a count above 32 meets a 57th byte; otherwise it fills the first `count` entries from byte 24 on and leaves the rest untouched |
| TodRequest.Deserialize | src/lib.rs:643-675 | `None` below 24 bytes; for a count of at most 32, a record exactly when the count's bytes are present; for a larger count, the index panic when at least 57 bytes are present and `None` otherwise; addresses past the count stay zero |
| TodRequest.LoopAgrees | src/lib.rs:643-675 | the decoder agrees with running the address loop from index 0 on a zeroed array |
| TodRequest.DecodeOfEncoding | src/lib.rs:610-675 | decoding an encoding gives the record with addresses past add_count zeroed; a count above 32 gives `None`, since the 56-byte encoding is too short to reach the index panic |
| TodRequest.RoundTrip | src/lib.rs:610-675 | a request with at most 32 addresses and zeros after them survives the round trip |
| TodData.Serialize | src/lib.rs:710-748 | an ArtTodData is 28 bytes plus six per UID, under the ArtTodRequest opcode 0x8000, with uid_total big-endian at 24 |
| TodData.DeserializeUids | src/lib.rs:803-811 | the UID loop succeeds exactly when `count` six-byte UIDs are present, and reads them in order |
| TodData.Deserialize | src/lib.rs:751-814 | a buffer decodes exactly when it has the 28-byte head and the uid_count UIDs it announces; the UID list has uid_count entries |
| TodData.UidLoopAgrees | src/lib.rs:803-811 | the UID loop read by induction equals the closed-form list of UIDs, and fails exactly when they do not fit |
| TodData.DecoderRunsLoop | src/lib.rs:751-814 | the decoder agrees with running the UID loop from byte 28 |
| TodData.DecodeOfEncoding | src/lib.rs:710-814 | decoding an encoding gives the record back with uid_count UIDs, or `None` when the list is shorter than uid_count |
| TodData.TruncatedFails | src/lib.rs:803-811 | an encoding whose uid_count matches its list and that loses its last byte is rejected |
| TodData.RoundTrip | src/lib.rs:710-814 | an ArtTodData whose uid_count matches its list survives the codec's own decoder |
| Text.PackName | src/lib.rs:329-343 | a packed name field has the field's width, its last byte is zero, and it holds the first width-1 bytes of the name then zeros |
| Text.UntilNul | src/lib.rs:496 | the field reads as text exactly when it holds a zero byte, and the text is the zero-free prefix before the first zero |
| Text.PackedNameReads | src/lib.rs:329-376 | reading a packed field back yields the name cut to the field's capacity and then at its first zero |
| Text.PlainNameSurvives | src/lib.rs:329-376 | a name within capacity and without zero bytes comes back intact |
| PollReply.Serialize | src/lib.rs:298-423 | an ArtPollReply is always 239 bytes: the 26-byte head, the three name fields at 26, 44 and 108, then ports, switches, binding and the responder UID with 15 zero bytes |
| PollReply.Deserialize | src/lib.rs:426-593 | exactly one fate per buffer: the overflow panic when the rebuilt universe_switch exceeds 16 bits, a name panic for the first name field without a zero byte, `None` when a read runs out, and otherwise the record read from 220 bytes |
| PollReply.DecodeOfEncoding | src/lib.rs:298-593 | decoding an encoding gives the reflected record, or the overflow panic; the name fields never panic |
| PollReply.FieldFates | src/lib.rs:298-593 | after a round trip some fields come back intact: the IPv4 address, ubea_version, status1, the port arrays, switches, style and MAC. port, vers_info, oem, esta_mfg and num_ports come back byte-swapped, short zero-free names survive, and bind_ip is lost |
| PollReply.SwappedFieldsFate | src/lib.rs:315-327 | after a round trip, port, vers_info, oem, esta_mfg and num_ports each give the original back when swapped once more, and each comes back unchanged exactly when its two bytes are equal |
| PollReply.NamesTerminated | src/lib.rs:329-376 | each encoded name field ends in a zero byte and carries at most 17, 63 and 63 bytes of its name |
| Envelope.Serialize | src/lib.rs:68-96 | `Unknown` encodes to the empty vector and every other packet to at least 12 bytes |
| Envelope.Deserialize | src/lib.rs:98-175 | a buffer without the 12-byte Art-Net header, or with an unrecognised or `Unknown` opcode, is rejected. A decoded packet is of the kind its opcode names, and only the ArtPollReply and ArtTodRequest opcodes can lead to a panic |
| Envelope.EncodingDispatch | src/lib.rs:68-111 | every encoded packet starts with the magic and carries its kind's opcode little-endian at bytes 8 and 9; for ArtTodData that is the ArtTodRequest opcode |
| Envelope.RoundTrip | src/lib.rs:68-175 | ArtPoll, ArtTodControl, consistent ArtCommand and ArtDmx, and ArtTodRequest with zeroed spare addresses all survive the top-level round trip |
| Envelope.RdmComesBackShifted | src/lib.rs:85-153 | an encoded ArtRdm comes back through the dispatcher as the shifted record, never as itself |
| Envelope.PollReplyComesBackReflected | src/lib.rs:73-125 | an encoded ArtPollReply comes back through the dispatcher reflected, or as the overflow panic |
| Envelope.TodDataComesBackAsTodRequest | src/lib.rs:79-132 | an encoded ArtTodData is never decoded as an ArtTodData. It comes back as an ArtTodRequest whose net, command and add_count are net, command_response and address, or as `None`, or as the index panic |
| Envelope.UnknownVanishes | src/lib.rs:94-103 | `Unknown` encodes to nothing and decodes to `None` |

## Left out

- `OpError` (src/lib.rs:1106-1128) is not part of the core: its encoder returns an empty vector and its decoder ignores its input, and no opcode reaches it.
- The `new()` constructors are left out. Their default values appear only as the zero-initialised arrays and fields the decoders start from.
- The `println!` diagnostics in `ArtPkt::deserialize` are not modelled. They are output only, and the function returns `None` after them.
- The unused `serde` import and `src/tests.rs` are left out: the import is never used, and the tests file holds a benchmark.
- Text is kept as its bytes. `String::from_utf8_lossy` replacement of invalid UTF-8 and `as_bytes` of a Rust `String` are not modelled, so a name is any byte sequence.
- `e1_20::Uid`, `eui48::MacAddress` and `std::net::IpAddr` are represented by their wire bytes. This relies on their byte conversions being inverse to each other; those libraries are not part of this model. An IPv6 address is kept only as far as it matters: the encoder writes it as zeros.
- `Cursor` plumbing and the `unwrap()` on writes into a `Vec` are not modelled. Those writes cannot fail.
- PollReply.Deserialize: the `universe_switch` addition is modelled with debug-build semantics, so it panics on overflow. A release build would wrap modulo 2^16 instead; that is not modelled.
- PollReply.Deserialize: the `MacAddress::from_bytes(..).unwrap_or_default()` fallback is not modelled. Six bytes always form a MAC address, so it is never taken.
