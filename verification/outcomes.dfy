/** Results of the codec's decoders. Most decoders return an `Option`; the two
    that can panic return an `Outcome`, which keeps the panic apart from the
    `None` the Rust function would otherwise return. */
module Outcomes {

  datatype Option<+T> = None | Some(value: T)

  /** The three text fields of an ArtPollReply. */
  datatype NameField = ShortName | LongName | NodeReport

  /** The places where a decoder of the source panics. */
  datatype PanicSite =
    | UniverseSwitchOverflow          // u16 addition overflowing (debug builds)
    | NameWithoutNul(field: NameField) // `CStr::from_bytes_until_nul(..).unwrap()`
    | AddressIndexOutOfBounds          // `address[i]` with i >= 32

  /** Either the function returned its `Option`, or it panicked at `site`. */
  datatype Outcome<+T> = Returned(result: Option<T>) | Panicked(site: PanicSite)
}
