/** The two failure channels of the codec as values: the exceptions the
    source raises become `Err`, and `None` in a reply tuple becomes `None`. */
module Results {

  /** The exceptions the modelled code can raise. */
  datatype Error =
    | MalformedFrame   // `ValueError` raised by parse_ack: too short, or not an acknowledgement
    | IndexError       // indexing past the end of a decoded payload
    | ByteOutOfRange   // `ValueError` raised by `bytes([...])` for a value outside 0..255

  datatype Result<+T> = Ok(value: T) | Err(error: Error)

  datatype Option<+T> = None | Some(value: T)
}
