/** The outcome of decoding a record from raw bytes: either a fully built
    value or the reason none was built. A decoder never hands back a
    partially populated record. */
module Results {

  datatype DecodeError =
    | TruncatedInput      // fewer bytes than a fixed-size record needs
    | MisalignedPayload   // a length that is not a whole number of entries
    | UnknownRecord       // no payload kind owns this (user_id, record_id)

  datatype Result<+T> = Ok(value: T) | Err(error: DecodeError)
}
