/** The exceptions the demonstration clients raise before or while reading an
    answer. Each client script catches them at its top level and gives up on
    the exchange. */
module ClientErrors {

  datatype ClientError =
    | InvalidIdLength       // an id argument that is not 16 bytes
    | InvalidMessageType    // a message kind outside the menu
    | SizeOverflow          // `int.to_bytes(4, 'little')` of a length >= 2^32
    | IncompleteHeader      // fewer than 7 answer header bytes
    | IncompletePayload     // an answer payload of the wrong length
    | MalformedEnvelope     // an envelope header cut short
    | NonAsciiUsername      // `decode('ascii')` of a listed username failed
    | ConnectionClosed      // an empty `recv` while bytes were still expected
}
