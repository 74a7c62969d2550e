/** The header names and the transfer coding that the proxy looks for, in lower case. */
module HeaderNames {
  import opened Bytes

  const TRANSFER_ENCODING: seq<byte> := Ascii("transfer-encoding")
  const CONTENT_LENGTH: seq<byte> := Ascii("content-length")
  const CONTENT_TYPE: seq<byte> := Ascii("content-type")
  const CONTENT_ENCODING: seq<byte> := Ascii("content-encoding")
  const CONNECTION: seq<byte> := Ascii("connection")
  const KEEP_ALIVE: seq<byte> := Ascii("keep-alive")
  const CHUNKED: seq<byte> := Ascii("chunked")
}
