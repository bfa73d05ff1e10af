/** What TLS and DTLS records share (section 6.2.1 of RFC 5246). */
module RecordTypes {
  import opened Bytes

  const RT_CHANGE_CIPHER_SPEC: byte := 20
  const RT_ALERT: byte := 21
  const RT_HANDSHAKE: byte := 22
  const RT_APPLICATION_DATA: byte := 23

  /** The most that one record may hold. */
  const MAX_PLAIN: nat := 16384
}
