/** Record content types and sizes, common to TLS and DTLS. */
module RecordTypes {
  import opened Bytes

  // SSL3_RT_MAX_PLAIN_LENGTH, section 6.2.1 of RFC 5246
  const MAX_PLAIN: nat := 16384
  // SSL3_RT_MAX_ENCRYPTED_OVERHEAD and SSL3_RT_MAX_ENCRYPTED_LENGTH
  const MAX_ENCRYPTED_OVERHEAD: nat := 320
  const MAX_ENCRYPTED: nat := MAX_PLAIN + MAX_ENCRYPTED_OVERHEAD

  // Record content types, section 6.2.1 of RFC 5246.
  const CHANGE_CIPHER_SPEC: u8 := 20
  const ALERT: u8 := 21
  const HANDSHAKE: u8 := 22
  const APPLICATION_DATA: u8 := 23
  // SSL3_MT_CCS
  const CCS_BODY: bytes := [1]
}
