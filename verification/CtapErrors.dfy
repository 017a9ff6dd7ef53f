/** Status codes of commands and of the transport. */
module CtapErrors {
  import opened Octets

  const OK: u8 := 0x00
  const ERR_INVALID_COMMAND: u8 := 0x01
  const ERR_INVALID_LENGTH: u8 := 0x03
  const ERR_INVALID_SEQ: u8 := 0x04
  const ERR_TIMEOUT: u8 := 0x05
  const ERR_CHANNEL_BUSY: u8 := 0x06
  const ERR_INVALID_CHANNEL: u8 := 0x0b
  const ERR_MISSING_PARAMETER: u8 := 0x14
  const ERR_TOO_MANY_ELEMENTS: u8 := 0x17
  const ERR_PROCESSING: u8 := 0x21
  const ERR_OPERATION_DENIED: u8 := 0x27
  const ERR_KEY_STORE_FULL: u8 := 0x28
  const ERR_NO_CREDENTIALS: u8 := 0x2e
  const ERR_NOT_ALLOWED: u8 := 0x30
  const ERR_PIN_INVALID: u8 := 0x31
  const ERR_PIN_BLOCKED: u8 := 0x32
  const ERR_PIN_AUTH_INVALID: u8 := 0x33
  const ERR_PIN_AUTH_BLOCKED: u8 := 0x34
  const ERR_PIN_NOT_SET: u8 := 0x35
  const ERR_PIN_POLICY_VIOLATION: u8 := 0x37
  const ERR_OTHER: u8 := 0x7f
}
