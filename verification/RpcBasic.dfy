/** Names and result codes that both kinds of remote call share. */
module RpcBasic {
  import opened Common

  /** Function names: their length fits in the eight bytes it is sent in. */
  type Name = s: Bytes | |s| < 0x1_0000_0000_0000_0000 witness []

  /** What a caller learns. */
  datatype CallError = Success | NetworkTimeout | FunctionNotFound | FunctionNameMismatch

  /** What the server says. */
  datatype ReturnCode = Done | NotFound
}
