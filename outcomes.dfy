/** Value shapes shared by every binding: a call either hands a value back to the
    Haxe caller or raises an error that carries the nanomsg return code. */
module Outcomes {

  /** An optional value: `None` is a C NULL pointer or the null in a fresh Haxe array slot. */
  datatype Option<+T> = None | Some(value: T)

  /** `Error(code)` stands for `throw_errstr()`: the Haxe exception raised with
      the nanomsg error text, together with the integer the binding falls back to. */
  datatype Result<+T> = Ok(value: T) | Error(code: int)

  /** Raw bytes as nanomsg and Haxe buffers see them. */
  newtype Byte = x: int | 0 <= x < 0x100
}
