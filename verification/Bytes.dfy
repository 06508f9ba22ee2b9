/** Machine bytes and the option type shared by every module. */
module Bytes {
  newtype byte = b: int | 0 <= b < 0x100

  datatype Option<+T> = None | Some(value: T)

  /** Decrement of a uint8_t, with its wrap-around. */
  function Dec(b: byte): byte {
    if b == 0 then 0xFF else b - 1
  }

  /** What a C string function sees of a NUL-terminated byte array. */
  function CString(s: seq<byte>): (r: seq<byte>)
    ensures |r| <= |s| && r == s[..|r|] && 0 !in r
    ensures |r| < |s| ==> s[|r|] == 0
  {
    if s == [] || s[0] == 0 then [] else [s[0]] + CString(s[1..])
  }
}
