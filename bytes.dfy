/** Go strings are indexed by byte; a `Byte` is a character whose code is below 256. */
module Bytes {

  type Byte = c: char | c as int < 256 witness 'a'

  /** A Go string viewed as the sequence of its bytes. */
  type Bytes = seq<Byte>

  predicate IsLower(c: Byte) { 'a' <= c <= 'z' }

  predicate IsUpper(c: Byte) { 'A' <= c <= 'Z' }

  /**
    * The byte-level case change of toPascal: `c - 'a' + 'A'` on an ASCII
    * lower-case letter, every other byte unchanged.
    */
  function ToUpper(c: Byte): (u: Byte)
    ensures !IsLower(u)
    ensures IsLower(c) ==> IsUpper(u) && u as int - 'A' as int == c as int - 'a' as int
    ensures !IsLower(c) ==> u == c
  {
    if IsLower(c) then (c as int - 'a' as int + 'A' as int) as char else c
  }
}
