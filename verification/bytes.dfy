/** Bytes as the Go code handles them: values 0..255, with ASCII text
    converted byte by byte. */
module Bytes {

  type byte = b: int | 0 <= b < 256

  /** A string every character of which fits in one byte. */
  predicate IsByteText(s: string) {
    forall i :: 0 <= i < |s| ==> s[i] as int < 256
  }

  /** The bytes of a one-byte-per-character string, as Go's `[]byte(s)` gives
      them for ASCII text. */
  function Ascii(s: string): (r: seq<byte>)
    requires IsByteText(s)
    ensures |r| == |s|
    ensures forall i :: 0 <= i < |s| ==> r[i] == s[i] as int
  {
    seq(|s|, i requires 0 <= i < |s| => s[i] as int)
  }

  /** The characters a byte sequence stands for, one per byte, as Go's
      `string(c)` builds an identifier from its bytes. */
  function Text(b: seq<byte>): (r: string)
    ensures |r| == |b|
    ensures forall i :: 0 <= i < |b| ==> r[i] as int == b[i]
  {
    seq(|b|, i requires 0 <= i < |b| => b[i] as char)
  }

  lemma TextOfAscii(s: string)
    requires IsByteText(s)
    ensures Text(Ascii(s)) == s
  {
  }

  /** `make([]byte, n)`. */
  function Zeros(n: nat): (r: seq<byte>)
    ensures |r| == n
    ensures forall i :: 0 <= i < n ==> r[i] == 0
  {
    seq(n, _ => 0)
  }
}
