/** Bytes, byte strings and the small wrappers that the other modules share. */
module Bytes {
  newtype byte = x: int | 0 <= x < 256

  type bytes = seq<byte>

  datatype Option<+T> = None | Some(value: T)

  const LF: byte := 10
  const CR: byte := 13
  const SPACE: byte := 32
  const CRLF: bytes := [CR, LF]

  /** The width of `usize` on the 64-bit targets the program supports. */
  const USIZE_LIMIT: nat := 0x1_0000_0000_0000_0000

  /** `isize::MAX`: the largest capacity a `Vec<u8>` may ask for. */
  const ISIZE_MAX: nat := 0x7fff_ffff_ffff_ffff

  function Min(a: nat, b: nat): nat {
    if a <= b then a else b
  }

  function Max(a: nat, b: nat): nat {
    if a <= b then b else a
  }

  predicate Absent(b: byte, s: bytes) {
    forall i :: 0 <= i < |s| ==> s[i] != b
  }

  /** The position of the first `b` in `s`. */
  function IndexOf(s: bytes, b: byte): (r: Option<nat>)
    ensures r.None? <==> Absent(b, s)
    ensures r.Some? ==> r.value < |s| && s[r.value] == b && forall i :: 0 <= i < r.value ==> s[i] != b
  {
    if s == [] then None
    else if s[0] == b then Some(0)
    else
      match IndexOf(s[1..], b)
      case None => assert forall i :: 1 <= i < |s| ==> s[i] == s[1..][i - 1]; None
      case Some(i) => assert forall j :: 1 <= j < |s| ==> s[j] == s[1..][j - 1]; Some(i + 1)
  }

  /** A first position is determined by what makes it first. */
  lemma IndexOfAt(s: bytes, b: byte, i: nat)
    requires i < |s| && s[i] == b && forall j :: 0 <= j < i ==> s[j] != b
    ensures IndexOf(s, b) == Some(i)
  {
  }

  /** Concatenation of a list of byte strings. */
  function Concat(parts: seq<bytes>): bytes {
    if parts == [] then [] else parts[0] + Concat(parts[1..])
  }

  lemma DropOfConcat(s: bytes, x: bytes, n: nat)
    requires n <= |s|
    ensures (s + x)[n..] == s[n..] + x
    ensures (s + x)[..n] == s[..n]
  {
  }

  predicate StartsWith(s: bytes, prefix: bytes) {
    |prefix| <= |s| && s[..|prefix|] == prefix
  }
}
