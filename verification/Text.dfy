/**
 The text handling that the HTTP code borrows from the standard library: ASCII case, `trim`,
 `split`, `str::lines`, UTF-8 validity and integer parsing. Text is kept as bytes. A lossily
 decoded string loses nothing that the callers look at: decoding never swallows an ASCII byte,
 a white-space character is decoded whole wherever its lead byte stands, and every other
 non-ASCII byte makes number parsing fail before and after decoding alike.
 */
module Text {
  import opened Bytes

  const SEMICOLON: byte := 59
  const PLUS: byte := 43
  const COLON: byte := 58

  // ---------------------------------------------------------------- ASCII

  function Lower(b: byte): byte {
    if 65 <= b <= 90 then b + 32 else b
  }

  function LowerAll(s: bytes): (r: bytes)
    ensures |r| == |s|
    ensures forall i :: 0 <= i < |s| ==> r[i] == Lower(s[i])
  {
    seq(|s|, i requires 0 <= i < |s| => Lower(s[i]))
  }

  predicate EqualIgnoreCase(a: bytes, b: bytes) {
    LowerAll(a) == LowerAll(b)
  }

  /** Two bytes differ at most in the case of one ASCII letter. */
  predicate SameLetter(a: byte, b: byte) {
    a == b || (65 <= a <= 90 && b as int == a as int + 32) || (65 <= b <= 90 && a as int == b as int + 32)
  }

  /** Ignoring case, texts are equal if and only if they differ byte by byte at most in the case of a letter. */
  lemma EqualIgnoreCaseExact(a: bytes, b: bytes)
    ensures EqualIgnoreCase(a, b) <==> |a| == |b| && forall i :: 0 <= i < |a| ==> SameLetter(a[i], b[i])
  {
    if EqualIgnoreCase(a, b) {
      forall i | 0 <= i < |a| ensures SameLetter(a[i], b[i]) {
        assert LowerAll(a)[i] == LowerAll(b)[i];
      }
    }
  }

  predicate OccursAt(s: bytes, part: bytes, i: nat) {
    i + |part| <= |s| && s[i..i + |part|] == part
  }

  predicate Contains(s: bytes, part: bytes) {
    exists i :: 0 <= i <= |s| && OccursAt(s, part, i)
  }

  /** `HeaderValue::to_str` accepts exactly these bytes. */
  predicate Visible(s: bytes) {
    forall i :: 0 <= i < |s| ==> 32 <= s[i] < 127 || s[i] == 9
  }

  predicate Ascii(s: bytes) {
    forall i :: 0 <= i < |s| ==> s[i] < 128
  }

  /** No line break and no byte outside ASCII. */
  predicate LineSafe(s: bytes) {
    forall i :: 0 <= i < |s| ==> s[i] < 128 && s[i] != CR && s[i] != LF
  }

  // ---------------------------------------------------------------- white space

  predicate AsciiSpace(b: byte) {
    9 <= b <= 13 || b == 32
  }

  predicate TwoByteSpace(a: byte, b: byte) {
    a == 0xC2 && (b == 0x85 || b == 0xA0)
  }

  predicate ThreeByteSpace(a: byte, b: byte, c: byte) {
    || (a == 0xE1 && b == 0x9A && c == 0x80)
    || (a == 0xE2 && b == 0x80 && (0x80 <= c <= 0x8A || c == 0xA8 || c == 0xA9 || c == 0xAF))
    || (a == 0xE2 && b == 0x81 && c == 0x9F)
    || (a == 0xE3 && b == 0x80 && c == 0x80)
  }

  /** Width of the white-space character at the front of `s`; 0 when there is none. */
  function LeadingSpace(s: bytes): (w: nat)
    ensures w <= |s|
  {
    if |s| >= 1 && AsciiSpace(s[0]) then 1
    else if |s| >= 2 && TwoByteSpace(s[0], s[1]) then 2
    else if |s| >= 3 && ThreeByteSpace(s[0], s[1], s[2]) then 3
    else 0
  }

  /** Width of the white-space character at the back of `s`; 0 when there is none. */
  function TrailingSpace(s: bytes): (w: nat)
    ensures w <= |s|
  {
    var n := |s|;
    if n >= 1 && AsciiSpace(s[n - 1]) then 1
    else if n >= 2 && TwoByteSpace(s[n - 2], s[n - 1]) then 2
    else if n >= 3 && ThreeByteSpace(s[n - 3], s[n - 2], s[n - 1]) then 3
    else 0
  }

  function TrimStart(s: bytes): bytes
    decreases |s|
  {
    var w := LeadingSpace(s);
    if w == 0 then s else TrimStart(s[w..])
  }

  function TrimEnd(s: bytes): bytes
    decreases |s|
  {
    var w := TrailingSpace(s);
    if w == 0 then s else TrimEnd(s[..|s| - w])
  }

  function Trim(s: bytes): bytes {
    TrimEnd(TrimStart(s))
  }

  /** A string of white-space characters. */
  predicate Blank(s: bytes)
    decreases |s|
  {
    s == [] || (LeadingSpace(s) > 0 && Blank(s[LeadingSpace(s)..]))
  }

  lemma {:induction false} BlankAppend(a: bytes, b: bytes)
    requires Blank(a) && Blank(b)
    ensures Blank(a + b)
    decreases |a|
  {
    if a == [] {
      assert a + b == b;
    } else {
      var w := LeadingSpace(a);
      assert LeadingSpace(a + b) == w && (a + b)[w..] == a[w..] + b;
      BlankAppend(a[w..], b);
    }
  }

  lemma LeadingIsBlank(s: bytes)
    ensures Blank(s[..LeadingSpace(s)])
  {
    var c := s[..LeadingSpace(s)];
    assert c != [] ==> LeadingSpace(c) == |c|;
  }

  lemma {:induction false} TrimStartExact(s: bytes) returns (front: bytes)
    ensures Blank(front) && s == front + TrimStart(s) && LeadingSpace(TrimStart(s)) == 0
    decreases |s|
  {
    var w := LeadingSpace(s);
    if w == 0 {
      front := [];
    } else {
      LeadingIsBlank(s);
      hide LeadingSpace, Blank;
      var c, rest := s[..w], s[w..];
      var more := TrimStartExact(rest);
      assert TrimStart(s) == TrimStart(rest);
      front := c + more;
      BlankAppend(c, more);
      hide TrimStart;
      Joined(s, w, more, TrimStart(s));
    }
  }

  lemma Joined(s: bytes, k: nat, more: bytes, kept: bytes)
    requires k <= |s| && s[k..] == more + kept
    ensures s == s[..k] + more + kept
  {
    assert s == s[..k] + s[k..];
  }

  lemma {:induction false} TrimEndExact(s: bytes) returns (back: bytes)
    ensures Blank(back) && s == TrimEnd(s) + back && TrailingSpace(TrimEnd(s)) == 0
    decreases |s|
  {
    TrimEndUnfolds(s);
    TrailingIsBlank(s);
    hide LeadingSpace, TrailingSpace, TrimEnd, Blank;
    var k := |s| - TrailingSpace(s);
    if k == |s| {
      back := s[k..];
    } else {
      var more := TrimEndExact(s[..k]);
      back := more + s[k..];
      BlankAppend(more, s[k..]);
      Regroup(s, k, TrimEnd(s[..k]), more);
    }
  }

  lemma TrimEndUnfolds(s: bytes)
    ensures TrimEnd(s) == if TrailingSpace(s) == 0 then s else TrimEnd(s[..|s| - TrailingSpace(s)])
  {
  }

  lemma Regroup(s: bytes, k: nat, kept: bytes, more: bytes)
    requires k <= |s| && s[..k] == kept + more
    ensures s == kept + (more + s[k..])
  {
    assert s == s[..k] + s[k..];
  }

  lemma TrailingIsBlank(s: bytes)
    ensures Blank(s[|s| - TrailingSpace(s)..])
  {
    var w, n := TrailingSpace(s), |s|;
    var c := s[n - w..];
    assert w > 0 ==> LeadingSpace(c) == w;
    assert c[w..] == [];
  }

  lemma PrefixUnspaced(s: bytes, k: nat)
    requires k <= |s| && LeadingSpace(s) == 0
    ensures LeadingSpace(s[..k]) == 0
  {
  }

  /** `trim` takes off white space at both ends, all of it and nothing else. */
  lemma TrimExact(s: bytes) returns (front: bytes, back: bytes)
    ensures Blank(front) && Blank(back) && s == front + Trim(s) + back
    ensures LeadingSpace(Trim(s)) == 0 && TrailingSpace(Trim(s)) == 0
  {
    hide LeadingSpace, TrailingSpace, Blank, TrimStart, TrimEnd;
    front := TrimStartExact(s);
    var t := TrimStart(s);
    back := TrimEndExact(t);
    assert front + (Trim(s) + back) == front + Trim(s) + back;
    PrefixUnspaced(t, |Trim(s)|);
    assert t[..|Trim(s)|] == Trim(s);
  }

  // ---------------------------------------------------------------- lines

  /** Drops one trailing carriage return. */
  function StripCr(s: bytes): bytes {
    if |s| > 0 && s[|s| - 1] == CR then s[..|s| - 1] else s
  }

  /** Exactly one carriage return is dropped, and only from the end. */
  lemma StripCrOne(s: bytes)
    ensures StripCr(s + [CR]) == s
    ensures |s| == 0 || s[|s| - 1] != CR ==> StripCr(s) == s
  {
    assert (s + [CR])[..|s|] == s;
  }

  /** The part before the first semicolon. */
  function BeforeSemicolon(s: bytes): bytes {
    match IndexOf(s, SEMICOLON)
    case None => s
    case Some(i) => s[..i]
  }

  /** `str::lines`: an unterminated last line loses no carriage return. */
  function Lines(s: bytes): seq<bytes>
    decreases |s|
  {
    if s == [] then []
    else
      match IndexOf(s, LF)
      case None => [s]
      case Some(i) => [StripCr(s[..i])] + Lines(s[i + 1..])
  }

  // ---------------------------------------------------------------- UTF-8

  predicate Continuation(b: byte) {
    0x80 <= b < 0xC0
  }

  /** Width of the well-formed UTF-8 character at the front of `s` (Unicode, table 3-7). */
  function CharWidth(s: bytes): (w: nat)
    ensures w <= |s|
  {
    if |s| >= 1 && s[0] < 0x80 then 1
    else if |s| >= 2 && 0xC2 <= s[0] < 0xE0 && Continuation(s[1]) then 2
    else if |s| >= 3 && 0xE0 <= s[0] < 0xF0 && Continuation(s[1]) && Continuation(s[2])
         && (s[0] == 0xE0 ==> 0xA0 <= s[1]) && (s[0] == 0xED ==> s[1] < 0xA0) then 3
    else if |s| >= 4 && 0xF0 <= s[0] < 0xF5 && Continuation(s[1]) && Continuation(s[2]) && Continuation(s[3])
         && (s[0] == 0xF0 ==> 0x90 <= s[1]) && (s[0] == 0xF4 ==> s[1] < 0x90) then 4
    else 0
  }

  predicate Utf8(s: bytes)
    decreases |s|
  {
    s == [] || (CharWidth(s) > 0 && Utf8(s[CharWidth(s)..]))
  }

  lemma {:induction false} AsciiIsUtf8(s: bytes)
    requires Ascii(s)
    ensures Utf8(s)
  {
    if s != [] {
      AsciiIsUtf8(s[1..]);
    }
  }

  // ---------------------------------------------------------------- numbers

  function Digit(b: byte): Option<nat> {
    if 48 <= b <= 57 then Some((b - 48) as nat)
    else if 97 <= b <= 122 then Some((b - 87) as nat)
    else if 65 <= b <= 90 then Some((b - 55) as nat)
    else None
  }

  /** The number that a string of digits stands for. */
  function Value(s: bytes, radix: nat): Option<nat> {
    if s == [] then Some(0)
    else
      match (Value(s[..|s| - 1], radix), Digit(s[|s| - 1]))
      case (Some(v), Some(d)) => if d < radix then Some(v * radix + d) else None
      case _ => None
  }

  /** `usize::from_str_radix`: one optional plus sign, at least one digit, no overflow. */
  function ParseUsize(s: bytes, radix: nat): (r: Option<nat>)
    ensures r.Some? ==> r.value < USIZE_LIMIT && s != []
  {
    var digits := if |s| > 1 && s[0] == PLUS then s[1..] else s;
    if digits == [] then None
    else
      match Value(digits, radix)
      case Some(v) => if v < USIZE_LIMIT then Some(v) else None
      case None => None
  }

  function DigitByte(d: nat): byte
    requires d < 16
  {
    if d < 10 then (48 + d) as byte else (87 + d) as byte
  }

  lemma DivMod(n: nat, radix: nat)
    requires (radix == 10 || radix == 16) && radix <= n
    ensures n / radix < n
    ensures n / radix * radix + n % radix == n
  {
    if radix == 10 {
      assert n / 10 * 10 + n % 10 == n;
    } else {
      assert n / 16 * 16 + n % 16 == n;
    }
  }

  /** The shortest lower-case spelling of `n`. */
  function Print(n: nat, radix: nat): (s: bytes)
    requires radix == 10 || radix == 16
    ensures |s| > 0
    decreases n
  {
    if n < radix then [DigitByte(n)]
    else
      DivMod(n, radix);
      Print(n / radix, radix) + [DigitByte(n % radix)]
  }

  /** A lower-case digit: neither white space, sign, separator nor line break. */
  predicate Numeral(s: bytes) {
    forall i :: 0 <= i < |s| ==> 48 <= s[i] <= 57 || 97 <= s[i] <= 102
  }

  lemma DigitByteValue(d: nat)
    requires d < 16
    ensures Digit(DigitByte(d)) == Some(d)
    ensures Numeral([DigitByte(d)])
  {
  }

  lemma ValueAppend(s: bytes, v: nat, d: nat, radix: nat)
    requires (radix == 10 || radix == 16) && d < radix && Value(s, radix) == Some(v)
    ensures Value(s + [DigitByte(d)], radix) == Some(v * radix + d)
  {
    var t := s + [DigitByte(d)];
    assert t[..|t| - 1] == s;
    DigitByteValue(d);
  }

  lemma {:induction false} PrintValue(n: nat, radix: nat)
    requires radix == 10 || radix == 16
    ensures Value(Print(n, radix), radix) == Some(n)
    ensures Numeral(Print(n, radix))
    decreases n
  {
    hide Value, Digit, DigitByte;
    if n < radix {
      assert Value([], radix) == Some(0) by { EmptyValue(radix); }
      ValueAppend([], 0, n, radix);
      assert [] + [DigitByte(n)] == [DigitByte(n)];
      DigitByteValue(n);
    } else {
      var q, d := n / radix, n % radix;
      DivMod(n, radix);
      PrintValue(q, radix);
      DigitByteValue(d);
      ValueAppend(Print(q, radix), q, d, radix);
    }
  }

  lemma EmptyValue(radix: nat)
    ensures Value([], radix) == Some(0)
  {
  }

  lemma NumeralUntrimmed(s: bytes)
    requires Numeral(s)
    ensures Trim(s) == s && BeforeSemicolon(s) == s && LineSafe(s) && StripCr(s) == s
  {
    assert LeadingSpace(s) == 0;
    assert TrailingSpace(s) == 0;
  }

  /** Printing and parsing a machine-size number are inverse. */
  lemma PrintParses(n: nat, radix: nat)
    requires (radix == 10 || radix == 16) && n < USIZE_LIMIT
    ensures ParseUsize(Print(n, radix), radix) == Some(n)
  {
    PrintValue(n, radix);
  }

  /** A numeral without leading zeros, in lower case. */
  function Canonical(s: bytes): bytes {
    if |s| > 1 && s[0] == 48 then Canonical(s[1..]) else LowerAll(s)
  }

  /** The only spellings of a number: digits in any case, zeros in front, at most one plus sign. */
  predicate Spells(s: bytes, n: nat, radix: nat)
    requires radix == 10 || radix == 16
  {
    var digits := if |s| > 1 && s[0] == PLUS then s[1..] else s;
    digits != [] && Canonical(digits) == Print(n, radix)
  }

  lemma LowerDigit(b: byte)
    ensures Digit(Lower(b)) == Digit(b)
    ensures Digit(b).Some? && Digit(b).value < 16 ==> Lower(b) == DigitByte(Digit(b).value)
    ensures Digit(b) == Some(0) <==> b == 48
  {
  }

  lemma {:induction false} LowerValue(s: bytes, radix: nat)
    ensures Value(LowerAll(s), radix) == Value(s, radix)
  {
    hide Digit;
    if s != [] {
      var n := |s| - 1;
      LowerValue(s[..n], radix);
      LowerDigit(s[n]);
      assert LowerAll(s)[..n] == LowerAll(s[..n]);
    }
  }

  lemma {:induction false} ZeroInFront(s: bytes, radix: nat)
    requires radix == 10 || radix == 16
    ensures Value([48] + s, radix) == Value(s, radix)
  {
    hide Digit;
    var t := [48] + s;
    if s == [] {
      LowerDigit(48);
      assert t[..0] == [] && t == [48];
    } else {
      var n := |s| - 1;
      ZeroInFront(s[..n], radix);
      assert t[..|t| - 1] == [48] + s[..n];
    }
  }

  lemma {:induction false} CanonicalValue(s: bytes, radix: nat)
    requires (radix == 10 || radix == 16) && s != []
    ensures Value(Canonical(s), radix) == Value(s, radix)
    ensures Canonical(s) != [] && (|Canonical(s)| > 1 ==> Canonical(s)[0] != 48)
    ensures LowerAll(Canonical(s)) == Canonical(s)
    decreases |s|
  {
    hide Value, Digit;
    if |s| > 1 && s[0] == 48 {
      CanonicalValue(s[1..], radix);
      ZeroInFront(s[1..], radix);
      assert s == [48] + s[1..];
    } else {
      LowerValue(s, radix);
    }
  }

  lemma ValueStep(s: bytes, radix: nat, n: nat) returns (v: nat, d: nat)
    requires s != [] && Value(s, radix) == Some(n)
    ensures Value(s[..|s| - 1], radix) == Some(v) && Digit(s[|s| - 1]) == Some(d)
    ensures d < radix && n == v * radix + d && (|s| == 1 ==> v == 0)
  {
    v, d := Value(s[..|s| - 1], radix).value, Digit(s[|s| - 1]).value;
  }

  lemma PrintStep(v: nat, d: nat, radix: nat)
    requires (radix == 10 || radix == 16) && d < radix
    ensures v == 0 ==> Print(v * radix + d, radix) == [DigitByte(d)]
    ensures v > 0 ==> Print(v * radix + d, radix) == Print(v, radix) + [DigitByte(d)]
  {
    if v > 0 {
      DivModBack(v, d, radix);
    } else {
      assert v * radix + d == d;
    }
  }

  /** A numeral in canonical form that has a value is the printed form of it. */
  lemma {:induction false} CanonicalIsPrinted(s: bytes, radix: nat, n: nat)
    requires (radix == 10 || radix == 16) && s != [] && LowerAll(s) == s && (|s| > 1 ==> s[0] != 48)
    requires Value(s, radix) == Some(n)
    ensures s == Print(n, radix) && (s[0] != 48 ==> n > 0)
    decreases |s|
  {
    var k := |s| - 1;
    var front, last := s[..k], s[k];
    var v, d := ValueStep(s, radix, n);
    LowerDigit(last);
    assert LowerAll(s)[k] == last;
    hide Value, Digit, DigitByte, Print;
    PrintStep(v, d, radix);
    if k == 0 {
      assert s == [last] && v * radix == 0;
    } else {
      assert LowerAll(front) == front by { assert forall i :: 0 <= i < k ==> LowerAll(s)[i] == s[i]; }
      CanonicalIsPrinted(front, radix, v);
      Positive(v, d, radix);
      assert s == front + [last];
    }
  }

  lemma Positive(v: nat, d: nat, radix: nat)
    requires radix > 0 && v > 0
    ensures v * radix + d > 0
  {
  }

  lemma DivModBack(v: nat, d: nat, radix: nat)
    requires (radix == 10 || radix == 16) && d < radix && v > 0
    ensures v * radix + d >= radix && (v * radix + d) / radix == v && (v * radix + d) % radix == d
  {
    if radix == 10 {
      assert (v * 10 + d) / 10 == v;
    } else {
      assert (v * 16 + d) / 16 == v;
    }
  }

  /** A text is read as a number if and only if it spells it and the number fits the machine. */
  lemma ParseExact(s: bytes, radix: nat, n: nat)
    requires radix == 10 || radix == 16
    ensures ParseUsize(s, radix) == Some(n) <==> n < USIZE_LIMIT && Spells(s, n, radix)
  {
    hide Value, Canonical, Print;
    var digits := if |s| > 1 && s[0] == PLUS then s[1..] else s;
    if digits != [] {
      CanonicalValue(digits, radix);
      PrintValue(n, radix);
      if Value(digits, radix) == Some(n) {
        CanonicalIsPrinted(Canonical(digits), radix, n);
      }
    }
  }
}
