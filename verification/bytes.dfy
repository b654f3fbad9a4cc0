/** Bytes as the terminal delivers them, and the few character classes the
    decoders test. A C `char` holding one of these is compared only against
    ASCII values, so signedness never changes an outcome. */
module Bytes {

  /** An optional value. */
  datatype Option<T> = None | Some(value: T)

  type Byte = b: int | 0 <= b < 256

  const NUL: Byte := 0x00
  const LF: Byte := 0x0A
  const CR: Byte := 0x0D
  const ESC: Byte := 0x1B
  const SEMICOLON: Byte := 0x3B
  const LESS: Byte := 0x3C
  const LBRACKET: Byte := 0x5B
  const UPPER_M: Byte := 0x4D
  const LOWER_M: Byte := 0x6D
  const UPPER_R: Byte := 0x52
  const TILDE: Byte := 0x7E
  const PLUS: Byte := 0x2B
  const MINUS: Byte := 0x2D
  const ZERO: Byte := 0x30

  predicate IsDigit(b: Byte) {
    0x30 <= b <= 0x39
  }

  /** The characters C's isspace accepts in the "C" locale. */
  predicate IsSpace(b: Byte) {
    b == 0x20 || 0x09 <= b <= 0x0D
  }

  predicate IsLetter(b: Byte) {
    (0x41 <= b <= 0x5A) || (0x61 <= b <= 0x7A)
  }

  /** Every byte of s is a decimal digit (stated from the right, the way
      `DigitsValue` consumes it). */
  predicate AllDigits(s: seq<Byte>)
    decreases |s|
  {
    |s| == 0 || (IsDigit(s[|s| - 1]) && AllDigits(s[..|s| - 1]))
  }

  lemma {:induction false} AllDigitsIndex(s: seq<Byte>)
    ensures AllDigits(s) <==> forall k :: 0 <= k < |s| ==> IsDigit(s[k])
    decreases |s|
  {
    if |s| > 0 {
      var init := s[..|s| - 1];
      AllDigitsIndex(init);
      assert forall k :: 0 <= k < |init| ==> init[k] == s[k];
    }
  }

  /** Decimal value of a digit string, accumulated left to right: each digit
      multiplies the value so far by ten and adds itself
      (src/cgt_linux.cpp:86). */
  function DigitsValue(s: seq<Byte>): (v: nat)
    requires AllDigits(s)
    ensures |s| == 0 ==> v == 0
  {
    if |s| == 0 then 0 else DigitsValue(s[..|s| - 1]) * 10 + (s[|s| - 1] - ZERO)
  }

  /** One more digit on the right multiplies by ten and adds that digit. */
  lemma {:induction false} DigitsValueSnoc(s: seq<Byte>, d: Byte)
    requires AllDigits(s) && IsDigit(d)
    ensures AllDigits(s + [d]) && DigitsValue(s + [d]) == DigitsValue(s) * 10 + (d - ZERO)
  {
    assert (s + [d])[..|s|] == s;
  }

  predicate NoNul(s: seq<Byte>) {
    forall k :: 0 <= k < |s| ==> s[k] != NUL
  }

  /** What C string functions see of a byte array: everything before the
      first NUL. */
  function UpToNul(s: seq<Byte>): (r: seq<Byte>)
    ensures |r| <= |s| && r == s[..|r|] && NoNul(r)
    ensures |r| < |s| ==> s[|r|] == NUL
  {
    if |s| == 0 || s[0] == NUL then [] else [s[0]] + UpToNul(s[1..])
  }

  lemma {:induction false} UpToNulOfNoNul(s: seq<Byte>)
    requires NoNul(s)
    ensures UpToNul(s) == s
    decreases |s|
  {
    if |s| > 0 {
      UpToNulOfNoNul(s[1..]);
    }
  }

  /** A C string followed by its terminator reads back as itself. */
  lemma {:induction false} UpToNulTerminated(s: seq<Byte>, rest: seq<Byte>)
    requires NoNul(s)
    ensures UpToNul(s + [NUL] + rest) == s
  {
    if |s| > 0 {
      assert (s + [NUL] + rest)[1..] == s[1..] + [NUL] + rest;
      UpToNulTerminated(s[1..], rest);
    } else {
      assert (s + [NUL] + rest)[0] == NUL;
    }
  }

  /** A string whose C string is read up to a NUL at n, or to its end. */
  lemma {:induction false} UpToNulAt(s: seq<Byte>, n: nat)
    requires n <= |s| && NoNul(s[..n]) && (n == |s| || s[n] == NUL)
    ensures UpToNul(s) == s[..n]
  {
    if n == |s| {
      assert s[..n] == s;
      UpToNulOfNoNul(s);
    } else {
      assert s == s[..n] + [NUL] + s[n + 1..];
      UpToNulTerminated(s[..n], s[n + 1..]);
    }
  }

  lemma {:induction false} NoNulAppend(a: seq<Byte>, b: seq<Byte>)
    requires NoNul(a) && NoNul(b)
    ensures NoNul(a + b)
  {
    forall k | 0 <= k < |a + b| ensures (a + b)[k] != NUL {
      if k >= |a| {
        assert (a + b)[k] == b[k - |a|];
      }
    }
  }

  /** The last byte of an SGR mouse report: 'M' for a press or motion, 'm'
      for a release. */
  predicate IsMouseFinal(b: Byte) { b == UPPER_M || b == LOWER_M }

  /** The final-byte range 0x40-0x7E of a control sequence (ECMA-48 section 5.4). */
  predicate IsCsiFinal(b: Byte) { 0x40 <= b <= 0x7E }

  /** The bytes the decoders' forward scans stop at. */
  datatype Stop = NonDigit | NonSpace | MouseFinal | CsiFinal | LetterOrTilde

  predicate StopsAt(stop: Stop, b: Byte) {
    match stop
    case NonDigit => !IsDigit(b)
    case NonSpace => !IsSpace(b)
    case MouseFinal => IsMouseFinal(b)
    case CsiFinal => IsCsiFinal(b)
    case LetterOrTilde => IsLetter(b) || b == TILDE
  }

  /** Index of the first byte at or after k that satisfies `stop`, or |s| when
      there is none: the shape of every forward `while` scan in both decoders. */
  function FirstFrom(s: seq<Byte>, k: nat, stop: Stop): (p: nat)
    requires k <= |s|
    ensures k <= p <= |s|
    ensures p < |s| ==> StopsAt(stop, s[p])
    decreases |s| - k
  {
    if k == |s| || StopsAt(stop, s[k]) then k else FirstFrom(s, k + 1, stop)
  }

  /** No byte the scan passes over stops it. */
  lemma {:induction false} FirstFromPassed(s: seq<Byte>, k: nat, stop: Stop)
    requires k <= |s|
    ensures forall t :: k <= t < FirstFrom(s, k, stop) ==> !StopsAt(stop, s[t])
    decreases |s| - k
  {
    if k < |s| && !StopsAt(stop, s[k]) {
      FirstFromPassed(s, k + 1, stop);
    }
  }

  /** The byte just before where a scan stopped did not stop it. */
  lemma {:induction false} FirstFromLast(s: seq<Byte>, k: nat, stop: Stop)
    requires k <= |s| && k < FirstFrom(s, k, stop)
    ensures !StopsAt(stop, s[FirstFrom(s, k, stop) - 1])
  {
    FirstFromPassed(s, k, stop);
  }

  /** A scan that stops inside `s` gives the same index on any extension of it. */
  lemma {:induction false} FirstFromExtend(s: seq<Byte>, more: seq<Byte>, k: nat, stop: Stop)
    requires k <= |s| && FirstFrom(s, k, stop) < |s|
    ensures FirstFrom(s + more, k, stop) == FirstFrom(s, k, stop)
    decreases |s| - k
  {
    if !StopsAt(stop, s[k]) {
      FirstFromExtend(s, more, k + 1, stop);
    }
  }

  /** The bytes from k to e are a digit string when each of them is a digit. */
  lemma {:induction false} DigitsBetween(s: seq<Byte>, k: nat, e: nat)
    requires k <= e <= |s| && forall t :: k <= t < e ==> IsDigit(s[t])
    ensures AllDigits(s[k..e])
  {
    AllDigitsIndex(s[k..e]);
    assert forall t :: 0 <= t < e - k ==> s[k..e][t] == s[k + t];
  }

  /** A number read from a byte string and the index just past it. */
  datatype Field = Field(value: int, end: nat)

  /** The decimal digits of n with no leading zero, as `printf("%d")` and a
      terminal's SGR mouse report write it. */
  function DecimalDigits(n: nat): (r: seq<Byte>)
    ensures |r| >= 1 && AllDigits(r)
    ensures DigitsValue(r) == n
    decreases n
  {
    var last: Byte := ZERO + n % 10;
    if n < 10 then [last]
    else
      var r := DecimalDigits(n / 10) + [last];
      DigitsValueSnoc(DecimalDigits(n / 10), last);
      r
  }

  /** The text `printf("%d", n)` writes. */
  function Decimal(n: int): (r: seq<Byte>)
    ensures |r| >= 1 && NoNul(r)
    ensures n >= 0 ==> AllDigits(r) && DigitsValue(r) == n
    ensures n < 0 ==> r[0] == MINUS && AllDigits(r[1..]) && DigitsValue(r[1..]) == -n
  {
    var d := DecimalDigits(if n < 0 then -n else n);
    AllDigitsIndex(d);
    if n < 0 then
      assert ([MINUS] + d)[1..] == d;
      [MINUS] + d
    else d
  }

  /** Digits, with at most a leading minus sign. */
  predicate Numeral(r: seq<Byte>) {
    forall t :: 0 <= t < |r| ==> IsDigit(r[t]) || (t == 0 && r[t] == MINUS)
  }

  /** `printf("%d")` writes a numeral. */
  lemma {:induction false} DecimalBytes(n: int)
    ensures Numeral(Decimal(n))
  {
    var r := Decimal(n);
    if n < 0 {
      AllDigitsIndex(r[1..]);
      assert forall t :: 1 <= t < |r| ==> r[t] == r[1..][t - 1];
    } else {
      AllDigitsIndex(r);
    }
  }

  /** Dropping a prefix of the left operand of a concatenation. */
  lemma {:induction false} DropAppend(a: seq<Byte>, b: seq<Byte>, n: nat)
    requires n <= |a|
    ensures (a + b)[n..] == a[n..] + b
  {
  }

  lemma {:induction false} SeqAssoc<T>(a: seq<T>, b: seq<T>, c: seq<T>)
    ensures a + (b + c) == a + b + c
  {
  }

  lemma {:induction false} AppendNil<T>(a: seq<T>)
    ensures [] + a == a && a + [] == a
  {
  }

  /** The outer parts of a three-part concatenation. */
  lemma {:induction false} Sides(pre: seq<Byte>, mid: seq<Byte>, post: seq<Byte>)
    ensures (pre + mid + post)[|pre + mid|..] == post && (pre + mid + post)[..|pre|] == pre
  {
  }

  /** Dropping i bytes and then j more drops i + j. */
  lemma {:induction false} DropDrop(s: seq<Byte>, i: nat, j: nat)
    requires i + j <= |s|
    ensures s[i..][j..] == s[i + j..]
  {
  }

  /** A scan from n + k in `s` whose bytes from n on are `t` never looks
      before n: it stops where the scan from k in `t` stops, moved by n. */
  lemma {:induction false} FirstFromShift(s: seq<Byte>, t: seq<Byte>, n: nat, k: nat, stop: Stop)
    requires n <= |s| && s[n..] == t && k <= |t|
    ensures FirstFrom(s, n + k, stop) == n + FirstFrom(t, k, stop)
    decreases |t| - k
  {
    if k < |t| {
      assert s[n + k] == t[k];
      if !StopsAt(stop, t[k]) {
        FirstFromShift(s, t, n, k + 1, stop);
      }
    }
  }

  /** A scan passes over n bytes none of which stops it. */
  lemma {:induction false} FirstFromSkip(s: seq<Byte>, k: nat, n: nat, stop: Stop)
    requires k + n <= |s|
    requires forall t :: k <= t < k + n ==> !StopsAt(stop, s[t])
    ensures FirstFrom(s, k, stop) == FirstFrom(s, k + n, stop)
    decreases n
  {
    if n > 0 {
      FirstFromSkip(s, k + 1, n - 1, stop);
    }
  }
}
