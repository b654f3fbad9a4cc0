/** The two C library routines both terminal layers read replies with: the
    `%d` conversion of `sscanf` and `strrchr`. Integer overflow inside `%d`
    is undefined in C and is not modelled: values are unbounded. */
module Scan {
  import opened Bytes

  /** One `%d` conversion starting at k: white space is skipped, then an
      optional sign, then at least one digit must follow. `None` is a
      matching failure. The conversion never reads past a NUL, so scanning the
      raw bytes gives what scanning the C string gives. */
  function ScanInt(s: seq<Byte>, k: nat): (r: Option<Field>)
    requires k <= |s|
    ensures r.Some? ==> k < r.value.end <= |s| && IsDigit(s[r.value.end - 1])
    ensures r.Some? && r.value.end < |s| ==> !IsDigit(s[r.value.end])
  {
    var a := FirstFrom(s, k, NonSpace);
    var signed := a < |s| && (s[a] == PLUS || s[a] == MINUS);
    var d := if signed then a + 1 else a;
    var e := FirstFrom(s, d, NonDigit);
    if e == d then None
    else
      FirstFromLast(s, d, NonDigit);
      var v := DigitsAt(s, d, e);
      Some(Field(if signed && s[a] == MINUS then -v else v, e))
  }

  /** The value `%d` accumulates over the digits from d to e: each byte
      multiplies the value so far by ten and adds its digit. */
  function DigitsAt(s: seq<Byte>, d: nat, e: nat): int
    requires d <= e <= |s|
    decreases e - d
  {
    if e == d then 0 else DigitsAt(s, d, e - 1) * 10 + (s[e - 1] - ZERO)
  }

  /** Over a digit string the accumulated value is its decimal value. */
  lemma {:induction false} DigitsAtValue(s: seq<Byte>, d: nat, e: nat)
    requires d <= e <= |s| && AllDigits(s[d..e])
    ensures DigitsAt(s, d, e) == DigitsValue(s[d..e])
    decreases e - d
  {
    if e > d {
      assert s[d..e][..e - d - 1] == s[d..e - 1];
      DigitsAtValue(s, d, e - 1);
    }
  }

  /** `%d` reads back what `printf("%d")` wrote at k, when no digit follows
      it. */
  lemma {:induction false} ScanIntDecimal(s: seq<Byte>, k: nat, e: nat, n: int)
    requires e == k + |Decimal(n)| && e <= |s| && s[k..e] == Decimal(n)
    requires e == |s| || !IsDigit(s[e])
    ensures ScanInt(s, k) == Some(Field(n, e))
  {
    var text := Decimal(n);
    var m := if n < 0 then -n else n;
    var digits := DecimalDigits(m);
    var d := if n < 0 then k + 1 else k;
    assert s[k] == text[0];
    assert s[d..e] == digits;
    DigitRun(s, d, digits);
    ScanAt(s, k, d, e, n < 0, m);
  }

  /** The conversion at k when the digits run from d to e and a minus sign,
      when `negative`, sits at k. */
  lemma {:induction false} ScanAt(s: seq<Byte>, k: nat, d: nat, e: nat, negative: bool, v: int)
    requires k <= d < e <= |s| && d == (if negative then k + 1 else k)
    requires negative ==> s[k] == MINUS
    requires IsDigit(s[d]) && FirstFrom(s, d, NonDigit) == e && AllDigits(s[d..e])
    requires DigitsValue(s[d..e]) == v
    ensures ScanInt(s, k) == Some(Field(if negative then -v else v, e))
  {
    assert FirstFrom(s, k, NonSpace) == k;
    DigitsAtValue(s, d, e);
  }

  /** A digit string sitting at d and not followed by a digit is one digit
      run. */
  lemma {:induction false} DigitRun(s: seq<Byte>, d: nat, digits: seq<Byte>)
    requires d + |digits| <= |s| && s[d..d + |digits|] == digits && AllDigits(digits)
    requires d + |digits| == |s| || !IsDigit(s[d + |digits|])
    ensures FirstFrom(s, d, NonDigit) == d + |digits|
  {
    AllDigitsIndex(digits);
    forall t | d <= t < d + |digits| ensures IsDigit(s[t]) {
      assert s[t] == digits[t - d];
    }
    FirstFromSkip(s, d, |digits|, NonDigit);
  }

  /** `strrchr`: the index of the last occurrence of b. */
  function LastIndex(s: seq<Byte>, b: Byte): (r: Option<nat>)
    ensures r.Some? ==> r.value < |s| && s[r.value] == b && forall t :: r.value < t < |s| ==> s[t] != b
    ensures r.None? ==> forall t :: 0 <= t < |s| ==> s[t] != b
  {
    LastBelow(s, |s|, b)
  }

  /** The last occurrence of b among the first n bytes. */
  function LastBelow(s: seq<Byte>, n: nat, b: Byte): (r: Option<nat>)
    requires n <= |s|
    ensures r.Some? ==> r.value < n && s[r.value] == b && forall t :: r.value < t < n ==> s[t] != b
    ensures r.None? ==> forall t :: 0 <= t < n ==> s[t] != b
    decreases n
  {
    if n == 0 then None
    else if s[n - 1] == b then Some(n - 1)
    else LastBelow(s, n - 1, b)
  }

  /** The last occurrence is the one with no other occurrence after it. */
  lemma {:induction false} LastIndexAt(s: seq<Byte>, b: Byte, p: nat)
    requires p < |s| && s[p] == b && forall t :: p < t < |s| ==> s[t] != b
    ensures LastIndex(s, b) == Some(p)
  {
    LastBelowAt(s, |s|, b, p);
  }

  lemma {:induction false} LastBelowAt(s: seq<Byte>, n: nat, b: Byte, p: nat)
    requires p < n <= |s| && s[p] == b && forall t :: p < t < n ==> s[t] != b
    ensures LastBelow(s, n, b) == Some(p)
    decreases n
  {
    if n - 1 > p {
      LastBelowAt(s, n - 1, b, p);
    }
  }
}
