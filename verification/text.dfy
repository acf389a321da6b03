/** String helpers the application relies on from Python: `str.strip()`,
    `str.startswith`, decimal rendering of an `int` in an f-string, and the
    count of `%s` parameter markers in an SQL text. */
module Text {

  /** Python's `str.isspace()` for one character: the code points whose
      bidirectional class is WS, B or S, or whose category is Zs. */
  predicate IsSpace(c: char) {
    var n := c as int;
    (9 <= n <= 13) || (28 <= n <= 32) || n == 0x85 || n == 0xA0 || n == 0x1680
    || (0x2000 <= n <= 0x200A) || n == 0x2028 || n == 0x2029 || n == 0x202F
    || n == 0x205F || n == 0x3000
  }

  /** Every character is whitespace (the empty string included). */
  predicate IsBlank(s: string) {
    forall i :: 0 <= i < |s| ==> IsSpace(s[i])
  }

  /** `s` with its leading whitespace removed. */
  function TrimStart(s: string): (r: string)
    ensures |r| <= |s| && r == s[|s| - |r|..]
    ensures forall i :: 0 <= i < |s| - |r| ==> IsSpace(s[i])
    ensures r == [] || !IsSpace(r[0])
  {
    if s == [] || !IsSpace(s[0]) then s else TrimStart(s[1..])
  }

  /** `s` with its trailing whitespace removed. */
  function TrimEnd(s: string): (r: string)
    ensures |r| <= |s| && r == s[..|r|]
    ensures forall i :: |r| <= i < |s| ==> IsSpace(s[i])
    ensures r == [] || !IsSpace(r[|r| - 1])
  {
    if s == [] || !IsSpace(s[|s| - 1]) then s else TrimEnd(s[..|s| - 1])
  }

  /** Python's `str.strip()` with no argument. The result is the slice of
      `s` left after removing a whitespace prefix and a whitespace suffix;
      it is empty exactly when the input is all whitespace, and otherwise it
      neither starts nor ends with whitespace. */
  function Strip(s: string): (r: string)
    ensures |r| <= |s|
    ensures exists a, b :: SliceBetweenBlanks(s, r, a, b)
    ensures r == [] <==> IsBlank(s)
    ensures r == [] || (!IsSpace(r[0]) && !IsSpace(r[|r| - 1]))
  {
    var t := TrimStart(s);
    var r := TrimEnd(t);
    assert r != [] ==> r[0] == t[0];
    TrimmedEmptyOnlyIfBlank(s);
    StripIsSlice(s, t, r);
    r
  }

  /** `r` is `s[a..b]`, and everything outside it is whitespace. */
  predicate SliceBetweenBlanks(s: string, r: string, a: int, b: int) {
    0 <= a <= b <= |s| && r == s[a..b] && IsBlank(s[..a]) && IsBlank(s[b..])
  }

  /** The two trims cut a whitespace prefix and a whitespace suffix off `s`. */
  lemma StripIsSlice(s: string, t: string, r: string)
    requires |t| <= |s| && t == s[|s| - |t|..]
    requires forall i :: 0 <= i < |s| - |t| ==> IsSpace(s[i])
    requires |r| <= |t| && r == t[..|r|]
    requires forall i :: |r| <= i < |t| ==> IsSpace(t[i])
    ensures exists a, b :: SliceBetweenBlanks(s, r, a, b)
  {
    var a := |s| - |t|;
    var b := a + |r|;
    assert s[a..b] == r;
    PrefixBlank(s, a);
    SuffixBlank(s, t, r, b);
    assert SliceBetweenBlanks(s, r, a, b);
  }

  lemma PrefixBlank(s: string, a: int)
    requires 0 <= a <= |s|
    requires forall i :: 0 <= i < a ==> IsSpace(s[i])
    ensures IsBlank(s[..a])
  {
    forall i | 0 <= i < a ensures IsSpace(s[..a][i]) {
      assert s[..a][i] == s[i];
    }
  }

  lemma SuffixBlank(s: string, t: string, r: string, b: int)
    requires |t| <= |s| && t == s[|s| - |t|..]
    requires |r| <= |t| && forall i :: |r| <= i < |t| ==> IsSpace(t[i])
    requires b == |s| - |t| + |r|
    ensures IsBlank(s[b..])
  {
    forall i | 0 <= i < |s| - b ensures IsSpace(s[b..][i]) {
      assert s[b..][i] == t[|r| + i];
    }
  }

  lemma TrimmedEmptyOnlyIfBlank(s: string)
    ensures TrimEnd(TrimStart(s)) == [] ==> IsBlank(s)
  {
  }

  /** Stripping twice is stripping once. */
  lemma {:induction false} StripIdempotent(s: string)
    ensures Strip(Strip(s)) == Strip(s)
  {
    var r := Strip(s);
    if r != [] {
      assert TrimStart(r) == r;
      assert TrimEnd(r) == r;
    }
  }

  predicate StartsWith(s: string, prefix: string) {
    |prefix| <= |s| && s[..|prefix|] == prefix
  }

  predicate IsDigit(c: char) {
    '0' <= c <= '9'
  }

  predicate AllDigits(s: string) {
    forall i :: 0 <= i < |s| ==> IsDigit(s[i])
  }

  function DigitChar(d: nat): (c: char)
    requires d < 10
    ensures IsDigit(c) && (c as int) - ('0' as int) == d
  {
    (('0' as int) + d) as char
  }

  /** The decimal text of `n` that an f-string produces: at least one digit,
      digits only. */
  function NatToString(n: nat): (r: string)
    ensures |r| > 0 && AllDigits(r)
  {
    if n < 10 then [DigitChar(n)] else NatToString(n / 10) + [DigitChar(n % 10)]
  }

  /** The value of a string of decimal digits (the partner of `NatToString`). */
  function DigitsValue(s: string): nat
    requires AllDigits(s)
  {
    if s == [] then 0
    else 10 * DigitsValue(s[..|s| - 1]) + ((s[|s| - 1] as int) - ('0' as int))
  }

  /** Reading back the decimal text of `n` gives `n`. */
  lemma {:induction false} DigitsValueOfNatToString(n: nat)
    ensures DigitsValue(NatToString(n)) == n
  {
    if n >= 10 {
      var s := NatToString(n);
      assert s[..|s| - 1] == NatToString(n / 10);
      DigitsValueOfNatToString(n / 10);
    }
  }

  /** Distinct numbers have distinct decimal texts. */
  lemma NatToStringInjective(m: nat, n: nat)
    requires m != n
    ensures NatToString(m) != NatToString(n)
  {
    DigitsValueOfNatToString(m);
    DigitsValueOfNatToString(n);
  }

  /** The number of `%s` parameter markers in `s`. */
  function CountMarkers(s: string): nat
  {
    if |s| < 2 then 0
    else (if s[0] == '%' && s[1] == 's' then 1 else 0) + CountMarkers(s[1..])
  }

  /** Markers of a concatenation are the markers of the parts, provided no
      marker straddles the seam. */
  lemma {:induction false} CountMarkersConcat(a: string, b: string)
    requires a == [] || a[|a| - 1] != '%'
    ensures CountMarkers(a + b) == CountMarkers(a) + CountMarkers(b)
  {
    if a != [] && |a + b| >= 2 {
      assert (a + b)[1..] == a[1..] + b;
      if |a| == 1 {
        assert a[1..] + b == b;
      } else {
        assert (a + b)[0] == a[0] && (a + b)[1] == a[1];
        CountMarkersConcat(a[1..], b);
      }
    } else if a == [] {
      assert a + b == b;
    } else {
      assert a + b == a;
    }
  }
}
