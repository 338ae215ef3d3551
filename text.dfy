/** The few Python string operations the serializers rely on, over an explicit ASCII
    character model: `str.strip()`, `str.lower()`, `str.isalpha()`, `str.isdigit()`,
    `str(n)` for integers and `int(s)` for strings. */
module Text {
  import opened Common

  /** Python's ASCII whitespace: tab, newline, vertical tab, form feed, carriage return,
      the four separators 0x1C-0x1F, and space. */
  predicate IsSpace(c: char) {
    9 <= c as int <= 13 || 28 <= c as int <= 32
  }

  predicate IsLetter(c: char) {
    'a' <= c <= 'z' || 'A' <= c <= 'Z'
  }

  predicate IsDigit(c: char) {
    '0' <= c <= '9'
  }

  /** `s.isalpha()`: non-empty and letters only. */
  predicate IsAlpha(s: string) {
    |s| > 0 && forall i :: 0 <= i < |s| ==> IsLetter(s[i])
  }

  /** `s.isdigit()`: non-empty and digits only. */
  predicate IsDigits(s: string) {
    |s| > 0 && forall i :: 0 <= i < |s| ==> IsDigit(s[i])
  }

  /** True when `s` neither starts nor ends with whitespace. */
  predicate Trimmed(s: string) {
    s == [] || (!IsSpace(s[0]) && !IsSpace(s[|s| - 1]))
  }

  function TrimLeft(s: string): (r: string)
    ensures |r| <= |s| && r == s[|s| - |r|..]
    ensures forall i :: 0 <= i < |s| - |r| ==> IsSpace(s[i])
    ensures r != [] ==> !IsSpace(r[0])
  {
    if s != [] && IsSpace(s[0]) then TrimLeft(s[1..]) else s
  }

  function TrimRight(s: string): (r: string)
    ensures |r| <= |s| && r == s[..|r|]
    ensures forall i :: |r| <= i < |s| ==> IsSpace(s[i])
    ensures r != [] ==> !IsSpace(r[|r| - 1])
  {
    if s != [] && IsSpace(s[|s| - 1]) then TrimRight(s[..|s| - 1]) else s
  }

  /** `r` sits at offset `k` of `s` with only whitespace before and after it. */
  predicate SurroundedBySpace(s: string, k: int, r: string) {
    && 0 <= k && k + |r| <= |s| && r == s[k..k + |r|]
    && (forall i :: 0 <= i < k ==> IsSpace(s[i]))
    && (forall i :: k + |r| <= i < |s| ==> IsSpace(s[i]))
  }

  /** `s.strip()`: `s` without its leading and trailing whitespace, that is, the infix of `s`
      that neither starts nor ends with whitespace and is surrounded by whitespace only;
      it is empty exactly when `s` is all whitespace. */
  function Strip(s: string): (r: string)
    ensures |r| <= |s|
    ensures Trimmed(r)
    ensures exists k :: SurroundedBySpace(s, k, r)
    ensures r == [] <==> forall i :: 0 <= i < |s| ==> IsSpace(s[i])
  {
    var t := TrimLeft(s);
    var r := TrimRight(t);
    var k := |s| - |t|;
    assert r != [] ==> r[0] == t[0];
    assert t == s[k..];
    assert r == s[k..k + |r|];
    assert forall i :: k + |r| <= i < |s| ==> s[i] == t[i - k];
    assert SurroundedBySpace(s, k, r);
    r
  }

  /** `Strip` is the only infix of `s` that neither starts nor ends with whitespace and has
      only whitespace around it, apart from the empty one. */
  lemma StripUnique(s: string, k: int, r: string)
    requires r != [] && Trimmed(r) && SurroundedBySpace(s, k, r)
    ensures Strip(s) == r
  {
    var t := Strip(s);
    var j :| SurroundedBySpace(s, j, t);
    var e, f := k + |r|, j + |t|;
    assert !IsSpace(s[k]) && !IsSpace(s[e - 1]) by { assert s[k] == r[0] && s[e - 1] == r[|r| - 1]; }
    assert t != [] by { assert !IsSpace(s[k]); }
    assert !IsSpace(s[j]) && !IsSpace(s[f - 1]) by { assert s[j] == t[0] && s[f - 1] == t[|t| - 1]; }
    assert j == k by {
      assert forall i :: 0 <= i < j ==> IsSpace(s[i]);
      assert forall i :: 0 <= i < k ==> IsSpace(s[i]);
    }
    assert f == e by {
      assert forall i :: f <= i < |s| ==> IsSpace(s[i]);
      assert forall i :: e <= i < |s| ==> IsSpace(s[i]);
    }
  }

  /** Stripping a string that has no surrounding whitespace changes nothing. */
  lemma StripTrimmed(s: string)
    requires Trimmed(s)
    ensures Strip(s) == s
  {
  }

  lemma StripIdempotent(s: string)
    ensures Strip(Strip(s)) == Strip(s)
  {
    StripTrimmed(Strip(s));
  }

  function LowerChar(c: char): char {
    if 'A' <= c <= 'Z' then (c as int + 32) as char else c
  }

  /** `s.lower()` over ASCII: same length, each upper-case letter replaced by its lower-case form. */
  function Lower(s: string): (r: string)
    ensures |r| == |s|
    ensures forall i :: 0 <= i < |s| ==> r[i] == LowerChar(s[i])
  {
    seq(|s|, i requires 0 <= i < |s| => LowerChar(s[i]))
  }

  lemma LowerIdempotent(s: string)
    ensures Lower(Lower(s)) == Lower(s)
  {
  }

  /** Lower-casing neither creates nor removes surrounding whitespace. */
  lemma LowerKeepsTrimmed(s: string)
    requires Trimmed(s)
    ensures Trimmed(Lower(s))
  {
  }

  /** Case-insensitive equality, the model of Django's `__iexact` lookup. */
  predicate EqualsIgnoreCase(a: string, b: string) {
    Lower(a) == Lower(b)
  }

  function DigitChar(d: nat): (c: char)
    requires d < 10
    ensures IsDigit(c)
  {
    ('0' as int + d) as char
  }

  function DigitOf(c: char): (d: nat)
    requires IsDigit(c)
    ensures d < 10 && DigitChar(d) == c
  {
    c as int - '0' as int
  }

  /** `str(n)` for a non-negative integer: its decimal digits, most significant first, with a
      leading zero only in "0" itself. */
  function NatToString(n: nat): (r: string)
    ensures IsDigits(r)
    ensures r[0] == '0' <==> n == 0
    ensures n == 0 ==> r == "0"
    decreases n
  {
    if n < 10 then [DigitChar(n)] else NatToString(n / 10) + [DigitChar(n % 10)]
  }

  /** The number a string of decimal digits denotes. */
  function DigitsValue(s: string): nat
    requires forall i :: 0 <= i < |s| ==> IsDigit(s[i])
  {
    if s == [] then 0 else DigitsValue(s[..|s| - 1]) * 10 + DigitOf(s[|s| - 1])
  }

  /** `int(str(n)) == n` on the digit level. */
  lemma {:induction false} DigitsValueOfNatToString(n: nat)
    ensures DigitsValue(NatToString(n)) == n
    decreases n
  {
    if n >= 10 {
      var s := NatToString(n);
      assert s[..|s| - 1] == NatToString(n / 10);
      DigitsValueOfNatToString(n / 10);
    }
  }

  /** `str(i)` for any Python integer: the digits of its magnitude without leading zeros,
      after a minus sign when it is negative. */
  function IntToString(i: int): (r: string)
    ensures i >= 0 ==> IsDigits(r) && DigitsValue(r) == i && (r == "0" || r[0] != '0')
    ensures i < 0 ==> |r| > 1 && r[0] == '-' && IsDigits(r[1..]) && DigitsValue(r[1..]) == -i && r[1] != '0'
  {
    var m: nat := if i < 0 then -i else i;
    DigitsValueOfNatToString(m);
    if i < 0 then
      var r := "-" + NatToString(m);
      assert r[1..] == NatToString(m);
      r
    else NatToString(m)
  }

  /** `int(s)` for a string: surrounding whitespace is ignored, one optional sign, then
      decimal digits; anything else is a ValueError (None). */
  function PyInt(s: string): (r: Option<int>)
    ensures Strip(s) == [] ==> r == None
    ensures IsDigits(Strip(s)) ==> r == Some(DigitsValue(Strip(s)))
    ensures |Strip(s)| > 1 && Strip(s)[0] == '+' && IsDigits(Strip(s)[1..]) ==> r == Some(DigitsValue(Strip(s)[1..]))
    ensures |Strip(s)| > 1 && Strip(s)[0] == '-' && IsDigits(Strip(s)[1..]) ==> r == Some(0 - DigitsValue(Strip(s)[1..]) as int)
    ensures r.Some? ==> IsDigits(Strip(s)) || ((Strip(s)[0] == '+' || Strip(s)[0] == '-') && IsDigits(Strip(s)[1..]))
  {
    var t := Strip(s);
    if |t| > 0 && (t[0] == '+' || t[0] == '-') && IsDigits(t[1..]) then
      Some(if t[0] == '-' then 0 - DigitsValue(t[1..]) as int else DigitsValue(t[1..]))
    else if IsDigits(t) then
      Some(DigitsValue(t))
    else
      None
  }

  /** `int(str(i)) == i`. */
  lemma IntToStringRoundTrip(i: int)
    ensures PyInt(IntToString(i)) == Some(i)
  {
    var s := IntToString(i);
    var d := NatToString(if i < 0 then -i else i);
    DigitsValueOfNatToString(if i < 0 then -i else i);
    assert !IsSpace(s[0]) && !IsSpace(s[|s| - 1]);
    StripTrimmed(s);
    if i < 0 {
      assert s[1..] == d;
    }
  }

  /** A digit string is its own strip, and `int` of it is its digit value. */
  lemma PyIntOfDigits(s: string)
    requires IsDigits(s)
    ensures Strip(s) == s && PyInt(s) == Some(DigitsValue(s))
  {
    assert !IsSpace(s[0]) && !IsSpace(s[|s| - 1]);
    StripTrimmed(s);
  }
}
