/** The java.lang.String and java.lang.Integer operations the client relies
    on, with Java's conventions: indexOf and lastIndexOf give -1 when the
    character is absent, and substring or parseInt fail (modelled as `None`)
    where Java throws. */
module JavaString {
  import opened Wrappers

  /** `s.lastIndexOf(c)`. */
  function LastIndexOf(s: string, c: char): (r: int)
    ensures -1 <= r < |s|
    ensures r == -1 <==> c !in s
    ensures r >= 0 ==> s[r] == c && forall j :: r < j < |s| ==> s[j] != c
    decreases |s|
  {
    if s == [] then -1
    else if s[|s| - 1] == c then |s| - 1
    else
      var init := s[..|s| - 1];
      assert s == init + [s[|s| - 1]];
      LastIndexOf(init, c)
  }

  /** `s.indexOf(c)`. */
  function IndexOf(s: string, c: char): (r: int)
    ensures -1 <= r < |s|
    ensures r == -1 <==> c !in s
    ensures r >= 0 ==> s[r] == c && forall j :: 0 <= j < r ==> s[j] != c
  {
    if s == [] then -1
    else if s[0] == c then 0
    else
      assert s == [s[0]] + s[1..];
      var k := IndexOf(s[1..], c);
      if k == -1 then -1 else k + 1
  }

  /** `s.substring(begin, end)`: `None` where Java throws
      StringIndexOutOfBoundsException. */
  function Substring(s: string, begin: int, end: int): Option<string> {
    if 0 <= begin <= end <= |s| then Some(s[begin..end]) else None
  }

  predicate StartsWith(s: string, prefix: string) {
    |prefix| <= |s| && s[..|prefix|] == prefix
  }

  predicate EndsWith(s: string, suffix: string) {
    |suffix| <= |s| && s[|s| - |suffix|..] == suffix
  }

  /** `s.contains(part)`: `part` occurs somewhere in `s`. */
  predicate Contains(s: string, part: string)
    decreases |s|
  {
    StartsWith(s, part) || (s != [] && Contains(s[1..], part))
  }

  /** A one-character string occurs in `s` exactly when its character does. */
  lemma {:induction false} ContainsChar(s: string, c: char)
    ensures Contains(s, [c]) <==> c in s
    decreases |s|
  {
    if s != [] {
      ContainsChar(s[1..], c);
      assert s == [s[0]] + s[1..];
    }
  }

  /** The character of a decimal digit. */
  function DigitChar(d: nat): (c: char)
    requires d < 10
    ensures '0' <= c <= '9' && c as int - '0' as int == d
  {
    ('0' as int + d) as char
  }

  predicate IsDigit(c: char) { '0' <= c <= '9' }

  /** `Integer.toString(n)` for a non-negative `n`. */
  function IntToString(n: nat): (r: string)
    ensures |r| >= 1
    ensures |r| == 1 <==> n < 10
    ensures forall i :: 0 <= i < |r| ==> IsDigit(r[i])
    decreases n
  {
    if n < 10 then [DigitChar(n)] else IntToString(n / 10) + [DigitChar(n % 10)]
  }

  /** The value of a non-empty run of decimal digits. */
  function DigitsValue(s: string): nat
    requires forall i :: 0 <= i < |s| ==> IsDigit(s[i])
    decreases |s|
  {
    if s == [] then 0
    else
      assert IsDigit(s[|s| - 1]);
      DigitsValue(s[..|s| - 1]) * 10 + (s[|s| - 1] as int - '0' as int)
  }

  const IntMax := 0x7fff_ffff

  /** `Integer.parseInt(s)`: an optional sign followed by at least one
      decimal digit, within the 32-bit range; `None` where Java throws
      NumberFormatException. */
  function ParseInt(s: string): Option<int> {
    if s == [] then None
    else if s[0] == '-' || s[0] == '+' then
      var digits := s[1..];
      if digits == [] || exists i :: 0 <= i < |digits| && !IsDigit(digits[i]) then None
      else
        var mag: int := DigitsValue(digits);
        var v := if s[0] == '-' then -mag else mag;
        if -IntMax - 1 <= v <= IntMax then Some(v) else None
    else if exists i :: 0 <= i < |s| && !IsDigit(s[i]) then None
    else
      var v := DigitsValue(s);
      if v <= IntMax then Some(v) else None
  }

  /** Parsing what `IntToString` prints gives the number back. */
  lemma {:induction false} DigitsValueOfIntToString(n: nat)
    ensures DigitsValue(IntToString(n)) == n
    decreases n
  {
    if n >= 10 {
      DigitsValueOfIntToString(n / 10);
      var s := IntToString(n);
      assert s[..|s| - 1] == IntToString(n / 10);
    }
  }

  lemma ParseIntOfIntToString(n: nat)
    requires n <= IntMax
    ensures ParseInt(IntToString(n)) == Some(n)
  {
    DigitsValueOfIntToString(n);
  }

  /** The last `c` is the one with no `c` after it. */
  lemma LastIndexOfBefore(a: string, c: char, b: string)
    requires c !in b
    ensures LastIndexOf(a + [c] + b, c) == |a|
  {
    var s := a + [c] + b;
    var r := LastIndexOf(s, c);
    assert s[|a|] == c;
  }

  /** The first `c` is the one with no `c` before it. */
  lemma IndexOfAfter(a: string, c: char, b: string)
    requires c !in a
    ensures IndexOf(a + [c] + b, c) == |a|
  {
    var s := a + [c] + b;
    var r := IndexOf(s, c);
    assert s[|a|] == c;
  }
}
