/**
 * The string operations the classifier uses: `str.lower`, `str.upper`, the `in`
 * substring test, and `str(int)` (with its inverse, used to read a rendered
 * resolution back).
 */
module TextOps {
  import opened Wrappers

  /** ASCII lower-casing of one character. */
  function LowerChar(c: char): char {
    if 'A' <= c <= 'Z' then (c as int + 32) as char else c
  }

  /** ASCII upper-casing of one character. */
  function UpperChar(c: char): char {
    if 'a' <= c <= 'z' then (c as int - 32) as char else c
  }

  /** `s.lower()`, restricted to ASCII letters. */
  function Lower(s: string): (r: string)
    ensures |r| == |s|
    ensures forall i :: 0 <= i < |s| ==> r[i] == LowerChar(s[i])
  {
    if s == [] then [] else [LowerChar(s[0])] + Lower(s[1..])
  }

  /** `s.upper()`, restricted to ASCII letters. */
  function Upper(s: string): (r: string)
    ensures |r| == |s|
    ensures forall i :: 0 <= i < |s| ==> r[i] == UpperChar(s[i])
  {
    if s == [] then [] else [UpperChar(s[0])] + Upper(s[1..])
  }

  /** `s` has no upper-case ASCII letter. */
  predicate NoUpperCase(s: string) {
    forall i :: 0 <= i < |s| ==> !('A' <= s[i] <= 'Z')
  }

  /** Upper-casing loses nothing on strings without upper-case letters. */
  lemma UpperInjectiveOn(s: string, t: string)
    requires NoUpperCase(s) && NoUpperCase(t)
    requires Upper(s) == Upper(t)
    ensures s == t
  {
    forall i | 0 <= i < |s|
      ensures s[i] == t[i]
    {
      assert UpperChar(s[i]) == UpperChar(t[i]);
    }
  }

  /** `s[1:]`: all but the first character, and "" for "". */
  function DropFirst(s: string): (r: string)
    ensures s != [] ==> [s[0]] + r == s
    ensures s == [] ==> r == []
  {
    if s == [] then [] else s[1..]
  }

  /** `sub` occurs in `s` starting at index `i`. */
  predicate OccursAt(s: string, sub: string, i: int) {
    0 <= i <= |s| - |sub| && s[i..i + |sub|] == sub
  }

  /** Python's `sub in s` on strings. */
  predicate Contains(s: string, sub: string)
    ensures Contains(s, sub) ==> |sub| <= |s|
    ensures |sub| <= |s| && OccursAt(s, sub, |s| - |sub|) ==> Contains(s, sub)
    ensures sub == [] ==> Contains(s, sub)
  {
    exists i | 0 <= i <= |s| - |sub| :: OccursAt(s, sub, i)
  }

  /** Lower-casing commutes with slicing. */
  lemma LowerSlice(s: string, i: int, j: int)
    requires 0 <= i <= j <= |s|
    ensures Lower(s)[i..j] == Lower(s[i..j])
  {
    LowerPrefix(s, j);
    LowerSuffix(s[..j], i);
    assert s[..j][i..] == s[i..j];
  }

  /** Lower-casing commutes with taking a prefix. */
  lemma {:induction false} LowerPrefix(s: string, j: int)
    requires 0 <= j <= |s|
    ensures Lower(s)[..j] == Lower(s[..j])
  {
    if j > 0 {
      LowerPrefix(s[1..], j - 1);
      assert s[..j][1..] == s[1..][..j - 1];
    }
  }

  /** Lower-casing commutes with dropping a prefix. */
  lemma {:induction false} LowerSuffix(s: string, i: int)
    requires 0 <= i <= |s|
    ensures Lower(s)[i..] == Lower(s[i..])
  {
    if i > 0 {
      LowerSuffix(s[1..], i - 1);
      assert s[1..][i - 1..] == s[i..];
    }
  }

  /** The window of `s` at index `i`, as long as `sub`, lower-cases to `sub`. */
  predicate OccursIgnoringCaseAt(s: string, sub: string, i: int) {
    0 <= i <= |s| - |sub| && Lower(s[i..i + |sub|]) == sub
  }

  /**
   * `sub in s.lower()` is a case-insensitive search: it holds exactly when some
   * window of `s` itself lower-cases to `sub`.
   */
  lemma ContainsLowered(s: string, sub: string)
    ensures Contains(Lower(s), sub) <==> exists i :: OccursIgnoringCaseAt(s, sub, i)
  {
    if Contains(Lower(s), sub) {
      var i :| OccursAt(Lower(s), sub, i);
      WindowLowered(s, sub, i);
    }
    if exists i :: OccursIgnoringCaseAt(s, sub, i) {
      var i :| OccursIgnoringCaseAt(s, sub, i);
      WindowLowered(s, sub, i);
    }
  }

  /** At one index, `sub` occurs in `s.lower()` exactly when the window of `s` there lower-cases to it. */
  lemma WindowLowered(s: string, sub: string, i: int)
    ensures OccursAt(Lower(s), sub, i) <==> OccursIgnoringCaseAt(s, sub, i)
  {
    if 0 <= i <= |s| - |sub| {
      LowerSlice(s, i, i + |sub|);
    }
  }

  predicate IsDigit(c: char) {
    '0' <= c <= '9'
  }

  predicate AllDigits(s: string) {
    forall i :: 0 <= i < |s| ==> IsDigit(s[i])
  }

  function DigitChar(d: nat): (c: char)
    requires d < 10
    ensures IsDigit(c)
  {
    ('0' as int + d) as char
  }

  function DigitValue(c: char): (d: nat)
    requires IsDigit(c)
    ensures d < 10 && DigitChar(d) == c
  {
    c as int - '0' as int
  }

  /** `str(n)` for a non-negative integer: decimal digits, no leading zero. */
  function NatToString(n: nat): (s: string)
    ensures |s| > 0 && AllDigits(s)
  {
    if n < 10 then [DigitChar(n)] else NatToString(n / 10) + [DigitChar(n % 10)]
  }

  /** `str(i)` for any integer: a minus sign before the digits of a negative number. */
  function IntToString(i: int): (s: string)
    ensures |s| > 0
    ensures forall k :: 0 <= k < |s| ==> s[k] == '-' || IsDigit(s[k])
  {
    if i < 0 then "-" + NatToString(-i) else NatToString(i)
  }

  /** The value of a non-empty string of decimal digits. */
  function ParseNat(s: string): nat
    requires |s| > 0 && AllDigits(s)
  {
    if |s| == 1 then DigitValue(s[0])
    else ParseNat(s[..|s| - 1]) * 10 + DigitValue(s[|s| - 1])
  }

  /** Reads an optionally signed decimal integer; `None` for anything else. */
  function ParseInt(s: string): Option<int> {
    if |s| > 1 && s[0] == '-' && AllDigits(s[1..]) then Some(-(ParseNat(s[1..]) as int))
    else if |s| > 0 && AllDigits(s) then Some(ParseNat(s))
    else None
  }

  lemma {:induction false} ParseNatToString(n: nat)
    ensures ParseNat(NatToString(n)) == n
  {
    if n >= 10 {
      var s := NatToString(n);
      assert s[..|s| - 1] == NatToString(n / 10);
      ParseNatToString(n / 10);
    }
  }

  /** Reading back `str(i)` gives `i`. */
  lemma IntToStringRoundTrip(i: int)
    ensures ParseInt(IntToString(i)) == Some(i)
  {
    if i < 0 {
      var s := IntToString(i);
      assert s[1..] == NatToString(-i);
      ParseNatToString(-i);
    } else {
      var s := NatToString(i);
      assert s[0] != '-';
      ParseNatToString(i);
    }
  }

  /** Index of the first `c` in `s`, or `|s|` when there is none. */
  function FirstIndex(s: string, c: char): (k: nat)
    ensures k <= |s|
    ensures k < |s| ==> s[k] == c
    ensures forall j :: 0 <= j < k ==> s[j] != c
  {
    if s == [] then 0 else if s[0] == c then 0 else 1 + FirstIndex(s[1..], c)
  }

  /** Index of the last `c` in `s`, or -1 when there is none (`s.rfind(c)`). */
  function LastIndex(s: string, c: char): (k: int)
    ensures -1 <= k < |s|
    ensures k >= 0 ==> s[k] == c
    ensures forall j :: k < j < |s| ==> s[j] != c
  {
    if s == [] then -1
    else if s[|s| - 1] == c then |s| - 1
    else LastIndex(s[..|s| - 1], c)
  }
}
