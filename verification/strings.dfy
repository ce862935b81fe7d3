/** String primitives the reporting code relies on: `std::string::find` and the
    decimal rendering `std::ostream` uses for an unsigned count. */
module Strings {
  import opened Wrappers

  /** `pat` occurs in `s` starting at index `i`. */
  predicate OccursAt(s: string, pat: string, i: nat)
  {
    i + |pat| <= |s| && s[i..i + |pat|] == pat
  }

  /** `pat` occurs somewhere in `s`. */
  ghost predicate Contains(s: string, pat: string)
  {
    exists i: nat :: OccursAt(s, pat, i)
  }

  /** `std::string::find(pat, start)`: the first index at or after `start`
      where `pat` occurs; `None` plays the part of `npos`. */
  function FindFrom(s: string, pat: string, start: nat): (r: Option<nat>)
    requires start <= |s|
    ensures r.Some? ==> start <= r.value && OccursAt(s, pat, r.value)
    ensures r.Some? ==> forall j: nat :: start <= j < r.value ==> !OccursAt(s, pat, j)
    ensures r.None? ==> forall j: nat :: start <= j ==> !OccursAt(s, pat, j)
    decreases |s| - start
  {
    if start + |pat| > |s| then None
    else if s[start..start + |pat|] == pat then Some(start)
    // Never taken: at the end of `s` the two tests above have decided.
    // It lets the recursive call below keep `start + 1 <= |s|`.
    else if start == |s| then None
    else FindFrom(s, pat, start + 1)
  }

  /** `std::string::find(pat)`: the first occurrence of `pat` in `s`.
      The empty pattern is found at index 0. */
  function Find(s: string, pat: string): (r: Option<nat>)
    ensures r.Some? <==> Contains(s, pat)
    ensures r.Some? ==> OccursAt(s, pat, r.value)
    ensures r.Some? ==> forall j: nat :: j < r.value ==> !OccursAt(s, pat, j)
  {
    FindFrom(s, pat, 0)
  }

  /** An occurrence with none before it is what `Find` returns. */
  lemma FindFirst(s: string, pat: string, i: nat)
    requires OccursAt(s, pat, i)
    requires forall j: nat :: j < i ==> !OccursAt(s, pat, j)
    ensures Find(s, pat) == Some(i)
  {
    assert Find(s, pat).Some?;
  }

  lemma FindEmpty(s: string)
    ensures Find(s, "") == Some(0)
  {
    assert OccursAt(s, "", 0);
  }

  predicate IsDigit(c: char)
  {
    '0' <= c <= '9'
  }

  function DigitChar(d: nat): (c: char)
    requires d < 10
    ensures IsDigit(c) && c as int - '0' as int == d
  {
    ('0' as int + d) as char
  }

  /** Decimal rendering of an unsigned count, as `operator<<` prints a `size_t`. */
  function Decimal(n: nat): (r: string)
    ensures |r| >= 1
    ensures forall i :: 0 <= i < |r| ==> IsDigit(r[i])
    ensures n > 0 ==> r[0] != '0'
    ensures n == 0 ==> r == "0"
  {
    if n < 10 then [DigitChar(n)] else Decimal(n / 10) + [DigitChar(n % 10)]
  }

  /** Value of a string of decimal digits, the inverse of `Decimal`. */
  function DecimalValue(s: string): nat
    requires forall i :: 0 <= i < |s| ==> IsDigit(s[i])
  {
    if s == [] then 0
    else
      assert IsDigit(s[|s| - 1]);
      DecimalValue(s[..|s| - 1]) * 10 + (s[|s| - 1] as int - '0' as int)
  }

  lemma {:induction false} DecimalRoundTrip(n: nat)
    ensures DecimalValue(Decimal(n)) == n
  {
    if n >= 10 {
      var r := Decimal(n);
      assert r[..|r| - 1] == Decimal(n / 10);
      DecimalRoundTrip(n / 10);
    }
  }

  lemma DecimalInjective(a: nat, b: nat)
    requires Decimal(a) == Decimal(b)
    ensures a == b
  {
    DecimalRoundTrip(a);
    DecimalRoundTrip(b);
  }

  /** Splitting at the first occurrence of a separator that the left parts do
      not contain recovers both parts. */
  lemma {:induction false} SplitAt(sep: char, a: string, b: string, a': string, b': string)
    requires sep !in a && sep !in a'
    requires a + [sep] + b == a' + [sep] + b'
    ensures a == a' && b == b'
  {
    var s, s' := a + [sep] + b, a' + [sep] + b';
    SeparatorPosition(sep, a, b);
    SeparatorPosition(sep, a', b');
    if |a| != |a'| {
      assert false;
    }
    assert a == s[..|a|] == s'[..|a'|] == a';
    assert b == s[|a| + 1..] == s'[|a'| + 1..] == b';
  }

  /** Two prefixes of `s` that are each followed by a separator they do not
      contain are the same. */
  lemma SeparatedPrefix(sep: char, s: string, a: string, a': string)
    requires sep !in a && sep !in a'
    requires |a| < |s| && s[..|a|] == a && s[|a|] == sep
    requires |a'| < |s| && s[..|a'|] == a' && s[|a'|] == sep
    ensures a == a'
  {
    forall i | 0 <= i < |a|
      ensures s[i] != sep
    {
      assert s[i] == a[i];
    }
    forall i | 0 <= i < |a'|
      ensures s[i] != sep
    {
      assert s[i] == a'[i];
    }
  }

  lemma SeparatorPosition(sep: char, a: string, b: string)
    requires sep !in a
    ensures (a + [sep] + b)[|a|] == sep
    ensures forall i :: 0 <= i < |a| ==> (a + [sep] + b)[i] != sep
  {
  }

  lemma DecimalHasNo(c: char, n: nat)
    requires !IsDigit(c)
    ensures c !in Decimal(n)
  {
  }
}
