/** Small facts about concatenated sequences. Each one is stated separately
    so that a proof about long strings only has to consider the slices it
    needs. */
module Sequences {
  /** The parts of `a + [x] + b` near its start and near its end. */
  lemma Joined<T>(a: seq<T>, x: T, b: seq<T>, k: nat)
    requires k + 2 <= |b|
    ensures var r := a + [x] + b;
      && |r| == |a| + 1 + |b|
      && r[..|a|] == a && r[|a|] == x
      && r[|r| - 1] == b[|b| - 1] && r[|r| - 2] == b[|b| - 2]
      && r[|r| - 1 - k] == b[|b| - 1 - k]
  {
  }

  /** The middle part `m` of `a + [x] + (m + p + q)`. */
  lemma Middle<T>(a: seq<T>, x: T, m: seq<T>, p: seq<T>, q: seq<T>)
    ensures var r := a + [x] + (m + p + q);
      && |r| == |a| + 1 + |m| + |p| + |q|
      && r[|a| + 1..|r| - |p| - |q|] == m
  {
    var r := a + [x] + (m + p + q);
    assert r[|a| + 1..] == m + p + q;
  }

  /** The first part of a three-part concatenation. */
  lemma PrefixOf<T>(a: seq<T>, b: seq<T>, c: seq<T>)
    ensures |a + b + c| == |a| + |b| + |c|
    ensures (a + b + c)[..|a|] == a
  {
  }

  lemma ConcatAssoc<T>(a: seq<T>, b: seq<T>, c: seq<T>)
    ensures (a + b) + c == a + (b + c)
  {
  }

  lemma DropLast<T>(a: seq<T>, x: T)
    ensures (a + [x])[..|a|] == a
  {
  }

  /** A sequence `s` between a head element and a tail `t`. */
  lemma Framed<T>(x: T, s: seq<T>, t: seq<T>)
    requires |s| >= 1
    ensures var r := [x] + s + t;
      && |r| == 1 + |s| + |t|
      && r[0] == x && r[1] == s[0]
      && r[1..|r| - |t|] == s
      && r[|r| - |t|..] == t
  {
  }

  /** Cutting a sequence at index 0 leaves nothing of it. */
  lemma EmptyAround<T>(s: seq<T>, a: seq<T>, b: seq<T>)
    ensures s[..0] + a + b + [] == a + b
  {
  }
}
