/** Sequences whose elements are all different, their elements, and what is left without one of them. */
module Seqs {

  ghost predicate Distinct<T>(s: seq<T>) {
    forall i, j :: 0 <= i < j < |s| ==> s[i] != s[j]
  }

  ghost function Without<T>(s: seq<T>, k: nat): (r: seq<T>)
    requires k < |s|
    ensures |r| == |s| - 1
  {
    s[..k] + s[k + 1..]
  }

  lemma WithoutDistinct<T>(s: seq<T>, k: nat)
    requires Distinct(s) && k < |s|
    ensures Distinct(Without(s, k)) && s[k] !in Without(s, k)
    ensures forall x :: x in s <==> x == s[k] || x in Without(s, k)
  {
    var r := Without(s, k);
    assert forall i :: 0 <= i < |r| ==> r[i] == s[if i < k then i else i + 1];
    assert forall i :: 0 <= i < |s| && i != k ==> s[i] == r[if i < k then i else i - 1];
  }

  ghost function Members<T>(s: seq<T>): set<T> {
    set x | x in s
  }

  lemma MembersPush<T>(s: seq<T>, x: T)
    ensures Members(s + [x]) == Members(s) + {x}
  {
  }

  lemma MembersUpdate<T>(s: seq<T>, k: nat, x: T)
    requires Distinct(s) && k < |s| && x !in s
    ensures Members(s[k := x]) == Members(s) - {s[k]} + {x}
  {
    var r := s[k := x];
    assert forall i :: 0 <= i < |s| && i != k ==> r[i] == s[i];
    assert r[k] == x;
  }

  lemma MembersWithout<T>(s: seq<T>, k: nat)
    requires Distinct(s) && k < |s|
    ensures Members(Without(s, k)) == Members(s) - {s[k]}
  {
    WithoutDistinct(s, k);
  }

  lemma {:induction false} CountMembers<T>(s: seq<T>)
    requires Distinct(s)
    ensures |Members(s)| == |s|
  {
    if s != [] {
      var n := |s| - 1;
      CountMembers(s[..n]);
      assert s == s[..n] + [s[n]];
      MembersPush(s[..n], s[n]);
    }
  }

  lemma MembersStep<T>(s: seq<T>, n: nat)
    requires Distinct(s) && n < |s|
    ensures Members(s[..n + 1]) == Members(s[..n]) + {s[n]}
    ensures s[n] in Members(s) && s[n] !in Members(s[..n])
  {
    assert s[..n + 1] == s[..n] + [s[n]];
  }

  /** Every element but x, in order. */
  ghost function Filter<T>(s: seq<T>, x: T): seq<T> {
    if s == [] then [] else
    Filter(s[..|s| - 1], x) + if s[|s| - 1] == x then [] else [s[|s| - 1]]
  }

  lemma {:induction false} FilterMembers<T>(s: seq<T>, x: T)
    ensures forall y :: y in Filter(s, x) <==> y in s && y != x
  {
    if s != [] {
      FilterMembers(s[..|s| - 1], x);
    }
  }

  lemma {:induction false} FilterAbsent<T>(s: seq<T>, x: T)
    requires x !in s
    ensures Filter(s, x) == s
  {
    if s != [] {
      FilterAbsent(s[..|s| - 1], x);
    }
  }

  /** Of different elements it leaves out exactly the one. */
  lemma {:induction false} FilterDropsOne<T>(s: seq<T>, x: T, k: nat)
    requires Distinct(s) && k < |s| && s[k] == x
    ensures Filter(s, x) == Without(s, k)
  {
    var n := |s| - 1;
    if k == n {
      FilterAbsent(s[..n], x);
    } else {
      FilterDropsOne(s[..n], x, k);
      assert s[..n][k + 1..] + [s[n]] == s[k + 1..];
    }
  }
}
