/** Sequences without repetition, and what remains of one after dropping elements. */
module Seqs {

  ghost predicate Distinct<T>(s: seq<T>) {
    forall i, j | 0 <= i < j < |s| :: s[i] != s[j]
  }

  /** The elements outside a set, in their order. */
  ghost function Keep<T>(s: seq<T>, dead: set<T>): seq<T> {
    if s == [] then []
    else
      var n := |s| - 1;
      Keep(s[..n], dead) + if s[n] in dead then [] else [s[n]]
  }

  lemma {:induction false} KeepMembers<T>(s: seq<T>, dead: set<T>)
    ensures forall x :: x in Keep(s, dead) <==> x in s && x !in dead
  {
    if s != [] {
      KeepMembers(s[..|s| - 1], dead);
      assert s == s[..|s| - 1] + [s[|s| - 1]];
    }
  }

  ghost function Without<T>(s: seq<T>, k: nat): (r: seq<T>)
    requires k < |s|
    ensures |r| == |s| - 1
    ensures forall i | 0 <= i < |r| :: r[i] == if i < k then s[i] else s[i + 1]
  {
    s[..k] + s[k + 1..]
  }

  /** Where a loop stands that has dropped the dead ones among the first k elements of l. */
  lemma KeepPosition<T>(s: seq<T>, l: seq<T>, k: nat, dead: set<T>)
    requires k < |l| && s == Keep(l[..k], dead) + l[k..]
    ensures var m := |Keep(l[..k], dead)|;
            && m < |s| && s[m] == l[k]
            && (m + 1 < |s| <==> k + 1 < |l|) && (k + 1 < |l| ==> s[m + 1] == l[k + 1])
            && (l[k] in dead ==> Without(s, m) == Keep(l[..k + 1], dead) + l[k + 1..])
            && (l[k] !in dead ==> s == Keep(l[..k + 1], dead) + l[k + 1..])
  {
    assert l[..k + 1][..k] == l[..k];
  }
}
