/** The t-element subsets of n positions in lexicographic order, and the successor that the retry loop of
    pkg/crypto/bls.go computes in place. */
module Combinations {
  import opened Results
  import opened Binomials

  /** a, a+1, ..., a+t-1 */
  function Run(a: nat, t: nat): (r: seq<nat>)
    ensures |r| == t && forall i :: 0 <= i < t ==> r[i] == a + i
  {
    seq(t, i requires 0 <= i < t => a + i)
  }

  function Prepend(x: nat, cs: seq<seq<nat>>): (r: seq<seq<nat>>)
    ensures |r| == |cs|
    ensures forall k :: 0 <= k < |cs| ==> r[k] == [x] + cs[k]
  {
    seq(|cs|, k requires 0 <= k < |cs| => [x] + cs[k])
  }

  /** All increasing sequences of t positions from lo up to n, first those that start with lo. */
  function Combos(lo: nat, n: nat, t: nat): seq<seq<nat>>
    requires lo <= n
    decreases n - lo
  {
    if t == 0 then [[]]
    else if lo == n then []
    else Prepend(lo, Combos(lo + 1, n, t - 1)) + Combos(lo + 1, n, t)
  }

  lemma {:induction false} ComboCount(lo: nat, n: nat, t: nat)
    requires lo <= n
    ensures |Combos(lo, n, t)| == Choose(n - lo, t)
    decreases n - lo
  {
    if t > 0 && lo < n {
      ComboCount(lo + 1, n, t - 1);
      ComboCount(lo + 1, n, t);
    }
  }

  /** A strictly increasing sequence of positions in [lo, n). */
  ghost predicate IsCombo(c: seq<nat>, lo: nat, n: nat) {
    && (forall i :: 0 <= i < |c| ==> lo <= c[i] < n)
    && forall i, j :: 0 <= i < j < |c| ==> c[i] < c[j]
  }

  lemma {:induction false} EveryListedIsCombo(lo: nat, n: nat, t: nat, k: nat)
    requires lo <= n && k < |Combos(lo, n, t)|
    ensures |Combos(lo, n, t)[k]| == t && IsCombo(Combos(lo, n, t)[k], lo, n)
    decreases n - lo
  {
    if t > 0 {
      var a := Combos(lo + 1, n, t - 1);
      if k < |a| {
        EveryListedIsCombo(lo + 1, n, t - 1, k);
      } else {
        EveryListedIsCombo(lo + 1, n, t, k - |a|);
      }
    }
  }

  /** Nothing is skipped: every combination is in the list. */
  lemma {:induction false} EveryComboIsListed(c: seq<nat>, lo: nat, n: nat) returns (k: nat)
    requires lo <= n && IsCombo(c, lo, n)
    ensures k < |Combos(lo, n, |c|)| && Combos(lo, n, |c|)[k] == c
    decreases n - lo
  {
    if c == [] {
      k := 0;
    } else if c[0] == lo {
      hide IsCombo;
      TailIsCombo(c, lo, n);
      k := EveryComboIsListed(c[1..], lo + 1, n);
      assert c == [lo] + c[1..];
    } else {
      hide IsCombo;
      HigherCombo(c, lo, n);
      k := EveryComboIsListed(c, lo + 1, n);
      k := k + |Combos(lo + 1, n, |c| - 1)|;
    }
  }

  lemma HigherCombo(c: seq<nat>, lo: nat, n: nat)
    requires lo <= n && IsCombo(c, lo, n) && c != [] && c[0] != lo
    ensures lo < n && IsCombo(c, lo + 1, n)
  {
  }

  lemma TailIsCombo(c: seq<nat>, lo: nat, n: nat)
    requires IsCombo(c, lo, n) && c != [] && c[0] == lo
    ensures lo < n && IsCombo(c[1..], lo + 1, n)
  {
  }

  predicate LexLess(a: seq<nat>, b: seq<nat>)
    requires |a| == |b|
  {
    a != [] && (a[0] < b[0] || (a[0] == b[0] && LexLess(a[1..], b[1..])))
  }

  /** The list is in strict lexicographic order, so nothing is repeated. */
  lemma {:induction false} ListIsLexicographic(lo: nat, n: nat, t: nat, i: nat, j: nat)
    requires lo <= n && i < j < |Combos(lo, n, t)|
    ensures |Combos(lo, n, t)[i]| == |Combos(lo, n, t)[j]| == t
    ensures LexLess(Combos(lo, n, t)[i], Combos(lo, n, t)[j])
    decreases n - lo
  {
    hide Combos, IsCombo, LexLess, Prepend;
    TwoListed(lo, n, t);
    CombosSplit(lo, n, t);
    var l, a, b := Combos(lo, n, t), Combos(lo + 1, n, t - 1), Combos(lo + 1, n, t);
    if j < |a| {
      ListIsLexicographic(lo + 1, n, t - 1, i, j);
      LexAfterSameHead(lo, a[i], a[j]);
    } else if i < |a| {
      EveryListedIsCombo(lo + 1, n, t - 1, i);
      EveryListedIsCombo(lo + 1, n, t, j - |a|);
      LexByHead(lo, a[i], b[j - |a|], n);
    } else {
      ListIsLexicographic(lo + 1, n, t, i - |a|, j - |a|);
      assert l[i] == b[i - |a|] && l[j] == b[j - |a|];
    }
  }

  lemma TwoListed(lo: nat, n: nat, t: nat)
    requires lo <= n && |Combos(lo, n, t)| >= 2
    ensures t > 0 && lo < n
  {
  }

  lemma LexAfterSameHead(x: nat, a: seq<nat>, b: seq<nat>)
    requires |a| == |b| && LexLess(a, b)
    ensures LexLess([x] + a, [x] + b)
  {
    assert ([x] + a)[1..] == a && ([x] + b)[1..] == b;
  }

  lemma LexByHead(x: nat, a: seq<nat>, b: seq<nat>, n: nat)
    requires |b| == |a| + 1 && IsCombo(b, x + 1, n)
    ensures LexLess([x] + a, b)
  {
  }

  /** The successor: advance the last position that can move, restart the ones after it. */
  function Next(c: seq<nat>, n: nat): Option<seq<nat>> {
    if c == [] then None
    else
      match Next(c[1..], n)
      case Some(d) => Some([c[0]] + d)
      case None => if c[0] + |c| == n then None else Some(Run(c[0] + 1, |c|))
  }

  lemma {:induction false} NoRoomNoCombos(lo: nat, n: nat, t: nat)
    requires lo <= n && t > n - lo
    ensures Combos(lo, n, t) == []
    decreases n - lo
  {
    if lo < n {
      NoRoomNoCombos(lo + 1, n, t - 1);
      NoRoomNoCombos(lo + 1, n, t);
    }
  }

  /** The list starts with the first t positions, each entry is followed by its successor, and only the
      last has none. */
  ghost predicate SuccessorChain(l: seq<seq<nat>>, lo: nat, n: nat, t: nat) {
    && l != [] && l[0] == Run(lo, t)
    && (forall k :: 0 <= k < |l| - 1 ==> Next(l[k], n) == Some(l[k + 1]))
    && Next(l[|l| - 1], n) == None
  }

  lemma {:induction false} ListFollowsSuccessors(lo: nat, n: nat, t: nat)
    requires lo <= n && t <= n - lo
    ensures SuccessorChain(Combos(lo, n, t), lo, n, t)
    decreases n - lo
  {
    hide SuccessorChain, Combos, Prepend;
    if t == 0 {
      EmptyChain(lo, n);
    } else {
      CombosSplit(lo, n, t);
      var a, b := Combos(lo + 1, n, t - 1), Combos(lo + 1, n, t);
      ListFollowsSuccessors(lo + 1, n, t - 1);
      if lo + t < n {
        ListFollowsSuccessors(lo + 1, n, t);
      } else {
        NoRoomNoCombos(lo + 1, n, t);
      }
      LastIsCombo(lo + 1, n, t - 1);
      ChainJoins(lo, n, t, a, b);
    }
  }

  lemma EmptyChain(lo: nat, n: nat)
    requires lo <= n
    ensures SuccessorChain(Combos(lo, n, 0), lo, n, 0)
  {
    assert Run(lo, 0) == [];
    assert Combos(lo, n, 0) == [[]];
  }

  lemma CombosSplit(lo: nat, n: nat, t: nat)
    requires t > 0 && lo < n
    ensures Combos(lo, n, t) == Prepend(lo, Combos(lo + 1, n, t - 1)) + Combos(lo + 1, n, t)
  {
  }

  lemma LastIsCombo(lo: nat, n: nat, t: nat)
    requires lo <= n && SuccessorChain(Combos(lo, n, t), lo, n, t)
    ensures var l := Combos(lo, n, t); l != [] && |l[|l| - 1]| == t
  {
    EveryListedIsCombo(lo, n, t, |Combos(lo, n, t)| - 1);
  }

  lemma ChainJoins(lo: nat, n: nat, t: nat, a: seq<seq<nat>>, b: seq<seq<nat>>)
    requires t > 0 && lo + t <= n && SuccessorChain(a, lo + 1, n, t - 1)
    requires a != [] && |a[|a| - 1]| == t - 1
    requires if lo + t == n then b == [] else SuccessorChain(b, lo + 1, n, t)
    ensures SuccessorChain(Prepend(lo, a) + b, lo, n, t)
  {
    var l := Prepend(lo, a) + b;
    assert [lo] + Run(lo + 1, t - 1) == Run(lo, t);
    forall k | 0 <= k < |a|
      ensures l[k] == [lo] + a[k] && l[k][1..] == a[k]
    {
    }
    forall k | 0 <= k < |l| - 1
      ensures Next(l[k], n) == Some(l[k + 1])
    {
      if k >= |a| {
        assert l[k] == b[k - |a|] && l[k + 1] == b[k + 1 - |a|];
      } else if k == |a| - 1 {
        assert l[k + 1] == b[0];
      }
    }
  }

  /** A successor found in a suffix is the successor of the whole. */
  lemma {:induction false} NextOfSuffix(c: seq<nat>, i: nat, n: nat, d: seq<nat>)
    requires i <= |c| && Next(c[i..], n) == Some(d)
    ensures Next(c, n) == Some(c[..i] + d)
    decreases i
  {
    if i == 0 {
      assert c[0..] == c && c[..0] + d == d;
    } else {
      assert c[i - 1..][1..] == c[i..];
      NextOfSuffix(c, i - 1, n, [c[i - 1]] + d);
      assert c[..i - 1] + ([c[i - 1]] + d) == c[..i] + d;
    }
  }

  /** Position i is at its last value, and nothing after it can move: neither can the suffix from i. */
  lemma StuckHere(c: seq<nat>, i: nat, n: nat)
    requires i < |c| && Next(c[i + 1..], n) == None && c[i] == n - |c| + i
    ensures Next(c[i..], n) == None
  {
    assert c[i..][1..] == c[i + 1..];
  }

  /** Position i can move and nothing after it can: the successor counts on from there. */
  lemma MovesHere(c: seq<nat>, i: nat, n: nat, r: seq<nat>)
    requires i < |c| && Next(c[i + 1..], n) == None && c[i] != n - |c| + i
    requires |r| == |c| && (forall k :: 0 <= k < i ==> r[k] == c[k])
    requires forall k :: i <= k < |c| ==> r[k] == c[i] + 1 + (k - i)
    ensures Next(c, n) == Some(r)
  {
    hide Next, Run;
    NextHere(c, i, n);
    NextOfSuffix(c, i, n, Run(c[i] + 1, |c| - i));
    var d := c[..i] + Run(c[i] + 1, |c| - i);
    forall k | 0 <= k < |c|
      ensures r[k] == d[k]
    {
    }
    assert r == d;
  }

  lemma NextHere(c: seq<nat>, i: nat, n: nat)
    requires i < |c| && Next(c[i + 1..], n) == None && c[i] != n - |c| + i
    ensures Next(c[i..], n) == Some(Run(c[i] + 1, |c| - i))
  {
    assert c[i..][1..] == c[i + 1..];
  }

  /** The backward scan: the last position that is not at its last value, or -1. */
  method LastMovable(indices: array<nat>, n: nat) returns (i: int)
    ensures -1 <= i < indices.Length && Next(indices[..][i + 1..], n) == None
    ensures i >= 0 ==> indices[i] != n - indices.Length + i
  {
    hide Next, Run;
    ghost var c := indices[..];
    i := indices.Length - 1;
    NothingToAdvance(n);
    assert c[indices.Length..] == [];
    while i >= 0 && indices[i] == n - indices.Length + i
      invariant -1 <= i < indices.Length
      invariant Next(c[i + 1..], n) == None
    {
      StuckHere(c, i, n);
      i := i - 1;
    }
  }

  /** Advances position i and restarts the ones after it. */
  method CountOnFrom(indices: array<nat>, i: nat)
    requires i < indices.Length
    modifies indices
    ensures forall k :: 0 <= k < i ==> indices[..][k] == old(indices[..])[k]
    ensures forall k :: i <= k < indices.Length ==> indices[..][k] == old(indices[..])[i] + 1 + (k - i)
  {
    ghost var c := indices[..];
    indices[i] := indices[i] + 1;
    for j := i + 1 to indices.Length
      invariant forall k :: 0 <= k < i ==> indices[k] == c[k]
      invariant forall k :: i <= k < j ==> indices[k] == c[i] + 1 + (k - i)
    {
      indices[j] := indices[j - 1] + 1;
    }
  }

  /** The index-advance code of the retry loop: true when no combination is left. */
  method Advance(indices: array<nat>, n: nat) returns (exhausted: bool)
    modifies indices
    ensures exhausted <==> Next(old(indices[..]), n) == None
    ensures exhausted ==> indices[..] == old(indices[..])
    ensures !exhausted ==> Next(old(indices[..]), n) == Some(indices[..])
  {
    hide Next, Run;
    ghost var c := indices[..];
    var i := LastMovable(indices, n);
    if i < 0 {
      assert c[0..] == c;
      return true;
    }
    CountOnFrom(indices, i);
    MovesHere(c, i, n, indices[..]);
    return false;
  }

  lemma NothingToAdvance(n: nat)
    ensures Next([], n) == None
  {
  }
}
