/** sort.Slice by operator address. The order of elements with equal addresses is unspecified, so callers
    rely on the contract of SortSlice only. */
module Sorting {
  import opened Addresses

  ghost predicate Sorted<T>(s: seq<T>, key: T -> Address) {
    forall i, j :: 0 <= i < j < |s| ==> !Less(key(s[j]), key(s[i]))
  }

  ghost predicate DistinctKeys<T>(s: seq<T>, key: T -> Address) {
    forall i, j :: 0 <= i < j < |s| ==> key(s[i]) != key(s[j])
  }

  /** Ascending in byte order; equal addresses stand next to each other. */
  ghost predicate Ascends<T>(s: seq<T>, key: T -> Address) {
    forall i, j :: 0 <= i < j < |s| ==> key(s[i]) == key(s[j]) || Before(key(s[i]), key(s[j]))
  }

  lemma SortedAscends<T>(s: seq<T>, key: T -> Address)
    ensures Sorted(s, key) <==> Ascends(s, key)
  {
    hide Before, Less;
    forall i, j | 0 <= i < j < |s|
      ensures !Less(key(s[j]), key(s[i])) <==> key(s[i]) == key(s[j]) || Before(key(s[i]), key(s[j]))
    {
      NotLessIff(key(s[i]), key(s[j]));
    }
  }

  lemma NotLessIff(a: Address, b: Address)
    ensures !Less(b, a) <==> a == b || Before(a, b)
  {
    BytesTrichotomy(a, b);
    LessIff(a, b);
  }

  /** Not-greater is transitive. */
  lemma NotLessTransitive(a: Address, b: Address, c: Address)
    requires !Less(b, a) && !Less(c, b)
    ensures !Less(c, a)
  {
    BytesTrichotomy(a, b);
    BytesTrichotomy(b, c);
    BytesTrichotomy(a, c);
    if Less(c, a) {
      if Less(a, b) {
        BytesLessTransitive(c, a, b);
      }
    }
  }

  lemma LessIsNotGreater(a: Address, b: Address)
    requires Less(a, b)
    ensures !Less(b, a)
  {
    BytesTrichotomy(a, b);
  }

  method SortSlice<T>(s: seq<T>, key: T -> Address) returns (r: seq<T>)
    ensures Sorted(r, key) && multiset(r) == multiset(s) && |r| == |s|
  {
    r := InsertionSorted(s, key);
  }

  function InsertionSorted<T>(s: seq<T>, key: T -> Address): (r: seq<T>)
    ensures Sorted(r, key) && multiset(r) == multiset(s) && |r| == |s|
  {
    if s == [] then []
    else
      assert s == s[..|s| - 1] + [s[|s| - 1]];
      Insert(s[|s| - 1], InsertionSorted(s[..|s| - 1], key), key)
  }

  function Insert<T>(x: T, s: seq<T>, key: T -> Address): (r: seq<T>)
    requires Sorted(s, key)
    ensures Sorted(r, key) && multiset(r) == multiset(s) + multiset{x} && |r| == |s| + 1
  {
    if s == [] then
      BytesTrichotomy(key(x), key(x));
      [x]
    else if Less(key(x), key(s[0])) then
      InsertFront(x, s, key);
      assert s == [s[0]] + s[1..];
      [x] + s
    else
      assert s == [s[0]] + s[1..];
      var t := Insert(x, s[1..], key);
      InsertBehind(s[0], x, s[1..], t, key);
      [s[0]] + t
  }

  lemma InsertFront<T>(x: T, s: seq<T>, key: T -> Address)
    requires Sorted(s, key) && s != [] && Less(key(x), key(s[0]))
    ensures Sorted([x] + s, key)
  {
    var r := [x] + s;
    forall i, j | 0 <= i < j < |r|
      ensures !Less(key(r[j]), key(r[i]))
    {
      if i == 0 {
        LessIsNotGreater(key(x), key(s[0]));
        if j > 1 {
          NotLessTransitive(key(x), key(s[0]), key(s[j - 1]));
        }
      }
    }
  }

  lemma InsertBehind<T>(h: T, x: T, s: seq<T>, t: seq<T>, key: T -> Address)
    requires Sorted([h] + s, key) && Sorted(t, key) && !Less(key(x), key(h))
    requires multiset(t) == multiset(s) + multiset{x}
    ensures Sorted([h] + t, key)
  {
    var r := [h] + t;
    forall i, j | 0 <= i < j < |r|
      ensures !Less(key(r[j]), key(r[i]))
    {
      if i == 0 {
        assert t[j - 1] in multiset(t);
        if t[j - 1] != x {
          assert t[j - 1] in s;
          var k :| 0 <= k < |s| && s[k] == t[j - 1];
          assert ([h] + s)[k + 1] == s[k] && ([h] + s)[0] == h;
        }
      }
    }
  }

  /** With distinct addresses there is one sorted arrangement: any two sorted permutations are equal. */
  lemma {:induction false} SortedIsUnique<T>(a: seq<T>, b: seq<T>, key: T -> Address)
    requires Sorted(a, key) && Sorted(b, key) && multiset(a) == multiset(b) && DistinctKeys(a, key)
    ensures a == b
  {
    if a == [] {
      assert b == [] by { assert |multiset(b)| == 0; }
    } else {
      assert |multiset(a)| == |a| && |multiset(b)| == |b|;
      HeadsAgree(a, b, key);
      assert a == [a[0]] + a[1..] && b == [b[0]] + b[1..];
      assert multiset(a[1..]) == multiset(a) - multiset{a[0]};
      assert multiset(b[1..]) == multiset(b) - multiset{b[0]};
      SortedIsUnique(a[1..], b[1..], key);
    }
  }

  lemma HeadsAgree<T>(a: seq<T>, b: seq<T>, key: T -> Address)
    requires Sorted(a, key) && Sorted(b, key) && multiset(a) == multiset(b) && DistinctKeys(a, key)
    requires a != [] && b != []
    ensures a[0] == b[0]
  {
    assert a[0] in multiset(b) && b[0] in multiset(a);
    var m :| 0 <= m < |b| && b[m] == a[0];
    var k :| 0 <= k < |a| && a[k] == b[0];
    BytesTrichotomy(key(a[0]), key(b[0]));
    HeadIsLeast(a, key, k);
    HeadIsLeast(b, key, m);
  }

  lemma HeadIsLeast<T>(a: seq<T>, key: T -> Address, k: nat)
    requires Sorted(a, key) && k < |a|
    ensures !Less(key(a[k]), key(a[0]))
  {
    if k == 0 {
      BytesTrichotomy(key(a[0]), key(a[0]));
    }
  }
}
