/** Sorting by an integer key. Go's `sort.Slice` promises a sorted permutation and nothing
    about the order of equal keys, so callers here may rely on nothing more. */
module Sorting {
  ghost predicate SortedBy<T>(s: seq<T>, key: T -> int) {
    forall i, j :: 0 <= i < j < |s| ==> key(s[i]) <= key(s[j])
  }

  ghost predicate DistinctBy<T>(s: seq<T>, key: T -> int) {
    forall i, j :: 0 <= i < j < |s| ==> key(s[i]) != key(s[j])
  }

  lemma SplitAt<T>(s: seq<T>, at: nat)
    requires at < |s|
    ensures multiset(s) == multiset(s[..at] + s[at + 1..]) + multiset{s[at]}
  {
    assert s == s[..at] + [s[at]] + s[at + 1..];
  }

  lemma Head<T>(s: seq<T>)
    requires s != []
    ensures multiset(s) == multiset(s[1..]) + multiset{s[0]}
  {
    SplitAt(s, 0);
    assert s[..0] + s[1..] == s[1..];
  }

  lemma InsertKeepsSorted<T>(s: seq<T>, at: nat, x: T, key: T -> int)
    requires SortedBy(s, key) && at <= |s|
    requires forall k :: 0 <= k < at ==> key(s[k]) <= key(x)
    requires at < |s| ==> key(x) <= key(s[at])
    ensures SortedBy(s[..at] + [x] + s[at..], key)
  {
    var r := s[..at] + [x] + s[at..];
    forall i, j | 0 <= i < j < |r| ensures key(r[i]) <= key(r[j]) {
      if j < at {
        assert r[i] == s[i] && r[j] == s[j];
      } else if j == at {
        assert r[i] == s[i];
      } else {
        assert r[j] == s[j - 1] && key(s[at]) <= key(s[j - 1]);
        if i < at { assert r[i] == s[i]; } else if i > at { assert r[i] == s[i - 1]; }
      }
    }
  }

  lemma InsertKeepsElements<T>(s: seq<T>, at: nat, x: T)
    requires at <= |s|
    ensures multiset(s[..at] + [x] + s[at..]) == multiset(s) + multiset{x}
  {
    assert s == s[..at] + s[at..];
  }

  method Insert<T>(s: seq<T>, x: T, key: T -> int) returns (r: seq<T>)
    requires SortedBy(s, key)
    ensures SortedBy(r, key)
    ensures multiset(r) == multiset(s) + multiset{x}
  {
    var at := 0;
    while at < |s| && key(s[at]) <= key(x)
      invariant 0 <= at <= |s|
      invariant forall k :: 0 <= k < at ==> key(s[k]) <= key(x)
    {
      at := at + 1;
    }
    r := s[..at] + [x] + s[at..];
    InsertKeepsSorted(s, at, x, key);
    InsertKeepsElements(s, at, x);
  }

  method SortBy<T>(s: seq<T>, key: T -> int) returns (r: seq<T>)
    ensures SortedBy(r, key)
    ensures multiset(r) == multiset(s)
  {
    r := [];
    for n := 0 to |s|
      invariant SortedBy(r, key)
      invariant multiset(r) == multiset(s[..n])
    {
      r := Insert(r, s[n], key);
      assert s[..n + 1] == s[..n] + [s[n]];
    }
    assert s[..|s|] == s;
  }

  /** Equal keys mean equal elements, so no tie can be seen. */
  ghost predicate KeyDecides<T>(s: seq<T>, key: T -> int) {
    forall i, j :: 0 <= i < |s| && 0 <= j < |s| && key(s[i]) == key(s[j]) ==> s[i] == s[j]
  }

  lemma DecidesAmong<T>(s: seq<T>, key: T -> int, x: T, y: T)
    requires KeyDecides(s, key) && x in s && y in s && key(x) == key(y)
    ensures x == y
  {
    var i :| 0 <= i < |s| && s[i] == x;
    var j :| 0 <= j < |s| && s[j] == y;
  }

  lemma TailDecides<T>(s: seq<T>, key: T -> int)
    requires s != [] && KeyDecides(s, key)
    ensures KeyDecides(s[1..], key)
  {
  }

  lemma SameElements<T>(s: seq<T>, t: seq<T>, x: T)
    requires multiset(s) == multiset(t)
    ensures x in s <==> x in t
  {
    assert x in multiset(s) <==> x in multiset(t);
  }

  lemma DecidesIgnoresOrder<T>(s: seq<T>, t: seq<T>, key: T -> int)
    requires multiset(s) == multiset(t) && KeyDecides(s, key)
    ensures KeyDecides(t, key)
  {
    forall i, j | 0 <= i < |t| && 0 <= j < |t| && key(t[i]) == key(t[j]) ensures t[i] == t[j] {
      SameElements(s, t, t[i]);
      SameElements(s, t, t[j]);
      DecidesAmong(s, key, t[i], t[j]);
    }
  }

  lemma TailElements<T>(a: seq<T>, b: seq<T>)
    requires a != [] && b != [] && a[0] == b[0] && multiset(a) == multiset(b)
    ensures multiset(a[1..]) == multiset(b[1..])
  {
    Head(a);
    Head(b);
    assert multiset(a[1..]) == multiset(a) - multiset{a[0]};
    assert multiset(b[1..]) == multiset(b) - multiset{b[0]};
  }

  /** When the key decides there is only one sorted permutation. */
  lemma {:induction false} SortedPermutationUnique<T>(a: seq<T>, b: seq<T>, key: T -> int)
    requires multiset(a) == multiset(b)
    requires SortedBy(a, key) && SortedBy(b, key)
    requires KeyDecides(a, key)
    ensures a == b
  {
    if a == [] {
      assert |multiset(b)| == 0;
    } else {
      SameHead(a, b, key);
      TailElements(a, b);
      TailKeeps(a, key);
      TailKeeps(b, key);
      TailDecides(a, key);
      SortedPermutationUnique(a[1..], b[1..], key);
      assert a == [a[0]] + a[1..] && b == [b[0]] + b[1..];
    }
  }

  lemma SwapKeepsElements<T>(s: seq<T>, i: nat, j: nat)
    requires i < j < |s|
    ensures multiset(s[i := s[j]][j := s[i]]) == multiset(s)
  {
  }

  /** A tie between different elements allows a second sorted permutation. */
  lemma TieAllowsSwap<T>(s: seq<T>, i: nat, j: nat, key: T -> int)
    requires SortedBy(s, key) && i < j < |s| && key(s[i]) == key(s[j]) && s[i] != s[j]
    ensures
      var t := s[i := s[j]][j := s[i]];
      multiset(t) == multiset(s) && SortedBy(t, key) && t != s
  {
    var t := s[i := s[j]][j := s[i]];
    SwapKeepsElements(s, i, j);
    forall p, q | 0 <= p < q < |t| ensures key(t[p]) <= key(t[q]) {
      assert key(t[p]) == key(s[p]) && key(t[q]) == key(s[q]);
    }
    assert t[i] != s[i];
  }

  lemma {:induction false} Arrangement<T>(s: seq<T>, key: T -> int) returns (a: seq<T>)
    ensures SortedBy(a, key) && multiset(a) == multiset(s)
  {
    if s == [] {
      a := [];
    } else {
      var rest := Arrangement(s[1..], key);
      var at := 0;
      while at < |rest| && key(rest[at]) <= key(s[0])
        invariant 0 <= at <= |rest|
        invariant forall k :: 0 <= k < at ==> key(rest[k]) <= key(s[0])
      {
        at := at + 1;
      }
      InsertKeepsSorted(rest, at, s[0], key);
      InsertKeepsElements(rest, at, s[0]);
      Head(s);
      a := rest[..at] + [s[0]] + rest[at..];
    }
  }

  /** Whatever a sort makes of two orders of the same elements, the results are the same. */
  ghost predicate ArrangementsAgree<T(!new)>(s: seq<T>, t: seq<T>, key: T -> int) {
    forall a, b ::
      multiset(a) == multiset(s) && SortedBy(a, key) && multiset(b) == multiset(t) && SortedBy(b, key) ==> a == b
  }

  lemma TwoArrangements<T>(s: seq<T>, key: T -> int) returns (a: seq<T>, b: seq<T>)
    requires !KeyDecides(s, key)
    ensures multiset(a) == multiset(s) == multiset(b) && SortedBy(a, key) && SortedBy(b, key) && a != b
  {
    a := Arrangement(s, key);
    if KeyDecides(a, key) { DecidesIgnoresOrder(a, s, key); }
    var i, j :| 0 <= i < |a| && 0 <= j < |a| && key(a[i]) == key(a[j]) && a[i] != a[j];
    var p, q := if i < j then i else j, if i < j then j else i;
    TieAllowsSwap(a, p, q, key);
    b := a[p := a[q]][q := a[p]];
  }

  lemma DecidedAgree<T(!new)>(s: seq<T>, t: seq<T>, key: T -> int)
    requires multiset(s) == multiset(t) && KeyDecides(s, key)
    ensures ArrangementsAgree(s, t, key)
  {
    forall a, b | multiset(a) == multiset(s) && SortedBy(a, key) && multiset(b) == multiset(t) && SortedBy(b, key)
      ensures a == b
    {
      DecidesIgnoresOrder(s, a, key);
      SortedPermutationUnique(a, b, key);
    }
  }

  /** All sorted arrangements agree if and only if equal keys mean equal elements. */
  lemma ArrangementsAgreeIff<T(!new)>(s: seq<T>, t: seq<T>, key: T -> int)
    requires multiset(s) == multiset(t)
    ensures ArrangementsAgree(s, t, key) <==> KeyDecides(s, key)
  {
    if KeyDecides(s, key) {
      DecidedAgree(s, t, key);
    } else {
      var a, b := TwoArrangements(s, key);
      assert multiset(b) == multiset(t);
    }
  }

  lemma DistinctDecides<T>(s: seq<T>, key: T -> int)
    requires DistinctBy(s, key)
    ensures KeyDecides(s, key)
  {
    forall i, j | 0 <= i < |s| && 0 <= j < |s| && key(s[i]) == key(s[j]) ensures s[i] == s[j] {
      SameKeySame(s, key, s[i], s[j]);
    }
  }

  lemma TailKeeps<T>(s: seq<T>, key: T -> int)
    requires s != []
    ensures SortedBy(s, key) ==> SortedBy(s[1..], key)
    ensures DistinctBy(s, key) ==> DistinctBy(s[1..], key)
  {
  }

  lemma SameHead<T>(a: seq<T>, b: seq<T>, key: T -> int)
    requires a != [] && multiset(a) == multiset(b)
    requires SortedBy(a, key) && SortedBy(b, key) && KeyDecides(a, key)
    ensures b != [] && a[0] == b[0]
  {
    SameElements(a, b, a[0]);
    var i :| 0 <= i < |b| && b[i] == a[0];
    SameElements(a, b, b[0]);
    var j :| 0 <= j < |a| && a[j] == b[0];
    assert key(a[0]) <= key(a[j]) && key(b[0]) <= key(b[i]);
  }

  /** Distinctness of keys read off the multiset: it does not depend on the order. */
  ghost predicate DistinctIn<T(!new)>(m: multiset<T>, key: T -> int) {
    forall x, y :: x in m && y in m && (key(x) == key(y)) ==> x == y && m[x] == 1
  }

  lemma {:induction false} DistinctGivesIn<T(!new)>(s: seq<T>, key: T -> int)
    requires DistinctBy(s, key)
    ensures DistinctIn(multiset(s), key)
  {
    if s != [] {
      var t := s[1..];
      Head(s);
      TailKeeps(s, key);
      DistinctGivesIn(t, key);
      forall x | x in multiset(t) ensures key(x) != key(s[0]) {
        var k :| 0 <= k < |t| && t[k] == x;
        assert x == s[k + 1];
      }
    }
  }

  lemma InTail<T(!new)>(s: seq<T>, key: T -> int)
    requires s != [] && DistinctIn(multiset(s), key)
    ensures DistinctIn(multiset(s[1..]), key)
    ensures forall x :: x in s[1..] ==> key(x) != key(s[0])
  {
    var t := s[1..];
    Head(s);
    forall x, y | x in multiset(t) && y in multiset(t) && key(x) == key(y) ensures x == y && multiset(t)[x] == 1 {
      assert x in multiset(s) && y in multiset(s);
    }
    forall x | x in t ensures key(x) != key(s[0]) {
      assert x in multiset(t) && x in multiset(s) && s[0] in multiset(s);
    }
  }

  lemma {:induction false} InGivesDistinct<T(!new)>(s: seq<T>, key: T -> int)
    requires DistinctIn(multiset(s), key)
    ensures DistinctBy(s, key)
  {
    if s != [] {
      var t := s[1..];
      InTail(s, key);
      InGivesDistinct(t, key);
      forall i, j | 0 <= i < j < |s| ensures key(s[i]) != key(s[j]) {
        assert s[j] == t[j - 1] && s[j] in t;
        if i > 0 { assert s[i] == t[i - 1]; }
      }
    }
  }

  lemma DistinctIffDistinctIn<T(!new)>(s: seq<T>, key: T -> int)
    ensures DistinctBy(s, key) <==> DistinctIn(multiset(s), key)
  {
    if DistinctBy(s, key) { DistinctGivesIn(s, key); }
    if DistinctIn(multiset(s), key) { InGivesDistinct(s, key); }
  }

  // ------------------------------------------------------------------ sets of keys

  ghost function KeySet<T>(s: seq<T>, key: T -> int): set<int> { set x | x in s :: key(x) }

  lemma KeySetStep<T(!new)>(s: seq<T>, key: T -> int)
    requires s != [] && DistinctBy(s, key)
    ensures KeySet(s, key) == KeySet(s[1..], key) + {key(s[0])}
    ensures key(s[0]) !in KeySet(s[1..], key)
  {
    var rest := s[1..];
    forall x ensures x in s <==> x == s[0] || x in rest {
      assert s == [s[0]] + rest;
    }
    forall x | x in rest ensures key(x) != key(s[0]) {
      var k :| 0 <= k < |rest| && rest[k] == x;
      assert s[k + 1] == x;
    }
  }

  lemma {:induction false} KeySetSize<T(!new)>(s: seq<T>, key: T -> int)
    requires DistinctBy(s, key)
    ensures |KeySet(s, key)| == |s|
  {
    if s != [] {
      TailKeeps(s, key);
      KeySetSize(s[1..], key);
      KeySetStep(s, key);
    }
  }

  lemma SubsetOfSameSize<T>(a: set<T>, b: set<T>)
    requires a <= b && |a| == |b|
    ensures a == b
  {
    if b - a != {} {
      var x :| x in b - a;
      SubsetSize(a, b - {x});
    }
    assert forall x :: x in b ==> x in a || x in b - a;
  }

  lemma {:induction false} SubsetSize<T>(a: set<T>, b: set<T>)
    requires a <= b
    ensures |a| <= |b|
  {
    if a != {} {
      var x :| x in a;
      SubsetSize(a - {x}, b - {x});
    }
  }

  lemma SameKeySame<T>(s: seq<T>, key: T -> int, x: T, y: T)
    requires DistinctBy(s, key) && x in s && y in s && key(x) == key(y)
    ensures x == y
  {
    var i :| 0 <= i < |s| && s[i] == x;
    var j :| 0 <= j < |s| && s[j] == y;
  }
}
