/** tri_iteratif of cocarrier/azclient.c: both loops run over the whole table. */
module Sorting {

  // ----- strcmp as an order

  predicate Leq(a: string, b: string) {
    a == "" || (b != "" && (a[0] < b[0] || (a[0] == b[0] && Leq(a[1..], b[1..]))))
  }

  lemma {:induction false} LeqTotal(a: string, b: string)
    ensures Leq(a, b) || Leq(b, a)
    ensures Leq(a, b) && Leq(b, a) ==> a == b
    ensures Leq(a, a)
  {
    if a != "" {
      LeqTotal(a[1..], a[1..]);
      if b != "" {
        LeqTotal(a[1..], b[1..]);
        assert a == [a[0]] + a[1..] && b == [b[0]] + b[1..];
      }
    }
  }

  lemma {:induction false} LeqTransitive(a: string, b: string, c: string)
    requires Leq(a, b) && Leq(b, c)
    ensures Leq(a, c)
  {
    if a != "" && a[0] == b[0] == c[0] {
      LeqTransitive(a[1..], b[1..], c[1..]);
    }
  }

  // The same facts for all strings at once.
  lemma StrcmpIsOrder()
    ensures forall a, b :: Leq(a, b) || Leq(b, a)
    ensures forall a, b :: Leq(a, b) && Leq(b, a) ==> a == b
    ensures forall a, b, c :: Leq(a, b) && Leq(b, c) ==> Leq(a, c)
  {
    forall a, b
      ensures Leq(a, b) || Leq(b, a)
      ensures Leq(a, b) && Leq(b, a) ==> a == b
    {
      LeqTotal(a, b);
    }
    forall a, b, c | Leq(a, b) && Leq(b, c)
      ensures Leq(a, c)
    {
      LeqTransitive(a, b, c);
    }
  }

  /** What strcmp finds: a comes first when b starts with it, or when it has the smaller character where
      the two first differ. */
  lemma {:induction false} LeqExact(a: string, b: string)
    ensures Leq(a, b) <==> a <= b || FirstSmaller(a, b)
  {
    if a != "" && b != "" {
      LeqExact(a[1..], b[1..]);
      if a[0] == b[0] {
        assert a == [a[0]] + a[1..] && b == [b[0]] + b[1..];
        FirstSmallerRest(a, b);
      } else if a[0] < b[0] {
        assert a[..0] == b[..0];
      }
    }
  }

  ghost predicate FirstSmaller(a: string, b: string) {
    exists i :: 0 <= i < |a| && i < |b| && a[..i] == b[..i] && a[i] < b[i]
  }

  lemma FirstSmallerRest(a: string, b: string)
    requires a != "" && b != "" && a[0] == b[0]
    ensures FirstSmaller(a, b) <==> FirstSmaller(a[1..], b[1..])
  {
    if FirstSmaller(a, b) {
      var i :| 0 <= i < |a| && i < |b| && a[..i] == b[..i] && a[i] < b[i];
      SmallerAt(a, b, i - 1);
    }
    if FirstSmaller(a[1..], b[1..]) {
      var i :| 0 <= i < |a| - 1 && i < |b| - 1 && a[1..][..i] == b[1..][..i] && a[1..][i] < b[1..][i];
      SmallerAt(a, b, i);
    }
  }

  lemma SmallerAt(a: string, b: string, i: nat)
    requires i + 1 < |a| && i + 1 < |b| && a[0] == b[0]
    ensures a[1..][i] == a[i + 1] && b[1..][i] == b[i + 1]
    ensures a[1..][..i] == b[1..][..i] <==> a[..i + 1] == b[..i + 1]
  {
    assert a[..i + 1] == [a[0]] + a[1..][..i] && b[..i + 1] == [b[0]] + b[1..][..i];
    assert a[1..][..i] == a[..i + 1][1..] && b[1..][..i] == b[..i + 1][1..];
  }

  // ----- sorted sequences

  ghost predicate Sorted(s: seq<string>) {
    forall i, j :: 0 <= i < j < |s| ==> Leq(s[i], s[j])
  }

  function Insert(x: string, s: seq<string>): seq<string> {
    if s == [] then [x]
    else if Leq(x, s[0]) then [x] + s
    else [s[0]] + Insert(x, s[1..])
  }

  // The reference: insertion sort.
  function Sort(s: seq<string>): seq<string> {
    if s == [] then [] else Insert(s[0], Sort(s[1..]))
  }

  lemma {:induction false} InsertSorted(x: string, s: seq<string>)
    requires Sorted(s)
    ensures Sorted(Insert(x, s))
  {
    hide Leq;
    StrcmpIsOrder();
    if s != [] && !Leq(x, s[0]) {
      var t := Insert(x, s[1..]);
      InsertSorted(x, s[1..]);
      InsertContents(x, s[1..]);
      forall y | y in t
        ensures Leq(s[0], y)
      {
        assert y in multiset(t);
        assert y == x || y in s[1..];
      }
    }
  }

  lemma {:induction false} InsertContents(x: string, s: seq<string>)
    ensures multiset(Insert(x, s)) == multiset{x} + multiset(s)
  {
    hide Leq;
    if s != [] {
      InsertContents(x, s[1..]);
      assert s == [s[0]] + s[1..];
    }
  }

  lemma {:induction false} SortSorts(s: seq<string>)
    ensures Sorted(Sort(s)) && multiset(Sort(s)) == multiset(s)
    ensures |Sort(s)| == |s|
  {
    hide Leq;
    if s != [] {
      SortSorts(s[1..]);
      InsertSorted(s[0], Sort(s[1..]));
      InsertContents(s[0], Sort(s[1..]));
      assert s == [s[0]] + s[1..];
    }
    assert |multiset(Sort(s))| == |multiset(s)|;
  }

  // A multiset of strings has only one sorted arrangement.
  lemma {:induction false} SortedUnique(s: seq<string>, t: seq<string>)
    requires Sorted(s) && Sorted(t) && multiset(s) == multiset(t)
    ensures s == t
  {
    hide Leq, Sorted;
    assert |multiset(s)| == |s| && |multiset(t)| == |t|;
    if s != [] {
      SameFirst(s, t);
      SameRest(s, t);
      SortedRest(s);
      SortedRest(t);
      SortedUnique(s[1..], t[1..]);
      assert s == [s[0]] + s[1..] && t == [t[0]] + t[1..];
    }
  }

  lemma SortedRest(s: seq<string>)
    requires Sorted(s) && s != []
    ensures Sorted(s[1..]) && forall x | x in s :: Leq(s[0], x)
  {
    hide Leq;
    LeqTotal(s[0], s[0]);
  }

  lemma SameFirst(s: seq<string>, t: seq<string>)
    requires Sorted(s) && Sorted(t) && multiset(s) == multiset(t) && s != [] && t != []
    ensures s[0] == t[0]
  {
    hide Leq, Sorted;
    SortedRest(s);
    SortedRest(t);
    assert s[0] in multiset(s) && t[0] in multiset(t);
    assert s[0] in t && t[0] in s;
    LeqTotal(s[0], t[0]);
  }

  lemma SameRest(s: seq<string>, t: seq<string>)
    requires multiset(s) == multiset(t) && s != [] && t != [] && s[0] == t[0]
    ensures multiset(s[1..]) == multiset(t[1..])
  {
    assert s == [s[0]] + s[1..] && t == [t[0]] + t[1..];
    assert multiset(s[1..]) == multiset(s) - multiset{s[0]};
    assert multiset(t[1..]) == multiset(t) - multiset{t[0]};
  }

  lemma SortedIsSort(s: seq<string>, t: seq<string>)
    requires Sorted(t) && multiset(s) == multiset(t)
    ensures t == Sort(s)
  {
    SortSorts(s);
    SortedUnique(t, Sort(s));
  }

  /** The order of the input does not matter. */
  lemma SortOrderFree(s: seq<string>, t: seq<string>)
    requires multiset(s) == multiset(t)
    ensures Sort(s) == Sort(t)
  {
    SortSorts(s);
    SortedIsSort(t, Sort(s));
  }

  // ----- the exchange sort

  // Nothing in the table is greater than the entry at i.
  ghost predicate Greatest(a: seq<string>, i: nat)
    requires i < |a|
  {
    forall k :: 0 <= k < |a| ==> Leq(a[k], a[i])
  }

  method Swap(a: array<string>, i: nat, j: nat)
    requires i < a.Length && j < a.Length
    modifies a
    ensures a[..] == old(a[..])[i := old(a[j])][j := old(a[i])]
    ensures multiset(a[..]) == multiset(old(a[..]))
  {
    a[i], a[j] := a[j], a[i];
  }

  // During pass i at position j: the entries before i stay sorted, those before j are not greater
  // than entry i, and the greatest entry moves from i - 1 to i.
  ghost predicate Passing(a: seq<string>, i: nat, j: nat)
    requires i < |a| && j <= |a|
  {
    && (forall p, q :: 0 <= p < q < i ==> Leq(a[p], a[q]))
    && (forall p :: 0 <= p < j ==> Leq(a[p], a[i]))
    && (0 < i && j < i ==> Greatest(a, i - 1))
    && (0 < i <= j ==> Greatest(a, i))
  }

  lemma PassBegins(a: seq<string>, i: nat)
    requires i < |a| && Sorted(a[..i]) && (i > 0 ==> Greatest(a, i - 1))
    ensures Passing(a, i, 0)
  {
    hide Leq;
    forall p, q | 0 <= p < q < i
      ensures Leq(a[p], a[q])
    {
      assert a[..i][p] == a[p] && a[..i][q] == a[q];
    }
  }

  lemma PassEnds(a: seq<string>, i: nat)
    requires i < |a| && Passing(a, i, |a|)
    ensures Sorted(a[..i + 1]) && Greatest(a, i)
  {
    hide Leq;
  }

  function Exchanged(a: seq<string>, i: nat, j: nat): (b: seq<string>)
    requires i < |a| && j < |a|
    ensures |b| == |a|
  {
    if !Leq(a[j], a[i]) then a[i := a[j]][j := a[i]] else a
  }

  lemma PassStep(a: seq<string>, i: nat, j: nat)
    requires i < |a| && j < |a| && Passing(a, i, j)
    ensures Passing(Exchanged(a, i, j), i, j + 1)
  {
    hide Leq;
    StrcmpIsOrder();
    var b := Exchanged(a, i, j);
    if 0 < i && j + 1 < i {
      forall k | 0 <= k < |b|
        ensures Leq(b[k], b[i - 1])
      {
        assert Leq(a[i], a[i - 1]) && Leq(a[j], a[i - 1]) && Leq(a[k], a[i - 1]);
      }
    } else if 0 < i && j + 1 == i {
      forall k | 0 <= k < |b|
        ensures Leq(b[k], b[i])
      {
        assert Leq(a[i], a[j]) && Leq(a[k], a[j]);
      }
    }
  }

  /** Every table ends as its sorted arrangement. */
  method TriIteratif(tableau: array<string>)
    modifies tableau
    ensures tableau[..] == Sort(old(tableau[..]))
  {
    hide Leq;
    ghost var was := tableau[..];
    var i := 0;
    while i < tableau.Length
      invariant 0 <= i <= tableau.Length && multiset(tableau[..]) == multiset(was)
      invariant Sorted(tableau[..i])
      invariant i > 0 ==> Greatest(tableau[..], i - 1)
    {
      Pass(tableau, i);
      i := i + 1;
    }
    assert tableau[..i] == tableau[..];
    SortedIsSort(was, tableau[..]);
  }

  // The inner loop.
  method Pass(tableau: array<string>, i: nat)
    requires i < tableau.Length && Sorted(tableau[..i]) && (i > 0 ==> Greatest(tableau[..], i - 1))
    modifies tableau
    ensures multiset(tableau[..]) == multiset(old(tableau[..]))
    ensures Sorted(tableau[..i + 1]) && Greatest(tableau[..], i)
  {
    hide Leq, Passing, Greatest, Sorted;
    var j := 0;
    PassBegins(tableau[..], i);
    while j < tableau.Length
      invariant 0 <= j <= tableau.Length && multiset(tableau[..]) == multiset(old(tableau[..]))
      invariant Passing(tableau[..], i, j)
    {
      PassStep(tableau[..], i, j);
      if !Leq(tableau[j], tableau[i]) {
        Swap(tableau, i, j);
      }
      j := j + 1;
    }
    PassEnds(tableau[..], i);
  }
}
