/** Picking and converting the elements of a list, whatever their order. */
module Selecting {
  import opened Basics

  // The results of f on the elements of s where it has one.
  function Select<A, B>(s: seq<A>, f: A -> Option<B>): seq<B> {
    if s == [] then []
    else
      var n := |s| - 1;
      Select(s[..n], f) + if f(s[n]).Some? then [f(s[n]).value] else []
  }

  lemma SelectNone<A, B>(f: A -> Option<B>)
    ensures Select([], f) == []
  {
  }

  lemma SelectStep<A, B>(s: seq<A>, k: nat, f: A -> Option<B>)
    requires k < |s|
    ensures Select(s[..k + 1], f) == Select(s[..k], f) + if f(s[k]).Some? then [f(s[k]).value] else []
  {
    assert s[..k + 1][..k] == s[..k];
  }

  lemma {:induction false} SelectSplit<A, B>(a: seq<A>, b: seq<A>, f: A -> Option<B>)
    ensures Select(a + b, f) == Select(a, f) + Select(b, f)
  {
    if b == [] {
      assert a + b == a;
    } else {
      var n := |b| - 1;
      assert (a + b)[..|a + b| - 1] == a + b[..n];
      SelectSplit(a, b[..n], f);
    }
  }

  lemma {:induction false} SelectNonEmpty<A, B>(s: seq<A>, f: A -> Option<B>, i: nat)
    requires i < |s| && f(s[i]).Some?
    ensures f(s[i]).value in Select(s, f)
  {
    var n := |s| - 1;
    if i < n {
      SelectNonEmpty(s[..n], f, i);
    }
  }

  lemma TakeOut<T>(b: seq<T>, i: nat)
    requires i < |b|
    ensures multiset(b[..i] + b[i + 1..]) == multiset(b) - multiset{b[i]}
  {
    assert b == b[..i] + [b[i]] + b[i + 1..];
    assert multiset(b) == multiset(b[..i]) + multiset{b[i]} + multiset(b[i + 1..]);
  }

  lemma SelectWithout<A, B>(b: seq<A>, i: nat, f: A -> Option<B>)
    requires i < |b|
    ensures multiset(Select(b, f)) == multiset(Select(b[..i] + b[i + 1..], f)) + multiset(Select([b[i]], f))
  {
    hide Select;
    var front, one, rest := b[..i], [b[i]], b[i + 1..];
    assert b == front + (one + rest);
    SelectSplit(front, one + rest, f);
    SelectSplit(one, rest, f);
    SelectSplit(front, rest, f);
  }

  // Reordering the list reorders the selection.
  lemma {:induction false} SelectOrderFree<A, B>(a: seq<A>, b: seq<A>, f: A -> Option<B>)
    requires multiset(a) == multiset(b)
    ensures multiset(Select(a, f)) == multiset(Select(b, f))
    decreases |a|
  {
    hide Select;
    assert |multiset(a)| == |a| && |multiset(b)| == |b|;
    if a != [] {
      var h := a[|a| - 1];
      assert h in multiset(a) && h in multiset(b);
      var i :| 0 <= i < |b| && b[i] == h;
      var a', b' := a[..|a| - 1], b[..i] + b[i + 1..];
      TakeOut(a, |a| - 1);
      TakeOut(b, i);
      SelectWithout(a, |a| - 1, f);
      SelectWithout(b, i, f);
      assert a' + [] == a' && a[|a|..] == [];
      SelectOrderFree(a', b', f);
    }
  }
}
