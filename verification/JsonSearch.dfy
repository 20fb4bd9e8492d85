/** What the search of cocarrier/json.c finds: on which trees it misses a name that is there. */
module JsonSearch {
  import opened Basics
  import opened DataElement
  import opened JsonWalk

  // s is one of kids or below one of them.
  ghost predicate Within(s: Shape, kids: seq<Shape>) {
    exists i :: 0 <= i < |kids| && (s == kids[i] || Within(s, kids[i].kids))
  }

  ghost predicate Occurs(n: string, kids: seq<Shape>) {
    exists i :: 0 <= i < |kids| && (kids[i].name == Some(n) || Occurs(n, kids[i].kids))
  }

  ghost predicate NoNull(kids: seq<Shape>) {
    forall i :: 0 <= i < |kids| ==> kids[i].ptr != NULL && NoNull(kids[i].kids)
  }

  // ----- the shapes on which nothing is missed

  // No node has a name.
  predicate Nameless(kids: seq<Shape>) {
    forall i | 0 <= i < |kids| :: kids[i].name.None? && Nameless(kids[i].kids)
  }

  // The search that starts at the first of kids comes to every name: behind a named node that comes
  // first, no sibling may have names below it.
  predicate Open(kids: seq<Shape>)
    decreases kids, 1
  {
    kids == [] ||
    if kids[0].name.None? then Open(kids[0].kids) && Open(kids[1..])
    else OpenAll(kids[0].kids) && forall i | 1 <= i < |kids| :: Nameless(kids[i].kids)
  }

  // The same when the search starts at each of kids in turn.
  predicate OpenAll(kids: seq<Shape>)
    decreases kids, 0
  {
    forall i | 0 <= i < |kids| :: if kids[i].name.None? then Open(kids[i].kids) else OpenAll(kids[i].kids)
  }

  // Every node is named.
  predicate AllNamed(kids: seq<Shape>) {
    forall i | 0 <= i < |kids| :: kids[i].name.Some? && AllNamed(kids[i].kids)
  }

  // ----- names as sets

  ghost function OwnName(s: Shape): set<string> { if s.name.Some? then {s.name.value} else {} }

  ghost function KidNames(kids: seq<Shape>): set<string> {
    if kids == [] then {} else OwnName(kids[0]) + KidNames(kids[1..])
  }

  ghost function Names(kids: seq<Shape>): set<string> {
    if kids == [] then {} else OwnName(kids[0]) + Names(kids[0].kids) + Names(kids[1..])
  }

  // No name occurs twice.
  ghost predicate NamesOnce(kids: seq<Shape>) {
    kids == [] ||
    (OwnName(kids[0]) !! Names(kids[0].kids) && OwnName(kids[0]) + Names(kids[0].kids) !! Names(kids[1..])
     && NamesOnce(kids[0].kids) && NamesOnce(kids[1..]))
  }

  // The names that the search started on the first of kids comes to, and started on each of them.
  ghost function Seen(kids: seq<Shape>): set<string>
    decreases kids, 1
  {
    if kids == [] then {}
    else if kids[0].name == None then Seen(kids[0].kids) + Seen(kids[1..])
    else KidNames(kids) + SeenBelow(kids[0].kids)
  }

  ghost function SeenBelow(kids: seq<Shape>): set<string>
    decreases kids, 2
  {
    if kids == [] then {} else Seen(kids) + SeenBelow(kids[1..])
  }

  lemma {:induction false} OccursName(n: string, kids: seq<Shape>)
    ensures Occurs(n, kids) <==> n in Names(kids)
  {
    if kids != [] {
      OccursName(n, kids[0].kids);
      OccursName(n, kids[1..]);
      assert forall i :: 0 < i < |kids| ==> kids[i] == kids[1..][i - 1];
      if Occurs(n, kids[1..]) {
        var i :| 0 <= i < |kids| - 1 && (kids[1..][i].name == Some(n) || Occurs(n, kids[1..][i].kids));
        assert kids[i + 1] == kids[1..][i];
      }
    }
  }

  lemma {:induction false} NamelessNames(kids: seq<Shape>)
    ensures Nameless(kids) <==> Names(kids) == {}
  {
    if kids != [] {
      NamelessNames(kids[0].kids);
      NamelessNames(kids[1..]);
      assert forall i :: 0 < i < |kids| ==> kids[i] == kids[1..][i - 1];
      assert forall i :: 0 <= i < |kids| - 1 ==> kids[1..][i] == kids[i + 1];
    }
  }

  lemma {:induction false} KidNamesIn(kids: seq<Shape>)
    ensures KidNames(kids) <= Names(kids)
  {
    if kids != [] {
      KidNamesIn(kids[1..]);
    }
  }

  // Names are those of the nodes and of what is below them.
  lemma {:induction false} FlatNames(kids: seq<Shape>)
    ensures (forall i | 0 <= i < |kids| :: Names(kids[i].kids) <= Names(kids))
    ensures (forall i | 0 <= i < |kids| :: Names(kids[i].kids) == {}) ==> Names(kids) == KidNames(kids)
  {
    if kids != [] {
      FlatNames(kids[1..]);
      assert forall i :: 0 < i < |kids| ==> kids[i] == kids[1..][i - 1];
      assert forall i :: 0 <= i < |kids| - 1 ==> kids[1..][i] == kids[i + 1];
    }
  }

  // ----- the search comes to the names it sees

  lemma {:induction false} FindSeen(kids: seq<Shape>, n: string)
    requires NoNull(kids)
    ensures Find(kids, n) != NULL <==> n in Seen(kids)
    decreases kids, 1
  {
    if kids == [] {
    } else if kids[0].name == None {
      FindSeen(kids[0].kids, n);
      FindSeen(kids[1..], n);
    } else {
      ShallowSeen(kids[1..], n);
      DeepSeen(kids[0].kids, n);
    }
  }

  lemma {:induction false} ShallowSeen(kids: seq<Shape>, n: string)
    requires NoNull(kids)
    ensures Shallow(kids, n) != NULL <==> n in KidNames(kids)
  {
    if kids != [] {
      ShallowSeen(kids[1..], n);
    }
  }

  lemma {:induction false} DeepSeen(kids: seq<Shape>, n: string)
    requires NoNull(kids)
    ensures Deep(kids, n) != NULL <==> n in SeenBelow(kids)
    decreases kids, 2
  {
    if kids != [] {
      FindSeen(kids, n);
      DeepSeen(kids[1..], n);
    }
  }

  // It comes to no others, and to the names of the siblings it goes through.
  lemma {:induction false} SeenNames(kids: seq<Shape>)
    ensures Seen(kids) <= Names(kids)
    decreases kids, 1
  {
    if kids != [] {
      KidNamesIn(kids);
      SeenNames(kids[1..]);
      if kids[0].name == None {
        SeenNames(kids[0].kids);
      } else {
        SeenBelowNames(kids[0].kids);
      }
    }
  }

  lemma {:induction false} SeenBelowNames(kids: seq<Shape>)
    ensures SeenBelow(kids) <= Names(kids) && KidNames(kids) <= SeenBelow(kids)
    decreases kids, 2
  {
    if kids != [] {
      SeenNames(kids);
      SeenBelowNames(kids[1..]);
    }
  }

  // ----- open shapes

  lemma FlatRest(kids: seq<Shape>)
    requires kids != []
    ensures (forall i | 1 <= i < |kids| :: Nameless(kids[i].kids)) <==>
            forall i | 0 <= i < |kids| - 1 :: Names(kids[1..][i].kids) == {}
  {
    hide Names, Nameless;
    forall i | 1 <= i < |kids|
      ensures Nameless(kids[i].kids) <==> Names(kids[1..][i - 1].kids) == {}
    {
      NamelessNames(kids[i].kids);
    }
    assert forall i :: 0 <= i < |kids| - 1 ==> kids[1..][i] == kids[i + 1];
  }

  lemma OpenAllStep(kids: seq<Shape>)
    requires kids != []
    ensures OpenAll(kids) <==>
            (if kids[0].name.None? then Open(kids[0].kids) else OpenAll(kids[0].kids)) && OpenAll(kids[1..])
  {
    assert forall i :: 0 < i < |kids| ==> kids[i] == kids[1..][i - 1];
    assert forall i :: 0 <= i < |kids| - 1 ==> kids[1..][i] == kids[i + 1];
  }

  lemma {:induction false} OpenSeen(kids: seq<Shape>)
    requires Open(kids)
    ensures Seen(kids) == Names(kids)
    decreases kids, 1
  {
    if kids == [] {
    } else if kids[0].name.None? {
      OpenSeen(kids[0].kids);
      OpenSeen(kids[1..]);
    } else {
      OpenAllSeen(kids[0].kids);
      FlatRest(kids);
      FlatNames(kids[1..]);
    }
  }

  lemma {:induction false} OpenAllSeen(kids: seq<Shape>)
    requires OpenAll(kids)
    ensures SeenBelow(kids) == Names(kids)
    decreases kids, 0
  {
    hide OpenAll, Open;
    if kids != [] {
      OpenAllStep(kids);
      OpenAllSeen(kids[1..]);
      SeenNames(kids);
      if kids[0].name.None? {
        OpenSeen(kids[0].kids);
      } else {
        OpenAllSeen(kids[0].kids);
      }
    }
  }

  lemma {:induction false} SeenOpen(kids: seq<Shape>)
    requires NamesOnce(kids) && Seen(kids) == Names(kids)
    ensures Open(kids)
    decreases kids, 1
  {
    if kids == [] {
    } else if kids[0].name.None? {
      SeenNames(kids[0].kids);
      SeenNames(kids[1..]);
      SeenOpen(kids[0].kids);
      SeenOpen(kids[1..]);
    } else {
      var k := kids[0];
      SeenBelowNames(k.kids);
      KidNamesIn(kids[1..]);
      SeenAllOpen(k.kids);
      OnceRest(kids[1..]);
      FlatRest(kids);
    }
  }

  // Where a name occurs once, names of nodes are not names of nodes below their siblings.
  lemma {:induction false} OnceRest(kids: seq<Shape>)
    requires NamesOnce(kids) && Names(kids) == KidNames(kids)
    ensures forall i | 0 <= i < |kids| :: Names(kids[i].kids) == {}
  {
    if kids != [] {
      KidNamesIn(kids[1..]);
      OnceRest(kids[1..]);
      assert forall i :: 0 < i < |kids| ==> kids[i] == kids[1..][i - 1];
    }
  }

  lemma {:induction false} SeenAllOpen(kids: seq<Shape>)
    requires NamesOnce(kids) && SeenBelow(kids) == Names(kids)
    ensures OpenAll(kids)
    decreases kids, 0
  {
    hide Open, OpenAll;
    if kids == [] {
      NothingOpen();
    } else {
      var k, rest := kids[0], kids[1..];
      OpenAllStep(kids);
      SeenBelowNames(rest);
      SeenNames(rest);
      KidNamesIn(rest);
      SeenNames(k.kids);
      SeenBelowNames(k.kids);
      SeenAllOpen(rest);
      if k.name.None? {
        SeenOpen(k.kids);
      } else {
        SeenAllOpen(k.kids);
      }
    }
  }

  lemma NothingOpen()
    ensures OpenAll([])
  {
  }

  lemma {:induction false} AllNamedOpen(kids: seq<Shape>)
    requires AllNamed(kids)
    ensures OpenAll(kids)
    decreases kids
  {
    forall i | 0 <= i < |kids|
      ensures OpenAll(kids[i].kids)
    {
      AllNamedOpen(kids[i].kids);
    }
  }

  // ----- main results

  /** On an open shape the search finds a name exactly when it occurs. */
  lemma FindComplete(kids: seq<Shape>, n: string)
    requires NoNull(kids) && Open(kids)
    ensures Find(kids, n) != NULL <==> Occurs(n, kids)
  {
    FindSeen(kids, n);
    OpenSeen(kids);
    OccursName(n, kids);
  }

  // The search finds a name exactly when it occurs.
  ghost predicate Complete(kids: seq<Shape>) {
    forall n :: Find(kids, n) != NULL <==> Occurs(n, kids)
  }

  /** Where no name occurs twice, the search misses no name exactly on the open shapes. */
  lemma FindCompleteExact(kids: seq<Shape>)
    requires NoNull(kids) && NamesOnce(kids)
    ensures Complete(kids) <==> Open(kids)
  {
    if Open(kids) {
      assert Complete(kids) by { OpenComplete(kids); }
    }
    if Complete(kids) {
      CompleteSeen(kids);
      SeenOpen(kids);
    }
  }

  lemma OpenComplete(kids: seq<Shape>)
    requires NoNull(kids) && Open(kids)
    ensures Complete(kids)
  {
    hide NoNull, Open;
    forall n
      ensures Find(kids, n) != NULL <==> Occurs(n, kids)
    {
      FindComplete(kids, n);
    }
  }

  lemma CompleteSeen(kids: seq<Shape>)
    requires NoNull(kids) && Complete(kids)
    ensures Seen(kids) == Names(kids)
  {
    hide NoNull, Seen, Names;
    forall n
      ensures n in Seen(kids) <==> n in Names(kids)
    {
      FindSeen(kids, n);
      OccursName(n, kids);
    }
  }

  /** A search from the root, such as the one a parsed file gives, is complete when the shape below the root
      is open, in particular when all nodes are named. */
  lemma FindFromRoot(c: Cells, root: Shape, n: string)
    requires Fits(c, root) && root.name.Some?
    ensures OpenAll(root.kids) ==> (Find([root], n) != NULL <==> Occurs(n, [root]))
    ensures AllNamed(root.kids) ==> OpenAll(root.kids)
  {
    FitsNoNull(c, root);
    if OpenAll(root.kids) {
      assert Open([root]);
      FindComplete([root], n);
    }
    if AllNamed(root.kids) {
      AllNamedOpen(root.kids);
    }
  }

  /** Whatever the search returns is a node with that name, inside the searched subtree or among the
      following siblings and what is below them. */
  lemma {:induction false} FindSound(kids: seq<Shape>, n: string) returns (s: Shape)
    requires Find(kids, n) != NULL
    ensures s.ptr == Find(kids, n) && s.name == Some(n) && Within(s, kids)
    decreases kids, 1
  {
    if kids[0].name == None {
      if Find(kids[0].kids, n) != NULL {
        s := FindSound(kids[0].kids, n);
      } else {
        s := FindSound(kids[1..], n);
        WithinRest(s, kids);
      }
    } else if kids[0].name == Some(n) {
      s := kids[0];
    } else if Shallow(kids[1..], n) != NULL {
      s := ShallowSound(kids[1..], n);
      WithinRest(s, kids);
    } else {
      s := DeepSound(kids[0].kids, n);
    }
  }

  lemma WithinRest(s: Shape, kids: seq<Shape>)
    requires kids != [] && Within(s, kids[1..])
    ensures Within(s, kids)
  {
    var i :| 0 <= i < |kids| - 1 && (s == kids[1..][i] || Within(s, kids[1..][i].kids));
    assert kids[1..][i] == kids[i + 1];
  }

  lemma {:induction false} ShallowSound(kids: seq<Shape>, n: string) returns (s: Shape)
    requires Shallow(kids, n) != NULL
    ensures s.ptr == Shallow(kids, n) && s.name == Some(n) && Within(s, kids)
  {
    if kids[0].name == Some(n) {
      s := kids[0];
    } else {
      s := ShallowSound(kids[1..], n);
      WithinRest(s, kids);
    }
  }

  lemma {:induction false} DeepSound(kids: seq<Shape>, n: string) returns (s: Shape)
    requires Deep(kids, n) != NULL
    ensures s.ptr == Deep(kids, n) && s.name == Some(n) && Within(s, kids)
    decreases kids, 2
  {
    if Find(kids, n) != NULL {
      s := FindSound(kids, n);
    } else {
      s := DeepSound(kids[1..], n);
      WithinRest(s, kids);
    }
  }

  // In a tree in the heap no node sits at NULL.
  lemma {:induction false} FitsNoNull(c: Cells, s: Shape)
    requires Fits(c, s)
    ensures NoNull([s])
  {
    forall i | 0 <= i < |s.kids|
      ensures s.kids[i].ptr != NULL && NoNull(s.kids[i].kids)
    {
      FitsNoNull(c, s.kids[i]);
      assert [s.kids[i]][0] == s.kids[i];
    }
    assert NoNull(s.kids);
  }

  // The tree of [{"a": 1, "b": {"x": 1}}].
  function Sample(): Shape {
    Shape(1, Some("file"), None, [Shape(2, None, None, [Shape(3, Some("a"), Some("1"), []), SampleMember()])])
  }

  function SampleMember(): Shape { Shape(4, Some("b"), None, [Shape(5, Some("x"), Some("1"), [])]) }

  /** With unnamed nodes a name can be there and not be found: below the second member of an object
      in an array. */
  lemma FindIncomplete()
    ensures Occurs("x", [Sample()]) && Find([Sample()], "x") == NULL
  {
    var a, b := Shape(3, Some("a"), Some("1"), []), SampleMember();
    var u := Shape(2, None, None, [a, b]);
    assert b.kids[0].name == Some("x") && Occurs("x", b.kids);
    assert [a, b][1] == b && Occurs("x", [a, b]);
    assert [u][0] == u && Occurs("x", [u]);
    assert [Sample()][0] == Sample() && Occurs("x", [Sample()]);
    assert [a, b][1..] == [b] && [b][1..] == [] && [u][1..] == [];
    assert Shallow([b], "x") == NULL;
    assert Find([a, b], "x") == NULL;
    assert Find([u], "x") == NULL;
  }
}
