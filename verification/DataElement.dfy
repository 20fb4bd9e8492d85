/** The doubly linked trees of cocarrier/dataelement.c, in a C heap.

    Dafny objects cannot be freed, so the heap is a map from addresses to live nodes: malloc adds an
    address that is not in use (freed addresses may come back), free removes it, and every access
    to a node must prove that its address is live. */
module DataElement {
  import opened Basics
  import opened JsonText

  type Ptr = nat
  const NULL: Ptr := 0

  datatype Cell = Cell(previous: Ptr, next: Ptr, parent: Ptr, first: Ptr, last: Ptr,
                       name: Option<string>, value: Option<string>)
  type Cells = map<Ptr, Cell>

  const RESET: Cell := Cell(NULL, NULL, NULL, NULL, NULL, None, None)

  // ----- trees in the heap

  /** A tree together with the addresses of its nodes. */
  datatype Shape = Shape(ptr: Ptr, name: Option<string>, value: Option<string>, kids: seq<Shape>)

  function ToTree(s: Shape): Tree {
    Tree(s.name, s.value, ToTrees(s.kids))
  }

  function ToTrees(kids: seq<Shape>): (r: seq<Tree>)
    ensures |r| == |kids|
  {
    if kids == [] then [] else ToTrees(kids[..|kids| - 1]) + [ToTree(kids[|kids| - 1])]
  }

  ghost function Ptrs(s: Shape): set<Ptr> {
    {s.ptr} + PtrsAll(s.kids)
  }

  ghost function PtrsAll(kids: seq<Shape>): set<Ptr> {
    set i, p | 0 <= i < |kids| && p in Ptrs(kids[i]) :: p
  }

  // All addresses of a tree are different.
  ghost predicate Apart(s: Shape) {
    s.ptr !in PtrsAll(s.kids) && ApartAll(s.kids)
  }

  ghost predicate ApartAll(kids: seq<Shape>) {
    && (forall i :: 0 <= i < |kids| ==> Apart(kids[i]))
    && (forall i, j :: 0 <= i < j < |kids| ==> Ptrs(kids[i]) !! Ptrs(kids[j]))
  }

  function First(kids: seq<Shape>): Ptr { if kids == [] then NULL else kids[0].ptr }

  function Last(kids: seq<Shape>): Ptr { if kids == [] then NULL else kids[|kids| - 1].ptr }

  // The heap holds tree s: names, values, both ends of every child list, and inside the child lists
  // next and previous as inverses of each other and the parent of every child.
  ghost predicate Fits(c: Cells, s: Shape)
    decreases s
  {
    && s.ptr in c && s.ptr != NULL
    && c[s.ptr].name == s.name && c[s.ptr].value == s.value
    && c[s.ptr].first == First(s.kids) && c[s.ptr].last == Last(s.kids)
    && Row(c, s.ptr, s.kids)
  }

  ghost predicate Row(c: Cells, parent: Ptr, kids: seq<Shape>)
    decreases kids
  {
    forall i :: 0 <= i < |kids| ==> Linked(c, parent, kids, i) && Fits(c, kids[i])
  }

  ghost predicate Linked(c: Cells, parent: Ptr, kids: seq<Shape>, i: nat)
    requires i < |kids|
  {
    && kids[i].ptr in c
    && c[kids[i].ptr].parent == parent
    && c[kids[i].ptr].previous == (if i == 0 then NULL else kids[i - 1].ptr)
    && c[kids[i].ptr].next == (if i == |kids| - 1 then NULL else kids[i + 1].ptr)
  }

  // ----- frames

  lemma {:induction false} FitsLive(c: Cells, s: Shape)
    requires Fits(c, s)
    ensures Ptrs(s) <= c.Keys && NULL !in Ptrs(s)
  {
    forall i | 0 <= i < |s.kids|
      ensures Ptrs(s.kids[i]) <= c.Keys && NULL !in Ptrs(s.kids[i])
    {
      FitsLive(c, s.kids[i]);
    }
  }

  // c' has the same nodes below s, and the same s except perhaps for its place among its siblings.
  ghost predicate SameBelow(c: Cells, c': Cells, s: Shape)
    requires s.ptr in c
  {
    && s.ptr in c'
    && c'[s.ptr] == c[s.ptr].(previous := c'[s.ptr].previous, next := c'[s.ptr].next, parent := c'[s.ptr].parent)
    && forall p :: p in PtrsAll(s.kids) && p in c ==> p in c' && c'[p] == c[p]
  }

  lemma {:induction false} FitsFrame(c: Cells, c': Cells, s: Shape)
    requires Fits(c, s) && SameBelow(c, c', s)
    ensures Fits(c', s)
  {
    forall i | 0 <= i < |s.kids|
      ensures Linked(c', s.ptr, s.kids, i) && Fits(c', s.kids[i])
    {
      FitsLive(c, s.kids[i]);
      assert Linked(c, s.ptr, s.kids, i);
      assert forall p :: p in Ptrs(s.kids[i]) ==> p in PtrsAll(s.kids);
      FitsFrame(c, c', s.kids[i]);
    }
  }

  lemma PtrsSplit(a: seq<Shape>, b: seq<Shape>)
    ensures PtrsAll(a + b) == PtrsAll(a) + PtrsAll(b)
  {
    forall p | p in PtrsAll(a) + PtrsAll(b)
      ensures p in PtrsAll(a + b)
    {
      if p in PtrsAll(a) {
        var i :| 0 <= i < |a| && p in Ptrs(a[i]);
        assert (a + b)[i] == a[i];
      } else {
        var i :| 0 <= i < |b| && p in Ptrs(b[i]);
        assert (a + b)[|a| + i] == b[i];
      }
    }
  }

  lemma PtrsOne(s: Shape)
    ensures PtrsAll([s]) == Ptrs(s)
  {
    assert [s][0] == s;
    assert forall p :: p in Ptrs(s) ==> p in Ptrs([s][0]);
  }

  // ----- what the functions do to the heap

  // add_data_element: s becomes the last child of p.
  function Link(c: Cells, p: Ptr, s: Ptr): Cells
    requires p in c && (c[p].last == NULL || c[p].last in c)
  {
    var last := c[p].last;
    var c1 := c[s := RESET.(previous := last, parent := p)];
    if last == NULL then c1[p := c[p].(first := s, last := s)]
    else c1[last := c[last].(next := s)][p := c[p].(last := s)]
  }

  // The pointer surgery of drop_data_element, before the node is freed.
  function Unlink(c: Cells, s: Ptr): Cells
    requires Hangs(c, s)
  {
    var x := c[s];
    if x.parent == NULL then c
    else
      var up := c[x.parent];
      var c1 := c[x.parent := up.(first := if x.previous == NULL then x.next else up.first,
                                  last := if x.next == NULL then x.previous else up.last)];
      var c2 := if x.previous == NULL then c1 else c1[x.previous := c[x.previous].(next := x.next)];
      if x.next == NULL then c2 else c2[x.next := c[x.next].(previous := x.previous)]
  }

  predicate Beside(c: Cells, s: Ptr, p: Ptr)
    requires s in c
  {
    p in c && p != s && p != c[s].parent
  }

  // The neighbours of s are live and different, so that it can be dropped.
  ghost predicate Hangs(c: Cells, s: Ptr) {
    && s in c && s != NULL
    && (c[s].parent != NULL ==>
        && c[s].parent in c && c[s].parent != s
        && (c[s].previous != NULL ==> Beside(c, s, c[s].previous) && c[s].previous != c[s].next)
        && (c[s].next != NULL ==> Beside(c, s, c[s].next)))
  }

  function Leaf(s: Ptr): Shape { Shape(s, None, None, []) }

  function WithoutKid(up: Shape, i: nat): Shape
    requires i < |up.kids|
  {
    up.(kids := up.kids[..i] + up.kids[i + 1..])
  }

  /** add_data_element appends to the child list and touches nothing outside the parent's tree. */
  lemma LinkAppends(c: Cells, up: Shape, s: Ptr)
    requires Fits(c, up) && Apart(up) && s !in c && s != NULL
    ensures c[up.ptr].last == NULL || c[up.ptr].last in c
    ensures Fits(Link(c, up.ptr, s), up.(kids := up.kids + [Leaf(s)]))
    ensures Apart(up.(kids := up.kids + [Leaf(s)]))
    ensures forall p :: p in c && p !in Ptrs(up) ==> Link(c, up.ptr, s)[p] == c[p]
  {
    hide Link, PtrsAll, ApartAll;
    FitsLive(c, up);
    LinkEnds(c, up, s);
    LinkParent(c, up, s);
    LinkRow(c, up, s);
    LeafApart(up, s);
  }

  lemma LinkRow(c: Cells, up: Shape, s: Ptr)
    requires up.ptr in c && Fits(c, up) && Apart(up) && s !in c && s != NULL
    requires c[up.ptr].last == NULL || c[up.ptr].last in c
    ensures Row(Link(c, up.ptr, s), up.ptr, up.kids + [Leaf(s)])
  {
    hide Link, Ptrs, PtrsAll, Apart, Fits, Linked;
    var kids := up.kids + [Leaf(s)];
    LinkParent(c, up, s);
    forall i | 0 <= i < |kids|
      ensures Linked(Link(c, up.ptr, s), up.ptr, kids, i) && Fits(Link(c, up.ptr, s), kids[i])
    {
      if i < |up.kids| {
        LinkKid(c, up, s, i);
      }
    }
  }

  // The last child is live, and neither the parent nor another child.
  lemma LinkEnds(c: Cells, up: Shape, s: Ptr)
    requires Fits(c, up) && Apart(up) && s !in c && s != NULL
    ensures up.kids != [] ==> c[up.ptr].last == up.kids[|up.kids| - 1].ptr && c[up.ptr].last != up.ptr
    ensures c[up.ptr].last == NULL || (c[up.ptr].last in c && c[up.ptr].last in Ptrs(up))
    ensures c[up.ptr].last == NULL <==> up.kids == []
  {
    hide Row, ApartAll;
    var n := |up.kids|;
    if n > 0 {
      NextTo(c, up, n - 1);
      FitsLive(c, up.kids[n - 1]);
      assert up.kids[n - 1].ptr in Ptrs(up.kids[n - 1]);
      KidsApart(up, n - 1);
    }
  }

  // The parent and the new child, and what stays out of reach.
  lemma LinkParent(c: Cells, up: Shape, s: Ptr)
    requires Fits(c, up) && Apart(up) && s !in c && s != NULL
    requires c[up.ptr].last == NULL || c[up.ptr].last in c
    ensures Link(c, up.ptr, s).Keys == c.Keys + {s}
    ensures Link(c, up.ptr, s)[up.ptr] == c[up.ptr].(first := First(up.kids + [Leaf(s)]), last := s)
    ensures Linked(Link(c, up.ptr, s), up.ptr, up.kids + [Leaf(s)], |up.kids|) && Fits(Link(c, up.ptr, s), Leaf(s))
    ensures forall p :: p in c && p !in Ptrs(up) ==> Link(c, up.ptr, s)[p] == c[p]
  {
    hide PtrsAll, ApartAll;
    LinkEnds(c, up, s);
  }

  lemma LinkKid(c: Cells, up: Shape, s: Ptr, i: nat)
    requires Fits(c, up) && Apart(up) && s !in c && s != NULL && i < |up.kids|
    requires c[up.ptr].last == NULL || c[up.ptr].last in c
    ensures Linked(Link(c, up.ptr, s), up.ptr, up.kids + [Leaf(s)], i) && Fits(Link(c, up.ptr, s), up.kids[i])
  {
    hide Row, PtrsAll, ApartAll;
    LinkEnds(c, up, s);
    NextTo(c, up, i);
    KidsApart(up, i);
    FitsLive(c, up.kids[i]);
    assert up.kids[i].ptr in Ptrs(up.kids[i]);
    FitsFrame(c, Link(c, up.ptr, s), up.kids[i]);
  }

  lemma LeafApart(up: Shape, s: Ptr)
    requires Apart(up) && s !in Ptrs(up)
    ensures Apart(up.(kids := up.kids + [Leaf(s)]))
  {
    PtrsSplit(up.kids, [Leaf(s)]);
    PtrsOne(Leaf(s));
    assert PtrsAll([]) == {} && Ptrs(Leaf(s)) == {s} && Apart(Leaf(s));
    forall i | 0 <= i < |up.kids|
      ensures Ptrs(up.kids[i]) !! {s}
    {
      assert forall p :: p in Ptrs(up.kids[i]) ==> p in PtrsAll(up.kids);
    }
  }

  // No address below child i is the parent's or one of its children's.
  lemma KidsApart(up: Shape, i: nat)
    requires Apart(up) && i < |up.kids|
    ensures Apart(up.kids[i]) && up.ptr !in Ptrs(up.kids[i])
    ensures forall p :: p in PtrsAll(up.kids[i].kids) ==> p in PtrsAll(up.kids) && p != up.ptr
    ensures forall p, j :: p in PtrsAll(up.kids[i].kids) && 0 <= j < |up.kids| ==> p != up.kids[j].ptr
    ensures forall j :: 0 <= j < |up.kids| && j != i ==>
              up.kids[j].ptr != up.kids[i].ptr && Ptrs(up.kids[i]) !! Ptrs(up.kids[j])
  {
    assert forall p :: p in Ptrs(up.kids[i]) ==> p in PtrsAll(up.kids);
    assert Apart(up.kids[i]);
    forall j | 0 <= j < |up.kids| && j != i
      ensures Ptrs(up.kids[i]) !! Ptrs(up.kids[j])
    {
      if j < i {
        assert Ptrs(up.kids[j]) !! Ptrs(up.kids[i]);
      }
    }
    forall p, j | p in PtrsAll(up.kids[i].kids) && 0 <= j < |up.kids|
      ensures p != up.kids[j].ptr
    {
      assert p in Ptrs(up.kids[i]) && up.kids[j].ptr in Ptrs(up.kids[j]);
    }
  }

  lemma KidHangs(c: Cells, up: Shape, i: nat)
    requires Fits(c, up) && Apart(up) && i < |up.kids|
    ensures Hangs(c, up.kids[i].ptr) && c[up.kids[i].ptr].parent == up.ptr
  {
    assert Linked(c, up.ptr, up.kids, i);
    KidsApart(up, i);
    FitsLive(c, up.kids[i]);
    if i > 0 {
      assert Linked(c, up.ptr, up.kids, i - 1);
      KidsApart(up, i - 1);
    }
    if i + 1 < |up.kids| {
      assert Linked(c, up.ptr, up.kids, i + 1);
      KidsApart(up, i + 1);
    }
  }

  /** drop_data_element removes the child, wherever it stands, from the child list, frees exactly its
      subtree and touches nothing outside the parent's tree. */
  lemma UnlinkRemoves(c: Cells, up: Shape, i: nat)
    requires Fits(c, up) && Apart(up) && i < |up.kids|
    ensures Hangs(c, up.kids[i].ptr) && Fits(Unlink(c, up.kids[i].ptr), up.kids[i]) && Apart(up.kids[i])
    ensures Fits(Unlink(c, up.kids[i].ptr) - Ptrs(up.kids[i]), WithoutKid(up, i))
    ensures Apart(WithoutKid(up, i))
    ensures forall p :: p in c && p !in Ptrs(up) ==> Unlink(c, up.kids[i].ptr)[p] == c[p]
  {
    KidHangs(c, up, i);
    var kids, c' := WithoutKid(up, i).kids, Unlink(c, up.kids[i].ptr) - Ptrs(up.kids[i]);
    WithoutKidEnds(c, up, i);
    WithoutKidApart(up, i);
    DroppedKid(c, up, i);
    forall j | 0 <= j < |kids|
      ensures Linked(c', up.ptr, kids, j) && Fits(c', kids[j])
    {
      KeptKid(c, up, i, j);
    }
  }

  lemma WithoutKidApart(up: Shape, i: nat)
    requires Apart(up) && i < |up.kids|
    ensures Apart(WithoutKid(up, i)) && Ptrs(WithoutKid(up, i)) <= Ptrs(up)
  {
    var kids := WithoutKid(up, i).kids;
    forall j | 0 <= j < |kids|
      ensures kids[j] == up.kids[if j < i then j else j + 1]
    {
    }
  }

  // The parent after the pointer surgery, and what stays out of reach.
  lemma WithoutKidEnds(c: Cells, up: Shape, i: nat)
    requires Fits(c, up) && Apart(up) && i < |up.kids| && Hangs(c, up.kids[i].ptr) && c[up.kids[i].ptr].parent == up.ptr
    ensures up.ptr !in Ptrs(up.kids[i]) && up.ptr in Unlink(c, up.kids[i].ptr)
    ensures Unlink(c, up.kids[i].ptr)[up.ptr]
         == c[up.ptr].(first := First(WithoutKid(up, i).kids), last := Last(WithoutKid(up, i).kids))
    ensures forall p :: p in c && p !in Ptrs(up) ==> Unlink(c, up.kids[i].ptr)[p] == c[p]
  {
    hide Fits, Row, ApartAll, Apart;
    KidsApart(up, i);
    NextTo(c, up, i);
    forall j | 0 <= j < |up.kids|
      ensures up.kids[j].ptr in Ptrs(up) && up.kids[j].ptr != NULL
    {
      NextTo(c, up, j);
      FitsLive(c, up.kids[j]);
      assert up.kids[j].ptr in Ptrs(up.kids[j]);
    }
  }

  // The pointer surgery as seen from another child.
  lemma UnlinkKid(c: Cells, up: Shape, i: nat, k: nat)
    requires Fits(c, up) && Apart(up) && i < |up.kids| && k < |up.kids| && k != i && Hangs(c, up.kids[i].ptr)
    requires c[up.kids[i].ptr].parent == up.ptr
    ensures up.kids[k].ptr in c && up.kids[k].ptr in Unlink(c, up.kids[i].ptr)
    ensures Unlink(c, up.kids[i].ptr)[up.kids[k].ptr] ==
            c[up.kids[k].ptr].(previous := if k == i + 1 then c[up.kids[i].ptr].previous
                                              else c[up.kids[k].ptr].previous,
                               next := if k + 1 == i then c[up.kids[i].ptr].next else c[up.kids[k].ptr].next)
    ensures forall p :: p in PtrsAll(up.kids[k].kids) && p in c ==>
      p in Unlink(c, up.kids[i].ptr) && Unlink(c, up.kids[i].ptr)[p] == c[p]
  {
    hide Fits, Row, PtrsAll, ApartAll;
    NextTo(c, up, i);
    NextTo(c, up, k);
    KidsApart(up, i);
    KidsApart(up, k);
  }

  lemma DroppedKid(c: Cells, up: Shape, i: nat)
    requires Fits(c, up) && Apart(up) && i < |up.kids| && Hangs(c, up.kids[i].ptr) && c[up.kids[i].ptr].parent == up.ptr
    ensures Fits(Unlink(c, up.kids[i].ptr), up.kids[i]) && Apart(up.kids[i])
  {
    hide Row, PtrsAll, ApartAll;
    NextTo(c, up, i);
    KidsApart(up, i);
    FitsFrame(c, Unlink(c, up.kids[i].ptr), up.kids[i]);
  }

  // The neighbours of child i.
  lemma NextTo(c: Cells, up: Shape, i: nat)
    requires Fits(c, up) && i < |up.kids|
    ensures up.ptr in c && up.ptr != NULL && Linked(c, up.ptr, up.kids, i) && Fits(c, up.kids[i])
    ensures up.kids[i].ptr != NULL && up.kids[i].ptr in c
    ensures c[up.ptr].first == First(up.kids) && c[up.ptr].last == Last(up.kids)
  {
  }

  // The links of another child k, which is child k or k - 1 of what is left.
  lemma KeptLinks(c: Cells, up: Shape, i: nat, k: nat)
    requires Fits(c, up) && Apart(up) && i < |up.kids| && k < |up.kids| && k != i && Hangs(c, up.kids[i].ptr)
    requires c[up.kids[i].ptr].parent == up.ptr
    ensures Linked(Unlink(c, up.kids[i].ptr) - Ptrs(up.kids[i]), up.ptr, WithoutKid(up, i).kids,
                   if k < i then k else k - 1)
  {
    hide Row, Fits, PtrsAll, ApartAll, Unlink, Hangs;
    NextTo(c, up, i);
    NextTo(c, up, k);
    UnlinkKid(c, up, i, k);
    KidsApart(up, i);
    assert up.kids[k].ptr in Ptrs(up.kids[k]);
  }

  // What hangs below it.
  lemma KeptBelow(c: Cells, up: Shape, i: nat, k: nat)
    requires Fits(c, up) && Apart(up) && i < |up.kids| && k < |up.kids| && k != i && Hangs(c, up.kids[i].ptr)
    requires c[up.kids[i].ptr].parent == up.ptr
    ensures Fits(Unlink(c, up.kids[i].ptr) - Ptrs(up.kids[i]), up.kids[k])
  {
    hide Row, PtrsAll, ApartAll, Unlink, Hangs;
    var c' := Unlink(c, up.kids[i].ptr) - Ptrs(up.kids[i]);
    NextTo(c, up, k);
    UnlinkKid(c, up, i, k);
    KidsApart(up, i);
    assert SameBelow(c, c', up.kids[k]) by {
      FitsLive(c, up.kids[k]);
    }
    FitsFrame(c, c', up.kids[k]);
  }

  // Child j of what is left.
  lemma KeptKid(c: Cells, up: Shape, i: nat, j: nat)
    requires Fits(c, up) && Apart(up) && i < |up.kids| && j < |up.kids| - 1 && Hangs(c, up.kids[i].ptr)
    requires c[up.kids[i].ptr].parent == up.ptr
    ensures Linked(Unlink(c, up.kids[i].ptr) - Ptrs(up.kids[i]), up.ptr, WithoutKid(up, i).kids, j)
    ensures Fits(Unlink(c, up.kids[i].ptr) - Ptrs(up.kids[i]), WithoutKid(up, i).kids[j])
  {
    hide Fits, Apart, Unlink, Linked;
    var k := if j < i then j else j + 1;
    KeptLinks(c, up, i, k);
    KeptBelow(c, up, i, k);
  }

  // ----- the functions

  lemma {:induction false} SomeFresh(keys: set<Ptr>) returns (p: Ptr)
    ensures p != NULL && forall q :: q in keys ==> q < p
    decreases |keys|
  {
    if keys == {} {
      p := 1;
    } else {
      var k :| k in keys;
      var q := SomeFresh(keys - {k});
      p := if q > k then q else k + 1;
      assert forall r :: r in keys ==> r == k || r in keys - {k};
    }
  }

  class Heap {
    var cells: Cells

    constructor ()
      ensures cells == map[]
    {
      cells := map[];
    }

    // allocate and reset_data_element: any address that is not in use.
    method Allocate() returns (p: Ptr)
      modifies this
      ensures p != NULL && p !in old(cells) && cells == old(cells)[p := RESET]
    {
      ghost var q := SomeFresh(cells.Keys);
      assert q !in cells;
      p :| p != NULL && p !in cells;
      cells := cells[p := RESET];
    }

    // liberate: only a live node may be freed.
    method Free(p: Ptr)
      requires p in cells
      modifies this
      ensures cells == old(cells) - {p}
    {
      cells := cells - {p};
    }

    // add_data_element
    method Add(parent: Ptr) returns (s: Ptr)
      requires parent in cells && parent != NULL && cells[parent].last != parent
      requires cells[parent].last == NULL || cells[parent].last in cells
      modifies this
      ensures s != NULL && s !in old(cells) && cells == Link(old(cells), parent, s)
    {
      s := Allocate();
      cells := cells[s := cells[s].(previous := cells[parent].last)];
      if cells[s].previous == NULL {
        cells := cells[parent := cells[parent].(first := s)];
      } else {
        var last := cells[s].previous;
        cells := cells[last := cells[last].(next := s)];
      }
      cells := cells[parent := cells[parent].(last := s)];
      cells := cells[s := cells[s].(parent := parent)];
    }

    // liberate_data_element: frees every node of the tree exactly once and nothing else.
    method Liberate(s: Ptr, ghost shape: Shape)
      requires s == NULL || (s == shape.ptr && Fits(cells, shape) && Apart(shape))
      modifies this
      ensures cells == if s == NULL then old(cells) else old(cells) - Ptrs(shape)
      decreases shape
    {
      hide Fits, Apart, Ptrs, Remaining;
      if s == NULL {
        return;
      }
      ghost var k := 0;
      ghost var kids := shape.kids;
      RemainingAll(cells, shape);
      while cells[s].first != NULL
        invariant 0 <= k <= |kids| && s in old(cells)
        invariant s in cells && cells == Remaining(old(cells), shape, k)
        invariant cells[s].first == First(kids[k..])
        decreases |kids| - k
      {
        RemainingMore(old(cells), shape, k);
        var m := cells[s].first;
        cells := cells[s := cells[s].(first := cells[m].next)];
        Liberate(m, kids[k]);
        k := k + 1;
      }
      RemainingNone(old(cells), shape, k);
      Free(s);
    }

    // drop_data_element
    method Drop(s: Ptr, ghost shape: Shape)
      requires s == NULL || (s == shape.ptr && Hangs(cells, s) && Fits(Unlink(cells, s), shape) && Apart(shape))
      modifies this
      ensures cells == if s == NULL then old(cells) else Unlink(old(cells), s) - Ptrs(shape)
    {
      if s == NULL {
        return;
      }
      if cells[s].parent != NULL {
        Detach(s);
      }
      Liberate(s, shape);
    }

    method Detach(s: Ptr)
      requires Hangs(cells, s) && cells[s].parent != NULL
      modifies this
      ensures cells == Unlink(old(cells), s)
    {
      var up := cells[s].parent;
      if cells[s].previous == NULL {
        cells := cells[up := cells[up].(first := cells[s].next)];
        if cells[up].first == NULL {
          cells := cells[up := cells[up].(last := NULL)];
        } else {
          var f := cells[up].first;
          cells := cells[f := cells[f].(previous := NULL)];
        }
      } else {
        var p := cells[s].previous;
        cells := cells[p := cells[p].(next := cells[s].next)];
        if cells[p].next == NULL {
          cells := cells[up := cells[up].(last := cells[s].previous)];
        }
      }
      if cells[s].next == NULL {
        cells := cells[up := cells[up].(last := cells[s].previous)];
        if cells[up].last == NULL {
          cells := cells[up := cells[up].(first := NULL)];
        } else {
          var l := cells[up].last;
          cells := cells[l := cells[l].(next := NULL)];
        }
      } else {
        var n := cells[s].next;
        cells := cells[n := cells[n].(previous := cells[s].previous)];
        if cells[n].previous == NULL {
          cells := cells[up := cells[up].(first := cells[s].next)];
        }
      }
    }
  }

  // The heap inside liberate_data_element when the first k children are gone.
  ghost function Remaining(c: Cells, s: Shape, k: nat): Cells
    requires k <= |s.kids| && s.ptr in c
  {
    var c1 := c - PtrsAll(s.kids[..k]);
    c1[s.ptr := c[s.ptr].(first := First(s.kids[k..]))]
  }

  lemma RemainingAll(c: Cells, s: Shape)
    requires Fits(c, s)
    ensures s.ptr in c && Remaining(c, s, 0) == c && c[s.ptr].first == First(s.kids[0..])
  {
    assert PtrsAll(s.kids[..0]) == {};
    assert s.kids[0..] == s.kids;
  }

  // Child k and the addresses freed before it.
  lemma Earlier(s: Shape, k: nat)
    requires Apart(s) && k < |s.kids|
    ensures s.ptr !in PtrsAll(s.kids[..k]) && s.ptr !in Ptrs(s.kids[k])
    ensures PtrsAll(s.kids[..k]) !! Ptrs(s.kids[k])
    ensures PtrsAll(s.kids[..k + 1]) == PtrsAll(s.kids[..k]) + Ptrs(s.kids[k])
  {
    assert s.kids[..k + 1] == s.kids[..k] + [s.kids[k]];
    assert s.kids == s.kids[..k] + s.kids[k..];
    PtrsSplit(s.kids[..k], [s.kids[k]]);
    PtrsSplit(s.kids[..k], s.kids[k..]);
    PtrsOne(s.kids[k]);
    KidsApart(s, k);
    forall p | p in PtrsAll(s.kids[..k])
      ensures p !in Ptrs(s.kids[k])
    {
      var i :| 0 <= i < k && p in Ptrs(s.kids[..k][i]);
      assert Ptrs(s.kids[i]) !! Ptrs(s.kids[k]);
    }
  }

  // One child: it is still whole, and freeing it leaves one child less.
  lemma RemainingMore(c: Cells, s: Shape, k: nat)
    requires Fits(c, s) && Apart(s) && k <= |s.kids| && First(s.kids[k..]) != NULL
    ensures k < |s.kids| && s.ptr in Remaining(c, s, k) && s.kids[k].ptr in Remaining(c, s, k)
    ensures First(s.kids[k..]) == s.kids[k].ptr
    ensures Remaining(c, s, k)[s.kids[k].ptr].next == First(s.kids[k + 1..])
    ensures Advanced(c, s, k) ==
            Remaining(c, s, k)[s.ptr := Remaining(c, s, k)[s.ptr].(first := First(s.kids[k + 1..]))]
    ensures Fits(Advanced(c, s, k), s.kids[k]) && Apart(s.kids[k])
    ensures Advanced(c, s, k) - Ptrs(s.kids[k]) == Remaining(c, s, k + 1)
    ensures s.ptr in Remaining(c, s, k + 1) && Remaining(c, s, k + 1)[s.ptr].first == First(s.kids[k + 1..])
  {
    hide Fits, PtrsAll, ApartAll, Linked;
    NextTo(c, s, k);
    Earlier(s, k);
    KidsApart(s, k);
    assert s.kids[k].ptr in Ptrs(s.kids[k]);
    assert s.kids[k..][1..] == s.kids[k + 1..];
    NextIsRest(c, s, k);
    assert SameBelow(c, Advanced(c, s, k), s.kids[k]);
    FitsFrame(c, Advanced(c, s, k), s.kids[k]);
  }

  // The heap between `first = next` and freeing child k.
  ghost function Advanced(c: Cells, s: Shape, k: nat): Cells
    requires k < |s.kids| && s.ptr in c
  {
    (c - PtrsAll(s.kids[..k]))[s.ptr := c[s.ptr].(first := First(s.kids[k + 1..]))]
  }

  lemma NextIsRest(c: Cells, s: Shape, k: nat)
    requires k < |s.kids| && Linked(c, s.ptr, s.kids, k)
    ensures c[s.kids[k].ptr].next == First(s.kids[k + 1..])
  {
  }

  lemma RemainingNone(c: Cells, s: Shape, k: nat)
    requires Fits(c, s) && Apart(s) && k <= |s.kids| && First(s.kids[k..]) == NULL
    ensures Remaining(c, s, k) - {s.ptr} == c - Ptrs(s)
  {
    assert k == |s.kids| by {
      if k < |s.kids| {
        NextTo(c, s, k);
      }
    }
    assert s.kids[..k] == s.kids;
  }
}
