/** The mutually recursive parser of cocarrier/json.c: it builds the tree in the heap while it reads,
    and tears down what it built when it fails. */
module JsonParser {
  import opened Basics
  import opened JsonText
  import opened JsonReader
  import opened DataElement

  // ----- what a successful parse does to the heap

  // From c0 to c1, node d has become tree s: all other nodes of s are new, and nothing else changed.
  ghost predicate Grown(c0: Cells, c1: Cells, d: Ptr, s: Shape) {
    && d in c0 && s.ptr == d && Fits(c1, s) && Apart(s)
    && c1.Keys == c0.Keys + PtrsAll(s.kids) && PtrsAll(s.kids) !! c0.Keys
    && (forall p :: p in c0 && p != d ==> c1[p] == c0[p])
    && SameLinks(c0[d], c1[d])
  }

  predicate SameLinks(x: Cell, y: Cell) {
    x.previous == y.previous && x.next == y.next && x.parent == y.parent
  }

  // A node without value or children.
  predicate Bare(c: Cells, d: Ptr) {
    d in c && d != NULL && c[d].value == None && c[d].first == NULL && c[d].last == NULL
  }

  // The last child of p, if any, is live and ends the list.
  predicate Ended(c: Cells, p: Ptr) {
    && p in c && p != NULL
    && (c[p].last == NULL ==> c[p].first == NULL)
    && (c[p].last != NULL ==> c[p].last in c && c[p].last != p && c[c[p].last].next == NULL)
  }

  // From c0 to c1, the bare node p has got new children.
  ghost predicate Appended(c0: Cells, c1: Cells, p: Ptr, kids: seq<Shape>) {
    Bare(c0, p) && Grown(c0, c1, p, Shape(p, c0[p].name, None, kids))
  }

  // ----- steps of the loops

  lemma AppendNone(c: Cells, p: Ptr)
    requires Bare(c, p)
    ensures Appended(c, c, p, []) && Ended(c, p)
  {
    assert PtrsAll([]) == {};
  }

  lemma AppendedEnds(c0: Cells, c1: Cells, p: Ptr, kids: seq<Shape>)
    requires Appended(c0, c1, p, kids)
    ensures Ended(c1, p)
  {
    if kids != [] {
      var s := Shape(p, c0[p].name, None, kids);
      NextTo(c1, s, |kids| - 1);
      KidsApart(s, |kids| - 1);
      assert kids[|kids| - 1].ptr in Ptrs(kids[|kids| - 1]);
    }
  }

  lemma AppendedGrown(c0: Cells, c1: Cells, p: Ptr, kids: seq<Shape>)
    requires Appended(c0, c1, p, kids)
    ensures Grown(c0, c1, p, Shape(p, c0[p].name, None, kids))
    ensures ToTree(Shape(p, c0[p].name, None, kids)) == Tree(c0[p].name, None, ToTrees(kids))
  {
  }

  lemma NoTrees()
    ensures ToTrees([]) == []
  {
  }

  lemma ToTreesMore(kids: seq<Shape>, kid: Shape)
    ensures ToTrees(kids + [kid]) == ToTrees(kids) + [ToTree(kid)]
  {
    assert (kids + [kid])[..|kids|] == kids;
  }

  // Taking back a fresh child restores the heap.
  lemma UnlinkLink(c: Cells, p: Ptr, d: Ptr, x: Cell)
    requires Ended(c, p) && d !in c && d != NULL && SameLinks(Link(c, p, d)[d], x)
    ensures Hangs(Link(c, p, d)[d := x], d)
    ensures Unlink(Link(c, p, d)[d := x], d) - {d} == c
  {
  }

  // A new child that has grown is one more child.
  lemma AppendOne(c0: Cells, c1: Cells, c2: Cells, p: Ptr, kids: seq<Shape>, d: Ptr, s: Shape)
    requires Appended(c0, c1, p, kids) && d !in c1 && d != NULL
    requires c1[p].last == NULL || c1[p].last in c1
    requires Grown(Link(c1, p, d), c2, d, s)
    ensures Appended(c0, c2, p, kids + [s])
  {
    hide Fits, Apart, PtrsAll, Link;
    var up := Shape(p, c0[p].name, None, kids);
    FitsLive(c1, up);
    LinkOutside(c1, up, d);
    AppendFits(c1, c2, up, d, s);
    AppendApart(c1, c2, up, d, s);
    PtrsSplit(kids, [s]);
    PtrsOne(s);
  }

  // Linking a new child below `up` changes old nodes only inside `up`, and of `up` itself only the ends.
  lemma LinkOutside(c: Cells, up: Shape, d: Ptr)
    requires Fits(c, up) && Apart(up) && d !in c && d != NULL
    ensures c[up.ptr].last == NULL || c[up.ptr].last in c
    ensures Link(c, up.ptr, d).Keys == c.Keys + {d}
    ensures forall q :: q in c && q !in Ptrs(up) ==> Link(c, up.ptr, d)[q] == c[q]
    ensures Link(c, up.ptr, d)[up.ptr] == c[up.ptr].(first := Link(c, up.ptr, d)[up.ptr].first, last := d)
  {
    FitsLive(c, up);
    LinkEnds(c, up, d);
    LinkParent(c, up, d);
  }

  lemma AppendFits(c1: Cells, c2: Cells, up: Shape, d: Ptr, s: Shape)
    requires Fits(c1, up) && Apart(up) && d !in c1 && d != NULL && d !in Ptrs(up)
    requires c1[up.ptr].last == NULL || c1[up.ptr].last in c1
    requires Grown(Link(c1, up.ptr, d), c2, d, s)
    ensures Fits(c2, up.(kids := up.kids + [s]))
  {
    hide PtrsAll, Apart, Link;
    var kids := up.kids + [s];
    LinkAppends(c1, up, d);
    forall i | 0 <= i < |kids|
      ensures Linked(c2, up.ptr, kids, i) && Fits(c2, kids[i])
    {
      AppendFitsKid(c1, c2, up, d, s, i);
    }
  }

  lemma AppendFitsKid(c1: Cells, c2: Cells, up: Shape, d: Ptr, s: Shape, i: nat)
    requires Fits(c1, up) && Apart(up) && d !in c1 && d != NULL && d !in Ptrs(up) && i < |up.kids + [s]|
    requires c1[up.ptr].last == NULL || c1[up.ptr].last in c1
    requires Grown(Link(c1, up.ptr, d), c2, d, s)
    ensures Linked(c2, up.ptr, up.kids + [s], i) && Fits(c2, (up.kids + [s])[i])
  {
    hide PtrsAll, Apart, Link, Row;
    var c, kids, leafy := Link(c1, up.ptr, d), up.kids + [s], up.(kids := up.kids + [Leaf(d)]);
    LinkAppends(c1, up, d);
    NextTo(c, leafy, i);
    if i < |up.kids| {
      KidsApart(leafy, i);
      assert d == leafy.kids[|up.kids|].ptr && d !in PtrsAll(leafy.kids[i].kids);
      FitsLive(c, kids[i]);
      FitsFrame(c, c2, kids[i]);
    }
  }

  lemma AppendApart(c1: Cells, c2: Cells, up: Shape, d: Ptr, s: Shape)
    requires Fits(c1, up) && Apart(up) && d !in c1 && d != NULL && Ptrs(up) <= c1.Keys
    requires c1[up.ptr].last == NULL || c1[up.ptr].last in c1
    requires Grown(Link(c1, up.ptr, d), c2, d, s)
    ensures Apart(up.(kids := up.kids + [s]))
  {
    hide Fits;
    PtrsSplit(up.kids, [s]);
    PtrsOne(s);
    forall i | 0 <= i < |up.kids|
      ensures Ptrs(up.kids[i]) !! Ptrs(s)
    {
      assert forall q :: q in Ptrs(up.kids[i]) ==> q in PtrsAll(up.kids);
    }
  }

  // ----- giving up

  // Dropping a node with the children it has so far frees exactly those and takes the node away.
  lemma DropGrown(c0: Cells, c1: Cells, d: Ptr, s: Shape)
    requires Hangs(c0, d) && Grown(c0, c1, d, s)
    ensures Hangs(c1, d) && Fits(Unlink(c1, d), s) && Apart(s)
    ensures Unlink(c1, d) - Ptrs(s) == Unlink(c0, d) - {d}
  {
    hide PtrsAll, ApartAll, Row;
    assert SameBelow(c1, Unlink(c1, d), s);
    FitsFrame(c1, Unlink(c1, d), s);
  }

  // ----- the parser

  // What get_value, get_complex and get_matrix promise about node d, parsed as r.
  ghost predicate Built(c0: Cells, c1: Cells, d: Ptr, result: Ptr, r: Parsed, rest: string, s: Shape)
    requires Hangs(c0, d)
  {
    match r
    case Failed => result == NULL && c1 == Unlink(c0, d) - {d}
    case Read(tree, left) => result == d && Grown(c0, c1, d, s) && ToTree(s) == tree && rest == left
  }

  // What get_element promises about the children of p.
  ghost predicate Placed(c0: Cells, c1: Cells, p: Ptr, d: Ptr, r: Parsed, rest: string, s: Shape)
    requires Ended(c0, p)
  {
    match r
    case Failed => d == NULL && c1 == c0
    case Read(tree, left) =>
      d != NULL && d !in c0 && Grown(Link(c0, p, d), c1, d, s) && ToTree(s) == tree && rest == left
  }

  // A bare node, with or without a value.
  lemma GrownBare(c: Cells, d: Ptr, v: Option<string>)
    requires Bare(c, d)
    ensures Grown(c, c[d := c[d].(value := v)], d, Shape(d, c[d].name, v, []))
    ensures ToTree(Shape(d, c[d].name, v, [])) == Tree(c[d].name, v, [])
  {
    var s := Shape(d, c[d].name, v, []);
    assert PtrsAll(s.kids) == {};
    assert c[d := c[d].(value := v)].Keys == c.Keys;
    assert Apart(s) && PtrsAll(s.kids) !! c.Keys;
    assert Fits(c[d := c[d].(value := v)], s);
  }

  // The new child of get_element with its name set.
  lemma NamedChild(c: Cells, p: Ptr, d: Ptr, name: Option<string>)
    requires Ended(c, p) && d !in c && d != NULL
    ensures d in Link(c, p, d)
    ensures var c1 := Link(c, p, d)[d := Link(c, p, d)[d].(name := name)];
            Bare(c1, d) && Hangs(c1, d) && Unlink(c1, d) - {d} == c
    ensures name == None ==> Link(c, p, d)[d := Link(c, p, d)[d].(name := name)] == Link(c, p, d)
  {
    UnlinkLink(c, p, d, Link(c, p, d)[d].(name := name));
  }

  lemma GrownNamed(c0: Cells, c1: Cells, d: Ptr, name: Option<string>, s: Shape)
    requires d in c0 && Grown(c0[d := c0[d].(name := name)], c1, d, s)
    ensures Grown(c0, c1, d, s)
  {
    hide Fits, Apart, PtrsAll;
    assert c0[d := c0[d].(name := name)].Keys == c0.Keys;
  }

  class Parser {
    const reader: Reader
    const heap: Heap

    constructor (r: Reader, h: Heap)
      ensures reader == r && heap == h
    {
      reader, heap := r, h;
    }

    // Drop a bare node.
    method Discard(dptr: Ptr)
      requires Bare(heap.cells, dptr) && Hangs(heap.cells, dptr)
      modifies heap
      ensures heap.cells == Unlink(old(heap.cells), dptr) - {dptr}
    {
      ghost var c := heap.cells;
      ghost var s := Shape(dptr, c[dptr].name, None, []);
      GrownBare(c, dptr, None);
      assert c[dptr := c[dptr].(value := None)] == c;
      DropGrown(c, c, dptr, s);
      heap.Drop(dptr, s);
    }

    // json_get_value
    method Value(dptr: Ptr) returns (result: Ptr, ghost s: Shape)
      requires reader.Valid() && Bare(heap.cells, dptr) && Hangs(heap.cells, dptr)
      modifies reader, heap
      ensures reader.Valid() && reader.file == old(reader.file)
      ensures Built(old(heap.cells), heap.cells, dptr, result,
                    GetValue(old(heap.cells[dptr].name), old(reader.Pending())), reader.Pending(), s)
      decreases |reader.Pending()|, 0
    {
      hide Grown, Unlink, GetValue, GetComplex, GetMatrix, GetToken, GetPunctuation, Fits, Apart;
      ghost var c0, name, start := heap.cells, heap.cells[dptr].name, reader.Pending();
      s := Shape(dptr, name, None, []);
      var c := reader.Punctuation();
      ValueTurn(name, start, c, reader.Pending());
      if c == ']' {
        reader.Ungetch(c);
        GrownBare(c0, dptr, None);
        assert c0[dptr := c0[dptr].(value := None)] == c0;
        return dptr, s;
      } else if c == '[' {
        result, s := Matrix(dptr);
      } else if c == '{' {
        result, s := Complex(dptr);
      } else {
        var token := reader.Token();
        if token == None {
          Discard(dptr);
          return NULL, s;
        }
        heap.cells := heap.cells[dptr := heap.cells[dptr].(value := token)];
        s := Shape(dptr, name, token, []);
        GrownBare(c0, dptr, token);
        return dptr, s;
      }
    }

    // json_get_element
    method Element(parent: Ptr) returns (result: Ptr, ghost s: Shape)
      requires reader.Valid() && Ended(heap.cells, parent)
      modifies reader, heap
      ensures reader.Valid() && reader.file == old(reader.file)
      ensures Placed(old(heap.cells), heap.cells, parent, result,
                     GetElement(old(reader.Pending())), reader.Pending(), s)
      decreases |reader.Pending()|, 1
    {
      hide Grown, Unlink, Link, GetValue, GetToken, GetPunctuation, Fits, Apart;
      ghost var c0 := heap.cells;
      var d := heap.Add(parent);
      s := Leaf(d);
      ghost var c1 := heap.cells;
      NamedChild(c0, parent, d, None);
      var token := reader.Token();
      if token == None {
        Discard(d);
        return NULL, s;
      }
      heap.cells := heap.cells[d := heap.cells[d].(name := token)];
      NamedChild(c0, parent, d, token);
      var c := reader.Punctuation();
      if c == '}' {
        reader.Ungetch(c);
        s := Shape(d, token, None, []);
        GrownBare(heap.cells, d, None);
        assert heap.cells[d := heap.cells[d].(value := None)] == heap.cells;
        GrownNamed(c1, heap.cells, d, token, s);
        return d, s;
      }
      if c != ':' {
        Discard(d);
        return NULL, s;
      }
      result, s := Value(d);
      if result != NULL {
        GrownNamed(c1, heap.cells, d, token, s);
      }
    }

    // json_get_complex
    method Complex(parent: Ptr) returns (result: Ptr, ghost s: Shape)
      requires reader.Valid() && Bare(heap.cells, parent) && Hangs(heap.cells, parent)
      modifies reader, heap
      ensures reader.Valid() && reader.file == old(reader.file)
      ensures Built(old(heap.cells), heap.cells, parent, result,
                    GetComplex(old(heap.cells[parent].name), [], old(reader.Pending())), reader.Pending(), s)
      decreases |reader.Pending()|, 2
    {
      hide Grown, Unlink, Link, GetElement, GetComplex, GetPunctuation, Fits, Apart, Ended, Hangs;
      hide Appended, ToTree, ToTrees;
      ghost var c0, name, start := heap.cells, heap.cells[parent].name, reader.Pending();
      ghost var kids: seq<Shape> := [];
      AppendNone(c0, parent);
      NoTrees();
      s := Shape(parent, name, None, []);
      while true
        invariant reader.Valid() && reader.file == old(reader.file)
        invariant Appended(c0, heap.cells, parent, kids)
        invariant |reader.Pending()| <= |start|
        invariant GetComplex(name, [], start) == GetComplex(name, ToTrees(kids), reader.Pending())
        decreases |reader.Pending()|
      {
        ghost var before, c1 := reader.Pending(), heap.cells;
        AppendedEnds(c0, c1, parent, kids);
        LoopFails(name, ToTrees(kids), before);
        var d, kid := Element(parent);
        if d == NULL {
          GiveUp(parent, c0, kids);
          return NULL, s;
        }
        AppendOne(c0, c1, heap.cells, parent, kids, d, kid);
        ghost var between := reader.Pending();
        var c := reader.Punctuation();
        ComplexTurn(name, ToTrees(kids), before, ToTree(kid), between, c, reader.Pending());
        ToTreesMore(kids, kid);
        kids := kids + [kid];
        if c == NUL {
          GiveUp(parent, c0, kids);
          return NULL, s;
        } else if c == ',' {
          continue;
        } else if c == '}' {
          s := Shape(parent, name, None, kids);
          AppendedGrown(c0, heap.cells, parent, kids);
          return parent, s;
        } else {
          GiveUp(parent, c0, kids);
          return NULL, s;
        }
      }
    }

    // Drop a node together with the children it has so far.
    method GiveUp(parent: Ptr, ghost c0: Cells, ghost kids: seq<Shape>)
      requires Hangs(c0, parent) && Appended(c0, heap.cells, parent, kids)
      modifies heap
      ensures heap.cells == Unlink(c0, parent) - {parent}
    {
      ghost var s := Shape(parent, c0[parent].name, None, kids);
      DropGrown(c0, heap.cells, parent, s);
      heap.Drop(parent, s);
    }

    // json_get_matrix
    method Matrix(parent: Ptr) returns (result: Ptr, ghost s: Shape)
      requires reader.Valid() && Bare(heap.cells, parent) && Hangs(heap.cells, parent)
      modifies reader, heap
      ensures reader.Valid() && reader.file == old(reader.file)
      ensures Built(old(heap.cells), heap.cells, parent, result,
                    GetMatrix(old(heap.cells[parent].name), [], old(reader.Pending())), reader.Pending(), s)
      decreases |reader.Pending()|, 2
    {
      hide Grown, Unlink, Link, GetValue, GetMatrix, GetPunctuation, Fits, Apart, Ended, Hangs;
      hide Appended, ToTree, ToTrees;
      ghost var c0, name, start := heap.cells, heap.cells[parent].name, reader.Pending();
      ghost var kids: seq<Shape> := [];
      AppendNone(c0, parent);
      NoTrees();
      s := Shape(parent, name, None, []);
      while true
        invariant reader.Valid() && reader.file == old(reader.file)
        invariant Appended(c0, heap.cells, parent, kids)
        invariant |reader.Pending()| <= |start|
        invariant GetMatrix(name, [], start) == GetMatrix(name, ToTrees(kids), reader.Pending())
        decreases |reader.Pending()|
      {
        ghost var before, c1 := reader.Pending(), heap.cells;
        AppendedEnds(c0, c1, parent, kids);
        LoopFails(name, ToTrees(kids), before);
        var d := heap.Add(parent);
        NamedChild(c1, parent, d, None);
        var d2, kid := Value(d);
        if d2 == NULL {
          GiveUp(parent, c0, kids);
          return NULL, s;
        }
        AppendOne(c0, c1, heap.cells, parent, kids, d, kid);
        ghost var between := reader.Pending();
        var c := reader.Punctuation();
        MatrixTurn(name, ToTrees(kids), before, ToTree(kid), between, c, reader.Pending());
        ToTreesMore(kids, kid);
        kids := kids + [kid];
        if c == NUL {
          GiveUp(parent, c0, kids);
          return NULL, s;
        } else if c == ',' {
          continue;
        } else if c != ']' {
          GiveUp(parent, c0, kids);
          return NULL, s;
        } else {
          s := Shape(parent, name, None, kids);
          AppendedGrown(c0, heap.cells, parent, kids);
          return parent, s;
        }
      }
    }
  }

  // ----- a whole file

  // The heap c1 is c0 plus exactly the nodes of one free-standing tree.
  ghost predicate Holds(c0: Cells, c1: Cells, s: Shape) {
    && Fits(c1, s) && Apart(s) && Ptrs(s) !! c0.Keys && c1.Keys == c0.Keys + Ptrs(s)
    && (forall p :: p in c0 ==> c1[p] == c0[p])
    && SameLinks(c1[s.ptr], RESET)
  }

  /** json_parse_file: a file that parses leaves exactly its tree in the heap; one that does not, or
      cannot be opened, leaves the heap as it was. */
  method ParseFile(heap: Heap, filename: string, text: Option<string>) returns (root: Ptr, ghost s: Shape)
    requires NULL !in heap.cells
    modifies heap
    ensures text == None ==> root == NULL
    ensures text.Some? ==>
      match JsonText.ParseFile(filename, text.value)
      case Failed => root == NULL
      case Read(tree, _) => root == s.ptr != NULL && ToTree(s) == tree && Holds(old(heap.cells), heap.cells, s)
    ensures root == NULL ==> heap.cells == old(heap.cells)
  {
    hide Grown, GetComplex, GetMatrix, GetPunctuation, Fits, Apart;
    ghost var c0 := heap.cells;
    root := heap.Allocate();
    s := Leaf(root);
    if text == None {
      assert heap.cells == c0[root := RESET.(name := None)];
      Fresh(c0, root, None);
      heap.Liberate(root, s);
      return NULL, s;
    }
    var reader := new Reader(text.value);
    var parser := new Parser(reader, heap);
    heap.cells := heap.cells[root := heap.cells[root].(name := Some(filename))];
    ghost var c1 := heap.cells;
    assert c1 == c0[root := RESET.(name := Some(filename))];
    Fresh(c0, root, Some(filename));
    var c := reader.Punctuation();
    var d;
    if c == '[' {
      d, s := parser.Matrix(root);
    } else if c == '{' {
      d, s := parser.Complex(root);
    } else {
      heap.Liberate(root, Shape(root, Some(filename), None, []));
      return NULL, s;
    }
    if d != NULL {
      GrownHolds(c0, c1, heap.cells, root, s);
    }
    root := d;
  }

  // A fresh node that stands alone.
  lemma Fresh(c: Cells, p: Ptr, name: Option<string>)
    requires p != NULL && p !in c
    ensures var c1 := c[p := RESET.(name := name)];
            Bare(c1, p) && Hangs(c1, p) && Unlink(c1, p) - {p} == c
    ensures var s := Shape(p, name, None, []);
            Fits(c[p := RESET.(name := name)], s) && Apart(s) && c[p := RESET.(name := name)] - Ptrs(s) == c
  {
    var s := Shape(p, name, None, []);
    assert PtrsAll(s.kids) == {};
    assert Ptrs(s) == {p};
  }

  lemma GrownHolds(c0: Cells, c1: Cells, c2: Cells, p: Ptr, s: Shape)
    requires p !in c0 && p != NULL && (exists name :: c1 == c0[p := RESET.(name := name)]) && Grown(c1, c2, p, s)
    ensures Holds(c0, c2, s) && s.ptr == p
  {
    assert c1.Keys == c0.Keys + {p};
  }
}
