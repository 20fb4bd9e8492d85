/** The functions of cocarrier/json.c that only walk a tree in the heap: the printer and the search
    for a name. */
module JsonWalk {
  import opened Basics
  import opened JsonText
  import opened JsonPrint
  import opened DataElement

  // ----- printing

  // The children from e on, as the loop of json_serialise_complex prints them.
  lemma TreesTail(kids: seq<Shape>, k: nat)
    requires k < |kids|
    ensures ToTrees(kids[k..])[0] == ToTree(kids[k]) && ToTrees(kids[k..])[1..] == ToTrees(kids[k + 1..])
  {
    TreesAt(kids[k..], 0);
    assert ToTrees(kids[k..])[1..] == ToTrees(kids[k + 1..]) by {
      forall i | 0 <= i < |kids| - k - 1
        ensures ToTrees(kids[k..])[1..][i] == ToTrees(kids[k + 1..])[i]
      {
        TreesAt(kids[k..], i + 1);
        TreesAt(kids[k + 1..], i);
      }
    }
  }

  lemma {:induction false} TreesAt(kids: seq<Shape>, i: nat)
    requires i < |kids|
    ensures ToTrees(kids)[i] == ToTree(kids[i])
  {
    if i < |kids| - 1 {
      TreesAt(kids[..|kids| - 1], i);
    }
  }

  lemma PrintAllStep(kids: seq<Shape>, k: nat)
    requires k < |kids|
    ensures PrintAll(ToTrees(kids[k..])) ==
            if k + 1 < |kids| then Print(ToTree(kids[k])) + ("," + PrintAll(ToTrees(kids[k + 1..])))
            else Print(ToTree(kids[k]))
  {
    TreesTail(kids, k);
    hide Print, ToTree;
    if k + 1 == |kids| {
      assert kids[k + 1..] == [];
    }
  }

  // What the heap shows of the tree at its root.
  lemma TreeOf(c: Cells, s: Shape)
    requires Fits(c, s)
    ensures s.ptr in c && c[s.ptr].first == First(s.kids) && (c[s.ptr].first == NULL <==> s.kids == [])
    ensures ToTree(s) == Tree(c[s.ptr].name, c[s.ptr].value, ToTrees(s.kids))
    ensures s.kids != [] ==> First(s.kids) in c && c[First(s.kids)].name == ToTrees(s.kids)[0].name
  {
    if s.kids != [] {
      NextTo(c, s, 0);
      TreesAt(s.kids, 0);
    }
  }

  /** json_serialise_complex prints the tree that the heap holds. */
  method SerialiseComplex(heap: Heap, d: Ptr, ghost s: Shape) returns (out: string)
    requires d == s.ptr && Fits(heap.cells, s)
    ensures out == Print(ToTree(s))
    decreases s, 1
  {
    hide Fits, PrintAll, ToTree, ToTrees;
    ghost var t := ToTree(s);
    TreeOf(heap.cells, s);
    var x := heap.cells[d];
    out := if x.name.Some? then " " + Quoted(x.name.value) + ":" else "";
    if x.value.Some? {
      out := out + Quoted(x.value.value);
      return;
    }
    if x.first == NULL {
      return;
    }
    var named := heap.cells[x.first].name.Some?;
    out := out + if named then "\n{" else "\n[";
    var body := SerialiseKids(heap, x.first, s);
    out := out + body + if named then "}" else "]";
  }

  lemma AtEnd(c: Cells, s: Shape, k: nat)
    requires Fits(c, s) && k <= |s.kids|
    ensures First(s.kids[k..]) == NULL <==> k == |s.kids|
    ensures k == |s.kids| ==> PrintAll(ToTrees(s.kids[k..])) == ""
  {
    if k < |s.kids| {
      NextTo(c, s, k);
    }
  }

  method SerialiseKids(heap: Heap, first: Ptr, ghost s: Shape) returns (body: string)
    requires Fits(heap.cells, s) && first == First(s.kids)
    ensures body == PrintAll(ToTrees(s.kids))
    decreases s, 0
  {
    hide Fits, PrintAll, ToTree, ToTrees, Print;
    body := "";
    var e := first;
    ghost var k := 0;
    assert s.kids[0..] == s.kids;
    while e != NULL
      invariant 0 <= k <= |s.kids| && e == First(s.kids[k..])
      invariant body + PrintAll(ToTrees(s.kids[k..])) == PrintAll(ToTrees(s.kids))
      decreases |s.kids| - k
    {
      NextTo(heap.cells, s, k);
      NextIsRest(heap.cells, s, k);
      PrintAllStep(s.kids, k);
      ghost var before, rest := body, PrintAll(ToTrees(s.kids[k + 1..]));
      var one := SerialiseComplex(heap, e, s.kids[k]);
      body := body + one;
      AtEnd(heap.cells, s, k + 1);
      if heap.cells[e].next != NULL {
        body := body + ",";
        assert body + rest == before + (one + ("," + rest));
      } else {
        assert body + rest == before + one;
      }
      e := heap.cells[e].next;
      k := k + 1;
    }
    AtEnd(heap.cells, s, k);
  }

  /** json_serialise: the first child of the root and a line break; the tree is freed when the file
      cannot be opened. */
  method Serialise(heap: Heap, d: Ptr, opens: bool, ghost s: Shape) returns (status: int, file: string)
    requires d == s.ptr && Fits(heap.cells, s) && Apart(s) && s.kids != []
    modifies heap
    ensures status == if opens then 0 else -1
    ensures opens ==> file == PrintFile(ToTree(s)) && heap.cells == old(heap.cells)
    ensures !opens ==> heap.cells == old(heap.cells) - Ptrs(s)
  {
    hide Fits, Apart, Print;
    NextTo(heap.cells, s, 0);
    if !opens {
      heap.Liberate(d, s);
      return -1, "";
    }
    TreeOf(heap.cells, s);
    TreesAt(s.kids, 0);
    file := SerialiseComplex(heap, heap.cells[d].first, s.kids[0]);
    return 0, file + "\n";
  }

  // ----- searching

  // json_element on the first of a list of siblings.
  function Find(kids: seq<Shape>, n: string): Ptr
    decreases kids, 1
  {
    if kids == [] then NULL
    else
      var d := kids[0];
      if d.name == None then
        var e := Find(d.kids, n);
        if e == NULL then Find(kids[1..], n) else e
      else if d.name == Some(n) then d.ptr
      else
        var e := Shallow(kids[1..], n);
        if e == NULL then Deep(d.kids, n) else e
  }

  // The scan of the following siblings.
  function Shallow(kids: seq<Shape>, n: string): Ptr {
    if kids == [] then NULL
    else if kids[0].name == Some(n) then kids[0].ptr
    else Shallow(kids[1..], n)
  }

  // The loop over the children.
  function Deep(kids: seq<Shape>, n: string): Ptr
    decreases kids, 2
  {
    if kids == [] then NULL
    else
      var e := Find(kids, n);
      if e == NULL then Deep(kids[1..], n) else e
  }

  /** json_element refines the search, whatever the shape of the tree. */
  method Element(heap: Heap, d: Ptr, n: string, ghost up: Shape, ghost k: nat) returns (found: Ptr)
    requires Fits(heap.cells, up) && k <= |up.kids| && d == First(up.kids[k..])
    ensures found == Find(up.kids[k..], n)
    decreases up, |up.kids| - k, 1
  {
    hide Fits, Shallow, Deep;
    AtEnd(heap.cells, up, k);
    if d == NULL {
      return NULL;
    }
    Here(heap.cells, up, k);
    var x := heap.cells[d];
    if x.name == None {
      found := Element(heap, x.first, n, up.kids[k], 0);
      if found == NULL {
        found := Element(heap, x.next, n, up, k + 1);
      }
    } else if x.name == Some(n) {
      found := d;
    } else {
      found := Scan(heap, x.next, n, up, k + 1);
      if found == NULL {
        found := Children(heap, x.first, n, up.kids[k]);
      }
    }
  }

  // Child k of up, as the heap shows it.
  lemma Here(c: Cells, up: Shape, k: nat)
    requires Fits(c, up) && k < |up.kids|
    ensures up.kids[k..] != [] && up.kids[k..][0] == up.kids[k] && up.kids[k..][1..] == up.kids[k + 1..]
    ensures up.kids[k].ptr in c && c[up.kids[k].ptr].name == up.kids[k].name && Fits(c, up.kids[k])
    ensures c[up.kids[k].ptr].first == First(up.kids[k].kids[0..]) && up.kids[k].kids[0..] == up.kids[k].kids
    ensures c[up.kids[k].ptr].next == First(up.kids[k + 1..])
  {
    NextTo(c, up, k);
    NextIsRest(c, up, k);
  }

  method Scan(heap: Heap, d: Ptr, n: string, ghost up: Shape, ghost k: nat) returns (found: Ptr)
    requires Fits(heap.cells, up) && k <= |up.kids| && d == First(up.kids[k..])
    ensures found == Shallow(up.kids[k..], n)
  {
    hide Fits;
    var e := d;
    ghost var i := k;
    AtEnd(heap.cells, up, i);
    while e != NULL
      invariant k <= i <= |up.kids| && e == First(up.kids[i..]) && (e == NULL <==> i == |up.kids|)
      invariant Shallow(up.kids[k..], n) == Shallow(up.kids[i..], n)
      decreases |up.kids| - i
    {
      Here(heap.cells, up, i);
      if heap.cells[e].name == Some(n) {
        return e;
      }
      e := heap.cells[e].next;
      i := i + 1;
      AtEnd(heap.cells, up, i);
    }
    return NULL;
  }

  method Children(heap: Heap, first: Ptr, n: string, ghost up: Shape) returns (found: Ptr)
    requires Fits(heap.cells, up) && first == First(up.kids[0..])
    ensures found == Deep(up.kids[0..], n)
    decreases up, |up.kids| + 1, 0
  {
    hide Fits, Find;
    var e := first;
    ghost var i := 0;
    AtEnd(heap.cells, up, i);
    while e != NULL
      invariant 0 <= i <= |up.kids| && e == First(up.kids[i..]) && (e == NULL <==> i == |up.kids|)
      invariant Deep(up.kids[0..], n) == Deep(up.kids[i..], n)
      decreases |up.kids| - i
    {
      Here(heap.cells, up, i);
      found := Element(heap, e, n, up, i);
      if found != NULL {
        return found;
      }
      e := heap.cells[e].next;
      i := i + 1;
      AtEnd(heap.cells, up, i);
    }
    return NULL;
  }
}
