/** What the canonical resource says about a query of name=value items: one line for each parameter
    name, with all its values in order, however the items were arranged. */
module AzureGroups {
  import opened Basics
  import opened Selecting
  import opened Sorting
  import opened AzureCanonical
  import opened AzureResource

  // name=value with one '=' and neither side empty.
  predicate IsItem(t: string) {
    var i := IndexOf(t, '=');
    0 < i < |t| - 1 && '=' !in t[i + 1..]
  }

  function NameOf(t: string): string
    requires IsItem(t)
  {
    t[..IndexOf(t, '=')]
  }

  function ValueOf(t: string): string
    requires IsItem(t)
  {
    t[IndexOf(t, '=') + 1..]
  }

  ghost predicate Items(tokens: seq<string>) {
    forall i :: 0 <= i < |tokens| ==> IsItem(tokens[i])
  }

  function Names(tokens: seq<string>): (r: seq<string>)
    requires Items(tokens)
    ensures |r| == |tokens|
  {
    seq(|tokens|, i requires 0 <= i < |tokens| => NameOf(tokens[i]))
  }

  function AllValues(tokens: seq<string>): (r: seq<string>)
    requires Items(tokens)
    ensures |r| == |tokens|
  {
    seq(|tokens|, i requires 0 <= i < |tokens| => ValueOf(tokens[i]))
  }

  lemma ItemExact(n: string, v: string)
    requires '=' !in n
    ensures IsItem(n + "=" + v) <==> n != "" && v != "" && '=' !in v
    ensures IsItem(n + "=" + v) ==> NameOf(n + "=" + v) == n && ValueOf(n + "=" + v) == v
  {
    var t := n + "=" + v;
    assert t[|n|] == '=';
    var i := IndexOf(t, '=');
    assert i == |n|;
    assert t[..i] == n && t[i + 1..] == v;
  }

  // The values given for name n, in the order of the tokens.
  function ValueFor(n: string): string -> Option<string> {
    (t: string) => if IsItem(t) && NameOf(t) == n then Some(ValueOf(t)) else None
  }

  function ValuesFor(tokens: seq<string>, n: string): seq<string> {
    Select(tokens, ValueFor(n))
  }

  // ----- the fields of items

  lemma PiecesOfItem(t: string)
    requires IsItem(t)
    ensures Pieces(t, '=') == [NameOf(t), ValueOf(t)]
  {
    var i := IndexOf(t, '=');
    var n := PieceLength(t, '=');
    assert n == i;
    assert t[i..][0] == '=' && t[i..][1..] == t[i + 1..];
    OnePiece(t[i + 1..]);
  }

  lemma OnePiece(s: string)
    requires s != "" && '=' !in s
    ensures Pieces(s, '=') == [s]
  {
    var n := PieceLength(s, '=');
    assert n == |s|;
    assert s[..n] == s && s[n..] == "";
  }

  lemma {:induction false} FieldsOfItems(tokens: seq<string>)
    requires Items(tokens)
    ensures |Fields(tokens)| == 2 * |tokens|
    ensures forall i :: 0 <= i < |tokens| ==>
      Fields(tokens)[2 * i] == NameOf(tokens[i]) && Fields(tokens)[2 * i + 1] == ValueOf(tokens[i])
  {
    if tokens != [] {
      var n := |tokens| - 1;
      FieldsOfItems(tokens[..n]);
      PiecesOfItem(tokens[n]);
    }
  }

  lemma ParamsOfItems(tokens: seq<string>)
    requires Items(tokens)
    ensures Params(Fields(tokens)) == Names(tokens) && Values(Fields(tokens)) == AllValues(tokens)
  {
    FieldsOfItems(tokens);
  }

  // ----- equal names stand together

  // Everything between two strings that start with p starts with p.
  lemma {:induction false} PrefixBetween(p: string, x: string, y: string, z: string)
    requires p <= x && p <= z && Leq(x, y) && Leq(y, z)
    ensures p <= y
  {
    if p != "" {
      PrefixBetween(p[1..], x[1..], y[1..], z[1..]);
      assert p == [p[0]] + p[1..] && y == [y[0]] + y[1..];
    }
  }

  // Strings with a common front compare like what follows it.
  lemma {:induction false} PrefixCancel(p: string, x: string, y: string)
    ensures Leq(p + x, p + y) <==> Leq(x, y)
  {
    if p == "" {
      assert p + x == x && p + y == y;
    } else {
      assert (p + x)[1..] == p[1..] + x && (p + y)[1..] == p[1..] + y;
      PrefixCancel(p[1..], x, y);
    }
  }

  lemma ItemParts(t: string)
    requires IsItem(t)
    ensures t == NameOf(t) + "=" + ValueOf(t) && '=' !in NameOf(t)
  {
  }

  // An item starts with n= exactly when its name is n.
  lemma ItemPrefix(t: string, n: string)
    requires IsItem(t) && '=' !in n
    ensures n + "=" <= t <==> NameOf(t) == n
  {
    ItemParts(t);
    if n + "=" <= t {
      assert t[|n|] == '=' && t[..|n|] == n;
      assert IndexOf(t, '=') == |n|;
    }
  }

  // After sorting, the items of one name are neighbours.
  lemma Contiguous(tokens: seq<string>, i: nat, j: nat, k: nat)
    requires Items(tokens) && Sorted(tokens) && i <= j <= k < |tokens|
    requires NameOf(tokens[i]) == NameOf(tokens[k])
    ensures NameOf(tokens[j]) == NameOf(tokens[i])
  {
    var n := NameOf(tokens[i]);
    ItemParts(tokens[i]);
    ItemPrefix(tokens[i], n);
    ItemPrefix(tokens[k], n);
    ItemPrefix(tokens[j], n);
    if i < j < k {
      PrefixBetween(n + "=", tokens[i], tokens[j], tokens[k]);
    }
  }

  // ----- the lines

  function Join(s: seq<string>): string {
    if s == [] then ""
    else if |s| == 1 then s[0]
    else Join(s[..|s| - 1]) + "," + s[|s| - 1]
  }

  // One line for each of the names, with its values separated by commas.
  function Lines(names: seq<string>, tokens: seq<string>): string {
    if names == [] then ""
    else
      var n := names[|names| - 1];
      var line := n + ":" + Join(ValuesFor(tokens, n));
      if |names| == 1 then line else Lines(names[..|names| - 1], tokens) + "\n" + line
  }

  // The names of the tokens without repetitions of the name just before.
  function Distinct(tokens: seq<string>): seq<string>
    requires Items(tokens)
  {
    if tokens == [] then []
    else
      var k := |tokens| - 1;
      var rest := Distinct(tokens[..k]);
      if k > 0 && NameOf(tokens[k]) == NameOf(tokens[k - 1]) then rest else rest + [NameOf(tokens[k])]
  }

  lemma {:induction false} DistinctNames(tokens: seq<string>)
    requires Items(tokens) && Sorted(tokens)
    ensures forall i, j :: 0 <= i < j < |Distinct(tokens)| ==> Distinct(tokens)[i] != Distinct(tokens)[j]
    ensures forall n :: n in Distinct(tokens) <==> n in Names(tokens)
    ensures tokens != [] ==> Distinct(tokens) != [] &&
                             Distinct(tokens)[|Distinct(tokens)| - 1] == NameOf(tokens[|tokens| - 1])
  {
    hide IsItem, NameOf, Sorted;
    if tokens != [] {
      var k := |tokens| - 1;
      var rest, n := Distinct(tokens[..k]), NameOf(tokens[k]);
      SortedFront(tokens);
      DistinctNames(tokens[..k]);
      assert Names(tokens) == Names(tokens[..k]) + [n];
      if !(k > 0 && n == NameOf(tokens[k - 1])) && n in rest {
        var i :| 0 <= i < k && Names(tokens[..k])[i] == n;
        Contiguous(tokens, i, k - 1, k);
        assert false;
      }
    }
  }

  lemma SortedFront(tokens: seq<string>)
    requires Sorted(tokens) && tokens != []
    ensures Sorted(tokens[..|tokens| - 1])
  {
    hide Leq;
  }

  lemma ValuesStep(tokens: seq<string>, n: string)
    requires Items(tokens) && tokens != []
    ensures NameOf(tokens[|tokens| - 1]) == n ==>
      ValuesFor(tokens, n) == ValuesFor(tokens[..|tokens| - 1], n) + [ValueOf(tokens[|tokens| - 1])]
    ensures NameOf(tokens[|tokens| - 1]) != n ==> ValuesFor(tokens, n) == ValuesFor(tokens[..|tokens| - 1], n)
  {
    var rest := ValuesFor(tokens[..|tokens| - 1], n);
    assert rest + [] == rest;
  }

  lemma {:induction false} NoValues(tokens: seq<string>, n: string)
    requires Items(tokens)
    ensures n !in Names(tokens) <==> ValuesFor(tokens, n) == []
  {
    if tokens != [] {
      var k := |tokens| - 1;
      NoValues(tokens[..k], n);
      assert Names(tokens) == Names(tokens[..k]) + [NameOf(tokens[k])];
      ValuesStep(tokens, n);
    }
  }

  // An item of another name changes none of the lines.
  lemma {:induction false} LinesFrame(names: seq<string>, tokens: seq<string>)
    requires Items(tokens) && tokens != [] && NameOf(tokens[|tokens| - 1]) !in names
    ensures Lines(names, tokens) == Lines(names, tokens[..|tokens| - 1])
  {
    hide IsItem, NameOf, ValueOf, ValueFor, Select, Join;
    if names != [] {
      LinesFrame(names[..|names| - 1], tokens);
      ValuesStep(tokens, names[|names| - 1]);
    }
  }

  // A further value of the last name extends the last line.
  lemma LinesExtend(names: seq<string>, tokens: seq<string>)
    requires Items(tokens) && tokens != [] && names != [] && NameOf(tokens[|tokens| - 1]) == names[|names| - 1]
    requires names[|names| - 1] !in names[..|names| - 1]
    requires names[|names| - 1] in Names(tokens[..|tokens| - 1])
    ensures Lines(names, tokens) == Lines(names, tokens[..|tokens| - 1]) + "," + ValueOf(tokens[|tokens| - 1])
  {
    hide IsItem, NameOf, ValueOf, ValueFor, Select, Lines, Join;
    var k, m := |tokens| - 1, |names| - 1;
    var n, v := names[m], ValueOf(tokens[k]);
    LinesFrame(names[..m], tokens);
    ValuesStep(tokens, n);
    NoValues(tokens[..k], n);
    JoinMore(ValuesFor(tokens[..k], n), v);
    LinesStep(names, tokens);
    LinesStep(names, tokens[..k]);
    var front := (if m == 0 then "" else Lines(names[..m], tokens) + "\n") + (n + ":");
    Behind(front, Join(ValuesFor(tokens[..k], n)), v);
  }

  lemma Behind(front: string, text: string, v: string)
    ensures front + (text + "," + v) == front + text + "," + v
  {
  }

  lemma JoinMore(s: seq<string>, v: string)
    requires s != []
    ensures Join(s + [v]) == Join(s) + "," + v
  {
    assert (s + [v])[..|s|] == s;
  }

  lemma LinesStep(names: seq<string>, tokens: seq<string>)
    requires names != []
    ensures var m := |names| - 1;
            Lines(names, tokens) == (if m == 0 then "" else Lines(names[..m], tokens) + "\n")
                                    + (names[m] + ":") + Join(ValuesFor(tokens, names[m]))
  {
    hide Join, ValuesFor;
    var m := |names| - 1;
    var line, values := names[m] + ":", Join(ValuesFor(tokens, names[m]));
    if m > 0 {
      var before := Lines(names[..m], tokens) + "\n";
      assert before + line + values == before + (line + values);
    }
  }

  lemma {:induction false} RenderPrefix(ps: seq<string>, vs: seq<string>, ps': seq<string>, vs': seq<string>, k: nat)
    requires k <= |ps| == |vs| && k <= |ps'| == |vs'| && ps[..k] == ps'[..k] && vs[..k] == vs'[..k]
    ensures Render(ps, vs, k) == Render(ps', vs', k)
  {
    if k > 0 {
      assert forall i :: 0 <= i < k ==> ps[i] == ps[..k][i] == ps'[..k][i] == ps'[i];
      assert forall i :: 0 <= i < k ==> vs[i] == vs[..k][i] == vs'[..k][i] == vs'[i];
      assert ps[..k - 1] == ps'[..k - 1] && vs[..k - 1] == vs'[..k - 1];
      if k > 1 {
        RenderPrefix(ps, vs, ps', vs', k - 1);
      }
    }
  }

  // The last turn of the rendering loop.
  lemma RenderLast(tokens: seq<string>)
    requires Items(tokens) && tokens != []
    ensures var k := |tokens| - 1;
            var rest := tokens[..k];
            var line := NameOf(tokens[k]) + ":" + ValueOf(tokens[k]);
            Render(Names(tokens), AllValues(tokens), |tokens|) ==
            if k == 0 then line
            else
              var before := Render(Names(rest), AllValues(rest), k);
              if NameOf(tokens[k]) == NameOf(tokens[k - 1]) then before + "," + ValueOf(tokens[k])
              else before + "\n" + line
  {
    hide IsItem, NameOf, ValueOf;
    var k := |tokens| - 1;
    var rest, n, v := tokens[..k], NameOf(tokens[k]), ValueOf(tokens[k]);
    var ps, vs := Names(tokens), AllValues(tokens);
    assert ps[..k] == Names(rest)[..k] && vs[..k] == AllValues(rest)[..k];
    RenderPrefix(ps, vs, Names(rest), AllValues(rest), k);
    if k > 0 {
      assert ps[k] == n && vs[k] == v && ps[k - 1] == NameOf(tokens[k - 1]);
      var before := Render(ps, vs, k);
      assert before + "\n" + n + ":" + v == before + "\n" + (n + ":" + v);
    }
  }

  /** The rendering loop, which only looks at the name just before, writes one line for each name. */
  lemma {:induction false} RenderIsLines(tokens: seq<string>)
    requires Items(tokens) && Sorted(tokens)
    ensures Render(Names(tokens), AllValues(tokens), |tokens|) == Lines(Distinct(tokens), tokens)
  {
    if tokens != [] {
      hide IsItem, NameOf, ValueOf, Lines, Distinct, Render;
      var k := |tokens| - 1;
      RenderIsLines(tokens[..k]);
      RenderLast(tokens);
      if k > 0 && NameOf(tokens[k]) == NameOf(tokens[k - 1]) {
        RepeatedName(tokens);
      } else {
        NewName(tokens);
      }
    }
  }

  lemma RepeatedName(tokens: seq<string>)
    requires Items(tokens) && Sorted(tokens) && |tokens| > 1
    requires NameOf(tokens[|tokens| - 1]) == NameOf(tokens[|tokens| - 2])
    ensures Lines(Distinct(tokens), tokens) ==
            Lines(Distinct(tokens[..|tokens| - 1]), tokens[..|tokens| - 1]) + "," + ValueOf(tokens[|tokens| - 1])
  {
    hide IsItem, NameOf, ValueOf, Lines;
    var k := |tokens| - 1;
    var rest := tokens[..k];
    var names := Distinct(rest);
    DistinctNames(rest);
    assert Names(rest)[k - 1] == NameOf(tokens[k]);
    assert Distinct(tokens) == names;
    hide Distinct;
    LinesExtend(names, tokens);
  }

  lemma NewName(tokens: seq<string>)
    requires Items(tokens) && Sorted(tokens) && tokens != []
    requires |tokens| > 1 ==> NameOf(tokens[|tokens| - 1]) != NameOf(tokens[|tokens| - 2])
    ensures var k := |tokens| - 1;
            var line := NameOf(tokens[k]) + ":" + ValueOf(tokens[k]);
            Lines(Distinct(tokens), tokens) ==
            if k == 0 then line else Lines(Distinct(tokens[..k]), tokens[..k]) + "\n" + line
  {
    hide IsItem, NameOf, ValueOf, ValuesFor, Lines, Join, Distinct, Names, Sorted;
    var k := |tokens| - 1;
    var rest, n, v := tokens[..k], NameOf(tokens[k]), ValueOf(tokens[k]);
    NewDistinct(tokens);
    var names := Distinct(rest);
    assert (names + [n])[..|names|] == names;
    OnlyValue(tokens, n);
    LinesFrame(names, tokens);
    LinesStep(names + [n], tokens);
    Glued(if k == 0 then "" else Lines(names, rest) + "\n", n, v);
  }

  lemma Glued(before: string, n: string, v: string)
    ensures before + (n + ":") + v == before + (n + ":" + v)
    ensures before == "" ==> before + (n + ":" + v) == n + ":" + v
  {
  }

  lemma NewDistinct(tokens: seq<string>)
    requires Items(tokens) && Sorted(tokens) && tokens != []
    requires |tokens| > 1 ==> NameOf(tokens[|tokens| - 1]) != NameOf(tokens[|tokens| - 2])
    ensures var rest, n := tokens[..|tokens| - 1], NameOf(tokens[|tokens| - 1]);
            Distinct(tokens) == Distinct(rest) + [n] && n !in Distinct(rest) && n !in Names(rest)
            && (rest == [] <==> Distinct(rest) == [])
  {
    hide IsItem, NameOf, Sorted;
    var rest, n := tokens[..|tokens| - 1], NameOf(tokens[|tokens| - 1]);
    SortedFront(tokens);
    DistinctNames(rest);
    DistinctNames(tokens);
    var names := Distinct(tokens);
    assert names == Distinct(rest) + [n];
    forall i | 0 <= i < |Distinct(rest)|
      ensures Distinct(rest)[i] != n
    {
      assert names[i] != names[|names| - 1];
    }
  }

  // A name that was not seen before has one value.
  lemma OnlyValue(tokens: seq<string>, n: string)
    requires Items(tokens) && tokens != [] && NameOf(tokens[|tokens| - 1]) == n && n !in Names(tokens[..|tokens| - 1])
    ensures Join(ValuesFor(tokens, n)) == ValueOf(tokens[|tokens| - 1])
  {
    hide IsItem, NameOf, ValueOf, ValuesFor;
    NoValues(tokens[..|tokens| - 1], n);
    ValuesStep(tokens, n);
    assert ValuesFor(tokens, n) == [ValueOf(tokens[|tokens| - 1])];
  }

  // ----- the values of one name

  // Sorting the tokens sorts the values of each name.
  lemma ValuesSorted(tokens: seq<string>, n: string)
    requires Items(tokens)
    ensures ValuesFor(Sort(tokens), n) == Sort(ValuesFor(tokens, n))
  {
    hide Sort, Select;
    SortSorts(tokens);
    ItemsSorted(tokens);
    SelectOrderFree(Sort(tokens), tokens, ValueFor(n));
    ValuesInOrder(Sort(tokens), n);
    SortedIsSort(ValuesFor(tokens, n), ValuesFor(Sort(tokens), n));
  }

  lemma ItemsSorted(tokens: seq<string>)
    requires Items(tokens)
    ensures Items(Sort(tokens))
  {
    hide Sort;
    SortSorts(tokens);
    forall i | 0 <= i < |Sort(tokens)|
      ensures IsItem(Sort(tokens)[i])
    {
      assert Sort(tokens)[i] in multiset(Sort(tokens));
      assert Sort(tokens)[i] in tokens;
    }
  }

  lemma {:induction false} ValuesInOrder(tokens: seq<string>, n: string)
    requires Items(tokens) && Sorted(tokens)
    ensures Sorted(ValuesFor(tokens, n))
    ensures forall v :: v in ValuesFor(tokens, n) ==> tokens != [] && IsValue(tokens, n, v)
  {
    if tokens != [] {
      var k := |tokens| - 1;
      var rest := tokens[..k];
      ValuesInOrder(rest, n);
      ValuesStep(tokens, n);
      forall v | v in ValuesFor(rest, n)
        ensures IsValue(tokens, n, v)
        ensures NameOf(tokens[k]) == n ==> Leq(v, ValueOf(tokens[k]))
      {
        var i :| 0 <= i < |rest| && NameOf(rest[i]) == n && ValueOf(rest[i]) == v;
        assert tokens[i] == rest[i] && Leq(tokens[i], tokens[k]);
        ItemParts(tokens[i]);
        ItemParts(tokens[k]);
        PrefixCancel(n + "=", v, ValueOf(tokens[k]));
      }
    }
  }

  ghost predicate IsValue(tokens: seq<string>, n: string, v: string)
    requires Items(tokens)
  {
    exists i :: 0 <= i < |tokens| && NameOf(tokens[i]) == n && ValueOf(tokens[i]) == v
  }

  // ----- main results

  /** The signed resource of a query of items: after the path one line for every parameter name that
      occurs, no name twice, and on it exactly the values given for that name, sorted. */
  lemma ResourceOfItems(uri: string, account: string) returns (names: seq<string>)
    requires IndexOf(uri, '?') >= 0 && IndexOf(uri, '?') != 1
    requires Items(Pieces(Query(uri), '&')) && Pieces(Query(uri), '&') != []
    ensures Usable(uri)
    ensures ResourceText(uri, account) == Head(uri, account) + "\n" + Lines(names, Sort(Pieces(Query(uri), '&')))
    ensures forall i, j :: 0 <= i < j < |names| ==> names[i] != names[j]
    ensures forall n :: n in names <==> n in Names(Pieces(Query(uri), '&'))
    ensures forall n :: ValuesFor(Sort(Pieces(Query(uri), '&')), n) == Sort(ValuesFor(Pieces(Query(uri), '&'), n))
  {
    hide Sort, Select, Lines, Render, Fields, Params, Values;
    var tokens := Pieces(Query(uri), '&');
    var sorted := Sort(tokens);
    SortSorts(tokens);
    ItemsSorted(tokens);
    FieldsOfItems(sorted);
    ParamsOfItems(sorted);
    RenderIsLines(sorted);
    DistinctNames(sorted);
    names := Distinct(sorted);
    forall n
      ensures n in Names(sorted) <==> n in Names(tokens)
    {
      if n in Names(tokens) {
        SameNames(tokens, sorted, n);
      }
      if n in Names(sorted) {
        SameNames(sorted, tokens, n);
      }
    }
    forall n
      ensures ValuesFor(sorted, n) == Sort(ValuesFor(tokens, n))
    {
      ValuesSorted(tokens, n);
    }
  }

  lemma SameNames(a: seq<string>, b: seq<string>, n: string)
    requires Items(a) && Items(b) && multiset(a) == multiset(b) && n in Names(a)
    ensures n in Names(b)
  {
    var i :| 0 <= i < |a| && Names(a)[i] == n;
    assert a[i] in multiset(b);
    var j :| 0 <= j < |b| && b[j] == a[i];
    assert Names(b)[j] == n;
  }

  /** The path is signed as it stands, behind the account. */
  lemma PathExact(path: string, query: string, account: string)
    requires '?' !in path
    ensures |path| != 1 ==> Head(path + "?" + query, account) == "/" + account + "/" + path
    ensures Query(path + "?" + query) == query
    ensures ResourceText(path, account) == "/" + account + "/" + path
  {
    var uri := path + "?" + query;
    assert uri[|path|] == '?';
    var i := IndexOf(uri, '?');
    assert i == |path|;
    assert uri[..i] == path && uri[i + 1..] == query;
    assert IndexOf(path, '?') == -1;
  }

  lemma NoFields()
    ensures Fields(Sort(Pieces("", '&'))) == []
  {
  }

  /** Rearranging the items of a query does not change what is signed. */
  lemma ResourceOrderFree(a: string, b: string, account: string)
    requires Usable(a) && IndexOf(a, '?') >= 0 && IndexOf(b, '?') == IndexOf(a, '?') && IndexOf(a, '?') != 1
    requires a[..IndexOf(a, '?')] == b[..IndexOf(b, '?')]
    requires multiset(Pieces(Query(a), '&')) == multiset(Pieces(Query(b), '&'))
    ensures Usable(b) && ResourceText(a, account) == ResourceText(b, account)
  {
    hide Sort, Render, Pieces, Fields;
    NoFields();
    SortOrderFree(Pieces(Query(a), '&'), Pieces(Query(b), '&'));
  }
}
