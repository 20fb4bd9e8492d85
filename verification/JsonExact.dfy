/** Which trees survive printing and parsing: exactly the printable ones. */
module JsonExact {
  import opened Basics
  import opened JsonText
  import opened JsonPrint
  import opened JsonTally

  // ----- the strings

  // No string of the tree holds a backslash, a double quote or NUL.
  predicate Clean(t: Tree) { CountTree('\\', t) == 0 && CountTree('"', t) == 0 && CountTree(NUL, t) == 0 }

  lemma {:induction false} CountNone(c: char, s: string)
    ensures Count(c, s) == 0 <==> c !in s
  {
    if s != "" {
      CountNone(c, s[1..]);
      assert s == [s[0]] + s[1..];
    }
  }

  lemma {:induction false} PrintCounts(c: char, t: Tree)
    requires c == '\\' || c == '\''
    ensures Count(c, Print(t)) <= CountTree(c, t)
    decreases t, 1
  {
    hide PrintBody, Count, CountBody;
    BodyCounts(c, t);
    if t.name.Some? {
      var n := t.name.value;
      CountAppend(c, " " + Quoted(n) + ":", PrintBody(t));
      CountAppend(c, " " + Quoted(n), ":");
      CountAppend(c, " ", Quoted(n));
      QuotedCounts(c, n);
      Plainly(c);
    } else {
      assert Print(t) == PrintBody(t);
    }
  }

  lemma QuotedCounts(c: char, s: string)
    requires c == '\\' || c == '\''
    ensures Count(c, Quoted(s)) == Count(c, s)
  {
    hide Count;
    CountAppend(c, "\"" + s, "\"");
    CountAppend(c, "\"", s);
    Plainly(c);
  }

  // The characters that the printer adds.
  lemma Plainly(c: char)
    requires c == '\\' || c == '\''
    ensures Count(c, "\"") == 0 && Count(c, " ") == 0 && Count(c, ":") == 0 && Count(c, ",") == 0 && Count(c, "") == 0
    ensures Count(c, "\n{") == 0 && Count(c, "\n[") == 0 && Count(c, "}") == 0 && Count(c, "]") == 0
    ensures Count(c, "\n") == 0
  {
    CountNone(c, "\n");
    CountNone(c, "\"");
    CountNone(c, " ");
    CountNone(c, ":");
    CountNone(c, ",");
    CountNone(c, "");
    CountNone(c, "\n{");
    CountNone(c, "\n[");
    CountNone(c, "}");
    CountNone(c, "]");
  }

  lemma {:induction false} BodyCounts(c: char, t: Tree)
    requires c == '\\' || c == '\''
    ensures Count(c, PrintBody(t)) <= CountBody(c, t)
    decreases t, 0
  {
    hide Count, CountTrees, PrintAll, Quoted;
    Plainly(c);
    if t.value.Some? {
      QuotedCounts(c, t.value.value);
    } else if t.kids != [] {
      AllCounts(c, t.kids);
      Enclosed(c, "\n{", PrintAll(t.kids), "}");
      Enclosed(c, "\n[", PrintAll(t.kids), "]");
    }
  }

  lemma Enclosed(c: char, open: string, all: string, close: string)
    ensures Count(c, open + all + close) == Count(c, open) + Count(c, all) + Count(c, close)
  {
    hide Count;
    CountAppend(c, open + all, close);
    CountAppend(c, open, all);
  }

  lemma {:induction false} AllCounts(c: char, kids: seq<Tree>)
    requires c == '\\' || c == '\''
    ensures Count(c, PrintAll(kids)) <= CountTrees(c, kids)
    decreases kids
  {
    hide Count, CountTree, Print;
    Plainly(c);
    if kids != [] {
      PrintCounts(c, kids[0]);
      if |kids| > 1 {
        AllCounts(c, kids[1..]);
        Enclosed(c, Print(kids[0]), ",", PrintAll(kids[1..]));
      } else {
        assert CountTrees(c, kids[1..]) == 0;
      }
    }
  }

  // What is read back whole was clean.
  lemma BalancedIsClean(t: Tree, close: string)
    requires close == "}" || close == "\n"
    requires TreeBalanced(Print(t) + close, close, t)
    ensures Clean(t)
  {
    hide Print, Count, CountTree;
    var s := Print(t) + close;
    CountAppend('\\', Print(t), close);
    CountAppend('\'', Print(t), close);
    Plainly('\\');
    Plainly('\'');
    PrintCounts('\\', t);
    PrintCounts('\'', t);
  }

  // ----- strings that are too long

  // Inside double quotes, clean text fills the buffer.
  lemma {:induction false} TokenFills(s: string, rest: string, acc: string)
    requires '"' !in s && '\\' !in s && NUL !in s && |acc| <= LIMIT <= |acc| + |s|
    ensures var n := LIMIT - |acc|;
            TokenFrom(s + "\"" + rest, '"', acc) == (acc + s[..n], s[n..] + "\"" + rest)
    decreases |s|
  {
    var text := s + "\"" + rest;
    if |acc| == LIMIT {
      assert acc + s[..0] == acc && s[0..] == s;
    } else {
      assert text[0] == s[0] && text[1..] == s[1..] + "\"" + rest;
      TokenFills(s[1..], rest, acc + [s[0]]);
      var n := LIMIT - |acc|;
      assert acc + [s[0]] + s[1..][..n - 1] == acc + s[..n];
      assert s[1..][n - 1..] == s[n..];
    }
  }

  // A quoted clean string is only read back when it is shorter than the buffer, or just fits it and
  // leaves its closing quote behind.
  lemma LongToken(s: string, rest: string)
    requires '"' !in s && '\\' !in s && NUL !in s && |s| >= LIMIT
    ensures GetToken(Quoted(s) + rest) == (Some(s[..LIMIT]), s[LIMIT..] + "\"" + rest)
    ensures GetToken(" " + Quoted(s) + rest) == GetToken(Quoted(s) + rest)
    ensures GetPunctuation(Quoted(s) + rest) == (NUL, Quoted(s) + rest)
  {
    hide TokenFrom;
    var inner := s + "\"" + rest;
    assert Quoted(s) + rest == ['"'] + inner;
    assert RemoveWhite(['"'] + inner) == (true, ['"'] + inner);
    TokenOpens(inner);
    TokenFills(s, rest, "");
    assert "" + s[..LIMIT] == s[..LIMIT];
    assert " " + Quoted(s) + rest == [' '] + (['"'] + inner);
    assert ([' '] + (['"'] + inner))[1..] == ['"'] + inner;
  }

  // ----- what reads back was printable

  // No parser loop goes on or ends here.
  predicate Stuck(rest: string) { GetPunctuation(rest).0 == NUL }

  predicate Closing(more: string) { more != "" && (more[0] == ',' || more[0] == '}' || more[0] == ']') }

  // What may be concluded when the parser makes t of its printed form.
  predicate Survived(t: Tree, rest: string, more: string) {
    (Printable(t) && rest == more) || Stuck(rest) || (t == EMPTY && more != "" && more[0] == ']' && rest == more)
  }

  lemma CleanParts(t: Tree)
    requires Clean(t)
    ensures t.name.Some? ==> CleanText(t.name.value)
    ensures t.value.Some? ==> CleanText(t.value.value)
    ensures forall i :: 0 <= i < |t.kids| ==> Clean(t.kids[i])
    ensures Clean(t.(name := None))
  {
    hide CountTree, CountTrees, Count;
    CountParts('\\', t);
    CountParts('"', t);
    CountParts(NUL, t);
    CountParts('\\', t.(name := None));
    CountParts('"', t.(name := None));
    CountParts(NUL, t.(name := None));
    if t.name.Some? {
      CountNone('\\', t.name.value);
      CountNone('"', t.name.value);
      CountNone(NUL, t.name.value);
    }
    if t.value.Some? {
      CountNone('\\', t.value.value);
      CountNone('"', t.value.value);
      CountNone(NUL, t.value.value);
    }
    forall i | 0 <= i < |t.kids|
      ensures Clean(t.kids[i])
    {
      CountKid('\\', t.kids, i);
      CountKid('"', t.kids, i);
      CountKid(NUL, t.kids, i);
    }
  }

  lemma CountParts(c: char, t: Tree)
    ensures CountTree(c, t) == CountOption(c, t.name) + CountOption(c, t.value) + CountTrees(c, t.kids)
  {
  }

  lemma {:induction false} CountKid(c: char, kids: seq<Tree>, i: nat)
    requires i < |kids|
    ensures CountTree(c, kids[i]) <= CountTrees(c, kids)
  {
    hide CountTree;
    if i > 0 {
      CountKid(c, kids[1..], i - 1);
    }
  }

  predicate CleanText(s: string) { '"' !in s && '\\' !in s && NUL !in s }

  // A leaf: its value is short enough, or what follows is stuck.
  lemma LeafBack(name: Option<string>, v: string, kids: seq<Tree>, more: string)
    requires CleanText(v) && Closing(more)
    ensures var p := GetValue(name, Quoted(v) + more);
            p.Read? && p.tree == Tree(name, Some(v), kids) ==>
              kids == [] && ((Plain(v) && p.rest == more) || Stuck(p.rest))
  {
    hide GetValue, GetComplex, GetMatrix, GetToken, GetPunctuation, Quoted;
    var s := Quoted(v) + more;
    if |v| < LIMIT {
      ReadLeaf(name, v, more);
    } else {
      LongToken(v, more);
      ValueTurn(name, s, NUL, s);
      if |v| == LIMIT {
        assert v[..LIMIT] == v && v[LIMIT..] + "\"" + more == "\"" + more;
        QuoteSticks(more);
      }
    }
  }

  lemma QuoteSticks(more: string)
    ensures Stuck("\"" + more)
  {
    var s := ['"'] + more;
    assert "\"" + more == s && RemoveWhite(s) == (true, s);
  }

  // Nothing was printed: the parser takes what follows.
  lemma NothingBack(name: Option<string>, more: string)
    requires Closing(more)
    ensures var p := GetValue(name, more);
            p.Read? && p.tree == Tree(name, None, []) ==> more[0] == ']' && p.rest == more
  {
    hide GetValue, GetComplex, GetMatrix, GetPunctuation;
    assert more == [more[0]] + more[1..];
    Punct(more[0], more[1..]);
    ValueTurn(name, more, more[0], more[1..]);
  }

  lemma {:induction false} BracketsBack(name: Option<string>, t: Tree, more: string)
    requires Clean(t) && t.kids != [] && t.value.None?
    ensures var p := GetValue(name, PrintBody(t) + more);
            p.Read? && p.tree == t.(name := name) ==> Printable(t.(name := None)) && p.rest == more
    decreases t, 0
  {
    hide GetValue, GetComplex, GetMatrix, Clean, PrintAll, PrintBody;
    CleanParts(t);
    BodyMarks(t);
    assert [] + t.kids == t.kids;
    if t.kids[0].name.Some? {
      OpenBrackets(name, "{", PrintAll(t.kids), "}", more);
      ComplexBack(name, [], t.kids, more);
    } else {
      OpenBrackets(name, "[", PrintAll(t.kids), "]", more);
      MatrixBack(name, [], t.kids, more);
    }
  }

  lemma {:induction false} BodyBack(name: Option<string>, t: Tree, more: string)
    requires Clean(t) && Closing(more)
    ensures var p := GetValue(name, PrintBody(t) + more);
            p.Read? && p.tree == t.(name := name) ==> Survived(t.(name := None), p.rest, more)
    decreases t, 1
  {
    hide GetValue, Clean, Quoted, PrintAll, Stuck;
    CleanParts(t);
    if t.value.Some? {
      LeafBack(name, t.value.value, t.kids, more);
    } else if t.kids == [] {
      assert "" + more == more;
      NothingBack(name, more);
    } else {
      BracketsBack(name, t, more);
    }
  }

  lemma {:induction false} ElementBack(t: Tree, more: string)
    requires Clean(t) && t.name.Some? && Closing(more) && more[0] != ']'
    ensures var p := GetElement(Print(t) + more); p.Read? && p.tree == t ==> Survived(t, p.rest, more)
    decreases t, 2
  {
    hide GetToken, GetValue, GetPunctuation, PrintBody, Clean, Printable, Survived;
    CleanParts(t);
    var n := t.name.value;
    var text, tail := Print(t) + more, ":" + PrintBody(t) + more;
    assert text == " " + Quoted(n) + tail;
    if |n| < LIMIT {
      TokenQuoted(n, tail);
      assert tail == [':'] + (PrintBody(t) + more);
      Punct(':', PrintBody(t) + more);
      BodyBack(t.name, t, more);
      var p := GetElement(text);
      if p.Read? && p.tree == t {
        SurvivedNamed(t, p.rest, more);
      }
    } else {
      LongToken(n, tail);
      ElementName(text);
      if |n| == LIMIT {
        assert n[..LIMIT] == n && n[LIMIT..] + "\"" + tail == "\"" + tail;
        QuoteSticks(tail);
      }
    }
  }

  lemma ElementName(s: string)
    ensures GetElement(s).Read? ==> GetElement(s).tree.name == GetToken(s).0
  {
    hide GetToken, GetValue, GetPunctuation;
    var (token, t) := GetToken(s);
    ValueBalanced(token, GetPunctuation(t).1);
  }

  // A short name makes no difference, but nothing named is empty.
  lemma SurvivedNamed(t: Tree, rest: string, more: string)
    requires t.name.Some? && Plain(t.name.value) && more != "" && more[0] != ']'
    requires Survived(t.(name := None), rest, more)
    ensures Survived(t, rest, more)
  {
  }

  lemma {:induction false} ValueBack(t: Tree, more: string)
    requires Clean(t) && t.name.None? && Closing(more)
    ensures var p := GetValue(None, Print(t) + more); p.Read? && p.tree == t ==> Survived(t, p.rest, more)
    decreases t, 2
  {
    hide GetValue, Clean, Survived;
    UnnamedPrint(t);
    BodyBack(None, t, more);
    assert t.(name := None) == t;
  }

  // The first child and what follows it, in both kinds of brackets.
  function Tail(kids: seq<Tree>, close: string, more: string): string
    requires kids != []
  {
    if |kids| == 1 then close + more else "," + (PrintAll(kids[1..]) + close + more)
  }

  lemma FirstAndTail(kids: seq<Tree>, close: string, more: string)
    requires kids != [] && (close == "}" || close == "]")
    ensures PrintAll(kids) + close + more == Print(kids[0]) + Tail(kids, close, more)
    ensures Closing(Tail(kids, close, more)) && Tail(kids, close, more)[0] == if |kids| == 1 then close[0] else ','
    ensures |kids| == 1 ==> GetPunctuation(Tail(kids, close, more)) == (close[0], more)
    ensures |kids| > 1 ==> GetPunctuation(Tail(kids, close, more)) == (',', PrintAll(kids[1..]) + close + more)
  {
    hide Print, GetPunctuation;
    if |kids| == 1 {
      Chain(Print(kids[0]), "", close, more);
      assert close + more == [close[0]] + more;
      Punct(close[0], more);
    } else {
      hide PrintAll;
      var rest := PrintAll(kids[1..]);
      PrintMore(kids);
      Chain(Print(kids[0]), rest, close, more);
      assert "," + (rest + close + more) == [','] + (rest + close + more);
      Punct(',', rest + close + more);
    }
  }

  lemma Chain(first: string, rest: string, close: string, more: string)
    ensures first + close + more == first + (close + more)
    ensures first + "," + rest + close + more == first + ("," + (rest + close + more))
  {
  }

  // The loop over an object goes through only if its first child was read, and whatever was read is the
  // first child of the result.
  lemma ComplexFirst(name: Option<string>, done: seq<Tree>, kids: seq<Tree>, text: string)
    requires kids != []
    ensures var p, e := GetComplex(name, done, text), GetElement(text);
            p.Read? && p.tree.kids == done + kids ==> e.Read? && e.tree == kids[0] && !Stuck(e.rest)
    ensures GetElement(text).Read? ==> GetElement(text).tree.name.Some?
  {
    hide GetElement, GetComplex, GetPunctuation, Extended, Added, TreeBalanced, BodyBalanced;
    var p, e := GetComplex(name, done, text), GetElement(text);
    LoopFails(name, done, text);
    ElementBalanced(text);
    if e.Read? {
      var (c, u) := GetPunctuation(e.rest);
      ComplexTurn(name, done, text, e.tree, e.rest, c, u);
      if c == ',' {
        ComplexBalanced(name, done + [e.tree], u);
      } else {
        Closes(name, done, e.tree, u);
      }
      if p.Read? && p.tree.kids == done + kids {
        FirstRead(name, done, e.tree, kids, p.tree);
      }
    }
  }

  lemma {:induction false} ComplexBack(name: Option<string>, done: seq<Tree>, kids: seq<Tree>, more: string)
    requires kids != [] && forall i :: 0 <= i < |kids| ==> Clean(kids[i])
    ensures var p := GetComplex(name, done, PrintAll(kids) + "}" + more);
            p.Read? && p.tree.kids == done + kids ==> p.rest == more && NamedKids(kids)
    decreases kids, 3
  {
    hide GetElement, GetComplex, GetPunctuation, PrintAll, Printable, NamedKids, Clean, Tail, Survived, Stuck;
    var text, tail := PrintAll(kids) + "}" + more, Tail(kids, "}", more);
    var p, e := GetComplex(name, done, text), GetElement(text);
    FirstAndTail(kids, "}", more);
    ComplexFirst(name, done, kids, text);
    if p.Read? && p.tree.kids == done + kids {
      ElementBack(kids[0], tail);
      SurvivedMember(kids[0], e.rest, tail);
      if |kids| > 1 {
        var rest := PrintAll(kids[1..]) + "}" + more;
        ComplexTurn(name, done, text, kids[0], tail, ',', rest);
        assert done + [kids[0]] + kids[1..] == done + kids;
        ComplexBack(name, done + [kids[0]], kids[1..], more);
      } else {
        ComplexTurn(name, done, text, kids[0], tail, '}', more);
      }
      MoreNamed(kids);
    }
  }

  // The first child read is the first child.
  lemma FirstRead(name: Option<string>, done: seq<Tree>, kid: Tree, kids: seq<Tree>, t: Tree)
    requires kids != [] && t.kids == done + kids && Extended(name, done + [kid], t)
    ensures kid == kids[0]
  {
    assert t.kids[|done|] == (done + [kid])[|done|] == kid;
  }

  // The loop over an array goes through only if its first child was read, and whatever was read is the
  // first child of the result.
  lemma MatrixFirst(name: Option<string>, done: seq<Tree>, kids: seq<Tree>, text: string)
    requires kids != []
    ensures var p, e := GetMatrix(name, done, text), GetValue(None, text);
            p.Read? && p.tree.kids == done + kids ==> e.Read? && e.tree == kids[0] && !Stuck(e.rest)
    ensures GetValue(None, text).Read? ==> GetValue(None, text).tree.name.None?
  {
    hide GetValue, GetMatrix, GetPunctuation, Extended, Added, TreeBalanced, BodyBalanced;
    var p, e := GetMatrix(name, done, text), GetValue(None, text);
    LoopFails(name, done, text);
    ValueBalanced(None, text);
    if e.Read? {
      var (c, u) := GetPunctuation(e.rest);
      MatrixTurn(name, done, text, e.tree, e.rest, c, u);
      if c == ',' {
        MatrixBalanced(name, done + [e.tree], u);
      } else {
        Closes(name, done, e.tree, u);
      }
      if p.Read? && p.tree.kids == done + kids {
        FirstRead(name, done, e.tree, kids, p.tree);
      }
    }
  }

  lemma {:induction false} MatrixBack(name: Option<string>, done: seq<Tree>, kids: seq<Tree>, more: string)
    requires kids != [] && forall i :: 0 <= i < |kids| ==> Clean(kids[i])
    ensures var p := GetMatrix(name, done, PrintAll(kids) + "]" + more);
            p.Read? && p.tree.kids == done + kids ==> p.rest == more && UnnamedKids(kids)
    decreases kids, 3
  {
    hide GetValue, GetMatrix, GetPunctuation, PrintAll, Printable, IsLastEmpty, UnnamedKids;
    hide Clean, Tail, Survived, Stuck;
    var text, tail := PrintAll(kids) + "]" + more, Tail(kids, "]", more);
    var p, e := GetMatrix(name, done, text), GetValue(None, text);
    FirstAndTail(kids, "]", more);
    MatrixFirst(name, done, kids, text);
    if p.Read? && p.tree.kids == done + kids {
      ValueBack(kids[0], tail);
      SurvivedKid(kids, e.rest, tail);
      if |kids| > 1 {
        var rest := PrintAll(kids[1..]) + "]" + more;
        MatrixTurn(name, done, text, kids[0], tail, ',', rest);
        assert done + [kids[0]] + kids[1..] == done + kids;
        MatrixBack(name, done + [kids[0]], kids[1..], more);
      } else {
        MatrixTurn(name, done, text, kids[0], tail, ']', more);
      }
      MoreUnnamed(kids);
    }
  }

  lemma SurvivedKid(kids: seq<Tree>, rest: string, tail: string)
    requires kids != [] && tail != "" && (|kids| > 1 ==> tail[0] != ']')
    requires Survived(kids[0], rest, tail) && !Stuck(rest)
    ensures rest == tail && (Printable(kids[0]) || IsLastEmpty(kids, 0))
  {
    hide Printable, Stuck;
  }

  lemma SurvivedMember(kid: Tree, rest: string, tail: string)
    requires kid.name.Some? && Survived(kid, rest, tail) && !Stuck(rest)
    ensures rest == tail && Printable(kid)
  {
    hide Printable, Stuck;
  }

  lemma MoreNamed(kids: seq<Tree>)
    requires kids != [] && kids[0].name.Some? && Printable(kids[0]) && (|kids| > 1 ==> NamedKids(kids[1..]))
    ensures NamedKids(kids)
  {
    hide Printable;
    assert forall i :: 1 <= i < |kids| ==> kids[i] == kids[1..][i - 1];
  }

  lemma MoreUnnamed(kids: seq<Tree>)
    requires kids != [] && kids[0].name.None? && (Printable(kids[0]) || IsLastEmpty(kids, 0))
    requires |kids| > 1 ==> UnnamedKids(kids[1..])
    ensures UnnamedKids(kids)
  {
    hide Printable;
    forall i | 1 <= i < |kids|
      ensures kids[i].name.None? && (Printable(kids[i]) || IsLastEmpty(kids, i))
    {
      assert kids[1..][i - 1] == kids[i];
    }
  }

  // ----- the main results

  lemma BraceStops()
    ensures Stops("}") && Closing("}") && !Stuck("}")
  {
    Punct('}', "");
    assert ['}'] + "" == "}";
  }

  /** A named node that is printed and read back by json_get_element is the same, with what follows it
      left unread, exactly when it is printable. */
  lemma ElementExact(t: Tree)
    requires t.name.Some?
    ensures (forall rest | Stops(rest) :: GetElement(Print(t) + rest) == Read(t, rest)) <==> Printable(t)
  {
    hide GetElement, Print, Printable, Stops, Stuck;
    BraceStops();
    if Printable(t) {
      forall rest | Stops(rest)
        ensures GetElement(Print(t) + rest) == Read(t, rest)
      {
        ReadElement(t, rest);
      }
    }
    if GetElement(Print(t) + "}") == Read(t, "}") {
      ElementBalanced(Print(t) + "}");
      BalancedIsClean(t, "}");
      ElementBack(t, "}");
    }
  }

  /** The same for an unnamed node and json_get_value. */
  lemma ValueExact(t: Tree)
    requires t.name.None?
    ensures (forall rest | Stops(rest) :: GetValue(None, Print(t) + rest) == Read(t, rest)) <==> Printable(t)
  {
    hide GetValue, Print, Printable, Stops, Stuck;
    BraceStops();
    if Printable(t) {
      forall rest | Stops(rest)
        ensures GetValue(None, Print(t) + rest) == Read(t, rest)
      {
        ReadValue(t, rest);
      }
    }
    if GetValue(None, Print(t) + "}") == Read(t, "}") {
      ValueBalanced(None, Print(t) + "}");
      Unnamed(Print(t) + "}", "}", t);
      BalancedIsClean(t, "}");
      ValueBack(t, "}");
    }
  }

  /** json_serialise followed by json_parse_file gives back the first child of the root, under the file's
      name, exactly when that child is an unnamed, printable node with children. */
  lemma FileExact(root: Tree, filename: string)
    requires root.kids != []
    ensures var top := root.kids[0];
            ParseFile(filename, PrintFile(root)) == Read(Tree(Some(filename), None, top.kids), "\n")
            <==> top.name.None? && top.value.None? && Printable(top)
  {
    hide GetComplex, GetMatrix, GetValue, GetPunctuation, PrintBody, Printable;
    var top := root.kids[0];
    var text := Print(top) + "\n";
    if top.name.Some? || top.value.Some? {
      NotAFile(top, "\n");
    } else if Printable(top) {
      FileRoundTrip(root, filename);
    } else if ParseFile(filename, text) == Read(Tree(Some(filename), None, top.kids), "\n") {
      FileIsValue(text, filename);
      FileHasKids(top, filename);
      ValueBalanced(Some(filename), text);
      SameBody(text, "\n", Tree(Some(filename), None, top.kids), top);
      BalancedIsClean(top, "\n");
      assert top.(name := None) == top;
      BracketsBack(Some(filename), top, "\n");
    }
  }

  // A file that parses is read like the value of an element named after the file.
  lemma FileIsValue(s: string, filename: string)
    requires ParseFile(filename, s).Read?
    ensures GetValue(Some(filename), s) == ParseFile(filename, s)
  {
    hide GetComplex, GetMatrix, GetValue, GetPunctuation;
    var (c, t) := GetPunctuation(s);
    ValueTurn(Some(filename), s, c, t);
  }

  lemma FileHasKids(top: Tree, filename: string)
    requires top.name.None? && top.value.None? && ParseFile(filename, Print(top) + "\n").Read?
    ensures top.kids != [] && Print(top) == PrintBody(top)
  {
    hide GetComplex, GetMatrix;
    UnnamedPrint(top);
    NoFile();
    assert top.kids == [] ==> Print(top) + "\n" == "\n";
  }

  lemma NoFile()
    ensures GetPunctuation("\n").0 == NUL
  {
    assert "\n"[1..] == "";
  }

  lemma SameBody(s: string, rest: string, x: Tree, t: Tree)
    requires BodyBalanced(s, rest, x) && x.value == t.value && x.kids == t.kids && t.name.None?
    ensures TreeBalanced(s, rest, t)
  {
    hide Count, CountTree, CountBody;
    BodySame('\\', x, t);
    BodySame('\'', x, t);
    BodySame('"', x, t);
    BodySame(NUL, x, t);
  }

  lemma BodySame(c: char, x: Tree, t: Tree)
    requires x.value == t.value && x.kids == t.kids && t.name.None?
    ensures CountBody(c, x) == CountTree(c, t)
  {
    hide Count, CountTrees;
  }
}
