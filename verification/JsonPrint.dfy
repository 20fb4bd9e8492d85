/** json_serialise_complex of cocarrier/json.c, and what the parser makes of its output. */
module JsonPrint {
  import opened Basics
  import opened JsonText

  // ----- the printer

  function Quoted(s: string): string { "\"" + s + "\"" }

  // json_serialise_complex
  function Print(t: Tree): string {
    (if t.name.Some? then " " + Quoted(t.name.value) + ":" else "") + PrintBody(t)
  }

  function PrintBody(t: Tree): string
    decreases t, 0
  {
    if t.value.Some? then Quoted(t.value.value)
    else if t.kids == [] then ""
    else if t.kids[0].name.Some? then "\n{" + PrintAll(t.kids) + "}"
    else "\n[" + PrintAll(t.kids) + "]"
  }

  // The children, separated by commas.
  function PrintAll(kids: seq<Tree>): string
    decreases kids
  {
    if kids == [] then ""
    else if |kids| == 1 then Print(kids[0])
    else Print(kids[0]) + "," + PrintAll(kids[1..])
  }

  // json_serialise: only the first child of the root is printed.
  function PrintFile(root: Tree): string
    requires root.kids != []
  {
    Print(root.kids[0]) + "\n"
  }

  // ----- which trees survive

  predicate Plain(s: string) {
    |s| < LIMIT && '"' !in s && '\\' !in s && NUL !in s
  }

  predicate PlainOption(s: Option<string>) { s.Some? ==> Plain(s.value) }

  const EMPTY := Tree(None, None, [])

  // Every node has either a value or children, siblings are all named or all unnamed, and no string
  // holds a quote, a backslash or NUL or is as long as the token buffer.  Only the last of unnamed
  // siblings may be empty.
  predicate Printable(t: Tree) {
    && PlainOption(t.name) && PlainOption(t.value)
    && (t.value.Some? <==> t.kids == [])
    && (forall i :: 0 <= i < |t.kids| ==> t.kids[i].name.Some? == t.kids[0].name.Some?)
    && (forall i :: 0 <= i < |t.kids| ==> Printable(t.kids[i]) || IsLastEmpty(t.kids, i))
  }

  predicate NamedKids(kids: seq<Tree>) {
    forall i :: 0 <= i < |kids| ==> kids[i].name.Some? && Printable(kids[i])
  }

  predicate UnnamedKids(kids: seq<Tree>) {
    forall i :: 0 <= i < |kids| ==> kids[i].name.None? && (Printable(kids[i]) || IsLastEmpty(kids, i))
  }

  predicate IsLastEmpty(kids: seq<Tree>, i: nat)
    requires i < |kids|
  {
    i == |kids| - 1 && kids[i] == EMPTY
  }

  predicate Stops(rest: string) { rest != "" && Punctuation(rest[0]) }

  // ----- tokens

  predicate Ends(rest: string) { rest != "" && (rest[0] == ' ' || Punctuation(rest[0])) }

  // What a token leaves unread: a blank that ended it is gone.
  function After(rest: string): string
    requires Ends(rest)
  {
    if rest[0] == ' ' then rest[1..] else rest
  }

  // Inside double quotes, plain text is copied up to the closing quote.
  lemma {:induction false} TokenBody(s: string, rest: string, acc: string)
    requires |acc| + |s| < LIMIT && '"' !in s && '\\' !in s && NUL !in s && Ends(rest)
    ensures TokenFrom(s + "\"" + rest, '"', acc) == (acc + s, After(rest))
    decreases |s|
  {
    var text := s + "\"" + rest;
    if s == "" {
      assert text == "\"" + rest && text[1..] == rest && acc + s == acc;
      assert TokenFrom(rest, NUL, acc) == (acc, After(rest));
    } else {
      assert text[0] == s[0] && text[1..] == s[1..] + "\"" + rest;
      TokenBody(s[1..], rest, acc + [s[0]]);
      assert acc + [s[0]] + s[1..] == acc + s;
    }
  }

  lemma TokenOpens(inner: string)
    ensures TokenFrom(['"'] + inner, NUL, "") == TokenFrom(inner, '"', "")
  {
    assert (['"'] + inner)[1..] == inner;
  }

  // A quoted plain string is read back, with or without a blank before it.
  lemma TokenQuoted(s: string, rest: string)
    requires Plain(s) && Ends(rest)
    ensures GetToken(Quoted(s) + rest) == (Some(s), After(rest)) == GetToken(" " + Quoted(s) + rest)
    ensures GetPunctuation(Quoted(s) + rest) == (NUL, Quoted(s) + rest)
  {
    hide TokenFrom;
    var inner := s + "\"" + rest;
    assert Quoted(s) + rest == ['"'] + inner;
    assert RemoveWhite(['"'] + inner) == (true, ['"'] + inner);
    TokenOpens(inner);
    TokenBody(s, rest, "");
    assert "" + s == s;
    assert " " + Quoted(s) + rest == [' '] + (['"'] + inner);
    assert ([' '] + (['"'] + inner))[1..] == ['"'] + inner;
  }

  // ----- the round trip

  // What is left after a printed tree: a value is only ended by punctuation.
  predicate Follows(t: Tree, rest: string) { t.value.Some? ==> Stops(rest) }

  lemma {:induction false} ReadBody(t: Tree, rest: string)
    requires Printable(t) && Follows(t, rest)
    ensures GetValue(t.name, PrintBody(t) + rest) == Read(t, rest)
    decreases t, 0
  {
    hide GetValue, GetComplex, GetMatrix, GetPunctuation, PrintAll, Quoted;
    if t.value.Some? {
      ReadLeaf(t.name, t.value.value, rest);
    } else {
      hide PrintBody;
      assert [] + t.kids == t.kids;
      BodyMarks(t);
      if t.kids[0].name.Some? {
        ReadComplex(t.name, [], t.kids, rest);
        OpenBrackets(t.name, "{", PrintAll(t.kids), "}", rest);
      } else {
        ReadMatrix(t.name, [], t.kids, rest);
        OpenBrackets(t.name, "[", PrintAll(t.kids), "]", rest);
      }
    }
  }

  lemma BodyMarks(t: Tree)
    requires t.value.None? && t.kids != []
    ensures t.kids[0].name.Some? ==> PrintBody(t) == "\n" + "{" + PrintAll(t.kids) + "}"
    ensures t.kids[0].name.None? ==> PrintBody(t) == "\n" + "[" + PrintAll(t.kids) + "]"
  {
    hide PrintAll;
    assert "\n{" == "\n" + "{" && "\n[" == "\n" + "[";
  }

  lemma OpenBrackets(name: Option<string>, open: string, all: string, close: string, rest: string)
    requires open == "{" || open == "["
    ensures GetValue(name, "\n" + open + all + close + rest) ==
            if open == "{" then GetComplex(name, [], all + close + rest) else GetMatrix(name, [], all + close + rest)
  {
    hide GetValue, GetComplex, GetMatrix, GetPunctuation;
    var inner := all + close + rest;
    assert "\n" + open + all + close + rest == "\n" + open + inner;
    SkipNewline(open, inner);
    ValueTurn(name, "\n" + open + inner, open[0], inner);
  }

  lemma ReadLeaf(name: Option<string>, value: string, rest: string)
    requires Plain(value) && Stops(rest)
    ensures GetValue(name, Quoted(value) + rest) == Read(Tree(name, Some(value), []), rest)
  {
    hide GetToken, GetComplex, GetMatrix;
    TokenQuoted(value, rest);
    var text := Quoted(value) + rest;
    assert text[0] == '"';
    assert GetPunctuation(text) == (NUL, text);
  }

  lemma SkipNewline(mark: string, rest: string)
    requires |mark| == 1 && Punctuation(mark[0])
    ensures GetPunctuation("\n" + mark + rest) == (mark[0], rest)
  {
    var text := "\n" + mark + rest;
    assert text[1..] == mark + rest;
    assert RemoveWhite(text) == RemoveWhite(mark + rest) == (true, mark + rest);
    assert (mark + rest)[1..] == rest;
  }

  lemma Punct(mark: char, rest: string)
    requires Punctuation(mark)
    ensures GetPunctuation([mark] + rest) == (mark, rest)
  {
    assert ([mark] + rest)[1..] == rest;
    assert RemoveWhite([mark] + rest) == (true, [mark] + rest);
  }

  lemma PrintableName(t: Tree)
    requires Printable(t) && t.name.Some?
    ensures Plain(t.name.value)
  {
  }

  /** A printed named node is read back by json_get_element, leaving exactly what follows it. */
  lemma {:induction false} ReadElement(t: Tree, rest: string)
    requires Printable(t) && t.name.Some? && Follows(t, rest)
    ensures GetElement(Print(t) + rest) == Read(t, rest)
    decreases t, 1
  {
    hide GetToken, GetValue, GetPunctuation, PrintBody, Printable;
    assert Plain(t.name.value) by { PrintableName(t); }
    var text, tail := Print(t) + rest, ":" + PrintBody(t) + rest;
    assert text == " " + Quoted(t.name.value) + tail;
    TokenQuoted(t.name.value, tail);
    assert tail == [':'] + (PrintBody(t) + rest);
    Punct(':', PrintBody(t) + rest);
    ReadBody(t, rest);
  }

  /** A printed unnamed node is read back by json_get_value. */
  lemma {:induction false} ReadValue(t: Tree, rest: string)
    requires Printable(t) && t.name.None? && Follows(t, rest)
    ensures GetValue(None, Print(t) + rest) == Read(t, rest)
    decreases t, 1
  {
    assert Print(t) == PrintBody(t);
    ReadBody(t, rest);
  }

  lemma PrintMore(kids: seq<Tree>)
    requires |kids| > 1
    ensures PrintAll(kids) == Print(kids[0]) + "," + PrintAll(kids[1..])
  {
  }

  lemma {:induction false} ReadComplex(name: Option<string>, done: seq<Tree>, kids: seq<Tree>, rest: string)
    requires kids != [] && NamedKids(kids)
    ensures GetComplex(name, done, PrintAll(kids) + "}" + rest) == Read(Tree(name, None, done + kids), rest)
    decreases kids, 2
  {
    hide GetElement, GetValue, GetComplex, GetMatrix, GetPunctuation, Print, Printable;
    var text := PrintAll(kids) + "}" + rest;
    if |kids| == 1 {
      assert text == Print(kids[0]) + ("}" + rest);
      ReadElement(kids[0], "}" + rest);
      Punct('}', rest);
      ComplexTurn(name, done, text, kids[0], "}" + rest, '}', rest);
      assert done + [kids[0]] == done + kids;
    } else {
      hide PrintAll;
      PrintMore(kids);
      var tail := PrintAll(kids[1..]) + "}" + rest;
      assert text == Print(kids[0]) + ("," + tail);
      ReadElement(kids[0], "," + tail);
      Punct(',', tail);
      ComplexTurn(name, done, text, kids[0], "," + tail, ',', tail);
      ReadComplex(name, done + [kids[0]], kids[1..], rest);
      assert done + [kids[0]] + kids[1..] == done + kids;
    }
  }

  // An empty node prints as nothing, and that is what the parser makes of nothing before `]`.
  lemma ReadEmpty(rest: string)
    ensures Print(EMPTY) == "" && GetValue(None, Print(EMPTY) + ("]" + rest)) == Read(EMPTY, "]" + rest)
  {
    hide GetComplex, GetMatrix, GetPunctuation;
    assert "" + ("]" + rest) == [']'] + rest == "]" + rest;
    Punct(']', rest);
  }

  lemma {:induction false} ReadMatrix(name: Option<string>, done: seq<Tree>, kids: seq<Tree>, rest: string)
    requires kids != [] && UnnamedKids(kids)
    ensures GetMatrix(name, done, PrintAll(kids) + "]" + rest) == Read(Tree(name, None, done + kids), rest)
    decreases kids, 2
  {
    hide GetElement, GetValue, GetComplex, GetMatrix, GetPunctuation, Print, Printable;
    var text := PrintAll(kids) + "]" + rest;
    if |kids| == 1 {
      assert text == Print(kids[0]) + ("]" + rest);
      Punct(']', rest);
      if Printable(kids[0]) {
        ReadValue(kids[0], "]" + rest);
      } else {
        ReadEmpty(rest);
      }
      MatrixTurn(name, done, text, kids[0], "]" + rest, ']', rest);
      assert done + [kids[0]] == done + kids;
    } else {
      hide PrintAll;
      PrintMore(kids);
      var tail := PrintAll(kids[1..]) + "]" + rest;
      assert text == Print(kids[0]) + ("," + tail);
      ReadValue(kids[0], "," + tail);
      Punct(',', tail);
      MatrixTurn(name, done, text, kids[0], "," + tail, ',', tail);
      ReadMatrix(name, done + [kids[0]], kids[1..], rest);
      assert done + [kids[0]] + kids[1..] == done + kids;
    }
  }

  /** json_serialise followed by json_parse_file gives back the first child of the root, under the
      file's name, exactly when that child is an unnamed node with children: a named node or a bare
      value is not a file the parser accepts. */
  lemma FileRoundTrip(root: Tree, filename: string)
    requires root.kids != [] && Printable(root.kids[0])
    ensures var top := root.kids[0];
            ParseFile(filename, PrintFile(root)) ==
            if top.name.None? && top.value.None? then Read(Tree(Some(filename), None, top.kids), "\n") else Failed
  {
    hide ParseFile, GetComplex, GetMatrix, GetPunctuation, PrintAll, PrintBody;
    var top := root.kids[0];
    if top.name.None? && top.value.None? {
      UnnamedPrint(top);
      assert [] + top.kids == top.kids;
      BodyMarks(top);
      if top.kids[0].name.Some? {
        ReadComplex(Some(filename), [], top.kids, "\n");
        OpenFile(filename, "{", PrintAll(top.kids), "}");
      } else {
        ReadMatrix(Some(filename), [], top.kids, "\n");
        OpenFile(filename, "[", PrintAll(top.kids), "]");
      }
    } else {
      NotAFile(top, "\n");
      ClosedFile(filename, PrintFile(root));
    }
  }

  lemma OpenFile(filename: string, open: string, all: string, close: string)
    requires open == "{" || open == "["
    ensures ParseFile(filename, "\n" + open + all + close + "\n") ==
            if open == "{" then GetComplex(Some(filename), [], all + close + "\n")
            else GetMatrix(Some(filename), [], all + close + "\n")
  {
    hide GetComplex, GetMatrix, GetPunctuation;
    var inner := all + close + "\n";
    assert "\n" + open + all + close + "\n" == "\n" + open + inner;
    SkipNewline(open, inner);
  }

  lemma ClosedFile(filename: string, s: string)
    requires GetPunctuation(s).0 == NUL
    ensures ParseFile(filename, s) == Failed
  {
    hide GetPunctuation;
  }

  lemma UnnamedPrint(t: Tree)
    requires t.name.None?
    ensures Print(t) == PrintBody(t)
  {
  }

  lemma NotAFile(t: Tree, rest: string)
    requires t.name.Some? || t.value.Some?
    ensures GetPunctuation(Print(t) + rest).0 == NUL
  {
    var text := Print(t) + rest;
    if t.name.Some? {
      assert text[0] == ' ' && text[1] == '"' && text[1..][0] == '"';
      assert RemoveWhite(text) == (true, text[1..]);
    } else {
      UnnamedPrint(t);
      assert text[0] == '"';
    }
  }
}
