/** Bookkeeping for the JSON parser: it makes up no character, and the quotation marks and backslashes
    that it takes for syntax are missing from the tree afterwards. */
module JsonTally {
  import opened Basics
  import opened JsonText
  import opened JsonPrint

  function Count(c: char, s: string): nat {
    if s == "" then 0 else (if s[0] == c then 1 else 0) + Count(c, s[1..])
  }

  function CountOption(c: char, s: Option<string>): nat { if s.Some? then Count(c, s.value) else 0 }

  // In all names and values of a tree.
  function CountTree(c: char, t: Tree): nat
    decreases t, 1
  {
    CountOption(c, t.name) + CountBody(c, t)
  }

  // Without the name of the root.
  function CountBody(c: char, t: Tree): nat
    decreases t, 0
  {
    CountOption(c, t.value) + CountTrees(c, t.kids)
  }

  function CountTrees(c: char, kids: seq<Tree>): nat
    decreases kids
  {
    if kids == [] then 0 else CountTree(c, kids[0]) + CountTrees(c, kids[1..])
  }

  lemma {:induction false} CountAppend(c: char, a: string, b: string)
    ensures Count(c, a + b) == Count(c, a) + Count(c, b)
    decreases |a|
  {
    if a == "" {
      assert a + b == b;
    } else {
      assert (a + b)[1..] == a[1..] + b;
      CountAppend(c, a[1..], b);
    }
  }

  lemma CountMore(c: char, a: string, x: char)
    ensures Count(c, a + [x]) == Count(c, a) + if x == c then 1 else 0
  {
    CountAppend(c, a, [x]);
    assert [x][1..] == "";
    assert Count(c, [x]) == if x == c then 1 else 0;
  }

  // ----- what reading keeps

  // Reading from s up to rest puts out this many backslashes, single quotes, double quotes and NULs:
  // two backslashes read give at most one, a single quote read may get lost, and unless one gets lost no
  // double quote comes out.
  predicate Balanced(s: string, rest: string, slashes: int, singles: int, doubles: int, nuls: int) {
    && 2 * slashes + Count('\\', rest) <= Count('\\', s)
    && singles + Count('\'', rest) <= Count('\'', s)
    && (Count('\\', s) == 0 && singles + Count('\'', rest) == Count('\'', s) ==> doubles == 0)
    && nuls == 0
  }

  predicate NoneLost(s: string, rest: string) { Balanced(s, rest, 0, 0, 0, 0) }

  predicate TreeBalanced(s: string, rest: string, t: Tree) {
    Balanced(s, rest, CountTree('\\', t), CountTree('\'', t), CountTree('"', t), CountTree(NUL, t))
  }

  predicate BodyBalanced(s: string, rest: string, t: Tree) {
    Balanced(s, rest, CountBody('\\', t), CountBody('\'', t), CountBody('"', t), CountBody(NUL, t))
  }

  predicate TextBalanced(s: string, rest: string, d: string) {
    Balanced(s, rest, Count('\\', d), Count('\'', d), Count('"', d), Count(NUL, d))
  }

  lemma {:induction false} SuffixCounts(c: char, s: string, rest: string)
    requires Suffix(rest, s)
    ensures Count(c, rest) <= Count(c, s)
    decreases |s|
  {
    if |rest| < |s| {
      assert s[1..][|s| - 1 - |rest|..] == rest;
      SuffixCounts(c, s[1..], rest);
    } else {
      assert s[0..] == s;
    }
  }

  lemma SkippingKeeps(s: string, rest: string)
    requires Suffix(rest, s)
    ensures NoneLost(s, rest)
  {
    hide Suffix;
    SuffixCounts('\\', s, rest);
    SuffixCounts('\'', s, rest);
  }

  // A token, after the characters acc.  Inside single quotes a double quote may come out, but then the
  // single quote before it was lost.
  predicate TokenKeeps(s: string, quote: char, acc: string, out: string, rest: string) {
    && 2 * Count('\\', out) + Count('\\', rest) <= 2 * Count('\\', acc) + Count('\\', s)
    && Count('\'', out) + Count('\'', rest) <= Count('\'', acc) + Count('\'', s)
    && (quote != '\'' && Count('\\', s) == 0
        && Count('\'', out) + Count('\'', rest) == Count('\'', acc) + Count('\'', s)
        ==> Count('"', out) == Count('"', acc))
    && Count(NUL, out) == Count(NUL, acc)
  }

  predicate Quote(c: char) { c == NUL || c == '"' || c == '\'' }

  lemma AccMore(acc: string, c: char)
    ensures Count('\\', acc + [c]) == Count('\\', acc) + (if c == '\\' then 1 else 0)
    ensures Count('\'', acc + [c]) == Count('\'', acc) + (if c == '\'' then 1 else 0)
    ensures Count('"', acc + [c]) == Count('"', acc) + (if c == '"' then 1 else 0)
    ensures Count(NUL, acc + [c]) == Count(NUL, acc) + (if c == NUL then 1 else 0)
  {
    CountMore('\\', acc, c);
    CountMore('\'', acc, c);
    CountMore('"', acc, c);
    CountMore(NUL, acc, c);
  }

  // One turn of the token loop.
  function NextQuote(quote: char, c: char): char {
    if quote != NUL && c == quote then NUL else if quote == NUL && (c == '"' || c == '\'') then c else quote
  }

  predicate Stopping(quote: char, c: char) {
    c == NUL || (quote == NUL && (White(c) || Punctuation(c)))
  }

  lemma TokenTurn(s: string, quote: char, acc: string)
    requires Quote(quote) && |acc| < LIMIT && s != ""
    ensures var c, t := s[0], s[1..];
            TokenFrom(s, quote, acc) ==
            if NextQuote(quote, c) != quote then TokenFrom(t, NextQuote(quote, c), acc)
            else if Stopping(quote, c) then (acc, if c == NUL || White(c) then t else s)
            else if c != '\\' then TokenFrom(t, quote, acc + [c])
            else if t == "" then (acc, "")
            else if t[0] == NUL then (acc, t[1..])
            else TokenFrom(t[1..], quote, acc + [t[0]])
  {
  }

  lemma Front(s: string)
    requires s != ""
    ensures forall c :: Count(c, s) == (if s[0] == c then 1 else 0) + Count(c, s[1..])
  {
  }

  lemma {:induction false} TokenKept(s: string, quote: char, acc: string)
    requires Quote(quote)
    ensures TokenKeeps(s, quote, acc, TokenFrom(s, quote, acc).0, TokenFrom(s, quote, acc).1)
    decreases |s|
  {
    hide TokenFrom, Count, White, Punctuation;
    TokenNone(s, quote, acc);
    if s != "" && |acc| < LIMIT {
      var c, t := s[0], s[1..];
      TokenTurn(s, quote, acc);
      Front(s);
      if NextQuote(quote, c) != quote {
        TokenKept(t, NextQuote(quote, c), acc);
      } else if Stopping(quote, c) {
      } else if c != '\\' {
        AccMore(acc, c);
        TokenKept(t, quote, acc + [c]);
      } else if t != "" {
        Front(t);
        if t[0] != NUL {
          AccMore(acc, t[0]);
          TokenKept(t[1..], quote, acc + [t[0]]);
        }
      }
    }
  }

  lemma TokenNone(s: string, quote: char, acc: string)
    ensures s == "" || |acc| >= LIMIT ==> TokenFrom(s, quote, acc) == (acc, s)
    ensures forall c :: Count(c, "") == 0
  {
  }

  // ----- the parser

  lemma Composed(s: string, mid: string, rest: string, a: int, b: int, c: int, d: int, e: int, f: int, g: int, h: int)
    requires Balanced(s, mid, a, b, c, d) && Balanced(mid, rest, e, f, g, h) && a >= 0 && b >= 0 && e >= 0 && f >= 0
    ensures Balanced(s, rest, a + e, b + f, c + g, d + h)
  {
    hide Count;
  }

  lemma TokenBalanced(s: string)
    ensures GetToken(s).0.Some? ==> TextBalanced(s, GetToken(s).1, GetToken(s).0.value)
  {
    hide TokenFrom, Count, RemoveWhite;
    var (more, t) := RemoveWhite(s);
    SkippingKeeps(s, t);
    if more {
      TokenKept(t, NUL, "");
      TokenNone("", NUL, "");
      var (token, rest) := TokenFrom(t, NUL, "");
      Composed(s, t, rest, 0, 0, 0, 0, Count('\\', token), Count('\'', token), Count('"', token), Count(NUL, token));
    }
  }

  lemma SimpleBalanced(name: Option<string>, s: string)
    ensures var r := GetSimple(name, s); r.Read? ==> r.tree.name == name && BodyBalanced(s, r.rest, r.tree)
  {
    hide GetToken, Count, CountBody;
    TokenBalanced(s);
    if GetSimple(name, s).Read? {
      Childless(GetSimple(name, s).tree);
    }
  }

  lemma Childless(t: Tree)
    requires t.kids == []
    ensures CountBody('\\', t) == CountOption('\\', t.value) && CountBody('\'', t) == CountOption('\'', t.value)
    ensures CountBody('"', t) == CountOption('"', t.value) && CountBody(NUL, t) == CountOption(NUL, t.value)
  {
  }

  // Passing punctuation loses nothing, nor does giving it back.
  lemma PunctuationKeeps(s: string)
    ensures var (c, t) := GetPunctuation(s); NoneLost(s, t) && (c != NUL ==> NoneLost(s, [c] + t))
  {
    hide RemoveWhite, NoneLost;
    var (c, t) := GetPunctuation(s);
    SkippingKeeps(s, t);
    if c != NUL {
      SkippingKeeps(s, [c] + t);
    }
  }

  lemma {:induction false} ValueBalanced(name: Option<string>, s: string)
    ensures var r := GetValue(name, s); r.Read? ==> r.tree.name == name && BodyBalanced(s, r.rest, r.tree)
    decreases |s|, 0
  {
    hide GetValue, GetComplex, GetMatrix, GetSimple, GetPunctuation, Count, CountTrees;
    var (c, t) := GetPunctuation(s);
    ValueTurn(name, s, c, t);
    PunctuationKeeps(s);
    if c == '[' {
      MatrixBalanced(name, [], t);
      Passed(s, t, GetValue(name, s));
    } else if c == '{' {
      ComplexBalanced(name, [], t);
      Passed(s, t, GetValue(name, s));
    } else if c == ']' {
      BareBalanced(s, [c] + t, name);
    } else {
      SimpleBalanced(name, t);
      Passed(s, t, GetValue(name, s));
    }
  }

  lemma BareBalanced(s: string, rest: string, name: Option<string>)
    requires NoneLost(s, rest)
    ensures BodyBalanced(s, rest, Tree(name, None, []))
  {
    hide Count, CountBody;
    Childless(Tree(name, None, []));
  }

  lemma Passed(s: string, t: string, r: Parsed)
    requires NoneLost(s, t) && (r.Read? ==> BodyBalanced(t, r.rest, r.tree))
    ensures r.Read? ==> BodyBalanced(s, r.rest, r.tree)
  {
    hide Count, CountBody;
  }

  lemma {:induction false} ElementBalanced(s: string)
    ensures var r := GetElement(s); r.Read? ==> r.tree.name.Some? && TreeBalanced(s, r.rest, r.tree)
    decreases |s|, 1
  {
    hide GetValue, GetToken, GetPunctuation, Count, CountTrees;
    var (token, t) := GetToken(s);
    if token.Some? {
      TokenBalanced(s);
      PunctuationKeeps(t);
      var (c, u) := GetPunctuation(t);
      if c == ':' {
        ValueBalanced(token, u);
        Passed(t, u, GetValue(token, u));
      } else if c == '}' {
        BareBalanced(t, [c] + u, token);
      }
      var r := GetElement(s);
      if r.Read? {
        Named(s, t, r.rest, r.tree);
      }
    }
  }

  lemma Named(s: string, t: string, rest: string, tree: Tree)
    requires tree.name.Some? && TextBalanced(s, t, tree.name.value) && BodyBalanced(t, rest, tree)
    ensures TreeBalanced(s, rest, tree)
  {
    hide Count, CountBody, Balanced;
    Composed(s, t, rest, Count('\\', tree.name.value), Count('\'', tree.name.value), Count('"', tree.name.value),
             Count(NUL, tree.name.value), CountBody('\\', tree), CountBody('\'', tree), CountBody('"', tree),
             CountBody(NUL, tree));
  }

  // A child, and the children after it.
  lemma Grows(s: string, t: string, u: string, rest: string, kids: seq<Tree>, kid: Tree, tree: Tree)
    requires TreeBalanced(s, t, kid) && NoneLost(t, u)
    requires Extended(tree.name, kids + [kid], tree) && BodyBalanced(u, rest, Added(kids + [kid], tree))
    ensures Extended(tree.name, kids, tree) && BodyBalanced(s, rest, Added(kids, tree))
  {
    hide Count, CountTree, CountTrees, Balanced;
    var more := tree.kids[|kids| + 1..];
    assert tree.kids[..|kids|] == (kids + [kid])[..|kids|] == kids;
    assert tree.kids[|kids|..] == [kid] + more by { assert tree.kids[|kids|] == (kids + [kid])[|kids|]; }
    Adds(kid, more);
    Composed(s, t, u, CountTree('\\', kid), CountTree('\'', kid), CountTree('"', kid), CountTree(NUL, kid), 0, 0, 0, 0);
    Composed(s, u, rest, CountTree('\\', kid), CountTree('\'', kid), CountTree('"', kid), CountTree(NUL, kid),
             CountTrees('\\', more), CountTrees('\'', more), CountTrees('"', more), CountTrees(NUL, more));
  }

  lemma Adds(kid: Tree, more: seq<Tree>)
    ensures forall c :: CountTrees(c, [kid] + more) == CountTree(c, kid) + CountTrees(c, more)
  {
    hide CountTree;
    assert ([kid] + more)[1..] == more;
  }

  // The last child.
  lemma Closes(name: Option<string>, kids: seq<Tree>, kid: Tree, u: string)
    ensures var t := Tree(name, None, kids + [kid]);
            Extended(name, kids + [kid], t) && BodyBalanced(u, u, Added(kids + [kid], t))
  {
    hide Count, CountBody;
    assert (kids + [kid])[|kids + [kid]|..] == [];
    Childless(Added(kids + [kid], Tree(name, None, kids + [kid])));
  }

  // The loops, after the children kids: what they add is balanced.
  lemma {:induction false} ComplexBalanced(name: Option<string>, kids: seq<Tree>, s: string)
    ensures var r := GetComplex(name, kids, s);
            r.Read? ==> Extended(name, kids, r.tree) && BodyBalanced(s, r.rest, Added(kids, r.tree))
    decreases |s|, 2
  {
    hide GetElement, GetComplex, GetPunctuation, Extended, Added, TreeBalanced, BodyBalanced, NoneLost;
    var e := GetElement(s);
    LoopFails(name, kids, s);
    if e.Read? {
      ElementBalanced(s);
      PunctuationKeeps(e.rest);
      var (c, u) := GetPunctuation(e.rest);
      ComplexTurn(name, kids, s, e.tree, e.rest, c, u);
      if c == ',' {
        ComplexBalanced(name, kids + [e.tree], u);
      } else if c == '}' {
        Closes(name, kids, e.tree, u);
      }
      GrownByOne(name, kids, e.tree, s, e.rest, u, GetComplex(name, kids, s), c == ',' || c == '}');
    }
  }

  // One turn of a loop that goes on or ends.
  lemma GrownByOne(name: Option<string>, kids: seq<Tree>, kid: Tree, s: string, t: string, u: string,
                   r: Parsed, more: bool)
    requires TreeBalanced(s, t, kid) && NoneLost(t, u) && (!more ==> r == Failed)
    requires more && r.Read? ==>
               Extended(name, kids + [kid], r.tree) && BodyBalanced(u, r.rest, Added(kids + [kid], r.tree))
    ensures r.Read? ==> Extended(name, kids, r.tree) && BodyBalanced(s, r.rest, Added(kids, r.tree))
  {
    if r.Read? {
      assert r.tree.name == name;
      Grows(s, t, u, r.rest, kids, kid, r.tree);
    }
  }

  lemma {:induction false} MatrixBalanced(name: Option<string>, kids: seq<Tree>, s: string)
    ensures var r := GetMatrix(name, kids, s);
            r.Read? ==> Extended(name, kids, r.tree) && BodyBalanced(s, r.rest, Added(kids, r.tree))
    decreases |s|, 2
  {
    hide GetValue, GetMatrix, GetPunctuation, Extended, Added, TreeBalanced, BodyBalanced, NoneLost;
    var e := GetValue(None, s);
    LoopFails(name, kids, s);
    if e.Read? {
      ValueBalanced(None, s);
      Unnamed(s, e.rest, e.tree);
      PunctuationKeeps(e.rest);
      var (c, u) := GetPunctuation(e.rest);
      MatrixTurn(name, kids, s, e.tree, e.rest, c, u);
      if c == ',' {
        MatrixBalanced(name, kids + [e.tree], u);
      } else if c == ']' {
        Closes(name, kids, e.tree, u);
      }
      GrownByOne(name, kids, e.tree, s, e.rest, u, GetMatrix(name, kids, s), c == ',' || c == ']');
    }
  }

  lemma Unnamed(s: string, rest: string, t: Tree)
    requires t.name.None? && BodyBalanced(s, rest, t)
    ensures TreeBalanced(s, rest, t)
  {
    hide Count, CountBody, Balanced;
  }

  predicate Extended(name: Option<string>, kids: seq<Tree>, t: Tree) {
    t.name == name && t.value == None && |kids| <= |t.kids| && t.kids[..|kids|] == kids
  }

  function Added(kids: seq<Tree>, t: Tree): Tree
    requires |kids| <= |t.kids|
  {
    t.(kids := t.kids[|kids|..])
  }
}
