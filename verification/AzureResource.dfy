/** getCanonicalizedResource of cocarrier/azclient.c: the path, then one line for every query
    parameter with its values. */
module AzureResource {
  import opened Basics
  import opened Selecting
  import opened Sorting
  import opened AzureCanonical

  // ----- what the code computes

  // The pieces between '=' signs of all tokens, one after the other.
  function Fields(tokens: seq<string>): seq<string> {
    if tokens == [] then []
    else Fields(tokens[..|tokens| - 1]) + Pieces(tokens[|tokens| - 1], '=')
  }

  // Fields go by turns to the parameters and to the values.
  function Params(fields: seq<string>): (p: seq<string>)
    ensures |p| == (|fields| + 1) / 2
  {
    seq((|fields| + 1) / 2, i requires 0 <= i < (|fields| + 1) / 2 => fields[2 * i])
  }

  function Values(fields: seq<string>): (v: seq<string>)
    ensures |v| == |fields| / 2
  {
    seq(|fields| / 2, i requires 0 <= i < |fields| / 2 => fields[2 * i + 1])
  }

  // The text after k parameters: a parameter that repeats the one before it only adds its value.
  function Render(ps: seq<string>, vs: seq<string>, k: nat): string
    requires k <= |ps| == |vs|
  {
    if k == 0 then ""
    else if k == 1 then ps[0] + ":" + vs[0]
    else if ps[k - 1] == ps[k - 2] then Render(ps, vs, k - 1) + "," + vs[k - 1]
    else Render(ps, vs, k - 1) + "\n" + ps[k - 1] + ":" + vs[k - 1]
  }

  function Query(uri: string): string
    requires IndexOf(uri, '?') >= 0
  {
    uri[IndexOf(uri, '?') + 1..]
  }

  // The inputs on which the code does not run into an empty copy, an unset buffer or a missing value.
  ghost predicate Usable(uri: string) {
    var i := IndexOf(uri, '?');
    i >= 0 ==>
      && i != 1
      && Query(uri) != ""
      && var fields := Fields(Sort(Pieces(Query(uri), '&')));
      fields != [] && |fields| % 2 == 0
  }

  function Head(uri: string, account: string): string
    requires IndexOf(uri, '?') != 1
  {
    var i := IndexOf(uri, '?');
    "/" + account + "/" + if i > 0 then StrSubTo(uri, i) else if i == 0 then "" else uri
  }

  /** What is signed for the resource. */
  function ResourceText(uri: string, account: string): string
    requires Usable(uri)
  {
    if IndexOf(uri, '?') == -1 then Head(uri, account)
    else
      var fields := Fields(Sort(Pieces(Query(uri), '&')));
      Head(uri, account) + "\n" + Render(Params(fields), Values(fields), |fields| / 2)
  }

  // ----- the function

  method Tokenize(s: string, sep: char) returns (list: seq<string>)
    ensures list == Pieces(s, sep)
  {
    list := [];
    var at := 0;
    assert s[0..] == s;
    var found, token, next := Strtok(s, at, sep);
    while found
      invariant at <= next <= |s| && list + Pieces(s[at..], sep) == Pieces(s, sep)
      invariant found ==> at < next && Pieces(s[at..], sep) == [token] + Pieces(s[next..], sep)
      invariant !found ==> Pieces(s[at..], sep) == []
      decreases |s| - at, found
    {
      list := list + [token];
      at := next;
      found, token, next := Strtok(s, at, sep);
    }
  }

  // The '=' pieces of every token, dealt out by the switch j, which is never reset.
  method Deal(tokens: seq<string>) returns (params: seq<string>, values: seq<string>)
    ensures params == Params(Fields(tokens)) && values == Values(Fields(tokens))
  {
    params, values := [], [];
    var j := 0;
    var k := 0;
    ghost var fields: seq<string> := [];
    while k < |tokens|
      invariant 0 <= k <= |tokens| && fields == Fields(tokens[..k])
      invariant params == Params(fields) && values == Values(fields) && j == |fields| % 2
    {
      assert tokens[..k + 1][..k] == tokens[..k];
      var pieces := Tokenize(tokens[k], '=');
      var i := 0;
      ghost var before := fields;
      while i < |pieces|
        invariant 0 <= i <= |pieces| && fields == before + pieces[..i]
        invariant params == Params(fields) && values == Values(fields) && j == |fields| % 2
      {
        if j == 0 {
          params := params + [pieces[i]];
          j := 1;
        } else {
          values := values + [pieces[i]];
          j := 0;
        }
        fields := fields + [pieces[i]];
        i := i + 1;
      }
      assert pieces[..i] == pieces;
      k := k + 1;
    }
    assert tokens[..k] == tokens;
  }

  method RenderAll(params: seq<string>, values: seq<string>) returns (text: string)
    requires |params| == |values| > 0
    ensures text == Render(params, values, |params|)
  {
    var valpp := params[0];
    var fst, fs := 0, 0;
    var k := 0;
    text := "";
    while k < |params|
      invariant 0 <= k <= |params| && text == Render(params, values, k)
      invariant fst == fs == (if k == 0 then 0 else 1)
      invariant k > 0 ==> valpp == params[k - 1]
    {
      if params[k] == valpp && fs == 1 {
        text := text + "," + values[k];
      } else if fst == 0 {
        text := params[k] + ":" + values[k];
        fst, fs := 1, 1;
      } else {
        text := text + "\n" + params[k] + ":" + values[k];
      }
      valpp := params[k];
      k := k + 1;
    }
  }

  method CanonicalizedResource(uri: string, account: string) returns (text: string)
    requires Usable(uri)
    ensures text == ResourceText(uri, account)
  {
    hide Sort, Render, Fields, Pieces, IndexOf, Params, Values;
    var i := IndexOf(uri, '?');
    var urif := "/" + account + "/";
    if i > 0 {
      urif := "/" + account + "/" + StrSubTo(uri, i);
    } else if i != 0 {
      return "/" + account + "/" + uri;
    }
    var urip := StrSubFrom(uri, i + 1);
    var list := Tokenize(urip, '&');
    var tabstr := new string[|list|](k requires 0 <= k < |list| => list[k]);
    assert tabstr[..] == list;
    TriIteratif(tabstr);
    var params, values := Deal(tabstr[..]);
    var uripp := RenderAll(params, values);
    text := urif + "\n" + uripp;
  }
}
