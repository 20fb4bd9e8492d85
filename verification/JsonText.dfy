/** The text side of cocarrier/json.c: which trees the parser reads from which characters.  Every
    function takes the pending input (the pushed-back character, if any, and the rest of the file)
    and returns what is pending afterwards. */
module JsonText {
  import opened Basics

  /** What a struct data_element stands for, without its links. */
  datatype Tree = Tree(name: Option<string>, value: Option<string>, kids: seq<Tree>)

  datatype Parsed = Failed | Read(tree: Tree, rest: string)

  const LIMIT: nat := 16000    // capacity of the token buffer

  predicate White(c: char) { c == ' ' || c == '\n' || c == '\r' || c == '\t' || c == NUL }

  predicate Punctuation(c: char) { c == '{' || c == '}' || c == '[' || c == ']' || c == ':' || c == ',' }

  // t is what is left of s after reading from its front.
  ghost predicate Suffix(t: string, s: string) {
    |t| <= |s| && s[|s| - |t|..] == t
  }

  // ----- reading

  // json_getch: NUL at the end of the file.  A NUL in the file is read and looks like the end.
  function Getch(s: string): (r: (char, string))
    ensures Suffix(r.1, s)
  {
    if s == "" then (NUL, "") else (s[0], s[1..])
  }

  // json_remove_white: whether a character is left to read.
  function RemoveWhite(s: string): (r: (bool, string))
    ensures Suffix(r.1, s)
    ensures r.0 ==> r.1 != "" && !White(r.1[0])
  {
    if s == "" then (false, "")
    else if s[0] == NUL then (false, s[1..])
    else if White(s[0]) then RemoveWhite(s[1..])
    else (true, s)
  }

  // json_get_punctuation: NUL when the next character is not punctuation, or there is none.
  function GetPunctuation(s: string): (r: (char, string))
    ensures Suffix(r.1, s)
    ensures r.0 != NUL ==> Punctuation(r.0) && |r.1| < |s| && Suffix([r.0] + r.1, s)
  {
    var (more, t) := RemoveWhite(s);
    if more && Punctuation(t[0]) then (t[0], t[1..]) else (NUL, t)
  }

  // The loop of json_get_token; quote is the open quotation mark or NUL.
  function TokenFrom(s: string, quote: char, acc: string): (r: (string, string))
    ensures Suffix(r.1, s)
    ensures |acc| <= |r.0| && r.0[..|acc|] == acc
    decreases |s|
  {
    if |acc| >= LIMIT || s == "" then (acc, s)
    else
      var c, t := s[0], s[1..];
      if c == NUL then (acc, t)
      else if quote != NUL && c == quote then TokenFrom(t, NUL, acc)
      else if quote == NUL && (c == '"' || c == '\'') then TokenFrom(t, c, acc)
      else if quote == NUL && White(c) then (acc, t)
      else if quote == NUL && Punctuation(c) then (acc, s)
      else if c == '\\' then
        if t == "" then (acc, "")
        else if t[0] == NUL then (acc, t[1..])
        else TokenFrom(t[1..], quote, acc + [t[0]])
      else TokenFrom(t, quote, acc + [c])
  }

  // json_get_token
  function GetToken(s: string): (r: (Option<string>, string))
    ensures Suffix(r.1, s)
  {
    var (more, t) := RemoveWhite(s);
    if !more then (None, t)
    else
      var (token, rest) := TokenFrom(t, NUL, "");
      (Some(token), rest)
  }

  // ----- parsing

  // json_get_value, for an element that already has its name.
  function GetValue(name: Option<string>, s: string): (r: Parsed)
    ensures r.Read? ==> Suffix(r.rest, s)
    decreases |s|, 0
  {
    var (c, t) := GetPunctuation(s);
    if c == ']' then Read(Tree(name, None, []), [c] + t)
    else if c == '[' then GetMatrix(name, [], t)
    else if c == '{' then GetComplex(name, [], t)
    else GetSimple(name, t)
  }

  // The last case of json_get_value: the value is a token.
  function GetSimple(name: Option<string>, s: string): (r: Parsed)
    ensures r.Read? ==> Suffix(r.rest, s)
  {
    match GetToken(s)
    case (None, _) => Failed
    case (Some(v), rest) => Read(Tree(name, Some(v), []), rest)
  }

  // json_get_element
  function GetElement(s: string): (r: Parsed)
    ensures r.Read? ==> Suffix(r.rest, s)
    decreases |s|, 1
  {
    match GetToken(s)
    case (None, _) => Failed
    case (Some(name), t) =>
      var (c, u) := GetPunctuation(t);
      if c == '}' then Read(Tree(Some(name), None, []), [c] + u)
      else if c != ':' then Failed
      else GetValue(Some(name), u)
  }

  // The loop of json_get_complex, after the children kids.
  function GetComplex(name: Option<string>, kids: seq<Tree>, s: string): (r: Parsed)
    ensures r.Read? ==> Suffix(r.rest, s)
    decreases |s|, 2
  {
    match GetElement(s)
    case Failed => Failed
    case Read(kid, t) =>
      var (c, u) := GetPunctuation(t);
      if c == ',' then GetComplex(name, kids + [kid], u)
      else if c == '}' then Read(Tree(name, None, kids + [kid]), u)
      else Failed
  }

  // The loop of json_get_matrix, after the children kids.
  function GetMatrix(name: Option<string>, kids: seq<Tree>, s: string): (r: Parsed)
    ensures r.Read? ==> Suffix(r.rest, s)
    decreases |s|, 2
  {
    match GetValue(None, s)
    case Failed => Failed
    case Read(kid, t) =>
      var (c, u) := GetPunctuation(t);
      if c == ',' then GetMatrix(name, kids + [kid], u)
      else if c == ']' then Read(Tree(name, None, kids + [kid]), u)
      else Failed
  }

  // One turn of each parser loop, when what it reads is known.
  lemma ComplexTurn(name: Option<string>, kids: seq<Tree>, s: string, kid: Tree, t: string, c: char, u: string)
    requires GetElement(s) == Read(kid, t) && GetPunctuation(t) == (c, u)
    ensures c == ',' ==> GetComplex(name, kids, s) == GetComplex(name, kids + [kid], u)
    ensures c == '}' ==> GetComplex(name, kids, s) == Read(Tree(name, None, kids + [kid]), u)
    ensures c != ',' && c != '}' ==> GetComplex(name, kids, s) == Failed
  {
    hide GetElement, GetPunctuation;
  }

  lemma LoopFails(name: Option<string>, kids: seq<Tree>, s: string)
    ensures GetElement(s) == Failed ==> GetComplex(name, kids, s) == Failed
    ensures GetValue(None, s) == Failed ==> GetMatrix(name, kids, s) == Failed
  {
    hide GetElement, GetValue;
  }

  lemma MatrixTurn(name: Option<string>, kids: seq<Tree>, s: string, kid: Tree, t: string, c: char, u: string)
    requires GetValue(None, s) == Read(kid, t) && GetPunctuation(t) == (c, u)
    ensures c == ',' ==> GetMatrix(name, kids, s) == GetMatrix(name, kids + [kid], u)
    ensures c == ']' ==> GetMatrix(name, kids, s) == Read(Tree(name, None, kids + [kid]), u)
    ensures c != ',' && c != ']' ==> GetMatrix(name, kids, s) == Failed
  {
    hide GetValue, GetPunctuation;
  }

  lemma ValueTurn(name: Option<string>, s: string, c: char, t: string)
    requires GetPunctuation(s) == (c, t)
    ensures c == '{' ==> GetValue(name, s) == GetComplex(name, [], t)
    ensures c == '[' ==> GetValue(name, s) == GetMatrix(name, [], t)
    ensures c == ']' ==> GetValue(name, s) == Read(Tree(name, None, []), [c] + t)
    ensures c != '{' && c != '[' && c != ']' ==> GetValue(name, s) == GetSimple(name, t)
  {
    hide GetComplex, GetMatrix, GetPunctuation, GetSimple;
  }

  // json_parse_file on a file with text s: the root is named after the file.
  function ParseFile(filename: string, s: string): Parsed {
    var (c, t) := GetPunctuation(s);
    if c == '[' then GetMatrix(Some(filename), [], t)
    else if c == '{' then GetComplex(Some(filename), [], t)
    else Failed
  }
}
