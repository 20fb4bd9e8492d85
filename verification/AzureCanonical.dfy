/** The canonical forms that cocarrier/azclient.c signs: header lines and query parameters brought
    into an order of their own. */
module AzureCanonical {
  import opened Basics
  import opened Selecting
  import opened Sorting

  // ----- strings

  function IndexOf(s: string, c: char): (i: int)
    ensures -1 <= i < |s|
    ensures i >= 0 ==> s[i] == c && c !in s[..i]
    ensures i == -1 ==> c !in s
  {
    if s == "" then -1
    else if s[0] == c then 0
    else
      var i := IndexOf(s[1..], c);
      if i == -1 then -1 else
        assert s[..i + 1] == [s[0]] + s[1..][..i];
        i + 1
  }

  // The length of the piece that strtok returns from the front of s.
  function PieceLength(s: string, sep: char): (n: nat)
    ensures n <= |s| && sep !in s[..n] && (n < |s| ==> s[n] == sep)
  {
    if s == "" || s[0] == sep then 0
    else
      var n := PieceLength(s[1..], sep);
      assert s[..n + 1] == [s[0]] + s[1..][..n];
      n + 1
  }

  // All pieces that repeated strtok calls return: the non-empty stretches between separators.
  function Pieces(s: string, sep: char): seq<string>
    decreases |s|
  {
    if s == "" then []
    else if s[0] == sep then Pieces(s[1..], sep)
    else
      var n := PieceLength(s, sep);
      [s[..n]] + Pieces(s[n..], sep)
  }

  // One strtok call on what is left of the string.
  method Strtok(s: string, at: nat, sep: char) returns (found: bool, token: string, next: nat)
    requires at <= |s|
    ensures at <= next <= |s|
    ensures found ==> at < next && Pieces(s[at..], sep) == [token] + Pieces(s[next..], sep)
    ensures !found ==> Pieces(s[at..], sep) == []
  {
    hide Pieces, PieceLength;
    var i := at;
    while i < |s| && s[i] == sep
      invariant at <= i <= |s| && Pieces(s[at..], sep) == Pieces(s[i..], sep)
    {
      PiecesSkip(s, i, sep);
      i := i + 1;
    }
    if i == |s| {
      NoPieces(sep);
      return false, "", i;
    }
    next := i;
    while next < |s| && s[next] != sep
      invariant i <= next <= |s| && PieceLength(s[i..], sep) == next - i + PieceLength(s[next..], sep)
    {
      LengthMore(s, next, sep);
      next := next + 1;
    }
    LengthEnds(s, next, sep);
    found, token := true, s[i..next];
    PiecesTake(s, i, next, sep);
  }

  lemma NoPieces(sep: char)
    ensures Pieces("", sep) == []
  {
  }

  lemma PiecesSkip(s: string, i: nat, sep: char)
    requires i < |s| && s[i] == sep
    ensures Pieces(s[i..], sep) == Pieces(s[i + 1..], sep)
  {
    assert s[i..][1..] == s[i + 1..];
  }

  lemma LengthMore(s: string, i: nat, sep: char)
    requires i < |s| && s[i] != sep
    ensures PieceLength(s[i..], sep) == 1 + PieceLength(s[i + 1..], sep)
  {
    assert s[i..][1..] == s[i + 1..];
  }

  lemma LengthEnds(s: string, i: nat, sep: char)
    requires i == |s| || (i < |s| && s[i] == sep)
    ensures PieceLength(s[i..], sep) == 0
  {
  }

  lemma PiecesTake(s: string, i: nat, next: nat, sep: char)
    requires i < next <= |s| && s[i] != sep && PieceLength(s[i..], sep) == next - i
    ensures Pieces(s[i..], sep) == [s[i..next]] + Pieces(s[next..], sep)
  {
    hide PieceLength;
    assert s[i..][..next - i] == s[i..next] && s[i..][next - i..] == s[next..];
  }

  /** The pieces are what the separators cut: nothing of an empty text, a text without separator whole, and
      what stands on both sides of a separator on its own. */
  lemma PiecesExact(a: string, b: string, sep: char)
    ensures Pieces("", sep) == []
    ensures a != "" && sep !in a ==> Pieces(a, sep) == [a]
    ensures Pieces(a + [sep] + b, sep) == Pieces(a, sep) + Pieces(b, sep)
  {
    if a != "" && sep !in a {
      WholePiece(a, sep);
    }
    PiecesSplit(a, b, sep);
  }

  lemma WholePiece(a: string, sep: char)
    requires a != "" && sep !in a
    ensures Pieces(a, sep) == [a]
  {
    var n := PieceLength(a, sep);
    assert n == |a|;
    assert a[..n] == a && a[n..] == "";
  }

  lemma {:induction false} PiecesSplit(a: string, b: string, sep: char)
    ensures Pieces(a + [sep] + b, sep) == Pieces(a, sep) + Pieces(b, sep)
    decreases |a|
  {
    hide PieceLength;
    var t := a + [sep] + b;
    if a == "" {
      assert t[0] == sep && t[1..] == b;
      PiecesSkip(t, 0, sep);
      assert t[0..] == t;
    } else if a[0] == sep {
      assert t[1..] == a[1..] + [sep] + b;
      PiecesSplit(a[1..], b, sep);
    } else {
      var n := PieceLength(a, sep);
      PieceFits(a, b, sep);
      assert t[..n] == a[..n] && t[n..] == a[n..] + [sep] + b;
      PiecesSplit(a[n..], b, sep);
      assert [a[..n]] + Pieces(a[n..], sep) + Pieces(b, sep) == [a[..n]] + (Pieces(a[n..], sep) + Pieces(b, sep));
    }
  }

  lemma {:induction false} PieceFits(a: string, b: string, sep: char)
    ensures PieceLength(a + [sep] + b, sep) == PieceLength(a, sep)
    ensures a != "" && a[0] != sep ==> PieceLength(a, sep) > 0
    decreases |a|
  {
    var t := a + [sep] + b;
    if a != "" && a[0] != sep {
      assert t[1..] == a[1..] + [sep] + b;
      PieceFits(a[1..], b, sep);
    }
  }

  // str_sub with end at the terminator: a copy of the rest of the string.  Its callers must not pass
  // an empty range, because then nothing is copied.
  function StrSubFrom(s: string, start: nat): string
    requires start < |s|
  {
    s[start..]
  }

  // str_sub of the characters before position end, at least two of them.
  function StrSubTo(s: string, end: nat): string
    requires 2 <= end <= |s|
  {
    s[..end]
  }

  // ----- headers

  // A header value as the string functions see it after the first line break was overwritten.
  function Cut(v: string): string {
    if v == "" then ""
    else if |v| > 1 && v[0] == '\r' && v[1] == '\n' then ""
    else [v[0]] + Cut(v[1..])
  }

  lemma CutTurn(v: string)
    ensures v == "" ==> Cut(v) == ""
    ensures "\r\n" <= v ==> Cut(v) == "" && v[0..] == v
    ensures v != "" && !("\r\n" <= v) ==> Cut(v) == [v[0]] + Cut(v[1..])
    ensures "\r\n" <= v <==> |v| > 1 && v[0] == '\r' && v[1] == '\n'
  {
    if |v| > 1 {
      assert v[..2] == [v[0], v[1]];
    }
  }

  /** The value is cut at its first line break, carriage return and line feed together. */
  lemma {:induction false} CutExact(v: string)
    ensures Cut(v) <= v && (Cut(v) == v || "\r\n" <= v[|Cut(v)|..])
    ensures forall i | 0 <= i < |Cut(v)| :: !("\r\n" <= v[i..])
  {
    CutTurn(v);
    if v != "" && !("\r\n" <= v) {
      CutExact(v[1..]);
      forall i | 0 <= i < |Cut(v)|
        ensures !("\r\n" <= v[i..])
      {
        if i == 0 {
          assert v[0..] == v;
        } else {
          assert v[i..] == v[1..][i - 1..];
        }
      }
    }
  }

  lemma CutAt(v: string, i: nat)
    requires i < |v|
    ensures if i + 1 < |v| && v[i] == '\r' && v[i + 1] == '\n' then v[..i] + Cut(v[i..]) == v[..i]
            else v[..i] + Cut(v[i..]) == v[..i + 1] + Cut(v[i + 1..])
  {
    hide Cut;
    CutTurn(v[i..]);
    assert v[i..][1..] == v[i + 1..];
    assert v[..i + 1] == v[..i] + [v[i]];
  }

  datatype Pair = Pair(name: string, value: string)

  // The line of a header, if it is one of those that are signed.
  function LineOf(selected: string -> bool): Pair -> Option<string> {
    (h: Pair) => if selected(h.name) then Some(h.name + ":" + Cut(h.value)) else None
  }

  function HeaderLines(headers: seq<Pair>, selected: string -> bool): seq<string> {
    Select(headers, LineOf(selected))
  }

  function EndLines(lines: seq<string>): string {
    if lines == [] then "" else EndLines(lines[..|lines| - 1]) + lines[|lines| - 1] + "\n"
  }

  /** What is signed for the headers. */
  function HeaderText(headers: seq<Pair>, selected: string -> bool): string {
    EndLines(Sort(HeaderLines(headers, selected)))
  }

  /** One signed header alone gives its line; the lines of several follow one another. */
  lemma HeaderAlone(name: string, value: string, selected: string -> bool)
    requires selected(name)
    ensures HeaderText([Pair(name, value)], selected) == name + ":" + Cut(value) + "\n"
  {
    hide Cut;
    var h, f := Pair(name, value), LineOf(selected);
    var line := name + ":" + Cut(value);
    assert [h][..0] == [] && Select([], f) == [];
    assert HeaderLines([h], selected) == [line];
    assert [line][1..] == [] && Sort([]) == [];
    assert Sort([line]) == [line];
    assert [line][..0] == [] && EndLines([]) == "";
  }

  lemma {:induction false} EndLinesAppend(a: seq<string>, b: seq<string>)
    ensures EndLines(a + b) == EndLines(a) + EndLines(b)
    decreases |b|
  {
    if b == [] {
      assert a + b == a;
    } else {
      var n := |b| - 1;
      assert (a + b)[..|a + b| - 1] == a + b[..n];
      EndLinesAppend(a, b[..n]);
      assert EndLines(a) + EndLines(b[..n]) + b[n] + "\n" == EndLines(a) + (EndLines(b[..n]) + b[n] + "\n");
    }
  }

  class RestHeader {
    const name: string
    var value: string

    constructor (n: string, v: string)
    {
      name, value := n, v;
    }

    // The loop that ends the value at its first line break.
    method CutValue()
      modifies this
      ensures value == Cut(old(value))
    {
      hide Cut;
      var i := 0;
      ghost var v := value;
      assert v[0..] == v;
      while i < |value|
        invariant 0 <= i <= |value| && value == v && v[..i] + Cut(v[i..]) == Cut(v)
      {
        CutAt(v, i);
        if value[i] == '\r' && i + 1 < |value| && value[i + 1] == '\n' {
          value := value[..i];
          return;
        }
        i := i + 1;
      }
      assert v[i..] == "";
      CutTurn("");
    }
  }

  ghost function Snapshot(headers: seq<RestHeader>): seq<Pair>
    reads headers
  {
    seq(|headers|, i requires 0 <= i < |headers| reads headers => Pair(headers[i].name, headers[i].value))
  }

  // The selected headers, each put in front of the list.
  method CollectHeaders(headers: seq<RestHeader>, selected: string -> bool) returns (list: seq<string>)
    requires forall i, j :: 0 <= i < j < |headers| ==> headers[i] != headers[j]
    modifies headers
    ensures multiset(list) == multiset(HeaderLines(old(Snapshot(headers)), selected))
  {
    hide Cut, Select;
    ghost var was := Snapshot(headers);
    list := [];
    var k := 0;
    SelectNone(LineOf(selected));
    while k < |headers|
      invariant 0 <= k <= |headers|
      invariant forall i :: k <= i < |headers| ==> headers[i].value == was[i].value
      invariant multiset(list) == multiset(HeaderLines(was[..k], selected))
    {
      var h := headers[k];
      SelectStep(was, k, LineOf(selected));
      if selected(h.name) {
        h.CutValue();
        ghost var before := list;
        list := [h.name + ":" + h.value] + list;
        assert multiset(list) == multiset(before) + multiset{h.name + ":" + h.value};
      }
      k := k + 1;
    }
    assert was[..k] == was;
  }

  // The table of lines, sorted and joined behind a blank that is then cut off.
  method JoinSorted(list: seq<string>) returns (text: string)
    requires list != []
    ensures text == EndLines(Sort(list))
  {
    hide Sort;
    SortSorts(list);
    var tabstr := new string[|list|](i requires 0 <= i < |list| => list[i]);
    assert tabstr[..] == list;
    TriIteratif(tabstr);
    var all := " ";
    var l := 0;
    while l < tabstr.Length
      invariant 0 <= l <= tabstr.Length && all == " " + EndLines(tabstr[..l])
    {
      assert tabstr[..l + 1][..l] == tabstr[..l];
      all := all + (tabstr[l] + "\n");
      l := l + 1;
    }
    assert tabstr[..l] == tabstr[..];
    text := StrSubFrom(all, 1);
  }

  // getCanonicalizedHeaders; `selected` is the test on the header name.
  method CanonicalizedHeaders(headers: seq<RestHeader>, selected: string -> bool) returns (text: string)
    requires forall i, j :: 0 <= i < j < |headers| ==> headers[i] != headers[j]
    requires exists i :: 0 <= i < |headers| && selected(headers[i].name)
    modifies headers
    ensures text == HeaderText(old(Snapshot(headers)), selected)
  {
    hide Sort;
    ghost var was := Snapshot(headers);
    var list := CollectHeaders(headers, selected);
    var i :| 0 <= i < |headers| && selected(headers[i].name);
    assert was[i].name == headers[i].name;
    SelectNonEmpty(was, LineOf(selected), i);
    assert LineOf(selected)(was[i]).value in multiset(HeaderLines(was, selected));
    SortOrderFree(list, HeaderLines(was, selected));
    text := JoinSorted(list);
  }

  /** Reordering the headers does not change what is signed. */
  lemma HeaderOrderFree(a: seq<Pair>, b: seq<Pair>, selected: string -> bool)
    requires multiset(a) == multiset(b)
    ensures HeaderText(a, selected) == HeaderText(b, selected)
  {
    SelectOrderFree(a, b, LineOf(selected));
    SortOrderFree(HeaderLines(a, selected), HeaderLines(b, selected));
  }
}
