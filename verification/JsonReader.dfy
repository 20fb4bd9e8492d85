/** The character and token level of cocarrier/json.c: a file with one character of pushback. */
module JsonReader {
  import opened Basics
  import opened JsonText

  lemma OneWhite(s: string)
    ensures s == "" ==> RemoveWhite(s) == (false, "")
    ensures s != "" && s[0] == NUL ==> RemoveWhite(s) == (false, s[1..])
    ensures s != "" && s[0] != NUL && White(s[0]) ==> RemoveWhite(s) == RemoveWhite(s[1..])
    ensures s != "" && !White(s[0]) ==> RemoveWhite(s) == (true, s)
  {
  }

  class Reader {
    var file: string
    var pos: nat
    var ungotc: char    // NUL when nothing is pushed back

    ghost predicate Valid()
      reads this
    {
      pos <= |file|
    }

    // What the parser has still to read.
    ghost function Pending(): string
      reads this
      requires Valid()
    {
      (if ungotc != NUL then [ungotc] else []) + file[pos..]
    }

    // json_initialise
    constructor (text: string)
      ensures Valid() && Pending() == text
    {
      file, pos, ungotc := text, 0, NUL;
    }

    // json_ungetch: the slot must be free, so that no character is lost.
    method Ungetch(c: char)
      requires Valid() && ungotc == NUL && c != NUL
      modifies this
      ensures Valid() && file == old(file) && Pending() == [c] + old(Pending())
    {
      ungotc := c;
    }

    // json_getch
    method Getch() returns (c: char)
      requires Valid()
      modifies this
      ensures Valid() && ungotc == NUL && file == old(file)
      ensures (c, Pending()) == JsonText.Getch(old(Pending()))
    {
      ghost var before := Pending();
      c := ungotc;
      if c != NUL {
        ungotc := NUL;
        assert Pending() == file[pos..] == before[1..];
      } else if pos < |file| {
        c := file[pos];
        pos := pos + 1;
        assert before[1..] == file[pos..] == Pending();
      }
    }

    // json_remove_white
    method RemoveWhite() returns (more: bool)
      requires Valid()
      modifies this
      ensures Valid() && file == old(file)
      ensures (more, Pending()) == JsonText.RemoveWhite(old(Pending()))
    {
      hide Pending, JsonText.RemoveWhite;
      while true
        invariant Valid() && file == old(file)
        invariant JsonText.RemoveWhite(old(Pending())) == JsonText.RemoveWhite(Pending())
        decreases |Pending()|
      {
        ghost var before := Pending();
        OneWhite(before);
        var c := Getch();
        if c == ' ' || c == '\n' || c == '\r' || c == '\t' {
          continue;
        }
        if c == NUL {
          return false;
        }
        Ungetch(c);
        assert Pending() == before;
        return true;
      }
    }

    // json_get_punctuation
    method Punctuation() returns (c: char)
      requires Valid()
      modifies this
      ensures Valid() && file == old(file) && (c != NUL ==> ungotc == NUL)
      ensures (c, Pending()) == GetPunctuation(old(Pending()))
    {
      hide Pending;
      var more := RemoveWhite();
      if !more {
        return NUL;
      }
      ghost var before := Pending();
      c := Getch();
      if JsonText.Punctuation(c) {
        return c;
      }
      Ungetch(c);
      assert Pending() == before;
      return NUL;
    }

    // json_get_token
    method Token() returns (token: Option<string>)
      requires Valid()
      modifies this
      ensures Valid() && file == old(file)
      ensures (token, Pending()) == GetToken(old(Pending()))
    {
      hide Pending;
      var more := RemoveWhite();
      if !more {
        return None;
      }
      var buffer, quoting := "", NUL;
      ghost var start := Pending();
      while |buffer| < LIMIT
        invariant Valid() && file == old(file)
        invariant TokenFrom(start, NUL, "") == TokenFrom(Pending(), quoting, buffer)
        invariant quoting == NUL || quoting == '"' || quoting == '\''
        decreases |Pending()|
      {
        ghost var before := Pending();
        var c := Getch();
        if c == NUL {
          break;
        } else if quoting != NUL {
          if c != quoting {
            if c == '\\' {
              c := Getch();
              if c == NUL {
                break;
              }
            }
            buffer := buffer + [c];
          } else {
            quoting := NUL;
          }
        } else if c == '"' {
          quoting := c;
        } else if c == '\'' {
          quoting := c;
        } else if White(c) {
          break;
        } else if JsonText.Punctuation(c) {
          Ungetch(c);
          assert Pending() == before;
          break;
        } else {
          if c == '\\' {
            c := Getch();
            if c == NUL {
              break;
            }
          }
          buffer := buffer + [c];
        }
      }
      return Some(buffer);
    }
  }
}
