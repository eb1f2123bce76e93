/** Label values of the metrics text: escaping in three passes, and reading them back. */
module Labels {

  import opened Text

  /** `s.replace(c, with)` for a single character. */
  function Replace(s: string, c: char, with: string): string {
    if s == "" then "" else (if s[0] == c then with else [s[0]]) + Replace(s[1..], c, with)
  }

  /** `_escape`. */
  function Escape(s: string): string {
    Replace(Replace(Replace(s, '\\', "\\\\"), '\n', "\\n"), '"', "\\\"")
  }

  function EscapeChar(c: char): string {
    if c == '\\' then "\\\\" else if c == '\n' then "\\n" else if c == '"' then "\\\"" else [c]
  }

  datatype Label = NoLabel | Label(value: string, rest: string)

  function Behind(c: char, l: Label): Label {
    match l case NoLabel => NoLabel case Label(value, rest) => Label([c] + value, rest)
  }

  /** Reads an escaped value up to its closing quote. */
  function ReadLabel(s: string): Label {
    if s == "" || s[0] == '\n' then NoLabel
    else if s[0] == '"' then Label("", s[1..])
    else if s[0] == '\\' then
      if |s| == 1 then NoLabel
      else if s[1] == '\\' then Behind('\\', ReadLabel(s[2..]))
      else if s[1] == 'n' then Behind('\n', ReadLabel(s[2..]))
      else if s[1] == '"' then Behind('"', ReadLabel(s[2..]))
      else NoLabel
    else Behind(s[0], ReadLabel(s[1..]))
  }

  lemma {:induction false} ReplaceAppend(a: string, b: string, c: char, with: string)
    ensures Replace(a + b, c, with) == Replace(a, c, with) + Replace(b, c, with)
  {
    if a == "" {
      assert a + b == b;
    } else {
      ReplaceAppend(a[1..], b, c, with);
      assert (a + b)[0] == a[0] && (a + b)[1..] == a[1..] + b;
      var head, left, right := if a[0] == c then with else [a[0]], Replace(a[1..], c, with), Replace(b, c, with);
      assert head + (left + right) == (head + left) + right;
    }
  }

  lemma ReplaceChars(c: char, with: string, d: char, e: char)
    ensures Replace([d], c, with) == if d == c then with else [d]
    ensures Replace([d, e], c, with) == (if d == c then with else [d]) + (if e == c then with else [e])
  {
    assert [d][1..] == "";
    assert [d, e][1..] == [e] && [e][1..] == "";
  }

  /** The three passes are one left-to-right map over the characters. */
  lemma EscapeIsOnePass(s: string)
    ensures s == "" ==> Escape(s) == ""
    ensures s != "" ==> Escape(s) == EscapeChar(s[0]) + Escape(s[1..])
  {
    if s != "" {
      var c := s[0];
      var first := if c == '\\' then "\\\\" else [c];
      var second := if c == '\n' then "\\n" else first;
      var r1, r2 := Replace(s[1..], '\\', "\\\\"), Replace(Replace(s[1..], '\\', "\\\\"), '\n', "\\n");
      ReplaceAppend(first, r1, '\n', "\\n");
      ReplaceChars('\n', "\\n", first[0], '\\');
      assert Replace(first, '\n', "\\n") == second;
      ReplaceAppend(second, r2, '"', "\\\"");
      ReplaceChars('"', "\\\"", second[0], if |second| == 2 then second[1] else 'x');
      assert Replace(second, '"', "\\\"") == EscapeChar(c);
    }
  }

  /** The characters that are escaped, and how. */
  lemma EscapeMeaning(s: string)
    requires s != ""
    ensures s[0] == '\\' ==> Escape(s) == "\\\\" + Escape(s[1..])
    ensures s[0] == '\n' ==> Escape(s) == "\\n" + Escape(s[1..])
    ensures s[0] == '"' ==> Escape(s) == "\\\"" + Escape(s[1..])
    ensures s[0] != '\\' && s[0] != '\n' && s[0] != '"' ==> Escape(s) == [s[0]] + Escape(s[1..])
  {
    EscapeIsOnePass(s);
  }

  /** An escaped value is read back, whatever follows its closing quote. */
  lemma {:induction false} ReadEscaped(v: string, rest: string)
    ensures ReadLabel(Escape(v) + "\"" + rest) == Label(v, rest)
    ensures '\n' !in Escape(v)
  {
    EscapeIsOnePass(v);
    var s := Escape(v) + "\"" + rest;
    if v == "" {
      assert s[1..] == rest;
    } else {
      ReadEscaped(v[1..], rest);
      var t := Escape(v[1..]) + "\"" + rest;
      assert s == EscapeChar(v[0]) + t;
      ReadOne(v[0], t);
      assert v == [v[0]] + v[1..];
    }
  }

  lemma ReadOne(c: char, t: string)
    ensures ReadLabel(EscapeChar(c) + t) == Behind(c, ReadLabel(t))
    ensures '\n' !in EscapeChar(c)
  {
    var s := EscapeChar(c) + t;
    if |EscapeChar(c)| == 2 { assert s[2..] == t; } else { assert s[1..] == t; }
  }

  lemma EscapeBehind(c: char, w: string, rest: string, t: string)
    requires t == Escape(w) + "\"" + rest
    ensures EscapeChar(c) + t == Escape([c] + w) + "\"" + rest
  {
    EscapeIsOnePass([c] + w);
    assert ([c] + w)[1..] == w;
  }

  /** And only escaped values are read: the reader is the exact inverse of the printer. */
  lemma {:induction false} ReadOnlyEscaped(s: string)
    ensures ReadLabel(s).Label? ==> s == Escape(ReadLabel(s).value) + "\"" + ReadLabel(s).rest
    decreases |s|
  {
    if ReadLabel(s).Label? {
      if s[0] == '"' {
        EscapeIsOnePass("");
        assert s == "\"" + s[1..];
      } else {
        var n := if s[0] == '\\' then 2 else 1;
        var c := if s[0] != '\\' then s[0] else if s[1] == 'n' then '\n' else s[1];
        ReadOnlyEscaped(s[n..]);
        assert s == EscapeChar(c) + s[n..];
        EscapeBehind(c, ReadLabel(s[n..]).value, ReadLabel(s[n..]).rest, s[n..]);
      }
    }
  }
}
