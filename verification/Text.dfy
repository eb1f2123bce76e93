/** Splitting at a separator, and decimal integers as Python prints and reads them. */
module Text {

  import opened Options

  // ---------------------------------------------------------------- splitting

  datatype Halves = Whole | Cut(before: string, after: string)

  /** Cuts at the first separator. */
  function CutAt(s: string, sep: char): Halves {
    if s == "" then Whole
    else if s[0] == sep then Cut("", s[1..])
    else match CutAt(s[1..], sep)
      case Whole => Whole
      case Cut(before, after) => Cut([s[0]] + before, after)
  }

  lemma {:induction false} CutMeaning(s: string, sep: char)
    ensures CutAt(s, sep).Whole? <==> sep !in s
    ensures CutAt(s, sep).Cut? ==>
              var c := CutAt(s, sep); sep !in c.before && s == c.before + [sep] + c.after
  {
    if s != "" {
      var head, tail := s[0], s[1..];
      assert s == [head] + tail;
      if head == sep {
        assert s == "" + [sep] + tail;
      } else {
        CutMeaning(tail, sep);
        match CutAt(tail, sep)
        case Whole =>
        case Cut(before, after) =>
          assert CutAt(s, sep) == Cut([head] + before, after);
          assert [head] + (before + [sep] + after) == ([head] + before) + [sep] + after;
      }
    }
  }

  lemma {:induction false} CutFinds(before: string, sep: char, after: string)
    requires sep !in before
    ensures CutAt(before + [sep] + after, sep) == Cut(before, after)
  {
    var s := before + [sep] + after;
    if before == "" {
      assert s[1..] == after;
    } else {
      CutFinds(before[1..], sep, after);
      assert s[1..] == before[1..] + [sep] + after;
    }
  }

  /** `s.split(sep, limit)`: at most `limit` cuts, from the left. */
  function Split(s: string, sep: char, limit: nat): (r: seq<string>)
    ensures 1 <= |r| <= limit + 1
    decreases limit
  {
    if limit == 0 then [s] else
      match CutAt(s, sep)
      case Whole => [s]
      case Cut(before, after) => [before] + Split(after, sep, limit - 1)
  }

  function Join(parts: seq<string>, sep: char): string
    requires parts != []
  {
    if |parts| == 1 then parts[0] else parts[0] + [sep] + Join(parts[1..], sep)
  }

  lemma {:induction false} JoinOfSplit(s: string, sep: char, limit: nat)
    ensures Join(Split(s, sep, limit), sep) == s
    decreases limit
  {
    CutMeaning(s, sep);
    if limit > 0 && CutAt(s, sep).Cut? {
      var c := CutAt(s, sep);
      JoinOfSplit(c.after, sep, limit - 1);
      JoinBehind(c.before, Split(c.after, sep, limit - 1), sep);
    }
  }

  lemma {:induction false} SplitParts(s: string, sep: char, limit: nat)
    ensures forall i :: 0 <= i < |Split(s, sep, limit)| - 1 ==> sep !in Split(s, sep, limit)[i]
    ensures |Split(s, sep, limit)| <= limit ==> sep !in Split(s, sep, limit)[|Split(s, sep, limit)| - 1]
    decreases limit
  {
    CutMeaning(s, sep);
    if limit > 0 && CutAt(s, sep).Cut? {
      SplitParts(CutAt(s, sep).after, sep, limit - 1);
    }
  }

  /** Splitting loses nothing, and only the last part can contain the separator. */
  lemma {:induction false} JoinSplit(s: string, sep: char, limit: nat)
    ensures Join(Split(s, sep, limit), sep) == s
    ensures forall i :: 0 <= i < |Split(s, sep, limit)| - 1 ==> sep !in Split(s, sep, limit)[i]
    ensures |Split(s, sep, limit)| <= limit ==> sep !in Split(s, sep, limit)[|Split(s, sep, limit)| - 1]
  {
    JoinOfSplit(s, sep, limit);
    SplitParts(s, sep, limit);
  }

  lemma JoinBehind(before: string, rest: seq<string>, sep: char)
    requires rest != []
    ensures Join([before] + rest, sep) == before + [sep] + Join(rest, sep)
  {
    assert ([before] + rest)[1..] == rest;
  }

  /** Parts without the separator are found again, if enough cuts are allowed. */
  lemma {:induction false} SplitJoin(parts: seq<string>, sep: char, limit: nat)
    requires parts != [] && |parts| <= limit + 1
    requires forall i :: 0 <= i < |parts| - 1 ==> sep !in parts[i]
    requires |parts| == limit + 1 || sep !in parts[|parts| - 1]
    ensures Split(Join(parts, sep), sep, limit) == parts
    decreases limit
  {
    if |parts| == 1 {
      CutMeaning(parts[0], sep);
    } else {
      CutFinds(parts[0], sep, Join(parts[1..], sep));
      SplitJoin(parts[1..], sep, limit - 1);
    }
  }

  lemma {:induction false} JoinIsLonger(parts: seq<string>, sep: char)
    requires parts != []
    ensures |parts| <= |Join(parts, sep)| + 1
  {
    if |parts| > 1 { JoinIsLonger(parts[1..], sep); }
  }

  /** An unbounded split finds exactly the parts that were joined. */
  lemma SplitAll(parts: seq<string>, sep: char)
    requires parts != [] && forall i :: 0 <= i < |parts| ==> sep !in parts[i]
    ensures Split(Join(parts, sep), sep, |Join(parts, sep)|) == parts
  {
    JoinIsLonger(parts, sep);
    SplitJoin(parts, sep, |Join(parts, sep)|);
  }

  lemma JoinThree(a: string, b: string, c: string, sep: char)
    ensures Join([a, b, c], sep) == a + [sep] + b + [sep] + c
  {
    assert [a, b, c][1..] == [b, c] && [b, c][1..] == [c];
    assert Join([b, c], sep) == b + [sep] + c;
  }

  // ---------------------------------------------------------------- decimal integers

  function DigitOf(d: nat): char
    requires d < 10
  {
    ('0' as int + d) as char
  }

  /** `str(n)`. */
  function Decimal(n: nat): (s: string)
    ensures s != "" && forall c :: c in s ==> '0' <= c <= '9'
  {
    if n < 10 then [DigitOf(n)] else Decimal(n / 10) + [DigitOf(n % 10)]
  }

  predicate White(c: char) {
    9 <= c as int <= 13 || 28 <= c as int <= 32
  }

  function TrimLeft(s: string): string {
    if s != "" && White(s[0]) then TrimLeft(s[1..]) else s
  }

  function TrimRight(s: string): string {
    if s != "" && White(s[|s| - 1]) then TrimRight(s[..|s| - 1]) else s
  }

  /** Digits with single underscores between them; `after` says a digit came just before. */
  function ParseDigits(s: string, acc: nat, after: bool): Option<nat> {
    if s == "" then (if after then Some(acc) else None)
    else if '0' <= s[0] <= '9' then ParseDigits(s[1..], acc * 10 + (s[0] as int - '0' as int), true)
    else if s[0] == '_' && after then ParseDigits(s[1..], acc, false)
    else None
  }

  /** A decimal integer in ASCII text: white space around it, a sign, digits. */
  function ParseInt(s: string): Option<int> {
    var t := TrimRight(TrimLeft(s));
    var signed := t != "" && (t[0] == '-' || t[0] == '+');
    var n := ParseDigits(if signed then t[1..] else t, 0, false);
    if n.None? then None else
      var z: int := n.value;
      Some(if signed && t[0] == '-' then -z else z)
  }

  lemma {:induction false} ParseOneMore(s: string, d: char, acc: nat, after: bool)
    requires s != "" && (forall c :: c in s ==> '0' <= c <= '9') && '0' <= d <= '9'
    ensures ParseDigits(s, acc, after).Some?
    ensures ParseDigits(s + [d], acc, after) ==
            Some(ParseDigits(s, acc, after).value * 10 + (d as int - '0' as int))
  {
    assert s[0] in s;
    var v := acc * 10 + (s[0] as int - '0' as int);
    assert (s + [d])[1..] == s[1..] + [d];
    if |s| > 1 {
      assert forall c :: c in s[1..] ==> c in s;
      ParseOneMore(s[1..], d, v, true);
    } else {
      assert s[1..] == "";
      assert ParseDigits([d], v, true) == ParseDigits([d][1..], v * 10 + (d as int - '0' as int), true);
    }
  }

  lemma {:induction false} ParseDecimalDigits(n: nat)
    ensures ParseDigits(Decimal(n), 0, false) == Some(n)
  {
    if n < 10 {
      var s := Decimal(n);
      assert s[1..] == "";
    } else {
      ParseDecimalDigits(n / 10);
      ParseOneMore(Decimal(n / 10), DigitOf(n % 10), 0, false);
    }
  }

  lemma ParseDecimal(n: nat)
    ensures ParseInt(Decimal(n)) == Some(n)
  {
    ParseDecimalDigits(n);
    var s := Decimal(n);
    assert s[0] in s && s[|s| - 1] in s;
  }

  /** `str(n)` for any integer. */
  function Decimals(n: int): string {
    if n < 0 then "-" + Decimal(-n) else Decimal(n)
  }

  lemma ParseDecimals(n: int)
    ensures ParseInt(Decimals(n)) == Some(n)
  {
    if n < 0 {
      ParseDecimalDigits(-n);
      var s := Decimals(n);
      assert s[1..] == Decimal(-n);
      assert Decimal(-n)[|Decimal(-n)| - 1] in Decimal(-n);
    } else {
      ParseDecimal(n);
    }
  }

  // ---------------------------------------------------------------- Python's int()

  /** Longer decimal conversions are refused, in both directions. */
  const MAX_DIGITS: nat := 4300

  function DigitsIn(s: string): nat {
    if s == "" then 0 else (if '0' <= s[0] <= '9' then 1 else 0) + DigitsIn(s[1..])
  }

  /** `int(s)` on ASCII text; None is the ValueError. */
  function PythonInt(s: string): Option<int> {
    if DigitsIn(s) <= MAX_DIGITS then ParseInt(s) else None
  }

  lemma {:induction false} AllDigits(s: string)
    requires forall c :: c in s ==> '0' <= c <= '9'
    ensures DigitsIn(s) == |s|
  {
    if s != "" {
      assert s[0] in s;
      assert forall c :: c in s[1..] ==> c in s;
      AllDigits(s[1..]);
    }
  }

  /** `int` undoes `str` on exactly the numbers that are not too long for either. */
  lemma IntOfStr(n: nat)
    ensures PythonInt(Decimal(n)) == if |Decimal(n)| <= MAX_DIGITS then Some(n) else None
  {
    AllDigits(Decimal(n));
    ParseDecimal(n);
  }

  function Power10(digits: nat): (p: nat)
    ensures p > 0
  {
    if digits == 0 then 1 else 10 * Power10(digits - 1)
  }

  /** Digits with single underscores between them. */
  ghost predicate Grouped(s: string) {
    && s != "" && '0' <= s[0] <= '9' && '0' <= s[|s| - 1] <= '9'
    && (forall i :: 0 <= i < |s| ==> '0' <= s[i] <= '9' || s[i] == '_')
    && (forall i :: 0 < i < |s| ==> !(s[i] == '_' && s[i - 1] == '_'))
  }

  lemma {:induction false} ParseDigitsAccepts(s: string, acc: nat, after: bool)
    ensures ParseDigits(s, acc, after).Some? <==>
            if s == "" then after else Grouped(s) || (after && s[0] == '_' && Grouped(s[1..]))
  {
    if s != "" && ('0' <= s[0] <= '9' || (s[0] == '_' && after)) {
      var rest := s[1..];
      ParseDigitsAccepts(rest, if s[0] == '_' then acc else acc * 10 + (s[0] as int - '0' as int), s[0] != '_');
      if s[0] != '_' { GroupedStep(s); }
    }
  }

  lemma GroupedStep(s: string)
    requires s != "" && '0' <= s[0] <= '9'
    ensures Grouped(s) <==>
            s[1..] == "" || Grouped(s[1..]) || (s[1] == '_' && Grouped(s[2..]))
  {
    var rest := s[1..];
    assert forall i :: 0 <= i < |rest| ==> rest[i] == s[i + 1];
    if rest != "" && s[1] == '_' && |s| > 2 {
      var tail := s[2..];
      assert forall i :: 0 <= i < |tail| ==> tail[i] == s[i + 2];
      if Grouped(tail) {
        forall i | 0 < i < |s| ensures !(s[i] == '_' && s[i - 1] == '_') {
          if i > 2 { assert s[i] == tail[i - 2] && s[i - 1] == tail[i - 3]; }
        }
        forall i | 0 <= i < |s| ensures '0' <= s[i] <= '9' || s[i] == '_' {
          if i >= 2 { assert s[i] == tail[i - 2]; }
        }
      }
      if Grouped(s) {
        forall i | 0 < i < |tail| ensures !(tail[i] == '_' && tail[i - 1] == '_') {
          assert tail[i] == s[i + 2] && tail[i - 1] == s[i + 1];
        }
      }
    }
    if Grouped(rest) {
      forall i | 0 < i < |s| ensures !(s[i] == '_' && s[i - 1] == '_') {
        if i > 1 { assert s[i] == rest[i - 1] && s[i - 1] == rest[i - 2]; }
      }
      forall i | 0 <= i < |s| ensures '0' <= s[i] <= '9' || s[i] == '_' {
        if i >= 1 { assert s[i] == rest[i - 1]; }
      }
    }
  }

  /** An underscore between two digits changes nothing. */
  lemma {:induction false} UnderscoreIsSkipped(a: string, b: string, acc: nat, after: bool)
    requires a != "" && b != "" && '0' <= a[|a| - 1] <= '9' && '0' <= b[0] <= '9'
    ensures ParseDigits(a + "_" + b, acc, after) == ParseDigits(a + b, acc, after)
  {
    var s, t := a + "_" + b, a + b;
    assert s[1..] == a[1..] + "_" + b && t[1..] == a[1..] + b;
    if |a| == 1 {
      var v := acc * 10 + (a[0] as int - '0' as int);
      assert s[1..] == "_" + b && t[1..] == b && ("_" + b)[1..] == b;
      assert ParseDigits("_" + b, v, true) == ParseDigits(b, v, false) == ParseDigits(b, v, true);
    } else if '0' <= a[0] <= '9' {
      UnderscoreIsSkipped(a[1..], b, acc * 10 + (a[0] as int - '0' as int), true);
    } else if a[0] == '_' && after {
      UnderscoreIsSkipped(a[1..], b, acc, false);
    }
  }

  ghost predicate AllWhite(w: string) {
    forall i :: 0 <= i < |w| ==> White(w[i])
  }

  lemma {:induction false} TrimLeftOf(w: string, s: string)
    requires AllWhite(w) && s != "" && !White(s[0])
    ensures TrimLeft(w + s) == s
  {
    if w == "" {
      assert w + s == s;
    } else {
      TrimLeftOf(w[1..], s);
      assert (w + s)[1..] == w[1..] + s;
    }
  }

  lemma {:induction false} TrimRightOf(s: string, w: string)
    requires AllWhite(w) && s != "" && !White(s[|s| - 1])
    ensures TrimRight(s + w) == s
  {
    if w == "" {
      assert s + w == s;
    } else {
      TrimRightOf(s, w[..|w| - 1]);
      assert (s + w)[..|s + w| - 1] == s + w[..|w| - 1];
    }
  }

  /** A number with or without a sign in front. */
  function WithSign(sign: Option<char>, digits: string): string {
    match sign case None => digits case Some(c) => [c] + digits
  }

  /** White space around a number and a sign in front of it are understood, and the digits are read
      as they stand. */
  lemma IntMeaning(before: string, sign: Option<char>, digits: string, behind: string)
    requires AllWhite(before) && AllWhite(behind) && (sign.Some? ==> sign.value == '+' || sign.value == '-')
    requires Grouped(digits)
    ensures ParseDigits(digits, 0, false).Some?
    ensures ParseInt(before + WithSign(sign, digits) + behind) ==
            var n: int := ParseDigits(digits, 0, false).value; Some(if sign == Some('-') then -n else n)
  {
    var core := WithSign(sign, digits);
    assert core[|core| - 1] == digits[|digits| - 1];
    Trimmed(before, core, behind);
    ParseTrimmed(before + core + behind, sign, digits);
  }

  lemma ParseTrimmed(s: string, sign: Option<char>, digits: string)
    requires TrimRight(TrimLeft(s)) == WithSign(sign, digits) && Grouped(digits)
    requires sign.Some? ==> sign.value == '+' || sign.value == '-'
    ensures ParseDigits(digits, 0, false).Some?
    ensures ParseInt(s) ==
            var n: int := ParseDigits(digits, 0, false).value; Some(if sign == Some('-') then -n else n)
  {
    ParseDigitsAccepts(digits, 0, false);
    if sign.Some? { assert WithSign(sign, digits)[1..] == digits; }
  }

  lemma Trimmed(before: string, core: string, behind: string)
    requires AllWhite(before) && AllWhite(behind)
    requires core != "" && !White(core[0]) && !White(core[|core| - 1])
    ensures TrimRight(TrimLeft(before + core + behind)) == core
  {
    assert before + core + behind == before + (core + behind);
    TrimLeftOf(before, core + behind);
    TrimRightOf(core, behind);
  }
}
