/** Redaction of nested log values: dicts, lists and tuples of strings and other scalars. */
module LogValues {

  import opened Options
  import opened Redaction

  /** A dict key: a string, or another object that `str()` turns into one. */
  datatype Key = Text(text: string) | Other(text: string, identity: int)

  datatype Value =
    | Str(text: string)
    | Scalar(identity: int)      // numbers, booleans, None: passed through
    | Dict(items: seq<Item>)     // in insertion order
    | List(elems: seq<Value>)
    | Tuple(elems: seq<Value>)

  datatype Item = Item(key: Key, value: Value)

  const SENSITIVE: seq<string> :=
    ["authorization", "cookie", "credential", "password", "secret", "token", "api_key"]

  predicate Contains(s: string, part: string) {
    part <= s || (s != "" && Contains(s[1..], part))
  }

  /** `str.lower` is a parameter: the laws hold for any case folding. */
  predicate Sensitive(lower: string -> string, key: string) {
    exists i :: 0 <= i < |SENSITIVE| && Contains(lower(key), SENSITIVE[i])
  }

  /** `d[key] = value` on an insertion-ordered dict with string keys. */
  function Put(d: seq<Item>, key: string, value: Value): seq<Item> {
    if d == [] then [Item(Text(key), value)]
    else if d[0].key == Text(key) then [Item(Text(key), value)] + d[1..]
    else [d[0]] + Put(d[1..], key, value)
  }

  function SanitizeValue(lower: string -> string, key: string, v: Value): Value
    decreases v
  {
    if Sensitive(lower, key) then Str(MARK) else
      match v
      case Str(text) => Str(SanitizeText(text))
      case Scalar(_) => v
      case Dict(items) => Dict(SanitizeItems(lower, items))
      case List(elems) => List(SanitizeElems(lower, key, elems))
      case Tuple(elems) => List(SanitizeElems(lower, key, elems))
  }

  /** The dict comprehension: later items overwrite earlier ones whose keys print alike. */
  function SanitizeItems(lower: string -> string, items: seq<Item>): seq<Item>
    decreases items
  {
    if items == [] then [] else
      var last := items[|items| - 1];
      Put(SanitizeItems(lower, items[..|items| - 1]), last.key.text, SanitizeItem(lower, last))
  }

  function SanitizeItem(lower: string -> string, item: Item): Value
    decreases item
  {
    SanitizeValue(lower, item.key.text, item.value)
  }

  function SanitizeElems(lower: string -> string, key: string, elems: seq<Value>): (r: seq<Value>)
    ensures |r| == |elems|
    decreases elems
  {
    if elems == [] then [] else
      SanitizeElems(lower, key, elems[..|elems| - 1]) + [SanitizeValue(lower, key, elems[|elems| - 1])]
  }

  ghost predicate DistinctTexts(d: seq<Item>) {
    && (forall i :: 0 <= i < |d| ==> d[i].key.Text?)
    && (forall i, j :: 0 <= i < j < |d| ==> d[i].key != d[j].key)
  }

  /** Nothing secret left: the marker under sensitive keys at any depth, clean text elsewhere. */
  ghost predicate Scrubbed(lower: string -> string, key: string, v: Value)
    decreases v
  {
    if Sensitive(lower, key) then v == Str(MARK) else
      match v
      case Str(text) => Clean(text)
      case Scalar(_) => true
      case Dict(items) => DistinctTexts(items) &&
        forall i :: 0 <= i < |items| ==> Scrubbed(lower, items[i].key.text, items[i].value)
      case List(elems) => forall i :: 0 <= i < |elems| ==> Scrubbed(lower, key, elems[i])
      case Tuple(_) => false
  }

  ghost predicate ScrubbedItems(lower: string -> string, d: seq<Item>) {
    DistinctTexts(d) && forall i :: 0 <= i < |d| ==> Scrubbed(lower, d[i].key.text, d[i].value)
  }

  lemma {:induction false} PutMeaning(d: seq<Item>, key: string, value: Value)
    requires DistinctTexts(d)
    ensures DistinctTexts(Put(d, key, value))
    ensures forall x :: x in Put(d, key, value) <==> x == Item(Text(key), value) || (x in d && x.key != Text(key))
  {
    if d != [] {
      var r := Put(d, key, value);
      assert d == [d[0]] + d[1..];
      if d[0].key == Text(key) {
        assert r == [Item(Text(key), value)] + d[1..];
        forall x | x in d[1..] ensures x.key != Text(key) {}
      } else {
        PutMeaning(d[1..], key, value);
        var rest := Put(d[1..], key, value);
        forall j | 0 <= j < |rest| ensures rest[j].key != d[0].key {
          assert rest[j] in rest;
        }
      }
    }
  }

  lemma {:induction false} ItemsAreScrubbed(lower: string -> string, items: seq<Item>)
    ensures ScrubbedItems(lower, SanitizeItems(lower, items))
    decreases items
  {
    if items != [] {
      var last := items[|items| - 1];
      var front := SanitizeItems(lower, items[..|items| - 1]);
      ItemsAreScrubbed(lower, items[..|items| - 1]);
      ItemIsScrubbed(lower, last);
      var value := SanitizeValue(lower, last.key.text, last.value);
      PutMeaning(front, last.key.text, value);
      var r := Put(front, last.key.text, value);
      forall i | 0 <= i < |r| ensures Scrubbed(lower, r[i].key.text, r[i].value) {
        assert r[i] in r;
      }
    }
  }

  lemma ItemIsScrubbed(lower: string -> string, item: Item)
    ensures Scrubbed(lower, item.key.text, SanitizeItem(lower, item))
    decreases item
  {
    SanitizedIsScrubbed(lower, item.key.text, item.value);
  }

  lemma {:induction false} ElemsAreScrubbed(lower: string -> string, key: string, elems: seq<Value>)
    ensures forall x :: x in SanitizeElems(lower, key, elems) ==> Scrubbed(lower, key, x)
    decreases elems
  {
    if elems != [] {
      ElemsAreScrubbed(lower, key, elems[..|elems| - 1]);
      SanitizedIsScrubbed(lower, key, elems[|elems| - 1]);
    }
  }

  /** At any depth, only the marker is left under sensitive keys and only clean text elsewhere. */
  lemma {:induction false} SanitizedIsScrubbed(lower: string -> string, key: string, v: Value)
    ensures Scrubbed(lower, key, SanitizeValue(lower, key, v))
    decreases v
  {
    if !Sensitive(lower, key) {
      match v
      case Str(text) => SanitizedIsClean(text);
      case Scalar(_) =>
      case Dict(items) => ItemsAreScrubbed(lower, items);
      case List(elems) => ElemsAreScrubbed(lower, key, elems);
      case Tuple(elems) => ElemsAreScrubbed(lower, key, elems);
    }
  }

  lemma {:induction false} PutNew(d: seq<Item>, key: string, value: Value)
    requires forall i :: 0 <= i < |d| ==> d[i].key != Text(key)
    ensures Put(d, key, value) == d + [Item(Text(key), value)]
  {
    if d != [] { PutNew(d[1..], key, value); }
  }

  lemma {:induction false} ItemsStay(lower: string -> string, d: seq<Item>)
    requires ScrubbedItems(lower, d)
    ensures SanitizeItems(lower, d) == d
    decreases d
  {
    if d != [] {
      var last, front := d[|d| - 1], d[..|d| - 1];
      FrontIsScrubbed(lower, d);
      ItemsStay(lower, front);
      ItemStays(lower, last);
      PutNew(front, last.key.text, last.value);
    }
  }

  lemma FrontIsScrubbed(lower: string -> string, d: seq<Item>)
    requires ScrubbedItems(lower, d) && d != []
    ensures var last, front := d[|d| - 1], d[..|d| - 1];
      && ScrubbedItems(lower, front) && Scrubbed(lower, last.key.text, last.value)
      && last.key == Text(last.key.text) && (forall i :: 0 <= i < |front| ==> front[i].key != last.key)
      && d == front + [Item(Text(last.key.text), last.value)]
  {}

  lemma ItemStays(lower: string -> string, item: Item)
    requires Scrubbed(lower, item.key.text, item.value)
    ensures SanitizeItem(lower, item) == item.value
    decreases item
  {
    ScrubbedStays(lower, item.key.text, item.value);
  }

  lemma {:induction false} ElemsStay(lower: string -> string, key: string, elems: seq<Value>)
    requires forall i :: 0 <= i < |elems| ==> Scrubbed(lower, key, elems[i])
    ensures SanitizeElems(lower, key, elems) == elems
    decreases elems
  {
    if elems != [] {
      ElemsStay(lower, key, elems[..|elems| - 1]);
      ScrubbedStays(lower, key, elems[|elems| - 1]);
    }
  }

  lemma {:induction false} ScrubbedStays(lower: string -> string, key: string, v: Value)
    requires Scrubbed(lower, key, v)
    ensures SanitizeValue(lower, key, v) == v
    decreases v
  {
    if !Sensitive(lower, key) {
      match v
      case Str(text) => FixedPoints(text);
      case Scalar(_) =>
      case Dict(items) => ItemsStay(lower, items);
      case List(elems) => ElemsStay(lower, key, elems);
    }
  }

  /** The redactor's fixed points are exactly the scrubbed values, so it is idempotent. */
  lemma {:induction false} ValueFixedPoints(lower: string -> string, key: string, v: Value)
    ensures SanitizeValue(lower, key, v) == v <==> Scrubbed(lower, key, v)
    ensures SanitizeValue(lower, key, SanitizeValue(lower, key, v)) == SanitizeValue(lower, key, v)
  {
    SanitizedIsScrubbed(lower, key, v);
    ScrubbedStays(lower, key, SanitizeValue(lower, key, v));
    if Scrubbed(lower, key, v) { ScrubbedStays(lower, key, v); }
  }

  // ---------------------------------------------------------------- shape

  /** The value `d[key]`, if the key is there. */
  function Lookup(d: seq<Item>, key: string): Option<Value> {
    if d == [] then None
    else if d[0].key == Text(key) then Some(d[0].value)
    else Lookup(d[1..], key)
  }

  /** The last item whose key prints as `key`. */
  function LastWith(items: seq<Item>, key: string): Option<Value> {
    if items == [] then None
    else if items[|items| - 1].key.text == key then Some(items[|items| - 1].value)
    else LastWith(items[..|items| - 1], key)
  }

  lemma {:induction false} LookupPut(d: seq<Item>, key: string, value: Value, other: string)
    ensures Lookup(Put(d, key, value), other) == if other == key then Some(value) else Lookup(d, other)
  {
    if d != [] { LookupPut(d[1..], key, value, other); }
  }

  /** Every printed key stays, and holds the redaction of the last value given to it. */
  lemma {:induction false} DictsKeepTheirKeys(lower: string -> string, items: seq<Item>, key: string)
    ensures Lookup(SanitizeItems(lower, items), key) ==
            match LastWith(items, key)
            case None => None
            case Some(v) => Some(SanitizeValue(lower, key, v))
  {
    if items != [] {
      var last := items[|items| - 1];
      DictsKeepTheirKeys(lower, items[..|items| - 1], key);
      LookupPut(SanitizeItems(lower, items[..|items| - 1]), last.key.text,
                SanitizeValue(lower, last.key.text, last.value), key);
    }
  }

  /** A dict whose keys print differently keeps their order as well. */
  lemma {:induction false} DictsKeepTheirOrder(lower: string -> string, items: seq<Item>)
    requires forall i, j :: 0 <= i < j < |items| ==> items[i].key.text != items[j].key.text
    ensures |SanitizeItems(lower, items)| == |items|
    ensures forall i :: 0 <= i < |items| ==>
              SanitizeItems(lower, items)[i] ==
              Item(Text(items[i].key.text), SanitizeValue(lower, items[i].key.text, items[i].value))
  {
    if items != [] {
      var last := items[|items| - 1];
      DictsKeepTheirOrder(lower, items[..|items| - 1]);
      PutNew(SanitizeItems(lower, items[..|items| - 1]), last.key.text,
             SanitizeValue(lower, last.key.text, last.value));
    }
  }

  /** A list keeps its length and redacts each element under the key of the list. */
  lemma {:induction false} ListsKeepTheirShape(lower: string -> string, key: string, elems: seq<Value>, i: nat)
    requires i < |elems|
    ensures SanitizeElems(lower, key, elems)[i] == SanitizeValue(lower, key, elems[i])
  {
    if i < |elems| - 1 { ListsKeepTheirShape(lower, key, elems[..|elems| - 1], i); }
  }

  // ---------------------------------------------------------------- what redaction does

  /** `part in text`. */
  ghost predicate Within(part: string, text: string) {
    exists i: nat :: i <= |text| && part <= text[i..]
  }

  lemma {:induction false} ContainsIsWithin(text: string, part: string)
    ensures Contains(text, part) <==> Within(part, text)
  {
    assert text[0..] == text;
    if text != "" {
      ContainsIsWithin(text[1..], part);
      if Within(part, text[1..]) {
        var i: nat :| i <= |text[1..]| && part <= text[1..][i..];
        assert text[i + 1..] == text[1..][i..];
      }
      forall i: nat | 0 < i <= |text| && part <= text[i..] ensures Within(part, text[1..]) {
        assert text[1..][i - 1..] == text[i..];
      }
    }
  }

  /** The keys under which everything is hidden. */
  lemma SensitiveMeaning(lower: string -> string, key: string)
    ensures Sensitive(lower, key) <==>
            Within("authorization", lower(key)) || Within("cookie", lower(key)) || Within("credential", lower(key)) ||
            Within("password", lower(key)) || Within("secret", lower(key)) || Within("token", lower(key)) ||
            Within("api_key", lower(key))
  {
    forall i | 0 <= i < |SENSITIVE| ensures Contains(lower(key), SENSITIVE[i]) <==> Within(SENSITIVE[i], lower(key)) {
      ContainsIsWithin(lower(key), SENSITIVE[i]);
    }
    assert SENSITIVE[0] == "authorization" && SENSITIVE[1] == "cookie" && SENSITIVE[2] == "credential";
    assert SENSITIVE[3] == "password" && SENSITIVE[4] == "secret" && SENSITIVE[5] == "token";
    assert SENSITIVE[6] == "api_key";
  }

  /** r is text with its URL credentials and then its bearer tokens replaced. */
  ghost predicate TextRedacted(text: string, r: string) {
    exists u :: Replaced(UrlSyntax, "<redacted>@", text, u) && Replaced(LongestBearer, "<redacted>", u, r)
  }

  /** Item i is the last of those whose key prints as `key`. */
  ghost predicate LastPrinted(items: seq<Item>, i: nat, key: string) {
    && i < |items| && items[i].key.text == key
    && forall j :: i < j < |items| ==> items[j].key.text != key
  }

  /** Each printed key once, in the order of their first occurrences. */
  function FirstKeys(items: seq<Item>): seq<string> {
    if items == [] then [] else
      var front, key := FirstKeys(items[..|items| - 1]), items[|items| - 1].key.text;
      if key in front then front else front + [key]
  }

  /** r is v with everything secret replaced, and otherwise the same: what `_sanitize_value` does,
      without saying how. */
  ghost predicate Redacted(lower: string -> string, key: string, v: Value, r: Value)
    decreases v, 1
  {
    if Sensitive(lower, key) then r == Str("<redacted>") else
      match v
      case Str(text) => r.Str? && TextRedacted(text, r.text)
      case Scalar(_) => r == v
      case Dict(items) =>
        && r.Dict? && |r.items| == |FirstKeys(items)|
        && (forall m :: 0 <= m < |r.items| ==> r.items[m].key == Text(FirstKeys(items)[m]))
        && forall m, i: nat :: 0 <= m < |r.items| && LastPrinted(items, i, FirstKeys(items)[m]) ==>
             Redacted(lower, FirstKeys(items)[m], items[i].value, r.items[m].value)
      case List(elems) => r.List? && ElemsRedacted(lower, key, v, elems, r.elems)
      case Tuple(elems) => r.List? && ElemsRedacted(lower, key, v, elems, r.elems)
  }

  ghost predicate ElemsRedacted(lower: string -> string, key: string, v: Value, elems: seq<Value>, r: seq<Value>)
    requires v == List(elems) || v == Tuple(elems)
    decreases v, 0
  {
    |r| == |elems| && forall i :: 0 <= i < |elems| ==> Redacted(lower, key, elems[i], r[i])
  }

  function KeysOf(d: seq<Item>): seq<Key> {
    seq(|d|, m requires 0 <= m < |d| => d[m].key)
  }

  lemma {:induction false} PutKeys(d: seq<Item>, key: string, value: Value)
    ensures KeysOf(Put(d, key, value)) == KeysOf(d) + if Text(key) in KeysOf(d) then [] else [Text(key)]
  {
    if d != [] {
      assert KeysOf(d) == [d[0].key] + KeysOf(d[1..]);
      if d[0].key != Text(key) {
        PutKeys(d[1..], key, value);
        assert KeysOf(Put(d, key, value)) == [d[0].key] + KeysOf(Put(d[1..], key, value));
      }
    }
  }

  lemma {:induction false} KeysInOrder(lower: string -> string, items: seq<Item>)
    ensures |SanitizeItems(lower, items)| == |FirstKeys(items)|
    ensures forall m :: 0 <= m < |FirstKeys(items)| ==>
              SanitizeItems(lower, items)[m].key == Text(FirstKeys(items)[m])
  {
    if items != [] {
      var front, last := items[..|items| - 1], items[|items| - 1];
      KeysInOrder(lower, front);
      var d := SanitizeItems(lower, front);
      PutKeys(d, last.key.text, SanitizeItem(lower, last));
      assert Text(last.key.text) in KeysOf(d) <==> last.key.text in FirstKeys(front) by {
        assert |KeysOf(d)| == |FirstKeys(front)|;
        assert forall m :: 0 <= m < |d| ==> KeysOf(d)[m] == Text(FirstKeys(front)[m]);
      }
      var r := SanitizeItems(lower, items);
      assert forall m :: 0 <= m < |r| ==> r[m].key == KeysOf(r)[m];
    }
  }

  lemma {:induction false} LastPrintedIsLast(items: seq<Item>, i: nat, key: string)
    requires LastPrinted(items, i, key)
    ensures LastWith(items, key) == Some(items[i].value)
  {
    if i < |items| - 1 { LastPrintedIsLast(items[..|items| - 1], i, key); }
  }

  lemma {:induction false} LookupAt(d: seq<Item>, m: nat)
    requires m < |d| && DistinctTexts(d)
    ensures Lookup(d, d[m].key.text) == Some(d[m].value)
  {
    if m > 0 { LookupAt(d[1..], m - 1); }
  }

  /** The value at each printed key is the redaction of the last one printed under it. */
  lemma ValueAt(lower: string -> string, items: seq<Item>, m: nat, i: nat)
    requires m < |FirstKeys(items)| && LastPrinted(items, i, FirstKeys(items)[m])
    ensures m < |SanitizeItems(lower, items)|
    ensures SanitizeItems(lower, items)[m].value == SanitizeValue(lower, FirstKeys(items)[m], items[i].value)
  {
    KeysInOrder(lower, items);
    ItemsAreScrubbed(lower, items);
    LookupAt(SanitizeItems(lower, items), m);
    LastPrintedIsLast(items, i, FirstKeys(items)[m]);
    DictsKeepTheirKeys(lower, items, FirstKeys(items)[m]);
  }

  /** `_sanitize_value` for every nested value: keys, order and shape stay, every text is redacted,
      and everything under a sensitive key is the marker. */
  lemma {:induction false} SanitizeValueMeaning(lower: string -> string, key: string, v: Value)
    ensures Redacted(lower, key, v, SanitizeValue(lower, key, v))
    decreases v
  {
    if !Sensitive(lower, key) {
      match v
      case Str(text) => SanitizeMeaning(text, SanitizeText(text));
      case Scalar(_) =>
      case Dict(items) => ItemsMeaning(lower, v);
      case List(elems) => ElemsMeaning(lower, key, v, elems);
      case Tuple(elems) => ElemsMeaning(lower, key, v, elems);
    }
  }

  lemma ItemsMeaning(lower: string -> string, v: Value)
    requires v.Dict?
    ensures forall key :: !Sensitive(lower, key) ==> Redacted(lower, key, v, Dict(SanitizeItems(lower, v.items)))
    decreases v, 0
  {
    KeysInOrder(lower, v.items);
    forall m: nat, i: nat | m < |FirstKeys(v.items)| && LastPrinted(v.items, i, FirstKeys(v.items)[m])
      ensures Redacted(lower, FirstKeys(v.items)[m], v.items[i].value, SanitizeItems(lower, v.items)[m].value)
    {
      ValueAt(lower, v.items, m, i);
      SanitizeValueMeaning(lower, FirstKeys(v.items)[m], v.items[i].value);
    }
  }

  lemma ElemsMeaning(lower: string -> string, key: string, v: Value, elems: seq<Value>)
    requires v == List(elems) || v == Tuple(elems)
    ensures ElemsRedacted(lower, key, v, elems, SanitizeElems(lower, key, elems))
    decreases v, 0
  {
    forall i | 0 <= i < |elems| ensures Redacted(lower, key, elems[i], SanitizeElems(lower, key, elems)[i]) {
      ListsKeepTheirShape(lower, key, elems, i);
      SanitizeValueMeaning(lower, key, elems[i]);
    }
  }
}
