/** The translation payload normaliser of validation.py: it turns whatever
    the language model returned (a JSON string, possibly wrapped in prose,
    or an already-decoded dictionary) into a total record
    `{original, translation, grammar, grammar_json}` and never fails. */
module Validation {
  import opened Wrappers
  import opened PyText

  // ---------------------------------------------------------------------
  // Data model

  /** A Python value of the kinds `json.loads` produces (floats left out).
      A dictionary is its entries in insertion order. */
  datatype Json =
    | JNull
    | JBool(b: bool)
    | JInt(n: int)
    | JStr(s: string)
    | JArray(elems: seq<Json>)
    | JObject(entries: seq<Member>)

  datatype Member = Member(key: string, value: Json)

  /** The argument of `parse_and_validate_translation`: a `str`, a `dict`,
      or any other Python value. */
  datatype Payload = Text(text: string) | Mapping(entries: seq<Member>) | Unsupported

  /** One normalised grammar entry: the six keys `word`, `explanation`,
      `function`, `additional_info`, `examples` and `difficulty`. */
  datatype GrammarItem = GrammarItem(
    word: string, explanation: string, func: string,
    additionalInfo: string, examples: string, difficulty: string)

  /** The normalised record: `original`, `translation`, the rendered text
      `grammar` and the list `grammar_json`. */
  datatype Translation = Translation(
    original: string, translation: string, grammar: string, grammarJson: seq<GrammarItem>)

  /** The record returned when nothing could be read from the payload. */
  const Defaults := Translation("", "", "", [])

  /** `json.loads`: the decoded value, or None where it raises. It is a
      library function, so the normaliser takes it as a parameter. */
  type JsonLoads = string -> Option<Json>

  // ---------------------------------------------------------------------
  // Python's str() and the `_as_string` coercion

  /** Decimal digits of a natural number, as `str(n)` writes them. */
  function NatText(n: nat): (r: string)
    ensures r != []
    ensures forall k :: 0 <= k < |r| ==> '0' <= r[k] <= '9'
  {
    var d := ['0' + (n % 10) as char];
    if n < 10 then d else NatText(n / 10) + d
  }

  /** `str(n)` for a Python int. */
  function IntText(n: int): (r: string)
    ensures r != []
  {
    if n < 0 then "-" + NatText(-n) else NatText(n)
  }

  /** `repr(v)`: strings are written in single quotes (repr's escaping is
      not modelled); containers show their elements through repr. */
  function PyRepr(v: Json): (r: string)
    ensures r != []
    decreases v, 1
  {
    match v
    case JNull => "None"
    case JBool(b) => if b then "True" else "False"
    case JInt(n) => IntText(n)
    case JStr(s) => "'" + s + "'"
    case JArray(xs) => "[" + ReprElems(xs) + "]"
    case JObject(es) => "{" + ReprEntries(es) + "}"
  }

  /** The elements of a list, through repr, separated by `", "`. */
  function ReprElems(xs: seq<Json>): string
    decreases xs, 0
  {
    if xs == [] then ""
    else PyRepr(xs[0]) + (if |xs| == 1 then "" else ", " + ReprElems(xs[1..]))
  }

  /** The `key: value` pairs of a dictionary, separated by `", "`. */
  function ReprEntries(es: seq<Member>): string
    decreases es, 0
  {
    if es == [] then ""
    else
      "'" + es[0].key + "': " + PyRepr(es[0].value)
      + (if |es| == 1 then "" else ", " + ReprEntries(es[1..]))
  }

  /** `str(v)`: a string is itself, every other value its repr. */
  function PyStr(v: Json): string {
    if v.JStr? then v.s else PyRepr(v)
  }

  /** `_as_string(value)`: a string unchanged, None as "", anything else
      through `str`. */
  function AsString(v: Json): string {
    if v.JStr? then v.s else if v.JNull? then "" else PyStr(v)
  }

  /** Only None and the empty string coerce to "": `str` of any other
      value is non-empty. */
  lemma AsStringEmpty(v: Json)
    ensures AsString(v) == "" <==> v == JNull || v == JStr("")
  {
  }

  // ---------------------------------------------------------------------
  // Dictionary access

  /** `d.get(key)`: the value stored under `key`, if any. */
  function Lookup(entries: seq<Member>, key: string): Option<Json> {
    if entries == [] then None
    else if entries[0].key == key then Some(entries[0].value)
    else Lookup(entries[1..], key)
  }

  /** `_as_string(d.get(key, "")).strip()`: always a stripped string. */
  function Field(entries: seq<Member>, key: string): (r: string)
    ensures IsStripped(r)
  {
    Strip(AsString(Lookup(entries, key).GetOr(JStr(""))))
  }

  /** `d.get(key)` finds a value exactly when some entry has that key, and
      then the value is one stored under it. */
  lemma {:induction false} LookupFinds(entries: seq<Member>, key: string)
    ensures Lookup(entries, key).None? <==> forall k :: 0 <= k < |entries| ==> entries[k].key != key
    ensures Lookup(entries, key).Some? ==>
      exists k :: 0 <= k < |entries| && entries[k] == Member(key, Lookup(entries, key).value)
  {
    if entries != [] && entries[0].key != key {
      LookupFinds(entries[1..], key);
      var r := Lookup(entries[1..], key);
      if r.Some? {
        var k :| 0 <= k < |entries[1..]| && entries[1..][k] == Member(key, r.value);
        assert entries[k + 1] == Member(key, r.value);
      }
      assert (forall k :: 0 <= k < |entries[1..]| ==> entries[1..][k].key != key)
        ==> forall k :: 0 <= k < |entries| ==> entries[k].key != key;
    }
  }

  /** `d.get(key)` returns the value of the first entry with that key. */
  lemma {:induction false} LookupAt(entries: seq<Member>, key: string, i: nat)
    requires i < |entries| && entries[i].key == key
    requires forall k :: 0 <= k < i ==> entries[k].key != key
    ensures Lookup(entries, key) == Some(entries[i].value)
  {
    if i > 0 {
      LookupAt(entries[1..], key, i - 1);
    }
  }

  /** A missing key and a key holding None both read as "", a string is
      read stripped. */
  lemma FieldDefaults(entries: seq<Member>, key: string)
    ensures (forall k :: 0 <= k < |entries| ==> entries[k].key != key) ==> Field(entries, key) == ""
    ensures Lookup(entries, key) == Some(JNull) ==> Field(entries, key) == ""
    ensures Lookup(entries, key).Some? && Lookup(entries, key).value.JStr? ==>
      Field(entries, key) == Strip(Lookup(entries, key).value.s)
  {
    LookupFinds(entries, key);
  }

  // ---------------------------------------------------------------------
  // _normalize_grammar_items

  /** Every field of the item is stripped. */
  predicate WellStripped(g: GrammarItem) {
    IsStripped(g.word) && IsStripped(g.explanation) && IsStripped(g.func)
    && IsStripped(g.additionalInfo) && IsStripped(g.examples) && IsStripped(g.difficulty)
  }

  /** The filter of `_normalize_grammar_items`: word or explanation is set. */
  predicate Kept(g: GrammarItem) {
    g.word != "" || g.explanation != ""
  }

  /** The six-key dictionary built from one grammar element. */
  function ItemFromDict(entries: seq<Member>): (g: GrammarItem)
    ensures WellStripped(g)
  {
    GrammarItem(
      Field(entries, "word"), Field(entries, "explanation"), Field(entries, "function"),
      Field(entries, "additional_info"), Field(entries, "examples"), Field(entries, "difficulty"))
  }

  /** `f` applied to the dictionary elements of `xs`, in order; the other
      elements are skipped. */
  function MapDicts<T>(xs: seq<Json>, f: seq<Member> -> T): seq<T> {
    if xs == [] then []
    else
      var last := xs[|xs| - 1];
      MapDicts(xs[..|xs| - 1], f) + (if last.JObject? then [f(last.entries)] else [])
  }

  /** The list `result` after the loop has seen `xs`: one item per
      dictionary element. */
  function DictItems(xs: seq<Json>): seq<GrammarItem> {
    MapDicts(xs, ItemFromDict)
  }

  /** The comprehension `[g for g in result if g["word"] or g["explanation"]]`. */
  function KeepNamed(gs: seq<GrammarItem>): seq<GrammarItem> {
    if gs == [] then []
    else (if Kept(gs[0]) then [gs[0]] else []) + KeepNamed(gs[1..])
  }

  /** What `_normalize_grammar_items(value)` returns. */
  function NormalizedItems(value: Json): seq<GrammarItem> {
    if value.JArray? then KeepNamed(DictItems(value.elems)) else []
  }

  method NormalizeGrammarItems(value: Json) returns (items: seq<GrammarItem>)
    ensures items == NormalizedItems(value)
    ensures !value.JArray? ==> items == []
    ensures value.JArray? ==> |items| <= |value.elems|
    ensures forall k :: 0 <= k < |items| ==> Kept(items[k]) && WellStripped(items[k])
  {
    if value.JArray? {
      var result: seq<GrammarItem> := [];
      var i := 0;
      while i < |value.elems|
        invariant 0 <= i <= |value.elems|
        invariant result == MapDicts(value.elems[..i], ItemFromDict)
      {
        var item := value.elems[i];
        if item.JObject? {
          result := result + [ItemFromDict(item.entries)];
        }
        assert value.elems[..i + 1][..i] == value.elems[..i];
        i := i + 1;
      }
      assert value.elems[..i] == value.elems;
      items := KeepNamed(result);
    } else {
      items := [];
    }
    NormalizedItemsShape(value);
  }

  // ---------------------------------------------------------------------
  // _build_grammar_text

  /** The line `_build_grammar_text` emits for one item, or None when the
      stripped word and explanation are both empty. */
  function GrammarLine(g: GrammarItem): Option<string> {
    var w, e, f := Strip(g.word), Strip(g.explanation), Strip(g.func);
    if w == "" && e == "" then None
    else
      var line := if w != "" then "- " + w + ": " + e else "- " + e;
      Some(if f != "" then line + " (" + f + ")" else line)
  }

  /** The list `lines` after the loop has seen `items`. */
  function GrammarLines(items: seq<GrammarItem>): seq<string> {
    if items == [] then []
    else
      var last := GrammarLine(items[|items| - 1]);
      GrammarLines(items[..|items| - 1]) + (if last.Some? then [last.value] else [])
  }

  /** What `_build_grammar_text(items)` returns. */
  function GrammarText(items: seq<GrammarItem>): string {
    Join(GrammarLines(items), "\n")
  }

  method BuildGrammarText(items: seq<GrammarItem>) returns (text: string)
    ensures text == GrammarText(items)
  {
    var lines: seq<string> := [];
    var i := 0;
    while i < |items|
      invariant 0 <= i <= |items|
      invariant lines == GrammarLines(items[..i])
    {
      var item := items[i];
      var word := Strip(item.word);
      var explanation := Strip(item.explanation);
      var funcName := Strip(item.func);
      assert items[..i + 1][..i] == items[..i];
      if word == "" && explanation == "" {
        i := i + 1;
        continue;
      }
      var line := if word != "" then "- " + word + ": " + explanation else "- " + explanation;
      if funcName != "" {
        line := line + " (" + funcName + ")";
      }
      lines := lines + [line];
      i := i + 1;
    }
    assert items[..i] == items;
    text := Join(lines, "\n");
  }

  // ---------------------------------------------------------------------
  // parse_and_validate_translation

  /** Some `{` comes before some `}` in `t`. */
  predicate OpensBeforeCloses(t: string) {
    exists i, j | 0 <= i < j < |t| :: t[i] == '{' && t[j] == '}'
  }

  /** The text handed to `json.loads` for a string payload: the stripped
      payload, cut down to the span from its first `{` to its last `}`
      when the first precedes the last. */
  function ObjectText(payload: string): string {
    var t := Strip(payload);
    var start, end := Find(t, '{'), RFind(t, '}');
    if start != -1 && end != -1 && end > start then t[start..end + 1] else t
  }

  /** The dictionary `data` reads the fields from, or None where
      `json.loads` raises or `data.get` fails on a non-dictionary. */
  function CandidateObject(payload: Payload, loads: JsonLoads): Option<seq<Member>> {
    match payload
    case Text(t) =>
      (match loads(ObjectText(t))
       case Some(JObject(es)) => Some(es)
       case _ => None)
    case Mapping(es) => Some(es)
    case Unsupported => Some([])
  }

  /** The record built from a dictionary. */
  function FromObject(es: seq<Member>): Translation {
    var items := NormalizedItems(Lookup(es, "grammar").GetOr(JArray([])));
    Translation(Field(es, "original"), Field(es, "translation"), GrammarText(items), items)
  }

  /** What `parse_and_validate_translation(payload)` returns. */
  function Validated(payload: Payload, loads: JsonLoads): Translation {
    match CandidateObject(payload, loads)
    case None => Defaults
    case Some(es) => FromObject(es)
  }

  /** The output invariants: stripped `original` and `translation`,
      `grammar` rendered from `grammar_json`, and every grammar item
      stripped and named. */
  predicate WellFormed(r: Translation) {
    IsStripped(r.original) && IsStripped(r.translation)
    && r.grammar == GrammarText(r.grammarJson)
    && forall k :: 0 <= k < |r.grammarJson| ==> Kept(r.grammarJson[k]) && WellStripped(r.grammarJson[k])
  }

  method ParseAndValidateTranslation(payload: Payload, loads: JsonLoads) returns (r: Translation)
    ensures r == Validated(payload, loads)
    ensures WellFormed(r)
  {
    var original := "";
    var translation := "";
    var grammarItems: seq<GrammarItem> := [];
    // None stands for the exception the `try` block catches.
    var data: Option<seq<Member>>;
    match payload {
      case Text(t) =>
        var s := Strip(t);
        var start := Find(s, '{');
        var end := RFind(s, '}');
        if start != -1 && end != -1 && end > start {
          s := s[start..end + 1];
        }
        assert s == ObjectText(t);
        match loads(s) {
          case Some(JObject(es)) => data := Some(es);
          case _ => data := None;
        }
      case Mapping(es) =>
        data := Some(es);
      case Unsupported =>
        data := Some([]);
    }
    assert data == CandidateObject(payload, loads);
    if data.Some? {
      original := Field(data.value, "original");
      translation := Field(data.value, "translation");
      grammarItems := NormalizeGrammarItems(Lookup(data.value, "grammar").GetOr(JArray([])));
    }
    var grammarText := BuildGrammarText(grammarItems);
    r := Translation(original, translation, grammarText, grammarItems);
    if data.None? {
      assert GrammarText([]) == "";
    }
    ValidatedIsWellFormed(payload, loads);
  }

  // ---------------------------------------------------------------------
  // Lemmas: _normalize_grammar_items

  /** `MapDicts` lists `f` of the dictionary elements at strictly
      increasing positions of `xs`, and of every one of them. */
  lemma {:induction false} MapDictsInOrder<T>(xs: seq<Json>, f: seq<Member> -> T) returns (pos: seq<nat>)
    ensures |pos| == |MapDicts(xs, f)| <= |xs|
    ensures forall k :: 0 <= k < |pos| ==>
      pos[k] < |xs| && xs[pos[k]].JObject? && MapDicts(xs, f)[k] == f(xs[pos[k]].entries)
    ensures forall k, l :: 0 <= k < l < |pos| ==> pos[k] < pos[l]
  {
    if xs == [] {
      pos := [];
    } else {
      var init, last := xs[..|xs| - 1], xs[|xs| - 1];
      var p := MapDictsInOrder(init, f);
      var more := if last.JObject? then [f(last.entries)] else [];
      assert MapDicts(xs, f) == MapDicts(init, f) + more;
      pos := if last.JObject? then p + [|xs| - 1] else p;
      forall k | 0 <= k < |pos|
        ensures pos[k] < |xs| && xs[pos[k]].JObject?
        ensures MapDicts(xs, f)[k] == f(xs[pos[k]].entries)
      {
        if k < |p| {
          assert pos[k] == p[k] && xs[p[k]] == init[p[k]];
          assert MapDicts(xs, f)[k] == MapDicts(init, f)[k];
        } else {
          assert MapDicts(xs, f)[k] == more[0];
        }
      }
      forall k, l | 0 <= k < l < |pos|
        ensures pos[k] < pos[l]
      {
        if l < |p| {
          assert pos[k] == p[k] && pos[l] == p[l];
        } else {
          assert pos[k] == p[k] < |init|;
        }
      }
    }
  }

  /** Every dictionary element of `xs` contributes its image under `f`. */
  lemma {:induction false} MapDictsHas<T>(xs: seq<Json>, f: seq<Member> -> T, i: nat)
    requires i < |xs| && xs[i].JObject?
    ensures f(xs[i].entries) in MapDicts(xs, f)
  {
    var init := xs[..|xs| - 1];
    if i < |init| {
      assert init[i] == xs[i];
      MapDictsHas(init, f, i);
    }
  }

  /** `DictItems` has at most one item per element, and its items are
      stripped. */
  lemma DictItemsShape(xs: seq<Json>)
    ensures |DictItems(xs)| <= |xs|
    ensures forall k :: 0 <= k < |DictItems(xs)| ==> WellStripped(DictItems(xs)[k])
  {
    var pos := MapDictsInOrder(xs, ItemFromDict);
    forall k | 0 <= k < |DictItems(xs)|
      ensures WellStripped(DictItems(xs)[k])
    {
      assert DictItems(xs)[k] == ItemFromDict(xs[pos[k]].entries);
    }
  }

  /** The filter keeps exactly the named items, keeps their order and
      never lengthens the list. */
  lemma {:induction false} KeepNamedShape(gs: seq<GrammarItem>)
    ensures |KeepNamed(gs)| <= |gs|
    ensures forall k :: 0 <= k < |KeepNamed(gs)| ==> Kept(KeepNamed(gs)[k]) && KeepNamed(gs)[k] in gs
    ensures forall g :: g in gs && Kept(g) ==> g in KeepNamed(gs)
  {
    if gs != [] {
      KeepNamedShape(gs[1..]);
      var r := KeepNamed(gs);
      var head := if Kept(gs[0]) then [gs[0]] else [];
      assert r == head + KeepNamed(gs[1..]);
      forall k | 0 <= k < |r|
        ensures Kept(r[k]) && r[k] in gs
      {
        if k >= |head| {
          assert r[k] == KeepNamed(gs[1..])[k - |head|];
        }
      }
      forall g | g in gs && Kept(g)
        ensures g in r
      {
        if g != gs[0] {
          assert g in gs[1..];
        }
      }
    }
  }

  /** `_normalize_grammar_items` returns [] for a non-list, at most one
      item per list element, and only stripped items whose word or
      explanation is non-empty. */
  lemma NormalizedItemsShape(value: Json)
    ensures !value.JArray? ==> NormalizedItems(value) == []
    ensures value.JArray? ==> |NormalizedItems(value)| <= |value.elems|
    ensures forall k :: 0 <= k < |NormalizedItems(value)| ==>
      Kept(NormalizedItems(value)[k]) && WellStripped(NormalizedItems(value)[k])
  {
    if value.JArray? {
      var d := DictItems(value.elems);
      DictItemsShape(value.elems);
      KeepNamedShape(d);
      forall k | 0 <= k < |NormalizedItems(value)|
        ensures WellStripped(NormalizedItems(value)[k])
      {
        var g := NormalizedItems(value)[k];
        var j :| 0 <= j < |d| && d[j] == g;
      }
    }
  }

  /** A grammar item is in the output exactly when it is the normalisation
      of some dictionary element of the input list and has a word or an
      explanation. */
  lemma NormalizedItemsMembership(xs: seq<Json>, g: GrammarItem)
    ensures g in NormalizedItems(JArray(xs)) <==>
      Kept(g) && exists k :: 0 <= k < |xs| && xs[k].JObject? && ItemFromDict(xs[k].entries) == g
  {
    var d := DictItems(xs);
    KeepNamedShape(d);
    var pos := MapDictsInOrder(xs, ItemFromDict);
    if g in d {
      var j :| 0 <= j < |d| && d[j] == g;
      assert xs[pos[j]].JObject? && ItemFromDict(xs[pos[j]].entries) == g;
    }
    if exists k :: 0 <= k < |xs| && xs[k].JObject? && ItemFromDict(xs[k].entries) == g {
      var k :| 0 <= k < |xs| && xs[k].JObject? && ItemFromDict(xs[k].entries) == g;
      MapDictsHas(xs, ItemFromDict, k);
    }
  }

  /** `items` are the normalisations of the dictionary elements of `xs` at
      the strictly increasing positions `pos`. */
  ghost predicate ItemsAt(xs: seq<Json>, items: seq<GrammarItem>, pos: seq<nat>) {
    |pos| == |items|
    && (forall k :: 0 <= k < |pos| ==>
          pos[k] < |xs| && xs[pos[k]].JObject? && items[k] == ItemFromDict(xs[pos[k]].entries))
    && (forall k, l :: 0 <= k < l < |pos| ==> pos[k] < pos[l])
  }

  /** Input order is kept: the output lists the normalisations of a
      subsequence of the input's elements. */
  lemma NormalizedItemsInOrder(xs: seq<Json>)
    ensures exists pos: seq<nat> :: ItemsAt(xs, NormalizedItems(JArray(xs)), pos)
  {
    var d := DictItems(xs);
    var p := MapDictsInOrder(xs, ItemFromDict);
    var q := KeepNamedInOrder(d);
    var pos := seq(|q|, k requires 0 <= k < |q| => p[q[k]]);
    var items := NormalizedItems(JArray(xs));
    assert items == KeepNamed(d);
    forall k | 0 <= k < |pos|
      ensures pos[k] < |xs| && xs[pos[k]].JObject?
      ensures items[k] == ItemFromDict(xs[pos[k]].entries)
    {
      assert items[k] == d[q[k]];
      assert d[q[k]] == ItemFromDict(xs[p[q[k]]].entries);
    }
    forall k, l | 0 <= k < l < |pos|
      ensures pos[k] < pos[l]
    {
      assert q[k] < q[l];
    }
    assert ItemsAt(xs, items, pos);
  }

  /** The positions of the items `KeepNamed` keeps. */
  lemma {:induction false} KeepNamedInOrder(gs: seq<GrammarItem>) returns (pos: seq<nat>)
    ensures |pos| == |KeepNamed(gs)|
    ensures forall k :: 0 <= k < |pos| ==> pos[k] < |gs| && KeepNamed(gs)[k] == gs[pos[k]]
    ensures forall k, l :: 0 <= k < l < |pos| ==> pos[k] < pos[l]
  {
    if gs == [] {
      pos := [];
    } else {
      var p := KeepNamedInOrder(gs[1..]);
      var shifted := seq(|p|, k requires 0 <= k < |p| => p[k] + 1);
      pos := if Kept(gs[0]) then [0] + shifted else shifted;
      var head := if Kept(gs[0]) then [gs[0]] else [];
      assert KeepNamed(gs) == head + KeepNamed(gs[1..]);
      forall k | 0 <= k < |pos|
        ensures pos[k] < |gs| && KeepNamed(gs)[k] == gs[pos[k]]
      {
        if k >= |head| {
          assert KeepNamed(gs)[k] == KeepNamed(gs[1..])[k - |head|];
        }
      }
    }
  }

  // ---------------------------------------------------------------------
  // Lemmas: _build_grammar_text

  /** For stripped items, the line is `"- w: e"` when the word is set,
      `"- e"` otherwise, followed by `" (f)"` when the function is set;
      no line is emitted when word and explanation are both empty. */
  lemma GrammarLineOfStripped(g: GrammarItem)
    requires WellStripped(g)
    ensures GrammarLine(g).None? <==> g.word == "" && g.explanation == ""
    ensures GrammarLine(g).Some? ==> (GrammarLine(g).value ==
      (if g.word != "" then "- " + g.word + ": " + g.explanation else "- " + g.explanation)
      + (if g.func != "" then " (" + g.func + ")" else ""))
  {
    StrippedIsFixed(g.word);
    StrippedIsFixed(g.explanation);
    StrippedIsFixed(g.func);
  }

  /** One line per named item, in order: for items as the normaliser
      produces them, the `k`-th line is the `k`-th item's. */
  lemma {:induction false} GrammarLinesOneEach(items: seq<GrammarItem>)
    requires forall k :: 0 <= k < |items| ==> Kept(items[k]) && WellStripped(items[k])
    ensures |GrammarLines(items)| == |items|
    ensures forall k :: 0 <= k < |items| ==> GrammarLine(items[k]) == Some(GrammarLines(items)[k])
  {
    if items != [] {
      var init, last := items[..|items| - 1], items[|items| - 1];
      GrammarLinesOneEach(init);
      GrammarLineOfStripped(last);
      var line := GrammarLine(last).value;
      assert GrammarLines(items) == GrammarLines(init) + [line];
      forall k | 0 <= k < |items|
        ensures GrammarLine(items[k]) == Some(GrammarLines(items)[k])
      {
        if k < |init| {
          assert items[k] == init[k];
          assert GrammarLines(items)[k] == GrammarLines(init)[k];
        }
      }
    }
  }

  /** Every emitted line starts with `"- "` and does not end in a newline. */
  lemma GrammarLineForm(g: GrammarItem)
    requires GrammarLine(g).Some?
    ensures |GrammarLine(g).value| >= 2 && GrammarLine(g).value[..2] == "- "
    ensures GrammarLine(g).value[|GrammarLine(g).value| - 1] != '\n'
  {
    var w, e, f := Strip(g.word), Strip(g.explanation), Strip(g.func);
    var line := if w != "" then "- " + w + ": " + e else "- " + e;
    var full := if f != "" then line + " (" + f + ")" else line;
    assert full[..2] == "- ";
    if f == "" && w == "" {
      assert full[|full| - 1] == e[|e| - 1];
    } else if f == "" && e != "" {
      assert full[|full| - 1] == e[|e| - 1];
    }
  }

  /** The rendered text has no trailing newline, and it is empty only when
      no line is emitted. */
  lemma {:induction false} GrammarTextEnd(items: seq<GrammarItem>)
    ensures GrammarText(items) == "" <==> GrammarLines(items) == []
    ensures GrammarText(items) != "" ==> GrammarText(items)[|GrammarText(items)| - 1] != '\n'
  {
    var lines := GrammarLines(items);
    GrammarLinesForm(items);
    if lines != [] {
      JoinLastChar(lines, "\n");
    }
  }

  lemma {:induction false} GrammarLinesForm(items: seq<GrammarItem>)
    ensures forall k :: 0 <= k < |GrammarLines(items)| ==>
      |GrammarLines(items)[k]| >= 2 && GrammarLines(items)[k][..2] == "- "
      && GrammarLines(items)[k][|GrammarLines(items)[k]| - 1] != '\n'
  {
    if items != [] {
      var last := GrammarLine(items[|items| - 1]);
      var init := GrammarLines(items[..|items| - 1]);
      var lines := GrammarLines(items);
      assert lines == init + (if last.Some? then [last.value] else []);
      GrammarLinesForm(items[..|items| - 1]);
      forall k | 0 <= k < |lines|
        ensures |lines[k]| >= 2 && lines[k][..2] == "- " && lines[k][|lines[k]| - 1] != '\n'
      {
        if k < |init| {
          assert lines[k] == init[k];
        } else {
          GrammarLineForm(items[|items| - 1]);
        }
      }
    }
  }

  /** A join of non-empty parts is non-empty and ends as its last part. */
  lemma {:induction false} JoinLastChar(parts: seq<string>, sep: string)
    requires |parts| >= 1 && forall k :: 0 <= k < |parts| ==> parts[k] != ""
    ensures |Join(parts, sep)| >= |parts[|parts| - 1]|
    ensures Join(parts, sep)[|Join(parts, sep)| - 1] == parts[|parts| - 1][|parts[|parts| - 1]| - 1]
  {
    if |parts| > 1 {
      JoinLastChar(parts[1..], sep);
    }
  }

  /** The example of tests/test_validation.py: one complete item renders as
      `"- Ciao: Hola (interjección)"`. */
  lemma GrammarTextExample()
    ensures GrammarText([GrammarItem("Ciao", "Hola", "interjección", "", "", "")])
      == "- Ciao: Hola (interjección)"
  {
    var g := GrammarItem("Ciao", "Hola", "interjección", "", "", "");
    assert WellStripped(g);
    GrammarLineOfStripped(g);
    var line := "- " + "Ciao" + ": " + "Hola" + " (" + "interjección" + ")";
    assert GrammarLine(g) == Some(line);
    assert [g][..0] == [];
    assert GrammarLines([g]) == [line];
    assert line == "- Ciao: Hola (interjección)";
  }

  // ---------------------------------------------------------------------
  // Lemmas: parse_and_validate_translation

  /** Every output of the normaliser satisfies the output invariants. */
  lemma ValidatedIsWellFormed(payload: Payload, loads: JsonLoads)
    ensures WellFormed(Validated(payload, loads))
  {
    match CandidateObject(payload, loads)
    case None =>
    case Some(es) =>
      NormalizedItemsShape(Lookup(es, "grammar").GetOr(JArray([])));
  }

  /** All fields take their defaults when `json.loads` fails, when it
      yields something other than a dictionary, and when the payload is
      neither a string nor a dictionary. */
  lemma DefaultsOnFailure(payload: Payload, loads: JsonLoads)
    requires payload.Unsupported? || (payload.Text? && !(
      loads(ObjectText(payload.text)).Some? && loads(ObjectText(payload.text)).value.JObject?))
    ensures Validated(payload, loads) == Defaults
  {
    if payload.Text? {
      assert CandidateObject(payload, loads) == None;
    } else {
      assert Lookup([], "grammar") == None;
      assert MapDicts([], ItemFromDict) == [];
      assert NormalizedItems(JArray([])) == [];
      assert Field([], "original") == "" && Field([], "translation") == "";
      assert GrammarText([]) == "";
    }
  }

  /** The guard `start != -1 and end != -1 and end > start` holds exactly
      when some `{` precedes some `}`. */
  lemma SpanGuard(t: string)
    ensures OpensBeforeCloses(t) <==>
      (Find(t, '{') != -1 && RFind(t, '}') != -1 && RFind(t, '}') > Find(t, '{'))
  {
    var start, end := Find(t, '{'), RFind(t, '}');
    FindSpec(t, '{');
    RFindSpec(t, '}');
    if start != -1 && end != -1 && end > start {
      assert t[start] == '{' && t[end] == '}';
    }
    forall i, j | 0 <= i < j < |t|
      ensures t[i] == '{' && t[j] == '}' ==> start != -1 && end != -1 && end > start
    {
      FindAtMost(t, '{', i);
      RFindAtLeast(t, '}', j);
    }
  }

  /** The text handed to `json.loads` is the whole stripped payload when no
      `{` precedes a `}`, and otherwise a slice of it that runs from its first
      `{` to its last `}`. */
  lemma ObjectTextSpan(payload: string)
    ensures !OpensBeforeCloses(Strip(payload)) ==> ObjectText(payload) == Strip(payload)
    ensures OpensBeforeCloses(Strip(payload)) ==>
      exists i :: ObjectSpanAt(Strip(payload), ObjectText(payload), i)
  {
    var t := Strip(payload);
    SpanGuard(t);
    var start, end := Find(t, '{'), RFind(t, '}');
    FindSpec(t, '{');
    RFindSpec(t, '}');
    if start != -1 && end != -1 && end > start {
      var s := t[start..end + 1];
      assert ObjectText(payload) == s;
      assert s[0] == t[start] && s[|s| - 1] == t[end];
      assert t[start + |s|..] == t[end + 1..];
      assert ObjectSpanAt(t, s, start);
    } else {
      assert ObjectText(payload) == t;
    }
  }

  /** `s` sits at index `i` of `t`, starts with `{` and ends with `}`, with no
      `{` before it and no `}` after it. */
  ghost predicate ObjectSpanAt(t: string, s: string, i: int) {
    OccursAt(t, s, i) && |s| >= 2 && s[0] == '{' && s[|s| - 1] == '}'
    && '{' !in t[..i] && '}' !in t[i + |s|..]
  }

  /** Prose without braces around one object is cut away: the text handed
      to `json.loads` is exactly the object. */
  lemma ObjectTextUnwraps(pre: string, body: string, post: string)
    requires '{' !in pre && '}' !in pre && '{' !in post && '}' !in post
    ensures ObjectText(pre + "{" + body + "}" + post) == "{" + body + "}"
  {
    var a, b := StripBraced(pre, body, post);
    assert a + "{" + body + "}" + b == a + ("{" + body + "}") + b;
    BracedSpan(a, "{" + body + "}", b);
  }

  /** Stripping text whose middle is a braced object removes whitespace
      only from the text around it. */
  lemma StripBraced(pre: string, body: string, post: string) returns (a: string, b: string)
    requires '{' !in pre && '}' !in pre && '{' !in post && '}' !in post
    ensures Strip(pre + "{" + body + "}" + post) == a + "{" + body + "}" + b
    ensures '{' !in a && '}' !in a && '}' !in b
  {
    var obj := "{" + body + "}";
    a, b := LStrip(pre), RStrip(post);
    StripAround(pre, obj, post);
    assert pre + "{" + body + "}" + post == pre + obj + post;
    assert a + obj + b == a + "{" + body + "}" + b;
    LStripSuffix(pre);
    RStripPrefix(post);
    forall k | 0 <= k < |a| ensures a[k] != '{' && a[k] != '}' {
      assert a[k] == pre[|pre| - |a| + k];
    }
    forall k | 0 <= k < |b| ensures b[k] != '}' {
      assert b[k] == post[k];
    }
  }

  /** The first `{` and the last `}` of `a + obj + b` are the two ends of
      `obj` when `a` holds neither brace and `b` no `}`. */
  lemma BracedSpan(a: string, obj: string, b: string)
    requires |obj| >= 2 && obj[0] == '{' && obj[|obj| - 1] == '}'
    requires '{' !in a && '}' !in a && '}' !in b
    ensures Find(a + obj + b, '{') == |a|
    ensures RFind(a + obj + b, '}') == |a| + |obj| - 1
    ensures (a + obj + b)[|a|..|a| + |obj|] == obj
  {
    FindStartOf(a, obj, b, '{');
    RFindEndOf(a, obj, b, '}');
  }

  /** A decoder that, like `json.loads`, only yields a dictionary for text
      holding a `{`, together with a payload without `{`, gives the
      defaults: `"not-json"` is such a payload. */
  lemma NoBraceGivesDefaults(text: string, loads: JsonLoads)
    requires forall s :: loads(s).Some? && loads(s).value.JObject? ==> '{' in s
    requires '{' !in text
    ensures Validated(Text(text), loads) == Defaults
  {
    var t := Strip(text);
    StripSlice(text);
    forall k | 0 <= k < |t| ensures t[k] != '{' {
      assert t[k] == text[|text| - |LStrip(text)| + k];
    }
    FindSpec(t, '{');
    DefaultsOnFailure(Text(text), loads);
  }

  /** tests/test_validation.py, malformed input: `"not-json"`. */
  lemma NotJsonExample(loads: JsonLoads)
    requires forall s :: loads(s).Some? && loads(s).value.JObject? ==> '{' in s
    ensures Validated(Text("not-json"), loads) == Defaults
  {
    NoBraceGivesDefaults("not-json", loads);
  }

  /** A dictionary with stripped `original` and `translation` and one
      complete grammar element yields those strings, that element as the
      one item, and its line as the grammar text. */
  lemma OneItemDict(es: seq<Member>, elem: Json, o: string, t: string, w: string, e: string, f: string,
                    loads: JsonLoads)
    requires elem == JObject([
      Member("word", JStr(w)),
      Member("explanation", JStr(e)),
      Member("function", JStr(f))])
    requires es == [
      Member("original", JStr(o)),
      Member("translation", JStr(t)),
      Member("grammar", JArray([elem]))]
    requires IsStripped(o) && IsStripped(t) && IsStripped(w) && IsStripped(e) && IsStripped(f)
    requires w != "" && f != ""
    ensures Validated(Mapping(es), loads)
      == Translation(o, t, "- " + w + ": " + e + " (" + f + ")", [GrammarItem(w, e, f, "", "", "")])
    ensures Validated(Mapping(es), loads).grammar == GrammarText([GrammarItem(w, e, f, "", "", "")])
  {
    var g := GrammarItem(w, e, f, "", "", "");
    var items := NormalizedItems(Lookup(es, "grammar").GetOr(JArray([])));
    assert items == [g] by {
      LookupAt(es, "grammar", 2);
      OneItemGrammar(elem, w, e, f);
    }
    assert GrammarText(items) == "- " + w + ": " + e + " (" + f + ")" by {
      GrammarLineOfStripped(g);
      SingleLineText(g);
    }
    assert Field(es, "original") == o by {
      FieldIs(es, "original", 0, o);
    }
    assert Field(es, "translation") == t by {
      FieldIs(es, "translation", 1, t);
    }
  }

  /** A list holding one complete grammar element normalises to its item. */
  lemma OneItemGrammar(elem: Json, w: string, e: string, f: string)
    requires elem == JObject([
      Member("word", JStr(w)),
      Member("explanation", JStr(e)),
      Member("function", JStr(f))])
    requires IsStripped(w) && IsStripped(e) && IsStripped(f) && w != ""
    ensures NormalizedItems(JArray([elem])) == [GrammarItem(w, e, f, "", "", "")]
  {
    var g := GrammarItem(w, e, f, "", "", "");
    ThreeFieldItem(elem.entries, w, e, f);
    assert [elem][..0] == [];
    assert MapDicts([elem], ItemFromDict) == MapDicts([], ItemFromDict) + [g];
    assert DictItems([elem]) == [g];
    assert [g][1..] == [];
    assert KeepNamed([g]) == [g];
  }

  /** A grammar element with `word`, `explanation` and `function` only:
      the other three keys read as "". */
  lemma ThreeFieldItem(entries: seq<Member>, w: string, e: string, f: string)
    requires entries == [
      Member("word", JStr(w)),
      Member("explanation", JStr(e)),
      Member("function", JStr(f))]
    requires IsStripped(w) && IsStripped(e) && IsStripped(f)
    ensures ItemFromDict(entries) == GrammarItem(w, e, f, "", "", "")
  {
    FieldIs(entries, "word", 0, w);
    FieldIs(entries, "explanation", 1, e);
    FieldIs(entries, "function", 2, f);
    LookupFinds(entries, "additional_info");
    LookupFinds(entries, "examples");
    LookupFinds(entries, "difficulty");
  }

  /** One item renders as its own line, with no newline. */
  lemma SingleLineText(g: GrammarItem)
    requires GrammarLine(g).Some?
    ensures GrammarText([g]) == GrammarLine(g).value
  {
    assert [g][..0] == [];
    assert GrammarLines([g]) == GrammarLines([]) + [GrammarLine(g).value];
  }

  /** tests/test_validation.py, a dictionary payload. */
  lemma DictExample(es: seq<Member>, elem: Json, loads: JsonLoads)
    requires elem == JObject([
      Member("word", JStr("Ciao")),
      Member("explanation", JStr("Hola")),
      Member("function", JStr("interjección"))])
    requires es == [
      Member("original", JStr("Ciao")),
      Member("translation", JStr("Hola")),
      Member("grammar", JArray([elem]))]
    ensures Validated(Mapping(es), loads)
      == Translation("Ciao", "Hola", "- Ciao: Hola (interjección)",
           [GrammarItem("Ciao", "Hola", "interjección", "", "", "")])
  {
    OneItemDict(es, elem, "Ciao", "Hola", "Ciao", "Hola", "interjección", loads);
    GrammarTextExample();
  }

  /** A key whose first entry holds a stripped string reads as that string. */
  lemma FieldIs(entries: seq<Member>, key: string, i: nat, s: string)
    requires i < |entries| && entries[i] == Member(key, JStr(s)) && IsStripped(s)
    requires forall k :: 0 <= k < i ==> entries[k].key != key
    ensures Field(entries, key) == s
  {
    LookupAt(entries, key, i);
    StrippedIsFixed(s);
  }

  /** Prose around one object, as long as it holds no brace, is ignored:
      the string payload is read as the dictionary the object decodes to. */
  lemma ProseIsIgnored(pre: string, body: string, post: string, es: seq<Member>, loads: JsonLoads)
    requires '{' !in pre && '}' !in pre && '{' !in post && '}' !in post
    requires loads("{" + body + "}") == Some(JObject(es))
    ensures Validated(Text(pre + "{" + body + "}" + post), loads) == Validated(Mapping(es), loads)
  {
    ObjectTextUnwraps(pre, body, post);
  }

  /** A dictionary with stripped `original` and `translation` and an
      empty grammar list yields those strings and no grammar. */
  lemma NoGrammarDict(es: seq<Member>, o: string, t: string, loads: JsonLoads)
    requires es == [Member("original", JStr(o)), Member("translation", JStr(t)),
                    Member("grammar", JArray([]))]
    requires IsStripped(o) && IsStripped(t)
    ensures Validated(Mapping(es), loads) == Translation(o, t, "", [])
  {
    FieldIs(es, "original", 0, o);
    FieldIs(es, "translation", 1, t);
    LookupAt(es, "grammar", 2);
    assert NormalizedItems(JArray([])) == [];
    assert GrammarText([]) == "";
  }

  /** tests/test_validation.py, a string with text around the object: the
      decoder sees only the braced object. */
  lemma ProseExample(pre: string, body: string, post: string, es: seq<Member>, loads: JsonLoads)
    requires pre == "Result: " && post == " End"
    requires body == "\n  \"original\": \"Ciao\", \n  \"translation\": \"Hola\", \n  \"grammar\": []\n "
    requires es == [Member("original", JStr("Ciao")), Member("translation", JStr("Hola")),
                    Member("grammar", JArray([]))]
    requires loads("{" + body + "}") == Some(JObject(es))
    ensures Validated(Text(pre + "{" + body + "}" + post), loads) == Translation("Ciao", "Hola", "", [])
  {
    ProseIsIgnored(pre, body, post, es, loads);
    assert IsStripped("Ciao") && IsStripped("Hola") by { ExampleWordsStripped(); }
    NoGrammarDict(es, "Ciao", "Hola", loads);
  }

  lemma ExampleWordsStripped()
    ensures IsStripped("Ciao") && IsStripped("Hola") && IsStripped("interjección")
  {
  }
}
