/** The grammar-line parser of the popup window
    (`PopupWindow.parse_grammar_content` in popup_refactored.py): it reads
    the `- word: explanation (function)` lines that the translation
    normaliser renders back into word, explanation and function entries. */
module GrammarParser {
  import opened Wrappers
  import opened PyText

  /** One parsed line: the dictionary `{word, explanation, function}`. */
  datatype Entry = Entry(word: string, explanation: string, func: string)

  /** The characters `line.lstrip('- ')` removes. */
  const DashOrSpace: set<char> := {'-', ' '}

  /** The guard of the function extraction: `rest` holds `(` and `)`, and
      its last `(` comes before its last `)`. */
  predicate TrailingGroup(rest: string) {
    '(' in rest && ')' in rest && RFind(rest, '(') < RFind(rest, ')')
  }

  /** The explanation and the function read from the text after the colon. */
  function SplitRest(rest: string): (string, string) {
    if TrailingGroup(rest) then
      var fs, fe := RFind(rest, '('), RFind(rest, ')');
      RFindSpec(rest, '(');
      (Strip(rest[..fs]), rest[fs + 1..fe])
    else (rest, "")
  }

  /** The entry read from a line once its leading dashes and spaces are
      removed: the word before the first colon, the rest after it. */
  function ParseBody(body: string): Option<Entry> {
    if ':' !in body then None
    else
      var colon := Find(body, ':');
      FindSpec(body, ':');
      var (explanation, func) := SplitRest(Strip(body[colon + 1..]));
      Some(Entry(Strip(body[..colon]), explanation, func))
  }

  /** The entry read from one line of the grammar text, or None when the
      line is skipped. */
  function ParseLine(raw: string): Option<Entry> {
    var line := Strip(raw);
    if line == [] || line[0] != '-' then None
    else ParseBody(LStripChars(line, DashOrSpace))
  }

  /** `f` applied to each line, in order, keeping the results that are
      present. */
  function Collect<T>(lines: seq<string>, f: string -> Option<T>): seq<T> {
    if lines == [] then []
    else
      var last := f(lines[|lines| - 1]);
      Collect(lines[..|lines| - 1], f) + (if last.Some? then [last.value] else [])
  }

  /** The list `word_explanations` after the loop has seen `lines`. */
  function EntriesOf(lines: seq<string>): seq<Entry> {
    Collect(lines, ParseLine)
  }

  /** The lines `content.strip().split('\n')` the parser walks through. */
  function ContentLines(content: string): seq<string> {
    Split(Strip(content), '\n')
  }

  /** What `parse_grammar_content(content)` returns. */
  function GrammarEntries(content: string): seq<Entry> {
    EntriesOf(ContentLines(content))
  }

  method ParseGrammarContent(content: string) returns (entries: seq<Entry>)
    ensures entries == GrammarEntries(content)
    ensures |entries| <= |ContentLines(content)|
    ensures forall k :: 0 <= k < |entries| ==>
      IsStripped(entries[k].word) && ':' !in entries[k].word
      && IsStripped(entries[k].explanation) && '(' !in entries[k].func
  {
    entries := [];
    var lines := Split(Strip(content), '\n');
    var i := 0;
    while i < |lines|
      invariant 0 <= i <= |lines|
      invariant entries == EntriesOf(lines[..i])
    {
      assert lines[..i + 1][..i] == lines[..i] && lines[..i + 1][i] == lines[i];
      var parsed := ParseGrammarLine(lines[i]);
      if parsed.Some? {
        entries := entries + [parsed.value];
      }
      i := i + 1;
    }
    assert lines[..i] == lines;
    EntriesShape(lines);
  }

  /** One pass of the loop body: the entry read from `raw`, or None where
      the loop skips the line. */
  method ParseGrammarLine(raw: string) returns (parsed: Option<Entry>)
    ensures parsed == ParseLine(raw)
  {
    var line := Strip(raw);
    if line == [] || line[0] != '-' {
      return None;
    }
    line := LStripChars(line, DashOrSpace);
    if ':' !in line {
      return None;
    }
    var colon := Find(line, ':');
    FindSpec(line, ':');
    var word := Strip(line[..colon]);
    var rest := Strip(line[colon + 1..]);
    var func := "";
    var explanation := rest;
    if '(' in rest && ')' in rest {
      var funcStart := RFind(rest, '(');
      var funcEnd := RFind(rest, ')');
      if funcStart < funcEnd {
        RFindSpec(rest, '(');
        func := rest[funcStart + 1..funcEnd];
        explanation := Strip(rest[..funcStart]);
      }
    }
    parsed := Some(Entry(word, explanation, func));
  }

  // ---------------------------------------------------------------------
  // Lemmas

  /** Strip removes only whitespace, so a colon survives it. */
  lemma ColonSurvivesStrip(raw: string)
    ensures ':' in Strip(raw) <==> ':' in raw
  {
    StripSlice(raw);
    var lead := |raw| - |LStrip(raw)|;
    var t := Strip(raw);
    forall k | 0 <= k < lead ensures raw[k] != ':' {
      assert raw[..lead][k] == raw[k];
    }
    forall k | lead + |t| <= k < |raw| ensures raw[k] != ':' {
      assert raw[lead + |t|..][k - lead - |t|] == raw[k];
    }
    forall k | 0 <= k < |t| ensures t[k] == raw[lead + k] {
    }
    if ':' in raw {
      var k :| 0 <= k < |raw| && raw[k] == ':';
      assert t[k - lead] == ':';
    }
  }

  /** A line yields an entry exactly when, once stripped, it starts with a
      dash, and it holds a colon: `lstrip('- ')` never removes the colon. */
  lemma ParseLineSome(raw: string)
    ensures ParseLine(raw).Some? <==> Strip(raw) != [] && Strip(raw)[0] == '-' && ':' in raw
  {
    var line := Strip(raw);
    ColonSurvivesStrip(raw);
    if line != [] && line[0] == '-' {
      var body := LStripChars(line, DashOrSpace);
      assert ':' in body <==> ':' in line by {
        if ':' in line {
          var k :| 0 <= k < |line| && line[k] == ':';
          assert k >= |line| - |body|;
          assert body[k - (|line| - |body|)] == ':';
        }
        if ':' in body {
          var k :| 0 <= k < |body| && body[k] == ':';
          assert line[|line| - |body| + k] == ':';
        }
      }
    }
  }

  /** `SplitRest` unfolded on both branches of its guard, with the
      positions written as the `rfind` calls that locate them. */
  lemma SplitRestCases(rest: string)
    ensures TrailingGroup(rest) ==>
      0 <= RFind(rest, '(') && SplitRest(rest) == (Strip(rest[..RFind(rest, '(')]), rest[RFind(rest, '(') + 1..RFind(rest, ')')])
    ensures !TrailingGroup(rest) ==> SplitRest(rest) == (rest, "")
  {
    RFindSpec(rest, '(');
  }

  /** The function is taken from the last `(` to the last `)` when the
      first precedes the second, with the stripped text before that `(` as
      the explanation; otherwise the function is "" and the explanation is
      the whole rest. */
  lemma SplitRestSpec(rest: string)
    ensures !TrailingGroup(rest) ==> SplitRest(rest) == (rest, "")
    ensures TrailingGroup(rest) ==>
      exists i, j :: GroupAt(rest, i, j) && SplitRest(rest) == (Strip(rest[..i]), rest[i + 1..j])
  {
    if TrailingGroup(rest) {
      var i, j := RFind(rest, '('), RFind(rest, ')');
      RFindSpec(rest, '(');
      RFindSpec(rest, ')');
      assert GroupAt(rest, i, j);
    }
  }

  /** `rest[i]` is its last `(` and `rest[j]`, further on, its last `)`. */
  ghost predicate GroupAt(rest: string, i: int, j: int) {
    0 <= i < j < |rest| && rest[i] == '(' && rest[j] == ')'
    && '(' !in rest[i + 1..] && ')' !in rest[j + 1..]
  }

  /** A parsed word is stripped and holds no colon, the explanation is
      stripped and the function holds no `(`. */
  lemma ParseLineShape(raw: string)
    requires ParseLine(raw).Some?
    ensures IsStripped(ParseLine(raw).value.word) && ':' !in ParseLine(raw).value.word
    ensures IsStripped(ParseLine(raw).value.explanation)
    ensures '(' !in ParseLine(raw).value.func
  {
    ParseBodyShape(LStripChars(Strip(raw), DashOrSpace));
  }

  lemma ParseBodyShape(body: string)
    requires ParseBody(body).Some?
    ensures IsStripped(ParseBody(body).value.word) && ':' !in ParseBody(body).value.word
    ensures IsStripped(ParseBody(body).value.explanation)
    ensures '(' !in ParseBody(body).value.func
  {
    var colon := Find(body, ':');
    FindSpec(body, ':');
    var before := body[..colon];
    assert ':' !in Strip(before) by {
      ColonSurvivesStrip(before);
    }
    var rest := Strip(body[colon + 1..]);
    SplitRestShape(rest);
  }

  /** The explanation is stripped when the rest is, and the function holds
      no `(`. */
  lemma SplitRestShape(rest: string)
    ensures IsStripped(rest) ==> IsStripped(SplitRest(rest).0)
    ensures '(' !in SplitRest(rest).1
  {
    SplitRestSpec(rest);
    if TrailingGroup(rest) {
      var i, j :| GroupAt(rest, i, j) && SplitRest(rest) == (Strip(rest[..i]), rest[i + 1..j]);
      var f := rest[i + 1..j];
      forall k | 0 <= k < |f| ensures f[k] != '(' {
        assert f[k] == rest[i + 1..][k];
      }
    }
  }

  /** Results come out in line order, one per line at most: the `k`-th is
      the one `f` reads from line `pos[k]`, and the positions strictly
      increase. */
  lemma {:induction false} CollectInOrder<T>(lines: seq<string>, f: string -> Option<T>) returns (pos: seq<nat>)
    ensures |pos| == |Collect(lines, f)| <= |lines|
    ensures forall k :: 0 <= k < |pos| ==>
      pos[k] < |lines| && f(lines[pos[k]]) == Some(Collect(lines, f)[k])
    ensures forall k, l :: 0 <= k < l < |pos| ==> pos[k] < pos[l]
  {
    if lines == [] {
      pos := [];
    } else {
      var init, last := lines[..|lines| - 1], lines[|lines| - 1];
      var p := CollectInOrder(init, f);
      var more := if f(last).Some? then [f(last).value] else [];
      assert Collect(lines, f) == Collect(init, f) + more;
      pos := if f(last).Some? then p + [|lines| - 1] else p;
      forall k | 0 <= k < |pos|
        ensures pos[k] < |lines| && f(lines[pos[k]]) == Some(Collect(lines, f)[k])
      {
        if k < |p| {
          assert pos[k] == p[k] && lines[p[k]] == init[p[k]];
          assert Collect(lines, f)[k] == Collect(init, f)[k];
        } else {
          assert Collect(lines, f)[k] == more[0];
        }
      }
      forall k, l | 0 <= k < l < |pos|
        ensures pos[k] < pos[l]
      {
        if l < |p| {
          assert pos[k] == p[k] && pos[l] == p[l];
        } else {
          assert pos[k] == p[k] < |init|;
        }
      }
    }
  }

  /** Every line that `f` reads contributes its result. */
  lemma {:induction false} CollectHas<T>(lines: seq<string>, f: string -> Option<T>, i: nat)
    requires i < |lines| && f(lines[i]).Some?
    ensures f(lines[i]).value in Collect(lines, f)
  {
    var init := lines[..|lines| - 1];
    if i < |init| {
      assert init[i] == lines[i];
      CollectHas(init, f, i);
    }
  }

  /** Entries come out in line order, at most one per line, and every
      line that parses contributes its entry. */
  lemma EntriesInOrder(lines: seq<string>) returns (pos: seq<nat>)
    ensures |pos| == |EntriesOf(lines)| <= |lines|
    ensures forall k :: 0 <= k < |pos| ==>
      pos[k] < |lines| && ParseLine(lines[pos[k]]) == Some(EntriesOf(lines)[k])
    ensures forall k, l :: 0 <= k < l < |pos| ==> pos[k] < pos[l]
    ensures forall i :: 0 <= i < |lines| && ParseLine(lines[i]).Some? ==>
      ParseLine(lines[i]).value in EntriesOf(lines)
  {
    pos := CollectInOrder(lines, ParseLine);
    forall i | 0 <= i < |lines| && ParseLine(lines[i]).Some?
      ensures ParseLine(lines[i]).value in EntriesOf(lines)
    {
      CollectHas(lines, ParseLine, i);
    }
  }

  /** Every entry has the shape `ParseLineShape` describes, and there are
      at most as many entries as lines. */
  lemma EntriesShape(lines: seq<string>)
    ensures |EntriesOf(lines)| <= |lines|
    ensures forall k :: 0 <= k < |EntriesOf(lines)| ==>
      IsStripped(EntriesOf(lines)[k].word) && ':' !in EntriesOf(lines)[k].word
      && IsStripped(EntriesOf(lines)[k].explanation) && '(' !in EntriesOf(lines)[k].func
  {
    var pos := EntriesInOrder(lines);
    forall k | 0 <= k < |EntriesOf(lines)|
      ensures IsStripped(EntriesOf(lines)[k].word) && ':' !in EntriesOf(lines)[k].word
      ensures IsStripped(EntriesOf(lines)[k].explanation) && '(' !in EntriesOf(lines)[k].func
    {
      ParseLineShape(lines[pos[k]]);
    }
  }

  /** The popup never reads more entries than the content has characters
      plus one: there are at most as many entries as lines, and `split`
      yields at most one line more than there are characters. */
  lemma EntriesBound(content: string)
    ensures |GrammarEntries(content)| <= |content| + 1
  {
    EntriesShape(ContentLines(content));
    SplitLength(Strip(content), '\n');
  }

  /** Lines that `f` each reads as the given result yield exactly those
      results. */
  lemma {:induction false} CollectAllRead<T>(lines: seq<string>, f: string -> Option<T>, rs: seq<T>)
    requires |lines| == |rs|
    requires forall k :: 0 <= k < |lines| ==> f(lines[k]) == Some(rs[k])
    ensures Collect(lines, f) == rs
  {
    if lines != [] {
      var n := |lines| - 1;
      CollectAllRead(lines[..n], f, rs[..n]);
      assert rs == rs[..n] + [rs[n]];
    }
  }
}
