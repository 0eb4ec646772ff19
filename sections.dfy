/** The section splitter `parse_ai_response`, of which the repository holds
    three copies (modern_popup_pyqt6.py, modern_popup.py and the method of
    `ModernTranslationUI` in test_tinkter.py). It walks the lines of the
    model's answer: blank lines are skipped, a line naming a section is a
    header that switches the current section, and every other line is
    appended, stripped and followed by a newline, to the current section,
    which starts as the translation. The copies differ only in their
    keyword lists. */
module SectionSplitter {
  import opened Wrappers
  import opened PyText

  // ---------------------------------------------------------------------
  // Data model

  /** The keys of the `sections` dictionary. */
  datatype Section = Original | Translation | Grammar

  /** The dictionary `{original, translation, grammar}` of accumulated texts. */
  datatype Sections = Sections(original: string, translation: string, grammar: string) {

    /** `sections[s]`. */
    function Get(s: Section): string {
      match s
      case Original => original
      case Translation => translation
      case Grammar => grammar
    }

    /** `sections[s] += text`: only the entry of `s` changes. */
    function Append(s: Section, text: string): (r: Sections)
      ensures r.Get(s) == Get(s) + text
      ensures forall o :: o != s ==> r.Get(o) == Get(o)
    {
      match s
      case Original => this.(original := original + text)
      case Translation => this.(translation := translation + text)
      case Grammar => this.(grammar := grammar + text)
    }

    /** `not any(sections.values())`: every entry is the empty string. */
    predicate AllEmpty() {
      original == "" && translation == "" && grammar == ""
    }

    /** The summed length of the three entries. */
    function TotalLength(): nat {
      |original| + |translation| + |grammar|
    }
  }

  /** The three keyword lists, checked in this order. */
  datatype Keywords = Keywords(original: seq<string>, translation: seq<string>, grammar: seq<string>)

  /** The lists of the module-level function in modern_popup_pyqt6.py. */
  const PyQt6Keywords := Keywords(
    ["texto original", "italiano", "original", "frase"],
    ["traducción al español", "español", "traducción", "traducida"],
    ["explicación gramatical", "gramática", "explicación", "palabras", "función"])

  /** The lists of the module-level function in modern_popup.py. */
  const PopupKeywords := Keywords(
    ["italiano", "original", "frase"],
    ["español", "traducción", "traducida"],
    ["gramática", "explicación", "palabras", "función"])

  /** The lists of `ModernTranslationUI.parse_ai_response` in test_tinkter.py. */
  const TkinterKeywords := Keywords(
    ["italiano", "original", "frase"],
    ["español", "traducción", "traducida"],
    ["gramática", "explicación", "palabras", "función"])

  /** `any(keyword in t for keyword in kws)`. */
  predicate AnyIn(kws: seq<string>, t: string) {
    exists k | 0 <= k < |kws| :: Contains(t, kws[k])
  }

  /** The section a stripped, non-blank line switches to when it is a
      header: original keywords first, then translation, then grammar. */
  function Header(kw: Keywords, line: string): Option<Section> {
    var t := Lower(line);
    if AnyIn(kw.original, t) then Some(Original)
    else if AnyIn(kw.translation, t) then Some(Translation)
    else if AnyIn(kw.grammar, t) then Some(Grammar)
    else None
  }

  /** The loop state: the dictionary and `current_section`. */
  datatype State = State(sections: Sections, current: Section)

  /** The state before the first line. */
  const Start := State(Sections("", "", ""), Translation)

  /** One iteration of the loop on the raw line `raw`. */
  function Step(kw: Keywords, st: State, raw: string): State {
    var line := Strip(raw);
    if line == "" then st
    else
      match Header(kw, line)
      case Some(s) => State(st.sections, s)
      case None => State(st.sections.Append(st.current, line + "\n"), st.current)
  }

  /** The state after the loop has seen `lines`. */
  function Run(kw: Keywords, lines: seq<string>): State {
    if lines == [] then Start
    else Step(kw, Run(kw, lines[..|lines| - 1]), lines[|lines| - 1])
  }

  /** What `parse_ai_response(texto)` returns with the keyword lists `kw`. */
  function Response(kw: Keywords, texto: string): Sections {
    Run(kw, Split(texto, '\n')).sections
  }

  method ParseAiResponse(kw: Keywords, texto: string) returns (sections: Sections)
    ensures sections == Response(kw, texto)
  {
    sections := Sections("", "", "");
    var lines := Split(texto, '\n');
    var current := Translation;
    var i := 0;
    while i < |lines|
      invariant 0 <= i <= |lines|
      invariant State(sections, current) == Run(kw, lines[..i])
    {
      assert lines[..i + 1][..i] == lines[..i];
      var line := Strip(lines[i]);
      if line == "" {
        i := i + 1;
        continue;
      }
      var lower := Lower(line);
      if AnyIn(kw.original, lower) {
        current := Original;
      } else if AnyIn(kw.translation, lower) {
        current := Translation;
      } else if AnyIn(kw.grammar, lower) {
        current := Grammar;
      } else {
        sections := sections.Append(current, line + "\n");
      }
      i := i + 1;
    }
    assert lines[..i] == lines;
  }

  // ---------------------------------------------------------------------
  // A reference definition, section by section

  /** A line that is neither blank nor a header: it is copied. */
  predicate IsContent(kw: Keywords, raw: string) {
    Strip(raw) != "" && Header(kw, Strip(raw)).None?
  }

  /** The section named by the nearest header among `lines`, counting from
      the end, or the translation when there is none. */
  function CurrentAfter(kw: Keywords, lines: seq<string>): Section {
    if lines == [] then Translation
    else
      var line := Strip(lines[|lines| - 1]);
      if line != "" && Header(kw, line).Some? then Header(kw, line).value
      else CurrentAfter(kw, lines[..|lines| - 1])
  }

  /** The text of section `s`: every content line whose nearest header above
      names `s` (or, with no header above, when `s` is the translation),
      stripped and followed by a newline, in input order. */
  function SectionText(kw: Keywords, lines: seq<string>, s: Section): string {
    if lines == [] then ""
    else
      var init, last := lines[..|lines| - 1], lines[|lines| - 1];
      SectionText(kw, init, s)
      + (if IsContent(kw, last) && CurrentAfter(kw, init) == s then Strip(last) + "\n" else "")
  }

  /** The stripped content lines, each followed by a newline. */
  function ContentText(kw: Keywords, lines: seq<string>): string {
    if lines == [] then ""
    else
      var last := lines[|lines| - 1];
      ContentText(kw, lines[..|lines| - 1]) + (if IsContent(kw, last) then Strip(last) + "\n" else "")
  }

  /** The summed length of the content lines, stripped, plus one each. */
  function ContentLength(kw: Keywords, lines: seq<string>): nat {
    if lines == [] then 0
    else
      var last := lines[|lines| - 1];
      ContentLength(kw, lines[..|lines| - 1]) + (if IsContent(kw, last) then |Strip(last)| + 1 else 0)
  }

  // ---------------------------------------------------------------------
  // Lemmas

  /** The loop assembles each section from exactly the content lines that
      fall under it, and its current section is the last header's. */
  lemma {:induction false} RunBySection(kw: Keywords, lines: seq<string>)
    ensures Run(kw, lines).current == CurrentAfter(kw, lines)
    ensures forall s :: Run(kw, lines).sections.Get(s) == SectionText(kw, lines, s)
  {
    if lines != [] {
      var init, last := lines[..|lines| - 1], lines[|lines| - 1];
      RunBySection(kw, init);
      var st := Run(kw, init);
      var line := Strip(last);
      if line != "" && Header(kw, line).None? {
        var next := st.sections.Append(st.current, line + "\n");
        forall s ensures next.Get(s) == SectionText(kw, lines, s) {
          if s == st.current {
            assert next.Get(s) == st.sections.Get(s) + (line + "\n");
          }
        }
      }
    }
  }

  /** With no header at all, every content line goes to the translation, and
      the original and the grammar stay empty. */
  lemma {:induction false} NoHeaderAllTranslation(kw: Keywords, lines: seq<string>)
    requires forall k :: 0 <= k < |lines| ==> Strip(lines[k]) == "" || Header(kw, Strip(lines[k])).None?
    ensures Run(kw, lines) == State(Sections("", ContentText(kw, lines), ""), Translation)
  {
    if lines != [] {
      var init, last := lines[..|lines| - 1], lines[|lines| - 1];
      forall k | 0 <= k < |init|
        ensures Strip(init[k]) == "" || Header(kw, Strip(init[k])).None?
      {
        assert init[k] == lines[k];
      }
      NoHeaderAllTranslation(kw, init);
      assert Strip(last) == "" || Header(kw, Strip(last)).None?;
    }
  }

  /** The three sections together are as long as the content lines,
      stripped, plus a newline each: headers and blank lines leave no
      trace. */
  lemma {:induction false} TotalLengthIsContent(kw: Keywords, lines: seq<string>)
    ensures Run(kw, lines).sections.TotalLength() == ContentLength(kw, lines)
  {
    if lines != [] {
      var init, last := lines[..|lines| - 1], lines[|lines| - 1];
      TotalLengthIsContent(kw, init);
      var st := Run(kw, init);
      var line := Strip(last);
      if line != "" && Header(kw, line).None? {
        var next := st.sections.Append(st.current, line + "\n");
        assert next.TotalLength() == st.sections.TotalLength() + |line| + 1 by {
          match st.current
          case Original =>
          case Translation =>
          case Grammar =>
        }
      }
    }
  }

  /** The content length is zero exactly when no line is content. */
  lemma {:induction false} ContentLengthZero(kw: Keywords, lines: seq<string>)
    ensures ContentLength(kw, lines) == 0 <==> NoContent(kw, lines)
  {
    if lines != [] {
      var init, last := lines[..|lines| - 1], lines[|lines| - 1];
      ContentLengthZero(kw, init);
      if ContentLength(kw, lines) == 0 {
        forall k | 0 <= k < |lines| ensures !IsContent(kw, lines[k]) {
          if k < |init| {
            assert lines[k] == init[k];
          }
        }
      } else if !IsContent(kw, last) {
        var k :| 0 <= k < |init| && IsContent(kw, init[k]);
        assert lines[k] == init[k];
      }
    }
  }

  /** No line is content: each is blank or a header. */
  predicate NoContent(kw: Keywords, lines: seq<string>) {
    forall k :: 0 <= k < |lines| ==> !IsContent(kw, lines[k])
  }

  /** Every section is empty exactly when no line of the answer is content:
      each non-blank line names a section. */
  lemma AllEmptyIffNoContent(kw: Keywords, texto: string)
    ensures Response(kw, texto).AllEmpty() <==> NoContent(kw, Split(texto, '\n'))
  {
    var lines := Split(texto, '\n');
    TotalLengthIsContent(kw, lines);
    ContentLengthZero(kw, lines);
    var r := Response(kw, texto);
    assert r.AllEmpty() <==> r.TotalLength() == 0;
  }

  /** A section is a run of non-empty lines, each ended by a newline: empty,
      or ending in a newline, with no newline at its start and no two
      newlines in a row. */
  ghost predicate Lined(t: string) {
    t == [] || (t[|t| - 1] == '\n' && t[0] != '\n'
      && forall i :: 0 <= i < |t| - 1 && t[i] == '\n' ==> t[i + 1] != '\n')
  }

  /** Appending a non-empty line that holds no newline, and a newline, keeps
      a section lined. */
  lemma AppendLine(t: string, line: string)
    requires Lined(t) && line != [] && '\n' !in line
    ensures Lined(t + line + "\n")
  {
    var u := t + line + "\n";
    forall i | 0 <= i < |u| - 1
      ensures u[i] == '\n' ==> u[i + 1] != '\n'
    {
      if i < |t| - 1 {
        assert u[i] == t[i] && u[i + 1] == t[i + 1];
      } else if i == |t| - 1 {
        assert u[i + 1] == line[0];
      } else {
        assert u[i] == line[i - |t|];
      }
    }
    if t == [] {
      assert u[0] == line[0];
    } else {
      assert u[0] == t[0];
    }
  }

  /** Over lines holding no newline, as `split('\n')` returns them, each
      section stays empty or a run of non-empty lines ended by newlines. */
  lemma {:induction false} SectionsLined(kw: Keywords, lines: seq<string>)
    requires forall k :: 0 <= k < |lines| ==> '\n' !in lines[k]
    ensures forall s :: Lined(Run(kw, lines).sections.Get(s))
  {
    if lines != [] {
      var init, last := lines[..|lines| - 1], lines[|lines| - 1];
      forall k | 0 <= k < |init| ensures '\n' !in init[k] {
        assert init[k] == lines[k];
      }
      SectionsLined(kw, init);
      var st := Run(kw, init);
      var line := Strip(last);
      if line != "" && Header(kw, line).None? {
        var next := st.sections.Append(st.current, line + "\n");
        assert '\n' !in line by {
          StripSlice(last);
          var lead := |last| - |LStrip(last)|;
          forall k | 0 <= k < |line| ensures line[k] != '\n' {
            assert line[k] == last[lead + k];
          }
        }
        AppendLine(st.sections.Get(st.current), line);
        forall s ensures Lined(next.Get(s)) {
          if s == st.current {
            assert next.Get(s) == st.sections.Get(s) + line + "\n";
          }
        }
      }
    }
  }

  /** Every section of a response is empty or ends in a newline, and holds no
      empty line. */
  lemma ResponseLined(kw: Keywords, texto: string)
    ensures forall s :: Lined(Response(kw, texto).Get(s))
    ensures forall s :: Response(kw, texto).Get(s) == "" || Response(kw, texto).Get(s)[|Response(kw, texto).Get(s)| - 1] == '\n'
  {
    SectionsLined(kw, Split(texto, '\n'));
  }

  // ---------------------------------------------------------------------
  // The three keyword lists

  /** A list with an extra phrase in front matches the same texts as the
      list itself when the phrase contains one of the list's keywords. */
  lemma AnyInRedundant(x: string, kws: seq<string>, j: nat, t: string)
    requires j < |kws| && Contains(x, kws[j])
    ensures AnyIn([x] + kws, t) <==> AnyIn(kws, t)
  {
    var l := [x] + kws;
    if AnyIn(l, t) {
      var k :| 0 <= k < |l| && Contains(t, l[k]);
      if k == 0 {
        ContainsTransitive(t, x, kws[j]);
      } else {
        assert l[k] == kws[k - 1];
      }
    }
    if AnyIn(kws, t) {
      var k :| 0 <= k < |kws| && Contains(t, kws[k]);
      assert l[k + 1] == kws[k];
    }
  }

  /** The longer phrases of modern_popup_pyqt6.py each contain a keyword of
      the same list. */
  lemma PhrasesHoldKeywords()
    ensures Contains("texto original", "original")
    ensures Contains("traducción al español", "español")
    ensures Contains("explicación gramatical", "explicación")
  {
    assert OccursAt("texto original", "original", 6);
    assert OccursAt("traducción al español", "español", 14);
    assert OccursAt("explicación gramatical", "explicación", 0);
  }

  /** The two lists classify every line alike. */
  lemma HeaderAgrees(t: string)
    ensures Header(PyQt6Keywords, t) == Header(PopupKeywords, t)
  {
    PhrasesHoldKeywords();
    var p, q := PyQt6Keywords, PopupKeywords;
    var lt := Lower(t);
    assert p.original == ["texto original"] + q.original;
    assert p.translation == ["traducción al español"] + q.translation;
    assert p.grammar == ["explicación gramatical"] + q.grammar;
    AnyInRedundant("texto original", q.original, 1, lt);
    AnyInRedundant("traducción al español", q.translation, 0, lt);
    AnyInRedundant("explicación gramatical", q.grammar, 1, lt);
  }

  /** Keyword lists that classify every line alike give the same loop. */
  lemma {:induction false} RunAgrees(k1: Keywords, k2: Keywords, lines: seq<string>)
    requires forall t :: Header(k1, t) == Header(k2, t)
    ensures Run(k1, lines) == Run(k2, lines)
  {
    if lines != [] {
      RunAgrees(k1, k2, lines[..|lines| - 1]);
      assert Header(k1, Strip(lines[|lines| - 1])) == Header(k2, Strip(lines[|lines| - 1]));
    }
  }

  /** The copy in modern_popup_pyqt6.py returns what the copy in
      modern_popup.py returns, for every answer. */
  lemma PyQt6MatchesPopup(texto: string)
    ensures Response(PyQt6Keywords, texto) == Response(PopupKeywords, texto)
  {
    forall t ensures Header(PyQt6Keywords, t) == Header(PopupKeywords, t) {
      HeaderAgrees(t);
    }
    RunAgrees(PyQt6Keywords, PopupKeywords, Split(texto, '\n'));
  }

  /** The method of test_tinkter.py returns what the copy in modern_popup.py
      returns, for every answer: the lists are the same. */
  lemma TkinterMatchesPopup(texto: string)
    ensures Response(TkinterKeywords, texto) == Response(PopupKeywords, texto)
  {
  }

  // ---------------------------------------------------------------------
  // The three copies

  /** `parse_ai_response` of modern_popup.py. */
  method ParsePopupResponse(texto: string) returns (sections: Sections)
    ensures sections == Response(PopupKeywords, texto)
    ensures sections.AllEmpty() <==> NoContent(PopupKeywords, Split(texto, '\n'))
  {
    sections := ParseAiResponse(PopupKeywords, texto);
    AllEmptyIffNoContent(PopupKeywords, texto);
  }

  /** `parse_ai_response` of modern_popup_pyqt6.py: its longer lists give
      the result of the copy in modern_popup.py. */
  method ParsePyQt6Response(texto: string) returns (sections: Sections)
    ensures sections == Response(PyQt6Keywords, texto)
    ensures sections == Response(PopupKeywords, texto)
  {
    sections := ParseAiResponse(PyQt6Keywords, texto);
    PyQt6MatchesPopup(texto);
  }

  /** `ModernTranslationUI.parse_ai_response` of test_tinkter.py: it gives
      the result of the copy in modern_popup.py. */
  method ParseTkinterResponse(texto: string) returns (sections: Sections)
    ensures sections == Response(TkinterKeywords, texto)
    ensures sections == Response(PopupKeywords, texto)
  {
    sections := ParseAiResponse(TkinterKeywords, texto);
    TkinterMatchesPopup(texto);
  }

  // ---------------------------------------------------------------------
  // The sample answer of modern_popup_pyqt6.py

  /** A line whose lower-cased text holds an original keyword is an
      original header, whatever else it holds. */
  lemma OriginalKeywordMakesHeader(kw: Keywords, line: string, j: nat, i: int)
    requires j < |kw.original| && OccursAt(Lower(line), kw.original[j], i)
    ensures Header(kw, line) == Some(Original)
  {
  }

  /** The content line `- Ciao: saludo informal en italiano` of the sample
      answer mentions `italiano`, so every copy takes it for an original
      header: it switches to the original section and is not copied. */
  lemma CiaoLineIsHeader(line: string, kw: Keywords, st: State)
    requires line == "- Ciao: saludo informal en italiano"
    requires kw == PyQt6Keywords || kw == PopupKeywords || kw == TkinterKeywords
    ensures Strip(line) == line && Header(kw, line) == Some(Original)
    ensures Step(kw, st, line) == State(st.sections, Original)
  {
    assert IsStripped(line);
    StrippedIsFixed(line);
    var low := Lower(line);
    assert low[27..35] == "italiano" by {
      forall k | 0 <= k < 8 ensures low[27 + k] == "italiano"[k] {
        assert low[27 + k] == LowerChar(line[27 + k]);
      }
    }
    var j := if kw == PyQt6Keywords then 1 else 0;
    assert kw.original[j] == "italiano";
    OriginalKeywordMakesHeader(kw, line, j, 27);
  }
}
