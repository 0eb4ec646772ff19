/** How the two halves of the grammar pipeline fit together: the text that
    `_build_grammar_text` renders from normalised items, read back by the
    popup's `parse_grammar_content`, gives each item's word, explanation
    and function again, provided the fields do not hold the characters the
    line format uses as delimiters. */
module GrammarRoundTrip {
  import opened Wrappers
  import opened PyText
  import opened Validation
  import opened GrammarParser

  /** The fields of `g` survive a render and a parse: `g` is stripped, has a
      word that does not start with `-` and holds no colon, no field holds a
      newline, the function holds no `(`, and an item without a function has
      no explanation that itself ends in a parenthesised group. */
  predicate RoundTrips(g: GrammarItem) {
    WellStripped(g) && g.word != "" && g.word[0] != '-' && ':' !in g.word
    && '\n' !in g.word && '\n' !in g.explanation && '\n' !in g.func
    && '(' !in g.func
    && (g.func == "" ==> !TrailingGroup(g.explanation))
  }

  /** The entry the parser is expected to return for `g`. */
  function EntryOf(g: GrammarItem): Entry {
    Entry(g.word, g.explanation, g.func)
  }

  /** The text after `": "` on the rendered line of an item. */
  function Tail(e: string, f: string): string {
    " " + e + (if f != "" then " (" + f + ")" else "")
  }

  // ---------------------------------------------------------------------
  // One line

  /** A line `"- " + w + ":" + y` with a plain word `w` parses to `w` and
      whatever the stripped `y` splits into. */
  lemma ParseDashLine(w: string, y: string)
    requires w != [] && w[0] !in DashOrSpace && IsStripped(w) && ':' !in w
    ensures ParseLine("- " + w + ":" + y)
      == Some(Entry(w, SplitRest(Strip(y)).0, SplitRest(Strip(y)).1))
  {
    StripDashLine(w, y);
    DashBody(w, RStrip(y));
    BodyParse(w, RStrip(y));
    StripOfRStrip(y);
  }

  /** Stripping such a line only strips the end of `y`. */
  lemma StripDashLine(w: string, y: string)
    ensures Strip("- " + w + ":" + y) == "- " + w + ":" + RStrip(y)
  {
    var x := "- " + w + ":";
    LStripNonSpaceStart(x + y);
    RStripKeep(x, y);
  }

  /** `lstrip('- ')` removes exactly the leading `"- "`. */
  lemma DashBody(w: string, z: string)
    requires w != [] && w[0] !in DashOrSpace
    ensures LStripChars("- " + w + ":" + z, DashOrSpace) == w + [':'] + z
  {
    var t := "- " + w + ":" + z;
    var body := w + [':'] + z;
    assert t[1..] == [' '] + body;
    assert t[1..][1..] == body;
    assert body[0] == w[0];
  }

  /** The word is what comes before the first colon. */
  lemma BodyParse(w: string, z: string)
    requires IsStripped(w) && ':' !in w
    ensures ParseBody(w + [':'] + z) == Some(Entry(w, SplitRest(Strip(z)).0, SplitRest(Strip(z)).1))
  {
    var body := w + [':'] + z;
    assert body[|w|] == ':';
    FindAfterPrefix(w, ':', z);
    assert body[..|w|] == w;
    assert body[|w| + 1..] == z;
    StrippedIsFixed(w);
  }

  /** The text after `": "`, stripped: the explanation alone, or the
      explanation and a space before the parenthesised function. */
  lemma StripTail(e: string, f: string)
    requires IsStripped(e) && IsStripped(f)
    ensures f == "" ==> Strip(Tail(e, f)) == e
    ensures f != "" ==> Strip(Tail(e, f)) == (if e != "" then e + " " else "") + "(" + f + ")"
  {
    var g := "(" + f + ")";
    if f == "" && e == "" {
      assert Tail(e, f) == " ";
      assert LStrip(" ") == "";
    } else if f == "" {
      assert Tail(e, f) == " " + e + "";
      StripAround(" ", e, "");
      assert LStrip(" ") == "";
    } else if e == "" {
      assert Tail(e, f) == "  " + g + "";
      StripAround("  ", g, "");
      assert LStrip("  ") == "";
    } else {
      assert Tail(e, f) == " " + e + (" " + g);
      StripAround(" ", e, " " + g);
      assert LStrip(" ") == "";
      assert RStrip(" " + g) == " " + g by {
        assert (" " + g)[|" " + g| - 1] == ')';
      }
      assert e + (" " + g) == (e + " ") + "(" + f + ")";
    }
  }

  /** A rest that ends in `(f)`, with no `(` inside `f`, splits into the
      stripped text before the group and `f`. */
  lemma SplitGroup(pre: string, f: string)
    requires '(' !in f
    ensures SplitRest(pre + "(" + f + ")") == (Strip(pre), f)
  {
    var rest := pre + "(" + f + ")";
    assert RFind(rest, '(') == |pre| by {
      assert rest == pre + ['('] + (f + ")");
      RFindBeforeSuffix(pre, '(', f + ")");
    }
    assert RFind(rest, ')') == |rest| - 1 by {
      assert rest == (pre + "(" + f) + ")" + "";
      RFindEndOf(pre + "(" + f, ")", "", ')');
    }
    assert rest[|pre|] == '(' && rest[|rest| - 1] == ')';
    assert TrailingGroup(rest);
    SplitRestCases(rest);
    assert rest[..|pre|] == pre;
    assert rest[|pre| + 1..|rest| - 1] == f;
  }

  /** The text after the colon splits back into the explanation and the
      function it was rendered from. */
  lemma RestOfLine(e: string, f: string)
    requires IsStripped(e) && IsStripped(f) && '(' !in f
    requires f == "" ==> !TrailingGroup(e)
    ensures SplitRest(Strip(Tail(e, f))) == (e, f)
  {
    StripTail(e, f);
    if f == "" {
      SplitRestCases(e);
    } else {
      var pre := if e != "" then e + " " else "";
      SplitGroup(pre, f);
      if e != "" {
        assert Strip(pre) == e by {
          StripDropLastSpace(pre);
          assert pre[..|pre| - 1] == e;
          StrippedIsFixed(e);
        }
      }
    }
  }

  /** The line rendered for an item that round-trips parses to its entry;
      it starts with `-` and holds no newline. */
  lemma LineRoundTrip(g: GrammarItem)
    requires RoundTrips(g)
    ensures GrammarLine(g).Some?
    ensures ParseLine(GrammarLine(g).value) == Some(EntryOf(g))
    ensures GrammarLine(g).value[0] == '-' && '\n' !in GrammarLine(g).value
  {
    LineText(g);
    var w, e, f := g.word, g.explanation, g.func;
    assert w[0] !in DashOrSpace by {
      assert IsSpace(' ');
    }
    ParseDashLine(w, Tail(e, f));
    RestOfLine(e, f);
  }

  /** The rendered line of a named, stripped item, as a prefix up to the
      colon and the tail after it; it holds a newline only where a field
      does. */
  lemma LineText(g: GrammarItem)
    requires WellStripped(g) && g.word != ""
    ensures GrammarLine(g) == Some("- " + g.word + ":" + Tail(g.explanation, g.func))
    ensures '\n' !in g.word && '\n' !in g.explanation && '\n' !in g.func
      ==> '\n' !in GrammarLine(g).value
  {
    var w, e, f := g.word, g.explanation, g.func;
    var fp := if f != "" then " (" + f + ")" else "";
    GrammarLineOfStripped(g);
    assert ": " == ":" + " ";
    Regroup("- ", w, ":", " ", e, fp);
  }

  /** Why an item without a function must not end its explanation in a
      parenthesised group: the parser reads that group as the function. */
  lemma GroupInExplanationIsRead(g: GrammarItem, e1: string, f: string)
    requires WellStripped(g) && g.word != "" && g.word[0] != '-' && ':' !in g.word
    requires g.func == "" && g.explanation == e1 + " (" + f + ")"
    requires e1 != "" && IsStripped(e1) && '(' !in f
    ensures GrammarLine(g).Some?
    ensures ParseLine(GrammarLine(g).value) == Some(Entry(g.word, e1, f))
  {
    var w, e := g.word, g.explanation;
    var y := Tail(e, "");
    assert GrammarLine(g) == Some("- " + w + ":" + y) by {
      LineText(g);
    }
    assert ParseLine("- " + w + ":" + y)
      == Some(Entry(w, SplitRest(Strip(y)).0, SplitRest(Strip(y)).1)) by {
      assert IsSpace(' ');
      ParseDashLine(w, y);
    }
    assert Strip(y) == e by {
      StripTail(e, "");
    }
    ExplanationGroup(e1, f);
  }

  /** An explanation that ends in `" (f)"` splits into its head and `f`. */
  lemma ExplanationGroup(e1: string, f: string)
    requires e1 != "" && IsStripped(e1) && '(' !in f
    ensures SplitRest(e1 + " (" + f + ")") == (e1, f)
  {
    assert " (" == " " + "(";
    Regroup2(e1, " ", "(", f, ")");
    SplitGroup(e1 + " ", f);
    StripDropLastSpace(e1 + " ");
    assert (e1 + " ")[..|e1|] == e1;
    StrippedIsFixed(e1);
  }

  /** Concatenation regrouped: the rendered line read as prefix and tail. */
  lemma Regroup(a: string, w: string, b: string, c: string, e: string, fp: string)
    ensures a + w + (b + c) + e + fp == a + w + b + (c + e + fp)
  {
  }

  /** Concatenation regrouped: a space moved from the group to the
      explanation. */
  lemma Regroup2(a: string, b: string, c: string, d: string, x: string)
    ensures a + (b + c) + d + x == (a + b) + c + d + x
  {
  }

  // ---------------------------------------------------------------------
  // The whole text

  /** Joining a longer list appends one separator and the last part. */
  lemma {:induction false} JoinSnoc(xs: seq<string>, y: string, sep: string)
    requires xs != []
    ensures Join(xs + [y], sep) == Join(xs, sep) + sep + y
  {
    if |xs| > 1 {
      assert (xs + [y])[1..] == xs[1..] + [y];
      JoinSnoc(xs[1..], y, sep);
    }
  }

  /** A join of two or more parts is the join of all but the last, one
      separator, and the last part. */
  lemma JoinInit(xs: seq<string>, sep: string)
    requires |xs| >= 2
    ensures Join(xs, sep) == Join(xs[..|xs| - 1], sep) + sep + xs[|xs| - 1]
  {
    assert xs == xs[..|xs| - 1] + [xs[|xs| - 1]];
    JoinSnoc(xs[..|xs| - 1], xs[|xs| - 1], sep);
  }

  /** A join whose first part starts with `-` starts with `-`. */
  lemma {:induction false} JoinFirst(parts: seq<string>, sep: string)
    requires |parts| >= 1 && parts[0] != [] && parts[0][0] == '-'
    ensures Join(parts, sep) != [] && Join(parts, sep)[0] == '-'
  {
  }

  /** Stripping the joined lines only strips the end of the last line,
      when every line starts with `-`. */
  lemma StripJoinedLines(lines: seq<string>)
    requires |lines| >= 1 && lines[0] != [] && lines[0][0] == '-'
    requires lines[|lines| - 1] != [] && !IsSpace(lines[|lines| - 1][0])
    ensures Strip(Join(lines, "\n"))
      == Join(lines[..|lines| - 1] + [RStrip(lines[|lines| - 1])], "\n")
  {
    var n := |lines|;
    var last := lines[n - 1];
    var j := Join(lines, "\n");
    assert LStrip(j) == j by {
      JoinFirst(lines, "\n");
      LStripNonSpaceStart(j);
    }
    if n == 1 {
      assert lines[..0] + [RStrip(last)] == [RStrip(last)];
    } else {
      var init := lines[..n - 1];
      var ji := Join(init, "\n");
      assert j == ji + "\n" + last by {
        JoinInit(lines, "\n");
      }
      assert RStrip(j) == ji + "\n" + RStrip(last) by {
        RStripAppend(ji + "\n", last);
      }
      JoinSnoc(init, RStrip(last), "\n");
    }
  }

  /** The round trip: for items that satisfy `RoundTrips`, parsing the
      rendered grammar text returns one entry per item, in order, with the
      item's word, explanation and function. */
  lemma RoundTrip(items: seq<GrammarItem>)
    requires forall k :: 0 <= k < |items| ==> RoundTrips(items[k])
    ensures GrammarEntries(GrammarText(items))
      == seq(|items|, k requires 0 <= k < |items| => EntryOf(items[k]))
  {
    var want := seq(|items|, k requires 0 <= k < |items| => EntryOf(items[k]));
    GrammarLinesOneEach(items);
    var lines := GrammarLines(items);
    if items == [] {
      assert GrammarText(items) == "";
      assert Strip("") == "";
      assert Split("", '\n') == [""];
      assert ParseLine("") == None;
      assert EntriesOf([""]) == EntriesOf([""][..0]);
    } else {
      var n := |lines|;
      forall k | 0 <= k < n
        ensures lines[k] != [] && lines[k][0] == '-' && '\n' !in lines[k]
        ensures ParseLine(lines[k]) == Some(want[k])
      {
        LineRoundTrip(items[k]);
      }
      StripJoinedLines(lines);
      var read := lines[..n - 1] + [RStrip(lines[n - 1])];
      RStripPrefix(lines[n - 1]);
      forall k | 0 <= k < n
        ensures '\n' !in read[k] && ParseLine(read[k]) == Some(want[k])
      {
        if k == n - 1 {
          StripOfRStrip(lines[k]);
          assert Strip(read[k]) == Strip(lines[k]);
        } else {
          assert read[k] == lines[k];
        }
      }
      SplitJoin(read, '\n');
      assert ContentLines(GrammarText(items)) == read;
      CollectAllRead(read, ParseLine, want);
    }
  }

  // ---------------------------------------------------------------------
  // The sample data of popup_refactored.py

  /** The word, explanation and function of each line of the `grammar`
      text of `create_sample_data()`; the longer fields are written in
      pieces. */
  const SampleItems: seq<GrammarItem> := [
    GrammarItem("Che", "que", "conjunción", "", "", ""),
    GrammarItem("poi", "luego", "adverbio", "", "", ""),
    GrammarItem("ti", "a ti", "pronombre de " + "objeto indirecto", "", "", ""),
    GrammarItem("vengo", "vengo",
      "verbo venir en " + "primera persona " + "del singular, " + "presente indicativo", "", "", ""),
    GrammarItem("a", "a",
      "preposición que " + "introduce el " + "complemento de " + "régimen", "", "", ""),
    GrammarItem("cercare", "buscar", "verbo en " + "infinitivo", "", "", "")]

  /** The six lines of the `grammar` text of `create_sample_data()`, as
      written there; the longer lines are written in pieces. */
  const SampleLines: seq<string> := [
    "- Che: que " + "(conjunción)",
    "- poi: luego " + "(adverbio)",
    "- ti: a ti (" + "pronombre de " + "objeto indirecto" + ")",
    "- vengo: vengo (" + "verbo venir en " + "primera persona " + "del singular, "
      + "presente indicativo" + ")",
    "- a: a (" + "preposición que " + "introduce el " + "complemento de " + "régimen" + ")",
    "- cercare: " + "buscar (" + "verbo en " + "infinitivo" + ")"]

  /** The `grammar` text of `create_sample_data()`: its six lines joined by
      newlines. */
  const SampleGrammar: string := Join(SampleLines, "\n")

  /** An item with plain fields and a function round-trips. */
  lemma PlainItem(w: string, e: string, f: string)
    requires w != [] && w[0] != '-' && ':' !in w && IsStripped(w) && IsStripped(e) && IsStripped(f)
    requires '\n' !in w && '\n' !in e && '\n' !in f && '(' !in f && f != ""
    ensures RoundTrips(GrammarItem(w, e, f, "", "", ""))
  {
    assert IsStripped("");
  }

  /** Every sample item round-trips. */
  lemma SampleItemsRoundTrip()
    ensures forall k :: 0 <= k < |SampleItems| ==> RoundTrips(SampleItems[k])
  {
    SampleChe("Che", "que", "conjunción");
    SamplePoi("poi", "luego", "adverbio");
    SampleTi("ti", "a ti", "pronombre de " + "objeto indirecto");
    SampleVengo("vengo", "verbo venir en " + "primera persona " + "del singular, " + "presente indicativo");
    SampleA("a", "preposición que " + "introduce el " + "complemento de " + "régimen");
    SampleCercare("cercare", "buscar", "verbo en " + "infinitivo");
  }

  lemma SampleChe(w: string, e: string, f: string)
    requires w == "Che" && e == "que" && f == "conjunción"
    ensures RoundTrips(GrammarItem(w, e, f, "", "", ""))
  {
    PlainItem(w, e, f);
  }

  lemma SamplePoi(w: string, e: string, f: string)
    requires w == "poi" && e == "luego" && f == "adverbio"
    ensures RoundTrips(GrammarItem(w, e, f, "", "", ""))
  {
    PlainItem(w, e, f);
  }

  lemma SampleTi(w: string, e: string, f: string)
    requires w == "ti" && e == "a ti" && f == "pronombre de " + "objeto indirecto"
    ensures RoundTrips(GrammarItem(w, e, f, "", "", ""))
  {
    PlainItem(w, e, f);
  }

  lemma SampleCercare(w: string, e: string, f: string)
    requires w == "cercare" && e == "buscar" && f == "verbo en " + "infinitivo"
    ensures RoundTrips(GrammarItem(w, e, f, "", "", ""))
  {
    PlainItem(w, e, f);
  }

  lemma SampleVengo(w: string, f: string)
    requires w == "vengo"
    requires f == "verbo venir en " + "primera persona " + "del singular, " + "presente indicativo"
    ensures RoundTrips(GrammarItem(w, w, f, "", "", ""))
  {
    LongFunction(f, "verbo venir en ", "primera persona ", "del singular, ", "presente indicativo");
    PlainItem(w, w, f);
  }

  lemma SampleA(w: string, f: string)
    requires w == "a"
    requires f == "preposición que " + "introduce el " + "complemento de " + "régimen"
    ensures RoundTrips(GrammarItem(w, w, f, "", "", ""))
  {
    LongFunction(f, "preposición que ", "introduce el ", "complemento de ", "régimen");
    PlainItem(w, w, f);
  }

  /** A function written in four pieces is plain when its pieces are. */
  lemma LongFunction(f: string, a: string, b: string, p: string, d: string)
    requires f == a + b + p + d && a != [] && d != []
    requires '(' !in a && '(' !in b && '(' !in p && '(' !in d
    requires '\n' !in a && '\n' !in b && '\n' !in p && '\n' !in d
    requires !IsSpace(a[0]) && !IsSpace(d[|d| - 1])
    ensures '(' !in f && '\n' !in f && IsStripped(f) && f != ""
  {
    assert f[0] == a[0] && f[|f| - 1] == d[|d| - 1];
  }

  /** The renderer writes the sample items as the sample text. */
  lemma SampleRendering()
    ensures GrammarText(SampleItems) == SampleGrammar
  {
    SampleItemsRoundTrip();
    forall k | 0 <= k < |SampleItems|
      ensures GrammarLine(SampleItems[k]) == Some(SampleLines[k])
    {
      if k == 0 { LineChe(SampleItems[0]); }
      else if k == 1 { LinePoi(SampleItems[1]); }
      else if k == 2 { LineTi(SampleItems[2]); }
      else if k == 3 { LineVengo(SampleItems[3]); }
      else if k == 4 { LineA(SampleItems[4]); }
      else { LineCercare(SampleItems[5]); }
    }
    TextOfLines(SampleItems, SampleLines);
  }

  /** Items that each render as the matching line give the lines joined
      by newlines. */
  lemma TextOfLines(items: seq<GrammarItem>, lines: seq<string>)
    requires forall k :: 0 <= k < |items| ==> RoundTrips(items[k])
    requires |lines| == |items|
    requires forall k :: 0 <= k < |items| ==> GrammarLine(items[k]) == Some(lines[k])
    ensures GrammarText(items) == Join(lines, "\n")
  {
    GrammarLinesOneEach(items);
    assert GrammarLines(items) == lines;
  }

  /** A stripped item with a word and a function renders as
      `- w: e (f)`. */
  lemma RenderedAs(g: GrammarItem, line: string)
    requires RoundTrips(g) && g.func != ""
    requires "- " + g.word + ": " + g.explanation + " (" + g.func + ")" == line
    ensures GrammarLine(g) == Some(line)
  {
    GrammarLineOfStripped(g);
  }

  lemma LineChe(g: GrammarItem)
    requires g == GrammarItem("Che", "que", "conjunción", "", "", "")
    ensures GrammarLine(g) == Some("- Che: que " + "(conjunción)")
  {
    SampleChe(g.word, g.explanation, g.func);
    RenderedAs(g, "- Che: que " + "(conjunción)");
  }

  lemma LinePoi(g: GrammarItem)
    requires g == GrammarItem("poi", "luego", "adverbio", "", "", "")
    ensures GrammarLine(g) == Some("- poi: luego " + "(adverbio)")
  {
    SamplePoi(g.word, g.explanation, g.func);
    RenderedAs(g, "- poi: luego " + "(adverbio)");
  }

  lemma LineTi(g: GrammarItem)
    requires g == GrammarItem("ti", "a ti", "pronombre de " + "objeto indirecto", "", "", "")
    ensures GrammarLine(g) == Some("- ti: a ti (" + "pronombre de " + "objeto indirecto" + ")")
  {
    SampleTi(g.word, g.explanation, g.func);
    assert "- " + g.word + ": " + g.explanation + " (" == "- ti: a ti (";
    RenderedAs(g, "- ti: a ti (" + "pronombre de " + "objeto indirecto" + ")");
  }

  lemma LineVengo(g: GrammarItem)
    requires g == GrammarItem("vengo", "vengo",
      "verbo venir en " + "primera persona " + "del singular, " + "presente indicativo", "", "", "")
    ensures GrammarLine(g) == Some("- vengo: vengo (" + "verbo venir en " + "primera persona "
      + "del singular, " + "presente indicativo" + ")")
  {
    SampleVengo(g.word, g.func);
    assert "- " + g.word + ": " + g.explanation + " (" == "- vengo: vengo (";
    RenderedAs(g, "- vengo: vengo (" + "verbo venir en " + "primera persona "
      + "del singular, " + "presente indicativo" + ")");
  }

  lemma LineA(g: GrammarItem)
    requires g == GrammarItem("a", "a",
      "preposición que " + "introduce el " + "complemento de " + "régimen", "", "", "")
    ensures GrammarLine(g) == Some("- a: a (" + "preposición que " + "introduce el "
      + "complemento de " + "régimen" + ")")
  {
    SampleA(g.word, g.func);
    assert "- " + g.word + ": " + g.explanation + " (" == "- a: a (";
    RenderedAs(g, "- a: a (" + "preposición que " + "introduce el "
      + "complemento de " + "régimen" + ")");
  }

  lemma LineCercare(g: GrammarItem)
    requires g == GrammarItem("cercare", "buscar", "verbo en " + "infinitivo", "", "", "")
    ensures GrammarLine(g) == Some("- cercare: " + "buscar (" + "verbo en " + "infinitivo" + ")")
  {
    SampleCercare(g.word, g.explanation, g.func);
    assert "- " + g.word + ": " + g.explanation + " (" == "- cercare: " + "buscar (";
    RenderedAs(g, "- cercare: " + "buscar (" + "verbo en " + "infinitivo" + ")");
  }

  /** The popup reads six entries back from the sample text, one per line,
      in order; the first is `Che`, `que`, `conjunción`. */
  lemma SampleEntries()
    ensures |GrammarEntries(SampleGrammar)| == 6
    ensures GrammarEntries(SampleGrammar)[0] == Entry("Che", "que", "conjunción")
    ensures forall k :: 0 <= k < 6 ==> GrammarEntries(SampleGrammar)[k] == EntryOf(SampleItems[k])
  {
    SampleItemsRoundTrip();
    RoundTrip(SampleItems);
    SampleRendering();
  }
}
