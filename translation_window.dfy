/** The Tkinter window `ModernTranslationUI` of test_tinkter.py, reduced to
    what it computes: the three text panes it fills from the parsed answer
    (with the raw answer as a fallback), and the keyboard navigation between
    its notebook tabs. */
module TranslationWindow {
  import opened Wrappers
  import opened PyText
  import opened SectionSplitter

  // ---------------------------------------------------------------------
  // Tab arithmetic

  /** Python's `a % n` for a positive `n`: the remainder in `[0, n)`, which
      is also what Dafny's `%` gives for a positive divisor. */
  function PyMod(a: int, n: int): (r: int)
    requires n > 0
    ensures 0 <= r < n
    ensures 0 <= a < n ==> r == a
    ensures a == -1 ==> r == n - 1
    ensures a == n ==> r == 0
  {
    a % n
  }

  /** The tab `next_tab` selects: `(current + 1) % count`, or None when the
      notebook has no tab (the modulo raises ZeroDivisionError). */
  function NextIndex(current: nat, count: nat): (r: Option<nat>)
    ensures r.Some? <==> count > 0
    ensures r.Some? ==> r.value < count
    ensures r.Some? && current + 1 < count ==> r.value == current + 1
    ensures r.Some? && current + 1 == count ==> r.value == 0
  {
    if count == 0 then None else Some(PyMod(current + 1, count))
  }

  /** The tab `prev_tab` selects: `(current - 1) % count` with Python's
      non-negative remainder, so that the first tab wraps to the last. */
  function PrevIndex(current: nat, count: nat): (r: Option<nat>)
    ensures r.Some? <==> count > 0
    ensures r.Some? ==> r.value < count
    ensures r.Some? && 0 < current <= count ==> r.value == current - 1
    ensures r.Some? && current == 0 ==> r.value == count - 1
  {
    if count == 0 then None else Some(PyMod(current - 1, count))
  }

  /** Going back undoes going forward, on every tab. */
  lemma PrevUndoesNext(current: nat, count: nat)
    requires current < count
    ensures PrevIndex(NextIndex(current, count).value, count) == Some(current)
  {
    if current + 1 < count {
      assert NextIndex(current, count) == Some(current + 1);
    } else {
      assert NextIndex(current, count) == Some(0);
    }
  }

  /** Going forward undoes going back, on every tab. */
  lemma NextUndoesPrev(current: nat, count: nat)
    requires current < count
    ensures NextIndex(PrevIndex(current, count).value, count) == Some(current)
  {
    if current == 0 {
      assert PrevIndex(current, count) == Some(count - 1);
    } else {
      assert PrevIndex(current, count) == Some(current - 1);
    }
  }

  /** The tab reached by `steps` presses of the next-tab key. */
  function Forward(current: nat, count: nat, steps: nat): (r: nat)
    requires current < count
    ensures r < count
  {
    if steps == 0 then current else NextIndex(Forward(current, count, steps - 1), count).value
  }

  /** `steps` presses of the next-tab key move `steps` tabs on, modulo the
      number of tabs. */
  lemma {:induction false} ForwardIsMod(current: nat, count: nat, steps: nat)
    requires current < count
    ensures Forward(current, count, steps) == (current + steps) % count
  {
    if steps > 0 {
      ForwardIsMod(current, count, steps - 1);
      ModSucc(current + steps - 1, count);
    }
  }

  /** The remainder of `q * n + r` is `r` for `r` in `[0, n)`. */
  lemma ModOf(q: int, n: int, r: int)
    requires n > 0 && 0 <= r < n
    ensures (q * n + r) % n == r
  {
    var x := q * n + r;
    var d := x / n - q;
    assert x == (x / n) * n + x % n;
    assert (x / n) * n == q * n + d * n;
    assert d * n == r - x % n;
    assert d >= 1 ==> d * n >= n;
    assert d <= -1 ==> d * n <= -n;
  }

  /** Adding one commutes with taking the remainder. */
  lemma ModSucc(a: nat, n: nat)
    requires n > 0
    ensures (a % n + 1) % n == (a + 1) % n
  {
    var q, r := a / n, a % n;
    assert a == q * n + r;
    if r + 1 < n {
      ModOf(q, n, r + 1);
      ModOf(0, n, r + 1);
    } else {
      assert a + 1 == (q + 1) * n + 0;
      ModOf(q + 1, n, 0);
      ModOf(1, n, 0);
    }
  }

  /** Pressing the next-tab key once per tab comes back to the same tab. */
  lemma FullCycle(current: nat, count: nat)
    requires current < count
    ensures Forward(current, count, count) == current
  {
    ForwardIsMod(current, count, count);
    assert current + count == 1 * count + current;
    ModOf(1, count, current);
  }

  // ---------------------------------------------------------------------
  // The panes

  /** The contents of the original, translation and grammar panes. */
  datatype Shown = Shown(original: string, translation: string, grammar: string)

  /** What the three panes show after `parse_and_display_text(texto)` on a
      fresh window: each non-empty section in its own pane, and the raw
      answer in the translation pane when every section is empty. */
  function ShownFor(texto: string): Shown {
    var s := Response(TkinterKeywords, texto);
    if s.AllEmpty() then Shown("", texto, "") else Shown(s.original, s.translation, s.grammar)
  }

  /** The raw answer is shown exactly when no line of it is content, and
      otherwise the panes hold the parsed sections. */
  lemma ShownFallback(texto: string)
    ensures NoContent(TkinterKeywords, Split(texto, '\n')) ==> ShownFor(texto) == Shown("", texto, "")
    ensures !NoContent(TkinterKeywords, Split(texto, '\n')) ==>
      var s := Response(TkinterKeywords, texto);
      ShownFor(texto) == Shown(s.original, s.translation, s.grammar) && !s.AllEmpty()
  {
    AllEmptyIffNoContent(TkinterKeywords, texto);
  }

  /** The window's notebook and its three text panes. A pane that has been
      disabled with `config(state='disabled')` ignores further inserts. */
  class Window {
    var original: string
    var translation: string
    var grammar: string
    var originalDisabled: bool
    var translationDisabled: bool
    var grammarDisabled: bool
    var tabCount: nat
    var selected: nat

    /** The selected tab is one of the notebook's tabs. */
    predicate Valid()
      reads this
    {
      selected < tabCount
    }

    /** A window with empty, editable panes and its three tabs, the first
        selected. */
    constructor()
      ensures original == "" && translation == "" && grammar == ""
      ensures !originalDisabled && !translationDisabled && !grammarDisabled
      ensures tabCount == 3 && selected == 0
      ensures Valid()
    {
      original, translation, grammar := "", "", "";
      originalDisabled, translationDisabled, grammarDisabled := false, false, false;
      tabCount, selected := 3, 0;
    }

    /** `Text.insert('1.0', text)`: the text goes in front of what the pane
        holds, unless the pane is disabled, which leaves it as it was. */
    static function Insert(pane: string, disabled: bool, text: string): (r: string)
      ensures disabled ==> r == pane
      ensures !disabled ==> |r| == |pane| + |text| && r[..|text|] == text && r[|text|..] == pane
    {
      if disabled then pane else text + pane
    }

    /** The three panes are empty and none is disabled. */
    predicate Fresh()
      reads this
    {
      original == "" && translation == "" && grammar == ""
      && !originalDisabled && !translationDisabled && !grammarDisabled
    }

    /** `parse_and_display_text(texto)`: each non-empty section is inserted
        into its pane, and the raw answer into the translation pane when
        every section is empty; every pane written to is then disabled. */
    method ParseAndDisplayText(texto: string)
      modifies this
      ensures var s := Response(TkinterKeywords, texto);
        original == (if s.original != "" then Insert(old(original), old(originalDisabled), s.original)
          else old(original))
        && translation == (if s.AllEmpty() then Insert(old(translation), old(translationDisabled), texto)
          else if s.translation != "" then Insert(old(translation), old(translationDisabled), s.translation)
          else old(translation))
        && grammar == (if s.grammar != "" then Insert(old(grammar), old(grammarDisabled), s.grammar)
          else old(grammar))
        && originalDisabled == (old(originalDisabled) || s.original != "")
        && translationDisabled == (old(translationDisabled) || s.translation != "" || s.AllEmpty())
        && grammarDisabled == (old(grammarDisabled) || s.grammar != "")
      ensures tabCount == old(tabCount) && selected == old(selected)
      ensures Valid() == old(Valid())
      ensures old(Fresh()) ==> Shown(original, translation, grammar) == ShownFor(texto)
      ensures old(originalDisabled) && old(translationDisabled) && old(grammarDisabled) ==>
        original == old(original) && translation == old(translation) && grammar == old(grammar)
    {
      var sections := ParseTkinterResponse(texto);
      if sections.original != "" {
        original := Insert(original, originalDisabled, sections.original);
        originalDisabled := true;
      }
      if sections.translation != "" {
        translation := Insert(translation, translationDisabled, sections.translation);
        translationDisabled := true;
      }
      if sections.grammar != "" {
        grammar := Insert(grammar, grammarDisabled, sections.grammar);
        grammarDisabled := true;
      }
      if sections.AllEmpty() {
        translation := Insert(translation, translationDisabled, texto);
        translationDisabled := true;
      }
    }

    /** `next_tab`: select the following tab, wrapping after the last. */
    method NextTab()
      modifies this
      ensures NextIndex(old(selected), tabCount).Some? ==> selected == NextIndex(old(selected), tabCount).value
      ensures NextIndex(old(selected), tabCount).None? ==> selected == old(selected)
      ensures tabCount == old(tabCount) && original == old(original)
      ensures translation == old(translation) && grammar == old(grammar)
      ensures originalDisabled == old(originalDisabled) && translationDisabled == old(translationDisabled)
      ensures grammarDisabled == old(grammarDisabled)
      ensures tabCount > 0 ==> Valid()
    {
      var next := NextIndex(selected, tabCount);
      if next.Some? {
        selected := next.value;
      }
    }

    /** `prev_tab`: select the preceding tab, wrapping before the first. */
    method PrevTab()
      modifies this
      ensures PrevIndex(old(selected), tabCount).Some? ==> selected == PrevIndex(old(selected), tabCount).value
      ensures PrevIndex(old(selected), tabCount).None? ==> selected == old(selected)
      ensures tabCount == old(tabCount) && original == old(original)
      ensures translation == old(translation) && grammar == old(grammar)
      ensures originalDisabled == old(originalDisabled) && translationDisabled == old(translationDisabled)
      ensures grammarDisabled == old(grammarDisabled)
      ensures tabCount > 0 ==> Valid()
    {
      var prev := PrevIndex(selected, tabCount);
      if prev.Some? {
        selected := prev.value;
      }
    }
  }
}
