# idIAmas text core in Dafny

idIAmas is a desktop helper for reading Italian. It captures a region of the
screen, runs OCR on it, and asks a language model to translate the text into
Spanish and explain its grammar. It then shows the answer in a popup. Under
the window code sit three small text transformations, and this project
models them and proves their properties:

- **The payload normaliser** (`validation.py`). It turns the model's reply
  into a total record `{original, translation, grammar, grammar_json}`. The
  reply may be a JSON string, possibly wrapped in prose, or a dictionary
  that is already decoded. The normaliser never fails: anything it cannot
  read gives empty defaults.
- **The grammar-line parser** (`PopupWindow.parse_grammar_content` in
  `popup_refactored.py`). It reads the `- word: explanation (function)`
  lines back into entries. It is the partner of the normaliser's renderer
  `_build_grammar_text`, and module `GrammarRoundTrip` proves that the two
  are inverse under stated conditions.
- **The keyword section splitter** `parse_ai_response`. The repository has
  three copies of it, in `modern_popup_pyqt6.py`, `modern_popup.py` and
  `test_tinkter.py`. It sorts the lines of a free-text answer into the
  original, translation and grammar sections:
  - a line whose lower-cased text holds a keyword is a header, which
    switches the section and is dropped;
  - every other non-blank line is appended, stripped and followed by a
    newline, to the current section.

  One parameterised definition covers all three copies, and lemmas show
  that the copies agree.
- **Two pieces of `ModernTranslationUI`** in `test_tinkter.py`:
  - the filling of its three panes, with the raw answer as a fallback;
  - the arithmetic of its cyclic tab navigation.

Modules, one per file:

| file | module | models |
|---|---|---|
| wrappers.dfy | `Wrappers` | `Option` |
| pytext.dfy | `PyText` | Python's `strip`, `lstrip(chars)`, `find`, `rfind`, `split`, `join`, `lower` and `in` on strings |
| validation.dfy | `Validation` | validation.py |
| grammar_parser.dfy | `GrammarParser` | `parse_grammar_content` |
| roundtrip.dfy | `GrammarRoundTrip` | the renderer and the parser together, and the sample data of `create_sample_data` |
| sections.dfy | `SectionSplitter` | the three `parse_ai_response` copies |
| translation_window.dfy | `TranslationWindow` | `parse_and_display_text`, `next_tab` and `prev_tab` of `ModernTranslationUI` |

### How the model is built

- Each loop of the source is a method with a `while` loop, proved equal to
  a specification function:
  - `NormalizeGrammarItems` and `BuildGrammarText` in validation.py;
  - `ParseGrammarContent`;
  - `ParseAiResponse`, which `ParsePyQt6Response`, `ParsePopupResponse`
    and `ParseTkinterResponse` call with the keyword lists of each copy.
- Two methods have no loop, and neither does the source they model. They
  are straight-line methods proved equal to a specification function:
  - `ParseAndValidateTranslation`, equal to `Validated`;
  - `ParseGrammarLine`, one pass of the parser's loop body, equal to
    `ParseLine`.

  The properties are lemmas about those functions.
- `json.loads` is a parameter `loads: string -> Option<Json>` of the
  normaliser, where `None` stands for a raised exception. A payload is
  `Text`, `Mapping` or `Unsupported` (neither a `str` nor a `dict`), and a
  dictionary is its list of entries in insertion order. A Python dictionary
  has distinct keys, so only entry lists with distinct keys stand for one;
  `Lookup` reads the first entry of a key, which for those lists is the
  only one.
- The `try`/`except` of `parse_and_validate_translation` is modelled by
  `CandidateObject` returning `None`. This covers two cases:
  - `json.loads` raises;
  - the decoded value is not a dictionary, so `data.get` raises.
- The window is a `class` whose fields are the three panes, a `disabled`
  flag per pane, the tab count and the selected tab. A disabled Tk text
  widget ignores `insert`, and `Window.Insert` models that. A key press is
  a method that changes those fields. `Window.Valid()` says the selected
  tab is one of the tabs; every method keeps it.
- `PyText.Strip` strips exactly the characters of Python's `str.isspace`
  set, taken code point by code point.

### What the section splitter does with the PyQt6 sample

The sample answer of `modern_popup_pyqt6.py` (lines 931-942) contains the
grammar line `- Ciao: saludo informal en italiano`. That line contains the
original keyword `italiano`, so the splitter treats it as a header: it
drops the line and switches to the original section, and the grammar lines
after it go to the original section. `SectionSplitter.CiaoLineIsHeader`
proves the first step for all three keyword lists.

## Model

A row for a function with no `ensures` of its own says what that definition computes: that definition is the model of the cited lines. The lemmas in the rows around it state its properties.

| member | source | states |
|---|---|---|
| Validation.AsString | validation.py:30-31 | `_as_string`: a string unchanged, None as "", any other value through `str` |
| Validation.PyStr | validation.py:31 | `str(v)`: a string is itself, any other value is its repr |
| Validation.PyRepr | validation.py:31 | `repr(v)` for None, booleans, ints, strings, lists and dictionaries; never empty |
| Validation.AsStringEmpty | validation.py:30-31 | `_as_string` gives "" exactly for None and for the empty string: `str` of every other value is non-empty |
| Validation.NatText | validation.py:31 | `str` of a natural number is a non-empty string of decimal digits |
| Validation.Lookup | validation.py:40-45 | `d.get(key)`: the value of the first entry with that key, or None |
| Validation.Field | validation.py:91-92 | `_as_string(d.get(key, "")).strip()`: always a stripped string |
| Validation.FieldDefaults | validation.py:40-45 | a key that is missing, or that holds None, reads as ""; a string value reads stripped |
| Validation.LookupFinds | validation.py:40-45 | `d.get(key)` finds a value exactly when some entry has that key, and the value found is stored under that key |
| Validation.LookupAt | validation.py:40-45 | `d.get(key)` returns the value of the first entry with that key |
| Validation.ItemFromDict | validation.py:39-46 | the six-key item built from a grammar dictionary has every field stripped |
| Validation.MapDicts | validation.py:37-46 | `f` of each dictionary element of the list, in order, skipping the other elements |
| Validation.KeepNamed | validation.py:48 | the comprehension keeping the items with a word or an explanation, in order |
| Validation.NormalizedItems | validation.py:34-49 | `_normalize_grammar_items`: [] for a non-list, else the kept items of the dictionary elements |
| Validation.NormalizeGrammarItems | validation.py:34-49 | the loop returns `NormalizedItems(value)`: for a non-list [], else at most one item per element, each item stripped and with a word or an explanation |
| Validation.NormalizedItemsShape | validation.py:34-49 | `_normalize_grammar_items` returns [] for a non-list and at most one item per list element, and every item is stripped and has a word or an explanation |
| Validation.NormalizedItemsMembership | validation.py:37-48 | an item is in the output exactly when it normalises some dictionary element of the input and has a word or an explanation |
| Validation.NormalizedItemsInOrder | validation.py:37-48 | the output lists the normalisations of dictionary elements at strictly increasing input positions, so input order is kept |
| Validation.MapDictsInOrder | validation.py:37-46 | the loop keeps the dictionary elements only, in input order, at most one result per element |
| Validation.KeepNamedShape | validation.py:48 | the filter keeps exactly the items with a word or an explanation and never lengthens the list |
| Validation.KeepNamedInOrder | validation.py:48 | the filter keeps a subsequence: the kept items sit at strictly increasing positions |
| Validation.DictItemsShape | validation.py:37-46 | at most one item per element, each stripped |
| Validation.GrammarLine | validation.py:55-62 | the line for one item from its stripped fields, or None when word and explanation are both empty |
| Validation.GrammarText | validation.py:53-64 | `_build_grammar_text`: the emitted lines joined by a newline |
| Validation.BuildGrammarText | validation.py:52-64 | the loop returns the lines of `GrammarLine` joined by a newline |
| Validation.GrammarLineOfStripped | validation.py:55-63 | for stripped fields, no line when word and explanation are both empty; otherwise `- w: e` if the word is set, else `- e`, followed by ` (f)` when the function is set |
| Validation.GrammarLinesOneEach | validation.py:54-63 | for normalised items there is exactly one line per item, in order |
| Validation.GrammarLineForm | validation.py:60-62 | every emitted line starts with `- ` and does not end in a newline |
| Validation.GrammarLinesForm | validation.py:54-63 | every line of the list starts with `- ` and does not end in a newline |
| Validation.GrammarTextEnd | validation.py:64 | the text is "" exactly when no line is emitted (so [] gives ""), and otherwise does not end in a newline |
| Validation.JoinLastChar | validation.py:64 | a join of non-empty parts ends with the last character of its last part |
| Validation.SingleLineText | validation.py:64 | one emitted line is the whole text |
| Validation.GrammarTextExample | validation.py:52-64 | the item `Ciao`/`Hola`/`interjección` renders as `- Ciao: Hola (interjección)` |
| Validation.ObjectText | validation.py:79-84 | the stripped string payload, cut to the span from its first `{` to its last `}` when the first precedes the last |
| Validation.CandidateObject | validation.py:77-89 | the dictionary `data`: the decoded dictionary, the dictionary payload, {} for any other payload, or None where decoding raises or yields a non-dictionary |
| Validation.FromObject | validation.py:91-105 | the record built from a dictionary: stripped `original` and `translation`, the normalised items and their rendering |
| Validation.Validated | validation.py:67-105 | `parse_and_validate_translation`: the defaults on failure, else the record built from `data` |
| Validation.ParseAndValidateTranslation | validation.py:67-105 | the method returns `Validated(payload, loads)`, which is well formed: `original` and `translation` stripped, `grammar` equal to the rendering of `grammar_json`, and every item stripped and named |
| Validation.ValidatedIsWellFormed | validation.py:67-105 | every result of the normaliser, for every payload and decoder, satisfies those output invariants |
| Validation.DefaultsOnFailure | validation.py:85-96 | all four fields take their defaults when decoding fails, when the decoded value is not a dictionary, and when the payload is neither a string nor a dictionary |
| Validation.SpanGuard | validation.py:81-83 | the guard `start != -1 and end != -1 and end > start` holds exactly when some `{` precedes some `}` |
| Validation.ObjectTextSpan | validation.py:79-84 | the decoded text is the whole stripped payload when no `{` precedes a `}`; otherwise it is the slice from the first `{` to the last `}` |
| Validation.StripBraced | validation.py:79 | stripping text around a braced middle only cuts into the text around it |
| Validation.BracedSpan | validation.py:81-84 | with no brace in the text before and no `}` after, the first `{` and the last `}` are the two ends of the object |
| Validation.ObjectTextUnwraps | validation.py:79-84 | prose without braces around one object is cut away, and exactly the object is decoded |
| Validation.ProseIsIgnored | validation.py:76-93 | a string with such prose around an object normalises like the dictionary the object decodes to |
| Validation.ProseExample | validation.py:76-93 | the string `Result: {…} End` from tests/test_validation.py:21 yields `Ciao`, `Hola`, "" and [] |
| Validation.NoBraceGivesDefaults | validation.py:79-96 | with a decoder that only yields a dictionary for text holding `{`, a payload without `{` gives the defaults |
| Validation.NotJsonExample | validation.py:79-96 | `"not-json"` gives the defaults, as tests/test_validation.py:28-32 expects |
| Validation.FieldIs | validation.py:91-92 | the first entry of a key, holding a stripped string, is read as that string |
| Validation.ThreeFieldItem | validation.py:39-46 | a grammar dictionary with only word, explanation and function reads the other three keys as "" |
| Validation.OneItemGrammar | validation.py:34-49 | a list holding one complete grammar dictionary normalises to its one item |
| Validation.OneItemDict | validation.py:86-105 | a dictionary with stripped fields and one complete grammar element yields those strings, that item, and its line as the grammar text |
| Validation.NoGrammarDict | validation.py:86-105 | a dictionary with an empty grammar list yields no items and "" as the grammar text |
| Validation.DictExample | validation.py:86-105 | the dictionary of tests/test_validation.py:5-17 yields `Ciao`, `Hola`, `- Ciao: Hola (interjección)` and its one item |
| PyText.Strip | popup_refactored.py:419 | `s.strip()`: stripped, and no longer than `s` |
| PyText.LStrip | popup_refactored.py:419 | `s.lstrip()`: a suffix of `s` that starts with a non-space, or is empty |
| PyText.RStrip | popup_refactored.py:419 | `s.rstrip()`: a prefix of `s` that ends with a non-space, or is empty |
| PyText.Split | popup_refactored.py:416 | `s.split(sep)`: at least one piece, no piece holds `sep`, and joining with `sep` gives `s` back |
| PyText.Join | validation.py:64 | `sep.join(parts)` |
| PyText.Find | validation.py:81 | `s.find(c)`: -1 or an index of `s` |
| PyText.RFind | validation.py:82 | `s.rfind(c)`: -1 or an index of `s` |
| PyText.Lower | modern_popup_pyqt6.py:907 | `s.lower()`: the same length, each character lowered |
| PyText.Contains | modern_popup_pyqt6.py:907 | `sub in s`: `sub` occurs at some index of `s` |
| PyText.LStripChars | popup_refactored.py:424 | `lstrip('- ')` drops the whole leading run of dashes and spaces, and only that run |
| GrammarParser.SplitRest | popup_refactored.py:433-441 | the explanation and function read from the text after the colon |
| GrammarParser.ParseBody | popup_refactored.py:427-447 | the entry read from a line without its leading dashes and spaces, or None without a colon |
| GrammarParser.ParseLine | popup_refactored.py:419-447 | the entry read from one line, or None when the loop skips it |
| GrammarParser.GrammarEntries | popup_refactored.py:413-449 | `parse_grammar_content`: the entries of the lines of the stripped content, in order |
| GrammarParser.EntriesBound | popup_refactored.py:413-449 | the parser reads at most one entry more than the content has characters |
| PyText.SplitLength | popup_refactored.py:416 | `split` yields at most one piece more than the string has characters |
| GrammarParser.ParseGrammarContent | popup_refactored.py:413-449 | the loop returns `GrammarEntries(content)`, with at most one entry per line; every word is stripped and holds no colon, every explanation is stripped, and no function holds `(` |
| GrammarParser.ParseGrammarLine | popup_refactored.py:419-447 | one pass of the loop body reads the line as `ParseLine` does, including the skipped lines |
| GrammarParser.ColonSurvivesStrip | popup_refactored.py:419-427 | stripping removes no colon: a colon is in the stripped line exactly when it is in the raw line |
| GrammarParser.ParseLineSome | popup_refactored.py:418-427 | a line yields an entry exactly when, once stripped, it starts with `-` and it holds a colon |
| GrammarParser.SplitRestSpec | popup_refactored.py:433-441 | the function is taken only when the last `(` precedes the last `)`: it is the text between them, and the explanation is the stripped text before that `(`; otherwise the function is "" and the explanation is the whole rest |
| GrammarParser.ParseLineShape | popup_refactored.py:424-441 | a parsed word is stripped and holds no colon, the explanation is stripped, and the function holds no `(` |
| GrammarParser.ParseBodyShape | popup_refactored.py:427-441 | the same shape for the text after the dashes |
| GrammarParser.SplitRestShape | popup_refactored.py:433-441 | the explanation is stripped when the rest is, and the function holds no `(` |
| GrammarParser.CollectInOrder | popup_refactored.py:418-447 | the results come from lines at strictly increasing positions, at most one per line |
| GrammarParser.CollectHas | popup_refactored.py:443-447 | every line that is read contributes its result |
| GrammarParser.EntriesInOrder | popup_refactored.py:418-449 | entries come out in line order, at most one per line, and every line that parses contributes its entry |
| GrammarParser.EntriesShape | popup_refactored.py:443-449 | there are at most as many entries as lines, each with the shape of `ParseLineShape` |
| GrammarParser.CollectAllRead | popup_refactored.py:418-447 | lines that each parse to a given entry yield exactly those entries |
| GrammarRoundTrip.RoundTrip | popup_refactored.py:413-449 | parsing the rendering of items that satisfy the round-trip conditions returns each item's word, explanation and function, one entry per item, in order |
| GrammarRoundTrip.LineRoundTrip | validation.py:60-62 | the line rendered for such an item starts with `-`, holds no newline and parses back to the item's entry |
| GrammarRoundTrip.LineText | validation.py:60-62 | the rendered line of a named, stripped item is `- w:` followed by its tail |
| GrammarRoundTrip.ParseDashLine | popup_refactored.py:419-430 | a line `- w:` followed by text, with a plain word, parses to that word and the split of the rest |
| GrammarRoundTrip.StripDashLine | popup_refactored.py:419 | stripping such a line only strips the end of the text after the colon |
| GrammarRoundTrip.DashBody | popup_refactored.py:424 | `lstrip('- ')` removes exactly the leading `- ` before a word that does not start with a dash or a space |
| GrammarRoundTrip.BodyParse | popup_refactored.py:427-430 | the word is the text before the first colon |
| GrammarRoundTrip.StripTail | popup_refactored.py:430 | the stripped text after the colon is the explanation, or the explanation and `(f)` |
| GrammarRoundTrip.SplitGroup | popup_refactored.py:436-441 | a rest ending in `(f)`, with no `(` inside `f`, splits into its stripped head and `f` |
| GrammarRoundTrip.RestOfLine | popup_refactored.py:430-441 | the text after the colon splits back into the explanation and the function it was rendered from |
| GrammarRoundTrip.GroupInExplanationIsRead | popup_refactored.py:436-441 | the side condition matters: an item with no function whose explanation ends in ` (f)` is read back with `f` as its function |
| GrammarRoundTrip.ExplanationGroup | popup_refactored.py:436-441 | an explanation ending in ` (f)` splits into its head and `f` |
| GrammarRoundTrip.StripJoinedLines | popup_refactored.py:416 | stripping the joined lines only strips the end of the last line |
| GrammarRoundTrip.PlainItem | popup_refactored.py:676-681 | an item with plain fields and a function satisfies the round-trip conditions |
| GrammarRoundTrip.SampleItemsRoundTrip | popup_refactored.py:676-681 | every item of the sample satisfies them |
| GrammarRoundTrip.SampleRendering | popup_refactored.py:676-681 | rendering the six sample items gives exactly the sample text: the six literal lines `- Che: que (conjunción)` … `- cercare: buscar (verbo en infinitivo)` joined by newlines |
| GrammarRoundTrip.TextOfLines | validation.py:53-64 | items that each render as the matching line give those lines joined by newlines |
| GrammarRoundTrip.SampleEntries | popup_refactored.py:676-681 | the literal sample text yields six entries, the first word `Che`, explanation `que`, function `conjunción`, and the k-th is the word, explanation and function of the k-th literal line |
| SectionSplitter.Sections.Append | modern_popup_pyqt6.py:918-919 | `sections[s] += text` extends the entry of `s` and leaves the other two unchanged |
| SectionSplitter.Header | modern_popup_pyqt6.py:907-915 | the section a line's lower-cased text names: original keywords first, then translation, then grammar |
| SectionSplitter.Step | modern_popup_pyqt6.py:902-919 | one pass of the loop: a blank line changes nothing, a header switches the section, any other line is appended stripped with a newline |
| SectionSplitter.Run | modern_popup_pyqt6.py:892-920 | the loop state after a prefix of the lines, from empty sections and the translation as current section |
| SectionSplitter.Response | modern_popup_pyqt6.py:898-927 | what `parse_ai_response` returns: the sections after every line of `texto.split('\n')` |
| SectionSplitter.ParseAiResponse | modern_popup.py:355-382 | the loop, for any keyword lists, returns `Response(kw, texto)`: the sections after stepping through every line of `texto.split('\n')` from empty sections and the translation as current section |
| SectionSplitter.ParsePopupResponse | modern_popup.py:353-384 | the copy of modern_popup.py returns `Response(PopupKeywords, texto)`, and all its sections are empty exactly when every line is blank or a header |
| SectionSplitter.ParsePyQt6Response | modern_popup_pyqt6.py:888-927 | the PyQt6 copy returns `Response(PyQt6Keywords, texto)`, which equals the result of the copy in modern_popup.py |
| SectionSplitter.ParseTkinterResponse | test_tinkter.py:242-274 | the copy of `ModernTranslationUI` returns `Response(TkinterKeywords, texto)`, which equals the result of the copy in modern_popup.py |
| SectionSplitter.RunBySection | modern_popup_pyqt6.py:898-919 | each section holds exactly the content lines under its nearest header above (the translation when there is none), stripped, each followed by a newline, in input order; the current section is the last header's |
| SectionSplitter.NoHeaderAllTranslation | modern_popup_pyqt6.py:892-904 | with no header, all content goes to the translation and original and grammar stay "" |
| SectionSplitter.TotalLengthIsContent | modern_popup.py:364-382 | the three sections together are as long as the stripped content lines plus one newline each |
| SectionSplitter.ContentLengthZero | modern_popup.py:364-382 | the content length is zero exactly when no line is content |
| SectionSplitter.AllEmptyIffNoContent | test_tinkter.py:233 | every section is empty exactly when every line is blank or a header |
| SectionSplitter.AppendLine | modern_popup_pyqt6.py:919 | appending a non-empty line without a newline, and a newline, keeps a section made of such lines |
| SectionSplitter.SectionsLined | modern_popup_pyqt6.py:901-919 | over lines without newlines, each section is a run of non-empty lines, each ended by a newline |
| SectionSplitter.ResponseLined | test_tinkter.py:270-274 | every section is "" or ends in a newline, and contains no empty line |
| SectionSplitter.AnyInRedundant | modern_popup_pyqt6.py:907-913 | adding a phrase that contains a keyword already in the list does not change which lines match |
| SectionSplitter.PhrasesHoldKeywords | modern_popup_pyqt6.py:907-913 | `texto original`, `traducción al español` and `explicación gramatical` contain `original`, `español` and `explicación` |
| SectionSplitter.HeaderAgrees | modern_popup_pyqt6.py:907-915 | the PyQt6 lists and the lists of modern_popup.py classify every line alike |
| SectionSplitter.RunAgrees | modern_popup.py:364-382 | keyword lists that classify every line alike give the same loop state |
| SectionSplitter.PyQt6MatchesPopup | modern_popup_pyqt6.py:888-927 | the PyQt6 copy returns what the copy in modern_popup.py returns, for every input |
| SectionSplitter.TkinterMatchesPopup | test_tinkter.py:260-266 | the copy in test_tinkter.py returns what the copy in modern_popup.py returns, for every input |
| SectionSplitter.OriginalKeywordMakesHeader | modern_popup_pyqt6.py:907-909 | a line whose lower-cased text contains an original keyword is an original header |
| SectionSplitter.CiaoLineIsHeader | modern_popup_pyqt6.py:939 | the sample line `- Ciao: saludo informal en italiano` is an original header for all three keyword lists: it is dropped and switches to the original section |
| TranslationWindow.PyMod | test_tinkter.py:291-297 | Python's `%` for a positive divisor lands in `[0, n)`, keeps values already in range, maps -1 to n-1 and n to 0 |
| TranslationWindow.NextIndex | test_tinkter.py:288-292 | `next_tab` fails exactly when there is no tab; otherwise the result is in range, the next tab, or the first after the last |
| TranslationWindow.PrevIndex | test_tinkter.py:294-298 | `prev_tab` fails exactly when there is no tab; otherwise the result is in range, the previous tab, or the last before the first |
| TranslationWindow.PrevUndoesNext | test_tinkter.py:288-298 | going back after going forward returns to the same tab |
| TranslationWindow.NextUndoesPrev | test_tinkter.py:288-298 | going forward after going back returns to the same tab |
| TranslationWindow.Forward | test_tinkter.py:288-292 | any number of next-tab presses stays in range |
| TranslationWindow.ForwardIsMod | test_tinkter.py:288-292 | `k` presses of the next-tab key move `k` tabs on, modulo the number of tabs |
| TranslationWindow.FullCycle | test_tinkter.py:288-292 | one press per tab comes back to the starting tab |
| TranslationWindow.ShownFallback | test_tinkter.py:232-235 | the raw answer goes to the translation pane exactly when no line is content; otherwise the panes show the parsed sections, not all empty |
| TranslationWindow.Window.Insert | test_tinkter.py:220-235 | inserting at `1.0` puts the text in front of what the pane holds, and a disabled pane ignores the insert |
| TranslationWindow.Window.constructor | test_tinkter.py:80-184 | a window starts with empty, editable panes, three tabs and the first tab selected, so `Valid()` holds |
| TranslationWindow.Window.ParseAndDisplayText | test_tinkter.py:213-235 | each non-empty section is inserted into its pane, and the raw answer into the translation pane when every section is empty; every pane written to is disabled afterwards, so inserts into a pane disabled before are ignored; tabs are unchanged, so `Valid()` is kept; a fresh window shows `ShownFor(texto)`, and a window whose panes are all disabled keeps its text |
| TranslationWindow.Window.NextTab | test_tinkter.py:288-292 | selects `NextIndex` of the selected tab and changes nothing else; with no tab the selection stays, and with tabs the selected tab is one of them (`Valid()`) |
| TranslationWindow.Window.PrevTab | test_tinkter.py:294-298 | selects `PrevIndex` of the selected tab and changes nothing else; with no tab the selection stays, and with tabs the selected tab is one of them (`Valid()`) |

## Left out

- Presentation code is not modelled: the Qt and Tk widgets, styles, animations, the fade overlay, window dragging, clipboard and centring. It is UI over libraries whose code is not part of this model.
- main.py is not part of this model: screen capture, OCR, the language-model call, the hotkey listener, logging and configuration are I/O.
- popup_launcher.py, the subprocess launch of modern_popup_pyqt6.py and utilidades.py are I/O plumbing and are not modelled.
- The popup debounce of modern_popup_pyqt6.py is not modelled: it depends on the clock and on module globals.
- The `print` debug output of the PyQt6 `parse_ai_response` is not modelled: it does not change the result.
- `json.loads` is a parameter of the normaliser, not a model of the JSON grammar. Floats are not in the `Json` datatype, because they are not modelled.
- Validation.PyRepr: it does not model repr's escaping of quotes and control characters inside strings.
- PyText.Lower: only ASCII and Latin-1 capitals are lower-cased, not all of Unicode's case mappings.
- Markdown-fence stripping and regex recovery of fields are not modelled: validation.py has neither. It goes from the brace slice to `json.loads` and then to the defaults (validation.py:79-96).
- The guard `if current_section in sections` of `parse_ai_response` always holds, because the current section is always one of the three keys. The model appends without it.
- The `except` branch of `parse_and_display_text` (test_tinkter.py:237-240) is not modelled. A pane's `insert` is modelled as total, and `parse_ai_response` cannot fail, so the branch never runs in the model.
- GrammarRoundTrip.SampleEntries: the sample text `SampleGrammar` is its six literal lines joined by newlines; the longer lines are written as concatenations of shorter pieces, which denote the same strings.
- Validation.DictExample and Validation.ProseExample: the test payloads are parameters that the requires pins to the literals of tests/test_validation.py.
- Validation.ProseExample: it states what the normaliser returns given that `json.loads` decodes the braced object to the test's dictionary. The decoding itself is not modelled.
- Idempotence of `parse_and_validate_translation` on its own output is not claimed. It does not hold: the output's `grammar` is a string, so normalising again gives an empty `grammar_json`.
