/** The Python `str` operations the parsers are built from: `strip`,
    `lstrip(chars)`, `find`, `rfind`, `split('\n')`, `join`, `lower` and the
    substring test `sub in s`, each defined on `seq<char>` with a contract
    that says what the operation computes. */
module PyText {

  /** Python's `str.isspace()` for one code point: the characters that
      `str.strip()` with no argument removes. */
  predicate IsSpace(c: char) {
    ('\t' <= c <= '\r') || ('\U{1C}' <= c <= '\U{1F}') || c == ' '
    || c == '\U{85}' || c == '\U{A0}' || c == '\U{1680}'
    || ('\U{2000}' <= c <= '\U{200A}') || c == '\U{2028}' || c == '\U{2029}'
    || c == '\U{202F}' || c == '\U{205F}' || c == '\U{3000}'
  }

  ghost predicate AllSpace(s: string) {
    forall k :: 0 <= k < |s| ==> IsSpace(s[k])
  }

  /** `s` has no whitespace at either end, so `s.strip() == s`. */
  predicate IsStripped(s: string) {
    s == [] || (!IsSpace(s[0]) && !IsSpace(s[|s| - 1]))
  }

  /** Python's `s.lstrip()`: the longest suffix of `s` that does not start
      with whitespace. */
  function LStrip(s: string): (r: string)
    ensures |r| <= |s|
    ensures r == [] || !IsSpace(r[0])
  {
    if s != [] && IsSpace(s[0]) then LStrip(s[1..]) else s
  }

  /** Python's `s.rstrip()`: the longest prefix of `s` that does not end
      with whitespace. */
  function RStrip(s: string): (r: string)
    ensures |r| <= |s|
    ensures r == [] || !IsSpace(r[|r| - 1])
  {
    if s != [] && IsSpace(s[|s| - 1]) then RStrip(s[..|s| - 1]) else s
  }

  /** `r` is the slice `s[lead..lead + |r|]` and everything around it is
      whitespace. */
  ghost predicate StripsTo(s: string, lead: nat, r: string) {
    lead + |r| <= |s| && s[lead..lead + |r|] == r
    && AllSpace(s[..lead]) && AllSpace(s[lead + |r|..])
  }

  /** Python's `s.strip()`: `s` with the whitespace at both ends removed. */
  function Strip(s: string): (r: string)
    ensures IsStripped(r) && |r| <= |s|
  {
    RStripPrefix(LStrip(s));
    RStrip(LStrip(s))
  }

  /** Python's `s.lstrip(chars)`: drop the leading run of characters that
      belong to `chars`. */
  function LStripChars(s: string, chars: set<char>): (r: string)
    ensures |r| <= |s| && r == s[|s| - |r|..]
    ensures r == [] || r[0] !in chars
    ensures forall k :: 0 <= k < |s| - |r| ==> s[k] in chars
  {
    if s != [] && s[0] in chars then LStripChars(s[1..], chars) else s
  }

  /** Python's `s.find(c)`: the first index of `c`, or -1. */
  function Find(s: string, c: char): (r: int)
    ensures -1 <= r < |s|
  {
    if s == [] then -1
    else if s[0] == c then 0
    else
      var k := Find(s[1..], c);
      if k == -1 then -1 else k + 1
  }

  /** Python's `s.rfind(c)`: the last index of `c`, or -1. */
  function RFind(s: string, c: char): (r: int)
    ensures -1 <= r < |s|
  {
    if s == [] then -1
    else if s[|s| - 1] == c then |s| - 1
    else RFind(s[..|s| - 1], c)
  }

  /** `s.find(c)` is -1 exactly when `c` does not occur, and otherwise the
      index of an occurrence with none before it. */
  lemma {:induction false} FindSpec(s: string, c: char)
    ensures Find(s, c) == -1 <==> c !in s
    ensures Find(s, c) != -1 ==> s[Find(s, c)] == c && c !in s[..Find(s, c)]
  {
    if s != [] && s[0] != c {
      FindSpec(s[1..], c);
      assert s == [s[0]] + s[1..];
      if Find(s, c) != -1 {
        assert s[..Find(s, c)] == [s[0]] + s[1..][..Find(s, c) - 1];
      }
    }
  }

  /** `s.rfind(c)` is -1 exactly when `c` does not occur, and otherwise the
      index of an occurrence with none after it. */
  lemma {:induction false} RFindSpec(s: string, c: char)
    ensures RFind(s, c) == -1 <==> c !in s
    ensures RFind(s, c) != -1 ==> s[RFind(s, c)] == c && c !in s[RFind(s, c) + 1..]
  {
    if s != [] && s[|s| - 1] != c {
      var init := s[..|s| - 1];
      RFindSpec(init, c);
      assert s == init + [s[|s| - 1]];
      if RFind(s, c) != -1 {
        assert s[RFind(s, c) + 1..] == init[RFind(s, c) + 1..] + [s[|s| - 1]];
      }
    }
  }

  /** A `c` at index `i` means the first `c` is at `i` or before. */
  lemma {:induction false} FindAtMost(t: string, c: char, i: nat)
    ensures i < |t| && t[i] == c ==> 0 <= Find(t, c) <= i
  {
    if t != [] && t[0] != c && i > 0 {
      FindAtMost(t[1..], c, i - 1);
    }
  }

  /** A `c` at index `j` means the last `c` is at `j` or after. */
  lemma {:induction false} RFindAtLeast(t: string, c: char, j: nat)
    ensures j < |t| && t[j] == c ==> RFind(t, c) >= j
    decreases |t|
  {
    if t != [] && t[|t| - 1] != c && j < |t| - 1 {
      RFindAtLeast(t[..|t| - 1], c, j);
    }
  }

  /** Python's `sep.join(parts)`. */
  function Join(parts: seq<string>, sep: string): string {
    if |parts| == 0 then ""
    else if |parts| == 1 then parts[0]
    else parts[0] + sep + Join(parts[1..], sep)
  }

  /** Python's `s.split(sep)` for a one-character separator: the pieces
      between the separators, never an empty list. */
  function Split(s: string, sep: char): (r: seq<string>)
    ensures |r| >= 1
    ensures forall k :: 0 <= k < |r| ==> sep !in r[k]
    ensures Join(r, [sep]) == s
    decreases |s|
  {
    var i := Find(s, sep);
    FindSpec(s, sep);
    if i == -1 then [s]
    else
      var tail := Split(s[i + 1..], sep);
      var r := [s[..i]] + tail;
      assert r[0] == s[..i] && r[1..] == tail;
      assert Join(r, [sep]) == s[..i] + [sep] + s[i + 1..] == s;
      r
  }

  /** Python's `str.lower()` for one code point, on ASCII and the Latin-1
      upper-case letters (whose lower-case forms are 0x20 above them). */
  function LowerChar(c: char): char {
    if 'A' <= c <= 'Z' || ('\U{C0}' <= c <= '\U{DE}' && c != '\U{D7}')
    then (c as int + 32) as char
    else c
  }

  /** Python's `s.lower()`, one code point at a time. */
  function Lower(s: string): (r: string)
    ensures |r| == |s|
    ensures forall k :: 0 <= k < |s| ==> r[k] == LowerChar(s[k])
  {
    seq(|s|, k requires 0 <= k < |s| => LowerChar(s[k]))
  }

  /** `sub` occurs in `s` starting at index `i`. */
  predicate OccursAt(s: string, sub: string, i: int) {
    0 <= i && i + |sub| <= |s| && s[i..i + |sub|] == sub
  }

  /** Python's `sub in s` for two strings. */
  predicate Contains(s: string, sub: string) {
    exists i | 0 <= i <= |s| - |sub| :: OccursAt(s, sub, i)
  }

  // ---------------------------------------------------------------------
  // Lemmas

  /** `s.lstrip()` is a suffix of `s`, and what it drops is whitespace. */
  lemma {:induction false} LStripSuffix(s: string)
    ensures LStrip(s) == s[|s| - |LStrip(s)|..]
    ensures AllSpace(s[..|s| - |LStrip(s)|])
  {
    if s != [] && IsSpace(s[0]) {
      LStripSuffix(s[1..]);
      assert s[1..][|s[1..]| - |LStrip(s[1..])|..] == s[|s| - |LStrip(s)|..];
      assert forall k :: 1 <= k < |s| - |LStrip(s)| ==> s[k] == s[1..][k - 1];
    }
  }

  /** `s.rstrip()` is a prefix of `s`, and what it drops is whitespace. */
  lemma {:induction false} RStripPrefix(s: string)
    ensures RStrip(s) == s[..|RStrip(s)|]
    ensures AllSpace(s[|RStrip(s)|..])
  {
    if s != [] && IsSpace(s[|s| - 1]) {
      RStripPrefix(s[..|s| - 1]);
      assert s[..|s| - 1][..|RStrip(s)|] == s[..|RStrip(s)|];
      assert forall k :: |RStrip(s)| <= k < |s| - 1 ==> s[k] == s[..|s| - 1][k];
    }
  }

  /** `s.strip()` is the slice of `s` left once the leading and trailing
      whitespace is cut off. */
  lemma StripSlice(s: string)
    ensures StripsTo(s, |s| - |LStrip(s)|, Strip(s))
  {
    var l := LStrip(s);
    var lead := |s| - |l|;
    LStripSuffix(s);
    RStripPrefix(l);
    var r := Strip(s);
    assert s[lead..] == l;
    assert s[lead..lead + |r|] == s[lead..][..|r|];
    assert s[lead + |r|..] == s[lead..][|r|..];
  }

  /** A string without whitespace at its ends is its own strip. */
  lemma StrippedIsFixed(s: string)
    requires IsStripped(s)
    ensures Strip(s) == s
  {
    assert LStrip(s) == s;
  }

  /** Stripping a string whose ends are already stripped of trailing
      whitespace gives the same result: `s.rstrip().strip() == s.strip()`. */
  lemma {:induction false} StripOfRStrip(s: string)
    ensures Strip(RStrip(s)) == Strip(s)
  {
    if s != [] && IsSpace(s[|s| - 1]) {
      StripOfRStrip(s[..|s| - 1]);
      StripDropLastSpace(s);
    }
  }

  /** A trailing whitespace character does not survive `strip`. */
  lemma StripDropLastSpace(s: string)
    requires s != [] && IsSpace(s[|s| - 1])
    ensures Strip(s[..|s| - 1]) == Strip(s)
  {
    var t, c := s[..|s| - 1], s[|s| - 1];
    assert s == t + [c];
    LStripAppendSpace(t, c);
    if LStrip(t) != [] {
      var u := LStrip(t) + [c];
      assert u[..|u| - 1] == LStrip(t);
    }
  }

  /** Appending a space to `t` appends it to `t.lstrip()`, unless that is
      empty. */
  lemma {:induction false} LStripAppendSpace(t: string, c: char)
    requires IsSpace(c)
    ensures LStrip(t + [c]) == if LStrip(t) == [] then [] else LStrip(t) + [c]
  {
    if t != [] && IsSpace(t[0]) {
      assert (t + [c])[1..] == t[1..] + [c];
      LStripAppendSpace(t[1..], c);
    }
  }

  /** `(x + y).rstrip() == x + y.rstrip()` once `y` holds a non-space. */
  lemma {:induction false} RStripAppend(x: string, y: string)
    requires exists k :: 0 <= k < |y| && !IsSpace(y[k])
    ensures RStrip(x + y) == x + RStrip(y)
    decreases |y|
  {
    var k :| 0 <= k < |y| && !IsSpace(y[k]);
    if IsSpace(y[|y| - 1]) {
      assert (x + y)[..|x + y| - 1] == x + y[..|y| - 1];
      assert y[..|y| - 1][k] == y[k];
      RStripAppend(x, y[..|y| - 1]);
    } else {
      assert (x + y)[|x + y| - 1] == y[|y| - 1];
    }
  }

  /** `lstrip` stops at the first non-space: once `y` starts with one,
      `(x + y).lstrip() == x.lstrip() + y`. */
  lemma {:induction false} LStripPrepend(x: string, y: string)
    requires y != [] && !IsSpace(y[0])
    ensures LStrip(x + y) == LStrip(x) + y
  {
    if x == [] {
      assert x + y == y;
    } else if IsSpace(x[0]) {
      assert (x + y)[1..] == x[1..] + y;
      LStripPrepend(x[1..], y);
    } else {
      assert (x + y)[0] == x[0];
    }
  }

  /** `rstrip` stops at the last non-space: once `x` ends with one,
      `(x + y).rstrip() == x + y.rstrip()`. */
  lemma {:induction false} RStripKeep(x: string, y: string)
    requires x != [] && !IsSpace(x[|x| - 1])
    ensures RStrip(x + y) == x + RStrip(y)
    decreases |y|
  {
    if y == [] {
      assert x + y == x;
    } else if IsSpace(y[|y| - 1]) {
      assert (x + y)[..|x + y| - 1] == x + y[..|y| - 1];
      RStripKeep(x, y[..|y| - 1]);
    } else {
      assert (x + y)[|x + y| - 1] == y[|y| - 1];
    }
  }

  /** `strip` only cuts into the two ends around a middle part that starts
      and ends with a non-space. */
  lemma StripAround(pre: string, mid: string, post: string)
    requires mid != [] && !IsSpace(mid[0]) && !IsSpace(mid[|mid| - 1])
    ensures Strip(pre + mid + post) == LStrip(pre) + mid + RStrip(post)
  {
    assert pre + mid + post == pre + (mid + post);
    LStripPrepend(pre, mid + post);
    assert LStrip(pre) + (mid + post) == (LStrip(pre) + mid) + post;
    RStripKeep(LStrip(pre) + mid, post);
  }

  /** A string that starts with a non-space is unchanged by `lstrip`. */
  lemma LStripNonSpaceStart(s: string)
    requires s != [] && !IsSpace(s[0])
    ensures LStrip(s) == s
  {
  }

  /** `sep.join` and `split` are inverse on pieces without the separator. */
  lemma {:induction false} SplitJoin(parts: seq<string>, sep: char)
    requires |parts| >= 1
    requires forall k :: 0 <= k < |parts| ==> sep !in parts[k]
    ensures Split(Join(parts, [sep]), sep) == parts
  {
    if |parts| == 1 {
      FindSpec(parts[0], sep);
    } else {
      var s := Join(parts, [sep]);
      var rest := Join(parts[1..], [sep]);
      assert s == parts[0] + [sep] + rest;
      FindAfterPrefix(parts[0], sep, rest);
      assert s[|parts[0]| + 1..] == rest;
      assert s[..|parts[0]|] == parts[0];
      SplitJoin(parts[1..], sep);
      assert parts == [parts[0]] + parts[1..];
    }
  }

  lemma FindAfterPrefix(x: string, c: char, y: string)
    requires c !in x
    ensures Find(x + [c] + y, c) == |x|
  {
    var s := x + [c] + y;
    FindSpec(s, c);
    assert s[|x|] == c;
    assert s[..|x|] == x;
    FindAtMost(s, c, |x|);
  }

  lemma {:induction false} RFindBeforeSuffix(x: string, c: char, y: string)
    requires c !in y
    ensures RFind(x + [c] + y, c) == |x|
    decreases |y|
  {
    var s := x + [c] + y;
    if y == [] {
      assert s[|s| - 1] == c;
    } else {
      assert s[|s| - 1] == y[|y| - 1];
      assert s[..|s| - 1] == x + [c] + y[..|y| - 1];
      RFindBeforeSuffix(x, c, y[..|y| - 1]);
    }
  }

  /** The first `c` of `a + m + b` is the first character of `m` when it
      is `c` and `a` holds none. */
  lemma FindStartOf(a: string, m: string, b: string, c: char)
    requires m != [] && m[0] == c && c !in a
    ensures Find(a + m + b, c) == |a|
  {
    assert a + m + b == a + [m[0]] + (m[1..] + b);
    FindAfterPrefix(a, c, m[1..] + b);
  }

  /** The last `c` of `a + m + b` is the last character of `m` when it is
      `c` and `b` holds none. */
  lemma RFindEndOf(a: string, m: string, b: string, c: char)
    requires m != [] && m[|m| - 1] == c && c !in b
    ensures RFind(a + m + b, c) == |a| + |m| - 1
  {
    assert a + m + b == (a + m[..|m| - 1]) + [m[|m| - 1]] + b;
    RFindBeforeSuffix(a + m[..|m| - 1], c, b);
  }

  /** `split` yields one more piece than there are separators, so its
      number of pieces is at most `|s| + 1`. */
  lemma {:induction false} SplitLength(s: string, sep: char)
    ensures |Split(s, sep)| <= |s| + 1
    decreases |s|
  {
    var i := Find(s, sep);
    if i != -1 {
      SplitLength(s[i + 1..], sep);
    }
  }

  /** Substring containment is transitive: if `a in s` and `b in a` then
      `b in s`. */
  lemma ContainsTransitive(s: string, a: string, b: string)
    requires Contains(s, a) && Contains(a, b)
    ensures Contains(s, b)
  {
    var i :| 0 <= i <= |s| - |a| && OccursAt(s, a, i);
    var j :| 0 <= j <= |a| - |b| && OccursAt(a, b, j);
    forall k | 0 <= k < |b|
      ensures s[i + j + k] == b[k]
    {
      assert s[i..i + |a|][j + k] == a[j + k];
      assert a[j..j + |b|][k] == b[k];
    }
    assert s[i + j..i + j + |b|] == b;
    assert OccursAt(s, b, i + j);
  }
}
