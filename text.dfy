/** Text helpers of the database module: the single-spacing of a
    disassembled line (`instruction`, `disassemble`) and the blank lines that
    `extra.preinsert`/`extra.postinsert` and friends add to or take from an
    address's prefix or suffix comment (`__insert_space`, `__append_space`). */
module Text {
  import opened Common

  // ---------------------------------------------------------------- single spacing

  /** One step of the fold: a space is kept only when the text so far does not end in one. */
  function SpaceStep(agg: string, c: char): string
  {
    if c == ' ' then (if agg != [] && agg[|agg| - 1] == ' ' then agg else agg + [' '])
    else agg + [c]
  }

  /** `reduce(step, s, '')`: every run of spaces becomes one space. */
  function Collapse(s: string): (r: string)
    ensures |r| <= |s|
    ensures s != [] && s[|s| - 1] == ' ' ==> r != [] && r[|r| - 1] == ' '
    ensures s != [] && s[|s| - 1] != ' ' ==> r != [] && r[|r| - 1] == s[|s| - 1]
  {
    if s == [] then [] else SpaceStep(Collapse(s[..|s| - 1]), s[|s| - 1])
  }

  predicate NoDoubleSpace(s: string)
  {
    forall i :: 0 <= i < |s| - 1 ==> !(s[i] == ' ' && s[i + 1] == ' ')
  }

  /** The characters other than spaces, in order. */
  function NonSpaces(s: string): string
  {
    if s == [] then [] else NonSpaces(s[..|s| - 1]) + (if s[|s| - 1] == ' ' then [] else [s[|s| - 1]])
  }

  lemma {:induction false} CollapseHasNoDoubleSpace(s: string)
    ensures NoDoubleSpace(Collapse(s))
  {
    if s != [] {
      CollapseHasNoDoubleSpace(s[..|s| - 1]);
    }
  }

  lemma {:induction false} CollapseKeepsNonSpaces(s: string)
    ensures NonSpaces(Collapse(s)) == NonSpaces(s)
  {
    if s != [] {
      var p, c := s[..|s| - 1], s[|s| - 1];
      CollapseKeepsNonSpaces(p);
      var agg := Collapse(p);
      if c == ' ' && agg != [] && agg[|agg| - 1] == ' ' {
        assert Collapse(s) == agg;
      } else {
        assert Collapse(s)[..|Collapse(s)| - 1] == agg;
      }
    }
  }

  /** Text that is already single-spaced comes back unchanged. */
  lemma {:induction false} CollapseKeepsSingleSpaced(s: string)
    requires NoDoubleSpace(s)
    ensures Collapse(s) == s
  {
    if s != [] {
      var p := s[..|s| - 1];
      assert NoDoubleSpace(p);
      CollapseKeepsSingleSpaced(p);
    }
  }

  /** A run of two spaces collapses exactly as a single space does, wherever it stands. */
  lemma {:induction false} DoubleSpaceIsOneSpace(a: string, b: string)
    ensures Collapse(a + "  " + b) == Collapse(a + " " + b)
    decreases |b|
  {
    if b == [] {
      assert a + "  " + b == (a + " ") + [' '];
      assert a + " " + b == a + " ";
    } else {
      var b', c := b[..|b| - 1], b[|b| - 1];
      DoubleSpaceIsOneSpace(a, b');
      assert a + "  " + b == (a + "  " + b') + [c];
      assert a + " " + b == (a + " " + b') + [c];
    }
  }

  lemma CollapseIsIdempotent(s: string)
    ensures Collapse(Collapse(s)) == Collapse(s)
  {
    CollapseHasNoDoubleSpace(s);
    CollapseKeepsSingleSpaced(Collapse(s));
  }

  // ---------------------------------------------------------------- blank lines around a comment

  /** Python's `'\n' * n`, empty for any `n <= 0`. */
  function Newlines(n: int): (r: string)
    ensures |r| == if n <= 0 then 0 else n
    ensures forall i :: 0 <= i < |r| ==> r[i] == '\n'
    decreases if n <= 0 then 0 else n
  {
    if n <= 0 then [] else "\n" + Newlines(n - 1)
  }

  function LeadingNewlines(s: string): (n: nat)
    ensures n <= |s|
    ensures forall i :: 0 <= i < n ==> s[i] == '\n'
    ensures n < |s| ==> s[n] != '\n'
  {
    if s != [] && s[0] == '\n' then 1 + LeadingNewlines(s[1..]) else 0
  }

  function TrailingNewlines(s: string): (n: nat)
    ensures n <= |s|
    ensures forall i :: |s| - n <= i < |s| ==> s[i] == '\n'
    ensures n < |s| ==> s[|s| - n - 1] != '\n'
  {
    if s != [] && s[|s| - 1] == '\n' then 1 + TrailingNewlines(s[..|s| - 1]) else 0
  }

  /** `res.lstrip('\n')`. */
  function LStrip(s: string): string
  {
    s[LeadingNewlines(s)..]
  }

  /** `res.rstrip('\n')`. */
  function RStrip(s: string): string
  {
    s[..|s| - TrailingNewlines(s)]
  }

  /** The lines a prefix comment occupies ahead of its text: no comment is
      none, otherwise one more than its leading newlines. */
  function LinesBefore(c: Option<string>): nat
  {
    if c.None? then 0 else LeadingNewlines(c.value) + 1
  }

  function LinesAfter(c: Option<string>): nat
  {
    if c.None? then 0 else TrailingNewlines(c.value) + 1
  }

  /** `__insert_space(ea, count)`: the comment after `count` blank lines are
      added ahead of its text (removed, for a negative `count`); `None` when
      the comment is removed. */
  function InsertSpace(c: Option<string>, count: int): (r: Option<string>)
    ensures r.Some? ==> LStrip(r.value) == (if c.None? then "" else LStrip(c.value))
    ensures r.None? <==> LinesBefore(c) + count <= 0 && (c.None? || LStrip(c.value) == "")
    ensures r.Some? ==> LinesBefore(r) == if LinesBefore(c) + count > 0 then LinesBefore(c) + count else 1
  {
    var stripped := if c.None? then "" else LStrip(c.value);
    var nl := LinesBefore(c);
    if nl + count > 0 || stripped != "" then
      var r := Newlines(nl + count - 1) + stripped;
      NewlinesThenText(nl + count - 1, stripped);
      Some(r)
    else None
  }

  /** `__append_space(ea, count)`: as `InsertSpace`, at the end of the text. */
  function AppendSpace(c: Option<string>, count: int): (r: Option<string>)
    ensures r.Some? ==> RStrip(r.value) == (if c.None? then "" else RStrip(c.value))
    ensures r.None? <==> LinesAfter(c) + count <= 0 && (c.None? || RStrip(c.value) == "")
    ensures r.Some? ==> LinesAfter(r) == if LinesAfter(c) + count > 0 then LinesAfter(c) + count else 1
  {
    var stripped := if c.None? then "" else RStrip(c.value);
    var nl := LinesAfter(c);
    if nl + count > 0 || stripped != "" then
      var r := stripped + Newlines(nl + count - 1);
      TextThenNewlines(stripped, nl + count - 1);
      Some(r)
    else None
  }

  lemma {:induction false} StrippedHasNoLeadingNewline(s: string)
    ensures LStrip(s) == [] || LStrip(s)[0] != '\n'
    ensures RStrip(s) == [] || RStrip(s)[|RStrip(s)| - 1] != '\n'
  {
  }

  /** Newlines put ahead of text that starts with none are its leading newlines. */
  lemma {:induction false} NewlinesThenText(n: int, t: string)
    requires t == [] || t[0] != '\n'
    ensures LeadingNewlines(Newlines(n) + t) == |Newlines(n)|
    ensures LStrip(Newlines(n) + t) == t
    decreases if n <= 0 then 0 else n
  {
    if n > 0 {
      NewlinesThenText(n - 1, t);
      assert (Newlines(n) + t)[1..] == Newlines(n - 1) + t;
    }
  }

  lemma {:induction false} TextThenNewlines(t: string, n: int)
    requires t == [] || t[|t| - 1] != '\n'
    ensures TrailingNewlines(t + Newlines(n)) == |Newlines(n)|
    ensures RStrip(t + Newlines(n)) == t
  {
    var s, k := t + Newlines(n), TrailingNewlines(t + Newlines(n));
    assert k == |Newlines(n)|;
    assert s[..|t|] == t;
  }

  lemma NewlinesShift(n: int)
    requires n > 0
    ensures Newlines(n) == Newlines(n - 1) + "\n"
  {
  }

  lemma {:induction false} SplitLeading(s: string)
    ensures s == Newlines(LeadingNewlines(s)) + LStrip(s)
  {
    var n := LeadingNewlines(s);
    var r := Newlines(n) + LStrip(s);
    assert |r| == |s|;
    forall i | 0 <= i < |s| ensures r[i] == s[i] {
      if i >= n {
        assert r[i] == LStrip(s)[i - n];
      }
    }
  }

  lemma {:induction false} SplitTrailing(s: string)
    ensures s == RStrip(s) + Newlines(TrailingNewlines(s))
  {
    var n := TrailingNewlines(s);
    var r := RStrip(s) + Newlines(n);
    assert |r| == |s|;
    forall i | 0 <= i < |s| ensures r[i] == s[i] {
      if i >= |s| - n {
        assert r[i] == Newlines(n)[i - (|s| - n)];
      }
    }
  }

  /** On a comment that stays, `InsertSpace` puts the new number of blank lines ahead of the text. */
  lemma {:induction false} InsertSpaceSome(s: string, count: int)
    requires LeadingNewlines(s) + 1 + count > 0
    ensures InsertSpace(Some(s), count) == Some(Newlines(LeadingNewlines(s) + count) + LStrip(s))
  {
  }

  /** On a comment that stays, `AppendSpace` puts the new number of blank lines after the text. */
  lemma {:induction false} AppendSpaceSome(s: string, count: int, t: string, n: int)
    requires t == RStrip(s) && n == TrailingNewlines(s) + count && n >= 0
    ensures AppendSpace(Some(s), count) == Some(t + Newlines(n))
  {
  }

  /** Taking away `count` of the blank lines after a text leaves the rest. */
  lemma {:induction false} AppendSpaceBack(t: string, k: int, count: int)
    requires t == [] || t[|t| - 1] != '\n'
    requires k >= 0 && count >= 0
    ensures AppendSpace(Some(t + Newlines(k + count)), -count) == Some(t + Newlines(k))
  {
    TextThenNewlines(t, k + count);
    AppendSpaceSome(t + Newlines(k + count), -count, t, k);
  }

  /** Adding `count` blank lines ahead of a comment and then taking them away gives it back. */
  lemma {:induction false} InsertSpaceUndo(c: Option<string>, count: int)
    requires count >= 0
    ensures InsertSpace(InsertSpace(c, count), -count) == c
  {
    if c.Some? {
      var s := c.value;
      var m, t := LeadingNewlines(s), LStrip(s);
      InsertSpaceSome(s, count);
      StrippedHasNoLeadingNewline(s);
      NewlinesThenText(m + count, t);
      InsertSpaceSome(Newlines(m + count) + t, -count);
      SplitLeading(s);
    } else if count > 0 {
      assert LinesBefore(InsertSpace(c, count)) == count;
    }
  }

  /** Adding `count` blank lines after a comment and then taking them away gives it back. */
  lemma {:induction false} AppendSpaceUndo(c: Option<string>, count: int)
    requires count >= 0
    ensures AppendSpace(AppendSpace(c, count), -count) == c
  {
    if c.Some? {
      var s := c.value;
      var m, t := TrailingNewlines(s), RStrip(s);
      assert AppendSpace(c, count) == Some(t + Newlines(m + count)) by {
        AppendSpaceSome(s, count, t, m + count);
      }
      StrippedHasNoLeadingNewline(s);
      AppendSpaceBack(t, m, count);
      SplitTrailing(s);
    } else if count > 0 {
      assert LinesAfter(AppendSpace(c, count)) == count;
    }
  }
}
