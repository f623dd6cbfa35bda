/** Python's argument-less `str.split()` and the `in` substring test, on
    strings as sequences of code points. */
module Text {

  /** The characters `str.split()` treats as separators: those Python's
      `str.isspace()` accepts (ASCII controls 9-13 and 28-31, space, and the
      Unicode space separators and line/paragraph separators). */
  predicate IsSpace(c: char) {
    || c == ' '
    || ('\t' <= c <= '\r')
    || ('\U{1c}' <= c <= '\U{1f}')
    || c == '\U{85}'
    || c == '\U{a0}'
    || c == '\U{1680}'
    || ('\U{2000}' <= c <= '\U{200a}')
    || c == '\U{2028}'
    || c == '\U{2029}'
    || c == '\U{202f}'
    || c == '\U{205f}'
    || c == '\U{3000}'
  }

  /** A whitespace-only string (possibly empty), such as `"\n"` read from a blank line. */
  predicate IsBlank(s: string) {
    forall i :: 0 <= i < |s| ==> IsSpace(s[i])
  }

  /** A token as `str.split()` produces it: non-empty and free of separators. */
  predicate IsWord(w: string) {
    |w| > 0 && forall i :: 0 <= i < |w| ==> !IsSpace(w[i])
  }

  predicate AllWords(ws: seq<string>) {
    forall i :: 0 <= i < |ws| ==> IsWord(ws[i])
  }

  /** Length of the longest separator-free prefix of `s`. */
  function WordLength(s: string): (n: nat)
    ensures n <= |s|
    ensures forall i :: 0 <= i < n ==> !IsSpace(s[i])
    ensures n == |s| || IsSpace(s[n])
  {
    if |s| == 0 || IsSpace(s[0]) then 0 else 1 + WordLength(s[1..])
  }

  /** `s.split()`: the maximal separator-free runs of `s`, left to right. */
  function Split(s: string): (ws: seq<string>)
    ensures AllWords(ws)
    decreases |s|
  {
    if |s| == 0 then []
    else if IsSpace(s[0]) then Split(s[1..])
    else
      var n := WordLength(s);
      [s[..n]] + Split(s[n..])
  }

  /** The whitespace runs around the tokens of `s`: before the first, between
      consecutive ones, and after the last. */
  function Gaps(s: string): (gs: seq<string>)
    ensures |gs| == |Split(s)| + 1
    decreases |s|
  {
    if |s| == 0 then [""]
    else if IsSpace(s[0]) then
      var g := Gaps(s[1..]);
      [[s[0]] + g[0]] + g[1..]
    else
      [""] + Gaps(s[WordLength(s)..])
  }

  /** `gaps[0] + ws[0] + gaps[1] + ... + ws[n-1] + gaps[n]`. */
  function Layout(ws: seq<string>, gaps: seq<string>): string
    requires |gaps| == |ws| + 1
  {
    if |ws| == 0 then gaps[0] else gaps[0] + ws[0] + Layout(ws[1..], gaps[1..])
  }

  /** `gaps` are legal separators for `ws`: all whitespace, and non-empty
      between two tokens (so neighbouring tokens cannot fuse). */
  predicate Separates(ws: seq<string>, gaps: seq<string>) {
    && |gaps| == |ws| + 1
    && (forall i :: 0 <= i < |gaps| ==> IsBlank(gaps[i]))
    && (forall i :: 0 < i < |ws| ==> |gaps[i]| > 0)
  }

  lemma LayoutStartsWithGap(ws: seq<string>, gaps: seq<string>)
    requires |gaps| == |ws| + 1
    ensures |gaps[0]| <= |Layout(ws, gaps)|
    ensures Layout(ws, gaps)[..|gaps[0]|] == gaps[0]
  {
    if |ws| > 0 {
      var rest := ws[0] + Layout(ws[1..], gaps[1..]);
      assert Layout(ws, gaps) == gaps[0] + rest;
    }
  }

  lemma {:induction false} SplitBlankPrefix(g: string, t: string)
    requires IsBlank(g)
    ensures Split(g + t) == Split(t)
    decreases |g|
  {
    if |g| > 0 {
      assert (g + t)[1..] == g[1..] + t;
      SplitBlankPrefix(g[1..], t);
    } else {
      assert g + t == t;
    }
  }

  lemma SplitWordThenBreak(w: string, t: string)
    requires IsWord(w)
    requires |t| == 0 || IsSpace(t[0])
    ensures Split(w + t) == [w] + Split(t)
  {
    var s := w + t;
    var n := WordLength(s);
    assert n == |w| by {
      assert forall i :: 0 <= i < |w| ==> s[i] == w[i];
      if |t| > 0 {
        assert s[|w|] == t[0];
      }
    }
    assert s[..n] == w;
    assert s[n..] == t;
  }

  /** Splitting recovers the tokens whatever whitespace separates them:
      leading, trailing and repeated separators make no difference. */
  lemma {:induction false} SplitLayout(ws: seq<string>, gaps: seq<string>)
    requires AllWords(ws)
    requires Separates(ws, gaps)
    ensures Split(Layout(ws, gaps)) == ws
    decreases |ws|
  {
    if |ws| == 0 {
      SplitBlankPrefix(gaps[0], "");
      assert gaps[0] + "" == gaps[0];
    } else {
      var tail := Layout(ws[1..], gaps[1..]);
      assert Layout(ws, gaps) == gaps[0] + (ws[0] + tail);
      SplitBlankPrefix(gaps[0], ws[0] + tail);
      LayoutStartsWithGap(ws[1..], gaps[1..]);
      if |ws| > 1 {
        assert |gaps[1]| > 0;
        assert tail[0] == gaps[1][0];
      } else {
        assert tail == gaps[1];
      }
      SplitWordThenBreak(ws[0], tail);
      SplitLayout(ws[1..], gaps[1..]);
    }
  }

  /** Every string is its own tokens laid out with its own whitespace runs:
      `Split` loses the separators and nothing else. */
  lemma {:induction false} LayoutOfSplit(s: string)
    ensures Separates(Split(s), Gaps(s))
    ensures Layout(Split(s), Gaps(s)) == s
    decreases |s|
  {
    if |s| == 0 {
    } else if IsSpace(s[0]) {
      LayoutOfSplit(s[1..]);
      LayoutOfSplitSpace(s);
    } else {
      LayoutOfSplit(s[WordLength(s)..]);
      LayoutOfSplitWord(s);
    }
  }

  /** Layout is concatenation: extending the first gap extends the string in front. */
  lemma LayoutConsGap(ws: seq<string>, g: seq<string>, c: string)
    requires |g| == |ws| + 1
    ensures Layout(ws, [c + g[0]] + g[1..]) == c + Layout(ws, g)
  {
    var gs := [c + g[0]] + g[1..];
    if |ws| > 0 {
      assert gs[1..] == g[1..];
    }
  }

  /** A word with an empty gap in front, followed by the layout of the rest of `s`, is `s`. */
  lemma LayoutConsWord(s: string, n: nat, ws: seq<string>, g: seq<string>)
    requires n <= |s| && |g| == |ws| + 1
    requires Layout(ws, g) == s[n..]
    ensures Layout([s[..n]] + ws, [""] + g) == s
  {
    LayoutConsToken(s[..n], ws, g);
    assert s[..n] + s[n..] == s;
  }

  lemma LayoutConsToken(w: string, ws: seq<string>, g: seq<string>)
    requires |g| == |ws| + 1
    ensures Layout([w] + ws, [""] + g) == w + Layout(ws, g)
  {
    var wt, gs := [w] + ws, [""] + g;
    assert wt[0] == w && wt[1..] == ws;
    assert gs[0] == "" && gs[1..] == g;
    assert "" + w == w;
  }

  lemma LayoutOfSplitSpace(s: string)
    requires |s| > 0 && IsSpace(s[0])
    requires Separates(Split(s[1..]), Gaps(s[1..]))
    requires Layout(Split(s[1..]), Gaps(s[1..])) == s[1..]
    ensures Separates(Split(s), Gaps(s))
    ensures Layout(Split(s), Gaps(s)) == s
  {
    var t := s[1..];
    var ws := Split(t);
    var g := Gaps(t);
    assert Split(s) == ws;
    assert Gaps(s) == [[s[0]] + g[0]] + g[1..];
    SeparatesConsGap(ws, g, [s[0]]);
    LayoutConsGap(ws, g, [s[0]]);
    assert s == [s[0]] + t;
  }

  /** Widening the first gap with more whitespace keeps the gaps legal. */
  lemma SeparatesConsGap(ws: seq<string>, g: seq<string>, c: string)
    requires Separates(ws, g) && IsBlank(c)
    ensures Separates(ws, [c + g[0]] + g[1..])
  {
    var gs := [c + g[0]] + g[1..];
    BlankConcat(c, g[0]);
    assert gs[0] == c + g[0];
    assert forall i :: 0 < i < |gs| ==> gs[i] == g[i];
  }

  lemma BlankConcat(a: string, b: string)
    requires IsBlank(a) && IsBlank(b)
    ensures IsBlank(a + b)
  {
    forall i | 0 <= i < |a + b|
      ensures IsSpace((a + b)[i])
    {
      if i < |a| {
        assert (a + b)[i] == a[i];
      } else {
        assert (a + b)[i] == b[i - |a|];
      }
    }
  }

  lemma LayoutOfSplitWord(s: string)
    requires |s| > 0 && !IsSpace(s[0])
    requires Separates(Split(s[WordLength(s)..]), Gaps(s[WordLength(s)..]))
    requires Layout(Split(s[WordLength(s)..]), Gaps(s[WordLength(s)..])) == s[WordLength(s)..]
    ensures Separates(Split(s), Gaps(s))
    ensures Layout(Split(s), Gaps(s)) == s
  {
    var n := WordLength(s);
    var t := s[n..];
    var ws := Split(t);
    var g := Gaps(t);
    LayoutConsWord(s, n, ws, g);
    assert Split(s) == [s[..n]] + ws;
    assert Gaps(s) == [""] + g;
    if |ws| > 0 {
      assert |t| > 0 && IsSpace(t[0]);
      GapsFirstNonEmpty(t);
    }
    SeparatesConsWord(s[..n], ws, g);
  }

  lemma GapsFirstNonEmpty(t: string)
    requires |t| > 0 && IsSpace(t[0])
    ensures |Gaps(t)[0]| > 0
  {
  }

  lemma SeparatesConsWord(w: string, ws: seq<string>, g: seq<string>)
    requires Separates(ws, g)
    requires |ws| > 0 ==> |g[0]| > 0
    ensures Separates([w] + ws, [""] + g)
  {
    var gs := [""] + g;
    assert forall i :: 0 < i < |gs| ==> gs[i] == g[i - 1];
  }

  /** The blank-line test `not line.split()`. */
  lemma {:induction false} SplitEmptyIffBlank(s: string)
    ensures Split(s) == [] <==> IsBlank(s)
    decreases |s|
  {
    if IsBlank(s) {
      SplitBlankPrefix(s, "");
      assert s + "" == s;
    } else if |s| > 0 && IsSpace(s[0]) {
      assert !IsBlank(s[1..]) by {
        var i :| 0 <= i < |s| && !IsSpace(s[i]);
        assert s[1..][i - 1] == s[i];
      }
      SplitEmptyIffBlank(s[1..]);
    }
  }

  /** Surrounding a line with whitespace does not change its tokens. */
  lemma {:induction false} SplitIgnoresPadding(lead: string, s: string, trail: string)
    requires IsBlank(lead) && IsBlank(trail)
    ensures Split(lead + s + trail) == Split(s)
  {
    LayoutOfSplit(s);
    var ws := Split(s);
    var gs := Gaps(s);
    var padded := PadGaps(gs, lead, trail);
    PadGapsSeparates(ws, gs, lead, trail);
    PadGapsLayout(ws, gs, lead, trail);
    SplitLayout(ws, padded);
  }

  /** `gaps` with `lead` prepended to the first run and `trail` appended to the last. */
  function PadGaps(gaps: seq<string>, lead: string, trail: string): (p: seq<string>)
    requires |gaps| > 0
    ensures |p| == |gaps|
  {
    if |gaps| == 1 then [lead + gaps[0] + trail]
    else [lead + gaps[0]] + gaps[1..|gaps| - 1] + [gaps[|gaps| - 1] + trail]
  }

  lemma PadGapsSeparates(ws: seq<string>, gaps: seq<string>, lead: string, trail: string)
    requires Separates(ws, gaps)
    requires IsBlank(lead) && IsBlank(trail)
    ensures Separates(ws, PadGaps(gaps, lead, trail))
  {
    var p := PadGaps(gaps, lead, trail);
    var n := |gaps| - 1;
    BlankConcat(lead, gaps[0]);
    BlankConcat(gaps[n], trail);
    BlankConcat(lead + gaps[0], trail);
    forall i | 0 <= i < |p|
      ensures IsBlank(p[i]) && |p[i]| >= |gaps[i]|
    {
      if n == 0 {
        assert p[i] == lead + gaps[0] + trail;
      } else if i == 0 {
        assert p[i] == lead + gaps[0];
      } else if i == n {
        assert p[i] == gaps[n] + trail;
      } else {
        assert p[i] == gaps[i];
      }
    }
  }

  lemma {:induction false} PadGapsLayout(ws: seq<string>, gaps: seq<string>, lead: string, trail: string)
    requires |gaps| == |ws| + 1
    ensures Layout(ws, PadGaps(gaps, lead, trail)) == lead + Layout(ws, gaps) + trail
    decreases |ws|
  {
    var p := PadGaps(gaps, lead, trail);
    if |ws| == 0 {
      assert p == [lead + gaps[0] + trail];
    } else {
      var p1 := PadGaps(gaps[1..], "", trail);
      PadGapsLayout(ws[1..], gaps[1..], "", trail);
      PadGapsTail(gaps, lead, trail);
      var rest := Layout(ws[1..], gaps[1..]);
      assert p[0] == lead + gaps[0];
      assert Layout(ws, p) == (lead + gaps[0]) + ws[0] + Layout(ws[1..], p1);
      assert Layout(ws[1..], p1) == "" + rest + trail;
      assert Layout(ws, gaps) == gaps[0] + ws[0] + rest;
    }
  }

  /** Past the first run, padding at the front is padding with nothing. */
  lemma PadGapsTail(gaps: seq<string>, lead: string, trail: string)
    requires |gaps| >= 2
    ensures PadGaps(gaps, lead, trail)[0] == lead + gaps[0]
    ensures PadGaps(gaps, lead, trail)[1..] == PadGaps(gaps[1..], "", trail)
  {
    var p, p1 := PadGaps(gaps, lead, trail), PadGaps(gaps[1..], "", trail);
    var n := |gaps| - 1;
    forall i | 0 <= i < |p1|
      ensures p[1..][i] == p1[i]
    {
      if i == n - 1 {
        assert p[i + 1] == gaps[n] + trail;
        if n == 1 {
          assert p1[i] == "" + gaps[1] + trail;
        } else {
          assert p1[i] == gaps[n] + trail;
        }
      } else {
        assert p[i + 1] == gaps[i + 1];
        if i == 0 {
          assert p1[i] == "" + gaps[1];
        } else {
          assert p1[i] == gaps[i + 1];
        }
      }
    }
  }

  /** Python's `pat in s`. */
  function Contains(s: string, pat: string): (r: bool)
    ensures r <==> exists i: nat :: OccursAt(s, pat, i)
    decreases |s|
  {
    if |pat| <= |s| && s[..|pat|] == pat then
      assert OccursAt(s, pat, 0);
      true
    else if |s| == 0 then
      assert forall i: nat :: !OccursAt(s, pat, i);
      false
    else
      var r := Contains(s[1..], pat);
      ContainsShift(s, pat);
      r
  }

  /** `pat` occurs in `s` starting at position `i`. */
  predicate OccursAt(s: string, pat: string, i: nat) {
    i + |pat| <= |s| && s[i..i + |pat|] == pat
  }

  lemma ContainsShift(s: string, pat: string)
    requires |s| > 0 && !(|pat| <= |s| && s[..|pat|] == pat)
    ensures (exists i: nat :: OccursAt(s, pat, i)) <==> (exists i: nat :: OccursAt(s[1..], pat, i))
  {
    if exists i: nat :: OccursAt(s, pat, i) {
      var i: nat :| OccursAt(s, pat, i);
      OccursLater(s, pat, i);
    }
    if exists i: nat :: OccursAt(s[1..], pat, i) {
      var i: nat :| OccursAt(s[1..], pat, i);
      OccursShift(s, pat, i);
    }
  }

  lemma OccursLater(s: string, pat: string, i: nat)
    requires |s| > 0 && !(|pat| <= |s| && s[..|pat|] == pat)
    requires OccursAt(s, pat, i)
    ensures i > 0 && OccursAt(s[1..], pat, i - 1)
  {
    assert s[..|pat|] == s[0..0 + |pat|];
    assert i != 0;
    assert s[1..][i - 1..i - 1 + |pat|] == s[i..i + |pat|];
  }

  lemma OccursShift(s: string, pat: string, i: nat)
    requires |s| > 0 && OccursAt(s[1..], pat, i)
    ensures OccursAt(s, pat, i + 1)
  {
    assert s[1..][i..i + |pat|] == s[i + 1..i + 1 + |pat|];
  }

  /** `Contains` is substring occurrence anywhere in the line. */
  lemma ContainsIff(s: string, pat: string)
    ensures Contains(s, pat) <==> exists a, b :: s == a + pat + b
  {
    if Contains(s, pat) {
      var a, b := ContainsWitness(s, pat);
    } else {
      forall a, b | s == a + pat + b
        ensures false
      {
        ContainsOccurrence(s, pat, a, b);
      }
    }
  }

  /** Where a contained pattern occurs: what comes before it and after it. */
  lemma {:induction false} ContainsWitness(s: string, pat: string) returns (a: string, b: string)
    requires Contains(s, pat)
    ensures s == a + pat + b
    decreases |s|
  {
    if |pat| <= |s| && s[..|pat|] == pat {
      a, b := "", s[|pat|..];
      assert s == a + pat + b;
    } else {
      var a', b' := ContainsWitness(s[1..], pat);
      a, b := [s[0]] + a', b';
      assert s == [s[0]] + s[1..];
    }
  }

  lemma {:induction false} ContainsOccurrence(s: string, pat: string, a: string, b: string)
    requires s == a + pat + b
    ensures Contains(s, pat)
    decreases |a|
  {
    if |a| == 0 {
      assert s[..|pat|] == pat;
    } else {
      assert s[1..] == a[1..] + pat + b;
      ContainsOccurrence(s[1..], pat, a[1..], b);
      if !(|pat| <= |s| && s[..|pat|] == pat) {
        assert Contains(s, pat) == Contains(s[1..], pat);
      }
    }
  }
}
