/** Splitting text into words (internal/search/engine.go, internal/server/highlight.go). */
module Tokenizer {
  import opened Text

  /** The maximal runs of characters that satisfy p, in order: strings.FieldsFunc with the complement of p. */
  function Fields(s: string, p: char -> bool): (ws: seq<string>)
    decreases |s|
  {
    if s == "" then []
    else
      var n := Run(s, p);
      if n == 0 then Fields(s[1..], p) else [s[..n]] + Fields(s[n..], p)
  }

  /** Lower-case words of letters and digits. */
  function Tokenize(s: string): seq<string> {
    Fields(Lower(s), c => IsLowerAlpha(c) || IsDigit(c))
  }

  predicate LowerAlnum(c: char) { IsLowerAlpha(c) || IsDigit(c) }

  function LowerAll(ws: seq<string>): seq<string> { if ws == [] then [] else [Lower(ws[0])] + LowerAll(ws[1..]) }

  lemma {:induction false} LowerSplit(s: string, n: nat)
    requires n <= |s|
    ensures Lower(s)[..n] == Lower(s[..n]) && Lower(s)[n..] == Lower(s[n..])
  {
  }

  lemma {:induction false} LowerRun(s: string)
    ensures Run(Lower(s), LowerAlnum) == Run(s, IsAlnum)
  {
    RunIs(Lower(s), LowerAlnum, Run(s, IsAlnum));
  }

  /** The words of the index are the runs of the text in lower case. */
  lemma {:induction false} FieldsOfLower(s: string)
    ensures Fields(Lower(s), LowerAlnum) == LowerAll(Fields(s, IsAlnum))
    decreases |s|
  {
    if s != "" {
      LowerRun(s);
      var n := Run(s, IsAlnum);
      if n == 0 {
        LowerSplit(s, 1);
        FieldsOfLower(s[1..]);
      } else {
        LowerSplit(s, n);
        FieldsOfLower(s[n..]);
        var ws := Fields(s, IsAlnum);
        assert ws == [s[..n]] + Fields(s[n..], IsAlnum) && ws[1..] == Fields(s[n..], IsAlnum);
      }
    }
  }

  lemma {:induction false} SameFields(s: string, p: char -> bool, q: char -> bool)
    requires forall c :: p(c) == q(c)
    ensures Fields(s, p) == Fields(s, q)
    decreases |s|
  {
    if s != "" {
      RunIs(s, q, Run(s, p));
      var n := Run(s, p);
      if n == 0 {
        SameFields(s[1..], p, q);
      } else {
        SameFields(s[n..], p, q);
      }
    }
  }

  /** The words of a text are its runs of letters and digits, in order and in lower case. */
  lemma {:induction false} TokensAreRuns(s: string)
    ensures Tokenize(s) == LowerAll(Fields(s, IsAlnum))
  {
    SameFields(Lower(s), c => IsLowerAlpha(c) || IsDigit(c), LowerAlnum);
    FieldsOfLower(s);
  }

  // ------------------------------------------------------------------
  // Texts by their layout
  // ------------------------------------------------------------------

  predicate IsWord(p: string) { p != "" && forall i :: 0 <= i < |p| ==> IsAlnum(p[i]) }

  predicate IsGap(g: string) { forall i :: 0 <= i < |g| ==> !IsAlnum(g[i]) }

  /** The words, each behind its gap, and the last gap at the end. */
  function LaidOut(ws: seq<string>, gaps: seq<string>): string
    requires |gaps| == |ws| + 1
  {
    if ws == [] then gaps[0] else gaps[0] + ws[0] + LaidOut(ws[1..], gaps[1..])
  }

  predicate IsLayout(ws: seq<string>, gaps: seq<string>) {
    && |gaps| == |ws| + 1
    && (forall w :: w in ws ==> IsWord(w)) && (forall g :: g in gaps ==> IsGap(g))
    && forall i :: 0 < i < |ws| ==> gaps[i] != ""
  }

  lemma {:induction false} FieldsSkipGap(g: string, s: string)
    requires IsGap(g)
    ensures Fields(g + s, IsAlnum) == Fields(s, IsAlnum)
  {
    if g == "" {
      assert g + s == s;
    } else {
      assert (g + s)[1..] == g[1..] + s;
      FieldsSkipGap(g[1..], s);
    }
  }

  lemma {:induction false} FieldsTakeWord(w: string, s: string)
    requires IsWord(w) && (s != "" ==> !IsAlnum(s[0]))
    ensures Fields(w + s, IsAlnum) == [w] + Fields(s, IsAlnum)
  {
    RunIs(w + s, IsAlnum, |w|);
    assert (w + s)[..|w|] == w && (w + s)[|w|..] == s;
  }

  lemma {:induction false} LayoutStart(ws: seq<string>, gaps: seq<string>)
    requires IsLayout(ws, gaps)
    ensures var s := LaidOut(ws, gaps);
      if gaps[0] != "" then s != "" && !IsAlnum(s[0]) else if ws != [] then s != "" && IsAlnum(s[0]) else s == ""
  {
    assert gaps[0] in gaps;
    if ws != [] {
      assert ws[0] in ws;
    }
  }

  lemma {:induction false} LayoutTail(ws: seq<string>, gaps: seq<string>)
    requires IsLayout(ws, gaps) && ws != []
    ensures IsLayout(ws[1..], gaps[1..]) && IsGap(gaps[0]) && IsWord(ws[0])
    ensures LaidOut(ws, gaps) == gaps[0] + (ws[0] + LaidOut(ws[1..], gaps[1..]))
    ensures ws[1..] != [] ==> gaps[1] != ""
  {
    hide IsWord, IsGap;
    assert ws[0] in ws && gaps[0] in gaps;
    assert forall w :: w in ws[1..] ==> w in ws;
    assert forall g :: g in gaps[1..] ==> g in gaps;
  }

  lemma {:induction false} FieldsOfLayout(ws: seq<string>, gaps: seq<string>)
    requires IsLayout(ws, gaps)
    ensures Fields(LaidOut(ws, gaps), IsAlnum) == ws
  {
    if ws == [] {
      FieldsSkipGap(gaps[0], "");
      assert gaps[0] + "" == gaps[0] && gaps[0] in gaps;
    } else {
      var rest := LaidOut(ws[1..], gaps[1..]);
      LayoutTail(ws, gaps);
      LayoutStart(ws[1..], gaps[1..]);
      hide LaidOut, IsAlnum, Fields, IsGap, IsWord;
      FieldsOfLayout(ws[1..], gaps[1..]);
      FieldsSkipGap(gaps[0], ws[0] + rest);
      FieldsTakeWord(ws[0], rest);
    }
  }

  /** Whatever stands between them, the words of a text are found in order, each as often as it stands there, and in
      lower case. */
  lemma {:induction false} TokensOfLayout(ws: seq<string>, gaps: seq<string>)
    requires IsLayout(ws, gaps)
    ensures Tokenize(LaidOut(ws, gaps)) == LowerAll(ws)
  {
    FieldsOfLayout(ws, gaps);
    TokensAreRuns(LaidOut(ws, gaps));
  }

  lemma {:induction false} WordBefore(w: string, ws: seq<string>, gaps: seq<string>)
    requires IsLayout(ws, gaps) && IsWord(w)
    requires LaidOut(ws, gaps) != "" ==> !IsAlnum(LaidOut(ws, gaps)[0])
    ensures IsLayout([w] + ws, [""] + gaps) && LaidOut([w] + ws, [""] + gaps) == w + LaidOut(ws, gaps)
  {
    LayoutStart(ws, gaps);
    assert ([w] + ws)[1..] == ws && ([""] + gaps)[1..] == gaps;
  }

  lemma {:induction false} GapBefore(g: string, ws: seq<string>, gaps: seq<string>)
    requires IsLayout(ws, gaps) && IsGap(g)
    ensures IsLayout(ws, [g + gaps[0]] + gaps[1..])
    ensures LaidOut(ws, [g + gaps[0]] + gaps[1..]) == g + LaidOut(ws, gaps)
  {
    assert gaps[0] in gaps && forall x :: x in gaps[1..] ==> x in gaps;
    LongerGap(ws, gaps, g);
  }

  /** Every text is laid out in this way. */
  lemma {:induction false} EveryTextIsLaidOut(s: string) returns (ws: seq<string>, gaps: seq<string>)
    ensures IsLayout(ws, gaps) && LaidOut(ws, gaps) == s
    decreases |s|
  {
    if s == "" {
      ws, gaps := [], [""];
    } else {
      var n := Run(s, IsAlnum);
      var m := if n == 0 then 1 else n;
      ws, gaps := EveryTextIsLaidOut(s[m..]);
      assert s == s[..m] + s[m..] && (n == 0 ==> IsGap(s[..1])) && (n > 0 ==> IsWord(s[..n]));
      hide IsLayout, LaidOut, IsAlnum;
      if n == 0 {
        GapBefore(s[..1], ws, gaps);
        gaps := [s[..1] + gaps[0]] + gaps[1..];
      } else {
        WordBefore(s[..n], ws, gaps);
        ws, gaps := [s[..n]] + ws, [""] + gaps;
      }
    }
  }

  lemma {:induction false} LongerGap(ws: seq<string>, gaps: seq<string>, g: string)
    requires |gaps| == |ws| + 1
    ensures LaidOut(ws, [g + gaps[0]] + gaps[1..]) == g + LaidOut(ws, gaps)
  {
    var longer := [g + gaps[0]] + gaps[1..];
    if ws != [] {
      assert longer[1..] == gaps[1..];
      assert longer[0] + ws[0] + LaidOut(ws[1..], gaps[1..]) == g + (gaps[0] + ws[0] + LaidOut(ws[1..], gaps[1..]));
    }
  }

  function Count<T(==)>(xs: seq<T>, x: T): nat {
    if xs == [] then 0 else (if xs[0] == x then 1 else 0) + Count(xs[1..], x)
  }

  lemma {:induction false} CountPositive<T>(xs: seq<T>, x: T)
    ensures Count(xs, x) > 0 <==> x in xs
  {
    if xs != [] {
      CountPositive(xs[1..], x);
      assert xs == [xs[0]] + xs[1..];
    }
  }

  lemma {:induction false} CountSnoc<T>(xs: seq<T>, y: T, x: T)
    ensures Count(xs + [y], x) == Count(xs, x) + (if y == x then 1 else 0)
  {
    if xs != [] {
      CountSnoc(xs[1..], y, x);
      assert (xs + [y])[1..] == xs[1..] + [y];
    } else {
      assert [y][1..] == [];
    }
  }

  function Distinct(xs: seq<string>): set<string> { set x | x in xs }
}
