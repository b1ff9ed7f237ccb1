/** Highlighting query words in a text (internal/server/highlight.go). */
module Highlight {
  import opened Common
  import opened Text
  import opened Tokenizer

  // ------------------------------------------------------------------
  // What is highlighted
  // ------------------------------------------------------------------

  /** The text cut into maximal runs of letters and digits, and single other bytes. */
  function Pieces(s: string): (ps: seq<string>)
    decreases |s|
  {
    if s == "" then []
    else
      var n := if IsAlnum(s[0]) then Run(s, IsAlnum) else 1;
      [s[..n]] + Pieces(s[n..])
  }

  /** A word whose lower case is asked for is wrapped; anything else is copied. */
  function Wrapped(p: string, toks: set<string>, pre: string, post: string): string {
    if IsWord(p) && Lower(p) in toks then pre + p + post else p
  }

  function Concat(ps: seq<string>): string { if ps == [] then "" else ps[0] + Concat(ps[1..]) }

  function WrapAll(ps: seq<string>, toks: set<string>, pre: string, post: string): string {
    if ps == [] then "" else Wrapped(ps[0], toks, pre, post) + WrapAll(ps[1..], toks, pre, post)
  }

  predicate AnyHit(s: string, toks: set<string>) { exists p :: p in Pieces(s) && IsWord(p) && Lower(p) in toks }

  /** No hit gives the empty string. */
  function Highlighted(s: string, toks: set<string>, pre: string, post: string): string {
    if AnyHit(s, toks) then WrapAll(Pieces(s), toks, pre, post) else ""
  }

  /** The pieces make up the text; each is a word or one other byte; no two words are adjacent, so words are maximal. */
  lemma {:induction false} PiecesPartition(s: string)
    ensures Concat(Pieces(s)) == s
    ensures forall p :: p in Pieces(s) ==> IsWord(p) || (|p| == 1 && !IsAlnum(p[0]))
    ensures forall k :: 0 <= k < |Pieces(s)| - 1 ==> !(IsWord(Pieces(s)[k]) && IsWord(Pieces(s)[k+1]))
    decreases |s|
  {
    if s != "" {
      hide *;
      var n := HeadPiece(s);
      PiecesPartition(s[n..]);
      PutBefore(s[..n], Pieces(s[n..]));
    } else {
      NextPiece(s);
      assert Concat([]) == "";
    }
  }

  lemma {:induction false} HeadPiece(s: string) returns (n: nat)
    requires s != ""
    ensures 0 < n <= |s| && Pieces(s) == [s[..n]] + Pieces(s[n..]) && s == s[..n] + s[n..]
    ensures IsWord(s[..n]) || (|s[..n]| == 1 && !IsAlnum(s[..n][0]))
    ensures Pieces(s[n..]) != [] ==> !(IsWord(s[..n]) && IsWord(Pieces(s[n..])[0]))
  {
    n := if IsAlnum(s[0]) then Run(s, IsAlnum) else 1;
    assert IsAlnum(s[0]) ==> IsWord(s[..n]) && (n < |s| ==> !IsAlnum(s[n]));
    assert !IsAlnum(s[0]) ==> !IsWord(s[..n]) && !IsAlnum(s[..n][0]);
    assert Pieces(s) == [s[..n]] + Pieces(s[n..]);
    NextPiece(s[n..]);
    hide Pieces, IsWord, IsAlnum, Run;
  }

  lemma {:induction false} NextPiece(s: string)
    ensures Pieces(s) == [] <==> s == ""
    ensures s != "" && !IsAlnum(s[0]) ==> !IsWord(Pieces(s)[0])
  {
  }

  lemma {:induction false} PutBefore(p: string, ps: seq<string>)
    requires forall k :: 0 <= k < |ps| - 1 ==> !(IsWord(ps[k]) && IsWord(ps[k+1]))
    requires ps != [] ==> !(IsWord(p) && IsWord(ps[0]))
    ensures var qs := [p] + ps;
      && (forall k :: 0 <= k < |qs| - 1 ==> !(IsWord(qs[k]) && IsWord(qs[k+1])))
      && (forall q :: q in qs <==> q == p || q in ps) && Concat(qs) == p + Concat(ps)
  {
    hide IsWord;
    var qs := [p] + ps;
    assert qs[1..] == ps;
    forall k | 0 <= k < |qs| - 1 ensures !(IsWord(qs[k]) && IsWord(qs[k+1])) {
      assert qs[k+1] == ps[k] && (k > 0 ==> qs[k] == ps[k-1]);
    }
  }

  /** With empty tags a text with a hit comes back unchanged. */
  lemma {:induction false} EmptyTagsChangeNothing(s: string, toks: set<string>)
    ensures Highlighted(s, toks, "", "") == if AnyHit(s, toks) then s else ""
  {
    PiecesPartition(s);
    WrapNothing(Pieces(s), toks);
  }

  lemma {:induction false} WrapNothing(ps: seq<string>, toks: set<string>)
    ensures WrapAll(ps, toks, "", "") == Concat(ps)
  {
    hide Wrapped;
    if ps != [] {
      WrapNothing(ps[1..], toks);
      BareTags(ps[0], toks);
    }
  }

  lemma {:induction false} BareTags(p: string, toks: set<string>)
    ensures Wrapped(p, toks, "", "") == p
  {
    assert "" + p + "" == p;
  }

  // ------------------------------------------------------------------
  // Highlighting and searching agree on words
  // ------------------------------------------------------------------

  lemma {:induction false} LowerAllMembers(ws: seq<string>, t: string)
    ensures t in LowerAll(ws) <==> exists w :: w in ws && Lower(w) == t
  {
    if ws != [] {
      LowerAllMembers(ws[1..], t);
      assert ws == [ws[0]] + ws[1..];
    }
  }

  function WordsAmong(ps: seq<string>): seq<string> {
    if ps == [] then [] else (if IsWord(ps[0]) then [ps[0]] else []) + WordsAmong(ps[1..])
  }

  /** The words among the pieces are the runs, in order. */
  lemma {:induction false} WordsArePieces(s: string)
    ensures Fields(s, IsAlnum) == WordsAmong(Pieces(s))
    decreases |s|
  {
    if s != "" {
      var n := Run(s, IsAlnum);
      var m := if n == 0 then 1 else n;
      WordsArePieces(s[m..]);
      var ps := Pieces(s);
      assert ps == [s[..m]] + Pieces(s[m..]) && ps[1..] == Pieces(s[m..]);
    }
  }

  lemma {:induction false} AmongPieces(ps: seq<string>, w: string)
    ensures w in WordsAmong(ps) <==> w in ps && IsWord(w)
  {
    if ps != [] {
      AmongPieces(ps[1..], w);
      assert ps == [ps[0]] + ps[1..];
    }
  }

  /** The words a text is indexed under are the words among its pieces, in order, each once for each time it occurs. */
  lemma {:induction false} TokensArePieces(s: string)
    ensures Tokenize(s) == LowerAll(WordsAmong(Pieces(s)))
  {
    TokensAreRuns(s);
    WordsArePieces(s);
  }

  /** A text is highlighted exactly when it has an indexed word among the query's words. */
  lemma {:induction false} HitExactlyWhenTokenMatches(s: string, toks: set<string>)
    ensures AnyHit(s, toks) <==> exists t :: t in Tokenize(s) && t in toks
  {
    TokensArePieces(s);
    var ws := WordsAmong(Pieces(s));
    hide Tokenize, Pieces, WordsAmong;
    if AnyHit(s, toks) {
      var p :| p in Pieces(s) && IsWord(p) && Lower(p) in toks;
      AmongPieces(Pieces(s), p);
      LowerAllMembers(ws, Lower(p));
      assert Lower(p) in Tokenize(s);
    }
    if t :| t in Tokenize(s) && t in toks {
      LowerAllMembers(ws, t);
      var w :| w in ws && Lower(w) == t;
      AmongPieces(Pieces(s), w);
    }
  }

  // ------------------------------------------------------------------
  // What the output is, word by word
  // ------------------------------------------------------------------

  /** What a reader gets to see: the fragment, or the text itself where there is none. */
  function Shown(s: string, toks: set<string>, pre: string, post: string): string {
    var r := Highlighted(s, toks, pre, post);
    if r == "" then s else r
  }

  lemma {:induction false} FirstPiece(s: string, n: nat)
    requires 0 < n <= |s|
    requires if IsAlnum(s[0]) then IsWord(s[..n]) && (n < |s| ==> !IsAlnum(s[n])) else n == 1
    ensures Pieces(s) == [s[..n]] + Pieces(s[n..])
  {
    if IsAlnum(s[0]) {
      RunIs(s, IsAlnum, n);
    }
  }

  /** The first piece of a is that of a + b. */
  lemma {:induction false} FirstCut(a: string, b: string) returns (n: nat)
    requires a != "" && (b != "" ==> !(IsAlnum(a[|a|-1]) && IsAlnum(b[0])))
    ensures 0 < n <= |a| && (a + b)[..n] == a[..n] && (a + b)[n..] == a[n..] + b
    ensures Pieces(a) == [a[..n]] + Pieces(a[n..])
    ensures Pieces(a + b) == [a[..n]] + Pieces(a[n..] + b)
    ensures a[n..] != "" ==> a[n..][|a[n..]|-1] == a[|a|-1]
  {
    n := CutLength(a);
    CutOfBoth(a, b, n);
    hide *;
    FirstPiece(a, n);
    FirstPiece(a + b, n);
  }

  lemma {:induction false} CutLength(a: string) returns (n: nat)
    requires a != ""
    ensures 0 < n <= |a|
    ensures if IsAlnum(a[0]) then IsWord(a[..n]) && (n < |a| ==> !IsAlnum(a[n])) else n == 1
  {
    n := if IsAlnum(a[0]) then Run(a, IsAlnum) else 1;
  }

  lemma {:induction false} CutOfBoth(a: string, b: string, n: nat)
    requires 0 < n <= |a|
    ensures (a + b)[0] == a[0] && (a + b)[..n] == a[..n] && (a + b)[n..] == a[n..] + b
    ensures n < |a| ==> (a + b)[n] == a[n]
    ensures n == |a| && b != "" ==> (a + b)[n] == b[0] && a[..n][n-1] == a[|a|-1]
    ensures IsWord(a[..n]) ==> IsAlnum(a[n-1])
    ensures a[n..] != "" ==> a[n..][|a[n..]|-1] == a[|a|-1]
  {
    assert a[..n][n-1] == a[n-1];
    hide IsAlnum;
  }

  lemma {:induction false} OneBefore(p: string, ps: seq<string>, qs: seq<string>)
    ensures [p] + (ps + qs) == [p] + ps + qs
  {
  }

  /** Texts put together are cut where each is cut, unless a word runs on from the one to the other. */
  lemma {:induction false} PiecesConcat(a: string, b: string)
    requires a != "" && b != "" ==> !(IsAlnum(a[|a|-1]) && IsAlnum(b[0]))
    ensures Pieces(a + b) == Pieces(a) + Pieces(b)
    decreases |a|
  {
    if a == "" {
      assert a + b == b && Pieces("") + Pieces(b) == Pieces(b);
    } else {
      hide *;
      var n := FirstCut(a, b);
      PiecesConcat(a[n..], b);
      OneBefore(a[..n], Pieces(a[n..]), Pieces(b));
    }
  }

  lemma {:induction false} PiecesOfWord(w: string)
    requires IsWord(w)
    ensures Pieces(w) == [w]
  {
    RunIs(w, IsAlnum, |w|);
    assert w[..|w|] == w && w[|w|..] == "" && Pieces("") == [];
  }

  lemma {:induction false} WrapConcat(a: seq<string>, b: seq<string>, toks: set<string>, pre: string, post: string)
    ensures WrapAll(a + b, toks, pre, post) == WrapAll(a, toks, pre, post) + WrapAll(b, toks, pre, post)
  {
    hide Wrapped;
    if a == [] {
      assert a + b == b;
    } else {
      WrapConcat(a[1..], b, toks, pre, post);
      assert (a + b)[1..] == a[1..] + b;
      Appended(Wrapped(a[0], toks, pre, post), WrapAll(a[1..], toks, pre, post), WrapAll(b, toks, pre, post));
      hide WrapAll;
    }
  }

  lemma {:induction false} WrapNoHit(ps: seq<string>, toks: set<string>, pre: string, post: string)
    requires forall p :: p in ps ==> !(IsWord(p) && Lower(p) in toks)
    ensures WrapAll(ps, toks, pre, post) == Concat(ps)
  {
    if ps != [] {
      assert ps[0] in ps;
      WrapNoHit(ps[1..], toks, pre, post);
    }
  }

  /** With a hit the output is not empty. */
  lemma {:induction false} WrapHit(ps: seq<string>, p: string, toks: set<string>, pre: string, post: string)
    requires p in ps && p != ""
    ensures WrapAll(ps, toks, pre, post) != ""
  {
    if ps[0] != p {
      WrapHit(ps[1..], p, toks, pre, post);
    }
  }

  lemma {:induction false} ShownIsWrapped(s: string, toks: set<string>, pre: string, post: string)
    ensures Shown(s, toks, pre, post) == WrapAll(Pieces(s), toks, pre, post)
    ensures Highlighted(s, toks, pre, post) == "" <==> !AnyHit(s, toks)
  {
    PiecesPartition(s);
    if AnyHit(s, toks) {
      var p :| p in Pieces(s) && IsWord(p) && Lower(p) in toks;
      WrapHit(Pieces(s), p, toks, pre, post);
    } else {
      WrapNoHit(Pieces(s), toks, pre, post);
    }
  }

  /** Whatever stands around it, a word of the text is shown between the tags if it is asked for, and as it is
      otherwise; what stands before and behind it is shown as it would be alone. */
  lemma {:induction false} WordIsTagged(a: string, w: string, b: string, toks: set<string>, pre: string, post: string)
    requires IsWord(w) && (a != "" ==> !IsAlnum(a[|a|-1])) && (b != "" ==> !IsAlnum(b[0]))
    ensures Shown(a + w + b, toks, pre, post)
         == Shown(a, toks, pre, post) + (if Lower(w) in toks then pre + w + post else w) + Shown(b, toks, pre, post)
  {
    hide Pieces, Shown, Highlighted, WrapAll;
    ShownIsWrapped(a + w + b, toks, pre, post);
    ShownIsWrapped(a, toks, pre, post);
    ShownIsWrapped(b, toks, pre, post);
    PiecesConcat(a, w);
    PiecesConcat(a + w, b);
    PiecesOfWord(w);
    hide IsAlnum;
    WrapConcat(Pieces(a) + [w], Pieces(b), toks, pre, post);
    WrapConcat(Pieces(a), [w], toks, pre, post);
    WrapOne(w, toks, pre, post);
  }

  lemma {:induction false} WrapOne(w: string, toks: set<string>, pre: string, post: string)
    ensures WrapAll([w], toks, pre, post) == Wrapped(w, toks, pre, post)
  {
    assert [w][1..] == [];
  }

  /** A text without words is shown as it is. */
  lemma {:induction false} GapIsShown(g: string, toks: set<string>, pre: string, post: string)
    requires IsGap(g)
    ensures Shown(g, toks, pre, post) == g
  {
    FieldsSkipGap(g, "");
    assert g + "" == g;
    WordsArePieces(g);
    PiecesPartition(g);
    ShownIsWrapped(g, toks, pre, post);
    forall p | p in Pieces(g) ensures !(IsWord(p) && Lower(p) in toks) {
      AmongPieces(Pieces(g), p);
    }
    WrapNoHit(Pieces(g), toks, pre, post);
  }

  /** There is no fragment if and only if no indexed word of the text is asked for. */
  lemma {:induction false} NoFragmentExactlyWhen(s: string, toks: set<string>, pre: string, post: string)
    ensures Highlighted(s, toks, pre, post) == "" <==> forall t :: t in Tokenize(s) ==> t !in toks
  {
    ShownIsWrapped(s, toks, pre, post);
    HitExactlyWhenTokenMatches(s, toks);
    hide *;
  }

  // ------------------------------------------------------------------
  // The loop over the bytes
  // ------------------------------------------------------------------

  function RunEnd(s: string, i: nat): (e: nat)
    requires i <= |s|
    ensures i <= e <= |s|
  {
    i + Run(s[i..], IsAlnum)
  }

  lemma {:induction false} AtSeparator(s: string, i: nat, toks: set<string>, pre: string, post: string)
    requires i < |s| && !IsAlnum(s[i])
    ensures WrapAll(Pieces(s[i..]), toks, pre, post) == [s[i]] + WrapAll(Pieces(s[i+1..]), toks, pre, post)
    ensures Fields(s[i..], IsAlnum) == Fields(s[i+1..], IsAlnum)
  {
    assert s[i..][1..] == s[i+1..] && s[i..][..1] == [s[i]];
    var ps := Pieces(s[i..]);
    assert ps == [[s[i]]] + Pieces(s[i+1..]) && ps[1..] == Pieces(s[i+1..]);
  }

  lemma {:induction false} AtWord(s: string, i: nat, toks: set<string>, pre: string, post: string)
    requires i < |s| && IsAlnum(s[i])
    ensures var e := RunEnd(s, i);
      && i < e && IsWord(s[i..e])
      && WrapAll(Pieces(s[i..]), toks, pre, post)
         == Wrapped(s[i..e], toks, pre, post) + WrapAll(Pieces(s[e..]), toks, pre, post)
      && Fields(s[i..], IsAlnum) == [s[i..e]] + Fields(s[e..], IsAlnum)
  {
    var e := RunEnd(s, i);
    assert s[i..][..e-i] == s[i..e] && s[i..][e-i..] == s[e..];
    var ps := Pieces(s[i..]);
    assert ps == [s[i..e]] + Pieces(s[e..]) && ps[1..] == Pieces(s[e..]);
    assert forall k :: 0 <= k < e - i ==> s[i..e][k] == s[i..][k];
  }

  lemma {:induction false} InsideRun(s: string, i: nat)
    requires i < |s| && IsAlnum(s[i])
    ensures RunEnd(s, i) == if i + 1 < |s| && IsAlnum(s[i+1]) then RunEnd(s, i + 1) else i + 1
  {
    assert s[i..][1..] == s[i+1..];
    if i + 1 < |s| {
      assert s[i+1..][0] == s[i+1];
    }
  }

  /** A word has been started but not finished before i. */
  predicate Inside(s: string, i: nat) { 0 < i < |s| && IsAlnum(s[i-1]) && IsAlnum(s[i]) }

  /** The output so far and the spans left fit the text from e on. */
  predicate Fits(s: string, spans: seq<string>, toks: set<string>, pre: string, post: string, e: nat, left: nat,
                 r: string)
    requires e <= |s|
  {
    && left <= |spans| && spans[left..] == Fields(s[e..], IsAlnum)
    && r + WrapAll(Pieces(s[e..]), toks, pre, post) == WrapAll(Pieces(s), toks, pre, post)
  }

  /** Before byte i: inside a word its span is written already but not yet counted. */
  predicate Progress(s: string, spans: seq<string>, toks: set<string>, pre: string, post: string, i: nat, idx: nat,
                     r: string)
    requires i <= |s|
  {
    if Inside(s, i) then Fits(s, spans, toks, pre, post, RunEnd(s, i), idx + 1, r)
    else Fits(s, spans, toks, pre, post, i, idx, r)
  }

  lemma {:induction false} SeparatorStep(s: string, spans: seq<string>, toks: set<string>, pre: string, post: string,
                                         i: nat, idx: nat, r: string)
    requires i < |s| && !IsAlnum(s[i]) && Progress(s, spans, toks, pre, post, i, idx, r)
    ensures Progress(s, spans, toks, pre, post, i + 1, idx, r + [s[i]])
  {
    AtSeparator(s, i, toks, pre, post);
    hide Pieces, Fields, WrapAll;
    Appended(r, [s[i]], WrapAll(Pieces(s[i+1..]), toks, pre, post));
  }

  lemma {:induction false} WordStep(s: string, spans: seq<string>, toks: set<string>, pre: string, post: string,
                                    i: nat, idx: nat, r: string)
    requires i < |s| && IsAlnum(s[i]) && !Inside(s, i) && Progress(s, spans, toks, pre, post, i, idx, r)
    ensures idx < |spans| && IsWord(spans[idx])
    ensures Fits(s, spans, toks, pre, post, RunEnd(s, i), idx + 1, r + Wrapped(spans[idx], toks, pre, post))
  {
    AtWord(s, i, toks, pre, post);
    var e := RunEnd(s, i);
    hide Pieces, Fields, WrapAll, RunEnd, Wrapped;
    var rest := Fields(s[e..], IsAlnum);
    assert spans[idx..] == [s[i..e]] + rest;
    assert spans[idx..][0] == s[i..e] && spans[idx..][1..] == rest;
    Appended(r, Wrapped(spans[idx], toks, pre, post), WrapAll(Pieces(s[e..]), toks, pre, post));
  }

  lemma {:induction false} ByteStep(s: string, spans: seq<string>, toks: set<string>, pre: string, post: string,
                                    i: nat, idx: nat, r: string)
    requires i < |s| && IsAlnum(s[i]) && Fits(s, spans, toks, pre, post, RunEnd(s, i), idx + 1, r)
    ensures Progress(s, spans, toks, pre, post, i + 1, if i + 1 == |s| || !IsAlnum(s[i+1]) then idx + 1 else idx, r)
  {
    InsideRun(s, i);
    hide Pieces, Fields, WrapAll, RunEnd;
  }

  method FindHit(spans: seq<string>, toks: set<string>) returns (anyHit: bool)
    ensures anyHit <==> exists k :: 0 <= k < |spans| && Lower(spans[k]) in toks
  {
    anyHit := false;
    for i := 0 to |spans|
      invariant anyHit <==> exists k :: 0 <= k < i && Lower(spans[k]) in toks
    {
      if Lower(spans[i]) in toks {
        anyHit := true;
      }
    }
  }

  lemma {:induction false} NothingWritten(s: string, spans: seq<string>, toks: set<string>, pre: string, post: string)
    requires spans == Fields(s, IsAlnum)
    ensures Progress(s, spans, toks, pre, post, 0, 0, "")
  {
    assert s[0..] == s && spans[0..] == spans;
  }

  method WriteFragment(s: string, spans: seq<string>, toks: set<string>, pre: string, post: string) returns (r: string)
    requires spans == Fields(s, IsAlnum)
    ensures r == WrapAll(Pieces(s), toks, pre, post)
  {
    hide *;
    r := "";
    var idx := 0;
    NothingWritten(s, spans, toks, pre, post);
    for i := 0 to |s|
      invariant Progress(s, spans, toks, pre, post, i, idx, r)
    {
      var c := s[i];
      if !IsAlnum(c) {
        SeparatorStep(s, spans, toks, pre, post, i, idx, r);
        r := r + [c];
        continue;
      }
      var starts := i == 0 || !IsAlnum(s[i-1]);
      StartsWhen(s, i);
      if starts {
        WordStep(s, spans, toks, pre, post, i, idx, r);
        r := AppendSpan(r, spans[idx], toks, pre, post);
      } else {
        StaysFitting(s, spans, toks, pre, post, i, idx, r);
      }
      ByteStep(s, spans, toks, pre, post, i, idx, r);
      if i + 1 == |s| || !IsAlnum(s[i+1]) {
        idx := idx + 1;
      }
    }
    AllWritten(s, spans, toks, pre, post, idx, r);
  }

  method HighlightString(s: string, spans: seq<string>, toks: set<string>, pre: string, post: string)
    returns (r: string)
    requires spans == Fields(s, IsAlnum)
    ensures r == Highlighted(s, toks, pre, post)
  {
    var anyHit := FindHit(spans, toks);
    AnyHitInSpans(s, spans, toks);
    if |toks| == 0 || |spans| == 0 || !anyHit {
      return "";
    }
    r := WriteFragment(s, spans, toks, pre, post);
    FoundHit(s, toks, pre, post);
  }

  method AppendSpan(r: string, sp: string, toks: set<string>, pre: string, post: string) returns (out: string)
    requires IsWord(sp)
    ensures out == r + Wrapped(sp, toks, pre, post)
  {
    var hit := Lower(sp) in toks;
    out := r;
    if hit {
      out := out + pre;
    }
    out := out + sp;
    if hit {
      out := out + post;
      Appended(r, pre, sp + post);
      Appended(r + pre, sp, post);
      assert pre + (sp + post) == pre + sp + post;
    }
  }

  lemma {:induction false} StartsWhen(s: string, i: nat)
    requires i < |s| && IsAlnum(s[i])
    ensures Inside(s, i) <==> !(i == 0 || !IsAlnum(s[i-1]))
  {
  }

  lemma {:induction false} StaysFitting(s: string, spans: seq<string>, toks: set<string>, pre: string, post: string,
                                        i: nat, idx: nat, r: string)
    requires i < |s| && Inside(s, i) && Progress(s, spans, toks, pre, post, i, idx, r)
    ensures Fits(s, spans, toks, pre, post, RunEnd(s, i), idx + 1, r)
  {
  }

  lemma {:induction false} AllWritten(s: string, spans: seq<string>, toks: set<string>, pre: string, post: string,
                                      idx: nat, r: string)
    requires Progress(s, spans, toks, pre, post, |s|, idx, r)
    ensures r == WrapAll(Pieces(s), toks, pre, post)
  {
    assert s[|s|..] == "" && r + "" == r;
    assert Pieces("") == [];
  }

  lemma {:induction false} Appended(a: string, b: string, c: string)
    ensures a + (b + c) == a + b + c
  {
  }

  lemma {:induction false} FoundHit(s: string, toks: set<string>, pre: string, post: string)
    ensures AnyHit(s, toks) ==> Highlighted(s, toks, pre, post) == WrapAll(Pieces(s), toks, pre, post)
  {
  }

  lemma {:induction false} AnyHitInSpans(s: string, spans: seq<string>, toks: set<string>)
    requires spans == Fields(s, IsAlnum)
    ensures AnyHit(s, toks) <==> exists k :: 0 <= k < |spans| && Lower(spans[k]) in toks
  {
    hide Pieces, Fields;
    if AnyHit(s, toks) {
      var p :| p in Pieces(s) && IsWord(p) && Lower(p) in toks;
      WordsArePieces(s);
      AmongPieces(Pieces(s), p);
      var k :| 0 <= k < |spans| && spans[k] == p;
      assert Lower(spans[k]) in toks;
    }
    if k :| 0 <= k < |spans| && Lower(spans[k]) in toks {
      WordsArePieces(s);
      AmongPieces(Pieces(s), spans[k]);
    }
  }
}
