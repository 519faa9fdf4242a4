/** Fence removal on the whole text: (?s)```tool_call\s*\n(.*?)\n``` replaced by nothing. */
module FenceRegex {
  import opened Bytes
  import opened FenceScan

  const NLCLOSE: Marker := [NL, TICK, TICK, TICK]

  // ---------- The regular expression, with its leftmost-first preference ----------

  predicate IsReSpace(b: byte) {
    b == 0x09 || b == 0x0A || b == 0x0C || b == 0x0D || b == 0x20
  }

  /** How far a greedy \s* reaches. */
  function SpaceRun(t: bytes): (n: nat)
    ensures n <= |t| && (n < |t| ==> !IsReSpace(t[n]))
    ensures forall i :: 0 <= i < n ==> IsReSpace(t[i])
  {
    if t == [] || !IsReSpace(t[0]) then 0 else 1 + SpaceRun(t[1..])
  }

  /** With \s* taking `k` bytes, the rest of the expression can match. */
  ghost predicate Exit(t: bytes, k: int) {
    0 <= k < |t| && t[k] == NL && Contains(t[k + 1..], NLCLOSE)
  }

  /** End of the match when \s* takes at most `k` bytes: longest \s* first, then shortest body. */
  ghost function BodyEnd(t: bytes, k: nat): (e: int)
    ensures e <= |t|
  {
    if Exit(t, k) then k + 1 + Index(t[k + 1..], NLCLOSE) + |NLCLOSE|
    else if k == 0 then -1
    else BodyEnd(t, k - 1)
  }

  /** End of the match that starts at offset 0, or -1. */
  ghost function MatchEnd(t: bytes): (e: int)
    ensures e <= |t| && (e >= 0 ==> OPEN <= t && e >= |OPEN|)
  {
    if OPEN <= t then
      var u := t[|OPEN|..];
      var e := BodyEnd(u, SpaceRun(u));
      BodyEndRange(u, SpaceRun(u));
      if e < 0 then -1 else |OPEN| + e
    else
      -1
  }

  lemma BodyEndRange(t: bytes, k: nat)
    ensures BodyEnd(t, k) == -1 || BodyEnd(t, k) > 0
  {
  }

  /** ReplaceAllString: the leftmost matches, left to right and not overlapping, are dropped. */
  ghost function Strip(t: bytes): (r: bytes)
    ensures |r| <= |t|
    decreases |t|
  {
    if t == [] then []
    else if MatchEnd(t) >= 0 then
      Strip(t[MatchEnd(t)..])
    else
      [t[0]] + Strip(t[1..])
  }

  /** The byte count of \s* that the match settles on is the largest one that works. */
  lemma {:induction false} BodyEndPicks(t: bytes, k: nat) returns (q: int)
    ensures if q < 0 then BodyEnd(t, k) < 0 else
            && q <= k && Exit(t, q) && BodyEnd(t, k) == q + 1 + Index(t[q + 1..], NLCLOSE) + |NLCLOSE|
    ensures forall p :: q < p <= k ==> !Exit(t, p)
  {
    if Exit(t, k) {
      q := k;
    } else if k == 0 {
      q := -1;
    } else {
      q := BodyEndPicks(t, k - 1);
    }
  }

  // ---------- Where matches can start ----------

  /** No proper suffix of the opener is a prefix of it, so openers cannot overlap. */
  lemma OpenersDoNotOverlap(p: bytes, u: bytes, i: int)
    requires At(p + OPEN + u, OPEN, i) && !Contains(p, OPEN)
    ensures i >= |p| && (i > |p| ==> i >= |p| + |OPEN|)
  {
    var s := p + OPEN + u;
    var d := if i < |p| then |p| - i else i - |p|;
    if i + |OPEN| <= |p| {
      assert s == p + (OPEN + u);
      AtWithin(p, OPEN + u, OPEN, i);
    } else if 0 < d < |OPEN| {
      var x := if d == 1 then 2 else if d == 2 then 1 else 0;
      AtByte(s, OPEN, i, if i < |p| then x + d else x);
    }
  }

  lemma {:induction false} StripSkip(p: bytes, t: bytes)
    requires forall i :: At(p + t, OPEN, i) ==> i >= |p|
    ensures Strip(p + t) == p + Strip(t)
    decreases |p|
  {
    hide Index, Contains, OPEN, BodyEnd, Exit;
    if p == [] {
      assert p + t == t;
    } else {
      var s := p + t;
      AtStart(s, OPEN);
      assert s[1..] == p[1..] + t;
      forall i | At(p[1..] + t, OPEN, i)
        ensures i >= |p| - 1
      {
        AtShift(p[..1], p[1..] + t, OPEN, i + 1);
        assert p[..1] + (p[1..] + t) == s;
      }
      StripSkip(p[1..], t);
      assert [p[0]] + (p[1..] + Strip(t)) == p + Strip(t);
    }
  }

  lemma StripWithoutOpener(t: bytes)
    requires !Contains(t, OPEN)
    ensures Strip(t) == t
  {
    assert t + [] == t;
    StripSkip(t, []);
  }

  // ---------- Texts as fences and plain segments ----------

  /** A closed fence, with the plain text that precedes it. */
  datatype Fence = Fence(plain: bytes, inner: bytes) {
    /** The segments are cut where the gate cuts them. */
    ghost predicate Cut() {
      !Contains(plain, OPEN) && Index(inner + CLOSE, CLOSE) == |inner|
    }
  }

  /** What follows the last closed fence: plain text, or plain text and an unclosed fence. */
  datatype Tail = Settled(plain: bytes) | Unclosed(plain: bytes, inner: bytes) {
    ghost predicate Cut() {
      !Contains(plain, OPEN) && (Unclosed? ==> !Contains(inner, CLOSE))
    }

    function Text(): bytes {
      if Settled? then plain else plain + OPEN + inner
    }
  }

  function Render(fs: seq<Fence>, tail: Tail): bytes {
    if fs == [] then tail.Text()
    else fs[0].plain + OPEN + (fs[0].inner + CLOSE + Render(fs[1..], tail))
  }

  function PlainText(fs: seq<Fence>): bytes {
    if fs == [] then [] else fs[0].plain + PlainText(fs[1..])
  }

  ghost predicate AllCut(fs: seq<Fence>) {
    forall f :: f in fs ==> f.Cut()
  }

  /** Every text has such a decomposition. */
  lemma {:induction false} Decompose(t: bytes) returns (fs: seq<Fence>, tail: Tail)
    ensures AllCut(fs) && tail.Cut() && Render(fs, tail) == t
    decreases |t|
  {
    hide OPEN, CLOSE, At, Index, Contains, Render, AllCut;
    NoFences();
    if !Contains(t, OPEN) {
      return [], Settled(t);
    }
    var i := Index(t, OPEN);
    LeftmostCuts(t, OPEN);
    PrefixWithout(t, OPEN);
    var u := t[i + |OPEN|..];
    if !Contains(u, CLOSE) {
      return [], Unclosed(t[..i], u);
    }
    var j := Index(u, CLOSE);
    LeftmostCuts(u, CLOSE);
    var f := Fence(t[..i], u[..j]);
    PrefixUpTo(u, CLOSE);
    var rest := u[j + |CLOSE|..];
    fs, tail := Decompose(rest);
    PrependFence(f, fs, tail);
    ConcatAssoc(f.inner, CLOSE, rest);
    fs := [f] + fs;
  }

  lemma NoFences()
    ensures AllCut([]) && forall tail: Tail :: Render([], tail) == tail.Text()
  {
  }

  lemma PrependFence(f: Fence, fs: seq<Fence>, tail: Tail)
    requires f.Cut() && AllCut(fs)
    ensures AllCut([f] + fs) && Render([f] + fs, tail) == f.plain + OPEN + (f.inner + CLOSE + Render(fs, tail))
  {
    hide OPEN, CLOSE, Fence.Cut;
    var all := [f] + fs;
    assert all[1..] == fs;
    forall g | g in all
      ensures g.Cut()
    {
      if g != f { assert g in fs; }
    }
  }

  /** Nothing before the leftmost occurrence contains the pattern. */
  lemma PrefixWithout(t: bytes, pat: Marker)
    requires Contains(t, pat)
    ensures !Contains(t[..Index(t, pat)], pat)
  {
    var i := Index(t, pat);
    if j :| At(t[..i], pat, j) {
      assert t == t[..i] + t[i..];
      AtWithin(t[..i], t[i..], pat, j);
    }
  }

  /** Up to the end of the leftmost occurrence, it stays the leftmost one. */
  lemma PrefixUpTo(t: bytes, pat: Marker)
    requires Contains(t, pat)
    ensures Index(t[..Index(t, pat)] + pat, pat) == Index(t, pat)
  {
    var i := Index(t, pat);
    var p, q := t[..i] + pat, t[i + |pat|..];
    assert t == p + q;
    assert At(p, pat, i);
    IndexAppend(p, q, pat);
  }

  // ---------- The gate on such a text ----------

  lemma IndexOfOpener(p: bytes, u: bytes)
    requires !Contains(p, OPEN)
    ensures Index(p + OPEN + u, OPEN) == |p|
  {
    assert (p + OPEN + u)[|p|..|p| + |OPEN|] == OPEN;
    forall i | At(p + OPEN + u, OPEN, i)
      ensures |p| <= i
    {
      OpenersDoNotOverlap(p, u, i);
    }
    IndexIs(p + OPEN + u, OPEN, |p|);
  }

  lemma ScanClose(inner: bytes, rest: bytes)
    requires Index(inner + CLOSE, CLOSE) == |inner|
    ensures Scan(inner + CLOSE + rest, true, OPEN, CLOSE) == Scan(rest, false, OPEN, CLOSE)
  {
    IndexAppend(inner + CLOSE, rest, CLOSE);
    SliceRight(inner + CLOSE, rest, 0);
  }

  lemma {:induction false} GateOnFences(fs: seq<Fence>, tail: Tail)
    requires AllCut(fs)
    ensures Scan(Render(fs, tail), false, OPEN, CLOSE)
         == Scan(tail.Text(), false, OPEN, CLOSE).After(PlainText(fs))
  {
    hide OPEN, CLOSE, Scan;
    if fs == [] {
      AfterNothing(Scan(tail.Text(), false, OPEN, CLOSE));
    } else {
      var f, rest := fs[0], Render(fs[1..], tail);
      assert f in fs && f.Cut();
      IndexOfOpener(f.plain, f.inner + CLOSE + rest);
      ScanOpen(f.plain, f.inner + CLOSE + rest, OPEN, CLOSE);
      ScanClose(f.inner, rest);
      GateOnFences(fs[1..], tail);
      AfterAfter(Scan(tail.Text(), false, OPEN, CLOSE), f.plain, PlainText(fs[1..]));
    }
  }

  /** The bytes of the text that the gate has taken in but neither sent nor dropped. */
  function Pending(g: GateState): bytes {
    if g.inFence then OPEN + g.held else g.held
  }

  lemma GateOnUnclosed(p: bytes, u: bytes, open: Marker, close: Marker)
    requires Index(p + open + u, open) == |p| && !Contains(u, close)
    ensures Scan(p + open + u, false, open, close) == GateState(p, u, true)
  {
    ScanOpen(p, u, open, close);
    assert p + [] == p;
  }

  lemma GateOnTail(tail: Tail)
    requires tail.Cut()
    ensures var g := Scan(tail.Text(), false, OPEN, CLOSE);
            g.inFence == tail.Unclosed? && g.sent + Pending(g) == tail.Text()
  {
    hide OPEN, CLOSE, Index, Contains, At, LongestPartialLen;
    if tail.Unclosed? {
      hide Scan;
      IndexOfOpener(tail.plain, tail.inner);
      GateOnUnclosed(tail.plain, tail.inner, OPEN, CLOSE);
      assert tail.plain + (OPEN + tail.inner) == tail.Text();
    }
  }

  // ---------- The regular expression on such a text ----------

  /** Exactly the fences that the expression matches from opener to closer: the closer is on its
      own line, a line break follows the opener and white space before that last one, and if
      nothing but white space is inside then no later line starts with three backticks. */
  ghost predicate OwnLines(inner: bytes, rest: bytes) {
    && inner != [] && inner[|inner| - 1] == NL
    && (exists q :: 0 <= q < |inner| - 1 && inner[q] == NL && Blank(inner[..q]))
    && (Blank(inner) ==> !Contains(rest, NLCLOSE))
  }

  /** Tabs, line feeds, form feeds, carriage returns and spaces only. */
  ghost predicate Blank(t: bytes) {
    forall i :: 0 <= i < |t| ==> t[i] in [0x09, 0x0A, 0x0C, 0x0D, 0x20]
  }

  lemma BlankRun(t: bytes, q: nat)
    requires q <= |t|
    ensures Blank(t[..q]) <==> q <= SpaceRun(t)
    ensures Blank(t) <==> SpaceRun(t) == |t|
  {
    hide SpaceRun;
    if SpaceRun(t) < q { assert t[..q][SpaceRun(t)] == t[SpaceRun(t)]; }
  }

  lemma {:induction false} SpaceRunAppend(a: bytes, b: bytes)
    requires b != [] && !IsReSpace(b[0])
    ensures SpaceRun(a + b) == SpaceRun(a)
  {
    if a == [] {
      assert a + b == b;
    } else {
      assert (a + b)[1..] == a[1..] + b;
      SpaceRunAppend(a[1..], b);
    }
  }

  /** Where a line that starts with three backticks can be, in `inner` + closer + `rest`. */
  lemma ClosingLines(inner: bytes, rest: bytes, k: int, j: int)
    requires Index(inner + CLOSE, CLOSE) == |inner|
    requires 0 <= k < |inner + CLOSE + rest|
    requires At((inner + CLOSE + rest)[k + 1..], NLCLOSE, j)
    ensures |inner| <= k + j + 2
  {
    var v := inner + CLOSE + rest;
    var w := v[k + 1..];
    assert w[j + 1..j + 4] == w[j..j + 4][1..] == CLOSE;
    assert v[k + j + 2..k + j + 2 + |CLOSE|] == w[j + 1..j + 1 + |CLOSE|];
    assert At(v, CLOSE, k + j + 2);
    IndexAppend(inner + CLOSE, rest, CLOSE);
  }

  /** A line break before the closer, seen from an earlier offset. */
  lemma OwnClosingLine(inner: bytes, rest: bytes, k: int)
    requires 0 <= k < |inner| - 1 && inner[|inner| - 1] == NL
    requires Index(inner + CLOSE, CLOSE) == |inner|
    ensures Index((inner + CLOSE + rest)[k + 1..], NLCLOSE) == |inner| - k - 2
  {
    var v := inner + CLOSE + rest;
    var w, j := v[k + 1..], |inner| - k - 2;
    assert w[j..j + |NLCLOSE|] == v[|inner| - 1..|inner| + 3] == NLCLOSE;
    assert At(w, NLCLOSE, j);
    forall i | At(w, NLCLOSE, i)
      ensures j <= i
    {
      ClosingLines(inner, rest, k, i);
    }
    IndexIs(w, NLCLOSE, j);
  }

  /** After a blank fence only later text can have a line that starts with three backticks. */
  lemma ClosingLineAfter(rest: bytes)
    ensures Contains(CLOSE + rest, NLCLOSE) <==> Contains(rest, NLCLOSE)
  {
    if i :| At(CLOSE + rest, NLCLOSE, i) {
      AtByte(CLOSE + rest, NLCLOSE, i, 0);
      AtShift(CLOSE, rest, NLCLOSE, i);
    }
    if i :| At(rest, NLCLOSE, i) {
      AtShift(CLOSE, rest, NLCLOSE, i + |CLOSE|);
    }
  }

  lemma AfterInner(inner: bytes, rest: bytes)
    ensures var v := inner + CLOSE + rest;
            && v[|inner|..] == CLOSE + rest && v[|inner|] == TICK
            && SpaceRun(v) == SpaceRun(inner) && v[..|inner|] == inner
  {
    assert inner + CLOSE + rest == inner + (CLOSE + rest);
    SpaceRunAppend(inner, CLOSE + rest);
  }

  /** A match never ends before the closer. */
  lemma MatchReachesCloser(inner: bytes, rest: bytes, k: nat)
    requires Index(inner + CLOSE, CLOSE) == |inner|
    ensures var e := BodyEnd(inner + CLOSE + rest, k);
            e >= 0 ==> e >= |inner| + |CLOSE|
  {
    hide OPEN, Contains, At;
    var v := inner + CLOSE + rest;
    var q := BodyEndPicks(v, k);
    if q >= 0 {
      LeftmostInside(v[q + 1..], NLCLOSE);
      ClosingLines(inner, rest, q, Index(v[q + 1..], NLCLOSE));
    }
  }

  lemma LeftmostInside(t: bytes, pat: Marker)
    requires Contains(t, pat)
    ensures At(t, pat, Index(t, pat)) && 0 <= Index(t, pat) && Index(t, pat) + |pat| <= |t|
    ensures t[Index(t, pat)] == pat[0]
  {
    AtByte(t, pat, Index(t, pat), 0);
  }

  lemma MatchIsExactOnlyOnOwnLines(inner: bytes, rest: bytes)
    requires Index(inner + CLOSE, CLOSE) == |inner|
    requires BodyEnd(inner + CLOSE + rest, SpaceRun(inner)) == |inner| + |CLOSE|
    ensures OwnLines(inner, rest)
  {
    hide OPEN, Contains, At;
    var v := inner + CLOSE + rest;
    AfterInner(inner, rest);
    var q := BodyEndPicks(v, SpaceRun(inner));
    var w := v[q + 1..];
    LeftmostInside(w, NLCLOSE);
    ClosingLines(inner, rest, q, Index(w, NLCLOSE));
    assert w[Index(w, NLCLOSE)] == v[|inner| - 1] == inner[|inner| - 1];
    assert inner[q] == v[q] == NL;
    BlankRun(inner, q);
    if SpaceRun(inner) == |inner| {
      assert !Exit(v, |inner| - 1);
      ClosingLineAfter(rest);
    }
  }

  lemma MatchIsExactOnOwnLines(inner: bytes, rest: bytes)
    requires Index(inner + CLOSE, CLOSE) == |inner|
    requires OwnLines(inner, rest)
    ensures BodyEnd(inner + CLOSE + rest, SpaceRun(inner)) == |inner| + |CLOSE|
  {
    hide OPEN, At;
    var v := inner + CLOSE + rest;
    AfterInner(inner, rest);
    var q := BodyEndPicks(v, SpaceRun(inner));
    var p :| 0 <= p < |inner| - 1 && inner[p] == NL && Blank(inner[..p]);
    BlankRun(inner, p);
    OwnClosingLine(inner, rest, p);
    assert v[p] == inner[p];
    assert Exit(v, p);
    assert q != |inner|;
    if q == |inner| - 1 {
      ClosingLineAfter(rest);
      assert false;
    }
    OwnClosingLine(inner, rest, q);
  }

  /** The expression matches a fence from its opener to its closer exactly when OwnLines holds,
      and it never matches less. */
  lemma FenceMatch(inner: bytes, rest: bytes)
    requires Index(inner + CLOSE, CLOSE) == |inner|
    ensures var e := MatchEnd(OPEN + (inner + CLOSE + rest));
            && (e == |OPEN| + |inner| + |CLOSE| <==> OwnLines(inner, rest))
            && (e >= 0 ==> e >= |OPEN| + |inner| + |CLOSE|)
  {
    hide BodyEnd, OwnLines;
    var v := inner + CLOSE + rest;
    AfterInner(inner, rest);
    assert (OPEN + v)[|OPEN|..] == v;
    MatchReachesCloser(inner, rest, SpaceRun(inner));
    if OwnLines(inner, rest) {
      MatchIsExactOnOwnLines(inner, rest);
    } else if BodyEnd(v, SpaceRun(inner)) == |inner| + |CLOSE| {
      MatchIsExactOnlyOnOwnLines(inner, rest);
    }
  }

  // ---------- Agreement ----------

  lemma StripFromOpener(p: bytes, u: bytes)
    requires !Contains(p, OPEN)
    ensures Strip(p + OPEN + u) == p + Strip(OPEN + u)
  {
    ConcatAssoc(p, OPEN, u);
    forall i | At(p + (OPEN + u), OPEN, i)
      ensures i >= |p|
    {
      OpenersDoNotOverlap(p, u, i);
    }
    StripSkip(p, OPEN + u);
  }

  lemma StripWithoutMatch(u: bytes)
    requires MatchEnd(OPEN + u) < 0
    ensures Strip(OPEN + u) == OPEN + Strip(u)
  {
    hide MatchEnd;
    var head, rest := OPEN[..1], OPEN[1..];
    assert OPEN + u == head + (rest + u) && (OPEN + u)[1..] == rest + u;
    forall i | At(rest + u, OPEN, i)
      ensures i >= |rest|
    {
      AtShift(head, rest + u, OPEN, i + 1);
      assert [] + OPEN + u == OPEN + u;
      NothingInNothing(OPEN);
      OpenersDoNotOverlap([], u, i + 1);
    }
    StripSkip(rest, u);
    assert head + (rest + Strip(u)) == OPEN + Strip(u);
  }

  lemma NothingInNothing(pat: Marker)
    ensures !Contains([], pat)
  {
  }

  /** A line that starts with a closer contains a closer, and so does an opener. */
  lemma CloserInLine(u: bytes, q: int, j: int)
    requires 0 <= q < |u| && At(u[q + 1..], NLCLOSE, j)
    ensures At(u, CLOSE, q + j + 2)
  {
    var w := u[q + 1..];
    assert u[q + j + 2..q + j + 2 + |CLOSE|] == w[j..j + |NLCLOSE|][1..] == CLOSE;
  }

  lemma CloserInOpener(u: bytes, i: int)
    requires At(u, OPEN, i)
    ensures At(u, CLOSE, i)
  {
    assert u[i..i + |CLOSE|] == u[i..i + |OPEN|][..|CLOSE|] == CLOSE;
  }

  lemma NoMatchWithoutCloser(u: bytes)
    requires !Contains(u, CLOSE)
    ensures MatchEnd(OPEN + u) < 0 && !Contains(u, OPEN)
  {
    hide OPEN, CLOSE;
    assert (OPEN + u)[|OPEN|..] == u;
    var q := BodyEndPicks(u, SpaceRun(u));
    if q >= 0 {
      CloserInLine(u, q, Index(u[q + 1..], NLCLOSE));
    }
    if i :| At(u, OPEN, i) {
      CloserInOpener(u, i);
    }
  }

  lemma StripOnTail(tail: Tail)
    requires tail.Cut()
    ensures Strip(tail.Text()) == tail.Text()
  {
    if tail.Settled? {
      StripWithoutOpener(tail.plain);
    } else {
      StripFromOpener(tail.plain, tail.inner);
      NoMatchWithoutCloser(tail.inner);
      StripWithoutMatch(tail.inner);
      StripWithoutOpener(tail.inner);
      ConcatAssoc(tail.plain, OPEN, tail.inner);
    }
  }

  lemma StripMatch(inner: bytes, rest: bytes)
    requires MatchEnd(OPEN + (inner + CLOSE + rest)) == |OPEN| + |inner| + |CLOSE|
    ensures Strip(OPEN + (inner + CLOSE + rest)) == Strip(rest)
  {
    var t := OPEN + (inner + CLOSE + rest);
    assert t[|OPEN| + |inner| + |CLOSE|..] == rest;
  }

  /** Every closed fence is cut where the gate cuts it and sits on its own lines. */
  ghost predicate WellFenced(fs: seq<Fence>, tail: Tail) {
    if fs == [] then tail.Cut()
    else fs[0].Cut() && OwnLines(fs[0].inner, Render(fs[1..], tail)) && WellFenced(fs[1..], tail)
  }

  lemma {:induction false} StripOnFences(fs: seq<Fence>, tail: Tail)
    requires WellFenced(fs, tail)
    ensures Strip(Render(fs, tail)) == PlainText(fs) + tail.Text()
  {
    hide OPEN, CLOSE, OwnLines, Strip, MatchEnd;
    if fs == [] {
      StripOnTail(tail);
      assert [] + tail.Text() == tail.Text();
    } else {
      var f, rest := fs[0], Render(fs[1..], tail);
      StripFromOpener(f.plain, f.inner + CLOSE + rest);
      FenceMatch(f.inner, rest);
      StripMatch(f.inner, rest);
      StripOnFences(fs[1..], tail);
      ConcatAssoc(f.plain, PlainText(fs[1..]), tail.Text());
    }
  }

  lemma {:induction false} WellFencedIsCut(fs: seq<Fence>, tail: Tail)
    requires WellFenced(fs, tail)
    ensures AllCut(fs) && tail.Cut()
  {
    hide OwnLines;
    if fs != [] {
      WellFencedIsCut(fs[1..], tail);
      forall f | f in fs
        ensures f.Cut()
      {
        assert f == fs[0] || f in fs[1..];
      }
    }
  }

  /** Whatever the whole-text removal leaves is what the gate has sent or still holds. */
  lemma GateAgreesWithRegex(fs: seq<Fence>, tail: Tail)
    requires WellFenced(fs, tail)
    ensures var t := Render(fs, tail);
            var g := Scan(t, false, OPEN, CLOSE);
            Strip(t) == g.sent + Pending(g)
  {
    hide OPEN, CLOSE, WellFenced, Scan, Strip;
    WellFencedIsCut(fs, tail);
    StripOnFences(fs, tail);
    GateOnFences(fs, tail);
    GateOnTail(tail);
    var g := Scan(tail.Text(), false, OPEN, CLOSE);
    ConcatAssoc(PlainText(fs), g.sent, Pending(g));
  }

  /** With one closed fence the side condition is exact, whatever plain text or unclosed fence
      follows it. */
  lemma OneFenceAgreesIff(f: Fence, tail: Tail)
    requires f.Cut() && tail.Cut()
    ensures var t := Render([f], tail);
            var g := Scan(t, false, OPEN, CLOSE);
            Strip(t) == g.sent + Pending(g) <==> OwnLines(f.inner, tail.Text())
  {
    hide OPEN, CLOSE, OwnLines, Scan, Strip, MatchEnd, Index, Contains;
    var fs, rest := [f], tail.Text();
    assert fs[1..] == [] && Render(fs, tail) == f.plain + OPEN + (f.inner + CLOSE + rest);
    assert PlainText(fs) == f.plain + [] == f.plain;
    GateOnFences(fs, tail);
    GateOnTail(tail);
    var g := Scan(rest, false, OPEN, CLOSE);
    ConcatAssoc(f.plain, g.sent, Pending(g));
    StripFromOpener(f.plain, f.inner + CLOSE + rest);
    FenceMatch(f.inner, rest);
    OneFence(f.inner, tail);
    var s := Strip(OPEN + (f.inner + CLOSE + rest));
    assert (f.plain + s)[|f.plain|..] == s && (f.plain + rest)[|f.plain|..] == rest;
  }

  lemma OneFence(inner: bytes, tail: Tail)
    requires tail.Cut() && Index(inner + CLOSE, CLOSE) == |inner|
    requires var e := MatchEnd(OPEN + (inner + CLOSE + tail.Text()));
             e >= 0 ==> e >= |OPEN| + |inner| + |CLOSE|
    ensures Strip(OPEN + (inner + CLOSE + tail.Text())) == tail.Text()
       <==> MatchEnd(OPEN + (inner + CLOSE + tail.Text())) == |OPEN| + |inner| + |CLOSE|
  {
    hide OPEN, CLOSE, MatchEnd, Index, Contains;
    var rest := tail.Text();
    var v := inner + CLOSE + rest;
    var e := MatchEnd(OPEN + v);
    if e < 0 {
      StripWithoutMatch(v);
      UnmatchedFence(inner, tail);
    } else if e == |OPEN| + |inner| + |CLOSE| {
      StripMatch(inner, rest);
      StripOnTail(tail);
    } else {
      StripLongMatch(OPEN + v, e);
    }
  }

  lemma StripLongMatch(t: bytes, e: int)
    requires MatchEnd(t) == e > 0
    ensures |Strip(t)| <= |t| - e
  {
    hide MatchEnd;
  }

  lemma NoOpenerInFence(inner: bytes)
    requires Index(inner + CLOSE, CLOSE) == |inner|
    ensures !Contains(inner + CLOSE, OPEN)
  {
    hide Index;
    OpenerAndCloser();
    if i :| At(inner + CLOSE, OPEN, i) {
      CloserInOpener(inner + CLOSE, i);
      NotBefore(inner + CLOSE, CLOSE, i);
    }
  }

  lemma OpenerAndCloser()
    ensures |OPEN| == 12 && |CLOSE| == 3
  {
  }

  lemma NotBefore(s: bytes, pat: bytes, i: int)
    requires At(s, pat, i)
    ensures 0 <= Index(s, pat) <= i
  {
  }

  /** A fence that stays in the text as it is makes the text differ from what follows the fence. */
  lemma UnmatchedFence(inner: bytes, tail: Tail)
    requires tail.Cut() && Index(inner + CLOSE, CLOSE) == |inner|
    ensures OPEN + Strip(inner + CLOSE + tail.Text()) != tail.Text()
  {
    hide Strip, MatchEnd, Index;
    var rest, v := tail.Text(), inner + CLOSE + tail.Text();
    if OPEN <= rest {
      AtStart(rest, OPEN);
      FirstIsTheOpener(tail);
      NoOpenerInFence(inner);
      StripFromOpener(inner + CLOSE, tail.inner);
      NoMatchWithoutCloser(tail.inner);
      StripWithoutMatch(tail.inner);
      StripWithoutOpener(tail.inner);
      assert inner + CLOSE + (OPEN + tail.inner) == inner + CLOSE + OPEN + tail.inner;
    } else {
      assert OPEN <= OPEN + Strip(v);
    }
  }

  /** A tail that starts with an opener is an unclosed fence with nothing before it. */
  lemma FirstIsTheOpener(tail: Tail)
    requires tail.Cut() && OPEN <= tail.Text()
    ensures tail.Unclosed? && tail.Text() == OPEN + tail.inner
  {
    hide OPEN, CLOSE;
    AtStart(tail.Text(), OPEN);
    if tail.Unclosed? {
      OpenersDoNotOverlap(tail.plain, tail.inner, 0);
      assert [] + OPEN + tail.inner == OPEN + tail.inner;
    }
  }

  /** Where the only line break is, there is the only line that can start with three back-ticks. */
  lemma OnlyLine(x: bytes)
    requires NL !in x
    ensures Index(x + NLCLOSE, NLCLOSE) == |x|
  {
    var s := x + NLCLOSE;
    assert s[|x|..|x| + |NLCLOSE|] == NLCLOSE;
    assert forall i :: 0 <= i < |x| ==> s[i] == x[i] && x[i] in x;
    forall j | At(s, NLCLOSE, j)
      ensures |x| <= j
    {
      AtByte(s, NLCLOSE, j, 0);
    }
    IndexIs(s, NLCLOSE, |x|);
  }

  /** A blank fence that ends in a line break runs on to the next line with three back-ticks. */
  lemma BlankRunsOn(inner: bytes, x: bytes)
    requires inner != [] && SpaceRun(inner) == |inner| && inner[|inner| - 1] == NL
    requires x != [] && !IsReSpace(x[0]) && NL !in x
    ensures Strip(OPEN + (inner + x + NLCLOSE)) == []
  {
    hide OPEN, At, Index, Contains, SpaceRun;
    var v, w, n := inner + x + NLCLOSE, x + NLCLOSE, |inner|;
    assert v == inner + w && w[0] == x[0];
    SpaceRunAppend(inner, w);
    OnlyLine(x);
    assert Contains(w, NLCLOSE) by { AtEnd(x, NLCLOSE); }
    assert v[n] == x[0] && v[n - 1] == NL && v[n..] == w;
    assert (OPEN + v)[|OPEN|..] == v;
    var q := BodyEndPicks(v, n);
    assert !Exit(v, n) && Exit(v, n - 1);
    assert BodyEnd(v, n) == |v|;
    StripAll(OPEN + v);
  }

  lemma AtEnd(x: bytes, pat: bytes)
    ensures At(x + pat, pat, |x|) && Contains(x + pat, pat)
  {
    var s := x + pat;
    assert s[|x|..|x| + |pat|] == pat;
    assert At(s, pat, |x|);
  }

  lemma StripAll(t: bytes)
    requires MatchEnd(t) == |t| > 0
    ensures Strip(t) == []
  {
    hide MatchEnd;
    assert t[|t|..] == [];
  }

  /** Two fences that nobody cuts alike: the expression takes both, with what is between them, for
      one, and with nothing around them both sides leave nothing. */
  lemma TwoFencesAgreeByAccident()
    ensures var f, tail := Fence([], [NL]), Settled([]);
            var t := Render([f, f], tail);
            var g := Scan(t, false, OPEN, CLOSE);
            && Strip(t) == g.sent + Pending(g)
            && !OwnLines(f.inner, Render([f], tail)) && !OwnLines(f.inner, tail.Text())
  {
    hide OPEN, CLOSE, NLCLOSE, Scan, Strip, Index, Contains, At, Render, PlainText, Pending, SpaceRun;
    var f, tail := Fence([], [NL]), Settled([]);
    TooShort([], OPEN);
    FirstCloser(f.inner);
    GateOnFences([f, f], tail);
    GateOnTail(tail);
    NoPlainText(f);
    AfterNothing(Scan([], false, OPEN, CLOSE));
    assert Scan(Render([f, f], tail), false, OPEN, CLOSE) == Scan([], false, OPEN, CLOSE);
    TwoFencesText(f);
    MarkerBytes();
    OneLineBreak();
    BlankRunsOn(f.inner, CLOSE + OPEN);
    assert Strip(Render([f, f], tail)) == [];
    assert !OwnLines(f.inner, Render([f], tail));
    assert !OwnLines(f.inner, tail.Text());
  }

  lemma OneLineBreak()
    ensures SpaceRun([NL]) == 1
  {
    assert [NL][1..] == [];
  }

  lemma NoPlainText(f: Fence)
    requires f.plain == []
    ensures PlainText([f, f]) == []
  {
    assert [f, f][1..] == [f] && [f][1..] == [];
    assert PlainText([]) == [] && PlainText([f]) == [];
  }

  lemma TwoFencesText(f: Fence)
    requires f == Fence([], [NL])
    ensures Render([f, f], Settled([])) == OPEN + (f.inner + (CLOSE + OPEN) + NLCLOSE)
  {
    hide OPEN, CLOSE, NLCLOSE;
    MarkerBytes();
    var tail := Settled([]);
    assert [f, f][1..] == [f] && [f][1..] == [];
    assert Render([f], tail) == OPEN + NLCLOSE by {
      assert [] + OPEN == OPEN && [NL] + CLOSE + [] == [NL] + CLOSE;
    }
    assert [] + OPEN + ([NL] + CLOSE + (OPEN + NLCLOSE)) == OPEN + ([NL] + (CLOSE + OPEN) + NLCLOSE);
  }

  lemma MarkerBytes()
    ensures CLOSE[0] == TICK && NL !in CLOSE && NL !in OPEN && [NL] + CLOSE == NLCLOSE
  {
  }

  lemma TooShort(t: bytes, pat: Marker)
    requires |t| < |pat|
    ensures !Contains(t, pat)
  {
  }

  /** A fence with nothing but line breaks in it, before a line that starts with three backticks:
      the expression runs on to that line, the gate does not. */
  lemma BlankFenceDisagrees()
    ensures var t := Render([Fence([], [NL, NL])], Settled([0x78, NL, TICK, TICK, TICK]));
            var g := Scan(t, false, OPEN, CLOSE);
            Strip(t) != g.sent + Pending(g)
  {
    hide Scan, Strip, Render;
    var f, plain := Fence([], [NL, NL]), [0x78, NL, TICK, TICK, TICK];
    TooShort([], OPEN);
    TooShort(plain, OPEN);
    FirstCloser([NL, NL]);
    assert At(plain, NLCLOSE, 1);
    assert SpaceRun([NL, NL]) == 2;
    OneFenceAgreesIff(f, Settled(plain));
  }

  lemma FirstCloser(inner: bytes)
    requires TICK !in inner
    ensures Index(inner + CLOSE, CLOSE) == |inner|
  {
    var s := inner + CLOSE;
    assert At(s, CLOSE, |inner|);
    assert forall i :: 0 <= i < |inner| ==> s[i] == inner[i] && inner[i] in inner;
    forall j | At(s, CLOSE, j)
      ensures |inner| <= j
    {
      AtByte(s, CLOSE, j, 0);
    }
    IndexIs(s, CLOSE, |inner|);
  }
}
