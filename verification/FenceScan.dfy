/** What the tool-call fence gate lets through, as a function of the whole text. */
module FenceScan {
  import opened Bytes

  type Marker = s: bytes | s != [] witness [TICK]

  // ```tool_call
  const OPEN: Marker := [TICK, TICK, TICK, 0x74, 0x6F, 0x6F, 0x6C, 0x5F, 0x63, 0x61, 0x6C, 0x6C]
  const CLOSE: Marker := [TICK, TICK, TICK]

  // ---------- Partial openers ----------

  /** The last `k` bytes of `s` are a proper prefix of `marker`. */
  ghost predicate Partial(s: bytes, marker: Marker, k: int) {
    0 <= k <= |s| && k < |marker| && s[|s| - k..] == marker[..k]
  }

  /** `k` is the length of the longest suffix of `s` that is a proper prefix of `marker`. */
  ghost predicate LongestPartial(s: bytes, marker: Marker, k: int) {
    Partial(s, marker, k) && forall j :: Partial(s, marker, j) ==> j <= k
  }

  function PartialFrom(s: bytes, marker: Marker, k: nat): (r: nat)
    requires k <= |s| && k < |marker|
    ensures r <= k && Partial(s, marker, r)
    ensures forall j :: Partial(s, marker, j) && j <= k ==> j <= r
  {
    if k == 0 || s[|s| - k..] <= marker then k else PartialFrom(s, marker, k - 1)
  }

  function LongestPartialLen(s: bytes, marker: Marker): (k: nat)
    ensures LongestPartial(s, marker, k)
  {
    PartialFrom(s, marker, if |s| < |marker| - 1 then |s| else |marker| - 1)
  }

  lemma LongestPartialIs(s: bytes, marker: Marker, k: int)
    requires LongestPartial(s, marker, k)
    ensures LongestPartialLen(s, marker) == k
  {
  }

  method PartialPrefixLen(s: bytes, marker: Marker) returns (keep: nat)
    ensures LongestPartial(s, marker, keep) && keep <= |s|
    ensures keep == LongestPartialLen(s, marker)
  {
    var max := |marker| - 1;
    if |s| < max {
      max := |s|;
    }
    var k := max;
    while k > 0
      invariant 0 <= k <= max
      invariant forall j :: Partial(s, marker, j) ==> j <= k
    {
      if s[|s| - k..] <= marker {
        LongestPartialIs(s, marker, k);
        return k;
      }
      k := k - 1;
    }
    LongestPartialIs(s, marker, 0);
    return 0;
  }

  // ---------- One-shot meaning ----------

  datatype GateState = GateState(sent: bytes, held: bytes, inFence: bool) {
    function After(prefix: bytes): GateState {
      this.(sent := prefix + sent)
    }
  }

  /** What the gate does with a whole text: leftmost opener, then first closer, and so on. */
  ghost function Scan(t: bytes, inFence: bool, open: Marker, close: Marker): GateState
    decreases |t|
  {
    if inFence then
      var j := Index(t, close);
      if j < 0 then GateState([], t, true) else Scan(t[j + |close|..], false, open, close)
    else
      var i := Index(t, open);
      if i < 0 then Settle(t, open)
      else Scan(t[i + |open|..], true, open, close).After(t[..i])
  }

  /** Text without an opener: all of it passes except a tail that may begin one. */
  ghost function Settle(t: bytes, open: Marker): GateState {
    var cut := |t| - LongestPartialLen(t, open);
    GateState(t[..cut], t[cut..], false)
  }

  lemma AfterAfter(r: GateState, p: bytes, q: bytes)
    ensures r.After(q).After(p) == r.After(p + q)
  {
    assert p + (q + r.sent) == (p + q) + r.sent;
  }

  lemma AfterNothing(r: GateState)
    ensures r.After([]) == r
  {
    assert [] + r.sent == r.sent;
  }

  ghost predicate Suffix(u: bytes, t: bytes) {
    |u| <= |t| && t[|t| - |u|..] == u
  }

  lemma SuffixOfSuffix(t: bytes, u: bytes, v: bytes)
    requires Suffix(u, t) && Suffix(v, u)
    ensures Suffix(v, t)
  {
    assert t[|t| - |v|..] == u[|u| - |v|..];
  }

  /** `tail` is the text the gate has not decided on: inside a fence it has no closer and is all
      held; outside one it has no opener, and its longest partial opener is held. */
  ghost predicate Undecided(r: GateState, tail: bytes, open: Marker, close: Marker) {
    if r.inFence then
      r.held == tail && !Contains(tail, close)
    else
      !Contains(tail, open) && LongestPartial(tail, open, |r.held|) && Suffix(r.held, tail)
  }

  ghost predicate SinceMarker(tail: bytes, inFence: bool, t: bytes, open: Marker, close: Marker) {
    Suffix((if inFence then open else close) + tail, t)
  }

  lemma AfterMarker(t: bytes, marker: Marker, i: int)
    requires At(t, marker, i)
    ensures Suffix(t[i + |marker|..], t) && Suffix(marker + t[i + |marker|..], t)
  {
    assert t[i..] == marker + t[i + |marker|..];
  }

  lemma SinceMarkerStep(t: bytes, i: int, tail: bytes, inFence: bool, marker: Marker, open: Marker, close: Marker)
    requires At(t, marker, i)
    requires var u := t[i + |marker|..];
             || (tail == u && marker == (if inFence then open else close))
             || SinceMarker(tail, inFence, u, open, close)
    ensures SinceMarker(tail, inFence, t, open, close)
  {
    AfterMarker(t, marker, i);
    if !(tail == t[i + |marker|..] && marker == (if inFence then open else close)) {
      SuffixOfSuffix(t, t[i + |marker|..], (if inFence then open else close) + tail);
    }
  }

  lemma SettleUndecided(t: bytes, open: Marker, close: Marker)
    requires !Contains(t, open)
    ensures Undecided(Settle(t, open), t, open, close)
  {
  }

  /** The undecided text is all that follows the last marker the gate has acted on. */
  lemma {:induction false} HeldIsExact(t: bytes, inFence: bool, open: Marker, close: Marker)
    returns (tail: bytes)
    ensures var r := Scan(t, inFence, open, close);
            && Undecided(r, tail, open, close)
            && ((tail == t && r.inFence == inFence) || SinceMarker(tail, r.inFence, t, open, close))
    decreases |t|
  {
    hide Scan, Undecided, SinceMarker, Contains;
    var marker := if inFence then close else open;
    if !Contains(t, marker) {
      tail := t;
      NoMarkerIsUndecided(t, inFence, open, close);
    } else {
      var i := Index(t, marker);
      OneTurn(t, inFence, open, close);
      tail := HeldIsExact(t[i + |marker|..], !inFence, open, close);
      var r := Scan(t, inFence, open, close);
      UndecidedAfter(Scan(t[i + |marker|..], !inFence, open, close), if inFence then [] else t[..i], tail, open, close);
      SinceMarkerStep(t, i, tail, r.inFence, marker, open, close);
    }
  }

  lemma NoMarkerIsUndecided(t: bytes, inFence: bool, open: Marker, close: Marker)
    requires !Contains(t, if inFence then close else open)
    ensures Undecided(Scan(t, inFence, open, close), t, open, close) && Scan(t, inFence, open, close).inFence == inFence
  {
    if !inFence { SettleUndecided(t, open, close); }
  }

  /** What follows the first marker is scanned on, in the other state. */
  lemma OneTurn(t: bytes, inFence: bool, open: Marker, close: Marker)
    requires Contains(t, if inFence then close else open)
    ensures var marker := if inFence then close else open;
            var i := Index(t, marker);
            && 0 <= i <= |t| - |marker|
            && Scan(t, inFence, open, close)
            == Scan(t[i + |marker|..], !inFence, open, close).After(if inFence then [] else t[..i])
  {
    hide Settle;
    var marker := if inFence then close else open;
    LeftmostCuts(t, marker);
    if inFence { AfterNothing(Scan(t[Index(t, marker) + |marker|..], false, open, close)); }
  }

  lemma UndecidedAfter(r: GateState, p: bytes, tail: bytes, open: Marker, close: Marker)
    ensures Undecided(r.After(p), tail, open, close) <==> Undecided(r, tail, open, close)
  {
    hide Contains, LongestPartial, Suffix;
  }

  // ---------- Appending ----------

  /** Once a text has no opener, none can start before its longest partial opener. */
  lemma NoStraddle(a: bytes, b: bytes, open: Marker, i: int)
    requires !Contains(a, open) && At(a + b, open, i)
    ensures |a| - LongestPartialLen(a, open) <= i
  {
    if i + |open| <= |a| {
      AtWithin(a, b, open, i);
    } else if i < |a| {
      var n := |a| - i;
      assert a[i..] == (a + b)[i..i + |open|][..n];
      assert Partial(a, open, n);
    }
  }

  /** A partial opener at the end of `a + b` starts no earlier than that of `a`. */
  lemma PartialStraddle(a: bytes, b: bytes, open: Marker, m: int)
    requires Partial(a + b, open, m)
    ensures m <= |b| + LongestPartialLen(a, open)
  {
    var n := m - |b|;
    if n > 0 {
      assert a[|a| - n..] == (a + b)[|a + b| - m..][..n];
      assert Partial(a, open, n);
    }
  }

  lemma PartialOfSuffix(p: bytes, h: bytes, open: Marker, m: int)
    requires m <= |h|
    ensures Partial(p + h, open, m) <==> Partial(h, open, m)
  {
    if 0 <= m {
      assert (p + h)[|p + h| - m..] == h[|h| - m..];
    }
  }

  lemma PartialAppend(p: bytes, q: bytes, b: bytes, open: Marker)
    requires |q| == LongestPartialLen(p + q, open)
    ensures LongestPartialLen(p + q + b, open) == LongestPartialLen(q + b, open)
  {
    hide Partial, LongestPartialLen;
    var t, h := p + q + b, q + b;
    assert t == p + h by { ConcatAssoc(p, q, b); }
    var k := LongestPartialLen(h, open);
    PartialInRange(h, open, k);
    PartialOfSuffix(p, h, open, k);
    forall m | Partial(t, open, m)
      ensures m <= k
    {
      PartialStraddle(p + q, b, open, m);
      PartialOfSuffix(p, h, open, m);
    }
    LongestPartialIs(t, open, k);
  }

  lemma PartialInRange(t: bytes, open: Marker, k: int)
    requires Partial(t, open, k)
    ensures 0 <= k <= |t|
  {
  }

  /** Dropping a settled prefix `p` from the front shifts the leftmost opener by |p|. */
  lemma IndexAppendPlain(p: bytes, q: bytes, b: bytes, open: Marker)
    requires !Contains(p + q, open) && |q| == LongestPartialLen(p + q, open)
    ensures var i := Index(q + b, open);
            Index(p + q + b, open) == if i < 0 then -1 else |p| + i
  {
    hide At, Contains, LongestPartialLen;
    ConcatAssoc(p, q, b);
    forall i | At(p + (q + b), open, i)
      ensures i >= |p|
    {
      NoStraddle(p + q, b, open, i);
    }
    IndexShift(p, q + b, open);
  }

  lemma AtInRange(s: bytes, pat: bytes, i: int)
    requires At(s, pat, i)
    ensures 0 <= i <= |s| - |pat|
  {
  }

  /** When nothing starts in `p`, the leftmost occurrence shifts by |p|. */
  lemma IndexShift(p: bytes, h: bytes, pat: Marker)
    requires forall i :: At(p + h, pat, i) ==> i >= |p|
    ensures Index(p + h, pat) == if Index(h, pat) < 0 then -1 else |p| + Index(h, pat)
  {
    hide At;
    forall i | i >= |p|
      ensures At(p + h, pat, i) <==> At(h, pat, i - |p|)
    {
      AtShift(p, h, pat, i);
    }
    var j := Index(h, pat);
    if Contains(h, pat) {
      AtInRange(h, pat, j);
      AtShift(p, h, pat, |p| + j);
      forall i | At(p + h, pat, i)
        ensures |p| + j <= i
      {
        assert At(h, pat, i - |p|);
      }
      IndexIs(p + h, pat, |p| + j);
    } else {
      forall i
        ensures !At(p + h, pat, i)
      {
        if i >= |p| { assert !At(h, pat, i - |p|); }
      }
    }
  }

  lemma ScanAppendPlain(p: bytes, q: bytes, b: bytes, open: Marker, close: Marker)
    requires !Contains(p + q, open) && |q| == LongestPartialLen(p + q, open)
    ensures Scan(p + q + b, false, open, close) == Scan(q + b, false, open, close).After(p)
  {
    hide Index, Contains, LongestPartialLen, Settle, Scan;
    ConcatAssoc(p, q, b);
    IndexAppendPlain(p, q, b, open);
    var h := q + b;
    if Index(h, open) < 0 {
      PartialAppend(p, q, b, open);
      SettleRight(p, h, open);
      ScanPlain(h, open, close);
      ScanPlain(p + h, open, close);
    } else {
      IndexInRange(h, open);
      ScanPrefixed(p, h, open, close);
    }
  }

  lemma IndexInRange(t: bytes, pat: Marker)
    requires Index(t, pat) >= 0
    ensures Index(t, pat) + |pat| <= |t|
  {
  }

  lemma ScanPlain(t: bytes, open: Marker, close: Marker)
    requires Index(t, open) < 0
    ensures Scan(t, false, open, close) == Settle(t, open)
  {
    hide Index, Settle;
  }

  lemma ScanPrefixed(p: bytes, h: bytes, open: Marker, close: Marker)
    requires 0 <= Index(h, open) <= |h| - |open| && Index(p + h, open) == |p| + Index(h, open)
    ensures Scan(p + h, false, open, close) == Scan(h, false, open, close).After(p)
  {
    hide Index, Settle;
    var i := Index(h, open);
    SliceRight(p, h, i);
    SliceRight(p, h, i + |open|);
    AfterAfter(Scan(h[i + |open|..], true, open, close), p, h[..i]);
    assert Scan(h, false, open, close) == Scan(h[i + |open|..], true, open, close).After(h[..i]);
  }

  lemma SettleRight(p: bytes, h: bytes, open: Marker)
    requires LongestPartialLen(p + h, open) == LongestPartialLen(h, open)
    ensures Settle(p + h, open) == Settle(h, open).After(p)
  {
    hide LongestPartialLen;
    SliceRight(p, h, |h| - LongestPartialLen(h, open));
  }

  /** `a` followed by `b` scans like what is held of `a` followed by `b`. */
  ghost predicate Resumes(a: bytes, b: bytes, inFence: bool, open: Marker, close: Marker) {
    var r := Scan(a, inFence, open, close);
    Scan(a + b, inFence, open, close) == Scan(r.held + b, r.inFence, open, close).After(r.sent)
  }

  lemma LeftmostCuts(t: bytes, pat: Marker)
    requires Contains(t, pat)
    ensures 0 <= Index(t, pat) <= |t| - |pat|
    ensures t == t[..Index(t, pat)] + pat + t[Index(t, pat) + |pat|..]
    ensures forall b: bytes :: Contains(t + b, pat)
  {
    var i := Index(t, pat);
    forall b: bytes
      ensures Contains(t + b, pat)
    {
      AtWithin(t, b, pat, i);
      assert At(t + b, pat, i);
    }
  }

  lemma ResumesAfterClose(a: bytes, b: bytes, open: Marker, close: Marker)
    requires Contains(a, close)
    requires Resumes(a[Index(a, close) + |close|..], b, false, open, close)
    ensures Resumes(a, b, true, open, close)
  {
    hide Index, Contains, Settle, LongestPartialLen;
    LeftmostCuts(a, close);
    IndexAppend(a, b, close);
    var j := Index(a, close) + |close|;
    SliceLeft(a, b, j);
    assert Scan(a, true, open, close) == Scan(a[j..], false, open, close);
    assert Scan(a + b, true, open, close) == Scan(a[j..] + b, false, open, close);
  }

  lemma ScanOpen(x: bytes, u: bytes, open: Marker, close: Marker)
    requires Index(x + open + u, open) == |x|
    ensures Scan(x + open + u, false, open, close) == Scan(u, true, open, close).After(x)
  {
    SliceRight(x + open, u, 0);
    SliceLeft(x + open, u, |x|);
    SliceRight(x, open, 0);
  }

  lemma ResumesAfterOpen(x: bytes, u: bytes, b: bytes, open: Marker, close: Marker)
    requires Index(x + open + u, open) == |x|
    requires Resumes(u, b, true, open, close)
    ensures Resumes(x + open + u, b, false, open, close)
  {
    IndexAppend(x + open + u, b, open);
    ConcatAssoc(x + open, u, b);
    ScanOpen(x, u, open, close);
    ScanOpen(x, u + b, open, close);
    var r := Scan(u, true, open, close);
    AfterAfter(Scan(r.held + b, r.inFence, open, close), x, r.sent);
  }

  lemma ResumesAtEnd(a: bytes, b: bytes, inFence: bool, open: Marker, close: Marker)
    requires !Contains(a, if inFence then close else open)
    ensures Resumes(a, b, inFence, open, close)
  {
    if inFence {
      AfterNothing(Scan(a + b, true, open, close));
    } else {
      var r := Settle(a, open);
      assert a == r.sent + r.held;
      ScanAppendPlain(r.sent, r.held, b, open, close);
    }
  }

  /** Scanning `a + b` is scanning `a` and then going on from what was held, with `b` added. */
  lemma {:induction false} ScanAppend(a: bytes, b: bytes, inFence: bool, open: Marker, close: Marker)
    ensures Resumes(a, b, inFence, open, close)
    decreases |a|
  {
    hide Resumes, At;
    var marker := if inFence then close else open;
    var i := Index(a, marker);
    if Contains(a, marker) {
      LeftmostCuts(a, marker);
      ScanAppend(a[i + |marker|..], b, !inFence, open, close);
      if inFence {
        ResumesAfterClose(a, b, open, close);
      } else {
        ResumesAfterOpen(a[..i], a[i + |open|..], b, open, close);
      }
    } else {
      ResumesAtEnd(a, b, inFence, open, close);
    }
  }

  // ---------- One turn of the gate's loop ----------

  lemma HoldStep(sent: bytes, buf: bytes, open: Marker, close: Marker)
    requires !Contains(buf, close)
    ensures Scan(buf, true, open, close).After(sent) == GateState(sent, buf, true)
  {
  }

  lemma CloseStep(sent: bytes, buf: bytes, open: Marker, close: Marker)
    requires Contains(buf, close)
    ensures Scan(buf, true, open, close).After(sent)
         == Scan(buf[Index(buf, close) + |close|..], false, open, close).After(sent)
  {
  }

  lemma OpenStep(sent: bytes, buf: bytes, open: Marker, close: Marker, i: int)
    requires Contains(buf, open) && i == Index(buf, open)
    ensures Scan(buf, false, open, close).After(sent)
         == Scan(buf[i + |open|..], true, open, close).After(sent + buf[..i])
  {
    hide Contains, Settle, LongestPartialLen;
    AfterAfter(Scan(buf[i + |open|..], true, open, close), sent, buf[..i]);
  }

  lemma SettleStep(sent: bytes, buf: bytes, open: Marker, close: Marker, keep: int)
    requires !Contains(buf, open) && keep == LongestPartialLen(buf, open)
    ensures Scan(buf, false, open, close).After(sent)
         == GateState(sent + buf[..|buf| - keep], buf[|buf| - keep..], false)
  {
  }
}
