/** The tool-call fence gate: it forwards only bytes that certainly lie outside a fence. */
module FenceGate {
  import opened Bytes
  import opened FenceScan
  import Utf8

  /** The meaning of a whole text, with the markers the service uses. */
  ghost function Gate(t: bytes): GateState {
    Scan(t, false, OPEN, CLOSE)
  }

  lemma MarkersAreAscii()
    ensures Utf8.Ascii(OPEN) && Utf8.Ascii(CLOSE)
  {
  }

  /** Cutting around an ASCII marker leaves both sides well formed. */
  lemma DropMarker(s: bytes, i: int, marker: Marker)
    requires Utf8.WellFormed(s) && At(s, marker, i)
    requires Utf8.Ascii(marker)
    ensures Utf8.WellFormed(s[..i]) && Utf8.WellFormed(s[i + |marker|..])
  {
    AtByte(s, marker, i, 0);
    Utf8.CutWellFormed(s, i);
    Utf8.AsciiWellFormed(marker);
    assert s[i..] == marker + s[i + |marker|..];
    Utf8.RestWellFormed(marker, s[i + |marker|..]);
  }

  /** Cutting off a partial ASCII marker at the end leaves both sides well formed. */
  lemma CutPartial(s: bytes, marker: Marker, k: int)
    requires Utf8.WellFormed(s) && Partial(s, marker, k)
    requires Utf8.Ascii(marker)
    ensures Utf8.WellFormed(s[..|s| - k]) && Utf8.WellFormed(s[|s| - k..])
  {
    assert k > 0 ==> s[|s| - k] == s[|s| - k..][0] == marker[0];
    Utf8.CutWellFormed(s, |s| - k);
  }

  class ToolFenceGate {
    var buf: bytes
    var sent: bytes
    var inFence: bool
    var emitted: seq<bytes>  // the arguments of the emit callback, in call order
    ghost var input: bytes   // everything pushed so far

    ghost predicate Valid()
      reads this
    {
      && GateState(sent, buf, inFence) == Gate(input)
      && Join(emitted) == sent
      && [] !in emitted
    }

    /** No character has been cut in two so far. */
    ghost predicate OnCharacterBoundaries()
      reads this
    {
      Utf8.WellFormed(buf) && forall c :: c in emitted ==> Utf8.WellFormed(c)
    }

    constructor ()
      ensures Valid() && OnCharacterBoundaries()
      ensures input == [] && emitted == []
    {
      buf, sent, inFence, emitted, input := [], [], false, [], [];
      new;
      EmptyText();
    }

    method Send(s: bytes)
      modifies this`sent, this`emitted
      ensures sent == old(sent) + s
      ensures emitted == if s == [] then old(emitted) else old(emitted) + [s]
      ensures old(Join(emitted) == sent) ==> Join(emitted) == sent
    {
      if s == [] {
        return;
      }
      JoinSnoc(emitted, s);
      sent := sent + s;
      emitted := emitted + [s];
    }

    method Push(delta: bytes)
      requires Valid()
      modifies this
      ensures Valid() && input == old(input) + delta
      ensures old(sent) <= sent && old(emitted) <= emitted
      ensures old(OnCharacterBoundaries()) && Utf8.WellFormed(delta) ==> OnCharacterBoundaries()
    {
      hide Scan, Utf8.WellFormed, OPEN;
      if OnCharacterBoundaries() && Utf8.WellFormed(delta) {
        Utf8.ConcatWellFormed(buf, delta);
      }
      ScanAppend(input, delta, false, OPEN, CLOSE);
      input := input + delta;
      buf := buf + delta;
      MarkersAreAscii();
      Drain(OPEN, CLOSE);
    }

    /** Sends the first `i` bytes of the buffer and goes on after the first `n`. */
    method Release(i: nat, n: nat, inside: bool)
      requires i <= n <= |buf| && Join(emitted) == sent && [] !in emitted
      modifies this`buf, this`sent, this`inFence, this`emitted
      ensures buf == old(buf)[n..] && sent == old(sent) + old(buf)[..i] && inFence == inside
      ensures Join(emitted) == sent && [] !in emitted && old(emitted) <= emitted
      ensures old(OnCharacterBoundaries() && Utf8.WellFormed(buf[..i]) && Utf8.WellFormed(buf[n..]))
        ==> OnCharacterBoundaries()
    {
      hide Join, Utf8.WellFormed;
      Send(buf[..i]);
      buf := buf[n..];
      inFence := inside;
    }

    /** The loop of Push: settles as much of the buffer as can be settled. */
    method Drain(open: Marker, close: Marker)
      requires Utf8.Ascii(open) && Utf8.Ascii(close)
      requires Join(emitted) == sent && [] !in emitted
      modifies this`buf, this`sent, this`inFence, this`emitted
      ensures GateState(sent, buf, inFence) == old(Scan(buf, inFence, open, close).After(sent))
      ensures Join(emitted) == sent && [] !in emitted
      ensures old(emitted) <= emitted
      ensures old(OnCharacterBoundaries()) ==> OnCharacterBoundaries()
    {
      hide Scan, GateState.After, LongestPartialLen, At, Contains, Join, Utf8.WellFormed, Partial, LongestPartial;
      ghost var goal, start, clear := Scan(buf, inFence, open, close).After(sent), emitted, OnCharacterBoundaries();
      while true
        invariant Scan(buf, inFence, open, close).After(sent) == goal
        invariant Join(emitted) == sent && [] !in emitted && start <= emitted
        invariant clear ==> OnCharacterBoundaries()
        decreases |buf|
      {
        if inFence {
          var j := IndexOf(buf, close);
          if j < 0 {
            HoldStep(sent, buf, open, close);
            return;
          }
          if clear { DropMarker(buf, j, close); }
          CloseStep(sent, buf, open, close);
          buf := buf[j + |close|..];
          inFence := false;
          continue;
        }
        var i := IndexOf(buf, open);
        if i >= 0 {
          if clear { DropMarker(buf, i, open); }
          OpenStep(sent, buf, open, close, i);
          Release(i, i + |open|, true);
          continue;
        }
        var keep := PartialPrefixLen(buf, open);
        if clear { CutPartial(buf, open, keep); }
        SettleStep(sent, buf, open, close, keep);
        Release(|buf| - keep, |buf| - keep, false);
        return;
      }
    }
  }

  lemma EmptyText()
    ensures Gate([]) == GateState([], [], false)
  {
    assert forall i :: !At([], OPEN, i);
  }

  /** The gate fed with a list of chunks, one push after the other. */
  ghost function Feed(g: GateState, chunks: seq<bytes>): GateState
    decreases |chunks|
  {
    if chunks == [] then g
    else Feed(Scan(g.held + chunks[0], g.inFence, OPEN, CLOSE).After(g.sent), chunks[1..])
  }

  /** However a text is cut into chunks, the gate ends where one push of the whole text ends. */
  lemma {:induction false} ChunkingDoesNotMatter(input: bytes, chunks: seq<bytes>)
    ensures Feed(Gate(input), chunks) == Gate(input + Join(chunks))
    decreases |chunks|
  {
    if chunks == [] {
      assert input + Join(chunks) == input;
    } else {
      ScanAppend(input, chunks[0], false, OPEN, CLOSE);
      ChunkingDoesNotMatter(input + chunks[0], chunks[1..]);
      ConcatAssoc(input, chunks[0], Join(chunks[1..]));
    }
  }
}
