/** strings.TrimSpace on UTF-8 bytes. */
module Trim {
  import opened Bytes

  /** Length of the white-space character that `t` starts with, or 0. The characters are those
      of unicode.IsSpace, in UTF-8. */
  function SpaceLen(t: bytes): (n: nat)
    ensures n <= |t|
  {
    if |t| >= 1 && (0x09 <= t[0] <= 0x0D || t[0] == 0x20) then 1
    else if |t| >= 2 && t[0] == 0xC2 && (t[1] == 0x85 || t[1] == 0xA0) then 2
    else if |t| >= 3 && (|| (t[0] == 0xE1 && t[1] == 0x9A && t[2] == 0x80)
                         || (t[0] == 0xE2 && t[1] == 0x80
                             && (0x80 <= t[2] <= 0x8A || 0xA8 <= t[2] <= 0xA9 || t[2] == 0xAF))
                         || (t[0] == 0xE2 && t[1] == 0x81 && t[2] == 0x9F)
                         || (t[0] == 0xE3 && t[1] == 0x80 && t[2] == 0x80)) then 3
    else 0
  }

  /** Length of the white-space character that `t` ends with, or 0. */
  function LastSpaceLen(t: bytes): (n: nat)
    ensures n <= |t|
  {
    if |t| >= 1 && SpaceLen(t[|t| - 1..]) == 1 then 1
    else if |t| >= 2 && SpaceLen(t[|t| - 2..]) == 2 then 2
    else if |t| >= 3 && SpaceLen(t[|t| - 3..]) == 3 then 3
    else 0
  }

  function TrimLeft(t: bytes): (r: bytes)
    ensures |r| <= |t|
    decreases |t|
  {
    if SpaceLen(t) == 0 then t else TrimLeft(t[SpaceLen(t)..])
  }

  function TrimRight(t: bytes): (r: bytes)
    ensures |r| <= |t| && r <= t
    decreases |t|
  {
    if LastSpaceLen(t) == 0 then t else TrimRight(t[..|t| - LastSpaceLen(t)])
  }

  function TrimSpace(t: bytes): bytes {
    TrimRight(TrimLeft(t))
  }

  // ---------- What trimming keeps ----------

  lemma SpaceLenOfPrefix(p: bytes, t: bytes)
    requires p <= t && SpaceLen(p) > 0
    ensures SpaceLen(t) == SpaceLen(p)
  {
  }

  lemma TrimLeftNothing(t: bytes)
    requires SpaceLen(t) == 0
    ensures TrimLeft(t) == t
  {
  }

  lemma {:induction false} TrimLeftClean(t: bytes)
    ensures SpaceLen(TrimLeft(t)) == 0
    decreases |t|
  {
    hide SpaceLen;
    if SpaceLen(t) > 0 {
      TrimLeftClean(t[SpaceLen(t)..]);
    }
  }

  lemma {:induction false} TrimRightClean(t: bytes)
    ensures LastSpaceLen(TrimRight(t)) == 0
    decreases |t|
  {
    hide LastSpaceLen;
    if LastSpaceLen(t) > 0 {
      TrimRightClean(t[..|t| - LastSpaceLen(t)]);
    }
  }

  /** A trimmed text starts with no white space. */
  lemma TrimmedStart(t: bytes)
    ensures SpaceLen(TrimSpace(t)) == 0
  {
    hide SpaceLen;
    TrimLeftClean(t);
    if SpaceLen(TrimSpace(t)) > 0 {
      SpaceLenOfPrefix(TrimSpace(t), TrimLeft(t));
    }
  }

  lemma TrimIdempotent(t: bytes)
    ensures TrimSpace(TrimSpace(t)) == TrimSpace(t)
  {
    hide SpaceLen, LastSpaceLen, TrimLeft;
    TrimmedStart(t);
    TrimLeftNothing(TrimSpace(t));
    TrimRightClean(TrimLeft(t));
  }

  /** A back-tick ends no white-space character and is part of none. */
  lemma SpaceLenBeforeTick(s: bytes, p: bytes)
    requires p != [] && p[0] == TICK
    ensures SpaceLen(s + p) == SpaceLen(s)
  {
  }

  lemma {:induction false} TrimLeftBeforeTick(s: bytes, p: bytes)
    requires p != [] && p[0] == TICK
    ensures TrimLeft(s + p) == TrimLeft(s) + p
    decreases |s|
  {
    hide SpaceLen;
    SpaceLenBeforeTick(s, p);
    var n := SpaceLen(s);
    if n > 0 {
      assert (s + p)[n..] == s[n..] + p;
      TrimLeftBeforeTick(s[n..], p);
    }
  }

  lemma NoTickInSpace(t: bytes, i: int)
    requires 0 <= i < SpaceLen(t)
    ensures t[i] != TICK
  {
  }

  lemma LastSpaceAfterTick(x: bytes, p: bytes)
    requires p != [] && p[0] == TICK
    ensures LastSpaceLen(x + p) < |p|
  {
    var t, n := x + p, LastSpaceLen(x + p);
    if n >= |p| {
      NoTickInSpace(t[|t| - n..], n - |p|);
    }
  }

  lemma {:induction false} TrimRightAfterTick(x: bytes, p: bytes)
    requires p != [] && p[0] == TICK
    ensures |TrimRight(x + p)| > |x| && x <= TrimRight(x + p)
    decreases |p|
  {
    hide LastSpaceLen;
    var n := LastSpaceLen(x + p);
    LastSpaceAfterTick(x, p);
    if n > 0 {
      assert (x + p)[..|x + p| - n] == x + p[..|p| - n];
      TrimRightAfterTick(x, p[..|p| - n]);
    }
  }
}
