/** Byte strings, and the string-library calls the streaming code makes on them. */
module Bytes {
  newtype byte = b: int | 0 <= b < 256
  type bytes = seq<byte>

  const NL: byte := 0x0A
  const TICK: byte := 0x60

  /** `pat` occurs in `s` at offset `i`. */
  ghost predicate At(s: bytes, pat: bytes, i: int) {
    0 <= i && i + |pat| <= |s| && s[i..i + |pat|] == pat
  }

  ghost predicate Contains(s: bytes, pat: bytes) {
    exists i :: At(s, pat, i)
  }

  ghost predicate LeftmostAt(s: bytes, pat: bytes, i: int) {
    At(s, pat, i) && forall j :: At(s, pat, j) ==> i <= j
  }

  lemma {:induction false} HasLeftmost(s: bytes, pat: bytes, i: int) returns (r: int)
    requires At(s, pat, i)
    ensures LeftmostAt(s, pat, r)
    decreases i
  {
    if j :| At(s, pat, j) && j < i {
      r := HasLeftmost(s, pat, j);
    } else {
      r := i;
    }
  }

  lemma LeftmostExists(s: bytes, pat: bytes)
    requires Contains(s, pat)
    ensures exists r :: LeftmostAt(s, pat, r)
  {
    var i :| At(s, pat, i);
    var r := HasLeftmost(s, pat, i);
  }

  /** The offset of the leftmost occurrence, or -1. */
  ghost function Index(s: bytes, pat: bytes): (r: int)
    ensures if Contains(s, pat) then LeftmostAt(s, pat, r) else r == -1
  {
    if Contains(s, pat) then
      LeftmostExists(s, pat);
      var r :| LeftmostAt(s, pat, r);
      r
    else
      -1
  }

  /** strings.Index */
  method IndexOf(s: bytes, pat: bytes) returns (r: int)
    ensures r == Index(s, pat)
    ensures if r < 0 then !Contains(s, pat) else Contains(s, pat) && r + |pat| <= |s|
  {
    r := 0;
    while r + |pat| <= |s|
      invariant forall j :: 0 <= j < r ==> !At(s, pat, j)
    {
      if pat <= s[r..] {
        IndexIs(s, pat, r);
        return;
      }
      r := r + 1;
    }
    r := -1;
  }

  /** Index is the only number with the property that defines it. */
  lemma IndexIs(s: bytes, pat: bytes, i: int)
    requires LeftmostAt(s, pat, i)
    ensures Index(s, pat) == i
  {
  }

  lemma AtByte(s: bytes, pat: bytes, i: int, k: int)
    requires At(s, pat, i) && 0 <= k < |pat|
    ensures s[i + k] == pat[k]
  {
    assert s[i + k] == s[i..i + |pat|][k];
  }

  lemma AtStart(s: bytes, pat: bytes)
    ensures At(s, pat, 0) <==> pat <= s
  {
  }

  /** Occurrences in `b`, seen from a string that has `b` after `a`. */
  lemma AtShift(a: bytes, b: bytes, pat: bytes, i: int)
    requires i >= |a|
    ensures At(a + b, pat, i) <==> At(b, pat, i - |a|)
  {
    if i + |pat| <= |a| + |b| {
      assert (a + b)[i..i + |pat|] == b[i - |a|..i - |a| + |pat|];
    }
  }

  /** Occurrences that end within `a` do not depend on what follows. */
  lemma AtWithin(a: bytes, b: bytes, pat: bytes, i: int)
    requires i + |pat| <= |a|
    ensures At(a + b, pat, i) <==> At(a, pat, i)
  {
    if 0 <= i {
      assert (a + b)[i..i + |pat|] == a[i..i + |pat|];
    }
  }

  /** The leftmost occurrence stays leftmost when bytes are appended. */
  lemma IndexAppend(a: bytes, b: bytes, pat: bytes)
    requires Contains(a, pat)
    ensures Index(a + b, pat) == Index(a, pat)
  {
    var r := Index(a, pat);
    AtWithin(a, b, pat, r);
    forall j | At(a + b, pat, j) ensures r <= j {
      if j < r { AtWithin(a, b, pat, j); }
    }
    IndexIs(a + b, pat, r);
  }

  /** Slices of a concatenation that reach into its second part. */
  lemma SliceRight<T>(a: seq<T>, b: seq<T>, i: int)
    requires 0 <= i <= |b|
    ensures (a + b)[..|a| + i] == a + b[..i] && (a + b)[|a| + i..] == b[i..]
  {
  }

  /** Slices of a concatenation at a point in its first part. */
  lemma SliceLeft<T>(a: seq<T>, b: seq<T>, i: int)
    requires 0 <= i <= |a|
    ensures (a + b)[..i] == a[..i] && (a + b)[i..] == a[i..] + b
  {
  }

  lemma ConcatAssoc<T>(a: seq<T>, b: seq<T>, c: seq<T>)
    ensures a + b + c == a + (b + c)
  {
  }

  /** All bytes of a list of chunks, in order. */
  function Join(chunks: seq<bytes>): bytes {
    if chunks == [] then [] else chunks[0] + Join(chunks[1..])
  }

  lemma {:induction false} JoinSnoc(chunks: seq<bytes>, c: bytes)
    ensures Join(chunks + [c]) == Join(chunks) + c
  {
    if chunks == [] {
      assert chunks + [c] == [c];
      assert [c][1..] == [];
    } else {
      JoinSnoc(chunks[1..], c);
      assert (chunks + [c])[1..] == chunks[1..] + [c];
    }
  }
}
