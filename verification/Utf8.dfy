/** Well-formed UTF-8, as the byte-sequence grammar of section 4 of RFC 3629. */
module Utf8 {
  import opened Bytes

  predicate Tail(b: byte) { 0x80 <= b <= 0xBF }

  /** Length of the first character of `s`, or 0 if `s` does not start with one. */
  function CharLen(s: bytes): (n: nat)
    ensures n <= |s|
  {
    if s == [] then 0
    else if s[0] <= 0x7F then 1
    else if |s| < 2 then 0
    else if 0xC2 <= s[0] <= 0xDF && Tail(s[1]) then 2
    else if |s| < 3 then 0
    else if && Tail(s[2])
            && (|| (s[0] == 0xE0 && 0xA0 <= s[1] <= 0xBF)
                || (0xE1 <= s[0] <= 0xEC && Tail(s[1]))
                || (s[0] == 0xED && 0x80 <= s[1] <= 0x9F)
                || (0xEE <= s[0] <= 0xEF && Tail(s[1]))) then 3
    else if |s| < 4 then 0
    else if && Tail(s[2]) && Tail(s[3])
            && (|| (s[0] == 0xF0 && 0x90 <= s[1] <= 0xBF)
                || (0xF1 <= s[0] <= 0xF3 && Tail(s[1]))
                || (s[0] == 0xF4 && 0x80 <= s[1] <= 0x8F)) then 4
    else 0
  }

  predicate WellFormed(s: bytes)
    decreases |s|
  {
    s == [] || (CharLen(s) > 0 && WellFormed(s[CharLen(s)..]))
  }

  /** Whether a string starts with a character does not depend on what follows it. */
  lemma CharLenAppend(a: bytes, b: bytes)
    requires CharLen(a) > 0
    ensures CharLen(a + b) == CharLen(a)
  {
  }

  lemma CharLenCut(s: bytes, i: int)
    requires 0 < CharLen(s) <= i <= |s|
    ensures CharLen(s[..i]) == CharLen(s)
  {
  }

  /** Inside a character there are only bytes above the ASCII range. */
  lemma InsideCharacter(s: bytes, i: int)
    requires 0 < i < CharLen(s)
    ensures s[i] > 0x7F
  {
  }

  lemma {:induction false} ConcatWellFormed(a: bytes, b: bytes)
    requires WellFormed(a) && WellFormed(b)
    ensures WellFormed(a + b)
    decreases |a|
  {
    hide CharLen;
    if a == [] {
      assert a + b == b;
    } else {
      var n := CharLen(a);
      CharLenAppend(a, b);
      assert (a + b)[n..] == a[n..] + b;
      ConcatWellFormed(a[n..], b);
    }
  }

  /** What follows a well-formed prefix of a well-formed string is well formed. */
  lemma {:induction false} RestWellFormed(a: bytes, b: bytes)
    requires WellFormed(a) && WellFormed(a + b)
    ensures WellFormed(b)
    decreases |a|
  {
    hide CharLen;
    if a == [] {
      assert a + b == b;
    } else {
      var n := CharLen(a);
      CharLenAppend(a, b);
      assert (a + b)[n..] == a[n..] + b;
      RestWellFormed(a[n..], b);
    }
  }

  /** An offset that holds an ASCII byte, or the end, is a character boundary. */
  lemma {:induction false} CutWellFormed(s: bytes, i: nat)
    requires WellFormed(s) && i <= |s|
    requires i < |s| ==> s[i] <= 0x7F
    ensures WellFormed(s[..i]) && WellFormed(s[i..])
    decreases |s|
  {
    hide CharLen;
    if i == 0 {
      assert s[0..] == s;
    } else {
      var n := CharLen(s);
      if i < n { InsideCharacter(s, i); }
      CharLenCut(s, i);
      assert s[n..][i - n..] == s[i..];
      assert s[n..][..i - n] == s[..i][n..];
      CutWellFormed(s[n..], i - n);
    }
  }

  predicate Ascii(s: bytes) {
    forall i :: 0 <= i < |s| ==> s[i] <= 0x7F
  }

  lemma {:induction false} AsciiWellFormed(s: bytes)
    requires Ascii(s)
    ensures WellFormed(s)
    decreases |s|
  {
    if s != [] {
      AsciiWellFormed(s[1..]);
    }
  }
}
