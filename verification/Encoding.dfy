/** Strings of characters as UTF-8 bytes: both models of strings.TrimSpace are the same function. */
module Encoding {
  import opened Bytes
  import Text
  import Trim
  import Utf8

  /** The encoding of one character, as in section 3 of RFC 3629. */
  function EncodeChar(c: char): (r: bytes)
    ensures 1 <= |r| <= 4
  {
    var v := c as int;
    if v < 0x80 then [v as byte]
    else if v < 0x800 then [(0xC0 + v / 0x40) as byte, (0x80 + v % 0x40) as byte]
    else if v < 0x10000 then
      [(0xE0 + v / 0x1000) as byte, (0x80 + v / 0x40 % 0x40) as byte, (0x80 + v % 0x40) as byte]
    else
      [(0xF0 + v / 0x40000) as byte, (0x80 + v / 0x1000 % 0x40) as byte, (0x80 + v / 0x40 % 0x40) as byte,
       (0x80 + v % 0x40) as byte]
  }

  function Encode(s: string): bytes {
    if s == [] then [] else EncodeChar(s[0]) + Encode(s[1..])
  }

  lemma {:induction false} EncodeSnoc(s: string, c: char)
    ensures Encode(s + [c]) == Encode(s) + EncodeChar(c)
  {
    hide EncodeChar;
    if s == [] {
      assert s + [c] == [c] && [c][1..] == [];
      assert EncodeChar(c) + [] == [] + EncodeChar(c);
    } else {
      assert (s + [c])[1..] == s[1..] + [c];
      EncodeSnoc(s[1..], c);
      ConcatAssoc(EncodeChar(s[0]), Encode(s[1..]), EncodeChar(c));
    }
  }

  /** Encoded strings are well formed. */
  lemma {:induction false} EncodedIsWellFormed(s: string)
    ensures Utf8.WellFormed(Encode(s))
  {
    hide EncodeChar, Utf8.CharLen;
    if s != [] {
      CharIsWellFormed(s[0]);
      EncodedIsWellFormed(s[1..]);
      Utf8.ConcatWellFormed(EncodeChar(s[0]), Encode(s[1..]));
    }
  }

  lemma CharIsWellFormed(c: char)
    ensures Utf8.WellFormed(EncodeChar(c))
  {
    hide EncodeChar, Utf8.CharLen;
    var e := EncodeChar(c);
    var v := c as int;
    if v < 0x80 {
      OneByte(c);
    } else if v < 0x800 {
      TwoBytes(c);
    } else if v < 0x10000 {
      ThreeBytes(c);
    } else {
      FourBytes(c);
    }
    assert e[|e|..] == [];
  }

  lemma OneByte(c: char)
    requires (c as int) < 0x80
    ensures Utf8.CharLen(EncodeChar(c)) == |EncodeChar(c)|
  {
  }

  lemma TwoBytes(c: char)
    requires 0x80 <= (c as int) < 0x800
    ensures Utf8.CharLen(EncodeChar(c)) == |EncodeChar(c)|
  {
  }

  lemma ThreeBytes(c: char)
    requires 0x800 <= (c as int) < 0x10000
    ensures Utf8.CharLen(EncodeChar(c)) == |EncodeChar(c)|
  {
    hide Utf8.CharLen;
    var e, v := EncodeChar(c), c as int;
    assert |e| == 3 && e[0] as int == 0xE0 + v / 0x1000 && e[1] as int == 0x80 + v / 0x40 % 0x40;
    assert v / 0x40 / 0x40 == v / 0x1000;
    ThreeByteShape(e, v / 0x40);
  }

  /** No surrogates, and nothing that fits in two bytes. */
  lemma ThreeByteShape(e: bytes, w: int)
    requires |e| == 3 && 0x20 <= w < 0x400 && !(0x360 <= w < 0x380)
    requires e[0] as int == 0xE0 + w / 0x40 && e[1] as int == 0x80 + w % 0x40 && Utf8.Tail(e[2])
    ensures Utf8.CharLen(e) == 3
  {
  }

  lemma FourBytes(c: char)
    requires 0x10000 <= (c as int)
    ensures Utf8.CharLen(EncodeChar(c)) == |EncodeChar(c)|
  {
    hide Utf8.CharLen;
    var e, v := EncodeChar(c), c as int;
    assert |e| == 4 && e[0] as int == 0xF0 + v / 0x40000 && e[1] as int == 0x80 + v / 0x1000 % 0x40;
    assert v / 0x1000 / 0x40 == v / 0x40000;
    FourByteShape(e, v / 0x1000);
  }

  lemma FourByteShape(e: bytes, w: int)
    requires |e| == 4 && 0x10 <= w < 0x110
    requires e[0] as int == 0xF0 + w / 0x40 && e[1] as int == 0x80 + w % 0x40 && Utf8.Tail(e[2]) && Utf8.Tail(e[3])
    ensures Utf8.CharLen(e) == 4
  {
  }

  /** The bytes of one character are white space exactly when the character is. */
  lemma SpaceOfChar(c: char)
    ensures Trim.SpaceLen(EncodeChar(c)) == if Text.IsSpace(c) then |EncodeChar(c)| else 0
  {
  }

  /** White space at the start of bytes is within the first character. */
  lemma SpaceBefore(c: char, rest: bytes)
    ensures Trim.SpaceLen(EncodeChar(c) + rest) == Trim.SpaceLen(EncodeChar(c))
  {
    var e := EncodeChar(c);
    assert forall i :: 0 <= i < |e| ==> (e + rest)[i] == e[i];
    assert |e| > 1 ==> e[0] >= 0xC0;
  }

  /** The bytes after the first of a character are in a range of their own. */
  lemma Continuation(c: char)
    ensures var e := EncodeChar(c);
            && (|e| == 1 ==> e[0] < 0x80) && (|e| > 1 ==> e[0] >= 0xC0)
            && (forall i :: 1 <= i < |e| ==> 0x80 <= e[i] < 0xC0)
  {
  }

  /** A white-space character starts with no continuation byte and goes on with nothing else. */
  lemma SpaceShape(t: bytes)
    ensures var k := Trim.SpaceLen(t);
            && (k > 0 ==> t[0] < 0x80 || t[0] >= 0xC0)
            && (forall i :: 1 <= i < k ==> 0x80 <= t[i] < 0xC0)
  {
  }

  /** Among the suffixes of bytes that end in a character only that character can be white space. */
  lemma SuffixSpace(x: bytes, e: bytes, k: nat)
    requires 1 <= k <= |x + e| && e != [] && (e[0] < 0x80 || e[0] >= 0xC0)
    requires forall i :: 1 <= i < |e| ==> 0x80 <= e[i] < 0xC0
    ensures var t := x + e;
            Trim.SpaceLen(t[|t| - k..]) == k <==> k == |e| && Trim.SpaceLen(e) == k
  {
    hide Trim.SpaceLen;
    var t := x + e;
    var u := t[|t| - k..];
    SpaceShape(u);
    if k == |e| {
      assert u == e;
    } else if k < |e| {
      assert u[0] == e[|e| - k];
    } else {
      assert u[k - |e|] == e[0];
    }
  }

  lemma SpaceAfter(x: bytes, c: char)
    ensures Trim.LastSpaceLen(x + EncodeChar(c)) == if Text.IsSpace(c) then |EncodeChar(c)| else 0
  {
    hide EncodeChar, Text.IsSpace, Trim.SpaceLen;
    var e := EncodeChar(c);
    var t := x + e;
    Continuation(c);
    SpaceOfChar(c);
    SpacesAreShort(e);
    SuffixSpace(x, e, 1);
    if |t| >= 2 { SuffixSpace(x, e, 2); }
    if |t| >= 3 { SuffixSpace(x, e, 3); }
  }

  lemma SpacesAreShort(t: bytes)
    ensures Trim.SpaceLen(t) <= 3
  {
  }

  lemma {:induction false} TrimLeftAgrees(s: string)
    ensures Trim.TrimLeft(Encode(s)) == Encode(Text.TrimLeft(s))
  {
    hide EncodeChar, Trim.SpaceLen, Text.IsSpace;
    if s == [] {
      assert Trim.SpaceLen([]) == 0;
    } else {
      SpaceOfChar(s[0]);
      SpaceBefore(s[0], Encode(s[1..]));
      if Text.IsSpace(s[0]) {
        SliceRight(EncodeChar(s[0]), Encode(s[1..]), 0);
        TrimLeftAgrees(s[1..]);
      }
    }
  }

  lemma {:induction false} TrimRightAgrees(s: string)
    ensures Trim.TrimRight(Encode(s)) == Encode(Text.TrimRight(s))
    decreases |s|
  {
    hide EncodeChar, Trim.LastSpaceLen, Trim.SpaceLen, Text.IsSpace;
    if s == [] {
      assert Trim.LastSpaceLen([]) == 0;
    } else {
      var init, c := s[..|s| - 1], s[|s| - 1];
      assert s == init + [c];
      EncodeSnoc(init, c);
      SpaceAfter(Encode(init), c);
      if Text.IsSpace(c) {
        SliceLeft(Encode(init), EncodeChar(c), |Encode(init)|);
        assert Encode(init)[..|Encode(init)|] == Encode(init);
        TrimRightAgrees(init);
      }
    }
  }

  /** Trimming characters is trimming their bytes. */
  lemma TrimAgrees(s: string)
    ensures Trim.TrimSpace(Encode(s)) == Encode(Text.TrimSpace(s))
  {
    hide EncodeChar, Encode, Trim.TrimLeft, Trim.TrimRight, Text.TrimLeft, Text.TrimRight;
    TrimLeftAgrees(s);
    TrimRightAgrees(Text.TrimLeft(s));
  }
}
