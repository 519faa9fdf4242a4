/** Cookie strings: parsing, printing, merging Set-Cookie headers, and account identity. */
module CookieText {
  import opened Text

  datatype Pair = Pair(name: string, value: string)

  // ---------- Parsing and printing ----------

  /** strings.Split(s, ";") */
  function Segments(s: string): (r: seq<string>)
    ensures r != []
    ensures forall x :: x in r ==> ';' !in x
  {
    if s == [] then [[]]
    else
      var rest := Segments(s[1..]);
      if s[0] == ';' then [[]] + rest else [[s[0]] + rest[0]] + rest[1..]
  }

  /** The cut at the first "=" of section 5.2 of RFC 6265, with a name that is not empty. */
  function EqualsAt(p: string): (i: int)
    ensures i == -1 <==> '=' !in p
    ensures i >= 0 ==> i < |p| && p[i] == '=' && '=' !in p[..i]
  {
    if p == [] then -1
    else if p[0] == '=' then 0
    else var i := EqualsAt(p[1..]); if i < 0 then -1 else assert p[..i + 1] == [p[0]] + p[1..][..i]; i + 1
  }

  function CutPair(p: string): Option<Pair> {
    var i := EqualsAt(p);
    if i > 0 then Some(Pair(p[..i], p[i + 1..])) else None
  }

  function PairOf(segment: string): seq<Pair> {
    match CutPair(TrimSpace(segment))
    case Some(p) => [p]
    case None => []
  }

  function PairsOf(segments: seq<string>): seq<Pair> {
    if segments == [] then [] else PairOf(segments[0]) + PairsOf(segments[1..])
  }

  function Pairs(cookie: string): seq<Pair> {
    PairsOf(Segments(cookie))
  }

  lemma {:induction false} PairsOfSnoc(segments: seq<string>, x: string)
    ensures PairsOf(segments + [x])
         == PairsOf(segments) + PairOf(x)
  {
    hide PairOf;
    if segments == [] {
      assert segments + [x] == [x] && [x][1..] == [];
      assert PairOf(x) + [] == [] + PairOf(x);
    } else {
      assert (segments + [x])[1..] == segments[1..] + [x];
      PairsOfSnoc(segments[1..], x);
      assert PairOf(segments[0]) + (PairsOf(segments[1..]) + PairOf(x)) == PairsOf(segments) + PairOf(x);
    }
  }

  method SplitCookiePairs(cookie: string) returns (out: seq<Pair>)
    ensures out == Pairs(cookie)
  {
    hide CutPair, TrimSpace, Segments;
    out := [];
    var segments := Segments(cookie);
    for n := 0 to |segments|
      invariant out == PairsOf(segments[..n])
    {
      var p := TrimSpace(segments[n]);
      PairsOfSnoc(segments[..n], segments[n]);
      assert segments[..n + 1] == segments[..n] + [segments[n]];
      var cut := CutPair(p);
      if cut.Some? {
        out := out + [cut.value];
      }
    }
    assert segments[..|segments|] == segments;
  }

  function Line(p: Pair): string {
    p.name + "=" + p.value
  }

  /** The lines joined with "; ". */
  function Print(ps: seq<Pair>): string {
    if ps == [] then ""
    else if |ps| == 1 then Line(ps[0])
    else Line(ps[0]) + "; " + Print(ps[1..])
  }

  /** What parsing can produce. */
  ghost predicate Clean(p: Pair) {
    && p.name != "" && '=' !in p.name && ';' !in p.name && ';' !in p.value
    && !IsSpace(p.name[0]) && (p.value != "" ==> !IsSpace(p.value[|p.value| - 1]))
  }

  ghost predicate AllClean(ps: seq<Pair>) {
    forall p :: p in ps ==> Clean(p)
  }

  lemma CutIsClean(x: string)
    requires ';' !in x
    ensures var r := CutPair(TrimSpace(x)); r.Some? ==> Clean(r.value)
  {
    hide TrimSpace;
    var t := TrimSpace(x);
    var i := EqualsAt(t);
    if i > 0 {
      assert t[..i][0] == t[0];
      if t[i + 1..] != "" { assert t[i + 1..][|t[i + 1..]| - 1] == t[|t| - 1]; }
    }
  }

  lemma {:induction false} ParsedIsClean(segments: seq<string>)
    requires forall x :: x in segments ==> ';' !in x
    ensures AllClean(PairsOf(segments))
  {
    hide CutPair, Clean;
    if segments != [] {
      CutIsClean(segments[0]);
      ParsedIsClean(segments[1..]);
    }
  }

  lemma PairsAreClean(cookie: string)
    ensures AllClean(Pairs(cookie))
  {
    hide PairsOf, AllClean;
    ParsedIsClean(Segments(cookie));
  }

  lemma LineIsTrimmed(p: Pair)
    requires Clean(p)
    ensures TrimSpace(Line(p)) == Line(p) && CutPair(Line(p)) == Some(p) && ';' !in Line(p)
  {
    var s := Line(p);
    assert s[0] == p.name[0];
    assert s[|s| - 1] == if p.value == "" then '=' else p.value[|p.value| - 1];
    TrimOfTrimmed(s);
    FirstEquals(p.name, p.value);
  }

  lemma {:induction false} FirstEquals(name: string, value: string)
    requires '=' !in name
    ensures EqualsAt(name + "=" + value) == |name|
    ensures (name + "=" + value)[..|name|] == name && (name + "=" + value)[|name| + 1..] == value
  {
    if name != "" {
      assert (name + "=" + value)[1..] == name[1..] + "=" + value;
      FirstEquals(name[1..], value);
    }
  }

  lemma {:induction false} SegmentsOfLine(s: string)
    requires ';' !in s
    ensures Segments(s) == [s]
  {
    if s != [] {
      SegmentsOfLine(s[1..]);
      assert [s[0]] + s[1..] == s;
    }
  }

  lemma {:induction false} SegmentsOfLines(s: string, rest: string)
    requires ';' !in s
    ensures Segments(s + ";" + rest) == [s] + Segments(rest)
  {
    var t := s + ";" + rest;
    if s == [] {
      assert t[1..] == rest && t[0] == ';';
    } else {
      assert t[1..] == s[1..] + ";" + rest && t[0] == s[0];
      SegmentsOfLines(s[1..], rest);
      assert [s[0]] + s[1..] == s;
    }
  }

  lemma SegmentsAfterSpace(s: string)
    ensures Segments(" " + s) == [" " + Segments(s)[0]] + Segments(s)[1..]
  {
    assert (" " + s)[1..] == s;
  }

  lemma TrimAfterSpace(x: string)
    ensures TrimSpace(" " + x) == TrimSpace(x)
  {
    hide TrimRight;
    assert (" " + x)[1..] == x;
    assert IsSpace(' ');
  }

  /** The space that follows a ";" is trimmed away. */
  lemma PairsAfterSpace(s: string)
    ensures PairsOf(Segments(" " + s)) == PairsOf(Segments(s))
  {
    hide CutPair, TrimSpace;
    var x, rest := Segments(s)[0], Segments(s)[1..];
    SegmentsAfterSpace(s);
    TrimAfterSpace(x);
    assert ([" " + x] + rest)[1..] == rest;
  }

  lemma PairsOfFirstLine(p: Pair, rest: seq<string>)
    requires Clean(p)
    ensures PairsOf([Line(p)] + rest) == [p] + PairsOf(rest)
  {
    hide CutPair, TrimSpace, Clean;
    LineIsTrimmed(p);
    assert ([Line(p)] + rest)[1..] == rest;
  }

  /** Printing and parsing again gives the same pairs. */
  lemma {:induction false} PrintThenParse(ps: seq<Pair>)
    requires AllClean(ps)
    ensures Pairs(Print(ps)) == ps
  {
    hide Clean, Line, Segments, PairsOf, Print;
    if ps == [] {
      NoSegments();
    } else {
      assert Clean(ps[0]);
      PrintOfFirst(ps);
      if |ps| == 1 {
        LinesOfOne(ps[0]);
        assert ps == [ps[0]];
      } else {
        PrintThenParse(ps[1..]);
        LinesOfFirst(ps[0], Print(ps[1..]));
        assert ps == [ps[0]] + ps[1..];
      }
    }
  }

  lemma PrintOfFirst(ps: seq<Pair>)
    requires ps != []
    ensures Print(ps) == if |ps| == 1 then Line(ps[0]) else Line(ps[0]) + ";" + (" " + Print(ps[1..]))
  {
    hide Line;
  }

  lemma LinesOfOne(p: Pair)
    requires Clean(p)
    ensures PairsOf(Segments(Line(p))) == [p]
  {
    hide Clean, Line, Segments, PairsOf, TrimSpace, CutPair;
    LineIsTrimmed(p);
    SegmentsOfLine(Line(p));
    PairsOfFirstLine(p, []);
    assert [Line(p)] + [] == [Line(p)];
    NoPairs();
  }

  lemma LinesOfFirst(p: Pair, rest: string)
    requires Clean(p)
    ensures PairsOf(Segments(Line(p) + ";" + (" " + rest))) == [p] + PairsOf(Segments(rest))
  {
    hide Clean, Line, Segments, PairsOf, TrimSpace, CutPair;
    LineIsTrimmed(p);
    SegmentsOfLines(Line(p), " " + rest);
    PairsOfFirstLine(p, Segments(" " + rest));
    PairsAfterSpace(rest);
  }

  lemma NoSegments()
    ensures Segments("") == [""] && PairsOf([""]) == [] && Print([]) == ""
  {
    hide PairOf;
    assert [""][1..] == [];
    NothingIsNoPair();
  }

  lemma NothingIsNoPair()
    ensures PairOf("") == []
  {
    hide TrimSpace;
    assert TrimSpace("") == "" by { TrimOfTrimmed(""); }
  }

  lemma NoPairs()
    ensures PairsOf([]) == []
  {
  }

  /** For every cookie string, the normalised string has the same pairs. */
  lemma ParsePrintParse(cookie: string)
    ensures Pairs(Print(Pairs(cookie))) == Pairs(cookie)
  {
    PairsAreClean(cookie);
    PrintThenParse(Pairs(cookie));
  }
}
