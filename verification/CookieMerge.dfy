/** Merging Set-Cookie headers into a cookie string, and what that does to the account identity. */
module CookieMerge {
  import opened Text
  import opened CookieText

  // ---------- Set-Cookie headers ----------

  predicate HasSubstring(s: string, pat: string) {
    pat <= s || (s != [] && HasSubstring(s[1..], pat))
  }

  /** The pair that a header sets, unless it has none or only deletes. */
  function ParseSetCookie(header: string): Option<Pair> {
    var cut := CutPair(TrimSpace(Segments(header)[0]));
    if cut.Some? && cut.value.value == "" && HasSubstring(Lower(header), "expires=thu, 01 jan 1970") then None
    else cut
  }

  ghost predicate StandsAt(s: string, pat: string, i: int) {
    0 <= i <= |s| - |pat| && s[i..i + |pat|] == pat
  }

  lemma {:induction false} SubstringIff(s: string, pat: string)
    ensures HasSubstring(s, pat) <==> exists i :: StandsAt(s, pat, i)
  {
    if pat <= s {
      assert StandsAt(s, pat, 0);
    } else if s != [] {
      SubstringIff(s[1..], pat);
      forall i
        ensures StandsAt(s, pat, i) <==> StandsAt(s[1..], pat, i - 1)
      {
        if 0 < i <= |s| - |pat| { assert s[1..][i - 1..i - 1 + |pat|] == s[i..i + |pat|]; }
      }
      if i :| StandsAt(s[1..], pat, i) { assert StandsAt(s, pat, i + 1); }
    }
  }

  /** A header of a pair and attributes sets that pair, whatever the attributes are; only an empty
      value with the date of a deletion sets nothing. */
  lemma HeaderSets(p: Pair, attributes: string)
    requires Clean(p) && (attributes != "" ==> attributes[0] == ';')
    ensures var header := Line(p) + attributes;
            && (ParseSetCookie(header).Some? ==> ParseSetCookie(header) == Some(p))
            && (ParseSetCookie(header).None? <==>
                  p.value == "" && exists i :: StandsAt(Lower(header), "expires=thu, 01 jan 1970", i))
  {
    hide Clean, Line, Segments, TrimSpace, CutPair, HasSubstring, Lower, StandsAt;
    var header := Line(p) + attributes;
    LineIsTrimmed(p);
    if attributes == "" {
      assert header == Line(p);
      SegmentsOfLine(Line(p));
    } else {
      assert header == Line(p) + ";" + attributes[1..];
      SegmentsOfLines(Line(p), attributes[1..]);
    }
    SubstringIff(Lower(header), "expires=thu, 01 jan 1970");
  }

  function Updates(headers: seq<string>): map<string, string> {
    if headers == [] then map[]
    else
      var u := Updates(headers[..|headers| - 1]);
      match ParseSetCookie(headers[|headers| - 1])
      case Some(p) => u[p.name := p.value]
      case None => u
  }

  predicate Sets(header: string, name: string) {
    ParseSetCookie(header).Some? && ParseSetCookie(header).value.name == name
  }

  ghost predicate LastSetAt(headers: seq<string>, name: string, i: int) {
    0 <= i < |headers| && Sets(headers[i], name) && forall j :: i < j < |headers| ==> !Sets(headers[j], name)
  }

  /** A name is updated exactly when some header sets it, to the value of the last that does. */
  lemma {:induction false} UpdatesAreLast(headers: seq<string>, name: string)
    ensures name in Updates(headers) <==> exists i :: LastSetAt(headers, name, i)
    ensures forall i :: LastSetAt(headers, name, i) ==> Updates(headers)[name] == ParseSetCookie(headers[i]).value.value
  {
    hide ParseSetCookie;
    if headers != [] {
      var k := |headers| - 1;
      UpdatesAreLast(headers[..k], name);
      if Sets(headers[k], name) {
        assert LastSetAt(headers, name, k);
      } else {
        forall i
          ensures LastSetAt(headers, name, i) <==> LastSetAt(headers[..k], name, i)
        {
        }
      }
    }
  }

  lemma {:induction false} UpdatesAreClean(headers: seq<string>)
    ensures forall n :: n in Updates(headers) ==> Clean(Pair(n, Updates(headers)[n]))
  {
    hide Clean;
    if headers != [] {
      var k := |headers| - 1;
      UpdatesAreClean(headers[..k]);
      hide CutPair, TrimSpace;
      CutIsClean(Segments(headers[k])[0]);
      var p := ParseSetCookie(headers[k]);
      assert p.Some? ==> p.value == Pair(p.value.name, p.value.value);
    }
  }

  // ---------- Merging ----------

  function Refreshed(ps: seq<Pair>, u: map<string, string>): (r: seq<Pair>)
    ensures |r| == |ps|
    ensures forall i :: 0 <= i < |r| ==>
              r[i] == Pair(ps[i].name, if ps[i].name in u then u[ps[i].name] else ps[i].value)
  {
    if ps == [] then []
    else [Pair(ps[0].name, if ps[0].name in u then u[ps[0].name] else ps[0].value)] + Refreshed(ps[1..], u)
  }

  function NamesOf(ps: seq<Pair>): set<string> {
    set p | p in ps :: p.name
  }

  /** An order in which a Go map may be iterated for the names that are new. */
  ghost predicate IsOrderOfNew(extra: seq<string>, ps: seq<Pair>, u: map<string, string>) {
    && (forall i, j :: 0 <= i < j < |extra| ==> extra[i] != extra[j])
    && (forall n :: n in extra <==> n in u && n !in NamesOf(ps))
  }

  function Added(extra: seq<string>, u: map<string, string>): (r: seq<Pair>)
    requires forall n :: n in extra ==> n in u
    ensures |r| == |extra| && forall i :: 0 <= i < |r| ==> r[i] == Pair(extra[i], u[extra[i]])
  {
    seq(|extra|, i requires 0 <= i < |extra| => Pair(extra[i], u[extra[i]]))
  }

  /** `r` is a possible result of merging the headers into the cookie, with the new names in the
      order `extra`. */
  ghost predicate Merged(cookie: string, headers: seq<string>, extra: seq<string>, r: string) {
    var ps, u := Pairs(cookie), Updates(headers);
    && IsOrderOfNew(extra, ps, u)
    && r == if u == map[] then cookie else Print(Refreshed(ps, u) + Added(extra, u))
  }

  lemma NoHeaders()
    ensures Updates([]) == map[]
  {
  }

  method CollectUpdates(headers: seq<string>) returns (updates: map<string, string>)
    ensures updates == Updates(headers)
  {
    hide ParseSetCookie;
    updates := map[];
    for n := 0 to |headers|
      invariant updates == Updates(headers[..n])
    {
      assert headers[..n + 1][..n] == headers[..n];
      var p := ParseSetCookie(headers[n]);
      if p.Some? {
        updates := updates[p.value.name := p.value.value];
      }
    }
    assert headers[..|headers|] == headers;
  }

  method MergeSetCookie(cookie: string, headers: seq<string>) returns (r: string)
    ensures exists extra :: Merged(cookie, headers, extra, r)
  {
    hide Pairs, Print, Updates, Refreshed, Added, NamesOf;
    if headers == [] {
      NoHeaders();
      assert Merged(cookie, headers, [], cookie);
      return cookie;
    }
    var updates := CollectUpdates(headers);
    if updates == map[] {
      assert Merged(cookie, headers, [], cookie);
      return cookie;
    }
    var pairs := SplitCookiePairs(cookie);
    var parts, seen := RefreshPairs(pairs, updates);
    var all := AppendNew(parts, updates, seen);
    r := Print(all);
    ghost var extra :| Appended(parts, updates, seen, extra, all);
    assert Merged(cookie, headers, extra, r);
  }

  /** The pairs of the cookie in their order, with the values that are updated. */
  method RefreshPairs(ps: seq<Pair>, updates: map<string, string>) returns (parts: seq<Pair>, seen: set<string>)
    ensures parts == Refreshed(ps, updates) && seen == NamesOf(ps)
  {
    hide Refreshed, NamesOf;
    parts, seen := [], {};
    NothingToRefresh(updates);
    for n := 0 to |ps|
      invariant parts == Refreshed(ps[..n], updates)
      invariant seen == NamesOf(ps[..n])
    {
      var kv := ps[n];
      assert ps[..n + 1] == ps[..n] + [kv];
      RefreshedSnoc(ps[..n], kv, updates);
      seen := seen + {kv.name};
      parts := parts + [Pair(kv.name, if kv.name in updates then updates[kv.name] else kv.value)];
    }
    assert ps[..|ps|] == ps;
  }

  lemma NothingToRefresh(u: map<string, string>)
    ensures Refreshed([], u) == [] && NamesOf([]) == {}
  {
  }

  lemma RefreshedSnoc(ps: seq<Pair>, p: Pair, u: map<string, string>)
    ensures Refreshed(ps + [p], u) == Refreshed(ps, u) + [Pair(p.name, if p.name in u then u[p.name] else p.value)]
    ensures NamesOf(ps + [p]) == NamesOf(ps) + {p.name}
  {
    hide Refreshed, NamesOf;
    NamesSnoc(ps, p);
    var all, last := ps + [p], Pair(p.name, if p.name in u then u[p.name] else p.value);
    forall i | 0 <= i < |all|
      ensures Refreshed(all, u)[i] == (Refreshed(ps, u) + [last])[i]
    {
      assert all[i] == if i < |ps| then ps[i] else p;
    }
  }

  lemma NamesSnoc(ps: seq<Pair>, p: Pair)
    ensures NamesOf(ps + [p]) == NamesOf(ps) + {p.name}
  {
    forall x | x in NamesOf(ps) + {p.name}
      ensures x in NamesOf(ps + [p])
    {
      if x == p.name {
        assert p in ps + [p];
      } else {
        var q :| q in ps && q.name == x;
        assert q in ps + [p];
      }
    }
  }

  /** Each updated name that is not in `seen` is appended once, in the order `extra`. */
  ghost predicate Appended(parts: seq<Pair>, u: map<string, string>, seen: set<string>, extra: seq<string>,
                           all: seq<Pair>) {
    && (forall i, j :: 0 <= i < j < |extra| ==> extra[i] != extra[j])
    && (forall n :: n in extra <==> n in u && n !in seen)
    && all == parts + Added(extra, u)
  }

  /** Appends the names that the cookie did not have, in whatever order the map gives them. */
  method AppendNew(parts: seq<Pair>, updates: map<string, string>, seen: set<string>)
    returns (all: seq<Pair>)
    ensures exists extra :: Appended(parts, updates, seen, extra, all)
  {
    all := parts;
    ghost var extra: seq<string> := [];
    var left := updates.Keys;
    while left != {}
      invariant left <= updates.Keys
      invariant forall n :: n in extra <==> n in updates && n !in seen && n !in left
      invariant forall i, j :: 0 <= i < j < |extra| ==> extra[i] != extra[j]
      invariant all == parts + Added(extra, updates)
      decreases left
    {
      var name :| name in left;
      left := left - {name};
      if name !in seen {
        all := all + [Pair(name, updates[name])];
        extra := extra + [name];
      }
    }
    assert Appended(parts, updates, seen, extra, all);
  }

  // ---------- What a merge does ----------

  lemma NoNewNames(extra: seq<string>, ps: seq<Pair>, u: map<string, string>)
    requires IsOrderOfNew(extra, ps, u) && forall n :: n in u ==> n in NamesOf(ps)
    ensures extra == []
  {
    HasElement(extra);
  }

  lemma HasElement(s: seq<string>)
    ensures s != [] ==> exists n :: n in s
  {
    if s != [] { assert s[0] in s; }
  }

  /** The pairs of the merged string are the old ones, refreshed in place, and then the new ones. */
  lemma MergedPairs(cookie: string, headers: seq<string>, extra: seq<string>, r: string)
    requires Merged(cookie, headers, extra, r)
    ensures Pairs(r) == Refreshed(Pairs(cookie), Updates(headers)) + Added(extra, Updates(headers))
  {
    hide Pairs, Print, Clean, Refreshed, Added, Updates;
    var ps, u := Pairs(cookie), Updates(headers);
    if u == map[] {
      NoNewNames(extra, ps, u);
      assert Refreshed(ps, u) + Added(extra, u) == ps;
    } else {
      MergeIsClean(cookie, headers, extra);
      PrintThenParse(Refreshed(ps, u) + Added(extra, u));
    }
  }

  lemma MergeIsClean(cookie: string, headers: seq<string>, extra: seq<string>)
    requires forall n :: n in extra ==> n in Updates(headers)
    ensures AllClean(Refreshed(Pairs(cookie), Updates(headers)) + Added(extra, Updates(headers)))
  {
    hide Pairs, Clean, Refreshed, Added, Updates;
    var ps, u := Pairs(cookie), Updates(headers);
    var all := Refreshed(ps, u) + Added(extra, u);
    PairsAreClean(cookie);
    UpdatesAreClean(headers);
    forall i | 0 <= i < |all|
      ensures Clean(all[i])
    {
      if i < |ps| {
        assert ps[i] in ps;
        RefreshKeepsClean(ps[i], all[i].value);
      } else {
        assert extra[i - |ps|] in extra;
      }
    }
  }

  lemma RefreshKeepsClean(p: Pair, value: string)
    requires Clean(p)
    ensures Clean(Pair(p.name, p.value))
    ensures Clean(Pair(p.name, value)) <==> ';' !in value && (value != "" ==> !IsSpace(value[|value| - 1]))
  {
  }

  /** Value of the first pair with the name. */
  function First(ps: seq<Pair>, name: string): Option<string> {
    if ps == [] then None else if ps[0].name == name then Some(ps[0].value) else First(ps[1..], name)
  }

  /** Value of the last pair with the name. */
  function Last(ps: seq<Pair>, name: string): Option<string> {
    if ps == [] then None
    else if ps[|ps| - 1].name == name then Some(ps[|ps| - 1].value)
    else Last(ps[..|ps| - 1], name)
  }

  lemma {:induction false} FirstIs(ps: seq<Pair>, name: string, i: nat)
    requires i <= |ps| && (i < |ps| ==> ps[i].name == name)
    requires forall j :: 0 <= j < i ==> ps[j].name != name
    ensures First(ps, name) == if i < |ps| then Some(ps[i].value) else None
  {
    if i > 0 { FirstIs(ps[1..], name, i - 1); }
  }

  lemma {:induction false} LastIs(ps: seq<Pair>, name: string, i: int)
    requires -1 <= i < |ps| && (i >= 0 ==> ps[i].name == name)
    requires forall j :: i < j < |ps| ==> ps[j].name != name
    ensures Last(ps, name) == if i >= 0 then Some(ps[i].value) else None
  {
    if i < |ps| - 1 { LastIs(ps[..|ps| - 1], name, i); }
  }

  lemma {:induction false} FindFirst(ps: seq<Pair>, name: string) returns (i: nat)
    ensures i <= |ps| && (i < |ps| ==> ps[i].name == name)
    ensures forall j :: 0 <= j < i ==> ps[j].name != name
  {
    if ps == [] || ps[0].name == name {
      i := 0;
    } else {
      i := FindFirst(ps[1..], name);
      i := i + 1;
    }
  }

  lemma {:induction false} FindLast(ps: seq<Pair>, name: string) returns (i: int)
    ensures -1 <= i < |ps| && (i >= 0 ==> ps[i].name == name)
    ensures forall j :: i < j < |ps| ==> ps[j].name != name
  {
    if ps == [] || ps[|ps| - 1].name == name {
      i := |ps| - 1;
    } else {
      i := FindLast(ps[..|ps| - 1], name);
    }
  }

  /** Looking up any name, first or last, gives the last value the headers set for it if they set
      it at all, and otherwise what the cookie had. */
  lemma LookupAfterMerge(cookie: string, headers: seq<string>, extra: seq<string>, r: string, name: string)
    requires Merged(cookie, headers, extra, r)
    ensures var u := Updates(headers);
            && Last(Pairs(r), name) == (if name in u then Some(u[name]) else Last(Pairs(cookie), name))
            && First(Pairs(r), name) == (if name in u then Some(u[name]) else First(Pairs(cookie), name))
  {
    hide Pairs, Print, First, Last, Updates;
    MergedPairs(cookie, headers, extra, r);
    LookupInRefreshed(Pairs(cookie), Updates(headers), extra, name);
  }

  lemma LookupInRefreshed(ps: seq<Pair>, u: map<string, string>, extra: seq<string>, name: string)
    requires IsOrderOfNew(extra, ps, u)
    ensures var all := Refreshed(ps, u) + Added(extra, u);
            && Last(all, name) == (if name in u then Some(u[name]) else Last(ps, name))
            && First(all, name) == (if name in u then Some(u[name]) else First(ps, name))
  {
    hide First, Last, Refreshed, Added;
    var all := Refreshed(ps, u) + Added(extra, u);
    var f := FindFirst(all, name);
    var l := FindLast(all, name);
    FirstIs(all, name, f);
    LastIs(all, name, l);
    PlacesInMerge(ps, u, extra);
    if name in u {
      AllNamesPresent(ps, u, extra);
      var p :| p in all && p.name == name;
      var i :| 0 <= i < |all| && all[i] == p;
    } else {
      FirstIs(ps, name, if f < |ps| then f else |ps|);
      LastIs(ps, name, l);
    }
  }

  /** Which pair stands where after a merge. */
  lemma PlacesInMerge(ps: seq<Pair>, u: map<string, string>, extra: seq<string>)
    requires IsOrderOfNew(extra, ps, u)
    ensures var all := Refreshed(ps, u) + Added(extra, u);
            && |all| == |ps| + |extra|
            && (forall i :: 0 <= i < |ps| ==> all[i].name == ps[i].name)
            && (forall i :: 0 <= i < |ps| && ps[i].name !in u ==> all[i].value == ps[i].value)
            && (forall i :: 0 <= i < |all| && all[i].name in u ==> all[i].value == u[all[i].name])
            && (forall i :: |ps| <= i < |all| ==> all[i].name in u && all[i].name == extra[i - |ps|])
  {
    hide Refreshed;
    assert forall j :: 0 <= j < |extra| ==> extra[j] in extra;
  }

  /** Old names keep their places, and the new ones follow, each once. */
  lemma NamesAfterMerge(cookie: string, headers: seq<string>, extra: seq<string>, r: string)
    requires Merged(cookie, headers, extra, r)
    ensures var ps, qs := Pairs(cookie), Pairs(r);
            && |qs| == |ps| + |extra|
            && (forall i :: 0 <= i < |ps| ==> qs[i].name == ps[i].name)
            && (forall i :: |ps| <= i < |qs| ==> qs[i].name == extra[i - |ps|] && qs[i].name !in NamesOf(ps))
  {
    hide Pairs, Print, Updates, Refreshed, Added, NamesOf;
    MergedPairs(cookie, headers, extra, r);
    var ps, u := Pairs(cookie), Updates(headers);
    var head, rest := Refreshed(ps, u), Added(extra, u);
    var all: seq<Pair> := head + rest;
    assert Pairs(r) == all;
    forall i | |ps| <= i < |all|
      ensures all[i].name == extra[i - |ps|] && extra[i - |ps|] in extra
    {
      assert all[i] == rest[i - |ps|];
    }
  }

  /** Merging the same headers a second time changes nothing, in whatever order maps iterate. */
  lemma MergeTwice(cookie: string, headers: seq<string>, e1: seq<string>, r1: string, e2: seq<string>, r2: string)
    requires Merged(cookie, headers, e1, r1) && Merged(r1, headers, e2, r2)
    ensures r2 == r1
  {
    hide Pairs, Print, Updates;
    MergedPairs(cookie, headers, e1, r1);
    var u := Updates(headers);
    if u != map[] {
      var qs := Pairs(r1);
      assert forall n :: n in u ==> n in NamesOf(qs) by {
        AllNamesPresent(Pairs(cookie), u, e1);
      }
      NoNewNames(e2, qs, u);
      PlacesInMerge(Pairs(cookie), u, e1);
      assert Refreshed(qs, u) == qs;
      assert qs + Added(e2, u) == qs;
    }
  }

  /** A merge never empties a cookie. */
  lemma MergeKeepsNonEmpty(cookie: string, headers: seq<string>, extra: seq<string>, r: string)
    requires Merged(cookie, headers, extra, r) && cookie != ""
    ensures r != ""
  {
    hide Pairs, Updates;
    var ps, u := Pairs(cookie), Updates(headers);
    if u != map[] {
      var n :| n in u;
      AllNamesPresent(ps, u, extra);
    }
  }

  lemma AllNamesPresent(ps: seq<Pair>, u: map<string, string>, extra: seq<string>)
    requires IsOrderOfNew(extra, ps, u)
    ensures forall n :: n in u ==> n in NamesOf(Refreshed(ps, u) + Added(extra, u))
  {
    var all := Refreshed(ps, u) + Added(extra, u);
    forall n | n in u
      ensures n in NamesOf(all)
    {
      if n in extra {
        var i :| 0 <= i < |extra| && extra[i] == n;
        assert all[|ps| + i] in all;
      } else {
        var p :| p in ps && p.name == n;
        var i :| 0 <= i < |ps| && ps[i] == p;
        assert all[i] in all;
      }
    }
  }

  // ---------- Identity ----------

  function OrEmpty(v: Option<string>): string {
    if v.Some? then v.value else ""
  }

  const SAPISID := "SAPISID"
  const PSID := "__Secure-1PSID"

  /** The value that the last pair with the name has, or nothing. */
  function ValueOf(cookie: string, name: string): string {
    OrEmpty(Last(Pairs(cookie), name))
  }

  function CookieIdentity(cookie: string): string {
    ValueOf(cookie, SAPISID) + "|" + ValueOf(cookie, PSID)
  }

  /** The loop of cookieIdentity. */
  method CookieIdentityOf(cookie: string) returns (r: string)
    ensures r == CookieIdentity(cookie)
  {
    hide Pairs;
    var ps := SplitCookiePairs(cookie);
    var sapisid, psid := "", "";
    for n := 0 to |ps|
      invariant sapisid == OrEmpty(Last(ps[..n], SAPISID))
      invariant psid == OrEmpty(Last(ps[..n], PSID))
    {
      assert ps[..n + 1][..n] == ps[..n];
      if ps[n].name == SAPISID {
        sapisid := ps[n].value;
      } else if ps[n].name == PSID {
        psid := ps[n].value;
      }
    }
    assert ps[..|ps|] == ps;
    r := sapisid + "|" + psid;
  }

  /** Headers that touch neither of the two names leave the identity as it is. */
  lemma MergeKeepsIdentity(cookie: string, headers: seq<string>, extra: seq<string>, r: string)
    requires Merged(cookie, headers, extra, r)
    requires SAPISID !in Updates(headers) && PSID !in Updates(headers)
    ensures CookieIdentity(r) == CookieIdentity(cookie)
  {
    hide Pairs, Last, Updates, Merged;
    LookupAfterMerge(cookie, headers, extra, r, SAPISID);
    LookupAfterMerge(cookie, headers, extra, r, PSID);
  }

  lemma FirstSeparator(a: string, b: string, s: string)
    requires '|' !in a && s == a + "|" + b
    ensures |a| < |s| && s[|a|] == '|' && s[..|a|] == a && s[|a| + 1..] == b
    ensures forall i :: 0 <= i < |a| ==> s[i] != '|'
  {
  }

  /** Equal identities mean equal values when neither SAPISID contains the separator. */
  lemma IdentityDetermines(c: string, c': string)
    requires '|' !in ValueOf(c, SAPISID) && '|' !in ValueOf(c', SAPISID)
    ensures CookieIdentity(c) == CookieIdentity(c')
       <==> ValueOf(c, SAPISID) == ValueOf(c', SAPISID) && ValueOf(c, PSID) == ValueOf(c', PSID)
  {
    hide ValueOf;
    var s := CookieIdentity(c);
    if s == CookieIdentity(c') {
      FirstSeparator(ValueOf(c, SAPISID), ValueOf(c, PSID), s);
      FirstSeparator(ValueOf(c', SAPISID), ValueOf(c', PSID), s);
    }
  }

  lemma SplitAt(s: string, a: string, b: string)
    requires s == a + "|" + b
    ensures |a| < |s| && s[|a|] == '|' && s[..|a|] == a && s[|a| + 1..] == b
  {
  }

  /** As strings, an identity can be cut in one way only exactly when no value has the separator. */
  lemma OneSplitIff(a: string, b: string)
    ensures (forall a', b' :: a' + "|" + b' == a + "|" + b ==> a' == a && b' == b) <==> '|' !in a && '|' !in b
  {
    var s := a + "|" + b;
    if '|' !in a && '|' !in b {
      forall a', b' | a' + "|" + b' == s
        ensures a' == a && b' == b
      {
        SplitAt(s, a, b);
        SplitAt(s, a', b');
        OnlySeparator(a, b);
      }
    } else {
      var i := OtherSeparator(a, b);
      assert s[..i] + "|" + s[i + 1..] == s && |s[..i]| != |a|;
    }
  }

  lemma OnlySeparator(a: string, b: string)
    requires '|' !in a && '|' !in b
    ensures var s := a + "|" + b; forall i :: 0 <= i < |s| && s[i] == '|' ==> i == |a|
  {
    var s := a + "|" + b;
    forall i | 0 <= i < |s| && i != |a|
      ensures s[i] in a || s[i] in b
    {
      if i < |a| { assert s[i] == a[i]; } else { assert s[i] == b[i - |a| - 1]; }
    }
  }

  lemma OtherSeparator(a: string, b: string) returns (i: int)
    requires '|' in a || '|' in b
    ensures var s := a + "|" + b; 0 <= i < |s| && s[i] == '|' && i != |a|
  {
    if '|' in a {
      i :| 0 <= i < |a| && a[i] == '|';
    } else {
      var j :| 0 <= j < |b| && b[j] == '|';
      i := |a| + 1 + j;
    }
  }

  /** What can be the value of a parsed pair. */
  ghost predicate CleanValue(v: string) {
    ';' !in v && (v != "" ==> !IsSpace(v[|v| - 1]))
  }

  lemma ValueIsClean(cookie: string, name: string)
    ensures CleanValue(ValueOf(cookie, name))
  {
    hide Pairs, Last, IsSpace;
    PairsAreClean(cookie);
    var ps := Pairs(cookie);
    var i := FindLast(ps, name);
    LastIs(ps, name, i);
    if i >= 0 { assert Clean(ps[i]); }
  }

  lemma NamesAreClean(v: string)
    requires CleanValue(v)
    ensures Clean(Pair(SAPISID, v)) && Clean(Pair(PSID, v)) && SAPISID != PSID
  {
    assert |SAPISID| == 7 && |PSID| == 14;
  }

  lemma LastOfTwo(p: Pair, q: Pair)
    requires p.name != q.name
    ensures Last([p, q], p.name) == Some(p.value) && Last([p, q], q.name) == Some(q.value)
  {
    assert [p, q][..1] == [p];
    assert Last([p], p.name) == Some(p.value);
  }

  /** The cookie with just the two values, and its identity. */
  function TwoValues(a: string, b: string): string {
    Print([Pair(SAPISID, a), Pair(PSID, b)])
  }

  lemma IdentityOfTwo(a: string, b: string)
    requires CleanValue(a) && CleanValue(b)
    ensures ValueOf(TwoValues(a, b), SAPISID) == a && ValueOf(TwoValues(a, b), PSID) == b
    ensures CookieIdentity(TwoValues(a, b)) == a + "|" + b
  {
    hide Pairs, Print, Last, Clean;
    var p, q := Pair(SAPISID, a), Pair(PSID, b);
    NamesAreClean(a);
    NamesAreClean(b);
    PrintThenParse([p, q]);
    LastOfTwo(p, q);
  }

  /** Every separator but the one that joins the two values stands after white space. */
  ghost predicate Pinned(a: string, b: string) {
    var s := a + "|" + b;
    forall i :: 0 <= i < |s| && s[i] == '|' && i != |a| ==> i > 0 && IsSpace(s[i - 1])
  }

  /** Exactly when an identity belongs to one account only: when no separator in the values could
      be the one that joins two values of another cookie. */
  lemma IdentityDeterminesIff(c: string)
    ensures (forall c' :: CookieIdentity(c') == CookieIdentity(c) ==>
               ValueOf(c', SAPISID) == ValueOf(c, SAPISID) && ValueOf(c', PSID) == ValueOf(c, PSID))
       <==> Pinned(ValueOf(c, SAPISID), ValueOf(c, PSID))
  {
    hide ValueOf, Pinned, CleanValue, TwoValues, IsSpace;
    var a, b := ValueOf(c, SAPISID), ValueOf(c, PSID);
    ValueIsClean(c, SAPISID);
    ValueIsClean(c, PSID);
    if Pinned(a, b) {
      forall c' | CookieIdentity(c') == CookieIdentity(c)
        ensures ValueOf(c', SAPISID) == a && ValueOf(c', PSID) == b
      {
        ValueIsClean(c', SAPISID);
        PinnedSplits(a, b, ValueOf(c', SAPISID), ValueOf(c', PSID));
      }
    } else {
      var a', b' := OtherSplit(a, b);
      IdentityOfTwo(a', b');
    }
  }

  lemma PinnedSplits(a: string, b: string, a': string, b': string)
    requires Pinned(a, b) && CleanValue(a') && a' + "|" + b' == a + "|" + b
    ensures a' == a && b' == b
  {
    hide IsSpace;
    SplitAt(a + "|" + b, a', b');
    SplitAt(a + "|" + b, a, b);
  }

  /** Another way to cut the identity in two values that a cookie can have. */
  lemma OtherSplit(a: string, b: string) returns (a': string, b': string)
    requires !Pinned(a, b) && CleanValue(a) && CleanValue(b)
    ensures CleanValue(a') && CleanValue(b') && a' + "|" + b' == a + "|" + b && a' != a
  {
    hide IsSpace;
    BarIsNoSpace();
    var s := a + "|" + b;
    assert ';' !in s && !IsSpace(s[|s| - 1]) by { JoinIsClean(a, b); }
    var i :| 0 <= i < |s| && s[i] == '|' && i != |a| && !(i > 0 && IsSpace(s[i - 1]));
    a', b' := s[..i], s[i + 1..];
    assert a' + "|" + b' == s;
    assert forall x :: x in a' || x in b' ==> x in s;
    assert b' != "" ==> b'[|b'| - 1] == s[|s| - 1];
  }

  lemma JoinIsClean(a: string, b: string)
    requires CleanValue(a) && CleanValue(b)
    ensures var s := a + "|" + b; ';' !in s && !IsSpace(s[|s| - 1])
  {
    hide IsSpace;
    BarIsNoSpace();
    var s := a + "|" + b;
    assert s[|s| - 1] == if b == "" then '|' else b[|b| - 1];
  }

  lemma BarIsNoSpace()
    ensures !IsSpace('|')
  {
  }

  /** Two cookies of different accounts that the guard takes for one. */
  lemma SeparatorConfusesIdentity()
    ensures var c, c' := TwoValues("a|b", "c"), TwoValues("a", "b|c");
            CookieIdentity(c) == CookieIdentity(c') && ValueOf(c, SAPISID) != ValueOf(c', SAPISID)
  {
    hide CookieIdentity, ValueOf, TwoValues;
    IdentityOfTwo("a|b", "c");
    IdentityOfTwo("a", "b|c");
    assert "a|b" + "|" + "c" == "a|b|c";
    assert "a" + "|" + "b|c" == "a|b|c";
    assert |"a|b"| == 3 && |"a"| == 1;
  }
}
