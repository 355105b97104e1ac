/**
 * The identifier resolver `IdNameMap`: a map from numeric ids to display
 * names that resolves a user-typed query either as an exact id or as a
 * case-insensitive part of a name, and turns the matches into a reply.
 *
 * A HashMap has no defined iteration order; the model fixes one as a
 * parameter `order` that enumerates every key exactly once.
 */
module Directory {
  import opened Wrappers
  import opened Text

  type IdNameMap = map<u64, string>

  /** One (id, name) pair as `search` returns it. */
  type Entry = (u64, string)

  /** At most this many candidates are listed in an ambiguity report. */
  const MAX_CANDIDATES: nat := 5

  /** `order` enumerates the keys of `m`, each exactly once. */
  ghost predicate IsEnumeration(m: IdNameMap, order: seq<u64>)
  {
    && (forall i, j :: 0 <= i < j < |order| ==> order[i] != order[j])
    && (forall k :: k in m <==> k in order)
  }

  predicate IsEntryOf(m: IdNameMap, p: Entry)
  {
    p.0 in m && m[p.0] == p.1
  }

  predicate DistinctIds(r: seq<Entry>)
  {
    forall i, j :: 0 <= i < j < |r| ==> r[i].0 != r[j].0
  }

  /** The name contains the query, ignoring case. */
  predicate NameMatches(name: string, query: string)
  {
    Contains(Lower(name), Lower(query))
  }

  /** The position of the first `k` in `order`, or `|order|` when there is none. */
  function FirstIndex(order: seq<u64>, k: u64): nat
  {
    if order == [] || order[0] == k then 0 else 1 + FirstIndex(order[1..], k)
  }

  /** The ids of `r` come in the same relative order as in `order`. */
  predicate InOrderOf(r: seq<Entry>, order: seq<u64>)
  {
    forall i, j :: 0 <= i < j < |r| ==> FirstIndex(order, r[i].0) < FirstIndex(order, r[j].0)
  }

  /** The entries, in enumeration order, whose names match `query`. */
  function FilterByName(m: IdNameMap, order: seq<u64>, query: string): (r: seq<Entry>)
    requires forall k :: k in order ==> k in m
    ensures |r| <= |order|
    ensures forall p :: p in r <==> p.0 in order && IsEntryOf(m, p) && NameMatches(p.1, query)
    ensures (forall i, j :: 0 <= i < j < |order| ==> order[i] != order[j]) ==> DistinctIds(r)
  {
    if order == [] then []
    else
      var rest := FilterByName(m, order[1..], query);
      var k := order[0];
      if NameMatches(m[k], query) then
        assert forall p :: p in rest ==> p.0 in order[1..];
        [(k, m[k])] + rest
      else rest
  }

  /** In an enumeration without repeats, the first id does not occur again. */
  lemma HeadNotInTail(order: seq<u64>)
    requires order != []
    requires forall i, j :: 0 <= i < j < |order| ==> order[i] != order[j]
    ensures forall x :: x in order[1..] ==> x != order[0]
  {
    forall x | x in order[1..] ensures x != order[0] {
      var i :| 0 <= i < |order[1..]| && order[1..][i] == x;
      assert order[i + 1] == x;
    }
  }

  /** Putting the head of the enumeration in front of matches from its tail keeps them in order. */
  lemma ConsInOrder(order: seq<u64>, e: Entry, rest: seq<Entry>)
    requires order != [] && e.0 == order[0]
    requires InOrderOf(rest, order[1..])
    requires forall p :: p in rest ==> p.0 != order[0]
    ensures InOrderOf(rest, order) && InOrderOf([e] + rest, order)
  {
    var r := [e] + rest;
    forall i, j | 0 <= i < j < |r|
      ensures FirstIndex(order, r[i].0) < FirstIndex(order, r[j].0)
    {
      assert r[j] == rest[j - 1] && r[j] in rest;
      if i > 0 {
        assert r[i] == rest[i - 1] && r[i] in rest;
      }
    }
    forall i, j | 0 <= i < j < |rest|
      ensures FirstIndex(order, rest[i].0) < FirstIndex(order, rest[j].0)
    {
      assert rest[i] in rest && rest[j] in rest;
    }
  }

  /** For an enumeration without repeats, the matches keep the enumeration's order. */
  lemma {:induction false} FilterByNameInOrder(m: IdNameMap, order: seq<u64>, query: string)
    requires forall k :: k in order ==> k in m
    requires forall i, j :: 0 <= i < j < |order| ==> order[i] != order[j]
    ensures InOrderOf(FilterByName(m, order, query), order)
  {
    if order != [] {
      var rest := FilterByName(m, order[1..], query);
      var k := order[0];
      FilterByNameInOrder(m, order[1..], query);
      HeadNotInTail(order);
      assert forall p :: p in rest ==> p.0 in order[1..];
      ConsInOrder(order, (k, m[k]), rest);
    }
  }

  /**
   * `IdNameMap::search`. A query that parses as a u64 is an exact id lookup
   * and never falls through to name matching; any other query returns every
   * entry whose name contains it, ignoring case.
   */
  function Search(m: IdNameMap, order: seq<u64>, query: string): (r: seq<Entry>)
    requires IsEnumeration(m, order)
    ensures DistinctIds(r) && InOrderOf(r, order)
    ensures forall p :: p in r ==> IsEntryOf(m, p)
    ensures ParseU64(query).Some? ==>
      |r| <= 1 && forall p :: p in r <==> p.0 == ParseU64(query).value && IsEntryOf(m, p)
    ensures ParseU64(query).None? ==>
      forall p :: p in r <==> IsEntryOf(m, p) && NameMatches(p.1, query)
  {
    match ParseU64(query)
    case Some(x) => if x in m then [(x, m[x])] else []
    case None =>
      FilterByNameInOrder(m, order, query);
      FilterByName(m, order, query)
  }

  lemma {:induction false} FilterEmptyQuery(m: IdNameMap, order: seq<u64>)
    requires forall k :: k in order ==> k in m
    ensures |FilterByName(m, order, "")| == |order|
    ensures forall i :: 0 <= i < |order| ==> FilterByName(m, order, "")[i] == (order[i], m[order[i]])
  {
    if order != [] {
      FilterEmptyQuery(m, order[1..]);
      assert OccursAt(Lower(m[order[0]]), Lower(""), 0);
    }
  }

  /** The empty query is not a number, and it matches every entry, in enumeration order. */
  lemma EmptyQueryMatchesAll(m: IdNameMap, order: seq<u64>)
    requires IsEnumeration(m, order)
    ensures |Search(m, order, "")| == |order|
    ensures forall i :: 0 <= i < |order| ==> Search(m, order, "")[i] == (order[i], m[order[i]])
  {
    FilterEmptyQuery(m, order);
  }

  // ---------------------------------------------------------------------------
  // lookup
  // ---------------------------------------------------------------------------

  /** One candidate line: the id in decimal, a space, the name. */
  function Render(p: Entry): string
  {
    NatToString(p.0) + " " + p.1
  }

  function RenderAll(ps: seq<Entry>): (lines: seq<string>)
    ensures |lines| == |ps|
    ensures forall i :: 0 <= i < |ps| ==> lines[i] == Render(ps[i])
  {
    if ps == [] then [] else [Render(ps[0])] + RenderAll(ps[1..])
  }

  /** The lines listed in an ambiguity report: the first five matches, in order. */
  function Candidates(matches: seq<Entry>): (lines: seq<string>)
    ensures |lines| == if |matches| < MAX_CANDIDATES then |matches| else MAX_CANDIDATES
    ensures forall i :: 0 <= i < |lines| ==> lines[i] == Render(matches[i])
  {
    RenderAll(if |matches| < MAX_CANDIDATES then matches else matches[..MAX_CANDIDATES])
  }

  function NoMatchesMessage(query: string): string
  {
    "no matches for `" + query + "` found"
  }

  function AmbiguityReport(query: string, matches: seq<Entry>): string
  {
    "`" + query + "` is ambiguous. perhaps you meant one of these:\n"
      + "```\n" + Join(Candidates(matches), "\n") + "```"
  }

  /**
   * `IdNameMap::lookup`: no match gives a "no matches" message, exactly one
   * match gives the callback's reply for that match, several matches give an
   * ambiguity report that lists at most five of them.
   */
  function Lookup(m: IdNameMap, order: seq<u64>, query: string, c: (u64, string) -> string): (r: string)
    requires IsEnumeration(m, order)
    ensures var ms := Search(m, order, query);
      && (|ms| == 0 ==> r == NoMatchesMessage(query))
      && (|ms| == 1 ==> r == c(ms[0].0, ms[0].1) && IsEntryOf(m, ms[0]))
      && (|ms| >= 2 ==> r == AmbiguityReport(query, ms))
  {
    var matches := Search(m, order, query);
    if |matches| == 0 then NoMatchesMessage(query)
    else if |matches| == 1 then c(matches[0].0, matches[0].1)
    else AmbiguityReport(query, matches)
  }

  /** The callback decides the reply exactly when the query has one match. */
  lemma CallbackOnlyOnUniqueMatch(m: IdNameMap, order: seq<u64>, query: string, c1: (u64, string) -> string, c2: (u64, string) -> string)
    requires IsEnumeration(m, order)
    ensures |Search(m, order, query)| != 1 ==> Lookup(m, order, query, c1) == Lookup(m, order, query, c2)
    ensures |Search(m, order, query)| == 1 ==>
      var p := Search(m, order, query)[0];
      Lookup(m, order, query, c1) == c1(p.0, p.1) && Lookup(m, order, query, c2) == c2(p.0, p.1)
  {
  }

  /** Matches beyond the fifth never show up in the report. */
  lemma {:induction false} ReportIgnoresMatchesBeyondFifth(query: string, ms1: seq<Entry>, ms2: seq<Entry>)
    requires |ms1| >= MAX_CANDIDATES && |ms2| >= MAX_CANDIDATES
    requires ms1[..MAX_CANDIDATES] == ms2[..MAX_CANDIDATES]
    ensures AmbiguityReport(query, ms1) == AmbiguityReport(query, ms2)
  {
    var l1, l2 := Candidates(ms1), Candidates(ms2);
    assert forall i :: 0 <= i < MAX_CANDIDATES ==> ms1[i] == ms1[..MAX_CANDIDATES][i];
    assert forall i :: 0 <= i < MAX_CANDIDATES ==> ms2[i] == ms2[..MAX_CANDIDATES][i];
    assert l1 == l2;
  }

  /** Typing the id of a listed candidate back in resolves to exactly that candidate. */
  lemma CandidateIdResolves(m: IdNameMap, order: seq<u64>, query: string, i: nat)
    requires IsEnumeration(m, order)
    requires i < |Search(m, order, query)|
    ensures var p := Search(m, order, query)[i];
      Search(m, order, NatToString(p.0)) == [p]
  {
    var p := Search(m, order, query)[i];
    assert p in Search(m, order, query);
    U64RoundTrip(p.0);
    var r := Search(m, order, NatToString(p.0));
    assert (p.0, m[p.0]) in r;
  }
}
