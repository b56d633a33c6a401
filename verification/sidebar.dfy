/** The session list of the sidebar: the summaries fetched from the backend,
    narrowed by the search box to those whose title contains the query, ignoring
    the case of ASCII letters. */
module Sidebar {
  import opened JsString
  import opened Sessions

  /** `s.title.toLowerCase().includes(query.toLowerCase())` */
  predicate Matches(query: string, s: Summary) {
    Includes(ToLower(s.title), ToLower(query))
  }

  /** `sessions.filter(...)`: the matching summaries, in the order fetched. */
  function FilterSessions(sessions: seq<Summary>, query: string): (r: seq<Summary>)
    ensures |r| <= |sessions|
    ensures forall i :: 0 <= i < |r| ==> r[i] in sessions && Matches(query, r[i])
  {
    if sessions == [] then []
    else
      var rest := FilterSessions(sessions[1..], query);
      if Matches(query, sessions[0]) then [sessions[0]] + rest else rest
  }

  /** `a` is `b` with some elements left out and the rest in their order. */
  predicate IsSublist<T(==)>(a: seq<T>, b: seq<T>)
    decreases |b|
  {
    if a == [] then true
    else if b == [] then false
    else if a[0] == b[0] then IsSublist(a[1..], b[1..])
    else IsSublist(a, b[1..])
  }

  /** A sub-list of the tail is a sub-list of the whole. */
  lemma {:induction false} SublistOfTail<T>(a: seq<T>, b: seq<T>)
    requires b != [] && IsSublist(a, b[1..])
    ensures IsSublist(a, b)
    decreases |b|, 0
  {
    if a != [] && a[0] == b[0] {
      SublistDropHead(a, b[1..]);
    }
  }

  /** Leaving out the first element of a sub-list keeps it a sub-list. */
  lemma {:induction false} SublistDropHead<T>(a: seq<T>, b: seq<T>)
    requires a != [] && IsSublist(a, b)
    ensures IsSublist(a[1..], b)
    decreases |b|, 1
  {
    if a[0] == b[0] {
      if b[1..] != [] || a[1..] != [] {
        SublistOfTail(a[1..], b);
      }
    } else {
      SublistDropHead(a, b[1..]);
      SublistOfTail(a[1..], b);
    }
  }

  /** The filtered list is an order-preserving sub-list of the fetched one. */
  lemma {:induction false} FilterIsSublist(sessions: seq<Summary>, query: string)
    ensures IsSublist(FilterSessions(sessions, query), sessions)
  {
    if sessions != [] {
      var rest := FilterSessions(sessions[1..], query);
      FilterIsSublist(sessions[1..], query);
      if Matches(query, sessions[0]) {
        assert ([sessions[0]] + rest)[1..] == rest;
      } else {
        SublistOfTail(rest, sessions);
      }
    }
  }

  /** Every summary is kept exactly as often as it is fetched when it matches, and
      never when it does not: the filter drops no match and keeps no other. */
  lemma {:induction false} FilterCounts(sessions: seq<Summary>, query: string, x: Summary)
    ensures multiset(FilterSessions(sessions, query))[x] ==
      if Matches(query, x) then multiset(sessions)[x] else 0
  {
    if sessions != [] {
      var rest := FilterSessions(sessions[1..], query);
      FilterCounts(sessions[1..], query, x);
      assert sessions == [sessions[0]] + sessions[1..];
      assert multiset(sessions) == multiset{sessions[0]} + multiset(sessions[1..]);
      if Matches(query, sessions[0]) {
        assert FilterSessions(sessions, query) == [sessions[0]] + rest;
        assert multiset([sessions[0]] + rest) == multiset{sessions[0]} + multiset(rest);
      } else {
        assert FilterSessions(sessions, query) == rest;
      }
    }
  }

  /** A summary is kept if and only if it is fetched and its title matches. */
  lemma FilterKeepsExactlyMatches(sessions: seq<Summary>, query: string, x: Summary)
    ensures x in FilterSessions(sessions, query) <==> x in sessions && Matches(query, x)
  {
    FilterCounts(sessions, query, x);
  }

  /** An empty search box shows every session. */
  lemma {:induction false} EmptyQueryKeepsAll(sessions: seq<Summary>)
    ensures FilterSessions(sessions, "") == sessions
  {
    if sessions != [] {
      IncludesEmpty(ToLower(sessions[0].title));
      EmptyQueryKeepsAll(sessions[1..]);
    }
  }

  /** Filtering the filtered list by the same query changes nothing. */
  lemma {:induction false} FilterIdempotent(sessions: seq<Summary>, query: string)
    ensures FilterSessions(FilterSessions(sessions, query), query) == FilterSessions(sessions, query)
  {
    if sessions != [] {
      var rest := FilterSessions(sessions[1..], query);
      FilterIdempotent(sessions[1..], query);
      if Matches(query, sessions[0]) {
        assert ([sessions[0]] + rest)[1..] == rest;
      }
    }
  }

  /** Lower-casing is idempotent. */
  lemma ToLowerIdempotent(s: string)
    ensures ToLower(ToLower(s)) == ToLower(s)
  {
  }

  /** The query's own case does not matter: a query and its lower-case form keep the
      same sessions. */
  lemma {:induction false} FilterIgnoresQueryCase(sessions: seq<Summary>, query: string)
    ensures FilterSessions(sessions, ToLower(query)) == FilterSessions(sessions, query)
  {
    ToLowerIdempotent(query);
    if sessions != [] {
      FilterIgnoresQueryCase(sessions[1..], query);
    }
  }

  /** The head of a newest-first list is not older than anything the filter keeps
      from its tail. */
  lemma HeadNotOlderThanKept(sessions: seq<Summary>, query: string, x: Summary)
    requires NewestFirst(sessions) && sessions != []
    requires x in FilterSessions(sessions[1..], query)
    ensures !Less(sessions[0].createdAt, x.createdAt)
  {
    var k :| 0 <= k < |sessions[1..]| && sessions[1..][k] == x;
    assert sessions[k + 1] == x;
  }

  /** A summary not older than anything in a newest-first list can go in front of it. */
  lemma ConsNewestFirst(h: Summary, rest: seq<Summary>)
    requires NewestFirst(rest)
    requires forall j :: 0 <= j < |rest| ==> !Less(h.createdAt, rest[j].createdAt)
    ensures NewestFirst([h] + rest)
  {
    var r := [h] + rest;
    forall i, j | 0 <= i < j < |r| ensures !Less(r[i].createdAt, r[j].createdAt) {
      assert r[j] == rest[j - 1];
      if i > 0 {
        assert r[i] == rest[i - 1];
      }
    }
  }

  /** The backend's newest-first order survives the filter. */
  lemma {:induction false} FilterKeepsNewestFirst(sessions: seq<Summary>, query: string)
    requires NewestFirst(sessions)
    ensures NewestFirst(FilterSessions(sessions, query))
  {
    if sessions != [] {
      var rest := FilterSessions(sessions[1..], query);
      assert NewestFirst(sessions[1..]);
      FilterKeepsNewestFirst(sessions[1..], query);
      if Matches(query, sessions[0]) {
        forall j | 0 <= j < |rest| ensures !Less(sessions[0].createdAt, rest[j].createdAt) {
          HeadNotOlderThanKept(sessions, query, rest[j]);
        }
        ConsNewestFirst(sessions[0], rest);
      }
    }
  }
}
