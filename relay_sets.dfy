/**
 * Relay routing of a Nostr client: which relays receive an outgoing event,
 * and how a batch of subscription filters is split across relays according
 * to the authors each relay is known to serve (the "outbox model").
 *
 * The session's collaborators (relay pool, outbox tracker, explicit relay
 * list) are injected as plain values; relays are identified by their URL.
 */
module RelaySets {

  import opened Wrappers
  import opened Seqs

  type Url = string

  /** A hex-encoded public key. */
  type Author = string

  /**
   * A subscription filter. `authors` is optional and a present-but-empty
   * list is distinct from an absent one; every other criterion (kinds, ids,
   * tags, time bounds, ...) is kept as an opaque name-to-value payload.
   */
  datatype Filter = Filter(authors: Option<seq<Author>>, criteria: map<string, string>)

  /**
   * What the router reads from the session: the URLs of the relays in the
   * pool (in the pool's iteration order), the outbox tracker's write-relay
   * records by author, and the explicit relay URLs, each possibly unset.
   */
  datatype Session = Session(
    pool: Option<seq<Url>>,
    outboxTracker: Option<map<Author, set<Url>>>,
    explicitRelayUrls: Option<seq<Url>>)

  // ---------------------------------------------------------------------
  // Event router
  // ---------------------------------------------------------------------

  /** The relays an event is published to: every relay of the pool. */
  method CalculateRelaySetFromEvent(session: Session) returns (relays: set<Url>)
    ensures forall u :: u in relays <==> session.pool.Some? && u in session.pool.value
    ensures session.pool.None? ==> relays == {}
  {
    relays := {};
    if session.pool.Some? {
      var pool := session.pool.value;
      for i := 0 to |pool|
        invariant forall u :: u in relays <==> u in pool[..i]
      {
        assert pool[..i + 1] == pool[..i] + [pool[i]];
        relays := relays + {pool[i]};
      }
      assert pool[..|pool|] == pool;
    }
  }

  // ---------------------------------------------------------------------
  // Write-relay lookup
  // ---------------------------------------------------------------------

  /**
   * The write relays recorded for `author`, or `None` when there is no
   * tracker or the tracker has no record of the author.
   */
  function GetWriteRelaysFor(session: Session, author: Author): (r: Option<set<Url>>)
    ensures r.None? <==> session.outboxTracker.None? || author !in session.outboxTracker.value
    ensures r.Some? ==> r.value == session.outboxTracker.value[author]
  {
    if session.outboxTracker.None? then None
    else if author in session.outboxTracker.value then Some(session.outboxTracker.value[author])
    else None
  }

  /** The lookup yields a non-empty set: the author is routed to those relays. */
  predicate HasWriteRelays(session: Session, author: Author) {
    var w := GetWriteRelaysFor(session, author);
    w.Some? && |w.value| > 0
  }

  /** The explicit relay list; an unset list contributes nothing. */
  function ExplicitUrls(session: Session): (urls: seq<Url>) {
    if session.explicitRelayUrls.Some? then session.explicitRelayUrls.value else []
  }

  /** The relays that serve `author`: its write relays, or else every explicit relay. */
  function RelaysFor(session: Session, author: Author): (relays: set<Url>) {
    if HasWriteRelays(session, author) then GetWriteRelaysFor(session, author).value
    else set u | u in ExplicitUrls(session)
  }

  /**
   * How many times processing `author` appends it to the list of relay `u`:
   * once per write relay, or once per occurrence of `u` in the explicit list.
   */
  function Appends(session: Session, author: Author, u: Url): (n: nat) {
    if HasWriteRelays(session, author) then
      (if u in GetWriteRelaysFor(session, author).value then 1 else 0)
    else multiset(ExplicitUrls(session))[u]
  }

  /**
   * The fallback rule: an author reaches relay `u` exactly when `u` is one
   * of its write relays, or, when the lookup gives nothing or an empty set,
   * when `u` is an explicit relay.
   */
  lemma FallbackRule(session: Session, author: Author, u: Url)
    ensures Appends(session, author, u) > 0 <==> u in RelaysFor(session, author)
    ensures HasWriteRelays(session, author) <==>
      session.outboxTracker.Some? && author in session.outboxTracker.value
      && session.outboxTracker.value[author] != {}
    ensures !HasWriteRelays(session, author) ==>
      (u in RelaysFor(session, author) <==> u in ExplicitUrls(session))
    ensures HasWriteRelays(session, author) ==>
      RelaysFor(session, author) == session.outboxTracker.value[author]
  {
    if !HasWriteRelays(session, author) {
      assert u in ExplicitUrls(session) <==> multiset(ExplicitUrls(session))[u] > 0;
    }
  }

  // ---------------------------------------------------------------------
  // Specification of the filter sharder
  // ---------------------------------------------------------------------

  /** The authors a filter contributes to the batch: its list, or none when it has no `authors`. */
  function AuthorsOf(f: Filter): (authors: seq<Author>) {
    if f.authors.Some? then f.authors.value else []
  }

  /** Every author named by the filters, in order, with repetitions. */
  function AuthorsNamed(filters: seq<Filter>): (named: seq<Author>) {
    if filters == [] then []
    else AuthorsNamed(filters[..|filters| - 1]) + AuthorsOf(filters[|filters| - 1])
  }

  /** The distinct authors of the batch, in order of first appearance. */
  function AuthorUnion(filters: seq<Filter>): (union: seq<Author>) {
    Dedup(AuthorsNamed(filters))
  }

  /** The author list relay `u` accumulates when `authors` are processed in order. */
  function Served(session: Session, authors: seq<Author>, u: Url): (list: seq<Author>) {
    if authors == [] then []
    else
      var a := authors[|authors| - 1];
      Served(session, authors[..|authors| - 1], u) + Repeat(a, Appends(session, a, u))
  }

  /** Every relay that could be assigned one of `authors`. */
  function Candidates(session: Session, authors: seq<Author>): (relays: set<Url>) {
    (set u | u in ExplicitUrls(session))
    + (set a, u | a in authors && HasWriteRelays(session, a) && u in GetWriteRelaysFor(session, a).value :: u)
  }

  /** The relay-to-authors association: each relay assigned at least one author, with its list. */
  function RelayAuthors(session: Session, authors: seq<Author>): (m: map<Url, seq<Author>>) {
    map u | u in Candidates(session, authors) && Served(session, authors, u) != [] :: Served(session, authors, u)
  }

  /** The author list of `u` in `m`, or the empty list when `u` is not a key. */
  function Lookup(m: map<Url, seq<Author>>, u: Url): (list: seq<Author>) {
    if u in m then m[u] else []
  }

  /** What relay serving `authors` receives for `f`: a copy with its author list replaced, or `f` itself. */
  function Narrow(f: Filter, authors: seq<Author>): (g: Filter) {
    if f.authors.Some? then f.(authors := Some(authors)) else f
  }

  /** The filters of the batch as relay serving `authors` receives them, in order. */
  function Rewrite(filters: seq<Filter>, authors: seq<Author>): (rewritten: seq<Filter>) {
    if filters == [] then []
    else Rewrite(filters[..|filters| - 1], authors) + [Narrow(filters[|filters| - 1], authors)]
  }

  /** Every relay of `m` receives every filter, narrowed to that relay's authors. */
  function Distribute(filters: seq<Filter>, m: map<Url, seq<Author>>): (result: map<Url, seq<Filter>>) {
    map u | u in m :: Rewrite(filters, m[u])
  }

  /** The routing result: the map from relay URL to the filters that relay receives. */
  function Shard(session: Session, filters: seq<Filter>): (result: map<Url, seq<Filter>>) {
    var authors := AuthorUnion(filters);
    if |authors| > 0 then Distribute(filters, RelayAuthors(session, authors))
    else map u | u in ExplicitUrls(session) :: filters
  }

  // ---------------------------------------------------------------------
  // Filter sharder
  // ---------------------------------------------------------------------

  /** Collects the distinct authors of the batch into an insertion-ordered set. */
  method CollectAuthors(filters: seq<Filter>) returns (authors: seq<Author>)
    ensures authors == AuthorUnion(filters)
    ensures NoDuplicates(authors)
    ensures forall a :: a in authors <==> a in AuthorsNamed(filters)
  {
    authors := [];
    for i := 0 to |filters|
      invariant authors == Dedup(AuthorsNamed(filters[..i]))
    {
      AuthorsNamedSnoc(filters, i);
      if filters[i].authors.Some? {
        authors := AddAll(authors, filters[i].authors.value, AuthorsNamed(filters[..i]));
      }
    }
    assert filters[..|filters|] == filters;
    DedupMembership(AuthorsNamed(filters));
  }

  /** One more filter contributes its author list, if it has one. */
  lemma AuthorsNamedSnoc(filters: seq<Filter>, i: nat)
    requires i < |filters|
    ensures AuthorsNamed(filters[..i + 1])
      == if filters[i].authors.Some? then AuthorsNamed(filters[..i]) + filters[i].authors.value else AuthorsNamed(filters[..i])
  {
    assert filters[..i + 1][..i] == filters[..i];
    assert AuthorsNamed(filters[..i]) + [] == AuthorsNamed(filters[..i]);
  }

  /** Adds the authors of one filter, in order, to the set holding the distinct elements of `named`. */
  method AddAll(authors: seq<Author>, list: seq<Author>, ghost named: seq<Author>) returns (authors': seq<Author>)
    requires authors == Dedup(named)
    ensures authors' == Dedup(named + list)
  {
    authors' := authors;
    assert list[..0] == [] && named + [] == named;
    for j := 0 to |list|
      invariant authors' == Dedup(named + list[..j])
    {
      AddAuthorStep(named, list, j);
      if list[j] !in authors' {
        authors' := authors' + [list[j]];
      }
    }
    assert list[..|list|] == list;
  }

  /** One more element of a filter's author list is added to the set. */
  lemma AddAuthorStep(named: seq<Author>, list: seq<Author>, j: nat)
    requires j < |list|
    ensures Dedup(named + list[..j + 1])
      == if list[j] in Dedup(named + list[..j]) then Dedup(named + list[..j]) else Dedup(named + list[..j]) + [list[j]]
  {
    assert named + list[..j + 1] == (named + list[..j]) + [list[j]] by {
      assert list[..j + 1] == list[..j] + [list[j]];
    }
    DedupSnoc(named + list[..j], list[j]);
  }

  /** Relay `u` accumulates `author` once more for every append processing it makes. */
  lemma ServedSnoc(session: Session, authors: seq<Author>, author: Author, u: Url)
    ensures Served(session, authors + [author], u) == Served(session, authors, u) + Repeat(author, Appends(session, author, u))
  {
    assert (authors + [author])[..|authors|] == authors;
  }

  /** A relay holds an author exactly when one of `authors` is appended to it. */
  lemma {:induction false} ServedMembership(session: Session, authors: seq<Author>, u: Url, a: Author)
    ensures a in Served(session, authors, u) <==> a in authors && Appends(session, a, u) > 0
  {
    if authors != [] {
      var init, last := authors[..|authors| - 1], authors[|authors| - 1];
      assert authors == init + [last];
      ServedMembership(session, init, u, a);
      var rep := Repeat(last, Appends(session, last, u));
      assert a in rep <==> Appends(session, last, u) > 0 && a == last by {
        if a in rep {
          var k :| 0 <= k < |rep| && rep[k] == a;
        }
        if Appends(session, last, u) > 0 && a == last {
          assert rep[0] == a;
        }
      }
    }
  }

  /** A relay with a non-empty list is one of the candidates. */
  lemma ServedInCandidates(session: Session, authors: seq<Author>, u: Url)
    requires Served(session, authors, u) != []
    ensures u in Candidates(session, authors)
  {
    var a := Served(session, authors, u)[0];
    ServedMembership(session, authors, u, a);
    if HasWriteRelays(session, a) {
      assert u in GetWriteRelaysFor(session, a).value;
    } else {
      assert u in ExplicitUrls(session);
    }
  }

  /**
   * Appends `author` to the list of every relay in `relays`, starting a list
   * for a relay not yet in `m`.
   */
  method AppendToRelays(m: map<Url, seq<Author>>, author: Author, relays: set<Url>)
    returns (m': map<Url, seq<Author>>)
    ensures forall u :: Lookup(m', u) == Lookup(m, u) + (if u in relays then [author] else [])
    ensures m'.Keys == m.Keys + relays
  {
    m' := m;
    var pending := relays;
    while pending != {}
      invariant pending <= relays
      invariant forall u :: Lookup(m', u) == Lookup(m, u) + (if u in relays - pending then [author] else [])
      invariant m'.Keys == m.Keys + (relays - pending)
      decreases pending
    {
      var relay :| relay in pending;
      m' := m'[relay := Lookup(m', relay) + [author]];
      pending := pending - {relay};
    }
  }

  /**
   * Appends `author` to the list of each relay of `relays` in turn, so once
   * per occurrence of a relay in the list.
   */
  method AppendToEach(m: map<Url, seq<Author>>, author: Author, relays: seq<Url>)
    returns (m': map<Url, seq<Author>>)
    ensures forall u :: Lookup(m', u) == Lookup(m, u) + Repeat(author, multiset(relays)[u])
    ensures forall u :: u in m' <==> u in m || u in relays
  {
    m' := m;
    for j := 0 to |relays|
      invariant forall u :: Lookup(m', u) == Lookup(m, u) + Repeat(author, multiset(relays[..j])[u])
      invariant forall u :: u in m' <==> u in m || u in relays[..j]
    {
      var relay := relays[j];
      assert relays[..j + 1] == relays[..j] + [relay];
      ghost var before := m';
      m' := m'[relay := Lookup(m', relay) + [author]];
      forall u ensures Lookup(m', u) == Lookup(m, u) + Repeat(author, multiset(relays[..j + 1])[u]) {
        AppendOnceStep(before, m', m, author, relays[..j], relay, u);
      }
    }
    assert relays[..|relays|] == relays;
  }

  /** One more append at `relay` adds one more copy of `author` there and nothing elsewhere. */
  lemma AppendOnceStep(before: map<Url, seq<Author>>, after: map<Url, seq<Author>>, m: map<Url, seq<Author>>,
                       author: Author, done: seq<Url>, relay: Url, u: Url)
    requires after == before[relay := Lookup(before, relay) + [author]]
    requires Lookup(before, u) == Lookup(m, u) + Repeat(author, multiset(done)[u])
    ensures Lookup(after, u) == Lookup(m, u) + Repeat(author, multiset(done + [relay])[u])
  {
    var n := multiset(done)[u];
    if u == relay {
      assert multiset(done + [relay])[u] == n + 1;
      assert Repeat(author, n + 1) == Repeat(author, n) + [author];
    } else {
      assert multiset(done + [relay])[u] == n;
    }
  }

  /** An author with write relays is appended once to each of them and to no other relay. */
  lemma WriteRelaysAppendOnce(session: Session, author: Author)
    requires HasWriteRelays(session, author)
    ensures forall u ::
      Repeat(author, Appends(session, author, u)) == if u in GetWriteRelaysFor(session, author).value then [author] else []
  {
    assert Repeat(author, 1) == [author];
  }

  /** Processing one more author extends every relay's list by that author's appends. */
  lemma AppendAuthorStep(session: Session, before: seq<Author>, author: Author,
                         m: map<Url, seq<Author>>, m': map<Url, seq<Author>>)
    requires forall u :: Lookup(m, u) == Served(session, before, u)
    requires forall u :: u in m ==> m[u] != []
    requires forall u :: Lookup(m', u) == Lookup(m, u) + Repeat(author, Appends(session, author, u))
    requires forall u :: u in m' ==> u in m || Appends(session, author, u) > 0
    ensures forall u :: Lookup(m', u) == Served(session, before + [author], u)
    ensures forall u :: u in m' ==> m'[u] != []
  {
    forall u ensures Lookup(m', u) == Served(session, before + [author], u) {
      ServedSnoc(session, before, author, u);
    }
    forall u | u in m' ensures m'[u] != [] {
      assert Lookup(m', u) == m'[u];
      if u in m {
        assert Lookup(m, u) == m[u];
      }
    }
  }

  /**
   * Asks the outbox tracker for the write relays of `author`. `looked` is
   * the log of this one lookup: the author it asked about.
   */
  method LookUpWriteRelays(session: Session, author: Author)
    returns (w: Option<set<Url>>, ghost looked: seq<Author>)
    ensures w.None? <==> session.outboxTracker.None? || author !in session.outboxTracker.value
    ensures w.Some? ==> w.value == session.outboxTracker.value[author]
    ensures looked == [author]
  {
    w := GetWriteRelaysFor(session, author);
    looked := [author];
  }

  /**
   * Looks up the write relays of `author` and appends it to the list of each
   * of them or, when it has none, of each explicit relay. `looked` logs the
   * lookups made: exactly one, of `author`.
   */
  method AddAuthor(session: Session, m: map<Url, seq<Author>>, author: Author)
    returns (m': map<Url, seq<Author>>, ghost looked: seq<Author>)
    ensures forall u :: Lookup(m', u) == Lookup(m, u) + Repeat(author, Appends(session, author, u))
    ensures forall u :: u in m' ==> u in m || Appends(session, author, u) > 0
    ensures looked == [author]
  {
    var userWriteRelays;
    userWriteRelays, looked := LookUpWriteRelays(session, author);
    assert userWriteRelays == GetWriteRelaysFor(session, author);
    if userWriteRelays.Some? && |userWriteRelays.value| > 0 {
      m' := AppendToRelays(m, author, userWriteRelays.value);
      WriteRelaysAppendOnce(session, author);
    } else {
      var explicit := ExplicitUrls(session);
      m' := AppendToEach(m, author, explicit);
      forall u | u in m' && u !in m ensures Appends(session, author, u) > 0 {
        assert u in explicit;
        assert multiset(explicit)[u] > 0;
      }
    }
  }

  /**
   * Builds the relay-to-authors association by looking up each author once
   * and appending it to the list of every relay that serves it. `lookups`
   * joins the lookup logs, in order: the authors whose write relays were
   * looked up.
   */
  method BuildRelayAuthors(session: Session, authors: seq<Author>)
    returns (m: map<Url, seq<Author>>, ghost lookups: seq<Author>)
    ensures m == RelayAuthors(session, authors)
    ensures lookups == authors
  {
    m := map[];
    lookups := [];
    for i := 0 to |authors|
      invariant lookups == authors[..i]
      invariant forall u :: Lookup(m, u) == Served(session, authors[..i], u)
      invariant forall u :: u in m ==> m[u] != []
    {
      var author := authors[i];
      assert authors[..i + 1] == authors[..i] + [author];
      ghost var before := authors[..i];
      ghost var previous := m;
      ghost var looked;
      m, looked := AddAuthor(session, m, author);
      lookups := lookups + looked;
      AppendAuthorStep(session, before, author, previous, m);
    }
    assert authors[..|authors|] == authors;
    forall u | u in m ensures u in Candidates(session, authors) {
      ServedInCandidates(session, authors, u);
    }
  }

  /**
   * Appends one filter to the list of every relay of `m`: an author-bearing
   * filter as a copy whose authors are that relay's list, any other one as it is.
   */
  method AppendFilter(result: map<Url, seq<Filter>>, m: map<Url, seq<Author>>, filter: Filter)
    returns (result': map<Url, seq<Filter>>)
    requires result.Keys == m.Keys
    ensures result'.Keys == m.Keys
    ensures forall u :: u in result' ==> result'[u] == result[u] + [Narrow(filter, m[u])]
  {
    result' := result;
    var pending := m.Keys;
    if filter.authors.Some? {
      while pending != {}
        invariant pending <= m.Keys
        invariant result'.Keys == m.Keys
        invariant forall u :: u in result' ==>
                    result'[u] == result[u] + (if u in pending then [] else [filter.(authors := Some(m[u]))])
        decreases pending
      {
        var relayUrl :| relayUrl in pending;
        result' := result'[relayUrl := result'[relayUrl] + [filter.(authors := Some(m[relayUrl]))]];
        pending := pending - {relayUrl};
      }
    } else {
      while pending != {}
        invariant pending <= m.Keys
        invariant result'.Keys == m.Keys
        invariant forall u :: u in result' ==> result'[u] == result[u] + (if u in pending then [] else [filter])
        decreases pending
      {
        var relayUrl :| relayUrl in pending;
        result' := result'[relayUrl := result'[relayUrl] + [filter]];
        pending := pending - {relayUrl};
      }
    }
  }

  /**
   * Builds the result of the sharder: every relay of `m` starts with an
   * empty list and then receives each filter in turn.
   */
  method DistributeFilters(filters: seq<Filter>, m: map<Url, seq<Author>>)
    returns (result: map<Url, seq<Filter>>)
    ensures result == Distribute(filters, m)
  {
    result := map[];
    var keys := m.Keys;
    while keys != {}
      invariant keys <= m.Keys
      invariant result.Keys == m.Keys - keys
      invariant forall u :: u in result ==> result[u] == []
      decreases keys
    {
      var relayUrl :| relayUrl in keys;
      result := result[relayUrl := []];
      keys := keys - {relayUrl};
    }
    for i := 0 to |filters|
      invariant result.Keys == m.Keys
      invariant forall u :: u in result ==> result[u] == Rewrite(filters[..i], m[u])
    {
      assert filters[..i + 1][..i] == filters[..i];
      result := AppendFilter(result, m, filters[i]);
    }
    assert filters[..|filters|] == filters;
  }

  /**
   * Splits a batch of filters across relays. `lookups` records the authors
   * whose write relays were looked up: each distinct author of the batch,
   * exactly once.
   */
  method CalculateRelaySetsFromFilter(session: Session, filters: seq<Filter>)
    returns (result: map<Url, seq<Filter>>, ghost lookups: seq<Author>)
    ensures result == Shard(session, filters)
    ensures NoDuplicates(lookups)
    ensures forall a :: a in lookups <==> a in AuthorsNamed(filters)
  {
    var authors := CollectAuthors(filters);
    if |authors| > 0 {
      var authorToRelaysMap;
      authorToRelaysMap, lookups := BuildRelayAuthors(session, authors);
      result := DistributeFilters(filters, authorToRelaysMap);
    } else {
      lookups := [];
      result := map[];
      var explicit := ExplicitUrls(session);
      for j := 0 to |explicit|
        invariant forall u :: u in result <==> u in explicit[..j]
        invariant forall u :: u in result ==> result[u] == filters
      {
        assert explicit[..j + 1] == explicit[..j] + [explicit[j]];
        result := result[explicit[j] := filters];
      }
      assert explicit[..|explicit|] == explicit;
    }
  }

  /** The batch entry point delegates to the sharder. */
  method CalculateRelaySetsFromFilters(session: Session, filters: seq<Filter>)
    returns (result: map<Url, seq<Filter>>)
    ensures result == Shard(session, filters)
  {
    ghost var lookups;
    result, lookups := CalculateRelaySetsFromFilter(session, filters);
  }
}

/** Properties of the routing result. */
module RelaySetProperties {

  import opened Wrappers
  import opened Seqs
  import opened RelaySets

  /** `f` carries an author list that names `a`. */
  predicate Names(f: Filter, a: Author) {
    f.authors.Some? && a in f.authors.value
  }

  /** The authors of the batch are exactly those some filter names. */
  lemma {:induction false} AuthorsNamedMembership(filters: seq<Filter>, a: Author)
    ensures a in AuthorsNamed(filters) <==> exists i :: 0 <= i < |filters| && Names(filters[i], a)
  {
    if filters != [] {
      var init := filters[..|filters| - 1];
      AuthorsNamedMembership(init, a);
      if exists i :: 0 <= i < |filters| && Names(filters[i], a) {
        var i :| 0 <= i < |filters| && Names(filters[i], a);
        if i < |init| {
          assert Names(init[i], a);
        }
      }
      if exists i :: 0 <= i < |init| && Names(init[i], a) {
        var i :| 0 <= i < |init| && Names(init[i], a);
        assert Names(filters[i], a);
      }
    }
  }

  /** With no author named anywhere, the author union is empty. */
  lemma {:induction false} NoAuthorsNamed(filters: seq<Filter>)
    requires forall i :: 0 <= i < |filters| && filters[i].authors.Some? ==> filters[i].authors.value == []
    ensures AuthorsNamed(filters) == []
    ensures AuthorUnion(filters) == []
  {
    if filters != [] {
      NoAuthorsNamed(filters[..|filters| - 1]);
    }
  }

  /**
   * No authors in the batch: every explicit relay receives the batch exactly
   * as given, and no other relay receives anything.
   */
  lemma NoAuthorsBroadcast(session: Session, filters: seq<Filter>)
    requires forall i :: 0 <= i < |filters| && filters[i].authors.Some? ==> filters[i].authors.value == []
    ensures forall u :: u in Shard(session, filters) <==> u in ExplicitUrls(session)
    ensures forall u :: u in Shard(session, filters) ==> Shard(session, filters)[u] == filters
    ensures session.explicitRelayUrls.None? ==> Shard(session, filters) == map[]
  {
    NoAuthorsNamed(filters);
  }

  /** A relay holds a non-empty list exactly when some author is appended to it. */
  lemma ServedNonEmpty(session: Session, authors: seq<Author>, u: Url)
    ensures Served(session, authors, u) != [] <==> exists a :: a in authors && u in RelaysFor(session, a)
  {
    if Served(session, authors, u) != [] {
      var a := Served(session, authors, u)[0];
      ServedMembership(session, authors, u, a);
      FallbackRule(session, a, u);
    }
    if exists a :: a in authors && u in RelaysFor(session, a) {
      var a :| a in authors && u in RelaysFor(session, a);
      FallbackRule(session, a, u);
      ServedMembership(session, authors, u, a);
    }
  }

  /**
   * Author scoping: relay `u`'s author list holds exactly the authors of the
   * batch that `u` serves.
   */
  lemma RelayAuthorsMembership(session: Session, filters: seq<Filter>, u: Url, a: Author)
    ensures a in Lookup(RelayAuthors(session, AuthorUnion(filters)), u)
            <==> a in AuthorsNamed(filters) && u in RelaysFor(session, a)
  {
    var union := AuthorUnion(filters);
    DedupMembership(AuthorsNamed(filters));
    ServedMembership(session, union, u, a);
    FallbackRule(session, a, u);
    if Served(session, union, u) != [] {
      ServedInCandidates(session, union, u);
    }
  }

  /**
   * Result keys: when some filter names an author, the relays in the result
   * are exactly those that serve at least one author of the batch.
   */
  lemma ShardKeys(session: Session, filters: seq<Filter>, u: Url)
    requires AuthorsNamed(filters) != []
    ensures u in Shard(session, filters) <==> exists a :: a in AuthorsNamed(filters) && u in RelaysFor(session, a)
  {
    var named := AuthorsNamed(filters);
    var union := AuthorUnion(filters);
    DedupMembership(named);
    assert named[0] in union;
    ServedNonEmpty(session, union, u);
    if Served(session, union, u) != [] {
      ServedInCandidates(session, union, u);
    }
  }

  /**
   * When no author of the batch has write relays and there are no explicit
   * relays, no relay receives anything.
   */
  lemma ShardEmptyWithoutRelays(session: Session, filters: seq<Filter>)
    requires AuthorsNamed(filters) != []
    requires forall a :: a in AuthorsNamed(filters) ==> !HasWriteRelays(session, a)
    requires ExplicitUrls(session) == []
    ensures Shard(session, filters) == map[]
  {
    forall a | a in AuthorsNamed(filters) ensures RelaysFor(session, a) == {} {
    }
    forall u ensures u !in Shard(session, filters) {
      ShardKeys(session, filters, u);
    }
    assert Shard(session, filters).Keys == {};
  }

  /** The rewritten batch has one entry per filter, the i-th derived from the i-th filter. */
  lemma {:induction false} RewriteAt(filters: seq<Filter>, authors: seq<Author>)
    ensures |Rewrite(filters, authors)| == |filters|
    ensures forall i :: 0 <= i < |filters| ==> Rewrite(filters, authors)[i] == Narrow(filters[i], authors)
  {
    if filters != [] {
      RewriteAt(filters[..|filters| - 1], authors);
    }
  }

  /**
   * One entry per filter, in order: when some filter names an author, every
   * relay of the result receives one filter per input filter, the i-th
   * derived from the i-th input filter with its other criteria kept.
   */
  lemma ShardOnePerFilter(session: Session, filters: seq<Filter>, u: Url)
    requires AuthorsNamed(filters) != []
    requires u in Shard(session, filters)
    ensures |Shard(session, filters)[u]| == |filters|
    ensures forall i :: 0 <= i < |filters| ==>
      Shard(session, filters)[u][i].criteria == filters[i].criteria
      && Shard(session, filters)[u][i].authors.Some? == filters[i].authors.Some?
  {
    DedupMembership(AuthorsNamed(filters));
    assert AuthorsNamed(filters)[0] in AuthorUnion(filters);
    RewriteAt(filters, RelayAuthors(session, AuthorUnion(filters))[u]);
  }

  /**
   * An author-bearing filter (even one with an empty list) reaches relay `u`
   * as a copy whose author list is `u`'s whole list: the authors of the batch
   * that `u` serves, which may include authors the filter itself did not name.
   */
  lemma AuthorBearingCopy(session: Session, filters: seq<Filter>, u: Url, i: nat)
    requires AuthorsNamed(filters) != []
    requires u in Shard(session, filters)
    requires i < |filters| && filters[i].authors.Some?
    ensures |Shard(session, filters)[u]| == |filters|
    ensures Shard(session, filters)[u][i] == filters[i].(authors := Some(RelayAuthors(session, AuthorUnion(filters))[u]))
    ensures forall a ::
      a in Shard(session, filters)[u][i].authors.value <==> a in AuthorsNamed(filters) && u in RelaysFor(session, a)
  {
    DedupMembership(AuthorsNamed(filters));
    assert AuthorsNamed(filters)[0] in AuthorUnion(filters);
    var m := RelayAuthors(session, AuthorUnion(filters));
    RewriteAt(filters, m[u]);
    forall a ensures a in m[u] <==> a in AuthorsNamed(filters) && u in RelaysFor(session, a) {
      RelayAuthorsMembership(session, filters, u, a);
    }
  }

  /**
   * An author-less filter reaches every relay of the result unmodified, in
   * its place in the batch.
   */
  lemma AuthorlessPassThrough(session: Session, filters: seq<Filter>, i: nat)
    requires i < |filters| && filters[i].authors.None?
    ensures forall u :: u in Shard(session, filters) ==>
      |Shard(session, filters)[u]| == |filters| && Shard(session, filters)[u][i] == filters[i]
  {
    DedupMembership(AuthorsNamed(filters));
    if AuthorsNamed(filters) != [] {
      assert AuthorsNamed(filters)[0] in AuthorUnion(filters);
      var m := RelayAuthors(session, AuthorUnion(filters));
      forall u | u in m {
        RewriteAt(filters, m[u]);
      }
    }
  }

  /** The authors of `authors` that relay `u` serves, in order, each once. */
  function ServedOnce(session: Session, authors: seq<Author>, u: Url): (list: seq<Author>) {
    if authors == [] then []
    else
      var a := authors[|authors| - 1];
      ServedOnce(session, authors[..|authors| - 1], u) + (if u in RelaysFor(session, a) then [a] else [])
  }

  /** With distinct explicit relays, every author is appended to a relay at most once. */
  lemma {:induction false} ServedOnceWhenDistinct(session: Session, authors: seq<Author>, u: Url)
    requires NoDuplicates(ExplicitUrls(session))
    ensures Served(session, authors, u) == ServedOnce(session, authors, u)
  {
    if authors != [] {
      var a := authors[|authors| - 1];
      ServedOnceWhenDistinct(session, authors[..|authors| - 1], u);
      FallbackRule(session, a, u);
      if !HasWriteRelays(session, a) {
        NoDuplicatesCount(ExplicitUrls(session), u);
      }
      assert Repeat(a, Appends(session, a, u)) == if u in RelaysFor(session, a) then [a] else [];
    }
  }

  /** Restricting a sequence without duplicates keeps it without duplicates. */
  lemma {:induction false} ServedOnceNoDuplicates(session: Session, authors: seq<Author>, u: Url)
    requires NoDuplicates(authors)
    ensures NoDuplicates(ServedOnce(session, authors, u))
    ensures forall a :: a in ServedOnce(session, authors, u) ==> a in authors
  {
    if authors != [] {
      var init, a := authors[..|authors| - 1], authors[|authors| - 1];
      assert NoDuplicates(init);
      ServedOnceNoDuplicates(session, init, u);
      assert authors == init + [a];
      assert a !in init;
    }
  }

  /**
   * Lookup and author lists: given distinct explicit relay URLs, each
   * relay's author list is the batch's distinct authors that it serves, in
   * order of first appearance across the filters, with no duplicates.
   */
  lemma RelayAuthorListsDistinct(session: Session, filters: seq<Filter>, u: Url)
    requires NoDuplicates(ExplicitUrls(session))
    requires u in RelayAuthors(session, AuthorUnion(filters))
    ensures RelayAuthors(session, AuthorUnion(filters))[u] == ServedOnce(session, AuthorUnion(filters), u)
    ensures NoDuplicates(RelayAuthors(session, AuthorUnion(filters))[u])
  {
    ServedOnceWhenDistinct(session, AuthorUnion(filters), u);
    ServedOnceNoDuplicates(session, AuthorUnion(filters), u);
  }

  /**
   * A relay's list keeps the processing order: of two entries, the earlier
   * one was processed no later than the other.
   */
  lemma {:induction false} ServedOrder(session: Session, authors: seq<Author>, u: Url, i: nat, j: nat)
    requires NoDuplicates(authors)
    requires i < j < |Served(session, authors, u)|
    ensures Served(session, authors, u)[i] in authors && Served(session, authors, u)[j] in authors
            && FirstIndex(authors, Served(session, authors, u)[i]) <= FirstIndex(authors, Served(session, authors, u)[j])
  {
    var init, a := authors[..|authors| - 1], authors[|authors| - 1];
    assert authors == init + [a];
    assert NoDuplicates(init) && a !in init;
    var l, li, rep := Served(session, authors, u), Served(session, init, u), Repeat(a, Appends(session, a, u));
    assert l == li + rep;
    ServedMembership(session, authors, u, l[i]);
    ServedMembership(session, authors, u, l[j]);
    if j < |li| {
      assert l[i] == li[i] && l[j] == li[j];
      ServedOrder(session, init, u, i, j);
      FirstIndexSnoc(init, a, l[i]);
      FirstIndexSnoc(init, a, l[j]);
    } else {
      assert l[j] == a;
      assert FirstIndex(authors, a) == |init|;
    }
  }

  /**
   * Each relay's author list follows the order in which the authors first
   * appear across the filters; with distinct explicit relay URLs, strictly.
   */
  lemma RelayAuthorsOrder(session: Session, filters: seq<Filter>, u: Url, i: nat, j: nat)
    requires u in RelayAuthors(session, AuthorUnion(filters))
    requires i < j < |RelayAuthors(session, AuthorUnion(filters))[u]|
    ensures RelayAuthors(session, AuthorUnion(filters))[u][i] in AuthorsNamed(filters)
            && RelayAuthors(session, AuthorUnion(filters))[u][j] in AuthorsNamed(filters)
            && FirstIndex(AuthorsNamed(filters), RelayAuthors(session, AuthorUnion(filters))[u][i])
               <= FirstIndex(AuthorsNamed(filters), RelayAuthors(session, AuthorUnion(filters))[u][j])
    ensures NoDuplicates(ExplicitUrls(session)) ==>
              FirstIndex(AuthorsNamed(filters), RelayAuthors(session, AuthorUnion(filters))[u][i])
              < FirstIndex(AuthorsNamed(filters), RelayAuthors(session, AuthorUnion(filters))[u][j])
  {
    var named, union := AuthorsNamed(filters), AuthorUnion(filters);
    var l := RelayAuthors(session, union)[u];
    assert l == Served(session, union, u);
    ServedOrder(session, union, u, i, j);
    var p, q := FirstIndex(union, l[i]), FirstIndex(union, l[j]);
    DedupMembership(named);
    if p < q {
      DedupOrder(named, p, q);
    }
    if NoDuplicates(ExplicitUrls(session)) {
      RelayAuthorListsDistinct(session, filters, u);
      assert l[i] != l[j];
    }
  }
}
