/** Worked routing examples, computed from the model. */
module RelaySetScenarios {

  import opened Wrappers
  import opened Seqs
  import opened RelaySets
  import opened RelaySetProperties

  const R1: Url := "wss://r1"
  const R2: Url := "wss://r2"
  const Rw: Url := "wss://rw"
  const A: Author := "aa"
  const B: Author := "bb"

  function AuthorFilter(authors: seq<Author>): (f: Filter) {
    Filter(Some(authors), map[])
  }

  lemma AuthorsNamedOne(f: Filter)
    ensures AuthorsNamed([f]) == AuthorsOf(f)
  {
    assert [f][..0] == [];
  }

  lemma AuthorsNamedTwo(f: Filter, g: Filter)
    ensures AuthorsNamed([f, g]) == AuthorsOf(f) + AuthorsOf(g)
  {
    assert [f, g][..1] == [f];
    AuthorsNamedOne(f);
  }

  lemma DedupOne(x: Author)
    ensures Dedup([x]) == [x]
  {
    assert [x][..0] == [];
  }

  lemma DedupTwo(x: Author, y: Author)
    requires x != y
    ensures Dedup([x, y]) == [x, y]
  {
    assert [x, y][..1] == [x];
    DedupOne(x);
  }

  lemma ServedOne(s: Session, x: Author, u: Url)
    ensures Served(s, [x], u) == Repeat(x, Appends(s, x, u))
  {
    assert [x][..0] == [];
  }

  lemma ServedTwo(s: Session, x: Author, y: Author, u: Url)
    ensures Served(s, [x, y], u) == Repeat(x, Appends(s, x, u)) + Repeat(y, Appends(s, y, u))
  {
    assert [x, y][..1] == [x];
    ServedOne(s, x, u);
  }

  lemma RewriteOne(f: Filter, authors: seq<Author>)
    ensures Rewrite([f], authors) == [Narrow(f, authors)]
  {
    assert [f][..0] == [];
  }

  lemma RewriteTwo(f: Filter, g: Filter, authors: seq<Author>)
    ensures Rewrite([f, g], authors) == [Narrow(f, authors), Narrow(g, authors)]
  {
    assert [f, g][..1] == [f];
    RewriteOne(f, authors);
  }

  /** A map whose lists are the accumulated ones is the relay-to-authors association. */
  lemma ShardFromMap(s: Session, fs: seq<Filter>, m: map<Url, seq<Author>>)
    requires AuthorsNamed(fs) != []
    requires forall u :: Lookup(m, u) == Served(s, AuthorUnion(fs), u)
    requires forall u :: u in m ==> m[u] != []
    ensures Shard(s, fs) == Distribute(fs, m)
  {
    DedupMembership(AuthorsNamed(fs));
    assert AuthorsNamed(fs)[0] in AuthorUnion(fs);
    var r := RelayAuthors(s, AuthorUnion(fs));
    forall u | u in m ensures u in r {
      assert Lookup(m, u) == m[u];
      ServedInCandidates(s, AuthorUnion(fs), u);
    }
    forall u | u in r ensures u in m && r[u] == m[u] {
    }
    assert r == m;
  }

  lemma DistributeOne(fs: seq<Filter>, u: Url, x: seq<Author>)
    ensures Distribute(fs, map[u := x]) == map[u := Rewrite(fs, x)]
  {
  }

  lemma DistributeTwo(fs: seq<Filter>, u: Url, x: seq<Author>, v: Url, y: seq<Author>)
    requires u != v
    ensures Distribute(fs, map[u := x, v := y]) == map[u := Rewrite(fs, x), v := Rewrite(fs, y)]
  {
    var d := Distribute(fs, map[u := x, v := y]);
    assert d.Keys == {u, v};
  }

  /** Write relay known for A only: B falls back to the explicit relay. */
  lemma ScenarioPartialFallback()
    ensures Shard(Session(None, Some(map[A := {Rw}]), Some([R1])), [AuthorFilter([A, B])])
      == map[Rw := [AuthorFilter([A])], R1 := [AuthorFilter([B])]]
  {
    var s := Session(None, Some(map[A := {Rw}]), Some([R1]));
    var fs := [AuthorFilter([A, B])];
    var m := map[Rw := [A], R1 := [B]];
    AuthorsNamedOne(fs[0]);
    DedupTwo(A, B);
    forall u ensures Lookup(m, u) == Served(s, [A, B], u) {
      PartialFallbackLists(u);
    }
    ShardFromMap(s, fs, m);
    DistributeTwo(fs, Rw, [A], R1, [B]);
    RewriteOne(fs[0], [A]);
    RewriteOne(fs[0], [B]);
  }

  lemma PartialFallbackLists(u: Url)
    ensures Lookup(map[Rw := [A], R1 := [B]], u) == Served(Session(None, Some(map[A := {Rw}]), Some([R1])), [A, B], u)
  {
    var s := Session(None, Some(map[A := {Rw}]), Some([R1]));
    assert HasWriteRelays(s, A) && !HasWriteRelays(s, B);
    ServedTwo(s, A, B, u);
    assert multiset([R1])[u] == if u == R1 then 1 else 0;
  }

  /** No write relays known: every author falls back to both explicit relays. */
  lemma ScenarioFullFallback()
    ensures Shard(Session(None, Some(map[]), Some([R1, R2])), [AuthorFilter([A, B])])
      == map[R1 := [AuthorFilter([A, B])], R2 := [AuthorFilter([A, B])]]
  {
    var s := Session(None, Some(map[]), Some([R1, R2]));
    var fs := [AuthorFilter([A, B])];
    var m := map[R1 := [A, B], R2 := [A, B]];
    AuthorsNamedOne(fs[0]);
    DedupTwo(A, B);
    forall u ensures Lookup(m, u) == Served(s, [A, B], u) {
      FullFallbackLists(u);
    }
    ShardFromMap(s, fs, m);
    DistributeTwo(fs, R1, [A, B], R2, [A, B]);
    RewriteOne(fs[0], [A, B]);
  }

  lemma FullFallbackLists(u: Url)
    ensures Lookup(map[R1 := [A, B], R2 := [A, B]], u) == Served(Session(None, Some(map[]), Some([R1, R2])), [A, B], u)
  {
    ServedTwo(Session(None, Some(map[]), Some([R1, R2])), A, B, u);
    assert multiset([R1, R2])[u] == if u == R1 || u == R2 then 1 else 0;
  }

  /** No filter names an author: the batch goes unchanged to every explicit relay. */
  lemma ScenarioNoAuthors()
    ensures Shard(Session(None, None, Some([R1, R2])), [Filter(None, map["kinds" := "[1]"])])
      == map[R1 := [Filter(None, map["kinds" := "[1]"])], R2 := [Filter(None, map["kinds" := "[1]"])]]
  {
    AuthorsNamedOne(Filter(None, map["kinds" := "[1]"]));
  }

  /**
   * Author lists are not intersected with the filter's own: each filter's
   * copy at R1 names both authors, though each filter named only one.
   */
  lemma ScenarioCopyWidensAuthors()
    ensures Shard(Session(None, None, Some([R1])), [AuthorFilter([A]), AuthorFilter([B])])
      == map[R1 := [AuthorFilter([A, B]), AuthorFilter([A, B])]]
  {
    var s := Session(None, None, Some([R1]));
    var fs := [AuthorFilter([A]), AuthorFilter([B])];
    var m := map[R1 := [A, B]];
    AuthorsNamedTwo(fs[0], fs[1]);
    DedupTwo(A, B);
    forall u ensures Lookup(m, u) == Served(s, [A, B], u) {
      ServedTwo(s, A, B, u);
      assert multiset([R1])[u] == if u == R1 then 1 else 0;
    }
    ShardFromMap(s, fs, m);
    DistributeOne(fs, R1, [A, B]);
    RewriteTwo(fs[0], fs[1], [A, B]);
  }

  /**
   * A present but empty author list takes the author-bearing branch: next to
   * a filter naming A, it reaches A's write relay as a copy naming A.
   */
  lemma ScenarioEmptyAuthorList()
    ensures Shard(Session(None, Some(map[A := {Rw}]), None), [AuthorFilter([]), AuthorFilter([A])])
      == map[Rw := [AuthorFilter([A]), AuthorFilter([A])]]
  {
    var s := Session(None, Some(map[A := {Rw}]), None);
    var fs := [AuthorFilter([]), AuthorFilter([A])];
    var m := map[Rw := [A]];
    EmptyListUnion();
    forall u ensures Lookup(m, u) == Served(s, [A], u) {
      WriteRelayList(u);
    }
    ShardFromMap(s, fs, m);
    DistributeOne(fs, Rw, [A]);
    RewriteTwo(fs[0], fs[1], [A]);
  }

  lemma EmptyListUnion()
    ensures AuthorsNamed([AuthorFilter([]), AuthorFilter([A])]) == [A]
    ensures AuthorUnion([AuthorFilter([]), AuthorFilter([A])]) == [A]
  {
    AuthorsNamedTwo(AuthorFilter([]), AuthorFilter([A]));
    assert [] + [A] == [A];
    DedupOne(A);
  }

  lemma WriteRelayList(u: Url)
    ensures Lookup(map[Rw := [A]], u) == Served(Session(None, Some(map[A := {Rw}]), None), [A], u)
  {
    ServedOne(Session(None, Some(map[A := {Rw}]), None), A, u);
  }

  /** A batch whose only author list is empty has no authors: it is broadcast unchanged. */
  lemma ScenarioOnlyEmptyAuthorList()
    ensures Shard(Session(None, Some(map[A := {Rw}]), Some([R1])), [AuthorFilter([])])
      == map[R1 := [AuthorFilter([])]]
  {
    AuthorsNamedOne(AuthorFilter([]));
  }

  /** A URL listed twice among the explicit relays receives the author twice. */
  lemma ScenarioRepeatedExplicitRelay()
    ensures Shard(Session(None, None, Some([R1, R1])), [AuthorFilter([A])])
      == map[R1 := [AuthorFilter([A, A])]]
  {
    var s := Session(None, None, Some([R1, R1]));
    var fs := [AuthorFilter([A])];
    var m := map[R1 := [A, A]];
    AuthorsNamedOne(fs[0]);
    DedupOne(A);
    forall u ensures Lookup(m, u) == Served(s, [A], u) {
      ServedOne(s, A, u);
      assert multiset([R1, R1])[u] == if u == R1 then 2 else 0;
      assert Repeat(A, 2) == [A, A];
    }
    ShardFromMap(s, fs, m);
    DistributeOne(fs, R1, [A, A]);
    RewriteOne(fs[0], [A, A]);
  }
}
