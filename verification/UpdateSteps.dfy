/** How the specified index changes when an object or a content arrives. */
module UpdateSteps {
  import opened UpdateCatalog
  import opened UpdateIndex
  import opened UpdateTraversal

  ghost predicate Extends(c: Catalog, c': Catalog) {
    forall x :: x in c ==> x in c' && c'[x] == c[x]
  }

  lemma ReachMonotone(c: Catalog, c': Catalog, criterias: seq<Criteria>, roots: set<Oid>)
    requires Extends(c, c')
    ensures Reach(c, criterias, roots) <= Reach(c', criterias, roots)
  {
    forall x | x in Reach(c, criterias, roots)
      ensures x in Reach(c', criterias, roots)
    {
      var p :| IsPath(c, criterias, roots, p) && p[|p| - 1] == x;
      assert IsPath(c', criterias, roots, p);
    }
  }

  /** Only releases count for the newest releases. */
  lemma SameReleases(c: Catalog, oid: Oid, o: Object, criterias: seq<Criteria>)
    requires oid !in c && !o.Release?
    ensures Releases(c[oid := o]) == Releases(c)
    ensures MostReleases(c[oid := o], criterias) == MostReleases(c, criterias)
  {
    var c' := c[oid := o];
    forall x
      ensures x in c && IsMostRelease(c, criterias, x) <==> x in c' && IsMostRelease(c', criterias, x)
    {
      if x in c && IsMostRelease(c, criterias, x) {
        assert IsMostRelease(c', criterias, x);
      }
      if x in c' && IsMostRelease(c', criterias, x) {
        forall y | y in c && c[y].Release? && Match(c[y], criterias) && c[y].key == c[x].key
          ensures c[y].srcMoment < c[x].srcMoment || (c[y].srcMoment == c[x].srcMoment && x <= y)
        {
          assert y in c' && c'[y] == c[y];
        }
      }
    }
  }

  /** The bounds of Justified grow with the catalog, except for the arrived id. */
  lemma BoundsGrow(c: Catalog, oid: Oid, o: Object, criterias: seq<Criteria>, r: set<Oid>, r': set<Oid>)
    requires oid !in c && r <= r'
    ensures var c' := c[oid := o];
      && AbsentDependencies(c, r) - {oid} <= AbsentDependencies(c', r')
      && StoppingDependencies(c, criterias, r) <= StoppingDependencies(c', criterias, r')
      && Contents(c, r) <= Contents(c', r')
  {
    var c' := c[oid := o];
    forall d | d in AbsentDependencies(c, r) && d != oid
      ensures d in AbsentDependencies(c', r')
    {
      var x :| x in r && x in c && d in c[x].dependencies;
      assert d !in c;
      assert x in r' && x in c' && c'[x] == c[x] && d !in c';
    }
    forall d | d in StoppingDependencies(c, criterias, r)
      ensures d in StoppingDependencies(c', criterias, r')
    {
      var x :| x in r && x in c && d in c[x].dependencies;
      assert x in c' && c'[x] == c[x] && c'[d] == c[d];
    }
    forall f | f in Contents(c, r)
      ensures f in Contents(c', r')
    {
      var x :| x in r && x in c && c[x].File? && c[x].content == f;
      assert x in c' && c'[x] == c[x];
    }
  }

  /** What was handled stays handled when oid arrives and is recorded as complete. */
  lemma StaysHandled(c: Catalog, storage: set<Oid>, s: Sets, oid: Oid, o: Object, s': Sets, x: Oid)
    requires x in c && oid !in c && Handled(c, storage, {}, s, x)
    requires Grows(s.(catalogIncomplete := s.catalogIncomplete - {oid}), s')
    requires oid in s.catalogIncomplete ==> oid in s'.catalogComplete
    ensures Handled(c[oid := o], storage, {}, s', x)
  {}

  lemma StaysHandledUnawaited(c: Catalog, storage: set<Oid>, s: Sets, oid: Oid, o: Object, x: Oid)
    requires x in c && oid !in c && Handled(c, storage, {}, s, x) && oid !in s.catalogIncomplete
    ensures Handled(c[oid := o], storage, {}, s, x)
  {}

  /** An object that nothing waits for does not change the sets. */
  lemma UnawaitedObject(c: Catalog, storage: set<Oid>, criterias: seq<Criteria>, oid: Oid, o: Object)
    requires oid !in c && !o.Release?
    requires oid !in SpecSets(c, storage, criterias).catalogIncomplete
    ensures SpecSets(c[oid := o], storage, criterias) == SpecSets(c, storage, criterias)
  {
    var c' := c[oid := o];
    var s := SpecSets(c, storage, criterias);
    SpecSetsAreExact(c, storage, criterias);
    SameReleases(c, oid, o, criterias);
    var roots := MostReleases(c, criterias);
    ReachMonotone(c, c', criterias, roots);
    hide Reach, MostReleases, SpecSets, Handled, Justified, AbsentDependencies, StoppingDependencies, Contents;
    CompleteArePresent(c, storage, criterias);
    forall x | x in Visited(c', criterias, s)
      ensures Handled(c', storage, {}, s, x)
    {
      assert x in Visited(c, criterias, s);
      StaysHandledUnawaited(c, storage, s, oid, o, x);
    }
    JustifiedGrows(c, storage, criterias, oid, o, Reach(c, criterias, roots), Reach(c', criterias, roots), s);
    assert s.(catalogIncomplete := s.catalogIncomplete - {oid}) == s;
    ExactSets(c', storage, criterias, s);
  }

  lemma CompleteArePresent(c: Catalog, storage: set<Oid>, criterias: seq<Criteria>)
    ensures SpecSets(c, storage, criterias).catalogComplete <= c.Keys
    ensures SpecSets(c, storage, criterias).catalogIncomplete !! c.Keys
  {}

  lemma JustifiedGrows(c: Catalog, storage: set<Oid>, criterias: seq<Criteria>, oid: Oid, o: Object, r: set<Oid>, r': set<Oid>, s: Sets)
    requires oid !in c && r <= r' && Justified(c, storage, criterias, r, s)
    ensures Justified(c[oid := o], storage, criterias, r', s.(catalogIncomplete := s.catalogIncomplete - {oid}))
  {
    hide AbsentDependencies, StoppingDependencies, Contents;
    BoundsGrow(c, oid, o, criterias, r, r');
  }

  /** An awaited id lies on the edge of what is reached. */
  lemma AwaitedIsDependency(c: Catalog, storage: set<Oid>, criterias: seq<Criteria>, oid: Oid, o: Object)
    requires oid !in c && !o.Release? && oid in SpecSets(c, storage, criterias).catalogIncomplete
    ensures var c' := c[oid := o]; var r' := Reach(c', criterias, MostReleases(c', criterias));
      if Match(o, criterias) then oid in r' else oid in StoppingDependencies(c', criterias, r')
  {
    hide Reach, MostReleases, IsMostRelease;
    var c' := c[oid := o];
    var roots := MostReleases(c, criterias);
    var r := Reach(c, criterias, roots);
    assert oid in AbsentDependencies(c, r);
    var x :| x in r && x in c && oid in c[x].dependencies;
    SameReleases(c, oid, o, criterias);
    ReachMonotone(c, c', criterias, roots);
    ReachIsClosed(c', criterias, roots);
    if Match(o, criterias) {
      assert Live(c', criterias, oid);
    } else {
      IsStopping(c', criterias, Reach(c', criterias, roots), x, oid);
    }
  }

  lemma IsStopping(c: Catalog, criterias: seq<Criteria>, r: set<Oid>, x: Oid, d: Oid)
    requires x in r && x in c && d in c[x].dependencies && d in c && !Match(c[d], criterias)
    ensures d in StoppingDependencies(c, criterias, r)
  {}

  function Arrived(s: Sets, oid: Oid, delta: Sets): Sets {
    Union(s.(catalogIncomplete := s.catalogIncomplete - {oid}), delta)
  }

  /** The awaited object arrives: the old sets without it, and the delta collected from
      it up to what was complete, are the specified sets of the larger catalog. */
  lemma AwaitedObject(c: Catalog, storage: set<Oid>, criterias: seq<Criteria>, oid: Oid, o: Object, delta: Sets)
    requires oid !in c && !o.Release?
    requires var s := SpecSets(c, storage, criterias); oid in s.catalogIncomplete
    requires var s := SpecSets(c, storage, criterias); var c' := c[oid := o];
      if Match(o, criterias) then
        && Collected(Scope(c', storage, criterias, s.catalogComplete, Reach(c', criterias, MostReleases(c', criterias))), NO_SETS, delta, {})
        && (oid in s.catalogComplete || oid in delta.catalogComplete)
      else delta == Sets({}, {oid}, {}, {})
    ensures SpecSets(c[oid := o], storage, criterias) == Arrived(SpecSets(c, storage, criterias), oid, delta)
  {
    hide Reach, MostReleases, SpecSets, Handled, Justified, AbsentDependencies, StoppingDependencies, Contents, Match;
    var c' := c[oid := o];
    var s := SpecSets(c, storage, criterias);
    SpecSetsAreExact(c, storage, criterias);
    SameReleases(c, oid, o, criterias);
    var roots := MostReleases(c, criterias);
    ReachMonotone(c, c', criterias, roots);
    AwaitedIsDependency(c, storage, criterias, oid, o);
    CompleteArePresent(c, storage, criterias);
    var r' := Reach(c', criterias, roots);
    var t := Arrived(s, oid, delta);
    forall x | x in Visited(c', criterias, t)
      ensures Handled(c', storage, {}, t, x)
    {
      if x in s.catalogComplete {
        assert x in Visited(c, criterias, s);
        StaysHandled(c, storage, s, oid, o, t, x);
      } else {
        assert Handled(c', storage, s.catalogComplete, delta, x);
        HandledInUnion(c', storage, s, oid, delta, x);
      }
    }
    JustifiedGrows(c, storage, criterias, oid, o, Reach(c, criterias, roots), r', s);
    JustifiedDelta(c', storage, criterias, oid, r', delta, s.catalogComplete);
    JustifiedUnion(c', storage, criterias, r', s.(catalogIncomplete := s.catalogIncomplete - {oid}), delta);
    ExactSets(c', storage, criterias, t);
  }

  lemma JustifiedDelta(c: Catalog, storage: set<Oid>, criterias: seq<Criteria>, oid: Oid, r: set<Oid>, delta: Sets, known: set<Oid>)
    requires oid in c
    requires if Match(c[oid], criterias) then Collected(Scope(c, storage, criterias, known, r), NO_SETS, delta, {})
             else delta == Sets({}, {oid}, {}, {}) && oid in StoppingDependencies(c, criterias, r)
    ensures Justified(c, storage, criterias, r, delta)
  {}

  lemma JustifiedUnion(c: Catalog, storage: set<Oid>, criterias: seq<Criteria>, r: set<Oid>, a: Sets, b: Sets)
    requires Justified(c, storage, criterias, r, a) && Justified(c, storage, criterias, r, b)
    ensures Justified(c, storage, criterias, r, Union(a, b))
  {}

  lemma HandledInUnion(c: Catalog, storage: set<Oid>, s: Sets, oid: Oid, delta: Sets, x: Oid)
    requires x in c && Handled(c, storage, s.catalogComplete, delta, x)
    ensures Handled(c, storage, {}, Arrived(s, oid, delta), x)
  {}

  function Stored(s: Sets, oid: Oid): Sets {
    if oid in s.storageIncomplete then
      s.(storageIncomplete := s.storageIncomplete - {oid}, storageComplete := s.storageComplete + {oid})
    else s
  }

  /** A content arrives: it moves from the incomplete to the complete contents. */
  lemma StoredContent(c: Catalog, storage: set<Oid>, criterias: seq<Criteria>, oid: Oid)
    ensures SpecSets(c, storage + {oid}, criterias) == Stored(SpecSets(c, storage, criterias), oid)
  {
    hide Reach, MostReleases, Contents;
    var r := Reach(c, criterias, MostReleases(c, criterias));
    var k := Contents(c, r);
    if oid in k && oid !in storage {
      assert k - (storage + {oid}) == k - storage - {oid};
      assert k * (storage + {oid}) == k * storage + {oid};
    } else {
      assert k - (storage + {oid}) == k - storage;
      assert k * (storage + {oid}) == k * storage;
    }
  }
}
