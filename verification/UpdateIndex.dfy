/** The index of the update service, as sets defined from the catalog and the storage. */
module UpdateIndex {
  import opened UpdateCatalog

  /** The four sets kept for one list of criteria. */
  datatype Sets = Sets(catalogIncomplete: set<Oid>, catalogComplete: set<Oid>,
                       storageIncomplete: set<Oid>, storageComplete: set<Oid>)

  datatype Index = Index(allReleases: set<Oid>, targetMostReleases: set<Oid>, target: Sets,
                         bufferMostReleases: set<Oid>, buffer: Sets)

  function Union(a: Sets, b: Sets): Sets {
    Sets(a.catalogIncomplete + b.catalogIncomplete, a.catalogComplete + b.catalogComplete,
         a.storageIncomplete + b.storageIncomplete, a.storageComplete + b.storageComplete)
  }

  const NO_SETS: Sets := Sets({}, {}, {}, {})

  function Releases(c: Catalog): set<Oid> { set x | x in c && c[x].Release? }

  /** x is the release its line is represented by: matching, the newest, and of the
      equally new ones the first in the order of the ids. */
  predicate IsMostRelease(c: Catalog, criterias: seq<Criteria>, x: Oid) {
    && Live(c, criterias, x) && c[x].Release?
    && forall y :: y in c && c[y].Release? && Match(c[y], criterias) && c[y].key == c[x].key ==>
         c[y].srcMoment < c[x].srcMoment || (c[y].srcMoment == c[x].srcMoment && x <= y)
  }

  function MostReleases(c: Catalog, criterias: seq<Criteria>): set<Oid> {
    set x | x in c && IsMostRelease(c, criterias, x)
  }

  /** The absent dependencies of the objects r. */
  ghost function AbsentDependencies(c: Catalog, r: set<Oid>): set<Oid> {
    set x, d | x in r && x in c && d in c[x].dependencies && d !in c :: d
  }

  /** The present dependencies of the objects r that do not match. */
  ghost function StoppingDependencies(c: Catalog, criterias: seq<Criteria>, r: set<Oid>): set<Oid> {
    set x, d | x in r && x in c && d in c[x].dependencies && d in c && !Match(c[d], criterias) :: d
  }

  /** The contents of the files among r. */
  ghost function Contents(c: Catalog, r: set<Oid>): set<Oid> {
    set x | x in r && x in c && c[x].File? :: c[x].content
  }

  /** The sets a full traversal is to produce: everything reached and the present
      dependencies it stops at; the absent dependencies; the contents of the reached
      files, split by presence in the storage. */
  ghost function SpecSets(c: Catalog, storage: set<Oid>, criterias: seq<Criteria>): Sets {
    var r := Reach(c, criterias, MostReleases(c, criterias));
    Sets(AbsentDependencies(c, r), r + StoppingDependencies(c, criterias, r), Contents(c, r) - storage, Contents(c, r) * storage)
  }

  ghost function SpecIndex(c: Catalog, storage: set<Oid>, target: seq<Criteria>, buffer: seq<Criteria>): Index {
    Index(Releases(c), MostReleases(c, target), SpecSets(c, storage, target),
          MostReleases(c, buffer), SpecSets(c, storage, buffer))
  }

  // ----- when a quadruple of sets is the specified one -----

  /** The live objects among the complete ones. */
  ghost function Visited(c: Catalog, criterias: seq<Criteria>, s: Sets): set<Oid> {
    set x | x in s.catalogComplete && Live(c, criterias, x)
  }

  /** The content and every dependency of x are recorded in s, or known beforehand. */
  ghost predicate Handled(c: Catalog, storage: set<Oid>, known: set<Oid>, s: Sets, x: Oid)
    requires x in c
  {
    && (c[x].File? ==> c[x].content in if c[x].content in storage then s.storageComplete else s.storageIncomplete)
    && forall d :: d in c[x].dependencies ==>
         if d in c then d in s.catalogComplete || d in known else d in s.catalogIncomplete
  }

  /** Everything recorded in s comes from an object of r. */
  ghost predicate Justified(c: Catalog, storage: set<Oid>, criterias: seq<Criteria>, r: set<Oid>, s: Sets) {
    && s.catalogIncomplete <= AbsentDependencies(c, r)
    && s.catalogComplete <= r + StoppingDependencies(c, criterias, r)
    && s.storageIncomplete <= Contents(c, r) - storage
    && s.storageComplete <= Contents(c, r) * storage
  }

  ghost predicate AllHandled(c: Catalog, storage: set<Oid>, criterias: seq<Criteria>, known: set<Oid>, s: Sets) {
    forall x :: x in Visited(c, criterias, s) ==> Handled(c, storage, known, s, x)
  }

  /** What handling every object of r forces into s. */
  lemma HandledContents(c: Catalog, storage: set<Oid>, known: set<Oid>, s: Sets, r: set<Oid>)
    requires forall x :: x in r ==> x in c && Handled(c, storage, known, s, x)
    ensures AbsentDependencies(c, r) <= s.catalogIncomplete
    ensures Contents(c, r) - storage <= s.storageIncomplete
    ensures Contents(c, r) * storage <= s.storageComplete
  {}

  lemma HandledStops(c: Catalog, storage: set<Oid>, criterias: seq<Criteria>, s: Sets, r: set<Oid>)
    requires forall x :: x in r ==> x in c && Handled(c, storage, {}, s, x)
    ensures StoppingDependencies(c, criterias, r) <= s.catalogComplete
  {}

  /** Sets that hold the roots, have handled what they hold and hold nothing else are
      the specified sets. */
  lemma ExactSets(c: Catalog, storage: set<Oid>, criterias: seq<Criteria>, s: Sets)
    requires MostReleases(c, criterias) <= s.catalogComplete
    requires AllHandled(c, storage, criterias, {}, s)
    requires Justified(c, storage, criterias, Reach(c, criterias, MostReleases(c, criterias)), s)
    ensures s == SpecSets(c, storage, criterias)
  {
    hide Reach, MostReleases, AbsentDependencies, Contents;
    var roots := MostReleases(c, criterias);
    var r := Reach(c, criterias, roots);
    var v := Visited(c, criterias, s);
    VisitedIsClosed(c, storage, criterias, s);
    ReachIsLeast(c, criterias, roots, v);
    HandledContents(c, storage, {}, s, r);
    HandledStops(c, storage, criterias, s, r);
  }

  lemma VisitedIsClosed(c: Catalog, storage: set<Oid>, criterias: seq<Criteria>, s: Sets)
    requires AllHandled(c, storage, criterias, {}, s)
    ensures Closed(c, criterias, Visited(c, criterias, s))
  {}

  /** The converse: what the specified sets satisfy. */
  lemma SpecSetsAreExact(c: Catalog, storage: set<Oid>, criterias: seq<Criteria>)
    ensures var s := SpecSets(c, storage, criterias); var r := Reach(c, criterias, MostReleases(c, criterias));
      && MostReleases(c, criterias) <= s.catalogComplete
      && Visited(c, criterias, s) == r
      && AllHandled(c, storage, criterias, {}, s)
      && Justified(c, storage, criterias, r, s)
  {
    var roots := MostReleases(c, criterias);
    var r := Reach(c, criterias, roots);
    var s := SpecSets(c, storage, criterias);
    MostReleasesReached(c, criterias);
    ReachIsClosed(c, criterias, roots);
    forall x | x in r
      ensures Live(c, criterias, x)
    {
      ReachIsLive(c, criterias, roots, x);
    }
    hide Reach, MostReleases;
    assert Visited(c, criterias, s) == r;
    forall x | x in r
      ensures Handled(c, storage, {}, s, x)
    {
      ReachedIsHandled(c, storage, criterias, r, x);
    }
  }

  lemma MostReleasesReached(c: Catalog, criterias: seq<Criteria>)
    ensures MostReleases(c, criterias) <= Reach(c, criterias, MostReleases(c, criterias))
  {
    forall x | x in MostReleases(c, criterias)
      ensures x in Reach(c, criterias, MostReleases(c, criterias))
    {
      ReachHasRoots(c, criterias, MostReleases(c, criterias), x);
    }
  }

  lemma ReachedIsHandled(c: Catalog, storage: set<Oid>, criterias: seq<Criteria>, r: set<Oid>, x: Oid)
    requires Closed(c, criterias, r) && x in r && x in c
    ensures Handled(c, storage, {},
      Sets(AbsentDependencies(c, r), r + StoppingDependencies(c, criterias, r), Contents(c, r) - storage, Contents(c, r) * storage), x)
  {
    forall d | d in c[x].dependencies && d in c
      ensures d in r + StoppingDependencies(c, criterias, r)
    {
      if Match(c[d], criterias) {
        assert Live(c, criterias, d);
      }
    }
  }
}
