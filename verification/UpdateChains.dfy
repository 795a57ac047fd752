/** What the index and garbage collection hold on to, told by chains of dependencies and
    single criteria. */
module UpdateChains {
  import opened UpdateCatalog
  import opened UpdateIndex
  import opened UpdateGarbage

  ghost predicate Accepted(criterias: seq<Criteria>, o: Object) {
    exists k :: 0 <= k < |criterias| && criterias[k](o)
  }

  ghost predicate SameLine(a: Object, b: Object)
    requires a.Release? && b.Release?
  {
    && a.key.srcBranch == b.key.srcBranch && a.key.platformOs == b.key.platformOs
    && a.key.platformArch == b.key.platformArch && a.key.vendor == b.key.vendor && a.key.vendorSign == b.key.vendorSign
  }

  /** An accepted release with no newer one of its line, and no equally new one before it. */
  ghost predicate Newest(c: Catalog, criterias: seq<Criteria>, x: Oid) {
    && x in c && c[x].Release? && Accepted(criterias, c[x])
    && !exists y :: y in c && c[y].Release? && Accepted(criterias, c[y]) && SameLine(c[y], c[x]) &&
         (c[y].srcMoment > c[x].srcMoment || (c[y].srcMoment == c[x].srcMoment && y < x))
  }

  /** Present accepted objects, each a dependency of the one before. */
  ghost predicate Chain(c: Catalog, criterias: seq<Criteria>, p: seq<Oid>) {
    && |p| > 0
    && (forall i :: 0 <= i < |p| ==> p[i] in c && Accepted(criterias, c[p[i]]))
    && (forall i :: 0 < i < |p| ==> p[i] in c[p[i - 1]].dependencies)
  }

  ghost predicate FromNewest(c: Catalog, criterias: seq<Criteria>, p: seq<Oid>) {
    Chain(c, criterias, p) && Newest(c, criterias, p[0])
  }

  ghost predicate Reached(c: Catalog, criterias: seq<Criteria>, x: Oid) {
    exists p :: FromNewest(c, criterias, p) && p[|p| - 1] == x
  }

  ghost predicate BehindReached(c: Catalog, criterias: seq<Criteria>, x: Oid) {
    exists y :: y in c && Reached(c, criterias, y) && x in c[y].dependencies
  }

  /** f is the content of a file that is reached. */
  ghost predicate Referred(c: Catalog, criterias: seq<Criteria>, f: Oid) {
    exists y :: y in c && Reached(c, criterias, y) && c[y].File? && c[y].content == f
  }

  /** What the four sets of an index hold. */
  ghost predicate Told(c: Catalog, storage: set<Oid>, criterias: seq<Criteria>, s: Sets) {
    && (forall x :: x in s.catalogIncomplete <==> x !in c && BehindReached(c, criterias, x))
    && (forall x :: x in s.catalogComplete <==> x in c && (Reached(c, criterias, x) || BehindReached(c, criterias, x)))
    && (forall f :: f in s.storageIncomplete <==> Referred(c, criterias, f) && f !in storage)
    && (forall f :: f in s.storageComplete <==> Referred(c, criterias, f) && f in storage)
  }

  lemma NewestAre(c: Catalog, criterias: seq<Criteria>, x: Oid)
    ensures x in MostReleases(c, criterias) <==> Newest(c, criterias, x)
  {
    if x in c && c[x].Release? {
      forall y | y in c && c[y].Release?
        ensures SameLine(c[y], c[x]) <==> c[y].key == c[x].key
        ensures Accepted(criterias, c[y]) <==> Match(c[y], criterias)
      {}
    }
  }

  lemma PathsAreChains(c: Catalog, criterias: seq<Criteria>, p: seq<Oid>)
    ensures IsPath(c, criterias, MostReleases(c, criterias), p) <==> FromNewest(c, criterias, p)
  {
    hide MostReleases, Newest;
    if p != [] {
      NewestAre(c, criterias, p[0]);
    }
    assert forall i :: 0 <= i < |p| && p[i] in c ==> (Accepted(criterias, c[p[i]]) <==> Match(c[p[i]], criterias));
    assert forall i :: 0 <= i < |p| ==> (Live(c, criterias, p[i]) <==> p[i] in c && Accepted(criterias, c[p[i]]));
  }

  lemma ReachByChains(c: Catalog, criterias: seq<Criteria>, x: Oid)
    ensures x in Reach(c, criterias, MostReleases(c, criterias)) <==> Reached(c, criterias, x)
  {
    hide MostReleases, Newest;
    var roots := MostReleases(c, criterias);
    if x in Reach(c, criterias, roots) {
      var p :| IsPath(c, criterias, roots, p) && p[|p| - 1] == x;
      PathsAreChains(c, criterias, p);
    }
    if Reached(c, criterias, x) {
      var p :| FromNewest(c, criterias, p) && p[|p| - 1] == x;
      PathsAreChains(c, criterias, p);
    }
  }

  /** The specified sets are those of the chains. */
  lemma SetsAreTold(c: Catalog, storage: set<Oid>, criterias: seq<Criteria>)
    ensures Told(c, storage, criterias, SpecSets(c, storage, criterias))
  {
    hide MostReleases, Reach, Reached;
    var r := Reach(c, criterias, MostReleases(c, criterias));
    forall x
      ensures x in r <==> Reached(c, criterias, x)
    {
      ReachByChains(c, criterias, x);
    }
    ReachIsPresent(c, criterias, MostReleases(c, criterias));
    forall x
      ensures x in AbsentDependencies(c, r) <==> x !in c && BehindReached(c, criterias, x)
    {}
    forall x
      ensures x in r + StoppingDependencies(c, criterias, r) <==> x in c && (Reached(c, criterias, x) || BehindReached(c, criterias, x))
    {
      PresentOnes(c, criterias, x);
    }
    forall f
      ensures f in Contents(c, r) <==> Referred(c, criterias, f)
    {}
  }

  lemma PresentOnes(c: Catalog, criterias: seq<Criteria>, x: Oid)
    ensures var r := Reach(c, criterias, MostReleases(c, criterias));
      x in r + StoppingDependencies(c, criterias, r) <==> x in c && (Reached(c, criterias, x) || BehindReached(c, criterias, x))
  {
    hide MostReleases, Reach, Reached;
    var r := Reach(c, criterias, MostReleases(c, criterias));
    ReachIsPresent(c, criterias, MostReleases(c, criterias));
    ReachIsClosed(c, criterias, MostReleases(c, criterias));
    ReachByChains(c, criterias, x);
    forall y
      ensures y in r <==> Reached(c, criterias, y)
    {
      ReachByChains(c, criterias, y);
    }
    if x in c && BehindReached(c, criterias, x) && x !in r {
      var y :| y in c && Reached(c, criterias, y) && x in c[y].dependencies;
      assert !Live(c, criterias, x);
    }
  }

  ghost predicate IndexTold(c: Catalog, storage: set<Oid>, target: seq<Criteria>, buffer: seq<Criteria>, index: Index) {
    && (forall x :: x in index.allReleases <==> x in c && c[x].Release?)
    && (forall x :: x in index.targetMostReleases <==> Newest(c, target, x)) && Told(c, storage, target, index.target)
    && (forall x :: x in index.bufferMostReleases <==> Newest(c, buffer, x)) && Told(c, storage, buffer, index.buffer)
  }

  lemma IndexIsTold(c: Catalog, storage: set<Oid>, target: seq<Criteria>, buffer: seq<Criteria>)
    ensures IndexTold(c, storage, target, buffer, SpecIndex(c, storage, target, buffer))
  {
    hide SpecSets, MostReleases, Newest, Told;
    SetsAreTold(c, storage, target);
    SetsAreTold(c, storage, buffer);
    forall x
      ensures x in MostReleases(c, target) <==> Newest(c, target, x)
      ensures x in MostReleases(c, buffer) <==> Newest(c, buffer, x)
    {
      NewestAre(c, target, x);
      NewestAre(c, buffer, x);
    }
  }

  // ----- what is kept -----

  /** A release, an object that accepted objects lead to from one, or a dependency of such
      an object. */
  ghost predicate Led(c: Catalog, any: seq<Criteria>, x: Oid) {
    exists p :: Chain(c, any, p) && c[p[0]].Release? && p[|p| - 1] == x
  }

  ghost predicate Needed(c: Catalog, any: seq<Criteria>, x: Oid) {
    x in c && (c[x].Release? || Led(c, any, x) || exists y :: y in c && Led(c, any, y) && x in c[y].dependencies)
  }

  ghost predicate NeededContent(c: Catalog, any: seq<Criteria>, f: Oid) {
    exists y :: y in c && Led(c, any, y) && c[y].File? && c[y].content == f
  }

  lemma LedIsReached(c: Catalog, any: seq<Criteria>, x: Oid)
    ensures x in Reach(c, any, Releases(c)) <==> Led(c, any, x)
  {
    forall p
      ensures IsPath(c, any, Releases(c), p) <==> Chain(c, any, p) && c[p[0]].Release?
    {
      assert forall i :: 0 <= i < |p| && p[i] in c ==> (Accepted(any, c[p[i]]) <==> Match(c[p[i]], any));
      assert forall i :: 0 <= i < |p| ==> (Live(c, any, p[i]) <==> p[i] in c && Accepted(any, c[p[i]]));
    }
    if x in Reach(c, any, Releases(c)) {
      var p :| IsPath(c, any, Releases(c), p) && p[|p| - 1] == x;
    }
    if Led(c, any, x) {
      var p :| Chain(c, any, p) && c[p[0]].Release? && p[|p| - 1] == x;
      assert IsPath(c, any, Releases(c), p);
    }
  }

  lemma RequiredAreNeeded(c: Catalog, any: seq<Criteria>)
    ensures forall x :: x in c && x in RequiredIds(c, any) <==> Needed(c, any, x)
    ensures forall f :: f in RequiredContents(c, any) <==> NeededContent(c, any, f)
  {
    hide Reach, Led;
    forall x
      ensures x in Reach(c, any, Releases(c)) <==> Led(c, any, x)
    {
      LedIsReached(c, any, x);
    }
    ReachIsPresent(c, any, Releases(c));
  }
}
