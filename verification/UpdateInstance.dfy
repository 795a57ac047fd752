/** instance.cpp: the catalog, the storage and the cached index over them. */
module UpdateInstance {
  import opened Options
  import opened Archive
  import opened UpdateCatalog
  import opened UpdateCodec
  import opened UpdateIndex
  import opened UpdateTraversal
  import opened UpdateSteps
  import opened UpdateGarbage
  import opened UpdateChains

  datatype PutObjectResult = Ok | Corrupted | Unwanted

  const NO_SIGNATURE: Signature := seq(64, _ => 0)

  /** The functions of other components: the hash, and the check of a signature of a
      hash under a public key. */
  datatype Env = Env(hash: Blob -> Oid, verify: (Oid, Oid, Signature) -> bool) {
    function Identify(o: Object): Oid { hash(Serialize(o)) }

    /** What is signed is the release without its signature. */
    predicate CheckSignature(o: Object)
      requires o.Release?
    {
      verify(Identify(o.(signature := NO_SIGNATURE)), o.key.vendorSign, o.signature)
    }
  }

  /** The object in the blob, if there is one, has the hash of the blob. */
  ghost predicate Canonical(env: Env, b: Blob) {
    Deserialize(b).Some? ==> env.Identify(Deserialize(b).value) == env.hash(b)
  }

  /** A blob that lists the dependencies in some order is canonical exactly when that is
      the ascending one, for a hash that tells it from the serialization. */
  lemma ListingIsCanonical(env: Env, o: Object, deps: seq<Oid>)
    requires Elements(deps) == o.dependencies && |deps| < TWO_32 && Encodable(o)
    requires var b := Listing(TypeOf(o), deps, SaveFields(o)); env.hash(b) == env.Identify(o) ==> b == Serialize(o)
    ensures Canonical(env, Listing(TypeOf(o), deps, SaveFields(o))) <==> deps == Sorted(o.dependencies, OidBefore)
  {
    hide Deserialize, Serialize, Encodable, Listing, SaveFields, Sorted;
    ListingRead(deps, o);
    ListingCanonical(o, deps);
  }

  lemma SerializedIsCanonical(env: Env, o: Object)
    requires Encodable(o)
    ensures Canonical(env, Serialize(o))
  {
    hide Deserialize, Serialize, Encodable;
    RoundTrip(o);
  }

  /** What a client can make an instance do. */
  datatype Step = PutCatalog(oid: Oid, blob: Blob) | PutStorage(oid: Oid, blob: Blob) | Collect

  /** Everything is stored under its own hash. */
  ghost predicate AllAddressed(env: Env, c: Catalog, s: map<Oid, Blob>) {
    && (forall x :: x in c ==> env.Identify(c[x]) == x)
    && (forall x :: x in s ==> env.hash(s[x]) == x)
  }

  /** Every release is signed: its signature is that of the hash of its serialization
      with 64 zero bytes in the place of the signature. */
  ghost predicate AllSigned(env: Env, c: Catalog) {
    forall x :: x in c && c[x].Release? ==>
      env.verify(env.hash(Serialize(c[x].(signature := seq(64, _ => 0)))), c[x].key.vendorSign, c[x].signature)
  }

  /** What is left of a catalog and a storage is what the releases need of them. */
  ghost predicate KeptExactly(c: Catalog, s: map<Oid, Blob>, any: seq<Criteria>, c': Catalog, s': map<Oid, Blob>) {
    && (forall x :: x in c' <==> Needed(c, any, x))
    && (forall x :: x in s' <==> x in s && NeededContent(c, any, x))
    && (forall x :: x in c' ==> x in c && c'[x] == c[x])
    && (forall x :: x in s' ==> x in s && s'[x] == s[x])
  }

  lemma KeptIsNeeded(c: Catalog, s: map<Oid, Blob>, any: seq<Criteria>)
    ensures KeptExactly(c, s, any, Restrict(c, RequiredIds(c, any)), Restrict(s, RequiredContents(c, any)))
  {
    hide RequiredIds, RequiredContents, Restrict, Needed, NeededContent;
    Restricted(c, RequiredIds(c, any));
    Restricted(s, RequiredContents(c, any));
    RequiredAreNeeded(c, any);
  }

  lemma RestOfAll(env: Env, c: Catalog, s: map<Oid, Blob>, keep: set<Oid>, contents: set<Oid>)
    ensures AllAddressed(env, c, s) ==> AllAddressed(env, Restrict(c, keep), Restrict(s, contents))
    ensures AllSigned(env, c) ==> AllSigned(env, Restrict(c, keep))
  {
    hide Restrict, Serialize;
    Restricted(c, keep);
    Restricted(s, contents);
  }

  lemma {:induction false} Minimum(s: set<Oid>) returns (m: Oid)
    requires s != {}
    ensures m in s && forall y :: y in s ==> m <= y
  {
    m :| m in s;
    var t := s - {m};
    if t != {} {
      var n := Minimum(t);
      m := if m < n then m else n;
    }
    assert forall y :: y in s ==> y in t || y == m || m <= y;
  }

  /** The first id of a set, in the order std::set iterates. */
  method First(s: set<Oid>) returns (x: Oid)
    requires s != {}
    ensures x in s && forall y :: y in s ==> x <= y
  {
    ghost var m := Minimum(s);
    x :| x in s && forall y :: y in s ==> x <= y;
  }

  /** best holds, for every line of matching releases among done, its representative. */
  ghost predicate BestOf(c: Catalog, criterias: seq<Criteria>, done: set<Oid>, best: map<Key, Oid>) {
    && (forall k :: k in best ==> IsBest(c, criterias, done, best[k]) && c[best[k]].key == k)
    && (forall x :: x in done && Live(c, criterias, x) && c[x].Release? ==> c[x].key in best)
  }

  ghost predicate IsBest(c: Catalog, criterias: seq<Criteria>, done: set<Oid>, x: Oid) {
    && x in done && Live(c, criterias, x) && c[x].Release?
    && forall y :: y in done && Live(c, criterias, y) && c[y].Release? && c[y].key == c[x].key ==>
         c[y].srcMoment < c[x].srcMoment || (c[y].srcMoment == c[x].srcMoment && x <= y)
  }

  /** One release looked at: it replaces the representative of its line when there is
      none or the one there is strictly older. */
  function NextBest(c: Catalog, criterias: seq<Criteria>, best: map<Key, Oid>, oid: Oid): map<Key, Oid>
    requires oid in c && c[oid].Release?
  {
    if !Match(c[oid], criterias) then best else
      var key := c[oid].key;
      if key !in best || Moment(c, best[key]) < c[oid].srcMoment then best[key := oid] else best
  }

  function Moment(c: Catalog, x: Oid): nat {
    if x in c && c[x].Release? then c[x].srcMoment else 0
  }

  lemma BestOfNext(c: Catalog, criterias: seq<Criteria>, done: set<Oid>, best: map<Key, Oid>, oid: Oid)
    requires BestOf(c, criterias, done, best) && oid in c && c[oid].Release?
    requires forall x :: x in done ==> x < oid
    ensures BestOf(c, criterias, done + {oid}, NextBest(c, criterias, best, oid))
  {
    var k := c[oid].key;
    if Match(c[oid], criterias) && (k !in best || Moment(c, best[k]) < c[oid].srcMoment) {
      BestOfReplaces(c, criterias, done, best, oid);
    }
  }

  lemma BestOfReplaces(c: Catalog, criterias: seq<Criteria>, done: set<Oid>, best: map<Key, Oid>, oid: Oid)
    requires BestOf(c, criterias, done, best) && Live(c, criterias, oid) && c[oid].Release?
    requires c[oid].key in best ==> c[best[c[oid].key]].srcMoment < c[oid].srcMoment
    ensures BestOf(c, criterias, done + {oid}, best[c[oid].key := oid])
  {
    var k := c[oid].key;
    forall y | y in done && Live(c, criterias, y) && c[y].Release? && c[y].key == k
      ensures c[y].srcMoment < c[oid].srcMoment
    {
      assert k in best;
    }
    assert IsBest(c, criterias, done + {oid}, oid);
  }

  lemma BestOfAll(c: Catalog, criterias: seq<Criteria>, best: map<Key, Oid>)
    requires BestOf(c, criterias, Releases(c), best)
    ensures (set k | k in best :: best[k]) == MostReleases(c, criterias)
  {
    forall x | x in MostReleases(c, criterias)
      ensures x in set k | k in best :: best[k]
    {
      assert x in Releases(c);
      var y := best[c[x].key];
      assert IsBest(c, criterias, Releases(c), y);
      assert x == y;
    }
    forall k | k in best
      ensures best[k] in MostReleases(c, criterias)
    {
      var x := best[k];
      assert IsBest(c, criterias, Releases(c), x);
      assert forall y :: y in c && c[y].Release? ==> y in Releases(c);
      assert IsMostRelease(c, criterias, x);
    }
  }

  lemma CollectedTransitive(e: Scope, s: Sets, t: Sets, u: Sets)
    requires Collected(e, s, t, {}) && Collected(e, t, u, {})
    ensures Collected(e, s, u, {})
  {
    forall x | x in u.catalogComplete && x !in s.catalogComplete && Live(e.c, e.criterias, x)
      ensures Handled(e.c, e.storage, e.known, u, x)
    {
      if x in t.catalogComplete {
        assert Handled(e.c, e.storage, e.known, t, x);
      }
    }
  }

  lemma CollectedIsExact(c: Catalog, storage: set<Oid>, criterias: seq<Criteria>, s: Sets)
    requires Collected(Scope(c, storage, criterias, {}, Reach(c, criterias, MostReleases(c, criterias))), NO_SETS, s, {})
    requires MostReleases(c, criterias) <= s.catalogComplete
    ensures s == SpecSets(c, storage, criterias)
  {
    ExactSets(c, storage, criterias, s);
  }

  class Instance {
    const env: Env
    const targetCriterias: seq<Criteria>
    const bufferCriterias: seq<Criteria>
    var catalog: Catalog
    var storage: map<Oid, Blob>
    var index: Index

    constructor (env: Env, targetCriterias: seq<Criteria>, bufferCriterias: seq<Criteria>)
      ensures this.env == env && this.targetCriterias == targetCriterias && this.bufferCriterias == bufferCriterias
      ensures catalog == map[] && storage == map[] && Current() && Addressed() && Signed()
      ensures index == Index({}, {}, NO_SETS, {}, NO_SETS)
    {
      this.env, this.targetCriterias, this.bufferCriterias := env, targetCriterias, bufferCriterias;
      catalog, storage := map[], map[];
      index := Index({}, {}, NO_SETS, {}, NO_SETS);
      new;
      EmptySets(targetCriterias);
      EmptySets(bufferCriterias);
    }

    /** The cached index is the one a rebuild would give. */
    ghost predicate Current()
      reads this
    {
      index == SpecIndex(catalog, storage.Keys, targetCriterias, bufferCriterias)
    }

    ghost predicate Addressed()
      reads this
    {
      AllAddressed(env, catalog, storage)
    }

    ghost predicate Signed()
      reads this
    {
      AllSigned(env, catalog)
    }

    method CollectMostReleases(criterias: seq<Criteria>, allReleases: set<Oid>) returns (res: set<Oid>)
      requires allReleases == Releases(catalog)
      ensures res == MostReleases(catalog, criterias)
    {
      hide BestOf, NextBest;
      var best: map<Key, Oid> := map[];
      var todo := allReleases;
      ghost var done: set<Oid> := {};
      NothingBest(catalog, criterias);
      while todo != {}
        invariant done + todo == allReleases
        invariant forall x, y :: x in done && y in todo ==> x < y
        invariant BestOf(catalog, criterias, done, best)
      {
        var oid := First(todo);
        BestOfNext(catalog, criterias, done, best, oid);
        best := NextBest(catalog, criterias, best, oid);
        todo := todo - {oid};
        done := done + {oid};
      }
      BestOfAll(catalog, criterias, best);
      res := set k | k in best :: best[k];
    }

    /** Traverse from every newest release. */
    method BuildSets(criterias: seq<Criteria>, mostReleases: set<Oid>) returns (s: Sets)
      requires mostReleases == MostReleases(catalog, criterias)
      ensures s == SpecSets(catalog, storage.Keys, criterias)
    {
      hide Collected, Justified, Reach;
      var e := Scope(catalog, storage.Keys, criterias, {}, Reach(catalog, criterias, mostReleases));
      ReachIsClosed(catalog, criterias, mostReleases);
      MostReleasesReached(catalog, criterias);
      var k := new Collector();
      NothingJustified(e);
      NothingCollected(e, NO_SETS);
      var todo := mostReleases;
      while todo != {}
        invariant todo <= mostReleases <= todo + k.catalogComplete
        invariant Collected(e, NO_SETS, k.View(), {})
      {
        var oid :| oid in todo;
        ghost var t := k.View();
        CollectedMeans(e, NO_SETS, t);
        k.Collect(e, oid, catalog[oid]);
        CollectedMeans(e, t, k.View());
        CollectedTransitive(e, NO_SETS, t, k.View());
        todo := todo - {oid};
      }
      CollectedIsExact(catalog, storage.Keys, criterias, k.View());
      s := k.View();
    }

    method BuildIndex() returns (res: Index)
      ensures res == SpecIndex(catalog, storage.Keys, targetCriterias, bufferCriterias)
      ensures IndexTold(catalog, storage.Keys, targetCriterias, bufferCriterias, res)
    {
      var allReleases := Releases(catalog);
      var targetMost := CollectMostReleases(targetCriterias, allReleases);
      var target := BuildSets(targetCriterias, targetMost);
      var bufferMost := CollectMostReleases(bufferCriterias, allReleases);
      var buffer := BuildSets(bufferCriterias, bufferMost);
      res := Index(allReleases, targetMost, target, bufferMost, buffer);
      IndexIsTold(catalog, storage.Keys, targetCriterias, bufferCriterias);
    }

    method UpdateIndex()
      modifies this`index
      ensures Current()
    {
      index := BuildIndex();
    }

    /** What the arrival of oid adds to the sets of one list of criteria. */
    method Delta(criterias: seq<Criteria>, s: Sets, oid: Oid) returns (delta: Sets)
      requires oid in catalog && !catalog[oid].Release?
      requires s == SpecSets(catalog - {oid}, storage.Keys, criterias)
      ensures Arrived(s, oid, delta) == SpecSets(catalog, storage.Keys, criterias)
    {
      hide SpecSets, Collected, Justified, Reach, MostReleases;
      ghost var c := catalog - {oid};
      var o := catalog[oid];
      assert c[oid := o] == catalog;
      if oid !in s.catalogIncomplete {
        delta := NO_SETS;
        UnawaitedObject(c, storage.Keys, criterias, oid, o);
        assert Arrived(s, oid, delta) == s;
      } else if Match(o, criterias) {
        var e := Scope(catalog, storage.Keys, criterias, s.catalogComplete, Reach(catalog, criterias, MostReleases(catalog, criterias)));
        AwaitedIsDependency(c, storage.Keys, criterias, oid, o);
        ReachIsClosed(catalog, criterias, MostReleases(catalog, criterias));
        NothingJustified(e);
        var k := new Collector();
        k.Collect(e, oid, o);
        delta := k.View();
        AwaitedObject(c, storage.Keys, criterias, oid, o, delta);
      } else {
        delta := Sets({}, {oid}, {}, {});
        AwaitedObject(c, storage.Keys, criterias, oid, o, delta);
      }
    }

    method UpdateIndexAfterCatalogObjectComplete(oid: Oid)
      requires oid in catalog ==> !catalog[oid].Release?
      requires oid in catalog ==> index == SpecIndex(catalog - {oid}, storage.Keys, targetCriterias, bufferCriterias)
      modifies this`index
      ensures if oid in catalog then Current() else index == old(index)
    {
      hide SpecSets, MostReleases, Releases, Arrived;
      if oid !in catalog {
        return;
      }
      ghost var c := catalog - {oid};
      assert c[oid := catalog[oid]] == catalog;
      SameReleases(c, oid, catalog[oid], targetCriterias);
      SameReleases(c, oid, catalog[oid], bufferCriterias);
      var targetDelta := Delta(targetCriterias, index.target, oid);
      var bufferDelta := Delta(bufferCriterias, index.buffer, oid);
      index := index.(target := Arrived(index.target, oid, targetDelta), buffer := Arrived(index.buffer, oid, bufferDelta));
    }

    method UpdateIndexAfterStorageObjectComplete(oid: Oid, ghost contents: set<Oid>)
      requires storage.Keys == contents + {oid}
      requires index == SpecIndex(catalog, contents, targetCriterias, bufferCriterias)
      modifies this`index
      ensures Current()
    {
      hide SpecSets;
      StoredContent(catalog, contents, targetCriterias, oid);
      StoredContent(catalog, contents, bufferCriterias, oid);
      if oid in index.target.storageIncomplete {
        index := index.(target := index.target.(storageIncomplete := index.target.storageIncomplete - {oid},
                                                storageComplete := index.target.storageComplete + {oid}));
      }
      if oid in index.buffer.storageIncomplete {
        index := index.(buffer := index.buffer.(storageIncomplete := index.buffer.storageIncomplete - {oid},
                                                storageComplete := index.buffer.storageComplete + {oid}));
      }
    }

    /** Ids that the index waits for. */
    function Awaited(): set<Oid>
      reads this
    {
      index.target.catalogIncomplete + index.buffer.catalogIncomplete
    }

    function AwaitedContents(): set<Oid>
      reads this
    {
      index.target.storageIncomplete + index.buffer.storageIncomplete
    }

    /** The answer to a put, from the blob and the index alone. */
    function CatalogVerdict(oid: Oid, blob: Blob): PutObjectResult
      reads this
    {
      var o := Deserialize(blob);
      if env.hash(blob) != oid || o.None? then Corrupted
      else if o.value.Release? then
        if oid in index.allReleases then Unwanted
        else if !env.CheckSignature(o.value) then Corrupted else Ok
      else if oid !in Awaited() then Unwanted else Ok
    }

    /** Missing from the catalog, and a dependency of an object that the releases lead to. */
    ghost predicate Wanted(x: Oid)
      reads this
    {
      x !in catalog && (BehindReached(catalog, targetCriterias, x) || BehindReached(catalog, bufferCriterias, x))
    }

    lemma AwaitedAreWanted()
      requires Current()
      ensures forall x :: x in Awaited() <==> Wanted(x)
      ensures index.allReleases == Releases(catalog)
    {
      hide SpecSets, MostReleases, BehindReached;
      SetsAreTold(catalog, storage.Keys, targetCriterias);
      SetsAreTold(catalog, storage.Keys, bufferCriterias);
    }

    /** The object is filed under the hash of its own serialization.  The index stays
        current when the blob is that serialization, and when the object is a release,
        which forces a rebuild.  Where no other object is filed under that hash, an
        accepted put leaves the index current exactly when the object is a release, or
        the hash is the announced id, or nothing waits for it. */
    method PutCatalogObject(oid: Oid, blob: Blob) returns (res: PutObjectResult)
      requires Current()
      modifies this`catalog, this`index
      ensures res == old(CatalogVerdict(oid, blob))
      ensures res != Ok ==> catalog == old(catalog) && index == old(index)
      ensures res == Ok ==> var o := Deserialize(blob).value; catalog == old(catalog)[env.Identify(o) := o]
      ensures Canonical(env, blob) ==> Current()
      ensures res == Ok && Deserialize(blob).value.Release? ==> Current()
      ensures res == Ok ==> var o := Deserialize(blob).value; var id := env.Identify(o);
        (id in old(catalog) ==> old(catalog)[id] == o) ==>
          (Current() <==> o.Release? || id == oid || id !in old(Awaited()))
      ensures old(Addressed()) ==> Addressed()
      ensures old(Signed()) ==> Signed()
      ensures var d := Deserialize(blob);
        if env.hash(blob) != oid || d.None? then res == Corrupted
        else if !d.value.Release? then res == if old(Wanted(oid)) then Ok else Unwanted
        else if old(oid in catalog && catalog[oid].Release?) then res == Unwanted
        else res == if env.verify(env.hash(Serialize(d.value.(signature := seq(64, _ => 0)))), d.value.key.vendorSign, d.value.signature)
                    then Ok else Corrupted
    {
      hide SpecSets, MostReleases, Deserialize, Serialize, BehindReached;
      AwaitedAreWanted();
      if env.hash(blob) != oid {
        return Corrupted;
      }
      var d := Deserialize(blob);
      if d.None? {
        return Corrupted;
      }
      var o := d.value;
      if o.Release? {
        if oid in index.allReleases {
          return Unwanted;
        }
        if !env.CheckSignature(o) {
          return Corrupted;
        }
      } else if oid !in index.target.catalogIncomplete && oid !in index.buffer.catalogIncomplete {
        return Unwanted;
      }
      ghost var c := catalog;
      AwaitedIsAbsent(c, storage.Keys, targetCriterias);
      AwaitedIsAbsent(c, storage.Keys, bufferCriterias);
      var id := env.Identify(o);
      catalog := catalog[id := o];
      if o.Release? {
        UpdateIndex();
      } else {
        if id == oid {
          assert catalog - {oid} == c;
        }
        UpdateIndexAfterCatalogObjectComplete(oid);
        if id != oid && (id in c ==> c[id] == o) {
          MisfiledObject(c, storage.Keys, id, o);
        }
      }
      res := Ok;
    }

    /** An object filed under another id than the announced one leaves the index current
        exactly when nothing waits for that other id. */
    lemma MisfiledObject(c: Catalog, contents: set<Oid>, id: Oid, o: Object)
      requires catalog == c[id := o] && contents == storage.Keys && !o.Release? && (id in c ==> c[id] == o)
      requires index == SpecIndex(c, contents, targetCriterias, bufferCriterias)
      ensures Current() <==> id !in Awaited()
    {
      hide SpecSets, MostReleases, Releases;
      AwaitedIsAbsent(c, contents, targetCriterias);
      AwaitedIsAbsent(c, contents, bufferCriterias);
      AwaitedIsAbsent(catalog, contents, targetCriterias);
      AwaitedIsAbsent(catalog, contents, bufferCriterias);
      if id in c {
        assert c[id := o] == c;
      } else if id !in Awaited() {
        SameReleases(c, id, o, targetCriterias);
        SameReleases(c, id, o, bufferCriterias);
        UnawaitedObject(c, contents, targetCriterias, id, o);
        UnawaitedObject(c, contents, bufferCriterias, id, o);
      }
    }

    lemma ReleasesKnown()
      requires Current()
      ensures index.allReleases == Releases(catalog)
    {
      hide SpecSets, MostReleases;
    }

    /** Everything in the catalog and the storage is required. */
    ghost predicate Clean()
      reads this
    {
      && catalog.Keys <= RequiredIds(catalog, targetCriterias + bufferCriterias)
      && storage.Keys <= RequiredContents(catalog, targetCriterias + bufferCriterias)
    }

    /** The walk from every release. */
    method CollectRequireds() returns (k: Requireds)
      requires index.allReleases == Releases(catalog)
      ensures fresh(k)
      ensures k.catalog == RequiredIds(catalog, targetCriterias + bufferCriterias)
      ensures k.storage == RequiredContents(catalog, targetCriterias + bufferCriterias)
    {
      hide Walked, Bounded, Releases, RequiredIds, RequiredContents, FullWalk, Contents, Reach;
      var any := targetCriterias + bufferCriterias;
      ghost var w := FullWalk(catalog, any);
      FullWalkIs(catalog, any);
      FullWalkBounded(catalog, any);
      NothingWalked(w);
      k := new Requireds();
      var todo := index.allReleases;
      while todo != {}
        invariant todo <= Releases(catalog) <= todo + k.catalog
        invariant Walked(w, {}, {}, k.catalog, k.storage, {})
      {
        var oid :| oid in todo;
        ghost var t, g := k.catalog, k.storage;
        ReleasesRequired(catalog, any, oid);
        WalkGrows(w, {}, {}, t, g);
        k.Collect(Walk(catalog, any, w.r, w.ids), oid);
        WalkGrows(w, t, g, k.catalog, k.storage);
        WalkedTransitive(w, t, g, k.catalog, k.storage);
        todo := todo - {oid};
      }
      WalkIsExact(catalog, any, k.catalog, k.storage);
    }

    /** Drops what no release needs.  The index is then the one a rebuild would have
        given before: a current index stays what it was, and one that an object filed
        under another id left out of date becomes current.  A second collection finds
        nothing to drop. */
    method CollectGarbage() returns (droppedStorage: nat, droppedCatalog: nat)
      requires index.allReleases == Releases(catalog)
      modifies this`catalog, this`storage, this`index
      ensures Current() && index == old(SpecIndex(catalog, storage.Keys, targetCriterias, bufferCriterias))
      ensures old(Current()) ==> index == old(index)
      ensures catalog == old(Restrict(catalog, RequiredIds(catalog, targetCriterias + bufferCriterias)))
      ensures storage == old(Restrict(storage, RequiredContents(catalog, targetCriterias + bufferCriterias)))
      ensures droppedStorage == old(|storage|) - |storage| && droppedCatalog == old(|catalog|) - |catalog|
      ensures index.allReleases + index.target.catalogComplete + index.buffer.catalogComplete <= catalog.Keys
      ensures index.target.storageComplete + index.buffer.storageComplete <= storage.Keys
      ensures Clean() && (old(Clean()) ==> catalog == old(catalog) && storage == old(storage))
      ensures KeptExactly(old(catalog), old(storage), targetCriterias + bufferCriterias, catalog, storage)
      ensures (old(Addressed()) ==> Addressed()) && (old(Signed()) ==> Signed())
    {
      hide SpecIndex, RequiredIds, RequiredContents, Restrict, Releases, KeptExactly, AllAddressed, AllSigned;
      GarbageFacts(catalog, storage);
      ghost var any := targetCriterias + bufferCriterias;
      KeptIsNeeded(catalog, storage, any);
      RestOfAll(env, catalog, storage, RequiredIds(catalog, any), RequiredContents(catalog, any));
      CleanStays(catalog, storage);
      droppedStorage, droppedCatalog := DropGarbage();
      UpdateIndex();
    }

    lemma CleanStays(c: Catalog, s: map<Oid, Blob>)
      ensures var any := targetCriterias + bufferCriterias;
        c.Keys <= RequiredIds(c, any) && s.Keys <= RequiredContents(c, any) ==>
          Restrict(c, RequiredIds(c, any)) == c && Restrict(s, RequiredContents(c, any)) == s
    {
      hide RequiredIds, RequiredContents, Restrict;
      Restricted(c, RequiredIds(c, targetCriterias + bufferCriterias));
      Restricted(s, RequiredContents(c, targetCriterias + bufferCriterias));
    }

    method DropGarbage() returns (droppedStorage: nat, droppedCatalog: nat)
      requires index.allReleases == Releases(catalog)
      modifies this`catalog, this`storage
      ensures catalog == old(Restrict(catalog, RequiredIds(catalog, targetCriterias + bufferCriterias)))
      ensures storage == old(Restrict(storage, RequiredContents(catalog, targetCriterias + bufferCriterias)))
      ensures droppedStorage == old(|storage|) - |storage| && droppedCatalog == old(|catalog|) - |catalog|
    {
      hide RequiredIds, RequiredContents, Restrict, Releases;
      var k := CollectRequireds();
      storage, droppedStorage := DropOthersThan(storage, k.storage);
      catalog, droppedCatalog := DropOthersThan(catalog, k.catalog);
    }

    /** The index, presence and cleanness before and after dropping. */
    lemma GarbageFacts(c: Catalog, s: map<Oid, Blob>)
      ensures var any := targetCriterias + bufferCriterias;
        var i := SpecIndex(c, s.Keys, targetCriterias, bufferCriterias);
        var c', s' := Restrict(c, RequiredIds(c, any)), Restrict(s, RequiredContents(c, any));
        && i == SpecIndex(c', s'.Keys, targetCriterias, bufferCriterias)
        && i.allReleases == Releases(c)
        && i.allReleases + i.target.catalogComplete + i.buffer.catalogComplete <= c'.Keys
        && i.target.storageComplete + i.buffer.storageComplete <= s'.Keys
        && c'.Keys <= RequiredIds(c', any) && s'.Keys <= RequiredContents(c', any)
    {
      hide SpecSets, MostReleases, Reach, RequiredIds, RequiredContents, Restrict, Covers;
      var any := targetCriterias + bufferCriterias;
      Restricted(c, RequiredIds(c, any));
      Restricted(s, RequiredContents(c, any));
      BothCover(targetCriterias, bufferCriterias);
      SetsKept(c, s.Keys, any, targetCriterias);
      SetsKept(c, s.Keys, any, bufferCriterias);
      DroppingIsIdempotent(c, any);
    }

    method PutStorageObject(oid: Oid, blob: Blob) returns (res: PutObjectResult)
      requires Current()
      modifies this`storage, this`index
      ensures Current() && (old(Addressed()) ==> Addressed())
      ensures res == if oid !in old(AwaitedContents()) then Unwanted else if env.hash(blob) != oid then Corrupted else Ok
      ensures res != Unwanted <==> old(oid !in storage
        && (Referred(catalog, targetCriterias, oid) || Referred(catalog, bufferCriterias, oid)))
      ensures res == Ok ==> storage == old(storage)[oid := blob]
      ensures res != Ok ==> storage == old(storage) && index == old(index)
    {
      hide SpecSets, MostReleases, Releases, Referred;
      SetsAreTold(catalog, storage.Keys, targetCriterias);
      SetsAreTold(catalog, storage.Keys, bufferCriterias);
      if oid !in index.target.storageIncomplete && oid !in index.buffer.storageIncomplete {
        return Unwanted;
      }
      if env.hash(blob) != oid {
        return Corrupted;
      }
      ghost var contents := storage.Keys;
      storage := storage[oid := blob];
      UpdateIndexAfterStorageObjectComplete(oid, contents);
      res := Ok;
    }

    /** Over every run of puts and collections, accepted or refused, the maintained
        index stays what a rebuild gives, and what was under its hash stays so. */
    method Replay(steps: seq<Step>) returns (results: seq<PutObjectResult>)
      requires Current()
      requires forall n :: 0 <= n < |steps| && steps[n].PutCatalog? ==> Canonical(env, steps[n].blob)
      modifies this`catalog, this`storage, this`index
      ensures Current() && (old(Addressed()) ==> Addressed()) && (old(Signed()) ==> Signed()) && |results| == |steps|
    {
      hide SpecIndex, RequiredIds, RequiredContents, Canonical, AllAddressed, AllSigned, KeptExactly, Referred, Deserialize;
      results := [];
      for n := 0 to |steps|
        invariant Current() && (old(Addressed()) ==> Addressed()) && (old(Signed()) ==> Signed()) && |results| == n
      {
        var res := Ok;
        match steps[n] {
          case PutCatalog(oid, blob) => res := PutCatalogObject(oid, blob);
          case PutStorage(oid, blob) => res := PutStorageObject(oid, blob);
          case Collect =>
            ReleasesKnown();
            var _, _ := CollectGarbage();
        }
        results := results + [res];
      }
    }
  }

  // ----- a blob that is not canonical -----

  function ExampleUnit(): Object { Unit({1, 2}, [], {}) }

  /** The unit, with its two dependencies listed in descending order. */
  function ExampleBlob(): Blob { Listing(2, [2, 1], SaveFields(ExampleUnit())) }

  /** A release that depends on the hash of that blob and on the hash of the unit. */
  function ExampleRelease(env: Env): Object {
    Release({env.hash(ExampleBlob()), env.Identify(ExampleUnit())}, Key([], [], [], [], 0), [], 0, Build([], [], [], 0), NO_SIGNATURE)
  }

  lemma ExampleBlobs(env: Env)
    ensures Deserialize(ExampleBlob()) == Some(ExampleUnit()) && ExampleBlob() != Serialize(ExampleUnit())
    ensures Deserialize(Serialize(ExampleRelease(env))) == Some(ExampleRelease(env))
  {
    hide SaveFields, Deserialize, Serialize, Sorted, Listing;
    var u := ExampleUnit();
    var deps: seq<Oid> := [2, 1];
    assert Elements(deps) == u.dependencies;
    ListingRead(deps, u);
    ListingCanonical(u, deps);
    assert !OidBefore(deps[0], deps[1]);
    RoundTrip(ExampleRelease(env));
  }

  /** A blob that lists the dependencies of its object in another order is accepted, and
      can leave the index waiting for an object that is there. */
  method MisfiledExample(env: Env) returns (i: Instance)
    requires env.hash(ExampleBlob()) != env.Identify(ExampleUnit())
    requires env.Identify(ExampleRelease(env)) !in ExampleRelease(env).dependencies
    requires env.CheckSignature(ExampleRelease(env))
    ensures !i.Current() && i.Addressed()
  {
    hide SpecSets, MostReleases, Releases, Deserialize, Serialize, ExampleBlob;
    ExampleBlobs(env);
    var release, unit := ExampleRelease(env), ExampleUnit();
    i := new Instance(env, [(o: Object) => true], []);
    var first := i.PutCatalogObject(env.Identify(release), Serialize(release));
    assert first == Ok;
    assert i.catalog == map[env.Identify(release) := release];
    assert i.targetCriterias[0](release);
    ExampleIndex(i.catalog, env.Identify(release), release, i.targetCriterias);
    assert i.storage.Keys == {} && i.Current();
    assert release.dependencies <= i.Awaited();
    var second := i.PutCatalogObject(env.hash(ExampleBlob()), ExampleBlob());
    assert second == Ok;
  }

  lemma ExampleIndex(c: Catalog, id: Oid, release: Object, criterias: seq<Criteria>)
    requires c == map[id := release] && release.Release? && id !in release.dependencies
    requires Match(release, criterias)
    ensures release.dependencies <= SpecSets(c, {}, criterias).catalogIncomplete
  {
    var most := MostReleases(c, criterias);
    assert id in most;
    ReachHasRoots(c, criterias, most, id);
    var r := Reach(c, criterias, most);
    forall d | d in release.dependencies
      ensures d in AbsentDependencies(c, r)
    {
      assert id in r && id in c && d in c[id].dependencies && d !in c;
    }
  }

  lemma SetsKept(c: Catalog, storage: set<Oid>, any: seq<Criteria>, criterias: seq<Criteria>)
    requires Covers(any, criterias)
    ensures var s, c' := SpecSets(c, storage, criterias), Restrict(c, RequiredIds(c, any));
      && s == SpecSets(c', storage * RequiredContents(c, any), criterias)
      && MostReleases(c', criterias) == MostReleases(c, criterias) && Releases(c') == Releases(c) <= c'.Keys
      && s.catalogComplete <= c'.Keys && s.storageComplete <= storage * RequiredContents(c, any)
  {
    hide MostReleases, Reach, RequiredContents, Covers, Restrict, SpecSets;
    var keep := RequiredIds(c, any);
    DroppingIsInvisible(c, storage, any, criterias);
    ReleasesSurvive(c, keep, criterias);
    CompleteIsRequired(c, storage, any, criterias);
    CompleteArePresent(c, storage, criterias);
    Restricted(c, keep);
    CompleteStored(c, storage, criterias);
  }

  lemma CompleteStored(c: Catalog, storage: set<Oid>, criterias: seq<Criteria>)
    ensures SpecSets(c, storage, criterias).storageComplete <= storage
  {}

  /** dropOthersThan of the catalog and of the storage. */
  method DropOthersThan<T>(m: map<Oid, T>, keep: set<Oid>) returns (rest: map<Oid, T>, dropped: nat)
    ensures rest == Restrict(m, keep) && dropped == |m| - |rest|
    ensures rest.Keys == m.Keys * keep && forall x :: x in rest ==> rest[x] == m[x]
    ensures m.Keys <= keep ==> rest == m
  {
    Restricted(m, keep);
    rest := Restrict(m, keep);
    dropped := |m| - |rest|;
  }

  lemma BothCover(target: seq<Criteria>, buffer: seq<Criteria>)
    ensures Covers(target + buffer, target) && Covers(target + buffer, buffer)
  {
    forall o | Match(o, target)
      ensures Match(o, target + buffer)
    {
      var i :| 0 <= i < |target| && target[i](o);
      assert (target + buffer)[i](o);
    }
    forall o | Match(o, buffer)
      ensures Match(o, target + buffer)
    {
      var i :| 0 <= i < |buffer| && buffer[i](o);
      assert (target + buffer)[|target| + i](o);
    }
  }

  lemma WalkedTransitive(w: Walk, t: set<Oid>, g: set<Oid>, u: set<Oid>, h: set<Oid>)
    requires Walked(w, {}, {}, t, g, {}) && Walked(w, t, g, u, h, {})
    ensures Walked(w, {}, {}, u, h, {})
  {
    forall x | x in u && Live(w.c, w.any, x)
      ensures Kept(w, u, h, x)
    {
      if x in t {
        assert Kept(w, t, g, x);
      }
    }
  }

  lemma FullWalkIs(c: Catalog, any: seq<Criteria>)
    ensures var w := FullWalk(c, any); w == Walk(c, any, w.r, w.ids)
  {}

  lemma {:induction false} Restricted<T>(m: map<Oid, T>, keep: set<Oid>)
    ensures Restrict(m, keep).Keys == m.Keys * keep && |Restrict(m, keep)| <= |m|
    ensures forall x :: x in Restrict(m, keep) ==> Restrict(m, keep)[x] == m[x]
    ensures m.Keys <= keep ==> Restrict(m, keep) == m
  {
    SmallerSet(Restrict(m, keep).Keys, m.Keys);
    assert |Restrict(m, keep).Keys| == |Restrict(m, keep)| && |m.Keys| == |m|;
  }

  lemma {:induction false} SmallerSet(a: set<Oid>, b: set<Oid>)
    requires a <= b
    ensures |a| <= |b|
  {
    if a != {} {
      var x :| x in a;
      SmallerSet(a - {x}, b - {x});
    }
  }

  lemma NothingWalked(w: Walk)
    ensures Walked(w, {}, {}, {}, {}, {})
  {}

  lemma ReleasesRequired(c: Catalog, any: seq<Criteria>, x: Oid)
    requires x in Releases(c)
    ensures x in FullWalk(c, any).ids && (Live(c, any, x) ==> x in FullWalk(c, any).r)
  {
    FullWalkBounded(c, any);
  }

  /** Everything complete in the index of some of the criteria is required. */
  lemma CompleteIsRequired(c: Catalog, storage: set<Oid>, any: seq<Criteria>, criterias: seq<Criteria>)
    requires Covers(any, criterias)
    ensures SpecSets(c, storage, criterias).catalogComplete <= RequiredIds(c, any)
    ensures SpecSets(c, storage, criterias).storageComplete <= RequiredContents(c, any)
  {
    hide Reach, MostReleases;
    ReachCovered(c, any, criterias);
    DependenciesMonotone(c, Reach(c, criterias, MostReleases(c, criterias)), Reach(c, any, Releases(c)));
  }

  lemma AwaitedIsAbsent(c: Catalog, storage: set<Oid>, criterias: seq<Criteria>)
    ensures SpecSets(c, storage, criterias).catalogIncomplete !! c.Keys
  {
    CompleteArePresent(c, storage, criterias);
  }

  lemma EmptySets(criterias: seq<Criteria>)
    ensures MostReleases(map[], criterias) == {} && SpecSets(map[], {}, criterias) == NO_SETS
  {}

  lemma NothingBest(c: Catalog, criterias: seq<Criteria>)
    ensures BestOf(c, criterias, {}, map[])
  {}

  lemma NothingJustified(e: Scope)
    ensures Justified(e.c, e.storage, e.criterias, e.r, NO_SETS)
  {}

  lemma CollectedMeans(e: Scope, s: Sets, t: Sets)
    requires Collected(e, s, t, {})
    ensures s.catalogComplete <= t.catalogComplete && Justified(e.c, e.storage, e.criterias, e.r, t)
  {}
}
