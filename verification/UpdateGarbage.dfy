/** The traversal collectRequireds of instance.cpp, and what dropping everything it
    does not require leaves. */
module UpdateGarbage {
  import opened UpdateCatalog
  import opened UpdateIndex
  import opened UpdateSteps

  /** All dependencies of the objects r, present or not. */
  ghost function Dependencies(c: Catalog, r: set<Oid>): set<Oid> {
    set x, d | x in r && x in c && d in c[x].dependencies :: d
  }

  /** The ids garbage collection keeps: the releases, what any criteria reach from
      them, and its dependencies. */
  ghost function RequiredIds(c: Catalog, any: seq<Criteria>): set<Oid> {
    var r := Reach(c, any, Releases(c));
    Releases(c) + r + Dependencies(c, r)
  }

  ghost function RequiredContents(c: Catalog, any: seq<Criteria>): set<Oid> {
    Contents(c, Reach(c, any, Releases(c)))
  }

  /** A traversal, with a closed set r and a set of ids that bound it. */
  datatype Walk = Walk(c: Catalog, any: seq<Criteria>, ghost r: set<Oid>, ghost ids: set<Oid>)

  ghost predicate Bounded(w: Walk) {
    Closed(w.c, w.any, w.r) && w.r <= w.ids && Dependencies(w.c, w.r) <= w.ids
  }

  ghost predicate Kept(w: Walk, ids: set<Oid>, contents: set<Oid>, x: Oid)
    requires x in w.c
  {
    w.c[x].dependencies <= ids && (w.c[x].File? ==> w.c[x].content in contents)
  }

  /** Between (s, f) and (t, g) every live object that came in is kept with its
      dependencies and content, except those on the stack, and the bounds hold. */
  ghost predicate Walked(w: Walk, s: set<Oid>, f: set<Oid>, t: set<Oid>, g: set<Oid>, stack: set<Oid>) {
    && s <= t <= w.ids && f <= g <= Contents(w.c, w.r)
    && forall x :: x in t && x !in s && Live(w.c, w.any, x) && x !in stack ==> Kept(w, t, g, x)
  }

  ghost predicate Walking(w: Walk, oid: Oid, s: set<Oid>, f: set<Oid>, t: set<Oid>, g: set<Oid>, todo: set<Oid>) {
    && Live(w.c, w.any, oid) && oid in w.r && oid in t && todo <= w.c[oid].dependencies
    && Walked(w, s, f, t, g, {oid})
    && Kept(w, t + todo, g, oid)
  }

  lemma WalkLeaf(w: Walk, oid: Oid, s: set<Oid>, f: set<Oid>)
    requires s <= w.ids && f <= Contents(w.c, w.r) && oid in w.ids
    ensures Live(w.c, w.any, oid) ==> oid in s ==> Walked(w, s, f, s, f, {})
    ensures !Live(w.c, w.any, oid) ==> Walked(w, s, f, s + {oid}, f, {})
  {}

  function WithContent(o: Object, f: set<Oid>): set<Oid> {
    if o.File? then f + {o.content} else f
  }

  lemma WalkStarts(w: Walk, oid: Oid, s: set<Oid>, f: set<Oid>)
    requires Bounded(w) && Live(w.c, w.any, oid) && oid in w.r && s <= w.ids && f <= Contents(w.c, w.r)
    ensures var g := WithContent(w.c[oid], f);
      && Walking(w, oid, s, f, s + {oid}, g, w.c[oid].dependencies)
      && (oid in s ==> Walked(w, s, f, s, g, {}))
  {}

  lemma WalkStep(w: Walk, oid: Oid, s: set<Oid>, f: set<Oid>, t: set<Oid>, g: set<Oid>, todo: set<Oid>, dep: Oid, t': set<Oid>, g': set<Oid>)
    requires Walking(w, oid, s, f, t, g, todo) && dep in todo
    requires Walked(w, t, g, t', g', {}) && dep in t'
    ensures Walking(w, oid, s, f, t', g', todo - {dep})
  {
    forall x | x in t' && x !in s && Live(w.c, w.any, x) && x != oid
      ensures Kept(w, t', g', x)
    {
      if x in t {
        assert Kept(w, t, g, x);
      }
    }
  }

  lemma WalkEnds(w: Walk, oid: Oid, s: set<Oid>, f: set<Oid>, t: set<Oid>, g: set<Oid>)
    requires Walking(w, oid, s, f, t, g, {})
    ensures Walked(w, s, f, t, g, {})
  {
    assert t + {} == t;
  }

  lemma WalkAllows(w: Walk, oid: Oid, s: set<Oid>, f: set<Oid>, t: set<Oid>, g: set<Oid>, todo: set<Oid>, dep: Oid)
    requires Bounded(w) && Walking(w, oid, s, f, t, g, todo) && dep in todo
    ensures dep in w.ids && t <= w.ids && g <= Contents(w.c, w.r) && oid in t && s <= t
    ensures Live(w.c, w.any, dep) ==> dep in w.r
  {}

  lemma WalkGrows(w: Walk, s: set<Oid>, f: set<Oid>, t: set<Oid>, g: set<Oid>)
    requires Walked(w, s, f, t, g, {})
    ensures s <= t <= w.ids && f <= g <= Contents(w.c, w.r)
  {}

  /** The two sets that collectRequireds fills by reference. */
  class Requireds {
    var catalog: set<Oid>
    var storage: set<Oid>

    constructor ()
      ensures catalog == {} && storage == {}
    {
      catalog, storage := {}, {};
    }

    method Collect(w: Walk, oid: Oid)
      requires Bounded(w) && oid in w.ids && (Live(w.c, w.any, oid) ==> oid in w.r)
      requires catalog <= w.ids && storage <= Contents(w.c, w.r)
      modifies this
      ensures Walked(w, old(catalog), old(storage), catalog, storage, {}) && oid in catalog
      decreases w.c.Keys - catalog
    {
      hide Bounded, Walked, Walking, Contents, Match;
      ghost var s, f := catalog, storage;
      WalkLeaf(w, oid, s, f);
      if oid !in w.c || !Match(w.c[oid], w.any) {
        catalog := catalog + {oid};
        return;
      }
      WalkStarts(w, oid, s, f);
      if w.c[oid].File? {
        storage := storage + {w.c[oid].content};
      }
      if oid in catalog {
        return;
      }
      catalog := catalog + {oid};
      var todo := w.c[oid].dependencies;
      while todo != {}
        invariant Walking(w, oid, s, f, catalog, storage, todo)
        invariant s + {oid} <= catalog
      {
        var dep :| dep in todo;
        ghost var t, g := catalog, storage;
        WalkAllows(w, oid, s, f, t, g, todo, dep);
        Collect(w, dep);
        WalkGrows(w, t, g, catalog, storage);
        WalkStep(w, oid, s, f, t, g, todo, dep, catalog, storage);
        todo := todo - {dep};
      }
      WalkEnds(w, oid, s, f, catalog, storage);
    }
  }

  /** The walk of the specification. */
  ghost function FullWalk(c: Catalog, any: seq<Criteria>): Walk {
    Walk(c, any, Reach(c, any, Releases(c)), RequiredIds(c, any))
  }

  lemma FullWalkBounded(c: Catalog, any: seq<Criteria>)
    ensures Bounded(FullWalk(c, any))
    ensures forall x :: x in Releases(c) && Live(c, any, x) ==> x in Reach(c, any, Releases(c))
  {
    ReachIsClosed(c, any, Releases(c));
    forall x | x in Releases(c) && Live(c, any, x)
      ensures x in Reach(c, any, Releases(c))
    {
      ReachHasRoots(c, any, Releases(c), x);
    }
  }

  /** Walking from every release collects exactly the required ids and contents. */
  lemma WalkIsExact(c: Catalog, any: seq<Criteria>, t: set<Oid>, g: set<Oid>)
    requires Walked(FullWalk(c, any), {}, {}, t, g, {}) && Releases(c) <= t
    ensures t == RequiredIds(c, any) && g == RequiredContents(c, any)
  {
    var w := FullWalk(c, any);
    var roots := Releases(c);
    var live := set x | x in t && Live(c, any, x);
    assert Closed(c, any, live);
    ReachIsLeast(c, any, roots, live);
    forall x | x in w.r
      ensures x in t && x in c && Kept(w, t, g, x)
    {
      ReachIsLive(c, any, roots, x);
    }
    hide Reach;
    assert Dependencies(c, w.r) <= t;
    assert Contents(c, w.r) <= g;
  }

  // ----- what is left after dropping -----

  function Restrict<T>(m: map<Oid, T>, keep: set<Oid>): map<Oid, T> {
    map x | x in m && x in keep :: m[x]
  }

  lemma {:induction false} PathIsReached(c: Catalog, criterias: seq<Criteria>, roots: set<Oid>, p: seq<Oid>, i: nat)
    requires IsPath(c, criterias, roots, p) && i < |p|
    ensures p[i] in Reach(c, criterias, roots)
  {
    var q := p[..i + 1];
    assert IsPath(c, criterias, roots, q);
    assert q[|q| - 1] == p[i];
  }

  /** Restricting to a set that holds everything reached keeps everything reached. */
  lemma ReachSurvives(c: Catalog, criterias: seq<Criteria>, roots: set<Oid>, keep: set<Oid>)
    requires Reach(c, criterias, roots) <= keep
    ensures Reach(Restrict(c, keep), criterias, roots) == Reach(c, criterias, roots)
  {
    var c' := Restrict(c, keep);
    forall x | x in Reach(c, criterias, roots)
      ensures x in Reach(c', criterias, roots)
    {
      var p :| IsPath(c, criterias, roots, p) && p[|p| - 1] == x;
      forall i | 0 <= i < |p|
        ensures Live(c', criterias, p[i])
      {
        PathIsReached(c, criterias, roots, p, i);
      }
      assert IsPath(c', criterias, roots, p);
    }
    ReachMonotone(c', c, criterias, roots);
  }

  ghost predicate Covers(any: seq<Criteria>, criterias: seq<Criteria>) {
    forall o :: Match(o, criterias) ==> Match(o, any)
  }

  /** What some of the criteria reach from some of the releases, all of them reach. */
  lemma ReachCovered(c: Catalog, any: seq<Criteria>, criterias: seq<Criteria>)
    requires Covers(any, criterias)
    ensures Reach(c, criterias, MostReleases(c, criterias)) <= Reach(c, any, Releases(c))
  {
    var r := Reach(c, any, Releases(c));
    FullWalkBounded(c, any);
    assert Closed(c, criterias, r);
    ReachIsLeast(c, criterias, MostReleases(c, criterias), r);
  }

  lemma ReleasesSurvive(c: Catalog, keep: set<Oid>, criterias: seq<Criteria>)
    requires Releases(c) <= keep
    ensures Releases(Restrict(c, keep)) == Releases(c)
    ensures MostReleases(Restrict(c, keep), criterias) == MostReleases(c, criterias)
  {
    var c' := Restrict(c, keep);
    assert forall y :: y in c && c[y].Release? <==> y in c' && c'[y].Release?;
    forall x
      ensures x in c && IsMostRelease(c, criterias, x) <==> x in c' && IsMostRelease(c', criterias, x)
    {
      if x in c' && IsMostRelease(c', criterias, x) {
        forall y | y in c && c[y].Release? && Match(c[y], criterias) && c[y].key == c[x].key
          ensures c[y].srcMoment < c[x].srcMoment || (c[y].srcMoment == c[x].srcMoment && x <= y)
        {
          assert y in c' && c'[y] == c[y];
        }
      }
      if x in c && IsMostRelease(c, criterias, x) {
        assert x in Releases(c);
        assert x in c' && c'[x] == c[x];
      }
    }
  }

  /** Sets over r do not change when the dependencies and contents of r are kept. */
  lemma SetsSurvive(c: Catalog, criterias: seq<Criteria>, r: set<Oid>, keep: set<Oid>, storage: set<Oid>, contents: set<Oid>)
    requires r <= c.Keys && r <= keep && Dependencies(c, r) <= keep && Contents(c, r) <= contents
    ensures var c' := Restrict(c, keep);
      && AbsentDependencies(c', r) == AbsentDependencies(c, r)
      && StoppingDependencies(c', criterias, r) == StoppingDependencies(c, criterias, r)
      && Contents(c', r) == Contents(c, r) && Dependencies(c', r) == Dependencies(c, r)
      && Contents(c, r) - storage == Contents(c, r) - (storage * contents)
      && Contents(c, r) * storage == Contents(c, r) * (storage * contents)
  {
    var c' := Restrict(c, keep);
    forall x | x in r
      ensures x in c' && c'[x] == c[x] && forall d :: d in c[x].dependencies ==> d in keep
    {
      assert forall d :: d in c[x].dependencies ==> d in Dependencies(c, r);
    }
    assert forall d :: d in Dependencies(c, r) ==> (d in c <==> d in c');
    assert AbsentDependencies(c', r) == AbsentDependencies(c, r);
    assert StoppingDependencies(c', criterias, r) == StoppingDependencies(c, criterias, r);
    assert Contents(c', r) == Contents(c, r);
    assert Dependencies(c', r) == Dependencies(c, r);
  }

  lemma DependenciesMonotone(c: Catalog, r: set<Oid>, r': set<Oid>)
    requires r <= r'
    ensures Dependencies(c, r) <= Dependencies(c, r') && Contents(c, r) <= Contents(c, r')
  {}

  /** Garbage collection is invisible: the specified sets of what is left are the
      specified sets of what was there. */
  lemma DroppingIsInvisible(c: Catalog, storage: set<Oid>, any: seq<Criteria>, criterias: seq<Criteria>)
    requires Covers(any, criterias)
    ensures var c' := Restrict(c, RequiredIds(c, any));
      SpecSets(c', storage * RequiredContents(c, any), criterias) == SpecSets(c, storage, criterias)
  {
    hide Reach, MostReleases, Dependencies, Contents, AbsentDependencies, StoppingDependencies, Covers;
    var keep := RequiredIds(c, any);
    var roots := MostReleases(c, criterias);
    var r, all := Reach(c, criterias, roots), Reach(c, any, Releases(c));
    ReachCovered(c, any, criterias);
    ReleasesSurvive(c, keep, criterias);
    ReachSurvives(c, criterias, roots, keep);
    DependenciesMonotone(c, r, all);
    ReachIsPresent(c, criterias, roots);
    SetsSurvive(c, criterias, r, keep, storage, RequiredContents(c, any));
  }

  lemma ReachIsPresent(c: Catalog, criterias: seq<Criteria>, roots: set<Oid>)
    ensures Reach(c, criterias, roots) <= c.Keys
  {}

  /** Collecting again drops nothing. */
  lemma DroppingIsIdempotent(c: Catalog, any: seq<Criteria>)
    ensures var c' := Restrict(c, RequiredIds(c, any));
      RequiredIds(c', any) == RequiredIds(c, any) && RequiredContents(c', any) == RequiredContents(c, any)
  {
    hide Reach, Dependencies, Contents;
    var keep := RequiredIds(c, any);
    var r := Reach(c, any, Releases(c));
    ReleasesSurvive(c, keep, any);
    ReachSurvives(c, any, Releases(c), keep);
    ReachIsPresent(c, any, Releases(c));
    SetsSurvive(c, any, r, keep, {}, RequiredContents(c, any));
  }
}
