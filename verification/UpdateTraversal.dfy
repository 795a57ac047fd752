/** The traversal collectObjectsIndex of instance.cpp. */
module UpdateTraversal {
  import opened UpdateCatalog
  import opened UpdateIndex

  ghost predicate Grows(a: Sets, b: Sets) {
    && a.catalogIncomplete <= b.catalogIncomplete && a.catalogComplete <= b.catalogComplete
    && a.storageIncomplete <= b.storageIncomplete && a.storageComplete <= b.storageComplete
  }

  /** What a traversal is done with and in: the catalog, the stored contents, the
      criteria, the ids complete beforehand, and a closed set that bounds it. */
  datatype Scope = Scope(c: Catalog, storage: set<Oid>, criterias: seq<Criteria>, known: set<Oid>, ghost r: set<Oid>)

  /** Between s and t everything that went through the traversal is handled, except
      the objects on the stack, and nothing outside r came in. */
  ghost predicate Collected(e: Scope, s: Sets, t: Sets, stack: set<Oid>) {
    && Grows(s, t)
    && Justified(e.c, e.storage, e.criterias, e.r, t)
    && forall x :: x in t.catalogComplete && x !in s.catalogComplete && Live(e.c, e.criterias, x) && x !in stack ==>
         Handled(e.c, e.storage, e.known, t, x)
  }

  /** The traversal of oid, begun at s, has got to t with the dependencies todo to go. */
  ghost predicate Progress(e: Scope, oid: Oid, s: Sets, t: Sets, todo: set<Oid>) {
    && oid in e.c && oid in e.r && todo <= e.c[oid].dependencies && oid in t.catalogComplete
    && Collected(e, s, t, {oid})
    && Handled(e.c, e.storage, e.known + todo, t.(catalogIncomplete := t.catalogIncomplete + todo), oid)
  }

  function RecordContent(o: Object, storage: set<Oid>, s: Sets): Sets {
    if !o.File? then s
    else if o.content in storage then s.(storageComplete := s.storageComplete + {o.content})
    else s.(storageIncomplete := s.storageIncomplete + {o.content})
  }

  lemma ProgressStarts(e: Scope, oid: Oid, s: Sets)
    requires oid in e.c && oid in e.r && Justified(e.c, e.storage, e.criterias, e.r, s)
    ensures Progress(e, oid, s, RecordContent(e.c[oid], e.storage, s.(catalogComplete := s.catalogComplete + {oid})), e.c[oid].dependencies)
  {}

  lemma ProgressAbsent(e: Scope, oid: Oid, s: Sets, t: Sets, todo: set<Oid>, dep: Oid)
    requires Progress(e, oid, s, t, todo) && dep in todo && dep !in e.c
    ensures Progress(e, oid, s, t.(catalogIncomplete := t.catalogIncomplete + {dep}), todo - {dep})
  {}

  lemma ProgressStop(e: Scope, oid: Oid, s: Sets, t: Sets, todo: set<Oid>, dep: Oid)
    requires Progress(e, oid, s, t, todo) && dep in todo && dep in e.c && !Match(e.c[dep], e.criterias)
    ensures Progress(e, oid, s, t.(catalogComplete := t.catalogComplete + {dep}), todo - {dep})
  {}

  lemma ProgressRecursed(e: Scope, oid: Oid, s: Sets, t: Sets, todo: set<Oid>, dep: Oid, t': Sets)
    requires Progress(e, oid, s, t, todo) && dep in todo && dep in e.c
    requires Collected(e, t, t', {}) && (dep in e.known || dep in t'.catalogComplete)
    ensures Progress(e, oid, s, t', todo - {dep})
  {
    forall x | x in t'.catalogComplete && x !in s.catalogComplete && Live(e.c, e.criterias, x) && x != oid
      ensures Handled(e.c, e.storage, e.known, t', x)
    {
      if x in t.catalogComplete {
        assert Handled(e.c, e.storage, e.known, t, x);
      }
    }
  }

  lemma ProgressEnds(e: Scope, oid: Oid, s: Sets, t: Sets)
    requires Progress(e, oid, s, t, {})
    ensures Collected(e, s, t, {})
  {
    assert e.known + {} == e.known;
    assert t.(catalogIncomplete := t.catalogIncomplete + {}) == t;
  }

  /** The four sets that collectObjectsIndex fills by reference. */
  class Collector {
    var catalogIncomplete: set<Oid>
    var catalogComplete: set<Oid>
    var storageIncomplete: set<Oid>
    var storageComplete: set<Oid>

    constructor ()
      ensures View() == NO_SETS
    {
      catalogIncomplete, catalogComplete, storageIncomplete, storageComplete := {}, {}, {}, {};
    }

    function View(): Sets
      reads this
    {
      Sets(catalogIncomplete, catalogComplete, storageIncomplete, storageComplete)
    }

    /** collectObjectsIndex.  r is any closed set around oid: nothing outside it is collected. */
    method Collect(e: Scope, oid: Oid, o: Object)
      requires oid in e.c && e.c[oid] == o && Match(o, e.criterias)
      requires Closed(e.c, e.criterias, e.r) && oid in e.r
      requires Justified(e.c, e.storage, e.criterias, e.r, View())
      modifies this
      ensures Collected(e, old(View()), View(), {})
      ensures oid in e.known || oid in catalogComplete
      decreases e.c.Keys - catalogComplete
    {
      hide Justified, Handled, Progress, Collected, Closed;
      ghost var s := View();
      if oid in e.known || oid in catalogComplete {
        NothingCollected(e, s);
        return;
      }
      ProgressStarts(e, oid, s);
      catalogComplete := catalogComplete + {oid};
      if o.File? {
        if o.content in e.storage {
          storageComplete := storageComplete + {o.content};
        } else {
          storageIncomplete := storageIncomplete + {o.content};
        }
      }
      var todo := o.dependencies;
      while todo != {}
        invariant Progress(e, oid, s, View(), todo)
        invariant s.catalogComplete + {oid} <= catalogComplete
      {
        var dep :| dep in todo;
        ghost var t := View();
        if dep !in e.c {
          catalogIncomplete := catalogIncomplete + {dep};
          ProgressAbsent(e, oid, s, t, todo, dep);
        } else if !Match(e.c[dep], e.criterias) {
          catalogComplete := catalogComplete + {dep};
          ProgressStop(e, oid, s, t, todo, dep);
        } else {
          ProgressAllows(e, oid, s, t, todo, dep);
          Collect(e, dep, e.c[dep]);
          ProgressRecursed(e, oid, s, t, todo, dep, View());
          CollectedGrows(e, t, View());
        }
        todo := todo - {dep};
      }
      ProgressEnds(e, oid, s, View());
    }
  }

  lemma NothingCollected(e: Scope, s: Sets)
    requires Justified(e.c, e.storage, e.criterias, e.r, s)
    ensures Collected(e, s, s, {})
  {}

  lemma CollectedGrows(e: Scope, s: Sets, t: Sets)
    requires Collected(e, s, t, {})
    ensures s.catalogComplete <= t.catalogComplete
  {}

  lemma ProgressAllows(e: Scope, oid: Oid, s: Sets, t: Sets, todo: set<Oid>, dep: Oid)
    requires Progress(e, oid, s, t, todo) && dep in todo && dep in e.c && Match(e.c[dep], e.criterias)
    requires Closed(e.c, e.criterias, e.r)
    ensures Justified(e.c, e.storage, e.criterias, e.r, t) && dep in e.r
  {
    assert Live(e.c, e.criterias, dep);
  }
}
