/** The catalog of the update service: a content-addressed graph of releases, units
    and files, and what a set of criteria reaches in it. */
module UpdateCatalog {
  import opened MachineInts

  const TWO_256: nat := 0x1_0000000000000000_0000000000000000_0000000000000000_0000000000000000

  /** Arrays of 32 bytes: object ids and public keys.  They are compared byte by byte
      from the first, which is the order of the big-endian numbers. */
  type Oid = x: nat | x < TWO_256

  /** The bytes of a string. */
  type Text = seq<u8>

  type Signature = s: seq<u8> | |s| == 64 witness seq(64, _ => 0)

  /** The five release fields that identify a line of releases. */
  datatype Key = Key(srcBranch: Text, platformOs: Text, platformArch: Text, vendor: Text, vendorSign: Oid)

  /** How a release was built. */
  datatype Build = Build(compiler: Text, compilerVersion: Text, compilerOptimization: Text, stability: u32)

  datatype Object =
    | File(dependencies: set<Oid>, kind: i32, path: Text, perms: u16, size: u32, content: Oid)
    | Unit(dependencies: set<Oid>, name: Text, extraAllowed: set<Text>)
    | Release(dependencies: set<Oid>, key: Key, srcRevision: Text, srcMoment: u64, build: Build, signature: Signature)

  type Catalog = map<Oid, Object>

  /** Criteria::match of one criteria. */
  type Criteria = Object -> bool

  /** Instance::match: some criteria of the list matches. */
  predicate Match(o: Object, criterias: seq<Criteria>) {
    exists i :: 0 <= i < |criterias| && criterias[i](o)
  }

  /** Present and matching: an object the traversals go through. */
  predicate Live(c: Catalog, criterias: seq<Criteria>, x: Oid) {
    x in c && Match(c[x], criterias)
  }

  /** A chain of live objects, each a dependency of the one before, from a root. */
  ghost predicate IsPath(c: Catalog, criterias: seq<Criteria>, roots: set<Oid>, p: seq<Oid>) {
    && |p| > 0
    && p[0] in roots
    && (forall i :: 0 <= i < |p| ==> Live(c, criterias, p[i]))
    && (forall i :: 0 < i < |p| ==> p[i] in c[p[i - 1]].dependencies)
  }

  /** What the criteria reach from the roots. */
  ghost function Reach(c: Catalog, criterias: seq<Criteria>, roots: set<Oid>): set<Oid> {
    set x | x in c.Keys && exists p :: IsPath(c, criterias, roots, p) && p[|p| - 1] == x
  }

  ghost predicate Closed(c: Catalog, criterias: seq<Criteria>, s: set<Oid>) {
    forall x, d :: x in s && x in c && d in c[x].dependencies && Live(c, criterias, d) ==> d in s
  }

  lemma ReachIsLive(c: Catalog, criterias: seq<Criteria>, roots: set<Oid>, x: Oid)
    requires x in Reach(c, criterias, roots)
    ensures Live(c, criterias, x)
  {}

  lemma ReachHasRoots(c: Catalog, criterias: seq<Criteria>, roots: set<Oid>, x: Oid)
    requires x in roots && Live(c, criterias, x)
    ensures x in Reach(c, criterias, roots)
  {
    assert IsPath(c, criterias, roots, [x]);
  }

  lemma ReachIsClosed(c: Catalog, criterias: seq<Criteria>, roots: set<Oid>)
    ensures Closed(c, criterias, Reach(c, criterias, roots))
  {
    forall x, d | x in Reach(c, criterias, roots) && d in c[x].dependencies && Live(c, criterias, d)
      ensures d in Reach(c, criterias, roots)
    {
      var p :| IsPath(c, criterias, roots, p) && p[|p| - 1] == x;
      assert IsPath(c, criterias, roots, p + [d]);
      assert (p + [d])[|p + [d]| - 1] == d;
    }
  }

  /** Every closed set that holds the live roots holds everything reached. */
  lemma ReachIsLeast(c: Catalog, criterias: seq<Criteria>, roots: set<Oid>, s: set<Oid>)
    requires Closed(c, criterias, s)
    requires forall x :: x in roots && Live(c, criterias, x) ==> x in s
    ensures Reach(c, criterias, roots) <= s
  {
    forall x | x in Reach(c, criterias, roots)
      ensures x in s
    {
      var p :| IsPath(c, criterias, roots, p) && p[|p| - 1] == x;
      PathStaysInside(c, criterias, roots, s, p);
    }
  }

  lemma {:induction false} PathStaysInside(c: Catalog, criterias: seq<Criteria>, roots: set<Oid>, s: set<Oid>, p: seq<Oid>)
    requires Closed(c, criterias, s)
    requires forall x :: x in roots && Live(c, criterias, x) ==> x in s
    requires IsPath(c, criterias, roots, p)
    ensures p[|p| - 1] in s
  {
    if |p| > 1 {
      var q := p[..|p| - 1];
      assert IsPath(c, criterias, roots, q);
      PathStaysInside(c, criterias, roots, s, q);
      assert p[|p| - 1] in c[q[|q| - 1]].dependencies;
    }
  }
}
