/** The serialization of catalog objects: their type and their fields in a fixed order. */
module UpdateCodec {
  import opened MachineInts
  import opened Options
  import opened Bytes
  import opened Archive
  import opened UpdateCatalog

  type Blob = seq<u8>

  // ----- ids: 32 bytes, the highest first -----

  function BigEndian(b: seq<u8>): (v: nat)
    ensures v < Pow256(|b|)
  {
    if b == [] then 0 else 0x100 * BigEndian(b[..|b| - 1]) + b[|b| - 1]
  }

  function EncodeBig(v: nat, n: nat): (b: seq<u8>)
    ensures |b| == n
    decreases n
  {
    if n == 0 then [] else EncodeBig(v / 0x100, n - 1) + [v % 0x100]
  }

  lemma {:induction false} EncodeBigDecodes(v: nat, n: nat)
    ensures BigEndian(EncodeBig(v, n)) == v % Pow256(n)
    decreases n
  {
    if n == 0 {
      assert v % 1 == 0;
    } else {
      EncodeBigDecodes(v / 0x100, n - 1);
      assert EncodeBig(v, n)[..n - 1] == EncodeBig(v / 0x100, n - 1);
      DivDiv(v, 0x100, Pow256(n - 1));
    }
  }

  function SaveOid(x: Oid): (b: seq<u8>)
    ensures |b| == 32
  {
    EncodeBig(x, 32)
  }

  function LoadOid(s: seq<u8>): Loaded<Oid> {
    var (b, rest) :- Take(s, 32);
    Pow256Values();
    Some((BigEndian(b), rest))
  }

  lemma OidRead(x: Oid, t: seq<u8>)
    ensures LoadOid(SaveOid(x) + t) == Some((x, t))
  {
    hide Pow256, BigEndian, EncodeBig, Take;
    TakeBack(SaveOid(x), t);
    EncodeBigDecodes(x, 32);
    Pow256Values();
  }

  predicate OidBefore(a: Oid, b: Oid) { a < b }

  function SaveSignature(x: Signature): seq<u8> { x }

  function LoadSignature(s: seq<u8>): Loaded<Signature> { Take(s, 64) }

  // ----- objects -----

  function TypeOf(o: Object): i32 {
    match o
    case File(_, _, _, _, _, _) => 1
    case Unit(_, _, _) => 2
    case Release(_, _, _, _, _, _) => 3
  }

  function SaveFields(o: Object): seq<u8> {
    match o
    case File(_, kind, path, perms, size, content) =>
      SaveInt(kind) + (SaveText(path) + (SaveU16(perms) + (SaveSmall32(size) + SaveOid(content))))
    case Unit(_, name, extraAllowed) =>
      BeforeIsOrder();
      SaveText(name) + SaveSet(SaveText, Before, extraAllowed)
    case Release(_, key, srcRevision, srcMoment, build, signature) =>
      SaveText(key.srcBranch) + (SaveText(srcRevision) + (SaveSmall64(srcMoment) + (SaveText(key.platformOs) +
        (SaveText(key.platformArch) + (SaveBuild(build) + (SaveText(key.vendor) +
          (SaveOid(key.vendorSign) + SaveSignature(signature))))))))
  }

  function SaveBuild(b: Build): seq<u8> {
    SaveText(b.compiler) + (SaveText(b.compilerVersion) + (SaveText(b.compilerOptimization) + SaveSmall32(b.stability)))
  }

  function Serialize(o: Object): Blob {
    SaveInt(TypeOf(o)) + (SaveSet(SaveOid, OidBefore, o.dependencies) + SaveFields(o))
  }

  function LoadFile(deps: set<Oid>, s0: seq<u8>): Loaded<Object> {
    var (kind, s1) :- LoadInt(s0);
    var (path, s2) :- LoadText(s1);
    var (perms, s3) :- LoadU16(s2);
    var (size, s4) :- LoadSmall32(s3);
    var (content, s5) :- LoadOid(s4);
    Some((File(deps, kind, path, perms, size, content), s5))
  }

  function LoadUnit(deps: set<Oid>, s0: seq<u8>): Loaded<Object> {
    var (name, s1) :- LoadText(s0);
    var (extraAllowed, s2) :- LoadSet(LoadText, s1);
    Some((Unit(deps, name, extraAllowed), s2))
  }

  function LoadBuild(s0: seq<u8>): Loaded<Build> {
    var (compiler, s1) :- LoadText(s0);
    var (compilerVersion, s2) :- LoadText(s1);
    var (compilerOptimization, s3) :- LoadText(s2);
    var (stability, s4) :- LoadSmall32(s3);
    Some((Build(compiler, compilerVersion, compilerOptimization, stability), s4))
  }

  function LoadRelease(deps: set<Oid>, s0: seq<u8>): Loaded<Object> {
    var (srcBranch, s1) :- LoadText(s0);
    var (srcRevision, s2) :- LoadText(s1);
    var (srcMoment, s3) :- LoadSmall64(s2);
    var (platformOs, s4) :- LoadText(s3);
    var (platformArch, s5) :- LoadText(s4);
    var (build, s6) :- LoadBuild(s5);
    var (vendor, s7) :- LoadText(s6);
    var (vendorSign, s8) :- LoadOid(s7);
    var (signature, s9) :- LoadSignature(s8);
    var key := Key(srcBranch, platformOs, platformArch, vendor, vendorSign);
    Some((Release(deps, key, srcRevision, srcMoment, build, signature), s9))
  }

  function LoadFields(kind: i32, deps: set<Oid>, s: seq<u8>): Loaded<Object> {
    if kind == 1 then LoadFile(deps, s)
    else if kind == 2 then LoadUnit(deps, s)
    else if kind == 3 then LoadRelease(deps, s)
    else None
  }

  /** An object takes up the whole blob; an unknown type is refused before anything
      else is read. */
  function Deserialize(b: Blob): Option<Object> {
    var (kind, s) :- LoadInt(b);
    if kind !in {1, 2, 3} then None
    else
      var (deps, fields) :- LoadSet(LoadOid, s);
      var (o, rest) :- LoadFields(kind, deps, fields);
      if rest == [] then Some(o) else None
  }

  /** Lengths and sizes fit in the 32 bits they are written in. */
  predicate Encodable(o: Object) {
    && |o.dependencies| < TWO_32
    && match o
       case File(_, _, path, _, _, _) => |path| < TWO_32
       case Unit(_, name, extraAllowed) =>
         |name| < TWO_32 && |extraAllowed| < TWO_32 && forall x :: x in extraAllowed ==> |x| < TWO_32
       case Release(_, key, srcRevision, _, build, _) =>
         && |key.srcBranch| < TWO_32 && |srcRevision| < TWO_32 && |key.platformOs| < TWO_32
         && |key.platformArch| < TWO_32 && |key.vendor| < TWO_32
         && |build.compiler| < TWO_32 && |build.compilerVersion| < TWO_32 && |build.compilerOptimization| < TWO_32
  }

  lemma OidsReadBack()
    ensures forall x: Oid :: ReadsBack(SaveOid, LoadOid, x)
  {
    forall x: Oid, t
      ensures LoadOid(SaveOid(x) + t) == Some((x, t))
    {
      OidRead(x, t);
    }
  }

  lemma TextReadsBack(x: Text)
    requires |x| < TWO_32
    ensures ReadsBack(SaveText, LoadText, x)
  {
    forall t
      ensures LoadText(SaveText(x) + t) == Some((x, t))
    {
      Texts(x, t);
    }
  }

  lemma TextsRead(xs: set<Text>, t: seq<u8>)
    requires |xs| < TWO_32 && forall x :: x in xs ==> |x| < TWO_32
    ensures Order(Before)
    ensures LoadSet(LoadText, SaveSet(SaveText, Before, xs) + t) == Some((xs, t))
  {
    BeforeIsOrder();
    hide LoadText, ReadsBack, LoadSet, SaveSet, Before, Order;
    forall x | x in xs
      ensures ReadsBack(SaveText, LoadText, x)
    {
      TextReadsBack(x);
    }
    SetRead(SaveText, LoadText, Before, xs, t);
  }

  lemma FileRead(o: Object)
    requires o.File? && Encodable(o)
    ensures LoadFile(o.dependencies, SaveFields(o)) == Some((o, []))
  {
    hide SaveInt, LoadInt, SaveText, LoadText, SaveU16, LoadU16, SaveSmall32, LoadSmall32, SaveOid, LoadOid;
    var t4 := SaveOid(o.content);
    var t3 := SaveSmall32(o.size) + t4;
    var t2 := SaveU16(o.perms) + t3;
    var t1 := SaveText(o.path) + t2;
    SmallInt(o.kind, t1);
    Texts(o.path, t2);
    Fixed16(o.perms, t3);
    Small32(o.size, t4);
    OidRead(o.content, []);
    assert t4 + [] == t4;
  }

  lemma UnitRead(o: Object)
    requires o.Unit? && Encodable(o)
    ensures LoadUnit(o.dependencies, SaveFields(o)) == Some((o, []))
  {
    hide SaveText, LoadText, SaveSet, LoadSet, Order, Before;
    TextsRead(o.extraAllowed, []);
    var t := SaveSet(SaveText, Before, o.extraAllowed);
    Texts(o.name, t);
    assert t + [] == t;
  }

  lemma BuildRead(b: Build, t: seq<u8>)
    requires |b.compiler| < TWO_32 && |b.compilerVersion| < TWO_32 && |b.compilerOptimization| < TWO_32
    ensures LoadBuild(SaveBuild(b) + t) == Some((b, t))
  {
    hide SaveText, LoadText, SaveSmall32, LoadSmall32;
    var t3 := SaveSmall32(b.stability) + t;
    var t2 := SaveText(b.compilerOptimization) + t3;
    var t1 := SaveText(b.compilerVersion) + t2;
    assert SaveBuild(b) + t == SaveText(b.compiler) + t1;
    Texts(b.compiler, t1);
    Texts(b.compilerVersion, t2);
    Texts(b.compilerOptimization, t3);
    Small32(b.stability, t);
  }

  lemma ReleaseRead(o: Object)
    requires o.Release? && Encodable(o)
    ensures LoadRelease(o.dependencies, SaveFields(o)) == Some((o, []))
  {
    hide SaveText, LoadText, SaveSmall64, LoadSmall64, SaveOid, LoadOid, SaveBuild, LoadBuild;
    var key := o.key;
    var t8: seq<u8> := SaveSignature(o.signature);
    var t7 := SaveOid(key.vendorSign) + t8;
    var t6 := SaveText(key.vendor) + t7;
    var t5 := SaveBuild(o.build) + t6;
    var t4 := SaveText(key.platformArch) + t5;
    var t3 := SaveText(key.platformOs) + t4;
    var t2 := SaveSmall64(o.srcMoment) + t3;
    var t1 := SaveText(o.srcRevision) + t2;
    Texts(key.srcBranch, t1);
    Texts(o.srcRevision, t2);
    Small64(o.srcMoment, t3);
    Texts(key.platformOs, t4);
    Texts(key.platformArch, t5);
    BuildRead(o.build, t6);
    Texts(key.vendor, t7);
    OidRead(key.vendorSign, t8);
    assert Take(t8, 64) == Some((t8, [])) by { assert t8[..64] == t8 && t8[64..] == []; }
  }

  lemma FieldsRead(o: Object)
    requires Encodable(o)
    ensures LoadFields(TypeOf(o), o.dependencies, SaveFields(o)) == Some((o, []))
  {
    hide SaveFields, LoadFile, LoadUnit, LoadRelease;
    match o
    case File(_, _, _, _, _, _) => FileRead(o);
    case Unit(_, _, _) => UnitRead(o);
    case Release(_, _, _, _, _, _) => ReleaseRead(o);
  }

  /** The dependencies may come in any order and repeated: any list of them is read as
      the same object. */
  function Listing(kind: i32, deps: seq<Oid>, fields: seq<u8>): Blob {
    SaveInt(kind) + (SaveSmall32(|deps| % TWO_32) + SaveMany(SaveOid, deps) + fields)
  }

  lemma ListingRead(deps: seq<Oid>, o: Object)
    requires |deps| < TWO_32 && Elements(deps) == o.dependencies && Encodable(o)
    ensures Deserialize(Listing(TypeOf(o), deps, SaveFields(o))) == Some(o)
  {
    hide SaveInt, LoadInt, LoadOid, LoadSet, SaveMany, SaveFields, LoadFields, SaveSmall32, ReadsBack, Encodable;
    var tail := SaveSmall32(|deps|) + SaveMany(SaveOid, deps) + SaveFields(o);
    SmallInt(TypeOf(o), tail);
    OidsReadBack();
    ListRead(SaveOid, LoadOid, deps, SaveFields(o));
    FieldsRead(o);
  }

  /** What is written is read back. */
  lemma RoundTrip(o: Object)
    requires Encodable(o)
    ensures Deserialize(Serialize(o)) == Some(o)
  {
    hide SaveMany, SaveFields, LoadFields, Sorted, Deserialize, SaveSmall32, SaveInt;
    var deps := Sorted(o.dependencies, OidBefore);
    assert Elements(deps) == o.dependencies;
    assert Serialize(o) == Listing(TypeOf(o), deps, SaveFields(o));
    ListingRead(deps, o);
  }

  // ----- blobs that are not the serialization of what they hold -----

  lemma SaveManyOids(xs: seq<Oid>, ys: seq<Oid>)
    requires SaveMany(SaveOid, xs) == SaveMany(SaveOid, ys) && |xs| == |ys|
    ensures xs == ys
  {
    hide LoadOid, SaveOid, ReadsBack;
    OidsReadBack();
    AnyPrefix(xs, ys);
  }

  lemma {:induction false} AnyPrefix(xs: seq<Oid>, ys: seq<Oid>)
    requires SaveMany(SaveOid, xs) == SaveMany(SaveOid, ys) && |xs| == |ys|
    ensures xs == ys
  {
    if xs != [] {
      var s, t := SaveMany(SaveOid, xs[1..]), SaveMany(SaveOid, ys[1..]);
      OidRead(xs[0], s);
      OidRead(ys[0], t);
      AnyPrefix(xs[1..], ys[1..]);
    }
  }

  /** A listing of the dependencies is the serialization exactly when it is ascending
      and without repetitions. */
  lemma ListingCanonical(o: Object, deps: seq<Oid>)
    requires Elements(deps) == o.dependencies && |deps| < TWO_32 && Encodable(o)
    ensures Listing(TypeOf(o), deps, SaveFields(o)) == Serialize(o) <==> deps == Sorted(o.dependencies, OidBefore)
  {
    hide SaveMany, SaveFields, Sorted, SaveSmall32, SaveInt, LoadInt, LoadSmall32;
    var sorted := Sorted(o.dependencies, OidBefore);
    assert Elements(sorted) == o.dependencies;
    assert Serialize(o) == Listing(TypeOf(o), sorted, SaveFields(o));
    if Listing(TypeOf(o), deps, SaveFields(o)) == Serialize(o) {
      SameListing(TypeOf(o), deps, sorted, SaveFields(o));
    }
  }

  lemma SameListing(kind: i32, xs: seq<Oid>, ys: seq<Oid>, f: seq<u8>)
    requires |xs| < TWO_32 && |ys| < TWO_32 && Listing(kind, xs, f) == Listing(kind, ys, f)
    ensures xs == ys
  {
    hide SaveMany, SaveSmall32, SaveInt, LoadInt, LoadSmall32;
    var s, t := SaveMany(SaveOid, xs) + f, SaveMany(SaveOid, ys) + f;
    assert Listing(kind, xs, f) == SaveInt(kind) + (SaveSmall32(|xs|) + s);
    assert Listing(kind, ys, f) == SaveInt(kind) + (SaveSmall32(|ys|) + t);
    SmallInt(kind, SaveSmall32(|xs|) + s);
    SmallInt(kind, SaveSmall32(|ys|) + t);
    Small32(|xs|, s);
    Small32(|ys|, t);
    assert SaveMany(SaveOid, xs) == s[..|s| - |f|] && SaveMany(SaveOid, ys) == t[..|t| - |f|];
    SaveManyOids(xs, ys);
  }

  // ----- what can be read -----

  lemma {:induction false} LoadManySize<T>(load: seq<u8> -> Loaded<T>, s: seq<u8>, n: nat)
    ensures var r := LoadMany(load, s, n); r.Some? ==> |r.value.0| <= n
    decreases n
  {
    if n > 0 && load(s).Some? {
      LoadManySize(load, load(s).value.1, n - 1);
    }
  }

  lemma TextSize(s: seq<u8>)
    ensures LoadText(s).Some? ==> |LoadText(s).value.0| < TWO_32
  {}

  lemma {:induction false} LoadManyTexts(s: seq<u8>, n: nat)
    ensures var r := LoadMany(LoadText, s, n); r.Some? ==> forall x :: x in r.value.0 ==> |x| < TWO_32
    decreases n
  {
    TextSize(s);
    hide LoadText;
    if n > 0 && LoadText(s).Some? {
      LoadManyTexts(LoadText(s).value.1, n - 1);
    }
  }

  lemma LoadSetSize<T>(load: seq<u8> -> Loaded<T>, s: seq<u8>)
    ensures var r := LoadSet(load, s); r.Some? ==> |r.value.0| < TWO_32
  {
    if LoadSmall32(s).Some? {
      var (n, rest) := LoadSmall32(s).value;
      LoadManySize(load, rest, n);
    }
  }

  lemma LoadedTexts(s: seq<u8>)
    ensures var r := LoadSet(LoadText, s); r.Some? ==> forall x :: x in r.value.0 ==> |x| < TWO_32
  {
    if LoadSmall32(s).Some? {
      var (n, rest) := LoadSmall32(s).value;
      LoadManyTexts(rest, n);
    }
  }

  /** Whatever a blob holds can be written again: writing and reading is the identity on
      objects that were read, even where the blob is not what is written. */
  lemma LoadedIsEncodable(b: Blob)
    requires Deserialize(b).Some?
    ensures Encodable(Deserialize(b).value)
    ensures Deserialize(Serialize(Deserialize(b).value)) == Deserialize(b)
  {
    hide RawSmall, LoadMany, Serialize;
    var (kind, s) := LoadInt(b).value;
    LoadSetSize(LoadOid, s);
    var (deps, fields) := LoadSet(LoadOid, s).value;
    FieldsEncodable(kind, deps, fields);
    RoundTrip(Deserialize(b).value);
  }

  lemma FieldsEncodable(kind: i32, deps: set<Oid>, s: seq<u8>)
    requires |deps| < TWO_32 && LoadFields(kind, deps, s).Some?
    ensures Encodable(LoadFields(kind, deps, s).value.0)
  {
    hide LoadInt, LoadText, LoadSet, LoadOid, LoadU16, LoadSmall32, LoadSmall64, LoadSignature;
    if kind == 1 {
      TextSize(LoadInt(s).value.1);
    } else if kind == 2 {
      var (_, t) := LoadText(s).value;
      TextSize(s);
      LoadSetSize(LoadText, t);
      LoadedTexts(t);
    } else {
      ReleaseEncodable(deps, s);
    }
  }

  lemma ReleaseEncodable(deps: set<Oid>, s: seq<u8>)
    requires |deps| < TWO_32 && LoadRelease(deps, s).Some?
    ensures Encodable(LoadRelease(deps, s).value.0)
  {
    hide LoadText, LoadOid, LoadSmall32, LoadSmall64, LoadSignature;
    TextSize(s);
    var s1 := LoadText(s).value.1;
    TextSize(s1);
    var s3 := LoadSmall64(LoadText(s1).value.1).value.1;
    TextSize(s3);
    var s4 := LoadText(s3).value.1;
    TextSize(s4);
    var s5 := LoadText(s4).value.1;
    TextSize(s5);
    var b1 := LoadText(s5).value.1;
    TextSize(b1);
    TextSize(LoadText(b1).value.1);
    TextSize(LoadBuild(s5).value.1);
  }
}
