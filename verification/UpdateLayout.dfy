/** The serialization of catalog objects in plain bytes, for counts and lengths below 128. */
module UpdateLayout {
  import opened MachineInts
  import opened Bytes
  import opened Archive
  import opened UpdateCatalog
  import opened UpdateCodec

  lemma OneByteForm(u: u32)
    requires u < 128
    ensures SaveSmall32(u) == [u] && SaveSmall64(u) == [u]
  {}

  /** The first numbers of two and of three bytes, and the last 32-bit number. */
  lemma LongerForms()
    ensures SaveSmall32(128) == [128, 0] && SaveSmall32(16511) == [255, 127] && SaveSmall32(16512) == [128, 128, 0]
    ensures SaveSmall32(0xFFFF_FFFF) == [255, 254, 254, 254, 14]
  {
    assert SmallBytes(128, 3) == [128] + SmallBytes(0, 2);
    assert SmallBytes(14, 0) == [14];
    assert SmallBytes(2046, 1) == [254] + SmallBytes(14, 0);
    assert SmallBytes(262142, 2) == [254] + SmallBytes(2046, 1);
    assert SmallBytes(33554430, 3) == [254] + SmallBytes(262142, 2);
  }

  // ----- ids -----

  lemma {:induction false} EncodeBigUnique(w: seq<u8>)
    ensures EncodeBig(BigEndian(w), |w|) == w
  {
    if w != [] {
      var n := |w| - 1;
      EncodeBigUnique(w[..n]);
      FirstByte(w[n], BigEndian(w[..n]));
      assert w == w[..n] + [w[n]];
    }
  }

  type Id = w: seq<u8> | |w| == 32 witness seq(32, _ => 0)

  function Number(w: Id): Oid {
    Pow256Values();
    BigEndian(w)
  }

  lemma IdBytes(w: Id)
    ensures SaveOid(Number(w)) == w
  {
    EncodeBigUnique(w);
  }

  lemma {:induction false} FirstOfBig(x: u8, t: seq<u8>)
    ensures BigEndian([x] + t) == x * Pow256(|t|) + BigEndian(t)
  {
    var s := [x] + t;
    if t == [] {
      assert s[..0] == [];
    } else {
      var n := |t| - 1;
      FirstOfBig(x, t[..n]);
      assert s[..|s| - 1] == [x] + t[..n] && s[|s| - 1] == t[n];
      Regroup(BigEndian(t[..n]), 0x100, 0, 0, 0);
      assert 0x100 * (x * Pow256(n)) == x * (0x100 * Pow256(n));
    }
  }

  /** Byte by byte from the first is the order of the big-endian numbers. */
  lemma {:induction false} OrderOfBytes(a: seq<u8>, b: seq<u8>)
    requires |a| == |b|
    ensures Before(a, b) <==> BigEndian(a) < BigEndian(b)
  {
    if a != [] {
      OrderOfBytes(a[1..], b[1..]);
      assert a == [a[0]] + a[1..] && b == [b[0]] + b[1..];
      FirstOfBig(a[0], a[1..]);
      FirstOfBig(b[0], b[1..]);
      FirstDecides(a[0], b[0], Pow256(|a| - 1), BigEndian(a[1..]), BigEndian(b[1..]));
    }
  }

  lemma FirstDecides(x: u8, y: u8, m: nat, v: nat, w: nat)
    requires v < m && w < m
    ensures x * m + v < y * m + w <==> x < y || (x == y && v < w)
  {
    if x < y {
      Product(x + 1, y, m, m);
    } else if y < x {
      Product(y + 1, x, m, m);
    }
  }

  // ----- lists in order -----

  ghost predicate Ascending<T>(xs: seq<T>, less: (T, T) -> bool) {
    forall i, j :: 0 <= i < j < |xs| ==> less(xs[i], xs[j])
  }

  lemma SameHead<T(!new)>(xs: seq<T>, ys: seq<T>, less: (T, T) -> bool)
    requires Order(less) && Ascending(xs, less) && Ascending(ys, less)
    requires xs != [] && ys != [] && xs[0] in ys && ys[0] in xs
    ensures xs[0] == ys[0]
  {
    var i :| 0 <= i < |xs| && xs[i] == ys[0];
    var j :| 0 <= j < |ys| && ys[j] == xs[0];
  }

  lemma AscendingTail<T(!new)>(xs: seq<T>, less: (T, T) -> bool)
    requires Order(less) && Ascending(xs, less) && xs != []
    ensures Ascending(xs[1..], less) && Elements(xs[1..]) == Elements(xs) - {xs[0]}
  {
    forall x
      ensures x in xs[1..] <==> x in xs && x != xs[0]
    {
      if x in xs && x != xs[0] {
        var i :| 0 <= i < |xs| && xs[i] == x;
        assert xs[1..][i - 1] == x;
      }
      if x in xs[1..] {
        var i :| 0 <= i < |xs| - 1 && xs[1..][i] == x;
        assert less(xs[0], xs[i + 1]);
      }
    }
  }

  lemma HeadIsElement<T>(xs: seq<T>)
    ensures xs != [] ==> xs[0] in Elements(xs)
  {}

  lemma AscendingDistinct<T(!new)>(xs: seq<T>, less: (T, T) -> bool)
    requires Order(less) && Ascending(xs, less)
    ensures forall i, j :: 0 <= i < j < |xs| ==> xs[i] != xs[j]
  {}

  lemma {:induction false} SameLists<T(!new)>(xs: seq<T>, ys: seq<T>, less: (T, T) -> bool)
    requires Order(less) && Ascending(xs, less) && Ascending(ys, less) && Elements(xs) == Elements(ys)
    ensures xs == ys
  {
    hide Order, Ascending;
    if xs == [] {
      HeadIsElement(ys);
    } else {
      assert xs[0] in Elements(ys);
      assert ys[0] in Elements(xs);
      SameHead(xs, ys, less);
      AscendingTail(xs, less);
      AscendingTail(ys, less);
      SameLists(xs[1..], ys[1..], less);
    }
  }

  /** A set written is its ascending list. */
  lemma SortedIs<T(!new)>(xs: seq<T>, less: (T, T) -> bool)
    requires Order(less) && Ascending(xs, less)
    ensures Sorted(Elements(xs), less) == xs
  {
    var ys := Sorted(Elements(xs), less);
    hide Order, Sorted;
    assert Elements(ys) == Elements(xs);
    SameLists(xs, ys, less);
  }

  function Flat(ds: seq<seq<u8>>): seq<u8> {
    if ds == [] then [] else ds[0] + Flat(ds[1..])
  }

  lemma {:induction false} Concatenated<T>(save: T -> seq<u8>, xs: seq<T>, ds: seq<seq<u8>>)
    requires |xs| == |ds| && forall i :: 0 <= i < |xs| ==> save(xs[i]) == ds[i]
    ensures SaveMany(save, xs) == Flat(ds)
  {
    if xs != [] {
      Concatenated(save, xs[1..], ds[1..]);
    }
  }

  lemma {:induction false} DistinctSize<T>(xs: seq<T>)
    requires forall i, j :: 0 <= i < j < |xs| ==> xs[i] != xs[j]
    ensures |Elements(xs)| == |xs|
  {
    if xs == [] {
      assert Elements(xs) == {};
    } else {
      DistinctSize(xs[1..]);
      assert Elements(xs) == {xs[0]} + Elements(xs[1..]) && xs[0] !in Elements(xs[1..]);
    }
  }

  lemma SetLayout<T(!new)>(save: T -> seq<u8>, less: (T, T) -> bool, xs: seq<T>, ds: seq<seq<u8>>)
    requires Order(less) && Ascending(xs, less) && |xs| == |ds| < 128 && forall i :: 0 <= i < |xs| ==> save(xs[i]) == ds[i]
    ensures SaveSet(save, less, Elements(xs)) == [|ds|] + Flat(ds)
  {
    hide Sorted, SaveMany, Flat, Order, Ascending, Elements, SaveSmall32;
    SortedIs(xs, less);
    AscendingDistinct(xs, less);
    DistinctSize(xs);
    Concatenated(save, xs, ds);
    OneByteForm(|ds|);
  }

  lemma TextLayout(x: Text)
    requires |x| < 128
    ensures SaveText(x) == [|x|] + x
  {
    OneByteForm(|x|);
    assert x[..|x|] == x;
  }

  // ----- objects -----

  function Numbers(ds: seq<Id>): (xs: seq<Oid>)
    ensures |xs| == |ds|
  {
    seq(|ds|, i requires 0 <= i < |ds| => Number(ds[i]))
  }

  ghost predicate InOrder(ds: seq<Id>) {
    forall i, j :: 0 <= i < j < |ds| ==> Before(ds[i], ds[j])
  }

  lemma IdsLayout(ds: seq<Id>)
    requires |ds| < 128 && InOrder(ds)
    ensures SaveSet(SaveOid, OidBefore, Elements(Numbers(ds))) == [|ds|] + Flat(ds)
  {
    hide SaveSet, Flat, SaveOid, Number;
    var xs := Numbers(ds);
    forall i, j | 0 <= i < j < |xs|
      ensures OidBefore(xs[i], xs[j])
    {
      assert Before(ds[i], ds[j]);
      NumbersInOrder(ds[i], ds[j]);
    }
    forall i | 0 <= i < |xs|
      ensures SaveOid(xs[i]) == ds[i]
    {
      IdBytes(ds[i]);
    }
    SetLayout(SaveOid, OidBefore, xs, ds);
  }

  lemma NumbersInOrder(a: Id, b: Id)
    requires Before(a, b)
    ensures OidBefore(Number(a), Number(b))
  {
    OrderOfBytes(a, b);
  }

  /** The type, the ascending dependencies, and the fields. */
  lemma ObjectLayout(o: Object, ds: seq<Id>)
    requires |ds| < 128 && InOrder(ds) && o.dependencies == Elements(Numbers(ds))
    ensures Serialize(o) == [if o.File? then 2 else if o.Unit? then 4 else 6] + ([|ds|] + Flat(ds) + SaveFields(o))
  {
    IdsLayout(ds);
    hide SaveFields, Before, SaveSet, Flat, Numbers, InOrder;
    OneByteForm(ZigZag(TypeOf(o)));
  }

  lemma FileLayout(o: Object, w: Id)
    requires o.File? && 0 <= o.kind < 64 && |o.path| < 128 && o.size < 128 && o.content == Number(w)
    ensures SaveFields(o) == [2 * o.kind] + [|o.path|] + o.path + [o.perms % 256, o.perms / 256] + [o.size] + w
  {
    hide SaveText, SaveOid;
    OneByteForm(ZigZag(o.kind));
    OneByteForm(o.size);
    TextLayout(o.path);
    TwoBytes(o.perms);
    IdBytes(w);
  }

  lemma TwoBytes(v: u16)
    ensures SaveU16(v) == [v % 256, v / 256]
  {
    assert Encode(v / 256, 1) == [v / 256 % 256] + Encode(v / 256 / 256, 0);
  }

  function Prefixed(xs: seq<Text>): (ds: seq<seq<u8>>)
    requires forall x :: x in xs ==> |x| < 128
    ensures |ds| == |xs|
  {
    seq(|xs|, i requires 0 <= i < |xs| => [|xs[i]|] + xs[i])
  }

  lemma UnitLayout(o: Object, xs: seq<Text>)
    requires o.Unit? && |o.name| < 128 && |xs| < 128 && (forall x :: x in xs ==> |x| < 128)
    requires Ascending(xs, Before) && o.extraAllowed == Elements(xs)
    ensures SaveFields(o) == [|o.name|] + o.name + [|xs|] + Flat(Prefixed(xs))
  {
    BeforeIsOrder();
    hide SaveText, Before, SaveSet, Order, Flat;
    TextLayout(o.name);
    forall i | 0 <= i < |xs|
      ensures SaveText(xs[i]) == Prefixed(xs)[i]
    {
      TextLayout(xs[i]);
    }
    SetLayout(SaveText, Before, xs, Prefixed(xs));
  }

  lemma BuildLayout(b: Build)
    requires |b.compiler| < 128 && |b.compilerVersion| < 128 && |b.compilerOptimization| < 128 && b.stability < 128
    ensures SaveBuild(b) == [|b.compiler|] + b.compiler + [|b.compilerVersion|] + b.compilerVersion
      + [|b.compilerOptimization|] + b.compilerOptimization + [b.stability]
  {
    hide SaveText, SaveSmall32;
    TextLayout(b.compiler);
    TextLayout(b.compilerVersion);
    TextLayout(b.compilerOptimization);
    OneByteForm(b.stability);
  }

  lemma ReleaseLayout(o: Object, vendorSign: Id)
    requires o.Release? && o.key.vendorSign == Number(vendorSign) && o.srcMoment < 128 && o.build.stability < 128
    requires |o.key.srcBranch| < 128 && |o.srcRevision| < 128 && |o.key.platformOs| < 128 && |o.key.platformArch| < 128
    requires |o.build.compiler| < 128 && |o.build.compilerVersion| < 128 && |o.build.compilerOptimization| < 128 && |o.key.vendor| < 128
    ensures SaveFields(o) ==
      ([|o.key.srcBranch|] + o.key.srcBranch + [|o.srcRevision|] + o.srcRevision + [o.srcMoment])
      + ([|o.key.platformOs|] + o.key.platformOs + [|o.key.platformArch|] + o.key.platformArch)
      + ([|o.build.compiler|] + o.build.compiler + [|o.build.compilerVersion|] + o.build.compilerVersion
         + [|o.build.compilerOptimization|] + o.build.compilerOptimization + [o.build.stability])
      + ([|o.key.vendor|] + o.key.vendor + vendorSign + o.signature)
  {
    hide SaveText, SaveOid, SaveSmall64, SaveBuild, Number;
    var key := o.key;
    TextLayout(key.srcBranch);
    TextLayout(o.srcRevision);
    OneByteForm(o.srcMoment);
    TextLayout(key.platformOs);
    TextLayout(key.platformArch);
    BuildLayout(o.build);
    TextLayout(key.vendor);
    IdBytes(vendorSign);
    NineParts(SaveText(key.srcBranch), SaveText(o.srcRevision), SaveSmall64(o.srcMoment), SaveText(key.platformOs),
              SaveText(key.platformArch), SaveBuild(o.build), SaveText(key.vendor), vendorSign, o.signature);
  }

  lemma NineParts(a: seq<u8>, b: seq<u8>, c: seq<u8>, d: seq<u8>, e: seq<u8>, f: seq<u8>, g: seq<u8>, h: seq<u8>, i: seq<u8>)
    ensures a + (b + (c + (d + (e + (f + (g + (h + i))))))) == (a + b + c) + (d + e) + f + (g + h + i)
  {}
}
