/** The archive format of stiac: what is written for a value, and what is read back. */
module Archive {
  import opened MachineInts
  import opened Options
  import opened Bytes

  const TWO_32: nat := 0x1_0000_0000

  /** A value read and the bytes behind it; nothing when the input is malformed. */
  type Loaded<T> = Option<(T, seq<u8>)>

  // ----- small unsigned integers -----

  /** Seven bits a byte, the lowest first, with bit 7 set while more follow; every byte
      that follows counts from one more, so no number has a shorter form.  After `left`
      such bytes comes one of eight bits. */
  function SmallBytes(u: nat, left: nat): (b: seq<u8>)
    ensures |b| >= 1
    decreases left
  {
    if left == 0 then [u % 0x100]
    else if u < 0x80 then [u]
    else [u % 0x80 + 0x80] + SmallBytes(u / 0x80 - 1, left - 1)
  }

  /** The reader adds up all eight bits of every byte. */
  function RawSmall(s: seq<u8>, left: nat): Loaded<nat>
    decreases left
  {
    if s == [] then None
    else if left == 0 || s[0] < 0x80 then Some((s[0], s[1..]))
    else
      var (v, rest) :- RawSmall(s[1..], left - 1);
      Some((s[0] + 0x80 * v, rest))
  }

  /** What fits in `left` bytes of seven bits and one of eight. */
  function SmallRoom(left: nat): nat {
    if left == 0 then 0x100 else 0x80 * SmallRoom(left - 1)
  }

  lemma {:induction false} RawSmallOf(u: nat, left: nat, t: seq<u8>)
    requires u < SmallRoom(left)
    ensures RawSmall(SmallBytes(u, left) + t, left) == Some((u, t))
    decreases left
  {
    var b := SmallBytes(u, left);
    if left == 0 || u < 0x80 {
      assert (b + t)[1..] == t;
    } else {
      var c := SmallBytes(u / 0x80 - 1, left - 1);
      RawSmallOf(u / 0x80 - 1, left - 1, t);
      assert (b + t)[1..] == c + t;
    }
  }

  function SaveSmall32(u: u32): (b: seq<u8>)
    ensures |b| >= 1
  {
    SmallBytes(u, 4)
  }

  function LoadSmall32(s: seq<u8>): Loaded<u32> {
    var (v, rest) :- RawSmall(s, 4);
    Some((v % TWO_32, rest))
  }

  function SaveSmall64(u: u64): seq<u8> { SmallBytes(u, 8) }

  function LoadSmall64(s: seq<u8>): Loaded<u64> {
    var (v, rest) :- RawSmall(s, 8);
    Some((v % TWO_64, rest))
  }

  lemma Small32(u: u32, t: seq<u8>)
    ensures LoadSmall32(SaveSmall32(u) + t) == Some((u, t))
  {
    assert SmallRoom(2) == 0x40_0000;
    RawSmallOf(u, 4, t);
  }

  lemma Small64(u: u64, t: seq<u8>)
    ensures LoadSmall64(SaveSmall64(u) + t) == Some((u, t))
  {
    assert SmallRoom(2) == 0x40_0000;
    assert SmallRoom(4) == 0x10_0000_0000;
    assert SmallRoom(6) == 0x4_0000_0000_0000;
    RawSmallOf(u, 8, t);
  }

  // ----- small signed integers -----

  function ZigZag(v: i32): u32 { if v >= 0 then 2 * v else -2 * v - 1 }

  function UnZigZag(z: u32): i32 { if z % 2 == 0 then z / 2 else -(z / 2) - 1 }

  function SaveInt(v: i32): seq<u8> { SaveSmall32(ZigZag(v)) }

  function LoadInt(s: seq<u8>): Loaded<i32> {
    var (z, rest) :- LoadSmall32(s);
    Some((UnZigZag(z), rest))
  }

  lemma SmallInt(v: i32, t: seq<u8>)
    ensures LoadInt(SaveInt(v) + t) == Some((v, t))
  {
    Small32(ZigZag(v), t);
  }

  // ----- bytes -----

  function Take(s: seq<u8>, n: nat): Loaded<seq<u8>> {
    if |s| < n then None else Some((s[..n], s[n..]))
  }

  lemma TakeBack(b: seq<u8>, t: seq<u8>)
    ensures Take(b + t, |b|) == Some((b, t))
  {
    assert (b + t)[..|b|] == b && (b + t)[|b|..] == t;
  }

  function SaveU16(v: u16): seq<u8> { Encode(v, 2) }

  function LoadU16(s: seq<u8>): Loaded<u16> {
    var (b, rest) :- Take(s, 2);
    assert Pow256(2) == 0x1_0000;
    Some((LittleEndian(b), rest))
  }

  lemma Fixed16(v: u16, t: seq<u8>)
    ensures LoadU16(SaveU16(v) + t) == Some((v, t))
  {
    TakeBack(SaveU16(v), t);
    EncodeDecodes(v, 2);
    assert Pow256(2) == 0x1_0000;
  }

  /** A string: its length in 32 bits and that many bytes. */
  function SaveText(x: seq<u8>): (b: seq<u8>)
    ensures |b| >= 1
  {
    SaveSmall32(|x| % TWO_32) + x[..|x| % TWO_32]
  }

  function LoadText(s: seq<u8>): Loaded<seq<u8>> {
    var (n, rest) :- LoadSmall32(s);
    Take(rest, n)
  }

  lemma Texts(x: seq<u8>, t: seq<u8>)
    requires |x| < TWO_32
    ensures LoadText(SaveText(x) + t) == Some((x, t))
  {
    hide SaveSmall32, LoadSmall32;
    assert x[..|x|] == x;
    assert SaveText(x) + t == SaveSmall32(|x|) + (x + t);
    Small32(|x|, x + t);
    TakeBack(x, t);
  }

  // ----- sets -----

  /** A strict total order. */
  ghost predicate Order<T(!new)>(less: (T, T) -> bool) {
    && (forall a, b :: less(a, b) ==> !less(b, a))
    && (forall a, b :: a != b ==> less(a, b) || less(b, a))
    && (forall a, b, c :: less(a, b) && less(b, c) ==> less(a, c))
  }

  predicate IsLeast<T(==)>(s: set<T>, less: (T, T) -> bool, m: T) {
    m in s && forall y :: y in s && y != m ==> less(m, y)
  }

  lemma {:induction false} LeastExists<T(!new)>(s: set<T>, less: (T, T) -> bool)
    requires Order(less) && s != {}
    ensures exists m :: IsLeast(s, less, m)
  {
    var x :| x in s;
    if s == {x} {
      assert IsLeast(s, less, x);
    } else {
      LeastExists(s - {x}, less);
      var n :| IsLeast(s - {x}, less, n);
      assert IsLeast(s, less, if less(x, n) then x else n);
    }
  }

  /** The elements in ascending order, as an iteration over a set gives them. */
  function Sorted<T(==,!new)>(s: set<T>, less: (T, T) -> bool): (xs: seq<T>)
    requires Order(less)
    ensures |xs| == |s| && (forall x :: x in xs <==> x in s)
    ensures forall i, j :: 0 <= i < j < |xs| ==> less(xs[i], xs[j])
  {
    if s == {} then []
    else
      LeastExists(s, less);
      var m :| IsLeast(s, less, m);
      [m] + Sorted(s - {m}, less)
  }

  /** The elements one behind another. */
  function SaveMany<T>(save: T -> seq<u8>, xs: seq<T>): seq<u8> {
    if xs == [] then [] else save(xs[0]) + SaveMany(save, xs[1..])
  }

  /** The set of the next n elements, in whatever order and however often they come. */
  function LoadMany<T(==)>(load: seq<u8> -> Loaded<T>, s: seq<u8>, n: nat): Loaded<set<T>>
    decreases n
  {
    if n == 0 then Some(({}, s))
    else
      var (x, rest) :- load(s);
      var (others, end) :- LoadMany(load, rest, n - 1);
      Some(({x} + others, end))
  }

  function Elements<T(==)>(xs: seq<T>): set<T> { set x | x in xs }

  /** load reads back what save wrote for x. */
  ghost predicate ReadsBack<T(!new)>(save: T -> seq<u8>, load: seq<u8> -> Loaded<T>, x: T) {
    forall t :: load(save(x) + t) == Some((x, t))
  }

  lemma {:induction false} AnyList<T(!new)>(save: T -> seq<u8>, load: seq<u8> -> Loaded<T>, xs: seq<T>, t: seq<u8>)
    requires forall x :: x in xs ==> ReadsBack(save, load, x)
    ensures LoadMany(load, SaveMany(save, xs) + t, |xs|) == Some((Elements(xs), t))
  {
    if xs == [] {
      assert SaveMany(save, xs) + t == t && Elements(xs) == {};
    } else {
      var rest := SaveMany(save, xs[1..]) + t;
      assert SaveMany(save, xs) + t == save(xs[0]) + rest;
      assert xs[0] in xs && ReadsBack(save, load, xs[0]);
      assert load(save(xs[0]) + rest) == Some((xs[0], rest));
      AnyList(save, load, xs[1..], t);
      assert Elements(xs) == {xs[0]} + Elements(xs[1..]);
    }
  }

  /** A set: its size in 32 bits and its elements in ascending order. */
  function SaveSet<T(==,!new)>(save: T -> seq<u8>, less: (T, T) -> bool, s: set<T>): seq<u8>
    requires Order(less)
  {
    SaveSmall32(|s| % TWO_32) + SaveMany(save, Sorted(s, less))
  }

  function LoadSet<T(==)>(load: seq<u8> -> Loaded<T>, s: seq<u8>): Loaded<set<T>> {
    var (n, rest) :- LoadSmall32(s);
    if n > |rest| then None else LoadMany(load, rest, n)
  }

  lemma {:induction false} SaveManyLength<T>(save: T -> seq<u8>, xs: seq<T>)
    requires forall x :: x in xs ==> |save(x)| >= 1
    ensures |SaveMany(save, xs)| >= |xs|
  {
    if xs != [] {
      SaveManyLength(save, xs[1..]);
    }
  }

  /** Any list of elements, ascending or not, is read as the set of them. */
  lemma ListRead<T(!new)>(save: T -> seq<u8>, load: seq<u8> -> Loaded<T>, xs: seq<T>, t: seq<u8>)
    requires |xs| < TWO_32 && forall x :: x in xs ==> ReadsBack(save, load, x) && |save(x)| >= 1
    ensures LoadSet(load, SaveSmall32(|xs|) + SaveMany(save, xs) + t) == Some((Elements(xs), t))
  {
    hide SaveSmall32, LoadSmall32;
    var rest := SaveMany(save, xs) + t;
    assert SaveSmall32(|xs|) + SaveMany(save, xs) + t == SaveSmall32(|xs|) + rest;
    Small32(|xs|, rest);
    SaveManyLength(save, xs);
    AnyList(save, load, xs, t);
  }

  lemma SetRead<T(!new)>(save: T -> seq<u8>, load: seq<u8> -> Loaded<T>, less: (T, T) -> bool, s: set<T>, t: seq<u8>)
    requires Order(less) && |s| < TWO_32 && forall x :: x in s ==> ReadsBack(save, load, x) && |save(x)| >= 1
    ensures LoadSet(load, SaveSet(save, less, s) + t) == Some((s, t))
  {
    hide LoadSet, SaveSmall32, LoadSmall32, ReadsBack, Order, Sorted, SaveMany;
    var xs := Sorted(s, less);
    ListRead(save, load, xs, t);
    assert Elements(xs) == s;
  }

  // ----- the order of strings -----

  /** Byte by byte from the first; a proper prefix comes before. */
  predicate Before(a: seq<u8>, b: seq<u8>) {
    if b == [] then false else if a == [] then true
    else a[0] < b[0] || (a[0] == b[0] && Before(a[1..], b[1..]))
  }

  lemma {:induction false} BeforeAsymmetric(a: seq<u8>, b: seq<u8>)
    requires Before(a, b)
    ensures !Before(b, a)
  {
    if a != [] && a[0] == b[0] {
      BeforeAsymmetric(a[1..], b[1..]);
    }
  }

  lemma {:induction false} BeforeTotal(a: seq<u8>, b: seq<u8>)
    ensures a == b || Before(a, b) || Before(b, a)
  {
    if a != [] && b != [] && a[0] == b[0] {
      BeforeTotal(a[1..], b[1..]);
      assert a == [a[0]] + a[1..] && b == [b[0]] + b[1..];
    }
  }

  lemma {:induction false} BeforeTransitive(a: seq<u8>, b: seq<u8>, c: seq<u8>)
    requires Before(a, b) && Before(b, c)
    ensures Before(a, c)
  {
    if a != [] && a[0] == b[0] == c[0] {
      BeforeTransitive(a[1..], b[1..], c[1..]);
    }
  }

  lemma BeforeIsOrder()
    ensures Order(Before)
  {
    forall a, b
      ensures Before(a, b) ==> !Before(b, a)
      ensures a != b ==> Before(a, b) || Before(b, a)
    {
      BeforeTotal(a, b);
      if Before(a, b) {
        BeforeAsymmetric(a, b);
      }
    }
    forall a, b, c | Before(a, b) && Before(b, c)
      ensures Before(a, c)
    {
      BeforeTransitive(a, b, c);
    }
  }
}
