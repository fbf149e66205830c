/**
  The address-space allocator of a reserved aperture, on values: an aperture keeps a sorted list
  of occupied areas, an allocation takes the first hole that fits, a release shrinks, splits or
  removes the area it lies in. Addresses and sizes wrap around at 64 bits as in the source.
 */
module Areas {
  import opened Machine
  import opened Align

  /** An occupied range; `end` is its last address. */
  datatype Area = Area(start: U64, end: U64)

  datatype Aperture = Aperture(base: U64, limit: U64, align: U64, guardPages: nat, pageSize: nat)

  /** Neither end of an aperture that is in use is 0. */
  predicate Usable(ap: Aperture) {
    0 < ap.base < ap.limit
  }

  /** `address` is 0 when the caller leaves the choice to the allocator. */
  datatype Request = Request(address: U64, size: U64, align: U64)

  /** The addresses handed out for one request, guard pages included. */
  datatype Block = Block(start: U64, len: nat)

  predicate Has(b: Block, x: int) {
    b.start <= x < b.start + b.len
  }

  predicate Disjoint(b: Block, c: Block) {
    b.start + b.len <= c.start || c.start + c.len <= b.start
  }

  // ---- Allocation ----

  function Max(a: int, b: int): int {
    if a < b then b else a
  }

  /** The allocator shifts alignments left until they are big enough, so one of them must not be zero. */
  predicate Alignable(ap: Aperture, rq: Request) {
    Max(rq.align, ap.align) > 0
  }

  /** Powers of two, or zero where the caller does not care: what masks can round to. */
  predicate PowersOfTwo(ap: Aperture, rq: Request) {
    && (rq.align == 0 || IsPow2(rq.align)) && (ap.align == 0 || IsPow2(ap.align))
    && Alignable(ap, rq)
  }

  function Alignment(ap: Aperture, rq: Request): (a: int)
    requires Alignable(ap, rq)
    ensures a > 0
  {
    Boosted(Max(rq.align, ap.align), rq.size)
  }

  /** Requests for at most a page of alignment get their end aligned instead of their start. */
  function Offset(ap: Aperture, rq: Request): int
    requires Alignable(ap, rq)
  {
    var a := Alignment(ap, rq);
    if rq.align <= ap.pageSize then a - rq.size % a else 0
  }

  function Guards(ap: Aperture): nat {
    ap.guardPages * ap.pageSize
  }

  function Padded(ap: Aperture, size: U64): U64 {
    Wrap(size + Guards(ap))
  }

  /** The first address that the search considers behind the `i`-th area. */
  function Behind(ap: Aperture, areas: seq<Area>, i: nat): U64
    requires i <= |areas|
  {
    if i == 0 then ap.base else Wrap(areas[i - 1].end + 1)
  }

  function StartAt(ap: Aperture, areas: seq<Area>, rq: Request, i: nat): U64
    requires Alignable(ap, rq) && i <= |areas|
  {
    if rq.address != 0 then rq.address
    else Wrap(AlignUp(Behind(ap, areas, i), Alignment(ap, rq)) + Offset(ap, rq))
  }

  predicate HoleAt(ap: Aperture, areas: seq<Area>, rq: Request, i: nat)
    requires Alignable(ap, rq) && i < |areas|
  {
    var s := StartAt(ap, areas, rq, i);
    areas[i].start > s && areas[i].start - s >= Padded(ap, rq.size)
  }

  /** The position of the first area, from the `i`-th on, that leaves a big enough hole before it. */
  function FirstHole(ap: Aperture, areas: seq<Area>, rq: Request, i: nat): (r: nat)
    requires Alignable(ap, rq) && i <= |areas|
    ensures i <= r <= |areas|
    ensures r < |areas| ==> HoleAt(ap, areas, rq, r)
    ensures forall j | i <= j < r :: !HoleAt(ap, areas, rq, j)
    decreases |areas| - i
  {
    if i < |areas| && !HoleAt(ap, areas, rq, i) then FirstHole(ap, areas, rq, i + 1) else i
  }

  /** Where a request is placed: the position in the list and the address. */
  function Place(ap: Aperture, areas: seq<Area>, rq: Request): Option<(nat, U64)>
    requires Alignable(ap, rq)
  {
    var i := FirstHole(ap, areas, rq, 0);
    var s := StartAt(ap, areas, rq, i);
    if i == |areas| && Wrap(ap.limit - s + 1) < Padded(ap, rq.size) then None
    else if i > 0 && rq.address != 0 && rq.address < AlignUp(Behind(ap, areas, i), Alignment(ap, rq)) then None
    else Some((i, s))
  }

  /** A block at `s` starts right behind the area before position `i`. */
  predicate Joins(areas: seq<Area>, i: nat, s: U64)
    requires i <= |areas|
  {
    i > 0 && Wrap(areas[i - 1].end + 1) == s
  }

  /** The list after a block was placed before its `i`-th area: the area before it grows, or there is a new one. */
  function Placed(areas: seq<Area>, i: nat, s: U64, len: nat): seq<Area>
    requires i <= |areas|
  {
    var last := Wrap(s + len - 1);
    if Joins(areas, i, s) then areas[i - 1 := Area(areas[i - 1].start, last)]
    else areas[..i] + [Area(s, last)] + areas[i..]
  }

  // ---- Release ----

  /** The position of the first area that contains the address, or the length of the list. */
  function FindArea(areas: seq<Area>, address: U64, i: nat): (r: nat)
    requires i <= |areas|
    ensures i <= r <= |areas|
    ensures r < |areas| ==> areas[r].start <= address <= areas[r].end
    ensures forall j | i <= j < r :: !(areas[j].start <= address <= areas[j].end)
    decreases |areas| - i
  {
    if i < |areas| && !(areas[i].start <= address <= areas[i].end) then FindArea(areas, address, i + 1) else i
  }

  /** What becomes of the area `a` when `len` addresses from `address` on are given back. */
  function Reduced(a: Area, address: U64, len: U64): seq<Area> {
    var region := Wrap(a.end - a.start + 1);
    if region == len then []
    else if region < len then [a]
    else if a.start == address then [Area(Wrap(a.start + len), a.end)]
    else if Wrap(a.end - address + 1) == len then [Area(a.start, Wrap(a.end - len))]
    else [Area(a.start, Wrap(address - 1)), Area(Wrap(address + len), a.end)]
  }

  /** The list after `len` addresses from `address` on were given back. */
  function Released(areas: seq<Area>, address: U64, len: U64): seq<Area> {
    var i := FindArea(areas, address, 0);
    if i == |areas| then areas else areas[..i] + Reduced(areas[i], address, len) + areas[i + 1..]
  }

  /** Giving the addresses back leaves two areas where there was one. */
  predicate NeedsSplit(areas: seq<Area>, address: U64, len: U64) {
    var i := FindArea(areas, address, 0);
    i < |areas| && |Reduced(areas[i], address, len)| == 2
  }

  // ---- What the list says ----

  /**
    Areas are not empty, in order of address, and do not overlap; neighbours may touch. The
    topmost 64-bit address is never used, so that the length of an area is a 64-bit number.
   */
  predicate WellFormed(areas: seq<Area>) {
    && (forall i | 0 <= i < |areas| :: areas[i].start <= areas[i].end < TWO_64 - 1)
    && (forall i, j | 0 <= i < j < |areas| :: areas[i].end < areas[j].start)
  }

  predicate At(a: Area, x: int) {
    a.start <= x <= a.end
  }

  ghost predicate Covered(areas: seq<Area>, x: int) {
    exists i | 0 <= i < |areas| :: At(areas[i], x)
  }

  predicate Within(a: Area, b: Block) {
    a.start <= b.start && b.start + b.len <= a.end + 1
  }

  /** The block lies inside one single area. */
  ghost predicate Inside(areas: seq<Area>, b: Block) {
    exists i | 0 <= i < |areas| :: Within(areas[i], b)
  }

  /** Position `i` offers room for the block `b`. */
  predicate Fits(areas: seq<Area>, i: nat, b: Block) {
    && i <= |areas| && 0 < b.len && b.start + b.len < TWO_64
    && (i > 0 ==> areas[i - 1].end < b.start)
    && (i < |areas| ==> b.start + b.len <= areas[i].start)
  }

  lemma {:induction false} CoveredConcat(a: seq<Area>, b: seq<Area>, x: int)
    ensures Covered(a + b, x) <==> Covered(a, x) || Covered(b, x)
  {
    var s := a + b;
    if i :| 0 <= i < |a| && At(a[i], x) {
      assert At(s[i], x);
    }
    if i :| 0 <= i < |b| && At(b[i], x) {
      assert At(s[|a| + i], x);
    }
  }

  lemma {:induction false} InsideConcat(a: seq<Area>, b: seq<Area>, c: Block)
    ensures Inside(a + b, c) <==> Inside(a, c) || Inside(b, c)
  {
    var s := a + b;
    if i :| 0 <= i < |a| && Within(a[i], c) {
      assert Within(s[i], c);
    }
    if i :| 0 <= i < |b| && Within(b[i], c) {
      assert Within(s[|a| + i], c);
    }
  }

  /** The list with the areas from the `i`-th up to the `j`-th exchanged for `m`. */
  function Exchanged(areas: seq<Area>, i: nat, j: nat, m: seq<Area>): seq<Area>
    requires i <= j <= |areas|
  {
    areas[..i] + m + areas[j..]
  }

  lemma {:induction false} ExchangedWellFormed(areas: seq<Area>, i: nat, j: nat, m: seq<Area>)
    requires WellFormed(areas) && i <= j <= |areas| && WellFormed(m)
    requires m != [] && i > 0 ==> areas[i - 1].end < m[0].start
    requires m != [] && j < |areas| ==> m[|m| - 1].end < areas[j].start
    ensures WellFormed(Exchanged(areas, i, j, m))
  {
    var r := Exchanged(areas, i, j, m);
    forall k | 0 <= k < |r|
      ensures r[k].start <= r[k].end < TWO_64 - 1
    {
      ExchangedElement(areas, i, j, m, k);
    }
    forall k, l | 0 <= k < l < |r|
      ensures r[k].end < r[l].start
    {
      ExchangedElement(areas, i, j, m, k);
      ExchangedElement(areas, i, j, m, l);
    }
  }

  lemma {:induction false} ExchangedElement(areas: seq<Area>, i: nat, j: nat, m: seq<Area>, k: nat)
    requires WellFormed(areas) && i <= j <= |areas| && WellFormed(m) && k < |Exchanged(areas, i, j, m)|
    ensures Exchanged(areas, i, j, m)[k] ==
      if k < i then areas[k] else if k < i + |m| then m[k - i] else areas[k - i - |m| + j]
    ensures k < i ==> areas[k].end <= areas[i - 1].end
    ensures i <= k < i + |m| ==> m[0].start <= m[k - i].start && m[k - i].end <= m[|m| - 1].end
    ensures i + |m| <= k ==> areas[j].start <= areas[k - i - |m| + j].start
  {
  }

  /** Exchanging a part of the list changes the coverage exactly as it changes that part's. */
  lemma {:induction false} ExchangedCovers(areas: seq<Area>, i: nat, j: nat, m: seq<Area>, x: int)
    requires i <= j <= |areas|
    ensures Covered(areas, x) <==> Covered(areas[..i], x) || Covered(areas[i..j], x) || Covered(areas[j..], x)
    ensures Covered(Exchanged(areas, i, j, m), x) <==> Covered(areas[..i], x) || Covered(m, x) || Covered(areas[j..], x)
  {
    CoveredConcat(areas[..i], m, x);
    CoveredConcat(areas[..i] + m, areas[j..], x);
    CoveredConcat(areas[..i], areas[i..j], x);
    CoveredConcat(areas[..i] + areas[i..j], areas[j..], x);
    assert areas == areas[..i] + areas[i..j] + areas[j..];
  }

  lemma {:induction false} ExchangedInside(areas: seq<Area>, i: nat, j: nat, m: seq<Area>, c: Block)
    requires i <= j <= |areas|
    ensures Inside(areas, c) <==> Inside(areas[..i], c) || Inside(areas[i..j], c) || Inside(areas[j..], c)
    ensures Inside(Exchanged(areas, i, j, m), c) <==> Inside(areas[..i], c) || Inside(m, c) || Inside(areas[j..], c)
  {
    InsideConcat(areas[..i], m, c);
    InsideConcat(areas[..i] + m, areas[j..], c);
    InsideConcat(areas[..i], areas[i..j], c);
    InsideConcat(areas[..i] + areas[i..j], areas[j..], c);
    assert areas == areas[..i] + areas[i..j] + areas[j..];
  }

  lemma {:induction false} CoveredOne(a: Area, x: int)
    ensures Covered([a], x) <==> At(a, x)
  {
    assert [a][0] == a;
  }

  lemma {:induction false} InsideOne(a: Area, c: Block)
    ensures Inside([a], c) <==> Within(a, c)
  {
    assert [a][0] == a;
  }

  /** The untouched parts of the list lie outside what is exchanged. */
  lemma {:induction false} Apart(areas: seq<Area>, i: nat, j: nat, x: int)
    requires WellFormed(areas) && i <= j <= |areas|
    requires (i > 0 ==> areas[i - 1].end < x) && (j < |areas| ==> x < areas[j].start)
    ensures !Covered(areas[..i], x) && !Covered(areas[j..], x)
  {
  }

  /** Placing exchanges at most one area for a bigger one. */
  lemma {:induction false} PlacedExchange(areas: seq<Area>, i: nat, b: Block) returns (h: nat, a: Area)
    requires WellFormed(areas) && Fits(areas, i, b)
    ensures h <= i && Placed(areas, i, b.start, b.len) == Exchanged(areas, h, i, [a]) && Within(a, b)
    ensures a.end == b.start + b.len - 1
    ensures || (h == i && areas[h..i] == [] && a.start == b.start)
            || (h == i - 1 && areas[h..i] == [areas[h]] && a.start == areas[h].start && areas[h].end + 1 == b.start)
  {
    var joins := i > 0 && areas[i - 1].end + 1 == b.start;
    h := if joins then i - 1 else i;
    a := Area(if joins then areas[h].start else b.start, b.start + b.len - 1);
  }

  lemma {:induction false} PlacedCovers(areas: seq<Area>, i: nat, b: Block, x: int)
    requires WellFormed(areas) && Fits(areas, i, b)
    ensures Covered(Placed(areas, i, b.start, b.len), x) <==> Covered(areas, x) || Has(b, x)
    ensures Has(b, x) ==> !Covered(areas, x)
  {
    var h, a := PlacedExchange(areas, i, b);
    ExchangedCovers(areas, h, i, [a], x);
    CoveredOne(a, x);
    if h < i {
      CoveredOne(areas[h], x);
    }
    if Has(b, x) {
      Apart(areas, h, i, x);
    }
  }

  lemma {:induction false} PlacedInside(areas: seq<Area>, i: nat, b: Block, c: Block)
    requires WellFormed(areas) && Fits(areas, i, b)
    ensures c == b || Inside(areas, c) ==> Inside(Placed(areas, i, b.start, b.len), c)
  {
    var h, a := PlacedExchange(areas, i, b);
    ExchangedInside(areas, h, i, [a], c);
    InsideOne(a, c);
    if h < i {
      InsideOne(areas[h], c);
    }
  }

  /**
    Placing a block covers exactly that block in addition; it was free before, lies inside one
    area afterwards, and so does every block that did before.
   */
  lemma {:induction false} PlacedKeeps(areas: seq<Area>, i: nat, b: Block)
    requires WellFormed(areas) && Fits(areas, i, b)
    ensures var r := Placed(areas, i, b.start, b.len);
      && WellFormed(r)
      && (forall x :: Covered(r, x) <==> Covered(areas, x) || Has(b, x))
      && (forall x | Has(b, x) :: !Covered(areas, x))
      && (forall c | c == b || Inside(areas, c) :: Inside(r, c))
  {
    var h, a := PlacedExchange(areas, i, b);
    ExchangedWellFormed(areas, h, i, [a]);
    var r := Placed(areas, i, b.start, b.len);
    forall x
      ensures Covered(r, x) <==> Covered(areas, x) || Has(b, x)
      ensures Has(b, x) ==> !Covered(areas, x)
    {
      PlacedCovers(areas, i, b, x);
    }
    forall c | c == b || Inside(areas, c)
      ensures Inside(r, c)
    {
      PlacedInside(areas, i, b, c);
    }
  }

  // ---- Release of a live block ----

  /** What remains of an area when a block inside it is given back. */
  function Remainder(a: Area, b: Block): (m: seq<Area>)
    requires Within(a, b) && 0 < b.len
  {
    (if a.start < b.start then [Area(a.start, b.start - 1)] else []) +
    (if b.start + b.len <= a.end then [Area(b.start + b.len, a.end)] else [])
  }

  lemma {:induction false} RemainderIs(a: Area, b: Block, x: int, c: Block)
    requires Within(a, b) && 0 < b.len
    ensures Covered(Remainder(a, b), x) <==> At(a, x) && !Has(b, x)
    ensures Within(a, c) && Disjoint(b, c) && 0 < c.len ==> Inside(Remainder(a, b), c)
  {
    var l := if a.start < b.start then [Area(a.start, b.start - 1)] else [];
    var r := if b.start + b.len <= a.end then [Area(b.start + b.len, a.end)] else [];
    CoveredConcat(l, r, x);
    InsideConcat(l, r, c);
    assert l != [] ==> l[0] == Area(a.start, b.start - 1);
    assert r != [] ==> r[0] == Area(b.start + b.len, a.end);
    assert l != [] && Within(Area(a.start, b.start - 1), c) ==> Within(l[0], c);
    assert r != [] && Within(Area(b.start + b.len, a.end), c) ==> Within(r[0], c);
  }

  lemma {:induction false} FoundArea(areas: seq<Area>, b: Block, i: nat)
    requires WellFormed(areas) && i < |areas| && Within(areas[i], b) && 0 < b.len
    ensures FindArea(areas, b.start, 0) == i
  {
    var j := FindArea(areas, b.start, 0);
    assert At(areas[i], b.start);
  }

  lemma {:induction false} ReducedIs(a: Area, b: Block)
    requires Within(a, b) && 0 < b.len < TWO_64 && a.end < TWO_64 - 1
    ensures Reduced(a, b.start, b.len) == Remainder(a, b)
  {
  }

  /** Releasing a block exchanges the area it lies in for what remains of that area. */
  lemma {:induction false} ReleasedExchange(areas: seq<Area>, b: Block) returns (i: nat)
    requires WellFormed(areas) && Inside(areas, b) && 0 < b.len < TWO_64
    ensures i < |areas| && Within(areas[i], b)
    ensures Released(areas, b.start, b.len) == Exchanged(areas, i, i + 1, Remainder(areas[i], b))
  {
    i :| 0 <= i < |areas| && Within(areas[i], b);
    FoundArea(areas, b, i);
    ReducedIs(areas[i], b);
  }

  lemma {:induction false} RemainderWellFormed(a: Area, b: Block)
    requires Within(a, b) && 0 < b.len && a.end < TWO_64 - 1
    ensures var m := Remainder(a, b); WellFormed(m) && (m != [] ==> a.start <= m[0].start && m[|m| - 1].end <= a.end)
  {
  }

  lemma {:induction false} ReleasedCovers(areas: seq<Area>, b: Block, i: nat, x: int)
    requires WellFormed(areas) && i < |areas| && Within(areas[i], b) && 0 < b.len
    ensures Covered(Exchanged(areas, i, i + 1, Remainder(areas[i], b)), x) <==> Covered(areas, x) && !Has(b, x)
  {
    ExchangedCovers(areas, i, i + 1, Remainder(areas[i], b), x);
    assert areas[i..i + 1] == [areas[i]];
    CoveredOne(areas[i], x);
    RemainderIs(areas[i], b, x, b);
    if Has(b, x) {
      Apart(areas, i, i + 1, x);
    }
  }

  lemma {:induction false} ReleasedInside(areas: seq<Area>, b: Block, i: nat, c: Block)
    requires WellFormed(areas) && i < |areas| && Within(areas[i], b) && 0 < b.len
    requires Inside(areas, c) && Disjoint(b, c) && 0 < c.len
    ensures Inside(Exchanged(areas, i, i + 1, Remainder(areas[i], b)), c)
  {
    ExchangedInside(areas, i, i + 1, Remainder(areas[i], b), c);
    assert areas[i..i + 1] == [areas[i]];
    InsideOne(areas[i], c);
    RemainderIs(areas[i], b, 0, c);
  }

  /**
    Releasing a block uncovers exactly that block, and every other block that lay inside one
    area still does.
   */
  lemma {:induction false} ReleasedKeeps(areas: seq<Area>, b: Block)
    requires WellFormed(areas) && Inside(areas, b) && 0 < b.len < TWO_64
    ensures var r := Released(areas, b.start, b.len);
      && WellFormed(r)
      && (forall x :: Covered(r, x) <==> Covered(areas, x) && !Has(b, x))
      && (forall c | Inside(areas, c) && Disjoint(b, c) && 0 < c.len :: Inside(r, c))
  {
    var i := ReleasedExchange(areas, b);
    RemainderWellFormed(areas[i], b);
    ExchangedWellFormed(areas, i, i + 1, Remainder(areas[i], b));
    var r := Released(areas, b.start, b.len);
    forall x
      ensures Covered(r, x) <==> Covered(areas, x) && !Has(b, x)
    {
      ReleasedCovers(areas, b, i, x);
    }
    forall c | Inside(areas, c) && Disjoint(b, c) && 0 < c.len
      ensures Inside(r, c)
    {
      ReleasedInside(areas, b, i, c);
    }
  }

  lemma {:induction false} ExchangedSlices(areas: seq<Area>, i: nat, j: nat, a: Area)
    requires i <= j <= |areas|
    ensures var r := Exchanged(areas, i, j, [a]);
      |r| > i && r[i] == a && r[..i] == areas[..i] && r[i + 1..] == areas[j..]
  {
  }

  lemma {:induction false} ExchangedReleased(areas: seq<Area>, h: nat, i: nat, a: Area, b: Block)
    requires h <= i <= |areas| && WellFormed(Exchanged(areas, h, i, [a])) && Within(a, b) && 0 < b.len < TWO_64
    requires Remainder(a, b) == areas[h..i]
    ensures Released(Exchanged(areas, h, i, [a]), b.start, b.len) == areas
  {
    var r := Exchanged(areas, h, i, [a]);
    ExchangedSlices(areas, h, i, a);
    FoundArea(r, b, h);
    ReducedIs(a, b);
    assert Released(r, b.start, b.len) == areas[..h] + areas[h..i] + areas[i..];
  }

  /** Allocating a block and releasing it at once restores the very same list. */
  lemma {:induction false} PlacedReleased(areas: seq<Area>, i: nat, b: Block)
    requires WellFormed(areas) && Fits(areas, i, b)
    ensures Released(Placed(areas, i, b.start, b.len), b.start, b.len) == areas
  {
    var h, a := PlacedExchange(areas, i, b);
    ExchangedWellFormed(areas, h, i, [a]);
    ExchangedReleased(areas, h, i, a, b);
  }
}
