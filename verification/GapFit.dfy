/**
  Where the allocator places requests for at most a page of alignment, whose end is aligned, and
  requests for a fixed address: in terms of the gaps between areas, not of the search.
 */
module GapFit {
  import opened Machine
  import opened Align
  import opened Areas
  import opened FirstFit

  // ---- Any address, aligned to at most a page ----

  /** The first address of the gap before the `g`-th area, or of the one behind them all. */
  function GapStart(ap: Aperture, areas: seq<Area>, g: nat): int
    requires g <= |areas|
  {
    if g == 0 then ap.base else areas[g - 1].end + 1
  }

  /** One past its last address. */
  function GapEnd(ap: Aperture, areas: seq<Area>, g: nat): int
    requires g <= |areas|
  {
    if g < |areas| then areas[g].start else ap.limit + 1
  }

  /** `m` is the least multiple of `a` at or above `lo`. */
  predicate LeastMultiple(a: int, lo: int, m: int) {
    Divides(a, m) && lo <= m < lo + a
  }

  /** `s` is the least address above `m` from which `size` bytes end at a multiple of `a`. */
  predicate LeastStart(a: int, m: int, size: int, s: int) {
    Divides(a, s + size) && m < s <= m + a
  }

  /** The gap has room for the request and its guards at `s`, the first place in it that ends aligned. */
  ghost predicate Offers(ap: Aperture, areas: seq<Area>, rq: Request, g: nat, s: int)
    requires Alignable(ap, rq)
  {
    && g <= |areas| && s + rq.size + Guards(ap) <= GapEnd(ap, areas, g)
    && exists m ::
         LeastMultiple(Alignment(ap, rq), GapStart(ap, areas, g), m) && LeastStart(Alignment(ap, rq), m, rq.size, s)
  }

  /** Requests for any address, aligned to at most a page. */
  predicate Loose(ap: Aperture, rq: Request) {
    PowersOfTwo(ap, rq) && Sizeable(ap, rq) && rq.address == 0 && rq.align <= ap.pageSize
  }

  lemma {:induction false} MultiplesMeet(a: int, x: int, y: int)
    requires a > 0 && Divides(a, x) && Divides(a, y) && x < y + a && y < x + a
    ensures x == y
  {
    if x < y {
      MultiplesApart(a, x, y);
    } else if y < x {
      MultiplesApart(a, y, x);
    }
  }

  lemma {:induction false} LeastIs(a: int, lo: U64, m: int, size: U64, s: int)
    requires a > 0 && Divides(a, TWO_64) && LeastMultiple(a, lo, m) && LeastStart(a, m, size, s) && s <= TWO_64
    ensures lo + a <= TWO_64 && AlignUp(lo, a) == m && s == m + (a - size % a)
  {
    MultiplesApart(a, m, TWO_64);
    AlignUpIs(lo, a);
    MultiplesMeet(a, m, AlignUp(lo, a));
    EndAligned(a, m, size);
    MultiplesMeet(a, s + size, m + (a - size % a) + size);
  }

  lemma {:induction false} OfferedAt(ap: Aperture, areas: seq<Area>, rq: Request, g: nat, s: int) returns (m: int)
    requires WellFormed(areas) && Loose(ap, rq) && Offers(ap, areas, rq, g, s)
    ensures LeastMultiple(Alignment(ap, rq), GapStart(ap, areas, g), m) && LeastStart(Alignment(ap, rq), m, rq.size, s)
    ensures 0 <= GapStart(ap, areas, g) == Behind(ap, areas, g) < s < TWO_64
  {
    m :| LeastMultiple(Alignment(ap, rq), GapStart(ap, areas, g), m) && LeastStart(Alignment(ap, rq), m, rq.size, s);
  }

  lemma {:induction false} CandidateIs(ap: Aperture, areas: seq<Area>, rq: Request, g: nat, m: int)
    requires Loose(ap, rq) && g <= |areas| && Behind(ap, areas, g) + Alignment(ap, rq) <= TWO_64
    requires AlignUp(Behind(ap, areas, g), Alignment(ap, rq)) == m && m + Offset(ap, rq) < TWO_64
    ensures NoWrapAt(ap, areas, rq, g) && StartAt(ap, areas, rq, g) == m + Offset(ap, rq)
  {
    OffsetRange(ap, rq);
  }

  /** What the gap offers is the candidate that the search computes there, and nothing wraps around. */
  lemma {:induction false} OfferIsCandidate(ap: Aperture, areas: seq<Area>, rq: Request, g: nat, s: int)
    requires WellFormed(areas) && Loose(ap, rq) && Offers(ap, areas, rq, g, s)
    ensures NoWrapAt(ap, areas, rq, g) && StartAt(ap, areas, rq, g) == s && GapStart(ap, areas, g) < s
  {
    var m := OfferedAt(ap, areas, rq, g, s);
    AlignmentPow2(ap, rq);
    LeastIs(Alignment(ap, rq), GapStart(ap, areas, g), m, rq.size, s);
    CandidateIs(ap, areas, rq, g, m);
  }

  lemma {:induction false} OfferIsHole(ap: Aperture, areas: seq<Area>, rq: Request, g: nat, s: int)
    requires WellFormed(areas) && Loose(ap, rq) && Offers(ap, areas, rq, g, s)
    ensures FirstHole(ap, areas, rq, 0) <= g && StartAt(ap, areas, rq, g) == s && GapStart(ap, areas, g) < s
  {
    OfferIsCandidate(ap, areas, rq, g, s);
    if g < |areas| {
      assert HoleAt(ap, areas, rq, g);
    }
  }

  lemma {:induction false} PlaceInFront(ap: Aperture, areas: seq<Area>, rq: Request)
    requires Alignable(ap, rq) && rq.address == 0 && FirstHole(ap, areas, rq, 0) < |areas|
    ensures var i := FirstHole(ap, areas, rq, 0);
      Place(ap, areas, rq) == Some((i, StartAt(ap, areas, rq, i))) && StartAt(ap, areas, rq, i) < areas[i].start
  {
  }

  lemma {:induction false} TakenAtOrBefore(ap: Aperture, areas: seq<Area>, rq: Request, g: nat)
    requires WellFormed(areas) && Alignable(ap, rq) && Sizeable(ap, rq) && rq.address == 0 && g <= |areas|
    requires FirstHole(ap, areas, rq, 0) <= g && 0 <= GapStart(ap, areas, g) < StartAt(ap, areas, rq, g)
    requires StartAt(ap, areas, rq, g) + rq.size + Guards(ap) <= GapEnd(ap, areas, g)
    ensures Place(ap, areas, rq).Some? && Place(ap, areas, rq).value.1 <= StartAt(ap, areas, rq, g)
  {
    var i := FirstHole(ap, areas, rq, 0);
    if i == |areas| {
      PlaceSucceeds(ap, areas, rq);
    } else {
      PlaceInFront(ap, areas, rq);
      assert i < g ==> areas[i].start <= areas[g - 1].end;
    }
  }

  /** The search ends at or before a gap that offers a place. */
  lemma {:induction false} OfferTaken(ap: Aperture, areas: seq<Area>, rq: Request, g: nat, s: int)
    requires WellFormed(areas) && Usable(ap) && Loose(ap, rq) && Offers(ap, areas, rq, g, s)
    ensures Place(ap, areas, rq).Some? && Place(ap, areas, rq).value.1 <= s
  {
    OfferIsHole(ap, areas, rq, g, s);
    TakenAtOrBefore(ap, areas, rq, g);
  }

  /** Without wrap-around, what allocation yields in range is offered by a gap. */
  lemma {:induction false} TakenIsOffer(ap: Aperture, areas: seq<Area>, rq: Request)
    requires WellFormed(areas) && Usable(ap) && Loose(ap, rq) && Place(ap, areas, rq).Some?
    requires Clear(ap, areas, rq) && FinalInRange(ap, areas, rq)
    ensures var (i, s) := Place(ap, areas, rq).value; Offers(ap, areas, rq, i, s)
  {
    var (i, s) := Place(ap, areas, rq).value;
    var a, m := Alignment(ap, rq), AlignUp(Behind(ap, areas, i), Alignment(ap, rq));
    StartAtIs(ap, areas, rq, i);
    PlaceInAperture(ap, areas, rq);
    EndAligned(a, m, rq.size);
    assert LeastMultiple(a, GapStart(ap, areas, i), m) && LeastStart(a, m, rq.size, s);
  }

  /**
    For a request aligned to at most a page, on every well-formed list: allocation fails only if no
    gap offers a place, it never passes over a lower place that a gap offers, and what it yields
    without wrap-around and in range is such a place.
   */
  lemma {:induction false} PageFitIsLowest(ap: Aperture, areas: seq<Area>, rq: Request)
    requires WellFormed(areas) && Usable(ap) && Loose(ap, rq)
    ensures var p := Place(ap, areas, rq);
      && (p.None? ==> forall g, s :: !Offers(ap, areas, rq, g, s))
      && (p.Some? ==> forall g, s | Offers(ap, areas, rq, g, s) :: p.value.1 <= s)
      && (p.Some? && Clear(ap, areas, rq) && FinalInRange(ap, areas, rq) ==>
            Offers(ap, areas, rq, p.value.0, p.value.1))
  {
    forall g: nat, s | Offers(ap, areas, rq, g, s)
      ensures Place(ap, areas, rq).Some? && Place(ap, areas, rq).value.1 <= s
    {
      OfferTaken(ap, areas, rq, g, s);
    }
    if Place(ap, areas, rq).Some? && Clear(ap, areas, rq) && FinalInRange(ap, areas, rq) {
      TakenIsOffer(ap, areas, rq);
    }
  }

  // ---- A fixed address ----

  predicate Fixed(ap: Aperture, rq: Request) {
    && Alignable(ap, rq) && Sizeable(ap, rq) && rq.address != 0
    && rq.address + rq.size + Guards(ap) <= TWO_64
  }

  /** The `k`-th area is the last that starts before `end`. */
  predicate LastBefore(areas: seq<Area>, k: nat, end: int) {
    k < |areas| && areas[k].start < end && (k + 1 == |areas| || end <= areas[k + 1].start)
  }

  lemma {:induction false} LastBeforeIs(areas: seq<Area>, k: nat, end: int, j: nat)
    requires WellFormed(areas) && LastBefore(areas, k, end) && j < |areas|
    ensures areas[j].start < end <==> j <= k
  {
    assert j < k ==> areas[j].end < areas[k].start;
    assert k + 1 < j ==> areas[k + 1].end < areas[j].start;
  }

  /** The search passes exactly the areas that start before the end of the block. */
  lemma {:induction false} FixedHole(ap: Aperture, areas: seq<Area>, rq: Request)
    requires WellFormed(areas) && Fixed(ap, rq)
    ensures var i, end := FirstHole(ap, areas, rq, 0), rq.address + rq.size + Guards(ap);
      && (i < |areas| ==> end <= areas[i].start) && (i > 0 ==> LastBefore(areas, i - 1, end))
  {
    var i := FirstHole(ap, areas, rq, 0);
    if i > 0 {
      assert !HoleAt(ap, areas, rq, i - 1);
    }
  }

  /** The `k`-th area is the last before the end of the block, which starts in front of the next multiple behind it. */
  predicate TooClose(ap: Aperture, areas: seq<Area>, rq: Request, k: nat)
    requires Alignable(ap, rq)
  {
    && LastBefore(areas, k, rq.address + rq.size + Guards(ap))
    && rq.address < AlignUp(Wrap(areas[k].end + 1), Alignment(ap, rq))
  }

  /** The block ends behind all starts of areas and crosses the limit. */
  predicate Crosses(ap: Aperture, areas: seq<Area>, rq: Request) {
    var end := rq.address + rq.size + Guards(ap);
    (forall k | 0 <= k < |areas| :: areas[k].start < end) && rq.address <= ap.limit + 1 < end
  }

  lemma {:induction false} FixedBehindAll(ap: Aperture, areas: seq<Area>, rq: Request)
    requires WellFormed(areas) && Fixed(ap, rq)
    ensures var i, end := FirstHole(ap, areas, rq, 0), rq.address + rq.size + Guards(ap);
      i == |areas| <==> forall k | 0 <= k < |areas| :: areas[k].start < end
  {
    var i, end := FirstHole(ap, areas, rq, 0), rq.address + rq.size + Guards(ap);
    FixedHole(ap, areas, rq);
    if i == |areas| && i > 0 {
      forall k | 0 <= k < |areas|
        ensures areas[k].start < end
      {
        LastBeforeIs(areas, i - 1, end, k);
      }
    }
  }

  /** Behind all areas a fixed address is refused if the block crosses the limit, not if it starts beyond it. */
  lemma {:induction false} FixedLimit(ap: Aperture, rq: Request)
    requires Fixed(ap, rq)
    ensures Wrap(ap.limit - rq.address + 1) < Padded(ap, rq.size)
       <==> rq.address <= ap.limit + 1 < rq.address + rq.size + Guards(ap)
  {
    var d := ap.limit - rq.address + 1;
    if d < 0 {
      assert Wrap(d) == d + TWO_64;
    }
  }

  lemma {:induction false} FixedLast(ap: Aperture, areas: seq<Area>, rq: Request, k: nat)
    requires WellFormed(areas) && Fixed(ap, rq) && LastBefore(areas, k, rq.address + rq.size + Guards(ap))
    ensures FirstHole(ap, areas, rq, 0) == k + 1
  {
    var i, end := FirstHole(ap, areas, rq, 0), rq.address + rq.size + Guards(ap);
    FixedHole(ap, areas, rq);
    if i > 0 {
      LastBeforeIs(areas, k, end, i - 1);
    }
    if i < |areas| {
      LastBeforeIs(areas, k, end, i);
    }
  }

  lemma {:induction false} PlaceFixed(ap: Aperture, areas: seq<Area>, rq: Request)
    requires WellFormed(areas) && Fixed(ap, rq)
    ensures var i := FirstHole(ap, areas, rq, 0);
      Place(ap, areas, rq) == if Crosses(ap, areas, rq) || (i > 0 && TooClose(ap, areas, rq, i - 1)) then None
                              else Some((i, rq.address))
  {
    FixedHole(ap, areas, rq);
    FixedBehindAll(ap, areas, rq);
    FixedLimit(ap, rq);
  }

  /** A fixed address is refused if and only if the block is too close behind an area or crosses the limit. */
  lemma {:induction false} FixedExactly(ap: Aperture, areas: seq<Area>, rq: Request)
    requires WellFormed(areas) && Fixed(ap, rq)
    ensures Place(ap, areas, rq).None? <==> Crosses(ap, areas, rq) || exists k: nat :: TooClose(ap, areas, rq, k)
    ensures Place(ap, areas, rq).Some? ==> Place(ap, areas, rq).value.1 == rq.address
  {
    PlaceFixed(ap, areas, rq);
    forall k: nat | TooClose(ap, areas, rq, k)
      ensures FirstHole(ap, areas, rq, 0) == k + 1
    {
      FixedLast(ap, areas, rq, k);
    }
  }

  lemma {:induction false} FreeBehind(areas: seq<Area>, b: Block, k: nat)
    requires 0 < b.len && k < |areas| && areas[k].start <= areas[k].end && areas[k].start < b.start + b.len
    requires forall x | Has(b, x) :: !Covered(areas, x)
    ensures areas[k].end < b.start
  {
    assert At(areas[k], areas[k].start) && Has(b, b.start);
    assert !Has(b, areas[k].start);
    assert !At(areas[k], b.start);
  }

  lemma {:induction false} SuitableNotClose(ap: Aperture, areas: seq<Area>, rq: Request, k: nat)
    requires WellFormed(areas) && PowersOfTwo(ap, rq) && Fixed(ap, rq) && Suitable(ap, areas, rq, rq.address)
    ensures !TooClose(ap, areas, rq, k)
  {
    var a := Alignment(ap, rq);
    if LastBefore(areas, k, rq.address + rq.size + Guards(ap)) {
      FreeBehind(areas, Block(rq.address, rq.size + Guards(ap)), k);
      AlignmentPow2(ap, rq);
      MultiplesApart(a, rq.address, TWO_64);
      AlignUpIs(areas[k].end + 1, a);
    }
  }

  /** An aligned fixed address where the block is free and inside the aperture is always accepted. */
  lemma {:induction false} SuitableAccepted(ap: Aperture, areas: seq<Area>, rq: Request)
    requires WellFormed(areas) && PowersOfTwo(ap, rq) && Fixed(ap, rq) && Suitable(ap, areas, rq, rq.address)
    ensures Place(ap, areas, rq).Some? && Place(ap, areas, rq).value.1 == rq.address
  {
    FixedExactly(ap, areas, rq);
    forall k: nat
      ensures !TooClose(ap, areas, rq, k)
    {
      SuitableNotClose(ap, areas, rq, k);
    }
  }

  // ---- Extending an area ----

  /** A block becomes an area of its own unless some area ends right before it, which then ends with the block. */
  lemma {:induction false} PlacedExtends(areas: seq<Area>, i: nat, b: Block)
    requires WellFormed(areas) && Fits(areas, i, b)
    ensures var r := Placed(areas, i, b.start, b.len);
      if exists k | 0 <= k < |areas| :: areas[k].end + 1 == b.start then
        |r| == |areas| && exists k | 0 <= k < |areas| :: r[k] == Area(areas[k].start, b.start + b.len - 1)
      else |r| == |areas| + 1 && Area(b.start, b.start + b.len - 1) in r
  {
    var r := Placed(areas, i, b.start, b.len);
    if k :| 0 <= k < |areas| && areas[k].end + 1 == b.start {
      assert k == i - 1;
      assert r[k] == Area(areas[k].start, b.start + b.len - 1);
    } else {
      assert r[i] == Area(b.start, b.start + b.len - 1);
    }
  }
}
