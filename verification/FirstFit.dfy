/** Where the allocator places a request: when it fits, how it is aligned, and that it is the lowest place. */
module FirstFit {
  import opened Machine
  import opened Align
  import opened Areas

  // ---- Fitting into the hole ----

  /** Request and guard pages together are not empty and have a 64-bit size. */
  predicate Sizeable(ap: Aperture, rq: Request) {
    0 < rq.size + Guards(ap) < TWO_64
  }

  /** The candidate behind the `i`-th area is computed without wrap-around. */
  predicate NoWrapAt(ap: Aperture, areas: seq<Area>, rq: Request, i: nat)
    requires Alignable(ap, rq) && i <= |areas|
  {
    var b, a := Behind(ap, areas, i), Alignment(ap, rq);
    b + a <= TWO_64 && AlignUp(b, a) + Offset(ap, rq) < TWO_64
  }

  /**
    Nothing wraps around where the search ends: neither the block, nor the candidate, nor, for a
    fixed address that is not behind the area before it, the comparison with that area's end.
   */
  predicate Clear(ap: Aperture, areas: seq<Area>, rq: Request)
    requires Alignable(ap, rq)
  {
    var i := FirstHole(ap, areas, rq, 0);
    && Sizeable(ap, rq) && StartAt(ap, areas, rq, i) + rq.size + Guards(ap) < TWO_64
    && if rq.address == 0 then NoWrapAt(ap, areas, rq, i)
       else i == 0 || areas[i - 1].end < rq.address || Behind(ap, areas, i) + Alignment(ap, rq) <= TWO_64
  }

  /** The request is refused, or served without wrap-around; alignments are what masks can round to. */
  predicate Harmless(ap: Aperture, areas: seq<Area>, rq: Request) {
    PowersOfTwo(ap, rq) && (Place(ap, areas, rq).None? || Clear(ap, areas, rq))
  }

  lemma {:induction false} OffsetRange(ap: Aperture, rq: Request)
    requires Alignable(ap, rq)
    ensures 0 <= Offset(ap, rq) <= Alignment(ap, rq)
  {
  }

  lemma {:induction false} StartAtIs(ap: Aperture, areas: seq<Area>, rq: Request, i: nat)
    requires WellFormed(areas) && Alignable(ap, rq) && rq.address == 0 && i <= |areas| && NoWrapAt(ap, areas, rq, i)
    ensures var b, a := Behind(ap, areas, i), Alignment(ap, rq);
      && b == (if i == 0 then ap.base else areas[i - 1].end + 1)
      && StartAt(ap, areas, rq, i) == AlignUp(b, a) + Offset(ap, rq)
      && b <= AlignUp(b, a) < b + a && Divides(a, AlignUp(b, a))
  {
    OffsetRange(ap, rq);
    AlignUpIs(Behind(ap, areas, i), Alignment(ap, rq));
  }

  /** The request with its guard pages is in the hole, and not before where the search looked. */
  predicate PutIn(ap: Aperture, areas: seq<Area>, rq: Request, i: nat, s: U64)
    requires i <= |areas|
  {
    Fits(areas, i, Block(s, rq.size + Guards(ap))) && (rq.address == 0 ==> Behind(ap, areas, i) <= s)
  }

  lemma {:induction false} ClearFits(ap: Aperture, areas: seq<Area>, rq: Request)
    requires WellFormed(areas) && Alignable(ap, rq) && Clear(ap, areas, rq) && Place(ap, areas, rq).Some?
    ensures var (i, s) := Place(ap, areas, rq).value;
      PutIn(ap, areas, rq, i, s) && Padded(ap, rq.size) == rq.size + Guards(ap)
  {
    var (i, s) := Place(ap, areas, rq).value;
    OffsetRange(ap, rq);
    if rq.address == 0 {
      StartAtIs(ap, areas, rq, i);
    } else if i > 0 && Behind(ap, areas, i) + Alignment(ap, rq) <= TWO_64 {
      AlignUpIs(Behind(ap, areas, i), Alignment(ap, rq));
    }
  }

  lemma {:induction false} AlignmentPow2(ap: Aperture, rq: Request)
    requires PowersOfTwo(ap, rq)
    ensures var a := Alignment(ap, rq); IsPow2(a) && Divides(a, TWO_64) && 2 * a <= TWO_64
  {
    BoostedIs(Max(rq.align, ap.align), rq.size);
    Pow2DividesTop(Alignment(ap, rq));
  }

  /** Rounding up beyond the top yields 0. */
  lemma {:induction false} AlignUpWraps(b: U64, a: int)
    requires 0 < a < TWO_64 < b + a
    ensures AlignUp(b, a) == 0
  {
    var x := b + a - 1 - TWO_64;
    assert Wrap(b + a - 1) == x && 0 <= x < a;
    SmallMod(x, a);
  }

  lemma {:induction false} SmallMod(x: int, a: int)
    requires 0 <= x < a
    ensures x % a == x
  {
  }

  /** A candidate that wrapped around lies before the address it was computed from. */
  lemma {:induction false} WrappedCandidate(b: U64, a: int, offset: int)
    requires a > 0 && Divides(a, TWO_64) && 2 * a <= TWO_64 && 0 <= offset <= a
    requires b + a > TWO_64 || AlignUp(b, a) + offset >= TWO_64
    ensures Wrap(AlignUp(b, a) + offset) < b
  {
    if b + a > TWO_64 {
      AlignUpWraps(b, a);
      assert offset < b;
    } else {
      AlignUpIs(b, a);
      MultiplesApart(a, AlignUp(b, a), TWO_64);
      assert AlignUp(b, a) + offset == TWO_64;
    }
  }

  lemma {:induction false} FitsNoWrap(ap: Aperture, areas: seq<Area>, rq: Request, i: nat)
    requires PowersOfTwo(ap, rq) && rq.address == 0 && i <= |areas| && Behind(ap, areas, i) <= StartAt(ap, areas, rq, i)
    ensures NoWrapAt(ap, areas, rq, i)
  {
    if !NoWrapAt(ap, areas, rq, i) {
      OffsetRange(ap, rq);
      AlignmentPow2(ap, rq);
      WrappedCandidate(Behind(ap, areas, i), Alignment(ap, rq), Offset(ap, rq));
    }
  }

  /** A placement fits into the hole it was found for if and only if nothing wrapped around. */
  lemma {:induction false} PlaceFits(ap: Aperture, areas: seq<Area>, rq: Request)
    requires WellFormed(areas) && PowersOfTwo(ap, rq) && Place(ap, areas, rq).Some?
    ensures var (i, s) := Place(ap, areas, rq).value; PutIn(ap, areas, rq, i, s) <==> Clear(ap, areas, rq)
  {
    var (i, s) := Place(ap, areas, rq).value;
    if Clear(ap, areas, rq) {
      ClearFits(ap, areas, rq);
    } else if PutIn(ap, areas, rq, i, s) && rq.address == 0 {
      FitsNoWrap(ap, areas, rq, i);
    }
  }

  const TOP_APERTURE := Aperture(0x1000, 0xffff_ffff_ffff_fffe, 0x1000, 0, 0x1000)
  const TOP_AREAS := [Area(0x1000, 0xffff_ffff_ffff_fffd)]
  const TOP_REQUEST := Request(0, 0x1000, 0x1000)

  lemma {:induction false} TopAlignment()
    ensures Alignment(TOP_APERTURE, TOP_REQUEST) == Offset(TOP_APERTURE, TOP_REQUEST) == 0x1000
  {
  }

  lemma {:induction false} TopCandidates()
    ensures StartAt(TOP_APERTURE, TOP_AREAS, TOP_REQUEST, 0) == 0x2000
    ensures StartAt(TOP_APERTURE, TOP_AREAS, TOP_REQUEST, 1) == 0x1000
    ensures !NoWrapAt(TOP_APERTURE, TOP_AREAS, TOP_REQUEST, 1)
  {
    TopAlignment();
    AlignUpWraps(0xffff_ffff_ffff_fffe, 0x1000);
    AlignUpIs(0x1000, 0x1000);
  }

  lemma {:induction false} BehindOnlyArea(ap: Aperture, areas: seq<Area>, rq: Request)
    requires Alignable(ap, rq) && rq.address == 0 && |areas| == 1 && !HoleAt(ap, areas, rq, 0)
    requires Wrap(ap.limit - StartAt(ap, areas, rq, 1) + 1) >= Padded(ap, rq.size)
    ensures FirstHole(ap, areas, rq, 0) == 1 && Place(ap, areas, rq) == Some((1, StartAt(ap, areas, rq, 1)))
  {
  }

  lemma {:induction false} TopPlaced()
    ensures Place(TOP_APERTURE, TOP_AREAS, TOP_REQUEST) == Some((1, 0x1000))
    ensures !Clear(TOP_APERTURE, TOP_AREAS, TOP_REQUEST)
  {
    TopCandidates();
    assert !HoleAt(TOP_APERTURE, TOP_AREAS, TOP_REQUEST, 0);
    BehindOnlyArea(TOP_APERTURE, TOP_AREAS, TOP_REQUEST);
  }

  lemma {:induction false} TopOccupied()
    ensures WellFormed(TOP_AREAS) && Covered(TOP_AREAS, 0x1000)
  {
    assert At(TOP_AREAS[0], 0x1000);
  }

  /** Near the top of the address space the candidate wraps around, and the request is put into an occupied area. */
  lemma {:induction false} PlaceOverlaps()
    ensures WellFormed(TOP_AREAS) && Covered(TOP_AREAS, 0x1000) && !Clear(TOP_APERTURE, TOP_AREAS, TOP_REQUEST)
    ensures Place(TOP_APERTURE, TOP_AREAS, TOP_REQUEST) == Some((1, 0x1000))
  {
    TopPlaced();
    TopOccupied();
  }

  /** The list keeps its form and gains exactly the block if and only if the block fits where it was put. */
  lemma {:induction false} PlacedExactly(areas: seq<Area>, i: nat, b: Block)
    requires WellFormed(areas) && i <= |areas| && 0 < b.len < TWO_64
    ensures Fits(areas, i, b) <==> WellPlaced(areas, i, b)
  {
    if Fits(areas, i, b) {
      PlacedKeeps(areas, i, b);
    }
    if WellPlaced(areas, i, b) {
      WellPlacedFits(areas, i, b);
    }
  }

  ghost predicate WellPlaced(areas: seq<Area>, i: nat, b: Block)
    requires i <= |areas|
  {
    var r := Placed(areas, i, b.start, b.len);
    && WellFormed(r) && (forall x :: Covered(r, x) <==> Covered(areas, x) || Has(b, x))
    && (forall x | Has(b, x) :: !Covered(areas, x))
  }

  lemma {:induction false} WellPlacedFits(areas: seq<Area>, i: nat, b: Block)
    requires WellFormed(areas) && i <= |areas| && 0 < b.len < TWO_64 && WellPlaced(areas, i, b)
    ensures Fits(areas, i, b)
  {
    var r := Placed(areas, i, b.start, b.len);
    assert !Covered(r, TWO_64 - 1);
    assert !Has(b, TWO_64 - 1);
    var joins := i > 0 && areas[i - 1].end + 1 == b.start;
    assert i > 0 ==> joins || (r[i - 1] == areas[i - 1] && r[i].start == b.start);
    assert i < |areas| ==> if joins then r[i - 1].end < r[i].start else r[i].end < r[i + 1].start;
  }

  // ---- Alignment ----

  /**
    The boosted alignment is a multiple of both alignments asked for. The start of the block is a
    multiple of it if the request asked for more than a page, otherwise the end of the request is.
   */
  lemma {:induction false} PlaceAligned(ap: Aperture, areas: seq<Area>, rq: Request)
    requires PowersOfTwo(ap, rq) && rq.address == 0 && Place(ap, areas, rq).Some?
    ensures var a, s := Alignment(ap, rq), Place(ap, areas, rq).value.1;
      && (rq.align > 0 ==> Divides(rq.align, a)) && (ap.align > 0 ==> Divides(ap.align, a))
      && (if rq.align > ap.pageSize then Divides(a, s) else Divides(a, s + rq.size))
  {
    var (i, s) := Place(ap, areas, rq).value;
    AlignmentDivides(ap, rq);
    AlignmentPow2(ap, rq);
    CandidateAligned(Behind(ap, areas, i), Alignment(ap, rq), rq.size);
  }

  lemma {:induction false} CandidateAligned(b: U64, a: int, size: U64)
    requires a > 0 && Divides(a, TWO_64) && 2 * a <= TWO_64
    ensures Divides(a, Wrap(AlignUp(b, a) + 0)) && Divides(a, Wrap(AlignUp(b, a) + (a - size % a)) + size)
  {
    var up := AlignUp(b, a);
    MaskedIs(Wrap(b + a - 1), a);
    WrapAligned(a, up, 0);
    EndAligned(a, up, size);
    MaskedIs(size, a);
    WrapAligned(a, up + (a - size % a), size);
  }

  /** Wrap-around keeps what is aligned to a power of two aligned. */
  lemma {:induction false} WrapAligned(a: int, x: int, y: int)
    requires a > 0 && Divides(a, TWO_64) && 0 <= x < 2 * TWO_64 && Divides(a, x + y)
    ensures Divides(a, Wrap(x) + y)
  {
    if x >= TWO_64 {
      assert Wrap(x) == x - TWO_64;
      DividesSum(a, x + y, TWO_64);
      assert Wrap(x) + y == x + y - TWO_64;
    }
  }

  /** An offset that completes the size to a multiple moves the end onto a multiple. */
  lemma {:induction false} EndAligned(a: int, base: int, size: int)
    requires a > 0 && Divides(a, base)
    ensures Divides(a, base + (a - size % a) + size)
  {
    MaskedIs(size, a);
    DividesSum(a, base, Masked(size, a));
    MultipleMod(a, 1);
    DividesSum(a, base + Masked(size, a), a);
    assert base + (a - size % a) + size == base + Masked(size, a) + a;
  }

  lemma {:induction false} AlignmentDivides(ap: Aperture, rq: Request)
    requires PowersOfTwo(ap, rq)
    ensures var a := Alignment(ap, rq);
      (rq.align > 0 ==> Divides(rq.align, a)) && (ap.align > 0 ==> Divides(ap.align, a))
  {
    var m := Max(rq.align, ap.align);
    BoostedIs(m, rq.size);
    if rq.align > 0 {
      Pow2Divides(rq.align, m);
      DividesTransitive(rq.align, m, Alignment(ap, rq));
    }
    if ap.align > 0 {
      Pow2Divides(ap.align, m);
      DividesTransitive(ap.align, m, Alignment(ap, rq));
    }
  }

  // ---- Staying inside the aperture ----

  predicate InAperture(ap: Aperture, areas: seq<Area>) {
    Usable(ap) && forall i | 0 <= i < |areas| :: ap.base <= areas[i].start && areas[i].end <= ap.limit
  }

  /**
    The place where the search ends is not before the base. If it is behind all areas it is at most
    one past the limit; if it is in front of an area, either that area starts at most one past the
    limit, or the block ends there.
   */
  predicate FinalInRange(ap: Aperture, areas: seq<Area>, rq: Request)
    requires Alignable(ap, rq)
  {
    var i := FirstHole(ap, areas, rq, 0);
    var s, len := StartAt(ap, areas, rq, i), rq.size + Guards(ap);
    && len < TWO_64 && ap.base <= s
    && if i == |areas| then s <= ap.limit + 1 else areas[i].start <= ap.limit + 1 || s + len <= ap.limit + 1
  }

  /** A placement, free or fixed, lies inside the aperture if and only if its search ended in range. */
  lemma {:induction false} PlaceInAperture(ap: Aperture, areas: seq<Area>, rq: Request)
    requires Usable(ap) && Alignable(ap, rq) && Place(ap, areas, rq).Some?
    ensures var s := Place(ap, areas, rq).value.1;
      FinalInRange(ap, areas, rq) <==> ap.base <= s && s + rq.size + Guards(ap) <= ap.limit + 1
  {
    var (i, s) := Place(ap, areas, rq).value;
    if i == |areas| && s > 0 && rq.size + Guards(ap) < TWO_64 {
      LimitTest(ap.limit, s, Padded(ap, rq.size));
    }
  }

  /** As long as all areas lie in the aperture, it is enough to look at the place itself. */
  lemma {:induction false} InRangeInside(ap: Aperture, areas: seq<Area>, rq: Request)
    requires WellFormed(areas) && InAperture(ap, areas) && Alignable(ap, rq) && Sizeable(ap, rq)
    ensures var i := FirstHole(ap, areas, rq, 0);
      FinalInRange(ap, areas, rq) <==>
        ap.base <= StartAt(ap, areas, rq, i) && (i < |areas| || StartAt(ap, areas, rq, i) <= ap.limit + 1)
  {
  }

  /** The comparison with the limit is right if and only if its left side does not wrap around. */
  lemma {:induction false} LimitTest(limit: U64, s: U64, len: U64)
    requires 0 < s && len <= Wrap(limit - s + 1)
    ensures s <= limit + 1 <==> s + len <= limit + 1
  {
  }

  /** Behind the limit, the unsigned remainder of the aperture looks huge and the request is served anyway. */
  lemma {:induction false} PlaceBeyondLimit()
    ensures var ap := Aperture(0x1000, 0x2fff, 0x1000, 0, 0x1000);
      var areas, rq := [Area(0x2000, 0x2fff)], Request(0, 0x1000, 0x1000);
      && WellFormed(areas) && InAperture(ap, areas) && Clear(ap, areas, rq)
      && Place(ap, areas, rq) == Some((1, 0x4000)) && !FinalInRange(ap, areas, rq)
  {
    var ap := Aperture(0x1000, 0x2fff, 0x1000, 0, 0x1000);
    var areas, rq := [Area(0x2000, 0x2fff)], Request(0, 0x1000, 0x1000);
    assert Guards(ap) == 0 && Alignment(ap, rq) == 0x1000 && Offset(ap, rq) == 0x1000;
    assert Behind(ap, areas, 1) == 0x3000 && AlignUp(0x3000, 0x1000) == 0x3000;
    assert StartAt(ap, areas, rq, 0) == 0x2000 && StartAt(ap, areas, rq, 1) == 0x4000;
    assert !HoleAt(ap, areas, rq, 0);
    assert FirstHole(ap, areas, rq, 0) == FirstHole(ap, areas, rq, 1) == 1;
  }

  /** In front of an area the limit is not looked at: if that area is beyond the limit, the block may cross it. */
  lemma {:induction false} PlaceAcrossLimit(ap: Aperture, areas: seq<Area>, rq: Request)
    requires ap == Aperture(0x1000, 0x2fff, 0x1000, 0, 0x1000)
    requires areas == [Area(0x4000, 0x4fff)] && rq == Request(0, 0x2000, 0x2000)
    ensures WellFormed(areas) && Clear(ap, areas, rq)
    ensures Place(ap, areas, rq) == Some((0, 0x2000)) && !FinalInRange(ap, areas, rq)
  {
    assert Alignment(ap, rq) == 0x2000 && Offset(ap, rq) == 0;
    AlignUpIs(0x1000, 0x2000);
    StartAtIs(ap, areas, rq, 0);
    assert HoleAt(ap, areas, rq, 0);
  }

  // ---- First fit ----

  /** An aligned address where the request and its guard pages are free and inside the aperture. */
  ghost predicate Suitable(ap: Aperture, areas: seq<Area>, rq: Request, s: U64)
    requires Alignable(ap, rq)
  {
    && Divides(Alignment(ap, rq), s) && ap.base <= s && s + rq.size + Guards(ap) <= ap.limit + 1
    && forall x | Has(Block(s, rq.size + Guards(ap)), x) :: !Covered(areas, x)
  }

  /** A free block lies in one of the gaps between areas. */
  lemma {:induction false} GapOf(areas: seq<Area>, b: Block, i: nat) returns (j: nat)
    requires WellFormed(areas) && 0 < b.len && i <= |areas| && (forall x | Has(b, x) :: !Covered(areas, x))
    requires i > 0 ==> areas[i - 1].end < b.start
    ensures i <= j <= |areas| && (j > 0 ==> areas[j - 1].end < b.start)
    ensures j < |areas| ==> b.start + b.len <= areas[j].start
    decreases |areas| - i
  {
    if i == |areas| {
      j := i;
    } else {
      assert At(areas[i], areas[i].start) && At(areas[i], areas[i].end);
      assert Has(b, b.start);
      assert !At(areas[i], b.start) && !Has(b, areas[i].start);
      if areas[i].end < b.start {
        j := GapOf(areas, b, i + 1);
      } else {
        j := i;
      }
    }
  }

  /** The requests that the first-fit result is about: any address, aligned to more than a page. */
  predicate Free(ap: Aperture, rq: Request) {
    PowersOfTwo(ap, rq) && Sizeable(ap, rq) && rq.address == 0 && rq.align > ap.pageSize
  }

  /** An aligned address behind an area keeps the candidate there from wrapping around. */
  lemma {:induction false} CandidateAtMost(ap: Aperture, areas: seq<Area>, rq: Request, i: nat, x: U64)
    requires WellFormed(areas) && Free(ap, rq) && i <= |areas| && Behind(ap, areas, i) <= x
      && Divides(Alignment(ap, rq), x)
    ensures NoWrapAt(ap, areas, rq, i) && StartAt(ap, areas, rq, i) <= x
  {
    var a := Alignment(ap, rq);
    AlignmentPow2(ap, rq);
    MultiplesApart(a, x, TWO_64);
    AlignUpIs(Behind(ap, areas, i), a);
  }

  lemma {:induction false} BehindOrder(ap: Aperture, areas: seq<Area>, i: nat, j: nat, x: U64)
    requires WellFormed(areas) && 0 < ap.base <= x && i <= j <= |areas| && (j > 0 ==> areas[j - 1].end < x)
    ensures 0 < Behind(ap, areas, i) <= x
  {
    assert 0 < i < j ==> areas[i - 1].end < areas[j - 1].start;
  }

  lemma {:induction false} SearchReaches(ap: Aperture, areas: seq<Area>, rq: Request, x: U64)
    requires WellFormed(areas) && Usable(ap) && Free(ap, rq) && Suitable(ap, areas, rq, x)
    ensures 0 < Behind(ap, areas, FirstHole(ap, areas, rq, 0)) <= x
  {
    var j := GapOf(areas, Block(x, rq.size + Guards(ap)), 0);
    CandidateAtMost(ap, areas, rq, j, x);
    if j < |areas| {
      assert HoleAt(ap, areas, rq, j);
    }
    BehindOrder(ap, areas, FirstHole(ap, areas, rq, 0), j, x);
  }

  lemma {:induction false} SuitableNotBefore(ap: Aperture, areas: seq<Area>, rq: Request, x: U64)
    requires WellFormed(areas) && Usable(ap) && Free(ap, rq) && Suitable(ap, areas, rq, x)
    ensures var i := FirstHole(ap, areas, rq, 0); 0 < StartAt(ap, areas, rq, i) <= x
    ensures var i := FirstHole(ap, areas, rq, 0);
      i < |areas| || StartAt(ap, areas, rq, i) + rq.size + Guards(ap) <= ap.limit + 1
  {
    var i := FirstHole(ap, areas, rq, 0);
    SearchReaches(ap, areas, rq, x);
    CandidateAtMost(ap, areas, rq, i, x);
    StartAtIs(ap, areas, rq, i);
  }

  lemma {:induction false} PlaceSucceeds(ap: Aperture, areas: seq<Area>, rq: Request)
    requires Alignable(ap, rq) && Sizeable(ap, rq) && rq.address == 0
    requires var i := FirstHole(ap, areas, rq, 0); var s := StartAt(ap, areas, rq, i);
      0 < s && (i < |areas| || s + rq.size + Guards(ap) <= ap.limit + 1)
    ensures var i := FirstHole(ap, areas, rq, 0); Place(ap, areas, rq) == Some((i, StartAt(ap, areas, rq, i)))
  {
    var s := StartAt(ap, areas, rq, FirstHole(ap, areas, rq, 0));
    assert ap.limit - s + 1 < TWO_64;
  }

  lemma {:induction false} PlaceNotAbove(ap: Aperture, areas: seq<Area>, rq: Request, x: U64)
    requires WellFormed(areas) && Usable(ap) && Free(ap, rq) && Suitable(ap, areas, rq, x)
    ensures Place(ap, areas, rq).Some? && Place(ap, areas, rq).value.1 <= x
  {
    SuitableNotBefore(ap, areas, rq, x);
    PlaceSucceeds(ap, areas, rq);
  }

  lemma {:induction false} InRangeNoWrap(ap: Aperture, areas: seq<Area>, rq: Request)
    requires Usable(ap) && Free(ap, rq) && FinalInRange(ap, areas, rq)
    ensures NoWrapAt(ap, areas, rq, FirstHole(ap, areas, rq, 0))
  {
    var b, a := Behind(ap, areas, FirstHole(ap, areas, rq, 0)), Alignment(ap, rq);
    AlignmentPow2(ap, rq);
    if b + a > TWO_64 {
      AlignUpWraps(b, a);
    }
  }

  lemma {:induction false} BetweenIsFree(areas: seq<Area>, i: nat, b: Block, x: int)
    requires WellFormed(areas) && i <= |areas| && Has(b, x)
    requires (i > 0 ==> areas[i - 1].end < b.start) && (i < |areas| ==> b.start + b.len <= areas[i].start)
    ensures !Covered(areas, x)
  {
    forall k | 0 <= k < |areas|
      ensures !At(areas[k], x)
    {
      assert k + 1 < i ==> areas[k].end < areas[i - 1].start;
      assert i < k ==> areas[i].end < areas[k].start;
    }
  }

  lemma {:induction false} PlaceSuitable(ap: Aperture, areas: seq<Area>, rq: Request)
    requires WellFormed(areas) && Usable(ap) && Free(ap, rq)
    requires Place(ap, areas, rq).Some? && FinalInRange(ap, areas, rq)
    ensures Suitable(ap, areas, rq, Place(ap, areas, rq).value.1)
  {
    var (i, s) := Place(ap, areas, rq).value;
    var b := Block(s, rq.size + Guards(ap));
    InRangeNoWrap(ap, areas, rq);
    PlaceInAperture(ap, areas, rq);
    PlaceAligned(ap, areas, rq);
    StartAtIs(ap, areas, rq, i);
    forall x | Has(b, x)
      ensures !Covered(areas, x)
    {
      BetweenIsFree(areas, i, b, x);
    }
  }

  /**
    For a request aligned to more than a page, on every well-formed list: a suitable address is
    never missed and never passed over for a higher one, and the address that allocation yields is
    suitable if and only if the search ended in range.
   */
  lemma {:induction false} FirstFitIsLowest(ap: Aperture, areas: seq<Area>, rq: Request)
    requires WellFormed(areas) && Usable(ap) && Free(ap, rq)
    ensures var p := Place(ap, areas, rq);
      && (p.None? ==> forall x :: !Suitable(ap, areas, rq, x))
      && (p.Some? ==> forall x | Suitable(ap, areas, rq, x) :: p.value.1 <= x)
      && (p.Some? ==> (Suitable(ap, areas, rq, p.value.1) <==> FinalInRange(ap, areas, rq)))
  {
    forall x | Suitable(ap, areas, rq, x)
      ensures Place(ap, areas, rq).Some? && Place(ap, areas, rq).value.1 <= x
    {
      PlaceNotAbove(ap, areas, rq, x);
    }
    if Place(ap, areas, rq).Some? {
      PlaceInAperture(ap, areas, rq);
      if FinalInRange(ap, areas, rq) {
        PlaceSuitable(ap, areas, rq);
      }
    }
  }
}
