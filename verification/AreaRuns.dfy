/** What every run of allocations and releases on a reserved aperture keeps. */
module AreaRuns {
  import opened Machine
  import opened Align
  import opened Areas
  import opened FirstFit
  import GapFit

  /** The list of areas, and the blocks handed out and not yet given back. */
  datatype State = State(areas: seq<Area>, live: set<Block>)

  datatype Step = Allocate(rq: Request) | Release(b: Block)

  ghost predicate Enabled(ap: Aperture, s: State, step: Step) {
    match step
    case Allocate(rq) => Harmless(ap, s.areas, rq)
    case Release(b) => b in s.live
  }

  function Next(ap: Aperture, s: State, step: Step): State
    requires step.Allocate? ==> Alignable(ap, step.rq)
    requires step.Release? ==> step.b.len < TWO_64
  {
    match step
    case Allocate(rq) =>
      (match Place(ap, s.areas, rq)
       case None => s
       case Some((i, a)) =>
         State(Placed(s.areas, i, a, Padded(ap, rq.size)), s.live + {Block(a, Padded(ap, rq.size))}))
    case Release(b) => State(Released(s.areas, b.start, b.len), s.live - {b})
  }

  /** The areas cover exactly the live blocks, which do not overlap and lie inside one area each. */
  ghost predicate Consistent(s: State) {
    && WellFormed(s.areas)
    && (forall b <- s.live :: 0 < b.len < TWO_64 && Inside(s.areas, b))
    && (forall b, c | b in s.live && c in s.live && b != c :: Disjoint(b, c))
    && (forall x :: Covered(s.areas, x) <==> exists b <- s.live :: Has(b, x))
  }

  lemma {:induction false} FreeMeansDisjoint(s: State, b: Block)
    requires Consistent(s) && 0 < b.len && forall x | Has(b, x) :: !Covered(s.areas, x)
    ensures forall c <- s.live :: Disjoint(b, c)
  {
    forall c <- s.live
      ensures Disjoint(b, c)
    {
      assert Has(b, b.start) && Has(c, c.start);
      assert Covered(s.areas, c.start);
      assert !Has(b, c.start) && !Has(c, b.start);
    }
  }

  lemma {:induction false} AllocateKeeps(s: State, i: nat, b: Block)
    requires Consistent(s) && Fits(s.areas, i, b)
    ensures Consistent(State(Placed(s.areas, i, b.start, b.len), s.live + {b}))
  {
    PlacedKeeps(s.areas, i, b);
    FreeMeansDisjoint(s, b);
  }

  lemma {:induction false} ReleaseKeeps(s: State, b: Block)
    requires Consistent(s) && b in s.live
    ensures Consistent(State(Released(s.areas, b.start, b.len), s.live - {b}))
  {
    ReleasedKeeps(s.areas, b);
  }

  lemma {:induction false} NextKeeps(ap: Aperture, s: State, step: Step)
    requires Consistent(s) && Enabled(ap, s, step)
    ensures Consistent(Next(ap, s, step))
  {
    match step
    case Allocate(rq) =>
      if Place(ap, s.areas, rq).Some? {
        var (i, a) := Place(ap, s.areas, rq).value;
        ClearFits(ap, s.areas, rq);
        AllocateKeeps(s, i, Block(a, Padded(ap, rq.size)));
      }
    case Release(b) =>
      ReleaseKeeps(s, b);
  }

  /** A run in which nothing wraps around where a search ends, and only live blocks are given back. */
  ghost predicate EnabledRun(ap: Aperture, s: State, steps: seq<Step>)
    decreases |steps|
  {
    steps == [] || (&& Enabled(ap, s, steps[0]) && (steps[0].Release? ==> steps[0].b.len < TWO_64)
                    && EnabledRun(ap, Next(ap, s, steps[0]), steps[1..]))
  }

  function After(ap: Aperture, s: State, steps: seq<Step>): State
    requires EnabledRun(ap, s, steps)
    decreases |steps|
  {
    if steps == [] then s else After(ap, Next(ap, s, steps[0]), steps[1..])
  }

  /** Every run of allocations and releases keeps areas and live blocks consistent. */
  lemma {:induction false} RunKeeps(ap: Aperture, s: State, steps: seq<Step>)
    requires Consistent(s) && EnabledRun(ap, s, steps)
    ensures Consistent(After(ap, s, steps))
    decreases |steps|
  {
    if steps != [] {
      NextKeeps(ap, s, steps[0]);
      RunKeeps(ap, Next(ap, s, steps[0]), steps[1..]);
    }
  }

  lemma {:induction false} TakeThenGive(s: State, i: nat, b: Block)
    requires Consistent(s) && Fits(s.areas, i, b)
    ensures Released(Placed(s.areas, i, b.start, b.len), b.start, b.len) == s.areas && s.live + {b} - {b} == s.live
  {
    PlacedReleased(s.areas, i, b);
    PlacedKeeps(s.areas, i, b);
    FreeMeansDisjoint(s, b);
    assert b !in s.live by {
      assert Has(b, b.start);
    }
  }

  /** Giving a block back right after it was handed out restores the state. */
  lemma {:induction false} AllocateThenRelease(ap: Aperture, s: State, rq: Request)
    requires Consistent(s) && Harmless(ap, s.areas, rq) && Place(ap, s.areas, rq).Some?
    ensures var b := Block(Place(ap, s.areas, rq).value.1, Padded(ap, rq.size));
      Next(ap, Next(ap, s, Allocate(rq)), Release(b)) == s
  {
    var (i, a) := Place(ap, s.areas, rq).value;
    ClearFits(ap, s.areas, rq);
    TakeThenGive(s, i, Block(a, Padded(ap, rq.size)));
  }

  // ---- Staying inside the aperture ----

  lemma {:induction false} CoveredInAperture(ap: Aperture, areas: seq<Area>)
    requires WellFormed(areas) && Usable(ap)
    ensures InAperture(ap, areas) <==> forall x | Covered(areas, x) :: ap.base <= x <= ap.limit
  {
    if forall x | Covered(areas, x) :: ap.base <= x <= ap.limit {
      forall i | 0 <= i < |areas|
        ensures ap.base <= areas[i].start && areas[i].end <= ap.limit
      {
        assert At(areas[i], areas[i].start) && At(areas[i], areas[i].end);
        assert Covered(areas, areas[i].start) && Covered(areas, areas[i].end);
      }
    }
  }

  lemma {:induction false} PlacedInAperture(ap: Aperture, areas: seq<Area>, i: nat, b: Block)
    requires WellFormed(areas) && InAperture(ap, areas) && Fits(areas, i, b)
    requires ap.base <= b.start && b.start + b.len <= ap.limit + 1
    ensures InAperture(ap, Placed(areas, i, b.start, b.len))
  {
    PlacedKeeps(areas, i, b);
    CoveredInAperture(ap, areas);
    CoveredInAperture(ap, Placed(areas, i, b.start, b.len));
  }

  lemma {:induction false} ReleasedInAperture(ap: Aperture, areas: seq<Area>, b: Block)
    requires WellFormed(areas) && InAperture(ap, areas) && Inside(areas, b) && 0 < b.len < TWO_64
    ensures InAperture(ap, Released(areas, b.start, b.len))
  {
    ReleasedKeeps(areas, b);
    CoveredInAperture(ap, areas);
    CoveredInAperture(ap, Released(areas, b.start, b.len));
  }

  /**
    What a caller can see to without knowing the list: alignments are powers of two, the request is
    not empty, the aperture ends well below the top of the address space, and a fixed block lies in it.
   */
  predicate Modest(ap: Aperture, rq: Request) {
    && PowersOfTwo(ap, rq) && Sizeable(ap, rq)
    && ap.limit + 2 * Alignment(ap, rq) + rq.size + Guards(ap) < TWO_64
    && (rq.address != 0 ==> ap.base <= rq.address && rq.address + rq.size + Guards(ap) <= ap.limit + 1)
  }

  lemma {:induction false} ModestClear(ap: Aperture, areas: seq<Area>, rq: Request)
    requires WellFormed(areas) && InAperture(ap, areas) && Modest(ap, rq)
    ensures Clear(ap, areas, rq)
  {
    var i := FirstHole(ap, areas, rq, 0);
    var b := Behind(ap, areas, i);
    assert b <= ap.limit + 1 by {
      assert i > 0 ==> areas[i - 1].end <= ap.limit;
    }
    OffsetRange(ap, rq);
    AlignUpIs(b, Alignment(ap, rq));
  }

  /** A modest request that is refused, or whose search for an address ends in range. */
  ghost predicate Inward(ap: Aperture, areas: seq<Area>, rq: Request) {
    Modest(ap, rq) && (rq.address == 0 && Place(ap, areas, rq).Some? ==> FinalInRange(ap, areas, rq))
  }

  /** Requests point inwards, and only live blocks are given back. */
  ghost predicate WithinStep(ap: Aperture, s: State, step: Step) {
    match step
    case Allocate(rq) => Inward(ap, s.areas, rq)
    case Release(b) => b in s.live && b.len < TWO_64
  }

  ghost predicate WithinRun(ap: Aperture, s: State, steps: seq<Step>)
    decreases |steps|
  {
    steps == [] || (WithinStep(ap, s, steps[0]) && WithinRun(ap, Next(ap, s, steps[0]), steps[1..]))
  }

  lemma {:induction false} WithinKeeps(ap: Aperture, s: State, step: Step)
    requires Consistent(s) && InAperture(ap, s.areas) && WithinStep(ap, s, step)
    ensures Enabled(ap, s, step) && InAperture(ap, Next(ap, s, step).areas)
  {
    match step
    case Allocate(rq) =>
      ModestClear(ap, s.areas, rq);
      if Place(ap, s.areas, rq).Some? {
        var (i, a) := Place(ap, s.areas, rq).value;
        ClearFits(ap, s.areas, rq);
        if rq.address == 0 {
          PlaceInAperture(ap, s.areas, rq);
        }
        PlacedInAperture(ap, s.areas, i, Block(a, Padded(ap, rq.size)));
      }
    case Release(b) =>
      ReleasedInAperture(ap, s.areas, b);
  }

  lemma {:induction false} WithinRunKeeps(ap: Aperture, s: State, steps: seq<Step>)
    requires Consistent(s) && InAperture(ap, s.areas) && WithinRun(ap, s, steps)
    ensures EnabledRun(ap, s, steps) && Consistent(After(ap, s, steps)) && InAperture(ap, After(ap, s, steps).areas)
    decreases |steps|
  {
    if steps != [] {
      WithinKeeps(ap, s, steps[0]);
      NextKeeps(ap, s, steps[0]);
      WithinRunKeeps(ap, Next(ap, s, steps[0]), steps[1..]);
    }
  }

  const EMPTY := State([], {})

  /** From an empty aperture, runs of such steps wrap nothing around and leave all areas in the aperture. */
  lemma {:induction false} ReachableInside(ap: Aperture, steps: seq<Step>)
    requires Usable(ap) && WithinRun(ap, EMPTY, steps)
    ensures EnabledRun(ap, EMPTY, steps) && InAperture(ap, After(ap, EMPTY, steps).areas)
  {
    WithinRunKeeps(ap, EMPTY, steps);
  }

  /**
    In every state that a run reaches from an empty aperture, whatever fixed addresses it used, no
    suitable address is missed or passed over, and what a search that ends in range yields is one.
   */
  lemma {:induction false} ReachableFirstFit(ap: Aperture, steps: seq<Step>, rq: Request)
    requires Usable(ap) && EnabledRun(ap, EMPTY, steps) && Free(ap, rq)
    ensures var areas := After(ap, EMPTY, steps).areas; var p := Place(ap, areas, rq);
      && (p.None? ==> forall x :: !Suitable(ap, areas, rq, x))
      && (p.Some? ==> forall x | Suitable(ap, areas, rq, x) :: p.value.1 <= x)
      && (p.Some? ==> (Suitable(ap, areas, rq, p.value.1) <==> FinalInRange(ap, areas, rq)))
  {
    RunKeeps(ap, EMPTY, steps);
    FirstFitIsLowest(ap, After(ap, EMPTY, steps).areas, rq);
  }

  /** The same for requests aligned to at most a page, in terms of the places that gaps between areas offer. */
  lemma {:induction false} ReachablePageFit(ap: Aperture, steps: seq<Step>, rq: Request)
    requires Usable(ap) && EnabledRun(ap, EMPTY, steps) && GapFit.Loose(ap, rq)
    ensures var areas := After(ap, EMPTY, steps).areas; var p := Place(ap, areas, rq);
      && (p.None? ==> forall g, s :: !GapFit.Offers(ap, areas, rq, g, s))
      && (p.Some? ==> forall g, s | GapFit.Offers(ap, areas, rq, g, s) :: p.value.1 <= s)
      && (p.Some? && Clear(ap, areas, rq) && FinalInRange(ap, areas, rq) ==>
            GapFit.Offers(ap, areas, rq, p.value.0, p.value.1))
  {
    RunKeeps(ap, EMPTY, steps);
    GapFit.PageFitIsLowest(ap, After(ap, EMPTY, steps).areas, rq);
  }
}
