/** What every interleaving of allocations, registrations and releases keeps. */
module FmmInvariant {
  import opened Machine
  import opened Areas
  import opened RbShape
  import opened Fmm

  // ---- Areas and the blocks of objects and threads ----

  datatype Owner = OfObject(id: nat) | OfThread(t: nat)

  /** The addresses, guard pages included, that an object or a thread on its way to one occupies. */
  function BlockOf(ap: Aperture, s: State, o: Owner): Option<Block> {
    match o
    case OfObject(id) =>
      if id in s.heap then Some(Block(s.heap[id].start, Padded(ap, s.heap[id].size))) else None
    case OfThread(t) =>
      if t in s.pcs && (s.pcs[t].Reserved? || s.pcs[t].GivingBack?)
      then Some(Block(s.pcs[t].start, Padded(ap, s.pcs[t].size))) else None
  }

  predicate Occupies(ap: Aperture, s: State, o: Owner, x: int) {
    BlockOf(ap, s, o).Some? && Has(BlockOf(ap, s, o).value, x)
  }

  /**
    The areas cover exactly the blocks of the objects and of the allocations in flight; no two of
    these overlap, and each lies inside one area.
   */
  ghost predicate Accounted(ap: Aperture, s: State) {
    && WellFormed(s.areas)
    && (forall o | BlockOf(ap, s, o).Some? :: var b := BlockOf(ap, s, o).value; 0 < b.len && Inside(s.areas, b))
    && (forall o, p | o != p && BlockOf(ap, s, o).Some? && BlockOf(ap, s, p).Some? ::
          Disjoint(BlockOf(ap, s, o).value, BlockOf(ap, s, p).value))
    && (forall x :: Covered(s.areas, x) <==> exists o :: Occupies(ap, s, o, x))
  }

  ghost predicate SameBlocks(ap: Aperture, s: State, s2: State) {
    forall o :: BlockOf(ap, s2, o) == BlockOf(ap, s, o)
  }

  lemma {:induction false} SameBlocksKeep(ap: Aperture, s: State, s2: State)
    requires Accounted(ap, s) && SameBlocks(ap, s, s2) && s2.areas == s.areas
    ensures Accounted(ap, s2)
  {
    forall x
      ensures Covered(s2.areas, x) <==> exists o :: Occupies(ap, s2, o, x)
    {
      if o :| Occupies(ap, s, o, x) {
        assert Occupies(ap, s2, o, x);
      }
    }
  }

  lemma {:induction false} FreeMeansApart(ap: Aperture, s: State, b: Block, o: Owner)
    requires Accounted(ap, s) && 0 < b.len && (forall x | Has(b, x) :: !Covered(s.areas, x)) && BlockOf(ap, s, o).Some?
    ensures Disjoint(b, BlockOf(ap, s, o).value)
  {
    var c := BlockOf(ap, s, o).value;
    assert Occupies(ap, s, o, c.start);
    assert Covered(s.areas, c.start);
    assert !Has(b, c.start) && Has(b, b.start);
    assert !Occupies(ap, s, o, b.start);
  }

  /** `s2` has one owner more than `s`. */
  ghost predicate OneMore(ap: Aperture, s: State, s2: State, o: Owner, b: Block) {
    && BlockOf(ap, s, o).None? && BlockOf(ap, s2, o) == Some(b)
    && (forall p | p != o :: BlockOf(ap, s2, p) == BlockOf(ap, s, p))
  }

  lemma {:induction false} OneMoreOccupies(ap: Aperture, s: State, s2: State, o: Owner, b: Block, x: int)
    requires OneMore(ap, s, s2, o, b)
    ensures (exists p :: Occupies(ap, s2, p, x)) <==> Has(b, x) || exists p :: Occupies(ap, s, p, x)
  {
    if p :| Occupies(ap, s, p, x) {
      assert Occupies(ap, s2, p, x);
    }
    if Has(b, x) {
      assert Occupies(ap, s2, o, x);
    }
    if p :| Occupies(ap, s2, p, x) {
      assert p != o ==> Occupies(ap, s, p, x);
    }
  }

  /** One owner more, whose block was free. */
  lemma {:induction false} TakenKeeps(ap: Aperture, s: State, s2: State, i: nat, o: Owner, b: Block)
    requires Accounted(ap, s) && Fits(s.areas, i, b) && s2.areas == Placed(s.areas, i, b.start, b.len)
    requires OneMore(ap, s, s2, o, b)
    ensures Accounted(ap, s2)
  {
    PlacedKeeps(s.areas, i, b);
    forall p | p != o && BlockOf(ap, s, p).Some?
      ensures Disjoint(b, BlockOf(ap, s, p).value)
    {
      FreeMeansApart(ap, s, b, p);
    }
    forall x
      ensures Covered(s2.areas, x) <==> exists p :: Occupies(ap, s2, p, x)
    {
      OneMoreOccupies(ap, s, s2, o, b, x);
    }
  }

  /** One owner less, whose block becomes free. */
  lemma {:induction false} GivenKeeps(ap: Aperture, s: State, s2: State, o: Owner)
    requires Accounted(ap, s) && BlockOf(ap, s, o).Some? && BlockOf(ap, s2, o).None?
    requires var b := BlockOf(ap, s, o).value; b.len < TWO_64 && s2.areas == Released(s.areas, b.start, b.len)
    requires forall p | p != o :: BlockOf(ap, s2, p) == BlockOf(ap, s, p)
    ensures Accounted(ap, s2)
  {
    var b := BlockOf(ap, s, o).value;
    ReleasedKeeps(s.areas, b);
    forall p | BlockOf(ap, s2, p).Some?
      ensures Inside(s2.areas, BlockOf(ap, s2, p).value)
    {
      assert Disjoint(b, BlockOf(ap, s, p).value);
    }
    forall x
      ensures Covered(s2.areas, x) <==> exists p :: Occupies(ap, s2, p, x)
    {
      if p :| Occupies(ap, s, p, x) && p != o {
        assert Occupies(ap, s2, p, x);
      }
      if p :| Occupies(ap, s2, p, x) {
        assert Occupies(ap, s, p, x) && p != o;
        assert !Has(b, x);
      }
    }
  }

  /** A block changes hands. */
  lemma {:induction false} MovedKeeps(ap: Aperture, s: State, s2: State, o: Owner, o2: Owner)
    requires Accounted(ap, s) && s2.areas == s.areas && BlockOf(ap, s, o2).None? && BlockOf(ap, s2, o).None?
    requires BlockOf(ap, s, o).Some? && BlockOf(ap, s2, o2) == BlockOf(ap, s, o)
    requires forall p | p != o && p != o2 :: BlockOf(ap, s2, p) == BlockOf(ap, s, p)
    ensures Accounted(ap, s2)
  {
    forall x
      ensures Covered(s2.areas, x) <==> exists p :: Occupies(ap, s2, p, x)
    {
      if p :| Occupies(ap, s, p, x) {
        assert Occupies(ap, s2, if p == o then o2 else p, x);
      }
      if p :| Occupies(ap, s2, p, x) {
        assert Occupies(ap, s, if p == o2 then o else p, x);
      }
    }
  }

  // ---- The two indexes ----

  /**
    An object is in the address tree if it exists and in the user tree if and only if it has a
    user pointer, under its own address and size; no two user pointers are the same, unless empty.
   */
  ghost predicate Indexed(s: State) {
    && s.tree.Keys == s.heap.Keys
    && (forall id :: id in s.userTree <==> id in s.heap && s.heap[id].userptr != 0)
    && (forall id <- s.heap :: id < s.nextId && s.tree[id] == Key(s.heap[id].start, s.heap[id].size))
    && (forall id <- s.userTree :: s.userTree[id] == Key(s.heap[id].userptr, s.heap[id].userSize))
    && (forall i, j | i in s.userTree && j in s.userTree && i != j && s.userTree[i] == s.userTree[j] ::
          s.userTree[i].size == 0)
  }

  /** The same objects with the same addresses and user pointers. */
  ghost predicate SameObjects(s: State, s2: State) {
    && s2.tree == s.tree && s2.userTree == s.userTree && s2.nextId == s.nextId && s2.heap.Keys == s.heap.Keys
    && (forall id <- s.heap ::
          && s2.heap[id].start == s.heap[id].start && s2.heap[id].size == s.heap[id].size
          && s2.heap[id].userptr == s.heap[id].userptr && s2.heap[id].userSize == s.heap[id].userSize)
  }

  // ---- Pointers held by threads ----

  predicate Sound(s: State, pc: Pc) {
    match pc
    case Missed(goal) => goal.UserMemory? && goal.addr != 0
    case Reserved(_, _, goal) => goal.UserMemory? ==> goal.addr != 0
    case Created(id, goal) => goal.UserMemory? && goal.addr != 0 && id in s.heap && s.heap[id].userptr == 0
    case Dropping(id, found, _) => id in s.heap && s.heap[id].userptr == 0 && found != id
    case _ => true
  }

  /** No thread holds a pointer to an object that is gone, and no more threads than have a claim hold one. */
  ghost predicate Claimed(s: State) {
    && (forall t <- s.pcs :: Sound(s, s.pcs[t]))
    && (forall t, id | t in s.pcs && Uses(s.pcs[t], id) :: id in s.heap)
    && (forall id <- s.heap :: |Users(s, id)| <= Claims(s.heap[id]))
  }

  lemma {:induction false} UsersMoved(s: State, s2: State, t: nat, pc: Pc, id: nat)
    requires t in s.pcs && s2.pcs == s.pcs[t := pc]
    ensures |Users(s2, id)| == |Users(s, id)| + (if Uses(pc, id) then 1 else 0) - (if Uses(s.pcs[t], id) then 1 else 0)
  {
    if Uses(pc, id) {
      assert Users(s2, id) == Users(s, id) + {t};
    } else {
      assert Users(s2, id) == Users(s, id) - {t};
    }
  }

  /** A thread moves on, and each object has a claim for the pointers that are left. */
  ghost predicate MovesOn(s: State, s2: State, t: nat, pc: Pc) {
    && t in s.pcs && s2.pcs == s.pcs[t := pc] && Sound(s2, pc)
    && s2.heap.Keys >= s.heap.Keys && (forall id | Uses(pc, id) :: id in s2.heap)
    && (forall id <- s.heap | s.heap[id].userptr == 0 && s2.heap[id].userptr != 0 ::
          forall u <- s.pcs | u != t :: !Uses(s.pcs[u], id))
    && (forall id <- s2.heap ::
          var before := if id in s.heap then Claims(s.heap[id]) else 0;
          Claims(s2.heap[id]) >= before + (if Uses(pc, id) then 1 else 0) - (if Uses(s.pcs[t], id) then 1 else 0))
  }

  lemma {:induction false} MovesOnKeeps(s: State, s2: State, t: nat, pc: Pc)
    requires Claimed(s) && MovesOn(s, s2, t, pc)
    ensures Claimed(s2)
  {
    forall id <- s2.heap
      ensures |Users(s2, id)| <= Claims(s2.heap[id])
    {
      UsersMoved(s, s2, t, pc, id);
      if id !in s.heap {
        assert Users(s, id) == {};
      }
    }
  }

  lemma {:induction false} TwoUsers(s: State, t: nat, u: nat, id: nat)
    requires t in s.pcs && u in s.pcs && t != u && Uses(s.pcs[t], id) && Uses(s.pcs[u], id)
    ensures |Users(s, id)| >= 2
  {
    assert Users(s, id) == Users(s, id) - {t, u} + {t, u};
  }

  /** The only thread with a claim is the only one with a pointer. */
  lemma {:induction false} SoleUser(s: State, t: nat, id: nat)
    requires Claimed(s) && id in s.heap && Claims(s.heap[id]) == 1 && t in s.pcs && Uses(s.pcs[t], id)
    ensures forall u <- s.pcs | u != t :: !Uses(s.pcs[u], id)
  {
    forall u <- s.pcs | u != t
      ensures !Uses(s.pcs[u], id)
    {
      if Uses(s.pcs[u], id) {
        TwoUsers(s, t, u, id);
      }
    }
  }

  /** The last pointer to an object goes with it. */
  lemma {:induction false} RemovedKeeps(s: State, s2: State, t: nat, pc: Pc, id: nat)
    requires Claimed(s) && t in s.pcs && s2.pcs == s.pcs[t := pc] && Sound(s2, pc)
    requires id in s.heap && Claims(s.heap[id]) == 1 && Uses(s.pcs[t], id)
    requires s2.heap == s.heap - {id} && !Uses(pc, id)
    requires forall i | i != id :: Uses(pc, i) ==> Uses(s.pcs[t], i)
    ensures Claimed(s2)
  {
    SoleUser(s, t, id);
    forall u <- s2.pcs
      ensures Sound(s2, s2.pcs[u])
    {
      if u != t {
        assert !Uses(s.pcs[u], id) && Sound(s, s.pcs[u]);
      }
    }
    forall i <- s2.heap
      ensures |Users(s2, i)| <= Claims(s2.heap[i])
    {
      UsersMoved(s, s2, t, pc, i);
    }
  }

  // ---- Every step ----

  ghost predicate Invariant(ap: Aperture, s: State) {
    Accounted(ap, s) && Indexed(s) && Claimed(s)
  }

  lemma {:induction false} SameObjectsIndexed(s: State, s2: State)
    requires Indexed(s) && SameObjects(s, s2)
    ensures Indexed(s2)
  {
  }

  lemma {:induction false} SameObjectsBlocks(ap: Aperture, s: State, s2: State, t: nat, pc: Pc)
    requires SameObjects(s, s2) && s2.pcs == s.pcs[t := pc]
    requires BlockOf(ap, s2, OfThread(t)) == BlockOf(ap, s, OfThread(t))
    ensures SameBlocks(ap, s, s2)
  {
    forall o
      ensures BlockOf(ap, s2, o) == BlockOf(ap, s, o)
    {
      assert o.OfObject? ==> (o.id in s.heap <==> o.id in s.heap.Keys);
    }
  }

  /** The objects stay as they are and a thread moves on with the same block. */
  lemma {:induction false} PointersMoveKeeps(ap: Aperture, s: State, s2: State, t: nat, pc: Pc)
    requires Invariant(ap, s) && SameObjects(s, s2) && s2.areas == s.areas && MovesOn(s, s2, t, pc)
    requires BlockOf(ap, s2, OfThread(t)) == BlockOf(ap, s, OfThread(t))
    ensures Invariant(ap, s2)
  {
    assert Indexed(s2) by {
      SameObjectsIndexed(s, s2);
    }
    assert Claimed(s2) by {
      MovesOnKeeps(s, s2, t, pc);
    }
    SameObjectsBlocks(ap, s, s2, t, pc);
    SameBlocksKeep(ap, s, s2);
  }

  lemma {:induction false} PlaceNotNull(ap: Aperture, areas: seq<Area>, rq: Request)
    requires Usable(ap) && WellFormed(areas) && FirstFit.Harmless(ap, areas, rq) && Place(ap, areas, rq).Some?
    ensures Place(ap, areas, rq).value.1 > 0
  {
    FirstFit.ClearFits(ap, areas, rq);
  }

  ghost predicate Fresh(pc: Pc) {
    pc.Idle? || pc.Missed?
  }

  lemma {:induction false} PlacedAccounted(ap: Aperture, s: State, t: nat, rq: Request, goal: Goal)
    requires Accounted(ap, s) && t in s.pcs && Fresh(s.pcs[t]) && FirstFit.Harmless(ap, s.areas, rq)
    requires Usable(ap) && Place(ap, s.areas, rq).Some?
    ensures var s2 := Reserve(ap, s, t, rq, goal); Accounted(ap, s2) && s2.pcs[t].Reserved?
  {
    var (i, a) := Place(ap, s.areas, rq).value;
    FirstFit.ClearFits(ap, s.areas, rq);
    PlaceNotNull(ap, s.areas, rq);
    TakenKeeps(ap, s, Reserve(ap, s, t, rq, goal), i, OfThread(t), Block(a, Padded(ap, rq.size)));
  }

  lemma {:induction false} ReserveAccounted(ap: Aperture, s: State, t: nat, rq: Request, goal: Goal)
    requires Accounted(ap, s) && t in s.pcs && Fresh(s.pcs[t]) && FirstFit.Harmless(ap, s.areas, rq)
    ensures var s2 := Reserve(ap, s, t, rq, goal);
      Accounted(ap, s2) && (s2.pcs[t].Reserved? || (s2.pcs[t].Idle? && s2.areas == s.areas))
  {
    if Usable(ap) && Place(ap, s.areas, rq).Some? {
      PlacedAccounted(ap, s, t, rq, goal);
    } else {
      IdleAccounted(ap, s, t);
    }
  }

  lemma {:induction false} IdleAccounted(ap: Aperture, s: State, t: nat)
    requires Accounted(ap, s) && t in s.pcs && Fresh(s.pcs[t])
    ensures Accounted(ap, Goto(s, t, Idle))
  {
    SameObjectsBlocks(ap, s, Goto(s, t, Idle), t, Idle);
    SameBlocksKeep(ap, s, Goto(s, t, Idle));
  }

  /** A thread that holds no pointers goes on without any. */
  lemma {:induction false} NoPointersClaimed(s: State, s2: State, t: nat, pc: Pc)
    requires Claimed(s) && t in s.pcs && s2.pcs == s.pcs[t := pc] && s2.heap == s.heap && Sound(s, pc)
    requires forall id :: !Uses(pc, id) && !Uses(s.pcs[t], id)
    ensures Claimed(s2)
  {
    assert MovesOn(s, s2, t, pc);
    MovesOnKeeps(s, s2, t, pc);
  }

  lemma {:induction false} ReserveKeeps(ap: Aperture, s: State, t: nat, rq: Request, goal: Goal)
    requires Invariant(ap, s) && t in s.pcs && Fresh(s.pcs[t]) && FirstFit.Harmless(ap, s.areas, rq)
    requires goal.UserMemory? ==> goal.addr != 0
    ensures var s2 := Reserve(ap, s, t, rq, goal);
      Invariant(ap, s2) && (s2.pcs[t].Reserved? || (s2.pcs[t].Idle? && s2.areas == s.areas))
  {
    var s2 := Reserve(ap, s, t, rq, goal);
    assert Indexed(s2) by {
      SameObjectsIndexed(s, s2);
    }
    assert Claimed(s2) by {
      NoPointersClaimed(s, s2, t, s2.pcs[t]);
    }
    ReserveAccounted(ap, s, t, rq, goal);
  }

  lemma {:induction false} UnreserveKeeps(ap: Aperture, s: State, t: nat)
    requires Invariant(ap, s) && t in s.pcs && (s.pcs[t].Reserved? || s.pcs[t].GivingBack?)
    ensures Invariant(ap, Goto(Unreserve(ap, s, s.pcs[t].start, s.pcs[t].size), t, Idle))
  {
    var s2 := Goto(Unreserve(ap, s, s.pcs[t].start, s.pcs[t].size), t, Idle);
    assert Indexed(s2) by {
      SameObjectsIndexed(s, s2);
    }
    assert Claimed(s2) by {
      NoPointersClaimed(s, s2, t, Idle);
    }
    GivenKeeps(ap, s, s2, OfThread(t));
  }

  lemma {:induction false} AddObjectIndexed(s: State, start: U64, size: U64, handle: U64)
    requires Indexed(s)
    ensures Indexed(AddObject(s, start, size, handle)) && s.nextId !in s.heap
  {
  }

  lemma {:induction false} AddObjectClaimed(s: State, t: nat, handle: U64, pc: Pc)
    requires Claimed(s) && t in s.pcs && s.pcs[t].Reserved? && s.nextId !in s.heap
    requires pc.Idle? || (pc.Created? && pc.id == s.nextId && pc.goal.UserMemory? && pc.goal.addr != 0)
    ensures Claimed(Goto(AddObject(s, s.pcs[t].start, s.pcs[t].size, handle), t, pc))
  {
    var s2 := Goto(AddObject(s, s.pcs[t].start, s.pcs[t].size, handle), t, pc);
    assert MovesOn(s, s2, t, pc);
    MovesOnKeeps(s, s2, t, pc);
  }

  lemma {:induction false} AddObjectAccounted(ap: Aperture, s: State, t: nat, handle: U64, pc: Pc)
    requires Accounted(ap, s) && t in s.pcs && s.pcs[t].Reserved? && s.nextId !in s.heap && (pc.Idle? || pc.Created?)
    ensures Accounted(ap, Goto(AddObject(s, s.pcs[t].start, s.pcs[t].size, handle), t, pc))
  {
    var s2 := Goto(AddObject(s, s.pcs[t].start, s.pcs[t].size, handle), t, pc);
    MovedKeeps(ap, s, s2, OfThread(t), OfObject(s.nextId));
  }

  lemma {:induction false} AddObjectKeeps(ap: Aperture, s: State, t: nat, handle: U64, pc: Pc)
    requires Invariant(ap, s) && t in s.pcs && s.pcs[t].Reserved?
    requires pc.Idle? || (pc.Created? && pc.id == s.nextId && pc.goal.UserMemory? && pc.goal.addr != 0)
    ensures Invariant(ap, Goto(AddObject(s, s.pcs[t].start, s.pcs[t].size, handle), t, pc))
  {
    var s1 := AddObject(s, s.pcs[t].start, s.pcs[t].size, handle);
    var s2 := Goto(s1, t, pc);
    AddObjectIndexed(s, s.pcs[t].start, s.pcs[t].size, handle);
    assert Indexed(s2) by {
      SameObjectsIndexed(s1, s2);
    }
    AddObjectClaimed(s, t, handle, pc);
    AddObjectAccounted(ap, s, t, handle, pc);
  }

  lemma {:induction false} ReserveVaKeeps(ap: Aperture, s: State, t: nat, rq: Request, memory: bool)
    requires Invariant(ap, s) && t in s.pcs && s.pcs[t].Idle? && FirstFit.Harmless(ap, s.areas, rq)
    ensures Invariant(ap, ReserveVa(ap, s, t, rq, memory))
  {
    var s1 := Reserve(ap, s, t, rq, DeviceMemory);
    ReserveKeeps(ap, s, t, rq, DeviceMemory);
    if s1.pcs[t].Reserved? {
      if memory {
        AddObjectKeeps(ap, s1, t, 0, Idle);
      } else {
        UnreserveKeeps(ap, s1, t);
      }
    }
  }

  lemma {:induction false} CountedKeeps(ap: Aperture, s: State, s2: State, t: nat, id: nat, nodes: seq<U32>, pc: Pc)
    requires Invariant(ap, s) && id in s.userTree && t in s.pcs && s.heap[id].count + 1 < TWO_32
    requires s2 == Goto(s.(heap := s.heap[id := Noted(Counted(s.heap[id]), nodes)]), t, pc)
    requires BlockOf(ap, s, OfThread(t)).None? && Sound(s2, pc)
    requires || (s.pcs[t].Idle? && pc.Idle?)
             || (s.pcs[t].Created? && pc.Dropping? && pc.id == s.pcs[t].id && pc.found == id)
    ensures Invariant(ap, s2)
  {
    CountedMovesOn(s, s2, t, id, nodes, pc);
    PointersMoveKeeps(ap, s, s2, t, pc);
  }

  lemma {:induction false} CountedMovesOn(s: State, s2: State, t: nat, id: nat, nodes: seq<U32>, pc: Pc)
    requires Claimed(s) && id in s.heap && s.heap[id].userptr != 0 && t in s.pcs && s.heap[id].count + 1 < TWO_32
    requires s2 == Goto(s.(heap := s.heap[id := Noted(Counted(s.heap[id]), nodes)]), t, pc) && Sound(s2, pc)
    requires || (s.pcs[t].Idle? && pc.Idle?)
             || (s.pcs[t].Created? && pc.Dropping? && pc.id == s.pcs[t].id && pc.found == id)
    ensures SameObjects(s, s2) && MovesOn(s, s2, t, pc)
  {
    assert s2.heap.Keys == s.heap.Keys;
    assert Claims(s2.heap[id]) == Claims(s.heap[id]) + 1;
  }

  lemma {:induction false} RegisteredIndexed(s: State, t: nat, id: nat, goal: Goal)
    requires Indexed(s) && id in s.heap && s.heap[id].userptr == 0 && goal.UserMemory? && goal.addr != 0
    requires LooksUpKey(s, Key(goal.addr, goal.size), None)
    ensures Indexed(Registered(s, t, id, goal))
  {
  }

  /** The indexes agree with the objects after a registration if and only if the user pointer is not null. */
  lemma {:induction false} RegisteredExactly(s: State, t: nat, id: nat, goal: Goal)
    requires Indexed(s) && id in s.heap && s.heap[id].userptr == 0 && goal.UserMemory?
    requires LooksUpKey(s, Key(goal.addr, goal.size), None)
    ensures Indexed(Registered(s, t, id, goal)) <==> goal.addr != 0
  {
    if goal.addr != 0 {
      RegisteredIndexed(s, t, id, goal);
    } else {
      assert id in Registered(s, t, id, goal).userTree;
    }
  }

  /** An object registered under a null user pointer goes, but its node stays in the user tree. */
  lemma {:induction false} NullStaysInTree(ap: Aperture, s: State, t: nat, id: nat, goal: Goal)
    requires id in s.heap && goal.UserMemory? && goal.addr == 0
    ensures var s2 := ReleaseObject(ap, Registered(s, t, id, goal), id, true);
      id !in s2.heap && id !in s2.tree && id in s2.userTree
  {
    assert Frees(Registered(s, t, id, goal).heap[id], true);
  }

  lemma {:induction false} RegisteredClaimed(s: State, t: nat, goal: Goal)
    requires Claimed(s) && t in s.pcs && s.pcs[t].Created? && s.pcs[t].goal == goal
    ensures goal.UserMemory? && Claimed(Registered(s, t, s.pcs[t].id, goal))
  {
    assert Sound(s, s.pcs[t]) && Uses(s.pcs[t], s.pcs[t].id);
    var id := s.pcs[t].id;
    SoleUser(s, t, id);
    var s2 := Registered(s, t, id, goal);
    assert MovesOn(s, s2, t, AfterNote(id, goal.nodes));
    MovesOnKeeps(s, s2, t, AfterNote(id, goal.nodes));
  }

  lemma {:induction false} RegisteredAccounted(ap: Aperture, s: State, t: nat, id: nat, goal: Goal)
    requires Accounted(ap, s) && id in s.heap && t in s.pcs && s.pcs[t].Created? && goal.UserMemory?
    ensures Accounted(ap, Registered(s, t, id, goal))
  {
    var s2 := Registered(s, t, id, goal);
    assert SameBlocks(ap, s, s2);
    SameBlocksKeep(ap, s, s2);
  }

  // ---- Release ----

  /** A thread lets go of an object and of nothing else. */
  ghost predicate LetsGo(s: State, t: nat, id: nat, pc: Pc) {
    && t in s.pcs && id in s.heap && Uses(s.pcs[t], id) && !Uses(pc, id)
    && (forall i | i != id :: Uses(pc, i) <==> Uses(s.pcs[t], i))
    && (pc.Idle? || pc.Noting?)
  }

  lemma {:induction false} ClaimLeft(s: State, t: nat, id: nat)
    requires Claimed(s) && t in s.pcs && Uses(s.pcs[t], id)
    ensures id in s.heap && Claims(s.heap[id]) >= 1
  {
    assert t in Users(s, id);
  }

  function Freed(ap: Aperture, s: State, t: nat, id: nat, pc: Pc): State
    requires id in s.heap
  {
    Goto(RemoveObject(Unreserve(ap, s, s.heap[id].start, s.heap[id].size), id), t, pc)
  }

  lemma {:induction false} FreedAccounted(ap: Aperture, s: State, t: nat, id: nat, pc: Pc)
    requires Accounted(ap, s) && LetsGo(s, t, id, pc)
    ensures Accounted(ap, Freed(ap, s, t, id, pc))
  {
    GivenKeeps(ap, s, Freed(ap, s, t, id, pc), OfObject(id));
  }

  lemma {:induction false} FreedClaimed(ap: Aperture, s: State, t: nat, id: nat, pc: Pc)
    requires Claimed(s) && LetsGo(s, t, id, pc) && Claims(s.heap[id]) == 1
    ensures Claimed(Freed(ap, s, t, id, pc))
  {
    RemovedKeeps(s, Freed(ap, s, t, id, pc), t, pc, id);
  }

  lemma {:induction false} FreedKeeps(ap: Aperture, s: State, t: nat, id: nat, pc: Pc)
    requires Invariant(ap, s) && LetsGo(s, t, id, pc) && Claims(s.heap[id]) == 1
    ensures Invariant(ap, Freed(ap, s, t, id, pc))
  {
    FreedAccounted(ap, s, t, id, pc);
    FreedClaimed(ap, s, t, id, pc);
    RemovedIndexed(s, Freed(ap, s, t, id, pc), id);
  }

  lemma {:induction false} RemovedIndexed(s: State, s2: State, id: nat)
    requires Indexed(s) && id in s.heap
    requires var r := RemoveObject(s, id);
      s2.heap == r.heap && s2.tree == r.tree && s2.userTree == r.userTree && s2.nextId == r.nextId
    ensures Indexed(s2)
  {
  }

  lemma {:induction false} UnregisteredKeeps(ap: Aperture, s: State, t: nat, id: nat, pc: Pc)
    requires Invariant(ap, s) && LetsGo(s, t, id, pc)
    ensures Invariant(ap, Goto(s.(heap := s.heap[id := Unregistered(s.heap[id])]), t, pc))
  {
    var s2 := Goto(s.(heap := s.heap[id := Unregistered(s.heap[id])]), t, pc);
    ClaimLeft(s, t, id);
    UnregisteredMovesOn(s, s2, t, id, pc);
    PointersMoveKeeps(ap, s, s2, t, pc);
  }

  lemma {:induction false} UnregisteredMovesOn(s: State, s2: State, t: nat, id: nat, pc: Pc)
    requires LetsGo(s, t, id, pc) && s2 == Goto(s.(heap := s.heap[id := Unregistered(s.heap[id])]), t, pc)
    requires Claimed(s) && Claims(s.heap[id]) >= 1
    ensures SameObjects(s, s2) && MovesOn(s, s2, t, pc)
  {
    assert s2.heap.Keys == s.heap.Keys;
    UnregisteredClaims(s.heap[id]);
  }

  lemma {:induction false} UnregisteredClaims(o: Object)
    requires Claims(o) >= 1
    ensures Claims(Unregistered(o)) >= Claims(o) - 1 && Unregistered(o) == o.(count := Unregistered(o).count)
  {
  }

  lemma {:induction false} FreesLastClaim(o: Object, freed: bool)
    requires Frees(o, freed) && Claims(o) >= 1
    ensures Claims(o) == 1
  {
  }

  lemma {:induction false} ReleaseKeeps(ap: Aperture, s: State, t: nat, id: nat, freed: bool, pc: Pc)
    requires Invariant(ap, s) && LetsGo(s, t, id, pc)
    ensures Invariant(ap, Goto(ReleaseObject(ap, s, id, freed), t, pc))
  {
    ClaimLeft(s, t, id);
    if Frees(s.heap[id], freed) {
      FreesLastClaim(s.heap[id], freed);
      FreedKeeps(ap, s, t, id, pc);
    } else {
      UnregisteredKeeps(ap, s, t, id, pc);
    }
  }

  // ---- Runs ----

  lemma {:induction false} FindUserKeeps(ap: Aperture, s: State, t: nat, goal: Goal, found: Option<nat>)
    requires Invariant(ap, s) && t in s.pcs && s.pcs[t].Idle? && goal.UserMemory? && goal.addr != 0
    requires LooksUp(s, found) && Countable(s, found)
    ensures Invariant(ap, if found.Some? then Match(s, t, found.value, goal.nodes) else Goto(s, t, Missed(goal)))
  {
    if found.Some? {
      CountedKeeps(ap, s, Match(s, t, found.value, goal.nodes), t, found.value, goal.nodes, Idle);
    } else {
      PointersMoveKeeps(ap, s, Goto(s, t, Missed(goal)), t, Missed(goal));
    }
  }

  lemma {:induction false} PublishKeeps(ap: Aperture, s: State, t: nat, found: Option<nat>)
    requires Invariant(ap, s) && t in s.pcs && s.pcs[t].Created? && s.pcs[t].goal.UserMemory?
    requires LooksUpKey(s, Key(s.pcs[t].goal.addr, s.pcs[t].goal.size), found) && Countable(s, found)
    ensures var pc := s.pcs[t];
      Invariant(ap, if found.Some? then Yielded(s, t, pc.id, found.value, pc.goal.nodes)
                    else Registered(s, t, pc.id, pc.goal))
  {
    var pc := s.pcs[t];
    assert Sound(s, pc);
    if found.Some? {
      var s2 := Yielded(s, t, pc.id, found.value, pc.goal.nodes);
      assert Noted(Counted(s.heap[found.value]), []) == Counted(s.heap[found.value]);
      CountedKeeps(ap, s, s2, t, found.value, [], Dropping(pc.id, found.value, pc.goal.nodes));
    } else {
      RegisteredIndexed(s, t, pc.id, pc.goal);
      RegisteredClaimed(s, t, pc.goal);
      RegisteredAccounted(ap, s, t, pc.id, pc.goal);
    }
  }

  lemma {:induction false} NoteKeeps(ap: Aperture, s: State, t: nat)
    requires Invariant(ap, s) && t in s.pcs && s.pcs[t].Noting?
    ensures Invariant(ap, Goto(NoteAt(s, s.pcs[t].id, s.pcs[t].nodes), t, Idle))
  {
    var s2 := Goto(NoteAt(s, s.pcs[t].id, s.pcs[t].nodes), t, Idle);
    NoteMovesOn(s, t);
    PointersMoveKeeps(ap, s, s2, t, Idle);
  }

  lemma {:induction false} NoteMovesOn(s: State, t: nat)
    requires Claimed(s) && t in s.pcs && s.pcs[t].Noting?
    ensures var s2 := Goto(NoteAt(s, s.pcs[t].id, s.pcs[t].nodes), t, Idle);
      SameObjects(s, s2) && MovesOn(s, s2, t, Idle)
  {
  }

  lemma {:induction false} FindReleaseKeeps(ap: Aperture, s: State, t: nat, id: nat)
    requires Invariant(ap, s) && t in s.pcs && s.pcs[t].Idle? && id in s.heap && |Users(s, id)| < Claims(s.heap[id])
    ensures Invariant(ap, Goto(s, t, Releasing(id)))
  {
    var s2 := Goto(s, t, Releasing(id));
    SameObjectsIndexed(s, s2);
    SameObjectsBlocks(ap, s, s2, t, Releasing(id));
    SameBlocksKeep(ap, s, s2);
    FindReleaseClaimed(s, t, id);
  }

  lemma {:induction false} FindReleaseClaimed(s: State, t: nat, id: nat)
    requires Claimed(s) && t in s.pcs && s.pcs[t].Idle? && id in s.heap && |Users(s, id)| < Claims(s.heap[id])
    ensures Claimed(Goto(s, t, Releasing(id)))
  {
    var s2 := Goto(s, t, Releasing(id));
    forall i <- s2.heap
      ensures |Users(s2, i)| <= Claims(s2.heap[i])
    {
      UsersMoved(s, s2, t, Releasing(id), i);
    }
  }

  /** Every step keeps areas, objects and indexes in agreement, and never leaves a dangling pointer. */
  lemma {:induction false} NextKeeps(ap: Aperture, s: State, step: Step)
    requires ap.pageSize > 0 && Invariant(ap, s) && Enabled(ap, s, step)
    ensures Invariant(ap, Next(ap, s, step))
  {
    var t, pc := step.t, s.pcs[step.t];
    assert Sound(s, pc);
    match step
    case AllocDevice(_, rq) => ReserveKeeps(ap, s, t, rq, DeviceMemory);
    case AllocVa(_, rq, memory) => ReserveVaKeeps(ap, s, t, rq, memory);
    case FindUser(_, goal, found) => FindUserKeeps(ap, s, t, goal, found);
    case AllocUser(_) => ReserveKeeps(ap, s, t, UserRequest(ap, pc.goal), pc.goal);
    case KernelRefuses(_) => RefusedKeeps(ap, s, t);
    case MakeObject(_, handle, memory) =>
      if memory {
        AddObjectKeeps(ap, s, t, handle, if pc.goal.UserMemory? then Created(s.nextId, pc.goal) else Idle);
      } else {
        RefusedKeeps(ap, s, t);
      }
    case GiveBack(_) => UnreserveKeeps(ap, s, t);
    case Publish(_, found) => PublishKeeps(ap, s, t, found);
    case Drop(_, freed) =>
      assert Uses(pc, pc.id);
      ReleaseKeeps(ap, s, t, pc.id, freed, AfterNote(pc.found, pc.nodes));
    case Note(_) => NoteKeeps(ap, s, t);
    case FindRelease(_, id) => FindReleaseKeeps(ap, s, t, id);
    case Release(_, freed) =>
      assert Uses(pc, pc.id);
      ReleaseKeeps(ap, s, t, pc.id, freed, Idle);
  }

  lemma {:induction false} RefusedKeeps(ap: Aperture, s: State, t: nat)
    requires Invariant(ap, s) && t in s.pcs && s.pcs[t].Reserved?
    ensures Invariant(ap, Goto(s, t, GivingBack(s.pcs[t].start, s.pcs[t].size)))
  {
    var pc := GivingBack(s.pcs[t].start, s.pcs[t].size);
    PointersMoveKeeps(ap, s, Goto(s, t, pc), t, pc);
  }
}
