/**
  The memory manager of one reserved aperture under concurrent callers. A step is one section
  under the aperture's mutex, or a kernel call outside of it; kernel and malloc outcomes are
  chosen by the step. Objects are known by an identity that is never used twice.
 */
module Fmm {
  import opened Machine
  import opened Align
  import opened Areas
  import FirstFit
  import opened RbShape

  /** `userptr` is 0 unless the object stands for registered user memory. */
  datatype Object = Object(start: U64, size: U64, handle: U64, userptr: U64, userSize: U64, count: U32, nodes: seq<U32>)

  /** Why a thread allocates device memory: for its own sake, or to register user memory. */
  datatype Goal = DeviceMemory | UserMemory(addr: U64, size: U64, nodes: seq<U32>)

  /** Where a thread stands between two sections. */
  datatype Pc =
    | Idle
    | Missed(goal: Goal)
    | Reserved(start: U64, size: U64, goal: Goal)
    | GivingBack(start: U64, size: U64)
    | Created(id: nat, goal: Goal)
    | Dropping(id: nat, found: nat, nodes: seq<U32>)
    | Noting(id: nat, nodes: seq<U32>)
    | Releasing(id: nat)

  /** `heap` holds the objects that exist; `tree` and `userTree` hold the nodes of the two indexes. */
  datatype State = State(
    areas: seq<Area>, heap: map<nat, Object>, tree: map<nat, Key>, userTree: map<nat, Key>,
    pcs: map<nat, Pc>, nextId: nat)

  datatype Step =
    | AllocDevice(t: nat, rq: Request)
    | AllocVa(t: nat, rq: Request, memory: bool)
    | FindUser(t: nat, goal: Goal, found: Option<nat>)
    | AllocUser(t: nat)
    | KernelRefuses(t: nat)
    | MakeObject(t: nat, handle: U64, memory: bool)
    | GiveBack(t: nat)
    | Publish(t: nat, found: Option<nat>)
    | Drop(t: nat, freed: bool)
    | Note(t: nat)
    | FindRelease(t: nat, id: nat)
    | Release(t: nat, freed: bool)

  function Wrap32(x: int): U32 {
    x % TWO_32
  }

  // ---- What the sections do ----

  function Goto(s: State, t: nat, pc: Pc): State {
    s.(pcs := s.pcs[t := pc])
  }

  /** A null address counts as failure, whatever became of the areas. */
  function Reserve(ap: Aperture, s: State, t: nat, rq: Request, goal: Goal): State
    requires Alignable(ap, rq)
  {
    var p := Place(ap, s.areas, rq);
    if !Usable(ap) || p.None? then Goto(s, t, Idle)
    else
      var (i, a) := p.value;
      Goto(s.(areas := Placed(s.areas, i, a, Padded(ap, rq.size))), t,
           if a == 0 then Idle else Reserved(a, rq.size, goal))
  }

  function Unreserve(ap: Aperture, s: State, start: U64, size: U64): State {
    s.(areas := Released(s.areas, start, Padded(ap, size)))
  }

  function AddObject(s: State, start: U64, size: U64, handle: U64): State {
    s.(heap := s.heap[s.nextId := Object(start, size, handle, 0, 0, 0, [])],
       tree := s.tree[s.nextId := Key(start, size)],
       nextId := s.nextId + 1)
  }

  function RemoveObject(s: State, id: nat): State
    requires id in s.heap
  {
    s.(heap := s.heap - {id}, tree := s.tree - {id},
       userTree := if s.heap[id].userptr != 0 then s.userTree - {id} else s.userTree)
  }

  /** The object after one registration less, if it is registered. */
  function Unregistered(o: Object): Object {
    if o.userptr != 0 then o.(count := Wrap32(o.count - 1)) else o
  }

  /** A release takes the object away unless registrations are left or the kernel refuses. */
  predicate Frees(o: Object, freed: bool) {
    !(o.userptr != 0 && Unregistered(o).count > 0) && (o.handle == 0 || freed)
  }

  function ReleaseObject(ap: Aperture, s: State, id: nat, freed: bool): State {
    if id !in s.heap then s
    else
      var o := s.heap[id];
      if Frees(o, freed) then RemoveObject(Unreserve(ap, s, o.start, o.size), id)
      else s.(heap := s.heap[id := Unregistered(o)])
  }

  /** Nodes can be set once; a different later request is rejected and changes nothing. */
  function Noted(o: Object, nodes: seq<U32>): Object {
    if o.nodes == [] && nodes != [] then o.(nodes := nodes) else o
  }

  function Counted(o: Object): Object {
    o.(count := Wrap32(o.count + 1))
  }

  function NoteAt(s: State, id: nat, nodes: seq<U32>): State {
    if id !in s.heap then s else s.(heap := s.heap[id := Noted(s.heap[id], nodes)])
  }

  function AfterNote(id: nat, nodes: seq<U32>): Pc {
    if nodes == [] then Idle else Noting(id, nodes)
  }

  /** Registering a user pointer that is in the tree counts before it compares the nodes. */
  function Match(s: State, t: nat, id: nat, nodes: seq<U32>): State
    requires id in s.heap
  {
    Goto(s.(heap := s.heap[id := Noted(Counted(s.heap[id]), nodes)]), t, Idle)
  }

  function Registered(s: State, t: nat, id: nat, goal: Goal): State
    requires goal.UserMemory?
  {
    if id !in s.heap then s
    else
      var o := s.heap[id].(userptr := goal.addr, userSize := goal.size, count := 1);
      Goto(s.(heap := s.heap[id := o], userTree := s.userTree[id := Key(goal.addr, goal.size)]), t,
           AfterNote(id, goal.nodes))
  }

  /** Some other thread was faster: its object is counted, the new one is to be dropped. */
  function Yielded(s: State, t: nat, id: nat, found: nat, nodes: seq<U32>): State
    requires found in s.heap
  {
    Goto(s.(heap := s.heap[found := Counted(s.heap[found])]), t, Dropping(id, found, nodes))
  }

  /** User memory is allocated in whole pages and aligned as the aperture asks. */
  function UserRequest(ap: Aperture, goal: Goal): Request
    requires goal.UserMemory? && ap.pageSize > 0
  {
    Request(0, AlignUp(Wrap(goal.addr % ap.pageSize + goal.size), ap.pageSize), ap.align)
  }

  // ---- Steps ----

  /**
    What the exact lookup of a user pointer yields: one under the same key, or, for an empty key, one
    of those at its address if they all have the same key.
   */
  ghost predicate LooksUpKey(s: State, key: Key, found: Option<nat>) {
    match found
    case Some(id) =>
      && id in s.userTree
      && if key.size != 0 then s.userTree[id] == key
         else
           && s.userTree[id].addr == key.addr
           && forall j <- s.userTree | s.userTree[j].addr == key.addr :: s.userTree[j] == s.userTree[id]
    case None =>
      if key.size != 0 then forall id <- s.userTree :: s.userTree[id] != key
      else !exists id <- s.userTree :: OnlyAt(s.userTree, key.addr, id)
  }

  ghost predicate OnlyAt(index: map<nat, Key>, addr: U64, id: nat) {
    id in index && index[id].addr == addr && forall j <- index | index[j].addr == addr :: j == id
  }

  /**
    A register call may match any registered object: by its user pointer, by an address inside it,
    or by its GPU address. It may also match none, though one with the same key exists.
   */
  ghost predicate LooksUp(s: State, found: Option<nat>) {
    found.Some? ==> found.value in s.userTree
  }

  predicate Uses(pc: Pc, id: nat) {
    match pc
    case Created(i, _) => i == id
    case Dropping(i, found, nodes) => i == id || (found == id && nodes != [])
    case Noting(i, _) => i == id
    case Releasing(i) => i == id
    case _ => false
  }

  /** The threads that still hold a pointer to the object. */
  function Users(s: State, id: nat): set<nat> {
    set t | t in s.pcs && Uses(s.pcs[t], id)
  }

  /** How many callers may be at work on an object: the one that allocated it, or one for each registration. */
  function Claims(o: Object): nat {
    if o.userptr != 0 then o.count else 1
  }

  ghost predicate Countable(s: State, found: Option<nat>) {
    found.Some? ==> found.value in s.heap && s.heap[found.value].count + 1 < TWO_32
  }

  /**
    What the model asks of the callers: alignments are powers of two and nothing wraps around
    where a search for a place ends, user pointers are not null, registrations do not overflow
    their counter, and an object is released only by callers whose allocation or registration is
    outstanding.
   */
  ghost predicate Enabled(ap: Aperture, s: State, step: Step)
    requires ap.pageSize > 0
  {
    step.t in s.pcs && var pc := s.pcs[step.t];
    match step
    case AllocDevice(_, rq) => pc.Idle? && FirstFit.Harmless(ap, s.areas, rq)
    case AllocVa(_, rq, _) => pc.Idle? && FirstFit.Harmless(ap, s.areas, rq)
    case FindUser(_, goal, found) =>
      pc.Idle? && goal.UserMemory? && goal.addr != 0 && LooksUp(s, found) && Countable(s, found)
    case AllocUser(_) => pc.Missed? && pc.goal.UserMemory? && FirstFit.Harmless(ap, s.areas, UserRequest(ap, pc.goal))
    case KernelRefuses(_) => pc.Reserved?
    case MakeObject(_, _, _) => pc.Reserved?
    case GiveBack(_) => pc.GivingBack?
    case Publish(_, found) =>
      pc.Created? && pc.goal.UserMemory? && LooksUpKey(s, Key(pc.goal.addr, pc.goal.size), found) && Countable(s, found)
    case Drop(_, _) => pc.Dropping?
    case Note(_) => pc.Noting?
    case FindRelease(_, id) => pc.Idle? && id in s.heap && |Users(s, id)| < Claims(s.heap[id])
    case Release(_, _) => pc.Releasing?
  }

  ghost function Next(ap: Aperture, s: State, step: Step): State
    requires ap.pageSize > 0 && Enabled(ap, s, step)
  {
    var t, pc := step.t, s.pcs[step.t];
    match step
    case AllocDevice(_, rq) => Reserve(ap, s, t, rq, DeviceMemory)
    case AllocVa(_, rq, memory) => ReserveVa(ap, s, t, rq, memory)
    case FindUser(_, goal, found) =>
      if found.Some? then Match(s, t, found.value, goal.nodes) else Goto(s, t, Missed(goal))
    case AllocUser(_) => Reserve(ap, s, t, UserRequest(ap, pc.goal), pc.goal)
    case KernelRefuses(_) => Goto(s, t, GivingBack(pc.start, pc.size))
    case MakeObject(_, handle, memory) =>
      if !memory then Goto(s, t, GivingBack(pc.start, pc.size))
      else Goto(AddObject(s, pc.start, pc.size, handle), t,
                if pc.goal.UserMemory? then Created(s.nextId, pc.goal) else Idle)
    case GiveBack(_) => Goto(Unreserve(ap, s, pc.start, pc.size), t, Idle)
    case Publish(_, found) =>
      if found.Some? then Yielded(s, t, pc.id, found.value, pc.goal.nodes) else Registered(s, t, pc.id, pc.goal)
    case Drop(_, freed) => Goto(ReleaseObject(ap, s, pc.id, freed), t, AfterNote(pc.found, pc.nodes))
    case Note(_) => Goto(NoteAt(s, pc.id, pc.nodes), t, Idle)
    case FindRelease(_, id) => Goto(s, t, Releasing(id))
    case Release(_, freed) => Goto(ReleaseObject(ap, s, pc.id, freed), t, Idle)
  }

  /** Addresses without memory: area and object in one section. */
  function ReserveVa(ap: Aperture, s: State, t: nat, rq: Request, memory: bool): State
    requires Alignable(ap, rq)
  {
    var s1 := Reserve(ap, s, t, rq, DeviceMemory);
    if t !in s1.pcs || !s1.pcs[t].Reserved? then s1
    else
      var pc := s1.pcs[t];
      Goto(if memory then AddObject(s1, pc.start, pc.size, 0) else Unreserve(ap, s1, pc.start, pc.size), t, Idle)
  }
}
