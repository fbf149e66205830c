/** The occupied areas of a reserved aperture as the doubly linked list that the allocator updates in place. */
module AreaList {
  import opened Machine
  import opened Align
  import opened Areas

  class VmArea {
    var start: U64
    var end: U64
    var next: VmArea?
    var prev: VmArea?

    constructor (start: U64, end: U64)
      ensures this.start == start && this.end == end && next == null && prev == null
    {
      this.start, this.end, next, prev := start, end, null, null;
    }
  }

  class ReservedAperture {
    const ap: Aperture
    var vmRanges: VmArea?
    /** The list elements from the first to the last. */
    ghost var nodes: seq<VmArea>
    /** The areas that they hold. */
    ghost var areas: seq<Area>

    /** `next` leads from the first element to the last, and `prev` the same way back. */
    ghost predicate Linked()
      reads this`vmRanges, this`nodes, nodes`next, nodes`prev
    {
      && (forall i, j | 0 <= i < j < |nodes| :: nodes[i] != nodes[j])
      && vmRanges == (if nodes == [] then null else nodes[0])
      && (forall i {:trigger nodes[i].next} | 0 <= i < |nodes| ::
            nodes[i].next == if i + 1 < |nodes| then nodes[i + 1] else null)
      && (forall i {:trigger nodes[i].prev} | 0 <= i < |nodes| :: nodes[i].prev == if i > 0 then nodes[i - 1] else null)
    }

    ghost predicate Holds()
      reads this`nodes, this`areas, nodes`start, nodes`end
    {
      && |areas| == |nodes|
      && forall i | 0 <= i < |nodes| :: nodes[i].start == areas[i].start && nodes[i].end == areas[i].end
    }

    ghost predicate Valid()
      reads this, nodes
    {
      Linked() && Holds()
    }

    constructor (ap: Aperture)
      ensures Valid() && this.ap == ap && areas == [] && nodes == []
    {
      this.ap, vmRanges, nodes, areas := ap, null, [], [];
    }

    /** The first area that contains the address. */
    method Find(address: U64) returns (cur: VmArea?)
      requires Valid()
      ensures Valid() && var k := FindArea(areas, address, 0); cur == if k < |nodes| then nodes[k] else null
    {
      ghost var k := 0;
      cur := vmRanges;
      while cur != null
        invariant Valid() && k <= |nodes| && cur == (if k < |nodes| then nodes[k] else null)
        invariant FindArea(areas, address, k) == FindArea(areas, address, 0)
        decreases |nodes| - k
      {
        assert nodes[k] == cur;
        if cur.start <= address && cur.end >= address {
          break;
        }
        cur, k := cur.next, k + 1;
      }
    }

    method Unlink(area: VmArea, ghost k: nat)
      requires Linked() && k < |nodes| && nodes[k] == area
      modifies this`vmRanges, this`nodes, nodes`next, nodes`prev
      ensures Linked() && nodes == old(nodes[..k] + nodes[k + 1..])
    {
      var next, prev := area.next, area.prev;
      assert prev == (if k > 0 then nodes[k - 1] else null) && next == (if k + 1 < |nodes| then nodes[k + 1] else null);
      Without(nodes, k);
      nodes := nodes[..k] + nodes[k + 1..];
      if prev == null {
        vmRanges := next;
      } else {
        prev.next := next;
      }
      if next != null {
        next.prev := prev;
      }
    }

    method RemoveArea(area: VmArea, ghost k: nat)
      requires Valid() && k < |nodes| && nodes[k] == area
      modifies this`vmRanges, this`nodes, this`areas, nodes`next, nodes`prev
      ensures Valid() && areas == old(areas[..k] + areas[k + 1..]) && forall n <- nodes :: n in old(nodes)
    {
      Without(nodes, k);
      Without(areas, k);
      Unlink(area, k);
      areas := areas[..k] + areas[k + 1..];
    }

    /** Links a new area in between two neighbours, or at an end of the list. */
    method Link(prev: VmArea?, area: VmArea, next: VmArea?, ghost k: nat)
      requires Linked() && k <= |nodes| && area !in nodes
      requires prev == (if k > 0 then nodes[k - 1] else null) && next == (if k < |nodes| then nodes[k] else null)
      modifies this`vmRanges, this`nodes, nodes`next, nodes`prev, area`next, area`prev
      ensures Linked() && nodes == old(nodes[..k] + [area] + nodes[k..])
    {
      With(nodes, k, area);
      nodes := nodes[..k] + [area] + nodes[k..];
      area.next := next;
      area.prev := prev;
      if prev != null {
        prev.next := area;
      } else {
        vmRanges := area;
      }
      if next != null {
        next.prev := area;
      }
    }

    method InsertArea(prev: VmArea?, area: VmArea, next: VmArea?, ghost k: nat)
      requires Valid() && k <= |nodes| && area !in nodes
      requires prev == (if k > 0 then nodes[k - 1] else null) && next == (if k < |nodes| then nodes[k] else null)
      modifies this`vmRanges, this`nodes, this`areas, nodes`next, nodes`prev, area`next, area`prev
      ensures Valid() && areas == old(areas[..k] + [Area(area.start, area.end)] + areas[k..])
      ensures forall n <- nodes :: n in old(nodes) || n == area
    {
      With(nodes, k, area);
      With(areas, k, Area(area.start, area.end));
      areas := areas[..k] + [Area(area.start, area.end)] + areas[k..];
      Link(prev, area, next, k);
      assert forall n <- nodes :: n in old(nodes) || n == area;
    }

    /** Moves the ends of one area. */
    method Resize(area: VmArea, start: U64, end: U64, ghost k: nat)
      requires Valid() && k < |nodes| && nodes[k] == area
      modifies this`areas, area`start, area`end
      ensures Valid() && areas == old(areas)[k := Area(start, end)]
    {
      area.start, area.end := start, end;
      areas := areas[k := Area(start, end)];
    }

    method Split(area: VmArea, address: U64, len: U64, memory: bool, ghost k: nat)
      requires Valid() && k < |nodes| && nodes[k] == area
      modifies this`vmRanges, this`nodes, this`areas, nodes
      ensures Valid() && forall n <- nodes :: n in old(nodes) || fresh(n)
      ensures areas == if !memory then old(areas) else
        old(areas[..k] + [Area(area.start, Wrap(address - 1)), Area(Wrap(address + len), area.end)] + areas[k + 1..])
    {
      if !memory {
        return;
      }
      var newArea := new VmArea(Wrap(address + len), area.end);
      SplitSeq(areas, k, Area(area.start, Wrap(address - 1)), Area(newArea.start, newArea.end));
      Resize(area, area.start, Wrap(address - 1), k);
      assert area.next == if k + 1 < |nodes| then nodes[k + 1] else null;
      InsertArea(area, newArea, area.next, k + 1);
    }

    /**
      Gives `size` bytes and their guard pages back. When a split needs a new list element and
      there is no memory for it, nothing happens.
     */
    method Release(address: U64, size: U64, memory: bool)
      requires Valid()
      modifies this`vmRanges, this`nodes, this`areas, nodes
      ensures Valid() && forall n <- nodes :: n in old(nodes) || fresh(n)
      ensures areas == if memory || !NeedsSplit(old(areas), address, Padded(ap, size))
        then Released(old(areas), address, Padded(ap, size)) else old(areas)
    {
      var area := Find(address);
      if area != null {
        Reduce(area, address, Padded(ap, size), memory, FindArea(areas, address, 0));
      }
    }

    /** Removes, shrinks or splits one area. */
    method Reduce(area: VmArea, address: U64, len: U64, memory: bool, ghost k: nat)
      requires Valid() && k < |nodes| && nodes[k] == area
      modifies this`vmRanges, this`nodes, this`areas, nodes
      ensures Valid() && forall n <- nodes :: n in old(nodes) || fresh(n)
      ensures var reduced := Reduced(old(areas)[k], address, len);
        areas == if memory || |reduced| < 2 then old(areas)[..k] + reduced + old(areas)[k + 1..] else old(areas)
    {
      ghost var v, reduced := areas, Reduced(areas[k], address, len);
      assert v[k] == Area(area.start, area.end);
      var region := Wrap(area.end - area.start + 1);
      if region == len {
        UpdateSeq(v, k, v[k]);
        assert reduced == [];
        RemoveArea(area, k);
      } else if region > len {
        if area.start == address {
          ghost var x := Area(Wrap(area.start + len), area.end);
          assert reduced == [x];
          UpdateSeq(v, k, x);
          Resize(area, Wrap(area.start + len), area.end, k);
        } else if Wrap(area.end - address + 1) == len {
          ghost var x := Area(area.start, Wrap(area.end - len));
          assert reduced == [x];
          UpdateSeq(v, k, x);
          Resize(area, area.start, Wrap(area.end - len), k);
        } else {
          assert reduced == [Area(area.start, Wrap(address - 1)), Area(Wrap(address + len), area.end)];
          Split(area, address, len, memory, k);
        }
      } else {
        UpdateSeq(v, k, v[k]);
        assert reduced == [v[k]];
      }
    }

    /** The hole for a request: its neighbours in the list and the candidate address. */
    method Search(rq: Request, align: U64, offset: int) returns (cur: VmArea?, next: VmArea?, start: U64)
      requires Valid() && PowersOfTwo(ap, rq) && align == Alignment(ap, rq) && offset == Offset(ap, rq)
      ensures Valid() && var k := FirstHole(ap, areas, rq, 0);
        && start == StartAt(ap, areas, rq, k)
        && cur == (if k > 0 then nodes[k - 1] else null) && next == (if k < |nodes| then nodes[k] else null)
    {
      ghost var k := 0;
      cur, next := null, vmRanges;
      start := if rq.address != 0 then rq.address else Wrap(AlignUp(ap.base, align) + offset);
      while next != null
        invariant Valid() && k <= |nodes| && start == StartAt(ap, areas, rq, k)
        invariant cur == (if k > 0 then nodes[k - 1] else null) && next == (if k < |nodes| then nodes[k] else null)
        invariant FirstHole(ap, areas, rq, k) == FirstHole(ap, areas, rq, 0)
        decreases |nodes| - k
      {
        assert nodes[k] == next;
        assert HoleAt(ap, areas, rq, k) <==> next.start > start && next.start - start >= Padded(ap, rq.size);
        if next.start > start && next.start - start >= Padded(ap, rq.size) {
          break;
        }
        StartBehind(ap, areas, rq, k);
        cur := next;
        next := next.next;
        k := k + 1;
        if rq.address == 0 {
          start := Wrap(AlignUp(Wrap(cur.end + 1), align) + offset);
        }
      }
    }

    /**
      Takes `size` bytes and guard pages out of the aperture, at `address` unless that is 0.
      Returns 0 and changes nothing when there is no place, or no memory for a new list element.
     */
    method AllocateAligned(address: U64, size: U64, requested: U64, memory: bool) returns (r: U64)
      requires Valid() && PowersOfTwo(ap, Request(address, size, requested))
      modifies this`vmRanges, this`nodes, this`areas, nodes
      ensures Valid() && forall n <- nodes :: n in old(nodes) || fresh(n)
      ensures var rq := Request(address, size, requested);
        match Place(ap, old(areas), rq)
        case None => r == 0 && areas == old(areas)
        case Some((i, s)) =>
          if memory || Joins(old(areas), i, s) then r == s && areas == Placed(old(areas), i, s, Padded(ap, size))
          else r == 0 && areas == old(areas)
    {
      var align := Boost(if requested < ap.align then ap.align else requested, size);
      var offset := if requested <= ap.pageSize then align - size % align else 0;
      r := AllocateAt(Request(address, size, requested), align, offset, memory);
    }

    /** There is no place behind the last area, or not at the fixed address. */
    method Refuses(rq: Request, align: U64, cur: VmArea?, next: VmArea?, start: U64) returns (refused: bool)
      requires Valid() && PowersOfTwo(ap, rq) && align == Alignment(ap, rq)
      requires var k := FirstHole(ap, areas, rq, 0);
        && start == StartAt(ap, areas, rq, k)
        && cur == (if k > 0 then nodes[k - 1] else null) && next == (if k < |nodes| then nodes[k] else null)
      ensures Valid()
      ensures Place(ap, areas, rq) == if refused then None else Some((FirstHole(ap, areas, rq, 0), start))
    {
      PlaceIs(ap, areas, rq);
      refused := Denied(ap, rq, align, if cur == null then None else Some(cur.end), next == null, start);
    }

    /** The same, with the alignment and the offset that the search goes by. */
    method AllocateAt(rq: Request, align: U64, offset: int, memory: bool) returns (r: U64)
      requires Valid() && PowersOfTwo(ap, rq) && align == Alignment(ap, rq) && offset == Offset(ap, rq)
      modifies this`vmRanges, this`nodes, this`areas, nodes
      ensures Valid() && forall n <- nodes :: n in old(nodes) || fresh(n)
      ensures match Place(ap, old(areas), rq)
        case None => r == 0 && areas == old(areas)
        case Some((i, s)) =>
          if memory || Joins(old(areas), i, s) then r == s && areas == Placed(old(areas), i, s, Padded(ap, rq.size))
          else r == 0 && areas == old(areas)
    {
      var cur, next, start := Search(rq, align, offset);
      var refused := Refuses(rq, align, cur, next, start);
      if refused {
        return 0;
      }
      r := Occupy(cur, next, start, Padded(ap, rq.size), memory, FirstHole(ap, areas, rq, 0));
    }

    /** Marks a block between two neighbours as occupied. */
    method Occupy(cur: VmArea?, next: VmArea?, start: U64, len: U64, memory: bool, ghost k: nat) returns (r: U64)
      requires Valid() && k <= |nodes|
      requires cur == (if k > 0 then nodes[k - 1] else null) && next == (if k < |nodes| then nodes[k] else null)
      modifies this`vmRanges, this`nodes, this`areas, nodes
      ensures Valid() && forall n <- nodes :: n in old(nodes) || fresh(n)
      ensures if memory || Joins(old(areas), k, start)
        then r == start && areas == Placed(old(areas), k, start, len) else r == 0 && areas == old(areas)
    {
      var last := Wrap(start as int + len - 1);
      if cur != null && Wrap(cur.end + 1) == start {
        Resize(cur, cur.start, last, k - 1);
      } else {
        if !memory {
          return 0;
        }
        var newArea := new VmArea(start, last);
        InsertArea(cur, newArea, next, k);
      }
      return start;
    }
  }

  /** Too little room behind the last area, or a fixed address too close to the area before it. */
  predicate Denied(ap: Aperture, rq: Request, align: int, end: Option<U64>, last: bool, start: U64)
    requires align > 0
  {
    || (last && Wrap(ap.limit - start + 1) < Padded(ap, rq.size))
    || (end.Some? && rq.address != 0 && rq.address < AlignUp(Wrap(end.value + 1), align))
  }

  lemma {:induction false} PlaceIs(ap: Aperture, areas: seq<Area>, rq: Request)
    requires Alignable(ap, rq)
    ensures var k := FirstHole(ap, areas, rq, 0);
      var end, s := if k > 0 then Some(areas[k - 1].end) else None, StartAt(ap, areas, rq, k);
      Place(ap, areas, rq) == if Denied(ap, rq, Alignment(ap, rq), end, k == |areas|, s) then None else Some((k, s))
  {
  }

  lemma {:induction false} StartBehind(ap: Aperture, areas: seq<Area>, rq: Request, k: nat)
    requires Alignable(ap, rq) && k < |areas|
    ensures StartAt(ap, areas, rq, k + 1)
         == if rq.address != 0 then rq.address
            else Wrap(AlignUp(Wrap(areas[k].end + 1), Alignment(ap, rq)) + Offset(ap, rq))
  {
  }

  lemma {:induction false} SplitSeq<T>(v: seq<T>, k: nat, x: T, y: T)
    requires k < |v|
    ensures var w := v[k := x]; w[..k + 1] + [y] + w[k + 1..] == v[..k] + [x, y] + v[k + 1..]
  {
  }

  lemma {:induction false} UpdateSeq<T>(v: seq<T>, k: nat, x: T)
    requires k < |v|
    ensures v[..k] + [] + v[k + 1..] == v[..k] + v[k + 1..]
    ensures v[..k] + [x] + v[k + 1..] == v[k := x]
    ensures v[k := v[k]] == v
  {
  }

  lemma {:induction false} With<T>(s: seq<T>, k: nat, x: T)
    requires k <= |s|
    ensures var r := s[..k] + [x] + s[k..];
      |r| == |s| + 1 && forall i | 0 <= i < |r| :: r[i] == if i < k then s[i] else if i == k then x else s[i - 1]
  {
  }

  lemma {:induction false} Without<T>(s: seq<T>, k: nat)
    requires k < |s|
    ensures var r := s[..k] + s[k + 1..];
      |r| == |s| - 1 && forall i | 0 <= i < |r| :: r[i] == if i < k then s[i] else s[i + 1]
  {
  }
}
