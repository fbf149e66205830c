/**
  The device-id arrays of a memory object: the devices it is mapped on and registered for, each
  with a cached translation to node ids. The kernel is an oracle that says whether a call
  succeeds and for how many devices.
 */
module MappedIds {
  import opened Machine

  // ---- On values ----

  /** The ids that are not in `gone`, in order. */
  function Without(ids: seq<U32>, gone: seq<U32>): (r: seq<U32>)
    ensures |r| <= |ids|
  {
    if ids == [] then []
    else
      var rest, x := Without(ids[..|ids| - 1], gone), ids[|ids| - 1];
      if x in gone then rest else rest + [x]
  }

  lemma {:induction false} WithoutHas(ids: seq<U32>, gone: seq<U32>, x: U32)
    ensures x in Without(ids, gone) <==> x in ids && x !in gone
  {
    if ids != [] {
      var rest := ids[..|ids| - 1];
      WithoutHas(rest, gone, x);
      assert x in ids <==> x in rest || x == ids[|ids| - 1];
    }
  }

  lemma {:induction false} WithoutNext(ids: seq<U32>, gone: seq<U32>, i: nat)
    requires i < |ids|
    ensures Without(ids[..i + 1], gone) == Without(ids[..i], gone) + if ids[i] in gone then [] else [ids[i]]
  {
    assert ids[..i + 1][..i] == ids[..i];
  }

  lemma {:induction false} WithoutNone(ids: seq<U32>, gone: seq<U32>)
    requires forall x <- ids :: x !in gone
    ensures Without(ids, gone) == ids
  {
    if ids != [] {
      var rest := ids[..|ids| - 1];
      assert forall x <- rest :: x in ids;
      WithoutNone(rest, gone);
    }
  }

  /** What the kernel does with a list of devices: it succeeds or not, and handles some of the first of them. */
  datatype Kernel = Kernel(ok: bool, done: nat) {
    function Handled(n: nat): (k: nat)
      ensures k <= n
    {
      if done < n then done else n
    }

    predicate Honours(n: nat) {
      ok && done >= n
    }
  }

  /** What an unmap call leaves of the mapped ids; there is none if there is nothing to unmap. */
  function AfterUnmap(ids: seq<U32>, gone: seq<U32>, kernel: Kernel): seq<U32> {
    Without(ids, gone[..kernel.Handled(|gone|)])
  }

  /** What is left of them when the kernel maps to `more`, before those are added. */
  function BeforeMap(ids: seq<U32>, more: seq<U32>, kernel: Kernel): seq<U32> {
    Without(ids, more[..kernel.Handled(|more|)])
  }

  /** What a map call makes of them. */
  function AfterMap(ids: seq<U32>, more: seq<U32>, kernel: Kernel): seq<U32> {
    if kernel.ok then BeforeMap(ids, more, kernel) + more[..kernel.Handled(|more|)] else ids
  }

  /** What mapping to exactly `nodes` keeps: it unmaps the others first. */
  function Kept(ids: seq<U32>, nodes: seq<U32>, unmap: Kernel): seq<U32> {
    AfterUnmap(ids, Without(ids, nodes), unmap)
  }

  /** The unmapping worked, so the missing ones are up to be mapped. */
  predicate Goes(ids: seq<U32>, nodes: seq<U32>, unmap: Kernel) {
    Without(ids, nodes) == [] || unmap.ok
  }

  /** The result of mapping to exactly `nodes`: the others are unmapped, then the missing ones are mapped. */
  function Remapped(ids: seq<U32>, nodes: seq<U32>, unmap: Kernel, map_: Kernel): (bool, seq<U32>) {
    var kept := Kept(ids, nodes, unmap);
    var missing := Without(nodes, kept);
    if !Goes(ids, nodes, unmap) then (false, kept)
    else (missing == [] || map_.ok, AfterMap(kept, missing, map_))
  }

  /** If the kernel honours each device that it is asked to unmap or map, exactly the nodes asked for end up mapped. */
  lemma {:induction false} RemappedExactly(ids: seq<U32>, nodes: seq<U32>, unmap: Kernel, map_: Kernel, x: U32)
    requires var others := Without(ids, nodes); others == [] || unmap.Honours(|others|)
    requires var missing := Without(nodes, Kept(ids, nodes, unmap)); missing == [] || map_.Honours(|missing|)
    ensures Remapped(ids, nodes, unmap, map_).0
    ensures x in Remapped(ids, nodes, unmap, map_).1 <==> x in nodes
  {
    var others := Without(ids, nodes);
    assert others[..unmap.Handled(|others|)] == others;
    var kept := Without(ids, others);
    var missing := Without(nodes, kept);
    assert missing[..map_.Handled(|missing|)] == missing;
    WithoutHas(ids, nodes, x);
    WithoutHas(ids, others, x);
    WithoutHas(nodes, kept, x);
    MissingApart(nodes, kept, map_.Handled(|missing|));
  }

  /** For every kernel result: nothing is mapped that was neither mapped nor asked for, and what was both stays. */
  lemma {:induction false} RemappedBounds(ids: seq<U32>, nodes: seq<U32>, unmap: Kernel, map_: Kernel, x: U32)
    ensures var r := Remapped(ids, nodes, unmap, map_).1;
      (x in r ==> x in ids || x in nodes) && (x in ids && x in nodes ==> x in r)
  {
    var others := Without(ids, nodes);
    var gone := others[..unmap.Handled(|others|)];
    var kept := Without(ids, gone);
    var missing := Without(nodes, kept);
    WithoutHas(ids, nodes, x);
    WithoutHas(ids, gone, x);
    WithoutHas(nodes, kept, x);
    assert x in gone ==> x in others;
    assert x in missing[..map_.Handled(|missing|)] ==> x in missing;
    MissingApart(nodes, kept, map_.Handled(|missing|));
  }

  /** Ids that are missing from others do not occur there. */
  lemma {:induction false} MissingApart(nodes: seq<U32>, ids: seq<U32>, k: nat)
    requires k <= |Without(nodes, ids)|
    ensures Without(ids, Without(nodes, ids)[..k]) == ids
  {
    var first := Without(nodes, ids)[..k];
    forall x <- ids
      ensures x !in first
    {
      WithoutHas(nodes, ids, x);
      assert x in first ==> x in Without(nodes, ids);
    }
    WithoutNone(ids, first);
  }

  /** The node ids are those of the devices, wherever the topology knows the device. */
  predicate Translates(topology: map<U32, U32>, ids: seq<U32>, nodes: seq<U32>) {
    |nodes| == |ids| && forall i | 0 <= i < |ids| && ids[i] in topology :: nodes[i] == topology[ids[i]]
  }

  // ---- Arrays ----

  /** The ids in an array that may not have been allocated. */
  function Ids(a: array?<U32>, n: nat): seq<U32>
    requires Holds(a, n)
    reads a
  {
    if a == null then [] else a[..n]
  }

  predicate Holds(a: array?<U32>, n: nat) {
    if a == null then n == 0 else n <= a.Length
  }

  method InArray(id: U32, ids: array?<U32>, n: nat) returns (r: bool)
    requires Holds(ids, n)
    ensures r <==> id in Ids(ids, n)
  {
    for i := 0 to n
      invariant ids != null ==> id !in ids[..i]
    {
      if id == ids[i] {
        return true;
      }
    }
    return false;
  }

  /** Moves the ids that are not in `ids[..n]` to the front, in order. */
  method Compact(a: array<U32>, count: nat, ids: array<U32>, n: nat) returns (j: nat)
    requires count <= a.Length && n <= ids.Length && a != ids
    modifies a
    ensures j <= count && a[..j] == Without(old(a[..count]), ids[..n])
  {
    j := 0;
    for i := 0 to count
      invariant j <= i && a[i..] == old(a[i..])
      invariant a[..j] == Without(old(a[..count])[..i], ids[..n])
    {
      WithoutNext(old(a[..count]), ids[..n], i);
      assert a[i] == old(a[..count])[i];
      var gone := InArray(a[i], ids, n);
      if !gone {
        a[j] := a[i];
        j := j + 1;
      }
    }
    assert old(a[..count])[..count] == old(a[..count]);
  }

  /** A new array with the ids of `a` that are not in `ids`. */
  method Missing(a: array?<U32>, count: nat, ids: array?<U32>, n: nat) returns (out: array<U32>, j: nat)
    requires Holds(a, count) && Holds(ids, n)
    ensures fresh(out) && j <= out.Length && out[..j] == Without(Ids(a, count), Ids(ids, n))
  {
    out, j := new U32[count], 0;
    ghost var s := Ids(a, count);
    for i := 0 to count
      invariant j <= i && out[..j] == Without(s[..i], Ids(ids, n))
    {
      WithoutNext(s, Ids(ids, n), i);
      var there := InArray(a[i], ids, n);
      if !there {
        out[j] := a[i];
        j := j + 1;
      }
    }
    assert s[..count] == s;
  }

  /** The two arrays one after the other, as a reallocation and a copy leave them. */
  method Appended(a: array?<U32>, count: nat, ids: array<U32>, n: nat) returns (out: array<U32>)
    requires Holds(a, count) && n <= ids.Length
    ensures fresh(out) && out.Length == count + n && out[..] == Ids(a, count) + ids[..n]
  {
    out := new U32[count + n];
    for i := 0 to count
      invariant out[..i] == Ids(a, count)[..i]
    {
      out[i] := a[i];
    }
    for i := 0 to n
      invariant out[..count + i] == Ids(a, count) + ids[..i]
    {
      out[count + i] := ids[i];
    }
    assert out[..] == out[..count + n];
  }

  /** A new array of node ids; where the topology does not know the device, the entry is whatever was there. */
  method Translate(topology: map<U32, U32>, ids: array<U32>, n: nat) returns (out: array<U32>)
    requires n <= ids.Length
    ensures fresh(out) && Translates(topology, ids[..n], out[..])
  {
    out := new U32[n];
    for i := 0 to n
      invariant forall k | 0 <= k < i && ids[k] in topology :: out[k] == topology[ids[k]]
    {
      if ids[i] in topology {
        out[i] := topology[ids[i]];
      }
    }
  }

  datatype Status = Success | InvalidParameter | AlreadyRegistered | NotRegistered

  // ---- The object ----

  class VmObject {
    const topology: map<U32, U32>
    const userptr: bool
    var mapped: array?<U32>
    var mappedCount: nat
    var mappedNodes: array?<U32>
    var registered: array?<U32>
    var registeredCount: nat
    var registeredNodes: array?<U32>
    var mappingCount: U32

    ghost predicate Sized()
      reads this
    {
      && Holds(mapped, mappedCount) && Holds(registered, registeredCount)
      && (mapped != null ==> mapped != registered && mapped != mappedNodes && mapped != registeredNodes)
    }

    /** The arrays that may be written in place. */
    ghost function Own(): set<object>
      reads this
    {
      if mapped == null then {} else {mapped}
    }

    ghost function Mapped(): seq<U32>
      requires Sized()
      reads this, mapped
    {
      Ids(mapped, mappedCount)
    }

    ghost function Registered(): seq<U32>
      requires Holds(registered, registeredCount)
      reads this, registered
    {
      Ids(registered, registeredCount)
    }

    ghost predicate RegisteredCached()
      reads this, registered, registeredNodes
    {
      Sized() && (registeredNodes != null ==> Translates(topology, Registered(), registeredNodes[..]))
    }

    /** A cached array is the translation of the ids it was made for. */
    ghost predicate Valid()
      reads this, mapped, mappedNodes, registered, registeredNodes
    {
      RegisteredCached() && (mappedNodes != null ==> Translates(topology, Mapped(), mappedNodes[..]))
    }

    constructor (topology: map<U32, U32>, userptr: bool)
      ensures Valid() && Mapped() == [] && Registered() == [] && this.topology == topology && this.userptr == userptr
    {
      this.topology, this.userptr := topology, userptr;
      mapped, mappedCount, mappedNodes := null, 0, null;
      registered, registeredCount, registeredNodes := null, 0, null;
      mappingCount := 0;
    }

    /** Compacts the mapped ids in place; asked to remove its own array it forgets them all. */
    method RemoveMapped(ids: array<U32>, n: nat)
      requires RegisteredCached() && n <= ids.Length
      modifies `mapped, `mappedCount, Own()
      ensures RegisteredCached() && Registered() == old(Registered()) && (mapped == old(mapped) || mapped == null)
      ensures Mapped() == if old(mapped) == ids then [] else Without(old(Mapped()), old(ids[..n]))
    {
      var j := 0;
      if mapped != ids && mapped != null {
        j := Compact(mapped, mappedCount, ids, n);
      }
      mappedCount := j;
      if j == 0 {
        mapped := null;
      }
    }

    /** The object has forgotten its array, but not how many ids were in it. */
    ghost predicate Forgot(n: nat)
      reads this
    {
      mapped == null && mappedCount == n
    }

    method Append(ids: array<U32>, n: nat)
      requires RegisteredCached() && n <= ids.Length && ids != mapped
      modifies `mapped, `mappedCount
      ensures RegisteredCached() && Registered() == old(Registered())
      ensures fresh(mapped) && Mapped() == old(Mapped()) + ids[..n]
    {
      mapped := Appended(mapped, mappedCount, ids, n);
      mappedCount := mappedCount + n;
    }

    /** If there is no memory for the longer array, the object stays consistent if and only if the old one was empty. */
    method AddMapped(ids: array<U32>, n: nat, memory: bool)
      requires RegisteredCached() && n <= ids.Length && ids != mapped
      modifies `mapped, `mappedCount, Own()
      ensures Registered() == old(Registered())
      ensures RegisteredCached() <==> memory || Without(old(Mapped()), ids[..n]) == []
      ensures if memory then fresh(mapped) && Mapped() == Without(old(Mapped()), ids[..n]) + ids[..n]
              else Forgot(|Without(old(Mapped()), ids[..n])|)
    {
      RemoveMapped(ids, n);
      if memory {
        Append(ids, n);
      } else {
        assert mappedCount == |Mapped()|;
        mapped := null;
      }
    }

    /** The devices to map on: those asked for, else those registered, else the default ones. */
    method Choose(nodes: array?<U32>, n: nat, defaults: array<U32>) returns (ids: array<U32>, count: nat)
      requires Sized() && Holds(nodes, n) && defaults != mapped && (nodes != null ==> nodes != mapped)
      ensures Holds(ids, count) && ids != mapped
      ensures ids[..count] == if nodes != null then nodes[..n]
                              else if Registered() != [] then Registered() else defaults[..]
    {
      if nodes != null {
        return nodes, n;
      } else if registeredCount > 0 {
        return registered, registeredCount;
      } else {
        return defaults, defaults.Length;
      }
    }

    /** The kernel mapped the first of the devices. */
    method MapFirst(ids: array<U32>, count: nat, kernel: Kernel, memory: bool)
      requires Valid() && count <= ids.Length && ids != mapped && kernel.ok
      modifies this, Own()
      ensures registered == old(registered) && registeredCount == old(registeredCount)
        && Registered() == old(Registered())
      ensures Valid() <==> memory || BeforeMap(old(Mapped()), old(ids[..count]), kernel) == []
      ensures if memory then Sized() && Mapped() == AfterMap(old(Mapped()), old(ids[..count]), kernel)
              else Forgot(|BeforeMap(old(Mapped()), old(ids[..count]), kernel)|)
      ensures mappingCount == 1
    {
      var done := kernel.Handled(count);
      assert ids[..done] == ids[..count][..done];
      AddMapped(ids, done, memory);
      mappingCount := 1;
      mappedNodes := null;
    }

    method Map(nodes: array?<U32>, n: nat, defaults: array<U32>, kernel: Kernel, memory: bool) returns (ok: bool)
      requires Valid() && Holds(nodes, n) && defaults != mapped && (nodes != null ==> nodes != mapped)
      modifies this, Own()
      ensures registered == old(registered) && registeredCount == old(registeredCount)
        && Registered() == old(Registered())
      ensures
        var same := old(userptr && mappingCount > 0) || !kernel.ok;
        var ids := old(if nodes != null then nodes[..n] else if Registered() != [] then Registered() else defaults[..]);
        && (Valid() <==> same || memory || BeforeMap(old(Mapped()), ids, kernel) == [])
        && if same then Sized() && Mapped() == old(Mapped())
           else if memory then Sized() && Mapped() == AfterMap(old(Mapped()), ids, kernel)
           else Forgot(|BeforeMap(old(Mapped()), ids, kernel)|)
      ensures ok == (old(userptr && mappingCount > 0) || kernel.ok)
      ensures mappingCount == if old(userptr && mappingCount > 0) then (old(mappingCount) + 1) % TWO_32
                              else if kernel.ok then 1 else old(mappingCount)
    {
      if userptr && mappingCount > 0 {
        mappingCount := (mappingCount + 1) % TWO_32;
        return true;
      }
      var ids, count := Choose(nodes, n, defaults);
      if kernel.ok {
        MapFirst(ids, count, kernel, memory);
      }
      return kernel.ok;
    }

    /** With no list of devices the object is unmapped from wherever it is mapped. */
    method Unmap(nodes: array?<U32>, n: nat, kernel: Kernel) returns (ok: bool)
      requires Valid() && Holds(nodes, n) && (nodes != null ==> nodes != mapped)
      modifies this, Own()
      ensures Valid() && registered == old(registered) && Registered() == old(Registered())
      ensures mapped == old(mapped) || mapped == null
      ensures var counts, some := old(userptr && mappingCount > 1), n > 0;
        && ok == (counts || kernel.ok || (!some && old(Mapped()) == []))
        && Mapped() == if counts then old(Mapped())
                       else if some then Without(old(Mapped()), old(Ids(nodes, n))[..kernel.Handled(n)]) else []
      ensures mappingCount == if old(userptr && mappingCount > 1) then old(mappingCount) - 1
                              else if n > 0 || old(Mapped()) != [] then 0 else old(mappingCount)
    {
      if userptr && mappingCount > 1 {
        mappingCount := mappingCount - 1;
        return true;
      }
      if nodes != null && n > 0 {
        assert nodes[..kernel.Handled(n)] == nodes[..n][..kernel.Handled(n)];
        RemoveMapped(nodes, kernel.Handled(n));
      } else if mappedCount > 0 {
        RemoveMapped(mapped, kernel.Handled(mappedCount));
      } else {
        return true;
      }
      mappedNodes := null;
      mappingCount := 0;
      return kernel.ok;
    }

    /** Every node is one the object is registered for, or any GPU if it is registered for none. */
    ghost predicate Allowed(nodes: array<U32>, n: nat, all: array<U32>)
      requires Sized() && n <= nodes.Length
      reads this, nodes, registered, all
    {
      forall x <- nodes[..n] :: x in if registeredCount > 0 then Registered() else all[..]
    }

    method CheckAllowed(nodes: array<U32>, n: nat, all: array<U32>) returns (ok: bool)
      requires Sized() && n <= nodes.Length
      ensures ok == Allowed(nodes, n, all)
    {
      var ids, count := all, all.Length;
      if registeredCount > 0 && registered != null {
        ids, count := registered, registeredCount;
      }
      for i := 0 to n
        invariant forall x <- nodes[..i] :: x in ids[..count]
      {
        ok := InArray(nodes[i], ids, count);
        if !ok {
          assert nodes[i] in nodes[..n];
          return false;
        }
      }
      return true;
    }

    /** Unmaps from the nodes that are not asked for. */
    method UnmapOthers(nodes: array<U32>, n: nat, kernel: Kernel) returns (ok: bool)
      requires Valid() && !userptr && n <= nodes.Length && nodes != mapped
      modifies this, Own()
      ensures Valid() && registered == old(registered) && Registered() == old(Registered())
      ensures mapped == old(mapped) || mapped == null
      ensures var others := Without(old(Mapped()), old(nodes[..n]));
        ok == (others == [] || kernel.ok) && Mapped() == AfterUnmap(old(Mapped()), others, kernel)
    {
      ok := true;
      var others, count := Missing(mapped, mappedCount, nodes, n);
      if count > 0 {
        ok := Unmap(others, count, kernel);
      } else {
        WithoutNone(Mapped(), []);
      }
    }

    /** Maps to the nodes that are not mapped yet. */
    method MapMissing(nodes: array<U32>, n: nat, all: array<U32>, kernel: Kernel, memory: bool) returns (ok: bool)
      requires Valid() && !userptr && n <= nodes.Length && nodes != mapped && all != mapped
      modifies this, Own()
      ensures registered == old(registered) && registeredCount == old(registeredCount)
        && Registered() == old(Registered())
      ensures var ids, missing := old(Mapped()), Without(old(nodes[..n]), old(Mapped()));
        && ok == (missing == [] || kernel.ok)
        && (Valid() <==> missing == [] || !kernel.ok || memory || ids == [])
        && if missing == [] || !kernel.ok || memory then Sized() && Mapped() == AfterMap(ids, missing, kernel)
           else Forgot(|ids|)
    {
      ok := true;
      var missing, count := Missing(nodes, n, mapped, mappedCount);
      MissingApart(nodes[..n], Mapped(), kernel.Handled(count));
      if count > 0 {
        ok := Map(missing, count, all, kernel, memory);
      }
    }

    /**
      Maps the object to the given nodes and to no others; if it has a user pointer, to where it is
      registered for, whatever nodes are given.
     */
    method MapToNodes(
        nodes: array<U32>, n: nat, all: array<U32>, unmap: Kernel, map_: Kernel, memory: bool) returns (ok: bool)
      requires Valid() && n <= nodes.Length && nodes != mapped && all != mapped
      modifies this, Own()
      ensures registered == old(registered) && registeredCount == old(registeredCount)
        && Registered() == old(Registered())
      ensures n == 0 || (!userptr && !old(Allowed(nodes, n, all))) ==> !ok && Valid() && Mapped() == old(Mapped())
      ensures n > 0 && userptr ==>
        var same := old(mappingCount) > 0 || !map_.ok;
        var ids := if old(Registered()) != [] then old(Registered()) else old(all[..]);
        && ok == (old(mappingCount) > 0 || map_.ok)
        && (Valid() <==> same || memory || BeforeMap(old(Mapped()), ids, map_) == [])
        && if same then Sized() && Mapped() == old(Mapped())
           else if memory then Sized() && Mapped() == AfterMap(old(Mapped()), ids, map_)
           else Forgot(|BeforeMap(old(Mapped()), ids, map_)|)
      ensures n > 0 && !userptr && old(Allowed(nodes, n, all)) ==>
        var ids, asked := old(Mapped()), old(nodes[..n]);
        var kept := Kept(ids, asked, unmap);
        var maps := Goes(ids, asked, unmap) && Without(asked, kept) != [] && map_.ok;
        && ok == Remapped(ids, asked, unmap, map_).0
        && (Valid() <==> !maps || memory || kept == [])
        && if maps && !memory then Forgot(|kept|) else Sized() && Mapped() == Remapped(ids, asked, unmap, map_).1
    {
      if n == 0 {
        return false;
      }
      if userptr {
        ok := Map(null, 0, all, map_, memory);
        return;
      }
      ok := CheckAllowed(nodes, n, all);
      if !ok {
        return;
      }
      ok := UnmapOthers(nodes, n, unmap);
      if !ok {
        return;
      }
      ok := MapMissing(nodes, n, all, map_, memory);
    }

    // ---- Registration and queries ----

    /** Nodes can be set once, again only to the same ones. */
    method Register(ids: array?<U32>, n: nat) returns (status: Status)
      requires Valid() && (ids != null ==> n <= ids.Length && ids != mapped)
      modifies this
      ensures Valid() && mapped == old(mapped) && Mapped() == old(Mapped())
      ensures status.InvalidParameter? <==> n > 0 && ids == null
      ensures status.AlreadyRegistered? <==>
        Holds(ids, n) && old(Registered()) != [] && old(Registered()) != Ids(ids, n)
      ensures Registered() == if status.Success? && old(Registered()) == [] then Ids(ids, n) else old(Registered())
      ensures !status.NotRegistered?
    {
      if n > 0 && ids == null {
        return InvalidParameter;
      }
      if registeredCount > 0 {
        if n != registeredCount {
          return AlreadyRegistered;
        }
        return if registered[..registeredCount] == ids[..n] then Success else AlreadyRegistered;
      }
      if n > 0 {
        registered, registeredCount := ids, n;
        registeredNodes := null;
      }
      return Success;
    }

    method Deregister() returns (status: Status)
      requires Valid()
      modifies this
      ensures Valid() && mapped == old(mapped) && Mapped() == old(Mapped()) && Registered() == []
      ensures status == if old(Registered()) == [] then NotRegistered else Success
    {
      if registered == null || registeredCount == 0 {
        return NotRegistered;
      }
      registered, registeredCount := null, 0;
      registeredNodes := null;
      return Success;
    }

    /** The node ids that a query reports, made on demand. */
    method Query() returns (onNodes: array?<U32>, forNodes: array?<U32>)
      requires Valid()
      modifies this
      ensures Valid() && mapped == old(mapped) && Mapped() == old(Mapped())
      ensures registered == old(registered) && Registered() == old(Registered())
      ensures Mapped() != [] ==> onNodes != null && Translates(topology, Mapped(), onNodes[..])
      ensures Registered() != [] ==> forNodes != null && Translates(topology, Registered(), forNodes[..])
    {
      if registeredCount > 0 && registeredNodes == null {
        registeredNodes := Translate(topology, registered, registeredCount);
      }
      if mappedCount > 0 && mappedNodes == null {
        mappedNodes := Translate(topology, mapped, mappedCount);
      }
      return mappedNodes, registeredNodes;
    }
  }
}
