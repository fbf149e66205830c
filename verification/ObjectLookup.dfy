/**
  Finding memory objects in an aperture's trees. A node stands for the object that embeds it: its
  key is the object's GPU address and size in one tree, its user pointer and size in the other.
 */
module ObjectLookup {
  import opened Machine
  import opened Align
  import opened RbShape
  import opened RbHeap
  import opened RbSearch

  /** No two objects of the tree have the same address and size. */
  ghost predicate DistinctKeys(s: seq<Node>) {
    forall i, j | 0 <= i < j < |s| :: s[i].key != s[j].key
  }

  /** Only empty objects may have the same address and size, as user pointers do. */
  ghost predicate OnlyEmptyRepeat(s: seq<Node>) {
    forall i, j | 0 <= i < j < |s| && s[i].key == s[j].key :: s[i].key.size == 0
  }

  // ---- By start address ----

  /** The only object at `address`, of the given size unless that is 0. */
  ghost predicate IsObjectAt(s: seq<Node>, address: U64, size: U64, r: Node?) {
    if size != 0 then
      if r == null then forall n <- s :: n.key != Key(address, size)
      else r in s && r.key == Key(address, size)
    else
      if r == null then !exists n <- s :: n.key.addr == address && forall m <- s :: m.key.addr == address ==> m == n
      else r in s && r.key.addr == address && forall m <- s :: m.key.addr == address ==> m == r
  }

  /** Any of several objects with equal keys, when they are all that is at `address` and the size is left open. */
  ghost predicate IsKeyAt(s: seq<Node>, address: U64, size: U64, r: Node?) {
    if size == 0 && r != null then
      r in s && r.key.addr == address && forall m <- s :: m.key.addr == address ==> m.key == r.key
    else IsObjectAt(s, address, size, r)
  }

  /** The lookup as a function of the tree's shape. */
  ghost function StartLookup(t: Tree, address: U64, size: U64): Node? {
    var n := Nearest(t, Key(address, size), LKP_ALL, RIGHT, null);
    if n == null || n.key.addr != address then null
    else if size != 0 then if size == n.key.size then n else null
    else if Nearest(t, Key(address, MAX_U64), LKP_ALL, LEFT, null) != n then null
    else n
  }

  /** Such an answer is the only object at its address if and only if no other has its key. */
  lemma {:induction false} KeyAtExactly(s: seq<Node>, address: U64, size: U64, r: Node?)
    requires IsKeyAt(s, address, size, r)
    ensures IsObjectAt(s, address, size, r) <==> (size == 0 && r != null ==> forall m <- s :: m.key == r.key ==> m == r)
  {
    if size == 0 && r != null && !IsObjectAt(s, address, size, r) {
      var m :| m in s && m.key.addr == address && m != r;
      assert m.key == r.key;
    }
  }

  method FindByStart(tr: RbTree, address: U64, size: U64) returns (r: Node?)
    requires tr.Valid()
    ensures tr.Valid() && r == StartLookup(tr.shape, address, size)
    ensures IsKeyAt(InOrder(tr.shape), address, size, r)
  {
    var n := LookupNearest(tr, Key(address, size), LKP_ALL, RIGHT);
    if n == null {
      return null;
    }
    if n.key.addr != address {
      return null;
    }
    if size != 0 {
      return if size == n.key.size then n else null;
    }
    var rn := LookupNearest(tr, Key(address, 0xffff_ffff_ffff_ffff), LKP_ALL, LEFT);
    if rn != n {
      return null;
    }
    return n;
  }

  /** Of two empty user pointers at one address, the one nearer to the root is taken for the only one. */
  lemma {:induction false} SameKeyTaken(a: Node, b: Node)
    requires a != b && a.key == b.key == Key(0x1008, 0)
    ensures var t := Fork(Fork(Leaf, a, true, Leaf), b, false, Leaf);
      && RedBlack(t) && Sorted(InOrder(t)) && OnlyEmptyRepeat(InOrder(t))
      && StartLookup(t, 0x1008, 0) == b && !IsObjectAt(InOrder(t), 0x1008, 0, b)
  {
    var l := Fork(Leaf, a, true, Leaf);
    var t := Fork(l, b, false, Leaf);
    assert InOrder(Leaf) == [];
    assert InOrder(l) == InOrder(Leaf) + [a] + InOrder(Leaf) == [a];
    assert InOrder(t) == InOrder(l) + [b] + InOrder(Leaf) == [a, b];
    assert Nearest(t, Key(0x1008, MAX_U64), LKP_ALL, LEFT, null)
      == Nearest(Leaf, Key(0x1008, MAX_U64), LKP_ALL, LEFT, b);
    assert a in InOrder(t);
  }

  // ---- By an address inside ----

  /** The address lies in the object, by the source's own 64-bit comparison. */
  predicate Contains(k: Key, address: U64) {
    address >= k.addr && address < Wrap(k.addr + k.size)
  }

  /** The position of the first key at or above `key`. */
  ghost function LowerBound(s: seq<Node>, key: Key): (i: nat)
    ensures i <= |s| && (i < |s| ==> KeyCompare(LKP_ALL, key, s[i].key) <= 0)
    ensures forall j | 0 <= j < i :: KeyCompare(LKP_ALL, key, s[j].key) > 0
  {
    if s == [] || KeyCompare(LKP_ALL, key, s[0].key) <= 0 then 0 else 1 + LowerBound(s[1..], key)
  }

  /**
    Of the objects from position `hi` down to `lo`, or to the first if `lo` is above `hi`, the first
    that contains the address.
   */
  ghost function ScanDown(s: seq<Node>, hi: nat, lo: nat, address: U64): Node?
    requires hi < |s|
  {
    if Contains(s[hi].key, address) then s[hi]
    else if hi == lo || hi == 0 then null
    else ScanDown(s, hi - 1, lo, address)
  }

  /** The position where the search for an address starts; -1 when there are no objects. */
  ghost function HighEnd(s: seq<Node>, address: U64): (hi: int)
    ensures -1 <= hi < |s| && (s != [] ==> hi >= 0)
  {
    var i := LowerBound(s, Key(address, 0));
    if i < |s| then i else |s| - 1
  }

  /** The position where it may stop: the first object, or the last that starts at or before the address. */
  ghost function LowEnd(s: seq<Node>, address: U64, userptr: bool): (lo: int)
    ensures -1 <= lo < |s|
  {
    var key := Key(address, MAX_U64);
    var j := LowerBound(s, key);
    if userptr then if s == [] then -1 else 0
    else if j < |s| && s[j].key == key then j else j - 1
  }

  /** What the search for an address amounts to on the sorted sequence of objects. */
  ghost function RangeLookup(s: seq<Node>, address: U64, userptr: bool): Node? {
    if s == [] || LowEnd(s, address, userptr) < 0 then null
    else ScanDown(s, HighEnd(s, address), LowEnd(s, address, userptr), address)
  }

  /** A position that the search for the starting point may yield: of several empty objects at the address, any. */
  ghost predicate StartsAt(s: seq<Node>, address: U64, k: int) {
    var hi := HighEnd(s, address);
    hi <= k < |s| && (hi < k ==> forall j | hi <= j <= k :: s[j].key == Key(address, 0))
  }

  lemma {:induction false} EqualRun(s: seq<Node>, address: U64, k: nat)
    requires Sorted(s) && k < |s| && s[k].key == Key(address, 0)
    ensures StartsAt(s, address, k)
  {
    var i := LowerBound(s, Key(address, 0));
    assert i <= k;
    forall j | i <= j <= k
      ensures s[j].key == Key(address, 0)
    {
      assert i < j ==> KeyCompare(LKP_ALL, s[i].key, s[j].key) <= 0;
      assert j < k ==> KeyCompare(LKP_ALL, s[j].key, s[k].key) <= 0;
    }
  }

  lemma {:induction false} NearestRightIs(s: seq<Node>, address: U64, n: Node) returns (k: nat)
    requires Sorted(s) && n in s && KeyCompare(LKP_ALL, Key(address, 0), n.key) <= 0
    requires FirstAbove(s, Key(address, 0), LKP_ALL, n)
    ensures StartsAt(s, address, k) && s[k] == n
  {
    var key := Key(address, 0);
    if n.key == key {
      k :| k < |s| && s[k] == n;
      EqualRun(s, address, k);
    } else {
      k :| k < |s| && s[k] == n && forall j | 0 <= j < k :: KeyCompare(LKP_ALL, key, s[j].key) > 0;
      assert k == LowerBound(s, key);
    }
  }

  lemma {:induction false} AtOrBelow(s: seq<Node>, address: U64, k: nat)
    requires Sorted(s) && DistinctKeys(s) && k < |s|
    ensures KeyCompare(LKP_ALL, Key(address, MAX_U64), s[k].key) >= 0 <==> k <= LowEnd(s, address, false)
  {
    var j := LowerBound(s, Key(address, MAX_U64));
    assert j < k ==> KeyCompare(LKP_ALL, s[j].key, s[k].key) <= 0 && s[j].key != s[k].key;
  }

  lemma {:induction false} NearestLeftIs(s: seq<Node>, address: U64, n: Node?)
    requires Sorted(s) && DistinctKeys(s) && IsNearest(s, Key(address, MAX_U64), LKP_ALL, LEFT, n)
    ensures var lo := LowEnd(s, address, false); n == if lo < 0 then null else s[lo]
  {
    var lo := LowEnd(s, address, false);
    if lo >= 0 {
      AtOrBelow(s, address, lo);
      assert s[lo] in s && n != null;
    }
    if n != null {
      var k :| 0 <= k < |s| && s[k] == n;
      AtOrBelow(s, address, k);
    }
  }

  method FindHighEnd(tr: RbTree, address: U64) returns (rn: Node?, ghost k: int)
    requires tr.Linked() && Sorted(InOrder(tr.shape))
    ensures tr.Linked()
    ensures var s := InOrder(tr.shape); StartsAt(s, address, k) && rn == if k < 0 then null else s[k]
  {
    ghost var s := InOrder(tr.shape);
    rn := LookupNearest(tr, Key(address, 0), LKP_ALL, RIGHT);
    if rn == null {
      k := |s| - 1;
      rn := MinMax(tr, RIGHT);
    } else {
      k := NearestRightIs(s, address, rn);
    }
  }

  method FindLowEnd(tr: RbTree, address: U64, userptr: bool) returns (ln: Node?)
    requires tr.Linked() && Sorted(InOrder(tr.shape)) && (userptr || DistinctKeys(InOrder(tr.shape)))
    ensures tr.Linked()
    ensures var s := InOrder(tr.shape); var lo := LowEnd(s, address, userptr); ln == if lo < 0 then null else s[lo]
  {
    if userptr {
      ln := MinMax(tr, LEFT);
    } else {
      ln := LookupNearest(tr, Key(address, MAX_U64), LKP_ALL, LEFT);
      NearestLeftIs(InOrder(tr.shape), address, ln);
    }
  }

  /** Empty objects at the address do not matter to where the scan starts. */
  lemma {:induction false} ScanFromEmpty(s: seq<Node>, address: U64, k: nat)
    requires s != [] && StartsAt(s, address, k)
    ensures ScanDown(s, k, 0, address) == ScanDown(s, HighEnd(s, address), 0, address)
  {
    if HighEnd(s, address) < k {
      assert s[k].key == Key(address, 0);
      ScanFromEmpty(s, address, k - 1);
    }
  }

  method FindByRange(tr: RbTree, address: U64, userptr: bool) returns (cur: Node?)
    requires tr.Linked() && Sorted(InOrder(tr.shape)) && (userptr || DistinctKeys(InOrder(tr.shape)))
    ensures tr.Linked() && cur == RangeLookup(InOrder(tr.shape), address, userptr)
  {
    ghost var s := InOrder(tr.shape);
    var rn, k := FindHighEnd(tr, address);
    var ln := FindLowEnd(tr, address, userptr);
    if ln == null {
      return null;
    }
    if userptr {
      ScanFromEmpty(s, address, k);
    } else {
      assert k == HighEnd(s, address);
    }
    cur := Walk(tr, rn, ln, address, k, LowEnd(s, address, userptr));
  }

  lemma {:induction false} SameIndex(t: Tree, i: nat, j: nat)
    requires Distinct(t) && i < |InOrder(t)| && j < |InOrder(t)|
    ensures InOrder(t)[i] in Nodes(t) && (InOrder(t)[i] == InOrder(t)[j] <==> i == j)
  {
    InOrderNodes(t);
    InOrderDistinct(t);
  }

  lemma {:induction false} PrevAt(s: seq<Node>, node: Node, r: Node?, k: nat)
    requires IsPrev(s, node, r) && k < |s| && s[k] == node
    ensures r == if 0 < k then s[k - 1] else null
  {
  }

  /** Walks down from `from`, no further than to `last` if that comes up. */
  method Walk(tr: RbTree, from: Node, last: Node, address: U64, ghost hi: nat, ghost lo: nat) returns (cur: Node?)
    requires tr.Linked() && hi < |InOrder(tr.shape)| && lo < |InOrder(tr.shape)|
    requires InOrder(tr.shape)[hi] == from && InOrder(tr.shape)[lo] == last
    ensures tr.Linked() && cur == ScanDown(InOrder(tr.shape), hi, lo, address)
  {
    ghost var shape, s := tr.shape, InOrder(tr.shape);
    ghost var i: nat := hi;
    var rn := from;
    while true
      invariant tr.Linked() && tr.shape == shape && i < |s| && s[i] == rn
      invariant ScanDown(s, i, lo, address) == ScanDown(s, hi, lo, address)
      decreases i
    {
      if address >= rn.key.addr && address < Wrap(rn.key.addr + rn.key.size) {
        return rn;
      }
      SameIndex(shape, i, lo);
      if last == rn {
        return null;
      }
      var prev := Prev(tr, rn);
      PrevAt(s, rn, prev, i);
      if prev == null {
        return null;
      }
      rn, i := prev, i - 1;
    }
  }

  // ---- What the search finds ----

  /** Objects start at different addresses and end before the next one starts; they may be empty. */
  ghost predicate DisjointObjects(s: seq<Node>) {
    forall i, j | 0 <= i < j < |s| ::
      s[i].key.addr < s[j].key.addr && s[i].key.addr + s[i].key.size <= s[j].key.addr
  }

  lemma {:induction false} ScanDownFinds(s: seq<Node>, hi: nat, lo: nat, address: U64)
    requires hi < |s|
    ensures var r := ScanDown(s, hi, lo, address);
      if r != null then exists k | 0 <= k <= hi :: s[k] == r && Contains(s[k].key, address)
      else forall k | (if lo <= hi then lo else 0) <= k <= hi :: !Contains(s[k].key, address)
  {
    if !Contains(s[hi].key, address) && hi != lo && hi != 0 {
      ScanDownFinds(s, hi - 1, lo, address);
    }
  }

  /**
    An empty object at the address stands in front of another one that starts there and contains
    it, and none that starts before reaches the address.
   */
  ghost predicate Hidden(s: seq<Node>, address: U64) {
    && (exists n <- s :: n.key == Key(address, 0))
    && (exists n <- s :: n.key.addr == address && Contains(n.key, address))
    && (forall n <- s :: n.key.addr < address ==> !Contains(n.key, address))
  }

  /** What is behind the starting point of the scan contains the address only if it starts there. */
  lemma {:induction false} BehindStart(s: seq<Node>, address: U64, k: nat)
    requires Sorted(s) && k < |s| && HighEnd(s, address) < k
    requires Contains(s[k].key, address)
    ensures var hi := HighEnd(s, address);
      s[k].key.addr == address == s[hi].key.addr && (s[hi].key.size == 0 || Contains(s[hi].key, address))
    ensures forall j | 0 <= j < HighEnd(s, address) :: s[j].key.addr < address
  {
    var i := LowerBound(s, Key(address, 0));
    assert KeyCompare(LKP_ALL, s[i].key, s[k].key) <= 0;
    assert s[i] in s && s[k] in s;
  }

  /**
    Among possibly overlapping user pointers, the lookup misses an object that contains the
    address if and only if an empty user pointer hides it.
   */
  lemma {:induction false} UserRangeLookupExactly(s: seq<Node>, address: U64)
    requires Sorted(s)
    ensures var r := RangeLookup(s, address, true); r != null ==> r in s && Contains(r.key, address)
    ensures Hidden(s, address) <==>
      RangeLookup(s, address, true) == null && exists n <- s :: Contains(n.key, address)
  {
    if s != [] {
      ScanDownFinds(s, HighEnd(s, address), 0, address);
      if RangeLookup(s, address, true) == null && (exists n <- s :: Contains(n.key, address)) {
        MissedIsHidden(s, address);
      }
      if Hidden(s, address) {
        HiddenIsMissed(s, address);
      }
    }
  }

  lemma {:induction false} EarlierStart(s: seq<Node>, j: nat, k: nat)
    requires Sorted(s) && j < |s| && k < |s| && s[j].key.addr < s[k].key.addr
    ensures j < k
  {
  }

  lemma {:induction false} MissedIsHidden(s: seq<Node>, address: U64)
    requires Sorted(s) && s != []
    requires RangeLookup(s, address, true) == null && exists n <- s :: Contains(n.key, address)
    ensures Hidden(s, address)
  {
    var hi := HighEnd(s, address);
    ScanDownFinds(s, hi, 0, address);
    var k :| 0 <= k < |s| && Contains(s[k].key, address);
    BehindStart(s, address, k);
    assert s[hi] in s && s[k] in s && s[hi].key == Key(address, 0);
    forall n <- s | n.key.addr < address
      ensures !Contains(n.key, address)
    {
      var j :| 0 <= j < |s| && s[j] == n;
      EarlierStart(s, j, hi);
    }
  }

  lemma {:induction false} LowerBoundEmpty(s: seq<Node>, address: U64, n: Node)
    requires Sorted(s) && n in s && n.key == Key(address, 0)
    ensures HighEnd(s, address) >= 0 && s[HighEnd(s, address)].key == Key(address, 0)
  {
    var k :| 0 <= k < |s| && s[k] == n;
    var i := LowerBound(s, Key(address, 0));
    assert i < k ==> KeyCompare(LKP_ALL, s[i].key, s[k].key) <= 0;
  }

  lemma {:induction false} UpToEmptyMisses(s: seq<Node>, address: U64, j: nat)
    requires j <= HighEnd(s, address) && s[HighEnd(s, address)].key == Key(address, 0)
    requires forall n <- s :: n.key.addr < address ==> !Contains(n.key, address)
    ensures !Contains(s[j].key, address)
  {
    if j < HighEnd(s, address) {
      assert KeyCompare(LKP_ALL, Key(address, 0), s[j].key) > 0;
      assert s[j] in s;
    }
  }

  lemma {:induction false} HiddenIsMissed(s: seq<Node>, address: U64)
    requires Sorted(s) && s != [] && Hidden(s, address)
    ensures RangeLookup(s, address, true) == null && exists n <- s :: Contains(n.key, address)
  {
    var e := HighEnd(s, address);
    var n :| n in s && n.key == Key(address, 0);
    LowerBoundEmpty(s, address, n);
    forall j | 0 <= j <= e
      ensures !Contains(s[j].key, address)
    {
      UpToEmptyMisses(s, address, j);
    }
    ScanDownFinds(s, e, 0, address);
  }

  /** Without empty user pointers, a containing one is found if and only if there is one. */
  lemma {:induction false} UserRangeLookupFinds(s: seq<Node>, address: U64)
    requires Sorted(s) && forall n <- s :: n.key.size != 0
    ensures var r := RangeLookup(s, address, true);
      if r == null then forall n <- s :: !Contains(n.key, address) else r in s && Contains(r.key, address)
  {
    UserRangeLookupExactly(s, address);
  }

  lemma {:induction false} LowEndIs(s: seq<Node>, address: U64, k: nat)
    requires Sorted(s) && DistinctKeys(s) && k < |s|
    ensures k <= LowEnd(s, address, false) <==> s[k].key.addr <= address
  {
    var j := LowerBound(s, Key(address, MAX_U64));
    assert j < |s| ==> KeyCompare(LKP_ALL, s[if k < j then k else j].key, s[if k < j then j else k].key) <= 0;
  }

  /** Among disjoint objects, the only containing one is found if there is one. */
  lemma {:induction false} RangeLookupFinds(s: seq<Node>, address: U64)
    requires Sorted(s) && DistinctKeys(s) && DisjointObjects(s)
    ensures var r := RangeLookup(s, address, false);
      if r == null then forall n <- s :: !Contains(n.key, address)
      else r in s && Contains(r.key, address) && forall n <- s :: Contains(n.key, address) ==> n == r
  {
    forall i, j | 0 <= i < |s| && 0 <= j < |s| && Contains(s[i].key, address) && Contains(s[j].key, address)
      ensures i == j
    {
      assert s[i] in s && s[j] in s;
    }
    var lo := LowEnd(s, address, false);
    if s != [] && lo >= 0 {
      ScanDownFinds(s, HighEnd(s, address), lo, address);
    }
    forall k | 0 <= k < |s| && Contains(s[k].key, address)
      ensures RangeLookup(s, address, false) != null
    {
      ContainingIsLowEnd(s, address, k);
    }
  }

  /** An object that contains the address is the last one that starts at or before it. */
  lemma {:induction false} ContainingIsLowEnd(s: seq<Node>, address: U64, k: nat)
    requires Sorted(s) && DistinctKeys(s) && DisjointObjects(s)
    requires k < |s| && Contains(s[k].key, address)
    ensures k == LowEnd(s, address, false) <= HighEnd(s, address)
  {
    var lo := LowEnd(s, address, false);
    LowEndIs(s, address, k);
    LowEndIs(s, address, lo);
    assert s[k] in s && s[lo] in s;
    var i := LowerBound(s, Key(address, 0));
  }

  /** The answer to an exact lookup is unique. */
  lemma {:induction false} ObjectAtUnique(s: seq<Node>, address: U64, size: U64, r: Node?, r': Node?)
    requires OnlyEmptyRepeat(s) && IsObjectAt(s, address, size, r) && IsObjectAt(s, address, size, r')
    ensures r == r'
  {
    if size != 0 && r != null && r' != null {
      var i :| 0 <= i < |s| && s[i] == r;
      var j :| 0 <= j < |s| && s[j] == r';
      assert s[i].key == s[j].key;
    }
  }

  /** An empty user pointer hides others at its address: only the empty one is looked at. */
  lemma {:induction false} EmptyObjectHides(a: Node, b: Node)
    requires a.key == Key(0x1008, 0) && b.key == Key(0x1008, 0x10)
    ensures Sorted([a, b]) && DistinctKeys([a, b]) && Contains(b.key, 0x1008)
    ensures RangeLookup([a, b], 0x1008, true) == null
  {
    var s := [a, b];
    assert LowerBound(s, Key(0x1008, 0)) == 0;
    assert HighEnd(s, 0x1008) == 0;
  }
}
