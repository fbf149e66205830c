/**
  Reserving the address range of the managed SVM apertures: a search with decreasing sizes over
  start addresses, whatever the operating system answers to each attempt, and the split of the
  range into a coherent and a default aperture.
 */
module SvmApertures {
  import opened Machine
  import opened Align
  import opened Areas
  import opened SvmSearch

  /** An answer is a range of that length in user space from the start of a page, anywhere but at address 0. */
  ghost predicate Sane(mmap: Mmap, pageSize: nat) {
    forall k, addr, len | mmap(k, addr, len).Some? :: Granted(mmap(k, addr, len).value, len, pageSize)
  }

  predicate Granted(a: U64, len: U64, pageSize: nat) {
    0 < a && a + len <= TOP_OF_USER_SPACE && Divides(pageSize, a)
  }

  datatype Range = Range(base: U64, limit: U64)

  predicate Between(lo: int, x: int, hi: int) {
    lo <= x <= hi
  }

  ghost function Addresses(lo: int, hi: int): iset<int> {
    iset x | Between(lo, x, hi)
  }

  /** Base and limit in whole huge pages. */
  function Aligned(base: U64, limit: U64): Range {
    Range(AlignUp(base, GPU_HUGE_PAGE_SIZE), Wrap(Masked(Wrap(limit + 1), GPU_HUGE_PAGE_SIZE) - 1))
  }

  /** The same, with the limit within reach of all GPUs. */
  function Bounds(base: U64, limit: U64): (r: Range)
    ensures r.limit <= SVM_RESERVATION_LIMIT
  {
    var r := Aligned(base, limit);
    if r.limit > SVM_RESERVATION_LIMIT then r.(limit := SVM_RESERVATION_LIMIT) else r
  }

  /** What lies between: whole huge pages, as many as there are, up to the limit within reach. */
  lemma {:induction false} BoundsAre(base: U64, limit: U64)
    requires base + GPU_HUGE_PAGE_SIZE <= TWO_64 && GPU_HUGE_PAGE_SIZE <= limit + 1 < TWO_64
    ensures var r := Aligned(base, limit);
      && Divides(GPU_HUGE_PAGE_SIZE, r.base) && base <= r.base < base + GPU_HUGE_PAGE_SIZE
      && Divides(GPU_HUGE_PAGE_SIZE, r.limit + 1) && r.limit <= limit < r.limit + GPU_HUGE_PAGE_SIZE
      && Bounds(base, limit).base == r.base
      && Bounds(base, limit).limit == if r.limit < SVM_RESERVATION_LIMIT then r.limit else SVM_RESERVATION_LIMIT
  {
    AlignUpIs(base, GPU_HUGE_PAGE_SIZE);
    MaskedIs(limit + 1, GPU_HUGE_PAGE_SIZE);
    var m := Masked(limit + 1, GPU_HUGE_PAGE_SIZE);
    assert m >= 1;
  }

  /** The next multiple of 64 KB. */
  function Up64K(x: nat): (r: nat)
    ensures x <= r < x + 0x1_0000 && Divides(0x1_0000, r)
  {
    MaskedIs(x + 0xffff, 0x1_0000);
    Masked(x + 0xffff, 0x1_0000)
  }

  /** The first quarter, in units of 64 KB, is for coherent access, the rest is the default aperture. */
  function Split(r: Range): (Range, Range)
    requires r.base + SVM_MIN_VM_SIZE - 1 <= r.limit <= SVM_RESERVATION_LIMIT
  {
    var base, size := Up64K(r.base), Up64K((r.limit - r.base + 1) / 4);
    (Range(base, base + size - 1), Range(base + size, r.limit))
  }

  /** Two adjacent apertures fill the range from its first 64 KB boundary on, the first of them with a quarter of it. */
  predicate Tiled(r: Range, coherent: Aperture, default: Aperture) {
    && r.base <= coherent.base < r.base + 0x1_0000 && coherent.base <= coherent.limit
    && default.base == coherent.limit + 1 && default.base <= default.limit == r.limit
    && (r.limit - r.base + 1) / 4 <= coherent.limit - coherent.base + 1 < (r.limit - r.base + 1) / 4 + 0x1_0000
    && Divides(0x1_0000, coherent.base) && Divides(0x1_0000, coherent.limit - coherent.base + 1)
  }

  /** The part of what was reserved that is below the limit. */
  function Trimmed(base: U64, mapSize: U64, limit: U64): Range
    requires mapSize > 0 && base + mapSize <= TOP_OF_USER_SPACE
  {
    Range(base, if base + mapSize - 1 > limit then limit else base + mapSize - 1)
  }

  /** Both apertures have the alignment and the guard pages asked for. */
  predicate Managed(coherent: Aperture, default: Aperture, align: U32, guards: U32) {
    coherent.align == default.align == align && coherent.guardPages == default.guardPages == guards
  }

  function Made(r: Range, align: U32, guards: U32, pageSize: nat): Aperture {
    Aperture(r.base, r.limit, align, guards, pageSize)
  }

  lemma {:induction false} SplitFits(r: Range, align: U32, guards: U32, pageSize: nat)
    requires r.base + SVM_MIN_VM_SIZE - 1 <= r.limit <= SVM_RESERVATION_LIMIT
    ensures var (c, d) := Split(r); Tiled(r, Made(c, align, guards, pageSize), Made(d, align, guards, pageSize))
  {
    var base, size := Up64K(r.base), Up64K((r.limit - r.base + 1) / 4);
    assert Split(r) == (Range(base, base + size - 1), Range(base + size, r.limit));
  }

  lemma {:induction false} PageDividesMinimum(pageSize: int)
    requires IsPow2(pageSize) && pageSize <= GPU_HUGE_PAGE_SIZE
    ensures Divides(pageSize, SVM_MIN_VM_SIZE)
  {
    HugeIsPow2();
    Pow2Divides(pageSize, GPU_HUGE_PAGE_SIZE);
    DividesTransitive(pageSize, GPU_HUGE_PAGE_SIZE, SVM_MIN_VM_SIZE);
  }

  // ---- One page without a reservation ----

  /** The ask for a block with padding for its alignment and guards on both sides. */
  function Asked(size: nat, align: nat, guard: nat, pageSize: nat): int {
    size + 2 * guard + (align - pageSize)
  }

  /** The block lies in the range. */
  predicate InReach(r: Range, a: int, size: nat) {
    r.base <= a && a + size - 1 <= r.limit
  }

  /** Rounded up from behind the first guard, the block and another guard are still in the mapping. */
  lemma {:induction false} PaddingSuffices(addr: U64, size: nat, align: int, guard: nat, pageSize: int)
    requires pageSize > 0 && align > 0 && addr + guard + align <= TWO_64
    requires Divides(pageSize, addr) && Divides(pageSize, guard) && Divides(pageSize, align)
    ensures var a := AlignUp(addr + guard, align);
      && Divides(align, a) && addr + guard <= a && a + size + guard <= addr + Asked(size, align, guard, pageSize)
  {
    var x := addr + guard;
    AlignUpIs(x, align);
    DividesSum(pageSize, addr, guard);
    DividesSum(pageSize, x, align);
    DividesTransitive(pageSize, align, AlignUp(x, align));
    MultiplesApart(pageSize, AlignUp(x, align), x + align);
  }

  /** Of the answer to the ask for a page with its guards, what is behind the first guard is the page. */
  predicate GrantsPage(answer: Option<U64>, r: Range, guard: nat, pageSize: nat) {
    answer.Some? && InReach(r, answer.value + guard, pageSize)
  }

  /** What starts with a page and ends with a page needs no rounding. */
  lemma {:induction false} PageAligned(addr: U64, guard: nat, pageSize: int)
    requires pageSize > 0 && addr + guard + pageSize <= TWO_64 && Divides(pageSize, addr) && Divides(pageSize, guard)
    ensures AlignUp(addr + guard, pageSize) == addr + guard
  {
    DividesSum(pageSize, addr, guard);
    AlignUpIs(addr + guard, pageSize);
  }

  lemma {:induction false} GrantExactly(m: Option<U64>, r: Range, guard: nat, pageSize: int)
    requires pageSize > 0 && Divides(pageSize, guard)
    requires m.Some? ==> Divides(pageSize, m.value) && m.value + guard + pageSize <= TWO_64
    ensures GrantsPage(m, r, guard, pageSize) <==> m.Some? && InReach(r, AlignUp(m.value + guard, pageSize), pageSize)
  {
    if m.Some? {
      PageAligned(m.value, guard, pageSize);
    }
  }

  lemma {:induction false} GuardSize(guards: U32, pageSize: nat)
    requires 0 < pageSize <= GPU_HUGE_PAGE_SIZE
    ensures 0 <= guards * pageSize < 0x80_0000_0000_0000 && Divides(pageSize, guards * pageSize)
  {
    assert guards * pageSize <= guards * GPU_HUGE_PAGE_SIZE;
    MultipleMod(pageSize, guards);
    assert pageSize * guards == guards * pageSize;
  }

  class Svm {
    const pageSize: nat
    const mmap: Mmap
    var calls: nat
    /** The addresses reserved here and not given back. */
    ghost var held: iset<int>
    var shared: Range
    var coherent: Aperture
    var default: Aperture

    constructor (pageSize: nat, mmap: Mmap)
      requires pageSize > 0
      ensures this.pageSize == pageSize && this.mmap == mmap && held == iset{} && shared == Range(0, 0)
    {
      this.pageSize, this.mmap := pageSize, mmap;
      calls, held := 0, iset{};
      shared := Range(0, 0);
      coherent, default := Aperture(0, 0, 0, 0, pageSize), Aperture(0, 0, 0, 0, pageSize);
    }

    ghost predicate Pages() {
      IsPow2(pageSize) && pageSize <= GPU_HUGE_PAGE_SIZE && Sane(mmap, pageSize)
    }

    method Reserve(addr: U64, len: U64) returns (r: Option<U64>)
      requires Pages() && len > 0
      modifies `calls, `held
      ensures r == mmap(old(calls), addr, len) && calls == old(calls) + 1
      ensures r.Some? ==> Granted(r.value, len, pageSize)
      ensures held == if r.Some? then old(held) + Addresses(r.value, r.value + len - 1) else old(held)
    {
      calls := calls + 1;
      r := mmap(calls - 1, addr, len);
      if r.Some? {
        held := held + Addresses(r.value, r.value + len - 1);
      }
    }

    method Unmap(addr: U64, len: U64)
      modifies `held
      ensures held == old(held) - Addresses(addr, addr as int + len - 1)
    {
      held := held - Addresses(addr, addr as int + len - 1);
    }

    method WholePages(n: U64) returns (m: U64)
      requires pageSize > 0
      ensures m == Masked(n, pageSize) && m <= n < m + pageSize && Divides(pageSize, m)
    {
      MaskedIs(n, pageSize);
      m := Masked(n, pageSize);
    }

    ghost function Asking(base: U64, limit: U64): Quest {
      Quest(mmap, pageSize, base, limit)
    }

    /** All that is reserved is a range of at least 4 GB, if there is one. */
    ghost predicate Holding(r: Option<U64>, mapSize: U64)
      reads this
    {
      if r.None? then held == iset{}
      else && held == Addresses(r.value, r.value + mapSize - 1)
           && SVM_MIN_VM_SIZE <= mapSize && r.value + mapSize <= TOP_OF_USER_SPACE
    }

    /** The asks for a length that began with call `k` have come to that result. */
    ghost predicate Settled(q: Quest, len: U64, k: nat, r: Option<U64>, mapSize: U64)
      requires Posed(q) && Length(q, len)
      reads this
    {
      && Outcome(q, len, k) == (if r.Some? then Some((r.value, mapSize)) else None)
      && calls == k + Requests(q, len, k)
    }

    /** One ask; an answer that is not half usable is given back at once. */
    method AskOnce(base: U64, limit: U64, len: U64, addr: U64, ghost k: nat, ghost j: nat)
        returns (high: bool, r: Option<U64>, mapSize: U64)
      requires Pages() && held == iset{} && calls == k + j
      requires base < limit <= SVM_RESERVATION_LIMIT && SVM_MIN_VM_SIZE <= len <= limit - base + 1
      requires addr == AddrAt(Asking(base, limit), j) && addr + Half(len) - 1 <= limit
      modifies `calls, `held
      ensures var q := Asking(base, limit);
        && high == TooHigh(q, len, k, j) && calls == (if Asks(q, len, j) then k + j + 1 else k + j)
        && (r.Some? <==> !high && Asks(q, len, j) && Reply(q, len, k, j).Some?)
        && (r.Some? ==> r == Reply(q, len, k, j) && mapSize == SizeAt(q, len, j))
      ensures Holding(r, mapSize) && (r.Some? ==> mapSize <= len)
    {
      var top := if addr + len < limit + 1 then addr + len else limit + 1;
      mapSize := WholePages(top - addr);
      if mapSize < SVM_MIN_VM_SIZE {
        return false, None, mapSize;
      }
      r := Reserve(addr, mapSize);
      high := r.Some? && r.value + Half(len) - 1 > limit;
      if high {
        Unmap(r.value, mapSize);
        r := None;
      }
    }

    /** The next ask, after others that were answered too high. */
    method AskNext(base: U64, limit: U64, len: U64, addr: U64, ghost k: nat, ghost j: nat)
        returns (high: bool, r: Option<U64>, mapSize: U64)
      requires Pages() && held == iset{} && calls == k + j
      requires base < limit <= SVM_RESERVATION_LIMIT && SVM_MIN_VM_SIZE <= len <= limit - base + 1
      requires addr == AddrAt(Asking(base, limit), j) && addr + Half(len) - 1 <= limit
      requires Reached(Asking(base, limit), len, k, j)
      modifies `calls, `held
      ensures var q := Asking(base, limit);
        if high then r.None? && calls == k + j + 1 && Reached(q, len, k, j + 1) else Settled(q, len, k, r, mapSize)
      ensures Holding(r, mapSize) && (r.Some? ==> mapSize <= len)
    {
      high, r, mapSize := AskOnce(base, limit, len, addr, k, j);
      if high {
        ReachedNext(Asking(base, limit), len, k, j);
      } else {
        OutcomeIs(Asking(base, limit), len, k, j);
      }
    }

    /** Tries start addresses for one size. */
    method TrySize(base: U64, limit: U64, len: U64) returns (r: Option<U64>, mapSize: U64)
      requires Pages() && held == iset{}
      requires base < limit <= SVM_RESERVATION_LIMIT && SVM_MIN_VM_SIZE <= len <= limit - base + 1
      modifies `calls, `held
      ensures Settled(Asking(base, limit), len, old(calls), r, mapSize)
      ensures Holding(r, mapSize) && (r.Some? ==> mapSize <= len)
    {
      ghost var q, k := Asking(base, limit), calls;
      ghost var j: nat := 0;
      var addr: U64 := base;
      r, mapSize := None, 0;
      while addr + Half(len) - 1 <= limit
        invariant addr == AddrAt(q, j) <= limit + GPU_HUGE_PAGE_SIZE && r.None? && held == iset{}
        invariant calls == k + j && Reached(q, len, k, j)
        decreases limit + GPU_HUGE_PAGE_SIZE - addr
      {
        var high;
        high, r, mapSize := AskNext(base, limit, len, addr, k, j);
        if !high {
          return;
        }
        addr, j := addr + GPU_HUGE_PAGE_SIZE, j + 1;
      }
      NoneLeft(q, len, k, j);
    }

    /** Tries one size; a range of which too little is below the limit is given back. */
    method TryEnough(base: U64, limit: U64, len: U64) returns (r: Option<U64>, mapSize: U64)
      requires Pages() && held == iset{}
      requires base < limit <= SVM_RESERVATION_LIMIT && SVM_MIN_VM_SIZE <= len <= limit - base + 1
      modifies `calls, `held
      ensures var q := Asking(base, limit);
        Found(q, len, old(calls)) == if r.Some? then Some((r.value, mapSize)) else Found(q, Half(len), calls)
      ensures Holding(r, mapSize) && (r.Some? ==> r.value + SVM_MIN_VM_SIZE - 1 <= limit)
    {
      FoundStep(Asking(base, limit), len, calls);
      r, mapSize := TrySize(base, limit, len);
      if r.Some? && r.value + SVM_MIN_VM_SIZE - 1 > limit {
        Unmap(r.value, mapSize);
        r := None;
      }
    }

    /** Halves the size until a range is found of which enough is below the limit. */
    method Search(base: U64, limit: U64) returns (r: Option<U64>, mapSize: U64)
      requires Pages() && held == iset{} && base < limit <= SVM_RESERVATION_LIMIT
      modifies `calls, `held
      ensures Found(Asking(base, limit), limit - base + 1, old(calls))
           == if r.Some? then Some((r.value, mapSize)) else None
      ensures Holding(r, mapSize) && (r.Some? ==> r.value + SVM_MIN_VM_SIZE - 1 <= limit)
    {
      ghost var q := Asking(base, limit);
      var len: U64 := limit - base + 1;
      r, mapSize := None, 0;
      while len >= SVM_MIN_VM_SIZE
        invariant 1 <= len <= limit - base + 1 && r.None? && held == iset{}
        invariant Found(q, len, calls) == Found(q, limit - base + 1, old(calls))
      {
        r, mapSize := TryEnough(base, limit, len);
        if r.Some? {
          return;
        }
        len := Half(len);
      }
    }

    /** What was found, below the limit, is all that is reserved, and is split. */
    ghost predicate Reserved(found: (U64, U64), limit: U64, align: U32, guards: U32)
      reads this
    {
      && found.1 > 0 && found.0 + found.1 <= TOP_OF_USER_SPACE && shared == Trimmed(found.0, found.1, limit)
      && held == Addresses(shared.base, shared.limit) && shared.base + SVM_MIN_VM_SIZE - 1 <= shared.limit
      && Tiled(shared, coherent, default) && Managed(coherent, default, align, guards)
    }

    /** Gives back what is above the limit and makes apertures of the rest. */
    method Take(base: U64, mapSize: U64, limit: U64, align: U32, guards: U32)
      requires held == Addresses(base, base + mapSize - 1) && SVM_MIN_VM_SIZE <= mapSize
        && limit <= SVM_RESERVATION_LIMIT
      requires base + SVM_MIN_VM_SIZE - 1 <= limit && base + mapSize <= TOP_OF_USER_SPACE
      modifies this
      ensures Reserved((base, mapSize), limit, align, guards)
    {
      var top := limit;
      if base + mapSize - 1 > limit {
        Unmap(limit + 1, base + mapSize - 1 - limit);
      } else {
        top := base + mapSize - 1;
      }
      shared := Range(base, top);
      var (c, d) := Split(shared);
      SplitFits(shared, align, guards, pageSize);
      coherent, default := Made(c, align, guards, pageSize), Made(d, align, guards, pageSize);
    }

    /** Doubles a small alignment up to the size of the block. */
    method Boost(top: nat, requested: U32, size: nat) returns (align: nat)
      requires IsPow2(requested) && IsPow2(size) && requested <= size <= top
      ensures align == size
    {
      align := requested;
      while align < top && size >= 2 * align
        invariant IsPow2(align) && align <= size
        decreases size - align
      {
        align := 2 * align;
      }
      if align < size {
        Pow2Half(align, size);
      }
    }

    /** A block in the range, aligned and with guards left free around it, is all that stays reserved; or nothing is. */
    method Allocate(size: nat, align: nat, guard: nat, range: Range) returns (r: Option<U64>)
      requires Pages() && held == iset{} && size > 0 && Divides(pageSize, align) && Divides(pageSize, guard)
      requires align >= pageSize && Asked(size, align, guard, pageSize) < TWO_64
      modifies `calls, `held
      ensures calls == old(calls) + 1 && (r.None? ==> held == iset{})
      ensures r.Some? ==>
        held == Addresses(r.value, r.value + size - 1) && InReach(range, r.value, size) && Divides(align, r.value)
      ensures var asked := Asked(size, align, guard, pageSize); var m := mmap(old(calls), 0, asked);
        && (r.Some? <==> m.Some? && InReach(range, AlignUp(m.value + guard, align), size))
        && (r.Some? ==> m.value + guard <= r.value && r.value + size + guard <= m.value + asked)
    {
      var asked := Asked(size, align, guard, pageSize);
      var m := Reserve(0, asked);
      if m.None? {
        return None;
      }
      PaddingSuffices(m.value, size, align, guard, pageSize);
      var a := AlignUp(m.value + guard, align);
      if a < range.base || a + size - 1 > range.limit {
        Unmap(m.value, asked);
        return None;
      }
      if a > m.value {
        Unmap(m.value, a - m.value);
      }
      if m.value + asked > a + size {
        Unmap(a + size, m.value + asked - (a + size));
      }
      return Some(a);
    }

    /** All GPUs reach the whole user space, and nothing speaks against leaving addresses to the system. */
    predicate TriesUnreserved(base: U64, limit: U64, align: U32, reserve: bool) {
      Aligned(base, limit).limit >= TOP_OF_USER_SPACE - 1 && !reserve && align <= pageSize
    }

    /** The system grants a page of the range, with its guards, to the next call. */
    predicate PageToBeHad(range: Range, guards: U32)
      requires 0 < pageSize <= GPU_HUGE_PAGE_SIZE
      reads this
    {
      GuardSize(guards, pageSize);
      var guard := guards * pageSize;
      GrantsPage(mmap(calls, 0, pageSize + 2 * guard), range, guard, pageSize)
    }

    /** Allocates a page and gives it back. */
    method TryPage(range: Range, align: nat, guard: nat) returns (ok: bool)
      requires Pages() && held == iset{} && align == pageSize && Divides(pageSize, guard)
        && pageSize + 2 * guard < TWO_64
      modifies `calls, `held
      ensures calls == old(calls) + 1
      ensures held == iset{} && ok == GrantsPage(mmap(old(calls), 0, pageSize + 2 * guard), range, guard, pageSize)
    {
      MultipleMod(pageSize, 1);
      GrantExactly(mmap(calls, 0, pageSize + 2 * guard), range, guard, pageSize);
      var page := Allocate(pageSize, align, guard, range);
      if page.Some? {
        Unmap(page.value, pageSize);
      }
      return page.Some?;
    }

    /** One aperture without a reservation, if a page of it can be had. */
    method InitUnreserved(range: Range, align: U32, guards: U32, maxAlign: nat) returns (ok: bool)
      requires Pages() && held == iset{} && IsPow2(align) && pageSize <= maxAlign
      modifies `calls, `held, `coherent, `default
      ensures held == iset{} && ok == (align <= pageSize && old(PageToBeHad(range, guards)))
      ensures align > pageSize ==> unchanged(this)
      ensures align <= pageSize ==>
        && calls == old(calls) + 1
        && default == Made(range, align, guards, pageSize) && coherent == old(coherent).(base := 0, limit := 0)
    {
      if align > pageSize {
        return false;
      }
      default, coherent := Made(range, align, guards, pageSize), coherent.(base := 0, limit := 0);
      GuardSize(guards, pageSize);
      var boosted := Boost(maxAlign, align, pageSize);
      ok := TryPage(range, boosted, guards * pageSize);
    }

    /** What the search in the range finds, starting with the given call. */
    ghost function Findable(b: Range, call: nat): Option<(U64, U64)>
      requires 0 < pageSize <= GPU_HUGE_PAGE_SIZE && b.limit <= SVM_RESERVATION_LIMIT
    {
      if b.base >= b.limit then None else Found(Asking(b.base, b.limit), b.limit - b.base + 1, call)
    }

    /**
      If the system grants at the address asked what fits below the limit, up to 8 GB or more, there
      is something to be found, and the range that stays reserved is at least half as big.
     */
    lemma {:induction false} GenerousFindable(b: Range, call: nat, most: int)
      requires Pages() && b.base < b.limit <= SVM_RESERVATION_LIMIT
      requires 2 * SVM_MIN_VM_SIZE <= most <= b.limit - b.base + 1 && Generous(Asking(b.base, b.limit), most)
      ensures Findable(b, call).Some?
      ensures var (base, size) := Findable(b, call).value;
        && size > 0
        && (base + size <= TOP_OF_USER_SPACE ==>
              var r := Trimmed(base, size, b.limit); r.limit - r.base + 1 >= Masked(most / 2, pageSize))
    {
      PageDividesMinimum(pageSize);
      GenerousHalf(Asking(b.base, b.limit), b.limit - b.base + 1, call, most);
      MaskedGrows(SVM_MIN_VM_SIZE, most / 2, pageSize);
      MaskedIs(SVM_MIN_VM_SIZE, pageSize);
    }

    /** Reserves and splits what the search in the range finds, or leaves nothing reserved. */
    method InitReserved(b: Range, align: U32, guards: U32) returns (ok: bool)
      requires Pages() && held == iset{} && b.limit <= SVM_RESERVATION_LIMIT
      modifies this
      ensures ok == Findable(b, old(calls)).Some?
      ensures ok ==> Reserved(Findable(b, old(calls)).value, b.limit, align, guards)
      ensures !ok ==> held == iset{} && shared == old(shared) && coherent == old(coherent) && default == old(default)
    {
      if b.base >= b.limit {
        return false;
      }
      var r, mapSize := Search(b.base, b.limit);
      if r.None? {
        return false;
      }
      Take(r.value, mapSize, b.limit, align, guards);
      return true;
    }

    /**
      Apertures inherited from a parent process are kept. Otherwise there is one aperture without a
      reservation, or one range is left reserved, within the limit and big enough, and split into
      two apertures; or it fails and nothing is reserved.
     */
    method Init(base: U64, limit: U64, align: U32, guards: U32, reserve: bool, maxAlign: nat) returns (ok: bool)
      requires Pages() && IsPow2(align) && pageSize <= maxAlign && (shared.limit == 0 ==> held == iset{})
      modifies this
      ensures old(shared).limit != 0 ==> ok && unchanged(this)
      ensures !ok ==> held == iset{} && shared == old(shared)
      ensures !ok && !TriesUnreserved(base, limit, align, reserve) ==>
        coherent == old(coherent) && default == old(default)
      ensures old(shared).limit == 0 ==>
        var tries := TriesUnreserved(base, limit, align, reserve);
        var found := Findable(Bounds(base, limit), if tries then old(calls) + 1 else old(calls));
        if tries && old(PageToBeHad(Aligned(base, limit), guards)) then
          && ok && held == iset{} && shared == old(shared) && coherent.base == coherent.limit == 0
          && default == Made(Aligned(base, limit), align, guards, pageSize)
        else ok == found.Some? && (ok ==> Reserved(found.value, Bounds(base, limit).limit, align, guards))
    {
      if shared.limit != 0 {
        return true;
      }
      if Aligned(base, limit).limit >= TOP_OF_USER_SPACE - 1 && !reserve {
        ok := InitUnreserved(Aligned(base, limit), align, guards, maxAlign);
        if ok {
          return;
        }
      }
      ok := InitReserved(Bounds(base, limit), align, guards);
    }
  }
}
