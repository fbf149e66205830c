/**
  What the search for the managed SVM range asks of the operating system, and what its answers lead
  to: for each length of a halving chain a series of asks, at start addresses one huge page apart.
 */
module SvmSearch {
  import opened Machine
  import opened Align

  const SVM_RESERVATION_LIMIT: U64 := 0xff_ffff_ffff
  const SVM_MIN_VM_SIZE: U64 := 0x1_0000_0000
  const TOP_OF_USER_SPACE: U64 := 0x8000_0000_0000

  /** The answer to the k-th request for a range at the given address and of the given length. */
  type Mmap = (nat, U64, U64) -> Option<U64>

  datatype Quest = Quest(mmap: Mmap, pageSize: nat, base: U64, limit: U64)

  predicate Posed(q: Quest) {
    0 < q.pageSize <= GPU_HUGE_PAGE_SIZE && q.base < q.limit <= SVM_RESERVATION_LIMIT
  }

  function Half(len: U64): (h: U64)
    requires len < TWO_64 - 1
    ensures 2 * h - 1 <= len <= 2 * h
  {
    (len + 1) / 2
  }

  predicate Length(q: Quest, len: int) {
    1 <= len <= q.limit - q.base + 1
  }

  // ---- The asks for one length ----

  /** The start address of the `j`-th ask. */
  function AddrAt(q: Quest, j: nat): nat {
    q.base + j * GPU_HUGE_PAGE_SIZE
  }

  /** Its size: whole pages up to the limit. */
  function SizeAt(q: Quest, len: int, j: nat): int
    requires Posed(q)
  {
    var addr := AddrAt(q, j);
    Masked(if addr + len < q.limit + 1 then len else q.limit + 1 - addr, q.pageSize)
  }

  /** The ask is made, if the ones before it were answered too high: half the length fits, and 4 GB are left. */
  predicate Asks(q: Quest, len: int, j: nat)
    requires Posed(q) && Length(q, len)
  {
    AddrAt(q, j) + Half(len) - 1 <= q.limit && SizeAt(q, len, j) >= SVM_MIN_VM_SIZE
  }

  lemma {:induction false} AskedRange(q: Quest, len: int, j: nat)
    requires Posed(q) && Length(q, len) && Asks(q, len, j)
    ensures AddrAt(q, j) <= q.limit && SVM_MIN_VM_SIZE <= SizeAt(q, len, j) <= len
    ensures AddrAt(q, j) + SizeAt(q, len, j) <= q.limit + 1 && Masked(Half(len), q.pageSize) <= SizeAt(q, len, j)
  {
    var addr := AddrAt(q, j);
    var n := if addr + len < q.limit + 1 then len else q.limit + 1 - addr;
    MaskedIs(n, q.pageSize);
    MaskedGrows(Half(len), n, q.pageSize);
  }

  lemma {:induction false} MaskedGrows(x: int, y: int, a: int)
    requires a > 0 && x <= y
    ensures Masked(x, a) <= Masked(y, a)
  {
    MaskedIs(x, a);
    MaskedIs(y, a);
    if Masked(y, a) < Masked(x, a) {
      MultiplesApart(a, Masked(y, a), Masked(x, a));
    }
  }

  /** The answer to the ask; `k` is the number of requests made before this length. */
  function Reply(q: Quest, len: int, k: nat, j: nat): Option<U64>
    requires Posed(q) && Length(q, len) && Asks(q, len, j)
  {
    AskedRange(q, len, j);
    q.mmap(k + j, AddrAt(q, j), SizeAt(q, len, j))
  }

  /** The answer leaves less than half the length below the limit. */
  predicate TooHigh(q: Quest, len: int, k: nat, j: nat)
    requires Posed(q) && Length(q, len)
  {
    Asks(q, len, j) && Reply(q, len, k, j).Some? && Reply(q, len, k, j).value + Half(len) - 1 > q.limit
  }

  /** How many asks from the `j`-th on are answered too high, one after the other. */
  ghost function Highs(q: Quest, len: int, k: nat, j: nat): nat
    requires Posed(q) && Length(q, len)
    decreases q.limit + GPU_HUGE_PAGE_SIZE - AddrAt(q, j)
  {
    if TooHigh(q, len, k, j) then 1 + Highs(q, len, k, j + 1) else 0
  }

  lemma {:induction false} HighsEnd(q: Quest, len: int, k: nat, j: nat)
    requires Posed(q) && Length(q, len)
    ensures !TooHigh(q, len, k, j + Highs(q, len, k, j))
    decreases q.limit + GPU_HUGE_PAGE_SIZE - AddrAt(q, j)
  {
    if TooHigh(q, len, k, j) {
      HighsEnd(q, len, k, j + 1);
    }
  }

  lemma {:induction false} HighsBefore(q: Quest, len: int, k: nat, j: nat, i: nat)
    requires Posed(q) && Length(q, len) && j <= i < j + Highs(q, len, k, j)
    ensures TooHigh(q, len, k, i)
    decreases i - j
  {
    if j < i {
      HighsBefore(q, len, k, j + 1, i);
    }
  }

  /** Address and size of what is reserved for the length: the first ask that is not answered too high, if granted. */
  ghost function Outcome(q: Quest, len: int, k: nat): Option<(U64, U64)>
    requires Posed(q) && Length(q, len)
  {
    var j := Highs(q, len, k, 0);
    if !Asks(q, len, j) || Reply(q, len, k, j).None? then None
    else AskedRange(q, len, j); Some((Reply(q, len, k, j).value, SizeAt(q, len, j)))
  }

  /** How many requests that takes. */
  ghost function Requests(q: Quest, len: int, k: nat): nat
    requires Posed(q) && Length(q, len)
  {
    var j := Highs(q, len, k, 0);
    if Asks(q, len, j) then j + 1 else j
  }

  /** All asks before the `j`-th are answered too high. */
  ghost predicate Reached(q: Quest, len: int, k: nat, j: nat)
    requires Posed(q) && Length(q, len)
  {
    j + Highs(q, len, k, j) == Highs(q, len, k, 0)
  }

  /** What the asks for a length come to at the first that is not answered too high. */
  lemma {:induction false} OutcomeIs(q: Quest, len: int, k: nat, j: nat)
    requires Posed(q) && Length(q, len) && Reached(q, len, k, j) && !TooHigh(q, len, k, j)
    ensures Outcome(q, len, k).Some? <==> Asks(q, len, j) && Reply(q, len, k, j).Some?
    ensures Outcome(q, len, k).Some? ==> Outcome(q, len, k).value == (Reply(q, len, k, j).value, SizeAt(q, len, j))
    ensures Requests(q, len, k) == if Asks(q, len, j) then j + 1 else j
  {
  }

  lemma {:induction false} ReachedNext(q: Quest, len: int, k: nat, j: nat)
    requires Posed(q) && Length(q, len) && Reached(q, len, k, j) && TooHigh(q, len, k, j)
    ensures Reached(q, len, k, j + 1)
  {
  }

  lemma {:induction false} NoneLeft(q: Quest, len: int, k: nat, j: nat)
    requires Posed(q) && Length(q, len) && Reached(q, len, k, j) && AddrAt(q, j) + Half(len) - 1 > q.limit
    ensures Outcome(q, len, k).None? && Requests(q, len, k) == j
  {
    OutcomeIs(q, len, k, j);
  }

  /** Some asks are answered too high, and then one is refused or none is left. */
  ghost predicate RefusedAfter(q: Quest, len: int, k: nat, j: nat)
    requires Posed(q) && Length(q, len)
  {
    && (forall i | 0 <= i < j :: TooHigh(q, len, k, i))
    && (!Asks(q, len, j) || Reply(q, len, k, j).None?)
  }

  /** Nothing is reserved for a length if and only if its asks are answered too high until one is refused or all are. */
  lemma {:induction false} OutcomeExactly(q: Quest, len: int, k: nat)
    requires Posed(q) && Length(q, len)
    ensures Outcome(q, len, k).None? <==> exists j: nat :: RefusedAfter(q, len, k, j)
  {
    var h := Highs(q, len, k, 0);
    HighsEnd(q, len, k, 0);
    forall i: nat | i < h
      ensures TooHigh(q, len, k, i)
    {
      HighsBefore(q, len, k, 0, i);
    }
    if Outcome(q, len, k).None? {
      assert RefusedAfter(q, len, k, h);
    }
    if j: nat :| RefusedAfter(q, len, k, j) {
      assert !TooHigh(q, len, k, j) && h == j;
    }
  }

  // ---- The chain of lengths ----

  /** At least 4 GB of it are below the limit. */
  predicate Enough(q: Quest, o: Option<(U64, U64)>) {
    o.Some? && o.value.0 + SVM_MIN_VM_SIZE - 1 <= q.limit
  }

  /** What the search finds, from the given length on. */
  ghost function Found(q: Quest, len: int, k: nat): Option<(U64, U64)>
    requires Posed(q) && Length(q, len)
    decreases len
  {
    if len < SVM_MIN_VM_SIZE then None
    else if Enough(q, Outcome(q, len, k)) then Outcome(q, len, k)
    else Found(q, Half(len), k + Requests(q, len, k))
  }

  lemma {:induction false} FoundStep(q: Quest, len: int, k: nat)
    requires Posed(q) && Length(q, len) && len >= SVM_MIN_VM_SIZE
    ensures Found(q, len, k) == if Enough(q, Outcome(q, len, k)) then Outcome(q, len, k)
                                else Found(q, Half(len), k + Requests(q, len, k))
  {
  }

  /** The `n`-th length of the chain. */
  function LenAt(q: Quest, len: int, n: nat): (r: int)
    requires Posed(q) && Length(q, len)
    ensures Length(q, r) && r <= len && (n > 0 ==> r <= Half(len))
  {
    if n == 0 then len else LenAt(q, Half(len), n - 1)
  }

  /** How many requests were made before it. */
  ghost function CallAt(q: Quest, len: int, k: nat, n: nat): nat
    requires Posed(q) && Length(q, len)
  {
    if n == 0 then k else CallAt(q, Half(len), k + Requests(q, len, k), n - 1)
  }

  ghost function OutcomeAt(q: Quest, len: int, k: nat, n: nat): Option<(U64, U64)>
    requires Posed(q) && Length(q, len)
  {
    Outcome(q, LenAt(q, len, n), CallAt(q, len, k, n))
  }

  /** The `n`-th length is at least 4 GB and yields enough. */
  ghost predicate Yields(q: Quest, len: int, k: nat, n: nat)
    requires Posed(q) && Length(q, len)
  {
    LenAt(q, len, n) >= SVM_MIN_VM_SIZE && Enough(q, OutcomeAt(q, len, k, n))
  }

  lemma {:induction false} YieldsNext(q: Quest, len: int, k: nat, n: nat)
    requires Posed(q) && Length(q, len)
    ensures Yields(q, len, k, n + 1) <==> Yields(q, Half(len), k + Requests(q, len, k), n)
    ensures OutcomeAt(q, len, k, n + 1) == OutcomeAt(q, Half(len), k + Requests(q, len, k), n)
  {
  }

  lemma {:induction false} NoneYields(q: Quest, len: int, k: nat, n: nat)
    requires Posed(q) && Length(q, len) && Found(q, len, k).None?
    ensures !Yields(q, len, k, n)
    decreases n
  {
    if n > 0 && len >= SVM_MIN_VM_SIZE {
      NoneYields(q, Half(len), k + Requests(q, len, k), n - 1);
      YieldsNext(q, len, k, n - 1);
    }
  }

  /** The position of the length with which the search succeeds. */
  ghost function FirstAt(q: Quest, len: int, k: nat): nat
    requires Posed(q) && Length(q, len) && Found(q, len, k).Some?
    decreases len
  {
    if Enough(q, Outcome(q, len, k)) then 0 else 1 + FirstAt(q, Half(len), k + Requests(q, len, k))
  }

  lemma {:induction false} FirstAtYields(q: Quest, len: int, k: nat)
    requires Posed(q) && Length(q, len) && Found(q, len, k).Some?
    ensures Yields(q, len, k, FirstAt(q, len, k)) && OutcomeAt(q, len, k, FirstAt(q, len, k)) == Found(q, len, k)
    decreases len
  {
    if !Enough(q, Outcome(q, len, k)) {
      var h, l := Half(len), k + Requests(q, len, k);
      FirstAtYields(q, h, l);
      YieldsNext(q, len, k, FirstAt(q, h, l));
    }
  }

  lemma {:induction false} BeforeFirst(q: Quest, len: int, k: nat, m: nat)
    requires Posed(q) && Length(q, len) && Found(q, len, k).Some? && m < FirstAt(q, len, k)
    ensures !Yields(q, len, k, m)
    decreases m
  {
    if m > 0 {
      BeforeFirst(q, Half(len), k + Requests(q, len, k), m - 1);
      YieldsNext(q, len, k, m - 1);
    }
  }

  /**
    The search finds nothing if and only if no length of the chain yields enough, and otherwise what
    the first of them yields.
   */
  lemma {:induction false} FoundExactly(q: Quest, len: int, k: nat)
    requires Posed(q) && Length(q, len)
    ensures Found(q, len, k).None? <==> forall n: nat :: !Yields(q, len, k, n)
    ensures Found(q, len, k).Some? ==>
      exists n: nat :: Yields(q, len, k, n) && OutcomeAt(q, len, k, n) == Found(q, len, k)
                    && forall m | 0 <= m < n :: !Yields(q, len, k, m)
  {
    if Found(q, len, k).None? {
      forall n: nat
        ensures !Yields(q, len, k, n)
      {
        NoneYields(q, len, k, n);
      }
    } else {
      FirstAtYields(q, len, k);
      forall m: nat | m < FirstAt(q, len, k)
        ensures !Yields(q, len, k, m)
      {
        BeforeFirst(q, len, k, m);
      }
    }
  }

  // ---- A system that grants what it is asked for, up to a size ----

  /** Whatever fits below the limit and is no longer than `most` is granted where it is asked for. */
  ghost predicate Generous(q: Quest, most: int) {
    forall k: nat, addr: U64, len: U64
      | q.base <= addr && addr + len <= q.limit + 1 && SVM_MIN_VM_SIZE <= len <= most ::
      q.mmap(k, addr, len) == Some(addr)
  }

  lemma {:induction false} WholeGigabytes(q: Quest, len: int)
    requires Posed(q) && Length(q, len) && SVM_MIN_VM_SIZE <= len && Divides(q.pageSize, SVM_MIN_VM_SIZE)
    ensures SizeAt(q, len, 0) == Masked(len, q.pageSize) >= SVM_MIN_VM_SIZE && Asks(q, len, 0)
  {
    MaskedIs(len, q.pageSize);
    MaskedIs(SVM_MIN_VM_SIZE, q.pageSize);
    MaskedGrows(SVM_MIN_VM_SIZE, len, q.pageSize);
  }

  lemma {:induction false} GenerousOutcome(q: Quest, len: int, k: nat)
    requires Posed(q) && Length(q, len) && SVM_MIN_VM_SIZE <= len && Divides(q.pageSize, SVM_MIN_VM_SIZE)
    requires Generous(q, len)
    ensures Outcome(q, len, k) == Some((q.base, Masked(len, q.pageSize))) && Enough(q, Outcome(q, len, k))
  {
    WholeGigabytes(q, len);
    AskedRange(q, len, 0);
    assert Reply(q, len, k, 0) == Some(q.base);
  }

  /** Asks at addresses from the base up to `x` are answered too high, those at `x` are granted there. */
  ghost predicate GrantsFrom(q: Quest, len: int, x: int)
    requires Posed(q) && Length(q, len)
  {
    && (forall k: nat, addr: U64, size: U64 | q.base <= addr < x && size <= len ::
          q.mmap(k, addr, size).Some? && q.mmap(k, addr, size).value + Half(len) - 1 > q.limit)
    && (forall k: nat, addr: U64, size: U64 | addr == x && size <= len :: q.mmap(k, addr, size) == Some(addr))
  }

  lemma {:induction false} AsksBefore(q: Quest, len: int, j: nat, n: nat)
    requires Posed(q) && Length(q, len) && j <= n && Asks(q, len, n)
    ensures Asks(q, len, j)
  {
    var a, b := AddrAt(q, j), AddrAt(q, n);
    var x := if a + len < q.limit + 1 then len else q.limit + 1 - a;
    var y := if b + len < q.limit + 1 then len else q.limit + 1 - b;
    assert a <= b && y <= x;
    MaskedGrows(y, x, q.pageSize);
  }

  lemma {:induction false} GrantedAt(q: Quest, len: int, k: nat, j: nat, n: nat)
    requires Posed(q) && Length(q, len) && j <= n && GrantsFrom(q, len, AddrAt(q, n)) && Asks(q, len, n)
    ensures TooHigh(q, len, k, j) <==> j < n
    ensures Asks(q, len, j) && Reply(q, len, k, j).Some?
    ensures j == n ==> Reply(q, len, k, j).value == AddrAt(q, n)
  {
    AsksBefore(q, len, j, n);
    AskedRange(q, len, j);
    assert j < n ==> AddrAt(q, j) < AddrAt(q, n);
  }

  lemma {:induction false} HighsUpTo(q: Quest, len: int, k: nat, j: nat, n: nat)
    requires Posed(q) && Length(q, len) && j <= n && GrantsFrom(q, len, AddrAt(q, n)) && Asks(q, len, n)
    ensures Highs(q, len, k, j) == n - j
    decreases n - j
  {
    GrantedAt(q, len, k, j, n);
    if j < n {
      HighsUpTo(q, len, k, j + 1, n);
    }
  }

  /** One huge page after the other is tried as a start address, until one is not answered too high. */
  lemma {:induction false} EveryHugePageTried(q: Quest, len: int, k: nat, n: nat)
    requires Posed(q) && Length(q, len) && GrantsFrom(q, len, q.base + n * GPU_HUGE_PAGE_SIZE) && Asks(q, len, n)
    ensures Outcome(q, len, k).Some? && Outcome(q, len, k).value.0 == q.base + n * GPU_HUGE_PAGE_SIZE
    ensures Requests(q, len, k) == n + 1
  {
    HighsUpTo(q, len, k, 0, n);
    GrantedAt(q, len, k, n, n);
  }

  /** At least the size is below the limit and reserved. */
  predicate AtLeast(q: Quest, o: Option<(U64, U64)>, size: int) {
    o.Some? && size <= o.value.1 && o.value.0 + size - 1 <= q.limit
  }

  lemma {:induction false} EnoughAtLeast(q: Quest, len: int, k: nat)
    requires Posed(q) && Length(q, len) && Outcome(q, len, k).Some?
    ensures AtLeast(q, Outcome(q, len, k), Masked(Half(len), q.pageSize))
  {
    var j := Highs(q, len, k, 0);
    HighsEnd(q, len, k, 0);
    AskedRange(q, len, j);
    MaskedIs(Half(len), q.pageSize);
  }

  lemma {:induction false} LongerAtLeast(q: Quest, len: int, k: nat, n: nat)
    requires Posed(q) && Length(q, len) && n > 0 && Outcome(q, len, k).Some?
    ensures AtLeast(q, Outcome(q, len, k), Masked(LenAt(q, len, n), q.pageSize))
  {
    EnoughAtLeast(q, len, k);
    MaskedGrows(LenAt(q, len, n), Half(len), q.pageSize);
  }

  lemma {:induction false} GenerousAtLeast(q: Quest, len: int, k: nat)
    requires Posed(q) && Length(q, len) && SVM_MIN_VM_SIZE <= len && Divides(q.pageSize, SVM_MIN_VM_SIZE)
    requires Generous(q, len)
    ensures Enough(q, Outcome(q, len, k)) && AtLeast(q, Outcome(q, len, k), Masked(len, q.pageSize))
  {
    GenerousOutcome(q, len, k);
    MaskedIs(len, q.pageSize);
  }

  /**
    If the system is generous up to some length of the chain, the search succeeds, and no less than
    that length in whole pages is reserved below the limit.
   */
  lemma {:induction false} GenerousFound(q: Quest, len: int, k: nat, n: nat)
    requires Posed(q) && Length(q, len) && Divides(q.pageSize, SVM_MIN_VM_SIZE)
    requires SVM_MIN_VM_SIZE <= LenAt(q, len, n) && Generous(q, LenAt(q, len, n))
    ensures AtLeast(q, Found(q, len, k), Masked(LenAt(q, len, n), q.pageSize))
    decreases n
  {
    FoundStep(q, len, k);
    if n == 0 {
      GenerousAtLeast(q, len, k);
    } else if Enough(q, Outcome(q, len, k)) {
      LongerAtLeast(q, len, k, n);
    } else {
      GenerousFound(q, Half(len), k + Requests(q, len, k), n - 1);
    }
  }

  /** The first length of the chain that is no longer than `most` is at least half as long. */
  lemma {:induction false} SomeLength(q: Quest, len: int, most: int) returns (n: nat)
    requires Posed(q) && Length(q, len) && 1 <= most <= len
    ensures most <= 2 * LenAt(q, len, n) && LenAt(q, len, n) <= most
    decreases len
  {
    if len == most {
      n := 0;
    } else if Half(len) <= most {
      n := 1;
      assert LenAt(q, len, 1) == LenAt(q, Half(len), 0) == Half(len);
    } else {
      var r := SomeLength(q, Half(len), most);
      n := r + 1;
    }
  }

  /** If the system is generous up to 8 GB or more, at least half of that is reserved below the limit. */
  lemma {:induction false} GenerousHalf(q: Quest, len: int, k: nat, most: int)
    requires Posed(q) && Length(q, len) && Divides(q.pageSize, SVM_MIN_VM_SIZE)
    requires 2 * SVM_MIN_VM_SIZE <= most <= len && Generous(q, most)
    ensures AtLeast(q, Found(q, len, k), Masked(most / 2, q.pageSize))
  {
    var n := SomeLength(q, len, most);
    GenerousFound(q, len, k, n);
    MaskedGrows(most / 2, LenAt(q, len, n), q.pageSize);
  }
}
