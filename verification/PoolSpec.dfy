/** The calls of palloc.c as functions on the state of a pool. Addresses are integers, 0 is the null
    pointer, and what the system allocator answers is a parameter of each call. */
module PoolSpec {
  import opened Integers

  const POOL_HEADER := 56          // sizeof(pool_t)
  const DATA_HEADER := 32          // sizeof(pool_data_t)
  const LARGE_SIZE := 16           // sizeof(pool_large_t)
  const ALIGNMENT := 8
  const POOL_ALIGNMENT := 16
  const MIN_POOL_SIZE := 96
  const MAX_ALLOC_FROM_POOL := 4095

  /** align_ptr */
  function Aligned(a: int): int { (a + 7) / 8 * 8 }

  lemma AlignedUp(a: int, end: int)
    ensures a <= Aligned(a) < a + 8 && Aligned(a) % 8 == 0
    ensures a <= end && end % 8 == 0 ==> Aligned(a) <= end
  {
    var q, e := (a + 7) / 8, end / 8;
    assert 8 * q <= a + 7 < 8 * q + 8;
    if a <= end && end % 8 == 0 {
      assert 8 * q <= 8 * e + 7;
    }
  }

  lemma NewBlockTop(p: int)
    requires p % POOL_ALIGNMENT == 0
    ensures Aligned(p + DATA_HEADER) == p + DATA_HEADER && (p + DATA_HEADER) % ALIGNMENT == 0
  {
    var k := p / POOL_ALIGNMENT;
    assert p == 16 * k && p + DATA_HEADER == 8 * (2 * k + 4);
    AlignedMultiple(2 * k + 4);
  }

  lemma AlignedMultiple(q: int)
    ensures Aligned(8 * q) == 8 * q && 8 * q % 8 == 0
  {
    assert (8 * q + 7) / 8 == q;
  }

  datatype Block = Block(base: int, last: int, failed: nat)

  /** An element of the list of large allocations; `alloc` is 0 once pfree has emptied it. */
  datatype Large = Large(at: int, alloc: int)

  predicate Apart(a: int, m: nat, b: int, n: nat) { a + m <= b || b + n <= a || m == 0 || n == 0 }

  /** A region of the system allocator has an address of its own even when it is empty. */
  function Span(size: nat): nat { if size == 0 then 1 else size }

  /** The live region at `a` does not meet `size` bytes from `p`. */
  predicate ClearOf(live: map<int, nat>, a: int, p: int, size: nat) {
    a in live && Apart(a, Span(live[a]), p, Span(size))
  }

  /** What the system allocator may answer: null, or an aligned region apart from all live ones. */
  predicate Grant(live: map<int, nat>, p: int, size: nat, alignment: nat) {
    || p == 0
    || (&& 0 < p && 0 < alignment && p % alignment == 0
        && (forall a {:trigger ClearOf(live, a, p, size)} :: a in live ==> ClearOf(live, a, p, size)))
  }

  /** A pool: the size of its blocks, the largest small request, the chain of blocks, the block where
      searches start, the list of large allocations, and what the system has given out. */
  datatype PoolState = PoolState(psize: nat, max: nat, blocks: seq<Block>, current: nat, large: seq<Large>,
                                 live: map<int, nat>)

  function Start(b: Block, align: bool): int { if align then Aligned(b.last) else b.last }

  predicate HasRoom(psize: nat, b: Block, size: nat, align: bool) { Start(b, align) + size <= b.base + psize }

  /** The first block from `i` on with room, or the length of the chain. */
  function FirstRoom(bs: seq<Block>, i: nat, psize: nat, size: nat, align: bool): nat
    decreases |bs| - i
  {
    if |bs| <= i then |bs|
    else if HasRoom(psize, bs[i], size, align) then i
    else FirstRoom(bs, i + 1, psize, size, align)
  }

  lemma {:induction false} FirstRoomIs(bs: seq<Block>, i: nat, psize: nat, size: nat, align: bool, r: nat)
    requires i <= r <= |bs| && (r < |bs| ==> HasRoom(psize, bs[r], size, align))
    requires forall j :: i <= j < r ==> !HasRoom(psize, bs[j], size, align)
    ensures FirstRoom(bs, i, psize, size, align) == r
    decreases r - i
  {
    if i < r {
      FirstRoomIs(bs, i + 1, psize, size, align, r);
    }
  }

  /** Every block from `cur` to the last but one has failed once more. */
  function Failed(bs: seq<Block>, cur: nat): (r: seq<Block>)
    ensures |r| == |bs|
  {
    seq(|bs|, i requires 0 <= i < |bs| => bs[i].(failed := bs[i].failed + if cur <= i < |bs| - 1 then 1 else 0))
  }

  /** Just behind the last block before `p` that had failed more than four times, but not before `cur`. */
  function SkipTo(bs: seq<Block>, cur: nat, p: int): nat
    requires p <= |bs|
    decreases p - cur
  {
    if p <= cur then cur else if bs[p - 1].failed > 4 then p else SkipTo(bs, cur, p - 1)
  }

  lemma {:induction false} SkipIs(bs: seq<Block>, cur: nat, p: nat, to: nat)
    requires cur <= to <= p <= |bs| && (to == cur || bs[to - 1].failed > 4)
    requires forall i :: to <= i < p ==> bs[i].failed <= 4
    ensures SkipTo(bs, cur, p) == to
    decreases p - to
  {
    if to < p {
      SkipIs(bs, cur, p - 1, to);
    }
  }

  /** palloc_small: the new state, and the address or 0. */
  function SmallOf(s: PoolState, size: nat, align: bool, p: int): (PoolState, int) {
    var i := FirstRoom(s.blocks, s.current, s.psize, size, align);
    if i < |s.blocks| then
      var m := Start(s.blocks[i], align);
      (s.(blocks := s.blocks[i := s.blocks[i].(last := m + size)]), m)
    else if p == 0 then (s, 0)
    else
      (s.(blocks := Failed(s.blocks, s.current) + [Block(p, p + DATA_HEADER + size, 0)],
          current := SkipTo(s.blocks, s.current, |s.blocks| - 1), live := s.live[p := s.psize]),
       p + DATA_HEADER)
  }

  /** The first empty element among the first five, or the end of the search. */
  function FirstEmpty(ls: seq<Large>, k: nat): nat
    decreases 5 - k
  {
    if |ls| <= k || 5 <= k || ls[k].alloc == 0 then k else FirstEmpty(ls, k + 1)
  }

  lemma {:induction false} FirstEmptyIs(ls: seq<Large>, k: nat, n: nat)
    requires k <= n <= |ls| && n <= 5 && (n == |ls| || n == 5 || ls[n].alloc == 0)
    requires forall j :: k <= j < n ==> ls[j].alloc != 0
    ensures FirstEmpty(ls, k) == n
    decreases n - k
  {
    if k < n {
      FirstEmptyIs(ls, k + 1, n);
    }
  }

  /** The region `p` in a new list element, if there is room for the element. */
  function PrependOf(s: PoolState, size: nat, p: int, q: int): (PoolState, int) {
    var (t, at) := SmallOf(s.(live := s.live[p := size]), LARGE_SIZE, true, q);
    if at == 0 then (s, 0) else (t.(large := [Large(at, p)] + t.large), p)
  }

  function LargeOf(s: PoolState, size: nat, p: int, q: int): (PoolState, int) {
    var n := FirstEmpty(s.large, 0);
    if p == 0 then (s, 0)
    else if n < |s.large| && n < 5
    then (s.(large := s.large[n := s.large[n].(alloc := p)], live := s.live[p := size]), p)
    else PrependOf(s, size, p, q)
  }

  /** palloc with `align`, pnalloc without. */
  function PallocOf(s: PoolState, size: nat, align: bool, p: int, q: int): (PoolState, int) {
    if size <= s.max then SmallOf(s, size, align, q) else LargeOf(s, size, p, q)
  }

  function PmemalignOf(s: PoolState, size: nat, p: int, q: int): (PoolState, int) {
    if p == 0 then (s, 0) else PrependOf(s, size, p, q)
  }

  function FirstAlloc(ls: seq<Large>, p: int, k: nat): nat
    decreases |ls| - k
  {
    if |ls| <= k || ls[k].alloc == p then k else FirstAlloc(ls, p, k + 1)
  }

  lemma {:induction false} FirstAllocIs(ls: seq<Large>, p: int, k: nat, n: nat)
    requires k <= n <= |ls| && (n < |ls| ==> ls[n].alloc == p) && forall j :: k <= j < n ==> ls[j].alloc != p
    ensures FirstAlloc(ls, p, k) == n
    decreases n - k
  {
    if k < n {
      FirstAllocIs(ls, p, k + 1, n);
    }
  }

  /** pfree of an address that is not null, and whether it is in the list. */
  function PfreeOf(s: PoolState, p: int): (PoolState, bool) {
    var k := FirstAlloc(s.large, p, 0);
    if k < |s.large|
    then (s.(large := s.large[k := s.large[k].(alloc := 0)], live := s.live - {p}), true)
    else (s, false)
  }

  /** A small request succeeds in the head block when that is empty and searches start there, whatever the
      system answers. */
  lemma EmptyHasRoom(s: PoolState, size: nat, align: bool, p: int, q: int)
    requires s.blocks != [] && s.current == 0 && s.blocks[0].last == s.blocks[0].base + 56 && s.blocks[0].base % 16 == 0
    requires size <= s.max <= s.psize - 56
    ensures PallocOf(s, size, align, p, q).1 == s.blocks[0].base + 56
  {
    var k := s.blocks[0].base / 16;
    AlignedMultiple(2 * k + 7);
    FirstRoomIs(s.blocks, 0, s.psize, size, align, 0);
  }

  // ---------- when a call fails ----------

  /** Every block has been set up, and the answers are null or addresses. */
  ghost predicate Sane(s: PoolState, p: int, q: int) {
    0 <= p && 0 <= q && forall i :: 0 <= i < |s.blocks| ==> 0 < s.blocks[i].last
  }

  /** No block that is searched has room. */
  ghost predicate Full(s: PoolState, size: nat, align: bool) {
    forall j :: s.current <= j < |s.blocks| ==> !HasRoom(s.psize, s.blocks[j], size, align)
  }

  lemma {:induction false} FirstRoomFinds(bs: seq<Block>, i: nat, psize: nat, size: nat, align: bool)
    ensures var r := FirstRoom(bs, i, psize, size, align);
            && (r < |bs| ==> i <= r && HasRoom(psize, bs[r], size, align))
            && (|bs| <= r <==> forall j :: i <= j < |bs| ==> !HasRoom(psize, bs[j], size, align))
    decreases |bs| - i
  {
    if i < |bs| && !HasRoom(psize, bs[i], size, align) {
      FirstRoomFinds(bs, i + 1, psize, size, align);
    }
  }

  /** A small request fails exactly when no block has room and the system refuses a new one. */
  lemma SmallFails(s: PoolState, size: nat, align: bool, p: int)
    requires Sane(s, 0, p)
    ensures 0 <= SmallOf(s, size, align, p).1
    ensures SmallOf(s, size, align, p).1 == 0 <==> Full(s, size, align) && p == 0
  {
    FirstRoomFinds(s.blocks, s.current, s.psize, size, align);
    var i := FirstRoom(s.blocks, s.current, s.psize, size, align);
    if i < |s.blocks| {
      AlignedUp(s.blocks[i].last, s.blocks[i].last);
    }
  }

  lemma PrependFails(s: PoolState, size: nat, p: int, q: int)
    requires Sane(s, p, q) && p != 0
    ensures 0 <= PrependOf(s, size, p, q).1
    ensures PrependOf(s, size, p, q).1 == 0 <==> Full(s, LARGE_SIZE, true) && q == 0
  {
    hide SmallOf;
    SmallFails(s.(live := s.live[p := size]), LARGE_SIZE, true, q);
  }

  /** A large one exactly when the system refuses the region, or when it needs a new list element, no
      block has room for that, and the system refuses a new block. */
  lemma PallocFails(s: PoolState, size: nat, align: bool, p: int, q: int)
    requires Sane(s, p, q)
    ensures 0 <= PallocOf(s, size, align, p, q).1
    ensures PallocOf(s, size, align, p, q).1 == 0 <==>
            if size <= s.max then Full(s, size, align) && q == 0
            else
              var n := FirstEmpty(s.large, 0);
              p == 0 || ((|s.large| <= n || 5 <= n) && Full(s, LARGE_SIZE, true) && q == 0)
  {
    hide SmallOf, PrependOf, FirstEmpty, Full;
    if size <= s.max {
      SmallFails(s, size, align, q);
    } else if p != 0 {
      PrependFails(s, size, p, q);
    }
  }

  lemma PmemalignFails(s: PoolState, size: nat, p: int, q: int)
    requires Sane(s, p, q)
    ensures PmemalignOf(s, size, p, q).1 == 0 <==> p == 0 || (Full(s, LARGE_SIZE, true) && q == 0)
  {
    hide PrependOf;
    if p != 0 {
      PrependFails(s, size, p, q);
    }
  }
}
