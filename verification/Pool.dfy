/** The pool allocator of palloc.c: what it hands out, and that no two pieces meet. */
module Pool {
  import opened Integers
  import opened PoolSpec

  datatype Home = InBlock(i: nat) | InLarge(base: int)

  /** Bytes handed out: `size` bytes from `addr`, to a caller or to hold an `element` of the list. */
  datatype Piece = Piece(addr: int, size: nat, home: Home, element: bool)

  /** The regions at `a` and `b` do not meet. */
  ghost predicate RegionsApart(live: map<int, nat>, a: int, b: int) {
    a in live && b in live && Apart(a, Span(live[a]), b, Span(live[b]))
  }

  ghost predicate Regions(live: map<int, nat>) {
    && (forall a :: a in live ==> 0 < a)
    && (forall a, b {:trigger RegionsApart(live, a, b)} ::
          a in live && b in live && a != b ==> RegionsApart(live, a, b))
  }

  lemma GrantKeepsRegions(live: map<int, nat>, p: int, size: nat, alignment: nat)
    requires Regions(live) && p != 0 && Grant(live, p, size, alignment)
    ensures p !in live && Regions(live[p := size])
  {
    forall a | a in live ensures a != p {
      assert ClearOf(live, a, p, size);
    }
    var more := live[p := size];
    forall a, b | a in more && b in more && a != b ensures RegionsApart(more, a, b) {
      assert a != p && b != p ==> RegionsApart(live, a, b);
      assert a != p ==> ClearOf(live, a, p, size);
      assert b != p ==> ClearOf(live, b, p, size);
    }
  }

  lemma FreeKeepsRegions(live: map<int, nat>, p: int)
    requires Regions(live)
    ensures Regions(live - {p})
  {
    var less := live - {p};
    forall a, b | a in less && b in less && a != b ensures RegionsApart(less, a, b) {
      assert RegionsApart(live, a, b);
    }
  }

  ghost predicate PiecesApart(pieces: map<nat, Piece>, a: nat, b: nat) {
    a in pieces && b in pieces && Apart(pieces[a].addr, pieces[a].size, pieces[b].addr, pieces[b].size)
  }

  ghost predicate AllApart(pieces: map<nat, Piece>) {
    forall a, b {:trigger PiecesApart(pieces, a, b)} ::
      a in pieces && b in pieces && a != b ==> PiecesApart(pieces, a, b)
  }

  lemma AddPiece(pieces: map<nat, Piece>, id: nat, q: Piece)
    requires AllApart(pieces) && id !in pieces
    requires forall a :: a in pieces ==> Apart(pieces[a].addr, pieces[a].size, q.addr, q.size)
    ensures AllApart(pieces[id := q])
  {
    var more := pieces[id := q];
    forall a, b | a in more && b in more && a != b ensures PiecesApart(more, a, b) {
      assert a != id && b != id ==> PiecesApart(pieces, a, b);
    }
  }

  lemma FewerPieces(pieces: map<nat, Piece>, fewer: map<nat, Piece>)
    requires AllApart(pieces) && forall id :: id in fewer ==> id in pieces && fewer[id] == pieces[id]
    ensures AllApart(fewer)
  {
    forall a, b | a in fewer && b in fewer && a != b ensures PiecesApart(fewer, a, b) {
      assert PiecesApart(pieces, a, b);
    }
  }

  function Bases(bs: seq<Block>): (r: seq<int>)
    ensures |r| == |bs| && forall i :: 0 <= i < |bs| ==> r[i] == bs[i].base
  {
    seq(|bs|, i requires 0 <= i < |bs| => bs[i].base)
  }

  function Allocs(ls: seq<Large>): (r: seq<int>)
    ensures |r| == |ls| && forall k :: 0 <= k < |ls| ==> r[k] == ls[k].alloc
  {
    seq(|ls|, k requires 0 <= k < |ls| => ls[k].alloc)
  }

  /** Every live region is owned by exactly one block or one list element, or is `pending`: just
      obtained, or about to be freed. They own nothing else. */
  ghost predicate Owned(live: map<int, nat>, bases: seq<int>, allocs: seq<int>, pending: int) {
    && (forall i, j :: 0 <= i < j < |bases| ==> bases[i] != bases[j])
    && (forall k, l :: 0 <= k < l < |allocs| && allocs[k] != 0 ==> allocs[k] != allocs[l])
    && (forall i, k :: 0 <= i < |bases| && 0 <= k < |allocs| ==> bases[i] != allocs[k])
    && (forall i :: 0 <= i < |bases| ==> bases[i] in live && bases[i] != pending)
    && (forall k :: 0 <= k < |allocs| && allocs[k] != 0 ==> allocs[k] in live && allocs[k] != pending)
    && (forall a :: a in live ==> a in bases || a in allocs || a == pending)
    && (pending != 0 ==> pending in live)
  }

  /** The failed counters along the chain, on a run without reset_pool: the part that is scanned
      has at most seven blocks. */
  ghost predicate Counters(blocks: seq<Block>, current: int) {
    var n := |blocks| - 1;
    && 0 <= current <= n <= current + 6
    && (forall i :: current <= i <= n ==> blocks[i].failed == if i + 1 < n then n - i - 1 else 0)
  }

  /** Blocks `a` and `b` differ in their failed counters only, which grew by one from `lo` to `hi`. */
  ghost predicate Counted(a: seq<Block>, b: seq<Block>, lo: int, hi: int) {
    && |a| == |b|
    && forall i :: 0 <= i < |a| ==> b[i] == a[i].(failed := a[i].failed + if lo <= i < hi then 1 else 0)
  }

  /** `current` has moved from `from` to `to`, just behind the last block that had failed often. */
  ghost predicate Skipped(a: seq<Block>, from: int, to: int) {
    && 0 <= from <= to < |a|
    && (to == from || a[to - 1].failed > 4)
    && (forall i :: to <= i < |a| - 1 ==> a[i].failed <= 4)
  }

  /** One more block keeps the shape of the counters. */
  lemma CountersStep(a: seq<Block>, b: seq<Block>, from: int, to: int, added: Block)
    requires Counters(a, from) && Counted(a, b, from, |a| - 1) && Skipped(a, from, to) && added.failed == 0
    ensures Counters(b + [added], to)
  {
    assert to < |a| - 1 ==> a[to].failed <= 4;
  }

  class Pool {
    const psize: nat
    const max: nat
    var blocks: seq<Block>   // the chain, in order
    var current: nat
    var large: seq<Large>    // the list, head first
    var live: map<int, nat>  // what the system allocator has given out and not got back

    ghost var pieces: map<nat, Piece> // everything handed out, including the list elements
    ghost var next: nat
    ghost var headers: seq<nat>       // the pieces that hold the list elements
    ghost var pending: int            // a region between the system and its owner, or 0
    ghost var wasReset: bool

    function S(): PoolState
      reads this`blocks, this`current, this`large, this`live
    {
      PoolState(psize, max, blocks, current, large, live)
    }

    function Header(i: nat): int { if i == 0 then POOL_HEADER else DATA_HEADER }

    ghost predicate BlockOk(i: nat)
      reads this`blocks, this`live
    {
      && i < |blocks|
      && var b := blocks[i];
      && 0 < b.base && b.base % POOL_ALIGNMENT == 0 && b.base in live && live[b.base] == psize
      && b.base + Header(i) <= b.last <= b.base + psize
    }

    /** A piece lies inside what its block has handed out, or is a large region. */
    ghost predicate PieceOk(id: nat)
      reads this`pieces, this`next, this`blocks, this`live, this`pending
    {
      && id in pieces && id < next
      && var p := pieces[id];
      && match p.home
         case InBlock(i) =>
           && i < |blocks| && blocks[i].base + Header(i) <= p.addr && p.addr + p.size <= blocks[i].base + psize
           && (p.size != 0 ==> p.addr + p.size <= blocks[i].last)
         case InLarge(base) =>
           && base in live && 0 < base && p.addr == base && p.size == live[base]
           && base !in Bases(blocks) && base != pending
    }

    /** A list element lies in a piece of the pool. */
    ghost predicate HeaderOk(k: nat)
      reads this`large, this`headers, this`pieces
    {
      && k < |large| && k < |headers| && headers[k] in pieces
      && HoldsElement(pieces[headers[k]], large[k])
    }

    ghost predicate Valid()
      reads this
    {
      Sound() && (!wasReset ==> Counters(blocks, current))
    }

    ghost predicate Sound()
      reads this
    {
      && psize % ALIGNMENT == 0 && MIN_POOL_SIZE <= psize < TWO64
      && max == (if psize - POOL_HEADER < MAX_ALLOC_FROM_POOL then psize - POOL_HEADER else MAX_ALLOC_FROM_POOL)
      && current < |blocks|
      && (forall i {:trigger BlockOk(i)} :: 0 <= i < |blocks| ==> BlockOk(i))
      && |headers| == |large|
      && (forall k {:trigger HeaderOk(k)} :: 0 <= k < |large| ==> HeaderOk(k))
      && (forall id {:trigger PieceOk(id)} :: id in pieces ==> PieceOk(id))
      && AllApart(pieces)
      && Owned(live, Bases(blocks), Allocs(large), pending) && Regions(live)
    }

    /** create_pool, when memalign has answered `p`. */
    constructor (size: nat, p: int)
      requires size % ALIGNMENT == 0 && MIN_POOL_SIZE <= size < TWO64
      requires 0 < p && p % POOL_ALIGNMENT == 0
      ensures Valid() && psize == size && pieces == map[] && live == map[p := size] && pending == 0 && !wasReset
      ensures blocks == [Block(p, p + POOL_HEADER, 0)] && current == 0 && large == []
      ensures max == if size - POOL_HEADER < MAX_ALLOC_FROM_POOL then size - POOL_HEADER else MAX_ALLOC_FROM_POOL
    {
      psize := size;
      max := if size - POOL_HEADER < MAX_ALLOC_FROM_POOL then size - POOL_HEADER else MAX_ALLOC_FROM_POOL;
      blocks := [Block(p, p + POOL_HEADER, 0)];
      current := 0;
      large := [];
      live := map[p := size];
      pieces := map[];
      next := 0;
      headers := [];
      pending := 0;
      wasReset := false;
      new;
      assert Bases(blocks)[0] == p;
    }

    /** create_pool, whatever memalign answers. */
    static method Create(size: nat, p: int) returns (pool: Pool?)
      requires size % ALIGNMENT == 0 && MIN_POOL_SIZE <= size < TWO64
      requires p == 0 || (0 < p && p % POOL_ALIGNMENT == 0)
      ensures pool == null <==> p == 0
      ensures pool != null ==>
                fresh(pool) && pool.Valid() && pool.pieces == map[] && pool.live == map[p := size] && pool.pending == 0
    {
      if p == 0 {
        return null;
      }
      pool := new Pool(size, p);
    }

    /** Hands out `size` bytes at `m`, at or above the top of block `i`. */
    ghost predicate Bumped(i: nat, m: int, size: nat, element: bool, old_blocks: seq<Block>,
                           old_pieces: map<nat, Piece>, id: nat)
      reads this
    {
      && i < |old_blocks| && blocks == old_blocks[i := old_blocks[i].(last := m + size)]
      && pieces == old_pieces[id := Piece(m, size, InBlock(i), element)]
    }

    /** No piece reaches into the unused part of block `i`. */
    lemma AboveTop(id: nat, i: nat, m: int, size: nat)
      requires Regions(live) && PieceOk(id) && BlockOk(i) && Owned(live, Bases(blocks), Allocs(large), pending)
      requires pieces[id].home.InBlock? ==> BlockOk(pieces[id].home.i)
      requires blocks[i].last <= m && m + size <= blocks[i].base + psize
      ensures Apart(pieces[id].addr, pieces[id].size, m, size)
    {
      var p, b := pieces[id], blocks[i].base;
      assert Bases(blocks)[i] == b;
      var a := if p.home.InBlock? then blocks[p.home.i].base else p.home.base;
      assert p.home.InBlock? ==> Bases(blocks)[p.home.i] == a;
      assert a != b ==> RegionsApart(live, a, b);
    }

    method Bump(i: nat, m: int, size: nat, ghost element: bool)
      requires Sound() && i < |blocks|
      requires blocks[i].last <= m && m + size <= blocks[i].base + psize
      modifies this`blocks, this`pieces, this`next
      ensures Sound() && Bumped(i, m, size, element, old(blocks), old(pieces), old(next)) && next == old(next) + 1
      ensures Counters(old(blocks), current) ==> Counters(blocks, current)
    {
      assert BlockOk(i);
      forall id | id in pieces ensures id != next && Apart(pieces[id].addr, pieces[id].size, m, size) {
        assert PieceOk(id);
        assert pieces[id].home.InBlock? ==> BlockOk(pieces[id].home.i);
        AboveTop(id, i, m, size);
      }
      AddPiece(pieces, next, Piece(m, size, InBlock(i), element));
      blocks := blocks[i := blocks[i].(last := m + size)];
      pieces := pieces[next := Piece(m, size, InBlock(i), element)];
      next := next + 1;
      assert Bases(blocks) == old(Bases(blocks));
      forall j | 0 <= j < |blocks| ensures BlockOk(j) {
        assert old(BlockOk(j));
      }
      forall k | 0 <= k < |large| ensures HeaderOk(k) { assert old(HeaderOk(k)); }
      forall id | id in pieces ensures PieceOk(id) {
        assert id in old(pieces) ==> old(PieceOk(id));
      }
    }

    /** The loop of palloc_block: one more failure for every block from `current` but the last, and
        `current` moves behind the blocks that have failed often. */
    method CountFailures()
      requires current < |blocks|
      modifies this`blocks, this`current
      ensures Counted(old(blocks), blocks, old(current), |blocks| - 1)
      ensures Skipped(old(blocks), old(current), current)
      ensures blocks == Failed(old(blocks), old(current))
      ensures current == SkipTo(old(blocks), old(current), |old(blocks)| - 1)
    {
      var p := current;
      while p + 1 < |blocks|
        invariant old(current) <= current <= p < |blocks|
        invariant Counted(old(blocks), blocks, old(current), p)
        invariant current == old(current) || old(blocks)[current - 1].failed > 4
        invariant forall i :: current <= i < p ==> old(blocks)[i].failed <= 4
        decreases |blocks| - p
      {
        if blocks[p].failed > 4 {
          current := p + 1;
        }
        blocks := blocks[p := blocks[p].(failed := blocks[p].failed + 1)];
        p := p + 1;
      }
      SkipIs(old(blocks), old(current), p, current);
    }

    /** The counters play no part in where things are. */
    twostate lemma CountersAreHints()
      requires old(Sound()) && current < |blocks|
      requires exists lo, hi :: Counted(old(blocks), blocks, lo, hi)
      requires live == old(live) && pieces == old(pieces) && next == old(next) && large == old(large)
      requires headers == old(headers) && pending == old(pending)
      ensures Sound()
    {
      assert Bases(blocks) == old(Bases(blocks));
      forall j | 0 <= j < |blocks| ensures BlockOk(j) { assert old(BlockOk(j)); }
      forall k | 0 <= k < |large| ensures HeaderOk(k) { assert old(HeaderOk(k)); }
      forall id | id in pieces ensures PieceOk(id) { assert old(PieceOk(id)); }
    }

    /** Chains a new, empty block at `p`. */
    method Chain(p: int)
      requires Sound() && p != 0 && Grant(live, p, psize, POOL_ALIGNMENT)
      modifies this`blocks, this`live
      ensures Sound() && p !in old(live) && live == old(live)[p := psize]
      ensures blocks == old(blocks) + [Block(p, p + DATA_HEADER, 0)]
    {
      GrantKeepsRegions(live, p, psize, POOL_ALIGNMENT);
      blocks := blocks + [Block(p, p + DATA_HEADER, 0)];
      live := live[p := psize];
      assert Bases(blocks) == old(Bases(blocks)) + [p];
      forall j | 0 <= j < |blocks| ensures BlockOk(j) {
        assert j < |blocks| - 1 ==> old(BlockOk(j));
      }
      forall k | 0 <= k < |large| ensures HeaderOk(k) { assert old(HeaderOk(k)); }
      forall id | id in pieces ensures PieceOk(id) { assert old(PieceOk(id)); }
      ChainOwned(old(live), old(Bases(blocks)), Allocs(large), pending, p, psize);
    }

    lemma ChainOwned(live0: map<int, nat>, bases: seq<int>, allocs: seq<int>, pending: int, p: int, size: nat)
      requires Owned(live0, bases, allocs, pending) && p != 0 && p !in live0
      ensures Owned(live0[p := size], bases + [p], allocs, pending)
    {
      forall k | 0 <= k < |allocs| ensures allocs[k] != p {
        assert allocs[k] == 0 || allocs[k] in live0;
      }
      var live1, bases1 := live0[p := size], bases + [p];
      assert bases1[|bases|] == p;
      forall a | a in live1 ensures a in bases1 || a in allocs || a == pending {
        assert a == p || a in live0;
      }
    }

    /** palloc_block, when memalign has answered `p`. The request that finds no room in the chain
        always fits the new block. */
    method PallocBlock(size: nat, p: int, ghost element: bool) returns (m: int)
      requires Valid() && size <= max && Grant(live, p, psize, POOL_ALIGNMENT)
      modifies this`blocks, this`current, this`live, this`pieces, this`next
      ensures Valid()
      ensures p == 0 ==>
                m == 0 && S() == old(S()) && pieces == old(pieces) && next == old(next)
      ensures p != 0 ==>
                && m == p + DATA_HEADER && m % ALIGNMENT == 0
                && p !in old(live) && live == old(live)[p := psize]
                && pieces == old(pieces)[old(next) := Piece(m, size, InBlock(|old(blocks)|), element)]
                && next == old(next) + 1
                && blocks == Failed(old(blocks), old(current)) + [Block(p, p + DATA_HEADER + size, 0)]
                && current == SkipTo(old(blocks), old(current), |old(blocks)| - 1)
    {
      if p == 0 {
        return 0;
      }
      m := Aligned(p + DATA_HEADER);
      NewBlockTop(p);
      hide Aligned, Failed, SkipTo, Owned, Regions, AllApart;
      ghost var counted := Failed(blocks, current);
      var n := |blocks|;
      CountAndChain(p);
      Bump(n, m, size, element);
      assert blocks == counted + [Block(p, m + size, 0)];
    }

    /** The failures are counted, and a new block comes at the end of the chain. */
    method CountAndChain(p: int)
      requires Valid() && p != 0 && Grant(live, p, psize, POOL_ALIGNMENT)
      modifies this`blocks, this`current, this`live
      ensures Valid() && p !in old(live) && live == old(live)[p := psize]
      ensures blocks == Failed(old(blocks), old(current)) + [Block(p, p + DATA_HEADER, 0)]
      ensures current == SkipTo(old(blocks), old(current), |old(blocks)| - 1)
    {
      CountFailures();
      CountersAreHints();
      if !wasReset {
        CountersStep(old(blocks), blocks, old(current), current, Block(p, p + DATA_HEADER, 0));
      }
      hide Failed, SkipTo;
      Chain(p);
    }

    /** The room left in a block is never negative, so reading it as a size_t changes nothing. */
    lemma RoomTest(b: Block, size: nat, align: bool)
      requires psize % ALIGNMENT == 0 && psize < TWO64 && b.base % POOL_ALIGNMENT == 0
      requires b.base <= b.last <= b.base + psize
      ensures b.last <= Start(b, align)
      ensures size <= (b.base + psize - Start(b, align)) % TWO64 <==> HasRoom(psize, b, size, align)
    {
      var end := b.base + psize;
      assert end % 8 == 0;
      AlignedUp(b.last, end);
    }

    /** Space of `size` bytes at `m` is in block `i`, the first from `cur` on with room, or in a new block
        behind the chain when there is none. */
    ghost predicate FirstFit(bs: seq<Block>, cur: nat, size: nat, align: bool, i: nat, m: int, p: int) {
      && cur <= i <= |bs|
      && (forall j :: cur <= j < i ==> !HasRoom(psize, bs[j], size, align))
      && (if i < |bs| then HasRoom(psize, bs[i], size, align) && m == Start(bs[i], align) else m == p + DATA_HEADER)
    }

    ghost predicate NoRoom(bs: seq<Block>, cur: nat, size: nat, align: bool) {
      forall j :: cur <= j < |bs| ==> !HasRoom(psize, bs[j], size, align)
    }

    /** That space has been taken. */
    ghost predicate Fitted(bs: seq<Block>, cur: nat, size: nat, align: bool, i: nat, m: int, p: int)
      reads this`blocks, this`current
    {
      && FirstFit(bs, cur, size, align, i, m, p)
      && (i < |bs| ==> blocks == bs[i := bs[i].(last := m + size)] && current == cur)
    }

    /** The scan of palloc_small: the first block from `current` on with room for the request, or the
        length of the chain. At most seven blocks are looked at while the pool is never reset. */
    method FindRoom(size: nat, align: bool) returns (i: nat, ghost steps: nat)
      requires Valid()
      ensures current <= i <= |blocks|
      ensures forall j :: current <= j < i ==> !HasRoom(psize, blocks[j], size, align)
      ensures i < |blocks| ==> HasRoom(psize, blocks[i], size, align) && blocks[i].last <= Start(blocks[i], align)
      ensures !wasReset ==> steps <= 7
    {
      i, steps := current, 0;
      while i < |blocks|
        invariant current <= i <= |blocks| && steps == i - current
        invariant forall j :: current <= j < i ==> !HasRoom(psize, blocks[j], size, align)
      {
        assert BlockOk(i);
        RoomTest(blocks[i], size, align);
        var m := if align then Aligned(blocks[i].last) else blocks[i].last;
        steps := steps + 1;
        if size <= (blocks[i].base + psize - m) % TWO64 {
          return;
        }
        i := i + 1;
      }
    }

    lemma StartAligned(b: Block)
      ensures b.last <= Start(b, true) && Start(b, true) % ALIGNMENT == 0
    {
      AlignedUp(b.last, b.last);
    }

    /** palloc_small, when memalign would answer `p` to a request for a new block. */
    method PallocSmall(size: nat, align: bool, p: int, ghost element: bool) returns (m: int)
      requires Valid() && size <= max && Grant(live, p, psize, POOL_ALIGNMENT)
      modifies this`blocks, this`current, this`live, this`pieces, this`next
      ensures Valid() && (S(), m) == SmallOf(old(S()), size, align, p)
      ensures m == 0 ==> p == 0 && S() == old(S()) && pieces == old(pieces) && next == old(next)
      ensures m == 0 ==> NoRoom(old(blocks), old(current), size, align)
      ensures m != 0 ==>
                && 0 < m && (align ==> m % ALIGNMENT == 0)
                && (live == old(live) || (p != 0 && p !in old(live) && live == old(live)[p := psize]))
                && next == old(next) + 1
                && exists i: nat :: Fitted(old(blocks), old(current), size, align, i, m, p)
                                    && pieces == old(pieces)[old(next) := Piece(m, size, InBlock(i), element)]
    {
      hide Owned, Regions, AllApart, FirstRoom, Failed, SkipTo, Aligned;
      var i, _ := FindRoom(size, align);
      ghost var before, s := blocks, S();
      FirstRoomIs(before, current, psize, size, align, i);
      if i < |blocks| {
        assert BlockOk(i);
        m := Start(blocks[i], align);
        StartAligned(blocks[i]);
        Bump(i, m, size, element);
      } else {
        m := PallocBlock(size, p, element);
      }
      assert m != 0 ==> Fitted(before, s.current, size, align, i, m, p);
    }

    // ---------- large allocations ----------

    /** The system allocator has answered `p`. */
    method Obtain(p: int, size: nat, alignment: nat)
      requires Valid() && pending == 0 && p != 0 && Grant(live, p, size, alignment)
      modifies this`live, this`pending
      ensures Valid() && p !in old(live) && live == old(live)[p := size] && pending == p
    {
      GrantKeepsRegions(live, p, size, alignment);
      live := live[p := size];
      pending := p;
      forall i | 0 <= i < |blocks| ensures BlockOk(i) { assert old(BlockOk(i)); }
      forall k | 0 <= k < |large| ensures HeaderOk(k) { assert old(HeaderOk(k)); }
      forall id | id in pieces ensures PieceOk(id) { assert old(PieceOk(id)); }
    }

    /** free() of the pending region. That it is live means that nothing is freed twice. */
    method Free(p: int)
      requires Valid() && p != 0 && p == pending && p in live
      modifies this`live, this`pending
      ensures Valid() && live == old(live) - {p} && pending == 0
    {
      FreeKeepsRegions(live, p);
      live := live - {p};
      pending := 0;
      forall i | 0 <= i < |blocks| ensures BlockOk(i) { assert old(BlockOk(i)) && Bases(blocks)[i] != p; }
      forall k | 0 <= k < |large| ensures HeaderOk(k) { assert old(HeaderOk(k)); }
      forall id | id in pieces ensures PieceOk(id) { assert old(PieceOk(id)); }
    }

    /** The pieces of before are still there, and the last one is new: `p`. */
    ghost predicate Gave(before: map<nat, Piece>, from: nat, p: Piece)
      reads this
    {
      && (forall id :: id in before ==> id in pieces && pieces[id] == before[id])
      && from < next && next - 1 in pieces && pieces[next - 1] == p
    }

    /** No piece reaches into the pending region. */
    lemma PendingApart(id: nat)
      requires Valid() && pending != 0 && id in pieces
      ensures pending in live && id < next
      ensures Apart(pieces[id].addr, pieces[id].size, pending, live[pending])
    {
      assert PieceOk(id);
      var q := pieces[id];
      assert q.home.InBlock? ==> BlockOk(q.home.i) && Bases(blocks)[q.home.i] != pending;
      var a := if q.home.InBlock? then blocks[q.home.i].base else q.home.base;
      assert a != pending && RegionsApart(live, a, pending);
    }

    ghost predicate HoldsElement(p: Piece, e: Large) {
      p.addr == e.at && p.size == LARGE_SIZE && p.home.InBlock? && p.element
    }

    /** Makes the pending region the property of a list element, and hands it out. */
    method Link(list: seq<Large>, ghost at: seq<nat>)
      requires Valid() && pending != 0
      requires Owned(live, Bases(blocks), Allocs(list), 0) && |at| == |list|
      requires forall k :: 0 <= k < |list| ==> at[k] in pieces && HoldsElement(pieces[at[k]], list[k])
      modifies this`large, this`pending, this`pieces, this`next, this`headers
      ensures Valid() && large == list && pending == 0 && next == old(next) + 1
      ensures Gave(old(pieces), old(next), Piece(old(pending), live[old(pending)], InLarge(old(pending)), false))
    {
      ghost var q := Piece(pending, live[pending], InLarge(pending), false);
      forall id | id in pieces ensures id != next && Apart(pieces[id].addr, pieces[id].size, q.addr, q.size) {
        PendingApart(id);
      }
      AddPiece(pieces, next, q);
      large, headers := list, at;
      pending := 0;
      pieces := pieces[next := q];
      next := next + 1;
      LinkedIsSound(q);
    }

    twostate lemma LinkedIsSound(new q: Piece)
      requires old(Sound()) && old(pending) != 0
      requires q == Piece(old(pending), old(live[pending]), InLarge(old(pending)), false)
      requires live == old(live) && blocks == old(blocks) && current == old(current) && pending == 0
      requires pieces == old(pieces)[old(next) := q] && next == old(next) + 1 && AllApart(pieces)
      requires Owned(live, Bases(blocks), Allocs(large), 0) && |headers| == |large|
      requires forall k :: 0 <= k < |large| ==>
                headers[k] in old(pieces) && HoldsElement(old(pieces)[headers[k]], large[k])
      requires forall id :: id in old(pieces) ==> id != old(next)
      ensures Sound()
    {
      assert old(pending) !in Bases(blocks);
      hide Owned, AllApart;
      forall i | 0 <= i < |blocks| ensures BlockOk(i) { assert old(BlockOk(i)); }
      forall k | 0 <= k < |large| ensures HeaderOk(k) { assert headers[k] in old(pieces); }
      forall id | id in pieces ensures PieceOk(id) { assert id in old(pieces) ==> old(PieceOk(id)); }
    }

    /** Space for a list element, in the pool itself. */
    method PallocElement(q: int) returns (at: int)
      requires Valid() && Grant(live, q, psize, POOL_ALIGNMENT)
      modifies this`blocks, this`current, this`live, this`pieces, this`next
      ensures Valid() && (S(), at) == SmallOf(old(S()), LARGE_SIZE, true, q)
      ensures at == 0 ==> q == 0 && S() == old(S()) && pieces == old(pieces) && next == old(next)
      ensures at != 0 ==>
                && old(next) !in old(pieces) && next == old(next) + 1
                && (live == old(live) || (q != 0 && q !in old(live) && live == old(live)[q := psize]))
                && exists i: nat :: pieces == old(pieces)[old(next) := Piece(at, LARGE_SIZE, InBlock(i), true)]
    {
      hide Owned, Regions, Grant, Counters, Fitted, SmallOf;
      forall i | i in pieces ensures i != next { assert PieceOk(i); }
      at := PallocSmall(LARGE_SIZE, true, q, true);
    }

    /** A new list element, in the pool itself, for the pending region; when there is no room for it
        the region goes back. */
    method Prepend(p: int, q: int) returns (r: int)
      requires Valid() && pending == p != 0 && Grant(live, q, psize, POOL_ALIGNMENT)
      modifies this
      ensures Valid() && pending == 0
      ensures var (t, at) := SmallOf(old(S()), LARGE_SIZE, true, q);
              (S(), r) == if at == 0 then (old(S()).(live := old(live) - {p}), 0)
                          else (t.(large := [Large(at, p)] + t.large), p)
      ensures r == 0 ==> q == 0 && live == old(live) - {p} && pieces == old(pieces)
      ensures r != 0 ==> r == p && Gave(old(pieces), old(next), Piece(p, old(live[p]), InLarge(p), false))
      ensures if r == 0 then large == old(large)
              else |large| == |old(large)| + 1 && large[1..] == old(large) && large[0].alloc == p
    {
      hide Owned, Regions, Grant, Counters, Sound, SmallOf;
      ghost var id := next;
      PendingIsLive();
      var at := PallocElement(q);
      if at == 0 {
        PendingIsLive();
        Free(p);
        return 0;
      }
      Enter(at, id, p);
      r := p;
    }

    lemma PendingIsLive()
      requires Valid() && pending != 0
      ensures pending in live
    {
    }

    /** The element at `at` takes the pending region and becomes the head of the list. */
    method Enter(at: int, ghost id: nat, p: int)
      requires Valid() && pending == p != 0 && id in pieces && HoldsElement(pieces[id], Large(at, p))
      modifies this`large, this`pending, this`pieces, this`next, this`headers
      ensures Valid() && pending == 0 && large == [Large(at, p)] + old(large) && next == old(next) + 1 && p in live
      ensures Gave(old(pieces), old(next), Piece(p, live[p], InLarge(p), false))
    {
      hide Owned, Regions, Grant, Counters;
      forall k | 0 <= k < |large| ensures headers[k] in pieces && HoldsElement(pieces[headers[k]], large[k]) {
        assert HeaderOk(k);
      }
      PrependOwned(live, Bases(blocks), Allocs(large), p);
      OwnedPending(live, Bases(blocks), Allocs(large), p);
      var list := [Large(at, p)] + large;
      assert Allocs(list) == [p] + Allocs(large);
      Link(list, [id] + headers);
    }

    lemma OwnedPending(live: map<int, nat>, bases: seq<int>, allocs: seq<int>, p: int)
      requires Owned(live, bases, allocs, p) && p != 0
      ensures p in live
    {
    }

    lemma PrependOwned(live: map<int, nat>, bases: seq<int>, allocs: seq<int>, p: int)
      requires Owned(live, bases, allocs, p) && p != 0 && Regions(live)
      ensures Owned(live, bases, [p] + allocs, 0)
    {
      var all := [p] + allocs;
      assert all[0] == p;
      forall a | a in live ensures a in bases || a in all {
        assert a in allocs ==> a in all;
      }
    }

    lemma FillOwned(live: map<int, nat>, bases: seq<int>, allocs: seq<int>, n: nat, p: int)
      requires Owned(live, bases, allocs, p) && p != 0 && n < |allocs| && allocs[n] == 0
      requires Regions(live)
      ensures Owned(live, bases, allocs[n := p], 0)
    {
      var all := allocs[n := p];
      assert all[n] == p;
      forall a | a in live ensures a in bases || a in all {
        if a in allocs {
          var k :| 0 <= k < |allocs| && allocs[k] == a;
          assert all[k] == a;
        }
      }
    }

    /** Region `p` has taken the first empty element among the first five, or a new one at the head when
        none of them is empty. */
    ghost predicate Entered(before: seq<Large>, after: seq<Large>, p: int) {
      if exists k :: 0 <= k < |before| && k < 5 && before[k].alloc == 0 then
        exists n :: 0 <= n < |before| && n < 5 && before[n].alloc == 0 && after == before[n := before[n].(alloc := p)]
                    && forall k :: 0 <= k < n ==> before[k].alloc != 0
      else |after| == |before| + 1 && after[1..] == before && after[0].alloc == p
    }

    /** palloc_large: `p` is the answer to the request itself, `q` to a request for a new block. Only
        the first five list elements are searched for an empty one. */
    method PallocLarge(size: nat, p: int, q: int) returns (r: int)
      requires Valid() && pending == 0 && Grant(live, p, size, ALIGNMENT)
      requires p != 0 ==> Grant(live[p := size], q, psize, POOL_ALIGNMENT)
      modifies this
      ensures Valid() && pending == 0 && (S(), r) == LargeOf(old(S()), size, p, q)
      ensures r == 0 ==> live == old(live) && pieces == old(pieces) && (p == 0 || q == 0)
      ensures r != 0 ==> r == p && Gave(old(pieces), old(next), Piece(p, size, InLarge(p), false))
      ensures if r == 0 then large == old(large) else Entered(old(large), large, p)
    {
      if p == 0 {
        return 0;
      }
      hide SmallOf, FirstEmpty;
      ghost var s := S();
      Obtain(p, size, ALIGNMENT);
      assert s.live[p := size] - {p} == s.live;
      var n := FindEmpty();
      if n < |large| && n < 5 {
        FillElement(n, p);
        return p;
      }
      r := Prepend(p, q);
    }

    /** An empty element takes the pending region. */
    method FillElement(n: nat, p: int)
      requires Valid() && pending == p != 0 && n < |large| && large[n].alloc == 0 && p in live
      modifies this`large, this`pending, this`pieces, this`next, this`headers
      ensures Valid() && pending == 0 && large == old(large)[n := old(large)[n].(alloc := p)]
      ensures Gave(old(pieces), old(next), Piece(p, live[p], InLarge(p), false))
    {
      var list := large[n := large[n].(alloc := p)];
      FillOwned(live, Bases(blocks), Allocs(large), n, p);
      assert Allocs(list) == Allocs(large)[n := p];
      forall k | 0 <= k < |large| ensures headers[k] in pieces && HeaderOk(k) { assert HeaderOk(k); }
      Link(list, headers);
    }

    /** The first empty element among the first five, or the end of the search. */
    method FindEmpty() returns (n: nat)
      ensures n <= |large| && n <= 5
      ensures n < |large| && n < 5 ==> large[n].alloc == 0
      ensures forall k :: 0 <= k < n ==> large[k].alloc != 0
      ensures n == FirstEmpty(large, 0)
    {
      n := 0;
      while n < |large|
        invariant n <= |large| && n <= 4
        invariant forall k :: 0 <= k < n ==> large[k].alloc != 0
      {
        if large[n].alloc == 0 {
          FirstEmptyIs(large, 0, n);
          return;
        }
        n := n + 1;
        if n > 4 {
          FirstEmptyIs(large, 0, n);
          return;
        }
      }
      FirstEmptyIs(large, 0, n);
    }

    /** pmemalign: an aligned region of its own, entered in the list. */
    method Pmemalign(size: nat, alignment: nat, p: int, q: int) returns (r: int)
      requires Valid() && pending == 0 && 0 < alignment && Grant(live, p, size, alignment)
      requires p != 0 ==> Grant(live[p := size], q, psize, POOL_ALIGNMENT)
      modifies this
      ensures Valid() && pending == 0 && (S(), r) == PmemalignOf(old(S()), size, p, q)
      ensures r == 0 ==> live == old(live) && pieces == old(pieces)
      ensures if r == 0 then large == old(large)
              else |large| == |old(large)| + 1 && large[1..] == old(large) && large[0].alloc == p
      ensures r != 0 ==> r == p && p % alignment == 0 && Gave(old(pieces), old(next), Piece(p, size, InLarge(p), false))
    {
      if p == 0 {
        return 0;
      }
      hide SmallOf;
      ghost var s := S();
      Obtain(p, size, alignment);
      assert s.live[p := size] - {p} == s.live;
      r := Prepend(p, q);
    }

    // ---------- the public interface ----------

    /** palloc with `align`, pnalloc without. */
    method Palloc(size: nat, align: bool, p: int, q: int) returns (m: int)
      requires Valid() && pending == 0
      requires if size <= max then Grant(live, q, psize, POOL_ALIGNMENT)
               else Grant(live, p, size, ALIGNMENT) && (p != 0 ==> Grant(live[p := size], q, psize, POOL_ALIGNMENT))
      modifies this
      ensures Valid() && pending == 0 && (S(), m) == PallocOf(old(S()), size, align, p, q)
      ensures m == 0 ==> live == old(live) && pieces == old(pieces) && (q == 0 || (max < size && p == 0))
      ensures m != 0 ==>
                && (align ==> m % ALIGNMENT == 0)
                && exists h :: Gave(old(pieces), old(next), Piece(m, size, h, false)) && (size <= max <==> h.InBlock?)
      ensures m == 0 && size <= max ==> NoRoom(old(blocks), old(current), size, align)
      ensures m != 0 && size <= max ==> exists i: nat :: Fitted(old(blocks), old(current), size, align, i, m, q)
    {
      forall id | id in pieces ensures id != next { assert PieceOk(id); }
      ghost var before, id := pieces, next;
      if size <= max {
        m := PallocSmall(size, align, q, false);
        assert m != 0 ==> Gave(before, id, pieces[id]);
      } else {
        m := PallocLarge(size, p, q);
      }
    }

    /** pfree: frees the first list element with this region; -1 when there is none. The null pointer
        matches an element that is empty already, and nothing happens. */
    method Pfree(p: int) returns (r: int)
      requires Valid() && pending == 0
      modifies this
      ensures Valid() && pending == 0 && (p != 0 ==> (S(), r == 0) == PfreeOf(old(S()), p))
      ensures r == (if exists k :: 0 <= k < |old(large)| && old(large)[k].alloc == p then 0 else -1)
      ensures if r == 0 && p != 0 then
                && p in old(live) && live == old(live) - {p}
                && pieces == map id | id in old(pieces) && old(pieces)[id].home != InLarge(p) :: old(pieces)[id]
              else live == old(live) && pieces == old(pieces)
    {
      var k := 0;
      while k < |large|
        invariant 0 <= k <= |large| && unchanged(this)
        invariant forall j :: 0 <= j < k ==> large[j].alloc != p
      {
        if large[k].alloc == p {
          FirstAllocIs(large, p, 0, k);
          if p != 0 {
            Unlink(k);
            Free(p);
          }
          return 0;
        }
        k := k + 1;
      }
      FirstAllocIs(large, p, 0, k);
      return -1;
    }

    /** Empties list element `k`; its region is pending from then on, and no piece any more. */
    method Unlink(k: nat)
      requires Valid() && pending == 0 && k < |large| && large[k].alloc != 0
      modifies this`large, this`pending, this`pieces
      ensures Valid() && pending == old(large[k].alloc) && pending in live
      ensures large == old(large)[k := old(large)[k].(alloc := 0)]
      ensures pieces == map id | id in old(pieces) && old(pieces)[id].home != InLarge(pending) :: old(pieces)[id]
    {
      ghost var p := large[k].alloc;
      assert Allocs(large)[k] == p;
      UnlinkOwned(live, Bases(blocks), Allocs(large), k);
      large := large[k := large[k].(alloc := 0)];
      pending := p;
      assert Allocs(large) == old(Allocs(large))[k := 0];
      pieces := map id | id in pieces && pieces[id].home != InLarge(p) :: pieces[id];
      FewerPieces(old(pieces), pieces);
      forall i | 0 <= i < |blocks| ensures BlockOk(i) { assert old(BlockOk(i)); }
      forall j | 0 <= j < |large| ensures HeaderOk(j) { assert old(HeaderOk(j)); }
      forall id | id in pieces ensures PieceOk(id) { assert old(PieceOk(id)); }
    }

    lemma UnlinkOwned(live: map<int, nat>, bases: seq<int>, allocs: seq<int>, k: nat)
      requires Owned(live, bases, allocs, 0) && k < |allocs| && allocs[k] != 0 && Regions(live)
      ensures Owned(live, bases, allocs[k := 0], allocs[k])
    {
      var all := allocs[k := 0];
      forall a | a in live ensures a in bases || a in all || a == allocs[k] {
        if a in allocs && a != allocs[k] {
          var j :| 0 <= j < |allocs| && allocs[j] == a;
          assert all[j] == a;
        }
      }
      forall l | 0 <= l < |all| && all[l] != 0 ensures all[l] != allocs[k] {
        if l < k { assert allocs[l] != allocs[k]; } else { assert allocs[k] != allocs[l]; }
      }
    }

    /** The loop that frees the large regions, in reset_pool and destroy_pool. */
    method FreeLarge()
      requires Valid() && pending == 0
      modifies this`large, this`pending, this`pieces, this`live
      ensures Valid() && pending == 0 && |large| == old(|large|)
      ensures forall a :: a in live <==> a in Bases(blocks)
      ensures forall a :: a in live ==> a in old(live) && live[a] == old(live)[a]
      ensures forall k :: 0 <= k < |large| ==> large[k].alloc == 0
    {
      var k := 0;
      while k < |large|
        invariant Valid() && pending == 0 && 0 <= k <= |large| == old(|large|)
        invariant forall a :: a in live ==> a in old(live) && live[a] == old(live)[a]
        invariant forall j :: 0 <= j < k ==> large[j].alloc == 0
      {
        var p := large[k].alloc;
        if p != 0 {
          Unlink(k);
          Free(p);
        }
        k := k + 1;
      }
      forall a | a in live ensures a in Bases(blocks) {
        assert a in Allocs(large) ==> a == 0;
      }
      forall a | a in Bases(blocks) ensures a in live {
      }
    }

    /** The loop of reset_pool over the chain: every block starts over, with the room of a pool header
        left out in each. */
    method RewindBlocks()
      modifies this`blocks
      ensures |blocks| == old(|blocks|)
      ensures forall i :: 0 <= i < |blocks| ==>
                blocks[i] == Block(old(blocks)[i].base, old(blocks)[i].base + POOL_HEADER, 0)
    {
      var i := 0;
      while i < |blocks|
        invariant 0 <= i <= |blocks| == old(|blocks|)
        invariant forall j :: 0 <= j < |blocks| ==>
                    blocks[j] == (if j < i then Block(old(blocks)[j].base, old(blocks)[j].base + POOL_HEADER, 0)
                                  else old(blocks)[j])
      {
        blocks := blocks[i := Block(blocks[i].base, blocks[i].base + POOL_HEADER, 0)];
        i := i + 1;
      }
    }

    method ResetPool()
      requires Valid() && pending == 0
      modifies this
      ensures Valid() && pending == 0 && pieces == map[] && large == [] && current == 0
      ensures Bases(blocks) == old(Bases(blocks)) && forall a :: a in live <==> a in Bases(blocks)
      ensures |blocks| == |old(blocks)|
      ensures forall i :: 0 <= i < |blocks| ==> blocks[i] == Block(old(blocks)[i].base, old(blocks)[i].base + 56, 0)
      ensures forall size: nat, align, p, q :: size <= max ==> PallocOf(S(), size, align, p, q).1 == blocks[0].base + 56
    {
      FreeLarge();
      ghost var bases := Bases(blocks);
      label L:
      RewindBlocks();
      current, large := 0, [];
      pieces, headers, wasReset := map[], [], true;
      assert Bases(blocks) == bases;
      forall i | 0 <= i < |blocks| ensures BlockOk(i) { assert old@L(BlockOk(i)); }
      forall size: nat, align, p, q | size <= max ensures PallocOf(S(), size, align, p, q).1 == blocks[0].base + 56 {
        assert BlockOk(0);
        EmptyHasRoom(S(), size, align, p, q);
      }
    }

    /** The loop of destroy_pool over the chain. */
    method FreeBlocks()
      requires forall i, j :: 0 <= i < j < |blocks| ==> blocks[i].base != blocks[j].base
      requires forall i :: 0 <= i < |blocks| ==> blocks[i].base in live
      requires forall a :: a in live ==> exists i :: 0 <= i < |blocks| && blocks[i].base == a
      modifies this`live
      ensures live == map[]
    {
      var i := 0;
      while i < |blocks|
        invariant 0 <= i <= |blocks|
        invariant forall j :: i <= j < |blocks| ==> blocks[j].base in live
        invariant forall a :: a in live ==> exists j :: i <= j < |blocks| && blocks[j].base == a
      {
        FreeBlock(blocks[i].base);
        i := i + 1;
      }
      forall a ensures a !in live {
      }
      assert live == map[];
    }

    /** destroy_pool: every region goes back, none of them twice. */
    method DestroyPool()
      requires Valid() && pending == 0
      modifies this
      ensures live == map[]
    {
      FreeLarge();
      forall i, j | 0 <= i < j < |blocks| ensures blocks[i].base != blocks[j].base {
        assert Bases(blocks)[i] != Bases(blocks)[j];
      }
      forall i | 0 <= i < |blocks| ensures blocks[i].base in live {
        assert Bases(blocks)[i] in Bases(blocks);
      }
      FreeBlocks();
    }

    /** free() of a block. */
    method FreeBlock(base: int)
      requires base in live
      modifies this`live
      ensures live == old(live) - {base}
    {
      live := live - {base};
    }

    // ---------- the top of the head block, for array.c ----------

    /** A piece that ends where the used part of the head block ends; an empty one is in some block. */
    ghost predicate AtTop(id: nat)
      reads this`pieces, this`blocks
    {
      && blocks != [] && id in pieces && pieces[id].addr + pieces[id].size == blocks[0].last
      && (pieces[id].size == 0 ==> pieces[id].home.InBlock?)
    }

    /** A piece that ends where the used part of the head block ends lies in the head block. */
    lemma TopIsInHead(id: nat)
      requires Valid() && AtTop(id)
      ensures pieces[id].home == InBlock(0)
    {
      assert PieceOk(id) && BlockOk(0);
      var p := pieces[id];
      assert p.home.InBlock? ==> BlockOk(p.home.i) && Bases(blocks)[p.home.i] == blocks[p.home.i].base;
      var x, y := if p.home.InBlock? then blocks[p.home.i].base else p.home.base, blocks[0].base;
      assert Bases(blocks)[0] == y;
      assert x != y ==> RegionsApart(live, x, y);
    }

    /** The other pieces end below a piece at the top. */
    lemma BelowTop(id: nat, other: nat)
      requires Valid() && AtTop(id)
      requires other in pieces && other != id && 0 < pieces[other].size && pieces[other].home == InBlock(0)
      ensures pieces[other].addr + pieces[other].size <= pieces[id].addr
    {
      assert PieceOk(id) && PieceOk(other) && PiecesApart(pieces, id, other);
    }

    /** Extends the piece at the top of the head block by `extra` bytes. */
    method GrowTop(ghost id: nat, extra: nat)
      requires Valid() && AtTop(id)
      requires blocks[0].last + extra <= blocks[0].base + psize && !pieces[id].element
      modifies this`blocks, this`pieces
      ensures Valid() && pieces == old(pieces)[id := old(pieces)[id].(size := old(pieces)[id].size + extra)]
      ensures blocks == old(blocks)[0 := old(blocks)[0].(last := old(blocks)[0].last + extra)]
    {
      TopIsInHead(id);
      ghost var less := pieces - {id};
      FewerPieces(pieces, less);
      ghost var p := pieces[id].(size := pieces[id].size + extra);
      forall o | o in less ensures Apart(less[o].addr, less[o].size, p.addr, p.size) {
        TopApart(id, o, extra);
      }
      AddPiece(less, id, p);
      assert less[id := p] == pieces[id := p];
      blocks := blocks[0 := blocks[0].(last := blocks[0].last + extra)];
      pieces := pieces[id := p];
      assert Bases(blocks) == old(Bases(blocks));
      hide AllApart, Owned;
      forall i | 0 <= i < |blocks| ensures BlockOk(i) { assert old(BlockOk(i)); }
      forall k | 0 <= k < |large| ensures HeaderOk(k) { assert old(HeaderOk(k)); }
      forall o | o in pieces ensures PieceOk(o) { assert old(PieceOk(o)); }
    }

    lemma TopApart(id: nat, o: nat, extra: nat)
      requires Valid() && AtTop(id)
      requires blocks[0].last + extra <= blocks[0].base + psize && o in pieces && o != id
      ensures Apart(pieces[o].addr, pieces[o].size, pieces[id].addr, pieces[id].size + extra)
    {
      TopIsInHead(id);
      assert PieceOk(id) && PieceOk(o) && BlockOk(0) && PiecesApart(pieces, id, o);
      assert pieces[o].home.InBlock? ==> BlockOk(pieces[o].home.i);
      AboveTop(o, 0, blocks[0].last, extra);
    }

    /** Gives back the piece at the top of the head block. */
    method DropTop(ghost id: nat, last: int)
      requires Valid() && AtTop(id)
      requires last == pieces[id].addr && !pieces[id].element
      modifies this`blocks, this`pieces
      ensures Valid() && pieces == old(pieces) - {id}
      ensures blocks == old(blocks)[0 := old(blocks)[0].(last := last)]
    {
      TopIsInHead(id);
      assert PieceOk(id);
      forall o | o in pieces && o != id && 0 < pieces[o].size && pieces[o].home == InBlock(0)
        ensures pieces[o].addr + pieces[o].size <= last
      {
        BelowTop(id, o);
      }
      FewerPieces(pieces, pieces - {id});
      blocks := blocks[0 := blocks[0].(last := last)];
      pieces := pieces - {id};
      assert Bases(blocks) == old(Bases(blocks));
      hide AllApart, Owned;
      forall i | 0 <= i < |blocks| ensures BlockOk(i) { assert old(BlockOk(i)); }
      forall k | 0 <= k < |large| ensures HeaderOk(k) { assert old(HeaderOk(k)); }
      forall o | o in pieces ensures PieceOk(o) { assert old(PieceOk(o)); }
    }

    /** At the address of a piece that is not empty no other piece is a large one. */
    lemma OneLarge(a: nat, b: nat)
      requires Valid() && a in pieces && b in pieces && a != b && 0 < pieces[a].size
      ensures pieces[b].home != InLarge(pieces[a].addr)
    {
      assert PieceOk(a) && PieceOk(b) && PiecesApart(pieces, a, b);
      var p := pieces[a];
      assert p.home.InBlock? ==> BlockOk(p.home.i) && Bases(blocks)[p.home.i] == blocks[p.home.i].base;
      var x := if p.home.InBlock? then blocks[p.home.i].base else p.home.base;
      assert p.addr in live && x != p.addr ==> RegionsApart(live, x, p.addr);
    }

    /** A piece that is not empty is a large one if and only if the list has its address. */
    lemma LargeIsListed(id: nat)
      requires Valid() && pending == 0 && id in pieces && 0 < pieces[id].size
      ensures pieces[id].home.InLarge? <==> exists k :: 0 <= k < |large| && large[k].alloc == pieces[id].addr
    {
      assert PieceOk(id);
      var p := pieces[id];
      var x := if p.home.InBlock? then blocks[p.home.i].base else p.home.base;
      assert p.home.InBlock? ==> BlockOk(p.home.i) && Bases(blocks)[p.home.i] == x;
      assert p.addr in live && x != p.addr ==> RegionsApart(live, x, p.addr);
      if p.home.InLarge? {
        assert p.addr in Allocs(large);
      }
      assert forall k :: 0 <= k < |large| ==> Allocs(large)[k] == large[k].alloc;
    }

    /** Every two pieces are apart, and every piece is apart from every block header. */
    lemma Disjoint(a: nat, b: nat, i: nat)
      requires Valid() && a in pieces && b in pieces && i < |blocks|
      ensures a != b ==> Apart(pieces[a].addr, pieces[a].size, pieces[b].addr, pieces[b].size)
      ensures Apart(pieces[a].addr, pieces[a].size, blocks[i].base, Header(i))
    {
      assert a != b ==> PiecesApart(pieces, a, b);
      assert PieceOk(a) && BlockOk(i);
      var p := pieces[a];
      assert p.home.InBlock? ==> BlockOk(p.home.i);
      var x, y := if p.home.InBlock? then blocks[p.home.i].base else p.home.base, blocks[i].base;
      assert Bases(blocks)[i] == y && (p.home.InBlock? ==> Bases(blocks)[p.home.i] == x);
      assert x != y ==> RegionsApart(live, x, y);
    }
  }
}
