/** The growable array of array.c over a pool. */
module PoolArray {
  import opened PoolSpec
  import opened Pool

  const ARRAY_HEADER := 40  // sizeof(array_t)

  /** Byte-addressed memory. */
  class Memory {
    var at: int -> int

    constructor ()
    {
      at := _ => 0;
    }

    ghost function Bytes(from: int, n: nat): (s: seq<int>)
      reads this
      ensures |s| == n && forall i :: 0 <= i < n ==> s[i] == at(from + i)
    {
      seq(n, i requires 0 <= i < n reads this => at(from + i))
    }

    /** A write to a range leaves the bytes of a range apart from it alone. */
    twostate lemma Untouched(new m: int, new n: nat, new addr: int, new len: nat)
      requires forall a {:trigger at(a)} :: !(m <= a < m + n) ==> at(a) == old(at(a))
      requires Apart(m, n, addr, len)
      ensures Bytes(addr, len) == old(Bytes(addr, len))
    {
      var s, t := Bytes(addr, len), old(Bytes(addr, len));
      assert forall i :: 0 <= i < len ==> s[i] == at(addr + i) == old(at(addr + i)) == t[i];
    }

    twostate lemma Wrote(new addr: int, new len: nat, new from: nat, new bytes: seq<int>)
      requires from + |bytes| <= len
      requires forall a {:trigger at(a)} ::
                 at(a) == if addr + from <= a < addr + from + |bytes| then bytes[a - addr - from] else old(at(a))
      ensures Bytes(addr, len) == old(Bytes(addr, len))[..from] + bytes + old(Bytes(addr, len))[from + |bytes|..]
    {
      var s, t := Bytes(addr, len), old(Bytes(addr, len));
      assert forall i :: 0 <= i < len ==> s[i] == at(addr + i) && t[i] == old(at(addr + i));
    }

    /** A write inside one piece leaves the bytes of all others alone. */
    twostate lemma WroteInside(new pieces: map<nat, Piece>, new id: nat, new m: int, new n: nat)
      requires AllApart(pieces) && id in pieces && pieces[id].addr <= m && m + n <= pieces[id].addr + pieces[id].size
      requires forall a {:trigger at(a)} :: !(m <= a < m + n) ==> at(a) == old(at(a))
      ensures forall o :: o in pieces && o != id ==>
                Bytes(pieces[o].addr, pieces[o].size) == old(Bytes(pieces[o].addr, pieces[o].size))
    {
      forall o | o in pieces && o != id
        ensures Bytes(pieces[o].addr, pieces[o].size) == old(Bytes(pieces[o].addr, pieces[o].size))
      {
        assert PiecesApart(pieces, id, o);
        Untouched(m, n, pieces[o].addr, pieces[o].size);
      }
    }

    /** memcpy, which demands that the two ranges do not overlap. */
    method Copy(to: int, from: int, n: nat)
      requires Apart(to, n, from, n)
      modifies this
      ensures forall a :: at(a) == if to <= a < to + n then old(at(a - to + from)) else old(at(a))
    {
      var before := at;
      at := a => if to <= a < to + n then before(a - to + from) else before(a);
    }

    /** What a caller writes. */
    method Store(to: int, bytes: seq<int>)
      modifies this
      ensures forall a :: at(a) == if to <= a < to + |bytes| then bytes[a - to] else old(at(a))
    {
      var before := at;
      at := a => if to <= a < to + |bytes| then bytes[a - to] else before(a);
    }
  }

  /** What the system allocator answers to the requests of one call: for a large region, and for a
      new block. */
  datatype Answers = Answers(p: int, q: int)

  /** The answers are among those the system may give to a request of palloc. */
  predicate AnsweredIn(s: PoolState, size: nat, a: Answers) {
    if size <= s.max then Grant(s.live, a.q, s.psize, POOL_ALIGNMENT)
    else
      && Grant(s.live, a.p, size, ALIGNMENT)
      && (a.p != 0 ==> Grant(s.live[a.p := size], a.q, s.psize, POOL_ALIGNMENT))
  }

  predicate Answered(pool: Pool, size: nat, a: Answers)
    reads pool
  {
    AnsweredIn(pool.S(), size, a)
  }

  // ---------- the calls of array.c as functions ----------

  /** The fields of an array. */
  datatype Shape = Shape(size: nat, elts: int, nelts: nat, nalloc: nat)

  predicate GrowsIn(s: PoolState, r: Shape, grow: nat) {
    && s.blocks != [] && r.elts + r.size * r.nalloc == s.blocks[0].last
    && s.blocks[0].last + r.size * grow <= s.blocks[0].base + s.psize
  }

  function RelocateOf(s: PoolState, r: Shape, want: nat, a: Answers): (PoolState, Shape, bool) {
    var (t, m) := PallocOf(s, r.size * want, true, a.p, a.q);
    (t, if m == 0 then r else r.(elts := m, nalloc := want), m != 0)
  }

  function ReserveOf(s: PoolState, r: Shape, grow: nat, want: nat, a: Answers): (PoolState, Shape, bool) {
    if GrowsIn(s, r, grow) then
      (s.(blocks := s.blocks[0 := s.blocks[0].(last := s.blocks[0].last + r.size * grow)]),
       r.(nalloc := r.nalloc + grow), true)
    else RelocateOf(s, r, want, a)
  }

  /** array_push: the new state and fields, and the address of the new element or 0. */
  function PushOf(s: PoolState, r: Shape, a: Answers): (PoolState, Shape, int) {
    var (t, u, ok) := if r.nelts == r.nalloc then ReserveOf(s, r, 1, 2 * r.nalloc, a) else (s, r, true);
    if ok then (t, u.(nelts := u.nelts + 1), u.elts + u.size * u.nelts) else (t, u, 0)
  }

  /** How much array_push_n asks for when the array is full. */
  function Doubled(nalloc: nat, n: nat): nat { 2 * (if nalloc <= n then n else nalloc) }

  function PushNOf(s: PoolState, r: Shape, n: nat, a: Answers): (PoolState, Shape, int) {
    var (t, u, ok) :=
      if r.nalloc < r.nelts + n then ReserveOf(s, r, n, Doubled(r.nalloc, n), a) else (s, r, true);
    if ok then (t, u.(nelts := u.nelts + n), u.elts + u.size * u.nelts) else (t, u, 0)
  }

  /** A push fails exactly when the array is full, cannot grow in place, and palloc fails. */
  lemma PushFails(s: PoolState, r: Shape, a: Answers)
    requires 0 < r.elts && Sane(s, a.p, a.q)
    ensures PushOf(s, r, a).2 == 0 <==>
            && r.nelts == r.nalloc && !GrowsIn(s, r, 1)
            && PallocOf(s, r.size * (2 * r.nalloc), true, a.p, a.q).1 == 0
  {
    hide PallocOf;
    PallocFails(s, r.size * (2 * r.nalloc), true, a.p, a.q);
    NotNegative(r.size, r.nelts);
  }

  lemma PushNFails(s: PoolState, r: Shape, n: nat, a: Answers)
    requires 0 < r.elts && Sane(s, a.p, a.q)
    ensures PushNOf(s, r, n, a).2 == 0 <==>
            && r.nalloc < r.nelts + n && !GrowsIn(s, r, n)
            && PallocOf(s, r.size * Doubled(r.nalloc, n), true, a.p, a.q).1 == 0
  {
    hide PallocOf;
    PallocFails(s, r.size * Doubled(r.nalloc, n), true, a.p, a.q);
    NotNegative(r.size, r.nelts);
  }

  lemma NotNegative(a: nat, b: nat)
    ensures 0 <= a * b
  {
  }

  class Array {
    const pool: Pool
    const mem: Memory
    const size: nat   // of an element
    var elts: int
    var nelts: nat
    var nalloc: nat
    ghost var id: nat // the piece that holds the elements

    /** The elements have a piece of the pool to themselves, of `nalloc` elements; an empty one was
        taken from a block, as palloc takes it. */
    ghost predicate Held()
      reads this, pool
    {
      && pool.Valid() && pool.pending == 0
      && id in pool.pieces && !pool.pieces[id].element
      && pool.pieces[id].addr == elts && pool.pieces[id].size == size * nalloc
      && (size * nalloc == 0 ==> pool.pieces[id].home.InBlock?)
    }

    /** Moreover they all have room there. */
    ghost predicate Valid()
      reads this, pool
    {
      Held() && nelts <= nalloc
    }

    function Fields(): Shape
      reads this
    {
      Shape(size, elts, nelts, nalloc)
    }

    /** The bytes of the elements pushed so far. */
    ghost function Contents(): seq<int>
      reads this, mem
    {
      mem.Bytes(elts, size * nelts)
    }

    /** array_init: the storage is at `elts`, unless there is no memory. */
    constructor (pool: Pool, mem: Memory, n: nat, size: nat, a: Answers)
      requires pool.Valid() && pool.pending == 0 && Answered(pool, size * n, a)
      modifies pool
      ensures this.pool == pool && this.mem == mem && this.size == size && nelts == 0 && nalloc == n
      ensures (pool.S(), elts) == PallocOf(old(pool.S()), size * n, true, a.p, a.q)
      ensures elts == 0 ==> pool.Valid() && pool.pending == 0 && pool.pieces == old(pool.pieces)
      ensures elts != 0 ==> Valid() && Contents() == [] && id !in old(pool.pieces)
      ensures elts == 0 ==> Refused(old(pool.blocks), old(pool.current), size * n)
      ensures elts != 0 && size * n <= pool.max ==> MovedTo(old(pool.blocks), old(pool.current), size * n, a)
      ensures forall o :: o in old(pool.pieces) ==> o in pool.pieces && pool.pieces[o] == old(pool.pieces)[o]
    {
      this.pool, this.mem, this.size, nelts, nalloc := pool, mem, size, 0, n;
      forall o | o in pool.pieces ensures o < pool.next { assert pool.PieceOk(o); }
      ghost var bs, cur := pool.blocks, pool.current;
      var m := pool.Palloc(size * n, true, a.p, a.q);
      ghost var i: nat := 0;
      if m != 0 && size * n <= pool.max {
        i :| pool.Fitted(bs, cur, size * n, true, i, m, a.q);
      }
      elts := m;
      id := if m == 0 then 0 else pool.next - 1;
      new;
      assert m != 0 && size * n <= pool.max ==> pool.Fitted(bs, cur, size * n, true, i, elts, a.q);
    }

    static lemma Times(size: nat, a: nat, b: nat)
      ensures size * (a + b) == size * a + size * b
      ensures a <= b ==> size * a <= size * b
    {
      if a <= b {
        assert size * b == size * a + size * (b - a);
      }
    }

    /** The other pieces of before, their places and their bytes, are what they were. */
    twostate predicate OthersKept()
      reads this, pool, mem
    {
      forall o :: o in old(pool.pieces) && o != old(id) ==>
        && o in pool.pieces && pool.pieces[o] == old(pool.pieces)[o]
        && (var p := pool.pieces[o];
            mem.Bytes(p.addr, p.size) == old(mem.Bytes(pool.pieces[o].addr, pool.pieces[o].size)))
    }

    /** The storage is where it was, or in a piece that did not exist before. */
    twostate predicate SameOrNew()
      reads this
    {
      id == old(id) || id !in old(pool.pieces)
    }

    /** The storage is at the top of the head block, with room for `grow` more elements. */
    predicate Growable(grow: nat)
      reads this, pool
    {
      && pool.blocks != [] && elts + size * nalloc == pool.blocks[0].last
      && pool.blocks[0].last + size * grow <= pool.blocks[0].base + pool.psize
    }

    /** There was no room for `bytes` bytes in the blocks that palloc looks at. */
    ghost predicate Refused(bs: seq<Block>, cur: nat, bytes: nat)
      reads pool
    {
      bytes <= pool.max ==> pool.NoRoom(bs, cur, bytes, true)
    }

    /** The storage is where palloc found room for `bytes` bytes. */
    ghost predicate MovedTo(bs: seq<Block>, cur: nat, bytes: nat, a: Answers)
      reads this`elts, pool
    {
      exists i: nat :: pool.Fitted(bs, cur, bytes, true, i, elts, a.q)
    }

    /** Makes room: `grow` more elements in place when the storage is at the top of the head block and
        the block has room, or else storage for `want` elements elsewhere, with the contents moved. */
    method Reserve(grow: nat, want: nat, a: Answers) returns (ok: bool)
      requires Valid() && nalloc <= want && Answered(pool, size * want, a)
      modifies this`elts, this`nalloc, this`id, pool, mem
      ensures (pool.S(), Fields(), ok) == ReserveOf(old(pool.S()), old(Fields()), grow, want, a)
      ensures Valid() && Contents() == old(Contents()) && OthersKept() && SameOrNew()
      ensures old(Growable(grow)) ==> ok && nalloc == old(nalloc) + grow && elts == old(elts)
      ensures !old(Growable(grow)) ==> nalloc == if ok then want else old(nalloc)
      ensures !ok ==> Refused(old(pool.blocks), old(pool.current), size * want)
      ensures !old(Growable(grow)) && ok && size * want <= pool.max ==>
                MovedTo(old(pool.blocks), old(pool.current), size * want, a)
    {
      if Growable(grow) {
        Grow(grow);
        return true;
      }
      ok := Relocate(want, a);
    }

    /** The storage grows where it is. */
    method Grow(grow: nat)
      requires Valid() && Growable(grow)
      modifies this`nalloc, pool
      ensures Fields() == old(Fields()).(nalloc := nalloc)
      ensures old(pool.blocks) != []
      ensures pool.S() == old(pool.S()).(blocks :=
                old(pool.blocks)[0 := old(pool.blocks)[0].(last := old(pool.blocks)[0].last + size * grow)])
      ensures Valid() && Contents() == old(Contents()) && OthersKept()
      ensures nalloc == old(nalloc) + grow
    {
      hide Pool.Valid, Memory.Bytes;
      Times(size, nelts, nalloc);
      Times(size, nalloc, grow);
      pool.GrowTop(id, size * grow);
      nalloc := nalloc + grow;
    }

    /** New storage is taken from the pool, and the contents move there. */
    method Relocate(want: nat, a: Answers) returns (ok: bool)
      requires Valid() && nalloc <= want && Answered(pool, size * want, a)
      modifies this`elts, this`nalloc, this`id, pool, mem
      ensures (pool.S(), Fields(), ok) == RelocateOf(old(pool.S()), old(Fields()), want, a)
      ensures Valid() && Contents() == old(Contents()) && OthersKept()
      ensures if ok then nalloc == want && id !in old(pool.pieces) else nalloc == old(nalloc) && id == old(id)
      ensures !ok ==> Refused(old(pool.blocks), old(pool.current), size * want)
      ensures ok && size * want <= pool.max ==> MovedTo(old(pool.blocks), old(pool.current), size * want, a)
    {
      ghost var before := pool.pieces;
      forall o | o in pool.pieces ensures o < pool.next { assert pool.PieceOk(o); }
      var m := pool.Palloc(size * want, true, a.p, a.q);
      if m == 0 {
        return false;
      }
      ghost var added := pool.next - 1;
      ghost var bs, cur := old(pool.blocks), old(pool.current);
      if size * want <= pool.max {
        ghost var i: nat :| pool.Fitted(bs, cur, size * want, true, i, m, a.q);
        Move(m, added, want);
        assert pool.Fitted(bs, cur, size * want, true, i, elts, a.q);
      } else {
        Move(m, added, want);
      }
      return true;
    }

    /** Copies the contents to new storage, which no other piece shares. */
    method Move(m: int, ghost added: nat, want: nat)
      requires Valid() && added in pool.pieces && added != id && nalloc <= want
      requires !pool.pieces[added].element && pool.pieces[added].addr == m && pool.pieces[added].size == size * want
      requires size * want == 0 ==> pool.pieces[added].home.InBlock?
      modifies this`elts, this`nalloc, this`id, mem
      ensures Valid() && Contents() == old(Contents()) && nalloc == want && id == added
      ensures forall o :: o in pool.pieces && o != added ==>
                var p := pool.pieces[o];
                mem.Bytes(p.addr, p.size) == old(mem.Bytes(pool.pieces[o].addr, pool.pieces[o].size))
    {
      var n := size * nelts;
      Times(size, nelts, nalloc);
      Times(size, nelts, want);
      assert PiecesApart(pool.pieces, added, id);
      hide Pool.Valid;
      mem.Copy(m, elts, n);
      Copied(m, elts, n);
      mem.WroteInside(pool.pieces, added, m, n);
      elts, nalloc, id := m, want, added;
    }

    twostate lemma Copied(new m: int, new from: int, new n: nat)
      requires forall a {:trigger mem.at(a)} :: m <= a < m + n ==> mem.at(a) == old(mem.at(a - m + from))
      ensures mem.Bytes(m, n) == old(mem.Bytes(from, n))
    {
      var s, t := mem.Bytes(m, n), old(mem.Bytes(from, n));
      assert forall i :: 0 <= i < n ==> s[i] == mem.at(m + i) == old(mem.at(m + i - m + from)) == t[i];
    }

    /** Storage is never at the null address. */
    lemma NotNull()
      requires Held()
      ensures 0 < elts
    {
      assert pool.PieceOk(id);
      var h := pool.pieces[id].home;
      assert h.InBlock? ==> pool.BlockOk(h.i);
    }

    /** array_push: the address of a new last element, or null. */
    method Push(a: Answers) returns (elt: int)
      requires Valid() && Answered(pool, size * (2 * nalloc), a)
      modifies this, pool, mem
      ensures (pool.S(), Fields(), elt) == PushOf(old(pool.S()), old(Fields()), a)
      ensures Held() && OthersKept() && SameOrNew()
      ensures elt == 0 ==> Refused(old(pool.blocks), old(pool.current), size * (2 * old(nalloc)))
      ensures elt == 0 ==> Valid() && nelts == old(nelts) && nalloc == old(nalloc) && Contents() == old(Contents())
      ensures elt != 0 ==> (Valid() <==> 0 < old(nalloc) || old(Growable(1)))
      ensures elt != 0 && !Valid() ==> nalloc == 0 && pool.pieces[id].size == 0 && elt == elts
      ensures elt != 0 && !Valid() ==> MovedTo(old(pool.blocks), old(pool.current), 0, a)
      ensures elt != 0 ==>
                && nelts == old(nelts) + 1 && elt == elts + size * old(nelts)
                && nalloc == (if old(nelts) < old(nalloc) then old(nalloc)
                              else if old(Growable(1)) then old(nalloc) + 1 else 2 * old(nalloc))
                && |Contents()| == size * old(nelts) + size && Contents()[..size * old(nelts)] == old(Contents())
    {
      hide Pool.Valid, MovedTo, Refused, ReserveOf;
      assert nalloc == 0 ==> size * (2 * nalloc) == 0;
      if nelts == nalloc {
        var ok := Reserve(1, 2 * nalloc, a);
        if !ok {
          return 0;
        }
      }
      elt := Advance(1);
    }

    /** array_push_n */
    method PushN(n: nat, a: Answers) returns (elt: int)
      requires Valid() && Answered(pool, size * Doubled(nalloc, n), a)
      modifies this, pool, mem
      ensures (pool.S(), Fields(), elt) == PushNOf(old(pool.S()), old(Fields()), n, a)
      ensures Valid() && OthersKept() && SameOrNew()
      ensures elt == 0 ==> nelts == old(nelts) && nalloc == old(nalloc) && Contents() == old(Contents())
      ensures elt != 0 ==>
                && nelts == old(nelts) + n && elt == elts + size * old(nelts)
                && nalloc == (if old(nelts) + n <= old(nalloc) then old(nalloc)
                              else if old(Growable(n)) then old(nalloc) + n
                              else if old(nalloc) <= n then 2 * n else 2 * old(nalloc))
                && |Contents()| == size * old(nelts) + size * n
                && 0 <= size * old(nelts) <= |Contents()| && Contents()[..size * old(nelts)] == old(Contents())
    {
      hide Pool.Valid, MovedTo, Refused, ReserveOf;
      if nelts + n > nalloc {
        var ok := Reserve(n, 2 * (if n >= nalloc then n else nalloc), a);
        if !ok {
          return 0;
        }
      }
      elt := Advance(n);
    }

    /** The next `n` elements, of which the first is at `elt`. */
    method Advance(n: nat) returns (elt: int)
      requires Held()
      modifies this`nelts
      ensures Held() && nelts == old(nelts) + n && elt == elts + size * old(nelts) && 0 < elt
      ensures |Contents()| == size * old(nelts) + size * n
      ensures 0 <= size * old(nelts) <= |Contents()| && Contents()[..size * old(nelts)] == old(Contents())
    {
      hide Pool.Valid;
      NotNull();
      elt := elts + size * nelts;
      NotNegative(size, nelts);
      NotNegative(size, n);
      Times(size, nelts, n);
      nelts := nelts + n;
    }

    /** array_push and the write of the element it returns. */
    method Append(bytes: seq<int>, a: Answers) returns (ok: bool)
      requires Valid() && |bytes| == size && (0 < nalloc || Growable(1)) && Answered(pool, size * (2 * nalloc), a)
      modifies this, pool, mem
      ensures var (t, u, elt) := PushOf(old(pool.S()), old(Fields()), a);
              pool.S() == t && Fields() == u && (ok <==> elt != 0)
      ensures Valid() && OthersKept() && SameOrNew()
      ensures Contents() == if ok then old(Contents()) + bytes else old(Contents())
      ensures nelts == old(nelts) + (if ok then 1 else 0) && nalloc >= old(nalloc)
    {
      var elt := Push(a);
      if elt == 0 {
        return false;
      }
      ok := true;
      Fill(elt, bytes);
    }

    /** array_push_n and the write of the elements it returns. */
    method AppendN(n: nat, bytes: seq<int>, a: Answers) returns (ok: bool)
      requires Valid() && |bytes| == size * n && Answered(pool, size * Doubled(nalloc, n), a)
      modifies this, pool, mem
      ensures var (t, u, elt) := PushNOf(old(pool.S()), old(Fields()), n, a);
              pool.S() == t && Fields() == u && (ok <==> elt != 0)
      ensures Valid() && OthersKept() && SameOrNew()
      ensures Contents() == if ok then old(Contents()) + bytes else old(Contents())
      ensures nelts == old(nelts) + (if ok then n else 0) && nalloc >= old(nalloc)
    {
      var elt := PushN(n, a);
      if elt == 0 {
        return false;
      }
      ok := true;
      Fill(elt, bytes);
    }

    /** Writes the last elements, which disturbs nothing else. */
    method Fill(elt: int, bytes: seq<int>)
      requires Valid() && |bytes| <= size * nelts && elt == elts + size * nelts - |bytes|
      modifies mem
      ensures Valid() && Contents() == old(Contents())[..size * nelts - |bytes|] + bytes
      ensures forall o :: o in pool.pieces && o != id ==>
                var p := pool.pieces[o];
                mem.Bytes(p.addr, p.size) == old(mem.Bytes(pool.pieces[o].addr, pool.pieces[o].size))
    {
      Times(size, nelts, nalloc);
      mem.Store(elt, bytes);
      mem.WroteInside(pool.pieces, id, elt, |bytes|);
      hide Pool.Valid;
      mem.Wrote(elts, size * nelts, size * nelts - |bytes|, bytes);
    }

    /** An array whose piece and bytes are kept stays what it was. */
    twostate lemma Survives()
      requires old(Valid()) && pool.Valid() && pool.pending == 0
      requires elts == old(elts) && nelts == old(nelts) && nalloc == old(nalloc) && id == old(id)
      requires id in pool.pieces && pool.pieces[id] == old(pool.pieces[id])
      requires var p := pool.pieces[id];
               mem.Bytes(p.addr, p.size) == old(mem.Bytes(pool.pieces[id].addr, pool.pieces[id].size))
      ensures Valid() && Contents() == old(Contents())
    {
      Times(size, nelts, nalloc);
      var n := size * nelts;
      assert Contents() == mem.Bytes(elts, size * nalloc)[..n];
      assert old(Contents()) == old(mem.Bytes(elts, size * nalloc))[..n];
    }

    /** array_destroy: hands the storage, and then the array itself (at `self`, in piece `own`), back to
        the pool as far as they are at the top of the head block. */
    method Destroy(self: int, ghost own: nat)
      requires Held() && own in pool.pieces && own != id && !pool.pieces[own].element
      requires pool.pieces[own].addr == self && pool.pieces[own].size == ARRAY_HEADER
      modifies pool
      ensures pool.Valid()
      ensures var last := old(pool.blocks[0].last);
              var mid := if elts + size * nalloc == last then elts else last;
              && pool.blocks ==
                 old(pool.blocks)[0 := old(pool.blocks)[0].(last := if self + ARRAY_HEADER == mid then self else mid)]
              && pool.pieces ==
                 old(pool.pieces) - (if elts + size * nalloc == last then {id} else {})
                                  - (if self + ARRAY_HEADER == mid then {own} else {})
    {
      if elts + size * nalloc == pool.blocks[0].last {
        pool.DropTop(id, elts);
      }
      if self + ARRAY_HEADER == pool.blocks[0].last {
        pool.DropTop(own, self);
      }
    }
  }

  /** palloc when the pool is a single block with room for the request. */
  method TakeHead(pool: Pool, size: nat) returns (m: int)
    requires pool.Valid() && pool.pending == 0 && |pool.blocks| == 1 && pool.current == 0
    requires size <= pool.max && HasRoom(pool.psize, pool.blocks[0], size, true)
    modifies pool
    ensures pool.Valid() && pool.pending == 0 && pool.current == 0
    ensures m == Start(old(pool.blocks)[0], true) && pool.blocks == [old(pool.blocks)[0].(last := m + size)]
    ensures exists h :: pool.Gave(old(pool.pieces), old(pool.next), Piece(m, size, h, false))
  {
    hide Pool.Valid;
    ghost var bs := pool.blocks;
    m := pool.Palloc(size, true, 0, 0);
    ghost var i: nat :| pool.Fitted(bs, 0, size, true, i, m, 0);
    assert i == 0;
  }

  /** An array without capacity, at the top of the head block. */
  method EmptyAtTop() returns (x: Array)
    ensures fresh(x) && fresh(x.pool) && fresh(x.mem) && x.Valid() && x.size == 8 && x.nelts == 0
    ensures x.nalloc == 0 && x.elts == 72
    ensures x.pool.blocks == [Block(16, 72, 0)] && x.pool.psize == 96 && x.pool.max == 40 && x.pool.current == 0
  {
    var pool := new Pool(96, 16);
    var mem := new Memory();
    assert Aligned(72) == 72;
    hide Aligned, Pool.Valid;
    x := new Array(pool, mem, 0, 8, Answers(0, 0));
  }

  /** The same array when it is no longer there. */
  method EmptyArray() returns (x: Array)
    ensures fresh(x) && fresh(x.pool) && fresh(x.mem) && x.Valid() && x.size == 8 && x.nelts == 0
    ensures x.nalloc == 0 && x.elts == 72
    ensures x.pool.blocks == [Block(16, 80, 0)] && x.pool.psize == 96 && x.pool.max == 40 && x.pool.current == 0
  {
    x := EmptyAtTop();
    assert Aligned(72) == 72;
    hide Aligned, Pool.Valid;
    var between := TakeHead(x.pool, 8);
  }

  /** A push that goes wrong: its new element gets the bytes that palloc hands out next. */
  method PushWithoutCapacity() returns (x: Array, elt: int, other: int)
    ensures x.Held() && x.size == 8 && x.nelts == 1 && x.nalloc == 0 && elt == x.elts == other
    ensures exists o :: o in x.pool.pieces && o != x.id && x.pool.pieces[o].addr == elt && x.pool.pieces[o].size == 8
  {
    x := EmptyArray();
    var pool := x.pool;
    assert Aligned(80) == 80;
    hide Aligned, Pool.Valid;
    assert HasRoom(pool.psize, Block(16, 80, 0), 0, true);
    elt := x.Push(Answers(0, 0));
    ghost var i: nat :| pool.Fitted([Block(16, 80, 0)], 0, 0, true, i, elt, 0);
    assert elt == 80 && pool.blocks == [Block(16, 80, 0)];
    ghost var before, next := pool.pieces, pool.next;
    IdBelow(pool, x.id);
    other := TakeHead(pool, 8);
    ghost var h :| pool.Gave(before, next, Piece(other, 8, h, false));
    assert pool.next - 1 != x.id;
  }

  lemma IdBelow(pool: Pool, id: nat)
    requires pool.Valid() && id in pool.pieces
    ensures id < pool.next
  {
    assert pool.PieceOk(id);
  }
}
