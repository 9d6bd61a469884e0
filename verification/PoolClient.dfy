/** Growable arrays (array.c) and other allocations side by side in one pool (palloc.c), over any
    sequence of calls. */
module PoolClient {
  import opened PoolSpec
  import opened Pool
  import opened PoolArray

  /** An allocation of the caller that is not an array; `alive` until it is freed. */
  datatype Own = Own(addr: int, size: nat, alive: bool)

  /** Whose piece it is: that of an array, or one of the other allocations. */
  datatype Holder = OfArray(k: nat) | OfOwn(j: nat)

  /** A call, with the answers of the system allocator, or a write of the caller. */
  datatype Op =
    | Init(n: nat, size: nat, a: Answers)                     // array_init
    | Push(k: nat, bytes: seq<int>, a: Answers)               // array_push, and the new element
    | PushN(k: nat, n: nat, bytes: seq<int>, a: Answers)      // array_push_n, and the new elements
    | Alloc(size: nat, align: bool, a: Answers)               // palloc, pnalloc
    | Memalign(size: nat, alignment: nat, a: Answers)         // pmemalign
    | Free(j: nat)                                            // pfree
    | Store(j: nat, at: nat, bytes: seq<int>)                 // a write inside another allocation

  /** What has been appended to each array after one operation, and after several. */
  function AfterOp(logs: seq<seq<int>>, op: Op, ok: bool): seq<seq<int>> {
    if !ok then logs
    else match op
      case Init(_, _, _) => logs + [[]]
      case Push(k, bytes, _) => if k < |logs| then logs[k := logs[k] + bytes] else logs
      case PushN(k, _, bytes, _) => if k < |logs| then logs[k := logs[k] + bytes] else logs
      case _ => logs
  }

  function Replay(logs: seq<seq<int>>, ops: seq<Op>, oks: seq<bool>): seq<seq<int>>
    requires |ops| == |oks|
  {
    if ops == [] then logs
    else AfterOp(Replay(logs, ops[..|ops| - 1], oks[..|ops| - 1]), ops[|ops| - 1], oks[|ops| - 1])
  }

  /** What a write leaves of an allocation. */
  function Overwritten(note: seq<int>, at: nat, bytes: seq<int>): seq<int> {
    if at + |bytes| <= |note| then note[..at] + bytes + note[at + |bytes|..] else note
  }

  /** What allocation `j` holds after the writes among the operations that were carried out. */
  function NoteAfter(note: seq<int>, j: nat, ops: seq<Op>, oks: seq<bool>): seq<int>
    requires |ops| == |oks|
  {
    if ops == [] then note
    else
      var n := |ops| - 1;
      var before := NoteAfter(note, j, ops[..n], oks[..n]);
      if oks[n] && ops[n].Store? && ops[n].j == j then Overwritten(before, ops[n].at, ops[n].bytes) else before
  }

  lemma NoteMore(note: seq<int>, j: nat, ops: seq<Op>, i: nat, oks: seq<bool>, ok: bool)
    requires i < |ops| && |oks| == i
    ensures var before := NoteAfter(note, j, ops[..i], oks);
            NoteAfter(note, j, ops[..i + 1], oks + [ok]) ==
            if ok && ops[i].Store? && ops[i].j == j then Overwritten(before, ops[i].at, ops[i].bytes) else before
  {
    assert ops[..i + 1][..i] == ops[..i] && (oks + [ok])[..i] == oks;
  }

  lemma ReplayMore(logs: seq<seq<int>>, ops: seq<Op>, i: nat, oks: seq<bool>, ok: bool)
    requires i < |ops| && |oks| == i
    ensures Replay(logs, ops[..i + 1], oks + [ok]) == AfterOp(Replay(logs, ops[..i], oks), ops[i], ok)
  {
    assert ops[..i + 1][..i] == ops[..i] && (oks + [ok])[..i] == oks;
  }

  // ---------- the operations as functions ----------

  /** A pool, its arrays and the other allocations. */
  datatype ClientState = ClientState(pool: PoolState, arrays: seq<Shape>, own: seq<Own>)

  /** What a caller must see to. A full array without capacity may be pushed to only if it can grow in
      place. */
  predicate AllowedIn(s: ClientState, op: Op) {
    match op
    case Init(n, size, a) => AnsweredIn(s.pool, size * n, a)
    case Push(k, bytes, a) =>
      k < |s.arrays| && |bytes| == s.arrays[k].size
      && (0 < s.arrays[k].nalloc || GrowsIn(s.pool, s.arrays[k], 1))
      && AnsweredIn(s.pool, s.arrays[k].size * (2 * s.arrays[k].nalloc), a)
    case PushN(k, n, bytes, a) =>
      k < |s.arrays| && |bytes| == s.arrays[k].size * n
      && AnsweredIn(s.pool, s.arrays[k].size * Doubled(s.arrays[k].nalloc, n), a)
    case Alloc(size, _, a) => AnsweredIn(s.pool, size, a)
    case Memalign(size, alignment, a) =>
      0 < alignment && Grant(s.pool.live, a.p, size, alignment)
      && (a.p != 0 ==> Grant(s.pool.live[a.p := size], a.q, s.pool.psize, POOL_ALIGNMENT))
    case Free(j) => j < |s.own| && s.own[j].alive && 0 < s.own[j].size
    case Store(j, at, bytes) => j < |s.own| && s.own[j].alive && at + |bytes| <= s.own[j].size
  }

  function Taken(s: ClientState, t: PoolState, m: int, size: nat): (ClientState, bool) {
    (s.(pool := t, own := if m == 0 then s.own else s.own + [Own(m, size, true)]), m != 0)
  }

  /** One operation, and whether it succeeds; one that is not allowed does nothing. */
  function Apply(s: ClientState, op: Op): (ClientState, bool) {
    if !AllowedIn(s, op) then (s, false)
    else match op
      case Init(n, size, a) =>
        var (t, m) := PallocOf(s.pool, size * n, true, a.p, a.q);
        (s.(pool := t, arrays := if m == 0 then s.arrays else s.arrays + [Shape(size, m, 0, n)]), m != 0)
      case Push(k, _, a) =>
        var (t, u, elt) := PushOf(s.pool, s.arrays[k], a);
        (s.(pool := t, arrays := s.arrays[k := u]), elt != 0)
      case PushN(k, n, _, a) =>
        var (t, u, elt) := PushNOf(s.pool, s.arrays[k], n, a);
        (s.(pool := t, arrays := s.arrays[k := u]), elt != 0)
      case Alloc(size, align, a) =>
        var (t, m) := PallocOf(s.pool, size, align, a.p, a.q);
        Taken(s, t, m, size)
      case Memalign(size, _, a) =>
        var (t, m) := PmemalignOf(s.pool, size, a.p, a.q);
        Taken(s, t, m, size)
      case Free(j) =>
        var (t, ok) := PfreeOf(s.pool, s.own[j].addr);
        (s.(pool := t, own := if ok then s.own[j := s.own[j].(alive := false)] else s.own), ok)
      case Store(_, _, _) => (s, true)
  }

  /** What each call is for, said of the arrays and allocations it leaves. */
  lemma OpsMean(s: ClientState, op: Op)
    requires AllowedIn(s, op)
    ensures var (t, ok) := Apply(s, op);
            match op
            case Init(n, size, _) =>
              && t.own == s.own
              && if !ok then t.arrays == s.arrays
                 else exists m :: m != 0 && t.arrays == s.arrays + [Shape(size, m, 0, n)]
            case Push(k, _, _) =>
              && t.own == s.own && |t.arrays| == |s.arrays|
              && (forall l :: 0 <= l < |s.arrays| && l != k ==> t.arrays[l] == s.arrays[l])
              && var r := s.arrays[k];
              && (ok ==>
                   && t.arrays[k].nelts == r.nelts + 1
                   && t.arrays[k].nalloc == (if r.nelts != r.nalloc then r.nalloc
                                             else if GrowsIn(s.pool, r, 1) then r.nalloc + 1 else 2 * r.nalloc)
                   && (r.nelts != r.nalloc || GrowsIn(s.pool, r, 1) ==> t.arrays[k].elts == r.elts))
            case PushN(k, n, _, _) =>
              && t.own == s.own && |t.arrays| == |s.arrays|
              && (forall l :: 0 <= l < |s.arrays| && l != k ==> t.arrays[l] == s.arrays[l])
              && var r := s.arrays[k];
              && (ok ==>
                   && t.arrays[k].nelts == r.nelts + n
                   && t.arrays[k].nalloc == (if r.nelts + n <= r.nalloc then r.nalloc
                                             else if GrowsIn(s.pool, r, n) then r.nalloc + n
                                             else if r.nalloc <= n then 2 * n else 2 * r.nalloc)
                   && (r.nelts + n <= r.nalloc || GrowsIn(s.pool, r, n) ==> t.arrays[k].elts == r.elts))
            case Alloc(size, _, _) =>
              && t.arrays == s.arrays
              && if !ok then t.own == s.own else exists m :: m != 0 && t.own == s.own + [Own(m, size, true)]
            case Memalign(size, _, _) =>
              && t.arrays == s.arrays
              && if !ok then t.own == s.own else exists m :: m != 0 && t.own == s.own + [Own(m, size, true)]
            case Free(j) =>
              && t.arrays == s.arrays && |t.own| == |s.own| && t.own[j] == s.own[j].(alive := !ok)
              && (forall i :: 0 <= i < |s.own| && i != j ==> t.own[i] == s.own[i])
            case Store(_, _, _) => t == s && ok
  {
    hide PallocOf, PmemalignOf, PfreeOf, GrowsIn;
    match op
    case Init(n, size, a) =>
      var m := PallocOf(s.pool, size * n, true, a.p, a.q).1;
      assert m != 0 ==> Apply(s, op).0.arrays == s.arrays + [Shape(size, m, 0, n)];
    case Alloc(size, align, a) =>
      var m := PallocOf(s.pool, size, align, a.p, a.q).1;
      assert m != 0 ==> Apply(s, op).0.own == s.own + [Own(m, size, true)];
    case Memalign(size, _, a) =>
      var m := PmemalignOf(s.pool, size, a.p, a.q).1;
      assert m != 0 ==> Apply(s, op).0.own == s.own + [Own(m, size, true)];
    case _ =>
  }

  function ApplyAll(s: ClientState, ops: seq<Op>): (r: (ClientState, seq<bool>))
    ensures |r.1| == |ops|
  {
    if ops == [] then (s, [])
    else
      var (t, oks) := ApplyAll(s, ops[..|ops| - 1]);
      var (u, ok) := Apply(t, ops[|ops| - 1]);
      (u, oks + [ok])
  }

  /** Calls happen one after the other. */
  lemma {:induction false} ApplyAllLaws(s: ClientState, a: seq<Op>, b: seq<Op>)
    ensures ApplyAll(s, []) == (s, [])
    ensures forall op :: var (t, ok) := Apply(s, op); ApplyAll(s, [op]) == (t, [ok])
    ensures var (t, oks) := ApplyAll(s, a);
            var (u, more) := ApplyAll(t, b);
            ApplyAll(s, a + b) == (u, oks + more)
  {
    hide Apply;
    forall op ensures ApplyAll(s, [op]) == (Apply(s, op).0, [Apply(s, op).1]) {
      var one := [op];
      assert one[..|one| - 1] == [] && ApplyAll(s, []) == (s, []) && one != [] && one[|one| - 1] == op;
      assert [] + [Apply(s, op).1] == [Apply(s, op).1];
    }
    var (t, oks) := ApplyAll(s, a);
    if b == [] {
      assert a + b == a && oks + [] == oks;
    } else {
      var n := |b| - 1;
      ApplyAllLaws(s, a, b[..n]);
      var (u, more) := ApplyAll(t, b[..n]);
      var (v, ok) := Apply(u, b[n]);
      assert (a + b)[..|a + b| - 1] == a + b[..n];
      assert oks + (more + [ok]) == oks + more + [ok];
    }
  }

  /** What is done was allowed, and what is allowed and granted is done. */
  predicate Justified(s: ClientState, op: Op, ok: bool) {
    (ok ==> AllowedIn(s, op)) && (AllowedIn(s, op) && Granted(op) ==> ok)
  }

  /** What is known after the first `i` operations from state `s`. */
  ghost predicate Ran(s: ClientState, ops: seq<Op>, i: nat, oks: seq<bool>, t: ClientState) {
    && i <= |ops| && |oks| == i && (t, oks) == ApplyAll(s, ops[..i])
    && (forall j :: 0 <= j < i ==> Justified(ApplyAll(s, ops[..j]).0, ops[j], oks[j]))
  }

  lemma RanOne(s: ClientState, ops: seq<Op>, i: nat, oks: seq<bool>, t: ClientState, u: ClientState, ok: bool)
    requires Ran(s, ops, i, oks, t) && i < |ops| && (u, ok) == Apply(t, ops[i]) && Justified(t, ops[i], ok)
    ensures Ran(s, ops, i + 1, oks + [ok], u)
  {
    hide Apply, Justified;
    assert ops[..i + 1][..i] == ops[..i];
  }

  lemma RanNone(s: ClientState, ops: seq<Op>)
    ensures Ran(s, ops, 0, [], s)
  {
  }

  lemma RanAll(s: ClientState, ops: seq<Op>, oks: seq<bool>, t: ClientState)
    requires Ran(s, ops, |ops|, oks, t)
    ensures (t, oks) == ApplyAll(s, ops)
    ensures forall i :: 0 <= i < |ops| ==> Justified(ApplyAll(s, ops[..i]).0, ops[i], oks[i])
  {
    assert ops[..|ops|] == ops;
  }

  lemma NotAllowed(s: ClientState, op: Op)
    requires !AllowedIn(s, op)
    ensures Apply(s, op) == (s, false)
  {
  }

  /** The capacity of an array never falls. */
  lemma CapacityStep(s: ClientState, op: Op)
    ensures |s.arrays| <= |Apply(s, op).0.arrays|
    ensures forall k :: 0 <= k < |s.arrays| ==>
              s.arrays[k].nalloc <= Apply(s, op).0.arrays[k].nalloc && s.arrays[k].size == Apply(s, op).0.arrays[k].size
  {
    hide PallocOf;
  }

  lemma {:induction false} CapacityStays(s: ClientState, ops: seq<Op>)
    ensures |s.arrays| <= |ApplyAll(s, ops).0.arrays|
    ensures forall k :: 0 <= k < |s.arrays| ==>
              && s.arrays[k].nalloc <= ApplyAll(s, ops).0.arrays[k].nalloc
              && s.arrays[k].size == ApplyAll(s, ops).0.arrays[k].size
  {
    hide Apply;
    if ops != [] {
      CapacityStays(s, ops[..|ops| - 1]);
      CapacityStep(ApplyAll(s, ops[..|ops| - 1]).0, ops[|ops| - 1]);
    }
  }

  /** The system granted whatever was asked of it. */
  predicate Granted(op: Op) {
    match op
    case Init(_, _, a) => 0 < a.p && 0 < a.q
    case Push(_, _, a) => 0 < a.p && 0 < a.q
    case PushN(_, _, _, a) => 0 < a.p && 0 < a.q
    case Alloc(_, _, a) => 0 < a.p && 0 < a.q
    case Memalign(_, _, a) => 0 < a.p && 0 < a.q
    case Free(_) => false
    case Store(_, _, _) => true
  }

  ghost predicate Extends(before: seq<seq<int>>, after: seq<seq<int>>) {
    |before| <= |after| && forall k :: 0 <= k < |before| ==> before[k] <= after[k]
  }

  /** Nothing appended is ever lost or changed. */
  lemma {:induction false} ReplayExtends(logs: seq<seq<int>>, ops: seq<Op>, oks: seq<bool>)
    requires |ops| == |oks|
    ensures Extends(logs, Replay(logs, ops, oks))
  {
    if ops != [] {
      ReplayExtends(logs, ops[..|ops| - 1], oks[..|ops| - 1]);
    }
  }

  class Client {
    const pool: Pool
    const mem: Memory
    var arrays: seq<Array>
    var own: seq<Own>

    ghost var repr: set<Array>
    ghost var ids: seq<nat>              // the pieces of `own`
    ghost var holder: map<nat, Holder>
    ghost var logs: seq<seq<int>>        // what was appended to each array
    ghost var notes: seq<seq<int>>       // what the other allocations contain

    ghost predicate ArrayOk(k: nat)
      reads this, pool, mem, repr
    {
      && k < |arrays| && k < |logs| && arrays[k] in repr
      && var r := arrays[k];
      && r.pool == pool && r.mem == mem && r.Valid() && r.Contents() == logs[k]
      && r.id in holder && holder[r.id] == OfArray(k)
    }

    ghost predicate OwnOk(j: nat)
      reads this, pool, mem
    {
      && j < |own| && j < |ids| && j < |notes|
      && (own[j].alive ==>
            && ids[j] in pool.pieces && !pool.pieces[ids[j]].element
            && pool.pieces[ids[j]].addr == own[j].addr && pool.pieces[ids[j]].size == own[j].size
            && mem.Bytes(own[j].addr, own[j].size) == notes[j]
            && ids[j] in holder && holder[ids[j]] == OfOwn(j))
    }

    /** Every array is in order, holds what was appended to it, and shares its piece with nobody. */
    ghost predicate Inv()
      reads this, pool, mem, repr
    {
      && pool.Valid() && pool.pending == 0
      && |logs| == |arrays| && |ids| == |notes| == |own|
      && (forall k {:trigger ArrayOk(k)} :: 0 <= k < |arrays| ==> ArrayOk(k))
      && (forall j {:trigger OwnOk(j)} :: 0 <= j < |own| ==> OwnOk(j))
    }

    constructor (pool: Pool, mem: Memory)
      requires pool.Valid() && pool.pending == 0
      ensures Inv() && this.pool == pool && this.mem == mem && arrays == [] && own == [] && repr == {}
    {
      this.pool, this.mem, arrays, own := pool, mem, [], [];
      repr, ids, holder, logs, notes := {}, [], map[], [], [];
    }

    function S(): ClientState
      reads this, pool, arrays
    {
      ClientState(pool.S(), seq(|arrays|, k requires 0 <= k < |arrays| reads this, arrays => arrays[k].Fields()), own)
    }

    /** Two arrays are two objects; arrays and other allocations all have pieces of their own, and no two
        of them overlap. */
    lemma Separate()
      requires Inv()
      ensures forall k, l :: 0 <= k < |arrays| && 0 <= l < |arrays| && k != l ==>
                && arrays[k] != arrays[l]
                && Apart(arrays[k].elts, arrays[k].size * arrays[k].nalloc,
                         arrays[l].elts, arrays[l].size * arrays[l].nalloc)
      ensures forall k, j :: 0 <= k < |arrays| && 0 <= j < |own| && own[j].alive ==>
                Apart(arrays[k].elts, arrays[k].size * arrays[k].nalloc, own[j].addr, own[j].size)
      ensures forall i, j :: 0 <= i < |own| && 0 <= j < |own| && i != j && own[i].alive && own[j].alive ==>
                Apart(own[i].addr, own[i].size, own[j].addr, own[j].size)
    {
      forall k, l | 0 <= k < |arrays| && 0 <= l < |arrays| && k != l
        ensures arrays[k] != arrays[l]
        ensures Apart(arrays[k].elts, arrays[k].size * arrays[k].nalloc,
                      arrays[l].elts, arrays[l].size * arrays[l].nalloc)
      {
        assert ArrayOk(k) && ArrayOk(l);
        assert PiecesApart(pool.pieces, arrays[k].id, arrays[l].id);
      }
      forall k, j | 0 <= k < |arrays| && 0 <= j < |own| && own[j].alive
        ensures Apart(arrays[k].elts, arrays[k].size * arrays[k].nalloc, own[j].addr, own[j].size)
      {
        assert ArrayOk(k) && OwnOk(j);
        assert PiecesApart(pool.pieces, arrays[k].id, ids[j]);
      }
      forall i, j | 0 <= i < |own| && 0 <= j < |own| && i != j && own[i].alive && own[j].alive
        ensures Apart(own[i].addr, own[i].size, own[j].addr, own[j].size)
      {
        assert OwnOk(i) && OwnOk(j);
        assert PiecesApart(pool.pieces, ids[i], ids[j]);
      }
    }

    lemma Others(k: nat)
      requires Inv() && k < |arrays|
      ensures forall l :: 0 <= l < |arrays| && l != k ==> arrays[l] != arrays[k]
    {
      forall l | 0 <= l < |arrays| && l != k ensures arrays[l] != arrays[k] { assert ArrayOk(k) && ArrayOk(l); }
    }

    /** Only the pool and the fields of array `k` have changed. */
    twostate lemma OneShape(new k: nat)
      requires k < |arrays| && arrays == old(arrays) && own == old(own)
      requires forall l :: 0 <= l < |arrays| && l != k ==> arrays[l].Fields() == old(arrays[l].Fields())
      ensures S() == old(S()).(pool := pool.S(), arrays := old(S()).arrays[k := arrays[k].Fields()])
    {
    }

    /** All pieces but `t` are where they were, with the bytes they had. */
    twostate predicate Kept(t: set<nat>)
      reads pool, mem
    {
      forall o :: o in old(pool.pieces) && o !in t ==>
        && o in pool.pieces && pool.pieces[o] == old(pool.pieces)[o]
        && (var p := pool.pieces[o];
            mem.Bytes(p.addr, p.size) == old(mem.Bytes(pool.pieces[o].addr, pool.pieces[o].size)))
    }

    twostate lemma ArrayStays(new k: nat, new t: set<nat>)
      requires old(ArrayOk(k)) && pool.Valid() && pool.pending == 0 && Kept(t) && old(arrays[k].id) !in t
      requires k < |arrays| && arrays[k] == old(arrays[k]) && k < |logs| && logs[k] == old(logs[k]) && arrays[k] in repr
      requires arrays[k].elts == old(arrays[k].elts) && arrays[k].nelts == old(arrays[k].nelts)
      requires arrays[k].nalloc == old(arrays[k].nalloc) && arrays[k].id == old(arrays[k].id)
      requires arrays[k].id in holder && holder[arrays[k].id] == OfArray(k)
      ensures ArrayOk(k)
    {
      arrays[k].Survives();
    }

    twostate lemma OwnStays(new j: nat, new t: set<nat>)
      requires j < |own| && j < |ids| && j < |notes| && old(OwnOk(j)) && Kept(t)
      requires own[j] == old(own[j]) && ids[j] == old(ids[j]) && notes[j] == old(notes[j])
      requires (own[j].alive ==> ids[j] !in t)
      requires own[j].alive ==> ids[j] in holder && holder[ids[j]] == OfOwn(j)
      ensures OwnOk(j)
    {
    }

    // ---------- the operations ----------

    /** array_push on one array, and the write of its new element. */
    method Append(k: nat, bytes: seq<int>, a: Answers) returns (ok: bool)
      requires Inv() && AllowedIn(S(), Push(k, bytes, a)) && k < |arrays|
      modifies this`logs, this`holder, pool, mem, arrays[k]
      ensures Inv() && logs == AfterOp(old(logs), Push(k, bytes, a), ok)
      ensures (S(), ok) == Apply(old(S()), Push(k, bytes, a))
    {
      hide Pool.Valid, PushOf;
      assert ArrayOk(k);
      Others(k);
      ghost var id := arrays[k].id;
      ok := arrays[k].Append(bytes, a);
      logs := if ok then logs[k := logs[k] + bytes] else logs;
      holder := holder[arrays[k].id := OfArray(k)];
      Appended(k, id);
      OneShape(k);
    }

    /** array_push_n on one array, and the write of its new elements. */
    method AppendN(k: nat, n: nat, bytes: seq<int>, a: Answers) returns (ok: bool)
      requires Inv() && AllowedIn(S(), PushN(k, n, bytes, a)) && k < |arrays|
      modifies this`logs, this`holder, pool, mem, arrays[k]
      ensures Inv() && logs == AfterOp(old(logs), PushN(k, n, bytes, a), ok)
      ensures (S(), ok) == Apply(old(S()), PushN(k, n, bytes, a))
    {
      hide Pool.Valid, PushNOf;
      assert ArrayOk(k);
      Others(k);
      ghost var id := arrays[k].id;
      ok := arrays[k].AppendN(n, bytes, a);
      logs := if ok then logs[k := logs[k] + bytes] else logs;
      holder := holder[arrays[k].id := OfArray(k)];
      Appended(k, id);
      OneShape(k);
    }

    /** What one array does disturbs nothing else. */
    twostate lemma Appended(new k: nat, new id: nat)
      requires old(Inv()) && old(k < |arrays| && arrays[k].id == id) && arrays == old(arrays)
      requires own == old(own) && ids == old(ids)
      requires notes == old(notes) && repr == old(repr) && |logs| == |arrays|
      requires arrays[k].Valid() && arrays[k].Contents() == logs[k] && Kept({id})
      requires arrays[k].id == id || arrays[k].id !in old(pool.pieces)
      requires holder == old(holder)[arrays[k].id := OfArray(k)]
      requires forall l :: 0 <= l < |arrays| && l != k ==> logs[l] == old(logs[l])
      requires forall r: Array :: r in repr && r != arrays[k] ==>
                 r.elts == old(r.elts) && r.nelts == old(r.nelts) && r.nalloc == old(r.nalloc) && r.id == old(r.id)
      ensures Inv()
    {
      assert old(ArrayOk(k));
      forall l | 0 <= l < |arrays| ensures ArrayOk(l) {
        if l != k {
          assert old(ArrayOk(l));
          ArrayStays(l, {id});
        }
      }
      forall j | 0 <= j < |own| ensures OwnOk(j) {
        assert old(OwnOk(j));
        OwnStays(j, {id});
      }
    }

    lemma IdsBelow()
      requires pool.Valid()
      ensures forall o :: o in pool.pieces ==> o < pool.next
    {
      forall o | o in pool.pieces ensures o < pool.next { assert pool.PieceOk(o); }
    }

    /** New allocations disturb nothing. */
    twostate lemma Added()
      requires old(Inv()) && pool.Valid() && pool.pending == 0 && Kept({})
      requires old(arrays) <= arrays && old(logs) <= logs && |logs| == |arrays| && old(repr) <= repr
      requires old(own) <= own && old(ids) <= ids && old(notes) <= notes && |ids| == |notes| == |own|
      requires forall r: Array :: r in old(repr) ==>
                 r.elts == old(r.elts) && r.nelts == old(r.nelts) && r.nalloc == old(r.nalloc) && r.id == old(r.id)
      requires forall o :: o in old(pool.pieces) && o in old(holder) ==> o in holder && holder[o] == old(holder)[o]
      requires forall k {:trigger ArrayOk(k)} :: |old(arrays)| <= k < |arrays| ==> ArrayOk(k)
      requires forall j {:trigger OwnOk(j)} :: |old(own)| <= j < |own| ==> OwnOk(j)
      ensures Inv()
    {
      forall k | 0 <= k < |arrays| ensures ArrayOk(k) {
        if k < |old(arrays)| {
          assert old(ArrayOk(k));
          ArrayStays(k, {});
        }
      }
      forall j | 0 <= j < |own| ensures OwnOk(j) {
        if j < |old(own)| {
          assert old(OwnOk(j));
          OwnStays(j, {});
        }
      }
    }

    /** array_init of one more array. */
    method Init(n: nat, size: nat, a: Answers) returns (ok: bool)
      requires Inv() && AllowedIn(S(), Op.Init(n, size, a))
      modifies this`arrays, this`logs, this`holder, this`repr, pool
      ensures Inv() && logs == AfterOp(old(logs), Op.Init(n, size, a), ok)
      ensures (S(), ok) == Apply(old(S()), Op.Init(n, size, a))
      ensures old(arrays) <= arrays && repr >= old(repr) && fresh(repr - old(repr))
    {
      hide Pool.Valid, PallocOf, Array.MovedTo, Array.Refused;
      var r := new Array(pool, mem, n, size, a);
      ok := r.elts != 0;
      if ok {
        holder := holder[r.id := OfArray(|arrays|)];
        arrays, logs, repr := arrays + [r], logs + [[]], repr + {r};
        assert ArrayOk(|arrays| - 1);
      }
      hide ArrayOk, OwnOk;
      Added();
      SameShapes();
    }

    /** The arrays of before are what they were. */
    twostate lemma SameShapes()
      requires old(arrays) <= arrays
      requires forall l :: 0 <= l < |old(arrays)| ==> arrays[l].Fields() == old(arrays[l].Fields())
      ensures |arrays| == |old(arrays)| ==> S().arrays == old(S()).arrays
      ensures |arrays| == |old(arrays)| + 1 ==> S().arrays == old(S()).arrays + [arrays[|arrays| - 1].Fields()]
    {
    }

    /** palloc, which only adds a piece. */
    method TakePiece(size: nat, align: bool, a: Answers) returns (p: int)
      requires pool.Valid() && pool.pending == 0 && Answered(pool, size, a)
      modifies pool
      ensures pool.Valid() && pool.pending == 0 && (pool.S(), p) == PallocOf(old(pool.S()), size, align, a.p, a.q)
      ensures forall o :: o in old(pool.pieces) ==> o in pool.pieces && pool.pieces[o] == old(pool.pieces)[o]
      ensures p != 0 ==>
                && 0 < pool.next && pool.next - 1 in pool.pieces && pool.next - 1 !in old(pool.pieces)
                && var q := pool.pieces[pool.next - 1]; q.addr == p && q.size == size && !q.element
    {
      hide Pool.Valid, Pool.Fitted, Pool.NoRoom, PallocOf;
      IdsBelow();
      p := pool.Palloc(size, align, a.p, a.q);
    }

    /** palloc or pnalloc. */
    method Alloc(size: nat, align: bool, a: Answers) returns (ok: bool)
      requires Inv() && AllowedIn(S(), Op.Alloc(size, align, a))
      modifies this`own, this`ids, this`notes, this`holder, pool
      ensures Inv() && old(notes) <= notes
      ensures (S(), ok) == Apply(old(S()), Op.Alloc(size, align, a))
    {
      hide Array.Valid, Pool.Valid, Pool.Fitted, Pool.NoRoom, PallocOf;
      var p := TakePiece(size, align, a);
      ok := p != 0;
      if ok {
        own, ids, notes := own + [Own(p, size, true)], ids + [pool.next - 1], notes + [mem.Bytes(p, size)];
        holder := holder[pool.next - 1 := OfOwn(|own| - 1)];
        assert OwnOk(|own| - 1);
      }
      hide ArrayOk, OwnOk;
      Added();
      SameShapes();
    }

    /** pmemalign */
    method Memalign(size: nat, alignment: nat, a: Answers) returns (ok: bool)
      requires Inv() && AllowedIn(S(), Op.Memalign(size, alignment, a))
      modifies this`own, this`ids, this`notes, this`holder, pool
      ensures Inv() && old(notes) <= notes
      ensures (S(), ok) == Apply(old(S()), Op.Memalign(size, alignment, a))
    {
      hide Array.Valid, Pool.Valid, Pool.Fitted, Pool.NoRoom, PmemalignOf;
      IdsBelow();
      var p := pool.Pmemalign(size, alignment, a.p, a.q);
      ok := p != 0;
      if ok {
        own, ids, notes := own + [Own(p, size, true)], ids + [pool.next - 1], notes + [mem.Bytes(p, size)];
        holder := holder[pool.next - 1 := OfOwn(|own| - 1)];
        assert OwnOk(|own| - 1);
      }
      hide ArrayOk, OwnOk;
      Added();
      SameShapes();
    }

    /** What happens to one of the other allocations disturbs nothing else. */
    twostate lemma Touched(new j: nat)
      requires old(Inv()) && pool.Valid() && pool.pending == 0 && j < |old(ids)| && j < |own| == |old(own)|
      requires Kept({old(ids)[j]})
      requires arrays == old(arrays) && logs == old(logs) && repr == old(repr) && ids == old(ids)
      requires holder == old(holder)
      requires |notes| == |own|
      requires forall i :: 0 <= i < |own| && i != j ==> own[i] == old(own)[i] && notes[i] == old(notes)[i]
      requires forall r: Array :: r in repr ==>
                 r.elts == old(r.elts) && r.nelts == old(r.nelts) && r.nalloc == old(r.nalloc) && r.id == old(r.id)
      requires old(own)[j].alive && OwnOk(j)
      ensures Inv()
    {
      assert old(OwnOk(j));
      forall k | 0 <= k < |arrays| ensures ArrayOk(k) {
        assert old(ArrayOk(k));
        ArrayStays(k, {ids[j]});
      }
      forall i | 0 <= i < |own| ensures OwnOk(i) {
        if i != j {
          assert old(OwnOk(i));
          OwnStays(i, {ids[j]});
        }
      }
    }

    /** pfree of another allocation that is not empty: an empty one may share its address. It is gone if
        it was a large one, and stays otherwise. */
    method Free(j: nat) returns (ok: bool)
      requires Inv() && AllowedIn(S(), Op.Free(j))
      modifies this`own, pool
      ensures Inv() && (S(), ok) == Apply(old(S()), Op.Free(j))
      ensures j < |old(ids)| && old(ids)[j] in old(pool.pieces) && (ok <==> old(pool.pieces)[old(ids)[j]].home.InLarge?)
    {
      hide PfreeOf;
      assert OwnOk(j);
      pool.LargeIsListed(ids[j]);
      assert pool.PieceOk(ids[j]) && (pool.pieces[ids[j]].home.InBlock? ==> pool.BlockOk(pool.pieces[ids[j]].home.i));
      forall o | o in pool.pieces && o != ids[j] ensures pool.pieces[o].home != InLarge(own[j].addr) {
        pool.OneLarge(ids[j], o);
      }
      var r := pool.Pfree(own[j].addr);
      ok := r == 0;
      if ok {
        own := own[j := own[j].(alive := false)];
      }
      Touched(j);
      SameShapes();
    }

    /** A write of the caller inside another allocation. */
    method Store(j: nat, at: nat, bytes: seq<int>)
      requires Inv() && AllowedIn(S(), Op.Store(j, at, bytes))
      modifies this`notes, mem
      ensures Inv() && j < |old(notes)| && (S(), true) == Apply(old(S()), Op.Store(j, at, bytes))
      ensures at + |bytes| <= |old(notes)[j]|
      ensures notes == old(notes)[j := Overwritten(old(notes)[j], at, bytes)]
    {
      assert OwnOk(j);
      mem.Store(own[j].addr + at, bytes);
      mem.Wrote(own[j].addr, own[j].size, at, bytes);
      notes := notes[j := mem.Bytes(own[j].addr, own[j].size)];
      mem.WroteInside(pool.pieces, ids[j], own[j].addr + at, |bytes|);
      Touched(j);
      SameShapes();
    }

    // ---------- runs ----------

    lemma Known(k: nat)
      requires Inv() && k < |arrays|
      ensures ArrayOk(k) && arrays[k] in repr
    {
    }

    lemma LogsAreContents()
      requires Inv()
      ensures |logs| == |arrays| && forall k :: 0 <= k < |arrays| ==> arrays[k].Contents() == logs[k]
    {
      forall k | 0 <= k < |arrays| ensures arrays[k].Contents() == logs[k] { assert ArrayOk(k); }
    }

    /** Nothing that is allowed fails when the system grants what it is asked for, except pfree of a piece that
        lies in a block. */
    lemma GrantedSucceeds(op: Op)
      requires Inv() && AllowedIn(S(), op) && Granted(op)
      ensures Apply(S(), op).1
    {
      hide PallocOf, PmemalignOf, PushOf, PushNOf, Inv, ArrayOk, OwnOk;
      BlocksSet();
      var s := S().pool;
      match op {
        case Init(n, size, a) => PallocFails(s, size * n, true, a.p, a.q);
        case Push(k, _, a) =>
          EltsSet(k);
          PushFails(s, S().arrays[k], a);
          PallocFails(s, S().arrays[k].size * (2 * S().arrays[k].nalloc), true, a.p, a.q);
        case PushN(k, n, _, a) =>
          EltsSet(k);
          PushNFails(s, S().arrays[k], n, a);
          PallocFails(s, S().arrays[k].size * Doubled(S().arrays[k].nalloc, n), true, a.p, a.q);
        case Alloc(size, align, a) => PallocFails(s, size, align, a.p, a.q);
        case Memalign(size, _, a) => PmemalignFails(s, size, a.p, a.q);
        case Free(_) =>
        case Store(_, _, _) =>
      }
    }

    lemma BlocksSet()
      requires Inv()
      ensures Sane(S().pool, 0, 0)
    {
      forall i | 0 <= i < |pool.blocks| ensures 0 < pool.blocks[i].last { assert pool.BlockOk(i); }
    }

    lemma EltsSet(k: nat)
      requires Inv() && k < |arrays|
      ensures 0 < S().arrays[k].elts
    {
      assert ArrayOk(k);
      arrays[k].NotNull();
    }

    /** One operation, exactly as the function says, including whether it succeeds. */
    method Perform(op: Op) returns (ok: bool)
      requires Inv()
      modifies this, pool, mem, repr
      ensures Inv() && logs == AfterOp(old(logs), op, ok)
      ensures (S(), ok) == Apply(old(S()), op)
      ensures (ok ==> AllowedIn(old(S()), op)) && (AllowedIn(old(S()), op) && Granted(op) ==> ok)
      ensures old(arrays) <= arrays && old(repr) <= repr && fresh(repr - old(repr))
      ensures |old(notes)| <= |notes|
      ensures forall j :: 0 <= j < |old(notes)| ==>
                notes[j] == if ok && op.Store? && op.j == j then Overwritten(old(notes)[j], op.at, op.bytes)
                            else old(notes)[j]
    {
      hide Apply, Overwritten;
      ok := false;
      if !AllowedIn(S(), op) {
        NotAllowed(S(), op);
      } else {
        if Granted(op) {
          GrantedSucceeds(op);
        }
        match op {
          case Init(n, size, a) => ok := Init(n, size, a);
          case Push(k, bytes, a) =>
            Known(k);
            ok := Append(k, bytes, a);
          case PushN(k, n, bytes, a) =>
            Known(k);
            ok := AppendN(k, n, bytes, a);
          case Alloc(size, align, a) => ok := Alloc(size, align, a);
          case Memalign(size, alignment, a) => ok := Memalign(size, alignment, a);
          case Free(j) => ok := Free(j);
          case Store(j, at, bytes) =>
            Store(j, at, bytes);
            ok := true;
        }
      }
    }

    /** Any sequence of operations: each succeeds exactly when the function says so, every array is an
        append-only sequence of what was pushed to it, and an allocation holds what was written to it. */
    method Run(ops: seq<Op>) returns (oks: seq<bool>)
      requires Inv()
      modifies this, pool, mem, repr
      ensures Inv() && (S(), oks) == ApplyAll(old(S()), ops)
      ensures forall i :: 0 <= i < |ops| ==> Justified(ApplyAll(old(S()), ops[..i]).0, ops[i], oks[i])
      ensures logs == Replay(old(logs), ops, oks) && Extends(old(logs), logs)
      ensures old(arrays) <= arrays && old(repr) <= repr && fresh(repr - old(repr))
      ensures forall k :: 0 <= k < |old(arrays)| ==>
                old(arrays[k].Contents()) <= arrays[k].Contents() && old(arrays[k].nalloc) <= arrays[k].nalloc
      ensures |old(notes)| <= |notes|
      ensures forall j :: 0 <= j < |old(notes)| ==> notes[j] == NoteAfter(old(notes)[j], j, ops, oks)
    {
      hide Inv, AfterOp, Apply, Overwritten, AllowedIn, Ran;
      ghost var s := S();
      LogsAreContents();
      RanNone(s, ops);
      oks := [];
      var i := 0;
      while i < |ops|
        invariant 0 <= i <= |ops| && |oks| == i && Inv() && logs == Replay(old(logs), ops[..i], oks)
        invariant Ran(s, ops, i, oks, S())
        invariant old(arrays) <= arrays && old(repr) <= repr && fresh(repr - old(repr))
        invariant |old(notes)| <= |notes|
        invariant forall j :: 0 <= j < |old(notes)| ==> notes[j] == NoteAfter(old(notes)[j], j, ops[..i], oks)
      {
        ghost var t := S();
        var ok := Perform(ops[i]);
        RanOne(s, ops, i, oks, t, S(), ok);
        ReplayMore(old(logs), ops, i, oks, ok);
        forall j | 0 <= j < |old(notes)| ensures notes[j] == NoteAfter(old(notes)[j], j, ops[..i + 1], oks + [ok]) {
          NoteMore(old(notes)[j], j, ops, i, oks, ok);
        }
        oks := oks + [ok];
        i := i + 1;
      }
      assert ops[..i] == ops;
      RanAll(s, ops, oks, S());
      ReplayExtends(old(logs), ops, oks);
      CapacityStays(old(S()), ops);
      LogsAreContents();
      forall k | 0 <= k < |old(arrays)| ensures old(arrays[k].nalloc) <= arrays[k].nalloc {
        assert S().arrays[k] == arrays[k].Fields() && old(S()).arrays[k] == old(arrays[k].Fields());
      }
    }
  }

  // ---------- pfree of an empty allocation ----------

  const HALF := PoolState(96, 40, [Block(16, 72, 0)], 0, [], map[16 := 96])
  const TIGHT := HALF.(blocks := [Block(16, 112, 0)])

  /** A small block is filled up, an empty allocation is at its end, and the system places a large region
      behind the block. */
  lemma FillingUp()
    ensures PallocOf(HALF, 40, true, 0, 0) == (TIGHT, 72)
    ensures PallocOf(TIGHT, 0, true, 0, 0) == (TIGHT, 112)
    ensures PallocOf(TIGHT, 41, true, 112, 1024) ==
            (TIGHT.(blocks := [Block(16, 112, 0), Block(1024, 1072, 0)], large := [Large(1056, 112)],
                    live := map[16 := 96, 112 := 41, 1024 := 96]), 112)
  {
    assert Aligned(72) == 72 && Aligned(112) == 112;
    hide Aligned;
    assert FirstRoom(HALF.blocks, 0, 96, 40, true) == 0 && FirstRoom(TIGHT.blocks, 0, 96, 0, true) == 0;
    assert FirstRoom(TIGHT.blocks, 0, 96, 16, true) == 1;
    assert Failed(TIGHT.blocks, 0) == TIGHT.blocks && SkipTo(TIGHT.blocks, 0, 0) == 0;
    hide FirstRoom, Failed, SkipTo;
    assert HALF.blocks[0 := Block(16, 112, 0)] == TIGHT.blocks == TIGHT.blocks[0 := Block(16, 112, 0)];
    assert TIGHT.blocks + [Block(1024, 1072, 0)] == [Block(16, 112, 0), Block(1024, 1072, 0)];
    assert map[16 := 96][112 := 41][1024 := 96] == map[16 := 96, 112 := 41, 1024 := 96];
    assert [Large(1056, 112)] + [] == [Large(1056, 112)];
    var s := TIGHT.(live := TIGHT.live[112 := 41]);
    assert SmallOf(s, 16, true, 1024) ==
           (s.(blocks := [Block(16, 112, 0), Block(1024, 1072, 0)],
               live := map[16 := 96, 112 := 41, 1024 := 96]), 1056);
  }

  method EmptyBeforeLarge() returns (pool: Pool, m: int, ghost empty: nat, ghost large: nat)
    ensures fresh(pool) && pool.Valid() && pool.pending == 0
    ensures empty in pool.pieces && pool.pieces[empty].addr == m != 0 && pool.pieces[empty].size == 0
    ensures large in pool.pieces && pool.pieces[large] == Piece(m, 41, InLarge(m), false)
    ensures pool.large == [Large(1056, m)] && empty != large && pool.pieces[empty].home.InBlock?
  {
    FillingUp();
    hide PallocOf, Pool.Valid, Pool.Fitted, Pool.NoRoom;
    pool := new Pool(96, 16);
    assert pool.S() == HALF;
    var first := pool.Palloc(40, true, 0, 0);
    m := pool.Palloc(0, true, 0, 0);
    empty := pool.next - 1;
    IdBelow(pool, empty);
    ghost var next := pool.next;
    var second := pool.Palloc(41, true, 112, 1024);
    large := pool.next - 1;
    LargeAt(pool, large);
  }

  lemma LargeAt(pool: Pool, id: nat)
    requires pool.Valid() && id in pool.pieces && pool.pieces[id].home.InLarge?
    ensures pool.pieces[id].home == InLarge(pool.pieces[id].addr)
  {
    assert pool.PieceOk(id);
  }

  /** pfree of the empty allocation frees the large one. */
  method PfreeFreesAnother()
    returns (pool: Pool, r: int, ghost before: map<nat, Piece>, ghost empty: nat, ghost large: nat)
    ensures empty in before && large in before && empty != large
    ensures before[empty].addr == before[large].addr && before[empty].size == 0 && before[large].size == 41
    ensures r == 0 && empty in pool.pieces && large !in pool.pieces
  {
    var m;
    pool, m, empty, large := EmptyBeforeLarge();
    before := pool.pieces;
    assert pool.large[0].alloc == m;
    r := pool.Pfree(m);
  }
}
