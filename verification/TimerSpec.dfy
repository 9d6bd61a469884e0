/** The timer queue of event_timer.c as a sequence of deadlines in firing order. */
module TimerSpec {
  import opened Integers
  import opened RbSpec

  /** An armed timer: the event it belongs to and its deadline. */
  datatype Timer = Timer(id: nat, key: Key)

  const TIMER_INFINITE: Key := 0xFFFF_FFFF_FFFF_FFFF
  const TIMER_LAZY_DELAY := 300

  /** What a handler does through the timer interface; `Del` is guarded by `timer_set`. */
  datatype Op = Add(id: nat, timer: Key) | Del(id: nat)

  function Keys(v: seq<Timer>): (ks: seq<Key>)
    ensures |ks| == |v| && forall i :: 0 <= i < |v| ==> ks[i] == v[i].key
  {
    seq(|v|, i requires 0 <= i < |v| => v[i].key)
  }

  /** Every event has at most one armed timer. */
  ghost predicate Distinct(v: seq<Timer>) {
    forall i, j :: 0 <= i < j < |v| ==> v[i].id != v[j].id
  }

  /** In firing order, inside the window that starts at `base`. */
  ghost predicate Ordered(base: Key, v: seq<Timer>) {
    InWindow(ByTimer, base, Keys(v)) && Sorted(ByTimer, Keys(v))
  }

  function Armed(v: seq<Timer>, id: nat): bool {
    exists i :: 0 <= i < |v| && v[i].id == id
  }

  function Without(v: seq<Timer>, id: nat): seq<Timer> {
    if v == [] then [] else if v[0].id == id then Without(v[1..], id) else [v[0]] + Without(v[1..], id)
  }

  /** Behind every deadline that is not later. */
  function Placed(v: seq<Timer>, t: Timer): seq<Timer> {
    if v == [] then [t] else if Before(ByTimer, t.key, v[0].key) then [t] + v else [v[0]] + Placed(v[1..], t)
  }

  function Abs(x: int): nat { if x < 0 then -x else x }

  /** An armed timer whose old deadline is close to the new one keeps it. */
  predicate Lazy(v: seq<Timer>, t: Timer) {
    exists i :: 0 <= i < |v| && v[i].id == t.id && Abs(Diff(t.key, v[i].key)) < TIMER_LAZY_DELAY
  }

  function Arm(v: seq<Timer>, t: Timer): seq<Timer> {
    if Lazy(v, t) then v else Placed(Without(v, t.id), t)
  }

  function Deadline(now: Key, timer: Key): Key { (now + timer) % TWO64 }

  function Apply(v: seq<Timer>, now: Key, op: Op): seq<Timer> {
    match op
    case Add(id, timer) => Arm(v, Timer(id, Deadline(now, timer)))
    case Del(id) => Without(v, id)
  }

  function ApplyAll(v: seq<Timer>, now: Key, ops: seq<Op>): seq<Timer> {
    if ops == [] then v else Apply(ApplyAll(v, now, ops[..|ops| - 1]), now, ops[|ops| - 1])
  }

  predicate IsDue(now: Key, t: Timer) { Diff(t.key, now) <= 0 }

  /** The timers that are due, in the order of `v`. */
  function Due(v: seq<Timer>, now: Key): seq<Timer> {
    if v == [] then [] else (if IsDue(now, v[0]) then [v[0]] else []) + Due(v[1..], now)
  }

  /** What an operation takes away from the due timers. An operation that arms a timer for later
      adds nothing to them. */
  function Strike(due: seq<Timer>, now: Key, op: Op): seq<Timer> {
    match op
    case Add(id, timer) => if Lazy(due, Timer(id, Deadline(now, timer))) then due else Without(due, id)
    case Del(id) => Without(due, id)
  }

  function StrikeAll(due: seq<Timer>, now: Key, ops: seq<Op>): (r: seq<Timer>)
    ensures |r| <= |due|
  {
    if ops == [] then due else
    var before := StrikeAll(due, now, ops[..|ops| - 1]);
    WithoutLength(before, ops[|ops| - 1].id);
    Strike(before, now, ops[|ops| - 1])
  }

  lemma WithoutLength(v: seq<Timer>, id: nat)
    ensures |Without(v, id)| <= |v|
  {
  }

  /** The timers fired by one call of event_expire_timers when the handler of the `step`-th one
      does `plan(step)`: the first due timer, then what its handler leaves of the others. */
  function Fired(due: seq<Timer>, now: Key, plan: nat -> seq<Op>, step: nat): seq<Timer>
    decreases |due|
  {
    if due == [] then [] else [due[0]] + Fired(StrikeAll(due[1..], now, plan(step)), now, plan, step + 1)
  }

  /** The queue after `n` timers of such a call have been fired. */
  function After(v: seq<Timer>, now: Key, plan: nat -> seq<Op>, n: nat): seq<Timer> {
    if n == 0 then v else
    var before := After(v, now, plan, n - 1);
    ApplyAll(if before == [] then [] else before[1..], now, plan(n - 1))
  }

  /** An operation arms a timer only for a later time, inside the window. */
  predicate Later(base: Key, now: Key, op: Op) {
    op.Add? ==> 0 < op.timer < TWO63 && Offset(base, Deadline(now, op.timer)) < TWO63
  }

  // ---------- laws ----------

  lemma {:induction false} WithoutParts(v: seq<Timer>, id: nat)
    ensures Armed(Without(v, id), id) == false
    ensures !Armed(v, id) ==> Without(v, id) == v
    ensures forall t :: t in Without(v, id) <==> t in v && t.id != id
  {
    if v != [] {
      WithoutParts(v[1..], id);
      if !Armed(v, id) {
        assert v[0].id != id;
        assert forall i :: 0 <= i < |v[1..]| ==> v[1..][i] == v[i + 1];
        assert v == [v[0]] + v[1..];
      }
    }
  }

  /** Removing one occurrence by position is removing by name. */
  lemma {:induction false} WithoutAt(v: seq<Timer>, k: nat)
    requires Distinct(v) && k < |v|
    ensures Without(v, v[k].id) == v[..k] + v[k + 1..]
  {
    var w := v[1..];
    assert forall i :: 0 <= i < |w| ==> w[i] == v[i + 1];
    if k == 0 {
      assert !Armed(w, v[0].id);
      WithoutParts(w, v[0].id);
      assert v[..0] + v[1..] == w;
    } else {
      WithoutAt(w, k - 1);
      assert w[k - 1] == v[k];
      assert v[..k] + v[k + 1..] == [v[0]] + (w[..k - 1] + w[k..]);
    }
  }

  /** Inserting at the boundary is inserting behind every deadline that is not later. */
  lemma {:induction false} PlacedAt(v: seq<Timer>, t: Timer, k: nat)
    requires Boundary(ByTimer, Keys(v), t.key, k)
    ensures Placed(v, t) == v[..k] + [t] + v[k..]
  {
    if v != [] {
      var w := v[1..];
      assert Keys(v)[0] == v[0].key;
      if k == 0 {
        assert v[..0] + [t] + v[0..] == [t] + v;
      } else {
        forall i | 0 <= i < |w| ensures Before(ByTimer, t.key, Keys(w)[i]) <==> k - 1 <= i {
          assert Keys(w)[i] == Keys(v)[i + 1];
        }
        PlacedAt(w, t, k - 1);
        assert v[..k] + [t] + v[k..] == [v[0]] + (w[..k - 1] + [t] + w[k - 1..]);
      }
    }
  }

  lemma WithoutKeeps(base: Key, v: seq<Timer>, id: nat)
    requires Ordered(base, v) && Distinct(v)
    ensures Ordered(base, Without(v, id)) && Distinct(Without(v, id))
  {
    if k :| 0 <= k < |v| && v[k].id == id {
      WithoutAt(v, k);
      hide Without;
      OneLess(base, v, k);
    } else {
      WithoutParts(v, id);
    }
  }

  lemma OneLess(base: Key, v: seq<Timer>, k: nat)
    requires Ordered(base, v) && Distinct(v) && k < |v|
    ensures Ordered(base, v[..k] + v[k + 1..]) && Distinct(v[..k] + v[k + 1..])
  {
    var w := v[..k] + v[k + 1..];
    forall i | 0 <= i < |w|
      ensures w[i] == (if i < k then v[i] else v[i + 1]) && Keys(w)[i] == Keys(v)[if i < k then i else i + 1]
    {
    }
  }

  lemma PlacedKeeps(base: Key, v: seq<Timer>, t: Timer)
    requires Ordered(base, v) && Distinct(v) && !Armed(v, t.id) && Offset(base, t.key) < TWO63
    ensures Ordered(base, Placed(v, t)) && Distinct(Placed(v, t))
  {
    var k := BoundaryExists(ByTimer, base, Keys(v), t.key);
    PlacedAt(v, t, k);
    InsertKeepsSorted(ByTimer, base, Keys(v), t.key, k);
    PlacedDistinct(v, t, k);
    hide Placed, Distinct, Armed, Boundary;
    var ks := Keys(v)[..k] + [t.key] + Keys(v)[k..];
    assert Keys(Placed(v, t)) == ks;
    assert InWindow(ByTimer, base, ks);
  }

  lemma PlacedDistinct(v: seq<Timer>, t: Timer, k: nat)
    requires Distinct(v) && !Armed(v, t.id) && k <= |v|
    ensures Distinct(v[..k] + [t] + v[k..])
  {
    var w := v[..k] + [t] + v[k..];
    assert forall i :: 0 <= i < |w| ==> w[i] == if i < k then v[i] else if i == k then t else v[i - 1];
  }

  /** Every operation within the window keeps the queue in firing order, one timer an event. */
  lemma ApplyKeeps(base: Key, v: seq<Timer>, now: Key, op: Op)
    requires Ordered(base, v) && Distinct(v)
    requires op.Add? ==> Offset(base, Deadline(now, op.timer)) < TWO63
    ensures Ordered(base, Apply(v, now, op)) && Distinct(Apply(v, now, op))
  {
    WithoutKeeps(base, v, op.id);
    WithoutParts(v, op.id);
    if op.Add? {
      PlacedKeeps(base, Without(v, op.id), Timer(op.id, Deadline(now, op.timer)));
    }
  }

  lemma {:induction false} DueParts(v: seq<Timer>, now: Key)
    ensures |Due(v, now)| <= |v|
    ensures forall t :: t in Due(v, now) <==> t in v && IsDue(now, t)
  {
    if v != [] {
      DueParts(v[1..], now);
    }
  }

  lemma DueCons(t: Timer, rest: seq<Timer>, now: Key)
    ensures Due([t] + rest, now) == if IsDue(now, t) then [t] + Due(rest, now) else Due(rest, now)
  {
    assert ([t] + rest)[1..] == rest;
  }

  lemma WithoutCons(t: Timer, rest: seq<Timer>, id: nat)
    ensures Without([t] + rest, id) == if t.id == id then Without(rest, id) else [t] + Without(rest, id)
  {
    assert ([t] + rest)[1..] == rest;
  }

  lemma {:induction false} DueWithout(v: seq<Timer>, now: Key, id: nat)
    ensures Due(Without(v, id), now) == Without(Due(v, now), id)
  {
    if v != [] {
      var t, rest := v[0], v[1..];
      hide Due, Without;
      assert v == [t] + rest;
      DueWithout(rest, now, id);
      DueCons(t, rest, now);
      WithoutCons(t, rest, id);
      DueCons(t, Without(rest, id), now);
      WithoutCons(t, Due(rest, now), id);
    }
  }

  lemma {:induction false} DuePlaced(v: seq<Timer>, now: Key, t: Timer)
    requires !IsDue(now, t)
    ensures Due(Placed(v, t), now) == Due(v, now)
  {
    if v == [] {
    } else if Before(ByTimer, t.key, v[0].key) {
      assert ([t] + v)[1..] == v;
    } else {
      DuePlaced(v[1..], now, t);
      assert ([v[0]] + Placed(v[1..], t))[1..] == Placed(v[1..], t);
    }
  }

  /** A timer that is left where it is stays due if it was. */
  lemma DueLazy(v: seq<Timer>, now: Key, t: Timer)
    requires Distinct(v) && Lazy(v, t)
    ensures if Lazy(Due(v, now), t) then true else !Armed(Due(v, now), t.id)
  {
    DueParts(v, now);
    var i :| 0 <= i < |v| && v[i].id == t.id && Abs(Diff(t.key, v[i].key)) < TIMER_LAZY_DELAY;
    hide Due;
    if v[i] in Due(v, now) {
      assert Lazy(Due(v, now), t);
    } else {
      forall d | d in Due(v, now) ensures d.id != t.id {
        assert d in v;
      }
    }
  }

  lemma DueBusy(v: seq<Timer>, now: Key, t: Timer)
    requires !Lazy(v, t)
    ensures !Lazy(Due(v, now), t)
  {
    DueParts(v, now);
    forall d | d in Due(v, now) && d.id == t.id ensures Abs(Diff(t.key, d.key)) >= TIMER_LAZY_DELAY {
      assert d in v;
    }
  }

  /** An operation that only arms for later strikes from the due timers what `Strike` says, whatever
      else is armed: lazy re-arming neither adds nor removes a due timer. */
  lemma DueApply(v: seq<Timer>, now: Key, op: Op)
    requires Distinct(v) && (op.Add? ==> 0 < op.timer < TWO63)
    ensures Due(Apply(v, now, op), now) == Strike(Due(v, now), now, op)
  {
    DueWithout(v, now, op.id);
    if op.Add? {
      var t := Timer(op.id, Deadline(now, op.timer));
      assert Diff(t.key, now) == op.timer;
      hide Due, Lazy, Distinct, Without, Placed, Diff;
      if Lazy(v, t) {
        DueLazy(v, now, t);
        WithoutParts(Due(v, now), t.id);
      } else {
        DueBusy(v, now, t);
        DuePlaced(Without(v, t.id), now, t);
      }
    }
  }

  lemma {:induction false} ApplyAllKeeps(base: Key, v: seq<Timer>, now: Key, ops: seq<Op>)
    requires Ordered(base, v) && Distinct(v) && forall op :: op in ops ==> Later(base, now, op)
    ensures Ordered(base, ApplyAll(v, now, ops)) && Distinct(ApplyAll(v, now, ops))
    ensures Due(ApplyAll(v, now, ops), now) == StrikeAll(Due(v, now), now, ops)
  {
    if ops != [] {
      var init, op := ops[..|ops| - 1], ops[|ops| - 1];
      ApplyAllKeeps(base, v, now, init);
      assert op in ops;
      ApplyKeeps(base, ApplyAll(v, now, init), now, op);
      DueApply(ApplyAll(v, now, init), now, op);
    }
  }

  lemma FirstIsEarliest(base: Key, v: seq<Timer>, now: Key, t: Timer)
    requires Ordered(base, v) && Offset(base, now) < TWO63 && t in v
    ensures Diff(v[0].key, now) <= Diff(t.key, now)
  {
    var i :| 0 <= i < |v| && v[i] == t;
    assert Keys(v)[i] == t.key && Keys(v)[0] == v[0].key;
    DiffIsOffset(base, v[0].key, now);
    DiffIsOffset(base, t.key, now);
    if 0 < i {
      BeforeIsLess(ByTimer, base, t.key, v[0].key);
    }
  }

  lemma {:induction false} NothingDue(v: seq<Timer>, now: Key)
    requires forall t :: t in v ==> !IsDue(now, t)
    ensures Due(v, now) == []
  {
    if v != [] {
      NothingDue(v[1..], now);
    }
  }

  /** When the first deadline is in the future, so are all of them. */
  lemma {:induction false} NoneDue(base: Key, v: seq<Timer>, now: Key)
    requires Ordered(base, v) && Offset(base, now) < TWO63
    requires v != [] ==> !IsDue(now, v[0])
    ensures Due(v, now) == []
    ensures forall t :: t in v ==> !IsDue(now, t)
  {
    forall t | t in v ensures !IsDue(now, t) {
      FirstIsEarliest(base, v, now, t);
    }
    NothingDue(v, now);
  }

  /** Firing the first timer `v[0]`, which is due, and running its handler is one step of `Fired`. */
  lemma FireStep(base: Key, v: seq<Timer>, now: Key, ops: seq<Op>)
    requires Ordered(base, v) && Distinct(v) && v != [] && IsDue(now, v[0])
    requires forall op :: op in ops ==> Later(base, now, op)
    ensures Without(v, v[0].id) == v[1..] && Ordered(base, v[1..]) && Distinct(v[1..])
    ensures Due(v, now) == [v[0]] + Due(v[1..], now)
    ensures var w := ApplyAll(v[1..], now, ops);
            Ordered(base, w) && Distinct(w) && Due(w, now) == StrikeAll(Due(v[1..], now), now, ops)
            && |Due(w, now)| < |Due(v, now)|
  {
    assert Without(v, v[0].id) == v[1..] by {
      hide Without, Ordered;
      WithoutAt(v, 0);
      assert v[..0] + v[1..] == v[1..];
    }
    assert Due(v, now) == [v[0]] + Due(v[1..], now);
    hide *;
    WithoutKeeps(base, v, v[0].id);
    ApplyAllKeeps(base, v[1..], now, ops);
  }

  /** One turn of the expiry loop: of the timers `due`, `t` is fired and `left` remain due. */
  lemma FiredTurn(total: seq<Timer>, fired: seq<Timer>, due: seq<Timer>, t: Timer, rest: seq<Timer>, left: seq<Timer>,
                  now: Key, plan: nat -> seq<Op>)
    requires total == fired + Fired(due, now, plan, |fired|)
    requires due == [t] + rest && left == StrikeAll(rest, now, plan(|fired|))
    ensures total == fired + [t] + Fired(left, now, plan, |fired + [t]|)
    ensures |left| < |due|
  {
    assert due[1..] == rest;
    assert |fired + [t]| == |fired| + 1;
    var more := Fired(left, now, plan, |fired| + 1);
    assert fired + ([t] + more) == fired + [t] + more;
  }

  /** Before the first turn, and when nothing is due. */
  lemma NoTurn(v: seq<Timer>, now: Key, plan: nat -> seq<Op>, n: nat)
    ensures After(v, now, plan, 0) == v
    ensures Fired([], now, plan, n) == []
  {
  }

  lemma AfterTurn(v: seq<Timer>, now: Key, plan: nat -> seq<Op>, n: nat)
    ensures var u := After(v, now, plan, n);
            u != [] ==> After(v, now, plan, n + 1) == ApplyAll(u[1..], now, plan(n))
  {
  }

  // ---------- what the firing order means ----------

  /** `a` is `b` with some elements left out. */
  predicate Subsequence(a: seq<Timer>, b: seq<Timer>) {
    if a == [] then true else b != [] && (if a[0] == b[0] then Subsequence(a[1..], b[1..]) else Subsequence(a, b[1..]))
  }

  lemma {:induction false} SubsequenceIn(a: seq<Timer>, b: seq<Timer>, t: Timer)
    requires Subsequence(a, b) && t in a
    ensures t in b
  {
    if a[0] == b[0] {
      if t != a[0] { SubsequenceIn(a[1..], b[1..], t); }
    } else {
      SubsequenceIn(a, b[1..], t);
    }
  }

  lemma {:induction false} SubsequenceTail(a: seq<Timer>, b: seq<Timer>)
    requires Subsequence(a, b) && a != []
    ensures Subsequence(a[1..], b)
  {
    if a[0] == b[0] {
      if a[1..] != [] && a[1] == b[0] {
        SubsequenceTail(a[1..], b[1..]);
      }
    } else {
      SubsequenceTail(a, b[1..]);
      if a[1..] != [] && a[1] == b[0] {
        SubsequenceTail(a[1..], b[1..]);
      }
    }
  }

  lemma {:induction false} SubsequenceTrans(a: seq<Timer>, b: seq<Timer>, c: seq<Timer>)
    requires Subsequence(a, b) && Subsequence(b, c)
    ensures Subsequence(a, c)
    decreases |c|
  {
    if a != [] {
      if b[0] == c[0] {
        if a[0] == b[0] { SubsequenceTrans(a[1..], b[1..], c[1..]); } else { SubsequenceTrans(a, b[1..], c[1..]); }
      } else {
        SubsequenceTrans(a, b, c[1..]);
        if a[0] == c[0] { SubsequenceTail(a, c[1..]); }
      }
    }
  }

  lemma {:induction false} WithoutSubsequence(v: seq<Timer>, id: nat)
    ensures Subsequence(Without(v, id), v)
  {
    if v != [] {
      WithoutSubsequence(v[1..], id);
      if v[0].id == id {
        var w := Without(v, id);
        if w != [] && w[0] == v[0] { SubsequenceTail(w, v[1..]); }
      }
    }
  }

  lemma {:induction false} SelfSubsequence(v: seq<Timer>)
    ensures Subsequence(v, v)
  {
    if v != [] { SelfSubsequence(v[1..]); }
  }

  lemma {:induction false} StrikeAllSubsequence(due: seq<Timer>, now: Key, ops: seq<Op>)
    ensures Subsequence(StrikeAll(due, now, ops), due)
  {
    SelfSubsequence(due);
    if ops != [] {
      var init, op := ops[..|ops| - 1], ops[|ops| - 1];
      StrikeAllSubsequence(due, now, init);
      var before := StrikeAll(due, now, init);
      WithoutSubsequence(before, op.id);
      SelfSubsequence(before);
      SubsequenceTrans(Strike(before, now, op), before, due);
    }
  }

  /** Only due timers fire, each at most once, and in the order of their deadlines, first armed
      first among equals: the fired timers are the due ones in their order, some left out. */
  lemma {:induction false} FiredSubsequence(due: seq<Timer>, now: Key, plan: nat -> seq<Op>, step: nat)
    ensures Subsequence(Fired(due, now, plan, step), due)
    decreases |due|
  {
    if due != [] {
      var rest := StrikeAll(due[1..], now, plan(step));
      FiredSubsequence(rest, now, plan, step + 1);
      StrikeAllSubsequence(due[1..], now, plan(step));
      SubsequenceTrans(Fired(rest, now, plan, step + 1), rest, due[1..]);
    }
  }

  /** A due timer that no handler touches fires. */
  lemma {:induction false} UntouchedFires(due: seq<Timer>, now: Key, plan: nat -> seq<Op>, step: nat, t: Timer)
    requires t in due && forall s: nat, op :: op in plan(s) ==> op.id != t.id
    ensures t in Fired(due, now, plan, step)
    decreases |due|
  {
    if t != due[0] {
      UntouchedStays(due[1..], now, plan(step), t);
      UntouchedFires(StrikeAll(due[1..], now, plan(step)), now, plan, step + 1, t);
    }
  }

  lemma {:induction false} UntouchedStays(due: seq<Timer>, now: Key, ops: seq<Op>, t: Timer)
    requires t in due && forall op :: op in ops ==> op.id != t.id
    ensures t in StrikeAll(due, now, ops)
  {
    if ops != [] {
      var init, op := ops[..|ops| - 1], ops[|ops| - 1];
      assert op in ops;
      UntouchedStays(due, now, init, t);
      WithoutParts(StrikeAll(due, now, init), op.id);
    }
  }

  // ---------- what the operations mean ----------

  /** After event_add_timer the timer is armed, at the old deadline if that is less than 300 ms from the new
      one and at the new one otherwise; after event_del_timer it is not. All other timers stay. */
  lemma ApplyMeans(v: seq<Timer>, now: Key, op: Op)
    requires Distinct(v)
    ensures forall t: Timer :: t.id != op.id ==> (t in Apply(v, now, op) <==> t in v)
    ensures op.Del? ==> forall t :: t in Apply(v, now, op) ==> t.id != op.id
    ensures op.Add? ==>
              var key := (now + op.timer) % 0x1_0000_0000_0000_0000;
              var lazy := exists o :: o in v && o.id == op.id && -300 < Diff(key, o.key) < 300;
              forall t: Timer :: t.id == op.id ==> (t in Apply(v, now, op) <==> if lazy then t in v else t.key == key)
  {
    WithoutParts(v, op.id);
    if op.Add? {
      var n := Timer(op.id, Deadline(now, op.timer));
      PlacedMembers(Without(v, op.id), n);
      hide Placed, Without;
      if o :| o in v && o.id == op.id && -300 < Diff(n.key, o.key) < 300 {
        assert Lazy(v, n);
      } else {
        assert !Lazy(v, n);
      }
    }
  }

  lemma {:induction false} PlacedMembers(v: seq<Timer>, t: Timer)
    ensures forall x :: x in Placed(v, t) <==> x in v || x == t
  {
    if v != [] {
      PlacedMembers(v[1..], t);
      assert forall x :: x in v <==> x == v[0] || x in v[1..];
    }
  }

  /** The operations of a handler are performed one after the other. */
  lemma {:induction false} ApplyAllLaws(v: seq<Timer>, now: Key, op: Op, a: seq<Op>, b: seq<Op>)
    ensures ApplyAll(v, now, []) == v && ApplyAll(v, now, [op]) == Apply(v, now, op)
    ensures ApplyAll(v, now, a + b) == ApplyAll(ApplyAll(v, now, a), now, b)
    decreases |b|
  {
    hide Apply;
    assert [op][..0] == [];
    if b == [] {
      assert a + b == a;
    } else {
      var n := |b| - 1;
      ApplyAllLaws(v, now, op, a, b[..n]);
      assert (a + b)[..|a + b| - 1] == a + b[..n];
    }
  }

  // ---------- over time ----------

  lemma NothingArmed(now: Key)
    ensures Ordered(now, []) && Offset(now, now) == 0
  {
  }

  /** When all deadlines are after now, now is a base for them. */
  lemma Rebase(base: Key, v: seq<Timer>, now: Key)
    requires Ordered(base, v) && Offset(base, now) < TWO63 && forall t :: t in v ==> 0 < Diff(t.key, now)
    ensures Ordered(now, v)
  {
    forall i | 0 <= i < |v| ensures Offset(now, Keys(v)[i]) < TWO63 { assert v[i] in v; }
  }

  /** What happens to the timers: the clock advances by some milliseconds, a timer is armed or deleted, or
      the timers are expired with the given handlers. */
  datatype Tick = Advance(ms: nat) | Call(op: Op) | Expire(plan: nat -> seq<Op>)

  /** No deadline is armed 2^63 milliseconds or more after the last expiry, which was `e` ago, and expiry
      comes before so much time has passed. The handlers of an expiry arm deadlines after now. */
  ghost predicate InTime(ticks: seq<Tick>, e: nat, n: nat)
    decreases |ticks|
  {
    ticks == [] ||
    match ticks[0]
    case Advance(ms) => e + ms < TWO63 && InTime(ticks[1..], e + ms, n)
    case Call(op) => op.id < n && (op.Add? ==> e + op.timer < TWO63) && InTime(ticks[1..], e, n)
    case Expire(plan) =>
      && (forall k: nat, op :: op in plan(k) ==> op.id < n && (op.Add? ==> 0 < op.timer && e + op.timer < TWO63))
      && InTime(ticks[1..], 0, n)
  }

  /** The armed timers, the time and all that has fired, after some ticks. */
  datatype Life = Life(v: seq<Timer>, now: Key, fired: seq<Timer>)

  ghost function TickOf(s: Life, t: Tick): Life {
    match t
    case Advance(ms) => s.(now := (s.now + ms) % TWO64)
    case Call(op) => s.(v := Apply(s.v, s.now, op))
    case Expire(plan) =>
      var f := Fired(Due(s.v, s.now), s.now, plan, 0);
      Life(After(s.v, s.now, plan, |f|), s.now, s.fired + f)
  }

  ghost function Live(s: Life, ticks: seq<Tick>): Life
    decreases |ticks|
  {
    if ticks == [] then s else Live(TickOf(s, ticks[0]), ticks[1..])
  }

  /** The ticks happen one after the other. */
  lemma {:induction false} LiveLaws(s: Life, t: Tick, a: seq<Tick>, b: seq<Tick>)
    ensures Live(s, []) == s && Live(s, [t]) == TickOf(s, t)
    ensures Live(s, a + b) == Live(Live(s, a), b)
    decreases |a|
  {
    hide TickOf;
    assert [t][1..] == [];
    if a == [] {
      assert a + b == b;
    } else {
      LiveLaws(TickOf(s, a[0]), t, a[1..], b);
      assert (a + b)[1..] == a[1..] + b;
    }
  }

  lemma Advanced(base: Key, now: Key, ms: nat)
    requires Offset(base, now) + ms < TWO63
    ensures Offset(base, (now + ms) % TWO64) == Offset(base, now) + ms
  {
  }
}
