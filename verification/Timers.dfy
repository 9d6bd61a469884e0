/** The timer interface of event_timer.c on top of the red-black tree. */
module Timers {
  import opened Integers
  import opened RbSpec
  import opened TimerSpec
  import opened RbTree

  class Event {
    const timer: Node
    var timerSet: bool
    var timedout: bool
    var cancelable: bool

    constructor (timer: Node, cancelable: bool)
      ensures this.timer == timer && this.cancelable == cancelable && !timerSet
    {
      this.timer := timer;
      this.cancelable := cancelable;
      timerSet, timedout := false, false;
    }
  }

  class TimerQueue {
    const tree: Tree
    const events: seq<Event>  // the event a node belongs to is found by the tag of the node
    var now: Key              // current_msec
    ghost const owners: set<Event>
    ghost const embedded: set<Node>  // the nodes embedded in the events

    /** event_timer_init, over the events that may ever be armed. */
    constructor (sentinel: Node, events: seq<Event>)
      requires forall i :: 0 <= i < |events| ==>
                 events[i].timer.tag == i && events[i].timer != sentinel && !events[i].timerSet
      modifies sentinel
      ensures Valid() && View() == [] && this.events == events && fresh(tree) && tree.sentinel == sentinel
    {
      tree := new Tree(sentinel, ByTimer);
      this.events := events;
      owners := set e | e in events;
      embedded := set e | e in events :: e.timer;
      now := 0;
    }

    ghost predicate Valid()
      reads this, tree, tree.nodes, tree.sentinel, owners`timerSet
    {
      && tree.Valid() && tree.kind == ByTimer && tree.nodes <= embedded
      && (forall i {:trigger events[i]} :: 0 <= i < |events| ==>
            && events[i] in owners && events[i].timer in embedded
            && events[i].timer.tag == i && events[i].timer != tree.sentinel
            && (events[i].timerSet <==> events[i].timer in tree.nodes))
      && (forall n {:trigger n.tag} :: n in tree.nodes ==> n.tag < |events| && events[n.tag].timer == n)
    }

    /** The armed timers, in firing order. */
    ghost function View(): (v: seq<Timer>)
      reads this, tree, tree.order
      ensures |v| == |tree.order| && forall i :: 0 <= i < |v| ==> v[i] == Timer(tree.order[i].tag, tree.order[i].key)
    {
      seq(|tree.order|, i requires 0 <= i < |tree.order| reads this, tree, tree.order =>
        Timer(tree.order[i].tag, tree.order[i].key))
    }

    lemma ViewKeys()
      requires Valid()
      ensures TimerSpec.Keys(View()) == tree.Keys() && Distinct(View())
    {
      forall i, j | 0 <= i < j < |View()| ensures View()[i].id != View()[j].id {
        assert tree.order[i].idx == i && tree.order[j].idx == j;
        assert tree.order[i] in tree.nodes && tree.order[j] in tree.nodes;
      }
    }

    lemma SetIsArmed(id: nat)
      requires Valid() && id < |events|
      ensures events[id].timerSet <==> Armed(View(), id)
      ensures events[id].timerSet ==>
                var i := events[id].timer.idx;
                0 <= i < |View()| && View()[i] == Timer(id, events[id].timer.key)
    {
      if events[id].timerSet {
        assert tree.Link(events[id].timer);
        assert View()[events[id].timer.idx].id == id;
      }
      if Armed(View(), id) {
        var i :| 0 <= i < |View()| && View()[i].id == id;
        assert tree.order[i] in tree.nodes;
      }
    }

    method DelTimer(id: nat)
      requires Valid() && id < |events| && events[id].timerSet
      modifies tree`root, tree`order, tree`nodes, tree.sentinel`parent, tree.sentinel`red
      modifies tree.nodes`left, tree.nodes`right, tree.nodes`parent, tree.nodes`red
      modifies tree.nodes`idx, tree.nodes`lo, tree.nodes`hi, tree.nodes`bh
      modifies {events[id].timer}`key, {events[id]}`timerSet
      ensures Valid() && !events[id].timerSet && tree.nodes == old(tree.nodes) - {events[id].timer}
      ensures View() == Without(old(View()), id)
      ensures var i := old(events[id].timer.idx);
              && 0 <= i < |old(tree.order)| && old(tree.order)[i] == events[id].timer
              && tree.order == old(tree.order)[..i] + old(tree.order)[i + 1..]
    {
      var ev := events[id];
      ViewKeys();
      SetIsArmed(id);
      ghost var v, i := View(), ev.timer.idx;
      WithoutAt(v, i);
      hide Without, Distinct, Tree.Valid;
      tree.Delete(ev.timer);
      OrderIsTree();
      ev.timerSet := false;
      forall k | 0 <= k < |View()| ensures View()[k] == (v[..i] + v[i + 1..])[k] {
        assert tree.order[k] == old(tree.order)[if k < i then k else k + 1];
        assert tree.order[k] != ev.timer;
      }
    }

    lemma OrderIsTree()
      requires tree.Valid()
      ensures forall k :: 0 <= k < |tree.order| ==> tree.order[k] in tree.nodes
    {
    }

    method Arm(id: nat, key: Key) returns (ghost k: nat)
      requires Valid() && id < |events| && !events[id].timerSet
      modifies tree`root, tree`order, tree`nodes, {events[id]}`timerSet, embedded`key, embedded`left, embedded`right,
               embedded`parent, embedded`red, embedded`idx, embedded`lo, embedded`hi, embedded`bh
      ensures Valid() && events[id].timerSet && tree.nodes == old(tree.nodes) + {events[id].timer}
      ensures forall k :: Boundary(ByTimer, TimerSpec.Keys(old(View())), key, k) ==>
                            View() == old(View())[..k] + [Timer(id, key)] + old(View())[k..]
      ensures k <= |old(tree.order)| && tree.order == old(tree.order)[..k] + [events[id].timer] + old(tree.order)[k..]
      ensures events[id].timer.key == key
      ensures forall n: Node :: n in embedded && n != events[id].timer ==> n.key == old(n.key)
    {
      var ev := events[id];
      ViewKeys();
      SetIsArmed(id);
      ghost var v := View();
      ev.timer.key := key;
      assert tree.Keys() == TimerSpec.Keys(v);
      hide Tree.Valid, Distinct;
      ghost var at := tree.Insert(ev.timer);
      k := at;
      assert forall b :: Boundary(ByTimer, TimerSpec.Keys(v), key, b) ==> b == k;
      ev.timerSet := true;
      ViewGrows(id, key, k);
    }

    twostate lemma ViewGrows(new id: nat, new key: Key, new k: nat)
      requires id < |events| && k <= |old(tree.order)| && events[id].timer.tag == id && events[id].timer.key == key
      requires tree.order == old(tree.order)[..k] + [events[id].timer] + old(tree.order)[k..]
      requires forall n: Node :: n in old(tree.order) ==> n.key == old(n.key)
      ensures View() == old(View())[..k] + [Timer(id, key)] + old(View())[k..]
    {
      var v := old(View());
      forall j | 0 <= j < |View()| ensures View()[j] == (v[..k] + [Timer(id, key)] + v[k..])[j] {
        if j != k {
          assert tree.order[j] == old(tree.order)[if j < k then j else j - 1];
        }
      }
    }

    method AddTimer(id: nat, timer: Key)
      requires Valid() && id < |events|
      modifies tree`root, tree`order, tree`nodes, tree.sentinel`parent, tree.sentinel`red,
               embedded`key, embedded`left, embedded`right, embedded`parent, embedded`red,
               embedded`idx, embedded`lo, embedded`hi, embedded`bh, owners`timerSet
      ensures Valid() && tree.nodes == old(tree.nodes) + {events[id].timer}
      ensures forall i :: 0 <= i < |events| && i != id ==> events[i].timerSet == old(events[i].timerSet)
      ensures forall base :: old(Ordered(base, View())) && Offset(base, Deadline(now, timer)) < TWO63 ==>
                View() == TimerSpec.Arm(old(View()), Timer(id, Deadline(now, timer)))
      ensures events[id].timerSet
      ensures var key := (now + timer) % 0x1_0000_0000_0000_0000;
              events[id].timer.key ==
              if old(events[id].timerSet) && -300 < Diff(key, old(events[id].timer.key)) < 300
              then old(events[id].timer.key) else key
      ensures OthersKept(events[id].timer)
    {
      var ev := events[id];
      var key := Deadline(now, timer);
      ghost var v, t := View(), Timer(id, key);
      ghost var others := tree.nodes - {ev.timer};
      ViewKeys();
      SetIsArmed(id);
      ghost var i := ev.timer.idx;
      WithoutParts(v, id);
      if ev.timerSet {
        var diff := Diff(key, ev.timer.key);
        if Abs(diff) < TIMER_LAZY_DELAY {
          assert Lazy(v, t);
          return;
        }
        DelTimer(id);
      }
      assert View() == Without(v, id);
      assert !Lazy(v, t);
      ghost var was := old(events[id].timerSet);
      ghost var at := Arm(id, key);
      OrderKept(ev.timer, if was then i else |v|, at);
      forall base | Ordered(base, v) && Offset(base, key) < TWO63 ensures View() == TimerSpec.Arm(v, t) {
        var w := Without(v, id);
        WithoutKeeps(base, v, id);
        var k := BoundaryExists(ByTimer, base, TimerSpec.Keys(w), key);
        PlacedAt(w, t, k);
      }
    }

    /** All timers but `t` are armed with the keys they had, in the order they had. */
    twostate predicate OthersKept(new t: Node)
      reads tree, tree.nodes, embedded
    {
      forall a, b {:trigger a.idx, b.idx} :: a in old(tree.nodes) && b in old(tree.nodes) && a != t && b != t ==>
        && a in tree.nodes && b in tree.nodes && a.key == old(a.key)
        && (a.idx < b.idx <==> old(a.idx) < old(b.idx))
    }

    /** `t` was taken from place `i` of the order, if it was there, and put at place `k` of what remained. */
    twostate lemma OrderKept(new t: Node, new i: nat, new k: nat)
      requires old(Valid()) && Valid() && tree.nodes == old(tree.nodes) + {t}
      requires (t in old(tree.nodes) ==> i < |old(tree.order)| && old(tree.order)[i] == t)
      requires t !in old(tree.nodes) ==> i == |old(tree.order)|
      requires var rest := if i < |old(tree.order)| then old(tree.order)[..i] + old(tree.order)[i + 1..]
                           else old(tree.order);
               k <= |rest| && tree.order == rest[..k] + [t] + rest[k..]
      requires forall n :: n in old(tree.nodes) && n != t ==> n.key == old(n.key)
      ensures OthersKept(t)
    {
      forall a | a in old(tree.nodes) && a != t
        ensures a in tree.nodes && old(a.idx) != i && a.idx == Shifted(old(a.idx), i, k)
      {
        assert old(tree.Link(a));
        var p := old(a.idx);
        assert old(tree.order)[p] == a;
        assert tree.order[Shifted(p, i, k)] == a;
      }
      forall a, b | a in old(tree.nodes) && b in old(tree.nodes) && a != t && b != t
        ensures a.idx < b.idx <==> old(a.idx) < old(b.idx)
      {
        assert a.idx == Shifted(old(a.idx), i, k) && b.idx == Shifted(old(b.idx), i, k);
      }
    }

    /** Where place `p` is when place `i` is taken out and then one put in at `k`. */
    static function Shifted(p: int, i: int, k: int): int {
      var q := if p < i then p else p - 1;
      if q < k then q else q + 1
    }

    /** How long to wait for the earliest deadline. */
    method FindTimer() returns (r: Key)
      requires Valid()
      ensures r == 0xFFFF_FFFF_FFFF_FFFF <==> View() == []
      ensures View() != [] ==> r == (if 0 < Diff(View()[0].key, now) then Diff(View()[0].key, now) else 0)
      ensures forall base :: Ordered(base, View()) && Offset(base, now) < TWO63 ==>
                forall t :: t in View() ==> r as int <= (if 0 < Diff(t.key, now) then Diff(t.key, now) else 0)
    {
      if tree.root == tree.sentinel {
        return TIMER_INFINITE;
      }
      assert tree.Link(tree.root);
      var node, _ := tree.Min(tree.root);
      assert tree.Link(node) && tree.order[0] == node;
      var timer := Diff(node.key, now);
      r := if 0 < timer then timer else 0;
      forall base, t | Ordered(base, View()) && Offset(base, now) < TWO63 && t in View()
        ensures Diff(node.key, now) <= Diff(t.key, now)
      {
        FirstIsEarliest(base, View(), now, t);
      }
    }

    /** 0 when only cancelable timers are armed, -2 otherwise. */
    method NoTimersLeft() returns (r: int)
      requires Valid()
      ensures r == 0 || r == -2
      ensures r == 0 <==> forall i :: 0 <= i < |events| && events[i].timerSet ==> events[i].cancelable
    {
      if tree.root == tree.sentinel {
        return 0;
      }
      assert tree.Link(tree.root);
      var first, _ := tree.Min(tree.root);
      var node: Node? := first;
      assert tree.Link(node);
      ghost var seen := 0;
      while node != null
        invariant 0 <= seen <= |tree.order|
        invariant if node == null then seen == |tree.order| else seen < |tree.order| && node == tree.order[seen]
        invariant forall j :: 0 <= j < seen ==> events[tree.order[j].tag].cancelable
        decreases |tree.order| - seen
      {
        assert node in tree.nodes;
        var ev := events[node.tag];
        if !ev.cancelable {
          assert ev.timerSet;
          return -2;
        }
        node := tree.Next(node);
        seen := seen + 1;
      }
      forall i | 0 <= i < |events| && events[i].timerSet ensures events[i].cancelable {
        assert tree.Link(events[i].timer);
        assert events[tree.order[events[i].timer.idx].tag].cancelable;
      }
      return 0;
    }

    /** One timer operation of a handler. */
    method Perform(ghost base: Key, op: Op)
      requires Valid() && Ordered(base, View()) && op.id < |events|
      requires op.Add? ==> Offset(base, Deadline(now, op.timer)) < TWO63
      modifies tree`root, tree`order, tree`nodes, tree.sentinel`parent, tree.sentinel`red,
               embedded`key, embedded`left, embedded`right, embedded`parent, embedded`red,
               embedded`idx, embedded`lo, embedded`hi, embedded`bh, owners`timerSet
      ensures Valid()
      ensures View() == Apply(old(View()), now, op)
      ensures events[op.id].timerSet == op.Add?
    {
      match op {
        case Add(id, timer) => AddTimer(id, timer);
        case Del(id) =>
          SetIsArmed(id);
          WithoutParts(View(), id);
          if events[id].timerSet {
            DelTimer(id);
          }
      }
    }

    /** One call of an event handler: any sequence of timer operations. */
    method Handler(ghost base: Key, ops: seq<Op>)
      requires Valid() && Ordered(base, View())
      requires forall op :: op in ops ==> op.id < |events| && Later(base, now, op)
      modifies tree`root, tree`order, tree`nodes, tree.sentinel`parent, tree.sentinel`red,
               embedded`key, embedded`left, embedded`right, embedded`parent, embedded`red,
               embedded`idx, embedded`lo, embedded`hi, embedded`bh, owners`timerSet
      ensures Valid()
      ensures View() == ApplyAll(old(View()), now, ops)
    {
      ghost var v := View();
      ViewKeys();
      var k := 0;
      while k < |ops|
        invariant 0 <= k <= |ops| && Valid() && View() == ApplyAll(v, now, ops[..k])
      {
        ApplyAllKeeps(base, v, now, ops[..k]);
        assert ops[k] in ops && ops[..k + 1][..k] == ops[..k];
        Perform(base, ops[k]);
        k := k + 1;
      }
      assert ops[..|ops|] == ops;
    }

    /** Fires the earliest timer, which is due. */
    method Fire(ghost base: Key, node: Node, ops: seq<Op>) returns (t: Timer)
      requires Valid() && Ordered(base, View()) && 0 < |tree.order| && tree.order[0] == node && Diff(node.key, now) <= 0
      requires forall op :: op in ops ==> op.id < |events| && Later(base, now, op)
      modifies tree`root, tree`order, tree`nodes, tree.sentinel`parent, tree.sentinel`red,
               embedded`key, embedded`left, embedded`right, embedded`parent, embedded`red,
               embedded`idx, embedded`lo, embedded`hi, embedded`bh, owners`timerSet, owners`timedout
      ensures Valid() && Ordered(base, View()) && Distinct(View())
      ensures old(View()) != [] && t == old(View())[0] && View() == ApplyAll(old(View())[1..], now, ops)
      ensures Due(old(View()), now) == [t] + Due(old(View())[1..], now)
      ensures Due(View(), now) == StrikeAll(Due(old(View())[1..], now), now, ops)
    {
      ViewKeys();
      FireStep(base, View(), now, ops);
      assert node in tree.nodes && events[node.tag].timer == node;
      SetIsArmed(node.tag);
      t := Timer(node.tag, node.key);
      DelTimer(t.id);
      events[t.id].timedout := true;
      Handler(base, ops);
    }

    /** The node of the earliest timer if that timer is due, and null otherwise. */
    method NextDue(ghost base: Key) returns (node: Node?)
      requires Valid() && Ordered(base, View()) && Offset(base, now) < TWO63
      ensures node == null ==> Due(View(), now) == [] && forall t :: t in View() ==> 0 < Diff(t.key, now)
      ensures node != null ==> 0 < |tree.order| && tree.order[0] == node && Diff(node.key, now) <= 0
    {
      if tree.root == tree.sentinel {
        return null;
      }
      assert tree.Link(tree.root);
      var first, _ := tree.Min(tree.root);
      assert tree.Link(first) && tree.order[0] == first;
      if 0 < Diff(first.key, now) {
        assert View()[0].key == first.key;
        NoneDue(base, View(), now);
        return null;
      }
      return first;
    }

    /** event_expire_timers, when the handler of the `k`-th timer fired performs `plan(k)`. */
    method ExpireTimers(ghost base: Key, plan: nat -> seq<Op>) returns (fired: seq<Timer>)
      requires Valid() && Ordered(base, View()) && Offset(base, now) < TWO63
      requires forall k: nat, op :: op in plan(k) ==> op.id < |events| && Later(base, now, op)
      modifies tree`root, tree`order, tree`nodes, tree.sentinel`parent, tree.sentinel`red,
               embedded`key, embedded`left, embedded`right, embedded`parent, embedded`red,
               embedded`idx, embedded`lo, embedded`hi, embedded`bh, owners`timerSet, owners`timedout
      ensures Valid() && Ordered(base, View())
      ensures fired == Fired(Due(old(View()), now), now, plan, 0)
      ensures View() == After(old(View()), now, plan, |fired|)
      ensures forall t :: t in View() ==> 0 < Diff(t.key, now)
    {
      hide After, ApplyAll, Fired, StrikeAll, Due, Ordered, Distinct, Later, Valid;
      fired := [];
      ghost var v, left := View(), Due(View(), now);
      ghost var total := Fired(left, now, plan, 0);
      NoTurn(v, now, plan, 0);
      while true
        invariant Valid() && Ordered(base, View()) && left == Due(View(), now)
        invariant total == fired + Fired(left, now, plan, |fired|)
        invariant View() == After(v, now, plan, |fired|)
        decreases |left|
      {
        var node := NextDue(base);
        if node == null {
          NoTurn(v, now, plan, |fired|);
          return;
        }
        ghost var rest := Due(View()[1..], now);
        var n := |fired|;
        AfterTurn(v, now, plan, n);
        var t := Fire(base, node, plan(n));
        FiredTurn(total, fired, left, t, rest, Due(View(), now), now, plan);
        fired, left := fired + [t], Due(View(), now);
      }
    }

    /** Any run: the queue stays ordered whatever the clock does, provided that expiry keeps up with it. The
        base of the window follows the clock: it moves to the time of each expiry. */
    method Run(ticks: seq<Tick>, ghost base: Key) returns (ghost last: Key, ghost fired: seq<Timer>)
      requires Valid() && Ordered(base, View()) && InTime(ticks, Offset(base, now), |events|)
      requires Offset(base, now) < TWO63
      modifies this`now, tree`root, tree`order, tree`nodes, tree.sentinel`parent, tree.sentinel`red,
               embedded`key, embedded`left, embedded`right, embedded`parent, embedded`red,
               embedded`idx, embedded`lo, embedded`hi, embedded`bh, owners`timerSet, owners`timedout
      ensures Valid() && Ordered(last, View()) && Offset(last, now) < TWO63
      ensures Life(View(), now, fired) == Live(Life(old(View()), old(now), []), ticks)
    {
      hide Valid, Ordered, InTime, TickOf;
      last, fired := base, [];
      var i := 0;
      ghost var s := Life(View(), now, fired);
      while i < |ticks|
        invariant 0 <= i <= |ticks| && Valid() && Ordered(last, View()) && Offset(last, now) < TWO63
        invariant InTime(ticks[i..], Offset(last, now), |events|)
        invariant Live(Life(View(), now, fired), ticks[i..]) == Live(s, ticks)
      {
        assert ticks[i..][1..] == ticks[i + 1..];
        ghost var more;
        last, more := Step(ticks[i], last, ticks[i..], fired);
        fired := fired + more;
        i := i + 1;
      }
    }

    method Step(t: Tick, ghost base: Key, ghost ticks: seq<Tick>, ghost before: seq<Timer>)
      returns (ghost last: Key, ghost fired: seq<Timer>)
      requires Valid() && Ordered(base, View()) && Offset(base, now) < TWO63
      requires ticks != [] && t == ticks[0] && InTime(ticks, Offset(base, now), |events|)
      modifies this`now, tree`root, tree`order, tree`nodes, tree.sentinel`parent, tree.sentinel`red,
               embedded`key, embedded`left, embedded`right, embedded`parent, embedded`red,
               embedded`idx, embedded`lo, embedded`hi, embedded`bh, owners`timerSet, owners`timedout
      ensures Valid() && Ordered(last, View()) && Offset(last, now) < TWO63
      ensures InTime(ticks[1..], Offset(last, now), |events|)
      ensures t.Advance? ==> now == (old(now) + t.ms) % 0x1_0000_0000_0000_0000 && View() == old(View()) && fired == []
      ensures t.Call? ==> now == old(now) && View() == Apply(old(View()), now, t.op) && fired == []
      ensures t.Expire? ==>
                && now == old(now) && fired == Fired(Due(old(View()), now), now, t.plan, 0)
                && View() == After(old(View()), now, t.plan, |fired|)
                && forall x :: x in View() ==> 0 < Diff(x.key, now)
      ensures Life(View(), now, before + fired) == TickOf(Life(old(View()), old(now), before), t)
    {
      hide Valid, Ordered, Offset;
      last, fired := base, [];
      assert before + [] == before;
      match t {
        case Advance(ms) =>
          Advanced(base, now, ms);
          SetClock((now + ms) % TWO64);
        case Call(op) => CallIn(base, op);
        case Expire(plan) => last, fired := ExpireIn(base, plan);
      }
    }

    method CallIn(ghost base: Key, op: Op)
      requires Valid() && Ordered(base, View()) && Offset(base, now) < TWO63
      requires op.id < |events| && (op.Add? ==> Offset(base, now) + op.timer < TWO63)
      modifies tree`root, tree`order, tree`nodes, tree.sentinel`parent, tree.sentinel`red,
               embedded`key, embedded`left, embedded`right, embedded`parent, embedded`red,
               embedded`idx, embedded`lo, embedded`hi, embedded`bh, owners`timerSet, owners`timedout
      ensures Valid() && Ordered(base, View()) && View() == Apply(old(View()), now, op)
    {
      hide Valid, Ordered, Offset;
      if op.Add? {
        Advanced(base, now, op.timer);
      }
      ArmedAreDistinct();
      ApplyKeeps(base, View(), now, op);
      Perform(base, op);
    }

    method ExpireIn(ghost base: Key, plan: nat -> seq<Op>) returns (ghost last: Key, ghost fired: seq<Timer>)
      requires Valid() && Ordered(base, View()) && Offset(base, now) < TWO63
      requires forall k: nat, op :: op in plan(k) ==>
                 op.id < |events| && (op.Add? ==> 0 < op.timer && Offset(base, now) + op.timer < TWO63)
      modifies tree`root, tree`order, tree`nodes, tree.sentinel`parent, tree.sentinel`red,
               embedded`key, embedded`left, embedded`right, embedded`parent, embedded`red,
               embedded`idx, embedded`lo, embedded`hi, embedded`bh, owners`timerSet, owners`timedout
      ensures Valid() && Ordered(last, View()) && last == now && Offset(last, now) == 0
      ensures fired == Fired(Due(old(View()), now), now, plan, 0) && View() == After(old(View()), now, plan, |fired|)
      ensures forall x :: x in View() ==> 0 < Diff(x.key, now)
    {
      hide Valid, Ordered;
      forall k: nat, op | op in plan(k) ensures op.id < |events| && Later(base, now, op) {
        if op.Add? {
          Advanced(base, now, op.timer);
        }
      }
      var all := ExpireTimers(base, plan);
      fired := all;
      Rebase(base, View(), now);
      last := now;
      NothingArmed(now);
    }

    lemma ArmedAreDistinct()
      requires Valid()
      ensures Distinct(View())
    {
      ViewKeys();
    }

    /** stime_update moves current_msec. */
    method SetClock(msec: Key)
      requires Valid()
      modifies this`now
      ensures Valid() && View() == old(View()) && now == msec
    {
      now := msec;
    }

    /** A run that starts with no timer armed needs no assumption about a window. */
    method RunFromStart(ticks: seq<Tick>) returns (ghost last: Key, ghost fired: seq<Timer>)
      requires Valid() && View() == [] && InTime(ticks, 0, |events|)
      modifies this`now, tree`root, tree`order, tree`nodes, tree.sentinel`parent, tree.sentinel`red,
               embedded`key, embedded`left, embedded`right, embedded`parent, embedded`red,
               embedded`idx, embedded`lo, embedded`hi, embedded`bh, owners`timerSet, owners`timedout
      ensures Valid() && Ordered(last, View()) && Offset(last, now) < TWO63
      ensures Life(View(), now, fired) == Live(Life([], old(now), []), ticks)
    {
      hide Ordered;
      NothingArmed(now);
      last, fired := Run(ticks, now);
    }
  }
}
