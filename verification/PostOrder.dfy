/** Which posted queue an event of a batch goes to, and in which order (epoll_event.c): everything here is
    said about the slots and queues before and after, not by the functions that compute them. */
module PostOrder {
  import opened ConnSpec

  /** The event was not in a posted queue and now is. */
  ghost predicate Newly(conns: seq<Connection>, after: seq<Connection>, r: Ref) {
    r.slot < |conns| == |after| && !Ev(conns[r.slot], r.write).posted && Ev(after[r.slot], r.write).posted
  }

  /** The place of the first half of a report in the batch that wakes event `r`: two places to a report,
      reading before writing; behind the batch if there is none. */
  function FirstWake(batch: seq<Report>, r: Ref, from: nat): nat
    requires from <= |batch|
    ensures 2 * from <= FirstWake(batch, r, from) <= 2 * |batch| + 1
    decreases |batch| - from
  {
    if from == |batch| then 2 * from
    else if batch[from].slot == r.slot && Wakes(batch[from], r.write) then 2 * from + (if r.write then 1 else 0)
    else FirstWake(batch, r, from + 1)
  }

  /** The events of `q` are in the order in which the batch first wakes them. */
  ghost predicate Rising(batch: seq<Report>, q: seq<Ref>) {
    forall i, j :: 0 <= i < j < |q| ==> FirstWake(batch, q[i], 0) < FirstWake(batch, q[j], 0)
  }

  lemma {:induction false} WokenAt(batch: seq<Report>, r: Ref, from: nat, k: nat)
    requires from <= k < |batch| && batch[k].slot == r.slot && Wakes(batch[k], r.write)
    ensures FirstWake(batch, r, from) <= 2 * k + (if r.write then 1 else 0)
    decreases |batch| - from
  {
    if !(batch[from].slot == r.slot && Wakes(batch[from], r.write)) {
      WokenAt(batch, r, from + 1, k);
    }
  }

  /** Only the half at place `p` can be the first to wake an event at place `p`. */
  lemma {:induction false} WakesThere(batch: seq<Report>, r: Ref, from: nat)
    requires from <= |batch| && FirstWake(batch, r, from) < 2 * |batch|
    ensures var p := FirstWake(batch, r, from);
            p / 2 < |batch| && batch[p / 2].slot == r.slot && Wakes(batch[p / 2], r.write) && r.write == (p % 2 == 1)
    decreases |batch| - from
  {
    if from < |batch| && !(batch[from].slot == r.slot && Wakes(batch[from], r.write)) {
      WakesThere(batch, r, from + 1);
    }
  }

  /** `q` holds, in the order of the batch, what is newly posted and belongs in the queue for accepting or in
      the other one. */
  ghost predicate Added(batch: seq<Report>, s: State, p: nat, t: State, q: seq<Ref>, accepting: bool) {
    && |t.conns| == |s.conns|
    && (forall r :: r in q <==>
          Newly(s.conns, t.conns, r) && (accepting <==> !r.write && s.conns[r.slot].read.accept))
    && Rising(batch, q)
    && (forall r :: r in q ==> FirstWake(batch, r, 0) < p)
  }

  /** No slot was touched otherwise, and what the first `p` halves woke is done. */
  ghost predicate Settled(batch: seq<Report>, s: State, p: nat, t: State) {
    && |t.conns| == |s.conns|
    && (forall i :: 0 <= i < |s.conns| ==> Steady(s.conns[i], t.conns[i]))
    && (forall r: Ref {:trigger FirstWake(batch, r, 0)} ::
          r.slot < |s.conns| && FirstWake(batch, r, 0) < p && Ev(s.conns[r.slot], r.write).active ==>
            Done(t.conns[r.slot], r))
  }

  /** After the first `p` halves of the batch. */
  ghost predicate InOrder(batch: seq<Report>, s: State, p: nat, t: State, a: seq<Ref>, b: seq<Ref>) {
    && t.links.accepts == s.links.accepts + a && t.links.events == s.links.events + b
    && Added(batch, s, p, t, a, true) && Added(batch, s, p, t, b, false) && Settled(batch, s, p, t)
  }

  /** Dispatching with POST_EVENTS touches nothing of a slot but ready, pending_eof and posted, and clears
      none of them. */
  ghost predicate Steady(c: Connection, d: Connection) {
    && d.fd == c.fd
    && (forall write :: Same(Ev(c, write), Ev(d, write)))
  }

  ghost predicate Same(e: Event, f: Event) {
    && f.instance == e.instance && f.active == e.active && f.accept == e.accept
    && (e.posted ==> f.posted) && (e.ready ==> f.ready)
  }

  /** A reported and active event is posted and ready. */
  ghost predicate Done(d: Connection, r: Ref) {
    Ev(d, r.write).posted && Ev(d, r.write).ready
  }

  lemma Begins(batch: seq<Report>, s: State)
    ensures InOrder(batch, s, 0, s, [], [])
  {
  }

  lemma RisingMore(batch: seq<Report>, q: seq<Ref>, r: Ref)
    requires Rising(batch, q) && forall i :: 0 <= i < |q| ==> FirstWake(batch, q[i], 0) < FirstWake(batch, r, 0)
    ensures Rising(batch, q + [r])
  {
  }

  /** One event has become ready, and posted if it was not. */
  ghost predicate Readied(t: State, r: Ref, u: State) {
    && r.slot < |t.conns| == |u.conns| && (forall i :: 0 <= i < |t.conns| && i != r.slot ==> u.conns[i] == t.conns[i])
    && u.conns[r.slot].fd == t.conns[r.slot].fd
    && Ev(u.conns[r.slot], !r.write) == Ev(t.conns[r.slot], !r.write)
    && var f := Ev(u.conns[r.slot], r.write);
    && f.ready && f.posted && Same(Ev(t.conns[r.slot], r.write), f)
  }

  lemma NewlyMore(s: State, t: State, r: Ref, u: State, x: Ref)
    requires |s.conns| == |t.conns| && Readied(t, r, u) && Steady(s.conns[r.slot], t.conns[r.slot])
    ensures Newly(s.conns, u.conns, x) <==>
            Newly(s.conns, t.conns, x) || (x == r && !Ev(s.conns[r.slot], r.write).posted)
  {
    if x.slot == r.slot && x.write != r.write {
      assert x.write == !r.write;
    }
  }

  /** Whatever the queues do, the slots stay settled. */
  lemma SlotsStay(batch: seq<Report>, s: State, p: nat, t: State, r: Ref, u: State)
    requires Settled(batch, s, p, t) && Readied(t, r, u)
    requires FirstWake(batch, r, 0) <= p < 2 * |batch| && batch[p / 2].slot == r.slot && r.write == (p % 2 == 1)
    ensures Settled(batch, s, p + 1, u)
  {
    forall i | 0 <= i < |s.conns| ensures Steady(s.conns[i], u.conns[i]) {
      assert Steady(s.conns[i], t.conns[i]);
      forall write ensures Same(Ev(s.conns[i], write), Ev(u.conns[i], write)) {
        assert Same(Ev(s.conns[i], write), Ev(t.conns[i], write));
        assert i == r.slot && write != r.write ==> write == !r.write;
      }
    }
    forall x: Ref | x.slot < |s.conns| && FirstWake(batch, x, 0) < p + 1 && Ev(s.conns[x.slot], x.write).active
      ensures Done(u.conns[x.slot], x)
    {
      if FirstWake(batch, x, 0) == p {
        WakesThere(batch, x, 0);
        assert x == r;
      } else {
        assert Done(t.conns[x.slot], x);
        assert x.slot == r.slot && x.write != r.write ==> x.write == !r.write;
      }
    }
  }

  /** The queue that `r` does not go to, or either if it was posted before. */
  lemma AddsNothing(batch: seq<Report>, s: State, p: nat, t: State, q: seq<Ref>, accepting: bool, r: Ref, u: State)
    requires Added(batch, s, p, t, q, accepting) && Readied(t, r, u) && Steady(s.conns[r.slot], t.conns[r.slot])
    requires Ev(t.conns[r.slot], r.write).posted || (accepting <==> r.write || !s.conns[r.slot].read.accept)
    ensures Added(batch, s, p + 1, u, q, accepting)
  {
    assert Same(Ev(s.conns[r.slot], r.write), Ev(t.conns[r.slot], r.write));
    forall x
      ensures Newly(s.conns, u.conns, x) <==>
              Newly(s.conns, t.conns, x) || (x == r && !Ev(s.conns[r.slot], r.write).posted)
    {
      NewlyMore(s, t, r, u, x);
    }
  }

  lemma AddsOne(batch: seq<Report>, s: State, p: nat, t: State, q: seq<Ref>, accepting: bool, r: Ref, u: State)
    requires Added(batch, s, p, t, q, accepting) && Readied(t, r, u) && Steady(s.conns[r.slot], t.conns[r.slot])
    requires !Ev(t.conns[r.slot], r.write).posted && (accepting <==> !r.write && s.conns[r.slot].read.accept)
    requires FirstWake(batch, r, 0) == p
    ensures Added(batch, s, p + 1, u, q + [r], accepting)
  {
    assert Same(Ev(s.conns[r.slot], r.write), Ev(t.conns[r.slot], r.write));
    forall x
      ensures Newly(s.conns, u.conns, x) <==>
              Newly(s.conns, t.conns, x) || (x == r && !Ev(s.conns[r.slot], r.write).posted)
    {
      NewlyMore(s, t, r, u, x);
    }
    forall i | 0 <= i < |q| ensures FirstWake(batch, q[i], 0) < p { assert q[i] in q; }
    RisingMore(batch, q, r);
  }

  /** The half at place `p` wakes nothing. */
  lemma WakesNone(batch: seq<Report>, s: State, p: nat, t: State, a: seq<Ref>, b: seq<Ref>)
    requires InOrder(batch, s, p, t, a, b) && p < 2 * |batch| && batch[p / 2].slot < |s.conns|
    requires var e := batch[p / 2]; !Wakes(e, p % 2 == 1) || !Ev(t.conns[e.slot], p % 2 == 1).active
    ensures InOrder(batch, s, p + 1, t, a, b)
  {
    var e := batch[p / 2];
    assert Steady(s.conns[e.slot], t.conns[e.slot]);
    assert Same(Ev(s.conns[e.slot], p % 2 == 1), Ev(t.conns[e.slot], p % 2 == 1));
    forall x: Ref | x.slot < |s.conns| && FirstWake(batch, x, 0) < p + 1 && Ev(s.conns[x.slot], x.write).active
      ensures Done(t.conns[x.slot], x)
    {
      if FirstWake(batch, x, 0) == p {
        WakesThere(batch, x, 0);
      }
    }
  }

  /** The half at place `p` wakes event `r`, which is active. */
  lemma WakesOne(batch: seq<Report>, s: State, p: nat, t: State, a: seq<Ref>, b: seq<Ref>, r: Ref, u: State)
    returns (a': seq<Ref>, b': seq<Ref>)
    requires InOrder(batch, s, p, t, a, b) && Readied(t, r, u) && Ev(t.conns[r.slot], r.write).active
    requires p < 2 * |batch| && batch[p / 2].slot == r.slot && r.write == (p % 2 == 1) && Wakes(batch[p / 2], r.write)
    requires var unposted := !Ev(t.conns[r.slot], r.write).posted;
             var accept := !r.write && t.conns[r.slot].read.accept;
             && u.links.accepts == t.links.accepts + (if unposted && accept then [r] else [])
             && u.links.events == t.links.events + (if unposted && !accept then [r] else [])
    ensures InOrder(batch, s, p + 1, u, a', b')
  {
    a', b' := a, b;
    WokenAt(batch, r, 0, p / 2);
    SlotsStay(batch, s, p, t, r, u);
    assert Steady(s.conns[r.slot], t.conns[r.slot]);
    assert Same(Ev(s.conns[r.slot], false), Ev(t.conns[r.slot], false));
    assert Same(Ev(s.conns[r.slot], r.write), Ev(t.conns[r.slot], r.write));
    if Ev(t.conns[r.slot], r.write).posted {
      hide Added, Settled;
      AddsNothing(batch, s, p, t, a, true, r, u);
      AddsNothing(batch, s, p, t, b, false, r, u);
    } else {
      assert FirstWake(batch, r, 0) == p;
      hide Added, Settled;
      if !r.write && s.conns[r.slot].read.accept {
        AddsOne(batch, s, p, t, a, true, r, u);
        AddsNothing(batch, s, p, t, b, false, r, u);
        a' := a + [r];
      } else {
        AddsNothing(batch, s, p, t, a, true, r, u);
        AddsOne(batch, s, p, t, b, false, r, u);
        b' := b + [r];
      }
    }
  }

  /** One half of a report. */
  lemma Half(batch: seq<Report>, s: State, p: nat, t: State, a: seq<Ref>, b: seq<Ref>, ops: seq<Op>)
    returns (a': seq<Ref>, b': seq<Ref>)
    requires InOrder(batch, s, p, t, a, b) && Sized(t) && p < 2 * |batch| && batch[p / 2].slot < |s.conns| == |t.conns|
    requires var e := batch[p / 2]; var c := t.conns[e.slot];
             c.fd != NONE && c.read.instance == c.write.instance == e.instance
    ensures InOrder(batch, s, p + 1, DeliverOf(t, batch[p / 2], p % 2 == 1, true, ops), a', b')
  {
    hide InOrder;
    var e, write := batch[p / 2], p % 2 == 1;
    if !Wakes(e, write) || !Ev(t.conns[e.slot], write).active {
      a', b' := a, b;
      WakesNone(batch, s, p, t, a, b);
    } else {
      var r, u := Ref(e.slot, write), DeliverOf(t, e, write, true, ops);
      Delivered(t, e, write, ops);
      a', b' := WakesOne(batch, s, p, t, a, b, r, u);
    }
  }

  lemma ReadiedBy(t: State, r: Ref, u: State, d: Connection)
    requires r.slot < |t.conns| && u.conns == t.conns[r.slot := d] && d.fd == t.conns[r.slot].fd
    requires Ev(d, !r.write) == Ev(t.conns[r.slot], !r.write)
    requires Ev(d, r.write).ready && Ev(d, r.write).posted && Same(Ev(t.conns[r.slot], r.write), Ev(d, r.write))
    ensures Readied(t, r, u)
  {
  }

  lemma Delivered(t: State, e: Report, write: bool, ops: seq<Op>)
    requires Sized(t) && e.slot < |t.conns| && t.conns[e.slot].fd != NONE
    requires Ev(t.conns[e.slot], write).instance == e.instance && Wakes(e, write) && Ev(t.conns[e.slot], write).active
    ensures var r, u := Ref(e.slot, write), DeliverOf(t, e, write, true, ops);
            var unposted, accept := !Ev(t.conns[e.slot], write).posted, !write && t.conns[e.slot].read.accept;
            && Readied(t, r, u)
            && u.links.accepts == t.links.accepts + (if unposted && accept then [r] else [])
            && u.links.events == t.links.events + (if unposted && !accept then [r] else [])
  {
    var r, u := Ref(e.slot, write), DeliverOf(t, e, write, true, ops);
    var t1, accept := ReadyOf(t, e, write), AcceptsOf(t, e, write);
    assert u == PostOf(t1, r, accept) && (accept <==> !write && t.conns[e.slot].read.accept);
    hide DeliverOf, AcceptsOf;
    var v := Ev(t.conns[e.slot], write);
    ReadyIs(t, e, write);
    PostIs(t1, r, accept);
    hide ReadyOf, PostOf;
    SameFlags(v, Ev(u.conns[e.slot], write));
    hide Same, Ev;
    ReadiedBy(t, r, u, u.conns[e.slot]);
    assert u.links == if v.posted then t.links else Posted(t.links, r, accept);
  }

  lemma ReadyIs(t: State, e: Report, write: bool)
    requires Sized(t) && e.slot < |t.conns|
    ensures var u := ReadyOf(t, e, write);
            var v, d := Ev(t.conns[e.slot], write), u.conns[e.slot];
            && u.links == t.links && Sized(u) && u.conns == t.conns[e.slot := d] && d.fd == t.conns[e.slot].fd
            && Ev(d, write) == v.(ready := true, eof := v.eof || (!write && e.rdhup))
            && Ev(d, !write) == Ev(t.conns[e.slot], !write)
  {
  }

  /** The state in which the handler of one half of a report runs, and the table if the event is posted instead. */
  lemma HalfIs(s: State, e: Report, write: bool)
    requires e.slot < |s.conns| && Sized(s)
    ensures var x, v := s.conns[e.slot], Ev(s.conns[e.slot], write);
            var ready := v.(ready := true, eof := v.eof || (!write && e.rdhup));
            && ReadyOf(s, e, write) ==
               s.(conns := s.conns[e.slot := if write then x.(write := ready) else x.(read := ready)])
            && forall accept :: PostOf(ReadyOf(s, e, write), Ref(e.slot, write), accept).conns ==
                 s.conns[e.slot := if write then x.(write := ready.(posted := true))
                                   else x.(read := ready.(posted := true))]
  {
    var t := ReadyOf(s, e, write);
    hide PostOf;
    forall accept ensures PostOf(t, Ref(e.slot, write), accept).conns ==
                          s.conns[e.slot := WithEv(t.conns[e.slot], write,
                                                   Ev(t.conns[e.slot], write).(posted := true))]
    {
      PostIs(t, Ref(e.slot, write), accept);
    }
  }

  lemma PostIs(t: State, r: Ref, accept: bool)
    requires Sized(t) && r.slot < |t.conns|
    ensures var u := PostOf(t, r, accept);
            var v, d := Ev(t.conns[r.slot], r.write), u.conns[r.slot];
            && u.links == (if v.posted then t.links else Posted(t.links, r, accept))
            && u.conns == t.conns[r.slot := d] && d.fd == t.conns[r.slot].fd
            && Ev(d, r.write) == v.(posted := true) && Ev(d, !r.write) == Ev(t.conns[r.slot], !r.write)
            && d == WithEv(t.conns[r.slot], r.write, v.(posted := true))
  {
  }

  lemma SameFlags(e: Event, f: Event)
    requires f.(ready := e.ready, eof := e.eof, posted := e.posted) == e && f.ready && (e.posted ==> f.posted)
    ensures Same(e, f)
  {
  }

  /** The report concerns an open slot with this instance bit. */
  ghost predicate Reportable(s: State, e: Report) {
    && e.slot < |s.conns| && s.conns[e.slot].fd != NONE
    && s.conns[e.slot].read.instance == s.conns[e.slot].write.instance == e.instance
  }

  lemma StillReportable(batch: seq<Report>, s: State, p: nat, t: State, a: seq<Ref>, b: seq<Ref>, e: Report)
    requires InOrder(batch, s, p, t, a, b) && Reportable(s, e)
    ensures Reportable(t, e)
  {
    assert Steady(s.conns[e.slot], t.conns[e.slot]);
    assert Same(Ev(s.conns[e.slot], false), Ev(t.conns[e.slot], false));
    assert Same(Ev(s.conns[e.slot], true), Ev(t.conns[e.slot], true));
  }

  lemma Whole(batch: seq<Report>, s: State, k: nat, t: State, a: seq<Ref>, b: seq<Ref>, reaction: Reaction)
    returns (a': seq<Ref>, b': seq<Ref>)
    requires InOrder(batch, s, 2 * k, t, a, b) && Sized(t) && k < |batch| && Reportable(s, batch[k])
    ensures InOrder(batch, s, 2 * (k + 1), DispatchOf(t, batch[k], true, reaction), a', b')
  {
    var e := batch[k];
    StillReportable(batch, s, 2 * k, t, a, b, e);
    assert (2 * k + 1) / 2 == k && (2 * k + 1) % 2 == 1;
    var u := DeliverOf(t, e, false, true, reaction.read);
    var v := DeliverOf(u, e, true, true, reaction.write);
    assert DispatchOf(t, e, true, reaction) == v;
    assert |t.conns| == |s.conns|;
    hide InOrder, DeliverOf, DispatchOf;
    a', b' := Half(batch, s, 2 * k, t, a, b, reaction.read);
    StillReportable(batch, s, 2 * k + 1, u, a', b', e);
    Lengths(batch, s, 2 * k + 1, u, a', b');
    a', b' := Half(batch, s, 2 * k + 1, u, a', b', reaction.write);
  }

  lemma Lengths(batch: seq<Report>, s: State, p: nat, t: State, a: seq<Ref>, b: seq<Ref>)
    requires InOrder(batch, s, p, t, a, b)
    ensures |t.conns| == |s.conns|
  {
  }

  lemma {:induction false} Batch(s: State, batch: seq<Report>, plan: nat -> Reaction, k: nat)
    returns (a: seq<Ref>, b: seq<Ref>)
    requires Sized(s) && k <= |batch| && forall j :: 0 <= j < |batch| ==> Reportable(s, batch[j])
    ensures InOrder(batch, s, 2 * k, AfterReports(s, batch, true, plan, k), a, b)
  {
    hide InOrder, AfterReports, DispatchOf, Reportable;
    if k == 0 {
      Begins(batch, s);
      AfterNone(s, batch, plan);
      a, b := [], [];
    } else {
      a, b := Batch(s, batch, plan, k - 1);
      NextReport(s, batch, true, plan, k - 1);
      a, b := Whole(batch, s, k - 1, AfterReports(s, batch, true, plan, k - 1), a, b, plan(k - 1));
    }
  }

  lemma AfterNone(s: State, batch: seq<Report>, plan: nat -> Reaction)
    requires Sized(s)
    ensures AfterReports(s, batch, true, plan, 0) == s
  {
  }

  /** What `InOrder` says of the whole batch. */
  lemma Ends(batch: seq<Report>, s: State, t: State, a: seq<Ref>, b: seq<Ref>)
    requires InOrder(batch, s, 2 * |batch|, t, a, b)
    ensures |t.conns| == |s.conns|
    ensures t.links.accepts == s.links.accepts + a && t.links.events == s.links.events + b
    ensures forall r :: r in a <==> Newly(s.conns, t.conns, r) && !r.write && s.conns[r.slot].read.accept
    ensures forall r :: r in b <==> Newly(s.conns, t.conns, r) && (r.write || !s.conns[r.slot].read.accept)
    ensures Rising(batch, a) && Rising(batch, b)
    ensures forall r :: Newly(s.conns, t.conns, r) ==>
              exists k :: 0 <= k < |batch| && batch[k].slot == r.slot && Wakes(batch[k], r.write)
    ensures forall e, write ::
              (e in batch && e.slot < |s.conns| && Wakes(e, write) && Ev(s.conns[e.slot], write).active) ==>
              Ev(t.conns[e.slot], write).posted && Ev(t.conns[e.slot], write).ready
  {
    forall r | Newly(s.conns, t.conns, r)
      ensures exists k :: 0 <= k < |batch| && batch[k].slot == r.slot && Wakes(batch[k], r.write)
    {
      assert FirstWake(batch, r, 0) < 2 * |batch|;
      WakesThere(batch, r, 0);
    }
    forall e, write | e in batch && e.slot < |s.conns| && Wakes(e, write) && Ev(s.conns[e.slot], write).active
      ensures Ev(t.conns[e.slot], write).posted && Ev(t.conns[e.slot], write).ready
    {
      var k :| 0 <= k < |batch| && batch[k] == e;
      WokenAt(batch, Ref(e.slot, write), 0, k);
      assert Done(t.conns[e.slot], Ref(e.slot, write));
    }
  }
}
