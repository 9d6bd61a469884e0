/** Connection slots (connection.c), posted events (event_posted.c), timer membership (event_timer.c)
    and the epoll dispatch (epoll_event.c) over the state that ConnSpec describes. */
module Connections {
  import opened ConnSpec
  import opened PostOrder

  class Cycle {
    const n: nat
    var conns: seq<Connection>
    var freeHead: int                // free_connections
    var freeN: nat                   // free_connection_n
    var reuseN: nat                  // reusable_connections_n
    var links: Links

    ghost var free: seq<nat>         // the free list
    ghost var marks: seq<nat>        // when each slot was last marked reusable
    ghost var clock: nat             // how often any slot was
    ghost var issues: seq<nat>       // how often each slot was handed out
    ghost var stamps: map<Ref, nat>  // the issue for which an event was last posted

    ghost function S(): State
      reads this
    {
      State(conns, issues, freeHead, free, links, stamps)
    }

    ghost predicate Inv()
      reads this
    {
      && |conns| == |issues| == n && freeN == |free| && reuseN == |links.reuse| && Sound(S())
      && |marks| == n && Falling(links.reuse, marks) && (forall i :: 0 <= i < n ==> marks[i] <= clock)
    }

    /** event_process_init over freshly allocated, uninitialised slots: threads the free list from the
        last slot to the first. */
    constructor (memory: seq<Connection>)
      requires 0 < |memory|
      ensures n == |memory| && Inv() && freeN == n && issues == seq(n, _ => 0)
      ensures |conns| == |free| == n && forall i :: 0 <= i < n ==> conns[i].fd == NONE && free[i] == i
      ensures forall i :: 0 <= i < n ==> conns[i].read.closed && conns[i].write.closed && conns[i].read.instance
    {
      hide Threaded, Sound;
      n := |memory|;
      conns := memory;
      freeHead, freeN, reuseN := NONE, 0, 0;
      links := Links([], [], [], {}, map[]);
      free, issues, stamps := [], seq(|memory|, _ => 0), map[];
      marks, clock := seq(|memory|, _ => 0), 0;
      new;
      var i := n;
      NothingThreaded(conns);
      while 0 < i
        invariant 0 <= i <= n == |conns| && |free| == n - i && Threaded(conns, freeHead, free)
        invariant forall k :: 0 <= k < |conns| ==> (k in free <==> i <= k)
        invariant forall k :: 0 <= k < |free| ==> free[k] == i + k
        invariant forall k :: i <= k < n ==>
                    conns[k].fd == NONE && conns[k].read.instance && conns[k].read.closed && conns[k].write.closed
        invariant links == Links([], [], [], {}, map[]) && reuseN == 0 && issues == seq(n, _ => 0)
        invariant marks == issues && clock == 0
      {
        i := i - 1;
        var c := conns[i].(data := freeHead, fd := NONE, read := conns[i].read.(closed := true, instance := true),
                           write := conns[i].write.(closed := true));
        Pushed(conns, freeHead, free, i, c);
        conns := conns[i := c];
        freeHead := i;
        free := [i] + free;
      }
      freeN := n;
      Started(S());
    }

    /** The head of the free list is handed out for descriptor `s`: its memory is cleared, except for
        the instance bit, which flips. */
    method Issue(s: int) returns (c: nat)
      requires Inv() && freeHead != NONE && 0 <= s && forall i :: 0 <= i < n ==> conns[i].fd != s
      modifies this`conns, this`freeHead, this`freeN, this`free, this`issues
      ensures Inv() && S() == IssueOf(old(S()), s)
      ensures old(free) != [] && old(freeHead) == c == old(free)[0] && free == old(free)[1..]
      ensures c < n && issues == old(issues)[c := old(issues)[c] + 1]
      ensures conns == old(conns)[c := Blank(s, Even(issues[c]))]
      ensures var x, i := conns[c], !old(conns)[c].read.instance;
              && x.fd == s && !x.reusable && !x.close && !x.sndlowat
              && x.read == x.write == Event(i, false, false, false, false, false, false, false, false)
    {
      hide Sound, Falling, Threaded;
      Issued(S(), s);
      c := freeHead;
      freeHead := conns[c].data;
      freeN := freeN - 1;
      var instance := conns[c].read.instance;
      conns := conns[c := Blank(s, !instance)];
      free := free[1..];
      issues := issues[c := issues[c] + 1];
    }

    predicate Open(c: nat)
      reads this`conns
    {
      c < |conns| && conns[c].fd != NONE
    }

    function EventOf(r: Ref): Event
      reads this`conns
      requires r.slot < |conns|
    {
      Ev(conns[r.slot], r.write)
    }

    /** What the table is after a change to one event. */
    function Put(r: Ref, e: Event): seq<Connection>
      reads this`conns
      requires r.slot < |conns|
    {
      conns[r.slot := WithEv(conns[r.slot], r.write, e)]
    }

    method AddTimer(r: Ref)
      requires Inv() && Open(r.slot)
      modifies this`conns, this`links
      ensures Inv() && conns == old(Put(r, EventOf(r).(timerSet := true)))
      ensures S() == TimerOf(old(S()), r, true)
      ensures links == old(links).(timers := old(links.timers) + {r})
    {
      hide Sound, Falling, Threaded;
      SlotAt(S(), r.slot);
      ghost var s := S();
      conns := Put(r, EventOf(r).(timerSet := true));
      links := links.(timers := links.timers + {r});
      Changed(s, r.slot, conns[r.slot], links, stamps);
    }

    method DelTimer(r: Ref)
      requires Inv() && Open(r.slot) && EventOf(r).timerSet
      modifies this`conns, this`links
      ensures Inv() && conns == old(Put(r, EventOf(r).(timerSet := false)))
      ensures S() == TimerOf(old(S()), r, false)
      ensures links == old(links).(timers := old(links.timers) - {r})
    {
      hide Sound, Falling, Threaded;
      SlotAt(S(), r.slot);
      ghost var s := S();
      conns := Put(r, EventOf(r).(timerSet := false));
      links := links.(timers := links.timers - {r});
      Changed(s, r.slot, conns[r.slot], links, stamps);
    }

    /** post_event, to posted_accept_events or to posted_events. */
    method PostEvent(r: Ref, accept: bool)
      requires Inv() && Open(r.slot)
      modifies this`conns, this`links, this`stamps
      ensures Inv() && conns == old(Put(r, EventOf(r).(posted := true)))
      ensures S() == PostOf(old(S()), r, accept)
      ensures old(EventOf(r).posted) ==> links == old(links) && stamps == old(stamps)
      ensures !old(EventOf(r).posted) ==>
                && stamps == old(stamps)[r := issues[r.slot]]
                && links == if accept then old(links).(accepts := old(links.accepts) + [r])
                            else old(links).(events := old(links.events) + [r])
    {
      hide Sound, Falling, Threaded;
      SlotAt(S(), r.slot);
      if EventOf(r).posted {
        assert conns == Put(r, EventOf(r).(posted := true));
      } else {
        KeepsPost(S(), r, accept);
        conns := Put(r, EventOf(r).(posted := true));
        links := Posted(links, r, accept);
        stamps := stamps[r := issues[r.slot]];
      }
    }

    method DeletePosted(r: Ref)
      requires Inv() && Open(r.slot) && EventOf(r).posted
      modifies this`conns, this`links
      ensures Inv() && conns == old(Put(r, EventOf(r).(posted := false)))
      ensures S() == UnpostOf(old(S()), r)
      ensures links == Unposted(old(links), r)
      ensures forall x :: x in links.accepts <==> x in old(links.accepts) && x != r
      ensures forall x :: x in links.events <==> x in old(links.events) && x != r
      ensures links == old(links).(accepts := links.accepts, events := links.events)
    {
      hide Sound, Falling, Threaded;
      SlotAt(S(), r.slot);
      ghost var s := S();
      UnpostedMembers(|conns|, links, r);
      conns := Put(r, EventOf(r).(posted := false));
      links := Unposted(links, r);
      Changed(s, r.slot, conns[r.slot], links, stamps);
    }

    method ReusableConnection(c: nat, reusable: bool)
      requires Inv() && Open(c)
      modifies this`conns, this`links, this`reuseN, this`marks, this`clock
      ensures Inv() && conns == old(conns)[c := old(conns)[c].(reusable := reusable)]
      ensures S() == MarkOf(old(S()), c, reusable)
      ensures links == old(links).(reuse := Marked(old(links.reuse), c, reusable))
      ensures if reusable
              then clock == old(clock) + 1 && marks == old(marks)[c := clock]
                   && links.reuse != [] && links.reuse[0] == c
              else clock == old(clock) && marks == old(marks)
      ensures forall i :: i in links.reuse <==> if i == c then reusable else i in old(links.reuse)
    {
      hide Sound, Falling, Threaded, Remove;
      KeepsMark(S(), c, reusable);
      ReuseIsUnique(S());
      if conns[c].reusable {
        links := links.(reuse := Remove(links.reuse, c));
        reuseN := reuseN - 1;
      }
      conns := conns[c := conns[c].(reusable := reusable)];
      if reusable {
        links := links.(reuse := [c] + links.reuse);
        reuseN := reuseN + 1;
      }
      assert links.reuse == Marked(old(links.reuse), c, reusable);
      if reusable {
        clock := clock + 1;
        marks := marks[c := clock];
      }
      StillFalling(old(links.reuse), old(marks), c, reusable, clock);
    }

    /** epoll_ctl: refuses to add a watched descriptor and to change or delete an unwatched one, and
        may fail for other reasons. */
    method Control(op: Ctl, fd: int, watched: Interest, accepts: bool) returns (done: bool)
      modifies this`links
      ensures done <==> accepts && (op.ADD? <==> fd !in old(links.interest))
      ensures links == if !done then old(links) else
                old(links).(interest :=
                  if op.DEL? then old(links.interest) - {fd} else old(links.interest)[fd := watched])
    {
      done := accepts && (op.ADD? <==> fd !in links.interest);
      if done {
        links := links.(interest := if op.DEL? then links.interest - {fd} else links.interest[fd := watched]);
      }
    }

    /** epoll_add_event. The kernel never finds the chosen operation invalid, unless the event is
        active already and the other one is not. */
    method AddEvent(r: Ref, edge: bool, accepts: bool) returns (ok: bool)
      requires Inv() && Open(r.slot)
      modifies this`conns, this`links
      ensures Inv()
      ensures ok <==> accepts && (!old(EventOf(r).active) || old(EventOf(Ref(r.slot, !r.write)).active))
      ensures S() == AddEventOf(old(S()), r, edge, accepts)
      ensures ok ==> conns == old(Put(r, EventOf(r).(active := true)))
      ensures links == if !ok then old(links) else
                var x := conns[r.slot];
                old(links).(interest := old(links.interest)[x.fd := Interest(x.read.active, x.write.active, r.slot,
                                                                             x.read.instance, edge)])
    {
      hide Sound, Falling;
      KeepsWatch(S(), r.slot, !r.write || conns[r.slot].read.active, r.write || conns[r.slot].write.active, edge);
      var e := EventOf(Ref(r.slot, !r.write));
      var op := if e.active then MOD else ADD;
      var watched := Interest(!r.write || e.active, r.write || e.active, r.slot, EventOf(r).instance, edge);
      ok := Control(op, conns[r.slot].fd, watched, accepts);
      if ok {
        conns := Put(r, EventOf(r).(active := true));
      }
    }

    /** epoll_del_event, for an event whose connection stays open. */
    method DelEvent(r: Ref, edge: bool, accepts: bool) returns (ok: bool)
      requires Inv() && Open(r.slot)
      modifies this`conns, this`links
      ensures Inv()
      ensures ok <==> accepts && (old(EventOf(r).active) || old(EventOf(Ref(r.slot, !r.write)).active))
      ensures S() == DelEventOf(old(S()), r, edge, accepts)
      ensures ok ==> conns == old(Put(r, EventOf(r).(active := false)))
      ensures links == if !ok then old(links) else
                var x := conns[r.slot];
                old(links).(interest := if x.read.active || x.write.active
                                        then old(links.interest)[x.fd := Interest(x.read.active, x.write.active, r.slot,
                                                                                  x.read.instance, edge)]
                                        else old(links.interest) - {x.fd})
    {
      hide Sound, Falling;
      KeepsWatch(S(), r.slot, r.write && conns[r.slot].read.active, !r.write && conns[r.slot].write.active, edge);
      var e := EventOf(Ref(r.slot, !r.write));
      var op := if e.active then MOD else DEL;
      ok := Control(op, conns[r.slot].fd, Interest(r.write, !r.write, r.slot, EventOf(r).instance, edge), accepts);
      if ok {
        conns := Put(r, EventOf(r).(active := false));
      }
    }

    /** epoll_add_connection: the outcome is not reported. */
    method AddConnection(c: nat, accepts: bool)
      requires Inv() && Open(c)
      modifies this`conns, this`links
      ensures Inv() && S() == WatchBothOf(old(S()), c, accepts)
      ensures if accepts && !old(conns[c]).read.active && !old(conns[c]).write.active
              then conns == old(conns)[c := Activated(old(conns)[c], true, true)]
                   && conns[c].read.active && conns[c].write.active
                   && links == old(links).(interest := old(links.interest)[
                                 conns[c].fd := Interest(true, true, c, conns[c].read.instance, true)])
              else conns == old(conns) && links == old(links)
    {
      hide Sound, Falling;
      KeepsWatch(S(), c, true, true, true);
      var ok := Control(ADD, conns[c].fd, Interest(true, true, c, conns[c].read.instance, true), accepts);
      if ok {
        conns := conns[c := Activated(conns[c], true, true)];
      }
    }

    /** epoll_del_connection, for a connection that stays open. */
    method DelConnection(c: nat, accepts: bool) returns (ok: bool)
      requires Inv() && Open(c)
      modifies this`conns, this`links
      ensures Inv() && S() == UnwatchBothOf(old(S()), c, accepts)
      ensures ok <==> accepts && (old(conns[c]).read.active || old(conns[c]).write.active)
      ensures if ok
              then conns == old(conns)[c := Activated(old(conns)[c], false, false)]
                   && !conns[c].read.active && !conns[c].write.active
                   && links == old(links).(interest := old(links.interest) - {conns[c].fd})
              else conns == old(conns) && links == old(links)
    {
      hide Sound, Falling;
      KeepsWatch(S(), c, false, false, false);
      ok := Control(DEL, conns[c].fd, Interest(false, false, c, false, false), accepts);
      if ok {
        conns := conns[c := Activated(conns[c], false, false)];
      }
    }

    /** handle_read_event, and handle_write_event after the low-water mark. */
    method HandleEvent(r: Ref, accepts: bool) returns (ok: bool)
      requires Inv() && Open(r.slot)
      modifies this`conns, this`links
      ensures Inv()
      ensures ok <==> accepts || old(EventOf(r).active) || old(EventOf(r).ready)
      ensures ok ==> EventOf(r).active || EventOf(r).ready
      ensures S() == HandleOf(old(S()), r, accepts)
      ensures if !ok || old(EventOf(r).active) || old(EventOf(r).ready) then S() == old(S())
              else conns == old(Put(r, EventOf(r).(active := true)))
                   && conns[r.slot].fd in links.interest && links.interest[conns[r.slot].fd].edge
      ensures links == old(links).(interest := links.interest)
    {
      ok := true;
      if !EventOf(r).active && !EventOf(r).ready {
        ok := AddEvent(r, true, accepts);
      }
    }

    /** send_lowat */
    method SendLowat(c: nat, lowat: nat, sets: bool) returns (ok: bool)
      requires Inv() && Open(c)
      modifies this`conns
      ensures Inv() && S() == LowatOf(old(S()), c, lowat, sets)
      ensures ok <==> lowat == 0 || old(conns)[c].sndlowat || sets
      ensures conns == if ok && lowat != 0 then old(conns)[c := old(conns)[c].(sndlowat := true)] else old(conns)
    {
      hide Sound, Falling, Threaded;
      if lowat == 0 || conns[c].sndlowat {
        return true;
      }
      if !sets {
        return false;
      }
      ok := true;
      SlotAt(S(), c);
      ghost var s := S();
      conns := conns[c := conns[c].(sndlowat := true)];
      Changed(s, c, conns[c], links, stamps);
    }

    /** handle_write_event */
    method HandleWriteEvent(c: nat, lowat: nat, sets: bool, accepts: bool) returns (ok: bool)
      requires Inv() && Open(c)
      modifies this`conns, this`links
      ensures Inv() && S() == HandleWriteOf(old(S()), c, lowat, sets, accepts)
      ensures links == old(links).(interest := links.interest)
      ensures ok ==> (conns[c].write.active || conns[c].write.ready) && (lowat != 0 ==> conns[c].sndlowat)
      ensures ok <==>
                && (lowat == 0 || old(conns)[c].sndlowat || sets)
                && (accepts || old(conns)[c].write.active || old(conns)[c].write.ready)
    {
      hide Inv;
      ok := true;
      assert lowat == 0 ==> LowatOf(S(), c, lowat, sets) == S();
      if lowat != 0 {
        ok := SendLowat(c, lowat, sets);
        if !ok {
          return;
        }
      }
      ok := HandleEvent(Ref(c, true), accepts);
    }

    /** close_connection. */
    method CloseConnection(c: nat)
      requires Inv() && c < n
      modifies this`conns, this`links, this`freeHead, this`freeN, this`free, this`reuseN, this`marks, this`clock
      ensures Inv()
      ensures old(Open(c)) ==>
                && conns == old(conns)[c := Closed(old(conns)[c], old(freeHead))]
                && links == Cut(old(links), c, old(conns)[c].fd)
                && free == [c] + old(free) && freeHead == c
                && var x := conns[c];
                   && x.fd == NONE && !x.reusable
                   && !x.read.active && !x.read.timerSet && !x.read.posted && x.read.closed
                   && !x.write.active && !x.write.timerSet && !x.write.posted && x.write.closed
      ensures old(Open(c)) ==>
                && links.interest == old(links.interest) - {old(conns)[c].fd}
                && links.timers == old(links.timers) - {Ref(c, false), Ref(c, true)}
                && (forall i :: i in links.reuse <==> i in old(links.reuse) && i != c)
                && (forall r :: r in links.accepts <==> r in old(links.accepts) && r.slot != c)
                && (forall r :: r in links.events <==> r in old(links.events) && r.slot != c)
      ensures S() == CloseOf(old(S()), c) && (!old(Open(c)) ==> S() == old(S()))
      ensures marks == old(marks) && clock == old(clock)
    {
      hide Sound, Falling, Threaded, ListsOk, Unposted, Marked;
      if conns[c].fd == NONE {
        return;
      }
      ghost var x, l := conns[c], links;
      Unlink(c);
      ReusableConnection(c, false);
      assert links == Cut(l, c, x.fd).(interest := l.interest) by { CutInSteps(l, c, x.fd); }
      CutOff(old(S()), c);
      Release(c);
      assert conns == old(conns)[c := Closed(x, old(freeHead))];
    }

    /** The first part of close_connection. */
    method Unlink(c: nat)
      requires Inv() && Open(c)
      modifies this`conns, this`links
      ensures Inv() && conns == old(conns)[c := Unset(old(conns)[c])]
      ensures var m := old(links).(timers := old(links.timers) - {Ref(c, false), Ref(c, true)});
              links == Unposted(Unposted(m, Ref(c, false)), Ref(c, true))
    {
      hide Inv, Unposted;
      ghost var read, write, l := Ref(c, false), Ref(c, true), links;
      StopTimer(Ref(c, false));
      StopTimer(Ref(c, true));
      assert l.timers - {read} - {write} == l.timers - {read, write};
      Withdraw(Ref(c, false));
      Withdraw(Ref(c, true));
      assert conns[c] == Unset(old(conns)[c]);
      assert conns == old(conns)[c := conns[c]];
    }

    /** Deletes the timer of an event if it is set. */
    method StopTimer(r: Ref)
      requires Inv() && Open(r.slot)
      modifies this`conns, this`links
      ensures Inv() && conns == old(Put(r, EventOf(r).(timerSet := false)))
      ensures links == old(links).(timers := old(links.timers) - {r})
    {
      hide Sound, Falling;
      EventAt(S(), r);
      assert !EventOf(r).timerSet ==> conns == Put(r, EventOf(r).(timerSet := false));
      if EventOf(r).timerSet {
        DelTimer(r);
      }
    }

    /** Takes an event off its posted queue if it is posted. */
    method Withdraw(r: Ref)
      requires Inv() && Open(r.slot)
      modifies this`conns, this`links
      ensures Inv() && conns == old(Put(r, EventOf(r).(posted := false)))
      ensures links == Unposted(old(links), r)
    {
      hide Sound, Unposted;
      EventAt(S(), r);
      assert !EventOf(r).posted ==> conns == Put(r, EventOf(r).(posted := false));
      if EventOf(r).posted {
        DeletePosted(r);
      }
    }

    /** The end of close_connection: the events go idle, free_connection, and close, with which the
        kernel forgets the descriptor. */
    method Release(c: nat)
      requires Inv() && Open(c) && c !in links.reuse && Unlinked(Ref(c, false), links) && Unlinked(Ref(c, true), links)
      modifies this`conns, this`links, this`freeHead, this`freeN, this`free
      ensures Inv() && conns == old(conns)[c := Closed(old(conns)[c], old(freeHead))]
      ensures links == old(links).(interest := old(links.interest) - {old(conns)[c].fd})
      ensures free == [c] + old(free) && freeHead == c
    {
      hide Sound, Falling, Threaded;
      SlotAt(S(), c);
      Released(S(), c, Closed(conns[c], freeHead), links.interest - {conns[c].fd});
      conns := conns[c := conns[c].(read := conns[c].read.(active := false, closed := true),
                                    write := conns[c].write.(active := false, closed := true))];
      conns := conns[c := conns[c].(data := freeHead)];
      freeHead := c;
      freeN := freeN + 1;
      free := [c] + free;
      var fd := conns[c].fd;
      conns := conns[c := conns[c].(fd := NONE)];
      links := links.(interest := links.interest - {fd});
      assert conns[c] == Closed(old(conns)[c], old(freeHead));
      assert conns == old(conns)[c := conns[c]];
    }

    /** drain_connections, when the handler of a connection marked `close` closes it: exactly as many as
        asked for are released, if there are so many, and they are those marked reusable longest ago. */
    method DrainConnections() returns (ghost released: set<nat>)
      requires Inv()
      modifies this`conns, this`links, this`freeHead, this`freeN, this`free, this`reuseN, this`marks, this`clock
      ensures Inv()
      ensures var keep := |old(links.reuse)| - Min(|old(links.reuse)|, DrainCount(|old(links.reuse)|));
              && links.reuse == old(links.reuse)[..keep]
              && free == old(links.reuse)[keep..] + old(free)
      ensures S() == Drained(old(S()), DrainCount(|old(links.reuse)|)) && (old(links.reuse) == [] ==> S() == old(S()))
      ensures forall accept :: |QueueOf(links, accept)| <= |QueueOf(old(links), accept)|
      ensures |conns| == n && forall i :: 0 <= i < n && i !in old(links.reuse) ==> conns[i] == old(conns)[i]
      ensures forall i :: 0 <= i < n ==> conns[i].fd == old(conns)[i].fd || conns[i].fd == NONE
      ensures marks == old(marks) && clock == old(clock)
      ensures forall i: nat :: i in released <==> i < n && old(conns)[i].fd != NONE && conns[i].fd == NONE
      ensures var r := |set i: nat | i < n && old(conns)[i].fd != NONE && old(conns)[i].reusable|;
              |released| == if r == 0 then 0 else if r < 16 then 1 else if r < 256 then r / 8 else 32
      ensures forall i :: i in released ==> old(conns)[i].reusable
      ensures forall i, j: nat :: (i in released && j < n && j !in released
                                  && old(conns)[j].fd != NONE && old(conns)[j].reusable) ==> marks[i] < marks[j]
      ensures forall i: nat :: i < n && i !in released ==> conns[i] == old(conns)[i]
    {
      hide Inv, Drained, DrainCount, Min, Sound, QueueOf, Falling;
      ghost var s := S();
      Lengths();
      DrainLoop();
      Lengths();
      DrainedAtOnce(|s.links.reuse|);
      released := LongestAgo(s, S(), |links.reuse|, marks);
    }

    method DrainLoop()
      requires Inv()
      modifies this`conns, this`links, this`freeHead, this`freeN, this`free, this`reuseN, this`marks, this`clock
      ensures Inv()
      ensures var keep := |old(links.reuse)| - Min(|old(links.reuse)|, DrainCount(|old(links.reuse)|));
              && links.reuse == old(links.reuse)[..keep]
              && free == old(links.reuse)[keep..] + old(free)
      ensures S() == Drained(old(S()), DrainCount(|old(links.reuse)|)) && (old(links.reuse) == [] ==> S() == old(S()))
      ensures forall accept :: |QueueOf(links, accept)| <= |QueueOf(old(links), accept)|
      ensures var keep := |old(links.reuse)| - Min(|old(links.reuse)|, DrainCount(|old(links.reuse)|));
              |conns| == n && forall i :: 0 <= i < n && i !in old(links.reuse)[keep..] ==> conns[i] == old(conns)[i]
      ensures forall i :: 0 <= i < n ==> conns[i].fd == old(conns)[i].fd || conns[i].fd == NONE
      ensures marks == old(marks) && clock == old(clock)
    {
      hide Inv, Sound, Falling, Drained, CloseOf, Closed, QueueOf, Draining;
      Lengths();
      var count := DrainCount(reuseN);
      ghost var s := S();
      var k := 0;
      assert Draining(s, s, 0) by { NotDrained(s); }
      while k < count
        invariant Inv() && 0 <= k <= count && |conns| == n && marks == old(marks) && clock == old(clock)
        invariant Drained(S(), count - k) == Drained(s, count) && Draining(s, S(), k)
      {
        DrainedOnce(S(), count - k);
        if links.reuse == [] {
          DrainedDry(S(), count - k);
          break;
        }
        var c := links.reuse[|links.reuse| - 1];
        ghost var t := S();
        CloseReusable(c);
        DrainsOneMore(s, t, S(), k, c);
        k := k + 1;
      }
      DrainedNone(S());
      DrainEnds(s, S(), k);
    }

    lemma Lengths()
      requires Inv()
      ensures |conns| == |issues| == |marks| == n && reuseN == |links.reuse|
      ensures Sound(S()) && Falling(links.reuse, marks)
    {
    }

    /** Marks the last connection of the reuse queue `close` and calls its handler. */
    method CloseReusable(c: nat)
      requires Inv() && links.reuse != [] && c == links.reuse[|links.reuse| - 1]
      modifies this`conns, this`links, this`freeHead, this`freeN, this`free, this`reuseN, this`marks, this`clock
      ensures Inv() && c < n == |conns| == |old(conns)| && links.reuse == old(links.reuse)[..|old(links.reuse)| - 1]
      ensures S() == Drained(old(S()), 1)
      ensures free == [c] + old(free) && forall accept :: |QueueOf(links, accept)| <= |QueueOf(old(links), accept)|
      ensures conns[c].fd == NONE && conns[c].close
      ensures forall i :: 0 <= i < n && i != c ==> conns[i] == old(conns)[i]
      ensures marks == old(marks) && clock == old(clock)
    {
      hide Sound, Remove;
      Reusable(S(), c);
      RemoveLast(links.reuse);
      MarkClose(c);
      CloseConnection(c);
    }

    method MarkClose(c: nat)
      requires Inv() && Open(c)
      modifies this`conns
      ensures Inv() && conns == old(conns)[c := old(conns)[c].(close := true)]
    {
      hide Sound, Falling, Threaded;
      SlotAt(S(), c);
      ghost var s := S();
      conns := conns[c := conns[c].(close := true)];
      Changed(s, c, conns[c], links, stamps);
    }

    /** get_connection for a descriptor `s` that no slot has. It fails only when there is neither a free
        nor a reusable slot. */
    method GetConnection(s: int) returns (ok: bool, c: nat)
      requires Inv() && 0 <= s && forall i :: 0 <= i < n ==> conns[i].fd != s
      modifies this`conns, this`links, this`freeHead, this`freeN, this`free, this`reuseN,
               this`marks, this`clock, this`issues
      ensures Inv()
      ensures ok <==> old(free) != [] || old(links.reuse) != []
      ensures ok ==> c < n && conns[c] == Blank(s, Even(issues[c])) && issues == old(issues)[c := old(issues)[c] + 1]
      ensures ok <==> Refilled(old(S())).free != []
      ensures ok ==> c == Refilled(old(S())).head
      ensures S() == GetOf(old(S()), s) && (!ok ==> S() == old(S()))
      ensures old(free) != [] ==> c == old(free)[0] && free == old(free)[1..] && links == old(links)
                                  && conns == old(conns)[c := conns[c]]
      ensures old(free) == [] && ok ==>
                var keep := |old(links.reuse)| - Min(|old(links.reuse)|, DrainCount(|old(links.reuse)|));
                && c == old(links.reuse)[keep] && free == old(links.reuse)[keep + 1..]
                && links.reuse == old(links.reuse)[..keep]
      ensures forall accept :: |QueueOf(links, accept)| <= |QueueOf(old(links), accept)|
      ensures forall i :: 0 <= i < n && i !in old(links.reuse) && (ok ==> i != c) ==> conns[i] == old(conns)[i]
      ensures marks == old(marks) && clock == old(clock)
    {
      hide Sound, Falling, Drained, QueueOf;
      HeadAt(S());
      if freeHead == NONE {
        ghost var _ := DrainConnections();
        HeadAt(S());
      }
      if freeHead == NONE {
        return false, 0;
      }
      c := Issue(s);
      ok := true;
    }

    /** close_accepted_connection, on a slot that get_connection has just handed out. */
    method Abandon(c: nat)
      requires Inv() && Open(c) && conns[c] == Blank(conns[c].fd, conns[c].read.instance)
      modifies this`conns, this`links, this`freeHead, this`freeN, this`free
      ensures Inv() && free == [c] + old(free) && links == old(links)
      ensures S() == AbandonOf(old(S()), c)
    {
      hide Sound, Falling, Threaded, ListsOk;
      SlotAt(S(), c);
      var fd := conns[c].fd;
      assert links.interest - {fd} == links.interest;
      Released(S(), c, conns[c].(data := freeHead, fd := NONE), links.interest - {fd});
      conns := conns[c := conns[c].(data := freeHead)];
      freeHead := c;
      freeN := freeN + 1;
      free := [c] + free;
      conns := conns[c := conns[c].(fd := NONE)];
      links := links.(interest := links.interest - {fd});
      assert conns == old(conns)[c := conns[c]];
    }

    /** Overwrites flags of an event that no link depends on. */
    method SetFlags(r: Ref, e: Event)
      requires Inv() && Open(r.slot)
      requires var v := EventOf(r);
               e.active == v.active && e.instance == v.instance && e.timerSet == v.timerSet && e.posted == v.posted
      modifies this`conns
      ensures Inv() && conns == old(Put(r, e)) && S() == With(old(S()), r, e)
    {
      hide Sound, Falling, Threaded;
      SlotAt(S(), r.slot);
      ghost var s := S();
      conns := Put(r, e);
      Changed(s, r.slot, conns[r.slot], links, stamps);
    }

    // ---------- runs ----------

    /** Any operation at all keeps the invariant. */
    method Perform(op: Op)
      requires Inv()
      modifies this
      ensures Inv() && |old(issues)| == |old(conns)| && S() == Apply(old(S()), op)
      ensures Keeps(op) ==> Grows(old(links), links)
      ensures forall accept :: !Feeds(op, accept) ==> |QueueOf(links, accept)| <= |QueueOf(old(links), accept)|
    {
      hide Inv, Sound, Falling, Remove, GetOf, GetAndAbandonOf, CloseOf, MarkOf, TimerOf, PostOf, UnpostOf;
      hide AddEventOf, DelEventOf, WatchBothOf, UnwatchBothOf, HandleOf, HandleWriteOf;
      Lengths();
      if !AllowedIn(conns, op) {
        return;
      }
      match op {
        case Get(fd, kept) =>
          GetFor(fd, kept);
        case Close(c) => CloseConnection(c);
        case Mark(c, reusable) => ReusableConnection(c, reusable);
        case Listen(c) => SetFlags(Ref(c, false), conns[c].read.(accept := true));
        case SetTimer(r) => AddTimer(r);
        case ClearTimer(r) => DelTimer(r);
        case Post(r, accept) => PostEvent(r, accept);
        case Unpost(r) => DeletePosted(r);
        case Watch(r, edge, accepts) => var _ := AddEvent(r, edge, accepts);
        case Unwatch(r, edge, accepts) => var _ := DelEvent(r, edge, accepts);
        case WatchBoth(c, accepts) => AddConnection(c, accepts);
        case UnwatchBoth(c, accepts) => var _ := DelConnection(c, accepts);
        case HandleRead(c, accepts) => var _ := HandleEvent(Ref(c, false), accepts);
        case HandleWrite(c, lowat, sets, accepts) => var _ := HandleWriteEvent(c, lowat, sets, accepts);
      }
    }

    /** get_connection, and close_accepted_connection if the accepted connection is given up. */
    method GetFor(fd: int, kept: bool)
      requires Inv() && 0 <= fd && forall i :: 0 <= i < n ==> conns[i].fd != fd
      modifies this`conns, this`links, this`freeHead, this`freeN, this`free, this`reuseN,
               this`marks, this`clock, this`issues
      ensures Inv() && S() == if kept then GetOf(old(S()), fd) else GetAndAbandonOf(old(S()), fd)
      ensures forall accept :: |QueueOf(links, accept)| <= |QueueOf(old(links), accept)|
      ensures marks == old(marks) && clock == old(clock)
    {
      hide Sound, Falling, Refilled;
      HeadAt(S());
      var ok, c := GetConnection(fd);
      if ok && !kept {
        Abandon(c);
      }
    }

    /** One call of a handler: any sequence of operations. */
    method Run(ops: seq<Op>)
      requires Inv()
      modifies this
      ensures Inv() && |issues| == |old(issues)| == |conns| == |old(conns)| && S() == ApplyAll(old(S()), ops)
      ensures (forall op :: op in ops ==> Keeps(op)) ==> Grows(old(links), links)
      ensures forall accept :: (forall op :: op in ops ==> !Feeds(op, accept)) ==>
                |QueueOf(links, accept)| <= |QueueOf(old(links), accept)|
    {
      RunBounded(ops);
    }

    method RunBounded(ops: seq<Op>)
      requires Inv()
      modifies this
      ensures Inv() && |issues| == |old(issues)| == |conns| == |old(conns)| && S() == ApplyAll(old(S()), ops)
      ensures Bounded(old(links), links, ops)
    {
      hide Inv, Sound, Falling, Apply, QueueOf, Feeds, Keeps, Grows, Bounded;
      Lengths();
      NothingBounds(links);
      var k := 0;
      while k < |ops|
        invariant 0 <= k <= |ops| && Inv() && |conns| == |issues| == n && S() == ApplyAll(old(S()), ops[..k])
        invariant Bounded(old(links), links, ops[..k])
      {
        assert ops[..k + 1][..k] == ops[..k];
        ghost var l := links;
        Perform(ops[k]);
        Lengths();
        BoundedMore(old(links), l, links, ops[..k], ops[k]);
        assert ops[..k] + [ops[k]] == ops[..k + 1];
        k := k + 1;
      }
      assert ops[..|ops|] == ops;
    }

    /** The counters count what they are named for. */
    lemma Counters()
      requires Inv()
      ensures freeN == |set i | 0 <= i < n && conns[i].fd == NONE|
      ensures reuseN == |set i | 0 <= i < n && conns[i].fd != NONE && conns[i].reusable|
    {
      var idle := set i | 0 <= i < n && conns[i].fd == NONE;
      var reusable := set i | 0 <= i < n && conns[i].fd != NONE && conns[i].reusable;
      forall i ensures (i in free <==> i in idle) && (i in links.reuse <==> i in reusable) {
        if 0 <= i < n {
          SlotLinks(S(), i);
        }
      }
      UniqueCount(free, idle);
      UniqueCount(links.reuse, reusable);
    }

    /** The next event of a posted queue: taken off, and about to be handled. */
    method NextPosted(accept: bool) returns (r: Ref, ghost call: Call)
      requires Inv() && QueueOf(links, accept) != []
      modifies this`conns, this`links
      ensures Inv() && r == old(QueueOf(links, accept))[0] && QueueOf(links, accept) == old(QueueOf(links, accept))[1..]
      ensures |conns| == |old(conns)| == |issues| == n && r.slot < n && r in stamps && S() == Apply(old(S()), Unpost(r))
      ensures call == Call(r, stamps[r], issues[r.slot], Open(r.slot)) && Current(call)
    {
      hide Sound, Falling, Threaded;
      r := QueueOf(links, accept)[0];
      PostedAt(S(), r);
      ghost var q := QueueOf(links, accept);
      assert q[0] == r;
      call := Call(r, stamps[r], issues[r.slot], Open(r.slot));
      DeletePosted(r);
    }

    /** One turn of the loop of event_process_posted. */
    method HandleNext(ghost s: State, accept: bool, plan: nat -> seq<Op>, calls: nat, ghost log: seq<Call>)
      returns (ghost call: Call)
      requires Inv() && QueueOf(links, accept) != [] && Processed(s, accept, plan, calls, S(), log)
      modifies this
      ensures Inv() && Processed(s, accept, plan, calls + 1, S(), log + [call])
      ensures (forall op :: op in plan(calls) ==> !Feeds(op, accept)) ==>
                |QueueOf(links, accept)| < |QueueOf(old(links), accept)|
    {
      hide Inv, Processed, Apply, ApplyAll, Current;
      Lengths();
      ghost var before := S();
      var r, next := NextPosted(accept);
      call := next;
      Run(plan(calls));
      OneProcessed(s, accept, plan, calls, before, S(), log, call);
    }

    /** event_process_posted, when the `k`-th handler called performs `plan(k)` and the handlers post
        nothing to this queue from some call on. */
    method ProcessPosted(accept: bool, plan: nat -> seq<Op>, ghost last: nat) returns (calls: nat, ghost log: seq<Call>)
      requires Inv()
      requires forall k: nat, op :: last <= k && op in plan(k) ==> !Feeds(op, accept)
      modifies this
      ensures Inv() && QueueOf(links, accept) == [] && |log| == calls
      ensures |old(issues)| == |old(conns)| && S() == AfterCalls(old(S()), accept, plan, calls)
      ensures forall k :: 0 <= k < |log| ==> Called(log[k].r, old(S()), accept, plan, k)
      ensures forall k :: 0 <= k < |log| ==> Current(log[k])
      ensures (forall k: nat, op :: op in plan(k) ==> Keeps(op)) ==> old(QueueOf(links, accept)) <= Refs(log)
    {
      Lengths();
      NoneProcessed(S(), accept, plan);
      calls, log := HandlePosted(S(), accept, plan, last);
      AllProcessed(old(S()), accept, plan, calls, S(), log);
    }

    method HandlePosted(ghost s: State, accept: bool, plan: nat -> seq<Op>, ghost last: nat)
      returns (calls: nat, ghost log: seq<Call>)
      requires Inv() && Processed(s, accept, plan, 0, S(), [])
      requires forall k: nat, op :: last <= k && op in plan(k) ==> !Feeds(op, accept)
      modifies this
      ensures Inv() && QueueOf(links, accept) == [] && Processed(s, accept, plan, calls, S(), log)
    {
      hide *;
      calls, log := 0, [];
      while QueueOf(links, accept) != []
        invariant Inv() && Processed(s, accept, plan, calls, S(), log)
        decreases if calls < last then last - calls else 0, |QueueOf(links, accept)|
      {
        ghost var call := HandleNext(s, accept, plan, calls, log);
        calls, log := calls + 1, log + [call];
      }
    }

    // ---------- epoll_process_events ----------

    /** The slot is open and its instance bit is the reported one. */
    predicate Fresh(e: Report)
      reads this`conns
      requires e.slot < |conns|
    {
      conns[e.slot].fd != NONE && conns[e.slot].read.instance == e.instance
    }

    /** What the event loop does for one half of a report that it found fresh and active. */
    method Deliver(e: Report, write: bool, post: bool, ops: seq<Op>)
      requires Inv() && Open(e.slot)
      modifies this
      ensures Inv() && |old(issues)| == |old(conns)| == |conns| == |issues|
      ensures S() == if post then PostOf(ReadyOf(old(S()), e, write), Ref(e.slot, write), AcceptsOf(old(S()), e, write))
                     else ApplyAll(ReadyOf(old(S()), e, write), ops)
    {
      hide Inv, PostOf, ApplyAll;
      Lengths();
      var r := Ref(e.slot, write);
      SetFlags(r, EventOf(r).(ready := true, eof := EventOf(r).eof || (!write && e.rdhup)));
      assert S() == ReadyOf(old(S()), e, write);
      assert EventOf(r).accept == old(EventOf(r).accept);
      if post {
        PostEvent(r, !write && EventOf(r).accept);
      } else {
        Run(ops);
      }
      Lengths();
    }

    /** The dispatch of the read half. */
    method DispatchRead(e: Report, ghost fetched: nat, post: bool, ops: seq<Op>) returns (ghost log: seq<Call>)
      requires Inv() && e.slot < n && Fresh(e)
      modifies this
      ensures Inv() && |old(issues)| == |old(conns)| == |conns| == n && S() == DeliverOf(old(S()), e, false, post, ops)
      ensures log == CallsOf(old(S()), e, false, fetched, post)
      ensures log == if Wakes(e, false) && old(conns)[e.slot].read.active && !post
                     then [Call(Ref(e.slot, false), fetched, old(issues)[e.slot], true)] else []
      ensures post || log == [] ==> issues == old(issues) && free == old(free) && SameSlots(old(conns), conns)
      ensures post && Wakes(e, false) && old(conns)[e.slot].read.active ==> conns[e.slot].read.posted
      ensures var x, v := old(conns)[e.slot], old(conns)[e.slot].read;
              var ready := v.(ready := true, eof := v.eof || e.rdhup);
              if !(e.error || e.input) || !v.active then S() == old(S())
              else if post then conns == old(conns)[e.slot := x.(read := ready.(posted := true))]
              else S() == ApplyAll(old(S()).(conns := old(conns)[e.slot := x.(read := ready)]), ops)
    {
      hide Sound, Falling, PostOf, ApplyAll, ReadyOf, SameSlots;
      Lengths();
      log := [];
      SameSlotsSelf(conns);
      if Wakes(e, false) && conns[e.slot].read.active {
        log := if post then [] else [Call(Ref(e.slot, false), fetched, issues[e.slot], true)];
        if post {
          PostedSlots(S(), e, false);
        }
        HalfIs(S(), e, false);
        Deliver(e, false, post, ops);
      }
    }

    /** The dispatch of the write half, which looks at the slot again. */
    method DispatchWrite(e: Report, ghost fetched: nat, post: bool, ops: seq<Op>) returns (ghost log: seq<Call>)
      requires Inv() && e.slot < n && e.instance == Even(fetched)
      modifies this
      ensures Inv() && |old(issues)| == |old(conns)| == |conns| == n && S() == DeliverOf(old(S()), e, true, post, ops)
      ensures (old(Fresh(e)) <==> old(Open(e.slot)) && Even(old(issues)[e.slot]) == Even(fetched))
      ensures log == CallsOf(old(S()), e, true, fetched, post)
      ensures log == if old(Fresh(e)) && Wakes(e, true) && old(conns)[e.slot].write.active && !post
                     then [Call(Ref(e.slot, true), fetched, old(issues)[e.slot], true)] else []
      ensures post || log == [] ==> issues == old(issues) && free == old(free) && SameSlots(old(conns), conns)
      ensures post && old(Fresh(e)) && Wakes(e, true) && old(conns)[e.slot].write.active ==> conns[e.slot].write.posted
      ensures var x, v := old(conns)[e.slot], old(conns)[e.slot].write;
              if !old(Fresh(e)) || !(e.error || e.output) || !v.active then S() == old(S())
              else if post then conns == old(conns)[e.slot := x.(write := v.(ready := true, posted := true))]
              else S() == ApplyAll(old(S()).(conns := old(conns)[e.slot := x.(write := v.(ready := true))]), ops)
    {
      hide Sound, Falling, PostOf, ApplyAll, ReadyOf, SameSlots;
      Lengths();
      log := [];
      SameSlotsSelf(conns);
      SlotParity(e.slot);
      if Wakes(e, true) && conns[e.slot].write.active {
        if conns[e.slot].fd == NONE || conns[e.slot].write.instance != e.instance {
          return;
        }
        log := if post then [] else [Call(Ref(e.slot, true), fetched, issues[e.slot], true)];
        if post {
          PostedSlots(S(), e, true);
        }
        HalfIs(S(), e, true);
        Deliver(e, true, post, ops);
      }
    }

    lemma SlotParity(c: nat)
      requires Inv() && c < n
      ensures conns[c].read.instance == Even(issues[c])
      ensures conns[c].fd != NONE ==> conns[c].write.instance == conns[c].read.instance
    {
      hide Threaded;
      SlotAt(S(), c);
    }

    /** One entry of the batch. */
    method Dispatch(e: Report, ghost fetched: nat, post: bool, reaction: Reaction) returns (ghost log: seq<Call>)
      requires Inv() && e.slot < n && e.instance == Even(fetched)
      modifies this
      ensures Inv() && |old(issues)| == |old(conns)| == n && S() == DispatchOf(old(S()), e, post, reaction)
      ensures log == DispatchLog(old(S()), e, fetched, post, reaction)
      ensures (old(Fresh(e)) <==> old(Open(e.slot)) && Even(old(issues)[e.slot]) == Even(fetched))
      ensures forall k :: 0 <= k < |log| ==> Undetected(log[k]) && log[k].r.slot == e.slot && log[k].before == fetched
      ensures !old(Fresh(e)) ==> log == []
      ensures post ==> log == [] && issues == old(issues) && free == old(free) && SameSlots(old(conns), conns)
      ensures post && old(Fresh(e)) ==> AllPosted([e], old(conns), conns)
    {
      hide Sound, Falling, SameSlots, AllPosted, DeliverOf, CallsOf;
      log := [];
      SlotParity(e.slot);
      SameSlotsSelf(conns);
      if conns[e.slot].fd == NONE || conns[e.slot].read.instance != e.instance {
        return;
      }
      log := DispatchRead(e, fetched, post, reaction.read);
      ghost var between := conns;
      if post {
        StillFresh(e, old(conns), conns);
      }
      ghost var more := DispatchWrite(e, fetched, post, reaction.write);
      log := log + more;
      if post {
        BothHalves(e, old(conns), between, conns);
      }
    }

    /** A report that epoll_wait can return now. */
    predicate Reported(e: Report)
      reads this`links
    {
      e.fd in links.interest && links.interest[e.fd].slot == e.slot && links.interest[e.fd].instance == e.instance
    }

    lemma ReportedAt(e: Report)
      requires Inv() && Reported(e)
      ensures e.slot < n && Open(e.slot) && conns[e.slot].fd == e.fd && e.instance == Even(issues[e.slot]) && Fresh(e)
      ensures Reportable(S(), e)
    {
      hide Threaded;
      SlotAt(S(), e.slot);
    }

    lemma AllFaithful(batch: seq<Report>)
      requires Inv() && forall k :: 0 <= k < |batch| ==> Reported(batch[k])
      ensures Faithful(batch, conns, issues)
    {
      forall k | 0 <= k < |batch| ensures FaithfulAt(batch[k], conns, issues) {
        ReportedAt(batch[k]);
      }
    }

    method DispatchNext(ghost s: State, batch: seq<Report>, post: bool, plan: nat -> Reaction, i: nat,
                        ghost log: seq<Call>)
      returns (ghost more: seq<Call>)
      requires Inv() && i < |batch| && Midway(s, batch, post, plan, i, S(), log)
      modifies this
      ensures Inv() && Midway(s, batch, post, plan, i + 1, S(), log + more)
    {
      hide Inv, Faithful, AfterReports, BatchLog, DispatchOf, DispatchLog;
      hide PassedCheck, AllPosted, SameSlots, Undetected;
      ghost var before := S();
      Lengths();
      FaithfulNow(batch, s.conns, s.issues, i);
      if post {
        StillFresh(batch[i], s.conns, conns);
      }
      more := Dispatch(batch[i], s.issues[batch[i].slot], post, plan(i));
      OneLogged(more, s.issues, batch[i].slot);
      PassedMore(log, more, s.issues);
      if post {
        OneDelivered(batch, i, s.conns, before.conns, conns);
      }
      Lengths();
      NextReport(s, batch, post, plan, i);
    }

    /** The dispatch loop of epoll_process_events over a batch just fetched: a handler only ever runs
        for an open slot reissued an even number of times since, and when events are posted none runs
        and no active event of the batch is lost. */
    method ProcessEvents(batch: seq<Report>, post: bool, plan: nat -> Reaction)
      returns (ghost log: seq<Call>, ghost accepts: seq<Ref>, ghost others: seq<Ref>)
      requires Inv() && forall k :: 0 <= k < |batch| ==> Reported(batch[k])
      modifies this
      ensures Inv() && |old(issues)| == |old(conns)| == n && S() == AfterReports(old(S()), batch, post, plan, |batch|)
      ensures PassedCheck(log, old(issues)) && log == BatchLog(old(S()), batch, post, plan, |batch|)
      ensures post ==> log == [] && issues == old(issues) && free == old(free) && SameSlots(old(conns), conns)
      ensures post ==> AllPosted(batch, old(conns), conns)
      ensures post ==>
                && |conns| == |old(conns)|
                && links.accepts == old(links.accepts) + accepts && links.events == old(links.events) + others
                && (forall r :: r in accepts <==>
                                Newly(old(conns), conns, r) && !r.write && old(conns)[r.slot].read.accept)
                && (forall r :: r in others <==>
                                Newly(old(conns), conns, r) && (r.write || !old(conns)[r.slot].read.accept))
                && Rising(batch, accepts) && Rising(batch, others)
      ensures post ==>
                && (forall r :: Newly(old(conns), conns, r) ==>
                      exists k :: 0 <= k < |batch| && batch[k].slot == r.slot && Wakes(batch[k], r.write))
                && (forall e, write :: e in batch && e.slot < |old(conns)| && Wakes(e, write)
                                       && Ev(old(conns)[e.slot], write).active ==>
                      Ev(conns[e.slot], write).posted && Ev(conns[e.slot], write).ready)
    {
      Lengths();
      AllFaithful(batch);
      AtFetch(S(), batch, post, plan);
      ghost var s := S();
      accepts, others := [], [];
      forall k | 0 <= k < |batch| ensures Reportable(s, batch[k]) {
        ReportedAt(batch[k]);
      }
      log := DispatchAll(s, batch, post, plan);
      AtEnd(s, batch, post, plan, S(), log);
      if post {
        accepts, others := Batch(s, batch, plan, |batch|);
        Ends(batch, s, S(), accepts, others);
      }
    }

    method DispatchAll(ghost s: State, batch: seq<Report>, post: bool, plan: nat -> Reaction)
      returns (ghost log: seq<Call>)
      requires Inv() && Midway(s, batch, post, plan, 0, S(), [])
      modifies this
      ensures Inv() && Midway(s, batch, post, plan, |batch|, S(), log)
    {
      hide *;
      log := [];
      var i := 0;
      while i < |batch|
        invariant 0 <= i <= |batch| && Inv() && Midway(s, batch, post, plan, i, S(), log)
      {
        ghost var more := DispatchNext(s, batch, post, plan, i, log);
        log := log + more;
        i := i + 1;
      }
    }

    /** The turn of one timer in event_expire_timers: a set timer belongs to an open connection. */
    method FireTimer(r: Ref, ops: seq<Op>) returns (ghost open: bool, ghost timedout: bool)
      requires Inv() && r in links.timers
      modifies this
      ensures Inv() && r.slot < n == |old(conns)| == |old(issues)| && old(Open(r.slot))
      ensures S() == ExpireOf(old(S()), Expiry(r, ops))
      ensures var c := old(conns)[r.slot];
              var d := if r.write then c.(write := c.write.(timerSet := false, timedout := true))
                       else c.(read := c.read.(timerSet := false, timedout := true));
              S() == ApplyAll(old(S()).(conns := old(conns)[r.slot := d],
                                        links := old(links).(timers := old(links.timers) - {r})), ops)
      ensures open && timedout
    {
      hide Inv, ApplyAll;
      ghost var s := S();
      open, timedout := TimeOut(r);
      TimedOutIs(s, r);
      Run(ops);
    }

    /** The timer leaves the tree and the event times out, before its handler runs. */
    method TimeOut(r: Ref) returns (ghost open: bool, ghost timedout: bool)
      requires Inv() && r in links.timers
      modifies this`conns, this`links
      ensures Inv() && r.slot < n == |old(conns)| == |old(issues)| && old(Open(r.slot))
      ensures S() == TimedOut(old(S()), r) && open && timedout
    {
      hide Sound, Falling;
      TimerAt(S(), r);
      DelTimer(r);
      SetFlags(r, EventOf(r).(timedout := true));
      open, timedout := Open(r.slot), EventOf(r).timedout;
    }

    /** An iteration of process_events_and_timers: `refused` says that trylock_accept_mutex failed, `elapsed` that
        time has passed in the wait. When events are posted, as they are whenever the worker owns the accept
        mutex, every handler of an event runs for the connection the event was reported for. */
    method Iterate(refused: bool, batch: seq<Report>, post: bool, plan: nat -> Reaction, accepting: nat -> seq<Op>,
                   elapsed: bool, expiries: seq<Expiry>, handling: nat -> seq<Op>, ghost last: nat)
      returns (ghost log: seq<Call>, ghost accepts: nat, ghost handles: nat, ghost states: seq<State>,
               ghost fired: seq<Firing>)
      requires Inv() && forall k :: 0 <= k < |batch| ==> Reported(batch[k])
      requires forall k: nat, op :: last <= k && op in accepting(k) ==> !Feeds(op, true)
      requires forall k: nat, op :: last <= k && op in handling(k) ==> !Feeds(op, false)
      modifies this
      ensures Inv() && |old(issues)| == |old(conns)|
      ensures refused ==> S() == old(S()) && log == []
      ensures !refused ==>
                var s1 := AfterCalls(AfterReports(old(S()), batch, post, plan, |batch|), true, accepting, accepts);
                var s2 := if elapsed then ExpireAll(s1, expiries) else s1;
                && links.events == [] && S() == AfterCalls(s2, false, handling, handles)
                && (elapsed ==> Turns(s1, expiries, |expiries|, states, fired) && states[|expiries|] == s2)
      ensures forall k :: 0 <= k < |log| ==> Undetected(log[k]) && (post ==> Current(log[k]))
    {
      hide Inv, AfterReports, AfterCalls, ExpireAll;
      Lengths();
      log, accepts, handles, states, fired := [], 0, 0, [], [];
      if refused {
        return;
      }
      ghost var a, b;
      log, a, b := ProcessEvents(batch, post, plan);
      var calls, accepted := ProcessPosted(true, accepting, last);
      accepts := calls;
      if elapsed {
        states, fired := ExpireTimers(expiries);
      }
      var count, handled := ProcessPosted(false, handling, last);
      handles := count;
      log := log + accepted + handled;
    }

    /** event_expire_timers, for the timers that expire in turn: each handler runs exactly if its timer is still
        set at its turn, for an open connection, with timedout set. */
    method ExpireTimers(expiries: seq<Expiry>) returns (ghost states: seq<State>, ghost log: seq<Firing>)
      requires Inv()
      modifies this
      ensures Inv() && |old(issues)| == |old(conns)| && S() == ExpireAll(old(S()), expiries)
      ensures Turns(old(S()), expiries, |expiries|, states, log) && states[|expiries|] == S()
    {
      hide Inv, ExpireOf, Turns, Turn;
      Lengths();
      ghost var s := S();
      states, log := [S()], [];
      NoTurns(s, expiries);
      var i := 0;
      while i < |expiries|
        invariant 0 <= i <= |expiries| && Inv() && |conns| == |issues| == n && S() == ExpireAll(s, expiries[..i])
        invariant |states| == i + 1 && states[i] == S() && Turns(s, expiries, i, states, log)
      {
        ghost var more := ExpireNext(i, expiries[i]);
        OneTurn(s, expiries, i, states, log, S(), more);
        assert expiries[..i + 1][..i] == expiries[..i];
        Lengths();
        states, log := states + [S()], log + more;
        i := i + 1;
      }
      assert expiries[..|expiries|] == expiries;
    }

    method ExpireNext(i: nat, x: Expiry) returns (ghost more: seq<Firing>)
      requires Inv()
      modifies this
      ensures Inv() && |old(issues)| == |old(conns)| == |conns| == |issues| && S() == ExpireOf(old(S()), x)
      ensures Turn(old(S()), x, S())
      ensures more == if x.r in old(links.timers) then [Firing(i, x.r, true, true)] else []
    {
      hide Inv, ApplyAll;
      Lengths();
      more := [];
      if x.r in links.timers {
        ghost var open, timedout := FireTimer(x.r, x.ops);
        Lengths();
        more := [Firing(i, x.r, open, timedout)];
      } else {
        NotSet(S(), x);
      }
    }
  }

  /** A table of one slot, with a connection on descriptor 7 that is watched for reading and writing. */
  method OneConnection(memory: Connection) returns (cycle: Cycle)
    ensures fresh(cycle) && cycle.Inv() && cycle.n == 1
    ensures OneOpen(cycle.S(), 7, 1) && cycle.conns[0].read.active && cycle.conns[0].write.active
    ensures cycle.Reported(Report(7, 0, Even(1), true, true, false, false))
  {
    hide Sound, Falling;
    cycle := new Cycle([memory]);
    cycle.Lengths();
    SlotAt(cycle.S(), 0);
    var ok, c := cycle.GetConnection(7);
    SlotAt(cycle.S(), 0);
    cycle.AddConnection(0, true);
  }

  /** A report that reaches the wrong connection: its read handler closes the slot and has it issued
      twice, after which the write half passes the second look at the slot. Descriptor 9 is told of an
      event of descriptor 7. */
  method StaleReportPasses(memory: Connection) returns (cycle: Cycle, ghost log: seq<Call>)
    ensures cycle.Inv() && OneOpen(cycle.S(), 9, 3)
    ensures log == [Call(Ref(0, false), 1, 1, true), Call(Ref(0, true), 1, 3, true)]
  {
    cycle := OneConnection(memory);
    var e := Report(7, 0, Even(1), true, true, false, false);
    ghost var s := cycle.S();
    OneStale(s, e, 7, 1);
    var plan: nat -> Reaction := _ => Reaction(RECYCLE, []);
    OneReport(s, e, plan);
    hide Cycle.Inv, OneOpen, DispatchLog, DispatchOf;
    ghost var calls, a, b := cycle.ProcessEvents([e], false, plan);
    log := calls;
  }
}
