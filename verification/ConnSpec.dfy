/** Connection slots (connection.c), posted events (event_posted.c), timers by membership
    (event_timer.c) and epoll registrations (epoll_event.c) as one machine. Slots are numbered, and
    the lists a slot is linked into are given by the sequence of what is linked. */
module ConnSpec {

  /** One direction of a slot. */
  datatype Ref = Ref(slot: nat, write: bool)

  datatype Event = Event(instance: bool, active: bool, ready: bool, eof: bool, accept: bool,
                         timerSet: bool, timedout: bool, posted: bool, closed: bool)

  datatype Connection = Connection(fd: int, data: int, reusable: bool, close: bool, sndlowat: bool,
                                   read: Event, write: Event)

  const NONE := -1
  const ZERO := Event(false, false, false, false, false, false, false, false, false)

  /** What the kernel watches on a descriptor, whether edge-triggered, and what it reports back. */
  datatype Interest = Interest(read: bool, write: bool, slot: nat, instance: bool, edge: bool)

  predicate Even(n: nat) { n % 2 == 0 }

  function Remove<T(==)>(q: seq<T>, x: T): (r: seq<T>)
    ensures x !in q ==> r == q
    ensures |r| <= |q|
  {
    if q == [] then [] else if q[0] == x then q[1..] else
    assert q == [q[0]] + q[1..];
    [q[0]] + Remove(q[1..], x)
  }

  ghost predicate Unique<T>(q: seq<T>) {
    forall i, j :: 0 <= i < j < |q| ==> q[i] != q[j]
  }

  lemma {:induction false} RemoveMembers<T>(q: seq<T>, x: T)
    requires Unique(q)
    ensures Unique(Remove(q, x))
    ensures forall y :: y in Remove(q, x) <==> y in q && y != x
    ensures |Remove(q, x)| == |q| - (if x in q then 1 else 0)
  {
    if q != [] && q[0] != x {
      RemoveMembers(q[1..], x);
      var r := Remove(q[1..], x);
      assert forall y :: y in q <==> y == q[0] || y in q[1..];
      assert q[0] !in q[1..];
      assert q[0] !in r;
      assert Remove(q, x) == [q[0]] + r;
    } else if q != [] {
      assert forall y :: y in q <==> y == q[0] || y in q[1..];
      assert q[0] !in q[1..];
    }
  }

  // ---------- the free list ----------

  function Follow(free: seq<nat>, k: nat): int {
    if k + 1 < |free| then free[k + 1] else NONE
  }

  ghost predicate Threaded(conns: seq<Connection>, head: int, free: seq<nat>) {
    && Unique(free) && head == (if free == [] then NONE else free[0])
    && (forall k :: 0 <= k < |free| ==> free[k] < |conns|)
    && (forall k :: 0 <= k < |free| ==> conns[free[k]].data == Follow(free, k))
  }

  lemma NothingThreaded(conns: seq<Connection>)
    ensures Threaded(conns, NONE, [])
  {
  }

  lemma ThreadHead(conns: seq<Connection>, head: int, free: seq<nat>)
    requires Threaded(conns, head, free)
    ensures head == NONE <==> free == []
    ensures free != [] ==> head == free[0] < |conns|
  {
  }

  lemma UniqueTail<T>(q: seq<T>)
    requires q != [] && Unique(q)
    ensures Unique(q[1..]) && q[0] !in q[1..]
    ensures forall x :: x in q <==> x == q[0] || x in q[1..]
  {
    assert q == [q[0]] + q[1..];
  }

  lemma Popped(conns: seq<Connection>, free: seq<nat>, x: Connection)
    requires free != [] && Threaded(conns, free[0], free)
    ensures free[0] < |conns| && Threaded(conns[free[0] := x], conns[free[0]].data, free[1..])
    ensures forall i :: i in free <==> i == free[0] || i in free[1..]
    ensures free[0] !in free[1..]
  {
    UniqueTail(free);
    var rest, after := free[1..], conns[free[0] := x];
    assert conns[free[0]].data == Follow(free, 0);
    hide Unique;
    forall k | 0 <= k < |rest| ensures rest[k] < |conns| && after[rest[k]].data == Follow(rest, k) {
      assert rest[k] == free[k + 1] && rest[k] in rest;
      assert Follow(rest, k) == Follow(free, k + 1);
    }
  }

  lemma Pushed(conns: seq<Connection>, head: int, free: seq<nat>, c: nat, x: Connection)
    requires Threaded(conns, head, free) && c < |conns| && c !in free && x.data == head
    ensures Threaded(conns[c := x], c, [c] + free)
  {
    var more, after := [c] + free, conns[c := x];
    forall k | 0 <= k < |more|
      ensures more[k] < |conns| && after[more[k]].data == Follow(more, k)
    {
      if 0 < k {
        assert more[k] == free[k - 1] && free[k - 1] in free;
        if k + 1 < |more| {
          assert more[k + 1] == free[k];
        }
      }
    }
  }

  lemma StillThreaded(conns: seq<Connection>, head: int, free: seq<nat>, c: nat, x: Connection)
    requires Threaded(conns, head, free) && c < |conns| && c !in free
    ensures Threaded(conns[c := x], head, free)
  {
    forall k | 0 <= k < |free| ensures free[k] != c { assert free[k] in free; }
  }

  // ---------- the invariant ----------

  /** Everything outside the slots that refers to them. */
  datatype Links = Links(
    reuse: seq<nat>,             // reusable_connections_queue, head first
    accepts: seq<Ref>,           // posted_accept_events
    events: seq<Ref>,            // posted_events
    timers: set<Ref>,            // the timer tree
    interest: map<int, Interest> // the interest list of the kernel
  )

  function Ev(c: Connection, write: bool): Event { if write then c.write else c.read }

  ghost predicate Unlinked(r: Ref, l: Links) {
    r !in l.timers && r !in l.accepts && r !in l.events
  }

  /** The flags of an event say what it is linked into, and a posted event was posted for the
      connection that has the slot now. */
  ghost predicate EventOk(r: Ref, e: Event, m: nat, l: Links, stamps: map<Ref, nat>) {
    && (e.timerSet <==> r in l.timers)
    && (e.posted <==> r in l.accepts || r in l.events)
    && (e.posted ==> r in stamps && stamps[r] == m)
  }

  /** Slot `i`, handed out `m` times so far: free and linked nowhere, or issued and linked exactly
      where its flags say. */
  ghost predicate SlotOk(i: nat, c: Connection, m: nat, l: Links, stamps: map<Ref, nat>) {
    && c.read.instance == Even(m)
    && if c.fd == NONE then i !in l.reuse && Unlinked(Ref(i, false), l) && Unlinked(Ref(i, true), l)
       else
         && c.fd >= 0 && c.write.instance == c.read.instance
         && (c.reusable <==> i in l.reuse)
         && EventOk(Ref(i, false), c.read, m, l, stamps) && EventOk(Ref(i, true), c.write, m, l, stamps)
         && (c.fd in l.interest <==> c.read.active || c.write.active)
         && (c.fd in l.interest ==>
               var w := l.interest[c.fd]; w == Interest(c.read.active, c.write.active, i, c.read.instance, w.edge))
  }

  ghost predicate SlotsOk(conns: seq<Connection>, issues: seq<nat>, l: Links, stamps: map<Ref, nat>) {
    && |conns| == |issues|
    && (forall i {:trigger conns[i]} :: 0 <= i < |conns| ==> SlotOk(i, conns[i], issues[i], l, stamps))
  }

  ghost predicate ListsOk(n: nat, l: Links) {
    && Unique(l.reuse) && Unique(l.accepts) && Unique(l.events)
    && (forall r :: r in l.accepts ==> r !in l.events)
    && (forall i :: i in l.reuse ==> i < n)
    && (forall r :: r in l.accepts || r in l.events || r in l.timers ==> r.slot < n)
  }

  /** Open descriptors differ, and the kernel watches no others. */
  ghost predicate DescriptorsOk(conns: seq<Connection>, interest: map<int, Interest>) {
    && (forall i, j :: 0 <= i < j < |conns| && conns[i].fd != NONE ==> conns[i].fd != conns[j].fd)
    && (forall fd :: fd in interest ==> fd != NONE && interest[fd].slot < |conns| && conns[interest[fd].slot].fd == fd)
  }

  /** The free list runs through `data`, and holds exactly the slots without a descriptor. */
  ghost predicate FreeOk(conns: seq<Connection>, head: int, free: seq<nat>) {
    && Threaded(conns, head, free)
    && (forall i :: 0 <= i < |conns| ==> (conns[i].fd == NONE <==> i in free))
  }

  /** The links of `after` are those of `l` except where slot `c` with descriptor `fd` is concerned. */
  ghost predicate Near(l: Links, stamps: map<Ref, nat>, after: Links, stamps': map<Ref, nat>, c: nat, fd: int) {
    && (forall i :: i != c ==> (i in l.reuse <==> i in after.reuse))
    && (forall r: Ref :: r.slot != c ==> (r in l.timers <==> r in after.timers))
    && (forall r: Ref :: r.slot != c ==> (r in l.accepts <==> r in after.accepts))
    && (forall r: Ref :: r.slot != c ==> (r in l.events <==> r in after.events))
    && (forall r: Ref :: r.slot != c && r in stamps ==> r in stamps' && stamps'[r] == stamps[r])
    && (forall f :: f != fd ==> (f in l.interest <==> f in after.interest))
    && (forall f :: f != fd && f in l.interest ==> l.interest[f] == after.interest[f])
  }

  /** All that the invariant speaks about. */
  datatype State = State(conns: seq<Connection>, issues: seq<nat>, head: int, free: seq<nat>,
                         links: Links, stamps: map<Ref, nat>)

  ghost predicate Sound(s: State) {
    && FreeOk(s.conns, s.head, s.free)
    && ListsOk(|s.conns|, s.links)
    && DescriptorsOk(s.conns, s.links.interest)
    && SlotsOk(s.conns, s.issues, s.links, s.stamps)
  }

  lemma SlotStays(i: nat, s: Connection, m: nat, l: Links, stamps: map<Ref, nat>,
                  after: Links, stamps': map<Ref, nat>, c: nat, fd: int)
    requires SlotOk(i, s, m, l, stamps) && Near(l, stamps, after, stamps', c, fd) && i != c && s.fd != fd
    ensures SlotOk(i, s, m, after, stamps')
  {
  }

  /** What one slot does to its own links leaves the others in order. */
  lemma OthersOk(conns: seq<Connection>, issues: seq<nat>, l: Links, stamps: map<Ref, nat>,
                 c: nat, x: Connection, m: nat, after: Links, stamps': map<Ref, nat>, fd: int)
    requires SlotsOk(conns, issues, l, stamps) && c < |conns| && Near(l, stamps, after, stamps', c, fd)
    requires forall i :: 0 <= i < |conns| && i != c ==> conns[i].fd != fd
    requires SlotOk(c, x, m, after, stamps')
    ensures SlotsOk(conns[c := x], issues[c := m], after, stamps')
  {
    hide SlotOk, Near;
    var conns', issues' := conns[c := x], issues[c := m];
    forall i | 0 <= i < |conns'| ensures SlotOk(i, conns'[i], issues'[i], after, stamps') {
      if i != c {
        assert SlotOk(i, conns[i], issues[i], l, stamps);
        SlotStays(i, conns[i], issues[i], l, stamps, after, stamps', c, fd);
      }
    }
  }

  lemma DescriptorsStay(conns: seq<Connection>, interest: map<int, Interest>, c: nat, x: Connection,
                        after: map<int, Interest>, fd: int)
    requires DescriptorsOk(conns, interest) && c < |conns| && fd != NONE
    requires forall i :: 0 <= i < |conns| && i != c ==> conns[i].fd != fd
    requires conns[c].fd == fd || conns[c].fd == NONE
    requires x.fd == fd || x.fd == NONE
    requires forall f :: f != fd ==> (f in interest <==> f in after) && (f in interest ==> interest[f] == after[f])
    requires fd in after ==> x.fd == fd && after[fd].slot == c
    ensures DescriptorsOk(conns[c := x], after)
  {
  }

  /** A change to an issued slot and to its links only. */
  lemma Changed(s: State, c: nat, x: Connection, after: Links, stamps': map<Ref, nat>)
    requires Sound(s) && c < |s.conns| && c < |s.issues| && s.conns[c].fd != NONE && x.fd == s.conns[c].fd
    requires Near(s.links, s.stamps, after, stamps', c, x.fd) && ListsOk(|s.conns|, after)
    requires SlotOk(c, x, s.issues[c], after, stamps')
    ensures Sound(s.(conns := s.conns[c := x], links := after, stamps := stamps'))
  {
    hide Threaded, ListsOk, SlotsOk;
    StillThreaded(s.conns, s.head, s.free, c, x);
    DescriptorsStay(s.conns, s.links.interest, c, x, after.interest, x.fd);
    OthersOk(s.conns, s.issues, s.links, s.stamps, c, x, s.issues[c], after, stamps', x.fd);
    assert s.issues[c := s.issues[c]] == s.issues;
  }

  lemma ListsStay(n: nat, l: Links, interest: map<int, Interest>)
    requires ListsOk(n, l)
    ensures ListsOk(n, l.(interest := interest))
  {
  }

  /** The active flags of an issued slot are determined by what the kernel watches. */
  lemma ActiveIsWatched(i: nat, c: Connection, x: Connection, m: nat, l: Links, stamps: map<Ref, nat>)
    requires SlotOk(i, c, m, l, stamps) && SlotOk(i, x, m, l, stamps) && c.fd == x.fd != NONE
    ensures c.read.active == x.read.active && c.write.active == x.write.active
  {
  }

  /** epoll_del_event and epoll_del_connection with CLOSE_EVENT clear active flags and leave the kernel
      alone: on a connection that stays open the flags then no longer say what the kernel watches,
      unless they were clear before. */
  lemma ClosingFlags(s: State, c: nat, read: bool, write: bool)
    requires Sound(s) && c < |s.conns| && s.conns[c].fd != NONE
    ensures var x := Activated(s.conns[c], s.conns[c].read.active && !read, s.conns[c].write.active && !write);
            Sound(s.(conns := s.conns[c := x])) <==>
              (read ==> !s.conns[c].read.active) && (write ==> !s.conns[c].write.active)
  {
    hide Sound, SlotOk, ListsOk;
    SlotAt(s, c);
    var x := Activated(s.conns[c], s.conns[c].read.active && !read, s.conns[c].write.active && !write);
    var t := s.(conns := s.conns[c := x]);
    if (read ==> !s.conns[c].read.active) && (write ==> !s.conns[c].write.active) {
      assert x == s.conns[c];
      assert t == s;
    } else if Sound(t) {
      SlotAt(t, c);
      ActiveIsWatched(c, s.conns[c], x, s.issues[c], s.links, s.stamps);
    }
  }

  /** What get_connection writes into a slot for descriptor `fd`. */
  function Blank(fd: int, instance: bool): Connection {
    Connection(fd, 0, false, false, false, ZERO.(instance := instance), ZERO.(instance := instance))
  }

  /** The head of the free list is issued: nothing links to it, so clearing its memory breaks no list. */
  lemma Issued(s: State, fd: int)
    requires Sound(s) && s.head != NONE && 0 <= fd && forall i :: 0 <= i < |s.conns| ==> s.conns[i].fd != fd
    ensures s.free != [] && s.head == s.free[0] < |s.conns| == |s.issues|
    ensures var c := s.free[0];
            && c !in s.links.reuse && Unlinked(Ref(c, false), s.links) && Unlinked(Ref(c, true), s.links)
            && s.conns[c].read.instance == Even(s.issues[c])
            && Sound(s.(conns := s.conns[c := Blank(fd, !s.conns[c].read.instance)],
                        issues := s.issues[c := s.issues[c] + 1],
                        head := s.conns[c].data, free := s.free[1..]))
  {
    hide Threaded, ListsOk, SlotsOk;
    ThreadHead(s.conns, s.head, s.free);
    var c := s.free[0];
    SlotAt(s, c);
    var x := Blank(fd, !s.conns[c].read.instance);
    Popped(s.conns, s.free, x);
    DescriptorsStay(s.conns, s.links.interest, c, x, s.links.interest, fd);
    OthersOk(s.conns, s.issues, s.links, s.stamps, c, x, s.issues[c] + 1, s.links, s.stamps, fd);
  }

  lemma SlotAt(s: State, c: nat)
    requires Sound(s) && c < |s.conns|
    ensures |s.issues| == |s.conns| && SlotOk(c, s.conns[c], s.issues[c], s.links, s.stamps)
    ensures ListsOk(|s.conns|, s.links)
    ensures s.conns[c].fd == NONE <==> c in s.free
    ensures forall i :: 0 <= i < |s.conns| && i != c && s.conns[c].fd != NONE ==> s.conns[i].fd != s.conns[c].fd
  {
  }

  /** A slot that is linked nowhere and watched no longer goes to the head of the free list. */
  lemma Released(s: State, c: nat, x: Connection, interest: map<int, Interest>)
    requires Sound(s) && c < |s.conns| && s.conns[c].fd != NONE && x.fd == NONE && x.data == s.head
    requires x.read.instance == s.conns[c].read.instance && interest == s.links.interest - {s.conns[c].fd}
    requires c !in s.links.reuse && Unlinked(Ref(c, false), s.links) && Unlinked(Ref(c, true), s.links)
    ensures Sound(s.(conns := s.conns[c := x], head := c, free := [c] + s.free,
                     links := s.links.(interest := interest)))
  {
    hide Threaded, SlotsOk;
    SlotAt(s, c);
    Pushed(s.conns, s.head, s.free, c, x);
    DescriptorsStay(s.conns, s.links.interest, c, x, interest, s.conns[c].fd);
    OthersOk(s.conns, s.issues, s.links, s.stamps, c, x, s.issues[c], s.links.(interest := interest), s.stamps,
             s.conns[c].fd);
    assert s.issues[c := s.issues[c]] == s.issues;
  }

  lemma Started(s: State)
    requires Threaded(s.conns, s.head, s.free) && |s.issues| == |s.conns| && s.links == Links([], [], [], {}, map[])
    requires forall k :: 0 <= k < |s.conns| ==>
              k in s.free && s.conns[k].fd == NONE && s.conns[k].read.instance && s.issues[k] == 0
    ensures Sound(s)
  {
    hide Threaded;
  }

  function WithEv(c: Connection, write: bool, e: Event): (d: Connection)
    ensures Ev(d, write) == e && Ev(d, !write) == Ev(c, !write)
    ensures d.(read := c.read, write := c.write) == c
  {
    if write then c.(write := e) else c.(read := e)
  }

  /** The links without event `r` in a posted queue. */
  function Unposted(l: Links, r: Ref): Links {
    l.(accepts := Remove(l.accepts, r), events := Remove(l.events, r))
  }

  lemma UnpostedMembers(n: nat, l: Links, r: Ref)
    requires ListsOk(n, l)
    ensures ListsOk(n, Unposted(l, r))
    ensures forall x :: x in Unposted(l, r).accepts <==> x in l.accepts && x != r
    ensures forall x :: x in Unposted(l, r).events <==> x in l.events && x != r
  {
    RemoveMembers(l.accepts, r);
    RemoveMembers(l.events, r);
  }

  /** The links with `r` at the tail of a posted queue. */
  function Posted(l: Links, r: Ref, accept: bool): Links {
    if accept then l.(accepts := l.accepts + [r]) else l.(events := l.events + [r])
  }

  lemma PostedMembers(n: nat, l: Links, r: Ref, accept: bool)
    requires ListsOk(n, l) && r.slot < n && r !in l.accepts && r !in l.events
    ensures ListsOk(n, Posted(l, r, accept))
    ensures forall x :: x in Posted(l, r, accept).accepts <==> x in l.accepts || (accept && x == r)
    ensures forall x :: x in Posted(l, r, accept).events <==> x in l.events || (!accept && x == r)
  {
    if accept {
      Appended(l.accepts, r);
    } else {
      Appended(l.events, r);
    }
  }

  lemma Appended<T>(q: seq<T>, x: T)
    requires Unique(q) && x !in q
    ensures Unique(q + [x])
    ensures forall y :: y in q + [x] <==> y in q || y == x
  {
  }

  /** The reuse queue after reusable_connection. */
  function Marked(reuse: seq<nat>, c: nat, reusable: bool): seq<nat> {
    (if reusable then [c] else []) + Remove(reuse, c)
  }

  lemma MarkedMembers(n: nat, l: Links, c: nat, reusable: bool)
    requires ListsOk(n, l) && c < n
    ensures ListsOk(n, l.(reuse := Marked(l.reuse, c, reusable)))
    ensures forall i :: i in Marked(l.reuse, c, reusable) <==> (if i == c then reusable else i in l.reuse)
    ensures |Marked(l.reuse, c, reusable)| == |l.reuse| - (if c in l.reuse then 1 else 0) + (if reusable then 1 else 0)
  {
    RemoveMembers(l.reuse, c);
    var rest := Remove(l.reuse, c);
    if reusable {
      forall i, j | 0 <= i < j < |rest| + 1 ensures ([c] + rest)[i] != ([c] + rest)[j] {
        assert ([c] + rest)[j] == rest[j - 1] && rest[j - 1] in rest;
      }
    } else {
      assert Marked(l.reuse, c, reusable) == rest;
    }
  }

  /** From head to tail the connections were marked longer and longer ago. */
  ghost predicate Falling(reuse: seq<nat>, marks: seq<nat>) {
    && (forall i :: 0 <= i < |reuse| ==> reuse[i] < |marks|)
    && (forall i, j :: 0 <= i < j < |reuse| ==> marks[reuse[j]] < marks[reuse[i]])
  }

  lemma {:induction false} RemoveFalls(reuse: seq<nat>, marks: seq<nat>, c: nat)
    requires Falling(reuse, marks) && Unique(reuse)
    ensures Falling(Remove(reuse, c), marks)
  {
    if k :| 0 <= k < |reuse| && reuse[k] == c {
      RemoveAt(reuse, k);
      var r := reuse[..k] + reuse[k + 1..];
      hide Remove;
      assert forall i :: 0 <= i < |r| ==> r[i] == reuse[if i < k then i else i + 1];
    }
  }

  /** Removing the member at `k` leaves the others in their order. */
  lemma {:induction false} RemoveAt<T>(q: seq<T>, k: nat)
    requires Unique(q) && k < |q|
    ensures Remove(q, q[k]) == q[..k] + q[k + 1..]
  {
    if 0 < k {
      RemoveAt(q[1..], k - 1);
      assert q[..k] == [q[0]] + q[1..][..k - 1];
      assert q[k + 1..] == q[1..][k..];
    }
  }

  lemma StillFalling(reuse: seq<nat>, marks: seq<nat>, c: nat, reusable: bool, clock: nat)
    requires Falling(reuse, marks) && Unique(reuse) && c < |marks|
    requires reusable ==> forall i :: 0 <= i < |marks| ==> marks[i] < clock
    ensures Falling(Marked(reuse, c, reusable), if reusable then marks[c := clock] else marks)
  {
    RemoveFalls(reuse, marks, c);
    RemoveMembers(reuse, c);
    var rest := Remove(reuse, c);
    hide Remove;
    if reusable {
      MarkedLast(rest, marks, c, clock);
    } else {
      assert [] + rest == rest;
    }
  }

  lemma MarkedLast(rest: seq<nat>, marks: seq<nat>, c: nat, clock: nat)
    requires Falling(rest, marks) && c !in rest && c < |marks|
    requires forall i :: 0 <= i < |marks| ==> marks[i] < clock
    ensures Falling([c] + rest, marks[c := clock])
  {
    var more, later := [c] + rest, marks[c := clock];
    forall i | 0 <= i < |rest| ensures rest[i] != c && later[rest[i]] == marks[rest[i]] { assert rest[i] in rest; }
    assert forall i :: 0 <= i < |more| ==> more[i] == if i == 0 then c else rest[i - 1];
  }

  lemma ReuseIsUnique(s: State)
    requires Sound(s)
    ensures Unique(s.links.reuse)
  {
  }

  lemma KeepsMark(s: State, c: nat, reusable: bool)
    requires Sound(s) && c < |s.conns| && s.conns[c].fd != NONE
    ensures !s.conns[c].reusable ==> Remove(s.links.reuse, c) == s.links.reuse
    ensures |Remove(s.links.reuse, c)| == |s.links.reuse| - if s.conns[c].reusable then 1 else 0
    ensures forall i :: i in Marked(s.links.reuse, c, reusable) <==> if i == c then reusable else i in s.links.reuse
    ensures Sound(s.(conns := s.conns[c := s.conns[c].(reusable := reusable)],
                     links := s.links.(reuse := Marked(s.links.reuse, c, reusable))))
  {
    hide Sound, Threaded, Marked, Remove;
    SlotAt(s, c);
    MarkedMembers(|s.conns|, s.links, c, reusable);
    RemoveMembers(s.links.reuse, c);
    hide ListsOk;
    Changed(s, c, s.conns[c].(reusable := reusable), s.links.(reuse := Marked(s.links.reuse, c, reusable)), s.stamps);
  }

  lemma KeepsPost(s: State, r: Ref, accept: bool)
    requires Sound(s) && r.slot < |s.conns| == |s.issues| && s.conns[r.slot].fd != NONE
    requires !Ev(s.conns[r.slot], r.write).posted
    ensures var e := Ev(s.conns[r.slot], r.write);
            Sound(s.(conns := s.conns[r.slot := WithEv(s.conns[r.slot], r.write, e.(posted := true))],
                     links := Posted(s.links, r, accept), stamps := s.stamps[r := s.issues[r.slot]]))
  {
    hide Sound, Threaded, Posted;
    SlotAt(s, r.slot);
    PostedMembers(|s.conns|, s.links, r, accept);
    hide ListsOk;
    var x := WithEv(s.conns[r.slot], r.write, Ev(s.conns[r.slot], r.write).(posted := true));
    PostedRest(s.links, r, accept);
    Changed(s, r.slot, x, Posted(s.links, r, accept), s.stamps[r := s.issues[r.slot]]);
  }

  lemma PostedRest(l: Links, r: Ref, accept: bool)
    ensures Posted(l, r, accept).(accepts := l.accepts, events := l.events) == l
  {
  }

  /** The links when slot `c` with descriptor `fd` is closed. */
  function Cut(l: Links, c: nat, fd: int): Links {
    var quiet := Unposted(Unposted(l, Ref(c, false)), Ref(c, true));
    quiet.(reuse := Remove(l.reuse, c), timers := l.timers - {Ref(c, false), Ref(c, true)},
           interest := l.interest - {fd})
  }

  lemma CutInSteps(l: Links, c: nat, fd: int)
    ensures var m := l.(timers := l.timers - {Ref(c, false), Ref(c, true)});
            var q := Unposted(Unposted(m, Ref(c, false)), Ref(c, true));
            q.(reuse := Marked(q.reuse, c, false)) == Cut(l, c, fd).(interest := l.interest)
  {
    hide Remove;
    assert Marked(l.reuse, c, false) == Remove(l.reuse, c);
  }

  lemma EventAt(s: State, r: Ref)
    requires Sound(s) && r.slot < |s.conns| && s.conns[r.slot].fd != NONE
    ensures Ev(s.conns[r.slot], r.write).timerSet <==> r in s.links.timers
    ensures Ev(s.conns[r.slot], r.write).posted <==> r in s.links.accepts || r in s.links.events
    ensures !Ev(s.conns[r.slot], r.write).posted ==> Unposted(s.links, r) == s.links
  {
    hide Threaded, ListsOk, DescriptorsOk;
    assert SlotOk(r.slot, s.conns[r.slot], s.issues[r.slot], s.links, s.stamps);
  }

  lemma Reusable(s: State, c: nat)
    requires Sound(s) && c in s.links.reuse
    ensures Unique(s.links.reuse) && c < |s.conns| && s.conns[c].fd != NONE
  {
    SlotAt(s, c);
  }

  lemma HeadAt(s: State)
    requires Sound(s)
    ensures s.head == NONE <==> s.free == []
  {
  }

  lemma PostedAt(s: State, r: Ref)
    requires Sound(s) && (r in s.links.accepts || r in s.links.events)
    ensures r.slot < |s.conns| == |s.issues| && s.conns[r.slot].fd != NONE && Ev(s.conns[r.slot], r.write).posted
    ensures r in s.stamps && s.stamps[r] == s.issues[r.slot]
    ensures r in s.links.accepts && s.links.accepts[0] == r ==>
              Unposted(s.links, r).accepts == s.links.accepts[1..] && Unposted(s.links, r).events == s.links.events
    ensures r in s.links.events && s.links.events[0] == r ==>
              Unposted(s.links, r).events == s.links.events[1..] && Unposted(s.links, r).accepts == s.links.accepts
  {
    SlotAt(s, r.slot);
    assert r == Ref(r.slot, r.write);
  }

  lemma TimerAt(s: State, r: Ref)
    requires Sound(s) && r in s.links.timers
    ensures r.slot < |s.conns| && s.conns[r.slot].fd != NONE && Ev(s.conns[r.slot], r.write).timerSet
  {
    SlotAt(s, r.slot);
    assert r == Ref(r.slot, r.write);
  }

  /** Afterwards nothing links to slot `c`. */
  lemma CutOff(s: State, c: nat)
    requires Sound(s) && c < |s.conns|
    ensures var l := Cut(s.links, c, s.conns[c].fd);
            c !in l.reuse && Unlinked(Ref(c, false), l) && Unlinked(Ref(c, true), l)
    ensures var l := Cut(s.links, c, s.conns[c].fd);
            && (forall i :: i in l.reuse <==> i in s.links.reuse && i != c)
            && (forall r :: r in l.accepts <==> r in s.links.accepts && r.slot != c)
            && (forall r :: r in l.events <==> r in s.links.events && r.slot != c)
  {
    hide Remove, Threaded;
    assert forall r: Ref :: r.slot == c <==> r == Ref(c, false) || r == Ref(c, true);
    var l := s.links;
    RemoveMembers(l.reuse, c);
    UnpostedMembers(|s.conns|, l, Ref(c, false));
    UnpostedMembers(|s.conns|, Unposted(l, Ref(c, false)), Ref(c, true));
  }

  function Idle(e: Event): Event { e.(active := false, timerSet := false, posted := false, closed := true) }

  function Unset(c: Connection): Connection {
    c.(read := c.read.(timerSet := false, posted := false), write := c.write.(timerSet := false, posted := false))
  }

  function Closed(c: Connection, head: int): Connection {
    c.(fd := NONE, data := head, reusable := false, read := Idle(c.read), write := Idle(c.write))
  }

  /** epoll_ctl operations. */
  datatype Ctl = ADD | MOD | DEL

  /** The interest list when the kernel watches for slot `c` what `x` says. */
  function Watching(interest: map<int, Interest>, c: nat, x: Connection, edge: bool): map<int, Interest> {
    if x.read.active || x.write.active
    then interest[x.fd := Interest(x.read.active, x.write.active, c, x.read.instance, edge)]
    else interest - {x.fd}
  }

  function Activated(c: Connection, read: bool, write: bool): Connection {
    c.(read := c.read.(active := read), write := c.write.(active := write))
  }

  lemma KeepsWatch(s: State, c: nat, read: bool, write: bool, edge: bool)
    requires Sound(s) && c < |s.conns| && s.conns[c].fd != NONE
    ensures s.conns[c].fd in s.links.interest <==> s.conns[c].read.active || s.conns[c].write.active
    ensures s.conns[c].read.instance == s.conns[c].write.instance
    ensures var x := Activated(s.conns[c], read, write);
            Sound(s.(conns := s.conns[c := x], links := s.links.(interest := Watching(s.links.interest, c, x, edge))))
  {
    hide Sound, Threaded;
    SlotAt(s, c);
    var x := Activated(s.conns[c], read, write);
    ListsStay(|s.conns|, s.links, Watching(s.links.interest, c, x, edge));
    hide ListsOk;
    Changed(s, c, x, s.links.(interest := Watching(s.links.interest, c, x, edge)), s.stamps);
  }

  /** How many connections drain_connections asks to close. */
  function DrainCount(reusable: nat): nat {
    var n := if reusable / 8 < 32 then reusable / 8 else 32;
    if n < 1 then 1 else n
  }

  function Min(a: nat, b: nat): nat { if a < b then a else b }

  /** How many of `r` reusable connections a drain releases. */
  lemma DrainedAtOnce(r: nat)
    ensures Min(r, DrainCount(r)) == if r == 0 then 0 else if r < 16 then 1 else if r < 256 then r / 8 else 32
  {
  }

  lemma {:induction false} RemoveLast<T>(q: seq<T>)
    requires q != [] && Unique(q)
    ensures Remove(q, q[|q| - 1]) == q[..|q| - 1]
  {
    if 1 < |q| {
      RemoveLast(q[1..]);
      assert q[..|q| - 1] == [q[0]] + q[1..][..|q| - 2];
    }
  }

  /** A call into the interface, from a handler or from the event loop. */
  datatype Op =
    | Get(fd: int, kept: bool)
    | Close(c: nat)
    | Mark(c: nat, reusable: bool)
    | Listen(c: nat)
    | SetTimer(r: Ref)
    | ClearTimer(r: Ref)
    | Post(r: Ref, accept: bool)
    | Unpost(r: Ref)
    | Watch(r: Ref, edge: bool, accepts: bool)
    | Unwatch(r: Ref, edge: bool, accepts: bool)
    | WatchBoth(c: nat, accepts: bool)
    | UnwatchBoth(c: nat, accepts: bool)
    | HandleRead(c: nat, accepts: bool)
    | HandleWrite(c: nat, lowat: nat, sets: bool, accepts: bool)

  /** Operations that never take an event off a posted queue. */
  predicate Keeps(op: Op) { !op.Get? && !op.Close? && !op.Unpost? }

  predicate Feeds(op: Op, accept: bool) { op.Post? && op.accept == accept }

  function QueueOf(l: Links, accept: bool): seq<Ref> { if accept then l.accepts else l.events }

  /** The posted queues have only grown, at their tails. */
  ghost predicate Grows(l: Links, after: Links) {
    l.accepts <= after.accepts && l.events <= after.events
  }

  /** Only what takes events off the queues shrinks them, and only posting lets one of them become longer. */
  ghost predicate Bounded(l: Links, after: Links, ops: seq<Op>) {
    && ((forall op :: op in ops ==> Keeps(op)) ==> Grows(l, after))
    && (forall accept ::
          (forall op :: op in ops ==> !Feeds(op, accept)) ==> |QueueOf(after, accept)| <= |QueueOf(l, accept)|)
  }

  lemma NothingBounds(l: Links)
    ensures Bounded(l, l, [])
  {
  }

  lemma BoundedMore(l: Links, m: Links, after: Links, ops: seq<Op>, op: Op)
    requires Bounded(l, m, ops) && (Keeps(op) ==> Grows(m, after))
    requires forall accept :: !Feeds(op, accept) ==> |QueueOf(after, accept)| <= |QueueOf(m, accept)|
    ensures Bounded(l, after, ops + [op])
  {
    hide Keeps, Feeds, QueueOf;
    assert forall x :: x in ops ==> x in ops + [op];
    assert op in ops + [op];
  }

  /** A handler call: for which event, for which issue of its slot it was posted or fetched, and which
      issue the slot was in when the handler ran. */
  datatype Call = Call(r: Ref, before: nat, now: nat, open: bool)

  /** An entry of an epoll_wait batch. */
  datatype Report = Report(fd: int, slot: nat, instance: bool, input: bool, output: bool, error: bool, rdhup: bool)

  ghost function Refs(log: seq<Call>): (q: seq<Ref>)
    ensures |q| == |log| && forall k :: 0 <= k < |log| ==> q[k] == log[k].r
  {
    seq(|log|, k requires 0 <= k < |log| => log[k].r)
  }

  lemma OnePosted(start: seq<Ref>, log: seq<Call>, call: Call, q: seq<Ref>, after: seq<Ref>)
    requires q != [] && call.r == q[0] && start <= Refs(log) + q && q[1..] <= after
    ensures start <= Refs(log + [call]) + after
  {
    assert Refs(log + [call]) == Refs(log) + [q[0]];
    assert Refs(log) + q == Refs(log + [call]) + q[1..];
    assert after == q[1..] + after[|q| - 1..];
  }

  /** A handler call for an open connection in the very issue the event was posted for. */
  predicate Current(e: Call) { e.open && e.now == e.before }

  /** A handler call for an open connection whose slot was reissued an even number of times, if at all. */
  predicate Undetected(e: Call) { e.open && Even(e.now) == Even(e.before) }

  /** Every call of the log passed the instance check against the issues at the time of the fetch. */
  ghost predicate PassedCheck(log: seq<Call>, fetched: seq<nat>) {
    forall k :: 0 <= k < |log| ==>
      Undetected(log[k]) && log[k].r.slot < |fetched| && log[k].before == fetched[log[k].r.slot]
  }

  lemma PassedMore(log: seq<Call>, more: seq<Call>, fetched: seq<nat>)
    requires PassedCheck(log, fetched) && PassedCheck(more, fetched)
    ensures PassedCheck(log + more, fetched)
  {
  }

  /** The entries of the batch concern open slots, with the instance bits of the time of the fetch. */
  ghost predicate Faithful(batch: seq<Report>, conns: seq<Connection>, fetched: seq<nat>) {
    && |conns| == |fetched|
    && (forall k :: 0 <= k < |batch| ==> FaithfulAt(batch[k], conns, fetched))
  }

  ghost predicate FaithfulAt(e: Report, conns: seq<Connection>, fetched: seq<nat>) {
    && e.slot < |conns| && e.slot < |fetched| && e.instance == Even(fetched[e.slot])
    && conns[e.slot].fd != NONE && conns[e.slot].read.instance == e.instance
  }

  lemma FaithfulNow(batch: seq<Report>, conns: seq<Connection>, fetched: seq<nat>, i: nat)
    requires Faithful(batch, conns, fetched) && i < |batch|
    ensures FaithfulAt(batch[i], conns, fetched)
  {
  }

  lemma {:induction false} UniqueCount<T>(q: seq<T>, s: set<T>)
    requires Unique(q) && forall x :: x in q <==> x in s
    ensures |q| == |s|
  {
    if q == [] {
      assert s == {};
    } else {
      assert forall x :: x in q <==> x == q[0] || x in q[1..];
      assert q[0] !in q[1..];
      UniqueCount(q[1..], s - {q[0]});
    }
  }

  /** When the slots from place `keep` of the reuse queue on have gone to the free list, those released are
      as many as that, and are the reusable ones marked longest ago. */
  lemma LongestAgo(s: State, t: State, keep: nat, marks: seq<nat>) returns (released: set<nat>)
    requires Sound(s) && Sound(t) && |t.conns| == |s.conns|
    requires keep <= |s.links.reuse| && Falling(s.links.reuse, marks) && t.free == s.links.reuse[keep..] + s.free
    ensures forall i: nat :: i in released <==> i < |s.conns| && s.conns[i].fd != NONE && t.conns[i].fd == NONE
    ensures |set i: nat | i < |s.conns| && s.conns[i].fd != NONE && s.conns[i].reusable| == |s.links.reuse|
    ensures |released| == |s.links.reuse| - keep
    ensures forall i :: i in released ==> i in s.links.reuse[keep..] && s.conns[i].reusable
    ensures forall i, j: nat :: (i in released && j < |s.conns| && j !in released
                                && s.conns[j].fd != NONE && s.conns[j].reusable) ==> marks[i] < marks[j]
    ensures forall i :: i in s.links.reuse[keep..] ==> i in released
  {
    hide Sound, Falling;
    released := set i: nat | i < |s.conns| && s.conns[i].fd != NONE && t.conns[i].fd == NONE;
    var reusable := set i: nat | i < |s.conns| && s.conns[i].fd != NONE && s.conns[i].reusable;
    forall i: nat
      ensures i in s.links.reuse <==> i in reusable
      ensures i in s.links.reuse[keep..] <==> i in released
    {
      GoesToFree(s, t, keep, i);
    }
    Oldest(s.links.reuse, marks, keep, reusable, released);
  }

  lemma GoesToFree(s: State, t: State, keep: nat, i: nat)
    requires Sound(s) && Sound(t) && |t.conns| == |s.conns|
    requires keep <= |s.links.reuse| && t.free == s.links.reuse[keep..] + s.free
    ensures i in s.links.reuse <==> i < |s.conns| && s.conns[i].fd != NONE && s.conns[i].reusable
    ensures i in s.links.reuse[keep..] <==> i < |s.conns| && s.conns[i].fd != NONE && t.conns[i].fd == NONE
  {
    hide Sound;
    assert i in s.links.reuse[keep..] ==> i in s.links.reuse;
    if i < |s.conns| {
      SlotLinks(s, i);
      SlotLinks(t, i);
    } else {
      NotASlot(s, i);
    }
  }

  /** Along a queue with falling marks, the members from `keep` on have the smallest marks. */
  lemma Oldest(q: seq<nat>, marks: seq<nat>, keep: nat, all: set<nat>, last: set<nat>)
    requires Falling(q, marks) && keep <= |q|
    requires forall i: nat :: i in q <==> i in all
    requires forall i: nat :: i in q[keep..] <==> i in last
    ensures |all| == |q| && |last| == |q| - keep
    ensures forall i :: i in all ==> i < |marks|
    ensures forall i :: i in last ==> i in all
    ensures forall i, j :: i in last && j in all && j !in last ==> marks[i] < marks[j]
  {
    UniqueCount(q, all);
    UniqueFrom(q, keep);
    UniqueCount(q[keep..], last);
    assert forall i :: i in last ==> i in q[keep..] && i in q;
    forall i, j | i in last && j in all && j !in last ensures marks[i] < marks[j] {
      var p :| 0 <= p < |q[keep..]| && q[keep..][p] == i;
      var k :| 0 <= k < |q| && q[k] == j;
      assert q[keep + p] == i;
    }
  }

  lemma UniqueFrom<T>(q: seq<T>, k: nat)
    requires Unique(q) && k <= |q|
    ensures Unique(q[k..])
    ensures forall i :: k <= i < |q| ==> q[i] in q[k..]
  {
    forall i | k <= i < |q| ensures q[i] in q[k..] {
      assert q[k..][i - k] == q[i];
    }
  }

  lemma NotASlot(s: State, i: nat)
    requires Sound(s) && |s.conns| <= i
    ensures i !in s.links.reuse
  {
  }

  /** What the invariant says of the links of one slot. */
  lemma SlotLinks(s: State, c: nat)
    requires Sound(s) && c < |s.conns|
    ensures s.conns[c].fd == NONE <==> c in s.free
    ensures s.conns[c].fd == NONE ==>
              && c !in s.links.reuse
              && forall r: Ref :: r.slot == c ==> r !in s.links.timers && r !in s.links.accepts && r !in s.links.events
    ensures s.conns[c].fd != NONE ==>
              && (s.conns[c].reusable <==> c in s.links.reuse)
              && forall r: Ref :: r.slot == c ==>
                   var e := Ev(s.conns[c], r.write);
                   && (e.timerSet <==> r in s.links.timers)
                   && (e.posted <==> (r in s.links.accepts) != (r in s.links.events))
                   && (e.active <==>
                         && s.conns[c].fd in s.links.interest
                         && var w := s.links.interest[s.conns[c].fd]; if r.write then w.write else w.read)
    ensures forall fd :: fd in s.links.interest && s.links.interest[fd].slot == c ==> s.conns[c].fd == fd
  {
    SlotAt(s, c);
    assert forall r: Ref :: r.slot == c ==> r == Ref(c, false) || r == Ref(c, true);
  }

  /** The read and the write half of a report; an error or hang-up wakes both. */
  predicate Wakes(e: Report, write: bool) { e.error || if write then e.output else e.input }

  /** Nothing was opened, closed or reissued. */
  ghost predicate SameSlots(conns: seq<Connection>, after: seq<Connection>) {
    && |conns| == |after|
    && (forall i :: 0 <= i < |conns| ==> after[i].fd == conns[i].fd)
    && (forall i :: 0 <= i < |conns| ==> after[i].read.instance == conns[i].read.instance)
    && (forall i, write :: 0 <= i < |conns| ==> Ev(after[i], write).active == Ev(conns[i], write).active)
    && (forall i, write :: 0 <= i < |conns| && Ev(conns[i], write).posted ==> Ev(after[i], write).posted)
  }

  lemma SameSlotsSelf(a: seq<Connection>)
    ensures SameSlots(a, a)
  {
  }

  /** What was active and is reported is posted. */
  ghost predicate AllPosted(batch: seq<Report>, conns: seq<Connection>, after: seq<Connection>) {
    forall e, write ::
      e in batch && e.slot < |conns| == |after| && Wakes(e, write) && Ev(conns[e.slot], write).active ==>
      Ev(after[e.slot], write).posted
  }

  /** Posting one event opens, closes and reissues nothing. */
  lemma PostedSlots(s: State, e: Report, write: bool)
    requires Sized(s) && OpenIn(s, e.slot)
    ensures var t := PostOf(ReadyOf(s, e, write), Ref(e.slot, write), AcceptsOf(s, e, write));
            && SameSlots(s.conns, t.conns) && t.issues == s.issues && t.free == s.free
            && |t.conns| == |s.conns| && Ev(t.conns[e.slot], write).posted
  {
  }

  lemma StillFresh(e: Report, conns: seq<Connection>, after: seq<Connection>)
    requires SameSlots(conns, after) && e.slot < |conns|
    ensures |after| == |conns| && after[e.slot].fd == conns[e.slot].fd
    ensures after[e.slot].read.instance == conns[e.slot].read.instance
    ensures after[e.slot].write.active == conns[e.slot].write.active
  {
    assert Ev(after[e.slot], true).active == Ev(conns[e.slot], true).active;
  }

  lemma BothHalves(e: Report, conns: seq<Connection>, between: seq<Connection>, after: seq<Connection>)
    requires SameSlots(conns, between) && SameSlots(between, after) && e.slot < |conns|
    requires |between| == |after| == |conns|
    requires Wakes(e, false) && conns[e.slot].read.active ==> between[e.slot].read.posted
    requires Wakes(e, true) && between[e.slot].write.active ==> after[e.slot].write.posted
    ensures SameSlots(conns, after) && AllPosted([e], conns, after)
  {
    assert Ev(between[e.slot], true).active == Ev(conns[e.slot], true).active;
    assert between[e.slot].read.posted ==> Ev(after[e.slot], false).posted;
  }

  lemma OneDelivered(batch: seq<Report>, i: nat, conns: seq<Connection>, before: seq<Connection>,
                     after: seq<Connection>)
    requires i < |batch| && AllPosted(batch[..i], conns, before) && SameSlots(conns, before) && SameSlots(before, after)
    requires AllPosted([batch[i]], before, after)
    ensures AllPosted(batch[..i + 1], conns, after) && SameSlots(conns, after)
  {
    assert batch[..i + 1] == batch[..i] + [batch[i]];
    assert batch[i] in [batch[i]];
  }

  /** What the handlers do for the two halves of a report. */
  datatype Reaction = Reaction(read: seq<Op>, write: seq<Op>)

  /** A timer that expires, and what its handler does. */
  datatype Expiry = Expiry(r: Ref, ops: seq<Op>)

  // ---------- the operations as functions ----------

  ghost predicate Sized(s: State) { |s.issues| == |s.conns| }

  ghost predicate OpenIn(s: State, c: nat) { c < |s.conns| && s.conns[c].fd != NONE }

  /** The state after a change to one event. */
  ghost function With(s: State, r: Ref, e: Event): (t: State)
    requires r.slot < |s.conns|
    ensures Sized(s) ==> Sized(t)
  {
    s.(conns := s.conns[r.slot := WithEv(s.conns[r.slot], r.write, e)])
  }

  ghost function CloseOf(s: State, c: nat): (t: State)
    ensures Sized(s) ==> Sized(t)
    ensures |t.conns| == |s.conns|
  {
    if !OpenIn(s, c) then s
    else
      var x := s.conns[c];
      State(s.conns[c := Closed(x, s.head)], s.issues, c, [c] + s.free, Cut(s.links, c, x.fd), s.stamps)
  }

  /** After `k` turns of the loop of drain_connections. */
  ghost function Drained(s: State, k: nat): (t: State)
    ensures Sized(s) ==> Sized(t)
    ensures |t.conns| == |s.conns|
    decreases k
  {
    if k == 0 || s.links.reuse == [] then s
    else
      var c := s.links.reuse[|s.links.reuse| - 1];
      if |s.conns| <= c then s else Drained(CloseOf(s.(conns := s.conns[c := s.conns[c].(close := true)]), c), k - 1)
  }

  lemma DrainedOnce(s: State, k: nat)
    requires 0 < k
    ensures Drained(s, k) == Drained(Drained(s, 1), k - 1)
  {
    var c := if s.links.reuse == [] then 0 else s.links.reuse[|s.links.reuse| - 1];
    if s.links.reuse != [] && c < |s.conns| {
      var t := CloseOf(s.(conns := s.conns[c := s.conns[c].(close := true)]), c);
      assert Drained(s, 1) == Drained(t, 0) == t;
    } else {
      assert Drained(s, 1) == s;
    }
  }

  /** What has happened after `k` turns of the loop of drain_connections. */
  ghost predicate Draining(s: State, t: State, k: nat) {
    && k <= |s.links.reuse| && |t.conns| == |s.conns|
    && t.links.reuse == s.links.reuse[..|s.links.reuse| - k] && t.free == s.links.reuse[|s.links.reuse| - k..] + s.free
    && (forall accept :: |QueueOf(t.links, accept)| <= |QueueOf(s.links, accept)|)
    && (forall i :: 0 <= i < |s.conns| && i !in s.links.reuse[|s.links.reuse| - k..] ==> t.conns[i] == s.conns[i])
    && (forall i :: 0 <= i < |s.conns| ==> t.conns[i].fd == s.conns[i].fd || t.conns[i].fd == NONE)
  }

  lemma DrainsOneMore(s: State, t: State, u: State, k: nat, c: nat)
    requires Draining(s, t, k) && t.links.reuse != [] && c == t.links.reuse[|t.links.reuse| - 1]
    requires c < |u.conns| == |t.conns|
    requires u.links.reuse == t.links.reuse[..|t.links.reuse| - 1] && u.free == [c] + t.free
    requires forall accept :: |QueueOf(u.links, accept)| <= |QueueOf(t.links, accept)|
    requires u.conns[c].fd == NONE && forall i :: 0 <= i < |t.conns| && i != c ==> u.conns[i] == t.conns[i]
    ensures Draining(s, u, k + 1)
  {
    var reuse := s.links.reuse;
    assert c == reuse[|reuse| - k - 1] && c in reuse;
    assert [c] + reuse[|reuse| - k..] == reuse[|reuse| - k - 1..];
  }

  lemma NotDrained(s: State)
    ensures Draining(s, s, 0)
  {
  }

  lemma DrainEnds(s: State, t: State, k: nat)
    requires Draining(s, t, k) && k <= DrainCount(|s.links.reuse|)
    requires (k == DrainCount(|s.links.reuse|) || t.links.reuse == [])
    ensures var keep := |s.links.reuse| - Min(|s.links.reuse|, DrainCount(|s.links.reuse|));
            t.links.reuse == s.links.reuse[..keep] && t.free == s.links.reuse[keep..] + s.free
    ensures forall accept :: |QueueOf(t.links, accept)| <= |QueueOf(s.links, accept)|
    ensures var keep := |s.links.reuse| - Min(|s.links.reuse|, DrainCount(|s.links.reuse|));
            && |t.conns| == |s.conns|
            && forall i :: 0 <= i < |s.conns| && i !in s.links.reuse[keep..] ==> t.conns[i] == s.conns[i]
    ensures forall i :: 0 <= i < |s.conns| ==> t.conns[i].fd == s.conns[i].fd || t.conns[i].fd == NONE
    ensures s.links.reuse == [] ==> Drained(s, DrainCount(|s.links.reuse|)) == s
  {
  }

  lemma DrainedNone(s: State)
    ensures Drained(s, 0) == s
  {
  }

  lemma DrainedDry(s: State, k: nat)
    requires s.links.reuse == []
    ensures Drained(s, k) == s
  {
  }

  /** The state once drain_connections has been called for want of free slots. */
  ghost function Refilled(s: State): (t: State)
    ensures Sized(s) ==> Sized(t)
    ensures |t.conns| == |s.conns|
  {
    if s.free == [] then Drained(s, DrainCount(|s.links.reuse|)) else s
  }

  ghost function IssueOf(s: State, fd: int): (t: State)
    requires Sized(s)
    ensures Sized(t)
  {
    if s.free == [] || !(0 <= s.head < |s.conns|) then s
    else
      var c := s.conns[s.head];
      s.(conns := s.conns[s.head := Blank(fd, !c.read.instance)], issues := s.issues[s.head := s.issues[s.head] + 1],
         head := c.data, free := s.free[1..])
  }

  /** get_connection, with which the head of the free list leaves it. */
  ghost function GetOf(s: State, fd: int): (t: State)
    requires Sized(s)
    ensures Sized(t)
  {
    IssueOf(Refilled(s), fd)
  }

  ghost function AbandonOf(s: State, c: nat): (t: State)
    requires c < |s.conns|
    ensures Sized(s) ==> Sized(t)
  {
    s.(conns := s.conns[c := s.conns[c].(data := s.head, fd := NONE)], head := c, free := [c] + s.free)
  }

  /** A get_connection whose slot is not kept: event_accept gives up on the accepted connection. */
  ghost function GetAndAbandonOf(s: State, fd: int): (t: State)
    requires Sized(s)
    ensures Sized(t)
  {
    var d := Refilled(s);
    var t := IssueOf(d, fd);
    if d.free == [] || !(0 <= d.head < |t.conns|) then t else AbandonOf(t, d.head)
  }

  ghost function MarkOf(s: State, c: nat, reusable: bool): (t: State)
    requires c < |s.conns|
    ensures Sized(s) ==> Sized(t)
  {
    s.(conns := s.conns[c := s.conns[c].(reusable := reusable)],
       links := s.links.(reuse := Marked(s.links.reuse, c, reusable)))
  }

  ghost function PostOf(s: State, r: Ref, accept: bool): (t: State)
    requires r.slot < |s.conns| && Sized(s)
    ensures Sized(t)
  {
    var e := Ev(s.conns[r.slot], r.write);
    if e.posted then s
    else With(s, r, e.(posted := true)).(links := Posted(s.links, r, accept), stamps := s.stamps[r := s.issues[r.slot]])
  }

  /** The kernel and the active flags agree to watch slot `c` for `read` and `write`. */
  ghost function WatchOf(s: State, c: nat, read: bool, write: bool, edge: bool): (t: State)
    requires c < |s.conns|
    ensures Sized(s) ==> Sized(t)
  {
    var x := Activated(s.conns[c], read, write);
    s.(conns := s.conns[c := x], links := s.links.(interest := Watching(s.links.interest, c, x, edge)))
  }

  ghost function AddEventOf(s: State, r: Ref, edge: bool, accepts: bool): (t: State)
    requires r.slot < |s.conns|
    ensures Sized(s) ==> Sized(t)
  {
    var c := s.conns[r.slot];
    if accepts && (!Ev(c, r.write).active || Ev(c, !r.write).active)
    then WatchOf(s, r.slot, !r.write || c.read.active, r.write || c.write.active, edge) else s
  }

  ghost function DelEventOf(s: State, r: Ref, edge: bool, accepts: bool): (t: State)
    requires r.slot < |s.conns|
    ensures Sized(s) ==> Sized(t)
  {
    var c := s.conns[r.slot];
    if accepts && (c.read.active || c.write.active)
    then WatchOf(s, r.slot, r.write && c.read.active, !r.write && c.write.active, edge) else s
  }

  ghost function HandleOf(s: State, r: Ref, accepts: bool): (t: State)
    requires r.slot < |s.conns|
    ensures Sized(s) ==> Sized(t)
  {
    var e := Ev(s.conns[r.slot], r.write);
    if e.active || e.ready then s else AddEventOf(s, r, true, accepts)
  }

  /** send_lowat: `sets` says whether setsockopt succeeds. */
  ghost function LowatOf(s: State, c: nat, lowat: nat, sets: bool): (t: State)
    requires c < |s.conns|
    ensures Sized(s) ==> Sized(t)
    ensures |t.conns| == |s.conns|
  {
    if lowat == 0 || s.conns[c].sndlowat || !sets then s else s.(conns := s.conns[c := s.conns[c].(sndlowat := true)])
  }

  ghost function HandleWriteOf(s: State, c: nat, lowat: nat, sets: bool, accepts: bool): (t: State)
    requires c < |s.conns|
    ensures Sized(s) ==> Sized(t)
  {
    if lowat != 0 && !s.conns[c].sndlowat && !sets then s
    else HandleOf(LowatOf(s, c, lowat, sets), Ref(c, true), accepts)
  }

  ghost function TimerOf(s: State, r: Ref, on: bool): (t: State)
    requires r.slot < |s.conns|
    ensures Sized(s) ==> Sized(t)
  {
    With(s, r, Ev(s.conns[r.slot], r.write).(timerSet := on)).(
      links := s.links.(timers := if on then s.links.timers + {r} else s.links.timers - {r}))
  }

  ghost function UnpostOf(s: State, r: Ref): (t: State)
    requires r.slot < |s.conns|
    ensures Sized(s) ==> Sized(t)
  {
    With(s, r, Ev(s.conns[r.slot], r.write).(posted := false)).(links := Unposted(s.links, r))
  }

  ghost function WatchBothOf(s: State, c: nat, accepts: bool): (t: State)
    requires c < |s.conns|
    ensures Sized(s) ==> Sized(t)
  {
    if accepts && !s.conns[c].read.active && !s.conns[c].write.active then WatchOf(s, c, true, true, true) else s
  }

  ghost function UnwatchBothOf(s: State, c: nat, accepts: bool): (t: State)
    requires c < |s.conns|
    ensures Sized(s) ==> Sized(t)
  {
    if accepts && (s.conns[c].read.active || s.conns[c].write.active) then WatchOf(s, c, false, false, false) else s
  }

  /** What the source demands of a caller. A new descriptor is one that no connection has. */
  predicate AllowedIn(conns: seq<Connection>, op: Op) {
    match op
    case Get(fd, _) => 0 <= fd && forall i :: 0 <= i < |conns| ==> conns[i].fd != fd
    case Close(c) => c < |conns|
    case Mark(c, _) => c < |conns| && conns[c].fd != NONE
    case Listen(c) => c < |conns| && conns[c].fd != NONE
    case SetTimer(r) => r.slot < |conns| && conns[r.slot].fd != NONE
    case ClearTimer(r) => r.slot < |conns| && conns[r.slot].fd != NONE && Ev(conns[r.slot], r.write).timerSet
    case Post(r, _) => r.slot < |conns| && conns[r.slot].fd != NONE
    case Unpost(r) => r.slot < |conns| && conns[r.slot].fd != NONE && Ev(conns[r.slot], r.write).posted
    case Watch(r, _, _) => r.slot < |conns| && conns[r.slot].fd != NONE
    case Unwatch(r, _, _) => r.slot < |conns| && conns[r.slot].fd != NONE
    case WatchBoth(c, _) => c < |conns| && conns[c].fd != NONE
    case UnwatchBoth(c, _) => c < |conns| && conns[c].fd != NONE
    case HandleRead(c, _) => c < |conns| && conns[c].fd != NONE
    case HandleWrite(c, _, _, _) => c < |conns| && conns[c].fd != NONE
  }

  /** One operation; one that is not allowed does nothing. */
  ghost function Apply(s: State, op: Op): (t: State)
    requires Sized(s)
    ensures Sized(t)
  {
    if !AllowedIn(s.conns, op) then s
    else match op
      case Get(fd, kept) => if kept then GetOf(s, fd) else GetAndAbandonOf(s, fd)
      case Close(c) => CloseOf(s, c)
      case Mark(c, reusable) => MarkOf(s, c, reusable)
      case Listen(c) => With(s, Ref(c, false), s.conns[c].read.(accept := true))
      case SetTimer(r) => TimerOf(s, r, true)
      case ClearTimer(r) => TimerOf(s, r, false)
      case Post(r, accept) => PostOf(s, r, accept)
      case Unpost(r) => UnpostOf(s, r)
      case Watch(r, edge, accepts) => AddEventOf(s, r, edge, accepts)
      case Unwatch(r, edge, accepts) => DelEventOf(s, r, edge, accepts)
      case WatchBoth(c, accepts) => WatchBothOf(s, c, accepts)
      case UnwatchBoth(c, accepts) => UnwatchBothOf(s, c, accepts)
      case HandleRead(c, accepts) => HandleOf(s, Ref(c, false), accepts)
      case HandleWrite(c, lowat, sets, accepts) => HandleWriteOf(s, c, lowat, sets, accepts)
  }

  /** What each operation is for, said of the state it leaves, when a caller may use it. */
  lemma OpsMean(s: State, op: Op)
    requires Sound(s) && Sized(s) && AllowedIn(s.conns, op)
    ensures var t := Apply(s, op);
            match op
            case Get(fd, kept) => s.free != [] ==>
              && 0 <= s.head < |t.conns| == |s.conns| && t.issues == s.issues[s.head := s.issues[s.head] + 1]
              && t.conns[s.head].fd == (if kept then fd else NONE)
              && t.free == (if kept then s.free[1..] else s.free)
            case Close(c) => |t.conns| == |s.conns| && t.conns[c].fd == NONE &&
              (s.conns[c].fd != NONE ==> t.free == [c] + s.free && s.conns[c].fd !in t.links.interest)
            case Mark(c, reusable) =>
              && t.conns == s.conns[c := s.conns[c].(reusable := reusable)] && (c in t.links.reuse <==> reusable)
            case Listen(c) => t == s.(conns := s.conns[c := s.conns[c].(read := s.conns[c].read.(accept := true))])
            case SetTimer(r) => t.links == s.links.(timers := s.links.timers + {r})
            case ClearTimer(r) => t.links == s.links.(timers := s.links.timers - {r})
            case Post(r, accept) =>
              if Ev(s.conns[r.slot], r.write).posted then t == s
              else t.links == if accept then s.links.(accepts := s.links.accepts + [r])
                              else s.links.(events := s.links.events + [r])
            case Unpost(r) => r !in t.links.accepts && r !in t.links.events
            case _ => true
  {
    hide Sound, Remove, Drained, ListsOk, Marked, Unposted, EventOk, SlotOk, Unlinked;
    match op
    case Get(fd, kept) =>
      HeadAt(s);
      if s.free != [] {
        Issued(s, fd);
      }
    case Mark(c, reusable) =>
      KeepsMark(s, c, reusable);
    case Unpost(r) =>
      SlotAt(s, r.slot);
      UnpostedMembers(|s.conns|, s.links, r);
    case _ =>
  }

  /** The same of the operations that change what is watched. */
  lemma WatchesMean(s: State, op: Op)
    requires Sound(s) && Sized(s) && AllowedIn(s.conns, op)
    ensures var t := Apply(s, op);
            match op
            case Watch(r, edge, accepts) =>
              && |t.conns| == |s.conns| && (!accepts ==> t == s)
              && ((accepts && !Ev(s.conns[r.slot], r.write).active) ==>
                    && Ev(t.conns[r.slot], r.write).active && s.conns[r.slot].fd in t.links.interest
                    && t.links.interest[s.conns[r.slot].fd].edge == edge)
            case Unwatch(r, edge, accepts) =>
              |t.conns| == |s.conns| && if accepts then !Ev(t.conns[r.slot], r.write).active else t == s
            case WatchBoth(c, accepts) =>
              && |t.conns| == |s.conns| && (!accepts ==> t == s)
              && ((accepts && !s.conns[c].read.active && !s.conns[c].write.active) ==>
                    t.conns[c].read.active && t.conns[c].write.active)
            case UnwatchBoth(c, accepts) =>
              && |t.conns| == |s.conns|
              && if accepts then !t.conns[c].read.active && !t.conns[c].write.active else t == s
            case HandleRead(c, accepts) =>
              && |t.conns| == |s.conns|
              && if s.conns[c].read.active || s.conns[c].read.ready || !accepts then t == s
                 else t.conns[c].read.active
            case HandleWrite(c, lowat, sets, accepts) =>
              && |t.conns| == |s.conns| && t.conns[c].sndlowat == (s.conns[c].sndlowat || (lowat != 0 && sets))
              && t.conns[c].write.ready == s.conns[c].write.ready
              && ((accepts && (lowat == 0 || s.conns[c].sndlowat || sets)) ==>
                    t.conns[c].write.active || t.conns[c].write.ready)
            case _ => true
  {
    hide Sound, GetOf, GetAndAbandonOf, CloseOf, MarkOf, PostOf, UnpostOf, TimerOf;
  }

  ghost function ApplyAll(s: State, ops: seq<Op>): (t: State)
    requires Sized(s)
    ensures Sized(t)
  {
    if ops == [] then s else Apply(ApplyAll(s, ops[..|ops| - 1]), ops[|ops| - 1])
  }

  /** Operations happen one after the other. */
  lemma {:induction false} ApplyAllLaws(s: State, a: seq<Op>, b: seq<Op>)
    requires Sized(s)
    ensures ApplyAll(s, []) == s && forall op :: ApplyAll(s, [op]) == Apply(s, op)
    ensures ApplyAll(s, a + b) == ApplyAll(ApplyAll(s, a), b)
  {
    hide Apply;
    forall op ensures ApplyAll(s, [op]) == Apply(s, op) {
      assert [op][..0] == [];
    }
    if b == [] {
      assert a + b == a;
    } else {
      ApplyAllLaws(s, a, b[..|b| - 1]);
      assert (a + b)[..|a + b| - 1] == a + b[..|b| - 1];
    }
  }

  /** The state when event_process_posted has called `k` handlers. */
  ghost function AfterCalls(s: State, accept: bool, plan: nat -> seq<Op>, k: nat): (t: State)
    requires Sized(s)
    ensures Sized(t)
  {
    if k == 0 then s
    else
      var t := AfterCalls(s, accept, plan, k - 1);
      var q := QueueOf(t.links, accept);
      if q == [] then t else ApplyAll(Apply(t, Unpost(q[0])), plan(k - 1))
  }

  /** The `k`-th handler called is that of the event at the head of the queue by then. */
  ghost predicate Called(r: Ref, s: State, accept: bool, plan: nat -> seq<Op>, k: nat)
    requires Sized(s)
  {
    var q := QueueOf(AfterCalls(s, accept, plan, k).links, accept);
    q != [] && r == q[0]
  }

  lemma NextCall(s: State, accept: bool, plan: nat -> seq<Op>, k: nat)
    requires Sized(s)
    ensures var t := AfterCalls(s, accept, plan, k);
            var q := QueueOf(t.links, accept);
            AfterCalls(s, accept, plan, k + 1) == if q == [] then t else ApplyAll(Apply(t, Unpost(q[0])), plan(k))
  {
  }

  /** Each handler finds the event of the head of the queue taken off it, and no longer posted. */
  lemma HandlerInTurn(s: State, accept: bool, plan: nat -> seq<Op>, k: nat)
    requires Sized(s) && Sound(AfterCalls(s, accept, plan, k))
    ensures AfterCalls(s, accept, plan, 0) == s
    ensures var t, next := AfterCalls(s, accept, plan, k), AfterCalls(s, accept, plan, k + 1);
            var q := if accept then t.links.accepts else t.links.events;
            if q == [] then next == t
            else
              && q[0].slot < |t.conns|
              && var c := t.conns[q[0].slot];
              var d := if q[0].write then c.(write := c.write.(posted := false))
                       else c.(read := c.read.(posted := false));
              var l := if accept then t.links.(accepts := q[1..]) else t.links.(events := q[1..]);
              next == ApplyAll(t.(conns := t.conns[q[0].slot := d], links := l), plan(k))
  {
    var t := AfterCalls(s, accept, plan, k);
    var q := QueueOf(t.links, accept);
    NextCall(s, accept, plan, k);
    hide Sound, AfterCalls, ApplyAll, Unposted;
    if q != [] {
      PostedAt(t, q[0]);
      assert Unposted(t.links, q[0]).(accepts := t.links.accepts, events := t.links.events) == t.links by {
        UnpostedRest(t.links, q[0]);
      }
    }
  }

  lemma UnpostedRest(l: Links, r: Ref)
    ensures Unposted(l, r).(accepts := l.accepts, events := l.events) == l
  {
  }

  /** What is known after `k` calls for a queue of state `s`, logged in `log`. */
  ghost predicate Processed(s: State, accept: bool, plan: nat -> seq<Op>, k: nat, t: State, log: seq<Call>) {
    && Sized(s) && Sized(t) && t == AfterCalls(s, accept, plan, k) && |log| == k
    && (forall j :: 0 <= j < k ==> Current(log[j]) && Called(log[j].r, s, accept, plan, j))
    && ((forall j: nat, op :: op in plan(j) ==> Keeps(op)) ==>
          QueueOf(s.links, accept) <= Refs(log) + QueueOf(t.links, accept))
  }

  lemma NoneProcessed(s: State, accept: bool, plan: nat -> seq<Op>)
    requires Sized(s)
    ensures Processed(s, accept, plan, 0, s, [])
  {
  }

  lemma OneProcessed(s: State, accept: bool, plan: nat -> seq<Op>, k: nat, before: State, t: State,
                     log: seq<Call>, call: Call)
    requires Processed(s, accept, plan, k, before, log) && Sized(before) && Current(call)
    requires QueueOf(before.links, accept) != [] && call.r == QueueOf(before.links, accept)[0]
    requires t == ApplyAll(Apply(before, Unpost(call.r)), plan(k))
    requires (forall op :: op in plan(k) ==> Keeps(op)) ==>
               QueueOf(before.links, accept)[1..] <= QueueOf(t.links, accept)
    ensures Processed(s, accept, plan, k + 1, t, log + [call])
  {
    hide AfterCalls, Apply, ApplyAll, Current;
    NextCall(s, accept, plan, k);
    if forall j: nat, op :: op in plan(j) ==> Keeps(op) {
      OnePosted(QueueOf(s.links, accept), log, call, QueueOf(before.links, accept), QueueOf(t.links, accept));
    }
  }

  lemma AllProcessed(s: State, accept: bool, plan: nat -> seq<Op>, k: nat, t: State, log: seq<Call>)
    requires Processed(s, accept, plan, k, t, log) && QueueOf(t.links, accept) == []
    ensures |log| == k && Sized(s) && t == AfterCalls(s, accept, plan, k)
    ensures forall j :: 0 <= j < k ==> Current(log[j]) && Called(log[j].r, s, accept, plan, j)
    ensures (forall j: nat, op :: op in plan(j) ==> Keeps(op)) ==> QueueOf(s.links, accept) <= Refs(log)
  {
  }

  ghost function ReadyOf(s: State, e: Report, write: bool): (t: State)
    requires e.slot < |s.conns|
    ensures Sized(s) ==> Sized(t)
    ensures |t.conns| == |s.conns|
  {
    var v := Ev(s.conns[e.slot], write);
    With(s, Ref(e.slot, write), v.(ready := true, eof := v.eof || (!write && e.rdhup)))
  }

  ghost function AcceptsOf(s: State, e: Report, write: bool): bool
    requires e.slot < |s.conns|
  {
    !write && s.conns[e.slot].read.accept
  }

  /** What the event loop does for one half of a report. */
  ghost function DeliverOf(s: State, e: Report, write: bool, post: bool, ops: seq<Op>): (t: State)
    requires Sized(s)
    ensures Sized(t)
  {
    if !OpenIn(s, e.slot) || Ev(s.conns[e.slot], write).instance != e.instance
       || !Wakes(e, write) || !Ev(s.conns[e.slot], write).active
    then s
    else if post then PostOf(ReadyOf(s, e, write), Ref(e.slot, write), AcceptsOf(s, e, write))
    else ApplyAll(ReadyOf(s, e, write), ops)
  }

  /** The handler call made for one half of a report, if there is one. */
  ghost function CallsOf(s: State, e: Report, write: bool, fetched: nat, post: bool): seq<Call>
    requires Sized(s)
  {
    if OpenIn(s, e.slot) && Ev(s.conns[e.slot], write).instance == e.instance
       && Wakes(e, write) && Ev(s.conns[e.slot], write).active && !post
    then [Call(Ref(e.slot, write), fetched, s.issues[e.slot], true)] else []
  }

  ghost function DispatchLog(s: State, e: Report, fetched: nat, post: bool, reaction: Reaction): seq<Call>
    requires Sized(s)
  {
    if !OpenIn(s, e.slot) || s.conns[e.slot].read.instance != e.instance then []
    else
      CallsOf(s, e, false, fetched, post)
      + CallsOf(DeliverOf(s, e, false, post, reaction.read), e, true, fetched, post)
  }

  ghost function DispatchOf(s: State, e: Report, post: bool, reaction: Reaction): (t: State)
    requires Sized(s)
    ensures Sized(t)
  {
    if !OpenIn(s, e.slot) || s.conns[e.slot].read.instance != e.instance then s
    else DeliverOf(DeliverOf(s, e, false, post, reaction.read), e, true, post, reaction.write)
  }

  /** The state after the first `k` reports of a batch. */
  ghost function AfterReports(s: State, batch: seq<Report>, post: bool, plan: nat -> Reaction, k: nat): (t: State)
    requires Sized(s)
    ensures Sized(t)
  {
    if k == 0 || |batch| < k then s
    else DispatchOf(AfterReports(s, batch, post, plan, k - 1), batch[k - 1], post, plan(k - 1))
  }

  /** The handler calls made for the first `k` reports of a batch fetched in state `s`. */
  ghost function BatchLog(s: State, batch: seq<Report>, post: bool, plan: nat -> Reaction, k: nat): seq<Call>
    requires Sized(s)
  {
    if k == 0 || |batch| < k then []
    else
      var e := batch[k - 1];
      BatchLog(s, batch, post, plan, k - 1)
      + DispatchLog(AfterReports(s, batch, post, plan, k - 1), e, if e.slot < |s.issues| then s.issues[e.slot] else 0,
                    post, plan(k - 1))
  }

  lemma NextReport(s: State, batch: seq<Report>, post: bool, plan: nat -> Reaction, k: nat)
    requires Sized(s) && k < |batch|
    ensures AfterReports(s, batch, post, plan, k + 1) ==
            DispatchOf(AfterReports(s, batch, post, plan, k), batch[k], post, plan(k))
    ensures batch[k].slot < |s.issues| ==>
              BatchLog(s, batch, post, plan, k + 1) ==
              BatchLog(s, batch, post, plan, k)
              + DispatchLog(AfterReports(s, batch, post, plan, k), batch[k], s.issues[batch[k].slot], post, plan(k))
  {
  }

  /** A report whose slot is open in the reported instance has its read half handled, and then its write half;
      any other report does nothing. */
  lemma ReportInTurn(s: State, batch: seq<Report>, post: bool, plan: nat -> Reaction, k: nat)
    requires Sized(s) && k < |batch| && batch[k].slot < |s.issues|
    ensures AfterReports(s, batch, post, plan, 0) == s && BatchLog(s, batch, post, plan, 0) == []
    ensures var t, e := AfterReports(s, batch, post, plan, k), batch[k];
            var next := AfterReports(s, batch, post, plan, k + 1);
            var log := BatchLog(s, batch, post, plan, k);
            var m := s.issues[e.slot];
            if e.slot < |t.conns| && t.conns[e.slot].fd != NONE && t.conns[e.slot].read.instance == e.instance
            then
              var between := DeliverOf(t, e, false, post, plan(k).read);
              && next == DeliverOf(between, e, true, post, plan(k).write)
              && BatchLog(s, batch, post, plan, k + 1) ==
                 log + CallsOf(t, e, false, m, post) + CallsOf(between, e, true, m, post)
            else
              next == t && BatchLog(s, batch, post, plan, k + 1) == log
  {
    NextReport(s, batch, post, plan, k);
    hide DeliverOf, CallsOf;
    var t := AfterReports(s, batch, post, plan, k);
    assert DispatchLog(t, batch[k], s.issues[batch[k].slot], post, plan(k)) == [] ||
           (OpenIn(t, batch[k].slot) && t.conns[batch[k].slot].read.instance == batch[k].instance);
  }

  /** What is known after the first `i` reports of a batch fetched in state `s`. */
  ghost predicate Midway(s: State, batch: seq<Report>, post: bool, plan: nat -> Reaction, i: nat, t: State,
                         log: seq<Call>) {
    && i <= |batch| && Sized(s) && Sized(t) && |t.conns| == |s.conns|
    && Faithful(batch, s.conns, s.issues)
    && t == AfterReports(s, batch, post, plan, i)
    && PassedCheck(log, s.issues) && log == BatchLog(s, batch, post, plan, i)
    && (post ==>
          && log == [] && t.issues == s.issues && t.free == s.free
          && SameSlots(s.conns, t.conns) && AllPosted(batch[..i], s.conns, t.conns))
  }

  lemma AtFetch(s: State, batch: seq<Report>, post: bool, plan: nat -> Reaction)
    requires Sized(s) && Faithful(batch, s.conns, s.issues)
    ensures Midway(s, batch, post, plan, 0, s, [])
  {
  }

  lemma AtEnd(s: State, batch: seq<Report>, post: bool, plan: nat -> Reaction, t: State, log: seq<Call>)
    requires Midway(s, batch, post, plan, |batch|, t, log)
    ensures Sized(s) && t == AfterReports(s, batch, post, plan, |batch|) && PassedCheck(log, s.issues)
    ensures log == BatchLog(s, batch, post, plan, |batch|)
    ensures post ==>
              && log == [] && t.issues == s.issues && t.free == s.free
              && SameSlots(s.conns, t.conns) && AllPosted(batch, s.conns, t.conns)
  {
    assert batch[..|batch|] == batch;
  }

  lemma OneLogged(more: seq<Call>, fetched: seq<nat>, c: nat)
    requires c < |fetched| && forall k :: 0 <= k < |more| ==>
              Undetected(more[k]) && more[k].r.slot == c && more[k].before == fetched[c]
    ensures PassedCheck(more, fetched)
  {
  }

  /** A timer that expired: which of the expiries it was, whose event, and the slot and the event as its
      handler found them. */
  datatype Firing = Firing(index: nat, r: Ref, open: bool, timedout: bool)

  /** A turn that does nothing if the timer is not set; otherwise the timer is taken off, the event times out,
      and its handler runs. */
  ghost predicate Turn(s: State, x: Expiry, t: State) {
    && Sized(s) && Sized(t)
    && if x.r !in s.links.timers then t == s
       else
         && OpenIn(s, x.r.slot)
         && var c := s.conns[x.r.slot];
         && var d := if x.r.write then c.(write := c.write.(timerSet := false, timedout := true))
                     else c.(read := c.read.(timerSet := false, timedout := true));
         t == ApplyAll(s.(conns := s.conns[x.r.slot := d], links := s.links.(timers := s.links.timers - {x.r})), x.ops)
  }

  /** `states` are the states between the turns of the first `k` expiries, and `log` the handlers called. */
  ghost predicate Turns(s: State, expiries: seq<Expiry>, k: nat, states: seq<State>, log: seq<Firing>) {
    && k <= |expiries| && |states| == k + 1 && states[0] == s
    && (forall i :: 0 <= i < k ==> Turn(states[i], expiries[i], states[i + 1]))
    && (forall i :: 0 <= i < k ==>
          (expiries[i].r in states[i].links.timers <==> exists j :: 0 <= j < |log| && log[j].index == i))
    && (forall j :: 0 <= j < |log| ==> Proper(log[j], expiries, k))
    && (forall i, j :: 0 <= i < j < |log| ==> log[i].index < log[j].index)
  }

  ghost predicate Proper(f: Firing, expiries: seq<Expiry>, k: nat) {
    f.index < k <= |expiries| && f.r == expiries[f.index].r && f.open && f.timedout
  }

  lemma NoTurns(s: State, expiries: seq<Expiry>)
    ensures Turns(s, expiries, 0, [s], [])
  {
  }

  lemma OneTurn(s: State, expiries: seq<Expiry>, k: nat, states: seq<State>, log: seq<Firing>, t: State,
                more: seq<Firing>)
    requires Turns(s, expiries, k, states, log) && k < |expiries| && Turn(states[k], expiries[k], t)
    requires more == if expiries[k].r in states[k].links.timers then [Firing(k, expiries[k].r, true, true)] else []
    ensures Turns(s, expiries, k + 1, states + [t], log + more)
  {
    hide Turn;
    var states', log' := states + [t], log + more;
    forall i | 0 <= i < k + 1 ensures Turn(states'[i], expiries[i], states'[i + 1]) {
      assert i < k ==> Turn(states[i], expiries[i], states[i + 1]);
    }
    forall j | 0 <= j < |log'| ensures Proper(log'[j], expiries, k + 1) && (j < |log| ==> log'[j].index < k) {
      assert j < |log| ==> Proper(log[j], expiries, k);
    }
    forall i | 0 <= i < k + 1
      ensures expiries[i].r in states'[i].links.timers <==> exists j :: 0 <= j < |log'| && log'[j].index == i
    {
      assert states'[i] == states[i];
      if i < k {
        if j :| 0 <= j < |log| && log[j].index == i {
          assert log'[j].index == i;
        }
        if j :| 0 <= j < |log'| && log'[j].index == i {
          assert j < |log| && log[j].index == i;
        }
      } else if more != [] {
        assert log'[|log|].index == k;
      }
    }
  }

  ghost function TimedOut(s: State, r: Ref): (t: State)
    requires r.slot < |s.conns|
    ensures Sized(s) ==> Sized(t)
  {
    var t := TimerOf(s, r, false);
    With(t, r, Ev(t.conns[r.slot], r.write).(timedout := true))
  }

  lemma TimedOutIs(s: State, r: Ref)
    requires r.slot < |s.conns|
    ensures var c := s.conns[r.slot];
            var d := if r.write then c.(write := c.write.(timerSet := false, timedout := true))
                     else c.(read := c.read.(timerSet := false, timedout := true));
            TimedOut(s, r) == s.(conns := s.conns[r.slot := d], links := s.links.(timers := s.links.timers - {r}))
  {
    var t := TimedOut(s, r);
    assert t.conns == s.conns[r.slot := t.conns[r.slot]];
  }

  ghost function ExpireOf(s: State, expiry: Expiry): (t: State)
    requires Sized(s)
    ensures Sized(t)
  {
    if expiry.r !in s.links.timers || |s.conns| <= expiry.r.slot then s
    else
      ApplyAll(TimedOut(s, expiry.r), expiry.ops)
  }

  lemma NotSet(s: State, expiry: Expiry)
    requires Sized(s) && expiry.r !in s.links.timers
    ensures ExpireOf(s, expiry) == s
  {
  }

  ghost function ExpireAll(s: State, expiries: seq<Expiry>): (t: State)
    requires Sized(s)
    ensures Sized(t)
  {
    if expiries == [] then s else ExpireOf(ExpireAll(s, expiries[..|expiries| - 1]), expiries[|expiries| - 1])
  }

  // ---------- a table of one slot, recycled by a handler ----------

  /** The slot was handed out `m` times, the last time for `fd`. */
  ghost predicate OneOpen(s: State, fd: int, m: nat) {
    && |s.conns| == 1 && s.issues == [m] && s.free == []
    && s.conns[0].fd == fd >= 0
    && s.conns[0].read.instance == s.conns[0].write.instance == Even(m)
  }

  ghost predicate OneFree(s: State, m: nat) {
    && |s.conns| == 1 && s.issues == [m] && s.free == [0] && s.head == 0
    && s.conns[0].fd == NONE && s.conns[0].read.instance == Even(m)
  }

  lemma OneCloses(s: State, fd: int, m: nat)
    requires OneOpen(s, fd, m)
    ensures OneFree(Apply(s, Close(0)), m)
  {
    hide Cut;
  }

  lemma OneIssued(s: State, m: nat, fd: int)
    requires OneFree(s, m) && 0 <= fd
    ensures OneOpen(Apply(s, Get(fd, true)), fd, m + 1)
  {
  }

  lemma OneWatched(s: State, fd: int, m: nat)
    requires OneOpen(s, fd, m)
    ensures OneOpen(Apply(s, Watch(Ref(0, true), true, true)), fd, m)
    ensures Apply(s, Watch(Ref(0, true), true, true)).conns[0].write.active
  {
  }

  /** What a read handler does that closes its connection and twice accepts another one. */
  const RECYCLE := [Close(0), Get(8, true), Close(0), Get(9, true), Watch(Ref(0, true), true, true)]

  lemma OneRecycled(s: State, fd: int, m: nat)
    requires OneOpen(s, fd, m) && Sized(s)
    ensures OneOpen(ApplyAll(s, RECYCLE), 9, m + 2) && ApplyAll(s, RECYCLE).conns[0].write.active
  {
    hide Apply, OneOpen, OneFree;
    var s1 := Apply(s, Close(0));
    var s2 := Apply(s1, Get(8, true));
    var s3 := Apply(s2, Close(0));
    var s4 := Apply(s3, Get(9, true));
    OneCloses(s, fd, m);
    OneIssued(s1, m, 8);
    OneCloses(s2, 8, m + 1);
    OneIssued(s3, m + 1, 9);
    OneWatched(s4, 9, m + 2);
    assert RECYCLE[..0] == [];
    assert RECYCLE[..1][..0] == [] && RECYCLE[..2][..1] == RECYCLE[..1] && RECYCLE[..3][..2] == RECYCLE[..2];
    assert RECYCLE[..4][..3] == RECYCLE[..3] && RECYCLE[..5] == RECYCLE;
    assert ApplyAll(s, RECYCLE[..1]) == s1;
    assert ApplyAll(s, RECYCLE[..2]) == s2;
    assert ApplyAll(s, RECYCLE[..3]) == s3;
    assert ApplyAll(s, RECYCLE[..4]) == s4;
  }

  /** The write half of the report then reaches the second new connection. */
  lemma OneStale(s: State, e: Report, fd: int, m: nat)
    requires OneOpen(s, fd, m) && s.conns[0].read.active && s.conns[0].write.active
    requires e == Report(fd, 0, Even(m), true, true, false, false)
    ensures var reaction := Reaction(RECYCLE, []);
            && DispatchLog(s, e, m, false, reaction) ==
               [Call(Ref(0, false), m, m, true), Call(Ref(0, true), m, m + 2, true)]
            && OneOpen(DispatchOf(s, e, false, reaction), 9, m + 2)
  {
    var t := ReadyOf(s, e, false);
    assert OneOpen(t, fd, m);
    OneRecycled(t, fd, m);
    hide ApplyAll;
    var u := ApplyAll(t, RECYCLE);
    assert DeliverOf(s, e, false, false, RECYCLE) == u;
    assert ApplyAll(ReadyOf(u, e, true), []) == ReadyOf(u, e, true) by { NoneApplied(ReadyOf(u, e, true)); }
  }

  lemma OneReport(s: State, e: Report, plan: nat -> Reaction)
    requires Sized(s) && e.slot < |s.issues|
    ensures AfterReports(s, [e], false, plan, 1) == DispatchOf(s, e, false, plan(0))
    ensures BatchLog(s, [e], false, plan, 1) == DispatchLog(s, e, s.issues[e.slot], false, plan(0))
  {
    hide DispatchOf, DispatchLog;
    assert AfterReports(s, [e], false, plan, 0) == s && BatchLog(s, [e], false, plan, 0) == [];
  }

  lemma NoneApplied(s: State)
    requires Sized(s)
    ensures ApplyAll(s, []) == s
  {
  }
}
