/** The accept mutex: worker processes running process_events_and_timers (event.c) compete for one
    lock word (shmtx.c), and only a worker that holds it arms the listening socket (event_accept.c).

    A worker is a program counter and its own copies of the globals. One step touches the lock word
    at most once, so every interleaving of the processes is a sequence of steps. */
module AcceptMutex {

  /** Where a worker stands in process_events_and_timers. */
  datatype Pc =
    | Start
    | TryRead       // shmtx_trylock: the read of the lock word
    | TryCas        // shmtx_trylock: the compare-and-swap
    | Acquired      // trylock_accept_mutex with the lock
    | EnableFailed  // trylock_accept_mutex, about to unlock and fail
    | Refused       // trylock_accept_mutex without the lock
    | Wait          // epoll_process_events: waiting
    | Dispatch      // epoll_process_events: dispatching the batch
    | AcceptQueue   // event_process_posted(posted_accept_events)
    | Accepting(direct: bool)  // inside event_accept, called from the batch or from the queue
    | GiveUp(direct: bool)     // event_accept after too many open files, listener disarmed
    | Unlock
    | Expire        // event_expire_timers
    | Posted        // event_process_posted(posted_events)

  /** What the outside world does during a step. */
  datatype Happening = Nothing | Listener | Accepted | TooMany

  /** `ok` is the result of an epoll_ctl call, if the step makes one; handlers that run in the step leave
      `gained` more slots free, or fewer if it is negative. */
  datatype Input = Input(ok: bool, event: Happening, gained: int)

  const CONNECTION_N := 512           // cycle->connection_n
  const ALL_FREE := CONNECTION_N - 1  // the listener has a slot

  datatype Worker = Worker(
    pc: Pc,
    held: bool,       // accept_mutex_held
    armed: bool,      // the listening socket is registered with epoll
    disabled: int,    // accept_disabled
    tried: bool,      // this iteration went through trylock_accept_mutex
    post: bool,       // POST_EVENTS
    posted: bool,     // the listener is in posted_accept_events
    free: nat         // cycle->free_connection_n
  )

  /** A new worker; the listener has one of the slots. */
  const FRESH := Worker(Start, false, false, 0, false, false, false, ALL_FREE)

  /** The number of free slots when handlers have run. */
  function Gain(free: nat, gained: int): nat {
    if free + gained < 0 then 0 else if ALL_FREE < free + gained then ALL_FREE else free + gained
  }

  /** What event_accept does for one new connection: it sets accept_disabled, and get_connection takes a
      free slot if there is one. */
  function Accept(me: Worker): Worker {
    me.(disabled := CONNECTION_N / 8 - me.free, free := if me.free == 0 then 0 else me.free - 1)
  }

  /** atomic_cmp_set(lock, pid, 0) */
  function Release(lock: nat, pid: nat): nat { if lock == pid then 0 else lock }

  predicate RunsHandlers(pc: Pc) {
    pc.Dispatch? || pc.Accepting? || pc.Expire? || pc.Posted?
  }

  /** One step of a worker, and the lock word after it. */
  function Step(w: Worker, lock: nat, pid: nat, i: Input): (Worker, nat) {
    var me := if RunsHandlers(w.pc) then w.(free := Gain(w.free, i.gained)) else w;
    match me.pc
    case Start =>
      var begin := me.(post := false, posted := false);
      if 0 < me.disabled then (begin.(disabled := me.disabled - 1, tried := false, pc := Wait), lock)
      else (begin.(tried := true, pc := TryRead), lock)
    case TryRead =>
      (me.(pc := if lock == 0 then TryCas else Refused), lock)
    case TryCas =>
      if lock == 0 then (me.(pc := Acquired), pid) else (me.(pc := Refused), lock)
    case Acquired =>
      if me.held || me.armed || i.ok then
        (me.(held := true, armed := if me.held then me.armed else true, post := true, pc := Wait), lock)
      else (me.(pc := EnableFailed), lock)
    case EnableFailed =>
      (me.(pc := Start), Release(lock, pid))
    case Refused =>
      if !me.held then (me.(pc := Wait), lock)
      else if me.armed && !i.ok then (me.(pc := Start), lock)
      else (me.(held := false, armed := false, pc := Wait), lock)
    case Wait =>
      (me.(posted := me.post && me.armed && i.event == Listener, pc := Dispatch), lock)
    case Dispatch =>
      if i.event == Listener && me.armed && !me.post then (me.(pc := Accepting(true)), lock)
      else (me.(pc := AcceptQueue), lock)
    case AcceptQueue =>
      if me.posted then (me.(posted := false, pc := Accepting(false)), lock)
      else (me.(pc := Unlock), lock)
    case Accepting(direct) =>
      (match i.event
       case Accepted => (Accept(me), lock)
       case TooMany =>
         if me.armed && !i.ok then (me.(pc := if direct then Dispatch else AcceptQueue), lock)
         else (me.(armed := false, pc := GiveUp(direct)), lock)
       case _ => (me.(pc := if direct then Dispatch else AcceptQueue), lock))
    case GiveUp(direct) =>
      (me.(held := false, disabled := 1, pc := if direct then Dispatch else AcceptQueue),
       if me.held then Release(lock, pid) else lock)
    case Unlock =>
      (me.(pc := Expire), if me.held then Release(lock, pid) else lock)
    case Expire => (me.(pc := Posted), lock)
    case Posted => (me.(pc := Start), lock)
  }

  /** The system: one lock word and the workers. */
  datatype State = State(lock: nat, workers: seq<Worker>)

  /** A scheduled step: which worker moves, and on what input. */
  datatype Move = Move(who: nat, input: Input)

  ghost predicate Pids(pids: seq<nat>) {
    && (forall i :: 0 <= i < |pids| ==> pids[i] != 0)
    && (forall i, j :: 0 <= i < j < |pids| ==> pids[i] != pids[j])
  }

  function Init(pids: seq<nat>): State {
    State(0, seq(|pids|, i => FRESH))
  }

  function Next(s: State, pids: seq<nat>, move: Move): (t: State)
    requires |s.workers| == |pids|
    ensures |t.workers| == |pids|
  {
    if move.who < |pids| then
      var (w, lock) := Step(s.workers[move.who], s.lock, pids[move.who], move.input);
      State(lock, s.workers[move.who := w])
    else s
  }

  /** The state after any schedule whatsoever. */
  function Run(pids: seq<nat>, moves: seq<Move>): (s: State)
    ensures |s.workers| == |pids|
  {
    if moves == [] then Init(pids) else Next(Run(pids, moves[..|moves| - 1]), pids, moves[|moves| - 1])
  }

  // ---------- the invariant ----------

  /** From the wait to the unlock. */
  predicate Serving(pc: Pc) {
    pc.Wait? || pc.Dispatch? || pc.AcceptQueue? || pc.Accepting? || pc.GiveUp? || pc.Unlock?
  }

  predicate WorkerInv(me: Worker, owns: bool) {
    && (if me.pc.GiveUp? then !me.armed else me.held == me.armed)
    && (me.pc.TryRead? || me.pc.TryCas? || me.pc.Acquired? || me.pc.EnableFailed? || me.pc.Refused? ==> me.tried)
    && (me.pc.TryRead? || me.pc.TryCas? || me.pc.Refused? ==> !me.post)
    && (me.pc == Accepting(false) || me.pc == GiveUp(false) ==> !me.posted)
    && (me.pc.Wait? || me.pc.Dispatch? ==> (owns <==> me.post))
    && (me.pc == Accepting(true) || me.pc == GiveUp(true) ==> !owns && !me.post)
    && (owns ==> me.tried && (me.pc.Acquired? || me.pc.EnableFailed? || (Serving(me.pc) && me.held)))
    && (me.pc.Acquired? || me.pc.EnableFailed? || (Serving(me.pc) && me.tried && me.held) ==> owns)
  }

  ghost predicate Inv(s: State, pids: seq<nat>) {
    && Pids(pids) && |s.workers| == |pids|
    && (s.lock == 0 || exists i :: 0 <= i < |pids| && pids[i] == s.lock)
    && (forall i :: 0 <= i < |pids| ==> WorkerInv(s.workers[i], s.lock == pids[i]))
  }

  lemma PidsDiffer(pids: seq<nat>, i: nat, j: nat)
    requires Pids(pids) && i < |pids| && j < |pids|
    ensures pids[i] != 0 && (i != j ==> pids[i] != pids[j])
  {
    if i < j {
      assert pids[i] != pids[j];
    } else if j < i {
      assert pids[j] != pids[i];
    }
  }

  ghost predicate StepOk(me: Worker, lock: nat, pid: nat, i: Input) {
    var (w, lock') := Step(me, lock, pid, i);
    && WorkerInv(w, lock' == pid)
    && (lock' == lock || (lock == 0 && lock' == pid) || (lock == pid && lock' == 0))
  }

  lemma ServingStep(me: Worker, lock: nat, pid: nat, i: Input)
    requires pid != 0 && WorkerInv(me, lock == pid) && Serving(me.pc) && !me.pc.Accepting?
    ensures StepOk(me, lock, pid, i)
  {
  }

  lemma AcceptingStep(me: Worker, lock: nat, pid: nat, i: Input)
    requires pid != 0 && WorkerInv(me, lock == pid) && me.pc.Accepting?
    ensures StepOk(me, lock, pid, i)
  {
  }

  lemma OtherStep(me: Worker, lock: nat, pid: nat, i: Input)
    requires pid != 0 && WorkerInv(me, lock == pid) && !Serving(me.pc)
    ensures StepOk(me, lock, pid, i)
  {
  }

  /** A step of one worker keeps its own invariant and does not touch the ownership of others. */
  lemma StepKeepsWorker(me: Worker, lock: nat, pid: nat, i: Input)
    requires pid != 0 && WorkerInv(me, lock == pid)
    ensures StepOk(me, lock, pid, i)
  {
    hide Step, WorkerInv;
    if me.pc.Accepting? {
      AcceptingStep(me, lock, pid, i);
    } else if Serving(me.pc) {
      ServingStep(me, lock, pid, i);
    } else {
      OtherStep(me, lock, pid, i);
    }
  }

  lemma StepKeepsInv(s: State, pids: seq<nat>, move: Move)
    requires Inv(s, pids)
    ensures Inv(Next(s, pids, move), pids)
  {
    if move.who < |pids| {
      var t := Next(s, pids, move);
      var w := move.who;
      PidsDiffer(pids, w, w);
      StepKeepsWorker(s.workers[w], s.lock, pids[w], move.input);
      forall i | 0 <= i < |pids| ensures WorkerInv(t.workers[i], t.lock == pids[i]) {
        PidsDiffer(pids, i, w);
        assert WorkerInv(s.workers[i], s.lock == pids[i]);
      }
    }
  }

  lemma {:induction false} RunKeepsInv(pids: seq<nat>, moves: seq<Move>)
    requires Pids(pids)
    ensures Inv(Run(pids, moves), pids)
  {
    if moves != [] {
      RunKeepsInv(pids, moves[..|moves| - 1]);
      StepKeepsInv(Run(pids, moves[..|moves| - 1]), pids, moves[|moves| - 1]);
    }
  }

  // ---------- what every run guarantees ----------

  /** A worker that waits on the listening socket. */
  predicate Listening(me: Worker) { me.pc.Wait? && me.armed }

  /** A worker whose iteration went through the try-lock waits with an armed listener only if it
      owns the lock, so no two such workers wait on the listener at a time. */
  lemma MutualExclusion(pids: seq<nat>, moves: seq<Move>, i: nat, j: nat)
    requires Pids(pids) && i < |pids| && j < |pids|
    ensures var s := Run(pids, moves);
            && (Listening(s.workers[i]) && s.workers[i].tried ==> s.lock == pids[i])
            && ((Listening(s.workers[i]) && s.workers[i].tried
                 && Listening(s.workers[j]) && s.workers[j].tried) ==> i == j)
  {
    RunKeepsInv(pids, moves);
    var s := Run(pids, moves);
    assert WorkerInv(s.workers[i], s.lock == pids[i]) && WorkerInv(s.workers[j], s.lock == pids[j]);
    PidsDiffer(pids, i, j);
  }

  /** No worker owns the lock while it runs expired timers or ordinary posted events, or between
      iterations, and then accept_mutex_held says exactly that the listener is armed. */
  lemma LockIsConfined(pids: seq<nat>, moves: seq<Move>, i: nat)
    requires Pids(pids) && i < |pids|
    ensures var s := Run(pids, moves);
            var me := s.workers[i];
            && (me.pc.Expire? || me.pc.Posted? || me.pc.Start? ==> s.lock != pids[i])
            && (!me.pc.GiveUp? ==> me.held == me.armed)
            && (s.lock == pids[i] ==> me.tried)
  {
    RunKeepsInv(pids, moves);
    var s := Run(pids, moves);
    assert WorkerInv(s.workers[i], s.lock == pids[i]);
  }

  /** A worker that waits on an armed listener owns the lock if and only if its iteration went through the
      try-lock. */
  lemma OwnsIffTried(pids: seq<nat>, moves: seq<Move>, i: nat)
    requires Pids(pids) && i < |pids|
    ensures var s := Run(pids, moves);
            Listening(s.workers[i]) ==> (s.lock == pids[i] <==> s.workers[i].tried)
  {
    MutualExclusion(pids, moves, i, i);
    LockIsConfined(pids, moves, i);
  }

  /** A worker waits and dispatches with POST_EVENTS if and only if it owns the lock: then no handler runs
      before the batch is done. */
  lemma PostsIffOwns(pids: seq<nat>, moves: seq<Move>, i: nat)
    requires Pids(pids) && i < |pids|
    ensures var s := Run(pids, moves);
            s.workers[i].pc.Wait? || s.workers[i].pc.Dispatch? ==> (s.lock == pids[i] <==> s.workers[i].post)
  {
    RunKeepsInv(pids, moves);
    var s := Run(pids, moves);
    assert WorkerInv(s.workers[i], s.lock == pids[i]);
  }

  const QUIET := Input(true, Nothing, 0)

  /** How many steps an owner is from the unlock when nothing else happens. */
  function Distance(me: Worker): nat {
    match me.pc
    case EnableFailed => 1
    case Acquired => 8
    case Wait => 7
    case Accepting(true) => 6
    case GiveUp(true) => 6
    case Dispatch => 5
    case Accepting(false) => 3
    case GiveUp(false) => 3
    case AcceptQueue => if me.posted then 4 else 2
    case Unlock => 1
    case _ => 0
  }

  function Alone(s: State, pids: seq<nat>, who: nat, n: nat): (t: State)
    requires |s.workers| == |pids|
    ensures |t.workers| == |pids|
    decreases n
  {
    if n == 0 then s else Alone(Next(s, pids, Move(who, QUIET)), pids, who, n - 1)
  }

  /** The lock is never lost: whenever it is taken, its owner is a worker whose own next few steps
      give it back, whatever the others have done. */
  lemma {:induction false} NeverOrphaned(s: State, pids: seq<nat>, who: nat)
    requires Inv(s, pids) && who < |pids| && s.lock == pids[who]
    ensures exists n: nat :: n <= 8 && Alone(s, pids, who, n).lock == 0
    ensures exists n: nat :: n <= Distance(s.workers[who]) && Alone(s, pids, who, n).lock == 0
    decreases Distance(s.workers[who])
  {
    assert WorkerInv(s.workers[who], true);
    var t := Next(s, pids, Move(who, QUIET));
    StepKeepsInv(s, pids, Move(who, QUIET));
    assert Alone(t, pids, who, 0) == t;
    assert Alone(s, pids, who, 1) == t;
    if t.lock != 0 {
      assert t.lock == pids[who] && Distance(t.workers[who]) < Distance(s.workers[who]);
      NeverOrphaned(t, pids, who);
      var n: nat :| n <= Distance(t.workers[who]) && Alone(t, pids, who, n).lock == 0;
      assert Alone(s, pids, who, n + 1) == Alone(t, pids, who, n);
    }
  }

  lemma LockHasOwner(pids: seq<nat>, moves: seq<Move>)
    requires Pids(pids)
    ensures var s := Run(pids, moves);
            s.lock != 0 ==>
              exists i, n: nat :: 0 <= i < |pids| && s.lock == pids[i] && n <= 8 && Alone(s, pids, i, n).lock == 0
  {
    RunKeepsInv(pids, moves);
    var s := Run(pids, moves);
    if s.lock != 0 {
      var i :| 0 <= i < |pids| && pids[i] == s.lock;
      NeverOrphaned(s, pids, i);
    }
  }

  ghost function Then(pids: seq<nat>, moves: seq<Move>, who: nat, event: Happening): (r: seq<Move>)
    ensures Run(pids, r) == Next(Run(pids, moves), pids, Move(who, Input(true, event, 0)))
  {
    assert (moves + [Move(who, Input(true, event, 0))])[..|moves|] == moves;
    moves + [Move(who, Input(true, event, 0))]
  }

  /** What surrounds one step of a worker: the lock word it finds, and its input. */
  datatype Around = Around(lock: nat, input: Input)

  /** A worker after some steps of its own, whatever the others do to the lock word between them, and how
      many iterations it has begun. */
  function After(w: Worker, pid: nat, steps: seq<Around>): (Worker, nat) {
    if steps == [] then (w, 0)
    else
      var n := |steps| - 1;
      var (v, begun) := After(w, pid, steps[..n]);
      (Step(v, steps[n].lock, pid, steps[n].input).0, begun + if v.pc == Start then 1 else 0)
  }

  /** The worker accepts nothing and meets no file limit in these steps. */
  ghost predicate AcceptsNothing(steps: seq<Around>) {
    forall k :: 0 <= k < |steps| ==> steps[k].input.event != Accepted && steps[k].input.event != TooMany
  }

  /** With accept_disabled at `d` a worker skips the try-lock in exactly its next `d` iterations, each of which
      lowers accept_disabled by one, and goes through it in the one after. */
  lemma {:induction false} SkipsExactly(w: Worker, pid: nat, steps: seq<Around>)
    requires w.pc == Start && 0 < w.disabled && AcceptsNothing(steps)
    ensures var (v, begun) := After(w, pid, steps);
            begun <= w.disabled ==>
              && v.disabled == w.disabled - begun && !InTry(v.pc) && !v.pc.GiveUp? && (0 < begun ==> !v.tried)
              && (v.pc == Start ==>
                    forall lock, i :: Step(v, lock, pid, i).0.pc == if begun < w.disabled then Wait else TryRead)
  {
    if steps != [] {
      var n := |steps| - 1;
      SkipsExactly(w, pid, steps[..n]);
      var (v, begun) := After(w, pid, steps[..n]);
      if begun <= w.disabled {
        assert steps[n].input.event != Accepted && steps[n].input.event != TooMany;
        Undisturbed(v, steps[n].lock, pid, steps[n].input);
      }
    }
  }

  predicate InTry(pc: Pc) {
    pc.TryRead? || pc.TryCas? || pc.Acquired? || pc.EnableFailed? || pc.Refused?
  }

  lemma Undisturbed(v: Worker, lock: nat, pid: nat, i: Input)
    requires !InTry(v.pc) && !v.pc.GiveUp? && i.event != Accepted && i.event != TooMany
    ensures var u := Step(v, lock, pid, i).0;
            if v.pc == Start then
              if 0 < v.disabled then u.pc == Wait && u.disabled == v.disabled - 1 && !u.tried
              else u.pc == TryRead && u.tried
            else !InTry(u.pc) && !u.pc.GiveUp? && u.disabled == v.disabled && u.tried == v.tried
  {
  }

  /** Too many open files, and epoll lets go of the listener: in two steps the worker has given the lock
      back if it owned it, its listener is disarmed, and it skips its next iteration. */
  lemma TooManyFiles(pids: seq<nat>, moves: seq<Move>, who: nat) returns (r: seq<Move>)
    requires Pids(pids) && who < |pids| && Run(pids, moves).workers[who].pc.Accepting?
    ensures var s, t := Run(pids, moves), Run(pids, r);
            var w, v := s.workers[who], t.workers[who];
            && !v.held && !v.armed && v.disabled == 1
            && v.pc == (if w.pc.direct then Dispatch else AcceptQueue)
            && t.lock == (if s.lock == pids[who] then 0 else s.lock)
            && forall i :: 0 <= i < |pids| && i != who ==> t.workers[i] == s.workers[i]
  {
    RunKeepsInv(pids, moves);
    assert WorkerInv(Run(pids, moves).workers[who], Run(pids, moves).lock == pids[who]);
    hide Run;
    r := Then(pids, Then(pids, moves, who, TooMany), who, Nothing);
  }

  /** A free lock, a worker at the start: four steps of its own and it owns the lock and listens. */
  lemma GetsLock(pids: seq<nat>, moves: seq<Move>, who: nat) returns (r: seq<Move>)
    requires Pids(pids) && who < |pids| && Run(pids, moves).lock == 0 && Run(pids, moves).workers[who] == FRESH
    ensures Run(pids, r) ==
            State(pids[who], Run(pids, moves).workers[who := Worker(Wait, true, true, 0, true, true, false, ALL_FREE)])
  {
    hide Run;
    r := Then(pids, Then(pids, moves, who, Nothing), who, Nothing);
    assert Run(pids, r) == State(0, Run(pids, moves).workers[who := FRESH.(pc := TryCas, tried := true)]);
    r := Then(pids, Then(pids, r, who, Nothing), who, Nothing);
  }

  /** event_accept goes on accepting while there are connections: `n` of them take `n` slots, and
      accept_disabled is what the last one left. */
  lemma {:induction false} AcceptsMany(pids: seq<nat>, moves: seq<Move>, who: nat, n: nat) returns (r: seq<Move>)
    requires Pids(pids) && who < |pids| && Run(pids, moves).workers[who].pc.Accepting?
    requires 0 < n <= Run(pids, moves).workers[who].free < CONNECTION_N
    ensures var s := Run(pids, moves);
            var me := s.workers[who];
            var last := me.(free := me.free - n, disabled := CONNECTION_N / 8 - (me.free - n + 1));
            Run(pids, r) == State(s.lock, s.workers[who := last])
    decreases n
  {
    hide Run;
    var s := Run(pids, moves);
    r := Then(pids, moves, who, Accepted);
    assert Run(pids, r) == State(s.lock, s.workers[who := Accept(s.workers[who])]);
    if 1 < n {
      r := AcceptsMany(pids, r, who, n - 1);
    }
  }

  /** How many connections make accept_disabled positive, for a worker that had none. */
  const BUSY := CONNECTION_N - CONNECTION_N / 8 + 1
  const LEFT := ALL_FREE - BUSY

  /** An owner accepts so many connections at once... */
  lemma Serves(pids: seq<nat>, moves: seq<Move>, who: nat) returns (r: seq<Move>)
    requires Pids(pids) && who < |pids| && Run(pids, moves).lock == pids[who]
    requires Run(pids, moves).workers[who] == Worker(Wait, true, true, 0, true, true, false, ALL_FREE)
    ensures Run(pids, r) ==
            State(pids[who], Run(pids, moves).workers[who := Worker(Unlock, true, true, 1, true, true, false, LEFT)])
  {
    hide Run;
    var ws := Run(pids, moves).workers;
    r := Then(pids, Then(pids, Then(pids, moves, who, Listener), who, Nothing), who, Nothing);
    var accepting := Worker(Accepting(false), true, true, 0, true, true, false, ALL_FREE);
    assert Run(pids, r) == State(pids[who], ws[who := accepting]);
    r := AcceptsMany(pids, r, who, BUSY);
    assert Run(pids, r) == State(pids[who], ws[who := accepting.(disabled := 1, free := LEFT)]);
    r := Then(pids, Then(pids, r, who, Nothing), who, Nothing);
  }

  /** ... that it skips the lock next time, with its listener still armed. */
  lemma ServesAndSkips(pids: seq<nat>, moves: seq<Move>, who: nat) returns (r: seq<Move>)
    requires Pids(pids) && who < |pids| && Run(pids, moves).lock == pids[who]
    requires Run(pids, moves).workers[who] == Worker(Wait, true, true, 0, true, true, false, ALL_FREE)
    ensures Run(pids, r) ==
            State(0, Run(pids, moves).workers[who := Worker(Wait, true, true, 0, false, false, false, LEFT)])
  {
    hide Run;
    PidsDiffer(pids, who, who);
    var ws := Run(pids, moves).workers;
    r := Serves(pids, moves, who);
    r := Then(pids, Then(pids, r, who, Nothing), who, Nothing);
    assert Run(pids, r) == State(0, ws[who := Worker(Posted, true, true, 1, true, true, false, LEFT)]);
    r := Then(pids, Then(pids, r, who, Nothing), who, Nothing);
  }

  /** The qualification in `MutualExclusion` is needed: a worker that skips the try-lock because
      accept_disabled is positive keeps waiting on a listener it armed before, beside the owner. */
  lemma SkippingWorkerListensToo()
    ensures exists pids, moves :: Pids(pids) && |pids| == 2 &&
              var s := Run(pids, moves);
              Listening(s.workers[0]) && Listening(s.workers[1]) && s.lock == pids[1]
  {
    var pids := [1, 2];
    assert Run(pids, []) == Init(pids);
    var m := GetsLock(pids, [], 0);
    m := ServesAndSkips(pids, m, 0);
    m := GetsLock(pids, m, 1);
    assert Pids(pids) && Listening(Run(pids, m).workers[0]) && Run(pids, m).lock == pids[1];
  }
}
