/** The POSIX binary semaphore of libosal (src/posix/binary_semaphore.c): a bit behind a mutex and a
    condition variable, as the steps of any number of threads.

    A step is one statement of one thread, or a decision of the system: which blocked threads a
    signal unblocks (at least one, if any is blocked), a spurious wakeup, or a timeout.  A thread
    whose time is up may consume a signal that is sent at that moment
    (IEEE Std 1003.1-2017, pthread_cond_timedwait). */
module BinarySemaphore {

  type Tid = nat

  /** The four calls; TimedWait has a non-null timeout. */
  datatype Op = Post | Wait | TryWait | TimedWait {
    predicate Blocks() { Wait? || TimedWait? }
  }

  datatype Return = Ok | Busy | TimedOut

  datatype Call = Call(op: Op, ret: Return)

  /** Where a thread is.  From Test to Unlock it holds the mutex. */
  datatype Pc =
    | Idle
    | Lock(op: Op)                      // about to lock the mutex
    | Test(op: Op)                      // about to read the value
    | SetOne(op: Op)                    // about to set the value to 1
    | Signal(op: Op)                    // about to signal the condition variable
    | Block(op: Op)                     // about to wait on the condition variable
    | Blocked(op: Op)                   // waiting; the mutex is released
    | Woken(op: Op, timedOut: bool)     // unblocked, about to lock the mutex again
    | Clear(op: Op)                     // about to set the value to 0
    | Unlock(op: Op, ret: Return)       // about to unlock the mutex and return
  {
    predicate Holds() { Test? || SetOne? || Signal? || Block? || Clear? || Unlock? }
  }

  /** The effect of a call, recorded when it happens. */
  datatype Event = PostSet(t: Tid) | PostFull(t: Tid) | Take(t: Tid) | TryBusy(t: Tid) | TimeOut(t: Tid)

  /** The effects that a call may have, and what it returns after each. */
  predicate Explains(e: Event, c: Call) {
    match e
    case PostSet(_) => c == Call(Post, Ok)
    case PostFull(_) => c == Call(Post, Ok)
    case Take(_) => c.op != Post && c.ret == Ok
    case TryBusy(_) => c == Call(TryWait, Busy)
    case TimeOut(_) => c == Call(TimedWait, TimedOut)
  }

  /** `history` holds the calls of each thread that have returned; `swallowed` records that the
      signal for the value's last rise went to waits whose time was up, and to no other. */
  datatype State = State(value: int, holder: set<Tid>, pcs: map<Tid, Pc>, log: seq<Event>, history: map<Tid, seq<Call>>,
                         swallowed: bool) {
    function At(t: Tid, pc: Pc): State
      requires t in pcs
    {
      this.(pcs := pcs[t := pc])
    }

    predicate IsBlocked(t: Tid) { t in pcs && pcs[t].Blocked? }
  }

  predicate Init(s: State) {
    s.value == 0 && s.holder == {} && s.log == [] && !s.swallowed && s.history.Keys == s.pcs.Keys
    && forall t <- s.pcs :: s.pcs[t] == Idle && s.history[t] == []
  }

  ghost predicate SomeBlocked(s: State) {
    exists t :: s.IsBlocked(t)
  }

  /** A signal may wake these threads: blocked ones, and at least one if there is any. */
  ghost predicate Wakes(s: State, w: set<Tid>) {
    (forall u <- w :: s.IsBlocked(u)) && (SomeBlocked(s) ==> w != {})
  }

  /** The blocked threads in `w` are unblocked by a signal, those in `late` as their time is up. */
  function Unblock(pcs: map<Tid, Pc>, w: set<Tid>, late: set<Tid>): map<Tid, Pc> {
    map t | t in pcs :: if t in w && pcs[t].Blocked? then Woken(pcs[t].op, t in late) else pcs[t]
  }

  ghost predicate SignalStep(s: State, t: Tid, w: set<Tid>, late: set<Tid>, s': State)
    requires t in s.pcs && s.pcs[t].Signal?
  {
    && Wakes(s, w) && late <= w && (forall u <- late :: s.pcs[u].op.TimedWait?)
    && s' == s.(pcs := Unblock(s.pcs, w, late)[t := Unlock(s.pcs[t].op, Ok)], swallowed := w != {} && w == late)
  }

  /** The statement that thread t executes next. */
  ghost predicate ThreadStep(s: State, t: Tid, s': State)
    requires t in s.pcs && t in s.history
  {
    match s.pcs[t]
    case Idle => exists op: Op :: s' == s.At(t, Lock(op))
    case Lock(op) => s.holder == {} && s' == s.At(t, Test(op)).(holder := {t})
    case Test(op) =>
      if op.Post? then
        if s.value == 0 then s' == s.At(t, SetOne(op))
        else s' == s.At(t, Unlock(op, Ok)).(log := s.log + [PostFull(t)])
      else if s.value != 0 then s' == s.At(t, Clear(op))
      else if op.Blocks() then s' == s.At(t, Block(op))
      else s' == s.At(t, Unlock(op, Busy)).(log := s.log + [TryBusy(t)])
    case SetOne(op) => s' == s.At(t, Signal(op)).(value := 1, log := s.log + [PostSet(t)], swallowed := false)
    case Signal(op) => exists w: set<Tid>, late: set<Tid> :: SignalStep(s, t, w, late, s')
    case Block(op) => s' == s.At(t, Blocked(op)).(holder := {})
    case Blocked(op) => false
    case Woken(op, timedOut) =>
      s.holder == {} &&
      if timedOut then s' == s.At(t, Unlock(op, TimedOut)).(holder := {t}, log := s.log + [TimeOut(t)])
      else s' == s.At(t, Test(op)).(holder := {t})
    case Clear(op) => s' == s.At(t, Unlock(op, Ok)).(value := 0, log := s.log + [Take(t)])
    case Unlock(op, ret) =>
      s' == s.At(t, Idle).(holder := {}, history := s.history[t := s.history[t] + [Call(op, ret)]])
  }

  /** A blocked thread wakes without a signal: spuriously, or because its time is up. */
  predicate WakeStep(s: State, t: Tid, s': State)
    requires t in s.pcs
  {
    s.pcs[t].Blocked? &&
    (|| s' == s.At(t, Woken(s.pcs[t].op, false))
     || (s.pcs[t].op.TimedWait? && s' == s.At(t, Woken(s.pcs[t].op, true))))
  }

  ghost predicate Step(s: State, s': State) {
    s.history.Keys == s.pcs.Keys && exists t <- s.pcs :: ThreadStep(s, t, s') || WakeStep(s, t, s')
  }

  ghost predicate IsRun(run: seq<State>) {
    && run != [] && Init(run[0])
    && forall i :: 0 <= i < |run| - 1 ==> Step(run[i], run[i + 1])
  }

  ghost predicate Reachable(s: State) {
    exists run :: IsRun(run) && run[|run| - 1] == s
  }

  /** All calls in progress are of these kinds. */
  ghost predicate CallsFrom(s: State, ops: set<Op>) {
    forall t <- s.pcs :: s.pcs[t] != Idle ==> s.pcs[t].op in ops
  }

  ghost predicate IsRunOf(run: seq<State>, ops: set<Op>) {
    IsRun(run) && forall i :: 0 <= i < |run| ==> CallsFrom(run[i], ops)
  }

  /** Reachable by a run in which no other calls are made. */
  ghost predicate ReachableBy(s: State, ops: set<Op>) {
    exists run :: IsRunOf(run, ops) && run[|run| - 1] == s
  }

  // ------------------------------------------------- the atomic semaphore it implements

  /** One event on an atomic binary semaphore; -1 stands for an event that cannot happen. */
  function Apply(v: int, e: Event): int {
    match e
    case PostSet(_) => if v == 0 then 1 else -1
    case PostFull(_) => if v == 1 then 1 else -1
    case Take(_) => if v == 1 then 0 else -1
    case TryBusy(_) => if v == 0 then 0 else -1
    case TimeOut(_) => v
  }

  function Replay(log: seq<Event>): int {
    if log == [] then 0 else Apply(Replay(log[..|log| - 1]), log[|log| - 1])
  }

  function Posts(log: seq<Event>): nat {
    if log == [] then 0 else Posts(log[..|log| - 1]) + if log[|log| - 1].PostSet? then 1 else 0
  }

  function Takes(log: seq<Event>): nat {
    if log == [] then 0 else Takes(log[..|log| - 1]) + if log[|log| - 1].Take? then 1 else 0
  }

  /** The effects of the calls of thread t. */
  function EventsOf(log: seq<Event>, t: Tid): seq<Event> {
    if log == [] then [] else EventsOf(log[..|log| - 1], t) + if log[|log| - 1].t == t then [log[|log| - 1]] else []
  }

  lemma LogGrows(log: seq<Event>, e: Event)
    ensures Replay(log + [e]) == Apply(Replay(log), e)
  {
    assert (log + [e])[..|log|] == log;
  }

  lemma EventsGrow(log: seq<Event>, e: Event, t: Tid)
    ensures EventsOf(log + [e], t) == EventsOf(log, t) + if e.t == t then [e] else []
  {
    assert (log + [e])[..|log|] == log;
  }

  // ------------------------------------------------------------------ the invariant

  /** The mutex excludes: a thread is inside exactly when it is the holder. */
  ghost predicate Exclusive(s: State) {
    && (forall t <- s.pcs :: s.pcs[t].Holds() <==> t in s.holder)
    && (forall t <- s.holder :: t in s.pcs && s.holder == {t})
  }

  ghost predicate InformedAt(s: State, pc: Pc) {
    && (pc.SetOne? ==> s.value == 0 && pc.op.Post?)
    && (pc.Signal? ==> s.value == 1 && pc.op.Post?)
    && (pc.Block? ==> s.value == 0 && pc.op.Blocks())
    && (pc.Clear? ==> s.value == 1 && !pc.op.Post?)
    && (pc.Blocked? ==> pc.op.Blocks())
    && (pc.Woken? ==> pc.op.Blocks() && (pc.timedOut ==> pc.op.TimedWait?))
  }

  /** What a thread inside has learnt about the value still holds. */
  ghost predicate Informed(s: State) {
    forall t <- s.pcs :: InformedAt(s, s.pcs[t])
  }

  /** A thread that is certain to look at the value, or to wake one that will. */
  predicate WillNotice(pc: Pc) {
    || (pc.Woken? && !pc.timedOut)
    || (pc.Test? && !pc.op.Post?)
    || pc.Clear? || pc.Signal?
  }

  ghost predicate SomeNoticer(s: State) {
    exists u <- s.pcs :: WillNotice(s.pcs[u])
  }

  /** No wakeup is lost. */
  ghost predicate Noticed(s: State) {
    s.value == 1 && SomeBlocked(s) ==> SomeNoticer(s)
  }

  /** The effects so far are a history of an atomic semaphore, ending in its present value. */
  ghost predicate Linear(s: State) {
    Replay(s.log) == s.value
  }

  /** The call of a thread, once it has had its effect. */
  function Decided(pc: Pc): seq<Call> {
    if pc.Unlock? then [Call(pc.op, pc.ret)] else if pc.Signal? then [Call(pc.op, Ok)] else []
  }

  ghost predicate ExplainsAll(events: seq<Event>, calls: seq<Call>) {
    |events| == |calls| && forall i :: 0 <= i < |events| ==> Explains(events[i], calls[i])
  }

  /** Every call has exactly one effect, one of its own kind, between its start and its return. */
  ghost predicate Explained(s: State) {
    && s.history.Keys == s.pcs.Keys
    && forall t <- s.pcs :: ExplainsAll(EventsOf(s.log, t), s.history[t] + Decided(s.pcs[t]))
  }

  ghost predicate Inv(s: State) {
    && s.value in {0, 1}
    && Exclusive(s) && Informed(s) && (Noticed(s) || s.swallowed) && Linear(s) && Explained(s)
  }

  lemma InitInv(s: State)
    requires Init(s)
    ensures Inv(s)
  {
  }

  lemma ThreadExclusive(s: State, t: Tid, s': State)
    requires s.value in {0, 1} && Exclusive(s) && t in s.pcs && t in s.history && ThreadStep(s, t, s')
    ensures s'.value in {0, 1} && Exclusive(s')
  {
  }

  lemma ThreadInformed(s: State, t: Tid, s': State)
    requires s.value in {0, 1} && Exclusive(s) && Informed(s) && t in s.pcs && t in s.history && ThreadStep(s, t, s')
    ensures Informed(s')
  {
    forall u <- s.pcs | u != t && s.pcs[t].Holds() ensures !s.pcs[u].Holds() {
      assert u !in s.holder;
    }
  }

  lemma ThreadNoticed(s: State, t: Tid, s': State)
    requires Inv(s) && t in s.pcs && ThreadStep(s, t, s')
    ensures Noticed(s') || s'.swallowed
  {
    if s'.value == 1 && SomeBlocked(s') {
      var b :| s'.IsBlocked(b);
      assert InformedAt(s, s.pcs[t]);
      if s.pcs[t].Signal? {
        SignalNotices(s, t, s', b);
      } else if s.pcs[t].SetOne? {
        assert WillNotice(s'.pcs[t]);
      } else if !s.swallowed {
        assert b != t && s.IsBlocked(b);
        var u :| u in s.pcs && WillNotice(s.pcs[u]);
        assert WillNotice(s'.pcs[u]);
      }
    }
  }

  /** A signal that leaves a thread blocked has woken another, which will look at the value unless
      it was swallowed. */
  lemma SignalNotices(s: State, t: Tid, s': State, b: Tid)
    requires Inv(s) && t in s.pcs && ThreadStep(s, t, s') && s.pcs[t].Signal? && s'.IsBlocked(b)
    ensures SomeNoticer(s') || s'.swallowed
  {
    var w: set<Tid>, late: set<Tid> :| SignalStep(s, t, w, late, s');
    assert s.IsBlocked(b);
    if w != late {
      var u :| u in w && u !in late;
      assert s.IsBlocked(u) && s'.pcs[u] == Woken(s.pcs[u].op, false);
      assert WillNotice(s'.pcs[u]);
    }
  }

  /** The value changes as its effect says. */
  lemma ThreadApplies(s: State, t: Tid, s': State) returns (e: Event)
    requires s.value in {0, 1} && t in s.pcs && t in s.history && InformedAt(s, s.pcs[t]) && ThreadStep(s, t, s')
    ensures s'.log == s.log || s'.log == s.log + [e]
    ensures s'.value == if s'.log == s.log then s.value else Apply(s.value, e)
  {
    e := if s'.log == s.log then Take(t) else s'.log[|s.log|];
  }

  lemma ThreadLinear(s: State, t: Tid, s': State)
    requires s.value in {0, 1} && Linear(s) && t in s.pcs && t in s.history && InformedAt(s, s.pcs[t]) && ThreadStep(s, t, s')
    ensures Linear(s')
  {
    var e := ThreadApplies(s, t, s');
    LogGrows(s.log, e);
  }

  /** Between s and s' nothing has changed in the account of the threads other than t. */
  ghost predicate OthersKept(s: State, t: Tid, s': State) {
    && s'.pcs.Keys == s.pcs.Keys && s'.history.Keys == s.history.Keys
    && (forall u <- s.pcs :: u != t ==> Decided(s'.pcs[u]) == Decided(s.pcs[u]))
    && (forall u <- s.history :: u != t ==> s'.history[u] == s.history[u])
  }

  /** Thread t has had no effect and its decided calls are the same, or it has had the effect e,
      which decides its call c. */
  ghost predicate Accounts(s: State, t: Tid, s': State, e: Event, c: Call)
    requires t in s.pcs && t in s.history && OthersKept(s, t, s')
  {
    var before, after := s.history[t] + Decided(s.pcs[t]), s'.history[t] + Decided(s'.pcs[t]);
    || (s'.log == s.log && after == before)
    || (s'.log == s.log + [e] && e.t == t && after == before + [c] && Explains(e, c))
  }

  lemma ThreadKeepsOthers(s: State, t: Tid, s': State)
    requires t in s.pcs && t in s.history && ThreadStep(s, t, s')
    ensures OthersKept(s, t, s')
  {
  }

  /** Every step of a thread is one or the other. */
  lemma ThreadAccount(s: State, t: Tid, s': State) returns (e: Event, c: Call)
    requires t in s.pcs && t in s.history && InformedAt(s, s.pcs[t]) && ThreadStep(s, t, s')
    ensures OthersKept(s, t, s') && Accounts(s, t, s', e, c)
  {
    ThreadKeepsOthers(s, t, s');
    if s'.log == s.log {
      e, c := Take(t), Call(Post, Ok);
      ThreadQuiet(s, t, s');
    } else {
      e, c := ThreadEffect(s, t, s');
    }
  }

  lemma ThreadQuiet(s: State, t: Tid, s': State)
    requires t in s.pcs && t in s.history && ThreadStep(s, t, s') && s'.log == s.log
    ensures t in s'.pcs && t in s'.history && s'.history[t] + Decided(s'.pcs[t]) == s.history[t] + Decided(s.pcs[t])
  {
  }

  lemma ThreadEffect(s: State, t: Tid, s': State) returns (e: Event, c: Call)
    requires t in s.pcs && t in s.history && InformedAt(s, s.pcs[t]) && ThreadStep(s, t, s') && s'.log != s.log
    ensures t in s'.pcs && s'.history == s.history && Decided(s.pcs[t]) == [] && Decided(s'.pcs[t]) == [c]
    ensures s'.log == s.log + [e] && e.t == t && Explains(e, c)
  {
    e := s'.log[|s.log|];
    c := Decided(s'.pcs[t])[0];
  }

  lemma ThreadExplained(s: State, t: Tid, s': State)
    requires Inv(s) && t in s.pcs && ThreadStep(s, t, s')
    ensures Explained(s')
  {
    assert InformedAt(s, s.pcs[t]);
    var e, c := ThreadAccount(s, t, s');
    forall u <- s'.pcs ensures ExplainsAll(EventsOf(s'.log, u), s'.history[u] + Decided(s'.pcs[u])) {
      AccountExplained(s, t, s', e, c, u);
    }
  }

  lemma AccountExplained(s: State, t: Tid, s': State, e: Event, c: Call, u: Tid)
    requires s.history.Keys == s.pcs.Keys && t in s.pcs && u in s.pcs && OthersKept(s, t, s') && Accounts(s, t, s', e, c)
    requires ExplainsAll(EventsOf(s.log, u), s.history[u] + Decided(s.pcs[u]))
    ensures ExplainsAll(EventsOf(s'.log, u), s'.history[u] + Decided(s'.pcs[u]))
  {
    EventsGrow(s.log, e, u);
    var calls := s.history[u] + Decided(s.pcs[u]);
    if u == t && s'.log != s.log {
      ExplainsMore(EventsOf(s.log, u), calls, e, c);
    } else {
      assert EventsOf(s'.log, u) == EventsOf(s.log, u) + [];
      assert s'.history[u] + Decided(s'.pcs[u]) == calls;
    }
  }

  lemma ExplainsMore(events: seq<Event>, calls: seq<Call>, e: Event, c: Call)
    requires ExplainsAll(events, calls) && Explains(e, c)
    ensures ExplainsAll(events + [e], calls + [c])
  {
  }

  lemma WakeInv(s: State, t: Tid, s': State)
    requires Inv(s) && t in s.pcs && WakeStep(s, t, s')
    ensures Inv(s')
  {
    WakeInformed(s, t, s');
    WakeNoticed(s, t, s');
    WakeExplained(s, t, s');
  }

  lemma WakeInformed(s: State, t: Tid, s': State)
    requires Exclusive(s) && Informed(s) && t in s.pcs && WakeStep(s, t, s')
    ensures Exclusive(s') && Informed(s')
  {
    assert forall u <- s.pcs :: u != t ==> s'.pcs[u] == s.pcs[u];
    assert forall u <- s.pcs :: InformedAt(s, s.pcs[u]);
  }

  lemma WakeNoticed(s: State, t: Tid, s': State)
    requires Inv(s) && t in s.pcs && WakeStep(s, t, s')
    ensures Noticed(s') || s'.swallowed
  {
    if s.value == 1 && SomeNoticer(s) {
      var u :| u in s.pcs && WillNotice(s.pcs[u]);
      assert WillNotice(s'.pcs[u]);
    } else if s.value == 1 && !s.swallowed {
      assert s.IsBlocked(t);
      assert false;
    }
  }

  lemma WakeExplained(s: State, t: Tid, s': State)
    requires Inv(s) && t in s.pcs && WakeStep(s, t, s')
    ensures Explained(s')
  {
    forall u <- s'.pcs ensures ExplainsAll(EventsOf(s'.log, u), s'.history[u] + Decided(s'.pcs[u])) {
      assert Decided(s'.pcs[u]) == Decided(s.pcs[u]);
      assert ExplainsAll(EventsOf(s.log, u), s.history[u] + Decided(s.pcs[u]));
    }
  }

  lemma StepInv(s: State, s': State)
    requires Inv(s) && Step(s, s')
    ensures Inv(s')
  {
    var t :| t in s.pcs && (ThreadStep(s, t, s') || WakeStep(s, t, s'));
    if WakeStep(s, t, s') {
      WakeInv(s, t, s');
    } else {
      ThreadExclusive(s, t, s');
      ThreadInformed(s, t, s');
      ThreadNoticed(s, t, s');
      assert InformedAt(s, s.pcs[t]);
      ThreadLinear(s, t, s');
      ThreadExplained(s, t, s');
    }
  }

  lemma {:induction false} RunInv(run: seq<State>, k: nat)
    requires IsRun(run) && k < |run|
    ensures Inv(run[k])
  {
    if k == 0 {
      InitInv(run[0]);
    } else {
      RunInv(run, k - 1);
      var before := k - 1;
      assert Step(run[before], run[before + 1]);
      StepInv(run[before], run[k]);
    }
  }

  lemma ReachableInv(s: State)
    requires Reachable(s)
    ensures Inv(s)
  {
    var run :| IsRun(run) && run[|run| - 1] == s;
    RunInv(run, |run| - 1);
  }

  // -------------------------------------------------------------------- main results

  /** In every reachable state the value is a bit, and the posts that set it are the successful
      waits plus what is left. */
  lemma ValueIsABit(s: State)
    requires Reachable(s)
    ensures s.value in {0, 1}
    ensures Posts(s.log) == Takes(s.log) + s.value
  {
    ReachableInv(s);
    ReplayCounts(s.log);
  }

  /** A history of the atomic semaphore conserves the bit. */
  lemma {:induction false} ReplayCounts(log: seq<Event>)
    requires Replay(log) in {0, 1}
    ensures Posts(log) == Takes(log) + Replay(log)
  {
    if log != [] {
      var init := log[..|log| - 1];
      assert Replay(init) in {0, 1} by {
        ReplayLegal(init);
      }
      ReplayCounts(init);
    }
  }

  lemma {:induction false} ReplayLegal(log: seq<Event>)
    ensures -1 <= Replay(log) <= 1
  {
    if log != [] {
      ReplayLegal(log[..|log| - 1]);
    }
  }

  /** Linearizability: the effects of a run are a history of an atomic binary semaphore, and the
      effects of each thread are, in order, those of its calls: an effect of the call's own kind,
      after which the call returns what the effect says. */
  lemma RefinesAtomicSemaphore(s: State)
    requires Reachable(s)
    ensures Replay(s.log) == s.value
    ensures s.history.Keys == s.pcs.Keys
    ensures forall t <- s.pcs :: ExplainsAll(EventsOf(s.log, t), s.history[t] + Decided(s.pcs[t]))
  {
    ReachableInv(s);
  }

  lemma StepExtendsLog(s: State, s': State)
    requires Informed(s) && Step(s, s')
    ensures s.log <= s'.log && s'.pcs.Keys == s.pcs.Keys
  {
    var t :| t in s.pcs && (ThreadStep(s, t, s') || WakeStep(s, t, s'));
    if WakeStep(s, t, s') {
      WakeKeepsLog(s, t, s');
    } else {
      assert InformedAt(s, s.pcs[t]);
      var e, c := ThreadAccount(s, t, s');
      AccountExtendsLog(s, t, s', e, c);
    }
  }

  lemma WakeKeepsLog(s: State, t: Tid, s': State)
    requires t in s.pcs && WakeStep(s, t, s')
    ensures s'.log == s.log && s'.pcs.Keys == s.pcs.Keys
  {
  }

  lemma AccountExtendsLog(s: State, t: Tid, s': State, e: Event, c: Call)
    requires t in s.pcs && t in s.history && OthersKept(s, t, s') && Accounts(s, t, s', e, c)
    ensures s.log <= s'.log && s'.pcs.Keys == s.pcs.Keys
  {
  }

  lemma {:induction false} EventsExtend(log: seq<Event>, more: seq<Event>, t: Tid)
    requires log <= more
    ensures EventsOf(log, t) <= EventsOf(more, t)
    decreases |more|
  {
    if |log| < |more| {
      var init := more[..|more| - 1];
      assert log <= init;
      EventsExtend(log, init, t);
    } else {
      assert log == more;
    }
  }

  lemma {:induction false} RunExtendsLog(run: seq<State>, i: nat, j: nat)
    requires IsRun(run) && i <= j < |run|
    ensures run[i].log <= run[j].log && run[j].pcs.Keys == run[i].pcs.Keys
    decreases j
  {
    if i < j {
      var before := j - 1;
      RunExtendsLog(run, i, before);
      assert Step(run[before], run[before + 1]);
      RunInv(run, before);
      StepExtendsLog(run[before], run[j]);
    }
  }

  /** Between its start and its return a call has one effect, one of its own kind. */
  lemma OneEffect(run: seq<State>, i: nat, j: nat, t: Tid, c: Call) returns (e: Event)
    requires IsRun(run) && i <= j < |run| && t in run[i].pcs && t in run[i].history && t in run[j].pcs && t in run[j].history
    requires run[i].pcs[t].Lock? && run[j].pcs[t].Idle? && run[j].history[t] == run[i].history[t] + [c]
    ensures EventsOf(run[j].log, t) == EventsOf(run[i].log, t) + [e] && Explains(e, c)
  {
    RunInv(run, i);
    RunInv(run, j);
    RunExtendsLog(run, i, j);
    EventsExtend(run[i].log, run[j].log, t);
    var before, after := EventsOf(run[i].log, t), EventsOf(run[j].log, t);
    assert ExplainsAll(before, run[i].history[t] + Decided(run[i].pcs[t]));
    assert ExplainsAll(after, run[j].history[t] + Decided(run[j].pcs[t]));
    e := after[|before|];
    assert after == after[..|before|] + [e];
  }

  /** A wait that times out consumes nothing: from its start to its return it takes nothing, and
      its only effect leaves the value alone. */
  lemma TimeoutConsumesNothing(run: seq<State>, i: nat, j: nat, t: Tid, op: Op) returns (e: Event)
    requires IsRun(run) && i <= j < |run| && t in run[i].pcs && t in run[i].history && t in run[j].pcs && t in run[j].history
    requires run[i].pcs[t].Lock? && run[j].pcs[t].Idle? && run[j].history[t] == run[i].history[t] + [Call(op, TimedOut)]
    ensures EventsOf(run[j].log, t) == EventsOf(run[i].log, t) + [e] && op == TimedWait
    ensures !e.Take? && forall v :: Apply(v, e) == v
  {
    e := OneEffect(run, i, j, t, Call(op, TimedOut));
  }

  // ----------------------------------------------------------------- who blocks and who returns

  /** Only a wait ever blocks: neither a post nor a trywait does. */
  lemma OnlyWaitsBlock(s: State, t: Tid)
    requires Reachable(s) && t in s.pcs && (s.pcs[t].Block? || s.pcs[t].Blocked? || s.pcs[t].Woken?)
    ensures s.pcs[t].op == Wait || s.pcs[t].op == TimedWait
  {
    ReachableInv(s);
    assert InformedAt(s, s.pcs[t]);
  }

  /** While a thread is inside, no other thread changes the value or the log. */
  lemma OthersStayOut(s: State, t: Tid, u: Tid, s': State)
    requires Inv(s) && t in s.holder && u in s.pcs && u != t && (ThreadStep(s, u, s') || WakeStep(s, u, s'))
    ensures s'.value == s.value && s'.log == s.log && s'.holder == s.holder
    ensures t in s'.pcs && s'.pcs[t] == s.pcs[t] && s'.history.Keys == s.history.Keys
    ensures t in s'.history && s'.history[t] == s.history[t]
  {
    assert s.holder == {t} && !s.pcs[u].Holds();
  }

  /** A blocked timed wait can always time out: once the mutex is free it returns the timeout, and the
      value is as before.  Any blocked wait can also wake for no reason, and then looks at the value. */
  lemma BlockedCanLeave(s: State, t: Tid) returns (late: State, out: State, woken: State, back: State)
    requires Inv(s) && s.IsBlocked(t) && s.holder == {}
    ensures s.pcs[t].op == TimedWait ==>
              && WakeStep(s, t, late) && late.pcs.Keys == late.history.Keys == s.pcs.Keys && ThreadStep(late, t, out)
              && t in out.pcs && out.pcs[t] == Unlock(TimedWait, TimedOut) && out.value == s.value
    ensures WakeStep(s, t, woken) && woken.pcs.Keys == woken.history.Keys == s.pcs.Keys && ThreadStep(woken, t, back)
    ensures t in back.pcs && back.pcs[t] == Test(s.pcs[t].op) && back.value == s.value
  {
    var op := s.pcs[t].op;
    late := s.At(t, Woken(op, true));
    out := late.At(t, Unlock(op, TimedOut)).(holder := {t}, log := late.log + [TimeOut(t)]);
    woken := s.At(t, Woken(op, false));
    back := woken.At(t, Test(op)).(holder := {t});
  }

  /** How many statements a thread inside has left before it lets the mutex go. */
  function Left(pc: Pc): nat {
    if pc.Test? then 4 else if pc.SetOne? then 3 else if pc.Signal? || pc.Clear? then 2
    else if pc.Block? || pc.Unlock? then 1 else 0
  }

  /** The thread inside can always go on, and every statement brings it nearer to letting the mutex
      go. */
  lemma HolderGoesOn(s: State, t: Tid) returns (s': State)
    requires Inv(s) && t in s.holder
    ensures t in s.pcs && t in s.history && ThreadStep(s, t, s')
    ensures forall s1 :: ThreadStep(s, t, s1) && t in s1.pcs ==> Left(s1.pcs[t]) < Left(s.pcs[t]) || s1.holder == {}
  {
    var pc := s.pcs[t];
    if pc.Signal? {
      var w := set u | u in s.pcs && s.pcs[u].Blocked?;
      s' := s.(pcs := Unblock(s.pcs, w, {})[t := Unlock(pc.op, Ok)], swallowed := false);
      assert forall u :: s.IsBlocked(u) ==> u in w;
      assert SignalStep(s, t, w, {}, s');
    } else {
      s' := NextOf(s, t);
    }
    forall s1 | ThreadStep(s, t, s1) && t in s1.pcs ensures Left(s1.pcs[t]) < Left(pc) || s1.holder == {} {
      HolderComesNearer(s, t, s1);
    }
  }

  lemma HolderComesNearer(s: State, t: Tid, s': State)
    requires Inv(s) && t in s.holder && t in s.pcs && ThreadStep(s, t, s') && t in s'.pcs
    ensures Left(s'.pcs[t]) < Left(s.pcs[t]) || s'.holder == {}
  {
  }

  /** The next state for a statement that leaves no choice. */
  lemma NextOf(s: State, t: Tid) returns (s': State)
    requires t in s.pcs && t in s.history && s.pcs[t].Holds() && !s.pcs[t].Signal?
    ensures ThreadStep(s, t, s')
  {
    var op := s.pcs[t].op;
    match s.pcs[t] {
      case Test(_) =>
        if op.Post? {
          s' := if s.value == 0 then s.At(t, SetOne(op)) else s.At(t, Unlock(op, Ok)).(log := s.log + [PostFull(t)]);
        } else if s.value != 0 {
          s' := s.At(t, Clear(op));
        } else if op.Blocks() {
          s' := s.At(t, Block(op));
        } else {
          s' := s.At(t, Unlock(op, Busy)).(log := s.log + [TryBusy(t)]);
        }
      case SetOne(_) => s' := s.At(t, Signal(op)).(value := 1, log := s.log + [PostSet(t)], swallowed := false);
      case Block(_) => s' := s.At(t, Blocked(op)).(holder := {});
      case Clear(_) => s' := s.At(t, Unlock(op, Ok)).(value := 0, log := s.log + [Take(t)]);
      case Unlock(_, ret) =>
        s' := s.At(t, Idle).(holder := {}, history := s.history[t := s.history[t] + [Call(op, ret)]]);
    }
  }

  /** What a trywait that found the value v may be doing until it returns, and what it returns. */
  ghost predicate Trying(s: State, t: Tid, v: int, calls: seq<Call>) {
    && t in s.pcs && t in s.history && t in s.holder && s.history[t] == calls
    && var pc := s.pcs[t];
       || (pc == Test(TryWait) && s.value == v)
       || (pc == Unlock(TryWait, Busy) && v == 0)
       || (pc == Clear(TryWait) && v == 1 == s.value)
       || (pc == Unlock(TryWait, Ok) && v == 1)
  }

  ghost predicate Tried(s: State, t: Tid, v: int, calls: seq<Call>) {
    t in s.history && s.history[t] == calls + [Call(TryWait, if v == 0 then Busy else Ok)]
  }

  lemma TryingStep(s: State, s': State, t: Tid, v: int, calls: seq<Call>)
    requires Inv(s) && Step(s, s') && Trying(s, t, v, calls)
    ensures Trying(s', t, v, calls) || Tried(s', t, v, calls)
  {
    var u :| u in s.pcs && (ThreadStep(s, u, s') || WakeStep(s, u, s'));
    if u == t {
      TryingOwnStep(s, s', t, v, calls);
    } else {
      OthersStayOut(s, t, u, s');
    }
  }

  lemma TryingOwnStep(s: State, s': State, t: Tid, v: int, calls: seq<Call>)
    requires s.value in {0, 1} && Trying(s, t, v, calls) && (ThreadStep(s, t, s') || WakeStep(s, t, s'))
    ensures Trying(s', t, v, calls) || Tried(s', t, v, calls)
  {
  }

  /** A trywait never blocks: from its test on it holds the mutex until it returns, and it returns
      busy exactly when the value was 0 at the test. */
  lemma {:induction false} TryWaitExact(run: seq<State>, i: nat, k: nat, t: Tid)
    requires IsRun(run) && i <= k < |run| && t in run[i].pcs && run[i].pcs[t] == Test(TryWait) && t in run[i].history
    ensures Trying(run[k], t, run[i].value, run[i].history[t])
         || exists j :: i < j <= k && Tried(run[j], t, run[i].value, run[i].history[t])
    decreases k
  {
    RunInv(run, i);
    if k > i {
      var before := k - 1;
      TryWaitExact(run, i, before, t);
      if Trying(run[before], t, run[i].value, run[i].history[t]) {
        RunInv(run, before);
        assert Step(run[before], run[before + 1]);
        TryingStep(run[before], run[k], t, run[i].value, run[i].history[t]);
      }
    }
  }

  // ------------------------------------------------------------------- lost wakeups

  /** If the value is 1, the mutex is free and some thread is blocked, and the signal has not been
      swallowed, then some thread has been woken, and left to itself it takes the value. */
  lemma NoLostWakeup(s: State) returns (u: Tid, s1: State, s2: State, s3: State)
    requires Reachable(s) && s.value == 1 && s.holder == {} && SomeBlocked(s) && !s.swallowed
    ensures u in s.pcs && s.pcs[u].Woken? && !s.pcs[u].timedOut
    ensures s.pcs.Keys == s.history.Keys && s1.pcs.Keys == s2.pcs.Keys == s.pcs.Keys
    ensures s1.history == s2.history == s.history && s3.pcs.Keys == s.pcs.Keys
    ensures ThreadStep(s, u, s1) && ThreadStep(s1, u, s2) && ThreadStep(s2, u, s3)
    ensures s3.pcs[u] == Unlock(s.pcs[u].op, Ok) && s3.value == 0 && s3.log == s.log + [Take(u)]
  {
    ReachableInv(s);
    u :| u in s.pcs && WillNotice(s.pcs[u]);
    assert InformedAt(s, s.pcs[u]);
    var op := s.pcs[u].op;
    s1 := s.At(u, Test(op)).(holder := {u});
    s2 := s1.At(u, Clear(op));
    s3 := s2.At(u, Unlock(op, Ok)).(value := 0, log := s.log + [Take(u)]);
  }

  /** Without timed waits no signal is swallowed. */
  lemma {:induction false} NeverSwallowed(run: seq<State>, ops: set<Op>, k: nat)
    requires IsRunOf(run, ops) && TimedWait !in ops && k < |run|
    ensures !run[k].swallowed
  {
    if k > 0 {
      var before := k - 1;
      NeverSwallowed(run, ops, before);
      assert Step(run[before], run[before + 1]) && CallsFrom(run[before], ops);
      StepNotSwallowed(run[before], run[k], ops);
    }
  }

  lemma StepNotSwallowed(s: State, s': State, ops: set<Op>)
    requires CallsFrom(s, ops) && TimedWait !in ops && Step(s, s') && !s.swallowed
    ensures !s'.swallowed
  {
    var t :| t in s.pcs && (ThreadStep(s, t, s') || WakeStep(s, t, s'));
    if ThreadStep(s, t, s') && s.pcs[t].Signal? {
      var w: set<Tid>, late: set<Tid> :| SignalStep(s, t, w, late, s');
      if late != {} {
        LateIsTimed(s, t, w, late, s', ops);
        assert false;
      }
    } else if ThreadStep(s, t, s') {
      ThreadNotSwallowed(s, t, s');
    }
  }

  lemma LateIsTimed(s: State, t: Tid, w: set<Tid>, late: set<Tid>, s': State, ops: set<Op>)
    requires t in s.pcs && s.pcs[t].Signal? && SignalStep(s, t, w, late, s') && CallsFrom(s, ops) && late != {}
    ensures TimedWait in ops
  {
    var u :| u in late;
    assert s.IsBlocked(u) && s.pcs[u].op in ops;
  }

  /** Only a signal can be swallowed. */
  lemma ThreadNotSwallowed(s: State, t: Tid, s': State)
    requires t in s.pcs && t in s.history && ThreadStep(s, t, s') && !s.pcs[t].Signal?
    ensures s'.swallowed ==> s.swallowed
  {
  }

  /** Without posts the value stays 0. */
  lemma {:induction false} NeverRaised(run: seq<State>, ops: set<Op>, k: nat)
    requires IsRunOf(run, ops) && Post !in ops && k < |run|
    ensures run[k].value == 0
  {
    if k > 0 {
      var before := k - 1;
      NeverRaised(run, ops, before);
      RunInv(run, before);
      assert Step(run[before], run[before + 1]) && CallsFrom(run[before], ops);
      StepNotRaised(run[before], run[k], ops);
    }
  }

  lemma StepNotRaised(s: State, s': State, ops: set<Op>)
    requires Informed(s) && CallsFrom(s, ops) && Post !in ops && Step(s, s') && s.value == 0
    ensures s'.value == 0
  {
    var t :| t in s.pcs && (ThreadStep(s, t, s') || WakeStep(s, t, s'));
    if ThreadStep(s, t, s') {
      assert InformedAt(s, s.pcs[t]) && !s.pcs[t].SetOne?;
      ThreadNotRaised(s, t, s');
    }
  }

  lemma ThreadNotRaised(s: State, t: Tid, s': State)
    requires t in s.pcs && t in s.history && ThreadStep(s, t, s') && !s.pcs[t].SetOne? && s.value == 0
    ensures s'.value == 0
  {
  }

  ghost predicate NeverLost(ops: set<Op>) {
    forall s :: ReachableBy(s, ops) ==> Noticed(s)
  }

  /** No run of these calls loses a wakeup exactly when timed waits or posts are not among them. */
  lemma NeverLostExact(ops: set<Op>)
    ensures NeverLost(ops) <==> TimedWait !in ops || Post !in ops
  {
    if TimedWait in ops && Post in ops {
      var s := LostWakeup(TimedWait, ops);
      assert s.IsBlocked(0);
    } else {
      forall s | ReachableBy(s, ops) ensures Noticed(s) {
        var run :| IsRunOf(run, ops) && run[|run| - 1] == s;
        RunInv(run, |run| - 1);
        if TimedWait !in ops {
          NeverSwallowed(run, ops, |run| - 1);
        } else {
          NeverRaised(run, ops, |run| - 1);
        }
      }
    }
  }

  lemma StepReaches(s: State, ops: set<Op>, s': State)
    requires ReachableBy(s, ops) && Step(s, s') && CallsFrom(s', ops)
    ensures ReachableBy(s', ops)
  {
    var run :| IsRunOf(run, ops) && run[|run| - 1] == s;
    var longer := run + [s'];
    forall i | 0 <= i < |longer| - 1 ensures Step(longer[i], longer[i + 1]) {
      assert i < |run| - 1 ==> Step(run[i], run[i + 1]);
    }
    assert IsRunOf(longer, ops);
  }

  /** Calls of the given kinds have led here. */
  ghost predicate Arrived(s: State, ops: set<Op>) {
    ReachableBy(s, ops) && CallsFrom(s, ops) && s.history.Keys == s.pcs.Keys
  }

  lemma Arrives(s: State, ops: set<Op>, t: Tid, pc: Pc, s': State)
    requires Arrived(s, ops) && t in s.pcs && ThreadStep(s, t, s')
    requires s'.pcs == s.pcs[t := pc] && s'.history.Keys == s.history.Keys && (pc != Idle ==> pc.op in ops)
    ensures Arrived(s', ops)
  {
    assert Step(s, s');
    StepReaches(s, ops, s');
  }

  lemma Overwritten(pcs: map<Tid, Pc>, t: Tid, before: Pc, after: Pc)
    ensures pcs[t := before][t := after] == pcs[t := after]
  {
  }

  /** A call locks the mutex. */
  lemma Locks(s: State, ops: set<Op>, t: Tid, op: Op) returns (s': State)
    requires Arrived(s, ops) && s.holder == {} && t in s.pcs && s.pcs[t] == Idle && op in ops
    ensures s' == s.At(t, Test(op)).(holder := {t}) && Arrived(s', ops)
  {
    var s1 := s.At(t, Lock(op));
    Arrives(s, ops, t, Lock(op), s1);
    s' := s1.At(t, Test(op)).(holder := {t});
    Arrives(s1, ops, t, Test(op), s');
    Overwritten(s.pcs, t, Lock(op), Test(op));
  }

  /** A thread that waits while the value is 0 gets blocked. */
  lemma Blocks(s: State, ops: set<Op>, t: Tid, op: Op) returns (s': State)
    requires Arrived(s, ops) && s.holder == {} && t in s.pcs && s.pcs[t] == Idle && op in ops
    requires s.value == 0 && op.Blocks()
    ensures s' == s.At(t, Blocked(op)) && Arrived(s', ops)
  {
    var s1 := Locks(s, ops, t, op);
    var s2 := s1.At(t, Block(op));
    Arrives(s1, ops, t, Block(op), s2);
    Overwritten(s.pcs, t, Test(op), Block(op));
    s' := s2.At(t, Blocked(op)).(holder := {});
    Arrives(s2, ops, t, Blocked(op), s');
    Overwritten(s.pcs, t, Block(op), Blocked(op));
  }

  /** A post that finds the value at 0 raises it and is about to signal. */
  lemma Raises(s: State, ops: set<Op>, t: Tid) returns (s': State)
    requires Arrived(s, ops) && s.holder == {} && t in s.pcs && s.pcs[t] == Idle && Post in ops && s.value == 0
    ensures s' == s.At(t, Signal(Post)).(holder := {t}, value := 1, log := s.log + [PostSet(t)], swallowed := false) && Arrived(s', ops)
  {
    var s1 := Locks(s, ops, t, Post);
    var s2 := s1.At(t, SetOne(Post));
    Arrives(s1, ops, t, SetOne(Post), s2);
    Overwritten(s.pcs, t, Test(Post), SetOne(Post));
    s' := s2.At(t, Signal(Post)).(value := 1, log := s2.log + [PostSet(t)], swallowed := false);
    Arrives(s2, ops, t, Signal(Post), s');
    Overwritten(s.pcs, t, SetOne(Post), Signal(Post));
  }

  /** The signal may go to a timed wait at the moment when its time is up. */
  lemma SignalsLate(s: State, ops: set<Op>, t: Tid, u: Tid) returns (s': State)
    requires Arrived(s, ops) && t in s.pcs && s.pcs[t] == Signal(Post) && u in s.pcs && s.pcs[u] == Blocked(TimedWait)
    ensures s' == s.(pcs := s.pcs[u := Woken(TimedWait, true)][t := Unlock(Post, Ok)], swallowed := true) && Arrived(s', ops)
  {
    s' := s.(pcs := Unblock(s.pcs, {u}, {u})[t := Unlock(Post, Ok)], swallowed := true);
    assert Unblock(s.pcs, {u}, {u}) == s.pcs[u := Woken(TimedWait, true)];
    assert s.IsBlocked(u) && SignalStep(s, t, {u}, {u}, s');
    assert ThreadStep(s, t, s') && Step(s, s');
    StepReaches(s, ops, s');
  }

  /** A wait that has timed out goes on to return without looking at the value. */
  lemma GivesUp(s: State, ops: set<Op>, u: Tid) returns (s': State)
    requires Arrived(s, ops) && s.holder == {} && u in s.pcs && s.pcs[u] == Woken(TimedWait, true)
    ensures s' == s.At(u, Unlock(TimedWait, TimedOut)).(holder := {u}, log := s.log + [TimeOut(u)]) && Arrived(s', ops)
  {
    s' := s.At(u, Unlock(TimedWait, TimedOut)).(holder := {u}, log := s.log + [TimeOut(u)]);
    Arrives(s, ops, u, Unlock(TimedWait, TimedOut), s');
  }

  lemma Returns(s: State, ops: set<Op>, t: Tid) returns (s': State)
    requires Arrived(s, ops) && t in s.pcs && s.pcs[t].Unlock?
    ensures s'.value == s.value && s'.holder == {} && s'.pcs == s.pcs[t := Idle] && Arrived(s', ops)
  {
    var c := Call(s.pcs[t].op, s.pcs[t].ret);
    s' := s.At(t, Idle).(holder := {}, history := s.history[t := s.history[t] + [c]]);
    Arrives(s, ops, t, Idle, s');
  }

  lemma Starts(ops: set<Op>) returns (s: State)
    ensures Arrived(s, ops) && s.value == 0 && s.holder == {} && s.pcs.Keys == {0, 1, 2}
    ensures s.pcs[0] == s.pcs[1] == s.pcs[2] == Idle
  {
    s := State(0, {}, map[0 := Idle, 1 := Idle, 2 := Idle], [], map[0 := [], 1 := [], 2 := []], false);
    assert IsRunOf([s], ops);
    assert [s][|[s]| - 1] == s;
  }

  /** A lost wakeup: thread 0 waits, thread 1 waits with a timeout, thread 2 posts; the signal goes
      to thread 1 as its time is up.  Thread 1 returns a timeout, and thread 0 stays blocked with
      the value at 1, the mutex free and nobody else in a call. */
  lemma LostWakeup(op: Op, ops: set<Op>) returns (s: State)
    requires op.Blocks() && op in ops && TimedWait in ops && Post in ops
    ensures ReachableBy(s, ops) && s.value == 1 && s.holder == {} && 0 in s.pcs && s.pcs[0] == Blocked(op)
    ensures forall t <- s.pcs :: t != 0 ==> s.pcs[t] == Idle
  {
    s := Starts(ops);
    s := Blocks(s, ops, 0, op);
    s := Blocks(s, ops, 1, TimedWait);
    s := Raises(s, ops, 2);
    s := SignalsLate(s, ops, 2, 1);
    s := Returns(s, ops, 2);
    s := GivesUp(s, ops, 1);
    s := Returns(s, ops, 1);
  }

  /** Nobody is left who would wake a blocked thread. */
  ghost predicate Lost(s: State) {
    s.value == 1 && SomeBlocked(s) && !SomeNoticer(s)
  }

  /** No later post repairs it: a step of a thread ends it exactly when it starts another call. */
  lemma LostStaysLost(s: State, t: Tid, s': State)
    requires Inv(s) && Lost(s) && t in s.pcs && ThreadStep(s, t, s')
    ensures Lost(s') <==> !(s.pcs[t].Lock? && s.pcs[t].op != Post)
  {
    var b :| s.IsBlocked(b);
    assert InformedAt(s, s.pcs[t]) && !WillNotice(s.pcs[t]);
    if s.pcs[t].Lock? && s.pcs[t].op != Post {
      assert WillNotice(s'.pcs[t]);
    } else {
      assert s'.IsBlocked(b);
    }
  }

  /** A thread that wakes by itself ends it exactly when it is a spurious wakeup, or was the only one
      blocked. */
  lemma LostUntilWoken(s: State, t: Tid, s': State)
    requires Inv(s) && Lost(s) && t in s.pcs && WakeStep(s, t, s')
    ensures Lost(s') <==> s'.pcs[t].timedOut && exists b :: b != t && s.IsBlocked(b)
  {
    if !s'.pcs[t].timedOut {
      assert WillNotice(s'.pcs[t]);
    } else if b :| b != t && s.IsBlocked(b) {
      assert s'.IsBlocked(b);
    } else {
      assert forall b :: s'.IsBlocked(b) ==> b != t && s.IsBlocked(b);
    }
  }

  /** A state is lost only after its signal has been swallowed. */
  lemma LostWasSwallowed(s: State)
    requires Reachable(s) && Lost(s)
    ensures s.swallowed
  {
    ReachableInv(s);
  }
}
