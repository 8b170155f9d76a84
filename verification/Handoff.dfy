/** The hand-off of smp.c: any number of dispatching cores publish function pointers to one parked
    core under two mutexes, one instruction a step. */
module Handoff {
  import opened Exclusive

  const M0: nat := 0
  const M1: nat := 1

  /** The worker core: still in the firmware's spin loop, running what it was given, in one of the
      four instructions of the two release_mutex calls of __park_and_wait, reading mutex 1,
      asleep in wfe, or about to read exec_addr and call. */
  datatype WPc = Firmware | Running | Stlr1 | Sev1 | Stlr0 | Sev0 | Check | Doze | Fetch

  /** A dispatching core in __run_core or __setup_core: inside acquire_mutex of mutex l (ldaxr,
      stxr, wfe), about to store exec_addr, or about to sev. */
  datatype DPc = Idle | Load(l: nat) | Try(l: nat) | Sleep(l: nat) | Publish | Kick

  /** published and triggered record, in order, what was stored in exec_addr and what was called. */
  datatype State = State(m: Machine, w: WPc, d: seq<DPc>, exec: nat, published: seq<nat>, triggered: seq<nat>)

  datatype Act =
    | Work                    // the worker's next instruction; in Running, the call of __park_and_wait
    | Call(i: nat)            // dispatcher i starts
    | Ldaxr(i: nat)
    | Stxr(i: nat, ok: bool)
    | Wake(i: nat)
    | StoreExec(i: nat, fn: nat)
    | SevKick(i: nat)
    | Disturb(c: nat)         // core 0 is the worker, core i + 1 dispatcher i

  function Init(dispatchers: nat): (s: State)
    ensures Inv(s) && |s.d| == dispatchers
  {
    State(Reset(2, dispatchers + 1), Firmware, seq(dispatchers, i => Idle), 0, [], [])
  }

  predicate WorkEnabled(s: State)
    requires |s.m.word| == 2 && |s.m.event| > 0
  {
    match s.w
    case Firmware => s.m.word[M1]   // leaves the spin loop only after the publishing core's sev
    case Doze => s.m.event[0]
    case _ => true
  }

  predicate Enabled(s: State, a: Act) {
    && s.m.Shaped(2, |s.d| + 1)
    && match a
       case Work => WorkEnabled(s)
       case Call(i) => i < |s.d| && s.d[i] == Idle
       case Ldaxr(i) => i < |s.d| && s.d[i].Load? && s.d[i].l < 2
       case Stxr(i, ok) => i < |s.d| && s.d[i].Try? && s.d[i].l < 2 && (ok ==> s.m.reserved[i + 1] == s.d[i].l)
       case Wake(i) => i < |s.d| && s.d[i].Sleep? && s.m.event[i + 1]
       case StoreExec(i, fn) => i < |s.d| && s.d[i] == Publish
       case SevKick(i) => i < |s.d| && s.d[i] == Kick
       case Disturb(c) => c < |s.d| + 1
  }

  function DoWork(s: State): (t: State)
    requires s.m.Shaped(2, |s.d| + 1) && WorkEnabled(s)
    ensures t.d == s.d && t.exec == s.exec && t.published == s.published
  {
    match s.w
    case Firmware => s.(w := Running, triggered := s.triggered + [s.exec])
    case Running => s.(w := Stlr1)
    case Stlr1 => s.(m := s.m.Store(M1, false), w := Sev1)
    case Sev1 => s.(m := s.m.Sev(), w := Stlr0)
    case Stlr0 => s.(m := s.m.Store(M0, false), w := Sev0)
    case Sev0 => s.(m := s.m.Sev(), w := Check)
    case Check => s.(w := if s.m.word[M1] then Fetch else Doze)
    case Doze => s.(m := s.m.Wfe(0), w := Check)
    case Fetch => s.(w := Running, triggered := s.triggered + [s.exec])
  }

  function Do(s: State, a: Act): (t: State)
    requires Enabled(s, a)
    ensures |t.d| == |s.d|
  {
    match a
    case Work => DoWork(s)
    case Call(i) => s.(d := s.d[i := Load(M0)])
    case Ldaxr(i) =>
      var l := s.d[i].l;
      s.(m := s.m.Ldaxr(i + 1, l), d := s.d[i := if s.m.word[l] then Sleep(l) else Try(l)])
    case Stxr(i, ok) =>
      var l := s.d[i].l;
      if ok then s.(m := s.m.Store(l, true), d := s.d[i := if l == M0 then Publish else Kick])
      else s.(m := s.m.StxrFail(i + 1), d := s.d[i := Load(l)])
    case Wake(i) => s.(m := s.m.Wfe(i + 1), d := s.d[i := Load(s.d[i].l)])
    case StoreExec(i, fn) => s.(exec := fn, published := s.published + [fn], d := s.d[i := Load(M1)])
    case SevKick(i) => s.(m := s.m.Sev(), d := s.d[i := Idle])
    case Disturb(c) => s.(m := s.m.Disturb(c))
  }

  predicate Reaches(s: State, acts: seq<Act>, t: State)
    decreases |acts|
  {
    if acts == [] then s == t else Enabled(s, acts[0]) && Reaches(Do(s, acts[0]), acts[1..], t)
  }

  // ---------------------------------------------------------------- the invariant

  /** The dispatcher has mutex 0 and not yet mutex 1. */
  predicate Between(p: DPc) {
    p == Publish || p == Load(M1) || p == Try(M1) || p == Sleep(M1)
  }

  /** The worker has released both mutexes and not yet been told to run. */
  predicate Parked(w: WPc) {
    w == Firmware || w == Sev0 || w == Check || w == Doze
  }

  ghost predicate SomeBetween(s: State) {
    exists i :: 0 <= i < |s.d| && Between(s.d[i])
  }

  ghost predicate SomeKick(s: State) {
    exists i :: 0 <= i < |s.d| && s.d[i] == Kick
  }

  predicate AllTriggered(s: State) {
    s.triggered == s.published
  }

  /** The last published pointer is in exec_addr and the only one not triggered. */
  predicate OnePending(s: State) {
    s.published == s.triggered + [s.exec]
  }

  ghost predicate Inv(s: State) {
    && s.m.Shaped(2, |s.d| + 1)
    && (forall i :: 0 <= i < |s.d| ==> DispatcherOk(s, i))
    && (forall i, j :: 0 <= i < |s.d| && 0 <= j < |s.d| && Between(s.d[i]) && Between(s.d[j]) ==> i == j)
    // who holds what, and how far the hand-off is
    && (!s.m.word[M0] ==> !s.m.word[M1] && !SomeBetween(s) && Parked(s.w) && AllTriggered(s))
    && (SomeBetween(s) ==> !s.m.word[M1] && Parked(s.w))
    && (s.m.word[M0] && !s.m.word[M1] && !SomeBetween(s) ==> (s.w == Sev1 || s.w == Stlr0) && AllTriggered(s))
    && (s.m.word[M1] ==>
          if s.w == Running || s.w == Stlr1 then AllTriggered(s) else (Parked(s.w) || s.w == Fetch) && OnePending(s))
    // the worker does not sleep through a hand-off
    && (s.w == Doze && !s.m.event[0] ==> !s.m.word[M1] || SomeKick(s))
  }

  ghost predicate DispatcherOk(s: State, i: nat)
    requires s.m.Shaped(2, |s.d| + 1) && i < |s.d|
  {
    var p := s.d[i];
    && (p.Load? || p.Try? || p.Sleep? ==> p.l < 2)
    // taking mutex 1 never has to wait
    && p != Sleep(M1)
    // a reservation that is still good at the stxr means the word is still clear
    && (p.Try? && s.m.reserved[i + 1] == p.l ==> !s.m.word[p.l])
    // nobody sleeps through the release of mutex 0
    && (p == Sleep(M0) && !s.m.event[i + 1] ==> s.m.word[M0] || s.w == Sev0)
    && (p == Publish ==> s.m.word[M0] && AllTriggered(s))
    && (p == Load(M1) || p == Try(M1) ==> s.m.word[M0] && OnePending(s))
  }

  lemma StepKeepsInv(s: State, a: Act)
    requires Inv(s) && Enabled(s, a)
    ensures Inv(Do(s, a))
  {
    match a
    case Work => WorkKeepsInv(s);
    case Disturb(c) => DisturbKeepsInv(s, c);
    case Call(i) => WaitKeepsInv(s, a, i);
    case Ldaxr(i) => WaitKeepsInv(s, a, i);
    case Stxr(i, ok) => if ok { TakeKeepsInv(s, i); } else { WaitKeepsInv(s, a, i); }
    case Wake(i) => WaitKeepsInv(s, a, i);
    case StoreExec(i, fn) => PublishKeepsInv(s, i, fn);
    case SevKick(i) => WaitKeepsInv(s, a, i);
  }

  lemma WorkKeepsInv(s: State)
    requires Inv(s) && WorkEnabled(s)
    ensures Inv(DoWork(s))
  {
    var t := DoWork(s);
    assert SomeBetween(t) <==> SomeBetween(s);
    assert SomeKick(t) <==> SomeKick(s);
    forall i | 0 <= i < |t.d| ensures DispatcherOk(t, i) {
      assert DispatcherOk(s, i);
      assert Between(s.d[i]) ==> SomeBetween(s);
    }
  }

  lemma DisturbKeepsInv(s: State, c: nat)
    requires Inv(s) && c < |s.d| + 1
    ensures Inv(Do(s, Disturb(c)))
  {
    var t := Do(s, Disturb(c));
    assert SomeBetween(t) <==> SomeBetween(s);
    assert SomeKick(t) <==> SomeKick(s);
    forall i | 0 <= i < |t.d| ensures DispatcherOk(t, i) { assert DispatcherOk(s, i); }
  }

  /** What one dispatcher's step does to the two existential facts. */
  lemma OneMoved(s: State, t: State, i: nat)
    requires i < |s.d| && |t.d| == |s.d| && t.d == s.d[i := t.d[i]]
    ensures Between(t.d[i]) ==> SomeBetween(t)
    ensures SomeBetween(s) && !Between(s.d[i]) ==> SomeBetween(t)
    ensures SomeBetween(t) && !Between(t.d[i]) ==> SomeBetween(s)
    ensures Between(s.d[i]) ==> SomeBetween(s)
    ensures t.d[i] == Kick ==> SomeKick(t)
    ensures SomeKick(s) && s.d[i] != Kick ==> SomeKick(t)
  {
    if SomeBetween(s) && !Between(s.d[i]) {
      var j :| 0 <= j < |s.d| && Between(s.d[j]);
      assert Between(t.d[j]);
    }
    if SomeKick(s) && s.d[i] != Kick {
      var j :| 0 <= j < |s.d| && s.d[j] == Kick;
      assert t.d[j] == Kick;
    }
    if SomeBetween(t) && !Between(t.d[i]) {
      var j :| 0 <= j < |t.d| && Between(t.d[j]);
      assert Between(s.d[j]);
    }
  }

  /** A step of dispatcher i that changes neither a lock word nor exec_addr. */
  predicate Waits(s: State, a: Act, i: nat) {
    Enabled(s, a) && !a.Work? && !a.Disturb? && !a.StoreExec? && a.i == i && !(a.Stxr? && a.ok)
  }

  lemma WaitKeepsInv(s: State, a: Act, i: nat)
    requires Inv(s) && Waits(s, a, i)
    ensures Inv(Do(s, a))
  {
    var t := Do(s, a);
    assert DispatcherOk(s, i);
    OneMoved(s, t, i);
    forall j | 0 <= j < |t.d| ensures DispatcherOk(t, j) { WaitKeepsDispatcher(s, a, i, j); }
  }

  lemma WaitKeepsDispatcher(s: State, a: Act, i: nat, j: nat)
    requires Inv(s) && Waits(s, a, i) && j < |s.d|
    ensures DispatcherOk(Do(s, a), j)
  {
    assert DispatcherOk(s, j);
  }

  lemma TakeKeepsInv(s: State, i: nat)
    requires Inv(s) && Enabled(s, Stxr(i, true))
    ensures Inv(Do(s, Stxr(i, true)))
  {
    var t := Do(s, Stxr(i, true));
    assert DispatcherOk(s, i);
    OneMoved(s, t, i);
    forall j | 0 <= j < |t.d| ensures DispatcherOk(t, j) {
      assert DispatcherOk(s, j);
      assert Between(s.d[j]) ==> SomeBetween(s);
    }
  }

  lemma PublishKeepsInv(s: State, i: nat, fn: nat)
    requires Inv(s) && Enabled(s, StoreExec(i, fn))
    ensures Inv(Do(s, StoreExec(i, fn)))
  {
    var t := Do(s, StoreExec(i, fn));
    assert DispatcherOk(s, i);
    OneMoved(s, t, i);
    forall j | 0 <= j < |t.d| ensures DispatcherOk(t, j) { assert DispatcherOk(s, j); }
  }

  // ---------------------------------------------------------------- every run

  lemma {:induction false} RunKeepsInv(s: State, acts: seq<Act>, t: State)
    requires Inv(s) && Reaches(s, acts, t)
    ensures Inv(t) && |t.d| == |s.d|
    decreases |acts|
  {
    if acts == [] {
    } else {
      StepKeepsInv(s, acts[0]);
      RunKeepsInv(Do(s, acts[0]), acts[1..], t);
    }
  }

  /** For any number of dispatchers and any interleaving: what the worker calls is what was
      published, each pointer once and in order, with at most the last one outstanding and then
      still in exec_addr; and acquiring mutex 1 never waits. */
  lemma ExactlyOnce(dispatchers: nat, acts: seq<Act>, t: State)
    requires Reaches(Init(dispatchers), acts, t)
    ensures AllTriggered(t) || OnePending(t)
    ensures forall i :: 0 <= i < |t.d| ==> t.d[i] != Sleep(M1)
  {
    RunKeepsInv(Init(dispatchers), acts, t);
    forall i | 0 <= i < |t.d| ensures t.d[i] != Sleep(M1) && (Between(t.d[i]) ==> AllTriggered(t) || OnePending(t)) {
      assert DispatcherOk(t, i);
    }
  }

  function PassedBy(a: Act): seq<nat> {
    if a.StoreExec? then [a.fn] else []
  }

  /** The pointers that the dispatchers pass, in the order in which they are stored: the fn of every
      StoreExec, and nothing else. */
  function Passed(acts: seq<Act>): seq<nat> {
    if acts == [] then [] else PassedBy(acts[0]) + Passed(acts[1..])
  }

  lemma StepPublishes(s: State, a: Act)
    requires Enabled(s, a)
    ensures Do(s, a).published == s.published + PassedBy(a)
  {
  }

  lemma {:induction false} PublishedIsPassed(s: State, acts: seq<Act>, t: State)
    requires Reaches(s, acts, t)
    ensures t.published == s.published + Passed(acts)
    decreases |acts|
  {
    if acts == [] {
    } else {
      var a, rest := acts[0], acts[1..];
      StepPublishes(s, a);
      PublishedIsPassed(Do(s, a), rest, t);
      assert s.published + PassedBy(a) + Passed(rest) == s.published + (PassedBy(a) + Passed(rest));
    }
  }

  lemma PublishedFromInit(dispatchers: nat, acts: seq<Act>, t: State)
    requires Reaches(Init(dispatchers), acts, t)
    ensures t.published == Passed(acts)
  {
    PublishedIsPassed(Init(dispatchers), acts, t);
    assert Init(dispatchers).published == [];
    assert [] + Passed(acts) == Passed(acts);
  }

  /** What the worker has called is what the dispatchers passed, in order: all of it but at most the
      last pointer, and all of it when both mutexes are free. The one not called is in exec_addr. */
  lemma CallsWhatIsPassed(dispatchers: nat, acts: seq<Act>, t: State)
    requires Reaches(Init(dispatchers), acts, t)
    ensures t.triggered == Passed(acts) || t.triggered + [t.exec] == Passed(acts)
    ensures Quiet(t) ==> t.triggered == Passed(acts)
  {
    ExactlyOnce(dispatchers, acts, t);
    PublishedFromInit(dispatchers, acts, t);
    RunKeepsInv(Init(dispatchers), acts, t);
  }

  /** The worker's next step is a call. */
  predicate Calls(s: State, a: Act) { a == Work && (s.w == Fetch || s.w == Firmware) }

  /** Every call is of the pointer passed last, which has not been called before, and then all have. */
  lemma CallsLastPassed(dispatchers: nat, acts: seq<Act>, s: State, a: Act)
    requires Reaches(Init(dispatchers), acts, s) && Enabled(s, a) && Calls(s, a)
    ensures Do(s, a).triggered == Passed(acts) == s.triggered + [s.exec]
  {
    PublishedFromInit(dispatchers, acts, s);
    RunKeepsInv(Init(dispatchers), acts, s);
  }

  /** No other step calls anything. */
  lemma OtherStepsCallNothing(s: State, a: Act)
    requires Enabled(s, a) && !Calls(s, a)
    ensures Do(s, a).triggered == s.triggered
  {
  }

  /** exec_addr is written only while the worker is parked and has called all that was published:
      between a publication and the worker's next park it never changes. */
  lemma ExecStable(dispatchers: nat, acts: seq<Act>, s: State, a: Act)
    requires Reaches(Init(dispatchers), acts, s) && Enabled(s, a)
    ensures Do(s, a).exec != s.exec || Do(s, a).published != s.published ==> Parked(s.w) && AllTriggered(s)
  {
    RunKeepsInv(Init(dispatchers), acts, s);
    if a.StoreExec? {
      assert DispatcherOk(s, a.i);
      assert Between(s.d[a.i]);
    }
  }

  /** The worker asleep with nothing handed over, or a kick under way; a dispatcher asleep with
      mutex 0 taken, or its release about to signal. */
  lemma NoLostWakeup(dispatchers: nat, acts: seq<Act>, t: State)
    requires Reaches(Init(dispatchers), acts, t)
    ensures t.m.Shaped(2, |t.d| + 1)
    ensures t.w == Doze && !t.m.event[0] ==> !t.m.word[M1] || SomeKick(t)
    ensures forall i :: 0 <= i < |t.d| && t.d[i] == Sleep(M0) && !t.m.event[i + 1] ==> t.m.word[M0] || t.w == Sev0
  {
    RunKeepsInv(Init(dispatchers), acts, t);
    forall i | 0 <= i < |t.d| && t.d[i] == Sleep(M0) && !t.m.event[i + 1] ensures t.m.word[M0] || t.w == Sev0 {
      assert DispatcherOk(t, i);
    }
  }

  // ---------------------------------------------------------------- no deadlock

  /** Both mutexes free: the worker is parked and everything published has been called. */
  predicate Quiet(s: State) {
    s.m.Shaped(2, |s.d| + 1) && !s.m.word[M0] && !s.m.word[M1]
  }

  /** A step that brings the hand-off nearer to rest, when it is not. */
  ghost function Pick(s: State): (a: Act)
    requires Inv(s) && !Quiet(s)
    ensures Enabled(s, a)
  {
    if SomeBetween(s) then
      var i :| 0 <= i < |s.d| && Between(s.d[i]);
      assert DispatcherOk(s, i);
      if s.d[i] == Publish then StoreExec(i, 0)
      else if s.d[i] == Load(M1) then Ldaxr(i)
      else Stxr(i, s.m.reserved[i + 1] == M1)
    else if s.w == Doze && !s.m.event[0] then
      var i :| 0 <= i < |s.d| && s.d[i] == Kick; SevKick(i)
    else Work
  }

  ghost function DispatcherRank(s: State): nat
    requires s.m.Shaped(2, |s.d| + 1)
  {
    if !SomeBetween(s) then 0
    else var i :| 0 <= i < |s.d| && Between(s.d[i]);
      if s.d[i] == Publish then 24 else if s.d[i] == Load(M1) then 22
      else if s.m.reserved[i + 1] == M1 then 21 else 23
  }

  function WorkerRank(s: State): nat
    requires s.m.Shaped(2, |s.d| + 1)
  {
    match s.w
    case Sev0 => 11
    case Doze => if s.m.event[0] then 9 else 10
    case Check => 8
    case Firmware => 8
    case Fetch => 7
    case Running => 6
    case Stlr1 => 5
    case Sev1 => 4
    case Stlr0 => 3
  }

  ghost function Rank(s: State): nat
    requires s.m.Shaped(2, |s.d| + 1)
  {
    if Quiet(s) then 0 else if SomeBetween(s) then DispatcherRank(s) else WorkerRank(s)
  }

  lemma OnlyBetween(s: State, i: nat)
    requires Inv(s) && i < |s.d| && Between(s.d[i])
    ensures DispatcherRank(s) == if s.d[i] == Publish then 24 else if s.d[i] == Load(M1) then 22
                                 else if s.m.reserved[i + 1] == M1 then 21 else 23
  {
    assert SomeBetween(s);
  }

  lemma PickAdvances(s: State)
    requires Inv(s) && !Quiet(s)
    ensures Inv(Do(s, Pick(s))) && Rank(Do(s, Pick(s))) < Rank(s)
  {
    var a := Pick(s);
    var t := Do(s, a);
    StepKeepsInv(s, a);
    if SomeBetween(s) {
      var i := a.i;
      OnlyBetween(s, i);
      assert DispatcherOk(s, i);
      if Between(t.d[i]) {
        OnlyBetween(t, i);
        assert SomeBetween(t);
      } else {
        assert !SomeBetween(t) by {
          assert forall j :: 0 <= j < |t.d| && j != i ==> !Between(t.d[j]);
        }
      }
    } else {
      assert !SomeBetween(t) by {
        forall j | 0 <= j < |t.d| ensures !Between(t.d[j]) { assert !Between(s.d[j]); }
      }
    }
  }

  lemma {:induction false} ReachesOn(s: State, acts: seq<Act>, t: State, more: seq<Act>, u: State)
    requires Reaches(s, acts, t) && Reaches(t, more, u)
    ensures Reaches(s, acts + more, u)
    decreases |acts|
  {
    if acts == [] {
      assert acts + more == more;
    } else {
      ReachesOn(Do(s, acts[0]), acts[1..], t, more, u);
      assert (acts + more)[1..] == acts[1..] + more;
    }
  }

  lemma OneStep(s: State, a: Act)
    requires Enabled(s, a)
    ensures Reaches(s, [a], Do(s, a))
  {
    assert [a][1..] == [] && Reaches(Do(s, a), [], Do(s, a));
  }

  /** From every reachable state the hand-off can come to rest, with every published pointer
      called and both mutexes free for the next dispatcher: no interleaving ends in a deadlock. */
  lemma {:induction false} CanComeToRest(s: State) returns (acts: seq<Act>, t: State)
    requires Inv(s)
    ensures Reaches(s, acts, t) && Inv(t) && Quiet(t) && AllTriggered(t)
    decreases Rank(s)
  {
    if Quiet(s) {
      return [], s;
    }
    PickAdvances(s);
    var a := Pick(s);
    acts, t := CanComeToRest(Do(s, a));
    OneStep(s, a);
    ReachesOn(s, [a], Do(s, a), acts, t);
    acts := [a] + acts;
  }

  // ---------------------------------------------------------------- why the firmware must wait

  /** In the firmware's loop nothing has been called yet. */
  lemma {:induction false} FirmwareCallsNothing(s: State, acts: seq<Act>, t: State)
    requires Reaches(s, acts, t) && (s.w == Firmware ==> s.triggered == [])
    ensures t.w == Firmware ==> t.triggered == []
    decreases |acts|
  {
    if acts == [] {
    } else {
      FirmwareCallsNothing(Do(s, acts[0]), acts[1..], t);
    }
  }

  /** Why leaving the firmware's loop waits for mutex 1. In every reachable state in which a pointer
      has been published and mutex 1 is not taken yet, leaving now starts a run in which that one
      publication is called twice: the worker's first park comes too early and frees both mutexes. */
  lemma FirmwareTooEarly(dispatchers: nat, before: seq<Act>, s: State) returns (after: seq<Act>, t: State)
    requires Reaches(Init(dispatchers), before, s) && s.w == Firmware && s.published != []
    requires s.m.Shaped(2, |s.d| + 1) && !s.m.word[M1]
    ensures Reaches(s.(w := Running, triggered := s.triggered + [s.exec]), after, t)
    ensures t.published == s.published == [s.exec] && t.triggered == [s.exec, s.exec]
  {
    RunKeepsInv(Init(dispatchers), before, s);
    FirmwareCallsNothing(Init(dispatchers), before, s);
    var i :| 0 <= i < |s.d| && Between(s.d[i]);
    assert DispatcherOk(s, i);
    var u := s.(w := Running, triggered := s.triggered + [s.exec]);
    var p := Parks(u);
    var more;
    more, t := TakesAndCalls(p, i);
    ReachesOn(u, [Work, Work, Work, Work, Work], p, more, t);
    after := [Work, Work, Work, Work, Work] + more;
  }

  /** The five steps from running to being parked. */
  lemma Parks(u: State) returns (p: State)
    requires u.m.Shaped(2, |u.d| + 1) && u.w == Running
    ensures Reaches(u, [Work, Work, Work, Work, Work], p) && p.m.Shaped(2, |u.d| + 1)
    ensures p == u.(w := Check, m := p.m) && !p.m.word[M1]
  {
    var r := ReleasesOne(u);
    p := ReleaseSteps(r);
    ReachesOn(u, [Work, Work, Work], r, [Work, Work], p);
    assert [Work, Work, Work] + [Work, Work] == [Work, Work, Work, Work, Work];
  }

  /** From running past the release of mutex 1. */
  lemma ReleasesOne(u: State) returns (r: State)
    requires u.m.Shaped(2, |u.d| + 1) && u.w == Running
    ensures Reaches(u, [Work, Work, Work], r) && r.m.Shaped(2, |u.d| + 1)
    ensures r == u.(w := Stlr0, m := r.m) && !r.m.word[M1]
  {
    var u1 := Do(u, Work);
    OneStep(u, Work);
    r := ReleaseSteps(u1);
    ReachesOn(u, [Work], u1, [Work, Work], r);
    assert [Work] + [Work, Work] == [Work, Work, Work];
  }

  /** One release_mutex: the stlr and the sev, after which no core sleeps on. */
  lemma ReleaseSteps(u: State) returns (r: State)
    requires u.m.Shaped(2, |u.d| + 1) && (u.w == Stlr1 || u.w == Stlr0)
    ensures Reaches(u, [Work, Work], r) && r.m.Shaped(2, |u.d| + 1)
    ensures r == u.(w := if u.w == Stlr1 then Stlr0 else Check, m := r.m)
    ensures !r.m.word[if u.w == Stlr1 then M1 else M0]
    ensures u.w == Stlr0 ==> r.m.word[M1] == u.m.word[M1]
    ensures forall c :: 0 <= c < |r.m.event| ==> r.m.event[c]
  {
    var v := Do(u, Work);
    r := Do(v, Work);
    OneStep(u, Work);
    OneStep(v, Work);
    ReachesOn(u, [Work], v, [Work], r);
    assert [Work] + [Work] == [Work, Work];
  }

  /** A dispatcher on its way to mutex 1, which is free, takes it, and the parked worker calls. */
  lemma TakesAndCalls(p: State, i: nat) returns (acts: seq<Act>, t: State)
    requires p.m.Shaped(2, |p.d| + 1) && p.w == Check && !p.m.word[M1]
    requires i < |p.d| && (p.d[i] == Load(M1) || p.d[i] == Try(M1))
    ensures Reaches(p, acts, t) && t.published == p.published && t.triggered == p.triggered + [p.exec]
  {
    if p.d[i] == Try(M1) {
      var r := Do(p, Stxr(i, false));
      OneStep(p, Stxr(i, false));
      acts, t := LoadsAndCalls(r, i);
      ReachesOn(p, [Stxr(i, false)], r, acts, t);
      acts := [Stxr(i, false)] + acts;
    } else {
      acts, t := LoadsAndCalls(p, i);
    }
  }

  lemma LoadsAndCalls(p: State, i: nat) returns (acts: seq<Act>, t: State)
    requires p.m.Shaped(2, |p.d| + 1) && p.w == Check && !p.m.word[M1] && i < |p.d| && p.d[i] == Load(M1)
    ensures Reaches(p, acts, t) && t.published == p.published && t.triggered == p.triggered + [p.exec]
  {
    var k := Takes(p, i);
    var f := Do(k, Work);
    t := Do(f, Work);
    OneStep(k, Work);
    OneStep(f, Work);
    ReachesOn(k, [Work], f, [Work], t);
    ReachesOn(p, [Ldaxr(i), Stxr(i, true)], k, [Work] + [Work], t);
    acts := [Ldaxr(i), Stxr(i, true)] + ([Work] + [Work]);
  }

  lemma Takes(p: State, i: nat) returns (k: State)
    requires p.m.Shaped(2, |p.d| + 1) && !p.m.word[M1] && i < |p.d| && p.d[i] == Load(M1)
    ensures Reaches(p, [Ldaxr(i), Stxr(i, true)], k)
    ensures k.m.Shaped(2, |k.d| + 1) && k.m.word[M1] && k == p.(m := k.m, d := k.d)
  {
    var q := Do(p, Ldaxr(i));
    k := Do(q, Stxr(i, true));
    OneStep(p, Ldaxr(i));
    OneStep(q, Stxr(i, true));
    ReachesOn(p, [Ldaxr(i)], q, [Stxr(i, true)], k);
    assert [Ldaxr(i)] + [Stxr(i, true)] == [Ldaxr(i), Stxr(i, true)];
  }
}
