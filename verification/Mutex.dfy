/** acquire_mutex and release_mutex of mutex.h on any number of cores, one instruction a step. */
module Mutex {
  import opened Exclusive

  /** What a core is about to do: nothing, ldaxr, stxr, wfe, its critical section, or the sev that
      follows the stlr. */
  datatype Pc = Outside | Load | Try | Sleep | Held | Signal

  datatype State = State(m: Machine, pc: seq<Pc>)

  datatype Act =
    | Enter(c: nat)           // acquire_mutex is called
    | Ldaxr(c: nat)           // load, then to stxr when 0 and to wfe when not
    | Stxr(c: nat, ok: bool)
    | Wake(c: nat)            // wfe completes
    | Stlr(c: nat)            // release_mutex stores 0
    | Sev(c: nat)
    | Disturb(c: nat)

  function Init(cores: nat): (s: State)
    ensures Inv(s) && |s.pc| == cores
  {
    State(Reset(1, cores), seq(cores, c => Outside))
  }

  predicate Enabled(s: State, a: Act) {
    && a.c < |s.pc| == |s.m.reserved| == |s.m.event| && |s.m.word| == 1
    && match a
       case Enter(c) => s.pc[c] == Outside
       case Ldaxr(c) => s.pc[c] == Load
       case Stxr(c, ok) => s.pc[c] == Try && (ok ==> s.m.reserved[c] == 0)
       case Wake(c) => s.pc[c] == Sleep && s.m.event[c]
       case Stlr(c) => s.pc[c] == Held
       case Sev(c) => s.pc[c] == Signal
       case Disturb(c) => true
  }

  function Do(s: State, a: Act): (t: State)
    requires Enabled(s, a)
    ensures |t.pc| == |s.pc| && t.m.Shaped(1, |t.pc|)
  {
    match a
    case Enter(c) => s.(pc := s.pc[c := Load])
    case Ldaxr(c) => State(s.m.Ldaxr(c, 0), s.pc[c := if s.m.word[0] then Sleep else Try])
    case Stxr(c, ok) => if ok then State(s.m.Store(0, true), s.pc[c := Held]) else State(s.m.StxrFail(c), s.pc[c := Load])
    case Wake(c) => State(s.m.Wfe(c), s.pc[c := Load])
    case Stlr(c) => State(s.m.Store(0, false), s.pc[c := Signal])
    case Sev(c) => State(s.m.Sev(), s.pc[c := Outside])
    case Disturb(c) => s.(m := s.m.Disturb(c))
  }

  /** From s the steps lead to t. */
  predicate Reaches(s: State, acts: seq<Act>, t: State)
    decreases |acts|
  {
    if acts == [] then s == t else Enabled(s, acts[0]) && Reaches(Do(s, acts[0]), acts[1..], t)
  }

  ghost predicate SomeAt(s: State, p: Pc) {
    exists c :: 0 <= c < |s.pc| && s.pc[c] == p
  }

  ghost predicate Inv(s: State) {
    && s.m.Shaped(1, |s.pc|)
    // the lock word is set exactly while a core is in its critical section, and only one can be
    && (s.m.word[0] <==> SomeAt(s, Held))
    && (forall c, d :: 0 <= c < |s.pc| && 0 <= d < |s.pc| && s.pc[c] == Held && s.pc[d] == Held ==> c == d)
    // a reservation that is still good at the stxr means the word is still clear
    && (forall c :: 0 <= c < |s.pc| && s.pc[c] == Try && s.m.reserved[c] == 0 ==> !s.m.word[0])
    // nobody sleeps through a release
    && (forall c :: 0 <= c < |s.pc| && s.pc[c] == Sleep && !s.m.event[c] ==> s.m.word[0] || SomeAt(s, Signal))
  }

  lemma StepKeepsInv(s: State, a: Act)
    requires Inv(s) && Enabled(s, a)
    ensures Inv(Do(s, a))
  {
    OthersStay(s, a, Held);
    OthersStay(s, a, Signal);
    match a
    case Stxr(c, ok) => if ok { TakeKeepsInv(s, c); }
    case Stlr(c) => ReleaseKeepsInv(s, c);
    case _ =>
  }

  /** What one core's step does to the question whether some core is at p. */
  lemma OthersStay(s: State, a: Act, p: Pc)
    requires Enabled(s, a)
    ensures var t := Do(s, a);
            && |t.pc| == |s.pc| && (forall c :: 0 <= c < |s.pc| && c != a.c ==> t.pc[c] == s.pc[c])
            && (t.pc[a.c] == p ==> SomeAt(t, p)) && (s.pc[a.c] == p ==> SomeAt(s, p))
            && (SomeAt(s, p) && s.pc[a.c] != p ==> SomeAt(t, p)) && (SomeAt(t, p) && t.pc[a.c] != p ==> SomeAt(s, p))
  {
    var t := Do(s, a);
    if SomeAt(s, p) && s.pc[a.c] != p {
      var c :| 0 <= c < |s.pc| && s.pc[c] == p;
      assert t.pc[c] == p;
    }
    if SomeAt(t, p) && t.pc[a.c] != p {
      var c :| 0 <= c < |t.pc| && t.pc[c] == p;
      assert s.pc[c] == p;
    }
  }

  /** The store that takes the lock ends every other core's reservation. */
  lemma TakeKeepsInv(s: State, c: nat)
    requires Inv(s) && Enabled(s, Stxr(c, true))
    ensures Inv(Do(s, Stxr(c, true)))
  {
    OthersStay(s, Stxr(c, true), Held);
    OthersStay(s, Stxr(c, true), Signal);
  }

  lemma ReleaseKeepsInv(s: State, c: nat)
    requires Inv(s) && Enabled(s, Stlr(c))
    ensures Inv(Do(s, Stlr(c)))
  {
    OthersStay(s, Stlr(c), Held);
    OthersStay(s, Stlr(c), Signal);
  }

  lemma {:induction false} RunKeepsInv(s: State, acts: seq<Act>, t: State)
    requires Inv(s) && Reaches(s, acts, t)
    ensures Inv(t) && |t.pc| == |s.pc|
    decreases |acts|
  {
    if acts == [] {
    } else {
      StepKeepsInv(s, acts[0]);
      RunKeepsInv(Do(s, acts[0]), acts[1..], t);
    }
  }

  /** For any number of cores and any interleaving: mutual exclusion, and no lost wake-up. */
  lemma LockSafe(cores: nat, acts: seq<Act>, t: State)
    requires Reaches(Init(cores), acts, t)
    ensures |t.pc| == |t.m.event| == cores
    ensures forall c, d :: 0 <= c < cores && 0 <= d < cores && t.pc[c] == Held && t.pc[d] == Held ==> c == d
    ensures forall c :: 0 <= c < cores && t.pc[c] == Sleep && !t.m.event[c] ==> SomeAt(t, Held) || SomeAt(t, Signal)
  {
    RunKeepsInv(Init(cores), acts, t);
  }

  // ---------------------------------------------------------------- no deadlock

  lemma {:induction false} ReachesOn(s: State, acts: seq<Act>, t: State, more: seq<Act>, u: State)
    requires Reaches(s, acts, t) && Reaches(t, more, u)
    ensures Reaches(s, acts + more, u)
    decreases |acts|
  {
    if acts == [] {
      assert acts + more == more;
    } else {
      ReachesOn(Do(s, acts[0]), acts[1..], t, more, u);
      assert (acts + more)[1..] == acts[1..] + more;
    }
  }

  lemma OneStep(s: State, a: Act)
    requires Enabled(s, a)
    ensures Reaches(s, [a], Do(s, a))
  {
    assert Reaches(Do(s, a), [], Do(s, a));
  }

  /** The step that brings waiting core c nearer to the lock: c's own when it can move to some
      purpose, otherwise that of the holder or of the core that still has to signal. */
  ghost function Pick(s: State, c: nat): (a: Act)
    requires Inv(s) && c < |s.pc| && s.pc[c] in {Load, Try, Sleep}
    ensures Enabled(s, a)
  {
    if s.m.word[0] then var h :| 0 <= h < |s.pc| && s.pc[h] == Held; Stlr(h)
    else if s.pc[c] == Load then Ldaxr(c)
    else if s.pc[c] == Try then Stxr(c, s.m.reserved[c] == 0)
    else if s.m.event[c] then Wake(c)
    else var d :| 0 <= d < |s.pc| && s.pc[d] == Signal; Sev(d)
  }

  /** How many picked steps are left at most. */
  function Distance(s: State, c: nat): nat
    requires c < |s.pc| == |s.m.reserved| == |s.m.event| && |s.m.word| == 1
  {
    if s.pc[c] == Held then 0
    else (if s.m.word[0] then 10 else 0) +
         (if s.pc[c] == Load then 2
          else if s.pc[c] == Try then (if s.m.reserved[c] == 0 then 1 else 3)
          else if s.m.event[c] then 4 else 5)
  }

  lemma PickAdvances(s: State, c: nat)
    requires Inv(s) && c < |s.pc| && s.pc[c] in {Load, Try, Sleep}
    ensures var t := Do(s, Pick(s, c));
            && Inv(t) && Distance(t, c) < Distance(s, c)
            && t.pc[c] in {Load, Try, Sleep, Held}
  {
    StepKeepsInv(s, Pick(s, c));
  }

  /** From every reachable state a core that wants the lock can still get it: no interleaving ends
      in a deadlock. */
  lemma {:induction false} CanAcquire(s: State, c: nat) returns (acts: seq<Act>, t: State)
    requires Inv(s) && c < |s.pc| && s.pc[c] in {Load, Try, Sleep, Held}
    ensures Reaches(s, acts, t) && |t.pc| == |s.pc| && t.pc[c] == Held
    decreases Distance(s, c)
  {
    if s.pc[c] == Held {
      return [], s;
    }
    var a := Pick(s, c);
    PickAdvances(s, c);
    OneStep(s, a);
    acts, t := CanAcquire(Do(s, a), c);
    ReachesOn(s, [a], Do(s, a), acts, t);
    acts := [a] + acts;
  }
}
