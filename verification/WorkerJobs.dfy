/** The job list a core works off each time it is dispatched: worker_process and the operations on
    the list, from smp.c. */
module WorkerJobs {
  import opened Links

  datatype Position = Head | Middle | Tail

  /** A job: its function, its place in the list and, in the head only, the list's descriptor. */
  datatype JobInfo = JobInfo(fn: nat, pos: Position, meta: JobsMeta?)

  type Job = Node<JobInfo>

  class JobsMeta {
    var head: Job
    var tail: Job

    constructor (j: Job)
      ensures head == tail == j
    {
      head, tail := j, j;
    }
  }

  class Worker {
    var jobs: Job
    const meta: JobsMeta
    ghost var nodes: seq<Job>
    ghost var view: seq<nat>

    /** The chain, its descriptor and the functions to call agree, and each job knows its position. */
    ghost predicate Valid()
      reads this, meta, nodes
    {
      && nodes != [] && Linked(jobs, nodes) && |view| == |nodes|
      && meta.head == nodes[0] && meta.tail == nodes[|nodes| - 1]
      && (forall i :: 0 <= i < |nodes| ==>
            && view[i] == nodes[i].val.fn
            && (nodes[i].val.meta == if i == 0 then meta else null)
            && (nodes[i].val.pos == if i == 0 then Head else if i == |nodes| - 1 then Tail else Middle))
    }

    /** set_job_queue_head */
    constructor (fn: nat)
      ensures Valid() && view == [fn] && fresh(meta) && fresh(nodes)
    {
      var j := new Node(JobInfo(fn, Head, null));
      var m := new JobsMeta(j);
      j.val := j.val.(meta := m);
      jobs, meta, nodes, view := j, m, [j], [fn];
    }

    /** push_worker_job */
    method Push(fn: nat)
      requires Valid()
      modifies this, meta, nodes
      ensures Valid() && view == old(view) + [fn] && fresh(set n | n in nodes && n !in old(nodes))
      ensures State(view, []) == Happen(State(old(view), []), Queue(fn))
    {
      var m := jobs.val.meta;
      assert m == meta && nodes[0] == jobs;
      var n := new Node(JobInfo(fn, Tail, null));
      var tail := m.tail;
      tail.next := n;
      if tail.val.pos != Head { tail.val := tail.val.(pos := Middle); }
      m.tail := n;
      nodes, view := nodes + [n], view + [fn];
    }

    /** pop_worker_job, for a list of several jobs: the next job takes over the list. */
    method Pop()
      requires Valid() && |nodes| > 1
      modifies this, meta, nodes
      ensures Valid() && view == old(view)[1..] && nodes == old(nodes)[1..]
    {
      assert nodes[0].next == nodes[1];
      var next, m := jobs.next, jobs.val.meta;
      next.val := next.val.(meta := m);
      m.head := next;
      next.val := next.val.(pos := Head);
      jobs := next;
      nodes, view := nodes[1..], view[1..];
    }

    /** worker_process, with the functions it executes in the order it executes them: all jobs, each
        once, and the last of them stays in the list. */
    method Process() returns (executed: seq<nat>)
      requires Valid()
      modifies this, meta, nodes
      ensures Valid() && executed == old(view) && view == [executed[|executed| - 1]]
      ensures nodes == [old(nodes)[|old(nodes)| - 1]]
      ensures State(view, executed) == Happen(State(old(view), []), Dispatch)
    {
      executed := [];
      ghost var i, fns := 0, view;
      while true
        invariant 0 <= i < |old(nodes)| == |fns| && Valid() && nodes == old(nodes)[i..]
        invariant executed == fns[..i] && view == fns[i..]
        decreases |old(nodes)| - i
      {
        assert jobs == nodes[0] && jobs.val.fn == fns[i];
        executed := executed + [jobs.val.fn];
        if jobs.next == null { break; }
        Pop();
        i := i + 1;
      }
      assert i == |fns| - 1 && view == [fns[i]];
    }
  }

  // ---------------------------------------------------------------- over many dispatches

  datatype Event = Queue(fn: nat) | Dispatch

  /** The list and everything executed so far. */
  datatype State = State(jobs: seq<nat>, log: seq<nat>)

  function Happen(s: State, e: Event): (r: State)
    requires s.jobs != []
    ensures r.jobs != []
  {
    match e
    case Queue(fn) => State(s.jobs + [fn], s.log)
    case Dispatch => State([s.jobs[|s.jobs| - 1]], s.log + s.jobs)
  }

  function After(jobs: seq<nat>, es: seq<Event>): (s: State)
    requires jobs != []
    ensures s.jobs != []
  {
    if es == [] then State(jobs, []) else Happen(After(jobs, es[..|es| - 1]), es[|es| - 1])
  }

  function Arrival(e: Event): seq<nat> { if e.Queue? then [e.fn] else [] }

  function Queued(es: seq<Event>): seq<nat> {
    if es == [] then [] else Queued(es[..|es| - 1]) + Arrival(es[|es| - 1])
  }

  function Repeat(s: State, e: Event, dispatched: bool): seq<nat>
    requires s.jobs != []
  {
    if e == Dispatch && dispatched then [s.jobs[0]] else []
  }

  /** The jobs executed again: each dispatch but the first begins with the last job of the one
      before it. */
  function Repeats(jobs: seq<nat>, es: seq<Event>): seq<nat>
    requires jobs != []
  {
    if es == [] then [] else
    var p := es[..|es| - 1];
    Repeats(jobs, p) + Repeat(After(jobs, p), es[|es| - 1], Dispatch in p)
  }

  /** The jobs not executed yet: all, until the first dispatch, and from then on all but the first. */
  function Pending(s: State, dispatched: bool): seq<nat>
    requires s.jobs != []
  {
    if dispatched then s.jobs[1..] else s.jobs
  }

  /** What is executed, over any run: every job once, except for the repeats. Nothing is executed
      twice for any other reason and nothing queued is skipped. */
  lemma {:induction false} EachJobOnceButTheLast(jobs: seq<nat>, es: seq<Event>)
    requires jobs != []
    ensures var s := After(jobs, es);
            multiset(s.log) + multiset(Pending(s, Dispatch in es))
            == multiset(jobs) + (multiset(Queued(es)) + multiset(Repeats(jobs, es)))
  {
    if es == [] {
    } else {
      EachJobOnceButTheLast(jobs, es[..|es| - 1]);
      LogStep(jobs, es);
      CountStep(jobs, es);
    }
  }

  lemma LogStep(jobs: seq<nat>, es: seq<Event>)
    requires jobs != [] && es != []
    ensures var p, e := es[..|es| - 1], es[|es| - 1]; var s := After(jobs, p); var r := After(jobs, es);
            multiset(r.log) + multiset(Pending(r, Dispatch in es))
            == multiset(s.log) + multiset(Pending(s, Dispatch in p))
               + (multiset(Arrival(e)) + multiset(Repeat(s, e, Dispatch in p)))
  {
    var p, e := es[..|es| - 1], es[|es| - 1];
    assert es == p + [e];
    Balance(After(jobs, p), e, Dispatch in p);
  }

  lemma CountStep(jobs: seq<nat>, es: seq<Event>)
    requires jobs != [] && es != []
    ensures var p, e := es[..|es| - 1], es[|es| - 1];
            multiset(Queued(es)) + multiset(Repeats(jobs, es))
            == multiset(Queued(p)) + multiset(Repeats(jobs, p))
               + (multiset(Arrival(e)) + multiset(Repeat(After(jobs, p), e, Dispatch in p)))
  {
  }

  lemma Balance(s: State, e: Event, dispatched: bool)
    requires s.jobs != []
    ensures var r := Happen(s, e);
            multiset(r.log) + multiset(Pending(r, dispatched || e == Dispatch))
            == multiset(s.log) + multiset(Pending(s, dispatched)) + multiset(Arrival(e)) + multiset(Repeat(s, e, dispatched))
  {
    assert s.jobs == [s.jobs[0]] + s.jobs[1..];
    if e.Queue? { assert (s.jobs + [e.fn])[1..] == s.jobs[1..] + [e.fn]; }
  }

  /** What is executed for the first time: at each dispatch, what has not been executed yet. */
  function Firsts(jobs: seq<nat>, es: seq<Event>): seq<nat>
    requires jobs != []
  {
    if es == [] then [] else
    var p := es[..|es| - 1];
    Firsts(jobs, p) + if es[|es| - 1] == Dispatch then Pending(After(jobs, p), Dispatch in p) else []
  }

  /** Jobs are executed for the first time in the order in which they were queued. */
  lemma {:induction false} JobsInOrder(jobs: seq<nat>, es: seq<Event>)
    requires jobs != []
    ensures Firsts(jobs, es) + Pending(After(jobs, es), Dispatch in es) == jobs + Queued(es)
    ensures Dispatch in es ==> LastIsNext(After(jobs, es))
  {
    if es == [] {
    } else {
      var p, e := es[..|es| - 1], es[|es| - 1];
      JobsInOrder(jobs, p);
      assert es == p + [e];
      OneInOrder(After(jobs, p), e, Dispatch in p, Firsts(jobs, p), jobs + Queued(p));
      assert jobs + Queued(es) == jobs + Queued(p) + Arrival(e);
    }
  }

  /** The first job in the list is the one executed last. */
  predicate LastIsNext(s: State) {
    s.jobs != [] && s.log != [] && s.log[|s.log| - 1] == s.jobs[0]
  }

  lemma OneInOrder(s: State, e: Event, dispatched: bool, firsts: seq<nat>, all: seq<nat>)
    requires s.jobs != [] && firsts + Pending(s, dispatched) == all && (dispatched ==> LastIsNext(s))
    ensures var r, d := Happen(s, e), dispatched || e == Dispatch;
            && firsts + (if e == Dispatch then Pending(s, dispatched) else []) + Pending(r, d) == all + Arrival(e)
            && (d ==> LastIsNext(r))
  {
    if e.Queue? {
      assert (s.jobs + [e.fn])[1..] == s.jobs[1..] + [e.fn];
      assert firsts + (Pending(s, dispatched) + [e.fn]) == all + [e.fn];
    }
  }

  /** A dispatch executes the job executed last again, if there has been one, and then, in order, what
      has not been executed yet. */
  lemma WhatADispatchExecutes(jobs: seq<nat>, es: seq<Event>)
    requires jobs != []
    ensures Dispatch in es ==> After(jobs, es).log != []
    ensures var s, log := After(jobs, es), After(jobs, es + [Dispatch]).log;
            log == s.log + (if Dispatch in es then [s.log[|s.log| - 1]] else []) + Pending(s, Dispatch in es)
  {
    JobsInOrder(jobs, es);
    assert (es + [Dispatch])[..|es|] == es;
    DispatchLog(After(jobs, es), Dispatch in es);
  }

  lemma DispatchLog(s: State, dispatched: bool)
    requires s.jobs != [] && (dispatched ==> LastIsNext(s))
    ensures Happen(s, Dispatch).log == s.log + (if dispatched then [s.log[|s.log| - 1]] else []) + Pending(s, dispatched)
  {
    assert s.jobs == [s.jobs[0]] + s.jobs[1..];
  }
}
