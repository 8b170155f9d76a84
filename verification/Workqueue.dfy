/** The round-robin task queues of workqueue.c and the clone of task.c that feeds them. */
module Workqueue {

  import opened Links

  datatype Task = Task(pid: nat, completed: bool)

  // ---------------------------------------------------------------- the queue on values

  /** One turn: the head leaves, and rejoins at the tail unless it is done. */
  function Next<T(==)>(q: seq<T>, done: set<T>): seq<T> {
    if q == [] then [] else if q[0] in done then q[1..] else q[1..] + [q[0]]
  }

  function Turns<T(==)>(q: seq<T>, done: set<T>, n: nat): seq<T> {
    if n == 0 then q else Next(Turns(q, done, n - 1), done)
  }

  function Unfinished<T(==)>(q: seq<T>, done: set<T>): (r: seq<T>) {
    if q == [] then []
    else Unfinished(q[..|q| - 1], done) + (if q[|q| - 1] in done then [] else [q[|q| - 1]])
  }

  lemma {:induction false} TurnsSoFar<T>(q: seq<T>, done: set<T>, k: nat)
    requires k <= |q|
    ensures Turns(q, done, k) == q[k..] + Unfinished(q[..k], done)
  {
    if k == 0 {
      assert q[..0] == [] && q[0..] == q && q + [] == q;
    } else {
      TurnsSoFar(q, done, k - 1);
      assert q[k - 1..] == [q[k - 1]] + q[k..];
      assert q[..k][..k - 1] == q[..k - 1];
      NextOf(q[k - 1], q[k..], Unfinished(q[..k - 1], done), done);
    }
  }

  lemma NextOf<T>(t: T, rest: seq<T>, u: seq<T>, done: set<T>)
    ensures Next([t] + rest + u, done) == rest + (u + if t in done then [] else [t])
  {
    var s := [t] + rest + u;
    assert s[0] == t && s[1..] == rest + u;
    assert rest + u + [t] == rest + (u + [t]) && u + [] == u;
  }

  /** With the completion flags fixed, as many turns as there are tasks leave exactly the
      unfinished tasks, in their original order. */
  lemma FullRound<T>(q: seq<T>, done: set<T>)
    ensures Turns(q, done, |q|) == Unfinished(q, done)
  {
    TurnsSoFar(q, done, |q|);
    assert q[..|q|] == q && q[|q|..] == [];
  }

  /** What Unfinished keeps: no task that is done, and every other as often as it was queued. */
  lemma {:induction false} UnfinishedCounts<T>(q: seq<T>, done: set<T>, x: T)
    ensures multiset(Unfinished(q, done))[x] == if x in done then 0 else multiset(q)[x]
  {
    if q == [] {
    } else {
      var p, l := q[..|q| - 1], q[|q| - 1];
      UnfinishedCounts(p, done, x);
      assert q == p + [l];
      var u := Unfinished(p, done);
      assert Unfinished(q, done) == if l in done then u else u + [l];
      assert multiset(u + [l]) == multiset(u) + multiset{l};
    }
  }

  /** What may happen to a queue, with the tasks that are done at each turn. */
  datatype Event<T> = Turn(done: set<T>) | Push(t: T)

  /** The queue, and the tasks that have left it, in order. */
  datatype History<T> = History(queue: seq<T>, left: seq<T>)

  function Happen<T(==)>(h: History<T>, e: Event<T>): History<T> {
    match e
    case Push(t) => History(h.queue + [t], h.left)
    case Turn(done) =>
      History(Next(h.queue, done),
              if h.queue != [] && h.queue[0] in done then h.left + [h.queue[0]] else h.left)
  }

  function After<T(==)>(h: History<T>, es: seq<Event<T>>): History<T> {
    if es == [] then h else Happen(After(h, es[..|es| - 1]), es[|es| - 1])
  }

  function CountTurns<T>(es: seq<Event<T>>): nat {
    if es == [] then 0
    else CountTurns(es[..|es| - 1]) + (if es[|es| - 1].Turn? then 1 else 0)
  }

  function Pushed<T>(es: seq<Event<T>>): seq<T> {
    if es == [] then []
    else Pushed(es[..|es| - 1]) + (if es[|es| - 1].Push? then [es[|es| - 1].t] else [])
  }

  /** Fairness: whatever is pushed and whatever completes, the task at index i moves one place
      forward on each turn, so it is at the head after exactly i turns. */
  lemma {:induction false} WaitsItsTurn<T>(h: History<T>, es: seq<Event<T>>, i: nat)
    requires i < |h.queue| && CountTurns(es) <= i
    ensures |After(h, es).queue| > i - CountTurns(es)
    ensures After(h, es).queue[i - CountTurns(es)] == h.queue[i]
  {
    if es == [] {
    } else {
      WaitsItsTurn(h, es[..|es| - 1], i);
    }
  }

  /** Conservation: every task queued or pushed is either still queued or has left, once each. */
  lemma {:induction false} NoTaskLost<T>(h: History<T>, es: seq<Event<T>>)
    ensures multiset(After(h, es).queue) + multiset(After(h, es).left)
         == multiset(h.queue) + multiset(h.left) + multiset(Pushed(es))
  {
    if es == [] {
    } else {
      var g := After(h, es[..|es| - 1]);
      NoTaskLost(h, es[..|es| - 1]);
      HappenKeeps(g, es[|es| - 1]);
    }
  }

  lemma HappenKeeps<T>(h: History<T>, e: Event<T>)
    ensures multiset(Happen(h, e).queue) + multiset(Happen(h, e).left)
         == multiset(h.queue) + multiset(h.left) + multiset(if e.Push? then [e.t] else [])
  {
    if h.queue != [] { assert h.queue == [h.queue[0]] + h.queue[1..]; }
  }

  /** A task leaves only at the head of the queue and only when it is done at that turn. */
  lemma {:induction false} LeavesOnlyWhenDone<T>(h: History<T>, es: seq<Event<T>>, t: T)
    requires t !in h.left && t in After(h, es).left
    ensures exists k :: 0 <= k < |es| && es[k].Turn? && t in es[k].done
                     && After(h, es[..k]).queue != [] && After(h, es[..k]).queue[0] == t
  {
    var n := |es| - 1;
    if t in After(h, es[..n]).left {
      LeavesOnlyWhenDone(h, es[..n], t);
      var k :| 0 <= k < n && es[..n][k].Turn? && t in es[..n][k].done
            && After(h, es[..n][..k]).queue != [] && After(h, es[..n][..k]).queue[0] == t;
      assert es[..n][..k] == es[..k];
    }
  }

  // ---------------------------------------------------------------- the queue in memory

  ghost function Done(q: seq<Node<Task>>): set<Node<Task>>
    reads q
  {
    set t | t in q && t.val.completed
  }

  class Workqueue {
    var queue: Node?<Task>
    ghost var nodes: seq<Node<Task>>

    ghost predicate Valid()
      reads this, nodes
    {
      Linked(queue, nodes)
    }

    constructor ()
      ensures Valid() && nodes == []
    {
      queue, nodes := null, [];
    }

    /** Takes the head off. A completed head is given up: the result is then null. */
    method Pop() returns (t: Node?<Task>)
      requires Valid()
      modifies this, if queue == null then {} else {queue}
      ensures Valid() && nodes == if old(nodes) == [] then [] else old(nodes)[1..]
      ensures forall n :: n in old(nodes) ==> n.val == old(n.val)
      ensures old(nodes) == [] ==> t == null
      ensures old(nodes) != [] ==>
                t == if old(nodes)[0].val.completed then null else old(nodes)[0]
      ensures t != null ==> t.next == null
    {
      if queue == null { return null; }
      t := queue;
      assert nodes[0] == t;
      queue := t.next;
      t.next := null;
      nodes := nodes[1..];
      if t.val.completed { return null; }
    }

    /** Appends t, without clearing its next pointer when the queue has a task already. */
    method Push(t: Node<Task>)
      requires Valid() && t !in nodes
      requires nodes == [] || t.next == null
      modifies this, t, nodes
      ensures Valid() && nodes == old(nodes) + [t]
      ensures forall n :: n in nodes ==> n.val == old(n.val)
    {
      if queue == null {
        queue := t;
        t.next := null;
      } else {
        var tail := Tail(queue, nodes);
        tail.next := t;
      }
      nodes := nodes + [t];
    }

    /** The turn the scheduler takes; the new head runs next. */
    method QueueNext() returns (t: Node?<Task>)
      requires Valid()
      modifies this, nodes
      ensures Valid() && t == queue
      ensures nodes == Next(old(nodes), old(Done(nodes)))
      ensures forall n :: n in old(nodes) ==> n.val == old(n.val)
    {
      t := Pop();
      if t != null { Push(t); }
      t := queue;
    }

    /** Push on any task outside the queue, with nothing asked of its next pointer. The queue ends
        up being the old one followed by t exactly when t was not pointing anywhere, or the queue
        was empty. */
    method PushAsWritten(t: Node<Task>)
      requires Valid() && t !in nodes
      modifies this, t, nodes
      ensures nodes == old(nodes) && Joined(queue, nodes + [t])
      ensures t.next == if nodes == [] then null else old(t.next)
      ensures Linked(queue, nodes + [t]) <==> nodes == [] || old(t.next) == null
    {
      if queue == null {
        queue := t;
        t.next := null;
      } else {
        var tail := Tail(queue, nodes);
        tail.next := t;
      }
      assert (nodes + [t])[|nodes|] == t;
    }

    /** Pushing a task that waits in the queue already makes the chain endless. */
    method PushTwice(t: Node<Task>)
      requires Valid() && t in nodes
      modifies nodes
      ensures queue == old(queue) && nodes == old(nodes) && Cyclic(queue, nodes)
    {
      var tail := Tail(queue, nodes);
      tail.next := t;
    }
  }

  /** The nodes of s follow each other from first; what the last points to is left open. */
  ghost predicate Joined<T>(first: Node?<T>, s: seq<Node<T>>)
    reads s
  {
    && s != [] && first == s[0]
    && (forall i :: 0 <= i < |s| - 1 ==> s[i].next == s[i + 1])
    && (forall i, j :: 0 <= i < j < |s| ==> s[i] != s[j])
  }

  /** The nodes of s follow each other from first, and the last points back into s. */
  ghost predicate Cyclic<T>(first: Node?<T>, s: seq<Node<T>>)
    reads s
  {
    Joined(first, s) && s[|s| - 1].next != null && s[|s| - 1].next in s
  }

  lemma {:induction false} JoinedIsPrefix<T>(first: Node?<T>, s: seq<Node<T>>, t: seq<Node<T>>, k: nat)
    requires Joined(first, s) && Linked(first, t) && k < |s|
    ensures k < |t| && t[k] == s[k]
  {
    if k == 0 {
    } else {
      JoinedIsPrefix(first, s, t, k - 1);
      assert t[k - 1].next == s[k];
    }
  }

  lemma NextGoesForward<T>(first: Node?<T>, t: seq<Node<T>>, i: nat, j: nat)
    requires Linked(first, t) && i < |t| && j < |t| && t[i].next == t[j]
    ensures j == i + 1
  {
    assert t[i].next == t[i + 1];
  }

  /** No finite list of nodes is what following next around a cycle visits: a walk to the tail of
      such a queue does not return. */
  lemma NeverEnds<T>(first: Node?<T>, s: seq<Node<T>>, t: seq<Node<T>>)
    requires Cyclic(first, s)
    ensures !Linked(first, t)
  {
    var n := |s|;
    var back :| 0 <= back < n && s[back] == s[n - 1].next;
    if Linked(first, t) {
      JoinedIsPrefix(first, s, t, n - 1);
      JoinedIsPrefix(first, s, t, back);
      NextGoesForward(first, t, n - 1, back);
    }
  }

  /** A clone copies every field of its parent, the next pointer included. */
  method Clone(parent: Node<Task>, pid: nat) returns (child: Node<Task>)
    ensures fresh(child) && child.next == parent.next && child.val == parent.val.(pid := pid)
  {
    child := new Node(parent.val.(pid := pid));
    child.next := parent.next;
  }

  /** Creating a thread from the running task, the head of the queue, and queueing it: this is an
      append when the running task is alone, and a cycle through the second task otherwise. */
  method CreateAndQueue(wq: Workqueue, pid: nat) returns (child: Node<Task>)
    requires wq.Valid() && wq.nodes != []
    modifies wq, wq.nodes
    ensures fresh(child) && wq.nodes == old(wq.nodes)
    ensures |wq.nodes| == 1 ==> Linked(wq.queue, wq.nodes + [child])
    ensures |wq.nodes| >= 2 ==> Cyclic(wq.queue, wq.nodes + [child])
  {
    child := Clone(wq.queue, pid);
    wq.PushAsWritten(child);
    ghost var s := wq.nodes + [child];
    if |wq.nodes| >= 2 {
      assert s[|s| - 1] == child && s[1] == child.next;
    }
  }
}
