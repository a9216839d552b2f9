/** Sequential task groups of ebla/util/goroutines: submitters, joiners and workers that share
    groups under a lock and hand them over through a bounded queue.  Every interleaving of
    their atomic steps is considered. */
module TaskGroup {
  import opened Wrappers

  // ---------------------------------------------------------------------------------
  // Counting
  // ---------------------------------------------------------------------------------

  function Count<T>(xs: seq<T>, p: T -> bool): (n: nat)
    ensures n <= |xs|
  {
    if xs == [] then 0 else (if p(xs[0]) then 1 else 0) + Count(xs[1..], p)
  }

  lemma {:induction false} CountUpdate<T>(xs: seq<T>, i: nat, y: T, p: T -> bool)
    requires i < |xs|
    ensures Count(xs[i := y], p) + (if p(xs[i]) then 1 else 0) == Count(xs, p) + (if p(y) then 1 else 0)
    decreases i
  {
    if i == 0 {
      assert xs[0 := y][1..] == xs[1..];
    } else {
      assert xs[i := y][1..] == xs[1..][i - 1 := y];
      CountUpdate(xs[1..], i - 1, y, p);
    }
  }

  lemma {:induction false} CountAppend<T>(xs: seq<T>, y: T, p: T -> bool)
    ensures Count(xs + [y], p) == Count(xs, p) + (if p(y) then 1 else 0)
    decreases |xs|
  {
    if xs == [] {
      assert xs + [y] == [y] && [y][1..] == [];
    } else {
      assert (xs + [y])[1..] == xs[1..] + [y];
      CountAppend(xs[1..], y, p);
    }
  }

  lemma {:induction false} CountSome<T>(xs: seq<T>, i: nat, p: T -> bool)
    requires i < |xs| && p(xs[i])
    ensures Count(xs, p) >= 1
    decreases i
  {
    if i > 0 { CountSome(xs[1..], i - 1, p); }
  }

  lemma {:induction false} CountTwo<T>(xs: seq<T>, i: nat, j: nat, p: T -> bool)
    requires i < j < |xs| && p(xs[i]) && p(xs[j])
    ensures Count(xs, p) >= 2
    decreases i
  {
    if i == 0 { CountSome(xs[1..], j - 1, p); } else { CountTwo(xs[1..], i - 1, j - 1, p); }
  }

  lemma {:induction false} CountNone<T>(xs: seq<T>, p: T -> bool)
    requires forall i :: 0 <= i < |xs| ==> !p(xs[i])
    ensures Count(xs, p) == 0
    decreases |xs|
  {
    if xs != [] { CountNone(xs[1..], p); }
  }

  // ---------------------------------------------------------------------------------
  // State
  // ---------------------------------------------------------------------------------

  /** A submitted function; `Join` submits the unlocking of a fresh mutex. */
  datatype Task = Work(id: nat) | Unlock(mutex: nat)

  /** `SequentialTaskGroup`, with what was ever submitted and what has finished. */
  datatype Group = Group(pending: seq<Task>, executing: seq<Task>, submitted: seq<Task>, finished: seq<Task>)

  /** A worker goroutine: waiting at the queue; before the lock in `execute_pending`; or in the
      loop over the tasks, between tasks or in one. */
  datatype Worker = Idle | Starting(g: nat) | Running(g: nat, i: nat, busy: bool)

  /** A client goroutine: free; blocked on the send of a group it found empty; or in `Join`. */
  datatype Thread = Free | Sending(g: nat) | Joining(mutex: nat) | Joined(g: nat, before: nat)

  /** The mutex of a `Join`, the group, and where in the order of submission its task is. */
  datatype Mutex = Mutex(locked: bool, g: nat, at: nat)

  datatype Sys = Sys(groups: seq<Group>, queue: seq<nat>, capacity: nat, workers: seq<Worker>,
                     threads: seq<Thread>, mutexes: seq<Mutex>)

  predicate Nothing(x: Group)
  {
    |x.pending| == 0 && |x.executing| == 0
  }

  // ---------------------------------------------------------------------------------
  // Steps
  // ---------------------------------------------------------------------------------

  datatype Step =
    | Submit(t: nat, g: nat, id: nat)   // the locked part of Submit
    | Send(t: nat)                      // host_queue <- self, when there is room
    | Receive(w: nat)                   // g := <-pending_groups
    | Take(w: nat)                      // the locked part of execute_pending
    | Start(w: nat)                     // a task begins
    | Finish(w: nat)                    // and ends
    | Join(t: nat, g: nat)              // the locked part of Join
    | Return(t: nat)                    // the second m.Lock() of Join succeeds

  predicate Enabled(s: Sys, x: Step)
  {
    match x
    case Submit(t, g, _) => t < |s.threads| && g < |s.groups| && (s.threads[t].Free? || s.threads[t].Joined?)
    case Send(t) => t < |s.threads| && s.threads[t].Sending? && |s.queue| < s.capacity
    case Receive(w) => w < |s.workers| && s.workers[w].Idle? && s.queue != []
    case Take(w) =>
      w < |s.workers| && var k := s.workers[w];
      !k.Idle? && k.g < |s.groups| && (k.Running? ==> !k.busy && k.i >= |s.groups[k.g].executing|)
    case Start(w) =>
      w < |s.workers| && var k := s.workers[w];
      k.Running? && !k.busy && k.g < |s.groups| && k.i < |s.groups[k.g].executing|
    case Finish(w) =>
      w < |s.workers| && var k := s.workers[w];
      k.Running? && k.busy && k.g < |s.groups| && k.i < |s.groups[k.g].executing|
    case Join(t, g) => t < |s.threads| && g < |s.groups| && (s.threads[t].Free? || s.threads[t].Joined?)
    case Return(t) =>
      t < |s.threads| && s.threads[t].Joining? && s.threads[t].mutex < |s.mutexes| && !s.mutexes[s.threads[t].mutex].locked
  }

  function Submitted(x: Group, task: Task): (r: Group)
  {
    x.(pending := x.pending + [task], submitted := x.submitted + [task])
  }

  /** The swap under the lock. */
  function Swapped(x: Group): (r: Group)
  {
    x.(executing := x.pending, pending := [])
  }

  function Do(s: Sys, x: Step): (r: Sys)
    requires Enabled(s, x)
  {
    match x
    case Submit(t, g, id) =>
      s.(groups := s.groups[g := Submitted(s.groups[g], Work(id))],
         threads := s.threads[t := if Nothing(s.groups[g]) then Sending(g) else Free])
    case Send(t) => s.(queue := s.queue + [s.threads[t].g], threads := s.threads[t := Free])
    case Receive(w) => s.(queue := s.queue[1..], workers := s.workers[w := Starting(s.queue[0])])
    case Take(w) =>
      var g := s.workers[w].g;
      if |s.groups[g].pending| == 0 then
        s.(groups := s.groups[g := s.groups[g].(executing := [])], workers := s.workers[w := Idle])
      else
        s.(groups := s.groups[g := Swapped(s.groups[g])], workers := s.workers[w := Running(g, 0, false)])
    case Start(w) => s.(workers := s.workers[w := s.workers[w].(busy := true)])
    case Finish(w) =>
      var k := s.workers[w];
      var task := s.groups[k.g].executing[k.i];
      s.(groups := s.groups[k.g := s.groups[k.g].(finished := s.groups[k.g].finished + [task])],
         workers := s.workers[w := Running(k.g, k.i + 1, false)],
         mutexes := if task.Unlock? && task.mutex < |s.mutexes| then s.mutexes[task.mutex := s.mutexes[task.mutex].(locked := false)]
                    else s.mutexes)
    case Join(t, g) =>
      if Nothing(s.groups[g]) then s.(threads := s.threads[t := Joined(g, |s.groups[g].submitted|)])
      else
        var m := |s.mutexes|;
        s.(groups := s.groups[g := Submitted(s.groups[g], Unlock(m))],
           threads := s.threads[t := Joining(m)],
           mutexes := s.mutexes + [Mutex(true, g, |s.groups[g].submitted|)])
    case Return(t) =>
      var m := s.mutexes[s.threads[t].mutex];
      s.(threads := s.threads[t := Joined(m.g, m.at)])
  }

  /** n groups, workers and threads, nothing submitted. */
  function Init(groups: nat, capacity: nat, workers: nat, threads: nat): (s: Sys)
  {
    Sys(seq(groups, _ => Group([], [], [], [])), [], capacity, seq(workers, _ => Idle), seq(threads, _ => Free), [])
  }

  // ---------------------------------------------------------------------------------
  // The invariant
  // ---------------------------------------------------------------------------------

  /** Scheduling tokens of group g: senders, queue entries and workers. */
  function Tokens(s: Sys, g: nat): (n: nat)
  {
    Count(s.threads, (t: Thread) => t == Sending(g)) + Count(s.queue, (q: nat) => q == g) +
    Count(s.workers, (w: Worker) => !w.Idle? && w.g == g)
  }

  /** One token exactly when there is something to do; tasks finish in the order of
      submission. */
  ghost predicate GroupInv(s: Sys, g: nat)
    requires g < |s.groups|
  {
    var x := s.groups[g];
    Tokens(s, g) == (if Nothing(x) then 0 else 1) && x.finished <= x.submitted &&
    (x.executing == [] ==> x.submitted == x.finished + x.pending)
  }

  /** Outside the loop over the tasks the batch is empty; in it, the rest of the batch is what
      was submitted next. */
  ghost predicate WorkerInv(s: Sys, w: Worker)
  {
    (!w.Idle? ==> w.g < |s.groups|) &&
    (w.Starting? ==> s.groups[w.g].executing == []) &&
    (w.Running? ==>
       var x := s.groups[w.g];
       w.i <= |x.executing| && x.executing != [] && (w.busy ==> w.i < |x.executing|) &&
       x.submitted == x.finished + x.executing[w.i..] + x.pending)
  }

  ghost predicate ThreadInv(s: Sys, t: Thread)
  {
    (t.Sending? ==> t.g < |s.groups| && s.groups[t.g].executing == []) &&
    (t.Joining? ==> t.mutex < |s.mutexes|) &&
    (t.Joined? ==> t.g < |s.groups| && t.before <= |s.groups[t.g].finished|)
  }

  /** A mutex is unlocked by its own task, and exactly when that has finished. */
  ghost predicate MutexInv(s: Sys, m: nat)
    requires m < |s.mutexes|
  {
    var x := s.mutexes[m];
    x.g < |s.groups| && x.at < |s.groups[x.g].submitted| && s.groups[x.g].submitted[x.at] == Unlock(m) &&
    (!x.locked <==> x.at < |s.groups[x.g].finished|)
  }

  ghost predicate MarkerInv(s: Sys, g: nat, k: nat)
    requires g < |s.groups| && k < |s.groups[g].submitted|
  {
    var task := s.groups[g].submitted[k];
    task.Unlock? ==> task.mutex < |s.mutexes| && s.mutexes[task.mutex].g == g && s.mutexes[task.mutex].at == k
  }

  ghost predicate Inv(s: Sys)
  {
    (forall g :: 0 <= g < |s.groups| ==> GroupInv(s, g)) &&
    (forall w :: 0 <= w < |s.workers| ==> WorkerInv(s, s.workers[w])) &&
    (forall t :: 0 <= t < |s.threads| ==> ThreadInv(s, s.threads[t])) &&
    (forall i :: 0 <= i < |s.queue| ==> s.queue[i] < |s.groups| && s.groups[s.queue[i]].executing == []) &&
    (forall m :: 0 <= m < |s.mutexes| ==> MutexInv(s, m)) &&
    (forall g, k :: 0 <= g < |s.groups| && 0 <= k < |s.groups[g].submitted| ==> MarkerInv(s, g, k))
  }

  // ---------------------------------------------------------------------------------
  // Tokens
  // ---------------------------------------------------------------------------------

  /** A worker at a group holds its only token. */
  lemma OnlyHolder(s: Sys, w: nat)
    requires Inv(s) && w < |s.workers| && !s.workers[w].Idle?
    ensures var g := s.workers[w].g;
            !Nothing(s.groups[g]) && Tokens(s, g) == 1 &&
            (forall v :: 0 <= v < |s.workers| && v != w ==> s.workers[v].Idle? || s.workers[v].g != g) &&
            (forall t :: 0 <= t < |s.threads| ==> s.threads[t] != Sending(g)) &&
            (forall i :: 0 <= i < |s.queue| ==> s.queue[i] != g)
  {
    var g := s.workers[w].g;
    assert WorkerInv(s, s.workers[w]) && GroupInv(s, g);
    var pw, pt, pq := (k: Worker) => !k.Idle? && k.g == g, (t: Thread) => t == Sending(g), (q: nat) => q == g;
    CountSome(s.workers, w, pw);
    forall v | 0 <= v < |s.workers| && v != w ensures s.workers[v].Idle? || s.workers[v].g != g {
      if !s.workers[v].Idle? && s.workers[v].g == g {
        if v < w { CountTwo(s.workers, v, w, pw); } else { CountTwo(s.workers, w, v, pw); }
      }
    }
    forall t | 0 <= t < |s.threads| ensures s.threads[t] != Sending(g) {
      if s.threads[t] == Sending(g) { CountSome(s.threads, t, pt); }
    }
    forall i | 0 <= i < |s.queue| ensures s.queue[i] != g {
      if s.queue[i] == g { CountSome(s.queue, i, pq); }
    }
  }

  /** How a step changes the number of tokens. */
  function Delta(s: Sys, x: Step, h: nat): (d: int)
    requires Enabled(s, x)
  {
    match x
    case Submit(_, g, _) => if g == h && Nothing(s.groups[g]) then 1 else 0
    case Take(w) => if s.workers[w].g == h && |s.groups[h].pending| == 0 then -1 else 0
    case _ => 0
  }

  lemma TokensAfter(s: Sys, x: Step, h: nat)
    requires Enabled(s, x)
    ensures Tokens(Do(s, x), h) == Tokens(s, h) + Delta(s, x, h)
  {
    var r := Do(s, x);
    var pw, pt, pq := (k: Worker) => !k.Idle? && k.g == h, (t: Thread) => t == Sending(h), (q: nat) => q == h;
    match x
    case Submit(t, _, _) => CountUpdate(s.threads, t, r.threads[t], pt);
    case Send(t) => CountUpdate(s.threads, t, r.threads[t], pt); CountAppend(s.queue, s.threads[t].g, pq);
    case Receive(w) => CountUpdate(s.workers, w, r.workers[w], pw);
    case Take(w) => CountUpdate(s.workers, w, r.workers[w], pw);
    case Start(w) => CountUpdate(s.workers, w, r.workers[w], pw);
    case Finish(w) => CountUpdate(s.workers, w, r.workers[w], pw);
    case Join(t, _) => CountUpdate(s.threads, t, r.threads[t], pt);
    case Return(t) => CountUpdate(s.threads, t, r.threads[t], pt);
  }

  // ---------------------------------------------------------------------------------
  // Every step keeps the invariant
  // ---------------------------------------------------------------------------------

  lemma InitInv(groups: nat, capacity: nat, workers: nat, threads: nat)
    ensures Inv(Init(groups, capacity, workers, threads))
  {
    var s := Init(groups, capacity, workers, threads);
    forall g | 0 <= g < groups ensures GroupInv(s, g) {
      CountNone(s.threads, (t: Thread) => t == Sending(g));
      CountNone(s.queue, (q: nat) => q == g);
      CountNone(s.workers, (w: Worker) => !w.Idle? && w.g == g);
    }
  }

  /** Tasks that join a group at its end. */
  lemma AppendKeepsInv(s: Sys, r: Sys, x: Step, g: nat, task: Task)
    requires Inv(s) && Enabled(s, x) && r == Do(s, x) && g < |s.groups|
    requires (x.Submit? && x.g == g && task == Work(x.id)) || (x.Join? && x.g == g && !Nothing(s.groups[g]) && task == Unlock(|s.mutexes|))
    ensures Inv(r)
  {
    hide Tokens;
    forall h | 0 <= h < |r.groups| ensures GroupInv(r, h) {
      assert GroupInv(s, h);
      TokensAfter(s, x, h);
    }
    forall w | 0 <= w < |r.workers| ensures WorkerInv(r, r.workers[w]) {
      assert WorkerInv(s, s.workers[w]);
    }
    forall t | 0 <= t < |r.threads| ensures ThreadInv(r, r.threads[t]) {
      assert ThreadInv(s, s.threads[t]);
    }
    assert GroupInv(s, g);
    forall m | 0 <= m < |r.mutexes| ensures MutexInv(r, m) {
      if m < |s.mutexes| { assert MutexInv(s, m); }
    }
    forall h, k | 0 <= h < |r.groups| && 0 <= k < |r.groups[h].submitted| ensures MarkerInv(r, h, k) {
      if k < |s.groups[h].submitted| { assert MarkerInv(s, h, k); }
    }
  }

  /** Steps that touch neither groups nor mutexes. */
  lemma MoveKeepsInv(s: Sys, x: Step)
    requires Inv(s) && Enabled(s, x)
    requires x.Send? || x.Receive? || x.Start? || x.Return? || (x.Join? && Nothing(s.groups[x.g]))
    ensures Inv(Do(s, x))
  {
    hide Tokens;
    var r := Do(s, x);
    forall h | 0 <= h < |r.groups| ensures GroupInv(r, h) {
      assert GroupInv(s, h);
      TokensAfter(s, x, h);
    }
    forall w | 0 <= w < |r.workers| ensures WorkerInv(r, r.workers[w]) {
      assert WorkerInv(s, s.workers[w]);
    }
    forall t | 0 <= t < |r.threads| ensures ThreadInv(r, r.threads[t]) {
      assert ThreadInv(s, s.threads[t]);
      if x.Return? && x.t == t { assert MutexInv(s, s.threads[t].mutex); }
      if x.Join? { assert GroupInv(s, x.g); }
    }
    forall m | 0 <= m < |r.mutexes| ensures MutexInv(r, m) {
      assert MutexInv(s, m);
    }
    forall h, k | 0 <= h < |r.groups| && 0 <= k < |r.groups[h].submitted| ensures MarkerInv(r, h, k) {
      assert MarkerInv(s, h, k);
    }
  }

  lemma TakeKeepsInv(s: Sys, w: nat)
    requires Inv(s) && Enabled(s, Take(w))
    ensures Inv(Do(s, Take(w)))
  {
    hide Tokens;
    var r, g := Do(s, Take(w)), s.workers[w].g;
    OnlyHolder(s, w);
    assert WorkerInv(s, s.workers[w]) && GroupInv(s, g);
    forall h | 0 <= h < |r.groups| ensures GroupInv(r, h) {
      assert GroupInv(s, h);
      TokensAfter(s, Take(w), h);
    }
    forall v | 0 <= v < |r.workers| ensures WorkerInv(r, r.workers[v]) {
      assert WorkerInv(s, s.workers[v]);
    }
    forall t | 0 <= t < |r.threads| ensures ThreadInv(r, r.threads[t]) {
      assert ThreadInv(s, s.threads[t]);
    }
    forall m | 0 <= m < |r.mutexes| ensures MutexInv(r, m) {
      assert MutexInv(s, m);
    }
    forall h, k | 0 <= h < |r.groups| && 0 <= k < |r.groups[h].submitted| ensures MarkerInv(r, h, k) {
      assert MarkerInv(s, h, k);
    }
  }

  lemma FinishKeepsInv(s: Sys, w: nat)
    requires Inv(s) && Enabled(s, Finish(w))
    ensures Inv(Do(s, Finish(w)))
  {
    hide Tokens;
    var r, k0 := Do(s, Finish(w)), s.workers[w];
    var g := k0.g;
    var x := s.groups[g];
    var task, n := x.executing[k0.i], |x.finished|;
    OnlyHolder(s, w);
    assert WorkerInv(s, k0) && GroupInv(s, g);
    assert x.executing[k0.i..] == [task] + x.executing[k0.i + 1..];
    assert x.submitted[n] == task;
    assert x.submitted == (x.finished + [task]) + x.executing[k0.i + 1..] + x.pending;
    assert MarkerInv(s, g, n);
    forall h | 0 <= h < |r.groups| ensures GroupInv(r, h) {
      assert GroupInv(s, h);
      TokensAfter(s, Finish(w), h);
    }
    forall v | 0 <= v < |r.workers| ensures WorkerInv(r, r.workers[v]) {
      assert WorkerInv(s, s.workers[v]);
    }
    forall t | 0 <= t < |r.threads| ensures ThreadInv(r, r.threads[t]) {
      assert ThreadInv(s, s.threads[t]);
    }
    forall m | 0 <= m < |r.mutexes| ensures MutexInv(r, m) {
      assert MutexInv(s, m);
    }
    forall h, k | 0 <= h < |r.groups| && 0 <= k < |r.groups[h].submitted| ensures MarkerInv(r, h, k) {
      assert MarkerInv(s, h, k);
    }
  }

  lemma StepKeepsInv(s: Sys, x: Step)
    requires Inv(s) && Enabled(s, x)
    ensures Inv(Do(s, x))
  {
    match x
    case Submit(_, g, id) => AppendKeepsInv(s, Do(s, x), x, g, Work(id));
    case Join(_, g) =>
      if Nothing(s.groups[g]) { MoveKeepsInv(s, x); } else { AppendKeepsInv(s, Do(s, x), x, g, Unlock(|s.mutexes|)); }
    case Take(w) => TakeKeepsInv(s, w);
    case Finish(w) => FinishKeepsInv(s, w);
    case _ => MoveKeepsInv(s, x);
  }

  // ---------------------------------------------------------------------------------
  // Interleavings
  // ---------------------------------------------------------------------------------

  /** Steps taken one after the other, each enabled where it is taken. */
  ghost predicate Schedule(s: Sys, xs: seq<Step>)
    decreases |xs|
  {
    xs == [] || (Enabled(s, xs[0]) && Schedule(Do(s, xs[0]), xs[1..]))
  }

  function After(s: Sys, xs: seq<Step>): (r: Sys)
    requires Schedule(s, xs)
    decreases |xs|
  {
    if xs == [] then s else After(Do(s, xs[0]), xs[1..])
  }

  lemma {:induction false} ScheduleKeepsInv(s: Sys, xs: seq<Step>)
    requires Inv(s) && Schedule(s, xs)
    ensures Inv(After(s, xs))
    decreases |xs|
  {
    if xs != [] {
      StepKeepsInv(s, xs[0]);
      ScheduleKeepsInv(Do(s, xs[0]), xs[1..]);
    }
  }

  /** Safety over all interleavings: no two workers at one group; tasks finish in the order in
      which they were submitted under the lock; a group with tasks to run has exactly one
      scheduling token, and an idle one has none. */
  lemma Safety(groups: nat, capacity: nat, workers: nat, threads: nat, xs: seq<Step>)
    requires Schedule(Init(groups, capacity, workers, threads), xs)
    ensures var s := After(Init(groups, capacity, workers, threads), xs);
            (forall v, w :: 0 <= v < w < |s.workers| && !s.workers[v].Idle? && !s.workers[w].Idle? ==> s.workers[v].g != s.workers[w].g) &&
            (forall g :: 0 <= g < |s.groups| ==> s.groups[g].finished <= s.groups[g].submitted) &&
            (forall g :: 0 <= g < |s.groups| ==> Tokens(s, g) == if Nothing(s.groups[g]) then 0 else 1)
  {
    InitInv(groups, capacity, workers, threads);
    var s0 := Init(groups, capacity, workers, threads);
    ScheduleKeepsInv(s0, xs);
    var s := After(s0, xs);
    forall v, w | 0 <= v < w < |s.workers| && !s.workers[v].Idle? && !s.workers[w].Idle?
      ensures s.workers[v].g != s.workers[w].g
    {
      OnlyHolder(s, v);
    }
    forall g | 0 <= g < |s.groups|
      ensures s.groups[g].finished <= s.groups[g].submitted && Tokens(s, g) == if Nothing(s.groups[g]) then 0 else 1
    {
      assert GroupInv(s, g);
    }
  }

  /** The submission order is never rewritten. */
  lemma StepExtends(s: Sys, x: Step)
    requires Enabled(s, x)
    ensures |Do(s, x).groups| == |s.groups|
    ensures forall g :: 0 <= g < |s.groups| ==>
              s.groups[g].submitted <= Do(s, x).groups[g].submitted && s.groups[g].finished <= Do(s, x).groups[g].finished
  {
  }

  /** What a joiner waits for was fixed when it took the lock. */
  ghost predicate Awaits(s: Sys, t: nat, g: nat, before: nat)
  {
    t < |s.threads| &&
    ((s.threads[t].Joining? && s.threads[t].mutex < |s.mutexes| &&
      s.mutexes[s.threads[t].mutex].g == g && s.mutexes[s.threads[t].mutex].at == before) ||
     s.threads[t] == Joined(g, before))
  }

  lemma JoinAwaitsAll(s: Sys, t: nat, g: nat)
    requires Enabled(s, Join(t, g))
    ensures Awaits(Do(s, Join(t, g)), t, g, |s.groups[g].submitted|)
  {
  }

  lemma {:induction false} AwaitsStays(s: Sys, xs: seq<Step>, t: nat, g: nat, before: nat)
    requires Schedule(s, xs) && Awaits(s, t, g, before)
    requires forall i :: 0 <= i < |xs| ==> !(xs[i].Submit? && xs[i].t == t) && !(xs[i].Join? && xs[i].t == t)
    ensures Awaits(After(s, xs), t, g, before)
    decreases |xs|
  {
    if xs != [] {
      AwaitsStays(Do(s, xs[0]), xs[1..], t, g, before);
    }
  }

  /** `Join` returns only after every task submitted before it has finished: whatever happens
      between its two halves, when thread t has come back the tasks that were in the order of
      submission when it took the lock are finished. */
  lemma JoinWaits(groups: nat, capacity: nat, workers: nat, threads: nat, xs: seq<Step>, t: nat, g: nat, ys: seq<Step>)
    requires Schedule(Init(groups, capacity, workers, threads), xs)
    requires var s := After(Init(groups, capacity, workers, threads), xs);
             Enabled(s, Join(t, g)) && Schedule(Do(s, Join(t, g)), ys)
    requires forall i :: 0 <= i < |ys| ==> !(ys[i].Submit? && ys[i].t == t) && !(ys[i].Join? && ys[i].t == t)
    ensures var s := After(Init(groups, capacity, workers, threads), xs);
            var r := After(Do(s, Join(t, g)), ys);
            t < |r.threads| && g < |r.groups| &&
            (r.threads[t].Joined? ==> s.groups[g].submitted <= r.groups[g].finished)
  {
    var s := After(Init(groups, capacity, workers, threads), xs);
    var s1 := Do(s, Join(t, g));
    var r := After(s1, ys);
    InitInv(groups, capacity, workers, threads);
    ScheduleKeepsInv(Init(groups, capacity, workers, threads), xs);
    StepKeepsInv(s, Join(t, g));
    ScheduleKeepsInv(s1, ys);
    JoinAwaitsAll(s, t, g);
    AwaitsStays(s1, ys, t, g, |s.groups[g].submitted|);
    SubmittedStays(s1, ys, g);
    StepExtends(s, Join(t, g));
    if r.threads[t].Joined? {
      assert ThreadInv(r, r.threads[t]) && GroupInv(r, g);
      PrefixOfFinished(s.groups[g].submitted, s1.groups[g].submitted, r.groups[g].submitted, r.groups[g].finished);
    }
  }

  lemma PrefixOfFinished<T>(a: seq<T>, b: seq<T>, c: seq<T>, f: seq<T>)
    requires a <= b && b <= c && f <= c && |a| <= |f|
    ensures a <= f
  {
    assert a == b[..|a|] == c[..|a|] == f[..|a|];
  }

  lemma {:induction false} SubmittedStays(s: Sys, xs: seq<Step>, g: nat)
    requires Schedule(s, xs) && g < |s.groups|
    ensures |After(s, xs).groups| == |s.groups| && s.groups[g].submitted <= After(s, xs).groups[g].submitted
    decreases |xs|
  {
    if xs != [] {
      StepExtends(s, xs[0]);
      SubmittedStays(Do(s, xs[0]), xs[1..], g);
    }
  }

  // ---------------------------------------------------------------------------------
  // Every join can return
  // ---------------------------------------------------------------------------------

  /** In every reachable state a joining thread can go on if and only if its task is among the
      finished ones. */
  lemma JoinReturnsIff(groups: nat, capacity: nat, workers: nat, threads: nat, xs: seq<Step>, t: nat)
    requires Schedule(Init(groups, capacity, workers, threads), xs)
    requires var s := After(Init(groups, capacity, workers, threads), xs); t < |s.threads| && s.threads[t].Joining?
    ensures var s := After(Init(groups, capacity, workers, threads), xs);
            s.threads[t].mutex < |s.mutexes| && var m := s.mutexes[s.threads[t].mutex];
            m.g < |s.groups| && m.at < |s.groups[m.g].submitted| &&
            s.groups[m.g].submitted[m.at] == Unlock(s.threads[t].mutex) &&
            (Enabled(s, Return(t)) <==> m.at < |s.groups[m.g].finished|)
  {
    InitInv(groups, capacity, workers, threads);
    ScheduleKeepsInv(Init(groups, capacity, workers, threads), xs);
    var s := After(Init(groups, capacity, workers, threads), xs);
    assert ThreadInv(s, s.threads[t]) && MutexInv(s, s.threads[t].mutex);
  }

  /** Steps that need no client. */
  predicate Inner(x: Step)
  {
    !x.Submit? && !x.Join?
  }

  /** A worker at a group can always go on. */
  lemma WorkerGoesOn(s: Sys, w: nat) returns (x: Step)
    requires Inv(s) && w < |s.workers| && !s.workers[w].Idle?
    ensures Inner(x) && Enabled(s, x)
  {
    hide GroupInv, MutexInv, MarkerInv, ThreadInv;
    var k := s.workers[w];
    assert WorkerInv(s, k);
    x := if k.Starting? then Take(w) else if k.busy then Finish(w) else if k.i < |s.groups[k.g].executing| then Start(w) else Take(w);
  }

  lemma QueueGoesOn(s: Sys) returns (x: Step)
    requires Inv(s) && s.queue != [] && |s.workers| > 0
    ensures Inner(x) && Enabled(s, x)
  {
    hide GroupInv, MutexInv, MarkerInv, ThreadInv, WorkerInv;
    if s.workers[0].Idle? { x := Receive(0); } else { x := WorkerGoesOn(s, 0); }
  }

  /** No deadlock: while a thread is in `Join`, it or somebody who works for it can go on. */
  lemma NoDeadlock(s: Sys, t: nat) returns (x: Step)
    requires Inv(s) && t < |s.threads| && s.threads[t].Joining? && |s.workers| > 0 && s.capacity > 0
    ensures Inner(x) && Enabled(s, x)
  {
    hide MarkerInv;
    var n := s.threads[t].mutex;
    assert ThreadInv(s, s.threads[t]) && MutexInv(s, n);
    var g := s.mutexes[n].g;
    if !s.mutexes[n].locked { return Return(t); }
    assert GroupInv(s, g) && !Nothing(s.groups[g]) && Tokens(s, g) == 1;
    x := TokenGoesOn(s, g);
  }

  lemma TokenGoesOn(s: Sys, g: nat) returns (x: Step)
    requires Inv(s) && Tokens(s, g) == 1 && |s.workers| > 0 && s.capacity > 0
    ensures Inner(x) && Enabled(s, x)
  {
    hide Inv;
    var pw, pt, pq := (k: Worker) => !k.Idle? && k.g == g, (t: Thread) => t == Sending(g), (q: nat) => q == g;
    if w :| 0 <= w < |s.workers| && pw(s.workers[w]) {
      x := WorkerGoesOn(s, w);
    } else if s.queue != [] {
      x := QueueGoesOn(s);
    } else if t :| 0 <= t < |s.threads| && pt(s.threads[t]) {
      x := Send(t);
    } else {
      CountNone(s.workers, pw);
      CountNone(s.threads, pt);
      assert false;
    }
  }
}
