// The read-write locked cache: calls from any number of threads, as blocks on a
// concurrent queue with barriers.
module RWLockCache {
  import opened Wrappers

  type Key(==, !new)
  type Value(==, !new)

  /** What is put on the queue: a plain block that reads, or a barrier. */
  datatype Block = Read(key: Key) | Fill(key: Key) | Check(key: Key) | Put(key: Key, value: Value)

  datatype Effect = Nothing | Insert(key: Key, value: Value) | Remove(key: Key)

  /** A barrier looks at the cache when it starts and changes it when it ends. */
  datatype Phase = Waiting | Running(seen: Option<Value>) | Finished(result: Option<Value>, effect: Effect)

  datatype Job = Job(block: Block, phase: Phase) {
    predicate Barrier() { !block.Read? }
    function Effect(): Effect { if phase.Finished? then phase.effect else Nothing }
  }

  /** A call of valueForKey, by the callbacks it was given. */
  datatype Call = Call(key: Key, miss: bool, validate: bool)

  /** Where a thread stands; job is the index of the block it waits for, or got its value from. */
  datatype Thread =
    | Resting
    | Looking(call: Call, job: nat)
    | InBarrier(call: Call, job: nat, missed: bool)
    | Returned(call: Call, job: nat, value: Option<Value>)

  /** All blocks in the order they were submitted, the dictionary, and the threads. */
  datatype System = System(jobs: seq<Job>, cache: map<Key, Value>, threads: seq<Thread>)

  datatype Action =
    | Ask(t: nat, call: Call)
    | Store(key: Key, value: Value)
    | Begin(i: nat)
    | EndRead(i: nat)
    | EndFill(i: nat, made: Option<Value>)
    | EndCheck(i: nat, valid: bool)
    | EndPut(i: nat)
    | Decide(t: nat, valid: bool)
    | Return(t: nat)

  function Lookup(m: map<Key, Value>, k: Key): Option<Value> {
    if k in m then Some(m[k]) else None
  }

  function Apply(m: map<Key, Value>, e: Effect): map<Key, Value> {
    match e
    case Nothing => m
    case Insert(k, v) => m[k := v]
    case Remove(k) => m - {k}
  }

  /** The queue's discipline: a barrier waits for everything before it, a read for the barriers before it. */
  predicate MayBegin(jobs: seq<Job>, i: nat) {
    && i < |jobs| && jobs[i].phase.Waiting?
    && forall j :: 0 <= j < i && (jobs[i].Barrier() || jobs[j].Barrier()) ==> jobs[j].phase.Finished?
  }

  predicate Busy(s: System, i: nat) {
    i < |s.jobs| && s.jobs[i].phase.Running?
  }

  function Finish(s: System, i: nat, result: Option<Value>, e: Effect): System
    requires i < |s.jobs|
  {
    s.(jobs := s.jobs[i := s.jobs[i].(phase := Finished(result, e))], cache := Apply(s.cache, e))
  }

  /** A thread submits a block and waits for it. */
  function Submit(s: System, t: nat, b: Block, waiting: Thread): System
    requires t < |s.threads|
  {
    s.(jobs := s.jobs + [Job(b, Waiting)], threads := s.threads[t := waiting])
  }

  predicate Enabled(s: System, a: Action) {
    match a
    case Ask(t, call) => t < |s.threads| && (s.threads[t].Resting? || s.threads[t].Returned?)
    case Store(_, _) => true
    case Begin(i) => MayBegin(s.jobs, i)
    case EndRead(i) => Busy(s, i) && s.jobs[i].block.Read?
    case EndFill(i, made) => Busy(s, i) && s.jobs[i].block.Fill?
    case EndCheck(i, valid) => Busy(s, i) && s.jobs[i].block.Check?
    case EndPut(i) => Busy(s, i) && s.jobs[i].block.Put?
    case Decide(t, valid) =>
      t < |s.threads| && s.threads[t].Looking? && s.threads[t].job < |s.jobs| && s.jobs[s.threads[t].job].phase.Finished?
    case Return(t) =>
      t < |s.threads| && s.threads[t].InBarrier? && s.threads[t].job < |s.jobs| && s.jobs[s.threads[t].job].phase.Finished?
  }

  /** One step of one thread or block. What callbacks answer is part of the action. */
  function Next(s: System, a: Action): System
    requires Enabled(s, a)
  {
    match a
    case Ask(t, call) => Submit(s, t, Read(call.key), Looking(call, |s.jobs|))
    case Store(k, v) => s.(jobs := s.jobs + [Job(Put(k, v), Waiting)])
    case Begin(i) => s.(jobs := s.jobs[i := s.jobs[i].(phase := Running(Lookup(s.cache, s.jobs[i].block.key)))])
    case EndRead(i) => Finish(s, i, Lookup(s.cache, s.jobs[i].block.key), Nothing)
    case EndFill(i, made) =>
      var k, seen := s.jobs[i].block.key, s.jobs[i].phase.seen;
      if seen.Some? then Finish(s, i, seen, Nothing)
      else Finish(s, i, made, if made.Some? then Insert(k, made.value) else Nothing)
    case EndCheck(i, valid) =>
      var k, seen := s.jobs[i].block.key, s.jobs[i].phase.seen;
      if seen.Some? && !valid then Finish(s, i, None, Remove(k)) else Finish(s, i, seen, Nothing)
    case EndPut(i) => Finish(s, i, None, Insert(s.jobs[i].block.key, s.jobs[i].block.value))
    case Decide(t, valid) =>
      var Looking(call, j) := s.threads[t];
      var value := s.jobs[j].phase.result;
      if value.None? && call.miss then Submit(s, t, Fill(call.key), InBarrier(call, |s.jobs|, true))
      else if value.Some? && call.validate && !valid then Submit(s, t, Check(call.key), InBarrier(call, |s.jobs|, false))
      else s.(threads := s.threads[t := Returned(call, j, value)])
    case Return(t) =>
      var InBarrier(call, j, _) := s.threads[t];
      s.(threads := s.threads[t := Returned(call, j, s.jobs[j].phase.result)])
  }

  function Start(threads: nat): System {
    System([], map[], seq(threads, _ => Resting))
  }

  /** A run: every action is enabled in the state it is taken in. */
  predicate Run(s: System, actions: seq<Action>)
    decreases |actions|, 0
  {
    actions == []
    || (Run(s, actions[..|actions| - 1]) && Enabled(At(s, actions[..|actions| - 1]), actions[|actions| - 1]))
  }

  /** The state a run leads to. */
  function At(s: System, actions: seq<Action>): System
    requires Run(s, actions)
    decreases |actions|, 1
  {
    if actions == [] then s else Next(At(s, actions[..|actions| - 1]), actions[|actions| - 1])
  }

  // ---- the same blocks one at a time

  /** The dictionary after the first n blocks, run in the order they were submitted. */
  function After(jobs: seq<Job>, n: nat): map<Key, Value>
    requires n <= |jobs|
  {
    if n == 0 then map[] else Apply(After(jobs, n - 1), jobs[n - 1].Effect())
  }

  /** A finished block did what it would have done on the dictionary m. */
  predicate Explained(m: map<Key, Value>, j: Job) {
    j.phase.Finished? ==>
      var k, result, e := j.block.key, j.phase.result, j.phase.effect;
      match j.block
      case Read(_) => result == Lookup(m, k) && e == Nothing
      case Fill(_) => if k in m then result == Some(m[k]) && e == Nothing
                      else e == (if result.Some? then Insert(k, result.value) else Nothing)
      case Check(_) => (result == Lookup(m, k) && e == Nothing) || (k in m && result == None && e == Remove(k))
      case Put(_, v) => e == Insert(k, v)
  }

  /** In submission order, barriers are started and finished one by one, with nothing beside them. */
  predicate InTurn(jobs: seq<Job>) {
    forall i, j :: 0 <= i < j < |jobs| ==>
      && (jobs[i].Barrier() && !jobs[i].phase.Finished? ==> jobs[j].phase.Waiting?)
      && (jobs[j].Barrier() && !jobs[j].phase.Waiting? ==> jobs[i].phase.Finished?)
  }

  predicate Serial(s: System) {
    && InTurn(s.jobs)
    && s.cache == After(s.jobs, |s.jobs|)
    && (forall i :: 0 <= i < |s.jobs| ==> Explained(After(s.jobs, i), s.jobs[i]))
    && (forall i :: 0 <= i < |s.jobs| && s.jobs[i].Barrier() && s.jobs[i].phase.Running? ==>
          s.jobs[i].phase.seen == Lookup(s.cache, s.jobs[i].block.key))
  }

  lemma {:induction false} AfterSame(a: seq<Job>, b: seq<Job>, n: nat)
    requires n <= |a| && n <= |b| && forall i :: 0 <= i < n ==> a[i].Effect() == b[i].Effect()
    ensures After(a, n) == After(b, n)
  {
    if n > 0 { AfterSame(a, b, n - 1); }
  }

  lemma {:induction false} AfterIdle(jobs: seq<Job>, i: nat, n: nat)
    requires i <= n <= |jobs| && forall k :: i <= k < n ==> jobs[k].Effect() == Nothing
    ensures After(jobs, n) == After(jobs, i)
    decreases n - i
  {
    if i < n { AfterIdle(jobs, i, n - 1); }
  }

  /** While a block runs, nothing submitted after it has changed the dictionary. */
  lemma CacheAt(s: System, i: nat)
    requires Serial(s) && Busy(s, i)
    ensures forall k :: i <= k < |s.jobs| ==> s.jobs[k].Effect() == Nothing
    ensures s.cache == After(s.jobs, i)
  {
    hide Explained, After;
    forall k | i <= k < |s.jobs|
      ensures s.jobs[k].Effect() == Nothing
    {
      ReadsHaveNoEffect(After(s.jobs, k), s.jobs[k]);
    }
    AfterIdle(s.jobs, i, |s.jobs|);
  }

  lemma AfterOne(jobs: seq<Job>, i: nat)
    requires i < |jobs|
    ensures After(jobs, i + 1) == Apply(After(jobs, i), jobs[i].Effect())
  {
  }

  lemma FinishInTurn(s: System, i: nat, result: Option<Value>, e: Effect)
    requires InTurn(s.jobs) && Busy(s, i)
    ensures InTurn(Finish(s, i, result, e).jobs)
    ensures s.jobs[i].Barrier() ==> forall j :: i < j < |s.jobs| ==> s.jobs[j].phase.Waiting?
    ensures forall j :: 0 <= j < |s.jobs| && j != i && s.jobs[j].Barrier() && s.jobs[j].phase.Running? ==> !s.jobs[i].Barrier()
  {
  }

  /** A block that changes nothing. */
  lemma FinishQuietly(s: System, i: nat, result: Option<Value>)
    requires Serial(s) && Busy(s, i) && Explained(s.cache, s.jobs[i].(phase := Finished(result, Nothing)))
    ensures Serial(Finish(s, i, result, Nothing))
  {
    hide Explained, Apply, After, InTurn;
    var s' := Finish(s, i, result, Nothing);
    CacheAt(s, i);
    FinishInTurn(s, i, result, Nothing);
    EffectOnly(s.cache);
    forall n | 0 <= n <= |s.jobs|
      ensures After(s'.jobs, n) == After(s.jobs, n)
    {
      AfterSame(s.jobs, s'.jobs, n);
    }
  }

  /** A barrier that changes the dictionary: what comes later has not begun. */
  lemma FinishSerial(s: System, i: nat, result: Option<Value>, e: Effect)
    requires Serial(s) && Busy(s, i) && Explained(s.cache, s.jobs[i].(phase := Finished(result, e)))
    ensures Serial(Finish(s, i, result, e))
  {
    hide Explained, Apply, After, InTurn;
    if e == Nothing {
      FinishQuietly(s, i, result);
    } else {
      var s' := Finish(s, i, result, e);
      CacheAt(s, i);
      FinishInTurn(s, i, result, e);
      ReadsHaveNoEffect(s.cache, s'.jobs[i]);
      AfterSame(s.jobs, s'.jobs, i);
      AfterOne(s'.jobs, i);
      AfterIdle(s'.jobs, i + 1, |s.jobs|);
      forall j | 0 <= j < |s.jobs|
        ensures Explained(After(s'.jobs, j), s'.jobs[j])
      {
        if j < i {
          AfterSame(s.jobs, s'.jobs, j);
        } else if j > i {
          WaitingIsExplained(After(s'.jobs, j), s'.jobs[j]);
        }
      }
    }
  }

  lemma EffectOnly(m: map<Key, Value>)
    ensures Apply(m, Nothing) == m
  {
  }

  lemma ReadsHaveNoEffect(m: map<Key, Value>, j: Job)
    requires Explained(m, j)
    ensures j.Effect() != Nothing ==> j.Barrier()
  {
  }

  lemma WaitingIsExplained(m: map<Key, Value>, j: Job)
    requires !j.phase.Finished?
    ensures Explained(m, j)
  {
  }

  /** A new block changes nothing before it runs. */
  lemma SubmitSerial(s: System, b: Block)
    requires Serial(s)
    ensures Serial(s.(jobs := s.jobs + [Job(b, Waiting)]))
  {
    hide Explained, After, InTurn;
    var jobs := s.jobs + [Job(b, Waiting)];
    forall n | 0 <= n <= |s.jobs|
      ensures After(jobs, n) == After(s.jobs, n)
    {
      AfterSame(s.jobs, jobs, n);
    }
    AfterIdle(jobs, |s.jobs|, |jobs|);
    SubmitInTurn(s.jobs, b);
    WaitingIsExplained(After(jobs, |s.jobs|), jobs[|s.jobs|]);
  }

  lemma SubmitInTurn(jobs: seq<Job>, b: Block)
    requires InTurn(jobs)
    ensures InTurn(jobs + [Job(b, Waiting)])
  {
  }

  lemma BeginInTurn(jobs: seq<Job>, i: nat, seen: Option<Value>)
    requires InTurn(jobs) && MayBegin(jobs, i)
    ensures InTurn(jobs[i := jobs[i].(phase := Running(seen))])
  {
  }

  lemma BeginSerial(s: System, i: nat)
    requires Serial(s) && MayBegin(s.jobs, i)
    ensures Serial(Next(s, Begin(i)))
  {
    hide Explained, After, InTurn;
    var s' := Next(s, Begin(i));
    BeginInTurn(s.jobs, i, Lookup(s.cache, s.jobs[i].block.key));
    forall n | 0 <= n <= |s.jobs|
      ensures After(s'.jobs, n) == After(s.jobs, n)
    {
      AfterSame(s.jobs, s'.jobs, n);
    }
    WaitingIsExplained(After(s'.jobs, i), s'.jobs[i]);
  }

  /** Every step keeps the correspondence with the serial run. */
  lemma StepSerial(s: System, a: Action)
    requires Serial(s) && Enabled(s, a)
    ensures Serial(Next(s, a))
  {
    hide Serial, MayBegin;
    match a
    case Ask(t, call) =>
      SubmitSerial(s, Read(call.key));
      ThreadsApart(s.(jobs := s.jobs + [Job(Read(call.key), Waiting)]), Next(s, a));
    case Store(k, v) => SubmitSerial(s, Put(k, v));
    case Begin(i) => BeginSerial(s, i);
    case EndRead(i) => FinishSerial(s, i, Lookup(s.cache, s.jobs[i].block.key), Nothing);
    case EndFill(i, made) =>
      SeenIs(s, i);
      var seen := s.jobs[i].phase.seen;
      var result := if seen.Some? then seen else made;
      FinishSerial(s, i, result, if seen.None? && made.Some? then Insert(s.jobs[i].block.key, made.value) else Nothing);
    case EndCheck(i, valid) =>
      SeenIs(s, i);
      var seen := s.jobs[i].phase.seen;
      if seen.Some? && !valid {
        FinishSerial(s, i, None, Remove(s.jobs[i].block.key));
      } else {
        FinishSerial(s, i, seen, Nothing);
      }
    case EndPut(i) => FinishSerial(s, i, None, Insert(s.jobs[i].block.key, s.jobs[i].block.value));
    case Decide(t, valid) =>
      var call := s.threads[t].call;
      SubmitSerial(s, Fill(call.key));
      SubmitSerial(s, Check(call.key));
      ThreadsApart(s, Next(s, a));
      ThreadsApart(s.(jobs := s.jobs + [Job(Fill(call.key), Waiting)]), Next(s, a));
      ThreadsApart(s.(jobs := s.jobs + [Job(Check(call.key), Waiting)]), Next(s, a));
    case Return(t) => ThreadsApart(s, Next(s, a));
  }

  lemma ThreadsApart(s: System, s': System)
    ensures Serial(s) && s'.jobs == s.jobs && s'.cache == s.cache ==> Serial(s')
  {
  }

  lemma SeenIs(s: System, i: nat)
    requires Serial(s) && Busy(s, i) && s.jobs[i].Barrier()
    ensures s.jobs[i].phase.seen == Lookup(s.cache, s.jobs[i].block.key)
  {
  }

  /**
   * Whatever the interleaving: the dictionary is what the blocks leave when run one at a time
   * in the order they were submitted, and every finished block got what it gets there.
   */
  lemma {:induction false} RunsAreSerial(s: System, actions: seq<Action>)
    requires Serial(s) && Run(s, actions)
    ensures Serial(At(s, actions))
    decreases |actions|
  {
    hide Serial, Enabled, Next;
    if actions != [] {
      var before := actions[..|actions| - 1];
      RunsAreSerial(s, before);
      StepSerial(At(s, before), actions[|actions| - 1]);
    }
  }

  lemma StartIsSerial(threads: nat)
    ensures Serial(Start(threads))
  {
  }

  /** A running barrier is alone. */
  lemma BarrierIsAlone(threads: nat, actions: seq<Action>, i: nat, j: nat)
    requires Run(Start(threads), actions)
    requires var s := At(Start(threads), actions); Busy(s, i) && Busy(s, j) && s.jobs[i].Barrier()
    ensures i == j
  {
    hide Run, At, Explained, After;
    StartIsSerial(threads);
    RunsAreSerial(Start(threads), actions);
  }

  // ---- what that means for callers

  predicate Fills(j: Job, k: Key) { j.block == Fill(k) && j.Effect().Insert? }

  predicate Removes(j: Job, k: Key) { j.Effect() == Remove(k) }

  predicate AllExplained(jobs: seq<Job>) {
    forall i :: 0 <= i < |jobs| ==> Explained(After(jobs, i), jobs[i])
  }

  function FillCount(jobs: seq<Job>, n: nat, k: Key): nat
    requires n <= |jobs|
  {
    if n == 0 then 0 else FillCount(jobs, n - 1, k) + (if Fills(jobs[n - 1], k) then 1 else 0)
  }

  function RemovalCount(jobs: seq<Job>, n: nat, k: Key): nat
    requires n <= |jobs|
  {
    if n == 0 then 0 else RemovalCount(jobs, n - 1, k) + (if Removes(jobs[n - 1], k) then 1 else 0)
  }

  /** A key is there at most one fill longer than it was removed. */
  lemma {:induction false} CountsUpTo(jobs: seq<Job>, n: nat, k: Key)
    requires n <= |jobs| && AllExplained(jobs)
    ensures FillCount(jobs, n, k) <= RemovalCount(jobs, n, k) + if k in After(jobs, n) then 1 else 0
  {
    hide Explained, Fills, Removes, Apply;
    if n > 0 {
      CountsUpTo(jobs, n - 1, k);
      CountsOne(After(jobs, n - 1), jobs[n - 1], k);
      AfterOne(jobs, n - 1);
    }
  }

  /** A fill puts the key where it was not, a removal takes it away, and nothing else takes it away. */
  lemma CountsOne(m: map<Key, Value>, j: Job, k: Key)
    requires Explained(m, j)
    ensures Fills(j, k) ==> k !in m && k in Apply(m, j.Effect())
    ensures k !in Apply(m, j.Effect()) ==> k !in m || Removes(j, k)
    ensures !(Fills(j, k) && Removes(j, k))
  {
  }

  /** The generator's values for a key number at most one more than its removals, in every interleaving. */
  lemma OneFillPerRemoval(threads: nat, actions: seq<Action>, k: Key)
    requires Run(Start(threads), actions)
    ensures var jobs := At(Start(threads), actions).jobs; FillCount(jobs, |jobs|, k) <= RemovalCount(jobs, |jobs|, k) + 1
  {
    hide Run, At, Explained, After, InTurn;
    StartIsSerial(threads);
    RunsAreSerial(Start(threads), actions);
    var jobs := At(Start(threads), actions).jobs;
    CountsUpTo(jobs, |jobs|, k);
  }

  lemma {:induction false} StaysThere(jobs: seq<Job>, i: nat, j: nat, k: Key)
    requires i <= j <= |jobs| && k in After(jobs, i) && forall r :: i <= r < j ==> !Removes(jobs[r], k)
    ensures k in After(jobs, j)
    decreases j - i
  {
    if i < j { StaysThere(jobs, i, j - 1, k); }
  }

  /** Between two values generated for a key it was removed. */
  lemma RefillNeedsRemoval(s: System, i: nat, j: nat, k: Key)
    requires Serial(s) && i < j < |s.jobs| && Fills(s.jobs[i], k) && Fills(s.jobs[j], k)
    ensures exists r :: i < r < j && Removes(s.jobs[r], k)
  {
    hide After, InTurn;
    if forall r :: i < r < j ==> !Removes(s.jobs[r], k) {
      AfterOne(s.jobs, i);
      assert Explained(After(s.jobs, i), s.jobs[i]) && Explained(After(s.jobs, j), s.jobs[j]);
      StaysThere(s.jobs, i + 1, j, k);
    }
  }

  /** A value leaves the dictionary only when a validator, inside the barrier, was shown that value and rejected it. */
  lemma RemovedOnlyWhenRejected(s: System, a: Action, k: Key)
    requires Serial(s) && Enabled(s, a) && k in s.cache && k !in Next(s, a).cache
    ensures a.EndCheck? && !a.valid && s.jobs[a.i].block == Check(k) && s.jobs[a.i].phase == Running(Some(s.cache[k]))
  {
    hide After, InTurn, Explained;
    if a.EndCheck? { SeenIs(s, a.i); }
  }

  lemma {:induction false} Undisturbed(jobs: seq<Job>, i: nat, j: nat, k: Key)
    requires i <= j <= |jobs| && forall r :: i <= r < j ==> jobs[r].Effect() == Nothing || jobs[r].Effect().key != k
    ensures Lookup(After(jobs, j), k) == Lookup(After(jobs, i), k)
    decreases j - i
  {
    if i < j { Undisturbed(jobs, i, j - 1, k); }
  }

  /** A read submitted after a write sees it, unless something submitted between the two concerns the key. */
  lemma ReadsSeeWrites(s: System, p: nat, r: nat, k: Key, v: Value)
    requires Serial(s) && p < r < |s.jobs| && s.jobs[p].block == Put(k, v)
    requires s.jobs[r].block == Read(k) && s.jobs[r].phase.Finished?
    requires forall i :: p < i < r && s.jobs[i].Barrier() ==> s.jobs[i].block.key != k
    ensures s.jobs[r].phase.result == Some(v)
  {
    hide After;
    assert s.jobs[p].phase.Finished?;
    forall i | p < i < r
      ensures s.jobs[i].Effect() == Nothing || s.jobs[i].Effect().key != k
    {
      assert Explained(After(s.jobs, i), s.jobs[i]);
    }
    assert Explained(After(s.jobs, p), s.jobs[p]) && Explained(After(s.jobs, r), s.jobs[r]);
    AfterOne(s.jobs, p);
    Undisturbed(s.jobs, p + 1, r, k);
  }

  /** The last block before n that may change what k has; -1 if there is none. */
  function LastOn(jobs: seq<Job>, n: nat, k: Key): (i: int)
    requires n <= |jobs|
    ensures -1 <= i < n && (i >= 0 ==> jobs[i].Barrier() && jobs[i].block.key == k)
    ensures forall j :: i < j < n && jobs[j].Barrier() ==> jobs[j].block.key != k
  {
    if n == 0 then -1 else if jobs[n - 1].Barrier() && jobs[n - 1].block.key == k then n - 1 else LastOn(jobs, n - 1, k)
  }

  /** What a finished block leaves its key with: what was put, what was generated or found, or what passed the check. */
  function Leaves(j: Job): Option<Value>
    requires j.phase.Finished?
  {
    if j.block.Put? then Some(j.block.value) else j.phase.result
  }

  lemma {:induction false} LastLeaves(jobs: seq<Job>, n: nat, k: Key)
    requires n <= |jobs| && forall i :: 0 <= i < n && jobs[i].Barrier() ==> jobs[i].phase.Finished?
    requires forall i :: 0 <= i < n ==> Explained(After(jobs, i), jobs[i])
    ensures var i := LastOn(jobs, n, k); Lookup(After(jobs, n), k) == if i < 0 then None else Leaves(jobs[i])
  {
    hide Explained, After, Apply;
    if n == 0 {
      NothingAtFirst(jobs, k);
    } else {
      LastLeaves(jobs, n - 1, k);
      AfterOne(jobs, n - 1);
      OneLeaves(After(jobs, n - 1), jobs[n - 1], k);
    }
  }

  lemma NothingAtFirst(jobs: seq<Job>, k: Key)
    ensures Lookup(After(jobs, 0), k) == None
  {
  }

  lemma OneLeaves(m: map<Key, Value>, j: Job, k: Key)
    requires Explained(m, j) && (j.Barrier() ==> j.phase.Finished?)
    ensures Lookup(Apply(m, j.Effect()), k) == if j.Barrier() && j.block.key == k then Leaves(j) else Lookup(m, k)
  {
  }

  /**
   * In every run each finished block finds what the last block on its key has left: a read gets
   * it, a fill keeps it or generates, a check keeps it or gives nothing.
   */
  lemma BlocksSeeLast(threads: nat, actions: seq<Action>, r: nat)
    requires Run(Start(threads), actions)
    requires var jobs := At(Start(threads), actions).jobs; r < |jobs| && jobs[r].phase.Finished?
    ensures var jobs := At(Start(threads), actions).jobs;
            var last := LastOn(jobs, r, jobs[r].block.key);
            && (last >= 0 ==> jobs[last].phase.Finished?)
            && var found := if last < 0 then None else Leaves(jobs[last]);
               match jobs[r].block
               case Read(_) => jobs[r].phase.result == found
               case Fill(_) => found.Some? ==> jobs[r].phase.result == found
               case Check(_) => jobs[r].phase.result == found || jobs[r].phase.result == None
               case Put(_, _) => true
  {
    hide Run, At, After, Explained;
    StartIsSerial(threads);
    RunsAreSerial(Start(threads), actions);
    var jobs := At(Start(threads), actions).jobs;
    LastLeaves(jobs, r, jobs[r].block.key);
    FoundIs(After(jobs, r), jobs[r]);
  }

  lemma FoundIs(m: map<Key, Value>, j: Job)
    requires Explained(m, j) && j.phase.Finished?
    ensures var found := Lookup(m, j.block.key);
            match j.block
            case Read(_) => j.phase.result == found
            case Fill(_) => found.Some? ==> j.phase.result == found
            case Check(_) => j.phase.result == found || j.phase.result == None
            case Put(_, _) => true
  {
  }

  /** The queue never stands still: the first block that is not finished can begin or end. */
  lemma NeverStuck(s: System)
    requires exists i :: 0 <= i < |s.jobs| && !s.jobs[i].phase.Finished?
    ensures exists a: Action :: Enabled(s, a) && (a.Begin? || a.EndRead? || a.EndFill? || a.EndCheck? || a.EndPut?)
  {
    var n := FirstOpen(s.jobs, 0);
    if s.jobs[n].phase.Waiting? {
      assert Enabled(s, Begin(n));
    } else {
      match s.jobs[n].block
      case Read(_) => assert Enabled(s, EndRead(n));
      case Fill(_) => assert Enabled(s, EndFill(n, None));
      case Check(_) => assert Enabled(s, EndCheck(n, true));
      case Put(_, _) => assert Enabled(s, EndPut(n));
    }
  }

  lemma {:induction false} FirstOpen(jobs: seq<Job>, from: nat) returns (n: nat)
    requires from <= |jobs| && forall i :: 0 <= i < from ==> jobs[i].phase.Finished?
    requires exists i :: 0 <= i < |jobs| && !jobs[i].phase.Finished?
    ensures n < |jobs| && !jobs[n].phase.Finished? && forall i :: 0 <= i < n ==> jobs[i].phase.Finished?
    decreases |jobs| - from
  {
    if jobs[from].phase.Finished? { n := FirstOpen(jobs, from + 1); } else { n := from; }
  }

  // ---- what a call returns

  /** Every block a thread waits for, or has its value from, is one for its call. */
  predicate ThreadOk(jobs: seq<Job>, t: Thread) {
    match t
    case Resting => true
    case Looking(call, j) => j < |jobs| && jobs[j].block == Read(call.key)
    case InBarrier(call, j, missed) =>
      j < |jobs| && (if missed then call.miss && jobs[j].block == Fill(call.key) else call.validate && jobs[j].block == Check(call.key))
    case Returned(call, j, value) =>
      && j < |jobs| && jobs[j].phase.Finished? && jobs[j].phase.result == value
      && match jobs[j].block
         case Read(k) => k == call.key && (call.miss ==> value.Some?)
         case Fill(k) => k == call.key && call.miss
         case Check(k) => k == call.key && call.validate
         case Put(_, _) => false
  }

  predicate Honest(s: System) {
    forall t :: 0 <= t < |s.threads| ==> ThreadOk(s.jobs, s.threads[t])
  }

  /** Blocks stay what they are, and finished ones stay finished. */
  lemma JobsStay(s: System, a: Action, t: Thread)
    requires Enabled(s, a) && ThreadOk(s.jobs, t)
    ensures ThreadOk(Next(s, a).jobs, t)
  {
  }

  lemma StepHonest(s: System, a: Action)
    requires Honest(s) && Enabled(s, a)
    ensures Honest(Next(s, a))
  {
    hide MayBegin;
    var s' := Next(s, a);
    forall t | 0 <= t < |s'.threads|
      ensures ThreadOk(s'.jobs, s'.threads[t])
    {
      JobsStay(s, a, s.threads[t]);
    }
  }

  lemma {:induction false} RunsAreHonest(s: System, actions: seq<Action>)
    requires Honest(s) && Run(s, actions)
    ensures Honest(At(s, actions))
    decreases |actions|
  {
    hide Honest, Enabled, Next;
    if actions != [] {
      var before := actions[..|actions| - 1];
      RunsAreHonest(s, before);
      StepHonest(At(s, before), actions[|actions| - 1]);
    }
  }

  lemma StartIsHonest(threads: nat)
    ensures Honest(Start(threads))
  {
  }

  // ---- which blocks are a call's own

  /** The thread's last call begins with action q. */
  predicate Asked(actions: seq<Action>, q: nat, t: nat, call: Call) {
    && q < |actions| && actions[q] == Ask(t, call)
    && forall p :: q < p < |actions| ==> !(actions[p].Ask? && actions[p].t == t)
  }

  lemma RunSnoc(s: System, actions: seq<Action>, a: Action)
    requires Run(s, actions) && Enabled(At(s, actions), a)
    ensures Run(s, actions + [a]) && At(s, actions + [a]) == Next(At(s, actions), a)
  {
    assert (actions + [a])[..|actions|] == actions;
  }

  lemma StillResting(s: System, a: Action, t: nat)
    requires Enabled(s, a) && t < |Next(s, a).threads| && !(a.Ask? && a.t == t) && !Next(s, a).threads[t].Resting?
    ensures t < |s.threads| && !s.threads[t].Resting?
  {
  }

  /** In this state this action of the thread submits block j. */
  predicate Submits(s: System, a: Action, t: nat, j: nat) {
    (a.Ask? || a.Decide?) && a.t == t && Enabled(s, a) && |s.jobs| == j < |Next(s, a).jobs|
  }

  predicate SubmitsAt(s: System, actions: seq<Action>, i: nat, t: nat, j: nat) {
    i < |actions| && Run(s, actions[..i]) && Submits(At(s, actions[..i]), actions[i], t, j)
  }

  /** Block j was submitted by the thread, with action q or later. */
  predicate Own(s: System, actions: seq<Action>, q: nat, t: nat, j: nat) {
    exists i :: q <= i < |actions| && SubmitsAt(s, actions, i, t, j)
  }

  lemma OwnSnoc(s: System, actions: seq<Action>, a: Action, q: nat, t: nat, j: nat)
    requires q <= |actions| && Run(s, actions)
    ensures Own(s, actions + [a], q, t, j) <==> Own(s, actions, q, t, j) || Submits(At(s, actions), a, t, j)
  {
    hide Run, At, Submits;
    var all, n := actions + [a], |actions|;
    assert all[..n] == actions;
    assert forall i :: 0 <= i < n ==> all[..i] == actions[..i];
    assert forall i :: 0 <= i < n ==> (SubmitsAt(s, all, i, t, j) <==> SubmitsAt(s, actions, i, t, j));
    assert SubmitsAt(s, all, n, t, j) <==> Submits(At(s, actions), a, t, j);
  }

  /** No block is taken back, changed into another, or run twice. */
  predicate Kept(was: seq<Job>, jobs: seq<Job>) {
    && |was| <= |jobs|
    && forall i :: 0 <= i < |was| ==> jobs[i].block == was[i].block && (was[i].phase.Finished? ==> jobs[i] == was[i])
  }

  lemma StepKeeps(s: System, a: Action)
    requires Enabled(s, a)
    ensures Kept(s.jobs, Next(s, a).jobs)
  {
  }

  lemma {:induction false} RunKeeps(s: System, actions: seq<Action>, n: nat)
    requires Run(s, actions) && n <= |actions|
    ensures Run(s, actions[..n]) && Kept(At(s, actions[..n]).jobs, At(s, actions).jobs)
    decreases |actions|
  {
    hide Enabled, Next, Kept;
    if n < |actions| {
      var before := actions[..|actions| - 1];
      RunKeeps(s, before, n);
      assert before[..n] == actions[..n];
      StepKeeps(At(s, before), actions[|actions| - 1]);
      KeptOn(At(s, actions[..n]).jobs, At(s, before).jobs, At(s, actions).jobs);
    } else {
      assert actions[..n] == actions;
      KeptSame(At(s, actions).jobs);
    }
  }

  lemma KeptAt(was: seq<Job>, jobs: seq<Job>, i: nat)
    requires Kept(was, jobs) && i < |was|
    ensures i < |jobs| && jobs[i].block == was[i].block && (was[i].phase.Finished? ==> jobs[i] == was[i])
  {
  }

  lemma KeptOn(a: seq<Job>, b: seq<Job>, c: seq<Job>)
    requires Kept(a, b) && Kept(b, c)
    ensures Kept(a, c)
  {
  }

  lemma KeptSame(jobs: seq<Job>)
    ensures Kept(jobs, jobs)
  {
  }

  /**
   * Where a thread stands in its call, whose first block is `first`: looking means waiting for
   * that block; a barrier, and a value from one, come after what it found.
   */
  predicate Follows(jobs: seq<Job>, th: Thread, first: nat) {
    && !th.Resting? && first < |jobs| && jobs[first].block == Read(th.call.key) && first <= th.job
    && match th
       case Resting => false
       case Looking(_, j) => j == first
       case InBarrier(_, j, missed) =>
         j != first && jobs[first].phase.Finished? && missed == jobs[first].phase.result.None?
       case Returned(_, j, value) =>
         && j < |jobs| && jobs[first].phase.Finished?
         && (if jobs[j].block.Read? then j == first
             else j != first && jobs[j].block.Fill? == jobs[first].phase.result.None?)
  }

  lemma FollowsStep(s: System, a: Action, t: nat, first: nat)
    requires Enabled(s, a) && t < |s.threads| && !(a.Ask? && a.t == t) && ThreadOk(s.jobs, s.threads[t])
    requires Follows(s.jobs, s.threads[t], first)
    ensures var s' := Next(s, a);
            && t < |s'.threads| && s'.threads[t].Resting? == false && s'.threads[t].call == s.threads[t].call
            && Follows(s'.jobs, s'.threads[t], first)
            && (s'.threads[t].job == s.threads[t].job || Submits(s, a, t, s'.threads[t].job))
  {
    hide MayBegin, Kept;
    StepKeeps(s, a);
    KeptAt(s.jobs, Next(s, a).jobs, first);
    if s.threads[t].job < |s.jobs| { KeptAt(s.jobs, Next(s, a).jobs, s.threads[t].job); }
  }

  /** What a call waits for, or has its value from, is a block it has submitted itself since it was made. */
  lemma {:induction false} CallsOwn(threads: nat, actions: seq<Action>, q: nat, t: nat, call: Call)
    requires Run(Start(threads), actions) && Asked(actions, q, t, call)
    ensures var s0 := Start(threads);
            var s := At(s0, actions);
            && Run(s0, actions[..q]) && t < |s.threads| && !s.threads[t].Resting? && s.threads[t].call == call
            && Follows(s.jobs, s.threads[t], |At(s0, actions[..q]).jobs|)
            && Own(s0, actions, q, t, s.threads[t].job)
    decreases |actions|
  {
    hide Honest, Enabled, Own, Follows, Submits, ThreadOk;
    var s0 := Start(threads);
    var before, a := actions[..|actions| - 1], actions[|actions| - 1];
    var s := At(s0, before);
    assert actions == before + [a];
    if q == |before| {
      AskFollows(s, t, call);
      OwnSnoc(s0, before, a, q, t, |s.jobs|);
      assert actions[..q] == before;
    } else {
      assert forall p :: 0 <= p < |before| ==> before[p] == actions[p];
      assert before[..q] == actions[..q];
      CallsOwn(threads, before, q, t, call);
      StartIsHonest(threads);
      RunsAreHonest(s0, before);
      HonestThread(s, t);
      var first := |At(s0, actions[..q]).jobs|;
      FollowsStep(s, a, t, first);
      OwnSnoc(s0, before, a, q, t, Next(s, a).threads[t].job);
    }
  }

  lemma HonestThread(s: System, t: nat)
    requires Honest(s) && t < |s.threads|
    ensures ThreadOk(s.jobs, s.threads[t])
  {
  }

  lemma AskFollows(s: System, t: nat, call: Call)
    requires Enabled(s, Ask(t, call))
    ensures var s' := Next(s, Ask(t, call));
            && t < |s'.threads| && s'.threads[t] == Looking(call, |s.jobs|) && Follows(s'.jobs, s'.threads[t], |s.jobs|)
            && Submits(s, Ask(t, call), t, |s.jobs|)
  {
  }

  /** A thread that does not rest has called. */
  lemma {:induction false} HasAsked(threads: nat, actions: seq<Action>, t: nat) returns (q: nat)
    requires Run(Start(threads), actions)
    requires var s := At(Start(threads), actions); t < |s.threads| && !s.threads[t].Resting?
    ensures Asked(actions, q, t, At(Start(threads), actions).threads[t].call)
    decreases |actions|
  {
    hide Enabled;
    var s0 := Start(threads);
    var before, a := actions[..|actions| - 1], actions[|actions| - 1];
    var s := At(s0, before);
    assert actions == before + [a];
    if a.Ask? && a.t == t {
      q := |before|;
      AskFollows(s, t, a.call);
    } else {
      StillResting(s, a, t);
      q := HasAsked(threads, before, t);
    }
  }

  /**
   * What a call returns is what one block found in the serial run; the call itself submitted
   * that block, since it was made: its first look, or if that found nothing and it has a
   * generator, the filling block, or if it found something and it has a validator, the check.
   */
  lemma CallsReturn(threads: nat, actions: seq<Action>, t: nat) returns (q: nat)
    requires Run(Start(threads), actions)
    requires var s := At(Start(threads), actions); t < |s.threads| && s.threads[t].Returned?
    ensures var s0 := Start(threads);
            var s := At(s0, actions);
            var Returned(call, j, value) := s.threads[t];
            && Asked(actions, q, t, call) && Run(s0, actions[..q])
            && |At(s0, actions[..q]).jobs| <= j < |s.jobs| && Own(s0, actions, q, t, j)
            && s.jobs[j].block.key == call.key && s.jobs[j].phase.Finished? && s.jobs[j].phase.result == value
            && Explained(After(s.jobs, j), s.jobs[j])
    ensures var s0 := Start(threads);
            var s, first := At(s0, actions), |At(s0, actions[..q]).jobs|;
            var Returned(call, j, value) := s.threads[t];
            && s.jobs[first].block == Read(call.key) && s.jobs[first].phase.Finished?
            && if j == first then value == None ==> !call.miss
               else if s.jobs[first].phase.result == None then call.miss && s.jobs[j].block == Fill(call.key)
               else call.validate && s.jobs[j].block == Check(call.key)
  {
    hide Run, At, Explained, After, InTurn, Own, Asked;
    StartIsSerial(threads);
    StartIsHonest(threads);
    RunsAreSerial(Start(threads), actions);
    RunsAreHonest(Start(threads), actions);
    q := HasAsked(threads, actions, t);
    CallsOwn(threads, actions, q, t, At(Start(threads), actions).threads[t].call);
    HonestThread(At(Start(threads), actions), t);
  }

  /**
   * A call made after an asynchronous write, with nothing on the key submitted between, looks at
   * what was written: it returns that, or what the barrier of its rejecting validator found.
   */
  lemma CallsSeeWrites(threads: nat, actions: seq<Action>, p: nat, q: nat, t: nat, call: Call, v: Value)
    requires Run(Start(threads), actions) && Asked(actions, q, t, call) && p < q && actions[p] == Store(call.key, v)
    requires Run(Start(threads), actions[..p]) && Run(Start(threads), actions[..q])
    requires var jobs := At(Start(threads), actions[..q]).jobs;
             forall i :: |At(Start(threads), actions[..p]).jobs| < i < |jobs| && jobs[i].Barrier() ==> jobs[i].block.key != call.key
    ensures var s0 := Start(threads);
            var s, first := At(s0, actions), |At(s0, actions[..q]).jobs|;
            && t < |s.threads| && !s.threads[t].Resting? && s.threads[t].call == call
            && first < |s.jobs| && s.jobs[first].block == Read(call.key)
            && (s.jobs[first].phase.Finished? ==> s.jobs[first].phase.result == Some(v))
            && (s.threads[t].Returned? ==>
                  && s.threads[t].job < |s.jobs|
                  && if s.jobs[s.threads[t].job].block.Check? then call.validate else s.threads[t].value == Some(v))
  {
    hide Run, At, Explained, After, InTurn, Own, Serial, Enabled, Kept;
    var s0 := Start(threads);
    var s, first := At(s0, actions), |At(s0, actions[..q]).jobs|;
    RunKeeps(s0, actions, q);
    forall i | 0 <= i < first
      ensures i < |s.jobs| && s.jobs[i].block == At(s0, actions[..q]).jobs[i].block
    {
      KeptAt(At(s0, actions[..q]).jobs, s.jobs, i);
    }
    StartIsSerial(threads);
    StartIsHonest(threads);
    RunsAreSerial(s0, actions);
    RunsAreHonest(s0, actions);
    CallsOwn(threads, actions, q, t, call);
    HonestThread(s, t);
    WriteIsThere(s0, actions, p, q);
    if s.jobs[first].phase.Finished? { ReadsSeeWrites(s, |At(s0, actions[..p]).jobs|, first, call.key, v); }
  }

  /** The block of an asynchronous write stays where it was submitted. */
  lemma WriteIsThere(s0: System, actions: seq<Action>, p: nat, q: nat)
    requires Run(s0, actions) && p < q <= |actions| && actions[p].Store?
    ensures Run(s0, actions[..p]) && Run(s0, actions[..q])
    ensures var n := |At(s0, actions[..p]).jobs|;
            && n < |At(s0, actions[..q]).jobs| <= |At(s0, actions).jobs|
            && At(s0, actions).jobs[n].block == Put(actions[p].key, actions[p].value)
  {
    hide Enabled;
    RunKeeps(s0, actions, p);
    RunKeeps(s0, actions, p + 1);
    RunKeeps(s0, actions, q);
    RunKeeps(s0, actions[..q], p + 1);
    assert actions[..q][..p + 1] == actions[..p + 1];
    assert actions[..p + 1][..p] == actions[..p] && actions[..p + 1][p] == actions[p];
  }

  // ---- what the validator was asked

  /**
   * In this state this action is the call's validator saying yes to v: to what the call has
   * read, or inside the barrier, to what the dictionary holds then.
   */
  predicate SaysYes(s: System, a: Action, t: nat, call: Call, v: Value) {
    && t < |s.threads|
    && match s.threads[t]
       case Looking(c, j) =>
         c == call && call.validate && a == Decide(t, true) && j < |s.jobs|
         && s.jobs[j].block == Read(call.key) && s.jobs[j].phase.Finished? && s.jobs[j].phase.result == Some(v)
       case InBarrier(c, j, _) =>
         c == call && a == EndCheck(j, true) && j < |s.jobs|
         && s.jobs[j] == Job(Check(call.key), Running(Some(v))) && Lookup(s.cache, call.key) == Some(v)
       case _ => false
  }

  /** The first look of the call found nothing. */
  predicate FindsNothing(s: System, a: Action, t: nat) {
    && t < |s.threads| && s.threads[t].Looking? && a.Decide? && a.t == t
    && s.threads[t].job < |s.jobs| && s.jobs[s.threads[t].job].phase.Finished? && s.jobs[s.threads[t].job].phase.result == None
  }

  predicate YesAt(s: System, actions: seq<Action>, i: nat, t: nat, call: Call, v: Value) {
    i < |actions| && Run(s, actions[..i]) && SaysYes(At(s, actions[..i]), actions[i], t, call, v)
  }

  predicate NothingAt(s: System, actions: seq<Action>, i: nat, t: nat) {
    i < |actions| && Run(s, actions[..i]) && FindsNothing(At(s, actions[..i]), actions[i], t)
  }

  /** Since action q, the call's validator said yes to v. */
  predicate Approved(s: System, actions: seq<Action>, q: nat, t: nat, call: Call, v: Value) {
    exists i :: q < i < |actions| && YesAt(s, actions, i, t, call, v)
  }

  /** Since action q, the call looked and found nothing. */
  predicate Missed(s: System, actions: seq<Action>, q: nat, t: nat) {
    exists i :: q < i < |actions| && NothingAt(s, actions, i, t)
  }

  lemma ApprovedSnoc(s: System, actions: seq<Action>, a: Action, q: nat, t: nat, call: Call, v: Value)
    requires q < |actions| && Run(s, actions)
    ensures Approved(s, actions + [a], q, t, call, v) <==>
            Approved(s, actions, q, t, call, v) || SaysYes(At(s, actions), a, t, call, v)
  {
    hide Run, At, SaysYes;
    var all, n := actions + [a], |actions|;
    assert all[..n] == actions;
    assert forall i :: 0 <= i < n ==> all[..i] == actions[..i];
    assert forall i :: 0 <= i < n ==> (YesAt(s, all, i, t, call, v) <==> YesAt(s, actions, i, t, call, v));
    assert YesAt(s, all, n, t, call, v) <==> SaysYes(At(s, actions), a, t, call, v);
  }

  lemma MissedSnoc(s: System, actions: seq<Action>, a: Action, q: nat, t: nat)
    requires q < |actions| && Run(s, actions)
    ensures Missed(s, actions + [a], q, t) <==> Missed(s, actions, q, t) || FindsNothing(At(s, actions), a, t)
  {
    hide Run, At, FindsNothing;
    var all, n := actions + [a], |actions|;
    assert all[..n] == actions;
    assert forall i :: 0 <= i < n ==> all[..i] == actions[..i];
    assert forall i :: 0 <= i < n ==> (NothingAt(s, all, i, t) <==> NothingAt(s, actions, i, t));
    assert NothingAt(s, all, n, t) <==> FindsNothing(At(s, actions), a, t);
  }

  /**
   * What is known of a call when its thread stands at th: `yes` is what its validator has
   * said yes to, `nothing` whether its first look found nothing.
   */
  predicate Known(jobs: seq<Job>, th: Thread, v: Value, yes: bool, nothing: bool) {
    match th
    case Resting => true
    case Looking(_, _) => !yes && !nothing
    case InBarrier(_, j, missed) =>
      && missed == nothing && j < |jobs|
      && (yes <==> !missed && jobs[j].phase.Finished? && jobs[j].phase.result == Some(v))
    case Returned(call, j, value) =>
      && j < |jobs| && (jobs[j].block.Fill? <==> nothing && call.miss)
      && (call.validate && value == Some(v) ==> (yes <==> !jobs[j].block.Fill?))
  }

  /** A checking block ends with a value only if the validator accepted that value. */
  lemma CheckKeepsAccepted(s: System, a: Action, i: nat)
    requires Serial(s) && Enabled(s, a) && Busy(s, i) && s.jobs[i].block.Check? && Next(s, a).jobs[i].phase.Finished?
    ensures a.EndCheck? && a.i == i
    ensures Next(s, a).jobs[i].phase.result.Some? ==> a.valid && Next(s, a).jobs[i].phase.result == Lookup(s.cache, s.jobs[i].block.key)
  {
    hide After, InTurn, Explained;
    SeenIs(s, i);
  }

  /** One step adds to what is known what it does. */
  lemma KnownStep(s: System, a: Action, t: nat, v: Value, yes: bool, nothing: bool)
    requires Serial(s) && Honest(s) && Enabled(s, a) && t < |s.threads| && !s.threads[t].Resting?
    requires !(a.Ask? && a.t == t)
    requires Known(s.jobs, s.threads[t], v, yes, nothing)
    ensures var s' := Next(s, a);
            && t < |s'.threads| && !s'.threads[t].Resting? && s'.threads[t].call == s.threads[t].call
            && Known(s'.jobs, s'.threads[t], v, yes || SaysYes(s, a, t, s.threads[t].call, v), nothing || FindsNothing(s, a, t))
  {
    hide Serial, Known;
    var th := s.threads[t];
    assert ThreadOk(s.jobs, th);
    if th.Looking? {
      LookingStep(s, a, t, v, yes, nothing);
    } else if th.InBarrier? {
      BarrierStep(s, a, t, v, yes, nothing);
    } else {
      ReturnedStep(s, a, t, v, yes, nothing);
    }
  }

  lemma LookingStep(s: System, a: Action, t: nat, v: Value, yes: bool, nothing: bool)
    requires Enabled(s, a) && t < |s.threads| && s.threads[t].Looking? && ThreadOk(s.jobs, s.threads[t])
    requires !(a.Ask? && a.t == t) && Known(s.jobs, s.threads[t], v, yes, nothing)
    ensures var s' := Next(s, a);
            && t < |s'.threads| && !s'.threads[t].Resting? && s'.threads[t].call == s.threads[t].call
            && Known(s'.jobs, s'.threads[t], v, yes || SaysYes(s, a, t, s.threads[t].call, v), nothing || FindsNothing(s, a, t))
  {
    hide MayBegin;
  }

  lemma BarrierStep(s: System, a: Action, t: nat, v: Value, yes: bool, nothing: bool)
    requires Serial(s) && Enabled(s, a) && t < |s.threads| && s.threads[t].InBarrier? && ThreadOk(s.jobs, s.threads[t])
    requires !(a.Ask? && a.t == t) && Known(s.jobs, s.threads[t], v, yes, nothing)
    ensures var s' := Next(s, a);
            && t < |s'.threads| && !s'.threads[t].Resting? && s'.threads[t].call == s.threads[t].call
            && Known(s'.jobs, s'.threads[t], v, yes || SaysYes(s, a, t, s.threads[t].call, v), nothing || FindsNothing(s, a, t))
  {
    hide Serial;
    var th := s.threads[t];
    if !th.missed && Busy(s, th.job) && Next(s, a).jobs[th.job].phase.Finished? {
      CheckKeepsAccepted(s, a, th.job);
    }
  }

  lemma ReturnedStep(s: System, a: Action, t: nat, v: Value, yes: bool, nothing: bool)
    requires Enabled(s, a) && t < |s.threads| && s.threads[t].Returned? && ThreadOk(s.jobs, s.threads[t])
    requires !(a.Ask? && a.t == t) && Known(s.jobs, s.threads[t], v, yes, nothing)
    ensures var s' := Next(s, a);
            && t < |s'.threads| && !s'.threads[t].Resting? && s'.threads[t].call == s.threads[t].call
            && Known(s'.jobs, s'.threads[t], v, yes || SaysYes(s, a, t, s.threads[t].call, v), nothing || FindsNothing(s, a, t))
  {
  }

  /** In every run and for every thread that has called: where its call begins, and what is known of it since. */
  lemma {:induction false} CallsAreKnown(threads: nat, actions: seq<Action>, t: nat, v: Value) returns (q: nat)
    requires Run(Start(threads), actions)
    requires var s := At(Start(threads), actions); t < |s.threads| && !s.threads[t].Resting?
    ensures var s0 := Start(threads);
            var s := At(s0, actions);
            && Asked(actions, q, t, s.threads[t].call)
            && Known(s.jobs, s.threads[t], v, Approved(s0, actions, q, t, s.threads[t].call, v), Missed(s0, actions, q, t))
    decreases |actions|
  {
    hide Serial, Honest, Enabled, SaysYes, FindsNothing, Approved, Missed, Known;
    var s0 := Start(threads);
    var before, a := actions[..|actions| - 1], actions[|actions| - 1];
    var s := At(s0, before);
    assert actions == before + [a];
    if a.Ask? && a.t == t {
      q := |before|;
      NothingKnown(s0, actions, t, a.call, v);
    } else {
      StartIsSerial(threads);
      StartIsHonest(threads);
      RunsAreSerial(s0, before);
      RunsAreHonest(s0, before);
      StillResting(s, a, t);
      q := CallsAreKnown(threads, before, t, v);
      var call := s.threads[t].call;
      KnownStep(s, a, t, v, Approved(s0, before, q, t, call, v), Missed(s0, before, q, t));
      ApprovedSnoc(s0, before, a, q, t, call, v);
      MissedSnoc(s0, before, a, q, t);
    }
  }

  /** A call that has just been made. */
  lemma NothingKnown(s0: System, actions: seq<Action>, t: nat, call: Call, v: Value)
    requires Run(s0, actions) && actions != [] && actions[|actions| - 1] == Ask(t, call)
    ensures var q, s := |actions| - 1, At(s0, actions);
            && Asked(actions, q, t, call) && t < |s.threads| && s.threads[t] == Looking(call, |s.jobs| - 1)
            && Known(s.jobs, s.threads[t], v, Approved(s0, actions, q, t, call, v), Missed(s0, actions, q, t))
  {
  }

  /**
   * In every run, a call with only a validator that returned a value has, since it was made,
   * shown that value to its validator, and got a yes: to what it first read, or inside the barrier.
   */
  lemma ApprovedByValidator(threads: nat, actions: seq<Action>, t: nat) returns (q: nat)
    requires Run(Start(threads), actions)
    requires var s := At(Start(threads), actions);
             t < |s.threads| && s.threads[t].Returned? && s.threads[t].value.Some? && s.threads[t].call.validate && !s.threads[t].call.miss
    ensures var th := At(Start(threads), actions).threads[t];
            Asked(actions, q, t, th.call) && Approved(Start(threads), actions, q, t, th.call, th.value.value)
  {
    hide Run, At, Approved, Missed, Asked;
    q := CallsAreKnown(threads, actions, t, At(Start(threads), actions).threads[t].value.value);
  }

  /**
   * With a generator as well, a returned value was not approved in its call if and only if it
   * comes out of the filling block; and it does if and only if the call first found nothing.
   */
  lemma UnapprovedExactly(threads: nat, actions: seq<Action>, t: nat) returns (q: nat)
    requires Run(Start(threads), actions)
    requires var s := At(Start(threads), actions);
             t < |s.threads| && s.threads[t].Returned? && s.threads[t].value.Some? && s.threads[t].call.validate && s.threads[t].call.miss
    ensures var s0 := Start(threads);
            var s := At(s0, actions);
            var Returned(call, j, value) := s.threads[t];
            && Asked(actions, q, t, call) && j < |s.jobs|
            && (!Approved(s0, actions, q, t, call, value.value) <==> s.jobs[j].block == Fill(call.key))
            && (s.jobs[j].block == Fill(call.key) <==> Missed(s0, actions, q, t))
  {
    hide Run, At, Approved, Missed, Asked;
    StartIsHonest(threads);
    RunsAreHonest(Start(threads), actions);
    var s := At(Start(threads), actions);
    assert ThreadOk(s.jobs, s.threads[t]);
    q := CallsAreKnown(threads, actions, t, s.threads[t].value.value);
  }

  /** Such a run: the value made after a miss is returned without being shown to the validator. */
  lemma MissSkipsValidator(k: Key, v: Value) returns (actions: seq<Action>)
    ensures Run(Start(1), actions) && At(Start(1), actions).threads == [Returned(Call(k, true, true), 1, Some(v))]
    ensures forall i :: 0 <= i < |actions| ==> !actions[i].EndCheck? && (actions[i].Decide? ==> !actions[i].valid)
  {
    hide Run, At;
    actions := [];
    NoActions(Start(1));
    var call := Call(k, true, true);
    actions := Extended(Start(1), actions, Ask(0, call));
    actions := Extended(Start(1), actions, Begin(0));
    actions := Extended(Start(1), actions, EndRead(0));
    actions := Extended(Start(1), actions, Decide(0, false));
    actions := Extended(Start(1), actions, Begin(1));
    actions := Extended(Start(1), actions, EndFill(1, Some(v)));
    actions := Extended(Start(1), actions, Return(0));
  }

  lemma NoActions(s: System)
    ensures Run(s, []) && At(s, []) == s
  {
  }

  lemma Extended(s: System, actions: seq<Action>, a: Action) returns (more: seq<Action>)
    requires Run(s, actions) && Enabled(At(s, actions), a)
    ensures more == actions + [a] && Run(s, more) && At(s, more) == Next(At(s, actions), a)
  {
    more := actions + [a];
    RunSnoc(s, actions, a);
  }
}
