/** The pool itself: what each critical section does to the fields guarded by the mutex. */
module ObjectPool {

  /** A maxSize of zero means that the pool is not limited. */
  datatype Pool<T> = Pool(maxSize: nat, allocatedSize: int, borrowedSize: int, objects: seq<T>) {
    predicate MayAllocate() { maxSize == 0 || allocatedSize < maxSize }

    function Last(): T
      requires objects != []
    {
      objects[|objects| - 1]
    }

    function TakeIdle(): Pool<T>
      requires objects != []
    {
      this.(objects := objects[..|objects| - 1], borrowedSize := borrowedSize + 1)
    }

    function Allocate(): Pool<T> { this.(allocatedSize := allocatedSize + 1, borrowedSize := borrowedSize + 1) }

    function PutBack(x: T): Pool<T> { this.(objects := objects + [x], borrowedSize := borrowedSize - 1) }
  }

  /** The object returned last is the first to be borrowed again, and the pool is then as before. */
  lemma LastInFirstOut<T>(pool: Pool<T>, x: T)
    ensures pool.PutBack(x).Last() == x && pool.PutBack(x).TakeIdle() == pool
  {
    assert (pool.objects + [x])[..|pool.objects|] == pool.objects;
  }

  datatype Option<T> = None | Some(value: T)

  class BorrowedObjectPool<T> {
    const maxSize: nat
    var allocatedObjectsSize: int
    var borrowedObjectsSize: int
    var objects: seq<T>

    function State(): Pool<T>
      reads this
    {
      Pool(maxSize, allocatedObjectsSize, borrowedObjectsSize, objects)
    }

    constructor (maxSize: nat)
      ensures State() == Pool(maxSize, 0, 0, [])
    {
      this.maxSize := maxSize;
      allocatedObjectsSize, borrowedObjectsSize, objects := 0, 0, [];
    }

    method BorrowFromObjects() returns (dst: T)
      requires objects != []
      modifies this
      ensures dst == old(State()).Last() && State() == old(State()).TakeIdle()
    {
      dst := objects[|objects| - 1];
      objects := objects[..|objects| - 1];
      borrowedObjectsSize := borrowedObjectsSize + 1;
    }

    method AllocateObjectForBorrowing(factory: () -> T) returns (dst: T)
      modifies this
      ensures dst == factory() && State() == old(State()).Allocate()
    {
      allocatedObjectsSize := allocatedObjectsSize + 1;
      borrowedObjectsSize := borrowedObjectsSize + 1;
      dst := factory();
    }

    /** The section that opens borrowObject and tryBorrowObject; None means that the caller goes to sleep. */
    method BorrowOrWait(factory: () -> T) returns (dest: Option<T>)
      modifies this
      ensures old(objects) != [] ==> dest == Some(old(State()).Last()) && State() == old(State()).TakeIdle()
      ensures old(objects) == [] && old(State()).MayAllocate()
              ==> dest == Some(factory()) && State() == old(State()).Allocate()
      ensures old(objects) == [] && !old(State()).MayAllocate() ==> dest == None && State() == old(State())
    {
      if objects != [] {
        var x := BorrowFromObjects();
        return Some(x);
      }
      var hasUnlimitedSize := maxSize == 0;
      if hasUnlimitedSize || allocatedObjectsSize < maxSize {
        var x := AllocateObjectForBorrowing(factory);
        return Some(x);
      }
      return None;
    }

    /** The section that follows a wakeup: the wait condition is evaluated again under the mutex. */
    method BorrowAfterWakeup() returns (dest: Option<T>)
      modifies this
      ensures old(objects) != [] ==> dest == Some(old(State()).Last()) && State() == old(State()).TakeIdle()
      ensures old(objects) == [] ==> dest == None && State() == old(State())
    {
      if objects == [] { return None; }
      var x := BorrowFromObjects();
      return Some(x);
    }

    method ReturnObject(x: T)
      modifies this
      ensures State() == old(State()).PutBack(x)
    {
      objects := objects + [x];
      borrowedObjectsSize := borrowedObjectsSize - 1;
    }
  }
}

/** Any number of threads using one pool, one critical section or one condition variable event at a time. */
module ObjectPoolProtocol {
  import opened ObjectPool

  type Thread = nat
  type Object = nat

  /** Where a thread is: outside the pool, asleep on the condition variable, awake but still to take the mutex and
      look, or between leaving the mutex in returnObject and notify_one. */
  datatype Phase = Outside | Sleeping(timed: bool) | Woken(timed: bool) | TimedOut | Notifying {
    predicate Checking() { Woken? || TimedOut? }
  }

  ghost function Held(held: map<Thread, set<Object>>): set<Object> { set t, x | t in held && x in held[t] :: x }

  ghost function Sleepers(phase: map<Thread, Phase>): set<Thread> { set t | t in phase && phase[t].Sleeping? }

  ghost function Checkers(phase: map<Thread, Phase>): set<Thread> { set t | t in phase && phase[t].Checking() }

  ghost function Notifiers(phase: map<Thread, Phase>): set<Thread> { set t | t in phase && phase[t].Notifying? }

  datatype System = System(pool: Pool<Object>, phase: map<Thread, Phase>, held: map<Thread, set<Object>>) {
    /** Thread t takes the last idle object and leaves the pool. */
    ghost function Taken(t: Thread): System
      requires t in held && pool.objects != []
    {
      System(pool.TakeIdle(), phase[t := Outside], held[t := held[t] + {pool.Last()}])
    }

    ghost function Moved(t: Thread, p: Phase): System { this.(phase := phase[t := p]) }
  }

  datatype Event =
    | Borrow(timed: bool, made: Object)
    | SpuriousWakeup
    | Timeout
    | Recheck
    | Return(object: Object)
    | Notify(target: Thread)

  /** Thread t performs event e. A factory yields an object the pool has not seen; a client returns only an object
      it holds. */
  ghost predicate Step(s: System, t: Thread, e: Event, s': System) {
    t in s.phase && t in s.held &&
    match e
    case Borrow(timed, made) =>
      s.phase[t] == Outside &&
      if s.pool.objects != [] then s' == s.Taken(t)
      else if s.pool.MayAllocate() then
        made !in Held(s.held)
        && s' == s.(pool := s.pool.Allocate(), held := s.held[t := s.held[t] + {made}])
      else s' == s.Moved(t, Sleeping(timed))
    case SpuriousWakeup =>
      s.phase[t].Sleeping? && s' == s.Moved(t, Woken(s.phase[t].timed))
    case Timeout =>
      s.phase[t] == Sleeping(true) && s' == s.Moved(t, TimedOut)
    case Recheck =>
      s.phase[t].Checking() &&
      if s.pool.objects != [] then s' == s.Taken(t)
      else s' == s.Moved(t, if s.phase[t].TimedOut? then Outside else Sleeping(s.phase[t].timed))
    case Return(x) =>
      s.phase[t] == Outside && x in s.held[t]
      && s' == System(s.pool.PutBack(x), s.phase[t := Notifying], s.held[t := s.held[t] - {x}])
    case Notify(target) =>
      s.phase[t] == Notifying &&
      if Sleepers(s.phase) == {} then s' == s.Moved(t, Outside)
      else target in Sleepers(s.phase)
           && s' == s.Moved(t, Outside).Moved(target, Woken(s.phase[target].timed))
  }

  ghost predicate Next(s: System, s': System) {
    exists t, e :: Step(s, t, e, s')
  }

  ghost predicate Init(s: System) {
    && s.pool.allocatedSize == 0 && s.pool.borrowedSize == 0 && s.pool.objects == []
    && s.held.Keys == s.phase.Keys
    && (forall t :: t in s.held ==> s.held[t] == {})
    && (forall t :: t in s.phase ==> s.phase[t] == Outside)
  }

  ghost predicate NextAt(states: seq<System>, i: nat)
    requires i + 1 < |states|
  {
    Next(states[i], states[i + 1])
  }

  ghost predicate Run(states: seq<System>) {
    states != [] && Init(states[0]) && forall i: nat :: i + 1 < |states| ==> NextAt(states, i)
  }

  // ---------------------------------------------------------------- what every reachable state satisfies

  ghost predicate Distinct(objects: seq<Object>) {
    forall i, j :: 0 <= i < j < |objects| ==> objects[i] != objects[j]
  }

  /** Idle objects are distinct and none of them is held. */
  ghost predicate Apart(objects: seq<Object>, held: map<Thread, set<Object>>) {
    Distinct(objects) && forall x :: x in objects ==> x !in Held(held)
  }

  /** No object has two holders and no idle object is held. */
  ghost predicate Exclusive(s: System) {
    s.held.Keys == s.phase.Keys && OneHolder(s.held) && Apart(s.pool.objects, s.held)
  }

  ghost predicate Counted(s: System) {
    && s.pool.borrowedSize == |Held(s.held)|
    && s.pool.allocatedSize == s.pool.borrowedSize + |s.pool.objects|
    && (s.pool.maxSize != 0 ==> s.pool.allocatedSize <= s.pool.maxSize)
  }

  /** Threads wait only in a full pool, and idle objects are covered by threads that are going to look. */
  ghost predicate Covered(s: System) {
    && (Sleepers(s.phase) != {} ==> s.pool.maxSize != 0 && s.pool.allocatedSize == s.pool.maxSize)
    && (Checkers(s.phase) != {} ==> s.pool.maxSize != 0 && s.pool.allocatedSize == s.pool.maxSize)
    && (Sleepers(s.phase) != {} ==> |s.pool.objects| <= |Notifiers(s.phase)| + |Checkers(s.phase)|)
  }

  ghost predicate Inv(s: System) { Exclusive(s) && Counted(s) && Covered(s) }

  lemma InitHolds(s: System)
    requires Init(s)
    ensures Inv(s)
  {
    assert Held(s.held) == {} && Sleepers(s.phase) == {} && Checkers(s.phase) == {};
  }

  // ---- one thread changes its phase

  lemma PhaseSets(phase: map<Thread, Phase>, t: Thread, p: Phase)
    requires t in phase
    ensures var phase' := phase[t := p];
            && Sleepers(phase') == (if p.Sleeping? then Sleepers(phase) + {t} else Sleepers(phase) - {t})
            && Checkers(phase') == (if p.Checking() then Checkers(phase) + {t} else Checkers(phase) - {t})
            && Notifiers(phase') == (if p.Notifying? then Notifiers(phase) + {t} else Notifiers(phase) - {t})
            && phase'.Keys == phase.Keys
  {
  }

  // ---- one thread gains or loses an object

  ghost predicate OneHolder(held: map<Thread, set<Object>>) {
    forall t, u, x :: t in held && u in held && x in held[t] && x in held[u] ==> t == u
  }

  lemma Gain(held: map<Thread, set<Object>>, t: Thread, x: Object)
    requires t in held && OneHolder(held) && x !in Held(held)
    ensures var held' := held[t := held[t] + {x}];
            Held(held') == Held(held) + {x} && OneHolder(held') && held'.Keys == held.Keys
  {
    var held' := held[t := held[t] + {x}];
    forall y | y in Held(held) + {x} ensures y in Held(held') {
      if y == x {
        assert t in held' && x in held'[t];
      } else {
        var u :| u in held && y in held[u];
        assert u in held' && y in held'[u];
      }
    }
  }

  lemma Lose(held: map<Thread, set<Object>>, t: Thread, x: Object)
    requires t in held && OneHolder(held) && x in held[t]
    ensures var held' := held[t := held[t] - {x}];
            Held(held') == Held(held) - {x} && x in Held(held) && OneHolder(held') && held'.Keys == held.Keys
  {
    var held' := held[t := held[t] - {x}];
    forall y | y in Held(held) - {x} ensures y in Held(held') {
      var u :| u in held && y in held[u];
      assert u in held' && y in held'[u];
    }
  }

  // ---- every step

  lemma TakeExclusive(pool: Pool<Object>, held: map<Thread, set<Object>>, t: Thread)
    requires t in held && pool.objects != [] && OneHolder(held) && Apart(pool.objects, held)
    ensures var held' := held[t := held[t] + {pool.Last()}];
            && OneHolder(held') && Apart(pool.TakeIdle().objects, held') && held'.Keys == held.Keys
            && |Held(held')| == |Held(held)| + 1
  {
    var x, n := pool.Last(), |pool.objects|;
    assert x == pool.objects[n - 1] && x in pool.objects;
    Gain(held, t, x);
  }

  /** Taking an idle object, from outside or after a wakeup. */
  lemma TakenKeeps(s: System, t: Thread)
    requires Inv(s) && t in s.held && s.pool.objects != []
    requires s.phase[t] == Outside || s.phase[t].Checking()
    ensures Inv(s.Taken(t))
  {
    TakeExclusive(s.pool, s.held, t);
    PhaseSets(s.phase, t, Outside);
  }

  lemma AllocateKeeps(s: System, t: Thread, x: Object, s': System)
    requires Inv(s) && t in s.held && s.pool.objects == [] && s.pool.MayAllocate() && x !in Held(s.held)
    requires s' == s.(pool := s.pool.Allocate(), held := s.held[t := s.held[t] + {x}])
    ensures Inv(s')
  {
    Gain(s.held, t, x);
  }

  /** Going to sleep, waking up or giving up leaves the pool alone. */
  lemma MovedKeeps(s: System, t: Thread, p: Phase)
    requires Inv(s) && t in s.phase && !s.phase[t].Notifying? && !p.Notifying?
    requires p.Checking() ==> s.phase[t].Sleeping?
    requires p.Sleeping? || s.phase[t].Checking() ==> s.pool.objects == [] && !s.pool.MayAllocate()
    ensures Inv(s.Moved(t, p))
  {
    PhaseSets(s.phase, t, p);
  }

  lemma ReturnKeeps(s: System, t: Thread, x: Object, s': System)
    requires Inv(s) && t in s.held && x in s.held[t] && s.phase[t] == Outside
    requires s' == System(s.pool.PutBack(x), s.phase[t := Notifying], s.held[t := s.held[t] - {x}])
    ensures Inv(s')
  {
    Lose(s.held, t, x);
    PhaseSets(s.phase, t, Notifying);
  }

  lemma NotifyNobodyKeeps(s: System, t: Thread)
    requires Inv(s) && t in s.phase && s.phase[t] == Notifying && Sleepers(s.phase) == {}
    ensures Inv(s.Moved(t, Outside))
  {
    PhaseSets(s.phase, t, Outside);
  }

  lemma NotifySets(phase: map<Thread, Phase>, t: Thread, target: Thread, timed: bool)
    requires t in phase && phase[t] == Notifying && target in phase && phase[target].Sleeping?
    ensures var phase' := phase[t := Outside][target := Woken(timed)];
            && Notifiers(phase') == Notifiers(phase) - {t} && Checkers(phase') == Checkers(phase) + {target}
            && Sleepers(phase') == Sleepers(phase) - {target} && phase'.Keys == phase.Keys
  {
  }

  /** One notification wakes one sleeper, which then counts in its place. */
  lemma NotifyPhases(phase: map<Thread, Phase>, t: Thread, target: Thread, timed: bool)
    requires t in phase && phase[t] == Notifying && target in phase && phase[target].Sleeping?
    ensures var phase' := phase[t := Outside][target := Woken(timed)];
            && |Notifiers(phase')| == |Notifiers(phase)| - 1 && |Checkers(phase')| == |Checkers(phase)| + 1
            && Sleepers(phase') <= Sleepers(phase) && phase'.Keys == phase.Keys
  {
    NotifySets(phase, t, target, timed);
    OneLess(Notifiers(phase), t);
    OneMore(Checkers(phase), target);
  }

  lemma OneLess(threads: set<Thread>, t: Thread)
    requires t in threads
    ensures |threads - {t}| == |threads| - 1
  {
  }

  lemma OneMore(threads: set<Thread>, t: Thread)
    requires t !in threads
    ensures |threads + {t}| == |threads| + 1
  {
  }

  lemma NotifyKeeps(s: System, t: Thread, target: Thread)
    requires Inv(s) && t in s.phase && s.phase[t] == Notifying && target in Sleepers(s.phase)
    ensures Inv(s.Moved(t, Outside).Moved(target, Woken(s.phase[target].timed)))
  {
    NotifyPhases(s.phase, t, target, s.phase[target].timed);
  }

  lemma BorrowKeeps(s: System, t: Thread, timed: bool, made: Object, s': System)
    requires Inv(s) && Step(s, t, Borrow(timed, made), s')
    ensures Inv(s')
  {
    if s.pool.objects != [] {
      TakenKeeps(s, t);
    } else if s.pool.MayAllocate() {
      AllocateKeeps(s, t, made, s');
    } else {
      MovedKeeps(s, t, Sleeping(timed));
    }
  }

  lemma RecheckKeeps(s: System, t: Thread, s': System)
    requires Inv(s) && Step(s, t, Recheck, s')
    ensures Inv(s')
  {
    if s.pool.objects != [] {
      TakenKeeps(s, t);
    } else {
      assert t in Checkers(s.phase);
      MovedKeeps(s, t, if s.phase[t].TimedOut? then Outside else Sleeping(s.phase[t].timed));
    }
  }

  lemma StepKeeps(s: System, t: Thread, e: Event, s': System)
    requires Inv(s) && Step(s, t, e, s')
    ensures Inv(s')
  {
    match e
    case Borrow(timed, made) => BorrowKeeps(s, t, timed, made, s');
    case SpuriousWakeup => MovedKeeps(s, t, Woken(s.phase[t].timed));
    case Timeout => MovedKeeps(s, t, TimedOut);
    case Recheck => RecheckKeeps(s, t, s');
    case Return(x) => ReturnKeeps(s, t, x, s');
    case Notify(target) =>
      if Sleepers(s.phase) == {} { NotifyNobodyKeeps(s, t); } else { NotifyKeeps(s, t, target); }
  }

  // ---------------------------------------------------------------- every run

  lemma NextKeeps(s: System, s': System)
    requires Inv(s) && Next(s, s')
    ensures Inv(s')
  {
    var t, e :| Step(s, t, e, s');
    StepKeeps(s, t, e, s');
  }

  lemma {:induction false} RunKeeps(states: seq<System>, i: nat)
    requires Run(states) && i < |states|
    ensures Inv(states[i])
  {
    if i == 0 {
      InitHolds(states[0]);
    } else {
      RunKeeps(states, i - 1);
      assert NextAt(states, i - 1);
      NextKeeps(states[i - 1], states[i]);
    }
  }

  /** In every state of every run: the counters add up, the limit is kept, and each object is idle or in the hands
      of exactly one thread. */
  lemma Conservation(states: seq<System>, i: nat)
    requires Run(states) && i < |states|
    ensures var s := states[i];
            && s.pool.allocatedSize == s.pool.borrowedSize + |s.pool.objects|
            && s.pool.borrowedSize == |Held(s.held)|
            && (s.pool.maxSize != 0 ==> s.pool.allocatedSize <= s.pool.maxSize)
            && OneHolder(s.held) && Apart(s.pool.objects, s.held)
  {
    RunKeeps(states, i);
  }

  /** A client that asks for an object has to wait exactly if the pool is limited and all the objects it may have are out. */
  lemma WaitsWhenExhausted(states: seq<System>, i: nat, t: Thread, timed: bool, made: Object, next: System)
    requires Run(states) && i < |states| && Step(states[i], t, Borrow(timed, made), next)
    ensures t in next.phase
    ensures next.phase[t].Sleeping? <==> states[i].pool.maxSize > 0 && |Held(states[i].held)| == states[i].pool.maxSize
  {
    Conservation(states, i);
  }

  /** No lost wakeup: while threads sleep, every idle object is matched by a pending notification or by a thread
      that is awake and about to look. With none of these, all objects are out and the pool is full. */
  lemma NoLostWakeup(states: seq<System>, i: nat)
    requires Run(states) && i < |states| && Sleepers(states[i].phase) != {}
    ensures var s := states[i];
            && |s.pool.objects| <= |Notifiers(s.phase)| + |Checkers(s.phase)|
            && (Notifiers(s.phase) == {} && Checkers(s.phase) == {}
                ==> s.pool.objects == [] && |Held(s.held)| == s.pool.maxSize > 0)
  {
    RunKeeps(states, i);
  }

  // ---------------------------------------------------------------- delivery

  /** A step of a thread already inside the pool: it sends its notification or looks at the pool. */
  ghost predicate Inner(s: System, s': System) {
    exists t, e :: Step(s, t, e, s') && (e.Notify? || e.Recheck?)
  }

  ghost function Pending(s: System): nat { 2 * |Notifiers(s.phase)| + |Checkers(s.phase)| }

  lemma DeliverByNotifying(s: System, t: Thread) returns (s': System)
    requires Inv(s) && Sleepers(s.phase) != {} && t in Notifiers(s.phase)
    ensures Inv(s') && Inner(s, s') && Pending(s') < Pending(s)
  {
    var u :| u in Sleepers(s.phase);
    s' := s.Moved(t, Outside).Moved(u, Woken(s.phase[u].timed));
    assert Step(s, t, Notify(u), s');
    NotifyPhases(s.phase, t, u, s.phase[u].timed);
    NotifyKeeps(s, t, u);
  }

  lemma DeliverByLooking(s: System, t: Thread) returns (s': System)
    requires Inv(s) && s.pool.objects != [] && t in Checkers(s.phase)
    ensures Inv(s') && Inner(s, s') && Pending(s') < Pending(s)
  {
    s' := s.Taken(t);
    assert Step(s, t, Recheck, s');
    PhaseSets(s.phase, t, Outside);
    TakenKeeps(s, t);
  }

  /** While an object is idle and a thread sleeps, some inner step is possible and brings delivery closer. */
  lemma Deliver(s: System) returns (s': System)
    requires Inv(s) && Sleepers(s.phase) != {} && s.pool.objects != []
    ensures Inv(s') && Inner(s, s') && Pending(s') < Pending(s)
  {
    if t :| t in Notifiers(s.phase) {
      s' := DeliverByNotifying(s, t);
    } else {
      assert Checkers(s.phase) != {};
      var t :| t in Checkers(s.phase);
      s' := DeliverByLooking(s, t);
    }
  }

  ghost predicate Settled(s: System) { s.pool.objects == [] || Sleepers(s.phase) == {} }

  ghost predicate InnerAt(path: seq<System>, i: nat)
    requires i + 1 < |path|
  {
    Inner(path[i], path[i + 1])
  }

  ghost predicate InnerPath(path: seq<System>) {
    forall i: nat :: i + 1 < |path| ==> InnerAt(path, i)
  }

  // ---- every inner step brings delivery closer

  lemma NotifyLowers(s: System, t: Thread, target: Thread, s': System)
    requires Inv(s) && Step(s, t, Notify(target), s')
    ensures Pending(s') < Pending(s)
  {
    if Sleepers(s.phase) == {} {
      PhaseSets(s.phase, t, Outside);
      OneLess(Notifiers(s.phase), t);
    } else {
      NotifyPhases(s.phase, t, target, s.phase[target].timed);
    }
  }

  lemma RecheckLowers(s: System, t: Thread, s': System)
    requires Inv(s) && Step(s, t, Recheck, s')
    ensures Pending(s') < Pending(s)
  {
    var p := s'.phase[t];
    assert s'.phase == s.phase[t := p] && !p.Checking() && !p.Notifying?;
    PhaseSets(s.phase, t, p);
    OneLess(Checkers(s.phase), t);
  }

  lemma InnerLowers(s: System, s': System)
    requires Inv(s) && Inner(s, s')
    ensures Inv(s') && Pending(s') < Pending(s)
  {
    var t, e :| Step(s, t, e, s') && (e.Notify? || e.Recheck?);
    StepKeeps(s, t, e, s');
    match e
    case Notify(target) => NotifyLowers(s, t, target, s');
    case Recheck => RecheckLowers(s, t, s');
  }

  lemma {:induction false} PathLowers(path: seq<System>, i: nat)
    requires i < |path| && Inv(path[0]) && InnerPath(path)
    ensures Inv(path[i]) && Pending(path[i]) + i <= Pending(path[0])
  {
    if i > 0 {
      PathLowers(path, i - 1);
      assert InnerAt(path, i - 1);
      InnerLowers(path[i - 1], path[i]);
    }
  }

  // ---- where inner steps end

  ghost predicate CanStep(s: System) { exists s' :: Inner(s, s') }

  lemma NotifierCanStep(s: System, t: Thread)
    requires Inv(s) && t in Notifiers(s.phase)
    ensures CanStep(s)
  {
    if Sleepers(s.phase) == {} {
      var s' := s.Moved(t, Outside);
      assert Step(s, t, Notify(t), s');
      assert Inner(s, s');
    } else {
      var s' := DeliverByNotifying(s, t);
    }
  }

  lemma CheckerCanStep(s: System, t: Thread)
    requires Inv(s) && t in Checkers(s.phase)
    ensures CanStep(s)
  {
    if s.pool.objects != [] {
      var s' := DeliverByLooking(s, t);
    } else {
      var s' := s.Moved(t, if s.phase[t].TimedOut? then Outside else Sleeping(s.phase[t].timed));
      assert Step(s, t, Recheck, s');
      assert Inner(s, s');
    }
  }

  lemma StuckIsSettled(s: System)
    requires Inv(s) && !CanStep(s)
    ensures Notifiers(s.phase) == {} && Checkers(s.phase) == {} && Settled(s)
  {
    if t :| t in Notifiers(s.phase) { NotifierCanStep(s, t); }
    if t :| t in Checkers(s.phase) { CheckerCanStep(s, t); }
  }

  /** From every reachable state and for every choice of steps, the threads already inside the pool make at most
      Pending steps, and when they can make no more, no object is idle beside a sleeping thread. */
  lemma SleepersAreServed(states: seq<System>, i: nat, path: seq<System>)
    requires Run(states) && i < |states| && path != [] && path[0] == states[i] && InnerPath(path)
    ensures |path| <= Pending(states[i]) + 1
    ensures !CanStep(path[|path| - 1]) ==> Settled(path[|path| - 1])
  {
    RunKeeps(states, i);
    PathLowers(path, |path| - 1);
    if !CanStep(path[|path| - 1]) { StuckIsSettled(path[|path| - 1]); }
  }

  /** While an object is idle beside a sleeping thread, such a step is possible. */
  lemma NeverStuck(states: seq<System>, i: nat)
    requires Run(states) && i < |states| && !Settled(states[i])
    ensures CanStep(states[i])
  {
    RunKeeps(states, i);
    var s' := Deliver(states[i]);
  }
}
