/** The thread count, the thread pool and the process that built it, through
    forks and changes of the count. */
module Threading {
  import opened Results

  type Pid = nat

  /** A thread pool, by the process that built it and its number of threads. */
  datatype Pool = Pool(builder: Pid, threads: nat)

  /** A process's copy of the three statics. */
  datatype Statics = Statics(numThreads: nat, pool: Option<Pool>, poolPid: Pid) {

    predicate InPoolProcess(self: Pid) {
      poolPid == self
    }

    function GetNumThreads(self: Pid): nat {
      if numThreads > 1 && !InPoolProcess(self) then 1 else numThreads
    }

    /** The pool a parallel call is installed on, or None to run it directly. */
    function PoolForCall(self: Pid): Option<Pool> {
      if InPoolProcess(self) then pool else None
    }

    // --- `set_num_threads`, one write at a time ---

    function Swapped(newPool: Option<Pool>): Statics {
      this.(pool := newPool)
    }

    function Stamped(self: Pid): Statics {
      this.(poolPid := self)
    }

    function Counted(n: nat): Statics {
      this.(numThreads := n)
    }
  }

  /** The statics as the library is loaded. No process has pid 0. */
  const INITIAL := Statics(1, None, 0)

  /** What a build of a pool of `n` threads by `self` gives. */
  function Built(self: Pid, n: nat): Option<Pool> {
    if n > 1 then Some(Pool(self, n)) else None
  }

  // --- One process ---

  /** The statics of the running process and the pools it has dropped. */
  class Process {
    const pid: Pid
    var statics: Statics
    ghost var dropped: seq<Pool>

    constructor (pid: Pid, statics: Statics)
      ensures this.pid == pid && this.statics == statics && dropped == []
    {
      this.pid := pid;
      this.statics := statics;
      dropped := [];
    }

    /** A pool still held is this process's own once it has been stamped. */
    ghost predicate Valid()
      reads this
    {
      OwnPoolStamped(statics, pid)
    }

    /** `buildFails` is the builder's error, if any. A failed build changes
        nothing; otherwise the old pool is replaced, and dropped only if this
        process built it. */
    method SetNumThreads(n: nat, buildFails: bool) returns (out: Result<()>)
      requires Valid()
      modifies this
      ensures Valid()
      ensures out.Failure? <==> n > 1 && buildFails
      ensures out.Failure? ==> statics == old(statics) && dropped == old(dropped)
      ensures out.Success? ==> statics == Statics(n, Built(pid, n), pid)
      ensures out.Success? ==>
                dropped == old(dropped)
                           + (if old(statics).pool.Some? && old(statics).InPoolProcess(pid) then [old(statics).pool.value] else [])
      ensures forall p :: p in dropped && p !in old(dropped) ==> p.builder == pid
      ensures out.Success? ==> statics.GetNumThreads(pid) == n && statics.PoolForCall(pid) == Built(pid, n)
    {
      var newPool: Option<Pool> := None;
      if n > 1 {
        if buildFails {
          return Failure("failed to build a thread pool");
        }
        newPool := Some(Pool(pid, n));
      }
      var inherited := !statics.InPoolProcess(pid);
      var old_ := statics.pool;
      statics := statics.Swapped(newPool);
      if !inherited && old_.Some? {
        dropped := dropped + [old_.value];
      }
      statics := statics.Stamped(pid);
      statics := statics.Counted(n);
      return Success(());
    }
  }

  // --- Every process, in every interleaving ---

  /** How far a process's change of the count has got. */
  datatype Setting = Idle | AfterSwap(n: nat) | AfterStamp(n: nat)

  /** A process: its statics, its change of the count in progress, and the
      parallel calls that have passed the process check but not yet read the
      pool. */
  datatype Proc = Proc(statics: Statics, setting: Setting, passed: nat)

  /** A call installed on a pool, or a pool dropped, in a process. */
  datatype Event = Installed(process: Pid, pool: Pool) | Dropped(process: Pid, pool: Pool)

  /** All live processes, every pid used so far, and what has happened. */
  datatype World = World(procs: map<Pid, Proc>, used: set<Pid>, events: seq<Event>)

  datatype Step =
    | Fork(parent: Pid, child: Pid)
    | Exit(pid: Pid)
    | FailSet(pid: Pid, n: nat)
    | Swap(pid: Pid, n: nat)
    | Stamp(pid: Pid)
    | Count(pid: Pid)
    | CheckCall(pid: Pid)
    | ReadPool(pid: Pid)

  /** A step can be taken: the process is live, and a change of the count goes
      through its writes in order, one change at a time. A fork gets a pid no
      process has used before. */
  predicate Enabled(w: World, s: Step) {
    match s
    case Fork(parent, child) => parent in w.procs && child !in w.used
    case Exit(pid) => pid in w.procs
    case FailSet(pid, n) => pid in w.procs && w.procs[pid].setting.Idle? && n > 1
    case Swap(pid, n) => pid in w.procs && w.procs[pid].setting.Idle? && n >= 1
    case Stamp(pid) => pid in w.procs && w.procs[pid].setting.AfterSwap?
    case Count(pid) => pid in w.procs && w.procs[pid].setting.AfterStamp?
    case CheckCall(pid) => pid in w.procs
    case ReadPool(pid) => pid in w.procs && w.procs[pid].passed > 0
  }

  function OldPool(s: Statics, pid: Pid): seq<Event> {
    if s.InPoolProcess(pid) && s.pool.Some? then [Dropped(pid, s.pool.value)] else []
  }

  function Install(s: Statics, pid: Pid): seq<Event> {
    if s.pool.Some? then [Installed(pid, s.pool.value)] else []
  }

  /** A fork copies the statics as they stand, but only the forking thread: no
      change of the count or call is under way in the child. */
  function Next(w: World, s: Step): World
    requires Enabled(w, s)
  {
    match s
    case Fork(parent, child) =>
      World(w.procs[child := Proc(w.procs[parent].statics, Idle, 0)], w.used + {child}, w.events)
    case Exit(pid) => w.(procs := w.procs - {pid})
    case FailSet(pid, n) => w
    case Swap(pid, n) =>
      var p := w.procs[pid];
      w.(procs := w.procs[pid := p.(statics := p.statics.Swapped(Built(pid, n)), setting := AfterSwap(n))],
         events := w.events + OldPool(p.statics, pid))
    case Stamp(pid) =>
      var p := w.procs[pid];
      w.(procs := w.procs[pid := p.(statics := p.statics.Stamped(pid), setting := AfterStamp(p.setting.n))])
    case Count(pid) =>
      var p := w.procs[pid];
      w.(procs := w.procs[pid := p.(statics := p.statics.Counted(p.setting.n), setting := Idle)])
    case CheckCall(pid) =>
      var p := w.procs[pid];
      if p.statics.InPoolProcess(pid) then w.(procs := w.procs[pid := p.(passed := p.passed + 1)]) else w
    case ReadPool(pid) =>
      var p := w.procs[pid];
      w.(procs := w.procs[pid := p.(passed := p.passed - 1)], events := w.events + Install(p.statics, pid))
  }

  /** A single process with the library just loaded. */
  predicate Starts(w: World) {
    exists pid :: pid in w.procs && pid > 0
      && w == World(map[pid := Proc(INITIAL, Idle, 0)], {0, pid}, [])
  }

  /** A pool stamped as this process's own was built by it. */
  predicate OwnPoolStamped(s: Statics, pid: Pid) {
    s.InPoolProcess(pid) && s.pool.Some? ==> s.pool.value.builder == pid
  }

  /** The count agrees with the pool when no change is under way. */
  predicate CountAgrees(p: Proc, pid: Pid) {
    p.statics.InPoolProcess(pid) ==>
      match p.setting
      case Idle => p.statics.pool == Built(pid, p.statics.numThreads)
      case AfterSwap(n) => p.statics.pool == Built(pid, n)
      case AfterStamp(n) => p.statics.pool == Built(pid, n)
  }

  ghost predicate ProcInv(p: Proc, pid: Pid, used: set<Pid>) {
    && pid in used
    && p.statics.poolPid in used
    && p.statics.numThreads >= 1 && (!p.setting.Idle? ==> p.setting.n >= 1)
    && OwnPoolStamped(p.statics, pid)
    && CountAgrees(p, pid)
    && (p.passed > 0 ==> p.statics.InPoolProcess(pid))
    && (p.setting.AfterSwap? ==> p.statics.pool == Built(pid, p.setting.n))
    && (p.setting.AfterStamp? ==> p.statics.InPoolProcess(pid))
  }

  /** Every pool was installed on, or dropped, only by the process that built
      it. */
  ghost predicate EventsOwn(events: seq<Event>) {
    forall i :: 0 <= i < |events| ==> events[i].pool.builder == events[i].process
  }

  ghost predicate Inv(w: World) {
    && (forall pid :: pid in w.procs ==> ProcInv(w.procs[pid], pid, w.used))
    && EventsOwn(w.events)
  }

  lemma StartsInv(w: World)
    requires Starts(w)
    ensures Inv(w)
  {
  }

  lemma NextKeepsInv(w: World, s: Step)
    requires Inv(w) && Enabled(w, s)
    ensures Inv(Next(w, s))
  {
  }

  /** A run: each step enabled where it is taken. */
  ghost predicate Runs(w: World, steps: seq<Step>)
    decreases |steps|
  {
    steps == [] || (Enabled(w, steps[0]) && Runs(Next(w, steps[0]), steps[1..]))
  }

  ghost function After(w: World, steps: seq<Step>): World
    requires Runs(w, steps)
    decreases |steps|
  {
    if steps == [] then w else After(Next(w, steps[0]), steps[1..])
  }

  lemma {:induction false} RunKeepsInv(w: World, steps: seq<Step>)
    requires Inv(w) && Runs(w, steps)
    ensures Inv(After(w, steps))
    decreases |steps|
  {
    if steps != [] {
      NextKeepsInv(w, steps[0]);
      RunKeepsInv(Next(w, steps[0]), steps[1..]);
    }
  }

  /** Over every interleaving of forks, exits, changes of the count and parallel
      calls, work is installed only on a pool its own process built, and only
      such pools are dropped. */
  lemma EveryRunIsSafe(w: World, steps: seq<Step>)
    requires Starts(w) && Runs(w, steps)
    ensures EventsOwn(After(w, steps).events)
  {
    StartsInv(w);
    RunKeepsInv(w, steps);
  }

  /** A count above one comes with a pool to run on. */
  predicate CountIsBacked(p: Proc, pid: Pid) {
    p.statics.GetNumThreads(pid) > 1 ==> p.statics.PoolForCall(pid).Some?
  }

  /** A change to one thread has taken the process's pool away and has not yet
      lowered the count. */
  predicate PoolGoneFirst(p: Proc, pid: Pid) {
    !p.setting.Idle? && p.setting.n == 1 && p.statics.numThreads > 1 && p.statics.InPoolProcess(pid)
  }

  /** In every run, in every process, the count is backed by a pool except
      exactly in that window. */
  lemma CountBackedExactly(w: World, steps: seq<Step>, pid: Pid)
    requires Starts(w) && Runs(w, steps) && pid in After(w, steps).procs
    ensures var p := After(w, steps).procs[pid];
            CountIsBacked(p, pid) <==> !PoolGoneFirst(p, pid)
  {
    StartsInv(w);
    RunKeepsInv(w, steps);
  }

  /** A count above one comes with a pool of that many threads, this process's
      own. */
  predicate CountIsExact(p: Proc, pid: Pid) {
    p.statics.GetNumThreads(pid) > 1 ==>
      p.statics.PoolForCall(pid) == Some(Pool(pid, p.statics.GetNumThreads(pid)))
  }

  /** A change to another count has put its pool in place, or taken the old one
      away, and not yet stored the count. */
  predicate CountBehind(p: Proc, pid: Pid) {
    !p.setting.Idle? && p.setting.n != p.statics.numThreads && p.statics.numThreads > 1 && p.statics.InPoolProcess(pid)
  }

  lemma CountExactly(w: World, steps: seq<Step>, pid: Pid)
    requires Starts(w) && Runs(w, steps) && pid in After(w, steps).procs
    ensures var p := After(w, steps).procs[pid];
            && (CountIsExact(p, pid) <==> !CountBehind(p, pid))
            && (p.setting.Idle? ==> CountIsExact(p, pid))
  {
    StartsInv(w);
    RunKeepsInv(w, steps);
  }

  /** What a run leaves. */
  ghost predicate Leaves(w: World, steps: seq<Step>, end: World) {
    Runs(w, steps) && After(w, steps) == end
  }

  lemma Then(w: World, steps: seq<Step>, k: nat, next: World, end: World)
    requires k < |steps| && Enabled(w, steps[k]) && Next(w, steps[k]) == next && Leaves(next, steps[k + 1..], end)
    ensures Leaves(w, steps[k..], end)
  {
    assert steps[k..][1..] == steps[k + 1..];
  }

  /** The window is reached: four threads set, then a change to one begun. The
      count still says four, and a parallel call runs directly. */
  lemma CountLagsDuringChange(w: World)
    requires w == World(map[1 := Proc(INITIAL, Idle, 0)], {0, 1}, [])
    ensures var steps := [Swap(1, 4), Stamp(1), Count(1), Swap(1, 1)];
            && Starts(w) && Runs(w, steps)
            && 1 in After(w, steps).procs
            && PoolGoneFirst(After(w, steps).procs[1], 1)
            && After(w, steps).procs[1].statics.GetNumThreads(1) == 4
            && After(w, steps).procs[1].statics.PoolForCall(1).None?
  {
    assert 1 in w.procs;
    var steps := [Swap(1, 4), Stamp(1), Count(1), Swap(1, 1)];
    var w1 := Next(w, Swap(1, 4));
    var w2 := Next(w1, Stamp(1));
    var w3 := Next(w2, Count(1));
    var end := Next(w3, Swap(1, 1));
    Then(w3, steps, 3, end, end);
    Then(w2, steps, 2, w3, end);
    Then(w1, steps, 1, w2, end);
    Then(w, steps, 0, w1, end);
    assert steps[0..] == steps;
  }

  // --- A forked child ---

  /** A process that has no pool of its own and no change under way; or one that
      has ended, whose pid is not used again. */
  ghost predicate RunsAlone(w: World, child: Pid) {
    && child in w.used
    && (child in w.procs ==> w.procs[child].setting.Idle? && !w.procs[child].statics.InPoolProcess(child))
  }

  /** However the world goes on after a fork, until the child sets a count itself
      it reports one thread and runs its calls directly. */
  lemma ForkedChildRunsAlone(w: World, steps: seq<Step>, parent: Pid, child: Pid, more: seq<Step>)
    requires Starts(w) && Runs(w, steps) && Enabled(After(w, steps), Fork(parent, child))
    requires Runs(Next(After(w, steps), Fork(parent, child)), more)
    requires forall s :: s in more ==> !(s.Swap? && s.pid == child)
    ensures var later := After(Next(After(w, steps), Fork(parent, child)), more);
            child in later.procs ==>
              && later.procs[child].statics.GetNumThreads(child) == 1
              && later.procs[child].statics.PoolForCall(child).None?
  {
    StartsInv(w);
    RunKeepsInv(w, steps);
    var now := After(w, steps);
    assert parent in now.procs;
    NextKeepsInv(now, Fork(parent, child));
    StaysAlone(Next(now, Fork(parent, child)), more, child);
  }

  lemma {:induction false} StaysAlone(w: World, steps: seq<Step>, child: Pid)
    requires Inv(w) && RunsAlone(w, child) && Runs(w, steps)
    requires forall s :: s in steps ==> !(s.Swap? && s.pid == child)
    ensures Inv(After(w, steps)) && RunsAlone(After(w, steps), child)
    decreases |steps|
  {
    if steps != [] {
      assert steps[0] in steps;
      NextKeepsInv(w, steps[0]);
      StaysAlone(Next(w, steps[0]), steps[1..], child);
    }
  }

  /** A fork leaves the child with its parent's statics as they stood, the pool
      among them. It keeps them until it sets a count, and then drops nothing:
      the pool was not its own. */
  lemma ForkedChildKeepsCopy(w: World, steps: seq<Step>, parent: Pid, child: Pid, more: seq<Step>, n: nat)
    requires Starts(w) && Runs(w, steps) && Enabled(After(w, steps), Fork(parent, child))
    requires Runs(Next(After(w, steps), Fork(parent, child)), more)
    requires forall s :: s in more ==> !(s.Swap? && s.pid == child) && s != Exit(child)
    requires n >= 1
    ensures var now, later := After(w, steps), After(Next(After(w, steps), Fork(parent, child)), more);
            && child in later.procs && later.procs[child].statics == now.procs[parent].statics
            && Enabled(later, Swap(child, n)) && Next(later, Swap(child, n)).events == later.events
  {
    StartsInv(w);
    RunKeepsInv(w, steps);
    var now := After(w, steps);
    NextKeepsInv(now, Fork(parent, child));
    StaysCopied(Next(now, Fork(parent, child)), more, child, now.procs[parent].statics);
  }

  lemma {:induction false} StaysCopied(w: World, steps: seq<Step>, child: Pid, s: Statics)
    requires Inv(w) && RunsAlone(w, child) && Runs(w, steps) && child in w.procs && w.procs[child].statics == s
    requires forall s :: s in steps ==> !(s.Swap? && s.pid == child) && s != Exit(child)
    ensures RunsAlone(After(w, steps), child)
    ensures child in After(w, steps).procs && After(w, steps).procs[child].statics == s
    decreases |steps|
  {
    if steps != [] {
      assert steps[0] in steps;
      NextKeepsInv(w, steps[0]);
      StaysCopied(Next(w, steps[0]), steps[1..], child, s);
    }
  }

  // --- A change of the count ---

  /** A change to `n` threads is under way in `pid`, or is the last one done. */
  ghost predicate ChangingTo(w: World, pid: Pid, n: nat) {
    && pid in w.procs
    && var p := w.procs[pid];
       match p.setting
       case Idle => p.statics == Statics(n, Built(pid, n), pid)
       case AfterSwap(m) => m == n && p.statics.pool == Built(pid, n)
       case AfterStamp(m) => m == n && p.statics.pool == Built(pid, n) && p.statics.poolPid == pid
  }

  /** Whatever other processes do, and whatever calls and forks this one makes,
      in between: unless the process ends or starts another change, once its
      change is done the count reported and the pool used are as asked. Its
      next write is always possible. */
  lemma ChangeTakesEffect(w: World, pid: Pid, n: nat, steps: seq<Step>)
    requires Inv(w) && Enabled(w, Swap(pid, n)) && Runs(Next(w, Swap(pid, n)), steps)
    requires forall s :: s in steps ==> s != Exit(pid) && !(s.Swap? && s.pid == pid)
    ensures var later := After(Next(w, Swap(pid, n)), steps);
            && pid in later.procs
            && var p := later.procs[pid];
               match p.setting
               case Idle => p.statics.GetNumThreads(pid) == n && p.statics.PoolForCall(pid) == Built(pid, n)
               case AfterSwap(_) => Enabled(later, Stamp(pid))
               case AfterStamp(_) => Enabled(later, Count(pid))
  {
    NextKeepsInv(w, Swap(pid, n));
    KeepsChanging(Next(w, Swap(pid, n)), pid, n, steps);
  }

  lemma {:induction false} KeepsChanging(w: World, pid: Pid, n: nat, steps: seq<Step>)
    requires Inv(w) && ChangingTo(w, pid, n) && Runs(w, steps)
    requires forall s :: s in steps ==> s != Exit(pid) && !(s.Swap? && s.pid == pid)
    ensures ChangingTo(After(w, steps), pid, n)
    decreases |steps|
  {
    if steps != [] {
      assert steps[0] in steps;
      NextKeepsInv(w, steps[0]);
      KeepsChanging(Next(w, steps[0]), pid, n, steps[1..]);
    }
  }

  // --- What is installed on, and what is dropped ---

  function AnyPool(pool: Option<Pool>): seq<Pool> {
    if pool.Some? then [pool.value] else []
  }

  /** The pools a process's calls were installed on, in order. */
  function InstallsOf(events: seq<Event>, pid: Pid): seq<Pool> {
    if events == [] then []
    else
      var e := events[|events| - 1];
      InstallsOf(events[..|events| - 1], pid) + if e.Installed? && e.process == pid then [e.pool] else []
  }

  /** The pools a process dropped, in order. */
  function DropsOf(events: seq<Event>, pid: Pid): seq<Pool> {
    if events == [] then []
    else
      var e := events[|events| - 1];
      DropsOf(events[..|events| - 1], pid) + if e.Dropped? && e.process == pid then [e.pool] else []
  }

  lemma OneMoreEvent(events: seq<Event>, e: Event, pid: Pid)
    ensures InstallsOf(events + [e], pid) == InstallsOf(events, pid) + if e.Installed? && e.process == pid then [e.pool] else []
    ensures DropsOf(events + [e], pid) == DropsOf(events, pid) + if e.Dropped? && e.process == pid then [e.pool] else []
  {
    assert (events + [e])[..|events|] == events;
  }

  /** The process neither ends nor changes its count, and no call of its own
      reads the pool. */
  ghost predicate LeavesAlone(steps: seq<Step>, pid: Pid) {
    forall s :: s in steps ==>
      s != Exit(pid) && s != Stamp(pid) && s != Count(pid) && s != ReadPool(pid) && !(s.Swap? && s.pid == pid)
  }

  lemma {:induction false} StaysAsItIs(w: World, steps: seq<Step>, pid: Pid)
    requires Inv(w) && pid in w.procs && Runs(w, steps) && LeavesAlone(steps, pid)
    ensures pid in After(w, steps).procs
    ensures After(w, steps).procs[pid].statics == w.procs[pid].statics
    ensures After(w, steps).procs[pid].passed >= w.procs[pid].passed
    ensures w.procs[pid].passed == 0 && !w.procs[pid].statics.InPoolProcess(pid) ==> After(w, steps).procs[pid].passed == 0
    ensures InstallsOf(After(w, steps).events, pid) == InstallsOf(w.events, pid)
    decreases |steps|
  {
    if steps != [] {
      assert steps[0] in steps;
      NextKeepsInv(w, steps[0]);
      StepLeavesAlone(w, steps[0], pid);
      StaysAsItIs(Next(w, steps[0]), steps[1..], pid);
    }
  }

  lemma StepLeavesAlone(w: World, s: Step, pid: Pid)
    requires Inv(w) && pid in w.procs && Enabled(w, s) && LeavesAlone([s], pid)
    ensures pid in Next(w, s).procs && Next(w, s).procs[pid].statics == w.procs[pid].statics
    ensures Next(w, s).procs[pid].passed >= w.procs[pid].passed
    ensures !w.procs[pid].statics.InPoolProcess(pid) ==> Next(w, s).procs[pid].passed == w.procs[pid].passed
    ensures InstallsOf(Next(w, s).events, pid) == InstallsOf(w.events, pid)
  {
    assert s in [s];
    StepInstalls(w, s, pid);
  }

  /** Only a process's own call reading the pool installs on it. */
  lemma StepInstalls(w: World, s: Step, pid: Pid)
    requires Enabled(w, s) && s != ReadPool(pid)
    ensures InstallsOf(Next(w, s).events, pid) == InstallsOf(w.events, pid)
  {
    var later := Next(w, s).events;
    if later != w.events {
      assert |later| == |w.events| + 1 && later == w.events + [later[|w.events|]];
      OneMoreEvent(w.events, later[|w.events|], pid);
    }
    assert w.events + [] == w.events;
  }

  /** A call that has passed the process check is installed exactly once, on the
      pool the process had, or on none; one that has not passed runs directly.
      Other processes and other calls may step in between. */
  lemma CallInstallsOnce(w: World, pid: Pid, between: seq<Step>)
    requires Inv(w) && Enabled(w, CheckCall(pid))
    requires Runs(Next(w, CheckCall(pid)), between) && LeavesAlone(between, pid)
    ensures var s, later := w.procs[pid].statics, After(Next(w, CheckCall(pid)), between);
            && InstallsOf(later.events, pid) == InstallsOf(w.events, pid)
            && (Enabled(later, ReadPool(pid)) <==> s.poolPid == pid)
            && (Enabled(later, ReadPool(pid)) ==>
                  InstallsOf(Next(later, ReadPool(pid)).events, pid)
                  == InstallsOf(w.events, pid) + AnyPool(s.PoolForCall(pid)))
            && (s.poolPid != pid ==> s.PoolForCall(pid).None?)
  {
    var checked := Next(w, CheckCall(pid));
    NextKeepsInv(w, CheckCall(pid));
    StaysAsItIs(checked, between, pid);
    var later := After(checked, between);
    if Enabled(later, ReadPool(pid)) {
      ReadInstalls(later, pid);
    }
  }

  lemma ReadInstalls(w: World, pid: Pid)
    requires Enabled(w, ReadPool(pid))
    ensures InstallsOf(Next(w, ReadPool(pid)).events, pid)
         == InstallsOf(w.events, pid) + AnyPool(w.procs[pid].statics.pool)
  {
    match w.procs[pid].statics.pool
    case Some(p) =>
      OneMoreEvent(w.events, Installed(pid, p), pid);
    case None =>
      assert w.events + [] == w.events;
  }

  /** So once a change to `n` threads is done, each call runs on a pool of `n`
      threads of the process's own, or directly for one thread. */
  lemma CallAfterChange(w: World, pid: Pid, n: nat, steps: seq<Step>, between: seq<Step>)
    requires Inv(w) && Enabled(w, Swap(pid, n)) && Runs(Next(w, Swap(pid, n)), steps)
    requires forall s :: s in steps ==> s != Exit(pid) && !(s.Swap? && s.pid == pid)
    requires pid in After(Next(w, Swap(pid, n)), steps).procs
    requires After(Next(w, Swap(pid, n)), steps).procs[pid].setting.Idle?
    requires Runs(Next(After(Next(w, Swap(pid, n)), steps), CheckCall(pid)), between) && LeavesAlone(between, pid)
    ensures var now := After(Next(w, Swap(pid, n)), steps);
            var later := After(Next(now, CheckCall(pid)), between);
            && Enabled(later, ReadPool(pid))
            && InstallsOf(Next(later, ReadPool(pid)).events, pid)
               == InstallsOf(now.events, pid) + if n > 1 then [Pool(pid, n)] else []
  {
    NextKeepsInv(w, Swap(pid, n));
    RunKeepsInv(Next(w, Swap(pid, n)), steps);
    KeepsChanging(Next(w, Swap(pid, n)), pid, n, steps);
    CallInstallsOnce(After(Next(w, Swap(pid, n)), steps), pid, between);
  }

  /** The pools a process's changes of the count built, in order. */
  function BuiltBy(steps: seq<Step>, pid: Pid): seq<Pool> {
    if steps == [] then [] else BuildOf(steps[0], pid) + BuiltBy(steps[1..], pid)
  }

  function BuildOf(s: Step, pid: Pid): seq<Pool> {
    if s.Swap? && s.pid == pid && s.n > 1 then [Pool(pid, s.n)] else []
  }

  /** The pool a process holds that it built itself; one copied by a fork is not
      its own. */
  function OwnPool(p: Proc, pid: Pid): seq<Pool> {
    if p.statics.poolPid == pid || p.setting.AfterSwap? then AnyPool(p.statics.pool) else []
  }

  /** Every pool built has been dropped, oldest first, but the one still held;
      an ended process may have kept its last. */
  ghost predicate Accounted(w: World, pid: Pid, built: seq<Pool>) {
    && (pid in w.procs ==> built == DropsOf(w.events, pid) + OwnPool(w.procs[pid], pid))
    && DropsOf(w.events, pid) <= built && |built| <= |DropsOf(w.events, pid)| + 1
    && (pid !in w.used ==> built == [])
  }

  lemma NextAccounted(w: World, s: Step, pid: Pid, built: seq<Pool>)
    requires Inv(w) && Enabled(w, s) && Accounted(w, pid, built)
    ensures Accounted(Next(w, s), pid, built + BuildOf(s, pid))
  {
    StepDrops(w, s, pid);
    StepUses(w, s, pid);
    if pid in w.procs && pid in Next(w, s).procs {
      StepOwns(w, s, pid);
    } else {
      assert BuildOf(s, pid) == [] && built + [] == built;
    }
  }

  lemma StepUses(w: World, s: Step, pid: Pid)
    requires Inv(w) && Enabled(w, s)
    ensures w.used <= Next(w, s).used
    ensures pid in w.procs ==> pid in w.used
    ensures pid in w.procs ==> (pid !in Next(w, s).procs <==> s == Exit(pid))
    ensures pid !in w.procs && pid in Next(w, s).procs ==> pid !in w.used && OwnPool(Next(w, s).procs[pid], pid) == []
  {
  }

  lemma StepOwns(w: World, s: Step, pid: Pid)
    requires Inv(w) && Enabled(w, s) && pid in w.procs && pid in Next(w, s).procs
    ensures s.Swap? && s.pid == pid ==>
              && OwnPool(w.procs[pid], pid) == AnyPool(w.procs[pid].statics.PoolForCall(pid))
              && OwnPool(Next(w, s).procs[pid], pid) == BuildOf(s, pid)
    ensures !(s.Swap? && s.pid == pid) ==> OwnPool(Next(w, s).procs[pid], pid) == OwnPool(w.procs[pid], pid) && BuildOf(s, pid) == []
  {
    assert ProcInv(w.procs[pid], pid, w.used);
  }

  /** Only a process's own swap drops its pool. */
  lemma StepDrops(w: World, s: Step, pid: Pid)
    requires Enabled(w, s)
    ensures DropsOf(Next(w, s).events, pid)
         == DropsOf(w.events, pid)
            + if s.Swap? && s.pid == pid then AnyPool(w.procs[pid].statics.PoolForCall(pid)) else []
  {
    var later := Next(w, s).events;
    if later != w.events {
      assert |later| == |w.events| + 1 && later == w.events + [later[|w.events|]];
      OneMoreEvent(w.events, later[|w.events|], pid);
    }
    assert w.events + [] == w.events;
  }

  lemma {:induction false} RunAccounted(w: World, steps: seq<Step>, pid: Pid, built: seq<Pool>, all: seq<Pool>)
    requires Inv(w) && Runs(w, steps) && Accounted(w, pid, built) && all == built + BuiltBy(steps, pid)
    ensures Accounted(After(w, steps), pid, all)
    decreases |steps|
  {
    if steps == [] {
      assert all == built;
    } else {
      NextKeepsInv(w, steps[0]);
      NextAccounted(w, steps[0], pid, built);
      BuildFirst(steps, pid, built);
      RunAccounted(Next(w, steps[0]), steps[1..], pid, built + BuildOf(steps[0], pid), all);
    }
  }

  lemma BuildFirst(steps: seq<Step>, pid: Pid, built: seq<Pool>)
    requires steps != []
    ensures built + BuiltBy(steps, pid) == built + BuildOf(steps[0], pid) + BuiltBy(steps[1..], pid)
  {
  }

  /** Over every run, a process drops exactly the pools it built, each once and
      oldest first, save the one it still holds. */
  lemma EveryPoolAccounted(w: World, steps: seq<Step>, pid: Pid)
    requires Starts(w) && Runs(w, steps)
    ensures var now := After(w, steps);
            && DropsOf(now.events, pid) <= BuiltBy(steps, pid)
            && |BuiltBy(steps, pid)| <= |DropsOf(now.events, pid)| + 1
            && (pid in now.procs ==> BuiltBy(steps, pid) == DropsOf(now.events, pid) + OwnPool(now.procs[pid], pid))
  {
    StartsInv(w);
    RunAccounted(w, steps, pid, [], BuiltBy(steps, pid));
  }

  /** One run in full: four threads are set, a fork is made while a call is under
      way, the call is installed on the pool of four, the child changes to three
      and drops nothing, and the parent ends. */
  lemma ForkDuringCall()
    ensures Leaves(World(map[1 := Proc(INITIAL, Idle, 0)], {0, 1}, []),
                   [Swap(1, 4), Stamp(1), Count(1), CheckCall(1), Fork(1, 2), ReadPool(1), Swap(2, 3), Exit(1)],
                   World(map[2 := Proc(Statics(4, Some(Pool(2, 3)), 1), AfterSwap(3), 0)], {0, 1, 2},
                         [Installed(1, Pool(1, 4))]))
  {
    var steps := [Swap(1, 4), Stamp(1), Count(1), CheckCall(1), Fork(1, 2), ReadPool(1), Swap(2, 3), Exit(1)];
    var pool, event := Some(Pool(1, 4)), Installed(1, Pool(1, 4));
    var child := Proc(Statics(4, pool, 1), Idle, 0);
    var changing := Proc(Statics(4, Some(Pool(2, 3)), 1), AfterSwap(3), 0);
    var w0 := World(map[1 := Proc(INITIAL, Idle, 0)], {0, 1}, []);
    var w1 := World(map[1 := Proc(Statics(1, pool, 0), AfterSwap(4), 0)], {0, 1}, []);
    var w2 := World(map[1 := Proc(Statics(1, pool, 1), AfterStamp(4), 0)], {0, 1}, []);
    var w3 := World(map[1 := Proc(Statics(4, pool, 1), Idle, 0)], {0, 1}, []);
    var w4 := World(map[1 := Proc(Statics(4, pool, 1), Idle, 1)], {0, 1}, []);
    var w5 := World(map[1 := Proc(Statics(4, pool, 1), Idle, 1), 2 := child], {0, 1, 2}, []);
    var w6 := World(map[1 := Proc(Statics(4, pool, 1), Idle, 0), 2 := child], {0, 1, 2}, [event]);
    var w7 := World(map[1 := Proc(Statics(4, pool, 1), Idle, 0), 2 := changing], {0, 1, 2}, [event]);
    var end := World(map[2 := changing], {0, 1, 2}, [event]);
    Then(w7, steps, 7, end, end);
    Then(w6, steps, 6, w7, end);
    Then(w5, steps, 5, w6, end);
    Then(w4, steps, 4, w5, end);
    Then(w3, steps, 3, w4, end);
    Then(w2, steps, 2, w3, end);
    Then(w1, steps, 1, w2, end);
    Then(w0, steps, 0, w1, end);
    assert steps[0..] == steps;
  }
}
