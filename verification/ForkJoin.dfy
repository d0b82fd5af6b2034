/** The parallel bitonic sort of Lab 2 as a state machine. A Task is what is left of a call; a step is
    one compare-and-swap, one locked test of the thread budget, one join or one locked release. Any
    unfinished task of a parallel pair may take the next step. */
module ForkJoin {
  import opened Comparators
  import opened Bitonic

  datatype Task =
    | Done
    | Sort(low: nat, cnt: nat, dir: int)
    | Merge(low: nat, cnt: nat, dir: int)
    | Clean(low: nat, k: nat, i: nat, dir: int)            // the loop of bitonicMerge at index i
    | Recurse(low: nat, k: nat, dir: int)                  // bitonicMerge after its loop
    | Then(first: Task, next: Task)                        // next starts when first has returned
    | Both(left: Task, right: Task, mid: nat, forks: nat)  // forks threads spawned and not yet joined
    | Release(permits: nat)                                // joined, permits still to be given back

  datatype Config = Config(task: Task, arr: seq<int>, active: int)

  // ----- steps

  /** The two recursive calls of a frame, in parallel if the budget test grants its permits. */
  function Spawn(left: Task, right: Task, mid: nat, forks: nat, granted: bool): Task {
    if granted then Both(left, right, mid, forks) else Then(left, right)
  }

  ghost predicate Step(max: int, c: Config, d: Config)
    decreases c.task
  {
    match c.task
    case Done => false
    case Sort(low, cnt, dir) =>
      if cnt <= 1 then d == c.(task := Done) else
        var k := cnt / 2;
        var granted := c.active + 2 <= max;
        d == Config(Then(Spawn(Sort(low, k, 1), Sort(low + k, k, 0), low + k, 2, granted), Merge(low, cnt, dir)),
                    c.arr, if granted then c.active + 2 else c.active)
    case Merge(low, cnt, dir) =>
      d == c.(task := if cnt <= 1 then Done else Then(Clean(low, cnt / 2, low, dir), Recurse(low, cnt / 2, dir)))
    case Clean(low, k, i, dir) =>
      if i < low + k then
        i + k < |c.arr| &&
        d == c.(task := Clean(low, k, i + 1, dir), arr := CompareSwap(c.arr, Comparator(i, i + k, dir)))
      else d == c.(task := Done)
    case Recurse(low, k, dir) =>
      var granted := k >= 1024 && c.active + 1 <= max;
      d == Config(Spawn(Merge(low, k, dir), Merge(low + k, k, dir), low + k, 1, granted),
                  c.arr, if granted then c.active + 1 else c.active)
    case Then(first, next) =>
      if first.Done? then d == c.(task := next) else
        d.task.Then? && d.task.next == next && Step(max, c.(task := first), d.(task := d.task.first))
    case Both(left, right, mid, forks) =>
      if left.Done? && right.Done? then d == c.(task := Release(forks)) else
        && d.task.Both? && d.task.mid == mid && d.task.forks == forks
        && ((d.task.right == right && Step(max, c.(task := left), d.(task := d.task.left))) ||
            (d.task.left == left && Step(max, c.(task := right), d.(task := d.task.right))))
    case Release(permits) => d == Config(Done, c.arr, c.active - permits)
  }

  /** A schedule: each configuration steps to the next one. */
  ghost predicate Run(max: int, run: seq<Config>) {
    forall x :: 0 < x < |run| ==> Step(max, run[x - 1], run[x])
  }

  ghost predicate Stuck(max: int, c: Config) {
    forall d :: !Step(max, c, d)
  }

  // ----- ownership of index ranges

  /** The tasks work inside [lo, hi), and the two sides of every parallel pair own disjoint parts. */
  ghost predicate Owns(t: Task, lo: int, hi: int) {
    match t
    case Done => true
    case Sort(low, cnt, _) => lo <= low && low + cnt <= hi
    case Merge(low, cnt, _) => lo <= low && low + cnt <= hi
    case Clean(low, k, i, _) => lo <= low <= i <= low + k && low + 2 * k <= hi
    case Recurse(low, k, _) => lo <= low && low + 2 * k <= hi
    case Then(first, next) => Owns(first, lo, hi) && Owns(next, lo, hi)
    case Both(left, right, mid, _) => lo <= mid <= hi && Owns(left, lo, mid) && Owns(right, mid, hi)
    case Release(_) => true
  }

  /** What a task still has to compare, in the order of the sequential recursion. */
  function Remaining(t: Task): seq<Comparator> {
    match t
    case Done => []
    case Sort(low, cnt, dir) => SortNet(low, cnt, dir)
    case Merge(low, cnt, dir) => MergeNet(low, cnt, dir)
    case Clean(low, k, i, dir) => if low <= i <= low + k then CleanNet(low, k, i, dir) else []
    case Recurse(low, k, dir) => MergeNet(low, k, dir) + MergeNet(low + k, k, dir)
    case Then(first, next) => Remaining(first) + Remaining(next)
    case Both(left, right, _, _) => Remaining(left) + Remaining(right)
    case Release(_) => []
  }

  lemma {:induction false} RemainingWithin(t: Task, lo: nat, hi: nat)
    requires Owns(t, lo, hi)
    ensures Within(Remaining(t), lo, hi)
  {
    match t
    case Then(first, next) =>
      RemainingWithin(first, lo, hi);
      RemainingWithin(next, lo, hi);
    case Both(left, right, mid, _) =>
      RemainingWithin(left, lo, mid);
      RemainingWithin(right, mid, hi);
    case _ =>
  }

  /** The comparisons that some thread may perform as its next step. */
  function Ready(t: Task): seq<Comparator> {
    match t
    case Clean(low, k, i, dir) => if i < low + k then [Comparator(i, i + k, dir)] else []
    case Then(first, _) => Ready(first)
    case Both(left, right, _, _) => Ready(left) + Ready(right)
    case _ => []
  }

  ghost predicate Disjoint(c: Comparator, d: Comparator) {
    c.i != d.i && c.i != d.j && c.j != d.i && c.j != d.j
  }

  /** No two threads are about to touch the same array element. */
  ghost predicate NoRace(t: Task) {
    forall x, y :: 0 <= x < y < |Ready(t)| ==> Disjoint(Ready(t)[x], Ready(t)[y])
  }

  lemma {:induction false} RaceFree(t: Task, lo: nat, hi: nat)
    requires Owns(t, lo, hi)
    ensures Within(Ready(t), lo, hi) && NoRace(t)
  {
    match t
    case Then(first, _) => RaceFree(first, lo, hi);
    case Both(left, right, mid, _) =>
      RaceFree(left, lo, mid);
      RaceFree(right, mid, hi);
    case _ =>
  }

  lemma {:induction false} StepKeepsOwnership(max: int, c: Config, d: Config, lo: nat, hi: nat)
    requires Step(max, c, d) && Owns(c.task, lo, hi)
    ensures Owns(d.task, lo, hi) && |d.arr| == |c.arr|
    decreases c.task
  {
    match c.task
    case Then(first, next) =>
      if !first.Done? {
        StepKeepsOwnership(max, c.(task := first), d.(task := d.task.first), lo, hi);
      }
    case Both(left, right, mid, _) =>
      if !(left.Done? && right.Done?) {
        if d.task.right == right && Step(max, c.(task := left), d.(task := d.task.left)) {
          StepKeepsOwnership(max, c.(task := left), d.(task := d.task.left), lo, mid);
        } else {
          StepKeepsOwnership(max, c.(task := right), d.(task := d.task.right), mid, hi);
        }
      }
    case _ =>
  }

  // ----- the outcome does not depend on the schedule

  /** What is still to come, run sequentially from the current array. */
  function Outcome(c: Config): seq<int>
    requires Within(Remaining(c.task), 0, |c.arr|)
  {
    Apply(c.arr, Remaining(c.task))
  }

  /** No step of any thread changes the outcome. */
  lemma {:induction false} StepOutcome(max: int, c: Config, d: Config, lo: nat, hi: nat)
    requires Step(max, c, d) && Owns(c.task, lo, hi) && hi <= |c.arr|
    ensures |d.arr| == |c.arr| && Within(Remaining(c.task), lo, hi) && Within(Remaining(d.task), lo, hi)
    ensures Outcome(d) == Outcome(c)
    decreases c.task, 1
  {
    StepKeepsOwnership(max, c, d, lo, hi);
    RemainingWithin(c.task, lo, hi);
    RemainingWithin(d.task, lo, hi);
    if c.task.Then? {
      ThenOutcome(max, c, d, lo, hi);
    } else if c.task.Both? {
      BothOutcome(max, c, d, lo, hi);
    } else if c.task.Clean? {
      CleanOutcome(max, c, d);
    } else {
      LeafRemaining(max, c, d);
      hide Remaining;
    }
  }

  /** Opening a frame, or releasing permits, leaves the remaining comparisons as they were. */
  lemma LeafRemaining(max: int, c: Config, d: Config)
    requires Step(max, c, d) && !c.task.Then? && !c.task.Both? && !c.task.Clean?
    ensures d.arr == c.arr && Remaining(d.task) == Remaining(c.task)
  {
    hide MergeNet, SortNet, CleanNet, Remaining, CompareSwap, Spawn;
    match c.task
    case Sort(low, cnt, dir) => OpenedSort(low, cnt, dir, c.active + 2 <= max);
    case Merge(low, cnt, dir) => OpenedMerge(low, cnt, dir);
    case Recurse(low, k, dir) => OpenedRecurse(low, k, dir, k >= 1024 && c.active + 1 <= max);
    case _ => NothingRemains();
  }

  lemma NothingRemains()
    ensures Remaining(Done) == [] && forall permits :: Remaining(Release(permits)) == []
  {
  }

  lemma OpenedSort(low: nat, cnt: nat, dir: int, granted: bool)
    ensures var k := cnt / 2;
      Remaining(Sort(low, cnt, dir)) == Remaining(if cnt <= 1 then Done else
        Then(Spawn(Sort(low, k, 1), Sort(low + k, k, 0), low + k, 2, granted), Merge(low, cnt, dir)))
  {
    hide MergeNet, Spawn;
    if cnt > 1 {
      var k := cnt / 2;
      SpawnRemaining(Sort(low, k, 1), Sort(low + k, k, 0), low + k, 2, granted);
      SortOnce(low, cnt, dir);
      hide SortNet;
    }
  }

  lemma OpenedMerge(low: nat, cnt: nat, dir: int)
    ensures Remaining(Merge(low, cnt, dir)) ==
      Remaining(if cnt <= 1 then Done else Then(Clean(low, cnt / 2, low, dir), Recurse(low, cnt / 2, dir)))
  {
    if cnt > 1 {
      MergeOnce(low, cnt, dir);
      hide MergeNet;
    }
  }

  lemma OpenedRecurse(low: nat, k: nat, dir: int, granted: bool)
    ensures Remaining(Recurse(low, k, dir)) ==
      Remaining(Spawn(Merge(low, k, dir), Merge(low + k, k, dir), low + k, 1, granted))
  {
    hide MergeNet, Spawn;
    SpawnRemaining(Merge(low, k, dir), Merge(low + k, k, dir), low + k, 1, granted);
  }

  lemma SpawnRemaining(left: Task, right: Task, mid: nat, forks: nat, granted: bool)
    ensures Remaining(Spawn(left, right, mid, forks, granted)) == Remaining(left) + Remaining(right)
  {
  }

  lemma CleanOutcome(max: int, c: Config, d: Config)
    requires Step(max, c, d) && c.task.Clean? && Owns(c.task, 0, |c.arr|)
    ensures Within(Remaining(c.task), 0, |c.arr|) && |d.arr| == |c.arr| && Within(Remaining(d.task), 0, |c.arr|)
    ensures Outcome(d) == Outcome(c)
  {
    var Clean(low, k, i, dir) := c.task;
    if i < low + k {
      assert CleanNet(low, k, i, dir)[1..] == CleanNet(low, k, i + 1, dir);
    }
  }

  lemma {:induction false} ThenOutcome(max: int, c: Config, d: Config, lo: nat, hi: nat)
    requires Step(max, c, d) && Owns(c.task, lo, hi) && hi <= |c.arr| && c.task.Then?
    ensures |d.arr| == |c.arr| && Within(Remaining(c.task), lo, hi) && Within(Remaining(d.task), lo, hi)
    ensures Outcome(d) == Outcome(c)
    decreases c.task, 0
  {
    var Then(first, next) := c.task;
    RemainingWithin(c.task, lo, hi);
    if first.Done? {
      assert Remaining(c.task) == Remaining(next);
    } else {
      var c1, d1 := c.(task := first), d.(task := d.task.first);
      StepKeepsOwnership(max, c, d, lo, hi);
      RemainingWithin(d.task, lo, hi);
      StepOutcome(max, c1, d1, lo, hi);
      RemainingWithin(next, lo, hi);
      ApplyConcat(c.arr, Remaining(first), Remaining(next));
      ApplyConcat(d.arr, Remaining(d1.task), Remaining(next));
    }
  }

  lemma {:induction false} BothOutcome(max: int, c: Config, d: Config, lo: nat, hi: nat)
    requires Step(max, c, d) && Owns(c.task, lo, hi) && hi <= |c.arr|
    requires c.task.Both?
    ensures |d.arr| == |c.arr| && Within(Remaining(c.task), lo, hi) && Within(Remaining(d.task), lo, hi)
    ensures Outcome(d) == Outcome(c)
    decreases c.task, 0
  {
    var Both(left, right, mid, _) := c.task;
    StepKeepsOwnership(max, c, d, lo, hi);
    RemainingWithin(c.task, lo, hi);
    RemainingWithin(d.task, lo, hi);
    if left.Done? && right.Done? {
      assert Remaining(c.task) == [];
      return;
    }
    RemainingWithin(left, lo, mid);
    RemainingWithin(right, mid, hi);
    ApplyConcat(c.arr, Remaining(left), Remaining(right));
    if d.task.right == right && Step(max, c.(task := left), d.(task := d.task.left)) {
      StepOutcome(max, c.(task := left), d.(task := d.task.left), lo, mid);
      ApplyConcat(d.arr, Remaining(d.task.left), Remaining(right));
    } else {
      var c1, d1 := c.(task := right), d.(task := d.task.right);
      StepOutcome(max, c1, d1, mid, hi);
      ApplyConcat(d.arr, Remaining(left), Remaining(d.task.right));
      NetworksCommute(c.arr, Remaining(left), Remaining(right), mid);
      NetworksCommute(d.arr, Remaining(left), Remaining(d.task.right), mid);
    }
  }

  // ----- permits and threads

  function Permits(t: Task): int {
    match t
    case Then(first, next) => Permits(first) + Permits(next)
    case Both(left, right, _, forks) => forks + Permits(left) + Permits(right)
    case Release(permits) => permits
    case _ => 0
  }

  /** Threads created and not yet joined. */
  function Unjoined(t: Task): int {
    match t
    case Then(first, next) => Unjoined(first) + Unjoined(next)
    case Both(left, right, _, forks) => forks + Unjoined(left) + Unjoined(right)
    case _ => 0
  }

  lemma {:induction false} UnjoinedBelowPermits(t: Task)
    ensures 0 <= Unjoined(t) <= Permits(t)
  {
    match t
    case Then(first, next) => UnjoinedBelowPermits(first); UnjoinedBelowPermits(next);
    case Both(left, right, _, _) => UnjoinedBelowPermits(left); UnjoinedBelowPermits(right);
    case _ =>
  }

  /** A step changes active_threads by exactly the permits it takes or gives back, and never takes
      one beyond the budget. */
  lemma {:induction false} StepPermits(max: int, c: Config, d: Config)
    requires Step(max, c, d)
    ensures d.active - Permits(d.task) == c.active - Permits(c.task)
    ensures d.active <= c.active || d.active <= max
    decreases c.task
  {
    match c.task
    case Then(first, next) =>
      if !first.Done? {
        StepPermits(max, c.(task := first), d.(task := d.task.first));
      }
    case Both(left, right, _, _) =>
      if !(left.Done? && right.Done?) {
        if d.task.right == right && Step(max, c.(task := left), d.(task := d.task.left)) {
          StepPermits(max, c.(task := left), d.(task := d.task.left));
        } else {
          StepPermits(max, c.(task := right), d.(task := d.task.right));
        }
      }
    case Sort(_, _, _) =>
      if d.task.Then? {
        assert Permits(d.task) == Permits(d.task.first);
      }
    case _ =>
  }

  // ----- termination

  function MergeWork(cnt: nat): nat {
    if cnt <= 1 then 1 else cnt / 2 + 2 * MergeWork(cnt / 2) + 7
  }

  function SortWork(cnt: nat): nat {
    if cnt <= 1 then 1 else 2 * SortWork(cnt / 2) + MergeWork(cnt) + 5
  }

  /** An upper bound on the number of steps a task can still take. */
  function Work(t: Task): nat {
    match t
    case Done => 0
    case Sort(_, cnt, _) => SortWork(cnt)
    case Merge(_, cnt, _) => MergeWork(cnt)
    case Clean(low, k, i, _) => if i < low + k then low + k - i + 1 else 1
    case Recurse(_, k, _) => 2 * MergeWork(k) + 3
    case Then(first, next) => 1 + Work(first) + Work(next)
    case Both(left, right, _, _) => 2 + Work(left) + Work(right)
    case Release(_) => 1
  }

  lemma SpawnWork(left: Task, right: Task, mid: nat, forks: nat, granted: bool)
    ensures Work(Spawn(left, right, mid, forks, granted)) <= 2 + Work(left) + Work(right)
  {
  }

  lemma OpenSort(max: int, c: Config, d: Config)
    requires Step(max, c, d) && c.task.Sort?
    ensures Work(d.task) < Work(c.task)
  {
    var Sort(low, cnt, dir) := c.task;
    if cnt > 1 {
      var k := cnt / 2;
      var left, right, granted := Sort(low, k, 1), Sort(low + k, k, 0), c.active + 2 <= max;
      SpawnWork(left, right, low + k, 2, granted);
      assert SortWork(cnt) == 2 * SortWork(k) + MergeWork(cnt) + 5;
      hide SortWork, MergeWork, Spawn;
      assert Work(d.task) == 1 + Work(Spawn(left, right, low + k, 2, granted)) + MergeWork(cnt);
    }
  }

  lemma OpenMerge(max: int, c: Config, d: Config)
    requires Step(max, c, d) && c.task.Merge?
    ensures Work(d.task) < Work(c.task)
  {
    var Merge(low, cnt, dir) := c.task;
    if cnt > 1 {
      var k := cnt / 2;
      assert MergeWork(cnt) == k + 2 * MergeWork(k) + 7;
      hide MergeWork;
      assert Work(d.task) == 1 + Work(Clean(low, k, low, dir)) + Work(Recurse(low, k, dir));
    }
  }

  lemma OpenRecurse(max: int, c: Config, d: Config)
    requires Step(max, c, d) && c.task.Recurse?
    ensures Work(d.task) < Work(c.task)
  {
    hide MergeWork, Spawn;
    var Recurse(low, k, dir) := c.task;
    SpawnWork(Merge(low, k, dir), Merge(low + k, k, dir), low + k, 1, k >= 1024 && c.active + 1 <= max);
  }

  lemma {:induction false} StepWork(max: int, c: Config, d: Config)
    requires Step(max, c, d)
    ensures Work(d.task) < Work(c.task)
    decreases c.task
  {
    hide SortWork, MergeWork, CompareSwap, Spawn;
    match c.task
    case Sort(_, _, _) => OpenSort(max, c, d);
    case Merge(_, _, _) => OpenMerge(max, c, d);
    case Recurse(_, _, _) => OpenRecurse(max, c, d);
    case Then(first, next) =>
      if !first.Done? {
        StepWork(max, c.(task := first), d.(task := d.task.first));
      }
    case Both(left, right, _, _) =>
      if !(left.Done? && right.Done?) {
        if d.task.right == right && Step(max, c.(task := left), d.(task := d.task.left)) {
          StepWork(max, c.(task := left), d.(task := d.task.left));
        } else {
          StepWork(max, c.(task := right), d.(task := d.task.right));
        }
      }
    case _ =>
  }

  /** A task that has not returned can always take a step: the budget never blocks. */
  lemma {:induction false} Progress(max: int, c: Config, lo: nat, hi: nat) returns (d: Config)
    requires c.task != Done && Owns(c.task, lo, hi) && hi <= |c.arr|
    ensures Step(max, c, d)
    decreases c.task
  {
    match c.task
    case Sort(low, cnt, dir) =>
      var k := cnt / 2;
      var granted := c.active + 2 <= max;
      d := if cnt <= 1 then c.(task := Done) else
        Config(Then(Spawn(Sort(low, k, 1), Sort(low + k, k, 0), low + k, 2, granted), Merge(low, cnt, dir)),
               c.arr, if granted then c.active + 2 else c.active);
    case Merge(low, cnt, dir) =>
      d := c.(task := if cnt <= 1 then Done else Then(Clean(low, cnt / 2, low, dir), Recurse(low, cnt / 2, dir)));
    case Clean(low, k, i, dir) =>
      d := if i < low + k
           then c.(task := Clean(low, k, i + 1, dir), arr := CompareSwap(c.arr, Comparator(i, i + k, dir)))
           else c.(task := Done);
    case Recurse(low, k, dir) =>
      var granted := k >= 1024 && c.active + 1 <= max;
      d := Config(Spawn(Merge(low, k, dir), Merge(low + k, k, dir), low + k, 1, granted),
                  c.arr, if granted then c.active + 1 else c.active);
    case Then(first, next) =>
      if first.Done? {
        d := c.(task := next);
      } else {
        d := Progress(max, c.(task := first), lo, hi);
        d := d.(task := Then(d.task, next));
      }
    case Both(left, right, mid, forks) =>
      if !left.Done? {
        var e := Progress(max, c.(task := left), lo, mid);
        d := e.(task := Both(e.task, right, mid, forks));
        assert d.(task := d.task.left) == e;
      } else if !right.Done? {
        var e := Progress(max, c.(task := right), mid, hi);
        d := e.(task := Both(left, e.task, mid, forks));
        assert d.(task := d.task.right) == e;
      } else {
        d := c.(task := Release(forks));
      }
    case Release(permits) => d := Config(Done, c.arr, c.active - permits);
  }

  // ----- whole runs

  /** What holds in every state of every schedule that starts with the call bitonicSort(0, n, 1). */
  ghost predicate Invariant(max: int, s: seq<int>, c: Config) {
    && Owns(c.task, 0, |s|) && NoRace(c.task) && |c.arr| == |s|
    && Within(Remaining(c.task), 0, |s|)
    && Outcome(c) == Apply(s, SortNet(0, |s|, 1))
    && c.active == Permits(c.task)
    && Unjoined(c.task) <= c.active
    && 0 <= c.active && (c.active == 0 || c.active <= max)
  }

  function Start(s: seq<int>): Config {
    Config(Sort(0, |s|, 1), s, 0)
  }

  lemma {:induction false} EveryState(max: int, s: seq<int>, run: seq<Config>, x: nat)
    requires Run(max, run) && x < |run| && run[0] == Start(s)
    ensures Invariant(max, s, run[x])
    ensures Work(run[x].task) + x <= SortWork(|s|)
    decreases x
  {
    hide Step, Invariant, Work, SortWork;
    if x == 0 {
      StartInvariant(max, s);
    } else {
      EveryState(max, s, run, x - 1);
      StepInvariant(max, s, run[x - 1], run[x]);
      StepWork(max, run[x - 1], run[x]);
    }
  }

  lemma StartInvariant(max: int, s: seq<int>)
    ensures Invariant(max, s, Start(s)) && Work(Start(s).task) == SortWork(|s|)
  {
    RaceFree(Start(s).task, 0, |s|);
  }

  lemma StepInvariant(max: int, s: seq<int>, c: Config, d: Config)
    requires Invariant(max, s, c) && Step(max, c, d)
    ensures Invariant(max, s, d)
  {
    hide Step, NoRace, Remaining, Owns, Within, Permits, Unjoined, Apply, SortNet;
    StepKeepsOwnership(max, c, d, 0, |s|);
    RaceFree(d.task, 0, |s|);
    StepOutcome(max, c, d, 0, |s|);
    StepPermits(max, c, d);
    UnjoinedBelowPermits(d.task);
  }

  /** Every schedule of the parallel sort is finite, and one that cannot go on has returned from the
      root call with all threads joined, all permits given back, and the array of the sequential
      recursion; for a power of two that array is the sorted permutation of the input. */
  lemma EverySchedule(max: int, s: seq<int>, run: seq<Config>)
    requires Run(max, run) && |run| > 0 && run[0] == Start(s)
    ensures |run| <= SortWork(|s|) + 1
    ensures var last := run[|run| - 1];
      Stuck(max, last) ==>
        && last.task == Done && last.active == 0
        && last.arr == Apply(s, SortNet(0, |s|, 1))
        && multiset(last.arr) == multiset(s)
        && (IsPow2(|s|) ==> Sorted(last.arr, 0, |s|, 1))
  {
    var last := run[|run| - 1];
    EveryState(max, s, run, |run| - 1);
    if last.task != Done {
      var d := Progress(max, last, 0, |s|);
    }
    ApplyPermutes(s, SortNet(0, |s|, 1));
    if IsPow2(|s|) {
      SortSorts(s, 0, |s|, 1);
    }
  }

  // ----- when threads are created

  /** A sort frame creates two threads, for its two halves, exactly when two more permits are within the
      budget; it takes both permits at once. */
  lemma SortForks(max: int, c: Config, d: Config)
    requires Step(max, c, d) && c.task.Sort? && c.task.cnt > 1
    ensures var low, cnt, k := c.task.low, c.task.cnt, c.task.cnt / 2;
      var left, right := Sort(low, k, 1), Sort(low + k, k, 0);
      && d.arr == c.arr && d.task.Then? && d.task.next == Merge(low, cnt, c.task.dir)
      && if c.active + 2 <= max
         then d.active == c.active + 2 && Unjoined(d.task) == 2 && d.task.first == Both(left, right, low + k, 2)
         else d.active == c.active && Unjoined(d.task) == 0 && d.task.first == Then(left, right)
  {
    assert Unjoined(d.task) == Unjoined(d.task.first);
  }

  /** A merge frame, after its loop, creates one thread exactly when its halves have at least 1024 elements
      and one more permit is within the budget. */
  lemma MergeForks(max: int, c: Config, d: Config)
    requires Step(max, c, d) && c.task.Recurse?
    ensures var low, k, dir := c.task.low, c.task.k, c.task.dir;
      var left, right := Merge(low, k, dir), Merge(low + k, k, dir);
      && d.arr == c.arr
      && if k >= 1024 && c.active + 1 <= max
         then d.active == c.active + 1 && Unjoined(d.task) == 1 && d.task == Both(left, right, low + k, 1)
         else d.active == c.active && Unjoined(d.task) == 0 && d.task == Then(left, right)
  {
  }

  /** A merge frame of more than one element runs its loop and then recurses on halves. */
  lemma MergeOpens(max: int, c: Config, d: Config)
    requires Step(max, c, d) && c.task.Merge? && c.task.cnt > 1
    ensures var low, k, dir := c.task.low, c.task.cnt / 2, c.task.dir;
      d == c.(task := Then(Clean(low, k, low, dir), Recurse(low, k, dir)))
  {
  }

  /** Each thread that is about to compare may be the next to do so. */
  lemma {:induction false} ReadyMayGo(max: int, c: Config, lo: nat, hi: nat, j: nat) returns (d: Config)
    requires Owns(c.task, lo, hi) && hi <= |c.arr| && j < |Ready(c.task)|
    ensures Touches(Ready(c.task)[j], 0, |c.arr|)
    ensures Step(max, c, d) && d.arr == CompareSwap(c.arr, Ready(c.task)[j])
    decreases c.task
  {
    match c.task
    case Clean(low, k, i, dir) =>
      d := c.(task := Clean(low, k, i + 1, dir), arr := CompareSwap(c.arr, Comparator(i, i + k, dir)));
    case Then(first, next) =>
      var e := ReadyMayGo(max, c.(task := first), lo, hi, j);
      d := e.(task := Then(e.task, next));
      assert d.(task := d.task.first) == e;
    case Both(left, right, mid, forks) =>
      if j < |Ready(left)| {
        var e := ReadyMayGo(max, c.(task := left), lo, mid, j);
        d := e.(task := Both(e.task, right, mid, forks));
        assert d.(task := d.task.left) == e;
      } else {
        var e := ReadyMayGo(max, c.(task := right), mid, hi, j - |Ready(left)|);
        d := e.(task := Both(left, e.task, mid, forks));
        assert d.(task := d.task.right) == e;
      }
  }

  // ----- threads do run at the same time

  /** As long as no thread is about to compare, a step compares nothing. */
  lemma {:induction false} OtherStep(max: int, c: Config, d: Config)
    requires Step(max, c, d) && Ready(c.task) == []
    ensures d.arr == c.arr && Remaining(d.task) == Remaining(c.task)
    decreases c.task
  {
    hide SortNet, MergeNet;
    match c.task
    case Then(first, next) =>
      if !first.Done? {
        OtherStep(max, c.(task := first), d.(task := d.task.first));
      }
    case Both(left, right, _, _) =>
      if !(left.Done? && right.Done?) {
        if d.task.right == right && Step(max, c.(task := left), d.(task := d.task.left)) {
          OtherStep(max, c.(task := left), d.(task := d.task.left));
        } else {
          OtherStep(max, c.(task := right), d.(task := d.task.right));
        }
      }
    case Clean(_, _, _, _) =>
    case _ => LeafRemaining(max, c, d);
  }

  /** A task with comparisons left gets to one. */
  lemma {:induction false} GetsReady(max: int, c: Config, lo: nat, hi: nat) returns (run: seq<Config>)
    requires Owns(c.task, lo, hi) && hi <= |c.arr| && Remaining(c.task) != []
    ensures Run(max, run) && |run| > 0 && run[0] == c
    ensures var d := run[|run| - 1]; Ready(d.task) != [] && Owns(d.task, lo, hi) && |d.arr| == |c.arr|
    decreases Work(c.task)
  {
    if Ready(c.task) != [] {
      run := [c];
    } else {
      var d := Progress(max, c, lo, hi);
      OtherStep(max, c, d);
      StepKeepsOwnership(max, c, d, lo, hi);
      StepWork(max, c, d);
      hide Step, Work, Owns, Ready, Remaining;
      var rest := GetsReady(max, d, lo, hi);
      run := [c] + rest;
      RunFrom(max, c, rest);
    }
  }

  lemma RunFrom(max: int, c: Config, rest: seq<Config>)
    requires Run(max, rest) && |rest| > 0 && Step(max, c, rest[0])
    ensures Run(max, [c] + rest)
  {
    hide Step;
    forall x | 0 < x < |rest| + 1 ensures Step(max, ([c] + rest)[x - 1], ([c] + rest)[x]) {
      assert x > 1 ==> Step(max, rest[x - 2], rest[x - 1]);
    }
  }

  lemma RunConcat(max: int, a: seq<Config>, b: seq<Config>)
    requires Run(max, a) && Run(max, b) && |a| > 0 && |b| > 0 && a[|a| - 1] == b[0]
    ensures Run(max, a + b[1..])
  {
    hide Step;
    var all := a + b[1..];
    forall x | 0 < x < |all| ensures Step(max, all[x - 1], all[x]) {
      if x < |a| {
        assert Step(max, a[x - 1], a[x]);
      } else {
        var y := x - |a| + 1;
        assert Step(max, b[y - 1], b[y]) && all[x] == b[y] && all[x - 1] == b[y - 1];
      }
    }
  }

  /** The two sides of a pair of frames, and what comes after them. */
  function Pair(left: Task, right: Task, mid: nat, next: Task): Task {
    Then(Both(left, right, mid, 2), next)
  }

  function OnLeft(run: seq<Config>, right: Task, mid: nat, next: Task): (r: seq<Config>)
    ensures |r| == |run| && forall x :: 0 <= x < |run| ==> r[x] == run[x].(task := Pair(run[x].task, right, mid, next))
  {
    seq(|run|, x requires 0 <= x < |run| => run[x].(task := Pair(run[x].task, right, mid, next)))
  }

  function OnRight(run: seq<Config>, left: Task, mid: nat, next: Task): (r: seq<Config>)
    ensures |r| == |run| && forall x :: 0 <= x < |run| ==> r[x] == run[x].(task := Pair(left, run[x].task, mid, next))
  {
    seq(|run|, x requires 0 <= x < |run| => run[x].(task := Pair(left, run[x].task, mid, next)))
  }

  lemma PairStep(max: int, c: Config, d: Config, other: Task, mid: nat, next: Task)
    requires Step(max, c, d)
    ensures Step(max, c.(task := Pair(c.task, other, mid, next)), d.(task := Pair(d.task, other, mid, next)))
    ensures Step(max, c.(task := Pair(other, c.task, mid, next)), d.(task := Pair(other, d.task, mid, next)))
  {
    assert c.task != Done;
    var l, m := c.(task := Both(c.task, other, mid, 2)), d.(task := Both(d.task, other, mid, 2));
    assert l.(task := l.task.left) == c && m.(task := m.task.left) == d;
    var p, q := c.(task := Both(other, c.task, mid, 2)), d.(task := Both(other, d.task, mid, 2));
    assert p.(task := p.task.right) == c && q.(task := q.task.right) == d;
    assert Step(max, l, m) && Step(max, p, q);
  }

  lemma PairRuns(max: int, run: seq<Config>, other: Task, mid: nat, next: Task)
    requires Run(max, run)
    ensures Run(max, OnLeft(run, other, mid, next)) && Run(max, OnRight(run, other, mid, next))
  {
    forall x | 0 < x < |run|
      ensures Step(max, OnLeft(run, other, mid, next)[x - 1], OnLeft(run, other, mid, next)[x])
      ensures Step(max, OnRight(run, other, mid, next)[x - 1], OnRight(run, other, mid, next)[x])
    {
      PairStep(max, run[x - 1], run[x], other, mid, next);
    }
  }

  lemma SomethingToCompare(low: nat, cnt: nat, dir: int)
    requires cnt > 1
    ensures |SortNet(low, cnt, dir)| > 0
  {
    SortOnce(low, cnt, dir);
    MergeOnce(low, cnt, dir);
    hide SortNet, MergeNet;
    assert |CleanNet(low, cnt / 2, low, dir)| == cnt / 2;
  }

  /** With a budget of at least two and at least four elements, a schedule gets two threads to compare at
      the same time. */
  lemma TwoThreadsRun(max: int, s: seq<int>) returns (run: seq<Config>)
    requires max >= 2 && |s| >= 4
    ensures Run(max, run) && |run| > 0 && run[0] == Start(s)
    ensures var last := run[|run| - 1]; |Ready(last.task)| >= 2 && Unjoined(last.task) >= 2
  {
    var n, k := |s|, |s| / 2;
    SomethingToCompare(0, k, 1);
    SomethingToCompare(k, k, 0);
    assert Remaining(Sort(0, k, 1)) != [] && Remaining(Sort(k, k, 0)) != [];
    assert Owns(Sort(0, k, 1), 0, k) && Owns(Sort(k, k, 0), k, n);
    hide Step, Owns, Ready, Remaining, Unjoined, SortNet;
    var a := GetsReady(max, Config(Sort(0, k, 1), s, 2), 0, k);
    var d := a[|a| - 1];
    var b := GetsReady(max, d.(task := Sort(k, k, 0)), k, n);
    var pair := BothReady(max, a, b, k, Merge(0, n, 1));
    FirstFork(max, s);
    RunFrom(max, Start(s), pair);
    run := [Start(s)] + pair;
  }

  /** First the left side runs until it is about to compare, then the right side. */
  lemma BothReady(max: int, a: seq<Config>, b: seq<Config>, mid: nat, next: Task) returns (run: seq<Config>)
    requires Run(max, a) && Run(max, b) && |a| > 0 && |b| > 0
    requires var d := a[|a| - 1]; b[0] == d.(task := b[0].task) && Ready(d.task) != []
    requires Ready(b[|b| - 1].task) != []
    ensures Run(max, run) && |run| > 0 && run[0] == a[0].(task := Pair(a[0].task, b[0].task, mid, next))
    ensures var last := run[|run| - 1]; |Ready(last.task)| >= 2 && Unjoined(last.task) >= 2
  {
    hide Step, Ready, Unjoined, Run, Pair;
    var d, e := a[|a| - 1], b[|b| - 1];
    PairRuns(max, a, b[0].task, mid, next);
    PairRuns(max, b, d.task, mid, next);
    var one, two := OnLeft(a, b[0].task, mid, next), OnRight(b, d.task, mid, next);
    RunConcat(max, one, two);
    run := one + two[1..];
    assert run[|run| - 1] == two[|two| - 1];
    PairReady(d.task, e.task, mid, next);
  }

  lemma PairReady(left: Task, right: Task, mid: nat, next: Task)
    ensures var t := Pair(left, right, mid, next);
      |Ready(t)| == |Ready(left)| + |Ready(right)| && Unjoined(t) >= 2
  {
    UnjoinedBelowPermits(left);
    UnjoinedBelowPermits(right);
    UnjoinedBelowPermits(next);
    assert Ready(Both(left, right, mid, 2)) == Ready(left) + Ready(right);
    assert Unjoined(Both(left, right, mid, 2)) == 2 + Unjoined(left) + Unjoined(right);
    hide Permits;
  }

  lemma FirstFork(max: int, s: seq<int>)
    requires max >= 2 && |s| >= 4
    ensures var n, k := |s|, |s| / 2;
      Step(max, Start(s), Config(Pair(Sort(0, k, 1), Sort(k, k, 0), k, Merge(0, n, 1)), s, 2))
  {
  }
}
