/** What a scheduler tick means: one step on the ring of task states, and what that step promises
    over whole runs. */
module Scheduling {
  import opened Words

  const MAX_TASKS: nat := 512

  datatype State = Blocked | Sleeping | Ready | Running | Exited

  datatype TaskView = TaskView(state: State, wake: u32)

  /** The ring in order from task_head, the current and the idle task's place in it, and the clock. */
  datatype View = View(tasks: seq<TaskView>, cur: nat, idle: nat, now: u32) {
    ghost predicate Sound() { cur < |tasks| && idle < |tasks| }
  }

  // ----- One tick

  /** `(int32_t)(wake_tick - system_ticks) <= 0` */
  predicate Due(wake: u32, now: u32) {
    var d := if wake >= now then wake - now else wake + WORD - now;
    d == 0 || d >= 0x8000_0000
  }

  function Wake(t: TaskView, now: u32): TaskView {
    if t.state.Sleeping? && Due(t.wake, now) then t.(state := Ready) else t
  }

  function WakeAll(ts: seq<TaskView>, now: u32): seq<TaskView> {
    seq(|ts|, i requires 0 <= i < |ts| => Wake(ts[i], now))
  }

  predicate Eligible(v: View, i: nat)
    requires i < |v.tasks|
  {
    v.tasks[i].state.Ready? || i == v.idle
  }

  /** The first eligible task at least k steps after the current one, looking at most once around. */
  function Choose(v: View, k: nat): (r: nat)
    requires v.Sound() && 1 <= k <= |v.tasks| + 1
    ensures r < |v.tasks|
    decreases |v.tasks| + 1 - k
  {
    if k == |v.tasks| + 1 then v.idle
    else
      var i := Ahead(v.cur, k, |v.tasks|);
      if Eligible(v, i) then i else Choose(v, k + 1)
  }

  /** The task k steps along a ring of n. */
  function Ahead(i: nat, k: nat, n: nat): (r: nat)
    requires i < n && k <= n
    ensures r < n
  {
    if i + k < n then i + k else i + k - n
  }

  function Timed(v: View): View {
    var now := Add32(v.now, 1);
    v.(tasks := WakeAll(v.tasks, now), now := now)
  }

  function Tick(v: View): (r: View)
    requires v.Sound()
    ensures r.Sound() && |r.tasks| == |v.tasks| && r.idle == v.idle
  {
    var t := Timed(v);
    t.(cur := Choose(t, 1))
  }

  // ----- Bounded waiting

  /** Steps from i to j along the ring: 1 .. n, a full turn when they are the same task. */
  function Distance(i: nat, j: nat, n: nat): (d: nat)
    requires i < n && j < n
    ensures 1 <= d <= n && Ahead(i, d, n) == j
    ensures forall k :: 1 <= k <= n && Ahead(i, k, n) == j ==> k == d
  {
    if i < j then j - i else j + n - i
  }

  /** The chosen task is ready or idle, and nothing eligible was passed over on the way to it. */
  lemma {:induction false} ChooseFirst(v: View, k: nat)
    requires v.Sound() && 1 <= k <= |v.tasks| + 1
    requires forall j :: 1 <= j < k ==> !Eligible(v, Ahead(v.cur, j, |v.tasks|))
    ensures var r := Choose(v, k);
            && Eligible(v, r)
            && forall j :: 1 <= j < Distance(v.cur, r, |v.tasks|) ==> !Eligible(v, Ahead(v.cur, j, |v.tasks|))
    decreases |v.tasks| + 1 - k
  {
    var n := |v.tasks|;
    var d := Distance(v.cur, v.idle, n);
    assert Eligible(v, Ahead(v.cur, d, n));
    assert k <= d;
    if !Eligible(v, Ahead(v.cur, k, n)) {
      ChooseFirst(v, k + 1);
    }
  }

  /** A tick runs a ready task or the idle one, and the first such task on the ring: none lies strictly
      between it and the task that ran before. */
  lemma TickChoice(v: View)
    requires v.Sound()
    ensures var t, n := Tick(v), |v.tasks|;
            && (t.tasks[t.cur].state.Ready? || t.cur == v.idle)
            && forall j :: 1 <= j < Distance(v.cur, t.cur, n) ==>
                 !t.tasks[Ahead(v.cur, j, n)].state.Ready? && Ahead(v.cur, j, n) != v.idle
  {
    ChooseFirst(Timed(v), 1);
    var t, n := Tick(v), |v.tasks|;
    forall j | 1 <= j < Distance(v.cur, t.cur, n)
      ensures !t.tasks[Ahead(v.cur, j, n)].state.Ready? && Ahead(v.cur, j, n) != v.idle
    {
      assert !Eligible(Timed(v), Ahead(v.cur, j, n));
    }
  }

  /** Steps along the ring count modulo its length. */
  lemma AheadWraps(i: nat, k: nat, n: nat)
    requires i < n && k <= n
    ensures Ahead(i, k, n) == (i + k) % n
  {
    if i + k < n {
      ModOnce(i + k, n);
    } else if i + k < 2 * n {
      var m := i + k - n;
      ModOnce(m, n);
      assert m + n == i + k;
    }
  }

  lemma ModOnce(m: nat, n: nat)
    requires m < n
    ensures (m + n) % n == m % n == m
  {
    assert m + n == 1 * n + m;
  }

  /** Only what Tick chooses and wakes changes: no wake tick, and no state but that of a sleeper, which
      becomes ready exactly when its wake tick lies at most 2^31 ticks back. */
  lemma TickFrame(v: View, i: nat, k: u32)
    requires v.Sound() && i < |v.tasks|
    requires Tick(v).now == Add32(v.tasks[i].wake, k)
    ensures Tick(v).now == (v.now + 1) % WORD
    ensures Tick(v).tasks[i].wake == v.tasks[i].wake
    ensures !v.tasks[i].state.Sleeping? ==> Tick(v).tasks[i].state == v.tasks[i].state
    ensures v.tasks[i].state.Sleeping? ==>
              Tick(v).tasks[i].state == if k <= 0x8000_0000 then Ready else Sleeping
  {
    assert Tick(v).tasks[i] == Wake(v.tasks[i], Tick(v).now);
    DueExact(v.tasks[i].wake, k);
  }

  /** The signed comparison takes a wake tick for past from the tick itself to 2^31 ticks later. */
  lemma DueExact(wake: u32, k: u32)
    ensures Due(wake, Add32(wake, k)) <==> k <= 0x8000_0000
  {
  }

  /** Between ticks the current task runs: any state may change, and new tasks may be added at the end of
      the ring. */
  ghost predicate Runs(v: View, w: View) {
    |v.tasks| <= |w.tasks| <= MAX_TASKS && w.cur == v.cur
  }

  /** The views just before each tick of a run. */
  ghost predicate IsRun(vs: seq<View>) {
    && (forall k :: 0 <= k < |vs| ==> vs[k].Sound())
    && (forall k :: 0 <= k < |vs| - 1 ==> Runs(Tick(vs[k]), vs[k + 1]))
  }

  /** A tick runs a task that stays ready or brings it strictly nearer. */
  lemma TickApproaches(v: View, p: nat)
    requires v.Sound() && p < |v.tasks| && v.tasks[p].state.Ready?
    ensures var n := |v.tasks|;
            Tick(v).cur == p || Distance(Tick(v).cur, p, n) < Distance(v.cur, p, n)
  {
    var t := Timed(v);
    var n := |v.tasks|;
    ChooseFirst(t, 1);
    var r := Choose(t, 1);
    assert Eligible(t, p);
    assert Distance(v.cur, r, n) <= Distance(v.cur, p, n);
  }

  /** The steps from the current task to p, and the tasks that the run adds, which may get in between. */
  function WaitBound(vs: seq<View>, p: nat): int
    requires |vs| > 0 && vs[0].cur < |vs[0].tasks| && p < |vs[0].tasks|
  {
    Distance(vs[0].cur, p, |vs[0].tasks|) + |vs[|vs| - 1].tasks| - |vs[0].tasks|
  }

  lemma {:induction false} TasksGrow(vs: seq<View>)
    requires IsRun(vs) && |vs| > 0
    ensures |vs[0].tasks| <= |vs[|vs| - 1].tasks|
    decreases |vs|
  {
    if |vs| > 1 {
      assert Runs(Tick(vs[0]), vs[1]);
      RestOfRun(vs);
      TasksGrow(vs[1..]);
    }
  }

  lemma RestOfRun(vs: seq<View>)
    requires IsRun(vs) && |vs| > 0
    ensures IsRun(vs[1..])
  {
    var rest := vs[1..];
    forall k | 0 <= k < |rest| - 1
      ensures Runs(Tick(rest[k]), rest[k + 1])
    {
      assert rest[k] == vs[k + 1] && rest[k + 1] == vs[k + 1 + 1];
    }
  }

  /** Bounded waiting: a task that is ready before each tick becomes current within as many ticks as it
      is steps away, and one more for every task that is created meanwhile. */
  lemma {:induction false} BoundedWaiting(vs: seq<View>, p: nat)
    requires IsRun(vs) && |vs| > 0 && p < |vs[0].tasks| && |vs| >= WaitBound(vs, p)
    requires forall k :: 0 <= k < |vs| ==> p < |vs[k].tasks| && vs[k].tasks[p].state.Ready?
    ensures exists k :: 0 <= k < WaitBound(vs, p) && Tick(vs[k]).cur == p
    decreases |vs|
  {
    TickApproaches(vs[0], p);
    TasksGrow(vs);
    if Tick(vs[0]).cur != p {
      assert Runs(Tick(vs[0]), vs[1]);
      var rest := vs[1..];
      RestOfRun(vs);
      BoundedWaiting(rest, p);
      var k :| 0 <= k < WaitBound(rest, p) && Tick(rest[k]).cur == p;
      assert Tick(vs[k + 1]).cur == p;
    } else {
      assert 0 < WaitBound(vs, p);
    }
  }

  /** So no ready task ever waits for more ticks than there can be tasks. */
  lemma WaitsAtMostMaxTasks(vs: seq<View>, p: nat)
    requires IsRun(vs) && |vs| >= MAX_TASKS && p < |vs[0].tasks| <= MAX_TASKS
    requires forall k :: 0 <= k < |vs| ==> p < |vs[k].tasks| && vs[k].tasks[p].state.Ready?
    ensures exists k :: 0 <= k < MAX_TASKS && Tick(vs[k]).cur == p
  {
    var last := |vs| - 1;
    assert Runs(Tick(vs[last - 1]), vs[last - 1 + 1]);
    BoundedWaiting(vs, p);
  }

  // ----- Sleeping

  /** (ms * PIT_FREQUENCY + 999) / 1000 in 32-bit arithmetic. */
  function MsToTicks(ms: u32, frequency: u32): u32 {
    RoundedTicks(ms * frequency)
  }

  function RoundedTicks(product: int): u32 {
    Add32(product % WORD, 999) / 1000
  }

  /** At least one tick. */
  function AtLeastOne(ticks: int): (r: int)
    ensures 0 <= ticks < WORD ==> 0 < r < WORD
  {
    if ticks == 0 then 1 else ticks
  }

  /** sleep_ms waits for at least one tick. */
  function SleepTicks(ms: u32, frequency: u32): u32 {
    AtLeastOne(MsToTicks(ms, frequency))
  }

  /** The tick count is always short enough for the signed comparison, and it is the rounded-up
      duration exactly when the sum does not wrap. */
  lemma SleepTicksExact(ms: u32, frequency: u32)
    ensures 1 <= SleepTicks(ms, frequency) < 0x8000_0000
    ensures var exact := (ms * frequency + 999) / 1000;
            SleepTicks(ms, frequency) == AtLeastOne(exact) <==> ms * frequency + 999 < WORD
  {
    var x := ms * frequency;
    assert SleepTicks(ms, frequency) == AtLeastOne(RoundedTicks(x));
    TicksOfProduct(x);
  }

  lemma TicksOfProduct(x: nat)
    ensures 1 <= AtLeastOne(RoundedTicks(x)) < 0x8000_0000
    ensures AtLeastOne(RoundedTicks(x)) == AtLeastOne((x + 999) / 1000) <==> x + 999 < WORD
  {
    if x >= WORD {
      assert (x + 999) / 1000 >= (WORD + 999) / 1000;
    }
  }

  /** The views just before each tick of any run: between ticks tasks may be created, started, blocked
      and woken, but only a tick moves the clock. New tasks go to the end of the ring, so the places of
      the others stay. */
  ghost predicate IsClocked(vs: seq<View>) {
    && (forall k :: 0 <= k < |vs| ==> vs[k].Sound())
    && (forall k :: 0 <= k < |vs| - 1 ==> Clocked(vs[k], vs[k + 1]))
  }

  ghost predicate Clocked(v: View, w: View) {
    v.Sound() && w.now == Tick(v).now
  }

  /** Nothing but the scheduler touches task p's state and wake tick. */
  ghost predicate LeftAlone(vs: seq<View>, p: nat) {
    forall k :: 0 <= k < |vs| - 1 ==> Untouched(vs[k], vs[k + 1], p)
  }

  ghost predicate Untouched(v: View, w: View, p: nat) {
    v.Sound() && p < |v.tasks| && p < |w.tasks| && w.tasks[p] == Tick(v).tasks[p]
  }

  /** A sleeper of n ticks is still asleep after each of the first n - 1 ticks and ready after the
      n-th, whatever the clock started from. */
  lemma {:induction false} SleepExact(vs: seq<View>, p: nat, n: nat)
    requires IsClocked(vs) && LeftAlone(vs, p) && 1 <= n < 0x8000_0000 && |vs| > n
    requires p < |vs[0].tasks| && vs[0].tasks[p] == TaskView(Sleeping, Add32(vs[0].now, n))
    ensures forall k :: 1 <= k < n ==> p < |vs[k].tasks| && vs[k].tasks[p].state.Sleeping?
    ensures p < |vs[n].tasks| && vs[n].tasks[p].state.Ready?
  {
    assert Clocked(vs[0], vs[1]) && Untouched(vs[0], vs[1], p);
    assert vs[1].tasks[p] == Wake(vs[0].tasks[p], vs[1].now);
    if n > 1 {
      var rest := vs[1..];
      assert vs[1].tasks[p] == TaskView(Sleeping, Add32(vs[1].now, n - 1));
      assert IsClocked(rest) && LeftAlone(rest, p) by {
        forall k | 0 <= k < |rest| - 1
          ensures Clocked(rest[k], rest[k + 1]) && Untouched(rest[k], rest[k + 1], p)
        {
          assert rest[k] == vs[k + 1] && rest[k + 1] == vs[k + 1 + 1];
        }
      }
      SleepExact(rest, p, n - 1);
      forall k | 1 <= k < n
        ensures p < |vs[k].tasks| && vs[k].tasks[p].state.Sleeping?
      {
        if k > 1 { assert vs[k] == vs[1..][k - 1]; }
      }
      assert vs[n] == vs[1..][n - 1];
    }
  }
}
