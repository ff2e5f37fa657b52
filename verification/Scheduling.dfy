/** Whole runs of the kernel: what holds in every reachable state, and how long a waiting process waits. */
module Scheduling {
  import opened ProcessTable

  /** A run: consecutive states related by the events between them. */
  ghost predicate IsRun(states: seq<State>, events: seq<Event>) {
    && |states| == |events| + 1
    && (forall i :: 0 <= i < |states| ==> Shaped(states[i]))
    && (forall i :: 0 <= i < |events| ==> Next(states[i], events[i], states[i + 1]))
  }

  // ---------- reachable states ----------

  /** In every state of a run from boot the invariant holds for some three stacks. */
  lemma {:induction false} ReachableInv(states: seq<State>, events: seq<Event>) returns (stacks: seq<Stack>)
    requires IsRun(states, events) && Init(states[0])
    ensures Inv(states[|events|], stacks)
    decreases |events|
  {
    if events == [] {
      InitInv(states[0]);
      stacks := [[0], [1], [2]];
    } else {
      var n := |events| - 1;
      var before := ReachableInv(states[..n + 1], events[..n]);
      InvKept(states[n], before, events[n], states[n + 1]);
      stacks := StacksAfter(states[n], before, events[n], states[n + 1]);
    }
  }

  /** The n-th ancestor of p. */
  ghost function Ancestor(s: State, p: nat, n: nat): nat
    requires Shaped(s)
    decreases n
  {
    if n == 0 || p >= NUM_PROC then p else Ancestor(s, s.parent[p], n - 1)
  }

  /** Each session has exactly one process that is ACTIVE, DAEMON or PENDING. */
  lemma OneRunnablePerSession(s: State, stacks: seq<Stack>, k: nat)
    requires Inv(s, stacks) && k < NUM_SESS
    ensures exists p :: 0 <= p < NUM_PROC && s.sess[p] == k && Runnable(s.status[p])
                     && forall q :: 0 <= q < NUM_PROC && s.sess[q] == k && Runnable(s.status[q]) ==> q == p
  {
    var p := Top(stacks[k]);
    assert MemberOk(s, k, stacks[k], |stacks[k]| - 1);
    forall q | 0 <= q < NUM_PROC && s.sess[q] == k && Runnable(s.status[q])
      ensures q == p
    {
      RunnableIsTop(s, stacks, q);
    }
  }

  lemma {:induction false} AncestorOnStack(s: State, k: nat, st: Stack, i: nat, j: nat)
    requires Shaped(s) && SessionOk(s, k, st) && j <= i < |st|
    ensures Ancestor(s, st[i], j) == st[i - j]
    decreases j
  {
    assert MemberOk(s, k, st, i);
    if j == 0 {
    } else {
      AncestorOnStack(s, k, st, i - 1, j - 1);
    }
  }

  /** The ancestors of a live process are IDLE, up to the root shell of its session, whose parent is `NUM_PROC`. */
  lemma AncestorsWait(s: State, stacks: seq<Stack>, p: nat) returns (n: nat)
    requires Inv(s, stacks) && p < NUM_PROC && s.status[p] != Inactive
    ensures s.sess[p] < NUM_SESS && n < |stacks[s.sess[p]]|
    ensures Ancestor(s, p, n) == s.sess[p] < NUM_SESS && s.parent[s.sess[p]] == NUM_PROC
    ensures forall j :: 1 <= j <= n ==> Ancestor(s, p, j) < NUM_PROC && s.status[Ancestor(s, p, j)] == Idle
  {
    var k := s.sess[p];
    assert OnItsStack(s, stacks, p);
    n := Position(s, k, stacks[k], p);
    assert MemberOk(s, k, stacks[k], 0);
    forall j | 0 <= j <= n
      ensures Ancestor(s, p, j) == stacks[k][n - j]
    {
      AncestorOnStack(s, k, stacks[k], n, j);
    }
    forall j | 1 <= j <= n
      ensures Ancestor(s, p, j) < NUM_PROC && s.status[Ancestor(s, p, j)] == Idle
    {
      assert MemberOk(s, k, stacks[k], n - j);
    }
  }

  /** Root shells stay; only the current process may be ACTIVE. */
  lemma RootsStay(s: State, stacks: seq<Stack>, p: nat)
    requires Inv(s, stacks) && p < NUM_PROC
    ensures p < NUM_SESS ==> s.status[p] != Inactive && s.parent[p] == NUM_PROC && s.sess[p] == p
    ensures p >= NUM_SESS && s.status[p] != Inactive ==>
      s.parent[p] < NUM_PROC && s.status[s.parent[p]] == Idle && s.sess[s.parent[p]] == s.sess[p]
    ensures s.status[p] == Active ==> p == s.cur
  {
    if p < NUM_SESS {
      assert MemberOk(s, p, stacks[p], 0);
      if |stacks[p]| == 1 {
        assert p == Top(stacks[p]);
      }
    } else if s.status[p] != Inactive {
      assert OnItsStack(s, stacks, p);
      var i := Position(s, s.sess[p], stacks[s.sess[p]], p);
      assert i > 0;
      assert MemberOk(s, s.sess[p], stacks[s.sess[p]], i - 1);
    }
  }

  /** The slot `child_pcb_init` finds once the caller is IDLE. */
  ghost predicate Vacant(s: State, c: nat)
    requires Shaped(s)
  {
    LowestInactive(s.status[s.cur := Idle], c)
  }

  lemma LowestOf(status: seq<Status>, p: nat) returns (c: nat)
    requires |status| == NUM_PROC && p < NUM_PROC && status[p] == Inactive
    ensures LowestInactive(status, c)
  {
    c := 0;
    while status[c] != Inactive
      invariant c <= p && forall q :: 0 <= q < c ==> status[q] != Inactive
      decreases p - c
    {
      c := c + 1;
    }
  }

  /** What the code relies on without checking: a next process, a vacant slot after the check, an IDLE parent. */
  lemma UncheckedStepsAreSafe(s: State, stacks: seq<Stack>)
    requires Inv(s, stacks)
    ensures Pending !in Preempted(s) ==> !IsNextPid(Preempted(s), s.cur, Daemon, NUM_PROC)
    ensures s.status[s.cur] != Pending && !IsNextPid(s.status, s.cur, Inactive, NUM_PROC) ==> exists c :: Vacant(s, c)
    ensures s.parent[s.cur] < NUM_PROC ==> s.status[s.parent[s.cur]] == Idle && s.sess[s.parent[s.cur]] == s.sess[s.cur]
    ensures s.parent[s.cur] == NUM_PROC <==> s.cur < NUM_SESS
  {
    SomeoneWaits(s, stacks);
    RunnableIsTop(s, stacks, s.cur);
    RootsStay(s, stacks, s.cur);
    if !IsNextPid(s.status, s.cur, Inactive, NUM_PROC) {
      var p :| 0 <= p < NUM_PROC && p != s.cur && s.status[p] == Inactive;
      var c := LowestOf(s.status[s.cur := Idle], p);
      assert Vacant(s, c);
    }
  }

  // ---------- bounded waiting ----------

  function Ticks(events: seq<Event>): nat {
    if events == [] then 0 else (if events[0] == Tick then 1 else 0) + Ticks(events[1..])
  }

  ghost predicate NoPending(s: State) {
    forall p :: 0 <= p < |s.status| ==> s.status[p] != Pending
  }

  /** w waits for the processor. */
  ghost predicate Waits(s: State, w: nat)
    requires Shaped(s)
  {
    w < NUM_PROC && w != s.cur && s.status[w] == Daemon
  }

  lemma ThirdSession(s: State, stacks: seq<Stack>, w: nat)
    requires Inv(s, stacks) && NoPending(s) && Waits(s, w)
    ensures s.sess[w] < NUM_SESS && s.sess[w] != s.sess[s.cur] && w == Top(stacks[s.sess[w]])
    ensures var k := NUM_SESS - s.sess[w] - s.sess[s.cur];
      && 0 <= k < NUM_SESS && k != s.sess[w] && k != s.sess[s.cur]
      && var o := Top(stacks[k]); o < NUM_PROC && o != w && o != s.cur && s.sess[o] == k && s.status[o] == Daemon
  {
    RunnableIsTop(s, stacks, w);
    var k := NUM_SESS - s.sess[w] - s.sess[s.cur];
    OthersWait(s, stacks, k);
    assert MemberOk(s, k, stacks[k], |stacks[k]| - 1);
  }

  /** Besides w and the current process, one more waits: the top of the third session. */
  ghost function OtherWaiter(s: State, stacks: seq<Stack>, w: nat): nat
    requires Inv(s, stacks) && NoPending(s) && Waits(s, w)
  {
    ThirdSession(s, stacks, w);
    Top(stacks[NUM_SESS - s.sess[w] - s.sess[s.cur]])
  }

  /** How far behind w the other waiter is, counted round from w. */
  ghost function Rank(s: State, stacks: seq<Stack>, w: nat): int
    requires Inv(s, stacks) && NoPending(s) && Waits(s, w)
  {
    Distance(w, OtherWaiter(s, stacks, w))
  }

  /** With no process PENDING, a tick switches to a process that waits. */
  lemma NextIsDaemon(s: State, stacks: seq<Stack>, s': State)
    requires Inv(s, stacks) && NoPending(s) && TickStep(s, s')
    ensures Shaped(s') && NoPending(s') && s'.cur != s.cur && s.status[s'.cur] == Daemon
    ensures IsNextPid(Preempted(s), s.cur, Daemon, s'.cur) && s' == s.(status := Preempted(s), cur := s'.cur)
  {
    assert Pending !in Preempted(s);
    SomeoneWaits(s, stacks);
  }

  lemma NextIsOther(s: State, stacks: seq<Stack>, s': State, w: nat)
    requires Inv(s, stacks) && NoPending(s) && Waits(s, w) && TickStep(s, s') && s'.cur != w
    ensures Shaped(s') && NoPending(s') && Waits(s', w)
    ensures s'.cur == OtherWaiter(s, stacks, w) && Distance(s.cur, s'.cur) < Distance(s.cur, w)
  {
    ThirdSession(s, stacks, w);
    NextIsDaemon(s, stacks, s');
    RunnableIsTop(s, stacks, s'.cur);
  }

  /** A tick that passes w over brings the other waiter strictly closer behind it. */
  lemma TickLowersRank(s: State, stacks: seq<Stack>, s': State, w: nat)
    requires Inv(s, stacks) && NoPending(s) && Waits(s, w) && TickStep(s, s') && s'.cur != w
    ensures Inv(s', stacks) && NoPending(s') && Waits(s', w)
    ensures 1 <= Rank(s', stacks, w) < Rank(s, stacks, w) <= NUM_PROC - 1
  {
    TickKeepsInv(s, stacks, s');
    ThirdSession(s, stacks, w);
    NextIsOther(s, stacks, s', w);
    ThirdSession(s', stacks, w);
    assert OtherWaiter(s', stacks, w) == s.cur;
  }

  /** The rank depends on the two waiters alone. */
  lemma SameRank(s: State, stacks: seq<Stack>, s': State, stacks': seq<Stack>, w: nat)
    requires Inv(s, stacks) && NoPending(s) && Waits(s, w) && Inv(s', stacks') && NoPending(s') && Waits(s', w)
    requires s'.sess[w] == s.sess[w] && s'.sess[s'.cur] == s.sess[s.cur]
    requires forall k :: 0 <= k < NUM_SESS && k != s.sess[s.cur] ==> stacks'[k] == stacks[k]
    ensures Rank(s', stacks', w) == Rank(s, stacks, w)
  {
    ThirdSession(s, stacks, w);
    ThirdSession(s', stacks', w);
  }

  /** A step of the running process other than a tick leaves the other sessions alone. */
  lemma StepIsLocal(s: State, stacks: seq<Stack>, e: Event, s': State, w: nat)
    requires Inv(s, stacks) && NoPending(s) && Waits(s, w) && Next(s, e, s') && !e.Tick? && !e.HaltRoot?
    ensures NoPending(s') && Waits(s', w) && s'.sess[w] == s.sess[w] && s'.sess[s'.cur] == s.sess[s.cur]
    ensures forall k :: 0 <= k < NUM_SESS && k != s.sess[s.cur] ==> StacksAfter(s, stacks, e, s')[k] == stacks[k]
  {
    RunnableIsTop(s, stacks, w);
    RunnableIsTop(s, stacks, s.cur);
    if e.HaltChild? {
      RootsStay(s, stacks, s.cur);
      ThirdSession(s, stacks, w);
    }
  }

  /** No other step of the running process moves w or the other waiter. */
  lemma StepKeepsRank(s: State, stacks: seq<Stack>, e: Event, s': State, w: nat)
    requires Inv(s, stacks) && NoPending(s) && Waits(s, w) && Next(s, e, s') && !e.Tick? && !e.HaltRoot?
    ensures Inv(s', StacksAfter(s, stacks, e, s')) && NoPending(s') && Waits(s', w)
    ensures Rank(s', StacksAfter(s, stacks, e, s'), w) == Rank(s, stacks, w)
  {
    InvKept(s, stacks, e, s');
    StepIsLocal(s, stacks, e, s', w);
    SameRank(s, stacks, s', StacksAfter(s, stacks, e, s'), w);
  }

  /** One step that passes w over: a tick lowers the rank, any other step keeps it. */
  lemma OneStep(s: State, stacks: seq<Stack>, e: Event, s': State, w: nat) returns (stacks': seq<Stack>)
    requires Inv(s, stacks) && NoPending(s) && Waits(s, w) && Next(s, e, s') && e != HaltRoot && s'.cur != w
    ensures Inv(s', stacks') && NoPending(s') && Waits(s', w)
    ensures Rank(s', stacks', w) + (if e == Tick then 1 else 0) <= Rank(s, stacks, w) <= NUM_PROC - 1
  {
    ThirdSession(s, stacks, w);
    stacks' := StacksAfter(s, stacks, e, s');
    if e == Tick {
      TickLowersRank(s, stacks, s', w);
    } else {
      StepKeepsRank(s, stacks, e, s', w);
    }
  }

  lemma RunTail(states: seq<State>, events: seq<Event>)
    requires IsRun(states, events) && events != []
    ensures IsRun(states[1..], events[1..]) && Next(states[0], events[0], states[1])
  {
    forall i | 0 <= i < |events[1..]|
      ensures Next(states[1..][i], events[1..][i], states[1..][i + 1])
    {
      assert Next(states[i + 1], events[i + 1], states[i + 2]);
    }
  }

  /** As long as w is passed over, its rank bounds the number of ticks. */
  lemma {:induction false} PassedOver(states: seq<State>, events: seq<Event>, stacks: seq<Stack>, w: nat)
    requires IsRun(states, events) && Inv(states[0], stacks) && NoPending(states[0]) && Waits(states[0], w)
    requires HaltRoot !in events && forall i :: 0 <= i < |states| ==> states[i].cur != w
    ensures Ticks(events) < Rank(states[0], stacks, w) <= NUM_PROC - 1
    decreases |events|
  {
    if events == [] {
      ThirdSession(states[0], stacks, w);
    } else {
      RunTail(states, events);
      var stacks' := OneStep(states[0], stacks, events[0], states[1], w);
      PassedOver(states[1..], events[1..], stacks', w);
    }
  }

  /**
   Bounded waiting: with every shell loaded and none halting, a waiting process becomes current within
   `NUM_PROC - 1` ticks, whatever the running processes execute and halt in between.
   */
  lemma BoundedWaiting(states: seq<State>, events: seq<Event>, stacks: seq<Stack>, w: nat)
    requires IsRun(states, events) && Inv(states[0], stacks) && NoPending(states[0]) && Waits(states[0], w)
    requires HaltRoot !in events && Ticks(events) >= NUM_PROC - 1
    ensures exists i :: 0 < i < |states| && states[i].cur == w
  {
    if forall i :: 0 <= i < |states| ==> states[i].cur != w {
      PassedOver(states, events, stacks, w);
    }
  }

  /** Every tick that finds PENDING processes loads one of them: their number falls by one. */
  lemma TickLoadsOne(s: State, stacks: seq<Stack>, s': State)
    requires Inv(s, stacks) && TickStep(s, s')
    ensures var waiting := set p | 0 <= p < NUM_PROC && s.status[p] == Pending;
      var waiting' := set p | 0 <= p < NUM_PROC && s'.status[p] == Pending;
      if waiting == {} then waiting' == {}
          else s'.cur in waiting && waiting' == waiting - {s'.cur} && |waiting'| == |waiting| - 1
  {
    var waiting := set p | 0 <= p < NUM_PROC && s.status[p] == Pending;
    var waiting' := set p | 0 <= p < NUM_PROC && s'.status[p] == Pending;
    var status := Preempted(s);
    assert forall p :: 0 <= p < NUM_PROC ==> (status[p] == Pending <==> s.status[p] == Pending);
    if waiting != {} {
      var p :| p in waiting;
      assert status[p] == Pending;
      assert s'.cur in waiting;
      assert waiting' == waiting - {s'.cur};
    }
  }

  // ---------- the bound is met ----------

  lemma TickTo(s: State, r: nat)
    requires Shaped(s) && NoPending(s) && r < NUM_PROC && r != s.cur && s.status[r] == Daemon
    requires s.status[s.cur] == Active || s.status[s.cur] == Daemon
    requires forall p :: 0 <= p < NUM_PROC && p != s.cur && s.status[p] == Daemon ==>
      Distance(s.cur, r) <= Distance(s.cur, p)
    ensures TickStep(s, s.(status := s.status[s.cur := Daemon], cur := r))
    ensures NoPending(s.(status := s.status[s.cur := Daemon], cur := r))
  {
    assert s.status[s.cur := Daemon] == Preempted(s);
  }

  lemma LoadTo(s: State, r: nat)
    requires Shaped(s) && r < NUM_PROC && s.status[r] == Pending && s.status[s.cur] == Active
    requires forall p :: 0 <= p < NUM_PROC && s.status[p] == Pending ==> Distance(s.cur, r) <= Distance(s.cur, p)
    ensures TickStep(s, s.(status := s.status[s.cur := Daemon][r := Active], cur := r))
  {
    assert Preempted(s)[r] == Pending;
  }

  lemma ExecTo(s: State, c: nat)
    requires Shaped(s) && c < NUM_PROC && s.status[c] == Inactive && s.status[s.cur] != Inactive
    requires forall p :: 0 <= p < c ==> s.status[p] != Inactive
    ensures ExecStep(s, State(s.status[s.cur := Idle][c := Active], s.parent[c := s.cur],
      s.sess[c := s.sess[s.cur]], c))
  {
  }

  lemma ThenHalt(s: State)
    requires Shaped(s) && NoPending(s) && s.parent[s.cur] < NUM_PROC
    ensures Next(s, HaltChild, s.(status := s.status[s.cur := Inactive][s.parent[s.cur] := Active], cur :=
      s.parent[s.cur]))
    ensures NoPending(s.(status := s.status[s.cur := Inactive][s.parent[s.cur] := Active], cur := s.parent[s.cur]))
  {
  }

  /** A state with two processes in session 1 above its root, one in session 2, and the root of session 0 waiting. */
  const CONTENDED: State := State([Daemon, Idle, Idle, Idle, Daemon, Daemon], [6, 6, 6, 1, 2, 3], [0, 1, 2, 1, 2, 1], 4)

  /** The first four steps from start-up: the two other shells are loaded, and each executes a program. */
  lemma LoadedRun(s: State) returns (states: seq<State>, events: seq<Event>)
    requires Init(s)
    ensures IsRun(states, events) && states[0] == s && events == [Tick, ExecSucceeds, Tick, ExecSucceeds]
    ensures states[4] == State([Daemon, Idle, Idle, Daemon, Active, Inactive], s.parent[3 := 1][4 := 2],
      s.sess[3 := 1][4 := 2], 4)
  {
    assert s.sess[1] == s.sess[..NUM_SESS][1] && s.sess[2] == s.sess[..NUM_SESS][2];
    LoadTo(s, 1);
    var s1 := s.(status := s.status[0 := Daemon][1 := Active], cur := 1);
    ExecTo(s1, 3);
    var s2 := State(s1.status[1 := Idle][3 := Active], s1.parent[3 := 1], s1.sess[3 := 1], 3);
    LoadTo(s2, 2);
    var s3 := s2.(status := s2.status[3 := Daemon][2 := Active], cur := 2);
    ExecTo(s3, 4);
    var s4 := State(s3.status[2 := Idle][4 := Active], s3.parent[4 := 2], s3.sess[4 := 2], 4);
    hide TickStep, ExecStep;
    states, events := [s, s1, s2, s3, s4], [Tick, ExecSucceeds, Tick, ExecSucceeds];
  }

  /** The state in which session 1 has just executed once more. */
  const DEEPER: State := CONTENDED.(status := [Daemon, Idle, Idle, Idle, Daemon, Active], cur := 5)

  lemma DeeperRun(s: State) returns (states: seq<State>, events: seq<Event>)
    requires Shaped(s) && s.status == [Daemon, Idle, Idle, Daemon, Active, Inactive] && s.cur == 4
    requires s.parent[..5] == [6, 6, 6, 1, 2] && s.sess[..5] == [0, 1, 2, 1, 2]
    ensures IsRun(states, events) && states[0] == s && events == [Tick, Tick, ExecSucceeds]
    ensures states[3] == DEEPER
  {
    TickTo(s, 0);
    var s1 := s.(status := [Daemon, Idle, Idle, Daemon, Daemon, Inactive], cur := 0);
    assert s1.status == s.status[4 := Daemon];
    TickTo(s1, 3);
    var s2 := s1.(cur := 3);
    assert s2.status == s1.status[0 := Daemon];
    assert s.parent == s.parent[..5] + [s.parent[5]] && s.sess == s.sess[..5] + [s.sess[5]];
    ExecTo(s2, 5);
    assert DEEPER == State(s2.status[3 := Idle][5 := Active], s2.parent[5 := 3], s2.sess[5 := 1], 5);
    hide TickStep, ExecStep;
    states, events := [s, s1, s2, DEEPER], [Tick, Tick, ExecSucceeds];
  }

  /** Now the processes of sessions 1 and 2 take turns. */
  lemma ContendedRun() returns (states: seq<State>, events: seq<Event>)
    ensures IsRun(states, events) && states[0] == DEEPER && events == [Tick, Tick] && states[2] == CONTENDED
  {
    TickTo(DEEPER, 0);
    var s := CONTENDED.(cur := 0);
    assert s.status == DEEPER.status[5 := Daemon];
    TickTo(s, 4);
    assert CONTENDED.status == s.status[0 := Daemon];
    hide TickStep, ExecStep;
    states, events := [DEEPER, s, CONTENDED], [Tick, Tick];
  }

  /** One run after another that begins where it ends. */
  lemma RunsJoin(states: seq<State>, events: seq<Event>, states': seq<State>, events': seq<Event>)
    requires IsRun(states, events) && IsRun(states', events') && states'[0] == states[|events|]
    ensures IsRun(states + states'[1..], events + events')
  {
    var all, steps := states + states'[1..], events + events';
    forall i | 0 <= i < |steps|
      ensures Next(all[i], steps[i], all[i + 1])
    {
      if i < |events| {
        assert Next(states[i], events[i], states[i + 1]);
      } else {
        assert Next(states'[i - |events|], events'[i - |events|], states'[i - |events| + 1]);
      }
    }
  }

  lemma {:induction false} TicksJoin(events: seq<Event>, events': seq<Event>)
    ensures Ticks(events + events') == Ticks(events) + Ticks(events')
    decreases |events|
  {
    if events == [] {
      assert events + events' == events';
    } else {
      assert (events + events')[1..] == events[1..] + events';
      TicksJoin(events[1..], events');
    }
  }

  /** A run in which process 0 is never current, no root halts, and the clock ticks n times. */
  ghost predicate Passing(states: seq<State>, events: seq<Event>, n: nat) {
    IsRun(states, events) && HaltRoot !in events && Ticks(events) == n &&
      forall i :: 0 <= i < |states| ==> states[i].cur != 0
  }

  lemma PassingJoin(states: seq<State>, events: seq<Event>, n: nat, states': seq<State>, events': seq<Event>, n': nat)
    requires Passing(states, events, n) && Passing(states', events', n') && states'[0] == states[|events|]
    ensures Passing(states + states'[1..], events + events', n + n')
  {
    RunsJoin(states, events, states', events');
    TicksJoin(events, events');
  }

  /** A tick to a process that then halts. */
  lemma Turn(s: State, r: nat) returns (states: seq<State>, events: seq<Event>)
    requires Shaped(s) && NoPending(s) && r < NUM_PROC && r != s.cur && s.status[r] == Daemon && s.parent[r] < NUM_PROC
    requires s.status[s.cur] == Active || s.status[s.cur] == Daemon
    requires forall p :: 0 <= p < NUM_PROC && p != s.cur && s.status[p] == Daemon ==>
      Distance(s.cur, r) <= Distance(s.cur, p)
    requires s.cur != 0 && r != 0 && s.parent[r] != 0
    ensures Passing(states, events, 1) && |events| == 2 && states[0] == s
    ensures states[2] == s.(status := s.status[s.cur := Daemon][r := Inactive][s.parent[r] := Active], cur :=
      s.parent[r])
    ensures NoPending(states[2])
  {
    TickTo(s, r);
    var s1 := s.(status := s.status[s.cur := Daemon], cur := r);
    ThenHalt(s1);
    var s2 := s1.(status := s1.status[r := Inactive][s.parent[r] := Active], cur := s.parent[r]);
    states, events := [s, s1, s2], [Tick, HaltChild];
    assert events[1..] == [HaltChild] && events[1..][1..] == [];
  }

  lemma LastTick(s: State) returns (states: seq<State>, events: seq<Event>)
    requires Shaped(s) && s.status == [Daemon, Active, Daemon, Inactive, Inactive, Inactive] && s.cur == 1
    ensures Passing(states, events, 1) && |events| == 1 && states[0] == s
  {
    TickTo(s, 2);
    states, events := [s, s.(status := s.status[1 := Daemon], cur := 2)], [Tick];
    assert events[1..] == [];
  }

  /** From there four ticks pass process 0 over: sessions 1 and 2 take turns and halt on each turn. */
  lemma PassingRun() returns (states: seq<State>, events: seq<Event>)
    ensures Passing(states, events, NUM_PROC - 2) && states[0] == CONTENDED
  {
    var a, ea := Turn(CONTENDED, 5);
    assert a[2].status == [Daemon, Idle, Idle, Active, Daemon, Inactive] && a[2].cur == 3;
    var b, eb := Turn(a[2], 4);
    assert b[2].status == [Daemon, Idle, Active, Daemon, Inactive, Inactive] && b[2].cur == 2;
    var c, ec := Turn(b[2], 3);
    assert c[2].status == [Daemon, Active, Daemon, Inactive, Inactive, Inactive] && c[2].cur == 1;
    var d, ed := LastTick(c[2]);
    hide Passing;
    PassingJoin(a, ea, 1, b, eb, 1);
    PassingJoin(a + b[1..], ea + eb, 2, c, ec, 1);
    PassingJoin(a + b[1..] + c[1..], ea + eb + ec, 3, d, ed, 1);
    states, events := a + b[1..] + c[1..] + d[1..], ea + eb + ec + ed;
  }

  /**
   The bound is met by a run from start-up: from some state of it on, with every shell loaded and no root halting, four
   ticks pass over a process that waits.
   */
  lemma BoundIsMet(s: State) returns (states: seq<State>, events: seq<Event>, m: nat)
    requires Init(s)
    ensures IsRun(states, events) && states[0] == s && m <= |events| && HaltRoot !in events
    ensures NoPending(states[m]) && Waits(states[m], 0) && Ticks(events[m..]) == NUM_PROC - 2
    ensures forall i :: m <= i < |states| ==> states[i].cur != 0
  {
    var a, ea := LoadedRun(s);
    assert s.parent == s.parent[..NUM_SESS] + s.parent[NUM_SESS..] && s.sess == s.sess[..NUM_SESS] + s.sess[NUM_SESS..];
    var b, eb := DeeperRun(a[4]);
    var c, ec := ContendedRun();
    var d, ed := PassingRun();
    assert IsRun(d, ed) && forall i :: 0 <= i < |d| ==> d[i].cur != 0;
    hide IsRun;
    RunsJoin(a, ea, b, eb);
    RunsJoin(a + b[1..], ea + eb, c, ec);
    RunsJoin(a + b[1..] + c[1..], ea + eb + ec, d, ed);
    states, events, m := a + b[1..] + c[1..] + d[1..], ea + eb + ec + ed, 9;
    assert events[9..] == ed;
  }
}
