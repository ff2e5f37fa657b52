/** How soon a root shell that has to be loaded, at start-up or after a halt, is loaded: whatever happens meanwhile. */
module Reloading {
  import opened ProcessTable
  import opened Scheduling

  /** A PENDING process is the root of its session, and alone there. */
  lemma PendingRoot(s: State, stacks: seq<Stack>, p: nat)
    requires Inv(s, stacks) && p < NUM_PROC && s.status[p] == Pending
    ensures p < NUM_SESS && s.sess[p] == p && s.parent[p] == NUM_PROC
    ensures s.sess[s.cur] == p <==> s.cur == p
  {
    RunnableIsTop(s, stacks, p);
    PendingIsRoot(s, stacks);
    assert SessionOk(s, s.sess[p], stacks[s.sess[p]]);
  }

  /**
   How many ticks may still pass root p over while it is PENDING: it depends on the session that runs and on whether the
   other roots are PENDING, in the order in which one counts up from p.
   */
  ghost function LoadRank(s: State, p: nat): nat
    requires Shaped(s) && p < NUM_SESS
  {
    var a, b, running := (p + 1) % 3, (p + 2) % 3, s.sess[s.cur];
    if running == a then (if s.status[b] == Pending then 2 else 0)
    else if running == b then (if s.status[a] == Pending then 1 else 0)
    else if s.status[a] == Pending && s.status[b] == Pending then 3
    else if s.status[a] == Pending || s.status[b] == Pending then 1 else 0
  }

  /** A tick with a PENDING process makes a PENDING process current, itself last. */
  lemma TickToPending(s: State, stacks: seq<Stack>, s': State, p: nat)
    requires Inv(s, stacks) && TickStep(s, s') && p < NUM_PROC && s.status[p] == Pending
    ensures s'.cur < NUM_SESS && s.status[s'.cur] == Pending && s.sess[s'.cur] == s'.cur
    ensures s' == s.(status := Preempted(s)[s'.cur := Active], cur := s'.cur)
    ensures s'.cur == s.cur ==> p == s.cur
    ensures p != s.cur && s'.cur != p ==> Distance(s.cur, s'.cur) < Distance(s.cur, p)
    ensures s'.cur != s.cur ==> forall q :: 0 <= q < NUM_SESS && q != s.cur && s.status[q] == Pending ==>
      Distance(s.cur, s'.cur) <= Distance(s.cur, q)
  {
    assert Preempted(s)[p] == Pending && Pending in Preempted(s);
    PendingRoot(s, stacks, s'.cur);
  }

  /** The arithmetic of it, over the three roots. */
  lemma RankFalls(s: State, s': State, p: nat)
    requires Shaped(s) && p < NUM_SESS && s.sess[s.cur] < NUM_SESS && s.status[p] == Pending
    requires s.sess[s.cur] == p ==> s.cur == p
    requires s.status[s.sess[s.cur]] == Pending ==> s.cur == s.sess[s.cur]
    requires s'.cur < NUM_SESS && s'.cur != p && s.status[s'.cur] == Pending && s.sess[s'.cur] == s'.cur
    requires s' == s.(status := Preempted(s)[s'.cur := Active], cur := s'.cur)
    requires s'.cur == s.cur ==> p == s.cur
    requires p != s.cur ==> Distance(s.cur, s'.cur) < Distance(s.cur, p)
    requires p == s.cur ==> forall q :: 0 <= q < NUM_SESS && q != p && s.status[q] == Pending ==>
      Distance(p, s'.cur) <= Distance(p, q)
    ensures s'.status[p] == Pending && LoadRank(s', p) < LoadRank(s, p)
  {
  }

  /** A tick loads p, or lowers its rank. */
  lemma TickLoads(s: State, stacks: seq<Stack>, s': State, p: nat)
    requires Inv(s, stacks) && TickStep(s, s') && p < NUM_PROC && s.status[p] == Pending
    ensures p < NUM_SESS && Shaped(s')
    ensures s'.cur == p ==> s'.status[p] == Active
    ensures s'.cur != p ==> s'.status[p] == Pending && LoadRank(s', p) < LoadRank(s, p)
  {
    PendingRoot(s, stacks, p);
    TickToPending(s, stacks, s', p);
    if s.sess[s.cur] < NUM_SESS && s.status[s.sess[s.cur]] == Pending {
      PendingRoot(s, stacks, s.sess[s.cur]);
    }
    hide TickStep, Inv;
    if s'.cur != p {
      RankFalls(s, s', p);
    }
  }

  lemma SessionOfCurrent(s: State, stacks: seq<Stack>)
    requires Inv(s, stacks)
    ensures s.sess[s.cur] < NUM_SESS
  {
  }

  /** Root q belongs to session q. */
  lemma SessionRoot(s: State, stacks: seq<Stack>, q: nat)
    requires Inv(s, stacks) && q < NUM_SESS
    ensures s.sess[q] == q && s.status[q] != Inactive
  {
    assert SessionOk(s, q, stacks[q]) && MemberOk(s, q, stacks[q], 0);
    RootsStay(s, stacks, q);
  }

  /** No other step takes anything from a PENDING root, not even the halt of another root. */
  lemma StepsKeep(s: State, stacks: seq<Stack>, e: Event, s': State, p: nat)
    requires Inv(s, stacks) && Next(s, e, s') && e != Tick && p < NUM_PROC && s.status[p] == Pending
    ensures p < NUM_SESS && Shaped(s') && s'.status[p] == Pending && LoadRank(s', p) == LoadRank(s, p)
  {
    PendingRoot(s, stacks, p);
    UncheckedStepsAreSafe(s, stacks);
    SessionOfCurrent(s, stacks);
    var k := s.sess[s.cur];
    forall q: nat | q < NUM_SESS && q != k
      ensures s'.status[q] == Pending <==> s.status[q] == Pending
    {
      SessionRoot(s, stacks, q);
    }
    assert s'.sess[s'.cur] == k;
  }

  ghost predicate LoadedBy(s: State, p: nat) {
    s.cur == p && p < |s.status| && s.status[p] == Active
  }

  /** Root p has been loaded by one of the steps. */
  ghost predicate Loaded(states: seq<State>, events: seq<Event>, p: nat) {
    exists i: nat :: i < |events| && i + 1 < |states| && events[i] == Tick && LoadedBy(states[i + 1], p)
  }

  lemma LaterOnly(states: seq<State>, events: seq<Event>, p: nat)
    requires IsRun(states, events) && events != [] && !Loaded(states, events, p)
    ensures !Loaded(states[1..], events[1..], p)
  {
  }

  /** As long as p is not loaded its rank bounds the number of ticks. */
  lemma {:induction false} PassedByTicks(states: seq<State>, events: seq<Event>, stacks: seq<Stack>, p: nat)
    requires IsRun(states, events) && Inv(states[0], stacks) && p < NUM_PROC && states[0].status[p] == Pending
    requires !Loaded(states, events, p)
    ensures p < NUM_SESS && Ticks(events) <= LoadRank(states[0], p) <= 3
    decreases |events|
  {
    PendingRoot(states[0], stacks, p);
    if events != [] {
      RunTail(states, events);
      InvKept(states[0], stacks, events[0], states[1]);
      assert !LoadedBy(states[1], p) || events[0] != Tick;
      LaterOnly(states, events, p);
      if events[0] == Tick {
        TickLoads(states[0], stacks, states[1], p);
      } else {
        StepsKeep(states[0], stacks, events[0], states[1], p);
      }
      hide Inv, Next, LoadRank, IsRun;
      PassedByTicks(states[1..], events[1..], StacksAfter(states[0], stacks, events[0], states[1]), p);
    }
  }

  /**
   A root shell that has to be loaded is current and ACTIVE after one of the next four ticks, whatever is executed and
   halted meanwhile, root shells included.
   */
  lemma PendingIsLoaded(states: seq<State>, events: seq<Event>, stacks: seq<Stack>, p: nat)
    requires IsRun(states, events) && Inv(states[0], stacks) && p < NUM_PROC && states[0].status[p] == Pending
    requires Ticks(events) >= 4
    ensures Loaded(states, events, p)
  {
    if !Loaded(states, events, p) {
      PassedByTicks(states, events, stacks, p);
    }
  }

  /** A root shell that halts is loaded again by one of the next four ticks. */
  lemma HaltedRootIsLoaded(s: State, stacks: seq<Stack>, states: seq<State>, events: seq<Event>)
    requires Inv(s, stacks) && IsRun(states, events) && Next(s, HaltRoot, states[0]) && Ticks(events) >= 4
    ensures s.cur < NUM_SESS && states[0].cur == s.cur && states[0].status[s.cur] == Pending
    ensures Loaded(states, events, s.cur)
  {
    InvKept(s, stacks, HaltRoot, states[0]);
    RootsStay(s, stacks, s.cur);
    UncheckedStepsAreSafe(s, stacks);
    PendingIsLoaded(states, events, StacksAfter(s, stacks, HaltRoot, states[0]), s.cur);
  }
}
