/**
 The process table of src/proc.c and the transitions that src/sched.c and src/syscall.c make on it, as
 relations between states; and the invariant of every state the kernel can reach: three sessions, each a
 stack of processes of which only the top one can run.
 */
module ProcessTable {

  const NUM_PROC: nat := 6
  const NUM_SESS: nat := 3

  datatype Status = Inactive | Active | Daemon | Pending | Idle

  /** `proc_status`, the `parent_pid` and `active_sess` of each PCB, and the pid of `cur_proc_pcb`. */
  datatype State = State(status: seq<Status>, parent: seq<nat>, sess: seq<nat>, cur: nat)

  ghost predicate Shaped(s: State) {
    |s.status| == |s.parent| == |s.sess| == NUM_PROC && s.cur < NUM_PROC
  }

  // ---------- round robin ----------

  /** How many pids further on b comes when one counts round from a; a itself comes last. */
  function Distance(a: nat, b: nat): int {
    if b > a then b - a else b + NUM_PROC - a
  }

  /** What `get_next_pid` answers: the next pid round from `cur` with that status, `NUM_PROC` if there is no other. */
  ghost predicate IsNextPid(status: seq<Status>, cur: nat, st: Status, r: nat)
    requires |status| == NUM_PROC
  {
    if r < NUM_PROC then
      && r != cur && status[r] == st
      && forall p :: 0 <= p < NUM_PROC && p != cur && status[p] == st ==> Distance(cur, r) <= Distance(cur, p)
    else
      && r == NUM_PROC
      && forall p :: 0 <= p < NUM_PROC && p != cur ==> status[p] != st
  }

  lemma NextPidUnique(status: seq<Status>, cur: nat, st: Status, r: nat, r': nat)
    requires |status| == NUM_PROC && cur < NUM_PROC
    requires IsNextPid(status, cur, st, r) && IsNextPid(status, cur, st, r')
    ensures r == r'
  {
  }

  // ---------- transitions ----------

  /** What one atomic entry into the kernel can do to the process table. */
  datatype Event =
    | Tick                // do_sched
    | ExecTableFull       // sys_execute: the check at its head fails
    | ExecFails           // sys_execute: bad command, no such file, or not an executable
    | ExecSucceeds
    | HaltChild           // kill_pid of a process with a parent
    | HaltRoot            // kill_pid of a root shell

  /** The first thing `do_sched` does: the running process steps back. */
  function Preempted(s: State): seq<Status>
    requires |s.status| == NUM_PROC && s.cur < NUM_PROC
  {
    if s.status[s.cur] == Active then s.status[s.cur := Daemon] else s.status
  }

  ghost predicate TickStep(s: State, s': State)
    requires Shaped(s)
  {
    var status := Preempted(s);
    if Pending in status then
      && s'.cur < NUM_PROC
      && (IsNextPid(status, s.cur, Pending, s'.cur) || (s'.cur == s.cur && IsNextPid(status, s.cur, Pending, NUM_PROC)))
      && s' == s.(status := status[s'.cur := Active], cur := s'.cur)
    else
      IsNextPid(status, s.cur, Daemon, s'.cur) && s' == s.(status := status, cur := s'.cur)
  }

  /** The vacant slot `child_pcb_init` takes: the lowest. */
  ghost predicate LowestInactive(status: seq<Status>, c: nat)
    requires |status| == NUM_PROC
  {
    c < NUM_PROC && status[c] == Inactive && forall p :: 0 <= p < c ==> status[p] != Inactive
  }

  ghost predicate ExecStep(s: State, s': State)
    requires Shaped(s)
  {
    var c := s'.cur;
    && LowestInactive(s.status[s.cur := Idle], c)
    && s' == State(s.status[s.cur := Idle][c := Active], s.parent[c := s.cur], s.sess[c := s.sess[s.cur]], c)
  }

  /** A process that has halted as a root spins until the next tick; every other step is one of the running process. */
  ghost predicate Next(s: State, e: Event, s': State)
    requires Shaped(s)
  {
    match e
    case Tick => TickStep(s, s')
    case ExecTableFull => s.status[s.cur] != Pending && IsNextPid(s.status, s.cur, Inactive, NUM_PROC) && s' == s
    case ExecFails => s.status[s.cur] != Pending && !IsNextPid(s.status, s.cur, Inactive, NUM_PROC) &&
        s' == s.(status := s.status[s.cur := Daemon])
    case ExecSucceeds => s.status[s.cur] != Pending && ExecStep(s, s')
    case HaltChild =>
      && s.status[s.cur] != Pending && s.parent[s.cur] < NUM_PROC
      && s' == s.(status := s.status[s.cur := Inactive][s.parent[s.cur] := Active], cur := s.parent[s.cur])
    case HaltRoot =>
      && s.status[s.cur] != Pending && s.parent[s.cur] == NUM_PROC
      && s' == s.(status := s.status[s.cur := Pending])
  }

  // ---------- the invariant ----------

  /** The processes of one session, root shell first. */
  type Stack = seq<nat>

  function Top(st: Stack): nat
    requires st != []
  {
    st[|st| - 1]
  }

  predicate Runnable(status: Status) {
    status == Active || status == Daemon || status == Pending
  }

  /** The i-th process of session k: the child of the one below it, and waiting unless it is the top. */
  ghost predicate MemberOk(s: State, k: nat, st: Stack, i: nat)
    requires Shaped(s)
  {
    && i < |st| && st[i] < NUM_PROC && s.sess[st[i]] == k
    && s.parent[st[i]] == (if i == 0 then NUM_PROC else st[i - 1])
    && (i < |st| - 1 ==> s.status[st[i]] == Idle)
  }

  /**
   Session k is a chain of distinct processes from root shell k; only its top process can run, and only a root can be
   PENDING.
   */
  ghost predicate SessionOk(s: State, k: nat, st: Stack)
    requires Shaped(s)
  {
    && |st| >= 1 && st[0] == k
    && (forall i: nat {:trigger MemberOk(s, k, st, i)} :: i < |st| ==> MemberOk(s, k, st, i))
    && (forall i, j :: 0 <= i < j < |st| ==> st[i] != st[j])
    && Top(st) < NUM_PROC && Runnable(s.status[Top(st)])
    && (s.status[Top(st)] == Pending ==> |st| == 1)
  }

  ghost predicate OnItsStack(s: State, stacks: seq<Stack>, p: nat)
    requires Shaped(s) && |stacks| == NUM_SESS && p < NUM_PROC
  {
    s.sess[p] < NUM_SESS && p in stacks[s.sess[p]]
  }

  /** The three stacks hold exactly the live processes; the current process is on top of its own; no other is ACTIVE. */
  ghost predicate Inv(s: State, stacks: seq<Stack>) {
    && Shaped(s) && |stacks| == NUM_SESS
    && (forall k :: 0 <= k < NUM_SESS ==> SessionOk(s, k, stacks[k]))
    && (forall p: nat {:trigger OnItsStack(s, stacks, p)} :: p < NUM_PROC && s.status[p] != Inactive ==>
        OnItsStack(s, stacks, p))
    && s.sess[s.cur] < NUM_SESS && s.cur == Top(stacks[s.sess[s.cur]])
    && (forall p :: 0 <= p < NUM_PROC && s.status[p] == Active ==> p == s.cur)
  }

  /** After `terminal_init` and the first execute: shell 0 runs, shells 1 and 2 wait to be loaded. */
  ghost predicate Init(s: State) {
    && Shaped(s) && s.cur == 0
    && s.status == [Active, Pending, Pending, Inactive, Inactive, Inactive]
    && s.parent[..NUM_SESS] == [NUM_PROC, NUM_PROC, NUM_PROC]
    && s.sess[..NUM_SESS] == [0, 1, 2]
  }

  lemma InitInv(s: State)
    requires Init(s)
    ensures Inv(s, [[0], [1], [2]])
  {
    assert s.parent[0] == s.parent[..NUM_SESS][0] && s.parent[1] == s.parent[..NUM_SESS][1] &&
        s.parent[2] == s.parent[..NUM_SESS][2];
    assert s.sess[0] == s.sess[..NUM_SESS][0] && s.sess[1] == s.sess[..NUM_SESS][1] &&
        s.sess[2] == s.sess[..NUM_SESS][2];
  }

  /** Execute pushes on the stack of the current session, a halt pops it, and nothing else touches the stacks. */
  ghost function StacksAfter(s: State, stacks: seq<Stack>, e: Event, s': State): seq<Stack>
    requires Inv(s, stacks)
  {
    var k := s.sess[s.cur];
    match e
    case ExecSucceeds => stacks[k := stacks[k] + [s'.cur]]
    case HaltChild => stacks[k := stacks[k][..|stacks[k]| - 1]]
    case _ => stacks
  }

  /** The tops of the other two sessions wait, so the search for a DAEMON or PENDING process never comes back empty. */
  lemma OthersWait(s: State, stacks: seq<Stack>, k: nat)
    requires Inv(s, stacks) && k < NUM_SESS && k != s.sess[s.cur]
    ensures var p := Top(stacks[k]); p != s.cur && p < NUM_PROC && (s.status[p] == Daemon || s.status[p] == Pending)
  {
    var kc := s.sess[s.cur];
    assert MemberOk(s, k, stacks[k], |stacks[k]| - 1);
    assert MemberOk(s, kc, stacks[kc], |stacks[kc]| - 1);
  }

  /** Where a process of a session sits, and what holds of it. */
  lemma Position(s: State, k: nat, st: Stack, p: nat) returns (i: nat)
    requires Shaped(s) && SessionOk(s, k, st) && p in st
    ensures i < |st| && st[i] == p && MemberOk(s, k, st, i)
    ensures i == |st| - 1 <==> p == Top(st)
  {
    i :| 0 <= i < |st| && st[i] == p;
    assert MemberOk(s, k, st, i) && MemberOk(s, k, st, |st| - 1);
  }

  /**
   A session is untouched when its processes are, up to another runnable status for its top; PENDING only for a root.
   */
  lemma SessionFrame(s: State, s': State, k: nat, st: Stack)
    requires Shaped(s) && Shaped(s') && SessionOk(s, k, st)
    requires forall p :: p in st && p < NUM_PROC ==> s'.parent[p] == s.parent[p] && s'.sess[p] == s.sess[p]
    requires forall p :: p in st && p < NUM_PROC && p != Top(st) ==> s'.status[p] == s.status[p]
    requires Runnable(s'.status[Top(st)]) && (s'.status[Top(st)] == Pending ==> |st| == 1)
    ensures SessionOk(s', k, st)
  {
    forall i: nat | i < |st|
      ensures MemberOk(s', k, st, i)
    {
      assert MemberOk(s, k, st, i) && st[i] in st;
    }
  }

  /** Only tops can run: in each session exactly one process is ACTIVE, DAEMON or PENDING. */
  lemma RunnableIsTop(s: State, stacks: seq<Stack>, p: nat)
    requires Inv(s, stacks) && p < NUM_PROC
    ensures Runnable(s.status[p]) <==> s.sess[p] < NUM_SESS && p == Top(stacks[s.sess[p]])
  {
    if Runnable(s.status[p]) {
      assert OnItsStack(s, stacks, p);
      var i := Position(s, s.sess[p], stacks[s.sess[p]], p);
    } else if s.sess[p] < NUM_SESS {
      assert SessionOk(s, s.sess[p], stacks[s.sess[p]]);
    }
  }

  /** A step that leaves the stacks alone and gives some of their tops another runnable status. */
  lemma StatusOfTops(s: State, stacks: seq<Stack>, s': State)
    requires Inv(s, stacks) && Shaped(s') && s'.parent == s.parent && s'.sess == s.sess
    requires forall p :: 0 <= p < NUM_PROC && s'.status[p] != s.status[p] ==>
      Runnable(s.status[p]) && Runnable(s'.status[p])
    requires forall p :: 0 <= p < NUM_PROC && s'.status[p] == Pending ==> s.parent[p] == NUM_PROC
    requires forall p :: 0 <= p < NUM_PROC && s'.status[p] == Active ==> p == s'.cur
    requires Runnable(s.status[s'.cur])
    ensures Inv(s', stacks)
  {
    forall k | 0 <= k < NUM_SESS
      ensures SessionOk(s', k, stacks[k])
    {
      var st := stacks[k];
      assert SessionOk(s, k, st);
      forall p | p in st && p < NUM_PROC && p != Top(st)
        ensures s'.status[p] == s.status[p]
      {
        var i := Position(s, k, st, p);
      }
      assert MemberOk(s, k, st, |st| - 1);
      assert |st| > 1 ==> MemberOk(s, k, st, |st| - 2);
      SessionFrame(s, s', k, st);
    }
    RunnableIsTop(s, stacks, s'.cur);
    forall p: nat | p < NUM_PROC && s'.status[p] != Inactive
      ensures OnItsStack(s', stacks, p)
    {
      assert OnItsStack(s, stacks, p);
    }
  }

  lemma PendingIsRoot(s: State, stacks: seq<Stack>)
    requires Inv(s, stacks)
    ensures forall p :: 0 <= p < NUM_PROC && s.status[p] == Pending ==> s.parent[p] == NUM_PROC
  {
    forall p | 0 <= p < NUM_PROC && s.status[p] == Pending
      ensures s.parent[p] == NUM_PROC
    {
      RunnableIsTop(s, stacks, p);
      var i := Position(s, s.sess[p], stacks[s.sess[p]], p);
    }
  }

  /** Another process is always waiting, so the unchecked search of `do_sched` finds one. */
  lemma SomeoneWaits(s: State, stacks: seq<Stack>)
    requires Inv(s, stacks)
    ensures exists p :: 0 <= p < NUM_PROC && p != s.cur && (s.status[p] == Daemon || s.status[p] == Pending)
    ensures Pending !in Preempted(s) ==> !IsNextPid(Preempted(s), s.cur, Daemon, NUM_PROC)
  {
    var k := if s.sess[s.cur] == 0 then 1 else 0;
    OthersWait(s, stacks, k);
    var p := Top(stacks[k]);
    assert Preempted(s)[p] == s.status[p];
  }

  lemma TickKeepsInv(s: State, stacks: seq<Stack>, s': State)
    requires Inv(s, stacks) && TickStep(s, s')
    ensures Inv(s', stacks) && Runnable(s.status[s'.cur])
  {
    RunnableIsTop(s, stacks, s.cur);
    PendingIsRoot(s, stacks);
    SomeoneWaits(s, stacks);
    var status := Preempted(s);
    if Pending in status && s'.cur == s.cur {
      var p :| 0 <= p < NUM_PROC && status[p] == Pending;
    }
    StatusOfTops(s, stacks, s');
  }

  /** Every process on a stack is live, and lies on the stack of its own session only. */
  lemma LiveInStack(s: State, stacks: seq<Stack>, k: nat)
    requires Inv(s, stacks) && k < NUM_SESS
    ensures forall p :: p in stacks[k] ==> p < NUM_PROC && s.status[p] != Inactive && s.sess[p] == k
    ensures s.cur in stacks[k] <==> k == s.sess[s.cur]
  {
    assert Top(stacks[s.sess[s.cur]]) in stacks[s.sess[s.cur]];
    forall p | p in stacks[k]
      ensures p < NUM_PROC && s.status[p] != Inactive && s.sess[p] == k
    {
      var i := Position(s, k, stacks[k], p);
    }
  }

  lemma ExecSession(s: State, k: nat, st: Stack, s': State)
    requires Shaped(s) && SessionOk(s, k, st) && s.cur == Top(st) && ExecStep(s, s')
    requires s.status[s.cur] != Pending && forall p :: p in st ==> p < NUM_PROC && s.status[p] != Inactive
    ensures SessionOk(s', k, st + [s'.cur])
  {
    var st' := st + [s'.cur];
    assert MemberOk(s, k, st, |st| - 1);
    assert s.status[s'.cur] == Inactive;
    forall i: nat | i < |st'|
      ensures MemberOk(s', k, st', i)
      ensures i < |st| ==> st'[i] != s'.cur
    {
      if i < |st| {
        assert MemberOk(s, k, st, i) && st[i] in st;
      }
    }
  }

  lemma ExecKeepsInv(s: State, stacks: seq<Stack>, s': State)
    requires Inv(s, stacks) && s.status[s.cur] != Pending && ExecStep(s, s')
    ensures Inv(s', StacksAfter(s, stacks, ExecSucceeds, s'))
  {
    var kc, stacks' := s.sess[s.cur], StacksAfter(s, stacks, ExecSucceeds, s');
    forall k | 0 <= k < NUM_SESS
      ensures SessionOk(s', k, stacks'[k])
    {
      LiveInStack(s, stacks, k);
      assert SessionOk(s, k, stacks[k]);
      if k != kc {
        OthersWait(s, stacks, k);
        SessionFrame(s, s', k, stacks[k]);
      } else {
        ExecSession(s, kc, stacks[k], s');
      }
    }
    assert s'.cur == Top(stacks'[kc]);
    forall p: nat | p < NUM_PROC && s'.status[p] != Inactive
      ensures OnItsStack(s', stacks', p)
    {
      assert p != s'.cur ==> OnItsStack(s, stacks, p);
    }
  }

  lemma HaltSession(s: State, k: nat, st: Stack, s': State)
    requires Shaped(s) && SessionOk(s, k, st) && s.cur == Top(st) && Next(s, HaltChild, s')
    ensures |st| >= 2 && s'.cur == st[|st| - 2] && s.status[s'.cur] == Idle && s.sess[s'.cur] == k
    ensures Shaped(s') && SessionOk(s', k, st[..|st| - 1])
  {
    var rest := st[..|st| - 1];
    assert MemberOk(s, k, st, |st| - 1);
    assert MemberOk(s, k, st, |st| - 2);
    forall i: nat | i < |rest|
      ensures MemberOk(s', k, rest, i)
    {
      assert MemberOk(s, k, st, i);
    }
  }

  lemma HaltMembers(s: State, stacks: seq<Stack>, s': State)
    requires Inv(s, stacks) && Next(s, HaltChild, s')
    ensures forall p: nat {:trigger OnItsStack(s', StacksAfter(s, stacks, HaltChild, s'), p)} ::
      p < NUM_PROC && s'.status[p] != Inactive ==> OnItsStack(s', StacksAfter(s, stacks, HaltChild, s'), p)
  {
    var kc := s.sess[s.cur];
    var st := stacks[kc];
    HaltSession(s, kc, st, s');
    forall p: nat | p < NUM_PROC && s'.status[p] != Inactive
      ensures OnItsStack(s', StacksAfter(s, stacks, HaltChild, s'), p)
    {
      assert OnItsStack(s, stacks, p);
      if s.sess[p] == kc {
        var i := Position(s, kc, st, p);
        assert p == st[..|st| - 1][i];
      }
    }
  }

  lemma HaltKeepsInv(s: State, stacks: seq<Stack>, s': State)
    requires Inv(s, stacks) && Next(s, HaltChild, s')
    ensures Inv(s', StacksAfter(s, stacks, HaltChild, s'))
    ensures s.status[s.parent[s.cur]] == Idle
  {
    var kc, stacks' := s.sess[s.cur], StacksAfter(s, stacks, HaltChild, s');
    HaltSession(s, kc, stacks[kc], s');
    HaltMembers(s, stacks, s');
    forall k | 0 <= k < NUM_SESS
      ensures SessionOk(s', k, stacks'[k])
    {
      if k != kc {
        LiveInStack(s, stacks, k);
        OthersWait(s, stacks, k);
        SessionFrame(s, s', k, stacks[k]);
      }
    }
    assert s'.cur == Top(stacks'[kc]);
  }

  /** Every step keeps the invariant. */
  lemma InvKept(s: State, stacks: seq<Stack>, e: Event, s': State)
    requires Inv(s, stacks) && Next(s, e, s')
    ensures Inv(s', StacksAfter(s, stacks, e, s'))
  {
    match e
    case Tick => TickKeepsInv(s, stacks, s');
    case ExecTableFull =>
    case ExecFails =>
      PendingIsRoot(s, stacks);
      RunnableIsTop(s, stacks, s.cur);
      StatusOfTops(s, stacks, s');
    case ExecSucceeds => ExecKeepsInv(s, stacks, s');
    case HaltChild => HaltKeepsInv(s, stacks, s');
    case HaltRoot =>
      PendingIsRoot(s, stacks);
      RunnableIsTop(s, stacks, s.cur);
      StatusOfTops(s, stacks, s');
  }
}
