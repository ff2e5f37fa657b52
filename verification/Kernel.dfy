/**
 The process life cycle as the kernel performs it: src/proc.c, `do_sched` of src/sched.c, `sys_execute` and
 `sys_halt` of src/syscall.c, and the address space they switch.
 */
module Kernel {
  import opened Bitmap
  import opened Paging
  import opened ProcessTable

  const KERNEL_BOT: nat := 0x80_0000
  const KSTACK_SIZE: nat := 0x2000
  const PROG_PAGE_SIZE: nat := 0x40_0000

  // ---------- addresses ----------

  /** `get_pcb_by_pid` */
  function PcbAddress(pid: nat): word
    requires pid <= NUM_PROC
  {
    KERNEL_BOT - KSTACK_SIZE * (pid + 1)
  }

  /** `get_esp0_by_pid` */
  function Esp0(pid: nat): word
    requires pid < NUM_PROC
  {
    KERNEL_BOT - KSTACK_SIZE * pid - 4
  }

  /** `get_phys_addr_by_pid` */
  function PhysAddr(pid: nat): word
    requires pid < NUM_PROC
  {
    KERNEL_BOT + pid * PROG_PAGE_SIZE
  }

  /** `get_cur_pcb`: the stack pointer with its thirteen low bits masked off. */
  function CurPcb(esp: word): word {
    esp - esp % KSTACK_SIZE
  }

  /** Anywhere on the kernel stack of a process, the mask finds that process's PCB. */
  lemma MaskFindsPcb(pid: nat, esp: word)
    requires pid < NUM_PROC && PcbAddress(pid) <= esp <= Esp0(pid)
    ensures CurPcb(esp) == PcbAddress(pid)
  {
    var top := KERNEL_BOT / KSTACK_SIZE - (pid + 1);
    assert PcbAddress(pid) == top * KSTACK_SIZE;
    assert esp / KSTACK_SIZE == top;
  }

  /** The kernel stacks are whole, one below the other, each behind the control block of its process. */
  lemma StacksApart(pid: nat, pid': nat)
    requires pid < NUM_PROC && pid' < NUM_PROC
    ensures Esp0(pid) + 4 == PcbAddress(pid) + KSTACK_SIZE <= 0x80_0000
    ensures pid < pid' ==> Esp0(pid') + 4 <= PcbAddress(pid)
    ensures CurPcb(Esp0(pid)) == PcbAddress(pid) == 0x80_0000 - 0x2000 * (pid + 1)
  {
    MaskFindsPcb(pid, Esp0(pid));
  }

  /** What the processor makes of an address whose directory entry is that of a large page. */
  function Walk(directory: seq<word>, virt: word, user: bool, write: bool): Access
    requires |directory| == NUM_PDE
  {
    WalkDirectory(directory[PdeIndex(virt)], virt, user, write)
  }

  /** The user window shows the frame of process `pid`. */
  ghost predicate Shows(directory: seq<word>, pid: nat)
    requires |directory| == NUM_PDE && pid < NUM_PROC
  {
    directory[PdeIndex(USER_VIRT_TOP)] == LargePageEntry(PhysAddr(pid))
  }

  /** Every access to the user window then reaches the same offset in that frame. */
  lemma WindowShowsFrame(directory: seq<word>, pid: nat, virt: word, user: bool, write: bool)
    requires |directory| == NUM_PDE && pid < NUM_PROC && Shows(directory, pid)
    requires 0x800_0000 <= virt < 0x840_0000
    ensures Walk(directory, virt, user, write) == Reached(0x80_0000 + 0x40_0000 * pid + (virt - 0x800_0000))
  {
    assert PdeIndex(virt) == PdeIndex(USER_VIRT_TOP) == 32;
    assert PhysAddr(pid) / 0x40_0000 == 2 + pid;
    LargePageIsWalked(PhysAddr(pid), virt, user, write);
  }

  /** Frames of different processes, the kernel's own page and the heap frames do not meet. */
  lemma FramesApart(directory: seq<word>, pid: nat, virt: word, directory': seq<word>, pid': nat, virt': word)
    requires |directory| == |directory'| == NUM_PDE && pid < NUM_PROC && pid' < NUM_PROC
    requires Shows(directory, pid) && Shows(directory', pid')
    requires 0x800_0000 <= virt < 0x840_0000 && 0x800_0000 <= virt' < 0x840_0000
    ensures var here, there := Walk(directory, virt, true, true), Walk(directory', virt', true, true);
      && here.Reached? && there.Reached? && (here == there <==> pid == pid' && virt == virt')
      && 0x80_0000 <= here.phys < 0x200_0000
  {
    WindowShowsFrame(directory, pid, virt, true, true);
    WindowShowsFrame(directory', pid', virt', true, true);
  }

  /**
   What a process runs with: its own kernel stack, and an address space in which user code reads and writes its own
   frame at every address of the window.
   */
  ghost predicate RunsWith(directory: seq<word>, esp0: word, pid: nat) {
    && |directory| == NUM_PDE && pid < NUM_PROC && esp0 == 0x80_0000 - 0x2000 * pid - 4
    && directory[32] == 0x40_0000 * (2 + pid) + 0x80 + 4 + 2 + 1
    && forall virt: word, user, write :: 0x800_0000 <= virt < 0x840_0000 ==>
        Walk(directory, virt, user, write) == Reached(0x80_0000 + 0x40_0000 * pid + (virt - 0x800_0000))
  }

  lemma ShownRuns(directory: seq<word>, pid: nat)
    requires |directory| == NUM_PDE && pid < NUM_PROC && Shows(directory, pid)
    ensures RunsWith(directory, Esp0(pid), pid)
  {
    forall virt: word, user, write | 0x800_0000 <= virt < 0x840_0000
      ensures Walk(directory, virt, user, write) == Reached(0x80_0000 + 0x40_0000 * pid + (virt - 0x800_0000))
    {
      WindowShowsFrame(directory, pid, virt, user, write);
    }
    assert PdeIndex(USER_VIRT_TOP) == 32 && PhysAddr(pid) % 0x40_0000 == 0;
  }

  // ---------- counting ----------

  /** How many of the first n processes have a status. */
  function Count(status: seq<Status>, st: Status, n: nat): nat
    requires n <= |status|
  {
    if n == 0 then 0 else Count(status, st, n - 1) + if status[n - 1] == st then 1 else 0
  }

  lemma {:induction false} CountBounds(status: seq<Status>, st: Status, n: nat)
    requires n <= |status|
    ensures Count(status, st, n) <= n
    ensures Count(status, st, n) > 0 <==> exists p :: 0 <= p < n && status[p] == st
    ensures Count(status, st, n) == n <==> forall p :: 0 <= p < n ==> status[p] == st
  {
    if n == 0 {
    } else {
      CountBounds(status, st, n - 1);
    }
  }

  lemma WithLast(status: seq<Status>, st: Status, n: nat)
    requires 0 < n <= |status|
    ensures var before, all := set p: nat | p < n - 1 && status[p] == st, set p: nat | p < n && status[p] == st;
      |all| == |before| + if status[n - 1] == st then 1 else 0
  {
    var before, all := set p: nat | p < n - 1 && status[p] == st, set p: nat | p < n && status[p] == st;
    if status[n - 1] == st {
      assert all == before + {n - 1};
    } else {
      assert all == before;
    }
  }

  /** The processes with a status, as a set. */
  lemma {:induction false} CountIsCard(status: seq<Status>, st: Status, n: nat)
    requires n <= |status|
    ensures Count(status, st, n) == |set p: nat | p < n && status[p] == st|
  {
    if n > 0 {
      CountIsCard(status, st, n - 1);
      WithLast(status, st, n);
    }
  }

  // ---------- what the calls do to the tables ----------

  /** p is another process with this status, and none with it comes before when one counts up from c, round at six. */
  predicate NearestUp(status: seq<Status>, c: nat, st: Status, p: nat) {
    && |status| == 6 && p < 6 && p != c && status[p] == st
    && forall q: nat :: q < 6 && q != c && status[q] == st ==> (p + 6 - c) % 6 <= (q + 6 - c) % 6
  }

  /** Whatever the status of c, no other process has this one. */
  predicate AloneAmong(status: seq<Status>, c: nat, st: Status) {
    forall p: nat :: p < |status| && p != c ==> status[p] != st
  }

  /** The next process after the current one, c, has stepped back. */
  predicate Chosen(back: seq<Status>, c: nat, after: seq<Status>, d: nat) {
    && |back| == 6 && d < 6
    && if forall p: nat :: p < 6 ==> back[p] != Pending then NearestUp(back, c, Daemon, d) && after == back
       else (NearestUp(back, c, Pending, d) || (d == c && AloneAmong(back, c, Pending))) && after == back[d := Active]
  }

  /**
   A tick: the running process steps back to DAEMON; the nearest PENDING process becomes ACTIVE and current, the current
   one itself if it alone is PENDING; without any, the nearest DAEMON process becomes current.
   */
  ghost predicate Ticked(s: State, s': State)
    requires Shaped(s)
  {
    && s'.cur < 6 && s'.parent == s.parent && s'.sess == s.sess
    && Chosen(if s.status[s.cur] == Active then s.status[s.cur := Daemon] else s.status, s.cur, s'.status, s'.cur)
  }

  /** Some slot besides that of the current process is free. */
  ghost predicate HasSlot(s: State)
    requires Shaped(s)
  {
    exists p: nat :: p < 6 && p != s.cur && s.status[p] == Inactive
  }

  /**
   An execute: with a free slot and a program that can be run the lowest free slot becomes the child of the caller, in
   its session, ACTIVE and current, and the caller waits; with a slot but no such program the caller steps back to
   DAEMON; without a slot nothing changes.
   */
  ghost predicate Executed(s: State, runs: bool, s': State)
    requires Shaped(s)
  {
    if !HasSlot(s) then s' == s
    else if !runs then s' == s.(status := s.status[s.cur := Daemon])
    else
      && s'.cur < 6 && s'.cur != s.cur && s.status[s'.cur] == Inactive
      && (forall p: nat :: p < s'.cur && p != s.cur ==> s.status[p] != Inactive)
      && s'.status == s.status[s.cur := Idle][s'.cur := Active]
      && s'.parent == s.parent[s'.cur := s.cur] && s'.sess == s.sess[s'.cur := s.sess[s.cur]]
  }

  /** A halt: a root shell becomes PENDING and spins; another process goes, and its parent is ACTIVE and current. */
  ghost predicate Halted(s: State, s': State)
    requires Shaped(s)
  {
    && s'.parent == s.parent && s'.sess == s.sess
    && var parent := s.parent[s.cur];
    if parent == 6 then s'.cur == s.cur && s'.status == s.status[s.cur := Pending]
    else parent < 6 && s'.cur == parent && s'.status == s.status[s.cur := Inactive][parent := Active]
  }

  lemma ExecMeans(s: State, e: Event, runs: bool, s': State)
    requires Shaped(s) && Shaped(s') && Next(s, e, s')
    requires e == if IsNextPid(s.status, s.cur, Inactive, NUM_PROC) then ExecTableFull
                  else if runs then ExecSucceeds else ExecFails
    ensures Executed(s, runs, s') && (e == ExecSucceeds <==> HasSlot(s) && runs)
  {
    assert HasSlot(s) <==> !IsNextPid(s.status, s.cur, Inactive, NUM_PROC);
    if e == ExecSucceeds {
      var idle := s.status[s.cur := Idle];
      forall p: nat | p < s'.cur && p != s.cur
        ensures s.status[p] != Inactive
      {
        assert idle[p] != Inactive;
      }
    }
  }

  lemma HaltMeans(s: State, s': State)
    requires Shaped(s) && s.parent[s.cur] <= NUM_PROC
    requires Next(s, if s.parent[s.cur] == NUM_PROC then HaltRoot else HaltChild, s')
    ensures Halted(s, s')
  {
  }

  lemma RoundIsDistance(c: nat, p: nat)
    requires c < NUM_PROC && p < NUM_PROC && p != c
    ensures Distance(c, p) == (p + 6 - c) % 6
  {
  }

  lemma NextIsNearest(status: seq<Status>, c: nat, st: Status, p: nat)
    requires |status| == NUM_PROC && c < NUM_PROC && p < NUM_PROC && IsNextPid(status, c, st, p)
    ensures NearestUp(status, c, st, p)
  {
    RoundIsDistance(c, p);
    forall q: nat | q < 6 && q != c && status[q] == st
      ensures (p + 6 - c) % 6 <= (q + 6 - c) % 6
    {
      RoundIsDistance(c, q);
    }
  }

  lemma NoneIsNext(status: seq<Status>, c: nat, st: Status)
    requires |status| == NUM_PROC && IsNextPid(status, c, st, NUM_PROC)
    ensures AloneAmong(status, c, st)
  {
  }

  lemma TickMeans(s: State, s': State)
    requires Shaped(s) && Shaped(s') && TickStep(s, s')
    ensures Ticked(s, s')
  {
    hide IsNextPid, NearestUp;
    var status := Preempted(s);
    if Pending in status {
      var p: nat :| p < |status| && status[p] == Pending;
      if IsNextPid(status, s.cur, Pending, s'.cur) {
        NextIsNearest(status, s.cur, Pending, s'.cur);
      } else {
        NoneIsNext(status, s.cur, Pending);
      }
    } else {
      NextIsNearest(status, s.cur, Daemon, s'.cur);
    }
  }

  /** The current process is a root or has a parent in the table. */
  lemma RootsOrChildren(s: State, stacks: seq<Stack>)
    requires Inv(s, stacks)
    ensures s.parent[s.cur] <= NUM_PROC && (s.parent[s.cur] < NUM_PROC ==> s.parent[s.cur] != s.cur)
  {
    var k := s.sess[s.cur];
    var n := |stacks[k]| - 1;
    assert MemberOk(s, k, stacks[k], n);
    if n > 0 {
      assert MemberOk(s, k, stacks[k], n - 1);
    }
  }

  class Machine {
    const procStatus: array<Status>
    const parentPid: array<nat>
    const activeSess: array<nat>
    const pageDirectory: array<word>
    var curPid: nat
    var esp0: word
    ghost var stacks: seq<Stack>

    ghost predicate Shape() {
      && procStatus.Length == parentPid.Length == activeSess.Length == NUM_PROC
      && pageDirectory.Length == NUM_PDE
      && parentPid != activeSess
      && procStatus as object != parentPid && procStatus as object != activeSess &&
          procStatus as object != pageDirectory
      && parentPid as object != pageDirectory && activeSess as object != pageDirectory
    }

    ghost function Table(): State
      reads this, procStatus, parentPid, activeSess
    {
      State(procStatus[..], parentPid[..], activeSess[..], curPid)
    }

    /** The user window and the kernel stack are those of the current process. */
    ghost predicate Switched()
      requires Shape()
      reads this, pageDirectory
    {
      curPid < NUM_PROC && Shows(pageDirectory[..], curPid) && esp0 == Esp0(curPid)
    }

    ghost predicate Valid()
      reads this, procStatus, parentPid, activeSess, pageDirectory
    {
      Shape() && Inv(Table(), stacks) && Switched()
    }

    /** `startup_envir_init` */
    method StartupEnvirInit()
      requires Shape()
      modifies procStatus, parentPid, activeSess
      ensures procStatus[..NUM_SESS] == [Pending, Pending, Pending] &&
        procStatus[NUM_SESS..] == old(procStatus[NUM_SESS..])
      ensures parentPid[..NUM_SESS] == [NUM_PROC, NUM_PROC, NUM_PROC] &&
        parentPid[NUM_SESS..] == old(parentPid[NUM_SESS..])
      ensures activeSess[..NUM_SESS] == [0, 1, 2] && activeSess[NUM_SESS..] == old(activeSess[NUM_SESS..])
    {
      var pid := 0;
      while pid < NUM_SESS
        invariant 0 <= pid <= NUM_SESS
        invariant forall p :: 0 <= p < pid ==>
          procStatus[p] == Pending && parentPid[p] == NUM_PROC && activeSess[p] == p
        invariant procStatus[NUM_SESS..] == old(procStatus[NUM_SESS..])
        invariant parentPid[NUM_SESS..] == old(parentPid[NUM_SESS..]) &&
          activeSess[NUM_SESS..] == old(activeSess[NUM_SESS..])
      {
        parentPid[pid] := NUM_PROC;
        activeSess[pid] := pid;
        procStatus[pid] := Pending;
        pid := pid + 1;
      }
    }

    /** `map_virtual_4mb` */
    method MapVirtual4mb(phys: word, virt: word)
      requires Shape()
      modifies pageDirectory
      ensures pageDirectory[..] == old(pageDirectory[..])[PdeIndex(virt) := LargePageEntry(phys)]
      ensures pageDirectory[virt / 0x40_0000] == phys / 0x40_0000 * 0x40_0000 + 0x80 + 4 + 2 + 1
    {
      pageDirectory[PdeIndex(virt)] := LargePageEntry(phys);
    }

    /** The start-up state: every session has a root shell, loaded only in session 0. */
    constructor ()
      ensures Valid() && Init(Table()) && RunsWith(pageDirectory[..], esp0, 0) && curPid == 0
      ensures procStatus[..] == [Active, Pending, Pending, Inactive, Inactive, Inactive]
      ensures fresh(procStatus) && fresh(parentPid) && fresh(activeSess) && fresh(pageDirectory)
    {
      procStatus := new Status[NUM_PROC](_ => Inactive);
      parentPid := new nat[NUM_PROC](_ => 0);
      activeSess := new nat[NUM_PROC](_ => 0);
      pageDirectory := new word[NUM_PDE](_ => 0);
      curPid, esp0 := 0, Esp0(0);
      stacks := [[0], [1], [2]];
      new;
      StartupEnvirInit();
      var root := ChildPcbInit(NUM_PROC);
      MapVirtual4mb(PhysAddr(root), USER_VIRT_TOP);
      assert forall p :: 0 <= p < NUM_PROC ==>
          procStatus[p] == [Active, Pending, Pending, Inactive, Inactive, Inactive][p] by {
        assert forall p :: 0 <= p < 3 ==> procStatus[NUM_SESS..][p] == Inactive;
      }
      InitInv(Table());
      ShownRuns(pageDirectory[..], 0);
    }

    /** What every switch does to the address space: user window, kernel stack, current process. */
    method SwitchTo(pid: nat)
      requires Shape() && pid < NUM_PROC
      modifies pageDirectory, this`curPid, this`esp0
      ensures curPid == pid && Switched() && RunsWith(pageDirectory[..], esp0, pid)
      ensures pageDirectory[..] == old(pageDirectory[..])[PdeIndex(USER_VIRT_TOP) := LargePageEntry(PhysAddr(pid))]
    {
      MapVirtual4mb(PhysAddr(pid), USER_VIRT_TOP);
      esp0 := Esp0(pid);
      curPid := pid;
      ShownRuns(pageDirectory[..], pid);
    }

    /** `query_proc_status` */
    method QueryProcStatus(st: Status) returns (n: nat)
      requires Shape()
      ensures n == Count(procStatus[..], st, NUM_PROC) == |set p: nat | p < NUM_PROC && procStatus[..][p] == st|
    {
      CountIsCard(procStatus[..], st, NUM_PROC);
      n := 0;
      var i := 0;
      while i < NUM_PROC
        invariant 0 <= i <= NUM_PROC && n == Count(procStatus[..], st, i)
      {
        if procStatus[i] == st {
          n := n + 1;
        }
        i := i + 1;
      }
    }

    /** `get_next_pid` */
    method GetNextPid(cur: nat, st: Status) returns (r: nat)
      requires Shape() && cur < NUM_PROC
      ensures IsNextPid(procStatus[..], cur, st, r)
    {
      var i := cur + 1;
      while i < NUM_PROC
        invariant cur < i <= NUM_PROC && forall p :: cur < p < i ==> procStatus[p] != st
      {
        if procStatus[i] == st {
          return i;
        }
        i := i + 1;
      }
      i := 0;
      while i < cur
        invariant 0 <= i <= cur && forall p :: 0 <= p < i ==> procStatus[p] != st
      {
        if procStatus[i] == st {
          return i;
        }
        i := i + 1;
      }
      return NUM_PROC;
    }

    /** `child_pcb_init`; `NUM_PROC` stands for NULL. The first process of all has no parent and takes slot 0. */
    method ChildPcbInit(parent: nat) returns (child: nat)
      requires Shape() && parent <= NUM_PROC
      modifies procStatus, parentPid, activeSess
      ensures child < NUM_PROC ==> procStatus[..] == old(procStatus[..])[child := Active]
      ensures child < NUM_PROC && parent < NUM_PROC ==>
        && old(LowestInactive(procStatus[..], child))
        && parentPid[..] == old(parentPid[..])[child := parent]
        && activeSess[..] == old(activeSess[..])[child := old(activeSess[parent])]
      ensures parent == NUM_PROC ==> child == 0
      ensures child >= NUM_PROC ==> child == NUM_PROC && Inactive !in old(procStatus[..])
      ensures child >= NUM_PROC ==> procStatus[..] == old(procStatus[..])
      ensures child >= NUM_PROC || parent == NUM_PROC ==>
        parentPid[..] == old(parentPid[..]) && activeSess[..] == old(activeSess[..])
    {
      child := 0;
      if parent == NUM_PROC {
        procStatus[child] := Active;
        return;
      }
      while child < NUM_PROC && procStatus[child] != Inactive
        invariant child <= NUM_PROC && forall p :: 0 <= p < child ==> procStatus[p] != Inactive
      {
        child := child + 1;
      }
      if child == NUM_PROC {
        return;
      }
      procStatus[child] := Active;
      parentPid[child] := parent;
      activeSess[child] := activeSess[parent];
    }

    /** The searches of `do_sched`. That for a DAEMON process is not checked: the invariant says it cannot fail. */
    method Choose(thisPid: nat, ghost s: State) returns (nextPid: nat, pending: bool)
      requires Shape() && Inv(s, stacks) && thisPid == s.cur && procStatus[..] == Preempted(s)
      ensures nextPid < NUM_PROC && (pending <==> Pending in procStatus[..])
      ensures pending ==>
        || IsNextPid(procStatus[..], thisPid, Pending, nextPid)
        || (nextPid == thisPid && IsNextPid(procStatus[..], thisPid, Pending, NUM_PROC))
      ensures !pending ==> IsNextPid(procStatus[..], thisPid, Daemon, nextPid)
    {
      var n := QueryProcStatus(Pending);
      CountBounds(procStatus[..], Pending, NUM_PROC);
      pending := n != 0;
      assert pending <==> Pending in procStatus[..];
      hide Inv;
      if pending {
        nextPid := GetNextPid(thisPid, Pending);
        nextPid := if nextPid == NUM_PROC then thisPid else nextPid;
      } else {
        nextPid := GetNextPid(thisPid, Daemon);
        SomeoneWaits(s, stacks);
      }
    }

    /** `do_sched` */
    method DoSched()
      requires Valid()
      modifies this, procStatus, pageDirectory
      ensures Valid() && stacks == old(stacks)
      ensures Next(old(Table()), Tick, Table())
      ensures Ticked(old(Table()), Table()) && RunsWith(pageDirectory[..], esp0, curPid)
    {
      hide Ticked, RunsWith;
      var inactive := QueryProcStatus(Inactive);
      CountBounds(procStatus[..], Inactive, NUM_PROC);
      if inactive == NUM_PROC {
        assert false;
      }
      var thisPid := curPid;
      if procStatus[thisPid] == Active {
        procStatus[thisPid] := Daemon;
      }
      var nextPid, pending := Choose(thisPid, old(Table()));
      if pending {
        procStatus[nextPid] := Active;
      }
      SwitchTo(nextPid);
      assert TickStep(old(Table()), Table());
      hide TickStep, Preempted, IsNextPid;
      TickKeepsInv(old(Table()), stacks, Table());
      TickMeans(old(Table()), Table());
      ShownRuns(pageDirectory[..], curPid);
    }

    /** How a call of `sys_execute` turns out, given what parsing, opening and the ELF check say. */
    static function Outcome(full: bool, parsed: bool, found: bool, isExe: bool): Event {
      if full then ExecTableFull else if parsed && found && isExe then ExecSucceeds else ExecFails
    }

    /** `sys_execute`: -1 for the caller, or a new current process. */
    method SysExecute(parsed: bool, found: bool, isExe: bool) returns (ret: int)
      requires Valid() && procStatus[curPid] != Pending
      modifies this, procStatus, parentPid, activeSess, pageDirectory
      ensures Valid()
      ensures var full := old(IsNextPid(procStatus[..], curPid, Inactive, NUM_PROC));
        && var e := Outcome(full, parsed, found, isExe);
        && Next(old(Table()), e, Table())
        && stacks == StacksAfter(old(Table()), old(stacks), e, Table())
        && ret == if e == ExecSucceeds then 0 else -1
      ensures Executed(old(Table()), parsed && found && isExe, Table())
      ensures ret == if old(HasSlot(Table())) && parsed && found && isExe then 0 else -1
      ensures RunsWith(pageDirectory[..], esp0, curPid)
    {
      hide Executed, HasSlot, RunsWith;
      var vacant := GetNextPid(curPid, Inactive);
      ShownRuns(pageDirectory[..], curPid);
      if vacant == NUM_PROC {
        ExecMeans(Table(), ExecTableFull, parsed && found && isExe, Table());
        return -1;
      }
      procStatus[curPid] := Idle;
      if !parsed || !found || !isExe {
        procStatus[curPid] := Daemon;
        InvKept(old(Table()), stacks, ExecFails, Table());
        ExecMeans(old(Table()), ExecFails, false, Table());
        return -1;
      }
      ghost var s := old(Table());
      assert procStatus[..] == s.status[s.cur := Idle] && procStatus[..][vacant] == Inactive;
      var child := ChildPcbInit(curPid);
      SwitchTo(child);
      ExecKeepsInv(s, stacks, Table());
      ExecMeans(s, ExecSucceeds, true, Table());
      ShownRuns(pageDirectory[..], curPid);
      stacks := StacksAfter(s, stacks, ExecSucceeds, Table());
      return 0;
    }

    /** `kill_pid` of the current process, as `sys_halt` and the default signal action call it. */
    method KillCurrent()
      requires Valid() && procStatus[curPid] != Pending
      modifies this, procStatus, pageDirectory
      ensures Valid()
      ensures var e := if old(parentPid[curPid]) == NUM_PROC then HaltRoot else HaltChild;
        && Next(old(Table()), e, Table())
        && stacks == StacksAfter(old(Table()), old(stacks), e, Table())
      ensures Halted(old(Table()), Table()) && RunsWith(pageDirectory[..], esp0, curPid)
    {
      hide Halted, RunsWith;
      ShownRuns(pageDirectory[..], curPid);
      ghost var s := Table();
      if parentPid[curPid] == NUM_PROC {
        procStatus[curPid] := Pending;
        InvKept(s, stacks, HaltRoot, Table());
        HaltMeans(s, Table());
        return;
      }
      RootsOrChildren(s, stacks);
      var child := curPid;
      var parent := parentPid[child];
      procStatus[child] := Inactive;
      procStatus[parent] := Active;
      SwitchTo(parent);
      HaltKeepsInv(s, stacks, Table());
      HaltMeans(s, Table());
      ShownRuns(pageDirectory[..], curPid);
      stacks := StacksAfter(s, stacks, HaltChild, Table());
    }
  }
}
