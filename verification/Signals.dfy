/** The pending signals of a process and the delivery of one of them, in src/signal.c and src/include/signal.h. */
module Signals {
  import opened Bitmap
  import opened Heap
  import opened HeapLayout
  import opened List

  const SIG_COUNT: nat := 6
  const DIV_ZERO: nat := 0
  const SEGFAULT: nat := 1
  const INTERRUPT: nat := 2
  const ALARM: nat := 3
  const USER1: nat := 4
  const STACKFAULT: nat := 5

  const SIG_MASK_CLEAR: word := 0
  const SIG_MASK_SET: word := 0xFFFF_FFFF
  const SIG_DFL: word := 0x0010_0100
  const USER_CS: word := 0x23

  /** `sizeof(sigaction)`: the number and the two links. */
  const SIGACTION_SIZE: word := 12

  const ERR_STACK: nat := 4
  const SIG_INT: nat := 5
  const ERR_RVAL: nat := 256

  /** `ksignal` */
  datatype KSignal = KSignal(sig: nat, handler: word, mask: word)

  /** What `do_signal` does with the registers it is given: nothing, end the process, or enter a user handler. */
  datatype Delivery = Nothing | Killed(rval: nat) | Entered(ksig: KSignal)

  // ---------- the queue as a list of numbers ----------

  datatype QueueStep = Request(sig: nat) | Get

  /** What is left in the queue after some steps. */
  function Left(queue: seq<nat>, steps: seq<QueueStep>): seq<nat>
    decreases |steps|
  {
    if steps == [] then queue
    else match steps[0]
      case Request(sig) => Left(queue + [sig], steps[1..])
      case Get => Left(if queue == [] then [] else queue[1..], steps[1..])
  }

  /** What the steps took out of the queue, in order. */
  function Dequeued(queue: seq<nat>, steps: seq<QueueStep>): seq<nat>
    decreases |steps|
  {
    if steps == [] then []
    else match steps[0]
      case Request(sig) => Dequeued(queue + [sig], steps[1..])
      case Get => if queue == [] then Dequeued([], steps[1..]) else [queue[0]] + Dequeued(queue[1..], steps[1..])
  }

  /** What the steps requested, in order. */
  function RequestsIn(steps: seq<QueueStep>): seq<nat> {
    if steps == [] then []
    else match steps[0]
      case Request(sig) => [sig] + RequestsIn(steps[1..])
      case Get => RequestsIn(steps[1..])
  }

  /** Over any run signals leave in the order they were requested, and none is lost or repeated in the queue. */
  lemma {:induction false} LeaveInOrder(queue: seq<nat>, steps: seq<QueueStep>)
    ensures Dequeued(queue, steps) + Left(queue, steps) == queue + RequestsIn(steps)
    decreases |steps|
  {
    if steps != [] {
      match steps[0]
      case Request(sig) =>
        LeaveInOrder(queue + [sig], steps[1..]);
        assert queue + [sig] + RequestsIn(steps[1..]) == queue + RequestsIn(steps);
      case Get =>
        LeaveInOrder(if queue == [] then [] else queue[1..], steps[1..]);
        if queue != [] {
          assert queue == [queue[0]] + queue[1..];
          assert Dequeued(queue, steps) + Left(queue, steps) ==
              [queue[0]] + (Dequeued(queue[1..], steps[1..]) + Left(queue[1..], steps[1..]));
        }
    }
  }

  /** A run from one queue to another, with what it takes out. */
  predicate Stepped(queue: seq<nat>, steps: seq<QueueStep>, out: seq<nat>, after: seq<nat>) {
    out == Dequeued(queue, steps) && after == Left(queue, steps)
  }

  lemma {:induction false} LeftAppend(queue: seq<nat>, a: seq<QueueStep>, b: seq<QueueStep>)
    ensures Left(queue, a + b) == Left(Left(queue, a), b) && RequestsIn(a + b) == RequestsIn(a) + RequestsIn(b)
    decreases |a|
  {
    if a == [] {
      assert a + b == b;
    } else {
      assert (a + b)[0] == a[0] && (a + b)[1..] == a[1..] + b;
      match a[0]
      case Request(sig) =>
        LeftAppend(queue + [sig], a[1..], b);
      case Get =>
        LeftAppend(if queue == [] then [] else queue[1..], a[1..], b);
    }
  }

  lemma {:induction false} DequeuedAppend(queue: seq<nat>, a: seq<QueueStep>, b: seq<QueueStep>)
    ensures Dequeued(queue, a + b) == Dequeued(queue, a) + Dequeued(Left(queue, a), b)
    decreases |a|
  {
    if a == [] {
      assert a + b == b;
    } else {
      assert (a + b)[0] == a[0] && (a + b)[1..] == a[1..] + b;
      match a[0]
      case Request(sig) =>
        DequeuedAppend(queue + [sig], a[1..], b);
      case Get =>
        DequeuedAppend(if queue == [] then [] else queue[1..], a[1..], b);
    }
  }

  lemma NoSteps(queue: seq<nat>)
    ensures Stepped(queue, [], [], queue) && RequestsIn([]) == []
  {
  }

  lemma SingleStep(queue: seq<nat>, now: QueueStep)
    ensures now.Request? ==> Stepped(queue, [now], [], queue + [now.sig]) && |RequestsIn([now])| == 1
    ensures now.Get? ==> |RequestsIn([now])| == 0
    ensures now.Get? && queue == [] ==> Stepped(queue, [now], [], [])
    ensures now.Get? && queue != [] ==> Stepped(queue, [now], [queue[0]], queue[1..])
  {
    assert [now][1..] == [];
  }

  /** One run after another. */
  lemma SteppedOn(queue: seq<nat>, steps: seq<QueueStep>, n: nat, out: seq<nat>, mid: seq<nat>, out': seq<nat>,
      after: seq<nat>)
    requires n < |steps| && Stepped(queue, steps[..n], out, mid) && Stepped(mid, [steps[n]], out', after)
    ensures Stepped(queue, steps[..n + 1], out + out', after)
    ensures |RequestsIn(steps[..n + 1])| == |RequestsIn(steps[..n])| + |RequestsIn([steps[n]])|
  {
    LeftAppend(queue, steps[..n], [steps[n]]);
    DequeuedAppend(queue, steps[..n], [steps[n]]);
    assert steps[..n + 1] == steps[..n] + [steps[n]];
  }

  /** What becomes of a signal taken from the queue, by the handler it finds. */
  function DeliveryOf(sig: nat, handler: word): Delivery {
    if handler != SIG_DFL then Entered(KSignal(sig, handler, SIG_MASK_CLEAR))
    else if sig == DIV_ZERO || sig == SEGFAULT then Killed(ERR_RVAL)
    else if sig == INTERRUPT then Killed(SIG_INT)
    else if sig == STACKFAULT then Killed(ERR_STACK)
    else Nothing
  }

  /** By the numbers: a user's handler is entered, and the default ends the process or does nothing. */
  lemma DeliveryTable(sig: nat, handler: word)
    ensures handler != 0x10_0100 ==> DeliveryOf(sig, handler) == Entered(KSignal(sig, handler, 0))
    ensures DeliveryOf(0, 0x10_0100) == DeliveryOf(1, 0x10_0100) == Killed(256)
    ensures DeliveryOf(2, 0x10_0100) == Killed(5) && DeliveryOf(5, 0x10_0100) == Killed(4)
    ensures DeliveryOf(3, 0x10_0100) == DeliveryOf(4, 0x10_0100) == Nothing
  {
  }

  // ---------- the queue as it is linked ----------

  /** `sigaction`: a signal number and the list node embedded in it, at the heap address it was given. */
  class Sigaction {
    const sig: nat
    const ptr: word
    /** The first page of its heap object. */
    ghost const page: nat
    var sigList: ListHead?

    constructor (sig: nat, ptr: word, ghost page: nat)
      ensures this.sig == sig && this.ptr == ptr && this.page == page
      ensures sigList != null && fresh(sigList) && sigList.owner == this
    {
      this.sig, this.ptr, this.page := sig, ptr, page;
      sigList := null;
      new;
      sigList := new ListHead(this);
    }
  }

  /** The node is the one embedded in this structure: what `LIST_ENTRY` goes by. */
  predicate Embedded(a: Sigaction, n: ListHead)
    reads a
  {
    a.sigList == n && n.owner == a
  }

  /** The nodes behind the head are those of these structures, in order. */
  predicate Nodes(ring: seq<ListHead>, queue: seq<Sigaction>)
    reads queue
  {
    |ring| == |queue| + 1 && forall i: nat {:trigger queue[i]} :: i < |queue| ==> Embedded(queue[i], ring[i + 1])
  }

  /** The structure is an object of the heap. */
  ghost predicate Held(live: Objects, a: Sigaction) {
    a.page in live && a.page < HEAP_ENTRY && a.ptr == PointerTo(a.page)
  }

  /** The structures are different objects of the heap, for signals there are. */
  ghost predicate AllHeld(live: Objects, queue: seq<Sigaction>) {
    && (forall i: nat :: i < |queue| ==> Held(live, queue[i]) && queue[i].sig < SIG_COUNT)
    && (forall i: nat, j: nat :: i < j < |queue| ==> queue[i].page != queue[j].page)
  }

  lemma OneMoreHeld(live: Objects, queue: seq<Sigaction>, after: Objects, a: Sigaction)
    requires AllHeld(live, queue) && Held(after, a) && a.page !in live && a.sig < SIG_COUNT
    requires forall p: nat :: p in live ==> p in after
    ensures AllHeld(after, queue + [a])
  {
  }

  lemma OneFewerHeld(live: Objects, queue: seq<Sigaction>)
    requires AllHeld(live, queue) && queue != []
    ensures Held(live, queue[0]) && queue[0].sig < SIG_COUNT && AllHeld(live - {queue[0].page}, queue[1..])
  {
  }

  lemma FirstNode(ring: seq<ListHead>)
    requires |ring| > 1 && Ring(ring)
    ensures ring[0].next == ring[1]
    ensures (set n | n in ring) - {ring[1]} == set n | n in ring[..1] + ring[2..]
  {
    assert Linked(ring, 0) && ring == ring[..1] + [ring[1]] + ring[2..];
  }

  function Numbers(queue: seq<Sigaction>): (ns: seq<nat>)
    ensures |ns| == |queue|
  {
    seq(|queue|, i requires 0 <= i < |queue| => queue[i].sig)
  }

  lemma FirstNumber(queue: seq<Sigaction>)
    requires queue != []
    ensures Numbers(queue)[0] == queue[0].sig && Numbers(queue)[1..] == Numbers(queue[1..])
  {
  }

  lemma SteppedMeans(queue: seq<nat>, steps: seq<QueueStep>, out: seq<nat>, after: seq<nat>)
    requires Stepped(queue, steps, out, after)
    ensures out == Dequeued(queue, steps) && after == Left(queue, steps)
  {
  }

  /** `sigpending` and the `sighand` table of a process, the masks saved beside them, and the kernel's heap. */
  class SignalState {
    const heap: KernelHeap
    const sigpending: ListHead
    const handler: array<word>
    const mask: array<word>
    const sigmaskInfo: array<word>
    ghost var ring: seq<ListHead>
    ghost var queue: seq<Sigaction>
    /** The nodes of the ring, as a set. */
    ghost var nodes: set<ListHead>

    /** The tables are apart from each other and from those of the heap. */
    ghost predicate Shape() {
      && handler.Length == mask.Length == sigmaskInfo.Length == SIG_COUNT
      && handler != mask && mask != sigmaskInfo && handler != sigmaskInfo
      && handler != heap.heapMap && mask != heap.heapMap && sigmaskInfo != heap.heapMap
      && handler != heap.heapPageTable && mask != heap.heapPageTable && sigmaskInfo != heap.heapPageTable
    }

    /** Every mask is clear, and the signal of a bad stack pointer has no handler of the user's. */
    ghost predicate Settled()
      requires Shape()
      reads handler, mask
    {
      handler[STACKFAULT] == SIG_DFL && forall k: nat :: k < SIG_COUNT ==> mask[k] == SIG_MASK_CLEAR
    }

    ghost predicate QueueValid()
      reads this, nodes, queue
    {
      nodes == (set n | n in ring) && ring != [] && ring[0] == sigpending && Ring(ring) && Nodes(ring, queue)
    }

    ghost predicate Valid()
      reads this, nodes, queue, heap, heap.heapMap, heap.heapPageTable, heap.mem, handler, mask
    {
      Shape() && Settled() && QueueValid() && heap.Valid() && AllHeld(heap.live, queue)
    }

    /** The numbers of the pending signals, oldest first. */
    ghost function Pending(): seq<nat>
      reads this
    {
      Numbers(queue)
    }

    /** `proc_signal_init` */
    constructor (heap: KernelHeap, sigmaskInfo: array<word>)
      requires heap.Valid() && sigmaskInfo.Length == SIG_COUNT
      requires sigmaskInfo != heap.heapMap && sigmaskInfo != heap.heapPageTable
      ensures Valid() && Pending() == [] && this.heap == heap && this.sigmaskInfo == sigmaskInfo
      ensures fresh(handler) && fresh(mask) && fresh(sigpending) && fresh(nodes)
      ensures forall i :: 0 <= i < SIG_COUNT ==> handler[i] == SIG_DFL
    {
      this.heap := heap;
      sigpending := new ListHead(null);
      handler := new word[SIG_COUNT](_ => SIG_DFL);
      mask := new word[SIG_COUNT](_ => SIG_MASK_CLEAR);
      this.sigmaskInfo := sigmaskInfo;
      ring, queue, nodes := [sigpending], [], {sigpending};
      new;
      InitListHead(sigpending);
    }

    /** `enqueue_signal` */
    method Enqueue(a: Sigaction)
      requires QueueValid() && a.sigList != null && Embedded(a, a.sigList) && a.sigList !in nodes
      modifies this`ring, this`queue, this`nodes, nodes, a.sigList
      ensures QueueValid() && queue == old(queue) + [a] && nodes == old(nodes) + {old(a.sigList)}
    {
      InsertBefore(a.sigList, sigpending, ring);
      nodes := nodes + {a.sigList};
      ring := ring + [a.sigList];
      queue := queue + [a];
    }

    /**
     `request_signal`: the object goes to the end of the queue. Without memory the number is stored at address 0, which
     is mapped, `enqueue_signal` refuses the null pointer, and the signal is lost: the result says so.
     */
    method RequestSignal(signum: nat) returns (ok: bool)
      requires Valid() && signum < SIG_COUNT
      modifies this`ring, this`queue, this`nodes, nodes, heap, heap.heapMap, heap.heapPageTable, heap.mem
      ensures Valid()
      ensures !ok ==> queue == old(queue) && Pending() == old(Pending()) && heap.live == old(heap.live)
      ensures fresh(nodes - old(nodes))
      ensures ok ==> Pending() == old(Pending()) + [signum]
      ensures ok ==> |queue| == |old(queue)| + 1 && queue[..|old(queue)|] == old(queue)
      ensures ok ==> var p := queue[|old(queue)|].page;
                p !in old(heap.live) && p in heap.live && |heap.live[p]| == SIGACTION_SIZE &&
                heap.live == old(heap.live)[p := heap.live[p]] && |heap.live| == |old(heap.live)| + 1
    {
      hide KernelHeap.Valid, Ring, Nodes, Distinct, NoFit, FirstFit, AllHeld;
      var ptr, i := heap.Malloc(SIGACTION_SIZE);
      if ptr == NULL {
        return false;
      }
      var newSig := new Sigaction(signum, ptr, i);
      OneMoreHeld(old(heap.live), queue, heap.live, newSig);
      Enqueue(newSig);
      return true;
    }

    /** `dequeue_signal` */
    method DequeueSignal() returns (a: Sigaction?)
      requires QueueValid()
      modifies this`ring, this`queue, this`nodes, nodes
      ensures QueueValid()
      ensures old(queue) == [] ==> a == null && queue == []
      ensures old(queue) != [] ==> a == old(queue)[0] && queue == old(queue)[1..]
      ensures nodes <= old(nodes)
    {
      hide Ring, Distinct;
      var empty := ListIsEmpty(sigpending, ring);
      if empty {
        return null;
      }
      assert Embedded(queue[0], ring[1]);
      FirstNode(ring);
      var first := sigpending.next;
      Delete(first, ring, 1);
      a := first.owner as Sigaction;
      nodes := nodes - {first};
      ring := ring[..1] + ring[2..];
      queue := queue[1..];
    }

    /** `get_signal`: the oldest pending signal; its object, and nothing else of the heap, is freed. */
    method GetSignal() returns (got: bool, ksig: KSignal)
      requires Valid()
      modifies this`ring, this`queue, this`nodes, nodes, heap, heap.heapMap, heap.heapPageTable
      ensures Valid() && got == (old(queue) != []) == (old(Pending()) != [])
      ensures got ==>
        ksig.sig == old(Pending())[0] < SIG_COUNT && ksig.handler == handler[ksig.sig] && ksig.mask == SIG_MASK_CLEAR
      ensures got ==> Pending() == old(Pending())[1..] && queue == old(queue)[1..]
      ensures nodes <= old(nodes)
      ensures got ==> old(queue)[0].page in old(heap.live) && heap.live == old(heap.live) - {old(queue)[0].page}
      ensures |heap.live| == |old(heap.live)| - if got then 1 else 0
      ensures !got ==> queue == [] && Pending() == [] && heap.live == old(heap.live)
    {
      hide KernelHeap.Valid, SignalState.QueueValid, AllHeld, PagesOf, Bits, Numbers, KernelHeap.Untouched;
      ksig := KSignal(0, 0, 0);
      ghost var was := queue;
      var action := DequeueSignal();
      if action == null {
        return false, ksig;
      }
      OneFewerHeld(heap.live, was);
      OneLess(heap.live, action.page);
      FirstNumber(was);
      ksig := KSignal(action.sig, handler[action.sig], mask[action.sig]);
      heap.Free(action.ptr, action.page);
      return true, ksig;
    }

    /** One step; what a removal takes out is returned. A request that fails for want of memory changes nothing. */
    method PerformOne(now: QueueStep) returns (out: seq<nat>, ok: bool)
      requires Valid() && (now.Request? ==> now.sig < SIG_COUNT)
      modifies this`ring, this`queue, this`nodes, nodes, heap, heap.heapMap, heap.heapPageTable, heap.mem
      ensures Valid() && fresh(nodes - old(nodes))
      ensures ok ==> Stepped(old(Pending()), [now], out, Pending())
      ensures ok ==> |heap.live| + |out| == |old(heap.live)| + |RequestsIn([now])|
      ensures !ok ==> now.Request? && Pending() == old(Pending()) && heap.live == old(heap.live)
    {
      hide *;
      SingleStep(Pending(), now);
      match now
      case Request(sig) =>
        ok := RequestSignal(sig);
        out := [];
      case Get =>
        var got, ksig := GetSignal();
        out, ok := if got then [ksig.sig] else [], true;
    }

    /**
     As many of the steps as memory lasts for: signals leave in the order they were requested, one object freed for
     each.
     */
    method Perform(steps: seq<QueueStep>) returns (taken: seq<nat>, done: nat)
      requires Valid() && forall k: nat :: k < |steps| && steps[k].Request? ==> steps[k].sig < SIG_COUNT
      modifies this`ring, this`queue, this`nodes, nodes, heap, heap.heapMap, heap.heapPageTable, heap.mem
      ensures Valid() && done <= |steps| && (done < |steps| ==> steps[done].Request?)
      ensures taken == Dequeued(old(Pending()), steps[..done]) && Pending() == Left(old(Pending()), steps[..done])
      ensures taken + Pending() == old(Pending()) + RequestsIn(steps[..done])
      ensures |heap.live| + |taken| == |old(heap.live)| + |RequestsIn(steps[..done])|
    {
      ghost var was := Pending();
      taken, done := [], 0;
      NoSteps(was);
      assert steps[..0] == [];
      hide *;
      while done < |steps|
        invariant Valid() && done <= |steps| && fresh(nodes - old(nodes))
        invariant Stepped(was, steps[..done], taken, Pending())
        invariant |heap.live| + |taken| == |old(heap.live)| + |RequestsIn(steps[..done])|
      {
        ghost var before := Pending();
        var out, ok := PerformOne(steps[done]);
        if !ok {
          break;
        }
        SteppedOn(was, steps, done, taken, before, out, Pending());
        taken := taken + out;
        done := done + 1;
      }
      LeaveInOrder(was, steps[..done]);
      SteppedMeans(was, steps[..done], taken, Pending());
    }

    /** `save_sigmask` */
    method SaveSigmask()
      requires Shape()
      modifies sigmaskInfo
      ensures forall k: nat :: k < SIG_COUNT ==> sigmaskInfo[k] == mask[k]
    {
      var i: nat := 0;
      while i < SIG_COUNT
        invariant i <= SIG_COUNT && forall k: nat :: k < i ==> sigmaskInfo[k] == mask[k]
      {
        sigmaskInfo[i] := mask[i];
        i := i + 1;
      }
    }

    /** `restore_saved_sigmask` */
    method RestoreSavedSigmask()
      requires Shape()
      modifies mask
      ensures forall k: nat :: k < SIG_COUNT ==> mask[k] == sigmaskInfo[k]
    {
      var i: nat := 0;
      while i < SIG_COUNT
        invariant i <= SIG_COUNT && forall k: nat :: k < i ==> mask[k] == sigmaskInfo[k]
      {
        mask[i] := sigmaskInfo[i];
        i := i + 1;
      }
    }

    /** `set_other_sigmask` */
    method SetOtherSigmask(signum: nat)
      requires Shape()
      modifies mask
      ensures forall k: nat :: k < SIG_COUNT ==> mask[k] == if k != signum then SIG_MASK_SET else old(mask[k])
    {
      var i: nat := 0;
      while i < SIG_COUNT
        invariant i <= SIG_COUNT && forall k: nat :: k < SIG_COUNT ==>
          mask[k] == if k < i && k != signum then SIG_MASK_SET else old(mask[k])
      {
        if i != signum {
          mask[i] := SIG_MASK_SET;
        }
        i := i + 1;
      }
    }

    /** `sys_set_handler` */
    method SetHandler(signum: int, address: word) returns (r: int)
      requires Valid()
      modifies handler, mask
      ensures Valid() && r == if DIV_ZERO <= signum <= USER1 then 0 else -1
      ensures handler[..] == if r == 0 then old(handler[..])[signum := address] else old(handler[..])
    {
      hide KernelHeap.Valid, SignalState.QueueValid, AllHeld;
      if signum < DIV_ZERO || signum > USER1 {
        return -1;
      }
      handler[signum] := address;
      mask[signum] := SIG_MASK_CLEAR;
      return 0;
    }

    /** All masks saved are clear. */
    ghost predicate SavedClear()
      requires Shape()
      reads sigmaskInfo
    {
      forall k: nat :: k < SIG_COUNT ==> sigmaskInfo[k] == SIG_MASK_CLEAR
    }

    /**
     The part of `do_signal` behind `get_signal`, up to where `do_signal_dfl` or `handle_signal` have restored the masks
     and control leaves: on every path the masks are clear again.
     */
    method Act(ksig: KSignal) returns (d: Delivery)
      requires Shape() && Settled() && SavedClear()
      modifies mask
      ensures Settled() && d == if ksig.mask == SIG_MASK_CLEAR then DeliveryOf(ksig.sig, ksig.handler) else Nothing
    {
      if ksig.mask == SIG_MASK_CLEAR {
        SetOtherSigmask(ksig.sig);
        if ksig.handler == SIG_DFL {
          if ksig.sig == DIV_ZERO || ksig.sig == SEGFAULT {
            RestoreSavedSigmask();
            return Killed(ERR_RVAL);
          } else if ksig.sig == INTERRUPT {
            RestoreSavedSigmask();
            return Killed(SIG_INT);
          } else if ksig.sig == STACKFAULT {
            RestoreSavedSigmask();
            return Killed(ERR_STACK);
          }
        } else {
          RestoreSavedSigmask();
          return Entered(ksig);
        }
      }
      RestoreSavedSigmask();
      return Nothing;
    }

    /** `do_signal`. Masks are set in here only, so on every entry they are clear: no signal is lost to one. */
    method DoSignal(xcs: word) returns (d: Delivery)
      requires Valid()
      modifies this`ring, this`queue, this`nodes, nodes, heap, heap.heapMap, heap.heapPageTable, mask, sigmaskInfo
      ensures Valid() && nodes <= old(nodes)
      ensures xcs != USER_CS || old(queue) == [] ==> d == Nothing && queue == old(queue) && heap.live == old(heap.live)
      ensures xcs == USER_CS && old(queue) != [] ==>
                var first := old(queue)[0];
                first.sig < SIG_COUNT && d == DeliveryOf(first.sig, handler[first.sig]) &&
                queue == old(queue)[1..] && heap.live == old(heap.live) - {first.page}
    {
      hide KernelHeap.Valid, SignalState.QueueValid, AllHeld;
      if xcs != USER_CS {
        return Nothing;
      }
      SaveSigmask();
      var got, ksig := GetSignal();
      if got {
        d := Act(ksig);
      } else {
        RestoreSavedSigmask();
        d := Nothing;
      }
    }

    /**
     The refused branch of `chk_usr_esp`, and the `do_signal` on the way back to the user: the signal is queued, and
     when nothing else is pending it ends the process, because it has no handler of the user's.
     */
    method StackFault(xcs: word) returns (ok: bool, d: Delivery)
      requires Valid()
      modifies this`ring, this`queue, this`nodes, nodes, heap, heap.heapMap, heap.heapPageTable, heap.mem, mask,
        sigmaskInfo
      ensures Valid()
      ensures !ok ==> d == Nothing && Pending() == old(Pending()) && heap.live == old(heap.live)
      ensures ok && xcs == USER_CS && old(Pending()) == [] ==> d == Killed(ERR_STACK) && Pending() == []
      ensures ok && xcs == USER_CS && old(Pending()) != [] ==>
                var sig := old(Pending())[0];
                sig < SIG_COUNT && d == DeliveryOf(sig, handler[sig]) && Pending() == old(Pending())[1..] + [STACKFAULT]
    {
      hide KernelHeap.Valid, SignalState.QueueValid, AllHeld, Numbers, Shape;
      ok := RequestSignal(STACKFAULT);
      d := Nothing;
      if ok {
        ghost var was := queue;
        d := DoSignal(xcs);
        FirstNumber(was);
      }
    }
  }
}
