/**
 The stack frame of a signal handler: what `handle_signal` of src/signal.c builds, what the code in it does when the
 handler returns, and what `sys_sigreturn` of src/syscall.c restores.
 */
module SignalFrame {
  import opened PowersOfTwo
  import opened Bitmap
  import opened Heap
  import opened LittleEndian
  import opened List
  import opened Paging
  import opened Splices
  import opened Signals

  /** Where the stack section of the user page begins. */
  const USER_STACK_TOP: nat := 0x820_0000
  const SYS_HALT: word := 1
  const SYS_EXECUTE: word := 2
  const SYS_SIGRETURN: word := 10
  const USER_DS: word := 0x2B
  const EFLAGS_UNMASK: word := 0x200
  /** `struct regs` as its sixteen words, and the place of some of them. */
  const REGS: nat := 16
  const REGS_SIZE: nat := 64
  const EAX: nat := 6
  const ORIG_EAX: nat := 10
  const EIP: nat := 11
  const XCS: nat := 12
  const EFLAGS: nat := 13
  const ESP: nat := 14
  const XSS: nat := 15

  type Regs = s: seq<word> | |s| == 16 witness seq(16, _ => 0)

  /** The registers of a user process, and the bytes of its page from `USER_VIRT_TOP` on. */
  datatype Context = Context(regs: Regs, mem: seq<byte>)

  // ---------- words in memory ----------

  function WordBytes(s: seq<word>): (b: seq<byte>)
    ensures |b| == 4 * |s|
  {
    if s == [] then [] else Bytes32(s[0]) + WordBytes(s[1..])
  }

  function BytesToWords(b: seq<byte>): (s: seq<word>)
    requires |b| % 4 == 0
    ensures |s| == |b| / 4
  {
    if b == [] then [] else [Word32(b[..4])] + BytesToWords(b[4..])
  }

  lemma {:induction false} WordsRoundTrip(s: seq<word>)
    ensures BytesToWords(WordBytes(s)) == s
    decreases |s|
  {
    if s != [] {
      var b := WordBytes(s);
      assert b[..4] == Bytes32(s[0]) && b[4..] == WordBytes(s[1..]);
      Word32RoundTrip(s[0]);
      WordsRoundTrip(s[1..]);
    }
  }

  /** The n bytes at an address are in the page. */
  predicate InArea(mem: seq<byte>, a: nat, n: nat) {
    USER_VIRT_TOP <= a && a + n <= USER_VIRT_TOP + |mem|
  }

  function Load(mem: seq<byte>, a: nat, n: nat): (b: seq<byte>)
    requires InArea(mem, a, n)
    ensures |b| == n
  {
    Slice(mem, a - USER_VIRT_TOP, n)
  }

  /** Two memories agree from an address on. */
  predicate SameFrom(mem: seq<byte>, after: seq<byte>, a: nat) {
    |after| == |mem| && USER_VIRT_TOP <= a <= USER_VIRT_TOP + |mem| &&
        after[a - USER_VIRT_TOP..] == mem[a - USER_VIRT_TOP..]
  }

  lemma SliceFrom<T>(s: seq<T>, p: nat, q: nat, n: nat)
    requires p + q + n <= |s|
    ensures s[p..][q..q + n] == s[p + q..p + q + n]
  {
  }

  lemma LoadSame(mem: seq<byte>, after: seq<byte>, a: nat, b: nat, n: nat)
    requires SameFrom(mem, after, a) && a <= b && InArea(mem, b, n)
    ensures Load(after, b, n) == Load(mem, b, n)
  {
    SliceFrom(mem, a - USER_VIRT_TOP, b - a, n);
    SliceFrom(after, a - USER_VIRT_TOP, b - a, n);
  }

  lemma SameFromUp(mem: seq<byte>, after: seq<byte>, a: nat, b: nat)
    requires SameFrom(mem, after, a) && a <= b <= USER_VIRT_TOP + |mem|
    ensures SameFrom(mem, after, b)
  {
    assert mem[b - USER_VIRT_TOP..] == mem[a - USER_VIRT_TOP..][b - a..];
    assert after[b - USER_VIRT_TOP..] == after[a - USER_VIRT_TOP..][b - a..];
  }

  // ---------- building the frame ----------

  /** `add esp, 4`, `mov eax, 10`, `int 0x80`, and two bytes of filling. */
  const PAYLOAD: seq<byte> := [0x83, 0xC4, 0x04, 0xB8, 0x0A, 0x00, 0x00, 0x00, 0xCD, 0x80, 0x00, 0x00]
  /** Payload, registers, signal number and return address. */
  const FRAME_SIZE: nat := 84

  function Frame(regs: Regs, sig: word, ret: word): (b: seq<byte>)
    ensures |b| == FRAME_SIZE
  {
    Bytes32(ret) + (Bytes32(sig) + (WordBytes(regs) + PAYLOAD))
  }

  /** A signal can be delivered: the process was in user mode, and its stack has room for the frame. */
  predicate CanDeliver(s: Context) {
    s.regs[XCS] == USER_CS && USER_VIRT_TOP + FRAME_SIZE <= s.regs[ESP] <= USER_VIRT_TOP + |s.mem|
  }

  /** The registers a handler is entered with. */
  function EntryRegs(regs: Regs, handler: word, esp: word): Regs {
    WordFits(regs[EFLAGS], EFLAGS_UNMASK);
    regs[EIP := handler][XCS := USER_CS][EFLAGS := Or(regs[EFLAGS], EFLAGS_UNMASK)][ESP := esp][XSS := USER_DS]
  }

  /** The state a handler is entered in. */
  function Deliver(s: Context, k: KSignal): (h: Context)
    requires CanDeliver(s) && k.sig < SIG_COUNT
    ensures |h.mem| == |s.mem| && h.regs[ESP] == s.regs[ESP] - FRAME_SIZE && h.regs[XCS] == USER_CS
  {
    var esp := s.regs[ESP] - FRAME_SIZE;
    Context(EntryRegs(s.regs, k.handler, esp),
        Splice(s.mem, esp - USER_VIRT_TOP, Frame(s.regs, k.sig, s.regs[ESP] - |PAYLOAD|)))
  }

  lemma SpliceBelow<T>(s: seq<T>, at: nat, b: seq<T>, c: seq<T>)
    requires |c| <= at && at + |b| <= |s|
    ensures Splice(Splice(s, at, b), at - |c|, c) == Splice(s, at - |c|, c + b)
  {
  }

  /** `PUSH_USR`, below what was pushed before. */
  method PushUsr(mem: array<byte>, esp: word, src: seq<byte>, ghost was: seq<byte>, ghost above: seq<byte>)
      returns (after: word)
    requires USER_VIRT_TOP + |src| <= esp && esp + |above| <= USER_VIRT_TOP + mem.Length == USER_VIRT_TOP + |was|
    requires mem[..] == Splice(was, esp - USER_VIRT_TOP, above)
    modifies mem
    ensures after == esp - |src| && mem[..] == Splice(was, after - USER_VIRT_TOP, src + above)
  {
    after := esp - |src|;
    CopyInto(mem, after - USER_VIRT_TOP, src);
    SpliceBelow(was, esp - USER_VIRT_TOP, above, src);
  }

  /** The four pushes of `handle_signal`. */
  method PushFrame(mem: array<byte>, esp: word, saved: Regs, sig: word) returns (userEsp: word)
    requires USER_VIRT_TOP + FRAME_SIZE <= esp <= USER_VIRT_TOP + mem.Length
    modifies mem
    ensures userEsp == esp - FRAME_SIZE &&
      mem[..] == Splice(old(mem[..]), userEsp - USER_VIRT_TOP, Frame(saved, sig, esp - |PAYLOAD|))
  {
    ghost var was := mem[..];
    assert |PAYLOAD| == 12 && PAYLOAD + [] == PAYLOAD && Splice(was, esp - USER_VIRT_TOP, []) == was;
    hide WordBytes, Bytes32, PAYLOAD, Splice;
    userEsp := PushUsr(mem, esp, PAYLOAD, was, []);
    var retAddr := userEsp;
    userEsp := PushUsr(mem, userEsp, WordBytes(saved), was, PAYLOAD);
    userEsp := PushUsr(mem, userEsp, Bytes32(sig), was, WordBytes(saved) + PAYLOAD);
    userEsp := PushUsr(mem, userEsp, Bytes32(retAddr), was, Bytes32(sig) + (WordBytes(saved) + PAYLOAD));
  }

  /** The registers `handle_signal` leaves for the return to user mode. */
  method EnterHandler(regs: array<word>, handler: word, userEsp: word)
    requires regs.Length == REGS
    modifies regs
    ensures regs[..] == EntryRegs(old(regs[..]), handler, userEsp)
  {
    WordFits(regs[EFLAGS], EFLAGS_UNMASK);
    hide Or;
    regs[EIP] := handler;
    regs[XCS] := USER_CS;
    regs[EFLAGS] := Or(regs[EFLAGS], EFLAGS_UNMASK);
    regs[ESP] := userEsp;
    regs[XSS] := USER_DS;
  }

  // ---------- returning from a handler ----------

  /** A refused call leaves the registers as they were taken with the trap. */
  datatype Ending = Stuck | Refused(trap: Context) | At(m: Context)

  /** One instruction: the processor goes on, or traps into the kernel through gate 0x80. */
  datatype Effect = Unknown | Next(m: Context) | Trap(m: Context)

  /** The `ret` a handler ends with. */
  function Ret(s: Context): Ending {
    var esp := s.regs[ESP];
    if InArea(s.mem, esp, 4) && esp + 4 < WORD_LIMIT then
      At(s.(regs := s.regs[EIP := Word32(Load(s.mem, esp, 4))][ESP := esp + 4]))
    else
      Stuck
  }

  /** The instructions of the injected code; `add` leaves some flags. */
  function Step(s: Context, flags: word): Effect {
    var a: nat := s.regs[EIP];
    if InArea(s.mem, a, 3) && Load(s.mem, a, 2) == [0x83, 0xC4] && s.mem[a + 2 - USER_VIRT_TOP] < 0x80 then
      var imm: nat := s.mem[a + 2 - USER_VIRT_TOP];
      Next(s.(regs := s.regs[ESP := (s.regs[ESP] + imm) % WORD_LIMIT][EIP := (a + 3) % WORD_LIMIT][EFLAGS := flags]))
    else if InArea(s.mem, a, 5) && Load(s.mem, a, 1) == [0xB8] then
      Next(s.(regs := s.regs[EAX := Word32(Load(s.mem, a + 1, 4))][EIP := (a + 5) % WORD_LIMIT]))
    else if InArea(s.mem, a, 2) && Load(s.mem, a, 2) == [0xCD, 0x80] then
      Trap(s.(regs := s.regs[EIP := (a + 2) % WORD_LIMIT]))
    else
      Unknown
  }

  /** `sys_sigreturn`: the saved registers are at the user stack pointer. */
  function Sigreturn(s: Context): Ending {
    if InArea(s.mem, s.regs[ESP], REGS_SIZE) then
      At(s.(regs := BytesToWords(Load(s.mem, s.regs[ESP], REGS_SIZE))))
    else
      Stuck
  }

  /** `chk_usr_esp`: what a system call other than halt and execute is refused for. */
  predicate StackRefused(sysnum: word, esp: word) {
    sysnum != SYS_HALT && sysnum != SYS_EXECUTE && (esp <= USER_STACK_TOP || esp >= USER_VIRT_BOT - 4)
  }

  /** The system call of the injected code: `do_sys` checks the stack pointer before it looks at the number. */
  function DoSys(s: Context): Ending {
    var t := s.(regs := s.regs[ORIG_EAX := s.regs[EAX]]);
    if StackRefused(t.regs[ORIG_EAX], t.regs[ESP]) then Refused(t)
    else if t.regs[ORIG_EAX] == SYS_SIGRETURN then Sigreturn(t)
    else Stuck
  }

  /** One instruction of the injected code from where a piece of it ended. */
  function Go(from: Ending, flags: word): Ending {
    match from
    case At(s) => (
      match Step(s, flags)
      case Next(t) => At(t)
      case _ => Stuck)
    case _ => from
  }

  /** Its last instruction, into the kernel, to the end of `sys_sigreturn`. */
  function Enter(from: Ending, flags: word): Ending {
    match from
    case At(s) => (
      match Step(s, flags)
      case Trap(t) => DoSys(t)
      case _ => Stuck)
    case _ => from
  }

  lemma PartAt(mem: seq<byte>, a: nat, n: nat, at: nat, m: nat)
    requires InArea(mem, a, n) && at + m <= n
    ensures Load(mem, a + at, m) == Load(mem, a, n)[at..at + m]
  {
    PartOfSlice(mem, a - USER_VIRT_TOP, n, at, at + m);
  }

  /** The parts of a frame, where they are in memory. */
  lemma FrameParts(mem: seq<byte>, e: nat, regs: Regs, sig: word, ret: word)
    requires InArea(mem, e, FRAME_SIZE) && Load(mem, e, FRAME_SIZE) == Frame(regs, sig, ret)
    ensures Load(mem, e, 4) == Bytes32(ret) && Load(mem, e + 4, 4) == Bytes32(sig)
    ensures Load(mem, e + 8, REGS_SIZE) == WordBytes(regs) && Load(mem, e + 72, 12) == PAYLOAD
  {
    var f := Frame(regs, sig, ret);
    var tail := WordBytes(regs) + PAYLOAD;
    hide WordBytes, Bytes32, PAYLOAD;
    assert f[..4] == Bytes32(ret) && f[4..8] == Bytes32(sig) && f[8..] == tail;
    assert tail[..REGS_SIZE] == WordBytes(regs) && tail[REGS_SIZE..] == PAYLOAD;
    SliceFrom(f, 8, 0, REGS_SIZE);
    SliceFrom(f, 8, REGS_SIZE, 12);
    PartAt(mem, e, FRAME_SIZE, 0, 4);
    PartAt(mem, e, FRAME_SIZE, 4, 4);
    PartAt(mem, e, FRAME_SIZE, 8, REGS_SIZE);
    PartAt(mem, e, FRAME_SIZE, 72, 12);
  }

  /** The injected code is at p. */
  predicate CodeAt(mem: seq<byte>, p: nat) {
    InArea(mem, p, 12) && p + 12 < WORD_LIMIT && Load(mem, p, 12) == PAYLOAD
  }

  /** The instructions of the code, byte by byte. */
  lemma CodeBytes(mem: seq<byte>, p: nat)
    requires CodeAt(mem, p)
    ensures Load(mem, p, 2) == [0x83, 0xC4] && mem[p + 2 - USER_VIRT_TOP] == 4
    ensures Load(mem, p + 3, 2)[0] == 0xB8 && Load(mem, p + 3, 1) == [0xB8] && Load(mem, p + 4, 4) == [0x0A, 0, 0, 0]
    ensures Load(mem, p + 8, 2) == [0xCD, 0x80] && Load(mem, p + 8, 1)[0] == 0xCD
  {
    var at := p - USER_VIRT_TOP;
    var code := Load(mem, p, 12);
    assert code[0] == mem[at] && code[1] == mem[at + 1] && code[2] == mem[at + 2] && code[3] == mem[at + 3];
    assert code[4] == mem[at + 4] && code[5] == mem[at + 5] && code[6] == mem[at + 6] && code[7] == mem[at + 7];
    assert code[8] == mem[at + 8] && code[9] == mem[at + 9];
    assert Load(mem, p, 2) == [mem[at], mem[at + 1]];
    assert Load(mem, p + 3, 2) == [mem[at + 3], mem[at + 4]] && Load(mem, p + 3, 1) == [mem[at + 3]];
    assert Load(mem, p + 4, 4) == [mem[at + 4], mem[at + 5], mem[at + 6], mem[at + 7]];
    assert Load(mem, p + 8, 2) == [mem[at + 8], mem[at + 9]] && Load(mem, p + 8, 1) == [mem[at + 8]];
  }

  lemma AddRuns(r: Context, flags: word, p: nat)
    requires CodeAt(r.mem, p) && r.regs[EIP] == p && r.regs[ESP] + 4 < WORD_LIMIT
    ensures Step(r, flags) == Next(r.(regs := r.regs[ESP := r.regs[ESP] + 4][EIP := p + 3][EFLAGS := flags]))
  {
    CodeBytes(r.mem, p);
    assert InArea(r.mem, p, 3);
    hide CodeAt, PAYLOAD, Load, InArea, Word32;
  }

  lemma Word32OfTen()
    ensures Word32([0x0A, 0, 0, 0]) == SYS_SIGRETURN
  {
    assert [0x0A, 0, 0, 0][..2] == [0x0A, 0] && [0x0A, 0, 0, 0][2..] == [0, 0];
  }

  lemma MovRuns(r: Context, flags: word, p: nat)
    requires CodeAt(r.mem, p) && r.regs[EIP] == p + 3
    ensures Step(r, flags) == Next(r.(regs := r.regs[EAX := SYS_SIGRETURN][EIP := p + 8]))
  {
    CodeBytes(r.mem, p);
    Word32OfTen();
    assert Load(r.mem, p + 3, 2) != [0x83, 0xC4];
    hide CodeAt, PAYLOAD, Word32;
  }

  lemma IntRuns(r: Context, flags: word, p: nat)
    requires CodeAt(r.mem, p) && r.regs[EIP] == p + 8
    ensures Step(r, flags) == Trap(r.(regs := r.regs[EIP := p + 10]))
  {
    CodeBytes(r.mem, p);
    assert Load(r.mem, p + 8, 2) != [0x83, 0xC4] && Load(r.mem, p + 8, 1) != [0xB8];
    hide CodeAt, PAYLOAD;
  }

  /** The stack pointer the injected system call is made with: the frame is gone but for the registers and the code. */
  function TrapEsp(esp: nat): int {
    esp - (FRAME_SIZE - 8)
  }

  /** A signal that interrupts a process here can be returned from: the injected call will pass the check. */
  predicate Returnable(s: Context) {
    USER_STACK_TOP < TrapEsp(s.regs[ESP]) < USER_VIRT_BOT - 4
  }

  /** The trap of a refused call: memory and segments are the handler's, and the stack pointer is the refused one. */
  predicate RefusedWith(trap: Context, r: Context, esp: int) {
    trap.mem == r.mem && trap.regs[ESP] == esp && trap.regs[XCS] == r.regs[XCS] && trap.regs[ORIG_EAX] == SYS_SIGRETURN
  }

  /** The last instruction, with saved registers at the stack pointer. */
  lemma InjectedReturns(i: Context, flags: word, p: nat, saved: Regs)
    requires CodeAt(i.mem, p) && i.regs[EIP] == p + 8 && i.regs[EAX] == SYS_SIGRETURN
    requires InArea(i.mem, i.regs[ESP], REGS_SIZE) && Load(i.mem, i.regs[ESP], REGS_SIZE) == WordBytes(saved)
    ensures StackRefused(SYS_SIGRETURN, i.regs[ESP]) ==>
              Enter(At(i), flags).Refused? && RefusedWith(Enter(At(i), flags).trap, i, i.regs[ESP])
    ensures !StackRefused(SYS_SIGRETURN, i.regs[ESP]) ==> Enter(At(i), flags) == At(Context(saved, i.mem))
  {
    hide Step, Word32, Bytes32, WordBytes, BytesToWords, CodeAt, Load, StackRefused;
    IntRuns(i, flags, p);
    WordsRoundTrip(saved);
  }

  lemma FrameDelivered(s: Context, k: KSignal)
    requires CanDeliver(s) && k.sig < SIG_COUNT
    ensures InArea(Deliver(s, k).mem, s.regs[ESP] - FRAME_SIZE, FRAME_SIZE)
    ensures Load(Deliver(s, k).mem, s.regs[ESP] - FRAME_SIZE, FRAME_SIZE) ==
      Frame(s.regs, k.sig, s.regs[ESP] - |PAYLOAD|)
  {
    var e := s.regs[ESP] - FRAME_SIZE;
    SliceOfSplice(s.mem, e - USER_VIRT_TOP, Frame(s.regs, k.sig, s.regs[ESP] - |PAYLOAD|), e - USER_VIRT_TOP,
        FRAME_SIZE);
  }

  /** Bit 9 of the flags lets interrupts through. */
  lemma UnmaskBit(k: nat)
    ensures Bit(0x200, k) <==> k == 9
  {
    assert Pow2(9) == 0x200 && Pow2(1) - 1 == 1;
    ShiftedBit(1, 9, k);
    if k >= 9 {
      OnesBit(1, k - 9);
    }
  }

  /**
   The handler runs next, in user mode and with interrupts, on its frame; every other register, and every other flag,
   is as it was.
   */
  ghost predicate HandlerRuns(was: seq<word>, now: seq<word>, handler: word) {
    && |was| == |now| == 16
    && now[11] == handler && now[12] == 0x23 && was[14] >= now[14] && was[14] - now[14] == 84 && now[15] == 0x2B
    && (forall k: nat :: Bit(now[13], k) <==> Bit(was[13], k) || k == 9)
    && forall i: nat :: i < 16 && i != 11 && i != 12 && i != 13 && i != 14 && i != 15 ==> now[i] == was[i]
  }

  /** From an address up, sixteen words. */
  predicate WordsAt(mem: seq<byte>, at: nat, regs: seq<word>) {
    InArea(mem, at, 64) && |regs| == 16 && forall i: nat :: i < 16 ==> Word32(Load(mem, at + 4 * i, 4)) == regs[i]
  }

  /** From e up: the address of the injected code, the signal number, the sixteen registers and the code. */
  predicate FrameReads(mem: seq<byte>, e: nat, regs: seq<word>, sig: word) {
    && InArea(mem, e, 84)
    && Word32(Load(mem, e, 4)) == e + 72 && Word32(Load(mem, e + 4, 4)) == sig
    && WordsAt(mem, e + 8, regs)
    && Load(mem, e + 72, 12) == [0x83, 0xC4, 4, 0xB8, 10, 0, 0, 0, 0xCD, 0x80, 0, 0]
  }

  /** The frame reaches from the new stack pointer up to the old one, and no other byte changes. */
  ghost predicate FrameBuilt(regs: seq<word>, was: seq<byte>, now: seq<byte>, sig: word) {
    && |regs| == 16 && |now| == |was| && regs[14] >= 84 && FrameReads(now, regs[14] - 84, regs, sig)
    && forall k: nat :: k < |now| && (k < regs[14] - 84 - USER_VIRT_TOP || k >= regs[14] - USER_VIRT_TOP) ==>
         now[k] == was[k]
  }

  lemma HandlerEntered(s: Context, k: KSignal)
    requires CanDeliver(s) && k.sig < SIG_COUNT
    ensures HandlerRuns(s.regs, Deliver(s, k).regs, k.handler)
  {
    var flags := s.regs[EFLAGS];
    forall b: nat
      ensures Bit(Or(flags, EFLAGS_UNMASK), b) <==> Bit(flags, b) || b == 9
    {
      OperatorBits(flags, EFLAGS_UNMASK, b);
      UnmaskBit(b);
    }
    hide Bit, Or, Frame, Splice;
  }

  lemma SliceOfTail<T>(a: seq<T>, b: seq<T>, at: nat, n: nat)
    requires at + n <= |b|
    ensures Slice(a + b, |a| + at, n) == Slice(b, at, n)
  {
  }

  lemma TailWords(s: seq<word>, i: nat)
    requires 0 < i < |s|
    ensures Slice(WordBytes(s), 4 * i, 4) == Slice(WordBytes(s[1..]), 4 * (i - 1), 4)
  {
    var head, tail := Bytes32(s[0]), WordBytes(s[1..]);
    assert WordBytes(s) == head + tail;
    hide WordBytes, Bytes32;
    SliceOfTail(head, tail, 4 * (i - 1), 4);
  }

  lemma {:induction false} WordOfBytes(s: seq<word>, i: nat)
    requires i < |s|
    ensures Slice(WordBytes(s), 4 * i, 4) == Bytes32(s[i])
    decreases i
  {
    hide Bytes32;
    if i > 0 {
      TailWords(s, i);
      hide WordBytes, Slice;
      WordOfBytes(s[1..], i - 1);
    }
  }

  lemma SavedWord(mem: seq<byte>, at: nat, regs: Regs, i: nat)
    requires InArea(mem, at, REGS_SIZE) && Load(mem, at, REGS_SIZE) == WordBytes(regs) && i < REGS
    ensures Word32(Load(mem, at + 4 * i, 4)) == regs[i]
  {
    WordOfBytes(regs, i);
    Word32RoundTrip(regs[i]);
    hide WordBytes, Bytes32, Word32;
    PartAt(mem, at, REGS_SIZE, 4 * i, 4);
  }

  lemma DeliveredOutside(s: Context, k: KSignal)
    requires CanDeliver(s) && k.sig < SIG_COUNT
    ensures var now := Deliver(s, k).mem;
      var from: nat := s.regs[ESP] - FRAME_SIZE - USER_VIRT_TOP;
      forall j: nat :: j < |now| && (j < from || j >= from + FRAME_SIZE) ==> now[j] == s.mem[j]
  {
    hide Frame;
  }

  lemma FrameIsRead(mem: seq<byte>, e: nat, regs: Regs, sig: word)
    requires InArea(mem, e, FRAME_SIZE) && e + 72 < WORD_LIMIT
    requires Load(mem, e, FRAME_SIZE) == Frame(regs, sig, e + 72)
    ensures FrameReads(mem, e, regs, sig)
  {
    hide Word32, Bytes32, WordBytes, Frame, Load;
    FrameParts(mem, e, regs, sig, e + 72);
    Word32RoundTrip(e + 72);
    Word32RoundTrip(sig);
    forall i: nat | i < 16
      ensures Word32(Load(mem, e + 8 + 4 * i, 4)) == regs[i]
    {
      SavedWord(mem, e + 8, regs, i);
    }
  }

  lemma FrameIsBuilt(s: Context, k: KSignal)
    requires CanDeliver(s) && k.sig < SIG_COUNT
    ensures FrameBuilt(s.regs, s.mem, Deliver(s, k).mem, k.sig)
  {
    hide Deliver, Frame, Load, FrameReads;
    FrameDelivered(s, k);
    FrameIsRead(Deliver(s, k).mem, s.regs[ESP] - FRAME_SIZE, s.regs, k.sig);
    DeliveredOutside(s, k);
  }

  /** `handle_signal` behind the restoring of the masks: the frame, and the registers for the return to user mode. */
  method HandleSignal(regs: array<word>, mem: array<byte>, ksig: KSignal)
    requires regs.Length == REGS && CanDeliver(Context(regs[..], mem[..])) && ksig.sig < SIG_COUNT
    modifies regs, mem
    ensures Context(regs[..], mem[..]) == Deliver(Context(old(regs[..]), old(mem[..])), ksig)
    ensures HandlerRuns(old(regs[..]), regs[..], ksig.handler)
    ensures FrameBuilt(old(regs[..]), old(mem[..]), mem[..], ksig.sig)
  {
    ghost var s := Context(regs[..], mem[..]);
    var saved: Regs := regs[..];
    hide Frame, Splice, EntryRegs, HandlerRuns, FrameBuilt;
    HandlerEntered(s, ksig);
    FrameIsBuilt(s, ksig);
    var userEsp := PushFrame(mem, regs[ESP], saved, ksig.sig);
    EnterHandler(regs, ksig.handler, userEsp);
  }

  /** The parts of the frame are still there when the handler returns. */
  lemma FrameIntact(s: Context, k: KSignal, mem: seq<byte>, e: nat, ret: word)
    requires CanDeliver(s) && k.sig < SIG_COUNT && USER_VIRT_TOP + |s.mem| < WORD_LIMIT
    requires e == s.regs[ESP] - FRAME_SIZE && ret == s.regs[ESP] - |PAYLOAD| && SameFrom(Deliver(s, k).mem, mem, e)
    ensures InArea(mem, e, FRAME_SIZE) && e + FRAME_SIZE < WORD_LIMIT
    ensures Load(mem, e, 4) == Bytes32(ret) && Load(mem, e + 8, REGS_SIZE) == WordBytes(s.regs) && CodeAt(mem, ret)
  {
    FrameDelivered(s, k);
    LoadSame(Deliver(s, k).mem, mem, e, e, FRAME_SIZE);
    FrameParts(mem, e, s.regs, k.sig, ret);
  }

  lemma CodeKept(mem: seq<byte>, after: seq<byte>, a: nat, p: nat)
    requires SameFrom(mem, after, a) && a <= p && CodeAt(mem, p)
    ensures CodeAt(after, p)
  {
    LoadSame(mem, after, a, p, 12);
  }

  // ---------- runs with nested deliveries ----------

  /** Whether a process with these registers goes on to read an address. */
  type Live = (Regs, nat) -> bool

  /**
   What a process does from some point on: nothing more, a piece of its own code, or a signal, whose handler does
   something and returns, after which the process goes on. `live` says where the process looks after a piece of code.
   Signals may also come while the injected code runs.
   */
  datatype Run =
    | Done
    | Local(code: Context -> Context, live: Live, rest: Run)
    | Signal(k: KSignal, flags: word, body: Run, pauses: Pauses, rest: Run)

  /** The signals that come before each of the three injected instructions. */
  datatype Pauses = Pauses(add: Run, mov: Run, trap: Run)

  const NO_PAUSES: Pauses := Pauses(Done, Done, Done)

  /** The process itself does nothing, whatever the handlers do. */
  predicate OnlySignals(run: Run) {
    match run
    case Done => true
    case Local(_, _, _) => false
    case Signal(_, _, _, _, rest) => OnlySignals(rest)
  }

  /** User code that leaves the stack from `floor` up alone, and its stack pointer below. */
  predicate Allowed(s: Context, to: Context, floor: nat) {
    SameFrom(s.mem, to.mem, floor) && USER_VIRT_TOP <= to.regs[ESP] <= floor
  }

  /**
   The state a run ends in. It is stuck when user code does what is not allowed, or a handler returns with another stack
   pointer, and refused when the system call of a returning handler is.
   */
  function Outcome(s: Context, floor: nat, run: Run): Ending
    decreases run, 0
  {
    match run
    case Done => At(s)
    case Local(code, _, rest) => if Allowed(s, code(s), floor) then Outcome(code(s), floor, rest) else Stuck
    case Signal(k, flags, body, pauses, rest) =>
      if !CanDeliver(s) || k.sig >= SIG_COUNT then Stuck
      else
        var h := Deliver(s, k);
        match Outcome(h, h.regs[ESP], body)
        case At(r) => (
          if r.regs[ESP] != h.regs[ESP] then Stuck
          else match ReturnPath(r, flags, pauses)
            case At(t) => Outcome(t, floor, rest)
            case refused => refused)
        case refused => refused
  }

  /** Signals at a point of the injected code. */
  function Pause(from: Ending, run: Run): Ending
    decreases run, 1
  {
    match from
    case At(s) => if OnlySignals(run) then Outcome(s, s.regs[ESP], run) else Stuck
    case _ => from
  }

  /** The injected code up to its last instruction, with the signals that come meanwhile. */
  function Injected(s: Context, flags: word, pauses: Pauses): Ending
    decreases pauses, 0
  {
    Pause(Go(Pause(Go(Pause(At(s), pauses.add), flags), pauses.mov), flags), pauses.trap)
  }

  /** From the handler's `ret` to the end of `sys_sigreturn`. */
  function ReturnPath(s: Context, flags: word, pauses: Pauses): Ending
    decreases pauses, 1
  {
    match Ret(s)
    case At(s1) => Enter(Injected(s1, flags, pauses), flags)
    case _ => Stuck
  }

  /** A state inside the page, with its stack pointer at or below the floor. */
  predicate Inside(s: Context, floor: nat) {
    USER_VIRT_TOP <= s.regs[ESP] <= floor <= USER_VIRT_TOP + |s.mem| < WORD_LIMIT
  }

  lemma DeliverKeeps(s: Context, k: KSignal)
    requires CanDeliver(s) && k.sig < SIG_COUNT
    ensures SameFrom(s.mem, Deliver(s, k).mem, s.regs[ESP])
  {
  }

  lemma SameFromChain(a: seq<byte>, b: seq<byte>, c: seq<byte>, p: nat)
    requires SameFrom(a, b, p) && SameFrom(b, c, p)
    ensures SameFrom(a, c, p)
  {
  }

  /** The state after `ret`: the code is next, with the signal number on top of the stack. */
  predicate AtCode(s: Context, r: Context, s1: Context) {
    && s1.mem == r.mem && s1.regs[ESP] == s.regs[ESP] - FRAME_SIZE + 4 && s1.regs[EIP] == s.regs[ESP] - |PAYLOAD|
    && CodeAt(r.mem, s.regs[ESP] - |PAYLOAD|) && Inside(s1, s1.regs[ESP])
    && Load(r.mem, s1.regs[ESP] + 4, REGS_SIZE) == WordBytes(s.regs) && s1.regs[XCS] == r.regs[XCS]
  }

  lemma RetToCode(s: Context, k: KSignal, r: Context) returns (s1: Context)
    requires CanDeliver(s) && k.sig < SIG_COUNT && USER_VIRT_TOP + |s.mem| < WORD_LIMIT
    requires r.regs[ESP] == Deliver(s, k).regs[ESP] && SameFrom(Deliver(s, k).mem, r.mem, r.regs[ESP])
    ensures Ret(r) == At(s1) && AtCode(s, r, s1)
  {
    var e: nat, ret: word := r.regs[ESP], s.regs[ESP] - |PAYLOAD|;
    FrameIntact(s, k, r.mem, e, ret);
    Word32RoundTrip(ret);
    hide Word32, Bytes32, WordBytes, Deliver, Frame, CodeAt, Load;
    s1 := r.(regs := r.regs[EIP := ret][ESP := e + 4]);
  }

  /** Signals at a point of the injected code leave registers and stack alone, and the code that is above. */
  lemma {:induction false} PauseKeeps(s: Context, run: Run, t: Context, p: nat)
    requires Inside(s, s.regs[ESP]) && Pause(At(s), run) == At(t)
    requires s.regs[ESP] <= p && CodeAt(s.mem, p)
    ensures t.regs == s.regs && SameFrom(s.mem, t.mem, s.regs[ESP]) && CodeAt(t.mem, p)
    decreases run, 4
  {
    SignalsKeep(s, s.regs[ESP], run, t);
    CodeKept(s.mem, t.mem, s.regs[ESP], p);
  }

  /** Signals, and then `add esp, 4`. */
  lemma {:induction false} AddKeeps(s1: Context, flags: word, run: Run, p: nat)
    requires CodeAt(s1.mem, p) && s1.regs[EIP] == p && s1.regs[ESP] + 4 <= p && Inside(s1, s1.regs[ESP])
    requires Pause(At(s1), run).At?
    ensures Go(Pause(At(s1), run), flags).At?
    ensures var s2 := Go(Pause(At(s1), run), flags).m;
      && s2.regs == s1.regs[ESP := s1.regs[ESP] + 4][EIP := p + 3][EFLAGS := flags]
      && SameFrom(s1.mem, s2.mem, s2.regs[ESP]) && CodeAt(s2.mem, p) && Inside(s2, s2.regs[ESP])
    decreases run, 5
  {
    assert p + 12 <= USER_VIRT_TOP + |s1.mem| < WORD_LIMIT;
    hide CodeAt, Pause, Step;
    var t := Pause(At(s1), run).m;
    PauseKeeps(s1, run, t, p);
    AddRuns(t, flags, p);
    SameFromUp(s1.mem, t.mem, s1.regs[ESP], s1.regs[ESP] + 4);
  }

  /** Signals, and then `mov eax, 10`. */
  lemma {:induction false} MovKeeps(s2: Context, flags: word, run: Run, p: nat)
    requires CodeAt(s2.mem, p) && s2.regs[EIP] == p + 3 && s2.regs[ESP] <= p && Inside(s2, s2.regs[ESP])
    requires Pause(At(s2), run).At?
    ensures Go(Pause(At(s2), run), flags).At?
    ensures var s3 := Go(Pause(At(s2), run), flags).m;
      && s3.regs == s2.regs[EAX := SYS_SIGRETURN][EIP := p + 8]
      && SameFrom(s2.mem, s3.mem, s3.regs[ESP]) && CodeAt(s3.mem, p) && Inside(s3, s3.regs[ESP])
    decreases run, 5
  {
    assert p + 12 <= USER_VIRT_TOP + |s2.mem| < WORD_LIMIT;
    hide CodeAt, Pause, Step;
    var t := Pause(At(s2), run).m;
    PauseKeeps(s2, run, t, p);
    MovRuns(t, flags, p);
  }

  /** The injected code comes to its last instruction by way of the others. */
  lemma InjectedSteps(s1: Context, flags: word, pauses: Pauses)
    requires Injected(s1, flags, pauses).At?
    ensures var two := Go(Pause(At(s1), pauses.add), flags);
      var three := Go(Pause(two, pauses.mov), flags);
      && Pause(At(s1), pauses.add).At? && two.At? && Pause(two, pauses.mov).At? && three.At?
      && Injected(s1, flags, pauses) == Pause(three, pauses.trap)
  {
    hide Outcome, Step;
  }

  /** The injected code comes to its last instruction with what it needs there. */
  lemma {:induction false} InjectedKeeps(s1: Context, flags: word, pauses: Pauses, p: nat, i: Context)
    requires CodeAt(s1.mem, p) && s1.regs[EIP] == p && s1.regs[ESP] + 4 <= p && Inside(s1, s1.regs[ESP])
    requires Injected(s1, flags, pauses) == At(i)
    ensures CodeAt(i.mem, p) && i.regs[EIP] == p + 8 && i.regs[EAX] == SYS_SIGRETURN
    ensures i.regs[ESP] == s1.regs[ESP] + 4 && i.regs[XCS] == s1.regs[XCS]
    ensures SameFrom(s1.mem, i.mem, s1.regs[ESP] + 4)
    decreases pauses, 0
  {
    hide CodeAt, Outcome, Step, Go, Pause, Injected, SameFrom;
    InjectedSteps(s1, flags, pauses);
    var two := Go(Pause(At(s1), pauses.add), flags);
    var three := Go(Pause(two, pauses.mov), flags);
    AddKeeps(s1, flags, pauses.add, p);
    MovKeeps(two.m, flags, pauses.mov, p);
    PauseKeeps(three.m, pauses.trap, i, p);
    SameFromChain(s1.mem, two.m.mem, three.m.mem, s1.regs[ESP] + 4);
    SameFromChain(s1.mem, three.m.mem, i.mem, s1.regs[ESP] + 4);
  }

  /** How the way back from a handler ends, by how the injected code comes to its system call. */
  predicate Returns(s: Context, injected: Ending, back: Ending) {
    match injected
    case At(i) =>
      && SameFrom(s.mem, i.mem, s.regs[ESP])
      && (Returnable(s) ==> back == At(Context(s.regs, i.mem)))
      && (!Returnable(s) ==> back.Refused? && RefusedWith(back.trap, i, TrapEsp(s.regs[ESP])))
    case _ => back == injected
  }

  /** The saved registers, and the stack above the interrupted stack pointer, when the injected system call is made. */
  lemma SavedKept(s: Context, mem: seq<byte>, r: Context, s1: Context, i: Context)
    requires s.regs[ESP] >= FRAME_SIZE && SameFrom(s.mem, mem, s.regs[ESP]) && AtCode(s, r, s1)
    requires SameFrom(mem, r.mem, s.regs[ESP] - FRAME_SIZE)
    requires SameFrom(s1.mem, i.mem, s1.regs[ESP] + 4) && i.regs[ESP] == s1.regs[ESP] + 4
    ensures InArea(i.mem, i.regs[ESP], REGS_SIZE) && Load(i.mem, i.regs[ESP], REGS_SIZE) == WordBytes(s.regs)
    ensures SameFrom(s.mem, i.mem, s.regs[ESP])
  {
    hide CodeAt, WordBytes;
    LoadSame(s1.mem, i.mem, i.regs[ESP], i.regs[ESP], REGS_SIZE);
    SameFromUp(mem, r.mem, s.regs[ESP] - FRAME_SIZE, s.regs[ESP]);
    SameFromUp(s1.mem, i.mem, i.regs[ESP], s.regs[ESP]);
    SameFromChain(s.mem, mem, r.mem, s.regs[ESP]);
    SameFromChain(s.mem, r.mem, i.mem, s.regs[ESP]);
  }

  lemma EnterOnly(from: Ending, flags: word)
    requires !from.At?
    ensures Enter(from, flags) == from
  {
  }

  /**
   A handler that comes to its `ret` with the stack pointer it was entered with, and has not written from there up, ends
   with the registers that were interrupted if and only if the interrupted stack pointer left room above the section's
   top and all signals that come while the injected code runs return; otherwise `sys_sigreturn` does not run.
   */
  lemma {:induction false} ReturnRestores(s: Context, k: KSignal, r: Context, flags: word, pauses: Pauses)
      returns (s1: Context)
    requires CanDeliver(s) && k.sig < SIG_COUNT && USER_VIRT_TOP + |s.mem| < WORD_LIMIT
    requires r.regs[ESP] == Deliver(s, k).regs[ESP] && SameFrom(Deliver(s, k).mem, r.mem, r.regs[ESP])
    ensures Ret(r) == At(s1) && AtCode(s, r, s1)
    ensures Returns(s, Injected(s1, flags, pauses), ReturnPath(r, flags, pauses))
    decreases pauses, 1
  {
    s1 := RetToCode(s, k, r);
    DeliverKeeps(s, k);
    hide Step, WordBytes, BytesToWords, Deliver, Frame, CodeAt, Load, Enter, Injected, SameFrom, Ret;
    if Injected(s1, flags, pauses).At? {
      var p, i := s.regs[ESP] - |PAYLOAD|, Injected(s1, flags, pauses).m;
      InjectedKeeps(s1, flags, pauses, p, i);
      SavedKept(s, Deliver(s, k).mem, r, s1, i);
      InjectedReturns(i, flags, p, s.regs);
    } else {
      EnterOnly(Injected(s1, flags, pauses), flags);
    }
  }

  /** What the handler of a signal does, deliveries to any depth included, up to its `ret`. */
  predicate HandlerReturns(s: Context, run: Run, r: Context)
    requires run.Signal?
  {
    && CanDeliver(s) && run.k.sig < SIG_COUNT && USER_VIRT_TOP + |s.mem| < WORD_LIMIT
    && Outcome(Deliver(s, run.k), Deliver(s, run.k).regs[ESP], run.body) == At(r)
    && r.regs[ESP] == Deliver(s, run.k).regs[ESP]
  }

  /**
   A delivery inside a run: whatever the handler does, further deliveries to any depth included, once it comes to its
   `ret` every register is restored, and so is the stack from the interrupted stack pointer up, if and only if the
   interrupted stack pointer left room and the signals in the injected code return; otherwise the call is refused.
   */
  lemma {:induction false} DeliveryRestores(s: Context, run: Run, r: Context) returns (s1: Context)
    requires run.Signal? && HandlerReturns(s, run, r)
    ensures Ret(r) == At(s1) && AtCode(s, r, s1)
    ensures Returns(s, Injected(s1, run.flags, run.pauses), ReturnPath(r, run.flags, run.pauses))
    decreases run, 0
  {
    var h := Deliver(s, run.k);
    assert Inside(h, h.regs[ESP]);
    hide ReturnPath, Outcome, Deliver, Returnable;
    RunKeeps(h, h.regs[ESP], run.body, r);
    s1 := ReturnRestores(s, run.k, r, run.flags, run.pauses);
  }

  /** Where a run goes on behind a signal it got over. */
  lemma {:induction false} AfterSignal(s: Context, floor: nat, run: Run, t: Context) returns (back: Context)
    requires Inside(s, floor) && run.Signal? && Outcome(s, floor, run) == At(t)
    ensures back.regs == s.regs && SameFrom(s.mem, back.mem, s.regs[ESP]) && SameFrom(s.mem, back.mem, floor)
    ensures Outcome(back, floor, run.rest) == At(t) && Inside(back, floor) && Returnable(s)
    decreases run, 1
  {
    hide ReturnPath, Returnable;
    var h := Deliver(s, run.k);
    var r := Outcome(h, h.regs[ESP], run.body).m;
    var s1 := DeliveryRestores(s, run, r);
    back := Context(s.regs, Injected(s1, run.flags, run.pauses).m.mem);
    SameFromUp(s.mem, back.mem, s.regs[ESP], floor);
  }

  /** A run leaves the stack from its floor up alone. */
  lemma {:induction false} RunKeeps(s: Context, floor: nat, run: Run, t: Context)
    requires Inside(s, floor) && Outcome(s, floor, run) == At(t)
    ensures SameFrom(s.mem, t.mem, floor) && Inside(t, floor)
    decreases run, 2
  {
    hide ReturnPath, Deliver;
    match run
    case Done =>
    case Local(code, _, rest) =>
      RunKeeps(code(s), floor, rest, t);
      SameFromChain(s.mem, code(s).mem, t.mem, floor);
    case Signal(_, _, _, _, rest) =>
      var back := AfterSignal(s, floor, run, t);
      RunKeeps(back, floor, rest, t);
      SameFromChain(s.mem, back.mem, t.mem, floor);
  }

  /** Signals alone leave the registers, and the stack from the floor up, as they were. */
  lemma {:induction false} SignalsKeep(s: Context, floor: nat, run: Run, t: Context)
    requires Inside(s, floor) && OnlySignals(run) && Outcome(s, floor, run) == At(t)
    ensures t.regs == s.regs && SameFrom(s.mem, t.mem, floor)
    decreases run, 3
  {
    RunKeeps(s, floor, run, t);
    if run.Signal? {
      var back := AfterSignal(s, floor, run, t);
      hide Outcome;
      SignalsKeep(back, floor, run.rest, t);
    }
  }

  // ---------- a process does not see its signals ----------

  /** Two states of a process that differ at most where it does not look. */
  ghost predicate Agree(a: Context, b: Context, live: Live) {
    && a.regs == b.regs && |a.mem| == |b.mem|
    && forall p: nat :: live(a.regs, p) && InArea(a.mem, p, 1) ==> a.mem[p - USER_VIRT_TOP] == b.mem[p - USER_VIRT_TOP]
  }

  /** Nothing below the stack pointer is relied on: that is where frames go. */
  ghost predicate OnStack(s: Context, live: Live) {
    forall p: nat :: live(s.regs, p) ==> s.regs[ESP] <= p
  }

  /** What the code does to the registers and to what it leaves for later depends on nothing else. */
  ghost predicate DependsOn(code: Context -> Context, live: Live, later: Live, floor: nat) {
    forall s: Context, x: Context ::
      Inside(s, floor) && Inside(x, floor) && Agree(s, x, live) && OnStack(s, live) && Allowed(s, code(s), floor) ==>
        Allowed(x, code(x), floor) && Agree(code(s), code(x), later) && OnStack(code(s), later)
  }

  /** Every piece of the process's own code depends only on its registers and what it relies on. */
  ghost predicate Determined(run: Run, live: Live, floor: nat) {
    match run
    case Done => true
    case Local(code, later, rest) => DependsOn(code, live, later, floor) && Determined(rest, later, floor)
    case Signal(_, _, _, _, rest) => Determined(rest, live, floor)
  }

  /** The run without its signals. */
  function Undisturbed(run: Run): Run {
    match run
    case Done => Done
    case Local(code, live, rest) => Local(code, live, Undisturbed(rest))
    case Signal(_, _, _, _, rest) => Undisturbed(rest)
  }

  /** What the process relies on in the end. */
  function LiveAfter(run: Run, live: Live): Live {
    match run
    case Done => live
    case Local(_, later, rest) => LiveAfter(rest, later)
    case Signal(_, _, _, _, rest) => LiveAfter(rest, live)
  }

  lemma SameFromAgree(s: Context, t: Context, live: Live)
    requires t.regs == s.regs && SameFrom(s.mem, t.mem, s.regs[ESP]) && OnStack(s, live)
    ensures Agree(t, s, live)
  {
    forall p: nat | live(t.regs, p) && InArea(t.mem, p, 1)
      ensures t.mem[p - USER_VIRT_TOP] == s.mem[p - USER_VIRT_TOP]
    {
      assert s.mem[p - USER_VIRT_TOP] == s.mem[s.regs[ESP] - USER_VIRT_TOP..][p - s.regs[ESP]];
      assert t.mem[p - USER_VIRT_TOP] == t.mem[s.regs[ESP] - USER_VIRT_TOP..][p - s.regs[ESP]];
    }
  }

  /**
   Signals are transparent to a run none of whose returns is refused: the same code without them, started with the same
   registers and the same bytes where it looks, is allowed too and ends with the same registers and bytes.
   */
  lemma {:induction false} SignalsAreTransparent(s: Context, x: Context, floor: nat, live: Live, run: Run,
      t: Context) returns (u: Context)
    requires Inside(s, floor) && Inside(x, floor) && Agree(s, x, live) && OnStack(s, live)
    requires Determined(run, live, floor) && Outcome(s, floor, run) == At(t)
    ensures Outcome(x, floor, Undisturbed(run)) == At(u) && Agree(t, u, LiveAfter(run, live))
    decreases run
  {
    match run
    case Done =>
      u := x;
    case Local(code, later, rest) =>
      u := SignalsAreTransparent(code(s), code(x), floor, later, rest, t);
    case Signal(_, _, _, _, rest) =>
      var back := AfterSignal(s, floor, run, t);
      SameFromAgree(s, back, live);
      u := SignalsAreTransparent(back, x, floor, live, rest, t);
  }

  /** A process that looks at its stack from the stack pointer up. */
  predicate FromStack(regs: Regs, p: nat) {
    regs[ESP] <= p
  }

  /** `push eax` */
  function PushEax(s: Context): Context {
    var esp := s.regs[ESP];
    if esp >= 4 && InArea(s.mem, esp - 4, 4) then
      Context(s.regs[ESP := esp - 4], Splice(s.mem, esp - 4 - USER_VIRT_TOP, Bytes32(s.regs[EAX])))
    else
      s
  }

  lemma PushAllowed(s: Context, x: Context, floor: nat)
    requires Inside(x, floor) && s.regs == x.regs && |s.mem| == |x.mem|
    requires Allowed(s, PushEax(s), floor)
    ensures Allowed(x, PushEax(x), floor)
  {
  }

  lemma PushAgrees(s: Context, x: Context)
    requires Agree(s, x, FromStack)
    ensures Agree(PushEax(s), PushEax(x), FromStack)
  {
    hide Bytes32;
    var to, esp: nat := PushEax(s), s.regs[ESP];
    forall p: nat | FromStack(to.regs, p) && InArea(to.mem, p, 1)
      ensures to.mem[p - USER_VIRT_TOP] == PushEax(x).mem[p - USER_VIRT_TOP]
    {
      if p >= esp {
        assert FromStack(s.regs, p);
      }
    }
  }

  /** An instruction that uses the stack is such code, for a process that looks at all of its stack. */
  lemma PushDepends(floor: nat)
    ensures DependsOn(PushEax, FromStack, FromStack, floor)
  {
    forall s: Context, x: Context | Inside(s, floor) && Inside(x, floor) && Agree(s, x, FromStack)
      && OnStack(s, FromStack) && Allowed(s, PushEax(s), floor)
      ensures Allowed(x, PushEax(x), floor) && Agree(PushEax(s), PushEax(x), FromStack)
      ensures OnStack(PushEax(s), FromStack)
    {
      PushAllowed(s, x, floor);
      PushAgrees(s, x);
    }
  }

  // ---------- when returns are refused ----------

  /** Every signal that comes at a point of the injected code can be returned from. */
  predicate PauseReturnable(from: Ending, run: Run)
    decreases run, 1
  {
    from.At? && OnlySignals(run) ==> AllReturnable(from.m, from.m.regs[ESP], run)
  }

  predicate InjectedReturnable(s: Context, flags: word, pauses: Pauses)
    decreases pauses, 0
  {
    var s2 := Go(Pause(At(s), pauses.add), flags);
    var s3 := Go(Pause(s2, pauses.mov), flags);
    PauseReturnable(At(s), pauses.add) && PauseReturnable(s2, pauses.mov) && PauseReturnable(s3, pauses.trap)
  }

  /** Every signal of the run that comes to its system call interrupted the process where it can be returned from. */
  predicate AllReturnable(s: Context, floor: nat, run: Run)
    decreases run, 0
  {
    match run
    case Done => true
    case Local(code, _, rest) => Allowed(s, code(s), floor) ==> AllReturnable(code(s), floor, rest)
    case Signal(k, flags, body, pauses, rest) =>
      CanDeliver(s) && k.sig < SIG_COUNT ==>
        var h := Deliver(s, k);
        && AllReturnable(h, h.regs[ESP], body)
        && match Outcome(h, h.regs[ESP], body)
           case At(r) => r.regs[ESP] == h.regs[ESP] && Ret(r).At? ==>
               && InjectedReturnable(Ret(r).m, flags, pauses)
               && (Injected(Ret(r).m, flags, pauses).At? ==>
                     && Returnable(s)
                     && AllReturnable(Context(s.regs, Injected(Ret(r).m, flags, pauses).m.mem), floor, rest))
           case _ => true
  }

  lemma {:induction false} PauseRefused(s: Context, run: Run)
    requires Inside(s, s.regs[ESP])
    ensures Pause(At(s), run).Refused? <==> !PauseReturnable(At(s), run)
    decreases run, 1
  {
    if OnlySignals(run) {
      RefusedWhen(s, s.regs[ESP], run);
    }
  }

  lemma {:induction false} InjectedRefused(s1: Context, flags: word, pauses: Pauses, p: nat)
    requires CodeAt(s1.mem, p) && s1.regs[EIP] == p && s1.regs[ESP] + 4 <= p && Inside(s1, s1.regs[ESP])
    ensures Injected(s1, flags, pauses).Refused? <==> !InjectedReturnable(s1, flags, pauses)
    decreases pauses, 0
  {
    hide CodeAt, Outcome, Step, AllReturnable;
    PauseRefused(s1, pauses.add);
    if Pause(At(s1), pauses.add).At? {
      AddKeeps(s1, flags, pauses.add, p);
      var s2 := Go(Pause(At(s1), pauses.add), flags).m;
      PauseRefused(s2, pauses.mov);
      if Pause(At(s2), pauses.mov).At? {
        MovKeeps(s2, flags, pauses.mov, p);
        PauseRefused(Go(Pause(At(s2), pauses.mov), flags).m, pauses.trap);
      }
    }
  }

  /** A run is refused if and only if some signal of it interrupted the process with too little stack left. */
  lemma {:induction false} RefusedWhen(s: Context, floor: nat, run: Run)
    requires Inside(s, floor)
    ensures Outcome(s, floor, run).Refused? <==> !AllReturnable(s, floor, run)
    decreases run, 0
  {
    hide Returnable, Injected, InjectedReturnable;
    match run
    case Done =>
    case Local(code, _, rest) =>
      if Allowed(s, code(s), floor) {
        RefusedWhen(code(s), floor, rest);
      }
    case Signal(k, flags, body, pauses, rest) =>
      if CanDeliver(s) && k.sig < SIG_COUNT {
        var h := Deliver(s, k);
        RefusedWhen(h, h.regs[ESP], body);
        match Outcome(h, h.regs[ESP], body)
        case At(r) =>
          if r.regs[ESP] == h.regs[ESP] {
            var s1 := DeliveryRestores(s, run, r);
            InjectedRefused(s1, flags, pauses, s.regs[ESP] - |PAYLOAD|);
            if Injected(s1, flags, pauses).At? {
              var back := Context(s.regs, Injected(s1, flags, pauses).m.mem);
              RefusedWhen(back, floor, rest);
            }
          }
        case _ =>
      }
  }

  // ---------- how much stack signals need ----------

  /** Signals, in handlers and in the injected code, whose handlers do nothing else but return. */
  predicate Bare(run: Run) {
    match run
    case Done => true
    case Local(_, _, _) => false
    case Signal(k, _, body, pauses, rest) =>
      && k.sig < SIG_COUNT && Bare(body) && Bare(pauses.add) && Bare(pauses.mov) && Bare(pauses.trap) && Bare(rest)
  }

  function Max(a: nat, b: nat): nat {
    if a < b then b else a
  }

  /** How far below the stack pointer the lowest system call of a run of signals is made. */
  function Reach(run: Run): nat
    decreases run, 0
  {
    match run
    case Signal(_, _, body, pauses, rest) =>
      Max(Max(FRAME_SIZE - 8, ReachBelow(FRAME_SIZE, body)), Max(ReachOfPauses(pauses), Reach(rest)))
    case _ => 0
  }

  /** The same for a run that begins n bytes lower. */
  function ReachBelow(n: nat, run: Run): nat
    decreases run, 1
  {
    if run.Signal? then n + Reach(run) else 0
  }

  /** The injected code runs with four, and then eight bytes less on the stack than the handler. */
  function ReachOfPauses(pauses: Pauses): nat
    decreases pauses, 0
  {
    var mov, trap := ReachBelow(FRAME_SIZE - 8, pauses.mov), ReachBelow(FRAME_SIZE - 8, pauses.trap);
    Max(ReachBelow(FRAME_SIZE - 4, pauses.add), Max(mov, trap))
  }

  /** System calls down to n bytes below this stack pointer pass the check. */
  predicate RoomFor(esp: nat, n: nat) {
    USER_STACK_TOP < esp - n && TrapEsp(esp) < USER_VIRT_BOT - 4
  }

  lemma {:induction false} BareIsSignals(run: Run)
    requires Bare(run)
    ensures OnlySignals(run)
  {
    if run.Signal? {
      BareIsSignals(run.rest);
    }
  }

  /** Signals at a stack pointer all return. */
  predicate Fits(esp: nat, run: Run) {
    run.Signal? ==> RoomFor(esp, Reach(run))
  }

  predicate PausesFit(esp: nat, pauses: Pauses) {
    Fits(esp, pauses.add) && Fits(esp + 4, pauses.mov) && Fits(esp + 4, pauses.trap)
  }

  lemma FitsBelow(esp: nat, n: nat, run: Run)
    requires n <= esp && RoomFor(esp, FRAME_SIZE - 8)
    ensures USER_STACK_TOP < esp - ReachBelow(n, run) <==> Fits(esp - n, run)
  {
    hide Reach;
  }

  lemma RestFits(esp: nat, run: Run)
    requires RoomFor(esp, FRAME_SIZE - 8)
    ensures USER_STACK_TOP < esp - Reach(run) <==> Fits(esp, run)
  {
  }

  /** A run of signals fits when each of them does, and those in its handler and its injected code. */
  lemma ReachMeans(esp: nat, run: Run)
    requires run.Signal? && FRAME_SIZE <= esp
    ensures RoomFor(esp, Reach(run)) <==>
      && RoomFor(esp, FRAME_SIZE - 8) && Fits(esp - FRAME_SIZE, run.body)
      && PausesFit(esp - FRAME_SIZE + 4, run.pauses) && Fits(esp, run.rest)
  {
    var body, add, mov, trap, rest := run.body, run.pauses.add, run.pauses.mov, run.pauses.trap, run.rest;
    var n, pauses := ReachBelow(FRAME_SIZE, body), ReachOfPauses(run.pauses);
    assert Reach(run) == Max(Max(FRAME_SIZE - 8, n), Max(pauses, Reach(rest)));
    if RoomFor(esp, FRAME_SIZE - 8) {
      FitsBelow(esp, FRAME_SIZE, body);
      FitsBelow(esp, FRAME_SIZE - 4, add);
      FitsBelow(esp, FRAME_SIZE - 8, mov);
      FitsBelow(esp, FRAME_SIZE - 8, trap);
      hide Fits, Reach, ReachBelow;
      RestFits(esp, rest);
    }
  }

  lemma {:induction false} PauseFits(s: Context, run: Run)
    requires Inside(s, s.regs[ESP]) && s.regs[XCS] == USER_CS && Bare(run)
    ensures Pause(At(s), run).At? <==> Fits(s.regs[ESP], run)
    decreases run, 2
  {
    BareIsSignals(run);
    SignalsReturn(s, s.regs[ESP], run);
  }

  lemma {:induction false} InjectedFits(s1: Context, flags: word, pauses: Pauses, p: nat)
    requires CodeAt(s1.mem, p) && s1.regs[EIP] == p && s1.regs[ESP] + 4 <= p && Inside(s1, s1.regs[ESP])
    requires s1.regs[XCS] == USER_CS && Bare(pauses.add) && Bare(pauses.mov) && Bare(pauses.trap)
    ensures Injected(s1, flags, pauses).At? <==>
      && Fits(s1.regs[ESP], pauses.add) && Fits(s1.regs[ESP] + 4, pauses.mov) && Fits(s1.regs[ESP] + 4, pauses.trap)
    decreases pauses, 0
  {
    hide CodeAt, Outcome, Step, Fits;
    PauseFits(s1, pauses.add);
    if Pause(At(s1), pauses.add).At? {
      AddKeeps(s1, flags, pauses.add, p);
      var s2 := Go(Pause(At(s1), pauses.add), flags).m;
      PauseFits(s2, pauses.mov);
      if Pause(At(s2), pauses.mov).At? {
        MovKeeps(s2, flags, pauses.mov, p);
        PauseFits(Go(Pause(At(s2), pauses.mov), flags).m, pauses.trap);
      }
    }
  }

  lemma BackWhen(s: Context, injected: Ending, back: Ending)
    requires s.regs[ESP] >= FRAME_SIZE && Returns(s, injected, back)
    ensures back.At? <==> injected.At? && RoomFor(s.regs[ESP], FRAME_SIZE - 8)
    ensures back.At? ==> back.m.regs == s.regs && |back.m.mem| == |s.mem|
  {
  }

  /** A handler that only takes signals returns if and only if there is room for its system call and those before it. */
  lemma {:induction false} HandlerFits(s: Context, run: Run, r: Context)
    requires run.Signal? && Bare(run) && CanDeliver(s) && USER_VIRT_TOP + |s.mem| < WORD_LIMIT
    requires Outcome(Deliver(s, run.k), Deliver(s, run.k).regs[ESP], run.body) == At(r)
    ensures r.regs[ESP] == s.regs[ESP] - FRAME_SIZE
    ensures var back := ReturnPath(r, run.flags, run.pauses);
      && (back.At? <==> RoomFor(s.regs[ESP], FRAME_SIZE - 8) && PausesFit(s.regs[ESP] - FRAME_SIZE + 4, run.pauses))
      && (back.At? ==> back.m.regs == s.regs && |back.m.mem| == |s.mem|)
    decreases run, 0
  {
    hide Outcome, Injected, ReturnPath, CodeAt, Fits, Returns, RoomFor, Deliver, SameFrom;
    var h := Deliver(s, run.k);
    BareIsSignals(run.body);
    SignalsKeep(h, h.regs[ESP], run.body, r);
    var s1 := DeliveryRestores(s, run, r);
    InjectedFits(s1, run.flags, run.pauses, s.regs[ESP] - |PAYLOAD|);
    BackWhen(s, Injected(s1, run.flags, run.pauses), ReturnPath(r, run.flags, run.pauses));
  }

  /** A run gets over a signal when its handler, the way back and the rest come to an end. */
  lemma SignalSteps(s: Context, floor: nat, run: Run)
    requires run.Signal? && CanDeliver(s) && run.k.sig < SIG_COUNT
    ensures var h := Deliver(s, run.k);
      var body := Outcome(h, h.regs[ESP], run.body);
      Outcome(s, floor, run).At? <==>
        && body.At? && body.m.regs[ESP] == h.regs[ESP]
        && ReturnPath(body.m, run.flags, run.pauses).At?
        && Outcome(ReturnPath(body.m, run.flags, run.pauses).m, floor, run.rest).At?
  {
    hide ReturnPath, Deliver;
  }

  lemma NoSteps(s: Context, floor: nat, run: Run)
    requires Inside(s, floor) && s.regs[XCS] == USER_CS && Bare(run) && (!run.Signal? || !CanDeliver(s))
    ensures Outcome(s, floor, run).At? <==> Fits(s.regs[ESP], run)
  {
  }

  lemma Entered(s: Context, floor: nat, run: Run)
    requires Inside(s, floor) && CanDeliver(s) && Bare(run) && run.Signal?
    ensures Bare(run.body) && Bare(run.rest) && run.k.sig < SIG_COUNT && FRAME_SIZE <= s.regs[ESP]
    ensures USER_VIRT_TOP + |s.mem| < WORD_LIMIT && s.regs[XCS] == USER_CS
    ensures var h := Deliver(s, run.k);
      Inside(h, h.regs[ESP]) && h.regs[XCS] == USER_CS && h.regs[ESP] == s.regs[ESP] - FRAME_SIZE
    ensures Fits(s.regs[ESP], run) <==> RoomFor(s.regs[ESP], Reach(run))
  {
    hide RoomFor, Reach;
  }

  lemma InsideSame(s: Context, t: Context, floor: nat)
    requires Inside(s, floor) && t.regs == s.regs && |t.mem| == |s.mem|
    ensures Inside(t, floor)
  {
  }

  /**
   Signals whose handlers only return, nested in handlers and in the injected code in any way, all return if and only
   if the stack has room for the lowest of their system calls.
   */
  lemma {:induction false} SignalsReturn(s: Context, floor: nat, run: Run)
    requires Inside(s, floor) && s.regs[XCS] == USER_CS && Bare(run)
    ensures Outcome(s, floor, run).At? <==> Fits(s.regs[ESP], run)
    decreases run, 1
  {
    assert ESP == 14;
    hide *;
    if !run.Signal? || !CanDeliver(s) {
      NoSteps(s, floor, run);
    } else {
      Entered(s, floor, run);
      var h := Deliver(s, run.k);
      ReachMeans(s.regs[ESP], run);
      SignalSteps(s, floor, run);
      SignalsReturn(h, h.regs[ESP], run.body);
      if Outcome(h, h.regs[ESP], run.body).At? {
        var r := Outcome(h, h.regs[ESP], run.body).m;
        HandlerFits(s, run, r);
        if ReturnPath(r, run.flags, run.pauses).At? {
          InsideSame(s, ReturnPath(r, run.flags, run.pauses).m, floor);
          SignalsReturn(ReturnPath(r, run.flags, run.pauses).m, floor, run.rest);
        }
      }
    }
  }

  /** Signals that interrupt each other's handlers on entry. */
  function Nested(ks: seq<KSignal>, flags: word): Run {
    if ks == [] then Done else Signal(ks[0], flags, Nested(ks[1..], flags), NO_PAUSES, Done)
  }

  lemma {:induction false} NestedReach(ks: seq<KSignal>, flags: word)
    requires forall i :: 0 <= i < |ks| ==> ks[i].sig < SIG_COUNT
    ensures Bare(Nested(ks, flags)) && (ks != [] ==> Reach(Nested(ks, flags)) == FRAME_SIZE * |ks| - 8)
    decreases |ks|
  {
    if ks != [] {
      NestedReach(ks[1..], flags);
    }
  }

  /** n nested signals all return, with every register restored, if and only if there is room for n frames. */
  lemma NestReturns(s: Context, floor: nat, ks: seq<KSignal>, flags: word)
    requires Inside(s, floor) && s.regs[XCS] == USER_CS && ks != []
    requires forall i :: 0 <= i < |ks| ==> ks[i].sig < SIG_COUNT
    ensures Outcome(s, floor, Nested(ks, flags)).At? <==> RoomFor(s.regs[ESP], FRAME_SIZE * |ks| - 8)
    ensures Outcome(s, floor, Nested(ks, flags)).At? ==> Outcome(s, floor, Nested(ks, flags)).m.regs == s.regs
  {
    NestedReach(ks, flags);
    var run := Nested(ks, flags);
    SignalsReturn(s, floor, run);
    BareIsSignals(run);
    if Outcome(s, floor, run).At? {
      SignalsKeep(s, floor, run, Outcome(s, floor, run).m);
    }
  }

  /** One signal whose handler only returns, and nothing else: it returns, or its system call is refused. */
  lemma OneSignal(s: Context, floor: nat, k: KSignal, flags: word)
    requires CanDeliver(s) && Inside(s, floor) && k.sig < SIG_COUNT
    ensures Outcome(s, floor, Nested([k], flags)).At? <==> Returnable(s)
    ensures Outcome(s, floor, Nested([k], flags)).Refused? <==> !Returnable(s)
  {
    var run := Signal(k, flags, Done, NO_PAUSES, Done);
    var h := Deliver(s, k);
    var s1 := DeliveryRestores(s, run, h);
    InjectedFits(s1, flags, NO_PAUSES, s.regs[ESP] - |PAYLOAD|);
    hide ReturnPath, Deliver, CodeAt, Injected, Returnable;
    assert Nested([k], flags) == run by {
      assert [k][1..] == [];
    }
  }

  /** A process in user mode with this stack pointer. */
  function Sample(esp: word): (s: Context)
    requires USER_STACK_TOP <= esp < USER_VIRT_BOT
    ensures CanDeliver(s) && s.regs[ESP] == esp && Inside(s, esp)
  {
    Context(seq(REGS, _ => 0)[XCS := USER_CS][ESP := esp], seq(USER_VIRT_BOT - USER_VIRT_TOP, _ => 0))
  }

  /** A delivery whose return is refused: the stack pointer is 64 bytes above the top of the section. */
  lemma ReturnRefused(k: KSignal, flags: word) returns (s: Context)
    requires k.sig < SIG_COUNT
    ensures CanDeliver(s) && s.regs[ESP] == USER_STACK_TOP + 64 && Outcome(s, s.regs[ESP], Nested([k], flags)).Refused?
  {
    s := Sample(USER_STACK_TOP + 64);
    OneSignal(s, s.regs[ESP], k, flags);
  }

  /**
   A delivery with room to return, 80 bytes above the top of the section, that is refused all the same: another signal
   comes when the handler has returned and the injected code is about to run.
   */
  lemma RefusedOnTheWay(k: KSignal, j: KSignal, flags: word) returns (s: Context)
    requires k.sig < SIG_COUNT && j.sig < SIG_COUNT
    ensures CanDeliver(s) && Returnable(s) && s.regs[ESP] == USER_STACK_TOP + 80
    ensures Outcome(s, s.regs[ESP], Nested([k], flags)).At?
    ensures Outcome(s, s.regs[ESP], Signal(k, flags, Done, Pauses(Nested([j], flags), Done, Done), Done)).Refused?
  {
    s := Sample(USER_STACK_TOP + 80);
    OneSignal(s, s.regs[ESP], k, flags);
    var pauses := Pauses(Nested([j], flags), Done, Done);
    var run := Signal(k, flags, Done, pauses, Done);
    var h := Deliver(s, k);
    var s1 := DeliveryRestores(s, run, h);
    hide Deliver, CodeAt;
    OneSignal(s1, s1.regs[ESP], j, flags);
    BareIsSignals(Nested([j], flags));
  }

  // ---------- the system call, with the queue of signals ----------

  /** The registers on the kernel stack and the user page are no table of the kernel's. */
  ghost predicate Apart(state: SignalState, regs: array<word>, mem: array<byte>) {
    && regs != state.handler && regs != state.mask && regs != state.sigmaskInfo
    && regs != state.heap.heapMap && regs != state.heap.heapPageTable && mem != state.heap.mem
    && mem as object != state.handler && mem as object != state.mask && mem as object != state.sigmaskInfo
    && mem as object != state.heap.heapMap && mem as object != state.heap.heapPageTable && mem as object != regs
    && regs as object != state.heap.mem
  }

  /** What `do_signal` does first with a queue, and what it leaves of it. */
  predicate Replayed(state: SignalState, queue: seq<Sigaction>, d: Delivery, after: seq<Sigaction>)
    requires state.handler.Length == SIG_COUNT
    reads state.handler
  {
    if queue == [] then d == Nothing && after == []
    else queue[0].sig < SIG_COUNT && d == DeliveryOf(queue[0].sig, state.handler[queue[0].sig]) && after == queue[1..]
  }

  lemma TailOfWords(b: seq<byte>, i: nat)
    requires |b| % 4 == 0 && 0 < i && 4 * i + 4 <= |b|
    ensures |b[4..]| % 4 == 0 && BytesToWords(b)[i] == BytesToWords(b[4..])[i - 1]
    ensures Slice(b, 4 * i, 4) == Slice(b[4..], 4 * (i - 1), 4)
  {
    assert BytesToWords(b) == [Word32(b[..4])] + BytesToWords(b[4..]);
    hide BytesToWords, Word32;
    assert b == b[..4] + b[4..];
    SliceOfTail(b[..4], b[4..], 4 * (i - 1), 4);
  }

  lemma {:induction false} WordsFromBytes(b: seq<byte>, i: nat)
    requires |b| % 4 == 0 && 4 * i + 4 <= |b|
    ensures BytesToWords(b)[i] == Word32(Slice(b, 4 * i, 4))
    decreases i
  {
    hide Word32;
    if i > 0 {
      TailOfWords(b, i);
      hide BytesToWords, Slice;
      WordsFromBytes(b[4..], i - 1);
    }
  }

  lemma RestoredWord(mem: seq<byte>, at: nat, i: nat)
    requires InArea(mem, at, REGS_SIZE) && i < REGS
    ensures BytesToWords(Load(mem, at, REGS_SIZE))[i] == Word32(Load(mem, at + 4 * i, 4))
  {
    WordsFromBytes(Load(mem, at, REGS_SIZE), i);
    hide BytesToWords, Word32;
    PartAt(mem, at, REGS_SIZE, 4 * i, 4);
  }

  lemma WordsRestored(s: Context)
    requires InArea(s.mem, s.regs[ESP], REGS_SIZE)
    ensures var saved := BytesToWords(Load(s.mem, s.regs[ESP], REGS_SIZE));
      Sigreturn(s) == At(Context(saved, s.mem)) && WordsAt(s.mem, s.regs[ESP], saved)
  {
    hide BytesToWords, Word32, Load;
    forall i: nat | i < 16
      ensures BytesToWords(Load(s.mem, s.regs[ESP], REGS_SIZE))[i] == Word32(Load(s.mem, s.regs[ESP] + 4 * i, 4))
    {
      RestoredWord(s.mem, s.regs[ESP], i);
    }
  }

  /** The copy in `sys_sigreturn`. */
  method RestoreRegs(regs: array<word>, mem: array<byte>)
    requires regs.Length == REGS && InArea(mem[..], regs[ESP], REGS_SIZE)
    modifies regs
    ensures Sigreturn(Context(old(regs[..]), mem[..])) == At(Context(regs[..], mem[..]))
    ensures WordsAt(mem[..], old(regs[ESP]), regs[..])
  {
    var esp := regs[ESP];
    WordsRestored(Context(regs[..], mem[..]));
    hide BytesToWords, Sigreturn, Load, WordsAt;
    var saved: Regs := BytesToWords(Load(mem[..], esp, REGS_SIZE));
    CopyInto(regs, 0, saved);
    SpliceAll(old(regs[..]), saved);
  }

  /** `sys_sigreturn`: all registers come from the user stack; then the oldest pending signal is replayed. */
  method SysSigreturn(state: SignalState, regs: array<word>, mem: array<byte>) returns (d: Delivery)
    requires state.Valid() && Apart(state, regs, mem) && regs.Length == REGS && InArea(mem[..], regs[ESP], REGS_SIZE)
    modifies regs, state`ring, state`queue, state`nodes, state.nodes, state.heap, state.heap.heapMap
    modifies state.heap.heapPageTable, state.mask, state.sigmaskInfo
    ensures state.Valid() && mem[..] == old(mem[..]) && state.nodes <= old(state.nodes)
    ensures Sigreturn(Context(old(regs[..]), mem[..])) == At(Context(regs[..], mem[..]))
    ensures WordsAt(mem[..], old(regs[ESP]), regs[..])
    ensures regs[XCS] == USER_CS ==> Replayed(state, old(state.queue), d, state.queue)
    ensures regs[XCS] != USER_CS ==> d == Nothing && state.queue == old(state.queue)
  {
    hide KernelHeap.Valid, AllHeld, Sigreturn, WordsAt;
    RestoreRegs(regs, mem);
    d := Nothing;
    var empty := ListIsEmpty(state.sigpending, state.ring);
    if !empty {
      d := state.DoSignal(regs[XCS]);
    }
  }

  /** What the two calls of `do_signal` on the way back to the user come to: the second only after an ignored signal. */
  predicate ReplayedTwice(state: SignalState, queue: seq<Sigaction>, d: Delivery, after: seq<Sigaction>)
    requires state.handler.Length == SIG_COUNT
    reads state.handler
  {
    if queue != [] && queue[0].sig < SIG_COUNT && DeliveryOf(queue[0].sig, state.handler[queue[0].sig]) == Nothing then
      Replayed(state, queue[1..], d, after)
    else
      Replayed(state, queue, d, after)
  }

  /**
   `do_sys` for the call of the injected code, and the `do_signal` on the way out of the kernel. A refused call leaves
   the registers alone; a call that is let through restores them.
   */
  method SigreturnCall(state: SignalState, regs: array<word>, mem: array<byte>)
      returns (refused: bool, ok: bool, d: Delivery)
    requires state.Valid() && Apart(state, regs, mem) && regs.Length == REGS && regs[ORIG_EAX] == SYS_SIGRETURN
    requires StackRefused(SYS_SIGRETURN, regs[ESP]) || InArea(mem[..], regs[ESP], REGS_SIZE)
    modifies regs, state`ring, state`queue, state`nodes, state.nodes, state.heap, state.heap.heapMap
    modifies state.heap.heapPageTable, state.heap.mem, state.mask, state.sigmaskInfo
    ensures state.Valid() && mem[..] == old(mem[..]) && refused == StackRefused(SYS_SIGRETURN, old(regs[ESP]))
    ensures refused <==> old(regs[ESP]) <= 0x820_0000 || old(regs[ESP]) >= 0x83F_FFFC
    ensures refused ==> regs[..] == old(regs[..])
    ensures refused && ok && regs[XCS] == USER_CS && old(state.Pending()) == [] ==> d == Killed(ERR_STACK)
    ensures refused && ok && regs[XCS] == USER_CS && old(state.Pending()) != [] ==>
              state.Pending() == old(state.Pending())[1..] + [STACKFAULT]
    ensures !refused ==> Sigreturn(Context(old(regs[..]), mem[..])) == At(Context(regs[..], mem[..]))
    ensures !refused && regs[XCS] == USER_CS ==> ReplayedTwice(state, old(state.queue), d, state.queue)
  {
    hide KernelHeap.Valid, SignalState.QueueValid, SignalState.Settled, AllHeld, Sigreturn, Numbers;
    refused, ok := StackRefused(regs[ORIG_EAX], regs[ESP]), true;
    if refused {
      ok, d := state.StackFault(regs[XCS]);
    } else {
      d := SysSigreturn(state, regs, mem);
      if d == Nothing {
        d := state.DoSignal(regs[XCS]);
      }
    }
  }
}
