/**
 * Signal delivery on the return path of a system call and its inverse,
 * `rt_sigreturn`: libkernel/src/syscall.rs, libkernel/src/signal.rs and
 * osl/src/signal.rs.  The frame on the user stack is printed by one and parsed
 * by the other; handlers may nest to any depth.
 *
 * User memory is kept as 64-bit words at their addresses: every frame starts
 * at a multiple of eight and is a whole number of words long.
 */
module Signals {
  import opened Base
  import opened Bits

  const NUM_SIGNALS: nat := 64
  const SIGKILL: nat := 9
  const SIGSTOP: nat := 19
  const SIG_DFL: nat := 0
  const SIG_IGN: nat := 1
  const SA_SIGINFO: nat := 4
  const SIG_BLOCK: nat := 0
  const SIG_UNBLOCK: nat := 1
  const SIG_SETMASK: nat := 2
  const EFAULT: int := 14
  const EINVAL: int := 22

  // The frame: pretcode, ucontext header, 32 words of sigcontext, signal mask, siginfo.
  const PRETCODE_SIZE: nat := 8
  const UC_HEADER: nat := 8 + 8 + 24
  const SIGCONTEXT_SIZE: nat := 32 * 8
  const UC_TAIL: nat := 8
  const UCONTEXT_SIZE: nat := UC_HEADER + SIGCONTEXT_SIZE + UC_TAIL
  const SIGINFO_SIZE: nat := 128
  const FRAME_SIZE: nat := PRETCODE_SIZE + UCONTEXT_SIZE + SIGINFO_SIZE
  const FRAME_WORDS: nat := FRAME_SIZE / 8

  type Memory = map<nat, nat>

  /** The registers the system-call stub pushes. */
  datatype SavedFrame = SavedFrame(rcx: nat, r11: nat, rdi: nat, rsi: nat, rdx: nat, r10: nat, r8: nat, r9: nat)

  datatype SigAction = SigAction(handler: nat, flags: nat, restorer: nat, mask: nat)

  datatype Status = Alive | Killed(signum: nat) | Panicked

  /** What the kernel works on: user memory, the saved registers, the user RSP, RAX and the signal state. */
  datatype Kernel = Kernel(
    mem: Memory,
    frame: SavedFrame,
    rsp: nat,
    rax: nat,
    blocked: nat,
    pending: nat,
    actions: seq<SigAction>,
    status: Status)

  /** What a delivery interrupts and the matching return must bring back. */
  datatype Context = Context(frame: SavedFrame, rsp: nat, rax: nat, blocked: nat)

  predicate WellFormed(k: Kernel) {
    |k.actions| == NUM_SIGNALS && k.pending < U64 && k.rsp < U64
  }

  function ContextOf(k: Kernel): Context {
    Context(k.frame, k.rsp, k.rax, k.blocked)
  }

  function SignalBit(signum: nat): nat
    requires signum >= 1
  {
    Pow2(signum - 1)
  }

  function Unblockable(): nat {
    Or(SignalBit(SIGKILL), SignalBit(SIGSTOP))
  }

  /** Neither SIGKILL nor SIGSTOP is in the mask. */
  predicate Blockable(mask: nat) {
    !Bit(mask, SIGKILL - 1) && !Bit(mask, SIGSTOP - 1)
  }

  // ---- the frame ----

  function FrameBase(rsp: nat): nat
    requires FRAME_SIZE + 8 <= rsp < U64
  {
    And(rsp - FRAME_SIZE - 8, Not64(15)) + 8
  }

  /** The frame lies below the interrupted stack pointer, and its base is where a `call` would leave RSP. */
  lemma FrameBaseFits(rsp: nat)
    requires FRAME_SIZE + 8 <= rsp < U64
    ensures FrameBase(rsp) % 16 == 8
    ensures FrameBase(rsp) + FRAME_SIZE <= rsp < FrameBase(rsp) + FRAME_SIZE + 16
  {
    hide And;
    RoundDown16(rsp - FRAME_SIZE - 8);
  }

  lemma RoundDown16(x: nat)
    requires x < U64
    ensures And(x, Not64(15)) == x - x % 16
  {
    Pow2Values();
    hide And, Pow2;
    MaskRoundsDown(x, 64, 4);
  }

  /** Word `j` of the frame: where each part of the context is kept. */
  function FrameWord(c: Context, restorer: nat, signum: nat, j: nat): nat {
    match j
    case 0 => restorer
    case 6 => c.frame.r8
    case 7 => c.frame.r9
    case 8 => c.frame.r10
    case 9 => c.frame.r11
    case 14 => c.frame.rdi
    case 15 => c.frame.rsi
    case 18 => c.frame.rdx
    case 19 => c.rax
    case 20 => c.frame.rcx
    case 21 => c.rsp
    case 22 => c.frame.rcx
    case 23 => c.frame.r11
    case 38 => c.blocked
    case 39 => signum
    case _ => 0
  }

  function FrameImage(c: Context, restorer: nat, signum: nat): (r: seq<nat>)
    ensures |r| == FRAME_WORDS
    ensures forall j | 0 <= j < FRAME_WORDS :: r[j] == FrameWord(c, restorer, signum, j)
  {
    seq(FRAME_WORDS, j requires 0 <= j => FrameWord(c, restorer, signum, j))
  }

  function WriteWords(mem: Memory, base: nat, words: seq<nat>): Memory {
    if words == [] then mem
    else WriteWords(mem, base, words[..|words| - 1])[base + 8 * (|words| - 1) := words[|words| - 1]]
  }

  predicate InFrame(a: nat, base: nat, n: nat) {
    base <= a < base + 8 * n && (a - base) % 8 == 0
  }

  lemma {:induction false} WrittenAt(mem: Memory, base: nat, words: seq<nat>, a: nat)
    ensures var r := WriteWords(mem, base, words);
            if InFrame(a, base, |words|)
            then a in r && r[a] == words[(a - base) / 8]
            else (a in r <==> a in mem) && (a in mem ==> r[a] == mem[a])
  {
    if words != [] {
      WrittenAt(mem, base, words[..|words| - 1], a);
    }
  }

  function ReadWord(mem: Memory, a: nat): nat {
    if a in mem then mem[a] else 0
  }

  // ---- kernel operations ----

  function Masked(blocked: nat, mask: nat, signum: nat): nat
    requires signum >= 1
  {
    AndNot(Or(blocked, Or(mask, SignalBit(signum))), Unblockable())
  }

  predicate WantsInfo(action: SigAction) {
    And(action.flags, SA_SIGINFO) != 0
  }

  /** `deliver_signal`. */
  function Delivered(k: Kernel, signum: nat, action: SigAction): Kernel
    requires signum >= 1 && FRAME_SIZE + 8 <= k.rsp < U64
  {
    var base := FrameBase(k.rsp);
    var info := WantsInfo(action);
    k.(mem := WriteWords(k.mem, base, FrameImage(ContextOf(k), action.restorer, signum)),
       frame := k.frame.(rcx := action.handler,
                         rdi := signum,
                         rsi := if info then base + PRETCODE_SIZE + UCONTEXT_SIZE else 0,
                         rdx := if info then base + PRETCODE_SIZE else 0),
       rsp := base,
       blocked := Masked(k.blocked, action.mask, signum))
  }

  function SigContextWord(mem: Memory, base: nat, i: nat): nat {
    ReadWord(mem, base + PRETCODE_SIZE + UC_HEADER + 8 * i)
  }

  /** `sys_rt_sigreturn`, entered with RSP just above the consumed return address. */
  function Returned(k: Kernel): Kernel
    requires k.rsp >= PRETCODE_SIZE
  {
    var base := k.rsp - PRETCODE_SIZE;
    k.(frame := SavedFrame(
                  SigContextWord(k.mem, base, 16), SigContextWord(k.mem, base, 17),
                  SigContextWord(k.mem, base, 8), SigContextWord(k.mem, base, 9), SigContextWord(k.mem, base, 12),
                  SigContextWord(k.mem, base, 2), SigContextWord(k.mem, base, 0), SigContextWord(k.mem, base, 1)),
       rsp := SigContextWord(k.mem, base, 15),
       rax := SigContextWord(k.mem, base, 13),
       blocked := AndNot(SigContextWord(k.mem, base, 32), Unblockable()))
  }

  predicate DefaultTerminates(signum: nat) {
    1 <= signum <= 15
  }

  predicate DefaultIgnores(signum: nat) {
    signum == 17 || signum == 18
  }

  function Deliverable(k: Kernel): nat {
    AndNot(k.pending, k.blocked)
  }

  /** The lowest pending signal that is not blocked. */
  function NextSignal(k: Kernel): (signum: nat)
    requires WellFormed(k) && Deliverable(k) != 0
    ensures 1 <= signum <= NUM_SIGNALS
    ensures Bit(Deliverable(k), signum - 1) && forall i | 0 <= i < signum - 1 :: !Bit(Deliverable(k), i)
  {
    var b := LowestBit(Deliverable(k));
    assert b < NUM_SIGNALS by {
      if b >= NUM_SIGNALS { Pow2Monotone(64, b); Pow2Values(); }
    }
    b + 1
  }

  /** `check_pending_signals` of a user process. */
  function Checked(k: Kernel): Kernel
    requires WellFormed(k)
  {
    if Deliverable(k) == 0 then k
    else
      var signum := NextSignal(k);
      var k' := k.(pending := AndNot(k.pending, SignalBit(signum)));
      var action := k.actions[signum - 1];
      if action.handler == SIG_IGN then k'
      else if action.handler == SIG_DFL then
        if !DefaultIgnores(signum) && DefaultTerminates(signum) then k'.(status := Killed(signum)) else k'
      else if k.rsp < FRAME_SIZE + 8 then k'.(status := Panicked)
      else Delivered(k', signum, action)
  }

  function Queue(pending: nat, signum: nat): nat {
    if 1 <= signum <= NUM_SIGNALS then Or(pending, SignalBit(signum)) else pending
  }

  function MaskAfter(blocked: nat, how: nat, set_: nat): nat {
    if how == SIG_BLOCK then Or(blocked, AndNot(set_, Unblockable()))
    else if how == SIG_UNBLOCK then AndNot(blocked, set_)
    else if how == SIG_SETMASK then AndNot(set_, Unblockable())
    else blocked
  }

  /** `rt_sigaction` refuses SIGKILL and SIGSTOP; the signal number is truncated to a byte first. */
  function ActionIndex(signum: nat): (r: Option<nat>)
    ensures r.Some? ==> r.value < NUM_SIGNALS && r.value != SIGKILL - 1 && r.value != SIGSTOP - 1
  {
    var sig := signum % 256;
    if sig < 1 || sig > NUM_SIGNALS || sig == SIGKILL || sig == SIGSTOP then None else Some(sig - 1)
  }

  // ---- masks ----

  lemma AndNotUnblockable(x: nat)
    ensures Blockable(AndNot(x, Unblockable()))
    ensures Blockable(x) ==> AndNot(x, Unblockable()) == x
  {
    UnblockableBit(SIGKILL - 1);
    UnblockableBit(SIGSTOP - 1);
    AndNotBit(x, Unblockable(), SIGKILL - 1);
    AndNotBit(x, Unblockable(), SIGSTOP - 1);
    if Blockable(x) {
      var y := AndNot(x, Unblockable());
      BelowPow2(x);
      forall i | 0 <= i < x
        ensures Bit(y, i) <==> Bit(x, i)
      {
        UnblockableBit(i);
        AndNotBit(x, Unblockable(), i);
      }
      SameBits(y, x, x);
    }
  }

  lemma UnblockableBit(i: nat)
    ensures Bit(Unblockable(), i) <==> i == SIGKILL - 1 || i == SIGSTOP - 1
  {
    OrBit(SignalBit(SIGKILL), SignalBit(SIGSTOP), i);
    PowBit(SIGKILL - 1, i);
    PowBit(SIGSTOP - 1, i);
  }

  lemma {:induction false} BelowPow2(x: nat)
    ensures x < Pow2(x)
  {
    if x > 0 { BelowPow2(x - 1); }
  }

  lemma MaskAfterBlockable(blocked: nat, how: nat, set_: nat)
    requires Blockable(blocked)
    ensures Blockable(MaskAfter(blocked, how, set_))
  {
    hide AndNot, Or, Pow2, Bit, Unblockable;
    AndNotUnblockable(set_);
    var wanted := AndNot(set_, Unblockable());
    forall i | i == SIGKILL - 1 || i == SIGSTOP - 1
      ensures !Bit(MaskAfter(blocked, how, set_), i)
    {
      OrBit(blocked, wanted, i);
      AndNotBit(blocked, set_, i);
    }
  }

  /** The mask after `rt_sigprocmask`, bit by bit: 0 adds, 1 removes, 2 replaces, and signals 9 and 19 are never added. */
  lemma MaskAfterBit(blocked: nat, how: nat, set_: nat, i: nat)
    ensures Bit(MaskAfter(blocked, how, set_), i) <==>
            match how
            case 0 => Bit(blocked, i) || (Bit(set_, i) && i != 8 && i != 18)
            case 1 => Bit(blocked, i) && !Bit(set_, i)
            case 2 => Bit(set_, i) && i != 8 && i != 18
            case _ => Bit(blocked, i)
  {
    hide AndNot, Or, Pow2, Bit, Unblockable;
    UnblockableBit(i);
    AndNotBit(set_, Unblockable(), i);
    OrBit(blocked, AndNot(set_, Unblockable()), i);
    AndNotBit(blocked, set_, i);
  }

  lemma MaskAfterBits(blocked: nat, how: nat, set_: nat)
    ensures forall i: nat :: Bit(MaskAfter(blocked, how, set_), i) <==>
              match how
              case 0 => Bit(blocked, i) || (Bit(set_, i) && i != 8 && i != 18)
              case 1 => Bit(blocked, i) && !Bit(set_, i)
              case 2 => Bit(set_, i) && i != 8 && i != 18
              case _ => Bit(blocked, i)
  {
    hide MaskAfter, Bit;
    forall i: nat
      ensures Bit(MaskAfter(blocked, how, set_), i) <==>
              match how
              case 0 => Bit(blocked, i) || (Bit(set_, i) && i != 8 && i != 18)
              case 1 => Bit(blocked, i) && !Bit(set_, i)
              case 2 => Bit(set_, i) && i != 8 && i != 18
              case _ => Bit(blocked, i)
    {
      MaskAfterBit(blocked, how, set_, i);
    }
  }

  /** Queueing a signal in 1 to 64 sets its pending bit and no other; any other number changes nothing. */
  lemma QueueBit(pending: nat, signum: nat, i: nat)
    ensures Bit(Queue(pending, signum), i) <==> Bit(pending, i) || (1 <= signum <= 64 && i == signum - 1)
  {
    hide Or, Pow2, Bit;
    if 1 <= signum <= 64 {
      OrBit(pending, SignalBit(signum), i);
      PowBit(signum - 1, i);
    }
  }

  /** The signals whose default action ends the process, by number. */
  const TERMINATING: set<nat> := {1, 2, 3, 4, 5, 6, 7, 8, 9, 10, 11, 12, 13, 14, 15}

  /**
   * What the check does with the lowest deliverable signal: its pending bit goes in any case;
   * without a handler (0) the process ends exactly for the terminating signals; with handler 1, or
   * with none and any other signal, nothing else changes; otherwise the handler is entered, if the stack has room.
   */
  lemma Dispositions(k: Kernel)
    requires WellFormed(k) && Deliverable(k) != 0
    ensures var signum, r := NextSignal(k), Checked(k);
            var action := k.actions[signum - 1];
            var taken := k.(pending := r.pending);
            && (forall i: nat :: Bit(r.pending, i) <==> Bit(k.pending, i) && i != signum - 1)
            && (if action.handler == 0 && signum in TERMINATING then r == taken.(status := Killed(signum))
                else if action.handler == 0 || action.handler == 1 then r == taken
                else if k.rsp < 448 then r == taken.(status := Panicked)
                else r == Delivered(taken, signum, action))
  {
    hide AndNot, Or, Pow2, Bit, LowestBit, And, WriteWords, FrameBase, Masked, Unblockable;
    var signum := NextSignal(k);
    forall i: nat
      ensures Bit(AndNot(k.pending, SignalBit(signum)), i) <==> Bit(k.pending, i) && i != signum - 1
    {
      AndNotBit(k.pending, SignalBit(signum), i);
      PowBit(signum - 1, i);
    }
    assert signum in TERMINATING <==> 1 <= signum <= 15;
  }

  /** `rt_sigaction` accepts exactly the signals 1 to 64 other than 9 and 19, and sets the action that delivery looks up. */
  lemma ActionIndexIs(signum: nat)
    ensures ActionIndex(signum).Some? <==> 1 <= signum % 256 <= 64 && signum % 256 != 9 && signum % 256 != 19
    ensures ActionIndex(signum).Some? ==> ActionIndex(signum).value + 1 == signum % 256
  {
  }

  /** The handler runs with its action's mask and its own signal blocked, except for the unblockable two. */
  lemma MaskedBit(blocked: nat, mask: nat, signum: nat, i: nat)
    requires signum >= 1
    ensures Bit(Masked(blocked, mask, signum), i) <==>
            (Bit(blocked, i) || Bit(mask, i) || i == signum - 1) && i != SIGKILL - 1 && i != SIGSTOP - 1
  {
    hide AndNot, Or, Pow2, Bit, Unblockable;
    AndNotBit(Or(blocked, Or(mask, SignalBit(signum))), Unblockable(), i);
    UnblockableBit(i);
    OrBit(blocked, Or(mask, SignalBit(signum)), i);
    OrBit(mask, SignalBit(signum), i);
    PowBit(signum - 1, i);
  }

  // ---- one delivery, one return ----

  predicate FrameAt(mem: Memory, base: nat, c: Context, restorer: nat, signum: nat) {
    forall j | 0 <= j < FRAME_WORDS :: base + 8 * j in mem && mem[base + 8 * j] == FrameWord(c, restorer, signum, j)
  }

  ghost predicate AgreeFrom(m: Memory, m': Memory, a: nat) {
    forall x | x >= a :: (x in m <==> x in m') && (x in m ==> m'[x] == m[x])
  }

  /** What the handler finds on entry, and what it does not touch. */
  lemma DeliverEntersHandler(k: Kernel, signum: nat, action: SigAction)
    requires 1 <= signum && FRAME_SIZE + 8 <= k.rsp < U64
    ensures var r := Delivered(k, signum, action);
            && r.rsp % 16 == 8 && r.rsp + FRAME_SIZE <= k.rsp
            && r.frame.rcx == action.handler && r.frame.rdi == signum
            && ReadWord(r.mem, r.rsp) == action.restorer
            && (if Bit(action.flags, 2)
                then ReadWord(r.mem, r.frame.rsi) == signum && r.frame.rdx == r.rsp + 8
                else r.frame.rsi == 0 && r.frame.rdx == 0)
            && (r.frame.r8, r.frame.r9, r.frame.r10, r.frame.r11) == (k.frame.r8, k.frame.r9, k.frame.r10, k.frame.r11)
            && (r.rax, r.status, r.pending, r.actions) == (k.rax, k.status, k.pending, k.actions)
            && FrameAt(r.mem, r.rsp, ContextOf(k), action.restorer, signum)
            && AgreeFrom(k.mem, r.mem, r.rsp + FRAME_SIZE)
            && Blockable(r.blocked)
  {
    hide And, AndNot, Or, Pow2, Bit, Blockable, WriteWords, FrameBase, AgreeFrom, FrameAt;
    FrameBaseFits(k.rsp);
    InfoFlag(action);
    FrameIsWritten(k.mem, FrameBase(k.rsp), ContextOf(k), action.restorer, signum);
    FrameEnds(Delivered(k, signum, action).mem, FrameBase(k.rsp), ContextOf(k), action.restorer, signum);
    AndNotUnblockable(Or(k.blocked, Or(action.mask, SignalBit(signum))));
  }

  lemma InfoFlag(action: SigAction)
    ensures WantsInfo(action) <==> Bit(action.flags, 2)
  {
    FlagBit(action.flags, 2);
    Pow2Small();
  }

  /**
   * The frame in the layout of the x86-64 `rt_sigframe`: the return address, the registers of the
   * machine context from byte 48 on in the order r8 to r15, rdi, rsi, rbp, rbx, rdx, rax, rcx, rsp,
   * rip, eflags, the old mask behind them and the signal number at the start of the siginfo.
   */
  lemma FrameLayout(mem: Memory, base: nat, c: Context, restorer: nat, signum: nat)
    requires FrameAt(mem, base, c, restorer, signum)
    ensures ReadWord(mem, base) == restorer && ReadWord(mem, base + 304) == c.blocked && ReadWord(mem, base + 312) == signum
    ensures ReadWord(mem, base + 48) == c.frame.r8 && ReadWord(mem, base + 56) == c.frame.r9
    ensures ReadWord(mem, base + 64) == c.frame.r10 && ReadWord(mem, base + 72) == c.frame.r11
    ensures ReadWord(mem, base + 112) == c.frame.rdi && ReadWord(mem, base + 120) == c.frame.rsi
    ensures ReadWord(mem, base + 144) == c.frame.rdx && ReadWord(mem, base + 152) == c.rax
    ensures ReadWord(mem, base + 160) == c.frame.rcx && ReadWord(mem, base + 168) == c.rsp
    ensures ReadWord(mem, base + 176) == c.frame.rcx && ReadWord(mem, base + 184) == c.frame.r11
  {
    assert forall j: nat | j < FRAME_WORDS :: base + 8 * j in mem && mem[base + 8 * j] == FrameWord(c, restorer, signum, j);
    assert forall j: nat | j < FRAME_WORDS :: ReadWord(mem, base + 8 * j) == FrameWord(c, restorer, signum, j);
    assert base + 8 * 0 == base && base + 8 * 6 == base + 48 && base + 8 * 38 == base + 304 && base + 8 * 39 == base + 312;
    assert ReadWord(mem, base + 8 * 0) == restorer && ReadWord(mem, base + 8 * 6) == c.frame.r8;
    assert ReadWord(mem, base + 8 * 7) == c.frame.r9 && ReadWord(mem, base + 8 * 8) == c.frame.r10;
    assert ReadWord(mem, base + 8 * 9) == c.frame.r11 && ReadWord(mem, base + 8 * 14) == c.frame.rdi;
    assert ReadWord(mem, base + 8 * 15) == c.frame.rsi && ReadWord(mem, base + 8 * 18) == c.frame.rdx;
    assert ReadWord(mem, base + 8 * 19) == c.rax && ReadWord(mem, base + 8 * 20) == c.frame.rcx;
    assert ReadWord(mem, base + 8 * 21) == c.rsp && ReadWord(mem, base + 8 * 22) == c.frame.rcx;
    assert ReadWord(mem, base + 8 * 23) == c.frame.r11 && ReadWord(mem, base + 8 * 38) == c.blocked;
    assert ReadWord(mem, base + 8 * 39) == signum;
  }

  lemma FrameEnds(mem: Memory, base: nat, c: Context, restorer: nat, signum: nat)
    requires FrameAt(mem, base, c, restorer, signum)
    ensures ReadWord(mem, base) == restorer && ReadWord(mem, base + 312) == signum
  {
    assert base + 8 * 0 in mem && mem[base + 8 * 0] == FrameWord(c, restorer, signum, 0);
    assert base + 8 * 39 in mem && mem[base + 8 * 39] == FrameWord(c, restorer, signum, 39);
  }

  lemma FrameIsWritten(mem: Memory, base: nat, c: Context, restorer: nat, signum: nat)
    ensures var r := WriteWords(mem, base, FrameImage(c, restorer, signum));
            FrameAt(r, base, c, restorer, signum) && AgreeFrom(mem, r, base + FRAME_SIZE)
  {
    var image := FrameImage(c, restorer, signum);
    var r := WriteWords(mem, base, image);
    forall j | 0 <= j < FRAME_WORDS
      ensures base + 8 * j in r && r[base + 8 * j] == FrameWord(c, restorer, signum, j)
    {
      WrittenAt(mem, base, image, base + 8 * j);
    }
    forall x | x >= base + FRAME_SIZE
      ensures (x in mem <==> x in r) && (x in mem ==> r[x] == mem[x])
    {
      WrittenAt(mem, base, image, x);
    }
  }

  /** Parsing a frame gives back the context that was printed. */
  lemma ReturnRestores(k: Kernel, c: Context, restorer: nat, signum: nat)
    requires k.rsp >= PRETCODE_SIZE
    requires FrameAt(k.mem, k.rsp - PRETCODE_SIZE, c, restorer, signum) && Blockable(c.blocked)
    ensures ContextOf(Returned(k)) == c
  {
    hide AndNot, Or, Pow2, Bit, Blockable, FrameAt, SigContextWord, FrameWord;
    AndNotUnblockable(c.blocked);
    var base := k.rsp - PRETCODE_SIZE;
    ParseContext(k.mem, base, c, restorer, signum);
  }

  lemma ParseWord(mem: Memory, base: nat, c: Context, restorer: nat, signum: nat, i: nat)
    requires FrameAt(mem, base, c, restorer, signum) && i <= 32
    ensures SigContextWord(mem, base, i) == FrameWord(c, restorer, signum, 6 + i)
  {
    hide FrameWord;
    assert base + PRETCODE_SIZE + UC_HEADER + 8 * i == base + 8 * (6 + i);
    assert base + 8 * (6 + i) in mem && mem[base + 8 * (6 + i)] == FrameWord(c, restorer, signum, 6 + i);
  }

  lemma ParseContext(mem: Memory, base: nat, c: Context, restorer: nat, signum: nat)
    requires FrameAt(mem, base, c, restorer, signum)
    ensures SigContextWord(mem, base, 0) == c.frame.r8 && SigContextWord(mem, base, 1) == c.frame.r9
    ensures SigContextWord(mem, base, 2) == c.frame.r10 && SigContextWord(mem, base, 8) == c.frame.rdi
    ensures SigContextWord(mem, base, 9) == c.frame.rsi && SigContextWord(mem, base, 12) == c.frame.rdx
    ensures SigContextWord(mem, base, 13) == c.rax && SigContextWord(mem, base, 15) == c.rsp
    ensures SigContextWord(mem, base, 16) == c.frame.rcx && SigContextWord(mem, base, 17) == c.frame.r11
    ensures SigContextWord(mem, base, 32) == c.blocked
  {
    hide FrameAt, SigContextWord;
    ParseWord(mem, base, c, restorer, signum, 0);
    ParseWord(mem, base, c, restorer, signum, 1);
    ParseWord(mem, base, c, restorer, signum, 2);
    ParseWord(mem, base, c, restorer, signum, 8);
    ParseWord(mem, base, c, restorer, signum, 9);
    ParseWord(mem, base, c, restorer, signum, 12);
    ParseWord(mem, base, c, restorer, signum, 13);
    ParseWord(mem, base, c, restorer, signum, 15);
    ParseWord(mem, base, c, restorer, signum, 16);
    ParseWord(mem, base, c, restorer, signum, 17);
    ParseWord(mem, base, c, restorer, signum, 32);
  }

  // ---- any nesting of handlers ----

  datatype Record = Record(base: nat, context: Context, restorer: nat, signum: nat)

  /** The kernel with the history of deliveries not yet returned from, outermost first. */
  datatype Machine = Machine(k: Kernel, frames: seq<Record>)

  /**
   * `Execute` is any run of user code between two system calls.
   * `HandlerReturns` is the handler's `ret` into its restorer and the restorer's `rt_sigreturn`.
   */
  datatype Event =
    | Execute(mem: Memory, frame: SavedFrame, rsp: nat, rax: nat)
    | CheckPending
    | HandlerReturns(atReturn: SavedFrame)
    | ProcMask(how: nat, mask: nat)
    | Action(signum: nat, action: SigAction)
    | Raise(signum: nat)

  function Top(m: Machine): Record
    requires m.frames != []
  {
    m.frames[|m.frames| - 1]
  }

  /** A handler keeps its stack pointer and its writes below its entry RSP. */
  ghost predicate Legal(m: Machine, e: Event) {
    && m.k.status == Alive
    && match e
       case Execute(mem, _, rsp, _) =>
         rsp < U64 && (m.frames != [] ==> rsp <= Top(m).base && AgreeFrom(m.k.mem, mem, Top(m).base))
       case HandlerReturns(_) => m.frames != []
       case _ => true
  }

  /** The check delivers a handler, rather than doing nothing, discarding or killing. */
  predicate Delivers(k: Kernel)
    requires WellFormed(k)
  {
    && Deliverable(k) != 0
    && k.actions[NextSignal(k) - 1].handler != SIG_IGN
    && k.actions[NextSignal(k) - 1].handler != SIG_DFL
    && k.rsp >= FRAME_SIZE + 8
  }

  ghost function Step(m: Machine, e: Event): Machine
    requires Inv(m) && Legal(m, e)
  {
    match e
    case Execute(mem, frame, rsp, rax) => m.(k := m.k.(mem := mem, frame := frame, rsp := rsp, rax := rax))
    case CheckPending =>
      if Delivers(m.k) then
        var signum := NextSignal(m.k);
        Machine(Checked(m.k),
                m.frames + [Record(FrameBase(m.k.rsp), ContextOf(m.k), m.k.actions[signum - 1].restorer, signum)])
      else m.(k := Checked(m.k))
    case HandlerReturns(regs) =>
      Machine(Returned(m.k.(frame := regs, rsp := Top(m).base + PRETCODE_SIZE)), m.frames[..|m.frames| - 1])
    case ProcMask(how, mask) => m.(k := m.k.(blocked := MaskAfter(m.k.blocked, how, mask)))
    case Action(signum, action) =>
      if ActionIndex(signum).Some?
      then m.(k := m.k.(actions := m.k.actions[ActionIndex(signum).value := action]))
      else m
    case Raise(signum) => m.(k := m.k.(pending := Queue(m.k.pending, signum)))
  }

  predicate RecordOk(mem: Memory, r: Record) {
    && r.base % 16 == 8
    && r.base + FRAME_SIZE <= r.context.rsp < U64
    && Blockable(r.context.blocked)
    && FrameAt(mem, r.base, r.context, r.restorer, r.signum)
  }

  /** Frames lie one below the other, and the running code below the innermost. */
  predicate Nested(frames: seq<Record>, rsp: nat) {
    && (forall i, j | 0 <= i < j < |frames| :: frames[j].context.rsp <= frames[i].base)
    && (frames != [] ==> rsp <= frames[|frames| - 1].base)
  }

  predicate NoHandlerFor(k: Kernel, signum: nat)
    requires 1 <= signum <= |k.actions|
  {
    k.actions[signum - 1].handler == SIG_DFL
  }

  predicate Inv(m: Machine) {
    && WellFormed(m.k)
    && Blockable(m.k.blocked)
    && NoHandlerFor(m.k, SIGKILL) && NoHandlerFor(m.k, SIGSTOP)
    && (forall i | 0 <= i < |m.frames| :: RecordOk(m.k.mem, m.frames[i]))
    && Nested(m.frames, m.k.rsp)
  }

  lemma FrameSurvives(mem: Memory, mem': Memory, r: Record, a: nat)
    requires RecordOk(mem, r) && AgreeFrom(mem, mem', a) && a <= r.base
    ensures RecordOk(mem', r)
  {
    forall j | 0 <= j < FRAME_WORDS
      ensures r.base + 8 * j in mem' && mem'[r.base + 8 * j] == FrameWord(r.context, r.restorer, r.signum, j)
    {
      assert r.base + 8 * j in mem && mem[r.base + 8 * j] == FrameWord(r.context, r.restorer, r.signum, j);
    }
  }

  /** Every open frame starts at or above the innermost one. */
  lemma TopIsLowest(m: Machine, i: nat)
    requires Inv(m) && i < |m.frames|
    ensures Top(m).base <= m.frames[i].base
  {
    assert RecordOk(m.k.mem, Top(m));
  }

  lemma FramesSurvive(m: Machine, mem': Memory, a: nat)
    requires Inv(m) && AgreeFrom(m.k.mem, mem', a) && (m.frames != [] ==> a <= Top(m).base)
    ensures forall i | 0 <= i < |m.frames| :: RecordOk(mem', m.frames[i])
  {
    forall i | 0 <= i < |m.frames|
      ensures RecordOk(mem', m.frames[i])
    {
      TopIsLowest(m, i);
      FrameSurvives(m.k.mem, mem', m.frames[i], a);
    }
  }

  lemma CheckedDelivers(k: Kernel)
    requires WellFormed(k) && Delivers(k)
    ensures var signum := NextSignal(k);
            Checked(k) == Delivered(k.(pending := AndNot(k.pending, SignalBit(signum))), signum, k.actions[signum - 1])
  {
    hide Delivered, AndNot, Pow2, Bit, LowestBit;
  }

  lemma DeliveryKeepsInv(m: Machine)
    requires Inv(m) && Legal(m, CheckPending) && Delivers(m.k)
    ensures Inv(Step(m, CheckPending))
  {
    hide FrameAt, FrameBase, WriteWords, Blockable, AndNot, Or, Pow2, Bit, And, AgreeFrom, Checked;
    var signum := NextSignal(m.k);
    var k' := m.k.(pending := AndNot(m.k.pending, SignalBit(signum)));
    var action := m.k.actions[signum - 1];
    CheckedDelivers(m.k);
    DeliverEntersHandler(k', signum, action);
    var r := Step(m, CheckPending);
    assert r.k == Delivered(k', signum, action);
    FramesSurvive(m, r.k.mem, r.k.rsp + FRAME_SIZE);
    assert ContextOf(k') == ContextOf(m.k);
    forall i, j | 0 <= i < j < |r.frames|
      ensures r.frames[j].context.rsp <= r.frames[i].base
    {
      if j == |m.frames| { TopIsLowest(m, i); }
    }
  }

  lemma QuietCheckKeepsInv(m: Machine)
    requires Inv(m) && Legal(m, CheckPending) && !Delivers(m.k)
    ensures Inv(Step(m, CheckPending))
  {
    hide FrameAt, Blockable, RecordOk;
  }

  lemma ReturnKeepsInv(m: Machine, regs: SavedFrame)
    requires Inv(m) && Legal(m, HandlerReturns(regs))
    ensures Inv(Step(m, HandlerReturns(regs)))
    ensures ContextOf(Step(m, HandlerReturns(regs)).k) == Top(m).context
    ensures Step(m, HandlerReturns(regs)).frames == m.frames[..|m.frames| - 1]
    ensures Step(m, HandlerReturns(regs)).k.mem == m.k.mem
  {
    hide FrameAt, Blockable, AndNot, Or, Pow2, Bit;
    var top := Top(m);
    assert RecordOk(m.k.mem, top);
    ReturnRestores(m.k.(frame := regs, rsp := top.base + PRETCODE_SIZE), top.context, top.restorer, top.signum);
    var r := Step(m, HandlerReturns(regs));
    assert ContextOf(r.k) == top.context;
    assert r.k.rsp == top.context.rsp && r.k.blocked == top.context.blocked;
  }

  lemma RaiseKeepsInv(m: Machine, signum: nat)
    requires Inv(m) && Legal(m, Raise(signum))
    ensures Inv(Step(m, Raise(signum)))
  {
    hide FrameAt, Blockable, RecordOk, Nested, Or, Pow2;
    if 1 <= signum <= NUM_SIGNALS {
      Pow2Values();
      Pow2Strict(signum - 1, 64);
      OrBound(m.k.pending, SignalBit(signum), 64);
    }
  }

  lemma Pow2Strict(a: nat, b: nat)
    requires a < b
    ensures Pow2(a) < Pow2(b)
  {
    Pow2Monotone(a, b - 1);
  }

  lemma StepKeepsInv(m: Machine, e: Event)
    requires Inv(m) && Legal(m, e)
    ensures Inv(Step(m, e))
  {
    hide FrameAt, Blockable, RecordOk, Masked, MaskAfter;
    match e
    case Execute(mem, _, _, _) => if m.frames != [] { FramesSurvive(m, mem, Top(m).base); }
    case CheckPending => if Delivers(m.k) { DeliveryKeepsInv(m); } else { QuietCheckKeepsInv(m); }
    case HandlerReturns(regs) => ReturnKeepsInv(m, regs);
    case ProcMask(how, mask) => MaskAfterBlockable(m.k.blocked, how, mask);
    case Action(_, _) =>
    case Raise(signum) => RaiseKeepsInv(m, signum);
  }

  ghost predicate LegalRun(m: Machine, events: seq<Event>)
    requires Inv(m)
    decreases |events|
  {
    events == [] || (Legal(m, events[0]) && (StepKeepsInv(m, events[0]); LegalRun(Step(m, events[0]), events[1..])))
  }

  ghost function Run(m: Machine, events: seq<Event>): (r: Machine)
    requires Inv(m) && LegalRun(m, events)
    ensures Inv(r)
    decreases |events|
  {
    if events == [] then m else StepKeepsInv(m, events[0]); Run(Step(m, events[0]), events[1..])
  }

  /** In every reachable state: no open frames overlap, each is where a handler was entered, and the mask is legal. */
  lemma FramesAreSafe(m: Machine, events: seq<Event>)
    requires Inv(m) && LegalRun(m, events)
    ensures var r := Run(m, events);
            && (forall i, j | 0 <= i < j < |r.frames| :: r.frames[j].base + FRAME_SIZE <= r.frames[i].base)
            && (forall i | 0 <= i < |r.frames| :: r.frames[i].base % 16 == 8)
            && !Bit(r.k.blocked, SIGKILL - 1) && !Bit(r.k.blocked, SIGSTOP - 1)
  {
    var r := Run(m, events);
    forall i, j | 0 <= i < j < |r.frames|
      ensures r.frames[j].base + FRAME_SIZE <= r.frames[i].base
    {
      assert RecordOk(r.k.mem, r.frames[j]);
    }
    forall i | 0 <= i < |r.frames|
      ensures r.frames[i].base % 16 == 8
    {
      assert RecordOk(r.k.mem, r.frames[i]);
    }
  }

  /** The run never returns from the frames below depth `d`. */
  ghost predicate StaysAbove(m: Machine, events: seq<Event>, d: nat)
    requires Inv(m) && LegalRun(m, events)
    decreases |events|
  {
    |m.frames| >= d &&
    (events == [] || (StepKeepsInv(m, events[0]); StaysAbove(Step(m, events[0]), events[1..], d)))
  }

  /** Inner activity leaves the outer records and the memory from the innermost of them upwards alone. */
  lemma {:induction false} OuterFramesKept(m: Machine, events: seq<Event>, d: nat)
    requires Inv(m) && LegalRun(m, events) && d >= 1 && StaysAbove(m, events, d)
    ensures var r := Run(m, events);
            && |r.frames| >= d && r.frames[..d] == m.frames[..d]
            && AgreeFrom(m.k.mem, r.k.mem, m.frames[d - 1].base)
    decreases |events|
  {
    hide Inv, Legal;
    if events != [] {
      StepKeepsInv(m, events[0]);
      var m' := Step(m, events[0]);
      StepKeepsOuter(m, events[0], d);
      OuterFramesKept(m', events[1..], d);
      assert m'.frames[d - 1] == m'.frames[..d][d - 1] == m.frames[..d][d - 1];
    }
  }

  lemma StepKeepsOuter(m: Machine, e: Event, d: nat)
    requires Inv(m) && Legal(m, e) && 1 <= d <= |m.frames| && |Step(m, e).frames| >= d
    ensures Step(m, e).frames[..d] == m.frames[..d]
    ensures AgreeFrom(m.k.mem, Step(m, e).k.mem, m.frames[d - 1].base)
  {
    hide FrameAt, Blockable, RecordOk, WriteWords, FrameBase, AndNot, Or, Pow2, Bit, And;
    TopIsLowest(m, d - 1);
    if e.CheckPending? && Delivers(m.k) {
      var signum := NextSignal(m.k);
      CheckedDelivers(m.k);
      DeliverEntersHandler(m.k.(pending := AndNot(m.k.pending, SignalBit(signum))), signum, m.k.actions[signum - 1]);
    }
  }

  /**
   * The round trip at any nesting: deliver a signal, let the handler and everything nested in it
   * run to its return, and all eight registers, RAX, RSP and the blocked mask are what they were;
   * so is user memory from the interrupted stack pointer upwards.
   */
  lemma DeliveryRoundTrip(m: Machine, events: seq<Event>, regs: SavedFrame)
    requires Inv(m) && Legal(m, CheckPending) && Delivers(m.k) && Inv(Step(m, CheckPending))
    requires LegalRun(Step(m, CheckPending), events)
    requires StaysAbove(Step(m, CheckPending), events, |m.frames| + 1)
    requires |Run(Step(m, CheckPending), events).frames| == |m.frames| + 1
    requires Legal(Run(Step(m, CheckPending), events), HandlerReturns(regs))
    ensures var r := Step(Run(Step(m, CheckPending), events), HandlerReturns(regs));
            ContextOf(r.k) == ContextOf(m.k) && r.frames == m.frames && AgreeFrom(m.k.mem, r.k.mem, m.k.rsp)
  {
    hide Inv, Legal, Delivers, Step, Run, LegalRun, StaysAbove;
    var entered := Step(m, CheckPending);
    var d := |m.frames| + 1;
    DeliveryTouchesBelow(m);
    OuterFramesKept(entered, events, d);
    var last := Run(entered, events);
    HasFrame(last, regs);
    ReturnKeepsInv(last, regs);
    assert last.frames == last.frames[..d] == entered.frames[..d] == entered.frames;
    assert entered.frames[..d - 1] == m.frames;
  }

  /** The shortest such run: the handler returns at once. */
  lemma DeliverThenReturn(m: Machine, regs: SavedFrame)
    requires Inv(m) && m.k.status == Alive && Delivers(m.k)
    ensures var entered := Step(m, CheckPending);
            && Inv(entered) && Legal(entered, HandlerReturns(regs))
            && ContextOf(Step(entered, HandlerReturns(regs)).k) == ContextOf(m.k)
  {
    StepKeepsInv(m, CheckPending);
    hide Inv, Delivers;
    DeliveryTouchesBelow(m);
    StaysAlive(m);
    hide Step;
    DeliveryRoundTrip(m, [], regs);
  }

  lemma StaysAlive(m: Machine)
    requires Inv(m) && m.k.status == Alive && Delivers(m.k)
    ensures Step(m, CheckPending).k.status == Alive
  {
    hide FrameAt, Blockable, WriteWords, FrameBase, AndNot, Or, Pow2, Bit, And, RecordOk;
    CheckedDelivers(m.k);
  }

  lemma HasFrame(m: Machine, regs: SavedFrame)
    requires Legal(m, HandlerReturns(regs))
    ensures m.frames != []
  {
  }

  lemma DeliveryTouchesBelow(m: Machine)
    requires Inv(m) && Legal(m, CheckPending) && Delivers(m.k)
    ensures var r := Step(m, CheckPending);
            && |r.frames| == |m.frames| + 1 && r.frames[..|m.frames|] == m.frames
            && Top(r).context == ContextOf(m.k) && Top(r).base <= m.k.rsp
            && AgreeFrom(m.k.mem, r.k.mem, m.k.rsp)
  {
    hide FrameAt, Blockable, WriteWords, FrameBase, AndNot, Or, Pow2, Bit, And, RecordOk;
    var signum := NextSignal(m.k);
    CheckedDelivers(m.k);
    DeliverEntersHandler(m.k.(pending := AndNot(m.k.pending, SignalBit(signum))), signum, m.k.actions[signum - 1]);
  }

  /** The machine after one return for each entry of `regs`, with nothing in between. */
  ghost function Unwound(m: Machine, regs: seq<SavedFrame>): (r: Machine)
    requires Inv(m) && |regs| <= |m.frames| && m.k.status == Alive
    ensures Inv(r) && r.k.status == Alive && r.frames == m.frames[..|m.frames| - |regs|]
  {
    hide Inv, Returned;
    if regs == [] then m
    else
      var m' := Unwound(m, regs[..|regs| - 1]);
      StepKeepsInv(m', HandlerReturns(regs[|regs| - 1]));
      Step(m', HandlerReturns(regs[|regs| - 1]))
  }

  /** From depth n, n returns give back the contexts of all n levels, innermost first. */
  lemma UnwindRestores(m: Machine, regs: seq<SavedFrame>)
    requires Inv(m) && 1 <= |regs| <= |m.frames| && m.k.status == Alive
    ensures ContextOf(Unwound(m, regs).k) == m.frames[|m.frames| - |regs|].context
  {
    var m' := Unwound(m, regs[..|regs| - 1]);
    ReturnKeepsInv(m', regs[|regs| - 1]);
  }

  // ---- the mask, whatever user code does ----

  /**
   * Steps of a process that keeps no discipline at all: arbitrary memory and registers, and
   * `rt_sigreturn` on anything that happens to lie at RSP.
   */
  datatype WildEvent =
    | Scramble(mem: Memory, frame: SavedFrame, rsp: nat, rax: nat)
    | WildCheck
    | WildReturn
    | WildMask(how: nat, mask: nat)
    | WildAction(signum: nat, action: SigAction)
    | WildRaise(signum: nat)

  /** Addresses are 64-bit words, and `rt_sigreturn` reads eight bytes below RSP. */
  predicate WildLegal(k: Kernel, e: WildEvent) {
    match e
    case Scramble(_, _, rsp, _) => rsp < U64
    case WildReturn => k.rsp >= PRETCODE_SIZE && Returned(k).rsp < U64
    case _ => true
  }

  function WildStep(k: Kernel, e: WildEvent): Kernel
    requires WellFormed(k) && WildLegal(k, e)
  {
    match e
    case Scramble(mem, frame, rsp, rax) => k.(mem := mem, frame := frame, rsp := rsp, rax := rax)
    case WildCheck => Checked(k)
    case WildReturn => Returned(k)
    case WildMask(how, mask) => k.(blocked := MaskAfter(k.blocked, how, mask))
    case WildAction(signum, action) =>
      if ActionIndex(signum).Some? then k.(actions := k.actions[ActionIndex(signum).value := action]) else k
    case WildRaise(signum) => k.(pending := Queue(k.pending, signum))
  }

  lemma CheckKeepsMask(k: Kernel)
    requires WellFormed(k) && Blockable(k.blocked)
    ensures WellFormed(Checked(k)) && Blockable(Checked(k).blocked)
  {
    hide Blockable, AndNot, Or, Pow2, Bit, And, WriteWords, FrameBase;
    if Delivers(k) {
      var signum := NextSignal(k);
      CheckedDelivers(k);
      var k' := k.(pending := AndNot(k.pending, SignalBit(signum)));
      DeliverEntersHandler(k', signum, k.actions[signum - 1]);
    }
  }

  lemma QueueFits(pending: nat, signum: nat)
    requires pending < U64
    ensures Queue(pending, signum) < U64
  {
    hide Or, Pow2;
    if 1 <= signum <= NUM_SIGNALS {
      Pow2Values();
      Pow2Strict(signum - 1, 64);
      OrBound(pending, SignalBit(signum), 64);
    }
  }

  lemma WildStepKeepsMask(k: Kernel, e: WildEvent)
    requires WellFormed(k) && Blockable(k.blocked) && WildLegal(k, e)
    ensures WellFormed(WildStep(k, e)) && Blockable(WildStep(k, e).blocked)
  {
    hide Blockable, AndNot, Or, Pow2, Bit, MaskAfter, Checked, Queue;
    match e
    case WildCheck => CheckKeepsMask(k);
    case WildReturn => AndNotUnblockable(SigContextWord(k.mem, k.rsp - PRETCODE_SIZE, 32));
    case WildMask(how, mask) => MaskAfterBlockable(k.blocked, how, mask);
    case WildRaise(signum) => QueueFits(k.pending, signum);
    case _ =>
  }

  ghost predicate WildRunLegal(k: Kernel, events: seq<WildEvent>)
    requires WellFormed(k) && Blockable(k.blocked)
    decreases |events|
  {
    events == [] ||
    (WildLegal(k, events[0]) && (WildStepKeepsMask(k, events[0]); WildRunLegal(WildStep(k, events[0]), events[1..])))
  }

  /** However it forges frames, a process never has SIGKILL or SIGSTOP in its mask. */
  ghost function WildRun(k: Kernel, events: seq<WildEvent>): (r: Kernel)
    requires WellFormed(k) && Blockable(k.blocked) && WildRunLegal(k, events)
    ensures WellFormed(r) && Blockable(r.blocked)
    decreases |events|
  {
    if events == [] then k else WildStepKeepsMask(k, events[0]); WildRun(WildStep(k, events[0]), events[1..])
  }

  /** A pending SIGKILL is never masked: the check takes it, or a lower-numbered signal first. */
  lemma KillGetsThrough(m: Machine)
    requires Inv(m) && m.k.status == Alive && Bit(m.k.pending, SIGKILL - 1)
    ensures Deliverable(m.k) != 0 && NextSignal(m.k) <= SIGKILL
    ensures NextSignal(m.k) == SIGKILL ==> Step(m, CheckPending).k.status == Killed(SIGKILL)
  {
    AndNotBit(m.k.pending, m.k.blocked, SIGKILL - 1);
    ZeroHasNoBits(SIGKILL - 1);
  }

  /** Exactly one pending bit is consumed by a dequeue, and it is the lowest deliverable one. */
  lemma DequeueTakesLowest(k: Kernel, i: nat)
    requires WellFormed(k) && Deliverable(k) != 0
    ensures var signum := NextSignal(k);
            && Bit(k.pending, signum - 1) && !Bit(k.blocked, signum - 1)
            && (Bit(AndNot(k.pending, SignalBit(signum)), i) <==> Bit(k.pending, i) && i != signum - 1)
            && (Bit(k.pending, i) && !Bit(k.blocked, i) ==> i >= signum - 1)
  {
    var signum := NextSignal(k);
    AndNotBit(k.pending, k.blocked, signum - 1);
    AndNotBit(k.pending, k.blocked, i);
    AndNotBit(k.pending, SignalBit(signum), i);
    PowBit(signum - 1, i);
  }

  // ---- the kernel code ----

  /** A user pointer argument: null, rejected by `validate_user_buf`, or valid. */
  datatype UserArg<T> = Null | Fault | Points(value: T)

  class SignalContext {
    var mem: Memory
    var frame: SavedFrame
    var rsp: nat
    var rax: nat
    var blocked: nat
    var pending: nat
    var actions: seq<SigAction>
    var status: Status

    ghost function View(): Kernel
      reads this
    {
      Kernel(mem, frame, rsp, rax, blocked, pending, actions, status)
    }

    /** A process with a fresh `SignalState`. */
    constructor (m: Memory, f: SavedFrame, sp: nat, ret: nat)
      requires sp < U64
      ensures Inv(Machine(View(), [])) && pending == blocked == 0
    {
      mem, frame, rsp, rax, blocked, pending, status := m, f, sp, ret, 0, 0, Alive;
      actions := seq(NUM_SIGNALS, i => SigAction(SIG_DFL, 0, 0, 0));
      new;
      ZeroHasNoBits(SIGKILL - 1);
      ZeroHasNoBits(SIGSTOP - 1);
    }

    method QueueSignal(signum: nat)
      modifies this`pending
      ensures pending == Queue(old(pending), signum)
      ensures forall i: nat :: Bit(pending, i) <==> Bit(old(pending), i) || (1 <= signum <= 64 && i == signum - 1)
    {
      forall i: nat
        ensures Bit(Queue(pending, signum), i) <==> Bit(pending, i) || (1 <= signum <= 64 && i == signum - 1)
      {
        QueueBit(pending, signum, i);
      }
      if 1 <= signum <= NUM_SIGNALS {
        pending := Or(pending, Pow2(signum - 1));
      }
    }

    method Dequeue() returns (signum: Option<nat>)
      requires WellFormed(View())
      modifies this`pending
      ensures signum.None? <==> Deliverable(old(View())) == 0
      ensures signum.None? ==> View() == old(View())
      ensures signum.Some? ==>
                && signum.value == NextSignal(old(View()))
                && View() == old(View()).(pending := AndNot(old(pending), SignalBit(signum.value)))
    {
      var deliverable := AndNot(pending, blocked);
      if deliverable == 0 {
        return None;
      }
      ghost var n := NextSignal(View());
      var bit := LowestBit(deliverable);
      pending := AndNot(pending, Pow2(bit));
      signum := Some(bit + 1);
    }

    method CheckPendingSignals()
      requires WellFormed(View())
      modifies this
      ensures View() == Checked(old(View()))
    {
      var sig := Dequeue();
      if sig.None? {
        return;
      }
      var signum := sig.value;
      var action := actions[signum - 1];
      if action.handler == SIG_IGN {
        return;
      }
      if action.handler == SIG_DFL {
        if DefaultIgnores(signum) {
          return;
        }
        if DefaultTerminates(signum) {
          status := Killed(signum);
        }
        return;
      }
      if rsp < FRAME_SIZE + 8 {
        status := Panicked;
        return;
      }
      DeliverSignal(signum, action);
    }

    /** `write_bytes(0)` over the whole frame. */
    method ClearFrame(base: nat)
      modifies this`mem
      ensures mem == WriteWords(old(mem), base, seq(FRAME_WORDS, j => 0))
    {
      var zeros := seq(FRAME_WORDS, j => 0);
      var j := 0;
      while j < FRAME_WORDS
        invariant 0 <= j <= FRAME_WORDS
        invariant mem == WriteWords(old(mem), base, zeros[..j])
      {
        assert zeros[..j + 1][..j] == zeros[..j];
        mem := mem[base + 8 * j := 0];
        j := j + 1;
      }
      assert zeros[..FRAME_WORDS] == zeros;
    }

    /** The individual stores into the cleared frame. */
    method FillFrame(base: nat, signum: nat, restorer: nat, oldBlocked: nat)
      modifies this`mem
      ensures mem == old(mem)[base := restorer][base + 48 := frame.r8][base + 56 := frame.r9][base + 64 := frame.r10]
                     [base + 72 := frame.r11][base + 112 := frame.rdi][base + 120 := frame.rsi][base + 144 := frame.rdx]
                     [base + 152 := rax][base + 160 := frame.rcx][base + 168 := rsp][base + 176 := frame.rcx]
                     [base + 184 := frame.r11][base + 304 := oldBlocked][base + 312 := signum]
    {
      mem := mem[base := restorer];
      var uc := base + PRETCODE_SIZE;
      var sc := uc + UC_HEADER;
      mem := mem[sc := frame.r8];
      mem := mem[sc + 8 * 1 := frame.r9];
      mem := mem[sc + 8 * 2 := frame.r10];
      mem := mem[sc + 8 * 3 := frame.r11];
      mem := mem[sc + 8 * 8 := frame.rdi];
      mem := mem[sc + 8 * 9 := frame.rsi];
      mem := mem[sc + 8 * 12 := frame.rdx];
      mem := mem[sc + 8 * 13 := rax];
      mem := mem[sc + 8 * 14 := frame.rcx];
      mem := mem[sc + 8 * 15 := rsp];
      mem := mem[sc + 8 * 16 := frame.rcx];
      mem := mem[sc + 8 * 17 := frame.r11];
      mem := mem[sc + SIGCONTEXT_SIZE := oldBlocked];
      mem := mem[uc + UCONTEXT_SIZE := signum];
    }

    method DeliverSignal(signum: nat, action: SigAction)
      requires 1 <= signum && FRAME_SIZE + 8 <= rsp < U64
      modifies this
      ensures View() == Delivered(old(View()), signum, action)
    {
      hide And, AndNot, Or, Pow2, Bit, WriteWords, FrameImage;
      var oldBlocked := blocked;
      blocked := Or(blocked, Or(action.mask, Pow2(signum - 1)));
      var unblockable := Or(Pow2(SIGKILL - 1), Pow2(SIGSTOP - 1));
      blocked := AndNot(blocked, unblockable);

      var sp := rsp - FRAME_SIZE;
      var base := And(sp - 8, Not64(15)) + 8;
      ghost var before := mem;
      ghost var c := Context(frame, rsp, rax, oldBlocked);
      ClearFrame(base);
      FillFrame(base, signum, action.restorer, oldBlocked);
      FilledIsImage(before, mem, base, c, action.restorer, signum);

      var info := WantsInfo(action);
      frame := frame.(rcx := action.handler);
      frame := frame.(rdi := signum);
      if info {
        frame := frame.(rsi := base + PRETCODE_SIZE + UCONTEXT_SIZE);
        frame := frame.(rdx := base + PRETCODE_SIZE);
      } else {
        frame := frame.(rsi := 0);
        frame := frame.(rdx := 0);
      }
      rsp := base;
    }

    method RtSigreturn()
      requires rsp >= PRETCODE_SIZE
      modifies this
      ensures View() == Returned(old(View()))
    {
      hide AndNot, Or, Pow2;
      var base := rsp - PRETCODE_SIZE;
      var sc := base + PRETCODE_SIZE + UC_HEADER;
      var r8, r9, r10 := ReadWord(mem, sc), ReadWord(mem, sc + 8), ReadWord(mem, sc + 16);
      var rdi, rsi := ReadWord(mem, sc + 64), ReadWord(mem, sc + 72);
      var rdx, ret := ReadWord(mem, sc + 96), ReadWord(mem, sc + 104);
      var origRip, origFlags, origRsp := ReadWord(mem, sc + 128), ReadWord(mem, sc + 136), ReadWord(mem, sc + 120);
      var oldBlocked := ReadWord(mem, sc + SIGCONTEXT_SIZE);
      blocked := AndNot(oldBlocked, Or(Pow2(SIGKILL - 1), Pow2(SIGSTOP - 1)));
      frame := frame.(rcx := origRip, r11 := origFlags);
      frame := frame.(rdi := rdi, rsi := rsi, rdx := rdx);
      frame := frame.(r8 := r8, r9 := r9, r10 := r10);
      rsp := origRsp;
      rax := ret;
    }

    /** `out` is what is stored through `oldact`. */
    method RtSigaction(signum: nat, act: UserArg<SigAction>, oldact: UserArg<()>, sigsetsize: nat)
      returns (err: int, out: Option<SigAction>)
      requires |actions| == NUM_SIGNALS
      modifies this`actions
      ensures err == (if sigsetsize != 8 || ActionIndex(signum).None? then -EINVAL
                      else if oldact.Fault? || act.Fault? then -EFAULT
                      else 0)
      ensures out == if sigsetsize == 8 && ActionIndex(signum).Some? && oldact.Points?
                     then Some(old(actions)[ActionIndex(signum).value]) else None
      ensures actions == if err == 0 && act.Points?
                         then old(actions)[ActionIndex(signum).value := act.value] else old(actions)
    {
      out := None;
      if sigsetsize != 8 {
        return -EINVAL, None;
      }
      var sig := signum % 256;
      if sig < 1 || sig > NUM_SIGNALS || sig == SIGKILL || sig == SIGSTOP {
        return -EINVAL, None;
      }
      var idx := sig - 1;
      if !oldact.Null? {
        if oldact.Fault? {
          return -EFAULT, None;
        }
        out := Some(actions[idx]);
      }
      if !act.Null? {
        if act.Fault? {
          return -EFAULT, out;
        }
        actions := actions[idx := act.value];
      }
      err := 0;
    }

    /** `out` is what is stored through `oldset`. */
    method RtSigprocmask(how: nat, mask: UserArg<nat>, oldset: UserArg<()>, sigsetsize: nat) returns (err: int, out: Option<nat>)
      modifies this`blocked
      ensures err == (if sigsetsize != 8 then -EINVAL
                      else if oldset.Fault? || mask.Fault? then -EFAULT
                      else if mask.Points? && how > SIG_SETMASK then -EINVAL
                      else 0)
      ensures out == if sigsetsize == 8 && oldset.Points? then Some(old(blocked)) else None
      ensures blocked == if sigsetsize == 8 && !oldset.Fault? && mask.Points?
                         then MaskAfter(old(blocked), how, mask.value) else old(blocked)
      ensures sigsetsize == 8 && !oldset.Fault? && mask.Points? ==>
                forall i: nat :: Bit(blocked, i) <==>
                  match how
                  case 0 => Bit(old(blocked), i) || (Bit(mask.value, i) && i != 8 && i != 18)
                  case 1 => Bit(old(blocked), i) && !Bit(mask.value, i)
                  case 2 => Bit(mask.value, i) && i != 8 && i != 18
                  case _ => Bit(old(blocked), i)
    {
      hide Bit;
      if mask.Points? { MaskAfterBits(blocked, how, mask.value); }
      out := None;
      if sigsetsize != 8 {
        return -EINVAL, None;
      }
      if !oldset.Null? {
        if oldset.Fault? {
          return -EFAULT, None;
        }
        out := Some(blocked);
      }
      if !mask.Null? {
        if mask.Fault? {
          return -EFAULT, out;
        }
        var unblockable := Or(Pow2(SIGKILL - 1), Pow2(SIGSTOP - 1));
        if how == SIG_BLOCK {
          blocked := Or(blocked, AndNot(mask.value, unblockable));
        } else if how == SIG_UNBLOCK {
          blocked := AndNot(blocked, mask.value);
        } else if how == SIG_SETMASK {
          blocked := AndNot(mask.value, unblockable);
        }
        if how > SIG_SETMASK {
          return -EINVAL, out;
        }
      }
      err := 0;
    }
  }

  /** Clearing the frame and filling in the words one by one prints the frame image. */
  lemma FilledIsImage(before: Memory, after: Memory, base: nat, c: Context, restorer: nat, signum: nat)
    requires after == WriteWords(before, base, seq(FRAME_WORDS, j => 0))
             [base := restorer][base + 48 := c.frame.r8][base + 56 := c.frame.r9][base + 64 := c.frame.r10]
             [base + 72 := c.frame.r11][base + 112 := c.frame.rdi][base + 120 := c.frame.rsi][base + 144 := c.frame.rdx]
             [base + 152 := c.rax][base + 160 := c.frame.rcx][base + 168 := c.rsp][base + 176 := c.frame.rcx]
             [base + 184 := c.frame.r11][base + 304 := c.blocked][base + 312 := signum]
    ensures after == WriteWords(before, base, FrameImage(c, restorer, signum))
  {
    var zeros, image := seq(FRAME_WORDS, j => 0), FrameImage(c, restorer, signum);
    var r := WriteWords(before, base, image);
    forall a: nat
      ensures (a in after <==> a in r) && (a in r ==> after[a] == r[a])
    {
      WrittenAt(before, base, zeros, a);
      WrittenAt(before, base, image, a);
    }
  }

}
