/**
  The user exception stack: the frame page_fault_handler pushes (sched/kern/trap.c) and the
  instructions of _pgfault_upcall that undo it (sched/lib/pfentry.S).  Memory is bytes, words are
  little-endian, and a handler may itself fault, to any depth.
*/
module ExceptionStack {
  const WORD := 0x1_0000_0000
  const PGSIZE := 4096
  const UXSTACKTOP := 0xeec0_0000
  const EXSTK := UXSTACKTOP - PGSIZE
  const EXSTK_TOP := UXSTACKTOP - 1
  // sizeof(struct UTrapframe): 13 words.
  const FRAME := 52

  type Word = x: int | 0 <= x < WORD
  type Byte = x: int | 0 <= x < 256
  type Memory = map<int, Byte>

  function At(m: Memory, a: int): Byte { if a in m then m[a] else 0 }

  function Load(m: Memory, a: int): Word {
    At(m, a) + 0x100 * At(m, a + 1) + 0x1_0000 * At(m, a + 2) + 0x100_0000 * At(m, a + 3)
  }

  function Store(m: Memory, a: int, w: Word): Memory {
    m[a := w % 0x100][a + 1 := w / 0x100 % 0x100][a + 2 := w / 0x1_0000 % 0x100][a + 3 := w / 0x100_0000 % 0x100]
  }

  lemma JoinBytes(w: Word)
    ensures var low := w % 0x100 + 0x100 * (w / 0x100 % 0x100);
      low + 0x1_0000 * (w / 0x1_0000 % 0x100) + 0x100_0000 * (w / 0x100_0000 % 0x100) == w
  {
    assert w / 0x1_0000 == w / 0x100 / 0x100 && w / 0x100_0000 == w / 0x1_0000 / 0x100;
  }

  lemma LoadStored(m: Memory, a: int, w: Word)
    ensures Load(Store(m, a, w), a) == w
  {
    var m' := Store(m, a, w);
    assert At(m', a) == w % 0x100 && At(m', a + 1) == w / 0x100 % 0x100;
    assert At(m', a + 2) == w / 0x1_0000 % 0x100 && At(m', a + 3) == w / 0x100_0000 % 0x100;
    hide Store, At;
    JoinBytes(w);
  }

  lemma LoadBeside(m: Memory, a: int, w: Word, b: int)
    requires b + 4 <= a || a + 4 <= b
    ensures Load(Store(m, a, w), b) == Load(m, b)
  {
  }

  function Sub(x: Word, d: nat): Word { (x - d) % WORD }

  function Add(x: Word, d: nat): Word { (x + d) % WORD }

  datatype Regs = Regs(edi: Word, esi: Word, ebp: Word, ebx: Word, edx: Word, ecx: Word, eax: Word,
                       eip: Word, eflags: Word, esp: Word)

  // oesp is the value pusha stores in the unused slot of the register block.
  datatype State = State(r: Regs, oesp: Word, mem: Memory)

  // ---------- pushing a frame ----------

  function FrameWords(s: State, va: Word, err: Word): (ws: seq<Word>)
    ensures |ws| == 13
  {
    [va, err, s.r.edi, s.r.esi, s.r.ebp, s.oesp, s.r.ebx, s.r.edx, s.r.ecx, s.r.eax, s.r.eip, s.r.eflags, s.r.esp]
  }

  function StoreAll(m: Memory, a: int, ws: seq<Word>): Memory
    decreases |ws|
  {
    if ws == [] then m else StoreAll(Store(m, a, ws[0]), a + 4, ws[1..])
  }

  predicate OnExceptionStack(esp: Word) { EXSTK <= esp <= EXSTK_TOP }

  function FrameAddress(esp: Word): int {
    if OnExceptionStack(esp) then esp - 4 - FRAME else EXSTK_TOP - FRAME
  }

  // Where the part of the stack that is written ends: above the frame there is the scratch word.
  function FrameEnd(esp: Word): int { if OnExceptionStack(esp) then esp else FrameAddress(esp) + FRAME }

  datatype Pushed = Resumed(s: State) | Destroyed | Panicked

  // What page_fault_handler does to a faulting user environment.
  function Push(s: State, va: Word, err: Word, upcall: Word, mapped: bool): Pushed {
    if upcall == 0 || !mapped then Destroyed
    else
      var tmp := FrameAddress(s.r.esp);
      if tmp < EXSTK then Panicked
      else
        var m := if OnExceptionStack(s.r.esp) then Store(s.mem, s.r.esp - 4, 0) else s.mem;
        Resumed(State(s.r.(esp := tmp, eip := upcall), s.oesp, StoreAll(m, tmp, FrameWords(s, va, err))))
  }

  // ---------- popping it ----------

  // The trap-time eip is pushed on the trap-time stack, and the saved esp adjusted to it ...
  function Linked(s: State): State {
    var f := s.r.esp;
    var sp := Sub(Load(s.mem, f + 48), 4);
    s.(mem := Store(Store(s.mem, sp, Load(s.mem, f + 40)), f + 48, sp))
  }

  // ... then every register is taken from the frame, esp last, and eip from the new stack.
  function Restored(s: State): State {
    var f, m := s.r.esp, s.mem;
    State(Regs(Load(m, f + 8), Load(m, f + 12), Load(m, f + 16), Load(m, f + 24), Load(m, f + 28), Load(m, f + 32),
               Load(m, f + 36), Load(m, Load(m, f + 48)), Load(m, f + 44), Add(Load(m, f + 48), 4)),
          s.oesp, m)
  }

  function Pop(s: State): State { Restored(Linked(s)) }

  class Machine {
    var r: Regs
    var oesp: Word
    var mem: Memory

    ghost function View(): State
      reads this
    {
      State(r, oesp, mem)
    }

    // page_fault_handler for a fault in user mode; the environment's upcall is 0 if it has none.
    method PageFault(va: Word, err: Word, upcall: Word, mapped: bool) returns (p: Pushed)
      modifies this
      ensures p == Push(old(View()), va, err, upcall, mapped)
      ensures p.Resumed? ==> View() == p.s
      ensures p.Destroyed? ==> View() == old(View())
    {
      hide Store;
      if upcall == 0 || !mapped {
        return Destroyed;
      }
      var utf := [va, err, r.edi, r.esi, r.ebp, oesp, r.ebx, r.edx, r.ecx, r.eax, r.eip, r.eflags, r.esp];
      var tmp: int := r.esp;
      if r.esp < EXSTK || r.esp > EXSTK_TOP {
        tmp := EXSTK_TOP - FRAME;
      } else {
        tmp := tmp - 4;
        mem := Store(mem, tmp, 0);
        tmp := tmp - FRAME;
      }
      ghost var before := mem;
      var i := 0;
      while i < 13
        invariant 0 <= i <= 13
        invariant StoreAll(mem, tmp + 4 * i, utf[i..]) == StoreAll(before, tmp, utf)
        invariant r == old(r) && oesp == old(oesp)
      {
        assert utf[i..][0] == utf[i] && utf[i..][1..] == utf[i + 1..];
        mem := Store(mem, tmp + 4 * i, utf[i]);
        i := i + 1;
      }
      if tmp < EXSTK || tmp > EXSTK_TOP {
        return Panicked;
      }
      r := r.(esp := tmp, eip := upcall);
      return Resumed(State(r, oesp, mem));
    }

    // pfentry.S from the return of the C handler on, one statement for each effect; arithmetic
    // instructions leave eflags undefined.
    method UpcallReturn()
      requires r.esp + FRAME < WORD
      modifies this
      ensures View() == Pop(old(View()))
    {
      hide Store, Load;
      PushTrapTimeEip();
      RestoreRegisters();
    }

    method PushTrapTimeEip()
      modifies this
      ensures View() == Linked(old(View())).(r := r) && r.esp == old(r.esp)
    {
      hide Store, Load;
      r := r.(eax := Load(mem, r.esp + 40));       // movl 40(%esp), %eax
      r := r.(ebx := Load(mem, r.esp + 48));       // movl 48(%esp), %ebx
      var undefined: Word := *;
      r := r.(ebx := Sub(r.ebx, 4), eflags := undefined);  // subl $4, %ebx
      mem := Store(mem, r.ebx, r.eax);             // movl %eax, 0(%ebx)
      mem := Store(mem, r.esp + 48, r.ebx);        // movl %ebx, 48(%esp)
    }

    method RestoreRegisters()
      requires r.esp + FRAME < WORD
      modifies this
      ensures View() == Restored(old(View()))
    {
      hide Store, Load, Add;
      ghost var f := r.esp;
      NoWrap(f);
      r := r.(eax := Load(mem, r.esp));            // popl %eax
      r := r.(esp := Add(r.esp, 4));
      r := r.(eax := Load(mem, r.esp));            // popl %eax
      r := r.(esp := Add(r.esp, 4));
      assert r.esp == f + 8;
      r := r.(edi := Load(mem, r.esp), esi := Load(mem, r.esp + 4), ebp := Load(mem, r.esp + 8),
              ebx := Load(mem, r.esp + 16), edx := Load(mem, r.esp + 20), ecx := Load(mem, r.esp + 24),
              eax := Load(mem, r.esp + 28), esp := Add(r.esp, 32));   // popal
      assert r.esp == f + 40;
      var undefined: Word := *;
      r := r.(esp := Add(r.esp, 4), eflags := undefined);             // addl $4, %esp
      r := r.(eflags := Load(mem, r.esp));         // popfl
      r := r.(esp := Add(r.esp, 4));
      assert r.esp == f + 48;
      r := r.(esp := Load(mem, r.esp));            // popl %esp
      r := r.(eip := Load(mem, r.esp));            // ret
      r := r.(esp := Add(r.esp, 4));
    }
  }

  lemma NoWrap(f: Word)
    requires f + FRAME < WORD
    ensures Add(f, 4) == f + 4 && Add(f + 4, 4) == f + 8 && Add(f + 8, 32) == f + 40
    ensures Add(f + 40, 4) == f + 44 && Add(f + 44, 4) == f + 48
  {
  }

  // ---------- what a frame keeps ----------

  ghost predicate SameFrom(m: Memory, m': Memory, lo: int) {
    forall b | lo <= b < UXSTACKTOP :: At(m', b) == At(m, b)
  }

  ghost predicate HasFrame(m: Memory, f: int, ws: seq<Word>) {
    forall i | 0 <= i < |ws| :: Load(m, f + 4 * i) == ws[i]
  }

  lemma StoreBytes(m: Memory, a: int, w: Word, b: int)
    requires b < a || a + 4 <= b
    ensures At(Store(m, a, w), b) == At(m, b)
  {
  }

  lemma {:induction false} StoreAllBytes(m: Memory, a: int, ws: seq<Word>, b: int)
    requires b < a || a + 4 * |ws| <= b
    ensures At(StoreAll(m, a, ws), b) == At(m, b)
    decreases |ws|
  {
    if ws != [] {
      StoreBytes(m, a, ws[0], b);
      StoreAllBytes(Store(m, a, ws[0]), a + 4, ws[1..], b);
    }
  }

  lemma {:induction false} StoreAllHas(m: Memory, a: int, ws: seq<Word>)
    ensures HasFrame(StoreAll(m, a, ws), a, ws)
    decreases |ws|
  {
    hide Store;
    if ws != [] {
      var m1 := Store(m, a, ws[0]);
      var m2 := StoreAll(m1, a + 4, ws[1..]);
      LoadStored(m, a, ws[0]);
      forall b | a <= b < a + 4 ensures At(m2, b) == At(m1, b) {
        StoreAllBytes(m1, a + 4, ws[1..], b);
      }
      assert Load(m2, a) == ws[0];
      StoreAllHas(m1, a + 4, ws[1..]);
      hide Load;
      forall i | 0 <= i < |ws| ensures Load(m2, a + 4 * i) == ws[i] {
        if i > 0 {
          assert Load(m2, a + 4 + 4 * (i - 1)) == ws[1..][i - 1];
        }
      }
    }
  }

  lemma {:induction false} FrameKept(m: Memory, m': Memory, f: int, ws: seq<Word>)
    requires HasFrame(m, f, ws) && SameFrom(m, m', f) && f + 4 * |ws| <= UXSTACKTOP
    ensures HasFrame(m', f, ws)
  {
    forall i | 0 <= i < |ws| ensures Load(m', f + 4 * i) == ws[i] {
      assert Load(m, f + 4 * i) == ws[i];
    }
  }

  // The handler starts at the upcall, with esp at the frame and all other registers as they were;
  // the frame begins with the fault address and the error code, and nothing outside it is written
  // but, for a fault on the exception stack, the word below the trap-time esp, which is 0.
  lemma {:induction false} PushKeeps(s: State, va: Word, err: Word, upcall: Word)
    requires Push(s, va, err, upcall, true).Resumed?
    ensures var s' := Push(s, va, err, upcall, true).s;
      && s'.r == s.r.(esp := FrameAddress(s.r.esp), eip := upcall) && s'.oesp == s.oesp && EXSTK <= s'.r.esp
      && HasFrame(s'.mem, s'.r.esp, FrameWords(s, va, err))
      && Load(s'.mem, s'.r.esp) == va && Load(s'.mem, s'.r.esp + 4) == err
      && (OnExceptionStack(s.r.esp) ==> SameFrom(s.mem, s'.mem, s.r.esp) && Load(s'.mem, s.r.esp - 4) == 0)
    ensures forall b | b < FrameAddress(s.r.esp) || FrameEnd(s.r.esp) <= b ::
      At(Push(s, va, err, upcall, true).s.mem, b) == At(s.mem, b)
  {
    hide Store, StoreAll, Load, At;
    var tmp, ws, e := FrameAddress(s.r.esp), FrameWords(s, va, err), s.r.esp;
    var m := if OnExceptionStack(e) then Store(s.mem, e - 4, 0) else s.mem;
    var m' := StoreAll(m, tmp, ws);
    StoreAllHas(m, tmp, ws);
    assert Load(m', tmp + 4 * 0) == ws[0] && Load(m', tmp + 4 * 1) == ws[1];
    forall b | b < tmp || tmp + FRAME <= b ensures At(m', b) == At(m, b) {
      StoreAllBytes(m, tmp, ws, b);
    }
    if OnExceptionStack(e) {
      forall b | b < e - 4 || e <= b ensures At(m, b) == At(s.mem, b) {
        StoreBytes(s.mem, e - 4, 0, b);
      }
      LoadStored(s.mem, e - 4, 0);
      SameBytesSameWord(m, m', e - 4);
    }
    assert Push(s, va, err, upcall, true).s.mem == m';
    forall b | b < tmp || FrameEnd(e) <= b ensures At(m', b) == At(s.mem, b) {
      assert At(m', b) == At(m, b);
      if OnExceptionStack(e) { StoreBytes(s.mem, e - 4, 0, b); }
    }
  }

  lemma SameBytesSameWord(m: Memory, m': Memory, a: int)
    requires At(m', a) == At(m, a) && At(m', a + 1) == At(m, a + 1)
    requires At(m', a + 2) == At(m, a + 2) && At(m', a + 3) == At(m, a + 3)
    ensures Load(m', a) == Load(m, a)
  {
  }

  // The environment is destroyed exactly without an upcall or an exception stack; the kernel panics
  // exactly when the frame, and the scratch word above it, do not fit below a trap-time esp on it.
  lemma {:induction false} PushFails(s: State, va: Word, err: Word, upcall: Word, mapped: bool)
    ensures Push(s, va, err, upcall, mapped).Destroyed? <==> upcall == 0 || !mapped
    ensures Push(s, va, err, upcall, mapped).Panicked? <==>
      upcall != 0 && mapped && UXSTACKTOP - PGSIZE <= s.r.esp < UXSTACKTOP - PGSIZE + 4 + 13 * 4
  {
  }

  // The condition under which the word below the trap-time esp is free: the trap-time stack is
  // not the empty exception stack itself, whose top bytes the frame occupies.
  predicate ReturnIntact(t: State) {
    t.r.esp != UXSTACKTOP || t.r.eip % 0x100_0000 == 0xeebfff
  }

  // Popping an intact frame restores every register of the trap-time state, exactly then.
  lemma {:induction false} PopRestores(s: State, t: State, va: Word, err: Word)
    requires s.r.esp == FrameAddress(t.r.esp) >= EXSTK && HasFrame(s.mem, s.r.esp, FrameWords(t, va, err))
    requires 4 <= t.r.esp <= UXSTACKTOP
    ensures Pop(s).r == t.r.(eip := Pop(s).r.eip)
    ensures Pop(s).r == t.r <==> ReturnIntact(t)
    ensures OnExceptionStack(t.r.esp) ==> SameFrom(s.mem, Pop(s).mem, t.r.esp)
  {
    hide Store, Load, Pop, HasFrame;
    var f := s.r.esp;
    FrameLoads(s.mem, f, t, va, err);
    var sp := t.r.esp - 4;
    LinkedIs(s, t, va, err);
    var m := Linked(s).mem;
    if t.r.esp == UXSTACKTOP {
      TopClash(s.mem, f, t.r.eip);
    }
    PopIs(s);
    if OnExceptionStack(t.r.esp) {
      forall b | t.r.esp <= b < UXSTACKTOP ensures At(m, b) == At(s.mem, b) {
        StoreBytes(s.mem, sp, t.r.eip, b);
        StoreBytes(Store(s.mem, sp, t.r.eip), f + 48, sp, b);
      }
    }
  }

  lemma PopIs(s: State)
    ensures Pop(s) == Restored(Linked(s))
  {
  }

  lemma FrameLoads(m: Memory, f: int, t: State, va: Word, err: Word)
    requires HasFrame(m, f, FrameWords(t, va, err))
    ensures Load(m, f + 8) == t.r.edi && Load(m, f + 12) == t.r.esi && Load(m, f + 16) == t.r.ebp
    ensures Load(m, f + 24) == t.r.ebx
    ensures Load(m, f + 28) == t.r.edx && Load(m, f + 32) == t.r.ecx && Load(m, f + 36) == t.r.eax
    ensures Load(m, f + 40) == t.r.eip
    ensures Load(m, f + 44) == t.r.eflags && Load(m, f + 48) == t.r.esp
  {
    hide Load;
    var ws := FrameWords(t, va, err);
    assert Load(m, f + 4 * 2) == ws[2] && Load(m, f + 4 * 3) == ws[3];
    assert Load(m, f + 4 * 4) == ws[4] && Load(m, f + 4 * 6) == ws[6];
    assert Load(m, f + 4 * 7) == ws[7] && Load(m, f + 4 * 8) == ws[8];
    assert Load(m, f + 4 * 9) == ws[9] && Load(m, f + 4 * 10) == ws[10];
    assert Load(m, f + 4 * 11) == ws[11] && Load(m, f + 4 * 12) == ws[12];
  }

  // Storing the return address and the adjusted esp leaves the other saved registers readable.
  lemma LinkedIs(s: State, t: State, va: Word, err: Word)
    requires s.r.esp == FrameAddress(t.r.esp) >= EXSTK && HasFrame(s.mem, s.r.esp, FrameWords(t, va, err))
    requires 4 <= t.r.esp <= UXSTACKTOP
    ensures var f, sp := s.r.esp, t.r.esp - 4;
      && Linked(s) == s.(mem := Store(Store(s.mem, sp, t.r.eip), f + 48, sp))
      && (forall b | f <= b <= f + 44 :: Load(Linked(s).mem, b) == Load(s.mem, b))
      && Load(Linked(s).mem, f + 48) == sp
      && (t.r.esp != UXSTACKTOP ==> Load(Linked(s).mem, sp) == t.r.eip)
  {
    hide Store, Load;
    var f, sp := s.r.esp, t.r.esp - 4;
    FrameLoads(s.mem, f, t, va, err);
    assert Sub(t.r.esp, 4) == sp;
    var m := Store(s.mem, sp, t.r.eip);
    forall b | f <= b <= f + 44 ensures Load(Linked(s).mem, b) == Load(s.mem, b) {
      LoadBeside(m, f + 48, sp, b);
      LoadBeside(s.mem, sp, t.r.eip, b);
    }
    LoadStored(m, f + 48, sp);
    if t.r.esp != UXSTACKTOP {
      LoadStored(s.mem, sp, t.r.eip);
      LoadBeside(m, f + 48, sp, sp);
    }
  }

  lemma StoredBytes(m: Memory, a: int, w: Word)
    ensures At(Store(m, a, w), a + 1) == w / 0x100 % 0x100 && At(Store(m, a, w), a + 2) == w / 0x1_0000 % 0x100
    ensures At(Store(m, a, w), a + 3) == w / 0x100_0000
  {
    assert w / 0x100_0000 % 0x100 == w / 0x100_0000;
  }

  // With esp at UXSTACKTOP the two stores overlap, and three bytes of eip are lost.
  lemma {:induction false} TopClash(m: Memory, f: int, eip: Word)
    requires f == EXSTK_TOP - FRAME
    ensures var sp := UXSTACKTOP - 4;
      Load(Store(Store(m, sp, eip), f + 48, sp), sp) == eip <==> eip % 0x100_0000 == 0xeebfff
  {
    hide Store, At;
    var sp := UXSTACKTOP - 4;
    var m1 := Store(m, sp, eip);
    StoredBytes(m1, sp - 1, sp);
    StoreBytes(m1, sp - 1, sp, sp + 3);
    StoredBytes(m, sp, eip);
  }

  // ---------- nested faults ----------

  // What a handler does: run C code, which may leave any registers and memory as long as it keeps
  // to its own part of the stack, or fault again.
  datatype Acts = Finished | Compute(next: State, rest: Acts) | Nested(va: Word, err: Word, inner: Acts, rest: Acts)

  datatype Option<T> = None | Some(value: T)

  // One page fault, from the trap to the return to the faulting instruction; None if the stack
  // overflows or the handler does not keep the calling convention.
  ghost function Episode(s: State, va: Word, err: Word, upcall: Word, body: Acts): Option<State>
    decreases body, 1
  {
    match Push(s, va, err, upcall, true)
    case Resumed(h) =>
      (match RunHandler(h, h.r.esp, upcall, body)
       case Some(e) => if e.r.esp == h.r.esp then Some(Pop(e)) else None
       case None => None)
    case _ => None
  }

  ghost function RunHandler(s: State, f: int, upcall: Word, acts: Acts): Option<State>
    decreases acts, 0
  {
    match acts
    case Finished => Some(s)
    case Compute(n, rest) =>
      if EXSTK <= n.r.esp <= f && SameFrom(s.mem, n.mem, f) then RunHandler(n, f, upcall, rest) else None
    case Nested(va, err, inner, rest) =>
      match Episode(s, va, err, upcall, inner)
      case Some(n) => RunHandler(n, f, upcall, rest)
      case None => None
  }

  // However deep faults nest, each return restores all registers of its own trap-time state, and
  // on the exception stack nothing at or above the trap-time esp has changed.
  lemma {:induction false} FaultUnwinds(s: State, va: Word, err: Word, upcall: Word, body: Acts)
    requires 4 <= s.r.esp <= UXSTACKTOP && Episode(s, va, err, upcall, body).Some?
    ensures var e := Episode(s, va, err, upcall, body).value;
      && e.r == s.r.(eip := e.r.eip) && (e.r == s.r <==> ReturnIntact(s))
      && (OnExceptionStack(s.r.esp) ==> SameFrom(s.mem, e.mem, s.r.esp))
    decreases body, 1
  {
    hide Push, Pop, HasFrame, FrameWords, ReturnIntact;
    var h := Push(s, va, err, upcall, true).s;
    PushKeeps(s, va, err, upcall);
    HandlerKeeps(h, h.r.esp, upcall, body);
    var e := RunHandler(h, h.r.esp, upcall, body).value;
    FrameKept(h.mem, e.mem, h.r.esp, FrameWords(s, va, err));
    PopRestores(e, s, va, err);
  }

  lemma {:induction false} HandlerKeeps(s: State, f: int, upcall: Word, acts: Acts)
    requires EXSTK <= s.r.esp <= f <= EXSTK_TOP - FRAME && RunHandler(s, f, upcall, acts).Some?
    ensures SameFrom(s.mem, RunHandler(s, f, upcall, acts).value.mem, f)
    decreases acts, 0
  {
    hide Push, Pop, HasFrame;
    match acts
    case Finished =>
    case Compute(n, rest) => HandlerKeeps(n, f, upcall, rest);
    case Nested(va, err, inner, rest) =>
      FaultUnwinds(s, va, err, upcall, inner);
      HandlerKeeps(Episode(s, va, err, upcall, inner).value, f, upcall, rest);
  }

  function Depth(acts: Acts): nat {
    match acts
    case Finished => 0
    case Compute(_, rest) => Depth(rest)
    case Nested(_, _, inner, rest) => if Depth(inner) + 1 >= Depth(rest) then Depth(inner) + 1 else Depth(rest)
  }

  // Each level takes its frame and a scratch word, below all frames before it, so at most 73
  // levels fit in the page.
  lemma {:induction false} DepthFits(s: State, va: Word, err: Word, upcall: Word, body: Acts)
    requires 4 <= s.r.esp <= UXSTACKTOP && Episode(s, va, err, upcall, body).Some?
    ensures 1 + Depth(body) <= 73
    ensures OnExceptionStack(s.r.esp) ==> (FRAME + 4) * (1 + Depth(body)) <= s.r.esp - EXSTK
  {
    hide Pop, HasFrame;
    PushKeeps(s, va, err, upcall);
    var h := Push(s, va, err, upcall, true).s;
    LevelsFit(h, h.r.esp, upcall, body);
  }

  lemma {:induction false} LevelsFit(s: State, f: int, upcall: Word, acts: Acts)
    requires EXSTK <= s.r.esp <= f <= EXSTK_TOP - FRAME && RunHandler(s, f, upcall, acts).Some?
    ensures (FRAME + 4) * Depth(acts) <= f - EXSTK
    decreases acts
  {
    hide Pop, HasFrame;
    match acts
    case Finished =>
    case Compute(n, rest) => LevelsFit(n, f, upcall, rest);
    case Nested(va, err, inner, rest) =>
      FaultUnwinds(s, va, err, upcall, inner);
      PushKeeps(s, va, err, upcall);
      var h := Push(s, va, err, upcall, true).s;
      LevelsFit(h, h.r.esp, upcall, inner);
      LevelsFit(Episode(s, va, err, upcall, inner).value, f, upcall, rest);
  }
}
