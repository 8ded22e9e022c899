/** `process_switch` of processes/context_switch.asm, instruction by instruction
    over registers and stack memory, and the first frame that
    `process_create_stack` builds (processes/process.c). */
module ContextSwitch {
  import opened Bytes
  import Runs

  const DEFAULT_EFLAGS: Word := 0x202
  const FRAME: nat := 44

  type Pid = Word

  /** What a process can observe of itself. */
  datatype Regs = Regs(edi: Word, esi: Word, ebp: Word, esp: Word, ebx: Word, edx: Word, ecx: Word, eax: Word,
                       eflags: Word, eip: Word)

  /** context_t, one per process; the hops from process to pcb to context are one. */
  datatype Context = Context(edi: Word, esi: Word, ebp: Word, esp: Word, ebx: Word, edx: Word, ecx: Word, eax: Word,
                             eip: Word, eflags: Word)

  // ---- Words on a stack -------------------------------------------------

  ghost predicate Holds(m: Memory, a: nat, ws: seq<Word>)
  {
    a + 4 * |ws| <= |m| && forall i {:trigger WordAt(m, a, i)} :: 0 <= i < |ws| ==> WordAt(m, a, i) == ws[i]
  }

  ghost function WordAt(m: Memory, a: nat, i: nat): Word
    requires a + 4 * i + 4 <= |m|
  {
    Load32(m, a + 4 * i)
  }

  lemma HoldsFrame(m: Memory, n: Memory, lo: nat, hi: nat, a: nat, ws: seq<Word>)
    requires Holds(m, a, ws) && SameBut(m, n, lo, hi) && (hi <= a || a + 4 * |ws| <= lo)
    ensures Holds(n, a, ws)
  {
    forall i | 0 <= i < |ws| ensures WordAt(n, a, i) == ws[i] {
      assert WordAt(m, a, i) == ws[i];
      LoadFrame(m, n, lo, hi, a + 4 * i);
    }
  }

  lemma HoldsPush(m: Memory, n: Memory, a: nat, w: Word, ws: seq<Word>)
    requires 4 <= a && Holds(m, a, ws) && Stored(m, n, a - 4, w)
    ensures Holds(n, a - 4, [w] + ws)
  {
    HoldsFrame(m, n, a - 4, a, a, ws);
    var all := [w] + ws;
    forall i | 0 <= i < |all| ensures WordAt(n, a - 4, i) == all[i] {
      assert i > 0 ==> WordAt(n, a, i - 1) == ws[i - 1];
    }
  }

  /** The saved frame of a process that called `process_switch` in state r with
      return address ret: pushad's eight words, the flags, ebp, and the return
      address the call had pushed. */
  function SavedFrame(r: Regs, ret: Word): seq<Word>
    requires 8 <= r.esp
  {
    [r.edi, r.esi, r.esp - 4, r.esp - 8, r.ebx, r.edx, r.ecx, r.eax, r.eflags, r.ebp, ret]
  }

  /** The context record the code writes. Its eflags field gets the word at
      [esp + 36], which is ebp: the flags are at [esp + 32]. */
  function SavedContext(r: Regs, ret: Word): Context
    requires 40 <= r.esp
  {
    Context(r.edi, r.esi, r.esp - 4, r.esp - 40, r.ebx, r.edx, r.ecx, r.eax, ret, r.ebp)
  }

  /** The eleven words at a. */
  ghost function FrameAt(m: Memory, a: nat): seq<Word>
    requires a + FRAME <= |m|
  {
    seq(11, i requires 0 <= i < 11 => WordAt(m, a, i))
  }

  /** The registers after popad, popfd, pop ebp and ret on a frame. */
  function Resumed(ws: seq<Word>, esp: Word): Regs
    requires |ws| == 11
  {
    Regs(ws[0], ws[1], ws[9], esp, ws[4], ws[5], ws[6], ws[7], ws[8], ws[10])
  }

  lemma FrameIs(m: Memory, a: nat, ws: seq<Word>)
    requires Holds(m, a, ws) && |ws| == 11
    ensures FrameAt(m, a) == ws
  {
    forall i | 0 <= i < 11 ensures FrameAt(m, a)[i] == ws[i] {
      assert WordAt(m, a, i) == ws[i];
    }
  }

  /** Restoring what was saved gives back every register, with the call undone. */
  lemma SaveThenRestore(r: Regs, ret: Word)
    requires 8 <= r.esp < 0xFFFF_FFFC
    ensures Resumed(SavedFrame(r, ret), r.esp + 4) == r.(esp := r.esp + 4, eip := ret)
  {
  }

  /** The saved context's eflags and ebp fields are right only by coincidence. */
  lemma ContextFlags(r: Regs, ret: Word)
    requires 40 <= r.esp
    ensures SavedContext(r, ret).eflags == r.eflags <==> r.ebp == r.eflags
    ensures SavedContext(r, ret).ebp == r.ebp <==> r.ebp == r.esp - 4
  {
  }

  // ---- Steps ------------------------------------------------------------

  /** vms has each process's vm_context, loaded is the one in use. */
  datatype State = State(regs: Regs, mem: Memory, contexts: map<Pid, Context>, vms: map<Pid, Word>, current: Pid,
                         loaded: Word)

  /** One `process_switch` called with return address and argument on the stack;
      it writes nothing outside [lo, esp), and the address space is the next
      process's. */
  ghost predicate SwitchStep(s: State, t: State, lo: nat)
  {
    var e := s.regs.esp;
    && lo + 40 <= e && e + 8 <= |s.mem| && s.current in s.contexts && SameBut(s.mem, t.mem, lo, e)
    && var ret, next := Load32(s.mem, e), Load32(s.mem, e + 4);
       && next in s.contexts && t.current == next
       && next in s.vms && t.vms == s.vms && t.loaded == s.vms[next]
       && t.contexts == s.contexts[s.current := SavedContext(s.regs, ret)]
       && Holds(t.mem, e - 40, SavedFrame(s.regs, ret))
       && var a := t.contexts[next].esp;
          a + FRAME <= |t.mem| && a + FRAME < 0x1_0000_0000 && t.regs == Resumed(FrameAt(t.mem, a), a + FRAME)
  }

  /** Leaving and entering make up a switch. */
  lemma SwitchMade(s: State, mid: Memory, t: State, lo: nat)
    requires var e := s.regs.esp;
             && lo + 48 <= e && e + 8 <= |s.mem| && s.current in s.contexts
             && SameBut(s.mem, mid, e - 40, e) && SameBut(mid, t.mem, lo, e - 40)
             && Holds(t.mem, e - 40, SavedFrame(s.regs, Load32(s.mem, e)))
    requires t.current == Load32(s.mem, s.regs.esp + 4) && t.current in s.contexts
    requires t.current in s.vms && t.vms == s.vms && t.loaded == s.vms[t.current]
    requires t.contexts == s.contexts[s.current := SavedContext(s.regs, Load32(s.mem, s.regs.esp))]
    requires var a := t.contexts[t.current].esp;
             a + FRAME <= |t.mem| && a + FRAME < 0x1_0000_0000 && t.regs == Resumed(FrameAt(t.mem, a), a + FRAME)
    ensures SwitchStep(s, t, lo)
  {
  }

  /** Word by word. */
  lemma FrameWords(m: Memory, a: nat, ws: seq<Word>)
    requires Holds(m, a, ws) && |ws| == 11
    ensures Load32(m, a) == ws[0] && Load32(m, a + 4) == ws[1] && Load32(m, a + 8) == ws[2]
    ensures Load32(m, a + 12) == ws[3]
    ensures Load32(m, a + 16) == ws[4] && Load32(m, a + 20) == ws[5] && Load32(m, a + 24) == ws[6]
    ensures Load32(m, a + 28) == ws[7]
    ensures Load32(m, a + 32) == ws[8] && Load32(m, a + 36) == ws[9] && Load32(m, a + 40) == ws[10]
  {
    assert WordAt(m, a, 0) == ws[0] && WordAt(m, a, 1) == ws[1] && WordAt(m, a, 2) == ws[2] && WordAt(m, a, 3) == ws[3];
    assert WordAt(m, a, 4) == ws[4] && WordAt(m, a, 5) == ws[5] && WordAt(m, a, 6) == ws[6] && WordAt(m, a, 7) == ws[7];
    assert WordAt(m, a, 8) == ws[8] && WordAt(m, a, 9) == ws[9] && WordAt(m, a, 10) == ws[10];
  }

  lemma ResumedWords(m: Memory, a: nat)
    requires a + FRAME <= |m| && a + FRAME < 0x1_0000_0000
    ensures Resumed(FrameAt(m, a), a + FRAME)
         == Regs(Load32(m, a), Load32(m, a + 4), Load32(m, a + 36), a + FRAME, Load32(m, a + 16), Load32(m, a + 20),
                 Load32(m, a + 24), Load32(m, a + 28), Load32(m, a + 32), Load32(m, a + 40))
  {
    FrameWords(m, a, FrameAt(m, a));
  }

  /** The context a switch leaves behind, field by field: where the frame is, the
      caller's other registers, and where it goes on; each is a word of the frame. */
  lemma SwitchSavesContext(s: State, t: State, lo: nat)
    requires SwitchStep(s, t, lo)
    ensures var c, r := t.contexts[s.current], s.regs;
            && c.esp + 40 == r.esp && c.ebp + 4 == r.esp && c.eip == Load32(s.mem, r.esp)
            && c.edi == r.edi && c.esi == r.esi && c.ebx == r.ebx && c.edx == r.edx && c.ecx == r.ecx && c.eax == r.eax
    ensures var c := t.contexts[s.current];
            && c.edi == Load32(t.mem, c.esp) && c.esi == Load32(t.mem, c.esp + 4) && c.ebp == Load32(t.mem, c.esp + 8)
            && c.ebx == Load32(t.mem, c.esp + 16) && c.edx == Load32(t.mem, c.esp + 20)
            && c.ecx == Load32(t.mem, c.esp + 24) && c.eax == Load32(t.mem, c.esp + 28)
            && c.eflags == Load32(t.mem, c.esp + 36) && c.eip == Load32(t.mem, c.esp + 40)
  {
    FrameWords(t.mem, s.regs.esp - 40, SavedFrame(s.regs, Load32(s.mem, s.regs.esp)));
  }

  // ---- The machine ------------------------------------------------------

  /** What `vmm_switch_vm_context` may do to its caller: the caller-saved
      registers and the stack below it. */
  datatype Callee = Callee(eax: Word, ecx: Word, edx: Word, eflags: Word, scratch: seq<Byte>)

  /** The callee's own use of the stack. */
  function Scribbled(m: Memory, bottom: nat, scratch: seq<Byte>): (n: Memory)
    requires bottom + |scratch| <= |m|
    ensures SameBut(m, n, bottom, bottom + |scratch|)
  {
    m[..bottom] + scratch + m[bottom + |scratch|..]
  }

  class Machine {
    var edi: Word
    var esi: Word
    var ebp: Word
    var esp: Word
    var ebx: Word
    var edx: Word
    var ecx: Word
    var eax: Word
    var eflags: Word
    var eip: Word
    var mem: Memory
    var contexts: map<Pid, Context>
    const vms: map<Pid, Word>
    var current: Pid
    var loaded: Word

    constructor (mem: Memory, contexts: map<Pid, Context>, vms: map<Pid, Word>, current: Pid, loaded: Word, regs: Regs)
      ensures Abs() == State(regs, mem, contexts, vms, current, loaded)
    {
      this.mem, this.contexts, this.vms, this.current, this.loaded := mem, contexts, vms, current, loaded;
      edi, esi, ebp, esp, ebx := regs.edi, regs.esi, regs.ebp, regs.esp, regs.ebx;
      edx, ecx, eax, eflags, eip := regs.edx, regs.ecx, regs.eax, regs.eflags, regs.eip;
    }

    method Push(w: Word, ghost ws: seq<Word>) returns (ghost more: seq<Word>)
      requires 4 <= esp <= |mem| && Holds(mem, esp, ws)
      modifies this`esp, this`mem
      ensures esp == old(esp) - 4 && SameBut(old(mem), mem, esp, old(esp))
      ensures more == [w] + ws && Holds(mem, esp, more)
    {
      more := [w] + ws;
      esp := esp - 4;
      mem := Store32(mem, esp, w);
      HoldsPush(old(mem), mem, old(esp), w, ws);
    }

    method Pop() returns (w: Word)
      requires esp + 4 <= |mem| && esp + 4 < 0x1_0000_0000
      modifies this`esp
      ensures w == Load32(mem, old(esp)) && esp == old(esp) + 4
    {
      w := Load32(mem, esp);
      esp := esp + 4;
    }

    /** pushad: eax, ecx, edx, ebx, the old esp, ebp, esi, edi. */
    method Pushad(ghost ws: seq<Word>) returns (ghost st: seq<Word>)
      requires 32 <= esp <= |mem| && Holds(mem, esp, ws)
      modifies this`esp, this`mem
      ensures esp == old(esp) - 32 && SameBut(old(mem), mem, esp, old(esp)) && Holds(mem, esp, st)
      ensures st == [edi, esi, ebp, old(esp), ebx, edx, ecx, eax] + ws
    {
      var top := esp;
      st := Push(eax, ws);
      st := Push(ecx, st);
      st := Push(edx, st);
      st := Push(ebx, st);
      st := Push(top, st);
      st := Push(ebp, st);
      st := Push(esi, st);
      st := Push(edi, st);
    }

    /** popad: the reverse order, the stored esp skipped. */
    method Popad()
      requires esp + 32 <= |mem| && esp + 32 < 0x1_0000_0000
      modifies this`edi, this`esi, this`ebp, this`esp, this`ebx, this`edx, this`ecx, this`eax
      ensures esp == old(esp) + 32
      ensures edi == Load32(mem, old(esp)) && esi == Load32(mem, old(esp) + 4) && ebp == Load32(mem, old(esp) + 8)
      ensures ebx == Load32(mem, old(esp) + 16) && edx == Load32(mem, old(esp) + 20)
      ensures ecx == Load32(mem, old(esp) + 24) && eax == Load32(mem, old(esp) + 28)
    {
      edi, esi, ebp := Load32(mem, esp), Load32(mem, esp + 4), Load32(mem, esp + 8);
      ebx, edx, ecx, eax := Load32(mem, esp + 16), Load32(mem, esp + 20), Load32(mem, esp + 24), Load32(mem, esp + 28);
      esp := esp + 32;
    }

    ghost function Now(): Regs
      reads this
    {
      Regs(edi, esi, ebp, esp, ebx, edx, ecx, eax, eflags, eip)
    }

    /** push ebp; mov ebp, esp; pushfd; pushad. */
    method PushFrame()
      requires 40 <= esp && esp + 4 <= |mem|
      modifies this`esp, this`ebp, this`mem
      ensures esp == old(esp) - 40 && ebp == old(esp) - 4 && SameBut(old(mem), mem, esp, old(esp))
      ensures Holds(mem, esp, SavedFrame(old(Now()), Load32(old(mem), old(esp))))
    {
      ghost var st := [Load32(mem, esp)];
      assert Holds(mem, esp, st);
      st := Push(ebp, st);
      ebp := esp;
      st := Push(eflags, st);
      st := Pushad(st);
      assert st == SavedFrame(old(Now()), Load32(old(mem), old(esp)));
    }

    /** The stores into the running process's context. */
    method StoreContext(ghost r: Regs, ghost ret: Word)
      requires 40 <= r.esp && esp == r.esp - 40 && ebp == r.esp - 4 && Holds(mem, esp, SavedFrame(r, ret))
      requires current in contexts
      modifies this`eax, this`ecx, this`edx, this`contexts
      ensures contexts == old(contexts)[current := SavedContext(r, ret)]
    {
      FrameWords(mem, esp, SavedFrame(r, ret));
      eax := current;
      ecx := eax;
      var m, e, w := mem, esp, Load32(mem, esp);  // w is edx
      var c := contexts[ecx].(esp := e, edi := w);
      w := Load32(m, e + 4);
      c := c.(esi := w);
      w := Load32(m, e + 8);
      c := c.(ebp := w);
      w := Load32(m, e + 16);
      c := c.(ebx := w);
      w := Load32(m, e + 20);
      c := c.(edx := w);
      w := Load32(m, e + 24);
      c := c.(ecx := w);
      w := Load32(m, e + 28);
      c := c.(eax := w);
      w := Load32(m, e + 36);
      c := c.(eflags := w);
      w := Load32(m, ebp + 4);
      c := c.(eip := w);
      contexts, edx := contexts[ecx := c], w;
    }

    ghost function Abs(): State
      reads this
    {
      State(Now(), mem, contexts, vms, current, loaded)
    }

    /** push ecx; call vmm_switch_vm_context; add esp, 4. The callee loads the
        address space its argument names; it may clobber the caller-saved registers
        and write below the stack pointer. */
    method CallVmSwitch(c: Callee)
      requires 8 + |c.scratch| <= esp <= |mem|
      modifies this`mem, this`eax, this`ecx, this`edx, this`eflags, this`loaded
      ensures SameBut(old(mem), mem, esp - 8 - |c.scratch|, esp) && loaded == old(ecx)
    {
      var pushed := Store32(mem, esp - 4, ecx);
      var called := Store32(pushed, esp - 8, eip);
      LoadFrame(pushed, called, esp - 8, esp - 4, esp - 4);
      loaded := Load32(called, esp - 4);
      mem := Scribbled(called, esp - 8 - |c.scratch|, c.scratch);
      eax, ecx, edx, eflags := c.eax, c.ecx, c.edx, c.eflags;
    }

    /** popad; popfd; pop ebp; ret. */
    method PopFrame()
      requires esp + FRAME <= |mem| && esp + FRAME < 0x1_0000_0000
      modifies this`edi, this`esi, this`ebp, this`esp, this`ebx, this`edx, this`ecx, this`eax, this`eflags, this`eip
      ensures Now() == Resumed(FrameAt(mem, old(esp)), old(esp) + FRAME)
    {
      ResumedWords(mem, esp);
      Popad();
      eflags := Pop();
      ebp := Pop();
      eip := Pop();
    }

    /** Up to the change of `current_process`. */
    method Leave()
      requires 40 <= esp && esp + 8 <= |mem| && current in contexts
      modifies this`esp, this`ebp, this`mem, this`eax, this`ecx, this`edx, this`contexts, this`current
      ensures esp == old(esp) - 40 && SameBut(old(mem), mem, esp, old(esp))
      ensures Holds(mem, esp, SavedFrame(old(Now()), Load32(old(mem), old(esp))))
      ensures contexts == old(contexts)[old(current) := SavedContext(old(Now()), Load32(old(mem), old(esp)))]
      ensures current == Load32(old(mem), old(esp) + 4)
    {
      ghost var r, ret := Now(), Load32(mem, esp);
      PushFrame();
      StoreContext(r, ret);
      LoadFrame(old(mem), mem, esp, r.esp, r.esp + 4);
      edx := Load32(mem, ebp + 8);
      current := edx;
    }

    /** The next process's address space. */
    method LoadSpace(c: Callee, ghost ws: seq<Word>)
      requires 8 + |c.scratch| <= esp <= |mem| && Holds(mem, esp, ws) && current in vms
      modifies this`mem, this`eax, this`ecx, this`edx, this`eflags, this`loaded
      ensures SameBut(old(mem), mem, esp - 8 - |c.scratch|, esp) && Holds(mem, esp, ws)
      ensures loaded == vms[current]
    {
      eax := current;
      ecx := vms[eax];
      CallVmSwitch(c);
      HoldsFrame(old(mem), mem, esp - 8 - |c.scratch|, esp, esp, ws);
    }

    /** From the change on: the next address space, then the next process's stack. */
    method Enter(c: Callee, ghost ws: seq<Word>)
      requires 8 + |c.scratch| <= esp <= |mem| && Holds(mem, esp, ws) && current in contexts && current in vms
      requires contexts[current].esp + FRAME <= |mem| && contexts[current].esp + FRAME < 0x1_0000_0000
      modifies this`edi, this`esi, this`ebp, this`esp, this`ebx, this`edx, this`ecx, this`eax, this`eflags, this`eip
      modifies this`mem, this`loaded
      ensures SameBut(old(mem), mem, old(esp) - 8 - |c.scratch|, old(esp)) && Holds(mem, old(esp), ws)
      ensures loaded == vms[current]
      ensures Now() == Resumed(FrameAt(mem, contexts[current].esp), contexts[current].esp + FRAME)
    {
      LoadSpace(c, ws);
      eax := current;
      ecx := eax;
      esp := contexts[ecx].esp;
      PopFrame();
    }

    /** The whole of `process_switch`. The stack must have room for the frame and
        the call below it. */
    method ProcessSwitch(c: Callee)
      requires 48 + |c.scratch| <= esp && esp + 8 <= |mem| <= 0x1_0000_0000 && current in contexts
      requires var next := Load32(mem, esp + 4);
               && next in contexts && next in vms
               && (next != current ==> contexts[next].esp + FRAME <= |mem|)
               && (next != current ==> contexts[next].esp + FRAME < 0x1_0000_0000)
      modifies this
      ensures SwitchStep(old(Abs()), Abs(), old(esp) - 48 - |c.scratch|)
    {
      ghost var s, frame := Abs(), SavedFrame(Now(), Load32(mem, esp));
      Leave();
      ghost var mid := mem;
      Enter(c, frame);
      SwitchMade(s, mid, Abs(), s.regs.esp - 48 - |c.scratch|);
    }

    /** The end of `process_create_stack`: a zeroed frame of eleven words below
        the stack top, with the flags and the entry point filled in. */
    method CreateFrame(p: Pid)
      requires p in contexts && FRAME <= contexts[p].esp <= |mem|
      modifies this`mem, this`contexts
      ensures var top := old(contexts)[p].esp;
              && SameBut(old(mem), mem, top - FRAME, top)
              && Holds(mem, top - FRAME, FreshFrame(old(contexts)[p].eip))
              && contexts == old(contexts)[p := old(contexts)[p].(esp := top - FRAME)]
    {
      var top, entry := contexts[p].esp, contexts[p].eip;
      var frame := top - FRAME;
      var zero := mem[..frame] + seq(FRAME, _ => 0) + mem[top..];
      var flags := Store32(zero, frame + 32, DEFAULT_EFLAGS);
      var full := Store32(flags, frame + 40, entry);
      FrameFilled(zero, flags, full, frame, entry);
      mem := full;
      contexts := contexts[p := contexts[p].(esp := frame)];
    }
  }

  /** The flags and the entry point in a zeroed frame. */
  lemma FrameFilled(zero: Memory, flags: Memory, full: Memory, frame: nat, entry: Word)
    requires frame + FRAME <= |zero| && forall i :: frame <= i < frame + FRAME ==> zero[i] == 0
    requires Stored(zero, flags, frame + 32, DEFAULT_EFLAGS) && Stored(flags, full, frame + 40, entry)
    ensures Holds(full, frame, FreshFrame(entry))
  {
    forall i | 0 <= i < 11 ensures WordAt(full, frame, i) == FreshFrame(entry)[i] {
      assert i != 8 && i != 10 ==> WordAt(zero, frame, i) == 0;
      if i != 8 {
        LoadFrame(zero, flags, frame + 32, frame + 36, frame + 4 * i);
      }
      if i != 10 {
        LoadFrame(flags, full, frame + 40, frame + 44, frame + 4 * i);
      }
    }
  }

  function FreshFrame(entry: Word): seq<Word> { [0, 0, 0, 0, 0, 0, 0, 0, DEFAULT_EFLAGS, 0, entry] }

  /** A fresh process starts at its entry with zeroed registers, the default
      flags and its original stack top. */
  lemma FreshResumes(entry: Word, top: Word)
    ensures Resumed(FreshFrame(entry), top) == Regs(0, 0, 0, top, 0, 0, 0, 0, 0x202, entry)
  {
  }

  // ---- Whole runs -------------------------------------------------------

  datatype Region = Region(lo: nat, hi: nat)

  /** Stacks of different processes do not overlap. */
  ghost predicate Disjoint(stacks: map<Pid, Region>)
  {
    forall p, q :: p in stacks && q in stacks && p != q ==> stacks[p].hi <= stacks[q].lo || stacks[q].hi <= stacks[p].lo
  }

  datatype Event = Work | Switch | Create(pid: Pid, entry: Word)

  /** Work: the running process does what it likes, except to other stacks.
      Switch: it calls `process_switch`. Create: it builds a new process's frame. */
  ghost predicate Step(stacks: map<Pid, Region>, s: State, e: Event, t: State)
  {
    && s.current in stacks
    && match e
       case Work =>
         && t.current == s.current && t.contexts == s.contexts && |t.mem| == |s.mem|
         && t.vms == s.vms && t.loaded == s.loaded
         && forall q :: q in stacks && q != s.current ==> SameInside(s.mem, t.mem, stacks[q])
       case Switch =>
         SwitchStep(s, t, stacks[s.current].lo) && s.regs.esp + 8 <= stacks[s.current].hi
       case Create(p, entry) =>
         && p in stacks && p in s.contexts && p != s.current && t.current == s.current
         && FRAME <= s.contexts[p].esp && t.vms == s.vms && t.loaded == s.loaded
         && var frame := s.contexts[p].esp - FRAME;
            && InStack(stacks[p], frame, s.mem) && SameBut(s.mem, t.mem, frame, frame + FRAME)
            && Holds(t.mem, frame, FreshFrame(entry))
            && t.contexts == s.contexts[p := s.contexts[p].(esp := frame)]
  }

  ghost predicate SameInside(m: Memory, n: Memory, r: Region)
  {
    |m| == |n| && forall i :: r.lo <= i < r.hi && i < |m| ==> n[i] == m[i]
  }

  ghost predicate InStack(r: Region, a: nat, m: Memory)
  {
    r.lo <= a && a + FRAME <= r.hi && r.hi <= |m| && a + FRAME < 0x1_0000_0000
  }

  /** p is off the processor and the frame ws waits at a on its stack. */
  ghost predicate Suspended(stacks: map<Pid, Region>, s: State, p: Pid, a: nat, ws: seq<Word>)
  {
    && p in stacks && p in s.contexts && s.current != p && |ws| == 11
    && s.contexts[p].esp == a && InStack(stacks[p], a, s.mem) && Holds(s.mem, a, ws)
  }

  lemma HoldsInside(m: Memory, n: Memory, r: Region, a: nat, ws: seq<Word>)
    requires SameInside(m, n, r) && Holds(m, a, ws) && r.lo <= a && a + 4 * |ws| <= r.hi
    ensures Holds(n, a, ws)
  {
    forall i | 0 <= i < |ws| ensures WordAt(n, a, i) == ws[i] {
      assert WordAt(m, a, i) == ws[i];
    }
  }

  /** Whatever happens meanwhile, a suspended process's frame stays, until a
      switch to it loads exactly that frame. */
  lemma StepKeepsSuspended(stacks: map<Pid, Region>, s: State, e: Event, t: State, p: Pid, a: nat, ws: seq<Word>)
    requires Disjoint(stacks) && Step(stacks, s, e, t) && Suspended(stacks, s, p, a, ws)
    requires e.Create? ==> e.pid != p
    ensures if t.current == p then e.Switch? && t.regs == Resumed(ws, a + FRAME) else Suspended(stacks, t, p, a, ws)
  {
    match e
    case Work => HoldsInside(s.mem, t.mem, stacks[p], a, ws);
    case Create(q, entry) =>
      var frame := s.contexts[q].esp - FRAME;
      HoldsFrame(s.mem, t.mem, frame, frame + FRAME, a, ws);
    case Switch =>
      HoldsFrame(s.mem, t.mem, stacks[s.current].lo, s.regs.esp, a, ws);
      FrameIs(t.mem, a, ws);
  }

  /** Switching away suspends the caller with its own registers. */
  lemma SwitchSuspends(stacks: map<Pid, Region>, s: State, t: State)
    requires Step(stacks, s, Switch, t) && stacks[s.current].hi <= |s.mem| && s.regs.esp + 4 < 0x1_0000_0000
    requires t.current != s.current
    ensures Suspended(stacks, t, s.current, s.regs.esp - 40, SavedFrame(s.regs, Load32(s.mem, s.regs.esp)))
  {
  }

  /** Switching to oneself returns at once, registers unchanged. */
  lemma SelfSwitch(s: State, t: State, lo: nat)
    requires SwitchStep(s, t, lo) && t.current == s.current && s.regs.esp < 0xFFFF_FFFC
    ensures t.regs == s.regs.(esp := s.regs.esp + 4, eip := Load32(s.mem, s.regs.esp))
  {
    var ret, ws := Load32(s.mem, s.regs.esp), SavedFrame(s.regs, Load32(s.mem, s.regs.esp));
    assert t.contexts[t.current].esp == s.regs.esp - 40;
    FrameIs(t.mem, s.regs.esp - 40, ws);
    assert t.regs == Resumed(ws, s.regs.esp + 4);
    SaveThenRestore(s.regs, ret);
  }

  ghost predicate SwitchRun(stacks: map<Pid, Region>, states: seq<State>, events: seq<Event>)
  {
    Disjoint(stacks) && Runs.Run((s: State, e: Event, t: State) => Step(stacks, s, e, t), states, events)
  }

  lemma RunStep(stacks: map<Pid, Region>, states: seq<State>, events: seq<Event>, k: nat)
    requires SwitchRun(stacks, states, events) && k < |events|
    ensures Step(stacks, states[k], events[k], states[k + 1])
  {
    var step := (s: State, e: Event, t: State) => Step(stacks, s, e, t);
    assert step(states[k], events[k], states[k + 1]);
  }

  /** The running process's address space is the loaded one. */
  ghost predicate OwnSpace(s: State) { s.current in s.vms && s.loaded == s.vms[s.current] }

  /** Over every run each process runs in its own address space, the one it has. */
  lemma {:induction false} SpaceFollows(stacks: map<Pid, Region>, states: seq<State>, events: seq<Event>, k: nat)
    requires SwitchRun(stacks, states, events) && OwnSpace(states[0]) && k < |states|
    ensures OwnSpace(states[k]) && states[k].vms == states[0].vms
  {
    if k > 0 {
      SpaceFollows(stacks, states, events, k - 1);
      RunStep(stacks, states, events, k - 1);
    }
  }

  /** p stays off the processor from state i to state j, and is not built anew. */
  ghost predicate AwayDuring(states: seq<State>, events: seq<Event>, p: Pid, i: nat, j: nat)
  {
    && j < |states|
    && (forall k :: i <= k <= j ==> states[k].current != p)
    && (forall k :: i <= k < j && k < |events| ==> !(events[k].Create? && events[k].pid == p))
  }

  lemma {:induction false} StaysSuspended(stacks: map<Pid, Region>, states: seq<State>, events: seq<Event>, p: Pid,
                                          i: nat, j: nat, a: nat, ws: seq<Word>)
    requires SwitchRun(stacks, states, events) && i <= j && AwayDuring(states, events, p, i, j)
    requires Suspended(stacks, states[i], p, a, ws)
    ensures Suspended(stacks, states[j], p, a, ws)
    decreases j
  {
    if i < j {
      assert AwayDuring(states, events, p, i, j - 1);
      StaysSuspended(stacks, states, events, p, i, j - 1, a, ws);
      RunStep(stacks, states, events, j - 1);
      StepKeepsSuspended(stacks, states[j - 1], events[j - 1], states[j], p, a, ws);
    }
  }

  /** Over every run: a process that switches away at step i and next runs again
      after step j has every register, its flags and its stack pointer back, and
      continues at its return address. */
  lemma ResumeRestores(stacks: map<Pid, Region>, states: seq<State>, events: seq<Event>, i: nat, j: nat)
    requires SwitchRun(stacks, states, events) && i < j < |events| && events[i].Switch?
    requires states[i].regs.esp + 4 < 0x1_0000_0000
    requires var p := states[i].current;
             && p in stacks && stacks[p].hi <= |states[i].mem|
             && AwayDuring(states, events, p, i + 1, j) && states[j + 1].current == p
    ensures states[i].regs.esp + 4 <= |states[i].mem|
    ensures var r := states[i].regs;
            states[j + 1].regs == r.(esp := r.esp + 4, eip := Load32(states[i].mem, r.esp))
  {
    var s, p := states[i], states[i].current;
    RunStep(stacks, states, events, i);
    SwitchSuspends(stacks, s, states[i + 1]);
    var ret := Load32(s.mem, s.regs.esp);
    StaysSuspended(stacks, states, events, p, i + 1, j, s.regs.esp - 40, SavedFrame(s.regs, ret));
    RunStep(stacks, states, events, j);
    StepKeepsSuspended(stacks, states[j], events[j], states[j + 1], p, s.regs.esp - 40, SavedFrame(s.regs, ret));
    SaveThenRestore(s.regs, ret);
  }

  /** A process built at step i first runs at its entry, with zeroed registers,
      EFLAGS 0x202 and the stack top it was given. */
  lemma FreshStarts(stacks: map<Pid, Region>, states: seq<State>, events: seq<Event>, i: nat, j: nat)
    requires SwitchRun(stacks, states, events) && i < j < |events| && events[i].Create? && events[j].Switch?
    requires AwayDuring(states, events, events[i].pid, i + 1, j) && states[j + 1].current == events[i].pid
    ensures events[i].pid in states[i].contexts
    ensures var top := states[i].contexts[events[i].pid].esp;
            states[j + 1].regs == Regs(0, 0, 0, top, 0, 0, 0, 0, 0x202, events[i].entry)
  {
    var p, entry := events[i].pid, events[i].entry;
    RunStep(stacks, states, events, i);
    var top := states[i].contexts[p].esp;
    StaysSuspended(stacks, states, events, p, i + 1, j, top - FRAME, FreshFrame(entry));
    RunStep(stacks, states, events, j);
    StepKeepsSuspended(stacks, states[j], events[j], states[j + 1], p, top - FRAME, FreshFrame(entry));
    FreshResumes(entry, top);
  }
}
