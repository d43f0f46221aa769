/** Thread creation and the context switch, on registers and memory (thread.c, thread_asm.s). */
module Threads {
  import opened Memory

  /** The registers a switch saves, in the order they have in thread_t. */
  datatype Context = Context(esp: nat, ebp: nat, ebx: nat, esi: nat, edi: nat, eflags: nat)

  ghost predicate Fits32(c: Context)
  {
    && c.esp < WORD_LIMIT && c.ebp < WORD_LIMIT && c.ebx < WORD_LIMIT
    && c.esi < WORD_LIMIT && c.edi < WORD_LIMIT && c.eflags < WORD_LIMIT
  }

  const CONTEXT_SIZE: nat := 24
  const THREAD_SIZE: nat := 28

  function SavedAt(ram: Ram, t: nat): Context
    requires t + CONTEXT_SIZE <= WORD_LIMIT
  {
    Context(Word(ram, t), Word(ram, t + 4), Word(ram, t + 8), Word(ram, t + 12), Word(ram, t + 16), Word(ram, t + 20))
  }

  /** Where a thread keeps its structure and its stack. */
  datatype Slot = Slot(thread: nat, lo: nat, hi: nat)

  ghost predicate InSlot(s: Slot, a: int)
  {
    s.thread <= a < s.thread + THREAD_SIZE || s.lo <= a < s.hi
  }

  /** The structure does not lie on the stack. */
  ghost predicate SlotOk(s: Slot)
  {
    && s.thread + THREAD_SIZE <= WORD_LIMIT && s.hi <= WORD_LIMIT
    && (s.thread + THREAD_SIZE <= s.lo || s.hi <= s.thread)
  }

  ghost predicate NothingShared(s: Slot, t: Slot)
  {
    forall a: int :: !(InSlot(s, a) && InSlot(t, a))
  }

  /** Every thread has memory of its own. */
  ghost predicate Apart(slots: seq<Slot>)
  {
    && (forall i | 0 <= i < |slots| :: SlotOk(slots[i]))
    && (forall i, j | 0 <= i < |slots| && 0 <= j < |slots| && i != j :: NothingShared(slots[i], slots[j]))
  }

  /** The stack pointer leaves room to push a word and points at one. */
  ghost predicate InStack(s: Slot, esp: nat)
  {
    s.lo + 4 <= esp && esp + 4 <= s.hi
  }

  datatype Machine = Machine(ram: Ram, regs: Context, eip: nat, current: nat)

  // ---- the steps of a run

  datatype Event =
    | Compute
    | Switch(to: nat)
    | Create(made: nat, fn: nat, arg: nat, stack: nat, threadExit: nat)

  /** The running thread changes registers and memory as it likes, but not the memory of the other threads. */
  ghost predicate ComputeStep(m: Machine, m': Machine, slots: seq<Slot>, c: nat)
    requires c < |slots|
  {
    && m'.current == m.current
    && (forall i, a: int | 0 <= i < |slots| && i != c && InSlot(slots[i], a) && 0 <= a < WORD_LIMIT ::
          m'.ram[a] == m.ram[a])
  }

  /** The context that the next thread goes on with: its saved one, or, when the running thread is switched to itself,
      the one it is about to save. */
  ghost function NextContext(m: Machine, c: Slot, n: Slot): Context
    requires n.thread + CONTEXT_SIZE <= WORD_LIMIT
  {
    if c == n then m.regs else SavedAt(m.ram, n.thread)
  }

  /** What switch_thread does from its first instruction to its return into the next thread. */
  ghost predicate SwitchStep(m: Machine, m': Machine, c: Slot, n: Slot)
    requires c.thread + CONTEXT_SIZE <= WORD_LIMIT && n.thread + CONTEXT_SIZE <= WORD_LIMIT
    requires c.hi <= WORD_LIMIT && n.hi <= WORD_LIMIT
  {
    var next := NextContext(m, c, n);
    && InStack(c, m.regs.esp) && InStack(n, next.esp)
    && m'.current == n.thread
    && m'.regs == next.(esp := next.esp + 4)
    && m'.eip == Word(m.ram, next.esp)
    && SavedAt(m'.ram, c.thread) == m.regs
    && (forall a: int | 0 <= a < WORD_LIMIT
                        && !(c.thread <= a < c.thread + CONTEXT_SIZE)
                        && !(m.regs.esp - 4 <= a < m.regs.esp)
                        && !(next.esp - 4 <= a < next.esp) ::
          m'.ram[a] == m.ram[a])
  }

  /** What create_thread writes: the context and three words on the new stack, all in the new thread's memory. */
  ghost predicate CreateStep(m: Machine, m': Machine, s: Slot, fn: nat, arg: nat, stack: nat, threadExit: nat)
    requires s.thread + CONTEXT_SIZE <= WORD_LIMIT && s.hi <= WORD_LIMIT
  {
    && m'.current == m.current
    && s.lo + 16 <= stack <= s.hi
    && SavedAt(m'.ram, s.thread) == Context(stack - 12, 0, 0, 0, 0, 0x200)
    && Word(m'.ram, stack - 12) == fn && Word(m'.ram, stack - 8) == threadExit && Word(m'.ram, stack - 4) == arg
    && (forall a: int | 0 <= a < WORD_LIMIT && !InSlot(s, a) :: m'.ram[a] == m.ram[a])
  }

  ghost predicate Running(m: Machine, slots: seq<Slot>, c: nat)
  {
    c < |slots| && m.current == slots[c].thread
  }

  ghost predicate Step(m: Machine, e: Event, m': Machine, slots: seq<Slot>)
    requires Apart(slots)
  {
    exists c: nat :: Running(m, slots, c) &&
      match e
      case Compute => ComputeStep(m, m', slots, c)
      case Switch(n) => n < |slots| && SwitchStep(m, m', slots[c], slots[n])
      case Create(t, fn, arg, stack, out) => t < |slots| && t != c && CreateStep(m, m', slots[t], fn, arg, stack, out)
  }

  ghost predicate IsRun(ms: seq<Machine>, es: seq<Event>, slots: seq<Slot>)
    requires Apart(slots)
  {
    |ms| == |es| + 1 && forall i | 0 <= i < |es| :: Step(ms[i], es[i], ms[i + 1], slots)
  }

  // ---- a thread that is not running keeps its context and its stack

  /** The saved context of thread t and its stack from the saved stack pointer up are the same in both memories. */
  ghost predicate Kept(before: Ram, after: Ram, s: Slot)
    requires s.thread + CONTEXT_SIZE <= WORD_LIMIT && s.hi <= WORD_LIMIT
  {
    && SavedAt(after, s.thread) == SavedAt(before, s.thread)
    && forall a: int | SavedAt(before, s.thread).esp <= a < s.hi :: after[a] == before[a]
  }

  lemma ContextUnchanged(before: Ram, after: Ram, t: nat)
    requires t + CONTEXT_SIZE <= WORD_LIMIT
    requires forall a: int | t <= a < t + CONTEXT_SIZE :: after[a] == before[a]
    ensures SavedAt(after, t) == SavedAt(before, t)
  {
    hide Word;
    WordUnchanged(before, after, t);
    WordUnchanged(before, after, t + 4);
    WordUnchanged(before, after, t + 8);
    WordUnchanged(before, after, t + 12);
    WordUnchanged(before, after, t + 16);
    WordUnchanged(before, after, t + 20);
  }

  /** One step of the others changes nothing in the memory of thread t. */
  lemma OthersStep(m: Machine, e: Event, m': Machine, slots: seq<Slot>, t: nat)
    requires Apart(slots) && t < |slots| && Step(m, e, m', slots)
    requires m.current != slots[t].thread && m'.current != slots[t].thread && !(e.Create? && e.made == t)
    ensures forall a: int | InSlot(slots[t], a) && 0 <= a < WORD_LIMIT :: m'.ram[a] == m.ram[a]
  {
    hide SavedAt, Word;
    var c: nat :| Running(m, slots, c) &&
      match e
      case Compute => ComputeStep(m, m', slots, c)
      case Switch(n) => n < |slots| && SwitchStep(m, m', slots[c], slots[n])
      case Create(u, fn, arg, stack, out) => u < |slots| && u != c && CreateStep(m, m', slots[u], fn, arg, stack, out);
    forall a: int | InSlot(slots[t], a) && 0 <= a < WORD_LIMIT
      ensures m'.ram[a] == m.ram[a]
    {
      assert c != t && !InSlot(slots[c], a);
      if e.Switch? {
        assert e.to != t && !InSlot(slots[e.to], a);
      } else if e.Create? {
        assert !InSlot(slots[e.made], a);
      }
    }
  }

  ghost predicate Away(ms: seq<Machine>, es: seq<Event>, s: Slot, t: nat, i: nat, j: nat)
    requires i <= j < |ms| && |ms| == |es| + 1
  {
    && (forall k | i <= k <= j :: ms[k].current != s.thread)
    && (forall k | i <= k < j :: !(es[k].Create? && es[k].made == t))
  }

  lemma {:induction false} KeptWhileAway(ms: seq<Machine>, es: seq<Event>, slots: seq<Slot>, t: nat, i: nat, j: nat)
    requires Apart(slots) && IsRun(ms, es, slots) && t < |slots| && i <= j < |ms|
    requires Away(ms, es, slots[t], t, i, j) && slots[t].lo <= SavedAt(ms[i].ram, slots[t].thread).esp
    ensures Kept(ms[i].ram, ms[j].ram, slots[t])
    decreases j - i
  {
    hide SavedAt, Word, Step;
    if i < j {
      KeptWhileAway(ms, es, slots, t, i, j - 1);
      OthersStep(ms[j - 1], es[j - 1], ms[j], slots, t);
      ContextUnchanged(ms[j - 1].ram, ms[j].ram, slots[t].thread);
    }
  }

  // ---- switches are transparent

  /** A thread that was switched away from at step i and is resumed at step j, with others running in between,
      goes on with the registers it had and returns to where it called from, its stack as it left it. */
  lemma ResumedAsLeft(ms: seq<Machine>, es: seq<Event>, slots: seq<Slot>, t: nat, i: nat, j: nat)
    requires Apart(slots) && IsRun(ms, es, slots) && t < |slots| && i < j < |es|
    requires Running(ms[i], slots, t) && es[i].Switch? && es[j] == Switch(t)
    requires Away(ms, es, slots[t], t, i + 1, j)
    ensures ms[j + 1].current == slots[t].thread
    ensures ms[j + 1].regs == ms[i].regs.(esp := ms[i].regs.esp + 4)
    ensures ms[i].regs.esp + 4 <= WORD_LIMIT && ms[j + 1].eip == Word(ms[i].ram, ms[i].regs.esp)
    ensures forall a: int | ms[i].regs.esp <= a < slots[t].hi :: 0 <= a < WORD_LIMIT && ms[j + 1].ram[a] == ms[i].ram[a]
  {
    hide SavedAt, Word;
    var n := es[i].to;
    SwitchFrom(ms[i], ms[i + 1], slots, t, n);
    KeptWhileAway(ms, es, slots, t, i + 1, j);
    SwitchTo(ms[j], ms[j + 1], slots, t);
    WordUnchanged(ms[i].ram, ms[j].ram, ms[i].regs.esp);
  }

  /** The running thread is the only one with that structure. */
  lemma OneRuns(m: Machine, slots: seq<Slot>, c: nat, t: nat)
    requires Apart(slots) && Running(m, slots, c) && Running(m, slots, t)
    ensures c == t
  {
    assert InSlot(slots[c], m.current) && InSlot(slots[t], m.current);
  }

  lemma SwitchFrom(m: Machine, m': Machine, slots: seq<Slot>, t: nat, n: nat)
    requires Apart(slots) && Running(m, slots, t) && Step(m, Switch(n), m', slots)
    ensures n < |slots| && SwitchStep(m, m', slots[t], slots[n])
    ensures SavedAt(m'.ram, slots[t].thread) == m.regs && InStack(slots[t], m.regs.esp)
    ensures forall a: int | m.regs.esp <= a < slots[t].hi :: m'.ram[a] == m.ram[a]
  {
    hide SavedAt, Word;
    var c: nat :| Running(m, slots, c) && n < |slots| && SwitchStep(m, m', slots[c], slots[n]);
    OneRuns(m, slots, c, t);
    forall a: int | m.regs.esp <= a < slots[t].hi
      ensures m'.ram[a] == m.ram[a]
    {
      assert InSlot(slots[t], a) && (n != t ==> !InSlot(slots[n], a));
    }
  }

  /** A thread switched to itself returns at once with the registers it had, its stack as it left it. */
  lemma SwitchedToItself(m: Machine, m': Machine, slots: seq<Slot>, t: nat)
    requires Apart(slots) && Running(m, slots, t) && Step(m, Switch(t), m', slots)
    ensures m'.current == m.current && m'.regs == m.regs.(esp := m.regs.esp + 4)
    ensures m.regs.esp + 4 <= WORD_LIMIT && m'.eip == Word(m.ram, m.regs.esp)
    ensures forall a: int | m.regs.esp <= a < slots[t].hi :: 0 <= a < WORD_LIMIT && m'.ram[a] == m.ram[a]
  {
    hide SavedAt, Word;
    SwitchFrom(m, m', slots, t, t);
  }

  lemma SwitchTo(m: Machine, m': Machine, slots: seq<Slot>, t: nat)
    requires Apart(slots) && t < |slots| && m.current != slots[t].thread && Step(m, Switch(t), m', slots)
    ensures m'.current == slots[t].thread
    ensures var saved := SavedAt(m.ram, slots[t].thread);
            && InStack(slots[t], saved.esp)
            && m'.regs == saved.(esp := saved.esp + 4) && m'.eip == Word(m.ram, saved.esp)
            && (forall a: int | saved.esp <= a < slots[t].hi :: m'.ram[a] == m.ram[a])
  {
    hide SavedAt, Word;
    var c: nat :| Running(m, slots, c) && SwitchStep(m, m', slots[c], slots[t]);
    var saved := SavedAt(m.ram, slots[t].thread);
    forall a: int | saved.esp <= a < slots[t].hi
      ensures m'.ram[a] == m.ram[a]
    {
      assert InSlot(slots[t], a) && !InSlot(slots[c], a);
    }
  }

  /** A thread created at step i and dispatched for the first time at step j starts in its function, with interrupts
      enabled, its argument the first on the stack, and thread_exit where the function returns to. */
  lemma StartsInItsFunction(ms: seq<Machine>, es: seq<Event>, slots: seq<Slot>, t: nat, i: nat, j: nat)
    requires Apart(slots) && IsRun(ms, es, slots) && t < |slots| && i < j < |es|
    requires es[i].Create? && es[i].made == t && es[j] == Switch(t)
    requires Away(ms, es, slots[t], t, i + 1, j)
    ensures ms[j + 1].current == slots[t].thread && ms[j + 1].eip == es[i].fn
    ensures 12 <= es[i].stack <= WORD_LIMIT
    ensures ms[j + 1].regs == Context(es[i].stack - 8, 0, 0, 0, 0, 0x200)
    ensures Word(ms[j + 1].ram, es[i].stack - 8) == es[i].threadExit
    ensures Word(ms[j + 1].ram, es[i].stack - 4) == es[i].arg
  {
    hide Word;
    var stack := es[i].stack;
    assert Step(ms[i], es[i], ms[i + 1], slots);
    assert CreateStep(ms[i], ms[i + 1], slots[t], es[i].fn, es[i].arg, stack, es[i].threadExit);
    hide SavedAt, Step, CreateStep;
    KeptWhileAway(ms, es, slots, t, i + 1, j);
    SwitchTo(ms[j], ms[j + 1], slots, t);
    WordUnchanged(ms[i + 1].ram, ms[j].ram, stack - 12);
    WordUnchanged(ms[i + 1].ram, ms[j + 1].ram, stack - 8);
    WordUnchanged(ms[i + 1].ram, ms[j + 1].ram, stack - 4);
  }

  /** Writing only where slot c lies leaves what slot n holds. */
  lemma OwnMemory(c: Slot, n: Slot, before: Ram, after: Ram)
    requires NothingShared(c, n)
    requires forall a: int | 0 <= a < WORD_LIMIT && !InSlot(c, a) :: after[a] == before[a]
    ensures forall a: int | 0 <= a < WORD_LIMIT && InSlot(n, a) :: after[a] == before[a]
  {
    forall a: int | 0 <= a < WORD_LIMIT && InSlot(n, a)
      ensures after[a] == before[a]
    {
      assert !InSlot(c, a);
    }
  }

  // ---- the code

  class Cpu {
    const store: Store
    var regs: Context
    var eip: nat
    // The structure of the thread whose node current_thread points to.
    var current: nat
    var nextTid: nat

    constructor (store: Store, regs: Context, eip: nat, current: nat)
      ensures this.store == store && Now() == Machine(store.ram, regs, eip, current) && nextTid == 0
    {
      this.store, this.regs, this.eip, this.current, this.nextTid := store, regs, eip, current, 0;
    }

    ghost function Now(): Machine
      reads this, store
    {
      Machine(store.ram, regs, eip, current)
    }

    /** switch_thread. The call has pushed the return address. */
    method SwitchThread(next: nat, ghost c: Slot, ghost n: Slot)
      requires SlotOk(c) && SlotOk(n) && (c == n || NothingShared(c, n))
      requires current == c.thread && next == n.thread && Fits32(regs)
      requires InStack(c, regs.esp) && InStack(n, NextContext(Now(), c, n).esp)
      modifies this`regs, this`eip, this`current, store
      ensures SwitchStep(old(Now()), Now(), c, n)
      ensures var m, t := store.ram, c.thread;
              && Word(m, t) == old(regs.esp) && Word(m, t + 4) == old(regs.ebp) && Word(m, t + 8) == old(regs.ebx)
              && Word(m, t + 12) == old(regs.esi) && Word(m, t + 16) == old(regs.edi)
              && Word(m, t + 20) == old(regs.eflags)
      ensures c != n ==>
                var m := old(store.ram);
                && regs.esp == Word(m, next) + 4 && regs.ebp == Word(m, next + 4) && regs.ebx == Word(m, next + 8)
                && regs.esi == Word(m, next + 12) && regs.edi == Word(m, next + 16)
                && regs.eflags == Word(m, next + 20) && eip == Word(m, Word(m, next))
    {
      hide Word;
      ghost var before, resumed := store.ram, NextContext(Now(), c, n);
      var eax := current;
      SaveContext(eax, c);
      ghost var saved := store.ram;
      if c != n {
        OwnMemory(c, n, before, saved);
        ContextUnchanged(before, saved, next);
      }
      assert SavedAt(saved, next) == resumed;
      assert Word(saved, resumed.esp) == Word(before, resumed.esp) by {
        WordUnchanged(before, saved, resumed.esp);
      }
      current := next;
      eax := next;
      LoadContext(eax);
      forall a: int | c.thread <= a < c.thread + CONTEXT_SIZE
        ensures store.ram[a] == saved[a]
      {
        assert InSlot(c, a) && (c != n ==> !InSlot(n, a));
      }
      ContextUnchanged(saved, store.ram, c.thread);
      WordUnchanged(saved, store.ram, regs.esp);
      eip := Word(store.ram, regs.esp);
      regs := regs.(esp := regs.esp + 4);
    }

    /** Lines 10-18: the registers go to the structure, the flags by way of the stack. */
    method SaveContext(eax: nat, ghost c: Slot)
      requires SlotOk(c) && eax == c.thread && InStack(c, regs.esp) && Fits32(regs)
      modifies store
      ensures SavedAt(store.ram, eax) == regs
      ensures forall a: int | 0 <= a < WORD_LIMIT && !(eax <= a < eax + CONTEXT_SIZE)
                              && !(regs.esp - 4 <= a < regs.esp) ::
                store.ram[a] == old(store.ram[a])
    {
      hide Word;
      store.WriteWord(eax, regs.esp);
      store.WriteWord(eax + 4, regs.ebp);
      store.WriteWord(eax + 8, regs.ebx);
      store.WriteWord(eax + 12, regs.esi);
      store.WriteWord(eax + 16, regs.edi);
      store.WriteWord(regs.esp - 4, regs.eflags);
      var ecx := Word(store.ram, regs.esp - 4);
      store.WriteWord(eax + 20, ecx);
    }

    /** Lines 25-33. */
    method LoadContext(eax: nat)
      requires eax + CONTEXT_SIZE <= WORD_LIMIT && 4 <= SavedAt(store.ram, eax).esp <= WORD_LIMIT
      modifies this`regs, store
      ensures regs == SavedAt(old(store.ram), eax)
      ensures SameOutside(old(store.ram), store.ram, regs.esp - 4, regs.esp)
    {
      hide Word;
      var loaded := SavedAt(store.ram, eax);
      store.WriteWord(loaded.esp - 4, loaded.eflags);
      regs := loaded.(eflags := Word(store.ram, loaded.esp - 4));
    }

    /** create_thread, with the address kmalloc gave for the structure. */
    method CreateThread(fn: nat, arg: nat, stack: nat, thread: nat, threadExit: nat, ghost s: Slot)
      requires SlotOk(s) && thread == s.thread && s.lo + 16 <= stack <= s.hi
      requires fn < WORD_LIMIT && arg < WORD_LIMIT && threadExit < WORD_LIMIT && nextTid < WORD_LIMIT
      modifies this`nextTid, store
      ensures CreateStep(old(Now()), Now(), s, fn, arg, stack, threadExit)
      ensures var m := store.ram;
              && Word(m, thread) == stack - 12 && Word(m, thread + 20) == 0x200
              && (forall i | 1 <= i <= 4 :: Word(m, thread + 4 * i) == 0)
              && Word(m, stack - 12) == fn && Word(m, stack - 8) == threadExit && Word(m, stack - 4) == arg
      ensures Word(store.ram, thread + 24) == old(nextTid) && nextTid == Wrap(old(nextTid) + 1)
    {
      hide Word;
      store.Zero(thread, THREAD_SIZE);
      ZeroWords(store.ram, thread);
      store.WriteWord(thread + 24, nextTid);
      nextTid := Wrap(nextTid + 1);
      var top := stack;
      top := top - 4;
      store.WriteWord(top, arg);
      top := top - 4;
      store.WriteWord(top, threadExit);
      top := top - 4;
      store.WriteWord(top, fn);
      store.WriteWord(thread, top);
      store.WriteWord(thread + 4, 0);
      store.WriteWord(thread + 20, 0x200);
    }
  }

  lemma ZeroWord(ram: Ram, a: nat)
    requires a + 4 <= WORD_LIMIT && forall k | a <= k < a + 4 :: ram[k] == 0
    ensures Word(ram, a) == 0
  {
    LeZero(ram, a, a + 4);
  }

  lemma ZeroWords(ram: Ram, t: nat)
    requires t + THREAD_SIZE <= WORD_LIMIT && forall a | t <= a < t + THREAD_SIZE :: ram[a] == 0
    ensures SavedAt(ram, t) == Context(0, 0, 0, 0, 0, 0)
  {
    hide Word;
    ZeroWord(ram, t);
    ZeroWord(ram, t + 4);
    ZeroWord(ram, t + 8);
    ZeroWord(ram, t + 12);
    ZeroWord(ram, t + 16);
    ZeroWord(ram, t + 20);
  }
}
