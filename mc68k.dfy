/**
 * The Mc68k microcontroller wrapper: the pending-interrupt queues and the
 * interrupt pin, the peripheral bus router, and the one-instruction step
 * driver. The execution core is not part of this model: the cycles one
 * instruction takes and the callbacks the core makes while it runs are
 * parameters of Exec, and the interrupt pin it exposes (m68k_set_irq) is
 * the field `irq`.
 */
module Mc68k {
  import opened Types
  import opened Peripherals
  import Interrupts

  /** What m68k_execute(cpu, 1) returns: the cycles used, a non-negative int. */
  type Cycles = x: int | 0 <= x < 0x8000_0000

  class Mc68k {
    /** g_peripheralMask, applied to every bus address before dispatch. */
    const peripheralMask: bv32

    const gpt: Peripheral
    const sim: Peripheral
    const qsm: Peripheral

    /** m_pendingInterrupts: one FIFO of vectors per level 0..7. */
    var pending: seq<seq<Byte>>
    /** The level last asserted on the execution core's interrupt pin. */
    var irq: nat
    /** m_cycles, a uint64_t. */
    var cycles: nat
    /** The log the three blocks append every call made on them to, in order. */
    const log: CallLog

    function BlockOf(b: Block): Peripheral {
      match b
      case Gpt => gpt
      case Sim => sim
      case Qsm => qsm
    }

    function InterruptState(): Interrupts.Controller
      reads this`pending, this`irq
    {
      Interrupts.Controller(pending, irq)
    }

    /** The three blocks are distinct objects that know which block they are and share this object's log. */
    predicate Wired() {
      && gpt != sim && sim != qsm && gpt != qsm
      && gpt.id == Gpt && sim.id == Sim && qsm.id == Qsm
      && gpt.log == log && sim.log == log && qsm.log == log
    }

    /**
     * The three blocks are distinct objects that know which block they are
     * and share this object's log; there are eight levels and the pin shows
     * their IPL; every block has been advanced by the same deltas, and the
     * cycle counter is their sum modulo 2^64.
     */
    ghost predicate Valid()
      reads this, gpt, sim, qsm
    {
      && Wired()
      && Interrupts.Valid(InterruptState())
      && Accounted(gpt.history, sim.history, qsm.history, cycles)
    }

    constructor (mask: bv32, gptBehaviour: Behaviour, simBehaviour: Behaviour, qsmBehaviour: Behaviour)
      ensures Valid() && fresh(gpt) && fresh(sim) && fresh(qsm) && fresh(log)
      ensures peripheralMask == mask
      ensures gpt.behaviour == gptBehaviour && sim.behaviour == simBehaviour && qsm.behaviour == qsmBehaviour
      ensures gpt.history == [] && sim.history == [] && qsm.history == [] && log.calls == []
      ensures InterruptState() == Interrupts.Initial()
      ensures cycles == 0
    {
      peripheralMask := mask;
      var shared := new CallLog();
      log := shared;
      gpt := new Peripheral(gptBehaviour, Gpt, shared);
      sim := new Peripheral(simBehaviour, Sim, shared);
      qsm := new Peripheral(qsmBehaviour, Qsm, shared);
      pending := Interrupts.Initial().pending;
      irq := 0;
      cycles := 0;
    }

    // -------------------------------------------------------------------
    // Interrupt controller

    /** injectInterrupt: queue `v` at the back of `level`, then raise the IPL. */
    method InjectInterrupt(v: Byte, level: nat)
      requires Valid() && level < Interrupts.Levels
      modifies this`pending, this`irq
      ensures Valid()
      ensures InterruptState() == Interrupts.Inject(old(InterruptState()), v, level)
    {
      pending := pending[level := pending[level] + [v]];
      RaiseIpl();
    }

    /** hasPendingInterrupt: a read-only scan of one level's queue. */
    method HasPendingInterrupt(v: Byte, level: nat) returns (found: bool)
      requires level < |pending|
      ensures found <==> v in pending[level]
    {
      var ints := pending[level];
      var k := 0;
      while k < |ints|
        invariant 0 <= k <= |ints|
        invariant v !in ints[..k]
      {
        if ints[k] == v {
          return true;
        }
        k := k + 1;
      }
      return false;
    }

    /**
     * readIrqUserVector, the acknowledge callback: the autovector for an
     * empty level, otherwise the oldest vector of that level, which leaves
     * the queue; the pin is cleared and the IPL raised again.
     */
    method ReadIrqUserVector(level: nat) returns (r: U32)
      requires Valid() && level < Interrupts.Levels
      modifies this`pending, this`irq
      ensures Valid()
      ensures (r, InterruptState()) == Interrupts.Acknowledge(old(InterruptState()), level)
    {
      if pending[level] == [] {
        return Interrupts.Autovector;
      }
      var vec := pending[level][0];
      pending := pending[level := pending[level][1..]];
      irq := 0;
      RaiseIpl();
      r := vec;
    }

    /** raiseIPL: scan levels 7 down to 1 and assert the first non-empty one, else 0. */
    method RaiseIpl()
      requires |pending| == Interrupts.Levels
      modifies this`irq
      ensures irq == Interrupts.Ipl(pending)
    {
      var raised := false;
      var i := |pending| - 1;
      while i > 0
        invariant 0 <= i < Interrupts.Levels
        invariant forall j :: i < j < Interrupts.Levels ==> pending[j] == []
      {
        if pending[i] != [] {
          Interrupts.IplIsHighestNonEmpty(pending, i);
          irq := i;
          raised := true;
          break;
        }
        i := i - 1;
      }
      if !raised {
        Interrupts.IplIsHighestNonEmpty(pending, 0);
        irq := 0;
      }
    }

    // -------------------------------------------------------------------
    // Bus router

    /** The address a block sees: the bus address with the bits outside g_peripheralMask cleared. */
    function Mask(addr: bv32): (a: bv32)
      ensures a & !peripheralMask == 0
      ensures a & peripheralMask == a
    {
      addr & peripheralMask
    }

    /** The block the router hands `addr` to: the first, in GPT, SIM, QSM order, that claims the masked address. */
    function Claimant(addr: bv32): (c: Option<Block>)
      ensures c == None <==> forall b :: !BlockOf(b).IsInRange(Mask(addr))
      ensures c.Some? ==> BlockOf(c.value).IsInRange(Mask(addr))
      ensures c.Some? ==> forall b :: Rank(b) < Rank(c.value) ==> !BlockOf(b).IsInRange(Mask(addr))
    {
      var a := Mask(addr);
      assert BlockOf(Gpt) == gpt && BlockOf(Sim) == sim && BlockOf(Qsm) == qsm;
      if gpt.IsInRange(a) then Some(Gpt)
      else if sim.IsInRange(a) then Some(Sim)
      else if qsm.IsInRange(a) then Some(Qsm)
      else None
    }

    /** The calls a bus write makes: one on the claimant, none when unclaimed. */
    function Routed(addr: bv32, e: Event): seq<Call> {
      match Claimant(addr)
      case None => []
      case Some(b) => [Call(b, e)]
    }

    /** What a bus write delivers to block `b`: the event if `b` is the claimant, nothing otherwise. */
    function Delivered(addr: bv32, b: Block, e: Event): seq<Event> {
      if Claimant(addr) == Some(b) then [e] else []
    }

    /** read8: the first block, in GPT, SIM, QSM order, that claims the masked address answers; 0 if none does. */
    function Read8(addr: bv32): (r: Byte)
      reads gpt, sim, qsm
      ensures r == match Claimant(addr)
                   case None => 0
                   case Some(b) => BlockOf(b).Read8(Mask(addr))
    {
      var a := Mask(addr);
      if gpt.IsInRange(a) then gpt.Read8(a)
      else if sim.IsInRange(a) then sim.Read8(a)
      else if qsm.IsInRange(a) then qsm.Read8(a)
      else 0
    }

    /** read16: as read8, one word wide. */
    function Read16(addr: bv32): (r: Word)
      reads gpt, sim, qsm
      ensures r == match Claimant(addr)
                   case None => 0
                   case Some(b) => BlockOf(b).Read16(Mask(addr))
    {
      var a := Mask(addr);
      if gpt.IsInRange(a) then gpt.Read16(a)
      else if sim.IsInRange(a) then sim.Read16(a)
      else if qsm.IsInRange(a) then qsm.Read16(a)
      else 0
    }

    /**
     * write8: the else-if chain hands the write to the claimant (the first
     * block that claims the masked address) and to no other block; an
     * unclaimed write is dropped.
     */
    method Write8(addr: bv32, value: Byte)
      requires Valid()
      modifies gpt, sim, qsm, log
      ensures Valid()
      ensures log.calls == old(log.calls) + Routed(addr, Event.Write8(Mask(addr), value))
      ensures gpt.history == old(gpt.history) + Delivered(addr, Gpt, Event.Write8(Mask(addr), value))
      ensures sim.history == old(sim.history) + Delivered(addr, Sim, Event.Write8(Mask(addr), value))
      ensures qsm.history == old(qsm.history) + Delivered(addr, Qsm, Event.Write8(Mask(addr), value))
    {
      var a := Mask(addr);
      var claimant := Claimant(addr);
      match claimant {
        case Some(b) =>
          WriteBlock8(b, a, value);
        case None =>
          assert log.calls + [] == log.calls;
          assert gpt.history + [] == gpt.history && sim.history + [] == sim.history && qsm.history + [] == qsm.history;
      }
    }

    /** m_gpt/m_sim/m_qsm.write8(addr, value) on block `b`: its history and the log gain the write, nothing else changes. */
    method WriteBlock8(b: Block, addr: bv32, value: Byte)
      requires Valid()
      modifies BlockOf(b), log
      ensures Valid()
      ensures log.calls == old(log.calls) + [Call(b, Event.Write8(addr, value))]
      ensures gpt.history == old(gpt.history) + (if b == Gpt then [Event.Write8(addr, value)] else [])
      ensures sim.history == old(sim.history) + (if b == Sim then [Event.Write8(addr, value)] else [])
      ensures qsm.history == old(qsm.history) + (if b == Qsm then [Event.Write8(addr, value)] else [])
    {
      var block := BlockOf(b);
      ghost var e := Event.Write8(addr, value);
      assert block.id == b && block.log == log;
      block.Write8(addr, value);
      assert gpt.history + [] == gpt.history && sim.history + [] == sim.history && qsm.history + [] == qsm.history;
      WriteAccounted(old(gpt.history), old(sim.history), old(qsm.history), cycles, b, e);
    }

    /** write16: as write8, one word wide. */
    method Write16(addr: bv32, value: Word)
      requires Valid()
      modifies gpt, sim, qsm, log
      ensures Valid()
      ensures log.calls == old(log.calls) + Routed(addr, Event.Write16(Mask(addr), value))
      ensures gpt.history == old(gpt.history) + Delivered(addr, Gpt, Event.Write16(Mask(addr), value))
      ensures sim.history == old(sim.history) + Delivered(addr, Sim, Event.Write16(Mask(addr), value))
      ensures qsm.history == old(qsm.history) + Delivered(addr, Qsm, Event.Write16(Mask(addr), value))
    {
      var a := Mask(addr);
      var claimant := Claimant(addr);
      match claimant {
        case Some(b) =>
          WriteBlock16(b, a, value);
        case None =>
          assert log.calls + [] == log.calls;
          assert gpt.history + [] == gpt.history && sim.history + [] == sim.history && qsm.history + [] == qsm.history;
      }
    }

    /** m_gpt/m_sim/m_qsm.write16(addr, value) on block `b`: its history and the log gain the write, nothing else changes. */
    method WriteBlock16(b: Block, addr: bv32, value: Word)
      requires Valid()
      modifies BlockOf(b), log
      ensures Valid()
      ensures log.calls == old(log.calls) + [Call(b, Event.Write16(addr, value))]
      ensures gpt.history == old(gpt.history) + (if b == Gpt then [Event.Write16(addr, value)] else [])
      ensures sim.history == old(sim.history) + (if b == Sim then [Event.Write16(addr, value)] else [])
      ensures qsm.history == old(qsm.history) + (if b == Qsm then [Event.Write16(addr, value)] else [])
    {
      var block := BlockOf(b);
      ghost var e := Event.Write16(addr, value);
      assert block.id == b && block.log == log;
      block.Write16(addr, value);
      assert gpt.history + [] == gpt.history && sim.history + [] == sim.history && qsm.history + [] == qsm.history;
      WriteAccounted(old(gpt.history), old(sim.history), old(qsm.history), cycles, b, e);
    }

    /** Two addresses with the same masked value reach the same block with the same address. */
    lemma RoutingUsesMaskedAddress(a1: bv32, a2: bv32)
      requires a1 & peripheralMask == a2 & peripheralMask
      ensures Claimant(a1) == Claimant(a2)
      ensures Read8(a1) == Read8(a2) && Read16(a1) == Read16(a2)
      ensures forall e :: Routed(a1, e) == Routed(a2, e)
    {
    }

    /** An address the GPT claims goes to the GPT alone, whatever SIM and QSM would say. */
    lemma GptTakesPrecedence(addr: bv32)
      requires gpt.IsInRange(Mask(addr))
      ensures Claimant(addr) == Some(Gpt)
      ensures Read8(addr) == gpt.Read8(Mask(addr)) && Read16(addr) == gpt.Read16(Mask(addr))
      ensures forall e :: Routed(addr, e) == [Call(Gpt, e)]
    {
    }

    /** An address the GPT leaves and the SIM claims goes to the SIM alone, whatever QSM would say. */
    lemma SimTakesPrecedenceOverQsm(addr: bv32)
      requires !gpt.IsInRange(Mask(addr)) && sim.IsInRange(Mask(addr))
      ensures Claimant(addr) == Some(Sim)
      ensures Read8(addr) == sim.Read8(Mask(addr)) && Read16(addr) == sim.Read16(Mask(addr))
      ensures forall e :: Routed(addr, e) == [Call(Sim, e)]
    {
    }

    /** Unmapped register: reads are 0 and writes reach no block. */
    lemma UnclaimedAddress(addr: bv32)
      requires forall b :: !BlockOf(b).IsInRange(Mask(addr))
      ensures Read8(addr) == 0 && Read16(addr) == 0
      ensures forall e :: Routed(addr, e) == []
    {
    }

    /** A write reaches at most one block, and none when no block claims the address. */
    lemma WriteReachesAtMostOneBlock(addr: bv32, e: Event)
      ensures |Delivered(addr, Gpt, e)| + |Delivered(addr, Sim, e)| + |Delivered(addr, Qsm, e)| <= 1
      ensures Claimant(addr) == None ==> Delivered(addr, Gpt, e) == Delivered(addr, Sim, e) == Delivered(addr, Qsm, e) == []
    {
    }

    // -------------------------------------------------------------------
    // Step driver

    /** The calls one core action makes on the blocks: the routed call of a bus write, none for an acknowledge. */
    function ActionCalls(act: CoreAction): seq<Call> {
      match act
      case AckInterrupt(_) => []
      case BusWrite8(addr, value) => Routed(addr, Event.Write8(Mask(addr), value))
      case BusWrite16(addr, value) => Routed(addr, Event.Write16(Mask(addr), value))
    }

    /** What one core action delivers to block `b`. */
    function ActionDelivered(act: CoreAction, b: Block): seq<Event> {
      match act
      case AckInterrupt(_) => []
      case BusWrite8(addr, value) => Delivered(addr, b, Event.Write8(Mask(addr), value))
      case BusWrite16(addr, value) => Delivered(addr, b, Event.Write16(Mask(addr), value))
    }

    /** The calls the bus writes among `acts` make on the blocks, in order. */
    function BusCalls(acts: seq<CoreAction>): seq<Call> {
      if acts == [] then []
      else BusCalls(acts[..|acts| - 1]) + ActionCalls(acts[|acts| - 1])
    }

    /** What the bus writes among `acts` deliver to block `b`, in order. */
    function BusDelivered(acts: seq<CoreAction>, b: Block): seq<Event> {
      if acts == [] then []
      else BusDelivered(acts[..|acts| - 1], b) + ActionDelivered(acts[|acts| - 1], b)
    }

    /** One callback of m68k_execute: readIrqUserVector for an acknowledge, write8 or write16 for a bus write. */
    method Perform(act: CoreAction)
      requires Valid() && LevelValid(act)
      modifies this`pending, this`irq, gpt, sim, qsm, log
      ensures Valid()
      ensures InterruptState() == AfterAcknowledgement(old(InterruptState()), act)
      ensures log.calls == old(log.calls) + ActionCalls(act)
      ensures gpt.history == old(gpt.history) + ActionDelivered(act, Gpt)
      ensures sim.history == old(sim.history) + ActionDelivered(act, Sim)
      ensures qsm.history == old(qsm.history) + ActionDelivered(act, Qsm)
    {
      match act {
        case AckInterrupt(level) =>
          var _ := ReadIrqUserVector(level);
          assert log.calls + [] == log.calls;
          assert gpt.history + [] == gpt.history && sim.history + [] == sim.history && qsm.history + [] == qsm.history;
        case BusWrite8(addr, value) =>
          Write8(addr, value);
        case BusWrite16(addr, value) =>
          Write16(addr, value);
      }
    }

    /** The callbacks of m68k_execute, in the order the core makes them. */
    method RunCore(acts: seq<CoreAction>)
      requires Valid() && AcknowledgedLevelsValid(acts)
      modifies this`pending, this`irq, gpt, sim, qsm, log
      ensures Valid()
      ensures InterruptState() == AfterAcknowledgements(old(InterruptState()), acts)
      ensures log.calls == old(log.calls) + BusCalls(acts)
      ensures gpt.history == old(gpt.history) + BusDelivered(acts, Gpt)
      ensures sim.history == old(sim.history) + BusDelivered(acts, Sim)
      ensures qsm.history == old(qsm.history) + BusDelivered(acts, Qsm)
    {
      var k := 0;
      while k < |acts|
        invariant 0 <= k <= |acts|
        invariant Valid()
        invariant InterruptState() == AfterAcknowledgements(old(InterruptState()), acts[..k])
        invariant log.calls == old(log.calls) + BusCalls(acts[..k])
        invariant gpt.history == old(gpt.history) + BusDelivered(acts[..k], Gpt)
        invariant sim.history == old(sim.history) + BusDelivered(acts[..k], Sim)
        invariant qsm.history == old(qsm.history) + BusDelivered(acts[..k], Qsm)
      {
        assert acts[..k + 1][..k] == acts[..k];
        Perform(acts[k]);
        AppendAssoc(old(log.calls), BusCalls(acts[..k]), ActionCalls(acts[k]));
        AppendAssoc(old(gpt.history), BusDelivered(acts[..k], Gpt), ActionDelivered(acts[k], Gpt));
        AppendAssoc(old(sim.history), BusDelivered(acts[..k], Sim), ActionDelivered(acts[k], Sim));
        AppendAssoc(old(qsm.history), BusDelivered(acts[..k], Qsm), ActionDelivered(acts[k], Qsm));
        k := k + 1;
      }
      assert acts[..k] == acts;
    }

    /** The log and the histories agree: the bus-write calls made on block `b` are exactly what `b` was delivered. */
    lemma {:induction false} BusCallsMatchDelivered(acts: seq<CoreAction>, b: Block)
      ensures EventsOn(BusCalls(acts), b) == BusDelivered(acts, b)
    {
      if acts != [] {
        var init, last := acts[..|acts| - 1], acts[|acts| - 1];
        BusCallsMatchDelivered(init, b);
        EventsOnAppend(BusCalls(init), ActionCalls(last), b);
        ActionCallsMatchDelivered(last, b);
      }
    }

    lemma ActionCallsMatchDelivered(act: CoreAction, b: Block)
      ensures EventsOn(ActionCalls(act), b) == ActionDelivered(act, b)
    {
      var one := ActionCalls(act);
      assert |one| <= 1;
      if one != [] {
        assert one[..0] == [];
        assert EventsOn(one, b) == (if one[0].block == b then [one[0].event] else []);
      }
    }

    /**
     * exec: the execution core runs one instruction taking `delta` cycles,
     * calling back into this object with `acts` while it runs; then the
     * counter grows by delta (modulo 2^64), GPT, SIM and QSM are each
     * advanced once by delta, in that order, and delta is returned.
     */
    method Exec(delta: Cycles, acts: seq<CoreAction>) returns (r: U32)
      requires Valid() && AcknowledgedLevelsValid(acts)
      modifies this`pending, this`irq, this`cycles, gpt, sim, qsm, log
      ensures Valid()
      ensures r == delta
      ensures cycles == Wrap64(old(cycles) + delta)
      ensures InterruptState() == AfterAcknowledgements(old(InterruptState()), acts)
      ensures log.calls == old(log.calls) + BusCalls(acts) + [Call(Gpt, Tick(delta)), Call(Sim, Tick(delta)), Call(Qsm, Tick(delta))]
      ensures gpt.history == old(gpt.history) + BusDelivered(acts, Gpt) + [Tick(delta)]
      ensures sim.history == old(sim.history) + BusDelivered(acts, Sim) + [Tick(delta)]
      ensures qsm.history == old(qsm.history) + BusDelivered(acts, Qsm) + [Tick(delta)]
    {
      ghost var ipl := AfterAcknowledgements(InterruptState(), acts);
      ghost var counter := Wrap64(cycles + delta);
      ghost var before := cycles;
      RunCore(acts);
      assert cycles == before;
      assert InterruptState() == ipl && Interrupts.Valid(ipl);
      Advance(delta);
      assert cycles == counter;
      assert InterruptState() == ipl;
      r := delta;
    }

    /** The rest of exec once the core has returned: the counter, then the three blocks' exec calls. */
    method Advance(delta: nat)
      requires Wired() && Accounted(gpt.history, sim.history, qsm.history, cycles)
      modifies this`cycles, gpt, sim, qsm, log
      ensures Accounted(gpt.history, sim.history, qsm.history, cycles)
      ensures cycles == Wrap64(old(cycles) + delta)
      ensures log.calls == old(log.calls) + [Call(Gpt, Tick(delta)), Call(Sim, Tick(delta)), Call(Qsm, Tick(delta))]
      ensures gpt.history == old(gpt.history) + [Tick(delta)]
      ensures sim.history == old(sim.history) + [Tick(delta)]
      ensures qsm.history == old(qsm.history) + [Tick(delta)]
    {
      ghost var hg, hs, hq, c := gpt.history, sim.history, qsm.history, cycles;
      cycles := Wrap64(cycles + delta);
      TickBlocks(delta);
      ExecAccounted(hg, hs, hq, c, delta);
    }

    /** m_gpt.exec, m_sim.exec and m_qsm.exec, in that order: each history and the log gain the tick. */
    method TickBlocks(delta: nat)
      requires Wired()
      modifies gpt, sim, qsm, log
      ensures log.calls == old(log.calls) + [Call(Gpt, Tick(delta)), Call(Sim, Tick(delta)), Call(Qsm, Tick(delta))]
      ensures gpt.history == old(gpt.history) + [Tick(delta)]
      ensures sim.history == old(sim.history) + [Tick(delta)]
      ensures qsm.history == old(qsm.history) + [Tick(delta)]
    {
      ghost var calls := log.calls;
      gpt.Exec(delta);
      assert log.calls == calls + [Call(Gpt, Tick(delta))];
      sim.Exec(delta);
      assert log.calls == calls + [Call(Gpt, Tick(delta)), Call(Sim, Tick(delta))];
      qsm.Exec(delta);
      assert log.calls == calls + [Call(Gpt, Tick(delta)), Call(Sim, Tick(delta)), Call(Qsm, Tick(delta))];
    }

    /** getCycles: the counter is the total of the deltas every block has been advanced by, modulo 2^64. */
    function GetCycles(): (c: nat)
      reads this, gpt, sim, qsm
      requires Valid()
      ensures c < CycleModulus
      ensures forall b :: c == Wrap64(Sum(Ticks(BlockOf(b).history)))
    {
      assert BlockOf(Gpt) == gpt && BlockOf(Sim) == sim && BlockOf(Qsm) == qsm;
      cycles
    }
  }

  /**
   * What the execution core does to this object while m68k_execute runs one
   * instruction: acknowledge an interrupt level (m68k_int_ack), or write a
   * byte or a word on the bus.
   */
  datatype CoreAction =
    | AckInterrupt(level: nat)
    | BusWrite8(addr: bv32, value8: Byte)
    | BusWrite16(addr: bv32, value16: Word)

  /** An acknowledge names one of the eight levels. */
  predicate LevelValid(act: CoreAction) {
    act.AckInterrupt? ==> act.level < Interrupts.Levels
  }

  /** The core only acknowledges one of the eight levels. */
  predicate AcknowledgedLevelsValid(acts: seq<CoreAction>) {
    forall i :: 0 <= i < |acts| ==> LevelValid(acts[i])
  }

  /** The interrupt state after one core action: readIrqUserVector's for an acknowledge, unchanged for a bus write. */
  function AfterAcknowledgement(c: Interrupts.Controller, act: CoreAction): (r: Interrupts.Controller)
    requires |c.pending| == Interrupts.Levels && LevelValid(act)
    ensures |r.pending| == Interrupts.Levels
  {
    match act
    case AckInterrupt(level) => Interrupts.Acknowledge(c, level).1
    case _ => c
  }

  /** The interrupt state after the acknowledges among `acts`, in order. */
  function AfterAcknowledgements(c: Interrupts.Controller, acts: seq<CoreAction>): (r: Interrupts.Controller)
    requires |c.pending| == Interrupts.Levels && AcknowledgedLevelsValid(acts)
    ensures |r.pending| == Interrupts.Levels
  {
    if acts == [] then c
    else AfterAcknowledgement(AfterAcknowledgements(c, acts[..|acts| - 1]), acts[|acts| - 1])
  }

  /** `s` is what remains of `t` after some elements were taken off its front. */
  predicate IsSuffix<T(==)>(s: seq<T>, t: seq<T>) {
    |s| <= |t| && s == t[|t| - |s|..]
  }

  /**
   * During a step the core can only take vectors off the front of the
   * queues, never add or reorder them, and the pin keeps showing the IPL.
   */
  lemma {:induction false} AcknowledgementsOnlyRemove(c: Interrupts.Controller, acts: seq<CoreAction>)
    requires Interrupts.Valid(c) && AcknowledgedLevelsValid(acts)
    ensures Interrupts.Valid(AfterAcknowledgements(c, acts))
    ensures forall l :: 0 <= l < Interrupts.Levels ==> IsSuffix(AfterAcknowledgements(c, acts).pending[l], c.pending[l])
  {
    if acts != [] {
      var init, last := acts[..|acts| - 1], acts[|acts| - 1];
      assert AcknowledgedLevelsValid(init) by {
        forall i | 0 <= i < |init| ensures LevelValid(init[i]) {
          assert init[i] == acts[i];
        }
      }
      assert LevelValid(last) by {
        assert last == acts[|acts| - 1];
      }
      AcknowledgementsOnlyRemove(c, init);
      var prior := AfterAcknowledgements(c, init);
      match last {
        case AckInterrupt(level) =>
          if prior.pending[level] != [] {
            Interrupts.AcknowledgePopsOldest(prior, level);
          }
          forall l | 0 <= l < Interrupts.Levels
            ensures IsSuffix(AfterAcknowledgements(c, acts).pending[l], c.pending[l])
          {
            var t := c.pending[l];
            var p := prior.pending[l];
            var r := AfterAcknowledgements(c, acts).pending[l];
            assert r == p || (p != [] && r == p[1..]);
            if r != p {
              assert t[|t| - |r|..] == t[|t| - |p|..][1..];
            }
          }
        case _ =>
      }
    }
  }

  /** A step in which the core acknowledges nothing leaves the queues and the pin as they were. */
  lemma {:induction false} NoAcknowledgeKeepsInterrupts(c: Interrupts.Controller, acts: seq<CoreAction>)
    requires |c.pending| == Interrupts.Levels
    requires forall i :: 0 <= i < |acts| ==> !acts[i].AckInterrupt?
    ensures AcknowledgedLevelsValid(acts)
    ensures AfterAcknowledgements(c, acts) == c
  {
    if acts != [] {
      var init := acts[..|acts| - 1];
      assert forall i :: 0 <= i < |init| ==> init[i] == acts[i];
      NoAcknowledgeKeepsInterrupts(c, init);
    }
  }

  /** A vector queued at level 5 and acknowledged by the core during a step is gone, and the pin drops back to 0. */
  lemma AcknowledgeDuringStepExample()
    ensures AfterAcknowledgements(Interrupts.Inject(Interrupts.Initial(), 0x19, 5), [AckInterrupt(5)]) == Interrupts.Initial()
  {
    var c := Interrupts.Inject(Interrupts.Initial(), 0x19, 5);
    assert c.pending[5] == [0x19];
    assert [AckInterrupt(5)][..0] == [];
    var after := Interrupts.Acknowledge(c, 5).1;
    assert after.pending == Interrupts.Initial().pending;
    Interrupts.IplIsHighestNonEmpty(after.pending, 0);
  }

  /**
   * The cycle part of Mc68k's invariant: all three blocks have been advanced
   * by the same deltas, and the counter is their sum modulo 2^64.
   */
  ghost predicate Accounted(hg: seq<Event>, hs: seq<Event>, hq: seq<Event>, c: nat) {
    && Ticks(hs) == Ticks(hg) && Ticks(hq) == Ticks(hg)
    && CounterMatches(c, Ticks(hg))
  }

  /** A 64-bit counter that holds the sum of `deltas`, wrapped modulo 2^64. */
  ghost predicate CounterMatches(c: nat, deltas: seq<nat>) {
    c < CycleModulus && c == Wrap64(Sum(deltas))
  }

  /** One step advances every block by delta and the counter by delta, modulo 2^64. */
  lemma ExecAccounted(hg: seq<Event>, hs: seq<Event>, hq: seq<Event>, c: nat, delta: nat)
    requires Accounted(hg, hs, hq, c)
    ensures Accounted(hg + [Tick(delta)], hs + [Tick(delta)], hq + [Tick(delta)], Wrap64(c + delta))
  {
    TicksAppend(hg, Tick(delta));
    TicksAppend(hs, Tick(delta));
    TicksAppend(hq, Tick(delta));
    SumAppend(Ticks(hg), delta);
    ModuloAdd(Sum(Ticks(hg)), delta);
  }

  /** A write on any one block leaves the cycle accounting as it was. */
  lemma WriteAccounted(hg: seq<Event>, hs: seq<Event>, hq: seq<Event>, c: nat, b: Block, e: Event)
    requires Accounted(hg, hs, hq, c) && !e.Tick?
    ensures Accounted(if b == Gpt then hg + [e] else hg,
                      if b == Sim then hs + [e] else hs,
                      if b == Qsm then hq + [e] else hq, c)
  {
    TicksAppend(hg, e);
    TicksAppend(hs, e);
    TicksAppend(hq, e);
  }

  lemma ModuloAdd(total: nat, delta: nat)
    ensures (total % CycleModulus + delta) % CycleModulus == (total + delta) % CycleModulus
  {
  }
}
