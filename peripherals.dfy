/**
 * The three on-chip peripheral blocks of Mc68k (GPT, SIM and QSM), kept
 * abstract: each claims a fixed part of the masked peripheral address space
 * and answers reads as a function of everything that has been done to it.
 * What has been done to it is its history of writes and exec calls; every
 * call is also appended to a log the three blocks share, so the order of
 * calls across blocks can be stated.
 */
module Peripherals {
  import opened Types

  /** Which of the three blocks; the declaration order is the router's order. */
  datatype Block = Gpt | Sim | Qsm

  /** Position of a block in the router's first-match order. */
  function Rank(b: Block): nat {
    match b
    case Gpt => 0
    case Sim => 1
    case Qsm => 2
  }

  /** One call made on a block. */
  datatype Event =
    | Write8(addr: bv32, value8: Byte)
    | Write16(addr: bv32, value16: Word)
    | Tick(cycles: nat)

  /** One call made on a block, and which block it was made on. */
  datatype Call = Call(block: Block, event: Event)

  /**
   * The register behaviour of a block, whose code is not part of this model:
   * its range test (isInRange), a fixed predicate of the address, and its
   * byte and word reads, functions of the block's history and the address.
   */
  datatype Behaviour = Behaviour(
    inRange: bv32 -> bool,
    read8: (seq<Event>, bv32) -> Byte,
    read16: (seq<Event>, bv32) -> Word)

  /** The calls made on all blocks, in the order they were made. */
  class CallLog {
    ghost var calls: seq<Call>

    constructor ()
      ensures calls == []
    {
      calls := [];
    }
  }

  /** A peripheral block object (Gpt, Sim or Qsm), with its state as a history. */
  class Peripheral {
    const behaviour: Behaviour
    /** Which block this is, as it appears in the shared log. */
    const id: Block
    const log: CallLog
    var history: seq<Event>

    constructor (b: Behaviour, which: Block, shared: CallLog)
      ensures behaviour == b && id == which && log == shared && history == []
    {
      behaviour := b;
      id := which;
      log := shared;
      history := [];
    }

    predicate IsInRange(addr: bv32) {
      behaviour.inRange(addr)
    }

    function Read8(addr: bv32): Byte
      reads this
    {
      behaviour.read8(history, addr)
    }

    function Read16(addr: bv32): Word
      reads this
    {
      behaviour.read16(history, addr)
    }

    method Write8(addr: bv32, value: Byte)
      modifies this, log
      ensures history == old(history) + [Event.Write8(addr, value)]
      ensures log.calls == old(log.calls) + [Call(id, Event.Write8(addr, value))]
    {
      history := history + [Event.Write8(addr, value)];
      log.calls := log.calls + [Call(id, Event.Write8(addr, value))];
    }

    method Write16(addr: bv32, value: Word)
      modifies this, log
      ensures history == old(history) + [Event.Write16(addr, value)]
      ensures log.calls == old(log.calls) + [Call(id, Event.Write16(addr, value))]
    {
      history := history + [Event.Write16(addr, value)];
      log.calls := log.calls + [Call(id, Event.Write16(addr, value))];
    }

    /** exec(deltaCycles): advance the block's time. */
    method Exec(delta: nat)
      modifies this, log
      ensures history == old(history) + [Tick(delta)]
      ensures log.calls == old(log.calls) + [Call(id, Tick(delta))]
    {
      history := history + [Tick(delta)];
      log.calls := log.calls + [Call(id, Tick(delta))];
    }
  }

  /** The events of the calls in `calls` that were made on block `b`, in order. */
  function EventsOn(calls: seq<Call>, b: Block): seq<Event> {
    if calls == [] then []
    else EventsOn(calls[..|calls| - 1], b) + (if calls[|calls| - 1].block == b then [calls[|calls| - 1].event] else [])
  }

  lemma {:induction false} EventsOnAppend(c1: seq<Call>, c2: seq<Call>, b: Block)
    ensures EventsOn(c1 + c2, b) == EventsOn(c1, b) + EventsOn(c2, b)
    decreases |c2|
  {
    if c2 == [] {
      assert c1 + c2 == c1;
    } else {
      var init := c2[..|c2| - 1];
      assert (c1 + c2)[..|c1 + c2| - 1] == c1 + init;
      EventsOnAppend(c1, init, b);
    }
  }

  /** The deltas of the exec calls in a block's history, in order. */
  function Ticks(h: seq<Event>): seq<nat> {
    if h == [] then []
    else Ticks(h[..|h| - 1]) + (if h[|h| - 1].Tick? then [h[|h| - 1].cycles] else [])
  }

  function Sum(s: seq<nat>): nat {
    if s == [] then 0 else Sum(s[..|s| - 1]) + s[|s| - 1]
  }

  lemma TicksAppend(h: seq<Event>, e: Event)
    ensures Ticks(h + [e]) == Ticks(h) + (if e.Tick? then [e.cycles] else [])
  {
    assert (h + [e])[..|h|] == h;
  }

  lemma SumAppend(s: seq<nat>, d: nat)
    ensures Sum(s + [d]) == Sum(s) + d
  {
    assert (s + [d])[..|s|] == s;
  }
}
