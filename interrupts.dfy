/**
 * The interrupt controller of Mc68k as values: eight FIFO queues of pending
 * vectors, indexed by priority level, and the level asserted on the CPU's
 * interrupt pin. The class Mc68k.Mc68k updates the same state in place and
 * its methods are proved against the functions here.
 */
module Interrupts {
  import opened Types

  /** std::array<std::deque<uint8_t>, 8>: one queue per priority level 0..7. */
  const Levels: nat := 8

  /** Musashi's M68K_INT_ACK_AUTOVECTOR, returned when a level has nothing pending. */
  const Autovector: U32 := 0xFFFF_FFFF

  /** The pending queues and the level last asserted on the pin (m68k_set_irq). */
  datatype Controller = Controller(pending: seq<seq<Byte>>, irq: nat)

  /**
   * The level raiseIPL asserts when the scan starts at `top`: the first
   * non-empty queue going down from `top`, stopping before level 0.
   */
  function HighestPending(q: seq<seq<Byte>>, top: nat): (l: nat)
    requires top < |q|
    ensures l <= top
    ensures l > 0 ==> q[l] != []
    ensures forall j :: l < j <= top && j > 0 ==> q[j] == []
  {
    if top == 0 then 0
    else if q[top] != [] then top
    else HighestPending(q, top - 1)
  }

  /** The interrupt priority level the pending queues call for. */
  function Ipl(q: seq<seq<Byte>>): (l: nat)
    requires |q| == Levels
    ensures l < Levels
    ensures l > 0 ==> q[l] != []
    ensures forall j :: l < j < Levels ==> q[j] == []
  {
    HighestPending(q, Levels - 1)
  }

  /** Eight queues and a pin that shows the level they call for. */
  predicate Valid(c: Controller) {
    |c.pending| == Levels && c.irq == Ipl(c.pending)
  }

  /** The state after construction: nothing pending, pin at 0. */
  function Initial(): (c: Controller)
    ensures Valid(c)
    ensures forall l :: 0 <= l < Levels ==> c.pending[l] == []
  {
    Controller(seq(Levels, _ => []), 0)
  }

  /** injectInterrupt: append `v` to queue `level`, then raise the IPL. */
  function Inject(c: Controller, v: Byte, level: nat): (r: Controller)
    requires |c.pending| == Levels && level < Levels
    ensures Valid(r)
  {
    var p := c.pending[level := c.pending[level] + [v]];
    Controller(p, Ipl(p))
  }

  /**
   * readIrqUserVector: on an empty level, the autovector and no change;
   * otherwise the front vector, removed from its queue, and the IPL raised
   * again from what remains.
   */
  function Acknowledge(c: Controller, level: nat): (r: (U32, Controller))
    requires |c.pending| == Levels && level < Levels
    ensures r.0 == Autovector <==> c.pending[level] == []
    ensures |r.1.pending| == Levels
    ensures Valid(c) ==> Valid(r.1)
  {
    if c.pending[level] == [] then (Autovector, c)
    else
      var p := c.pending[level := c.pending[level][1..]];
      (c.pending[level][0], Controller(p, Ipl(p)))
  }

  // ---------------------------------------------------------------------
  // Priority arbitration

  /**
   * The IPL is the highest level in 1..7 whose queue is non-empty, and 0
   * when all of them are empty; no other level satisfies this.
   */
  lemma IplIsHighestNonEmpty(q: seq<seq<Byte>>, l: nat)
    requires |q| == Levels && l < Levels
    ensures Ipl(q) == l <==>
              (l == 0 || q[l] != []) && forall j :: l < j < Levels ==> q[j] == []
  {
  }

  /** The queue at level 0 never influences the pin. */
  lemma {:induction false} HighestPendingIgnoresLevelZero(q: seq<seq<Byte>>, z: seq<Byte>, top: nat)
    requires 0 < |q| && top < |q|
    ensures HighestPending(q[0 := z], top) == HighestPending(q, top)
  {
    if top > 0 && q[top] == [] {
      HighestPendingIgnoresLevelZero(q, z, top - 1);
    }
  }

  lemma IplIgnoresLevelZero(q: seq<seq<Byte>>, z: seq<Byte>)
    requires |q| == Levels
    ensures Ipl(q[0 := z]) == Ipl(q)
  {
    HighestPendingIgnoresLevelZero(q, z, Levels - 1);
  }

  // ---------------------------------------------------------------------
  // One operation at a time

  /** Injecting appends at the back of one queue, keeps duplicates, leaves the others alone and keeps the pin right. */
  lemma InjectAppends(c: Controller, v: Byte, level: nat)
    requires Valid(c) && level < Levels
    ensures Valid(Inject(c, v, level))
    ensures Inject(c, v, level).pending[level] == c.pending[level] + [v]
    ensures |Inject(c, v, level).pending[level]| == |c.pending[level]| + 1
    ensures forall j :: 0 <= j < Levels && j != level ==> Inject(c, v, level).pending[j] == c.pending[j]
  {
  }

  /** A vector injected at level 0 is queued but never changes the pin. */
  lemma InjectAtLevelZeroKeepsPin(c: Controller, v: Byte)
    requires Valid(c)
    ensures Inject(c, v, 0).irq == c.irq
  {
    IplIgnoresLevelZero(c.pending, c.pending[0] + [v]);
  }

  /** Acknowledging an empty level answers the autovector and changes neither the queues nor the pin. */
  lemma AcknowledgeEmptyLevel(c: Controller, level: nat)
    requires |c.pending| == Levels && level < Levels && c.pending[level] == []
    ensures Acknowledge(c, level).0 == Autovector
    ensures Acknowledge(c, level).1 == c
  {
  }

  /**
   * Acknowledging a non-empty level answers its oldest vector (never the
   * autovector), removes exactly that element, leaves the other levels alone
   * and keeps the pin right.
   */
  lemma AcknowledgePopsOldest(c: Controller, level: nat)
    requires Valid(c) && level < Levels && c.pending[level] != []
    ensures Acknowledge(c, level).0 == c.pending[level][0] != Autovector
    ensures [c.pending[level][0]] + Acknowledge(c, level).1.pending[level] == c.pending[level]
    ensures forall j :: 0 <= j < Levels && j != level ==> Acknowledge(c, level).1.pending[j] == c.pending[j]
    ensures Valid(Acknowledge(c, level).1)
  {
  }

  // ---------------------------------------------------------------------
  // FIFO order

  /** injectInterrupt(vs[0], level), ..., injectInterrupt(vs[|vs|-1], level), in that order. */
  function InjectAll(c: Controller, level: nat, vs: seq<Byte>): (c': Controller)
    requires |c.pending| == Levels && level < Levels
    ensures |c'.pending| == Levels
    decreases |vs|
  {
    if vs == [] then c
    else InjectAll(Inject(c, vs[0], level), level, vs[1..])
  }

  /** k calls of readIrqUserVector(level): the answers in order, and the final state. */
  function AcknowledgeN(c: Controller, level: nat, k: nat): (r: (seq<U32>, Controller))
    requires |c.pending| == Levels && level < Levels
    ensures |r.0| == k && |r.1.pending| == Levels
    decreases k
  {
    if k == 0 then ([], c)
    else
      var (v, c1) := Acknowledge(c, level);
      var (vs, c2) := AcknowledgeN(c1, level, k - 1);
      ([v] + vs, c2)
  }

  /** Injections append at the back of their level, in order, and touch no other level. */
  lemma {:induction false} InjectAllAppends(c: Controller, level: nat, vs: seq<Byte>)
    requires Valid(c) && level < Levels
    ensures Valid(InjectAll(c, level, vs))
    ensures InjectAll(c, level, vs).pending[level] == c.pending[level] + vs
    ensures forall j :: 0 <= j < Levels && j != level ==> InjectAll(c, level, vs).pending[j] == c.pending[j]
    decreases |vs|
  {
    if vs != [] {
      var c1 := Inject(c, vs[0], level);
      InjectAppends(c, vs[0], level);
      InjectAllAppends(c1, level, vs[1..]);
      assert c.pending[level] + [vs[0]] + vs[1..] == c.pending[level] + vs;
    }
  }

  /** k acknowledges of a level holding at least k vectors answer its first k, oldest first. */
  lemma {:induction false} AcknowledgeNTakesFront(c: Controller, level: nat, k: nat)
    requires Valid(c) && level < Levels && k <= |c.pending[level]|
    ensures AcknowledgeN(c, level, k).0 == c.pending[level][..k]
    ensures AcknowledgeN(c, level, k).1.pending[level] == c.pending[level][k..]
    ensures forall j :: 0 <= j < Levels && j != level ==> AcknowledgeN(c, level, k).1.pending[j] == c.pending[j]
    ensures Valid(AcknowledgeN(c, level, k).1)
    decreases k
  {
    if k > 0 {
      var (v, c1) := Acknowledge(c, level);
      AcknowledgePopsOldest(c, level);
      AcknowledgeNTakesFront(c1, level, k - 1);
      assert c1.pending[level] == c.pending[level][1..];
      assert [v] + c.pending[level][1..][..k - 1] == c.pending[level][..k];
      assert c.pending[level][1..][k - 1..] == c.pending[level][k..];
    }
  }

  /**
   * FIFO: after injecting vs at one level, acknowledging that level as many
   * times as it holds vectors answers what was already there and then vs,
   * each in the order it arrived, and empties the level.
   */
  lemma Fifo(c: Controller, level: nat, vs: seq<Byte>)
    requires Valid(c) && level < Levels
    ensures AcknowledgeN(InjectAll(c, level, vs), level, |c.pending[level]| + |vs|).0 == c.pending[level] + vs
    ensures AcknowledgeN(InjectAll(c, level, vs), level, |c.pending[level]| + |vs|).1.pending[level] == []
  {
    var c1 := InjectAll(c, level, vs);
    InjectAllAppends(c, level, vs);
    AcknowledgeNTakesFront(c1, level, |c.pending[level]| + |vs|);
    assert c1.pending[level][..|c1.pending[level]|] == c1.pending[level];
  }

  /**
   * Inject 0x19 at level 5, then 0x1A at level 3: the pin shows 5; the
   * acknowledge of level 5 answers 0x19 and the pin drops to 3.
   */
  lemma PriorityExample()
    ensures Inject(Inject(Initial(), 0x19, 5), 0x1A, 3).irq == 5
    ensures Acknowledge(Inject(Inject(Initial(), 0x19, 5), 0x1A, 3), 5).0 == 0x19
    ensures Acknowledge(Inject(Inject(Initial(), 0x19, 5), 0x1A, 3), 5).1.irq == 3
  {
    var c2 := Inject(Inject(Initial(), 0x19, 5), 0x1A, 3);
    IplIsHighestNonEmpty(c2.pending, 5);
    var c3 := Acknowledge(c2, 5).1;
    assert c3.pending[5] == [];
    IplIsHighestNonEmpty(c3.pending, 3);
  }
}
