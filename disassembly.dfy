/**
 * The address walk of Mc68k::dumpAssembly: starting at `first`, decode one
 * instruction, emit its line, advance by its length (by 1 when the length
 * is 0), and emit a blank separator line after every "rts", "bra " or
 * "jmp ", until the address reaches first + count. The disassembler is a
 * parameter, a function from address to text and length; the output file is
 * the sequence of lines.
 */
module Disassembly {
  import opened Types

  /** Size of the 32-bit address space that uint32_t arithmetic wraps at. */
  const AddressSpace: nat := 0x1_0000_0000

  /** What the disassembler answers for one address: the mnemonic text and the instruction length in bytes. */
  datatype Decoded = Decoded(text: string, length: U32)

  /** One line of the dump: an instruction with its address, or the blank separator. */
  datatype Line = Insn(addr: U32, text: string) | Separator

  /** How far the walk moves past one instruction: its length, or 1 when the disassembler reports 0. */
  function Step(d: Decoded): (n: nat)
    ensures n >= 1
  {
    if d.length == 0 then 1 else d.length
  }

  predicate StartsWith(text: string, prefix: string) {
    |prefix| <= |text| && text[..|prefix|] == prefix
  }

  /** Return, unconditional branch or jump: the mnemonics that close a basic block. */
  predicate EndsBlock(text: string) {
    StartsWith(text, "rts") || StartsWith(text, "bra ") || StartsWith(text, "jmp ")
  }

  /** The loop bound _first + _count, computed in uint32_t. */
  function RangeEnd(first: U32, count: U32): (bound: U32)
    ensures first + count < AddressSpace ==> bound == first + count
    ensures first + count >= AddressSpace ==> bound == first + count - AddressSpace && bound < first
  {
    (first + count) % AddressSpace
  }

  /** The lines one decoded instruction produces: its own, then a separator if it ends a block. */
  function Emit(addr: U32, d: Decoded): seq<Line> {
    [Insn(addr, d.text)] + (if EndsBlock(d.text) then [Separator] else [])
  }

  /** The dump from address i up to (not including) end. */
  function Walk(disasm: U32 -> Decoded, i: nat, end: U32): seq<Line>
    decreases end - i
  {
    if i < end then Emit(i, disasm(i)) + Walk(disasm, i + Step(disasm(i)), end)
    else []
  }

  /** The addresses of the instruction lines, in output order. */
  function Addresses(lines: seq<Line>): seq<U32> {
    if lines == [] then []
    else (if lines[0].Insn? then [lines[0].addr] else []) + Addresses(lines[1..])
  }

  /**
   * dumpAssembly without its file: the lines it writes for `count` bytes
   * from `first`. The flag splitFunctions is never read, so separators are
   * always emitted. The address is not wrapped at 2^32 (see README, Findings).
   */
  method DumpAssembly(disasm: U32 -> Decoded, first: U32, count: U32, splitFunctions: bool) returns (lines: seq<Line>)
    ensures lines == Walk(disasm, first, RangeEnd(first, count))
  {
    var end := RangeEnd(first, count);
    lines := [];
    var i: nat := first;
    while i < end
      invariant Walk(disasm, first, end) == lines + Walk(disasm, i, end)
      decreases end - i
    {
      var d := disasm(i);
      ghost var before, at := lines, i;
      lines := lines + [Insn(i, d.text)];
      if d.length == 0 {
        i := i + 1;
      } else {
        i := i + d.length;
      }
      if EndsBlock(d.text) {
        lines := lines + [Separator];
      }
      assert i == at + Step(d);
      assert lines == before + Emit(at, d);
      WalkStep(disasm, at, end);
      AppendAssoc(before, Emit(at, d), Walk(disasm, i, end));
    }
  }

  /** One step of the walk: the lines of the instruction at i, then the walk from the next address. */
  lemma WalkStep(disasm: U32 -> Decoded, i: nat, end: U32)
    requires i < end
    ensures Walk(disasm, i, end) == Emit(i, disasm(i)) + Walk(disasm, i + Step(disasm(i)), end)
  {
  }

  // ---------------------------------------------------------------------
  // The addresses visited

  lemma {:induction false} AddressesAppend(a: seq<Line>, b: seq<Line>)
    ensures Addresses(a + b) == Addresses(a) + Addresses(b)
    decreases |a|
  {
    if a != [] {
      var head := if a[0].Insn? then [a[0].addr] else [];
      assert (a + b)[0] == a[0];
      assert (a + b)[1..] == a[1..] + b;
      AddressesAppend(a[1..], b);
      calc {
        Addresses(a + b);
        head + Addresses(a[1..] + b);
        head + (Addresses(a[1..]) + Addresses(b));
        (head + Addresses(a[1..])) + Addresses(b);
        Addresses(a) + Addresses(b);
      }
    } else {
      assert a + b == b;
    }
  }

  /** The addresses of a walk that has not reached its bound: i, then the addresses of the walk from i's successor. */
  lemma WalkAddressesUnfold(disasm: U32 -> Decoded, i: nat, end: U32)
    requires i < end
    ensures Addresses(Walk(disasm, i, end)) == [i] + Addresses(Walk(disasm, i + Step(disasm(i)), end))
  {
    var d := disasm(i);
    var e := Emit(i, d);
    AddressesAppend(e, Walk(disasm, i + Step(d), end));
    if EndsBlock(d.text) {
      assert e[1..] == [Separator];
      assert Addresses([Separator]) == [] + Addresses([]);
    }
  }

  /**
   * The walk starts at i, visits only addresses in [i, end), and stops only
   * once the last instruction reaches end or beyond (it may overhang).
   */
  lemma {:induction false} WalkAddressesInRange(disasm: U32 -> Decoded, i: nat, end: U32)
    ensures var addrs := Addresses(Walk(disasm, i, end));
      && (addrs != [] <==> i < end)
      && (addrs != [] ==> addrs[0] == i && addrs[|addrs| - 1] + Step(disasm(addrs[|addrs| - 1])) >= end)
      && (forall k :: 0 <= k < |addrs| ==> i <= addrs[k] < end)
    decreases end - i
  {
    if i < end {
      var next := i + Step(disasm(i));
      WalkAddressesInRange(disasm, next, end);
      WalkAddressesUnfold(disasm, i, end);
      var rest := Addresses(Walk(disasm, next, end));
      var addrs := [i] + rest;
      forall k | 0 <= k < |addrs|
        ensures i <= addrs[k] < end
      {
        if k > 0 {
          assert addrs[k] == rest[k - 1];
        }
      }
      if rest != [] {
        assert addrs[|addrs| - 1] == rest[|rest| - 1];
      }
    }
  }

  /** Each address is the one before it plus that instruction's Step, so the addresses strictly increase. */
  lemma {:induction false} WalkAddressesIncrease(disasm: U32 -> Decoded, i: nat, end: U32)
    ensures var addrs := Addresses(Walk(disasm, i, end));
      && (forall k :: 0 <= k < |addrs| - 1 ==> addrs[k + 1] == addrs[k] + Step(disasm(addrs[k])))
      && (forall j, k :: 0 <= j < k < |addrs| ==> addrs[j] < addrs[k])
    decreases end - i
  {
    if i < end {
      var next := i + Step(disasm(i));
      WalkAddressesIncrease(disasm, next, end);
      WalkAddressesInRange(disasm, next, end);
      WalkAddressesUnfold(disasm, i, end);
      var rest := Addresses(Walk(disasm, next, end));
      var addrs := [i] + rest;
      forall k | 0 <= k < |addrs| - 1
        ensures addrs[k + 1] == addrs[k] + Step(disasm(addrs[k]))
      {
        if k > 0 {
          assert addrs[k] == rest[k - 1] && addrs[k + 1] == rest[k];
        }
      }
      forall j, k | 0 <= j < k < |addrs|
        ensures addrs[j] < addrs[k]
      {
        assert addrs[k] == rest[k - 1];
        if j > 0 {
          assert addrs[j] == rest[j - 1];
        }
      }
    }
  }

  /** A range that runs past 0xFFFFFFFF wraps its bound below first, and nothing is dumped. */
  lemma WrappedRangeDumpsNothing(disasm: U32 -> Decoded, first: U32, count: U32)
    requires first + count >= AddressSpace || count == 0
    ensures Walk(disasm, first, RangeEnd(first, count)) == []
  {
  }

  // ---------------------------------------------------------------------
  // Separators

  /**
   * Every separator follows an instruction that ends a block, and an
   * instruction line is followed by a separator exactly when it ends a block.
   */
  ghost predicate WellSeparated(lines: seq<Line>) {
    && (forall k :: 0 <= k < |lines| && lines[k].Separator? ==>
          k > 0 && lines[k - 1].Insn? && EndsBlock(lines[k - 1].text))
    && (forall k :: 0 <= k < |lines| && lines[k].Insn? ==>
          (EndsBlock(lines[k].text) <==> k + 1 < |lines| && lines[k + 1].Separator?))
  }

  /** Prepending one instruction's lines to well-separated lines that start with an instruction keeps them well separated. */
  lemma EmitWellSeparated(a: U32, d: Decoded, rest: seq<Line>)
    requires WellSeparated(rest) && (rest == [] || rest[0].Insn?)
    ensures WellSeparated(Emit(a, d) + rest)
  {
    var lines := Emit(a, d) + rest;
    forall k | 0 <= k < |lines| && lines[k].Separator?
      ensures k > 0 && lines[k - 1].Insn? && EndsBlock(lines[k - 1].text)
    {
      EmitSeparatorAt(a, d, rest, k);
    }
    forall k | 0 <= k < |lines| && lines[k].Insn?
      ensures EndsBlock(lines[k].text) <==> k + 1 < |lines| && lines[k + 1].Separator?
    {
      EmitInsnAt(a, d, rest, k);
    }
  }

  lemma EmitSeparatorAt(a: U32, d: Decoded, rest: seq<Line>, k: nat)
    requires WellSeparated(rest)
    requires k < |Emit(a, d) + rest| && (Emit(a, d) + rest)[k].Separator?
    ensures k > 0 && (Emit(a, d) + rest)[k - 1].Insn? && EndsBlock((Emit(a, d) + rest)[k - 1].text)
  {
    var e := Emit(a, d);
    var lines := e + rest;
    if k >= |e| {
      assert lines[k] == rest[k - |e|];
      if k > |e| {
        assert lines[k - 1] == rest[k - 1 - |e|];
      }
    }
  }

  lemma EmitInsnAt(a: U32, d: Decoded, rest: seq<Line>, k: nat)
    requires WellSeparated(rest) && (rest == [] || rest[0].Insn?)
    requires k < |Emit(a, d) + rest| && (Emit(a, d) + rest)[k].Insn?
    ensures EndsBlock((Emit(a, d) + rest)[k].text) <==>
              k + 1 < |Emit(a, d) + rest| && (Emit(a, d) + rest)[k + 1].Separator?
  {
    var e := Emit(a, d);
    var lines := e + rest;
    if k >= |e| {
      RestSeparated(rest, k - |e|);
      assert lines[k] == rest[k - |e|];
      assert k + 1 < |lines| ==> lines[k + 1] == rest[k + 1 - |e|];
    } else {
      assert lines[0] == e[0] == Insn(a, d.text);
      if EndsBlock(d.text) {
        assert lines[1] == e[1] == Separator;
      } else {
        assert k == 0;
        assert k + 1 < |lines| ==> lines[1] == rest[0] && rest[0].Insn?;
      }
    }
  }

  lemma RestSeparated(rest: seq<Line>, r: nat)
    requires WellSeparated(rest) && r < |rest| && rest[r].Insn?
    ensures EndsBlock(rest[r].text) <==> r + 1 < |rest| && rest[r + 1].Separator?
  {
  }

  /** The whole dump is well separated. */
  lemma {:induction false} WalkWellSeparated(disasm: U32 -> Decoded, i: nat, end: U32)
    ensures WellSeparated(Walk(disasm, i, end))
    ensures Walk(disasm, i, end) != [] ==> Walk(disasm, i, end)[0].Insn?
    decreases end - i
  {
    if i < end {
      var d := disasm(i);
      WalkWellSeparated(disasm, i + Step(d), end);
      EmitWellSeparated(i, d, Walk(disasm, i + Step(d), end));
    }
  }

  lemma MoveDoesNotEndBlock()
    ensures !EndsBlock("move.l d0,d1")
  {
    var t := "move.l d0,d1";
    assert t[..3][0] == 'm' != "rts"[0];
    assert t[..4][0] == 'm' != "bra "[0] && "jmp "[0] != 'm';
  }

  /**
   * A two-instruction range whose second instruction is "rts": two
   * instruction lines, a blank line right after the "rts", nothing else.
   */
  lemma ReturnIsFollowedBySeparator()
    ensures Walk(a => if a == 0x102 then Decoded("rts", 2) else Decoded("move.l d0,d1", 2), 0x100, RangeEnd(0x100, 4))
         == [Insn(0x100, "move.l d0,d1"), Insn(0x102, "rts"), Separator]
  {
    var disasm := a => if a == 0x102 then Decoded("rts", 2) else Decoded("move.l d0,d1", 2);
    MoveDoesNotEndBlock();
    assert EndsBlock("rts") by {
      assert "rts"[..3] == "rts";
    }
    assert Walk(disasm, 0x104, 0x104) == [];
  }

  // ---------------------------------------------------------------------
  // The address update as written: i is a uint32_t, so i += opSize wraps

  /** The next address of the loop as written, wrapped to 32 bits. */
  function NextAddressAsWritten(i: U32, d: Decoded): (next: U32)
    ensures i + Step(d) < AddressSpace ==> next == i + Step(d)
    ensures i + Step(d) >= AddressSpace ==> next == i + Step(d) - AddressSpace && next < i
  {
    (i + Step(d)) % AddressSpace
  }

  /** The address the loop as written holds after k steps from i. */
  function AddressAfterAsWritten(disasm: U32 -> Decoded, i: U32, k: nat): U32
    decreases k
  {
    if k == 0 then i else AddressAfterAsWritten(disasm, NextAddressAsWritten(i, disasm(i)), k - 1)
  }

  /** A disassembler that reads every address as a two-byte move. */
  function TwoByteMoves(): U32 -> Decoded {
    _ => Decoded("move.l d0,d1", 2)
  }

  lemma {:induction false} TwoByteWalkAsWritten(i: U32, k: nat)
    ensures AddressAfterAsWritten(TwoByteMoves(), i, k) == (i + 2 * k) % AddressSpace
    decreases k
  {
    if k > 0 {
      var j := NextAddressAsWritten(i, TwoByteMoves()(i));
      TwoByteWalkAsWritten(j, k - 1);
      assert j == (i + 2) % AddressSpace;
      WrapAdd(i + 2, 2 * (k - 1));
    }
  }

  lemma WrapAdd(a: nat, b: nat)
    ensures (a % AddressSpace + b) % AddressSpace == (a + b) % AddressSpace
  {
  }

  lemma WrapKeepsEven(a: nat)
    requires a % 2 == 0
    ensures (a % AddressSpace) % 2 == 0
  {
    var q := a / AddressSpace;
    assert a == q * AddressSpace + a % AddressSpace;
    assert q * AddressSpace == 2 * (q * 0x8000_0000);
  }

  /**
   * An instruction that overhangs 0xFFFFFFFF: dumping 15 bytes from
   * 0xFFFFFFF0 with two-byte instructions sets the bound to 0xFFFFFFFF,
   * which no even address reaches; the wrapped address returns to its
   * start after 2^31 steps, so the loop as written never exits.
   */
  lemma OverhangNeverEndsAsWritten()
    ensures RangeEnd(0xFFFF_FFF0, 15) == 0xFFFF_FFFF
    ensures forall k: nat :: AddressAfterAsWritten(TwoByteMoves(), 0xFFFF_FFF0, k) < RangeEnd(0xFFFF_FFF0, 15)
    ensures AddressAfterAsWritten(TwoByteMoves(), 0xFFFF_FFF0, 0x8000_0000) == 0xFFFF_FFF0
  {
    forall k: nat
      ensures AddressAfterAsWritten(TwoByteMoves(), 0xFFFF_FFF0, k) < 0xFFFF_FFFF
    {
      OverhangStepBelowBound(k);
    }
    TwoByteWalkAsWritten(0xFFFF_FFF0, 0x8000_0000);
  }

  /** The address after k steps of the overhanging walk is even, so below 0xFFFFFFFF. */
  lemma OverhangStepBelowBound(k: nat)
    ensures AddressAfterAsWritten(TwoByteMoves(), 0xFFFF_FFF0, k) < 0xFFFF_FFFF
  {
    TwoByteWalkAsWritten(0xFFFF_FFF0, k);
    EvenSum(0x7FFF_FFF8, k);
    WrapKeepsEven(0xFFFF_FFF0 + 2 * k);
    EvenBelowTop((0xFFFF_FFF0 + 2 * k) % AddressSpace);
  }

  lemma EvenSum(a: nat, k: nat)
    ensures (2 * a + 2 * k) % 2 == 0
  {
    assert 2 * a + 2 * k == 2 * (a + k);
  }

  lemma EvenBelowTop(x: nat)
    requires x % 2 == 0 && x < AddressSpace
    ensures x < 0xFFFF_FFFF
  {
  }

  /**
   * The instruction at 0xFFFFFFFE overhangs the top of memory: as written
   * the next address wraps to 0, still below the bound, while the corrected
   * walk moves past the bound and ends with that instruction's line.
   */
  lemma OverhangEndsCorrected()
    ensures NextAddressAsWritten(0xFFFF_FFFE, TwoByteMoves()(0xFFFF_FFFE)) == 0
    ensures Walk(TwoByteMoves(), 0xFFFF_FFFE, RangeEnd(0xFFFF_FFF0, 15)) == [Insn(0xFFFF_FFFE, "move.l d0,d1")]
  {
    MoveDoesNotEndBlock();
    assert Walk(TwoByteMoves(), 0x1_0000_0000, 0xFFFF_FFFF) == [];
  }
}
