// The byte level of the call-frame interpreter: decoding and encoding of
// instructions with the opcode numbers of src/dwarf/cfi.c, and `execute_cfi`
// itself, proved to run the disassembly of its bytes.
module CfiMachine {
  import opened Machine
  import opened Leb128
  import opened CfiProgram

  datatype Decoded = Insn(instr: Instr, len: nat) | Unsupported | Malformed

  datatype Pair<+V> = Pair(first: u64, second: V, len: nat)

  /** Two operands in a row. */
  function UlebUleb(s: seq<byte>): (r: Option<Pair<u64>>)
    ensures r.Some? ==> r.value.len <= |s|
  {
    var a := Uleb(s);
    if a.None? then None
    else
      var b := Uleb(s[a.value.len..]);
      if b.None? then None else Some(Pair(a.value.value, b.value.value, a.value.len + b.value.len))
  }

  function UlebSleb(s: seq<byte>): (r: Option<Pair<i64>>)
    ensures r.Some? ==> r.value.len <= |s|
  {
    var a := Uleb(s);
    if a.None? then None
    else
      var b := Sleb(s[a.value.len..]);
      if b.None? then None else Some(Pair(a.value.value, b.value.value, a.value.len + b.value.len))
  }

  /** The operand width of the fixed-width moves. */
  function MoveWidth(op: byte, addressSize: byte): nat {
    if op == 1 then addressSize else if op == 2 then 1 else if op == 3 then 2 else 4
  }

  /** Opcodes 0x01 to 0x04. */
  function DecodeMove(op: byte, s: seq<byte>, addressSize: byte): Decoded
    requires 1 <= op <= 4
  {
    var r := Fixed(s, MoveWidth(op, addressSize));
    if r.None? then Malformed
    else
      var v := r.value.value;
      var i := if op == 1 then SetLoc(v) else if op == 2 then Advance1(v) else if op == 3 then Advance2(v)
               else Advance4(v);
      Insn(i, 1 + r.value.len)
  }

  /** Opcodes with one unsigned operand; `op / 64 == 2` also packs a register. */
  function DecodeOne(op: byte, s: seq<byte>): Decoded
    requires op / 64 == 2 || op == 0x0d || op == 0x0e || op == 0x12
  {
    var r := Uleb(s);
    if r.None? then Malformed
    else
      var v := r.value.value;
      var i := if op / 64 == 2 then OffsetReg(op % 64, v)
               else if op == 0x0d then DefCfaRegister(v)
               else if op == 0x0e then DefCfaOffset(v)
               else RestoreExtended(v);
      Insn(i, 1 + r.value.len)
  }

  /** Opcodes with two operands or a signed one. */
  function DecodeMany(op: byte, s: seq<byte>): Decoded
    requires op == 0x0c || op == 0x11 || op == 0x1a || op == 0x1b
  {
    if op == 0x1a then
      var r := UlebSleb(s);
      if r.None? then Malformed else Insn(DefCfaSf(r.value.first, r.value.second), 1 + r.value.len)
    else if op == 0x1b then
      var r := Sleb(s);
      if r.None? then Malformed else Insn(DefCfaOffsetSf(r.value.value), 1 + r.value.len)
    else
      var r := UlebUleb(s);
      if r.None? then Malformed
      else if op == 0x0c then Insn(DefCfa(r.value.first, r.value.second), 1 + r.value.len)
      else Insn(OffsetExtended(r.value.first, r.value.second), 1 + r.value.len)
  }

  /** The instruction at the head of `s`, by the opcode table of the code. */
  function Decode(s: seq<byte>, addressSize: byte): (d: Decoded)
    requires s != []
    ensures d.Insn? ==> 1 <= d.len <= |s|
  {
    var op, rest := s[0], s[1..];
    if op / 64 == 1 then Insn(Advance(op % 64), 1)
    else if op / 64 == 2 then DecodeOne(op, rest)
    else if op / 64 == 3 then Insn(RestoreReg(op % 64), 1)
    else if op == 0 then Insn(Nop, 1)
    else if op <= 4 then DecodeMove(op, rest, addressSize)
    else if op == 0x0d || op == 0x0e || op == 0x12 then DecodeOne(op, rest)
    else if op == 0x0c || op == 0x11 || op == 0x1a || op == 0x1b then DecodeMany(op, rest)
    else Unsupported
  }

  /** A byte program read to its end or to the first byte that does not decode. */
  function Disassemble(s: seq<byte>, addressSize: byte): Program {
    if s == [] then Program([], Ok)
    else match Decode(s, addressSize)
      case Unsupported => Program([], NotImplemented)
      case Malformed => Program([], BadFormat)
      case Insn(i, len) =>
        var p := Disassemble(s[len..], addressSize);
        Program([i] + p.code, p.tail)
  }

  // ---------------------------------------------------------------------
  // Encoding

  /** Operands that the opcode's fields can hold. */
  predicate Encodable(i: Instr, addressSize: byte) {
    match i
    case Advance(delta) => delta < 64
    case OffsetReg(reg, _) => reg < 64
    case RestoreReg(reg) => reg < 64
    case SetLoc(loc) => IsWidth(addressSize) && loc < WidthLimit(addressSize)
    case Advance1(delta) => delta < 0x100
    case Advance2(delta) => delta < 0x1_0000
    case Advance4(delta) => delta < 0x1_0000_0000
    case _ => true
  }

  function Opcode(i: Instr, addressSize: byte): byte
    requires Encodable(i, addressSize)
  {
    match i
    case Advance(delta) => 0x40 + delta
    case OffsetReg(reg, _) => 0x80 + reg
    case RestoreReg(reg) => 0xc0 + reg
    case Nop => 0x00
    case SetLoc(_) => 0x01
    case Advance1(_) => 0x02
    case Advance2(_) => 0x03
    case Advance4(_) => 0x04
    case DefCfa(_, _) => 0x0c
    case DefCfaRegister(_) => 0x0d
    case DefCfaOffset(_) => 0x0e
    case OffsetExtended(_, _) => 0x11
    case RestoreExtended(_) => 0x12
    case DefCfaSf(_, _) => 0x1a
    case DefCfaOffsetSf(_) => 0x1b
  }

  function OperandBytes(i: Instr, addressSize: byte): seq<byte>
  {
    match i
    case OffsetReg(_, offset) => EncodeUleb(offset)
    case SetLoc(loc) => EncodeFixed(loc, addressSize)
    case Advance1(delta) => EncodeFixed(delta, 1)
    case Advance2(delta) => EncodeFixed(delta, 2)
    case Advance4(delta) => EncodeFixed(delta, 4)
    case DefCfa(reg, offset) => EncodeUleb(reg) + EncodeUleb(offset)
    case DefCfaRegister(reg) => EncodeUleb(reg)
    case DefCfaOffset(offset) => EncodeUleb(offset)
    case OffsetExtended(reg, offset) => EncodeUleb(reg) + EncodeUleb(offset)
    case RestoreExtended(reg) => EncodeUleb(reg)
    case DefCfaSf(reg, factored) => EncodeUleb(reg) + EncodeSleb(factored)
    case DefCfaOffsetSf(factored) => EncodeSleb(factored)
    case _ => []
  }

  /** An instruction's bytes: its opcode, then its operands. */
  function Encode(i: Instr, addressSize: byte): (s: seq<byte>)
    requires Encodable(i, addressSize)
    ensures s != []
  {
    [Opcode(i, addressSize)] + OperandBytes(i, addressSize)
  }

  function EncodeAll(code: seq<Instr>, addressSize: byte): seq<byte>
    requires forall i :: i in code ==> Encodable(i, addressSize)
  {
    if code == [] then [] else Encode(code[0], addressSize) + EncodeAll(code[1..], addressSize)
  }

  lemma NoOperands(i: Instr, addressSize: byte)
    requires i.Advance? || i.RestoreReg? || i.Nop?
    ensures OperandBytes(i, addressSize) == []
  {
  }

  /** Decoding inverts encoding, whatever bytes follow. */
  lemma DecodeEncode(i: Instr, addressSize: byte, rest: seq<byte>)
    requires Encodable(i, addressSize)
    ensures Decode(Encode(i, addressSize) + rest, addressSize) == Insn(i, |Encode(i, addressSize)|)
  {
    hide OperandBytes, DecodeMove, DecodeOne, DecodeMany;
    var s := Encode(i, addressSize) + rest;
    assert s[0] == Opcode(i, addressSize) && s[1..] == OperandBytes(i, addressSize) + rest;
    if i.Advance? || i.RestoreReg? || i.Nop? {
      NoOperands(i, addressSize);
    } else if i.SetLoc? || i.Advance1? || i.Advance2? || i.Advance4? {
      ReadBackMove(i, addressSize, rest);
    } else if i.OffsetReg? || i.DefCfaRegister? || i.DefCfaOffset? || i.RestoreExtended? {
      ReadBackOne(i, addressSize, rest);
    } else {
      ReadBackMany(i, addressSize, rest);
    }
  }

  lemma ReadBackMove(i: Instr, addressSize: byte, rest: seq<byte>)
    requires Encodable(i, addressSize)
    requires i.SetLoc? || i.Advance1? || i.Advance2? || i.Advance4?
    ensures DecodeMove(Opcode(i, addressSize), OperandBytes(i, addressSize) + rest, addressSize)
         == Insn(i, 1 + |OperandBytes(i, addressSize)|)
  {
    hide EncodeFixed, Fixed;
    var v := if i.SetLoc? then i.loc else i.wide;
    var size := MoveWidth(Opcode(i, addressSize), addressSize);
    FixedRoundTrip(v, size, rest);
  }

  lemma ReadBackOne(i: Instr, addressSize: byte, rest: seq<byte>)
    requires Encodable(i, addressSize)
    requires i.OffsetReg? || i.DefCfaRegister? || i.DefCfaOffset? || i.RestoreExtended?
    ensures DecodeOne(Opcode(i, addressSize), OperandBytes(i, addressSize) + rest)
         == Insn(i, 1 + |OperandBytes(i, addressSize)|)
  {
    UlebRoundTrip(if i.OffsetReg? || i.DefCfaOffset? then i.offset else i.wideReg, rest);
  }

  lemma ReadBackMany(i: Instr, addressSize: byte, rest: seq<byte>)
    requires Encodable(i, addressSize)
    requires i.DefCfa? || i.OffsetExtended? || i.DefCfaSf? || i.DefCfaOffsetSf?
    ensures DecodeMany(Opcode(i, addressSize), OperandBytes(i, addressSize) + rest)
         == Insn(i, 1 + |OperandBytes(i, addressSize)|)
  {
    if i.DefCfaOffsetSf? {
      SlebRoundTrip(i.factored, rest);
    } else if i.DefCfaSf? {
      ReadBackUlebSleb(i.wideReg, i.factored, rest);
    } else {
      ReadBackUlebUleb(i.wideReg, i.offset, rest);
    }
  }

  /** Two operands in a row read back when each does. */
  lemma PairReads(a: u64, ea: seq<byte>, second: seq<byte>)
    requires Uleb(ea + second) == Some(Read(a, |ea|))
    ensures var u := Uleb(second);
            UlebUleb(ea + second)
            == if u.None? then None else Some(Pair(a, u.value.value, |ea| + u.value.len))
    ensures var s := Sleb(second);
            UlebSleb(ea + second)
            == if s.None? then None else Some(Pair(a, s.value.value, |ea| + s.value.len))
  {
    assert (ea + second)[|ea|..] == second;
  }

  lemma ReadBackUlebUleb(a: u64, b: u64, rest: seq<byte>)
    ensures UlebUleb(EncodeUleb(a) + EncodeUleb(b) + rest) == Some(Pair(a, b, |EncodeUleb(a) + EncodeUleb(b)|))
  {
    hide EncodeUleb, Uleb, Sleb;
    var ea, eb := EncodeUleb(a), EncodeUleb(b);
    assert ea + eb + rest == ea + (eb + rest);
    UlebRoundTrip(a, eb + rest);
    UlebRoundTrip(b, rest);
    PairReads(a, ea, eb + rest);
  }

  lemma ReadBackUlebSleb(a: u64, b: i64, rest: seq<byte>)
    ensures UlebSleb(EncodeUleb(a) + EncodeSleb(b) + rest) == Some(Pair(a, b, |EncodeUleb(a) + EncodeSleb(b)|))
  {
    hide EncodeUleb, EncodeSleb, Uleb, Sleb;
    var ea, eb := EncodeUleb(a), EncodeSleb(b);
    assert ea + eb + rest == ea + (eb + rest);
    UlebRoundTrip(a, eb + rest);
    SlebRoundTrip(b, rest);
    PairReads(a, ea, eb + rest);
  }

  lemma DisassembleCons(i: Instr, others: seq<byte>, addressSize: byte)
    requires Encodable(i, addressSize)
    ensures var p := Disassemble(others, addressSize);
            Disassemble(Encode(i, addressSize) + others, addressSize) == Program([i] + p.code, p.tail)
  {
    var head := Encode(i, addressSize);
    DecodeEncode(i, addressSize, others);
    assert (head + others)[|head|..] == others;
  }

  lemma ConsConcat<T>(s: seq<T>, t: seq<T>)
    requires s != []
    ensures [s[0]] + (s[1..] + t) == s + t
  {
  }

  lemma EncodeAllCons(code: seq<Instr>, addressSize: byte, rest: seq<byte>)
    requires code != [] && forall i :: i in code ==> Encodable(i, addressSize)
    ensures forall i :: i in code[1..] ==> Encodable(i, addressSize)
    ensures EncodeAll(code, addressSize) + rest
         == Encode(code[0], addressSize) + (EncodeAll(code[1..], addressSize) + rest)
  {
  }

  /** A list of instructions survives encoding, with any bytes after it. */
  lemma {:induction false} DisassembleEncoded(code: seq<Instr>, addressSize: byte, rest: seq<byte>)
    requires forall i :: i in code ==> Encodable(i, addressSize)
    ensures Disassemble(EncodeAll(code, addressSize) + rest, addressSize).code
         == code + Disassemble(rest, addressSize).code
    ensures Disassemble(EncodeAll(code, addressSize) + rest, addressSize).tail == Disassemble(rest, addressSize).tail
  {
    if code == [] {
      assert EncodeAll(code, addressSize) + rest == rest;
    } else {
      EncodeAllCons(code, addressSize, rest);
      DisassembleEncoded(code[1..], addressSize, rest);
      DisassembleCons(code[0], EncodeAll(code[1..], addressSize) + rest, addressSize);
      ConsConcat(code, Disassemble(rest, addressSize).code);
    }
  }

  // ---------------------------------------------------------------------
  // The opcode table

  /** The bytes of every instruction. */
  lemma OpcodeTable(i: Instr, addressSize: byte)
    requires Encodable(i, addressSize)
    ensures i.Advance? ==> Encode(i, addressSize) == [0x40 + i.delta]
    ensures i.OffsetReg? ==> Encode(i, addressSize) == [0x80 + i.reg] + EncodeUleb(i.offset)
    ensures i.RestoreReg? ==> Encode(i, addressSize) == [0xc0 + i.reg]
    ensures i.Nop? ==> Encode(i, addressSize) == [0x00]
    ensures i.SetLoc? ==> Encode(i, addressSize) == [0x01] + EncodeFixed(i.loc, addressSize)
    ensures i.Advance1? ==> Encode(i, addressSize) == [0x02] + EncodeFixed(i.wide, 1)
    ensures i.Advance2? ==> Encode(i, addressSize) == [0x03] + EncodeFixed(i.wide, 2)
    ensures i.Advance4? ==> Encode(i, addressSize) == [0x04] + EncodeFixed(i.wide, 4)
    ensures i.DefCfa? ==> Encode(i, addressSize) == [0x0c] + (EncodeUleb(i.wideReg) + EncodeUleb(i.offset))
    ensures i.DefCfaRegister? ==> Encode(i, addressSize) == [0x0d] + EncodeUleb(i.wideReg)
    ensures i.DefCfaOffset? ==> Encode(i, addressSize) == [0x0e] + EncodeUleb(i.offset)
    ensures i.OffsetExtended? ==> Encode(i, addressSize) == [0x11] + (EncodeUleb(i.wideReg) + EncodeUleb(i.offset))
    ensures i.RestoreExtended? ==> Encode(i, addressSize) == [0x12] + EncodeUleb(i.wideReg)
    ensures i.DefCfaSf? ==> Encode(i, addressSize) == [0x1a] + (EncodeUleb(i.wideReg) + EncodeSleb(i.factored))
    ensures i.DefCfaOffsetSf? ==> Encode(i, addressSize) == [0x1b] + EncodeSleb(i.factored)
  {
    hide EncodeUleb, EncodeSleb, EncodeFixed;
    assert OperandBytes(i, addressSize) == [] ==> [Opcode(i, addressSize)] + [] == [Opcode(i, addressSize)];
  }

  /** The opcodes that the code does not support. */
  predicate IsUnsupported(op: byte) {
    0x05 <= op <= 0x0b || op == 0x0f || op == 0x10 || 0x13 <= op <= 0x19 || 0x1c <= op <= 0x3f
  }

  /** No LEB128 number ends within its first ten bytes. */
  ghost predicate NoNumber(s: seq<byte>) {
    forall n :: 1 <= n <= 10 ==> !IsGroup(s, n)
  }

  /** An operand of the instruction at the head of `s` is cut off or over-long, or has
      no width that can be loaded. */
  ghost predicate CutShort(s: seq<byte>, addressSize: byte)
    requires s != []
  {
    var op, rest := s[0], s[1..];
    if op == 0x01 then
      !(addressSize == 1 || addressSize == 2 || addressSize == 4 || addressSize == 8) || |rest| < addressSize
    else if op == 0x02 then |rest| < 1
    else if op == 0x03 then |rest| < 2
    else if op == 0x04 then |rest| < 4
    else if 0x80 <= op < 0xc0 || op == 0x0d || op == 0x0e || op == 0x12 || op == 0x1b then NoNumber(rest)
    else if op == 0x0c || op == 0x11 || op == 0x1a then
      NoNumber(rest) || exists n :: 1 <= n <= 10 && IsGroup(rest, n) && NoNumber(rest[n..])
    else false
  }

  lemma NumberIff(s: seq<byte>)
    ensures Uleb(s).None? <==> NoNumber(s)
    ensures Sleb(s).None? <==> NoNumber(s)
  {
    ReadersAccept(s);
  }

  lemma TwoNumbersIff(s: seq<byte>)
    ensures UlebUleb(s).None? <==> NoNumber(s) || exists n :: 1 <= n <= 10 && IsGroup(s, n) && NoNumber(s[n..])
    ensures UlebSleb(s).None? <==> NoNumber(s) || exists n :: 1 <= n <= 10 && IsGroup(s, n) && NoNumber(s[n..])
  {
    hide Uleb, Sleb, NoNumber;
    NumberIff(s);
    ReadersAccept(s);
    if Uleb(s).Some? {
      var n := Uleb(s).value.len;
      NumberIff(s[n..]);
      forall k | 1 <= k <= 10 && IsGroup(s, k) ensures k == n {
        GroupSpan(s, k);
        GroupSpan(s, n);
      }
    } else {
      assert NoNumber(s);
    }
  }

  /** For any bytes: what ends a program other than its own end. */
  lemma DecodeFailsIff(s: seq<byte>, addressSize: byte)
    requires s != []
    ensures Decode(s, addressSize) == Unsupported <==> IsUnsupported(s[0])
    ensures Decode(s, addressSize) == Malformed <==> CutShort(s, addressSize)
  {
    hide Uleb, Sleb, UlebUleb, UlebSleb, NoNumber;
    NumberIff(s[1..]);
    TwoNumbersIff(s[1..]);
  }

  // ---------------------------------------------------------------------
  // Decoding is local

  lemma DropAppend(s: seq<byte>, t: seq<byte>, n: nat)
    requires n <= |s|
    ensures (s + t)[n..] == s[n..] + t
  {
  }

  lemma PairLocal(s: seq<byte>, t: seq<byte>)
    ensures UlebUleb(s).Some? ==> UlebUleb(s + t) == UlebUleb(s)
    ensures UlebSleb(s).Some? ==> UlebSleb(s + t) == UlebSleb(s)
  {
    if Uleb(s).Some? {
      var n := Uleb(s).value.len;
      UlebLocal(s, t);
      DropAppend(s, t, n);
      if Uleb(s[n..]).Some? {
        UlebLocal(s[n..], t);
      }
      if Sleb(s[n..]).Some? {
        SlebLocal(s[n..], t);
      }
    }
  }

  lemma DecodeLocal(s: seq<byte>, t: seq<byte>, addressSize: byte)
    requires s != [] && Decode(s, addressSize).Insn?
    ensures Decode(s + t, addressSize) == Decode(s, addressSize)
  {
    hide Uleb, Sleb, UlebUleb, UlebSleb, Fixed;
    var op, rest := s[0], s[1..];
    DropAppend(s, t, 1);
    PairLocal(rest, t);
    if Uleb(rest).Some? {
      UlebLocal(rest, t);
    }
    if Sleb(rest).Some? {
      SlebLocal(rest, t);
    }
    if 1 <= op <= 4 {
      FixedLocal(rest, MoveWidth(op, addressSize), t);
    }
  }

  /** Appending bytes only appends instructions. */
  lemma {:induction false} DisassemblePrefix(s: seq<byte>, t: seq<byte>, addressSize: byte)
    ensures Disassemble(s, addressSize).code <= Disassemble(s + t, addressSize).code
  {
    if s != [] && Decode(s, addressSize).Insn? {
      var n := Decode(s, addressSize).len;
      DecodeLocal(s, t, addressSize);
      DropAppend(s, t, n);
      DisassemblePrefix(s[n..], t, addressSize);
    }
  }

  /** What `execute_cfi` computes for a byte program. */
  function Execute(f: Factors, bytes: seq<byte>, pcBegin: u64, target: u64, st: Rules, initial: Rules): Outcome {
    var p := Disassemble(bytes, f.addressSize);
    Run(f, p.code, p.tail, pcBegin, target, st, initial)
  }

  /** Bytes after the stopping advance cannot affect the result. */
  lemma BytesAfterStop(f: Factors, bytes: seq<byte>, more: seq<byte>, pcBegin: u64, target: u64, st: Rules,
                       initial: Rules)
    requires var code := Disassemble(bytes, f.addressSize).code;
             Executed(f, code, pcBegin, target) < |code|
    ensures Execute(f, bytes + more, pcBegin, target, st, initial) == Execute(f, bytes, pcBegin, target, st, initial)
  {
    var p := Disassemble(bytes, f.addressSize);
    var q := Disassemble(bytes + more, f.addressSize);
    DisassemblePrefix(bytes, more, f.addressSize);
    assert q.code == p.code + q.code[|p.code|..];
    StopIgnoresRest(f, p.code, q.code[|p.code|..], p.tail, q.tail, pcBegin, target, st, initial);
  }

  /** The interpreter refines the instruction level: on an encoding it gives the
      run of the encoded list. */
  lemma ExecuteEncoded(f: Factors, code: seq<Instr>, pcBegin: u64, target: u64, st: Rules, initial: Rules)
    requires forall i :: i in code ==> Encodable(i, f.addressSize)
    ensures Execute(f, EncodeAll(code, f.addressSize), pcBegin, target, st, initial)
         == Run(f, code, Ok, pcBegin, target, st, initial)
  {
    DisassembleEncoded(code, f.addressSize, []);
    assert EncodeAll(code, f.addressSize) + [] == EncodeAll(code, f.addressSize);
    assert code + [] == code;
  }

  // ---------------------------------------------------------------------
  // The interpreter

  /** `struct cfa_state`, updated in place while a program runs. */
  class CfaState {
    var cfaReg: u16
    var cfaOffset: i64
    const regs: array<Rule>

    ghost predicate Valid()
      reads this
    {
      regs.Length == 32
    }

    ghost function View(): Rules
      reads this, regs
      requires Valid()
    {
      Rules(cfaReg, cfaOffset, regs[..])
    }

    /** `cfa_state_reset`. */
    constructor ()
      ensures Valid() && fresh(regs)
      ensures View() == Reset()
    {
      cfaReg, cfaOffset := NO_CFA_REG, 0;
      regs := new Rule[32](_ => SameValue);
      new;
      assert regs[..] == Reset().regs;
    }

    /** A copy of the state, as `initial = current` takes it. */
    method Snapshot() returns (r: Rules)
      requires Valid()
      ensures r == View()
    {
      r := Rules(cfaReg, cfaOffset, regs[..]);
    }

    method SetReg(reg: nat, rule: Rule)
      requires Valid()
      modifies regs
      ensures Valid() && View() == SetRule(old(View()), reg, rule)
    {
      if reg < SLOTS {
        regs[reg] := rule;
      }
    }

    method RestoreReg(reg: nat, initial: Rules)
      requires Valid()
      modifies regs
      ensures Valid() && View() == Restored(old(View()), reg, initial)
    {
      if reg < SLOTS {
        SetReg(reg, initial.regs[reg]);
      }
    }
  }

  lemma OperandStart(program: seq<byte>, cursor: nat)
    requires cursor < |program|
    ensures program[cursor..][0] == program[cursor]
    ensures program[cursor..][1..] == program[cursor + 1..] == program[cursor + 1..|program|]
  {
  }

  /** Moving the offset moves the location by the same amount. */
  lemma MoveWraps(pcBegin: u64, pcOffset: u64, x: int)
    ensures Wrap(pcBegin + Wrap(pcOffset + x)) == Wrap(Wrap(pcBegin + pcOffset) + x)
  {
    WrapAdd(pcOffset + x, pcBegin);
    WrapAdd(pcBegin + pcOffset, x);
  }

  lemma SetWraps(pcBegin: u64, loc: u64)
    ensures Wrap(pcBegin + Wrap(loc - pcBegin)) == loc
  {
    WrapAdd(loc - pcBegin, pcBegin);
  }

  /** The four fixed-width location opcodes: the new offset from `pcBegin`. */
  method ExecuteMove(f: Factors, program: seq<byte>, cursor: nat, op: byte, pcBegin: u64, pcOffset: u64)
    returns (st: Status, next: nat, moved: u64, ghost instr: Instr)
    requires cursor < |program| && program[cursor] == op && 1 <= op <= 4
    ensures st == Ok ==> cursor < next <= |program|
    ensures st == Ok ==> Decode(program[cursor..], f.addressSize) == Insn(instr, next - cursor) && instr.Moves()
    ensures st == Ok ==> Wrap(pcBegin + moved) == Move(f, instr, Wrap(pcBegin + pcOffset))
    ensures st != Ok ==> st == BadFormat && Decode(program[cursor..], f.addressSize) == Malformed
  {
    var operand;
    hide Wrap;
    OperandStart(program, cursor);
    instr, moved := Nop, pcOffset;
    st, next, operand := ReadFixed(program, cursor + 1, |program|, MoveWidth(op, f.addressSize));
    if st == Ok {
      MoveWraps(pcBegin, pcOffset, operand * f.codeAlign);
      SetWraps(pcBegin, operand);
      match op {
        case 1 => moved, instr := Wrap(operand - pcBegin), SetLoc(operand);
        case 2 => moved, instr := Wrap(pcOffset + operand * f.codeAlign), Advance1(operand);
        case 3 => moved, instr := Wrap(pcOffset + operand * f.codeAlign), Advance2(operand);
        case _ => moved, instr := Wrap(pcOffset + operand * f.codeAlign), Advance4(operand);
      }
    }
  }

  /** The opcodes that read one operand and change the current row. */
  method ExecuteOne(f: Factors, program: seq<byte>, cursor: nat, op: byte, state: CfaState, initial: Rules)
    returns (st: Status, next: nat, ghost instr: Instr)
    requires state.Valid()
    requires cursor < |program| && program[cursor] == op
    requires op / 64 == 2 || op == 0x0d || op == 0x0e || op == 0x12
    modifies state, state.regs
    ensures state.Valid()
    ensures st == Ok ==> cursor < next <= |program|
    ensures st == Ok ==> Decode(program[cursor..], f.addressSize) == Insn(instr, next - cursor) && !instr.Moves()
    ensures st == Ok ==> state.View() == Apply(f, instr, old(state.View()), initial)
    ensures st != Ok ==> st == BadFormat && Decode(program[cursor..], f.addressSize) == Malformed
    ensures st != Ok ==> state.View() == old(state.View())
  {
    var value;
    OperandStart(program, cursor);
    instr := Nop;
    st, next, value := ReadUleb(program, cursor + 1, |program|);
    if st == Ok {
      if op / 64 == 2 {
        instr := OffsetReg(op % 64, value);
        state.SetReg(op % 64, AtOffset(ToSigned(value * f.dataAlign)));
      } else if op == 0x0d {
        instr := DefCfaRegister(value);
        state.cfaReg := value % 0x1_0000;
      } else if op == 0x0e {
        instr := DefCfaOffset(value);
        state.cfaOffset := ToSigned(value);
      } else {
        instr := RestoreExtended(value);
        state.RestoreReg(value, initial);
      }
    }
  }

  /** The opcodes with two unsigned operands. */
  method ExecuteTwo(f: Factors, program: seq<byte>, cursor: nat, op: byte, state: CfaState)
    returns (st: Status, next: nat, ghost instr: Instr)
    requires state.Valid()
    requires cursor < |program| && program[cursor] == op
    requires op == 0x0c || op == 0x11
    modifies state, state.regs
    ensures state.Valid()
    ensures st == Ok ==> cursor < next <= |program|
    ensures st == Ok ==> Decode(program[cursor..], f.addressSize) == Insn(instr, next - cursor)
    ensures st == Ok ==> !instr.Moves() && forall initial :: state.View() == Apply(f, instr, old(state.View()), initial)
    ensures st != Ok ==> st == BadFormat && Decode(program[cursor..], f.addressSize) == Malformed
    ensures st != Ok ==> state.View() == old(state.View())
  {
    var reg, offset;
    hide ToSigned, Uleb, Sleb;
    OperandStart(program, cursor);
    instr := Nop;
    st, next, reg := ReadUleb(program, cursor + 1, |program|);
    if st == Ok {
      SecondOperand(program, cursor + 1, next);
      st, next, offset := ReadUleb(program, next, |program|);
      if st == Ok {
        if op == 0x0c {
          instr := DefCfa(reg, offset);
          state.cfaReg, state.cfaOffset := reg % 0x1_0000, ToSigned(offset);
        } else {
          instr := OffsetExtended(reg, offset);
          state.SetReg(reg, AtOffset(ToSigned(offset * f.dataAlign)));
        }
      }
    }
  }

  lemma SecondOperand(program: seq<byte>, cursor: nat, next: nat)
    requires cursor <= next <= |program|
    ensures program[cursor..][next - cursor..] == program[next..] == program[next..|program|]
  {
  }

  /** The opcodes with a signed factored offset. */
  method ExecuteSigned(f: Factors, program: seq<byte>, cursor: nat, op: byte, state: CfaState)
    returns (st: Status, next: nat, ghost instr: Instr)
    requires state.Valid()
    requires cursor < |program| && program[cursor] == op
    requires op == 0x1a || op == 0x1b
    modifies state
    ensures state.Valid()
    ensures st == Ok ==> cursor < next <= |program|
    ensures st == Ok ==> Decode(program[cursor..], f.addressSize) == Insn(instr, next - cursor)
    ensures st == Ok ==> !instr.Moves() && forall initial :: state.View() == Apply(f, instr, old(state.View()), initial)
    ensures st != Ok ==> st == BadFormat && Decode(program[cursor..], f.addressSize) == Malformed
    ensures st != Ok ==> state.View() == old(state.View())
  {
    var reg, factored;
    hide ToSigned, Uleb, Sleb;
    OperandStart(program, cursor);
    instr := Nop;
    if op == 0x1a {
      st, next, reg := ReadUleb(program, cursor + 1, |program|);
      if st == Ok {
        SecondOperand(program, cursor + 1, next);
        st, next, factored := ReadSleb(program, next, |program|);
        if st == Ok {
          instr := DefCfaSf(reg, factored);
          state.cfaReg, state.cfaOffset := reg % 0x1_0000, ToSigned(factored * f.dataAlign);
        }
      }
    } else {
      st, next, factored := ReadSleb(program, cursor + 1, |program|);
      if st == Ok {
        instr := DefCfaOffsetSf(factored);
        state.cfaOffset := ToSigned(factored * f.dataAlign);
      }
    }
  }

  /** One pass of the interpreter's loop up to its stop test. */
  method ExecuteInstr(f: Factors, program: seq<byte>, cursor: nat, pcBegin: u64, pcOffset: u64, state: CfaState,
                      initial: Rules)
    returns (st: Status, next: nat, moved: u64, moves: bool, ghost instr: Instr)
    requires state.Valid()
    requires cursor < |program|
    modifies state, state.regs
    ensures state.Valid()
    ensures st == Ok ==> cursor < next <= |program|
    ensures st == Ok ==> Decode(program[cursor..], f.addressSize) == Insn(instr, next - cursor)
    ensures st == Ok ==> moves == instr.Moves()
    ensures st == Ok ==> Wrap(pcBegin + moved) == Move(f, instr, Wrap(pcBegin + pcOffset))
    ensures st == Ok ==> state.View() == Apply(f, instr, old(state.View()), initial)
    ensures st != Ok ==> Disassemble(program[cursor..], f.addressSize) == Program([], st)
    ensures st != Ok ==> state.View() == old(state.View())
  {
    hide Wrap;
    var op := program[cursor];
    OperandStart(program, cursor);
    st, next, moved, moves, instr := Ok, cursor + 1, pcOffset, false, Nop;
    if op / 64 == 1 {
      MoveWraps(pcBegin, pcOffset, op % 64 * f.codeAlign);
      instr := Advance(op % 64);
      moved, moves := Wrap(pcOffset + op % 64 * f.codeAlign), true;
    } else if op / 64 == 2 || op == 0x0d || op == 0x0e || op == 0x12 {
      st, next, instr := ExecuteOne(f, program, cursor, op, state, initial);
    } else if op / 64 == 3 {
      instr := CfiProgram.RestoreReg(op % 64);
      state.RestoreReg(op % 64, initial);
    } else if 1 <= op <= 4 {
      st, next, moved, instr := ExecuteMove(f, program, cursor, op, pcBegin, pcOffset);
      moves := true;
    } else if op == 0x0c || op == 0x11 {
      st, next, instr := ExecuteTwo(f, program, cursor, op, state);
    } else if op == 0x1a || op == 0x1b {
      st, next, instr := ExecuteSigned(f, program, cursor, op, state);
    } else if op != 0 {
      st := NotImplemented;
    }
  }

  /** One unfolding of a run, seen from the bytes. */
  lemma ExecuteStep(f: Factors, bytes: seq<byte>, loc: u64, target: u64, st: Rules, initial: Rules, i: Instr, len: nat)
    requires bytes != [] && Decode(bytes, f.addressSize) == Insn(i, len)
    ensures Execute(f, bytes, loc, target, st, initial)
         == if i.Moves() && Move(f, i, loc) > target then Outcome(Ok, st)
            else Execute(f, bytes[len..], Move(f, i, loc), target, Apply(f, i, st, initial), initial)
  {
    var p := Disassemble(bytes, f.addressSize);
    var q := Disassemble(bytes[len..], f.addressSize);
    assert p.code == [i] + q.code && p.code[1..] == q.code;
  }

  lemma EmptyProgram(addressSize: byte)
    ensures Disassemble([], addressSize) == Program([], Ok)
  {
  }

  lemma ExecuteEnd(f: Factors, bytes: seq<byte>, loc: u64, target: u64, st: Rules, initial: Rules, tail: Status)
    requires Disassemble(bytes, f.addressSize) == Program([], tail)
    ensures Execute(f, bytes, loc, target, st, initial) == Outcome(tail, st)
  {
  }

  /** `execute_cfi`. Both of its callers pass an initial state, here `initial`. */
  method ExecuteCfi(f: Factors, program: seq<byte>, pcBegin: u64, target: u64, state: CfaState, initial: Rules)
    returns (st: Status)
    requires state.Valid()
    modifies state, state.regs
    ensures state.Valid()
    ensures Outcome(st, state.View()) == Execute(f, program, pcBegin, target, old(state.View()), initial)
  {
    hide Execute, Disassemble, Decode, Move, Apply;
    var cursor, pcOffset: u64 := 0, 0;
    ghost var whole := Execute(f, program, pcBegin, target, state.View(), initial);
    assert program[0..] == program;
    while cursor < |program|
      invariant cursor <= |program| && state.Valid()
      invariant whole == Execute(f, program[cursor..], Wrap(pcBegin + pcOffset), target, state.View(), initial)
    {
      ghost var rest, loc, row := program[cursor..], Wrap(pcBegin + pcOffset), state.View();
      var next, moves;
      ghost var instr;
      st, next, pcOffset, moves, instr := ExecuteInstr(f, program, cursor, pcBegin, pcOffset, state, initial);
      if st != Ok {
        ExecuteEnd(f, rest, loc, target, row, initial, st);
        return;
      }
      ExecuteStep(f, rest, loc, target, row, initial, instr, next - cursor);
      MoveOrApply(f, instr, loc, row, initial);
      DropDrop(program, cursor, next - cursor);
      if moves && Wrap(pcBegin + pcOffset) > target {
        return Ok;
      }
      cursor := next;
    }
    assert program[cursor..] == [];
    EmptyProgram(f.addressSize);
    ExecuteEnd(f, [], Wrap(pcBegin + pcOffset), target, state.View(), initial, Ok);
    return Ok;
  }
}
