/** The MOV decoder of vm_monitor/vmx_instruction_decoding.c, against an encoder of the same instructions. */
module InstructionDecoder {
  import opened Arithmetic
  import opened Bytes
  import opened Options

  /** The context fields that a prefix byte sets. */
  datatype Flag =
    | Escape0 | Escape1 | Lock | Repnez | Rep | Cs | Ss | Ds | Es | Fs | Gs | OperandSize | AddressSize

  datatype Hint = MemoryToRegister | RegisterToMemory | ImmediateToMemory

  datatype Context = Context(
    length: nat,
    flags: set<Flag>,
    rex: Byte,
    opcode: Byte,
    hint: Hint,
    moderm: Byte,
    regIndex: nat,
    rmIndex: nat,
    accessSize: nat,
    immediate: nat)

  function FlagOf(b: Byte): Option<Flag> {
    match b
    case 0x0f => Some(Escape0)
    case 0x38 => Some(Escape1)
    case 0x3a => Some(Escape1)
    case 0xf0 => Some(Lock)
    case 0xf2 => Some(Repnez)
    case 0xf3 => Some(Rep)
    case 0x2e => Some(Cs)
    case 0x36 => Some(Ss)
    case 0x3e => Some(Ds)
    case 0x26 => Some(Es)
    case 0x64 => Some(Fs)
    case 0x65 => Some(Gs)
    case 0x66 => Some(OperandSize)
    case 0x67 => Some(AddressSize)
    case _ => None
  }

  /** The prefix bytes of a field, as the instruction format numbers them: segment overrides by segment register. */
  function PrefixBytes(f: Flag): set<Byte> {
    match f
    case Escape0 => {0x0f}
    case Escape1 => {0x38, 0x3a}
    case Lock => {0xf0}
    case Repnez => {0xf2}
    case Rep => {0xf3}
    case Es => {SegmentPrefix(0)}
    case Cs => {SegmentPrefix(1)}
    case Ss => {SegmentPrefix(2)}
    case Ds => {SegmentPrefix(3)}
    case Fs => {SegmentPrefix(4)}
    case Gs => {SegmentPrefix(5)}
    case OperandSize => {0x66}
    case AddressSize => {0x67}
  }

  /** ES, CS, SS, DS are 001ss110 in binary; FS and GS follow at 0x64. */
  function SegmentPrefix(segment: nat): Byte
    requires segment < 6
  {
    if segment < 4 then 0x26 + 8 * segment else 0x60 + segment
  }

  /** A byte sets exactly the field whose prefix it is. */
  lemma PrefixSetsItsField(b: Byte, f: Flag)
    ensures FlagOf(b) == Some(f) <==> b in PrefixBytes(f)
  {
  }

  predicate IsRex(b: Byte) {
    0x40 <= b <= 0x4f
  }

  /** Which opcodes are in the table, and what their operands are. */
  function HintOf(opcode: Byte): Option<Hint> {
    match opcode
    case 0xb6 => Some(MemoryToRegister)
    case 0xb7 => Some(MemoryToRegister)
    case 0xc6 => Some(ImmediateToMemory)
    case 0xc7 => Some(ImmediateToMemory)
    case 0x8a => Some(MemoryToRegister)
    case 0x8b => Some(MemoryToRegister)
    case 0x88 => Some(RegisterToMemory)
    case 0x89 => Some(RegisterToMemory)
    case _ => None
  }

  /** Bytes moved: fixed by the opcode, or by the operand-size prefix before REX.W. */
  function AccessSize(opcode: Byte, flags: set<Flag>, rex: Byte): nat {
    if opcode in {0x8a, 0x88, 0xc6, 0xb6} then 1
    else if opcode == 0xb7 then 2
    else if OperandSize in flags then 2
    else if rex / 8 % 2 == 1 then 8
    else 4
  }

  function ImmediateSize(opcode: Byte, flags: set<Flag>): nat {
    if opcode == 0xc6 then 1
    else if opcode != 0xc7 then 0
    else if OperandSize in flags then 2
    else 4
  }

  function RegIndex(moderm: Byte, rex: Byte): nat { moderm / 8 % 8 + rex / 4 % 2 * 8 }
  function RmIndex(moderm: Byte, rex: Byte): nat { moderm % 8 + rex % 2 * 8 }

  function FlagsIn(prefixes: seq<Byte>): set<Flag> {
    set b | b in prefixes && FlagOf(b).Some? :: FlagOf(b).value
  }

  /** An instruction of the grammar: prefixes, optional REX, table opcode, ModRM, immediate. */
  datatype Instruction = Instruction(prefixes: seq<Byte>, rex: Option<Byte>, opcode: Byte, moderm: Byte, immediate: nat) {
    function Flags(): set<Flag> {
      FlagsIn(prefixes)
    }

    function Rex(): Byte {
      if rex.Some? then rex.value else 0
    }

    predicate WellFormed() {
      && (forall b :: b in prefixes ==> FlagOf(b).Some?)
      && (rex.Some? ==> IsRex(rex.value))
      && HintOf(opcode).Some?
      && immediate < Power256(ImmediateSize(opcode, Flags()))
    }

    function Encode(): seq<Byte> {
      prefixes + (if rex.Some? then [rex.value] else []) + [opcode, moderm]
      + ToBytes(immediate, ImmediateSize(opcode, Flags()))
    }

    /** What decoding it should report. */
    function Meaning(): Context
      requires HintOf(opcode).Some?
    {
      Context(|Encode()|, Flags(), Rex(), opcode, HintOf(opcode).value, moderm,
              RegIndex(moderm, Rex()), RmIndex(moderm, Rex()), AccessSize(opcode, Flags(), Rex()), immediate)
    }
  }

  /** Bytes past the end of the stream read as 0; the decoder itself has no bound. */
  function At(stream: seq<Byte>, i: nat): Byte {
    if i < |stream| then stream[i] else 0
  }

  function Slice(stream: seq<Byte>, from: nat, n: nat): (s: seq<Byte>)
    ensures |s| == n && forall i :: 0 <= i < n ==> s[i] == At(stream, from + i)
    decreases n
  {
    if n == 0 then [] else [At(stream, from)] + Slice(stream, from + 1, n - 1)
  }

  /** How many prefix bytes the stream starts with. */
  function PrefixCount(stream: seq<Byte>): (n: nat)
    ensures n <= |stream| && forall i :: 0 <= i < n ==> FlagOf(stream[i]).Some?
    ensures FlagOf(At(stream, n)).None?
  {
    if stream != [] && FlagOf(stream[0]).Some? then 1 + PrefixCount(stream[1..]) else 0
  }

  /** The instruction at the front of a stream, if its opcode is in the table. */
  function Parse(stream: seq<Byte>): Option<Instruction> {
    var n := PrefixCount(stream);
    var hasRex := IsRex(At(stream, n));
    var at := if hasRex then n + 1 else n;
    var opcode := At(stream, at);
    if HintOf(opcode).None? then None
    else
      var flags := FlagsIn(stream[..n]);
      Some(Instruction(stream[..n], if hasRex then Some(At(stream, n)) else None, opcode, At(stream, at + 1),
                       LittleEndian(Slice(stream, at + 2, ImmediateSize(opcode, flags)))))
  }

  /** The prefix loop of decode_x86_64_instruction. */
  method ReadPrefixes(stream: seq<Byte>) returns (n: nat, flags: set<Flag>)
    ensures n == PrefixCount(stream) && flags == FlagsIn(stream[..n])
  {
    n, flags := 0, {};
    assert stream[0..] == stream;
    while n < |stream| && FlagOf(stream[n]).Some?
      invariant n <= |stream| && PrefixCount(stream) == n + PrefixCount(stream[n..])
      invariant flags == FlagsIn(stream[..n])
    {
      assert stream[n..][1..] == stream[n + 1..];
      assert stream[..n + 1] == stream[..n] + [stream[n]];
      flags := flags + {FlagOf(stream[n]).value};
      n := n + 1;
    }
  }

  /** The resolver functions that predefined_opcodes names. */
  datatype Resolver = Resolve8a | Resolve8b | ResolveC6 | ResolveC7 | ResolveB6 | ResolveB7

  datatype OpcodeDef = OpcodeDef(code: Byte, hint: Hint, resolver: Resolver)

  const PREDEFINED_OPCODES: seq<OpcodeDef> := [
    OpcodeDef(0xb6, MemoryToRegister, ResolveB6),
    OpcodeDef(0xb7, MemoryToRegister, ResolveB7),
    OpcodeDef(0xc6, ImmediateToMemory, ResolveC6),
    OpcodeDef(0xc7, ImmediateToMemory, ResolveC7),
    OpcodeDef(0x8a, MemoryToRegister, Resolve8a),
    OpcodeDef(0x8b, MemoryToRegister, Resolve8b),
    OpcodeDef(0x88, RegisterToMemory, Resolve8a),
    OpcodeDef(0x89, RegisterToMemory, Resolve8b)]

  /** The table scan: the entry for an opcode, if there is one. */
  method FindOpcode(opcode: Byte) returns (def: Option<OpcodeDef>)
    ensures def.None? <==> HintOf(opcode).None?
    ensures def.Some? ==> def.value in PREDEFINED_OPCODES && def.value.code == opcode && HintOf(opcode) == Some(def.value.hint)
  {
    var idx := 0;
    while idx < |PREDEFINED_OPCODES|
      invariant idx <= |PREDEFINED_OPCODES| && forall k :: 0 <= k < idx ==> PREDEFINED_OPCODES[k].code != opcode
    {
      if PREDEFINED_OPCODES[idx].code == opcode {
        return Some(PREDEFINED_OPCODES[idx]);
      }
      idx := idx + 1;
    }
    ScannedAll(opcode);
    return None;
  }

  lemma ScannedAll(opcode: Byte)
    requires forall k :: 0 <= k < |PREDEFINED_OPCODES| ==> PREDEFINED_OPCODES[k].code != opcode
    ensures HintOf(opcode).None?
  {
    var t := PREDEFINED_OPCODES;
    assert t[0].code != opcode && t[1].code != opcode && t[2].code != opcode && t[3].code != opcode;
    assert t[4].code != opcode && t[5].code != opcode && t[6].code != opcode && t[7].code != opcode;
  }

  /** What the resolvers make of the bytes from the ModRM byte on: access size, bytes used, immediate. */
  method Resolve(def: OpcodeDef, stream: seq<Byte>, at: nat, flags: set<Flag>, rex: Byte)
    returns (accessSize: nat, used: nat, immediate: nat)
    requires def in PREDEFINED_OPCODES
    ensures accessSize == AccessSize(def.code, flags, rex) && used == 1 + ImmediateSize(def.code, flags)
    ensures immediate == LittleEndian(Slice(stream, at + 1, ImmediateSize(def.code, flags)))
  {
    immediate := 0;
    match def.resolver {
      case Resolve8a => accessSize, used := 1, 1;
      case ResolveB6 => accessSize, used := 1, 1;
      case ResolveB7 => accessSize, used := 2, 1;
      case Resolve8b =>
        used := 1;
        accessSize := if OperandSize in flags then 2 else if rex / 8 % 2 == 1 then 8 else 4;
      case ResolveC6 =>
        accessSize, used := 1, 2;
        immediate := LittleEndian(Slice(stream, at + 1, 1));
      case ResolveC7 =>
        if OperandSize in flags {
          accessSize, used := 2, 3;
          immediate := LittleEndian(Slice(stream, at + 1, 2));
        } else if rex / 8 % 2 == 1 {
          accessSize, used := 8, 5;
          immediate := LittleEndian(Slice(stream, at + 1, 4));
        } else {
          accessSize, used := 4, 5;
          immediate := LittleEndian(Slice(stream, at + 1, 4));
        }
    }
  }

  /** decode_x86_64_instruction; None is its final assertion. */
  method Decode(stream: seq<Byte>) returns (context: Option<Context>)
    ensures context.Some? <==> Parse(stream).Some?
    ensures context.Some? ==> context.value == Parse(stream).value.Meaning()
  {
    var n, flags := ReadPrefixes(stream);
    var at, rex := n, 0;
    if IsRex(At(stream, at)) {
      rex := At(stream, at);
      at := at + 1;
    }
    var opcode := At(stream, at);
    var def := FindOpcode(opcode);
    if def.None? {
      return None;
    }
    var moderm := At(stream, at + 1);
    var accessSize, used, immediate := Resolve(def.value, stream, at + 1, flags, rex);
    context := Some(Context(at + 1 + used, flags, rex, opcode, def.value.hint, moderm,
                            RegIndex(moderm, rex), RmIndex(moderm, rex), accessSize, immediate));
  }

  /** A field is set exactly if one of its prefix bytes is there. */
  lemma FlagSetIff(prefixes: seq<Byte>, f: Flag)
    ensures f in FlagsIn(prefixes) <==> exists i :: 0 <= i < |prefixes| && prefixes[i] in PrefixBytes(f)
  {
    if f in FlagsIn(prefixes) {
      var b :| b in prefixes && FlagOf(b).Some? && FlagOf(b).value == f;
      PrefixSetsItsField(b, f);
      var i :| 0 <= i < |prefixes| && prefixes[i] == b;
    }
    if i :| 0 <= i < |prefixes| && prefixes[i] in PrefixBytes(f) {
      PrefixSetsItsField(prefixes[i], f);
      assert prefixes[i] in prefixes;
    }
  }

  /**
  What is reported about a stream, byte by byte: the fields of the leading prefixes, then REX if there is
  one, opcode, ModRM and immediate, and the length ends after the immediate.
  */
  lemma ReportedBytes(stream: seq<Byte>)
    requires Parse(stream).Some?
    ensures var c := Parse(stream).value.Meaning();
            var n := PrefixCount(stream);
            var at := if IsRex(At(stream, n)) then n + 1 else n;
            && c.flags == FlagsIn(stream[..n])
            && c.rex == (if at > n then At(stream, n) else 0)
            && c.opcode == At(stream, at) && c.moderm == At(stream, at + 1)
            && at + 2 <= c.length && c.immediate == LittleEndian(Slice(stream, at + 2, c.length - at - 2))
  {
    var i := Parse(stream).value;
    assert |i.Encode()| == |i.prefixes| + (if i.rex.Some? then 1 else 0) + 2 + ImmediateSize(i.opcode, i.Flags());
  }

  /** With both an operand-size prefix and REX.W the decoder reports two bytes; a processor moves eight. */
  lemma OperandSizeWinsOverRexW(i: Instruction)
    requires i.WellFormed() && OperandSize in i.Flags() && i.Rex() / 8 % 2 == 1 && i.opcode in {0x8b, 0x89, 0xc7}
    ensures i.Meaning().accessSize == 2
  {
  }

  lemma {:induction false} PrefixesEnd(prefixes: seq<Byte>, rest: seq<Byte>)
    requires forall b :: b in prefixes ==> FlagOf(b).Some?
    requires rest != [] && FlagOf(rest[0]).None?
    ensures PrefixCount(prefixes + rest) == |prefixes|
  {
    if prefixes != [] {
      PrefixesEnd(prefixes[1..], rest);
      assert (prefixes + rest)[1..] == prefixes[1..] + rest;
    } else {
      assert prefixes + rest == rest;
    }
  }

  /** Prefixes, REX bytes and table opcodes are told apart by value. */
  lemma KindsDisjoint(b: Byte)
    ensures IsRex(b) ==> FlagOf(b).None? && HintOf(b).None?
    ensures HintOf(b).Some? ==> FlagOf(b).None?
  {
  }

  lemma ImmediateAt(stream: seq<Byte>, head: seq<Byte>, imm: seq<Byte>, rest: seq<Byte>)
    requires stream == head + imm + rest
    ensures Slice(stream, |head|, |imm|) == imm
  {
  }

  /** Decoding inverts encoding, whatever bytes follow. */
  lemma DecodeEncode(i: Instruction, rest: seq<Byte>)
    requires i.WellFormed()
    ensures Parse(i.Encode() + rest) == Some(i)
  {
    var stream := i.Encode() + rest;
    var rexBytes: seq<Byte> := if i.rex.Some? then [i.rex.value] else [];
    var size := ImmediateSize(i.opcode, i.Flags());
    var imm := ToBytes(i.immediate, size);
    var tail := rexBytes + [i.opcode, i.moderm] + imm + rest;
    assert stream == i.prefixes + tail;
    KindsDisjoint(tail[0]);
    KindsDisjoint(i.opcode);
    PrefixesEnd(i.prefixes, tail);
    var n, at := |i.prefixes|, |i.prefixes| + |rexBytes|;
    assert stream[..n] == i.prefixes;
    assert At(stream, n) == tail[0] && At(stream, at) == i.opcode && At(stream, at + 1) == i.moderm;
    ImmediateAt(stream, i.prefixes + rexBytes + [i.opcode, i.moderm], imm, rest);
    BytesRoundTrip(i.immediate, size);
  }

  /** Whatever decodes is an encoding: the bytes up to the reported length are those of the instruction. */
  lemma EncodeDecode(stream: seq<Byte>)
    requires Parse(stream).Some?
    ensures var i := Parse(stream).value;
            i.WellFormed() && Slice(stream, 0, |i.Encode()|) == i.Encode() && i.Meaning().length == |i.Encode()|
  {
    var i := Parse(stream).value;
    var n := PrefixCount(stream);
    var size := ImmediateSize(i.opcode, i.Flags());
    var at := if i.rex.Some? then n + 1 else n;
    NumberRoundTrip(Slice(stream, at + 2, size));
    var imm := Slice(stream, at + 2, size);
    var rexBytes: seq<Byte> := if i.rex.Some? then [i.rex.value] else [];
    assert i.Encode() == stream[..n] + rexBytes + [i.opcode, i.moderm] + imm;
    EncodedBytes(stream, n, rexBytes, i.opcode, i.moderm, imm);
  }

  lemma EncodedBytes(stream: seq<Byte>, n: nat, rexBytes: seq<Byte>, opcode: Byte, moderm: Byte, imm: seq<Byte>)
    requires n <= |stream| && |rexBytes| <= 1 && (|rexBytes| == 1 ==> rexBytes[0] == At(stream, n))
    requires var at := n + |rexBytes|;
             opcode == At(stream, at) && moderm == At(stream, at + 1) && imm == Slice(stream, at + 2, |imm|)
    ensures var code := stream[..n] + rexBytes + [opcode, moderm] + imm;
            Slice(stream, 0, |code|) == code
  {
    var at := n + |rexBytes|;
    var code := stream[..n] + rexBytes + [opcode, moderm] + imm;
    forall k | 0 <= k < |code| ensures code[k] == At(stream, k) {
      if k >= at + 2 {
        assert code[k] == imm[k - at - 2];
      }
    }
  }

  /** The order of the prefixes does not matter. */
  lemma PrefixOrderIrrelevant(i: Instruction, shuffled: seq<Byte>)
    requires i.WellFormed() && multiset(shuffled) == multiset(i.prefixes)
    ensures var j := i.(prefixes := shuffled);
            j.WellFormed() && j.Meaning() == i.Meaning()
  {
    forall b ensures b in shuffled <==> b in i.prefixes {
      assert b in shuffled <==> b in multiset(shuffled);
      assert b in i.prefixes <==> b in multiset(i.prefixes);
    }
    assert FlagsIn(shuffled) == FlagsIn(i.prefixes);
    assert |multiset(shuffled)| == |shuffled| && |multiset(i.prefixes)| == |i.prefixes|;
  }

  /** A register number's top bit, which goes into REX, and its low three, which go into ModRM. */
  function HighBit(r: nat): nat
    requires r < 16
  {
    if r < 8 then 0 else 1
  }

  function LowBits(r: nat): nat
    requires r < 16
  {
    if r < 8 then r else r - 8
  }

  /** The ModRM byte and REX bits that name two of the sixteen registers. */
  function ModermFor(mod: nat, reg: nat, rm: nat): Byte
    requires mod < 4 && reg < 16 && rm < 16
  {
    64 * mod + 8 * LowBits(reg) + LowBits(rm)
  }

  function RexFor(w: nat, x: nat, reg: nat, rm: nat): Byte
    requires w < 2 && x < 2 && reg < 16 && rm < 16
  {
    0x40 + 8 * w + 4 * HighBit(reg) + 2 * x + HighBit(rm)
  }

  /** The sixteen register numbers all come back. */
  lemma RegistersRecovered(w: nat, x: nat, mod: nat, reg: nat, rm: nat)
    requires w < 2 && x < 2 && mod < 4 && reg < 16 && rm < 16
    ensures IsRex(RexFor(w, x, reg, rm))
    ensures RegIndex(ModermFor(mod, reg, rm), RexFor(w, x, reg, rm)) == reg
    ensures RmIndex(ModermFor(mod, reg, rm), RexFor(w, x, reg, rm)) == rm
  {
    var rex, moderm := RexFor(w, x, reg, rm), ModermFor(mod, reg, rm);
    DivisionOf(rex, 4, 0x10 + 2 * w + HighBit(reg), 2 * x + HighBit(rm));
    DivisionOf(0x10 + 2 * w + HighBit(reg), 2, 8 + w, HighBit(reg));
    DivisionOf(rex, 2, 0x20 + 4 * w + 2 * HighBit(reg) + x, HighBit(rm));
    DivisionOf(moderm, 8, 8 * mod + LowBits(reg), LowBits(rm));
    DivisionOf(8 * mod + LowBits(reg), 8, mod, LowBits(reg));
  }

  // An assembler for moves between a register and memory at the address in another register. It picks
  // opcode, prefixes and REX as the instruction format has them: REX right before the opcode or its escape.

  /** Load, store and store-immediate, and MOVZX, which widens a byte or a word to `width` bytes. */
  datatype Operation = Load | LoadZeroExtended(width: nat) | Store | StoreImmediate {
    function Direction(): Hint {
      match this
      case Load => MemoryToRegister
      case LoadZeroExtended(_) => MemoryToRegister
      case Store => RegisterToMemory
      case StoreImmediate => ImmediateToMemory
    }
  }

  /** `size` bytes of memory at the address in register `rm`, and register `reg` or an immediate. */
  datatype Move = Move(op: Operation, size: nat, reg: nat, rm: nat, immediate: nat) {
    predicate Valid() {
      && (if op.LoadZeroExtended? then size in {1, 2} && op.width in {2, 4, 8} && size < op.width else size in {1, 2, 4, 8})
      && reg < 16 && (op.StoreImmediate? ==> reg == 0)
      && rm < 16 && LowBits(rm) != 4 && LowBits(rm) != 5  // these take a SIB byte or a displacement
      && immediate < Power256(ImmediateBytes())
    }

    /** An 8-byte store takes a 4-byte immediate. */
    function ImmediateBytes(): nat {
      if !op.StoreImmediate? then 0 else if size == 8 then 4 else size
    }

    function Opcode(): Byte {
      match op
      case Load => if size == 1 then 0x8a else 0x8b
      case LoadZeroExtended(_) => if size == 1 then 0xb6 else 0xb7
      case Store => if size == 1 then 0x88 else 0x89
      case StoreImmediate => if size == 1 then 0xc6 else 0xc7
    }

    /** The width of the operand that the operand-size prefix and REX.W are about. */
    function OperandWidth(): nat {
      if op.LoadZeroExtended? then op.width else size
    }

    function Legacy(): (prefixes: seq<Byte>)
      ensures prefixes == [] || prefixes == [0x66]
    {
      if OperandWidth() == 2 then [0x66] else []
    }

    function Escape(): seq<Byte> {
      if op.LoadZeroExtended? then [0x0f] else []
    }

    /** A wide operand, a high register or one of the byte registers SPL, BPL, SIL and DIL. */
    predicate NeedsRex() {
      OperandWidth() == 8 || reg >= 8 || rm >= 8 || (size == 1 && (op.Load? || op.Store?) && 4 <= reg < 8)
    }

    function RexByte(): Byte
      requires Valid()
    {
      RexFor(if OperandWidth() == 8 then 1 else 0, 0, reg, rm)
    }

    function Moderm(): Byte
      requires Valid()
    {
      ModermFor(0, reg, rm)
    }

    function Tail(): seq<Byte>
      requires Valid()
    {
      [Opcode(), Moderm()] + ToBytes(immediate, ImmediateBytes())
    }

    function Assemble(): seq<Byte>
      requires Valid()
    {
      Legacy() + (if NeedsRex() then [RexByte()] else []) + Escape() + Tail()
    }

    /** REX before an opcode escape. */
    predicate RexBeforeEscape() {
      op.LoadZeroExtended? && NeedsRex()
    }

    /** The instruction in the decoder's grammar, where REX follows every other prefix. */
    function Encoding(): Instruction
      requires Valid() && !RexBeforeEscape()
    {
      Instruction(Legacy() + Escape(), if NeedsRex() then Some(RexByte()) else None, Opcode(), Moderm(), immediate)
    }
  }

  lemma MoveFlags(m: Move)
    requires m.Valid()
    ensures OperandSize in FlagsIn(m.Legacy() + m.Escape()) <==> m.OperandWidth() == 2
    ensures forall b :: b in m.Legacy() + m.Escape() ==> FlagOf(b).Some?
  {
    if m.OperandWidth() == 2 {
      assert 0x66 in m.Legacy() + m.Escape();
    }
  }

  lemma RexBits(w: nat, reg: nat, rm: nat)
    requires w < 2 && reg < 16 && rm < 16
    ensures IsRex(RexFor(w, 0, reg, rm)) && RexFor(w, 0, reg, rm) / 8 % 2 == w
  {
    DivisionOf(RexFor(w, 0, reg, rm), 8, 8 + w, 4 * HighBit(reg) + HighBit(rm));
    DivisionOf(8 + w, 2, 4, w);
  }

  lemma LowRegistersRecovered(reg: nat, rm: nat)
    requires reg < 8 && rm < 8
    ensures RegIndex(ModermFor(0, reg, rm), 0) == reg && RmIndex(ModermFor(0, reg, rm), 0) == rm
  {
    DivisionOf(ModermFor(0, reg, rm), 8, reg, rm);
    DivisionOf(reg, 8, 0, reg);
  }

  lemma EncodingOfMove(m: Move)
    requires m.Valid() && !m.RexBeforeEscape()
    ensures m.Encoding().WellFormed() && m.Encoding().Encode() == m.Assemble()
  {
    MoveFlags(m);
    RexBits(if m.OperandWidth() == 8 then 1 else 0, m.reg, m.rm);
    assert ImmediateSize(m.Opcode(), m.Encoding().Flags()) == m.ImmediateBytes();
  }

  lemma RexOfMove(m: Move)
    requires m.Valid() && !m.RexBeforeEscape()
    ensures m.Encoding().Rex() / 8 % 2 == 1 <==> m.OperandWidth() == 8
    ensures RegIndex(m.Moderm(), m.Encoding().Rex()) == m.reg && RmIndex(m.Moderm(), m.Encoding().Rex()) == m.rm
  {
    var w := if m.OperandWidth() == 8 then 1 else 0;
    if m.NeedsRex() {
      assert m.Encoding().Rex() == RexFor(w, 0, m.reg, m.rm);
      RexBits(w, m.reg, m.rm);
      RegistersRecovered(w, 0, 0, m.reg, m.rm);
    } else {
      assert m.Encoding().Rex() == 0;
      LowRegistersRecovered(m.reg, m.rm);
    }
  }

  /**
  An assembled move decodes exactly unless it is a MOVZX that needs a REX byte: to eight bytes, or with a
  register numbered 8 or above. What decodes reports its direction, size, registers, immediate and length.
  */
  lemma DecodedMoveIff(m: Move, rest: seq<Byte>)
    requires m.Valid()
    ensures Parse(m.Assemble() + rest).Some? <==>
            !m.op.LoadZeroExtended? || (m.op.width != 8 && m.reg < 8 && m.rm < 8)
    ensures Parse(m.Assemble() + rest).Some? ==>
              var c := Parse(m.Assemble() + rest).value.Meaning();
              && c.hint == m.op.Direction() && c.accessSize == m.size && c.length == |m.Assemble()|
              && c.regIndex == m.reg && c.rmIndex == m.rm && c.immediate == m.immediate
  {
    if m.RexBeforeEscape() {
      WideMovzxNotDecoded(m, rest);
    } else {
      EncodingOfMove(m);
      DecodeEncode(m.Encoding(), rest);
      MoveFlags(m);
      RexOfMove(m);
    }
  }

  /** After a REX byte the escape is looked up as an opcode, and is none: no such stream decodes. */
  lemma EscapeTakenForOpcode(prefixes: seq<Byte>, rex: Byte, rest: seq<Byte>)
    requires (forall b :: b in prefixes ==> FlagOf(b).Some?) && IsRex(rex)
    ensures Parse(prefixes + [rex, 0x0f] + rest).None?
  {
    var tail := [rex, 0x0f] + rest;
    var stream := prefixes + [rex, 0x0f] + rest;
    assert stream == prefixes + tail;
    KindsDisjoint(rex);
    PrefixesEnd(prefixes, tail);
    assert At(stream, |prefixes|) == tail[0] && At(stream, |prefixes| + 1) == tail[1];
  }

  lemma WideMovzxNotDecoded(m: Move, rest: seq<Byte>)
    requires m.Valid() && m.RexBeforeEscape()
    ensures Parse(m.Assemble() + rest).None?
  {
    RexBits(if m.OperandWidth() == 8 then 1 else 0, m.reg, m.rm);
    EscapeTakenForOpcode(m.Legacy(), m.RexByte(), m.Tail() + rest);
    assert m.Assemble() + rest == m.Legacy() + [m.RexByte(), 0x0f] + (m.Tail() + rest);
  }

  /** The bytes of such a MOVZX, when it needs no operand-size prefix. */
  lemma MovzxBytes(m: Move)
    requires m.Valid() && m.RexBeforeEscape() && m.OperandWidth() != 2
    ensures m.Assemble() == [RexFor(if m.op.width == 8 then 1 else 0, 0, m.reg, m.rm), 0x0f, m.Opcode(), ModermFor(0, m.reg, m.rm)]
  {
    assert ToBytes(m.immediate, m.ImmediateBytes()) == [];
  }

  /** MOVZX into R8D from the byte at the address in RAX is 44 0F B6 00, one that does not decode. */
  lemma MovzxToHighRegister(m: Move)
    requires m.Valid() && m.op == LoadZeroExtended(4) && m.size == 1 && m.reg == 8 && m.rm == 0
    ensures m.RexBeforeEscape() && m.Assemble() == [0x44, 0x0f, 0xb6, 0x00]
  {
    MovzxBytes(m);
  }

  /** A displacement byte is not counted: the three-byte load from 8 past RBX is reported as two bytes long. */
  lemma DisplacementNotCounted()
    ensures Parse([0x8b, 0x43, 0x08]).Some? && Parse([0x8b, 0x43, 0x08]).value.Meaning().length == 2
  {
    var i := Instruction([], None, 0x8b, 0x43, 0);
    assert i.Encode() == [0x8b, 0x43];
    DecodeEncode(i, [0x08]);
    assert i.Encode() + [0x08] == [0x8b, 0x43, 0x08];
  }
}
