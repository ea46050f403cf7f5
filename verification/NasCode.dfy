/** The assembler's instructions: the table they are looked up in, their bytes, and a decoder
    that shows the bytes determine them. */
module NasCode {
  import opened Memory

  type byte = b: int | 0 <= b < 256
  type word = w: int | 0 <= w < 0x1_0000

  const I_COUNT: nat := 54
  const R_BX: nat := 4
  const NOT_FOUND: nat := 0xFF  // ERROR_NOT_FOUND in a byte

  datatype OType = ANY | RW | RMW | MW | IW

  datatype Idata = Idata(mnemonic: string, opcode: byte, nops: nat, types: seq<OType>, values: seq<nat>)

  /** The table of instructions. */
  function Info(id: nat): (d: Idata)
    requires id < I_COUNT
    ensures d.nops <= |d.types| == |d.values| == 2
  {
    match id
    case 0 => Idata("push", 0x50, 1, [RW, ANY], [0, 0])  // I_PUSH
    case 1 => Idata("pop", 0x58, 1, [RW, ANY], [0, 0])  // I_POP
    case 2 => Idata("mov", 0xB8, 2, [RW, IW], [0, 0])  // I_MOV_RIW
    case 3 => Idata("mov", 0x89, 2, [RW, RW], [0, 0])  // I_MOV_RRW
    case 4 => Idata("mov", 0x8B, 2, [RW, MW], [0, 0])  // I_MOV_RMW
    case 5 => Idata("mov", 0x89, 2, [MW, RW], [0, 0])  // I_MOV_MRW
    case 6 => Idata("mov", 0x8B, 2, [RW, RMW], [0, 4])  // I_MOV_RRMW
    case 7 => Idata("mov", 0x89, 2, [RMW, RW], [4, 0])  // I_MOV_RMRW
    case 8 => Idata("cmp", 0x81, 2, [RW, IW], [0, 0])  // I_CMP_RIW
    case 9 => Idata("cmp", 0x39, 2, [RW, RW], [0, 0])  // I_CMP_RRW
    case 10 => Idata("cmp", 0x3B, 2, [RW, MW], [0, 0])  // I_CMP_RMW
    case 11 => Idata("cmp", 0x39, 2, [MW, RW], [0, 0])  // I_CMP_MRW
    case 12 => Idata("cmp", 0x3B, 2, [RW, RMW], [0, 4])  // I_CMP_RRMW
    case 13 => Idata("cmp", 0x39, 2, [RMW, RW], [4, 0])  // I_CMP_RMRW
    case 14 => Idata("ret", 0xC3, 0, [ANY, ANY], [0, 0])  // I_RET
    case 15 => Idata("retf", 0xCB, 0, [ANY, ANY], [0, 0])  // I_RETF
    case 16 => Idata("int", 0xCD, 1, [IW, ANY], [0, 0])  // I_INT
    case 17 => Idata("call", 0xE8, 1, [IW, ANY], [0, 0])  // I_CALL
    case 18 => Idata("jmp", 0xE9, 1, [IW, ANY], [0, 0])  // I_JMP
    case 19 => Idata("je", 0x74, 1, [IW, ANY], [0, 0])  // I_JE
    case 20 => Idata("jne", 0x75, 1, [IW, ANY], [0, 0])  // I_JNE
    case 21 => Idata("jg", 0x7F, 1, [IW, ANY], [0, 0])  // I_JG
    case 22 => Idata("jge", 0x7D, 1, [IW, ANY], [0, 0])  // I_JGE
    case 23 => Idata("jl", 0x7C, 1, [IW, ANY], [0, 0])  // I_JL
    case 24 => Idata("jle", 0x7E, 1, [IW, ANY], [0, 0])  // I_JLE
    case 25 => Idata("jc", 0x72, 1, [IW, ANY], [0, 0])  // I_JC
    case 26 => Idata("jnc", 0x73, 1, [IW, ANY], [0, 0])  // I_JNC
    case 27 => Idata("add", 0x81, 2, [RW, IW], [0, 0])  // I_ADD_RIW
    case 28 => Idata("add", 0x01, 2, [RW, RW], [0, 0])  // I_ADD_RRW
    case 29 => Idata("add", 0x03, 2, [RW, MW], [0, 0])  // I_ADD_RMW
    case 30 => Idata("add", 0x01, 2, [MW, RW], [0, 0])  // I_ADD_MRW
    case 31 => Idata("add", 0x03, 2, [RW, RMW], [0, 4])  // I_ADD_RRMW
    case 32 => Idata("add", 0x01, 2, [RMW, RW], [4, 0])  // I_ADD_RMRW
    case 33 => Idata("sub", 0x81, 2, [RW, IW], [0, 0])  // I_SUB_RIW
    case 34 => Idata("sub", 0x29, 2, [RW, RW], [0, 0])  // I_SUB_RRW
    case 35 => Idata("sub", 0x2B, 2, [RW, MW], [0, 0])  // I_SUB_RMW
    case 36 => Idata("sub", 0x29, 2, [MW, RW], [0, 0])  // I_SUB_MRW
    case 37 => Idata("sub", 0x2B, 2, [RW, RMW], [0, 4])  // I_SUB_RRMW
    case 38 => Idata("sub", 0x29, 2, [RMW, RW], [4, 0])  // I_SUB_RMRW
    case 39 => Idata("mul", 0xF7, 2, [RW, ANY], [0, 0])  // I_MUL_RW
    case 40 => Idata("div", 0xF7, 2, [RW, ANY], [0, 0])  // I_DIV_RW
    case 41 => Idata("not", 0xF7, 2, [RW, ANY], [0, 0])  // I_NOT_RW
    case 42 => Idata("and", 0x81, 2, [RW, IW], [0, 0])  // I_AND_RIW
    case 43 => Idata("and", 0x21, 2, [RW, RW], [0, 0])  // I_AND_RRW
    case 44 => Idata("and", 0x23, 2, [RW, MW], [0, 0])  // I_AND_RMW
    case 45 => Idata("and", 0x21, 2, [MW, RW], [0, 0])  // I_AND_MRW
    case 46 => Idata("and", 0x23, 2, [RW, RMW], [0, 4])  // I_AND_RRMW
    case 47 => Idata("and", 0x21, 2, [RMW, RW], [4, 0])  // I_AND_RMRW
    case 48 => Idata("or", 0x81, 2, [RW, IW], [0, 0])  // I_OR_RIW
    case 49 => Idata("or", 0x09, 2, [RW, RW], [0, 0])  // I_OR_RRW
    case 50 => Idata("or", 0x0B, 2, [RW, MW], [0, 0])  // I_OR_RMW
    case 51 => Idata("or", 0x09, 2, [MW, RW], [0, 0])  // I_OR_MRW
    case 52 => Idata("or", 0x0B, 2, [RW, RMW], [0, 4])  // I_OR_RRMW
    case _ => Idata("or", 0x09, 2, [RMW, RW], [4, 0])  // I_OR_RMRW
  }

  /** How an instruction is laid out; the number is the operation in the second byte. */
  datatype Form =
    | Plain | InOpcode | Byte | Short | Near | Load
    | Immediate(ext: nat) | Unary(ext: nat)
    | RegReg | FromMemory | ToMemory | FromPointer | ToPointer

  function FormOf(id: nat): Form
    requires id < I_COUNT
  {
    match id
    case 0 => InOpcode
    case 1 => InOpcode
    case 2 => Load
    case 3 => RegReg
    case 4 => FromMemory
    case 5 => ToMemory
    case 6 => FromPointer
    case 7 => ToPointer
    case 8 => Immediate(7)
    case 9 => RegReg
    case 10 => FromMemory
    case 11 => ToMemory
    case 12 => FromPointer
    case 13 => ToPointer
    case 14 => Plain
    case 15 => Plain
    case 16 => Byte
    case 17 => Near
    case 18 => Near
    case 19 => Short
    case 20 => Short
    case 21 => Short
    case 22 => Short
    case 23 => Short
    case 24 => Short
    case 25 => Short
    case 26 => Short
    case 27 => Immediate(0)
    case 28 => RegReg
    case 29 => FromMemory
    case 30 => ToMemory
    case 31 => FromPointer
    case 32 => ToPointer
    case 33 => Immediate(5)
    case 34 => RegReg
    case 35 => FromMemory
    case 36 => ToMemory
    case 37 => FromPointer
    case 38 => ToPointer
    case 39 => Unary(4)
    case 40 => Unary(6)
    case 41 => Unary(2)
    case 42 => Immediate(4)
    case 43 => RegReg
    case 44 => FromMemory
    case 45 => ToMemory
    case 46 => FromPointer
    case 47 => ToPointer
    case 48 => Immediate(1)
    case 49 => RegReg
    case 50 => FromMemory
    case 51 => ToMemory
    case 52 => FromPointer
    case _ => ToPointer
  }

  // ----- encoding

  /** An instruction with its operands: register numbers or 16-bit values. */
  datatype Ins = Ins(id: nat, a: word, b: word)

  function RegCode(r: nat): nat { if r == 0 then 0 else r - 1 }

  /** Distance from an offset to a target, in 16 bits. */
  function Distance(target: word, origin: word, offset: nat): (d: word) {
    (target - origin - offset) % 0x1_0000
  }

  /** Operands that name registers are in the register table. */
  predicate RegsOk(i: Ins) {
    i.id < I_COUNT &&
    match FormOf(i.id)
    case InOpcode => i.a <= 8
    case Load => i.a <= 8
    case Immediate(_) => i.a <= 8
    case Unary(_) => i.a <= 8
    case FromMemory => i.a <= 8
    case FromPointer => i.a <= 8
    case ToMemory => i.b <= 8
    case ToPointer => i.b <= 8
    case RegReg => i.a <= 8 && i.b <= 8
    case _ => true
  }

  function Length(id: nat): (n: nat)
    requires id < I_COUNT
    ensures 1 <= n <= 4
  {
    match FormOf(id)
    case Plain => 1
    case InOpcode => 1
    case Near => 3
    case Load => 3
    case Immediate(_) => 4
    case FromMemory => 4
    case ToMemory => 4
    case _ => 2
  }

  function OpcodeOf(id: nat): byte
    requires id < I_COUNT
  {
    Info(id).opcode
  }

  /** The second byte of an instruction: three fields without a bit in common. */
  function ModRm(mode: nat, mid: nat, low: nat): (b: byte)
    requires mode + 8 * mid + low < 256
  {
    mode + 8 * mid + low
  }

  function Lo(w: word): byte { w % 256 }
  function Hi(w: word): byte { w / 256 }

  predicate OpcodeRoom(id: nat) {
    && id < I_COUNT
    && (FormOf(id) == InOpcode || FormOf(id) == Load ==> Info(id).opcode < 0xF8 && Info(id).opcode % 8 == 0)
    && (match FormOf(id) case Immediate(e) => e < 8 case Unary(e) => e < 8 case _ => true)
  }

  lemma Rooms(id: nat)
    requires id < I_COUNT
    ensures OpcodeRoom(id)
  {
  }

  /** The bytes of an instruction at an offset. The two bytes of a near jump are measured from
      different offsets. */
  function Encoding(i: Ins, at: nat, origin: word): (s: seq<byte>)
    requires RegsOk(i)
    ensures |s| == Length(i.id)
  {
    Rooms(i.id);
    var op, ra, rb := OpcodeOf(i.id), RegCode(i.a), RegCode(i.b);
    match FormOf(i.id)
    case Plain => [op]
    case InOpcode => [op + ra]
    case Byte => [op, Lo(i.a)]
    case Short => [op, Lo(Distance(i.a, origin, at + 2))]
    case Near => [op, Lo(Distance(i.a, origin, at + 3)), Hi(Distance(i.a, origin, at + 4))]
    case Load => [op + ra, Lo(i.b), Hi(i.b)]
    case Immediate(e) => [op, ModRm(0xC0, e, ra), Lo(i.b), Hi(i.b)]
    case Unary(e) => [op, ModRm(0xC0, e, ra)]
    case RegReg => [op, ModRm(0xC0, rb, ra)]
    case FromMemory => [op, ModRm(6, ra, 0), Lo(i.b), Hi(i.b)]
    case ToMemory => [op, ModRm(6, rb, 0), Lo(i.a), Hi(i.a)]
    case FromPointer => [op, ModRm(7, ra, 0)]
    case ToPointer => [op, ModRm(7, rb, 0)]
  }

  // ----- decoding

  /** The instruction with this first byte, and second byte or 0. */
  function IdOf(b: byte, c: byte): nat {
    if b / 8 == 0x50 / 8 then 0 else if b / 8 == 0x58 / 8 then 1 else if b / 8 == 0xB8 / 8 then 2
    else if b == 0xC3 then 14 else if b == 0xCB then 15 else if b == 0xCD then 16
    else if b == 0xE8 then 17 else if b == 0xE9 then 18
    else if b == 0x74 then 19 else if b == 0x75 then 20 else if b == 0x7F then 21 else if b == 0x7D then 22
    else if b == 0x7C then 23 else if b == 0x7E then 24 else if b == 0x72 then 25 else if b == 0x73 then 26
    else if b == 0x81 then
      (if c / 8 % 8 == 7 then 8 else if c / 8 % 8 == 0 then 27 else if c / 8 % 8 == 5 then 33
       else if c / 8 % 8 == 4 then 42 else if c / 8 % 8 == 1 then 48 else NOT_FOUND)
    else if b == 0xF7 then
      (if c / 8 % 8 == 4 then 39 else if c / 8 % 8 == 6 then 40 else if c / 8 % 8 == 2 then 41 else NOT_FOUND)
    else if b == 0x89 then Stored(c, 3) else if b == 0x8B then Loaded(c, 3)
    else if b == 0x39 then Stored(c, 9) else if b == 0x3B then Loaded(c, 9)
    else if b == 0x01 then Stored(c, 28) else if b == 0x03 then Loaded(c, 28)
    else if b == 0x29 then Stored(c, 34) else if b == 0x2B then Loaded(c, 34)
    else if b == 0x21 then Stored(c, 43) else if b == 0x23 then Loaded(c, 43)
    else if b == 0x09 then Stored(c, 49) else if b == 0x0B then Loaded(c, 49)
    else NOT_FOUND
  }

  /** Among the six forms of an operation, of which number rr is register to register. */
  function Stored(c: byte, rr: nat): nat {
    if c >= 0xC0 then rr else if c % 8 == 6 then rr + 2 else if c % 8 == 7 then rr + 4 else NOT_FOUND
  }

  function Loaded(c: byte, rr: nat): nat {
    if c % 8 == 6 then rr + 1 else if c % 8 == 7 then rr + 3 else NOT_FOUND
  }

  function Word(lo: byte, hi: byte): word { lo + 256 * hi }

  /** A byte as a signed distance. */
  function Signed(b: byte): int { if b < 128 then b else b - 256 }

  function Reg(code: nat): nat { code % 8 + 1 }

  /** The instruction at the start of s, given the offset of s. */
  function Decode(s: seq<byte>, at: nat, origin: word): (i: Ins)
  {
    var b := if |s| > 0 then s[0] else 0;
    var c := if |s| > 1 then s[1] else 0;
    var id := IdOf(b, c);
    if |s| == 0 || id >= I_COUNT || |s| < Length(id) then Ins(NOT_FOUND, 0, 0) else
    match FormOf(id)
    case Plain => Ins(id, 0, 0)
    case InOpcode => Ins(id, Reg(b), 0)
    case Byte => Ins(id, c, 0)
    case Short => Ins(id, (origin + at + 2 + Signed(c)) % 0x1_0000, 0)
    case Near => Ins(id, (origin + at + 3 + Word(c, s[2])) % 0x1_0000, 0)
    case Load => Ins(id, Reg(b), Word(s[1], s[2]))
    case Immediate(_) => Ins(id, Reg(c), Word(s[2], s[3]))
    case Unary(_) => Ins(id, Reg(c), 0)
    case RegReg => Ins(id, Reg(c), Reg(c / 8))
    case FromMemory => Ins(id, Reg(c / 8), Word(s[2], s[3]))
    case ToMemory => Ins(id, Word(s[2], s[3]), Reg(c / 8))
    case FromPointer => Ins(id, Reg(c / 8), R_BX)
    case ToPointer => Ins(id, R_BX, Reg(c / 8))
  }

  predicate IsReg(r: nat) { 1 <= r <= 8 }

  /** Operands as the lookup leaves them; those not in use are 0. */
  predicate Canonical(i: Ins) {
    i.id < I_COUNT &&
    match FormOf(i.id)
    case Plain => i.a == 0 && i.b == 0
    case InOpcode => IsReg(i.a) && i.b == 0
    case Byte => i.a < 256 && i.b == 0
    case Short => i.b == 0
    case Near => i.b == 0
    case Load => IsReg(i.a)
    case Immediate(_) => IsReg(i.a)
    case Unary(_) => IsReg(i.a) && i.b == 0
    case RegReg => IsReg(i.a) && IsReg(i.b)
    case FromMemory => IsReg(i.a)
    case ToMemory => IsReg(i.b)
    case FromPointer => IsReg(i.a) && i.b == R_BX
    case ToPointer => i.a == R_BX && IsReg(i.b)
  }

  /** The target of a branch is near enough, and the two bytes of a near jump agree. */
  predicate Reaches(i: Ins, at: nat, origin: word)
    requires i.id < I_COUNT
  {
    match FormOf(i.id)
    case Short => Distance(i.a, origin, at + 2) < 0x80 || Distance(i.a, origin, at + 2) >= 0xFF80
    case Near => Distance(i.a, origin, at + 3) % 256 != 0
    case _ => true
  }

  /** The first two bytes of an instruction give its number, whatever its operands. */
  predicate Recognised(id: nat, c: byte, x: nat, y: nat)
    requires id < I_COUNT && x < 8 && y < 8
  {
    Rooms(id);
    var op := OpcodeOf(id);
    match FormOf(id)
    case InOpcode => IdOf(op + x, c) == id && x == (op + x) % 8
    case Load => IdOf(op + x, c) == id && x == (op + x) % 8
    case Immediate(e) => IdOf(op, ModRm(0xC0, e, x)) == id
    case Unary(e) => IdOf(op, ModRm(0xC0, e, x)) == id
    case RegReg => IdOf(op, ModRm(0xC0, y, x)) == id
    case FromMemory => IdOf(op, ModRm(6, x, 0)) == id
    case ToMemory => IdOf(op, ModRm(6, x, 0)) == id
    case FromPointer => IdOf(op, ModRm(7, x, 0)) == id
    case ToPointer => IdOf(op, ModRm(7, x, 0)) == id
    case _ => IdOf(op, c) == id
  }

  lemma RecognisedMov(id: nat, c: byte, x: nat, y: nat)
    requires 0 <= id < 8 && x < 8 && y < 8
    ensures Recognised(id, c, x, y)
  {
    if id == 0 {} else if id == 1 {} else if id == 2 {} else if id == 3 {} else if id == 4 {}
    else if id == 5 {} else if id == 6 {} else if id == 7 {}
  }

  lemma RecognisedCmp(id: nat, c: byte, x: nat, y: nat)
    requires 8 <= id < 17 && x < 8 && y < 8
    ensures Recognised(id, c, x, y)
  {
    if id == 8 {} else if id == 9 {} else if id == 10 {} else if id == 11 {} else if id == 12 {}
    else if id == 13 {} else if id == 14 {} else if id == 15 {} else if id == 16 {}
  }

  lemma RecognisedJump(id: nat, c: byte, x: nat, y: nat)
    requires 17 <= id < 27 && x < 8 && y < 8
    ensures Recognised(id, c, x, y)
  {
    if id == 17 {} else if id == 18 {} else if id == 19 {} else if id == 20 {} else if id == 21 {}
    else if id == 22 {} else if id == 23 {} else if id == 24 {} else if id == 25 {} else if id == 26 {}
  }

  lemma RecognisedAdd(id: nat, c: byte, x: nat, y: nat)
    requires 27 <= id < 30 && x < 8 && y < 8
    ensures Recognised(id, c, x, y)
  {
    if id == 27 {} else if id == 28 {} else if id == 29 {}
  }

  lemma RecognisedAddMemory(id: nat, c: byte, x: nat, y: nat)
    requires 30 <= id < 33 && x < 8 && y < 8
    ensures Recognised(id, c, x, y)
  {
    if id == 30 {} else if id == 31 {} else if id == 32 {}
  }

  lemma RecognisedSub(id: nat, c: byte, x: nat, y: nat)
    requires 33 <= id < 36 && x < 8 && y < 8
    ensures Recognised(id, c, x, y)
  {
    if id == 33 {} else if id == 34 {} else if id == 35 {}
  }

  lemma RecognisedSubMemory(id: nat, c: byte, x: nat, y: nat)
    requires 36 <= id < 39 && x < 8 && y < 8
    ensures Recognised(id, c, x, y)
  {
    if id == 36 {} else if id == 37 {} else if id == 38 {}
  }

  lemma RecognisedMul(id: nat, c: byte, x: nat, y: nat)
    requires 39 <= id < 43 && x < 8 && y < 8
    ensures Recognised(id, c, x, y)
  {
    if id == 39 {} else if id == 40 {} else if id == 41 {} else if id == 42 {}
  }

  lemma RecognisedAnd(id: nat, c: byte, x: nat, y: nat)
    requires 43 <= id < 48 && x < 8 && y < 8
    ensures Recognised(id, c, x, y)
  {
    if id == 43 {} else if id == 44 {} else if id == 45 {} else if id == 46 {} else if id == 47 {}
  }

  lemma RecognisedOr(id: nat, c: byte, x: nat, y: nat)
    requires 48 <= id < 51 && x < 8 && y < 8
    ensures Recognised(id, c, x, y)
  {
    if id == 48 {} else if id == 49 {} else if id == 50 {}
  }

  lemma RecognisedOrMemory(id: nat, c: byte, x: nat, y: nat)
    requires 51 <= id < 54 && x < 8 && y < 8
    ensures Recognised(id, c, x, y)
  {
    if id == 51 {} else if id == 52 {} else if id == 53 {}
  }

  lemma AllRecognised(id: nat, c: byte, x: nat, y: nat)
    requires id < I_COUNT && x < 8 && y < 8
    ensures Recognised(id, c, x, y)
  {
    hide Recognised;
    if id < 8 { RecognisedMov(id, c, x, y); }
    else if id < 17 { RecognisedCmp(id, c, x, y); }
    else if id < 27 { RecognisedJump(id, c, x, y); }
    else if id < 30 { RecognisedAdd(id, c, x, y); }
    else if id < 33 { RecognisedAddMemory(id, c, x, y); }
    else if id < 36 { RecognisedSub(id, c, x, y); }
    else if id < 39 { RecognisedSubMemory(id, c, x, y); }
    else if id < 43 { RecognisedMul(id, c, x, y); }
    else if id < 48 { RecognisedAnd(id, c, x, y); }
    else if id < 51 { RecognisedOr(id, c, x, y); }
    else { RecognisedOrMemory(id, c, x, y); }
  }

  lemma FieldsBack(mode: nat, x: nat, y: nat)
    requires x < 8 && y < 8
    ensures mode == 0xC0 ==> ModRm(mode, x, y) % 8 == y && ModRm(mode, x, y) / 8 % 8 == x
    ensures mode == 6 || mode == 7 ==> ModRm(mode, x, 0) / 8 % 8 == x
  {
  }

  lemma WordBack(w: word)
    ensures Word(Lo(w), Hi(w)) == w && (w < 256 ==> Lo(w) == w)
  {
  }

  lemma ShortBack(target: word, origin: word, offset: nat)
    ensures (origin + offset + Signed(Lo(Distance(target, origin, offset)))) % 0x1_0000 == target
            <==> Distance(target, origin, offset) < 0x80 || Distance(target, origin, offset) >= 0xFF80
  {
  }

  lemma DistanceBack(target: word, origin: word, offset: nat)
    ensures (origin + offset + Distance(target, origin, offset)) % 0x1_0000 == target
    ensures Distance(target, origin, offset + 1)
            == if Distance(target, origin, offset) == 0 then 0xFFFF else Distance(target, origin, offset) - 1
  {
  }

  lemma BytesApart(d: word)
    ensures Word(Lo(d), Hi(if d == 0 then 0xFFFF else d - 1)) == if d % 256 != 0 then d else (d - 256) % 0x1_0000
  {
  }

  lemma Shifted(x: nat, d: word)
    ensures (x + (d - 256) % 0x1_0000) % 0x1_0000 != (x + d) % 0x1_0000
  {
  }

  /** The second byte of a near jump is computed one further on, so the target comes back if and
      only if the distance is not a multiple of 256. */
  lemma NearBack(target: word, origin: word, at: nat)
    ensures var low, high := Lo(Distance(target, origin, at)), Hi(Distance(target, origin, at + 1));
            (origin + at + Word(low, high)) % 0x1_0000 == target <==> Distance(target, origin, at) % 256 != 0
  {
    var d := Distance(target, origin, at);
    hide Distance, Word, Lo, Hi;
    DistanceBack(target, origin, at);
    BytesApart(d);
    Shifted(origin + at, d);
  }

  lemma CanonicalRegs(i: Ins)
    requires Canonical(i)
    ensures RegsOk(i)
  {
    hide FormOf;
  }

  /** The second byte of the form names registers or memory. */
  predicate HasModRm(f: Form) {
    f.Immediate? || f.Unary? || f.RegReg? || f.FromMemory? || f.ToMemory? || f.FromPointer? || f.ToPointer?
  }

  lemma DecodePlain(i: Ins, at: nat, origin: word, rest: seq<byte>)
    requires Canonical(i) && RegsOk(i) && !HasModRm(FormOf(i.id))
    ensures Decode(Encoding(i, at, origin) + rest, at, origin) == i <==> Reaches(i, at, origin)
  {
    hide Info, FormOf, OpcodeOf, Lo, Hi, Word, ModRm, IdOf, Signed, Distance, OpcodeRoom;
    var e := Encoding(i, at, origin);
    var s := e + rest;
    assert forall k :: 0 <= k < |e| ==> s[k] == e[k];
    AllRecognised(i.id, if |s| > 1 then s[1] else 0, Field(i.a), Field(i.b));
    WordBack(i.a);
    WordBack(i.b);
    ShortBack(i.a, origin, at + 2);
    NearBack(i.a, origin, at + 3);
  }

  lemma DecodeModRm(i: Ins, at: nat, origin: word, rest: seq<byte>)
    requires Canonical(i) && RegsOk(i) && HasModRm(FormOf(i.id))
    ensures Reaches(i, at, origin) && Decode(Encoding(i, at, origin) + rest, at, origin) == i
  {
    hide Info, FormOf, OpcodeOf, Lo, Hi, Word, ModRm, IdOf, Signed, Distance, OpcodeRoom;
    var e := Encoding(i, at, origin);
    var s := e + rest;
    assert forall k :: 0 <= k < |e| ==> s[k] == e[k];
    var x, y := Field(i.a), Field(i.b);
    AllRecognised(i.id, s[1], x, y);
    AllRecognised(i.id, s[1], y, x);
    WordBack(i.a);
    WordBack(i.b);
    FieldsBack(6, x, 0);
    FieldsBack(6, y, 0);
    FieldsBack(7, x, 0);
    FieldsBack(7, y, 0);
    FieldsBack(0xC0, y, x);
    if FormOf(i.id).Immediate? || FormOf(i.id).Unary? {
      ExtSmall(i.id);
      FieldsBack(0xC0, FormOf(i.id).ext, x);
    }
  }

  /** Decoding the bytes of an instruction, whatever comes after them, gives the instruction back
      if and only if a branch reaches its target. */
  lemma DecodeBack(i: Ins, at: nat, origin: word, rest: seq<byte>)
    requires Canonical(i)
    ensures RegsOk(i)
    ensures Decode(Encoding(i, at, origin) + rest, at, origin) == i <==> Reaches(i, at, origin)
  {
    hide Info, FormOf, Encoding, Decode, Reaches, RegsOk;
    CanonicalRegs(i);
    if HasModRm(FormOf(i.id)) {
      DecodeModRm(i, at, origin, rest);
    } else {
      DecodePlain(i, at, origin, rest);
    }
  }

  /** The code of a register operand, or 0. */
  function Field(r: nat): (c: nat)
    ensures c < 8
  {
    if IsReg(r) then RegCode(r) else 0
  }

  lemma ExtSmall(id: nat)
    requires id < I_COUNT && (FormOf(id).Immediate? || FormOf(id).Unary?)
    ensures FormOf(id).ext < 8
  {
  }

  // ----- when two instructions have the same bytes

  /** The parts of the operands that the bytes of an instruction depend on are the same; the
      targets of branches count from the origin. */
  predicate Agrees(i: Ins, i': Ins, o: word, o': word)
    requires i.id == i'.id < I_COUNT
  {
    match FormOf(i.id)
    case Plain => true
    case Byte => i.a % 256 == i'.a % 256
    case Short => (i.a - o) % 256 == (i'.a - o') % 256
    case Near => (i.a - o) % 0x1_0000 == (i'.a - o') % 0x1_0000
    case InOpcode => RegCode(i.a) == RegCode(i'.a)
    case Unary(_) => RegCode(i.a) == RegCode(i'.a)
    case FromPointer => RegCode(i.a) == RegCode(i'.a)
    case ToPointer => RegCode(i.b) == RegCode(i'.b)
    case RegReg => RegCode(i.a) == RegCode(i'.a) && RegCode(i.b) == RegCode(i'.b)
    case ToMemory => i.a == i'.a && RegCode(i.b) == RegCode(i'.b)
    case _ => RegCode(i.a) == RegCode(i'.a) && i.b == i'.b
  }

  lemma NearApart(d: word, d': word)
    ensures Lo(d) == Lo(d') && Hi(if d == 0 then 0xFFFF else d - 1) == Hi(if d' == 0 then 0xFFFF else d' - 1)
            <==> d == d'
  {
    assert d == 256 * (d / 256) + d % 256 && d' == 256 * (d' / 256) + d' % 256;
  }

  lemma ShiftWord(a: int, b: int, c: int)
    ensures a % 0x1_0000 == b % 0x1_0000 <==> (a - c) % 0x1_0000 == (b - c) % 0x1_0000
  {
  }

  lemma ShiftByte(a: int, b: int, c: int)
    ensures a % 256 == b % 256 <==> (a - c) % 256 == (b - c) % 256
  {
  }

  lemma LowByte(a: int)
    ensures a % 0x1_0000 % 256 == a % 256
  {
  }

  lemma DistanceSame(x: word, x': word, o: word, o': word, at: nat)
    ensures Distance(x, o, at) == Distance(x', o', at) <==> (x - o) % 0x1_0000 == (x' - o') % 0x1_0000
    ensures Lo(Distance(x, o, at)) == Lo(Distance(x', o', at)) <==> (x - o) % 256 == (x' - o') % 256
  {
    ShiftWord(x - o, x' - o', at);
    ShiftByte(x - o, x' - o', at);
    LowByte(x - o - at);
    LowByte(x' - o' - at);
  }

  lemma WordSame(w: word, w': word)
    ensures Lo(w) == Lo(w') && Hi(w) == Hi(w') <==> w == w'
  {
    assert w == 256 * (w / 256) + w % 256 && w' == 256 * (w' / 256) + w' % 256;
  }

  lemma FieldsSame(mode: nat, x: nat, y: nat, x': nat, y': nat)
    requires mode + 8 * x + y < 256 && mode + 8 * x' + y' < 256 && y < 8 && y' < 8
    ensures ModRm(mode, x, y) == ModRm(mode, x', y') <==> x == x' && y == y'
  {
  }

  /** Instructions of one kind at one place have the same bytes if and only if they agree. */
  lemma SameCode(i: Ins, i': Ins, at: nat, o: word, o': word)
    requires i.id == i'.id && RegsOk(i) && RegsOk(i')
    ensures Encoding(i, at, o) == Encoding(i', at, o') <==> Agrees(i, i', o, o')
  {
    hide Info, FormOf, Lo, Hi, Distance, ModRm;
    Rooms(i.id);
    var e, e' := Encoding(i, at, o), Encoding(i', at, o');
    assert e == e' <==> forall k :: 0 <= k < |e| ==> e[k] == e'[k];
    WordSame(i.a, i'.a);
    WordSame(i.b, i'.b);
    var a, b, a', b' := RegCode(i.a), RegCode(i.b), RegCode(i'.a), RegCode(i'.b);
    match FormOf(i.id)
    case Byte => assert e[1] == Lo(i.a) && e'[1] == Lo(i'.a); LowSame(i.a, i'.a);
    case Short => DistanceSame(i.a, i'.a, o, o', at + 2);
    case Near =>
      DistanceSame(i.a, i'.a, o, o', at + 3);
      DistanceBack(i.a, o, at + 3);
      DistanceBack(i'.a, o', at + 3);
      NearApart(Distance(i.a, o, at + 3), Distance(i'.a, o', at + 3));
    case Immediate(x) => FieldsSame(0xC0, x, a, x, a');
    case Unary(x) => FieldsSame(0xC0, x, a, x, a');
    case RegReg => FieldsSame(0xC0, b, a, b', a');
    case FromMemory => FieldsSame(6, a, 0, a', 0);
    case ToMemory => FieldsSame(6, b, 0, b', 0);
    case FromPointer => FieldsSame(7, a, 0, a', 0);
    case ToPointer => FieldsSame(7, b, 0, b', 0);
    case _ =>
  }

  lemma LowSame(w: word, w': word)
    ensures Lo(w) == Lo(w') <==> w % 256 == w' % 256
  {
  }

  // ----- lists of instructions

  predicate AllRegsOk(list: seq<Ins>) {
    forall k :: 0 <= k < |list| ==> RegsOk(list[k])
  }

  function EncodeAll(list: seq<Ins>, at: nat, origin: word): seq<byte>
    requires AllRegsOk(list)
  {
    if list == [] then [] else
    Encoding(list[0], at, origin) + EncodeAll(list[1..], at + Length(list[0].id), origin)
  }

  function DecodeAll(s: seq<byte>, at: nat, origin: word): seq<Ins>
    decreases |s|
  {
    var i := Decode(s, at, origin);
    if s == [] || i.id >= I_COUNT || |s| < Length(i.id) then [] else
    [i] + DecodeAll(s[Length(i.id)..], at + Length(i.id), origin)
  }

  predicate AllReach(list: seq<Ins>, at: nat, origin: word)
    requires forall k :: 0 <= k < |list| ==> Canonical(list[k])
  {
    list == [] ||
    (assert Canonical(list[0]);
     Reaches(list[0], at, origin) && AllReach(list[1..], at + Length(list[0].id), origin))
  }

  /** The bytes of a list of instructions determine the list if and only if every branch in it
      reaches its target. */
  lemma {:induction false} DecodeAllBack(list: seq<Ins>, at: nat, origin: word)
    requires forall k :: 0 <= k < |list| ==> Canonical(list[k])
    ensures AllRegsOk(list)
    ensures DecodeAll(EncodeAll(list, at, origin), at, origin) == list <==> AllReach(list, at, origin)
    decreases list
  {
    hide Encoding, Decode, DecodeAll, Reaches, Length, Canonical, RegsOk, AllRegsOk;
    AllCanonical(list);
    if list == [] {
      DecodeNone(at, origin);
    } else {
      var i := list[0];
      InsBytes(i, at, origin);
      var n := Length(i.id);
      DecodeAllBack(list[1..], at + n, origin);
      var rest := EncodeAll(list[1..], at + n, origin);
      var s := Encoding(i, at, origin) + rest;
      DecodeBack(i, at, origin, rest);
      assert s[n..] == rest;
      DecodeMore(s, at, origin);
      FirstAndRest(list, Decode(s, at, origin), DecodeAll(rest, at + n, origin));
    }
  }

  lemma AllCanonical(list: seq<Ins>)
    requires forall k :: 0 <= k < |list| ==> Canonical(list[k])
    ensures AllRegsOk(list) && (list != [] ==> AllRegsOk(list[1..]))
  {
    hide Canonical, RegsOk;
    forall k | 0 <= k < |list| ensures RegsOk(list[k]) {
      CanonicalRegs(list[k]);
    }
  }

  lemma DecodeNone(at: nat, origin: word)
    ensures DecodeAll([], at, origin) == []
  {
  }

  lemma DecodeMore(s: seq<byte>, at: nat, origin: word)
    requires s != []
    ensures DecodeAll(s, at, origin) != [] ==> DecodeAll(s, at, origin)[0] == Decode(s, at, origin)
    ensures var i := Decode(s, at, origin);
            i.id < I_COUNT && Length(i.id) <= |s| ==>
              DecodeAll(s, at, origin) == [i] + DecodeAll(s[Length(i.id)..], at + Length(i.id), origin)
  {
    hide Decode, Length;
  }

  lemma FirstAndRest(list: seq<Ins>, i: Ins, rest: seq<Ins>)
    requires list != []
    ensures [i] + rest == list <==> i == list[0] && rest == list[1..]
  {
    assert ([i] + rest)[0] == i && ([i] + rest)[1..] == rest;
  }

  lemma InsBytes(i: Ins, at: nat, origin: word)
    requires Canonical(i)
    ensures RegsOk(i) && i.id < I_COUNT && Length(i.id) > 0 && |Encoding(i, at, origin)| == Length(i.id)
  {
    hide Encoding, Length;
    CanonicalRegs(i);
  }

  /** Lists with the same bytes at the same place are the same. */
  lemma SameBytes(x: seq<Ins>, y: seq<Ins>, at: nat, origin: word)
    requires forall k :: 0 <= k < |x| ==> Canonical(x[k])
    requires forall k :: 0 <= k < |y| ==> Canonical(y[k])
    requires AllReach(x, at, origin) && AllReach(y, at, origin)
    requires AllRegsOk(x) && AllRegsOk(y) && EncodeAll(x, at, origin) == EncodeAll(y, at, origin)
    ensures x == y
  {
    hide AllReach, EncodeAll, DecodeAll;
    DecodeAllBack(x, at, origin);
    DecodeAllBack(y, at, origin);
  }

  // ----- the assembler's code

  /** An instruction line: mnemonic, and types and values of its operands. */
  datatype Line = Line(mnemonic: string, types: seq<OType>, values: seq<nat>)

  predicate Matches(line: Line, id: nat)
    requires id < I_COUNT && |line.types| == |line.values|
  {
    var d := Info(id);
    && line.mnemonic == d.mnemonic && |line.types| == d.nops
    && forall i :: 0 <= i < d.nops ==>
         line.types[i] == d.types[i] && (d.values[i] == 0 || d.values[i] == line.values[i])
  }

  function Find(line: Line, from: nat := 0): (id: nat)
    requires |line.types| == |line.values|
    ensures id == NOT_FOUND || id < I_COUNT
    decreases I_COUNT - from
  {
    if from >= I_COUNT then NOT_FOUND else if Matches(line, from) then from else Find(line, from + 1)
  }

  /** The first instruction in the table that matches, or none. */
  method FindInstruction(line: Line) returns (r: nat)
    requires |line.types| == |line.values|
    ensures r == Find(line)
  {
    hide Info;
    var id := 0;
    while id < I_COUNT
      invariant 0 <= id <= I_COUNT && Find(line) == Find(line, id)
    {
      var d := Info(id);
      InfoShape(id);
      if line.mnemonic == d.mnemonic && |line.types| == d.nops {
        var match_, i := true, 0;
        while i < d.nops
          invariant 0 <= i <= d.nops
          invariant match_ ==> forall k :: 0 <= k < i ==>
                      line.types[k] == d.types[k] && (d.values[k] == 0 || d.values[k] == line.values[k])
          invariant !match_ ==> !Matches(line, id)
        {
          if line.types[i] != d.types[i] {
            match_ := false;
            break;
          }
          if d.values[i] != 0 && d.values[i] != line.values[i] {
            match_ := false;
            break;
          }
          i := i + 1;
        }
        if match_ { return id; }
      }
      id := id + 1;
    }
    return NOT_FOUND;
  }

  lemma InfoShape(id: nat)
    requires id < I_COUNT
    ensures Info(id).nops <= |Info(id).types| == |Info(id).values| == 2
  {
  }

  /** A restricted value belongs to a register. */
  lemma RestrictedRegister(id: nat, k: nat)
    requires id < I_COUNT && k < 2
    ensures Info(id).values[k] != 0 ==> Info(id).types[k] == RMW
  {
  }

  /** Which instruction is chosen, and so its length, does not depend on the value of an operand
      that is not a register. */
  lemma {:induction false} FindIgnoresValue(line: Line, k: nat, value: nat, from: nat)
    requires |line.types| == |line.values| && k < |line.values| && line.types[k] != RMW
    ensures Find(line.(values := line.values[k := value]), from) == Find(line, from)
    decreases I_COUNT - from
  {
    hide Info;
    if from < I_COUNT {
      InfoShape(from);
      if k < 2 { RestrictedRegister(from, k); }
      FindIgnoresValue(line, k, value, from + 1);
    }
  }

  /** Three instructions are in the table with an operand too many, so no line ever matches them. */
  lemma Unreachable(line: Line, id: nat)
    requires |line.types| == |line.values| && forall k :: 0 <= k < |line.types| ==> line.types[k] != ANY
    requires 39 <= id < 42
    ensures !Matches(line, id)
  {
    assert Info(id).types[1] == ANY && Info(id).nops == 2;
  }

  /** Writes the instruction at the offset and returns the offset after it; each byte is computed
      before the offset moves on. */
  method EncodeInstruction(buffer: array<byte>, offset0: nat, i: Ins, origin: word) returns (offset: nat)
    requires RegsOk(i) && offset0 + Length(i.id) <= buffer.Length
    modifies buffer
    ensures offset == offset0 + Length(i.id)
    ensures buffer[..] == Put(old(buffer[..]), offset0, Encoding(i, offset0, origin))
  {
    hide Info, FormOf, Encoding, Put, Length;
    if HasModRm(FormOf(i.id)) {
      offset := EncodeModRm(buffer, offset0, i, origin);
    } else {
      offset := EncodePlain(buffer, offset0, i, origin);
    }
  }

  method EncodePlain(buffer: array<byte>, offset0: nat, i: Ins, origin: word) returns (offset: nat)
    requires RegsOk(i) && !HasModRm(FormOf(i.id)) && offset0 + Length(i.id) <= buffer.Length
    modifies buffer
    ensures offset == offset0 + Length(i.id)
    ensures buffer[..] == Put(old(buffer[..]), offset0, Encoding(i, offset0, origin))
  {
    hide Info, FormOf, Lo, Hi, Distance;
    Rooms(i.id);
    offset := offset0;
    var op := OpcodeOf(i.id);
    match FormOf(i.id) {
      case Plain =>
        buffer[offset] := op;
        offset := offset + 1;
      case InOpcode =>
        buffer[offset] := op + RegCode(i.a);
        offset := offset + 1;
      case Byte =>
        buffer[offset] := op;
        offset := offset + 1;
        buffer[offset] := Lo(i.a);
        offset := offset + 1;
      case Short =>
        buffer[offset] := op;
        offset := offset + 1;
        buffer[offset] := Lo(Distance(i.a, origin, offset + 1));
        offset := offset + 1;
      case Near =>
        buffer[offset] := op;
        offset := offset + 1;
        buffer[offset] := Lo(Distance(i.a, origin, offset + 2));
        offset := offset + 1;
        buffer[offset] := Hi(Distance(i.a, origin, offset + 2));
        offset := offset + 1;
      case Load =>
        buffer[offset] := op + RegCode(i.a);
        offset := offset + 1;
        offset := EmitWord(buffer, offset, i.b);
    }
  }

  method EncodeModRm(buffer: array<byte>, offset0: nat, i: Ins, origin: word) returns (offset: nat)
    requires RegsOk(i) && HasModRm(FormOf(i.id)) && offset0 + Length(i.id) <= buffer.Length
    modifies buffer
    ensures offset == offset0 + Length(i.id)
    ensures buffer[..] == Put(old(buffer[..]), offset0, Encoding(i, offset0, origin))
  {
    hide Info, FormOf, Lo, Hi, Distance;
    Rooms(i.id);
    var op := OpcodeOf(i.id);
    match FormOf(i.id) {
      case Immediate(e) =>
        offset := EmitTwo(buffer, offset0, op, ModRm(0xC0, e, RegCode(i.a)));
        offset := EmitWord(buffer, offset, i.b);
      case Unary(e) =>
        offset := EmitTwo(buffer, offset0, op, ModRm(0xC0, e, RegCode(i.a)));
      case RegReg =>
        offset := EmitTwo(buffer, offset0, op, ModRm(0xC0, RegCode(i.b), RegCode(i.a)));
      case FromMemory =>
        offset := EmitTwo(buffer, offset0, op, ModRm(6, RegCode(i.a), 0));
        offset := EmitWord(buffer, offset, i.b);
      case ToMemory =>
        offset := EmitTwo(buffer, offset0, op, ModRm(6, RegCode(i.b), 0));
        offset := EmitWord(buffer, offset, i.a);
      case FromPointer =>
        offset := EmitTwo(buffer, offset0, op, ModRm(7, RegCode(i.a), 0));
      case ToPointer =>
        offset := EmitTwo(buffer, offset0, op, ModRm(7, RegCode(i.b), 0));
    }
  }

  method EmitTwo(buffer: array<byte>, offset0: nat, b: byte, c: byte) returns (offset: nat)
    requires offset0 + 2 <= buffer.Length
    modifies buffer
    ensures offset == offset0 + 2 && buffer[..] == old(buffer[..])[offset0 := b][offset0 + 1 := c]
  {
    buffer[offset0] := b;
    buffer[offset0 + 1] := c;
    offset := offset0 + 2;
  }

  method EmitWord(buffer: array<byte>, offset0: nat, w: word) returns (offset: nat)
    requires offset0 + 2 <= buffer.Length
    modifies buffer
    ensures offset == offset0 + 2 && buffer[..] == old(buffer[..])[offset0 := Lo(w)][offset0 + 1 := Hi(w)]
  {
    offset := EmitTwo(buffer, offset0, Lo(w), Hi(w));
  }
}
