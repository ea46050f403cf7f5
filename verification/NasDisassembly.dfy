/** A disassembler written from the numbering of 8086 operations, without the assembler's table of
    instructions, and what it makes of the assembler's bytes. */
module NasDisassembly {
  import opened NasCode
  import opened NasProgram

  // ----- bytes to lines

  /** Where the operands of an operation are. */
  datatype Way =
    | Alone | InByte | Interrupt | ByteJump | WordJump | WordIntoReg
    | ImmediateOperation | UnaryOperation | RegIntoPlace | PlaceIntoReg
    | Unknown

  function WayOf(b: byte): Way {
    if b == 0x89 || (b < 0x40 && b % 8 == 1) then RegIntoPlace
    else if b == 0x8B || (b < 0x40 && b % 8 == 3) then PlaceIntoReg
    else if 0x50 <= b < 0x60 then InByte
    else if 0x70 <= b < 0x80 then ByteJump
    else if b == 0x81 then ImmediateOperation
    else if 0xB8 <= b < 0xC0 then WordIntoReg
    else if b == 0xC3 || b == 0xCB then Alone
    else if b == 0xCD then Interrupt
    else if b == 0xE8 || b == 0xE9 then WordJump
    else if b == 0xF7 then UnaryOperation
    else Unknown
  }

  /** The eight operations of two operands, in the order of their numbers. */
  function Arithmetic(k: nat): string
    requires k < 8
  {
    match k
    case 0 => "add"
    case 1 => "or"
    case 2 => "adc"
    case 3 => "sbb"
    case 4 => "and"
    case 5 => "sub"
    case 6 => "xor"
    case _ => "cmp"
  }

  /** The eight operations behind the byte 0xF7. */
  function OnePlace(k: nat): string
    requires k < 8
  {
    match k
    case 0 => "test"
    case 1 => "test"
    case 2 => "not"
    case 3 => "neg"
    case 4 => "mul"
    case 5 => "imul"
    case 6 => "div"
    case _ => "idiv"
  }

  /** The sixteen conditions of a short jump: an odd number negates the one before it. */
  function Condition(k: nat): string
    requires k < 16
  {
    match k
    case 0 => "jo"
    case 1 => "jno"
    case 2 => "jc"
    case 3 => "jnc"
    case 4 => "je"
    case 5 => "jne"
    case 6 => "jbe"
    case 7 => "ja"
    case 8 => "js"
    case 9 => "jns"
    case 10 => "jp"
    case 11 => "jnp"
    case 12 => "jl"
    case 13 => "jge"
    case 14 => "jle"
    case _ => "jg"
  }

  /** The mnemonic for a first byte and the middle field of the second. */
  function Mnemonic(b: byte, mid: nat): string
    requires mid < 8
  {
    match WayOf(b)
    case RegIntoPlace => if b < 0x40 then Arithmetic(b / 8) else "mov"
    case PlaceIntoReg => if b < 0x40 then Arithmetic(b / 8) else "mov"
    case InByte => if b < 0x58 then "push" else "pop"
    case ByteJump => Condition(b % 16)
    case ImmediateOperation => Arithmetic(mid)
    case WordIntoReg => "mov"
    case Alone => if b == 0xC3 then "ret" else "retf"
    case Interrupt => "int"
    case WordJump => if b == 0xE8 then "call" else "jmp"
    case UnaryOperation => OnePlace(mid)
    case Unknown => ""
  }

  /** What the second byte addresses: a register, a word at a fixed place, or the word at bx. */
  function Place(c: byte): OType {
    if c / 64 == 3 then RW else if c / 64 == 0 && c % 8 == 6 then MW else if c / 64 == 0 && c % 8 == 7 then RMW else ANY
  }

  /** The kinds of two operands; one that is not there has none. */
  function Kinds(w: Way, place: OType): (k: seq<OType>)
    ensures |k| == 2
  {
    match w
    case RegIntoPlace => [place, RW]
    case PlaceIntoReg => [RW, place]
    case InByte => [RW, ANY]
    case ByteJump => [IW, ANY]
    case ImmediateOperation => [place, IW]
    case WordIntoReg => [RW, IW]
    case Alone => [ANY, ANY]
    case Interrupt => [IW, ANY]
    case WordJump => [IW, ANY]
    case UnaryOperation => [place, ANY]
    case Unknown => [ANY, ANY]
  }

  function At(s: seq<byte>, k: nat): byte { if k < |s| then s[k] else 0 }

  function WordAt(s: seq<byte>, k: nat): word { At(s, k) + 256 * At(s, k + 1) }

  /** The number of a register: 1 for ax, then cx, dx, bx, sp, bp, si and di. */
  function Register(code: nat): nat { code % 8 + 1 }

  function PlaceValue(s: seq<byte>): nat {
    match Place(At(s, 1))
    case RW => Register(At(s, 1))
    case MW => WordAt(s, 2)
    case _ => R_BX
  }

  /** The operands of the instruction at the start of s, which lies at an offset: a jump is counted
      from the instruction behind it. */
  function Values(s: seq<byte>, at: nat, origin: word): seq<nat> {
    var b, c := At(s, 0), At(s, 1);
    match WayOf(b)
    case RegIntoPlace => [PlaceValue(s), Register(c / 8)]
    case PlaceIntoReg => [Register(c / 8), PlaceValue(s)]
    case InByte => [Register(b)]
    case ByteJump => [(origin + at + 2 + if c < 0x80 then c else c - 0x100) % 0x1_0000]
    case ImmediateOperation => [PlaceValue(s), WordAt(s, 2)]
    case WordIntoReg => [Register(b), WordAt(s, 1)]
    case Alone => []
    case Interrupt => [c]
    case WordJump => [(origin + at + 3 + WordAt(s, 1)) % 0x1_0000]
    case UnaryOperation => [PlaceValue(s)]
    case Unknown => []
  }

  /** The kinds of the operands that are there. */
  function There(k: seq<OType>): seq<OType>
    requires |k| == 2
  {
    if k[0] == ANY then [] else if k[1] == ANY then [k[0]] else k
  }

  /** The line that the bytes at the start of s stand for. */
  function Disassembled(s: seq<byte>, at: nat, origin: word): Line {
    var b, c := At(s, 0), At(s, 1);
    Line(Mnemonic(b, c / 8 % 8), There(Kinds(WayOf(b), Place(c))), Values(s, at, origin))
  }

  // ----- the table says the same

  function WayFor(f: Form): Way {
    match f
    case Plain => Alone
    case InOpcode => InByte
    case Byte => Interrupt
    case Short => ByteJump
    case Near => WordJump
    case Load => WordIntoReg
    case Immediate(_) => ImmediateOperation
    case Unary(_) => UnaryOperation
    case RegReg => RegIntoPlace
    case ToMemory => RegIntoPlace
    case ToPointer => RegIntoPlace
    case FromMemory => PlaceIntoReg
    case FromPointer => PlaceIntoReg
  }

  predicate Says(id: nat, b: byte, mid: nat, w: Way, place: OType)
    requires id < I_COUNT && mid < 8
  {
    WayOf(b) == w && Mnemonic(b, mid) == Info(id).mnemonic && Kinds(w, place) == Info(id).types
  }

  predicate Told(id: nat, x: nat, mid: nat, place: OType)
    requires id < I_COUNT && x < 8 && mid < 8
  {
    Rooms(id);
    var op := OpcodeOf(id);
    match FormOf(id)
    case InOpcode => Says(id, op + x, mid, InByte, place)
    case Load => Says(id, op + x, mid, WordIntoReg, place)
    case Immediate(e) => Says(id, op, e, ImmediateOperation, RW)
    case Unary(e) => Says(id, op, e, UnaryOperation, RW)
    case RegReg => Says(id, op, mid, RegIntoPlace, RW)
    case FromMemory => Says(id, op, mid, PlaceIntoReg, MW)
    case ToMemory => Says(id, op, mid, RegIntoPlace, MW)
    case FromPointer => Says(id, op, mid, PlaceIntoReg, RMW)
    case ToPointer => Says(id, op, mid, RegIntoPlace, RMW)
    case Plain => Says(id, op, mid, Alone, place)
    case Byte => Says(id, op, mid, Interrupt, place)
    case Short => Says(id, op, mid, ByteJump, place)
    case Near => Says(id, op, mid, WordJump, place)
  }

  lemma ToldMov(id: nat, x: nat, mid: nat, place: OType)
    requires 0 <= id < 5 && x < 8 && mid < 8
    ensures Told(id, x, mid, place)
  {
    if id == 0 {} else if id == 1 {} else if id == 2 {} else if id == 3 {} else if id == 4 {}
  }

  lemma ToldMovMemory(id: nat, x: nat, mid: nat, place: OType)
    requires 5 <= id < 8 && x < 8 && mid < 8
    ensures Told(id, x, mid, place)
  {
    if id == 5 {} else if id == 6 {} else if id == 7 {}
  }

  lemma ToldCmp(id: nat, x: nat, mid: nat, place: OType)
    requires 8 <= id < 11 && x < 8 && mid < 8
    ensures Told(id, x, mid, place)
  {
    if id == 8 {} else if id == 9 {} else if id == 10 {}
  }

  lemma ToldCmpMemory(id: nat, x: nat, mid: nat, place: OType)
    requires 11 <= id < 14 && x < 8 && mid < 8
    ensures Told(id, x, mid, place)
  {
    if id == 11 {} else if id == 12 {} else if id == 13 {}
  }

  lemma ToldRet(id: nat, x: nat, mid: nat, place: OType)
    requires 14 <= id < 17 && x < 8 && mid < 8
    ensures Told(id, x, mid, place)
  {
    if id == 14 {} else if id == 15 {} else if id == 16 {}
  }

  lemma ToldCall(id: nat, x: nat, mid: nat, place: OType)
    requires 17 <= id < 20 && x < 8 && mid < 8
    ensures Told(id, x, mid, place)
  {
    if id == 17 {} else if id == 18 {} else if id == 19 {}
  }

  lemma ToldJump(id: nat, x: nat, mid: nat, place: OType)
    requires 20 <= id < 23 && x < 8 && mid < 8
    ensures Told(id, x, mid, place)
  {
    if id == 20 {} else if id == 21 {} else if id == 22 {}
  }

  lemma ToldCarry(id: nat, x: nat, mid: nat, place: OType)
    requires 23 <= id < 27 && x < 8 && mid < 8
    ensures Told(id, x, mid, place)
  {
    if id == 23 {} else if id == 24 {} else if id == 25 {} else if id == 26 {}
  }

  lemma ToldAdd(id: nat, x: nat, mid: nat, place: OType)
    requires 27 <= id < 29 && x < 8 && mid < 8
    ensures Told(id, x, mid, place)
  {
    if id == 27 {} else if id == 28 {}
  }

  lemma ToldAddMemory(id: nat, x: nat, mid: nat, place: OType)
    requires 29 <= id < 31 && x < 8 && mid < 8
    ensures Told(id, x, mid, place)
  {
    if id == 29 {} else if id == 30 {}
  }

  lemma ToldAddPointer(id: nat, x: nat, mid: nat, place: OType)
    requires 31 <= id < 33 && x < 8 && mid < 8
    ensures Told(id, x, mid, place)
  {
    if id == 31 {} else if id == 32 {}
  }

  lemma ToldSub(id: nat, x: nat, mid: nat, place: OType)
    requires 33 <= id < 35 && x < 8 && mid < 8
    ensures Told(id, x, mid, place)
  {
    if id == 33 {} else if id == 34 {}
  }

  lemma ToldSubMemory(id: nat, x: nat, mid: nat, place: OType)
    requires 35 <= id < 37 && x < 8 && mid < 8
    ensures Told(id, x, mid, place)
  {
    if id == 35 {} else if id == 36 {}
  }

  lemma ToldSubPointer(id: nat, x: nat, mid: nat, place: OType)
    requires 37 <= id < 39 && x < 8 && mid < 8
    ensures Told(id, x, mid, place)
  {
    if id == 37 {} else if id == 38 {}
  }

  lemma ToldMul(id: nat, x: nat, mid: nat, place: OType)
    requires 39 <= id < 41 && x < 8 && mid < 8
    ensures Told(id, x, mid, place)
  {
    if id == 39 {} else if id == 40 {}
  }

  lemma ToldNot(id: nat, x: nat, mid: nat, place: OType)
    requires 41 <= id < 43 && x < 8 && mid < 8
    ensures Told(id, x, mid, place)
  {
    if id == 41 {} else if id == 42 {}
  }

  lemma ToldAnd(id: nat, x: nat, mid: nat, place: OType)
    requires 43 <= id < 45 && x < 8 && mid < 8
    ensures Told(id, x, mid, place)
  {
    if id == 43 {} else if id == 44 {}
  }

  lemma ToldAndMemory(id: nat, x: nat, mid: nat, place: OType)
    requires id == 45 && x < 8 && mid < 8
    ensures Told(id, x, mid, place)
  {
    if id == 45 {}
  }

  lemma ToldAndPointer(id: nat, x: nat, mid: nat, place: OType)
    requires 46 <= id < 48 && x < 8 && mid < 8
    ensures Told(id, x, mid, place)
  {
    if id == 46 {} else if id == 47 {}
  }

  lemma ToldOr(id: nat, x: nat, mid: nat, place: OType)
    requires 48 <= id < 50 && x < 8 && mid < 8
    ensures Told(id, x, mid, place)
  {
    if id == 48 {} else if id == 49 {}
  }

  lemma ToldOrMemory(id: nat, x: nat, mid: nat, place: OType)
    requires 50 <= id < 52 && x < 8 && mid < 8
    ensures Told(id, x, mid, place)
  {
    if id == 50 {} else if id == 51 {}
  }

  lemma ToldOrPointer(id: nat, x: nat, mid: nat, place: OType)
    requires 52 <= id < 54 && x < 8 && mid < 8
    ensures Told(id, x, mid, place)
  {
    if id == 52 {} else if id == 53 {}
  }

  lemma AllTold(id: nat, x: nat, mid: nat, place: OType)
    requires id < I_COUNT && x < 8 && mid < 8
    ensures Told(id, x, mid, place)
  {
    hide Told;
    if id < 5 { ToldMov(id, x, mid, place); }
    else if id < 8 { ToldMovMemory(id, x, mid, place); }
    else if id < 11 { ToldCmp(id, x, mid, place); }
    else if id < 14 { ToldCmpMemory(id, x, mid, place); }
    else if id < 17 { ToldRet(id, x, mid, place); }
    else if id < 20 { ToldCall(id, x, mid, place); }
    else if id < 23 { ToldJump(id, x, mid, place); }
    else if id < 27 { ToldCarry(id, x, mid, place); }
    else if id < 29 { ToldAdd(id, x, mid, place); }
    else if id < 31 { ToldAddMemory(id, x, mid, place); }
    else if id < 33 { ToldAddPointer(id, x, mid, place); }
    else if id < 35 { ToldSub(id, x, mid, place); }
    else if id < 37 { ToldSubMemory(id, x, mid, place); }
    else if id < 39 { ToldSubPointer(id, x, mid, place); }
    else if id < 41 { ToldMul(id, x, mid, place); }
    else if id < 43 { ToldNot(id, x, mid, place); }
    else if id < 45 { ToldAnd(id, x, mid, place); }
    else if id < 46 { ToldAndMemory(id, x, mid, place); }
    else if id < 48 { ToldAndPointer(id, x, mid, place); }
    else if id < 50 { ToldOr(id, x, mid, place); }
    else if id < 52 { ToldOrMemory(id, x, mid, place); }
    else { ToldOrPointer(id, x, mid, place); }
  }

  // ----- the assembler's bytes

  lemma Places(mid: nat, low: nat)
    requires mid < 8 && low < 8
    ensures Place(ModRm(0xC0, mid, low)) == RW && ModRm(0xC0, mid, low) % 8 == low
    ensures ModRm(0xC0, mid, low) / 8 % 8 == mid
    ensures Place(ModRm(6, mid, 0)) == MW && ModRm(6, mid, 0) / 8 % 8 == mid
    ensures Place(ModRm(7, mid, 0)) == RMW && ModRm(7, mid, 0) / 8 % 8 == mid
  {
  }

  lemma InFront(e: seq<byte>, rest: seq<byte>)
    ensures forall k: nat :: k < |e| ==> At(e + rest, k) == e[k]
  {
  }

  lemma BytesSayPlain(i: Ins, at: nat, origin: word, rest: seq<byte>)
    requires RegsOk(i) && !HasModRm(FormOf(i.id))
    ensures var s := Encoding(i, at, origin) + rest;
            Says(i.id, At(s, 0), At(s, 1) / 8 % 8, WayFor(FormOf(i.id)), Place(At(s, 1)))
  {
    hide Info, FormOf, OpcodeOf, Lo, Hi, ModRm, Distance, OpcodeRoom, Says, Place, At;
    var e := Encoding(i, at, origin);
    InFront(e, rest);
    var c := At(e + rest, 1);
    var ra := match FormOf(i.id) case InOpcode => RegCode(i.a) case Load => RegCode(i.a) case _ => 0;
    AllTold(i.id, ra, c / 8 % 8, Place(c));
  }

  lemma BytesSayPlace(i: Ins, at: nat, origin: word, rest: seq<byte>)
    requires RegsOk(i) && HasModRm(FormOf(i.id))
    ensures var s := Encoding(i, at, origin) + rest;
            Says(i.id, At(s, 0), At(s, 1) / 8 % 8, WayFor(FormOf(i.id)), Place(At(s, 1)))
  {
    hide Info, FormOf, OpcodeOf, Lo, Hi, ModRm, Distance, OpcodeRoom, Says, Place, At;
    var e := Encoding(i, at, origin);
    InFront(e, rest);
    var c := At(e + rest, 1);
    AllTold(i.id, 0, c / 8 % 8, ANY);
    match FormOf(i.id) {
      case Immediate(x) =>
        ExtSmall(i.id);
        Places(x, RegCode(i.a));
      case Unary(x) =>
        ExtSmall(i.id);
        Places(x, RegCode(i.a));
      case RegReg => Places(RegCode(i.b), RegCode(i.a));
      case FromMemory => Places(RegCode(i.a), 0);
      case ToMemory => Places(RegCode(i.b), 0);
      case FromPointer => Places(RegCode(i.a), 0);
      case ToPointer => Places(RegCode(i.b), 0);
    }
  }

  /** The bytes of every instruction, whatever comes after them, have the mnemonic and the kinds of
      operands that stand in the table. */
  lemma BytesSay(i: Ins, at: nat, origin: word, rest: seq<byte>)
    requires RegsOk(i)
    ensures var d := Disassembled(Encoding(i, at, origin) + rest, at, origin);
            d.mnemonic == Info(i.id).mnemonic && d.types == There(Info(i.id).types)
  {
    hide Info, FormOf, Encoding, Mnemonic, Kinds, WayOf, Place, At, There;
    if HasModRm(FormOf(i.id)) {
      BytesSayPlace(i, at, origin, rest);
    } else {
      BytesSayPlain(i, at, origin, rest);
    }
  }

  /** The operands that an instruction has, of the two. */
  function Used(i: Ins): seq<nat>
    requires i.id < I_COUNT
  {
    if Info(i.id).types[0] == ANY then [] else if Info(i.id).types[1] == ANY then [i.a] else [i.a, i.b]
  }

  lemma FormUsed(id: nat)
    requires id < I_COUNT
    ensures |There(Info(id).types)|
            == match FormOf(id)
               case Plain => 0
               case InOpcode => 1
               case Byte => 1
               case Short => 1
               case Near => 1
               case Unary(_) => 1
               case _ => 2
  {
  }

  lemma ValuesBackPlain(i: Ins, at: nat, origin: word, rest: seq<byte>)
    requires Canonical(i) && RegsOk(i) && !HasModRm(FormOf(i.id))
    ensures Values(Encoding(i, at, origin) + rest, at, origin) == Used(i) <==> Reaches(i, at, origin)
  {
    hide Info, FormOf, Lo, Hi, ModRm, Distance, Place, At, WayOf, Mnemonic, Kinds;
    var e := Encoding(i, at, origin);
    InFront(e, rest);
    BytesSayPlain(i, at, origin, rest);
    FormUsed(i.id);
    Rooms(i.id);
    WordBack(i.a);
    WordBack(i.b);
    ShortBack(i.a, origin, at + 2);
    NearBack(i.a, origin, at + 3);
  }

  lemma ValuesBackPlace(i: Ins, at: nat, origin: word, rest: seq<byte>)
    requires Canonical(i) && RegsOk(i) && HasModRm(FormOf(i.id))
    ensures Values(Encoding(i, at, origin) + rest, at, origin) == Used(i) && Reaches(i, at, origin)
  {
    hide Info, FormOf, OpcodeOf, Lo, Hi, ModRm, Distance, OpcodeRoom, Place, At, WayOf, Mnemonic, Kinds;
    var e := Encoding(i, at, origin);
    InFront(e, rest);
    BytesSayPlace(i, at, origin, rest);
    FormUsed(i.id);
    WordBack(i.a);
    WordBack(i.b);
    match FormOf(i.id) {
      case Immediate(x) =>
        ExtSmall(i.id);
        Places(x, RegCode(i.a));
      case Unary(x) =>
        ExtSmall(i.id);
        Places(x, RegCode(i.a));
      case RegReg => Places(RegCode(i.b), RegCode(i.a));
      case FromMemory => Places(RegCode(i.a), 0);
      case ToMemory => Places(RegCode(i.b), 0);
      case FromPointer => Places(RegCode(i.a), 0);
      case ToPointer => Places(RegCode(i.b), 0);
    }
  }

  // ----- lines back

  /** A line as the operands of a statement make it: every operand is of a type, and what is typed
      as a register is one. */
  predicate ProperLine(line: Line) {
    && |line.types| == |line.values| && WordsOk(line.values)
    && forall k :: 0 <= k < |line.types| ==>
         line.types[k] != ANY && (line.types[k] == RW ==> IsReg(line.values[k]))
  }

  /** The operands in the table end with the first that is of no type, and the form of an
      instruction goes with them. */
  lemma FormOperands(id: nat)
    requires id < I_COUNT
    ensures var d := Info(id);
            && (d.nops < 2 ==> d.types[1] == ANY) && (d.nops < 1 ==> d.types[0] == ANY)
            && (FormOf(id).FromPointer? ==> d.values[1] == R_BX) && (FormOf(id).ToPointer? ==> d.values[0] == R_BX)
  {
  }

  /** What is chosen for a line has the line's types and its operands. */
  lemma ChosenLine(line: Line)
    requires ProperLine(line) && Find(line) < I_COUNT
    ensures var i := InsOf(Find(line), line.values);
            && RegsOk(i) && Info(i.id).mnemonic == line.mnemonic && There(Info(i.id).types) == line.types
            && Used(i) == line.values
            && ((FormOf(i.id).Byte? ==> i.a < 256) ==> Canonical(i))
  {
    hide Info, FormOf, Find;
    var id := Find(line);
    FindMatches(line, 0);
    FormTypes(id);
    FormUsed(id);
    FormOperands(id);
    ChosenEncodes(line.mnemonic, line.types, line.values);
    var d := Info(id);
    assert |line.types| == d.nops;
    assert forall k :: 0 <= k < d.nops ==> line.types[k] == d.types[k];
  }

  lemma OnlyInt(id: nat)
    requires id < I_COUNT
    ensures FormOf(id).Byte? <==> Info(id).mnemonic == "int"
  {
  }

  lemma ByteValues(i: Ins, at: nat, origin: word, rest: seq<byte>)
    requires RegsOk(i) && FormOf(i.id).Byte?
    ensures |Values(Encoding(i, at, origin) + rest, at, origin)| == 1
    ensures Values(Encoding(i, at, origin) + rest, at, origin)[0] < 256
  {
    hide Info, FormOf, Lo, Place, At, WayOf, Mnemonic, Kinds;
    InFront(Encoding(i, at, origin), rest);
    BytesSayPlain(i, at, origin, rest);
  }

  /** The bytes for a line, whatever comes after them, disassemble to its mnemonic and the types of
      its operands; they give the whole line back if and only if a jump reaches its target and the
      number of an interrupt is a byte. */
  lemma LineBack(line: Line, at: nat, origin: word, rest: seq<byte>)
    requires ProperLine(line) && Find(line) < I_COUNT
    ensures RegsOk(InsOf(Find(line), line.values))
    ensures var i := InsOf(Find(line), line.values);
            var d := Disassembled(Encoding(i, at, origin) + rest, at, origin);
            && d.mnemonic == line.mnemonic && d.types == line.types
            && (d == line <==> Reaches(i, at, origin) && (line.mnemonic == "int" ==> line.values[0] < 256))
  {
    hide Info, FormOf, Find, Encoding, Reaches, RegsOk, Values, Canonical, There;
    ChosenLine(line);
    var i := InsOf(Find(line), line.values);
    BytesSay(i, at, origin, rest);
    OnlyInt(i.id);
    FormUsed(i.id);
    if FormOf(i.id).Byte? && i.a >= 256 {
      ByteValues(i, at, origin, rest);
    } else if HasModRm(FormOf(i.id)) {
      ValuesBackPlace(i, at, origin, rest);
    } else {
      ValuesBackPlain(i, at, origin, rest);
    }
  }

  // ----- programs back

  /** The bytes of a statement stand in the output at its offset. */
  lemma {:induction false} OnePassAt(p: seq<Stmt>, k: nat, j: nat)
    requires j < k <= |p| && Ready(p)
    ensures Offset(p, j) + SizeOf(p[j]) <= Offset(p, k)
    ensures OnePass(p, k)[Offset(p, j)..] == KnownBytes(p, j) + OnePass(p, k)[Offset(p, j) + SizeOf(p[j])..]
  {
    hide Ready, KnownBytes, SizeOf;
    var x, y := OnePass(p, k - 1), KnownBytes(p, k - 1);
    assert OnePass(p, k) == x + y;
    if j < k - 1 {
      OnePassAt(p, k - 1, j);
      var from, to := Offset(p, j), Offset(p, j) + SizeOf(p[j]);
      assert (x + y)[from..] == x[from..] + y && (x + y)[to..] == x[to..] + y;
      assert (KnownBytes(p, j) + x[to..]) + y == KnownBytes(p, j) + (x[to..] + y);
    }
  }

  /** The line of statement j with every symbol replaced. */
  function KnownLine(p: seq<Stmt>, j: nat): Line
    requires j < |p| && p[j].Code?
  {
    Line(p[j].mnemonic, Types(p[j].operands), Resolved(p, p[j].operands))
  }

  lemma KnownChosen(p: seq<Stmt>, j: nat)
    requires j < |p| && Ready(p) && p[j].Code?
    ensures ProperLine(KnownLine(p, j)) && Find(KnownLine(p, j)) == Chosen(p[j].mnemonic, p[j].operands) < I_COUNT
  {
    hide Find;
    var m, os := p[j].mnemonic, p[j].operands;
    assert StmtOk(p[j]) && Found(p[j]);
    var v := Resolved(p, os);
    SameChosen(m, os, v, |os|);
    assert v[..|os|] + Raws(os)[|os|..] == v;
  }

  /** What stands in the output at the offset of an instruction disassembles to its mnemonic and the
      types of its operands; it gives the whole line back, with the addresses of the symbols, if and
      only if a jump reaches its target and the number of an interrupt is a byte. */
  lemma StatementBack(p: seq<Stmt>, j: nat)
    requires j < |p| && Ready(p) && p[j].Code?
    ensures Offset(p, j) <= Offset(p, |p|) && Find(KnownLine(p, j)) < I_COUNT && WordsOk(KnownLine(p, j).values)
    ensures var line, o := KnownLine(p, j), Origin(p, |p|);
            var d := Disassembled(OnePass(p, |p|)[Offset(p, j)..], Offset(p, j), o);
            && d.mnemonic == line.mnemonic && d.types == line.types
            && (d == line <==> Reaches(InsOf(Find(line), line.values), Offset(p, j), o)
                               && (line.mnemonic == "int" ==> line.values[0] < 256))
  {
    hide Find, Disassembled, Encoding, Reaches, RegsOk, OnePass;
    var at, line, o := Offset(p, j), KnownLine(p, j), Origin(p, |p|);
    KnownChosen(p, j);
    OnePassAt(p, |p|, j);
    var rest := OnePass(p, |p|)[at + SizeOf(p[j])..];
    LineBack(line, at, o, rest);
    assert KnownBytes(p, j) == Encoding(InsOf(Find(line), line.values), at, o);
  }

  /** Statement e is the last that defines a name. */
  predicate LastDefines(p: seq<Stmt>, e: nat, name: string) {
    e < |p| && Defines(p[e], name) && forall k :: e < k < |p| ==> !Defines(p[k], name)
  }

  lemma {:induction false} AddressFound(p: seq<Stmt>, e: nat, name: string, k: nat)
    requires LastDefines(p, e, name) && e < k <= |p|
    ensures Address(p, name, k) == Offset(p, e)
  {
    hide Offset;
    if e < k - 1 { AddressFound(p, e, name, k - 1); }
  }

  /** A symbol stands for the place in memory of the statement that defines it last: the program is
      loaded at its origin. */
  lemma SymbolPlace(p: seq<Stmt>, j: nat, k: nat, e: nat)
    requires j < |p| && p[j].Code? && k < |p[j].operands| && p[j].operands[k].Sym?
    requires LastDefines(p, e, p[j].operands[k].name)
    ensures KnownLine(p, j).values[k] == (Origin(p, |p|) + Offset(p, e)) % 0x1_0000
  {
    hide Offset, Address, Origin;
    AddressFound(p, e, p[j].operands[k].name, |p|);
  }

  lemma DistanceOf(a: nat, origin: word, from: nat)
    ensures Distance((origin + a) % 0x1_0000, origin, from) == (a - from) % 0x1_0000
  {
  }

  lemma OneOperand(id: nat)
    requires id < I_COUNT && |There(Info(id).types)| == 1 && There(Info(id).types)[0] != RW
    ensures FormOf(id).Byte? || FormOf(id).Short? || FormOf(id).Near?
  {
  }

  /** A jump to a symbol arrives at the statement that defines the symbol last, wherever the program
      is loaded: a jump of two bytes if and only if that lies less than 128 bytes ahead of the next
      instruction or at most 128 behind it, one of three bytes if and only if the distance is no
      multiple of 256. */
  lemma JumpArrives(p: seq<Stmt>, j: nat, e: nat)
    requires j < |p| && Ready(p) && p[j].Code? && |p[j].operands| == 1 && p[j].operands[0].Sym?
    requires p[j].mnemonic != "int" && LastDefines(p, e, p[j].operands[0].name)
    ensures Offset(p, j) <= Offset(p, |p|)
    ensures var d := Disassembled(OnePass(p, |p|)[Offset(p, j)..], Offset(p, j), Origin(p, |p|));
            var ahead := (Offset(p, e) - Offset(p, j + 1)) % 0x1_0000;
            d == Line(p[j].mnemonic, Types(p[j].operands), [(Origin(p, |p|) + Offset(p, e)) % 0x1_0000])
            <==> if SizeOf(p[j]) == 3 then ahead % 256 != 0 else ahead < 0x80 || ahead >= 0xFF80
  {
    hide Find, Disassembled, Encoding, RegsOk, OnePass, Ready, Info, FormOf, Origin, Distance, There;
    var line := KnownLine(p, j);
    StatementBack(p, j);
    KnownChosen(p, j);
    ChosenLine(line);
    SymbolPlace(p, j, 0, e);
    OneOperand(Find(line));
    OffsetNext(p, j);
    var next := Offset(p, j) + SizeOf(p[j]);
    DistanceOf(Offset(p, e), Origin(p, |p|), next);
    assert line.values == [(Origin(p, |p|) + Offset(p, e)) % 0x1_0000];
    assert FormOf(Find(line)).Near? <==> SizeOf(p[j]) == 3;
    OnlyInt(Find(line));
  }

  // ----- data

  /** Data lie in the output one behind the other; a word has its low byte first. */
  lemma {:induction false} DataAt(wide: bool, values: seq<word>, k: nat)
    requires k < |values|
    ensures !wide ==> DataBytes(wide, values)[k] == values[k] % 256
    ensures wide ==> WordAt(DataBytes(wide, values), 2 * k) == values[k]
    ensures wide ==> DataBytes(wide, values)[2 * k] == values[k] % 256
  {
    var init := values[..|values| - 1];
    if k < |init| { DataAt(wide, init, k); }
  }
}
