/** Assembly programs after their lines have been cut into tokens: what each statement occupies,
    what the two passes of the assembler make of it, and what a single pass that knew all
    addresses would make of it. */
module NasProgram {
  import opened NasCode
  import opened Memory

  const S_MAX: nat := 32
  const S_MAX_REF: nat := 32

  /** The raw value of a symbol is what the number parser makes of its name. */
  datatype Operand =
    | Reg(r: nat, pointer: bool)
    | Imm(value: word, pointer: bool)
    | Sym(name: string, raw: word, pointer: bool)

  datatype Stmt =
    | Org(value: word)
    | Label(name: string)
    | Data(name: string, wide: bool, values: seq<word>)
    | Code(mnemonic: string, operands: seq<Operand>)

  // ----- one statement

  function TypeOf(o: Operand): OType {
    match o
    case Reg(_, p) => if p then RMW else RW
    case Imm(_, p) => if p then MW else IW
    case Sym(_, _, p) => if p then MW else IW
  }

  function RawOf(o: Operand): nat {
    match o
    case Reg(r, _) => r
    case Imm(v, _) => v
    case Sym(_, raw, _) => raw
  }

  function Types(os: seq<Operand>): (t: seq<OType>)
    ensures |t| == |os| && forall k :: 0 <= k < |os| ==> t[k] == TypeOf(os[k])
  {
    seq(|os|, k requires 0 <= k < |os| => TypeOf(os[k]))
  }

  function Raws(os: seq<Operand>): (v: seq<nat>)
    ensures |v| == |os| && forall k :: 0 <= k < |os| ==> v[k] == RawOf(os[k])
  {
    seq(|os|, k requires 0 <= k < |os| => RawOf(os[k]))
  }

  /** Registers are in the table, and no more than three operands are given. */
  predicate Proper(os: seq<Operand>) {
    |os| <= 3 && forall k :: 0 <= k < |os| ==> os[k].Reg? ==> IsReg(os[k].r)
  }

  /** The instruction chosen for a statement. */
  function Chosen(mnemonic: string, os: seq<Operand>): (id: nat)
    ensures id == NOT_FOUND || id < I_COUNT
  {
    Find(Line(mnemonic, Types(os), Raws(os)))
  }

  predicate WordsOk(values: seq<nat>) {
    forall k :: 0 <= k < |values| ==> values[k] < 0x1_0000
  }

  function InsOf(id: nat, values: seq<nat>): Ins
    requires WordsOk(values)
  {
    Ins(id, if |values| > 0 then values[0] else 0, if |values| > 1 then values[1] else 0)
  }

  /** Values fit their types: what is typed as a register is one. */
  predicate Typed(types: seq<OType>, values: seq<nat>) {
    |types| == |values| && WordsOk(values)
    && forall k :: 0 <= k < |types| && types[k] == RW ==> values[k] <= 8
  }

  lemma FormTypes(id: nat)
    requires id < I_COUNT
    ensures var d := Info(id);
            |d.types| == 2 &&
            match FormOf(id)
            case InOpcode => d.nops >= 1 && d.types[0] == RW
            case Load => d.nops >= 1 && d.types[0] == RW
            case Immediate(_) => d.nops >= 1 && d.types[0] == RW
            case Unary(_) => d.nops >= 1 && d.types[0] == RW
            case FromMemory => d.nops >= 1 && d.types[0] == RW
            case FromPointer => d.nops >= 1 && d.types[0] == RW
            case ToMemory => d.nops >= 2 && d.types[1] == RW
            case ToPointer => d.nops >= 2 && d.types[1] == RW
            case RegReg => d.nops >= 2 && d.types[0] == RW && d.types[1] == RW
            case _ => true
  {
  }

  lemma {:induction false} FindMatches(line: Line, from: nat)
    requires |line.types| == |line.values| && Find(line, from) != NOT_FOUND
    ensures Find(line, from) < I_COUNT && Matches(line, Find(line, from))
    decreases I_COUNT - from
  {
    hide Matches;
    if from < I_COUNT && !Matches(line, from) { FindMatches(line, from + 1); }
  }

  /** What is chosen for typed operands can be encoded. */
  lemma ChosenEncodes(mnemonic: string, types: seq<OType>, values: seq<nat>)
    requires Typed(types, values)
    ensures var id := Find(Line(mnemonic, types, values));
            id != NOT_FOUND ==> id < I_COUNT && RegsOk(InsOf(id, values))
  {
    hide Info, FormOf, Find;
    var line := Line(mnemonic, types, values);
    var id := Find(line);
    if id != NOT_FOUND {
      FindMatches(line, 0);
      FormTypes(id);
      assert |types| == Info(id).nops;
      assert forall k :: 0 <= k < |types| ==> types[k] == Info(id).types[k];
    }
  }

  /** Position of the last symbol among operands, or their number. */
  function LastSym(os: seq<Operand>): (k: nat)
    ensures k <= |os| && (k < |os| ==> os[k].Sym?)
    ensures k == |os| ==> forall j :: 0 <= j < |os| ==> !os[j].Sym?
    ensures forall j :: k < j < |os| ==> !os[j].Sym?
  {
    if os == [] then 0
    else if os[|os| - 1].Sym? then |os| - 1
    else var k := LastSym(os[..|os| - 1]); if k == |os| - 1 then |os| else k
  }

  predicate Symbolic(s: Stmt) {
    s.Code? && LastSym(s.operands) < |s.operands|
  }

  predicate StmtOk(s: Stmt) {
    match s
    case Org(_) => true
    case Label(name) => name != ""
    case Data(name, _, _) => name != ""
    case Code(m, os) => Proper(os) && forall k :: 0 <= k < |os| && os[k].Sym? ==> os[k].name != ""
  }

  predicate Found(s: Stmt) {
    s.Code? ==> Chosen(s.mnemonic, s.operands) < I_COUNT
  }

  function SizeOf(s: Stmt): nat {
    match s
    case Data(_, wide, values) => if wide then 2 * |values| else |values|
    case Code(m, os) => if Chosen(m, os) < I_COUNT then Length(Chosen(m, os)) else 0
    case _ => 0
  }

  // ----- a program

  predicate ProgramOk(p: seq<Stmt>) {
    forall k :: 0 <= k < |p| ==> StmtOk(p[k])
  }

  predicate AllFound(p: seq<Stmt>, k: nat)
    requires k <= |p|
  {
    forall j :: 0 <= j < k ==> Found(p[j])
  }

  function Offset(p: seq<Stmt>, k: nat): nat
    requires k <= |p|
  {
    if k == 0 then 0 else Offset(p, k - 1) + SizeOf(p[k - 1])
  }

  function Origin(p: seq<Stmt>, k: nat): word
    requires k <= |p|
  {
    if k == 0 then 0 else if p[k - 1].Org? then p[k - 1].value else Origin(p, k - 1)
  }

  predicate Defines(s: Stmt, name: string) {
    (s.Label? || s.Data?) && s.name == name
  }

  /** The value of a symbol after k statements: where it was defined last, or 0. */
  function Address(p: seq<Stmt>, name: string, k: nat): nat
    requires k <= |p|
  {
    if k == 0 then 0 else if Defines(p[k - 1], name) then Offset(p, k - 1) else Address(p, name, k - 1)
  }

  /** The statements among the first k whose symbol is recorded for the second pass: one that is
      not at offset 0, as long as the table has room. */
  function Refs(p: seq<Stmt>, k: nat): (r: seq<nat>)
    requires k <= |p|
    ensures |r| <= S_MAX_REF
    ensures forall i :: 0 <= i < |r| ==> r[i] < k && Symbolic(p[r[i]]) && Offset(p, r[i]) != 0
  {
    if k == 0 then []
    else if Symbolic(p[k - 1]) && Offset(p, k - 1) != 0 && |Refs(p, k - 1)| < S_MAX_REF then Refs(p, k - 1) + [k - 1]
    else Refs(p, k - 1)
  }

  function Target(p: seq<Stmt>, name: string): word
  {
    (Address(p, name, |p|) + Origin(p, |p|)) % 0x1_0000
  }

  /** Operand values with the last symbol replaced by its address. */
  function Patched(p: seq<Stmt>, os: seq<Operand>): (v: seq<nat>)
    ensures |v| == |os|
  {
    var k := LastSym(os);
    if k < |os| then Raws(os)[k := Target(p, os[k].name)] else Raws(os)
  }

  /** Operand values with every symbol replaced. */
  function Resolved(p: seq<Stmt>, os: seq<Operand>): (v: seq<nat>)
    ensures |v| == |os|
    ensures forall k :: 0 <= k < |os| ==> v[k] == if os[k].Sym? then Target(p, os[k].name) else RawOf(os[k])
  {
    seq(|os|, k requires 0 <= k < |os| => if os[k].Sym? then Target(p, os[k].name) else RawOf(os[k]))
  }

  function DataBytes(wide: bool, values: seq<word>): (s: seq<byte>)
    ensures |s| == if wide then 2 * |values| else |values|
  {
    if values == [] then [] else
    DataBytes(wide, values[..|values| - 1])
    + if wide then [Lo(values[|values| - 1]), Hi(values[|values| - 1])] else [Lo(values[|values| - 1])]
  }

  lemma OperandsTyped(p: seq<Stmt>, os: seq<Operand>)
    requires Proper(os)
    ensures Typed(Types(os), Raws(os)) && Typed(Types(os), Patched(p, os)) && Typed(Types(os), Resolved(p, os))
  {
  }

  /** The instruction does not depend on the values of symbols. */
  lemma SameChosen(m: string, os: seq<Operand>, values: seq<nat>, n: nat)
    requires |values| == |os| && n <= |os|
    requires forall k :: 0 <= k < |os| && !os[k].Sym? ==> values[k] == RawOf(os[k])
    ensures Find(Line(m, Types(os), values[..n] + Raws(os)[n..])) == Chosen(m, os)
  {
    hide Find;
    var v := values[..n] + Raws(os)[n..];
    if n == 0 {
      assert v == Raws(os);
    } else {
      var u := values[..n - 1] + Raws(os)[n - 1..];
      SameChosen(m, os, values, n - 1);
      assert v == u[n - 1 := values[n - 1]];
      if os[n - 1].Sym? {
        FindIgnoresValue(Line(m, Types(os), u), n - 1, values[n - 1], 0);
      } else {
        assert v == u;
      }
    }
  }

  lemma ValuesEncode(p: seq<Stmt>, m: string, os: seq<Operand>, values: seq<nat>)
    requires Proper(os) && Chosen(m, os) < I_COUNT && Typed(Types(os), values)
    requires forall k :: 0 <= k < |os| && !os[k].Sym? ==> values[k] == RawOf(os[k])
    ensures RegsOk(InsOf(Chosen(m, os), values))
  {
    hide Find, RegsOk;
    SameChosen(m, os, values, |os|);
    assert values[..|os|] + Raws(os)[|os|..] == values;
    ChosenEncodes(m, Types(os), values);
  }

  // ----- the output

  /** A program that the assembler takes: every statement proper and every instruction known. */
  predicate Ready(p: seq<Stmt>) {
    ProgramOk(p) && AllFound(p, |p|)
  }

  /** The bytes of an instruction statement with the given operand values. */
  function CodeBytes(p: seq<Stmt>, j: nat, values: seq<nat>, origin: word): (s: seq<byte>)
    requires j < |p| && Ready(p) && p[j].Code? && Typed(Types(p[j].operands), values)
    requires forall k :: 0 <= k < |values| && !p[j].operands[k].Sym? ==> values[k] == RawOf(p[j].operands[k])
    ensures |s| == SizeOf(p[j])
  {
    assert StmtOk(p[j]) && Found(p[j]);
    ValuesEncode(p, p[j].mnemonic, p[j].operands, values);
    Encoding(InsOf(Chosen(p[j].mnemonic, p[j].operands), values), Offset(p, j), origin)
  }

  /** The bytes that the first pass writes for statement j. */
  function FirstBytes(p: seq<Stmt>, j: nat): (s: seq<byte>)
    requires j < |p| && Ready(p)
    ensures |s| == SizeOf(p[j])
  {
    match p[j]
    case Data(_, wide, values) => DataBytes(wide, values)
    case Code(_, os) => assert StmtOk(p[j]); OperandsTyped(p, os); CodeBytes(p, j, Raws(os), Origin(p, j))
    case _ => []
  }

  /** The bytes that the second pass puts in their place. */
  function SecondBytes(p: seq<Stmt>, j: nat): (s: seq<byte>)
    requires j < |p| && Ready(p) && Symbolic(p[j])
    ensures |s| == SizeOf(p[j])
  {
    assert StmtOk(p[j]);
    OperandsTyped(p, p[j].operands);
    CodeBytes(p, j, Patched(p, p[j].operands), Origin(p, |p|))
  }

  /** The bytes that a single pass would write if it knew every address, and the last origin. */
  function KnownBytes(p: seq<Stmt>, j: nat): (s: seq<byte>)
    requires j < |p| && Ready(p)
    ensures |s| == SizeOf(p[j])
  {
    match p[j]
    case Data(_, wide, values) => DataBytes(wide, values)
    case Code(_, os) => assert StmtOk(p[j]); OperandsTyped(p, os); CodeBytes(p, j, Resolved(p, os), Origin(p, |p|))
    case _ => []
  }

  /** The statements in done are among those with symbols. */
  predicate Patches(p: seq<Stmt>, done: set<nat>) {
    forall j :: j in done ==> j < |p| && Symbolic(p[j])
  }

  /** What the output holds for statement j when those in done have been patched. */
  function Piece(p: seq<Stmt>, j: nat, done: set<nat>): (s: seq<byte>)
    requires j < |p| && Ready(p) && Patches(p, done)
    ensures |s| == SizeOf(p[j])
  {
    if j in done then SecondBytes(p, j) else FirstBytes(p, j)
  }

  /** The output for the first k statements. */
  function Output(p: seq<Stmt>, k: nat, done: set<nat>): (s: seq<byte>)
    requires k <= |p| && Ready(p) && Patches(p, done)
    ensures |s| == Offset(p, k)
  {
    if k == 0 then [] else Output(p, k - 1, done) + Piece(p, k - 1, done)
  }

  function OnePass(p: seq<Stmt>, k: nat): (s: seq<byte>)
    requires k <= |p| && Ready(p)
    ensures |s| == Offset(p, k)
  {
    if k == 0 then [] else OnePass(p, k - 1) + KnownBytes(p, k - 1)
  }

  lemma {:induction false} OffsetUp(p: seq<Stmt>, j: nat, k: nat)
    requires j <= k <= |p|
    ensures Offset(p, j) <= Offset(p, k)
    decreases k - j
  {
    hide SizeOf;
    if j < k { OffsetUp(p, j, k - 1); }
  }

  /** Overwriting a statement with its second bytes patches it and nothing else. */
  lemma {:induction false} OutputPatched(p: seq<Stmt>, k: nat, done: set<nat>, j: nat)
    requires k <= |p| && Ready(p) && Patches(p, done)
    requires j < k && Symbolic(p[j])
    ensures Offset(p, j) + |SecondBytes(p, j)| <= Offset(p, k)
    ensures Put(Output(p, k, done), Offset(p, j), SecondBytes(p, j)) == Output(p, k, done + {j})
    decreases k
  {
    hide SizeOf, Ready, Symbolic, SecondBytes, FirstBytes, Put, Offset;
    OffsetNext(p, j);
    OffsetUp(p, j + 1, k);
    var x, s := Output(p, k - 1, done), SecondBytes(p, j);
    var y := if k - 1 in done then SecondBytes(p, k - 1) else FirstBytes(p, k - 1);
    assert Output(p, k, done) == x + y && |x| == Offset(p, k - 1) && |y| == SizeOf(p[k - 1]);
    assert |s| == SizeOf(p[j]);
    if j == k - 1 {
      OutputElsewhere(p, j, done, j);
      PutLast(x, y, s);
    } else {
      OffsetUp(p, j + 1, k - 1);
      OutputPatched(p, k - 1, done, j);
      PutInFront(x, y, Offset(p, j), s);
    }
  }

  lemma OffsetNext(p: seq<Stmt>, j: nat)
    requires j < |p|
    ensures Offset(p, j + 1) == Offset(p, j) + SizeOf(p[j])
  {
    hide SizeOf;
  }

  lemma PutLast(x: seq<byte>, y: seq<byte>, s: seq<byte>)
    requires |s| == |y|
    ensures Put(x + y, |x|, s) == x + s
  {
  }

  lemma PutInFront(x: seq<byte>, y: seq<byte>, at: nat, s: seq<byte>)
    requires at + |s| <= |x|
    ensures Put(x + y, at, s) == Put(x, at, s) + y
  {
  }

  lemma {:induction false} OutputElsewhere(p: seq<Stmt>, k: nat, done: set<nat>, j: nat)
    requires k <= |p| && Ready(p) && Patches(p, done)
    requires k <= j < |p| && Symbolic(p[j])
    ensures Output(p, k, done + {j}) == Output(p, k, done)
  {
    hide SizeOf, Ready, Symbolic, SecondBytes, FirstBytes;
    if k > 0 { OutputElsewhere(p, k - 1, done, j); }
  }

  // ----- exactly when the two passes come out right

  /** Statement j comes out as if every address had been known: what its operands were taken to
      be, and the origin then, agree with what they are, as far as its bytes depend on them. */
  predicate Right(p: seq<Stmt>, j: nat, done: set<nat>)
    requires j < |p| && Ready(p)
  {
    match p[j]
    case Code(m, os) =>
      assert StmtOk(p[j]) && Found(p[j]);
      OperandsTyped(p, os);
      Agrees(InsOf(Chosen(m, os), if j in done then Patched(p, os) else Raws(os)),
             InsOf(Chosen(m, os), Resolved(p, os)),
             if j in done then Origin(p, |p|) else Origin(p, j), Origin(p, |p|))
    case _ => true
  }

  lemma StmtRight(p: seq<Stmt>, j: nat, done: set<nat>)
    requires j < |p| && Ready(p) && (j in done ==> Symbolic(p[j]))
    ensures (if j in done then SecondBytes(p, j) else FirstBytes(p, j)) == KnownBytes(p, j) <==> Right(p, j, done)
  {
    if p[j].Code? {
      var m, os := p[j].mnemonic, p[j].operands;
      assert StmtOk(p[j]) && Found(p[j]);
      OperandsTyped(p, os);
      var v := if j in done then Patched(p, os) else Raws(os);
      ValuesEncode(p, m, os, v);
      ValuesEncode(p, m, os, Resolved(p, os));
      hide Agrees, Encoding, RegsOk, Chosen;
      SameCode(InsOf(Chosen(m, os), v), InsOf(Chosen(m, os), Resolved(p, os)), Offset(p, j),
               if j in done then Origin(p, |p|) else Origin(p, j), Origin(p, |p|));
    }
  }

  lemma SplitSame(x: seq<byte>, y: seq<byte>, x': seq<byte>, y': seq<byte>)
    requires |x| == |x'|
    ensures x + y == x' + y' <==> x == x' && y == y'
  {
    if x + y == x' + y' {
      assert x == (x + y)[..|x|] && y == (x + y)[|x|..];
    }
  }

  /** The two passes together write what one pass would that knew every address if and only if
      every statement comes out right. */
  lemma {:induction false} TwoPassIff(p: seq<Stmt>, k: nat, done: set<nat>)
    requires k <= |p| && Ready(p) && Patches(p, done)
    ensures Output(p, k, done) == OnePass(p, k) <==> forall j :: 0 <= j < k ==> Right(p, j, done)
  {
    hide Ready, Symbolic, SecondBytes, FirstBytes, KnownBytes, Right;
    if k > 0 {
      var j := k - 1;
      TwoPassIff(p, j, done);
      StmtRight(p, j, done);
      SplitSame(Output(p, j, done), if j in done then SecondBytes(p, j) else FirstBytes(p, j),
                OnePass(p, j), KnownBytes(p, j));
    }
  }

  // ----- when back-patching is right

  function Symbols(os: seq<Operand>): nat {
    if os == [] then 0 else Symbols(os[..|os| - 1]) + if os[|os| - 1].Sym? then 1 else 0
  }

  /** Number of statements with symbols among the first k. */
  function Uses(p: seq<Stmt>, k: nat): nat
    requires k <= |p|
  {
    if k == 0 then 0 else Uses(p, k - 1) + if Symbolic(p[k - 1]) then 1 else 0
  }

  /** One origin, set before anything else; no more statements with symbols than the table has
      room for, none of them at offset 0, and one symbol in each. */
  predicate Patchable(p: seq<Stmt>) {
    && (forall k :: 0 < k < |p| ==> !p[k].Org?)
    && Uses(p, |p|) <= S_MAX_REF
    && (forall k :: 0 <= k < |p| && Symbolic(p[k]) ==> Offset(p, k) != 0 && Symbols(p[k].operands) == 1)
  }

  lemma {:induction false} OneOrigin(p: seq<Stmt>, k: nat)
    requires k <= |p| && forall k :: 0 < k < |p| ==> !p[k].Org?
    ensures 0 < k ==> Origin(p, k) == Origin(p, |p|)
    ensures k < |p| && !p[0].Org? ==> Origin(p, k) == Origin(p, |p|)
    decreases |p| - k
  {
    if k < |p| { OneOrigin(p, k + 1); }
  }

  lemma {:induction false} AllRecorded(p: seq<Stmt>, k: nat)
    requires k <= |p| && Uses(p, k) <= S_MAX_REF
    requires forall j :: 0 <= j < |p| && Symbolic(p[j]) ==> Offset(p, j) != 0
    ensures |Refs(p, k)| == Uses(p, k)
    ensures forall j: nat :: j in Refs(p, k) <==> j < k && Symbolic(p[j])
  {
    hide Symbolic, Offset;
    if k > 0 { AllRecorded(p, k - 1); }
  }

  lemma {:induction false} NoSymbols(os: seq<Operand>)
    ensures Symbols(os) == 0 <==> forall k :: 0 <= k < |os| ==> !os[k].Sym?
  {
    if os != [] {
      NoSymbols(os[..|os| - 1]);
      assert forall k :: 0 <= k < |os| - 1 ==> os[..|os| - 1][k] == os[k];
    }
  }

  /** With one symbol, the last is the only one. */
  lemma {:induction false} OnlySymbol(os: seq<Operand>)
    requires Symbols(os) == 1
    ensures LastSym(os) < |os| && forall k :: 0 <= k < |os| && os[k].Sym? ==> k == LastSym(os)
  {
    var init := os[..|os| - 1];
    assert forall k :: 0 <= k < |init| ==> init[k] == os[k];
    if os[|os| - 1].Sym? {
      NoSymbols(init);
    } else {
      OnlySymbol(init);
    }
  }

  lemma SameBytesAt(p: seq<Stmt>, j: nat)
    requires j < |p| && Ready(p) && Patchable(p)
    ensures (if Symbolic(p[j]) then SecondBytes(p, j) else FirstBytes(p, j)) == KnownBytes(p, j)
  {
    OneOrigin(p, j);
    if p[j].Code? {
      var os := p[j].operands;
      assert StmtOk(p[j]);
      if Symbolic(p[j]) {
        OnlySymbol(os);
        assert Patched(p, os) == Resolved(p, os);
      } else {
        assert Raws(os) == Resolved(p, os);
        assert j == 0 ==> !p[0].Org?;
      }
    }
  }

  /** The two passes together write what one pass would that knew every address. */
  lemma {:induction false} BackPatched(p: seq<Stmt>, k: nat)
    requires k <= |p| && Ready(p) && Patchable(p)
    ensures Output(p, k, set j | j in Refs(p, |p|)) == OnePass(p, k)
  {
    hide Ready, Symbolic, SecondBytes, FirstBytes, KnownBytes, Patchable, Refs;
    if k > 0 {
      BackPatched(p, k - 1);
      SameBytesAt(p, k - 1);
      RecordedAll(p);
    }
  }

  lemma RecordedAll(p: seq<Stmt>)
    requires Patchable(p)
    ensures forall j: nat :: j in Refs(p, |p|) <==> j < |p| && Symbolic(p[j])
  {
    AllRecorded(p, |p|);
  }

  /** A statement is recorded for the second pass if and only if it has a symbol, is not at offset
      0, and comes before the table is full. */
  lemma {:induction false} RecordedIff(p: seq<Stmt>, k: nat, j: nat)
    requires k <= |p|
    ensures j in Refs(p, k) <==> j < k && Symbolic(p[j]) && Offset(p, j) != 0 && |Refs(p, j)| < S_MAX_REF
  {
    hide Symbolic, Offset;
    if k > 0 { RecordedIff(p, k - 1, j); }
  }

  /** A jump forward in the first statement: it keeps the address that the first pass made up. */
  function JumpFirst(): seq<Stmt> {
    [Code("jmp", [Sym("x", 0, false)]), Label("x")]
  }

  lemma JumpChosen()
    ensures Chosen("jmp", [Sym("x", 0, false)]) == 18
  {
    var line := Line("jmp", Types([Sym("x", 0, false)]), Raws([Sym("x", 0, false)]));
    assert Info(18) == Idata("jmp", 0xE9, 1, [IW, ANY], [0, 0]);
    assert Matches(line, 18);
    JumpNotBefore(line, 0);
  }

  lemma {:induction false} JumpNotBefore(line: Line, from: nat)
    requires from <= 18 && line.mnemonic == "jmp" && |line.types| == |line.values| && Matches(line, 18)
    ensures Find(line, from) == 18
    decreases 18 - from
  {
    if from < 18 {
      JumpNotBefore(line, from + 1);
      NotJump(from);
    }
  }

  lemma NotJump(id: nat)
    requires id < 18
    ensures Info(id).mnemonic != "jmp"
  {
  }

  lemma JumpBytes(p: seq<Stmt>)
    requires p == JumpFirst() && Ready(p)
    ensures FirstBytes(p, 0) == [0xE9, 0xFD, 0xFF] && KnownBytes(p, 0) == [0xE9, 0x00, 0xFF]
    ensures SizeOf(p[0]) == 3
  {
    JumpChosen();
    hide Find;
    assert Offset(p, 1) == 3 && Origin(p, 1) == 0 && Origin(p, 2) == 0;
    assert Address(p, "x", 2) == 3;
    assert OpcodeOf(18) == 0xE9;
  }

  lemma JumpReady()
    ensures Ready(JumpFirst())
  {
    hide Find;
    var p := JumpFirst();
    JumpChosen();
    assert StmtOk(p[0]) && StmtOk(p[1]) && Found(p[0]) && Found(p[1]);
  }

  lemma JumpFirstLost()
    ensures var p := JumpFirst(); Ready(p) && Refs(p, 2) == [] && Output(p, 2, {}) != OnePass(p, 2)
  {
    hide Find, FirstBytes, KnownBytes, Ready, StmtOk;
    var p := JumpFirst();
    JumpReady();
    JumpBytes(p);
    assert Refs(p, 0) == [] && Refs(p, 1) == [] && Refs(p, 2) == [];
    assert Output(p, 1, {}) == FirstBytes(p, 0) && OnePass(p, 1) == KnownBytes(p, 0);
    assert Output(p, 2, {})[1] == 0xFD && OnePass(p, 2)[1] == 0;
  }
}
