/** The assembler's two passes over a program, with its symbol table, its table of references to
    be resolved, and its output buffer, all changed in place. */
module NasAssembler {
  import opened NasCode
  import opened NasProgram
  import opened Memory

  datatype Symbol = Symbol(name: string, value: nat)

  datatype Ref = Ref(offset: nat, symbol: nat, operand: nat, id: nat, values: seq<nat>)

  const NAME_SIZE: nat := 8

  // ----- names

  function AddName(ns: seq<string>, name: string): (r: seq<string>)
    ensures name in r && |ns| <= |r| && r[..|ns|] == ns
  {
    if name in ns then ns else ns + [name]
  }

  function OperandNames(ns: seq<string>, os: seq<Operand>): (r: seq<string>)
    ensures |ns| <= |r| && r[..|ns|] == ns
  {
    if os == [] then ns else
    var m := OperandNames(ns, os[..|os| - 1]);
    if os[|os| - 1].Sym? then AddName(m, os[|os| - 1].name) else m
  }

  function StmtNames(ns: seq<string>, s: Stmt): (r: seq<string>)
    ensures |ns| <= |r| && r[..|ns|] == ns
  {
    match s
    case Org(_) => ns
    case Label(name) => AddName(ns, name)
    case Data(name, _, _) => AddName(ns, name)
    case Code(_, os) => OperandNames(ns, os)
  }

  /** The symbols of the first k statements in the order they come up. */
  function Names(p: seq<Stmt>, k: nat): (ns: seq<string>)
    requires k <= |p|
  {
    if k == 0 then [] else StmtNames(Names(p, k - 1), p[k - 1])
  }

  lemma {:induction false} NamesUp(p: seq<Stmt>, j: nat, k: nat)
    requires j <= k <= |p|
    ensures |Names(p, j)| <= |Names(p, k)|
    decreases k - j
  {
    if j < k { NamesUp(p, j, k - 1); }
  }

  lemma {:induction false} OperandNamesUp(ns: seq<string>, os: seq<Operand>, i: nat)
    requires i <= |os|
    ensures |OperandNames(ns, os[..i])| <= |OperandNames(ns, os)|
    decreases |os|
  {
    if i == |os| {
      assert os[..i] == os;
    } else {
      var init := os[..|os| - 1];
      assert init[..i] == os[..i];
      OperandNamesUp(ns, init, i);
    }
  }

  predicate Different(ns: seq<string>) {
    forall i, j :: 0 <= i < j < |ns| ==> ns[i] != ns[j]
  }

  /** The table holds these names, each once, and is empty after them. */
  predicate Table(t: seq<Symbol>, ns: seq<string>) {
    && |ns| <= |t| == S_MAX && Different(ns)
    && (forall i :: 0 <= i < |ns| ==> t[i].name == ns[i] && ns[i] != "")
    && (forall i :: |ns| <= i < |t| ==> t[i] == Symbol("", 0))
  }

  /** And these are the addresses after k statements. */
  ghost predicate Addresses(t: seq<Symbol>, ns: seq<string>, p: seq<Stmt>, k: nat)
    requires k <= |p|
  {
    && Table(t, ns)
    && (forall i :: 0 <= i < |ns| ==> t[i].value == Address(p, ns[i], k))
    && (forall name :: name !in ns ==> Address(p, name, k) == 0)
  }

  /** A reference table entry for statement j. */
  ghost predicate RefIs(r: Ref, p: seq<Stmt>, j: nat, ns: seq<string>) {
    && j < |p| && Symbolic(p[j])
    && var os := p[j].operands;
       r.offset == Offset(p, j) && r.id == Chosen(p[j].mnemonic, os) && r.operand == LastSym(os)
       && r.values == Raws(os) && r.symbol < |ns| && ns[r.symbol] == os[LastSym(os)].name
  }

  ghost predicate Recorded(refs: seq<Ref>, p: seq<Stmt>, k: nat, ns: seq<string>)
    requires k <= |p|
  {
    && |refs| == S_MAX_REF
    && (forall i :: 0 <= i < |Refs(p, k)| ==> RefIs(refs[i], p, Refs(p, k)[i], ns))
    && (forall i :: |Refs(p, k)| <= i < |refs| ==> refs[i].offset == 0)
  }

  predicate ShortNames(ns: seq<string>) {
    forall i :: 0 <= i < |ns| ==> |ns[i]| < NAME_SIZE
  }

  /** The program fits the assembler's tables and buffer. */
  predicate Fits(p: seq<Stmt>, room: nat) {
    ProgramOk(p) && |Names(p, |p|)| <= S_MAX && ShortNames(Names(p, |p|)) && Offset(p, |p|) <= room
  }

  lemma SameRefs(refs: seq<Ref>, p: seq<Stmt>, k: nat, ns: seq<string>, ns': seq<string>)
    requires k <= |p| && Recorded(refs, p, k, ns) && |ns| <= |ns'| && ns'[..|ns|] == ns
    ensures Recorded(refs, p, k, ns')
  {
    forall i | 0 <= i < |Refs(p, k)| ensures RefIs(refs[i], p, Refs(p, k)[i], ns') {
      assert RefIs(refs[i], p, Refs(p, k)[i], ns);
    }
  }

  lemma AddressTable(t: seq<Symbol>, ns: seq<string>, p: seq<Stmt>, k: nat)
    requires k <= |p| && Addresses(t, ns, p, k)
    ensures Table(t, ns) && |t| == S_MAX
  {
  }

  lemma DefinedOnce(t: seq<Symbol>, t1: seq<Symbol>, ns: seq<string>, p: seq<Stmt>, k: nat, name: string, j: nat)
    requires k < |p| && Defines(p[k], name) && Addresses(t, ns, p, k) && |t| == |t1|
    requires Table(t1, AddName(ns, name)) && forall i :: 0 <= i < |t| ==> t1[i].value == t[i].value
    requires j < |AddName(ns, name)| && AddName(ns, name)[j] == name
    ensures j < |t1| && Addresses(t1[j := t1[j].(value := Offset(p, k))], AddName(ns, name), p, k + 1)
  {
    hide Offset, Address, Defines, Different;
    var ns' := AddName(ns, name);
    var t2 := t1[j := t1[j].(value := Offset(p, k))];
    forall i | 0 <= i < |ns'| ensures t2[i].value == Address(p, ns'[i], k + 1) {
      AddressNext(p, k, name, ns'[i]);
      if i != j { OneOf(ns', i, j); }
    }
    forall x | x !in ns' ensures Address(p, x, k + 1) == 0 {
      AddressNext(p, k, name, x);
      assert ns'[j] == name;
    }
  }

  lemma OneOf(ns: seq<string>, i: nat, j: nat)
    requires Different(ns) && i < |ns| && j < |ns| && i != j
    ensures ns[i] != ns[j]
  {
  }

  /** After a statement that defines a name, other names stand for what they did. */
  lemma AddressNext(p: seq<Stmt>, k: nat, name: string, x: string)
    requires k < |p| && Defines(p[k], name)
    ensures Address(p, x, k + 1) == if x == name then Offset(p, k) else Address(p, x, k)
  {
    hide Offset;
  }

  /** Offset and origin reached, both tables and the output after the first k statements. */
  ghost predicate Progress(p: seq<Stmt>, k: nat, o: nat, origin: word, t: seq<Symbol>, refs: seq<Ref>, b: seq<byte>)
    requires k <= |p|
  {
    && o == Offset(p, k) && origin == Origin(p, k)
    && Addresses(t, Names(p, k), p, k) && Recorded(refs, p, k, Names(p, k))
    && (Ready(p) ==> o <= |b| && b[..o] == Output(p, k, {}))
  }

  lemma ProgressParts(p: seq<Stmt>, k: nat, o: nat, origin: word, t: seq<Symbol>, refs: seq<Ref>, b: seq<byte>)
    requires k <= |p| && Progress(p, k, o, origin, t, refs, b)
    ensures o == Offset(p, k) && Table(t, Names(p, k)) && |t| == S_MAX && |refs| == S_MAX_REF
    ensures forall i :: 0 <= i < |Refs(p, k)| ==> refs[i].offset != 0
    ensures forall i :: |Refs(p, k)| <= i < |refs| ==> refs[i].offset == 0
  {
    RecordedOffsets(refs, p, k, Names(p, k));
  }

  lemma CodeProgress(p: seq<Stmt>, k: nat, o: nat, origin: word, t: seq<Symbol>, refs: seq<Ref>, b: seq<byte>,
                     t1: seq<Symbol>, s: nat, nas: nat, id: nat, refs1: seq<Ref>, b1: seq<byte>)
    requires k < |p| && p[k].Code? && Progress(p, k, o, origin, t, refs, b)
    requires |t1| == |t| == S_MAX && |refs| == S_MAX_REF
    requires var os, ns := p[k].operands, OperandNames(Names(p, k), p[k].operands);
             && Table(t1, ns) && (forall i :: 0 <= i < S_MAX ==> t1[i].value == t[i].value)
             && nas == LastSym(os) && (nas < |os| ==> s < |ns| && ns[s] == os[nas].name)
             && id == Chosen(p[k].mnemonic, os) < I_COUNT && WordsOk(Raws(os)) && RegsOk(InsOf(id, Raws(os)))
             && refs1 == (if nas < |os| && |Refs(p, k)| < S_MAX_REF
                          then refs[|Refs(p, k)| := Ref(o, s, nas, id, Raws(os))] else refs)
             && o + Length(id) <= |b1| == |b|
             && b1[..o + Length(id)] == b[..o] + Encoding(InsOf(id, Raws(os)), o, origin)
    ensures Progress(p, k + 1, o + Length(id), origin, t1, refs1, b1)
  {
    hide Addresses, Recorded, Ready, Find, RegsOk, Table, Encoding, Output, OperandNames;
    var os, ns := p[k].operands, Names(p, k);
    NextFacts(p, k);
    StillAddresses(t, t1, p, k);
    NamesKept(p, k, k + 1);
    SameRefs(refs, p, k, ns, Names(p, k + 1));
    CodeOutput(p, k);
    if nas < |os| {
      RecordedMore(refs, p, k, Names(p, k + 1), Ref(o, s, nas, id, Raws(os)));
    } else {
      SameRecorded(refs, p, k, Names(p, k + 1));
    }
  }

  lemma CodeRoom(p: seq<Stmt>, k: nat, room: nat)
    requires Fits(p, room) && k < |p| && p[k].Code? && Chosen(p[k].mnemonic, p[k].operands) < I_COUNT
    ensures Offset(p, k) + Length(Chosen(p[k].mnemonic, p[k].operands)) <= room
  {
    hide Find, Length;
    NextFacts(p, k);
    CodeFits(p, k, room);
  }

  class Assembler {
    const obuff: array<byte>
    const s_table: array<Symbol>
    const s_ref: array<Ref>
    var ooffset: nat
    var cg_origin: word

    ghost predicate Valid()
      reads this
    {
      s_table.Length == S_MAX && s_ref.Length == S_MAX_REF
    }

    constructor (room: nat)
      ensures Valid() && fresh(obuff) && fresh(s_table) && fresh(s_ref) && obuff.Length == room
      ensures ooffset == 0 && cg_origin == 0
      ensures s_table[..] == seq(S_MAX, _ => Symbol("", 0))
      ensures forall i :: 0 <= i < S_MAX_REF ==> s_ref[i].offset == 0
    {
      obuff := new byte[room](_ => 0);
      s_table := new Symbol[S_MAX](_ => Symbol("", 0));
      s_ref := new Ref[S_MAX_REF](_ => Ref(0, 0, 0, 0, []));
      ooffset, cg_origin := 0, 0;
      new;
      assert s_table[..] == seq(S_MAX, _ => Symbol("", 0));
    }

    method FindOrAddSymbol(name: string, ghost ns: seq<string>) returns (s: nat)
      requires Valid() && Table(s_table[..], ns) && |AddName(ns, name)| <= S_MAX && 0 < |name| < NAME_SIZE
      modifies s_table
      ensures Table(s_table[..], AddName(ns, name)) && s < |AddName(ns, name)| && AddName(ns, name)[s] == name
      ensures forall i :: 0 <= i < S_MAX ==> s_table[i].value == old(s_table[i].value)
    {
      s := 0;
      while s < S_MAX
        invariant 0 <= s <= |ns| && forall i :: 0 <= i < s ==> ns[i] != name
        decreases S_MAX - s
      {
        if s_table[s].name == "" {
          assert s == |ns|;
          s_table[s] := Symbol(name, s_table[s].value);
          return;
        } else if s_table[s].name == name {
          return;
        }
        s := s + 1;
      }
    }

    /** The value of a symbol becomes the offset reached. */
    method Define(name: string, ghost p: seq<Stmt>, ghost k: nat, ghost ns: seq<string>)
      requires Valid() && k < |p| && Defines(p[k], name) && ooffset == Offset(p, k)
      requires Addresses(s_table[..], ns, p, k) && |AddName(ns, name)| <= S_MAX && 0 < |name| < NAME_SIZE
      modifies s_table
      ensures Addresses(s_table[..], AddName(ns, name), p, k + 1)
    {
      hide AddName, Addresses, Address, Offset, Table, Defines;
      ghost var t := s_table[..];
      AddressTable(t, ns, p, k);
      var j := FindOrAddSymbol(name, ns);
      DefinedOnce(t, s_table[..], ns, p, k, name, j);
      ghost var t1 := s_table[..];
      s_table[j] := s_table[j].(value := ooffset);
      assert s_table[..] == t1[j := t1[j].(value := ooffset)];
    }

    method AppendSymbolRef(symbol: nat, operand: nat, offset: nat, id: nat, values: seq<nat>, ghost n: nat)
      requires Valid() && n <= S_MAX_REF
      requires forall i :: 0 <= i < n ==> s_ref[i].offset != 0
      requires forall i :: n <= i < S_MAX_REF ==> s_ref[i].offset == 0
      modifies s_ref
      ensures s_ref[..] == if n < S_MAX_REF then old(s_ref[..])[n := Ref(offset, symbol, operand, id, values)]
                           else old(s_ref[..])
    {
      var r := 0;
      while r < S_MAX_REF
        invariant 0 <= r <= n
        invariant s_ref[..] == old(s_ref[..])
        decreases S_MAX_REF - r
      {
        if s_ref[r].offset == 0 {
          s_ref[r] := Ref(offset, symbol, operand, id, values);
          return;
        }
        r := r + 1;
      }
    }

    method EncodeData(offset0: nat, wide: bool, value: word) returns (offset: nat)
      requires offset0 + 2 <= obuff.Length || (!wide && offset0 < obuff.Length)
      modifies obuff
      ensures offset == offset0 + if wide then 2 else 1
      ensures obuff[..] == Put(old(obuff[..]), offset0, if wide then [Lo(value), Hi(value)] else [Lo(value)])
    {
      offset := offset0;
      obuff[offset] := Lo(value);
      offset := offset + 1;
      if wide {
        obuff[offset] := Hi(value);
        offset := offset + 1;
      }
    }

    // ----- the first pass

    /** Both tables and the output buffer after the first k statements. */
    ghost predicate First(p: seq<Stmt>, k: nat)
      requires k <= |p|
      reads this, obuff, s_table, s_ref
    {
      Progress(p, k, ooffset, cg_origin, s_table[..], s_ref[..], obuff[..])
    }

    /** Types and values of operands; a symbol gets its place in the table. */
    method Classify(os: seq<Operand>, ghost ns: seq<string>)
      returns (types: seq<OType>, values: seq<nat>, s: nat, nas: nat)
      requires Valid() && Table(s_table[..], ns) && |OperandNames(ns, os)| <= S_MAX
      requires forall i :: 0 <= i < |os| && os[i].Sym? ==> 0 < |os[i].name| < NAME_SIZE
      modifies s_table
      ensures types == Types(os) && values == Raws(os) && nas == LastSym(os)
      ensures Table(s_table[..], OperandNames(ns, os))
      ensures nas < |os| ==> s < |OperandNames(ns, os)| && OperandNames(ns, os)[s] == os[nas].name
      ensures forall i :: 0 <= i < S_MAX ==> s_table[i].value == old(s_table[i].value)
    {
      hide Table, AddName, LastSym, OperandNames, Types, Raws;
      types, values, s, nas := [], [], 0, |os|;
      assert os[..0] == [];
      ClassifyNone(ns);
      var i := 0;
      while i < |os|
        invariant 0 <= i <= |os| && types == Types(os[..i]) && values == Raws(os[..i])
        invariant LastSym(os[..i]) <= i && nas == if LastSym(os[..i]) == i then |os| else LastSym(os[..i])
        invariant Table(s_table[..], OperandNames(ns, os[..i]))
        invariant LastSym(os[..i]) < i ==>
                    && nas < |os| && os[nas].Sym?
                    && s < |OperandNames(ns, os[..i])| && OperandNames(ns, os[..i])[s] == os[nas].name
        invariant forall i :: 0 <= i < S_MAX ==> s_table[i].value == old(s_table[i].value)
      {
        ghost var m := OperandNames(ns, os[..i]);
        ClassifyOne(ns, os, i);
        OperandNamesUp(ns, os, i + 1);
        if os[i].Sym? {
          s := FindOrAddSymbol(os[i].name, m);
          nas := i;
        }
        types := types + [TypeOf(os[i])];
        values := values + [RawOf(os[i])];
        i := i + 1;
      }
      assert os[..i] == os;
    }

    method WriteData(wide: bool, values: seq<word>)
      requires ooffset + |DataBytes(wide, values)| <= obuff.Length
      modifies this`ooffset, obuff
      ensures ooffset == old(ooffset) + |DataBytes(wide, values)| <= obuff.Length
      ensures obuff[..ooffset] == old(obuff[..ooffset]) + DataBytes(wide, values)
    {
      ghost var was, at := obuff[..ooffset], ooffset;
      assert values[..0] == [] && was + [] == was;
      var n := 0;
      while n < |values|
        invariant 0 <= n <= |values| && ooffset == at + |DataBytes(wide, values[..n])|
        invariant ooffset + (if wide then 2 else 1) * (|values| - n) <= obuff.Length
        invariant obuff[..ooffset] == was + DataBytes(wide, values[..n])
      {
        assert values[..n + 1][..n] == values[..n] && values[..n + 1][n] == values[n];
        ghost var before, s := obuff[..], if wide then [Lo(values[n]), Hi(values[n])] else [Lo(values[n])];
        ghost var o := ooffset;
        ooffset := EncodeData(ooffset, wide, values[n]);
        PutAfter(before, o, s);
        assert obuff[..ooffset] == was + (DataBytes(wide, values[..n]) + s);
        n := n + 1;
      }
      assert values[..n] == values;
    }

    method WriteCode(i: Ins)
      requires RegsOk(i) && ooffset + Length(i.id) <= obuff.Length
      modifies this`ooffset, obuff
      ensures ooffset == old(ooffset) + Length(i.id) <= obuff.Length
      ensures obuff[..ooffset] == old(obuff[..ooffset]) + Encoding(i, old(ooffset), cg_origin)
    {
      hide Encoding, RegsOk;
      PutAfter(obuff[..], ooffset, Encoding(i, ooffset, cg_origin));
      ooffset := EncodeInstruction(obuff, ooffset, i, cg_origin);
    }

    method StatementLabel(ghost p: seq<Stmt>, ghost k: nat, name: string)
      requires Valid() && Fits(p, obuff.Length) && k < |p| && First(p, k) && p[k] == Label(name)
      modifies s_table
      ensures First(p, k + 1)
    {
      hide Fits, Addresses, Recorded, SizeOf, FirstBytes, Ready, AddName;
      NameFits(p, k, name, obuff.Length);
      NextFacts(p, k);
      Define(name, p, k, Names(p, k));
      SameRefs(s_ref[..], p, k, Names(p, k), Names(p, k + 1));
      SameRecorded(s_ref[..], p, k, Names(p, k + 1));
      PlainOutput(p, k);
    }

    method StatementData(ghost p: seq<Stmt>, ghost k: nat, name: string, wide: bool, values: seq<word>)
      requires Valid() && Fits(p, obuff.Length) && k < |p| && First(p, k) && p[k] == Data(name, wide, values)
      modifies this`ooffset, s_table, obuff
      ensures First(p, k + 1)
    {
      hide Fits, Addresses, Recorded, FirstBytes, Ready, AddName;
      NameFits(p, k, name, obuff.Length);
      NextFacts(p, k);
      Define(name, p, k, Names(p, k));
      SameRefs(s_ref[..], p, k, Names(p, k), Names(p, k + 1));
      SameRecorded(s_ref[..], p, k, Names(p, k + 1));
      DataOutput(p, k);
      WriteData(wide, values);
    }

    /** False when there is no such instruction. */
    method StatementCode(ghost p: seq<Stmt>, ghost k: nat, mnemonic: string, os: seq<Operand>) returns (ok: bool)
      requires Valid() && Fits(p, obuff.Length) && k < |p| && First(p, k) && p[k] == Code(mnemonic, os)
      modifies this`ooffset, s_table, s_ref, obuff
      ensures if ok then First(p, k + 1) && Found(p[k]) else !Found(p[k])
    {
      hide Fits, Progress, Find, RegsOk, OperandNames, Table, Encoding, Offset, Refs, Names;
      ghost var ns, t, refs, b, o := Names(p, k), s_table[..], s_ref[..], obuff[..], ooffset;
      CodeFits(p, k, obuff.Length);
      ProgressParts(p, k, o, cg_origin, t, refs, b);
      var types, values, s, nas := Classify(os, ns);
      var id := FindInstruction(Line(mnemonic, types, values));
      if id == NOT_FOUND { return false; }
      OperandsTyped(p, os);
      ChosenEncodes(mnemonic, types, values);
      CodeRoom(p, k, obuff.Length);
      if nas < |os| {
        AppendSymbolRef(s, nas, ooffset, id, values, |Refs(p, k)|);
      }
      WriteCode(InsOf(id, values));
      CodeProgress(p, k, o, cg_origin, t, refs, b, s_table[..], s, nas, id, s_ref[..], obuff[..]);
      return true;
    }

    method StatementOrg(ghost p: seq<Stmt>, ghost k: nat, value: word)
      requires Valid() && k < |p| && First(p, k) && p[k] == Org(value)
      modifies this`cg_origin
      ensures First(p, k + 1)
    {
      hide Addresses, Recorded, Ready;
      NextFacts(p, k);
      AddressTable(s_table[..], Names(p, k), p, k);
      StillAddresses(s_table[..], s_table[..], p, k);
      PlainOutput(p, k);
      SameRecorded(s_ref[..], p, k, Names(p, k));
      cg_origin := value;
    }

    /** The loop over the lines of the program. False, and no output, if an instruction is not known. */
    method FirstPass(p: seq<Stmt>) returns (ok: bool)
      requires Valid() && Fits(p, obuff.Length) && First(p, 0)
      modifies this`ooffset, this`cg_origin, s_table, s_ref, obuff
      ensures if ok then First(p, |p|) && AllFound(p, |p|) else !AllFound(p, |p|)
    {
      hide First, Fits, Found;
      var k := 0;
      while k < |p|
        invariant 0 <= k <= |p| && First(p, k) && AllFound(p, k)
      {
        PlainFound(p[k]);
        match p[k] {
          case Org(value) => StatementOrg(p, k, value);
          case Label(name) => StatementLabel(p, k, name);
          case Data(name, wide, values) => StatementData(p, k, name, wide, values);
          case Code(mnemonic, os) =>
            ok := StatementCode(p, k, mnemonic, os);
            if !ok { return; }
        }
        k := k + 1;
      }
      return true;
    }

    // ----- the second pass

    /** Resolves the references: each recorded instruction is written again with its address. */
    method SecondPass(ghost p: seq<Stmt>)
      requires Valid() && Fits(p, obuff.Length) && Ready(p) && First(p, |p|)
      modifies s_ref, obuff
      ensures ooffset <= obuff.Length && obuff[..ooffset] == Output(p, |p|, RefSet(p, |Refs(p, |p|)|))
    {
      hide Addresses, Recorded, Fits, Ready, Symbolic, RefIs, Refs, RegsOk, Encoding, Output, RefSet, Put, RefReady;
      hide SecondBytes, Patched, Patches;
      ghost var refs, ns, m := s_ref[..], Names(p, |p|), |Refs(p, |p|)|;
      RecordedOffsets(refs, p, |p|, ns);
      AddressTable(s_table[..], ns, p, |p|);
      NoneDone(p);
      var r := 0;
      while r < S_MAX_REF
        invariant 0 <= r <= m <= S_MAX_REF && forall i :: r <= i < S_MAX_REF ==> s_ref[i] == refs[i]
        invariant obuff[..ooffset] == Output(p, |p|, RefSet(p, r))
        decreases S_MAX_REF - r
      {
        if s_ref[r].offset == 0 { break; }
        RefFields(refs, s_table[..], p, r, ns);
        ghost var j, was := Refs(p, |p|)[r], obuff[..];
        Resolve(r, p, j);
        PatchDone(p, r, was, ooffset, obuff[..]);
        r := r + 1;
      }
    }

    /** Writes the instruction of reference r again with the address of its symbol. */
    method Resolve(r: nat, ghost p: seq<Stmt>, ghost j: nat)
      requires Valid() && r < S_MAX_REF && Ready(p) && cg_origin == Origin(p, |p|)
      requires RefReady(s_ref[r], s_table[..], p, j) && Offset(p, |p|) <= obuff.Length
      modifies s_ref, obuff
      ensures forall i :: 0 <= i < S_MAX_REF && i != r ==> s_ref[i] == old(s_ref[i])
      ensures j < |p| && Symbolic(p[j]) && Offset(p, j) + |SecondBytes(p, j)| <= obuff.Length
      ensures obuff[..] == Put(old(obuff[..]), Offset(p, j), SecondBytes(p, j))
    {
      hide Ready, Symbolic, RegsOk, Encoding, Offset, Patched, SecondBytes;
      PatchedEncodes(p, j);
      OffsetFits(p, j);
      var ref := s_ref[r];
      ref := ref.(values := ref.values[ref.operand := (s_table[ref.symbol].value + cg_origin) % 0x1_0000]);
      s_ref[r] := ref;
      var end := EncodeInstruction(obuff, ref.offset, InsOf(ref.id, ref.values), cg_origin);
    }

    // ----- the program

    /** Number of bytes of output, which the buffer holds; none if an instruction is not known. When
        all are, the output is that of both passes, and it is what a single pass would have written
        that knew every address if and only if every statement comes out right. */
    method Assemble(p: seq<Stmt>) returns (n: nat)
      requires Valid() && Fits(p, obuff.Length) && First(p, 0)
      modifies this`ooffset, this`cg_origin, s_table, s_ref, obuff
      ensures !AllFound(p, |p|) ==> n == 0
      ensures AllFound(p, |p|) ==>
                && Ready(p) && n == Offset(p, |p|) <= obuff.Length
                && obuff[..n] == Output(p, |p|, RefSet(p, |Refs(p, |p|)|))
                && (obuff[..n] == OnePass(p, |p|) <==>
                      forall j :: 0 <= j < |p| ==> Right(p, j, RefSet(p, |Refs(p, |p|)|)))
                && (Patchable(p) ==> obuff[..n] == OnePass(p, |p|))
    {
      hide First, Patchable, AllFound, RefSet, Refs, Right;
      var ok := FirstPass(p);
      if !ok {
        ooffset := 0;
        return 0;
      }
      ReadyNow(p, obuff.Length);
      FirstOutput(p);
      if ooffset != 0 {
        SecondPass(p);
      } else {
        NothingOut(p);
      }
      TwoPassIff(p, |p|, RefSet(p, |Refs(p, |p|)|));
      if Patchable(p) { WholePatched(p); }
      return ooffset;
    }

    /** What the first pass says of the output. */
    lemma FirstOutput(p: seq<Stmt>)
      requires First(p, |p|) && Ready(p)
      ensures ooffset == Offset(p, |p|) <= obuff.Length
    {
    }
  }

  lemma ReadyNow(p: seq<Stmt>, room: nat)
    requires Fits(p, room) && AllFound(p, |p|)
    ensures Ready(p)
  {
  }

  lemma NothingOut(p: seq<Stmt>)
    requires Ready(p) && Offset(p, |p|) == 0
    ensures Output(p, |p|, RefSet(p, |Refs(p, |p|)|)) == []
  {
  }

  lemma WholePatched(p: seq<Stmt>)
    requires Ready(p) && Patchable(p)
    ensures Output(p, |p|, RefSet(p, |Refs(p, |p|)|)) == OnePass(p, |p|)
  {
    hide Patchable, Refs, OnePass, Output, Symbolic, Ready;
    BackPatched(p, |p|);
    assert Refs(p, |p|)[..|Refs(p, |p|)|] == Refs(p, |p|);
    assert RefSet(p, |Refs(p, |p|)|) == set j | j in Refs(p, |p|);
  }

  /** A new assembler is ready for any program. */
  lemma Fresh(p: seq<Stmt>, a: Assembler)
    requires a.Valid() && a.ooffset == 0 && a.cg_origin == 0
    requires a.s_table[..] == seq(S_MAX, _ => Symbol("", 0))
    requires forall i :: 0 <= i < S_MAX_REF ==> a.s_ref[i].offset == 0
    ensures a.First(p, 0)
  {
    assert a.obuff[..0] == [];
  }

  /** The statements of the first r references. */
  ghost function RefSet(p: seq<Stmt>, r: nat): (s: set<nat>)
    requires r <= |Refs(p, |p|)|
    ensures Patches(p, s)
  {
    set j: nat | j in Refs(p, |p|)[..r]
  }

  lemma NoneDone(p: seq<Stmt>)
    ensures RefSet(p, 0) == {}
  {
  }

  /** The entry of a reference table stands for statement j, and the symbol table has its address. */
  ghost predicate RefReady(ref: Ref, t: seq<Symbol>, p: seq<Stmt>, j: nat) {
    && j < |p| && Symbolic(p[j]) && ref.symbol < |t| && ref.operand < |ref.values|
    && ref.values[ref.operand := (t[ref.symbol].value + Origin(p, |p|)) % 0x1_0000] == Patched(p, p[j].operands)
    && ref.id == Chosen(p[j].mnemonic, p[j].operands) && ref.offset == Offset(p, j)
  }

  lemma RefFields(refs: seq<Ref>, t: seq<Symbol>, p: seq<Stmt>, r: nat, ns: seq<string>)
    requires Recorded(refs, p, |p|, ns) && r < |Refs(p, |p|)| && Addresses(t, ns, p, |p|)
    ensures RefReady(refs[r], t, p, Refs(p, |p|)[r])
  {
    hide Offset, Origin, Address, Refs, Find;
    assert RefIs(refs[r], p, Refs(p, |p|)[r], ns);
  }

  lemma PatchedEncodes(p: seq<Stmt>, j: nat)
    requires Ready(p) && j < |p| && Symbolic(p[j])
    ensures var os := p[j].operands;
            var i := Chosen(p[j].mnemonic, os);
            && WordsOk(Patched(p, os)) && RegsOk(InsOf(i, Patched(p, os))) && i < I_COUNT
            && Length(i) == |SecondBytes(p, j)|
            && Encoding(InsOf(i, Patched(p, os)), Offset(p, j), Origin(p, |p|)) == SecondBytes(p, j)
  {
    hide Offset, Origin, Encoding, Find, RegsOk, Patched;
    assert StmtOk(p[j]) && Found(p[j]);
    var os := p[j].operands;
    OperandsTyped(p, os);
    PatchedKeeps(p, os);
    ValuesEncode(p, p[j].mnemonic, os, Patched(p, os));
  }

  lemma PatchedKeeps(p: seq<Stmt>, os: seq<Operand>)
    ensures forall k :: 0 <= k < |os| && !os[k].Sym? ==> Patched(p, os)[k] == RawOf(os[k])
  {
    hide Origin, Address;
  }

  lemma OffsetFits(p: seq<Stmt>, j: nat)
    requires Ready(p) && j < |p| && Symbolic(p[j])
    ensures Offset(p, j) + |SecondBytes(p, j)| <= Offset(p, |p|)
  {
    hide SizeOf, SecondBytes;
    OffsetNext(p, j);
    OffsetUp(p, j + 1, |p|);
  }

  /** One more reference resolved. */
  lemma PatchDone(p: seq<Stmt>, r: nat, was: seq<byte>, n: nat, now: seq<byte>)
    requires Ready(p) && r < |Refs(p, |p|)| && n == Offset(p, |p|) <= |was|
    requires was[..n] == Output(p, |p|, RefSet(p, r))
    requires var j := Refs(p, |p|)[r];
             Offset(p, j) + |SecondBytes(p, j)| <= |was| && now == Put(was, Offset(p, j), SecondBytes(p, j))
    ensures now[..n] == Output(p, |p|, RefSet(p, r + 1))
  {
    hide SecondBytes, Output, Ready, Symbolic, Offset, Put;
    var j := Refs(p, |p|)[r];
    OutputPatched(p, |p|, RefSet(p, r), j);
    PutPrefix(was, n, Offset(p, j), SecondBytes(p, j));
    assert Refs(p, |p|)[..r + 1] == Refs(p, |p|)[..r] + [j];
    assert RefSet(p, r + 1) == RefSet(p, r) + {j};
  }

  lemma PutPrefix(s: seq<byte>, n: nat, at: nat, x: seq<byte>)
    requires at + |x| <= n <= |s|
    ensures Put(s, at, x)[..n] == Put(s[..n], at, x)
  {
  }

  lemma ClassifyNone(ns: seq<string>)
    ensures Types([]) == [] && Raws([]) == [] && LastSym([]) == 0 && OperandNames(ns, []) == ns
  {
  }

  lemma ClassifyOne(ns: seq<string>, os: seq<Operand>, i: nat)
    requires i < |os|
    ensures Types(os[..i + 1]) == Types(os[..i]) + [TypeOf(os[i])]
    ensures Raws(os[..i + 1]) == Raws(os[..i]) + [RawOf(os[i])]
    ensures LastSym(os[..i]) <= i
    ensures LastSym(os[..i + 1]) == if os[i].Sym? then i else if LastSym(os[..i]) == i then i + 1 else LastSym(os[..i])
    ensures OperandNames(ns, os[..i + 1])
            == if os[i].Sym? then AddName(OperandNames(ns, os[..i]), os[i].name) else OperandNames(ns, os[..i])
  {
    assert os[..i + 1][..i] == os[..i] && os[..i + 1][i] == os[i];
  }

  lemma PlainFound(s: Stmt)
    ensures !s.Code? ==> Found(s)
  {
  }

  lemma NameFits(p: seq<Stmt>, k: nat, name: string, room: nat)
    requires Fits(p, room) && k < |p| && (p[k].Label? || p[k].Data?) && p[k].name == name
    ensures |AddName(Names(p, k), name)| <= S_MAX && 0 < |name| < NAME_SIZE
    ensures Offset(p, k + 1) <= room && Defines(p[k], name)
  {
    hide SizeOf;
    NamesUp(p, k + 1, |p|);
    OffsetUp(p, k + 1, |p|);
    assert StmtOk(p[k]);
    NamesKept(p, k + 1, |p|);
    var ns := Names(p, k + 1);
    assert name in ns;
    var i :| 0 <= i < |ns| && ns[i] == name;
    assert Names(p, |p|)[i] == name;
  }

  lemma {:induction false} NamesKept(p: seq<Stmt>, j: nat, k: nat)
    requires j <= k <= |p|
    ensures |Names(p, j)| <= |Names(p, k)| && Names(p, k)[..|Names(p, j)|] == Names(p, j)
    decreases k - j
  {
    if j < k { NamesKept(p, j, k - 1); }
  }

  lemma NextFacts(p: seq<Stmt>, k: nat)
    requires k < |p|
    ensures Offset(p, k + 1) == Offset(p, k) + SizeOf(p[k])
    ensures Origin(p, k + 1) == if p[k].Org? then p[k].value else Origin(p, k)
    ensures Names(p, k + 1) == StmtNames(Names(p, k), p[k])
    ensures Refs(p, k + 1) == if Symbolic(p[k]) && Offset(p, k) != 0 && |Refs(p, k)| < S_MAX_REF
                              then Refs(p, k) + [k] else Refs(p, k)
  {
  }

  lemma SameRecorded(refs: seq<Ref>, p: seq<Stmt>, k: nat, ns: seq<string>)
    requires k < |p| && Recorded(refs, p, k, ns) && !Symbolic(p[k])
    ensures Recorded(refs, p, k + 1, ns)
  {
    NextFacts(p, k);
  }

  lemma PlainOutput(p: seq<Stmt>, k: nat)
    requires k < |p| && (p[k].Label? || p[k].Org?)
    ensures SizeOf(p[k]) == 0 && !Symbolic(p[k])
    ensures Ready(p) ==> Output(p, k + 1, {}) == Output(p, k, {})
  {
  }

  lemma DataOutput(p: seq<Stmt>, k: nat)
    requires k < |p| && p[k].Data?
    ensures SizeOf(p[k]) == |DataBytes(p[k].wide, p[k].values)| && !Symbolic(p[k])
    ensures Ready(p) ==> Output(p, k + 1, {}) == Output(p, k, {}) + DataBytes(p[k].wide, p[k].values)
  {
  }

  lemma {:induction false} OperandIn(ns: seq<string>, os: seq<Operand>, i: nat)
    requires i < |os| && os[i].Sym?
    ensures os[i].name in OperandNames(ns, os)
  {
    var init := os[..|os| - 1];
    if i < |os| - 1 {
      assert init[i] == os[i];
      OperandIn(ns, init, i);
      var j :| 0 <= j < |OperandNames(ns, init)| && OperandNames(ns, init)[j] == os[i].name;
      assert OperandNames(ns, os)[j] == os[i].name;
    }
  }

  lemma CodeFits(p: seq<Stmt>, k: nat, room: nat)
    requires Fits(p, room) && k < |p| && p[k].Code?
    ensures |OperandNames(Names(p, k), p[k].operands)| <= S_MAX && Proper(p[k].operands) && Offset(p, k + 1) <= room
    ensures forall i :: 0 <= i < |p[k].operands| && p[k].operands[i].Sym? ==> 0 < |p[k].operands[i].name| < NAME_SIZE
  {
    hide SizeOf, OperandNames, Proper;
    var os := p[k].operands;
    NamesUp(p, k + 1, |p|);
    OffsetUp(p, k + 1, |p|);
    assert StmtOk(p[k]);
    NamesKept(p, k + 1, |p|);
    var ns := Names(p, k + 1);
    forall i | 0 <= i < |os| && os[i].Sym? ensures 0 < |os[i].name| < NAME_SIZE {
      OperandIn(Names(p, k), os, i);
      var j :| 0 <= j < |ns| && ns[j] == os[i].name;
      assert Names(p, |p|)[j] == os[i].name;
    }
  }

  lemma NamesMore(ns: seq<string>, ns': seq<string>)
    requires |ns| <= |ns'| && ns'[..|ns|] == ns && Different(ns')
    ensures forall i :: |ns| <= i < |ns'| ==> ns'[i] !in ns
    ensures forall name :: name in ns ==> name in ns'
  {
    assert forall j :: 0 <= j < |ns| ==> ns'[j] == ns[j];
    forall i | |ns| <= i < |ns'| ensures ns'[i] !in ns {
      forall j | 0 <= j < |ns| ensures ns[j] != ns'[i] {
        assert ns'[j] != ns'[i];
      }
    }
    forall name | name in ns ensures name in ns' {
      var j :| 0 <= j < |ns| && ns[j] == name;
      assert ns'[j] == name;
    }
  }

  lemma StillAddresses(t: seq<Symbol>, t1: seq<Symbol>, p: seq<Stmt>, k: nat)
    requires k < |p| && (p[k].Code? || p[k].Org?) && Addresses(t, Names(p, k), p, k)
    requires |t1| == |t| && Table(t1, Names(p, k + 1)) && forall i :: 0 <= i < |t| ==> t1[i].value == t[i].value
    ensures Addresses(t1, Names(p, k + 1), p, k + 1)
  {
    hide Offset;
    var ns, ns' := Names(p, k), Names(p, k + 1);
    NamesKept(p, k, k + 1);
    NamesMore(ns, ns');
    forall i | 0 <= i < |ns'| ensures t1[i].value == Address(p, ns'[i], k + 1) {
      assert i < |ns| ==> ns'[i] == ns[i];
    }
  }

  lemma RecordedOffsets(refs: seq<Ref>, p: seq<Stmt>, k: nat, ns: seq<string>)
    requires k <= |p| && Recorded(refs, p, k, ns)
    ensures |refs| == S_MAX_REF
    ensures forall i :: 0 <= i < |Refs(p, k)| ==> refs[i].offset != 0
    ensures forall i :: |Refs(p, k)| <= i < |refs| ==> refs[i].offset == 0
  {
    forall i | 0 <= i < |Refs(p, k)| ensures refs[i].offset != 0 {
      assert RefIs(refs[i], p, Refs(p, k)[i], ns);
    }
  }

  lemma RecordedMore(refs: seq<Ref>, p: seq<Stmt>, k: nat, ns: seq<string>, r: Ref)
    requires k < |p| && Recorded(refs, p, k, ns) && RefIs(r, p, k, ns)
    ensures var n := |Refs(p, k)|;
            Recorded(if n < S_MAX_REF then refs[n := r] else refs, p, k + 1, ns)
  {
    hide RefIs, Symbolic, Offset;
    NextFacts(p, k);
    assert RefIs(r, p, k, ns) ==> Symbolic(p[k]) && r.offset == Offset(p, k) by { RefSymbolic(r, p, k, ns); }
  }

  lemma RefSymbolic(r: Ref, p: seq<Stmt>, k: nat, ns: seq<string>)
    requires RefIs(r, p, k, ns)
    ensures k < |p| && Symbolic(p[k]) && r.offset == Offset(p, k)
  {
  }

  lemma CodeOutput(p: seq<Stmt>, k: nat)
    requires k < |p| && p[k].Code?
    ensures var id := Chosen(p[k].mnemonic, p[k].operands);
            && SizeOf(p[k]) == (if id < I_COUNT then Length(id) else 0)
            && (Ready(p) ==>
                  && WordsOk(Raws(p[k].operands)) && RegsOk(InsOf(id, Raws(p[k].operands)))
                  && Output(p, k + 1, {}) == Output(p, k, {})
                     + Encoding(InsOf(id, Raws(p[k].operands)), Offset(p, k), Origin(p, k)))
  {
    hide Encoding, RegsOk, Find, Offset, Origin;
    if Ready(p) {
      assert StmtOk(p[k]) && Found(p[k]);
      OperandsTyped(p, p[k].operands);
      ChosenEncodes(p[k].mnemonic, Types(p[k].operands), Raws(p[k].operands));
      assert FirstBytes(p, k) == Encoding(InsOf(Chosen(p[k].mnemonic, p[k].operands), Raws(p[k].operands)),
                                          Offset(p, k), Origin(p, k));
    }
  }

  lemma PutAfter(s: seq<byte>, at: nat, x: seq<byte>)
    requires at + |x| <= |s|
    ensures Put(s, at, x)[..at + |x|] == s[..at] + x
  {
  }
}
