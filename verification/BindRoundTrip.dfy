/** Assembling bind programs and replaying them: the interpreter does what each instruction means. */
module BindRoundTrip {
  import opened Wrappers
  import opened BindStream

  /** The operand fits its field of the encoding. */
  predicate Encodable(i: Instr) {
    match i
    case Done => true
    case SetType(imm) => imm < 16
    case OrdinalImm(imm) => imm < 16
    case OrdinalUleb(v) => v < WORD
    case SpecialImm(imm) => imm < 16
    case SetSymbol(imm, name) => imm < 16 && IsCName(name)
    case SetAddend(raw) => IsLeb(raw)
    case SetSegment(imm, v) => imm < 16 && v < WORD
    case AddAddr(v) => v < WORD
    case DoBind => true
    case DoBindAddAddr(v) => v < WORD
    case DoBindScaled(imm) => imm < 16
    case DoBindTimes(count, skip) => count < WORD && skip < WORD
  }

  /** The leading byte: the opcode and its immediate. */
  function Opcode(i: Instr): (b: Byte)
    requires Encodable(i)
  {
    match i
    case Done => 0x00
    case OrdinalImm(imm) => 0x10 + imm
    case OrdinalUleb(_) => 0x20
    case SpecialImm(imm) => 0x30 + imm
    case SetSymbol(imm, _) => 0x40 + imm
    case SetType(imm) => 0x50 + imm
    case SetAddend(_) => 0x60
    case SetSegment(imm, _) => 0x70 + imm
    case AddAddr(_) => 0x80
    case DoBind => 0x90
    case DoBindAddAddr(_) => 0xa0
    case DoBindScaled(imm) => 0xb0 + imm
    case DoBindTimes(_, _) => 0xc0
  }

  /** What follows it. */
  function Operands(i: Instr): (bs: Bytes) {
    match i
    case OrdinalUleb(v) => EncodeUleb(v)
    case SetSymbol(_, name) => name + [0]
    case SetAddend(raw) => raw
    case SetSegment(_, v) => EncodeUleb(v)
    case AddAddr(v) => EncodeUleb(v)
    case DoBindAddAddr(v) => EncodeUleb(v)
    case DoBindTimes(count, skip) => EncodeUleb(count) + EncodeUleb(skip)
    case _ => []
  }

  function Encode(i: Instr): (bs: Bytes)
    requires Encodable(i)
  {
    [Opcode(i)] + Operands(i)
  }

  /** What decoding keeps of an instruction: everything but the ignored addend. */
  function Kept(i: Instr): (r: Instr) { if i.SetAddend? then SetAddend([]) else i }

  lemma Head(bytes: Bytes, at: nat, b: Byte, rest: Bytes)
    requires At(bytes, at, [b] + rest)
    ensures at < |bytes| && bytes[at] == b && At(bytes, at + 1, rest)
  {
    AtSplit(bytes, at, [b], rest);
  }

  /** The instruction's bytes at `at`: its leading byte, then its operands, all before `end`. */
  ghost predicate Laid(bytes: Bytes, at: nat, end: nat, i: Instr) {
    && Encodable(i) && at < |bytes| && bytes[at] == Opcode(i)
    && At(bytes, at + 1, Operands(i)) && at + 1 + |Operands(i)| <= end
  }

  lemma DecodeSymbol(bytes: Bytes, at: nat, end: nat, i: Instr)
    requires i.SetSymbol? && Laid(bytes, at, end, i)
    ensures Decode(bytes, at, end) == Ok((i, at + 1 + |Operands(i)|))
  {
    ReadNameInverts(bytes, at + 1, i.name);
  }

  lemma DecodeAddend(bytes: Bytes, at: nat, end: nat, i: Instr)
    requires i.SetAddend? && Laid(bytes, at, end, i)
    ensures Decode(bytes, at, end) == Ok((SetAddend([]), at + 1 + |Operands(i)|))
  {
    SlebConsumes(bytes, at + 1, end, 0, i.raw);
  }

  lemma TwoOperands(bytes: Bytes, at: nat, end: nat, v: nat, w: nat)
    requires v < WORD && w < WORD && At(bytes, at, EncodeUleb(v) + EncodeUleb(w))
    requires at + |EncodeUleb(v)| + |EncodeUleb(w)| <= end
    ensures Uleb(bytes, at, end, 0, 0) == Ok((v, at + |EncodeUleb(v)|))
    ensures Uleb(bytes, at + |EncodeUleb(v)|, end, 0, 0) == Ok((w, at + |EncodeUleb(v)| + |EncodeUleb(w)|))
  {
    AtSplit(bytes, at, EncodeUleb(v), EncodeUleb(w));
    UlebRoundTrip(bytes, at, end, v);
    UlebRoundTrip(bytes, at + |EncodeUleb(v)|, end, w);
  }

  lemma DecodeTimes(bytes: Bytes, at: nat, end: nat, i: Instr)
    requires i.DoBindTimes? && Laid(bytes, at, end, i)
    ensures Decode(bytes, at, end) == Ok((i, at + 1 + |Operands(i)|))
  {
    TwoOperands(bytes, at + 1, end, i.count, i.skip);
  }

  /** Opcodes with one ULEB operand. */
  lemma DecodeOperand(bytes: Bytes, at: nat, end: nat, i: Instr)
    requires i.OrdinalUleb? || i.SetSegment? || i.AddAddr? || i.DoBindAddAddr?
    requires Laid(bytes, at, end, i)
    ensures Decode(bytes, at, end) == Ok((i, at + 1 + |Operands(i)|))
  {
    OperandReads(bytes, at, end, i);
  }

  lemma OperandReads(bytes: Bytes, at: nat, end: nat, i: Instr)
    requires i.OrdinalUleb? || i.SetSegment? || i.AddAddr? || i.DoBindAddAddr?
    requires Laid(bytes, at, end, i)
    ensures Uleb(bytes, at + 1, end, 0, 0) == Ok((i.v, at + 1 + |Operands(i)|))
  {
    assert Operands(i) == EncodeUleb(i.v);
    UlebRoundTrip(bytes, at + 1, end, i.v);
  }

  lemma DecodeLaid(bytes: Bytes, at: nat, end: nat, i: Instr)
    requires Laid(bytes, at, end, i)
    ensures Decode(bytes, at, end) == Ok((Kept(i), at + 1 + |Operands(i)|))
  {
    if i.SetSymbol? {
      DecodeSymbol(bytes, at, end, i);
    } else if i.SetAddend? {
      DecodeAddend(bytes, at, end, i);
    } else if i.DoBindTimes? {
      DecodeTimes(bytes, at, end, i);
    } else if i.OrdinalUleb? || i.SetSegment? || i.AddAddr? || i.DoBindAddAddr? {
      DecodeOperand(bytes, at, end, i);
    }
  }

  /** Decoding inverts encoding for all thirteen opcodes, and stops at the byte after. */
  lemma DecodeInverts(bytes: Bytes, at: nat, end: nat, i: Instr)
    requires Encodable(i) && At(bytes, at, Encode(i)) && at + |Encode(i)| <= end
    ensures at < |bytes| && Decode(bytes, at, end) == Ok((Kept(i), at + |Encode(i)|))
  {
    Head(bytes, at, Opcode(i), Operands(i));
    DecodeLaid(bytes, at, end, i);
  }

  function Assemble(code: seq<Instr>): (bs: Bytes)
    requires forall i :: i in code ==> Encodable(i)
  {
    if code == [] then [] else Encode(code[0]) + Assemble(code[1..])
  }

  /** From `at` to `end` the stream decodes, one after the other, to these instructions. */
  ghost predicate Reads(bytes: Bytes, at: nat, end: nat, code: seq<Instr>)
    decreases |code|
  {
    if code == [] then at == end
    else
      && at < end && at < |bytes| && Decode(bytes, at, end).Ok?
      && Decode(bytes, at, end).value.0 == Kept(code[0]) && Reads(bytes, Decode(bytes, at, end).value.1, end, code[1..])
  }

  /** An instruction before other bytes: it decodes, and the others are where it ends. */
  lemma HeadDecodes(bytes: Bytes, at: nat, end: nat, i: Instr, rest: Bytes)
    requires Encodable(i) && At(bytes, at, Encode(i) + rest) && at + |Encode(i)| <= end
    ensures at < |bytes| && Decode(bytes, at, end) == Ok((Kept(i), at + |Encode(i)|))
    ensures At(bytes, at + |Encode(i)|, rest)
  {
    AtSplit(bytes, at, Encode(i), rest);
    DecodeInverts(bytes, at, end, i);
  }

  lemma AssembledHead(bytes: Bytes, at: nat, end: nat, code: seq<Instr>)
    requires code != [] && (forall i :: i in code ==> Encodable(i))
    requires At(bytes, at, Assemble(code)) && end == at + |Assemble(code)|
    ensures at < |bytes| && at < at + |Encode(code[0])| <= end
    ensures Decode(bytes, at, end) == Ok((Kept(code[0]), at + |Encode(code[0])|))
    ensures At(bytes, at + |Encode(code[0])|, Assemble(code[1..]))
    ensures end == at + |Encode(code[0])| + |Assemble(code[1..])|
  {
    HeadDecodes(bytes, at, end, code[0], Assemble(code[1..]));
  }

  /** An assembled program decodes to itself, wherever it lies. */
  lemma {:induction false} AssembledReads(bytes: Bytes, at: nat, end: nat, code: seq<Instr>)
    requires forall i :: i in code ==> Encodable(i)
    requires At(bytes, at, Assemble(code)) && end == at + |Assemble(code)|
    ensures Reads(bytes, at, end, code)
    decreases |code|
  {
    if code != [] {
      AssembledHead(bytes, at, end, code);
      AssembledReads(bytes, at + |Encode(code[0])|, end, code[1..]);
    }
  }

  lemma OpcodeOfBindAdd(bytes: Bytes, at: nat, end: nat, i: Instr)
    requires at < |bytes| && Decode(bytes, at, end).Ok? && Decode(bytes, at, end).value.0 == Kept(i)
    ensures bytes[at] / 16 == 10 <==> i.DoBindAddAddr?
  {}

  lemma ExecIgnoresAddend(image: Image, i: Instr, st: BindState)
    ensures Exec(image, Kept(i), st) == Exec(image, i, st)
  {}

  /** One decoded instruction replays as it executes, and the cursor moves past it. */
  lemma RunsOne(image: Image, bytes: Bytes, at: nat, end: nat, i: Instr, next: nat, st: BindState)
    requires at < |bytes| && Decode(bytes, at, end) == Ok((Kept(i), next))
    ensures ReplayOne(image, bytes, at, end, st) ==
            match Exec(image, i, st) {
              case Err(e) => Err(e)
              case Ok(one) => Ok((one.0, next, one.1))
            }
  {
    ExecIgnoresAddend(image, i, st);
    OpcodeOfBindAdd(bytes, at, end, i);
  }

  /** Replaying a stream is running the instructions it decodes to, from any state. */
  lemma {:induction false} ReadsRun(image: Image, bytes: Bytes, at: nat, end: nat, code: seq<Instr>, st: BindState)
    requires Reads(bytes, at, end, code)
    ensures Replay(image, bytes, at, end, st) == ExecAll(image, code, st)
    decreases |code|
  {
    if code != [] {
      var next := Decode(bytes, at, end).value.1;
      RunsOne(image, bytes, at, end, code[0], next, st);
      ReplayStep(image, bytes, at, end, st);
      ExecAllStep(image, code, st);
      var one := Exec(image, code[0], st);
      if one.Ok? { ReadsRun(image, bytes, next, end, code[1..], one.value.0); }
    }
  }

  /** Replaying an assembled program is running it, from any state and wherever it lies. */
  lemma ReplayRuns(image: Image, bytes: Bytes, at: nat, end: nat, code: seq<Instr>, st: BindState)
    requires forall i :: i in code ==> Encodable(i)
    requires At(bytes, at, Assemble(code)) && end == at + |Assemble(code)|
    ensures Replay(image, bytes, at, end, st) == ExecAll(image, code, st)
  {
    AssembledReads(bytes, at, end, code);
    ReadsRun(image, bytes, at, end, code, st);
  }

  /** The round trip of a whole stream wherever it lies in an image, up to the parser's own limits. */
  lemma StreamRoundTrip(image: Image, bytes: Bytes, off: nat, code: seq<Instr>)
    requires forall i :: i in code ==> Encodable(i)
    requires At(bytes, off, Assemble(code))
    ensures ParseBindStream(image, bytes, off, |Assemble(code)|) ==
            if |Assemble(code)| > MAX_BIND_BYTES then Err(ImplausibleSize)
            else if off + |Assemble(code)| > U64_MAX then Err(StreamOverflow)
            else ExecAll(image, code, START)
  {
    ReplayRuns(image, bytes, off, off + |Assemble(code)|, code, START);
  }

  // ---- Repeats ------------------------------------------------------------------------------------

  function Copies(i: Instr, n: nat): (code: seq<Instr>)
    ensures |code| == n && forall k :: 0 <= k < n ==> code[k] == i
  {
    seq(n, _ => i)
  }

  lemma {:induction false} RepeatIsCopies(image: Image, st: BindState, count: nat, skip: nat, rest: seq<Instr>)
    ensures ExecAll(image, Copies(DoBindAddAddr(skip), count) + rest, st) ==
            match Repeat(image, st, count, skip)
            case Err(e) => Err(e)
            case Ok((next, out)) => Prepend(out, ExecAll(image, rest, next))
    decreases count
  {
    var code := Copies(DoBindAddAddr(skip), count) + rest;
    if count == 0 {
      assert code == rest;
      var r := ExecAll(image, rest, st);
      if r.Ok? { assert [] + r.value == r.value; }
    } else {
      assert code[1..] == Copies(DoBindAddAddr(skip), count - 1) + rest;
      var first := BindThen(image, st, skip + PTR_SIZE);
      if first.Ok? {
        var (next, out) := first.value;
        RepeatIsCopies(image, next, count - 1, skip, rest);
        var more := Repeat(image, next, count - 1, skip);
        if more.Ok? { PrependTwice(out, more.value.1, ExecAll(image, rest, more.value.0)); }
      }
    }
  }

  /**
   * Wherever it stands in a program, TIMES_SKIPPING(n, s) within the repeat cap is n copies of
   * DO_BIND_ADD_ADDR(s); beyond the cap it is refused.
   */
  lemma TimesIsCopies(image: Image, st: BindState, count: nat, skip: nat, rest: seq<Instr>)
    ensures ExecAll(image, [DoBindTimes(count, skip)] + rest, st) ==
            if count <= MAX_CHAIN_STEPS then ExecAll(image, Copies(DoBindAddAddr(skip), count) + rest, st)
            else Err(ImplausibleCount)
  {
    RepeatIsCopies(image, st, count, skip, rest);
    assert ([DoBindTimes(count, skip)] + rest)[1..] == rest;
  }

  // ---- Bind lists -----------------------------------------------------------------------------------

  datatype Bind = Bind(ordinal: int, name: Bytes, segment: nat, offset: nat)

  predicate Expressible(b: Bind) {
    -16 < b.ordinal <= I64_MAX && IsCName(b.name) && b.segment < 16 && b.offset < WORD
  }

  function SetOrdinal(ordinal: int): (i: Instr)
    requires -16 < ordinal <= I64_MAX
  {
    if ordinal < 0 then SpecialImm(ordinal + 16)
    else if ordinal < 16 then OrdinalImm(ordinal)
    else OrdinalUleb(ordinal)
  }

  function BindProgram(binds: seq<Bind>): (code: seq<Instr>)
    requires forall b :: b in binds ==> Expressible(b)
    ensures forall i :: i in code ==> Encodable(i)
  {
    if binds == [] then []
    else
      var b := binds[0];
      assert Expressible(b);
      [SetOrdinal(b.ordinal), SetSymbol(0, b.name), SetSegment(b.segment, b.offset), DoBind] + BindProgram(binds[1..])
  }

  /** The imports a bind list stands for: each bind on its own, in order, the first failure ending it. */
  function ImportsOf(image: Image, binds: seq<Bind>): (r: Result<seq<RawImport>, ParseError>) {
    if binds == [] then Ok([])
    else
      var b := binds[0];
      var out :- Emit(image, BindStateOf(b));
      var more :- ImportsOf(image, binds[1..]);
      Ok(out + more)
  }

  function BindStateOf(b: Bind): (st: BindState) { BindState(b.segment, b.offset, b.ordinal, NormalizeSymbol(b.name)) }

  lemma OneByOne<T>(a: T, b: T, c: T, d: T, tail: seq<T>)
    ensures [a, b, c, d] + tail == [a] + ([b] + ([c] + ([d] + tail))) && ([d] + tail)[1..] == tail
  {}

  lemma OneBindRuns(image: Image, b: Bind, tail: seq<Instr>, st: BindState)
    requires Expressible(b)
    ensures
      var one := [SetOrdinal(b.ordinal), SetSymbol(0, b.name), SetSegment(b.segment, b.offset), DoBind];
      ExecAll(image, one + tail, st) ==
            match Emit(image, BindStateOf(b))
            case Err(e) => Err(e)
            case Ok(out) => Prepend(out, ExecAll(image, tail, Advance(BindStateOf(b), PTR_SIZE)))
  {
    var i0, i1, i2 := SetOrdinal(b.ordinal), SetSymbol(0, b.name), SetSegment(b.segment, b.offset);
    var t3 := [DoBind] + tail;
    var t2 := [i2] + t3;
    var t1 := [i1] + t2;
    OneByOne(i0, i1, i2, DoBind, tail);
    var s1 := st.(ordinal := b.ordinal);
    var s2 := s1.(symbol := NormalizeSymbol(b.name));
    SilentStep(image, i0, t1, st, s1);
    SilentStep(image, i1, t2, s1, s2);
    SilentStep(image, i2, t3, s2, BindStateOf(b));
  }

  lemma {:induction false} BindProgramRuns(image: Image, binds: seq<Bind>, st: BindState)
    requires forall b :: b in binds ==> Expressible(b)
    ensures ExecAll(image, BindProgram(binds), st) == ImportsOf(image, binds)
    decreases |binds|
  {
    if binds != [] {
      var b := binds[0];
      assert Expressible(b);
      OneBindRuns(image, b, BindProgram(binds[1..]), st);
      BindProgramRuns(image, binds[1..], Advance(BindStateOf(b), PTR_SIZE));
    }
  }

  lemma SilentStep(image: Image, i: Instr, rest: seq<Instr>, st: BindState, next: BindState)
    requires Exec(image, i, st) == Ok((next, []))
    ensures ExecAll(image, [i] + rest, st) == ExecAll(image, rest, next)
  {
    assert ([i] + rest)[1..] == rest;
    var r := ExecAll(image, rest, next);
    if r.Ok? { assert [] + r.value == r.value; }
  }

  /**
   * Assembling any bind list and replaying it, wherever the stream lies, yields exactly the imports it
   * stands for, or the parser's own refusal of the stream's size or place.
   */
  lemma BindListRoundTrip(image: Image, bytes: Bytes, off: nat, binds: seq<Bind>)
    requires forall b :: b in binds ==> Expressible(b)
    requires At(bytes, off, Assemble(BindProgram(binds)))
    ensures var size := |Assemble(BindProgram(binds))|;
            ParseBindStream(image, bytes, off, size) ==
            if size > MAX_BIND_BYTES then Err(ImplausibleSize)
            else if off + size > U64_MAX then Err(StreamOverflow)
            else ImportsOf(image, binds)
  {
    StreamRoundTrip(image, bytes, off, BindProgram(binds));
    BindProgramRuns(image, binds, START);
  }

  predicate Resolvable(image: Image, b: Bind) {
    && NormalizeSymbol(b.name).Some? && b.segment < |image.segments|
    && image.segments[b.segment] + b.offset <= U64_MAX && image.slotAddress(image.segments[b.segment] + b.offset).Some?
  }

  /** The import a resolvable bind becomes. */
  function ImportOf(image: Image, b: Bind): (r: RawImport)
    requires Resolvable(image, b)
  {
    RawImport(LibraryOf(b.ordinal, image.dylibs), NormalizeSymbol(b.name).value,
      image.slotAddress(image.segments[b.segment] + b.offset).value, false)
  }

  predicate IsBootstrap(b: Bind) {
    NormalizeSymbol(b.name).Some? && IsTlvBootstrap(NormalizeSymbol(b.name).value)
  }

  /** The imports of the binds, in order, without the TLS bootstrap. */
  function ImportList(image: Image, binds: seq<Bind>): (r: seq<RawImport>)
    requires forall k :: 0 <= k < |binds| ==> Resolvable(image, binds[k])
  {
    if binds == [] then []
    else (if IsBootstrap(binds[0]) then [] else [ImportOf(image, binds[0])]) + ImportList(image, binds[1..])
  }

  lemma EmitsImport(image: Image, b: Bind)
    requires Resolvable(image, b)
    ensures Emit(image, BindStateOf(b)) == Ok(if IsBootstrap(b) then [] else [ImportOf(image, b)])
  {}

  /** With every bind resolvable the imports are the binds, names normalized, minus the TLS bootstrap. */
  lemma {:induction false} ResolvableImports(image: Image, binds: seq<Bind>)
    requires forall k :: 0 <= k < |binds| ==> Resolvable(image, binds[k])
    ensures ImportsOf(image, binds) == Ok(ImportList(image, binds))
    decreases |binds|
  {
    if binds != [] {
      EmitsImport(image, binds[0]);
      ResolvableImports(image, binds[1..]);
    }
  }
}
