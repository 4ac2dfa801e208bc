/**
 * A small object with one import, and all its loaded processes: the premises of addressing-mode independence
 * hold of them.
 */
module ElfWitness {
  import opened Wrappers
  import opened LittleEndian
  import opened Elf
  import opened ElfLayout
  import opened ElfModes

  // Where things lie, from the object's first byte: the dynamic array, one symbol, one relocation, the
  // string table, and the slot that is relocated.
  const SYMBOL: nat := 88
  const RELOCATION: nat := 112
  const NAMES: nat := 136
  const SLOT: nat := 144
  const SIZE: nat := 152

  /** The only name, at offset 1 of the string table. */
  const LETTER: nat := 97
  const NAME: Bytes := [LETTER]

  const GLOB_DAT: nat := 6

  /** The dynamic array; its pointers are relative to `base`. */
  function TheEntries(base: nat): (es: seq<(nat, nat)>) {
    [(DT_SYMTAB, base + SYMBOL), (DT_STRTAB, base + NAMES), (DT_STRSZ, 8),
     (DT_RELA, base + RELOCATION), (DT_RELASZ, 24)]
  }

  /** The object linked at `at`, word by word. */
  function WordOf(base: nat, at: nat, k: nat): (n: nat) {
    if k < 10 && k % 2 == 0 then TheEntries(base)[k / 2].0
    else if k < 10 then TheEntries(base)[k / 2].1
    else if k == 11 then 1                       // the symbol's name offset
    else if k == 14 then at + SLOT
    else if k == 15 then GLOB_DAT                // of symbol 0
    else if k == 17 then LETTER * 256           // NUL, the name, NUL
    else 0
  }

  ghost predicate HasWord(bs: Bytes, base: nat, at: nat, k: nat)
    requires 8 * k + 8 <= |bs|
  {
    bs[8 * k..8 * k + 8] == LeBytes(WordOf(base, at, k), 8)
  }

  /** These are the object's bytes. */
  ghost predicate Lays(bs: Bytes, base: nat, at: nat) {
    |bs| == SIZE && forall k: nat :: k < 19 ==> HasWord(bs, base, at, k)
  }

  /** Words laid one after the other. */
  function Spread(word: nat -> nat, n: nat): (bs: Bytes)
    ensures |bs| == 8 * n
  {
    seq(8 * n, i requires 0 <= i => LeBytes(word(i / 8), 8)[i % 8])
  }

  lemma SpreadByte(word: nat -> nat, n: nat, k: nat, j: nat)
    requires k < n && j < 8
    ensures Spread(word, n)[8 * k + j] == LeBytes(word(k), 8)[j]
  {
    assert (8 * k + j) / 8 == k && (8 * k + j) % 8 == j;
  }

  lemma SpreadAt(word: nat -> nat, n: nat, k: nat)
    requires k < n
    ensures Spread(word, n)[8 * k..8 * k + 8] == LeBytes(word(k), 8)
  {
    forall j: nat | j < 8 ensures Spread(word, n)[8 * k + j] == LeBytes(word(k), 8)[j] { SpreadByte(word, n, k, j); }
  }

  /** Where the words agree the bytes do. */
  lemma SpreadSame(one: nat -> nat, other: nat -> nat, n: nat, i: nat)
    requires i < 8 * n && one(i / 8) == other(i / 8)
    ensures Spread(one, n)[i] == Spread(other, n)[i]
  {}

  function TheWords(base: nat, at: nat): (word: nat -> nat) { (k: nat) => WordOf(base, at, k) }

  lemma SpreadLays(base: nat, at: nat)
    ensures Lays(Spread(TheWords(base, at), 19), base, at)
  {
    forall k: nat | k < 19 ensures HasWord(Spread(TheWords(base, at), 19), base, at, k) {
      SpreadAt(TheWords(base, at), 19, k);
    }
  }

  /** Past the dynamic array the words do not depend on where the pointers point. */
  lemma SameTail(base: nat, base': nat, at: nat, k: nat)
    requires k > 10
    ensures WordOf(base, at, k) == WordOf(base', at, k)
  {}

  ghost predicate SameTails(bs: Bytes, live: Bytes) {
    |bs| == |live| == SIZE && forall i: nat :: SYMBOL <= i < SIZE ==> bs[i] == live[i]
  }

  lemma WordValue(n: nat)
    requires n <= U64_MAX
    ensures LeValue(LeBytes(n, 8)) == n
  {
    Powers();
    LeRoundTrip(n, 8);
  }

  lemma {:induction false} LowBytes(n: nat, k: nat, j: nat)
    requires j <= k
    ensures LeBytes(n, k)[..j] == LeBytes(n, j)
    decreases k
  {
    if j > 0 {
      LowBytes(n / 256, k - 1, j - 1);
      assert LeBytes(n, k)[..j] == [n % 256] + LeBytes(n / 256, k - 1)[..j - 1];
    }
  }

  /** An object with these bytes, linked at `at`. */
  function ObjectOf(bs: Bytes, at: nat): (o: Object) { Object(bs, [Segment(at, SIZE, 0, SIZE)], 62, at) }

  /** The loader rewrites the dynamic array. */
  function Rewritten(at: nat): (f: nat -> bool) { (a: nat) => at <= a < at + SYMBOL }

  /** A process that has these bytes mapped at `bias + at`. */
  function ProcessOf(bs: Bytes, at: nat, bias: nat): (p: Process)
    requires |bs| == SIZE
  {
    Process(bias, (a: nat) => if bias + at <= a < bias + at + SIZE then bs[a - bias - at] else 0,
            [Segment(at, SIZE, 0, SIZE)], 62, bias + at)
  }

  predicate Loadable(at: nat, bias: nat) {
    at % PTR_SIZE == 0 && bias % PTR_SIZE == 0 && bias + at + SIZE <= U64_MAX
  }

  // ---- The dynamic array -------------------------------------------------------------------------------

  ghost predicate ReadsWords(v: ElfView, base: nat, at: nat) {
    forall k: nat :: k < 11 ==> ReadLe(v, v.dynamic.Plus(8 * k), 8) == Ok(WordOf(base, at, k))
  }

  lemma EntriesOf(v: ElfView, base: nat, at: nat, i: nat)
    requires ReadsWords(v, base, at) && i <= 5
    ensures EntryAt(v, i) == Ok(if i == 5 then Null else Entry(TheEntries(base)[i].0, TheEntries(base)[i].1))
  {
    assert v.dynamic.Plus(i * DYN_SIZE) == v.dynamic.Plus(8 * (2 * i));
    if i < 5 { assert v.dynamic.Plus(i * DYN_SIZE + 8) == v.dynamic.Plus(8 * (2 * i + 1)); }
  }

  lemma HoldsEntries(v: ElfView, base: nat, at: nat)
    requires ReadsWords(v, base, at) && v.caps == CAPS
    ensures DynamicAt(v, TheEntries(base))
  {
    var es := TheEntries(base);
    forall i: nat | i < 5
      ensures ReadLe(v, v.dynamic.Plus(i * 16), 8) == Ok(es[i].0)
              && ReadLe(v, v.dynamic.Plus(i * 16 + 8), 8) == Ok(es[i].1) {
      assert v.dynamic.Plus(i * 16) == v.dynamic.Plus(8 * (2 * i));
      assert v.dynamic.Plus(i * 16 + 8) == v.dynamic.Plus(8 * (2 * i + 1));
    }
    assert v.dynamic.Plus(80) == v.dynamic.Plus(8 * 10);
  }

  lemma RelocatesEntries(a: ElfView, b: ElfView, at: nat, bias: nat)
    requires ReadsWords(a, at, at) && ReadsWords(b, bias + at, at)
    ensures DynamicRelocated(a, b, bias)
  {
    EntriesOf(a, at, at, 5);
    forall i: nat | Reaches(a, i) && EntryAt(a, i).Ok?
      ensures EntryAt(b, i) == Ok(ShiftEntry(EntryAt(a, i).value, bias)) {
      assert i <= 5;
      EntriesOf(a, at, at, i);
      EntriesOf(b, bias + at, at, i);
    }
  }

  lemma DynamicForMore(entries: seq<(nat, nat)>, e: (nat, nat))
    ensures DynamicFor(entries + [e]) == if Wanted(e.0) then DynamicFor(entries)[e.0 := e.1] else DynamicFor(entries)
  {
    assert (entries + [e])[..|entries|] == entries;
  }

  function TheDynamic(base: nat): (d: Dynamic) {
    map[DT_SYMTAB := base + SYMBOL, DT_STRTAB := base + NAMES, DT_STRSZ := 8, DT_RELA := base + RELOCATION,
        DT_RELASZ := 24]
  }

  lemma WitnessValues(base: nat)
    ensures DynamicFor(TheEntries(base)) == TheDynamic(base)
  {
    var es := TheEntries(base);
    DynamicForMore([], es[0]);
    DynamicForMore([] + [es[0]], es[1]);
    DynamicForMore([] + [es[0]] + [es[1]], es[2]);
    DynamicForMore([] + [es[0]] + [es[1]] + [es[2]], es[3]);
    DynamicForMore([] + [es[0]] + [es[1]] + [es[2]] + [es[3]], es[4]);
    assert es == [] + [es[0]] + [es[1]] + [es[2]] + [es[3]] + [es[4]];
  }

  // ---- Reading through the views -----------------------------------------------------------------------

  lemma WordRead(bs: Bytes, base: nat, at: nat, k: nat)
    requires Lays(bs, base, at) && k < 19 && base + SIZE <= U64_MAX && at + SIZE <= U64_MAX
    ensures LeValue(bs[8 * k..8 * k + 8]) == WordOf(base, at, k)
  {
    assert HasWord(bs, base, at, k);
    WordValue(WordOf(base, at, k));
  }

  /** Tables past the dynamic array, and the array itself, read as the file's bytes. */
  lemma LinkBytes(bs: Bytes, at: nat, from: nat, off: nat, n: nat)
    requires |bs| == SIZE && from < SIZE && from + off + n <= SIZE && (from == 0 || from >= SYMBOL)
    ensures LinkRead(ObjectOf(bs, at), Rewritten(at), Cursor(at + from, off), n) == Ok(bs[from + off..from + off + n])
  {
    assert FileSegment(ObjectOf(bs, at).loads, at + from) == Some(Segment(at, SIZE, 0, SIZE));
  }

  lemma LinkWord(bs: Bytes, at: nat, from: nat, off: nat, k: nat)
    requires Lays(bs, at, at) && k < 19 && from + off == 8 * k && (from == 0 || from >= SYMBOL) && at + SIZE <= U64_MAX
    ensures ReadLe(LinkView(ObjectOf(bs, at), Rewritten(at)), Cursor(at + from, off), 8) == Ok(WordOf(at, at, k))
  {
    LinkBytes(bs, at, from, off, 8);
    WordRead(bs, at, at, k);
  }

  lemma LinkWords(bs: Bytes, at: nat)
    requires Lays(bs, at, at) && at + SIZE <= U64_MAX
    ensures ReadsWords(LinkView(ObjectOf(bs, at), Rewritten(at)), at, at)
  {
    forall k: nat | k < 11
      ensures ReadLe(LinkView(ObjectOf(bs, at), Rewritten(at)), Cursor(at, 8 * k), 8) == Ok(WordOf(at, at, k)) {
      LinkWord(bs, at, 0, 8 * k, k);
    }
  }

  lemma LiveBytes(bs: Bytes, at: nat, bias: nat, k: nat)
    requires |bs| == SIZE && k < 11
    ensures LiveRead(ProcessOf(bs, at, bias), Cursor(bias + at, 8 * k), 8) == Ok(bs[8 * k..8 * k + 8])
  {
    var p := ProcessOf(bs, at, bias);
    assert VaddrInLoad(p.loads, at + 8 * k, 8) by { assert p.loads[0] in p.loads; }
    assert seq(8, j requires 0 <= j => p.memory(bias + at + 8 * k + j)) == bs[8 * k..8 * k + 8];
  }

  lemma LiveWord(bs: Bytes, at: nat, bias: nat, k: nat)
    requires Lays(bs, bias + at, at) && bias + at + SIZE <= U64_MAX && k < 11
    ensures ReadLe(LiveView(ProcessOf(bs, at, bias)), Cursor(bias + at, 8 * k), 8) == Ok(WordOf(bias + at, at, k))
  {
    LiveBytes(bs, at, bias, k);
    WordRead(bs, bias + at, at, k);
  }

  lemma LiveWords(bs: Bytes, at: nat, bias: nat)
    requires Lays(bs, bias + at, at) && bias + at + SIZE <= U64_MAX
    ensures ReadsWords(LiveView(ProcessOf(bs, at, bias)), bias + at, at)
  {
    forall k: nat | k < 11
      ensures ReadLe(LiveView(ProcessOf(bs, at, bias)), Cursor(bias + at, 8 * k), 8) == Ok(WordOf(bias + at, at, k)) {
      LiveWord(bs, at, bias, k);
    }
  }

  // ---- The premises ------------------------------------------------------------------------------------

  /** Every load of the object, at whatever word-aligned bias, meets the loading premise. */
  lemma WitnessLoads(bs: Bytes, live: Bytes, at: nat, bias: nat)
    requires Loadable(at, bias) && Lays(bs, at, at) && Lays(live, bias + at, at)
    requires SameTails(bs, live)
    ensures LoadedFrom(ObjectOf(bs, at), Rewritten(at), ProcessOf(live, at, bias))
  {
    var o, p := ObjectOf(bs, at), ProcessOf(live, at, bias);
    assert Mapped(o, Rewritten(at), p) by {
      forall s, v: nat | Maps(o, s, v) && !Rewritten(at)(v)
        ensures p.memory(p.bias + v) == o.bytes[s.offset + (v - s.vaddr)] {
        assert SYMBOL <= v - at < SIZE && live[v - at] == bs[v - at];
      }
    }
    LinkWords(bs, at);
    LiveWords(live, at, bias);
    RelocatesEntries(LinkView(o, Rewritten(at)), LiveView(p), at, bias);
  }

  // ---- The parse ---------------------------------------------------------------------------------------

  function TheTables(at: nat): (t: Tables) {
    Tables(Cursor(at + SYMBOL, 0), Strings(Cursor(at + NAMES, 0), 8), None, map[])
  }

  /** One named symbol, and one data slot relocated to it. */
  function TheDescription(at: nat): (d: Description) {
    Description([Named(NAME)], None, [], [], [Rela(at + SLOT, 0, GLOB_DAT)])
  }

  lemma TheName(bs: Bytes, at: nat, j: nat)
    requires Lays(bs, at, at) && j < 3
    ensures Read(LinkView(ObjectOf(bs, at), Rewritten(at)), Cursor(at + NAMES, j), 1) ==
            Ok([if j == 1 then LETTER else 0])
  {
    LinkBytes(bs, at, NAMES, j, 1);
    assert HasWord(bs, at, at, 17);
    NameBytes(LETTER * 256, LETTER);
    assert bs[NAMES..NAMES + 8] == LeBytes(LETTER * 256, 8);
    assert bs[NAMES + j..NAMES + j + 1] == [bs[NAMES..NAMES + 8][j]];
  }

  lemma NameBytes(n: nat, b: Byte)
    requires n == b * 256
    ensures LeBytes(n, 8)[0] == 0 && LeBytes(n, 8)[1] == b && LeBytes(n, 8)[2] == 0
  {
    var k := 8;
    assert LeBytes(n, k)[0] == n % 256 && LeBytes(n, k)[1] == LeBytes(n / 256, k - 1)[0];
    assert LeBytes(n, k)[2] == LeBytes(n / 256, k - 1)[1] == LeBytes(n / 256 / 256, k - 2)[0];
  }

  lemma TheNameOffset(bs: Bytes, at: nat)
    requires Lays(bs, at, at)
    ensures ReadLe(LinkView(ObjectOf(bs, at), Rewritten(at)), Cursor(at + SYMBOL, 0), 4) == Ok(1)
  {
    LinkBytes(bs, at, SYMBOL, 0, 4);
    LowHalf(bs, at, at, 11);
  }

  lemma LowHalf(bs: Bytes, base: nat, at: nat, k: nat)
    requires k < 19 && Lays(bs, base, at) && WordOf(base, at, k) == 1
    ensures LeValue(bs[8 * k..8 * k + 4]) == 1
  {
    assert HasWord(bs, base, at, k);
    assert bs[8 * k..8 * k + 4] == bs[8 * k..8 * k + 8][..4];
    LowWord(WordOf(base, at, k), 8, 4);
  }

  /** A word that fits its low bytes is their value. */
  lemma LowWord(n: nat, k: nat, j: nat)
    requires j <= k && n < Pow256(j)
    ensures LeValue(LeBytes(n, k)[..j]) == n
  {
    LowBytes(n, k, j);
    LeRoundTrip(n, j);
  }

  lemma TheSymbol(bs: Bytes, at: nat)
    requires Lays(bs, at, at)
    ensures SymbolAt(LinkView(ObjectOf(bs, at), Rewritten(at)), TheTables(at).symtab, TheTables(at).strings, 0,
                     Named(NAME))
  {
    TheNameOffset(bs, at);
    TheName(bs, at, 1);
    TheName(bs, at, 2);
    NamedSymbol(LinkView(ObjectOf(bs, at), Rewritten(at)), at);
  }

  lemma NamedSymbol(v: ElfView, at: nat)
    requires v.caps == CAPS && ReadLe(v, Cursor(at + SYMBOL, 0), 4) == Ok(1)
    requires Read(v, Cursor(at + NAMES, 1), 1) == Ok([LETTER]) && Read(v, Cursor(at + NAMES, 2), 1) == Ok([0])
    ensures SymbolAt(v, Cursor(at + SYMBOL, 0), Strings(Cursor(at + NAMES, 0), 8), 0, Named(NAME))
  {
    assert Cursor(at + SYMBOL, 0).Plus(0 * 24) == Cursor(at + SYMBOL, 0);
    assert Cursor(at + NAMES, 0).Plus(1) == Cursor(at + NAMES, 1);
    assert StringAt(v, Strings(Cursor(at + NAMES, 0), 8), 1, NAME);
  }

  lemma TheRelocation(bs: Bytes, at: nat)
    requires Lays(bs, at, at) && at + SIZE <= U64_MAX
    ensures RelaAt(LinkView(ObjectOf(bs, at), Rewritten(at)), Cursor(at + RELOCATION, 0), TheDescription(at).data[0])
  {
    LinkWord(bs, at, RELOCATION, 0, 14);
    LinkWord(bs, at, RELOCATION, 8, 15);
  }

  /** What the parse asks of the tables, and gets. */
  lemma WitnessTables(bs: Bytes, at: nat)
    requires Lays(bs, at, at)
    ensures ImageTables(LinkView(ObjectOf(bs, at), Rewritten(at)), TheDynamic(at), TheTables(at), TheDescription(at))
  {
    TheSymbol(bs, at);
    assert AllPairs([]) == [];
    assert FileSegment(ObjectOf(bs, at).loads, at + SYMBOL) == Some(Segment(at, SIZE, 0, SIZE));
    assert FileSegment(ObjectOf(bs, at).loads, at + NAMES) == Some(Segment(at, SIZE, 0, SIZE));
  }

  lemma WitnessData(bs: Bytes, at: nat)
    requires Lays(bs, at, at) && at + SIZE <= U64_MAX && at % PTR_SIZE == 0
    ensures DataHolds(LinkView(ObjectOf(bs, at), Rewritten(at)), TheDynamic(at), TheDescription(at), 0)
  {
    TheRelocation(bs, at);
    assert FileSegment(ObjectOf(bs, at).loads, at + RELOCATION) == Some(Segment(at, SIZE, 0, SIZE));
    var loads := ObjectOf(bs, at).loads;
    assert VaddrInLoad(loads, at + SLOT, 8) by { assert loads[0] in loads; }
  }

  function TheImport(slot: nat): (i: Import) { Import([], NAME, None, slot) }

  lemma DescribedImports(at: nat)
    ensures ImportsOf(TheDescription(at), TheDescription(at).data, GLOB_DAT, 0) == [TheImport(at + SLOT)]
    ensures ImportsOf(TheDescription(at), TheDescription(at).plt, 7, 0) == []
  {
    assert ImportsOf(TheDescription(at), [], GLOB_DAT, 0) == [];
  }

  lemma DescriptionParses(v: ElfView, entries: seq<(nat, nat)>, dyn: Dynamic, t: Tables, d: Description,
                          imports: seq<Import>)
    requires v.machine == 62 && DynamicAt(v, entries) && DynamicFor(entries) == dyn && DT_JMPREL !in dyn
    requires ImageTables(v, dyn, t, d) && DataHolds(v, dyn, d, 0) && d.plt == []
    requires ImportsOf(d, d.plt, 7, 0) == [] && ImportsOf(d, d.data, GLOB_DAT, 0) == imports
    ensures Parse(v) == Ok(imports)
  {
    ParseReadsDescription(v, entries, RelocKinds(7, GLOB_DAT), t, d, 0);
    assert [] + imports == imports;
  }

  /** The link-time parse finds the one import. */
  lemma WitnessParses(bs: Bytes, at: nat)
    requires Lays(bs, at, at) && at + SIZE <= U64_MAX && at % PTR_SIZE == 0
    ensures Parse(LinkView(ObjectOf(bs, at), Rewritten(at))) == Ok([TheImport(at + SLOT)])
  {
    LinkWords(bs, at);
    WitnessTables(bs, at);
    WitnessData(bs, at);
    ViewParses(LinkView(ObjectOf(bs, at), Rewritten(at)), at);
  }

  lemma ViewParses(v: ElfView, at: nat)
    requires v.machine == 62 && v.caps == CAPS && ReadsWords(v, at, at)
    requires ImageTables(v, TheDynamic(at), TheTables(at), TheDescription(at))
    requires DataHolds(v, TheDynamic(at), TheDescription(at), 0)
    ensures Parse(v) == Ok([TheImport(at + SLOT)])
  {
    HoldsEntries(v, at, at);
    WitnessValues(at);
    DescribedImports(at);
    DescriptionParses(v, TheEntries(at), TheDynamic(at), TheTables(at), TheDescription(at), [TheImport(at + SLOT)]);
  }

  ghost predicate OneImport(imports: seq<Import>, slot: nat) { |imports| == 1 && imports[0] == TheImport(slot) }

  lemma OneShifted(imports: seq<Import>, slot: nat, bias: nat)
    requires OneImport(imports, slot)
    ensures OneImport(ShiftSlots(imports, bias), bias + slot)
  {}

  lemma Agree(o: Object, rewritten: nat -> bool, p: Process, imports: seq<Import>, moved: seq<Import>)
    requires LoadedFrom(o, rewritten, p) && Parse(LinkView(o, rewritten)) == Ok(imports)
    requires moved == ShiftSlots(imports, p.bias)
    ensures Parse(FileView(o)) == Ok(imports) && Parse(LiveView(p)) == Ok(moved)
  {
    ModesAgree(o, rewritten, p);
  }

  lemma SpreadTails(base: nat, base': nat, at: nat)
    ensures SameTails(Spread(TheWords(base, at), 19), Spread(TheWords(base', at), 19))
  {
    forall i: nat | SYMBOL <= i < SIZE
      ensures Spread(TheWords(base, at), 19)[i] == Spread(TheWords(base', at), 19)[i] {
      SameTail(base, base', at, i / 8);
      SpreadSame(TheWords(base, at), TheWords(base', at), 19, i);
    }
  }

  /** The object's bytes, on disk and loaded. */
  lemma BytesLay(at: nat, bias: nat) returns (bs: Bytes, live: Bytes)
    ensures Lays(bs, at, at) && Lays(live, bias + at, at) && SameTails(bs, live)
  {
    bs, live := Spread(TheWords(at, at), 19), Spread(TheWords(bias + at, at), 19);
    SpreadLays(at, at);
    SpreadLays(bias + at, at);
    SpreadTails(at, bias + at, at);
  }

  /** The object loaded at a bias, and what its link-time parse gives. */
  lemma Loaded(at: nat, bias: nat) returns (o: Object, p: Process, imports: seq<Import>)
    requires Loadable(at, bias)
    ensures LoadedFrom(o, Rewritten(at), p) && p.bias == bias && Parse(LinkView(o, Rewritten(at))) == Ok(imports)
    ensures OneImport(imports, at + SLOT)
  {
    var bs, live := BytesLay(at, bias);
    o, p, imports := ObjectOf(bs, at), ProcessOf(live, at, bias), [TheImport(at + SLOT)];
    WitnessLoads(bs, live, at, bias);
    WitnessParses(bs, at);
  }

  /**
   * So the premises are met, with one import, at every link address and every aligned bias, and the modes
   * give that import.
   */
  lemma WitnessModesAgree(at: nat, bias: nat) returns (o: Object, p: Process, file: seq<Import>, live: seq<Import>)
    requires Loadable(at, bias)
    ensures LoadedFrom(o, Rewritten(at), p) && p.bias == bias && Parse(LinkView(o, Rewritten(at))).Ok?
    ensures Parse(FileView(o)) == Ok(file) && Parse(LiveView(p)) == Ok(live)
    ensures OneImport(file, at + SLOT) && OneImport(live, bias + at + SLOT)
  {
    o, p, file := Loaded(at, bias);
    live := ShiftSlots(file, bias);
    OneShifted(file, at + SLOT, bias);
    Agree(o, Rewritten(at), p, file, live);
  }
}
