/** The chained-fixups imports table: which library and name a bind ordinal stands for. */
module ImportsTables {
  import opened Wrappers
  import opened LittleEndian
  import opened BindStream
  import opened Chains

  const IMPORT: nat := 1
  const IMPORT_ADDEND: nat := 2
  const IMPORT_ADDEND64: nat := 3

  datatype Table = Table(base: nat, count: nat, format: nat, symbolsBase: nat, blobEnd: nat)

  function ReadWord(bytes: Bytes, at: nat, n: nat): (r: Result<nat, ParseError>) {
    if at + n <= |bytes| then Ok(LeValue(bytes[at..at + n])) else Err(ReadOutOfBounds)
  }

  /** A field of `2 * half` values read as a signed one. */
  function SignExtend(low: nat, half: nat): (v: int) { if low < half then low else low - 2 * half }

  /**
   * A record format: the record and leading word sizes, and where the name offset and library ordinal
   * lie in the word.
   */
  datatype Layout = Layout(size: nat, word: nat, nameUnit: nat, names: nat, half: nat)

  const LAYOUT: Layout := Layout(4, 4, 0x200, 0x80_0000, 0x80)
  const LAYOUT_ADDEND: Layout := Layout(8, 4, 0x200, 0x80_0000, 0x80)
  const LAYOUT_ADDEND64: Layout := Layout(16, 8, 0x1_0000_0000, 0x1_0000_0000, 0x8000)

  function LayoutOf(format: nat): (r: Option<Layout>) {
    if format == IMPORT then Some(LAYOUT)
    else if format == IMPORT_ADDEND then Some(LAYOUT_ADDEND)
    else if format == IMPORT_ADDEND64 then Some(LAYOUT_ADDEND64)
    else None
  }

  predicate Known(l: Layout) { l == LAYOUT || l == LAYOUT_ADDEND || l == LAYOUT_ADDEND64 }

  function NameOff(l: Layout, word: nat): (r: nat)
    requires Known(l)
  {
    word / l.nameUnit % l.names
  }

  function OrdinalIn(l: Layout, word: nat): (r: int)
    requires Known(l)
  {
    SignExtend(word % (2 * l.half), l.half)
  }

  /** Name offset and library ordinal of one record. */
  function Record(l: Layout, t: Table, bytes: Bytes, k: nat): (r: Result<(nat, int), ParseError>)
    requires Known(l)
  {
    var word :- ReadWord(bytes, t.base + k * l.size, l.word);
    Ok((NameOff(l, word), OrdinalIn(l, word)))
  }

  function Resolve(t: Table, bytes: Bytes, k: nat, dylibs: seq<Bytes>)
      : (r: Result<(Bytes, Option<Bytes>), ParseError>) {
    if k >= t.count then Err(OrdinalOutOfRange)
    else if LayoutOf(t.format).None? then Err(UnsupportedImports)
    else
      var (nameOff, ordinal) :- Record(LayoutOf(t.format).value, t, bytes, k);
      if t.symbolsBase + nameOff > U64_MAX || t.symbolsBase + nameOff >= t.blobEnd then Err(NameOutOfBlob)
      else
        var name :- ReadName(bytes, t.symbolsBase + nameOff);
        Ok((LibraryOf(ordinal, dylibs), NormalizeSymbol(name)))
  }

  /** What the chain walk reports for a bind: an import, or nothing for no name and for the TLS bootstrap. */
  function ImportAt(image: Image, t: Table, bytes: Bytes, b: BindAt): (r: Result<seq<RawImport>, ParseError>) {
    var (library, name) :- Resolve(t, bytes, b.ordinal, image.dylibs);
    if name.None? || IsTlvBootstrap(name.value) then Ok([])
    else
      match image.slotAddress(b.offset)
      case None => Err(BadSlot)
      case Some(slot) => Ok([RawImport(library, name.value, slot, b.authenticated)])
  }

  function ChainIn(image: Image, t: Table, bytes: Bytes, word: nat -> Option<nat>, format: nat): (c: Chain) {
    ChainOf(word, format, (b: BindAt) => ImportAt(image, t, bytes, b))
  }

  // ---- Laying a table out ----------------------------------------------------------------------------------

  /** One import: a library ordinal (negative for the special ones) and a symbol in the pool. */
  datatype ChainedImport = ChainedImport(ordinal: int, weak: bool, nameOff: nat, name: Bytes, addend: nat)

  predicate Fits(l: Layout, i: ChainedImport) {
    Known(l) && IsCName(i.name) && 0 <= i.ordinal + l.half < 2 * l.half && i.nameOff < l.names
  }

  /** The leading word: the ordinal in two's complement, the weak bit above it, the name offset on top. */
  function WordOf(l: Layout, i: ChainedImport): (r: nat)
    requires Fits(l, i)
  {
    (if i.ordinal < 0 then i.ordinal + 2 * l.half else i.ordinal)
    + (if i.weak then 2 * l.half else 0) + i.nameOff * l.nameUnit
  }

  function EncodeRecord(l: Layout, i: ChainedImport): (r: Bytes)
    requires Fits(l, i)
  {
    LeBytes(WordOf(l, i), l.word) + LeBytes(i.addend, SaturatingSub(l.size, l.word))
  }

  /** The image holds the records one after the other, and every name in the pool inside the blob. */
  ghost predicate Holds(t: Table, bytes: Bytes, imports: seq<ChainedImport>) {
    && LayoutOf(t.format).Some? && t.count == |imports| && t.blobEnd <= U64_MAX
    && forall k: nat :: k < |imports| ==> HoldsAt(LayoutOf(t.format).value, t, bytes, k, imports[k])
  }

  ghost predicate HoldsAt(l: Layout, t: Table, bytes: Bytes, k: nat, i: ChainedImport) {
    && Fits(l, i)
    && At(bytes, t.base + k * l.size, EncodeRecord(l, i))
    && At(bytes, t.symbolsBase + i.nameOff, i.name + [0]) && t.symbolsBase + i.nameOff < t.blobEnd
  }

  /** Every field of the leading word is recovered, and the word fits its bytes. */
  lemma WordFields(l: Layout, i: ChainedImport)
    requires Fits(l, i)
    ensures NameOff(l, WordOf(l, i)) == i.nameOff && OrdinalIn(l, WordOf(l, i)) == i.ordinal
    ensures WordOf(l, i) < Pow256(l.word)
  {
    Powers();
    if l == LAYOUT_ADDEND64 {
      Fields64(i.ordinal, i.weak, i.nameOff, WordOf(l, i));
    } else {
      Fields32(i.ordinal, i.weak, i.nameOff, WordOf(l, i));
    }
  }

  lemma Low8(k: nat, low: nat)
    ensures (0x100 * k + low) % 0x100 == low % 0x100
  {}

  lemma Split32(nameOff: nat, low: nat)
    requires low < 0x200
    ensures (nameOff * 0x200 + low) / 0x200 == nameOff && (nameOff * 0x200 + low) % 0x100 == low % 0x100
  {
    Low8(nameOff * 2, low);
  }

  lemma Fields32(ordinal: int, weak: bool, nameOff: nat, word: nat)
    requires -0x80 <= ordinal < 0x80 && nameOff < 0x80_0000
    requires word == (if ordinal < 0 then ordinal + 0x100 else ordinal) + (if weak then 0x100 else 0) + nameOff * 0x200
    ensures word < 0x1_0000_0000 && word / 0x200 % 0x80_0000 == nameOff && SignExtend(word % 0x100, 0x80) == ordinal
  {
    Split32(nameOff, word - nameOff * 0x200);
  }

  lemma Split64(nameOff: nat, low: nat)
    requires low < 0x1_0000_0000
    ensures (nameOff * 0x1_0000_0000 + low) / 0x1_0000_0000 == nameOff
            && (nameOff * 0x1_0000_0000 + low) % 0x1_0000 == low % 0x1_0000
  {
    Low16(nameOff * 0x1_0000, low);
  }

  lemma Fields64(ordinal: int, weak: bool, nameOff: nat, word: nat)
    requires -0x8000 <= ordinal < 0x8000 && nameOff < 0x1_0000_0000
    requires word == (if ordinal < 0 then ordinal + 0x1_0000 else ordinal)
                     + (if weak then 0x1_0000 else 0) + nameOff * 0x1_0000_0000
    ensures word < 0x1_0000_0000_0000_0000 && word / 0x1_0000_0000 % 0x1_0000_0000 == nameOff
    ensures SignExtend(word % 0x1_0000, 0x8000) == ordinal
  {
    Split64(nameOff, word - nameOff * 0x1_0000_0000);
  }

  /** A word laid out at `at` reads back, whatever follows it. */
  lemma WordInverts(bytes: Bytes, at: nat, n: nat, k: nat, more: Bytes)
    requires At(bytes, at, LeBytes(n, k) + more) && n < Pow256(k)
    ensures ReadWord(bytes, at, k) == Ok(n)
  {
    AtSplit(bytes, at, LeBytes(n, k), more);
    AtIsSlice(bytes, at, LeBytes(n, k));
    LeRoundTrip(n, k);
  }

  /** The record at `k` is its leading word's fields. */
  lemma RecordReads(l: Layout, t: Table, bytes: Bytes, k: nat, word: nat)
    requires Known(l) && ReadWord(bytes, t.base + k * l.size, l.word) == Ok(word)
    ensures Record(l, t, bytes, k) == Ok((NameOff(l, word), OrdinalIn(l, word)))
  {}

  lemma WordFits(l: Layout, i: ChainedImport)
    requires Fits(l, i)
    ensures WordOf(l, i) < Pow256(l.word)
  {
    WordFields(l, i);
  }

  lemma RecordWord(l: Layout, t: Table, bytes: Bytes, k: nat, i: ChainedImport)
    requires HoldsAt(l, t, bytes, k, i)
    ensures ReadWord(bytes, t.base + k * l.size, l.word) == Ok(WordOf(l, i))
  {
    WordFits(l, i);
    WordInverts(bytes, t.base + k * l.size, WordOf(l, i), l.word, LeBytes(i.addend, SaturatingSub(l.size, l.word)));
  }

  lemma RecordInverts(l: Layout, t: Table, bytes: Bytes, k: nat, i: ChainedImport)
    requires HoldsAt(l, t, bytes, k, i)
    ensures Record(l, t, bytes, k) == Ok((i.nameOff, i.ordinal))
  {
    RecordWord(l, t, bytes, k, i);
    WordFields(l, i);
    RecordReads(l, t, bytes, k, WordOf(l, i));
  }

  /** A record that reads back and a name that reads back make an import. */
  lemma RecordResolves(l: Layout, t: Table, bytes: Bytes, k: nat, i: ChainedImport, dylibs: seq<Bytes>)
    requires LayoutOf(t.format) == Some(l) && k < t.count && t.blobEnd <= U64_MAX
    requires Record(l, t, bytes, k) == Ok((i.nameOff, i.ordinal)) && t.symbolsBase + i.nameOff < t.blobEnd
    requires ReadName(bytes, t.symbolsBase + i.nameOff) == Ok(i.name)
    ensures Resolve(t, bytes, k, dylibs) == Ok((LibraryOf(i.ordinal, dylibs), NormalizeSymbol(i.name)))
  {}

  lemma ResolveOne(l: Layout, t: Table, bytes: Bytes, k: nat, i: ChainedImport, dylibs: seq<Bytes>)
    requires LayoutOf(t.format) == Some(l) && HoldsAt(l, t, bytes, k, i) && k < t.count && t.blobEnd <= U64_MAX
    ensures Resolve(t, bytes, k, dylibs) == Ok((LibraryOf(i.ordinal, dylibs), NormalizeSymbol(i.name)))
  {
    RecordInverts(l, t, bytes, k, i);
    ReadNameInverts(bytes, t.symbolsBase + i.nameOff, i.name);
    RecordResolves(l, t, bytes, k, i, dylibs);
  }

  /** Resolving an ordinal recovers its import's library and normalized name; one past the table is refused. */
  lemma ResolveInverts(t: Table, bytes: Bytes, imports: seq<ChainedImport>, k: nat, dylibs: seq<Bytes>)
    requires Holds(t, bytes, imports)
    ensures Resolve(t, bytes, k, dylibs) ==
            if k >= |imports| then Err(OrdinalOutOfRange)
            else Ok((LibraryOf(imports[k].ordinal, dylibs), NormalizeSymbol(imports[k].name)))
  {
    if k < |imports| {
      var l := LayoutOf(t.format).value;
      assert HoldsAt(l, t, bytes, k, imports[k]);
      ResolveOne(l, t, bytes, k, imports[k], dylibs);
    }
  }

  // ---- Whole pages --------------------------------------------------------------------------------------------

  /** The import a bind slot stands for, from the list the table was laid out from. */
  function Named(image: Image, imports: seq<ChainedImport>, b: BindAt): (r: Result<seq<RawImport>, ParseError>) {
    if b.ordinal >= |imports| then Err(OrdinalOutOfRange)
    else
      var i := imports[b.ordinal];
      if NormalizeSymbol(i.name).None? || IsTlvBootstrap(NormalizeSymbol(i.name).value) then Ok([])
      else
        match image.slotAddress(b.offset)
        case None => Err(BadSlot)
        case Some(slot) =>
          Ok([RawImport(LibraryOf(i.ordinal, image.dylibs), NormalizeSymbol(i.name).value, slot, b.authenticated)])
  }

  lemma ImportAtInverts(image: Image, t: Table, bytes: Bytes, imports: seq<ChainedImport>, b: BindAt)
    requires Holds(t, bytes, imports)
    ensures ImportAt(image, t, bytes, b) == Named(image, imports, b)
  {
    ResolveInverts(t, bytes, imports, b.ordinal, image.dylibs);
  }

  /** The imports of a slot list, by name: what each bind, in order, was laid out to mean. */
  function NamedAll(image: Image, imports: seq<ChainedImport>, format: nat, fs: seq<Fixup>, limit: nat): (r: Imports)
    decreases |fs|
  {
    if fs == [] || limit == 0 then Ok([])
    else if !fs[0].isBind then NamedAll(image, imports, format, fs[1..], limit - 1)
    else
      match Named(image, imports, BindAt(fs[0].offset, OrdinalOf(format, fs[0]), fs[0].authenticated))
      case Err(e) => Err(Import(e))
      case Ok(out) => Before(out, NamedAll(image, imports, format, fs[1..], limit - 1))
  }

  lemma {:induction false} ImportsAreNamed(c: Chain, image: Image, imports: seq<ChainedImport>, format: nat,
                                           fs: seq<Fixup>, limit: nat)
    requires forall b: BindAt :: c.import_(b) == Named(image, imports, b)
    ensures ImportsOf(c, format, fs, limit) == NamedAll(image, imports, format, fs, limit)
    decreases |fs|
  {
    if fs != [] && limit > 0 {
      ImportsAreNamed(c, image, imports, format, fs[1..], limit - 1);
      ImportsOfOne(c, format, fs, limit);
      BeforeNothing(NamedAll(image, imports, format, fs[1..], limit - 1));
    }
  }

  /**
   * From slots and imports to bytes and back: walking the page of an image that holds both recovers, for
   * each bind in order, the library and name it was laid out with.
   */
  lemma NamedPageRoundTrip(image: Image, t: Table, bytes: Bytes, imports: seq<ChainedImport>, format: nat,
                           fs: seq<Fixup>)
    requires Holds(t, bytes, imports) && Representable(format, fs) && fs != []
    ensures var c := ChainIn(image, t, bytes, WordsOf(PageWords(format, fs)), format);
            Walk(c, fs[0].offset, c.maxSteps) == NamedAll(image, imports, format, fs, c.maxSteps)
  {
    var import_ := (b: BindAt) => ImportAt(image, t, bytes, b);
    var c := ChainOf(WordsOf(PageWords(format, fs)), format, import_);
    PageRoundTrip(format, fs, import_);
    forall b: BindAt ensures c.import_(b) == Named(image, imports, b) { ImportAtInverts(image, t, bytes, imports, b); }
    ImportsAreNamed(c, image, imports, format, fs, c.maxSteps);
  }
}
