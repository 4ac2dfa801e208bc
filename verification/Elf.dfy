/** ELF import enumeration behind an addressing-mode view: one parser, on-disk bytes or live memory. */
module Elf {
  import opened Wrappers
  import opened LittleEndian

  type Bytes = seq<Byte>

  datatype ElfError = Malformed | Unsupported

  const DYN_SIZE: nat := 16
  const SYM_SIZE: nat := 24
  const RELA_SIZE: nat := 24
  const PTR_SIZE: nat := 8

  const DT_NULL: nat := 0
  const DT_PLTRELSZ: nat := 2
  const DT_STRTAB: nat := 5
  const DT_SYMTAB: nat := 6
  const DT_RELA: nat := 7
  const DT_RELASZ: nat := 8
  const DT_RELAENT: nat := 9
  const DT_STRSZ: nat := 10
  const DT_SYMENT: nat := 11
  const DT_PLTREL: nat := 20
  const DT_JMPREL: nat := 23
  const DT_VERSYM: nat := 0x6fff_fff0
  const DT_VERNEED: nat := 0x6fff_fffe
  const DT_VERNEEDNUM: nat := 0x6fff_ffff

  /** The sanity caps on each walk; they travel with the view. */
  datatype Caps = Caps(dyn: nat, relocs: nat, verneed: nat, vernaux: nat, nameLen: nat)

  const CAPS: Caps := Caps(4096, 0x100_0000, 4096, 4096, 8192)

  // ---- The addressing-mode abstraction ------------------------------------------------------------------

  /** A cursor keeps the table base it came from; its machine value is the sum. */
  datatype Cursor = Cursor(base: nat, off: nat) {
    function Plus(n: nat): (c: Cursor) { Cursor(base, off + n) }
  }

  /** What the parser may ask of an image, whatever its cursors denote. */
  datatype ElfView = ElfView(
    caps: Caps,
    machine: nat,
    dynamic: Cursor,                                     // where the dynamic array begins
    dynptr: nat -> Result<Cursor, ElfError>,             // a table named by a pointer relocated in place
    vaddr: nat -> Result<Cursor, ElfError>,              // a table named by a link-time address
    read: (Cursor, nat) -> Result<Bytes, ElfError>,
    slot: nat -> Result<nat, ElfError>)

  function Read(v: ElfView, c: Cursor, n: nat): (r: Result<Bytes, ElfError>)
    ensures r.Ok? ==> |r.value| == n
  {
    var bs :- v.read(c, n);
    if |bs| == n then Ok(bs) else Err(Malformed)
  }

  // ---- Little-endian reads and strings ----------------------------------------------------------------

  function ReadLe(v: ElfView, c: Cursor, n: nat): (r: Result<nat, ElfError>) {
    var bs :- Read(v, c, n);
    Ok(LeValue(bs))
  }

  /** Bytes up to the NUL, within `left` bytes. */
  function StrFrom(v: ElfView, c: Cursor, left: nat): (r: Result<Bytes, ElfError>)
    decreases left
  {
    if left == 0 then Err(Malformed)
    else
      var b :- Read(v, c, 1);
      if b[0] == 0 then Ok([])
      else
        var rest :- StrFrom(v, c.Plus(1), left - 1);
        Ok([b[0]] + rest)
  }

  function ReadStr(v: ElfView, strtab: Cursor, strsz: nat, off: nat): (r: Result<Bytes, ElfError>) {
    if off >= strsz then Err(Malformed) else StrFrom(v, strtab.Plus(off), Min(strsz - off, v.caps.nameLen + 1))
  }

  // ---- The loops, over what each round does ---------------------------------------------------------------

  /** Rounds `i`, `i + 1`, ... for `left` rounds, their imports in order; the first failure ends it. */
  function Concat(round: nat -> Result<seq<Import>, ElfError>, i: nat, left: nat): (r: Result<seq<Import>, ElfError>)
    decreases left
  {
    if left == 0 then Ok([])
    else
      var one :- round(i);
      var more :- Concat(round, i + 1, left - 1);
      Ok(one + more)
  }

  /** One record of a linked table: the versions with it, and the byte stride to the next (0 ends the list). */
  type LinkRound = (Cursor, Versions) -> Result<(Versions, nat), ElfError>

  function Chase(round: LinkRound, c: Cursor, left: nat, m: Versions): (r: Result<Versions, ElfError>)
    decreases left
  {
    if left == 0 then Ok(m)
    else
      var step :- round(c, m);
      if step.1 == 0 then Ok(step.0) else Chase(round, c.Plus(step.1), left - 1, step.0)
  }

  // ---- The dynamic array ---------------------------------------------------------------------------------

  /** The entries the walk needs, by tag; a repeated tag overwrites. */
  type Dynamic = map<nat, nat>

  predicate Wanted(tag: nat) {
    || tag == DT_SYMTAB || tag == DT_SYMENT || tag == DT_STRTAB || tag == DT_STRSZ || tag == DT_JMPREL
    || tag == DT_PLTRELSZ || tag == DT_PLTREL || tag == DT_RELA || tag == DT_RELASZ || tag == DT_RELAENT
    || tag == DT_VERSYM || tag == DT_VERNEED || tag == DT_VERNEEDNUM
  }

  datatype Entry = Null | Entry(tag: nat, value: nat)

  /** Entry `i`; the value of a terminator is not read. */
  function EntryAt(v: ElfView, i: nat): (r: Result<Entry, ElfError>) {
    var tag :- ReadLe(v, v.dynamic.Plus(i * DYN_SIZE), 8);
    if tag == DT_NULL then Ok(Null)
    else
      var value :- ReadLe(v, v.dynamic.Plus(i * DYN_SIZE + 8), 8);
      Ok(Entry(tag, value))
  }

  function Collect(entry: nat -> Result<Entry, ElfError>, i: nat, left: nat, info: Dynamic)
      : (r: Result<Dynamic, ElfError>)
    decreases left
  {
    if left == 0 then Err(Malformed)
    else
      var e :- entry(i);
      if e.Null? then Ok(info)
      else Collect(entry, i + 1, left - 1, if Wanted(e.tag) then info[e.tag := e.value] else info)
  }

  function Entries(v: ElfView): (f: nat -> Result<Entry, ElfError>) { (i: nat) => EntryAt(v, i) }

  function DynamicOf(v: ElfView): (r: Result<Dynamic, ElfError>) { Collect(Entries(v), 0, v.caps.dyn, map[]) }

  // ---- Symbol versions --------------------------------------------------------------------------------------

  datatype Version = Version(name: Bytes, soname: Bytes)

  type Versions = map<nat, Version>

  datatype Strings = Strings(strtab: Cursor, strsz: nat)

  /** One Elf64_Vernaux. */
  function AuxRound(v: ElfView, st: Strings, soname: Bytes, c: Cursor, m: Versions)
      : (r: Result<(Versions, nat), ElfError>) {
    var other :- ReadLe(v, c.Plus(6), 2);
    var name :- ReadLe(v, c.Plus(8), 4);
    var next :- ReadLe(v, c.Plus(12), 4);
    var version :- ReadStr(v, st.strtab, st.strsz, name);
    Ok((m[other % 0x8000 := Version(version, soname)], next))
  }

  function AuxRounds(v: ElfView, st: Strings, soname: Bytes): (f: LinkRound) {
    (c: Cursor, m: Versions) => AuxRound(v, st, soname, c, m)
  }

  datatype Need = Need(cnt: nat, soname: Bytes, aux: nat, next: nat)

  /** The fixed part of one Elf64_Verneed. */
  function NeedHeader(v: ElfView, st: Strings, c: Cursor): (r: Result<Need, ElfError>) {
    var cnt :- ReadLe(v, c.Plus(2), 2);
    var file :- ReadLe(v, c.Plus(4), 4);
    var aux :- ReadLe(v, c.Plus(8), 4);
    var next :- ReadLe(v, c.Plus(12), 4);
    var soname :- ReadStr(v, st.strtab, st.strsz, file);
    Ok(Need(cnt, soname, aux, next))
  }

  /** One Elf64_Verneed and the Vernaux list it heads. */
  function NeedRound(v: ElfView, st: Strings, c: Cursor, m: Versions): (r: Result<(Versions, nat), ElfError>) {
    var need :- NeedHeader(v, st, c);
    var m' :- Chase(AuxRounds(v, st, need.soname), c.Plus(need.aux), Min(need.cnt, v.caps.vernaux), m);
    Ok((m', need.next))
  }

  function NeedRounds(v: ElfView, st: Strings): (f: LinkRound) { (c: Cursor, m: Versions) => NeedRound(v, st, c, m) }

  function NeedCount(v: ElfView, d: Dynamic): (n: nat) {
    if DT_VERNEEDNUM in d then Min(d[DT_VERNEEDNUM], v.caps.verneed) else v.caps.verneed
  }

  function VersionMap(v: ElfView, d: Dynamic, st: Strings): (r: Result<Versions, ElfError>) {
    if DT_VERNEED !in d then Ok(map[])
    else
      var c :- v.vaddr(d[DT_VERNEED]);
      Chase(NeedRounds(v, st), c, NeedCount(v, d), map[])
  }

  // ---- Relocations ---------------------------------------------------------------------------------------------

  datatype Import = Import(library: Bytes, name: Bytes, version: Option<Bytes>, slot: nat)

  datatype Tables = Tables(symtab: Cursor, strings: Strings, versym: Option<Cursor>, versions: Versions)

  function VersionOf(v: ElfView, t: Tables, sym: nat): (r: Result<(Option<Bytes>, Bytes), ElfError>) {
    if t.versym.None? then Ok((None, []))
    else
      var raw :- ReadLe(v, t.versym.value.Plus(sym * 2), 2);
      var index := raw % 0x8000;
      if index <= 1 || index !in t.versions then Ok((None, []))
      else Ok((Some(t.versions[index].name), t.versions[index].soname))
  }

  /** The import of symbol `sym` at relocation offset `offset`; nothing for an unnamed symbol. */
  function SymbolImport(v: ElfView, t: Tables, sym: nat, offset: nat): (r: Result<seq<Import>, ElfError>) {
    var nameOff :- ReadLe(v, t.symtab.Plus(sym * SYM_SIZE), 4);
    if nameOff == 0 then Ok([])
    else
      var name :- ReadStr(v, t.strings.strtab, t.strings.strsz, nameOff);
      var version :- VersionOf(v, t, sym);
      var slot :- v.slot(offset);
      Ok([Import(version.1, name, version.0, slot)])
  }

  /** One Elf64_Rela: nothing unless it has the wanted type. */
  function Relocation(v: ElfView, t: Tables, entry: Cursor, want: nat): (r: Result<seq<Import>, ElfError>) {
    var offset :- ReadLe(v, entry, 8);
    var info :- ReadLe(v, entry.Plus(8), 8);
    if info % 0x1_0000_0000 != want then Ok([]) else SymbolImport(v, t, info / 0x1_0000_0000, offset)
  }

  function Relocations(v: ElfView, t: Tables, table: Cursor, entsize: nat, want: nat)
      : (f: nat -> Result<seq<Import>, ElfError>) {
    (i: nat) => Relocation(v, t, table.Plus(i * entsize), want)
  }

  function WalkRela(v: ElfView, t: Tables, table: Cursor, size: nat, entsize: nat, want: nat)
      : (r: Result<seq<Import>, ElfError>) {
    if entsize == 0 || size / entsize > v.caps.relocs then Err(Malformed)
    else Concat(Relocations(v, t, table, entsize, want), 0, size / entsize)
  }

  // ---- The whole enumeration ---------------------------------------------------------------------------------------

  datatype RelocKinds = RelocKinds(jumpSlot: nat, globDat: nat)

  function KindsOf(machine: nat): (k: Option<RelocKinds>) {
    if machine == 62 then Some(RelocKinds(7, 6)) else if machine == 183 then Some(RelocKinds(1026, 1025)) else None
  }

  function TablesOf(v: ElfView, d: Dynamic): (r: Result<Tables, ElfError>) {
    if DT_SYMENT in d && d[DT_SYMENT] != SYM_SIZE then Err(Malformed)
    else if DT_SYMTAB !in d || DT_STRTAB !in d || DT_STRSZ !in d then Err(Malformed)
    else
      var symtab :- v.dynptr(d[DT_SYMTAB]);
      var strtab :- v.dynptr(d[DT_STRTAB]);
      var versions :- VersionMap(v, d, Strings(strtab, d[DT_STRSZ]));
      if DT_VERSYM !in d then Ok(Tables(symtab, Strings(strtab, d[DT_STRSZ]), None, versions))
      else
        var versym :- v.dynptr(d[DT_VERSYM]);
        Ok(Tables(symtab, Strings(strtab, d[DT_STRSZ]), Some(versym), versions))
  }

  /** `.rela.plt`: jump slots, RELA form only. */
  function PltImports(v: ElfView, d: Dynamic, t: Tables, want: nat): (r: Result<seq<Import>, ElfError>) {
    if DT_JMPREL in d && DT_PLTRELSZ in d && DT_PLTREL in d && d[DT_PLTREL] == DT_RELA then
      var table :- v.dynptr(d[DT_JMPREL]);
      WalkRela(v, t, table, d[DT_PLTRELSZ], RELA_SIZE, want)
    else Ok([])
  }

  /** `.rela.dyn`: data slots. */
  function DataImports(v: ElfView, d: Dynamic, t: Tables, want: nat): (r: Result<seq<Import>, ElfError>) {
    if DT_RELA !in d then Ok([])
    else if DT_RELASZ !in d then Err(Malformed)
    else
      var table :- v.dynptr(d[DT_RELA]);
      WalkRela(v, t, table, d[DT_RELASZ], if DT_RELAENT in d then d[DT_RELAENT] else RELA_SIZE, want)
  }

  function ParseWith(v: ElfView, d: Dynamic, kinds: RelocKinds): (r: Result<seq<Import>, ElfError>) {
    var t :- TablesOf(v, d);
    var plt :- PltImports(v, d, t, kinds.jumpSlot);
    var data :- DataImports(v, d, t, kinds.globDat);
    Ok(plt + data)
  }

  function Parse(v: ElfView): (r: Result<seq<Import>, ElfError>) {
    match KindsOf(v.machine)
    case None => Err(Unsupported)
    case Some(kinds) =>
      var d :- DynamicOf(v);
      ParseWith(v, d, kinds)
  }
}
