/** What the ELF parser reads off an image that holds a given description, in the layouts of the ABI. */
module ElfLayout {
  import opened Wrappers
  import opened Elf

  // ---- A description: what a linker would have been asked to lay out -----------------------------------------

  datatype DynSymbol = Unnamed | Named(name: Bytes)

  datatype Rela = Rela(offset: nat, sym: nat, kind: nat)

  /** One needed version; the top bit of `index` is the hidden flag. */
  datatype Aux = Aux(index: nat, name: Bytes)

  datatype Needed = Needed(soname: Bytes, auxes: seq<Aux>)

  datatype Description = Description(
    symbols: seq<DynSymbol>,
    versyms: Option<seq<nat>>,
    needed: seq<Needed>,
    plt: seq<Rela>,
    data: seq<Rela>)

  // ---- Its imports, without any mention of bytes ----------------------------------------------------------------

  /** Every needed version with its index, in file order. */
  function Pairs(soname: Bytes, auxes: seq<Aux>): (r: seq<(nat, Version)>)
    ensures |r| == |auxes|
  {
    seq(|auxes|, i requires 0 <= i < |auxes| => (auxes[i].index % 0x8000, Version(auxes[i].name, soname)))
  }

  function AllPairs(needed: seq<Needed>): (r: seq<(nat, Version)>)
    decreases |needed|
  {
    if needed == [] then [] else Pairs(needed[0].soname, needed[0].auxes) + AllPairs(needed[1..])
  }

  /** The version an index stands for: the last one that claims it. */
  function LastFor(pairs: seq<(nat, Version)>, index: nat): (r: Option<Version>)
    ensures r.Some? <==> exists i :: 0 <= i < |pairs| && pairs[i].0 == index
    decreases |pairs|
  {
    if pairs == [] then None
    else if pairs[|pairs| - 1].0 == index then Some(pairs[|pairs| - 1].1)
    else LastFor(pairs[..|pairs| - 1], index)
  }

  /**
   * The version of symbol `sym`: none without a version table, for the reserved indices 0 and 1, or for
   * an unknown index.
   */
  function VersionIn(d: Description, sym: nat): (r: Option<Version>) {
    if d.versyms.None? || sym >= |d.versyms.value| then None
    else
      var index := d.versyms.value[sym] % 0x8000;
      if index <= 1 then None else LastFor(AllPairs(d.needed), index)
  }

  /** A relocation is an import when it has the wanted kind and its symbol a name. */
  function ImportOf(d: Description, rela: Rela, want: nat, delta: nat): (r: seq<Import>) {
    if rela.kind != want || rela.sym >= |d.symbols| || d.symbols[rela.sym].Unnamed? then []
    else
      match VersionIn(d, rela.sym)
      case None => [Import([], d.symbols[rela.sym].name, None, rela.offset + delta)]
      case Some(version) => [Import(version.soname, d.symbols[rela.sym].name, Some(version.name), rela.offset + delta)]
  }

  function ImportsOf(d: Description, relas: seq<Rela>, want: nat, delta: nat): (r: seq<Import>)
    decreases |relas|
  {
    if relas == [] then [] else ImportOf(d, relas[0], want, delta) + ImportsOf(d, relas[1..], want, delta)
  }

  // ---- How each table lies in an image --------------------------------------------------------------------------

  ghost predicate StringAt(v: ElfView, st: Strings, off: nat, s: Bytes) {
    && off + |s| < st.strsz && |s| <= v.caps.nameLen
    && (forall i: nat :: i < |s| ==> s[i] != 0 && Read(v, st.strtab.Plus(off + i), 1) == Ok([s[i]]))
    && Read(v, st.strtab.Plus(off + |s|), 1) == Ok([0])
  }

  /** Elf64_Sym: the name offset is its first word; 0 is no name. */
  ghost predicate SymbolAt(v: ElfView, symtab: Cursor, st: Strings, k: nat, sym: DynSymbol) {
    var word := ReadLe(v, symtab.Plus(k * 24), 4);
    word.Ok? && (word.value == 0 <==> sym.Unnamed?) && (sym.Named? ==> StringAt(v, st, word.value, sym.name))
  }

  /** Elf64_Rela: offset, then the symbol index above the relocation type. */
  ghost predicate RelaAt(v: ElfView, at: Cursor, rela: Rela) {
    rela.kind < 0x1_0000_0000 && ReadLe(v, at, 8) == Ok(rela.offset)
      && ReadLe(v, at.Plus(8), 8) == Ok(rela.sym * 0x1_0000_0000 + rela.kind)
  }

  ghost predicate RelasAt(v: ElfView, table: Cursor, entsize: nat, relas: seq<Rela>) {
    forall i: nat :: i < |relas| ==> RelaAt(v, table.Plus(i * entsize), relas[i])
  }

  /** Elf64_Vernaux, linked by byte stride; a zero stride ends the list. */
  ghost predicate AuxesAt(v: ElfView, st: Strings, c: Cursor, auxes: seq<Aux>)
    requires auxes != []
    decreases |auxes|
  {
    var name, next := ReadLe(v, c.Plus(8), 4), ReadLe(v, c.Plus(12), 4);
    && ReadLe(v, c.Plus(6), 2) == Ok(auxes[0].index)
    && name.Ok? && StringAt(v, st, name.value, auxes[0].name)
    && next.Ok? && (next.value == 0 <==> |auxes| == 1)
    && (|auxes| > 1 ==> AuxesAt(v, st, c.Plus(next.value), auxes[1..]))
  }

  /** The fixed part of an Elf64_Verneed. */
  ghost predicate NeedAt(v: ElfView, st: Strings, c: Cursor, need: Needed, next: nat) {
    var file, aux := ReadLe(v, c.Plus(4), 4), ReadLe(v, c.Plus(8), 4);
    && ReadLe(v, c.Plus(2), 2) == Ok(|need.auxes|) && |need.auxes| <= v.caps.vernaux
    && file.Ok? && StringAt(v, st, file.value, need.soname)
    && aux.Ok? && (need.auxes != [] ==> AuxesAt(v, st, c.Plus(aux.value), need.auxes))
    && ReadLe(v, c.Plus(12), 4) == Ok(next)
  }

  ghost predicate NeedsAt(v: ElfView, st: Strings, c: Cursor, needed: seq<Needed>)
    requires needed != []
    decreases |needed|
  {
    var next := ReadLe(v, c.Plus(12), 4);
    && next.Ok? && NeedAt(v, st, c, needed[0], next.value) && (next.value == 0 <==> |needed| == 1)
    && (|needed| > 1 ==> NeedsAt(v, st, c.Plus(next.value), needed[1..]))
  }

  // ---- Strings ----------------------------------------------------------------------------------

  lemma {:induction false} StrFromReads(v: ElfView, st: Strings, off: nat, s: Bytes, i: nat, left: nat)
    requires StringAt(v, st, off, s) && i <= |s| && |s| - i < left
    ensures StrFrom(v, st.strtab.Plus(off + i), left) == Ok(s[i..])
    decreases |s| - i
  {
    if i < |s| {
      StrFromReads(v, st, off, s, i + 1, left - 1);
      assert st.strtab.Plus(off + i).Plus(1) == st.strtab.Plus(off + (i + 1));
      assert Read(v, st.strtab.Plus(off + i), 1) == Ok([s[i]]);
      assert [s[i]] + s[i + 1..] == s[i..];
    } else {
      assert Read(v, st.strtab.Plus(off + i), 1) == Ok([0]);
      assert s[i..] == [];
    }
  }

  lemma ReadStrReads(v: ElfView, st: Strings, off: nat, s: Bytes)
    requires StringAt(v, st, off, s)
    ensures ReadStr(v, st.strtab, st.strsz, off) == Ok(s)
  {
    StrFromReads(v, st, off, s, 0, Min(st.strsz - off, v.caps.nameLen + 1));
    assert s[0..] == s;
  }

  // ---- Versions ---------------------------------------------------------------------------------

  /** The map after learning `pairs` in order. */
  function Learn(m: Versions, pairs: seq<(nat, Version)>): (r: Versions)
    decreases |pairs|
  {
    if pairs == [] then m else Learn(m[pairs[0].0 := pairs[0].1], pairs[1..])
  }

  lemma {:induction false} LearnConcat(m: Versions, x: seq<(nat, Version)>, y: seq<(nat, Version)>)
    ensures Learn(m, x + y) == Learn(Learn(m, x), y)
    decreases |x|
  {
    if x == [] {
      assert x + y == y;
    } else {
      assert (x + y)[1..] == x[1..] + y;
      LearnConcat(m[x[0].0 := x[0].1], x[1..], y);
    }
  }

  /** Learning in order is last one wins. */
  lemma {:induction false} LearnIsLast(pairs: seq<(nat, Version)>, index: nat)
    ensures index in Learn(map[], pairs) <==> LastFor(pairs, index).Some?
    ensures index in Learn(map[], pairs) ==> Learn(map[], pairs)[index] == LastFor(pairs, index).value
    decreases |pairs|
  {
    if pairs != [] {
      var before, last := pairs[..|pairs| - 1], pairs[|pairs| - 1];
      LearnIsLast(before, index);
      LearnConcat(map[], before, [last]);
      assert before + [last] == pairs;
      assert Learn(Learn(map[], before), [last]) == Learn(map[], before)[last.0 := last.1]
        by { LearnOne(Learn(map[], before), last); }
    }
  }

  lemma LearnOne(m: Versions, pair: (nat, Version))
    ensures Learn(m, [pair]) == m[pair.0 := pair.1]
  {
    assert [pair][1..] == [];
    assert Learn(m[pair.0 := pair.1], []) == m[pair.0 := pair.1];
  }

  lemma AuxReads(v: ElfView, st: Strings, soname: Bytes, c: Cursor, auxes: seq<Aux>, m: Versions)
    requires auxes != [] && AuxesAt(v, st, c, auxes)
    ensures AuxRounds(v, st, soname)(c, m) ==
            Ok((m[auxes[0].index % 0x8000 := Version(auxes[0].name, soname)], ReadLe(v, c.Plus(12), 4).value))
  {
    ReadStrReads(v, st, ReadLe(v, c.Plus(8), 4).value, auxes[0].name);
  }

  lemma {:induction false} AuxesRead(v: ElfView, st: Strings, soname: Bytes, c: Cursor, auxes: seq<Aux>, m: Versions,
                                     left: nat)
    requires auxes != [] && AuxesAt(v, st, c, auxes) && |auxes| <= left
    ensures Chase(AuxRounds(v, st, soname), c, left, m) == Ok(Learn(m, Pairs(soname, auxes)))
    decreases |auxes|
  {
    AuxReads(v, st, soname, c, auxes, m);
    var pair := (auxes[0].index % 0x8000, Version(auxes[0].name, soname));
    assert Pairs(soname, auxes)[0] == pair && Pairs(soname, auxes)[1..] == Pairs(soname, auxes[1..]);
    if |auxes| > 1 {
      AuxesRead(v, st, soname, c.Plus(ReadLe(v, c.Plus(12), 4).value), auxes[1..], m[pair.0 := pair.1], left - 1);
    }
  }

  lemma NeedReads(v: ElfView, st: Strings, c: Cursor, need: Needed, next: nat, m: Versions)
    requires NeedAt(v, st, c, need, next)
    ensures NeedRounds(v, st)(c, m) == Ok((Learn(m, Pairs(need.soname, need.auxes)), next))
  {
    ReadStrReads(v, st, ReadLe(v, c.Plus(4), 4).value, need.soname);
    var aux := ReadLe(v, c.Plus(8), 4).value;
    assert NeedHeader(v, st, c) == Ok(Need(|need.auxes|, need.soname, aux, next));
    if need.auxes != [] {
      AuxesRead(v, st, need.soname, c.Plus(aux), need.auxes, m, Min(|need.auxes|, v.caps.vernaux));
    }
  }

  lemma {:induction false} NeedsRead(v: ElfView, st: Strings, c: Cursor, needed: seq<Needed>, m: Versions, left: nat)
    requires needed != [] && NeedsAt(v, st, c, needed) && |needed| <= left
    ensures Chase(NeedRounds(v, st), c, left, m) == Ok(Learn(m, AllPairs(needed)))
    decreases |needed|
  {
    var next := ReadLe(v, c.Plus(12), 4).value;
    NeedReads(v, st, c, needed[0], next, m);
    LearnConcat(m, Pairs(needed[0].soname, needed[0].auxes), AllPairs(needed[1..]));
    if |needed| > 1 {
      NeedsRead(v, st, c.Plus(next), needed[1..], Learn(m, Pairs(needed[0].soname, needed[0].auxes)), left - 1);
    }
  }

  // ---- Relocations ------------------------------------------------------------------------------

  /** The tables of an image hold the description. */
  ghost predicate TablesHold(v: ElfView, t: Tables, d: Description) {
    && (forall k: nat :: k < |d.symbols| ==> SymbolAt(v, t.symtab, t.strings, k, d.symbols[k]))
    && (t.versym.Some? <==> d.versyms.Some?)
    && (d.versyms.Some? ==> |d.versyms.value| == |d.symbols|)
    && (d.versyms.Some? ==> forall k: nat :: k < |d.symbols| ==>
          ReadLe(v, t.versym.value.Plus(k * 2), 2) == Ok(d.versyms.value[k]))
    && t.versions == Learn(map[], AllPairs(d.needed))
  }

  /** Relocations refer to existing symbols and to slots the view accepts. */
  ghost predicate RelasFit(v: ElfView, d: Description, relas: seq<Rela>, delta: nat) {
    forall i: nat :: i < |relas| ==>
             relas[i].sym < |d.symbols| && v.slot(relas[i].offset) == Ok(relas[i].offset + delta)
  }

  lemma VersionReads(v: ElfView, t: Tables, d: Description, sym: nat)
    requires TablesHold(v, t, d) && sym < |d.symbols|
    ensures VersionOf(v, t, sym) ==
            Ok(match VersionIn(d, sym)
               case None => (None, [])
               case Some(version) => (Some(version.name), version.soname))
  {
    if d.versyms.Some? { LearnIsLast(AllPairs(d.needed), d.versyms.value[sym] % 0x8000); }
  }

  lemma SymbolReads(v: ElfView, t: Tables, d: Description, rela: Rela, delta: nat)
    requires TablesHold(v, t, d) && rela.sym < |d.symbols| && v.slot(rela.offset) == Ok(rela.offset + delta)
    ensures SymbolImport(v, t, rela.sym, rela.offset) == Ok(ImportOf(d, rela, rela.kind, delta))
  {
    var k := rela.sym;
    assert SymbolAt(v, t.symtab, t.strings, k, d.symbols[k]);
    VersionReads(v, t, d, k);
    if d.symbols[k].Named? { ReadStrReads(v, t.strings, ReadLe(v, t.symtab.Plus(k * 24), 4).value, d.symbols[k].name); }
  }

  lemma SplitInfo(sym: nat, kind: nat)
    requires kind < 0x1_0000_0000
    ensures (sym * 0x1_0000_0000 + kind) % 0x1_0000_0000 == kind && (sym * 0x1_0000_0000 + kind) / 0x1_0000_0000 == sym
  {}

  lemma RelaReads(v: ElfView, t: Tables, d: Description, at: Cursor, rela: Rela, want: nat, delta: nat)
    requires TablesHold(v, t, d) && rela.sym < |d.symbols| && v.slot(rela.offset) == Ok(rela.offset + delta)
             && RelaAt(v, at, rela)
    ensures Relocation(v, t, at, want) == Ok(ImportOf(d, rela, want, delta))
  {
    SplitInfo(rela.sym, rela.kind);
    SymbolReads(v, t, d, rela, delta);
  }

  lemma {:induction false} ConcatReads(rounds: nat -> Result<seq<Import>, ElfError>, d: Description, relas: seq<Rela>,
                                       want: nat, delta: nat, i: nat)
    requires i <= |relas| && forall k: nat :: k < |relas| ==> rounds(k) == Ok(ImportOf(d, relas[k], want, delta))
    ensures Concat(rounds, i, |relas| - i) == Ok(ImportsOf(d, relas[i..], want, delta))
    decreases |relas| - i
  {
    if i < |relas| {
      ConcatReads(rounds, d, relas, want, delta, i + 1);
      assert relas[i..][1..] == relas[i + 1..];
    }
  }

  /** A relocation table parses to the imports of its relocations, in order. */
  lemma TableReads(v: ElfView, t: Tables, d: Description, table: Cursor, entsize: nat, size: nat, relas: seq<Rela>,
                   want: nat, delta: nat)
    requires TablesHold(v, t, d) && RelasFit(v, d, relas, delta) && RelasAt(v, table, entsize, relas)
    requires entsize > 0 && size / entsize == |relas| <= v.caps.relocs
    ensures WalkRela(v, t, table, size, entsize, want) == Ok(ImportsOf(d, relas, want, delta))
  {
    var rounds := Relocations(v, t, table, entsize, want);
    forall k: nat | k < |relas| ensures rounds(k) == Ok(ImportOf(d, relas[k], want, delta)) {
      RelaReads(v, t, d, table.Plus(k * entsize), relas[k], want, delta);
    }
    ConcatReads(rounds, d, relas, want, delta, 0);
    assert relas[0..] == relas;
  }

  // ---- The dynamic array ------------------------------------------------------------------------

  /** Elf64_Dyn entries up to the terminator, each a tag and a value. */
  ghost predicate DynamicAt(v: ElfView, entries: seq<(nat, nat)>) {
    && |entries| < v.caps.dyn
    && (forall i: nat :: i < |entries| ==>
          && entries[i].0 != DT_NULL && ReadLe(v, v.dynamic.Plus(i * 16), 8) == Ok(entries[i].0)
          && ReadLe(v, v.dynamic.Plus(i * 16 + 8), 8) == Ok(entries[i].1))
    && ReadLe(v, v.dynamic.Plus(|entries| * 16), 8) == Ok(DT_NULL)
  }

  /** The value of a tag: its last entry's. */
  function TagValue(entries: seq<(nat, nat)>, tag: nat): (r: Option<nat>)
    decreases |entries|
  {
    if entries == [] then None
    else if entries[|entries| - 1].0 == tag then Some(entries[|entries| - 1].1)
    else TagValue(entries[..|entries| - 1], tag)
  }

  /** The dynamic values of an array: for each wanted tag, its last entry's. */
  function DynamicFor(entries: seq<(nat, nat)>): (info: Dynamic)
    ensures forall tag: nat :: tag in info <==> Wanted(tag) && TagValue(entries, tag).Some?
    ensures forall tag: nat :: tag in info ==> info[tag] == TagValue(entries, tag).value
    decreases |entries|
  {
    if entries == [] then map[]
    else
      var info := DynamicFor(entries[..|entries| - 1]);
      var last := entries[|entries| - 1];
      if Wanted(last.0) then info[last.0 := last.1] else info
  }

  lemma {:induction false} CollectReads(
    entry: nat -> Result<Entry, ElfError>, entries: seq<(nat, nat)>, i: nat, left: nat)
    requires i <= |entries| && |entries| - i < left
    requires forall k: nat :: k < |entries| ==> entry(k) == Ok(Entry(entries[k].0, entries[k].1))
    requires entry(|entries|) == Ok(Null)
    ensures Collect(entry, i, left, DynamicFor(entries[..i])) == Ok(DynamicFor(entries))
    decreases left
  {
    if i == |entries| {
      assert entries[..i] == entries;
    } else {
      assert entries[..i + 1][..i] == entries[..i];
      CollectReads(entry, entries, i + 1, left - 1);
    }
  }

  /** The dynamic array parses to the last value of each wanted tag. */
  lemma DynamicReads(v: ElfView, entries: seq<(nat, nat)>)
    requires DynamicAt(v, entries)
    ensures DynamicOf(v) == Ok(DynamicFor(entries))
  {
    forall k: nat | k < |entries| ensures Entries(v)(k) == Ok(Entry(entries[k].0, entries[k].1)) {
      assert ReadLe(v, v.dynamic.Plus(k * 16), 8) == Ok(entries[k].0);
    }
    assert entries[..0] == [];
    CollectReads(Entries(v), entries, 0, v.caps.dyn);
  }

  // ---- The whole image --------------------------------------------------------------------------

  /** Where the tables named by the dynamic values lie, and that they hold the description. */
  ghost predicate VersionsHold(v: ElfView, dyn: Dynamic, st: Strings, d: Description) {
    if DT_VERNEED !in dyn then d.needed == []
    else
      && v.vaddr(dyn[DT_VERNEED]).Ok? && d.needed != [] && NeedsAt(v, st, v.vaddr(dyn[DT_VERNEED]).value, d.needed)
      && |d.needed| <= NeedCount(v, dyn)
  }

  ghost predicate ImageTables(v: ElfView, dyn: Dynamic, t: Tables, d: Description) {
    && DT_SYMTAB in dyn && DT_STRTAB in dyn && DT_STRSZ in dyn && (DT_SYMENT in dyn ==> dyn[DT_SYMENT] == 24)
    && v.dynptr(dyn[DT_SYMTAB]) == Ok(t.symtab) && v.dynptr(dyn[DT_STRTAB]) == Ok(t.strings.strtab)
       && t.strings.strsz == dyn[DT_STRSZ]
    && (t.versym.Some? <==> DT_VERSYM in dyn) && (DT_VERSYM in dyn ==> v.dynptr(dyn[DT_VERSYM]) == Ok(t.versym.value))
    && VersionsHold(v, dyn, t.strings, d) && TablesHold(v, t, d)
  }

  /** The RELA-form PLT table; without one there are no PLT relocations. */
  ghost predicate PltHolds(v: ElfView, dyn: Dynamic, d: Description, delta: nat) {
    if DT_JMPREL in dyn && DT_PLTRELSZ in dyn && DT_PLTREL in dyn && dyn[DT_PLTREL] == DT_RELA then
      && v.dynptr(dyn[DT_JMPREL]).Ok? && RelasAt(v, v.dynptr(dyn[DT_JMPREL]).value, 24, d.plt)
         && RelasFit(v, d, d.plt, delta)
      && dyn[DT_PLTRELSZ] / 24 == |d.plt| <= v.caps.relocs
    else d.plt == []
  }

  ghost predicate DataHolds(v: ElfView, dyn: Dynamic, d: Description, delta: nat) {
    if DT_RELA !in dyn then d.data == []
    else
      var entsize := if DT_RELAENT in dyn then dyn[DT_RELAENT] else 24;
      && DT_RELASZ in dyn && v.dynptr(dyn[DT_RELA]).Ok? && entsize > 0
      && RelasAt(v, v.dynptr(dyn[DT_RELA]).value, entsize, d.data) && RelasFit(v, d, d.data, delta)
      && dyn[DT_RELASZ] / entsize == |d.data| <= v.caps.relocs
  }

  lemma VersionMapReads(v: ElfView, dyn: Dynamic, st: Strings, d: Description)
    requires VersionsHold(v, dyn, st, d)
    ensures VersionMap(v, dyn, st) == Ok(Learn(map[], AllPairs(d.needed)))
  {
    if DT_VERNEED in dyn { NeedsRead(v, st, v.vaddr(dyn[DT_VERNEED]).value, d.needed, map[], NeedCount(v, dyn)); }
  }

  lemma TablesRead(v: ElfView, dyn: Dynamic, t: Tables, d: Description)
    requires ImageTables(v, dyn, t, d)
    ensures TablesOf(v, dyn) == Ok(t)
  {
    VersionMapReads(v, dyn, t.strings, d);
  }

  lemma PltReads(v: ElfView, dyn: Dynamic, t: Tables, d: Description, want: nat, delta: nat)
    requires TablesHold(v, t, d) && PltHolds(v, dyn, d, delta)
    ensures PltImports(v, dyn, t, want) == Ok(ImportsOf(d, d.plt, want, delta))
  {
    if DT_JMPREL in dyn && DT_PLTRELSZ in dyn && DT_PLTREL in dyn && dyn[DT_PLTREL] == DT_RELA {
      TableReads(v, t, d, v.dynptr(dyn[DT_JMPREL]).value, 24, dyn[DT_PLTRELSZ], d.plt, want, delta);
    }
  }

  lemma DataReads(v: ElfView, dyn: Dynamic, t: Tables, d: Description, want: nat, delta: nat)
    requires TablesHold(v, t, d) && DataHolds(v, dyn, d, delta)
    ensures DataImports(v, dyn, t, want) == Ok(ImportsOf(d, d.data, want, delta))
  {
    if DT_RELA in dyn {
      var entsize := if DT_RELAENT in dyn then dyn[DT_RELAENT] else 24;
      TableReads(v, t, d, v.dynptr(dyn[DT_RELA]).value, entsize, dyn[DT_RELASZ], d.data, want, delta);
    }
  }

  /**
   * The parser reads back the description of any image that holds it, in any view, from the dynamic array
   * on: jump slots of the PLT first, then data slots, each with its name, version and library.
   */
  lemma ParseReadsDescription(
    v: ElfView, entries: seq<(nat, nat)>, kinds: RelocKinds, t: Tables, d: Description, delta: nat)
    requires KindsOf(v.machine) == Some(kinds) && DynamicAt(v, entries)
    requires ImageTables(v, DynamicFor(entries), t, d)
    requires PltHolds(v, DynamicFor(entries), d, delta) && DataHolds(v, DynamicFor(entries), d, delta)
    ensures Parse(v) == Ok(ImportsOf(d, d.plt, kinds.jumpSlot, delta) + ImportsOf(d, d.data, kinds.globDat, delta))
  {
    var dyn := DynamicFor(entries);
    DynamicReads(v, entries);
    TablesRead(v, dyn, t, d);
    PltReads(v, dyn, t, d, kinds.jumpSlot, delta);
    DataReads(v, dyn, t, d, kinds.globDat, delta);
    assert ParseWith(v, dyn, kinds).Ok?;
  }
}
