/** The ELF parser as it runs: cursors that move and vectors that grow, each walk proved equal to its meaning. */
module ElfWalk {
  import opened Wrappers
  import opened Elf

  function Prefixed<T>(done: seq<T>, rest: Result<seq<T>, ElfError>): (r: Result<seq<T>, ElfError>) {
    match rest
    case Ok(more) => Ok(done + more)
    case Err(e) => Err(e)
  }

  lemma PrefixedTwice<T>(x: seq<T>, y: seq<T>, rest: Result<seq<T>, ElfError>)
    ensures Prefixed(x, Prefixed(y, rest)) == Prefixed(x + y, rest)
  {
    if rest.Ok? { assert x + (y + rest.value) == (x + y) + rest.value; }
  }

  lemma PrefixedNone<T>(rest: Result<seq<T>, ElfError>)
    ensures Prefixed([], rest) == rest
  {
    if rest.Ok? { assert [] + rest.value == rest.value; }
  }

  method ReadString(v: ElfView, strtab: Cursor, strsz: nat, off: nat) returns (r: Result<Bytes, ElfError>)
    ensures r == ReadStr(v, strtab, strsz, off)
  {
    if off >= strsz { return Err(Malformed); }
    var max := Min(strsz - off, v.caps.nameLen + 1);
    var bytes: Bytes, i: nat := [], 0;
    PrefixedNone(StrFrom(v, strtab.Plus(off), max));
    while i < max
      invariant i <= max
      invariant StrFrom(v, strtab.Plus(off), max) == Prefixed(bytes, StrFrom(v, strtab.Plus(off + i), max - i))
    {
      var byte :- Read(v, strtab.Plus(off + i), 1);
      assert bytes + [] == bytes;
      if byte[0] == 0 { return Ok(bytes); }
      PrefixedTwice(bytes, [byte[0]], StrFrom(v, strtab.Plus(off + i + 1), max - i - 1));
      bytes, i := bytes + [byte[0]], i + 1;
    }
    return Err(Malformed);
  }

  method ReadDynamic(v: ElfView) returns (r: Result<Dynamic, ElfError>)
    ensures r == DynamicOf(v)
  {
    var info: Dynamic, i: nat := map[], 0;
    while i < v.caps.dyn
      invariant i <= v.caps.dyn
      invariant DynamicOf(v) == Collect(Entries(v), i, v.caps.dyn - i, info)
    {
      var cursor := v.dynamic.Plus(i * DYN_SIZE);
      var tag :- ReadLe(v, cursor, 8);
      if tag == DT_NULL { return Ok(info); }
      var value :- ReadLe(v, cursor.Plus(8), 8);
      assert Entries(v)(i) == Ok(Entry(tag, value));
      if Wanted(tag) { info := info[tag := value]; }
      i := i + 1;
    }
    return Err(Malformed);
  }

  method ReadAuxList(v: ElfView, st: Strings, soname: Bytes, start: Cursor, count: nat, m0: Versions)
      returns (r: Result<Versions, ElfError>)
    ensures r == Chase(AuxRounds(v, st, soname), start, count, m0)
  {
    var c, left, m := start, count, m0;
    while left > 0
      invariant Chase(AuxRounds(v, st, soname), start, count, m0) == Chase(AuxRounds(v, st, soname), c, left, m)
    {
      var other :- ReadLe(v, c.Plus(6), 2);
      var name :- ReadLe(v, c.Plus(8), 4);
      var next :- ReadLe(v, c.Plus(12), 4);
      var version :- ReadString(v, st.strtab, st.strsz, name);
      ghost var was := m;
      m := m[other % 0x8000 := Version(version, soname)];
      assert AuxRounds(v, st, soname)(c, was) == Ok((m, next));
      if next == 0 { break; }
      c, left := c.Plus(next), left - 1;
    }
    return Ok(m);
  }

  method BuildVersionMap(v: ElfView, d: Dynamic, st: Strings) returns (r: Result<Versions, ElfError>)
    ensures r == VersionMap(v, d, st)
  {
    var m: Versions := map[];
    if DT_VERNEED !in d { return Ok(m); }
    var c :- v.vaddr(d[DT_VERNEED]);
    var left := NeedCount(v, d);
    while left > 0
      invariant VersionMap(v, d, st) == Chase(NeedRounds(v, st), c, left, m)
    {
      var cnt :- ReadLe(v, c.Plus(2), 2);
      var file :- ReadLe(v, c.Plus(4), 4);
      var aux :- ReadLe(v, c.Plus(8), 4);
      var next :- ReadLe(v, c.Plus(12), 4);
      var soname :- ReadString(v, st.strtab, st.strsz, file);
      assert NeedHeader(v, st, c) == Ok(Need(cnt, soname, aux, next));
      ghost var was := m;
      m :- ReadAuxList(v, st, soname, c.Plus(aux), Min(cnt, v.caps.vernaux), m);
      assert NeedRounds(v, st)(c, was) == Ok((m, next));
      if next == 0 { break; }
      c, left := c.Plus(next), left - 1;
    }
    return Ok(m);
  }

  /** One round off the front: its failure is the walk's, its imports come first. */
  lemma ConcatStep(rounds: nat -> Result<seq<Import>, ElfError>, i: nat, left: nat)
    requires left > 0
    ensures Concat(rounds, i, left) ==
            match rounds(i) { case Err(e) => Err(e) case Ok(found) => Prefixed(found, Concat(rounds, i + 1, left - 1)) }
  {}

  /** A round of the walk whose relocation parses. */
  lemma WalkOne(rounds: nat -> Result<seq<Import>, ElfError>, imports: seq<Import>, i: nat, left: nat)
    requires left > 0
    ensures Prefixed(imports, Concat(rounds, i, left)) ==
            match rounds(i) {
              case Err(e) => Err(e)
              case Ok(found) => Prefixed(imports + found, Concat(rounds, i + 1, left - 1))
            }
  {
    ConcatStep(rounds, i, left);
    if rounds(i).Ok? { PrefixedTwice(imports, rounds(i).value, Concat(rounds, i + 1, left - 1)); }
  }

  method WalkTable(v: ElfView, t: Tables, table: Cursor, size: nat, entsize: nat, want: nat, out: seq<Import>)
    returns (r: Result<seq<Import>, ElfError>)
    ensures r == Prefixed(out, WalkRela(v, t, table, size, entsize, want))
  {
    if entsize == 0 { return Err(Malformed); }
    var count := size / entsize;
    if count > v.caps.relocs { return Err(Malformed); }
    ghost var rounds := Relocations(v, t, table, entsize, want);
    var imports, i: nat := out, 0;
    while i < count
      invariant i <= count
      invariant Prefixed(out, Concat(rounds, 0, count)) == Prefixed(imports, Concat(rounds, i, count - i))
    {
      var entry := table.Plus(i * entsize);
      var round := WalkEntry(v, t, entry, want);
      assert rounds(i) == round;
      WalkOne(rounds, imports, i, count - i);
      var found :- round;
      imports, i := imports + found, i + 1;
    }
    assert imports + [] == imports;
    return Ok(imports);
  }

  /** One relocation record: what the loop body pushes. */
  method WalkEntry(v: ElfView, t: Tables, entry: Cursor, want: nat) returns (r: Result<seq<Import>, ElfError>)
    ensures r == Relocation(v, t, entry, want)
  {
    var offset :- ReadLe(v, entry, 8);
    var info :- ReadLe(v, entry.Plus(8), 8);
    if info % 0x1_0000_0000 != want { return Ok([]); }
    var sym := info / 0x1_0000_0000;
    var nameOff :- ReadLe(v, t.symtab.Plus(sym * SYM_SIZE), 4);
    if nameOff == 0 { return Ok([]); }
    var name :- ReadString(v, t.strings.strtab, t.strings.strsz, nameOff);
    var version :- VersionOf(v, t, sym);
    var slot :- v.slot(offset);
    return Ok([Import(version.1, name, version.0, slot)]);
  }

  method ResolveTables(v: ElfView, d: Dynamic) returns (r: Result<Tables, ElfError>)
    ensures r == TablesOf(v, d)
  {
    if DT_SYMENT in d && d[DT_SYMENT] != SYM_SIZE { return Err(Malformed); }
    if DT_SYMTAB !in d || DT_STRTAB !in d || DT_STRSZ !in d { return Err(Malformed); }
    var symtab :- v.dynptr(d[DT_SYMTAB]);
    var strtab :- v.dynptr(d[DT_STRTAB]);
    var strings := Strings(strtab, d[DT_STRSZ]);
    var versions :- BuildVersionMap(v, d, strings);
    if DT_VERSYM !in d { return Ok(Tables(symtab, strings, None, versions)); }
    var versym :- v.dynptr(d[DT_VERSYM]);
    return Ok(Tables(symtab, strings, Some(versym), versions));
  }

  method ParseImports(v: ElfView) returns (r: Result<seq<Import>, ElfError>)
    ensures r == Parse(v)
  {
    var kinds := KindsOf(v.machine);
    if kinds.None? { return Err(Unsupported); }
    var d :- ReadDynamic(v);
    var t :- ResolveTables(v, d);
    var out: seq<Import> := [];
    ghost var plt := PltImports(v, d, t, kinds.value.jumpSlot);
    if DT_JMPREL in d && DT_PLTRELSZ in d && DT_PLTREL in d && d[DT_PLTREL] == DT_RELA {
      var table :- v.dynptr(d[DT_JMPREL]);
      PrefixedNone(plt);
      out :- WalkTable(v, t, table, d[DT_PLTRELSZ], RELA_SIZE, kinds.value.jumpSlot, out);
    }
    assert plt == Ok(out);
    ghost var data := DataImports(v, d, t, kinds.value.globDat);
    assert ParseWith(v, d, kinds.value) == Prefixed(out, data);
    if DT_RELA in d {
      if DT_RELASZ !in d { return Err(Malformed); }
      var table :- v.dynptr(d[DT_RELA]);
      var entsize := if DT_RELAENT in d then d[DT_RELAENT] else RELA_SIZE;
      out :- WalkTable(v, t, table, d[DT_RELASZ], entsize, kinds.value.globDat, out);
      return Ok(out);
    }
    assert out + [] == out;
    return Ok(out);
  }
}
