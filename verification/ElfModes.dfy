/** The two addressing modes of the ELF parser agree. */
module ElfModes {
  import opened Wrappers
  import opened Elf

  // ---- Views ------------------------------------------------------------------------------------------

  datatype Segment = Segment(vaddr: nat, memsz: nat, offset: nat, filesz: nat)

  /** The first segment whose file bytes cover `vaddr`. */
  function FileSegment(loads: seq<Segment>, vaddr: nat): (s: Option<Segment>)
    ensures s.Some? ==> s.value in loads && s.value.vaddr <= vaddr < s.value.vaddr + s.value.filesz
    decreases |loads|
  {
    if loads == [] then None
    else if loads[0].vaddr <= vaddr < loads[0].vaddr + loads[0].filesz then Some(loads[0])
    else FileSegment(loads[1..], vaddr)
  }

  function VaddrToOffset(loads: seq<Segment>, vaddr: nat): (r: Result<nat, ElfError>) {
    match FileSegment(loads, vaddr)
    case Some(s) => Ok(s.offset + (vaddr - s.vaddr))
    case None => Err(Malformed)
  }

  /** `[vaddr, vaddr + len)` lies inside some segment's mapped range. */
  predicate VaddrInLoad(loads: seq<Segment>, vaddr: nat, len: nat) {
    exists s :: s in loads && s.vaddr <= vaddr && vaddr + len <= s.vaddr + s.memsz
  }

  /** An object file: its bytes and the program headers that place them. */
  datatype Object = Object(bytes: Bytes, loads: seq<Segment>, machine: nat, dynamicVaddr: nat)

  // On-disk bytes: every pointer is a link-time address, translated to a file offset.

  function FileTable(o: Object, vaddr: nat): (r: Result<Cursor, ElfError>) {
    var off :- VaddrToOffset(o.loads, vaddr);
    Ok(Cursor(off, 0))
  }

  function FileRead(o: Object, c: Cursor, n: nat): (r: Result<Bytes, ElfError>) {
    var at := c.base + c.off;
    if at + n <= |o.bytes| then Ok(o.bytes[at..at + n]) else Err(Malformed)
  }

  function FileView(o: Object): (v: ElfView) {
    ElfView(CAPS, o.machine,
      Cursor(match VaddrToOffset(o.loads, o.dynamicVaddr) case Ok(off) => off case Err(_) => 0, 0),
      (p: nat) => FileTable(o, p), (p: nat) => FileTable(o, p),
      (c: Cursor, n: nat) => FileRead(o, c, n), (r: nat) => Ok(r))
  }

  // Live memory: relocated pointers are absolute, other link-time addresses get the load bias.

  datatype Process = Process(bias: nat, memory: nat -> Byte, loads: seq<Segment>, machine: nat, dynamicAddr: nat)

  function LivePointer(p: Process, ptr: nat): (r: Result<Cursor, ElfError>) {
    if ptr < p.bias || !VaddrInLoad(p.loads, ptr - p.bias, 1) then Err(Malformed) else Ok(Cursor(ptr, 0))
  }

  function LiveVaddr(p: Process, vaddr: nat): (r: Result<Cursor, ElfError>) {
    if !VaddrInLoad(p.loads, vaddr, 1) || p.bias + vaddr > U64_MAX then Err(Malformed)
    else Ok(Cursor(p.bias + vaddr, 0))
  }

  function LiveRead(p: Process, c: Cursor, n: nat): (r: Result<Bytes, ElfError>) {
    var at := c.base + c.off;
    if at < p.bias || !VaddrInLoad(p.loads, at - p.bias, n) then Err(Malformed)
    else Ok(seq(n, i requires 0 <= i => p.memory(at + i)))
  }

  function LiveSlot(p: Process, offset: nat): (r: Result<nat, ElfError>) {
    if p.bias + offset > U64_MAX || !VaddrInLoad(p.loads, offset, PTR_SIZE) || (p.bias + offset) % PTR_SIZE != 0
    then Err(Malformed) else Ok(p.bias + offset)
  }

  function LiveView(p: Process): (v: ElfView) {
    ElfView(CAPS, p.machine, Cursor(p.dynamicAddr, 0), (ptr: nat) => LivePointer(p, ptr), (a: nat) => LiveVaddr(p, a),
      (c: Cursor, n: nat) => LiveRead(p, c, n), (r: nat) => LiveSlot(p, r))
  }

  // The file mode with the demand that every table stays inside the segment its base lies in and clear of
  // the bytes the loader rewrites, and that slots are aligned and mapped. Cursors are link-time addresses.

  predicate Clear(rewritten: nat -> bool, from: nat, to: nat) { forall a: nat :: from <= a < to ==> !rewritten(a) }

  function LinkTable(o: Object, vaddr: nat): (r: Result<Cursor, ElfError>) {
    if vaddr == o.dynamicVaddr || FileSegment(o.loads, vaddr).None? then Err(Malformed) else Ok(Cursor(vaddr, 0))
  }

  function LinkRead(o: Object, rewritten: nat -> bool, c: Cursor, n: nat): (r: Result<Bytes, ElfError>) {
    match FileSegment(o.loads, c.base)
    case None => Err(Malformed)
    case Some(s) =>
      var at := c.base + c.off;
      var off := s.offset + (at - s.vaddr);
      if at + n <= s.vaddr + s.filesz && off + n <= |o.bytes|
         && (c.base == o.dynamicVaddr || Clear(rewritten, at, at + n))
      then Ok(o.bytes[off..off + n]) else Err(Malformed)
  }

  function LinkSlot(o: Object, offset: nat): (r: Result<nat, ElfError>) {
    if !VaddrInLoad(o.loads, offset, PTR_SIZE) || offset % PTR_SIZE != 0 then Err(Malformed) else Ok(offset)
  }

  function LinkView(o: Object, rewritten: nat -> bool): (v: ElfView) {
    ElfView(CAPS, o.machine, Cursor(o.dynamicVaddr, 0), (p: nat) => LinkTable(o, p), (p: nat) => LinkTable(o, p),
      (c: Cursor, n: nat) => LinkRead(o, rewritten, c, n), (r: nat) => LinkSlot(o, r))
  }

  // ---- Simulation ------------------------------------------------------------------------------------------

  /** Where each table base of the link-time view lies in the other view. */
  type Placement = nat -> nat

  function Move(at: Placement, c: Cursor): (r: Cursor) { Cursor(at(c.base), c.off) }

  /** Tags whose value the loader turns into an absolute address in place; DT_VERNEED is not one. */
  predicate Biased(tag: nat) {
    tag == DT_SYMTAB || tag == DT_STRTAB || tag == DT_JMPREL || tag == DT_RELA || tag == DT_VERSYM
  }

  function Shifted(tag: nat, delta: nat): (n: nat) { if Biased(tag) then delta else 0 }

  /** No terminator before entry `i`. */
  ghost predicate Reaches(a: ElfView, i: nat) { forall j: nat :: j < i ==> EntryAt(a, j) != Ok(Null) }

  function ShiftEntry(e: Entry, delta: nat): (r: Entry) {
    if e.Null? then e else Entry(e.tag, e.value + Shifted(e.tag, delta))
  }

  /** Off the dynamic array, `b` reads what `a` reads. */
  ghost predicate ReadsAgree(a: ElfView, b: ElfView, at: Placement) {
    && b.caps == a.caps
    && forall c: Cursor, n: nat :: c.base != a.dynamic.base && Read(a, c, n).Ok? ==>
         Read(b, Move(at, c), n) == Read(a, c, n)
  }

  ghost predicate PointerAgrees(a: ElfView, b: ElfView, at: Placement, delta: nat, p: nat) {
    a.dynptr(p).Ok? ==>
        a.dynptr(p) == Ok(Cursor(p, 0)) && p != a.dynamic.base && b.dynptr(p + delta) == Ok(Cursor(at(p), 0))
  }

  ghost predicate VaddrAgrees(a: ElfView, b: ElfView, at: Placement, p: nat) {
    a.vaddr(p).Ok? ==> a.vaddr(p) == Ok(Cursor(p, 0)) && p != a.dynamic.base && b.vaddr(p) == Ok(Cursor(at(p), 0))
  }

  /** A relocated pointer is answered after the shift, a link-time address as it is. */
  ghost predicate TablesAgree(a: ElfView, b: ElfView, at: Placement, delta: nat) {
    && (forall p: nat :: PointerAgrees(a, b, at, delta, p))
    && (forall p: nat :: VaddrAgrees(a, b, at, p))
  }

  ghost predicate SlotAgrees(a: ElfView, b: ElfView, delta: nat, r: nat) {
    a.slot(r).Ok? ==> a.slot(r) == Ok(r) && b.slot(r) == Ok(r + delta)
  }

  ghost predicate SlotsAgree(a: ElfView, b: ElfView, delta: nat) { forall r: nat :: SlotAgrees(a, b, delta, r) }

  /** `b` answers whatever `a` answers, with table bases placed by `at` and slots shifted by `delta`. */
  ghost predicate Simulates(a: ElfView, b: ElfView, at: Placement, delta: nat) {
    && b.machine == a.machine && b.caps == a.caps
    && ReadsAgree(a, b, at) && TablesAgree(a, b, at, delta) && SlotsAgree(a, b, delta) && DynamicRelocated(a, b, delta)
  }

  /** Up to the terminator, `b`'s dynamic array is `a`'s with the relocated pointers shifted. */
  ghost predicate DynamicRelocated(a: ElfView, b: ElfView, delta: nat) {
    forall i: nat :: Reaches(a, i) && EntryAt(a, i).Ok? ==> EntryAt(b, i) == Ok(ShiftEntry(EntryAt(a, i).value, delta))
  }

  /** A cursor into a table other than the dynamic array. */
  ghost predicate Tabular(a: ElfView, c: Cursor) { c.base != a.dynamic.base }

  // ---- Reads and strings --------------------------------------------------------------------------------

  lemma SimRead(a: ElfView, b: ElfView, at: Placement, c: Cursor, n: nat)
    requires ReadsAgree(a, b, at) && Tabular(a, c)
    ensures ReadLe(a, c, n).Ok? ==> ReadLe(b, Move(at, c), n) == ReadLe(a, c, n)
  {}

  lemma {:induction false} SimStrFrom(a: ElfView, b: ElfView, at: Placement, c: Cursor, left: nat)
    requires ReadsAgree(a, b, at) && Tabular(a, c)
    ensures StrFrom(a, c, left).Ok? ==> StrFrom(b, Move(at, c), left) == StrFrom(a, c, left)
    decreases left
  {
    if StrFrom(a, c, left).Ok? {
      assert Read(b, Move(at, c), 1) == Read(a, c, 1);
      if Read(a, c, 1).value[0] != 0 {
        SimStrFrom(a, b, at, c.Plus(1), left - 1);
        assert Move(at, c).Plus(1) == Move(at, c.Plus(1));
      }
    }
  }

  lemma SimStr(a: ElfView, b: ElfView, at: Placement, st: Strings, off: nat)
    requires ReadsAgree(a, b, at) && Tabular(a, st.strtab)
    ensures ReadStr(a, st.strtab, st.strsz, off).Ok? ==>
              ReadStr(b, Move(at, st.strtab), st.strsz, off) == ReadStr(a, st.strtab, st.strsz, off)
  {
    if off < st.strsz {
      SimStrFrom(a, b, at, st.strtab.Plus(off), Min(st.strsz - off, a.caps.nameLen + 1));
    }
  }

  // ---- The dynamic array ---------------------------------------------------------------------------------

  function Relocated(d: Dynamic, delta: nat): (r: Dynamic) { map t | t in d :: d[t] + Shifted(t, delta) }

  /** No terminator from entry `i` to before entry `k`. */
  ghost predicate NoNull(entry: nat -> Result<Entry, ElfError>, i: nat, k: nat) {
    forall j: nat :: i <= j < k ==> entry(j) != Ok(Null)
  }

  ghost predicate EntriesShift(ea: nat -> Result<Entry, ElfError>, eb: nat -> Result<Entry, ElfError>, i: nat,
                               delta: nat) {
    forall k: nat :: i <= k && NoNull(ea, i, k) && ea(k).Ok? ==> eb(k) == Ok(ShiftEntry(ea(k).value, delta))
  }

  lemma RelocatedPut(d: Dynamic, delta: nat, tag: nat, value: nat)
    ensures Relocated(d[tag := value], delta) == Relocated(d, delta)[tag := value + Shifted(tag, delta)]
  {}

  lemma {:induction false} SimCollect(ea: nat -> Result<Entry, ElfError>, eb: nat -> Result<Entry, ElfError>,
                                      delta: nat, i: nat, left: nat, info: Dynamic)
    requires EntriesShift(ea, eb, i, delta)
    ensures Collect(ea, i, left, info).Ok? ==>
              Collect(eb, i, left, Relocated(info, delta)) == Ok(Relocated(Collect(ea, i, left, info).value, delta))
    decreases left
  {
    if Collect(ea, i, left, info).Ok? {
      var e := ea(i).value;
      assert NoNull(ea, i, i) && eb(i) == Ok(ShiftEntry(e, delta));
      if e.Entry? {
        var next := if Wanted(e.tag) then info[e.tag := e.value] else info;
        RelocatedPut(info, delta, e.tag, e.value);
        assert EntriesShift(ea, eb, i + 1, delta) by { LaterEntries(ea, eb, i, delta); }
        SimCollect(ea, eb, delta, i + 1, left - 1, next);
      }
    }
  }

  lemma LaterEntries(ea: nat -> Result<Entry, ElfError>, eb: nat -> Result<Entry, ElfError>, i: nat, delta: nat)
    requires EntriesShift(ea, eb, i, delta) && ea(i) != Ok(Null)
    ensures EntriesShift(ea, eb, i + 1, delta)
  {
    forall k: nat | i + 1 <= k && NoNull(ea, i + 1, k) && ea(k).Ok?
      ensures eb(k) == Ok(ShiftEntry(ea(k).value, delta))
    {
      assert NoNull(ea, i, k);
    }
  }

  lemma SimDynamic(a: ElfView, b: ElfView, delta: nat)
    requires DynamicRelocated(a, b, delta) && b.caps == a.caps
    ensures DynamicOf(a).Ok? ==> DynamicOf(b) == Ok(Relocated(DynamicOf(a).value, delta))
  {
    var ea, eb := Entries(a), Entries(b);
    forall k: nat | NoNull(ea, 0, k) && ea(k).Ok?
      ensures eb(k) == Ok(ShiftEntry(ea(k).value, delta))
    {
      assert Reaches(a, k) by { assert forall j: nat :: j < k ==> ea(j) == EntryAt(a, j); }
    }
    var none: Dynamic := map[];
    SimCollect(ea, eb, delta, 0, a.caps.dyn, none);
    assert Relocated(none, delta) == none;
  }

  // ---- Versions --------------------------------------------------------------------------------------------

  function MoveStrings(at: Placement, st: Strings): (r: Strings) { Strings(Move(at, st.strtab), st.strsz) }

  lemma MovePlus(at: Placement, c: Cursor, n: nat)
    ensures Move(at, c.Plus(n)) == Move(at, c).Plus(n)
  {}

  /** Rounds that agree on every cursor off base `avoid`. */
  ghost predicate RoundsAgree(ra: LinkRound, rb: LinkRound, at: Placement, avoid: nat) {
    forall c: Cursor, m: Versions :: c.base != avoid && ra(c, m).Ok? ==> rb(Move(at, c), m) == ra(c, m)
  }

  lemma {:induction false} SimChase(ra: LinkRound, rb: LinkRound, at: Placement, avoid: nat, c: Cursor, left: nat,
                                    m: Versions)
    requires RoundsAgree(ra, rb, at, avoid) && c.base != avoid
    ensures Chase(ra, c, left, m).Ok? ==> Chase(rb, Move(at, c), left, m) == Chase(ra, c, left, m)
    decreases left
  {
    if Chase(ra, c, left, m).Ok? && left > 0 {
      assert rb(Move(at, c), m) == ra(c, m);
      var (m', next) := ra(c, m).value;
      if next != 0 {
        MovePlus(at, c, next);
        SimChase(ra, rb, at, avoid, c.Plus(next), left - 1, m');
      }
    }
  }

  lemma SimAuxRound(a: ElfView, b: ElfView, at: Placement, st: Strings, soname: Bytes, c: Cursor, m: Versions)
    requires ReadsAgree(a, b, at) && Tabular(a, c) && Tabular(a, st.strtab)
    ensures AuxRound(a, st, soname, c, m).Ok? ==>
              AuxRound(b, MoveStrings(at, st), soname, Move(at, c), m) == AuxRound(a, st, soname, c, m)
  {
    SimRead(a, b, at, c.Plus(6), 2);
    SimRead(a, b, at, c.Plus(8), 4);
    SimRead(a, b, at, c.Plus(12), 4);
    if AuxRound(a, st, soname, c, m).Ok? { SimStr(a, b, at, st, ReadLe(a, c.Plus(8), 4).value); }
  }

  lemma SimAux(a: ElfView, b: ElfView, at: Placement, st: Strings, soname: Bytes, c: Cursor, left: nat, m: Versions)
    requires ReadsAgree(a, b, at) && Tabular(a, c) && Tabular(a, st.strtab)
    ensures var ra, rb := AuxRounds(a, st, soname), AuxRounds(b, MoveStrings(at, st), soname);
            Chase(ra, c, left, m).Ok? ==> Chase(rb, Move(at, c), left, m) == Chase(ra, c, left, m)
  {
    var ra, rb := AuxRounds(a, st, soname), AuxRounds(b, MoveStrings(at, st), soname);
    forall c': Cursor, m': Versions | c'.base != a.dynamic.base && ra(c', m').Ok?
      ensures rb(Move(at, c'), m') == ra(c', m') {
      SimAuxRound(a, b, at, st, soname, c', m');
    }
    SimChase(ra, rb, at, a.dynamic.base, c, left, m);
  }

  lemma SimNeedHeader(a: ElfView, b: ElfView, at: Placement, st: Strings, c: Cursor)
    requires ReadsAgree(a, b, at) && Tabular(a, c) && Tabular(a, st.strtab)
    ensures NeedHeader(a, st, c).Ok? ==> NeedHeader(b, MoveStrings(at, st), Move(at, c)) == NeedHeader(a, st, c)
  {
    if NeedHeader(a, st, c).Ok? {
      SimRead(a, b, at, c.Plus(2), 2);
      SimRead(a, b, at, c.Plus(4), 4);
      SimRead(a, b, at, c.Plus(8), 4);
      SimRead(a, b, at, c.Plus(12), 4);
      SimStr(a, b, at, st, ReadLe(a, c.Plus(4), 4).value);
    }
  }

  lemma SimNeedRound(a: ElfView, b: ElfView, at: Placement, st: Strings, c: Cursor, m: Versions)
    requires ReadsAgree(a, b, at) && Tabular(a, c) && Tabular(a, st.strtab)
    ensures NeedRound(a, st, c, m).Ok? ==> NeedRound(b, MoveStrings(at, st), Move(at, c), m) == NeedRound(a, st, c, m)
  {
    if NeedRound(a, st, c, m).Ok? {
      SimNeedHeader(a, b, at, st, c);
      var need := NeedHeader(a, st, c).value;
      MovePlus(at, c, need.aux);
      SimAux(a, b, at, st, need.soname, c.Plus(need.aux), Min(need.cnt, a.caps.vernaux), m);
    }
  }

  lemma SimNeeds(a: ElfView, b: ElfView, at: Placement, st: Strings, c: Cursor, left: nat, m: Versions)
    requires ReadsAgree(a, b, at) && Tabular(a, c) && Tabular(a, st.strtab)
    ensures var ra, rb := NeedRounds(a, st), NeedRounds(b, MoveStrings(at, st));
            Chase(ra, c, left, m).Ok? ==> Chase(rb, Move(at, c), left, m) == Chase(ra, c, left, m)
  {
    var ra, rb := NeedRounds(a, st), NeedRounds(b, MoveStrings(at, st));
    forall c': Cursor, m': Versions | c'.base != a.dynamic.base && ra(c', m').Ok?
      ensures rb(Move(at, c'), m') == ra(c', m') {
      SimNeedRound(a, b, at, st, c', m');
    }
    SimChase(ra, rb, at, a.dynamic.base, c, left, m);
  }

  lemma VersionMapIs(v: ElfView, d: Dynamic, st: Strings, c: Cursor)
    requires DT_VERNEED in d && v.vaddr(d[DT_VERNEED]) == Ok(c)
    ensures VersionMap(v, d, st) == Chase(NeedRounds(v, st), c, NeedCount(v, d), map[])
  {}

  lemma RelocatedAt(d: Dynamic, delta: nat, tag: nat)
    ensures tag in Relocated(d, delta) <==> tag in d
    ensures tag in d ==> Relocated(d, delta)[tag] == d[tag] + Shifted(tag, delta)
  {}

  lemma SimVersionMap(a: ElfView, b: ElfView, at: Placement, delta: nat, d: Dynamic, st: Strings)
    requires ReadsAgree(a, b, at) && TablesAgree(a, b, at, delta) && Tabular(a, st.strtab)
    ensures VersionMap(a, d, st).Ok? ==> VersionMap(b, Relocated(d, delta), MoveStrings(at, st)) == VersionMap(a, d, st)
  {
    if VersionMap(a, d, st).Ok? && DT_VERNEED in d {
      assert VaddrAgrees(a, b, at, d[DT_VERNEED]);
      var c, d' := a.vaddr(d[DT_VERNEED]).value, Relocated(d, delta);
      RelocatedAt(d, delta, DT_VERNEED);
      RelocatedAt(d, delta, DT_VERNEEDNUM);
      assert NeedCount(b, d') == NeedCount(a, d);
      VersionMapIs(a, d, st, c);
      VersionMapIs(b, d', MoveStrings(at, st), Move(at, c));
      SimNeeds(a, b, at, st, a.vaddr(d[DT_VERNEED]).value, NeedCount(a, d), map[]);
    }
  }

  // ---- Relocations -------------------------------------------------------------------------------------------

  function MoveTables(at: Placement, t: Tables): (r: Tables) {
    Tables(Move(at, t.symtab), MoveStrings(at, t.strings),
           if t.versym.None? then None else Some(Move(at, t.versym.value)), t.versions)
  }

  ghost predicate TabularTables(a: ElfView, t: Tables) {
    Tabular(a, t.symtab) && Tabular(a, t.strings.strtab) && (t.versym.Some? ==> Tabular(a, t.versym.value))
  }

  /** The same imports with every slot moved by `delta`. */
  function ShiftSlots(imports: seq<Import>, delta: nat): (r: seq<Import>)
    ensures |r| == |imports|
  {
    seq(|imports|, i requires 0 <= i < |imports| => imports[i].(slot := imports[i].slot + delta))
  }

  lemma ShiftConcat(x: seq<Import>, y: seq<Import>, delta: nat)
    ensures ShiftSlots(x + y, delta) == ShiftSlots(x, delta) + ShiftSlots(y, delta)
  {}

  lemma ShiftOne(i: Import, delta: nat)
    ensures ShiftSlots([i], delta) == [i.(slot := i.slot + delta)]
  {}

  lemma SimVersionOf(a: ElfView, b: ElfView, at: Placement, t: Tables, sym: nat)
    requires ReadsAgree(a, b, at) && TabularTables(a, t)
    ensures VersionOf(a, t, sym).Ok? ==> VersionOf(b, MoveTables(at, t), sym) == VersionOf(a, t, sym)
  {
    if t.versym.Some? { SimRead(a, b, at, t.versym.value.Plus(sym * 2), 2); }
  }

  lemma SimSymbolImport(a: ElfView, b: ElfView, at: Placement, delta: nat, t: Tables, sym: nat, offset: nat)
    requires ReadsAgree(a, b, at) && SlotsAgree(a, b, delta) && TabularTables(a, t)
    ensures SymbolImport(a, t, sym, offset).Ok? ==>
              SymbolImport(b, MoveTables(at, t), sym, offset) ==
                  Ok(ShiftSlots(SymbolImport(a, t, sym, offset).value, delta))
  {
    if SymbolImport(a, t, sym, offset).Ok? {
      var c := t.symtab.Plus(sym * SYM_SIZE);
      SimRead(a, b, at, c, 4);
      var nameOff := ReadLe(a, c, 4).value;
      if nameOff == 0 {
        assert ShiftSlots([], delta) == [];
      } else {
        SimStr(a, b, at, t.strings, nameOff);
        SimVersionOf(a, b, at, t, sym);
        var name := ReadStr(a, t.strings.strtab, t.strings.strsz, nameOff).value;
        var version := VersionOf(a, t, sym).value;
        assert SlotAgrees(a, b, delta, offset);
        ShiftOne(Import(version.1, name, version.0, offset), delta);
      }
    }
  }

  lemma SimRelocation(a: ElfView, b: ElfView, at: Placement, delta: nat, t: Tables, entry: Cursor, want: nat)
    requires ReadsAgree(a, b, at) && SlotsAgree(a, b, delta) && TabularTables(a, t) && Tabular(a, entry)
    ensures Relocation(a, t, entry, want).Ok? ==>
              Relocation(b, MoveTables(at, t), Move(at, entry), want) ==
                  Ok(ShiftSlots(Relocation(a, t, entry, want).value, delta))
  {
    if Relocation(a, t, entry, want).Ok? {
      SimRead(a, b, at, entry, 8);
      SimRead(a, b, at, entry.Plus(8), 8);
      var offset, info := ReadLe(a, entry, 8).value, ReadLe(a, entry.Plus(8), 8).value;
      SimSymbolImport(a, b, at, delta, t, info / 0x1_0000_0000, offset);
      assert ShiftSlots([], delta) == [];
    }
  }

  type ImportRound = nat -> Result<seq<Import>, ElfError>

  ghost predicate RoundsShift(ra: ImportRound, rb: ImportRound, delta: nat) {
    forall i: nat :: ra(i).Ok? ==> rb(i) == Ok(ShiftSlots(ra(i).value, delta))
  }

  lemma {:induction false} SimConcat(ra: ImportRound, rb: ImportRound, delta: nat, i: nat, left: nat)
    requires RoundsShift(ra, rb, delta)
    ensures Concat(ra, i, left).Ok? ==> Concat(rb, i, left) == Ok(ShiftSlots(Concat(ra, i, left).value, delta))
    decreases left
  {
    if Concat(ra, i, left).Ok? && left > 0 {
      SimConcat(ra, rb, delta, i + 1, left - 1);
      assert rb(i) == Ok(ShiftSlots(ra(i).value, delta));
      ShiftConcat(ra(i).value, Concat(ra, i + 1, left - 1).value, delta);
    }
  }

  lemma SimRelocations(a: ElfView, b: ElfView, at: Placement, delta: nat, t: Tables, table: Cursor, entsize: nat,
                       want: nat)
    requires ReadsAgree(a, b, at) && SlotsAgree(a, b, delta) && TabularTables(a, t) && Tabular(a, table)
    ensures RoundsShift(Relocations(a, t, table, entsize, want),
                        Relocations(b, MoveTables(at, t), Move(at, table), entsize, want), delta)
  {
    var ra, rb := Relocations(a, t, table, entsize, want),
        Relocations(b, MoveTables(at, t), Move(at, table), entsize, want);
    forall i: nat | ra(i).Ok? ensures rb(i) == Ok(ShiftSlots(ra(i).value, delta)) {
      MovePlus(at, table, i * entsize);
      SimRelocation(a, b, at, delta, t, table.Plus(i * entsize), want);
    }
  }

  lemma SimWalkRela(a: ElfView, b: ElfView, at: Placement, delta: nat, t: Tables, table: Cursor, size: nat,
                    entsize: nat, want: nat)
    requires ReadsAgree(a, b, at) && SlotsAgree(a, b, delta) && TabularTables(a, t) && Tabular(a, table)
    ensures WalkRela(a, t, table, size, entsize, want).Ok? ==>
              WalkRela(b, MoveTables(at, t), Move(at, table), size, entsize, want) ==
              Ok(ShiftSlots(WalkRela(a, t, table, size, entsize, want).value, delta))
  {
    if entsize > 0 && size / entsize <= a.caps.relocs {
      SimRelocations(a, b, at, delta, t, table, entsize, want);
      SimConcat(Relocations(a, t, table, entsize, want),
                Relocations(b, MoveTables(at, t), Move(at, table), entsize, want), delta, 0, size / entsize);
    }
  }

  // ---- The whole enumeration ------------------------------------------------------------------------------------

  /** What a successful table lookup resolved. */
  lemma TablesAre(v: ElfView, d: Dynamic)
    requires TablesOf(v, d).Ok?
    ensures var t := TablesOf(v, d).value;
            && DT_SYMTAB in d && DT_STRTAB in d && DT_STRSZ in d && (DT_SYMENT in d ==> d[DT_SYMENT] == SYM_SIZE)
            && v.dynptr(d[DT_SYMTAB]) == Ok(t.symtab) && v.dynptr(d[DT_STRTAB]) == Ok(t.strings.strtab)
            && t.strings.strsz == d[DT_STRSZ] && VersionMap(v, d, t.strings) == Ok(t.versions)
            && (t.versym.Some? <==> DT_VERSYM in d) && (DT_VERSYM in d ==> v.dynptr(d[DT_VERSYM]) == Ok(t.versym.value))
  {}

  lemma TablesFrom(v: ElfView, d: Dynamic, t: Tables)
    requires DT_SYMTAB in d && DT_STRTAB in d && DT_STRSZ in d && (DT_SYMENT in d ==> d[DT_SYMENT] == SYM_SIZE)
    requires v.dynptr(d[DT_SYMTAB]) == Ok(t.symtab) && v.dynptr(d[DT_STRTAB]) == Ok(t.strings.strtab)
    requires t.strings.strsz == d[DT_STRSZ] && VersionMap(v, d, t.strings) == Ok(t.versions)
    requires (t.versym.Some? <==> DT_VERSYM in d) && (DT_VERSYM in d ==> v.dynptr(d[DT_VERSYM]) == Ok(t.versym.value))
    ensures TablesOf(v, d) == Ok(t)
  {}

  lemma SimTables(a: ElfView, b: ElfView, at: Placement, delta: nat, d: Dynamic)
    requires ReadsAgree(a, b, at) && TablesAgree(a, b, at, delta) && TablesOf(a, d).Ok?
    ensures TabularTables(a, TablesOf(a, d).value)
    ensures TablesOf(b, Relocated(d, delta)) == Ok(MoveTables(at, TablesOf(a, d).value))
  {
    TablesAre(a, d);
    var t := TablesOf(a, d).value;
    assert PointerAgrees(a, b, at, delta, d[DT_SYMTAB]) && PointerAgrees(a, b, at, delta, d[DT_STRTAB]);
    assert DT_VERSYM in d ==> PointerAgrees(a, b, at, delta, d[DT_VERSYM]);
    SimVersionMap(a, b, at, delta, d, t.strings);
    TablesFrom(b, Relocated(d, delta), MoveTables(at, t));
  }

  predicate HasPlt(d: Dynamic) { DT_JMPREL in d && DT_PLTRELSZ in d && DT_PLTREL in d && d[DT_PLTREL] == DT_RELA }

  lemma RelocatedPlt(d: Dynamic, delta: nat)
    ensures HasPlt(Relocated(d, delta)) <==> HasPlt(d)
    ensures HasPlt(d) ==>
              && Relocated(d, delta)[DT_JMPREL] == d[DT_JMPREL] + delta
              && Relocated(d, delta)[DT_PLTRELSZ] == d[DT_PLTRELSZ]
  {}

  lemma PltIs(v: ElfView, d: Dynamic, t: Tables, want: nat, table: Cursor)
    requires HasPlt(d) && v.dynptr(d[DT_JMPREL]) == Ok(table)
    ensures PltImports(v, d, t, want) == WalkRela(v, t, table, d[DT_PLTRELSZ], RELA_SIZE, want)
  {}

  lemma SimPlt(a: ElfView, b: ElfView, at: Placement, delta: nat, d: Dynamic, t: Tables, want: nat)
    requires ReadsAgree(a, b, at) && TablesAgree(a, b, at, delta) && SlotsAgree(a, b, delta) && TabularTables(a, t)
    requires PltImports(a, d, t, want).Ok?
    ensures PltImports(b, Relocated(d, delta), MoveTables(at, t), want) ==
              Ok(ShiftSlots(PltImports(a, d, t, want).value, delta))
  {
    if HasPlt(d) {
      assert PointerAgrees(a, b, at, delta, d[DT_JMPREL]);
      var table := a.dynptr(d[DT_JMPREL]).value;
      RelocatedPlt(d, delta);
      PltIs(a, d, t, want, table);
      PltIs(b, Relocated(d, delta), MoveTables(at, t), want, Move(at, table));
      SimWalkRela(a, b, at, delta, t, table, d[DT_PLTRELSZ], RELA_SIZE, want);
    } else {
      assert ShiftSlots([], delta) == [];
    }
  }

  function RelaEntry(d: Dynamic): (n: nat) { if DT_RELAENT in d then d[DT_RELAENT] else RELA_SIZE }

  lemma RelocatedData(d: Dynamic, delta: nat)
    ensures DT_RELA in d ==> DT_RELA in Relocated(d, delta) && Relocated(d, delta)[DT_RELA] == d[DT_RELA] + delta
    ensures DT_RELASZ in d ==> DT_RELASZ in Relocated(d, delta) && Relocated(d, delta)[DT_RELASZ] == d[DT_RELASZ]
    ensures RelaEntry(Relocated(d, delta)) == RelaEntry(d)
  {}

  lemma DataIs(v: ElfView, d: Dynamic, t: Tables, want: nat, table: Cursor)
    requires DT_RELA in d && DT_RELASZ in d && v.dynptr(d[DT_RELA]) == Ok(table)
    ensures DataImports(v, d, t, want) == WalkRela(v, t, table, d[DT_RELASZ], RelaEntry(d), want)
  {}

  lemma SimData(a: ElfView, b: ElfView, at: Placement, delta: nat, d: Dynamic, t: Tables, want: nat)
    requires ReadsAgree(a, b, at) && TablesAgree(a, b, at, delta) && SlotsAgree(a, b, delta) && TabularTables(a, t)
    requires DataImports(a, d, t, want).Ok?
    ensures DataImports(b, Relocated(d, delta), MoveTables(at, t), want) ==
              Ok(ShiftSlots(DataImports(a, d, t, want).value, delta))
  {
    if DT_RELA in d {
      assert PointerAgrees(a, b, at, delta, d[DT_RELA]);
      var table := a.dynptr(d[DT_RELA]).value;
      RelocatedData(d, delta);
      DataIs(a, d, t, want, table);
      DataIs(b, Relocated(d, delta), MoveTables(at, t), want, Move(at, table));
      SimWalkRela(a, b, at, delta, t, table, d[DT_RELASZ], RelaEntry(d), want);
    } else {
      assert ShiftSlots([], delta) == [];
    }
  }

  lemma SimParseWith(a: ElfView, b: ElfView, at: Placement, delta: nat, d: Dynamic, kinds: RelocKinds)
    requires Simulates(a, b, at, delta)
    ensures ParseWith(a, d, kinds).Ok? ==>
              ParseWith(b, Relocated(d, delta), kinds) == Ok(ShiftSlots(ParseWith(a, d, kinds).value, delta))
  {
    if ParseWith(a, d, kinds).Ok? {
      SimTables(a, b, at, delta, d);
      var t := TablesOf(a, d).value;
      SimPlt(a, b, at, delta, d, t, kinds.jumpSlot);
      SimData(a, b, at, delta, d, t, kinds.globDat);
      ShiftConcat(PltImports(a, d, t, kinds.jumpSlot).value, DataImports(a, d, t, kinds.globDat).value, delta);
    }
  }

  lemma SimParse(a: ElfView, b: ElfView, at: Placement, delta: nat)
    requires Simulates(a, b, at, delta)
    ensures Parse(a).Ok? ==> Parse(b) == Ok(ShiftSlots(Parse(a).value, delta))
  {
    if Parse(a).Ok? {
      SimDynamic(a, b, delta);
      SimParseWith(a, b, at, delta, DynamicOf(a).value, KindsOf(a.machine).value);
    }
  }

  // ---- The views of one object --------------------------------------------------------------------------------------

  function FilePlace(o: Object): (at: Placement) {
    (v: nat) => match VaddrToOffset(o.loads, v) case Ok(off) => off case Err(_) => 0
  }

  lemma FileReads(o: Object, rewritten: nat -> bool, c: Cursor, n: nat)
    requires LinkRead(o, rewritten, c, n).Ok?
    ensures FileRead(o, Move(FilePlace(o), c), n) == LinkRead(o, rewritten, c, n)
  {}

  lemma FileSimulates(o: Object, rewritten: nat -> bool)
    ensures Simulates(LinkView(o, rewritten), FileView(o), FilePlace(o), 0)
  {
    var a, b, at := LinkView(o, rewritten), FileView(o), FilePlace(o);
    forall c: Cursor, n: nat | Read(a, c, n).Ok? ensures Read(b, Move(at, c), n) == Read(a, c, n) {
      FileReads(o, rewritten, c, n);
    }
    forall i: nat | EntryAt(a, i).Ok? ensures EntryAt(b, i) == EntryAt(a, i) {
      var c, d := a.dynamic.Plus(i * DYN_SIZE), a.dynamic.Plus(i * DYN_SIZE + 8);
      assert Read(b, Move(at, c), 8) == Read(a, c, 8);
      if Read(a, d, 8).Ok? { assert Read(b, Move(at, d), 8) == Read(a, d, 8); }
    }
    assert forall e: Entry :: ShiftEntry(e, 0) == e;
  }

  /** The byte the object puts at link-time address `v`, through segment `s`. */
  ghost predicate Maps(o: Object, s: Segment, v: nat) {
    s in o.loads && s.vaddr <= v < s.vaddr + s.filesz && s.offset + (v - s.vaddr) < |o.bytes|
  }

  /** `p` maps `o` at a word-aligned bias: mapped bytes are the file's except the rewritten ones. */
  ghost predicate Mapped(o: Object, rewritten: nat -> bool, p: Process) {
    && p.loads == o.loads && p.bias % PTR_SIZE == 0
    && (forall s :: s in o.loads ==> s.filesz <= s.memsz && p.bias + s.vaddr + s.memsz <= U64_MAX)
    && (forall s, v: nat :: Maps(o, s, v) && !rewritten(v) ==>
          p.memory(p.bias + v) == o.bytes[s.offset + (v - s.vaddr)])
  }

  /** ... and is relocated as the loader does: the dynamic array has its address pointers biased in place. */
  ghost predicate LoadedFrom(o: Object, rewritten: nat -> bool, p: Process) {
    && Mapped(o, rewritten, p) && p.machine == o.machine && p.dynamicAddr == p.bias + o.dynamicVaddr
    && DynamicRelocated(LinkView(o, rewritten), LiveView(p), p.bias)
  }

  lemma InFileInLoad(o: Object, rewritten: nat -> bool, p: Process, s: Segment, v: nat, n: nat)
    requires Mapped(o, rewritten, p) && s in o.loads && s.vaddr <= v && v + n <= s.vaddr + s.filesz
    ensures VaddrInLoad(p.loads, v, n) && p.bias + v + n <= U64_MAX
  {
    assert s in p.loads;
  }

  lemma LiveReads(o: Object, rewritten: nat -> bool, p: Process, c: Cursor, n: nat)
    requires Mapped(o, rewritten, p) && c.base != o.dynamicVaddr && LinkRead(o, rewritten, c, n).Ok?
    ensures LiveRead(p, Cursor(p.bias + c.base, c.off), n) == LinkRead(o, rewritten, c, n)
  {
    var s := FileSegment(o.loads, c.base).value;
    var at := c.base + c.off;
    InFileInLoad(o, rewritten, p, s, at, n);
    var got, want := LiveRead(p, Cursor(p.bias + c.base, c.off), n).value, LinkRead(o, rewritten, c, n).value;
    forall i | 0 <= i < n ensures got[i] == want[i] {
      assert Maps(o, s, at + i) && !rewritten(at + i);
      assert got[i] == p.memory(p.bias + (at + i));
    }
    assert got == want;
  }

  function LivePlace(p: Process): (at: Placement) { (v: nat) => p.bias + v }

  lemma LiveReadsAgree(o: Object, rewritten: nat -> bool, p: Process)
    requires Mapped(o, rewritten, p)
    ensures ReadsAgree(LinkView(o, rewritten), LiveView(p), LivePlace(p))
  {
    var a, b, at := LinkView(o, rewritten), LiveView(p), LivePlace(p);
    forall c: Cursor, n: nat | c.base != a.dynamic.base && Read(a, c, n).Ok?
      ensures Read(b, Move(at, c), n) == Read(a, c, n) {
      LiveReads(o, rewritten, p, c, n);
    }
  }

  lemma LiveTable(o: Object, rewritten: nat -> bool, p: Process, v: nat)
    requires Mapped(o, rewritten, p) && LinkTable(o, v).Ok?
    ensures LivePointer(p, v + p.bias) == Ok(Cursor(p.bias + v, 0)) && LiveVaddr(p, v) == Ok(Cursor(p.bias + v, 0))
  {
    InFileInLoad(o, rewritten, p, FileSegment(o.loads, v).value, v, 1);
  }

  lemma LiveTablesAgree(o: Object, rewritten: nat -> bool, p: Process)
    requires Mapped(o, rewritten, p)
    ensures TablesAgree(LinkView(o, rewritten), LiveView(p), LivePlace(p), p.bias)
  {
    forall v: nat | LinkTable(o, v).Ok?
      ensures LivePointer(p, v + p.bias) == Ok(Cursor(p.bias + v, 0)) && LiveVaddr(p, v) == Ok(Cursor(p.bias + v, 0))
    {
      LiveTable(o, rewritten, p, v);
    }
  }

  lemma LiveSlotAt(o: Object, rewritten: nat -> bool, p: Process, r: nat)
    requires Mapped(o, rewritten, p) && LinkSlot(o, r).Ok?
    ensures LiveSlot(p, r) == Ok(r + p.bias)
  {
    var s :| s in o.loads && s.vaddr <= r && r + PTR_SIZE <= s.vaddr + s.memsz;
  }

  lemma LiveSlotsAgree(o: Object, rewritten: nat -> bool, p: Process)
    requires Mapped(o, rewritten, p)
    ensures SlotsAgree(LinkView(o, rewritten), LiveView(p), p.bias)
  {
    forall r: nat ensures SlotAgrees(LinkView(o, rewritten), LiveView(p), p.bias, r) {
      if LinkSlot(o, r).Ok? { LiveSlotAt(o, rewritten, p, r); }
    }
  }

  lemma LiveSimulates(o: Object, rewritten: nat -> bool, p: Process)
    requires LoadedFrom(o, rewritten, p)
    ensures Simulates(LinkView(o, rewritten), LiveView(p), LivePlace(p), p.bias)
  {
    LiveReadsAgree(o, rewritten, p);
    LiveTablesAgree(o, rewritten, p);
    LiveSlotsAgree(o, rewritten, p);
  }

  /**
   * Addressing-mode independence: whenever the file-mode parse succeeds with every table inside its
   * segment, both real modes succeed, with the same names, versions and libraries in the same order, and
   * every live slot is the link-time slot plus the load bias.
   */
  lemma ModesAgree(o: Object, rewritten: nat -> bool, p: Process)
    requires LoadedFrom(o, rewritten, p) && Parse(LinkView(o, rewritten)).Ok?
    ensures Parse(FileView(o)) == Parse(LinkView(o, rewritten))
    ensures Parse(LiveView(p)) == Ok(ShiftSlots(Parse(FileView(o)).value, p.bias))
  {
    var a := LinkView(o, rewritten);
    FileSimulates(o, rewritten);
    SimParse(a, FileView(o), FilePlace(o), 0);
    assert ShiftSlots(Parse(a).value, 0) == Parse(a).value;
    LiveSimulates(o, rewritten, p);
    SimParse(a, LiveView(p), LivePlace(p), p.bias);
  }

  /** The view that takes the version table's address for a relocated pointer, as the other tables' are. */
  function VerneedRelocated(v: ElfView): (w: ElfView) { v.(vaddr := v.dynptr) }

  lemma SameDynamic(v: ElfView)
    requires DynamicOf(v).Ok?
    ensures DynamicOf(VerneedRelocated(v)) == DynamicOf(v)
  {
    var w := VerneedRelocated(v);
    forall i: nat | EntryAt(v, i).Ok? ensures EntryAt(w, i) == Ok(ShiftEntry(EntryAt(v, i).value, 0)) {}
    SimDynamic(v, w, 0);
    assert Relocated(DynamicOf(v).value, 0) == DynamicOf(v).value;
  }

  lemma NoTablesWithoutVersions(v: ElfView, d: Dynamic)
    requires DT_VERNEED in d && v.vaddr(d[DT_VERNEED]).Err?
    ensures TablesOf(v, d).Err?
  {}

  /**
   * Why DT_VERNEED needs its own resolution: on every image whose version table lies below the load bias,
   * the live parse that takes its address for a relocated pointer fails, where the parser succeeds.
   */
  lemma VerneedIsNotRelocated(o: Object, rewritten: nat -> bool, p: Process)
    requires LoadedFrom(o, rewritten, p) && Parse(LinkView(o, rewritten)).Ok?
    ensures DynamicOf(LinkView(o, rewritten)).Ok?
    ensures var d := DynamicOf(LinkView(o, rewritten)).value;
            DT_VERNEED in d && d[DT_VERNEED] < p.bias ==>
              Parse(LiveView(p)).Ok? && Parse(VerneedRelocated(LiveView(p))).Err?
  {
    var a, v := LinkView(o, rewritten), LiveView(p);
    var d := DynamicOf(a).value;
    ModesAgree(o, rewritten, p);
    SimDynamic(a, v, p.bias);
    SameDynamic(v);
    if DT_VERNEED in d && d[DT_VERNEED] < p.bias {
      RelocatedAt(d, p.bias, DT_VERNEED);
      NoTablesWithoutVersions(VerneedRelocated(v), Relocated(d, p.bias));
    }
  }
}
