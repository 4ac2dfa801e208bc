/** Mach-O chained fixups: decoding one pointer and walking the chain of every page. */
module Chains {
  import opened Wrappers
  import opened BindStream

  const PTR_64: nat := 2
  const PTR_64_OFFSET: nat := 6
  const ARM64E: nat := 1
  const ARM64E_KERNEL: nat := 7
  const ARM64E_USERLAND: nat := 9
  const ARM64E_FIRMWARE: nat := 10
  const ARM64E_USERLAND24: nat := 12
  const START_NONE: nat := 0xFFFF

  const BIT51: nat := 0x8_0000_0000_0000
  const BIT62: nat := 0x4000_0000_0000_0000
  const BIT63: nat := 0x8000_0000_0000_0000

  datatype ChainError = BadRead | UnsupportedFormat | ZeroPageSize | OffsetOverflow | Import(error: ParseError)

  datatype ChainEntry = ChainEntry(isBind: bool, ordinal: nat, authenticated: bool, next: nat)

  predicate Is64(format: nat) { format == PTR_64 || format == PTR_64_OFFSET }

  predicate IsArm64e(format: nat) {
    format in {ARM64E, ARM64E_KERNEL, ARM64E_USERLAND, ARM64E_FIRMWARE, ARM64E_USERLAND24}
  }

  /** Bytes one unit of the next field stands for. */
  function Stride(format: nat): (n: nat) {
    if Is64(format) || format == ARM64E_KERNEL || format == ARM64E_FIRMWARE then 4 else 8
  }

  function NextUnits(format: nat): (n: nat) { if Is64(format) then 4096 else 2048 }

  function OrdinalUnits(format: nat): (n: nat)
    ensures n > 0
  {
    if Is64(format) || format == ARM64E_USERLAND24 then 0x100_0000 else 0x1_0000
  }

  function DecodeChain(raw: nat, format: nat): (r: Option<ChainEntry>) {
    if Is64(format) then
      var isBind := raw / BIT63 % 2 == 1;
      Some(ChainEntry(isBind, if isBind then raw % 0x100_0000 else 0, false, raw / BIT51 % 4096 * 4))
    else if IsArm64e(format) then
      var stride := if format == ARM64E_KERNEL || format == ARM64E_FIRMWARE then 4 else 8;
      Some(ChainEntry(
        raw / BIT62 % 2 == 1,
        if format == ARM64E_USERLAND24 then raw % 0x100_0000 else raw % 0x1_0000,
        raw / BIT63 % 2 == 1,
        raw / BIT51 % 2048 * stride))
    else None
  }

  // ---- One page ------------------------------------------------------------------------------------

  /** What a walk reports for a bind slot. */
  datatype BindAt = BindAt(offset: nat, ordinal: nat, authenticated: bool)

  /**
   * What walking needs of the image: the decoded chain slot at an offset, the import a bind becomes, and
   * how many slots of one page are followed at most.
   */
  datatype Chain = Chain(
    entry: nat -> Result<ChainEntry, ChainError>,
    import_: BindAt -> Result<seq<RawImport>, ParseError>,
    maxSteps: nat)

  type Imports = Result<seq<RawImport>, ChainError>

  /** Slots decoded from the image's words under one pointer format. */
  function EntryAt(word: nat -> Option<nat>, format: nat, offset: nat): (r: Result<ChainEntry, ChainError>) {
    match word(offset)
    case None => Err(BadRead)
    case Some(raw) =>
      match DecodeChain(raw, format)
      case None => Err(UnsupportedFormat)
      case Some(entry) => Ok(entry)
  }

  function ChainOf(word: nat -> Option<nat>, format: nat, import_: BindAt -> Result<seq<RawImport>, ParseError>)
      : (c: Chain) {
    Chain((offset: nat) => EntryAt(word, format, offset), import_, MAX_CHAIN_STEPS)
  }

  function Visit(c: Chain, entry: ChainEntry, offset: nat): (r: Imports) {
    if !entry.isBind then Ok([])
    else match c.import_(BindAt(offset, entry.ordinal, entry.authenticated))
      case Ok(out) => Ok(out)
      case Err(e) => Err(Import(e))
  }

  /** Follow the chain for at most `steps` slots. */
  function Walk(c: Chain, offset: nat, steps: nat): (r: Imports)
    decreases steps
  {
    if steps == 0 then Ok([])
    else
      var entry :- c.entry(offset);
      var out :- Visit(c, entry, offset);
      if entry.next == 0 then Ok(out)
      else if offset + entry.next > U64_MAX then Err(OffsetOverflow)
      else
        var more :- Walk(c, offset + entry.next, steps - 1);
        Ok(out + more)
  }

  function Before(out: seq<RawImport>, r: Imports): (p: Imports) {
    match r
    case Ok(more) => Ok(out + more)
    case Err(e) => Err(e)
  }

  function Then(first: Imports, rest: Imports): (r: Imports) {
    match first
    case Err(e) => Err(e)
    case Ok(out) => Before(out, rest)
  }

  lemma BeforeTwice(a: seq<RawImport>, b: seq<RawImport>, r: Imports)
    ensures Before(a + b, r) == Before(a, Before(b, r))
  {
    if r.Ok? { assert (a + b) + r.value == a + (b + r.value); }
  }

  lemma BeforeNothing(r: Imports)
    ensures Before([], r) == r
  {
    if r.Ok? { assert [] + r.value == r.value; }
  }

  method WalkPage(c: Chain, start: nat) returns (r: Imports)
    ensures r == Walk(c, start, c.maxSteps)
  {
    var offset: nat, out := start, [];
    ghost var whole := Walk(c, start, c.maxSteps);
    BeforeNothing(whole);
    for i := 0 to c.maxSteps
      invariant Before(out, Walk(c, offset, c.maxSteps - i)) == whole
    {
      var entry := c.entry(offset);
      if entry.Err? {
        return Err(entry.error);
      }
      var visited := Visit(c, entry.value, offset);
      if visited.Err? {
        return Err(visited.error);
      }
      if entry.value.next == 0 {
        return Ok(out + visited.value);
      }
      if offset + entry.value.next > U64_MAX {
        return Err(OffsetOverflow);
      }
      BeforeTwice(out, visited.value, Walk(c, offset + entry.value.next, c.maxSteps - i - 1));
      out := out + visited.value;
      offset := offset + entry.value.next;
    }
    assert out + [] == out;
    return Ok(out);
  }

  // ---- Every page of a segment ------------------------------------------------------------------------

  /** File offset of the first slot of page `j`. */
  function PageStart(base: nat, pageSize: nat, starts: seq<nat>, j: nat): (offset: nat)
    requires j < |starts|
  {
    base + j * pageSize + starts[j]
  }

  function WalkPages(c: Chain, base: nat, pageSize: nat, starts: seq<nat>, j: nat): (r: Imports)
    requires j <= |starts|
    decreases |starts| - j
  {
    if j == |starts| then Ok([])
    else if starts[j] == START_NONE then WalkPages(c, base, pageSize, starts, j + 1)
    else if PageStart(base, pageSize, starts, j) > U64_MAX then Err(OffsetOverflow)
    else
      var out :- Walk(c, PageStart(base, pageSize, starts, j), c.maxSteps);
      var more :- WalkPages(c, base, pageSize, starts, j + 1);
      Ok(out + more)
  }

  // ---- Encoding ------------------------------------------------------------------------------------------

  /** One slot of a chain; `low` is everything below the next field, a bind's ordinal in its low bits. */
  datatype Fixup = Fixup(offset: nat, isBind: bool, authenticated: bool, low: nat)

  function OrdinalOf(format: nat, f: Fixup): (n: nat) { f.low % OrdinalUnits(format) }

  function Steps(format: nat, from: Fixup, to: Fixup): (n: int) { (to.offset - from.offset) / Stride(format) }

  /** Offsets strictly increase. */
  ghost predicate Rising(fs: seq<Fixup>) {
    && (forall i, j :: 0 <= i < j < |fs| ==> fs[i].offset < fs[j].offset)
    && (forall i :: 0 <= i < |fs| ==> fs[i].offset <= U64_MAX)
  }

  predicate GapFits(format: nat, from: Fixup, to: Fixup) {
    (to.offset - from.offset) % Stride(format) == 0 && Steps(format, from, to) < NextUnits(format)
  }

  /** Representable: fields in range, offsets rising by gaps the next field can count. */
  ghost predicate Representable(format: nat, fs: seq<Fixup>) {
    && (Is64(format) || IsArm64e(format))
    && (forall i :: 0 <= i < |fs| ==> fs[i].low < BIT51 && (Is64(format) ==> !fs[i].authenticated))
    && Rising(fs)
    && (forall i :: 0 <= i < |fs| - 1 ==> GapFits(format, fs[i], fs[i + 1]))
  }

  function EncodeFixup(format: nat, f: Fixup, next: nat): (raw: nat) {
    if Is64(format) then (if f.isBind then BIT63 else 0) + next * BIT51 + f.low
    else (if f.authenticated then BIT63 else 0) + (if f.isBind then BIT62 else 0) + next * BIT51 + f.low
  }

  function NextOf(format: nat, fs: seq<Fixup>, i: nat): (n: int)
    requires i < |fs|
  {
    if i == |fs| - 1 then 0 else Steps(format, fs[i], fs[i + 1])
  }

  /** The words of the image at the slots of `fs` are their encodings. */
  ghost predicate Holds(word: nat -> Option<nat>, format: nat, fs: seq<Fixup>) {
    forall i :: 0 <= i < |fs| ==>
      NextOf(format, fs, i) >= 0 && word(fs[i].offset) == Some(EncodeFixup(format, fs[i], NextOf(format, fs, i)))
  }

  lemma Low24(k: nat, low: nat)
    ensures (0x100_0000 * k + low) % 0x100_0000 == low % 0x100_0000
  {}

  // The fields of a 64-bit word: a flag bit, the stride count, the low bits.

  lemma High64(b: nat, next: nat, low: nat)
    requires next < 4096 && low < BIT51
    ensures (b * BIT63 + next * BIT51 + low) / BIT51 == b * 4096 + next
  {
    assert b * BIT63 + next * BIT51 + low == (b * 4096 + next) * BIT51 + low;
  }

  lemma Flag64(b: nat, rest: nat)
    requires rest < BIT63
    ensures (b * BIT63 + rest) / BIT63 == b
  {}

  lemma Fields64(b: nat, next: nat, low: nat, raw: nat)
    requires b < 2 && next < 4096 && low < BIT51 && raw == b * BIT63 + next * BIT51 + low
    ensures raw / BIT63 % 2 == b && raw / BIT51 % 4096 == next && raw % 0x100_0000 == low % 0x100_0000
  {
    High64(b, next, low);
    Flag64(b, next * BIT51 + low);
    assert raw == 0x100_0000 * ((b * 4096 + next) * 0x800_0000) + low;
    Low24((b * 4096 + next) * 0x800_0000, low);
  }

  lemma Decode64(f: Fixup, next: nat, format: nat)
    requires Is64(format) && f.low < BIT51 && next < 4096
    ensures DecodeChain(EncodeFixup(format, f, next), format) ==
            Some(ChainEntry(f.isBind, if f.isBind then f.low % 0x100_0000 else 0, false, next * 4))
  {
    Fields64(if f.isBind then 1 else 0, next, f.low, EncodeFixup(format, f, next));
  }

  // The fields of an arm64e word: two flag bits, the stride count, the low bits.

  lemma ArmHigh(a: nat, b: nat, next: nat, low: nat)
    requires next < 2048 && low < BIT51
    ensures (a * BIT63 + b * BIT62 + next * BIT51 + low) / BIT51 == a * 4096 + b * 2048 + next
  {
    assert a * BIT63 + b * BIT62 + next * BIT51 + low == (a * 4096 + b * 2048 + next) * BIT51 + low;
  }

  lemma ArmFlags(a: nat, b: nat, rest: nat)
    requires b < 2 && rest < BIT62
    ensures (a * BIT63 + b * BIT62 + rest) / BIT62 == a * 2 + b && (a * BIT63 + b * BIT62 + rest) / BIT63 == a
  {
    assert a * BIT63 + b * BIT62 + rest == (a * 2 + b) * BIT62 + rest;
  }

  lemma Low16(k: nat, low: nat)
    ensures (0x1_0000 * k + low) % 0x1_0000 == low % 0x1_0000
  {}

  lemma ArmLow(high: nat, low: nat)
    ensures (high * BIT51 + low) % 0x100_0000 == low % 0x100_0000 && (high * BIT51 + low) % 0x1_0000 == low % 0x1_0000
  {
    Low24(high * 0x800_0000, low);
    Low16(high * 0x8_0000_0000, low);
  }

  lemma ArmFields(a: nat, b: nat, next: nat, low: nat, raw: nat)
    requires a < 2 && b < 2 && next < 2048 && low < BIT51
    requires raw == a * BIT63 + b * BIT62 + next * BIT51 + low
    ensures raw / BIT51 % 2048 == next && raw / BIT62 % 2 == b && raw / BIT63 % 2 == a
    ensures raw % 0x100_0000 == low % 0x100_0000 && raw % 0x1_0000 == low % 0x1_0000
  {
    ArmHigh(a, b, next, low);
    ArmFlags(a, b, next * BIT51 + low);
    ArmLow(a * 4096 + b * 2048 + next, low);
    assert raw == (a * 4096 + b * 2048 + next) * BIT51 + low;
  }

  lemma DecodeArm(f: Fixup, next: nat, format: nat)
    requires IsArm64e(format) && f.low < BIT51 && next < 2048
    ensures DecodeChain(EncodeFixup(format, f, next), format) ==
            Some(ChainEntry(f.isBind, OrdinalOf(format, f), f.authenticated, next * Stride(format)))
  {
    var a, b := if f.authenticated then 1 else 0, if f.isBind then 1 else 0;
    ArmFields(a, b, next, f.low, EncodeFixup(format, f, next));
  }

  /** Decoding recovers every field of every supported format. */
  lemma DecodeInverts(f: Fixup, next: nat, format: nat)
    requires (Is64(format) && !f.authenticated) || IsArm64e(format)
    requires f.low < BIT51 && next < NextUnits(format)
    ensures var r := DecodeChain(EncodeFixup(format, f, next), format);
            && r.Some? && r.value.isBind == f.isBind && r.value.authenticated == f.authenticated
            && r.value.next == next * Stride(format)
            && (f.isBind ==> r.value.ordinal == OrdinalOf(format, f))
  {
    if Is64(format) { Decode64(f, next, format); } else { DecodeArm(f, next, format); }
  }

  /** The chain decodes `f` at its offset and goes on to `next`. */
  ghost predicate Decodes(c: Chain, format: nat, f: Fixup, next: nat) {
    && c.entry(f.offset).Ok?
    && c.entry(f.offset).value.isBind == f.isBind
    && c.entry(f.offset).value.authenticated == f.authenticated
    && (f.isBind ==> c.entry(f.offset).value.ordinal == OrdinalOf(format, f))
    && f.offset + c.entry(f.offset).value.next == next
  }

  /** Where the chain goes from slot `i`: the next slot, or nowhere. */
  function After(fs: seq<Fixup>, i: nat): (offset: nat)
    requires i < |fs|
  {
    if i == |fs| - 1 then fs[i].offset else fs[i + 1].offset
  }

  /** The chain decodes, slot by slot, to `fs`. */
  ghost predicate Threads(c: Chain, format: nat, fs: seq<Fixup>) {
    forall i :: 0 <= i < |fs| ==> Decodes(c, format, fs[i], After(fs, i))
  }

  lemma StepsAreExact(format: nat, from: Fixup, to: Fixup)
    requires from.offset < to.offset && (to.offset - from.offset) % Stride(format) == 0
    ensures Steps(format, from, to) > 0 && Steps(format, from, to) * Stride(format) == to.offset - from.offset
  {}

  /** A slot held with its encoding decodes to itself and leads to the slot after it. */
  lemma EncodedDecodes(word: nat -> Option<nat>, format: nat, import_: BindAt -> Result<seq<RawImport>, ParseError>,
                       f: Fixup, next: nat)
    requires (Is64(format) && !f.authenticated) || IsArm64e(format)
    requires f.low < BIT51 && next < NextUnits(format) && word(f.offset) == Some(EncodeFixup(format, f, next))
    ensures Decodes(ChainOf(word, format, import_), format, f, f.offset + next * Stride(format))
  {
    DecodeInverts(f, next, format);
  }

  /** The gap to the next slot fits the next field, and the field leads there. */
  lemma NextLeads(format: nat, fs: seq<Fixup>, i: nat)
    requires Representable(format, fs) && i < |fs|
    ensures 0 <= NextOf(format, fs, i) < NextUnits(format)
    ensures fs[i].offset + NextOf(format, fs, i) * Stride(format) == After(fs, i)
  {
    if i < |fs| - 1 {
      assert GapFits(format, fs[i], fs[i + 1]);
      StepsAreExact(format, fs[i], fs[i + 1]);
    }
  }

  /** An image holding the encodings of a representable slot list threads through exactly those slots. */
  lemma EncodedThreads(word: nat -> Option<nat>, format: nat, import_: BindAt -> Result<seq<RawImport>, ParseError>,
                       fs: seq<Fixup>)
    requires Representable(format, fs) && Holds(word, format, fs)
    ensures Threads(ChainOf(word, format, import_), format, fs)
  {
    forall i | 0 <= i < |fs|
      ensures Decodes(ChainOf(word, format, import_), format, fs[i], After(fs, i))
    {
      NextLeads(format, fs, i);
      EncodedDecodes(word, format, import_, fs[i], NextOf(format, fs, i));
    }
  }

  /** What one slot contributes: a bind's import, with its offset, ordinal and authenticated bit. */
  function ImportOf(c: Chain, format: nat, f: Fixup): (r: Imports) {
    if !f.isBind then Ok([])
    else match c.import_(BindAt(f.offset, OrdinalOf(format, f), f.authenticated))
      case Ok(out) => Ok(out)
      case Err(e) => Err(Import(e))
  }

  lemma VisitIsImport(c: Chain, format: nat, f: Fixup, next: nat)
    requires Decodes(c, format, f, next)
    ensures Visit(c, c.entry(f.offset).value, f.offset) == ImportOf(c, format, f)
  {}

  /** The binds among the first `limit` slots, imported in order. */
  function ImportsOf(c: Chain, format: nat, fs: seq<Fixup>, limit: nat): (r: Imports)
    decreases |fs|
  {
    if fs == [] || limit == 0 then Ok([])
    else
      var out :- ImportOf(c, format, fs[0]);
      var more :- ImportsOf(c, format, fs[1..], limit - 1);
      Ok(out + more)
  }

  /** One slot of the walk: its import, then the rest of the chain if there is any. */
  lemma WalkOne(c: Chain, format: nat, f: Fixup, next: nat, steps: nat)
    requires Decodes(c, format, f, next) && next <= U64_MAX && steps > 0
    ensures Walk(c, f.offset, steps) ==
            match ImportOf(c, format, f) {
              case Err(e) => Err(e)
              case Ok(out) => if next == f.offset then Ok(out) else Before(out, Walk(c, next, steps - 1))
            }
  {
    VisitIsImport(c, format, f, next);
  }

  lemma ImportsOfOne(c: Chain, format: nat, fs: seq<Fixup>, limit: nat)
    requires fs != [] && limit > 0
    ensures ImportsOf(c, format, fs, limit) ==
            match ImportOf(c, format, fs[0]) {
              case Err(e) => Err(e)
              case Ok(out) => Before(out, ImportsOf(c, format, fs[1..], limit - 1))
            }
  {}

  lemma ImportsOfNone(c: Chain, format: nat, limit: nat, out: seq<RawImport>)
    ensures Before(out, ImportsOf(c, format, [], limit)) == Ok(out)
  {
    assert out + [] == out;
  }

  /**
   * Walking a chain recovers exactly its binds, in order, with offset, ordinal and authenticated bit — of
   * as many slots as the step budget allows; a longer chain is cut off without an error.
   */
  lemma {:induction false} WalkInverts(c: Chain, format: nat, fs: seq<Fixup>, steps: nat)
    requires Threads(c, format, fs) && Rising(fs) && fs != []
    ensures Walk(c, fs[0].offset, steps) == ImportsOf(c, format, fs, steps)
    decreases |fs|
  {
    if steps > 0 {
      assert Decodes(c, format, fs[0], After(fs, 0)) && After(fs, 0) <= U64_MAX;
      WalkOne(c, format, fs[0], After(fs, 0), steps);
      ImportsOfOne(c, format, fs, steps);
      if |fs| == 1 {
        assert fs[1..] == [];
        if ImportOf(c, format, fs[0]).Ok? { ImportsOfNone(c, format, steps - 1, ImportOf(c, format, fs[0]).value); }
      } else {
        TailThreads(c, format, fs);
        WalkInverts(c, format, fs[1..], steps - 1);
        assert fs[0].offset < fs[1].offset;
      }
    }
  }

  // A chain longer than the step budget is cut off without an error: what that loses.

  /** No slot from `from` on would have contributed anything. */
  ghost predicate Silent(c: Chain, format: nat, fs: seq<Fixup>, from: nat) {
    forall i :: from <= i < |fs| ==> ImportOf(c, format, fs[i]) == Ok([])
  }

  /** One of the first `limit` slots cannot be imported. */
  ghost predicate FailsWithin(c: Chain, format: nat, fs: seq<Fixup>, limit: nat) {
    exists i :: 0 <= i < |fs| && i < limit && ImportOf(c, format, fs[i]).Err?
  }

  lemma BeforeCancels(out: seq<RawImport>, a: Imports, b: Imports)
    ensures Before(out, a) == Before(out, b) <==> a == b
  {
    if a.Ok? && b.Ok? && Before(out, a) == Before(out, b) {
      assert a.value == (out + a.value)[|out|..] == b.value;
    }
  }

  lemma BeforeIsNothing(out: seq<RawImport>, r: Imports)
    ensures Before(out, r) == Ok([]) <==> out == [] && r == Ok([])
  {
    if r.Ok? { assert |out + r.value| == |out| + |r.value|; }
  }

  lemma {:induction false} NothingIffSilent(c: Chain, format: nat, fs: seq<Fixup>)
    ensures ImportsOf(c, format, fs, |fs|) == Ok([]) <==> Silent(c, format, fs, 0)
    decreases |fs|
  {
    if fs != [] {
      NothingIffSilent(c, format, fs[1..]);
      ImportsOfOne(c, format, fs, |fs|);
      SilentTail(c, format, fs, 0);
      if ImportOf(c, format, fs[0]).Ok? {
        BeforeIsNothing(ImportOf(c, format, fs[0]).value, ImportsOf(c, format, fs[1..], |fs| - 1));
      }
    }
  }

  lemma SilentTail(c: Chain, format: nat, fs: seq<Fixup>, from: nat)
    requires fs != []
    ensures Silent(c, format, fs, 0) <==> ImportOf(c, format, fs[0]) == Ok([]) && Silent(c, format, fs[1..], 0)
    ensures from > 0 ==> (Silent(c, format, fs, from) <==> Silent(c, format, fs[1..], from - 1))
  {
    assert forall i :: 0 <= i < |fs| - 1 ==> fs[1..][i] == fs[i + 1];
    assert forall i :: 1 <= i < |fs| ==> fs[i] == fs[1..][i - 1];
  }

  lemma FailsTail(c: Chain, format: nat, fs: seq<Fixup>, limit: nat)
    requires fs != [] && limit > 0
    ensures FailsWithin(c, format, fs, limit) <==>
            ImportOf(c, format, fs[0]).Err? || FailsWithin(c, format, fs[1..], limit - 1)
  {
    assert forall i :: 0 <= i < |fs| - 1 ==> fs[1..][i] == fs[i + 1];
    assert forall i :: 1 <= i < |fs| ==> fs[i] == fs[1..][i - 1];
  }

  lemma {:induction false} LimitIsWholeIff(c: Chain, format: nat, fs: seq<Fixup>, limit: nat)
    ensures ImportsOf(c, format, fs, limit) == ImportsOf(c, format, fs, |fs|) <==>
            FailsWithin(c, format, fs, limit) || Silent(c, format, fs, limit)
    decreases |fs|
  {
    if fs != [] && limit == 0 {
      NothingIffSilent(c, format, fs);
    } else if fs != [] {
      LimitIsWholeIff(c, format, fs[1..], limit - 1);
      ImportsOfOne(c, format, fs, limit);
      ImportsOfOne(c, format, fs, |fs|);
      FailsTail(c, format, fs, limit);
      SilentTail(c, format, fs, limit);
      if ImportOf(c, format, fs[0]).Ok? {
        BeforeCancels(ImportOf(c, format, fs[0]).value, ImportsOf(c, format, fs[1..], limit - 1),
                      ImportsOf(c, format, fs[1..], |fs| - 1));
      }
    }
  }

  /**
   * The walk of a chain gives all its binds exactly when no slot past the step budget would contribute,
   * unless it fails on a slot within the budget, as it then would without one.
   */
  lemma WalkIsWholeIff(c: Chain, format: nat, fs: seq<Fixup>, steps: nat)
    requires Threads(c, format, fs) && Rising(fs) && fs != []
    ensures Walk(c, fs[0].offset, steps) == ImportsOf(c, format, fs, |fs|) <==>
            FailsWithin(c, format, fs, steps) || Silent(c, format, fs, steps)
  {
    WalkInverts(c, format, fs, steps);
    LimitIsWholeIff(c, format, fs, steps);
  }

  /**
   * So where every bind is importable and becomes an import, the walk never fails, and it loses a bind
   * exactly when one lies past the step budget.
   */
  lemma LongChainsAreCut(c: Chain, format: nat, fs: seq<Fixup>, steps: nat)
    requires Threads(c, format, fs) && Rising(fs) && fs != []
    requires forall f :: f in fs && f.isBind ==> ImportOf(c, format, f).Ok? && ImportOf(c, format, f).value != []
    ensures Walk(c, fs[0].offset, steps).Ok?
    ensures Walk(c, fs[0].offset, steps) != ImportsOf(c, format, fs, |fs|) <==>
            exists i :: steps <= i < |fs| && fs[i].isBind
  {
    WalkIsWholeIff(c, format, fs, steps);
    WalkInverts(c, format, fs, steps);
    AllImportable(c, format, fs, steps);
    assert forall i :: 0 <= i < |fs| ==> fs[i] in fs;
  }

  lemma {:induction false} AllImportable(c: Chain, format: nat, fs: seq<Fixup>, limit: nat)
    requires forall f :: f in fs && f.isBind ==> ImportOf(c, format, f).Ok?
    ensures ImportsOf(c, format, fs, limit).Ok?
    decreases |fs|
  {
    if fs != [] && limit > 0 {
      assert fs[0] in fs;
      AllImportable(c, format, fs[1..], limit - 1);
      ImportsOfOne(c, format, fs, limit);
    }
  }

  lemma TailThreads(c: Chain, format: nat, fs: seq<Fixup>)
    requires Threads(c, format, fs) && Rising(fs) && |fs| > 1
    ensures Threads(c, format, fs[1..]) && Rising(fs[1..])
  {
    var rest := fs[1..];
    forall i | 0 <= i < |rest|
      ensures Decodes(c, format, rest[i], After(rest, i))
    {
      assert rest[i] == fs[i + 1];
      assert Decodes(c, format, fs[i + 1], After(fs, i + 1));
    }
  }

  /** The words of a page built from its slots. */
  ghost function PageWords(format: nat, fs: seq<Fixup>): (m: map<nat, nat>) {
    if fs == [] then map[]
    else
      var next := NextOf(format, fs, 0);
      PageWords(format, fs[1..])[fs[0].offset := EncodeFixup(format, fs[0], if next >= 0 then next else 0)]
  }

  ghost function WordsOf(m: map<nat, nat>): (word: nat -> Option<nat>) {
    (offset: nat) => if offset in m then Some(m[offset]) else None
  }

  lemma TailRepresentable(format: nat, fs: seq<Fixup>)
    requires Representable(format, fs) && fs != []
    ensures Representable(format, fs[1..])
  {
    var rest := fs[1..];
    forall i | 0 <= i < |rest| - 1 ensures GapFits(format, rest[i], rest[i + 1]) {
      assert GapFits(format, fs[i + 1], fs[i + 2]);
    }
  }

  lemma {:induction false} PageWordsAt(format: nat, fs: seq<Fixup>, i: nat)
    requires Representable(format, fs) && i < |fs|
    ensures NextOf(format, fs, i) >= 0 && fs[i].offset in PageWords(format, fs)
    ensures PageWords(format, fs)[fs[i].offset] == EncodeFixup(format, fs[i], NextOf(format, fs, i))
    decreases |fs|
  {
    if i < |fs| - 1 {
      assert GapFits(format, fs[i], fs[i + 1]);
      StepsAreExact(format, fs[i], fs[i + 1]);
    }
    if i > 0 {
      TailRepresentable(format, fs);
      PageWordsAt(format, fs[1..], i - 1);
      assert fs[1..][i - 1] == fs[i] && NextOf(format, fs[1..], i - 1) == NextOf(format, fs, i);
    }
  }

  lemma PageWordsHold(format: nat, fs: seq<Fixup>)
    requires Representable(format, fs)
    ensures Holds(WordsOf(PageWords(format, fs)), format, fs)
  {
    forall i | 0 <= i < |fs|
      ensures NextOf(format, fs, i) >= 0
      ensures WordsOf(PageWords(format, fs))(fs[i].offset) == Some(EncodeFixup(format, fs[i], NextOf(format, fs, i)))
    {
      PageWordsAt(format, fs, i);
    }
  }

  /** Encode any representable slot list, walk the page: exactly its binds come back. */
  lemma PageRoundTrip(format: nat, fs: seq<Fixup>, import_: BindAt -> Result<seq<RawImport>, ParseError>)
    requires Representable(format, fs) && fs != []
    ensures var c := ChainOf(WordsOf(PageWords(format, fs)), format, import_);
            Walk(c, fs[0].offset, c.maxSteps) == ImportsOf(c, format, fs, c.maxSteps)
  {
    var word := WordsOf(PageWords(format, fs));
    PageWordsHold(format, fs);
    EncodedThreads(word, format, import_, fs);
    var c := ChainOf(word, format, import_);
    WalkInverts(c, format, fs, c.maxSteps);
  }

  // ---- Whole segments --------------------------------------------------------------------------------------

  /** Page `j` holds its slot list, from its start on; a page without slots is marked so. */
  ghost predicate PageHolds(c: Chain, format: nat, base: nat, pageSize: nat, starts: seq<nat>, pages: seq<seq<Fixup>>,
                            j: nat)
    requires j < |starts| == |pages|
  {
    if pages[j] == [] then starts[j] == START_NONE
    else
      && starts[j] != START_NONE && pages[j][0].offset == PageStart(base, pageSize, starts, j) <= U64_MAX
      && Threads(c, format, pages[j]) && Rising(pages[j])
  }

  ghost predicate SegmentHolds(c: Chain, format: nat, base: nat, pageSize: nat, starts: seq<nat>,
                               pages: seq<seq<Fixup>>) {
    |starts| == |pages| && forall j: nat :: j < |pages| ==> PageHolds(c, format, base, pageSize, starts, pages, j)
  }

  function PagesImports(c: Chain, format: nat, pages: seq<seq<Fixup>>, j: nat): (r: Imports)
    requires j <= |pages|
    decreases |pages| - j
  {
    if j == |pages| then Ok([])
    else
      var out :- ImportsOf(c, format, pages[j], c.maxSteps);
      var more :- PagesImports(c, format, pages, j + 1);
      Ok(out + more)
  }

  lemma WalkPagesOne(c: Chain, base: nat, pageSize: nat, starts: seq<nat>, j: nat)
    requires j < |starts| && starts[j] != START_NONE && PageStart(base, pageSize, starts, j) <= U64_MAX
    ensures WalkPages(c, base, pageSize, starts, j) ==
            Then(Walk(c, PageStart(base, pageSize, starts, j), c.maxSteps), WalkPages(c, base, pageSize, starts, j + 1))
  {}

  lemma PagesImportsOne(c: Chain, format: nat, pages: seq<seq<Fixup>>, j: nat)
    requires j < |pages|
    ensures PagesImports(c, format, pages, j) ==
            Then(ImportsOf(c, format, pages[j], c.maxSteps), PagesImports(c, format, pages, j + 1))
  {}

  /** The page at `j` contributes its own binds before those of the pages after it. */
  lemma PageInverts(c: Chain, format: nat, base: nat, pageSize: nat, starts: seq<nat>, pages: seq<seq<Fixup>>, j: nat)
    requires SegmentHolds(c, format, base, pageSize, starts, pages) && j < |pages|
    ensures j < |starts|
    ensures WalkPages(c, base, pageSize, starts, j) ==
            Then(ImportsOf(c, format, pages[j], c.maxSteps), WalkPages(c, base, pageSize, starts, j + 1))
  {
    assert PageHolds(c, format, base, pageSize, starts, pages, j);
    if pages[j] == [] {
      BeforeNothing(WalkPages(c, base, pageSize, starts, j + 1));
    } else {
      WalkInverts(c, format, pages[j], c.maxSteps);
      WalkPagesOne(c, base, pageSize, starts, j);
    }
  }

  /** Walking a whole segment recovers the binds of every page, in page order, up to the per-page limit. */
  lemma {:induction false} SegmentInverts(c: Chain, format: nat, base: nat, pageSize: nat, starts: seq<nat>,
                                          pages: seq<seq<Fixup>>, j: nat)
    requires SegmentHolds(c, format, base, pageSize, starts, pages) && j <= |pages|
    ensures WalkPages(c, base, pageSize, starts, j) == PagesImports(c, format, pages, j)
    decreases |pages| - j
  {
    if j < |pages| {
      SegmentInverts(c, format, base, pageSize, starts, pages, j + 1);
      PageInverts(c, format, base, pageSize, starts, pages, j);
      PagesImportsOne(c, format, pages, j);
    }
  }

  // ---- Any image ---------------------------------------------------------------------------------------------

  /** The offsets a walk visits. */
  ghost function Visited(c: Chain, offset: nat, steps: nat): (os: seq<nat>)
    decreases steps
  {
    if steps == 0 || c.entry(offset).Err? then []
    else
      var next := c.entry(offset).value.next;
      if next == 0 || offset + next > U64_MAX then [offset] else [offset] + Visited(c, offset + next, steps - 1)
  }

  ghost predicate IncreasingFrom(os: seq<nat>, from: nat) {
    && (forall i :: 0 <= i < |os| ==> os[i] >= from)
    && (forall i, j :: 0 <= i < j < |os| ==> os[i] < os[j])
  }

  lemma ConsIncreasing(x: nat, rest: seq<nat>, from: nat)
    requires IncreasingFrom(rest, from) && x < from
    ensures IncreasingFrom([x] + rest, x)
  {}

  /** On every image, well formed or not, the walked offset strictly increases, so no slot is seen twice. */
  lemma {:induction false} OffsetsIncrease(c: Chain, offset: nat, steps: nat)
    ensures IncreasingFrom(Visited(c, offset, steps), offset)
    decreases steps
  {
    if steps > 0 && c.entry(offset).Ok? {
      var next := c.entry(offset).value.next;
      if next != 0 && offset + next <= U64_MAX {
        OffsetsIncrease(c, offset + next, steps - 1);
        ConsIncreasing(offset, Visited(c, offset + next, steps - 1), offset + next);
      }
    }
  }

  /**
   * In the 64-bit formats no bind is reported authenticated, on any image: what an authenticated bind would
   * become makes no difference to the walk.
   */
  lemma {:induction false} NeverAuthenticated64(word: nat -> Option<nat>, format: nat, offset: nat, steps: nat,
                                                one: BindAt -> Result<seq<RawImport>, ParseError>,
                                                other: BindAt -> Result<seq<RawImport>, ParseError>)
    requires Is64(format) && forall b: BindAt :: !b.authenticated ==> one(b) == other(b)
    ensures Walk(ChainOf(word, format, one), offset, steps) == Walk(ChainOf(word, format, other), offset, steps)
    decreases steps
  {
    if steps > 0 && EntryAt(word, format, offset).Ok? {
      var entry := EntryAt(word, format, offset).value;
      SameVisit(word, format, offset, one, other);
      if entry.next != 0 && offset + entry.next <= U64_MAX {
        NeverAuthenticated64(word, format, offset + entry.next, steps - 1, one, other);
      }
    }
  }

  lemma SameVisit(word: nat -> Option<nat>, format: nat, offset: nat,
                  one: BindAt -> Result<seq<RawImport>, ParseError>,
                  other: BindAt -> Result<seq<RawImport>, ParseError>)
    requires Is64(format) && EntryAt(word, format, offset).Ok?
    requires forall b: BindAt :: !b.authenticated ==> one(b) == other(b)
    ensures var entry := EntryAt(word, format, offset).value;
            Visit(ChainOf(word, format, one), entry, offset) == Visit(ChainOf(word, format, other), entry, offset)
  {
    assert !EntryAt(word, format, offset).value.authenticated;
  }
}
