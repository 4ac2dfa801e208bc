/** Mach-O bind opcodes: LEB128 operands and the bytecode interpreter that replays a bind stream. */
module BindStream {
  import opened Wrappers

  type Bytes = seq<Byte>

  const WORD: nat := 0x1_0000_0000_0000_0000
  const I64_MAX: nat := 0x7FFF_FFFF_FFFF_FFFF
  const PTR_SIZE: nat := 8
  const MAX_BIND_BYTES: nat := 0x100_0000
  const MAX_CHAIN_STEPS: nat := 0x100_0000
  const MAX_NAME_LEN: nat := 8192
  const ULEB_MAX_SHIFT: nat := 63

  datatype ParseError =
    | RunsPastEnd | ReadOutOfBounds | LebOverflow | UnterminatedName | ImplausibleSize | StreamOverflow
    | UnknownOpcode | NoSymbol | BadSegment | SlotOverflow | BadSlot | ImplausibleCount
    | OrdinalOutOfRange | UnsupportedImports | NameOutOfBlob

  /** The bytes `xs` sit at `at`. */
  ghost predicate At(bytes: Bytes, at: nat, xs: Bytes)
    decreases |xs|
  {
    at <= |bytes| && (xs != [] ==> at < |bytes| && bytes[at] == xs[0] && At(bytes, at + 1, xs[1..]))
  }

  /** Bytes that sit in the image are its slice. */
  lemma {:induction false} AtIsSlice(bytes: Bytes, at: nat, xs: Bytes)
    ensures At(bytes, at, xs) <==> at + |xs| <= |bytes| && bytes[at..at + |xs|] == xs
    decreases |xs|
  {
    if xs != [] {
      AtIsSlice(bytes, at + 1, xs[1..]);
      if at + |xs| <= |bytes| {
        assert bytes[at..at + |xs|] == [bytes[at]] + bytes[at + 1..at + |xs|];
      }
      assert xs == [xs[0]] + xs[1..];
    }
  }

  lemma {:induction false} AtSplit(bytes: Bytes, at: nat, xs: Bytes, ys: Bytes)
    requires At(bytes, at, xs + ys)
    ensures At(bytes, at, xs) && At(bytes, at + |xs|, ys)
    decreases |xs|
  {
    if xs == [] {
      assert xs + ys == ys;
    } else {
      assert (xs + ys)[1..] == xs[1..] + ys;
      AtSplit(bytes, at + 1, xs[1..], ys);
    }
  }

  // ---- LEB128 -----------------------------------------------------------------------------------

  function Pow2(n: nat): (p: nat)
    ensures p > 0
  {
    if n == 0 then 1 else 2 * Pow2(n - 1)
  }

  lemma Pow2Values()
    ensures Pow2(7) == 128 && Pow2(63) == 0x8000_0000_0000_0000 && Pow2(64) == WORD
  {
    assert Pow2(8) == 256;
    assert Pow2(16) == 0x1_0000;
    assert Pow2(24) == 0x100_0000;
    assert Pow2(32) == 0x1_0000_0000;
    assert Pow2(40) == 0x100_0000_0000;
    assert Pow2(48) == 0x1_0000_0000_0000;
    assert Pow2(56) == 0x100_0000_0000_0000;
  }

  lemma DoubleProduct(x: nat, y: nat)
    ensures 2 * (x * y) == (2 * x) * y
  {}

  lemma {:induction false} Pow2Adds(a: nat, b: nat)
    ensures Pow2(a + b) == Pow2(a) * Pow2(b)
    decreases a
  {
    if a > 0 {
      Pow2Adds(a - 1, b);
      assert Pow2(a + b) == 2 * Pow2(a + b - 1) && a + b - 1 == a - 1 + b;
      DoubleProduct(Pow2(a - 1), Pow2(b));
    }
  }

  /** Seven bits of a byte at their place in a 64-bit word; bits shifted past the top are lost. */
  function Placed(b: Byte, shift: nat): (v: nat) { ((b % 128) * Pow2(shift)) % WORD }

  /** Decode from `cursor`, with the lower groups already accumulated. */
  function Uleb(bytes: Bytes, cursor: nat, end: nat, shift: nat, acc: nat): (r: Result<(nat, nat), ParseError>)
    decreases end - cursor
  {
    if cursor >= end then Err(RunsPastEnd)
    else if cursor >= |bytes| then Err(ReadOutOfBounds)
    else if shift > ULEB_MAX_SHIFT then Err(LebOverflow)
    else
      var value := acc + Placed(bytes[cursor], shift);
      if bytes[cursor] < 128 then Ok((value, cursor + 1))
      else Uleb(bytes, cursor + 1, end, shift + 7, value)
  }

  method Uleb128(bytes: Bytes, start: nat, end: nat) returns (r: Result<(nat, nat), ParseError>)
    ensures r == Uleb(bytes, start, end, 0, 0)
  {
    var cursor, shift := start, 0;
    var result: nat := 0;
    while true
      invariant Uleb(bytes, cursor, end, shift, result) == Uleb(bytes, start, end, 0, 0)
      decreases end - cursor
    {
      if cursor >= end {
        return Err(RunsPastEnd);
      }
      if cursor >= |bytes| {
        return Err(ReadOutOfBounds);
      }
      var b := bytes[cursor];
      cursor := cursor + 1;
      if shift > ULEB_MAX_SHIFT {
        return Err(LebOverflow);
      }
      result := result + Placed(b, shift);
      shift := shift + 7;
      if b < 128 {
        return Ok((result, cursor));
      }
    }
  }

  /** The canonical unsigned encoding. */
  function EncodeUleb(v: nat): (bs: Bytes)
    ensures bs != []
  {
    if v < 128 then [v] else [v % 128 + 128] + EncodeUleb(v / 128)
  }

  /** A value is its low seven bits and the rest, at their places. */
  lemma SplitGroups(v: nat, p: nat)
    ensures v * p == (v / 128) * (128 * p) + (v % 128) * p
    ensures (v % 128) * p <= v * p && (v / 128) * (128 * p) <= v * p
  {
    var low, high := v % 128, v / 128;
    assert v * p == (128 * high + low) * p == 128 * high * p + low * p;
    assert 128 * high * p == high * (128 * p);
  }

  /** The first byte of an encoding: its low group, and a flag when more follow. */
  lemma UlebHead(bytes: Bytes, cursor: nat, v: nat)
    requires At(bytes, cursor, EncodeUleb(v))
    ensures cursor < |bytes| && bytes[cursor] == (if v < 128 then v else v % 128 + 128)
    ensures v >= 128 ==> At(bytes, cursor + 1, EncodeUleb(v / 128))
  {
    var enc := EncodeUleb(v);
    assert enc == [enc[0]] + enc[1..];
    AtSplit(bytes, cursor, [enc[0]], enc[1..]);
    assert bytes[cursor] == enc[0];
  }

  /** One group decoded: its bits are at their place, and none are lost. */
  lemma UlebGroup(bytes: Bytes, cursor: nat, end: nat, shift: nat, acc: nat, v: nat)
    requires cursor < end && cursor < |bytes| && bytes[cursor] == (if v < 128 then v else v % 128 + 128)
    requires v * Pow2(shift) < WORD && shift <= ULEB_MAX_SHIFT
    ensures Uleb(bytes, cursor, end, shift, acc) ==
            if v < 128 then Ok((acc + v * Pow2(shift), cursor + 1))
            else Uleb(bytes, cursor + 1, end, shift + 7, acc + v % 128 * Pow2(shift))
  {
    SplitGroups(v, Pow2(shift));
    assert Placed(bytes[cursor], shift) == v % 128 * Pow2(shift);
  }

  /** What is left after one group fits at its own place. */
  lemma RestFits(v: nat, shift: nat)
    requires v >= 128 && v * Pow2(shift) < WORD
    ensures shift + 7 <= ULEB_MAX_SHIFT && v / 128 * Pow2(shift + 7) < WORD
    ensures v % 128 * Pow2(shift) + v / 128 * Pow2(shift + 7) == v * Pow2(shift)
  {
    SplitGroups(v, Pow2(shift));
    Pow2Values();
    Pow2Adds(7, shift);
    NextShiftFits(v / 128, shift);
  }

  lemma {:induction false} UlebInverts(bytes: Bytes, cursor: nat, end: nat, shift: nat, acc: nat, v: nat)
    requires At(bytes, cursor, EncodeUleb(v)) && cursor + |EncodeUleb(v)| <= end
    requires v * Pow2(shift) < WORD && shift <= ULEB_MAX_SHIFT
    ensures Uleb(bytes, cursor, end, shift, acc) == Ok((acc + v * Pow2(shift), cursor + |EncodeUleb(v)|))
    decreases v
  {
    UlebHead(bytes, cursor, v);
    UlebGroup(bytes, cursor, end, shift, acc, v);
    if v >= 128 {
      RestFits(v, shift);
      UlebInverts(bytes, cursor + 1, end, shift + 7, acc + v % 128 * Pow2(shift), v / 128);
    }
  }

  lemma Pow2Big(n: nat)
    ensures n >= 64 ==> Pow2(n) >= WORD
  {
    Pow2Values();
    if n >= 64 {
      Pow2Adds(64, n - 64);
      assert WORD * Pow2(n - 64) >= WORD;
    }
  }

  lemma AtLeastOnce(n: nat, p: nat)
    ensures n > 0 ==> n * p >= p
  {}

  lemma NextShiftFits(high: nat, shift: nat)
    requires high > 0 && high * (128 * Pow2(shift)) < WORD
    ensures shift + 7 <= ULEB_MAX_SHIFT
  {
    var p := 128 * Pow2(shift);
    assert Pow2(shift + 7) == p by { Pow2Values(); Pow2Adds(7, shift); }
    AtLeastOnce(high, p);
    Pow2Big(shift + 7);
  }

  /** Decoding inverts encoding for every 64-bit value, and stops at the byte after it. */
  lemma UlebRoundTrip(bytes: Bytes, start: nat, end: nat, v: nat)
    requires v < WORD && At(bytes, start, EncodeUleb(v)) && start + |EncodeUleb(v)| <= end
    ensures Uleb(bytes, start, end, 0, 0) == Ok((v, start + |EncodeUleb(v)|))
  {
    UlebInverts(bytes, start, end, 0, 0, v);
  }

  /** What the signed decoder consumes; its value is not used by the replay. */
  function SlebEnd(bytes: Bytes, cursor: nat, end: nat, shift: nat): (r: Result<nat, ParseError>)
    decreases end - cursor
  {
    if cursor >= end then Err(RunsPastEnd)
    else if cursor >= |bytes| then Err(ReadOutOfBounds)
    else if shift > ULEB_MAX_SHIFT then Err(LebOverflow)
    else if bytes[cursor] < 128 then Ok(cursor + 1)
    else SlebEnd(bytes, cursor + 1, end, shift + 7)
  }

  method SkipSleb128(bytes: Bytes, start: nat, end: nat) returns (r: Result<nat, ParseError>)
    ensures r == SlebEnd(bytes, start, end, 0)
  {
    var cursor, shift := start, 0;
    while true
      invariant SlebEnd(bytes, cursor, end, shift) == SlebEnd(bytes, start, end, 0)
      decreases end - cursor
    {
      if cursor >= end {
        return Err(RunsPastEnd);
      }
      if cursor >= |bytes| {
        return Err(ReadOutOfBounds);
      }
      var b := bytes[cursor];
      cursor := cursor + 1;
      if shift > ULEB_MAX_SHIFT {
        return Err(LebOverflow);
      }
      shift := shift + 7;
      if b < 128 {
        return Ok(cursor);
      }
    }
  }

  /** Any LEB128 of at most ten groups: continuation bits on all bytes but the last. */
  predicate IsLeb(raw: Bytes) {
    0 < |raw| <= 10 && raw[|raw| - 1] < 128 && forall i :: 0 <= i < |raw| - 1 ==> raw[i] >= 128
  }

  lemma {:induction false} SlebConsumes(bytes: Bytes, cursor: nat, end: nat, shift: nat, raw: Bytes)
    requires IsLeb(raw) && At(bytes, cursor, raw) && cursor + |raw| <= end
    requires shift + 7 * (|raw| - 1) <= ULEB_MAX_SHIFT
    ensures SlebEnd(bytes, cursor, end, shift) == Ok(cursor + |raw|)
    decreases |raw|
  {
    assert raw == [raw[0]] + raw[1..];
    AtSplit(bytes, cursor, [raw[0]], raw[1..]);
    assert bytes[cursor] == raw[0];
    if |raw| > 1 {
      SlebConsumes(bytes, cursor + 1, end, shift + 7, raw[1..]);
    }
  }

  // ---- Names -------------------------------------------------------------------------------------

  const UNDERSCORE: Byte := 95
  const DOLLAR: Byte := 36

  /** `_tlv_bootstrap`, the thread-local bootstrap in match-key form. */
  const TLV_BOOTSTRAP: Bytes := [95, 116, 108, 118, 95, 98, 111, 111, 116, 115, 116, 114, 97, 112]

  /** Compared byte by byte. */
  predicate IsTlvBootstrap(name: Bytes) {
    && |name| == 14 && name[0] == 95 && name[1] == 116 && name[2] == 108 && name[3] == 118 && name[4] == 95
    && name[5] == 98 && name[6] == 111 && name[7] == 111 && name[8] == 116 && name[9] == 115 && name[10] == 116
    && name[11] == 114 && name[12] == 97 && name[13] == 112
  }

  function BeforeDollar(s: Bytes): (r: Bytes)
    ensures r <= s && DOLLAR !in r && (|r| < |s| ==> s[|r|] == DOLLAR)
  {
    if s == [] || s[0] == DOLLAR then []
    else
      var r := [s[0]] + BeforeDollar(s[1..]);
      assert s == [s[0]] + s[1..];
      r
  }

  /** Strip one leading underscore, drop a `$` variant; nothing left is no name. */
  function NormalizeSymbol(raw: Bytes): (r: Option<Bytes>) {
    var base := BeforeDollar(if raw != [] && raw[0] == UNDERSCORE then raw[1..] else raw);
    if base == [] then None else Some(base)
  }

  /** A raw name normalizes to `name`, itself underscored, exactly when it is `_name`, bare or with a `$` variant. */
  lemma NormalizesTo(raw: Bytes, name: Bytes)
    requires name != [] && name[0] == UNDERSCORE && DOLLAR !in name
    ensures NormalizeSymbol(raw) == Some(name) <==>
            var full := [UNDERSCORE] + name; full <= raw && (raw == full || raw[|full|] == DOLLAR)
  {
    var full := [UNDERSCORE] + name;
    if NormalizeSymbol(raw) == Some(name) {
      var stripped := if raw != [] && raw[0] == UNDERSCORE then raw[1..] else raw;
      assert name <= stripped && stripped[0] == UNDERSCORE;
      assert raw == [UNDERSCORE] + stripped;
      assert raw[..|full|] == full;
      assert |raw| > |full| ==> raw[|full|] == stripped[|name|];
    }
    if full <= raw && (raw == full || raw[|full|] == DOLLAR) {
      var rest := raw[1..];
      assert raw[..|full|] == full;
      assert rest[..|name|] == name;
      BeforeDollarIs(rest, |name|);
    }
  }

  /** Which raw names are taken for the TLS bootstrap: `__tlv_bootstrap`, bare or with a `$` variant. */
  lemma BootstrapNames(raw: Bytes)
    ensures NormalizeSymbol(raw).Some? && IsTlvBootstrap(NormalizeSymbol(raw).value) <==>
            var full := [UNDERSCORE] + TLV_BOOTSTRAP;
            full <= raw && (raw == full || raw[|full|] == DOLLAR)
  {
    NormalizesTo(raw, TLV_BOOTSTRAP);
    assert forall name: Bytes :: IsTlvBootstrap(name) <==> name == TLV_BOOTSTRAP;
  }

  lemma BeforeDollarIs(s: Bytes, n: nat)
    requires n <= |s| && DOLLAR !in s[..n] && (n < |s| ==> s[n] == DOLLAR)
    ensures BeforeDollar(s) == s[..n]
  {
    var m := |BeforeDollar(s)|;
    assert forall i :: 0 <= i < n ==> s[i] == s[..n][i];
    assert forall i :: 0 <= i < m ==> s[i] == BeforeDollar(s)[i];
  }

  /** Index of the NUL that ends the string at `off`, within the name cap. */
  function NameLength(bytes: Bytes, off: nat, i: nat): (r: Result<nat, ParseError>)
    requires i <= MAX_NAME_LEN + 1
    decreases |bytes| - off - i
  {
    if i > MAX_NAME_LEN then Err(UnterminatedName)
    else if off + i >= |bytes| then Err(ReadOutOfBounds)
    else if bytes[off + i] == 0 then Ok(i)
    else NameLength(bytes, off, i + 1)
  }

  lemma {:induction false} NameLengthEnds(bytes: Bytes, off: nat, i: nat)
    requires i <= MAX_NAME_LEN + 1
    ensures NameLength(bytes, off, i).Ok? ==>
              i <= NameLength(bytes, off, i).value <= MAX_NAME_LEN && off + NameLength(bytes, off, i).value < |bytes|
    decreases |bytes| - off - i
  {
    if i <= MAX_NAME_LEN && off + i < |bytes| && bytes[off + i] != 0 { NameLengthEnds(bytes, off, i + 1); }
  }

  /** The name's bytes and how many there were. */
  function ReadName(bytes: Bytes, off: nat): (r: Result<Bytes, ParseError>) {
    NameLengthEnds(bytes, off, 0);
    match NameLength(bytes, off, 0)
    case Ok(n) => Ok(bytes[off..off + n])
    case Err(e) => Err(e)
  }

  method ReadCstr(bytes: Bytes, off: nat) returns (r: Result<Bytes, ParseError>)
    ensures r == ReadName(bytes, off)
  {
    var name := [];
    for i := 0 to MAX_NAME_LEN + 1
      invariant NameLength(bytes, off, i) == NameLength(bytes, off, 0)
      invariant i == 0 || off + i <= |bytes|
      invariant |name| == i && (i > 0 ==> name == bytes[off..off + i])
    {
      if off + i >= |bytes| {
        return Err(ReadOutOfBounds);
      }
      if bytes[off + i] == 0 {
        return Ok(name);
      }
      name := name + [bytes[off + i]];
    }
    return Err(UnterminatedName);
  }

  predicate IsCName(name: Bytes) { |name| <= MAX_NAME_LEN && 0 !in name }

  lemma {:induction false} NameLengthIs(bytes: Bytes, off: nat, i: nat, n: nat)
    requires i <= n <= MAX_NAME_LEN && off + n < |bytes| && bytes[off + n] == 0
    requires forall k :: off + i <= k < off + n ==> bytes[k] != 0
    ensures NameLength(bytes, off, i) == Ok(n)
    decreases n - i
  {
    if i < n { NameLengthIs(bytes, off, i + 1, n); }
  }

  lemma ReadNameInverts(bytes: Bytes, off: nat, name: Bytes)
    requires IsCName(name) && At(bytes, off, name + [0])
    ensures ReadName(bytes, off) == Ok(name)
  {
    AtSplit(bytes, off, name, [0]);
    AtIsSlice(bytes, off, name);
    assert forall k :: off <= k < off + |name| ==> bytes[k] == bytes[off..off + |name|][k - off];
    NameLengthIs(bytes, off, 0, |name|);
  }

  // ---- The bind machine -----------------------------------------------------------------------------

  datatype RawImport = RawImport(library: Bytes, name: Bytes, slot: nat, authenticated: bool)

  /** What replaying needs of the image: segment file offsets, dylib names, slot translation. */
  datatype Image = Image(segments: seq<nat>, dylibs: seq<Bytes>, slotAddress: nat -> Option<nat>)

  datatype BindState = BindState(segment: nat, offset: nat, ordinal: int, symbol: Option<Bytes>)

  const START: BindState := BindState(0, 0, 0, None)

  function LibraryOf(ordinal: int, dylibs: seq<Bytes>): (r: Bytes) {
    if 1 <= ordinal <= |dylibs| then dylibs[ordinal - 1] else []
  }

  /** One bind: an import, nothing for the TLS bootstrap, or an error. */
  function Emit(image: Image, st: BindState): (r: Result<seq<RawImport>, ParseError>) {
    if st.symbol.None? then Err(NoSymbol)
    else if IsTlvBootstrap(st.symbol.value) then Ok([])
    else if st.segment >= |image.segments| then Err(BadSegment)
    else
      var at := image.segments[st.segment] + st.offset;
      if at > U64_MAX then Err(SlotOverflow)
      else match image.slotAddress(at)
        case None => Err(BadSlot)
        case Some(slot) => Ok([RawImport(LibraryOf(st.ordinal, image.dylibs), st.symbol.value, slot, false)])
  }

  function Advance(st: BindState, step: nat): (r: BindState) { st.(offset := (st.offset + step) % WORD) }

  datatype Instr =
    | Done | SetType(imm: nat) | OrdinalImm(imm: nat) | OrdinalUleb(v: nat) | SpecialImm(imm: nat)
    | SetSymbol(imm: nat, name: Bytes) | SetAddend(raw: Bytes) | SetSegment(imm: nat, v: nat) | AddAddr(v: nat)
    | DoBind | DoBindAddAddr(v: nat) | DoBindScaled(imm: nat) | DoBindTimes(count: nat, skip: nat)

  type Outcome = Result<(BindState, seq<RawImport>), ParseError>

  /** Bind, then move on. */
  function BindThen(image: Image, st: BindState, step: nat): (r: Outcome) {
    var out :- Emit(image, st);
    Ok((Advance(st, step), out))
  }

  function Repeat(image: Image, st: BindState, count: nat, skip: nat): (r: Outcome)
    decreases count
  {
    if count == 0 then Ok((st, []))
    else
      var (next, out) :- BindThen(image, st, skip + PTR_SIZE);
      var (last, more) :- Repeat(image, next, count - 1, skip);
      Ok((last, out + more))
  }

  /** What each instruction does. */
  function Exec(image: Image, i: Instr, st: BindState): (r: Outcome) {
    match i
    case Done => Ok((st, []))
    case SetType(_) => Ok((st, []))
    case OrdinalImm(imm) => Ok((st.(ordinal := imm), []))
    case OrdinalUleb(v) => Ok((st.(ordinal := Min(v, I64_MAX)), []))
    case SpecialImm(imm) => Ok((st.(ordinal := if imm == 0 then 0 else imm - 16), []))
    case SetSymbol(_, name) => Ok((st.(symbol := NormalizeSymbol(name)), []))
    case SetAddend(_) => Ok((st, []))
    case SetSegment(imm, v) => Ok((st.(segment := imm, offset := v), []))
    case AddAddr(v) => Ok((Advance(st, v), []))
    case DoBind => BindThen(image, st, PTR_SIZE)
    case DoBindAddAddr(v) => BindThen(image, st, v + PTR_SIZE)
    case DoBindScaled(imm) => BindThen(image, st, imm * PTR_SIZE + PTR_SIZE)
    case DoBindTimes(count, skip) =>
      if count > MAX_CHAIN_STEPS then Err(ImplausibleCount) else Repeat(image, st, count, skip)
  }

  function ExecAll(image: Image, code: seq<Instr>, st: BindState): (r: Result<seq<RawImport>, ParseError>)
    decreases |code|
  {
    if code == [] then Ok([])
    else
      var (next, out) :- Exec(image, code[0], st);
      var more :- ExecAll(image, code[1..], next);
      Ok(out + more)
  }

  // ---- Decoding ------------------------------------------------------------------------------------------

  /** The instruction at `cursor` and the cursor after it. Bind opcodes with operands decode after binding. */
  function Decode(bytes: Bytes, cursor: nat, end: nat): (r: Result<(Instr, nat), ParseError>)
    requires cursor < |bytes|
  {
    var opcode, imm, at := bytes[cursor] / 16, bytes[cursor] % 16, cursor + 1;
    match opcode
    case 0 => Ok((Done, at))
    case 1 => Ok((OrdinalImm(imm), at))
    case 2 => var (v, next) :- Uleb(bytes, at, end, 0, 0); Ok((OrdinalUleb(v), next))
    case 3 => Ok((SpecialImm(imm), at))
    case 4 => var name :- ReadName(bytes, at); Ok((SetSymbol(imm, name), at + |name| + 1))
    case 5 => Ok((SetType(imm), at))
    case 6 => var next :- SlebEnd(bytes, at, end, 0); Ok((SetAddend([]), next))
    case 7 => var (v, next) :- Uleb(bytes, at, end, 0, 0); Ok((SetSegment(imm, v), next))
    case 8 => var (v, next) :- Uleb(bytes, at, end, 0, 0); Ok((AddAddr(v), next))
    case 9 => Ok((DoBind, at))
    case 10 => var (v, next) :- Uleb(bytes, at, end, 0, 0); Ok((DoBindAddAddr(v), next))
    case 11 => Ok((DoBindScaled(imm), at))
    case 12 =>
      var (count, next) :- Uleb(bytes, at, end, 0, 0);
      var (skip, last) :- Uleb(bytes, next, end, 0, 0);
      Ok((DoBindTimes(count, skip), last))
    case _ => Err(UnknownOpcode)
  }

  lemma {:induction false} UlebAdvances(bytes: Bytes, cursor: nat, end: nat, shift: nat, acc: nat)
    ensures Uleb(bytes, cursor, end, shift, acc).Ok? ==> cursor < Uleb(bytes, cursor, end, shift, acc).value.1
    decreases end - cursor
  {
    if cursor < end && cursor < |bytes| && shift <= ULEB_MAX_SHIFT && bytes[cursor] >= 128 {
      UlebAdvances(bytes, cursor + 1, end, shift + 7, acc + Placed(bytes[cursor], shift));
    }
  }

  lemma {:induction false} SlebAdvances(bytes: Bytes, cursor: nat, end: nat, shift: nat)
    ensures SlebEnd(bytes, cursor, end, shift).Ok? ==> cursor < SlebEnd(bytes, cursor, end, shift).value
    decreases end - cursor
  {
    if cursor < end && cursor < |bytes| && bytes[cursor] >= 128 { SlebAdvances(bytes, cursor + 1, end, shift + 7); }
  }

  lemma DecodeAdvances(bytes: Bytes, cursor: nat, end: nat)
    requires cursor < |bytes|
    ensures Decode(bytes, cursor, end).Ok? ==> cursor < Decode(bytes, cursor, end).value.1
  {
    UlebAdvances(bytes, cursor + 1, end, 0, 0);
    SlebAdvances(bytes, cursor + 1, end, 0);
    if Uleb(bytes, cursor + 1, end, 0, 0).Ok? {
      UlebAdvances(bytes, Uleb(bytes, cursor + 1, end, 0, 0).value.1, end, 0, 0);
    }
  }

  /**
   * One round of the loop: the state, cursor and imports after it. A bind-and-add opcode binds before it
   * reads its operand, so a failing bind is reported first.
   */
  function ReplayOne(image: Image, bytes: Bytes, cursor: nat, end: nat, st: BindState)
    : (r: Result<(BindState, nat, seq<RawImport>), ParseError>)
  {
    if cursor >= |bytes| then Err(ReadOutOfBounds)
    else if bytes[cursor] / 16 == 10 && Emit(image, st).Err? then Err(Emit(image, st).error)
    else
      var (i, next) :- Decode(bytes, cursor, end);
      var (after, out) :- Exec(image, i, st);
      Ok((after, next, out))
  }

  lemma RoundAdvances(image: Image, bytes: Bytes, cursor: nat, end: nat, st: BindState)
    ensures ReplayOne(image, bytes, cursor, end, st).Ok? ==> cursor < ReplayOne(image, bytes, cursor, end, st).value.1
  {
    if cursor < |bytes| { DecodeAdvances(bytes, cursor, end); }
  }

  /** Replaying from `cursor` to the end of the stream. */
  function Replay(image: Image, bytes: Bytes, cursor: nat, end: nat, st: BindState)
      : (r: Result<seq<RawImport>, ParseError>)
    decreases end - cursor
  {
    if cursor >= end then Ok([])
    else
      RoundAdvances(image, bytes, cursor, end, st);
      var (after, next, out) :- ReplayOne(image, bytes, cursor, end, st);
      var more :- Replay(image, bytes, next, end, after);
      Ok(out + more)
  }

  /** One round of the replay. */
  lemma ReplayStep(image: Image, bytes: Bytes, cursor: nat, end: nat, st: BindState)
    requires cursor < end
    ensures Replay(image, bytes, cursor, end, st) ==
            match ReplayOne(image, bytes, cursor, end, st) {
              case Err(e) => Err(e)
              case Ok(one) => Prepend(one.2, Replay(image, bytes, one.1, end, one.0))
            }
  {}

  lemma ExecAllStep(image: Image, code: seq<Instr>, st: BindState)
    requires code != []
    ensures ExecAll(image, code, st) ==
            match Exec(image, code[0], st) {
              case Err(e) => Err(e)
              case Ok(one) => Prepend(one.1, ExecAll(image, code[1..], one.0))
            }
  {}

  function ParseBindStream(image: Image, bytes: Bytes, off: nat, size: nat): (r: Result<seq<RawImport>, ParseError>) {
    if size > MAX_BIND_BYTES then Err(ImplausibleSize)
    else if off + size > U64_MAX then Err(StreamOverflow)
    else Replay(image, bytes, off, off + size, START)
  }

  // ---- The interpreter loop -----------------------------------------------------------------------------

  function Prepend(out: seq<RawImport>, r: Result<seq<RawImport>, ParseError>)
      : (p: Result<seq<RawImport>, ParseError>) {
    match r
    case Ok(more) => Ok(out + more)
    case Err(e) => Err(e)
  }

  function PrependTo(out: seq<RawImport>, r: Outcome): (p: Outcome) {
    match r
    case Ok((last, more)) => Ok((last, out + more))
    case Err(e) => Err(e)
  }

  /** A round of the repeat loop. */
  lemma RepeatOne(image: Image, cur: BindState, out: seq<RawImport>, left: nat, skip: nat)
    requires left > 0
    ensures PrependTo(out, Repeat(image, cur, left, skip)) ==
            match Emit(image, cur) {
              case Err(e) => Err(e)
              case Ok(emitted) =>
                PrependTo(out + emitted, Repeat(image, Advance(cur, skip + PTR_SIZE), left - 1, skip))
            }
  {
    var rest := Repeat(image, Advance(cur, skip + PTR_SIZE), left - 1, skip);
    if Emit(image, cur).Ok? && rest.Ok? {
      assert out + (Emit(image, cur).value + rest.value.1) == (out + Emit(image, cur).value) + rest.value.1;
    }
  }

  /** The repeat loop of TIMES_SKIPPING. */
  method RepeatBind(image: Image, st: BindState, count: nat, skip: nat) returns (r: Outcome)
    ensures r == Repeat(image, st, count, skip)
  {
    var cur, out := st, [];
    ghost var whole := Repeat(image, st, count, skip);
    if whole.Ok? { assert [] + whole.value.1 == whole.value.1; }
    for i := 0 to count
      invariant PrependTo(out, Repeat(image, cur, count - i, skip)) == whole
    {
      RepeatOne(image, cur, out, count - i, skip);
      var emitted := Emit(image, cur);
      if emitted.Err? {
        return Err(emitted.error);
      }
      out := out + emitted.value;
      cur := Advance(cur, skip + PTR_SIZE);
    }
    assert out + [] == out;
    return Ok((cur, out));
  }

  /** The match on one opcode. */
  method Round(image: Image, bytes: Bytes, start: nat, end: nat, before: BindState)
    returns (r: Result<(BindState, nat, seq<RawImport>), ParseError>)
    ensures r == ReplayOne(image, bytes, start, end, before)
  {
    if start >= |bytes| {
      return Err(ReadOutOfBounds);
    }
    var opcode := bytes[start] / 16;
    if opcode == 2 || opcode == 7 || opcode == 8 {
      r := OperandRound(image, bytes, start, end, before);
    } else if 9 <= opcode <= 12 {
      r := BindRound(image, bytes, start, end, before);
    } else if opcode == 4 {
      r := NameRound(image, bytes, start, end, before);
    } else if opcode == 6 {
      r := AddendRound(image, bytes, start, end, before);
    } else {
      r := ImmediateRound(image, bytes, start, end, before);
    }
  }

  /** The opcodes without an operand that do not bind, and the unknown ones. */
  method ImmediateRound(image: Image, bytes: Bytes, start: nat, end: nat, st: BindState)
    returns (r: Result<(BindState, nat, seq<RawImport>), ParseError>)
    requires start < |bytes| && bytes[start] / 16 !in {2, 4, 6, 7, 8, 9, 10, 11, 12}
    ensures r == ReplayOne(image, bytes, start, end, st)
  {
    var opcode, imm, cursor := bytes[start] / 16, bytes[start] % 16, start + 1;
    match opcode {
      case 0 => return Ok((st, cursor, []));
      case 1 => return Ok((st.(ordinal := imm), cursor, []));
      case 3 => return Ok((st.(ordinal := if imm == 0 then 0 else imm - 16), cursor, []));
      case 5 => return Ok((st, cursor, []));
      case _ => return Err(UnknownOpcode);
    }
  }

  lemma NameReplay(image: Image, bytes: Bytes, start: nat, end: nat, st: BindState)
    requires start < |bytes| && bytes[start] / 16 == 4
    ensures ReplayOne(image, bytes, start, end, st) ==
            match ReadName(bytes, start + 1) {
              case Err(e) => Err(e)
              case Ok(name) => Ok((st.(symbol := NormalizeSymbol(name)), start + 1 + |name| + 1, []))
            }
  {}

  method NameRound(image: Image, bytes: Bytes, start: nat, end: nat, st: BindState)
    returns (r: Result<(BindState, nat, seq<RawImport>), ParseError>)
    requires start < |bytes| && bytes[start] / 16 == 4
    ensures r == ReplayOne(image, bytes, start, end, st)
  {
    NameReplay(image, bytes, start, end, st);
    var cursor := start + 1;
    var name := ReadCstr(bytes, cursor);
    if name.Err? { return Err(name.error); }
    return Ok((st.(symbol := NormalizeSymbol(name.value)), cursor + |name.value| + 1, []));
  }

  method AddendRound(image: Image, bytes: Bytes, start: nat, end: nat, st: BindState)
    returns (r: Result<(BindState, nat, seq<RawImport>), ParseError>)
    requires start < |bytes| && bytes[start] / 16 == 6
    ensures r == ReplayOne(image, bytes, start, end, st)
  {
    var next := SkipSleb128(bytes, start + 1, end);
    if next.Err? { return Err(next.error); }
    return Ok((st, next.value, []));
  }

  /** The opcodes with one operand that do not bind. */
  method OperandRound(image: Image, bytes: Bytes, start: nat, end: nat, st: BindState)
    returns (r: Result<(BindState, nat, seq<RawImport>), ParseError>)
    requires start < |bytes| && bytes[start] / 16 in {2, 7, 8}
    ensures r == ReplayOne(image, bytes, start, end, st)
  {
    var opcode, imm, cursor := bytes[start] / 16, bytes[start] % 16, start + 1;
    var operand := Uleb128(bytes, cursor, end);
    if operand.Err? { return Err(operand.error); }
    var (value, next) := operand.value;
    match opcode {
      case 2 => return Ok((st.(ordinal := Min(value, I64_MAX)), next, []));
      case 7 => return Ok((st.(segment := imm, offset := value), next, []));
      case 8 => return Ok((Advance(st, value), next, []));
    }
  }

  /** The opcodes that bind. */
  method BindRound(image: Image, bytes: Bytes, start: nat, end: nat, st: BindState)
    returns (r: Result<(BindState, nat, seq<RawImport>), ParseError>)
    requires start < |bytes| && 9 <= bytes[start] / 16 <= 12
    ensures r == ReplayOne(image, bytes, start, end, st)
  {
    var opcode, imm, cursor := bytes[start] / 16, bytes[start] % 16, start + 1;
    match opcode {
      case 9 =>
        var bound := Emit(image, st);
        if bound.Err? { return Err(bound.error); }
        return Ok((Advance(st, PTR_SIZE), cursor, bound.value));
      case 10 =>
        var bound := Emit(image, st);
        if bound.Err? { return Err(bound.error); }
        var operand := Uleb128(bytes, cursor, end);
        if operand.Err? { return Err(operand.error); }
        return Ok((Advance(st, operand.value.0 + PTR_SIZE), operand.value.1, bound.value));
      case 11 =>
        var bound := Emit(image, st);
        if bound.Err? { return Err(bound.error); }
        return Ok((Advance(st, imm * PTR_SIZE + PTR_SIZE), cursor, bound.value));
      case 12 =>
        var first := Uleb128(bytes, cursor, end);
        if first.Err? { return Err(first.error); }
        var second := Uleb128(bytes, first.value.1, end);
        if second.Err? { return Err(second.error); }
        if first.value.0 > MAX_CHAIN_STEPS { return Err(ImplausibleCount); }
        var repeated := RepeatBind(image, st, first.value.0, second.value.0);
        if repeated.Err? { return Err(repeated.error); }
        return Ok((repeated.value.0, second.value.1, repeated.value.1));
    }
  }

  /** The opcode loop computes the replay of the stream. */
  method ParseBind(image: Image, bytes: Bytes, off: nat, size: nat) returns (r: Result<seq<RawImport>, ParseError>)
    ensures r == ParseBindStream(image, bytes, off, size)
  {
    if size > MAX_BIND_BYTES {
      return Err(ImplausibleSize);
    }
    if off + size > U64_MAX {
      return Err(StreamOverflow);
    }
    var end := off + size;
    var cursor, st, out := off, START, [];
    ghost var whole := Replay(image, bytes, off, end, START);
    if whole.Ok? { assert [] + whole.value == whole.value; }
    while cursor < end
      invariant off <= cursor
      invariant Prepend(out, Replay(image, bytes, cursor, end, st)) == whole
      decreases end - cursor
    {
      var round := Round(image, bytes, cursor, end, st);
      if round.Err? {
        return Err(round.error);
      }
      RoundAdvances(image, bytes, cursor, end, st);
      var (after, next, emitted) := round.value;
      PrependTwice(out, emitted, Replay(image, bytes, next, end, after));
      st, cursor, out := after, next, out + emitted;
    }
    assert out + [] == out;
    return Ok(out);
  }

  lemma PrependTwice(a: seq<RawImport>, b: seq<RawImport>, r: Result<seq<RawImport>, ParseError>)
    ensures Prepend(a + b, r) == Prepend(a, Prepend(b, r))
  {
    if r.Ok? { assert (a + b) + r.value == a + (b + r.value); }
  }
}
