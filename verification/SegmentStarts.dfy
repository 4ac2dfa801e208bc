/** One segment's chained fixups as laid out: the header, the page starts behind it, and the pages they name. */
module SegmentStarts {
  import opened Wrappers
  import opened LittleEndian
  import opened BindStream
  import opened Chains
  import opened ImportsTables

  /** The fields of a segment's header that the walk uses. */
  datatype Header = Header(pageSize: nat, format: nat, base: nat, pageCount: nat)

  function Field(bytes: Bytes, at: nat, n: nat): (r: Result<nat, ChainError>) {
    match ReadWord(bytes, at, n)
    case Ok(v) => Ok(v)
    case Err(_) => Err(BadRead)
  }

  function ReadHeader(bytes: Bytes, at: nat): (r: Result<Header, ChainError>) {
    var pageSize :- Field(bytes, at + 4, 2);
    var format :- Field(bytes, at + 6, 2);
    var base :- Field(bytes, at + 8, 8);
    var pageCount :- Field(bytes, at + 20, 2);
    Ok(Header(pageSize, format, base, pageCount))
  }

  /** Pages `j` on: each start is read when its page is reached. */
  function WalkFrom(c: Chain, bytes: Bytes, at: nat, h: Header, j: nat): (r: Imports)
    decreases h.pageCount - j
  {
    if j >= h.pageCount then Ok([])
    else
      match Field(bytes, at + 22 + j * 2, 2)
      case Err(e) => Err(e)
      case Ok(start) => Then(WalkStart(c, h, j, start), WalkFrom(c, bytes, at, h, j + 1))
  }

  /** The page at `start` of page `j`; nothing for a page without fixups. */
  function WalkStart(c: Chain, h: Header, j: nat, start: nat): (r: Imports) {
    if start == START_NONE then Ok([])
    else if h.base + j * h.pageSize + start > U64_MAX then Err(OffsetOverflow)
    else Walk(c, h.base + j * h.pageSize + start, c.maxSteps)
  }

  /** The whole segment, its chain decoded by the format the header names. */
  function WalkSegment(chain: nat -> Chain, bytes: Bytes, at: nat): (r: Imports) {
    match ReadHeader(bytes, at)
    case Err(e) => Err(e)
    case Ok(h) => if h.pageSize == 0 then Err(ZeroPageSize) else WalkFrom(chain(h.format), bytes, at, h, 0)
  }

  method WalkSegmentChains(chain: nat -> Chain, bytes: Bytes, at: nat) returns (r: Imports)
    ensures r == WalkSegment(chain, bytes, at)
  {
    var header := ReadHeader(bytes, at);
    if header.Err? { return Err(header.error); }
    if header.value.pageSize == 0 { return Err(ZeroPageSize); }
    r := WalkPageStarts(chain(header.value.format), bytes, at, header.value);
  }

  method WalkPageStarts(c: Chain, bytes: Bytes, at: nat, h: Header) returns (r: Imports)
    ensures r == WalkFrom(c, bytes, at, h, 0)
  {
    var out: seq<RawImport> := [];
    ghost var whole := WalkFrom(c, bytes, at, h, 0);
    BeforeNothing(whole);
    for j := 0 to h.pageCount
      invariant Before(out, WalkFrom(c, bytes, at, h, j)) == whole
    {
      var start := Field(bytes, at + 22 + j * 2, 2);
      WalkFromOne(c, bytes, at, h, j);
      if start.Err? { return Err(start.error); }
      var page := WalkOneStart(c, h, j, start.value);
      BeforeThen(out, page, WalkFrom(c, bytes, at, h, j + 1));
      if page.Err? { return page; }
      out := out + page.value;
    }
    assert out + [] == out;
    return Ok(out);
  }

  method WalkOneStart(c: Chain, h: Header, j: nat, start: nat) returns (r: Imports)
    ensures r == WalkStart(c, h, j, start)
  {
    if start == START_NONE { return Ok([]); }
    var offset := h.base + j * h.pageSize + start;
    if offset > U64_MAX { return Err(OffsetOverflow); }
    r := WalkPage(c, offset);
  }

  lemma WalkFromOne(c: Chain, bytes: Bytes, at: nat, h: Header, j: nat)
    requires j < h.pageCount
    ensures WalkFrom(c, bytes, at, h, j) ==
            match Field(bytes, at + 22 + j * 2, 2) {
              case Err(e) => Err(e)
              case Ok(start) => Then(WalkStart(c, h, j, start), WalkFrom(c, bytes, at, h, j + 1))
            }
  {}

  lemma BeforeThen(out: seq<RawImport>, first: Imports, rest: Imports)
    ensures Before(out, Then(first, rest)) == if first.Err? then Err(first.error) else Before(out + first.value, rest)
  {
    if first.Ok? { BeforeTwice(out, first.value, rest); }
  }

  // ---- Laying a segment out ------------------------------------------------------------------------------------

  /** The page starts lie behind the header, one 16-bit word each. */
  ghost predicate StartsAt(bytes: Bytes, from: nat, starts: seq<nat>) {
    forall j: nat :: j < |starts| ==> StartAt(bytes, from, starts, j)
  }

  ghost predicate StartAt(bytes: Bytes, from: nat, starts: seq<nat>, j: nat)
    requires j < |starts|
  {
    Field(bytes, from + j * 2, 2) == Ok(starts[j])
  }

  lemma {:induction false} StartsRead(c: Chain, bytes: Bytes, at: nat, h: Header, starts: seq<nat>, j: nat)
    requires StartsAt(bytes, at + 22, starts) && h.pageCount == |starts| && j <= |starts|
    ensures WalkFrom(c, bytes, at, h, j) == WalkPages(c, h.base, h.pageSize, starts, j)
    decreases |starts| - j
  {
    if j < |starts| {
      StartsRead(c, bytes, at, h, starts, j + 1);
      assert StartAt(bytes, at + 22, starts, j);
      assert PageStart(h.base, h.pageSize, starts, j) == h.base + j * h.pageSize + starts[j];
      var rest := WalkPages(c, h.base, h.pageSize, starts, j + 1);
      if starts[j] == START_NONE {
        BeforeNothing(rest);
      } else if PageStart(h.base, h.pageSize, starts, j) <= U64_MAX {
        WalkPagesOne(c, h.base, h.pageSize, starts, j);
      }
    }
  }

  /** The header as bytes: size, page size, format, base, a limit the walk ignores, page count. */
  function EncodeHeader(h: Header, size: nat, limit: nat): (bs: Bytes) {
    LeBytes(size, 4)
    + (LeBytes(h.pageSize, 2) + (LeBytes(h.format, 2) + (LeBytes(h.base, 8)
    + (LeBytes(limit, 4) + LeBytes(h.pageCount, 2)))))
  }

  function EncodeStarts(starts: seq<nat>): (bs: Bytes) {
    if starts == [] then [] else LeBytes(starts[0], 2) + EncodeStarts(starts[1..])
  }

  lemma Split(bytes: Bytes, at: nat, n: nat, k: nat, more: Bytes)
    requires At(bytes, at, LeBytes(n, k) + more)
    ensures At(bytes, at + k, more)
    ensures n < Pow256(k) ==> Field(bytes, at, k) == Ok(n)
  {
    AtSplit(bytes, at, LeBytes(n, k), more);
    if n < Pow256(k) { WordInverts(bytes, at, n, k, more); }
  }

  lemma HeaderFields(bytes: Bytes, at: nat, h: Header, size: nat, limit: nat)
    requires At(bytes, at, EncodeHeader(h, size, limit))
    requires h.pageSize < Pow256(2) && h.format < Pow256(2) && h.base < Pow256(8) && h.pageCount < Pow256(2)
    ensures Field(bytes, at + 4, 2) == Ok(h.pageSize) && Field(bytes, at + 6, 2) == Ok(h.format)
    ensures Field(bytes, at + 8, 8) == Ok(h.base) && Field(bytes, at + 20, 2) == Ok(h.pageCount)
  {
    var afterLimit := LeBytes(h.pageCount, 2);
    var afterBase := LeBytes(limit, 4) + afterLimit;
    var afterFormat := LeBytes(h.base, 8) + afterBase;
    var afterPageSize := LeBytes(h.format, 2) + afterFormat;
    Split(bytes, at, size, 4, LeBytes(h.pageSize, 2) + afterPageSize);
    Split(bytes, at + 4, h.pageSize, 2, afterPageSize);
    Split(bytes, at + 6, h.format, 2, afterFormat);
    Split(bytes, at + 8, h.base, 8, afterBase);
    Split(bytes, at + 16, limit, 4, afterLimit);
    assert afterLimit + [] == afterLimit;
    Split(bytes, at + 20, h.pageCount, 2, []);
  }

  lemma HeaderReads(bytes: Bytes, at: nat, h: Header, size: nat, limit: nat)
    requires At(bytes, at, EncodeHeader(h, size, limit))
    requires h.pageSize < Pow256(2) && h.format < Pow256(2) && h.base < Pow256(8) && h.pageCount < Pow256(2)
    ensures ReadHeader(bytes, at) == Ok(h)
  {
    HeaderFields(bytes, at, h, size, limit);
  }

  lemma {:induction false} StartsLie(bytes: Bytes, from: nat, starts: seq<nat>)
    requires At(bytes, from, EncodeStarts(starts)) && forall s :: s in starts ==> s < Pow256(2)
    ensures StartsAt(bytes, from, starts)
    decreases |starts|
  {
    if starts != [] {
      assert starts[0] in starts && forall s :: s in starts[1..] ==> s in starts;
      Split(bytes, from, starts[0], 2, EncodeStarts(starts[1..]));
      StartsLie(bytes, from + 2, starts[1..]);
      StartsJoin(bytes, from, starts);
    }
  }

  lemma StartsJoin(bytes: Bytes, from: nat, starts: seq<nat>)
    requires starts != [] && StartAt(bytes, from, starts, 0) && StartsAt(bytes, from + 2, starts[1..])
    ensures StartsAt(bytes, from, starts)
  {
    forall j: nat | j < |starts| ensures StartAt(bytes, from, starts, j) {
      if j > 0 {
        assert StartAt(bytes, from + 2, starts[1..], j - 1);
        assert from + 2 + (j - 1) * 2 == from + j * 2;
      }
    }
  }

  /**
   * Header, starts and pages laid out in an image come back: walking the segment recovers the binds of
   * every page, in page order, up to the per-page limit.
   */
  lemma SegmentRoundTrip(
    chain: nat -> Chain, bytes: Bytes, at: nat, h: Header, size: nat, limit: nat, starts: seq<nat>,
    pages: seq<seq<Fixup>>)
    requires At(bytes, at, EncodeHeader(h, size, limit)) && At(bytes, at + 22, EncodeStarts(starts))
    requires 0 < h.pageSize < Pow256(2) && h.format < Pow256(2) && h.base < Pow256(8)
             && h.pageCount == |starts| < Pow256(2)
    requires forall s :: s in starts ==> s < Pow256(2)
    requires SegmentHolds(chain(h.format), h.format, h.base, h.pageSize, starts, pages)
    ensures WalkSegment(chain, bytes, at) == PagesImports(chain(h.format), h.format, pages, 0)
  {
    HeaderReads(bytes, at, h, size, limit);
    StartsLie(bytes, at + 22, starts);
    SegmentReads(chain, bytes, at, h, starts, pages);
  }

  lemma SegmentReads(chain: nat -> Chain, bytes: Bytes, at: nat, h: Header, starts: seq<nat>, pages: seq<seq<Fixup>>)
    requires ReadHeader(bytes, at) == Ok(h) && h.pageSize > 0 && h.pageCount == |starts|
    requires StartsAt(bytes, at + 22, starts)
    requires SegmentHolds(chain(h.format), h.format, h.base, h.pageSize, starts, pages)
    ensures WalkSegment(chain, bytes, at) == PagesImports(chain(h.format), h.format, pages, 0)
  {
    StartsRead(chain(h.format), bytes, at, h, starts, 0);
    SegmentInverts(chain(h.format), h.format, h.base, h.pageSize, starts, pages, 0);
  }
}
