/** Patching import slots transactionally: page protections, swaps, rollback, compare-exchange restore. */
module Slots {
  import opened Wrappers

  type Address = nat
  type Memory = map<Address, nat>

  const PTR_SIZE: nat := 8

  datatype Protection = Protection(read: bool, write: bool, exec: bool) {
    predicate Mapped() { read || write || exec }
    function Opened(): (p: Protection) { if write then this else Protection(true, true, exec) }
  }

  datatype Patch = Patch(slot: Address, value: nat)

  datatype Error =
    | CannotOpen                       // a page could not be made writable
    | CannotClose(reopened: bool)      // a protection could not be restored; whether the rollback ran
    | RestoreConflict(slot: Address)

  // ---- Memory-level meaning ----------------------------------------------------------------

  ghost predicate DistinctSlots(patches: seq<Patch>) { Distinct(Targets(patches)) }

  function Patched(mem: Memory, patches: seq<Patch>): (r: Memory)
    decreases |patches|
  {
    if patches == [] then mem
    else
      var last := patches[|patches| - 1];
      Patched(mem, patches[..|patches| - 1])[last.slot := last.value]
  }

  /** Distinct patches land independently. */
  lemma {:induction false} PatchedAt(mem: Memory, patches: seq<Patch>, a: Address)
    requires DistinctSlots(patches)
    ensures forall i :: 0 <= i < |patches| && patches[i].slot == a ==>
              a in Patched(mem, patches) && Patched(mem, patches)[a] == patches[i].value
    ensures (forall i :: 0 <= i < |patches| ==> patches[i].slot != a) ==>
              (a in Patched(mem, patches) <==> a in mem) && (a in mem ==> Patched(mem, patches)[a] == mem[a])
    decreases |patches|
  {
    if patches != [] {
      PatchedAt(mem, patches[..|patches| - 1], a);
    }
  }

  function Targets(patches: seq<Patch>): (slots: seq<Address>)
    ensures |slots| == |patches| && forall i :: 0 <= i < |slots| ==> slots[i] == patches[i].slot
  {
    seq(|patches|, i requires 0 <= i < |patches| => patches[i].slot)
  }

  /** The patches that put the prior values back, in the order the rollback writes them. */
  function Undo(patches: seq<Patch>, priors: seq<nat>): (r: seq<Patch>)
    requires |patches| == |priors|
    ensures |r| == |patches|
  {
    seq(|patches|, i requires 0 <= i < |patches| => Patch(patches[i].slot, priors[i]))
  }

  /** What each swap of the list returns: the slot's value just before its own write. */
  function Displaced(mem: Memory, patches: seq<Patch>): (priors: seq<nat>)
    requires forall i :: 0 <= i < |patches| ==> patches[i].slot in mem
    ensures |priors| == |patches|
  {
    seq(|patches|, i requires 0 <= i < |patches| => ValueBefore(mem, patches, i))
  }

  function ValueBefore(mem: Memory, patches: seq<Patch>, i: nat): (v: nat)
    requires i < |patches| && forall k :: 0 <= k < |patches| ==> patches[k].slot in mem
  {
    PatchedKeys(mem, patches[..i]);
    Patched(mem, patches[..i])[patches[i].slot]
  }

  lemma {:induction false} PatchedKeys(mem: Memory, patches: seq<Patch>)
    requires forall i :: 0 <= i < |patches| ==> patches[i].slot in mem
    ensures Patched(mem, patches).Keys == mem.Keys
    decreases |patches|
  {
    if patches != [] { PatchedKeys(mem, patches[..|patches| - 1]); }
  }

  /** Memory after the swaps and then the rollback, which replays in the order of the swaps. */
  function RolledBack(mem: Memory, patches: seq<Patch>): (r: Memory)
    requires forall i :: 0 <= i < |patches| ==> patches[i].slot in mem
  {
    Patched(Patched(mem, patches), Undo(patches, Displaced(mem, patches)))
  }

  /** No later patch of the list writes the same slot. */
  ghost predicate LastOfSlot(patches: seq<Patch>, i: nat)
    requires i < |patches|
  {
    forall j :: i < j < |patches| ==> patches[j].slot != patches[i].slot
  }

  /** A slot ends with the value of its last patch. */
  lemma {:induction false} PatchedByLast(mem: Memory, patches: seq<Patch>, i: nat)
    requires i < |patches| && LastOfSlot(patches, i)
    ensures Lookup(Patched(mem, patches), patches[i].slot) == Some(patches[i].value)
    decreases |patches|
  {
    var init := patches[..|patches| - 1];
    if i < |init| {
      assert LastOfSlot(init, i) by { assert forall j :: i < j < |init| ==> init[j] == patches[j]; }
      PatchedByLast(mem, init, i);
    }
  }

  /** A slot without a patch keeps its value. */
  lemma {:induction false} PatchedElsewhere(mem: Memory, patches: seq<Patch>, a: Address)
    requires forall i :: 0 <= i < |patches| ==> patches[i].slot != a
    ensures Lookup(Patched(mem, patches), a) == Lookup(mem, a)
    decreases |patches|
  {
    if patches != [] { PatchedElsewhere(mem, patches[..|patches| - 1], a); }
  }

  lemma {:induction false} SomePatchIsLast(patches: seq<Patch>, a: Address) returns (i: nat)
    requires exists k :: 0 <= k < |patches| && patches[k].slot == a
    ensures i < |patches| && patches[i].slot == a && LastOfSlot(patches, i)
    decreases |patches|
  {
    var n := |patches| - 1;
    if patches[n].slot == a { return n; }
    i := SomePatchIsLast(patches[..n], a);
    assert forall j :: i < j < n ==> patches[j] == patches[..n][j];
  }

  /** The last patch of a slot found there what the slot held to begin with. */
  ghost predicate LastFoundInitial(mem: Memory, patches: seq<Patch>)
    requires forall i :: 0 <= i < |patches| ==> patches[i].slot in mem
  {
    forall i: nat :: i < |patches| && LastOfSlot(patches, i) ==> ValueBefore(mem, patches, i) == mem[patches[i].slot]
  }

  lemma RolledBackAt(mem: Memory, patches: seq<Patch>, i: nat)
    requires (forall k :: 0 <= k < |patches| ==> patches[k].slot in mem) && i < |patches| && LastOfSlot(patches, i)
    ensures Lookup(RolledBack(mem, patches), patches[i].slot) == Some(ValueBefore(mem, patches, i))
  {
    var undo := Undo(patches, Displaced(mem, patches));
    assert LastOfSlot(undo, i) by { assert forall j :: 0 <= j < |undo| ==> undo[j].slot == patches[j].slot; }
    PatchedByLast(Patched(mem, patches), undo, i);
  }

  lemma RolledBackElsewhere(mem: Memory, patches: seq<Patch>, a: Address)
    requires forall k :: 0 <= k < |patches| ==> patches[k].slot in mem && patches[k].slot != a
    ensures Lookup(RolledBack(mem, patches), a) == Lookup(mem, a)
  {
    var undo := Undo(patches, Displaced(mem, patches));
    assert forall j :: 0 <= j < |undo| ==> undo[j].slot == patches[j].slot;
    PatchedElsewhere(mem, patches, a);
    PatchedElsewhere(Patched(mem, patches), undo, a);
  }

  /**
   * For every patch list the rollback restores memory exactly when the last patch of each slot found the
   * slot's initial value there. Replayed in swap order, the last undo of a slot is the one that stays.
   */
  lemma RollbackRestoresIff(mem: Memory, patches: seq<Patch>)
    requires forall i :: 0 <= i < |patches| ==> patches[i].slot in mem
    ensures RolledBack(mem, patches) == mem <==> LastFoundInitial(mem, patches)
  {
    var r := RolledBack(mem, patches);
    if r == mem {
      forall i: nat | i < |patches| && LastOfSlot(patches, i)
        ensures ValueBefore(mem, patches, i) == mem[patches[i].slot] {
        RolledBackAt(mem, patches, i);
      }
    }
    if LastFoundInitial(mem, patches) {
      forall a ensures (a in r <==> a in mem) && (a in mem ==> r[a] == mem[a]) {
        if exists k :: 0 <= k < |patches| && patches[k].slot == a {
          var i := SomePatchIsLast(patches, a);
          RolledBackAt(mem, patches, i);
        } else {
          RolledBackElsewhere(mem, patches, a);
        }
        assert Lookup(r, a) == Lookup(mem, a);
      }
    }
  }

  /** Distinct slots are always restored. */
  lemma RollbackRestores(mem: Memory, patches: seq<Patch>)
    requires DistinctSlots(patches) && forall i :: 0 <= i < |patches| ==> patches[i].slot in mem
    ensures RolledBack(mem, patches) == mem
    ensures forall i :: 0 <= i < |patches| ==> Displaced(mem, patches)[i] == mem[patches[i].slot]
  {
    forall i: nat | i < |patches| ensures ValueBefore(mem, patches, i) == mem[patches[i].slot] {
      PatchedAt(mem, patches[..i], patches[i].slot);
    }
    RollbackRestoresIff(mem, patches);
  }

  /** A slot patched twice is restored exactly when its first patch wrote what was there already. */
  lemma TwicePatchedIff(mem: Memory, a: Address, v: nat, w: nat)
    requires a in mem
    ensures RolledBack(mem, [Patch(a, v), Patch(a, w)]) == mem <==> v == mem[a]
  {
    var patches := [Patch(a, v), Patch(a, w)];
    assert patches[..1] == [Patch(a, v)] && patches[..1][..0] == [];
    assert ValueBefore(mem, patches, 1) == v;
    RollbackRestoresIff(mem, patches);
    assert LastOfSlot(patches, 1) && !LastOfSlot(patches, 0);
  }

  // ---- Page protections ---------------------------------------------------------------------

  type Protections = map<nat, Protection>
  type Capture = seq<(nat, Protection)>

  /** Protections after opening `pages` in order. */
  function OpenPages(prot: Protections, pages: seq<nat>): (r: Protections)
    decreases |pages|
  {
    if pages == [] then prot
    else
      var q := OpenPages(prot, pages[..|pages| - 1]);
      var last := pages[|pages| - 1];
      if last in q then q[last := q[last].Opened()] else q
  }

  /** `capture` records, page by page, what `prot` holds. */
  ghost predicate Captures(prot: Protections, pages: seq<nat>, capture: Capture) {
    && |capture| == |pages|
    && forall i :: 0 <= i < |pages| ==> pages[i] in prot && capture[i] == (pages[i], prot[pages[i]])
  }

  /**
   * From `before` to `now`, while the log of failed restores grew from `was` to `failed`: exactly the pages
   * whose restore failed were left opened, every other protection is as it was.
   */
  ghost predicate LeftOpen(before: Protections, now: Protections, was: seq<nat>, failed: seq<nat>) {
    was <= failed && now == OpenPages(before, failed[|was|..])
  }

  lemma {:induction false} OpenPagesAt(prot: Protections, pages: seq<nat>, p: nat)
    ensures p in OpenPages(prot, pages) <==> p in prot
    ensures p in prot ==> OpenPages(prot, pages)[p] == if p in pages then prot[p].Opened() else prot[p]
    decreases |pages|
  {
    if pages != [] {
      assert pages == pages[..|pages| - 1] + [pages[|pages| - 1]];
      OpenPagesAt(prot, pages[..|pages| - 1], p);
      OpenPagesAt(prot, pages[..|pages| - 1], pages[|pages| - 1]);
    }
  }

  /** Only which pages are opened matters, not their order or number. */
  lemma OpenSame(prot: Protections, some: seq<nat>, others: seq<nat>)
    requires forall p :: p in some <==> p in others
    ensures OpenPages(prot, some) == OpenPages(prot, others)
  {
    forall p: nat
      ensures p in OpenPages(prot, some) <==> p in OpenPages(prot, others)
      ensures p in OpenPages(prot, some) ==> OpenPages(prot, some)[p] == OpenPages(prot, others)[p]
    {
      OpenPagesAt(prot, some, p);
      OpenPagesAt(prot, others, p);
    }
  }

  lemma OpenTwice(prot: Protections, first: seq<nat>, second: seq<nat>)
    ensures OpenPages(OpenPages(prot, first), second) == OpenPages(prot, first + second)
  {
    forall p: nat
      ensures p in OpenPages(OpenPages(prot, first), second) <==> p in OpenPages(prot, first + second)
      ensures p in OpenPages(prot, first + second) ==>
                OpenPages(OpenPages(prot, first), second)[p] == OpenPages(prot, first + second)[p]
    {
      OpenPagesAt(prot, first, p);
      OpenPagesAt(OpenPages(prot, first), second, p);
      OpenPagesAt(prot, first + second, p);
    }
  }

  /** Putting back what one opened page held leaves the others opened. */
  lemma CloseOne(prot: Protections, some: seq<nat>, page: nat)
    requires page in prot && page !in some
    ensures OpenPages(prot, some + [page])[page := prot[page]] == OpenPages(prot, some)
  {
    assert (some + [page])[..|some|] == some;
    OpenPagesAt(prot, some, page);
  }

  lemma LeftOpenTrans(a: Protections, b: Protections, c: Protections, fa: seq<nat>, fb: seq<nat>, fc: seq<nat>)
    requires LeftOpen(a, b, fa, fb) && LeftOpen(b, c, fb, fc)
    ensures LeftOpen(a, c, fa, fc)
  {
    OpenTwice(a, fb[|fa|..], fc[|fb|..]);
    assert fc[|fa|..] == fb[|fa|..] + fc[|fb|..];
  }

  /** No protection changed exactly when every page left open was writable to begin with. */
  lemma UnchangedIff(before: Protections, now: Protections, was: seq<nat>, failed: seq<nat>)
    requires LeftOpen(before, now, was, failed)
    ensures now == before <==> forall p :: p in failed[|was|..] && p in before ==> before[p].write
  {
    var left := failed[|was|..];
    forall p: nat | p in before && p in left && now == before ensures before[p].write {
      OpenPagesAt(before, left, p);
    }
    if forall p :: p in left && p in before ==> before[p].write {
      forall p: nat ensures (p in now <==> p in before) && (p in before ==> now[p] == before[p]) {
        OpenPagesAt(before, left, p);
      }
    }
  }

  // ---- Hooks -----------------------------------------------------------------------------------

  datatype Hook = Hook(slot: Address, prior: nat, replacement: nat)

  /** One compare-exchange: put the prior value back only where our replacement still sits. */
  function Restored(mem: Memory, h: Hook): (r: Memory) {
    if h.slot in mem && mem[h.slot] == h.replacement then mem[h.slot := h.prior] else mem
  }

  function RestoredAll(mem: Memory, hooks: seq<Hook>): (r: Memory)
    decreases |hooks|
  {
    if hooks == [] then mem else Restored(RestoredAll(mem, hooks[..|hooks| - 1]), hooks[|hooks| - 1])
  }

  predicate Conflicts(mem: Memory, h: Hook) {
    h.slot in mem && mem[h.slot] != h.replacement && mem[h.slot] != h.prior
  }

  /** Hook `i` is the first whose slot holds a foreign value. */
  ghost predicate FirstConflict(mem: Memory, hooks: seq<Hook>, i: nat) {
    i < |hooks| && Conflicts(mem, hooks[i]) && forall j :: 0 <= j < i ==> !Conflicts(mem, hooks[j])
  }

  function SlotsOf(hooks: seq<Hook>): (s: seq<Address>)
    ensures |s| == |hooks| && forall i :: 0 <= i < |hooks| ==> s[i] == hooks[i].slot
  {
    seq(|hooks|, i requires 0 <= i < |hooks| => hooks[i].slot)
  }

  ghost predicate DistinctHooks(hooks: seq<Hook>) { Distinct(SlotsOf(hooks)) }

  /** A restore writes a slot exactly where it finds its own replacement, and nothing else. */
  lemma {:induction false} RestoredAllAt(mem: Memory, hooks: seq<Hook>, a: Address)
    requires DistinctHooks(hooks)
    ensures a in RestoredAll(mem, hooks) <==> a in mem
    ensures a in mem ==> forall i :: 0 <= i < |hooks| && hooks[i].slot == a ==>
              RestoredAll(mem, hooks)[a] == if mem[a] == hooks[i].replacement then hooks[i].prior else mem[a]
    ensures a in mem && (forall i :: 0 <= i < |hooks| ==> hooks[i].slot != a) ==> RestoredAll(mem, hooks)[a] == mem[a]
    decreases |hooks|
  {
    if hooks != [] {
      RestoredAllAt(mem, hooks[..|hooks| - 1], a);
    }
  }

  // ---- The process the engine runs in ------------------------------------------------------------

  class Process {
    var mem: Memory
    var prot: Protections
    ghost var failed: seq<nat>   // the pages whose protection restore has failed so far; only RestorePage extends it
    ghost var refused: nat       // how many pages could not be made writable so far; only MakePageWritable counts it
    const pageSize: nat

    ghost predicate Valid() { pageSize >= PTR_SIZE }

    /** Pages are named by their index. */
    function PageOf(a: Address): (p: nat)
      requires pageSize > 0
    {
      a / pageSize
    }

    /** The pages a pointer-sized cell touches: one, or two neighbours. */
    ghost predicate Spans(slot: Address, page: nat)
      requires pageSize > 0
    {
      page == PageOf(slot) || page == PageOf(slot + PTR_SIZE - 1)
    }

    /** `pages` are exactly the pages these slots touch. */
    ghost predicate Spanned(pages: seq<nat>, slots: seq<Address>)
      requires Valid()
    {
      forall p :: p in pages <==> exists i :: 0 <= i < |slots| && Spans(slots[i], p)
    }

    ghost predicate Open(slot: Address)
      reads this
      requires Valid()
    {
      forall p :: Spans(slot, p) ==> p in prot && prot[p].write
    }

    // ---- System calls, any of which may fail ----------------------------------------------------

    method MakePageWritable(page: nat) returns (r: Result<Protection, Error>)
      modifies this`prot, this`refused
      ensures refused == old(refused) + if r.Ok? then 0 else 1
      ensures r.Ok? ==> page in old(prot) && r.value == old(prot)[page] && prot == old(prot)[page := r.value.Opened()]
      ensures r.Err? ==> prot == old(prot) && r.error == CannotOpen
    {
      if page !in prot || !prot[page].Mapped() {
        refused := refused + 1;
        return Err(CannotOpen);
      }
      var was := prot[page];
      if !was.write {
        if * {
          refused := refused + 1;
          return Err(CannotOpen);
        }
      }
      prot := prot[page := was.Opened()];
      return Ok(was);
    }

    method RestorePage(page: nat, was: Protection) returns (ok: bool)
      modifies this`prot, this`failed
      ensures prot == if ok then old(prot)[page := was] else old(prot)
      ensures failed == if ok then old(failed) else old(failed) + [page]
    {
      if * {
        failed := failed + [page];
        return false;
      }
      prot := prot[page := was];
      return true;
    }

    /** Atomic swap; the cell must be mapped and every page it touches writable. */
    method SwapSlot(slot: Address, value: nat) returns (prior: nat)
      requires Valid() && slot in mem && Open(slot)
      modifies this`mem
      ensures prior == old(mem)[slot] && mem == old(mem)[slot := value]
    {
      prior := mem[slot];
      mem := mem[slot := value];
    }

    method CompareExchange(slot: Address, expected: nat, value: nat) returns (found: nat)
      requires Valid() && slot in mem && Open(slot)
      modifies this`mem
      ensures found == old(mem)[slot]
      ensures mem == if found == expected then old(mem)[slot := value] else old(mem)
    {
      found := mem[slot];
      if found == expected {
        mem := mem[slot := value];
      }
    }

    // ---- PageProtector ---------------------------------------------------------------------------

    /** The spanned pages, each once. */
    method CollectPages(slots: seq<Address>) returns (pages: seq<nat>)
      requires Valid()
      ensures forall i, j :: 0 <= i < j < |pages| ==> pages[i] != pages[j]
      ensures Spanned(pages, slots)
    {
      pages := [];
      for n := 0 to |slots|
        invariant forall i, j :: 0 <= i < j < |pages| ==> pages[i] != pages[j]
        invariant forall p :: p in pages <==> exists i :: 0 <= i < n && Spans(slots[i], p)
      {
        var first := PageOf(slots[n]);
        var last := PageOf(slots[n] + PTR_SIZE - 1);
        NeighbourPages(slots[n]);
        ghost var before := pages;
        var page := first;
        while true
          invariant first <= page <= last && (page == first || page == last)
          invariant forall i, j :: 0 <= i < j < |pages| ==> pages[i] != pages[j]
          invariant forall p :: p in pages <==> p in before || (p == first && page > first)
          decreases last - page
        {
          if page !in pages {
            pages := pages + [page];
          }
          if page == last {
            break;
          }
          page := page + 1;
        }
        assert forall p :: p in pages <==> p in before || Spans(slots[n], p);
      }
    }

    lemma NeighbourPages(slot: Address)
      requires Valid()
      ensures PageOf(slot) <= PageOf(slot + PTR_SIZE - 1) <= PageOf(slot) + 1
    {
      Quotient(slot, pageSize);
      Quotient(slot + PTR_SIZE - 1, pageSize);
      NearQuotients(slot, PTR_SIZE - 1, pageSize, PageOf(slot), PageOf(slot + PTR_SIZE - 1));
    }

    /** Open every spanned page, or put back the ones already opened and report. */
    method MakeWritable(slots: seq<Address>) returns (r: Result<Capture, Error>, ghost pages: seq<nat>)
      requires Valid()
      modifies this`prot, this`failed, this`refused
      ensures refused == old(refused) + if r.Ok? then 0 else 1
      ensures Distinct(pages) && Spanned(pages, slots)
      ensures r.Ok? ==> Captures(old(prot), pages, r.value) && prot == OpenPages(old(prot), pages)
      ensures r.Ok? ==> failed == old(failed)
      ensures r.Ok? ==> forall i :: 0 <= i < |slots| ==> Open(slots[i])
      ensures r.Err? ==> r.error == CannotOpen && LeftOpen(old(prot), prot, old(failed), failed)
      ensures forall p :: p in failed[|old(failed)|..] ==> p in pages
    {
      var toOpen := CollectPages(slots);
      pages := toOpen;
      var done: Capture := [];
      for n := 0 to |toOpen|
        invariant Captures(old(prot), toOpen[..n], done)
        invariant prot == OpenPages(old(prot), toOpen[..n]) && failed == old(failed) && refused == old(refused)
      {
        OpenPagesAt(old(prot), toOpen[..n], toOpen[n]);
        var was := MakePageWritable(toOpen[n]);
        if was.Err? {
          var _ := Close(done, old(prot), toOpen[..n]);
          r := Err(CannotOpen);
          return;
        }
        done := done + [(toOpen[n], was.value)];
        assert toOpen[..n + 1][..n] == toOpen[..n];
      }
      assert toOpen[..|toOpen|] == toOpen;
      forall i | 0 <= i < |slots| ensures Open(slots[i]) {
        forall p | Spans(slots[i], p) ensures p in prot && prot[p].write {
          assert p in toOpen;
          OpenPagesAt(old(prot), toOpen, p);
        }
      }
      r := Ok(done);
    }

    /** Restore captured protections in reverse, going on past a failure; true when all succeeded. */
    method Close(capture: Capture, ghost before: Protections, ghost pages: seq<nat>) returns (ok: bool)
      requires Distinct(pages) && Captures(before, pages, capture) && prot == OpenPages(before, pages)
      modifies this`prot, this`failed
      ensures ok <==> failed == old(failed)
      ensures LeftOpen(before, prot, old(failed), failed)
      ensures forall p :: p in failed[|old(failed)|..] ==> p in pages
    {
      ok := true;
      assert pages[..|capture|] + [] == pages;
      for i := |capture| downto 0
        invariant old(failed) <= failed && (ok <==> failed == old(failed))
        invariant forall p :: p in failed[|old(failed)|..] ==> p in pages[i..]
        invariant prot == OpenPages(before, pages[..i] + failed[|old(failed)|..])
      {
        var (page, was) := capture[i];
        ghost var left := failed[|old(failed)|..];
        CloseStep(before, pages, i, left);
        assert pages[i..] == [page] + pages[i + 1..];
        var restored := RestorePage(page, was);
        if !restored {
          ok := false;
          assert failed[|old(failed)|..] == left + [page];
        }
      }
      assert pages[..0] + failed[|old(failed)|..] == failed[|old(failed)|..];
    }

    /** What putting page `i` back does, and what leaving it does, while `left` stays open. */
    lemma CloseStep(before: Protections, pages: seq<nat>, i: nat, left: seq<nat>)
      requires i < |pages| && Distinct(pages) && pages[i] in before && forall p :: p in left ==> p in pages[i + 1..]
      ensures OpenPages(before, pages[..i + 1] + left)[pages[i] := before[pages[i]]] ==
              OpenPages(before, pages[..i] + left)
      ensures OpenPages(before, pages[..i + 1] + left) == OpenPages(before, pages[..i] + (left + [pages[i]]))
    {
      assert pages[..i + 1] == pages[..i] + [pages[i]];
      OpenSame(before, pages[..i + 1] + left, pages[..i] + left + [pages[i]]);
      OpenSame(before, pages[..i + 1] + left, pages[..i] + (left + [pages[i]]));
      CloseOne(before, pages[..i] + left, pages[i]);
    }

    // ---- The transaction ------------------------------------------------------------------------------

    /** Write every patch; pages are open. */
    method SwapAll(patches: seq<Patch>) returns (priors: seq<nat>)
      requires Valid()
      requires forall i :: 0 <= i < |patches| ==> patches[i].slot in mem && Open(patches[i].slot)
      modifies this`mem
      ensures mem == Patched(old(mem), patches) && mem.Keys == old(mem).Keys
      ensures priors == Displaced(old(mem), patches)
    {
      priors := [];
      ghost var mem0 := mem;
      for n := 0 to |patches|
        invariant mem == Patched(mem0, patches[..n]) && mem.Keys == mem0.Keys
        invariant |priors| == n && forall i: nat :: i < n ==> priors[i] == ValueBefore(mem0, patches, i)
      {
        assert patches[..n + 1][..n] == patches[..n];
        var prior := SwapSlot(patches[n].slot, patches[n].value);
        priors := priors + [prior];
      }
      assert patches[..|patches|] == patches;
    }

    /**
     * All patches or none. Whatever happens, exactly the pages whose restore failed are left opened. Failing
     * to open a page changes no slot. Failing to close rolls every slot back, unless the pages could not be
     * opened again. Each error comes from a system call that failed.
     */
    method Apply(patches: seq<Patch>) returns (r: Result<seq<nat>, Error>, ghost pages: seq<nat>)
      requires Valid()
      requires forall i :: 0 <= i < |patches| ==> patches[i].slot in mem
      modifies this`mem, this`prot, this`failed, this`refused
      ensures Spanned(pages, Targets(patches))
      ensures LeftOpen(old(prot), prot, old(failed), failed)
      ensures forall p :: p in failed[|old(failed)|..] ==> p in pages
      ensures match r
              case Ok(priors) =>
                mem == Patched(old(mem), patches) && failed == old(failed) && priors == Displaced(old(mem), patches)
              case Err(CannotOpen) => mem == old(mem)
              case Err(CannotClose(reopened)) =>
                failed != old(failed)
                  && mem == if reopened then RolledBack(old(mem), patches) else Patched(old(mem), patches)
              case Err(RestoreConflict(_)) => false
      ensures refused == old(refused) + if r == Err(CannotOpen) || r == Err(CannotClose(false)) then 1 else 0
    {
      var slots := Targets(patches);
      ghost var before, was := prot, failed;
      var capture;
      capture, pages := MakeWritable(slots);
      if capture.Err? {
        r := Err(CannotOpen);
        return;
      }
      assert forall i :: 0 <= i < |patches| ==> Open(slots[i]);
      var priors := SwapAll(patches);
      var closed := Close(capture.value, before, pages);
      if closed {
        r := Ok(priors);
        return;
      }
      ghost var mid, failedOnce := prot, failed;
      var reopened := RollBack(slots, Undo(patches, priors), pages);
      LeftOpenTrans(before, mid, prot, was, failedOnce, failed);
      assert failed[|was|..] == failedOnce[|was|..] + failed[|failedOnce|..];
      r := Err(CannotClose(reopened));
    }

    /** Opens the pages once more and writes the undo; a protection that fails again is left. */
    method RollBack(slots: seq<Address>, undo: seq<Patch>, ghost pages: seq<nat>) returns (reopened: bool)
      requires Valid() && |slots| == |undo|
      requires forall i :: 0 <= i < |undo| ==> slots[i] == undo[i].slot && undo[i].slot in mem
      requires Spanned(pages, slots)
      modifies this`mem, this`prot, this`failed, this`refused
      ensures mem == if reopened then Patched(old(mem), undo) else old(mem)
      ensures refused == old(refused) + if reopened then 0 else 1
      ensures LeftOpen(old(prot), prot, old(failed), failed)
      ensures forall p :: p in failed[|old(failed)|..] ==> p in pages
    {
      ghost var mid := prot;
      var capture;
      ghost var again;
      capture, again := MakeWritable(slots);
      SamePages(slots, pages, again);
      reopened := capture.Ok?;
      if reopened {
        assert forall i :: 0 <= i < |undo| ==> Open(slots[i]);
        var _ := SwapAll(undo);
        var _ := Close(capture.value, mid, again);
      }
    }

    lemma SamePages(slots: seq<Address>, a: seq<nat>, b: seq<nat>)
      requires Valid()
      requires Spanned(a, slots) && Spanned(b, slots)
      ensures forall p :: p in a <==> p in b
    {}

    // ---- Restoring a guard's hooks -----------------------------------------------------------------------

    /**
     * The restore of one guard, while its module is loaded and its slots still belong to it: each slot is
     * put back exactly where the guard's own replacement still sits, and a foreign value is reported.
     */
    method RestoreHooks(hooks: seq<Hook>) returns (r: Result<(), Error>)
      requires Valid() && DistinctHooks(hooks)
      requires forall i :: 0 <= i < |hooks| ==> hooks[i].slot in mem
      modifies this`mem, this`prot, this`failed, this`refused
      ensures refused == old(refused) + if r == Err(CannotOpen) then 1 else 0
      ensures LeftOpen(old(prot), prot, old(failed), failed)
      ensures r.Err? && r.error.CannotClose? ==> failed != old(failed)
      ensures r == Err(CannotOpen) ==> mem == old(mem)
      ensures r != Err(CannotOpen) ==> mem == RestoredAll(old(mem), hooks)
      ensures r.Ok? ==> failed == old(failed) && forall i :: 0 <= i < |hooks| ==> !Conflicts(old(mem), hooks[i])
      ensures r.Err? && r.error.RestoreConflict? ==>
                exists i :: 0 <= i < |hooks| && hooks[i].slot == r.error.slot && FirstConflict(old(mem), hooks, i)
      ensures (exists i :: 0 <= i < |hooks| && Conflicts(old(mem), hooks[i])) && r != Err(CannotOpen) ==>
                r.Err? && r.error.RestoreConflict?
    {
      var slots := SlotsOf(hooks);
      ghost var before, mem0 := prot, mem;
      ghost var pages;
      var capture;
      capture, pages := MakeWritable(slots);
      if capture.Err? {
        return Err(CannotOpen);
      }
      assert forall i :: 0 <= i < |hooks| ==> slots[i] == hooks[i].slot && Open(slots[i]);
      var firstErr: Option<Error> := None;
      for n := 0 to |hooks|
        invariant mem == RestoredAll(mem0, hooks[..n]) && mem.Keys == mem0.Keys
        invariant prot == OpenPages(before, pages) && failed == old(failed) && refused == old(refused)
        invariant firstErr.None? <==> forall i :: 0 <= i < n ==> !Conflicts(mem0, hooks[i])
        invariant firstErr.Some? ==> firstErr.value.RestoreConflict?
        invariant firstErr.Some? ==>
                    exists i :: 0 <= i < n && hooks[i].slot == firstErr.value.slot && FirstConflict(mem0, hooks, i)
      {
        var h := hooks[n];
        assert hooks[..n + 1][..n] == hooks[..n];
        RestoredAllAt(mem0, hooks[..n], h.slot);
        assert mem[h.slot] == mem0[h.slot];
        var found := CompareExchange(h.slot, h.replacement, h.prior);
        if found != h.replacement && found != h.prior && firstErr.None? {
          firstErr := Some(RestoreConflict(h.slot));
          assert FirstConflict(mem0, hooks, n);
        }
      }
      assert hooks[..|hooks|] == hooks;
      var closed := Close(capture.value, before, pages);
      if firstErr.Some? {
        return Err(firstErr.value);
      }
      return if closed then Ok(()) else Err(CannotClose(false));
    }
  }

  lemma Quotient(a: nat, n: nat)
    requires n > 0
    ensures a / n * n <= a < a / n * n + n
  {}

  lemma NearQuotients(a: nat, d: nat, n: nat, p: nat, q: nat)
    requires d < n && p * n <= a < p * n + n && q * n <= a + d < q * n + n
    ensures p <= q <= p + 1
  {
    MulMonotone(q + 1, p, n);
    MulMonotone(p + 2, q, n);
    assert (q + 1) * n == q * n + n && (p + 2) * n == p * n + n + n;
  }

  lemma MulMonotone(x: nat, y: nat, n: nat)
    ensures x <= y ==> x * n <= y * n
  {}
}
