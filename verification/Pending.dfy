/** Choosing the slots of one install before anything is written. */
module Pending {
  import opened Wrappers
  import opened Slots

  datatype Symbol = Named(name: string) | Ordinal(n: nat)

  datatype ImportSlot = ImportSlot(address: Address, library: string, symbol: Option<Symbol>, authenticated: bool)

  datatype Replacement = Replacement(library: Option<string>, symbol: Symbol, pointer: nat, required: bool)

  datatype PendingHook = PendingHook(slot: Address, symbol: Symbol, original: nat, replacement: nat)

  datatype InstallError =
    | AuthenticatedSlot(symbol: Symbol)
    | OriginalUnresolved(symbol: Symbol)
    | SymbolNotFound(symbol: Symbol)

  function Lower(c: char): (r: char) { if 'A' <= c <= 'Z' then (c as int + 32) as char else c }

  predicate EqualIgnoringCase(a: string, b: string) {
    |a| == |b| && forall i :: 0 <= i < |a| ==> Lower(a[i]) == Lower(b[i])
  }

  predicate Matches(slot: ImportSlot, r: Replacement) {
    && slot.symbol == Some(r.symbol)
    && (r.library.None? || EqualIgnoringCase(r.library.value, slot.library))
  }

  /** `hook` rebinds import `slot` as replacement `r` asks, with the resolved original. */
  ghost predicate Realizes(hook: PendingHook, slot: ImportSlot, r: Replacement, resolve: Symbol -> Option<nat>) {
    Matches(slot, r) && !slot.authenticated && resolve(r.symbol) == Some(hook.original)
    && hook == PendingHook(slot.address, r.symbol, hook.original, r.pointer)
  }

  function PlannedSlots(hooks: seq<PendingHook>): (s: seq<Address>)
    ensures |s| == |hooks| && forall i :: 0 <= i < |hooks| ==> s[i] == hooks[i].slot
  {
    seq(|hooks|, i requires 0 <= i < |hooks| => hooks[i].slot)
  }

  ghost predicate DistinctPending(hooks: seq<PendingHook>) { Distinct(PlannedSlots(hooks)) }

  ghost predicate Taken(hooks: seq<PendingHook>, a: Address) { exists h :: h in hooks && h.slot == a }

  /** Request `k` applies to slot address `a`: some import there matches it and its original resolves. */
  ghost predicate Applies(imports: seq<ImportSlot>, rs: seq<Replacement>, k: nat, a: Address,
                          resolve: Symbol -> Option<nat>)
    requires k < |rs|
  {
    resolve(rs[k].symbol).Some? && exists s :: s in imports && s.address == a && Matches(s, rs[k])
  }

  /** `hook` is what the first-listed request that applies to its slot asks for. */
  ghost predicate FirstChoice(hook: PendingHook, imports: seq<ImportSlot>, rs: seq<Replacement>,
                              resolve: Symbol -> Option<nat>) {
    exists k: nat, s :: ChosenBy(hook, imports, rs, resolve, k, s)
  }

  ghost predicate ChosenBy(hook: PendingHook, imports: seq<ImportSlot>, rs: seq<Replacement>,
                           resolve: Symbol -> Option<nat>, k: nat, s: ImportSlot) {
    && k < |rs| && s in imports && Realizes(hook, s, rs[k], resolve)
    && forall j: nat :: j < k ==> !Applies(imports, rs, j, hook.slot, resolve)
  }

  ghost predicate AllFirstChoice(hooks: seq<PendingHook>, imports: seq<ImportSlot>, rs: seq<Replacement>,
                                 resolve: Symbol -> Option<nat>) {
    forall h :: h in hooks ==> FirstChoice(h, imports, rs, resolve)
  }

  /** What justifies a refusal to plan. */
  ghost predicate Refused(e: InstallError, imports: seq<ImportSlot>, rs: seq<Replacement>,
                          resolve: Symbol -> Option<nat>) {
    match e
    case AuthenticatedSlot(symbol) =>
      exists s, q :: s in imports && q in rs && q.symbol == symbol && Matches(s, q) && s.authenticated
    case OriginalUnresolved(symbol) =>
      exists s, q :: s in imports && q in rs && q.symbol == symbol && Matches(s, q) && q.required
        && resolve(symbol).None?
    case SymbolNotFound(symbol) =>
      exists q :: q in rs && q.symbol == symbol && q.required && forall s :: s in imports ==> !Matches(s, q)
  }

  /** A matching import is never authenticated, is taken when its original resolves, and must resolve if required. */
  ghost predicate Settled(hooks: seq<PendingHook>, s: ImportSlot, r: Replacement, resolve: Symbol -> Option<nat>) {
    Matches(s, r) ==>
      && !s.authenticated
      && (resolve(r.symbol).Some? ==> Taken(hooks, s.address))
      && (resolve(r.symbol).None? && r.required ==> Taken(hooks, s.address))
  }

  /**
   * The planning half of `install`: on success the slots are pairwise distinct, each holds what the
   * first-listed request that applies to it asks for, no slot with an applying request is left out, and
   * every required symbol is imported. Nothing has been written yet, so an error leaves memory alone.
   */
  method Collect(imports: seq<ImportSlot>, rs: seq<Replacement>, resolve: Symbol -> Option<nat>)
    returns (r: Result<seq<PendingHook>, InstallError>)
    ensures r.Ok? ==> DistinctPending(r.value) && AllFirstChoice(r.value, imports, rs, resolve)
    ensures r.Ok? ==> forall s, q :: s in imports && q in rs ==> Settled(r.value, s, q, resolve)
    ensures r.Ok? ==> forall q :: q in rs && q.required ==> exists s :: s in imports && Matches(s, q)
    ensures r.Err? ==> Refused(r.error, imports, rs, resolve)
  {
    var pending: seq<PendingHook> := [];
    for i := 0 to |rs|
      invariant DistinctPending(pending) && AllFirstChoice(pending, imports, rs, resolve)
      invariant forall s, k :: s in imports && 0 <= k < i ==> Settled(pending, s, rs[k], resolve)
      invariant forall k :: 0 <= k < i && rs[k].required ==> exists s :: s in imports && Matches(s, rs[k])
    {
      var q := rs[i];
      var matched := false;
      for j := 0 to |imports|
        invariant DistinctPending(pending) && AllFirstChoice(pending, imports, rs, resolve)
        invariant forall s, k :: s in imports && 0 <= k < i ==> Settled(pending, s, rs[k], resolve)
        invariant forall k :: 0 <= k < j ==> Settled(pending, imports[k], q, resolve)
        invariant matched <==> exists k :: 0 <= k < j && Matches(imports[k], q)
      {
        var s := imports[j];
        if !Matches(s, q) {
          continue;
        }
        matched := true;
        if s.authenticated {
          return Err(AuthenticatedSlot(q.symbol));
        }
        if exists h :: h in pending && h.slot == s.address {
          continue;
        }
        var original := resolve(q.symbol);
        if original.None? {
          if q.required {
            return Err(OriginalUnresolved(q.symbol));
          }
          continue;
        }
        var hook := PendingHook(s.address, q.symbol, original.value, q.pointer);
        assert !Taken(pending, hook.slot);
        FreeMeansFirst(pending, hook, imports, rs, resolve, i, s);
        Grow(pending, hook, imports, rs, resolve);
        pending := pending + [hook];
      }
      if !matched && q.required {
        return Err(SymbolNotFound(q.symbol));
      }
    }
    return Ok(pending);
  }

  /** A slot still free after the requests before `k` is one that none of them applies to. */
  lemma FreeMeansFirst(hooks: seq<PendingHook>, hook: PendingHook, imports: seq<ImportSlot>, rs: seq<Replacement>,
                       resolve: Symbol -> Option<nat>, k: nat, s: ImportSlot)
    requires k < |rs| && s in imports && Realizes(hook, s, rs[k], resolve) && !Taken(hooks, hook.slot)
    requires forall s', j :: s' in imports && 0 <= j < k ==> Settled(hooks, s', rs[j], resolve)
    ensures FirstChoice(hook, imports, rs, resolve)
  {
    forall j: nat | j < k ensures !Applies(imports, rs, j, hook.slot, resolve) {
      assert forall s' :: s' in imports ==> Settled(hooks, s', rs[j], resolve);
    }
    assert ChosenBy(hook, imports, rs, resolve, k, s);
  }

  lemma Grow(hooks: seq<PendingHook>, hook: PendingHook, imports: seq<ImportSlot>, rs: seq<Replacement>,
             resolve: Symbol -> Option<nat>)
    ensures forall a :: Taken(hooks, a) ==> Taken(hooks + [hook], a)
    ensures Taken(hooks + [hook], hook.slot)
    ensures forall s, q :: Settled(hooks, s, q, resolve) ==> Settled(hooks + [hook], s, q, resolve)
  {
    assert hook in hooks + [hook];
    forall a | Taken(hooks, a) ensures Taken(hooks + [hook], a) {
      var h :| h in hooks && h.slot == a;
      assert h in hooks + [hook];
    }
  }

  /** The writes an install hands to the transaction. */
  function PatchesOf(hooks: seq<PendingHook>): (ps: seq<Patch>)
    ensures |ps| == |hooks| && forall i :: 0 <= i < |hooks| ==> ps[i] == Patch(hooks[i].slot, hooks[i].replacement)
  {
    seq(|hooks|, i requires 0 <= i < |hooks| => Patch(hooks[i].slot, hooks[i].replacement))
  }

  lemma PendingPatchesDistinct(hooks: seq<PendingHook>)
    requires DistinctPending(hooks)
    ensures DistinctSlots(PatchesOf(hooks))
  {}

  /** The hooks of one installed module: each slot an applying request covers, and what its first one put there. */
  ghost predicate Hooked(hooks: seq<Hook>, imports: seq<ImportSlot>, rs: seq<Replacement>,
                         resolve: Symbol -> Option<nat>) {
    && DistinctHooks(hooks)
    && (forall h :: h in hooks ==>
          exists p :: FirstChoice(p, imports, rs, resolve) && p.slot == h.slot && p.replacement == h.replacement)
    && (forall s, q :: s in imports && q in rs && Matches(s, q) && resolve(q.symbol).Some? ==>
          exists h :: h in hooks && h.slot == s.address)
  }

  /** Each patched slot now holds its replacement, and its hook remembers what was there. */
  ghost predicate Placed(hooks: seq<Hook>, before: Memory, now: Memory) {
    && now.Keys == before.Keys
    && (forall h :: h in hooks ==> h.slot in before && h.prior == before[h.slot] && now[h.slot] == h.replacement)
    && (forall a :: a in before && (forall h :: h in hooks ==> h.slot != a) ==> now[a] == before[a])
  }

  /** Why an install failed: a refusal to plan, before anything is written, or a failed transaction. */
  datatype Cause = Plan(refusal: InstallError) | Write(error: Slots.Error)

  /**
   * Plan, then apply. Success leaves memory patched at exactly the planned slots with every protection as
   * before. An error is a justified refusal to plan or comes from a system call that failed, and leaves
   * memory as it was unless the rollback could not open the pages again.
   */
  method Install(p: Process, imports: seq<ImportSlot>, rs: seq<Replacement>, resolve: Symbol -> Option<nat>)
    returns (r: Result<seq<Hook>, Cause>)
    requires p.Valid() && forall s :: s in imports ==> s.address in p.mem
    modifies p`mem, p`prot, p`failed, p`refused
    ensures p.mem.Keys == old(p.mem).Keys && LeftOpen(old(p.prot), p.prot, old(p.failed), p.failed)
    ensures p.refused == old(p.refused) +
                         if r == Err(Write(CannotOpen)) || r == Err(Write(CannotClose(false))) then 1 else 0
    ensures match r
            case Ok(hooks) =>
              && Hooked(hooks, imports, rs, resolve) && Placed(hooks, old(p.mem), p.mem)
              && p.failed == old(p.failed)
            case Err(Plan(e)) =>
              Refused(e, imports, rs, resolve) && p.mem == old(p.mem) && p.failed == old(p.failed)
            case Err(Write(e)) =>
              && (e == CannotOpen || e.CannotClose?) && (e.CannotClose? ==> |p.failed| > |old(p.failed)|)
              && (e != CannotClose(false) ==> p.mem == old(p.mem))
  {
    var collected := Collect(imports, rs, resolve);
    if collected.Err? {
      return Err(Plan(collected.error));
    }
    AtImports(collected.value, imports, rs, resolve);
    var written := WritePlan(p, collected.value);
    if written.Err? {
      return Err(Write(written.error));
    }
    MadeAreHooked(collected.value, written.value, imports, rs, resolve);
    return Ok(written.value);
  }

  /** Each planned hook with the value it displaced. */
  function Records(pending: seq<PendingHook>, priors: seq<nat>): (hooks: seq<Hook>)
    requires |priors| == |pending|
    ensures |hooks| == |pending|
  {
    seq(|pending|, i requires 0 <= i < |pending| && |priors| == |pending| =>
      Hook(pending[i].slot, priors[i], pending[i].replacement))
  }

  /** The transaction over a plan, and the record of what it displaced. */
  method WritePlan(p: Process, pending: seq<PendingHook>) returns (r: Result<seq<Hook>, Slots.Error>)
    requires p.Valid() && DistinctPending(pending) && forall h :: h in pending ==> h.slot in p.mem
    modifies p`mem, p`prot, p`failed, p`refused
    ensures p.mem.Keys == old(p.mem).Keys && LeftOpen(old(p.prot), p.prot, old(p.failed), p.failed)
    ensures p.refused == old(p.refused) + if r == Err(CannotOpen) || r == Err(CannotClose(false)) then 1 else 0
    ensures r.Ok? ==>
              && |r.value| == |pending|
              && (forall i :: 0 <= i < |pending| ==>
                    r.value[i].slot == pending[i].slot && r.value[i].replacement == pending[i].replacement)
              && Placed(r.value, old(p.mem), p.mem) && p.failed == old(p.failed)
    ensures r.Err? ==>
              && (r.error == CannotOpen || r.error.CannotClose?)
              && (r.error.CannotClose? ==> |p.failed| > |old(p.failed)|)
              && (r.error != CannotClose(false) ==> p.mem == old(p.mem))
  {
    ghost var before := p.mem;
    var patches := PatchesOf(pending);
    PlanWrites(before, pending);
    var applied, _ := p.Apply(patches);
    if applied.Err? {
      return Err(applied.error);
    }
    var made := Records(pending, applied.value);
    MadeArePlaced(before, pending, made);
    return Ok(made);
  }

  /** The writes of a plan: where they go, what they displace, and that a rollback undoes them. */
  lemma PlanWrites(before: Memory, pending: seq<PendingHook>)
    requires DistinctPending(pending) && forall h :: h in pending ==> h.slot in before
    ensures forall i :: 0 <= i < |pending| ==> PatchesOf(pending)[i].slot in before
    ensures Patched(before, PatchesOf(pending)).Keys == before.Keys && RolledBack(before, PatchesOf(pending)) == before
    ensures forall i :: 0 <= i < |pending| ==> Displaced(before, PatchesOf(pending))[i] == before[pending[i].slot]
  {
    var patches := PatchesOf(pending);
    PendingPatchesDistinct(pending);
    assert forall i :: 0 <= i < |patches| ==> pending[i] in pending && patches[i].slot == pending[i].slot;
    PatchedKeys(before, patches);
    RollbackRestores(before, patches);
  }

  lemma AtImports(hooks: seq<PendingHook>, imports: seq<ImportSlot>, rs: seq<Replacement>,
                  resolve: Symbol -> Option<nat>)
    requires AllFirstChoice(hooks, imports, rs, resolve)
    ensures forall h :: h in hooks ==> exists s :: s in imports && s.address == h.slot
  {
    forall h | h in hooks ensures exists s :: s in imports && s.address == h.slot {
      var k: nat, s :| ChosenBy(h, imports, rs, resolve, k, s);
    }
  }

  lemma MadeAreHooked(pending: seq<PendingHook>, made: seq<Hook>, imports: seq<ImportSlot>, rs: seq<Replacement>,
                      resolve: Symbol -> Option<nat>)
    requires DistinctPending(pending) && AllFirstChoice(pending, imports, rs, resolve)
    requires forall s, q :: s in imports && q in rs ==> Settled(pending, s, q, resolve)
    requires |made| == |pending|
    requires forall i :: 0 <= i < |made| ==>
               made[i].slot == pending[i].slot && made[i].replacement == pending[i].replacement
    ensures Hooked(made, imports, rs, resolve)
  {
    forall h | h in made
      ensures exists p :: FirstChoice(p, imports, rs, resolve) && p.slot == h.slot && p.replacement == h.replacement {
      var i :| 0 <= i < |made| && made[i] == h;
      assert pending[i] in pending;
    }
    forall s, q | s in imports && q in rs && Matches(s, q) && resolve(q.symbol).Some?
      ensures exists h :: h in made && h.slot == s.address {
      assert Settled(pending, s, q, resolve);
      var h :| h in pending && h.slot == s.address;
      var i :| 0 <= i < |pending| && pending[i] == h;
      assert made[i] in made;
    }
  }

  lemma MadeArePlaced(before: Memory, pending: seq<PendingHook>, made: seq<Hook>)
    requires DistinctPending(pending) && |made| == |pending|
    requires forall i :: 0 <= i < |pending| ==> pending[i].slot in before
    requires forall i :: 0 <= i < |made| ==>
               made[i] == Hook(pending[i].slot, before[pending[i].slot], pending[i].replacement)
    ensures Placed(made, before, Patched(before, PatchesOf(pending)))
  {
    var patches := PatchesOf(pending);
    PendingPatchesDistinct(pending);
    PatchedKeys(before, patches);
    forall h | h in made
      ensures h.slot in before && h.prior == before[h.slot] && Patched(before, patches)[h.slot] == h.replacement {
      var i :| 0 <= i < |made| && made[i] == h;
      PatchedAt(before, patches, h.slot);
      assert patches[i] == Patch(h.slot, h.replacement);
    }
    forall a | a in before && (forall h :: h in made ==> h.slot != a) ensures Patched(before, patches)[a] == before[a] {
      forall i | 0 <= i < |patches| ensures patches[i].slot != a { assert made[i] in made; }
      PatchedAt(before, patches, a);
    }
  }
}
