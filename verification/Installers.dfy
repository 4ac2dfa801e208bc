/** One installation as it runs: the first pass with rollback, rescans, and the guard's drop. */
module Installers {
  import opened Wrappers
  import opened Slots
  import opened Pending
  import opened Dispatch

  datatype ModuleImage = ModuleImage(base: nat, imports: seq<ImportSlot>)

  datatype Failure = NoTargetModule | AlreadyInstalled | Engine(cause: Cause)

  // ---- What a list of outstanding hooks says about memory -----------------------------------------------

  /**
   * Against `mem0`, memory differs exactly at the hooks: each slot holds its replacement and remembers
   * what was there.
   */
  ghost predicate Holds(mem0: Memory, mem: Memory, hooks: seq<Hook>) {
    && mem.Keys == mem0.Keys && DistinctHooks(hooks)
    && (forall i :: 0 <= i < |hooks| ==>
          && hooks[i].slot in mem0
          && hooks[i].prior == mem0[hooks[i].slot] && mem[hooks[i].slot] == hooks[i].replacement)
    && (forall a :: a in mem0 && (forall i :: 0 <= i < |hooks| ==> hooks[i].slot != a) ==> mem[a] == mem0[a])
  }

  function Flat(guards: seq<seq<Hook>>): (r: seq<Hook>)
    decreases |guards|
  {
    if guards == [] then [] else guards[0] + Flat(guards[1..])
  }

  lemma {:induction false} FlatAppend(guards: seq<seq<Hook>>, g: seq<Hook>)
    ensures Flat(guards + [g]) == Flat(guards) + g
    decreases |guards|
  {
    if guards == [] {
      assert [g][1..] == [] && g + [] == g;
    } else {
      FlatAppend(guards[1..], g);
      assert (guards + [g])[1..] == guards[1..] + [g];
      assert guards[0] + (Flat(guards[1..]) + g) == (guards[0] + Flat(guards[1..])) + g;
    }
  }

  ghost predicate Apart(xs: seq<Hook>, ys: seq<Hook>) {
    forall i, j :: 0 <= i < |xs| && 0 <= j < |ys| ==> xs[i].slot != ys[j].slot
  }

  lemma InstallExtends(mem0: Memory, mem: Memory, hooks: seq<Hook>, made: seq<Hook>, now: Memory)
    requires Holds(mem0, mem, hooks) && DistinctHooks(made) && Apart(hooks, made) && Placed(made, mem, now)
    ensures Holds(mem0, now, hooks + made)
  {
    var all := hooks + made;
    forall i | 0 <= i < |all|
      ensures all[i].slot in mem0 && all[i].prior == mem0[all[i].slot] && now[all[i].slot] == all[i].replacement {
      if i < |hooks| {
        forall h | h in made ensures h.slot != all[i].slot {
          var j :| 0 <= j < |made| && made[j] == h;
        }
      } else {
        assert all[i] == made[i - |hooks|] && all[i] in made;
        assert forall j :: 0 <= j < |hooks| ==> hooks[j].slot != all[i].slot;
      }
    }
    forall a | a in mem0 && (forall i :: 0 <= i < |all| ==> all[i].slot != a) ensures now[a] == mem0[a] {
      assert forall j :: 0 <= j < |hooks| ==> all[j] == hooks[j];
      forall h | h in made ensures h.slot != a {
        var j :| 0 <= j < |made| && made[j] == h;
        assert all[|hooks| + j] == h;
      }
    }
  }

  lemma RestoreShrinks(mem0: Memory, mem: Memory, first: seq<Hook>, rest: seq<Hook>)
    requires Holds(mem0, mem, first + rest)
    ensures DistinctHooks(first) && Holds(mem0, RestoredAll(mem, first), rest)
  {
    var all, mem' := first + rest, RestoredAll(mem, first);
    assert forall i :: 0 <= i < |first| ==> all[i] == first[i];
    assert forall i :: 0 <= i < |rest| ==> all[|first| + i] == rest[i];
    assert DistinctHooks(first);
    forall a ensures a in mem' <==> a in mem { RestoredAllAt(mem, first, a); }
    forall i | 0 <= i < |rest| ensures mem'[rest[i].slot] == rest[i].replacement {
      RestoredAllAt(mem, first, rest[i].slot);
      assert all[|first| + i] == rest[i];
    }
    forall a | a in mem0 && (forall i :: 0 <= i < |rest| ==> rest[i].slot != a) ensures mem'[a] == mem0[a] {
      RestoredAllAt(mem, first, a);
      if i :| 0 <= i < |first| && first[i].slot == a {
        assert all[i] == first[i];
      } else {
        assert forall i :: 0 <= i < |all| ==> all[i] == if i < |first| then first[i] else rest[i - |first|];
      }
    }
  }

  // ---- The installer -----------------------------------------------------------------------------------------

  /** `home` tells which module each slot address belongs to; the modules' imports agree with it and are mapped. */
  ghost predicate Loaded(mem: Memory, modules: seq<ModuleImage>, home: Address -> nat) {
    forall i, s :: 0 <= i < |modules| && s in modules[i].imports ==>
             s.address in mem && home(s.address) == modules[i].base
  }

  lemma MappedImports(mem: Memory, m: ModuleImage, home: Address -> nat)
    requires Loaded(mem, [m], home)
    ensures forall s :: s in m.imports ==> s.address in mem
  {
    assert m == [m][0];
  }

  /** What a guard needs to be uninstalled. */
  ghost predicate Restorable(mem: Memory, hooks: seq<Hook>) {
    DistinctHooks(hooks) && forall i :: 0 <= i < |hooks| ==> hooks[i].slot in mem
  }

  lemma RestoredKeys(mem: Memory, hooks: seq<Hook>)
    requires DistinctHooks(hooks)
    ensures RestoredAll(mem, hooks).Keys == mem.Keys
  {
    forall a ensures a in RestoredAll(mem, hooks) <==> a in mem { RestoredAllAt(mem, hooks, a); }
  }

  ghost predicate AllRestorable(mem: Memory, guards: seq<seq<Hook>>) {
    forall k :: 0 <= k < |guards| ==> Restorable(mem, guards[k])
  }

  /** Uninstalling one guard leaves the others what they need. */
  lemma StillRestorable(mem: Memory, hooks: seq<Hook>, taken: seq<seq<Hook>>)
    requires taken != [] && AllRestorable(mem, taken) && DistinctHooks(hooks)
    ensures RestoredAll(mem, hooks).Keys == mem.Keys
    ensures AllRestorable(mem, taken[1..]) && AllRestorable(RestoredAll(mem, hooks), taken[1..])
  {
    RestoredKeys(mem, hooks);
    forall k | 0 <= k < |taken| - 1
      ensures Restorable(mem, taken[1..][k]) && Restorable(RestoredAll(mem, hooks), taken[1..][k]) {
      assert Restorable(mem, taken[k + 1]);
    }
  }

  /** The hooks of a module stay inside it. */
  lemma HookedAtHome(mem: Memory, m: ModuleImage, rs: seq<Replacement>, resolve: Symbol -> Option<nat>,
                     hooks: seq<Hook>, home: Address -> nat)
    requires Hooked(hooks, m.imports, rs, resolve) && Loaded(mem, [m], home)
    ensures forall h :: h in hooks ==> home(h.slot) == m.base
  {
    assert m == [m][0];
    forall h | h in hooks ensures home(h.slot) == m.base {
      var p :| FirstChoice(p, m.imports, rs, resolve) && p.slot == h.slot;
      var k: nat, s :| ChosenBy(p, m.imports, rs, resolve, k, s);
    }
  }

  /** Planning module `m` can be refused. */
  ghost predicate Refusable(m: ModuleImage, rs: seq<Replacement>, resolve: Symbol -> Option<nat>) {
    exists e :: Refused(e, m.imports, rs, resolve)
  }

  ghost predicate SomeRefusable(modules: seq<ModuleImage>, rs: seq<Replacement>, resolve: Symbol -> Option<nat>) {
    exists m :: m in modules && Refusable(m, rs, resolve)
  }

  /** One guard more: the hooks of `m`, all inside it. */
  ghost predicate GuardAdded(before: seq<seq<Hook>>, guards: seq<seq<Hook>>, m: ModuleImage, rs: seq<Replacement>,
                             resolve: Symbol -> Option<nat>, home: Address -> nat) {
    && |guards| == |before| + 1 && before <= guards
    && Hooked(guards[|before|], m.imports, rs, resolve)
    && Flat(guards) == Flat(before) + guards[|before|]
    && (forall h :: h in guards[|before|] ==> home(h.slot) == m.base)
  }

  /** The bases tried since `before` are distinct, and are exactly those noted since. */
  ghost predicate TriedOnce(before: seq<nat>, tried: seq<nat>, noted0: set<nat>, noted: set<nat>) {
    && before <= tried && Distinct(tried[|before|..])
    && forall b :: b in tried[|before|..] <==> b in noted && b !in noted0
  }

  lemma TriedOneMore(before: seq<nat>, tried: seq<nat>, noted0: set<nat>, noted: set<nat>, b: nat)
    requires TriedOnce(before, tried, noted0, noted) && noted0 <= noted && b !in noted
    ensures TriedOnce(before, tried + [b], noted0, noted + {b})
  {
    assert (tried + [b])[|before|..] == tried[|before|..] + [b];
  }

  /** The guards added to `before` are the hooks of eligible modules not noted before. */
  ghost predicate AddsNew(before: seq<seq<Hook>>, guards: seq<seq<Hook>>, modules: seq<ModuleImage>,
                          eligible: ModuleImage -> bool, noted0: set<nat>, rs: seq<Replacement>,
                          resolve: Symbol -> Option<nat>) {
    && before <= guards
    && forall k :: |before| <= k < |guards| ==> GuardOfNew(guards[k], modules, eligible, noted0, rs, resolve)
  }

  lemma AddsOneMore(before: seq<seq<Hook>>, had: seq<seq<Hook>>, guards: seq<seq<Hook>>, modules: seq<ModuleImage>,
                    eligible: ModuleImage -> bool, noted0: set<nat>, rs: seq<Replacement>,
                    resolve: Symbol -> Option<nat>, m: ModuleImage, home: Address -> nat)
    requires AddsNew(before, had, modules, eligible, noted0, rs, resolve) && NewModule(m, modules, eligible, noted0)
    requires GuardAdded(had, guards, m, rs, resolve, home)
    ensures AddsNew(before, guards, modules, eligible, noted0, rs, resolve)
  {}

  /** `guards` cover every change from `mem0` unless an undo was refused, inside the noted modules. */
  ghost predicate CoveredBy(mem0: Memory, mem: Memory, guards: seq<seq<Hook>>, noted: set<nat>, clean: bool,
                            home: Address -> nat) {
    && mem.Keys == mem0.Keys
    && (clean ==> Holds(mem0, mem, Flat(guards)))
    && AllRestorable(mem, guards)
    && (forall i :: 0 <= i < |Flat(guards)| ==> home(Flat(guards)[i].slot) in noted)
  }

  /** A freshly placed module joins what is covered. */
  lemma CoverMore(mem0: Memory, mem: Memory, now: Memory, guards: seq<seq<Hook>>, noted: set<nat>, clean: bool,
                  home: Address -> nat, base: nat, hooks: seq<Hook>)
    requires CoveredBy(mem0, mem, guards, noted, clean, home) && DistinctHooks(hooks) && Placed(hooks, mem, now)
    requires forall h :: h in hooks ==> home(h.slot) == base
    requires forall i :: 0 <= i < |Flat(guards)| ==> home(Flat(guards)[i].slot) != base
    ensures CoveredBy(mem0, now, guards + [hooks], noted + {base}, clean, home)
  {
    var old_ := Flat(guards);
    FlatAppend(guards, hooks);
    assert forall j :: 0 <= j < |hooks| ==> hooks[j] in hooks;
    assert Apart(old_, hooks);
    if clean { InstallExtends(mem0, mem, old_, hooks, now); }
    forall i | 0 <= i < |old_ + hooks| ensures home((old_ + hooks)[i].slot) in noted + {base} {}
  }

  /** What a module's hooks, once placed, add to what the guards cover. */
  lemma ModuleCovered(mem0: Memory, mem: Memory, now: Memory, guards: seq<seq<Hook>>, noted: set<nat>, clean: bool,
                      home: Address -> nat, m: ModuleImage, rs: seq<Replacement>, resolve: Symbol -> Option<nat>,
                      hooks: seq<Hook>)
    requires CoveredBy(mem0, mem, guards, noted, clean, home) && NoneIn(guards, m.base, home)
    requires Loaded(mem, [m], home) && Hooked(hooks, m.imports, rs, resolve) && Placed(hooks, mem, now)
    ensures CoveredBy(mem0, now, guards + [hooks], noted + {m.base}, clean, home)
    ensures GuardAdded(guards, guards + [hooks], m, rs, resolve, home)
  {
    HookedAtHome(mem, m, rs, resolve, hooks, home);
    FlatAppend(guards, hooks);
    CoverMore(mem0, mem, now, guards, noted, clean, home, m.base, hooks);
  }

  function Bases(modules: seq<ModuleImage>): (bs: seq<nat>)
    ensures |bs| == |modules| && forall i :: 0 <= i < |modules| ==> bs[i] == modules[i].base
  {
    seq(|modules|, i requires 0 <= i < |modules| => modules[i].base)
  }

  function BaseSet(modules: seq<ModuleImage>): (bs: set<nat>) { set m | m in modules :: m.base }

  function EligibleBases(modules: seq<ModuleImage>, eligible: ModuleImage -> bool): (bs: set<nat>) {
    set m | m in modules && eligible(m) :: m.base
  }

  lemma OneMoreBase(modules: seq<ModuleImage>, eligible: ModuleImage -> bool, i: nat)
    requires i < |modules|
    ensures BaseSet(modules[..i + 1]) == BaseSet(modules[..i]) + {modules[i].base}
    ensures EligibleBases(modules[..i + 1], eligible) ==
            EligibleBases(modules[..i], eligible) + if eligible(modules[i]) then {modules[i].base} else {}
  {
    assert modules[..i + 1] == modules[..i] + [modules[i]];
  }

  lemma FreshBase(modules: seq<ModuleImage>, i: nat)
    requires Distinct(Bases(modules)) && i < |modules|
    ensures modules[i].base !in BaseSet(modules[..i])
  {}

  lemma OneLoaded(mem: Memory, now: Memory, modules: seq<ModuleImage>, home: Address -> nat, i: nat)
    requires Loaded(mem, modules, home) && now.Keys == mem.Keys && i < |modules|
    ensures Loaded(now, [modules[i]], home)
  {}

  /** No hook lies in the module at `base`. */
  ghost predicate NoneIn(guards: seq<seq<Hook>>, base: nat, home: Address -> nat) {
    forall i :: 0 <= i < |Flat(guards)| ==> home(Flat(guards)[i].slot) != base
  }

  /** The first `i` guards hook the first `i` modules. */
  ghost predicate HooksEach(guards: seq<seq<Hook>>, modules: seq<ModuleImage>, i: nat, rs: seq<Replacement>,
                            resolve: Symbol -> Option<nat>) {
    && i <= |modules| && |guards| == i
    && forall k :: 0 <= k < i ==> Hooked(guards[k], modules[k].imports, rs, resolve)
  }

  lemma HooksOneMore(had: seq<seq<Hook>>, guards: seq<seq<Hook>>, modules: seq<ModuleImage>, i: nat,
                     rs: seq<Replacement>, resolve: Symbol -> Option<nat>, home: Address -> nat)
    requires HooksEach(had, modules, i, rs, resolve)
    requires i < |modules| && GuardAdded(had, guards, modules[i], rs, resolve, home)
    ensures HooksEach(guards, modules, i + 1, rs, resolve)
  {}

  // ---- Rescanning ----------------------------------------------------------------------------------------------

  /** What an installer knows: the bases it noted, those it tried in order, its guards. */
  datatype Seen = Seen(noted: set<nat>, tried: seq<nat>, guards: seq<seq<Hook>>)

  /** One module: nothing unless it is eligible and its base new; else noted and tried, with a guard if added. */
  ghost predicate Rescans(a: Seen, b: Seen, m: ModuleImage, eligible: ModuleImage -> bool, added: bool,
                          rs: seq<Replacement>, resolve: Symbol -> Option<nat>, home: Address -> nat) {
    && (if eligible(m) && m.base !in a.noted then b.noted == a.noted + {m.base} && b.tried == a.tried + [m.base]
        else b.noted == a.noted && b.tried == a.tried && !added)
    && if added then GuardAdded(a.guards, b.guards, m, rs, resolve, home) else b.guards == a.guards
  }

  /** The first `i` modules: each eligible new base noted and tried once; `count` guards more, all of those. */
  ghost predicate Rescanned(a: Seen, b: Seen, count: nat, modules: seq<ModuleImage>, i: nat,
                            eligible: ModuleImage -> bool, rs: seq<Replacement>, resolve: Symbol -> Option<nat>) {
    && i <= |modules| && b.noted == a.noted + EligibleBases(modules[..i], eligible)
    && TriedOnce(a.tried, b.tried, a.noted, b.noted) && count <= |b.tried| - |a.tried|
    && |b.guards| == |a.guards| + count && AddsNew(a.guards, b.guards, modules, eligible, a.noted, rs, resolve)
  }

  lemma RescannedOneMore(a: Seen, b: Seen, c: Seen, count: nat, modules: seq<ModuleImage>, i: nat,
                         eligible: ModuleImage -> bool, added: bool, rs: seq<Replacement>,
                         resolve: Symbol -> Option<nat>, home: Address -> nat)
    requires i < |modules| && Rescanned(a, b, count, modules, i, eligible, rs, resolve)
    requires Rescans(b, c, modules[i], eligible, added, rs, resolve, home)
    ensures Rescanned(a, c, if added then count + 1 else count, modules, i + 1, eligible, rs, resolve)
  {
    var m := modules[i];
    OneMoreBase(modules, eligible, i);
    if eligible(m) && m.base !in b.noted { TriedOneMore(a.tried, b.tried, a.noted, b.noted, m.base); }
    if added { AddsOneMore(a.guards, b.guards, c.guards, modules, eligible, a.noted, rs, resolve, m, home); }
  }

  ghost predicate NewModule(m: ModuleImage, modules: seq<ModuleImage>, eligible: ModuleImage -> bool, noted: set<nat>) {
    m in modules && eligible(m) && m.base !in noted
  }

  /** The hooks of an eligible module whose base was not noted. */
  ghost predicate GuardOfNew(hooks: seq<Hook>, modules: seq<ModuleImage>, eligible: ModuleImage -> bool,
                             noted: set<nat>,
                             rs: seq<Replacement>, resolve: Symbol -> Option<nat>) {
    exists m :: NewModule(m, modules, eligible, noted) && Hooked(hooks, m.imports, rs, resolve)
  }

  class Installer {
    const id: Id
    var guards: seq<seq<Hook>>
    var hookedBases: set<nat>
    ghost var tried: seq<nat>     // the bases a patch was attempted on, in order
    ghost var clean: bool         // no page that had to be opened to undo a patch was refused

    constructor (id: Id)
      ensures this.id == id && guards == [] && hookedBases == {} && tried == [] && clean
    {
      this.id := id;
      guards, hookedBases, tried, clean := [], {}, [], true;
    }

    /** Memory is `mem0` but for this installation's guards, which cover only bases it has noted. */
    ghost predicate Covers(mem0: Memory, mem: Memory, home: Address -> nat)
      reads this
    {
      CoveredBy(mem0, mem, guards, hookedBases, clean, home)
    }

    /**
     * Patches a module, notes it and collects its guard. A failure has a reason, adds no guard, and leaves
     * memory what the guards cover unless the rollback could not open the pages again.
     */
    method HookModule(p: Process, m: ModuleImage, rs: seq<Replacement>, resolve: Symbol -> Option<nat>,
                      ghost mem0: Memory, ghost home: Address -> nat)
      returns (r: Result<(), Cause>)
      requires p.Valid() && Loaded(p.mem, [m], home) && Covers(mem0, p.mem, home)
      requires NoneIn(guards, m.base, home)
      modifies this, p`mem, p`prot, p`failed, p`refused
      ensures Covers(mem0, p.mem, home) && tried == old(tried) + [m.base]
      ensures hookedBases == (if r.Ok? then old(hookedBases) + {m.base} else old(hookedBases))
      ensures r.Ok? ==>
                && GuardAdded(old(guards), guards, m, rs, resolve, home)
                && p.failed == old(p.failed)
      ensures r.Err? ==> guards == old(guards)
      ensures r.Err? && r.error.Plan? ==> Refused(r.error.refusal, m.imports, rs, resolve)
      ensures LeftOpen(old(p.prot), p.prot, old(p.failed), p.failed)
              && (r.Err? && r.error.Write? && r.error.error != CannotOpen ==> |p.failed| > |old(p.failed)|)
      ensures p.refused == old(p.refused) +
                           if r == Err(Write(CannotOpen)) || r == Err(Write(CannotClose(false))) then 1 else 0
      ensures clean == (old(clean) && r != Err(Write(CannotClose(false))))
    {
      MappedImports(p.mem, m, home);
      ghost var was := p.mem;
      tried := tried + [m.base];
      var hooks := Pending.Install(p, m.imports, rs, resolve);
      if hooks.Err? {
        clean := clean && hooks != Err(Write(CannotClose(false)));
        return Err(hooks.error);
      }
      ModuleCovered(mem0, was, p.mem, guards, hookedBases, clean, home, m, rs, resolve, hooks.value);
      guards := guards + [hooks.value];
      hookedBases := hookedBases + {m.base};
      return Ok(());
    }

    /** The first pass: every module in order, up to the first failure. */
    method HookAll(p: Process, modules: seq<ModuleImage>, rs: seq<Replacement>, resolve: Symbol -> Option<nat>,
                   ghost home: Address -> nat)
      returns (r: Result<(), Cause>)
      requires p.Valid() && Loaded(p.mem, modules, home) && Distinct(Bases(modules))
      requires guards == [] && hookedBases == {} && tried == [] && clean
      modifies this, p`mem, p`prot, p`failed, p`refused
      ensures Covers(old(p.mem), p.mem, home) && LeftOpen(old(p.prot), p.prot, old(p.failed), p.failed)
      ensures p.refused == old(p.refused) +
                           if r == Err(Write(CannotOpen)) || r == Err(Write(CannotClose(false))) then 1 else 0
      ensures clean == (r != Err(Write(CannotClose(false))))
      ensures r.Ok? ==>
                && tried == Bases(modules) && hookedBases == BaseSet(modules)
                && HooksEach(guards, modules, |modules|, rs, resolve)
                && p.failed == old(p.failed) && p.prot == old(p.prot)
      ensures r.Err? && r.error.Plan? ==> exists m :: m in modules && Refused(r.error.refusal, m.imports, rs, resolve)
      ensures r.Err? && r.error.Write? && r.error.error != CannotOpen ==> |p.failed| > |old(p.failed)|
      ensures r.Err? && r.error.Write? && r.error.error == CannotOpen ==> p.refused > old(p.refused)
    {
      for i := 0 to |modules|
        invariant Covers(old(p.mem), p.mem, home) && clean
        invariant tried == Bases(modules)[..i]
        invariant hookedBases == BaseSet(modules[..i]) && HooksEach(guards, modules, i, rs, resolve)
        invariant p.failed == old(p.failed) && p.prot == old(p.prot) && p.refused == old(p.refused)
      {
        var m := modules[i];
        OneMoreBase(modules, _ => true, i);
        FreshBase(modules, i);
        OneLoaded(old(p.mem), p.mem, modules, home, i);
        ghost var had := guards;
        var hooked := HookModule(p, m, rs, resolve, old(p.mem), home);
        if hooked.Err? { return hooked; }
        HooksOneMore(had, guards, modules, i, rs, resolve, home);
      }
      assert modules[..|modules|] == modules;
      return Ok(());
    }

    /** Every collected guard, oldest first. When no page is refused, memory is back as it was. */
    method UninstallAll(p: Process, ghost mem0: Memory, ghost home: Address -> nat)
      requires p.Valid() && Covers(mem0, p.mem, home)
      modifies this, p`mem, p`prot, p`failed, p`refused
      ensures guards == [] && hookedBases == old(hookedBases) && tried == old(tried)
      ensures p.refused >= old(p.refused) && LeftOpen(old(p.prot), p.prot, old(p.failed), p.failed)
      ensures clean <==> old(clean) && p.refused == old(p.refused)
      ensures clean ==> p.mem == mem0
      ensures Covers(mem0, p.mem, home)
    {
      var taken := guards;
      guards := [];
      while taken != []
        invariant guards == [] && hookedBases == old(hookedBases) && tried == old(tried) && p.mem.Keys == mem0.Keys
        invariant p.refused >= old(p.refused) && LeftOpen(old(p.prot), p.prot, old(p.failed), p.failed)
        invariant clean <==> old(clean) && p.refused == old(p.refused)
        invariant clean ==> Holds(mem0, p.mem, Flat(taken))
        invariant AllRestorable(p.mem, taken)
        decreases |taken|
      {
        var hooks := taken[0];
        ghost var prot, failed := p.prot, p.failed;
        assert Restorable(p.mem, hooks);
        if clean { RestoreShrinks(mem0, p.mem, hooks, Flat(taken[1..])); }
        StillRestorable(p.mem, hooks, taken);
        var r := p.RestoreHooks(hooks);
        LeftOpenTrans(old(p.prot), prot, p.prot, old(p.failed), failed, p.failed);
        clean := clean && r != Err(CannotOpen);
        taken := taken[1..];
      }
    }

    /** One module of a rescan: nothing if it is not eligible or already noted, else noted and tried. */
    method RescanModule(p: Process, m: ModuleImage, eligible: ModuleImage -> bool, rs: seq<Replacement>,
                        resolve: Symbol -> Option<nat>, ghost mem0: Memory, ghost home: Address -> nat)
      returns (added: bool)
      requires p.Valid() && Loaded(p.mem, [m], home) && Covers(mem0, p.mem, home)
      modifies this, p`mem, p`prot, p`failed, p`refused
      ensures Covers(mem0, p.mem, home)
      ensures Rescans(old(Seen(hookedBases, tried, guards)), Seen(hookedBases, tried, guards), m, eligible, added, rs,
                      resolve, home)
      ensures |tried| > |old(tried)| && !added ==>
                |p.failed| > |old(p.failed)| || p.refused > old(p.refused) || Refusable(m, rs, resolve)
      ensures LeftOpen(old(p.prot), p.prot, old(p.failed), p.failed)
      ensures p.refused >= old(p.refused) && (clean ==> old(clean))
      ensures old(clean) && !clean ==> |p.failed| > |old(p.failed)| && p.refused > old(p.refused)
    {
      if !eligible(m) || m.base in hookedBases {
        return false;
      }
      hookedBases := hookedBases + {m.base};       // noted before the patch is tried
      var r := HookModule(p, m, rs, resolve, mem0, home);
      if r.Err? && r.error.Plan? { assert Refusable(m, rs, resolve); }
      return r.Ok?;
    }

    /**
     * Late modules: each eligible base not noted yet is noted and tried, once; noted bases are left alone.
     * The guards added are those of the modules tried, fewer only where a patch failed for a reason.
     */
    method Rescan(p: Process, modules: seq<ModuleImage>, eligible: ModuleImage -> bool, rs: seq<Replacement>,
                  resolve: Symbol -> Option<nat>, ghost mem0: Memory, ghost home: Address -> nat)
      returns (count: nat)
      requires p.Valid() && Loaded(p.mem, modules, home) && Covers(mem0, p.mem, home)
      modifies this, p`mem, p`prot, p`failed, p`refused
      ensures Covers(mem0, p.mem, home)
      ensures hookedBases == old(hookedBases) + EligibleBases(modules, eligible)
      ensures TriedOnce(old(tried), tried, old(hookedBases), hookedBases)
      ensures |guards| == |old(guards)| + count
              && AddsNew(old(guards), guards, modules, eligible, old(hookedBases), rs, resolve)
      ensures LeftOpen(old(p.prot), p.prot, old(p.failed), p.failed) && p.refused >= old(p.refused)
      ensures count <= |tried| - |old(tried)|
      ensures count < |tried| - |old(tried)| ==>
                |p.failed| > |old(p.failed)| || p.refused > old(p.refused)
                  || SomeRefusable(modules, rs, resolve)
      ensures clean ==> old(clean)
      ensures old(clean) && !clean ==> |p.failed| > |old(p.failed)| && p.refused > old(p.refused)
    {
      count := 0;
      ghost var seen0 := Seen(hookedBases, tried, guards);
      for i := 0 to |modules|
        invariant Covers(mem0, p.mem, home) && p.mem.Keys == old(p.mem).Keys
        invariant Rescanned(seen0, Seen(hookedBases, tried, guards), count, modules, i, eligible, rs, resolve)
        invariant LeftOpen(old(p.prot), p.prot, old(p.failed), p.failed) && p.refused >= old(p.refused)
        invariant count < |tried| - |old(tried)| ==>
                    |p.failed| > |old(p.failed)| || p.refused > old(p.refused)
                      || SomeRefusable(modules, rs, resolve)
        invariant clean ==> old(clean)
        invariant old(clean) && !clean ==> |p.failed| > |old(p.failed)| && p.refused > old(p.refused)
      {
        var m := modules[i];
        OneLoaded(old(p.mem), p.mem, modules, home, i);
        ghost var seen, prot, failed := Seen(hookedBases, tried, guards), p.prot, p.failed;
        var added := RescanModule(p, m, eligible, rs, resolve, mem0, home);
        LeftOpenTrans(old(p.prot), prot, p.prot, old(p.failed), failed, p.failed);
        RescannedOneMore(seen0, seen, Seen(hookedBases, tried, guards), count, modules, i, eligible, added, rs,
                         resolve, home);
        if added { count := count + 1; }
      }
      assert modules[..|modules|] == modules;
    }
  }

  /**
   * The whole install: refused while another is active; otherwise each module holds its hooks, was patched
   * once and the token is held; or a failure, which has a reason, has released the token and put every
   * slot back, unless a page needed to put it back was refused.
   */
  method InstallInto(p: Process, d: Globals, modules: seq<ModuleImage>, rs: seq<Replacement>,
                     resolve: Symbol -> Option<nat>, ghost home: Address -> nat)
    returns (r: Result<Installer, Failure>)
    requires p.Valid() && Loaded(p.mem, modules, home) && Distinct(Bases(modules))
    modifies d, p`mem, p`prot, p`failed, p`refused
    ensures LeftOpen(old(p.prot), p.prot, old(p.failed), p.failed) && p.refused >= old(p.refused)
    ensures r == Err(NoTargetModule) <==> modules == []
    ensures r == Err(AlreadyInstalled) <==> modules != [] && old(d.active).Some?
    ensures r == Err(NoTargetModule) || r == Err(AlreadyInstalled) ==>
              p.mem == old(p.mem) && d.active == old(d.active) && d.nextId == old(d.nextId)
    ensures r.Err? && r.error.Engine? ==>
              && d.active == None
              && (p.mem == old(p.mem)
                  || p.refused > old(p.refused) + if r.error.cause == Write(CannotOpen) then 1 else 0)
              && match r.error.cause
                 case Plan(e) => exists m :: m in modules && Refused(e, m.imports, rs, resolve)
                 case Write(_) => |p.failed| > |old(p.failed)| || p.refused > old(p.refused)
    ensures r.Ok? ==>
              && d.active == Some(r.value.id) && old(d.active).None? && r.value.id == old(d.nextId)
              && fresh(r.value) && r.value.clean && r.value.Covers(old(p.mem), p.mem, home)
              && r.value.tried == Bases(modules) && r.value.hookedBases == BaseSet(modules)
              && HooksEach(r.value.guards, modules, |modules|, rs, resolve)
              && p.failed == old(p.failed) && p.refused == old(p.refused)
  {
    if modules == [] { return Err(NoTargetModule); }
    var token := d.TryActivate();
    if token.None? { return Err(AlreadyInstalled); }
    ghost var mem0 := p.mem;
    var installer := new Installer(token.value);
    var hooked := installer.HookAll(p, modules, rs, resolve, home);
    if hooked.Err? {
      ghost var prot, failed := p.prot, p.failed;
      installer.UninstallAll(p, mem0, home);
      LeftOpenTrans(old(p.prot), prot, p.prot, old(p.failed), failed, p.failed);
      d.Deactivate(token.value);
      return Err(Engine(hooked.error));
    }
    return Ok(installer);
  }

  /** Dropping the guard: slots first, then the token, and only its own. */
  method DropInstall(p: Process, d: Globals, installer: Installer, ghost mem0: Memory, ghost home: Address -> nat)
    requires p.Valid() && installer.Covers(mem0, p.mem, home)
    modifies d, installer, p`mem, p`prot, p`failed, p`refused
    ensures d.active == Deactivated(old(d.active), installer.id) && installer.guards == []
    ensures old(installer.clean) && p.refused == old(p.refused) ==> p.mem == mem0
    ensures LeftOpen(old(p.prot), p.prot, old(p.failed), p.failed)
  {
    installer.UninstallAll(p, mem0, home);
    d.Deactivate(installer.id);
  }
}
