/** Overlapping hook guards: what any history of installs and uninstalls does to the slots. */
module Guards {
  import opened Wrappers
  import opened Slots

  /** The hooks an install records: each patch with the value it displaced. */
  function HooksOf(mem: Memory, patches: seq<Patch>): (hs: seq<Hook>)
    requires forall i :: 0 <= i < |patches| ==> patches[i].slot in mem
    ensures |hs| == |patches|
  {
    seq(|patches|, i requires 0 <= i < |patches| => Hook(patches[i].slot, mem[patches[i].slot], patches[i].value))
  }

  ghost predicate Installable(mem: Memory, patches: seq<Patch>) {
    DistinctSlots(patches) && forall i :: 0 <= i < |patches| ==> patches[i].slot in mem
  }

  /** Restoring right after installing undoes it. */
  lemma RestoreUndoesInstall(mem: Memory, patches: seq<Patch>)
    requires Installable(mem, patches)
    ensures RestoredAll(Patched(mem, patches), HooksOf(mem, patches)) == mem
  {
    var hooks := HooksOf(mem, patches);
    var r := RestoredAll(Patched(mem, patches), hooks);
    assert DistinctHooks(hooks);
    forall a ensures (a in r <==> a in mem) && (a in mem ==> r[a] == mem[a]) {
      PatchedAt(mem, patches, a);
      RestoredAllAt(Patched(mem, patches), hooks, a);
      if i :| 0 <= i < |patches| && patches[i].slot == a {
        assert hooks[i].slot == a;
      } else {
        assert forall i :: 0 <= i < |hooks| ==> hooks[i].slot == patches[i].slot;
      }
    }
  }

  // ---- Properly bracketed histories -------------------------------------------------------------

  datatype BracketOp = Push(patches: seq<Patch>) | Pop

  datatype Stacked = Stacked(mem: Memory, guards: seq<seq<Hook>>)

  ghost predicate BracketStep(s: Stacked, op: BracketOp, t: Stacked) {
    match op
    case Push(patches) =>
      Installable(s.mem, patches) && t == Stacked(Patched(s.mem, patches), s.guards + [HooksOf(s.mem, patches)])
    case Pop =>
      s.guards != [] && t == Stacked(RestoredAll(s.mem, s.guards[|s.guards| - 1]), s.guards[..|s.guards| - 1])
  }

  /** Memory once every open guard has been dropped, innermost first. */
  ghost function Unwound(s: Stacked): (mem: Memory)
    decreases |s.guards|
  {
    if s.guards == [] then s.mem
    else Unwound(Stacked(RestoredAll(s.mem, s.guards[|s.guards| - 1]), s.guards[..|s.guards| - 1]))
  }

  ghost predicate BracketRun(mem: Memory, states: seq<Stacked>, ops: seq<BracketOp>) {
    && |states| == |ops| + 1 && states[0] == Stacked(mem, [])
    && forall i :: 0 <= i < |ops| ==> BracketStep(states[i], ops[i], states[i + 1])
  }

  /** At every point of a bracketed history, dropping the open guards returns the initial memory. */
  lemma {:induction false} BracketsUnwind(mem: Memory, states: seq<Stacked>, ops: seq<BracketOp>, i: nat)
    requires BracketRun(mem, states, ops) && i < |states|
    ensures Unwound(states[i]) == mem
    ensures states[i].guards == [] ==> states[i].mem == mem
    decreases i
  {
    if i > 0 {
      BracketsUnwind(mem, states, ops, i - 1);
      var s, t := states[i - 1], states[i];
      assert BracketStep(s, ops[i - 1], t);
      match ops[i - 1]
      case Push(patches) =>
        RestoreUndoesInstall(s.mem, patches);
        assert t.guards[..|t.guards| - 1] == s.guards;
      case Pop =>
    }
  }

  // ---- Histories in any order ----------------------------------------------------------------------

  datatype Op = Install(id: nat, patches: seq<Patch>) | Uninstall(id: nat)

  /**
   * The slots, the guards not yet dropped, and — as history — the hooks stacked on each slot, every
   * (slot, value) pair seen so far, and whether any uninstall reported a conflict.
   */
  datatype World = World(
    mem: Memory,
    guards: map<nat, seq<Hook>>,
    layers: map<Address, seq<Hook>>,
    seen: set<(Address, nat)>,
    reported: bool)

  ghost function Start(mem: Memory): (w: World) {
    World(mem, map[], map a | a in mem :: [], set a | a in mem :: (a, mem[a]), false)
  }

  /** Installs use values never before put in (or found in) their slots. */
  ghost predicate Enabled(w: World, op: Op) {
    match op
    case Install(id, patches) =>
      && id !in w.guards && Installable(w.mem, patches)
      && forall i :: 0 <= i < |patches| ==> (patches[i].slot, patches[i].value) !in w.seen
    case Uninstall(id) => id in w.guards
  }

  ghost function HookAt(hooks: seq<Hook>, a: Address): (h: Option<Hook>)
    ensures h.Some? ==> h.value in hooks && h.value.slot == a
    ensures h.None? ==> forall i :: 0 <= i < |hooks| ==> hooks[i].slot != a
  {
    if i :| 0 <= i < |hooks| && hooks[i].slot == a then Some(hooks[i]) else None
  }

  ghost function Top(stack: seq<Hook>): (h: Option<Hook>) {
    if stack == [] then None else Some(stack[|stack| - 1])
  }

  ghost function Step(w: World, op: Op): (t: World)
    requires Enabled(w, op)
  {
    match op
    case Install(id, patches) =>
      var hooks := HooksOf(w.mem, patches);
      World(Patched(w.mem, patches), w.guards[id := hooks],
        map a | a in w.layers :: if HookAt(hooks, a).Some? then w.layers[a] + [HookAt(hooks, a).value] else w.layers[a],
        w.seen + (set p | p in patches :: (p.slot, p.value)), w.reported)
    case Uninstall(id) =>
      var hooks := w.guards[id];
      World(RestoredAll(w.mem, hooks), w.guards - {id},
        map a | a in w.layers ::
          if HookAt(hooks, a).Some?
             && Top(w.layers[a]) == HookAt(hooks, a) then w.layers[a][..|w.layers[a]| - 1] else w.layers[a],
        w.seen, w.reported || exists i :: 0 <= i < |hooks| && Conflicts(w.mem, hooks[i]))
  }

  // ---- One slot's stack --------------------------------------------------------------------------------

  ghost function Holds(stack: seq<Hook>, initial: nat): (v: nat) {
    if stack == [] then initial else stack[|stack| - 1].replacement
  }

  /** A slot's hooks, oldest first: each displaced what the slot held, with a value not seen there. */
  ghost predicate IsStack(stack: seq<Hook>, a: Address, initial: nat)
    decreases |stack|
  {
    stack == [] ||
    var init, last := stack[..|stack| - 1], stack[|stack| - 1];
    && IsStack(init, a, initial)
    && last.slot == a && last.prior == Holds(init, initial) && last.replacement != initial
    && forall h :: h in init ==> h.replacement != last.replacement
  }

  lemma SlotPush(stack: seq<Hook>, a: Address, initial: nat, h: Hook)
    requires IsStack(stack, a, initial) && h.slot == a && h.prior == Holds(stack, initial)
    requires h.replacement != initial && forall g :: g in stack ==> g.replacement != h.replacement
    ensures IsStack(stack + [h], a, initial) && Holds(stack + [h], initial) == h.replacement
    ensures h !in stack
  {
    assert (stack + [h])[..|stack|] == stack;
  }

  /** What a hook displaced was the initial value or another hook of the same stack. */
  lemma {:induction false} PriorBelow(stack: seq<Hook>, a: Address, initial: nat, h: Hook)
    requires IsStack(stack, a, initial) && h in stack
    ensures h.slot == a
    ensures h.prior == initial || exists g :: g in stack && g.replacement == h.prior
    decreases |stack|
  {
    var init := stack[..|stack| - 1];
    if h in init {
      PriorBelow(init, a, initial, h);
    } else if init != [] {
      assert init[|init| - 1] in stack;
    }
  }

  /** Popping is possible exactly for the top hook; any other sees a foreign value in the slot. */
  lemma SlotPop(stack: seq<Hook>, a: Address, initial: nat, h: Hook)
    requires IsStack(stack, a, initial) && h in stack
    ensures var init := stack[..|stack| - 1];
            if Top(stack) == Some(h) then
              && Holds(stack, initial) == h.replacement
              && IsStack(init, a, initial) && Holds(init, initial) == h.prior && h !in init
            else Holds(stack, initial) != h.replacement && Holds(stack, initial) != h.prior && h in init
  {
    var init, last := stack[..|stack| - 1], stack[|stack| - 1];
    if h != last {
      assert h in init;
      PriorBelow(init, a, initial, h);
    }
  }

  // ---- The invariant -----------------------------------------------------------------------------------

  ghost predicate Live(w: World, h: Hook) { exists id :: id in w.guards && h in w.guards[id] }

  ghost predicate SlotGood(w: World, mem0: Memory, a: Address)
    requires a in mem0
  {
    && a in w.mem && a in w.layers
    && IsStack(w.layers[a], a, mem0[a]) && w.mem[a] == Holds(w.layers[a], mem0[a])
    && (a, mem0[a]) in w.seen
    && forall h :: h in w.layers[a] ==> (a, h.replacement) in w.seen
  }

  ghost predicate StacksGood(w: World, mem0: Memory) {
    && w.mem.Keys == mem0.Keys == w.layers.Keys
    && forall a :: a in mem0 ==> SlotGood(w, mem0, a)
  }

  ghost predicate GuardsGood(w: World) {
    && (forall id :: id in w.guards ==> DistinctHooks(w.guards[id]))
    && (forall id, h :: id in w.guards && h in w.guards[id] ==> h.slot in w.layers && h in w.layers[h.slot])
    && (forall id, id', h :: id in w.guards && id' in w.guards && h in w.guards[id] && h in w.guards[id'] ==> id == id')
  }

  ghost predicate Stranded(w: World, a: Address, h: Hook) { a in w.layers && h in w.layers[a] && !Live(w, h) }

  /** A conflict has been reported exactly when some slot carries a hook nobody is left to remove. */
  ghost predicate ReportsStranded(w: World) {
    w.reported <==> exists a, h :: Stranded(w, a, h)
  }

  ghost predicate Good(w: World, mem0: Memory) {
    StacksGood(w, mem0) && GuardsGood(w) && ReportsStranded(w)
  }

  lemma StartGood(mem: Memory)
    ensures Good(Start(mem), mem)
  {}

  // ---- Installing ----------------------------------------------------------------------------------------

  lemma TheHookAt(hooks: seq<Hook>, a: Address, h: Hook)
    requires DistinctHooks(hooks) && h in hooks && h.slot == a
    ensures HookAt(hooks, a) == Some(h)
  {}

  /** The hook an install puts on a slot fits on its stack. */
  lemma NewHookFits(w: World, mem0: Memory, op: Op, h: Hook)
    requires StacksGood(w, mem0) && op.Install? && Enabled(w, op) && h in HooksOf(w.mem, op.patches)
    ensures h.slot in mem0 && HookAt(HooksOf(w.mem, op.patches), h.slot) == Some(h)
    ensures h.prior == w.mem[h.slot] && (h.slot, h.replacement) !in w.seen
    ensures Patched(w.mem, op.patches).Keys == w.mem.Keys && Patched(w.mem, op.patches)[h.slot] == h.replacement
    ensures exists p :: p in op.patches && p.slot == h.slot && p.value == h.replacement
  {
    var hooks := HooksOf(w.mem, op.patches);
    var i :| 0 <= i < |hooks| && hooks[i] == h;
    assert op.patches[i] in op.patches;
    TheHookAt(hooks, h.slot, h);
    PatchedKeys(w.mem, op.patches);
    PatchedAt(w.mem, op.patches, h.slot);
  }

  lemma InstallSlot(w: World, mem0: Memory, op: Op, a: Address)
    requires StacksGood(w, mem0) && op.Install? && Enabled(w, op) && a in mem0
    ensures SlotGood(Step(w, op), mem0, a)
  {
    assert SlotGood(w, mem0, a);
    var hooks := HooksOf(w.mem, op.patches);
    var found := HookAt(hooks, a);
    if found.Some? {
      NewHookFits(w, mem0, op, found.value);
      SlotPush(w.layers[a], a, mem0[a], found.value);
    } else {
      PatchedAt(w.mem, op.patches, a);
      assert forall i :: 0 <= i < |op.patches| ==> op.patches[i].slot == hooks[i].slot;
    }
  }

  lemma InstallStacks(w: World, mem0: Memory, op: Op)
    requires StacksGood(w, mem0) && op.Install? && Enabled(w, op)
    ensures StacksGood(Step(w, op), mem0)
  {
    PatchedKeys(w.mem, op.patches);
    forall a | a in mem0 ensures SlotGood(Step(w, op), mem0, a) { InstallSlot(w, mem0, op, a); }
  }

  /** A hook is on a slot after an install iff it was before or is the new one there. */
  lemma InstallLayers(w: World, mem0: Memory, op: Op, a: Address, h: Hook)
    requires StacksGood(w, mem0) && op.Install? && Enabled(w, op) && a in w.layers
    ensures h in Step(w, op).layers[a] <==> h in w.layers[a] || (h in HooksOf(w.mem, op.patches) && h.slot == a)
    ensures h in HooksOf(w.mem, op.patches) ==> h.slot in w.layers && h !in w.layers[h.slot]
  {
    var hooks := HooksOf(w.mem, op.patches);
    if h in hooks {
      NewHookFits(w, mem0, op, h);
      assert SlotGood(w, mem0, h.slot);
    }
  }

  lemma InstallLive(w: World, op: Op, h: Hook)
    requires op.Install? && Enabled(w, op)
    ensures Live(Step(w, op), h) <==> Live(w, h) || h in HooksOf(w.mem, op.patches)
  {
    var t := Step(w, op);
    if h in HooksOf(w.mem, op.patches) { assert op.id in t.guards && h in t.guards[op.id]; }
    if Live(w, h) {
      var id :| id in w.guards && h in w.guards[id];
      assert id in t.guards && t.guards[id] == w.guards[id];
    }
  }

  lemma InstallGuards(w: World, mem0: Memory, op: Op)
    requires StacksGood(w, mem0) && GuardsGood(w) && op.Install? && Enabled(w, op)
    ensures GuardsGood(Step(w, op))
  {
    var t := Step(w, op);
    var hooks := HooksOf(w.mem, op.patches);
    assert DistinctHooks(hooks);
    forall id, h | id in t.guards && h in t.guards[id]
      ensures h.slot in t.layers && h in t.layers[h.slot] && (h in hooks <==> id == op.id)
    {
      if h in hooks { NewHookFits(w, mem0, op, h); }
      InstallLayers(w, mem0, op, h.slot, h);
    }
  }

  lemma InstallReports(w: World, mem0: Memory, op: Op)
    requires Good(w, mem0) && op.Install? && Enabled(w, op)
    ensures ReportsStranded(Step(w, op))
  {
    var t := Step(w, op);
    forall a, h ensures Stranded(t, a, h) <==> Stranded(w, a, h) {
      if a in w.layers {
        InstallLayers(w, mem0, op, a, h);
        InstallLive(w, op, h);
        if Stranded(w, a, h) { OnlyOwnSlot(w, mem0, a, h); }
      }
    }
  }

  lemma OnlyOwnSlot(w: World, mem0: Memory, a: Address, h: Hook)
    requires StacksGood(w, mem0) && a in w.layers && h in w.layers[a]
    ensures h.slot == a
  {
    assert SlotGood(w, mem0, a);
    PriorBelow(w.layers[a], a, mem0[a], h);
  }

  // ---- Uninstalling ----------------------------------------------------------------------------------------

  /**
   * An uninstall out of order: a guard whose hook is not on top leaves the slot to its later owner and
   * reports the conflict; the guard on top puts back what it displaced.
   */
  lemma UninstallAt(w: World, mem0: Memory, id: nat, h: Hook)
    requires StacksGood(w, mem0) && GuardsGood(w) && id in w.guards && h in w.guards[id]
    ensures h.slot in mem0 && h.slot in RestoredAll(w.mem, w.guards[id])
    ensures HookAt(w.guards[id], h.slot) == Some(h) && h in w.layers[h.slot]
    ensures var a := h.slot;
            if Top(w.layers[a]) == Some(h) then
              w.mem[a] == h.replacement && RestoredAll(w.mem, w.guards[id])[a] == h.prior && !Conflicts(w.mem, h)
            else
              w.mem[a] != h.replacement && RestoredAll(w.mem, w.guards[id])[a] == w.mem[a] && Conflicts(w.mem, h)
  {
    var a, hooks := h.slot, w.guards[id];
    assert SlotGood(w, mem0, a);
    SlotPop(w.layers[a], a, mem0[a], h);
    TheHookAt(hooks, a, h);
    var i :| 0 <= i < |hooks| && hooks[i] == h;
    RestoredAllAt(w.mem, hooks, a);
  }

  lemma UninstallSlot(w: World, mem0: Memory, id: nat, a: Address)
    requires StacksGood(w, mem0) && GuardsGood(w) && id in w.guards && a in mem0
    ensures SlotGood(Step(w, Uninstall(id)), mem0, a)
  {
    assert SlotGood(w, mem0, a);
    var found := HookAt(w.guards[id], a);
    RestoredAllAt(w.mem, w.guards[id], a);
    if found.Some? {
      UninstallAt(w, mem0, id, found.value);
      SlotPop(w.layers[a], a, mem0[a], found.value);
    }
  }

  lemma UninstallStacks(w: World, mem0: Memory, id: nat)
    requires StacksGood(w, mem0) && GuardsGood(w) && id in w.guards
    ensures StacksGood(Step(w, Uninstall(id)), mem0)
  {
    forall a | a in mem0 ensures SlotGood(Step(w, Uninstall(id)), mem0, a) { UninstallSlot(w, mem0, id, a); }
    forall a ensures a in Step(w, Uninstall(id)).mem <==> a in w.mem { RestoredAllAt(w.mem, w.guards[id], a); }
  }

  /** A hook leaves its slot exactly when its guard is dropped while it is on top. */
  lemma UninstallLayers(w: World, mem0: Memory, id: nat, a: Address, h: Hook)
    requires StacksGood(w, mem0) && GuardsGood(w) && id in w.guards && a in w.layers
    ensures h in Step(w, Uninstall(id)).layers[a] <==>
            h in w.layers[a] && !(h in w.guards[id] && !Conflicts(w.mem, h))
  {
    assert SlotGood(w, mem0, a);
    var stack, hooks := w.layers[a], w.guards[id];
    if h in stack {
      OnlyOwnSlot(w, mem0, a, h);
      SlotPop(stack, a, mem0[a], h);
      if h in hooks {
        UninstallAt(w, mem0, id, h);
      }
    }
  }

  lemma UninstallLive(w: World, id: nat, h: Hook)
    requires GuardsGood(w) && id in w.guards
    ensures Live(Step(w, Uninstall(id)), h) <==> Live(w, h) && h !in w.guards[id]
  {
    var t := Step(w, Uninstall(id));
    if Live(w, h) && h !in w.guards[id] {
      var g :| g in w.guards && h in w.guards[g];
      assert g in t.guards;
    }
  }

  lemma UninstallGuards(w: World, mem0: Memory, id: nat)
    requires StacksGood(w, mem0) && GuardsGood(w) && id in w.guards
    ensures GuardsGood(Step(w, Uninstall(id)))
  {
    var t := Step(w, Uninstall(id));
    forall g, h | g in t.guards && h in t.guards[g] ensures h.slot in t.layers && h in t.layers[h.slot] {
      UninstallLayers(w, mem0, id, h.slot, h);
    }
  }

  lemma UninstallReports(w: World, mem0: Memory, id: nat)
    requires Good(w, mem0) && id in w.guards
    ensures ReportsStranded(Step(w, Uninstall(id)))
  {
    var t := Step(w, Uninstall(id));
    var hooks := w.guards[id];
    forall a, h ensures Stranded(t, a, h) <==> Stranded(w, a, h) || (h in hooks && h.slot == a && Conflicts(w.mem, h)) {
      if a in w.layers {
        UninstallLayers(w, mem0, id, a, h);
        UninstallLive(w, id, h);
        if h in w.layers[a] { OnlyOwnSlot(w, mem0, a, h); }
      }
    }
    if i :| 0 <= i < |hooks| && Conflicts(w.mem, hooks[i]) {
      assert Stranded(t, hooks[i].slot, hooks[i]);
    } else {
      assert forall h :: h in hooks ==> !Conflicts(w.mem, h);
    }
  }

  ghost predicate History(mem0: Memory, worlds: seq<World>, ops: seq<Op>) {
    && |worlds| == |ops| + 1 && worlds[0] == Start(mem0)
    && forall i :: 0 <= i < |ops| ==> Enabled(worlds[i], ops[i]) && worlds[i + 1] == Step(worlds[i], ops[i])
  }

  lemma {:induction false} HistoryGood(mem0: Memory, worlds: seq<World>, ops: seq<Op>, i: nat)
    requires History(mem0, worlds, ops) && i < |worlds|
    ensures Good(worlds[i], mem0)
    decreases i
  {
    if i == 0 {
      StartGood(mem0);
    } else {
      HistoryGood(mem0, worlds, ops, i - 1);
      var w, op := worlds[i - 1], ops[i - 1];
      if op.Install? {
        InstallStacks(w, mem0, op);
        InstallGuards(w, mem0, op);
        InstallReports(w, mem0, op);
      } else {
        UninstallStacks(w, mem0, op.id);
        UninstallGuards(w, mem0, op.id);
        UninstallReports(w, mem0, op.id);
      }
    }
  }

  /**
   * Once every guard is dropped, in whatever order, memory is back to its initial contents exactly when
   * no uninstall reported a conflict.
   */
  lemma AllDroppedIff(mem0: Memory, worlds: seq<World>, ops: seq<Op>)
    requires History(mem0, worlds, ops) && worlds[|ops|].guards == map[]
    ensures worlds[|ops|].mem == mem0 <==> !worlds[|ops|].reported
  {
    var w := worlds[|ops|];
    HistoryGood(mem0, worlds, ops, |ops|);
    forall a | a in mem0 ensures w.mem[a] == mem0[a] <==> w.layers[a] == [] {
      assert SlotGood(w, mem0, a);
    }
    if w.mem != mem0 {
      var a :| a in mem0 && w.mem[a] != mem0[a];
      assert Stranded(w, a, w.layers[a][0]);
    }
    if w.reported {
      var a, h :| Stranded(w, a, h);
      assert w.layers[a] != [];
    }
  }

  // ---- The order of the drops ---------------------------------------------------------------------------------

  ghost predicate Patches(patches: seq<Patch>, a: Address) { exists i :: 0 <= i < |patches| && patches[i].slot == a }

  /** The guards whose hooks are on slot `a` before operation `n`, oldest first, if drops kept to the order so far. */
  ghost function GuardStack(ops: seq<Op>, n: nat, a: Address): (ids: seq<nat>)
    requires n <= |ops|
  {
    if n == 0 then []
    else
      var ids := GuardStack(ops, n - 1, a);
      match ops[n - 1]
      case Install(id, patches) => if Patches(patches, a) then ids + [id] else ids
      case Uninstall(id) => if ids != [] && ids[|ids| - 1] == id then ids[..|ids| - 1] else ids
  }

  /** Operation `k`, if it drops a guard that is on slot `a`, drops the newest one there. */
  ghost predicate DropsNewest(ops: seq<Op>, k: nat, a: Address)
    requires k < |ops|
  {
    var ids := GuardStack(ops, k, a);
    ops[k].Uninstall? && ops[k].id in ids ==> ids[|ids| - 1] == ops[k].id
  }

  /** The order a caller must keep up to operation `n`: on every slot, the guards there are dropped newest first. */
  ghost predicate NewestFirst(ops: seq<Op>, n: nat)
    requires n <= |ops|
  {
    forall k: nat, a: Address :: k < n ==> DropsNewest(ops, k, a)
  }

  /** The hooks on a slot are those of the guards on it, in the same order. */
  ghost predicate Linked(w: World, ids: seq<nat>, a: Address) {
    LinkedBy(w.guards, if a in w.layers then w.layers[a] else [], ids, a)
  }

  ghost predicate LinkedBy(guards: map<nat, seq<Hook>>, stack: seq<Hook>, ids: seq<nat>, a: Address) {
    && |ids| == |stack|
    && forall i :: 0 <= i < |ids| ==> ids[i] in guards && HookAt(guards[ids[i]], a) == Some(stack[i])
  }

  lemma LinkedMore(guards: map<nat, seq<Hook>>, stack: seq<Hook>, ids: seq<nat>, a: Address, id: nat, hooks: seq<Hook>)
    requires LinkedBy(guards, stack, ids, a) && id !in guards
    ensures if HookAt(hooks, a).Some? then
              LinkedBy(guards[id := hooks], stack + [HookAt(hooks, a).value], ids + [id], a)
            else LinkedBy(guards[id := hooks], stack, ids, a)
  {}

  lemma InstallEffect(w: World, op: Op, a: Address)
    requires op.Install? && Enabled(w, op)
    ensures var t, hooks := Step(w, op), HooksOf(w.mem, op.patches);
            && t.guards == w.guards[op.id := hooks] && t.layers.Keys == w.layers.Keys
            && (a in w.layers ==>
                  t.layers[a] == if HookAt(hooks, a).Some? then w.layers[a] + [HookAt(hooks, a).value] else w.layers[a])
    ensures Patches(op.patches, a) <==> HookAt(HooksOf(w.mem, op.patches), a).Some?
  {
    var hooks := HooksOf(w.mem, op.patches);
    assert forall i :: 0 <= i < |hooks| ==> hooks[i].slot == op.patches[i].slot;
  }

  lemma LinkedInstall(w: World, mem0: Memory, op: Op, ids: seq<nat>, a: Address)
    requires StacksGood(w, mem0) && op.Install? && Enabled(w, op) && Linked(w, ids, a)
    ensures Linked(Step(w, op), if Patches(op.patches, a) then ids + [op.id] else ids, a)
  {
    InstallEffect(w, op, a);
    var found := HookAt(HooksOf(w.mem, op.patches), a);
    if found.Some? { NewHookFits(w, mem0, op, found.value); }
    LinkedMore(w.guards, if a in w.layers then w.layers[a] else [], ids, a, op.id, HooksOf(w.mem, op.patches));
  }

  lemma UninstallEffect(w: World, id: nat, a: Address)
    requires id in w.guards
    ensures var t := Step(w, Uninstall(id));
            && t.guards == w.guards - {id} && t.layers.Keys == w.layers.Keys
            && (a in w.layers ==>
                  var found := HookAt(w.guards[id], a);
                  t.layers[a] == if found.Some?
                    && Top(w.layers[a]) == found then w.layers[a][..|w.layers[a]| - 1] else w.layers[a])
  {}

  /** Dropping a guard that is not on the slot leaves its stack linked. */
  lemma DropElsewhere(w: World, id: nat, ids: seq<nat>, a: Address)
    requires GuardsGood(w) && id in w.guards && Linked(w, ids, a) && id !in ids
    ensures HookAt(w.guards[id], a).None? && Linked(Step(w, Uninstall(id)), ids, a)
  {
    if HookAt(w.guards[id], a).Some? {
      var h := HookAt(w.guards[id], a).value;
      assert a in w.layers;
      FoundInStack(w, id, ids, a);
    }
    UninstallEffect(w, id, a);
  }

  /** Dropping the newest guard on the slot pops its stack and reports nothing there. */
  lemma DropNewest(w: World, mem0: Memory, id: nat, ids: seq<nat>, a: Address)
    requires StacksGood(w, mem0) && GuardsGood(w) && id in w.guards && Linked(w, ids, a)
    requires ids != [] && ids[|ids| - 1] == id
    ensures HookAt(w.guards[id], a).Some? && !Conflicts(w.mem, HookAt(w.guards[id], a).value)
    ensures Linked(Step(w, Uninstall(id)), ids[..|ids| - 1], a)
  {
    UninstallAt(w, mem0, id, HookAt(w.guards[id], a).value);
    LinkedOnce(w, mem0, ids, a);
    UninstallEffect(w, id, a);
    LinkedLess(w.guards, w.layers[a], ids, a, id);
  }

  lemma LinkedLess(guards: map<nat, seq<Hook>>, stack: seq<Hook>, ids: seq<nat>, a: Address, id: nat)
    requires LinkedBy(guards, stack, ids, a) && ids != [] && ids[|ids| - 1] == id
    requires forall i, j :: 0 <= i < j < |ids| ==> ids[i] != ids[j]
    ensures LinkedBy(guards - {id}, stack[..|stack| - 1], ids[..|ids| - 1], a)
  {}

  lemma LinkedUninstall(w: World, mem0: Memory, id: nat, ids: seq<nat>, a: Address)
    requires StacksGood(w, mem0) && GuardsGood(w) && id in w.guards && Linked(w, ids, a)
    requires id in ids ==> ids[|ids| - 1] == id
    ensures Linked(Step(w, Uninstall(id)), if id in ids then ids[..|ids| - 1] else ids, a)
    ensures HookAt(w.guards[id], a).Some? ==> !Conflicts(w.mem, HookAt(w.guards[id], a).value)
  {
    if id in ids { DropNewest(w, mem0, id, ids, a); } else { DropElsewhere(w, id, ids, a); }
  }

  /** A guard with a hook on the slot is on its guard stack. */
  lemma FoundInStack(w: World, id: nat, ids: seq<nat>, a: Address)
    requires GuardsGood(w) && id in w.guards && Linked(w, ids, a) && HookAt(w.guards[id], a).Some?
    ensures id in ids
  {
    var h := HookAt(w.guards[id], a).value;
    var i :| 0 <= i < |w.layers[a]| && w.layers[a][i] == h;
    assert ids[i] in w.guards && h in w.guards[ids[i]];
  }

  /** No guard is twice on one slot. */
  lemma LinkedOnce(w: World, mem0: Memory, ids: seq<nat>, a: Address)
    requires StacksGood(w, mem0) && Linked(w, ids, a)
    ensures forall i, j :: 0 <= i < j < |ids| ==> ids[i] != ids[j]
  {
    if a in w.layers {
      assert SlotGood(w, mem0, a);
      forall i, j | 0 <= i < j < |ids| ensures ids[i] != ids[j] { StackDistinct(w.layers[a], a, mem0[a], i, j); }
    }
  }

  lemma {:induction false} StackDistinct(stack: seq<Hook>, a: Address, initial: nat, i: nat, j: nat)
    requires IsStack(stack, a, initial) && i < j < |stack|
    ensures stack[i] != stack[j]
    decreases |stack|
  {
    if j < |stack| - 1 {
      StackDistinct(stack[..|stack| - 1], a, initial, i, j);
    } else {
      assert stack[i] in stack[..|stack| - 1];
    }
  }

  /**
   * As long as drops keep to the order, the guard stacks read off the operations are the real ones and
   * nothing is reported.
   */
  lemma {:induction false} OrderKept(mem0: Memory, worlds: seq<World>, ops: seq<Op>, n: nat)
    requires History(mem0, worlds, ops) && n <= |ops| && NewestFirst(ops, n)
    ensures !worlds[n].reported && forall a :: Linked(worlds[n], GuardStack(ops, n, a), a)
    decreases n
  {
    if n > 0 {
      var w, op := worlds[n - 1], ops[n - 1];
      OrderKept(mem0, worlds, ops, n - 1);
      HistoryGood(mem0, worlds, ops, n - 1);
      forall a ensures Linked(worlds[n], GuardStack(ops, n, a), a) {
        OrderKeptAt(mem0, worlds, ops, n, a);
      }
      if op.Uninstall? {
        forall i | 0 <= i < |w.guards[op.id]| ensures !Conflicts(w.mem, w.guards[op.id][i]) {
          var h := w.guards[op.id][i];
          TheHookAt(w.guards[op.id], h.slot, h);
          OrderKeptAt(mem0, worlds, ops, n, h.slot);
        }
      }
    }
  }

  lemma OrderKeptAt(mem0: Memory, worlds: seq<World>, ops: seq<Op>, n: nat, a: Address)
    requires History(mem0, worlds, ops) && 0 < n <= |ops| && DropsNewest(ops, n - 1, a)
    requires Good(worlds[n - 1], mem0) && Linked(worlds[n - 1], GuardStack(ops, n - 1, a), a)
    ensures Linked(worlds[n], GuardStack(ops, n, a), a)
    ensures ops[n - 1].Uninstall? && HookAt(worlds[n - 1].guards[ops[n - 1].id], a).Some? ==>
              !Conflicts(worlds[n - 1].mem, HookAt(worlds[n - 1].guards[ops[n - 1].id], a).value)
  {
    var w, op, ids := worlds[n - 1], ops[n - 1], GuardStack(ops, n - 1, a);
    if op.Install? {
      LinkedInstall(w, mem0, op, ids, a);
    } else {
      LinkedUninstall(w, mem0, op.id, ids, a);
    }
  }

  /** Dropping a guard under a newer one on the slot is reported. */
  lemma DropCovered(w: World, mem0: Memory, id: nat, ids: seq<nat>, a: Address)
    requires StacksGood(w, mem0) && GuardsGood(w) && id in w.guards && Linked(w, ids, a)
    requires id in ids && ids[|ids| - 1] != id
    ensures Step(w, Uninstall(id)).reported
  {
    var i :| 0 <= i < |ids| && ids[i] == id;
    NotOnTop(w, mem0, ids, a, i);
    UninstallAt(w, mem0, id, w.layers[a][i]);
    ConflictReported(w, id, w.layers[a][i]);
  }

  lemma NotOnTop(w: World, mem0: Memory, ids: seq<nat>, a: Address, i: nat)
    requires StacksGood(w, mem0) && Linked(w, ids, a) && i < |ids| - 1
    ensures a in w.layers && i < |w.layers[a]| && w.layers[a][i] in w.guards[ids[i]] && w.layers[a][i].slot == a
    ensures Top(w.layers[a]) != Some(w.layers[a][i])
  {
    assert a in w.layers && SlotGood(w, mem0, a);
    assert HookAt(w.guards[ids[i]], a) == Some(w.layers[a][i]);
    StackDistinct(w.layers[a], a, mem0[a], i, |ids| - 1);
  }

  lemma ConflictReported(w: World, id: nat, h: Hook)
    requires id in w.guards && h in w.guards[id] && Conflicts(w.mem, h)
    ensures Step(w, Uninstall(id)).reported
  {
    var j :| 0 <= j < |w.guards[id]| && w.guards[id][j] == h;
    assert Conflicts(w.mem, w.guards[id][j]);
  }

  /** The first drop out of order is reported. */
  lemma OrderBroken(mem0: Memory, worlds: seq<World>, ops: seq<Op>, k: nat, a: Address)
    requires History(mem0, worlds, ops) && k < |ops| && NewestFirst(ops, k) && !DropsNewest(ops, k, a)
    ensures worlds[k + 1].reported
  {
    OrderKept(mem0, worlds, ops, k);
    HistoryGood(mem0, worlds, ops, k);
    DropCovered(worlds[k], mem0, ops[k].id, GuardStack(ops, k, a), a);
  }

  lemma {:induction false} ReportsStay(mem0: Memory, worlds: seq<World>, ops: seq<Op>, i: nat, j: nat)
    requires History(mem0, worlds, ops) && i <= j < |worlds| && worlds[i].reported
    ensures worlds[j].reported
    decreases j
  {
    if i < j { ReportsStay(mem0, worlds, ops, i, j - 1); }
  }

  /** Before the first operation out of order, if there is one. */
  lemma {:induction false} FirstOutOfOrder(ops: seq<Op>, n: nat) returns (k: nat, a: Address)
    requires n <= |ops| && !NewestFirst(ops, n)
    ensures k < n && NewestFirst(ops, k) && !DropsNewest(ops, k, a)
    decreases n
  {
    if NewestFirst(ops, n - 1) {
      k := n - 1;
      a :| !DropsNewest(ops, k, a);
    } else {
      k, a := FirstOutOfOrder(ops, n - 1);
    }
  }

  /** Uninstalls report no conflict exactly when, on every slot, guards are dropped newest first. */
  lemma NoReportIffNewestFirst(mem0: Memory, worlds: seq<World>, ops: seq<Op>)
    requires History(mem0, worlds, ops)
    ensures !worlds[|ops|].reported <==> NewestFirst(ops, |ops|)
  {
    if NewestFirst(ops, |ops|) {
      OrderKept(mem0, worlds, ops, |ops|);
    } else {
      var k, a := FirstOutOfOrder(ops, |ops|);
      OrderBroken(mem0, worlds, ops, k, a);
      ReportsStay(mem0, worlds, ops, k + 1, |ops|);
    }
  }

  /**
   * Once every guard is dropped, memory is back to its initial contents exactly when, on every slot, the
   * guards there were dropped in reverse order of installation.
   */
  lemma RestoredIffNewestFirst(mem0: Memory, worlds: seq<World>, ops: seq<Op>)
    requires History(mem0, worlds, ops) && worlds[|ops|].guards == map[]
    ensures worlds[|ops|].mem == mem0 <==> NewestFirst(ops, |ops|)
  {
    AllDroppedIff(mem0, worlds, ops);
    NoReportIffNewestFirst(mem0, worlds, ops);
  }

  /** In any history, a guard covered by a later one on some slot never touches it, and says so. */
  lemma CoveredGuardReports(mem0: Memory, worlds: seq<World>, ops: seq<Op>, i: nat, h: Hook)
    requires History(mem0, worlds, ops) && i < |ops| && ops[i].Uninstall? && h in worlds[i].guards[ops[i].id]
    requires h.slot in worlds[i].mem ==> worlds[i].mem[h.slot] != h.replacement
    ensures h.slot in worlds[i + 1].mem && h.slot in worlds[i].mem
    ensures worlds[i + 1].mem[h.slot] == worlds[i].mem[h.slot] && worlds[i + 1].reported
  {
    HistoryGood(mem0, worlds, ops, i);
    UninstallAt(worlds[i], mem0, ops[i].id, h);
    var hooks := worlds[i].guards[ops[i].id];
    var k :| 0 <= k < |hooks| && hooks[k] == h;
    assert Conflicts(worlds[i].mem, hooks[k]);
  }
}
