/** When a live installation's slots stay hooked, and the run in which they do not. */
module Stragglers {
  import opened Wrappers
  import opened Dispatch
  import opened Installs

  /** Some outstanding guard is on slot `x`. */
  ghost predicate Covered(s: State, x: Slot) { exists g :: OnSlot(s, g, x) }

  ghost predicate OnSlot(s: State, g: GuardId, x: Slot) { g in s.guards && x in s.guards[g].slots }

  /** Every guard on `x` finds it holding the shim. */
  ghost predicate Hooked(env: Env, s: State, x: Slot) { Covered(s, x) ==> s.mem(x) == env.shim(x) }

  /** The step uninstalls the guard that found `x` unhooked while another guard is still on `x`. */
  ghost predicate Strips(env: Env, s: State, e: Event, x: Slot)
    requires Enabled(s, e)
  {
    e.Uninstall? && Restorer(env, s, e.g, x) && exists h :: h != e.g && OnSlot(s, h, x)
  }

  lemma GuardsBefore(env: Env, s: State, e: Event, g: GuardId, x: Slot)
    requires Enabled(s, e) && s.nextGuard !in s.guards
    ensures OnSlot(Step(env, s, e), g, x) <==>
            if Patches(s, e).Some? && g == s.nextGuard then x in Hookable(env, Patches(s, e).value.1)
            else OnSlot(s, g, x) && !(e.Uninstall? && e.g == g)
  {}

  /** A step keeps a hooked slot hooked exactly when it does not strip it. */
  lemma StepKeepsHookedIff(env: Env, s: State, e: Event, x: Slot)
    requires Enabled(s, e) && SlotOk(env, s, x) && s.nextGuard !in s.guards && Unhooked(env) && Hooked(env, s, x)
    ensures Hooked(env, Step(env, s, e), x) <==> !Strips(env, s, e, x)
  {
    var t := Step(env, s, e);
    forall g ensures OnSlot(t, g, x) <==>
        if Patches(s, e).Some? && g == s.nextGuard then x in Hookable(env, Patches(s, e).value.1)
        else OnSlot(s, g, x) && !(e.Uninstall? && e.g == g) {
      GuardsBefore(env, s, e, g, x);
    }
    if Patches(s, e).Some? {
      PatchHooks(env, s, e, x);
    } else if e.Uninstall? {
      UninstallHooks(env, s, e, x);
    } else {
      assert t.mem == s.mem;
    }
  }

  lemma PatchHooks(env: Env, s: State, e: Event, x: Slot)
    requires Enabled(s, e) && Patches(s, e).Some? && Hooked(env, s, x)
    requires forall g :: OnSlot(Step(env, s, e), g, x) ==>
               OnSlot(s, g, x) || x in Hookable(env, Patches(s, e).value.1)
    ensures Hooked(env, Step(env, s, e), x)
  {}

  lemma UninstallHooks(env: Env, s: State, e: Event, x: Slot)
    requires Enabled(s, e) && e.Uninstall? && SlotOk(env, s, x) && Unhooked(env) && Hooked(env, s, x)
    requires forall g :: OnSlot(Step(env, s, e), g, x) <==> OnSlot(s, g, x) && g != e.g
    ensures Hooked(env, Step(env, s, e), x) <==> !Strips(env, s, e, x)
  {
    var t := Step(env, s, e);
    if Restorer(env, s, e.g, x) {
      assert s.mem(x) == env.shim(x) && t.mem(x) == env.unhooked(x);
    } else {
      assert OnSlot(s, e.g, x) ==> s.guards[e.g].prior(x) == env.shim(x);
      assert t.mem(x) == s.mem(x);
    }
  }

  /**
   * Over a whole run, a slot with an outstanding guard is always hooked if and only if no guard that found
   * it unhooked is ever uninstalled from under another.
   */
  lemma StaysHookedIff(env: Env, events: seq<Event>, states: seq<State>, x: Slot)
    requires IsRun(env, events, states)
    ensures (forall k: nat :: k <= |events| ==> Hooked(env, states[k], x)) <==>
            (forall k: nat :: k < |events| ==> Enabled(states[k], events[k]) && !Strips(env, states[k], events[k], x))
  {
    forall k: nat | k < |events|
      ensures Enabled(states[k], events[k]) && states[k + 1] == Step(env, states[k], events[k]) {
      assert Follows(env, states[k], events[k], states[k + 1]);
    }
    if forall k: nat :: k <= |events| ==> Hooked(env, states[k], x) {
      forall k: nat | k < |events| ensures !Strips(env, states[k], events[k], x) {
        StepHookedInRun(env, events, states, k, x);
        assert Hooked(env, states[k], x) && Hooked(env, states[k + 1], x);
      }
    }
    if forall k: nat :: k < |events| ==> Enabled(states[k], events[k]) && !Strips(env, states[k], events[k], x) {
      forall k: nat | k <= |events| ensures Hooked(env, states[k], x) { HookedUpTo(env, events, states, k, x); }
    }
  }

  lemma StepHookedInRun(env: Env, events: seq<Event>, states: seq<State>, k: nat, x: Slot)
    requires IsRun(env, events, states) && k < |events|
    ensures Enabled(states[k], events[k])
    ensures Hooked(env, states[k], x) ==> (Hooked(env, states[k + 1], x) <==> !Strips(env, states[k], events[k], x))
  {
    RunsKeepInv(env, events, states, k);
    assert Follows(env, states[k], events[k], states[k + 1]);
    assert SlotOk(env, states[k], x) && GuardOk(env, states[k], states[k].nextGuard);
    if Hooked(env, states[k], x) { StepKeepsHookedIff(env, states[k], events[k], x); }
  }

  lemma {:induction false} HookedUpTo(env: Env, events: seq<Event>, states: seq<State>, k: nat, x: Slot)
    requires IsRun(env, events, states) && k <= |events|
    requires forall j: nat :: j < |events| ==> Enabled(states[j], events[j]) && !Strips(env, states[j], events[j], x)
    ensures Hooked(env, states[k], x)
  {
    if k > 0 {
      HookedUpTo(env, events, states, k - 1, x);
      StepHookedInRun(env, events, states, k - 1, x);
    }
  }

  // ---- The same by age: guards are numbered as they are made ------------------------------------------------------

  ghost predicate Oldest(s: State, g: GuardId, x: Slot) {
    OnSlot(s, g, x) && forall h :: OnSlot(s, h, x) ==> g <= h
  }

  /** The step uninstalls the oldest guard on `x` while another is still on it. */
  ghost predicate TakesOldest(s: State, e: Event, x: Slot) {
    e.Uninstall? && Oldest(s, e.g, x) && exists h :: h != e.g && OnSlot(s, h, x)
  }

  /** The guard that found `x` unhooked is the oldest one there. */
  ghost predicate OldestRestores(env: Env, s: State, x: Slot) {
    forall g :: OnSlot(s, g, x) ==> (Restorer(env, s, g, x) <==> Oldest(s, g, x))
  }

  ghost predicate Numbered(s: State) { forall g :: g in s.guards ==> g < s.nextGuard }

  lemma InvNumbers(env: Env, s: State)
    requires Inv(env, s)
    ensures Numbered(s)
  {
    forall g | g in s.guards ensures g < s.nextGuard { assert GuardOk(env, s, g); }
  }

  /** A guard that was there still remembers what it found. */
  lemma PriorStays(env: Env, s: State, e: Event, g: GuardId, x: Slot)
    requires Enabled(s, e) && g in s.guards && g in Step(env, s, e).guards && Numbered(s)
    ensures OnSlot(Step(env, s, e), g, x) <==> OnSlot(s, g, x)
    ensures Restorer(env, Step(env, s, e), g, x) <==> Restorer(env, s, g, x)
  {
    OldGuard(env, s, e, Step(env, s, e), g);
  }

  /** A patch over a hooked slot makes a guard that is neither the oldest nor the one that found it unhooked. */
  lemma PatchOldest(env: Env, s: State, e: Event, x: Slot)
    requires Enabled(s, e) && Patches(s, e).Some? && SlotOk(env, s, x) && Unhooked(env) && Numbered(s)
    requires Hooked(env, s, x) && OldestRestores(env, s, x)
    ensures OldestRestores(env, Step(env, s, e), x)
  {
    var t := Step(env, s, e);
    assert forall g :: OnSlot(s, g, x) ==> OnSlot(t, g, x);
    forall g | OnSlot(t, g, x) ensures Restorer(env, t, g, x) <==> Oldest(t, g, x) {
      if g == s.nextGuard {
        NewGuard(env, s, e, t, g);
        if Covered(s, x) {
          var h :| OnSlot(s, h, x);
          assert OnSlot(t, h, x) && h < g && s.mem(x) == env.shim(x);
        } else {
          forall h | OnSlot(t, h, x) ensures h == g { assert h == g || OnSlot(s, h, x); }
          assert s.mem(x) == env.unhooked(x);
        }
      } else {
        PriorStays(env, s, e, g, x);
        forall h | OnSlot(t, h, x) && Oldest(s, g, x) ensures g <= h { assert h == s.nextGuard || OnSlot(s, h, x); }
      }
    }
  }

  /** While some guard is on `x` one of them restores it, so it stays the oldest when another goes. */
  lemma OthersOldest(env: Env, s: State, e: Event, x: Slot)
    requires Enabled(s, e) && Patches(s, e).None? && SlotOk(env, s, x) && Unhooked(env) && Numbered(s)
    requires Hooked(env, s, x) && Hooked(env, Step(env, s, e), x) && OldestRestores(env, s, x)
    ensures OldestRestores(env, Step(env, s, e), x)
  {
    var t := Step(env, s, e);
    forall g | OnSlot(t, g, x) ensures Restorer(env, t, g, x) <==> Oldest(t, g, x) {
      assert Covered(t, x);
      PriorStays(env, s, e, g, x);
      assert Covered(s, x);
      var r :| Restorer(env, s, r, x);
      assert Oldest(s, r, x);
      RestorerStays(env, s, e, r, x);
      assert Restorer(env, s, g, x) <==> g == r;
      forall h | OnSlot(t, h, x) ensures OnSlot(s, h, x) { PriorStays(env, s, e, h, x); }
    }
  }

  /** The guard that found `x` unhooked is still there if `x` is hooked and covered afterwards. */
  lemma RestorerStays(env: Env, s: State, e: Event, r: GuardId, x: Slot)
    requires Enabled(s, e) && Patches(s, e).None? && Unhooked(env) && Numbered(s)
    requires Restorer(env, s, r, x) && s.mem(x) == env.shim(x) && Step(env, s, e).mem(x) == env.shim(x)
    ensures OnSlot(Step(env, s, e), r, x)
  {
    OldGuard(env, s, e, Step(env, s, e), r);
  }

  lemma {:induction false} HookedMeansOldest(env: Env, events: seq<Event>, states: seq<State>, k: nat, x: Slot)
    requires IsRun(env, events, states) && k <= |events|
    requires forall j: nat :: j <= k ==> Hooked(env, states[j], x)
    ensures OldestRestores(env, states[k], x)
  {
    if k > 0 {
      HookedMeansOldest(env, events, states, k - 1, x);
      RunsKeepInv(env, events, states, k - 1);
      assert Follows(env, states[k - 1], events[k - 1], states[k]);
      InvNumbers(env, states[k - 1]);
      assert SlotOk(env, states[k - 1], x);
      assert Hooked(env, states[k - 1], x);
      if Patches(states[k - 1], events[k - 1]).Some? {
        PatchOldest(env, states[k - 1], events[k - 1], x);
      } else {
        OthersOldest(env, states[k - 1], events[k - 1], x);
      }
    }
  }

  lemma StripsIsTakesOldest(env: Env, s: State, e: Event, x: Slot)
    requires Enabled(s, e) && OldestRestores(env, s, x)
    ensures Strips(env, s, e, x) <==> TakesOldest(s, e, x)
  {}

  lemma {:induction false} HookedByOrder(env: Env, events: seq<Event>, states: seq<State>, k: nat, x: Slot)
    requires IsRun(env, events, states) && k <= |events|
    requires forall j: nat :: j < |events| ==> !TakesOldest(states[j], events[j], x)
    ensures forall j: nat :: j <= k ==> Hooked(env, states[j], x)
  {
    if k > 0 {
      HookedByOrder(env, events, states, k - 1, x);
      HookedMeansOldest(env, events, states, k - 1, x);
      StepHookedInRun(env, events, states, k - 1, x);
      StripsIsTakesOldest(env, states[k - 1], events[k - 1], x);
    }
  }

  /**
   * Hence by order alone: over a whole run a slot with an outstanding guard is always hooked if and only if
   * the oldest guard on it is never uninstalled while another is on it.
   */
  lemma StaysHookedByOrderIff(env: Env, events: seq<Event>, states: seq<State>, x: Slot)
    requires IsRun(env, events, states)
    ensures (forall k: nat :: k <= |events| ==> Hooked(env, states[k], x)) <==>
            (forall k: nat :: k < |events| ==> !TakesOldest(states[k], events[k], x))
  {
    if forall k: nat :: k <= |events| ==> Hooked(env, states[k], x) {
      StaysHookedIff(env, events, states, x);
      forall k: nat | k < |events| ensures !TakesOldest(states[k], events[k], x) {
        HookedMeansOldest(env, events, states, k, x);
        StripsIsTakesOldest(env, states[k], events[k], x);
      }
    }
    if forall k: nat :: k < |events| ==> !TakesOldest(states[k], events[k], x) {
      HookedByOrder(env, events, states, |events|, x);
    }
  }

  // ---- Without stragglers -------------------------------------------------------------------------------------------

  /** Every rescan under way works for an installation that is live. */
  ghost predicate NoStragglers(s: State) {
    forall t :: t in s.rescans ==> StageOf(s, s.rescans[t].id).Live?
  }

  /** No guard outlives its installation, and one that is ending has taken all of its guards. */
  ghost predicate Tidy(s: State, g: GuardId) {
    g in s.guards ==>
      var stage := StageOf(s, s.guards[g].owner);
      !stage.Ended? && (stage.Unwinding? ==> s.guards[g].kept.Taken?)
  }

  /** Once an installation is ending, its guards are all taken. */
  lemma TakenWhenEnding(env: Env, s: State, e: Event, g: GuardId)
    requires Enabled(s, e) && Inv(env, s) && NoStragglers(Step(env, s, e)) && Tidy(s, g)
    requires g in s.guards && Takes(e) == Some(s.guards[g].owner)
    ensures KeptAfter(s, e, g).Taken?
  {
    assert GuardOk(env, s, g);
    forall t | t in s.rescans ensures s.rescans[t].g != Some(g) {
      assert RescanOk(s, t);
      RescanEnds(env, s, e, t);
    }
    assert !InRescan(s, g);
  }

  /** A rescan of an installation whose guards are taken would outlive it. */
  lemma RescanEnds(env: Env, s: State, e: Event, t: Thread)
    requires Enabled(s, e) && NoStragglers(Step(env, s, e)) && t in s.rescans && RescanHome(s, t)
    ensures Takes(e) != Some(s.rescans[t].id)
  {
    assert e.BeginDrop? ==> t in Step(env, s, e).rescans;
  }

  /** An installation is ending only after its guards were taken, and ended only when finished. */
  lemma StageMoves(env: Env, s: State, e: Event, s': State, id: Id)
    requires Enabled(s, e) && s.nextId !in s.installs && In(s, id) && s'.installs == InstallsAfter(env, s, e)
    ensures StageOf(s', id).Ended? ==> StageOf(s, id).Ended? || (e == Finish(id) && StageOf(s, id).Unwinding?)
    ensures StageOf(s', id).Unwinding? ==> StageOf(s, id).Unwinding? || Takes(e) == Some(id)
    ensures StageOf(s, id).Unwinding? ==> StageOf(s', id).Unwinding? || e == Finish(id)
  {
    if !Acts(env, s, e, id) { OtherInstall(env, s, e, s', id); }
  }

  lemma TidyOld(env: Env, s: State, e: Event, g: GuardId)
    requires Enabled(s, e) && Inv(env, s) && NoStragglers(s) && NoStragglers(Step(env, s, e)) && Tidy(s, g)
    requires g in s.guards && g in Step(env, s, e).guards
    ensures Tidy(Step(env, s, e), g)
  {
    var owner := s.guards[g].owner;
    ProtocolGives(env, s, e);
    assert GuardOk(env, s, g);
    OldGuard(env, s, e, Step(env, s, e), g);
    StageMoves(env, s, e, Step(env, s, e), owner);
    if Takes(e) == Some(owner) { TakenWhenEnding(env, s, e, g); }
    if Collects(s, e) == Some(g) { CollectedOwner(s, e, g); CollectedHeld(env, s, e, g); }
    if e == Finish(owner) { FinishedHasNone(s, e, g); }
  }

  lemma FinishedHasNone(s: State, e: Event, g: GuardId)
    requires Enabled(s, e) && g in s.guards && e == Finish(s.guards[g].owner)
    ensures !s.guards[g].kept.Taken?
  {}

  lemma CollectedHeld(env: Env, s: State, e: Event, g: GuardId)
    requires Enabled(s, e) && Inv(env, s) && Collects(s, e) == Some(g)
    ensures g in s.guards && s.guards[g].kept.InHand?
  {
    ProtocolGives(env, s, e);
  }

  lemma StepKeepsTidy(env: Env, s: State, e: Event, g: GuardId)
    requires Enabled(s, e) && Inv(env, s) && NoStragglers(s) && NoStragglers(Step(env, s, e)) && Tidy(s, g)
    ensures Tidy(Step(env, s, e), g)
  {
    var t := Step(env, s, e);
    if g in t.guards && g in s.guards {
      TidyOld(env, s, e, g);
    } else if g in t.guards {
      ProtocolGives(env, s, e);
      NewGuard(env, s, e, t, g);
      TidyNew(env, s, e);
    }
  }

  /** A patch is made for an installation that is in its first pass or live. */
  lemma TidyNew(env: Env, s: State, e: Event)
    requires Enabled(s, e) && Inv(env, s) && NoStragglers(s) && Patches(s, e).Some?
    ensures var stage := StageOf(Step(env, s, e), Patches(s, e).value.0); !stage.Ended? && !stage.Unwinding?
  {
    ProtocolGives(env, s, e);
    NewOwner(s, e);
    StageMoves(env, s, e, Step(env, s, e), Patches(s, e).value.0);
  }

  /** While the published installation is not ending, every slot is hooked. */
  ghost predicate Steady(env: Env, s: State, x: Slot) {
    s.active.Some? && !StageOf(s, s.active.value).Unwinding? ==> Hooked(env, s, x)
  }

  /** Tidy guards belong to the published installation. */
  lemma TidyOwner(env: Env, s: State, g: GuardId)
    requires Inv(env, s) && Tidy(s, g) && g in s.guards
    ensures s.active == Some(s.guards[g].owner)
  {
    assert GuardOk(env, s, g) && TokenOk(s, s.guards[g].owner);
  }

  lemma StepKeepsSteady(env: Env, s: State, e: Event, x: Slot)
    requires Enabled(s, e) && Inv(env, s) && Unhooked(env) && Steady(env, s, x) && forall g :: Tidy(s, g)
    ensures Steady(env, Step(env, s, e), x)
  {
    var t := Step(env, s, e);
    ProtocolGives(env, s, e);
    forall g | g in s.guards ensures s.active == Some(s.guards[g].owner) {
      assert Tidy(s, g);
      TidyOwner(env, s, g);
    }
    assert SlotOk(env, s, x) && GuardOk(env, s, s.nextGuard);
    if e.Activate? {
      assert Patches(s, e).None? && !Covered(t, x);
    } else if t.active.Some? && !StageOf(t, t.active.value).Unwinding? {
      assert t.active == s.active;
      StageMoves(env, s, e, t, s.active.value);
      assert e.Uninstall? ==> Tidy(s, e.g);
      StepKeepsHookedIff(env, s, e, x);
    }
  }

  lemma {:induction false} TidyAndSteady(env: Env, events: seq<Event>, states: seq<State>, k: nat)
    requires IsRun(env, events, states) && k <= |events| && forall j: nat :: j <= k ==> NoStragglers(states[j])
    ensures (forall g :: Tidy(states[k], g)) && forall x :: Steady(env, states[k], x)
  {
    if k > 0 {
      TidyAndSteady(env, events, states, k - 1);
      RunsKeepInv(env, events, states, k - 1);
      var s, e := states[k - 1], events[k - 1];
      assert Follows(env, s, e, states[k]) && NoStragglers(states[k - 1]);
      forall g ensures Tidy(states[k], g) { StepKeepsTidy(env, s, e, g); }
      forall x ensures Steady(env, states[k], x) { StepKeepsSteady(env, s, e, x); }
    }
  }

  /**
   * What a caller can rely on: as long as no rescan is under way for an installation that is no longer
   * live, every slot of an installation that is not ending holds its shim.
   */
  lemma LiveStaysHooked(env: Env, events: seq<Event>, states: seq<State>, k: nat, g: GuardId, x: Slot)
    requires IsRun(env, events, states) && k <= |events| && forall j: nat :: j <= k ==> NoStragglers(states[j])
    requires OnSlot(states[k], g, x) && !StageOf(states[k], states[k].guards[g].owner).Unwinding?
    ensures states[k].mem(x) == env.shim(x)
  {
    TidyAndSteady(env, events, states, k);
    RunsKeepInv(env, events, states, k);
    assert Tidy(states[k], g) && Steady(env, states[k], x);
    TidyOwner(env, states[k], g);
  }

  // ---- The run in which a live installation loses its hooks -----------------------------------------------------

  ghost predicate Reachable(env: Env, s: State) {
    exists events, states :: IsRun(env, events, states) && states[|events|] == s
  }

  lemma Reach(env: Env, s: State, e: Event)
    requires Reachable(env, s) && Enabled(s, e)
    ensures Reachable(env, Step(env, s, e))
  {
    var events, states :| IsRun(env, events, states) && states[|events|] == s;
    var es, ss := events + [e], states + [Step(env, s, e)];
    forall i: nat | i < |es| ensures Follows(env, ss[i], es[i], ss[i + 1]) {
      if i < |events| { assert Follows(env, states[i], events[i], states[i + 1]); }
    }
    assert IsRun(env, es, ss) && ss[|es|] == Step(env, s, e);
  }

  lemma ReachInitial(env: Env, s: State)
    requires Unhooked(env) && Initial(env, s)
    ensures Reachable(env, s)
  {
    var none: seq<Event> := [];
    assert IsRun(env, none, [s]);
  }

  /** One symbol, resolvable, hooked at slot `x` of module `b`. */
  ghost predicate OneSlot(env: Env, b: Base, x: Slot) {
    Unhooked(env) && env.all == {env.symbol(x)} && env.lookup(env.symbol(x)) != 0 && env.slots(b) == {x}
  }

  lemma OneSlotHookable(env: Env, b: Base, x: Slot)
    requires OneSlot(env, b, x)
    ensures Hookable(env, b) == {x}
  {}

  /** A step that touches no slot and moves no guard. */
  ghost predicate Quiet(s: State, e: Event)
    requires Enabled(s, e)
  {
    Patches(s, e).None? && Collects(s, e).None? && Takes(e).None? && !e.Uninstall?
  }

  lemma QuietGuards(env: Env, s: State, e: Event)
    requires Enabled(s, e) && Quiet(s, e)
    ensures GuardsAfter(env, s, e) == s.guards && MemAfter(env, s, e) == s.mem
  {
    forall g | g in s.guards ensures GuardsAfter(env, s, e)[g] == s.guards[g] {}
  }

  lemma QuietStep(env: Env, s: State, e: Event) returns (t: State)
    requires Reachable(env, s) && Enabled(s, e) && Quiet(s, e)
    ensures Reachable(env, t) && t.mem == s.mem && t.guards == s.guards && t.nextGuard == s.nextGuard
    ensures t.active == ActiveAfter(s, e) && t.installs == InstallsAfter(env, s, e)
    ensures t.rescans == RescansAfter(s, e)
    ensures t.nextId == s.nextId + (if e.Activate? then 1 else 0)
  {
    t := Step(env, s, e);
    Reach(env, s, e);
    QuietGuards(env, s, e);
  }

  /** A fresh activation looks its one symbol up and is ready to patch. */
  lemma Started(env: Env, s: State, todo: seq<Base>, sym: Sym) returns (t: State)
    requires Reachable(env, s) && s.active == None && s.nextId !in s.installs && Distinct(todo) && env.all == {sym}
    ensures Reachable(env, t) && t.active == Some(s.nextId) && t.nextId == s.nextId + 1
    ensures t.installs == s.installs[s.nextId := Install(Patching, todo, {})]
    ensures t.mem == s.mem && t.guards == s.guards && t.nextGuard == s.nextGuard && t.rescans == s.rescans
  {
    var id := s.nextId;
    var s1 := QuietStep(env, s, Activate(todo));
    var s2 := QuietStep(env, s1, Resolve(id, sym));
    assert StageOf(s2, id) == Resolving({});
    t := QuietStep(env, s2, Resolved(id));
  }

  /** The first installation claims the module on a rescan, and ends before the rescan patches it. */
  lemma Straggles(env: Env, s: State, b: Base, t: Thread, id: Id) returns (u: State)
    requires Reachable(env, s) && s.active == Some(id) && s.guards == map[] && s.rescans == map[]
    requires s.installs == map[id := Install(Patching, [], {})]
    ensures Reachable(env, u) && u.active == None && u.guards == map[] && u.mem == s.mem
    ensures u.nextId == s.nextId && u.nextGuard == s.nextGuard
    ensures u.installs == map[id := Install(Ended(false), [], {b})] && u.rescans == map[t := Rescan(id, b, None)]
  {
    var s1 := QuietStep(env, s, GoLive(id));
    var s2 := QuietStep(env, s1, Claim(t, id, b));
    var noted: set<Base> := {};
    assert noted + {b} == {b};
    assert s2.installs[id] == Install(Live, [], {b});
    var s3 := DropsNothing(env, s2, id);
    u := QuietStep(env, s3, Finish(id));
  }

  lemma DropsNothing(env: Env, s: State, id: Id) returns (t: State)
    requires Reachable(env, s) && id in s.installs && s.installs[id].stage == Live && s.guards == map[]
    ensures Reachable(env, t) && t.mem == s.mem && t.guards == map[] && t.nextGuard == s.nextGuard
            && t.nextId == s.nextId
    ensures t.active == s.active && t.rescans == s.rescans
    ensures t.installs == s.installs[id := s.installs[id].(stage := Unwinding(false))]
  {
    t := Step(env, s, BeginDrop(id));
    Reach(env, s, BeginDrop(id));
  }

  /** The second installation patches the module over the straggler's patch and goes live. */
  lemma PatchesOver(env: Env, s: State, b: Base, x: Slot, id: Id, g0: GuardId) returns (u: State)
    requires Reachable(env, s) && OneSlot(env, b, x) && id in s.installs && s.installs[id] == Install(Patching, [b], {})
    requires g0 in s.guards && s.guards[g0].kept.InHand? && s.nextGuard !in s.guards
    ensures Reachable(env, u) && u.rescans == s.rescans
    ensures u.installs.Keys == s.installs.Keys && u.installs[id].stage == Live
    ensures forall i :: i in s.installs && i != id ==> u.installs[i] == s.installs[i]
    ensures g0 in u.guards && u.guards[g0] == s.guards[g0]
    ensures s.nextGuard in u.guards && u.guards[s.nextGuard].owner == id && x in u.guards[s.nextGuard].slots
    ensures u.mem(x) == env.shim(x)
  {
    var g1 := s.nextGuard;
    var s1 := PatchesOne(env, s, b, x, id);
    var s2 := QuietStep(env, s1, Record(id));
    var s3 := PushesOne(env, s2, id, g1, g0);
    u := QuietStep(env, s3, GoLive(id));
  }

  lemma PatchesOne(env: Env, s: State, b: Base, x: Slot, id: Id) returns (t: State)
    requires Reachable(env, s) && OneSlot(env, b, x) && id in s.installs && s.installs[id] == Install(Patching, [b], {})
    ensures Reachable(env, t) && t.rescans == s.rescans && t.mem(x) == env.shim(x)
    ensures t.guards == s.guards[s.nextGuard := Guard(id, b, {x}, s.mem, InHand)]
    ensures t.installs == s.installs[id := Install(Recording(s.nextGuard, b), [], {})]
  {
    OneSlotHookable(env, b, x);
    t := Step(env, s, PatchNext(id, true));
    Reach(env, s, PatchNext(id, true));
    var rest: seq<Base> := [];
    assert [b][1..] == rest;
  }

  lemma PushesOne(env: Env, s: State, id: Id, g1: GuardId, g0: GuardId) returns (t: State)
    requires Reachable(env, s) && id in s.installs && s.installs[id].stage.Pushing? && s.installs[id].stage.g == g1
    requires g0 in s.guards && g1 in s.guards && g0 != g1
    ensures Reachable(env, t) && t.rescans == s.rescans && t.mem == s.mem
    ensures t.guards.Keys == s.guards.Keys && t.guards[g0] == s.guards[g0]
            && t.guards[g1] == s.guards[g1].(kept := Pushed)
    ensures t.installs == s.installs[id := s.installs[id].(stage := Patching)]
  {
    t := Step(env, s, Push(id));
    Reach(env, s, Push(id));
  }

  /** The straggler's guard, which found the slot unhooked, is collected and dropped under the live installation. */
  lemma DropsUnder(env: Env, s: State, x: Slot, t: Thread, id0: Id, g0: GuardId, g1: GuardId) returns (u: State)
    requires Reachable(env, s) && id0 in s.installs && s.installs[id0].stage == Ended(false)
    requires t in s.rescans && s.rescans[t].g == Some(g0) && g0 in s.guards && s.guards[g0].owner == id0
    requires Restorer(env, s, g0, x) && s.mem(x) == env.shim(x) && OnSlot(s, g1, x) && g0 != g1
    ensures Reachable(env, u) && u.mem(x) == env.unhooked(x) && u.installs == s.installs
    ensures OnSlot(u, g1, x) && u.guards[g1].owner == s.guards[g1].owner
  {
    var s1 := Step(env, s, RescanPush(t));
    Reach(env, s, RescanPush(t));
    assert s1.guards[g0].kept == Pushed && s1.guards[g0].prior == s.guards[g0].prior;
    u := Step(env, s1, Uninstall(id0, g0));
    Reach(env, s1, Uninstall(id0, g0));
  }

  /**
   * It happens: a rescan that outlives its installation patches a module first, the next installation
   * patches over it, and when the straggler's guard is dropped the live installation's slot is unhooked.
   */
  lemma StragglerUnhooksLive(env: Env, s: State, b: Base, x: Slot, t: Thread) returns (u: State, id: Id, g: GuardId)
    requires OneSlot(env, b, x) && Initial(env, s)
    ensures Reachable(env, u) && id in u.installs && u.installs[id].stage == Live
    ensures OnSlot(u, g, x) && u.guards[g].owner == id && u.mem(x) == env.unhooked(x) != env.shim(x)
  {
    ReachInitial(env, s);
    OneSlotHookable(env, b, x);
    var id0, g0 := s.nextId, s.nextGuard;
    var s1 := Started(env, s, [], env.symbol(x));
    var s2 := Straggles(env, s1, b, t, id0);
    var s3 := Step(env, s2, RescanPatch(t, true));
    Reach(env, s2, RescanPatch(t, true));
    id := s3.nextId;
    var s4 := Started(env, s3, [b], env.symbol(x));
    var s5 := PatchesOver(env, s4, b, x, id, g0);
    g := s4.nextGuard;
    assert s5.guards[g0] == s3.guards[g0] && s3.guards[g0].prior(x) == env.unhooked(x);
    u := DropsUnder(env, s5, x, t, id0, g0, g);
  }
}
