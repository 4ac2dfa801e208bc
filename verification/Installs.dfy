/** Installations, late-module rescans and guard drops, interleaved by any number of threads. */
module Installs {
  import opened Wrappers
  import opened Dispatch

  type Base = nat
  type Slot = nat
  type GuardId = nat
  type Thread = nat

  // ---- The world ---------------------------------------------------------------------------------------

  /**
   * What no step changes: the imports of each module, each slot's symbol, shim and unhooked value, and
   * symbol lookup (0: absent).
   */
  datatype Env = Env(slots: Base -> set<Slot>, symbol: Slot -> Sym, shim: Slot -> nat, unhooked: Slot -> nat,
                     lookup: Sym -> nat, all: set<Sym>)

  /** The slots an install of `base` patches: hooked symbols whose original resolves. */
  function Hookable(env: Env, base: Base): (r: set<Slot>) {
    set s | s in env.slots(base) && env.symbol(s) in env.all && env.lookup(env.symbol(s)) != 0
  }

  ghost predicate Unhooked(env: Env) { forall s: Slot :: env.shim(s) != env.unhooked(s) }

  /** Where a guard is kept until it is uninstalled. */
  datatype Where = InHand | Pushed | Taken

  datatype Guard = Guard(owner: Id, base: Base, slots: set<Slot>, prior: Slot -> nat, kept: Where)

  datatype Stage =
    | Resolving(left: set<Sym>)     // active, originals being looked up
    | Patching                      // between modules of the first pass
    | Recording(g: GuardId, base: Base)     // a module is patched, its base not yet noted
    | Pushing(g: GuardId, base: Base)       // its base noted, its guard not yet collected
    | Live
    | Unwinding(failed: bool)       // guards taken, being uninstalled
    | Ended(failed: bool)

  /** One installation: its first-pass modules still to patch and the bases it has noted. */
  datatype Install = Install(stage: Stage, todo: seq<Base>, hooked: set<Base>)

  /** A rescan that has noted `base`, and later holds the guard of its patch. */
  datatype Rescan = Rescan(id: Id, base: Base, g: Option<GuardId>)

  datatype State = State(
    active: Option<Id>, nextId: Id, originals: map<Sym, nat>, mem: Slot -> nat,
    installs: map<Id, Install>, guards: map<GuardId, Guard>, nextGuard: GuardId,
    rescans: map<Thread, Rescan>, log: seq<(Id, Base)>)

  datatype Event =
    | Activate(todo: seq<Base>)
    | Resolve(id: Id, sym: Sym)
    | Resolved(id: Id)
    | PatchNext(id: Id, ok: bool)
    | Record(id: Id)
    | Push(id: Id)
    | GoLive(id: Id)
    | Claim(t: Thread, id: Id, base: Base)
    | RescanPatch(t: Thread, ok: bool)
    | RescanPush(t: Thread)
    | Refresh(sym: Sym)
    | BeginDrop(id: Id)
    | Uninstall(id: Id, g: GuardId)
    | Finish(id: Id)
    | StaleDeactivate(id: Id)

  predicate In(s: State, id: Id) { id in s.installs }

  function StageOf(s: State, id: Id): (r: Stage) { if id in s.installs then s.installs[id].stage else Ended(true) }

  /** A guard of `id` is still to be uninstalled from its taken list. */
  ghost predicate HasTaken(s: State, id: Id) {
    exists g :: g in s.guards && s.guards[g].owner == id && s.guards[g].kept.Taken?
  }

  /** Which steps can come next. A rescan needs the installation to have gone live once; it may outlive it. */
  ghost predicate Enabled(s: State, e: Event) {
    match e
    case Activate(todo) => s.active == None && Distinct(todo)
    case Resolve(id, sym) => In(s, id) && StageOf(s, id).Resolving? && sym in StageOf(s, id).left
    case Resolved(id) => In(s, id) && StageOf(s, id) == Resolving({})
    case PatchNext(id, _) => In(s, id) && StageOf(s, id).Patching? && s.installs[id].todo != []
    case Record(id) => In(s, id) && StageOf(s, id).Recording?
    case Push(id) => In(s, id) && StageOf(s, id).Pushing?
    case GoLive(id) => In(s, id) && StageOf(s, id).Patching? && s.installs[id].todo == []
    case Claim(t, id, base) =>
      && In(s, id) && t !in s.rescans && base !in s.installs[id].hooked
      && WentLive(StageOf(s, id))
    case RescanPatch(t, _) => t in s.rescans && s.rescans[t].g == None
    case RescanPush(t) => t in s.rescans && s.rescans[t].g.Some?
    case Refresh(_) => true
    case BeginDrop(id) => In(s, id) && StageOf(s, id).Live?
    case Uninstall(id, g) =>
      && In(s, id) && g in s.guards && s.guards[g].owner == id
      && ((StageOf(s, id).Unwinding? && s.guards[g].kept.Taken?) || (StageOf(s, id).Ended? && s.guards[g].kept.Pushed?))
    case Finish(id) => In(s, id) && StageOf(s, id).Unwinding? && !HasTaken(s, id)
    case StaleDeactivate(id) => In(s, id) && StageOf(s, id).Ended?
  }

  // ---- A step, field by field ------------------------------------------------------------------------------

  /** The module a step patches, and for which installation. */
  ghost function Patches(s: State, e: Event): (r: Option<(Id, Base)>)
    requires Enabled(s, e)
  {
    match e
    case PatchNext(id, ok) => if ok then Some((id, s.installs[id].todo[0])) else None
    case RescanPatch(t, ok) => if ok then Some((s.rescans[t].id, s.rescans[t].base)) else None
    case _ => None
  }

  /** The guard a step moves from someone's hands to the collected ones. */
  ghost function Collects(s: State, e: Event): (r: Option<GuardId>)
    requires Enabled(s, e)
  {
    match e
    case Push(id) => Some(StageOf(s, id).g)
    case RescanPush(t) => s.rescans[t].g
    case _ => None
  }

  /** The installation whose collected guards a step takes for uninstalling. */
  function Takes(e: Event): (r: Option<Id>) {
    match e
    case PatchNext(id, ok) => if ok then None else Some(id)
    case BeginDrop(id) => Some(id)
    case _ => None
  }

  /** Activation publishes the new token; the two ways of ending release it if it is still the published one. */
  function ActiveAfter(s: State, e: Event): (r: Option<Id>) {
    match e
    case Activate(_) => Some(s.nextId)
    case Finish(id) => Deactivated(s.active, id)
    case StaleDeactivate(id) => Deactivated(s.active, id)
    case _ => s.active
  }

  /** Looking a symbol up saves it if it resolves; nothing is ever cleared. */
  function OriginalsAfter(env: Env, s: State, e: Event): (r: map<Sym, nat>) {
    match e
    case Resolve(_, sym) => Saved(env, s.originals, sym)
    case Refresh(sym) => Saved(env, s.originals, sym)
    case _ => s.originals
  }

  function Saved(env: Env, originals: map<Sym, nat>, sym: Sym): (r: map<Sym, nat>) {
    if sym in env.all && env.lookup(sym) != 0 then originals[sym := env.lookup(sym)] else originals
  }

  /** A patch writes the shims; an uninstall puts a slot back only if it still holds its shim. */
  ghost function MemAfter(env: Env, s: State, e: Event): (r: Slot -> nat)
    requires Enabled(s, e)
  {
    if Patches(s, e).Some? then
      var slots := Hookable(env, Patches(s, e).value.1);
      (x: Slot) => if x in slots then env.shim(x) else s.mem(x)
    else if e.Uninstall? then
      var guard := s.guards[e.g];
      (x: Slot) => if x in guard.slots && s.mem(x) == env.shim(x) then guard.prior(x) else s.mem(x)
    else s.mem
  }

  /** The one installation a step changes, if any, and what becomes of it. */
  ghost function InstallAfter(env: Env, s: State, e: Event): (r: Option<(Id, Install)>)
    requires Enabled(s, e)
  {
    match e
    case Activate(todo) => Some((s.nextId, Install(Resolving(env.all), todo, {})))
    case Resolve(id, sym) => Some((id, s.installs[id].(stage := Resolving(StageOf(s, id).left - {sym}))))
    case Resolved(id) => Some((id, s.installs[id].(stage := Patching)))
    case PatchNext(id, ok) =>
      var i := s.installs[id];
      Some((id, if ok then Install(Recording(s.nextGuard, i.todo[0]), i.todo[1..], i.hooked)
            else i.(stage := Unwinding(true))))
    case Record(id) =>
      var i := s.installs[id];
      Some((id, Install(Pushing(i.stage.g, i.stage.base), i.todo, i.hooked + {i.stage.base})))
    case Push(id) => Some((id, s.installs[id].(stage := Patching)))
    case GoLive(id) => Some((id, s.installs[id].(stage := Live)))
    case Claim(_, id, base) => Some((id, s.installs[id].(hooked := s.installs[id].hooked + {base})))
    case BeginDrop(id) => Some((id, s.installs[id].(stage := Unwinding(false))))
    case Finish(id) => Some((id, s.installs[id].(stage := Ended(StageOf(s, id).failed))))
    case _ => None
  }

  ghost function InstallsAfter(env: Env, s: State, e: Event): (r: map<Id, Install>)
    requires Enabled(s, e)
  {
    match InstallAfter(env, s, e)
    case None => s.installs
    case Some((id, i)) => s.installs[id := i]
  }

  /** A patch makes a guard that remembers what was there; guards then move from hand to hand until uninstalled. */
  ghost function GuardsAfter(env: Env, s: State, e: Event): (r: map<GuardId, Guard>)
    requires Enabled(s, e)
  {
    if Patches(s, e).Some? then
      var (id, base) := Patches(s, e).value;
      s.guards[s.nextGuard := Guard(id, base, Hookable(env, base), s.mem, InHand)]
    else if e.Uninstall? then s.guards - {e.g}
    else map g | g in s.guards :: s.guards[g].(kept := KeptAfter(s, e, g))
  }

  ghost function KeptAfter(s: State, e: Event, g: GuardId): (r: Where)
    requires Enabled(s, e) && g in s.guards
  {
    if Collects(s, e) == Some(g) then Pushed
    else if s.guards[g].kept.Pushed? && Takes(e) == Some(s.guards[g].owner) then Taken
    else s.guards[g].kept
  }

  /** A rescan notes a base, patches it or gives up, and hands its guard over. */
  ghost function RescansAfter(s: State, e: Event): (r: map<Thread, Rescan>)
    requires Enabled(s, e)
  {
    match e
    case Claim(t, id, base) => s.rescans[t := Rescan(id, base, None)]
    case RescanPatch(t, ok) => if ok then s.rescans[t := s.rescans[t].(g := Some(s.nextGuard))] else s.rescans - {t}
    case RescanPush(t) => s.rescans - {t}
    case _ => s.rescans
  }

  ghost function LogAfter(s: State, e: Event): (r: seq<(Id, Base)>)
    requires Enabled(s, e)
  {
    s.log + if Patches(s, e).Some? then [Patches(s, e).value] else []
  }

  ghost function Step(env: Env, s: State, e: Event): (r: State)
    requires Enabled(s, e)
  {
    State(ActiveAfter(s, e), s.nextId + (if e.Activate? then 1 else 0), OriginalsAfter(env, s, e), MemAfter(env, s, e),
      InstallsAfter(env, s, e), GuardsAfter(env, s, e), s.nextGuard + (if Patches(s, e).Some? then 1 else 0),
      RescansAfter(s, e), LogAfter(s, e))
  }

  // ---- The invariant --------------------------------------------------------------------------------------

  /** An installation that has not ended owns the active place. */
  ghost predicate TokenOk(s: State, id: Id) {
    In(s, id) ==> id < s.nextId && (!StageOf(s, id).Ended? <==> s.active == Some(id))
  }

  /** In its first pass an installation is alone with its modules. */
  predicate FirstPass(stage: Stage) { stage.Resolving? || stage.Patching? || stage.Recording? || stage.Pushing? }

  /** The guard of the module in hand. */
  ghost predicate PlaceOk(s: State, id: Id) {
    In(s, id) && (StageOf(s, id).Recording? || StageOf(s, id).Pushing?) ==>
      var stage := StageOf(s, id);
      && (id, stage.base) in s.log && stage.g in s.guards
      && s.guards[stage.g].owner == id && s.guards[stage.g].kept.InHand?
  }

  /** What is still ahead was neither noted nor patched; what was patched is noted, or is in hand. */
  ghost predicate BasesOk(s: State, id: Id) {
    In(s, id) && FirstPass(StageOf(s, id)) ==>
      var i := s.installs[id];
      && Distinct(i.todo)
      && forall b :: b in i.todo ==> b !in i.hooked && (id, b) !in s.log
  }

  /** Every patch belongs to an installation that has noted the base, except the one in hand. */
  ghost predicate LogOk(s: State, id: Id, b: Base) {
    (id, b) in s.log ==>
      && In(s, id)
      && (b in s.installs[id].hooked || (StageOf(s, id).Recording? && StageOf(s, id).base == b))
  }

  /** A rescan works for an installation that went live, on a base that is noted. */
  ghost predicate RescanHome(s: State, t: Thread) {
    t in s.rescans ==>
      var r := s.rescans[t];
      && In(s, r.id) && WentLive(StageOf(s, r.id))
      && r.base in s.installs[r.id].hooked
  }

  /** It alone has claimed the base and, until it patches, no one of the installation has patched it. */
  ghost predicate RescanAlone(s: State, t: Thread) {
    t in s.rescans ==>
      var r := s.rescans[t];
      && (forall u :: u in s.rescans && u != t && s.rescans[u].id == r.id ==> s.rescans[u].base != r.base)
      && (r.g == None ==> (r.id, r.base) !in s.log)
  }

  ghost predicate RescanGuard(s: State, t: Thread) {
    t in s.rescans && s.rescans[t].g.Some? ==>
      var r := s.rescans[t];
      && r.g.value in s.guards && s.guards[r.g.value].owner == r.id && s.guards[r.g.value].base == r.base
      && s.guards[r.g.value].kept.InHand?
  }

  ghost predicate RescanOk(s: State, t: Thread) { RescanHome(s, t) && RescanAlone(s, t) && RescanGuard(s, t) }

  ghost predicate Failing(stage: Stage) { stage == Unwinding(true) || stage == Ended(true) }

  ghost predicate WentLive(stage: Stage) { stage.Live? || stage == Unwinding(false) || stage == Ended(false) }

  /**
   * A guard in hand is in exactly the hands its owner's stage or a rescan says; a failed installation
   * collects nothing more.
   */
  ghost predicate GuardOk(env: Env, s: State, g: GuardId) {
    g in s.guards ==>
      var guard := s.guards[g];
      && g < s.nextGuard && In(s, guard.owner) && !StageOf(s, guard.owner).Resolving?
      && guard.slots <= Hookable(env, guard.base)
      && (guard.kept.InHand? ==> InStage(s, guard.owner, g) || InRescan(s, g))
      && (guard.kept.Pushed? ==> !Failing(StageOf(s, guard.owner)))
      && (guard.kept.Taken? ==> StageOf(s, guard.owner).Unwinding?)
  }

  ghost predicate InStage(s: State, id: Id, g: GuardId) {
    (StageOf(s, id).Recording? || StageOf(s, id).Pushing?) && StageOf(s, id).g == g
  }

  ghost predicate InRescan(s: State, g: GuardId) { exists t :: t in s.rescans && s.rescans[t].g == Some(g) }

  /** `g` would put slot `x` back to its unhooked value. */
  ghost predicate Restorer(env: Env, s: State, g: GuardId, x: Slot) {
    g in s.guards && x in s.guards[g].slots && s.guards[g].prior(x) == env.unhooked(x)
  }

  /** A slot holds its shim exactly while one guard, and only one, will put it back. */
  ghost predicate SlotOk(env: Env, s: State, x: Slot) {
    && (s.mem(x) == env.shim(x) || s.mem(x) == env.unhooked(x))
    && (forall g :: g in s.guards && x in s.guards[g].slots ==>
          s.guards[g].prior(x) == env.shim(x) || s.guards[g].prior(x) == env.unhooked(x))
    && (s.mem(x) == env.shim(x) <==> exists g :: Restorer(env, s, g, x))
    && (forall g, h :: Restorer(env, s, g, x) && Restorer(env, s, h, x) ==> g == h)
  }

  /** Saved originals are what lookup says; past its lookups, an installation has saved every one that resolves. */
  ghost predicate OriginalOk(env: Env, s: State, sym: Sym) {
    && (sym in s.originals ==> s.originals[sym] == env.lookup(sym) != 0)
    && (forall id :: In(s, id) && sym in env.all && env.lookup(sym) != 0
                   && !(StageOf(s, id).Resolving? && sym in StageOf(s, id).left)
          ==> sym in s.originals)
  }

  /** Tokens, bases, rescans and guards. */
  ghost predicate Protocol(env: Env, s: State) {
    && (forall id :: TokenOk(s, id))
    && (forall id :: PlaceOk(s, id))
    && (forall id :: BasesOk(s, id))
    && (forall id, b :: LogOk(s, id, b))
    && (forall t :: RescanOk(s, t))
    && (forall g :: GuardOk(env, s, g))
  }

  ghost predicate Inv(env: Env, s: State) {
    && (s.active.Some? ==> In(s, s.active.value))
    && Protocol(env, s) && Distinct(s.log)
    && (forall x :: SlotOk(env, s, x))
    && (forall sym :: OriginalOk(env, s, sym))
  }

  // ---- Every step keeps it ------------------------------------------------------------------------------------
  // Each lemma is given only the fields of the next state, and the parts of the invariant, that it is about.

  /** What the invariant says of the step's own installation, module or thread. */
  ghost predicate SubjectOk(s: State, e: Event) {
    match e
    case PatchNext(id, _) => BasesOk(s, id)
    case Record(id) => PlaceOk(s, id)
    case Push(id) => PlaceOk(s, id)
    case Claim(_, id, base) => LogOk(s, id, base)
    case RescanPatch(t, _) => RescanOk(s, t)
    case RescanPush(t) => RescanOk(s, t)
    case Finish(id) => TokenOk(s, id)
    case StaleDeactivate(id) => TokenOk(s, id)
    case _ => true
  }

  lemma StepKeepsToken(env: Env, s: State, e: Event, s': State, id: Id)
    requires Enabled(s, e) && SubjectOk(s, e) && TokenOk(s, id)
    requires s'.active == ActiveAfter(s, e) && s'.installs == InstallsAfter(env, s, e)
    requires s'.nextId == s.nextId + (if e.Activate? then 1 else 0)
    ensures TokenOk(s', id)
  {}

  ghost predicate Acts(env: Env, s: State, e: Event, id: Id)
    requires Enabled(s, e)
  {
    InstallAfter(env, s, e).Some? && InstallAfter(env, s, e).value.0 == id
  }

  lemma OtherInstall(env: Env, s: State, e: Event, s': State, id: Id)
    requires Enabled(s, e) && s'.installs == InstallsAfter(env, s, e) && !Acts(env, s, e, id)
    ensures In(s', id) <==> In(s, id)
    ensures In(s, id) ==> s'.installs[id] == s.installs[id]
  {}

  /** Only a claim changes an installation that went live, short of its ending; it never goes back or forgets a base. */
  lemma LiveInstallStays(env: Env, s: State, e: Event, s': State, id: Id)
    requires Enabled(s, e) && s'.installs == InstallsAfter(env, s, e) && s.nextId !in s.installs
    requires In(s, id) && WentLive(StageOf(s, id))
    ensures In(s', id) && WentLive(StageOf(s', id)) && s.installs[id].hooked <= s'.installs[id].hooked
  {
    if !Acts(env, s, e, id) { OtherInstall(env, s, e, s', id); }
  }

  lemma StepKeepsActive(env: Env, s: State, e: Event, s': State)
    requires Enabled(s, e) && (s.active.Some? ==> In(s, s.active.value))
    requires s'.active == ActiveAfter(s, e) && s'.installs == InstallsAfter(env, s, e)
    ensures s'.active.Some? ==> In(s', s'.active.value)
  {}

  /** An old guard is gone only when uninstalled, and else changes only where it is kept. */
  lemma OldGuard(env: Env, s: State, e: Event, s': State, g: GuardId)
    requires Enabled(s, e) && s'.guards == GuardsAfter(env, s, e) && g in s.guards && g < s.nextGuard
    ensures g in s'.guards <==> !(e.Uninstall? && e.g == g)
    ensures g in s'.guards ==> s'.guards[g] == s.guards[g].(kept := KeptAfter(s, e, g))
  {}

  lemma NewGuard(env: Env, s: State, e: Event, s': State, g: GuardId)
    requires Enabled(s, e) && s'.guards == GuardsAfter(env, s, e) && g !in s.guards && g in s'.guards
    ensures g == s.nextGuard && Patches(s, e).Some?
    ensures s'.guards[g] ==
              Guard(Patches(s, e).value.0, Patches(s, e).value.1, Hookable(env, Patches(s, e).value.1), s.mem, InHand)
  {}

  /** A guard in hand stays there unless it is the one collected. */
  lemma HeldGuardStays(env: Env, s: State, e: Event, s': State, g: GuardId)
    requires Enabled(s, e) && s'.guards == GuardsAfter(env, s, e) && g in s.guards && g < s.nextGuard
    requires s.guards[g].kept.InHand? && Collects(s, e) != Some(g)
    ensures g in s'.guards && s'.guards[g] == s.guards[g]
  {
    OldGuard(env, s, e, s', g);
  }

  /** No one but the stage itself collects the guard of a stage. */
  lemma PlacedNotCollected(s: State, e: Event, id: Id)
    requires Enabled(s, e) && SubjectOk(s, e) && PlaceOk(s, id)
    requires In(s, id) && (StageOf(s, id).Recording? || StageOf(s, id).Pushing?) && e != Push(id)
    ensures Collects(s, e) != Some(StageOf(s, id).g)
  {}

  lemma StepKeepsPlace(env: Env, s: State, e: Event, s': State, id: Id)
    requires Enabled(s, e) && PlaceOk(s, id) && s.nextId !in s.installs
    requires s'.installs == InstallsAfter(env, s, e) && s'.guards == GuardsAfter(env, s, e) && s'.log == LogAfter(s, e)
    requires In(s, id) && (StageOf(s, id).Recording? || StageOf(s, id).Pushing?) && e != Push(id) ==>
               StageOf(s, id).g in s'.guards && s'.guards[StageOf(s, id).g] == s.guards[StageOf(s, id).g]
    ensures PlaceOk(s', id)
  {
    if !Acts(env, s, e, id) { OtherInstall(env, s, e, s', id); }
  }

  lemma FirstIsNotLater(todo: seq<Base>)
    requires todo != [] && Distinct(todo)
    ensures todo[0] !in todo[1..] && Distinct(todo[1..]) && forall b :: b in todo[1..] ==> b in todo
  {}

  /** First passes and rescans never meet on a log entry. */
  lemma StepKeepsBases(env: Env, s: State, e: Event, s': State, id: Id)
    requires Enabled(s, e) && SubjectOk(s, e) && BasesOk(s, id) && PlaceOk(s, id) && TokenOk(s, id)
    requires e.Activate? && id == s.nextId ==> forall b :: b in e.todo ==> (id, b) !in s.log
    requires s'.installs == InstallsAfter(env, s, e) && s'.log == LogAfter(s, e)
    ensures BasesOk(s', id)
  {
    if !Acts(env, s, e, id) { OtherInstall(env, s, e, s', id); }
    if e.PatchNext? && e.id == id { FirstIsNotLater(s.installs[id].todo); }
  }

  lemma StepKeepsLog(env: Env, s: State, e: Event, s': State, id: Id, b: Base)
    requires Enabled(s, e) && SubjectOk(s, e) && LogOk(s, id, b) && s.nextId !in s.installs
    requires s'.installs == InstallsAfter(env, s, e) && s'.log == LogAfter(s, e)
    ensures LogOk(s', id, b)
  {
    if !Acts(env, s, e, id) { OtherInstall(env, s, e, s', id); }
  }

  /** Whatever a step patches, its installation had not patched before. */
  lemma StepPatchesAfresh(s: State, e: Event)
    requires Enabled(s, e) && SubjectOk(s, e) && Distinct(s.log)
    ensures Distinct(LogAfter(s, e))
  {}

  lemma StepKeepsRescanHome(env: Env, s: State, e: Event, s': State, t: Thread)
    requires Enabled(s, e) && RescanHome(s, t) && s.nextId !in s.installs
    requires s'.installs == InstallsAfter(env, s, e) && s'.rescans == RescansAfter(s, e)
    ensures RescanHome(s', t)
  {
    if t in s.rescans { LiveInstallStays(env, s, e, s', s.rescans[t].id); }
  }

  lemma StepKeepsRescanAlone(s: State, e: Event, s': State, t: Thread)
    requires Enabled(s, e) && SubjectOk(s, e) && (forall u :: RescanHome(s, u)) && (forall u :: RescanAlone(s, u))
    requires s'.rescans == RescansAfter(s, e) && s'.log == LogAfter(s, e)
    ensures RescanAlone(s', t)
  {
    assert RescanHome(s, t) && RescanAlone(s, t);
    if e.Claim? { assert forall u :: u in s.rescans ==> RescanHome(s, u); }
  }

  /** No one but the rescan itself collects the guard of a rescan. */
  lemma RescannedNotCollected(s: State, e: Event, t: Thread)
    requires Enabled(s, e) && SubjectOk(s, e) && RescanOk(s, t)
    requires t in s.rescans && s.rescans[t].g.Some? && e != RescanPush(t)
    ensures Collects(s, e) != s.rescans[t].g
  {}

  lemma StepKeepsRescanGuard(env: Env, s: State, e: Event, s': State, t: Thread)
    requires Enabled(s, e) && RescanGuard(s, t) && s'.rescans == RescansAfter(s, e)
    requires t in s.rescans && s.rescans[t].g.Some? && e != RescanPush(t) ==>
               s.rescans[t].g.value in s'.guards && s'.guards[s.rescans[t].g.value] == s.guards[s.rescans[t].g.value]
    requires Patches(s, e).Some? ==>
               s.nextGuard in s'.guards && s'.guards[s.nextGuard].owner == Patches(s, e).value.0
               && s'.guards[s.nextGuard].base == Patches(s, e).value.1 && s'.guards[s.nextGuard].kept.InHand?
    ensures RescanGuard(s', t)
  {}

  lemma StageHandStays(env: Env, s: State, e: Event, s': State, id: Id, g: GuardId)
    requires Enabled(s, e) && s.nextId !in s.installs && In(s, id) && InStage(s, id, g) && e != Push(id)
    requires s'.installs == InstallsAfter(env, s, e)
    ensures InStage(s', id, g)
  {}

  lemma RescanHandStays(s: State, e: Event, s': State, g: GuardId)
    requires Enabled(s, e) && InRescan(s, g) && Collects(s, e) != Some(g) && s'.rescans == RescansAfter(s, e)
    ensures InRescan(s', g)
  {
    var t :| t in s.rescans && s.rescans[t].g == Some(g);
    assert t in s'.rescans && s'.rescans[t].g == Some(g);
  }

  lemma NewGuardIsHeld(env: Env, s: State, e: Event, s': State)
    requires Enabled(s, e) && Patches(s, e).Some?
    requires s'.installs == InstallsAfter(env, s, e) && s'.rescans == RescansAfter(s, e)
    ensures InStage(s', Patches(s, e).value.0, s.nextGuard) || InRescan(s', s.nextGuard)
  {
    if e.RescanPatch? { assert s'.rescans[e.t].g == Some(s.nextGuard); }
  }

  lemma StepKeepsHands(env: Env, s: State, e: Event, s': State, g: GuardId)
    requires Enabled(s, e) && GuardOk(env, s, g) && s.nextId !in s.installs
    requires s'.installs == InstallsAfter(env, s, e) && s'.guards == GuardsAfter(env, s, e)
             && s'.rescans == RescansAfter(s, e)
    requires g in s'.guards && s'.guards[g].kept.InHand?
    ensures InStage(s', s'.guards[g].owner, g) || InRescan(s', g)
  {
    if g in s.guards {
      OldGuard(env, s, e, s', g);
      if InRescan(s, g) {
        RescanHandStays(s, e, s', g);
      } else {
        StageHandStays(env, s, e, s', s.guards[g].owner, g);
      }
    } else {
      NewGuard(env, s, e, s', g);
      NewGuardIsHeld(env, s, e, s');
    }
  }

  /**
   * An owner moves past its lookups and never back; it unwinds only when its guards are taken, and until
   * it is finished.
   */
  lemma OwnerStays(env: Env, s: State, e: Event, s': State, id: Id)
    requires Enabled(s, e) && s.nextId !in s.installs && In(s, id) && !StageOf(s, id).Resolving?
    requires s'.installs == InstallsAfter(env, s, e)
    ensures In(s', id) && !StageOf(s', id).Resolving?
    ensures Failing(StageOf(s', id)) ==> Failing(StageOf(s, id)) || Takes(e) == Some(id)
    ensures StageOf(s, id).Unwinding? ==> StageOf(s', id).Unwinding? || e == Finish(id)
    ensures Takes(e) == Some(id) ==> StageOf(s', id).Unwinding?
  {
    if !Acts(env, s, e, id) { OtherInstall(env, s, e, s', id); }
  }

  /** A guard is collected for an installation that is not failing. */
  lemma CollectedOwner(s: State, e: Event, g: GuardId)
    requires Enabled(s, e) && SubjectOk(s, e) && Collects(s, e) == Some(g)
    ensures g in s.guards && !Failing(StageOf(s, s.guards[g].owner)) && Takes(e) == None
  {}

  lemma NewOwner(s: State, e: Event)
    requires Enabled(s, e) && SubjectOk(s, e) && Patches(s, e).Some?
    ensures In(s, Patches(s, e).value.0) && !StageOf(s, Patches(s, e).value.0).Resolving?
  {}

  lemma StepKeepsOldGuard(env: Env, s: State, e: Event, s': State, g: GuardId)
    requires Enabled(s, e) && SubjectOk(s, e) && GuardOk(env, s, g) && s.nextId !in s.installs && g in s.guards
             && g in s'.guards
    requires s'.installs == InstallsAfter(env, s, e) && s'.guards == GuardsAfter(env, s, e)
             && s'.nextGuard >= s.nextGuard
    requires s'.guards[g].kept.InHand? ==> InStage(s', s'.guards[g].owner, g) || InRescan(s', g)
    ensures GuardOk(env, s', g)
  {
    var owner := s.guards[g].owner;
    OldGuard(env, s, e, s', g);
    OwnerStays(env, s, e, s', owner);
    if Collects(s, e) == Some(g) { CollectedOwner(s, e, g); }
    if e == Finish(owner) && s.guards[g].kept.Taken? { assert HasTaken(s, owner); }
  }

  lemma StepKeepsGuard(env: Env, s: State, e: Event, s': State, g: GuardId)
    requires Enabled(s, e) && SubjectOk(s, e) && GuardOk(env, s, g) && s.nextId !in s.installs
    requires s'.installs == InstallsAfter(env, s, e) && s'.guards == GuardsAfter(env, s, e)
             && s'.rescans == RescansAfter(s, e)
    requires s'.nextGuard == s.nextGuard + (if Patches(s, e).Some? then 1 else 0)
    ensures GuardOk(env, s', g)
  {
    if g in s'.guards {
      if s'.guards[g].kept.InHand? { StepKeepsHands(env, s, e, s', g); }
      if g in s.guards {
        StepKeepsOldGuard(env, s, e, s', g);
      } else {
        NewGuard(env, s, e, s', g);
        NewOwner(s, e);
        OwnerStays(env, s, e, s', Patches(s, e).value.0);
      }
    }
  }

  lemma StepKeepsOriginal(env: Env, s: State, e: Event, s': State, sym: Sym)
    requires Enabled(s, e) && OriginalOk(env, s, sym)
    requires s'.installs == InstallsAfter(env, s, e) && s'.originals == OriginalsAfter(env, s, e)
    ensures OriginalOk(env, s', sym)
  {
    forall id | In(s', id) && sym in env.all && env.lookup(sym) != 0
           && !(StageOf(s', id).Resolving? && sym in StageOf(s', id).left)
      ensures sym in s'.originals
    {
      assert In(s, id) || id == s.nextId;
    }
  }

  // ---- Memory ---------------------------------------------------------------------------------------------------

  lemma PatchKeepsSlot(env: Env, s: State, e: Event, s': State, x: Slot)
    requires Enabled(s, e) && Patches(s, e).Some? && SlotOk(env, s, x) && s.nextGuard !in s.guards && Unhooked(env)
    requires s'.mem == MemAfter(env, s, e) && s'.guards == GuardsAfter(env, s, e)
    ensures SlotOk(env, s', x)
  {
    var n := s.nextGuard;
    assert forall g :: g != n ==> (Restorer(env, s', g, x) <==> Restorer(env, s, g, x));
    assert Restorer(env, s', n, x) <==> x in Hookable(env, Patches(s, e).value.1) && s.mem(x) == env.unhooked(x);
    if exists g :: Restorer(env, s, g, x) {
      var g :| Restorer(env, s, g, x);
      assert Restorer(env, s', g, x);
    }
  }

  lemma RestoreKeepsSlot(env: Env, s: State, e: Event, s': State, x: Slot)
    requires Enabled(s, e) && e.Uninstall? && SlotOk(env, s, x) && Unhooked(env)
    requires s'.mem == MemAfter(env, s, e) && s'.guards == GuardsAfter(env, s, e)
    ensures SlotOk(env, s', x)
  {
    var g := e.g;
    assert forall h :: Restorer(env, s', h, x) <==> h != g && Restorer(env, s, h, x);
    if Restorer(env, s, g, x) {
      assert s'.mem(x) == env.unhooked(x);
      assert forall h :: !Restorer(env, s', h, x);
    } else {
      assert s'.mem(x) == s.mem(x);
      assert forall h :: Restorer(env, s', h, x) <==> Restorer(env, s, h, x);
    }
  }

  /** Steps that move guards about touch neither memory nor what the guards would restore. */
  lemma MovesKeepSlot(env: Env, s: State, e: Event, s': State, x: Slot)
    requires Enabled(s, e) && !e.Uninstall? && Patches(s, e).None? && SlotOk(env, s, x)
    requires s'.mem == MemAfter(env, s, e) && s'.guards == GuardsAfter(env, s, e)
    ensures SlotOk(env, s', x)
  {
    assert forall g :: Restorer(env, s', g, x) <==> Restorer(env, s, g, x);
  }

  lemma StepKeepsSlot(env: Env, s: State, e: Event, s': State, x: Slot)
    requires Enabled(s, e) && s.nextGuard !in s.guards && SlotOk(env, s, x) && Unhooked(env)
    requires s'.mem == MemAfter(env, s, e) && s'.guards == GuardsAfter(env, s, e)
    ensures SlotOk(env, s', x)
  {
    if Patches(s, e).Some? {
      PatchKeepsSlot(env, s, e, s', x);
    } else if e.Uninstall? {
      RestoreKeepsSlot(env, s, e, s', x);
    } else {
      MovesKeepSlot(env, s, e, s', x);
    }
  }

  // ---- Every run ---------------------------------------------------------------------------------------------------

  lemma ProtocolGives(env: Env, s: State, e: Event)
    requires Enabled(s, e) && Protocol(env, s)
    ensures SubjectOk(s, e) && s.nextId !in s.installs
  {
    assert TokenOk(s, s.nextId);
  }

  lemma StepKeepsInstalls(env: Env, s: State, e: Event, s': State, id: Id)
    requires Enabled(s, e) && Protocol(env, s) && SubjectOk(s, e) && s.nextId !in s.installs && s' == Step(env, s, e)
    ensures TokenOk(s', id) && PlaceOk(s', id) && BasesOk(s', id)
  {
    assert TokenOk(s, id) && PlaceOk(s, id) && BasesOk(s, id);
    StepKeepsToken(env, s, e, s', id);
    if In(s, id) && (StageOf(s, id).Recording? || StageOf(s, id).Pushing?) && e != Push(id) {
      assert GuardOk(env, s, StageOf(s, id).g);
      PlacedNotCollected(s, e, id);
      HeldGuardStays(env, s, e, s', StageOf(s, id).g);
    }
    StepKeepsPlace(env, s, e, s', id);
    forall b | (id, b) in s.log ensures In(s, id) { assert LogOk(s, id, b); }
    StepKeepsBases(env, s, e, s', id);
  }

  lemma StepKeepsRescan(env: Env, s: State, e: Event, s': State, t: Thread)
    requires Enabled(s, e) && Protocol(env, s) && SubjectOk(s, e) && s.nextId !in s.installs && s' == Step(env, s, e)
    ensures RescanOk(s', t)
  {
    forall u ensures RescanHome(s, u) && RescanAlone(s, u) && RescanGuard(s, u) { assert RescanOk(s, u); }
    StepKeepsRescanHome(env, s, e, s', t);
    StepKeepsRescanAlone(s, e, s', t);
    if t in s.rescans && s.rescans[t].g.Some? && e != RescanPush(t) {
      var g := s.rescans[t].g.value;
      assert GuardOk(env, s, g);
      RescannedNotCollected(s, e, t);
      HeldGuardStays(env, s, e, s', g);
    }
    StepKeepsRescanGuard(env, s, e, s', t);
  }

  lemma StepKeepsProtocol(env: Env, s: State, e: Event)
    requires Enabled(s, e) && Protocol(env, s)
    ensures Protocol(env, Step(env, s, e))
  {
    var s' := Step(env, s, e);
    ProtocolGives(env, s, e);
    forall id ensures TokenOk(s', id) && PlaceOk(s', id) && BasesOk(s', id) { StepKeepsInstalls(env, s, e, s', id); }
    forall id, b ensures LogOk(s', id, b) {
      assert LogOk(s, id, b);
      StepKeepsLog(env, s, e, s', id, b);
    }
    forall t ensures RescanOk(s', t) { StepKeepsRescan(env, s, e, s', t); }
    forall g ensures GuardOk(env, s', g) {
      assert GuardOk(env, s, g);
      StepKeepsGuard(env, s, e, s', g);
    }
  }

  lemma StepKeepsInv(env: Env, s: State, e: Event)
    requires Enabled(s, e) && Inv(env, s) && Unhooked(env)
    ensures Inv(env, Step(env, s, e))
  {
    var s' := Step(env, s, e);
    StepKeepsActive(env, s, e, s');
    ProtocolGives(env, s, e);
    StepKeepsProtocol(env, s, e);
    StepPatchesAfresh(s, e);
    assert GuardOk(env, s, s.nextGuard);
    forall x ensures SlotOk(env, s', x) {
      assert SlotOk(env, s, x);
      StepKeepsSlot(env, s, e, s', x);
    }
    forall sym ensures OriginalOk(env, s', sym) {
      assert OriginalOk(env, s, sym);
      StepKeepsOriginal(env, s, e, s', sym);
    }
  }

  /** Nothing installed, every slot unhooked. */
  ghost predicate Initial(env: Env, s: State) {
    && s.active == None && s.originals == map[] && s.installs == map[] && s.guards == map[] && s.rescans == map[]
       && s.log == []
    && forall x: Slot :: s.mem(x) == env.unhooked(x)
  }

  ghost predicate Follows(env: Env, s: State, e: Event, s': State) { Enabled(s, e) && s' == Step(env, s, e) }

  ghost predicate IsRun(env: Env, events: seq<Event>, states: seq<State>) {
    && Unhooked(env) && |states| == |events| + 1 && Initial(env, states[0])
    && forall i: nat :: i < |events| ==> Follows(env, states[i], events[i], states[i + 1])
  }

  lemma {:induction false} RunsKeepInv(env: Env, events: seq<Event>, states: seq<State>, k: nat)
    requires IsRun(env, events, states) && k <= |events|
    ensures Inv(env, states[k])
  {
    if k > 0 {
      RunsKeepInv(env, events, states, k - 1);
      assert Follows(env, states[k - 1], events[k - 1], states[k]);
      StepKeepsInv(env, states[k - 1], events[k - 1]);
    }
  }

  // ---- What follows at every point of every run -------------------------------------------------

  /** At most one installation is not over, and it is the published one. */
  lemma OneInstallationAtATime(env: Env, events: seq<Event>, states: seq<State>, k: nat, a: Id, b: Id)
    requires IsRun(env, events, states) && k <= |events|
    requires a in states[k].installs && b in states[k].installs
    requires !states[k].installs[a].stage.Ended? && !states[k].installs[b].stage.Ended?
    ensures a == b && states[k].active == Some(a)
  {
    RunsKeepInv(env, events, states, k);
    assert TokenOk(states[k], a) && TokenOk(states[k], b);
  }

  /** Tearing down again with the token of an installation that is over changes nothing. */
  lemma StaleTokensAreHarmless(env: Env, events: seq<Event>, states: seq<State>, k: nat)
    requires IsRun(env, events, states) && k < |events| && events[k].StaleDeactivate?
    ensures states[k + 1] == states[k]
  {
    RunsKeepInv(env, events, states, k);
    assert Follows(env, states[k], events[k], states[k + 1]);
    assert TokenOk(states[k], events[k].id);
  }

  /** No installation ever patches a module twice, however its first pass and rescans interleave. */
  lemma NoModuleIsPatchedTwice(env: Env, events: seq<Event>, states: seq<State>, k: nat, i: nat, j: nat)
    requires IsRun(env, events, states) && k <= |events| && i < j < |states[k].log|
    ensures states[k].log[i] != states[k].log[j]
  {
    RunsKeepInv(env, events, states, k);
  }

  /** A slot is unhooked unless some guard that will put it back is still outstanding. */
  lemma UnguardedSlotsAreUnhooked(env: Env, events: seq<Event>, states: seq<State>, k: nat, x: Slot)
    requires IsRun(env, events, states) && k <= |events|
    requires forall g :: g in states[k].guards ==> x !in states[k].guards[g].slots
    ensures states[k].mem(x) == env.unhooked(x)
  {
    RunsKeepInv(env, events, states, k);
    assert SlotOk(env, states[k], x);
  }

  /**
   * An installation that failed has given up its token and has no guard left, so what it alone patched
   * is unhooked again.
   */
  lemma FailureLeavesNothing(env: Env, events: seq<Event>, states: seq<State>, k: nat, id: Id)
    requires IsRun(env, events, states) && k <= |events| && id in states[k].installs
             && states[k].installs[id].stage == Ended(true)
    ensures states[k].active != Some(id)
    ensures forall g :: g in states[k].guards ==> states[k].guards[g].owner != id
    ensures forall x ::
              (forall g :: g in states[k].guards && x in states[k].guards[g].slots ==>
                 states[k].guards[g].owner == id) ==>
              states[k].mem(x) == env.unhooked(x)
  {
    RunsKeepInv(env, events, states, k);
    var s := states[k];
    assert TokenOk(s, id);
    forall g | g in s.guards ensures s.guards[g].owner != id {
      assert GuardOk(env, s, g);
      assert forall t :: t in s.rescans ==> RescanOk(s, t);
    }
    forall x | forall g :: g in s.guards && x in s.guards[g].slots ==> s.guards[g].owner == id
      ensures s.mem(x) == env.unhooked(x) {
      UnguardedSlotsAreUnhooked(env, events, states, k, x);
    }
  }

  /** A shim that can run has a saved original to pass through to, the one symbol lookup gives. */
  lemma ShimsHaveOriginals(env: Env, events: seq<Event>, states: seq<State>, k: nat, x: Slot)
    requires IsRun(env, events, states) && k <= |events| && states[k].mem(x) == env.shim(x)
    ensures env.symbol(x) in states[k].originals
    ensures states[k].originals[env.symbol(x)] == env.lookup(env.symbol(x)) != 0
  {
    RunsKeepInv(env, events, states, k);
    var s := states[k];
    assert SlotOk(env, s, x);
    var g :| Restorer(env, s, g, x);
    assert GuardOk(env, s, g) && OriginalOk(env, s, env.symbol(x));
    assert In(s, s.guards[g].owner);
  }

  /** During a first pass every hooked module's installation is already published: shims see its engine. */
  lemma PublishedBeforePatched(env: Env, events: seq<Event>, states: seq<State>, k: nat, g: GuardId)
    requires IsRun(env, events, states) && k <= |events| && g in states[k].guards
    ensures var owner := states[k].guards[g].owner;
            owner in states[k].installs && (states[k].installs[owner].stage.Ended? || states[k].active == Some(owner))
  {
    RunsKeepInv(env, events, states, k);
    assert GuardOk(env, states[k], g) && TokenOk(states[k], states[k].guards[g].owner);
  }
}
