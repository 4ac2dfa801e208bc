/**
 * Every interleaving of the in-memory filesystem's lock-sized steps: what the volume's `used` count
 * means in each reachable state.
 */
module FsRuns {
  import opened Wrappers
  import opened Io
  import opened Paths
  import opened MemFiles
  import opened Tree
  import opened TreeMoves
  import opened Unmount
  import opened MemoryFs

  /** A length change whose accounting is done while the file's data lock is still held. */
  datatype Change =
    | Write(target: nat, pos: nat, bytes: seq<Byte>)
    | Resize(target: nat)

  datatype Handle = Handle(file: FileId, pos: nat)

  datatype Fs = Fs(
    capacity: nat,
    used: nat,
    entries: Entries,
    files: map<FileId, seq<Byte>>,     // every file whose last reference has not been dropped
    handles: map<nat, Handle>,
    pins: map<nat, FileId>,            // a thread's own reference during an operation
    changing: map<FileId, Change>,     // files whose data lock is held by a length change
    nextFile: FileId,
    returned: map<FileId, nat>)        // what each dropped file gave back to the volume

  datatype Event =
    | OpenTree(thread: nat, path: string, opts: OpenOptions)
    | InsertWritable(path: string)
    | InsertSource(path: string, source: nat)
    | Remove(path: string)
    | Rename(fromPath: string, toPath: string)
    | CreateDir(path: string)
    | RemoveSubtree(key: string)
    | PinHandle(thread: nat, handle: nat)
    | PinPath(thread: nat, path: string)
    | Unpin(thread: nat)
    | OpenHandle(thread: nat, handle: nat, append: bool)
    | Seek(handle: nat, pos: nat)
    | Close(handle: nat)
    | Reserve(thread: nat, pos: nat, buf: seq<Byte>)
    | Account(thread: nat, len: nat)
    | Apply(thread: nat)
    | DropFile(file: FileId)

  // ---- What is referenced, and what the volume should be charged ---------------------------

  ghost function Referenced(s: Fs): (fs: set<FileId>) {
    FilesOf(s.entries) + (set h | h in s.handles :: s.handles[h].file) + s.pins.Values + s.changing.Keys
  }

  ghost function Charge(s: Fs, f: FileId): (n: nat)
    requires f in s.files
  {
    if f in s.changing then s.changing[f].target else |s.files[f]|
  }

  ghost function Charges(s: Fs): (m: map<FileId, nat>) {
    map f | f in s.files :: Charge(s, f)
  }

  ghost function Total(m: map<FileId, nat>): (n: nat)
    decreases |m|
  {
    if m == map[] then 0
    else
      var f :| f in m;
      m[f] + Total(m - {f})
  }

  lemma {:induction false} TotalWithout(m: map<FileId, nat>, f: FileId)
    requires f in m
    ensures Total(m) == m[f] + Total(m - {f})
    decreases |m|
  {
    var g :| g in m && Total(m) == m[g] + Total(m - {g});
    if g != f {
      TotalWithout(m - {g}, f);
      TotalWithout(m - {f}, g);
      assert m - {g} - {f} == m - {f} - {g};
    }
  }

  lemma TotalUpdate(m: map<FileId, nat>, f: FileId, n: nat)
    ensures Total(m[f := n]) == Total(m) - (if f in m then m[f] else 0) + n
  {
    var u := m[f := n];
    TotalWithout(u, f);
    assert u - {f} == m - {f};
    if f in m { TotalWithout(m, f); } else { assert m - {f} == m; }
  }

  /** One file's share never exceeds the whole. */
  lemma ShareOfTotal(m: map<FileId, nat>, f: FileId)
    requires f in m
    ensures m[f] <= Total(m)
  {
    TotalWithout(m, f);
  }

  // ---- The steps --------------------------------------------------------------------------------

  ghost predicate Init(s: Fs, capacity: nat) {
    s == Fs(capacity, 0, map[], map[], map[], map[], map[], 0, map[])
  }

  /** A step that only touches the tree. */
  ghost predicate TreeStep(s: Fs, e: Event, t: Fs) {
    && t == s.(entries := t.entries)
    && match e
       case InsertSource(path, source) =>
         IsKey(Normalize(path)) && t.entries == Insert(s.entries, Normalize(path), Source(source, FinalComponent(path)))
       case Remove(path) => t.entries == RemoveEntry(s.entries, Normalize(path)).1
       case Rename(fromPath, toPath) => RenameStep(s.entries, fromPath, toPath, t.entries)
       case CreateDir(path) => IsKey(Normalize(path)) && t.entries == CreateDirectory(s.entries, path).1
       case RemoveSubtree(key) =>
         && IsKey(key)
         && t.entries.Keys <= s.entries.Keys
         && (forall k :: k in t.entries ==> t.entries[k] == s.entries[k])
         && (WellFormed(s.entries) ==> t.entries == Unmounted(s.entries, key))
       case _ => false
  }

  ghost predicate RenameStep(m: Entries, fromPath: string, toPath: string, r: Entries) {
    var from, to := Normalize(fromPath), Normalize(toPath);
    && IsKey(from) && IsKey(to)
    && if RenameError(m, from, to).Some? || from == to then r == m
       else
         && FilesOf(r) <= FilesOf(m)
         && (WellFormed(m) ==> forall k :: Lookup(r, k) == MovedNode(m, from, to, toPath, k))
  }

  /** A step that creates or opens a file. */
  ghost predicate FileStep(s: Fs, e: Event, t: Fs) {
    match e
    case OpenTree(thread, path, opts) =>
      && IsKey(Normalize(path)) && thread !in s.pins
      && var (r, m) := OpenForWrite(s.entries, path, opts, s.nextFile);
         if r.Err? then t == s
         else if Normalize(path) in s.entries then t == s.(pins := s.pins[thread := r.value])
         else
           t == s.(entries := m, files := s.files[s.nextFile := []], nextFile := s.nextFile + 1,
                   pins := s.pins[thread := r.value])
    case InsertWritable(path) =>
      && IsKey(Normalize(path))
      && t == s.(entries := Insert(s.entries, Normalize(path), Mem(s.nextFile, FinalComponent(path))),
                 files := s.files[s.nextFile := []], nextFile := s.nextFile + 1)
    case _ => false
  }

  /** A step that takes, gives up or moves a reference. */
  ghost predicate ReferenceStep(s: Fs, e: Event, t: Fs) {
    match e
    case PinHandle(thread, handle) =>
      thread !in s.pins && handle in s.handles && t == s.(pins := s.pins[thread := s.handles[handle].file])
    case PinPath(thread, path) =>
      && thread !in s.pins && Normalize(path) in s.entries && s.entries[Normalize(path)].Mem?
      && t == s.(pins := s.pins[thread := s.entries[Normalize(path)].file])
    case Unpin(thread) => thread in s.pins && s.pins[thread] !in s.changing && t == s.(pins := s.pins - {thread})
    case OpenHandle(thread, handle, append) =>
      && thread in s.pins && handle !in s.handles
      && s.pins[thread] in s.files && s.pins[thread] !in s.changing
      && t == s.(handles := s.handles[handle :=
                   Handle(s.pins[thread], if append then |s.files[s.pins[thread]]| else 0)],
                 pins := s.pins - {thread})
    case Seek(handle, pos) =>
      handle in s.handles && t == s.(handles := s.handles[handle := s.handles[handle].(pos := pos)])
    case Close(handle) => handle in s.handles && t == s.(handles := s.handles - {handle})
    case _ => false
  }

  /** The volume-locked half of a write or a resize, and the data-locked half that follows it. */
  ghost predicate ChangeStep(s: Fs, e: Event, t: Fs) {
    match e
    case Reserve(thread, pos, buf) =>
      && thread in s.pins && s.pins[thread] in s.files && s.pins[thread] !in s.changing
      && buf != [] && pos + |buf| <= U64_MAX
      && var f := s.pins[thread];
         var len := |s.files[f]|;
         var desired := Max(pos + |buf|, len);
         var granted := len + Min(SaturatingSub(desired, len), SaturatingSub(s.capacity, s.used));
         var n := Min(SaturatingSub(granted, pos), |buf|);
         t == s.(used := s.used + granted - len, changing := s.changing[f := Write(granted, pos, buf[..n])])
    case Account(thread, len) =>
      && thread in s.pins && s.pins[thread] in s.files && s.pins[thread] !in s.changing && len <= U64_MAX
      && var f := s.pins[thread];
         (match Resized(s.capacity, s.used, |s.files[f]|, len)
          case Err(_) => t == s
          case Ok(u) => t == s.(used := u, changing := s.changing[f := Resize(len)]))
    case Apply(thread) =>
      && thread in s.pins && s.pins[thread] in s.changing && s.pins[thread] in s.files
      && var f := s.pins[thread];
         (match s.changing[f]
          case Write(target, pos, bytes) =>
            if bytes == [] then
              t == s.(used := SaturatingSub(s.used, SaturatingSub(target, |s.files[f]|)), changing := s.changing - {f})
            else
              t == s.(files := s.files[f := Overwrite(s.files[f], pos, bytes)], changing := s.changing - {f})
          case Resize(target) =>
            t == s.(files := s.files[f := Extended(s.files[f], target)], changing := s.changing - {f}))
    case DropFile(file) =>
      && file in s.files && file !in Referenced(s)
      && t == s.(used := SaturatingSub(s.used, |s.files[file]|), files := s.files - {file},
                 returned := s.returned[file := |s.files[file]|])
    case _ => false
  }

  ghost predicate Next(s: Fs, e: Event, t: Fs) {
    TreeStep(s, e, t) || FileStep(s, e, t) || ReferenceStep(s, e, t) || ChangeStep(s, e, t)
  }

  // ---- Conservation ------------------------------------------------------------------------------

  ghost predicate ChangeFits(s: Fs, f: FileId)
    requires f in s.changing && f in s.files
  {
    match s.changing[f]
    case Resize(_) => true
    case Write(target, pos, bytes) =>
      target >= |s.files[f]| && (bytes != [] ==> target == Max(|s.files[f]|, pos + |bytes|))
  }

  /**
   * `used` is the exact sum of what the live files are charged, within capacity; every reference is to
   * a live file; and every file ever made is live or has been returned, never both.
   */
  ghost predicate Conserved(s: Fs) {
    && s.used == Total(Charges(s)) && s.used <= s.capacity
    && Referenced(s) <= s.files.Keys
    && (forall f :: f in s.changing ==> f in s.files && ChangeFits(s, f))
    && Ledger(s)
  }

  ghost predicate Ledger(s: Fs) {
    && (forall f: FileId :: f in s.files || f in s.returned <==> f < s.nextFile)
    && s.files.Keys !! s.returned.Keys
  }

  lemma SameCharges(s: Fs, t: Fs)
    requires t.files == s.files && t.changing == s.changing
    ensures Charges(t) == Charges(s)
  {}

  lemma InsertFiles(m: Entries, key: string, node: Node)
    requires IsKey(key)
    ensures FilesOf(Insert(m, key, node)) <= FilesOf(m) + (if node.Mem? then {node.file} else {})
  {
    var r := Insert(m, key, node);
    forall k | k in r && r[k].Mem? ensures r[k].file in FilesOf(m) + (if node.Mem? then {node.file} else {}) {
      AddAncestorsExact(m[key := node], key, k);
      assert Lookup(r, k) != None;
      if k != key { assert k in m && m[k] == r[k]; }
    }
  }

  lemma TreeStepConserves(s: Fs, e: Event, t: Fs)
    requires Conserved(s) && TreeStep(s, e, t)
    ensures Conserved(t) && t.capacity == s.capacity
  {
    SameCharges(s, t);
    assert FilesOf(t.entries) <= FilesOf(s.entries) by {
      if e.InsertSource? {
        InsertFiles(s.entries, Normalize(e.path), Source(e.source, FinalComponent(e.path)));
      } else if e.CreateDir? {
        InsertFiles(s.entries, Normalize(e.path), Dir(FinalComponent(e.path)));
      }
    }
  }

  /** A file that exists only for the tree and an opening thread starts empty and free of charge. */
  lemma NewFileConserves(s: Fs, t: Fs)
    requires Conserved(s)
    requires t == s.(entries := t.entries, pins := t.pins, files := s.files[s.nextFile := []],
                     nextFile := s.nextFile + 1)
    requires FilesOf(t.entries) <= FilesOf(s.entries) + {s.nextFile} && t.pins.Values <= s.pins.Values + {s.nextFile}
    ensures Conserved(t)
  {
    assert s.nextFile !in s.files;
    assert Charges(t) == Charges(s)[s.nextFile := 0];
    TotalUpdate(Charges(s), s.nextFile, 0);
  }

  lemma PinConserves(s: Fs, t: Fs, thread: nat, f: FileId)
    requires Conserved(s) && f in Referenced(s) && t == s.(pins := s.pins[thread := f])
    ensures Conserved(t)
  {
    SameCharges(s, t);
  }

  lemma FileStepConserves(s: Fs, e: Event, t: Fs)
    requires Conserved(s) && FileStep(s, e, t)
    ensures Conserved(t) && t.capacity == s.capacity
  {
    if t.nextFile == s.nextFile {
      if t != s {
        assert s.entries[Normalize(e.path)].file in FilesOf(s.entries);
        PinConserves(s, t, e.thread, s.entries[Normalize(e.path)].file);
      }
    } else {
      InsertFiles(s.entries, Normalize(e.path), Mem(s.nextFile, FinalComponent(e.path)));
      NewFileConserves(s, t);
    }
  }

  lemma ReferencesShrink(s: Fs, e: Event, t: Fs)
    requires ReferenceStep(s, e, t)
    ensures Referenced(t) <= Referenced(s)
  {
    if e.PinPath? { assert s.entries[Normalize(e.path)].file in FilesOf(s.entries); }
  }

  lemma ReferenceStepKeepsFiles(s: Fs, e: Event, t: Fs)
    requires ReferenceStep(s, e, t)
    ensures t.files == s.files && t.changing == s.changing && t.used == s.used && t.capacity == s.capacity
    ensures t.returned == s.returned && t.nextFile == s.nextFile
  {}

  lemma ReferenceStepConserves(s: Fs, e: Event, t: Fs)
    requires Conserved(s) && ReferenceStep(s, e, t)
    ensures Conserved(t) && t.capacity == s.capacity
  {
    ReferencesShrink(s, e, t);
    ReferenceStepKeepsFiles(s, e, t);
    SameCharges(s, t);
    ConservedMoves(s, t);
  }

  /** Conservation depends on the files and the accounting alone, and on nothing new being referenced. */
  lemma ConservedMoves(s: Fs, t: Fs)
    requires Conserved(s) && Referenced(t) <= Referenced(s) && Charges(t) == Charges(s)
    requires t.files == s.files && t.changing == s.changing && t.used == s.used && t.capacity == s.capacity
    requires t.returned == s.returned && t.nextFile == s.nextFile
    ensures Conserved(t)
  {
    forall f | f in t.changing ensures ChangeFits(t, f) { assert ChangeFits(s, f); }
  }

  /** Re-charging one file moves the total by exactly the difference. */
  lemma Recharge(s: Fs, t: Fs, f: FileId)
    requires f in s.files && f in t.files && t.files.Keys == s.files.Keys
    requires forall g :: g in s.files && g != f ==> Charge(t, g) == Charge(s, g)
    ensures Total(Charges(t)) == Total(Charges(s)) - Charge(s, f) + Charge(t, f)
  {
    assert Charges(t) == Charges(s)[f := Charge(t, f)];
    TotalUpdate(Charges(s), f, Charge(t, f));
  }

  lemma ReserveConserves(s: Fs, e: Event, t: Fs)
    requires Conserved(s) && e.Reserve? && ChangeStep(s, e, t)
    ensures Conserved(t)
  {
    var f := s.pins[e.thread];
    Recharge(s, t, f);
    assert f in Referenced(s);
  }

  lemma AccountConserves(s: Fs, e: Event, t: Fs)
    requires Conserved(s) && e.Account? && ChangeStep(s, e, t) && s.capacity < U64_MAX
    ensures Conserved(t)
  {
    var f := s.pins[e.thread];
    ShareOfTotal(Charges(s), f);
    ResizeExactIff(s.capacity, s.used, |s.files[f]|, e.len);
    if t != s {
      Recharge(s, t, f);
      assert f in Referenced(s);
    }
  }

  /** Ending a change whose charge the file's new length matches. */
  lemma SettleConserves(s: Fs, t: Fs, f: FileId, data: seq<Byte>)
    requires Conserved(s) && f in s.changing && |data| == Charge(s, f)
    requires t == s.(files := s.files[f := data], changing := s.changing - {f})
    ensures Conserved(t)
  {
    Recharge(s, t, f);
    forall g | g in t.changing ensures g in t.files && ChangeFits(t, g) { assert ChangeFits(s, g); }
  }

  /** Handing back a reservation that placed no byte. */
  lemma RollbackConserves(s: Fs, t: Fs, f: FileId)
    requires Conserved(s) && f in s.changing && s.changing[f].Write?
    requires t == s.(used := SaturatingSub(s.used, SaturatingSub(s.changing[f].target, |s.files[f]|)),
                     changing := s.changing - {f})
    ensures Conserved(t)
  {
    assert ChangeFits(s, f);
    ShareOfTotal(Charges(s), f);
    Recharge(s, t, f);
    forall g | g in t.changing ensures g in t.files && ChangeFits(t, g) { assert ChangeFits(s, g); }
  }

  lemma ApplyConserves(s: Fs, e: Event, t: Fs)
    requires Conserved(s) && e.Apply? && ChangeStep(s, e, t)
    ensures Conserved(t)
  {
    var f := s.pins[e.thread];
    assert ChangeFits(s, f);
    match s.changing[f]
    case Write(_, pos, bytes) =>
      if bytes == [] {
        RollbackConserves(s, t, f);
      } else {
        SettleConserves(s, t, f, Overwrite(s.files[f], pos, bytes));
      }
    case Resize(target) => SettleConserves(s, t, f, Extended(s.files[f], target));
  }

  lemma DropConserves(s: Fs, e: Event, t: Fs)
    requires Conserved(s) && e.DropFile? && ChangeStep(s, e, t)
    ensures Conserved(t)
  {
    ShareOfTotal(Charges(s), e.file);
    TotalWithout(Charges(s), e.file);
    assert Charges(t) == Charges(s) - {e.file};
  }

  lemma ChangeStepConserves(s: Fs, e: Event, t: Fs)
    requires Conserved(s) && ChangeStep(s, e, t) && s.capacity < U64_MAX
    ensures Conserved(t) && t.capacity == s.capacity
  {
    match e
    case Reserve(_, _, _) => ReserveConserves(s, e, t);
    case Account(_, _) => AccountConserves(s, e, t);
    case Apply(_) => ApplyConserves(s, e, t);
    case DropFile(_) => DropConserves(s, e, t);
  }

  lemma StepConserves(s: Fs, e: Event, t: Fs)
    requires Conserved(s) && Next(s, e, t) && s.capacity < U64_MAX
    ensures Conserved(t) && t.capacity == s.capacity
  {
    if TreeStep(s, e, t) {
      TreeStepConserves(s, e, t);
    } else if FileStep(s, e, t) {
      FileStepConserves(s, e, t);
    } else if ReferenceStep(s, e, t) {
      ReferenceStepConserves(s, e, t);
    } else {
      ChangeStepConserves(s, e, t);
    }
  }

  ghost predicate IsRun(capacity: nat, states: seq<Fs>, events: seq<Event>) {
    && |states| == |events| + 1 && Init(states[0], capacity)
    && forall i :: 0 <= i < |events| ==> Next(states[i], events[i], states[i + 1])
  }

  /** Conservation holds in every state of every run. */
  lemma {:induction false} RunConserves(capacity: nat, states: seq<Fs>, events: seq<Event>, i: nat)
    requires capacity < U64_MAX && IsRun(capacity, states, events) && i < |states|
    ensures Conserved(states[i]) && states[i].capacity == capacity
    decreases i
  {
    if i == 0 {
      assert Charges(states[0]) == map[];
    } else {
      RunConserves(capacity, states, events, i - 1);
      StepConserves(states[i - 1], events[i - 1], states[i]);
    }
  }

  ghost function Lengths(files: map<FileId, seq<Byte>>): (m: map<FileId, nat>) { map f | f in files :: |files[f]| }

  /**
   * Between operations, with every dead file dropped, `used` is the total length of exactly the files
   * the tree or a handle still refers to.
   */
  lemma SettledUsage(capacity: nat, states: seq<Fs>, events: seq<Event>, i: nat)
    requires capacity < U64_MAX && IsRun(capacity, states, events) && i < |states|
    requires states[i].changing == map[] && forall f :: f in states[i].files ==> f in Referenced(states[i])
    ensures states[i].files.Keys == Referenced(states[i])
    ensures states[i].used == Total(Lengths(states[i].files)) <= capacity
  {
    RunConserves(capacity, states, events, i);
    assert Charges(states[i]) == Lengths(states[i].files);
  }

  /** No saturating subtraction ever saturates: what a step takes off `used` is there. */
  lemma SubtractionsAreExact(capacity: nat, states: seq<Fs>, events: seq<Event>, i: nat, f: FileId)
    requires capacity < U64_MAX && IsRun(capacity, states, events) && i < |states| && f in states[i].files
    ensures Charge(states[i], f) <= states[i].used <= capacity
    ensures f in states[i].changing && states[i].changing[f].Write? ==>
              |states[i].files[f]| <= states[i].changing[f].target
  {
    RunConserves(capacity, states, events, i);
    ShareOfTotal(Charges(states[i]), f);
    if f in states[i].changing { assert ChangeFits(states[i], f); }
  }

  lemma StepKeepsReturned(s: Fs, e: Event, t: Fs, f: FileId)
    requires Next(s, e, t) && f in s.returned && f !in s.files
    ensures f in t.returned && t.returned[f] == s.returned[f]
  {
    if TreeStep(s, e, t) || FileStep(s, e, t) || ReferenceStep(s, e, t) {
      assert t.returned == s.returned;
    }
  }

  /** A file's bytes go back exactly once: a returned file stays returned, with the same amount, for good. */
  lemma {:induction false} ReturnedOnce(capacity: nat, states: seq<Fs>, events: seq<Event>, i: nat, j: nat, f: FileId)
    requires capacity < U64_MAX && IsRun(capacity, states, events) && i <= j < |states|
    requires f in states[i].returned
    ensures f in states[j].returned && states[j].returned[f] == states[i].returned[f]
    ensures f !in states[j].files && f !in Referenced(states[j])
    decreases j
  {
    if i < j {
      ReturnedOnce(capacity, states, events, i, j - 1, f);
      StepKeepsReturned(states[j - 1], events[j - 1], states[j], f);
    }
    RunConserves(capacity, states, events, j);
    assert Ledger(states[j]);
  }

  /** A reserve directly followed by its apply is the one-shot write of the file layer. */
  lemma ReserveApplyIsWrite(s: Fs, mid: Fs, t: Fs, thread: nat, pos: nat, buf: seq<Byte>)
    requires s.used <= s.capacity && ChangeStep(s, Reserve(thread, pos, buf), mid) && ChangeStep(mid, Apply(thread), t)
    ensures var f := s.pins[thread];
            var (r, g) := WriteOnce(OpenFile(s.files[f], pos, s.capacity - s.used), buf);
            && t.files == s.files[f := g.data]
            && t.used == s.capacity - g.free
            && (r.Ok? ==> mid.changing[f].bytes == buf[..r.value])
            && (r.Err? ==> mid.changing[f].bytes == [])
  {
    var f := s.pins[thread];
    var data := s.files[f];
    var n := ShortCount(|data|, s.capacity - s.used, pos, |buf|);
    assert mid.changing[f].bytes == buf[..n];
    if n == 0 {
      assert t.files == s.files;
    } else {
      assert t.files == s.files[f := Overwrite(data, pos, buf[..n])];
    }
  }

  // ---- The tree stays a tree --------------------------------------------------------------------

  /** The one thing the provider does not check: a file where a directory is needed. */
  ghost predicate NoFileInTheWay(m: Entries, e: Event) {
    match e
    case OpenTree(_, path, _) => Normalize(path) in m || DirsAbove(m, Normalize(path), Normalize(path))
    case CreateDir(path) => Normalize(path) in m || DirsAbove(m, Normalize(path), Normalize(path))
    case Rename(fromPath, toPath) => DirsAbove(m, Normalize(toPath), Normalize(fromPath))
    case InsertWritable(path) => FreeForFile(m, Normalize(path))
    case InsertSource(path, _) => FreeForFile(m, Normalize(path))
    case RemoveSubtree(key) => key != ROOT
    case _ => true
  }

  ghost predicate FreeForFile(m: Entries, key: string) {
    DirsAbove(m, key, key) && forall k :: k in m ==> !IsAncestor(key, k)
  }

  lemma TreeStepKeepsTree(s: Fs, e: Event, t: Fs)
    requires WellFormed(s.entries) && TreeStep(s, e, t) && NoFileInTheWay(s.entries, e)
    ensures WellFormed(t.entries)
  {
    var m := s.entries;
    if t.entries != m {
      match e
      case CreateDir(path) => InsertWellFormedIff(m, Normalize(path), Dir(FinalComponent(path)));
      case InsertSource(path, source) => InsertWellFormedIff(m, Normalize(path), Source(source, FinalComponent(path)));
      case Remove(path) => RemoveKeepsTree(m, Normalize(path));
      case Rename(fromPath, toPath) =>
             RenameWellFormedIff(m, t.entries, Normalize(fromPath), Normalize(toPath), toPath);
      case RemoveSubtree(key) => UnmountWellFormedIff(m, key);
    }
  }

  lemma FileStepKeepsTree(s: Fs, e: Event, t: Fs)
    requires WellFormed(s.entries) && FileStep(s, e, t) && NoFileInTheWay(s.entries, e)
    ensures WellFormed(t.entries)
  {
    var m := s.entries;
    if t.entries != m {
      var node := Mem(s.nextFile, FinalComponent(e.path));
      if e.OpenTree? { NewKeyIsBare(m, Normalize(e.path)); }
      InsertWellFormedIff(m, Normalize(e.path), node);
    }
  }

  lemma StepKeepsTree(s: Fs, e: Event, t: Fs)
    requires WellFormed(s.entries) && Next(s, e, t) && NoFileInTheWay(s.entries, e)
    ensures WellFormed(t.entries)
  {
    if TreeStep(s, e, t) {
      TreeStepKeepsTree(s, e, t);
    } else if FileStep(s, e, t) {
      FileStepKeepsTree(s, e, t);
    } else {
      assert t.entries == s.entries;
    }
  }

  lemma NewKeyIsBare(m: Entries, key: string)
    requires WellFormed(m) && IsKey(key) && key !in m
    ensures forall k :: k in m ==> !IsAncestor(key, k)
  {
    forall k | k in m ensures !IsAncestor(key, k) {
      if IsAncestor(key, k) { AncestorsAreDirs(m, k, key); }
    }
  }

  /** In every run that never puts a node below a file, every non-root key's parent is a directory. */
  lemma {:induction false} RunKeepsTree(capacity: nat, states: seq<Fs>, events: seq<Event>, i: nat)
    requires IsRun(capacity, states, events) && i < |states|
    requires forall j :: 0 <= j < |events| ==> NoFileInTheWay(states[j].entries, events[j])
    ensures WellFormed(states[i].entries)
    decreases i
  {
    if i > 0 {
      RunKeepsTree(capacity, states, events, i - 1);
      StepKeepsTree(states[i - 1], events[i - 1], states[i]);
    }
  }
}
