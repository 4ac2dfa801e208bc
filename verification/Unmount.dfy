/** Dropping a mount guard: the subtree goes, and the directories that only it kept alive. */
module Unmount {
  import opened Wrappers
  import opened Paths
  import opened Tree
  import opened TreeMoves

  /** A directory above `key` that nothing outside `key`'s own branch lives in. */
  ghost predicate KeptOnlyBy(m: Entries, dir: string, key: string) {
    && dir != ROOT && IsAncestor(dir, key)
    && forall j :: j in m && IsAncestor(dir, j) ==> Under(j, key) || IsAncestor(j, key)
  }

  /** The key hangs below a directory (always so when it is itself in the tree). */
  ghost predicate Attached(m: Entries, key: string)
    requires IsKey(key)
  {
    Up(key) in m && m[Up(key)].Dir?
  }

  /** What unmounting `key` takes away: its subtree and the directories it alone kept alive. */
  ghost predicate Removed(m: Entries, key: string, k: string)
    requires IsKey(key)
  {
    Under(k, key) || (Attached(m, key) && KeptOnlyBy(m, k, key))
  }

  /** The tree after unmounting `key`. */
  ghost function Unmounted(m: Entries, key: string): (r: Entries)
    requires IsKey(key)
  {
    map k | k in m && !Removed(m, key, k) :: m[k]
  }

  /** The map while pruning has reached `dir`: the subtree gone, and the ancestors below `dir`. */
  ghost function MidPrune(m: Entries, key: string, dir: string): (r: Entries) {
    map k | k in m && !Under(k, key) && !(IsAncestor(k, key) && IsAncestor(dir, k)) :: m[k]
  }

  /** Pruning has reached `dir`, having removed only what unmounting takes away. */
  ghost predicate Pruning(m: Entries, key: string, r: Entries, dir: string)
    requires IsKey(key)
  {
    if key == ROOT then dir == ROOT && r == map k | k in m && !Under(k, ROOT) :: m[k]
    else
      && IsAncestor(dir, key) && r == MidPrune(m, key, dir)
      && (dir != Up(key) ==> Attached(m, key) && dir in m && m[dir].Dir?)
      && forall a :: IsAncestor(a, key) && IsAncestor(dir, a) ==> KeptOnlyBy(m, a, key)
  }

  /** Walk up from `dir` while it is a childless directory, removing it. */
  ghost function PruneUp(r: Entries, dir: string): (out: Entries)
    requires IsKey(dir)
    ensures out.Keys <= r.Keys && forall k :: k in out ==> out[k] == r[k]
    decreases |r|
  {
    if dir in r && r[dir].Dir? && !HasChild(r, dir) then PruneUp(r - {dir}, Up(dir)) else r
  }

  /** Retain what is not under the key, then walk up while the parent is a childless directory. */
  method RemoveSubtree(m: Entries, key: string) returns (r: Entries)
    requires IsKey(key)
    ensures r.Keys <= m.Keys && forall k :: k in r ==> r[k] == m[k]
    ensures WellFormed(m) ==> r == Unmounted(m, key)
  {
    r := map k | k in m && !Under(k, key) :: m[k];
    var ancestor := ParentKey(key);
    KeyFacts(key);
    ghost var rest, up := r, Up(key);
    while ancestor.Some?
      invariant ancestor.Some? && IsKey(ancestor.value) && PruneUp(r, ancestor.value) == PruneUp(rest, up)
      decreases |r|
    {
      var dir := ancestor.value;
      if !(dir in r && r[dir].Dir?) || HasChild(r, dir) {
        break;
      }
      KeyFacts(dir);
      r := r - {dir};
      ancestor := ParentKey(dir);
    }
    if WellFormed(m) {
      PruningStarts(m, key, rest);
      PruningEnds(m, key, rest, up);
    }
  }

  /** From any point of the pruning the walk ends with exactly the unmounted tree. */
  lemma {:induction false} PruningEnds(m: Entries, key: string, r: Entries, dir: string)
    requires WellFormed(m) && IsKey(key) && IsKey(dir) && Pruning(m, key, r, dir)
    ensures PruneUp(r, dir) == Unmounted(m, key)
    decreases |r|
  {
    if !(dir in r && r[dir].Dir?) {
      PruningStops(m, key, r, dir);
    } else if HasChild(r, dir) {
      PruningStopsAtChild(m, key, r, dir);
    } else {
      PruningGoesOn(m, key, r, dir);
      PruningEnds(m, key, r - {dir}, Up(dir));
    }
  }

  lemma PruningStarts(m: Entries, key: string, r: Entries)
    requires WellFormed(m) && IsKey(key) && r == map k | k in m && !Under(k, key) :: m[k]
    ensures Pruning(m, key, r, Up(key))
  {
    if key == ROOT { KeyFacts(ROOT); } else { NothingBetween(m, key, r); }
  }

  lemma PruningStops(m: Entries, key: string, r: Entries, dir: string)
    requires WellFormed(m) && IsKey(key) && Pruning(m, key, r, dir) && !(dir in r && r[dir].Dir?)
    ensures r == Unmounted(m, key)
  {
    if key == ROOT {
      StopAtRoot(m, r);
    } else {
      StillThere(m, key, dir);
      StopDetached(m, key, r);
    }
  }

  lemma PruningStopsAtChild(m: Entries, key: string, r: Entries, dir: string)
    requires WellFormed(m) && IsKey(key) && Pruning(m, key, r, dir) && dir in r && r[dir].Dir? && HasChild(r, dir)
    ensures r == Unmounted(m, key)
  {
    if key == ROOT {
      StopAtRoot(m, r);
    } else {
      StillThere(m, key, dir);
      StopAtChild(m, key, dir);
    }
  }

  lemma PruningGoesOn(m: Entries, key: string, r: Entries, dir: string)
    requires WellFormed(m) && IsKey(key) && Pruning(m, key, r, dir) && IsKey(dir) && dir in r && r[dir].Dir?
             && !HasChild(r, dir)
    ensures Pruning(m, key, r - {dir}, Up(dir))
  {
    if key == ROOT {
      StopAtRoot(m, r);
    } else {
      StillThere(m, key, dir);
      PruneOne(m, key, dir);
    }
  }

  lemma StopAtRoot(m: Entries, r: Entries)
    requires WellFormed(m) && IsKey(ROOT)
    requires r == map k | k in m && !Under(k, ROOT) :: m[k]
    ensures r == Unmounted(m, ROOT) && ROOT !in r
  {
    KeyFacts(ROOT);
  }

  lemma StopDetached(m: Entries, key: string, r: Entries)
    requires WellFormed(m) && IsKey(key) && key != ROOT
    requires r == MidPrune(m, key, Up(key))
    requires !(Up(key) in r && r[Up(key)].Dir?)
    ensures r == Unmounted(m, key)
  {
    AncestorStep(Up(key), key);
    UnderIsAncestry(Up(key), key);
    NothingBetween(m, key, map k | k in m && !Under(k, key) :: m[k]);
  }

  lemma NothingBetween(m: Entries, key: string, r: Entries)
    requires WellFormed(m) && IsKey(key) && key != ROOT
    requires r == map k | k in m && !Under(k, key) :: m[k]
    ensures r == MidPrune(m, key, Up(key)) && IsAncestor(Up(key), key)
    ensures forall a :: IsAncestor(a, key) ==> !IsAncestor(Up(key), a)
  {
    AncestorStep(Up(key), key);
    forall a | IsAncestor(a, key) ensures !IsAncestor(Up(key), a) {
      AncestorStep(a, key);
    }
  }

  lemma StillThere(m: Entries, key: string, dir: string)
    requires WellFormed(m) && IsAncestor(dir, key)
    ensures Lookup(MidPrune(m, key, dir), dir) == Lookup(m, dir)
  {
    UnderIsAncestry(dir, key);
  }

  /** A child that survives below `dir` keeps `dir`, and with it everything above. */
  lemma StopAtChild(m: Entries, key: string, dir: string)
    requires WellFormed(m) && IsKey(key) && IsAncestor(dir, key) && dir in m && Attached(m, key)
    requires forall a :: IsAncestor(a, key) && IsAncestor(dir, a) ==> KeptOnlyBy(m, a, key)
    requires HasChild(MidPrune(m, key, dir), dir)
    ensures MidPrune(m, key, dir) == Unmounted(m, key)
  {
    var r := MidPrune(m, key, dir);
    forall k | k in m && !Under(k, key) ensures k in r <==> !Removed(m, key, k) {
      if IsAncestor(k, key) {
        AncestorsComparable(k, dir, key);
        if k == dir || IsAncestor(k, dir) {
          ChildKeeps(m, key, dir, k);
        } else {
          assert KeptOnlyBy(m, k, key);
        }
      }
    }
  }

  lemma ChildKeeps(m: Entries, key: string, dir: string, a: string)
    requires WellFormed(m) && IsKey(key) && IsAncestor(dir, key)
    requires HasChild(MidPrune(m, key, dir), dir)
    requires a == dir || IsAncestor(a, dir)
    ensures !KeptOnlyBy(m, a, key)
  {
    if a != ROOT {
      var c :| c in MidPrune(m, key, dir) && ParentKey(c) == Some(dir);
      KeyFacts(ROOT);
      KeyFacts(dir);
      KeyFacts(a);
      AncestorStep(dir, c);
      assert IsAncestor(a, c) && !Under(c, key);
    }
  }

  lemma AncestorsComparable(a: string, b: string, k: string)
    requires IsAncestor(a, k) && IsAncestor(b, k)
    ensures a == b || IsAncestor(a, b) || IsAncestor(b, a)
  {
    var ca, cb, ck := Components(a), Components(b), Components(k);
    if |ca| == |cb| {
      assert ca == ck[..|ca|] == cb;
      KeysDeterminedByComponents(a, b);
    } else if |ca| < |cb| {
      assert ca == ck[..|cb|][..|ca|] == cb[..|ca|];
    } else {
      assert cb == ck[..|ca|][..|cb|] == ca[..|cb|];
    }
  }

  /** All that lives below a directory with no child left is the key's own branch. */
  lemma OnlyTheBranch(m: Entries, key: string, dir: string)
    requires WellFormed(m) && IsKey(key) && IsAncestor(dir, key) && dir != ROOT
    requires forall a :: IsAncestor(a, key) && IsAncestor(dir, a) ==> KeptOnlyBy(m, a, key)
    requires !HasChild(MidPrune(m, key, dir), dir)
    ensures KeptOnlyBy(m, dir, key)
  {
    forall j | j in m && IsAncestor(dir, j) ensures Under(j, key) || IsAncestor(j, key) {
      var c := ChildTowards(m, dir, j);
      assert c !in MidPrune(m, key, dir);
      AncestorStep(dir, c);
      UnderIsAncestry(c, key);
      UnderIsAncestry(j, key);
      if IsAncestor(c, key) && c != j {
        assert KeptOnlyBy(m, c, key);
      }
    }
  }

  /** On the way down to `key`, what lies below the parent of `dir` is `dir` and what lies below it. */
  lemma BelowParent(key: string, dir: string, a: string)
    requires IsAncestor(dir, key) && IsKey(dir) && dir != ROOT && IsAncestor(a, key)
    ensures IsAncestor(Up(dir), a) <==> a == dir || IsAncestor(dir, a)
  {
    AncestorStep(Up(dir), dir);
    AncestorsComparable(a, dir, key);
    if IsAncestor(a, dir) { AncestorStep(a, dir); }
  }

  lemma PruneMap(m: Entries, key: string, dir: string, up: string)
    requires IsAncestor(dir, key)
    requires forall a :: IsAncestor(a, key) ==> (IsAncestor(up, a) <==> a == dir || IsAncestor(dir, a))
    ensures MidPrune(m, key, dir) - {dir} == MidPrune(m, key, up)
  {}

  /** A childless directory is the next link of the chain. */
  lemma PruneOne(m: Entries, key: string, dir: string)
    requires WellFormed(m) && IsKey(key) && key != ROOT && IsAncestor(dir, key) && dir in m && m[dir].Dir?
             && Attached(m, key)
    requires forall a :: IsAncestor(a, key) && IsAncestor(dir, a) ==> KeptOnlyBy(m, a, key)
    requires !HasChild(MidPrune(m, key, dir), dir)
    ensures dir != ROOT && IsAncestor(Up(dir), key) && Up(dir) in m && m[Up(dir)].Dir?
    ensures MidPrune(m, key, dir) - {dir} == MidPrune(m, key, Up(dir))
    ensures forall a :: IsAncestor(a, key) && IsAncestor(Up(dir), a) ==> KeptOnlyBy(m, a, key)
  {
    StillThere(m, key, dir);
    KeyFacts(dir);
    assert dir != ROOT by { KeyFacts(ROOT); }
    AncestorStep(Up(dir), dir);
    OnlyTheBranch(m, key, dir);
    forall a | IsAncestor(a, key)
      ensures IsAncestor(Up(dir), a) <==> a == dir || IsAncestor(dir, a) { BelowParent(key, dir, a); }
    PruneMap(m, key, dir, Up(dir));
  }

  /** Unmounting keeps a tree a tree, unless it takes the root from under other keys. */
  lemma UnmountWellFormedIff(m: Entries, key: string)
    requires WellFormed(m) && IsKey(key)
    ensures WellFormed(Unmounted(m, key)) <==> key != ROOT || m.Keys <= {ROOT}
  {
    var r := Unmounted(m, key);
    KeyFacts(key);
    if key != ROOT {
      forall k | k in r && k != ROOT ensures Up(k) in r && r[Up(k)].Dir? {
        var p := Up(k);
        AncestorStep(p, k);
        UnderIsAncestry(k, key);
        UnderIsAncestry(p, key);
        if KeptOnlyBy(m, p, key) {
          KeptChain(m, p, k, key);
        }
      }
    } else {
      forall k | k in m ensures k in r <==> k != ROOT { UnderIsAncestry(k, ROOT); }
      if WellFormed(r) && !(m.Keys <= {ROOT}) {
        var k :| k in m && k != ROOT;
        KeyFacts(k);
        AncestorsAreDirs(r, k, ROOT);
      }
    }
  }

  lemma KeptChain(m: Entries, p: string, k: string, key: string)
    requires WellFormed(m) && IsKey(key) && k in m && k != ROOT && Up(k) == p && KeptOnlyBy(m, p, key)
    ensures Under(k, key) || KeptOnlyBy(m, k, key)
  {
    AncestorStep(p, k);
    if !Under(k, key) {
      forall j | j in m && IsAncestor(k, j) ensures Under(j, key) || IsAncestor(j, key) {}
    }
  }

  // ---- Whole mount/unmount histories ------------------------------------------------------------

  /** What is mounted: a read-only source, or an empty writable file. */
  datatype Mounted = ReadOnly(source: nat) | Writable(file: FileId) {
    function NodeAt(key: string): (n: Node)
      ensures !n.Dir?
    {
      if ReadOnly? then Source(source, FinalComponent(key)) else Mem(file, FinalComponent(key))
    }
  }

  datatype MountOp = Mount(key: string, what: Mounted) | Drop(key: string)

  /** The caller's contract: live mount keys are unique and not nested. */
  ghost predicate Legal(live: set<string>, op: MountOp) {
    match op
    case Drop(key) => key in live
    case Mount(key, _) =>
      && IsKey(key) && key != ROOT && key !in live
      && forall l :: l in live ==> !IsAncestor(l, key) && !IsAncestor(key, l)
  }

  ghost function StepLive(live: set<string>, op: MountOp): (r: set<string>) {
    match op case Mount(key, _) => live + {key} case Drop(key) => live - {key}
  }

  ghost function StepTree(m: Entries, op: MountOp): (r: Entries)
    requires IsKey(op.key)
  {
    match op
    case Mount(key, what) => Insert(m, key, what.NodeAt(key))
    case Drop(key) => Unmounted(m, key)
  }

  ghost predicate AboveLive(live: set<string>, k: string) { exists l :: l in live && IsAncestor(k, l) }

  /** The tree is the ancestor closure of the live mounts, with at most the root besides. */
  ghost predicate IsClosure(m: Entries, live: set<string>) {
    && (forall l :: l in live ==> IsKey(l) && l != ROOT)
    && (forall l, l' :: l in live && l' in live ==> !IsAncestor(l, l'))
    && (forall k :: k in live ==> k in m && !m[k].Dir?)
    && (forall k :: AboveLive(live, k) ==> k in m && m[k].Dir?)
    && (forall k :: k in m ==> k in live || AboveLive(live, k) || (k == ROOT && m[k].Dir?))
  }

  lemma ClosureIsWellFormed(m: Entries, live: set<string>)
    requires IsClosure(m, live)
    ensures WellFormed(m)
  {
    KeyOfIsKey([]);
    assert KeyOf([]) == ROOT;
    forall k | k in m ensures IsKey(k) && (k != ROOT ==> Up(k) in m && m[Up(k)].Dir?) {
      if k != ROOT {
        AncestorStep(Up(k), k);
        assert AboveLive(live, Up(k)) by {
          if k in live {
            assert IsAncestor(Up(k), k);
          } else {
            var l :| l in live && IsAncestor(k, l);
            assert IsAncestor(Up(k), l);
          }
        }
      }
    }
  }

  /** The tree a mount leaves: the node, the old entries, and the directories that were missing above. */
  lemma MountedAt(m: Entries, key: string, what: Mounted, k: string)
    requires IsKey(key)
    ensures Lookup(StepTree(m, Mount(key, what)), k) ==
            (if k == key then Some(what.NodeAt(key)) else if k in m then Some(m[k])
             else if IsAncestor(k, key) then Some(Dir(FinalComponent(k))) else None)
  {
    AddAncestorsExact(m[key := what.NodeAt(key)], key, k);
  }

  lemma AboveOneMore(live: set<string>, key: string, k: string)
    ensures AboveLive(live + {key}, k) <==> AboveLive(live, k) || IsAncestor(k, key)
  {
    if AboveLive(live, k) {
      var l :| l in live && IsAncestor(k, l);
      assert l in live + {key};
    }
    if IsAncestor(k, key) { assert key in live + {key}; }
  }

  lemma MountKeepsClosure(m: Entries, live: set<string>, op: MountOp)
    requires IsClosure(m, live) && op.Mount? && Legal(live, op)
    ensures IsClosure(StepTree(m, op), live + {op.key})
  {
    var key := op.key;
    var r := StepTree(m, op);
    forall k ensures AboveLive(live + {key}, k) <==> AboveLive(live, k) || IsAncestor(k, key) {
      AboveOneMore(live, key, k);
    }
    forall k | AboveLive(live + {key}, k) ensures k in r && r[k].Dir? {
      MountedAt(m, key, op.what, k);
      assert !AboveLive(live, key);
    }
    forall k | k in r ensures k in live + {key} || AboveLive(live + {key}, k) || (k == ROOT && r[k].Dir?) {
      MountedAt(m, key, op.what, k);
    }
    forall k | k in live + {key} ensures k in r && !r[k].Dir? { MountedAt(m, key, op.what, k); }
  }

  lemma DropKeepsClosure(m: Entries, live: set<string>, key: string)
    requires IsClosure(m, live) && key in live
    ensures IsClosure(Unmounted(m, key), live - {key})
  {
    ClosureIsWellFormed(m, live);
    var r, rest := Unmounted(m, key), live - {key};
    AncestorStep(Up(key), key);
    assert AboveLive(live, Up(key));
    forall k | AboveLive(rest, k) ensures k in r && r[k].Dir? {
      var l :| l in rest && IsAncestor(k, l);
      assert l in live && AboveLive(live, k);
      UnderIsAncestry(k, key);
      UnderIsAncestry(l, key);
    }
    forall k | k in rest ensures k in r && !r[k].Dir? {
      UnderIsAncestry(k, key);
      assert !IsAncestor(k, key);
    }
    forall k | k in r ensures k in rest || AboveLive(rest, k) || (k == ROOT && r[k].Dir?) {
      UnderIsAncestry(k, key);
      if k !in live && k != ROOT && IsAncestor(k, key) {
        var j :| j in m && IsAncestor(k, j) && !Under(j, key) && !IsAncestor(j, key);
        UnderIsAncestry(j, key);
        Witness(live, key, k, j);
      } else if k !in live && AboveLive(live, k) {
        var l :| l in live && IsAncestor(k, l);
        if l != key { assert l in rest; }
      }
    }
  }

  /** Something off the dropped branch is, or leads to, another live mount. */
  lemma Witness(live: set<string>, key: string, k: string, j: string)
    requires IsAncestor(k, j) && j != key && !IsAncestor(j, key)
    requires j in live || AboveLive(live, j) || j == ROOT
    ensures AboveLive(live - {key}, k)
  {
    KeyFacts(j);
    if j in live {
      assert j in live - {key};
    } else {
      var l :| l in live && IsAncestor(j, l);
      assert l in live - {key} && IsAncestor(k, l);
    }
  }

  ghost predicate LegalRun(live: set<string>, ops: seq<MountOp>)
    decreases |ops|
  {
    ops == [] || (Legal(live, ops[0]) && LegalRun(StepLive(live, ops[0]), ops[1..]))
  }

  ghost function RunLive(live: set<string>, ops: seq<MountOp>): (r: set<string>)
    decreases |ops|
  {
    if ops == [] then live else RunLive(StepLive(live, ops[0]), ops[1..])
  }

  ghost function RunTree(m: Entries, ops: seq<MountOp>): (r: Entries)
    requires forall i :: 0 <= i < |ops| ==> IsKey(ops[i].key)
    decreases |ops|
  {
    if ops == [] then m else RunTree(StepTree(m, ops[0]), ops[1..])
  }

  /** After any legal history of mounts and unmounts, the entries are the live mounts and their ancestors. */
  lemma {:induction false} HistoryLeavesTheClosure(m: Entries, live: set<string>, ops: seq<MountOp>)
    requires IsClosure(m, live) && LegalRun(live, ops)
    requires forall i :: 0 <= i < |ops| ==> IsKey(ops[i].key)
    ensures IsClosure(RunTree(m, ops), RunLive(live, ops))
    decreases |ops|
  {
    if ops != [] {
      if ops[0].Mount? {
        MountKeepsClosure(m, live, ops[0]);
      } else {
        DropKeepsClosure(m, live, ops[0].key);
      }
      HistoryLeavesTheClosure(StepTree(m, ops[0]), StepLive(live, ops[0]), ops[1..]);
    }
  }

  /** From an empty tree, unmounting everything leaves nothing but possibly the root. */
  lemma EverythingUnmounted(ops: seq<MountOp>)
    requires LegalRun({}, ops) && RunLive({}, ops) == {}
    requires forall i :: 0 <= i < |ops| ==> IsKey(ops[i].key)
    ensures RunTree(map[], ops).Keys <= {ROOT}
  {
    HistoryLeavesTheClosure(map[], {}, ops);
    assert forall k :: !AboveLive({}, k);
  }
}
