/** What creating, renaming and unmounting do to the whole tree. */
module TreeMoves {
  import opened Wrappers
  import opened Io
  import opened Paths
  import opened Tree

  // ---- Creating a node -------------------------------------------------------------------

  /** Put a node at `key` and synthesize its missing ancestors. */
  function Insert(m: Entries, key: string, node: Node): (r: Entries)
    requires IsKey(key)
  {
    AddAncestors(m[key := node], key)
  }

  /** No strict ancestor of `key`, other than `except`, is a file. */
  ghost predicate DirsAbove(m: Entries, key: string, except: string) {
    forall a :: a in m && a != except && IsAncestor(a, key) ==> m[a].Dir?
  }

  /** What is found at `k` after an insertion. */
  lemma InsertedAt(m: Entries, key: string, node: Node, k: string)
    requires IsKey(key)
    ensures Lookup(Insert(m, key, node), k) ==
            if k == key then Some(node)
            else if k in m then Some(m[k])
            else if IsAncestor(k, key) then Some(Dir(FinalComponent(k)))
            else None
  {
    AddAncestorsExact(m[key := node], key, k);
  }

  /** A strict ancestor of the new node is a directory afterwards. */
  lemma InsertedAbove(m: Entries, key: string, node: Node, a: string)
    requires IsKey(key) && DirsAbove(m, key, key) && IsAncestor(a, key)
    ensures a in Insert(m, key, node) && Insert(m, key, node)[a].Dir?
  {
    InsertedAt(m, key, node, a);
  }

  /** The parent of a node that was there is a directory afterwards. */
  lemma InsertedParent(m: Entries, key: string, node: Node, k: string)
    requires WellFormed(m) && IsKey(key) && (node.Dir? || forall k :: k in m ==> !IsAncestor(key, k))
    requires k in m && k != ROOT
    ensures Up(k) in Insert(m, key, node) && Insert(m, key, node)[Up(k)].Dir?
  {
    InsertedAt(m, key, node, Up(k));
    AncestorStep(Up(k), k);
  }

  lemma InsertedFits(m: Entries, key: string, node: Node, k: string)
    requires WellFormed(m) && IsKey(key) && DirsAbove(m, key, key)
    requires node.Dir? || forall k :: k in m ==> !IsAncestor(key, k)
    requires k in Insert(m, key, node)
    ensures IsKey(k) && (k != ROOT ==> Up(k) in Insert(m, key, node) && Insert(m, key, node)[Up(k)].Dir?)
  {
    InsertedAt(m, key, node, k);
    if k != ROOT && (k == key || k !in m) {
      AncestorStep(Up(k), k);
      if k != key { AncestorTrans(Up(k), k, key); }
      InsertedAbove(m, key, node, Up(k));
    } else if k != ROOT {
      InsertedParent(m, key, node, k);
    }
  }

  lemma AncestorTrans(a: string, b: string, c: string)
    requires IsAncestor(a, b) && IsAncestor(b, c)
    ensures IsAncestor(a, c)
  {}

  lemma InsertKeepsWellFormed(m: Entries, key: string, node: Node)
    requires WellFormed(m) && IsKey(key) && DirsAbove(m, key, key)
    requires node.Dir? || forall k :: k in m ==> !IsAncestor(key, k)
    ensures WellFormed(Insert(m, key, node))
  {
    forall k | k in Insert(m, key, node)
      ensures IsKey(k) && (k != ROOT ==> Up(k) in Insert(m, key, node) && Insert(m, key, node)[Up(k)].Dir?)
    {
      InsertedFits(m, key, node, k);
    }
  }

  lemma WellFormedInsertFits(m: Entries, key: string, node: Node)
    requires WellFormed(m) && IsKey(key) && WellFormed(Insert(m, key, node))
    ensures DirsAbove(m, key, key) && (node.Dir? || forall k :: k in m ==> !IsAncestor(key, k))
  {
    var base := m[key := node];
    var r := Insert(m, key, node);
    AddAncestorsExact(base, key, key);
    forall a | a in m && a != key && IsAncestor(a, key) ensures m[a].Dir? {
      AddAncestorsExact(base, key, a);
      AncestorsAreDirs(r, key, a);
    }
    forall k | k in m && IsAncestor(key, k) ensures node.Dir? {
      AddAncestorsExact(base, key, k);
      AncestorsAreDirs(r, k, key);
    }
  }

  /**
   * A file kept as an ancestor is what breaks the tree: creation keeps it well formed exactly when
   * no strict ancestor is a file and a new file does not cover existing children.
   */
  lemma InsertWellFormedIff(m: Entries, key: string, node: Node)
    requires WellFormed(m) && IsKey(key)
    ensures WellFormed(Insert(m, key, node)) <==>
            && DirsAbove(m, key, key)
            && (node.Dir? || forall k :: k in m ==> !IsAncestor(key, k))
  {
    if DirsAbove(m, key, key) && (node.Dir? || forall k :: k in m ==> !IsAncestor(key, k)) {
      InsertKeepsWellFormed(m, key, node);
    }
    if WellFormed(Insert(m, key, node)) {
      WellFormedInsertFits(m, key, node);
    }
  }

  // ---- Renaming -----------------------------------------------------------------------------

  /** Keep the suffix, swap the prefix. */
  function Rekey(k: string, from: string, to: string): (r: string)
    requires from <= k
  {
    to + k[|from|..]
  }

  function Renamed(n: Node, name: string): (r: Node) { n.(name := name) }

  /** The destination check, in the order the source makes it. */
  function RenameError(m: Entries, from: string, to: string): (e: Option<IoError>) {
    if from !in m then Some(NotFound)
    else if to == from then None
    else if m[from].Dir? && Under(to, from) then Some(InvalidInput)
    else if to !in m then None
    else if !m[from].Dir? && m[to].Dir? then Some(IsADirectory)
    else if m[from].Dir? && !m[to].Dir? then Some(NotADirectory)
    else if m[from].Dir? && HasChild(m, to) then Some(DirectoryNotEmpty)
    else None
  }

  /** The tree a successful rename promises, key by key. */
  ghost function MovedNode(m: Entries, from: string, to: string, toPath: string, k: string): (r: Option<Node>) {
    if Under(k, to) then
      var origin := from + k[|to|..];
      if origin !in m then None
      else Some(if k == to then Renamed(m[origin], FinalComponent(toPath)) else m[origin])
    else if k in m && !Under(k, from) then Some(m[k])
    else if IsAncestor(k, to) then Some(Dir(FinalComponent(k)))
    else None
  }

  /** After the check passes, only `to` itself can be at or below the destination. */
  lemma DestinationIsClear(m: Entries, from: string, to: string)
    requires WellFormed(m) && IsKey(to) && from != to && RenameError(m, from, to).None?
    ensures to != ROOT
    ensures forall k :: k in m && Under(k, to) ==> k == to
  {
    assert IsKey(from);
    if to == ROOT {
      assert ROOT in m && m[ROOT].Dir? by {
        KeyFacts(from);
        KeyFacts(ROOT);
        AncestorsAreDirs(m, from, ROOT);
      }
      KeyFacts(ROOT);
      assert HasChild(m, ROOT);
      assert false;
    }
    if to !in m {
      forall k | k in m ensures !Under(k, to) {
        UnderIsAncestry(k, to);
        if IsAncestor(to, k) { AncestorsAreDirs(m, k, to); }
      }
    } else {
      ChildlessIsBare(m, to);
      forall k | k in m && Under(k, to) ensures k == to {
        UnderIsAncestry(k, to);
      }
    }
  }

  lemma RekeyRendered(f: seq<Name>, t: seq<Name>, rest: seq<Name>)
    requires t != [] && (f != [] || rest == [])
    ensures KeyOf(f) <= KeyOf(f + rest) && KeyOf(t) <= KeyOf(t + rest)
    ensures Rekey(KeyOf(f + rest), KeyOf(f), KeyOf(t)) == KeyOf(t + rest)
    ensures KeyOf(f) + KeyOf(t + rest)[|KeyOf(t)|..] == KeyOf(f + rest)
    ensures Under(KeyOf(t + rest), KeyOf(t))
  {
    var suffix := if rest == [] then [] else ROOT + Join(rest);
    if rest == [] {
      assert f + rest == f && t + rest == t;
    } else {
      JoinConcat(f, rest);
      JoinConcat(t, rest);
    }
    assert KeyOf(f + rest) == KeyOf(f) + suffix;
    assert KeyOf(t + rest) == KeyOf(t) + suffix;
  }

  /** Below `from`, the names of `from` come first; and what is not empty after them needs `from` to have some. */
  lemma UnderSplits(k: string, from: string)
    requires IsKey(k) && IsKey(from) && Under(k, from)
    ensures Components(from) <= Components(k)
    ensures Components(from) != [] || Components(k) == []
  {
    PrefixIffComponents(Components(k), Components(from));
  }

  /** Re-keying a subtree is component-wise, hence injective, and lands below the destination. */
  lemma RekeyMoves(k: string, from: string, to: string)
    requires IsKey(k) && IsKey(from) && IsKey(to) && to != ROOT && Under(k, from)
    ensures Components(from) <= Components(k)
    ensures var n := Rekey(k, from, to);
            && IsKey(n) && Under(n, to)
            && Components(n) == Components(to) + Components(k)[|Components(from)|..]
            && from + n[|to|..] == k
  {
    UnderSplits(k, from);
    KeyFacts(to);
    RekeyNames(Components(k), Components(from), Components(to));
  }

  lemma RekeyNames(c: seq<Name>, f: seq<Name>, t: seq<Name>)
    requires AllNames(c) && AllNames(t) && f <= c && t != [] && (f != [] || c == [])
    ensures KeyOf(f) <= KeyOf(c)
    ensures var n := Rekey(KeyOf(c), KeyOf(f), KeyOf(t));
            && IsKey(n) && Under(n, KeyOf(t)) && Components(n) == t + c[|f|..]
            && KeyOf(f) + n[|KeyOf(t)|..] == KeyOf(c)
  {
    var rest := c[|f|..];
    assert c == f + rest;
    RekeyRendered(f, t, rest);
    KeyOfIsKey(t + rest);
  }

  /** Keys below the destination are exactly the images of source keys. */
  lemma RekeyOnto(m: Entries, n: string, from: string, to: string)
    requires WellFormed(m) && IsKey(from) && IsKey(to) && Under(n, to) && from + n[|to|..] in m
    ensures Under(from + n[|to|..], from) && Rekey(from + n[|to|..], from, to) == n
  {
    assert (from + n[|to|..])[|from|..] == n[|to|..];
  }

  /** The in-memory files the tree refers to. */
  ghost function FilesOf(m: Entries): (fs: set<FileId>) {
    set k | k in m && m[k].Mem? :: m[k].file
  }

  /**
   * The move loop: take the subtree's keys out one by one, in any order, and put them back re-keyed.
   * Every error leaves the map alone; success is exactly the promised tree.
   */
  method Rename(m: Entries, fromPath: string, toPath: string) returns (r: Result<Entries, IoError>)
    requires IsAbsolute(fromPath) && IsAbsolute(toPath)
    ensures IsKey(Normalize(fromPath)) && IsKey(Normalize(toPath))
    ensures r.Ok? ==> FilesOf(r.value) <= FilesOf(m)
    ensures var from, to := Normalize(fromPath), Normalize(toPath);
            match RenameError(m, from, to)
            case Some(e) => r == Err(e)
            case None => r.Ok? && if from == to then r.value == m
                                  else WellFormed(m) ==>
                                         forall k :: Lookup(r.value, k) == MovedNode(m, from, to, toPath, k)
  {
    var from := NormalizeKeyStr(fromPath);
    var to := NormalizeKeyStr(toPath);
    NormalizeIdempotent(fromPath);
    NormalizeIdempotent(toPath);
    var err := RenameError(m, from, to);
    if err.Some? {
      return Err(err.value);
    }
    if from == to {
      return Ok(m);
    }
    ghost var wf := WellFormed(m);
    if wf { DestinationIsClear(m, from, to); }
    var cleared := m - {to};
    var toMove := set k | k in cleared && Under(k, from);
    var cur := cleared;
    ghost var moved: set<string> := {};
    while toMove != {}
      invariant moved + toMove == set k | k in cleared && Under(k, from)
      invariant moved !! toMove
      invariant FilesOf(cur) <= FilesOf(m)
      invariant wf ==> forall k :: Lookup(cur, k) == MidMove(cleared, from, to, toPath, moved, k)
      decreases toMove
    {
      var k :| k in toMove;
      toMove := toMove - {k};
      if wf { StillInPlace(m, cur, from, to, toPath, moved, k); }
      if k in cur {
        var node := if k == from then Renamed(cur[k], FinalComponent(toPath)) else cur[k];
        var newKey := Rekey(k, from, to);
        if wf { MidMoveStep(cleared, cur, from, to, toPath, moved, k); }
        ghost var before := cur;
        cur := (cur - {k})[newKey := node];
        assert FilesOf(cur) <= FilesOf(before) by {
          assert forall j :: j in cur && j != newKey ==> j in before && cur[j] == before[j];
        }
      }
      moved := moved + {k};
    }
    ghost var beforeDirs := cur;
    var done := InsertAncestorDirs(cur, toPath);
    forall k ensures Lookup(done, k) == if k in cur then Some(cur[k])
                                        else if IsAncestor(k, to) then Some(Dir(FinalComponent(k))) else None {
      AddAncestorsExact(cur, to, k);
    }
    assert FilesOf(done) <= FilesOf(cur) by {
      forall k | k in done && done[k].Mem? ensures k in cur && cur[k] == done[k] {
        assert Lookup(done, k) != None;
      }
    }
    if wf {
      forall k ensures Lookup(done, k) == MovedNode(m, from, to, toPath, k) {
        assert Lookup(cur, k) == MidMove(cleared, from, to, toPath, moved, k);
        MoveFinished(m, from, to, toPath, moved, k);
      }
    }
    return Ok(done);
  }

  lemma StillInPlace(m: Entries, cur: Entries, from: string, to: string, toPath: string, moved: set<string>, k: string)
    requires WellFormed(m) && IsKey(from) && IsKey(to) && from != to && RenameError(m, from, to).None?
    requires k in m - {to} && k !in moved && Under(k, from)
    requires forall j :: Lookup(cur, j) == MidMove(m - {to}, from, to, toPath, moved, j)
    ensures to != ROOT && k in cur && !Under(k, to)
  {
    DestinationIsClear(m, from, to);
    assert Lookup(cur, k) == MidMove(m - {to}, from, to, toPath, moved, k);
  }

  /** The map while some keys have moved: re-keyed ones below `to`, the rest where they were. */
  ghost function MidMove(cleared: Entries, from: string, to: string, toPath: string, moved: set<string>, k: string)
      : (r: Option<Node>) {
    if Under(k, to) then
      var origin := from + k[|to|..];
      if origin !in moved || origin !in cleared then None
      else Some(if k == to then Renamed(cleared[origin], FinalComponent(toPath)) else cleared[origin])
    else if k in cleared && k !in moved then Some(cleared[k])
    else None
  }

  /** A key below the destination comes from `k` exactly when it is `k` rekeyed. */
  lemma OriginDetermines(j: string, k: string, from: string, to: string)
    requires to <= j && from <= k
    ensures from + j[|to|..] == k <==> j == Rekey(k, from, to)
  {
    var x, y := j[|to|..], k[|from|..];
    assert j == to + x && k == from + y;
    assert (from + x)[|from|..] == x && (to + y)[|to|..] == y;
  }

  lemma MidMoveStep(cleared: Entries, cur: Entries, from: string, to: string, toPath: string, moved: set<string>,
                    k: string)
    requires IsKey(k) && IsKey(from) && IsKey(to) && to != ROOT
    requires k in cleared && k in cur && k !in moved && Under(k, from) && !Under(k, to)
    requires forall j :: Lookup(cur, j) == MidMove(cleared, from, to, toPath, moved, j)
    ensures var node := if k == from then Renamed(cur[k], FinalComponent(toPath)) else cur[k];
            var next := (cur - {k})[Rekey(k, from, to) := node];
            forall j :: Lookup(next, j) == MidMove(cleared, from, to, toPath, moved + {k}, j)
  {
    var newKey := Rekey(k, from, to);
    RekeyMoves(k, from, to);
    var node := if k == from then Renamed(cur[k], FinalComponent(toPath)) else cur[k];
    var next := (cur - {k})[newKey := node];
    assert Lookup(cur, k) == Some(cleared[k]);
    assert k == from <==> newKey == to;
    forall j ensures Lookup(next, j) == MidMove(cleared, from, to, toPath, moved + {k}, j) {
      assert Lookup(cur, j) == MidMove(cleared, from, to, toPath, moved, j);
      if Under(j, to) { OriginDetermines(j, k, from, to); }
    }
  }

  lemma MoveFinished(m: Entries, from: string, to: string, toPath: string, moved: set<string>, k: string)
    requires WellFormed(m) && IsKey(from) && IsKey(to) && from != to && RenameError(m, from, to).None?
    requires moved == set j | j in m - {to} && Under(j, from)
    ensures MovedNode(m, from, to, toPath, k) ==
            match MidMove(m - {to}, from, to, toPath, moved, k)
            case Some(n) => Some(n)
            case None => if IsAncestor(k, to) then Some(Dir(FinalComponent(k))) else None
  {
    DestinationIsClear(m, from, to);
    if Under(k, to) {
      var origin := from + k[|to|..];
      assert !IsAncestor(k, to) by {
        if IsAncestor(k, to) { UnderIsAncestry(k, to); }
      }
      if origin in m {
        RekeyOnto(m, k, from, to);
        assert origin != to by { if origin == to { ToNotBelowFrom(m, from, to); } }
      }
    }
  }

  /** A destination that already exists is never below the source. */
  lemma ToNotBelowFrom(m: Entries, from: string, to: string)
    requires WellFormed(m) && IsKey(from) && IsKey(to) && from != to && RenameError(m, from, to).None?
    ensures to in m ==> !Under(to, from)
  {
    if to in m && Under(to, from) {
      UnderIsAncestry(to, from);
      AncestorsAreDirs(m, to, from);
    }
  }

  /** A rename keeps the tree well formed exactly when no strict ancestor of the target stays a file. */
  lemma RenameWellFormedIff(m: Entries, r: Entries, from: string, to: string, toPath: string)
    requires WellFormed(m) && IsKey(from) && IsKey(to) && from != to && RenameError(m, from, to).None?
    requires forall k :: Lookup(r, k) == MovedNode(m, from, to, toPath, k)
    ensures WellFormed(r) <==> DirsAbove(m, to, from)
  {
    DestinationIsClear(m, from, to);
    if WellFormed(r) {
      assert Lookup(r, to) == MovedNode(m, from, to, toPath, to);
      assert from + to[|to|..] == from;
      forall a | a in m && a != from && IsAncestor(a, to) ensures m[a].Dir? {
        SurvivorsAbove(m, from, to, a);
        assert Lookup(r, a) == MovedNode(m, from, to, toPath, a);
        AncestorsAreDirs(r, to, a);
      }
    }
    if DirsAbove(m, to, from) {
      forall k | k in r ensures IsKey(k) && (k != ROOT ==> Up(k) in r && r[Up(k)].Dir?) {
        assert Lookup(r, k) == MovedNode(m, from, to, toPath, k);
        RenamedKeyFits(m, from, to, toPath, k);
        if k != ROOT { assert Lookup(r, Up(k)) == MovedNode(m, from, to, toPath, Up(k)); }
      }
    }
  }

  /** An ancestor of the target other than the source itself is not moved. */
  lemma SurvivorsAbove(m: Entries, from: string, to: string, a: string)
    requires WellFormed(m) && IsKey(from) && IsKey(to) && from != to && RenameError(m, from, to).None?
    requires a in m && a != from && IsAncestor(a, to)
    ensures !Under(a, from) && !Under(a, to)
  {
    DestinationIsClear(m, from, to);
    UnderIsAncestry(a, from);
    UnderIsAncestry(a, to);
    if Under(a, from) {
      AncestorsAreDirs(m, a, from);
      UnderIsAncestry(to, from);
    }
  }

  /** Every key of the promised tree hangs below a directory of the promised tree. */
  lemma RenamedKeyFits(m: Entries, from: string, to: string, toPath: string, k: string)
    requires WellFormed(m) && IsKey(from) && IsKey(to) && from != to && RenameError(m, from, to).None?
    requires DirsAbove(m, to, from) && MovedNode(m, from, to, toPath, k).Some?
    ensures IsKey(k)
    ensures k != ROOT ==>
              MovedNode(m, from, to, toPath, Up(k)).Some? && MovedNode(m, from, to, toPath, Up(k)).value.Dir?
  {
    DestinationIsClear(m, from, to);
    if Under(k, to) {
      var origin := from + k[|to|..];
      RekeyOnto(m, k, from, to);
      RekeyMoves(origin, from, to);
      UnderIsAncestry(k, to);
      if k == to {
        AncestorStep(Up(k), k);
        AboveTarget(m, from, to, toPath, Up(k));
      } else {
        MovedParent(m, from, to, k);
      }
    } else if k in m && !Under(k, from) {
      if k != ROOT { KeptParent(m, from, to, k); }
    } else if k != ROOT {
      AncestorStep(Up(k), k);
      assert IsAncestor(Up(k), to);
      AboveTarget(m, from, to, toPath, Up(k));
    }
  }

  lemma AboveTarget(m: Entries, from: string, to: string, toPath: string, a: string)
    requires WellFormed(m) && IsKey(from) && IsKey(to) && from != to && RenameError(m, from, to).None?
    requires DirsAbove(m, to, from) && IsAncestor(a, to)
    ensures MovedNode(m, from, to, toPath, a).Some? && MovedNode(m, from, to, toPath, a).value.Dir?
  {
    DestinationIsClear(m, from, to);
    UnderIsAncestry(a, to);
    if a in m && a != from { SurvivorsAbove(m, from, to, a); }
  }

  /** Below the destination, the parent is the re-keyed parent of the source key. */
  lemma MovedParent(m: Entries, from: string, to: string, k: string)
    requires WellFormed(m) && IsKey(from) && IsKey(to) && to != ROOT && IsKey(k) && from in m
    requires Under(k, to) && k != to && from + k[|to|..] in m
    ensures k != ROOT && Under(Up(k), to)
    ensures var origin := from + Up(k)[|to|..]; origin in m && m[origin].Dir?
  {
    var child := from + k[|to|..];
    RekeyOnto(m, k, from, to);
    UnderIsAncestry(k, to);
    UnderIsAncestry(child, from);
    assert child != from;
    AncestorStep(from, child);
    UnderIsAncestry(Up(child), from);
    RekeyMoves(child, from, to);
    KeyFacts(k);
    RekeyCommutesWithUp(child, from, to);
    RekeyMoves(Up(child), from, to);
  }

  lemma StrictlyUnder(k: string, top: string)
    requires IsKey(k) && IsKey(top) && Under(k, top) && k != top
    ensures |Components(top)| < |Components(k)|
  {
    UnderIsAncestry(k, top);
  }

  lemma UpComponents(child: string, from: string, to: string)
    requires IsKey(child) && IsKey(from) && IsKey(to) && to != ROOT && child != ROOT
    requires Under(child, from) && child != from && Under(Up(child), from)
    ensures IsKey(Rekey(child, from, to)) && IsKey(Rekey(Up(child), from, to))
    ensures Components(Up(Rekey(child, from, to))) == Components(Rekey(Up(child), from, to))
  {
    RekeyedComponents(child, from, to);
    RekeyedComponents(Up(child), from, to);
    StrictlyUnder(child, from);
    UpDropsName(Rekey(child, from, to), Components(to), Components(child), |Components(from)|);
  }

  lemma RekeyedComponents(k: string, from: string, to: string)
    requires IsKey(k) && IsKey(from) && IsKey(to) && to != ROOT && Under(k, from)
    ensures Components(from) <= Components(k) && IsKey(Rekey(k, from, to))
    ensures Components(Rekey(k, from, to)) == Components(to) + Components(k)[|Components(from)|..]
  {
    RekeyMoves(k, from, to);
  }

  lemma UpDropsName(n: string, t: seq<Name>, c: seq<Name>, k: nat)
    requires IsKey(n) && k < |c| && Components(n) == t + c[k..]
    ensures Components(Up(n)) == t + c[..|c| - 1][k..]
  {
    KeyFacts(n);
    DropLast(t, c, k);
  }

  lemma RekeyCommutesWithUp(child: string, from: string, to: string)
    requires IsKey(child) && IsKey(from) && IsKey(to) && to != ROOT && child != ROOT
    requires Under(child, from) && child != from && Under(Up(child), from)
    ensures IsKey(Rekey(child, from, to)) && Up(Rekey(child, from, to)) == Rekey(Up(child), from, to)
  {
    RekeyMoves(child, from, to);
    RekeyMoves(Up(child), from, to);
    var up, up' := Up(Rekey(child, from, to)), Rekey(Up(child), from, to);
    assert Components(up) == Components(up') by { UpComponents(child, from, to); }
    KeysDeterminedByComponents(up, up');
  }

  lemma DropLast<T>(t: seq<T>, c: seq<T>, n: nat)
    requires n < |c|
    ensures (t + c[n..])[..|t + c[n..]| - 1] == t + c[..|c| - 1][n..]
  {}

  /** The parent of a key that stays, stays. */
  lemma KeptParent(m: Entries, from: string, to: string, k: string)
    requires WellFormed(m) && IsKey(from) && IsKey(to) && from != to && RenameError(m, from, to).None?
    requires k in m && k != ROOT && !Under(k, from) && !Under(k, to)
    ensures var p := Up(k); p in m && m[p].Dir? && !Under(p, to)
    ensures Under(Up(k), from) ==> Up(k) == ROOT && from == ROOT && IsAncestor(ROOT, to)
  {
    var p := Up(k);
    DestinationIsClear(m, from, to);
    AncestorStep(p, k);
    UnderIsAncestry(k, from);
    UnderIsAncestry(p, from);
    UnderIsAncestry(k, to);
    UnderIsAncestry(p, to);
    KeyFacts(to);
    KeyFacts(ROOT);
  }

  /**
   * The documented refusal to move a directory below itself misses exactly the root, whose key
   * ends in the separator the test looks for.
   */
  lemma SelfMoveRefusedIffNotRoot(m: Entries, from: string, to: string)
    requires WellFormed(m) && IsKey(from) && IsKey(to) && from in m && m[from].Dir? && IsAncestor(from, to)
    ensures RenameError(m, from, to) == Some(InvalidInput) <==> from != ROOT
  {
    UnderIsAncestry(to, from);
    KeyFacts(from);
    KeyFacts(to);
  }
}
