/** The provider's own operations on its entry map. */
module MemoryFs {
  import opened Wrappers
  import opened Io
  import opened Paths
  import opened Tree
  import opened TreeMoves
  import opened Unmount
  import opened MemFiles

  datatype OpenOptions = OpenOptions(create: bool, createNew: bool, truncate: bool, append: bool) {
    function Creates(): (b: bool) { create || createNew }
  }

  /** The tree part of a write-open: which file it yields, and the tree after it. `newId` names a new file. */
  function OpenForWrite(m: Entries, path: string, opts: OpenOptions, newId: FileId)
      : (r: (Result<FileId, IoError>, Entries))
    requires IsKey(Normalize(path))
  {
    var key := Normalize(path);
    if key in m then
      match m[key]
      case Dir(_) => (Err(PermissionDenied), m)
      case Source(_, _) => (Err(PermissionDenied), m)
      case Mem(f, _) => (if opts.createNew then Err(AlreadyExists) else Ok(f), m)
    else if !opts.Creates() then (Err(NotFound), m)
    else (Ok(newId), Insert(m, key, Mem(newId, FinalComponent(path))))
  }

  /**
   * The other half of a write-open, after the tree lock is dropped. Truncating cannot fail, whatever the
   * capacity; append only places the cursor.
   */
  method OpenHandle(file: MemFile, opts: OpenOptions) returns (r: Result<MemFileHandle, IoError>)
    requires file.Valid()
    modifies file`data, file.volume`used
    ensures r.Ok? && fresh(r.value) && r.value.file == file && r.value.Valid()
    ensures file.data == if opts.truncate then [] else old(file.data)
    ensures file.volume.used == old(file.volume.used) - |old(file.data)| + |file.data|
    ensures r.value.pos == if opts.append then |file.data| else 0
  {
    if opts.truncate {
      var cut := file.SetLen(0);
      assert cut.Ok?;
    }
    var handle: MemFileHandle;
    if opts.append { handle := new MemFileHandle.AtEnd(file); } else { handle := new MemFileHandle(file); }
    return Ok(handle);
  }

  function RemoveEntry(m: Entries, key: string): (r: (Result<(), IoError>, Entries)) {
    if key !in m then (Err(NotFound), m)
    else if m[key].Dir? && HasChild(m, key) then (Err(PermissionDenied), m)
    else (Ok(()), m - {key})
  }

  function CreateDirectory(m: Entries, path: string): (r: (Result<(), IoError>, Entries))
    requires IsKey(Normalize(path))
  {
    if Normalize(path) in m then (Err(AlreadyExists), m)
    else (Ok(()), Insert(m, Normalize(path), Dir(FinalComponent(path))))
  }

  /** Removing an entry never breaks the tree, and never removes the root. */
  lemma RemoveKeepsTree(m: Entries, key: string)
    requires WellFormed(m) && IsKey(key)
    ensures WellFormed(RemoveEntry(m, key).1)
    ensures key == ROOT && key in m && m[key].Dir? ==> RemoveEntry(m, key) == (Err(PermissionDenied), m)
  {
    if key in m && (m[key].Dir? ==> !HasChild(m, key)) { RemovedStaysTree(m, key); }
    if key == ROOT && key in m { RootHasChild(m); }
  }

  lemma RemovedStaysTree(m: Entries, key: string)
    requires WellFormed(m) && key in m && (m[key].Dir? ==> !HasChild(m, key))
    ensures WellFormed(m - {key})
  {
    forall k | k in m - {key} && k != ROOT ensures IsKey(k) && Up(k) in m - {key} && (m - {key})[Up(k)].Dir? {
      NotParent(m, key, k);
    }
  }

  lemma RootHasChild(m: Entries)
    requires ROOT in m
    ensures HasChild(m, ROOT)
  {
    RootIsOwnParent();
  }

  /** What may be removed is no entry's parent. */
  lemma NotParent(m: Entries, key: string, k: string)
    requires WellFormed(m) && key in m && (m[key].Dir? ==> !HasChild(m, key)) && k in m && k != ROOT
    ensures Up(k) in m && m[Up(k)].Dir? && Up(k) != key
  {
    assert ParentKey(k) == Some(Up(k));
  }

  lemma RootIsOwnParent()
    ensures ParentKey(ROOT) == Some(ROOT)
  {
    assert IsKey(ROOT) by { KeyOfIsKey([]); }
    KeyFacts(ROOT);
    KeysDeterminedByComponents(ROOT, ParentKey(ROOT).value);
  }

  /** The provider: its map is replaced in place, one write-locked operation at a time. */
  class Provider {
    var entries: Entries
    var nextFile: FileId

    constructor ()
      ensures entries == map[] && nextFile == 0
    {
      entries := map[];
      nextFile := 0;
    }

    method InsertNode(path: string, node: Node) returns (key: string)
      requires IsAbsolute(path)
      modifies this`entries
      ensures key == Normalize(path) && IsKey(key) && entries == Insert(old(entries), key, node)
    {
      key := NormalizeKeyStr(path);
      NormalizeIdempotent(path);
      entries := entries[key := node];
      entries := InsertAncestorDirs(entries, path);
    }

    method InsertFile(path: string, source: nat) returns (key: string)
      requires IsAbsolute(path)
      modifies this`entries
      ensures key == Normalize(path) && IsKey(key)
      ensures entries == Insert(old(entries), key, Source(source, FinalComponent(path)))
    {
      key := InsertNode(path, Source(source, FinalComponent(path)));
    }

    method InsertWritable(path: string) returns (key: string)
      requires IsAbsolute(path)
      modifies this
      ensures key == Normalize(path) && IsKey(key) && nextFile == old(nextFile) + 1
      ensures entries == Insert(old(entries), key, Mem(old(nextFile), FinalComponent(path)))
    {
      key := InsertNode(path, Mem(nextFile, FinalComponent(path)));
      nextFile := nextFile + 1;
    }

    method OpenWrite(path: string, opts: OpenOptions) returns (r: Result<FileId, IoError>)
      requires IsAbsolute(path)
      modifies this
      ensures IsKey(Normalize(path))
      ensures (r, entries) == OpenForWrite(old(entries), path, opts, old(nextFile))
      ensures nextFile == old(nextFile) + if entries == old(entries) then 0 else 1
    {
      var key := NormalizeKeyStr(path);
      NormalizeIdempotent(path);
      if key in entries {
        match entries[key]
        case Dir(_) => return Err(PermissionDenied);
        case Source(_, _) => return Err(PermissionDenied);
        case Mem(f, _) =>
          if opts.createNew { return Err(AlreadyExists); }
          return Ok(f);
      } else {
        if !opts.Creates() {
          return Err(NotFound);
        }
        AddAncestorsExact(entries[key := Mem(nextFile, FinalComponent(path))], key, key);
        var _ := InsertNode(path, Mem(nextFile, FinalComponent(path)));
        r := Ok(nextFile);
        nextFile := nextFile + 1;
      }
    }

    method Remove(path: string) returns (r: Result<(), IoError>)
      modifies this`entries
      ensures (r, entries) == RemoveEntry(old(entries), Normalize(path))
    {
      var key := NormalizeKeyStr(path);
      if key !in entries {
        return Err(NotFound);
      }
      if entries[key].Dir? && HasChild(entries, key) {
        return Err(PermissionDenied);
      }
      entries := entries - {key};
      return Ok(());
    }

    method CreateDir(path: string) returns (r: Result<(), IoError>)
      requires IsAbsolute(path)
      modifies this`entries
      ensures IsKey(Normalize(path)) && (r, entries) == CreateDirectory(old(entries), path)
    {
      var key := NormalizeKeyStr(path);
      NormalizeIdempotent(path);
      if key in entries {
        return Err(AlreadyExists);
      }
      var _ := InsertNode(path, Dir(FinalComponent(path)));
      return Ok(());
    }

    /** On every error nothing changes; on success the entries are exactly the promised move. */
    method RenamePath(fromPath: string, toPath: string) returns (r: Result<(), IoError>)
      requires IsAbsolute(fromPath) && IsAbsolute(toPath)
      modifies this`entries
      ensures IsKey(Normalize(fromPath)) && IsKey(Normalize(toPath))
      ensures var from, to := Normalize(fromPath), Normalize(toPath);
              match RenameError(old(entries), from, to)
              case Some(e) => r == Err(e) && entries == old(entries)
              case None => r == Ok(()) && if from == to then entries == old(entries)
                             else WellFormed(old(entries)) ==>
                                  && (forall k :: Lookup(entries, k) == MovedNode(old(entries), from, to, toPath, k))
                                  && (WellFormed(entries) <==> DirsAbove(old(entries), to, from))
    {
      var moved := Rename(entries, fromPath, toPath);
      ghost var from, to := Normalize(fromPath), Normalize(toPath);
      if moved.Err? {
        return Err(moved.error);
      }
      if from != to && WellFormed(entries) { RenameWellFormedIff(entries, moved.value, from, to, toPath); }
      entries := moved.value;
      return Ok(());
    }

    method DropMount(key: string)
      requires IsKey(key)
      modifies this`entries
      ensures WellFormed(old(entries)) ==>
                && entries == Unmounted(old(entries), key)
                && (WellFormed(entries) <==> key != ROOT || old(entries).Keys <= {ROOT})
    {
      if WellFormed(entries) { UnmountWellFormedIff(entries, key); }
      entries := RemoveSubtree(entries, key);
    }
  }
}
