/** The flat key-to-node map that must behave as a directory tree. */
module Tree {
  import opened Wrappers
  import opened Paths

  type FileId = nat

  /** A mounted read-only source, a writable in-memory file, or a synthesized directory. */
  datatype Node =
    | Source(source: nat, name: string)
    | Mem(file: FileId, name: string)
    | Dir(name: string)

  type Entries = map<string, Node>

  /** Final component, or the whole path when it has none. */
  function FinalComponent(path: string): (name: string) {
    var cs := Components(path);
    if cs == [] then path else cs[|cs| - 1]
  }

  /** The subtree test of the source: the key itself, or the key extended at a separator. */
  predicate Under(k: string, top: string) { KeyHasPrefix(k, top) }

  function Up(k: string): (p: string)
    requires IsKey(k)
    ensures IsKey(p) && ParentKey(k) == Some(p)
    ensures Components(p) == if k == ROOT then [] else Components(k)[..|Components(k)| - 1]
    ensures k != ROOT <==> Components(k) != []
  {
    KeyFacts(k);
    ParentKey(k).value
  }

  lemma KeyFacts(k: string)
    requires IsKey(k)
    ensures ParentKey(k).Some? && IsKey(ParentKey(k).value)
    ensures Components(ParentKey(k).value) == if k == ROOT then [] else Components(k)[..|Components(k)| - 1]
    ensures k != ROOT <==> Components(k) != []
  {
    var cs := Components(k);
    var init := if cs == [] then [] else cs[..|cs| - 1];
    assert k == KeyOf(cs);
    ParentKeyOf(cs);
    KeyOfIsKey(init);
    if cs != [] { JoinEnds(cs); }
    assert Components(ROOT) == Components(ROOT[1..]);
  }

  lemma KeysDeterminedByComponents(a: string, b: string)
    requires IsKey(a) && IsKey(b) && Components(a) == Components(b)
    ensures a == b
  {}

  /** Strict ancestry: a proper prefix of the names. */
  ghost predicate IsAncestor(a: string, k: string) {
    IsKey(a) && IsKey(k) && Components(a) < Components(k)
  }

  lemma AncestorStep(a: string, k: string)
    requires IsKey(k) && k != ROOT
    ensures IsAncestor(Up(k), k)
    ensures IsAncestor(a, k) <==> a == Up(k) || IsAncestor(a, Up(k))
  {
    var p := Up(k);
    if IsAncestor(a, k) && |Components(a)| == |Components(p)| {
      assert Components(a) == Components(p);
      KeysDeterminedByComponents(a, p);
    }
  }

  /** On keys, and off the root, the subtree test is ancestry or equality. */
  lemma UnderIsAncestry(k: string, top: string)
    requires IsKey(k) && IsKey(top)
    ensures top != ROOT ==> (Under(k, top) <==> k == top || IsAncestor(top, k))
    ensures top == ROOT ==> (Under(k, top) <==> k == top)
  {
    KeyFacts(k);
    KeyFacts(top);
    PrefixIffComponents(Components(k), Components(top));
    if Components(top) <= Components(k) && !(Components(top) < Components(k)) {
      KeysDeterminedByComponents(k, top);
    }
  }

  /** Every key but the root has its parent in the map, as a directory. */
  ghost predicate WellFormed(m: Entries) {
    forall k :: k in m ==> IsKey(k) && (k != ROOT ==> Up(k) in m && m[Up(k)].Dir?)
  }

  lemma {:induction false} AncestorsAreDirs(m: Entries, k: string, a: string)
    requires WellFormed(m) && k in m && IsAncestor(a, k)
    ensures a in m && m[a].Dir?
    decreases |Components(k)|
  {
    assert k != ROOT by { KeyFacts(k); }
    AncestorStep(a, k);
    if a != Up(k) {
      AncestorsAreDirs(m, Up(k), a);
    }
  }

  /** The ancestor of `k` one level below its ancestor `d`. */
  lemma {:induction false} ChildTowards(m: Entries, d: string, k: string) returns (c: string)
    requires WellFormed(m) && k in m && IsAncestor(d, k)
    ensures c in m && c != ROOT && Up(c) == d && (c == k || IsAncestor(c, k))
    decreases |Components(k)|
  {
    assert k != ROOT by { KeyFacts(k); }
    AncestorStep(d, k);
    if d == Up(k) {
      c := k;
    } else {
      c := ChildTowards(m, d, Up(k));
      AncestorStep(c, k);
    }
  }

  /** `map.keys().any(|k| parent_key(k) == Some(dir))`; the root is its own child. */
  predicate HasChild(m: Entries, dir: string) { exists k :: k in m && ParentKey(k) == Some(dir) }

  /** A node without children has nothing below it. */
  lemma ChildlessIsBare(m: Entries, d: string)
    requires WellFormed(m) && IsKey(d) && d != ROOT
    requires !HasChild(m, d) || (d in m ==> !m[d].Dir?)
    ensures forall k :: k in m ==> !IsAncestor(d, k)
  {
    forall k | k in m ensures !IsAncestor(d, k) {
      if IsAncestor(d, k) {
        AncestorsAreDirs(m, k, d);
        var c := ChildTowards(m, d, k);
      }
    }
  }

  // ---- Missing ancestors --------------------------------------------------------------

  function AddAncestors(m: Entries, key: string): (r: Entries)
    requires IsKey(key)
    decreases |Components(key)|
  {
    if key == ROOT then m
    else
      var p := Up(key);
      AddAncestors(if p in m then m else m[p := Dir(FinalComponent(p))], p)
  }

  /** Exactly the missing ancestors appear, as directories; nothing else changes. */
  lemma {:induction false} AddAncestorsExact(m: Entries, key: string, k: string)
    requires IsKey(key)
    ensures Lookup(AddAncestors(m, key), k) ==
            if k in m then Some(m[k]) else if IsAncestor(k, key) then Some(Dir(FinalComponent(k))) else None
    decreases |Components(key)|
  {
    if key != ROOT {
      var p := Up(key);
      AddAncestorsExact(if p in m then m else m[p := Dir(FinalComponent(p))], p, k);
      AncestorStep(k, key);
    } else {
      KeyFacts(key);
    }
  }

  /** The loop over `Path::parent` inserts exactly those directories. */
  method InsertAncestorDirs(m: Entries, path: string) returns (r: Entries)
    requires IsAbsolute(path)
    ensures IsKey(Normalize(path)) && r == AddAncestors(m, Normalize(path))
  {
    NormalizeKeepsComponents(path);
    NormalizeIdempotent(path);
    r := m;
    ghost var key := Normalize(path);
    var current := PathParent(path);
    ParentCommutes(path);
    if current.Some? { RootParentIsRoot(path); }
    while current.Some?
      invariant IsKey(key)
      invariant AddAncestors(r, key) == AddAncestors(m, Normalize(path))
      invariant current.None? <==> key == ROOT
      invariant current.Some? ==>
                  && IsAbsolute(current.value) && Normalize(current.value) == Up(key)
                  && (Components(current.value) == [] ==> current.value == ROOT)
      decreases |Components(key)|
    {
      var dir := current.value;
      var dirKey := NormalizeKeyStr(dir);
      NormalizeKeepsComponents(dir);
      if dirKey == [] {
        break;
      }
      if dirKey !in r {
        assert FinalComponent(dir) == FinalComponent(dirKey) by { KeyFacts(dirKey); }
        r := r[dirKey := Dir(FinalComponent(dir))];
      }
      ParentCommutes(dir);
      key := dirKey;
      current := PathParent(dir);
      if current.Some? { RootParentIsRoot(dir); }
    }
  }

  lemma RootParentIsRoot(s: string)
    requires IsAbsolute(s) && PathParent(s).Some?
    ensures Components(PathParent(s).value) == [] ==> PathParent(s).value == ROOT
  {
    var d := StripName(StripSeps(s));
    StripSepsKeepsComponents(d);
    PathParentDropsLast(s);
    if Components(StripSeps(d)) == [] { AllSeparators(StripSeps(d)); }
  }
}
