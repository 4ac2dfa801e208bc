/** Virtual, real or rejected: the per-call routing decision and the tracked current directory. */
module Router {
  import opened Wrappers
  import opened Paths

  datatype Route = Virtual(path: string) | Rejected | Real

  /** `Path::join`: an absolute argument replaces the base, anything else is appended at a separator. */
  function JoinPath(base: string, rel: string): (r: string) {
    if IsAbsolute(rel) then rel
    else if base == [] || base[|base| - 1] == '/' then base + rel
    else base + ROOT + rel
  }

  /** Membership in the prefix namespace rooted at `root`. */
  predicate IsVirtual(root: string, path: string) { KeyHasPrefix(Normalize(path), Normalize(root)) }

  function Classify(root: string, cwd: Option<string>, decoded: string): (r: Route) {
    if !IsAbsolute(decoded) && cwd.None? then Real
    else
      var absolute := if IsAbsolute(decoded) then decoded else JoinPath(cwd.value, decoded);
      if !IsVirtual(root, absolute) then Real
      else if IsLexicallySafe(absolute) then Virtual(absolute)
      else Rejected
  }

  /** Lexically at or below the root: absolute, with the root's names in front. */
  ghost predicate Inside(root: string, path: string) {
    IsAbsolute(path) && Components(root) <= Components(path)
  }

  // ---- Membership ------------------------------------------------------------------------------

  /** The membership test is component-wise exactly when the namespace is not the bare filesystem root. */
  lemma VirtualIffInside(root: string, path: string)
    requires IsAbsolute(root) && IsAbsolute(path)
    ensures IsVirtual(root, path) <==>
            Inside(root, path) && (Components(root) == [] ==> Components(path) == [])
  {
    PrefixIffComponents(Components(path), Components(root));
  }

  lemma AfterSlash(init: string, rel: string)
    ensures Components(init + ROOT + rel) == Components(init + ROOT) + Components(rel)
  {
    ComponentsConcat(init, rel);
    ComponentsConcat(init, []);
    assert init + ROOT + [] == init + ROOT;
  }

  /** Joining a relative path appends its names. */
  lemma JoinAppends(base: string, rel: string)
    requires IsAbsolute(base) && !IsAbsolute(rel)
    ensures IsAbsolute(JoinPath(base, rel))
    ensures Components(JoinPath(base, rel)) == Components(base) + Components(rel)
  {
    if base[|base| - 1] == '/' {
      var init := base[..|base| - 1];
      assert base == init + ROOT;
      AfterSlash(init, rel);
    } else {
      ComponentsConcat(base, rel);
    }
  }

  // ---- The engine --------------------------------------------------------------------------------

  datatype Call = Chdir(path: string, isDirectory: bool) | Look(path: string)

  /** The cwd after a call: a virtual directory is tracked, a real path clears it, failures keep it. */
  function StepCwd(root: string, cwd: Option<string>, call: Call): (r: Option<string>) {
    match call
    case Look(_) => cwd
    case Chdir(path, isDirectory) =>
      match Classify(root, cwd, path)
      case Virtual(p) => if isDirectory then Some(p) else cwd
      case Real => None
      case Rejected => cwd
  }

  function RunCwd(root: string, cwd: Option<string>, calls: seq<Call>): (r: Option<string>)
    decreases |calls|
  {
    if calls == [] then cwd else RunCwd(root, StepCwd(root, cwd, calls[0]), calls[1..])
  }

  class Engine {
    const root: string
    var cwd: Option<string>

    constructor (root: string)
      ensures this.root == root && cwd == None
    {
      this.root := root;
      cwd := None;
    }

    method ClassifyCall(decoded: string) returns (route: Route)
      ensures route == Classify(root, cwd, decoded)
    {
      var absolute;
      if IsAbsolute(decoded) {
        absolute := decoded;
      } else if cwd.Some? {
        absolute := JoinPath(cwd.value, decoded);
      } else {
        return Real;
      }
      var key := NormalizeKeyStr(absolute);
      var prefix := NormalizeKeyStr(root);
      if !KeyHasPrefix(key, prefix) {
        return Real;
      }
      return if IsLexicallySafe(absolute) then Virtual(absolute) else Rejected;
    }

    /** `chdir`: true when the call is answered here, false when it goes on to the kernel. */
    method ShimChdir(path: string, isDirectory: bool) returns (served: bool)
      modifies this`cwd
      ensures cwd == StepCwd(root, old(cwd), Chdir(path, isDirectory))
      ensures served <==> !Classify(root, old(cwd), path).Real?
    {
      var route := ClassifyCall(path);
      match route
      case Virtual(p) =>
        if isDirectory { cwd := Some(p); }
        return true;
      case Real =>
        cwd := None;
        return false;
      case Rejected =>
        return true;
    }
  }

  // ---- What holds over every run -----------------------------------------------------------------

  ghost predicate GoodCwd(root: string, cwd: Option<string>) {
    cwd.Some? ==> Inside(root, cwd.value) && IsLexicallySafe(cwd.value)
  }

  lemma ClassifyKeepsInside(root: string, cwd: Option<string>, decoded: string)
    requires IsAbsolute(root) && GoodCwd(root, cwd)
    ensures var r := Classify(root, cwd, decoded);
            r.Virtual? ==> Inside(root, r.path) && IsLexicallySafe(r.path)
  {
    if cwd.Some? && !IsAbsolute(decoded) { JoinAppends(cwd.value, decoded); }
    var absolute := if IsAbsolute(decoded) || cwd.None? then decoded else JoinPath(cwd.value, decoded);
    if IsAbsolute(absolute) { VirtualIffInside(root, absolute); }
  }

  /** A tracked cwd is a safe path inside the namespace, after every sequence of calls. */
  lemma {:induction false} RunKeepsCwdInside(root: string, cwd: Option<string>, calls: seq<Call>)
    requires IsAbsolute(root) && GoodCwd(root, cwd)
    ensures GoodCwd(root, RunCwd(root, cwd, calls))
    decreases |calls|
  {
    if calls != [] {
      ClassifyKeepsInside(root, cwd, calls[0].path);
      RunKeepsCwdInside(root, StepCwd(root, cwd, calls[0]), calls[1..]);
    }
  }

  /**
   * While a cwd is tracked no relative path is ever passed to the kernel — for every history and every
   * relative path — exactly when the namespace root is not the bare filesystem root.
   */
  lemma RelativeNeverRealIff(root: string)
    requires IsAbsolute(root)
    ensures (forall calls: seq<Call>, rel: string | RunCwd(root, None, calls).Some? && !IsAbsolute(rel) ::
               !Classify(root, RunCwd(root, None, calls), rel).Real?) <==> Components(root) != []
  {
    forall calls: seq<Call>, rel: string
      | Components(root) != [] && RunCwd(root, None, calls).Some? && !IsAbsolute(rel)
      ensures !Classify(root, RunCwd(root, None, calls), rel).Real?
    {
      RunKeepsCwdInside(root, None, calls);
      var cwd := RunCwd(root, None, calls).value;
      JoinAppends(cwd, rel);
      VirtualIffInside(root, JoinPath(cwd, rel));
    }
    if Components(root) == [] {
      var calls, rel := RootNamespaceLeaks(root);
      assert RunCwd(root, None, calls).Some? && !IsAbsolute(rel)
             && Classify(root, RunCwd(root, None, calls), rel).Real?;
    }
  }

  /** With the bare filesystem root as namespace, a relative path of a tracked cwd goes to the kernel. */
  lemma RootNamespaceLeaks(root: string) returns (calls: seq<Call>, rel: string)
    requires IsAbsolute(root) && Components(root) == []
    ensures RunCwd(root, None, calls).Some? && !IsAbsolute(rel)
    ensures Classify(root, RunCwd(root, None, calls), rel).Real?
  {
    calls, rel := [Chdir(ROOT, true)], "x";
    assert Components(ROOT) == Components(ROOT[1..]) == [];
    VirtualIffInside(root, ROOT);
    SafeIffDotFree(ROOT);
    assert StepCwd(root, None, calls[0]) == Some(ROOT);
    assert RunCwd(root, Some(ROOT), calls[1..]) == Some(ROOT);
    NameIsItsComponent(rel);
    JoinAppends(ROOT, rel);
    VirtualIffInside(root, JoinPath(ROOT, rel));
  }

  /** An absolute path lexically inside a proper namespace is served or refused, never passed on. */
  lemma InsideNeverReal(root: string, cwd: Option<string>, path: string)
    requires IsAbsolute(root) && IsAbsolute(path) && Components(root) != []
    ensures !Classify(root, cwd, path).Real? <==> Inside(root, path)
    ensures Classify(root, cwd, path).Virtual? <==> Inside(root, path) && IsLexicallySafe(path)
  {
    VirtualIffInside(root, path);
  }

  // ---- Resolution component by component -----------------------------------------------------------

  /** How a kernel walks names without symlinks: `.` stays, `..` goes up (the root is its own parent). */
  function Walk(at: seq<Name>, names: seq<Name>): (r: seq<Name>)
    decreases |names|
  {
    if names == [] then at
    else if names[0] == "." then Walk(at, names[1..])
    else if names[0] == ".." then Walk(if at == [] then [] else at[..|at| - 1], names[1..])
    else Walk(at + [names[0]], names[1..])
  }

  lemma {:induction false} DotFreeWalk(at: seq<Name>, names: seq<Name>)
    requires DotFree(names)
    ensures Walk(at, names) == at + names
    decreases |names|
  {
    if names != [] {
      assert names[0] in names;
      assert forall n :: n in names[1..] ==> n in names;
      DotFreeWalk(at + [names[0]], names[1..]);
      assert at + [names[0]] + names[1..] == at + names;
    }
  }

  /** Resolving a virtual path, every step past the root's own names stays inside the root. */
  lemma VirtualNeverLeaves(root: string, cwd: Option<string>, decoded: string, n: nat)
    requires IsAbsolute(root) && GoodCwd(root, cwd) && Classify(root, cwd, decoded).Virtual?
    requires |Components(root)| <= n <= |Components(Classify(root, cwd, decoded).path)|
    ensures Components(root) <= Walk([], Components(Classify(root, cwd, decoded).path)[..n])
  {
    ClassifyKeepsInside(root, cwd, decoded);
    var p := Classify(root, cwd, decoded).path;
    SafeIffDotFree(p);
    var names := Components(p);
    assert forall c :: c in names[..n] ==> c in names;
    DotFreeWalk([], names[..n]);
    assert [] + names[..n] == names[..n];
  }
}
