/** Carrier descriptors: each virtual open reserves a kernel descriptor and registers its stream under it. */
module Carriers {
  import opened Wrappers

  type Fd = nat
  type Stream = nat
  type Thread = nat

  // ---- The registry and the shims -----------------------------------------------------------------------

  class Registry {
    var files: map<Fd, Stream>

    constructor ()
      ensures files == map[]
    {
      files := map[];
    }

    method InsertFile(fd: Fd, stream: Stream)
      modifies this
      ensures files == old(files)[fd := stream]
    {
      files := files[fd := stream];
    }

    method GetFile(fd: Fd) returns (r: Option<Stream>)
      ensures r == Lookup(files, fd)
    {
      if fd in files { return Some(files[fd]); }
      return None;
    }

    method RemoveFile(fd: Fd) returns (r: Option<Stream>)
      modifies this
      ensures r == Lookup(old(files), fd) && files == old(files) - {fd}
    {
      r := GetFile(fd);
      files := map f | f in files && f != fd :: files[f];
    }
  }

  /** The process's descriptor table, reached through the original calls. */
  class Kernel {
    var fds: set<Fd>

    constructor ()
      ensures fds == {}
    {
      fds := {};
    }

    /** Opening the null device: refused, or a descriptor that was not in use. */
    method OpenNull() returns (r: Option<Fd>)
      modifies this
      ensures r.None? ==> fds == old(fds)
      ensures r.Some? ==> r.value !in old(fds) && fds == old(fds) + {r.value}
    {
      if * { return None; }
      var fd := FreeFd(fds);
      fds := fds + {fd};
      return Some(fd);
    }

    method Close(fd: Fd) returns (ok: bool)
      modifies this
      ensures ok == (fd in old(fds)) && fds == old(fds) - {fd}
    {
      ok := fd in fds;
      fds := fds - {fd};
    }
  }

  /** A descriptor not in use exists: every set of them is finite. */
  method FreeFd(fds: set<Fd>) returns (fd: Fd)
    ensures fd !in fds
  {
    fd := 0;
    ghost var below: set<Fd> := {};
    while fd in fds
      invariant forall i :: i in below ==> i < fd
      invariant below <= fds
      decreases fds - below
    {
      below := below + {fd};
      fd := fd + 1;
    }
  }

  datatype Errno = EROFS | ENOENT | EMFILE | Other(code: nat)

  /** The provider's verdict on a virtual path. */
  datatype Opened = Absent | Refused(code: nat) | Stream(stream: Stream)

  /** Only a granted open with a carrier registers anything, and then under a descriptor no one had. */
  method OpenVirtual(registry: Registry, kernel: Kernel, write: bool, allowWrites: bool, provider: Opened)
    returns (r: Result<Fd, Errno>)
    modifies registry, kernel
    ensures r.Err? ==> registry.files == old(registry.files) && kernel.fds == old(kernel.fds)
    ensures write && !allowWrites ==> r == Err(EROFS)
    ensures !(write && !allowWrites) && provider.Absent? ==> r == Err(ENOENT)
    ensures !(write && !allowWrites) && provider.Refused? ==> r == Err(Other(provider.code))
    ensures !(write && !allowWrites) && provider.Stream? && r.Err? ==> r == Err(EMFILE)
    ensures r.Ok? ==>
              && provider.Stream? && r.value !in old(kernel.fds) && kernel.fds == old(kernel.fds) + {r.value}
              && registry.files == old(registry.files)[r.value := provider.stream]
  {
    if write && !allowWrites { return Err(EROFS); }
    match provider {
      case Absent => return Err(ENOENT);
      case Refused(code) => return Err(Other(code));
      case Stream(stream) =>
        var fd := kernel.OpenNull();
        if fd.None? { return Err(EMFILE); }
        registry.InsertFile(fd.value, stream);
        return Ok(fd.value);
    }
  }

  /** The entry goes first, the descriptor after it; a descriptor that is not ours is just closed. */
  method ShimClose(registry: Registry, kernel: Kernel, fd: Fd) returns (ok: bool)
    modifies registry, kernel
    ensures registry.files == old(registry.files) - {fd} && kernel.fds == old(kernel.fds) - {fd}
    ensures ok == (fd in old(kernel.fds))
  {
    var file := registry.RemoveFile(fd);
    ok := kernel.Close(fd);
  }

  // ---- The same calls interleaved by many threads ------------------------------------------------------------

  /** What the application holds behind a descriptor. */
  datatype Handle = Virtual(stream: Stream) | Real(file: nat)

  /** Where a thread stands inside a shim. */
  datatype Phase =
    | Reserved(fd: Fd, stream: Stream)      // carrier open, not yet registered
    | Returning(fd: Fd, stream: Stream)     // registered, not yet with the application
    | Closing(fd: Fd)                       // out of the registry, still open in the kernel

  datatype State = State(kernel: set<Fd>, registry: map<Fd, Stream>, held: map<Fd, Handle>, threads: map<Thread, Phase>)

  datatype Event =
    | Reserve(t: Thread, fd: Fd, stream: Stream)
    | Insert(t: Thread)
    | Return(t: Thread)
    | RealOpen(fd: Fd, file: nat)
    | Remove(t: Thread, fd: Fd)
    | KernelClose(t: Thread)

  /** Kernel descriptors come from the unused ones; a descriptor is closed by whoever holds it. */
  predicate Enabled(s: State, e: Event) {
    match e
    case Reserve(t, fd, _) => t !in s.threads && fd !in s.kernel
    case Insert(t) => t in s.threads && s.threads[t].Reserved?
    case Return(t) => t in s.threads && s.threads[t].Returning?
    case RealOpen(fd, _) => fd !in s.kernel
    case Remove(t, fd) => t !in s.threads && fd in s.held
    case KernelClose(t) => t in s.threads && s.threads[t].Closing?
  }

  function Step(s: State, e: Event): (r: State)
    requires Enabled(s, e)
  {
    match e
    case Reserve(t, fd, stream) => s.(kernel := s.kernel + {fd}, threads := s.threads[t := Reserved(fd, stream)])
    case Insert(t) =>
      var p := s.threads[t];
      s.(registry := s.registry[p.fd := p.stream], threads := s.threads[t := Returning(p.fd, p.stream)])
    case Return(t) =>
      var p := s.threads[t];
      s.(held := s.held[p.fd := Virtual(p.stream)], threads := s.threads - {t})
    case RealOpen(fd, file) => s.(kernel := s.kernel + {fd}, held := s.held[fd := Real(file)])
    case Remove(t, fd) =>
      s.(registry := s.registry - {fd}, held := s.held - {fd}, threads := s.threads[t := Closing(fd)])
    case KernelClose(t) => s.(kernel := s.kernel - {s.threads[t].fd}, threads := s.threads - {t})
  }

  const INITIAL: State := State({}, map[], map[], map[])

  ghost predicate IsRun(events: seq<Event>, states: seq<State>) {
    && |states| == |events| + 1 && states[0] == INITIAL
    && forall i: nat :: i < |events| ==> Follows(states[i], events[i], states[i + 1])
  }

  ghost predicate Follows(s: State, e: Event, s': State) { Enabled(s, e) && s' == Step(s, e) }

  // ---- Every open descriptor has exactly one owner -----------------------------------------------------------

  /** A thread inside a shim owns its descriptor alone: it is open, no one holds it, no other thread has it. */
  ghost predicate ThreadOwns(s: State, t: Thread) {
    t in s.threads ==>
      var p := s.threads[t];
      && p.fd in s.kernel && p.fd !in s.held
      && (forall u :: u in s.threads && u != t ==> s.threads[u].fd != p.fd)
      && Lookup(s.registry, p.fd) == (if p.Returning? then Some(p.stream) else None)
  }

  /** A held descriptor is open, and is registered exactly when it is virtual, under its own stream. */
  ghost predicate HolderOwns(s: State, fd: Fd) {
    fd in s.held ==>
      && fd in s.kernel
      && Lookup(s.registry, fd) == (match s.held[fd] case Virtual(stream) => Some(stream) case Real(_) => None)
  }

  /** A registered descriptor is held, or on its way to the application. */
  ghost predicate EntryOwned(s: State, fd: Fd) {
    fd in s.registry ==> fd in s.held || exists t :: t in s.threads && s.threads[t].Returning? && s.threads[t].fd == fd
  }

  /** An open descriptor is held or in the hands of a thread. */
  ghost predicate OpenOwned(s: State, fd: Fd) {
    fd in s.kernel ==> fd in s.held || exists t :: t in s.threads && s.threads[t].fd == fd
  }

  ghost predicate Inv(s: State) {
    && (forall t :: ThreadOwns(s, t))
    && (forall fd :: HolderOwns(s, fd))
    && (forall fd :: EntryOwned(s, fd))
    && (forall fd :: OpenOwned(s, fd))
  }

  /** The descriptor an event is about. */
  function Subject(s: State, e: Event): (fd: Fd)
    requires Enabled(s, e)
  {
    match e
    case Reserve(_, fd, _) => fd
    case RealOpen(fd, _) => fd
    case Remove(_, fd) => fd
    case Insert(t) => s.threads[t].fd
    case Return(t) => s.threads[t].fd
    case KernelClose(t) => s.threads[t].fd
  }

  /** A step leaves every other descriptor's entry, holder and openness alone. */
  lemma StepFrames(s: State, e: Event, fd: Fd)
    requires Enabled(s, e) && fd != Subject(s, e)
    ensures var s' := Step(s, e);
            && Lookup(s'.registry, fd) == Lookup(s.registry, fd)
            && (fd in s'.kernel <==> fd in s.kernel)
            && (fd in s'.held <==> fd in s.held) && (fd in s.held ==> s'.held[fd] == s.held[fd])
  {}

  lemma StepKeepsThreads(s: State, e: Event, t: Thread)
    requires Inv(s) && Enabled(s, e)
    ensures ThreadOwns(Step(s, e), t)
  {
    var s' := Step(s, e);
    assert ThreadOwns(s, t);
    if t in s'.threads {
      if t in s.threads && s.threads[t].fd != Subject(s, e) {
        StepFrames(s, e, s.threads[t].fd);
      } else {
        assert HolderOwns(s, Subject(s, e)) && EntryOwned(s, Subject(s, e)) && OpenOwned(s, Subject(s, e));
        assert forall u :: u in s.threads ==> ThreadOwns(s, u);
      }
    }
  }

  lemma StepKeepsHolders(s: State, e: Event, fd: Fd)
    requires Inv(s) && Enabled(s, e)
    ensures HolderOwns(Step(s, e), fd)
  {
    assert HolderOwns(s, fd);
    if fd != Subject(s, e) {
      StepFrames(s, e, fd);
    } else {
      assert EntryOwned(s, fd) && OpenOwned(s, fd);
      assert forall u :: u in s.threads ==> ThreadOwns(s, u);
    }
  }

  lemma StepKeepsEntries(s: State, e: Event, fd: Fd)
    requires Inv(s) && Enabled(s, e)
    ensures EntryOwned(Step(s, e), fd) && OpenOwned(Step(s, e), fd)
  {
    var s' := Step(s, e);
    assert EntryOwned(s, fd) && OpenOwned(s, fd) && HolderOwns(s, fd);
    assert forall u :: u in s.threads ==> ThreadOwns(s, u);
    if fd != Subject(s, e) {
      StepFrames(s, e, fd);
      assert forall u :: u in s.threads && s.threads[u].fd == fd ==> u in s'.threads && s'.threads[u] == s.threads[u];
    } else if !e.RealOpen? && !e.Return? && !e.KernelClose? {
      assert s'.threads[e.t].fd == fd;
    }
  }

  lemma {:induction false} RunsKeepInv(events: seq<Event>, states: seq<State>, k: nat)
    requires IsRun(events, states) && k <= |events|
    ensures Inv(states[k])
  {
    if k > 0 {
      RunsKeepInv(events, states, k - 1);
      assert Follows(states[k - 1], events[k - 1], states[k]);
      forall t ensures ThreadOwns(states[k], t) { StepKeepsThreads(states[k - 1], events[k - 1], t); }
      forall fd ensures HolderOwns(states[k], fd) { StepKeepsHolders(states[k - 1], events[k - 1], fd); }
      forall fd ensures EntryOwned(states[k], fd) && OpenOwned(states[k], fd) {
        StepKeepsEntries(states[k - 1], events[k - 1], fd);
      }
    }
  }

  // ---- What follows at every point of every run ----------------------------------------------------------------

  /**
   * Every registry key is an open descriptor, and a lookup routes each held descriptor to its own stream
   * or to none.
   */
  lemma RoutingIsExact(events: seq<Event>, states: seq<State>, k: nat)
    requires IsRun(events, states) && k <= |events|
    ensures states[k].registry.Keys <= states[k].kernel
    ensures forall fd :: fd in states[k].held ==>
              match states[k].held[fd]
              case Virtual(stream) => Lookup(states[k].registry, fd) == Some(stream)
              case Real(_) => fd !in states[k].registry
  {
    RunsKeepInv(events, states, k);
    var s := states[k];
    forall fd | fd in s.registry ensures fd in s.kernel {
      assert EntryOwned(s, fd) && HolderOwns(s, fd);
      assert forall u :: u in s.threads ==> ThreadOwns(s, u);
    }
    forall fd | fd in s.held
      ensures match s.held[fd]
              case Virtual(stream) => Lookup(s.registry, fd) == Some(stream)
              case Real(_) => fd !in s.registry
    {
      assert HolderOwns(s, fd);
    }
  }

  /** An insert never overwrites, and a kernel close closes an open, unregistered, unheld descriptor. */
  lemma NothingIsTakenTwice(events: seq<Event>, states: seq<State>, k: nat)
    requires IsRun(events, states) && k < |events|
    ensures Enabled(states[k], events[k])
    ensures events[k].Insert? ==> Subject(states[k], events[k]) !in states[k].registry
    ensures events[k].KernelClose? ==>
              var fd := Subject(states[k], events[k]);
              fd in states[k].kernel && fd !in states[k].registry && fd !in states[k].held
  {
    RunsKeepInv(events, states, k);
    assert Follows(states[k], events[k], states[k + 1]);
    if events[k].Insert? || events[k].KernelClose? { assert ThreadOwns(states[k], events[k].t); }
  }

  /** With every thread outside the shims nothing has leaked: open is held, and registered is held as virtual. */
  lemma QuietMeansBalanced(events: seq<Event>, states: seq<State>, k: nat)
    requires IsRun(events, states) && k <= |events| && states[k].threads == map[]
    ensures states[k].kernel == states[k].held.Keys
    ensures forall fd :: fd in states[k].registry <==> fd in states[k].held && states[k].held[fd].Virtual?
  {
    RunsKeepInv(events, states, k);
    var s := states[k];
    forall fd ensures fd in s.kernel <==> fd in s.held { assert OpenOwned(s, fd) && HolderOwns(s, fd); }
    forall fd ensures fd in s.registry <==> fd in s.held && s.held[fd].Virtual? {
      assert EntryOwned(s, fd) && HolderOwns(s, fd);
    }
  }

  // ---- Why the order of the two halves of close matters --------------------------------------------------------

  /** Close with its halves swapped: the kernel descriptor goes first, the entry later. */
  function CloseFirst(s: State, fd: Fd): (r: State) { s.(kernel := s.kernel - {fd}, held := s.held - {fd}) }

  /** Between those halves any real open may be given the number, and is then routed to the dead stream. */
  lemma SwappedCloseAliases(s: State, fd: Fd, file: nat)
    requires Inv(s) && fd in s.held && s.held[fd].Virtual?
    ensures var mid := CloseFirst(s, fd);
            && Enabled(mid, RealOpen(fd, file))
            && Step(mid, RealOpen(fd, file)).held[fd] == Real(file)
            && Lookup(Step(mid, RealOpen(fd, file)).registry, fd) == Some(s.held[fd].stream)
  {
    assert HolderOwns(s, fd);
  }
}
