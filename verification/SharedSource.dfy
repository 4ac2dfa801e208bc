/** Many independent cursors over one physical stream behind a mutex. */
module SharedSource {
  import opened Wrappers
  import opened Io

  type Bytes = seq<Byte>

  // ---- A cursor over a private copy of the bytes ----------------------------------------------------

  /** What the stream makes of one read: a count, which may fall short, or a failure. */
  datatype Answer = Short(n: nat) | Fails

  datatype Op = Seek(from: SeekFrom) | Read(len: nat, answer: Answer)

  datatype Obs = At(pos: nat) | Got(bs: Bytes) | Failed(error: IoError)

  /** An answer the stream may give to a read of `len` bytes at `pos`. */
  predicate Possible(size: nat, pos: nat, len: nat, answer: Answer) {
    answer.Short? ==> answer.n <= len && (pos + answer.n <= size || answer.n == 0)
  }

  /** One operation on a private stream: the new position and what the caller sees. */
  function Private(bytes: Bytes, pos: nat, op: Op): (r: (nat, Obs)) {
    match op
    case Seek(from) =>
      (match SeekTarget(|bytes|, pos, from)
       case Ok(target) => (target, At(target))
       case Err(e) => (pos, Failed(e)))
    case Read(len, answer) =>
      if pos >= |bytes| then (pos, Got([]))
      else if answer.Short? && pos + answer.n <= |bytes| then (pos + answer.n, Got(bytes[pos..pos + answer.n]))
      else (pos, Failed(SourceFailure))
  }

  function PrivateEnd(bytes: Bytes, pos: nat, ops: seq<Op>): (r: nat)
    decreases |ops|
  {
    if ops == [] then pos else Private(bytes, PrivateEnd(bytes, pos, ops[..|ops| - 1]), ops[|ops| - 1]).0
  }

  function PrivateRun(bytes: Bytes, pos: nat, ops: seq<Op>): (r: seq<Obs>)
    decreases |ops|
  {
    if ops == [] then []
    else
      var before := ops[..|ops| - 1];
      PrivateRun(bytes, pos, before) + [Private(bytes, PrivateEnd(bytes, pos, before), ops[|ops| - 1]).1]
  }

  // ---- The shared machine, one lock-sized step at a time -----------------------------------------------

  /** How far a cursor's read has come. */
  datatype Phase = Idle | Waiting(len: nat) | Holding(len: nat) | Positioned(len: nat)

  datatype CursorState = CursorState(pos: nat, phase: Phase)

  datatype State = State(phys: nat, holder: Option<nat>, cursors: map<nat, CursorState>)

  /** Steps any thread may take next; `rest` is where a failing call leaves the physical stream. */
  datatype Event =
    | OpenCursor(id: nat)
    | SeekCursor(id: nat, from: SeekFrom)
    | BeginRead(id: nat, len: nat)
    | Acquire(id: nat)
    | PhysicalSeek(id: nat, ok: bool, rest: nat)
    | PhysicalRead(id: nat, answer: Answer, rest: nat)

  /** A completed operation as its caller saw it. */
  datatype Done = Done(id: nat, op: Op, obs: Obs)

  predicate Enabled(bytes: Bytes, s: State, e: Event) {
    if e.OpenCursor? then e.id !in s.cursors
    else
      e.id in s.cursors &&
      match (e, s.cursors[e.id].phase)
      case (SeekCursor(_, _), Idle) => true
      case (BeginRead(_, _), Idle) => true
      case (Acquire(_), Waiting(_)) => s.holder == None
      case (PhysicalSeek(_, _, _), Holding(_)) => true
      case (PhysicalRead(_, answer, _), Positioned(len)) => Possible(|bytes|, s.phys, len, answer)
      case _ => false
  }

  /** The step and the operations it completes; the physical read takes bytes at the physical position. */
  function Step(bytes: Bytes, s: State, e: Event): (r: (State, seq<Done>))
    requires Enabled(bytes, s, e)
  {
    if e.OpenCursor? then (s.(cursors := s.cursors[e.id := CursorState(0, Idle)]), [])
    else
      var c := s.cursors[e.id];
      match e
      case SeekCursor(id, from) =>
        (match SeekTarget(|bytes|, c.pos, from)
         case Ok(target) => (Set(s, id, target, Idle), [Done(id, Seek(from), At(target))])
         case Err(err) => (s, [Done(id, Seek(from), Failed(err))]))
      case BeginRead(id, len) =>
        if c.pos >= |bytes| then (s, [Done(id, Read(len, Short(0)), Got([]))])
        else (Set(s, id, c.pos, Waiting(len)), [])
      case Acquire(id) => (Set(s, id, c.pos, Holding(c.phase.len)).(holder := Some(id)), [])
      case PhysicalSeek(id, ok, rest) =>
        if ok then (Set(s, id, c.pos, Positioned(c.phase.len)).(phys := c.pos), [])
        else (Released(s, id, c.pos, rest), [Done(id, Read(c.phase.len, Fails), Failed(SourceFailure))])
      case PhysicalRead(id, answer, rest) =>
        if answer.Fails? then
          (Released(s, id, c.pos, rest), [Done(id, Read(c.phase.len, Fails), Failed(SourceFailure))])
        else
          var got := if answer.n == 0 then [] else bytes[s.phys..s.phys + answer.n];
          (Released(s, id, SaturatingAdd(c.pos, |got|), s.phys + |got|),
           [Done(id, Read(c.phase.len, answer), Got(got))])
  }

  function Set(s: State, id: nat, pos: nat, phase: Phase): (r: State) {
    s.(cursors := s.cursors[id := CursorState(pos, phase)])
  }

  function Released(s: State, id: nat, pos: nat, rest: nat): (r: State) {
    State(rest, None, s.cursors[id := CursorState(pos, Idle)])
  }

  /** Runs: reachable states with the log of completed operations. */
  datatype Run = Run(s: State, log: seq<Done>)

  const INITIAL: Run := Run(State(0, None, map[]), [])

  ghost predicate IsRun(bytes: Bytes, events: seq<Event>, runs: seq<Run>) {
    && |runs| == |events| + 1 && runs[0] == INITIAL
    && forall i: nat :: i < |events| ==> Follows(bytes, runs[i], events[i], runs[i + 1])
  }

  ghost predicate Follows(bytes: Bytes, r: Run, e: Event, r': Run) {
    && Enabled(bytes, r.s, e)
    && r'.s == Step(bytes, r.s, e).0 && r'.log == r.log + Step(bytes, r.s, e).1
  }

  // ---- The mutex keeps the physical position the holder's ---------------------------------------------------

  /** A cursor inside the locked region is the holder, in range, and after its seek owns the physical position. */
  ghost predicate CursorOk(bytes: Bytes, s: State, id: nat) {
    id in s.cursors ==>
      var c := s.cursors[id];
      && (c.phase.Holding? || c.phase.Positioned? <==> s.holder == Some(id))
      && (!c.phase.Idle? ==> c.pos < |bytes|)
      && (c.phase.Positioned? ==> s.phys == c.pos)
  }

  ghost predicate Inv(bytes: Bytes, s: State) {
    && |bytes| <= U64_MAX
    && (s.holder.Some? ==> s.holder.value in s.cursors)
    && forall id :: CursorOk(bytes, s, id)
  }

  lemma StepKeepsInv(bytes: Bytes, s: State, e: Event)
    requires Inv(bytes, s) && Enabled(bytes, s, e)
    ensures Inv(bytes, Step(bytes, s, e).0)
  {
    var s' := Step(bytes, s, e).0;
    assert CursorOk(bytes, s, e.id);
    if s.holder.Some? { assert CursorOk(bytes, s, s.holder.value); }
    forall id ensures CursorOk(bytes, s', id) {
      assert CursorOk(bytes, s, id);
    }
  }

  // ---- The log of one cursor ------------------------------------------------------------------------------------

  function OpsOf(log: seq<Done>, id: nat): (r: seq<Op>)
    decreases |log|
  {
    if log == [] then []
    else
      var last := log[|log| - 1];
      OpsOf(log[..|log| - 1], id) + (if last.id == id then [last.op] else [])
  }

  function SeenBy(log: seq<Done>, id: nat): (r: seq<Obs>)
    decreases |log|
  {
    if log == [] then []
    else
      var last := log[|log| - 1];
      SeenBy(log[..|log| - 1], id) + (if last.id == id then [last.obs] else [])
  }

  /** Cursor `id` so far is a private run: same observations, same position. */
  ghost predicate IsPrivate(bytes: Bytes, r: Run, id: nat) {
    && SeenBy(r.log, id) == PrivateRun(bytes, 0, OpsOf(r.log, id))
    && (id in r.s.cursors ==> r.s.cursors[id].pos == PrivateEnd(bytes, 0, OpsOf(r.log, id)))
    && (id !in r.s.cursors ==> OpsOf(r.log, id) == [])
  }

  lemma StepFrames(bytes: Bytes, s: State, e: Event, id: nat)
    requires Enabled(bytes, s, e) && id != e.id
    ensures var t := Step(bytes, s, e).0;
            (id in t.cursors <==> id in s.cursors) && (id in s.cursors ==> t.cursors[id] == s.cursors[id])
  {}

  /** A step completes at most one operation, by its own cursor, exactly as a private stream would. */
  lemma StepIsPrivate(bytes: Bytes, s: State, e: Event)
    requires Inv(bytes, s) && Enabled(bytes, s, e)
    ensures ActsPrivately(bytes, s, e.id, Step(bytes, s, e).1, Step(bytes, s, e).0)
  {
    forall id | id != e.id
      ensures var t := Step(bytes, s, e).0;
              (id in t.cursors <==> id in s.cursors) && (id in s.cursors ==> t.cursors[id] == s.cursors[id]) {
      StepFrames(bytes, s, e, id);
    }
    StepOwn(bytes, s, e);
  }

  /** The step's own cursor: unmoved, or moved by exactly one private operation. */
  lemma StepOwn(bytes: Bytes, s: State, e: Event)
    requires Inv(bytes, s) && Enabled(bytes, s, e)
    ensures var (t, done) := Step(bytes, s, e);
            && |done| <= 1 && e.id in t.cursors
            && (e.id !in s.cursors ==> done == [] && t.cursors[e.id].pos == 0)
            && (e.id in s.cursors && done == [] ==> t.cursors[e.id].pos == s.cursors[e.id].pos)
            && (done != [] ==>
                  && done[0].id == e.id && e.id in s.cursors
                  && Private(bytes, s.cursors[e.id].pos, done[0].op) == (t.cursors[e.id].pos, done[0].obs))
  {
    assert CursorOk(bytes, s, e.id);
    if e.PhysicalRead? && e.answer.Short? {
      var pos := s.cursors[e.id].pos;
      assert s.phys == pos && pos + e.answer.n <= |bytes|;
      assert e.answer.n == 0 ==> bytes[pos..pos] == [];
    }
  }

  lemma LogGrows(log: seq<Done>, done: Done, id: nat)
    ensures OpsOf(log + [done], id) == OpsOf(log, id) + (if done.id == id then [done.op] else [])
    ensures SeenBy(log + [done], id) == SeenBy(log, id) + (if done.id == id then [done.obs] else [])
  {
    assert (log + [done])[..|log|] == log;
  }

  lemma PrivateGrows(bytes: Bytes, pos: nat, ops: seq<Op>, op: Op)
    ensures PrivateEnd(bytes, pos, ops + [op]) == Private(bytes, PrivateEnd(bytes, pos, ops), op).0
    ensures PrivateRun(bytes, pos, ops + [op]) ==
              PrivateRun(bytes, pos, ops) + [Private(bytes, PrivateEnd(bytes, pos, ops), op).1]
  {
    assert (ops + [op])[..|ops|] == ops;
  }

  /** An operation of `id` that a private stream would do the same way extends its private run. */
  lemma ExtendPrivate(bytes: Bytes, r: Run, done: Done, r': Run, id: nat)
    requires IsPrivate(bytes, r, id) && id in r.s.cursors && id in r'.s.cursors
    requires r'.log == r.log + [done] && done.id == id
    requires Private(bytes, r.s.cursors[id].pos, done.op) == (r'.s.cursors[id].pos, done.obs)
    ensures IsPrivate(bytes, r', id)
  {
    LogGrows(r.log, done, id);
    PrivateGrows(bytes, 0, OpsOf(r.log, id), done.op);
  }

  /** Whatever leaves `id`'s part of the log and its position alone leaves its private run alone. */
  lemma UntouchedPrivate(bytes: Bytes, r: Run, r': Run, id: nat)
    requires IsPrivate(bytes, r, id)
    requires OpsOf(r'.log, id) == OpsOf(r.log, id) && SeenBy(r'.log, id) == SeenBy(r.log, id)
    requires id in r.s.cursors ==> id in r'.s.cursors && r'.s.cursors[id].pos == r.s.cursors[id].pos
    requires id !in r.s.cursors && id in r'.s.cursors ==> r'.s.cursors[id].pos == 0
    ensures IsPrivate(bytes, r', id)
  {}

  /** A step that is `actor`'s alone and completes at most one of its operations, privately. */
  ghost predicate ActsPrivately(bytes: Bytes, s: State, actor: nat, done: seq<Done>, s': State) {
    && |done| <= 1 && actor in s'.cursors
    && (forall id :: id != actor ==>
          (id in s'.cursors <==> id in s.cursors) && (id in s.cursors ==> s'.cursors[id] == s.cursors[id]))
    && (actor !in s.cursors ==> done == [] && s'.cursors[actor].pos == 0)
    && (actor in s.cursors && done == [] ==> s'.cursors[actor].pos == s.cursors[actor].pos)
    && (done != [] ==>
          && done[0].id == actor && actor in s.cursors
          && Private(bytes, s.cursors[actor].pos, done[0].op) == (s'.cursors[actor].pos, done[0].obs))
  }

  lemma ActsKeepPrivate(bytes: Bytes, r: Run, actor: nat, done: seq<Done>, r': Run, id: nat)
    requires ActsPrivately(bytes, r.s, actor, done, r'.s) && r'.log == r.log + done && IsPrivate(bytes, r, id)
    ensures IsPrivate(bytes, r', id)
  {
    if done == [] {
      assert r.log + done == r.log;
      UntouchedPrivate(bytes, r, r', id);
    } else {
      assert done == [done[0]];
      if id == actor {
        ExtendPrivate(bytes, r, done[0], r', id);
      } else {
        LogGrows(r.log, done[0], id);
        UntouchedPrivate(bytes, r, r', id);
      }
    }
  }


  /**
   * In every interleaving of any number of cursors, with short reads and failures anywhere, each cursor
   * has seen exactly what it would have seen over its own copy of the bytes, and stands where it would.
   */
  lemma {:induction false} EveryCursorIsPrivate(bytes: Bytes, events: seq<Event>, runs: seq<Run>, k: nat, id: nat)
    requires |bytes| <= U64_MAX && IsRun(bytes, events, runs) && k <= |events|
    ensures Inv(bytes, runs[k].s) && IsPrivate(bytes, runs[k], id)
  {
    if k > 0 {
      EveryCursorIsPrivate(bytes, events, runs, k - 1, id);
      assert Follows(bytes, runs[k - 1], events[k - 1], runs[k]);
      StepKeepsInv(bytes, runs[k - 1].s, events[k - 1]);
      StepIsPrivate(bytes, runs[k - 1].s, events[k - 1]);
      ActsKeepPrivate(bytes, runs[k - 1], events[k - 1].id, Step(bytes, runs[k - 1].s, events[k - 1]).1, runs[k], id);
    }
  }

  /** The bytes a list of observations delivered, in order. */
  function Delivered(obs: seq<Obs>): (r: Bytes)
    decreases |obs|
  {
    if obs == [] then []
    else
      var last := obs[|obs| - 1];
      Delivered(obs[..|obs| - 1]) + (if last.Got? then last.bs else [])
  }

  lemma DeliveredGrows(obs: seq<Obs>, o: Obs)
    ensures Delivered(obs + [o]) == Delivered(obs) + (if o.Got? then o.bs else [])
  {
    assert (obs + [o])[..|obs|] == obs;
  }

  lemma ReadDelivers(bytes: Bytes, p: nat, op: Op)
    requires op.Read? && p <= |bytes|
    ensures var (q, o) := Private(bytes, p, op);
            q <= |bytes| && bytes[..p] + (if o.Got? then o.bs else []) == bytes[..q]
  {}

  lemma {:induction false} ReadsDeliver(bytes: Bytes, ops: seq<Op>)
    requires forall i :: 0 <= i < |ops| ==> ops[i].Read?
    ensures PrivateEnd(bytes, 0, ops) <= |bytes|
    ensures Delivered(PrivateRun(bytes, 0, ops)) == bytes[..PrivateEnd(bytes, 0, ops)]
    decreases |ops|
  {
    if ops != [] {
      var before, op := ops[..|ops| - 1], ops[|ops| - 1];
      ReadsDeliver(bytes, before);
      var p := PrivateEnd(bytes, 0, before);
      ReadDelivers(bytes, p, op);
      DeliveredGrows(PrivateRun(bytes, 0, before), Private(bytes, p, op).1);
    }
  }

  /** A cursor that never seeks has received a gapless prefix of the file, whatever the others did. */
  lemma ReaderSeesAPrefix(bytes: Bytes, events: seq<Event>, runs: seq<Run>, k: nat, id: nat)
    requires |bytes| <= U64_MAX && IsRun(bytes, events, runs) && k <= |events| && id in runs[k].s.cursors
    requires forall i :: 0 <= i < |OpsOf(runs[k].log, id)| ==> OpsOf(runs[k].log, id)[i].Read?
    ensures runs[k].s.cursors[id].pos <= |bytes|
    ensures Delivered(SeenBy(runs[k].log, id)) == bytes[..runs[k].s.cursors[id].pos]
  {
    EveryCursorIsPrivate(bytes, events, runs, k, id);
    ReadsDeliver(bytes, OpsOf(runs[k].log, id));
  }

  /** The size probe is three seeks that leave the position where it was. */
  lemma SizeProbeIsNeutral(bytes: Bytes, pos: nat)
    requires |bytes| <= U64_MAX && pos <= U64_MAX
    ensures PrivateRun(bytes, pos, [] + [Seek(Current(0))] + [Seek(End(0))] + [Seek(Start(pos))]) ==
              [] + [At(pos)] + [At(|bytes|)] + [At(pos)]
  {
    var none: seq<Op> := [];
    var one := none + [Seek(Current(0))];
    var two := one + [Seek(End(0))];
    PrivateGrows(bytes, pos, none, Seek(Current(0)));
    PrivateGrows(bytes, pos, one, Seek(End(0)));
    PrivateGrows(bytes, pos, two, Seek(Start(pos)));
  }

  // ---- The objects -------------------------------------------------------------------------------------------------

  /** The caller's stream: any call may fail and leave its position anywhere; any read may fall short. */
  class PhysicalStream {
    const bytes: Bytes
    var pos: nat

    constructor (bytes: Bytes)
      ensures this.bytes == bytes
    {
      this.bytes := bytes;
      pos := 0;
    }

    method SeekTo(from: SeekFrom) returns (r: Result<nat, IoError>)
      modifies this
      ensures r.Ok? ==> SeekTarget(|bytes|, old(pos), from) == r && pos == r.value
    {
      if * { pos := *; return Err(SourceFailure); }
      r := SeekTarget(|bytes|, pos, from);
      if r.Ok? { pos := r.value; }
    }

    method ReadSome(len: nat) returns (r: Result<Bytes, IoError>)
      modifies this
      ensures r.Ok? && r.value != [] ==>
                pos <= |bytes| && old(pos) + |r.value| == pos && r.value == bytes[old(pos)..pos]
      ensures r.Ok? ==> |r.value| <= len
      ensures r.Err? ==> r == Err(SourceFailure)
    {
      if * { pos := *; return Err(SourceFailure); }
      if pos >= |bytes| { return Ok([]); }
      var n: nat :| n <= len && pos + n <= |bytes|;
      r := Ok(bytes[pos..pos + n]);
      pos := pos + n;
    }

    /** The default size probe: to the end and back. */
    method Size() returns (r: Result<nat, IoError>)
      modifies this
      ensures r.Ok? ==> pos == old(pos) && r == Ok(|bytes|)
    {
      var current :- SeekTo(Current(0));
      var end :- SeekTo(End(0));
      if current != end {
        var _ :- SeekTo(Start(current));
      }
      return Ok(end);
    }
  }

  class Source {
    const inner: PhysicalStream
    const size: nat

    ghost predicate Valid() { size == |inner.bytes| <= U64_MAX }

    constructor (inner: PhysicalStream, size: nat)
      ensures this.inner == inner && this.size == size
    {
      this.inner := inner;
      this.size := size;
    }

    /** Seek then read, in one critical section. */
    method ReadAt(at: nat, len: nat) returns (r: Result<Bytes, IoError>)
      requires Valid() && at <= U64_MAX
      modifies inner
      ensures r.Ok? && r.value != [] ==> at + |r.value| <= size && r.value == inner.bytes[at..at + |r.value|]
      ensures r.Ok? ==> |r.value| <= len
    {
      var _ :- inner.SeekTo(Start(at));
      r := inner.ReadSome(len);
    }
  }

  /** Wrapping a stream probes its size once and keeps the answer; nothing is wrapped when the probe fails. */
  method Share(stream: PhysicalStream) returns (r: Result<Source, IoError>)
    requires |stream.bytes| <= U64_MAX
    modifies stream
    ensures r.Ok? ==> fresh(r.value) && r.value.Valid() && r.value.inner == stream && stream.pos == 0
  {
    var size :- stream.Size();
    var _ :- stream.SeekTo(Start(0));
    var source := new Source(stream, size);
    return Ok(source);
  }

  class SourceCursor {
    const source: Source
    var pos: nat

    ghost predicate Valid() reads this { source.Valid() && pos <= U64_MAX }

    constructor (source: Source)
      requires source.Valid()
      ensures this.source == source && pos == 0 && Valid()
    {
      this.source := source;
      pos := 0;
    }

    /** Some answer of the stream makes this the private read. */
    method Read(len: nat) returns (r: Result<Bytes, IoError>)
      requires Valid()
      modifies this`pos, source.inner
      ensures Valid()
      ensures r.Ok? ==> |r.value| <= len
      ensures r.Ok? ==> Private(source.inner.bytes, old(pos), Op.Read(len, Short(|r.value|))) == (pos, Got(r.value))
      ensures r.Err? ==> Private(source.inner.bytes, old(pos), Op.Read(len, Fails)) == (pos, Failed(SourceFailure))
      ensures old(pos) >= source.size ==> r == Ok([]) && source.inner.pos == old(source.inner.pos)
    {
      if pos >= source.size { return Ok([]); }
      var got :- source.ReadAt(pos, len);
      assert got == source.inner.bytes[pos..pos + |got|];
      pos := SaturatingAdd(pos, |got|);
      return Ok(got);
    }

    /** Seeking never touches the physical stream. */
    method Seek(from: SeekFrom) returns (r: Result<nat, IoError>)
      requires Valid()
      modifies this`pos
      ensures Valid()
      ensures Private(source.inner.bytes, old(pos), Op.Seek(from)) ==
                (pos, match r case Ok(p) => At(p) case Err(e) => Failed(e))
    {
      r := SeekTarget(source.size, pos, from);
      if r.Ok? { pos := r.value; }
    }

    method Size() returns (r: Result<nat, IoError>)
      requires Valid()
      modifies this`pos
      ensures Valid() && pos == old(pos) && r == Ok(|source.inner.bytes|)
    {
      var current := pos;
      r := Seek(End(0));                       // neither seek can fail
      if current != r.value {
        var _ := Seek(Start(current));
      }
    }

    /**
     * `pread`: a read at `offset`, some answer of the stream permitting; the position comes back even when
     * the read fails.
     */
    method Pread(len: nat, offset: nat) returns (r: Result<Bytes, IoError>)
      requires Valid() && offset <= U64_MAX
      modifies this`pos, source.inner
      ensures Valid() && pos == old(pos)
      ensures r.Ok? ==> |r.value| <= len
      ensures r.Ok? ==> Private(source.inner.bytes, offset, Op.Read(len, Short(|r.value|))).1 == Got(r.value)
      ensures r.Err? ==> Private(source.inner.bytes, offset, Op.Read(len, Fails)).1 == Failed(SourceFailure)
      ensures offset >= source.size ==> r == Ok([])
    {
      var saved := pos;
      var _ := Seek(Start(offset));
      r := Read(len);
      var _ := Seek(Start(saved));
    }
  }
}
