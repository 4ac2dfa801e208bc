/** The capacity-accounted volume, its files, and their independent cursors. */
module MemFiles {
  import opened Wrappers
  import opened Io

  // ---- The volume ---------------------------------------------------------------

  /** The `used` count after a file's length goes from `old` to `new`, as 64-bit code computes it. */
  function Resized(capacity: nat, used: nat, oldLen: nat, newLen: nat): (r: Result<nat, IoError>) {
    if newLen >= oldLen then
      if SaturatingAdd(used, newLen - oldLen) > capacity then Err(NoSpace)
      else Ok((used + newLen - oldLen) % (U64_MAX + 1))
    else Ok(SaturatingSub(used, oldLen - newLen))
  }

  /** The accounting a resize is meant to do: the exact new total, refused only when it does not fit. */
  ghost predicate AccountsExactly(capacity: nat, used: nat, oldLen: nat, newLen: nat) {
    var exact := used - oldLen + newLen;
    match Resized(capacity, used, oldLen, newLen)
    case Ok(u) => u == exact && exact <= capacity
    case Err(_) => exact > capacity
  }

  /**
   * A resize accounts exactly unless the capacity is the largest 64-bit value and the new total
   * does not fit a word: there the saturated sum passes the check and the addition wraps.
   */
  lemma ResizeExactIff(capacity: nat, used: nat, oldLen: nat, newLen: nat)
    requires oldLen <= used <= capacity <= U64_MAX && newLen <= U64_MAX
    ensures AccountsExactly(capacity, used, oldLen, newLen) <==>
            capacity < U64_MAX || used - oldLen + newLen <= U64_MAX
  {
    var exact := used - oldLen + newLen;
    if exact > U64_MAX && capacity == U64_MAX {
      assert exact % (U64_MAX + 1) != exact;
    }
  }

  /** The failing family is inhabited: one byte in use and a maximal extension. */
  lemma ResizeCanWrap()
    ensures Resized(U64_MAX, 1, 0, U64_MAX) == Ok(0)
    ensures !AccountsExactly(U64_MAX, 1, 0, U64_MAX)
  {}

  class Volume {
    const capacity: nat
    var used: nat

    ghost predicate Valid() reads this { used <= capacity <= U64_MAX }

    constructor (capacity: nat)
      requires capacity <= U64_MAX
      ensures Valid() && this.capacity == capacity && used == 0
    {
      this.capacity := capacity;
      used := 0;
    }

    function Free(): (n: nat)
      requires Valid()
      reads this
    {
      capacity - used
    }

    /** All or nothing, in wrapping 64-bit arithmetic. */
    method Resize(oldLen: nat, newLen: nat) returns (r: Result<(), IoError>)
      requires Valid() && newLen <= U64_MAX
      modifies this`used
      ensures Valid()
      ensures match Resized(capacity, old(used), oldLen, newLen)
              case Ok(u) => r == Ok(()) && used == u
              case Err(e) => r == Err(e) && used == old(used)
    {
      if newLen >= oldLen {
        var grow := newLen - oldLen;
        if SaturatingAdd(used, grow) > capacity {
          return Err(NoSpace);
        }
        used := (used + grow) % (U64_MAX + 1);
      } else {
        used := SaturatingSub(used, oldLen - newLen);
      }
      return Ok(());
    }

    /** As much growth as the free capacity allows. */
    method Reserve(oldLen: nat, desired: nat) returns (granted: nat)
      requires Valid() && oldLen <= desired
      modifies this`used
      ensures Valid()
      ensures granted == oldLen + Min(desired - oldLen, old(Free()))
      ensures used == old(used) + granted - oldLen
    {
      var want := SaturatingSub(desired, oldLen);
      var free := SaturatingSub(capacity, used);
      var grant := Min(want, free);
      used := used + grant;
      return oldLen + grant;
    }

    /** Returns bytes; more than are in use empties the volume. */
    method Release(len: nat)
      requires Valid()
      modifies this`used
      ensures Valid() && used == if len <= old(used) then old(used) - len else 0
    {
      used := SaturatingSub(used, len);
    }
  }

  // ---- One file: what reads and writes mean ------------------------------------

  /** `data` with `bytes` laid over it at `pos`, any gap past the old end filled with zeros. */
  function Overwrite(data: seq<Byte>, pos: nat, bytes: seq<Byte>): (r: seq<Byte>)
    ensures |r| == Max(|data|, pos + |bytes|)
  {
    seq(Max(|data|, pos + |bytes|), i requires 0 <= i =>
      if pos <= i < pos + |bytes| then bytes[i - pos] else if i < |data| then data[i] else 0)
  }

  /** `data` cut to `len` bytes, or zero-filled up to it. */
  function Extended(data: seq<Byte>, len: nat): (r: seq<Byte>)
    ensures |r| == len
  {
    seq(len, i requires 0 <= i => if i < |data| then data[i] else 0)
  }

  /** Whether writing `n` bytes at `pos` grows a file of `len` bytes by no more than `free`. */
  predicate Fits(len: nat, free: nat, pos: nat, n: nat) { Max(len, pos + n) - len <= free }

  /** The number of bytes a write places: the most that fit. */
  function ShortCount(len: nat, free: nat, pos: nat, want: nat): (n: nat)
    ensures n <= want
    ensures n > 0 ==> Fits(len, free, pos, n)
    ensures forall m :: n < m <= want ==> !Fits(len, free, pos, m)
  {
    Min(want, SaturatingSub(len + free, pos))
  }

  /** One open file as its writer sees it: the bytes, the cursor, the volume's free space. */
  datatype OpenFile = OpenFile(data: seq<Byte>, pos: nat, free: nat)

  /** One `write(2)`: everything, a short count, or nothing with an error. */
  function WriteOnce(f: OpenFile, buf: seq<Byte>): (r: (Result<nat, IoError>, OpenFile)) {
    var n := ShortCount(|f.data|, f.free, f.pos, |buf|);
    if buf == [] then (Ok(0), f)
    else if f.pos + |buf| > U64_MAX then (Err(InvalidInput), f)
    else if n == 0 then (Err(NoSpace), f)
    else
      var d := Overwrite(f.data, f.pos, buf[..n]);
      (Ok(n), OpenFile(d, f.pos + n, f.free - (|d| - |f.data|)))
  }

  function ReadOnce(data: seq<Byte>, pos: nat, want: nat): (bytes: seq<Byte>) {
    if pos >= |data| then [] else data[pos..pos + Min(want, |data| - pos)]
  }

  /** Written bytes read back; every other byte, and zeros in the gap, are as they were. */
  lemma WriteThenRead(f: OpenFile, buf: seq<Byte>, i: nat)
    requires WriteOnce(f, buf).0.Ok? && i < |WriteOnce(f, buf).1.data|
    ensures var (r, g) := WriteOnce(f, buf);
            && ReadOnce(g.data, f.pos, r.value) == buf[..r.value]
            && g.pos == f.pos + r.value
            && (i < f.pos || i >= f.pos + r.value ==> g.data[i] == if i < |f.data| then f.data[i] else 0)
            && (buf != [] ==> |g.data| == Max(|f.data|, f.pos + r.value))
            && g.free + |g.data| == f.free + |f.data|
  {
    var (r, g) := WriteOnce(f, buf);
    if buf != [] { ReadBack(f.data, f.pos, buf[..r.value]); }
  }

  lemma ReadBack(data: seq<Byte>, pos: nat, bytes: seq<Byte>)
    requires bytes != []
    ensures ReadOnce(Overwrite(data, pos, bytes), pos, |bytes|) == bytes
  {
    var d := Overwrite(data, pos, bytes);
    assert |d| >= pos + |bytes|;
    assert forall k :: 0 <= k < |bytes| ==> d[pos..pos + |bytes|][k] == bytes[k];
  }

  class MemFile {
    var data: seq<Byte>
    const volume: Volume

    ghost predicate Valid() reads this, volume {
      volume.Valid() && |data| <= volume.used
    }

    constructor (volume: Volume)
      ensures this.volume == volume && data == []
    {
      this.volume := volume;
      data := [];
    }

    method ReadAt(pos: nat, want: nat) returns (bytes: seq<Byte>)
      ensures bytes == ReadOnce(data, pos, want)
    {
      if pos > |data| {
        return [];
      }
      var src := data[pos..];
      var n := Min(|src|, want);
      return src[..n];
    }

    /** Reserve, place what the grant covers, hand back a reservation that places nothing. */
    method WriteAt(pos: nat, buf: seq<Byte>) returns (r: Result<nat, IoError>)
      requires Valid() && pos <= U64_MAX
      modifies this`data, volume`used
      ensures Valid()
      ensures var f := old(OpenFile(data, pos, volume.Free()));
              (r, OpenFile(data, if r.Ok? then pos + r.value else pos, volume.Free())) == WriteOnce(f, buf)
    {
      if buf == [] {
        return Ok(0);
      }
      var oldLen := |data|;
      if pos + |buf| > U64_MAX {
        return Err(InvalidInput);
      }
      var desired := Max(pos + |buf|, oldLen);
      var granted := volume.Reserve(oldLen, desired);
      var n := Min(SaturatingSub(granted, pos), |buf|);
      if n == 0 {
        volume.Release(SaturatingSub(granted, oldLen));
        return Err(NoSpace);
      }
      ghost var before := data;
      if |data| < granted {
        data := data + seq(granted - |data|, _ => 0);
      }
      data := data[..pos] + buf[..n] + data[pos + n..];
      assert data == Overwrite(before, pos, buf[..n]);
      return Ok(n);
    }

    /** Truncate or zero-extend, or change nothing; exact whenever the new total fits a word. */
    method SetLen(len: nat) returns (r: Result<(), IoError>)
      requires Valid() && len <= U64_MAX
      modifies this`data, volume`used
      ensures data == if r.Ok? then Extended(old(data), len) else old(data)
      ensures r.Err? ==> r.error == NoSpace && volume.used == old(volume.used)
      ensures volume.capacity < U64_MAX || old(volume.used) - |old(data)| + len <= U64_MAX ==>
                && Valid()
                && (r.Err? <==> old(volume.used) - |old(data)| + len > volume.capacity)
                && volume.used == old(volume.used) - |old(data)| + |data|
    {
      ResizeExactIff(volume.capacity, volume.used, |data|, len);
      var accounted := volume.Resize(|data|, len);
      if accounted.Err? {
        return accounted;
      }
      data := if len <= |data| then data[..len] else data + seq(len - |data|, _ => 0);
      assert data == Extended(old(data), len);
      return Ok(());
    }
  }

  /** An independent cursor over a shared file. */
  class MemFileHandle {
    const file: MemFile
    var pos: nat

    ghost predicate Valid() reads this, file, file.volume {
      file.Valid() && pos <= U64_MAX
    }

    ghost function View(): (f: OpenFile)
      requires Valid()
      reads this, file, file.volume
    {
      OpenFile(file.data, pos, file.volume.Free())
    }

    constructor (file: MemFile)
      ensures this.file == file && pos == 0
    {
      this.file := file;
      pos := 0;
    }

    /** Append mode only positions the cursor, once, when the file is opened. */
    constructor AtEnd(file: MemFile)
      ensures this.file == file && pos == |file.data|
    {
      this.file := file;
      pos := |file.data|;
    }

    method Read(want: nat) returns (bytes: seq<Byte>)
      requires Valid() && |file.data| <= U64_MAX
      modifies this`pos
      ensures Valid() && bytes == ReadOnce(file.data, old(pos), want) && pos == old(pos) + |bytes|
    {
      bytes := file.ReadAt(pos, want);
      pos := SaturatingAdd(pos, |bytes|);
    }

    method Write(buf: seq<Byte>) returns (r: Result<nat, IoError>)
      requires Valid()
      modifies this`pos, file`data, file.volume`used
      ensures Valid() && (r, View()) == WriteOnce(old(View()), buf)
    {
      r := file.WriteAt(pos, buf);
      if r.Ok? {
        pos := SaturatingAdd(pos, r.value);
      }
    }

    method Seek(from: SeekFrom) returns (r: Result<nat, IoError>)
      requires Valid()
      modifies this`pos
      ensures Valid() && r == SeekTarget(|file.data|, old(pos), from)
      ensures pos == if r.Ok? then r.value else old(pos)
    {
      r := SeekTarget(|file.data|, pos, from);
      if r.Ok? {
        pos := r.value;
      }
    }

    /** The default `FileStream::size`: probe the end, come back. */
    method Size() returns (r: Result<nat, IoError>)
      requires Valid() && |file.data| <= U64_MAX
      modifies this`pos
      ensures Valid() && r == Ok(|file.data|) && pos == old(pos)
    {
      var current := pos;
      r := Seek(End(0));
      if r.Ok? && current != r.value {
        var _ := Seek(Start(current));
      }
    }

    /** `pread`: a read at `offset` that leaves the cursor alone. */
    method Pread(want: nat, offset: nat) returns (r: Result<seq<Byte>, IoError>)
      requires Valid() && offset <= U64_MAX && |file.data| <= U64_MAX
      modifies this`pos
      ensures Valid() && pos == old(pos) && r == Ok(ReadOnce(file.data, offset, want))
    {
      var saved := pos;
      var s := Seek(Start(offset));
      var bytes := Read(want);
      var _ := Seek(Start(saved));
      return Ok(bytes);
    }

    /** `pwrite`: the write a cursor at `offset` would do, with this cursor left alone. */
    method Pwrite(buf: seq<Byte>, offset: nat) returns (r: Result<nat, IoError>)
      requires Valid() && offset <= U64_MAX
      modifies this`pos, file`data, file.volume`used
      ensures Valid() && pos == old(pos)
      ensures var (res, g) := WriteOnce(old(View()).(pos := offset), buf);
              r == res && View() == g.(pos := old(pos))
    {
      var saved := pos;
      var s := Seek(Start(offset));
      r := Write(buf);
      var _ := Seek(Start(saved));
    }

    // ---- Vectored transfers -------------------------------------------------------

    /** `writev`: buffer by buffer, stopping at the first short count or error. */
    method Writev(bufs: seq<seq<Byte>>) returns (r: Result<nat, IoError>)
      requires Valid()
      modifies this`pos, file`data, file.volume`used
      ensures Valid() && (r, View()) == WriteVec(old(View()), bufs, 0)
    {
      var total: nat := 0;
      assert bufs[0..] == bufs;
      for i := 0 to |bufs|
        invariant Valid()
        invariant WriteVec(View(), bufs[i..], total) == WriteVec(old(View()), bufs, 0)
      {
        assert bufs[i..][1..] == bufs[i + 1..];
        if bufs[i] == [] {
          continue;
        }
        var w := Write(bufs[i]);
        if w.Err? {
          if total == 0 {
            return w;
          }
          return Ok(total);
        }
        total := total + w.value;
        if w.value < |bufs[i]| {
          return Ok(total);
        }
      }
      return Ok(total);
    }

    /** `readv`: fill each buffer in turn, stopping at the first short one. */
    method Readv(wants: seq<nat>) returns (bytes: seq<Byte>)
      requires Valid() && |file.data| <= U64_MAX
      modifies this`pos
      ensures Valid()
      ensures bytes == ReadOnce(file.data, old(pos), Sum(wants)) && pos == old(pos) + |bytes|
    {
      forall p: nat, a: nat, b: nat ensures SplitsAt(Reads(file.data), p, a, b) { ReadsSplit(file.data, p, a, b); }
      assert wants[0..] == wants;
      ReadVecIsOneRead(Reads(file.data), pos, wants, 0);
      bytes := ReadBuffers(wants);
    }

    /** The loop of `readv`. */
    method ReadBuffers(wants: seq<nat>) returns (bytes: seq<Byte>)
      requires Valid() && |file.data| <= U64_MAX
      modifies this`pos
      ensures Valid()
      ensures bytes == ReadVec(Reads(file.data), old(pos), wants, 0) && pos == old(pos) + |bytes|
    {
      bytes := [];
      ghost var data, start := file.data, pos;
      VecAll(data, start, wants);
      for i := 0 to |wants|
        invariant Valid() && file.data == data && pos == start + |bytes|
        invariant VecSoFar(data, start, wants, i, bytes)
      {
        if wants[i] == 0 {
          BufferStep(data, start, wants, i, bytes, []);
          assert bytes + [] == bytes;
          continue;
        }
        var read := Read(wants[i]);
        BufferStep(data, start, wants, i, bytes, read);
        bytes := bytes + read;
        if |read| < wants[i] {
          return;
        }
      }
      VecDone(data, start, wants, bytes);
    }
  }

  function Sum(ns: seq<nat>): (n: nat) { if ns == [] then 0 else ns[0] + Sum(ns[1..]) }

  function Flatten(bufs: seq<seq<Byte>>): (r: seq<Byte>) {
    if bufs == [] then [] else bufs[0] + Flatten(bufs[1..])
  }

  /** The vectored loop, given that `total` bytes went out before. A null buffer is an empty one. */
  function WriteVec(f: OpenFile, bufs: seq<seq<Byte>>, total: nat): (r: (Result<nat, IoError>, OpenFile))
    decreases |bufs|
  {
    if bufs == [] then (Ok(total), f)
    else if bufs[0] == [] then WriteVec(f, bufs[1..], total)
    else
      var (w, g) := WriteOnce(f, bufs[0]);
      match w
      case Err(_) => (if total == 0 then w else Ok(total), g)
      case Ok(n) => if n < |bufs[0]| then (Ok(total + n), g) else WriteVec(g, bufs[1..], total + n)
  }

  /** Reading `a` bytes and then `b` is reading `a + b`; a short first read is all there is. */
  lemma ReadConcat(data: seq<Byte>, pos: nat, a: nat, b: nat)
    ensures var first := ReadOnce(data, pos, a);
            && ReadOnce(data, pos, a + b) == first + ReadOnce(data, pos + |first|, b)
            && (|first| < a ==> ReadOnce(data, pos + |first|, b) == [])
  {
    if pos < |data| {
      SliceConcat(data, pos, pos + Min(a, |data| - pos), pos + Min(a + b, |data| - pos));
    }
  }

  lemma SliceConcat(data: seq<Byte>, from: nat, mid: nat, to: nat)
    requires from <= mid <= to <= |data|
    ensures data[from..to] == data[from..mid] + data[mid..to] && |data[from..mid]| == mid - from
  {}

  /** How a stream answers a read of some length at a position. */
  type Reader = (nat, nat) -> seq<Byte>

  function Reads(data: seq<Byte>): (read: Reader) { (pos: nat, want: nat) => ReadOnce(data, pos, want) }

  /** The vectored read: buffer by buffer, up to the first short one. */
  function ReadVec(read: Reader, pos: nat, wants: seq<nat>, i: nat): (bytes: seq<Byte>)
    requires i <= |wants|
    decreases |wants| - i
  {
    if i == |wants| then []
    else
      var got := read(pos, wants[i]);
      if |got| < wants[i] then got else got + ReadVec(read, pos + |got|, wants, i + 1)
  }

  lemma Associative(a: seq<Byte>, b: seq<Byte>, c: seq<Byte>)
    ensures a + (b + c) == (a + b) + c
  {}

  /** Reading `a` bytes and then `b` is reading `a + b`, and nothing follows a short read. */
  ghost predicate SplitsAt(read: Reader, pos: nat, a: nat, b: nat) {
    var first := read(pos, a);
    && read(pos, a + b) == first + read(pos + |first|, b)
    && (|first| < a ==> read(pos + |first|, b) == [])
    && read(pos, 0) == []
  }

  lemma ReadsSplit(data: seq<Byte>, pos: nat, a: nat, b: nat)
    ensures SplitsAt(Reads(data), pos, a, b)
  {
    ReadConcat(data, pos, a, b);
    ReadNothing(data, pos);
    AnswersSplit(Reads(data), pos, a, b, ReadOnce(data, pos, a), ReadOnce(data, pos + |ReadOnce(data, pos, a)|, b));
  }

  lemma AnswersSplit(read: Reader, pos: nat, a: nat, b: nat, first: seq<Byte>, rest: seq<Byte>)
    requires read(pos, a) == first && read(pos + |first|, b) == rest && read(pos, a + b) == first + rest
    requires read(pos, 0) == [] && (|first| < a ==> rest == [])
    ensures SplitsAt(read, pos, a, b)
  {}

  lemma ReadNothing(data: seq<Byte>, pos: nat)
    ensures ReadOnce(data, pos, 0) == []
  {}

  /** It reads what one read of the total length does. */
  lemma {:induction false} ReadVecIsOneRead(read: Reader, pos: nat, wants: seq<nat>, i: nat)
    requires i <= |wants| && forall p: nat, a: nat, b: nat :: SplitsAt(read, p, a, b)
    ensures ReadVec(read, pos, wants, i) == read(pos, Sum(wants[i..]))
    decreases |wants| - i
  {
    assert SplitsAt(read, pos, 0, 0);
    if i < |wants| {
      var got := read(pos, wants[i]);
      assert wants[i..][1..] == wants[i + 1..];
      assert SplitsAt(read, pos, wants[i], Sum(wants[i + 1..]));
      ReadVecIsOneRead(read, pos + |got|, wants, i + 1);
      assert got + [] == got;
    }
  }

  /** After `i` buffers `sofar` was read, and the rest of the vectored read follows it. */
  ghost predicate VecSoFar(data: seq<Byte>, start: nat, wants: seq<nat>, i: nat, sofar: seq<Byte>)
    requires i <= |wants|
  {
    sofar + ReadVec(Reads(data), start + |sofar|, wants, i) == ReadVec(Reads(data), start, wants, 0)
  }

  lemma VecAll(data: seq<Byte>, start: nat, wants: seq<nat>)
    ensures VecSoFar(data, start, wants, 0, [])
  {
    assert [] + ReadVec(Reads(data), start, wants, 0) == ReadVec(Reads(data), start, wants, 0);
  }

  lemma VecDone(data: seq<Byte>, start: nat, wants: seq<nat>, sofar: seq<Byte>)
    requires VecSoFar(data, start, wants, |wants|, sofar)
    ensures sofar == ReadVec(Reads(data), start, wants, 0)
  {
    assert sofar + [] == sofar;
  }

  /** One buffer of the loop, after `sofar`: a short one ends it, a full one goes on. */
  lemma BufferStep(data: seq<Byte>, start: nat, wants: seq<nat>, i: nat, sofar: seq<Byte>, got: seq<Byte>)
    requires i < |wants| && got == ReadOnce(data, start + |sofar|, wants[i])
    requires VecSoFar(data, start, wants, i, sofar)
    ensures if |got| < wants[i] then sofar + got == ReadVec(Reads(data), start, wants, 0)
            else VecSoFar(data, start, wants, i + 1, sofar + got)
  {
    if |got| >= wants[i] { Associative(sofar, got, ReadVec(Reads(data), start + |sofar| + |got|, wants, i + 1)); }
  }

  /** A full write followed by another is the write of both together. */
  lemma WriteSplit(f: OpenFile, a: seq<Byte>, b: seq<Byte>)
    requires a != [] && b != [] && f.pos + |a| + |b| <= U64_MAX
    ensures var (first, g) := WriteOnce(f, a);
            var (whole, h) := WriteOnce(f, a + b);
            if first == Ok(|a|) then
              var (second, k) := WriteOnce(g, b);
              whole == Ok(|a| + (if second.Ok? then second.value else 0)) && h == k
            else whole == first && h == g
  {
    var (first, g) := WriteOnce(f, a);
    var n := ShortCount(|f.data|, f.free, f.pos, |a + b|);
    if first == Ok(|a|) {
      var m := ShortCount(|g.data|, g.free, g.pos, |b|);
      assert n == |a| + m;
      assert a[..|a|] == a;
      if m > 0 {
        OverwriteTwice(f.data, f.pos, a, b[..m]);
        assert (a + b)[..n] == a + b[..m];
      } else {
        assert (a + b)[..n] == a;
      }
    } else if first.Ok? {
      assert (a + b)[..n] == a[..n];
    }
  }

  lemma OverwriteTwice(data: seq<Byte>, pos: nat, a: seq<Byte>, b: seq<Byte>)
    ensures Overwrite(Overwrite(data, pos, a), pos + |a|, b) == Overwrite(data, pos, a + b)
  {}

  /** The first non-empty buffer, if any. */
  function FirstBuffer(bufs: seq<seq<Byte>>): (r: seq<Byte>) {
    if bufs == [] then [] else if bufs[0] != [] then bufs[0] else FirstBuffer(bufs[1..])
  }

  /** Within 64-bit offsets, the loop after `total` bytes is one write of what is left. */
  lemma {:induction false} WriteVecIsOneWrite(f: OpenFile, bufs: seq<seq<Byte>>, total: nat)
    requires f.pos + |Flatten(bufs)| <= U64_MAX
    ensures var (w, g) := WriteOnce(f, Flatten(bufs));
            WriteVec(f, bufs, total) ==
            (match w case Ok(n) => Ok(total + n) case Err(_) => if total == 0 then w else Ok(total), g)
    decreases |bufs|
  {
    if bufs != [] {
      var rest := Flatten(bufs[1..]);
      if bufs[0] == [] {
        assert Flatten(bufs) == rest;
        WriteVecIsOneWrite(f, bufs[1..], total);
      } else {
        var (first, g) := WriteOnce(f, bufs[0]);
        if rest == [] {
          assert Flatten(bufs) == bufs[0];
        } else {
          WriteSplit(f, bufs[0], rest);
        }
        if first == Ok(|bufs[0]|) {
          WriteVecIsOneWrite(g, bufs[1..], total + |bufs[0]|);
        }
      }
    }
  }

  lemma {:induction false} FirstBufferStarts(bufs: seq<seq<Byte>>)
    ensures FirstBuffer(bufs) <= Flatten(bufs)
    ensures FirstBuffer(bufs) == [] <==> Flatten(bufs) == []
    decreases |bufs|
  {
    if bufs != [] {
      FirstBufferStarts(bufs[1..]);
      if bufs[0] == [] { assert Flatten(bufs) == Flatten(bufs[1..]); }
    }
  }

  /** A vectored write never reports an offset overflow its first buffer does not cause. */
  lemma {:induction false} WriteVecFirst(f: OpenFile, bufs: seq<seq<Byte>>)
    requires Flatten(bufs) != []
    ensures WriteVec(f, bufs, 0).0 == Err(InvalidInput) <==> f.pos + |FirstBuffer(bufs)| > U64_MAX
    ensures WriteVec(f, bufs, 0).0.Err? ==> WriteVec(f, bufs, 0).1 == f
    decreases |bufs|
  {
    if bufs[0] == [] {
      assert Flatten(bufs) == Flatten(bufs[1..]);
      WriteVecFirst(f, bufs[1..]);
    } else {
      var (first, g) := WriteOnce(f, bufs[0]);
      if first == Ok(|bufs[0]|) {
        LaterErrorsAreShort(g, bufs[1..], |bufs[0]|);
      }
    }
  }

  lemma {:induction false} LaterErrorsAreShort(f: OpenFile, bufs: seq<seq<Byte>>, total: nat)
    requires total > 0
    ensures WriteVec(f, bufs, total).0.Ok?
    decreases |bufs|
  {
    if bufs != [] {
      if bufs[0] == [] {
        LaterErrorsAreShort(f, bufs[1..], total);
      } else {
        var (first, g) := WriteOnce(f, bufs[0]);
        if first == Ok(|bufs[0]|) { LaterErrorsAreShort(g, bufs[1..], total + |bufs[0]|); }
      }
    }
  }

  /**
   * `writev` equals one write of the concatenated buffers exactly when the last offset fits a
   * 64-bit word, or already the first buffer's does not.
   */
  lemma WritevRefinesWrite(f: OpenFile, bufs: seq<seq<Byte>>)
    ensures WriteVec(f, bufs, 0) == WriteOnce(f, Flatten(bufs)) <==>
            f.pos + |Flatten(bufs)| <= U64_MAX || f.pos + |FirstBuffer(bufs)| > U64_MAX || Flatten(bufs) == []
  {
    if Flatten(bufs) == [] {
      WriteVecAllEmpty(f, bufs);
    } else if f.pos + |Flatten(bufs)| <= U64_MAX {
      WriteVecIsOneWrite(f, bufs, 0);
    } else {
      WriteVecFirst(f, bufs);
    }
  }

  /** The two do differ: the first buffer still fits a 64-bit offset, the whole does not. */
  lemma WritevCanDiffer()
    ensures var f, bufs := OpenFile([], U64_MAX - 1, U64_MAX), [[7], [7, 7]];
            WriteVec(f, bufs, 0) != WriteOnce(f, Flatten(bufs))
  {
    var f, bufs: seq<seq<Byte>> := OpenFile([], U64_MAX - 1, U64_MAX), [[7], [7, 7]];
    WritevRefinesWrite(f, bufs);
    assert bufs[1..] == [[7, 7]] && bufs[1..][1..] == [];
    assert Flatten(bufs) == [7] + ([7, 7] + Flatten([]));
    assert FirstBuffer(bufs) == [7];
  }

  lemma {:induction false} WriteVecAllEmpty(f: OpenFile, bufs: seq<seq<Byte>>)
    requires Flatten(bufs) == []
    ensures WriteVec(f, bufs, 0) == (Ok(0), f)
    decreases |bufs|
  {
    if bufs != [] {
      assert bufs[0] == [];
      WriteVecAllEmpty(f, bufs[1..]);
    }
  }
}
