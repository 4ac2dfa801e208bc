/** Merging the two Mach-O enumerations: the primary symbol table and the best-effort complement. */
module Merge {
  import opened Wrappers
  import opened BindStream

  ghost predicate HasSlot(rs: seq<RawImport>, slot: nat) { exists i :: 0 <= i < |rs| && rs[i].slot == slot }

  // ---- What the merge means -----------------------------------------------------------------------

  /** The first record of every slot, in order of first appearance. */
  ghost function Firsts(rs: seq<RawImport>): (fs: seq<RawImport>)
    decreases |rs|
  {
    if rs == [] then []
    else
      var init, last := Firsts(rs[..|rs| - 1]), rs[|rs| - 1];
      if HasSlot(init, last.slot) then init else init + [last]
  }

  /** The authenticated flag of the last record for `slot`. */
  ghost function LastAuth(rs: seq<RawImport>, slot: nat): (a: Option<bool>)
    decreases |rs|
  {
    if rs == [] then None
    else if rs[|rs| - 1].slot == slot then Some(rs[|rs| - 1].authenticated)
    else LastAuth(rs[..|rs| - 1], slot)
  }

  ghost function Refined(r: RawImport, complement: seq<RawImport>): (t: RawImport) {
    match LastAuth(complement, r.slot)
    case Some(a) => r.(authenticated := a)
    case None => r
  }

  ghost function RefinedAll(rs: seq<RawImport>, complement: seq<RawImport>): (ts: seq<RawImport>)
    ensures |ts| == |rs|
  {
    seq(|rs|, i requires 0 <= i < |rs| => Refined(rs[i], complement))
  }

  /** The promised enumeration: one record per slot, primary before complement, precise flags. */
  ghost function Expected(primary: seq<RawImport>, complement: seq<RawImport>): (out: seq<RawImport>) {
    RefinedAll(Firsts(primary + complement), complement)
  }

  // ---- First records ----------------------------------------------------------------------------------

  lemma {:induction false} FirstsSlots(rs: seq<RawImport>, slot: nat)
    ensures HasSlot(Firsts(rs), slot) <==> HasSlot(rs, slot)
    decreases |rs|
  {
    if rs != [] {
      var init, last := rs[..|rs| - 1], rs[|rs| - 1];
      FirstsSlots(init, slot);
      SlotSnoc(init, last, slot);
      assert rs == init + [last];
      if !HasSlot(Firsts(init), last.slot) { SlotSnoc(Firsts(init), last, slot); }
    }
  }

  lemma SlotSnoc(rs: seq<RawImport>, r: RawImport, slot: nat)
    ensures HasSlot(rs + [r], slot) <==> HasSlot(rs, slot) || r.slot == slot
  {
    if HasSlot(rs, slot) {
      var i :| 0 <= i < |rs| && rs[i].slot == slot;
      assert (rs + [r])[i].slot == slot;
    }
    if r.slot == slot { assert (rs + [r])[|rs|].slot == slot; }
    if HasSlot(rs + [r], slot) {
      var i :| 0 <= i < |rs + [r]| && (rs + [r])[i].slot == slot;
      if i < |rs| { assert rs[i].slot == slot; }
    }
  }

  lemma FirstsSnoc(rs: seq<RawImport>, r: RawImport)
    ensures Firsts(rs + [r]) == if HasSlot(rs, r.slot) then Firsts(rs) else Firsts(rs) + [r]
  {
    assert (rs + [r])[..|rs|] == rs;
    FirstsSlots(rs, r.slot);
  }

  /** Slot `slot` first occurs at `i`. */
  ghost predicate FirstAt(rs: seq<RawImport>, slot: nat, i: nat) {
    i < |rs| && rs[i].slot == slot && forall j :: 0 <= j < i ==> rs[j].slot != slot
  }

  /** Each slot occurs once among the first records, and what stands there is the earliest record. */
  lemma {:induction false} FirstsAreFirst(rs: seq<RawImport>, k: nat)
    requires k < |Firsts(rs)|
    ensures exists i: nat :: FirstAt(rs, Firsts(rs)[k].slot, i) && rs[i] == Firsts(rs)[k]
    ensures forall j :: 0 <= j < |Firsts(rs)| && j != k ==> Firsts(rs)[j].slot != Firsts(rs)[k].slot
    decreases |rs|
  {
    var init, last := rs[..|rs| - 1], rs[|rs| - 1];
    var fs := Firsts(init);
    if k < |fs| {
      FirstsAreFirst(init, k);
      var i: nat :| FirstAt(init, fs[k].slot, i) && init[i] == fs[k];
      assert FirstAt(rs, fs[k].slot, i) && rs[i] == fs[k];
    } else {
      FirstsSlots(init, last.slot);
      assert forall j :: 0 <= j < |init| ==> rs[j] == init[j];
      assert FirstAt(rs, last.slot, |rs| - 1) by {
        assert forall j :: 0 <= j < |init| ==> init[j].slot != last.slot;
      }
    }
  }

  // ---- Refining in place -----------------------------------------------------------------------------------

  ghost function WithAuth(fs: seq<RawImport>, slot: nat, a: bool): (ts: seq<RawImport>)
    ensures |ts| == |fs|
  {
    seq(|fs|, i requires 0 <= i < |fs| => if fs[i].slot == slot then fs[i].(authenticated := a) else fs[i])
  }

  lemma WithAuthSlots(fs: seq<RawImport>, slot: nat, a: bool, s: nat)
    ensures HasSlot(WithAuth(fs, slot, a), s) <==> HasSlot(fs, s)
  {
    var ts := WithAuth(fs, slot, a);
    if i :| 0 <= i < |fs| && fs[i].slot == s { assert ts[i].slot == s; }
    if i :| 0 <= i < |ts| && ts[i].slot == s { assert fs[i].slot == s; }
  }

  /** Updating the first record of a slot updates it among the first records. */
  lemma {:induction false} UpdateFirst(rs: seq<RawImport>, slot: nat, i: nat, a: bool)
    requires FirstAt(rs, slot, i)
    ensures Firsts(rs[i := rs[i].(authenticated := a)]) == WithAuth(Firsts(rs), slot, a)
    decreases |rs|
  {
    var updated := rs[i := rs[i].(authenticated := a)];
    var init, last := rs[..|rs| - 1], rs[|rs| - 1];
    if i < |init| {
      UpdateFirst(init, slot, i, a);
      assert updated[..|rs| - 1] == init[i := init[i].(authenticated := a)];
      WithAuthSlots(Firsts(init), slot, a, last.slot);
      FirstsSlots(init, slot);
      assert HasSlot(init, slot) by { assert init[i].slot == slot; }
    } else {
      assert updated[..|rs| - 1] == init;
      FirstsSlots(init, slot);
      assert !HasSlot(init, slot);
      Untouched(Firsts(init), slot, a);
    }
  }

  lemma Untouched(fs: seq<RawImport>, slot: nat, a: bool)
    requires !HasSlot(fs, slot)
    ensures WithAuth(fs, slot, a) == fs
  {
    assert forall i :: 0 <= i < |fs| ==> fs[i].slot != slot;
  }

  lemma RefineOneMore(fs: seq<RawImport>, seen: seq<RawImport>, c: RawImport)
    ensures RefinedAll(fs, seen + [c]) == WithAuth(RefinedAll(fs, seen), c.slot, c.authenticated)
  {
    assert (seen + [c])[..|seen|] == seen;
  }

  lemma RefineSnoc(fs: seq<RawImport>, r: RawImport, seen: seq<RawImport>)
    ensures RefinedAll(fs + [r], seen) == RefinedAll(fs, seen) + [Refined(r, seen)]
  {}

  lemma RefinedSlots(fs: seq<RawImport>, complement: seq<RawImport>, slot: nat)
    ensures HasSlot(RefinedAll(fs, complement), slot) <==> HasSlot(fs, slot)
  {
    var ts := RefinedAll(fs, complement);
    if i :| 0 <= i < |fs| && fs[i].slot == slot { assert ts[i].slot == slot; }
    if i :| 0 <= i < |ts| && ts[i].slot == slot { assert fs[i].slot == slot; }
  }

  // ---- The code ------------------------------------------------------------------------------------------------

  /** The slot index: every slot of `out` at its first position. */
  ghost predicate Indexes(index: map<nat, nat>, out: seq<RawImport>) {
    && (forall s :: s in index <==> HasSlot(out, s))
    && (forall s :: s in index ==> FirstAt(out, s, index[s]))
  }

  lemma IndexSnoc(index: map<nat, nat>, out: seq<RawImport>, r: RawImport)
    requires Indexes(index, out)
    ensures Indexes(if r.slot in index then index else index[r.slot := |out|], out + [r])
  {
    var next := if r.slot in index then index else index[r.slot := |out|];
    forall s ensures s in next <==> HasSlot(out + [r], s) { SlotSnoc(out, r, s); }
    forall s | s in next ensures FirstAt(out + [r], s, next[s]) {
      if s in index {
        assert FirstAt(out, s, index[s]);
      } else {
        forall j | 0 <= j < |out| ensures (out + [r])[j].slot != s {
          assert !HasSlot(out, s);
          assert out[j].slot != s;
        }
      }
    }
  }

  lemma IndexUpdate(index: map<nat, nat>, out: seq<RawImport>, i: nat, a: bool)
    requires Indexes(index, out) && i < |out|
    ensures Indexes(index, out[i := out[i].(authenticated := a)])
  {
    var next := out[i := out[i].(authenticated := a)];
    assert forall j :: 0 <= j < |out| ==> next[j].slot == out[j].slot;
    forall s ensures HasSlot(next, s) <==> HasSlot(out, s) {
      if j :| 0 <= j < |out| && out[j].slot == s { assert next[j].slot == s; }
      if j :| 0 <= j < |next| && next[j].slot == s { assert out[j].slot == s; }
    }
    forall s | s in index ensures FirstAt(next, s, index[s]) { assert FirstAt(out, s, index[s]); }
  }

  method MergeComplement(primary: seq<RawImport>, complement: seq<RawImport>) returns (out: seq<RawImport>)
    ensures Firsts(out) == Expected(primary, complement)
  {
    out := primary;
    var index: map<nat, nat> := map[];
    for i := 0 to |primary|
      invariant Indexes(index, primary[..i])
    {
      assert primary[..i + 1] == primary[..i] + [primary[i]];
      IndexSnoc(index, primary[..i], primary[i]);
      if primary[i].slot !in index {
        index := index[primary[i].slot := i];
      }
    }
    assert primary[..|primary|] == primary && primary + [] == primary && complement[..0] == [];
    assert RefinedAll(Firsts(primary), []) == Firsts(primary);
    for n := 0 to |complement|
      invariant Indexes(index, out)
      invariant Firsts(out) == Expected(primary, complement[..n])
    {
      var c := complement[n];
      ghost var seen := complement[..n];
      assert complement[..n + 1] == seen + [c];
      if c.slot in index {
        var i := index[c.slot];
        UpdateKnown(primary, seen, c, out, i);
        IndexUpdate(index, out, i, c.authenticated);
        out := out[i := out[i].(authenticated := c.authenticated)];
      } else {
        AppendNew(primary, seen, c, out);
        IndexSnoc(index, out, c);
        index := index[c.slot := |out|];
        out := out + [c];
      }
    }
    assert complement[..|complement|] == complement;
  }

  /** A slot both know keeps its first record and takes the complement's flag. */
  lemma UpdateKnown(primary: seq<RawImport>, seen: seq<RawImport>, c: RawImport, out: seq<RawImport>, i: nat)
    requires Firsts(out) == Expected(primary, seen) && FirstAt(out, c.slot, i)
    ensures Firsts(out[i := out[i].(authenticated := c.authenticated)]) == Expected(primary, seen + [c])
  {
    var all := primary + seen;
    assert primary + (seen + [c]) == all + [c];
    assert HasSlot(out, c.slot) by { assert out[i].slot == c.slot; }
    FirstsSnoc(all, c);
    FirstsSlots(out, c.slot);
    FirstsSlots(all, c.slot);
    RefinedSlots(Firsts(all), seen, c.slot);
    RefineOneMore(Firsts(all), seen, c);
    UpdateFirst(out, c.slot, i, c.authenticated);
  }

  /** A slot only the complement knows is appended as it stands. */
  lemma AppendNew(primary: seq<RawImport>, seen: seq<RawImport>, c: RawImport, out: seq<RawImport>)
    requires Firsts(out) == Expected(primary, seen) && !HasSlot(out, c.slot)
    ensures Firsts(out + [c]) == Expected(primary, seen + [c])
  {
    var all := primary + seen;
    assert primary + (seen + [c]) == all + [c];
    FirstsSlots(out, c.slot);
    FirstsSlots(all, c.slot);
    RefinedSlots(Firsts(all), seen, c.slot);
    FirstsSnoc(all, c);
    FirstsSnoc(out, c);
    RefineSnoc(Firsts(all), c, seen + [c]);
    RefineOneMore(Firsts(all), seen, c);
    Untouched(RefinedAll(Firsts(all), seen), c.slot, c.authenticated);
    assert LastAuth(seen + [c], c.slot) == Some(c.authenticated);
    assert Refined(c, seen + [c]) == c;
  }

  ghost predicate SlotsAre(rs: seq<RawImport>, seen: set<nat>) { forall s :: s in seen <==> HasSlot(rs, s) }

  lemma SlotsSnoc(rs: seq<RawImport>, seen: set<nat>, r: RawImport)
    requires SlotsAre(rs, seen)
    ensures SlotsAre(rs + [r], seen + {r.slot})
  {
    forall s ensures s in seen + {r.slot} <==> HasSlot(rs + [r], s) { SlotSnoc(rs, r, s); }
  }

  /** `retain` with a seen-set keeps the first record of each slot. */
  method RetainFirst(rs: seq<RawImport>) returns (out: seq<RawImport>)
    ensures out == Firsts(rs)
  {
    out := [];
    var seen: set<nat> := {};
    for i := 0 to |rs|
      invariant out == Firsts(rs[..i]) && SlotsAre(rs[..i], seen)
    {
      ghost var done := rs[..i];
      assert rs[..i + 1] == done + [rs[i]];
      FirstsSnoc(done, rs[i]);
      SlotsSnoc(done, seen, rs[i]);
      assert rs[i].slot in seen <==> HasSlot(done, rs[i].slot);
      if rs[i].slot !in seen {
        out := out + [rs[i]];
      }
      seen := seen + {rs[i].slot};
    }
    assert rs[..|rs|] == rs;
  }

  /** The enumeration: a failed complement contributes nothing. */
  method Enumerate(primary: seq<RawImport>, complement: Result<seq<RawImport>, ParseError>)
      returns (out: seq<RawImport>)
    ensures out == Expected(primary, if complement.Ok? then complement.value else [])
  {
    var merged := primary;
    if complement.Ok? {
      merged := MergeComplement(primary, complement.value);
    } else {
      assert primary + [] == primary && RefinedAll(Firsts(primary), []) == Firsts(primary);
    }
    out := RetainFirst(merged);
  }

  // ---- What a caller sees ----------------------------------------------------------------------------------------

  /** Each slot once; the slots are the union; identity from the earliest record, flag from the last complement one. */
  lemma EnumerationIsPrecise(primary: seq<RawImport>, complement: seq<RawImport>, k: nat)
    requires k < |Expected(primary, complement)|
    ensures var out, all := Expected(primary, complement), primary + complement;
            && (forall j :: 0 <= j < |out| && j != k ==> out[j].slot != out[k].slot)
            && exists i: nat :: FirstAt(all, out[k].slot, i)
                 && out[k] == all[i].(authenticated := match LastAuth(complement, out[k].slot)
                                                       case Some(a) => a case None => all[i].authenticated)
  {
    var all := primary + complement;
    FirstsAreFirst(all, k);
    var i: nat :| FirstAt(all, Firsts(all)[k].slot, i) && all[i] == Firsts(all)[k];
    assert FirstAt(all, Expected(primary, complement)[k].slot, i);
  }

  lemma EnumerationCoversUnion(primary: seq<RawImport>, complement: seq<RawImport>, slot: nat)
    ensures HasSlot(Expected(primary, complement), slot) <==> HasSlot(primary, slot) || HasSlot(complement, slot)
  {
    var all := primary + complement;
    RefinedSlots(Firsts(all), complement, slot);
    FirstsSlots(all, slot);
    if i :| 0 <= i < |primary| && primary[i].slot == slot { assert all[i].slot == slot; }
    if i :| 0 <= i < |complement| && complement[i].slot == slot { assert all[|primary| + i].slot == slot; }
    if i :| 0 <= i < |all| && all[i].slot == slot {
      if i < |primary| { assert primary[i].slot == slot; } else { assert complement[i - |primary|].slot == slot; }
    }
  }
}
