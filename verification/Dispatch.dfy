/** The process-wide routing state: the one active installation and the saved originals. */
module Dispatch {
  import opened Wrappers

  type Id = nat
  type Sym = nat

  /** The active token after `id` is torn down: only the owner's own token clears it. */
  function Deactivated(active: Option<Id>, id: Id): (r: Option<Id>) { if active == Some(id) then None else active }

  class Globals {
    var active: Option<Id>
    var nextId: Id
    var originals: map<Sym, nat>

    constructor ()
      ensures active == None && nextId == 1 && originals == map[]
    {
      active, nextId, originals := None, 1, map[];
    }

    /** Takes the single active place under a token never given before, or refuses and changes nothing. */
    method TryActivate() returns (r: Option<Id>)
      modifies this
      ensures originals == old(originals)
      ensures old(active).Some? ==> r == None && active == old(active) && nextId == old(nextId)
      ensures old(active).None? ==> r == Some(old(nextId)) && active == r && nextId == old(nextId) + 1
    {
      if active.Some? { return None; }
      r := Some(nextId);
      nextId := nextId + 1;
      active := r;
    }

    method Deactivate(id: Id)
      modifies this
      ensures active == Deactivated(old(active), id)
      ensures nextId == old(nextId) && originals == old(originals)
    {
      if active.Some? && active.value == id { active := None; }
    }

    /** Only known symbols have a cell. */
    method SetOriginal(known: set<Sym>, sym: Sym, pointer: nat)
      modifies this
      ensures originals == (if sym in known then old(originals)[sym := pointer] else old(originals))
      ensures active == old(active) && nextId == old(nextId)
    {
      if sym in known { originals := originals[sym := pointer]; }
    }
  }
}
