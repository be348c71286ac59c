// The compiler's label table: a list of entries, each either resolved to a
// bytecode offset or pending with the offsets of the operands that wait for
// it. The source marks "pending" by storing UNDEF_ADDR as the address; the
// model makes the two states explicit.

module Labels {
  import opened Blankspace

  datatype LabelState =
    | Resolved(addr: nat)
    | Pending(sites: seq<nat>)   // operand offsets to overwrite once the label is defined

  datatype LabelInfo = LabelInfo(name: string, state: LabelState)

  /** The first index at or after i whose entry carries the given name. */
  function Find(entries: seq<LabelInfo>, name: string, i: nat): (r: Option<nat>)
    requires i <= |entries|
    ensures r.Some? ==> i <= r.value < |entries| && entries[r.value].name == name
    ensures r.None? ==> forall k :: i <= k < |entries| ==> entries[k].name != name
    decreases |entries| - i
  {
    if i == |entries| then None
    else if entries[i].name == name then Some(i)
    else Find(entries, name, i + 1)
  }

  /** Names are unique and every pending entry holds between 1 and UNDEF_LIST_SIZE sites. */
  ghost predicate WellFormed(entries: seq<LabelInfo>)
  {
    && |entries| <= MAX_N_LABEL
    && (forall j, k :: 0 <= j < k < |entries| ==> entries[j].name != entries[k].name)
    && (forall k :: 0 <= k < |entries| && entries[k].state.Pending? ==>
          0 < |entries[k].state.sites| <= UNDEF_LIST_SIZE)
  }

  class LabelTable {
    var entries: seq<LabelInfo>

    ghost predicate Valid()
      reads this
    {
      WellFormed(entries)
    }

    constructor ()
      ensures Valid() && entries == []
    {
      entries := [];
    }

    /** search_label: the index of the entry named `name`, if there is one. */
    function SearchLabel(name: string): (r: Option<nat>)
      reads this
      ensures r.Some? ==> r.value < |entries| && entries[r.value].name == name
      ensures r.None? <==> forall k :: 0 <= k < |entries| ==> entries[k].name != name
    {
      Find(entries, name, 0)
    }

    /** add_label: registers a label at its definition offset; fails when the table is full. */
    method AddLabel(name: string, addr: nat) returns (ok: bool)
      requires Valid() && SearchLabel(name).None?
      modifies this
      ensures Valid()
      ensures ok <==> |old(entries)| < MAX_N_LABEL
      ensures entries == if ok then old(entries) + [LabelInfo(name, Resolved(addr))] else old(entries)
    {
      ok := |entries| < MAX_N_LABEL;
      if ok {
        entries := entries + [LabelInfo(name, Resolved(addr))];
      }
    }

    /** add_undef_label: registers a label first seen in a reference, with that one site pending. */
    method AddUndefLabel(name: string, site: nat) returns (ok: bool)
      requires Valid() && SearchLabel(name).None?
      modifies this
      ensures Valid()
      ensures ok <==> |old(entries)| < MAX_N_LABEL
      ensures entries == if ok then old(entries) + [LabelInfo(name, Pending([site]))] else old(entries)
    {
      ok := |entries| < MAX_N_LABEL;
      if ok {
        entries := entries + [LabelInfo(name, Pending([site]))];
      }
    }

    /** Appends a site to a pending entry's list; fails when the list is full. */
    method AddSite(k: nat, site: nat) returns (ok: bool)
      requires Valid() && k < |entries| && entries[k].state.Pending?
      modifies this
      ensures Valid()
      ensures ok <==> |old(entries)[k].state.sites| < UNDEF_LIST_SIZE
      ensures entries == if ok
        then old(entries)[k := LabelInfo(old(entries)[k].name, Pending(old(entries)[k].state.sites + [site]))]
        else old(entries)
    {
      var e := entries[k];
      ok := |e.state.sites| < UNDEF_LIST_SIZE;
      if ok {
        entries := entries[k := LabelInfo(e.name, Pending(e.state.sites + [site]))];
      }
    }

    /** Marks a pending entry resolved at addr, dropping its site list. */
    method Resolve(k: nat, addr: nat)
      requires Valid() && k < |entries|
      modifies this
      ensures Valid()
      ensures entries == old(entries)[k := LabelInfo(old(entries)[k].name, Resolved(addr))]
    {
      entries := entries[k := LabelInfo(entries[k].name, Resolved(addr))];
    }
  }
}
