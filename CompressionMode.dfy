/**
 * The compression-mode enumeration of AS4 attachments (`EAS4CompressionMode`).
 *
 * Its members and their IDs are not part of this model, so the enumeration is
 * described by a table: the IDs of its members in declaration order. A member is
 * identified by its ordinal. Looking a member up by ID scans the members in
 * declaration order and returns the first whose ID matches; a `null` ID finds
 * nothing.
 */
module CompressionMode {
  import opened Wrappers

  /** A member of the enumeration, by its position in declaration order. */
  datatype CompressionMode = CompressionMode(ordinal: nat)

  /** The IDs of all members of the enumeration, in declaration order. */
  datatype EnumTable = EnumTable(ids: seq<string>) {

    /** An enumeration whose IDs identify its members: no two members share an ID. */
    predicate Valid() {
      forall i, j :: 0 <= i < j < |ids| ==> ids[i] != ids[j]
    }

    /** `m` is one of the declared members. */
    predicate Has(m: CompressionMode) {
      m.ordinal < |ids|
    }

    /** The ID of member `m` (`getID`). */
    function Id(m: CompressionMode): (id: string)
      requires Has(m)
      ensures id == ids[m.ordinal]
      ensures id in ids
    {
      ids[m.ordinal]
    }

    /** `id` is the ID of some member. */
    predicate IsKnownId(id: string) {
      id in ids
    }

    /**
     * `getFromIDOrNull`: the first member whose ID is `id`, or `None` when `id` is
     * `null` or no member has it.
     */
    function FromIdOrNull(id: Option<string>): (r: Option<CompressionMode>)
      ensures id.None? ==> r.None?
      ensures r.Some? ==> id.Some? && Has(r.value) && Id(r.value) == id.value
      ensures r.Some? ==> forall j :: 0 <= j < r.value.ordinal ==> ids[j] != id.value
      ensures r.None? && id.Some? ==> !IsKnownId(id.value)
    {
      match id
      case None => None
      case Some(s) =>
        match FirstIndexOf(s, 0)
        case None => None
        case Some(k) => Some(CompressionMode(k))
    }

    /** The first position at or after `from` whose ID is `id`. */
    function FirstIndexOf(id: string, from: nat): (r: Option<nat>)
      requires from <= |ids|
      ensures r.Some? ==> from <= r.value < |ids| && ids[r.value] == id
      ensures r.Some? ==> forall j :: from <= j < r.value ==> ids[j] != id
      ensures r.None? ==> forall j :: from <= j < |ids| ==> ids[j] != id
      decreases |ids| - from
    {
      if from == |ids| then None
      else if ids[from] == id then Some(from)
      else FirstIndexOf(id, from + 1)
    }
  }

  /**
   * Looking up the ID of a member finds that member again, provided the IDs of
   * the enumeration are distinct.
   */
  lemma FromIdOfId(t: EnumTable, m: CompressionMode)
    requires t.Valid() && t.Has(m)
    ensures t.FromIdOrNull(Some(t.Id(m))) == Some(m)
  {
    var r := t.FromIdOrNull(Some(t.Id(m)));
    assert r.Some? by {
      assert t.IsKnownId(t.Id(m));
    }
    var k := r.value.ordinal;
    assert t.ids[k] == t.ids[m.ordinal];
    if k < m.ordinal {
      assert false;
    } else if m.ordinal < k {
      assert false;
    }
  }
}
