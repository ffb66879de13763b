/**
 * The payload-service part of a processing mode (`PModePayloadService`): the
 * compression mode to apply to payloads, if any.
 */
module PModePayloadService {
  import opened Wrappers
  import opened CompressionMode

  /** A payload service; `compressionMode` is `None` where the Java field is `null`. */
  datatype PModePayloadService = PModePayloadService(compressionMode: Option<CompressionMode>) {

    /** Every mode it refers to is a member of the enumeration `t`. */
    predicate ValidIn(t: EnumTable) {
      compressionMode.Some? ==> t.Has(compressionMode.value)
    }

    /** `hasCompressionMode`. */
    predicate HasCompressionMode() {
      compressionMode.Some?
    }

    /** `getCompressionModeID`: the ID of the compression mode, `None` when there is none. */
    function CompressionModeId(t: EnumTable): (id: Option<string>)
      requires ValidIn(t)
      ensures id.Some? <==> HasCompressionMode()
      ensures id.Some? ==> id.value == t.Id(compressionMode.value)
      ensures id.Some? ==> t.IsKnownId(id.value)
    {
      match compressionMode
      case None => None
      case Some(m) => Some(t.Id(m))
    }
  }
}
