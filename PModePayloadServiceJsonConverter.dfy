/**
 * The JSON codec for payload services (`PModePayloadServiceJsonConverter`).
 *
 * A JSON object is a map from member names to string values. A payload service
 * with a compression mode is written as the single member "CompressionMode"
 * holding the mode's ID; one without is written as the empty object. Reading an
 * object back looks at that member only and rejects an ID that names no
 * compression mode.
 */
module PModePayloadServiceJsonConverter {
  import opened Wrappers
  import opened CompressionMode
  import opened PModePayloadService

  /** A JSON object whose member values are strings. */
  type JsonObject = map<string, string>

  /** The name of the member holding the compression-mode ID. */
  const COMPRESSION_MODE: string := "CompressionMode"

  /** Why `convertToNative` rejects an object (it throws `IllegalStateException`). */
  datatype ConvertError = InvalidCompressionModeId(id: string)

  /** `getAsString`: the value of member `key`, `None` (`null`) when it is absent. */
  function GetAsString(o: JsonObject, key: string): (r: Option<string>)
    ensures r.Some? <==> key in o
    ensures r.Some? ==> r.value == o[key]
  {
    if key in o then Some(o[key]) else None
  }

  /** `convertToJson`: the JSON object for payload service `v`. */
  function ConvertToJson(t: EnumTable, v: PModePayloadService): (o: JsonObject)
    requires v.ValidIn(t)
    ensures o.Keys <= {COMPRESSION_MODE}
    ensures |o| <= 1
    ensures COMPRESSION_MODE in o <==> v.HasCompressionMode()
    ensures !v.HasCompressionMode() ==> o == map[]
    ensures v.HasCompressionMode() ==> o[COMPRESSION_MODE] == t.Id(v.compressionMode.value)
  {
    var ret: JsonObject := map[];
    if v.HasCompressionMode() then
      ret[COMPRESSION_MODE := v.CompressionModeId(t).value]
    else
      ret
  }

  /**
   * `convertToNative`: the payload service an object describes, or the error for
   * a "CompressionMode" member whose value is no compression-mode ID.
   */
  function ConvertToNative(t: EnumTable, o: JsonObject): (r: Result<PModePayloadService, ConvertError>)
    ensures COMPRESSION_MODE !in o ==> r == Success(PModePayloadService(None))
    ensures r.Failure? <==> COMPRESSION_MODE in o && !t.IsKnownId(o[COMPRESSION_MODE])
    ensures r.Failure? ==> r.error == InvalidCompressionModeId(o[COMPRESSION_MODE])
    ensures r.Success? ==> r.value.ValidIn(t)
    ensures r.Success? ==> (r.value.HasCompressionMode() <==> COMPRESSION_MODE in o)
    ensures r.Success? && r.value.HasCompressionMode() ==>
              t.Id(r.value.compressionMode.value) == o[COMPRESSION_MODE]
  {
    var compressionModeId := GetAsString(o, COMPRESSION_MODE);
    var compressionMode := t.FromIdOrNull(compressionModeId);
    if compressionModeId.Some? && compressionMode.None? then
      Failure(InvalidCompressionModeId(compressionModeId.value))
    else
      Success(PModePayloadService(compressionMode))
  }

  /**
   * Round trip: reading back the object written for `v` succeeds and yields `v`,
   * provided the compression-mode IDs are distinct.
   */
  lemma ConvertToNativeOfConvertToJson(t: EnumTable, v: PModePayloadService)
    requires t.Valid() && v.ValidIn(t)
    ensures ConvertToNative(t, ConvertToJson(t, v)) == Success(v)
  {
    if v.HasCompressionMode() {
      FromIdOfId(t, v.compressionMode.value);
    }
  }

  /**
   * The other direction: an object that reads back successfully is written again
   * as its "CompressionMode" member alone, every other member dropped.
   */
  lemma ConvertToJsonOfConvertToNative(t: EnumTable, o: JsonObject)
    requires ConvertToNative(t, o).Success?
    ensures ConvertToJson(t, ConvertToNative(t, o).value) == CompressionModePart(o)
  {
  }

  /** The "CompressionMode" member of `o` alone (a definition, used by the lemmas here). */
  function CompressionModePart(o: JsonObject): JsonObject
  {
    map k | k in o && k == COMPRESSION_MODE :: o[k]
  }

  /** Members other than "CompressionMode" do not affect what an object reads back as. */
  lemma ConvertToNativeIgnoresOtherKeys(t: EnumTable, o1: JsonObject, o2: JsonObject)
    requires CompressionModePart(o1) == CompressionModePart(o2)
    ensures ConvertToNative(t, o1) == ConvertToNative(t, o2)
  {
    assert GetAsString(o1, COMPRESSION_MODE) == GetAsString(CompressionModePart(o1), COMPRESSION_MODE);
    assert GetAsString(o2, COMPRESSION_MODE) == GetAsString(CompressionModePart(o2), COMPRESSION_MODE);
  }

  /** Distinct payload services are written as distinct objects. */
  lemma ConvertToJsonInjective(t: EnumTable, v1: PModePayloadService, v2: PModePayloadService)
    requires t.Valid() && v1.ValidIn(t) && v2.ValidIn(t)
    requires ConvertToJson(t, v1) == ConvertToJson(t, v2)
    ensures v1 == v2
  {
    ConvertToNativeOfConvertToJson(t, v1);
    ConvertToNativeOfConvertToJson(t, v2);
  }
}
