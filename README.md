# PMode payload-service JSON codec

A Dafny model of the JSON converter for the payload-service part of an AS4
processing mode (PMode) in phase4: `PModePayloadServiceJsonConverter`.

A payload service carries one optional setting, the compression mode applied to
payloads. `convertToJson` writes it as a JSON object. With a compression mode,
the object has the single member `"CompressionMode"` holding the mode's ID.
Without one, the object is empty. `convertToNative` reads such an object back.
It looks only at the `"CompressionMode"` member. An absent member means no
compression mode. A value that is the ID of a compression mode means that mode.
Any other value is rejected with an `IllegalStateException`.

Files:

- `Wrappers.dfy`: `Option` (a Java reference that may be `null`) and `Result` (a value or the exception thrown).
- `CompressionMode.dfy`: the compression-mode enumeration `EAS4CompressionMode`. Its source is not part of this model. It is described by the table of its members' IDs in declaration order (`EnumTable`), and a member by its ordinal. `getFromIDOrNull` returns the first member whose ID matches, and nothing for `null`. The model does not assume that lookup inverts `getID`. It proves it (`FromIdOfId`) from one stated property of the enumeration: no two members share an ID (`EnumTable.Valid`).
- `PModePayloadService.dfy`: the payload service as a value holding an optional compression mode. Its source is not part of this model; only `hasCompressionMode` and `getCompressionModeID`, which the converter calls, are modelled.
- `PModePayloadServiceJsonConverter.dfy`: the two conversions, the `"CompressionMode"` key, and the lemmas relating them.

A JSON object is a `map<string, string>`. `getAsString` on an absent member is `None`, standing for Java's `null`. The thrown `IllegalStateException` becomes `Failure(InvalidCompressionModeId(id))`, carrying the rejected ID that the exception message quotes.

## Model

The accessors the converter calls on its collaborators are stand-ins and have no row: `CompressionMode.EnumTable.Id` (`getID`), `PModePayloadService.PModePayloadService.HasCompressionMode` (`hasCompressionMode`), `PModePayloadService.PModePayloadService.CompressionModeId` (`getCompressionModeID`) and `PModePayloadServiceJsonConverter.GetAsString` (`getAsString` of the JSON library). What the converter does with their results is stated by `ConvertToJson` and `ConvertToNative`.

| member | source | states |
|---|---|---|
| `CompressionMode.EnumTable.FromIdOrNull` | phase4-lib/src/main/java/com/helger/phase4/model/pmode/PModePayloadServiceJsonConverter.java:53 | A `null` ID finds nothing. A found member has exactly the given ID, and no earlier member has it. Nothing is found only when no member has the ID. |
| `CompressionMode.FromIdOfId` | phase4-lib/src/main/java/com/helger/phase4/model/pmode/PModePayloadServiceJsonConverter.java:53 | When member IDs are distinct, looking up a member's ID returns that same member. |
| `PModePayloadServiceJsonConverter.ConvertToJson` | phase4-lib/src/main/java/com/helger/phase4/model/pmode/PModePayloadServiceJsonConverter.java:35-47 | The object has no key but `"CompressionMode"` and at most one entry. That key is present exactly when the service has a compression mode, and then it holds the mode's ID. Without a mode, the object is empty. |
| `PModePayloadServiceJsonConverter.ConvertToNative` | phase4-lib/src/main/java/com/helger/phase4/model/pmode/PModePayloadServiceJsonConverter.java:50-58 | Without a `"CompressionMode"` member, the result is a service with no compression mode. Conversion fails exactly when that member's value is no known ID, and the error carries that value. On success, the service has a mode exactly when the member is present, and the mode's ID is the member's value. |
| `PModePayloadServiceJsonConverter.ConvertToNativeOfConvertToJson` | phase4-lib/src/main/java/com/helger/phase4/model/pmode/PModePayloadServiceJsonConverter.java:41-58 | Round trip: when member IDs are distinct, reading back the object written for a service succeeds and gives the same service. |
| `PModePayloadServiceJsonConverter.ConvertToJsonOfConvertToNative` | phase4-lib/src/main/java/com/helger/phase4/model/pmode/PModePayloadServiceJsonConverter.java:41-58 | Reverse round trip: an object that reads back successfully is written again as its `"CompressionMode"` member alone. |
| `PModePayloadServiceJsonConverter.ConvertToNativeIgnoresOtherKeys` | phase4-lib/src/main/java/com/helger/phase4/model/pmode/PModePayloadServiceJsonConverter.java:50-57 | Two objects that agree on the `"CompressionMode"` member read back to the same result, whatever their other members. |
| `PModePayloadServiceJsonConverter.ConvertToJsonInjective` | phase4-lib/src/main/java/com/helger/phase4/model/pmode/PModePayloadServiceJsonConverter.java:41-47 | When member IDs are distinct, distinct payload services are written as distinct objects. |

## Left out

- The members of `EAS4CompressionMode` and their IDs: that enumeration is not part of this model. The model takes any table of IDs, and the round trip requires only that the IDs are distinct.
- JSON values that are not strings: how `getAsString` turns a number, boolean, array or nested object into a string belongs to the JSON library and is not modelled. Member values are strings.
- The rest of `PModePayloadService` (its setters, equality and hashing): that class is not part of this model. Only the compression mode the converter reads and writes is kept.
- The exception message text: the error keeps the rejected ID but not the wording of the `IllegalStateException` message.
