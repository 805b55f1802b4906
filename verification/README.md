# Steam stats schema reader, modelled in Dafny

This project models the three pure parts of a command-line tool that reads
a game's achievement and stat definitions from Steam:

- **The binary KeyValue reader** (`Utils/KeyValueParser.cs`). It turns the
  bytes of `UserGameStatsSchema_<appId>.bin` into a tree of nodes. Each node
  has a name, a typed value, a validity bit and an optional child list. The
  model includes the case-insensitive child indexer and the typed accessors
  (`AsString`, `AsInteger`, `AsBoolean`, `AsFloat`).
- **The schema interpreter.** It walks `<appId>` → `stats` and gives every
  valid entry a raw type code. Codes 1–3 become stat descriptors, and codes
  4–5 become one achievement descriptor per child of each `bits` container.
  There are two versions:
  - `LoadUserGameStatsSchema` of `Services/StatsSchemaLoader.cs`, which
    finds the raw type from `type_int`, then `type`, then the entry's
    structure;
  - the older copy in `Commands/GetAchievementData.cs`, which reads only
    `type_int` or `type` as an integer, and keeps its lists in fields.
- **The permission flags.** The kind-aware `GetFlags` of
  `Utils/StatFlagHelper.cs`, the two-argument form in
  `Commands/GetAchievementData.cs`, and the way that command's `Execute`
  picks one definition by id or lists them all.

Modules, in dependency order:

- `Bytes`: bytes, 32- and 64-bit integers, little-endian numbers, ASCII
  case folding, and decimal text with its parser.
- `Exceptions`: a `Result` that is either a value or the exception a
  duplicate key raises; `MapAll` runs a throwing step over a sequence.
- `KeyValues`: the node tree, the indexer and the accessors.
- `KeyValueBinary`: the reader.
- `KeyValueEncoding`: an encoder for the same layout, used only to state
  the round trip.
- `KeyValueFacts`: error behaviour of the reader and worked documents.
- `StatFlags`: both flag functions, and the flag set each permission earns.
- `StatsSchema`: descriptors, classifiers, builders and both loaders.
- `StatsSchemaFacts`: properties of the interpreter.
- `AchievementQuery`: id selection and the listing of `Execute`.

How the model represents the source:

- A byte is an integer 0–255. Names and string values stay raw bytes,
  because UTF-8 decoding is not modelled.
- A lookup that throws, because several children match a key, becomes
  `Thrown`. It propagates through every builder and both loaders, since
  neither loader catches it.
- The reader's stream cursor is an explicit position. It is passed into
  every read and returned from it.
- A float is its 32-bit IEEE-754 pattern. Every float conversion comes
  from a caller-supplied `FloatOps` record.
- The Steam calls come from a caller-supplied `SteamUserStats` record,
  and the schema file is a parameter (`Missing` or `Present(bytes)`).

Two behaviours of the code a reader might not expect, which the model
follows:

- A wide-string entry inside a nested container need not make the
  document unreadable. The nested read's result is discarded, so the
  container is only marked invalid, and the parent resumes at the byte
  right after the wide string's name. The document then loads only if
  the bytes from there, the wide string's payload included, happen to
  parse as the rest of the parent. An End tag there lets it load
  (`KeyValueFacts.NestedWideStringDocument`); a UTF-16 payload "h" does
  not (`KeyValueFacts.NestedWideStringPayloadDocument`). At the top level
  a wide string always stops the document
  (`KeyValueFacts.TopLevelWideStringDocument`).
- The two loaders classify some entries differently:
  - the string `type` "INT" is an integer stat to the service loader and
    code 0, so skipped, to the older one;
  - conversely, the string "1" is code 0 to the service loader and code 1
    to the older one.

## Model

| member | source | states |
|---|---|---|
| Bytes.LittleEndianRoundTrip | Utils/KeyValueParser.cs:208-234 | Reading back the n little-endian bytes of a value below 256^n gives the value, which is what the `BitConverter` readers rely on |
| Bytes.ToInt32 | Utils/KeyValueParser.cs:208-213 | The signed reading of four bytes is congruent to their unsigned value modulo 2^32, and is non-negative exactly when the value fits in 31 bits |
| Bytes.Low32AsInt32 | Utils/KeyValueParser.cs:66-67 | Casting a UInt64 to `int` keeps its low 32 bits: the result is congruent to the value modulo 2^32 |
| Bytes.ToLower | Utils/KeyValueParser.cs:38 | ASCII folding lowers exactly the letters A–Z and leaves every other byte alone |
| Bytes.EqualsIgnoreCaseIsEquivalence | Utils/KeyValueParser.cs:38 | Case-insensitive name comparison is reflexive, symmetric and transitive |
| Bytes.ParseDecimalText | Utils/KeyValueParser.cs:47-49 | Parsing the invariant decimal text of any 32-bit integer gives that integer back |
| Bytes.ParseInt32 | Utils/KeyValueParser.cs:61 | `int.TryParse` succeeds only on text containing a decimal digit |
| Bytes.ParseInt32Digits | Utils/KeyValueParser.cs:61 | Unsigned decimal digits parse to their value exactly when it is at most 2^31 - 1; a larger value is rejected, not wrapped |
| Bytes.ParseInt32Plus | Utils/KeyValueParser.cs:61 | A leading `+` before the digits does not change the result |
| Bytes.ParseInt32Minus | Utils/KeyValueParser.cs:61 | A leading `-` negates the value, accepted down to -2^31 and rejected below |
| Bytes.ParseInt32IgnoresWhite | Utils/KeyValueParser.cs:61 | White space before and after the text does not change the result |
| Exceptions.MapAll | Services/StatsSchemaLoader.cs:202-247 | A loop that adds one result per element yields, on success, one result per element in order, each what the step gives for that element |
| Exceptions.MapAllThrows | Services/StatsSchemaLoader.cs:202-247 | The loop throws exactly when the step throws on some element |
| Exceptions.MapAllAppend | Services/StatsSchemaLoader.cs:189-247 | Running the loop over two runs of elements one after the other is running it over their concatenation |
| KeyValues.KeyValue.Type | Utils/KeyValueParser.cs:8-19 | A node's value determines its type tag, and that tag is never End |
| KeyValues.Named | Utils/KeyValueParser.cs:37-39 | The case-insensitive filter over the children keeps as many children as match the key |
| KeyValues.NamedMembers | Utils/KeyValueParser.cs:37-39 | The filter keeps a child exactly when it is a child and its name equals the key ignoring case |
| KeyValues.Index | Utils/KeyValueParser.cs:30-43 | The indexer gives the invalid sentinel for a node without children or with no match, the matching child when exactly one matches, and throws exactly when several match |
| KeyValues.UniqueNamesMatchOnce | Utils/KeyValueParser.cs:37-39 | When sibling names are distinct ignoring case, at most one child answers any key |
| KeyValues.NoneNamed | Utils/KeyValueParser.cs:37-39 | When no child's name matches the key, none is counted |
| KeyValues.IndexWellKeyed | Utils/KeyValueParser.cs:30-43 | In a tree without duplicate sibling names a lookup never throws, and what it returns has no duplicate sibling names either |
| KeyValues.HasChildNamedCounts | Services/StatsSchemaLoader.cs:92-106 | "Some child is named `key`" (LINQ `Any`) holds exactly when at least one child matches the key, the case in which the indexer does not return the sentinel |
| KeyValues.AsString | Utils/KeyValueParser.cs:45-50 | `AsString` gives the default for an invalid node or one without a value, the text of a string node, and for an Int32 node text that parses back as that integer |
| KeyValues.AsInteger | Utils/KeyValueParser.cs:52-71 | `AsInteger` gives the default for an invalid node or for None, Pointer and Color nodes; an Int32 as it is; the low 32 bits of a UInt64; a parsed string, or the default when it does not parse |
| KeyValues.AsBoolean | Utils/KeyValueParser.cs:73-92 | `AsBoolean` gives the default for an invalid node or for None, Pointer and Color nodes, and "value is non-zero" for Int32 and UInt64 nodes |
| KeyValues.AsFloat | Utils/KeyValueParser.cs:94-113 | `AsFloat` gives the default for an invalid node or for None, Pointer and Color nodes, and the stored bits of a Float32 node |
| KeyValues.StringAccessorsAgree | Utils/KeyValueParser.cs:52-92 | On a string node, `AsBoolean` is "`AsInteger` is non-zero" when the text parses, and both give their defaults when it does not |
| KeyValues.DecimalStringReadsAsInt32 | Utils/KeyValueParser.cs:45-92 | A string node holding the decimal text of an integer reads like the Int32 node holding it through `AsInteger`, `AsBoolean` and `AsString` |
| KeyValues.ParsedStringReads | Utils/KeyValueParser.cs:59-82 | A string node whose text parses as i reads as i through `AsInteger`, and as "i is non-zero" through `AsBoolean` |
| KeyValues.UInt64HighBitsOnlyReachBoolean | Utils/KeyValueParser.cs:66-88 | `AsInteger` drops the high half of a UInt64 while `AsBoolean` sees it: 2^32 reads as 0 and as true |
| KeyValueBinary.ReadCString | Utils/KeyValueParser.cs:236-247 | A terminated string read stops strictly after its start and inside the stream |
| KeyValueBinary.ReadCStringSpec | Utils/KeyValueParser.cs:236-247 | The string read gives the NUL-free bytes before the first NUL and moves past that NUL; it is unterminated exactly when no NUL follows |
| KeyValueBinary.ReadFixed | Utils/KeyValueParser.cs:208-234 | A fixed-width read advances by n bytes, or to the end of the stream when fewer remain; a full read gives the little-endian value of those bytes, and any read gives a value below 256^n |
| KeyValueBinary.LittleEndianBound | Utils/KeyValueParser.cs:208-234 | A short read's zero-padded value still fits in the width it was read at |
| KeyValueBinary.ReadScalar | Utils/KeyValueParser.cs:154-178 | A scalar payload never moves the cursor backwards or out of the stream |
| KeyValueBinary.ReadScalarSpec | Utils/KeyValueParser.cs:147-178 | A scalar entry is a valid leaf with the entry's name, no children and the tag's type; it fails exactly for a wide string, an unknown tag, or a string with no NUL before the end |
| KeyValueBinary.ReadEntry | Utils/KeyValueParser.cs:141-184 | Reading an entry always consumes at least its tag byte and stays inside the stream |
| KeyValueBinary.ReadContainer | Utils/KeyValueParser.cs:136-194 | A container read ends at or after where it began and inside the stream |
| KeyValueBinary.ValidContainerEndsWithEnd | Utils/KeyValueParser.cs:141-145 | A container is valid only when the last byte it read is an End tag |
| KeyValueBinary.ReadEntryDecoded | Utils/KeyValueParser.cs:147-184 | Every node an entry read yields has reader shape: valid scalar leaves without children, containers with a child list, no NUL in names or string values |
| KeyValueBinary.ReadContainerDecoded | Utils/KeyValueParser.cs:136-194 | Every child a container read collects has that shape |
| KeyValueBinary.LoadAsBinary | Utils/KeyValueParser.cs:115-134 | A document loads exactly when the top-level container is valid and ends exactly at the end of the stream; the root is then a valid `<root>` node whose children are the container's, and the last byte is an End tag |
| KeyValueBinary.Power256Widths | Utils/KeyValueParser.cs:208-227 | Four bytes hold 2^32 values and eight hold 2^64 |
| KeyValueEncoding.EncodeEntry | Utils/KeyValueParser.cs:147-176 | An encoded entry holds at least a tag byte and the NUL ending its name |
| KeyValueEncoding.Encode | Utils/KeyValueParser.cs:141-145 | An encoded document ends with an End tag |
| KeyValueEncoding.EntryPayload | Utils/KeyValueParser.cs:147-176 | An encoded entry is its tag, its name with NUL, then its payload |
| KeyValueEncoding.AtSplit | Utils/KeyValueParser.cs:136-194 | Bytes found at a position split into their two halves at consecutive positions |
| KeyValueEncoding.ReadsCString | Utils/KeyValueParser.cs:236-247 | A NUL-free text followed by NUL reads back as that text, ending just past the NUL |
| KeyValueEncoding.ReadsFixed | Utils/KeyValueParser.cs:208-234 | The n little-endian bytes of a value read back as the value, n bytes further on |
| KeyValueEncoding.ReadsEncodedScalar | Utils/KeyValueParser.cs:154-176 | An encoded scalar payload reads back as the leaf holding that value, right after its bytes |
| KeyValueEncoding.ReadEntryUnfold | Utils/KeyValueParser.cs:147-176 | Once the tag and name are read, a None tag reads a nested container whose validity and children the entry keeps, and any other tag reads a scalar |
| KeyValueEncoding.EntryLayout | Utils/KeyValueParser.cs:141-147 | An encoded entry's tag is at its first byte, its name reads back whole, and its payload follows |
| KeyValueEncoding.ReadsEncodedEntry | Utils/KeyValueParser.cs:147-184 | An encoded entry followed by more bytes reads back as exactly that node, and the cursor stops right after it |
| KeyValueEncoding.ReadsEncodedNested | Utils/KeyValueParser.cs:151-153 | An encoded nested container reads back as that container, valid, with its children |
| KeyValueEncoding.ReadContainerUnfold | Utils/KeyValueParser.cs:181-188 | A container whose first entry reads and stops inside the stream is that entry followed by the rest of the container |
| KeyValueEncoding.EntriesLayout | Utils/KeyValueParser.cs:141-184 | An encoded run of entries is the first entry followed by the rest |
| KeyValueEncoding.ReadsEncodedEntries | Utils/KeyValueParser.cs:136-194 | The encoding of a run of valid nodes plus an End tag reads back as exactly those nodes, valid, stopping after the End tag |
| KeyValueEncoding.LoadEncoded | Utils/KeyValueParser.cs:115-194 | Round trip: the encoding of a tree of valid nodes loads as that tree under a valid root |
| KeyValueEncoding.TrailingBytesRejected | Utils/KeyValueParser.cs:187-188 | Any byte after the final End tag makes the document unreadable, although the tree before it decodes |
| KeyValueFacts.EndTagClosesContainer | Utils/KeyValueParser.cs:141-145 | An End tag alone is an empty, valid container that stops after the tag |
| KeyValueFacts.EndOnlyDocument | Utils/KeyValueParser.cs:141-188 | The stream `[8]` loads as a valid root with an empty child list |
| KeyValueFacts.FailingEntryFailsContainer | Utils/KeyValueParser.cs:190-193 | A format error in the entry a read starts at ends the container there: the rest of the container adds no children, the container is invalid, and the cursor stays where the error arose |
| KeyValueFacts.LaterFailureKeepsEarlierChildren | Utils/KeyValueParser.cs:184-193 | A format error after an entry has been read leaves the container invalid, but the child appended before the error stays |
| KeyValueFacts.UnsupportedTagFails | Utils/KeyValueParser.cs:158-178 | A wide-string tag, or a tag above 8, fails its entry; from that entry on the container adds no children, and the container is invalid |
| KeyValueFacts.EntryAtEndOfStreamFails | Utils/KeyValueParser.cs:181-182 | An entry that leaves the cursor at the end of the stream is dropped and its container fails |
| KeyValueFacts.NestedOutcomeStaysInChild | Utils/KeyValueParser.cs:151-187 | A nested container is appended whatever happened inside it, valid only if its End tag was reached, and the parent carries on from where it stopped |
| KeyValueFacts.ScalarPayloadWidths | Utils/KeyValueParser.cs:160-176 | Int32, Float32, Pointer and Color payloads take four little-endian bytes (Int32 as two's complement) and UInt64 takes eight |
| KeyValueFacts.StringPayload | Utils/KeyValueParser.cs:154-157 | A string payload ends at its NUL and holds the bytes before it |
| KeyValueFacts.ShortPayloadFailsContainer | Utils/KeyValueParser.cs:160-182 | A four-byte payload cut short by the end of the stream fails its container |
| KeyValueFacts.Int32Document | Utils/KeyValueParser.cs:160-188 | `x` = Int32 7 followed by an End tag loads as one valid leaf that reads as 7 |
| KeyValueFacts.TruncatedDocument | Utils/KeyValueParser.cs:181-182 | The same bytes without the End tag do not load |
| KeyValueFacts.NestedWideStringDocument | Utils/KeyValueParser.cs:151-159 | A wide string as the first entry of a nested container leaves that container invalid with no children, but the document still loads |
| KeyValueFacts.PartlyReadContainerDocument | Utils/KeyValueParser.cs:151-193 | A wide string after an Int32 `x` inside a nested container `a`: the document loads, `a` is invalid but still holds `x`, and looking up `x` in `a` finds it |
| KeyValueFacts.NestedWideStringPayloadDocument | Utils/KeyValueParser.cs:151-193 | A nested wide string followed by the UTF-16 payload "h": the parent reads the payload byte as an unknown tag, and the document does not load |
| KeyValueFacts.TopLevelWideStringDocument | Utils/KeyValueParser.cs:127-159 | A wide string at the top level stops the document |
| StatFlags.GetFlags | Utils/StatFlagHelper.cs:16-36 | The flag word uses only bits 0–2 |
| StatFlags.LegacyGetFlags | Commands/GetAchievementData.cs:309-316 | The two-argument form equals the kind-aware form called with its default `isAchievement` of false, for every input |
| StatFlags.MaskedBits | Utils/StatFlagHelper.cs:27-34 | The masks 3, ~3 and ~2 test bits 0 and 1, the bits above 1, and bit 0 or the bits above 1 |
| StatFlags.GetFlagsMeaning | Utils/StatFlagHelper.cs:16-36 | The kind-aware flags are exactly these. IncrementOnly: increment-only and not an achievement. Protected: bit 1, or bit 0 on an achievement. UnknownPermission: a bit above 1, or bit 0 on a stat. The word is at most 7 |
| StatFlags.LegacyGetFlagsIsStatRule | Commands/GetAchievementData.cs:309-316 | The two-argument form gives every definition the flags of a stat |
| StatFlags.GetFlagsExamples | Utils/StatFlagHelper.cs:24-34 | (3, any, achievement) is Protected, (2, false, stat) is Protected, (4, false, stat) is UnknownPermission |
| StatFlags.AllBitsPermission | Utils/StatFlagHelper.cs:24-34 | A stat with permission -1 that is increment-only gets all three flags |
| StatFlags.LegacyAchievementDivergence | Commands/GetAchievementData.cs:313-314 | On an achievement with permission 1, the two-argument form reports UnknownPermission where the kind-aware form reports Protected |
| StatsSchema.StringTypeCode | Services/StatsSchemaLoader.cs:66-81 | A type name always gives a code from 0 to 4 |
| StatsSchema.StructuralRawType | Services/StatsSchemaLoader.cs:89-130 | Structural inference gives a code from 1 to 4, and 4 whenever a `bits` child is present |
| StatsSchema.ReadIntStat | Services/StatsSchemaLoader.cs:134-157 | The schema part of an integer stat has kind Integer, integer bounds and default, and value 0 |
| StatsSchema.BuildIntStat | Services/StatsSchemaLoader.cs:134-157 | An integer stat is its schema part with the live value when `GetStat` succeeds and 0 otherwise; it throws exactly when the schema part does |
| StatsSchema.ReadFloatStat | Services/StatsSchemaLoader.cs:159-183 | The schema part of a float or average-rate stat has that kind, float bounds and default, and value 0 |
| StatsSchema.BuildFloatStat | Services/StatsSchemaLoader.cs:159-183 | A float or average-rate stat is its schema part with the live value when `GetStat` succeeds and 0 otherwise; it throws exactly when the schema part does |
| StatsSchema.BuildAchievement | Services/StatsSchemaLoader.cs:202-247 | An achievement's id is the text of its `name`. A non-empty live name or description wins. Achieved and percent come from the live calls. Icons, hidden and permission come from the schema's `display` and `permission` |
| StatsSchema.BuildEntry | Services/StatsSchemaLoader.cs:45-251 | An invalid entry adds nothing, and neither does a valid one whose raw type is outside 1–5 |
| StatsSchema.FindStats | Services/StatsSchemaLoader.cs:37-43 | The `stats` container a load walks is valid and has a child list |
| StatsSchema.LoadUserGameStatsSchema | Services/StatsSchemaLoader.cs:14-255 | The load succeeds exactly when the file decodes and the app's `stats` container is valid with a child list; its lists are then what the loop over the children of `stats` builds. It throws exactly when a lookup on the way to `stats`, or the loop, throws. Every unsuccessful load leaves both lists empty |
| StatsSchema.LegacyLoad | Commands/GetAchievementData.cs:570-729 | The load succeeds exactly when the file decodes and the app's `stats` container is valid with a child list; its lists are then what its own loop over the children of `stats` builds. It throws exactly when a lookup on the way to `stats`, or the loop, throws. An unsuccessful load leaves the lists it had untouched |
| StatsSchemaFacts.MissingChildIsSentinel | Utils/KeyValueParser.cs:37-41 | A key no child answers reads as the invalid sentinel |
| StatsSchemaFacts.TypeIntDecides | Services/StatsSchemaLoader.cs:59-62 | A valid `type_int` decides the raw type ahead of `type` and of the structure, and both classifiers read it alike |
| StatsSchemaFacts.ServiceTypeField | Services/StatsSchemaLoader.cs:63-87 | Without a valid `type_int`, a valid string `type` is mapped by name and any other valid `type` is read as an integer |
| StatsSchemaFacts.StringTypeCodeIgnoresCase | Services/StatsSchemaLoader.cs:66-81 | Type names that differ only in case get the same code |
| StatsSchemaFacts.StringTypeCodeExamples | Services/StatsSchemaLoader.cs:66-81 | "int" is 1, "Achievements" is 4, and "1" is no type name, so 0 |
| StatsSchemaFacts.NoTypeFields | Commands/GetAchievementData.cs:602-606 | With neither `type_int` nor `type`, the service classifier uses the structure, while the legacy one reads 0 and skips the entry |
| StatsSchemaFacts.StructuralOrder | Services/StatsSchemaLoader.cs:89-130 | Inference order as an if-and-only-if per code: `bits` gives 4; else a valid `window` gives 3 even beside a Float32 bound; else a Float32 `min`, `max` or `default` gives 2; else 1 |
| StatsSchemaFacts.TypeNameWithoutDigits | Commands/GetAchievementData.cs:602-604 | A string `type` without digits is mapped by name by the service classifier and read as 0 by the legacy one |
| StatsSchemaFacts.IntTypeNameDivergence | Commands/GetAchievementData.cs:602-606 | An entry typed only by the string "INT" is an integer stat to the service classifier and is skipped by the legacy loader |
| StatsSchemaFacts.ValidEntriesMembers | Services/StatsSchemaLoader.cs:47-48 | The valid-entry filter keeps exactly the valid entries |
| StatsSchemaFacts.SkippingStep | Services/StatsSchemaLoader.cs:45-48 | A loop step that adds nothing for an invalid entry gives the same result over the valid entries alone |
| StatsSchemaFacts.InvalidEntriesSkipped | Services/StatsSchemaLoader.cs:45-48 | Loading all `stats` entries is loading the valid ones, with either classifier |
| StatsSchemaFacts.StatEntryContents | Services/StatsSchemaLoader.cs:134-183 | A valid entry of raw type 1, 2 or 3 adds one stat, of kind integer, float or average rate respectively, and no achievement |
| StatsSchemaFacts.AchievementEntryContents | Services/StatsSchemaLoader.cs:185-251 | A valid entry of raw type 4 or 5 adds its achievements and no stat, throwing exactly when they do; a code outside 1–5 adds nothing |
| StatsSchemaFacts.KindNames | Services/StatsSchemaLoader.cs:147-173 | The kinds are named "integer", "float" and "avgrate" |
| StatsSchemaFacts.DuplicateTypeIntThrows | Utils/KeyValueParser.cs:37-39 | An entry with two `type_int` children throws, and the exception ends the load |
| StatsSchemaFacts.BuildGroupsFlattens | Services/StatsSchemaLoader.cs:189-247 | The two nested loops run over the concatenated children of the valid `bits` containers that have a child list |
| StatsSchemaFacts.GroupEntriesMembers | Services/StatsSchemaLoader.cs:199-202 | The nodes collected are exactly the children of the valid containers that have a child list |
| StatsSchemaFacts.AchievementsFromEveryBit | Services/StatsSchemaLoader.cs:185-247 | Every child of every valid `bits` child with a child list (all matches, ignoring case) gives exactly one descriptor, in order; the result throws exactly when one of them does |
| StatsSchemaFacts.StatNameFallsBackToId | Services/StatsSchemaLoader.cs:144-146 | A stat without a `display` child is named by its id |
| StatsSchemaFacts.StatIdIsName | Services/StatsSchemaLoader.cs:136-143 | A stat's id is the text of its `name` child |
| StatsSchemaFacts.IntStatDefaults | Services/StatsSchemaLoader.cs:148-150 | Missing integer bounds are the 32-bit extremes, and a missing `default` is 0 |
| StatsSchemaFacts.FloatStatDefaults | Services/StatsSchemaLoader.cs:174-176 | Missing float bounds are the float extremes, and a missing `default` is 0 |
| StatsSchemaFacts.IntStatBounds | Services/StatsSchemaLoader.cs:134-157 | An integer stat reads exactly when its header and its `min`, `max` and `default` lookups do. A present bound or default is read with `AsInteger`, defaulting to the 32-bit extremes and 0 |
| StatsSchemaFacts.FloatStatBounds | Services/StatsSchemaLoader.cs:159-183 | A float or average-rate stat reads exactly when its header and its `min`, `max` and `default` lookups do. A present bound or default is read with `AsFloat`, defaulting to the float extremes and 0 |
| StatsSchemaFacts.BoundedIntStatEntry | Services/StatsSchemaLoader.cs:134-157 | The entry with `type_int` 1, `name` "s", `min` -5 and `max` 100 gives one integer stat "s", named "s", with bounds -5 and 100, default 0, and the live value or 0 |
| StatsSchemaFacts.StatSchemaFieldsIgnoreLive | Services/StatsSchemaLoader.cs:136-183 | Two live sources give stat descriptors that differ at most in their current value |
| StatsSchemaFacts.AchievementFallsBackToSchema | Services/StatsSchemaLoader.cs:216-220 | An empty live name or description is replaced by the schema's `display.name` or `display.desc` |
| StatsSchemaFacts.AchievementSchemaFieldsIgnoreLive | Services/StatsSchemaLoader.cs:236-242 | The id, icons, hidden flag and permission do not depend on the live source |
| StatsSchemaFacts.IndexOk | Utils/KeyValueParser.cs:30-43 | A lookup in a node without duplicate sibling names does not throw |
| StatsSchemaFacts.WellKeyedHeader | Services/StatsSchemaLoader.cs:136-153 | Without duplicate sibling names the fields every stat shares read without an exception |
| StatsSchemaFacts.WellKeyedStat | Services/StatsSchemaLoader.cs:134-183 | Without duplicate sibling names a stat entry always yields its descriptor |
| StatsSchemaFacts.WellKeyedText | Services/StatsSchemaLoader.cs:144-146 | Without duplicate sibling names a text field and its `display` counterpart read without an exception |
| StatsSchemaFacts.WellKeyedArt | Services/StatsSchemaLoader.cs:239-242 | Without duplicate sibling names an achievement's icons, hidden flag and permission read without an exception |
| StatsSchemaFacts.WellKeyedAchievement | Services/StatsSchemaLoader.cs:202-247 | Without duplicate sibling names an achievement node always yields its descriptor, whatever the live source says |
| StatsSchemaFacts.WellKeyedStructure | Services/StatsSchemaLoader.cs:89-130 | Without duplicate sibling names structural inference does not throw |
| StatsSchemaFacts.WellKeyedRawType | Services/StatsSchemaLoader.cs:59-130 | Without duplicate sibling names neither classifier throws |
| StatsSchemaFacts.WellKeyedAchievements | Services/StatsSchemaLoader.cs:185-250 | Without duplicate sibling names the achievements of an entry do not throw |
| StatsSchemaFacts.WellKeyedEntry | Services/StatsSchemaLoader.cs:59-251 | Without duplicate sibling names an entry never throws, with either classifier |
| StatsSchemaFacts.LoadEntriesSucceeds | Services/StatsSchemaLoader.cs:45-252 | A loop whose every step succeeds succeeds |
| StatsSchemaFacts.WellKeyedSchemaLoads | Services/StatsSchemaLoader.cs:14-255 | A schema file whose decoded tree has no duplicate sibling names loads without an exception, through either loader |
| StatsSchemaFacts.FindStatsOutcome | Services/StatsSchemaLoader.cs:20-43 | The lookup of `stats` finds nothing usable exactly when the file is missing or undecodable, or when `stats` is invalid or has no child list. It throws exactly when a lookup on the way to `stats` throws, and otherwise gives the `stats` node itself |
| StatsSchemaFacts.UnreadableFile | Services/StatsSchemaLoader.cs:20-39 | A missing or undecodable file gives false: the service loader with empty lists, the older loader with the lists it had |
| StatsSchemaFacts.UnusableStatsContainer | Services/StatsSchemaLoader.cs:41-43 | An invalid `stats` container, or one without children, gives false in both loaders, with the same lists as for an unreadable file |
| StatsSchemaFacts.LegacyLoadIgnoresPrevious | Commands/GetAchievementData.cs:594-595 | The older loader clears its lists before refilling them: a successful load, and whether a load throws, do not depend on the lists it had |
| StatsSchemaFacts.LegacyLoadIdempotent | Commands/GetAchievementData.cs:594-595 | Loading again from the lists a load left gives the same result: the lists do not accumulate |
| StatsSchemaFacts.ClassifiersAgree | Commands/GetAchievementData.cs:602-604 | On entries that all carry a valid `type_int`, the two classifiers give the same lists |
| StatsSchemaFacts.LoadersAgree | Commands/GetAchievementData.cs:570-729 | When every valid entry carries a valid `type_int`, the older loader started from empty lists returns what the service loader returns |
| AchievementQuery.Find | Commands/GetAchievementData.cs:416-417 | `List.Find` gives nothing exactly when no element matches, and otherwise the first matching element |
| AchievementQuery.Select | Commands/GetAchievementData.cs:413-462 | A selected achievement or stat comes from the loaded lists and carries the requested id |
| AchievementQuery.AchievementChosenFirst | Commands/GetAchievementData.cs:416-421 | The first achievement with the id is reported, with the legacy flags of a non-increment-only definition, even when a stat has the same id |
| AchievementQuery.StatChosenOtherwise | Commands/GetAchievementData.cs:439-441 | A stat is reported only when no achievement has the id, and then it is the first stat with it, with its own increment-only property |
| AchievementQuery.NotFoundWhenAbsent | Commands/GetAchievementData.cs:458-461 | "ID not found" is reported exactly when neither list carries the id |
| AchievementQuery.ListAll | Commands/GetAchievementData.cs:464-507 | The listing has one row per achievement and one per stat |
| AchievementQuery.ListingFlags | Commands/GetAchievementData.cs:470-505 | Each row keeps its definition in load order, carries the stat-rule flags, and is protected exactly when its flags include Protected |
| AchievementQuery.SelectionMatchesListing | Commands/GetAchievementData.cs:413-505 | A selected definition is reported with the same flags and protection as its row in the listing |
| AchievementQuery.PermissionOneAchievementListing | Commands/GetAchievementData.cs:470-485 | An achievement with permission 1 is listed as unprotected with UnknownPermission, although the kind-aware rule calls it protected |

## Left out

- File and registry access are not modelled: the Steam install path, `File.Exists`, opening the file, and the exception handling around them. The schema file is a parameter, either missing or present with its bytes.
- The Steamworks calls are caller-supplied functions in `SteamUserStats`: `GetStat` for both value types, `GetAchievement`, `GetAchievementDisplayAttribute` and `GetAchievementAchievedPercent`. Their behaviour is not visible in the source.
- Floating point is not modelled. A Float32 is its bit pattern, and `(int)f`, `(float)i`, `(float)u`, `float.ToString` and `float.TryParse` come from `FloatOps`. The `float.MinValue` and `float.MaxValue` defaults are their IEEE-754 patterns.
- UTF-8 decoding and culture rules are not modelled. Names and strings are raw bytes. `InvariantCultureIgnoreCase` and `OrdinalIgnoreCase` are ASCII case folding. `int.TryParse` is a decimal parser with `NumberStyles.Integer`'s white space and sign rules.
- Bytes.ParseInt32: its own contract says only that a success needs a decimal digit. The value, the sign and white-space rules and the overflow rejection are stated by `Bytes.ParseInt32Digits`, `Bytes.ParseInt32Plus`, `Bytes.ParseInt32Minus` and `Bytes.ParseInt32IgnoresWhite`, which cover canonical digit runs (no leading zeros) with a sign and surrounding white space. Text with leading zeros is parsed by the same definition but has no lemma of its own.
- KeyValueBinary.ReadCString: an unterminated string is a format error, with the cursor at the end of the stream. In the source, `ReadByte` returns -1 forever at the end, so the loop grows the buffer until memory runs out, and the `catch` then returns false. The outcome is the same failure, without the exhaustion.
- KeyValueBinary.ReadContainer: a tag read at the end of the stream fails the container at once, with the cursor at the end. In the source, `ReadByte` gives -1, which casts to tag 255, and reading that entry's name then never stops, as above. The outcome is the same.
- The copy of the `KeyValue` class nested in `Commands/GetAchievementData.cs:22-272` is the same code as `Utils/KeyValueParser.cs` and is modelled once.
- StatsSchema.LoadUserGameStatsSchema and StatsSchema.LegacyLoad: when a duplicate key throws mid-load, the model gives `Thrown`. It does not model the partly filled lists that the exception leaves in the source's out parameters or fields.
- StatsSchema.BuildIntStat and StatsSchema.BuildFloatStat: the live `GetStat` value is read after the schema fields, not before them. `GetStat` cannot throw and the descriptor is built only when no lookup throws, so the order makes no difference.
- The rest of `Execute` is not modelled: argument handling, JSON serialisation, writing the output file, the callbacks and `RunCallbacks` polling, the global-percentage request, and the console messages. The flag word is kept as a number, not as the enum's `ToString` text.
- Everything under `Interop/` is not modelled (native calls and marshalling), and neither are the other commands, `Program` dispatch or `IdleWindow`.
