# Biome fingerprints and entity synched-data schema, in Dafny

This project models two extractors of the SteelExtractor data dumper and proves
properties of the model.

**`BiomeHashes`** reduces each sampled chunk column of a dimension to a 32-character
MD5 fingerprint of its biome layout.

- The column is a lattice of 4×4×4 quarter-resolution cells per section, over
  `minSectionY..maxSectionY`.
- A generation pass asks the biome source for every cell, in x, y, z order, and
  stores the names in a map.
- A hashing pass re-reads the map in the canonical order: section ascending, then
  y, z, x. It feeds MD5 one marker byte per section (`sectionY.toByte()`), followed
  by each name with its `minecraft:` prefix stripped, UTF-8 encoded, with no
  separator.
- `extractDimension` draws 128 columns from a `Random(24680)`, x before z, each
  coordinate in [-625, 625).
- `extract` reports every dimension whose level exists and skips the others.

**`Entities`** (the synched-data part):

- `getAccessorNames` walks an entity class and its superclasses. It collects every
  static `EntityDataAccessor` field into an id → (accessor, normalised name) table.
  Later writes overwrite earlier ones, so a superclass's declaration wins.
- `serializeDefaultValue` turns a default value into JSON.
- `extractSynchedData` lists a live entity's data items, or, if the entity cannot be
  instantiated, the table's entries in ascending index order.

Modules follow the program: `Lattice`, `Fingerprint`, `Sampler` and `BiomeReport`
for `BiomeHashes.kt`; `DefaultValues` and `SynchedData` for `Entities.kt`. Shared
building blocks sit in `Bytes`, `Text`, `Utf8`, `Assignments` (a run of map writes),
`Json`, `SortedSets` and `Options`.

Collaborators the model cannot see are parameters:

- The biome source with its climate sampler is a `Classifier`,
  `(quartX, quartY, quartZ) -> Option<name>`. `None` stands for a biome holder
  without a registry key.
- MD5 is any function from bytes to a 16-byte `Digest`.
- Kotlin's `Random` is a pair of functions: `seeded` gives the state of a fresh
  generator, and `nextInt` returns the next state and the drawn value. The
  predicate `ValidRandom` says that `nextInt(from, until)` lies in [from, until).
- Class reflection becomes `ClassInfo` values: a hierarchy is a list of classes,
  most derived first, each with its declared fields.

Three facts about the hashing pass shape what the fingerprint can and cannot tell apart:

- **Marker byte.** The marker is `sectionY.toByte()`, the section index truncated to
  8 bits. Sections -4 and 252 share the marker 0xFC (`Bytes.ToByte`).
- **No separator.** Names are hashed one after another with nothing between them, so
  the byte stream is not injective: in every column and over any range of sections,
  two classifiers that disagree at the first cell of any section of the range ("ab",
  "c" against "a", "bc") get the same fingerprint, whatever the digest
  (`Fingerprint.NameBoundariesAreNotHashed`).
- **Fixed namespace.** Only the fixed `minecraft:` namespace is stripped; names in
  other namespaces keep theirs (`Fingerprint.OtherNamespaceKept`).

## Model

| member | source | states |
|---|---|---|
| Bytes.ToByte | src/main/kotlin/com/steelextractor/extractors/BiomeHashes.kt:146 | `sectionY.toByte()` yields the byte congruent to sectionY modulo 256 |
| Bytes.ToByteKeepsSmallValues | src/main/kotlin/com/steelextractor/extractors/BiomeHashes.kt:146 | a section index in -128..127 is its own marker byte, read as Kotlin's signed byte |
| Bytes.Signed | src/main/kotlin/com/steelextractor/extractors/BiomeHashes.kt:163 | the signed value of a `Byte` lies in -128..127 and has the same bit pattern |
| Bytes.HexByte | src/main/kotlin/com/steelextractor/extractors/BiomeHashes.kt:163 | `"%02x"` gives two lowercase hex digits whose value is the byte |
| Bytes.Hex | src/main/kotlin/com/steelextractor/extractors/BiomeHashes.kt:163 | the rendering has two lowercase hex characters per byte |
| Bytes.ParseHexInvertsHex | src/main/kotlin/com/steelextractor/extractors/BiomeHashes.kt:163 | rendering loses nothing: parsing the hex text gives back the digest |
| Bytes.HexInvertsParseHex | src/main/kotlin/com/steelextractor/extractors/BiomeHashes.kt:163 | every even-length lowercase hex string renders exactly one byte sequence |
| Text.RemovePrefix | src/main/kotlin/com/steelextractor/extractors/BiomeHashes.kt:152-156 | the prefix is removed exactly when the string starts with it; otherwise the string is unchanged |
| Text.LowerChar | src/main/kotlin/com/steelextractor/extractors/Entities.kt:171 | an upper-case ASCII letter becomes its lower-case letter; any other character is kept |
| Text.Lowercase | src/main/kotlin/com/steelextractor/extractors/Entities.kt:171 | `lowercase()` keeps the length and lowercases character by character |
| Text.LowercaseIdempotent | src/main/kotlin/com/steelextractor/extractors/Entities.kt:171 | lowercasing twice is lowercasing once |
| Utf8.EncodeChar | src/main/kotlin/com/steelextractor/extractors/BiomeHashes.kt:157 | a character becomes 1 to 4 bytes: one byte exactly for ASCII, a lead byte announcing the length, then continuation bytes |
| Utf8.Encode | src/main/kotlin/com/steelextractor/extractors/BiomeHashes.kt:157 | a string of n characters encodes to between n and 4n bytes |
| Utf8.EncodeAppend | src/main/kotlin/com/steelextractor/extractors/BiomeHashes.kt:157 | encoding names one after another without a separator is encoding their concatenation |
| Utf8.EncodeAscii | src/main/kotlin/com/steelextractor/extractors/BiomeHashes.kt:157 | an ASCII name is hashed as its character codes |
| Utf8.EncodeTwoBytesValue | src/main/kotlin/com/steelextractor/extractors/BiomeHashes.kt:157 | a two-byte encoding carries its character's value |
| Utf8.EncodeThreeBytesValue | src/main/kotlin/com/steelextractor/extractors/BiomeHashes.kt:157 | a three-byte encoding carries its character's value |
| Utf8.EncodeFourBytesValue | src/main/kotlin/com/steelextractor/extractors/BiomeHashes.kt:157 | a four-byte encoding carries its character's value |
| Utf8.EncodeCharValue | src/main/kotlin/com/steelextractor/extractors/BiomeHashes.kt:157 | the bytes of one character carry back exactly that scalar value |
| Utf8.DecodeInvertsEncode | src/main/kotlin/com/steelextractor/extractors/BiomeHashes.kt:157 | UTF-8 encoding is lossless: decoding the bytes gives back the name |
| Assignments.Assign | src/main/kotlin/com/steelextractor/extractors/BiomeHashes.kt:136 | after the writes, a key is in the map exactly when it was there before or was written |
| Assignments.KeysOfAppend | src/main/kotlin/com/steelextractor/extractors/Entities.kt:165-179 | the keys written by two runs of writes are those of the first followed by those of the second |
| Assignments.AssignAppend | src/main/kotlin/com/steelextractor/extractors/Entities.kt:165-179 | writing one class's fields and then the next is one run of writes |
| Assignments.UnwrittenKeepsValue | src/main/kotlin/com/steelextractor/extractors/Entities.kt:172 | a key no write touches keeps its value |
| Assignments.LastWriteWins | src/main/kotlin/com/steelextractor/extractors/Entities.kt:172 | a key ends with the value of its last write |
| Assignments.LastWriteIndex | src/main/kotlin/com/steelextractor/extractors/Entities.kt:172 | every written key has a last write |
| Assignments.AssignFunctional | src/main/kotlin/com/steelextractor/extractors/BiomeHashes.kt:136 | if every write stores f(key), every written key ends up mapped to f(key), whatever the order |
| Assignments.AssignDistinctSize | src/main/kotlin/com/steelextractor/extractors/BiomeHashes.kt:136 | writes to distinct fresh keys add one entry each |
| Assignments.AssignKeepsInvariant | src/main/kotlin/com/steelextractor/extractors/Entities.kt:39 | a property every write satisfies holds of every entry of the table |
| Lattice.GenerationCell | src/main/kotlin/com/steelextractor/extractors/BiomeHashes.kt:124-126 | the i-th cell of a section in x, y, z order lies in the section and has generation index i |
| Lattice.HashCell | src/main/kotlin/com/steelextractor/extractors/BiomeHashes.kt:147-149 | the i-th cell of a section in y, z, x order lies in the section and has hashing index i |
| Lattice.CellOfIndex | src/main/kotlin/com/steelextractor/extractors/BiomeHashes.kt:147-150 | each cell of a section has exactly one position in each enumeration order |
| Lattice.GenerationOrder | src/main/kotlin/com/steelextractor/extractors/BiomeHashes.kt:123-126 | the generation loops visit 64 cells per section; position p is cell p mod 64 of section minS + p div 64 |
| Lattice.GenerationOrderCoversLatticeOnce | src/main/kotlin/com/steelextractor/extractors/BiomeHashes.kt:123-140 | the generation loops visit every lattice cell, nothing else, and no cell twice |
| Lattice.QuartOf | src/main/kotlin/com/steelextractor/extractors/BiomeHashes.kt:127-129 | a cell's quarter coordinates recover its chunk, section and local offsets by floor division by 4 |
| Lattice.QuartOfInjective | src/main/kotlin/com/steelextractor/extractors/BiomeHashes.kt:127-131 | distinct cells of a column are classified at distinct positions |
| Fingerprint.GenerationPass | src/main/kotlin/com/steelextractor/extractors/BiomeHashes.kt:121-140 | the map has a key exactly for each lattice cell (64 per section), holding the classifier's name at that cell's quarter position |
| Fingerprint.GenerationOrderIrrelevant | src/main/kotlin/com/steelextractor/extractors/BiomeHashes.kt:119-140 | filling the map in any order that visits the same cells gives the same map |
| Fingerprint.HashTokens | src/main/kotlin/com/steelextractor/extractors/BiomeHashes.kt:145-161 | the hashing pass emits 65 items per section: one marker and 64 names |
| Fingerprint.HashTokensClosedForm | src/main/kotlin/com/steelextractor/extractors/BiomeHashes.kt:145-161 | item p is the marker of section minS + p div 65 when p mod 65 = 0, and otherwise the name of that section's (p mod 65 − 1)-th cell in y, z, x order |
| Fingerprint.StripNamespace | src/main/kotlin/com/steelextractor/extractors/BiomeHashes.kt:151-156 | `minecraft:` is removed exactly when the name starts with it |
| Fingerprint.OtherNamespaceKept | src/main/kotlin/com/steelextractor/extractors/BiomeHashes.kt:151-156 | a name in any other namespace is hashed with its namespace |
| Fingerprint.NamespaceSpellingsHashAlike | src/main/kotlin/com/steelextractor/extractors/BiomeHashes.kt:151-157 | `minecraft:x` and `x` contribute the same bytes |
| Fingerprint.SerializeAppend | src/main/kotlin/com/steelextractor/extractors/BiomeHashes.kt:146-157 | successive `md.update` calls feed the concatenation of their bytes |
| Fingerprint.NamesSerializeAsJoined | src/main/kotlin/com/steelextractor/extractors/BiomeHashes.kt:147-158 | a run of names is hashed as the UTF-8 of the stripped names joined with no separator |
| Fingerprint.HashStreamBySection | src/main/kotlin/com/steelextractor/extractors/BiomeHashes.kt:145-160 | the stream is, section by ascending section, one marker byte equal to sectionY truncated to 8 bits, then the UTF-8 of its 64 stripped names run together |
| Fingerprint.ChunkBiomeHash | src/main/kotlin/com/steelextractor/extractors/BiomeHashes.kt:111-164 | the fingerprint is 32 lowercase hex characters and parses back to the MD5 of the hash stream of the generation pass's map |
| Fingerprint.StreamDependsOnlyOnLattice | src/main/kotlin/com/steelextractor/extractors/BiomeHashes.kt:142-161 | two maps that agree on every lattice cell give the same byte stream |
| Fingerprint.OffsetOnlyThroughClassifier | src/main/kotlin/com/steelextractor/extractors/BiomeHashes.kt:127-161 | two columns whose cells get the same names everywhere have the same fingerprint |
| Fingerprint.CellToken | src/main/kotlin/com/steelextractor/extractors/BiomeHashes.kt:145-150 | each lattice cell is hashed once, at position (sectionY − minS)·65 + 1 + its y, z, x index, as the name stored for it |
| Fingerprint.UnresolvedCellHashedAsUnknown | src/main/kotlin/com/steelextractor/extractors/BiomeHashes.kt:131-134 | a cell whose biome has no registry key is hashed as `unknown` at its position, instead of failing |
| Fingerprint.GeneratedSectionName | src/main/kotlin/com/steelextractor/extractors/BiomeHashes.kt:136-150 | for every section of any range, the `!!` lookup of the hashing pass finds an entry, and it is the classifier's name for that cell |
| Fingerprint.GeneratedSectionNames | src/main/kotlin/com/steelextractor/extractors/BiomeHashes.kt:136-150 | for every section of any range, the hashing pass reads that section's 64 names exactly as the classifier gives them, in y, z, x order |
| Fingerprint.StreamsAgree | src/main/kotlin/com/steelextractor/extractors/BiomeHashes.kt:145-160 | two maps whose sections, one by one, run their stripped names together to the same text give the same byte stream |
| Fingerprint.FirstTwoNamesRunTogether | src/main/kotlin/com/steelextractor/extractors/BiomeHashes.kt:157 | over any range, two maps that differ only in how the first two names of one section split the same text hash alike |
| Fingerprint.RunTogetherOtherSections | src/main/kotlin/com/steelextractor/extractors/BiomeHashes.kt:127-150 | a classifier that names two cells of one section and `plains` elsewhere gives every other section the same names, whatever the two names |
| Fingerprint.SplitNamesRunTogether | src/main/kotlin/com/steelextractor/extractors/BiomeHashes.kt:157 | over any range of sections, moving the boundary between the names of the first two hashed cells of any section of the range does not change the byte stream |
| Fingerprint.NameBoundariesAreNotHashed | src/main/kotlin/com/steelextractor/extractors/BiomeHashes.kt:157 | in every column and over any range of sections, classifiers that disagree at the first cell of any section of the range can give the same fingerprint under any digest |
| Sampler.Columns | src/main/kotlin/com/steelextractor/extractors/BiomeHashes.kt:86-89 | n columns are drawn, each in [-625, 625) on both axes when `nextInt` honours its bounds |
| Sampler.ColumnsStep | src/main/kotlin/com/steelextractor/extractors/BiomeHashes.kt:87-89 | one loop iteration's two draws give the next column and the state the remaining columns start from |
| Sampler.ColumnsPairConsecutiveDraws | src/main/kotlin/com/steelextractor/extractors/BiomeHashes.kt:87-89 | the i-th column is draws 2i (x) and 2i + 1 (z) of one stream |
| BiomeReport.ExtractDimension | src/main/kotlin/com/steelextractor/extractors/BiomeHashes.kt:61-103 | the report has the level's section bounds and 128 entries: entry i is column i of a fresh `Random(24680)` with its fingerprint, in range when the generator honours its bounds |
| BiomeReport.EntryFor | src/main/kotlin/com/steelextractor/extractors/BiomeHashes.kt:90-96 | a column's entry is its chunk coordinates and its 32-character lowercase hex fingerprint |
| BiomeReport.Available | src/main/kotlin/com/steelextractor/extractors/BiomeHashes.kt:50-56 | every listed dimension is configured with a level, every configured level is listed, and with no level missing nothing is dropped |
| BiomeReport.AvailableAppend | src/main/kotlin/com/steelextractor/extractors/BiomeHashes.kt:50 | dimensions are visited in configured order: the available ones of two runs are the first's followed by the second's |
| BiomeReport.AvailableOfOne | src/main/kotlin/com/steelextractor/extractors/BiomeHashes.kt:50-56 | a dimension without a level is skipped, any other is listed once with its name and level |
| BiomeReport.ReportsExtend | src/main/kotlin/com/steelextractor/extractors/BiomeHashes.kt:50-56 | reporting one more available dimension appends its report |
| BiomeReport.Extract | src/main/kotlin/com/steelextractor/extractors/BiomeHashes.kt:33-59 | the report records seed 13579, sample seed 24680 and 128 chunks, and holds a complete dimension report for each available dimension, in order, skipping the missing ones |
| BiomeReport.DimensionsShareColumns | src/main/kotlin/com/steelextractor/extractors/BiomeHashes.kt:86-89 | all dimensions sample the same columns in the same order |
| BiomeReport.OffsetBlindNamesAlike | src/main/kotlin/com/steelextractor/extractors/BiomeHashes.kt:127-131 | a classifier blind to the chunk offset names each cell alike in every column |
| BiomeReport.OffsetBlindClassifierGivesUniformHashes | src/main/kotlin/com/steelextractor/extractors/BiomeHashes.kt:86-161 | with a classifier blind to the chunk offset, all sampled columns of a dimension get the same fingerprint |
| BiomeReport.ConstantClassifierGivesUniformHashes | src/main/kotlin/com/steelextractor/extractors/BiomeHashes.kt:86-161 | with a constant classifier, all sampled columns of a dimension get the same fingerprint |
| DefaultValues.SerializeDefaultValue | src/main/kotlin/com/steelextractor/extractors/Entities.kt:184-284 | the JSON has distinct keys in every object and the kind each value promises |
| DefaultValues.OptionalShape | src/main/kotlin/com/steelextractor/extractors/Entities.kt:190-206 | an Optional/OptionalInt is `{present}` plus `value` exactly when present, holding the serialised content |
| DefaultValues.PrimitivesKeepTheirValue | src/main/kotlin/com/steelextractor/extractors/Entities.kt:186-189 | only null becomes JSON null; booleans, numbers and strings keep their value |
| DefaultValues.ListSerializesElementwise | src/main/kotlin/com/steelextractor/extractors/Entities.kt:256-262 | a list becomes an array of the same length, serialised element by element |
| DefaultValues.StringFallbacks | src/main/kotlin/com/steelextractor/extractors/Entities.kt:208-281 | an empty stack is `"empty"`, a holder without key is `"unknown_holder"` (with a key, its identifier), and an enum constant is its name |
| SynchedData.AccessorName | src/main/kotlin/com/steelextractor/extractors/Entities.kt:171 | when the lowercased field name starts with `data_`, the name is what follows that one prefix; otherwise it is the whole lowercased field name; it has no upper-case letter |
| SynchedData.LowercaseAppend | src/main/kotlin/com/steelextractor/extractors/Entities.kt:171 | lowercasing distributes over concatenation |
| SynchedData.DataFieldName | src/main/kotlin/com/steelextractor/extractors/Entities.kt:171 | `DATA_X` is named by lowercased X; only one `data_` is removed |
| SynchedData.DeclaredAccessors | src/main/kotlin/com/steelextractor/extractors/Entities.kt:165-173 | one class's writes: at most one per field, each filed under its own accessor's id |
| SynchedData.DeclaredAccessorsAppend | src/main/kotlin/com/steelextractor/extractors/Entities.kt:165 | the fields are scanned in the order `declaredFields` returns them: the writes for two runs of fields are those of the first followed by those of the second |
| SynchedData.DeclaredAccessorsContents | src/main/kotlin/com/steelextractor/extractors/Entities.kt:165-173 | a class writes (id, (accessor, name)) exactly when one of its fields is accessor-typed with that accessor as value, id is the accessor's id and name is the field's normalised name |
| SynchedData.Walked | src/main/kotlin/com/steelextractor/extractors/Entities.kt:163-164 | the walk visits a prefix of the hierarchy, all entities, stopping at the first class that is not |
| SynchedData.GetAccessorNames | src/main/kotlin/com/steelextractor/extractors/Entities.kt:161-182 | the table's ids are exactly those the visited classes declare, and each entry is filed under its own accessor's id |
| SynchedData.AccessorNamesReadOnlyWalked | src/main/kotlin/com/steelextractor/extractors/Entities.kt:164 | classes past the first non-entity never affect the table |
| SynchedData.WalkDomain | src/main/kotlin/com/steelextractor/extractors/Entities.kt:163-180 | the walk adds exactly the ids the visited classes declare |
| SynchedData.WalkKeysOwnIds | src/main/kotlin/com/steelextractor/extractors/Entities.kt:172 | every entry stays filed under its accessor's id |
| SynchedData.WalkStopsAtFirstNonEntity | src/main/kotlin/com/steelextractor/extractors/Entities.kt:164 | classes past the first non-entity do not affect the table |
| SynchedData.WalkKeepsUndeclared | src/main/kotlin/com/steelextractor/extractors/Entities.kt:172-179 | an entry no later class redeclares survives the rest of the walk |
| SynchedData.EntityRunLastDeclarationWins | src/main/kotlin/com/steelextractor/extractors/Entities.kt:163-180 | over a run of entity classes, a declaration that no later field or class overrides is the final entry for its id |
| SynchedData.WalkLastDeclarationWins | src/main/kotlin/com/steelextractor/extractors/Entities.kt:163-180 | a declaration that no later field or superclass overrides is the final entry for its id |
| SynchedData.MostSuperDeclarationWins | src/main/kotlin/com/steelextractor/extractors/Entities.kt:161-182 | when several classes declare an id, the table keeps the declaration of the most-super class |
| SynchedData.SerializerWrites | src/main/kotlin/com/steelextractor/extractors/Entities.kt:32-42 | only registered serializers (id ≠ -1) are written, under lowercased names |
| SynchedData.SerializerWritesAppend | src/main/kotlin/com/steelextractor/extractors/Entities.kt:32 | the registry's fields are scanned in the order `declaredFields` returns them: the writes for two runs of fields are those of the first followed by those of the second |
| SynchedData.SerializerWritesKeys | src/main/kotlin/com/steelextractor/extractors/Entities.kt:32-41 | an id is written exactly when some field is serializer-typed, non-null, and has that serialized id, which is not -1 |
| SynchedData.SerializerNames | src/main/kotlin/com/steelextractor/extractors/Entities.kt:30-45 | the keys are exactly the ids some field registers (so never -1), and every name is lowercase |
| SynchedData.SerializerNamedByLastField | src/main/kotlin/com/steelextractor/extractors/Entities.kt:32-44 | an id is named by the lowercased name of the last field that registers it |
| SortedSets.SortedKeys | src/main/kotlin/com/steelextractor/extractors/Entities.kt:142 | `toSortedMap()` visits every key of the table once and no other, in strictly ascending order |
| SynchedData.FallbackEntries | src/main/kotlin/com/steelextractor/extractors/Entities.kt:139-152 | one entry per table id, none else, in strictly ascending index order, each with the table's name, its accessor's serializer name (`unknown` if unregistered) and no default value |
| SynchedData.FallbackCoversTable | src/main/kotlin/com/steelextractor/extractors/Entities.kt:142 | every id of the table appears among the entries |
| SynchedData.Present | src/main/kotlin/com/steelextractor/extractors/Entities.kt:117-118 | null items are skipped and every non-null item is kept |
| SynchedData.PresentAppend | src/main/kotlin/com/steelextractor/extractors/Entities.kt:117 | the items are visited in array order: those of two runs are the first's followed by the second's |
| SynchedData.PresentOfOne | src/main/kotlin/com/steelextractor/extractors/Entities.kt:117-118 | a null item contributes nothing, a non-null item contributes itself |
| SynchedData.InstantiatedEntries | src/main/kotlin/com/steelextractor/extractors/Entities.kt:117-133 | one entry per non-null item, in array order, with its accessor's index, the name found for it or `unknown`, its serializer's name or `unknown`, and its serialised initial value |
| SynchedData.ExtractSynchedData | src/main/kotlin/com/steelextractor/extractors/Entities.kt:100-159 | a live entity gives one entry per non-null item, in array order, with its accessor's index, its serialised default value, the name the class walk filed for that index or `unknown` when the walk did not declare it, and its serializer's name or `unknown`; otherwise every accessor the base class walk declares is listed once, in ascending index order, under its table name, with its serializer's name or `unknown`, and without a default value |

Thirteen definitions have no row of their own: they compute, and the members above
state what they compute. `Fingerprint.GenerationWrites`, `SynchedData.TableEntry`,
`SynchedData.EntriesFor` and `SynchedData.ItemEntry` carry `ensures` clauses that only
repeat their bodies. Those clauses carry no weight of their own; the members named
below state the properties.

- `Fingerprint.BiomeName` (src/main/kotlin/com/steelextractor/extractors/BiomeHashes.kt:127-134) is the classifier's answer at the cell's quarter position or `unknown`; `Fingerprint.GenerationPass`, `Lattice.QuartOf` and `Fingerprint.UnresolvedCellHashedAsUnknown` carry it.
- `Fingerprint.SectionBiomeNames` (src/main/kotlin/com/steelextractor/extractors/BiomeHashes.kt:127-150) lists the classifier's names for one section's 64 hashed cells; `Fingerprint.GeneratedSectionNames` carries it.
- `Fingerprint.GenerationWrites` (src/main/kotlin/com/steelextractor/extractors/BiomeHashes.kt:123-140) is the generation loop as a run of `biomes[cell] = name` writes; `Fingerprint.GenerationPass` and `Fingerprint.GenerationOrderIrrelevant` carry it.
- `Fingerprint.SectionTokens` and `Fingerprint.SectionNames` (src/main/kotlin/com/steelextractor/extractors/BiomeHashes.kt:146-158) are one section of the hashing loop: its marker, then the names stored for its 64 cells in y, z, x order; `Fingerprint.HashTokensClosedForm`, `Fingerprint.CellToken` and `Fingerprint.HashStreamBySection` carry them.
- `Fingerprint.TokenBytes`, `Fingerprint.Serialize` and `Fingerprint.HashStream` (src/main/kotlin/com/steelextractor/extractors/BiomeHashes.kt:145-157) are the bytes of the `md.update` calls; `Fingerprint.SerializeAppend`, `Fingerprint.NamesSerializeAsJoined`, `Fingerprint.HashStreamBySection` and `Fingerprint.CellToken` carry them.
- `SynchedData.SerializerName` (src/main/kotlin/com/steelextractor/extractors/Entities.kt:127, src/main/kotlin/com/steelextractor/extractors/Entities.kt:149) is `serializerNames[id] ?: "unknown"`; `SynchedData.InstantiatedEntries` and `SynchedData.FallbackEntries` carry it.
- `SynchedData.ItemEntry` (src/main/kotlin/com/steelextractor/extractors/Entities.kt:120-132) is the object the live branch writes for one data item; `SynchedData.InstantiatedEntries` carries it.
- `SynchedData.TableEntry` and `SynchedData.EntriesFor` (src/main/kotlin/com/steelextractor/extractors/Entities.kt:142-152) are the objects the fallback loop writes, for one table id and for a run of ids; `SynchedData.FallbackEntries` and `SynchedData.FallbackCoversTable` carry them.
- `SynchedData.Walk` (src/main/kotlin/com/steelextractor/extractors/Entities.kt:163-180) is the class walk; `SynchedData.GetAccessorNames` and the `Walk…` lemmas carry it.

The remaining definitions without a row model no source line. They are the vocabulary the contracts are written in:
- predicates such as `Lattice.InLattice` and `SynchedData.Declares`;
- inverses such as `Bytes.ParseHex` and `Utf8.Decode`;
- independent reference definitions such as `Sampler.Draws`, `Fingerprint.TokenAt` and `Fingerprint.JoinNames`;
- the example classifier `Fingerprint.RunTogether` and its helper lemmas.

## Left out

- MD5 internals: the digest is any function from bytes to 16 bytes. The model proves what the hex text encodes, not properties of MD5.
- Kotlin's `Random` algorithm: it is a parameter. The model cannot state the concrete 128 coordinates drawn from seed 24680.
- Biome generation: the biome source, climate sampler and `RandomState` choice (`NoiseBasedChunkGenerator` or the level's own) are folded into the `Classifier` parameter.
- Logging: the seed-mismatch warning and the "not available" messages are omitted; they have no effect on the output.
- JSON text layout and Gson property encoding: the model builds JSON trees, not text.
- Text.LowerChar, Text.Lowercase: cover ASCII letters only. Kotlin's `lowercase()` maps every Unicode letter; the Minecraft accessor and serializer constants it is applied to are ASCII.
- Fingerprint.GenerationOrderIrrelevant: assumes the classifier is a pure function of the position. The real biome source may cache, and the generation order is chosen to match that cache (BiomeHashes.kt:108-109, 119-120); a classifier whose answers depend on the order of earlier queries is not modelled.
- Fingerprint.GenerationPass: Kotlin `Int` arithmetic is modelled unbounded. `chunkX * 4 + x` would wrap for |chunkX| at or above 2^29; sampled columns have |chunkX| at most 625, so the wrap cannot occur there.
- Utf8.Encode: a Dafny `char` is a Unicode scalar value, so lone surrogates (which Java would replace with `?`) cannot occur.
- DefaultValues.SerializeDefaultValue: `Float` components are kept as exact reals, and the `Number` case passes its value through without Gson's number formatting.
- SynchedData.SerializerNamedByLastField, SynchedData.EntityRunLastDeclarationWins: Java's `getDeclaredFields()` returns fields in no particular order. The model takes the fields in the order given, so when two fields of one class share an id, which of them wins depends on the order the JVM returns.
- SynchedData.DeclaredAccessors: fields that are not static, or whose read fails, are modelled as having no value, like the `catch` in `getAccessorNames` that skips them.
- SynchedData.SerializerNames: the serializer scan has no `catch`, so a failing `field.get(null)` there throws out of the `lazy` initializer, and the exception reaches the `try` around `extractSynchedData`. The model assumes every read succeeds, since `EntityDataSerializers` declares only static serializer constants; a null value is skipped, as the `if (serializer != null)` check does.
- Reflection: `isAccessible` and the cached `Field` handles are left out.
- Exception paths: the `try`/`catch` around `extractSynchedData` and around each entity type's properties are left out. So are entity instantiation and `discard()`; the `Instance` value is given.
- The rest of `Entities.extract`: width, height, tracking and flags are registry reads with no logic.
