# schempy core, modelled in Dafny

A Dafny model of the in-memory core of schempy, a Python library for Sponge
schematic (`.schem`) files. The model covers two parts:

- `schempy/utils.py`:
  - the unsigned-short helpers that bound and read back a schematic's dimensions;
  - the base-128 varint codec (unsigned LEB128, section 7.6 of DWARF 5) that packs
    per-cell palette indices into the `Data` byte arrays.
- `schempy/schematic.py`:
  - `Block`: equality, hashing and rendering;
  - `BlockEntity`;
  - the bidirectional block `Palette`;
  - `Schematic` with its bounds-checked grid accessors;
  - the version sniffing of `_parse_file`;
  - the field layout of `_save_to_file_v3`.

Modules:

| file | module | models |
|---|---|---|
| wrappers.dfy | `Wrappers`, `Errors` | `Option`/`Result` standing in for `None` and raised exceptions; one error per raise site |
| shorts.dfy | `Shorts` | `to_unsigned_short`, `from_unsigned_short` |
| varint.dfy | `Varint` | `encode_varint`, `decode_varint` (as a loop, proved equal to a recursive reference decoder), the array packers |
| text.dfy | `Text` | Python's `str.split` and `str.join` on one separator character |
| blocks.dfy | `Blocks` | `Block` (`__eq__`, `__hash__`, `__str__`), `BlockEntity`, the string parser inside `set_palette` |
| palettes.dfy | `Palettes` | `Palette`: `get_id`, `get_block`, `set_palette`, `get_palette` |
| nbt.dfy | `Nbt` | the NBT tree as the Python code sees it |
| schematics.dfy | `Schematics` | `Schematic.__init__`, `_check_coordinates`, `get_block`, `set_block`, `add_block_entity` |
| schematic_file.dfy | `SchematicFiles` | `_parse_file` version dispatch, `_prepare_metadata`, `_save_to_file_v3` |

Modelling choices:

- **Block equality (`Blocks.Same`).** The Python dataclass compares property
  dictionaries. The model keeps properties as an insertion-ordered list of entries
  and compares the dictionaries they denote. `None` and `{}` are different values.
- **Palette dictionary.** `_block_to_index` is an association list, looked up by
  `Same`. Assigning to a key that is already present keeps the first key stored
  and replaces only the index, as a Python dictionary does.
- **Grid layout.** Each grid is a flat row-major sequence of shape
  `(length, height, width)`, indexed `[x, y, z]`, as the numpy code does.
  - The bounds check accepts `x < width` and `z < length`.
  - numpy accepts `x < length` and `z < width`.
  - So on a non-square footprint a coordinate can pass the check and then raise
    IndexError. `set_block` evaluates `get_id` before the store, so that IndexError
    leaves the palette already grown. `Schematics.SetBlock` returns the state
    together with the exception.
- **Constants.** `MINECRAFT_AIR` and `DATA_VERSION` come from `schempy/constants.py`,
  which is not part of this model. They are parameters of `Schematics.New`.

Where the code's behaviour differs from what one might expect, the model follows
the code:

- `decode_varint` raises nothing on a truncated stream. It drops a trailing run of
  continuation bytes (`Varint.DecodeDropsTrailing`).
- `set_palette` does not place a block at the index it is given. It records that
  index in the dictionary and appends the block to the list in iteration order
  (`Palettes.SetPaletteKeepsIterationOrder`).
- `Palette.get_block` has no range check of its own.
- The file loaders call `set_palette` on the palette the constructor seeded with air
  (schempy/schematic.py:97, 257, 288), so a file whose palette maps air to 0 gets air
  twice in the list and every other block one position late
  (`Palettes.LoadIntoSeededPalette`, `Schematics.FreshPaletteSeeded`). The loaders
  themselves are not part of this model.
- A property list with a repeated key is no Python dictionary. `Blocks.WellFormed`
  excludes it; every block the parser builds is well formed.

## Model

| member | source | states |
|---|---|---|
| Shorts.ToUnsignedShort | schempy/utils.py:6-10 | succeeds exactly for 0..65535 and returns the value unchanged; otherwise raises ValueError |
| Shorts.FromUnsignedShort | schempy/utils.py:13-15 | the result is in 0..65535, congruent to the input modulo 65536, and equal to it when already in range |
| Shorts.SignedShortReading | schempy/utils.py:13-15 | on signed 16-bit inputs the reading adds 65536 to negatives, is injective, and always passes `to_unsigned_short` |
| Shorts.ShortHelpersAgree | schempy/utils.py:6-15 | the two helpers agree wherever `to_unsigned_short` succeeds, and every reading is accepted by it |
| Varint.EncodeVarint | schempy/utils.py:18-29 | for v >= 0 the encoding is non-empty, every byte but the last has the high bit set and the last has it clear, and its groups denote v |
| Varint.EncodeVarintLength | schempy/utils.py:18-29 | the encoding of v uses the fewest bytes that can hold v: k bytes hold values below 2^(7k), and v is at least 2^(7(k-1)) when k > 1 |
| Varint.EncodingExamples | schempy/utils.py:18-29 | 0 encodes as [0x00], 127 as [0x7F], 300 as [0xAC, 0x02] |
| Varint.TakeGroupSpec | schempy/utils.py:38-46 | reading one number stops at the first byte with the high bit clear and yields the little-endian base-128 value of the bytes up to it; no number when every byte has the high bit set |
| Varint.DecodeVarint | schempy/utils.py:32-48 | the accumulate-and-shift loop, with `|=` as a bitwise OR, returns exactly what the reference decoder `Varint.Decode` (one `TakeGroup` after another) returns |
| Varint.OrDisjoint | schempy/utils.py:40 | OR-ing a group shifted above every set bit of the accumulator equals adding it, which the loop invariant `current < 2^bit_offset` makes the case at every step |
| Varint.DecodeCount | schempy/utils.py:38-48 | `Varint.Decode` emits exactly one number is emitted per byte whose high bit is clear |
| Varint.DecodeDropsTrailing | schempy/utils.py:38-48 | a trailing run of high-bit-set bytes after a complete stream is dropped silently, with no error |
| Varint.VarintRoundTrip | schempy/utils.py:18-48 | decoding the encoding of any v >= 0 gives [v] |
| Varint.DecodeEncodingPrefix | schempy/utils.py:18-48 | decoding an encoding followed by any bytes yields the encoded value first, then the decoding of the rest |
| Varint.DecodeConcat | schempy/utils.py:32-48 | decoding a complete stream followed by any bytes is the concatenation of the two decodings |
| Varint.EncodeArray | schempy/utils.py:51-57 | packing an array yields a complete stream with one closing byte per element |
| Varint.EncodeArrayRoundTrip | schempy/utils.py:51-57 | decoding the packed bytes gives back the row-major flattening, element by element |
| Varint.VarintBytesToArray | schempy/utils.py:60-63 | succeeds exactly when the number of closing bytes equals the product of the shape, and then has that shape; otherwise raises ValueError |
| Varint.ArrayRoundTrip | schempy/utils.py:51-63 | unpacking a packed array with its own shape gives the same array |
| Text.SplitCount | schempy/schematic.py:56-60 | splitting yields one more piece than there are separators, which is what makes the two-way unpacking fail |
| Text.SplitAtFirst | schempy/schematic.py:56 | splitting at the first separator gives the text before it, then the split of the rest |
| Text.SplitJoin | schempy/schematic.py:33-35 | splitting a join of separator-free pieces gives back the pieces |
| Blocks.AsMapMembership | schempy/schematic.py:19 | a duplicate-free property list denotes a dictionary with the same keys and the same entries |
| Blocks.SameIsEquivalence | schempy/schematic.py:27-30 | `Blocks.Same`, the model of `Block.__eq__`, is reflexive, symmetric and transitive, as keys of a Python dictionary need |
| Blocks.HashKeyItems | schempy/schematic.py:21-25 | `Blocks.HashKey`, what `Block.__hash__` hashes: the id and exactly the block's property items; no items for None |
| Blocks.EqualBlocksHashEqually | schempy/schematic.py:21-30 | blocks that compare equal have equal hash keys |
| Blocks.SameIffSameEntries | schempy/schematic.py:27-30 | `Blocks.Same` (`Block.__eq__`): two blocks are equal exactly when their ids match and their property entries form the same set, or both have no properties |
| Blocks.SameIgnoresOrder | schempy/schematic.py:27-30 | permuting the property entries of a block gives an equal block |
| Blocks.NoneDiffersFromEmpty | schempy/schematic.py:21-35 | `Block(id, None)` and `Block(id, {})` are unequal although they hash and render identically |
| Blocks.AssignSpec | schempy/schematic.py:58-61 | assigning a property sets that key's value, leaves the others, keeps the keys distinct, and appends a new key at the end |
| Blocks.ParseBlock | schempy/schematic.py:54-64 | a string without `[` is a bare id; any failure is ValueError; every parsed block is well formed (no repeated key), and a bracketed string yields a non-empty property dictionary |
| Blocks.ParsePropertiesFails | schempy/schematic.py:59-61 | parsing the entries fails exactly when some entry does not split at `=` into two parts |
| Blocks.MalformedStrings | schempy/schematic.py:55-61 | two or more `[`, an empty bracket, and an entry without `=` all raise ValueError |
| Blocks.ParseRender | schempy/schematic.py:32-64 | `Blocks.Render` (`Block.__str__`) is inverted by the parser: parsing the rendering of a block with no properties, or with non-empty properties free of `[`, `,` and `=`, gives back that block |
| Palettes.Lookup | schempy/schematic.py:72-75 | a lookup finds nothing exactly when no key equals the block; otherwise it returns the index stored under an equal key |
| Palettes.PutSpec | schempy/schematic.py:65 | assignment maps the block to the index, leaves every other key alone, keeps keys distinct, and appends when the block was absent |
| Palettes.GetId | schempy/schematic.py:71-75 | a known block returns its stored index and changes nothing; a new block gets the list length as its index and is appended; the list only grows |
| Palettes.DenseLookup | schempy/schematic.py:71-78 | in a dense palette the dictionary and the list are inverse: a block is absent exactly when no list element equals it, and `get_block` of its index is equal to it |
| Palettes.GetIdKeepsDense | schempy/schematic.py:71-78 | `get_id` keeps the palette dense, returns a valid position, and `get_block(get_id(b))` equals b |
| Palettes.GetIdIdempotent | schempy/schematic.py:71-75 | asking for the same block again returns the same index and leaves the palette unchanged |
| Palettes.GetIdOfGetBlock | schempy/schematic.py:71-78 | `Palettes.GetBlock`: in a dense palette `get_id(get_block(i))` is i and changes nothing |
| Palettes.GetIdFirstSeenOrder | schempy/schematic.py:71-75 | on a fresh palette, A, B, A, C get 0, 1, 0, 2 and the list is [A, B, C] |
| Palettes.ParseAllSpec | schempy/schematic.py:53-64 | parsing the mapping succeeds exactly when every string parses, with the entries in iteration order |
| Palettes.InstallAllSpec | schempy/schematic.py:65-66 | installing entries appends their blocks in order after the existing list, leaves under every key the index supplied last for an equal block (other keys keep theirs), and keeps keys distinct |
| Palettes.InstallAllLookup | schempy/schematic.py:65 | after the assignments, the dictionary maps each block to the index of the last entry equal to it, or to what it held before when no entry is |
| Palettes.SetPaletteSpec | schempy/schematic.py:52-66 | `Palettes.SetPalette` (`set_palette`) on any palette: succeeds exactly when every string parses, otherwise ValueError; blocks are appended in iteration order whatever their indices; every key holds the index supplied last for a string parsing to an equal block, and any other key keeps its index |
| Palettes.InstallAllFresh | schempy/schematic.py:65-66 | on a fresh palette, pairwise different blocks are stored exactly as given, in order |
| Palettes.GetPaletteKeys | schempy/schematic.py:68-69 | `Palettes.GetPalette` (`get_palette`): its keys are exactly the renderings of the dictionary's keys, each carrying the index of the last key rendering to it |
| Palettes.GetPaletteEmpty | schempy/schematic.py:68-69 | the rendered palette is empty exactly when the dictionary is, and never has more keys than it |
| Palettes.SetThenGetPalette | schempy/schematic.py:52-69 | for canonical, pairwise distinct strings, `get_palette` after `set_palette` on a fresh palette reproduces the input mapping, sparse indices included |
| Palettes.SetPaletteKeepsIterationOrder | schempy/schematic.py:52-69 | loading {stone: 5, dirt: 2} keeps 5 and 2 in the dictionary but puts the blocks at list positions 0 and 1, so the palette is not dense |
| Palettes.LoadIntoSeededPalette | schempy/schematic.py:52-78 | loading {air: 0, stone: 1} into a palette already holding air puts air at list positions 0 and 1 and stone at 2, while the dictionary says stone is 1, so `get_block(1)` is air |
| Schematics.New | schempy/schematic.py:82-104 | succeeds exactly when every dimension is in 0..65535, otherwise ValueError; then the invariant holds, the palette list is [air], every cell is 0, the biome palette is empty, the offset is [0, 0, 0], and there are no entities |
| Schematics.CheckCoordinates | schempy/schematic.py:106-109 | raises ValueError exactly when x, y or z lies outside [0, width) x [0, height) x [0, length) |
| Schematics.CellIndex | schempy/schematic.py:98-99 | every subscript numpy accepts lands inside the buffer of length x height x width cells |
| Schematics.CellIndexInjective | schempy/schematic.py:98-99 | different subscripts land on different cells |
| Schematics.GetBlock | schempy/schematic.py:111-114 | out of bounds raises ValueError; in bounds but outside numpy's shape raises IndexError; otherwise returns a block of the palette |
| Schematics.SetBlock | schempy/schematic.py:116-119 | out of bounds raises and changes nothing; otherwise the palette becomes `get_id`'s; an IndexError from numpy leaves the grid unchanged but the palette grown; nothing else changes |
| Schematics.AddBlockEntity | schempy/schematic.py:121-124 | succeeds exactly when the entity lies in bounds and then appends exactly it; otherwise ValueError |
| Schematics.SetBlockKeepsValid | schempy/schematic.py:116-119 | `set_block` keeps the schematic invariant (dense palette, every cell a valid palette index), even when it raises |
| Schematics.AddBlockEntityKeepsValid | schempy/schematic.py:121-124 | `add_block_entity` keeps the invariant |
| Schematics.SetThenGet | schempy/schematic.py:111-119 | on a coordinate both checks accept, `get_block` after `set_block` returns a block equal to the one set |
| Schematics.SetBlockLeavesOthers | schempy/schematic.py:111-119 | `set_block` leaves every other coordinate reading exactly as before, errors included |
| Schematics.SquareFootprint | schempy/schematic.py:98-119 | when width equals length, the bounds check and numpy accept the same coordinates |
| Schematics.FreshIsAir | schempy/schematic.py:96-114 | every reachable cell of a fresh schematic reads as air |
| Schematics.FreshPaletteSeeded | schempy/schematic.py:96-97 | a fresh schematic's block palette holds air alone, at index 0 in both tables |
| Schematics.AxisMismatch | schempy/schematic.py:98-119 | on a 2 x 1 x 1 schematic, [1, 0, 0] passes the check but reading raises IndexError, and writing raises IndexError after the new block joined the palette |
| SchematicFiles.Route | schempy/schematic.py:313-320 | integer 2 and 3 select their parsers, 1 raises NotImplementedError, anything else raises ValueError |
| SchematicFiles.SniffVersion | schempy/schematic.py:302-308 | the top-level `Version` is used when present, otherwise `Schematic.Version`; a non-compound `Schematic` raises AttributeError |
| SchematicFiles.Dispatch | schempy/schematic.py:300-320 | no version anywhere raises ValueError; otherwise the version found is routed |
| SchematicFiles.TopLevelVersionWins | schempy/schematic.py:302-308 | with a top-level `Version`, the contents of `Schematic` never affect the outcome |
| SchematicFiles.NestedVersion | schempy/schematic.py:303-311 | without a top-level version, the `Schematic` compound's version is routed, and a tree with neither raises ValueError |
| SchematicFiles.PrepareMetadata | schempy/schematic.py:126-136 | metadata holds the user's keys plus Name, Author, Date and RequiredMods; the four standard keys get the name, the author, the date and the list of required mods, overriding user entries of the same name; other user entries are kept as strings |
| SchematicFiles.MetadataIgnoresStandardUserKeys | schempy/schematic.py:128-135 | user entries under the four standard keys never reach the saved metadata: metadata that agree off those keys save alike |
| SchematicFiles.BlockEntityTag | schempy/schematic.py:172-173 | an entity converts exactly when it has properties, otherwise AttributeError |
| SchematicFiles.BlockEntityTags | schempy/schematic.py:172-173 | the list converts exactly when every entity has properties, element by element in order |
| SchematicFiles.BuildV3Fields | schempy/schematic.py:166-206 | `SchematicFiles.BuildV3` (`_save_to_file_v3`): saving fails exactly when a block entity lacks properties (AttributeError); otherwise the compound has Version 3, the schematic's dimensions, one compound per block entity, `Biomes` exactly when the biome palette is non-empty, and never `Entities`, because the list checked is the empty one built just before |
| SchematicFiles.BuildV3GridData | schempy/schematic.py:171-176 | the saved block data, and the biome data when written, unpack with shape (length, height, width) to the schematic's grids |
| SchematicFiles.ToTag | schempy/schematic.py:179-195 | the written tree's root holds only the `Schematic` compound |
| SchematicFiles.ToTagVersion | schempy/schematic.py:179-182 | the version is written under `Schematic`, never at the top level |
| SchematicFiles.BuildV3Dispatches | schempy/schematic.py:180-195 | a saved tree is routed back to the version 3 parser |

## Left out

- File I/O and compression (`save_to_file`, `from_file`, `nbtlib.load`, `File.save`): filesystem and external-library plumbing.
- The version 2 save path (`_save_to_file_v2`): it reads attributes that are never defined, so it raises AttributeError before building anything.
- The v2 and v3 parsers (`_parse_file_v2`, `_parse_file_v3`): they depend on the `SpongeV2`/`SpongeV3` schema classes, which are not part of this model. Only the dispatch that selects them is modelled. Note that the v3 parser loads the `Biomes` palette into the block palette.
- The date: `datetime.now()` and the floating-point `timestamp() * 1000` are replaced by an integer parameter of `SchematicFiles.PrepareMetadata`.
- numpy specifics: `dtype`, fixed-width integers, and `reshape` with `-1`. Grids are unbounded integers in a flat row-major sequence.
- Palettes.GetBlock: Python's negative list indexing is not modelled. The position must be in range.
- Schematics.GetBlock: requires the schematic invariant. A grid cell holding an index the palette list lacks cannot arise through the modelled operations.
- Palettes.SetPalette: when a string fails to parse, the entries installed before it remain in the Python object. The model returns only the error.
- Floating-point and other non-integer version tags: a float `2.0` would compare equal to 2 in Python, but such tags do not occur in the modelled trees.
- schempy/serializer.py: placeholder stubs with no behaviour.
- `schempy/constants.py` is not part of this model. `MINECRAFT_AIR` and `DATA_VERSION` are parameters.
