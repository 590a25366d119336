/** The file-level logic of `Schematic` in schempy/schematic.py: choosing a parser from
    the version tag of a loaded NBT tree (`_parse_file`), and building the Sponge
    version 3 tree a schematic is saved as (`_save_to_file_v3`). */
module SchematicFiles {
  import opened Wrappers
  import opened Errors
  import opened Nbt
  import Blocks
  import Varint
  import Palettes
  import Schematics

  /** The version-specific parser `_parse_file` hands the tree to. */
  datatype Parser = ParseV2 | ParseV3

  /** Routing on the version value: nbtlib integers compare equal to Python integers,
      so only an integer tag of value 2 or 3 selects a parser; 1 raises
      NotImplementedError and everything else ValueError. */
  function Route(version: Tag): (r: Result<Parser, Error>)
    ensures r == Success(ParseV2) <==> version == Int(2)
    ensures r == Success(ParseV3) <==> version == Int(3)
    ensures r == Failure(VersionUnsupported) <==> version == Int(1)
    ensures r.Failure? && version != Int(1) ==> r.error == InvalidVersion && IsValueError(r.error)
  {
    if version == Int(1) then Failure(VersionUnsupported)
    else if version == Int(2) then Success(ParseV2)
    else if version == Int(3) then Success(ParseV3)
    else Failure(InvalidVersion)
  }

  /** The version lookup of `_parse_file`: the top-level `Version`, else the `Version`
      of the `Schematic` compound; `.get` on a `Schematic` tag that is not a compound
      raises AttributeError. */
  function SniffVersion(root: map<string, Tag>): (r: Result<Option<Tag>, Error>)
    ensures "Version" in root ==> r == Success(Some(root["Version"]))
    ensures "Version" !in root && "Schematic" !in root ==> r == Success(None)
    ensures "Version" !in root && "Schematic" in root ==>
      (r.Failure? <==> !root["Schematic"].Compound?)
    ensures r.Failure? ==> r.error == NotACompound
    ensures "Version" !in root && "Schematic" in root && root["Schematic"].Compound? ==>
      (r == Success(None) <==> "Version" !in root["Schematic"].fields)
    ensures r.Success? && r.value.Some? && "Version" !in root ==>
      "Schematic" in root && root["Schematic"].Compound? && root["Schematic"].fields["Version"] == r.value.value
  {
    if "Version" in root then Success(Some(root["Version"]))
    else if "Schematic" !in root then Success(None)
    else
      match root["Schematic"]
      case Compound(fields) => if "Version" in fields then Success(Some(fields["Version"])) else Success(None)
      case _ => Failure(NotACompound)
  }

  /** `_parse_file`: the parser the version selects, or the error it raises. */
  function Dispatch(root: map<string, Tag>): (r: Result<Parser, Error>)
    ensures SniffVersion(root) == Success(None) <==> r == Failure(VersionNotFound)
    ensures SniffVersion(root).Failure? ==> r == Failure(NotACompound)
    ensures SniffVersion(root).Success? && SniffVersion(root).value.Some? ==> r == Route(SniffVersion(root).value.value)
  {
    match SniffVersion(root)
    case Failure(e) => Failure(e)
    case Success(None) => Failure(VersionNotFound)
    case Success(Some(v)) => Route(v)
  }

  /** A top-level `Version` decides alone: whatever `Schematic` holds is never read. */
  lemma TopLevelVersionWins(root: map<string, Tag>, nested: Tag)
    requires "Version" in root
    ensures Dispatch(root) == Dispatch(root["Schematic" := nested])
    ensures Dispatch(root) == Route(root["Version"])
  {
  }

  /** A tree with a version in neither place is rejected with ValueError; one whose
      `Schematic` compound holds the version is routed by it. */
  lemma NestedVersion(root: map<string, Tag>, fields: map<string, Tag>)
    requires "Version" !in root
    ensures Dispatch(root - {"Schematic"}) == Failure(VersionNotFound)
    ensures "Version" in fields ==> Dispatch(root["Schematic" := Compound(fields)]) == Route(fields["Version"])
    ensures "Version" !in fields ==> Dispatch(root["Schematic" := Compound(fields)]) == Failure(VersionNotFound)
  {
  }

  /** A dictionary of strings as a compound of string tags. */
  function StrCompound(m: map<string, string>): (r: map<string, Tag>)
    ensures r.Keys == m.Keys
  {
    map k | k in m :: Str(m[k])
  }

  /** A dictionary of integers as a compound of integer tags. */
  function IntCompound(m: map<string, int>): (r: map<string, Tag>)
    ensures r.Keys == m.Keys
  {
    map k | k in m :: Int(m[k])
  }

  /** A list of strings as a list of string tags, element by element. */
  function StrList(ss: seq<string>): (r: seq<Tag>)
    ensures |r| == |ss| && forall i :: 0 <= i < |ss| ==> r[i] == Str(ss[i])
  {
    seq(|ss|, i requires 0 <= i < |ss| => Str(ss[i]))
  }

  /** A list of integers as a list of integer tags, element by element. */
  function IntList(ns: seq<int>): (r: seq<Tag>)
    ensures |r| == |ns| && forall i :: 0 <= i < |ns| ==> r[i] == Int(ns[i])
  {
    seq(|ns|, i requires 0 <= i < |ns| => Int(ns[i]))
  }

  /** `_prepare_metadata`: the user's metadata, overridden by the four standard keys.
      The date is a parameter: the clock is not part of the model. */
  function PrepareMetadata(s: Schematics.Schematic, dateMillis: int): (r: map<string, Tag>)
    ensures r.Keys == s.metadata.Keys + StandardKeys
    ensures r["Name"] == Str(s.name) && r["Author"] == Str(s.author) && r["Date"] == Int(dateMillis)
    ensures r["RequiredMods"] == List(StrList(s.requiredMods))
    ensures forall k :: k in s.metadata && k !in StandardKeys ==> r[k] == Str(s.metadata[k])
  {
    StrCompound(s.metadata)["Name" := Str(s.name)]["Author" := Str(s.author)]
      ["Date" := Int(dateMillis)]["RequiredMods" := List(StrList(s.requiredMods))]
  }

  /** The keys `_prepare_metadata` always writes. */
  const StandardKeys: set<string> := {"Name", "Author", "Date", "RequiredMods"}

  /** The user's entries under the four standard keys never reach the saved metadata:
      two schematics whose metadata agree off those keys save the same metadata. */
  lemma MetadataIgnoresStandardUserKeys(s: Schematics.Schematic, t: Schematics.Schematic, dateMillis: int)
    requires t == s.(metadata := t.metadata)
    requires forall k :: k !in StandardKeys ==> (k in s.metadata <==> k in t.metadata)
    requires forall k :: k in s.metadata && k !in StandardKeys ==> k in t.metadata && s.metadata[k] == t.metadata[k]
    ensures PrepareMetadata(s, dateMillis) == PrepareMetadata(t, dateMillis)
  {
  }

  /** The `{'Pos', 'Id', 'Data'}` compound of one block entity; `properties.items()`
      on None raises AttributeError. */
  function BlockEntityTag(e: Blocks.BlockEntity): (r: Result<Tag, Error>)
    ensures r.Success? <==> e.properties.Some?
    ensures r.Failure? ==> r.error == MissingProperties
  {
    match e.properties
    case None => Failure(MissingProperties)
    case Some(props) =>
      Success(Compound(map["Pos" := List([Int(e.x), Int(e.y), Int(e.z)]), "Id" := Str(e.id), "Data" := Compound(StrCompound(props))]))
  }

  /** The block-entity list comprehension, in order; the first entity without
      properties raises. */
  function BlockEntityTags(es: seq<Blocks.BlockEntity>): (r: Result<seq<Tag>, Error>)
    ensures r.Success? <==> forall i :: 0 <= i < |es| ==> es[i].properties.Some?
    ensures r.Failure? ==> r.error == MissingProperties
    ensures r.Success? ==> |r.value| == |es| && forall i :: 0 <= i < |es| ==> Success(r.value[i]) == BlockEntityTag(es[i])
    decreases |es|
  {
    if |es| == 0 then Success([])
    else
      match BlockEntityTag(es[0])
      case Failure(err) => Failure(err)
      case Success(t) =>
        match BlockEntityTags(es[1..])
        case Failure(err) => Failure(err)
        case Success(ts) =>
          assert forall i :: 1 <= i < |es| ==> es[i] == es[1..][i - 1];
          Success([t] + ts)
  }

  predicate NonNegative(data: seq<int>)
  {
    forall i :: 0 <= i < |data| ==> data[i] >= 0
  }

  /** A grid of non-negative cells as the naturals the varint codec takes. */
  function AsNats(data: seq<int>): (r: seq<nat>)
    requires NonNegative(data)
    ensures |r| == |data| && forall i :: 0 <= i < |data| ==> r[i] == data[i]
  {
    seq(|data|, i requires 0 <= i < |data| => data[i] as nat)
  }

  /** The `Blocks` compound: the palette as rendered by `get_palette`, the varint-packed
      grid and the block-entity compounds. */
  datatype BlocksField = BlocksField(palette: map<string, int>, data: seq<Varint.uint8>, blockEntities: seq<Tag>)

  /** The `Biomes` compound. */
  datatype BiomesField = BiomesField(palette: map<string, int>, data: seq<Varint.uint8>)

  /** The compound `_save_to_file_v3` puts under `Schematic`, one field per key; the
      optional keys are `Option`s. */
  datatype SavedV3 = SavedV3(
    version: int,
    dataVersion: int,
    metadata: map<string, Tag>,
    width: int,
    height: int,
    length: int,
    offset: seq<int>,
    blocks: BlocksField,
    biomes: Option<BiomesField>,
    entities: Option<seq<Tag>>)

  /** `_save_to_file_v3`. Encoding a negative cell would never terminate, so both grids
      must be non-negative (the biome grid is encoded even when it is not written).
      `Biomes` is inserted only when the rendered biome palette is non-empty, and
      `Entities` only when the list checked is non-empty. */
  function BuildV3(s: Schematics.Schematic, dateMillis: int): Result<SavedV3, Error>
    requires NonNegative(s.blockData) && NonNegative(s.biomeData)
  {
    match BlockEntityTags(s.blockEntities)
    case Failure(err) => Failure(err)
    case Success(entityTags) =>
      var biomePalette := Palettes.GetPalette(s.biomePalette);
      var entities: seq<Tag> := [];
      Success(SavedV3(
        3, s.dataVersion, PrepareMetadata(s, dateMillis), s.width, s.height, s.length, s.offset,
        BlocksField(Palettes.GetPalette(s.blockPalette), Varint.EncodeArray(AsNats(s.blockData)), entityTags),
        if |biomePalette| > 0 then Some(BiomesField(biomePalette, Varint.EncodeArray(AsNats(s.biomeData)))) else None,
        if |entities| > 0 then Some(entities) else None))
  }

  /** What the saved compound holds: saving fails exactly when a block entity has no
      properties; otherwise it is version 3, carries one compound per block entity,
      holds `Biomes` exactly when the biome palette is non-empty, and never holds
      `Entities`. */
  lemma BuildV3Fields(s: Schematics.Schematic, dateMillis: int)
    requires NonNegative(s.blockData) && NonNegative(s.biomeData)
    ensures BuildV3(s, dateMillis).Success? <==>
      forall i :: 0 <= i < |s.blockEntities| ==> s.blockEntities[i].properties.Some?
    ensures BuildV3(s, dateMillis).Failure? ==> BuildV3(s, dateMillis).error == MissingProperties
    ensures BuildV3(s, dateMillis).Success? ==>
      var t := BuildV3(s, dateMillis).value;
      && t.version == 3
      && (t.width, t.height, t.length) == (s.width, s.height, s.length)
      && |t.blocks.blockEntities| == |s.blockEntities|
      && (t.biomes.Some? <==> |s.biomePalette.entries| > 0)
      && t.entities.None?
  {
    Palettes.GetPaletteEmpty(s.biomePalette);
  }

  lemma ShapeProduct(l: nat, h: nat, w: nat)
    ensures Varint.Product([l, h, w]) == l * (h * w)
  {
    assert [w][1..] == [];
    assert Varint.Product([w]) == w;
    assert [h, w][1..] == [w];
    assert Varint.Product([h, w]) == h * w;
    assert [l, h, w][1..] == [h, w];
  }

  /** The saved block data, and the biome data when written, unpack with the
      schematic's shape (length, height, width) to its grids. */
  lemma BuildV3GridData(s: Schematics.Schematic, dateMillis: int)
    requires NonNegative(s.blockData) && NonNegative(s.biomeData)
    requires |s.blockData| == Schematics.CellCount(s) && |s.biomeData| == Schematics.CellCount(s)
    requires forall i :: 0 <= i < |s.blockEntities| ==> s.blockEntities[i].properties.Some?
    ensures BuildV3(s, dateMillis).Success?
    ensures var t := BuildV3(s, dateMillis).value;
      Varint.VarintBytesToArray(t.blocks.data, [s.length, s.height, s.width])
        == Success(Varint.NdArray([s.length, s.height, s.width], AsNats(s.blockData)))
    ensures var t := BuildV3(s, dateMillis).value;
      t.biomes.Some? ==>
        Varint.VarintBytesToArray(t.biomes.value.data, [s.length, s.height, s.width])
          == Success(Varint.NdArray([s.length, s.height, s.width], AsNats(s.biomeData)))
  {
    BuildV3Fields(s, dateMillis);
    var shape := [s.length, s.height, s.width];
    ShapeProduct(s.length, s.height, s.width);
    Varint.ArrayRoundTrip(Varint.NdArray(shape, AsNats(s.blockData)));
    Varint.ArrayRoundTrip(Varint.NdArray(shape, AsNats(s.biomeData)));
  }

  /** The NBT tree written to the file: the root holds only `Schematic`. */
  function ToTag(t: SavedV3): (r: Tag)
    ensures r.Compound? && r.fields.Keys == {"Schematic"} && r.fields["Schematic"].Compound?
  {
    var required := map[
      "Version" := Int(t.version),
      "DataVersion" := Int(t.dataVersion),
      "Metadata" := Compound(t.metadata),
      "Width" := Int(t.width),
      "Height" := Int(t.height),
      "Length" := Int(t.length),
      "Offset" := List(IntList(t.offset)),
      "Blocks" := Compound(map[
        "Palette" := Compound(IntCompound(t.blocks.palette)),
        "Data" := ByteArray(t.blocks.data),
        "BlockEntities" := List(t.blocks.blockEntities)])];
    var withBiomes :=
      match t.biomes
      case None => required
      case Some(b) => required["Biomes" := Compound(map["Palette" := Compound(IntCompound(b.palette)), "Data" := ByteArray(b.data)])];
    var withEntities :=
      match t.entities
      case None => withBiomes
      case Some(es) => withBiomes["Entities" := List(es)];
    Compound(map["Schematic" := Compound(withEntities)])
  }

  /** The tree written for a compound records its version under `Schematic`. */
  lemma ToTagVersion(t: SavedV3)
    ensures "Version" !in ToTag(t).fields
    ensures "Version" in ToTag(t).fields["Schematic"].fields
    ensures ToTag(t).fields["Schematic"].fields["Version"] == Int(t.version)
  {
    assert "Version" != "Biomes" && "Version" != "Entities";
  }

  /** A saved tree is routed back to the version 3 parser. */
  lemma BuildV3Dispatches(s: Schematics.Schematic, dateMillis: int)
    requires NonNegative(s.blockData) && NonNegative(s.biomeData)
    requires forall i :: 0 <= i < |s.blockEntities| ==> s.blockEntities[i].properties.Some?
    ensures BuildV3(s, dateMillis).Success?
    ensures Dispatch(ToTag(BuildV3(s, dateMillis).value).fields) == Success(ParseV3)
  {
    BuildV3Fields(s, dateMillis);
    ToTagVersion(BuildV3(s, dateMillis).value);
  }
}
