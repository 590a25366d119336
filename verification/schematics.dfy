/** `Schematic` of schempy/schematic.py: a box of `width` x `height` x `length` cells,
    each holding an index into a block palette, together with block entities, a biome
    grid and descriptive fields. numpy allocates the grids with shape
    `(length, height, width)` but the accessors subscript them as `[x, y, z]` while
    checking `x < width` and `z < length`; the flat, row-major grid below keeps exactly
    that layout, so a coordinate can pass the bounds check and still fall outside the
    buffer when the footprint is not square. */
module Schematics {
  import opened Wrappers
  import opened Errors
  import opened Blocks
  import opened Shorts
  import Palettes
  import Nbt

  datatype Schematic = Schematic(
    width: nat,
    height: nat,
    length: nat,
    offset: seq<int>,
    dataVersion: int,
    name: string,
    author: string,
    requiredMods: seq<string>,
    metadata: map<string, string>,
    blockPalette: Palettes.Palette,
    blockData: seq<int>,
    blockEntities: seq<BlockEntity>,
    biomePalette: Palettes.Palette,
    biomeData: seq<int>,
    entities: seq<Nbt.Tag>)

  /** The outcome of a mutator that can raise after it has already changed part of the
      state: the state as the exception leaves it, and the exception if any. */
  datatype Step = Step(state: Schematic, raised: Option<Error>)

  /** Number of cells of either grid, the product of the numpy shape. */
  function CellCount(s: Schematic): nat
  {
    s.length * (s.height * s.width)
  }

  /** The box `_check_coordinates` accepts. */
  predicate InBounds(s: Schematic, x: int, y: int, z: int)
  {
    0 <= x < s.width && 0 <= y < s.height && 0 <= z < s.length
  }

  /** The subscripts numpy accepts on an array of shape `(length, height, width)`
      indexed `[x, y, z]` (for non-negative coordinates). */
  predicate InGrid(s: Schematic, x: int, y: int, z: int)
  {
    0 <= x < s.length && 0 <= y < s.height && 0 <= z < s.width
  }

  lemma RowBound(y: nat, z: nat, h: nat, w: nat)
    requires y < h && z < w
    ensures y * w + z < h * w
  {
    assert y * w + z < (y + 1) * w;
    assert (y + 1) * w <= h * w;
  }

  lemma CellIndexBounds(l: nat, h: nat, w: nat, x: nat, y: nat, z: nat)
    requires x < l && y < h && z < w
    ensures x * (h * w) + y * w + z < l * (h * w)
  {
    RowBound(y, z, h, w);
    RowBound(x, y * w + z, l, h * w);
  }

  /** Row-major position of `[x, y, z]` in the buffer. */
  function CellIndex(s: Schematic, x: int, y: int, z: int): (r: nat)
    requires InGrid(s, x, y, z)
    ensures r < CellCount(s)
  {
    CellIndexBounds(s.length, s.height, s.width, x, y, z);
    x * (s.height * s.width) + y * s.width + z
  }

  lemma MixedRadixUnique(hi: nat, lo: nat, hi': nat, lo': nat, base: nat)
    requires lo < base && lo' < base
    requires hi * base + lo == hi' * base + lo'
    ensures hi == hi' && lo == lo'
  {
    if hi < hi' {
      RowBound(hi, lo, hi', base);
      assert false;
    } else if hi' < hi {
      RowBound(hi', lo', hi, base);
      assert false;
    }
  }

  /** Different cells occupy different positions of the buffer. */
  lemma CellIndexInjective(s: Schematic, x: int, y: int, z: int, x': int, y': int, z': int)
    requires InGrid(s, x, y, z) && InGrid(s, x', y', z')
    requires (x, y, z) != (x', y', z')
    ensures CellIndex(s, x, y, z) != CellIndex(s, x', y', z')
  {
    var w := s.width;
    var row, row' := y * w + z, y' * w + z';
    RowBound(y, z, s.height, w);
    RowBound(y', z', s.height, w);
    if x * (s.height * w) + row == x' * (s.height * w) + row' {
      MixedRadixUnique(x, row, x', row', s.height * w);
      MixedRadixUnique(y, z, y', z', w);
    }
  }

  /** The invariant the constructor establishes and the mutators keep: 16-bit
      dimensions, grids of the declared size, a dense block palette every block cell
      indexes into, non-negative biome cells, and block entities inside the box. */
  predicate Valid(s: Schematic)
  {
    && s.width < ShortModulus && s.height < ShortModulus && s.length < ShortModulus
    && |s.offset| == 3
    && |s.blockData| == CellCount(s)
    && |s.biomeData| == CellCount(s)
    && Palettes.Dense(s.blockPalette)
    && (forall i :: 0 <= i < |s.blockData| ==> 0 <= s.blockData[i] < |s.blockPalette.blocks|)
    && (forall i :: 0 <= i < |s.biomeData| ==> 0 <= s.biomeData[i])
    && (forall e :: e in s.blockEntities ==> InBounds(s, e.x, e.y, e.z))
  }

  /** `Schematic.__init__`: each dimension goes through `to_unsigned_short` (width, then
      height, then length); the block palette is seeded with air, both grids are zero,
      and `airId` and `dataVersion` stand for MINECRAFT_AIR and DATA_VERSION. */
  function New(width: int, height: int, length: int, airId: string, dataVersion: int): (r: Result<Schematic, Error>)
    ensures r.Success? <==> 0 <= width < ShortModulus && 0 <= height < ShortModulus && 0 <= length < ShortModulus
    ensures r.Failure? ==> r.error == ShortOutOfRange
    ensures r.Success? ==>
      var s := r.value;
      && (s.width, s.height, s.length) == (width, height, length)
      && Valid(s)
      && s.blockPalette.blocks == [Block(airId, None)]
      && (forall i :: 0 <= i < |s.blockData| ==> s.blockData[i] == 0)
      && (forall i :: 0 <= i < |s.biomeData| ==> s.biomeData[i] == 0)
      && s.biomePalette == Palettes.Empty
      && s.offset == [0, 0, 0]
      && s.blockEntities == []
      && s.entities == []
  {
    match ToUnsignedShort(width)
    case Failure(e) => Failure(e)
    case Success(w) =>
      match ToUnsignedShort(height)
      case Failure(e) => Failure(e)
      case Success(h) =>
        match ToUnsignedShort(length)
        case Failure(e) => Failure(e)
        case Success(l) =>
          var air := Block(airId, None);
          var (palette, _) := Palettes.GetId(Palettes.Empty, air);
          assert palette == Palettes.Palette([Palettes.Entry(air, 0)], [air]);
          var cells := l * (h * w);
          Success(Schematic(w, h, l, [0, 0, 0], dataVersion, "My Schematic", "SchemPy", [], map[],
                            palette, seq(cells, _ => 0), [], Palettes.Empty, seq(cells, _ => 0), []))
  }

  /** `_check_coordinates`: raises ValueError exactly outside the box. */
  function CheckCoordinates(s: Schematic, x: int, y: int, z: int): (r: Option<Error>)
    ensures r.None? <==> 0 <= x < s.width && 0 <= y < s.height && 0 <= z < s.length
    ensures r.Some? ==> r.value == CoordinatesOutOfRange && IsValueError(r.value)
  {
    if InBounds(s, x, y, z) then None else Some(CoordinatesOutOfRange)
  }

  /** `get_block`: the bounds check, then numpy's subscript, then the palette list. */
  function GetBlock(s: Schematic, x: int, y: int, z: int): (r: Result<Block, Error>)
    requires Valid(s)
    ensures r.Success? <==> InBounds(s, x, y, z) && InGrid(s, x, y, z)
    ensures !InBounds(s, x, y, z) ==> r == Failure(CoordinatesOutOfRange)
    ensures InBounds(s, x, y, z) && !InGrid(s, x, y, z) ==> r == Failure(GridIndexError)
    ensures r.Success? ==> r.value in s.blockPalette.blocks
  {
    match CheckCoordinates(s, x, y, z)
    case Some(e) => Failure(e)
    case None =>
      if !InGrid(s, x, y, z) then Failure(GridIndexError)
      else Success(Palettes.GetBlock(s.blockPalette, s.blockData[CellIndex(s, x, y, z)]))
  }

  /** `set_block`: after the bounds check, the right-hand side `get_id(block)` runs
      before numpy's subscripted store, so a store that raises IndexError leaves the
      palette already extended by the new block. */
  function SetBlock(s: Schematic, x: int, y: int, z: int, b: Block): (r: Step)
    requires |s.blockData| == CellCount(s)
    ensures !InBounds(s, x, y, z) ==> r == Step(s, Some(CoordinatesOutOfRange))
    ensures InBounds(s, x, y, z) ==> r.state.blockPalette == Palettes.GetId(s.blockPalette, b).0
    ensures r.raised.None? <==> InBounds(s, x, y, z) && InGrid(s, x, y, z)
    ensures InBounds(s, x, y, z) && !InGrid(s, x, y, z) ==>
      r.raised == Some(GridIndexError) && r.state.blockData == s.blockData
    ensures r.state.(blockPalette := s.blockPalette, blockData := s.blockData) == s
    ensures |r.state.blockData| == |s.blockData|
  {
    match CheckCoordinates(s, x, y, z)
    case Some(e) => Step(s, Some(e))
    case None =>
      var (palette, id) := Palettes.GetId(s.blockPalette, b);
      var s' := s.(blockPalette := palette);
      if !InGrid(s, x, y, z) then Step(s', Some(GridIndexError))
      else Step(s'.(blockData := s.blockData[CellIndex(s, x, y, z) := id]), None)
  }

  /** `add_block_entity`: appends the entity when its position is inside the box. */
  function AddBlockEntity(s: Schematic, e: BlockEntity): (r: Result<Schematic, Error>)
    ensures r.Success? <==> 0 <= e.x < s.width && 0 <= e.y < s.height && 0 <= e.z < s.length
    ensures r.Failure? ==> r.error == CoordinatesOutOfRange
    ensures r.Success? ==> r.value.blockEntities == s.blockEntities + [e]
    ensures r.Success? ==> r.value.(blockEntities := s.blockEntities) == s
  {
    match CheckCoordinates(s, e.x, e.y, e.z)
    case Some(err) => Failure(err)
    case None => Success(s.(blockEntities := s.blockEntities + [e]))
  }

  /** `set_block` keeps the invariant, whether or not numpy's store raises. */
  lemma SetBlockKeepsValid(s: Schematic, x: int, y: int, z: int, b: Block)
    requires Valid(s)
    ensures Valid(SetBlock(s, x, y, z, b).state)
  {
    var r := SetBlock(s, x, y, z, b);
    if InBounds(s, x, y, z) {
      var (p', id) := Palettes.GetId(s.blockPalette, b);
      Palettes.GetIdKeepsDense(s.blockPalette, b);
      assert r.state.blockPalette == p';
      if InGrid(s, x, y, z) {
        assert r.state.blockData == s.blockData[CellIndex(s, x, y, z) := id];
        CellsBelow(s.blockData, CellIndex(s, x, y, z), id, |p'.blocks|, r.state.blockData);
      } else {
        assert r.state.blockData == s.blockData;
      }
      assert r.state == s.(blockPalette := p', blockData := r.state.blockData);
    }
  }

  /** Storing an index below `n` into cells that are all below `n` keeps them so. */
  lemma CellsBelow(data: seq<int>, k: int, id: int, n: int, data': seq<int>)
    requires 0 <= k < |data| && 0 <= id < n && data' == data[k := id]
    requires forall i :: 0 <= i < |data| ==> 0 <= data[i] < n
    ensures forall i :: 0 <= i < |data'| ==> 0 <= data'[i] < n
  {
  }

  /** `add_block_entity` keeps the invariant. */
  lemma AddBlockEntityKeepsValid(s: Schematic, e: BlockEntity)
    requires Valid(s)
    ensures AddBlockEntity(s, e).Success? ==> Valid(AddBlockEntity(s, e).value)
  {
  }

  /** Setting a block and reading the same cell back gives a block equal to the one set
      (the palette may hold an equal block stored earlier). */
  lemma SetThenGet(s: Schematic, x: int, y: int, z: int, b: Block)
    requires Valid(s)
    requires InBounds(s, x, y, z) && InGrid(s, x, y, z)
    ensures SetBlock(s, x, y, z, b).raised.None?
    ensures Valid(SetBlock(s, x, y, z, b).state)
    ensures GetBlock(SetBlock(s, x, y, z, b).state, x, y, z).Success?
    ensures Same(GetBlock(SetBlock(s, x, y, z, b).state, x, y, z).value, b)
  {
    SetBlockKeepsValid(s, x, y, z, b);
    Palettes.GetIdKeepsDense(s.blockPalette, b);
  }

  /** Two schematics of the same size read alike at a coordinate when the cell there
      is the same and the palette list only grew. */
  lemma ReadsAgree(s: Schematic, s': Schematic, x: int, y: int, z: int)
    requires Valid(s) && Valid(s')
    requires (s'.width, s'.height, s'.length) == (s.width, s.height, s.length)
    requires s.blockPalette.blocks <= s'.blockPalette.blocks
    requires InGrid(s, x, y, z) ==> s'.blockData[CellIndex(s, x, y, z)] == s.blockData[CellIndex(s, x, y, z)]
    ensures GetBlock(s', x, y, z) == GetBlock(s, x, y, z)
  {
  }

  /** `set_block` changes no other cell: every other coordinate reads back as before,
      errors included, whether or not the store itself raised. */
  lemma SetBlockLeavesOthers(s: Schematic, x: int, y: int, z: int, b: Block, x': int, y': int, z': int)
    requires Valid(s)
    requires (x, y, z) != (x', y', z')
    ensures Valid(SetBlock(s, x, y, z, b).state)
    ensures GetBlock(SetBlock(s, x, y, z, b).state, x', y', z') == GetBlock(s, x', y', z')
  {
    SetBlockKeepsValid(s, x, y, z, b);
    if InBounds(s, x, y, z) && InGrid(s, x, y, z) && InGrid(s, x', y', z') {
      CellIndexInjective(s, x, y, z, x', y', z');
    }
    ReadsAgree(s, SetBlock(s, x, y, z, b).state, x', y', z');
  }

  /** When the footprint is square the bounds check and numpy agree, so every accepted
      coordinate can be stored and read. */
  lemma SquareFootprint(s: Schematic, x: int, y: int, z: int)
    requires s.width == s.length
    ensures InBounds(s, x, y, z) <==> InGrid(s, x, y, z)
  {
  }

  /** A fresh schematic reads air in every cell numpy can reach. */
  lemma FreshIsAir(width: int, height: int, length: int, airId: string, dataVersion: int, x: int, y: int, z: int)
    requires New(width, height, length, airId, dataVersion).Success?
    requires InBounds(New(width, height, length, airId, dataVersion).value, x, y, z)
    requires InGrid(New(width, height, length, airId, dataVersion).value, x, y, z)
    ensures GetBlock(New(width, height, length, airId, dataVersion).value, x, y, z) == Success(Block(airId, None))
  {
    var s := New(width, height, length, airId, dataVersion).value;
    assert s.blockData[CellIndex(s, x, y, z)] == 0;
  }

  /** The constructor leaves the block palette holding air alone, at index 0, in both
      tables; the file loaders call `set_palette` on this palette. */
  lemma FreshPaletteSeeded(width: int, height: int, length: int, airId: string, dataVersion: int)
    requires New(width, height, length, airId, dataVersion).Success?
    ensures New(width, height, length, airId, dataVersion).value.blockPalette
      == Palettes.Palette([Palettes.Entry(Block(airId, None), 0)], [Block(airId, None)])
  {
    var p := New(width, height, length, airId, dataVersion).value.blockPalette;
    assert p.entries[0] == Palettes.Entry(p.blocks[0], 0);
  }

  /** On a 2 x 1 x 1 schematic, `[1, 0, 0]` passes the bounds check but lies outside
      the buffer of shape (1, 1, 2): reading raises IndexError, and writing a new block
      raises IndexError after the block has joined the palette. */
  lemma AxisMismatch(airId: string, dataVersion: int, b: Block)
    requires !Same(b, Block(airId, None))
    ensures var s := New(2, 1, 1, airId, dataVersion).value;
      && InBounds(s, 1, 0, 0)
      && GetBlock(s, 1, 0, 0) == Failure(GridIndexError)
      && SetBlock(s, 1, 0, 0, b).raised == Some(GridIndexError)
      && SetBlock(s, 1, 0, 0, b).state.blockPalette.blocks == [Block(airId, None), b]
  {
    var s := New(2, 1, 1, airId, dataVersion).value;
    Palettes.DenseLookup(s.blockPalette, b);
  }
}
