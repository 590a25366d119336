/** `Palette` of schempy/schematic.py: a bidirectional table between blocks and integer
    indices. `_block_to_index` is a Python dictionary keyed by `Block`, so lookups use
    block equality (`Blocks.Same`), and assigning to a key that is already present keeps
    the key first stored and replaces only its index. `_index_to_block` is a list that is
    only ever appended to. */
module Palettes {
  import opened Wrappers
  import opened Errors
  import opened Blocks

  /** One key/value pair of `_block_to_index`. */
  datatype Entry = Entry(block: Block, index: int)

  /** `entries` is `_block_to_index` in insertion order; `blocks` is `_index_to_block`. */
  datatype Palette = Palette(entries: seq<Entry>, blocks: seq<Block>)

  const Empty: Palette := Palette([], [])

  /** `_block_to_index.get(b)`: the index stored under the key equal to `b`. */
  function Lookup(entries: seq<Entry>, b: Block): (r: Option<int>)
    ensures r.None? <==> forall i :: 0 <= i < |entries| ==> !Same(entries[i].block, b)
    ensures r.Some? ==> exists i :: 0 <= i < |entries| && Same(entries[i].block, b) && entries[i].index == r.value
    decreases |entries|
  {
    if |entries| == 0 then None
    else if Same(entries[0].block, b) then Some(entries[0].index)
    else
      var r := Lookup(entries[1..], b);
      assert forall i :: 1 <= i < |entries| ==> entries[i] == entries[1..][i - 1];
      r
  }

  /** No two keys of the dictionary are equal blocks. */
  predicate KeysDistinct(entries: seq<Entry>)
  {
    forall i, j :: 0 <= i < j < |entries| ==> !Same(entries[i].block, entries[j].block)
  }

  /** `_block_to_index[b] = index`: replaces the index of an equal key, keeping that key,
      or appends a new entry. */
  function Put(entries: seq<Entry>, b: Block, index: int): seq<Entry>
    decreases |entries|
  {
    if |entries| == 0 then [Entry(b, index)]
    else if Same(entries[0].block, b) then [Entry(entries[0].block, index)] + entries[1..]
    else [entries[0]] + Put(entries[1..], b, index)
  }

  lemma {:induction false} PutFinds(entries: seq<Entry>, b: Block, index: int)
    ensures Lookup(Put(entries, b, index), b) == Some(index)
    decreases |entries|
  {
    if |entries| > 0 && !Same(entries[0].block, b) {
      PutFinds(entries[1..], b, index);
      assert Put(entries, b, index)[1..] == Put(entries[1..], b, index);
    }
  }

  lemma {:induction false} PutOthers(entries: seq<Entry>, b: Block, index: int, c: Block)
    requires !Same(c, b)
    ensures Lookup(Put(entries, b, index), c) == Lookup(entries, c)
    decreases |entries|
  {
    if |entries| > 0 {
      if Same(entries[0].block, b) {
        assert Put(entries, b, index)[1..] == entries[1..];
      } else {
        PutOthers(entries[1..], b, index, c);
        assert Put(entries, b, index)[1..] == Put(entries[1..], b, index);
      }
    }
  }

  lemma {:induction false} PutAppends(entries: seq<Entry>, b: Block, index: int)
    requires Lookup(entries, b).None?
    ensures Put(entries, b, index) == entries + [Entry(b, index)]
    decreases |entries|
  {
    if |entries| > 0 {
      PutAppends(entries[1..], b, index);
      assert [entries[0]] + (entries[1..] + [Entry(b, index)]) == entries + [Entry(b, index)];
    }
  }

  lemma PutLookup(entries: seq<Entry>, b: Block, index: int)
    ensures Lookup(Put(entries, b, index), b) == Some(index)
    ensures forall c :: !Same(c, b) ==> Lookup(Put(entries, b, index), c) == Lookup(entries, c)
    ensures Lookup(entries, b).None? ==> Put(entries, b, index) == entries + [Entry(b, index)]
  {
    PutFinds(entries, b, index);
    forall c | !Same(c, b) ensures Lookup(Put(entries, b, index), c) == Lookup(entries, c) {
      PutOthers(entries, b, index, c);
    }
    if Lookup(entries, b).None? {
      PutAppends(entries, b, index);
    }
  }


  /** Every key after an assignment is `b` or a key from before. */
  lemma {:induction false} PutKeys(entries: seq<Entry>, b: Block, index: int)
    ensures forall j :: 0 <= j < |Put(entries, b, index)| ==>
      Put(entries, b, index)[j].block == b || exists k :: 0 <= k < |entries| && Put(entries, b, index)[j].block == entries[k].block
    decreases |entries|
  {
    if |entries| > 0 {
      var r := Put(entries, b, index);
      PutKeys(entries[1..], b, index);
      forall j | 0 <= j < |r|
        ensures r[j].block == b || exists k :: 0 <= k < |entries| && r[j].block == entries[k].block
      {
        if j == 0 {
          assert r[0].block == entries[0].block;
        } else if Same(entries[0].block, b) {
          assert r[j] == entries[j];
        } else {
          assert r[j] == Put(entries[1..], b, index)[j - 1];
          if r[j].block != b {
            var k :| 0 <= k < |entries[1..]| && r[j].block == entries[1..][k].block;
            assert entries[1..][k] == entries[k + 1];
          }
        }
      }
    }
  }

  lemma {:induction false} PutDistinct(entries: seq<Entry>, b: Block, index: int)
    requires KeysDistinct(entries)
    ensures KeysDistinct(Put(entries, b, index))
    decreases |entries|
  {
    if |entries| > 0 {
      var r := Put(entries, b, index);
      if Same(entries[0].block, b) {
        forall i, j | 0 <= i < j < |r| ensures !Same(r[i].block, r[j].block) {
          assert r[j] == entries[j];
          assert r[i].block == entries[i].block;
        }
      } else {
        var rest := Put(entries[1..], b, index);
        PutDistinct(entries[1..], b, index);
        PutKeys(entries[1..], b, index);
        assert r == [entries[0]] + rest;
        forall i, j | 0 <= i < j < |r| ensures !Same(r[i].block, r[j].block) {
          assert r[j] == rest[j - 1];
          if i > 0 {
            assert r[i] == rest[i - 1];
          } else if rest[j - 1].block != b {
            var k :| 0 <= k < |entries[1..]| && rest[j - 1].block == entries[1..][k].block;
            assert entries[1..][k] == entries[k + 1];
          }
        }
      }
    }
  }

  /** Assignment makes `b` map to `index`, leaves every other key's index alone, keeps the
      keys distinct, and appends when `b` was not yet a key. */
  lemma PutSpec(entries: seq<Entry>, b: Block, index: int)
    ensures Lookup(Put(entries, b, index), b) == Some(index)
    ensures forall c :: !Same(c, b) ==> Lookup(Put(entries, b, index), c) == Lookup(entries, c)
    ensures Lookup(entries, b).None? ==> Put(entries, b, index) == entries + [Entry(b, index)]
    ensures KeysDistinct(entries) ==> KeysDistinct(Put(entries, b, index))
  {
    PutLookup(entries, b, index);
    if KeysDistinct(entries) {
      PutDistinct(entries, b, index);
    }
  }

  /** The invariant `get_id` alone maintains: the dictionary's keys are exactly the
      list's elements, each stored under its own position, and indices run over `0..n-1`. */
  predicate Dense(p: Palette)
  {
    && |p.entries| == |p.blocks|
    && (forall j :: 0 <= j < |p.entries| ==> p.entries[j] == Entry(p.blocks[j], j))
    && KeysDistinct(p.entries)
  }

  /** `get_block`: the block at a list position. Python's negative indexing is not
      modelled, so the position must be in range. */
  function GetBlock(p: Palette, index: int): Block
    requires 0 <= index < |p.blocks|
  {
    p.blocks[index]
  }

  /** `get_id`: a block already present keeps its stored index and the palette does not
      change; a new block gets the next list position and is appended to both tables. */
  function GetId(p: Palette, b: Block): (r: (Palette, int))
    ensures Lookup(r.0.entries, b) == Some(r.1)
    ensures |p.blocks| <= |r.0.blocks| && r.0.blocks[..|p.blocks|] == p.blocks
    ensures Lookup(p.entries, b).Some? ==> r == (p, Lookup(p.entries, b).value)
    ensures Lookup(p.entries, b).None? ==> r.1 == |p.blocks| && r.0.blocks == p.blocks + [b]
  {
    match Lookup(p.entries, b)
    case Some(i) => (p, i)
    case None =>
      PutSpec(p.entries, b, |p.blocks|);
      (Palette(Put(p.entries, b, |p.blocks|), p.blocks + [b]), |p.blocks|)
  }

  /** In a dense palette the dictionary and the list are inverse to each other. */
  lemma DenseLookup(p: Palette, b: Block)
    requires Dense(p)
    ensures Lookup(p.entries, b).None? <==> forall i :: 0 <= i < |p.blocks| ==> !Same(p.blocks[i], b)
    ensures Lookup(p.entries, b).Some? ==>
      var i := Lookup(p.entries, b).value; 0 <= i < |p.blocks| && Same(GetBlock(p, i), b)
  {
    if Lookup(p.entries, b).Some? {
      var i :| 0 <= i < |p.entries| && Same(p.entries[i].block, b) && p.entries[i].index == Lookup(p.entries, b).value;
      assert p.entries[i] == Entry(p.blocks[i], i);
    }
  }

  /** `get_id(get_block(i))` is `i` in a dense palette, and nothing changes. */
  lemma GetIdOfGetBlock(p: Palette, i: int)
    requires Dense(p) && 0 <= i < |p.blocks|
    ensures GetId(p, GetBlock(p, i)) == (p, i)
  {
    assert p.entries[i] == Entry(GetBlock(p, i), i);
  }

  /** `get_id` keeps the palette dense, and `get_block(get_id(b))` is a block equal to `b`. */
  lemma GetIdKeepsDense(p: Palette, b: Block)
    requires Dense(p)
    ensures var (p', i) := GetId(p, b);
      && Dense(p')
      && 0 <= i < |p'.blocks|
      && Same(GetBlock(p', i), b)
      && |p'.blocks| <= |p.blocks| + 1
  {
    DenseLookup(p, b);
    if Lookup(p.entries, b).None? {
      var n := |p.blocks|;
      PutLookup(p.entries, b, n);
      PutDistinct(p.entries, b, n);
      var p' := GetId(p, b).0;
      assert p'.entries == p.entries + [Entry(b, n)];
      forall j | 0 <= j < |p'.entries| ensures p'.entries[j] == Entry(p'.blocks[j], j) {
        if j < n {
          assert p'.entries[j] == p.entries[j];
        }
      }
    }
  }

  /** Asking for the same block twice gives the same index and changes nothing the
      second time. */
  lemma GetIdIdempotent(p: Palette, b: Block)
    ensures var (p', i) := GetId(p, b); GetId(p', b) == (p', i)
  {
  }

  /** On a fresh palette, `get_id` on A, B, A, C returns 0, 1, 0, 2 for pairwise
      different blocks A, B, C. */
  lemma GetIdFirstSeenOrder(a: Block, b: Block, c: Block)
    requires !Same(a, b) && !Same(a, c) && !Same(b, c)
    ensures var (p1, i1) := GetId(Empty, a);
      var (p2, i2) := GetId(p1, b);
      var (p3, i3) := GetId(p2, a);
      var (p4, i4) := GetId(p3, c);
      [i1, i2, i3, i4] == [0, 1, 0, 2] && p4.blocks == [a, b, c]
  {
    var p1 := GetId(Empty, a).0;
    assert p1.entries == [Entry(a, 0)] && p1.blocks == [a];
    assert Lookup(p1.entries, b).None?;
    PutLookup(p1.entries, b, 1);
    var p2 := GetId(p1, b).0;
    assert p2.entries == [Entry(a, 0), Entry(b, 1)] && p2.blocks == [a, b];
    assert Lookup(p2.entries, a) == Some(0);
    assert Lookup(p2.entries, c).None?;
  }

  /** One iteration of `set_palette`: the parsed block is stored in the dictionary under
      the supplied index and appended to the list, whatever the index. */
  function Install(p: Palette, b: Block, index: int): Palette
  {
    Palette(Put(p.entries, b, index), p.blocks + [b])
  }

  /** Parses every string of the mapping in iteration order, pairing each block with its
      supplied index; the first string that does not parse raises ValueError. */
  function ParseAll(input: seq<(string, int)>): Result<seq<Entry>, Error>
    decreases |input|
  {
    if |input| == 0 then Success([])
    else
      match ParseAll(input[..|input| - 1])
      case Failure(e) => Failure(e)
      case Success(init) =>
        match ParseBlock(input[|input| - 1].0)
        case Failure(e) => Failure(e)
        case Success(b) => Success(init + [Entry(b, input[|input| - 1].1)])
  }

  /** All strings of the mapping parse. */
  predicate AllParse(input: seq<(string, int)>)
  {
    forall i :: 0 <= i < |input| ==> ParseBlock(input[i].0).Success?
  }

  lemma {:induction false} ParseAllSpec(input: seq<(string, int)>)
    ensures ParseAll(input).Success? <==> AllParse(input)
    ensures ParseAll(input).Failure? ==> ParseAll(input).error == MalformedBlockString
    ensures ParseAll(input).Success? ==>
      && |ParseAll(input).value| == |input|
      && forall i :: 0 <= i < |input| ==> ParseAll(input).value[i] == Entry(ParseBlock(input[i].0).value, input[i].1)
    decreases |input|
  {
    if |input| > 0 {
      var init := input[..|input| - 1];
      ParseAllSpec(init);
      assert forall i :: 0 <= i < |init| ==> init[i] == input[i];
    }
  }

  /** Installs parsed entries one after another. */
  function InstallAll(p: Palette, parsed: seq<Entry>): Palette
    decreases |parsed|
  {
    if |parsed| == 0 then p
    else
      var last := parsed[|parsed| - 1];
      Install(InstallAll(p, parsed[..|parsed| - 1]), last.block, last.index)
  }

  lemma {:induction false} InstallAllBlocks(p: Palette, parsed: seq<Entry>)
    ensures |InstallAll(p, parsed).blocks| == |p.blocks| + |parsed|
    ensures InstallAll(p, parsed).blocks[..|p.blocks|] == p.blocks
    ensures forall i :: 0 <= i < |parsed| ==> InstallAll(p, parsed).blocks[|p.blocks| + i] == parsed[i].block
    decreases |parsed|
  {
    if |parsed| > 0 {
      var init := parsed[..|parsed| - 1];
      InstallAllBlocks(p, init);
      var before := InstallAll(p, init).blocks;
      var after := InstallAll(p, parsed).blocks;
      assert after == before + [parsed[|parsed| - 1].block];
      assert after[..|p.blocks|] == before[..|p.blocks|];
      forall i | 0 <= i < |parsed| ensures after[|p.blocks| + i] == parsed[i].block {
        if i < |init| {
          assert after[|p.blocks| + i] == before[|p.blocks| + i];
          assert init[i] == parsed[i];
        }
      }
    }
  }

  lemma {:induction false} InstallAllDistinct(p: Palette, parsed: seq<Entry>)
    requires KeysDistinct(p.entries)
    ensures KeysDistinct(InstallAll(p, parsed).entries)
    decreases |parsed|
  {
    if |parsed| > 0 {
      var init := parsed[..|parsed| - 1];
      var last := parsed[|parsed| - 1];
      InstallAllDistinct(p, init);
      PutDistinct(InstallAll(p, init).entries, last.block, last.index);
    }
  }

  /** Equal blocks are the same dictionary key. */
  lemma {:induction false} LookupSame(entries: seq<Entry>, b: Block, c: Block)
    requires Same(b, c)
    ensures Lookup(entries, b) == Lookup(entries, c)
    decreases |entries|
  {
    if |entries| > 0 {
      LookupSame(entries[1..], b, c);
    }
  }

  /** The index a run of assignments leaves under the key `c`: the index of the last
      entry whose block equals `c`, or `before` when there is none. */
  function LastIndex(parsed: seq<Entry>, c: Block, before: Option<int>): Option<int>
    decreases |parsed|
  {
    if |parsed| == 0 then before
    else if Same(parsed[|parsed| - 1].block, c) then Some(parsed[|parsed| - 1].index)
    else LastIndex(parsed[..|parsed| - 1], c, before)
  }

  /** A key no entry equals keeps the index it had. */
  lemma {:induction false} LastIndexUntouched(parsed: seq<Entry>, c: Block, before: Option<int>)
    requires forall i :: 0 <= i < |parsed| ==> !Same(parsed[i].block, c)
    ensures LastIndex(parsed, c, before) == before
    decreases |parsed|
  {
    if |parsed| > 0 {
      var init := parsed[..|parsed| - 1];
      assert forall i :: 0 <= i < |init| ==> init[i] == parsed[i];
      LastIndexUntouched(init, c, before);
    }
  }

  /** After installing entries, every key holds the index supplied last for an equal
      block, and any other key keeps the index it had. */
  lemma {:induction false} InstallAllLookup(p: Palette, parsed: seq<Entry>, c: Block)
    ensures Lookup(InstallAll(p, parsed).entries, c) == LastIndex(parsed, c, Lookup(p.entries, c))
    decreases |parsed|
  {
    if |parsed| > 0 {
      var init := parsed[..|parsed| - 1];
      var last := parsed[|parsed| - 1];
      var q := InstallAll(p, init).entries;
      InstallAllLookup(p, init, c);
      assert InstallAll(p, parsed).entries == Put(q, last.block, last.index);
      if Same(last.block, c) {
        PutFinds(q, last.block, last.index);
        LookupSame(Put(q, last.block, last.index), last.block, c);
      } else {
        PutOthers(q, last.block, last.index, c);
      }
    }
  }

  /** Installing entries appends their blocks in order after the existing list, leaves
      the last supplied index under the last block and under every block equal to it,
      leaves every other key alone, and keeps the keys distinct. */
  lemma InstallAllSpec(p: Palette, parsed: seq<Entry>)
    ensures |InstallAll(p, parsed).blocks| == |p.blocks| + |parsed|
    ensures InstallAll(p, parsed).blocks[..|p.blocks|] == p.blocks
    ensures forall i :: 0 <= i < |parsed| ==> InstallAll(p, parsed).blocks[|p.blocks| + i] == parsed[i].block
    ensures |parsed| > 0 ==>
      Lookup(InstallAll(p, parsed).entries, parsed[|parsed| - 1].block) == Some(parsed[|parsed| - 1].index)
    ensures forall c :: Lookup(InstallAll(p, parsed).entries, c) == LastIndex(parsed, c, Lookup(p.entries, c))
    ensures KeysDistinct(p.entries) ==> KeysDistinct(InstallAll(p, parsed).entries)
  {
    InstallAllBlocks(p, parsed);
    forall c ensures Lookup(InstallAll(p, parsed).entries, c) == LastIndex(parsed, c, Lookup(p.entries, c)) {
      InstallAllLookup(p, parsed, c);
    }
    if |parsed| > 0 {
      var last := parsed[|parsed| - 1];
      PutLookup(InstallAll(p, parsed[..|parsed| - 1]).entries, last.block, last.index);
    }
    if KeysDistinct(p.entries) {
      InstallAllDistinct(p, parsed);
    }
  }

  /** `set_palette`: parses each canonical string in the mapping's iteration order and
      installs it. */
  function SetPalette(p: Palette, input: seq<(string, int)>): Result<Palette, Error>
  {
    match ParseAll(input)
    case Failure(e) => Failure(e)
    case Success(parsed) => Success(InstallAll(p, parsed))
  }

  /** What `set_palette` promises: it succeeds exactly when every string parses, fails
      with ValueError otherwise, appends the parsed blocks to the list in iteration order
      whatever their indices, stores under each key the index supplied last for a string
      parsing to an equal block (a key no string parses to keeps its index), and keeps
      the dictionary's keys distinct. */
  lemma SetPaletteSpec(p: Palette, input: seq<(string, int)>)
    ensures SetPalette(p, input).Success? <==> AllParse(input)
    ensures SetPalette(p, input).Failure? ==> SetPalette(p, input).error == MalformedBlockString
    ensures SetPalette(p, input).Success? ==>
      var q := SetPalette(p, input).value;
      && |q.blocks| == |p.blocks| + |input|
      && q.blocks[..|p.blocks|] == p.blocks
      && (forall i :: 0 <= i < |input| ==> q.blocks[|p.blocks| + i] == ParseBlock(input[i].0).value)
    ensures SetPalette(p, input).Success? && |input| > 0 ==>
      Lookup(SetPalette(p, input).value.entries, ParseBlock(input[|input| - 1].0).value) == Some(input[|input| - 1].1)
    ensures SetPalette(p, input).Success? ==>
      forall c :: Lookup(SetPalette(p, input).value.entries, c) == LastIndex(ParseAll(input).value, c, Lookup(p.entries, c))
    ensures SetPalette(p, input).Success? && KeysDistinct(p.entries) ==> KeysDistinct(SetPalette(p, input).value.entries)
  {
    ParseAllSpec(input);
    if ParseAll(input).Success? {
      var parsed := ParseAll(input).value;
      InstallAllSpec(p, parsed);
      if |input| > 0 {
        assert parsed[|parsed| - 1] == Entry(ParseBlock(input[|input| - 1].0).value, input[|input| - 1].1);
      }
    }
  }

  /** The dictionary `{str(block): index}` built from entries in order; a later entry
      whose block renders to the same string overwrites an earlier one. */
  function RenderedIndices(entries: seq<Entry>): map<string, int>
    decreases |entries|
  {
    if |entries| == 0 then map[]
    else
      var last := entries[|entries| - 1];
      RenderedIndices(entries[..|entries| - 1])[Render(last.block) := last.index]
  }

  /** `get_palette`: each key of the dictionary rendered canonically, with its index. */
  function GetPalette(p: Palette): map<string, int>
  {
    RenderedIndices(p.entries)
  }

  /** Every key of the dictionary renders to a key of `get_palette`. */
  lemma {:induction false} RenderedKeysPresent(entries: seq<Entry>)
    ensures forall j :: 0 <= j < |entries| ==> Render(entries[j].block) in RenderedIndices(entries)
    decreases |entries|
  {
    if |entries| > 0 {
      var init := entries[..|entries| - 1];
      RenderedKeysPresent(init);
      assert forall j :: 0 <= j < |init| ==> init[j] == entries[j];
    }
  }

  /** Every key of `get_palette` is the rendering of a key of the dictionary. */
  lemma {:induction false} RenderedKeysOnly(entries: seq<Entry>)
    ensures forall k :: k in RenderedIndices(entries) ==> exists j :: 0 <= j < |entries| && Render(entries[j].block) == k
    decreases |entries|
  {
    if |entries| > 0 {
      var init := entries[..|entries| - 1];
      var last := entries[|entries| - 1];
      RenderedKeysOnly(init);
      forall k | k in RenderedIndices(entries) ensures exists j :: 0 <= j < |entries| && Render(entries[j].block) == k {
        if k != Render(last.block) {
          assert RenderedIndices(entries) == RenderedIndices(init)[Render(last.block) := last.index];
          assert k in RenderedIndices(init);
          var j :| 0 <= j < |init| && Render(init[j].block) == k;
          assert init[j] == entries[j];
        }
      }
    }
  }

  /** A rendering carries the index of the last key rendering to it. */
  lemma {:induction false} RenderedLastWins(entries: seq<Entry>, j: int)
    requires 0 <= j < |entries|
    requires forall l :: j < l < |entries| ==> Render(entries[l].block) != Render(entries[j].block)
    ensures Render(entries[j].block) in RenderedIndices(entries)
    ensures RenderedIndices(entries)[Render(entries[j].block)] == entries[j].index
    decreases |entries|
  {
    var n := |entries| - 1;
    if j < n {
      var init := entries[..n];
      assert init[j] == entries[j];
      forall l | j < l < |init| ensures Render(init[l].block) != Render(init[j].block) {
        assert init[l] == entries[l];
      }
      RenderedLastWins(init, j);
      assert Render(entries[n].block) != Render(entries[j].block);
    }
  }

  /** The keys of `get_palette` are exactly the renderings of the dictionary's keys, and
      each carries the index of the last key rendering to it. */
  lemma GetPaletteKeys(p: Palette)
    ensures forall j :: 0 <= j < |p.entries| ==> Render(p.entries[j].block) in GetPalette(p)
    ensures forall k :: k in GetPalette(p) ==> exists j :: 0 <= j < |p.entries| && Render(p.entries[j].block) == k
    ensures forall j ::
      (0 <= j < |p.entries| && forall l :: j < l < |p.entries| ==> Render(p.entries[l].block) != Render(p.entries[j].block))
        ==> GetPalette(p)[Render(p.entries[j].block)] == p.entries[j].index
  {
    RenderedKeysPresent(p.entries);
    RenderedKeysOnly(p.entries);
    forall j | 0 <= j < |p.entries| &&
      (forall l :: j < l < |p.entries| ==> Render(p.entries[l].block) != Render(p.entries[j].block))
      ensures GetPalette(p)[Render(p.entries[j].block)] == p.entries[j].index
    {
      RenderedLastWins(p.entries, j);
    }
  }

  /** `get_palette` is empty exactly when the dictionary has no key; it can have fewer
      keys than the dictionary, since different blocks may render alike. */
  lemma {:induction false} GetPaletteEmpty(p: Palette)
    ensures |GetPalette(p)| == 0 <==> |p.entries| == 0
    ensures |GetPalette(p)| <= |p.entries|
    decreases |p.entries|
  {
    if |p.entries| > 0 {
      var init := p.entries[..|p.entries| - 1];
      var last := p.entries[|p.entries| - 1];
      GetPaletteEmpty(Palette(init, p.blocks));
      assert Render(last.block) in GetPalette(p);
      var m := RenderedIndices(init);
      if Render(last.block) in m {
        assert m[Render(last.block) := last.index].Keys == m.Keys;
      } else {
        assert m[Render(last.block) := last.index].Keys == m.Keys + {Render(last.block)};
      }
    }
  }

  /** The Python dictionary a list of key/value pairs in iteration order denotes. */
  function DictOf(input: seq<(string, int)>): map<string, int>
    decreases |input|
  {
    if |input| == 0 then map[]
    else DictOf(input[..|input| - 1])[input[|input| - 1].0 := input[|input| - 1].1]
  }

  /** Entries whose blocks are pairwise different. */
  predicate PairwiseDifferent(parsed: seq<Entry>)
  {
    forall i, j :: 0 <= i < j < |parsed| ==> !Same(parsed[i].block, parsed[j].block)
  }

  /** Installing pairwise different blocks into a fresh palette stores exactly the
      given entries, in order. */
  lemma {:induction false} InstallAllFresh(parsed: seq<Entry>)
    requires PairwiseDifferent(parsed)
    ensures InstallAll(Empty, parsed).entries == parsed
    decreases |parsed|
  {
    if |parsed| > 0 {
      var init := parsed[..|parsed| - 1];
      var last := parsed[|parsed| - 1];
      assert PairwiseDifferent(init) by {
        forall i, j | 0 <= i < j < |init| ensures !Same(init[i].block, init[j].block) {
          assert init[i] == parsed[i] && init[j] == parsed[j];
        }
      }
      InstallAllFresh(init);
      forall i | 0 <= i < |init| ensures !Same(init[i].block, last.block) {
        assert init[i] == parsed[i];
      }
      PutLookup(init, last.block, last.index);
      assert InstallAll(Empty, parsed).entries == Put(init, last.block, last.index);
      assert init + [last] == parsed;
    }
  }

  /** Palette strings already in canonical form: each parses, renders back to itself, and
      no two parse to equal blocks. */
  predicate Canonical(input: seq<(string, int)>)
  {
    && AllParse(input)
    && (forall i :: 0 <= i < |input| ==> Render(ParseBlock(input[i].0).value) == input[i].0)
    && (forall i, j :: 0 <= i < j < |input| ==> !Same(ParseBlock(input[i].0).value, ParseBlock(input[j].0).value))
  }

  /** Entries that render to the strings of a mapping, with its indices, in its order,
      give back that mapping. */
  lemma {:induction false} RenderedIndicesOf(entries: seq<Entry>, input: seq<(string, int)>)
    requires |entries| == |input|
    requires forall i :: 0 <= i < |input| ==> Render(entries[i].block) == input[i].0 && entries[i].index == input[i].1
    ensures RenderedIndices(entries) == DictOf(input)
    decreases |input|
  {
    if |input| > 0 {
      RenderedIndicesOf(entries[..|entries| - 1], input[..|input| - 1]);
    }
  }

  /** `get_palette` after `set_palette` on a fresh palette gives back the mapping that was
      loaded, indices included, however sparse or out of order they are; the dictionary
      holds one entry per string, in iteration order. */
  lemma SetThenGetPalette(input: seq<(string, int)>)
    requires Canonical(input)
    ensures SetPalette(Empty, input).Success?
    ensures GetPalette(SetPalette(Empty, input).value) == DictOf(input)
    ensures SetPalette(Empty, input).value.entries == ParseAll(input).value
  {
    ParseAllSpec(input);
    var parsed := ParseAll(input).value;
    InstallAllFresh(parsed);
    RenderedIndicesOf(parsed, input);
  }

  lemma StoneDirtCanonical()
    ensures ParseBlock("stone") == Success(Block("stone", None))
    ensures ParseBlock("dirt") == Success(Block("dirt", None))
    ensures Canonical([("stone", 5), ("dirt", 2)])
  {
    assert '[' !in "stone" && '[' !in "dirt";
    assert !Same(Block("stone", None), Block("dirt", None));
  }

  /** Loading `{X: 5, Y: 2}` keeps 5 and 2 in the dictionary but puts X at list position
      0 and Y at 1, so the palette is not dense and `get_block(5)` would be out of range. */
  lemma SetPaletteKeepsIterationOrder()
    ensures var r := SetPalette(Empty, [("stone", 5), ("dirt", 2)]);
      && r.Success?
      && r.value.blocks == [Block("stone", None), Block("dirt", None)]
      && GetPalette(r.value) == map["stone" := 5, "dirt" := 2]
      && !Dense(r.value)
  {
    var input: seq<(string, int)> := [("stone", 5), ("dirt", 2)];
    StoneDirtCanonical();
    SetThenGetPalette(input);
    SetPaletteSpec(Empty, input);
    ParseAllSpec(input);
    var r := SetPalette(Empty, input).value;
    assert r.entries[0] == Entry(Block("stone", None), 5);
    assert input[..1] == [("stone", 5)] && |input[..1][..0]| == 0;
    assert DictOf(input) == map["stone" := 5, "dirt" := 2];
  }

  /** Loading `{air: 0, stone: 1}` into a palette already seeded with air, as the
      constructor leaves it, appends air a second time: the dictionary says stone is 1,
      but list position 1 holds air and stone lands at position 2. */
  lemma LoadIntoSeededPalette()
    ensures var air := Block("air", None);
      var stone := Block("stone", None);
      var r := SetPalette(Palette([Entry(air, 0)], [air]), [("air", 0), ("stone", 1)]);
      && r.Success?
      && r.value.blocks == [air, air, stone]
      && Lookup(r.value.entries, stone) == Some(1)
      && Lookup(r.value.entries, air) == Some(0)
      && GetBlock(r.value, 1) == air
      && !Dense(r.value)
  {
    var air := Block("air", None);
    var stone := Block("stone", None);
    var p := Palette([Entry(air, 0)], [air]);
    var input: seq<(string, int)> := [("air", 0), ("stone", 1)];
    assert '[' !in "air" && '[' !in "stone";
    assert !Same(air, stone);
    ParseAllSpec(input);
    SetPaletteSpec(p, input);
    var parsed := ParseAll(input).value;
    assert parsed == [Entry(air, 0), Entry(stone, 1)];
    assert parsed[..1] == [Entry(air, 0)];
    assert LastIndex(parsed, stone, Lookup(p.entries, stone)) == Some(1);
    assert LastIndex(parsed, air, Lookup(p.entries, air)) == Some(0);
  }
}
