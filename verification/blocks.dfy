/** `Block` and `BlockEntity` of schempy/schematic.py: a block state is an identifier with
    an optional property dictionary, compared and hashed as a dictionary (insertion order
    ignored) and rendered as the canonical string `id[k1=v1,k2=v2,...]` that serves as the
    key of a palette in the file. */
module Blocks {
  import opened Wrappers
  import opened Errors
  import opened Text

  /** One `key=value` entry of a property dictionary. */
  datatype Property = Property(key: string, value: string)

  /** A block state. `properties` lists the dictionary's entries in insertion order;
      None is Python's `None`, which is different from an empty dictionary. A list with a
      repeated key is no Python dictionary; blocks built by the modelled operations are
      `WellFormed`, and the lemmas about equality ask for it. */
  datatype Block = Block(id: string, properties: Option<seq<Property>>)

  /** A block entity at an integer position, with an optional string dictionary. */
  datatype BlockEntity = BlockEntity(id: string, x: int, y: int, z: int, properties: Option<map<string, string>>)

  function Keys(ps: seq<Property>): set<string>
  {
    set i | 0 <= i < |ps| :: ps[i].key
  }

  /** A property list that is a dictionary: no key occurs twice. */
  predicate DistinctKeys(ps: seq<Property>)
  {
    forall i, j :: 0 <= i < j < |ps| ==> ps[i].key != ps[j].key
  }

  /** A block whose property list is a dictionary. */
  predicate WellFormed(b: Block)
  {
    b.properties.Some? ==> DistinctKeys(b.properties.value)
  }

  /** The dictionary a property list denotes. */
  function AsMap(ps: seq<Property>): map<string, string>
    decreases |ps|
  {
    if |ps| == 0 then map[] else AsMap(ps[1..])[ps[0].key := ps[0].value]
  }

  lemma KeysCons(p: Property, rest: seq<Property>)
    ensures Keys([p] + rest) == {p.key} + Keys(rest)
  {
    var r := [p] + rest;
    assert r[0].key == p.key;
    forall key | key in Keys(r) ensures key in {p.key} + Keys(rest) {
      var i :| 0 <= i < |r| && r[i].key == key;
      if i > 0 { assert rest[i - 1].key == key; }
    }
    forall key | key in Keys(rest) ensures key in Keys(r) {
      var i :| 0 <= i < |rest| && rest[i].key == key;
      assert r[i + 1].key == key;
    }
  }

  /** A dictionary without repeated keys holds exactly its listed entries. */
  lemma {:induction false} AsMapMembership(ps: seq<Property>)
    requires DistinctKeys(ps)
    ensures AsMap(ps).Keys == Keys(ps)
    ensures forall p :: p in ps <==> p.key in AsMap(ps) && AsMap(ps)[p.key] == p.value
    decreases |ps|
  {
    if |ps| > 0 {
      var tail := ps[1..];
      assert DistinctKeys(tail) by {
        forall i, j | 0 <= i < j < |tail| ensures tail[i].key != tail[j].key {
          assert tail[i] == ps[i + 1] && tail[j] == ps[j + 1];
        }
      }
      AsMapMembership(tail);
      assert ps == [ps[0]] + tail;
      KeysCons(ps[0], tail);
      assert ps[0].key !in Keys(tail);
      forall p ensures p in ps <==> p.key in AsMap(ps) && AsMap(ps)[p.key] == p.value {
        if p in tail {
          assert p.key in Keys(tail);
        }
        assert p in ps <==> p == ps[0] || p in tail;
      }
    }
  }

  /** `Block.__eq__`: same id and equal properties, where `None` equals only `None` and
      two dictionaries are equal when they map the same keys to the same values. */
  predicate Same(a: Block, b: Block)
  {
    && a.id == b.id
    && match (a.properties, b.properties)
       case (None, None) => true
       case (Some(p), Some(q)) => AsMap(p) == AsMap(q)
       case _ => false
  }

  /** What `Block.__hash__` hashes: the id and the sorted property items, which carry the
      same information as the property dictionary; no properties and an empty dictionary
      both hash the empty tuple. */
  function HashKey(b: Block): (string, map<string, string>)
  {
    (b.id, if b.properties.None? then map[] else AsMap(b.properties.value))
  }

  /** Equal blocks hash equally, as Python requires of `__eq__` and `__hash__`. */
  lemma EqualBlocksHashEqually(a: Block, b: Block)
    requires Same(a, b)
    ensures HashKey(a) == HashKey(b)
  {
  }

  /** `__eq__` is an equivalence, as the keys of a Python dictionary need. */
  lemma SameIsEquivalence(a: Block, b: Block, c: Block)
    ensures Same(a, a)
    ensures Same(a, b) ==> Same(b, a)
    ensures Same(a, b) && Same(b, c) ==> Same(a, c)
  {
  }

  /** `__hash__` hashes the id and exactly the property items; None and `{}` both hash
      no items. */
  lemma HashKeyItems(b: Block)
    requires WellFormed(b)
    ensures HashKey(b).0 == b.id
    ensures b.properties.None? ==> HashKey(b).1 == map[]
    ensures b.properties.Some? ==>
      && HashKey(b).1.Keys == Keys(b.properties.value)
      && forall p :: p in b.properties.value <==> p.key in HashKey(b).1 && HashKey(b).1[p.key] == p.value
  {
    if b.properties.Some? {
      AsMapMembership(b.properties.value);
    }
  }

  /** Equality compares the property entries as a set, ignoring the order they were
      inserted in, in both directions. */
  lemma SameIffSameEntries(a: Block, b: Block)
    requires WellFormed(a) && WellFormed(b)
    ensures Same(a, b) <==>
      && a.id == b.id
      && a.properties.Some? == b.properties.Some?
      && (a.properties.Some? ==> forall p :: p in a.properties.value <==> p in b.properties.value)
  {
    if a.properties.Some? && b.properties.Some? {
      var p, q := a.properties.value, b.properties.value;
      AsMapMembership(p);
      AsMapMembership(q);
      if forall e :: e in p <==> e in q {
        forall k | k in AsMap(p) ensures k in AsMap(q) && AsMap(p)[k] == AsMap(q)[k] {
          var e := Property(k, AsMap(p)[k]);
          assert e in p;
        }
        forall k | k in AsMap(q) ensures k in AsMap(p) {
          var e := Property(k, AsMap(q)[k]);
          assert e in q;
        }
      }
    }
  }

  /** Two blocks whose property lists are permutations of one another are equal. */
  lemma SameIgnoresOrder(id: string, p: seq<Property>, q: seq<Property>)
    requires DistinctKeys(p) && multiset(p) == multiset(q)
    ensures Same(Block(id, Some(p)), Block(id, Some(q)))
  {
    forall e ensures e in p <==> e in q {
      assert e in p <==> e in multiset(p);
      assert e in q <==> e in multiset(q);
    }
    assert DistinctKeys(q) by {
      forall i, j | 0 <= i < j < |q| ensures q[i].key != q[j].key {
        if q[i].key == q[j].key {
          SameKeySameEntry(p, q[i], q[j]);
          assert multiset(q)[q[i]] >= 2 by {
            assert q == q[..j] + q[j..];
            assert multiset(q) == multiset(q[..j]) + multiset(q[j..]);
            assert q[i] in multiset(q[..j]);
            assert q[j] in multiset(q[j..]);
          }
          MultiplicityOne(p, q[i]);
        }
      }
    }
    SameIffSameEntries(Block(id, Some(p)), Block(id, Some(q)));
  }

  /** In a dictionary, two entries with the same key are the same entry. */
  lemma SameKeySameEntry(p: seq<Property>, a: Property, b: Property)
    requires DistinctKeys(p) && a in p && b in p && a.key == b.key
    ensures a == b
  {
    var i :| 0 <= i < |p| && p[i] == a;
    var j :| 0 <= j < |p| && p[j] == b;
    if i < j {
      assert false;
    } else if j < i {
      assert false;
    }
  }

  lemma {:induction false} MultiplicityOne(p: seq<Property>, e: Property)
    requires DistinctKeys(p)
    ensures multiset(p)[e] <= 1
    decreases |p|
  {
    if |p| > 0 {
      assert p == [p[0]] + p[1..];
      MultiplicityOne(p[1..], e);
      if p[0] == e {
        assert e !in p[1..];
      }
    }
  }

  /** `Block(id, None)` and `Block(id, {})` differ, although they hash and render alike. */
  lemma NoneDiffersFromEmpty(id: string)
    ensures !Same(Block(id, None), Block(id, Some([])))
    ensures HashKey(Block(id, None)) == HashKey(Block(id, Some([])))
    ensures Render(Block(id, None)) == Render(Block(id, Some([])))
  {
  }

  function PropertyText(p: Property): string
  {
    p.key + "=" + p.value
  }

  function PropertyTexts(ps: seq<Property>): (r: seq<string>)
    ensures |r| == |ps|
    ensures forall i :: 0 <= i < |ps| ==> r[i] == PropertyText(ps[i])
    decreases |ps|
  {
    if |ps| == 0 then [] else [PropertyText(ps[0])] + PropertyTexts(ps[1..])
  }

  /** `Block.__str__`: the id alone when there are no properties (None or empty),
      otherwise `id[k1=v1,...]` with the entries in insertion order. */
  function Render(b: Block): string
  {
    match b.properties
    case None => b.id
    case Some(ps) =>
      if |ps| == 0 then b.id else b.id + "[" + Join(PropertyTexts(ps), ',') + "]"
  }

  /** `properties[key] = value`: overwrites the value of an existing key in place,
      otherwise appends a new entry. */
  function Assign(ps: seq<Property>, k: string, v: string): (r: seq<Property>)
    decreases |ps|
  {
    if |ps| == 0 then [Property(k, v)]
    else if ps[0].key == k then [Property(k, v)] + ps[1..]
    else [ps[0]] + Assign(ps[1..], k, v)
  }

  lemma {:induction false} AssignMap(ps: seq<Property>, k: string, v: string)
    ensures AsMap(Assign(ps, k, v)) == AsMap(ps)[k := v]
    decreases |ps|
  {
    if |ps| > 0 {
      var r := Assign(ps, k, v);
      var m := AsMap(ps[1..]);
      if ps[0].key == k {
        assert r[1..] == ps[1..];
        assert AsMap(r) == m[k := v];
        assert m[k := ps[0].value][k := v] == m[k := v];
      } else {
        var rest := Assign(ps[1..], k, v);
        assert r[1..] == rest;
        AssignMap(ps[1..], k, v);
        assert AsMap(r) == m[k := v][ps[0].key := ps[0].value];
        assert m[k := v][ps[0].key := ps[0].value] == m[ps[0].key := ps[0].value][k := v];
      }
    }
  }

  lemma {:induction false} AssignKeys(ps: seq<Property>, k: string, v: string)
    ensures Keys(Assign(ps, k, v)) == Keys(ps) + {k}
    ensures k !in Keys(ps) ==> Assign(ps, k, v) == ps + [Property(k, v)]
    decreases |ps|
  {
    if |ps| == 0 {
      KeysCons(Property(k, v), []);
    } else {
      assert ps == [ps[0]] + ps[1..];
      KeysCons(ps[0], ps[1..]);
      if ps[0].key == k {
        KeysCons(Property(k, v), ps[1..]);
      } else {
        var rest := Assign(ps[1..], k, v);
        AssignKeys(ps[1..], k, v);
        KeysCons(ps[0], rest);
        if k !in Keys(ps) {
          assert [ps[0]] + (ps[1..] + [Property(k, v)]) == ps + [Property(k, v)];
        }
      }
    }
  }

  lemma {:induction false} AssignDistinct(ps: seq<Property>, k: string, v: string)
    requires DistinctKeys(ps)
    ensures DistinctKeys(Assign(ps, k, v))
    decreases |ps|
  {
    if |ps| > 0 {
      var r := Assign(ps, k, v);
      if ps[0].key == k {
        forall i, j | 0 <= i < j < |r| ensures r[i].key != r[j].key {
          assert r[j] == ps[j];
          if i > 0 { assert r[i] == ps[i]; }
        }
      } else {
        var rest := Assign(ps[1..], k, v);
        AssignDistinct(ps[1..], k, v);
        AssignKeys(ps[1..], k, v);
        assert ps[0].key !in Keys(ps[1..]) by {
          forall i | 0 <= i < |ps[1..]| ensures ps[1..][i].key != ps[0].key {
            assert ps[1..][i] == ps[i + 1];
          }
        }
        forall i, j | 0 <= i < j < |r| ensures r[i].key != r[j].key {
          assert r[j] == rest[j - 1];
          if i > 0 {
            assert r[i] == rest[i - 1];
          } else {
            assert r[j].key in Keys(rest);
          }
        }
      }
    }
  }

  /** Assigning a key keeps a dictionary a dictionary: the key is added, its value is
      replaced, no key is repeated, and a new key goes at the end. */
  lemma AssignSpec(ps: seq<Property>, k: string, v: string)
    ensures Keys(Assign(ps, k, v)) == Keys(ps) + {k}
    ensures AsMap(Assign(ps, k, v)) == AsMap(ps)[k := v]
    ensures DistinctKeys(ps) ==> DistinctKeys(Assign(ps, k, v))
    ensures k !in Keys(ps) ==> Assign(ps, k, v) == ps + [Property(k, v)]
  {
    AssignKeys(ps, k, v);
    AssignMap(ps, k, v);
    if DistinctKeys(ps) {
      AssignDistinct(ps, k, v);
    }
  }

  /** Parses `k=v` entries one by one into a property dictionary; an entry that does not
      split into exactly two pieces around `=` fails tuple unpacking with ValueError. */
  function ParseProperties(items: seq<string>, acc: seq<Property>): (r: Result<seq<Property>, Error>)
    ensures r.Failure? ==> r.error == MalformedBlockString
    ensures r.Success? && DistinctKeys(acc) ==> DistinctKeys(r.value)
    ensures r.Success? && |items| > 0 ==> |r.value| >= 1
    decreases |items|
  {
    if |items| == 0 then Success(acc)
    else
      var kv := Split(items[0], '=');
      if |kv| != 2 then Failure(MalformedBlockString)
      else
        AssignSpec(acc, kv[0], kv[1]);
        ParseProperties(items[1..], Assign(acc, kv[0], kv[1]))
  }

  /** Python `s[:-1]`: everything but the last character (nothing of an empty string). */
  function DropLast(s: string): string
  {
    if |s| == 0 then s else s[..|s| - 1]
  }

  /** The block a canonical string denotes, as `Palette.set_palette` parses it: without
      `[` the whole string is the id and there are no properties; otherwise the string
      must split around `[` into exactly two pieces, the last character of the second is
      dropped, and the rest is split at `,` into `k=v` entries. */
  function ParseBlock(s: string): (r: Result<Block, Error>)
    ensures '[' !in s ==> r == Success(Block(s, None))
    ensures r.Failure? ==> r.error == MalformedBlockString && IsValueError(r.error)
    ensures r.Success? ==> WellFormed(r.value)
    ensures r.Success? && '[' in s ==> r.value.properties.Some? && |r.value.properties.value| >= 1
  {
    if '[' !in s then Success(Block(s, None))
    else
      var parts := Split(s, '[');
      if |parts| != 2 then Failure(MalformedBlockString)
      else
        match ParseProperties(Split(DropLast(parts[1]), ','), [])
        case Failure(e) => Failure(e)
        case Success(ps) => Success(Block(parts[0], Some(ps)))
  }

  /** No character of the canonical syntax occurs in the text. */
  predicate Plain(s: string)
  {
    '[' !in s && ',' !in s && '=' !in s
  }

  /** A block whose rendering parses back: the id has no `[`, and the properties are
      None or a non-empty dictionary whose keys and values avoid `[`, `,` and `=`. */
  predicate Renderable(b: Block)
  {
    && '[' !in b.id
    && match b.properties
       case None => true
       case Some(ps) =>
         && |ps| >= 1
         && DistinctKeys(ps)
         && forall i :: 0 <= i < |ps| ==> Plain(ps[i].key) && Plain(ps[i].value)
  }

  lemma {:induction false} ParsePropertyTexts(ps: seq<Property>, acc: seq<Property>)
    requires DistinctKeys(acc + ps)
    requires forall i :: 0 <= i < |ps| ==> Plain(ps[i].key) && Plain(ps[i].value)
    ensures ParseProperties(PropertyTexts(ps), acc) == Success(acc + ps)
    decreases |ps|
  {
    if |ps| == 0 {
      assert acc + ps == acc;
    } else {
      var p := ps[0];
      assert PropertyText(p) == p.key + ['='] + p.value;
      SplitAtFirst(p.key, '=', p.value);
      SplitNoSeparator(p.value, '=');
      forall i | 0 <= i < |acc| ensures acc[i].key != p.key {
        assert (acc + ps)[i] == acc[i];
        assert (acc + ps)[|acc|] == p;
      }
      AssignSpec(acc, p.key, p.value);
      var acc' := acc + [p];
      assert acc' + ps[1..] == acc + ps;
      assert PropertyTexts(ps)[1..] == PropertyTexts(ps[1..]);
      ParsePropertyTexts(ps[1..], acc');
    }
  }

  /** Parsing the rendering of a renderable block gives back that very block. */
  lemma ParseRender(b: Block)
    requires Renderable(b)
    ensures ParseBlock(Render(b)) == Success(b)
  {
    if b.properties.Some? {
      var ps := b.properties.value;
      var texts := PropertyTexts(ps);
      var body := Join(texts, ',');
      forall i | 0 <= i < |texts| ensures ',' !in texts[i] && '[' !in texts[i] {
        assert texts[i] == ps[i].key + "=" + ps[i].value;
      }
      JoinAvoids(texts, ',', '[');
      var s := Render(b);
      assert s == b.id + ['['] + (body + "]");
      assert '[' !in body + "]";
      SplitAtFirst(b.id, '[', body + "]");
      SplitNoSeparator(body + "]", '[');
      assert DropLast(body + "]") == body;
      SplitJoin(texts, ',');
      assert [] + ps == ps;
      ParsePropertyTexts(ps, []);
    }
  }

  /** ParseProperties fails exactly when some entry does not split into key and value. */
  lemma {:induction false} ParsePropertiesFails(items: seq<string>, acc: seq<Property>)
    ensures ParseProperties(items, acc).Failure? <==> exists i :: 0 <= i < |items| && |Split(items[i], '=')| != 2
    decreases |items|
  {
    if |items| > 0 {
      ParsePropertiesFails(items[1..], Assign(acc, Split(items[0], '=')[0], Split(items[0], '=')[|Split(items[0], '=')| - 1]));
      if |Split(items[0], '=')| == 2 {
        if exists i :: 0 <= i < |items| && |Split(items[i], '=')| != 2 {
          var i :| 0 <= i < |items| && |Split(items[i], '=')| != 2;
          assert items[1..][i - 1] == items[i];
        }
      }
    }
  }

  lemma SeveralBrackets(s: string)
    requires Count(s, '[') >= 2
    ensures ParseBlock(s).Failure?
  {
    SplitCount(s, '[');
    assert '[' in s by {
      if '[' !in s { SplitNoSeparator(s, '['); }
    }
  }

  lemma EmptyBrackets(id: string)
    requires '[' !in id
    ensures ParseBlock(id + "[]").Failure?
  {
    SplitAtFirst(id, '[', "]");
    assert id + "[]" == id + ['['] + "]";
    SplitNoSeparator("]", '[');
    assert DropLast("]") == "";
  }

  lemma EntryWithoutEquals(id: string, body: string)
    requires '[' !in id
    requires '[' !in body && ',' !in body && '=' !in body
    ensures ParseBlock(id + "[" + body + "]").Failure?
  {
    var t := id + "[" + body + "]";
    assert t == id + ['['] + (body + "]");
    SplitAtFirst(id, '[', body + "]");
    SplitNoSeparator(body + "]", '[');
    assert DropLast(body + "]") == body;
    SplitNoSeparator(body, ',');
    SplitNoSeparator(body, '=');
  }

  /** The malformed strings `set_palette` rejects with ValueError: more than one `[`,
      empty brackets, and an entry without exactly one `=`. */
  lemma MalformedStrings(id: string, body: string, s: string)
    requires '[' !in id
    ensures Count(s, '[') >= 2 ==> ParseBlock(s).Failure?
    ensures ParseBlock(id + "[]").Failure?
    ensures '[' !in body && ',' !in body && '=' !in body ==> ParseBlock(id + "[" + body + "]").Failure?
  {
    if Count(s, '[') >= 2 {
      SeveralBrackets(s);
    }
    EmptyBrackets(id);
    if '[' !in body && ',' !in body && '=' !in body {
      EntryWithoutEquals(id, body);
    }
  }

}
