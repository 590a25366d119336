/** The unsigned base-128 varint codec of schempy/utils.py (unsigned LEB128, section 7.6
    of DWARF 5): each number is written as 7-bit groups, low-order group first, with the
    high bit of a byte set exactly when another byte of the same number follows. The
    block and biome grids are stored in the file as the concatenation of the encodings of
    their palette indices. */
module Varint {
  import opened Wrappers
  import opened Errors

  newtype uint8 = x: int | 0 <= x < 256

  /** `byte & 0b10000000 != 0`: another byte of the same number follows. */
  predicate HasNext(b: uint8) {
    b >= 128
  }

  /** `byte & 0b01111111`: the 7 data bits of a byte. */
  function Low7(b: uint8): nat {
    (b % 128) as nat
  }

  function Pow2(n: nat): (r: nat)
    ensures r >= 1
  {
    if n == 0 then 1 else 2 * Pow2(n - 1)
  }

  lemma {:induction false} Pow2Add(a: nat, b: nat)
    ensures Pow2(a + b) == Pow2(a) * Pow2(b)
    decreases a
  {
    if a > 0 {
      Pow2Add(a - 1, b);
    }
  }

  lemma Pow2Add7(n: nat)
    ensures Pow2(n + 7) == 128 * Pow2(n)
  {
    Pow2Add(n, 7);
    assert Pow2(7) == 128;
  }

  /** `x << k` on a non-negative integer. */
  function ShiftLeft(x: nat, k: nat): (r: nat)
  {
    if k == 0 then x else 2 * ShiftLeft(x, k - 1)
  }

  lemma {:induction false} ShiftLeftIsProduct(x: nat, k: nat)
    ensures ShiftLeft(x, k) == x * Pow2(k)
    decreases k
  {
    if k > 0 {
      ShiftLeftIsProduct(x, k - 1);
    }
  }

  /** `a | b` on non-negative integers, one bit at a time from the lowest. */
  function Or(a: nat, b: nat): nat
    decreases a + b
  {
    if a == 0 then b
    else if b == 0 then a
    else 2 * Or(a / 2, b / 2) + (if a % 2 == 1 || b % 2 == 1 then 1 else 0)
  }

  /** OR-ing in a group shifted above every set bit of the accumulator is an addition. */
  lemma {:induction false} OrDisjoint(a: nat, g: nat, k: nat)
    requires a < Pow2(k)
    ensures Or(a, ShiftLeft(g, k)) == a + ShiftLeft(g, k)
    decreases k
  {
    if k > 0 && a > 0 && ShiftLeft(g, k) > 0 {
      OrDisjoint(a / 2, g, k - 1);
    }
  }

  /** The number denoted by a run of bytes read as 7-bit groups, low-order group first. */
  function GroupValue(bs: seq<uint8>): nat
  {
    if |bs| == 0 then 0 else Low7(bs[0]) + 128 * GroupValue(bs[1..])
  }

  /** A run of `k` groups stays below 2^(7k): the groups occupy disjoint bit ranges. */
  lemma {:induction false} GroupValueBound(bs: seq<uint8>)
    ensures GroupValue(bs) < Pow2(7 * |bs|)
    decreases |bs|
  {
    if |bs| > 0 {
      GroupValueBound(bs[1..]);
      Pow2Add7(7 * (|bs| - 1));
    }
  }

  lemma Distribute(g: nat, l: nat, p: nat)
    ensures 128 * (g + l * p) == 128 * g + l * (128 * p)
  {
  }

  /** Appending a byte adds its group at bit offset 7 times the bytes already read. */
  lemma {:induction false} GroupValueSnoc(bs: seq<uint8>, b: uint8)
    ensures GroupValue(bs + [b]) == GroupValue(bs) + Low7(b) * Pow2(7 * |bs|)
    decreases |bs|
  {
    if |bs| > 0 {
      var c := bs + [b];
      assert c[0] == bs[0];
      assert c[1..] == bs[1..] + [b];
      GroupValueSnoc(bs[1..], b);
      Pow2Add7(7 * (|bs| - 1));
      var p := Pow2(7 * (|bs| - 1));
      var g := GroupValue(bs[1..]);
      assert GroupValue(c) == Low7(bs[0]) + 128 * GroupValue(c[1..]);
      assert GroupValue(c[1..]) == g + Low7(b) * p;
      Distribute(g, Low7(b), p);
    }
  }

  /** The size bounds of one more byte: if `value / 128` takes exactly `n` groups,
      `value` takes exactly `n + 1`. */
  lemma EncodeLength(value: nat, n: nat)
    requires value >= 128 && n >= 1
    requires value / 128 < Pow2(7 * n)
    requires n > 1 ==> Pow2(7 * (n - 1)) <= value / 128
    ensures value < Pow2(7 * (n + 1))
    ensures Pow2(7 * n) <= value
  {
    var q := value / 128;
    Pow2Add7(7 * n);
    assert 7 * (n + 1) == 7 * n + 7;
    assert value < 128 * q + 128 <= 128 * Pow2(7 * n);
    if n > 1 {
      Pow2Add7(7 * (n - 1));
      assert 7 * (n - 1) + 7 == 7 * n;
      assert 128 * Pow2(7 * (n - 1)) <= 128 * q;
    } else {
      Pow2Add7(0);
    }
  }

  /** `encode_varint(value)` for `value >= 0`: emit the low 7 bits, shift right by 7, and
      set the high bit on the byte just emitted when the shifted value is non-zero. For a
      non-negative value `value & 0x7f` is `value % 128` and `value >> 7` is `value / 128`.
      The encoding is never empty, only its last byte has the high bit clear, it denotes
      `value`, and it has the fewest bytes that can hold `value`. */
  function EncodeVarint(value: nat): (r: seq<uint8>)
    ensures |r| >= 1
    ensures forall i :: 0 <= i < |r| - 1 ==> HasNext(r[i])
    ensures !HasNext(r[|r| - 1])
    ensures GroupValue(r) == value
    decreases value
  {
    if value < 128 then
      [value as uint8]
    else
      var rest := EncodeVarint(value / 128);
      var r := [(value % 128 + 128) as uint8] + rest;
      assert r[1..] == rest;
      r
  }

  /** The encoding has the fewest bytes that can hold the value: `k` bytes hold values
      below 2^(7k), and one byte fewer would not do. */
  lemma {:induction false} EncodeVarintLength(value: nat)
    ensures value < Pow2(7 * |EncodeVarint(value)|)
    ensures |EncodeVarint(value)| > 1 ==> Pow2(7 * (|EncodeVarint(value)| - 1)) <= value
    decreases value
  {
    GroupValueBound(EncodeVarint(value));
    if value >= 128 {
      EncodeVarintLength(value / 128);
      var n := |EncodeVarint(value / 128)|;
      assert |EncodeVarint(value)| == n + 1;
      EncodeLength(value, n);
    }
  }

  /** A byte stream in which no number is left open: empty, or ending in a byte whose
      high bit is clear. */
  predicate Complete(bs: seq<uint8>) {
    |bs| == 0 || !HasNext(bs[|bs| - 1])
  }

  /** The number of bytes with the high bit clear, i.e. of numbers the stream closes. */
  function CountEnds(bs: seq<uint8>): nat
  {
    if |bs| == 0 then 0 else (if HasNext(bs[0]) then 0 else 1) + CountEnds(bs[1..])
  }

  lemma {:induction false} CountEndsAppend(a: seq<uint8>, b: seq<uint8>)
    ensures CountEnds(a + b) == CountEnds(a) + CountEnds(b)
    decreases |a|
  {
    if |a| == 0 {
      assert a + b == b;
    } else {
      assert (a + b)[0] == a[0];
      assert (a + b)[1..] == a[1..] + b;
      CountEndsAppend(a[1..], b);
    }
  }

  /** Reads one number from the front of `bs`: its value and the count of bytes it spans,
      or None when every byte of `bs` has the high bit set. */
  function TakeGroup(bs: seq<uint8>): (r: Option<(nat, nat)>)
    ensures r.Some? ==> 1 <= r.value.1 <= |bs|
    decreases |bs|
  {
    if |bs| == 0 then None
    else if !HasNext(bs[0]) then Some((Low7(bs[0]), 1))
    else
      match TakeGroup(bs[1..])
      case None => None
      case Some((v, n)) => Some((Low7(bs[0]) + 128 * v, n + 1))
  }

  /** TakeGroup finds nothing exactly when every byte has the high bit set; otherwise it
      reads up to and including the first byte whose high bit is clear, and returns the
      number those bytes denote. */
  lemma {:induction false} TakeGroupSpec(bs: seq<uint8>)
    ensures TakeGroup(bs).None? <==> forall i :: 0 <= i < |bs| ==> HasNext(bs[i])
    ensures TakeGroup(bs).Some? ==>
      var (v, n) := TakeGroup(bs).value;
      && 1 <= n <= |bs|
      && !HasNext(bs[n - 1])
      && (forall i :: 0 <= i < n - 1 ==> HasNext(bs[i]))
      && v == GroupValue(bs[..n])
    decreases |bs|
  {
    if |bs| == 0 {
    } else if !HasNext(bs[0]) {
      assert bs[..1][1..] == [];
    } else {
      TakeGroupSpec(bs[1..]);
      match TakeGroup(bs[1..])
      case None =>
        assert forall i :: 0 <= i < |bs| ==> HasNext(bs[i]) by {
          forall i | 0 <= i < |bs|
            ensures HasNext(bs[i])
          {
            if i > 0 {
              assert bs[i] == bs[1..][i - 1];
            }
          }
        }
      case Some((v, n)) =>
        assert bs[..n + 1][1..] == bs[1..][..n];
        assert forall i :: 0 <= i < n ==> HasNext(bs[i]) by {
          forall i | 0 <= i < n
            ensures HasNext(bs[i])
          {
            if i > 0 {
              assert bs[i] == bs[1..][i - 1];
            }
          }
        }
    }
  }

  /** The reading TakeGroup returns is fixed by the position of the first byte whose high
      bit is clear. */
  lemma TakeGroupAt(bs: seq<uint8>, n: nat)
    requires 1 <= n <= |bs|
    requires forall i :: 0 <= i < n - 1 ==> HasNext(bs[i])
    requires !HasNext(bs[n - 1])
    ensures TakeGroup(bs) == Some((GroupValue(bs[..n]), n))
  {
    TakeGroupSpec(bs);
    assert !HasNext(bs[n - 1]);
  }

  /** The numbers a byte stream denotes, read front to back; bytes after the last byte
      with the high bit clear denote nothing. */
  function Decode(bs: seq<uint8>): seq<nat>
    decreases |bs|
  {
    match TakeGroup(bs)
    case None => []
    case Some((v, n)) => [v] + Decode(bs[n..])
  }

  /** The state of `decode_varint` after reading `bs[..i]`: `numbers` holds what the
      bytes before `start` denote, the bytes from `start` on all have the high bit set, and
      `current` holds their groups, which occupy exactly the low `bitOffset` bits. */
  ghost predicate DecodeState(bs: seq<uint8>, i: nat, start: nat, numbers: seq<nat>, current: nat, bitOffset: nat)
  {
    && start <= i <= |bs|
    && (forall j :: start <= j < i ==> HasNext(bs[j]))
    && bitOffset == 7 * (i - start)
    && current == GroupValue(bs[start..i])
    && current < Pow2(bitOffset)
    && Decode(bs) == numbers + Decode(bs[start..])
  }

  /** `decode_varint`: a single pass that accumulates the low 7 bits of each byte at the
      current bit offset and emits the accumulator at each byte whose high bit is clear.
      Trailing bytes that never close a number are dropped without error. The accumulator
      stays below 2^bitOffset, so `current |= group << bit_offset` adds the shifted group
      (`OrDisjoint`). */
  method DecodeVarint(bs: seq<uint8>) returns (numbers: seq<nat>)
    ensures numbers == Decode(bs)
  {
    numbers := [];
    var current: nat := 0;
    var bitOffset: nat := 0;
    ghost var start: nat := 0;
    assert bs[start..] == bs;
    for i := 0 to |bs|
      invariant DecodeState(bs, i, start, numbers, current, bitOffset)
    {
      var b := bs[i];
      if HasNext(b) {
        DecodeStepContinue(bs, i, start, numbers, current, bitOffset);
        current := Or(current, ShiftLeft(Low7(b), bitOffset));
        bitOffset := bitOffset + 7;
      } else {
        DecodeStepClose(bs, i, start, numbers, current, bitOffset);
        current := Or(current, ShiftLeft(Low7(b), bitOffset));
        numbers := numbers + [current];
        current := 0;
        bitOffset := 0;
        start := i + 1;
      }
    }
    DecodeFinish(bs, start, numbers, current, bitOffset);
  }

  /** Reading a byte with the continuation bit set extends the current group. */
  lemma DecodeStepContinue(bs: seq<uint8>, i: nat, start: nat, numbers: seq<nat>, current: nat, bitOffset: nat)
    requires i < |bs| && HasNext(bs[i])
    requires DecodeState(bs, i, start, numbers, current, bitOffset)
    ensures DecodeState(bs, i + 1, start, numbers, Or(current, ShiftLeft(Low7(bs[i]), bitOffset)), bitOffset + 7)
  {
    OrDisjoint(current, Low7(bs[i]), bitOffset);
    AccumulateGroup(bs, start, i);
    assert bitOffset + 7 == 7 * (i + 1 - start);
  }

  /** Reading a byte with the continuation bit clear closes the current group. */
  lemma DecodeStepClose(bs: seq<uint8>, i: nat, start: nat, numbers: seq<nat>, current: nat, bitOffset: nat)
    requires i < |bs| && !HasNext(bs[i])
    requires DecodeState(bs, i, start, numbers, current, bitOffset)
    ensures DecodeState(bs, i + 1, i + 1, numbers + [Or(current, ShiftLeft(Low7(bs[i]), bitOffset))], 0, 0)
  {
    OrDisjoint(current, Low7(bs[i]), bitOffset);
    AccumulateGroup(bs, start, i);
    DecodeClose(bs, i, start, numbers);
    assert bs[i + 1..i + 1] == [];
  }

  lemma DecodeClose(bs: seq<uint8>, i: nat, start: nat, numbers: seq<nat>)
    requires start <= i < |bs| && !HasNext(bs[i])
    requires forall j :: start <= j < i ==> HasNext(bs[j])
    requires Decode(bs) == numbers + Decode(bs[start..])
    ensures Decode(bs) == (numbers + [GroupValue(bs[start..i + 1])]) + Decode(bs[i + 1..])
  {
    DecodeAtEnd(bs, start, i);
    var g := GroupValue(bs[start..i + 1]);
    var rest := Decode(bs[i + 1..]);
    assert numbers + ([g] + rest) == (numbers + [g]) + rest;
  }

  lemma DecodeFinish(bs: seq<uint8>, start: nat, numbers: seq<nat>, current: nat, bitOffset: nat)
    requires DecodeState(bs, |bs|, start, numbers, current, bitOffset)
    ensures numbers == Decode(bs)
  {
    DecodeAllContinuation(bs[start..]);
  }

  /** One step of the decoding loop: the byte at `i` joins the number begun at `start`. */
  lemma AccumulateGroup(bs: seq<uint8>, start: nat, i: nat)
    requires start <= i < |bs|
    ensures GroupValue(bs[start..i + 1]) == GroupValue(bs[start..i]) + ShiftLeft(Low7(bs[i]), 7 * (i - start))
    ensures GroupValue(bs[start..i + 1]) < Pow2(7 * (i - start) + 7)
  {
    GroupValueSnoc(bs[start..i], bs[i]);
    ShiftLeftIsProduct(Low7(bs[i]), 7 * (i - start));
    assert bs[start..i + 1] == bs[start..i] + [bs[i]];
    GroupValueBound(bs[start..i + 1]);
  }

  /** The byte at `i` closes the number begun at `start`. */
  lemma DecodeAtEnd(bs: seq<uint8>, start: nat, i: nat)
    requires start <= i < |bs|
    requires forall j :: start <= j < i ==> HasNext(bs[j])
    requires !HasNext(bs[i])
    ensures Decode(bs[start..]) == [GroupValue(bs[start..i + 1])] + Decode(bs[i + 1..])
  {
    var t := bs[start..];
    TakeGroupAt(t, i + 1 - start);
    assert t[..i + 1 - start] == bs[start..i + 1];
    assert t[i + 1 - start..] == bs[i + 1..];
  }

  lemma DecodeAllContinuation(bs: seq<uint8>)
    requires forall j :: 0 <= j < |bs| ==> HasNext(bs[j])
    ensures Decode(bs) == []
  {
    TakeGroupSpec(bs);
  }

  /** Each byte with the high bit clear yields exactly one number. */
  lemma {:induction false} DecodeCount(bs: seq<uint8>)
    ensures |Decode(bs)| == CountEnds(bs)
    decreases |bs|
  {
    TakeGroupSpec(bs);
    match TakeGroup(bs)
    case None =>
      AllContinuationCountsZero(bs);
    case Some((v, n)) =>
      assert bs == bs[..n] + bs[n..];
      CountEndsAppend(bs[..n], bs[n..]);
      assert bs[..n] == bs[..n - 1] + [bs[n - 1]];
      CountEndsAppend(bs[..n - 1], [bs[n - 1]]);
      AllContinuationCountsZero(bs[..n - 1]);
      DecodeCount(bs[n..]);
  }

  lemma {:induction false} AllContinuationCountsZero(bs: seq<uint8>)
    requires forall i :: 0 <= i < |bs| ==> HasNext(bs[i])
    ensures CountEnds(bs) == 0
    decreases |bs|
  {
    if |bs| > 0 {
      AllContinuationCountsZero(bs[1..]);
    }
  }

  /** Decoding an encoding followed by anything reads the encoded value first. */
  lemma DecodeEncodingPrefix(value: nat, rest: seq<uint8>)
    ensures Decode(EncodeVarint(value) + rest) == [value] + Decode(rest)
  {
    var e := EncodeVarint(value);
    var bs := e + rest;
    TakeGroupAt(bs, |e|);
    assert bs[..|e|] == e;
    assert bs[|e|..] == rest;
  }

  /** Round trip: `decode_varint(encode_varint(v)) == [v]` for every `v >= 0`. */
  lemma VarintRoundTrip(value: nat)
    ensures Decode(EncodeVarint(value)) == [value]
  {
    DecodeEncodingPrefix(value, []);
    assert EncodeVarint(value) + [] == EncodeVarint(value);
  }

  /** A stream that closes its last number splits cleanly: decoding it followed by more
      bytes decodes the two parts independently. */
  lemma {:induction false} DecodeConcat(x: seq<uint8>, y: seq<uint8>)
    requires Complete(x)
    ensures Decode(x + y) == Decode(x) + Decode(y)
    decreases |x|
  {
    if |x| == 0 {
      assert x + y == y;
    } else {
      TakeGroupSpec(x);
      var n := TakeGroup(x).value.1;
      TakeGroupAt(x + y, n);
      assert (x + y)[..n] == x[..n];
      assert (x + y)[n..] == x[n..] + y;
      DecodeConcat(x[n..], y);
    }
  }

  /** A trailing run of high-bit-set bytes is silently dropped: no error, no number. */
  lemma DecodeDropsTrailing(x: seq<uint8>, t: seq<uint8>)
    requires Complete(x)
    requires forall i :: 0 <= i < |t| ==> HasNext(t[i])
    ensures Decode(x + t) == Decode(x)
  {
    DecodeConcat(x, t);
    DecodeAllContinuation(t);
  }

  /** `numpy_array_to_varint_bytearray` on the row-major flattening `flat` of an array:
      the concatenation of the encodings of its elements, in order. */
  function EncodeArray(flat: seq<nat>): (r: seq<uint8>)
    ensures Complete(r)
    ensures |r| >= |flat|
    ensures CountEnds(r) == |flat|
    decreases |flat|
  {
    if |flat| == 0 then []
    else
      var head := EncodeVarint(flat[0]);
      var tail := EncodeArray(flat[1..]);
      CountEndsAppend(head, tail);
      assert head == head[..|head| - 1] + [head[|head| - 1]];
      CountEndsAppend(head[..|head| - 1], [head[|head| - 1]]);
      AllContinuationCountsZero(head[..|head| - 1]);
      head + tail
  }

  /** Decoding the bytes written for an array gives back its row-major flattening. */
  lemma {:induction false} EncodeArrayRoundTrip(flat: seq<nat>)
    ensures Decode(EncodeArray(flat)) == flat
    decreases |flat|
  {
    if |flat| > 0 {
      DecodeEncodingPrefix(flat[0], EncodeArray(flat[1..]));
      EncodeArrayRoundTrip(flat[1..]);
    }
  }

  /** A dense N-dimensional array: its shape and its row-major flattening. */
  datatype NdArray = NdArray(shape: seq<nat>, flat: seq<nat>)

  function Product(shape: seq<nat>): nat
  {
    if |shape| == 0 then 1 else shape[0] * Product(shape[1..])
  }

  /** `varint_bytearray_to_numpy_array`: decode, then reshape. numpy's reshape raises
      ValueError unless the decoded count equals the product of the shape. */
  function VarintBytesToArray(bs: seq<uint8>, shape: seq<nat>): (r: Result<NdArray, Error>)
    ensures r.Success? <==> CountEnds(bs) == Product(shape)
    ensures r.Success? ==> r.value.shape == shape && |r.value.flat| == Product(shape)
    ensures r.Failure? ==> r.error == ReshapeMismatch && IsValueError(r.error)
  {
    var numbers := Decode(bs);
    DecodeCount(bs);
    if |numbers| == Product(shape) then Success(NdArray(shape, numbers))
    else Failure(ReshapeMismatch)
  }

  /** Writing an array and reading it back with its own shape gives the same array. */
  lemma ArrayRoundTrip(a: NdArray)
    requires |a.flat| == Product(a.shape)
    ensures VarintBytesToArray(EncodeArray(a.flat), a.shape) == Success(a)
  {
    EncodeArrayRoundTrip(a.flat);
  }

  lemma EncodingExamples()
    ensures EncodeVarint(0) == [0]
    ensures EncodeVarint(127) == [0x7F]
    ensures EncodeVarint(300) == [0xAC, 0x02]
  {
  }
}
