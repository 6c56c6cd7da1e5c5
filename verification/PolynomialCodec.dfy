// A concrete erasure code that meets the contract of the codec: shards are values of polynomials over a
// field with one element per byte, at as many points as there are shards.
module PolynomialCodec {
  import opened Base
  import opened NumberTheory
  import opened FieldTower
  import opened Polynomials
  import opened ReedSolomon

  const LEVEL: nat := 3

  // ---------------------------------------------------------------- bytes as field elements

  function Square(m: nat): nat { m * m }

  function Size(k: nat): (n: nat)
    ensures n >= 2
  {
    if k == 0 then 2
    else
      MulMonotone(Size(k - 1), 2, Size(k - 1));
      Square(Size(k - 1))
  }

  /** A number below m * m as two digits in base m. */
  function Low(n: nat, m: nat): nat
    requires m > 0
  {
    n % m
  }

  function High(n: nat, m: nat): nat
    requires m > 0
  {
    n / m
  }

  function Join(lo: nat, hi: nat, m: nat): nat { hi * m + lo }

  lemma Split(n: nat, m: nat)
    requires 0 < m && n < Square(m)
    ensures Low(n, m) < m && High(n, m) < m && Join(Low(n, m), High(n, m), m) == n
  {
    if n / m >= m {
      MulMonotone(m, m, n / m);
    }
  }

  lemma Joined(lo: nat, hi: nat, m: nat)
    requires lo < m && hi < m
    ensures Join(lo, hi, m) < Square(m) && Low(Join(lo, hi, m), m) == lo && High(Join(lo, hi, m), m) == hi
  {
    MulMonotone(m, hi + 1, m);
    DivModUnique(hi * m + lo, m, hi, lo);
  }

  function FromNat(n: nat, k: nat): (x: Elem)
    requires n < Size(k)
    ensures At(x, k)
    decreases k
  {
    if k == 0 then Bit(n == 1)
    else
      var m := Size(k - 1);
      Split(n, m);
      Pair(FromNat(Low(n, m), k - 1), FromNat(High(n, m), k - 1))
  }

  function ToNat(x: Elem, k: nat): (n: nat)
    requires At(x, k)
    ensures n < Size(k)
  {
    if k == 0 then (if x.bit then 1 else 0)
    else
      Joined(ToNat(x.lo, k - 1), ToNat(x.hi, k - 1), Size(k - 1));
      Join(ToNat(x.lo, k - 1), ToNat(x.hi, k - 1), Size(k - 1))
  }

  lemma {:induction false} ToFromNat(n: nat, k: nat)
    requires n < Size(k)
    ensures ToNat(FromNat(n, k), k) == n
    decreases k
  {
    hide Low, High, Join, Square;
    if k > 0 {
      var m := Size(k - 1);
      Split(n, m);
      ToFromNat(Low(n, m), k - 1);
      ToFromNat(High(n, m), k - 1);
    }
  }

  lemma {:induction false} FromToNat(x: Elem, k: nat)
    requires At(x, k)
    ensures FromNat(ToNat(x, k), k) == x
  {
    if k > 0 {
      Joined(ToNat(x.lo, k - 1), ToNat(x.hi, k - 1), Size(k - 1));
      hide Low, High, Join;
      FromToNat(x.lo, k - 1);
      FromToNat(x.hi, k - 1);
    }
  }

  lemma LevelSize()
    ensures Size(LEVEL) == 256
  {
    assert Size(1) == 4;
    assert Size(2) == 16;
    assert Size(3) == Square(16);
  }

  function Element(b: byte): (x: Elem)
    ensures At(x, LEVEL)
  {
    LevelSize();
    FromNat(b, LEVEL)
  }

  function ByteOf(x: Elem): byte
    requires At(x, LEVEL)
  {
    LevelSize();
    ToNat(x, LEVEL)
  }

  lemma ByteRoundTrip(b: byte)
    ensures ByteOf(Element(b)) == b
  {
    LevelSize();
    ToFromNat(b, LEVEL);
  }

  lemma ElementRoundTrip(x: Elem)
    requires At(x, LEVEL)
    ensures Element(ByteOf(x)) == x
  {
    LevelSize();
    FromToNat(x, LEVEL);
  }

  // ---------------------------------------------------------------- the code

  /** The evaluation points of the shards at these places. */
  function Points(places: seq<byte>): (xs: seq<Elem>)
    ensures AllAt(xs, LEVEL) && |xs| == |places|
  {
    seq(|places|, i requires 0 <= i < |places| => Element(places[i]))
  }

  ghost predicate Ascending(places: seq<byte>) {
    forall i, j :: 0 <= i < j < |places| ==> places[i] < places[j]
  }

  lemma PointsAreDistinct(places: seq<byte>)
    requires Ascending(places)
    ensures Distinct(Points(places))
  {
    forall i, j | 0 <= i < j < |places|
      ensures Points(places)[i] != Points(places)[j]
    {
      ByteRoundTrip(places[i]);
      ByteRoundTrip(places[j]);
    }
  }

  ghost predicate LongEnough(shards: seq<Bytes>, length: nat) {
    forall i :: 0 <= i < |shards| ==> |shards[i]| >= length
  }

  function Column(shards: seq<Bytes>, c: nat): (ys: seq<Elem>)
    requires LongEnough(shards, c + 1)
    ensures AllAt(ys, LEVEL) && |ys| == |shards|
  {
    seq(|shards|, i requires 0 <= i < |shards| => Element(shards[i][c]))
  }

  lemma ThroughExists(xs: seq<Elem>, ys: seq<Elem>)
    requires |xs| == |ys| && AllAt(xs, LEVEL) && AllAt(ys, LEVEL) && Distinct(xs)
    ensures exists p :: Interpolates(p, xs, ys, LEVEL)
  {
    var p := Interpolation(xs, ys, LEVEL);
  }

  /** The polynomial through these points. */
  ghost function Through(xs: seq<Elem>, ys: seq<Elem>): (p: seq<Elem>)
    requires |xs| == |ys| && AllAt(xs, LEVEL) && AllAt(ys, LEVEL) && Distinct(xs)
    ensures Interpolates(p, xs, ys, LEVEL)
  {
    ThroughExists(xs, ys);
    var p :| Interpolates(p, xs, ys, LEVEL);
    p
  }

  /** The shard at one place of the code word that has these shards at those places. */
  ghost function ShardAt(places: seq<byte>, shards: seq<Bytes>, length: nat, place: byte): (shard: Bytes)
    requires |places| == |shards| && Ascending(places) && LongEnough(shards, length)
    ensures |shard| == length
  {
    PointsAreDistinct(places);
    seq(length, c requires 0 <= c < length =>
      ByteOf(Eval(Through(Points(places), Column(shards, c)), Element(place), LEVEL)))
  }

  /** At the places it is made from it has the shards it is made from. */
  lemma ShardAtOwnPlace(places: seq<byte>, shards: seq<Bytes>, length: nat, i: nat)
    requires |places| == |shards| && Ascending(places) && LongEnough(shards, length)
    requires i < |places| && |shards[i]| == length
    ensures ShardAt(places, shards, length, places[i]) == shards[i]
  {
    PointsAreDistinct(places);
    forall c | 0 <= c < length
      ensures ShardAt(places, shards, length, places[i])[c] == shards[i][c]
    {
      var p := Through(Points(places), Column(shards, c));
      assert Eval(p, Points(places)[i], LEVEL) == Column(shards, c)[i];
      ByteRoundTrip(shards[i][c]);
    }
  }

  /** The same code word from other places: as many of its shards determine it. */
  lemma OtherPlaces(places: seq<byte>, shards: seq<Bytes>, others: seq<byte>, found: seq<Bytes>, length: nat, place: byte)
    requires |places| == |shards| == |others| == |found| && Ascending(places) && Ascending(others)
    requires LongEnough(shards, length) && LongEnough(found, length)
    requires forall j :: 0 <= j < |others| ==> found[j] == ShardAt(places, shards, length, others[j])
    ensures ShardAt(others, found, length, place) == ShardAt(places, shards, length, place)
  {
    PointsAreDistinct(places);
    PointsAreDistinct(others);
    forall c | 0 <= c < length
      ensures ShardAt(others, found, length, place)[c] == ShardAt(places, shards, length, place)[c]
    {
      var p := Through(Points(places), Column(shards, c));
      var q := Through(Points(others), Column(found, c));
      forall j | 0 <= j < |others|
        ensures Eval(q, Points(others)[j], LEVEL) == Eval(p, Points(others)[j], LEVEL)
      {
        assert found[j] == ShardAt(places, shards, length, others[j]);
        ElementRoundTrip(Eval(p, Element(others[j]), LEVEL));
        assert Eval(q, Points(others)[j], LEVEL) == Column(found, c)[j];
      }
      AgreeEverywhere(q, p, Points(others), Element(place), LEVEL);
    }
  }

  // ---------------------------------------------------------------- the codec

  function DataPlaces(d: nat): (places: seq<byte>)
    requires d <= MAX_TOTAL_SHARDS
    ensures |places| == d && forall i :: 0 <= i < d ==> places[i] == i
  {
    seq(d, i requires 0 <= i < d => i)
  }

  /** Parity shards are the shards at the places after the data. */
  ghost function Parity(d: nat, p: nat, data: seq<Bytes>): seq<Bytes> {
    if 0 < d && d + p <= MAX_TOTAL_SHARDS && |data| == d && LongEnough(data, |data[0]|) then
      seq(p, j requires 0 <= j < p => ShardAt(DataPlaces(d), data, |data[0]|, d + j))
    else []
  }

  /** The places of the shards that are present. */
  function Found(shards: seq<Option<Bytes>>, from: nat): (places: seq<byte>)
    requires from + |shards| <= MAX_TOTAL_SHARDS
    ensures |places| == Present(shards)
    ensures forall i :: 0 <= i < |places| ==> from <= places[i] < from + |shards| && shards[places[i] - from].Some?
    ensures Ascending(places)
  {
    if shards == [] then [] else (if shards[0].Some? then [from] else []) + Found(shards[1..], from + 1)
  }

  function Taken(shards: seq<Option<Bytes>>, places: seq<byte>): (found: seq<Bytes>)
    requires forall i :: 0 <= i < |places| ==> places[i] < |shards| && shards[places[i]].Some?
    ensures |found| == |places| && forall i :: 0 <= i < |places| ==> found[i] == shards[places[i]].value
  {
    seq(|places|, i requires 0 <= i < |places| => shards[places[i]].value)
  }

  /** All shards of the code word through the first d that are present. */
  ghost function Restore(d: nat, p: nat, shards: seq<Option<Bytes>>): seq<Bytes> {
    if 0 < d && |shards| == d + p <= MAX_TOTAL_SHARDS && Present(shards) >= d then
      var places := Found(shards, 0)[..d];
      var found := Taken(shards, places);
      if LongEnough(found, |found[0]|) then
        seq(d + p, i requires 0 <= i < d + p => ShardAt(places, found, |found[0]|, i))
      else []
    else []
  }

  function ShardOrNone(shards: seq<Bytes>, i: nat): Bytes {
    if i < |shards| then shards[i] else []
  }

  ghost function PolynomialCode(): Codec {
    Codec((d, p, data, j) => ShardOrNone(Parity(d, p, data), j), (d, p, shards, i) => ShardOrNone(Restore(d, p, shards), i))
  }

  lemma ParityWord(d: nat, p: nat, data: seq<Bytes>, length: nat)
    requires Supported(d, p) && |data| == d && length > 0 && SameLength(data, length)
    ensures var parity := Parity(d, p, data);
      |parity| == p && SameLength(parity, length) &&
      forall j :: 0 <= j < p ==> parity[j] == ShardAt(DataPlaces(d), data, length, d + j)
  {
    assert |data[0]| == length;
    forall j | 0 <= j < p
      ensures Parity(d, p, data)[j] == ShardAt(DataPlaces(d), data, length, d + j)
    {
    }
  }

  lemma AllShardsIs(d: nat, p: nat, data: seq<Bytes>)
    requires |Parity(d, p, data)| == p
    ensures AllShards(PolynomialCode(), d, p, data) == data + Parity(d, p, data)
  {
    hide Parity;
    var codec := PolynomialCode();
    forall j: nat | j < p
      ensures codec.parity(d, p, data, j) == Parity(d, p, data)[j]
    {
      assert codec.parity(d, p, data, j) == ShardOrNone(Parity(d, p, data), j);
    }
    assert ParityShards(codec, d, p, data) == Parity(d, p, data);
  }

  /** Data and parity together are one code word. */
  lemma AllShardsAreOneWord(d: nat, p: nat, data: seq<Bytes>, length: nat)
    requires Supported(d, p) && |data| == d && length > 0 && SameLength(data, length)
    ensures var all := AllShards(PolynomialCode(), d, p, data);
      |all| == d + p && forall i :: 0 <= i < d + p ==> all[i] == ShardAt(DataPlaces(d), data, length, i)
  {
    ParityWord(d, p, data, length);
    AllShardsIs(d, p, data);
    hide AllShards, ShardAt, Parity;
    forall i | 0 <= i < d
      ensures data[i] == ShardAt(DataPlaces(d), data, length, i)
    {
      ShardAtOwnPlace(DataPlaces(d), data, length, i);
    }
    hide SameLength;
    WordIs(d, data, Parity(d, p, data), DataPlaces(d), length);
  }

  lemma WordIs(d: nat, data: seq<Bytes>, parity: seq<Bytes>, places: seq<byte>, length: nat)
    requires |places| == |data| == d && |data| + |parity| <= MAX_TOTAL_SHARDS && Ascending(places) && LongEnough(data, length)
    requires forall i :: 0 <= i < |data| ==> data[i] == ShardAt(places, data, length, i)
    requires forall j :: 0 <= j < |parity| ==> parity[j] == ShardAt(places, data, length, d + j)
    ensures forall i :: 0 <= i < |data + parity| ==> (data + parity)[i] == ShardAt(places, data, length, i)
  {
    hide ShardAt;
    forall i | d <= i < |data + parity|
      ensures (data + parity)[i] == ShardAt(places, data, length, i)
    {
      assert parity[i - d] == ShardAt(places, data, length, d + (i - d));
    }
  }

  lemma RestoresOneWord(d: nat, p: nat, data: seq<Bytes>, length: nat, shards: seq<Option<Bytes>>)
    requires Supported(d, p) && |data| == d && length > 0 && SameLength(data, length)
    requires Erasure(shards, AllShards(PolynomialCode(), d, p, data)) && Present(shards) >= d
    ensures Restore(d, p, shards) == AllShards(PolynomialCode(), d, p, data)
  {
    AllShardsAreOneWord(d, p, data, length);
    var all := AllShards(PolynomialCode(), d, p, data);
    hide AllShards;
    var places := Found(shards, 0)[..d];
    var found := Taken(shards, places);
    forall j | 0 <= j < d
      ensures found[j] == ShardAt(DataPlaces(d), data, length, places[j])
    {
      assert shards[places[j]] == Some(all[places[j]]);
    }
    forall i | 0 <= i < d + p
      ensures ShardAt(places, found, length, i) == all[i]
    {
      OtherPlaces(DataPlaces(d), data, places, found, length, i);
    }
  }

  /** For every supported number of shards the polynomial code meets the contract of the codec. */
  lemma PolynomialsAreErasureCodes(d: nat, p: nat)
    requires Supported(d, p)
    ensures ErasureCode(PolynomialCode(), d, p)
  {
    var codec := PolynomialCode();
    forall data: seq<Bytes>, length: nat | |data| == d && length > 0 && SameLength(data, length)
      ensures SameLength(ParityShards(codec, d, p, data), length)
    {
      ParityWord(d, p, data, length);
    }
    forall data: seq<Bytes>, length: nat, shards: seq<Option<Bytes>> |
      |data| == d && length > 0 && SameLength(data, length) &&
      Erasure(shards, AllShards(codec, d, p, data)) && Present(shards) >= d
      ensures Filled(codec, d, p, shards) == AllShards(codec, d, p, data)
    {
      RestoresOneWord(d, p, data, length, shards);
      FilledIs(d, p, shards, AllShards(codec, d, p, data));
    }
  }

  /** Filling the empty slots of an erasure from the restored word gives the word. */
  lemma FilledIs(d: nat, p: nat, shards: seq<Option<Bytes>>, all: seq<Bytes>)
    requires Erasure(shards, all) && Restore(d, p, shards) == all
    ensures Filled(PolynomialCode(), d, p, shards) == all
  {
    hide Restore;
    var codec := PolynomialCode();
    forall i: nat | i < |all|
      ensures codec.restore(d, p, shards, i) == all[i]
    {
      assert codec.restore(d, p, shards, i) == ShardOrNone(Restore(d, p, shards), i);
    }
  }
}
