/** The coarse spatial index of GeoData.cs: a 16-bit key per whole-degree cell
    (`GetGeohash`), the keys of the 3x3 neighbourhood of a point
    (`OverSample`, `HashesSamples`), and the grouping of the postal codes by
    key built when the data is loaded. */
module Spatial {
  import opened Wrappers
  import opened Seqs
  import opened Entities

  /** A C# `char`: a UTF-16 code unit. */
  type Key = x: int | 0 <= x < 0x1_0000

  /** `'\0'`: the key of no cell. */
  const NoBucket: Key := 0

  type Byte = x: int | 0 <= x < 0x100

  // ----------------------------------------------------------- GetGeohash

  /** `(int)x` for a decimal: the integer part, rounded toward zero. */
  function Truncate(x: real): (r: int)
    ensures x >= 0.0 ==> 0 <= r && r as real <= x < r as real + 1.0
    ensures x < 0.0 ==> r <= 0 && r as real - 1.0 < x <= r as real
  {
    if x >= 0.0 then x.Floor else -((-x).Floor)
  }

  /** `(byte)i` in an unchecked context: the low eight bits. */
  function ToByte(i: int): (b: Byte)
    ensures (i - b) % 0x100 == 0
  {
    i % 0x100
  }

  predicate OutOfRange(lat: real, lng: real) {
    lat < -90.0 || lat > 90.0 || lng < -180.0 || lng > 180.0
  }

  /** The key of the cell of (lat, lng): `'\0'` off the globe; otherwise the
      truncated latitude as its low byte and the truncated longitude as its
      high byte, as `BitConverter.ToChar` reads them on a little-endian host. */
  function Geohash(lat: real, lng: real): (k: Key)
    ensures OutOfRange(lat, lng) ==> k == NoBucket
    ensures !OutOfRange(lat, lng) ==> k % 0x100 == ToByte(Truncate(lat)) && k / 0x100 == ToByte(Truncate(lng))
  {
    if lat < -90.0 || lat > 90.0 then NoBucket
    else if lng < -180.0 || lng > 180.0 then NoBucket
    else ToByte(Truncate(lat)) + 0x100 * ToByte(Truncate(lng))
  }

  /** `GetGeohash`, writing the two bytes into an array before reading them
      back as one `char`. */
  method GetGeohash(lat: real, lng: real) returns (c: Key)
    ensures c == Geohash(lat, lng)
  {
    if lat < -90.0 || lat > 90.0 {
      return NoBucket;
    }
    if lng < -180.0 || lng > 180.0 {
      return NoBucket;
    }
    var slat := ToByte(Truncate(lat));
    var slng := ToByte(Truncate(lng));
    var arr := new Byte[2];
    arr[0] := slat;
    arr[1] := slng;
    c := arr[0] as int + 0x100 * arr[1] as int;
  }

  /** The key is `'\0'` exactly off the globe and in the cell around (0, 0):
      there, points within one degree of the origin are never indexed. */
  lemma GeohashNoBucket(lat: real, lng: real)
    ensures Geohash(lat, lng) == NoBucket <==>
      OutOfRange(lat, lng) || (-1.0 < lat < 1.0 && -1.0 < lng < 1.0)
  {
    if !OutOfRange(lat, lng) {
      var a, b := Truncate(lat), Truncate(lng);
      assert -90 <= a <= 90 && -180 <= b <= 180;
      assert Geohash(lat, lng) == a % 0x100 + 0x100 * (b % 0x100);
      if Geohash(lat, lng) == NoBucket {
        assert a % 0x100 == 0 && b % 0x100 == 0;
        assert a == 0;
        assert b == 0;
      }
    }
  }

  /** On the globe, the key determines the truncated latitude, and the
      truncated longitude up to a multiple of 256 degrees. */
  lemma GeohashCells(lat1: real, lng1: real, lat2: real, lng2: real)
    requires !OutOfRange(lat1, lng1) && !OutOfRange(lat2, lng2)
    ensures Geohash(lat1, lng1) == Geohash(lat2, lng2) <==>
      Truncate(lat1) == Truncate(lat2) && (Truncate(lng1) - Truncate(lng2)) % 0x100 == 0
  {
    var a1, b1, a2, b2 := Truncate(lat1), Truncate(lng1), Truncate(lat2), Truncate(lng2);
    assert Geohash(lat1, lng1) == ToByte(a1) + 0x100 * ToByte(b1);
    assert Geohash(lat2, lng2) == ToByte(a2) + 0x100 * ToByte(b2);
    KeyBytes(ToByte(a1), ToByte(b1), ToByte(a2), ToByte(b2));
    LatitudeByte(a1, a2);
    ByteEq(b1, b2);
  }

  /** A key is its two bytes. */
  lemma KeyBytes(lo1: Byte, hi1: Byte, lo2: Byte, hi2: Byte)
    ensures lo1 + 0x100 * hi1 == lo2 + 0x100 * hi2 <==> lo1 == lo2 && hi1 == hi2
  {
  }

  /** Two integers have the same low byte exactly when they differ by a multiple of 256. */
  lemma ByteEq(x: int, y: int)
    ensures ToByte(x) == ToByte(y) <==> (x - y) % 0x100 == 0
  {
    var qx, qy := x / 0x100, y / 0x100;
    assert x == 0x100 * qx + ToByte(x);
    assert y == 0x100 * qy + ToByte(y);
    assert x - y == 0x100 * (qx - qy) + (ToByte(x) - ToByte(y));
  }

  /** Truncated latitudes, within [-90, 90], have distinct low bytes. */
  lemma LatitudeByte(x: int, y: int)
    requires -90 <= x <= 90 && -90 <= y <= 90
    ensures ToByte(x) == ToByte(y) <==> x == y
  {
    ByteEq(x, y);
  }

  /** The key does not identify a cell: two cells 256 degrees of longitude
      apart share one, so a bucket can hold postal codes far from each
      other, and the proximity search stays correct only because it filters
      by distance. `GeohashCells` states the general rule; this is an
      instance inside the valid range that shows the rule is not vacuous. */
  lemma GeohashLongitudeAlias()
    ensures Geohash(10.5, 100.5) == Geohash(10.5, -156.5)
    ensures Truncate(100.5) != Truncate(-156.5)
  {
    assert Truncate(100.5) == 100;
    assert Truncate(-156.5) == -156;
  }

  // --------------------------------------------------- OverSample, HashesSamples

  /** `OverSample`: the coordinate and its two neighbours one step away. */
  function OverSample(og: real, sample: real): seq<real> {
    [og, og + sample, og - sample]
  }

  /** `h.Add(c)` on a `HashSet<char>`, for a key other than `'\0'`; the set is
      kept in insertion order. */
  function AddKey(h: seq<Key>, c: Key): seq<Key> {
    if c == NoBucket || c in h then h else h + [c]
  }

  /** The inner `foreach`: the keys of row `y` at the longitudes `xs`. */
  function AddRow(h: seq<Key>, y: real, xs: seq<real>): seq<Key>
    decreases |xs|
  {
    if xs == [] then h else AddRow(AddKey(h, Geohash(y, xs[0])), y, xs[1..])
  }

  /** The outer `foreach`: the rows at the latitudes `ys`. */
  function AddRows(h: seq<Key>, ys: seq<real>, xs: seq<real>): seq<Key>
    decreases |ys|
  {
    if ys == [] then h else AddRows(AddRow(h, ys[0], xs), ys[1..], xs)
  }

  /** The keys `HashesSamples` collects. */
  function SampleKeys(lat: real, lng: real, sample: real): seq<Key> {
    AddRows([], OverSample(lat, sample), OverSample(lng, sample))
  }

  /** A set of keys: no duplicates and no `'\0'`. */
  ghost predicate KeySet(h: seq<Key>) {
    NoDup(h) && NoBucket !in h
  }

  /** `k` is the key of a point of row `y` at one of the longitudes `xs`. */
  ghost predicate InRow(y: real, xs: seq<real>, k: Key) {
    exists j :: 0 <= j < |xs| && Geohash(y, xs[j]) == k
  }

  /** `k` is the key of a point of the grid `ys` x `xs`. */
  ghost predicate InGrid(ys: seq<real>, xs: seq<real>, k: Key) {
    exists i :: 0 <= i < |ys| && InRow(ys[i], xs, k)
  }

  lemma InRowFirst(y: real, xs: seq<real>, k: Key)
    requires xs != []
    ensures InRow(y, xs, k) <==> Geohash(y, xs[0]) == k || InRow(y, xs[1..], k)
  {
    if InRow(y, xs, k) {
      var j :| 0 <= j < |xs| && Geohash(y, xs[j]) == k;
      if j > 0 { assert xs[1..][j - 1] == xs[j]; }
    }
    if InRow(y, xs[1..], k) {
      var j :| 0 <= j < |xs[1..]| && Geohash(y, xs[1..][j]) == k;
      assert xs[j + 1] == xs[1..][j];
    }
  }

  lemma InGridFirst(ys: seq<real>, xs: seq<real>, k: Key)
    requires ys != []
    ensures InGrid(ys, xs, k) <==> InRow(ys[0], xs, k) || InGrid(ys[1..], xs, k)
  {
    if InGrid(ys, xs, k) {
      var i :| 0 <= i < |ys| && InRow(ys[i], xs, k);
      if i > 0 { assert ys[1..][i - 1] == ys[i]; }
    }
    if InGrid(ys[1..], xs, k) {
      var i :| 0 <= i < |ys[1..]| && InRow(ys[1..][i], xs, k);
      assert ys[i + 1] == ys[1..][i];
    }
  }

  lemma AddKeySet(h: seq<Key>, c: Key)
    requires KeySet(h)
    ensures KeySet(AddKey(h, c)) && h <= AddKey(h, c) && |AddKey(h, c)| <= |h| + 1
    ensures forall k :: k in AddKey(h, c) <==> k in h || (k == c && c != NoBucket)
  {
    var h' := AddKey(h, c);
    if h' != h {
      forall i, j | 0 <= i < j < |h'| ensures h'[i] != h'[j] {
        if j == |h| { assert h'[i] == h[i]; }
      }
    }
  }

  lemma {:induction false} AddRowKeys(h: seq<Key>, y: real, xs: seq<real>)
    requires KeySet(h)
    ensures var r := AddRow(h, y, xs);
      && KeySet(r) && |r| <= |h| + |xs|
      && forall k :: k in r <==> k in h || (k != NoBucket && InRow(y, xs, k))
    decreases |xs|
  {
    if xs != [] {
      var h' := AddKey(h, Geohash(y, xs[0]));
      AddKeySet(h, Geohash(y, xs[0]));
      AddRowKeys(h', y, xs[1..]);
      forall k ensures InRow(y, xs, k) <==> Geohash(y, xs[0]) == k || InRow(y, xs[1..], k) {
        InRowFirst(y, xs, k);
      }
    }
  }

  lemma {:induction false} AddRowsKeys(h: seq<Key>, ys: seq<real>, xs: seq<real>)
    requires KeySet(h)
    ensures var r := AddRows(h, ys, xs);
      && KeySet(r) && |r| <= |h| + |ys| * |xs|
      && forall k :: k in r <==> k in h || (k != NoBucket && InGrid(ys, xs, k))
    decreases |ys|
  {
    if ys != [] {
      var h' := AddRow(h, ys[0], xs);
      AddRowKeys(h, ys[0], xs);
      AddRowsKeys(h', ys[1..], xs);
      var r := AddRows(h', ys[1..], xs);
      assert AddRows(h, ys, xs) == r;
      forall k ensures k in r <==> k in h || (k != NoBucket && InGrid(ys, xs, k)) {
        InGridFirst(ys, xs, k);
      }
      assert |ys| * |xs| == (|ys| - 1) * |xs| + |xs| by {
        assert |ys| == (|ys| - 1) + 1;
      }
    }
  }

  /** The sampled keys are exactly the keys other than `'\0'` of the nine
      points {lat, lat + s, lat - s} x {lng, lng + s, lng - s}, each once. */
  lemma SampleKeysSpec(lat: real, lng: real, sample: real)
    ensures var r := SampleKeys(lat, lng, sample);
      && NoDup(r) && NoBucket !in r && |r| <= 9
      && forall k :: k in r <==>
           k != NoBucket && exists y, x :: y in OverSample(lat, sample) && x in OverSample(lng, sample) && Geohash(y, x) == k
  {
    var ys, xs := OverSample(lat, sample), OverSample(lng, sample);
    AddRowsKeys([], ys, xs);
    forall k ensures InGrid(ys, xs, k) <==> exists y, x :: y in ys && x in xs && Geohash(y, x) == k {
      if exists y, x :: y in ys && x in xs && Geohash(y, x) == k {
        var y, x :| y in ys && x in xs && Geohash(y, x) == k;
        var i :| 0 <= i < |ys| && ys[i] == y;
        var j :| 0 <= j < |xs| && xs[j] == x;
        assert InRow(ys[i], xs, k);
      }
    }
  }

  /** `HashesSamples`: the nested loops over the oversampled latitudes and
      longitudes, adding every key other than `'\0'` to a set. */
  method HashesSamples(lat: real, lng: real, sample: real) returns (h: seq<Key>)
    ensures h == SampleKeys(lat, lng, sample)
  {
    var lats := OverSample(lat, sample);
    var lngs := OverSample(lng, sample);
    h := [];
    for i := 0 to |lats|
      invariant AddRows(h, lats[i..], lngs) == SampleKeys(lat, lng, sample)
    {
      assert lats[i..][1..] == lats[i + 1..];
      ghost var h0 := h;
      for j := 0 to |lngs|
        invariant AddRow(h, lats[i], lngs[j..]) == AddRow(h0, lats[i], lngs)
      {
        assert lngs[j..][1..] == lngs[j + 1..];
        var c := GetGeohash(lats[i], lngs[j]);
        if c != NoBucket && c !in h {
          h := h + [c];
        }
      }
    }
  }

  // ------------------------------------------------------------ PostalGeoHash

  /** The key of a postal code's position. */
  function CodeKey(pc: PostalCode): Key {
    Geohash(pc.latitude, pc.longitude)
  }

  /** `m` indexes `pcs` by key: each bucket lists, in increasing order, the
      positions of the postal codes with that key; no bucket is empty, there
      is no bucket for `'\0'`, and every postal code with another key is in
      its bucket. */
  ghost predicate IsIndex(pcs: seq<PostalCode>, m: map<Key, seq<nat>>) {
    && NoBucket !in m
    && (forall k :: k in m ==> m[k] != [])
    && BucketsSound(pcs, m)
    && BucketsOrdered(m)
    && BucketsComplete(pcs, m)
  }

  /** Every position in a bucket is a postal code with that bucket's key. */
  ghost predicate BucketsSound(pcs: seq<PostalCode>, m: map<Key, seq<nat>>) {
    forall k, j :: k in m && 0 <= j < |m[k]| ==> m[k][j] < |pcs| && CodeKey(pcs[m[k][j]]) == k
  }

  /** Each bucket lists its positions in increasing order, so none twice. */
  ghost predicate BucketsOrdered(m: map<Key, seq<nat>>) {
    forall k, a, b :: k in m && 0 <= a < b < |m[k]| ==> m[k][a] < m[k][b]
  }

  /** Every postal code with a key other than `'\0'` is in its bucket. */
  ghost predicate BucketsComplete(pcs: seq<PostalCode>, m: map<Key, seq<nat>>) {
    forall i :: 0 <= i < |pcs| && CodeKey(pcs[i]) != NoBucket ==> CodeKey(pcs[i]) in m && i in m[CodeKey(pcs[i])]
  }

  /** `m` with position `n` appended to the bucket of key `k`. */
  function AddToBucket(m: map<Key, seq<nat>>, k: Key, n: nat): map<Key, seq<nat>> {
    m[k := (if k in m then m[k] else []) + [n]]
  }

  /** Adding postal code `pc` at position `|pre|` to its bucket (or to none,
      for key `'\0'`) keeps the index property. */
  lemma IndexExtend(pre: seq<PostalCode>, pc: PostalCode, m: map<Key, seq<nat>>)
    requires IsIndex(pre, m)
    ensures IsIndex(pre + [pc], if CodeKey(pc) == NoBucket then m else AddToBucket(m, CodeKey(pc), |pre|))
  {
    var pcs, k := pre + [pc], CodeKey(pc);
    if k == NoBucket {
      SoundExtend(pre, pc, m, m);
      CompleteExtend(pre, pc, m, m);
    } else {
      var m' := AddToBucket(m, k, |pre|);
      SoundExtend(pre, pc, m, m');
      OrderedExtend(pre, m, k);
      CompleteExtend(pre, pc, m, m');
    }
  }

  /** Every position the extended index holds is a postal code of its key. */
  lemma SoundExtend(pre: seq<PostalCode>, pc: PostalCode, m: map<Key, seq<nat>>, m': map<Key, seq<nat>>)
    requires BucketsSound(pre, m)
    requires m' == if CodeKey(pc) == NoBucket then m else AddToBucket(m, CodeKey(pc), |pre|)
    ensures BucketsSound(pre + [pc], m')
  {
    var pcs := pre + [pc];
    forall k', j | k' in m' && 0 <= j < |m'[k']| ensures m'[k'][j] < |pcs| && CodeKey(pcs[m'[k'][j]]) == k' {
      if k' != CodeKey(pc) || j < |m'[k']| - 1 || CodeKey(pc) == NoBucket {
        assert m'[k'][j] == m[k'][j];
        assert pcs[m[k'][j]] == pre[m[k'][j]];
      }
    }
  }

  /** A bucket stays strictly increasing when the next position is appended. */
  lemma OrderedExtend(pre: seq<PostalCode>, m: map<Key, seq<nat>>, k: Key)
    requires BucketsSound(pre, m) && BucketsOrdered(m)
    ensures BucketsOrdered(AddToBucket(m, k, |pre|))
  {
    var m' := AddToBucket(m, k, |pre|);
    forall k', a, b | k' in m' && 0 <= a < b < |m'[k']| ensures m'[k'][a] < m'[k'][b] {
      if k' == k && b == |m'[k']| - 1 {
        assert m'[k'][a] == m[k'][a];
      } else {
        assert m'[k'][a] == m[k'][a] && m'[k'][b] == m[k'][b];
      }
    }
  }

  /** Every postal code with a nonzero key is still in its bucket after one more is added. */
  lemma CompleteExtend(pre: seq<PostalCode>, pc: PostalCode, m: map<Key, seq<nat>>, m': map<Key, seq<nat>>)
    requires BucketsComplete(pre, m)
    requires m' == if CodeKey(pc) == NoBucket then m else AddToBucket(m, CodeKey(pc), |pre|)
    ensures BucketsComplete(pre + [pc], m')
  {
    var pcs, n := pre + [pc], |pre|;
    forall i | 0 <= i < |pcs| && CodeKey(pcs[i]) != NoBucket ensures CodeKey(pcs[i]) in m' && i in m'[CodeKey(pcs[i])] {
      if i < n {
        assert pcs[i] == pre[i];
        assert CodeKey(pre[i]) in m && i in m[CodeKey(pre[i])];
        var j :| 0 <= j < |m[CodeKey(pre[i])]| && m[CodeKey(pre[i])][j] == i;
        assert m'[CodeKey(pre[i])][j] == i;
      } else {
        assert m'[CodeKey(pc)][|m'[CodeKey(pc)]| - 1] == n;
      }
    }
  }

  /** The `group p by h ... where h != '\0'` query and its `ToDictionary`, with
      each postal code stood for by its position in `pcs`. */
  function GroupByHash(pcs: seq<PostalCode>): (m: map<Key, seq<nat>>)
    ensures IsIndex(pcs, m)
  {
    if pcs == [] then map[]
    else
      var pre, n := pcs[..|pcs| - 1], |pcs| - 1;
      var m := GroupByHash(pre);
      var k := CodeKey(pcs[n]);
      IndexExtend(pre, pcs[n], m);
      assert pre + [pcs[n]] == pcs;
      if k == NoBucket then m else AddToBucket(m, k, n)
  }

  /** The `if (PostalCodes != null && PostalCodes.Count > 0)` guard: no index
      at all for an empty collection. */
  function PostalGeoHash(pcs: seq<PostalCode>): (r: Option<map<Key, seq<nat>>>)
    ensures r.None? <==> pcs == []
    ensures r.Some? ==> IsIndex(pcs, r.value)
  {
    if |pcs| > 0 then Some(GroupByHash(pcs)) else None
  }

  /** The index is empty exactly when every postal code has key `'\0'`. */
  lemma IndexEmpty(pcs: seq<PostalCode>)
    ensures |GroupByHash(pcs)| == 0 <==> forall i :: 0 <= i < |pcs| ==> CodeKey(pcs[i]) == NoBucket
  {
    var m := GroupByHash(pcs);
    if |m| != 0 {
      var k :| k in m;
      assert m[k][0] < |pcs| && CodeKey(pcs[m[k][0]]) == k;
    }
  }
}
