/** The hash map of ec_map.h as a sequence of buckets: what its operations do to the buckets, that they
    are those of a finite map for any hash function, and the order of iteration. */
module HashBuckets {
  import opened Wrappers

  // How keys are taken from values and hashed; a value carries its own key.
  datatype Keys<!K, !V> = Keys(hash: K -> nat, keyOf: V -> K)

  function Upos<K, V>(h: Keys<K, V>, n: nat, key: K): (i: nat)
    requires n > 0
    ensures i < n
  {
    h.hash(key) % n
  }

  // The position of the key in a bucket, or its length.
  function IndexIn<K(==), V>(h: Keys<K, V>, b: seq<V>, key: K): (j: nat)
    ensures j <= |b| && (j < |b| ==> h.keyOf(b[j]) == key)
    ensures forall i :: 0 <= i < j ==> h.keyOf(b[i]) != key
  {
    if b == [] || h.keyOf(b[0]) == key then 0 else 1 + IndexIn(h, b[1..], key)
  }

  function Removed<T>(s: seq<T>, j: nat): seq<T>
    requires j < |s|
  {
    s[..j] + s[j + 1..]
  }

  // ---- the operations on one bucket ----

  function SetIn<K(==), V>(h: Keys<K, V>, b: seq<V>, key: K, v: V): seq<V> {
    var j := IndexIn(h, b, key);
    if j < |b| then b[j := v] else [v] + b
  }

  function EraseIn<K(==), V>(h: Keys<K, V>, b: seq<V>, key: K): seq<V> {
    var j := IndexIn(h, b, key);
    if j < |b| then Removed(b, j) else b
  }

  function EmplaceIn<K(==), V>(h: Keys<K, V>, b: seq<V>, key: K, v: V): seq<V> {
    [v] + EraseIn(h, b, key)
  }

  function GetIn<K(==), V>(h: Keys<K, V>, b: seq<V>, key: K): Option<V> {
    var j := IndexIn(h, b, key);
    if j < |b| then Some(b[j]) else None
  }

  // ---- all buckets ----

  // Every value is in the bucket of its key, and no key comes twice.
  ghost predicate Placed<K, V>(h: Keys<K, V>, bs: seq<seq<V>>) {
    forall i :: 0 <= i < |bs| ==> InBucket(h, bs[i], i, |bs|)
  }

  ghost predicate InBucket<K, V>(h: Keys<K, V>, b: seq<V>, i: nat, n: nat)
    requires n > 0
  {
    && (forall j :: 0 <= j < |b| ==> Upos(h, n, h.keyOf(b[j])) == i)
    && (forall j, k :: 0 <= j < k < |b| ==> h.keyOf(b[j]) != h.keyOf(b[k]))
  }

  // The finite map the buckets stand for.
  ghost predicate Represents<K, V>(h: Keys<K, V>, bs: seq<seq<V>>, m: map<K, V>) {
    && |bs| > 0 && Placed(h, bs)
    && (forall i, j :: 0 <= i < |bs| && 0 <= j < |bs[i]| ==> h.keyOf(bs[i][j]) in m && m[h.keyOf(bs[i][j])] == bs[i][j])
    && (forall k :: k in m ==> GetIn(h, bs[Upos(h, |bs|, k)], k) == Some(m[k]))
  }

  /** get is the lookup of the map. */
  lemma GetIsLookup<K, V>(h: Keys<K, V>, bs: seq<seq<V>>, m: map<K, V>, key: K)
    requires Represents(h, bs, m)
    ensures GetIn(h, bs[Upos(h, |bs|, key)], key) == if key in m then Some(m[key]) else None
  {
    var i := Upos(h, |bs|, key);
    var j := IndexIn(h, bs[i], key);
    if j < |bs[i]| {
      assert h.keyOf(bs[i][j]) == key;
    }
  }

  // Another key is found as before when one entry of the bucket is replaced, put in front or taken out.
  lemma {:induction false} FoundAfterUpdate<K, V>(h: Keys<K, V>, b: seq<V>, j: nat, v: V, key: K)
    requires j < |b| && h.keyOf(b[j]) == h.keyOf(v) != key
    ensures GetIn(h, b[j := v], key) == GetIn(h, b, key)
    decreases |b|
  {
    var c := b[j := v];
    if j == 0 {
      assert c[1..] == b[1..];
    } else {
      assert c[1..] == b[1..][j - 1 := v];
      if h.keyOf(b[0]) != key {
        FoundAfterUpdate(h, b[1..], j - 1, v, key);
      }
    }
  }

  lemma {:induction false} FoundAfterRemoval<K, V>(h: Keys<K, V>, b: seq<V>, j: nat, key: K)
    requires j < |b| && h.keyOf(b[j]) != key
    ensures GetIn(h, Removed(b, j), key) == GetIn(h, b, key)
    decreases |b|
  {
    var c := Removed(b, j);
    if j == 0 {
      assert c == b[1..];
    } else {
      assert c[0] == b[0] && c[1..] == Removed(b[1..], j - 1);
      if h.keyOf(b[0]) != key {
        FoundAfterRemoval(h, b[1..], j - 1, key);
      }
    }
  }

  lemma FoundBehind<K, V>(h: Keys<K, V>, b: seq<V>, v: V, key: K)
    requires h.keyOf(v) != key
    ensures GetIn(h, [v] + b, key) == GetIn(h, b, key)
  {
    assert ([v] + b)[1..] == b;
  }

  lemma NotFound<K, V>(h: Keys<K, V>, b: seq<V>, key: K)
    requires forall j :: 0 <= j < |b| ==> h.keyOf(b[j]) != key
    ensures IndexIn(h, b, key) == |b|
  {
  }

  lemma FoundAt<K, V>(h: Keys<K, V>, b: seq<V>, j: nat)
    requires j < |b| && forall i, k :: 0 <= i < k < |b| ==> h.keyOf(b[i]) != h.keyOf(b[k])
    ensures IndexIn(h, b, h.keyOf(b[j])) == j
  {
  }

  // ---- the operations refine those of the map ----

  // One bucket has changed, and only for one key.
  ghost predicate Rebucketed<K(!new), V>(h: Keys<K, V>, b: seq<V>, c: seq<V>, i: nat, n: nat, key: K, v: Option<V>)
    requires n > 0
  {
    && InBucket(h, c, i, n)
    && (forall j :: 0 <= j < |c| ==> if h.keyOf(c[j]) == key then v == Some(c[j]) else c[j] in b)
    && GetIn(h, c, key) == v
    && (forall k :: k != key ==> GetIn(h, c, k) == GetIn(h, b, k))
  }

  ghost function Updated<K, V>(m: map<K, V>, key: K, v: Option<V>): map<K, V> {
    if v.Some? then m[key := v.value] else m - {key}
  }

  lemma Refines<K(!new), V>(h: Keys<K, V>, bs: seq<seq<V>>, m: map<K, V>, c: seq<V>, key: K, v: Option<V>)
    requires Represents(h, bs, m) && Rebucketed(h, bs[Upos(h, |bs|, key)], c, Upos(h, |bs|, key), |bs|, key, v)
    ensures Represents(h, bs[Upos(h, |bs|, key) := c], Updated(m, key, v))
  {
    hide GetIn, Upos;
    var n, u := |bs|, Upos(h, |bs|, key);
    var cs, m' := bs[u := c], Updated(m, key, v);
    forall i, j | 0 <= i < n && 0 <= j < |cs[i]| ensures h.keyOf(cs[i][j]) in m' && m'[h.keyOf(cs[i][j])] == cs[i][j] {
      if i == u && h.keyOf(cs[i][j]) != key {
        var x := c[j];
        var k :| 0 <= k < |bs[u]| && bs[u][k] == x;
      } else if i != u {
        assert InBucket(h, bs[i], i, n);
        assert h.keyOf(bs[i][j]) != key;
      }
    }
    forall k | k in m' ensures GetIn(h, cs[Upos(h, n, k)], k) == Some(m'[k]) {
    }
    assert Placed(h, cs) by {
      forall i | 0 <= i < n ensures InBucket(h, cs[i], i, n) {
        assert InBucket(h, bs[i], i, n);
      }
    }
  }

  /** set: the value under its key, replaced in place or in front of the bucket. */
  lemma SetRefines<K(!new), V>(h: Keys<K, V>, bs: seq<seq<V>>, m: map<K, V>, key: K, v: V)
    requires Represents(h, bs, m) && h.keyOf(v) == key
    ensures var i := Upos(h, |bs|, key); Represents(h, bs[i := SetIn(h, bs[i], key, v)], m[key := v])
  {
    var u := Upos(h, |bs|, key);
    assert InBucket(h, bs[u], u, |bs|);
    SetRebuckets(h, bs[u], u, |bs|, key, v);
    Refines(h, bs, m, SetIn(h, bs[u], key, v), key, Some(v));
  }

  lemma SetRebuckets<K(!new), V>(h: Keys<K, V>, b: seq<V>, i: nat, n: nat, key: K, v: V)
    requires n > 0 && InBucket(h, b, i, n) && h.keyOf(v) == key && Upos(h, n, key) == i
    ensures Rebucketed(h, b, SetIn(h, b, key, v), i, n, key, Some(v))
  {
    var j := IndexIn(h, b, key);
    var c := SetIn(h, b, key, v);
    if j < |b| {
      forall k | k != key ensures GetIn(h, c, k) == GetIn(h, b, k) {
        FoundAfterUpdate(h, b, j, v, k);
      }
      FoundAt(h, c, j);
    } else {
      forall k | k != key ensures GetIn(h, c, k) == GetIn(h, b, k) {
        FoundBehind(h, b, v, k);
      }
      assert c[0] == v;
    }
  }

  lemma EraseRebuckets<K(!new), V>(h: Keys<K, V>, b: seq<V>, i: nat, n: nat, key: K)
    requires n > 0 && InBucket(h, b, i, n)
    ensures Rebucketed(h, b, EraseIn(h, b, key), i, n, key, None)
  {
    var j := IndexIn(h, b, key);
    if j < |b| {
      var c := Removed(b, j);
      forall k | k != key ensures GetIn(h, c, k) == GetIn(h, b, k) {
        FoundAfterRemoval(h, b, j, k);
      }
      forall k | 0 <= k < |c| ensures h.keyOf(c[k]) != key && c[k] in b {
        assert c[k] == b[if k < j then k else k + 1];
      }
      NotFound(h, c, key);
    }
  }

  /** erase: the key is gone. */
  lemma EraseRefines<K(!new), V>(h: Keys<K, V>, bs: seq<seq<V>>, m: map<K, V>, key: K)
    requires Represents(h, bs, m)
    ensures var i := Upos(h, |bs|, key); Represents(h, bs[i := EraseIn(h, bs[i], key)], m - {key})
  {
    var u := Upos(h, |bs|, key);
    assert InBucket(h, bs[u], u, |bs|);
    EraseRebuckets(h, bs[u], u, |bs|, key);
    Refines(h, bs, m, EraseIn(h, bs[u], key), key, None);
  }

  /** emplace: the old value goes, the new one comes in front. */
  lemma EmplaceRefines<K(!new), V>(h: Keys<K, V>, bs: seq<seq<V>>, m: map<K, V>, key: K, v: V)
    requires Represents(h, bs, m) && h.keyOf(v) == key
    ensures var i := Upos(h, |bs|, key); Represents(h, bs[i := EmplaceIn(h, bs[i], key, v)], m[key := v])
  {
    var u := Upos(h, |bs|, key);
    assert InBucket(h, bs[u], u, |bs|);
    EmplaceRebuckets(h, bs[u], u, |bs|, key, v);
    Refines(h, bs, m, EmplaceIn(h, bs[u], key, v), key, Some(v));
  }

  lemma EmplaceRebuckets<K(!new), V>(h: Keys<K, V>, b: seq<V>, i: nat, n: nat, key: K, v: V)
    requires n > 0 && InBucket(h, b, i, n) && h.keyOf(v) == key && Upos(h, n, key) == i
    ensures Rebucketed(h, b, EmplaceIn(h, b, key, v), i, n, key, Some(v))
  {
    hide EraseIn;
    EraseRebuckets(h, b, i, n, key);
    var e := EraseIn(h, b, key);
    forall k | k != key ensures GetIn(h, [v] + e, k) == GetIn(h, b, k) {
      FoundBehind(h, e, v, k);
    }
    forall j | 0 <= j < |e| ensures h.keyOf(e[j]) != key {
    }
    assert ([v] + e)[0] == v;
  }

  // ---- sizes and iteration ----

  function Flat<T>(bs: seq<seq<T>>): seq<T> {
    if bs == [] then [] else bs[0] + Flat(bs[1..])
  }

  lemma {:induction false} FlatConcat<T>(a: seq<seq<T>>, b: seq<seq<T>>)
    ensures Flat(a + b) == Flat(a) + Flat(b)
  {
    if a == [] {
      assert a + b == b;
    } else {
      assert (a + b)[1..] == a[1..] + b;
      FlatConcat(a[1..], b);
    }
  }

  lemma FlatUpdate<T>(bs: seq<seq<T>>, i: nat, c: seq<T>)
    requires i < |bs|
    ensures |Flat(bs[i := c])| == |Flat(bs)| - |bs[i]| + |c|
  {
    var a, b, d := bs[..i], [bs[i]], bs[i + 1..];
    assert bs == a + b + d && bs[i := c] == a + [c] + d;
    FlatConcat(a + b, d);
    FlatConcat(a, b);
    FlatConcat(a + [c], d);
    FlatConcat(a, [c]);
    assert Flat([c]) == c + [] && Flat(b) == bs[i] + [];
  }

  // The positions of ++: a bucket and a place in it, packed; END after the last.
  const TWO32 := 0x1_0000_0000
  const END := 0xFFFF_FFFF_FFFF_FFFF

  function Packed(ih: nat, il: nat): nat { ih * TWO32 + il }

  function FirstFrom<T>(bs: seq<seq<T>>, ih: nat): nat
    decreases |bs| - ih
  {
    if ih >= |bs| then END else if bs[ih] != [] then Packed(ih, 0) else FirstFrom(bs, ih + 1)
  }

  function NextPos<T>(bs: seq<seq<T>>, pos: nat): nat {
    var ih, il := pos / TWO32, pos % TWO32;
    if ih < |bs| && il + 1 < |bs[ih]| then Packed(ih, il + 1) else FirstFrom(bs, ih + 1)
  }

  function AtPos<T>(bs: seq<seq<T>>, pos: nat): Option<T> {
    var ih, il := pos / TWO32, pos % TWO32;
    if ih < |bs| && il < |bs[ih]| then Some(bs[ih][il]) else None
  }

  // Sizes the packing has room for.
  predicate Fits<T>(bs: seq<seq<T>>) {
    |bs| < TWO32 && forall i :: 0 <= i < |bs| ==> |bs[i]| < TWO32
  }

  // What is still to come from a position.
  ghost function ToCome<T>(bs: seq<seq<T>>, ih: nat, il: nat): seq<T> {
    if ih < |bs| && il <= |bs[ih]| then bs[ih][il..] + Flat(bs[ih + 1..]) else []
  }

  lemma Unpack(ih: nat, il: nat)
    requires il < TWO32
    ensures Packed(ih, il) / TWO32 == ih && Packed(ih, il) % TWO32 == il
    ensures ih + 1 < TWO32 ==> Packed(ih, il) != END
  {
  }

  // The first position from a bucket on: nothing to come, or the first of what is.
  lemma {:induction false} FirstToCome<T>(bs: seq<seq<T>>, ih: nat) returns (jh: nat)
    requires Fits(bs) && ih <= |bs|
    ensures if Flat(bs[ih..]) == [] then FirstFrom(bs, ih) == END
            else FirstFrom(bs, ih) == Packed(jh, 0) && ih <= jh < |bs| && bs[jh] != [] && ToCome(bs, jh, 0) == Flat(bs[ih..])
    decreases |bs| - ih
  {
    jh := ih;
    if ih < |bs| {
      assert bs[ih..][0] == bs[ih] && bs[ih..][1..] == bs[ih + 1..];
      if bs[ih] == [] {
        jh := FirstToCome(bs, ih + 1);
        assert [] + Flat(bs[ih + 1..]) == Flat(bs[ih + 1..]);
      }
    }
  }

  // The values met by ++ from a position to END.
  ghost predicate Visits<T>(bs: seq<seq<T>>, pos: nat, out: seq<T>)
    decreases |out|
  {
    if out == [] then pos == END
    else pos != END && AtPos(bs, pos) == Some(out[0]) && Visits(bs, NextPos(bs, pos), out[1..])
  }

  lemma {:induction false} VisitsRest<T>(bs: seq<seq<T>>, ih: nat, il: nat)
    requires Fits(bs) && ih < |bs| && il < |bs[ih]|
    ensures Visits(bs, Packed(ih, il), ToCome(bs, ih, il))
    decreases |ToCome(bs, ih, il)|
  {
    hide FirstFrom, Packed, ToCome, NextPos, AtPos, Flat;
    NextVisit(bs, ih, il);
    var rest := ToCome(bs, ih, il);
    if il + 1 < |bs[ih]| {
      VisitsRest(bs, ih, il + 1);
    } else {
      var jh := FirstToCome(bs, ih + 1);
      if rest[1..] != [] {
        VisitsRest(bs, jh, 0);
      }
    }
  }

  // One ++: the value here, and what is to come after it.
  lemma NextVisit<T>(bs: seq<seq<T>>, ih: nat, il: nat)
    requires Fits(bs) && ih < |bs| && il < |bs[ih]|
    ensures var rest := ToCome(bs, ih, il);
            && rest != [] && AtPos(bs, Packed(ih, il)) == Some(rest[0]) && Packed(ih, il) != END
            && if il + 1 < |bs[ih]| then NextPos(bs, Packed(ih, il)) == Packed(ih, il + 1) && rest[1..] == ToCome(bs, ih, il + 1)
               else NextPos(bs, Packed(ih, il)) == FirstFrom(bs, ih + 1) && rest[1..] == Flat(bs[ih + 1..])
  {
    hide FirstFrom, Packed, Flat;
    Unpack(ih, il);
    Uncons(bs[ih], il, Flat(bs[ih + 1..]));
  }

  lemma Uncons<T>(b: seq<T>, i: nat, rest: seq<T>)
    requires i < |b|
    ensures (b[i..] + rest)[0] == b[i] && (b[i..] + rest)[1..] == b[i + 1..] + rest
    ensures i + 1 == |b| ==> (b[i..] + rest)[1..] == rest
  {
  }

  /** From begin, ++ meets every entry exactly once and then reaches the end. */
  lemma VisitsAll<T>(bs: seq<seq<T>>)
    requires Fits(bs)
    ensures Visits(bs, FirstFrom(bs, 0), Flat(bs))
  {
    assert bs[0..] == bs;
    var jh := FirstToCome(bs, 0);
    if Flat(bs) != [] {
      VisitsRest(bs, jh, 0);
    }
  }

  // x lies in one of the buckets from the i-th on.
  ghost predicate Held<T>(bs: seq<seq<T>>, i: nat, x: T) {
    exists a, b :: i <= a < |bs| && 0 <= b < |bs[a]| && bs[a][b] == x
  }

  ghost predicate KeysDiffer<K, V>(h: Keys<K, V>, f: seq<V>) {
    forall j, k :: 0 <= j < k < |f| ==> h.keyOf(f[j]) != h.keyOf(f[k])
  }

  // What the buckets from the i-th on hold, all under different keys.
  lemma {:induction false} FlatKeys<K, V>(h: Keys<K, V>, bs: seq<seq<V>>, i: nat, f: seq<V>)
    requires |bs| > 0 && Placed(h, bs) && i <= |bs| && f == Flat(bs[i..])
    ensures KeysDiffer(h, f) && (forall j :: 0 <= j < |f| ==> Held(bs, i, f[j])) && forall a, b :: i <= a < |bs| && 0 <= b < |bs[a]| ==> bs[a][b] in f
    decreases |bs| - i
  {
    if i < |bs| {
      var g := Flat(bs[i + 1..]);
      assert bs[i..][0] == bs[i] && bs[i..][1..] == bs[i + 1..] && f == bs[i] + g;
      FlatKeys(h, bs, i + 1, g);
      hide Held, Flat;
      BucketApart(h, bs, i, g);
      forall j | 0 <= j < |f| ensures Held(bs, i, f[j]) {
        HeldMore(bs, i, f[j]);
        assert j < |bs[i]| || f[j] == g[j - |bs[i]|];
      }
    }
  }

  lemma HeldMore<T>(bs: seq<seq<T>>, i: nat, x: T)
    requires i < |bs|
    ensures Held(bs, i + 1, x) || x in bs[i] ==> Held(bs, i, x)
  {
  }

  lemma BucketApart<K, V>(h: Keys<K, V>, bs: seq<seq<V>>, i: nat, g: seq<V>)
    requires i < |bs| && Placed(h, bs) && KeysDiffer(h, g) && forall j :: 0 <= j < |g| ==> Held(bs, i + 1, g[j])
    ensures KeysDiffer(h, bs[i] + g)
  {
    var f := bs[i];
    assert InBucket(h, f, i, |bs|);
    forall j, k | 0 <= j < |f| && 0 <= k < |g| ensures h.keyOf(f[j]) != h.keyOf(g[k]) {
      assert Held(bs, i + 1, g[k]);
      var a, b :| i + 1 <= a < |bs| && 0 <= b < |bs[a]| && bs[a][b] == g[k];
      assert InBucket(h, bs[a], a, |bs|);
    }
  }

  /** The entries met by the iterator are those of the map, each under its key exactly once. */
  lemma EntriesOnce<K, V>(h: Keys<K, V>, bs: seq<seq<V>>, m: map<K, V>, f: seq<V>)
    requires Represents(h, bs, m) && f == Flat(bs)
    ensures forall j :: 0 <= j < |f| ==> h.keyOf(f[j]) in m && m[h.keyOf(f[j])] == f[j]
    ensures KeysDiffer(h, f) && (forall k :: k in m ==> m[k] in f) && |f| == |m|
  {
    assert bs[0..] == bs;
    FlatKeys(h, bs, 0, f);
    hide Flat, IndexIn;
    forall j | 0 <= j < |f| ensures h.keyOf(f[j]) in m && m[h.keyOf(f[j])] == f[j] {
      assert Held(bs, 0, f[j]);
    }
    forall k | k in m ensures m[k] in f && h.keyOf(m[k]) == k {
      InItsBucket(h, bs, m, k);
    }
    var ks := seq(|f|, j requires 0 <= j < |f| => h.keyOf(f[j]));
    forall k | k in m ensures k in ks {
      InItsBucket(h, bs, m, k);
      var j := PlaceOf(f, m[k]);
      assert ks[j] == k;
    }
    KeyCount(ks, m.Keys);
  }

  lemma PlaceOf<T>(f: seq<T>, x: T) returns (j: nat)
    requires x in f
    ensures j < |f| && f[j] == x
  {
    j :| 0 <= j < |f| && f[j] == x;
  }

  lemma InItsBucket<K, V>(h: Keys<K, V>, bs: seq<seq<V>>, m: map<K, V>, k: K)
    requires Represents(h, bs, m) && k in m
    ensures h.keyOf(m[k]) == k && exists a, b :: 0 <= a < |bs| && 0 <= b < |bs[a]| && bs[a][b] == m[k]
  {
    var u := Upos(h, |bs|, k);
    assert bs[u][IndexIn(h, bs[u], k)] == m[k];
  }

  lemma {:induction false} KeyCount<K>(ks: seq<K>, s: set<K>)
    requires (forall j, k :: 0 <= j < k < |ks| ==> ks[j] != ks[k]) && (forall k :: k in ks <==> k in s)
    ensures |ks| == |s|
    decreases |ks|
  {
    if ks != [] {
      KeyCount(ks[1..], s - {ks[0]});
    }
  }
}
