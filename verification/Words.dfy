/** Bytes and the little-endian two's-complement words the rewriter reads and writes through unaligned casts. */
module Words {
  type byte = x: int | 0 <= x < 256

  const TWO32: int := 0x1_0000_0000

  /** Half the number of values of a w-byte word: a signed word lies in [-HalfRange(w), HalfRange(w)). */
  function HalfRange(w: nat): int
    requires w > 0
  {
    if w == 1 then 0x80 else 0x100 * HalfRange(w - 1)
  }

  predicate FitsSigned(w: nat, v: int)
    requires w > 0
  {
    -HalfRange(w) <= v < HalfRange(w)
  }

  /** The low w bytes of v, least significant first; for negative v these are its two's-complement bytes. */
  function Store(w: nat, v: int): (s: seq<byte>)
    ensures |s| == w
  {
    if w == 0 then [] else [v % 256] + Store(w - 1, v / 256)
  }

  /** The signed word held in s. */
  function Load(s: seq<byte>): int
    requires s != []
  {
    if |s| == 1 then (if s[0] < 128 then s[0] else s[0] - 256)
    else s[0] + 256 * Load(s[1..])
  }

  lemma {:induction false} LoadFits(s: seq<byte>)
    requires s != []
    ensures FitsSigned(|s|, Load(s))
  {
    if |s| > 1 {
      LoadFits(s[1..]);
    }
  }

  /** Reading back a stored value gives that value exactly when the width can hold it. */
  lemma {:induction false} LoadStore(w: nat, v: int)
    requires w > 0
    ensures Load(Store(w, v)) == v <==> FitsSigned(w, v)
  {
    if w > 1 {
      LoadStore(w - 1, v / 256);
      assert Store(w, v)[1..] == Store(w - 1, v / 256);
    }
  }

  /** Storing back a loaded word reproduces its bytes. */
  lemma {:induction false} StoreLoad(s: seq<byte>)
    requires s != []
    ensures Store(|s|, Load(s)) == s
  {
    if |s| > 1 {
      StoreLoad(s[1..]);
      assert Load(s) / 256 == Load(s[1..]);
    }
  }

  /** A stored word only loses a multiple of its full range. */
  lemma {:induction false} LoadStoreDrift(w: nat, v: int) returns (k: int)
    requires w > 0
    ensures Load(Store(w, v)) == v + k * (2 * HalfRange(w))
  {
    if w == 1 {
      k := (if v % 256 < 128 then 0 else -1) - v / 256;
    } else {
      k := LoadStoreDrift(w - 1, v / 256);
      assert Store(w, v)[1..] == Store(w - 1, v / 256);
      assert k * (2 * HalfRange(w)) == 256 * (k * (2 * HalfRange(w - 1)));
    }
  }

  /** A 32-bit word keeps its value modulo 2^32, however it was computed. */
  lemma LoadStoreMod32(v: int)
    ensures Load(Store(4, v)) % TWO32 == v % TWO32
  {
    hide Load, Store;
    var k := LoadStoreDrift(4, v);
    assert 2 * HalfRange(4) == TWO32;
    SameRest(v, k);
  }

  lemma SameRest(v: int, k: int)
    ensures (v + k * TWO32) % TWO32 == v % TWO32
  {
  }

  lemma NextByte(v: int, m: int)
    ensures (v + 256 * m) % 256 == v % 256 && (v + 256 * m) / 256 == v / 256 + m
  {
  }

  /** Multiples of the full range are not stored. */
  lemma {:induction false} StoreDrops(w: nat, v: int, k: int)
    requires w > 0
    ensures Store(w, v + k * (2 * HalfRange(w))) == Store(w, v)
  {
    if w == 1 {
      NextByte(v, k);
    } else {
      var m := k * (2 * HalfRange(w - 1));
      assert k * (2 * HalfRange(w)) == 256 * m;
      NextByte(v, m);
      StoreDrops(w - 1, v / 256, k);
    }
  }

  /** What is stored in one or four bytes depends on the value modulo 2^32 only. */
  lemma StoreCongruent(w: nat, x: int, y: int)
    requires (w == 1 || w == 4) && x % TWO32 == y % TWO32
    ensures Store(w, x) == Store(w, y)
  {
    hide Store;
    var k := x / TWO32 - y / TWO32;
    assert x == y + k * TWO32;
    assert 2 * HalfRange(1) == 0x100 && 2 * HalfRange(4) == TWO32;
    StoreDrops(w, y, if w == 1 then k * 0x100_0000 else k);
  }

  /** Splitting a stretch of a sequence where its two parts meet. */
  lemma SplitSlice<T>(s: seq<T>, p: nat, q: nat, e: nat, left: seq<T>, right: seq<T>)
    requires p <= q <= e <= |s| && |left| == q - p
    requires s[p..e] == left + right
    ensures s[p..q] == left && s[q..e] == right
  {
    assert s[p..q] == s[p..e][..q - p];
    assert s[q..e] == s[p..e][q - p..];
  }
}
