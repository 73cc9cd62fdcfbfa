/** The content-defined chunker of bench/cdc.c and its caller in bench/dedup.py.

    A chunking is specified without reference to the loops: `IsCut` says which
    length a chunk must have, `Chunks` iterates it.  The C function is proved to
    store exactly that chunking, and the chunking is proved local: a cut that is
    not forced by the end of the input depends on the chunk's own bytes only. */
module Cdc {
  import opened Base

  const TWO64: nat := 0x1_0000_0000_0000_0000

  /** uint64_t, with the wrap-around written out where the C code relies on it. */
  type u64 = x: int | 0 <= x < TWO64

  /** The bitwise conjunction of two words. */
  function And(x: nat, m: nat): nat {
    if x == 0 || m == 0 then 0 else (x % 2) * (m % 2) + 2 * And(x / 2, m / 2)
  }

  /** Chunker configuration: the arguments of fastcdc_cortar other than the data. */
  datatype Config = Config(minimo: nat, normal: int, maximo: nat,
                           mascaraS: u64, mascaraL: u64, gear: seq<u64>)
  {
    /** All the C code needs in order to stay in bounds and to make progress. */
    predicate Valid() { |gear| == 256 && 0 < maximo }

    /** What every caller passes besides: a minimum below the maximum. */
    predicate Bounded() { Valid() && minimo < maximo }
  }

  // ---------------------------------------------------------------- the rolling hash

  /** `(fp << 1) + g` on 64-bit words. */
  function Roll(fp: u64, g: u64): u64 { (2 * fp + g) % TWO64 }

  /** The hash `fp` once bytes lo..hi of the chunk have been fed, starting from 0. */
  function Fp(c: Config, s: seq<byte>, lo: nat, hi: nat): u64
    requires c.Valid() && hi <= |s|
  {
    if hi <= lo then 0 else Roll(Fp(c, s, lo, hi - 1), c.gear[s[hi - 1]])
  }

  function Pow2(k: nat): (p: nat)
    ensures 0 < p
  {
    if k == 0 then 1 else 2 * Pow2(k - 1)
  }

  /** The gear values of bytes lo..hi, each weighted by two to the power of its distance
      from the end, summed without wrap-around. */
  function GearSum(c: Config, s: seq<byte>, lo: nat, hi: nat): nat
    requires c.Valid() && hi <= |s|
    decreases hi - lo
  {
    if hi <= lo then 0
    else c.gear[s[lo]] * Pow2(hi - 1 - lo) + GearSum(c, s, lo + 1, hi)
  }

  lemma {:induction false} GearSumStep(c: Config, s: seq<byte>, lo: nat, hi: nat)
    requires c.Valid() && lo <= hi < |s|
    ensures GearSum(c, s, lo, hi + 1) == 2 * GearSum(c, s, lo, hi) + c.gear[s[hi]]
    decreases hi - lo
  {
    if lo < hi {
      GearSumStep(c, s, lo + 1, hi);
      var g, p := c.gear[s[lo]], Pow2(hi - 1 - lo);
      assert Pow2(hi - lo) == 2 * p;
      assert g * (2 * p) == 2 * (g * p);
    } else {
      assert GearSum(c, s, lo + 1, hi + 1) == 0;
      assert Pow2(0) == 1;
    }
  }

  lemma MultipleWraps(q: nat, r: nat)
    ensures (q * TWO64 + r) % TWO64 == r % TWO64
  {
  }

  lemma RollModulo(x: nat, g: u64)
    ensures Roll(x % TWO64, g) == (2 * x + g) % TWO64
  {
    var q, r := x / TWO64, x % TWO64;
    MultipleWraps(2 * q, 2 * r + g);
  }

  /** The rolling update computes the distance-weighted sum of gear values modulo 2^64. */
  lemma {:induction false} RollingIsGearSum(c: Config, s: seq<byte>, lo: nat, hi: nat)
    requires c.Valid() && lo <= hi <= |s|
    ensures Fp(c, s, lo, hi) == GearSum(c, s, lo, hi) % TWO64
    decreases hi
  {
    if lo < hi {
      RollingIsGearSum(c, s, lo, hi - 1);
      GearSumStep(c, s, lo, hi - 1);
      RollModulo(GearSum(c, s, lo, hi - 1), c.gear[s[hi - 1]]);
    }
  }

  lemma DoubleProduct(x: int, y: int)
    ensures 2 * (x * y) == 2 * x * y
  {
  }

  lemma {:induction false} Pow2Add(a: nat, b: nat)
    ensures Pow2(a + b) == Pow2(a) * Pow2(b)
  {
    if a > 0 {
      Pow2Add(a - 1, b);
      DoubleProduct(Pow2(a - 1), Pow2(b));
    }
  }

  lemma Squared(k: nat, p: nat)
    requires Pow2(k) == p
    ensures Pow2(2 * k) == p * p
  {
    Pow2Add(k, k);
  }

  lemma Pow2At64()
    ensures Pow2(64) == TWO64
  {
    assert Pow2(4) == 16;
    hide Pow2;
    Squared(4, 16);
    Squared(8, 0x100);
    Squared(16, 0x1_0000);
    Squared(32, 0x1_0000_0000);
  }

  lemma MulSwap(x: int, y: int, z: int)
    ensures x * (y * z) == x * z * y
  {
  }

  /** A term weighted by 2^64 or more contributes nothing. */
  lemma FarTermVanishes(g: nat, k: nat, r: nat)
    requires 64 <= k
    ensures (g * Pow2(k) + r) % TWO64 == r % TWO64
  {
    hide Pow2;
    var p := Pow2(k - 64);
    Pow2At64();
    Pow2Add(64, k - 64);
    MulSwap(g, TWO64, p);
    MultipleWraps(g * p, r);
  }

  lemma OldestByteVanishes(c: Config, s: seq<byte>, lo: nat, hi: nat)
    requires c.Valid() && lo + 64 < hi <= |s|
    ensures GearSum(c, s, lo, hi) % TWO64 == GearSum(c, s, lo + 1, hi) % TWO64
  {
    hide Pow2;
    FarTermVanishes(c.gear[s[lo]], hi - 1 - lo, GearSum(c, s, lo + 1, hi));
  }

  /** The hash depends on the last 64 bytes only. */
  lemma {:induction false} HashWindow(c: Config, s: seq<byte>, lo: nat, hi: nat)
    requires c.Valid() && lo + 64 <= hi <= |s|
    ensures Fp(c, s, lo, hi) == Fp(c, s, hi - 64, hi)
    decreases hi - lo
  {
    if lo + 64 < hi {
      RollingIsGearSum(c, s, lo, hi);
      OldestByteVanishes(c, s, lo, hi);
      RollingIsGearSum(c, s, lo + 1, hi);
      HashWindow(c, s, lo + 1, hi);
    }
  }

  lemma {:induction false} SameBytesSameHash(c: Config, s: seq<byte>, ls: nat, t: seq<byte>, lt: nat, n: nat)
    requires c.Valid() && ls + n <= |s| && lt + n <= |t|
    requires s[ls..ls + n] == t[lt..lt + n]
    ensures Fp(c, s, ls, ls + n) == Fp(c, t, lt, lt + n)
  {
    if n > 0 {
      assert s[ls..ls + n][n - 1] == s[ls + n - 1] && t[lt..lt + n][n - 1] == t[lt + n - 1];
      assert s[ls..ls + n - 1] == s[ls..ls + n][..n - 1];
      assert t[lt..lt + n - 1] == t[lt..lt + n][..n - 1];
      SameBytesSameHash(c, s, ls, t, lt, n - 1);
    }
  }

  /** Once 64 bytes have been hashed the hash no longer tells where the chunk began:
      two chunks, of the same or of different files, agree wherever the last 64 bytes do. */
  lemma HashIsPositionIndependent(c: Config, s: seq<byte>, ls: nat, hs: nat, t: seq<byte>, lt: nat, ht: nat)
    requires c.Valid() && ls + 64 <= hs <= |s| && lt + 64 <= ht <= |t|
    requires s[hs - 64..hs] == t[ht - 64..ht]
    ensures Fp(c, s, ls, hs) == Fp(c, t, lt, ht)
  {
    HashWindow(c, s, ls, hs);
    HashWindow(c, t, lt, ht);
    SameBytesSameHash(c, s, hs - 64, t, ht - 64, 64);
  }

  // ---------------------------------------------------------------- the conjunction, bit by bit

  /** Bit k of x. */
  function Bit(x: nat, k: nat): nat { x / Pow2(k) % 2 }

  lemma BitStep(x: nat, k: nat)
    ensures Bit(x, 0) == x % 2 && Bit(x, k + 1) == Bit(x / 2, k)
  {
    assert Pow2(0) == 1 && x / 1 == x;
    DivDiv(x, 2, Pow2(k));
  }

  lemma BitOfZero(k: nat)
    ensures Bit(0, k) == 0
  {
    DivIs(0, Pow2(k), 0);
  }

  lemma AndStep(x: nat, m: nat)
    ensures And(x, m) % 2 == x % 2 * (m % 2) && And(x, m) / 2 == And(x / 2, m / 2)
  {
    hide And;
    AndUnfolds(x, m);
    ParityProduct(x % 2, m % 2);
    HalfOfSum(x % 2 * (m % 2), And(x / 2, m / 2));
  }

  lemma AndUnfolds(x: nat, m: nat)
    ensures And(x, m) == x % 2 * (m % 2) + 2 * And(x / 2, m / 2)
  {
    if x == 0 || m == 0 {
      assert And(x / 2, m / 2) == 0;
      ParityProduct(x % 2, m % 2);
    }
  }

  lemma ParityProduct(a: nat, b: nat)
    requires a <= 1 && b <= 1
    ensures a * b == if a == 1 && b == 1 then 1 else 0
  {
  }

  lemma HalfOfSum(a: nat, b: nat)
    requires a <= 1
    ensures (a + 2 * b) % 2 == a && (a + 2 * b) / 2 == b
  {
  }

  /** Each bit of the conjunction is the product of the two bits. */
  lemma {:induction false} AndBit(x: nat, m: nat, k: nat)
    ensures Bit(And(x, m), k) == Bit(x, k) * Bit(m, k)
    decreases k
  {
    hide And, Bit;
    AndStep(x, m);
    if k == 0 {
      BitStep(x, 0);
      BitStep(m, 0);
      BitStep(And(x, m), 0);
    } else {
      BitStep(x, k - 1);
      BitStep(m, k - 1);
      BitStep(And(x, m), k - 1);
      AndBit(x / 2, m / 2, k - 1);
    }
  }

  lemma {:induction false} SomeBit(x: nat) returns (k: nat)
    requires 0 < x
    ensures Bit(x, k) == 1
  {
    hide Bit;
    if x % 2 == 1 {
      k := 0;
      BitStep(x, 0);
    } else {
      k := SomeBit(x / 2);
      BitStep(x, k);
      k := k + 1;
    }
  }

  /** Both words have some bit set. */
  ghost predicate Share(x: nat, m: nat) { exists k: nat :: Bit(x, k) == 1 && Bit(m, k) == 1 }

  /** The mask test: the conjunction is zero exactly when no bit is set in both words. */
  lemma AndIsZero(x: nat, m: nat)
    ensures And(x, m) == 0 <==> !Share(x, m)
  {
    hide And, Bit;
    if And(x, m) == 0 {
      forall k: nat ensures !(Bit(x, k) == 1 && Bit(m, k) == 1) {
        AndBit(x, m, k);
        BitOfZero(k);
      }
    } else {
      var k := SomeBit(And(x, m));
      AndBit(x, m, k);
      BitRange(x, k);
      BitRange(m, k);
      ParityProduct(Bit(x, k), Bit(m, k));
    }
  }

  lemma BitRange(x: nat, k: nat)
    ensures 0 <= Bit(x, k) <= 1
  {
  }

  // ---------------------------------------------------------------- where a chunk ends

  /** The cut test at index i of a chunk: the hash of bytes minimo..i, under the strict
      mask below the normal size and the loose mask from there on, is zero. */
  predicate Hit(c: Config, s: seq<byte>, i: nat)
    requires c.Valid() && i < |s|
  {
    And(Fp(c, s, c.minimo, i + 1), if i < c.normal then c.mascaraS else c.mascaraL) == 0
  }

  predicate NoHit(c: Config, s: seq<byte>, hi: nat)
    requires c.Valid() && hi <= |s|
  {
    forall j :: c.minimo <= j < hi ==> !Hit(c, s, j)
  }

  /** The end of the range in which a cut is looked for. */
  function Limit(c: Config, s: seq<byte>): nat { if |s| < c.maximo then |s| else c.maximo }

  /** `len` is the length of the chunk that starts at the head of s. */
  predicate IsCut(c: Config, s: seq<byte>, len: nat)
    requires c.Valid()
  {
    if |s| <= c.minimo then len == |s|
    else
      || (c.minimo < len <= Limit(c, s) && Hit(c, s, len - 1) && NoHit(c, s, len - 1))
      || (len == Limit(c, s) && NoHit(c, s, len))
  }

  function FirstCut(c: Config, s: seq<byte>, i: nat): (len: nat)
    requires c.Valid() && c.minimo < |s|
    requires c.minimo <= i <= Limit(c, s) && NoHit(c, s, i)
    ensures IsCut(c, s, len)
    decreases Limit(c, s) - i
  {
    if i == Limit(c, s) then i
    else if Hit(c, s, i) then i + 1
    else FirstCut(c, s, i + 1)
  }

  /** The length of the first chunk of s. */
  function CutLen(c: Config, s: seq<byte>): (len: nat)
    requires c.Valid() && s != []
    ensures IsCut(c, s, len) && 0 < len <= |s|
  {
    if |s| <= c.minimo then |s|
    else if c.maximo < c.minimo then c.maximo
    else FirstCut(c, s, c.minimo)
  }

  /** There is only one cut, so `IsCut` is a complete description. */
  lemma CutIsUnique(c: Config, s: seq<byte>, x: nat, y: nat)
    requires c.Valid() && s != [] && IsCut(c, s, x) && IsCut(c, s, y)
    ensures x == y
  {
    if c.minimo < x { var hitX := Hit(c, s, x - 1); }
    if c.minimo < y { var hitY := Hit(c, s, y - 1); }
  }

  /** Index i of a chunk of s passes the mask that applies to it: none of the mask's bits is
      set in the distance-weighted gear sum, modulo 2^64, of the bytes minimo..i. */
  ghost predicate Passes(c: Config, s: seq<byte>, i: nat)
    requires c.Valid() && c.minimo <= i < |s|
  {
    !Share(GearSum(c, s, c.minimo, i + 1) % TWO64, if i < c.normal then c.mascaraS else c.mascaraL)
  }

  lemma HitIsPass(c: Config, s: seq<byte>, i: nat)
    requires c.Valid() && c.minimo <= i < |s|
    ensures Hit(c, s, i) <==> Passes(c, s, i)
  {
    hide And, Fp, GearSum, Share;
    RollingIsGearSum(c, s, c.minimo, i + 1);
    AndIsZero(Fp(c, s, c.minimo, i + 1), if i < c.normal then c.mascaraS else c.mascaraL);
  }

  /** What a chunk's length means: data of at most the minimum are one chunk; otherwise the
      chunk ends at the first index, from the minimum on, that passes its mask, strict below
      the normal size and loose from there on, and at the maximum or the end of the data if
      no index before does. */
  lemma CutMeaning(c: Config, s: seq<byte>)
    requires c.Valid() && s != []
    ensures var len := CutLen(c, s);
      if |s| <= c.minimo then len == |s|
      else if c.maximo <= c.minimo then len == c.maximo
      else
        && c.minimo < len <= |s| && len <= c.maximo
        && (forall i :: c.minimo <= i < len - 1 ==> !Passes(c, s, i))
        && (len < |s| && len < c.maximo ==> Passes(c, s, len - 1))
  {
    hide Hit, Passes;
    var len := CutLen(c, s);
    if c.minimo < |s| {
      forall i | c.minimo <= i < len ensures Hit(c, s, i) <==> Passes(c, s, i) { HitIsPass(c, s, i); }
    }
  }

  /** The chunk lengths of s, in order. */
  function Chunks(c: Config, s: seq<byte>): (lens: seq<nat>)
    requires c.Valid()
    ensures s == [] <==> lens == []
    decreases |s|
  {
    if s == [] then [] else [CutLen(c, s)] + Chunks(c, s[CutLen(c, s)..])
  }

  lemma ChunksStep(c: Config, s: seq<byte>)
    requires c.Valid() && s != []
    ensures Chunks(c, s) == [CutLen(c, s)] + Chunks(c, s[CutLen(c, s)..])
    ensures Chunks(c, s)[1..] == Chunks(c, s[CutLen(c, s)..])
  {
  }

  /** A file no longer than the minimum is one chunk. */
  lemma WholeFile(c: Config, s: seq<byte>)
    requires c.Valid() && 0 < |s| <= c.minimo
    ensures Chunks(c, s) == [|s|]
  {
    assert s[|s|..] == [];
  }

  // ---------------------------------------------------------------- partition and sizes

  /** The chunks cover the input exactly; every chunk but the last is longer than
      `minimo`, and none is longer than `maximo`. */
  lemma {:induction false} ChunksPartition(c: Config, s: seq<byte>)
    requires c.Bounded()
    ensures var lens := Chunks(c, s);
      && Sum(lens) == |s|
      && (forall k :: 0 <= k < |lens| ==> 0 < lens[k] <= c.maximo)
      && (forall k :: 0 <= k < |lens| - 1 ==> c.minimo < lens[k])
    decreases |s|
  {
    if s != [] {
      var len := CutLen(c, s);
      ChunksPartition(c, s[len..]);
      if |s| <= c.minimo { assert s[len..] == []; }
    }
  }

  lemma {:induction false} LongChunksSum(lens: seq<nat>, m: nat)
    requires forall k :: 0 <= k < |lens| - 1 ==> m < lens[k]
    requires forall k :: 0 <= k < |lens| ==> 0 < lens[k]
    ensures lens != [] ==> (|lens| - 1) * (m + 1) + 1 <= Sum(lens)
  {
    if |lens| > 1 {
      LongChunksSum(lens[1..], m);
      assert (|lens| - 1) * (m + 1) == (|lens| - 2) * (m + 1) + (m + 1);
    } else if |lens| == 1 {
      assert Sum(lens) == lens[0] + Sum(lens[1..]);
    }
  }

  lemma DivisionBound(k: nat, m: nat, n: nat)
    requires 0 < m && k * (m + 1) <= n
    ensures k <= n / m
  {
    assert k * (m + 1) == k * m + k;
    assert n < (n / m + 1) * m;
    assert k * m < (n / m + 1) * m;
  }

  /** The capacity that the caller allocates, n // minimo + 2, always suffices. */
  lemma CapacitySuffices(c: Config, s: seq<byte>)
    requires c.Bounded() && 0 < c.minimo
    ensures |Chunks(c, s)| <= |s| / c.minimo + 1
  {
    var lens := Chunks(c, s);
    ChunksPartition(c, s);
    if lens != [] {
      LongChunksSum(lens, c.minimo);
      DivisionBound(|lens| - 1, c.minimo, |s|);
    }
  }

  // ---------------------------------------------------------------- edit locality

  lemma SamePrefixSameHit(c: Config, s: seq<byte>, t: seq<byte>, n: nat, i: nat)
    requires c.Valid() && n <= |s| && n <= |t| && s[..n] == t[..n] && c.minimo <= i < n
    ensures Hit(c, s, i) == Hit(c, t, i)
  {
    assert s[c.minimo..i + 1] == s[..n][c.minimo..i + 1];
    assert t[c.minimo..i + 1] == t[..n][c.minimo..i + 1];
    SameBytesSameHash(c, s, c.minimo, t, c.minimo, i + 1 - c.minimo);
  }

  /** A cut not forced by the end of the input is a function of the chunk's own bytes:
      whatever follows them, the same chunk is cut. */
  lemma CutIsLocal(c: Config, s: seq<byte>, t: seq<byte>)
    requires c.Bounded() && s != []
    requires CutLen(c, s) < |s| && CutLen(c, s) <= |t|
    requires s[..CutLen(c, s)] == t[..CutLen(c, s)]
    ensures t != [] && CutLen(c, t) == CutLen(c, s)
  {
    var n := CutLen(c, s);
    forall i | c.minimo <= i < n ensures Hit(c, s, i) == Hit(c, t, i) {
      SamePrefixSameHit(c, s, t, n, i);
    }
    assert IsCut(c, t, n);
    CutIsUnique(c, t, n, CutLen(c, t));
  }

  ghost predicate SamePrefix(a: seq<byte>, b: seq<byte>, e: nat) {
    e <= |a| && e <= |b| && a[..e] == b[..e]
  }

  lemma SamePrefixSplit(a: seq<byte>, b: seq<byte>, n: nat, e: nat)
    requires n <= e && SamePrefix(a, b, e)
    ensures n <= |a| && n <= |b| && a[..n] == b[..n] && SamePrefix(a[n..], b[n..], e - n)
  {
    assert a[..n] == a[..e][..n] && b[..n] == b[..e][..n];
    assert a[n..][..e - n] == a[..e][n..] && b[n..][..e - n] == b[..e][n..];
  }

  lemma ConsPrefix<T>(x: T, s: seq<T>, t: seq<T>, k: nat)
    requires 0 < k && k - 1 <= |s| && k - 1 <= |t| && s[..k - 1] == t[..k - 1]
    ensures ([x] + s)[..k] == ([x] + t)[..k]
  {
    assert ([x] + s)[..k] == [x] + s[..k - 1];
    assert ([x] + t)[..k] == [x] + t[..k - 1];
  }

  /** The first chunk of such a prefix, if another chunk of it follows. */
  lemma CommonFirstChunk(c: Config, a: seq<byte>, b: seq<byte>, k: nat) returns (n: nat)
    requires c.Bounded() && 0 < k < |Chunks(c, a)|
    requires SamePrefix(a, b, Offset(Chunks(c, a), k))
    ensures n <= |a| && n <= |b| && Chunks(c, a) == [n] + Chunks(c, a[n..]) && Chunks(c, b) == [n] + Chunks(c, b[n..])
    ensures k - 1 < |Chunks(c, a[n..])| && SamePrefix(a[n..], b[n..], Offset(Chunks(c, a[n..]), k - 1))
  {
    hide Chunks, IsCut, CutLen, Offset, SamePrefix;
    n := CutLen(c, a);
    var rest := Chunks(c, a[n..]);
    ChunksStep(c, a);
    OffsetTail([n] + rest, k);
    SamePrefixSplit(a, b, n, n + Offset(rest, k - 1));
    CutIsLocal(c, a, b);
    ChunksStep(c, b);
  }

  /** Chunks that end inside a common prefix, and are not cut short by the end of their
      file, are the same chunks in both files. */
  lemma {:induction false} CommonPrefixChunks(c: Config, a: seq<byte>, b: seq<byte>, k: nat)
    requires c.Bounded() && k < |Chunks(c, a)|
    requires SamePrefix(a, b, Offset(Chunks(c, a), k))
    ensures k <= |Chunks(c, b)| && Chunks(c, b)[..k] == Chunks(c, a)[..k]
    decreases k
  {
    hide Chunks, IsCut, Offset, SamePrefix;
    if k > 0 {
      var n := CommonFirstChunk(c, a, b, k);
      CommonPrefixChunks(c, a[n..], b[n..], k - 1);
      ConsPrefix(n, Chunks(c, b[n..]), Chunks(c, a[n..]), k);
    }
  }

  /** Edit locality.  Replacing `out` by `ins` between p and s leaves alone every
      chunk of the original that ends inside p, the last chunk of the file excepted. */
  lemma EditLocality(c: Config, p: seq<byte>, out: seq<byte>, ins: seq<byte>, s: seq<byte>, k: nat)
    requires c.Bounded() && k < |Chunks(c, p + out + s)|
    requires Offset(Chunks(c, p + out + s), k) <= |p|
    ensures k <= |Chunks(c, p + ins + s)|
    ensures Chunks(c, p + ins + s)[..k] == Chunks(c, p + out + s)[..k]
  {
    var e := Offset(Chunks(c, p + out + s), k);
    assert (p + out + s)[..e] == p[..e] == (p + ins + s)[..e];
    CommonPrefixChunks(c, p + out + s, p + ins + s, k);
  }

  /** Appending data can change the last chunk only. */
  lemma AppendChangesLastChunkOnly(c: Config, a: seq<byte>, more: seq<byte>)
    requires c.Bounded() && a != []
    ensures var k := |Chunks(c, a)| - 1;
      k <= |Chunks(c, a + more)| && Chunks(c, a + more)[..k] == Chunks(c, a)[..k]
  {
    var lens := Chunks(c, a);
    var k := |lens| - 1;
    ChunksPartition(c, a);
    OffsetStep(lens, k);
    assert lens[..k + 1] == lens;
    assert (a + more)[..Offset(lens, k)] == a[..Offset(lens, k)];
    CommonPrefixChunks(c, a, a + more, k);
  }

  /** What follows a boundary is the chunking of what follows it in the file. */
  lemma {:induction false} ChunksAfterBoundary(c: Config, a: seq<byte>, k: nat)
    requires c.Valid() && k <= |Chunks(c, a)|
    ensures Offset(Chunks(c, a), k) <= |a|
    ensures Chunks(c, a)[k..] == Chunks(c, a[Offset(Chunks(c, a), k)..])
    decreases k
  {
    hide Chunks, CutLen, IsCut, Offset, Sum;
    var lens := Chunks(c, a);
    if k == 0 {
      OffsetZero(lens);
      assert a[0..] == a && lens[0..] == lens;
    } else {
      ChunksStep(c, a);
      var n := lens[0];
      var tail := lens[1..];
      ChunksAfterBoundary(c, a[n..], k - 1);
      OffsetTail(lens, k);
      SliceSuffix(a, n, Offset(tail, k - 1));
      SliceSuffix(lens, 1, k - 1);
    }
  }

  lemma SliceSuffix<T>(a: seq<T>, n: nat, m: nat)
    requires n + m <= |a|
    ensures a[n..][m..] == a[n + m..]
  {
  }

  lemma {:induction false} ChunksOfTail(c: Config, a: seq<byte>, i: nat, s: seq<byte>, x: nat)
    requires c.Valid() && x <= |s| <= |a| && a[|a| - |s|..] == s
    requires i <= |Chunks(c, a)| && Offset(Chunks(c, a), i) == |a| - |s| + x
    ensures Chunks(c, a)[i..] == Chunks(c, s[x..])
  {
    SliceSuffix(a, |a| - |s|, x);
    assert a[Offset(Chunks(c, a), i)..] == s[x..];
    ChunksAfterBoundary(c, a, i);
  }

  /** Resynchronisation.  Once the chunkings of the original and of the edited file both
      put a boundary at the same point of s, they agree to the end. */
  lemma Resynchronised(c: Config, a: seq<byte>, i: nat, b: seq<byte>, j: nat, s: seq<byte>, x: nat)
    requires c.Valid() && x <= |s| <= |a| && |s| <= |b|
    requires a[|a| - |s|..] == s && b[|b| - |s|..] == s
    requires i <= |Chunks(c, a)| && Offset(Chunks(c, a), i) == |a| - |s| + x
    requires j <= |Chunks(c, b)| && Offset(Chunks(c, b), j) == |b| - |s| + x
    ensures Chunks(c, a)[i..] == Chunks(c, b)[j..]
  {
    ChunksOfTail(c, a, i, s, x);
    ChunksOfTail(c, b, j, s, x);
  }

  // ---------------------------------------------------------------- when resynchronisation happens

  /** The loose mask uses only bits of the strict one. */
  predicate NestedMasks(c: Config) { And(c.mascaraS, c.mascaraL) == c.mascaraL }

  lemma {:induction false} StrictImpliesLoose(fp: nat, strict: nat, loose: nat)
    requires And(strict, loose) == loose && And(fp, strict) == 0
    ensures And(fp, loose) == 0
  {
    if fp != 0 && loose != 0 {
      assert loose == 2 * (loose / 2) + loose % 2;
      assert (strict % 2) * (loose % 2) <= 1;
      StrictImpliesLoose(fp / 2, strict / 2, loose / 2);
    }
  }

  /** A chunk that reaches a position whose hash passes the strict mask ends there. */
  lemma StrictHitCuts(c: Config, s: seq<byte>, i: nat)
    requires c.Bounded() && NestedMasks(c) && s != []
    requires c.minimo <= i < CutLen(c, s)
    requires And(Fp(c, s, c.minimo, i + 1), c.mascaraS) == 0
    ensures CutLen(c, s) == i + 1
  {
    StrictImpliesLoose(Fp(c, s, c.minimo, i + 1), c.mascaraS, c.mascaraL);
    assert Hit(c, s, i);
  }

  /** Chunk k of file a starts 64 hashed bytes or more before position q and reaches q. */
  ghost predicate Covers(c: Config, a: seq<byte>, k: nat, q: nat)
    requires c.Valid()
  {
    k < |Chunks(c, a)| &&
    Offset(Chunks(c, a), k) + c.minimo + 64 <= q + 1 &&
    q < Offset(Chunks(c, a), k) + Chunks(c, a)[k]
  }

  lemma SliceOfTail(a: seq<byte>, o: nat, lo: nat, hi: nat)
    requires lo <= hi && o + hi <= |a|
    ensures a[o..][lo..hi] == a[o + lo..o + hi]
  {
  }

  lemma ChunkIsCut(c: Config, a: seq<byte>, k: nat)
    requires c.Valid() && k < |Chunks(c, a)|
    ensures Offset(Chunks(c, a), k) < |a|
    ensures Chunks(c, a)[k] == CutLen(c, a[Offset(Chunks(c, a), k)..])
  {
    ChunksAfterBoundary(c, a, k);
    assert Chunks(c, a)[k..][0] == Chunks(c, a)[k];
  }

  lemma CoveredStrictHitEndsChunk(c: Config, a: seq<byte>, k: nat, q: nat)
    requires c.Bounded() && NestedMasks(c) && Covers(c, a, k, q) && 63 <= q < |a|
    requires And(Fp(c, a, q - 63, q + 1), c.mascaraS) == 0
    ensures Offset(Chunks(c, a), k + 1) == q + 1
  {
    hide And, Chunks, CutLen, Fp, IsCut, NestedMasks, Offset;
    var o := Offset(Chunks(c, a), k);
    ChunkIsCut(c, a, k);
    SliceOfTail(a, o, q - o - 63, q - o + 1);
    HashIsPositionIndependent(c, a[o..], c.minimo, q - o + 1, a, q - 63, q + 1);
    StrictHitCuts(c, a[o..], q - o);
    OffsetStep(Chunks(c, a), k);
  }

  lemma TailHash(c: Config, a: seq<byte>, s: seq<byte>, x: nat)
    requires c.Valid() && 63 <= x < |s| <= |a| && a[|a| - |s|..] == s
    ensures Fp(c, a, |a| - |s| + x - 63, |a| - |s| + x + 1) == Fp(c, s, x - 63, x + 1)
  {
    SliceOfTail(a, |a| - |s|, x - 63, x + 1);
    SameBytesSameHash(c, s, x - 63, a, |a| - |s| + x - 63, 64);
  }

  /** An edit is forgotten at the first byte of the unchanged tail that hits the strict
      mask and is reached by a chunk of either file that began far enough before it:
      from there on both files are chunked alike. */
  lemma {:induction false} EditIsForgotten(c: Config, a: seq<byte>, i: nat, b: seq<byte>, j: nat, s: seq<byte>, x: nat)
    requires c.Bounded() && NestedMasks(c) && 63 <= x < |s| <= |a| && |s| <= |b|
    requires a[|a| - |s|..] == s && b[|b| - |s|..] == s
    requires And(Fp(c, s, x - 63, x + 1), c.mascaraS) == 0
    requires Covers(c, a, i, |a| - |s| + x) && Covers(c, b, j, |b| - |s| + x)
    ensures Chunks(c, a)[i + 1..] == Chunks(c, b)[j + 1..]
  {
    hide And, Chunks, Fp, NestedMasks, Offset;
    var qa, qb := |a| - |s| + x, |b| - |s| + x;
    TailHash(c, a, s, x);
    TailHash(c, b, s, x);
    CoveredStrictHitEndsChunk(c, a, i, qa);
    CoveredStrictHitEndsChunk(c, b, j, qb);
    Resynchronised(c, a, i + 1, b, j + 1, s, x + 1);
  }

  // ---------------------------------------------------------------- the C function

  /** One turn of either scan: the next hash, and what it says about index i. */
  lemma HitStep(c: Config, s: seq<byte>, i: nat)
    requires c.Valid() && c.minimo <= i < |s|
    ensures var fp := Roll(Fp(c, s, c.minimo, i), c.gear[s[i]]);
      && Fp(c, s, c.minimo, i + 1) == fp
      && (Hit(c, s, i) <==> And(fp, if i < c.normal then c.mascaraS else c.mascaraL) == 0)
  {
    hide And, Roll;
  }

  /** The body of the chunk loop: the length of the chunk that starts at pos. */
  method ProcurarCorte(buf: seq<byte>, pos: nat, n: nat, c: Config) returns (len: nat)
    requires c.Valid() && pos < n <= |buf|
    ensures len == CutLen(c, buf[pos..n])
  {
    hide And, Chunks, CutLen, Hit, Roll;
    ghost var s := buf[pos..n];
    var resto := n - pos;
    if resto <= c.minimo {
      return resto;
    }
    var lim := if resto < c.maximo then resto else c.maximo;
    var nor := if c.normal < lim then c.normal else lim;
    var fp: u64 := 0;
    var i: nat := c.minimo;
    var achou := false;
    len := lim;
    while i < nor
      invariant c.minimo <= i <= Max(c.minimo, nor)
      invariant fp == Fp(c, s, c.minimo, i) && NoHit(c, s, i)
    {
      assert buf[pos + i] == s[i];
      HitStep(c, s, i);
      fp := Roll(fp, c.gear[buf[pos + i]]);
      if And(fp, c.mascaraS) == 0 {
        len := i + 1;
        achou := true;
        break;
      }
      i := i + 1;
    }
    if !achou {
      while i < lim
        invariant Max(c.minimo, nor) <= i <= Max(c.minimo, lim)
        invariant fp == Fp(c, s, c.minimo, i) && NoHit(c, s, i)
      {
        assert buf[pos + i] == s[i];
        HitStep(c, s, i);
        fp := Roll(fp, c.gear[buf[pos + i]]);
        if And(fp, c.mascaraL) == 0 {
          len := i + 1;
          break;
        }
        i := i + 1;
      }
    }
    if c.minimo <= c.maximo {
      CutIsUnique(c, s, len, CutLen(c, s));
    }
  }

  /** After k chunks the loop stands at pos, and what it has still to cut are the chunks of the rest. */
  ghost predicate Standing(c: Config, buf: seq<byte>, n: nat, lens: seq<nat>, k: int, pos: int)
    requires c.Valid() && n <= |buf|
  {
    0 <= k <= |lens| && 0 <= pos <= n && pos == Offset(lens, k) && lens[k..] == Chunks(c, buf[pos..n])
  }

  lemma NextChunk(c: Config, buf: seq<byte>, pos: nat, n: nat, lens: seq<nat>, k: nat, len: nat)
    requires c.Valid() && pos < n <= |buf| && Standing(c, buf, n, lens, k, pos) && len == CutLen(c, buf[pos..n])
    ensures k < |lens| && lens[k] == len && Standing(c, buf, n, lens, k + 1, pos + len)
  {
    assert lens[k..][0] == lens[k] && lens[k..][1..] == lens[k + 1..];
    assert buf[pos..n][len..] == buf[pos + len..n];
    OffsetStep(lens, k);
  }

  /** fastcdc_cortar: stores the offset and length of every chunk of the first n bytes,
      or stops with -1 at the first chunk that finds the arrays full. */
  method FastCdcCortar(buf: seq<byte>, n: nat, c: Config, offs: array<int>, tams: array<int>, cap: nat)
    returns (k: int)
    requires c.Valid() && n <= |buf| && offs != tams
    requires cap <= offs.Length && cap <= tams.Length
    modifies offs, tams
    ensures var lens := Chunks(c, buf[..n]);
      var m := Min(|lens|, cap);
      && k == (if |lens| <= cap then |lens| else -1)
      && (forall i {:trigger offs[i]} :: 0 <= i < m ==> offs[i] == Offset(lens, i))
      && (forall i {:trigger tams[i]} :: 0 <= i < m ==> tams[i] == lens[i])
      && (forall i :: m <= i < offs.Length ==> offs[i] == old(offs[i]))
      && (forall i :: m <= i < tams.Length ==> tams[i] == old(tams[i]))
  {
    hide Chunks, CutLen, IsCut;
    ghost var lens := Chunks(c, buf[..n]);
    var pos := 0;
    k := 0;
    assert buf[0..n] == buf[..n] && lens[0..] == lens;
    while pos < n
      invariant Standing(c, buf, n, lens, k, pos) && k <= cap
      invariant forall i {:trigger offs[i]} :: 0 <= i < k ==> offs[i] == Offset(lens, i)
      invariant forall i {:trigger tams[i]} :: 0 <= i < k ==> tams[i] == lens[i]
      invariant forall i :: k <= i < offs.Length ==> offs[i] == old(offs[i])
      invariant forall i :: k <= i < tams.Length ==> tams[i] == old(tams[i])
      decreases n - pos
    {
      var len := ProcurarCorte(buf, pos, n, c);
      NextChunk(c, buf, pos, n, lens, k, len);
      if k >= cap {
        return -1;
      }
      offs[k] := pos;
      tams[k] := len;
      k := k + 1;
      pos := pos + len;
    }
    assert buf[pos..n] == [];
  }

  // ---------------------------------------------------------------- the caller, bench/dedup.py

  /** The two kinds of chunker; `alvo` is the fixed or the nominal chunk size. */
  datatype Chunker = Fixo(alvo: nat) | Normalizado(alvo: nat, mascaraS: u64, mascaraL: u64, gear: seq<u64>)
  {
    /** True of every entry of CHUNKERS: below 4 the minimum alvo // 4 would be zero. */
    predicate Valid() {
      match this
      case Fixo(a) => 0 < a
      case Normalizado(a, _, _, g) => 4 <= a && |g| == 256
    }

    function Cfg(): Config
      requires Normalizado?
    {
      Config(alvo / 4, alvo, alvo * 8, mascaraS, mascaraL, gear)
    }
  }

  /** A normalised chunker of nominal size alvo: from alvo // 4 to 8 * alvo bytes, the strict
      mask below alvo and the loose one from there on. */
  lemma NormalisedChunks(ch: Chunker, s: seq<byte>)
    requires ch.Valid() && ch.Normalizado?
    ensures ChunkLens(ch, s) == Chunks(Config(ch.alvo / 4, ch.alvo, 8 * ch.alvo, ch.mascaraS, ch.mascaraL, ch.gear), s)
    ensures var lens := ChunkLens(ch, s);
      && (forall k :: 0 <= k < |lens| ==> 0 < lens[k] <= 8 * ch.alvo)
      && (forall k :: 0 <= k < |lens| - 1 ==> ch.alvo / 4 < lens[k])
  {
    hide Chunks;
    ChunksPartition(ch.Cfg(), s);
  }

  function FixedLens(alvo: nat, n: nat): (lens: seq<nat>)
    requires 0 < alvo
  {
    if n == 0 then [] else if n <= alvo then [n] else [alvo] + FixedLens(alvo, n - alvo)
  }

  /** The chunk lengths of a file under either kind of chunker. */
  function ChunkLens(ch: Chunker, s: seq<byte>): seq<nat>
    requires ch.Valid()
  {
    match ch
    case Fixo(a) => FixedLens(a, |s|)
    case Normalizado(_, _, _, _) => Chunks(ch.Cfg(), s)
  }

  lemma {:induction false} FixedLensPartition(alvo: nat, n: nat)
    requires 0 < alvo
    ensures Sum(FixedLens(alvo, n)) == n
    ensures forall k :: 0 <= k < |FixedLens(alvo, n)| ==> 0 < FixedLens(alvo, n)[k] <= alvo
  {
    if 0 < n <= alvo {
      assert Sum([n]) == n + Sum([]);
    } else if n > 0 {
      FixedLensPartition(alvo, n - alvo);
      assert FixedLens(alvo, n)[1..] == FixedLens(alvo, n - alvo);
    }
  }

  /** Whatever the chunker, a file is exactly covered by non-empty chunks. */
  lemma ChunkLensPartition(ch: Chunker, s: seq<byte>)
    requires ch.Valid()
    ensures Sum(ChunkLens(ch, s)) == |s|
    ensures forall k :: 0 <= k < |ChunkLens(ch, s)| ==> 0 < ChunkLens(ch, s)[k]
  {
    match ch
    case Fixo(a) => FixedLensPartition(a, |s|);
    case Normalizado(_, _, _, _) => ChunksPartition(ch.Cfg(), s);
  }

  lemma {:induction false} FixedLensByIndex(alvo: nat, n: nat, k: nat)
    requires 0 < alvo
    ensures var lens := FixedLens(alvo, n);
      (k < |lens| <==> k * alvo < n) &&
      (k < |lens| ==> lens[k] == Min(alvo, n - k * alvo) && Offset(lens, k) == k * alvo)
    decreases k
  {
    hide Offset;
    var lens := FixedLens(alvo, n);
    OffsetZero(lens);
    if k > 0 {
      assert k * alvo == (k - 1) * alvo + alvo;
      if n > alvo {
        FixedLensByIndex(alvo, n - alvo, k - 1);
        assert lens[1..] == FixedLens(alvo, n - alvo);
        if k < |lens| { OffsetTail(lens, k); }
      }
    }
  }

  lemma OneMoreDivisor(x: nat, a: nat)
    requires 0 < a
    ensures (x + a) / a == x / a + 1
  {
    var q := x / a;
    assert x == q * a + x % a;
    assert (q + 1) * a == q * a + a && (q + 2) * a == q * a + 2 * a;
    DivIs(x + a, a, q + 1);
  }

  lemma {:induction false} FixedLensCount(alvo: nat, n: nat)
    requires 0 < alvo
    ensures |FixedLens(alvo, n)| == (n + alvo - 1) / alvo
  {
    if n > alvo {
      FixedLensCount(alvo, n - alvo);
      OneMoreDivisor(n - 1, alvo);
    } else if n > 0 {
      DivIs(n + alvo - 1, alvo, 1);
    } else {
      DivIs(alvo - 1, alvo, 0);
    }
  }

  lemma FixedLensFormula(alvo: nat, n: nat)
    requires 0 < alvo
    ensures FixedLens(alvo, n) == seq((n + alvo - 1) / alvo, k => Min(alvo, n - k * alvo))
    ensures forall k :: 0 <= k < |FixedLens(alvo, n)| ==> Offset(FixedLens(alvo, n), k) == k * alvo
  {
    hide FixedLens, Offset;
    FixedLensCount(alvo, n);
    forall k | 0 <= k < |FixedLens(alvo, n)|
      ensures FixedLens(alvo, n)[k] == Min(alvo, n - k * alvo) && Offset(FixedLens(alvo, n), k) == k * alvo
    {
      FixedLensByIndex(alvo, n, k);
    }
  }

  /** The branch of fixed sizes. */
  method ChunkearFixo(alvo: nat, n: nat) returns (offs: seq<nat>, tams: seq<nat>)
    requires 0 < alvo
    ensures tams == FixedLens(alvo, n) && |offs| == |tams|
    ensures forall i :: 0 <= i < |offs| ==> offs[i] == Offset(tams, i)
  {
    hide FixedLens, Offset;
    FixedLensFormula(alvo, n);
    var m := (n + alvo - 1) / alvo;
    offs := seq(m, k => k * alvo);
    tams := seq(m, k => Min(alvo, n - k * alvo));
  }

  /** chunkear: the offsets and lengths of all chunks.  The capacity it allocates is
      always enough, so the RuntimeError it would raise never occurs. */
  method Chunkear(buf: seq<byte>, ch: Chunker) returns (r: Result<(seq<int>, seq<int>), string>)
    requires ch.Valid()
    ensures r.Ok? && r.value.1 == ChunkLens(ch, buf)
    ensures |r.value.0| == |r.value.1|
    ensures forall i :: 0 <= i < |r.value.0| ==> r.value.0[i] == Offset(ChunkLens(ch, buf), i)
  {
    var n := |buf|;
    if n == 0 {
      return Ok(([], []));
    }
    hide Chunks, FixedLens, Offset;
    if ch.Fixo? {
      var fixos, iguais := ChunkearFixo(ch.alvo, n);
      return Ok((fixos, iguais));
    }
    var c := ch.Cfg();
    if n <= c.minimo {
      WholeFile(c, buf);
      OffsetZero(Chunks(c, buf));
      return Ok(([0], [n]));
    }
    var cap := n / c.minimo + 2;
    var offs, tams := new int[cap], new int[cap];
    CapacitySuffices(c, buf);
    assert buf[..n] == buf;
    var k := FastCdcCortar(buf, n, c, offs, tams, cap);
    if k < 0 {
      return Err("capacidade insuficiente");
    }
    return Ok((offs[..k], tams[..k]));
  }
}
