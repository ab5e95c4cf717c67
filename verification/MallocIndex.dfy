/** lib/clplumbing/cl_malloc.c: buckets of reusable blocks in front of the system allocator. */
module MallocIndex {
  import opened Bits

  const NUMBUCKS := 12

  /** LogTable256, by its runs of equal entries. */
  function LogTable256(b: nat): (k: nat)
    requires b < 256
    ensures k < 8
  {
    if b < 2 then 0 else if b < 4 then 1 else if b < 8 then 2 else if b < 16 then 3
    else if b < 32 then 4 else if b < 64 then 5 else if b < 128 then 6 else 7
  }

  /** INT2POW2: only the three low octets are looked at. */
  function Int2Pow2(i: nat): (k: nat)
    ensures k < 24
  {
    var byte2, byte1, byte0 := i / 0x1_0000 % 256, i / 0x100 % 256, i % 256;
    if byte2 != 0 then LogTable256(byte2) + 16
    else if byte1 != 0 then LogTable256(byte1) + 8
    else LogTable256(byte0)
  }

  /** cl_bucket_sizes[j] */
  function BucketSize(j: nat): (n: nat)
    ensures n >= 32
  {
    if j == 0 then 32 else 2 * BucketSize(j - 1)
  }

  /** The bucket number cl_malloc computes, NUMBUCKS and above standing for none. */
  function Index(size: nat): (n: nat)
    requires size > 0
  {
    var n := Int2Pow2(size - 1) - Int2Pow2(BucketSize(0) - 1);
    if n < 0 then 0 else n
  }

  /** The search that the table replaces: the first bucket with room, from j on. */
  function Search(size: nat, j: nat): (n: nat)
    requires j <= NUMBUCKS
    ensures j <= n <= NUMBUCKS
    ensures forall i | j <= i < n :: BucketSize(i) < size
    ensures n < NUMBUCKS ==> size <= BucketSize(n)
    decreases NUMBUCKS - j
  {
    if j == NUMBUCKS || size <= BucketSize(j) then j else Search(size, j + 1)
  }

  /** 2^k is the highest power of two in n. */
  ghost predicate IsLog(n: nat, k: nat) {
    Pow2(k) <= n < Pow2(k + 1)
  }

  lemma Pow2Byte()
    ensures Pow2(1) == 2 && Pow2(2) == 4 && Pow2(3) == 8 && Pow2(4) == 16
    ensures Pow2(5) == 32 && Pow2(6) == 64 && Pow2(7) == 128 && Pow2(8) == 256
  {
    assert Pow2(2) == 4;
    assert Pow2(4) == 16;
    assert Pow2(6) == 64;
  }

  lemma TableIsLog(b: nat)
    requires 0 < b < 256
    ensures IsLog(b, LogTable256(b))
  {
    Pow2Byte();
  }

  /** The octet above j others decides the logarithm. */
  lemma LogAbove(n: nat, q: nat, unit: nat, j: nat, k: nat)
    requires unit == Pow2(j) && IsLog(q, k) && q * unit <= n < q * unit + unit
    ensures IsLog(n, k + j)
  {
    hide Pow2;
    Pow2Sum(k, j);
    Pow2Sum(k + 1, j);
    MulMono(Pow2(k), q, unit);
    MulMono(q + 1, Pow2(k + 1), unit);
    assert (q + 1) * unit == q * unit + unit;
    assert k + 1 + j == k + j + 1;
  }

  lemma MulMono(a: nat, b: nat, c: nat)
    requires a <= b
    ensures a * c <= b * c
  {
  }

  lemma Pow2Words()
    ensures Pow2(16) == 0x1_0000 && Pow2(24) == 0x100_0000
  {
    Pow2Byte();
    Pow2Sum(8, 8);
    Pow2Sum(16, 8);
  }

  /** Below 2^24 the table computes the logarithm. */
  lemma Int2Pow2IsLog(i: nat)
    requires 0 < i < 0x100_0000
    ensures IsLog(i, Int2Pow2(i))
  {
    hide Pow2, IsLog, LogTable256, Int2Pow2;
    Pow2Byte();
    Pow2Words();
    TopOctet(i);
    if i >= 0x1_0000 {
      TableIsLog(i / 0x1_0000);
      LogAbove(i, i / 0x1_0000, 0x1_0000, 16, LogTable256(i / 0x1_0000));
    } else if i >= 0x100 {
      TableIsLog(i / 0x100);
      LogAbove(i, i / 0x100, 0x100, 8, LogTable256(i / 0x100));
    } else {
      TableIsLog(i);
    }
  }

  /** The highest octet that is not zero is the one looked up. */
  lemma TopOctet(i: nat)
    requires i < 0x100_0000
    ensures i >= 0x1_0000 ==> Int2Pow2(i) == LogTable256(i / 0x1_0000) + 16
    ensures 0x100 <= i < 0x1_0000 ==> Int2Pow2(i) == LogTable256(i / 0x100) + 8
    ensures i < 0x100 ==> Int2Pow2(i) == LogTable256(i)
    ensures i / 0x1_0000 * 0x1_0000 <= i < i / 0x1_0000 * 0x1_0000 + 0x1_0000
    ensures i / 0x100 * 0x100 <= i < i / 0x100 * 0x100 + 0x100
  {
    hide LogTable256;
  }

  lemma {:induction false} BucketIsPow2(j: nat)
    ensures BucketSize(j) == Pow2(j + 5)
    decreases j
  {
    if j == 0 {
      Pow2Byte();
    } else {
      BucketIsPow2(j - 1);
    }
  }

  lemma MinPow2()
    ensures Int2Pow2(BucketSize(0) - 1) == 4
  {
    assert 31 / 0x1_0000 % 256 == 0 && 31 / 0x100 % 256 == 0 && 31 % 256 == 31;
  }

  /** The index is the first bucket with room, for every j. */
  lemma IndexBounds(size: nat, j: nat)
    requires 0 < size <= 0x100_0000
    ensures Index(size) <= j <==> size <= BucketSize(j)
  {
    hide Int2Pow2, Pow2, BucketSize;
    MinPow2();
    BucketIsPow2(j);
    Pow2Byte();
    if size == 1 {
      OneIsZero();
      Pow2Mono(5, j + 5);
    } else {
      var k := Int2Pow2(size - 1);
      Int2Pow2IsLog(size - 1);
      if k <= j + 4 {
        Pow2Mono(k + 1, j + 5);
      } else {
        Pow2Mono(j + 5, k);
      }
    }
  }

  lemma OneIsZero()
    ensures Int2Pow2(0) == 0
  {
  }

  /** The table-driven index is the result of the search wherever a bucket fits, and no bucket otherwise. */
  lemma IndexIsSearch(size: nat)
    requires 0 < size <= 0x100_0000
    ensures if Search(size, 0) < NUMBUCKS then Index(size) == Search(size, 0) else Index(size) >= NUMBUCKS
  {
    hide Index, BucketSize, Search;
    var n := Search(size, 0);
    IndexBounds(size, n);
    if n > 0 {
      IndexBounds(size, n - 1);
    }
  }

  /** The block taken from the bucket computed, or from the system, holds the request. */
  ghost predicate Serves(size: nat) {
    size > 0 && (Index(size) >= NUMBUCKS || size <= BucketSize(Index(size)))
  }

  lemma LowOctets(i: nat)
    ensures Int2Pow2(i) == Int2Pow2(i % 0x100_0000)
  {
    var m := i % 0x100_0000;
    var q := i / 0x100_0000;
    assert i == q * 0x100_0000 + m;
    assert i / 0x1_0000 == q * 256 + m / 0x1_0000;
    assert i / 0x100 == q * 0x1_0000 + m / 0x100;
    ModShift(m / 0x1_0000, q, 1);
    ModShift(m / 0x100, q, 256);
    ModShift(m, q, 0x1_0000);
  }

  lemma ModShift(m: nat, q: nat, c: nat)
    ensures (q * (256 * c) + m) % 256 == m % 256
  {
    var k := q * c;
    assert q * (256 * c) == 256 * k;
  }

  lemma LargestBucket()
    ensures BucketSize(NUMBUCKS - 1) == 0x1_0000
  {
    hide Pow2;
    BucketIsPow2(NUMBUCKS - 1);
    Pow2Words();
  }

  lemma {:induction false} BucketMono(a: nat, b: nat)
    requires a <= b
    ensures BucketSize(a) <= BucketSize(b)
    decreases b - a
  {
    if a < b {
      BucketMono(a + 1, b);
    }
  }

  /** Which requests are served with a block that holds them: beyond 2^24, the octets left out decide. */
  lemma ServesExactly(size: nat)
    requires size > 0
    ensures Serves(size) <==> size <= 0x100_0000 || (size - 1) % 0x100_0000 >= 0x1_0000
  {
    hide BucketSize, Int2Pow2;
    LargestBucket();
    if size <= 0x100_0000 {
      IndexBounds(size, Index(size));
    } else {
      var m := (size - 1) % 0x100_0000;
      LowOctets(size - 1);
      assert Index(size) == Index(m + 1);
      IndexBounds(m + 1, NUMBUCKS - 1);
      if m < 0x1_0000 {
        BucketMono(Index(size), NUMBUCKS - 1);
      }
    }
  }

  /** A request of 2^24 + 1 octets is given a block of the smallest bucket. */
  lemma FirstUnserved()
    ensures Index(0x100_0001) == 0 && !Serves(0x100_0001)
  {
    ServesExactly(0x100_0001);
    MinPow2();
  }
}
