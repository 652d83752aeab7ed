/**
 * Reading a descriptor to its end into a doubling buffer, src/apps/sem16/main.c:13-45.
 *
 * The first `malloc` succeeds; `grant` decides for every requested size whether `realloc` does.
 * Sizes requested in one run are all different, so this describes every pattern of failures.
 */
module ReadAll {
  import opened Descriptors
  import opened Memory
  import opened Powers

  const CHUNK := 4096
  const SIZE_LIMIT := WORD64 / 4

  // ----- capacities

  /** The least 16 * 2^k above size. */
  ghost predicate IsLeastCapacity(c: nat, size: nat) {
    exists k: nat :: c == 16 * Pow2(k) && c > size && (k == 0 || 8 * Pow2(k) <= size)
  }

  /** The doubling of the inner loop. */
  function Double(c: nat, size: nat): nat
    requires c > 0
    decreases size - c
  {
    if c > size then c else Double(2 * c, size)
  }

  function Capacity(size: nat): nat {
    Double(16, size)
  }

  lemma {:induction false} DoubleIsLeast(k: nat, size: nat)
    requires k == 0 || 8 * Pow2(k) <= size
    ensures IsLeastCapacity(Double(16 * Pow2(k), size), size)
    decreases size - 16 * Pow2(k)
  {
    if 16 * Pow2(k) <= size {
      assert 16 * Pow2(k + 1) == 2 * (16 * Pow2(k));
      DoubleIsLeast(k + 1, size);
    }
  }

  lemma LeastCapacityUnique(c: nat, d: nat, size: nat)
    requires IsLeastCapacity(c, size) && IsLeastCapacity(d, size)
    ensures c == d
  {
    var k: nat :| c == 16 * Pow2(k) && c > size && (k == 0 || 8 * Pow2(k) <= size);
    var m: nat :| d == 16 * Pow2(m) && d > size && (m == 0 || 8 * Pow2(m) <= size);
    if k < m {
      Pow2Monotone(k + 1, m);
    } else if m < k {
      Pow2Monotone(m + 1, k);
    }
  }

  lemma CapacityIsLeast(c: nat, size: nat)
    ensures c == Capacity(size) <==> IsLeastCapacity(c, size)
  {
    DoubleIsLeast(0, size);
    if IsLeastCapacity(c, size) {
      LeastCapacityUnique(c, Capacity(size), size);
    }
  }

  /** Doubling on from where a smaller size left off ends at the same capacity. */
  lemma {:induction false} DoubleOn(c: nat, size: nat, more: nat)
    requires c > 0 && size <= more
    ensures Double(c, size) > size && Double(c, size) >= c
    ensures Double(Double(c, size), more) == Double(c, more)
    decreases size - c
  {
    if c <= size {
      DoubleOn(2 * c, size, more);
    }
  }

  lemma CapacityGrows(size: nat, more: nat)
    requires size <= more
    ensures Capacity(size) > size
    ensures Double(Capacity(size), more) == Capacity(more) > more && Capacity(size) <= Capacity(more)
  {
    DoubleOn(16, size, more);
    DoubleOn(16, more, more);
    DoubleOn(Capacity(size), more, more);
  }

  lemma CapacityBounds(c: nat, size: nat)
    requires IsLeastCapacity(c, size)
    ensures if size < 16 then c == 16 else size < c <= 2 * size
  {
    var k: nat :| c == 16 * Pow2(k) && c > size && (k == 0 || 8 * Pow2(k) <= size);
    if k > 0 {
      Pow2Monotone(1, k);
    }
  }

  // ----- what is accepted

  /** The buffer need not grow for a chunk, or may. */
  predicate Fits(size: nat, more: nat, grant: nat -> bool) {
    Capacity(more) == Capacity(size) || grant(Capacity(more))
  }

  /** How many bytes are kept from read i on, with size of them there: up to an end, an error or a refused growth. */
  function AcceptedSize(source: seq<ReadResult<char>>, i: nat, size: nat, grant: nat -> bool): nat
    decreases |source| - i
  {
    if !HasData(source, i) || !Fits(size, size + |source[i].bytes|, grant) then size
    else AcceptedSize(source, i + 1, size + |source[i].bytes|, grant)
  }

  /** More bytes than fit, for which the least capacity that suffices is not granted. */
  ghost predicate Refused(size: nat, more: nat, grant: nat -> bool) {
    exists c: nat, d: nat :: IsLeastCapacity(c, size) && IsLeastCapacity(d, more) && c < d && !grant(d)
  }

  /** Memory is asked for only when the capacity has to grow, and then for the least that suffices. */
  lemma FitsUnlessRefused(size: nat, more: nat, grant: nat -> bool)
    requires size <= more
    ensures Fits(size, more, grant) <==> !Refused(size, more, grant)
  {
    CapacityGrows(size, more);
    CapacityIsLeast(Capacity(size), size);
    CapacityIsLeast(Capacity(more), more);
    if Refused(size, more, grant) {
      var c: nat, d: nat :| IsLeastCapacity(c, size) && IsLeastCapacity(d, more) && c < d && !grant(d);
      CapacityIsLeast(c, size);
      CapacityIsLeast(d, more);
    }
  }

  /** Read number k, after n bytes, delivers bytes for which memory is not refused. */
  ghost predicate Keeps(source: seq<ReadResult<char>>, k: nat, n: nat, grant: nat -> bool) {
    HasData(source, k) && !Refused(n, n + |source[k].bytes|, grant)
  }

  /** From read i on, read m is the first whose bytes are not kept; n bytes come before it. */
  ghost predicate StopsAt(source: seq<ReadResult<char>>, i: nat, m: nat, n: nat, grant: nat -> bool) {
    && i <= m && Delivered(source, m, n) && !Keeps(source, m, n, grant)
    && forall k: nat, j: nat :: i <= k < m && Delivered(source, k, j) ==> Keeps(source, k, j, grant)
  }

  /**
   * The kept bytes are those of whole reads, up to the first that delivers nothing or is refused memory
   * that it needs.
   */
  lemma {:induction false} AcceptedReads(source: seq<ReadResult<char>>, i: nat, size: nat, grant: nat -> bool)
    returns (m: nat)
    requires Delivered(source, i, size)
    ensures StopsAt(source, i, m, AcceptedSize(source, i, size, grant), grant)
    decreases |source| - i
  {
    if HasData(source, i) {
      FitsUnlessRefused(size, size + |source[i].bytes|, grant);
    }
    if !Keeps(source, i, size, grant) {
      m := i;
    } else {
      NextRead(source, i, size);
      m := AcceptedReads(source, i + 1, size + |source[i].bytes|, grant);
    }
  }

  /** Only one number of bytes stops that way. */
  lemma StopsOnce(source: seq<ReadResult<char>>, i: nat, m: nat, n: nat, m': nat, n': nat, grant: nat -> bool)
    requires StopsAt(source, i, m, n, grant) && StopsAt(source, i, m', n', grant)
    ensures m == m' && n == n'
  {
  }

  /** Without refusals everything before the end is kept. */
  lemma {:induction false} AllAccepted(source: seq<ReadResult<char>>, i: nat, size: nat, grant: nat -> bool)
    requires Delivered(source, i, size)
    requires forall c :: grant(c)
    ensures AcceptedSize(source, i, size, grant) == |Stream(source)|
    decreases |source| - i
  {
    NextRead(source, i, size);
    if HasData(source, i) {
      AllAccepted(source, i + 1, size + |source[i].bytes|, grant);
    }
  }

  // ----- read_all

  /** The inner loop; the sizes stay within 64 bits. */
  method Grow(capacity: nat, requiredCapacity: nat) returns (nextCapacity: nat)
    requires 0 < capacity && 0 < requiredCapacity <= SIZE_LIMIT
    ensures nextCapacity == Double(capacity, requiredCapacity - 1)
  {
    nextCapacity := capacity;
    while nextCapacity < requiredCapacity
      invariant 0 < nextCapacity
      invariant Double(nextCapacity, requiredCapacity - 1) == Double(capacity, requiredCapacity - 1)
      decreases requiredCapacity - nextCapacity
    {
      assert nextCapacity * 2 < WORD64;
      nextCapacity := nextCapacity * 2;
    }
  }

  method ReadAll(source: seq<ReadResult<char>>, grant: nat -> bool) returns (buffer: array<char>, size: nat)
    requires WellCut(source, CHUNK) && |Stream(source)| < SIZE_LIMIT
    ensures fresh(buffer) && IsLeastCapacity(buffer.Length, size)
    ensures if size < 16 then buffer.Length == 16 else size < buffer.Length <= 2 * size
    ensures size < buffer.Length && buffer[size] == '\0'
    ensures exists m: nat :: StopsAt(source, 0, m, size, grant)
    ensures size == AcceptedSize(source, 0, 0, grant) <= |Stream(source)|
    ensures forall k :: 0 <= k < size ==> buffer[k] == Stream(source)[k]
  {
    size := 0;
    var capacity := 16;
    buffer := new char[capacity];
    var i := 0;
    while HasData(source, i)
      decreases |source| - i
      invariant fresh(buffer) && buffer.Length == capacity == Capacity(size) && size < capacity
      invariant Delivered(source, i, size)
      invariant forall k :: 0 <= k < size ==> buffer[k] == Stream(source)[k]
      invariant AcceptedSize(source, i, size, grant) == AcceptedSize(source, 0, 0, grant)
    {
      var tmp := source[i].bytes;
      NextRead(source, i, size);
      var requiredCapacity := |tmp| + size + 1;
      var nextCapacity := Grow(capacity, requiredCapacity);
      CapacityGrows(size, size + |tmp|);
      if nextCapacity != capacity {
        var nextBuffer := Realloc(buffer, nextCapacity, grant(nextCapacity));
        if nextBuffer == null {
          break;
        }
        buffer := nextBuffer;
        capacity := nextCapacity;
      }
      CopyInto(buffer, size, tmp);
      size := size + |tmp|;
      i := i + 1;
    }
    buffer[size] := '\0';
    CapacityIsLeast(buffer.Length, size);
    CapacityBounds(buffer.Length, size);
    ghost var m := AcceptedReads(source, 0, 0, grant);
  }
}
