/**
 * The matrix workload: cache-behaviour kernels over three N x N matrices
 * stored row-major in flat buffers `memA`, `memB` and `memC` (element
 * `(i, j)` at index `i*N + j`).
 *
 * The element type (C `float`) and the accumulator type (C `double`) are
 * type parameters, and the floating-point arithmetic of the kernels is
 * passed in as functions, so the model states what is read and written
 * where, not what the rounding does.  The global buffers become array
 * parameters that the source guarantees are distinct allocations.
 */
module Matrix {

  /** The matrix dimension. */
  const N: nat := 64

  /** The bytes of a cache line and of a `float`. */
  const CachelineSize: nat := 64
  const FloatSize: nat := 4

  /** The tile edge: the floats in one cache line (see TileIsCacheline). */
  const B: nat := 16

  /** The tile edge is `cacheline_size / sizeof(memory_T)`. */
  lemma TileIsCacheline()
    ensures B == CachelineSize / FloatSize
  {
  }

  // ---------------------------------------------------------------------
  // Flat indices

  /** The flat index of element (i, j): `i*N + j`. */
  function Idx(i: int, j: int): int
  {
    i * N + j
  }

  /** Row and column come back out of a flat index by division and remainder. */
  lemma IdxSplit(i: int, j: int)
    requires 0 <= j < N
    ensures Idx(i, j) / N == i && Idx(i, j) % N == j
  {
  }

  /** Every index of the buffer is the flat index of one element. */
  lemma IdxOf(k: int)
    requires 0 <= k < N * N
    ensures 0 <= k / N < N && 0 <= k % N < N && k == Idx(k / N, k % N)
  {
  }

  // ---------------------------------------------------------------------
  // loop_interchange_bad / loop_interchange_good: access orders

  /** The indices of column `j` from the top: `i*N + j` for i = 0 .. N-1. */
  function Column(j: int): (col: seq<int>)
    ensures |col| == N && forall i :: 0 <= i < N ==> col[i] == Idx(i, j)
  {
    seq(N, i => Idx(i, j))
  }

  /** The indices of row `i` from the left: `i*N + j` for j = 0 .. N-1. */
  function Row(i: int): (row: seq<int>)
    ensures |row| == N && forall j :: 0 <= j < N ==> row[j] == Idx(i, j)
  {
    seq(N, j => Idx(i, j))
  }

  /** The reads of the first `j` passes of the bad order's outer loop: columns 0 .. j-1. */
  function Columns(j: nat): (s: seq<int>)
    ensures |s| == j * N
  {
    if j == 0 then [] else Columns(j - 1) + Column(j - 1)
  }

  /** The reads of the first `i` passes of the good order's outer loop: rows 0 .. i-1. */
  function Rows(i: nat): (s: seq<int>)
    ensures |s| == i * N
  {
    if i == 0 then [] else Rows(i - 1) + Row(i - 1)
  }

  /**
   * `sum += mem[x]` for the indices x of `order`, in order, starting from
   * `zero`; an index outside `mem` adds nothing (the lemmas below show the
   * kernels never produce one).
   */
  function SumOver<S, T>(add: (S, T) -> S, zero: S, mem: seq<T>, order: seq<int>): S
  {
    if order == [] then zero
    else
      var prev := SumOver(add, zero, mem, order[..|order| - 1]);
      var x := order[|order| - 1];
      if 0 <= x < |mem| then add(prev, mem[x]) else prev
  }

  /** One more read adds one element to the sum. */
  lemma SumOverSnoc<S, T>(add: (S, T) -> S, zero: S, mem: seq<T>, order: seq<int>, x: int)
    requires 0 <= x < |mem|
    ensures SumOver(add, zero, mem, order + [x]) == add(SumOver(add, zero, mem, order), mem[x])
  {
    assert (order + [x])[..|order|] == order;
  }

  /** loop_interchange_bad: column by column, j outer and i inner, summing `memA[i*N + j]`. */
  method LoopInterchangeBad<S, T>(memA: array<T>, zero: S, add: (S, T) -> S) returns (sum: S)
    requires memA.Length == N * N
    ensures sum == SumOver(add, zero, memA[..], Columns(N))
  {
    sum := zero;
    var j := 0;
    while j < N
      invariant 0 <= j <= N
      invariant sum == SumOver(add, zero, memA[..], Columns(j))
    {
      ghost var read := Columns(j);
      var i := 0;
      while i < N
        invariant 0 <= i <= N
        invariant read == Columns(j) + Column(j)[..i]
        invariant sum == SumOver(add, zero, memA[..], read)
      {
        SumOverSnoc(add, zero, memA[..], read, Idx(i, j));
        assert Column(j)[..i + 1] == Column(j)[..i] + [Idx(i, j)];
        sum := add(sum, memA[i * N + j]);
        read := read + [Idx(i, j)];
        i := i + 1;
      }
      assert Column(j)[..N] == Column(j);
      j := j + 1;
    }
  }

  /** loop_interchange_good: row by row, i outer and j inner, summing `memA[i*N + j]`. */
  method LoopInterchangeGood<S, T>(memA: array<T>, zero: S, add: (S, T) -> S) returns (sum: S)
    requires memA.Length == N * N
    ensures sum == SumOver(add, zero, memA[..], Rows(N))
  {
    sum := zero;
    var i := 0;
    while i < N
      invariant 0 <= i <= N
      invariant sum == SumOver(add, zero, memA[..], Rows(i))
    {
      ghost var read := Rows(i);
      var j := 0;
      while j < N
        invariant 0 <= j <= N
        invariant read == Rows(i) + Row(i)[..j]
        invariant sum == SumOver(add, zero, memA[..], read)
      {
        SumOverSnoc(add, zero, memA[..], read, Idx(i, j));
        assert Row(i)[..j + 1] == Row(i)[..j] + [Idx(i, j)];
        sum := add(sum, memA[i * N + j]);
        read := read + [Idx(i, j)];
        j := j + 1;
      }
      assert Row(i)[..N] == Row(i);
      i := i + 1;
    }
  }

  /** The number of occurrences of x in s. */
  function Count(s: seq<int>, x: int): nat
  {
    if s == [] then 0 else Count(s[..|s| - 1], x) + if s[|s| - 1] == x then 1 else 0
  }

  lemma {:induction false} CountAppend(s: seq<int>, t: seq<int>, x: int)
    ensures Count(s + t, x) == Count(s, x) + Count(t, x)
    decreases |t|
  {
    if t == [] {
      assert s + t == s;
    } else {
      assert (s + t)[..|s + t| - 1] == s + t[..|t| - 1];
      CountAppend(s, t[..|t| - 1], x);
    }
  }

  lemma {:induction false} CountIsMultiset(s: seq<int>, x: int)
    ensures Count(s, x) == multiset(s)[x]
    decreases |s|
  {
    if s != [] {
      CountIsMultiset(s[..|s| - 1], x);
      assert s == s[..|s| - 1] + [s[|s| - 1]];
    }
  }

  /** The good order reads the buffer sequentially, index 0 to i*N - 1. */
  lemma {:induction false} RowsSequential(i: nat)
    ensures Rows(i) == seq(i * N, k => k)
  {
    if i > 0 {
      RowsSequential(i - 1);
    }
  }

  /** Index k occurs in the first n entries of column c once if it is one of them, and never otherwise. */
  lemma {:induction false} ColumnCount(c: int, n: nat, k: int)
    requires 0 <= c < N && n <= N
    ensures Count(Column(c)[..n], k) == if 0 <= k && k % N == c && k / N < n then 1 else 0
  {
    if n > 0 {
      ColumnCount(c, n - 1, k);
      assert Column(c)[..n][..n - 1] == Column(c)[..n - 1];
      IdxSplit(n - 1, c);
    }
  }

  /** The first j columns read index k once if k's column is below j, and never otherwise. */
  lemma {:induction false} ColumnsCount(j: nat, k: int)
    requires j <= N
    ensures Count(Columns(j), k) == if 0 <= k < N * N && k % N < j then 1 else 0
  {
    if j > 0 {
      ColumnsCount(j - 1, k);
      ColumnCount(j - 1, N, k);
      assert Column(j - 1)[..N] == Column(j - 1);
      CountAppend(Columns(j - 1), Column(j - 1), k);
    }
  }

  /** The indices 0 .. n-1 contain k once if it is below n, and never otherwise. */
  lemma {:induction false} RangeCount(n: nat, k: int)
    ensures Count(seq(n, x => x), k) == if 0 <= k < n then 1 else 0
  {
    if n > 0 {
      RangeCount(n - 1, k);
      assert seq(n, x => x)[..n - 1] == seq(n - 1, x => x);
    }
  }

  /** The bad order reads each of the N*N elements of `memA` exactly once, and nothing else. */
  lemma ColumnsReadOnce()
    ensures forall k :: Count(Columns(N), k) == if 0 <= k < N * N then 1 else 0
  {
    forall k
      ensures Count(Columns(N), k) == if 0 <= k < N * N then 1 else 0
    {
      ColumnsCount(N, k);
    }
  }

  /** The good order reads each of the N*N elements of `memA` exactly once, and nothing else. */
  lemma RowsReadOnce()
    ensures forall k :: Count(Rows(N), k) == if 0 <= k < N * N then 1 else 0
  {
    RowsSequential(N);
    forall k
      ensures Count(Rows(N), k) == if 0 <= k < N * N then 1 else 0
    {
      RangeCount(N * N, k);
    }
  }

  /** Sequences with the same occurrence counts are permutations of each other. */
  lemma MultisetByCount(s: seq<int>, t: seq<int>)
    requires forall x :: Count(s, x) == Count(t, x)
    ensures multiset(s) == multiset(t)
  {
    forall x
      ensures multiset(s)[x] == multiset(t)[x]
    {
      CountIsMultiset(s, x);
      CountIsMultiset(t, x);
    }
  }

  /** The two orders read the same elements: one is a permutation of the other. */
  lemma InterchangeSameReads()
    ensures multiset(Columns(N)) == multiset(Rows(N))
  {
    ColumnsReadOnce();
    RowsReadOnce();
    MultisetByCount(Columns(N), Rows(N));
  }

  // ---------------------------------------------------------------------
  // loop_fusion_off / loop_fusion_on

  /** The state both fusion kernels must leave: memB[i] = f(memA[i]) and memC[i] = g(memB[i]). */
  predicate Fused<T(==)>(a: seq<T>, b: seq<T>, c: seq<T>, f: T -> T, g: T -> T)
  {
    |a| == |b| == |c| == N * N
    && (forall i :: 0 <= i < N * N ==> b[i] == f(a[i]))
    && (forall i :: 0 <= i < N * N ==> c[i] == g(b[i]))
  }

  /** loop_fusion_off: first a pass writing memB from memA, then a pass writing memC from memB. */
  method LoopFusionOff<T(==)>(memA: array<T>, memB: array<T>, memC: array<T>, f: T -> T, g: T -> T)
    requires memA.Length == N * N && memB.Length == N * N && memC.Length == N * N
    requires memA != memB && memA != memC && memB != memC
    modifies memB, memC
    ensures Fused(memA[..], memB[..], memC[..], f, g)
  {
    var i := 0;
    while i < N * N
      invariant 0 <= i <= N * N
      invariant forall k :: 0 <= k < i ==> memB[k] == f(memA[k])
    {
      memB[i] := f(memA[i]);
      i := i + 1;
    }
    i := 0;
    while i < N * N
      invariant 0 <= i <= N * N
      invariant forall k :: 0 <= k < N * N ==> memB[k] == f(memA[k])
      invariant forall k :: 0 <= k < i ==> memC[k] == g(memB[k])
    {
      memC[i] := g(memB[i]);
      i := i + 1;
    }
  }

  /** loop_fusion_on: one pass writing memB[i] and then memC[i] from it. */
  method LoopFusionOn<T(==)>(memA: array<T>, memB: array<T>, memC: array<T>, f: T -> T, g: T -> T)
    requires memA.Length == N * N && memB.Length == N * N && memC.Length == N * N
    requires memA != memB && memA != memC && memB != memC
    modifies memB, memC
    ensures Fused(memA[..], memB[..], memC[..], f, g)
  {
    var i := 0;
    while i < N * N
      invariant 0 <= i <= N * N
      invariant forall k :: 0 <= k < i ==> memB[k] == f(memA[k]) && memC[k] == g(memB[k])
    {
      memB[i] := f(memA[i]);
      memC[i] := g(memB[i]);
      i := i + 1;
    }
  }

  /** The state the fusion kernels leave is determined by memA: fused and unfused loops agree. */
  lemma FusedUnique<T>(a: seq<T>, b: seq<T>, c: seq<T>, b': seq<T>, c': seq<T>, f: T -> T, g: T -> T)
    requires Fused(a, b, c, f, g) && Fused(a, b', c', f, g)
    ensures b == b' && c == c'
  {
    assert forall i :: 0 <= i < N * N ==> b[i] == b'[i];
  }

  // ---------------------------------------------------------------------
  // loop_blocking_off / loop_blocking_on: transposes

  /** Two buffers that agree on every element are equal. */
  lemma EntriesEqual<T>(x: seq<T>, y: seq<T>)
    requires |x| == N * N && |y| == N * N
    requires forall i, j :: 0 <= i < N && 0 <= j < N ==> x[Idx(i, j)] == y[Idx(i, j)]
    ensures x == y
  {
    forall k | 0 <= k < N * N
      ensures x[k] == y[k]
    {
      IdxOf(k);
    }
  }

  /** The transpose: element (j, i) of the result is element (i, j) of `a`. */
  function Transpose<T>(a: seq<T>): (t: seq<T>)
    requires |a| == N * N
    ensures |t| == N * N
  {
    seq(N * N, k requires 0 <= k < N * N => a[Idx(k % N, k / N)])
  }

  /** A buffer is the transpose of `a` exactly when it holds a[i*N + j] at j*N + i for every i and j. */
  lemma TransposeEntries<T>(t: seq<T>, a: seq<T>)
    requires |t| == N * N && |a| == N * N
    ensures t == Transpose(a) <==>
              forall i, j :: 0 <= i < N && 0 <= j < N ==> t[Idx(j, i)] == a[Idx(i, j)]
  {
    forall i, j | 0 <= i < N && 0 <= j < N
      ensures Transpose(a)[Idx(j, i)] == a[Idx(i, j)]
    {
      IdxSplit(j, i);
    }
    if forall i, j :: 0 <= i < N && 0 <= j < N ==> t[Idx(j, i)] == a[Idx(i, j)] {
      EntriesEqual(t, Transpose(a));
    }
  }

  /** Transposing twice gives back the matrix. */
  lemma TransposeInvolution<T>(a: seq<T>)
    requires |a| == N * N
    ensures Transpose(Transpose(a)) == a
  {
    TransposeEntries(Transpose(a), a);
    TransposeEntries(Transpose(Transpose(a)), Transpose(a));
    EntriesEqual(Transpose(Transpose(a)), a);
  }

  /** The position of row or column x within its B-wide tile, x mod B. */
  function Offset(x: int): (r: int)
    ensures x >= 0 ==> 0 <= r < B
    decreases x
  {
    if x < B then x else Offset(x - B)
  }

  /** Element (i, j) lies in the first `w` rows and the first `w` columns of its B x B tile. */
  predicate InTile(i: int, j: int, w: int)
  {
    Offset(i) < w && Offset(j) < w
  }

  /**
   * What the tiled transpose leaves in memB when each tile's inner loops
   * run `w` steps: the transposed element where both coordinates are in the
   * first `w` of their tile, and the old memB `b0` elsewhere.
   */
  function Blocked<T>(a: seq<T>, b0: seq<T>, w: int): (r: seq<T>)
    requires |a| == N * N && |b0| == N * N
    ensures |r| == N * N
  {
    seq(N * N, k requires 0 <= k < N * N =>
      if InTile(k % N, k / N, w) then a[Idx(k % N, k / N)] else b0[k])
  }

  /** A buffer is `Blocked(a, b0, w)` exactly when it holds the transposed element inside the tiles' `w` x `w` corners and `b0` elsewhere. */
  lemma BlockedEntries<T>(r: seq<T>, a: seq<T>, b0: seq<T>, w: int)
    requires |r| == N * N && |a| == N * N && |b0| == N * N
    ensures r == Blocked(a, b0, w) <==>
              forall i, j :: 0 <= i < N && 0 <= j < N ==>
                r[Idx(j, i)] == if InTile(i, j, w) then a[Idx(i, j)] else b0[Idx(j, i)]
  {
    forall i, j | 0 <= i < N && 0 <= j < N
      ensures Blocked(a, b0, w)[Idx(j, i)] == if InTile(i, j, w) then a[Idx(i, j)] else b0[Idx(j, i)]
    {
      IdxSplit(j, i);
    }
    if forall i, j :: 0 <= i < N && 0 <= j < N ==>
         r[Idx(j, i)] == if InTile(i, j, w) then a[Idx(i, j)] else b0[Idx(j, i)] {
      EntriesEqual(r, Blocked(a, b0, w));
    }
  }

  /** With inner loops of the full tile width the tiled transpose is the transpose, whatever memB held. */
  lemma BlockedFullIsTranspose<T>(a: seq<T>, b0: seq<T>)
    requires |a| == N * N && |b0| == N * N
    ensures Blocked(a, b0, B) == Transpose(a)
  {
    BlockedEntries(Blocked(a, b0, B), a, b0, B);
    TransposeEntries(Blocked(a, b0, B), a);
  }

  /**
   * With inner loops one short of the tile width, element (15, 0) of memA
   * never reaches memB[15]: the tiled transpose keeps the old memB[15], and
   * differs from the transpose whenever that differs from memA[15*N].
   */
  lemma BlockedShortMissesEdge<T>(a: seq<T>, b0: seq<T>)
    requires |a| == N * N && |b0| == N * N
    ensures Blocked(a, b0, B - 1)[15] == b0[15]
    ensures b0[15] != a[15 * N] ==> Blocked(a, b0, B - 1) != Transpose(a)
  {
    IdxSplit(0, 15);
    assert Transpose(a)[Idx(0, 15)] == a[Idx(15, 0)];
  }

  /** loop_blocking_off: memB[j*N + i] = memA[i*N + j] for every i and j. */
  method LoopBlockingOff<T>(memA: array<T>, memB: array<T>)
    requires memA.Length == N * N && memB.Length == N * N && memA != memB
    modifies memB
    ensures memB[..] == Transpose(memA[..])
  {
    var i := 0;
    while i < N
      invariant 0 <= i <= N
      invariant forall i', j' :: 0 <= i' < i && 0 <= j' < N ==> memB[Idx(j', i')] == memA[Idx(i', j')]
    {
      var j := 0;
      while j < N
        invariant 0 <= j <= N
        invariant forall i', j' :: 0 <= i' < N && 0 <= j' < N && (i' < i || (i' == i && j' < j)) ==>
                    memB[Idx(j', i')] == memA[Idx(i', j')]
      {
        memB[j * N + i] := memA[i * N + j];
        j := j + 1;
      }
      i := i + 1;
    }
    TransposeEntries(memB[..], memA[..]);
  }

  /** `std::min`: the smaller of the two bounds. */
  function Min(x: int, y: int): (r: int)
    ensures r <= x && r <= y && (r == x || r == y)
  {
    if x < y then x else y
  }

  /**
   * The two inner loops of the tiled transpose for the tile
   * whose rows start at `ii` and columns at `jj`, each running to
   * `min(start + w, N)`.
   */
  method CopyTile<T>(memA: array<T>, memB: array<T>, ii: int, jj: int, w: int)
    requires memA.Length == N * N && memB.Length == N * N && memA != memB
    requires 0 <= ii && ii + B <= N && 0 <= jj && jj + B <= N && 0 <= w <= B
    modifies memB
    ensures forall i, j :: 0 <= i < N && 0 <= j < N ==>
              memB[Idx(j, i)] == if ii <= i < ii + w && jj <= j < jj + w then memA[Idx(i, j)] else old(memB[Idx(j, i)])
  {
    var i := ii;
    while i < Min(ii + w, N)
      invariant ii <= i <= ii + w
      invariant forall i', j' :: 0 <= i' < N && 0 <= j' < N ==>
                  memB[Idx(j', i')] == if ii <= i' < i && jj <= j' < jj + w then memA[Idx(i', j')] else old(memB[Idx(j', i')])
    {
      var j := jj;
      while j < Min(jj + w, N)
        invariant jj <= j <= jj + w
        invariant forall i', j' :: 0 <= i' < N && 0 <= j' < N ==>
                    memB[Idx(j', i')] == if (ii <= i' < i && jj <= j' < jj + w) || (i' == i && jj <= j' < j)
                                         then memA[Idx(i', j')] else old(memB[Idx(j', i')])
      {
        memB[j * N + i] := memA[i * N + j];
        j := j + 1;
      }
      i := i + 1;
    }
  }

  /** Inside the tile starting at a multiple of B, a position's offset is its distance from the start. */
  lemma {:induction false} TileOffset(start: int, x: int)
    requires 0 <= start && start % B == 0 && start <= x < start + B
    ensures Offset(x) == x - start
    decreases start
  {
    if start > 0 {
      TileOffset(start - B, x - B);
    }
  }

  /** The offset within a tile is the remainder modulo B. */
  lemma {:induction false} OffsetIsMod(x: int)
    requires 0 <= x
    ensures Offset(x) == x % B
    decreases x
  {
    if x >= B {
      OffsetIsMod(x - B);
    }
  }

  /**
   * memB after the tiles before row block `ii`, and the tiles of row block
   * `ii` before column `jj`, have been copied: the transposed element where
   * such a tile's loops reach, and the old memB `b0` elsewhere.
   */
  ghost predicate BlockedUpTo<T>(b: seq<T>, a: seq<T>, b0: seq<T>, w: int, ii: int, jj: int)
    requires |b| == N * N && |a| == N * N && |b0| == N * N
  {
    forall i, j :: 0 <= i < N && 0 <= j < N ==>
      b[Idx(j, i)] == if (i < ii || (i < ii + B && j < jj)) && InTile(i, j, w) then a[Idx(i, j)] else b0[Idx(j, i)]
  }

  /** Copying the tile at (ii, jj) extends the copied region by that tile. */
  lemma TileStep<T>(b: seq<T>, b': seq<T>, a: seq<T>, b0: seq<T>, w: int, ii: int, jj: int)
    requires |b| == N * N && |b'| == N * N && |a| == N * N && |b0| == N * N
    requires 0 <= ii && ii % B == 0 && 0 <= jj && jj % B == 0 && 0 <= w <= B
    requires BlockedUpTo(b, a, b0, w, ii, jj)
    requires forall i, j :: 0 <= i < N && 0 <= j < N ==>
               b'[Idx(j, i)] == if ii <= i < ii + w && jj <= j < jj + w then a[Idx(i, j)] else b[Idx(j, i)]
    ensures BlockedUpTo(b', a, b0, w, ii, jj + B)
  {
    forall i, j | 0 <= i < N && 0 <= j < N
      ensures b'[Idx(j, i)] == if (i < ii || (i < ii + B && j < jj + B)) && InTile(i, j, w) then a[Idx(i, j)] else b0[Idx(j, i)]
    {
      if ii <= i < ii + B && jj <= j < jj + B {
        TileOffset(ii, i);
        TileOffset(jj, j);
      }
    }
  }

  /**
   * loop_blocking_on with the inner loops bounded by `start + w`: the two outer
   * loops step over the tiles.
   */
  method LoopBlocking<T>(memA: array<T>, memB: array<T>, w: int)
    requires memA.Length == N * N && memB.Length == N * N && memA != memB && 0 <= w <= B
    modifies memB
    ensures memB[..] == Blocked(memA[..], old(memB[..]), w)
  {
    ghost var b0 := memB[..];
    var ii := 0;
    while ii < N
      invariant 0 <= ii <= N && ii % B == 0
      invariant BlockedUpTo(memB[..], memA[..], b0, w, ii, 0)
    {
      var jj := 0;
      while jj < N
        invariant 0 <= jj <= N && jj % B == 0
        invariant BlockedUpTo(memB[..], memA[..], b0, w, ii, jj)
      {
        ghost var before := memB[..];
        CopyTile(memA, memB, ii, jj, w);
        TileStep(before, memB[..], memA[..], b0, w, ii, jj);
        jj := jj + B;
      }
      ii := ii + B;
    }
    BlockedEntries(memB[..], memA[..], b0, w);
  }

  /** loop_blocking_on as written: the inner loops stop at `start + B - 1`. */
  method LoopBlockingOn<T>(memA: array<T>, memB: array<T>)
    requires memA.Length == N * N && memB.Length == N * N && memA != memB
    modifies memB
    ensures memB[..] == Blocked(memA[..], old(memB[..]), B - 1)
  {
    LoopBlocking(memA, memB, B - 1);
  }

  /** loop_blocking_on with the inner loops running the full tile, to `start + B`: a full transpose. */
  method LoopBlockingOnFixed<T>(memA: array<T>, memB: array<T>)
    requires memA.Length == N * N && memB.Length == N * N && memA != memB
    modifies memB
    ensures memB[..] == Transpose(memA[..])
  {
    ghost var b0 := memB[..];
    LoopBlocking(memA, memB, B);
    BlockedFullIsTranspose(memA[..], b0);
  }
}
