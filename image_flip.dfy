/**
 * The vertical flip `loadTexture` applies to a decoded RGBA image
 * (main.cpp:256-263). The decoder delivers rows top to bottom, four bytes
 * per pixel; the loop exchanges row `i` with the `i`-th row from the end,
 * for every `i < height / 2`, through a one-row scratch buffer.
 */
module ImageFlip {

  newtype byte = x: int | 0 <= x < 256

  /**
   * The `h` rows of `t`, each `L` bytes long, in reverse order: the last
   * row first, the first row last, every row kept intact.
   */
  function RowsReversed(t: seq<byte>, L: nat, h: nat): (r: seq<byte>)
    requires |t| == h * L
    ensures |r| == |t|
    decreases h
  {
    if h == 0 then []
    else
      assert |t| == (h - 1) * L + L;
      RowsReversed(t[L..], L, h - 1) + t[..L]
  }

  /**
   * What the loop leaves in a buffer `s` when it swaps the first `n` rows
   * of length `L` with the last `n` rows, counted from the end of the
   * buffer: those two blocks change places with their row order reversed,
   * and the bytes between them stay where they are.
   */
  function Flipped(s: seq<byte>, L: nat, n: nat): (r: seq<byte>)
    requires 2 * (n * L) <= |s|
    ensures |r| == |s|
  {
    var m := n * L;
    RowsReversed(s[|s| - m..], L, n) + s[m..|s| - m] + RowsReversed(s[..m], L, n)
  }

  /** Reversing the rows of a concatenation reverses the order of the two parts. */
  lemma {:induction false} RowsReversedAppend(x: seq<byte>, y: seq<byte>, L: nat, hx: nat, hy: nat)
    requires |x| == hx * L && |y| == hy * L
    ensures |x + y| == (hx + hy) * L
    ensures RowsReversed(x + y, L, hx + hy) == RowsReversed(y, L, hy) + RowsReversed(x, L, hx)
    decreases hx
  {
    assert |x + y| == (hx + hy) * L;
    if hx == 0 {
      assert x == [];
      assert x + y == y;
    } else {
      assert |x| == (hx - 1) * L + L;
      assert (x + y)[L..] == x[L..] + y;
      assert (x + y)[..L] == x[..L];
      RowsReversedAppend(x[L..], y, L, hx - 1, hy);
      assert hx + hy - 1 == (hx - 1) + hy;
    }
  }

  /** A single row is its own reversal. */
  lemma RowsReversedOne(t: seq<byte>, L: nat)
    requires |t| == 1 * L
    ensures RowsReversed(t, L, 1) == t
  {
    assert t[L..] == [];
    assert t[..L] == t;
  }

  /** Reversing the rows twice gives the buffer back. */
  lemma {:induction false} RowsReversedTwice(t: seq<byte>, L: nat, h: nat)
    requires |t| == h * L
    ensures RowsReversed(RowsReversed(t, L, h), L, h) == t
    decreases h
  {
    if h > 0 {
      MulSucc(h - 1, L);
      var rest, first := t[L..], t[..L];
      assert t == first + rest;
      RowsReversedTwice(rest, L, h - 1);
      RowsReversedSnoc(RowsReversed(rest, L, h - 1), first, L, h - 1);
    }
  }

  /** Reversing rows only moves bytes: the buffer is a permutation of the original. */
  lemma {:induction false} RowsReversedPermutes(t: seq<byte>, L: nat, h: nat)
    requires |t| == h * L
    ensures multiset(RowsReversed(t, L, h)) == multiset(t)
    decreases h
  {
    if h > 0 {
      MulSucc(h - 1, L);
      var rest, first := t[L..], t[..L];
      var r := RowsReversed(rest, L, h - 1);
      assert RowsReversed(t, L, h) == r + first;
      RowsReversedPermutes(rest, L, h - 1);
      assert t == first + rest;
      BlocksExchanged(first, rest, r);
    }
  }

  /** The offset of byte `k` of row `r` in a buffer of `L`-byte rows. */
  function Index(r: nat, L: nat, k: nat): nat
  {
    r * L + k
  }

  /**
   * Byte `k` of row `r` of the reversed buffer is byte `k` of row
   * `h - 1 - r` of the original.
   */
  lemma {:induction false} RowsReversedAt(t: seq<byte>, L: nat, h: nat, r: nat, k: nat)
    requires |t| == h * L && r < h && k < L
    ensures Index(r, L, k) < |t| && Index(h - 1 - r, L, k) < |t|
    ensures RowsReversed(t, L, h)[Index(r, L, k)] == t[Index(h - 1 - r, L, k)]
    decreases h
  {
    RowBounds(h, L, r, k);
    RowBounds(h, L, h - 1 - r, k);
    MulSucc(h - 1, L);
    var rest := t[L..];
    if r < h - 1 {
      RowsReversedAt(rest, L, h - 1, r, k);
      RowBounds(h - 1, L, r, k);
      MulSucc(h - 2 - r, L);
    } else {
      MulZero(L);
    }
  }

  /** Row `r`, byte `k` lies inside an `h`-row buffer of `L`-byte rows. */
  lemma RowBounds(h: nat, L: nat, r: nat, k: nat)
    requires r < h && k < L
    ensures Index(r, L, k) < h * L
  {
    MulMono(r + 1, h, L);
    MulSucc(r, L);
  }

  /** Flipping twice restores the buffer: the flip is an involution. */
  lemma FlippedTwice(s: seq<byte>, L: nat, n: nat)
    requires 2 * (n * L) <= |s|
    ensures |Flipped(s, L, n)| == |s|
    ensures Flipped(Flipped(s, L, n), L, n) == s
  {
    var m := n * L;
    var top, mid, bot := s[..m], s[m..|s| - m], s[|s| - m..];
    var rb, rt := RowsReversed(bot, L, n), RowsReversed(top, L, n);
    FlippedUnfold(s, L, n, m);
    var f := rb + mid + rt;
    ThreeParts(rb, mid, rt);
    assert f[..m] == rb && f[m..|f| - m] == mid && f[|f| - m..] == rt;
    FlippedUnfold(f, L, n, m);
    RowsReversedTwice(top, L, n);
    RowsReversedTwice(bot, L, n);
    assert Flipped(f, L, n) == top + mid + bot;
    assert s == top + mid + bot;
  }

  /** The three parts of a concatenation, recovered by slicing. */
  lemma ThreeParts(a: seq<byte>, b: seq<byte>, c: seq<byte>)
    ensures (a + b + c)[..|a|] == a
    ensures (a + b + c)[|a|..|a| + |b|] == b
    ensures (a + b + c)[|a| + |b|..] == c
  {
  }

  /** The flip is a permutation of the buffer's bytes. */
  lemma FlippedPermutes(s: seq<byte>, L: nat, n: nat)
    requires 2 * (n * L) <= |s|
    ensures multiset(Flipped(s, L, n)) == multiset(s)
  {
    var m := n * L;
    var top, mid, bot := s[..m], s[m..|s| - m], s[|s| - m..];
    RowsReversedPermutes(top, L, n);
    RowsReversedPermutes(bot, L, n);
    assert s == top + mid + bot;
    OuterBlocksPermuted(top, mid, bot, RowsReversed(top, L, n), RowsReversed(bot, L, n));
  }

  /** Putting a permuted second block in front of the first permutes the whole. */
  lemma BlocksExchanged(x: seq<byte>, y: seq<byte>, y': seq<byte>)
    requires multiset(y') == multiset(y)
    ensures multiset(y' + x) == multiset(x + y)
  {
    calc {
      multiset(y' + x);
      multiset(y') + multiset(x);
      multiset(x) + multiset(y);
      multiset(x + y);
    }
  }

  /** Exchanging the outer blocks, each permuted in itself, permutes the whole. */
  lemma OuterBlocksPermuted(top: seq<byte>, mid: seq<byte>, bot: seq<byte>, top': seq<byte>, bot': seq<byte>)
    requires multiset(top') == multiset(top) && multiset(bot') == multiset(bot)
    ensures multiset(bot' + mid + top') == multiset(top + mid + bot)
  {
    calc {
      multiset(bot' + mid + top');
      multiset(bot') + multiset(mid) + multiset(top');
      multiset(top) + multiset(mid) + multiset(bot);
      multiset(top + mid + bot);
    }
  }

  /**
   * On a buffer of exactly `h` rows, the loop bound `h / 2` flips the whole
   * image: the result is the rows in reverse order. For odd `h` the middle
   * row is the part the loop never touches.
   */
  lemma FlippedIsRowsReversed(s: seq<byte>, L: nat, h: nat)
    requires |s| == h * L
    ensures 2 * ((h / 2) * L) <= |s|
    ensures Flipped(s, L, h / 2) == RowsReversed(s, L, h)
  {
    FlippedHalves(s, L, h, h / 2, h % 2);
  }

  /** `FlippedIsRowsReversed` for `h == 2 * n + c`, with the division taken out. */
  lemma FlippedHalves(s: seq<byte>, L: nat, h: nat, n: nat, c: nat)
    requires |s| == h * L && h == n + c + n && c <= 1
    ensures 2 * (n * L) <= |s|
    ensures Flipped(s, L, n) == RowsReversed(s, L, h)
  {
    var m, cl := n * L, c * L;
    MulAdd(c, n, c + n, L);
    MulAdd(n, c + n, h, L);
    var top, mid, bot := s[..m], s[m..|s| - m], s[|s| - m..];
    assert s == top + (mid + bot);
    assert Flipped(s, L, n) == RowsReversed(bot, L, n) + mid + RowsReversed(top, L, n);
    RowsReversedAppend(top, mid + bot, L, n, c + n);
    RowsReversedAppend(mid, bot, L, c, n);
    if c == 0 {
      MulZero(L);
      assert mid == [];
    } else {
      RowsReversedOne(mid, L);
    }
  }

  /**
   * For a decoded image of `height` rows of `4 * width` bytes, after the
   * flip byte `k` of row `r` holds what byte `k` of row `height - 1 - r`
   * held before.
   */
  lemma FlipImageAt(s: seq<byte>, width: nat, height: nat, r: nat, k: nat)
    requires |s| == 4 * width * height && r < height && k < 4 * width
    ensures 2 * ((height / 2) * (4 * width)) <= |s|
    ensures 0 <= 4 * r * width + k < |s| && 0 <= 4 * (height - 1 - r) * width + k < |s|
    ensures Flipped(s, 4 * width, height / 2)[4 * r * width + k] == s[4 * (height - 1 - r) * width + k]
  {
    var L := 4 * width;
    Regroup(height, width);
    FlippedIsRowsReversed(s, L, height);
    RowsReversedAt(s, L, height, r, k);
    Regroup(r, width);
    Regroup(height - 1 - r, width);
  }

  /** When `height` is odd, the loop leaves the middle row `height / 2` as it was. */
  lemma FlipKeepsMiddleRow(s: seq<byte>, width: nat, height: nat, k: nat)
    requires |s| == 4 * width * height && height % 2 == 1 && k < 4 * width
    ensures 2 * ((height / 2) * (4 * width)) <= |s|
    ensures 0 <= 4 * (height / 2) * width + k < |s|
    ensures Flipped(s, 4 * width, height / 2)[4 * (height / 2) * width + k] == s[4 * (height / 2) * width + k]
  {
    FlipImageAt(s, width, height, height / 2, k);
    assert height - 1 - height / 2 == height / 2;
  }

  /**
   * `a` with the `L`-byte blocks at offsets `p` and `q` exchanged, what one
   * pass of the flip loop does.
   */
  function Swapped(a: seq<byte>, p: nat, q: nat, L: nat): (r: seq<byte>)
    requires p + L <= q && q + L <= |a|
    ensures |r| == |a|
  {
    a[..p] + a[q..q + L] + a[p + L..q] + a[p..p + L] + a[q + L..]
  }

  /**
   * Byte by byte: the block at `p` now holds the old block at `q` and the
   * other way round, and every byte outside the two blocks is unchanged.
   */
  lemma SwappedAt(a: seq<byte>, p: nat, q: nat, L: nat)
    requires p + L <= q && q + L <= |a|
    ensures forall j :: p <= j < p + L ==> Swapped(a, p, q, L)[j] == a[j - p + q]
    ensures forall j :: q <= j < q + L ==> Swapped(a, p, q, L)[j] == a[j - q + p]
    ensures forall j :: 0 <= j < |a| && !(p <= j < p + L) && !(q <= j < q + L) ==> Swapped(a, p, q, L)[j] == a[j]
  {
  }

  /** Exchanging the same two blocks twice restores the buffer. */
  lemma SwappedTwice(a: seq<byte>, p: nat, q: nat, L: nat)
    requires p + L <= q && q + L <= |a|
    ensures Swapped(Swapped(a, p, q, L), p, q, L) == a
  {
    var r := Swapped(a, p, q, L);
    assert r[..p] == a[..p];
    assert r[q..q + L] == a[p..p + L];
    assert r[p + L..q] == a[p + L..q];
    assert r[p..p + L] == a[q..q + L];
    assert r[q + L..] == a[q + L..];
    assert a == a[..p] + a[p..p + L] + a[p + L..q] + a[q..q + L] + a[q + L..];
  }

  /** With no rows swapped yet, the buffer is unchanged. */
  lemma FlippedNone(s: seq<byte>, L: nat)
    ensures Flipped(s, L, 0) == s
  {
    MulZero(L);
    assert s[|s|..] == [] && s[..0] == [];
    assert s[0..|s|] == s;
  }

  /**
   * Swapping row `i` with the `i`-th row from the end extends the flip of
   * the first `i` rows to the first `i + 1`.
   */
  lemma FlippedStep(w: seq<byte>, L: nat, i: nat, o: nat, q: nat)
    requires 2 * ((i + 1) * L) <= |w| && o == i * L && q == |w| - (i + 1) * L
    ensures 2 * (i * L) <= |w| && o + L <= q
    ensures Flipped(w, L, i + 1) == Swapped(Flipped(w, L, i), o, q, L)
  {
    MulSucc(i, L);
    FlippedGrow(w, L, i, o, q);
    SwappedFlip(w, L, i, o, q);
  }

  /** The flip of `i + 1` rows, with the block of the new pair written out. */
  lemma FlippedGrow(w: seq<byte>, L: nat, i: nat, o: nat, q: nat)
    requires o + L == (i + 1) * L && o == i * L && q == |w| - (o + L) && o + L <= q
    ensures Flipped(w, L, i + 1) ==
      RowsReversed(w[|w| - o..], L, i) + w[q..q + L] + w[o + L..q] + w[o..o + L] + RowsReversed(w[..o], L, i)
  {
    FlippedUnfold(w, L, i + 1, o + L);
    GrowBottom(w, L, i, o, q);
    GrowTop(w, L, i, o);
  }

  /** The last `i + 1` rows reversed: the last `i` reversed, then the new row. */
  lemma GrowBottom(w: seq<byte>, L: nat, i: nat, o: nat, q: nat)
    requires o + L == (i + 1) * L && o == i * L && q == |w| - (o + L) && 0 <= q
    ensures RowsReversed(w[q..], L, i + 1) == RowsReversed(w[|w| - o..], L, i) + w[q..q + L]
  {
    assert w[q..] == w[q..q + L] + w[|w| - o..];
    RowsReversedCons(w[q..q + L], w[|w| - o..], L, i);
  }

  /** The first `i + 1` rows reversed: the new row, then the first `i` reversed. */
  lemma GrowTop(w: seq<byte>, L: nat, i: nat, o: nat)
    requires o + L == (i + 1) * L && o == i * L && o + L <= |w|
    ensures RowsReversed(w[..o + L], L, i + 1) == w[o..o + L] + RowsReversed(w[..o], L, i)
  {
    assert w[..o + L] == w[..o] + w[o..o + L];
    RowsReversedSnoc(w[..o], w[o..o + L], L, i);
  }

  lemma FlippedUnfold(w: seq<byte>, L: nat, n: nat, m: nat)
    requires m == n * L && 2 * m <= |w|
    ensures Flipped(w, L, n) == RowsReversed(w[|w| - m..], L, n) + w[m..|w| - m] + RowsReversed(w[..m], L, n)
  {
  }

  /** A row in front of `h` rows ends up behind them. */
  lemma RowsReversedCons(x: seq<byte>, y: seq<byte>, L: nat, h: nat)
    requires |x| == L && |y| == h * L
    ensures |x + y| == (h + 1) * L
    ensures RowsReversed(x + y, L, h + 1) == RowsReversed(y, L, h) + x
  {
    MulSucc(h, L);
    assert (x + y)[L..] == y;
    assert (x + y)[..L] == x;
  }

  /** A row behind `h` rows ends up in front of them. */
  lemma RowsReversedSnoc(y: seq<byte>, x: seq<byte>, L: nat, h: nat)
    requires |x| == L && |y| == h * L
    ensures |y + x| == (h + 1) * L
    ensures RowsReversed(y + x, L, h + 1) == x + RowsReversed(y, L, h)
  {
    RowsReversedAppend(y, x, L, h, 1);
    RowsReversedOne(x, L);
  }

  /** Swapping the pair in the flip of `i` rows gives the same buffer. */
  lemma SwappedFlip(w: seq<byte>, L: nat, i: nat, o: nat, q: nat)
    requires o == i * L && q == |w| - (o + L) && o + L <= q
    ensures Swapped(Flipped(w, L, i), o, q, L) ==
      RowsReversed(w[|w| - o..], L, i) + w[q..q + L] + w[o + L..q] + w[o..o + L] + RowsReversed(w[..o], L, i)
  {
    SwapInMiddle(RowsReversed(w[|w| - o..], L, i), w, RowsReversed(w[..o], L, i), o, q, L);
  }

  /** Exchanging two blocks that lie in the untouched middle of a partial flip. */
  lemma SwapInMiddle(A: seq<byte>, w: seq<byte>, B: seq<byte>, o: nat, q: nat, L: nat)
    requires |A| == o && |B| == o && o + L <= q && q + L == |w| - o
    ensures Swapped(A + w[o..|w| - o] + B, o, q, L) == A + w[q..q + L] + w[o + L..q] + w[o..o + L] + B
  {
    var M := w[o..|w| - o];
    var F := A + M + B;
    assert F[..o] == A;
    assert F[q + L..] == B;
    MiddleSlice(A, M, B, w, o, o, o + L);
    MiddleSlice(A, M, B, w, o, o + L, q);
    MiddleSlice(A, M, B, w, o, q, q + L);
  }

  /** A slice inside the middle block of `A + w[o..|w| - o] + B` is the same slice of `w`. */
  lemma MiddleSlice(A: seq<byte>, M: seq<byte>, B: seq<byte>, w: seq<byte>, o: nat, lo: nat, hi: nat)
    requires |A| == o && o <= |w| - o && M == w[o..|w| - o]
    requires o <= lo <= hi <= |w| - o
    ensures (A + M + B)[lo..hi] == w[lo..hi]
  {
    assert forall k :: lo <= k < hi ==> (A + M + B)[k] == M[k - o] == w[k];
  }

  /**
   * `memcpy(dst + dstStart, src + srcStart, count)`: the `count` bytes at
   * `srcStart` overwrite those at `dstStart` and nothing else changes. The
   * two ranges may lie in one buffer but must not overlap.
   */
  method CopyBytes(dst: array<byte>, dstStart: nat, src: array<byte>, srcStart: nat, count: nat)
    requires dstStart + count <= dst.Length && srcStart + count <= src.Length
    requires dst == src ==> dstStart + count <= srcStart || srcStart + count <= dstStart
    modifies dst
    ensures dst[..] == old(dst[..dstStart]) + old(src[srcStart..srcStart + count]) + old(dst[dstStart + count..])
  {
    ghost var before, from := dst[..], src[srcStart..srcStart + count];
    forall j | 0 <= j < count {
      dst[dstStart + j] := src[srcStart + j];
    }
    assert dst[..] == before[..dstStart] + from + before[dstStart + count..];
  }

  /**
   * The flip loop of `loadTexture` (main.cpp:257-262) on a buffer of
   * `image.Length` bytes with rows of `4 * width` bytes. Row `i` from the
   * top goes through the scratch buffer `row`; its partner starts
   * `4 * (i + 1) * width` bytes before the end of the buffer. The
   * precondition is what the three copies need to stay inside the buffer
   * without overlapping; the decoder's buffer of `4 * width * height` bytes
   * meets it, and for that buffer the rows end up in reverse order.
   */
  method FlipRows(image: array<byte>, width: nat, height: nat)
    requires 2 * ((height / 2) * (4 * width)) <= image.Length
    modifies image
    ensures image[..] == Flipped(old(image[..]), 4 * width, height / 2)
    ensures image.Length == 4 * width * height ==> image[..] == RowsReversed(old(image[..]), 4 * width, height)
  {
    var L := 4 * width;
    ghost var w := image[..];
    var row := new byte[L];
    FlippedNone(w, L);
    assert image[..] == Flipped(w, L, 0);
    for i := 0 to height / 2
      invariant 2 * (i * L) <= image.Length
      invariant image[..] == Flipped(w, L, i)
    {
      var top := 4 * i * width;
      var bottom := image.Length - 4 * (i + 1) * width;
      LoopOffsets(i, width, height, image.Length, top, bottom);
      FlippedStep(w, L, i, top, bottom);
      SwapRows(image, row, top, bottom, L);
    }
    if image.Length == 4 * width * height {
      Regroup(height, width);
      FlippedIsRowsReversed(w, L, height);
    }
  }

  /** The offsets one pass of the loop copies between, for `i < height / 2`. */
  lemma LoopOffsets(i: nat, width: nat, height: nat, size: nat, top: int, bottom: int)
    requires i < height / 2 && 2 * ((height / 2) * (4 * width)) <= size
    requires top == 4 * i * width && bottom == size - 4 * (i + 1) * width
    ensures top == i * (4 * width) && bottom == size - (i + 1) * (4 * width)
    ensures 0 <= top && top + 4 * width <= bottom && bottom + 4 * width <= size
    ensures 2 * ((i + 1) * (4 * width)) <= size
  {
    Regroup(i, width);
    Regroup(i + 1, width);
    MulSucc(i, 4 * width);
    MulMono(i + 1, height / 2, 4 * width);
  }

  /**
   * One pass of the loop (main.cpp:259-261): the block at `top` goes to the
   * scratch buffer, the block at `bottom` overwrites it, and the scratch
   * buffer is copied to `bottom`.
   */
  method SwapRows(image: array<byte>, row: array<byte>, top: nat, bottom: nat, L: nat)
    requires row != image && row.Length == L
    requires top + L <= bottom && bottom + L <= image.Length
    modifies image, row
    ensures image[..] == Swapped(old(image[..]), top, bottom, L)
  {
    ghost var a := image[..];
    CopyBytes(row, 0, image, top, L);
    CopyBytes(image, top, image, bottom, L);
    CopyBytes(image, bottom, row, 0, L);
    SwapByCopies(a, image[..], row[..], top, bottom, L);
  }

  /** Three non-overlapping copies through a scratch block exchange two blocks. */
  lemma SwapByCopies(a: seq<byte>, b: seq<byte>, row: seq<byte>, p: nat, q: nat, L: nat)
    requires p + L <= q && q + L <= |a| && |row| == L
    requires row == a[p..p + L]
    requires b == (a[..p] + a[q..q + L] + a[p + L..])[..q] + row + (a[..p] + a[q..q + L] + a[p + L..])[q + L..]
    ensures b == Swapped(a, p, q, L)
  {
    var c := a[..p] + a[q..q + L] + a[p + L..];
    assert c[..q] == a[..p] + a[q..q + L] + a[p + L..q];
    assert c[q + L..] == a[q + L..];
  }

  // Facts about products of naturals, kept apart from the sequence
  // reasoning so that each proof obligation stays small.

  lemma MulMono(a: nat, b: nat, c: nat)
    requires a <= b
    ensures a * c <= b * c
  {
  }

  lemma MulSucc(a: nat, c: nat)
    ensures (a + 1) * c == a * c + c
  {
  }

  lemma MulAdd(a: nat, b: nat, s: nat, c: nat)
    requires s == a + b
    ensures s * c == a * c + b * c
  {
  }

  lemma MulZero(c: nat)
    ensures 0 * c == 0
  {
  }

  lemma Regroup(r: nat, width: nat)
    ensures 4 * r * width == r * (4 * width) == 4 * width * r
  {
  }
}
