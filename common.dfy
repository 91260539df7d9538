/** Shared vocabulary: bytes, optional values, buffers made of equal-sized
    rows, and the small pieces of index arithmetic the re-blocking and BMP code
    rely on. */
module Common {

  /** An unsigned 8-bit value (`uint8_t` / `unsigned char`). */
  type byte = b: int | 0 <= b < 256

  /** The modulus of `uint32_t` arithmetic. */
  const U32: nat := 0x1_0000_0000

  /** A value that may be absent; for doubles, `None` stands for NaN. */
  datatype Option<+T> = None | Some(value: T)

  function Min(a: int, b: int): int { if a <= b then a else b }

  function Max(a: int, b: int): int { if a <= b then b else a }

  // ---------------------------------------------------------------------------
  // Offsets of equal-sized blocks
  // ---------------------------------------------------------------------------

  /** Where block `n` starts in a buffer of consecutive blocks of `size`
      elements: `n * size` (`OffsetIsProduct`). It is defined by repeated
      addition so that proofs about row-structured buffers stay linear; the
      product form is recovered where a statement needs it. */
  function Offset(n: nat, size: nat): nat
  {
    if n == 0 then 0 else Offset(n - 1, size) + size
  }

  lemma {:induction false} OffsetIsProduct(n: nat, size: nat)
    ensures Offset(n, size) == n * size
  {
    if n > 0 {
      OffsetIsProduct(n - 1, size);
      MulAdd(n - 1, 1, size);
    }
  }

  lemma {:induction false} OffsetAdd(a: nat, b: nat, size: nat)
    ensures Offset(a + b, size) == Offset(a, size) + Offset(b, size)
    decreases b
  {
    if b > 0 {
      OffsetAdd(a, b - 1, size);
    }
  }

  /** Rows of `w` three-byte pixels: `n` of them take `n * w * 3` bytes. */
  lemma OffsetOfPixelRows(n: nat, w: nat)
    ensures Offset(n, w * 3) == n * w * 3
  {
    OffsetIsProduct(n, w * 3);
    assert n * (w * 3) == n * w * 3;
  }

  /** One block more is `size` bytes more. */
  lemma OffsetNext(n: nat, size: nat)
    ensures Offset(n + 1, size) == size + Offset(n, size)
  {
  }

  lemma OffsetMono(a: nat, b: nat, size: nat)
    requires a <= b
    ensures Offset(a, size) <= Offset(b, size)
  {
    OffsetAdd(a, b - a, size);
  }

  /** Block `i` of `n` blocks ends inside the buffer. */
  lemma OffsetInside(i: nat, n: nat, size: nat)
    requires i < n
    ensures Offset(i, size) + size <= Offset(n, size)
  {
    OffsetMono(i + 1, n, size);
  }

  lemma MulMono(a: int, b: int, c: nat)
    requires a <= b
    ensures a * c <= b * c
  {
  }

  /** Distributivity, stated apart so that callers need no nonlinear reasoning. */
  lemma MulAdd(a: int, b: int, c: int)
    ensures (a + b) * c == a * c + b * c
  {
  }

  // ---------------------------------------------------------------------------
  // Division into blocks
  // ---------------------------------------------------------------------------

  /** Quotient and remainder of an index that lies in block `r` of width `w`. */
  lemma DivModInBlock(i: int, r: nat, w: nat)
    requires w > 0 && Offset(r, w) <= i < Offset(r, w) + w
    ensures i / w == r && i % w == i - Offset(r, w)
  {
    OffsetIsProduct(r, w);
    DivModOfProduct(i, r, w);
  }

  lemma DivModOfProduct(i: int, r: nat, w: nat)
    requires w > 0 && r * w <= i < r * w + w
    ensures i / w == r && i % w == i - r * w
  {
    var q, m := i / w, i % w;
    assert i == q * w + m && 0 <= m < w;
    if q < r {
      assert q * w + w <= r * w by { MulMono(q + 1, r, w); }
      assert false;
    } else if q > r {
      assert (r + 1) * w <= q * w by { MulMono(r + 1, q, w); }
      assert false;
    }
  }

  /** The number of steps of size `d` a loop `for (i = 0; i < n; i += d)`
      takes: the least `q` with `n <= q * d` (`CeilDivIsQuotient` shows it is
      the C expression `(n + d - 1) / d`). */
  function CeilDiv(n: nat, d: nat): (q: nat)
    requires d > 0
    ensures n <= Offset(q, d)
    ensures q > 0 ==> Offset(q - 1, d) < n
  {
    if n == 0 then 0 else if n <= d then 1 else 1 + CeilDiv(n - d, d)
  }

  /** `CeilDiv` is the rounded-up quotient `(n + d - 1) / d`. */
  lemma {:induction false} CeilDivIsQuotient(n: nat, d: nat)
    requires d > 0
    ensures CeilDiv(n, d) == (n + d - 1) / d
  {
    if n == 0 {
      DivModInBlock(d - 1, 0, d);
    } else if n <= d {
      DivModInBlock(n + d - 1, 1, d);
    } else {
      CeilDivIsQuotient(n - d, d);
      DivPlusOne(n - d + d - 1, d);
      assert n + d - 1 == (n - d + d - 1) + d;
    }
  }

  /** The loop `for (i = 0; i < n; i += d)` visits `CeilDiv(n, d)` values: one
      more than the loop that starts one step later, unless it is already done. */
  lemma CeilDivStep(n: nat, d: nat, i: nat)
    requires d > 0 && i < n
    ensures CeilDiv(n - i, d) == 1 + (if i + d < n then CeilDiv(n - (i + d), d) else 0)
  {
  }

  lemma DivPlusOne(a: nat, d: nat)
    requires d > 0
    ensures (a + d) / d == a / d + 1
  {
    var q, m := a / d, a % d;
    OffsetIsProduct(q + 1, d);
    MulAdd(q, 1, d);
    DivModInBlock(a + d, q + 1, d);
  }

  /** The last of the `CeilDiv(n, d)` blocks of size `d` covering `n` holds
      `n % d` elements, or a whole `d` when `d` divides `n`. */
  lemma LastBlock(n: nat, d: nat, k: nat)
    requires d > 0 && k + 1 == CeilDiv(n, d)
    ensures Offset(k, d) < n
    ensures Min(d, n - Offset(k, d)) == if n % d == 0 then d else n % d
  {
    assert Offset(k, d) < n <= Offset(k, d) + d;
    if n == Offset(k, d) + d {
      DivModInBlock(n, k + 1, d);
    } else {
      DivModInBlock(n, k, d);
    }
  }

  // ---------------------------------------------------------------------------
  // Zeros and rows
  // ---------------------------------------------------------------------------

  /** `n` zero bytes, what `std::fill(…, 0)` and a fresh `std::vector` hold. */
  function Zeros(n: nat): (z: seq<byte>)
    ensures |z| == n && forall i :: 0 <= i < n ==> z[i] == 0
  {
    seq(n, _ => 0)
  }

  lemma ZerosSplit(a: nat, b: nat)
    ensures Zeros(a + b) == Zeros(a) + Zeros(b)
  {
  }

  /** The first `k` rows of a buffer whose rows start `stride` elements
      apart, each cut to its first `len` elements, laid end to end. */
  function Gathered(s: seq<byte>, k: nat, stride: nat, len: nat): (g: seq<byte>)
    requires k == 0 || Offset(k - 1, stride) + len <= |s|
    ensures |g| == Offset(k, len)
  {
    if k == 0 then []
    else Gathered(s, k - 1, stride, len) + s[Offset(k - 1, stride) .. Offset(k - 1, stride) + len]
  }

  /** Element `c` of row `i` of the gathered rows is element `c` of row `i`
      of the buffer. */
  lemma GatheredAt(s: seq<byte>, k: nat, stride: nat, len: nat, i: nat, c: nat)
    requires k == 0 || Offset(k - 1, stride) + len <= |s|
    requires i < k && c < len
    ensures Offset(i, stride) + c < |s|
    ensures Offset(i, len) + c < Offset(k, len)
    ensures Gathered(s, k, stride, len)[Offset(i, len) + c] == s[Offset(i, stride) + c]
    decreases k, 1
  {
    if i < k - 1 {
      var k' := k - 1;
      assert k == k' + 1;
      GatheredEarlier(s, k', stride, len, i, c);
    } else {
      assert k == i + 1;
      GatheredLast(s, stride, len, i, c);
    }
  }

  /** A row before the last is where the first `k` rows put it. */
  lemma {:induction false} GatheredEarlier(s: seq<byte>, k: nat, stride: nat, len: nat, i: nat, c: nat)
    requires i < k && Offset(k, stride) + len <= |s| && c < len
    ensures Offset(i, stride) + c < |s|
    ensures Offset(i, len) + c < Offset(k + 1, len)
    ensures Gathered(s, k + 1, stride, len)[Offset(i, len) + c] == s[Offset(i, stride) + c]
    decreases k + 1, 0
  {
    OffsetInside(i, k + 1, len);
    OffsetMono(k - 1, k, stride);
    GatheredAt(s, k, stride, len, i, c);
    GatheredFront(s, k, stride, len, Offset(i, len) + c);
  }

  /** Appending row `k` leaves the bytes before it alone. */
  lemma GatheredFront(s: seq<byte>, k: nat, stride: nat, len: nat, j: nat)
    requires Offset(k, stride) + len <= |s|
    requires j < Offset(k, len)
    ensures Gathered(s, k + 1, stride, len)[j] == Gathered(s, k, stride, len)[j]
  {
    GatheredSnoc(s, k, stride, len);
    AppendAtFront(Gathered(s, k, stride, len), s[Offset(k, stride) .. Offset(k, stride) + len], j);
  }

  lemma GatheredSnoc(s: seq<byte>, i: nat, stride: nat, len: nat)
    requires Offset(i, stride) + len <= |s|
    ensures Gathered(s, i + 1, stride, len) ==
              Gathered(s, i, stride, len) + s[Offset(i, stride) .. Offset(i, stride) + len]
  {
  }

  /** Element `c` of a row of `s` appended after `front`. */
  lemma RowAfter(front: seq<byte>, s: seq<byte>, from: nat, len: nat, c: nat)
    requires from + len <= |s| && c < len
    ensures (front + s[from .. from + len])[|front| + c] == s[from + c]
  {
  }

  /** The last row gathered is the last row of the buffer. */
  lemma GatheredLast(s: seq<byte>, stride: nat, len: nat, i: nat, c: nat)
    requires Offset(i, stride) + len <= |s| && c < len
    ensures Offset(i, stride) + c < |s|
    ensures Offset(i, len) + c < Offset(i + 1, len)
    ensures Gathered(s, i + 1, stride, len)[Offset(i, len) + c] == s[Offset(i, stride) + c]
  {
    GatheredSnoc(s, i, stride, len);
    RowAfter(Gathered(s, i, stride, len), s, Offset(i, stride), len, c);
  }

  /** Rows with no gap between them gather to the prefix of `s` they cover. */
  lemma {:induction false} GatheredTight(s: seq<byte>, k: nat, n: nat)
    requires Offset(k, n) <= |s|
    ensures Gathered(s, k, n, n) == s[..Offset(k, n)]
  {
    if k > 0 {
      GatheredTight(s, k - 1, n);
      SliceSnoc(s, Offset(k - 1, n), n);
    }
  }

  lemma SliceSnoc<T>(s: seq<T>, at: nat, n: nat)
    requires at + n <= |s|
    ensures s[..at + n] == s[..at] + s[at .. at + n]
  {
  }

  lemma AppendAtFront<T>(a: seq<T>, b: seq<T>, i: nat)
    requires i < |a|
    ensures (a + b)[i] == a[i]
  {
  }

  lemma AppendAtBack<T>(a: seq<T>, b: seq<T>, j: nat)
    requires j < |b|
    ensures (a + b)[|a| + j] == b[j]
  {
  }

  lemma PrefixAt<T>(s: seq<T>, k: nat, i: nat)
    requires i < k <= |s|
    ensures s[..k][i] == s[i]
  {
  }

  lemma AppendAssoc<T>(a: seq<T>, b: seq<T>, c: seq<T>)
    ensures a + (b + c) == (a + b) + c
  {
  }

  lemma PrefixOfAppend<T>(a: seq<T>, b: seq<T>)
    ensures a <= a + b && (a + b)[|a|..] == b
  {
  }

  lemma PrefixExtend<T>(p: seq<T>, a: seq<T>, b: seq<T>)
    requires p <= a
    ensures p <= a + b
  {
    assert (a + b)[..|p|] == a[..|p|];
  }

  lemma ThreeParts<T>(a: seq<T>, b: seq<T>, c: seq<T>)
    ensures |a + b + c| == |a| + |b| + |c|
    ensures (a + b + c)[..|a|] == a
    ensures (a + b + c)[|a|..|a| + |b|] == b
    ensures (a + b + c)[|a| + |b|..] == c
  {
  }

  lemma SuffixSplit<T>(s: seq<T>, a: nat, b: nat)
    requires a <= b <= |s|
    ensures s[a..] == s[a..b] + s[b..]
  {
  }

  /** Copying `part` (of length `len`) to position `at` = `|done|`, over the
      zeros that follow `done`, leaves `part`, then `pad` zeros, then the
      other `z` zeros after `done`. */
  lemma OverwriteZerosPadded(before: seq<byte>, done: seq<byte>, part: seq<byte>, pad: nat, z: nat,
                             at: nat, len: nat, after: seq<byte>)
    requires at == |done| && len == |part|
    requires before == done + Zeros(len + pad + z)
    requires after == before[..at] + part + before[at + len..]
    ensures after == done + (part + Zeros(pad)) + Zeros(z)
  {
    assert before[..at] == done;
    assert before[at + len..] == Zeros(pad + z);
    ZerosSplit(pad, z);
  }

  /** Every one of the `h` rows of `w` RGB pixels, `stride` bytes apart, lies
      inside a source buffer of `n` bytes. */
  predicate RowsReadable(n: nat, w: nat, h: nat, stride: nat)
  {
    h == 0 || Offset(h - 1, stride) + w * 3 <= n
  }

  // ---------------------------------------------------------------------------
  // Bulk writes into arrays
  // ---------------------------------------------------------------------------

  /** `std::memcpy(dst + at, src, |src|)`: the bytes of `src` replace those of
      `dst` at `at .. at + |src|`; nothing else changes. */
  method CopyInto(dst: array<byte>, at: nat, src: seq<byte>)
    requires at + |src| <= dst.Length
    modifies dst
    ensures dst[..] == old(dst[..at]) + src + old(dst[at + |src|..])
  {
    forall k | at <= k < at + |src| {
      dst[k] := src[k - at];
    }
  }

  /** `std::fill(dst + from, dst + to, 0)` / `std::memset(…, 0, …)`. */
  method ZeroRange(dst: array<byte>, from: nat, to: nat)
    requires from <= to <= dst.Length
    modifies dst
    ensures dst[..] == old(dst[..from]) + Zeros(to - from) + old(dst[to..])
    ensures from == 0 && to == dst.Length ==> dst[..] == Zeros(dst.Length)
  {
    forall k | from <= k < to {
      dst[k] := 0;
    }
  }
}
