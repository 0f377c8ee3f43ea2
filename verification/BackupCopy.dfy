/**
 Copying pages between databases of different page sizes, as operations on byte
 sequences.  A database of page size z keeps page n at bytes [(n-1)*z, n*z).  The
 page that contains the pending byte is never used.
 */
module BackupCopy {
  import opened Arith

  type Byte = x: int | 0 <= x < 256

  /** Bytes at the start of page 1 that carry counters and version numbers. */
  const HEADER := 100

  predicate Pow2(n: nat)
    decreases n
  {
    n == 1 || (n > 1 && n % 2 == 0 && Pow2(n / 2))
  }

  /** Page sizes are powers of two, at least 512, and the pending byte starts a page. */
  predicate PageSize(z: nat, pending: nat) {
    512 <= z && Pow2(z) && 0 < pending && pending % z == 0
  }

  lemma {:induction false} Pow2Divides(a: nat, b: nat)
    requires Pow2(a) && Pow2(b) && a <= b
    ensures b % a == 0
    decreases b
  {
    if a == 1 {
      DivMod(b, 1);
    } else {
      Pow2Divides(a / 2, b / 2);
      var k := (b / 2) / (a / 2);
      DivMod(b / 2, a / 2);
      assert b == a * k + 0;
      DivUnique(b, a, k, 0);
    }
  }

  /** PENDING_BYTE_PAGE */
  function PendingPage(z: nat, pending: nat): nat
    requires z > 0
  {
    pending / z + 1
  }

  /** Where page pg starts. */
  function PageStart(pg: nat, s: nat): nat
    requires pg >= 1
  {
    MulMonotone(s, 0, pg - 1);
    (pg - 1) * s
  }

  function Max(a: nat, b: nat): nat { if a < b then b else a }

  function Zeros(n: nat): seq<Byte> { seq(n, _ => 0) }

  /** Writing a page beyond the end makes the database grow. */
  function Grow(image: seq<Byte>, n: nat): (r: seq<Byte>)
    ensures |r| == Max(|image|, n)
  {
    if |image| >= n then image else image + Zeros(n - |image|)
  }

  function Splice(image: seq<Byte>, off: nat, data: seq<Byte>): (r: seq<Byte>)
    requires off + |data| <= |image|
    ensures |r| == |image|
    ensures forall o :: 0 <= o < |image| ==> r[o] == if off <= o < off + |data| then data[o - off] else image[o]
  {
    image[..off] + data + image[off + |data|..]
  }

  /** sqlite3Put4byte */
  function Put4(n: nat): (r: seq<Byte>)
    ensures |r| == 4
  {
    [(n / 0x100_0000) % 256, (n / 0x1_0000) % 256, (n / 0x100) % 256, n % 256]
  }

  /** Bytes that a copy in progress does not account for. */
  predicate Skipped(o: int, s: nat, d: nat, pending: nat) {
    o < HEADER || pending <= o < pending + Max(s, d)
  }

  /** Source bytes below limit are in the destination. */
  ghost predicate Copied(src: seq<Byte>, image: seq<Byte>, limit: nat, s: nat, d: nat, pending: nat) {
    forall o :: 0 <= o < |src| && o < limit && !Skipped(o, s, d, pending) ==> o < |image| && image[o] == src[o]
  }

  /** The result of copying the page at [lo, lo + |data|). */
  ghost predicate PageWritten(was: seq<Byte>, image: seq<Byte>, lo: nat, data: seq<Byte>, s: nat, d: nat,
                              pending: nat) {
    && |was| <= |image|
    && (forall o :: 0 <= o < |was| && !(lo <= o < lo + |data|) && o >= HEADER ==> image[o] == was[o])
    && (forall o :: lo <= o < lo + |data| && !Skipped(o, s, d, pending) ==> o < |image| && image[o] == data[o - lo])
  }

  lemma CopiedNext(src: seq<Byte>, was: seq<Byte>, image: seq<Byte>, lo: nat, data: seq<Byte>, s: nat, d: nat,
                   pending: nat)
    requires Copied(src, was, lo, s, d, pending) && PageWritten(was, image, lo, data, s, d, pending)
    requires lo + |data| <= |src| && data == src[lo..lo + |data|]
    ensures Copied(src, image, lo + |data|, s, d, pending)
  {
  }

  lemma CopiedHeader(src: seq<Byte>, image: seq<Byte>, limit: nat, h: seq<Byte>, s: nat, d: nat, pending: nat)
    requires Copied(src, image, limit, s, d, pending) && |h| <= HEADER && |h| <= |image|
    ensures Copied(src, Splice(image, 0, h), limit, s, d, pending)
  {
  }

  /** The pending-byte page needs no copying. */
  lemma CopiedSkip(src: seq<Byte>, image: seq<Byte>, s: nat, d: nat, pending: nat)
    requires Copied(src, image, pending, s, d, pending)
    ensures Copied(src, image, pending + s, s, d, pending)
  {
  }

  /** The source after a write at offset lo, which may make it grow. */
  function Written(src: seq<Byte>, lo: nat, data: seq<Byte>): (r: seq<Byte>)
    ensures |r| == Max(|src|, lo + |data|)
  {
    Splice(Grow(src, lo + |data|), lo, data)
  }

  /** A write to a page not yet copied, possibly beyond the end of the source. */
  lemma CopiedUntouched(src: seq<Byte>, image: seq<Byte>, lo: nat, data: seq<Byte>, limit: nat, s: nat, d: nat,
                        pending: nat)
    requires Copied(src, image, limit, s, d, pending) && limit <= lo
    requires lo <= |src| || (|src| == pending && lo == pending + s) || limit <= |src|
    ensures Copied(Written(src, lo, data), image, limit, s, d, pending)
  {
  }

  /** A write to a page already copied, repeated in the destination. */
  lemma CopiedRewritten(src: seq<Byte>, was: seq<Byte>, image: seq<Byte>, lo: nat, data: seq<Byte>, limit: nat,
                        s: nat, d: nat, pending: nat)
    requires Copied(src, was, limit, s, d, pending) && PageWritten(was, image, lo, data, s, d, pending)
    requires lo <= |src| || (|src| == pending && lo == pending + s)
    ensures Copied(Written(src, lo, data), image, limit, s, d, pending)
  {
  }

  // ------------------------------------------------- arithmetic of page numbers

  /** A multiple of z lies in the page of another multiple of d only as the sizes say. */
  lemma Aligned(x: nat, pending: nat, z: nat)
    requires z > 0 && x % z == 0 && pending % z == 0
    ensures x < pending ==> x + z <= pending
    ensures x > pending ==> pending + z <= x
  {
    DivMod(x, z);
    DivMod(pending, z);
    var a, b := x / z, pending / z;
    MulMonotone(z, a + 1, b);
    MulMonotone(z, b + 1, a);
    assert z * (a + 1) == z * a + z && z * (b + 1) == z * b + z;
  }

  lemma SamePage(x: nat, pending: nat, z: nat)
    requires z > 0 && pending % z == 0
    ensures x / z == pending / z <==> pending <= x < pending + z
    ensures (x / z) * z <= x < (x / z) * z + z
  {
    DivMod(x, z);
    DivMod(pending, z);
    var a, b := x / z, pending / z;
    MulMonotone(z, a + 1, b);
    MulMonotone(z, b + 1, a);
    assert z * (a + 1) == z * a + z && z * (b + 1) == z * b + z;
    assert a * z == z * a;
  }

  lemma MultipleOfDivisor(x: nat, s: nat, d: nat)
    requires d > 0 && s > 0 && s % d == 0 && x % s == 0
    ensures x % d == 0
  {
    DivMod(x, s);
    DivMod(s, d);
    var a, b := x / s, s / d;
    assert x == s * a == d * b * a == d * (b * a);
    DivUnique(x, d, b * a, 0);
  }

  lemma AddMultiple(x: nat, d: nat)
    requires d > 0 && x % d == 0
    ensures (x + d) % d == 0 && (x + d) / d == x / d + 1
  {
    DivMod(x, d);
    assert x + d == d * (x / d + 1) + 0;
    DivUnique(x + d, d, x / d + 1, 0);
  }

  /** The source page at offset x fits into the larger destination page around it. */
  lemma FitsInPage(x: nat, s: nat, d: nat)
    requires s > 0 && d > 0 && d % s == 0 && x % s == 0
    ensures x % d + s <= d && x + s <= (x / d + 1) * d
  {
    DivMod(x, d);
    var b := x / d;
    var m := d * b;
    DivUnique(m, d, b, 0);
    assert (b + 1) * d == m + d;
    FitsFrom(x, m, s, d);
  }

  lemma FitsFrom(x: nat, m: nat, s: nat, d: nat)
    requires s > 0 && d > 0 && d % s == 0 && x % s == 0 && m % d == 0 && m <= x < m + d
    ensures x - m + s <= d
  {
    MultipleOfDivisor(m, d, s);
    SubMultiple(x, m, s);
    Aligned(x - m, d, s);
  }

  lemma SubMultiple(x: nat, y: nat, s: nat)
    requires s > 0 && x % s == 0 && y % s == 0 && y <= x
    ensures (x - y) % s == 0
  {
    DivMod(x, s);
    DivMod(y, s);
    var a, b := x / s, y / s;
    MulMonotone(s, a + 1, b);
    assert s * (a + 1) == s * a + s;
    assert x - y == s * (a - b) + 0;
    DivUnique(x - y, s, a - b, 0);
  }

  // ------------------------------------------------------- one chunk of a page

  /** memcpy into the destination page that contains offset off. */
  function PutChunk(image: seq<Byte>, off: nat, chunk: seq<Byte>, d: nat): (r: seq<Byte>)
    requires d > 0 && off + |chunk| <= (off / d + 1) * d
  {
    Splice(Grow(image, (off / d + 1) * d), off, chunk)
  }

  lemma PageEnd(off: nat, d: nat)
    requires d > 0
    ensures ((off / d + 1) * d) % d == 0 && (off / d + 1) * d >= d
  {
    DivUnique((off / d + 1) * d, d, off / d + 1, 0);
    MulMonotone(d, 1, off / d + 1);
  }

  lemma ChunkFits(off: nat, s: nat, d: nat)
    requires s > 0 && d > 0 && (if d <= s then s % d == 0 && off % d == 0 else d % s == 0 && off % s == 0)
    ensures off + (if s < d then s else d) <= (off / d + 1) * d
  {
    DivMod(off, d);
    if d > s { FitsInPage(off, s, d); }
    assert (off / d + 1) * d == d * (off / d) + d;
  }

  lemma NothingWritten(image: seq<Byte>, lo: nat, data: seq<Byte>, s: nat, d: nat, pending: nat)
    ensures PageWritten(image, image, lo, data[..0], s, d, pending)
  {
  }

  lemma ChunkWritten(was: seq<Byte>, image: seq<Byte>, lo: nat, data: seq<Byte>, k: nat, c: nat, s: nat,
                     d: nat, pending: nat)
    requires k + c <= |data| && d > 0 && lo + k + c <= ((lo + k) / d + 1) * d
    requires PageWritten(was, image, lo, data[..k], s, d, pending)
    ensures PageWritten(was, PutChunk(image, lo + k, data[k..k + c], d), lo, data[..k + c], s, d, pending)
  {
  }

  /** The counter written into the file header does not matter to the copy. */
  lemma HeaderWritten(was: seq<Byte>, image: seq<Byte>, lo: nat, data: seq<Byte>, h: seq<Byte>, at: nat,
                      s: nat, d: nat, pending: nat)
    requires PageWritten(was, image, lo, data, s, d, pending) && at + |h| <= HEADER && at + |h| <= |image|
    ensures PageWritten(was, Splice(image, at, h), lo, data, s, d, pending)
  {
  }

  lemma ChunkSkipped(was: seq<Byte>, image: seq<Byte>, lo: nat, data: seq<Byte>, k: nat, c: nat, s: nat,
                     d: nat, pending: nat)
    requires k + c <= |data| && s > 0 && d > 0 && c == (if s < d then s else d)
    requires ChunkAt(lo + k, lo, s, d) && pending % s == 0
    requires pending % d == 0 && (lo + k) / d == pending / d
    requires PageWritten(was, image, lo, data[..k], s, d, pending)
    ensures PageWritten(was, image, lo, data[..k + c], s, d, pending)
  {
    WithinPending(lo + k, s, d, pending);
  }

  lemma WithinPending(off: nat, s: nat, d: nat, pending: nat)
    requires s > 0 && d > 0 && pending % s == 0 && pending % d == 0 && off / d == pending / d
    requires if d <= s then off % d == 0 else d % s == 0 && off % s == 0
    ensures pending <= off && off + (if s < d then s else d) <= pending + Max(s, d)
  {
    SamePage(off, pending, d);
    if d <= s {
      Aligned(off, pending, d);
    } else {
      ExtraAligned(off, off, s, d, pending);
    }
  }

  /** Where chunks of a source page may start. */
  ghost predicate ChunkAt(off: nat, lo: nat, s: nat, d: nat) {
    && s > 0 && d > 0 && lo % s == 0 && lo <= off < lo + s
    && if d <= s then s % d == 0 && off % d == 0 else d % s == 0 && off == lo
  }

  lemma FirstChunk(iSrcPg: nat, s: nat, d: nat, pending: nat)
    requires iSrcPg >= 1 && PageSize(s, pending) && PageSize(d, pending)
    ensures ChunkAt((iSrcPg - 1) * s, (iSrcPg - 1) * s, s, d) && iSrcPg * s == (iSrcPg - 1) * s + s
  {
    var lo := (iSrcPg - 1) * s;
    DivUnique(lo, s, iSrcPg - 1, 0);
    if d <= s {
      Pow2Divides(d, s);
      MultipleOfDivisor(lo, s, d);
    } else {
      Pow2Divides(s, d);
    }
  }

  lemma NextChunk(off: nat, lo: nat, s: nat, d: nat, pending: nat)
    requires ChunkAt(off, lo, s, d) && pending % s == 0 && pending % d == 0
    ensures var c := if s < d then s else d;
      && off + c <= lo + s && off % s == off - lo
      && off + c <= (off / d + 1) * d
      && (off + d < lo + s ==> d <= s && ChunkAt(off + d, lo, s, d))
      && (off + d >= lo + s ==> off + c == lo + s)
  {
    DivMod(lo, s);
    DivUnique(off, s, lo / s, off - lo);
    ChunkFits(off, s, d);
    if d <= s {
      MultipleOfDivisor(lo, s, d);
      AddMultiple(off, d);
      var hi := lo + s;
      DivMod(lo, d);
      DivMod(s, d);
      DivUnique(hi, d, lo / d + s / d, 0);
      Aligned(off, hi, d);
    }
  }

  // -------------------------------------------------------- the end of a backup

  /** Commit: every page but the pending-byte page is written to the file. */
  function Flush(file: seq<Byte>, image: seq<Byte>, pending: nat, d: nat): (r: seq<Byte>)
    ensures |r| == |image|
    ensures forall o :: 0 <= o < |image| && !(pending <= o < pending + d) ==> r[o] == image[o]
  {
    seq(|image|, o requires 0 <= o < |image| =>
      if pending <= o < pending + d then (if o < |file| then file[o] else 0) else image[o])
  }

  /** sqlite3PagerTruncateImage: the database has exactly n bytes from now on. */
  function Resize(image: seq<Byte>, n: nat): (r: seq<Byte>)
    ensures |r| == n
    ensures forall o :: 0 <= o < n && o < |image| ==> r[o] == image[o]
  {
    if |image| >= n then image[..n] else Grow(image, n)
  }

  /** backupTruncateFile */
  function Cut(file: seq<Byte>, n: nat): (r: seq<Byte>)
    ensures |r| == if |file| > n then n else |file|
    ensures forall o :: 0 <= o < |r| ==> r[o] == file[o]
  {
    if |file| > n then file[..n] else file
  }

  /** The finished copy: the right size, and every byte that matters is the source's. */
  ghost predicate FaithfulCopy(src: seq<Byte>, file: seq<Byte>, s: nat, pending: nat) {
    && |file| == Max(|src|, s)
    && forall o :: HEADER <= o < |src| && !(pending <= o < pending + s) ==> file[o] == src[o]
  }

  /** The source ends with a page other than the pending-byte page. */
  predicate Sound(src: seq<Byte>, s: nat, pending: nat) {
    && s > 0 && |src| % s == 0
    && !(pending < |src| <= pending + s)
  }

  /** The number of destination pages, rounded up, and one less when the last is never used. */
  function DestPages(n: nat, s: nat, d: nat, pending: nat): (r: nat)
    requires s > 0 && d > 0
  {
    if s < d then
      var ratio := d / s;
      var r := if ratio == 0 then 0 else (n + ratio - 1) / ratio;
      if r > 0 && r == PendingPage(d, pending) then r - 1 else r
    else n * (s / d)
  }

  /** The asserts about nDestTruncate, and the reason every page past the end gets journalled. */
  lemma DestPagesOk(n: nat, s: nat, d: nat, pending: nat)
    requires PageSize(s, pending) && PageSize(d, pending) && n >= 1
    ensures var r := DestPages(n, s, d, pending);
      && r > 0
      && (s < d ==> r * d >= n * s || (r == PendingPage(d, pending) - 1 && pending <= n * s <= pending + d))
      && (s < d ==> forall q: nat :: q * d > n * s ==> q >= r)
      && (s >= d ==> r * d == n * s)
  {
    if s < d {
      DestPagesUp(n, s, d, pending);
    } else {
      Pow2Divides(d, s);
      DestPagesEven(n, s, d);
    }
  }

  lemma DestPagesEven(n: nat, s: nat, d: nat)
    requires 0 < d <= s && s % d == 0 && n >= 1
    ensures n * (s / d) > 0 && n * (s / d) * d == n * s
  {
    DivMod(s, d);
    var k := s / d;
    assert s == d * k;
    assert n * k * d == n * (k * d);
    MulMonotone(n, 1, k);
  }

  lemma DestPagesUp(n: nat, s: nat, d: nat, pending: nat)
    requires PageSize(s, pending) && PageSize(d, pending) && n >= 1 && s < d
    ensures var r := DestPages(n, s, d, pending);
      && r > 0
      && (r * d >= n * s || (r == PendingPage(d, pending) - 1 && pending <= n * s <= pending + d))
      && (forall q: nat :: q * d > n * s ==> q >= r)
  {
    Pow2Divides(s, d);
    hide Pow2;
    CeilOk(n, s, d);
    var ratio := d / s;
    var c := (n + ratio - 1) / ratio;
    DivMod(pending, d);
    if c == PendingPage(d, pending) {
      assert (c - 1) * d == pending;
      assert c * d == (c - 1) * d + d;
      MulMonotone(d, c - 1, 0);
    }
  }

  lemma CeilOk(n: nat, s: nat, d: nat)
    requires 0 < s < d && d % s == 0 && n >= 1
    ensures var ratio := d / s;
      && ratio > 0
      && var c := (n + ratio - 1) / ratio;
         && c >= 1 && (c - 1) * d < n * s <= c * d
         && (forall q: nat :: q * d > n * s ==> q >= c)
  {
    DivMod(d, s);
    var ratio := d / s;
    assert d == s * ratio;
    assert ratio > 0;
    DivMod(n + ratio - 1, ratio);
    RoundedUp(n, s, d, ratio, (n + ratio - 1) / ratio);
  }

  lemma RoundedUp(n: nat, s: nat, d: nat, ratio: nat, c: nat)
    requires ratio > 0 && s > 0 && n >= 1 && d == s * ratio
    requires n + ratio - 1 == ratio * c + (n + ratio - 1) % ratio
    ensures c >= 1 && (c - 1) * d < n * s <= c * d
    ensures forall q: nat :: q * d > n * s ==> q >= c
  {
    var m := ratio * c;
    MulMonotone(ratio, c, 0);
    MulMonotone(ratio, 1, c);
    Products(s, ratio, c);
    Scaled(s, n, m, ratio);
    NoSmaller(n * s, d, c);
  }

  lemma Products(s: nat, ratio: nat, c: nat)
    requires c >= 1 && ratio * c >= ratio
    ensures c * (s * ratio) == s * (ratio * c)
    ensures (c - 1) * (s * ratio) == s * (ratio * c - ratio)
  {
    assert (c - 1) * ratio == ratio * c - ratio;
  }

  lemma Scaled(s: nat, n: nat, m: nat, ratio: nat)
    requires s > 0 && ratio <= m && n <= m < n + ratio
    ensures s * (m - ratio) < n * s <= s * m
  {
    MulMonotone(s, n, m);
    MulMonotone(s, m - ratio + 1, n);
    assert s * (m - ratio + 1) == s * (m - ratio) + s;
  }

  lemma NoSmaller(m: nat, d: nat, c: nat)
    requires c >= 1 && (c - 1) * d < m
    ensures forall q: nat :: q * d > m ==> q >= c
  {
    forall q: nat | q * d > m ensures q >= c {
      MulMonotone(d, q, c - 1);
    }
  }

  /** With a complete image the last source page is present, unless it shares the destination's pending page. */
  lemma ImageLongEnough(src: seq<Byte>, image: seq<Byte>, limit: nat, s: nat, d: nat, pending: nat)
    requires PageSize(s, pending) && PageSize(d, pending) && Sound(src, s, pending) && |src| > 0
    requires Copied(src, image, limit, s, d, pending) && |src| <= limit && |image| % d == 0
    ensures |image| > HEADER
    ensures pending + Max(s, d) < |src| || |src| <= pending ==> |src| <= |image|
    ensures s < d ==> |image| >= pending || |src| <= |image|
  {
    DivMod(|src|, s);
    MulMonotone(s, 1, |src| / s);
    DivMod(pending, s);
    MulMonotone(s, 1, pending / s);
    assert !Skipped(HEADER, s, d, pending);
    assert image[HEADER] == src[HEADER];
    var last := |src| - 1;
    if last < pending || pending + Max(s, d) <= last {
      assert !Skipped(last, s, d, pending);
      assert image[last] == src[last];
    } else {
      assert !Skipped(pending - 1, s, d, pending);
      assert image[pending - 1] == src[pending - 1];
    }
  }

  /** The equal or larger source page size: the image, cut to size, is committed. */
  lemma CommitSmallPages(src: seq<Byte>, image: seq<Byte>, file: seq<Byte>, limit: nat, s: nat, d: nat, pending: nat)
    requires d <= s && PageSize(s, pending) && PageSize(d, pending) && Sound(src, s, pending)
    requires Copied(src, image, limit, s, d, pending) && |src| <= limit
    ensures FaithfulCopy(src, Flush(file, Resize(image, Max(|src|, s)), pending, d), s, pending)
  {
  }

  /** The data that shares the destination's pending-byte page has been written up to offset at. */
  ghost predicate ExtraWritten(src: seq<Byte>, flushed: seq<Byte>, file: seq<Byte>, at: nat, s: nat, d: nat,
                               pending: nat) {
    && |flushed| <= |file|
    && (forall o :: 0 <= o < |flushed| && !(pending <= o < pending + d) ==> file[o] == flushed[o])
    && (forall o :: pending + s <= o < at && o < pending + d && o < |src| ==> o < |file| && file[o] == src[o])
  }

  lemma ExtraStep(src: seq<Byte>, flushed: seq<Byte>, file: seq<Byte>, at: nat, s: nat, d: nat, pending: nat)
    requires ExtraWritten(src, flushed, file, at, s, d, pending)
    requires pending + s <= at && at + s <= pending + d && at + s <= |src|
    ensures ExtraWritten(src, flushed, Splice(Grow(file, at + s), at, src[at..at + s]), at + s, s, d, pending)
  {
  }

  /** The larger destination page size: commit, extra pages, truncation. */
  lemma CommitLargePages(src: seq<Byte>, image: seq<Byte>, file0: seq<Byte>, file: seq<Byte>, limit: nat, at: nat,
                         s: nat, d: nat, pending: nat)
    requires s < d && PageSize(s, pending) && PageSize(d, pending) && Sound(src, s, pending)
    requires Copied(src, image, limit, s, d, pending) && |src| <= limit && |image| % d == 0 && |image| > HEADER
    requires ExtraWritten(src, Flush(file0, image, pending, d), file, at, s, d, pending)
    requires at >= pending + d || at >= |src|
    ensures FaithfulCopy(src, Cut(file, Max(|src|, s)), s, pending)
  {
    LengthOfImage(image, d);
    if |src| > 0 {
      ImageLongEnough(src, image, limit, s, d, pending);
      DivMod(|src|, s);
      MulMonotone(s, 1, |src| / s);
      if pending < |src| <= pending + d {
        assert file[|src| - 1] == src[|src| - 1];
      }
    }
  }

  lemma LengthOfImage(image: seq<Byte>, d: nat)
    requires d > 0 && |image| > 0 && |image| % d == 0
    ensures |image| >= d
  {
    DivMod(|image|, d);
    MulMonotone(d, 1, |image| / d);
  }

  lemma ExtraAligned(at: nat, n: nat, s: nat, d: nat, pending: nat)
    requires s > 0 && d % s == 0 && pending % s == 0 && n % s == 0 && at % s == 0
    ensures at < pending + d ==> at + s <= pending + d
    ensures at < n ==> at + s <= n
    ensures (at + s) % s == 0 && (pending + s) % s == 0
  {
    AddMultiple(at, s);
    AddMultiple(pending, s);
    DivMod(d, s);
    DivMod(pending, s);
    DivUnique(pending + d, s, pending / s + d / s, 0);
    Aligned(at, pending + d, s);
    Aligned(at, n, s);
  }

  /** Every destination page with a byte at or past the new size is in the journal. */
  ghost predicate TailJournalled(journal: set<nat>, pages: nat, newSize: nat, d: nat, pending: nat)
    requires d > 0
  {
    forall q: nat :: 1 <= q <= pages && PastEnd(q, d, newSize) && q != PendingPage(d, pending) ==> q in journal
  }

  predicate PastEnd(q: nat, d: nat, newSize: nat) {
    q * d > newSize
  }

  lemma TailIsJournalled(journal: set<nat>, pages: nat, n: nat, s: nat, d: nat, pending: nat)
    requires PageSize(s, pending) && PageSize(d, pending) && n >= 1 && s < d
    requires forall q :: DestPages(n, s, d, pending) <= q <= pages && q != PendingPage(d, pending) ==> q in journal
    ensures TailJournalled(journal, pages, n * s, d, pending)
  {
    DestPagesOk(n, s, d, pending);
    hide DestPages;
  }
}
