/**
 The online backup: sqlite3_backup objects that copy a source database page by
 page while the source keeps changing.
 */
module Backup {
  import opened Arith
  import opened BackupCopy

  datatype Code = OK | BUSY | LOCKED | DONE | READONLY | NOMEM | IOERR_NOMEM | OTHER(n: nat)

  /** isFatalError */
  predicate IsFatal(rc: Code) {
    rc != OK && rc != BUSY && rc != LOCKED
  }

  /** An error that ends the backup without completing it. */
  predicate IsError(rc: Code) {
    IsFatal(rc) && rc != DONE
  }

  /** The outcomes of successive page reads, page writes and file operations. */
  class Io {
    var script: seq<Code>

    /** Page and file operations fail with errors only, never with BUSY or LOCKED. */
    ghost predicate Firm()
      reads this
    {
      forall k :: 0 <= k < |script| ==> script[k] == OK || IsError(script[k])
    }

    /** No operation fails. */
    ghost predicate Smooth()
      reads this
    {
      forall k :: 0 <= k < |script| ==> script[k] == OK
    }

    method Next() returns (rc: Code)
      requires Firm()
      modifies this
      ensures Firm() && (rc == OK || IsError(rc))
      ensures old(Smooth()) ==> Smooth() && rc == OK
    {
      if script == [] { return OK; }
      rc := script[0];
      script := script[1..];
    }
  }

  /** What the pager and b-tree layers answer during one sqlite3_backup_step. */
  datatype Env = Env(
    beginRead: Code,        // sqlite3BtreeBeginTrans on the source
    destPgsz: nat,          // destination page size after setDestPgsz
    pgszNomem: bool,        // setDestPgsz ran out of memory
    lockDest: Code,         // sqlite3BtreeBeginTrans on the destination
    wal: bool,              // destination journal mode is WAL
    header: seq<Byte>)      // page-1 header after UpdateMeta, SetVersion and commit

  /** The page to copy next after nPage pages, or all if nPage is negative, of a source of n pages. */
  function NextPage(iNext: nat, nPage: int, n: nat): nat {
    if 0 <= nPage && iNext + nPage <= n then iNext + nPage else Max(iNext, n + 1)
  }

  /** How a step that answers r moves the next page of a backup, the source having n pages. */
  predicate Advanced(r: Code, was: Code, from: nat, to: nat, nPage: int, n: nat) {
    && (r == OK || (r == DONE && was != DONE) ==> to == NextPage(from, nPage, n))
    && (!IsFatal(was) && IsError(r) ==> from <= to <= NextPage(from, nPage, n))
    && (r == BUSY || r == LOCKED ==> to == from)
  }

  /** A step that is refused leaves the next page alone. */
  lemma NotMoved(r: Code, was: Code, from: nat, nPage: int, n: nat)
    requires r != DONE || was == DONE
    ensures r != OK ==> Advanced(r, was, from, from, nPage, n)
  {
  }

  lemma NomemMoves(was: Code, from: nat, to: nat, nPage: int, n: nat)
    ensures Advanced(IOERR_NOMEM, was, from, to, nPage, n) ==> Advanced(NOMEM, was, from, to, nPage, n)
  {
  }

  lemma AdvancedAlike(r: Code, was: Code, from: nat, to: nat, nPage: int, n: nat)
    requires Advanced(r, OK, from, to, nPage, n) && !IsFatal(was)
    ensures Advanced(r, was, from, to, nPage, n)
  {
  }

  class BackupObject {
    const pending: nat      // PENDING_BYTE
    const s: nat            // source page size
    const isMemdb: bool     // the destination is an in-memory database
    var d: nat              // destination page size, fixed once the destination is locked
    var image: seq<Byte>    // destination as its pager sees it
    var file: seq<Byte>     // destination file
    var journal: set<nat>   // destination pages written, and so journalled, in this transaction
    var iNext: nat
    var rc: Code
    var bDestLocked: bool
    var isAttached: bool
    var nRemaining: int
    var nPagecount: nat

    ghost predicate Sizes()
      reads this
    {
      PageSize(s, pending) && PageSize(d, pending) && |image| % d == 0
    }

    method OnePage(iSrcPg: nat, data: seq<Byte>, bUpdate: bool, lastPage: nat, io: Io) returns (r: Code)
      requires bDestLocked && !IsFatal(rc) && Sizes() && io.Firm()
      requires iSrcPg >= 1 && iSrcPg != PendingPage(s, pending) && |data| == s
      modifies this`image, this`journal, io
      ensures Sizes() && io.Firm()
      ensures r == OK || IsError(r)
      ensures old(io.Smooth()) ==> io.Smooth() && (s == d || !isMemdb ==> r == OK)
      ensures r == OK ==> PageWritten(old(image), image, PageStart(iSrcPg, s), data, s, d, pending)
      ensures old(journal) <= journal && |old(image)| <= |image|
    {
      hide PageWritten, ChunkAt, Pow2, Io.Smooth, Io.Firm, PendingPage;
      r := if s != d && isMemdb then READONLY else OK;
      FirstChunk(iSrcPg, s, d, pending);
      var iEnd := iSrcPg * s;
      var iOff := iEnd - s;
      assert iOff == PageStart(iSrcPg, s);
      hide PageSize, PageStart;
      if r == OK {
        r := CopyChunks(iOff, data, bUpdate, lastPage, io);
      }
    }

    /** The loop over the destination pages spanned by the source page at offset lo. */
    method CopyChunks(lo: nat, data: seq<Byte>, bUpdate: bool, lastPage: nat, io: Io) returns (r: Code)
      requires Sizes() && io.Firm() && ChunkAt(lo, lo, s, d) && |data| == s
      modifies this`image, this`journal, io
      ensures Sizes() && io.Firm() && (r == OK || IsError(r))
      ensures old(io.Smooth()) ==> io.Smooth() && r == OK
      ensures r == OK ==> PageWritten(old(image), image, lo, data, s, d, pending)
      ensures old(journal) <= journal && |old(image)| <= |image|
    {
      hide PageWritten, ChunkAt, Pow2, Io.Smooth;
      r := OK;
      var nCopy, iEnd := if s < d then s else d, lo + s;
      var iOff := lo;
      ghost var k := 0;
      NothingWritten(image, lo, data, s, d, pending);
      while r == OK && iOff < iEnd
        invariant r == OK && iOff < iEnd ==> iOff == lo + k && ChunkAt(iOff, lo, s, d)
        invariant r == OK && iOff >= iEnd ==> k == s
        invariant 0 <= k <= s && Sizes() && io.Firm() && (r == OK || IsError(r))
        invariant old(io.Smooth()) ==> io.Smooth() && r == OK
        invariant r == OK ==> PageWritten(old(image), image, lo, data[..k], s, d, pending)
        invariant old(journal) <= journal && |old(image)| <= |image|
        decreases iEnd - iOff
      {
        NextChunk(iOff, lo, s, d, pending);
        r := OneChunk(iOff, data, bUpdate, lastPage, io, lo, old(image));
        k := if r == OK then k + nCopy else k;
        iOff := iOff + d;
      }
      assert data[..s] == data;
    }

    /** One iteration of the loop: the destination page at offset iOff. */
    method OneChunk(iOff: nat, data: seq<Byte>, bUpdate: bool, lastPage: nat, io: Io, ghost lo: nat,
                    ghost was: seq<Byte>)
      returns (r: Code)
      requires Sizes() && io.Firm() && ChunkAt(iOff, lo, s, d) && |data| == s
      requires PageWritten(was, image, lo, data[..iOff - lo], s, d, pending)
      modifies this`image, this`journal, io
      ensures Sizes() && io.Firm() && (r == OK || IsError(r))
      ensures old(io.Smooth()) ==> io.Smooth() && r == OK
      ensures old(journal) <= journal && |old(image)| <= |image|
      ensures var k := iOff - lo + if s < d then s else d;
        k <= s && (r == OK ==> PageWritten(was, image, lo, data[..k], s, d, pending))
    {
      hide PageWritten, Pow2, ChunkAt, Io.Smooth;
      var nCopy := if s < d then s else d;
      var iDest := iOff / d + 1;
      ghost var k := iOff - lo;
      NextChunk(iOff, lo, s, d, pending);
      r := OK;
      if iDest == PendingPage(d, pending) {
        ChunkSkipped(was, image, lo, data, k, nCopy, s, d, pending);
      } else {
        r := io.Next();
        if r == OK {
          var zIn := iOff % s;
          ChunkWritten(was, image, lo, data, k, nCopy, s, d, pending);
          PutPage(iOff, data[zIn..zIn + nCopy]);
          if iOff == 0 && !bUpdate {
            HeaderWritten(was, image, lo, data[..k + nCopy], Put4(lastPage), 28, s, d, pending);
            image := Splice(image, 28, Put4(lastPage));
          }
        }
      }
    }

    /** sqlite3PagerWrite and memcpy on the destination page at offset off. */
    method PutPage(off: nat, chunk: seq<Byte>)
      requires Sizes() && off + |chunk| <= (off / d + 1) * d
      modifies this`image, this`journal
      ensures image == PutChunk(old(image), off, chunk, d) && journal == old(journal) + {off / d + 1}
      ensures Sizes() && |image| >= d && |image| >= |old(image)|
    {
      hide Pow2;
      PageEnd(off, d);
      image := PutChunk(image, off, chunk, d);
      journal := journal + {off / d + 1};
    }

    /** What holds of a backup of a source with content src, whenever no call is in progress. */
    ghost predicate Consistent(src: seq<Byte>)
      reads this
    {
      && PageSize(s, pending) && iNext >= 1
      && (bDestLocked ==> Sizes())
      && (iNext > 1 ==> bDestLocked)
      && (!isAttached && !IsFatal(rc) ==> iNext == 1)
      && (bDestLocked && !IsFatal(rc) ==> Copied(src, image, (iNext - 1) * s, s, d, pending))
    }

    /** sqlite3_backup_init */
    constructor (pending: nat, s: nat, isMemdb: bool, image: seq<Byte>)
      requires PageSize(s, pending)
      ensures forall src :: Consistent(src)
      ensures this.pending == pending && this.s == s && iNext == 1 && rc == OK && !isAttached && !bDestLocked
    {
      this.pending, this.s, this.isMemdb, this.image, this.file := pending, s, isMemdb, image, image;
      d, journal, iNext, rc := s, {}, 1, OK;
      bDestLocked, isAttached, nRemaining, nPagecount := false, false, 0, 0;
    }

    /** All source pages before pg are in the destination. */
    ghost predicate CopiedBelow(src: seq<Byte>, pg: nat)
      reads this
    {
      pg >= 1 && Copied(src, image, (pg - 1) * s, s, d, pending)
    }

    /** The copy loop of sqlite3_backup_step. */
    method CopyPages(src: seq<Byte>, nPage: int, io: Io) returns (r: Code)
      requires s > 0 && Consistent(src) && bDestLocked && !IsFatal(rc) && io.Firm() && |src| % s == 0
      modifies this`image, this`journal, this`iNext, io
      ensures Sizes() && io.Firm() && iNext >= old(iNext) && (r == OK || IsError(r))
      ensures r == OK ==> CopiedBelow(src, iNext)
      ensures iNext <= NextPage(old(iNext), nPage, |src| / s)
      ensures r == OK ==> iNext == NextPage(old(iNext), nPage, |src| / s)
      ensures old(io.Smooth()) ==> io.Smooth() && (s == d || !isMemdb ==> r == OK)
    {
      hide Copied, Pow2, Io.Smooth;
      assert CopiedBelow(src, iNext);
      hide CopiedBelow;
      r := OK;
      var nSrcPage, ii := |src| / s, 0;
      while (nPage < 0 || ii < nPage) && iNext <= nSrcPage && r == OK
        invariant Sizes() && io.Firm() && iNext >= old(iNext) && (r == OK || IsError(r)) && ii >= 0
        invariant r == OK ==> CopiedBelow(src, iNext)
        invariant iNext == old(iNext) + ii && (nPage < 0 || ii <= nPage) && (ii == 0 || iNext <= nSrcPage + 1)
        invariant old(io.Smooth()) ==> io.Smooth() && (s == d || !isMemdb ==> r == OK)
        decreases nSrcPage + 1 - iNext
      {
        r := CopyPage(src, iNext, io);
        iNext := iNext + 1;
        ii := ii + 1;
      }
    }

    method CopyPage(src: seq<Byte>, pg: nat, io: Io) returns (r: Code)
      requires bDestLocked && !IsFatal(rc) && Sizes() && io.Firm() && |src| % s == 0 && 1 <= pg <= |src| / s
      requires CopiedBelow(src, pg)
      modifies this`image, this`journal, io
      ensures Sizes() && io.Firm() && (r == OK || IsError(r))
      ensures r == OK ==> CopiedBelow(src, pg + 1)
      ensures old(io.Smooth()) ==> io.Smooth() && (s == d || !isMemdb ==> r == OK)
    {
      hide Copied, PageWritten, Pow2, Io.Smooth;
      var lo := (pg - 1) * s;
      PageRange(|src|, s, pg, pending);
      if pg != PendingPage(s, pending) {
        r := io.Next();
        if r == OK {
          ghost var was := image;
          r := OnePage(pg, src[lo..lo + s], false, |src| / s, io);
          if r == OK {
            CopiedNext(src, was, image, lo, src[lo..lo + s], s, d, pending);
          }
        }
      } else {
        CopiedSkip(src, image, s, d, pending);
        r := OK;
      }
    }

    /** A write at offset lo to a source of n bytes leaves no gap among the bytes already copied. */
    predicate RoomFor(n: nat, lo: nat)
      reads this
    {
      NoGap(n, lo, s, pending) || IsFatal(rc) || (iNext - 1) * s <= n
    }

    /** The body of the loop in backupUpdate: the page is copied again if it had been copied. */
    method Update(src: seq<Byte>, iPage: nat, data: seq<Byte>, io: Io, ghost lo: nat)
      requires Consistent(src) && io.Firm() && |src| % s == 0 && |data| == s
      requires iPage >= 1 && iPage != PendingPage(s, pending) && lo == (iPage - 1) * s
      requires RoomFor(|src|, lo)
      modifies this`image, this`journal, this`rc, io
      ensures Consistent(Written(src, lo, data)) && io.Firm()
      ensures rc == old(rc) || (!IsFatal(old(rc)) && IsError(rc))
      ensures IsFatal(old(rc)) || iPage >= iNext ==> rc == old(rc) && image == old(image)
    {
      hide Copied, PageWritten, Pow2, Written;
      if !IsFatal(rc) && iPage < iNext {
        ghost var was := image;
        PageOrder(iPage, iNext, s);
        var r := OnePage(iPage, data, true, 0, io);
        if r != OK {
          rc := r;
        } else {
          CopiedRewritten(src, was, image, lo, data, (iNext - 1) * s, s, d, pending);
        }
      } else if !IsFatal(rc) && bDestLocked {
        PageOrder(iPage, iNext, s);
        CopiedUntouched(src, image, lo, data, (iNext - 1) * s, s, d, pending);
      }
    }

    /** A backup that is not registered has copied nothing, so any source content suits it. */
    lemma Unregistered(was: seq<Byte>, src: seq<Byte>)
      requires Consistent(was) && !isAttached
      ensures Consistent(src)
    {
    }

    lemma Restarted(src: seq<Byte>)
      requires PageSize(s, pending) && (bDestLocked ==> Sizes()) && iNext == 1
      ensures Consistent(src)
    {
    }

    /** Journals every destination page from nDestTruncate on. */
    method JournalTail(nDestTruncate: nat, io: Io) returns (r: Code)
      requires d > 0 && io.Firm()
      modifies this`journal, io
      ensures io.Firm() && (r == OK || IsError(r))
      ensures old(io.Smooth()) ==> io.Smooth() && r == OK
      ensures r == OK ==> forall q :: nDestTruncate <= q <= |image| / d && q != PendingPage(d, pending) ==> q in journal
    {
      r := OK;
      var nDstPage, iPg := |image| / d, nDestTruncate;
      while r == OK && iPg <= nDstPage
        invariant io.Firm() && (r == OK || IsError(r)) && nDestTruncate <= iPg
        invariant old(io.Smooth()) ==> io.Smooth() && r == OK
        invariant r == OK ==> forall q :: nDestTruncate <= q < iPg && q != PendingPage(d, pending) ==> q in journal
        decreases nDstPage + 1 - iPg
      {
        if iPg != PendingPage(d, pending) {
          r := io.Next();
          if r == OK { journal := journal + {iPg}; }
        }
        iPg := iPg + 1;
      }
    }

    /** Writes the source pages that share the destination's pending-byte page straight to the file. */
    method WriteExtra(src: seq<Byte>, iSize: nat, io: Io) returns (r: Code, ghost at: nat)
      requires PageSize(s, pending) && PageSize(d, pending) && s < d && io.Firm()
      requires Sound(src, s, pending) && iSize == Max(|src|, s)
      modifies this`file, io
      ensures io.Firm() && (r == OK || IsError(r))
      ensures old(io.Smooth()) ==> io.Smooth() && r == OK
      ensures r == OK ==> ExtraWritten(src, old(file), file, at, s, d, pending) && (at >= pending + d || at >= |src|)
    {
      hide ExtraWritten, Pow2, Io.Smooth;
      r := OK;
      var iEnd := if pending + d < iSize then pending + d else iSize;
      var iOff := pending + s;
      Pow2Divides(s, d);
      ExtraAligned(pending, |src|, s, d, pending);
      NoExtra(src, file, s, d, pending);
      while r == OK && iOff < iEnd
        invariant io.Firm() && (r == OK || IsError(r)) && pending + s <= iOff && iOff % s == 0
        invariant r == OK ==> ExtraWritten(src, old(file), file, iOff, s, d, pending)
        invariant old(io.Smooth()) ==> io.Smooth() && r == OK
        decreases iEnd - iOff
      {
        ExtraAligned(iOff, |src|, s, d, pending);
        r := io.Next();
        if r == OK {
          r := io.Next();
          if r == OK {
            ExtraStep(src, old(file), file, iOff, s, d, pending);
            file := Splice(Grow(file, iOff + s), iOff, src[iOff..iOff + s]);
          }
        }
        iOff := iOff + s;
      }
      at := iOff;
    }
    /** The part of sqlite3_backup_step that completes the destination once all pages are copied. */
    method Complete(src: seq<Byte>, ghost limit: nat, env: Env, io: Io) returns (r: Code)
      requires Sizes() && io.Firm() && Sound(src, s, pending) && |env.header| == HEADER
      requires Copied(src, image, limit, s, d, pending) && |src| <= limit
      modifies this`image, this`file, this`journal, io
      ensures Sizes() && io.Firm()
      ensures r == DONE || IsError(r)
      ensures old(io.Smooth()) ==> io.Smooth() && r == DONE
      ensures r == DONE ==> FaithfulCopy(src, file, s, pending)
      ensures r == DONE && s < d ==> TailJournalled(journal, |image| / d, Max(|src|, s), d, pending)
    {
      hide Copied, FaithfulCopy, Pow2, TailJournalled, Io.Smooth;
      r := WriteHeader(src, limit, env, io);
      if r != OK { return; }
      SourcePages(src, s);
      var nSrcPage := if |src| / s == 0 then 1 else |src| / s;
      assert nSrcPage * s == Max(|src|, s);
      if s < d {
        r := CommitLarge(src, limit, nSrcPage, io);
      } else {
        r := CommitSmall(src, limit, nSrcPage, io);
      }
      if r == OK {
        r := io.Next();                       // sqlite3BtreeCommitPhaseTwo
        if r == OK { r := DONE; }
      }
    }

    /** NewDb for an empty source, then the changes to the page-1 header. */
    method WriteHeader(src: seq<Byte>, ghost limit: nat, env: Env, io: Io) returns (r: Code)
      requires Sizes() && io.Firm() && Sound(src, s, pending) && |env.header| == HEADER
      requires Copied(src, image, limit, s, d, pending) && |src| <= limit
      modifies this`image, this`journal, io
      ensures Sizes() && io.Firm() && (r == OK || IsError(r))
      ensures old(io.Smooth()) ==> io.Smooth() && r == OK
      ensures r == OK ==> Copied(src, image, limit, s, d, pending) && |image| > HEADER
    {
      hide Copied, Pow2, Io.Smooth;
      SourcePages(src, s);
      if |src| / s == 0 {
        r := io.Next();                       // sqlite3BtreeNewDb
        if r != OK { return; }
        FreshPage();
        NothingToCopy(src, image, limit, s, d, pending);
      } else {
        ImageLongEnough(src, image, limit, s, d, pending);
      }
      r := io.Next();                         // sqlite3BtreeUpdateMeta
      if r == OK && env.wal { r := io.Next(); }   // sqlite3BtreeSetVersion
      if r != OK { return; }
      CopiedHeader(src, image, limit, env.header, s, d, pending);
      image := Splice(image, 0, env.header);
    }

    /** The first page of an empty destination exists. */
    method FreshPage()
      requires Sizes()
      modifies this`image, this`journal
      ensures Sizes() && |image| >= d
    {
      if |image| > 0 { LengthOfImage(image, d); } else { DivUnique(d, d, 1, 0); }
      image := Grow(image, d);
      journal := journal + {1};
    }

    method CommitSmall(src: seq<Byte>, ghost limit: nat, nSrcPage: nat, io: Io) returns (r: Code)
      requires Sizes() && d <= s && io.Firm() && Sound(src, s, pending)
      requires nSrcPage >= 1 && nSrcPage * s == Max(|src|, s)
      requires Copied(src, image, limit, s, d, pending) && |src| <= limit
      modifies this`image, this`file, io
      ensures Sizes() && io.Firm() && (r == OK || IsError(r))
      ensures old(io.Smooth()) ==> io.Smooth() && r == OK
      ensures r == OK ==> FaithfulCopy(src, file, s, pending)
    {
      hide Copied, FaithfulCopy, Pow2, Io.Smooth;
      DestPagesOk(nSrcPage, s, d, pending);
      var nDestTruncate := DestPages(nSrcPage, s, d, pending);
      assert nDestTruncate > 0;
      hide DestPages;
      CommitSmallPages(src, image, file, limit, s, d, pending);
      DivUnique(nDestTruncate * d, d, nDestTruncate, 0);
      image := Resize(image, nDestTruncate * d);
      r := io.Next();                         // sqlite3PagerCommitPhaseOne
      if r == OK { file := Flush(file, image, pending, d); }
    }

    method CommitLarge(src: seq<Byte>, ghost limit: nat, nSrcPage: nat, io: Io) returns (r: Code)
      requires Sizes() && s < d && io.Firm() && Sound(src, s, pending) && |image| > HEADER
      requires nSrcPage >= 1 && nSrcPage * s == Max(|src|, s)
      requires Copied(src, image, limit, s, d, pending) && |src| <= limit
      modifies this`file, this`journal, io
      ensures Sizes() && io.Firm() && (r == OK || IsError(r))
      ensures old(io.Smooth()) ==> io.Smooth() && r == OK
      ensures r == OK ==> FaithfulCopy(src, file, s, pending)
      ensures r == OK ==> TailJournalled(journal, |image| / d, Max(|src|, s), d, pending)
    {
      hide Copied, FaithfulCopy, Pow2, ExtraWritten, TailJournalled, Io.Smooth;
      var iSize := nSrcPage * s;
      DestPagesOk(nSrcPage, s, d, pending);
      var nDestTruncate := DestPages(nSrcPage, s, d, pending);
      assert nDestTruncate > 0;
      r := JournalTail(nDestTruncate, io);
      if r != OK { return; }
      TailIsJournalled(journal, |image| / d, nSrcPage, s, d, pending);
      r := CommitAndExtend(src, limit, iSize, io);
    }

    method CommitAndExtend(src: seq<Byte>, ghost limit: nat, iSize: nat, io: Io) returns (r: Code)
      requires Sizes() && s < d && io.Firm() && Sound(src, s, pending) && |image| > HEADER && iSize == Max(|src|, s)
      requires Copied(src, image, limit, s, d, pending) && |src| <= limit
      modifies this`file, io
      ensures io.Firm() && (r == OK || IsError(r))
      ensures old(io.Smooth()) ==> io.Smooth() && r == OK
      ensures r == OK ==> FaithfulCopy(src, file, s, pending)
    {
      hide Copied, FaithfulCopy, Pow2, ExtraWritten, Io.Smooth;
      r := io.Next();                         // sqlite3PagerCommitPhaseOne
      if r != OK { return; }
      ghost var was := file;
      file := Flush(file, image, pending, d);
      ghost var at;
      r, at := WriteExtra(src, iSize, io);
      if r != OK { return; }
      CommitLargePages(src, image, was, file, limit, at, s, d, pending);
      r := io.Next();                         // backupTruncateFile
      if r != OK { return; }
      file := Cut(file, iSize);
      r := io.Next();                         // sqlite3PagerSync
    }
  }

  lemma PageOrder(p: nat, q: nat, s: nat)
    requires p >= 1 && q >= 1
    ensures if p <= q then (p - 1) * s <= (q - 1) * s else (q - 1) * s <= (p - 1) * s
  {
    MulMonotone(s, p - 1, q - 1);
    MulMonotone(s, q - 1, p - 1);
  }

  /** The write starts within the source or at its end, the pending-byte page not counting. */
  predicate NoGap(n: nat, lo: nat, s: nat, pending: nat) {
    lo <= n || (n == pending && lo == pending + s)
  }

  lemma SourcePages(src: seq<Byte>, s: nat)
    requires s > 0 && |src| % s == 0
    ensures |src| / s >= 1 ==> (|src| / s) * s == |src| >= s
    ensures |src| / s == 0 ==> |src| == 0
  {
    DivMod(|src|, s);
    MulMonotone(s, 1, |src| / s);
  }

  lemma NothingToCopy(src: seq<Byte>, image: seq<Byte>, limit: nat, s: nat, d: nat, pending: nat)
    requires |src| == 0
    ensures Copied(src, image, limit, s, d, pending)
  {
  }

  /** Writing a page leaves the source with a proper last page. */
  lemma GrowthOk(bytes: seq<Byte>, pg: nat, data: seq<Byte>, s: nat, pending: nat)
    requires PageSize(s, pending) && Sound(bytes, s, pending) && |data| == s && pg >= 1 && pg != PendingPage(s, pending)
    ensures Sound(Written(bytes, (pg - 1) * s, data), s, pending)
  {
    hide Written, Pow2;
    var lo := (pg - 1) * s;
    DivUnique(lo, s, pg - 1, 0);
    AddMultiple(lo, s);
    Aligned(lo, pending, s);
    DivMod(pending, s);
    assert lo != pending;
  }

  lemma NoExtra(src: seq<Byte>, file: seq<Byte>, s: nat, d: nat, pending: nat)
    ensures ExtraWritten(src, file, file, pending + s, s, d, pending)
  {
  }

  /** Page pg of a source of n bytes. */
  lemma PageRange(n: nat, s: nat, pg: nat, pending: nat)
    requires s > 0 && n % s == 0 && 1 <= pg <= n / s && pending % s == 0
    ensures pg * s == (pg - 1) * s + s <= n
    ensures pg == PendingPage(s, pending) <==> (pg - 1) * s == pending
  {
    DivMod(n, s);
    MulMonotone(s, pg, n / s);
    DivMod(pending, s);
    DivUnique((pg - 1) * s, s, pg - 1, 0);
  }

  /** The source database and the backups registered with its pager. */
  class Source {
    const pending: nat
    const s: nat
    var bytes: seq<Byte>
    var inWrite: bool                   // inTransaction==TRANS_WRITE
    var list: seq<BackupObject>         // the pNext list, newest first
    ghost var all: set<BackupObject>    // every unfinished backup of this source

    ghost predicate Member(b: BackupObject)
      reads this, b
    {
      b.s == s && b.pending == pending && b.Consistent(bytes) && (b.isAttached <==> b in list)
    }

    ghost predicate Ok()
      reads this, all
    {
      && PageSize(s, pending) && Sound(bytes, s, pending)
      && (forall b :: b in all ==> Member(b))
      && (forall k :: 0 <= k < |list| ==> list[k] in all)
      && (forall j, k :: 0 <= j < k < |list| ==> list[j] != list[k])
    }

    constructor (pending: nat, s: nat, bytes: seq<Byte>)
      requires PageSize(s, pending) && Sound(bytes, s, pending)
      ensures Ok() && this.bytes == bytes && all == {} && list == []
    {
      this.pending, this.s, this.bytes := pending, s, bytes;
      inWrite, list, all := false, [], {};
    }

    method SetTransaction(open: bool)
      requires Ok()
      modifies this`inWrite
      ensures Ok() && inWrite == open
    {
      inWrite := open;
    }

    /** sqlite3_backup_init */
    method Init(isMemdb: bool, destination: seq<Byte>) returns (b: BackupObject)
      requires Ok()
      modifies this`all
      ensures Ok() && fresh(b) && all == old(all) + {b} && b.rc == OK && b.iNext == 1
    {
      b := new BackupObject(pending, s, isMemdb, destination);
      all := all + {b};
    }

    /** Nothing in the way of a step: no write transaction, all locks granted, and page sizes that go together. */
    predicate Granted(b: BackupObject, env: Env)
      reads this, b
    {
      var d := if b.bDestLocked then b.d else env.destPgsz;
      && !inWrite && env.beginRead == OK && !env.pgszNomem && env.lockDest == OK
      && (s == d || (!b.isMemdb && !env.wal))
    }

    /** Every destination page that the truncation of a larger page size touches is in the journal. */
    ghost predicate CutJournalled(b: BackupObject)
      reads this, b
    {
      b.d > s ==> TailJournalled(b.journal, |b.image| / b.d, Max(|bytes|, s), b.d, pending)
    }

    /** The number of pages of the source. */
    function Pages(): nat
      reads this
    {
      if s == 0 then 0 else |bytes| / s
    }

    /** Only the lock on the destination is in the way. */
    predicate DestRefused(b: BackupObject, env: Env)
      reads this, b
    {
      !inWrite && env.beginRead == OK && !b.bDestLocked && !env.pgszNomem && env.lockDest != OK
    }

    /** The pages copied so far, the lock and the answers of the environment before the copy loop. */
    method Prepare(b: BackupObject, env: Env) returns (r: Code)
      requires Ok() && b in all && !IsFatal(b.rc)
      requires env.beginRead != DONE && env.lockDest != DONE && PageSize(env.destPgsz, pending)
      modifies b`d, b`image, b`bDestLocked
      ensures Ok() && r != DONE
      ensures r == OK ==> b.bDestLocked
      ensures old(b.bDestLocked) ==> b.d == old(b.d) && b.image == old(b.image) && b.bDestLocked
      ensures old(Granted(b, env)) ==> r == OK && Granted(b, env) && (s == b.d || !b.isMemdb)
      ensures inWrite ==> r == BUSY
      ensures !inWrite && env.beginRead != OK ==> r == env.beginRead
      ensures !inWrite && env.beginRead == OK && !old(b.bDestLocked) && env.pgszNomem ==> r == NOMEM
      ensures old(DestRefused(b, env)) ==> r == env.lockDest && !b.bDestLocked
      ensures !b.bDestLocked ==> b.image == old(b.image)
      ensures inWrite || env.beginRead != OK ==> b.bDestLocked == old(b.bDestLocked)
      ensures b.bDestLocked && env.wal && s != b.d ==> r != OK
      ensures b.bDestLocked && !old(b.bDestLocked) ==> b.d == env.destPgsz
    {
      r := if inWrite then BUSY else env.beginRead;
      if r == OK && !b.bDestLocked {
        b.d := env.destPgsz;
        if env.pgszNomem { r := NOMEM; }
      }
      if r == OK && !b.bDestLocked {
        r := env.lockDest;
        if r == OK {
          b.image := Grow(b.file, RoundUp(|b.file|, b.d));
          b.bDestLocked := true;
        }
      }
      if r == OK && env.wal && s != b.d { r := READONLY; }
    }
    /**
     sqlite3_backup_step: a code that is fatal stays as it is; DONE is only ever
     answered for a destination that is a faithful copy of the source at that moment.
     */
    method Step(b: BackupObject, nPage: int, env: Env, io: Io) returns (r: Code)
      requires Ok() && b in all && io.Firm()
      requires env.beginRead != DONE && env.lockDest != DONE && PageSize(env.destPgsz, pending)
      requires |env.header| == HEADER
      modifies this`list, b, io
      ensures Ok() && io.Firm() && r == b.rc
      ensures old(b.rc) !in {OK, BUSY, LOCKED} ==> b.rc == old(b.rc) && b.file == old(b.file) && b.iNext == old(b.iNext)
      ensures r == DONE && old(b.rc) != DONE ==>
        !IsFatal(old(b.rc)) && FaithfulCopy(bytes, b.file, s, pending) && CutJournalled(b)
      ensures r == OK ==> b.isAttached && b.nRemaining == Pages() + 1 - b.iNext && b.nRemaining > 0
      ensures Advanced(r, old(b.rc), old(b.iNext), b.iNext, nPage, Pages())
      ensures !IsFatal(r) ==> b.file == old(b.file)
      ensures old(b.rc) in {OK, BUSY, LOCKED} && old(Granted(b, env)) && old(io.Smooth()) ==>
        Granted(b, env) && io.Smooth() && r == if NextPage(old(b.iNext), nPage, Pages()) > Pages() then DONE else OK
      ensures nPage < 0 ==> r != OK
      ensures !IsFatal(old(b.rc)) && inWrite ==> r == BUSY && b.image == old(b.image)
      ensures !IsFatal(old(b.rc)) && !inWrite && env.beginRead != OK && env.beginRead != IOERR_NOMEM ==>
        r == env.beginRead && b.image == old(b.image)
      ensures !IsFatal(old(b.rc)) && old(DestRefused(b, env)) && env.lockDest != IOERR_NOMEM ==>
        r == env.lockDest && !b.bDestLocked && b.image == old(b.image)
    {
      if IsFatal(b.rc) {
        NotMoved(b.rc, b.rc, b.iNext, nPage, Pages());
        return b.rc;
      }
      hide FaithfulCopy, CutJournalled, PageSize, Ok, OkBut, Io.Smooth, Io.Firm, Granted, DestRefused, Advanced;
      r := Attempt(b, nPage, env, io);
      NomemMoves(b.rc, old(b.iNext), b.iNext, nPage, Pages());
      if r == IOERR_NOMEM { r := NOMEM; }
      SetRc(b, r);
    }

    /** The step of a backup without a fatal code, up to the point where its code is stored. */
    method Attempt(b: BackupObject, nPage: int, env: Env, io: Io) returns (r: Code)
      requires Ok() && b in all && io.Firm() && !IsFatal(b.rc)
      requires env.beginRead != DONE && env.lockDest != DONE && PageSize(env.destPgsz, pending)
      requires |env.header| == HEADER
      modifies this`list, b, io
      ensures OkBut(b) && io.Firm() && b.rc == old(b.rc) && (!IsFatal(r) ==> Ok())
      ensures r == DONE ==> FaithfulCopy(bytes, b.file, s, pending) && CutJournalled(b)
      ensures r == OK ==> b.isAttached && b.nRemaining == Pages() + 1 - b.iNext && b.nRemaining > 0
      ensures Advanced(r, b.rc, old(b.iNext), b.iNext, nPage, Pages()) && (nPage < 0 ==> r != OK)
      ensures !IsFatal(r) ==> b.file == old(b.file)
      ensures old(Granted(b, env)) && old(io.Smooth()) ==>
        Granted(b, env) && io.Smooth() && r == if NextPage(old(b.iNext), nPage, Pages()) > Pages() then DONE else OK
      ensures inWrite || env.beginRead != OK ==>
        b.image == old(b.image) && r == if inWrite then BUSY else env.beginRead
      ensures old(DestRefused(b, env)) ==> b.image == old(b.image) && r == env.lockDest && !b.bDestLocked
    {
      hide FaithfulCopy, CutJournalled, PageSize, Ok, OkBut, Io.Smooth, Io.Firm, DestRefused, Advanced, NextPage;
      r := Prepare(b, env);
      AllButAny(b);
      NotMoved(r, b.rc, b.iNext, nPage, Pages());
      if r == OK {
        r := CopyAndFinish(b, nPage, env, io);
        AdvancedAlike(r, b.rc, old(b.iNext), b.iNext, nPage, Pages());
      }
    }

    /**
     The loop of a client that steps as long as the answer is OK.  If the source stays as it is and
     nothing is refused, it ends with DONE after exactly as many steps as nPage pages a step make necessary.
     */
    method StepWhileOk(b: BackupObject, nPage: nat, env: Env, io: Io) returns (r: Code, steps: nat)
      requires Ok() && b in all && io.Firm() && io.Smooth() && nPage > 0 && !IsFatal(b.rc) && Granted(b, env)
      requires PageSize(env.destPgsz, pending) && |env.header| == HEADER
      modifies this`list, b, io
      ensures Ok() && io.Firm() && r == DONE == b.rc && FaithfulCopy(bytes, b.file, s, pending)
      ensures var left := Pages() + 1 - old(b.iNext);
        steps >= 1 && left <= steps * nPage && (steps == 1 || (steps - 1) * nPage < left)
    {
      NonZero();
      assert env.beginRead != DONE && env.lockDest != DONE;
      hide FaithfulCopy, CutJournalled, PageSize, Ok, Io.Smooth, Granted;
      ghost var n, start := Pages(), b.iNext;
      r, steps := OK, 0;
      while r == OK
        invariant Ok() && io.Firm() && io.Smooth() && env.beginRead != DONE && env.lockDest != DONE
        invariant r == OK ==> !IsFatal(b.rc) && Granted(b, env) && b.iNext == start + steps * nPage
        invariant r == OK && steps > 0 ==> b.iNext <= n
        invariant r != OK ==> r == DONE == b.rc && FaithfulCopy(bytes, b.file, s, pending)
        invariant r != OK ==> steps >= 1 && start + steps * nPage > n
        invariant r != OK ==> steps == 1 || start + (steps - 1) * nPage <= n
        decreases r == OK, n + 1 - b.iNext
      {
        assert (steps + 1) * nPage == steps * nPage + nPage;
        r := Step(b, nPage, env, io);
        steps := steps + 1;
      }
    }

    /** Everything is in order except that b may have stopped in the middle of its work. */
    ghost predicate OkBut(b: BackupObject)
      reads this, all
    {
      && PageSize(s, pending) && Sound(bytes, s, pending) && b in all
      && b.s == s && b.pending == pending && b.iNext >= 1
      && (b.bDestLocked ==> b.Sizes()) && (b.iNext > 1 ==> b.bDestLocked) && (b.isAttached <==> b in list)
      && (forall c :: c in all && c != b ==> Member(c))
      && (forall k :: 0 <= k < |list| ==> list[k] in all)
      && (forall j, k :: 0 <= j < k < |list| ==> list[j] != list[k])
    }

    lemma AllButAny(b: BackupObject)
      requires Ok() && b in all
      ensures OkBut(b)
    {
      assert Member(b);
    }

    lemma NonZero()
      requires Ok()
      ensures s > 0
    {
    }

    method SetRc(b: BackupObject, r: Code)
      requires OkBut(b) && (!IsFatal(r) ==> Ok() && !IsFatal(b.rc))
      modifies b`rc
      ensures Ok() && b.rc == r
    {
      hide Copied, Pow2;
      assert !IsFatal(r) ==> Member(b);
      b.rc := r;
      assert Member(b);
    }

    method CopyAndFinish(b: BackupObject, nPage: int, env: Env, io: Io) returns (r: Code)
      requires Ok() && b in all && b.bDestLocked && !IsFatal(b.rc) && io.Firm() && |env.header| == HEADER
      modifies this`list, b, io
      ensures OkBut(b) && io.Firm() && b.bDestLocked && b.rc == old(b.rc)
      ensures r == OK || r == DONE || IsError(r)
      ensures r == OK ==> Ok() && b.isAttached && b.nRemaining == Pages() + 1 - b.iNext && b.nRemaining > 0
      ensures r == DONE ==> FaithfulCopy(bytes, b.file, s, pending) && CutJournalled(b)
      ensures b.d == old(b.d) && Advanced(r, OK, old(b.iNext), b.iNext, nPage, Pages())
      ensures nPage < 0 ==> r != OK
      ensures r == OK ==> b.file == old(b.file)
      ensures old(io.Smooth()) && (s == old(b.d) || !b.isMemdb) ==>
        io.Smooth() && r == if NextPage(old(b.iNext), nPage, Pages()) > Pages() then DONE else OK
    {
      hide Copied, FaithfulCopy, CutJournalled, Pow2, Io.Smooth;
      assert Member(b);
      r := b.CopyPages(bytes, nPage, io);
      assert forall c :: c in all && c != b ==> Member(c);
      hide BackupObject.Consistent;
      if r == OK {
        r := Conclude(b, env, io);
      }
    }

    /** The pages of this step are copied: what is left is counted, and the copy completed or the backup attached. */
    method Conclude(b: BackupObject, env: Env, io: Io) returns (r: Code)
      requires OkBut(b) && b.bDestLocked && !IsFatal(b.rc) && io.Firm() && |env.header| == HEADER
      requires Copied(bytes, b.image, (b.iNext - 1) * s, s, b.d, pending)
      modifies this`list, b`image, b`file, b`journal, b`isAttached, b`nRemaining, b`nPagecount, io
      ensures OkBut(b) && io.Firm() && (r == OK || r == DONE || IsError(r))
      ensures r == OK ==> Ok() && b.isAttached && b.nRemaining == Pages() + 1 - b.iNext && b.nRemaining > 0
      ensures r == OK ==> b.file == old(b.file)
      ensures r == DONE ==> FaithfulCopy(bytes, b.file, s, pending) && CutJournalled(b)
      ensures b.iNext > Pages() ==> r != OK
      ensures old(io.Smooth()) ==> io.Smooth() && r == if b.iNext > Pages() then DONE else OK
    {
      hide Copied, FaithfulCopy, CutJournalled, Pow2, Io.Smooth;
      var nSrcPage := |bytes| / s;
      b.nPagecount := nSrcPage;
      b.nRemaining := nSrcPage + 1 - b.iNext;
      if b.iNext > nSrcPage {
        r := AllCopied(b, env, io);
      } else {
        r := OK;
        if !b.isAttached {
          Attach(b);
        } else {
          assert Member(b);
        }
      }
    }

    method AllCopied(b: BackupObject, env: Env, io: Io) returns (r: Code)
      requires OkBut(b) && b.bDestLocked && io.Firm() && |env.header| == HEADER && b.iNext > |bytes| / s
      requires Copied(bytes, b.image, (b.iNext - 1) * s, s, b.d, pending)
      modifies b`image, b`file, b`journal, io
      ensures OkBut(b) && io.Firm() && (r == DONE || IsError(r))
      ensures old(io.Smooth()) ==> io.Smooth() && r == DONE
      ensures r == DONE ==> FaithfulCopy(bytes, b.file, s, pending) && CutJournalled(b)
    {
      hide Copied, FaithfulCopy, TailJournalled, Pow2, Io.Smooth;
      var nSrcPage := |bytes| / s;
      DivMod(|bytes|, s);
      MulMonotone(s, nSrcPage, b.iNext - 1);
      r := b.Complete(bytes, (b.iNext - 1) * s, env, io);
    }

    /** attachBackupObject */
    method Attach(b: BackupObject)
      requires OkBut(b) && !b.isAttached && !IsFatal(b.rc) && b.bDestLocked
      requires Copied(bytes, b.image, (b.iNext - 1) * s, s, b.d, pending)
      modifies this`list, b`isAttached
      ensures Ok() && list == [b] + old(list) && b.isAttached
    {
      hide Copied, Pow2, Sound;
      b.isAttached := true;
      list := [b] + list;
      forall c | c in all && c != b ensures Member(c) {
        assert c in list <==> c in old(list);
      }
    }
    /**
     Where the source may be written: any page but the pending-byte page.  It may grow by more than
     one page, except over pages that a backup has copied before they were cut off.
     */
    predicate Writable(pg: nat)
      requires s > 0
      reads this, list
    {
      pg >= 1 && pg != PendingPage(s, pending) && forall k | 0 <= k < |list| :: list[k].RoomFor(|bytes|, (pg - 1) * s)
    }

    /** A page of the source is changed and every registered backup is told. */
    method Write(pg: nat, data: seq<Byte>, io: Io)
      requires Ok() && io.Firm() && |data| == s > 0 && Writable(pg)
      modifies this`bytes, list, io
      ensures Ok() && io.Firm()
      ensures bytes == Written(old(bytes), (pg - 1) * s, data)
      ensures forall b :: b in list ==> b.iNext == old(b.iNext) && b.file == old(b.file)
      ensures forall b :: b in list ==> b.rc == old(b.rc) || (!IsFatal(old(b.rc)) && IsError(b.rc))
    {
      hide Copied, Written, Pow2, BackupObject.Consistent;
      GrowthOk(bytes, pg, data, s, pending);
      ghost var news := Written(bytes, (pg - 1) * s, data);
      assert forall b :: b in all ==> Member(b);
      forall k | 0 <= k < |list|
        ensures list[k].s == s && list[k].pending == pending && list[k].Consistent(bytes) && list[k].isAttached
      {
        assert Member(list[k]);
      }
      forall b | b in all && b !in list ensures b.Consistent(news) {
        assert Member(b);
        b.Unregistered(bytes, news);
      }
      UpdateAll(pg, data, io, (pg - 1) * s);
      bytes := Written(bytes, (pg - 1) * s, data);
      forall b | b in all ensures Member(b) {
        if b in list {
          var k :| 0 <= k < |list| && list[k] == b;
        }
      }
    }

    /** backupUpdate */
    method UpdateAll(pg: nat, data: seq<Byte>, io: Io, ghost lo: nat)
      requires PageSize(s, pending) && io.Firm() && |data| == s && |bytes| % s == 0
      requires pg >= 1 && pg != PendingPage(s, pending) && lo == (pg - 1) * s
      requires forall k :: 0 <= k < |list| ==> list[k].RoomFor(|bytes|, lo)
      requires forall k :: 0 <= k < |list| ==>
        list[k].s == s && list[k].pending == pending && list[k].Consistent(bytes)
      requires forall j, k :: 0 <= j < k < |list| ==> list[j] != list[k]
      modifies list`image, list`journal, list`rc, io
      ensures io.Firm()
      ensures forall k :: 0 <= k < |list| ==> list[k].Consistent(Written(bytes, lo, data))
      ensures forall b :: b in list ==> b.rc == old(b.rc) || (!IsFatal(old(b.rc)) && IsError(b.rc))
    {
      hide Copied, Written, Pow2, BackupObject.Consistent, PendingPage;
      var k := 0;
      while k < |list|
        invariant 0 <= k <= |list| && io.Firm()
        invariant forall j :: 0 <= j < k ==> list[j].Consistent(Written(bytes, lo, data))
        invariant forall j :: k <= j < |list| ==> list[j].Consistent(bytes) && list[j].rc == old(list[j].rc)
        invariant forall j :: k <= j < |list| ==> list[j].RoomFor(|bytes|, lo)
        invariant forall j :: 0 <= j < k ==>
          list[j].rc == old(list[j].rc) || (!IsFatal(old(list[j].rc)) && IsError(list[j].rc))
      {
        list[k].Update(bytes, pg, data, io, lo);
        k := k + 1;
      }
    }
    /** The source is cut to n pages; backups are not told. */
    method Shrink(n: nat)
      requires Ok() && n <= |bytes| / s && n != PendingPage(s, pending)
      modifies this`bytes
      ensures Ok() && bytes == old(bytes)[..n * s]
    {
      hide Pow2;
      DivMod(|bytes|, s);
      MulMonotone(s, n, |bytes| / s);
      ShrinkOk(n, s, pending);
      var cut := bytes[..n * s];
      assert forall b :: b in all ==> Member(b);
      forall b | b in all ensures b.Consistent(cut) {
      }
      bytes := cut;
    }

    /** Another process has changed the source in any way; the registered backups start again. */
    method ExternalChange(content: seq<Byte>)
      requires Ok() && Sound(content, s, pending)
      modifies this`bytes, list`iNext
      ensures Ok() && bytes == content
      ensures forall b :: b in list ==> b.iNext == 1
    {
      hide Pow2, Copied;
      assert forall b :: b in all ==> Member(b);
      forall b | b in all && b !in list ensures b.Consistent(content) {
        assert Member(b);
        b.Unregistered(bytes, content);
      }
      forall k | 0 <= k < |list|
        ensures list[k].s == s && list[k].pending == pending && list[k].Consistent(bytes) && list[k].isAttached
      {
        assert Member(list[k]);
      }
      Restart();
      bytes := content;
      forall b | b in all ensures Member(b) {
        if b in list {
          var k :| 0 <= k < |list| && list[k] == b;
          b.Restarted(content);
        }
      }
    }

    /** sqlite3BackupRestart */
    method Restart()
      modifies list`iNext
      ensures forall k :: 0 <= k < |list| ==> list[k].iNext == 1
    {
      var k := 0;
      while k < |list|
        invariant 0 <= k <= |list|
        invariant forall j :: 0 <= j < k ==> list[j].iNext == 1
      {
        list[k].iNext := 1;
        k := k + 1;
      }
    }

    /** sqlite3_backup_finish */
    method Finish(b: BackupObject) returns (r: Code)
      requires Ok() && b in all
      modifies this`list, this`all
      ensures Ok() && all == old(all) - {b} && b !in list
      ensures r == (if b.rc == DONE then OK else b.rc)
    {
      hide Copied, Pow2, BackupObject.Consistent;
      assert forall c :: c in all ==> Member(c);
      if b.isAttached {
        var k := 0;
        while list[k] != b
          invariant 0 <= k < |list| && b in list[k..]
          decreases |list| - k
        {
          k := k + 1;
        }
        ghost var was := list;
        list := list[..k] + list[k + 1..];
        forall c ensures c in list <==> c in was && c != b {
          assert was == was[..k] + [b] + was[k + 1..];
        }
      }
      all := all - {b};
      r := if b.rc == DONE then OK else b.rc;
    }
  }

  lemma ShrinkOk(n: nat, s: nat, pending: nat)
    requires PageSize(s, pending) && n != PendingPage(s, pending)
    ensures n * s % s == 0 && !(pending < n * s <= pending + s)
  {
    hide Pow2;
    DivUnique(n * s, s, n, 0);
    Aligned(n * s, pending, s);
    DivMod(pending, s);
    AddMultiple(pending, s);
    Aligned(n * s, pending + s, s);
    DivUnique(pending + s, s, pending / s + 1, 0);
  }

  /** Size of a file in whole pages. */
  function RoundUp(n: nat, d: nat): (r: nat)
    requires d > 0
    ensures r >= n && r % d == 0
  {
    var k := (n + d - 1) / d;
    DivMod(n + d - 1, d);
    DivUnique(k * d, d, k, 0);
    k * d
  }

  // ------------------------------------------------------------ every interleaving

  datatype Event =
    | Begin(isMemdb: bool, destination: seq<Byte>)        // sqlite3_backup_init
    | StepOf(k: nat, nPage: int, env: Env)                // sqlite3_backup_step on backup k
    | FinishOf(k: nat)                                    // sqlite3_backup_finish on backup k
    | WritePage(pg: nat, data: seq<Byte>)                 // a reported write to the source
    | ShrinkTo(n: nat)                                    // the source gets smaller
    | Replace(content: seq<Byte>)                         // an external change, reported as a restart
    | Transaction(open: bool)                             // a write transaction begins or ends

  /** A backup that once answered DONE keeps a faithful copy of the content it then copied. */
  ghost predicate Kept(done: map<BackupObject, seq<Byte>>, src: Source)
    reads done.Keys
  {
    forall b :: b in done ==> b.rc == DONE && FaithfulCopy(done[b], b.file, src.s, src.pending)
  }

  /** Any sequence of events is a possible history; those that make no sense where they occur do nothing. */
  class History {
    const src: Source
    var handles: seq<BackupObject>                      // every backup begun
    var live: seq<bool>                                 // and not yet finished
    ghost var done: map<BackupObject, seq<Byte>>        // the content copied by each one that answered DONE

    ghost predicate Valid()
      reads this, src, src.all, src.list, handles, done.Keys
    {
      && src.Ok() && |live| == |handles| && Kept(done, src)
      && (forall k :: 0 <= k < |handles| && live[k] ==> handles[k] in src.all)
      && (forall b :: b in src.all ==> b in handles && (b.rc == DONE <==> b in done))
    }

    constructor (pending: nat, s: nat, bytes: seq<Byte>)
      requires PageSize(s, pending) && Sound(bytes, s, pending)
      ensures Valid() && fresh(src) && handles == [] && src.list == [] && src.all == {}
    {
      src := new Source(pending, s, bytes);
      handles, live, done := [], [], map[];
    }

    method DoStep(k: nat, nPage: int, env: Env, io: Io)
      requires Valid() && io.Firm() && k < |handles| && live[k]
      requires env.beginRead != DONE && env.lockDest != DONE && PageSize(env.destPgsz, src.pending)
      requires |env.header| == HEADER
      modifies this`done, src`list, handles[k], io
      ensures Valid() && io.Firm()
    {
      hide Source.Ok, FaithfulCopy, TailJournalled, PageSize;
      var b := handles[k];
      ghost var was := b.rc;
      var r := src.Step(b, nPage, env, io);
      if r == DONE && was != DONE {
        done := done[b := src.bytes];
      }
    }

    /** On a source that stays as it is a backup of which nothing is refused reaches DONE. */
    method DoAllSteps(k: nat, nPage: nat, env: Env, io: Io) returns (steps: nat)
      requires Valid() && io.Firm() && io.Smooth() && k < |handles| && live[k] && nPage > 0
      requires !IsFatal(handles[k].rc) && src.Granted(handles[k], env)
      requires PageSize(env.destPgsz, src.pending) && |env.header| == HEADER
      modifies this`done, src`list, handles[k], io
      ensures Valid() && handles[k].rc == DONE && handles[k] in done && done[handles[k]] == src.bytes
      ensures var left := src.Pages() + 1 - old(handles[k].iNext);
        steps >= 1 && left <= steps * nPage && (steps == 1 || (steps - 1) * nPage < left)
    {
      hide Source.Ok, FaithfulCopy, PageSize, Source.Granted, Io.Smooth;
      var b := handles[k];
      var r;
      r, steps := src.StepWhileOk(b, nPage, env, io);
      done := done[b := src.bytes];
    }

    method DoBegin(isMemdb: bool, destination: seq<Byte>)
      requires Valid()
      modifies this`handles, this`live, src`all
      ensures Valid() && |handles| == |old(handles)| + 1 && handles[..|old(handles)|] == old(handles)
      ensures fresh(handles[|old(handles)|]) && src.all == old(src.all) + {handles[|old(handles)|]}
    {
      hide Source.Ok, FaithfulCopy;
      var b := src.Init(isMemdb, destination);
      handles, live := handles + [b], live + [true];
    }

    method DoWrite(pg: nat, data: seq<Byte>, io: Io)
      requires Valid() && io.Firm() && |data| == src.s > 0 && src.Writable(pg)
      modifies src`bytes, src.list, io
      ensures Valid() && io.Firm()
    {
      hide Source.Ok, FaithfulCopy, Source.Writable;
      src.Write(pg, data, io);
    }

    method DoFinish(k: nat)
      requires Valid() && k < |handles| && live[k]
      modifies this`live, src`list, src`all
      ensures Valid() && src.all == old(src.all) - {handles[k]}
    {
      hide Source.Ok, FaithfulCopy;
      var r := src.Finish(handles[k]);
      ghost var b := handles[k];
      var j := 0;
      while j < |handles|
        invariant 0 <= j <= |handles| == |live| && src.Ok() && src.all == old(src.all) - {b}
        invariant forall i :: 0 <= i < j ==> (live[i] ==> handles[i] in src.all)
        invariant forall i :: j <= i < |handles| ==> live[i] == old(live)[i]
      {
        if handles[j] == handles[k] { live := live[j := false]; }
        j := j + 1;
      }
    }

    /**
     Every interleaving of backup calls with changes of the source: all unfinished
     backups stay consistent with the source, and whatever answered DONE remains a
     faithful copy of the source as it was then.
     */
    method Run(events: seq<Event>, io: Io)
      requires Valid() && io.Firm() && handles == [] && src.all == {} && src.list == []
      modifies this, src, io
      ensures Valid() && io.Firm()
    {
      hide Source.Ok, Kept;
      for i := 0 to |events|
        invariant Valid() && io.Firm()
        invariant forall b :: b in handles || b in src.all || b in src.list ==> fresh(b)
      {
        forall k | 0 <= k < |src.list| ensures fresh(src.list[k]) {
          assert src.list[k] in src.list;
        }
        Do(events[i], io);
      }
    }

    method Do(e: Event, io: Io)
      requires Valid() && io.Firm()
      modifies this, src, src.all, src.list, io
      ensures Valid() && io.Firm()
      ensures fresh(src.all - old(src.all)) && forall b :: b in src.list ==> b in src.all
      ensures forall b :: b in handles ==> b in old(handles) || fresh(b)
    {
      match e
      case Begin(isMemdb, destination) => DoBegin(isMemdb, destination);
      case StepOf(k, nPage, env) =>
        if k < |handles| && live[k] && env.beginRead != DONE && env.lockDest != DONE
           && PageSize(env.destPgsz, src.pending) && |env.header| == HEADER {
          DoStep(k, nPage, env, io);
        }
      case FinishOf(k) => if k < |handles| && live[k] { DoFinish(k); }
      case WritePage(pg, data) =>
        if |data| == src.s && src.s > 0 && src.Writable(pg) { DoWrite(pg, data, io); }
      case ShrinkTo(n) =>
        if src.s > 0 && n <= |src.bytes| / src.s && n != PendingPage(src.s, src.pending) { src.Shrink(n); }
      case Replace(content) =>
        if Sound(content, src.s, src.pending) { src.ExternalChange(content); }
      case Transaction(open) => src.SetTransaction(open);
    }
  }
}
