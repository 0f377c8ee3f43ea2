/**
 Dropping a table whose b-trees may be relocated while they are destroyed: the
 order in which destroyTable erases root pages, and the bookkeeping that follows
 every root page moved by an auto-vacuum database.
 */
module DropTable {

  /** A table or index as recorded: the b-tree that holds it and the root page on record. */
  datatype Entry = Entry(btree: nat, tnum: nat)

  /** Root page to b-tree, for every b-tree of the file. */
  type Roots = map<nat, nat>

  ghost predicate Injective(disk: Roots) {
    forall p, q | p in disk && q in disk && disk[p] == disk[q] :: p == q
  }

  /** Every entry names its own b-tree, except entries of b-trees in gone. */
  predicate Named(entries: seq<Entry>, disk: Roots, gone: set<nat>) {
    forall i | 0 <= i < |entries| :: NamedEntry(entries[i], disk, gone)
  }

  predicate NamedEntry(e: Entry, disk: Roots, gone: set<nat>) {
    e.btree !in gone ==> e.tnum in disk && disk[e.tnum] == e.btree
  }

  // --------------------------------------------------------- erasing one root page

  predicate IsLargest(m: nat, disk: Roots) { m in disk && forall p | p in disk :: p <= m }

  lemma {:induction false} LargestExists(disk: Roots)
    requires |disk| > 0
    ensures exists m :: IsLargest(m, disk)
    decreases |disk|
  {
    var p :| p in disk;
    var rest := disk - {p};
    if |rest| == 0 {
      forall q | q in disk ensures q <= p {
        assert q != p ==> q in rest;
      }
      assert IsLargest(p, disk);
    } else {
      assert |rest.Keys| == |disk.Keys - {p}|;
      LargestExists(rest);
      var m :| IsLargest(m, rest);
      forall q | q in disk ensures q <= m || q <= p {
        assert q != p ==> q in rest;
      }
      assert IsLargest(if m < p then p else m, disk);
    }
  }

  /** The b-tree layer erases root page p; a nonzero m is the largest root page, moved into the slot. */
  ghost predicate Erased(disk: Roots, p: nat, m: nat, disk': Roots) {
    p in disk && 0 !in disk
    && if m == 0 then disk' == disk - {p}
       else m != p && IsLargest(m, disk) && disk' == (disk - {p, m})[p := disk[m]]
  }

  /** tnum after the root page iFrom moved to iTo. */
  function Moved(e: Entry, iFrom: nat, iTo: nat): Entry {
    if e.tnum == iFrom then e.(tnum := iTo) else e
  }

  function MovedAll(entries: seq<Entry>, iFrom: nat, iTo: nat): seq<Entry> {
    seq(|entries|, i requires 0 <= i < |entries| => Moved(entries[i], iFrom, iTo))
  }

  /** The records after root page r1 moved to p; 0 stands for no move. */
  function Followed(entries: seq<Entry>, r1: nat, p: nat): seq<Entry> {
    if r1 == 0 then entries else MovedAll(entries, r1, p)
  }

  /** The same tables and indexes are on record, whatever their root pages. */
  predicate SameRecords(was: seq<Entry>, now: seq<Entry>) {
    |now| == |was| && forall i | 0 <= i < |was| :: now[i].btree == was[i].btree
  }

  /** An entry of a surviving b-tree that is still where it was on record did not change. */
  ghost predicate UnmovedKept(was: seq<Entry>, now: seq<Entry>, disk: Roots, gone: set<nat>) {
    && |now| == |was|
    && forall i | 0 <= i < |was| && was[i].btree !in gone && NamedEntry(was[i], disk, gone) :: now[i] == was[i]
  }

  lemma SameThenSame(was: seq<Entry>, now: seq<Entry>, p: nat)
    requires SameRecords(was, now)
    ensures forall r1: nat :: SameRecords(was, Followed(now, r1, p))
  {
  }

  lemma RecordsStay(was: seq<Entry>, now: seq<Entry>, disk: Roots, gone: set<nat>)
    requires SameRecords(was, now) && Named(now, disk, gone) && Injective(disk)
    ensures UnmovedKept(was, now, disk, gone)
  {
    forall i | 0 <= i < |was| && was[i].btree !in gone && NamedEntry(was[i], disk, gone) ensures now[i] == was[i] {
      assert NamedEntry(now[i], disk, gone);
    }
  }

  /** Records stay right: all entries with the old number are changed, also stale ones. */
  lemma RecordsFollow(entries: seq<Entry>, disk: Roots, p: nat, m: nat, disk': Roots, gone: set<nat>)
    requires Erased(disk, p, m, disk') && disk[p] in gone && Named(entries, disk, gone)
    ensures Named(Followed(entries, m, p), disk', gone) && SameRecords(entries, Followed(entries, m, p))
  {
    forall i | 0 <= i < |entries|
      ensures NamedEntry(entries[i], disk, gone)
      ensures NamedEntry(if m == 0 then entries[i] else Moved(entries[i], m, p), disk', gone)
    {
    }
  }

  /** No other b-tree is lost, duplicated, or moved unless it was the largest. */
  lemma ErasedKeeps(disk: Roots, p: nat, m: nat, disk': Roots)
    requires Erased(disk, p, m, disk') && Injective(disk)
    ensures Injective(disk') && 0 !in disk'
    ensures disk'.Values == disk.Values - {disk[p]}
    ensures forall q | q in disk && q < p :: q in disk' && disk'[q] == disk[q]
  {
    forall b | b in disk.Values && b != disk[p] ensures b in disk'.Values {
      var q :| q in disk && disk[q] == b;
      if q == m { assert disk'[p] == b; } else { assert disk'[q] == b; }
    }
    forall b | b in disk'.Values ensures b in disk.Values && b != disk[p] {
      var q :| q in disk' && disk'[q] == b;
      if q == p { assert disk[m] == b; } else { assert disk[q] == b; }
    }
  }

  // ------------------------------------------------------------- the order of erasure

  predicate Decreasing(s: seq<nat>) { forall i, j | 0 <= i < j < |s| :: s[i] > s[j] }

  /** All root pages of the table and its indexes. */
  function Pages(tnum: nat, idx: seq<nat>): set<nat> {
    {tnum} + set i | 0 <= i < |idx| :: idx[i]
  }

  /** Not yet erased when iDestroyed was the last one. */
  predicate Pending(iDestroyed: nat, p: nat) { p > 0 && (iDestroyed == 0 || p < iDestroyed) }

  /** One pass over the table and its indexes. */
  method NextLargest(iTab: nat, idx: seq<nat>, iDestroyed: nat) returns (iLargest: nat)
    ensures iLargest == 0 || (iLargest in Pages(iTab, idx) && Pending(iDestroyed, iLargest))
    ensures forall p | p in Pages(iTab, idx) && Pending(iDestroyed, p) :: p <= iLargest
  {
    iLargest := 0;
    if iDestroyed == 0 || iTab < iDestroyed {
      iLargest := iTab;
    }
    for i := 0 to |idx|
      invariant iLargest == 0 || (iLargest in Pages(iTab, idx) && Pending(iDestroyed, iLargest))
      invariant Pending(iDestroyed, iTab) ==> iTab <= iLargest
      invariant forall j | 0 <= j < i && Pending(iDestroyed, idx[j]) :: idx[j] <= iLargest
    {
      var iIdx := idx[i];
      if (iDestroyed == 0 || iIdx < iDestroyed) && iIdx > iLargest {
        iLargest := iIdx;
      }
    }
  }

  /** destroyTable: each root page once, the largest first, even if indexes share a page. */
  method DestroyTable(iTab: nat, idx: seq<nat>) returns (code: seq<nat>)
    ensures Decreasing(code)
    ensures forall p :: p in code <==> p > 0 && p in Pages(iTab, idx)
  {
    code := [];
    var iDestroyed := 0;
    ghost var pages := Pages(iTab, idx);
    while true
      invariant Decreasing(code) && (forall p | p in code :: p > 0 && p in pages)
      invariant if code == [] then iDestroyed == 0 else iDestroyed == code[|code| - 1]
      invariant forall p | p > 0 && p in pages :: p in code || Pending(iDestroyed, p)
      decreases if code == [] then 1 else 0, iDestroyed
    {
      var iLargest := NextLargest(iTab, idx, iDestroyed);
      if iLargest == 0 {
        return;
      }
      assert code != [] ==> iDestroyed in code;
      code := code + [iLargest];
      iDestroyed := iLargest;
    }
  }

  // ------------------------------------------------------------------- the whole run

  /** The b-trees at the given root pages. */
  ghost function Holders(disk: Roots, code: seq<nat>): set<nat>
    requires forall j | 0 <= j < |code| :: code[j] in disk
  {
    set j | 0 <= j < |code| :: disk[code[j]]
  }

  lemma HoldersNext(disk: Roots, code: seq<nat>, i: nat)
    requires i < |code| && forall j | 0 <= j < |code| :: code[j] in disk
    ensures Holders(disk, code[..i + 1]) == Holders(disk, code[..i]) + {disk[code[i]]}
  {
    forall b | b in Holders(disk, code[..i + 1]) ensures b in Holders(disk, code[..i]) + {disk[code[i]]} {
      var j :| 0 <= j < i + 1 && b == disk[code[..i + 1][j]];
      assert j < i ==> code[..i][j] == code[..i + 1][j];
    }
    forall b | b in Holders(disk, code[..i]) ensures b in Holders(disk, code[..i + 1]) {
      var j :| 0 <= j < i && b == disk[code[..i][j]];
      assert code[..i + 1][j] == code[..i][j];
    }
    assert code[..i + 1][i] == code[i];
  }

  lemma AllHolders(disk: Roots, iTab: nat, idx: seq<nat>, code: seq<nat>)
    requires 0 !in disk && forall p | p in Pages(iTab, idx) :: p in disk
    requires forall p :: p in code <==> p > 0 && p in Pages(iTab, idx)
    ensures forall j | 0 <= j < |code| :: code[j] in disk
    ensures Holders(disk, code) == set p | p in Pages(iTab, idx) :: disk[p]
  {
    hide Pages;
    forall j | 0 <= j < |code| ensures code[j] in disk { assert code[j] in code; }
    forall p | p in Pages(iTab, idx) ensures disk[p] in Holders(disk, code) {
      assert p in code;
      var j :| 0 <= j < |code| && code[j] == p;
    }
    forall b | b in Holders(disk, code) ensures exists p :: p in Pages(iTab, idx) && b == disk[p] {
      var j :| 0 <= j < |code| && b == disk[code[j]];
      assert code[j] in code;
    }
  }

  class Database {
    var autoVacuum: bool
    var disk: Roots
    /** The in-memory schema. */
    var tblHash: seq<Entry>
    var idxHash: seq<Entry>
    /** The rootpage column of sqlite_master. */
    var master: seq<Entry>

    ghost predicate Sound(gone: set<nat>)
      reads this
    {
      Injective(disk) && 0 !in disk
      && Named(tblHash, disk, gone) && Named(idxHash, disk, gone) && Named(master, disk, gone)
    }

    /** sqlite3RootPageMoved */
    method RootPageMoved(iFrom: nat, iTo: nat)
      modifies this`tblHash, this`idxHash
      ensures tblHash == MovedAll(old(tblHash), iFrom, iTo)
      ensures idxHash == MovedAll(old(idxHash), iFrom, iTo)
    {
      for i := 0 to |tblHash|
        invariant |tblHash| == |old(tblHash)| && idxHash == old(idxHash)
        invariant forall j | 0 <= j < i :: tblHash[j] == Moved(old(tblHash)[j], iFrom, iTo)
        invariant forall j | i <= j < |tblHash| :: tblHash[j] == old(tblHash)[j]
      {
        if tblHash[i].tnum == iFrom {
          tblHash := tblHash[i := tblHash[i].(tnum := iTo)];
        }
      }
      assert tblHash == MovedAll(old(tblHash), iFrom, iTo);
      for i := 0 to |idxHash|
        invariant tblHash == MovedAll(old(tblHash), iFrom, iTo)
        invariant |idxHash| == |old(idxHash)|
        invariant forall j | 0 <= j < i :: idxHash[j] == Moved(old(idxHash)[j], iFrom, iTo)
        invariant forall j | i <= j < |idxHash| :: idxHash[j] == old(idxHash)[j]
      {
        if idxHash[i].tnum == iFrom {
          idxHash := idxHash[i := idxHash[i].(tnum := iTo)];
        }
      }
    }

    /** The effect of OP_Destroy on the file. */
    method Erase(p: nat) returns (moved: nat)
      requires p in disk && 0 !in disk
      modifies this`disk
      ensures Erased(old(disk), p, moved, disk)
      ensures moved != 0 <==> autoVacuum && !IsLargest(p, old(disk))
    {
      moved := 0;
      if autoVacuum {
        LargestExists(disk);
        var m :| m in disk && IsLargest(m, disk);
        if m != p {
          disk := (disk - {p, m})[p := disk[m]];
          return m;
        }
      }
      disk := disk - {p};
    }

    /** The code of destroyRootPage at run time: OP_Destroy, then the update of the records. */
    method DestroyRootPage(p: nat, ghost gone: set<nat>) returns (r1: nat)
      requires Sound(gone) && p in disk && disk[p] in gone
      modifies this`disk, this`tblHash, this`idxHash, this`master
      ensures Sound(gone) && Erased(old(disk), p, r1, disk)
      ensures tblHash == Followed(old(tblHash), r1, p) && idxHash == Followed(old(idxHash), r1, p)
      ensures master == Followed(old(master), r1, p)
      ensures disk.Values == old(disk).Values - {old(disk)[p]}
      ensures forall q | q in old(disk) && q < p :: q in disk && disk[q] == old(disk)[q]
    {
      r1 := Erase(p);
      ErasedKeeps(old(disk), p, r1, disk);
      RecordsFollow(tblHash, old(disk), p, r1, disk, gone);
      RecordsFollow(idxHash, old(disk), p, r1, disk, gone);
      RecordsFollow(master, old(disk), p, r1, disk, gone);
      if r1 != 0 {
        RootPageMoved(r1, p);
        master := MovedAll(master, r1, p);
      }
    }

    /** The erasures one after another, each of the b-tree that was at its page in the beginning. */
    method EraseAll(code: seq<nat>, ghost gone: set<nat>)
      requires Sound(gone) && Decreasing(code)
      requires forall j | 0 <= j < |code| :: code[j] in disk && disk[code[j]] in gone
      modifies this`disk, this`tblHash, this`idxHash, this`master
      ensures Sound(gone) && disk.Values == old(disk).Values - Holders(old(disk), code)
      ensures SameRecords(old(tblHash), tblHash) && SameRecords(old(idxHash), idxHash)
      ensures SameRecords(old(master), master)
    {
      ghost var disk0 := disk;
      assert code[..0] == [] && Holders(disk0, []) == {};
      for i := 0 to |code|
        invariant Sound(gone)
        invariant SameRecords(old(tblHash), tblHash) && SameRecords(old(idxHash), idxHash)
        invariant SameRecords(old(master), master)
        invariant disk.Values == disk0.Values - Holders(disk0, code[..i])
        invariant forall j | i <= j < |code| :: code[j] in disk && disk[code[j]] == disk0[code[j]]
      {
        SameThenSame(old(tblHash), tblHash, code[i]);
        SameThenSame(old(idxHash), idxHash, code[i]);
        SameThenSame(old(master), master, code[i]);
        HoldersNext(disk0, code, i);
        hide SameRecords, Followed, Sound, Erased, Holders;
        var r1 := DestroyRootPage(code[i], gone);
      }
      assert code[..|code|] == code;
    }

    /** The page numbers are fixed first and used later; each still names the b-tree it named then. */
    method Drop(iTab: nat, idx: seq<nat>)
      requires Sound({})
      requires forall p | p in Pages(iTab, idx) :: p in disk
      modifies this`disk, this`tblHash, this`idxHash, this`master
      ensures var gone := set p | p in Pages(iTab, idx) :: old(disk)[p];
        && Sound(gone) && disk.Values == old(disk).Values - gone
        && UnmovedKept(old(tblHash), tblHash, disk, gone) && UnmovedKept(old(idxHash), idxHash, disk, gone)
        && UnmovedKept(old(master), master, disk, gone)
      ensures SameRecords(old(tblHash), tblHash) && SameRecords(old(idxHash), idxHash)
      ensures SameRecords(old(master), master)
    {
      ghost var gone := set p | p in Pages(iTab, idx) :: disk[p];
      var code := DestroyTable(iTab, idx);
      AllHolders(disk, iTab, idx, code);
      forall j | 0 <= j < |code| ensures code[j] in disk && disk[code[j]] in gone { assert code[j] in code; }
      hide SameRecords, Pages, Holders;
      EraseAll(code, gone);
      RecordsStay(old(tblHash), tblHash, disk, gone);
      RecordsStay(old(idxHash), idxHash, disk, gone);
      RecordsStay(old(master), master, disk, gone);
    }
  }

  // ------------------------------------------------------------- why the order matters

  /** Erasing the smaller page first: the second erasure would hit a page that holds no b-tree. */
  lemma SmallestFirstFails()
    ensures var disk := map[4 := 40, 5 := 50];
      Injective(disk) && Erased(disk, 4, 5, map[4 := 50]) && 5 !in map[4 := 50]
  {
    var disk := map[4 := 40, 5 := 50];
    assert IsLargest(5, disk);
    assert (disk - {4, 5})[4 := disk[5]] == map[4 := 50];
  }
}
