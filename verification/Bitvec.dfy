/**
 The Bitvec object: a fixed-size bitmap whose nodes are straight bitmaps, hash
 tables, or arrays of sub-bitmaps, and turn from the second form into the third
 in place when they fill up.  Bits are numbered from 1.
 */
module BitvecObject {
  import opened BitvecHash
  import opened Arith

  /** Sizes of the three arrays that share the union in struct Bitvec. */
  datatype Layout = Layout(nElem: nat, nInt: nat, nPtr: nat) {
    predicate Ok() { nElem > 0 && nInt >= 2 && nPtr >= 2 }
    function NBit(): nat { 8 * nElem }
    function MxHash(): nat { nInt / 2 }
  }

  /** The layout with 8-byte pointers: a union of 496 bytes. */
  const LAYOUT64 := Layout(496, 124, 62)

  datatype Rc = Ok | NoMem

  function Or(a: Rc, b: Rc): Rc { if a.Ok? then b else a }

  /** Memory allocation, which may fail at any point. */
  class Allocator {
    var script: seq<bool>
    /** How many allocations have failed. */
    ghost var failures: nat

    method Malloc() returns (ok: bool)
      modifies this
      ensures ok == (old(script) != [] && old(script)[0])
      ensures failures == old(failures) + if ok then 0 else 1
    {
      ok := script != [] && script[0];
      if script != [] { script := script[1..]; }
      if !ok { failures := failures + 1; }
    }
  }

  /** Bits handled by each sub-bitmap: iSize / nPtr, rounded up. */
  function Divisor(iSize: nat, nPtr: nat): (d: nat)
    requires nPtr >= 2
    ensures iSize >= 2 ==> 0 < d < iSize
  {
    var d := (iSize + nPtr - 1) / nPtr;
    DivisorBounds(iSize, nPtr);
    d
  }

  lemma DivisorBounds(iSize: nat, nPtr: nat)
    requires nPtr >= 2
    ensures var d := (iSize + nPtr - 1) / nPtr;
      iSize <= d * nPtr && (iSize >= 2 ==> 0 < d < iSize)
  {
    var d := (iSize + nPtr - 1) / nPtr;
    DivMod(iSize + nPtr - 1, nPtr);
    if iSize >= 2 {
      MulMonotone(nPtr, 2, iSize);
      MulMonotone(iSize, 2, nPtr);
      DivLess(iSize + nPtr - 1, nPtr, iSize);
    }
  }

  /** Every bit falls into an existing bin. */
  lemma BinInRange(x: nat, iSize: nat, nPtr: nat)
    requires nPtr >= 2 && x < iSize && iSize >= 2
    ensures var d := Divisor(iSize, nPtr); d > 0 && Bin(x, d) < nPtr && Rest(x, d) < d
  {
    var d := Divisor(iSize, nPtr);
    DivisorBounds(iSize, nPtr);
    DivLess(x, d, nPtr);
    DivMod(x, d);
  }

  /** Which sub-bitmap handles bit x, and which of its bits x is. */
  function Bin(x: nat, d: nat): nat
    requires d > 0
  {
    x / d
  }

  function Rest(x: nat, d: nat): nat
    requires d > 0
  {
    x % d
  }

  // ----------------------------------- what each form of a node stands for

  ghost predicate BitmapForm(map8: seq<bv8>, nElem: nat, iSize: nat, bits: set<nat>) {
    && |map8| == nElem && iSize <= 8 * nElem
    && (forall x :: 0 <= x < iSize ==> (x in bits <==> BitOn(map8, x)))
  }

  ghost predicate HashForm(h: seq<nat>, nSet: nat, nInt: nat, iSize: nat, bits: set<nat>) {
    && |h| == nInt && HashOk(h, nSet)
    && (forall s :: 0 <= s < |h| ==> h[s] <= iSize)
    && (forall x :: 0 <= x < iSize ==> (x in bits <==> Has(h, x)))
  }

  /** The bits of a divided node: bit x is bit x % d of sub-bitmap x / d. */
  ghost function Joined(subs: seq<set<nat>>, d: nat, iSize: nat): set<nat>
    requires d > 0
  {
    set x: nat | x < iSize && InSub(subs, d, x)
  }

  ghost predicate InSub(subs: seq<set<nat>>, d: nat, x: nat)
    requires d > 0
  {
    Bin(x, d) < |subs| && Rest(x, d) in subs[Bin(x, d)]
  }

  lemma JoinedHas(subs: seq<set<nat>>, d: nat, iSize: nat, x: nat)
    requires d > 0 && x < iSize
    ensures x in Joined(subs, d, iSize) <==> InSub(subs, d, x)
  {
  }

  lemma JoinedBound(subs: seq<set<nat>>, d: nat, iSize: nat)
    requires d > 0
    ensures forall x :: x in Joined(subs, d, iSize) ==> x < iSize
  {
  }

  lemma BitmapSet(map8: seq<bv8>, nElem: nat, iSize: nat, bits: set<nat>, x: nat)
    requires BitmapForm(map8, nElem, iSize, bits) && x < iSize
    ensures BitmapForm(SetBit(map8, x), nElem, iSize, bits + {x})
    ensures BitmapForm(ClearBit(map8, x), nElem, iSize, bits - {x})
  {
    forall y | 0 <= y < iSize { BitmapUpdate(map8, x, y); }
  }

  lemma HashStore(h: seq<nat>, nSet: nat, nInt: nat, iSize: nat, bits: set<nat>, v: nat, s: nat, d: nat)
    requires HashForm(h, nSet, nInt, iSize, bits) && 1 <= v <= iSize && nSet + 1 < nInt
    requires d < |h| && Probed(h, v, d) && s == Slot(Home(v, |h|), d, |h|) && h[s] == 0
    ensures HashForm(h[s := v], nSet + 1, nInt, iSize, bits + {v - 1})
  {
    InsertOk(h, nSet, v, d);
    InsertMembers(h, s, v);
    hide HashOk, Probed, Slot, Home, Has;
  }

  lemma HashRemoved(was: seq<nat>, nWas: nat, h: seq<nat>, nSet: nat, nInt: nat, iSize: nat, bits: set<nat>, v: nat)
    requires HashForm(was, nWas, nInt, iSize, bits) && 1 <= v <= iSize
    requires |h| == nInt && HashOk(h, nSet) && forall x: nat :: Has(h, x) <==> Has(was, x) && x + 1 != v
    ensures HashForm(h, nSet, nInt, iSize, bits - {v - 1})
  {
    hide HashOk;
    forall s | 0 <= s < |h| ensures h[s] <= iSize {
      if h[s] > 0 {
        assert Has(h, h[s] - 1) && Has(was, h[s] - 1);
      }
    }
  }

  /** Setting a bit of one sub-bitmap sets the corresponding bit of the whole. */
  lemma JoinedSet(subs: seq<set<nat>>, d: nat, iSize: nat, x: nat, sub: set<nat>)
    requires d > 0 && x < iSize && Bin(x, d) < |subs|
    requires sub <= subs[Bin(x, d)] + {Rest(x, d)}
    ensures Joined(subs[Bin(x, d) := sub], d, iSize) <= Joined(subs, d, iSize) + {x}
    ensures sub == subs[Bin(x, d)] + {Rest(x, d)}
      ==> Joined(subs[Bin(x, d) := sub], d, iSize) == Joined(subs, d, iSize) + {x}
  {
    var subs' := subs[Bin(x, d) := sub];
    hide Bin, Rest;
    forall y: nat | y < iSize
      ensures InSub(subs', d, y) ==> InSub(subs, d, y) || y == x
      ensures sub == subs[Bin(x, d)] + {Rest(x, d)} && (InSub(subs, d, y) || y == x) ==> InSub(subs', d, y)
    {
      SameBit(x, y, d);
    }
  }

  lemma JoinedClear(subs: seq<set<nat>>, d: nat, iSize: nat, x: nat)
    requires d > 0 && x < iSize && Bin(x, d) < |subs|
    ensures Joined(subs[Bin(x, d) := subs[Bin(x, d)] - {Rest(x, d)}], d, iSize) == Joined(subs, d, iSize) - {x}
  {
    var subs' := subs[Bin(x, d) := subs[Bin(x, d)] - {Rest(x, d)}];
    hide Bin, Rest;
    forall y: nat | y < iSize
      ensures InSub(subs', d, y) <==> InSub(subs, d, y) && y != x
    {
      SameBit(x, y, d);
    }
  }

  lemma SameBit(x: nat, y: nat, d: nat)
    requires d > 0
    ensures Bin(x, d) == Bin(y, d) && Rest(x, d) == Rest(y, d) ==> x == y
  {
    DivMod(x, d);
    DivMod(y, d);
  }

  class Bitvec {
    const lay: Layout
    const iSize: nat
    var nSet: nat
    var iDivisor: nat
    var aBitmap: seq<bv8>
    var aHash: seq<nat>
    var apSub: seq<Bitvec?>

    ghost var bits: set<nat>        // the bits that are set, numbered from 0
    ghost var subs: seq<set<nat>>   // those of each sub-bitmap
    ghost var Repr: set<Bitvec>

    ghost predicate Valid()
      reads this, Repr
      ensures Valid() ==> this in Repr
      decreases iSize, 1
    {
      && this in Repr && lay.Ok()
      && (forall x :: x in bits ==> x < iSize)
      && if iDivisor != 0 then Divided()
         else if iSize <= lay.NBit() then BitmapForm(aBitmap, lay.nElem, iSize, bits)
         else HashForm(aHash, nSet, lay.nInt, iSize, bits)
    }

    /** The recursive form: the node owns its sub-bitmaps and joins their bits. */
    ghost predicate Divided()
      requires lay.Ok()
      reads this, Repr
      decreases iSize, 0
    {
      && iSize > lay.NBit() && iDivisor == Divisor(iSize, lay.nPtr)
      && bits == Joined(subs, iDivisor, iSize)
      && |apSub| == |subs| == lay.nPtr
      && (forall b :: 0 <= b < |apSub| && apSub[b] == null ==> subs[b] == {})
      && (forall b :: 0 <= b < |apSub| && apSub[b] != null ==>
            && apSub[b] in Repr && apSub[b].Repr <= Repr && this !in apSub[b].Repr
            && apSub[b].iSize == iDivisor && apSub[b].lay == lay && apSub[b].Valid()
            && subs[b] == apSub[b].bits)
      && (forall a, b :: 0 <= a < b < |apSub| && apSub[a] != null && apSub[b] != null ==>
            apSub[a].Repr !! apSub[b].Repr)
    }

    /** sqlite3BitvecCreate, once malloc has succeeded. */
    constructor (lay: Layout, iSize: nat)
      requires lay.Ok()
      ensures Valid() && fresh(Repr) && bits == {} && Repr == {this}
      ensures this.lay == lay && this.iSize == iSize
    {
      this.lay, this.iSize := lay, iSize;
      nSet, iDivisor := 0, 0;
      aBitmap := seq(lay.nElem, _ => 0);
      aHash := seq(lay.nInt, _ => 0);
      apSub := seq(lay.nPtr, _ => null);
      bits, subs, Repr := {}, [], {this};
      new;
      ZeroTable(aHash);
      forall x | 0 <= x < iSize && x / 8 < |aBitmap| ensures !BitOn(aBitmap, x) {
        ZeroBitmap(aBitmap, x);
      }
    }

    lemma InRange()
      requires Valid()
      ensures forall x :: x in bits ==> x < iSize
    {
    }

    /** What the sub-bitmap responsible for bit x says about it. */
    lemma Descend(x: nat)
      requires Valid() && iDivisor != 0 && x < iSize
      ensures Bin(x, iDivisor) < |apSub| == |subs| && Rest(x, iDivisor) < iDivisor < iSize
      ensures var sub := apSub[Bin(x, iDivisor)];
        if sub == null then x !in bits
        else sub.Valid() && sub.iSize == iDivisor && (x in bits <==> Rest(x, iDivisor) in sub.bits)
    {
      BinInRange(x, iSize, lay.nPtr);
      hide Divisor, Bin, Rest;
      JoinedHas(subs, iDivisor, iSize, x);
    }

    /** sqlite3BitvecTestNotNull */
    method Test(i: nat) returns (r: bool)
      requires Valid()
      ensures r == (i > 0 && i - 1 in bits)
    {
      InRange();
      hide Valid, InSub, Bin, Rest;
      if i == 0 || i - 1 >= iSize { return false; }   // i-- wraps around for i==0
      var p: Bitvec, x: nat := this, i - 1;
      while p.iDivisor != 0
        invariant p.Valid() && x < p.iSize
        invariant x in p.bits <==> i - 1 in bits
        decreases p.iSize
      {
        p.Descend(x);
        var bin := Bin(x, p.iDivisor);
        x := Rest(x, p.iDivisor);
        if p.apSub[bin] == null { return false; }
        p := p.apSub[bin];
      }
      r := p.TestLeaf(x);
    }

    method TestLeaf(x: nat) returns (r: bool)
      requires Valid() && iDivisor == 0 && x < iSize
      ensures r == (x in bits)
    {
      if iSize <= lay.NBit() {
        r := BitOn(aBitmap, x);
      } else {
        var s, d := Find(aHash, nSet, x + 1);
        r := aHash[s] != 0;
      }
    }

    /** sqlite3BitvecSet */
    method Set(i: nat, heap: Allocator) returns (rc: Rc)
      requires Valid() && 1 <= i <= iSize
      modifies Repr, heap
      ensures Valid() && fresh(Repr - old(Repr))
      ensures bits <= old(bits) + {i - 1}
      ensures rc.Ok? ==> bits == old(bits) + {i - 1}
      ensures heap.failures >= old(heap.failures) + if rc.Ok? then 0 else 1
      ensures old(iDivisor) != 0 ==> iDivisor == old(iDivisor)
      decreases iSize, if iDivisor == 0 then 1 else 0, 2
    {
      hide Valid;
      if iSize > lay.NBit() && iDivisor != 0 {
        rc := SetRadix(i - 1, heap);
      } else if iSize <= lay.NBit() {
        SetBitmap(i - 1);
        rc := Ok;
      } else {
        rc := SetHash(i, heap);
      }
    }

    method SetBitmap(x: nat)
      requires Valid() && x < iSize <= lay.NBit()
      modifies this
      ensures Valid() && Repr == old(Repr) && iDivisor == old(iDivisor) && bits == old(bits) + {x}
    {
      BitmapSet(aBitmap, lay.nElem, iSize, bits, x);
      hide BitmapForm, SetBit;
      aBitmap := SetBit(aBitmap, x);
      bits := bits + {x};
    }

    method SetRadix(x: nat, heap: Allocator) returns (rc: Rc)
      requires Valid() && iDivisor != 0 && x < iSize
      modifies Repr, heap
      ensures Valid() && fresh(Repr - old(Repr)) && iDivisor == old(iDivisor)
      ensures bits <= old(bits) + {x}
      ensures rc.Ok? ==> bits == old(bits) + {x}
      ensures heap.failures >= old(heap.failures) + if rc.Ok? then 0 else 1
      decreases iSize, 0, 1
    {
      hide Bin, Rest;
      Descend(x);
      var bin := Bin(x, iDivisor);
      if apSub[bin] == null {
        var ok := heap.Malloc();
        if !ok { return NoMem; }
        AddSub(bin);
      }
      rc := SetSub(x, bin, heap);
    }

    method AddSub(bin: nat)
      requires Valid() && iDivisor != 0 && bin < |apSub| && apSub[bin] == null
      modifies this
      ensures Valid() && fresh(Repr - old(Repr)) && iDivisor == old(iDivisor)
      ensures |apSub| == |old(apSub)| && apSub[bin] != null
      ensures bits == old(bits)
    {
      var sub := new Bitvec(lay, iDivisor);
      apSub := apSub[bin := sub];
      Repr := Repr + sub.Repr;
    }

    method SetSub(x: nat, bin: nat, heap: Allocator) returns (rc: Rc)
      requires Valid() && iDivisor != 0 && x < iSize && bin == Bin(x, iDivisor) < |apSub| && apSub[bin] != null
      modifies Repr, heap
      ensures Valid() && fresh(Repr - old(Repr)) && iDivisor == old(iDivisor)
      ensures bits <= old(bits) + {x}
      ensures rc.Ok? ==> bits == old(bits) + {x}
      ensures heap.failures >= old(heap.failures) + if rc.Ok? then 0 else 1
      decreases iSize, 0, 0
    {
      Descend(x);
      hide Bin, Rest, InSub, Joined, Divisor;
      var sub := apSub[bin];
      rc := sub.Set(Rest(x, iDivisor) + 1, heap);
      JoinedSet(subs, iDivisor, iSize, x, sub.bits);
      Reattach(bin);
    }

    /** sqlite3BitvecClear */
    method Clear(i: nat)
      requires Valid() && 1 <= i <= iSize
      modifies Repr
      ensures Valid() && Repr == old(Repr)
      ensures bits == old(bits) - {i - 1}
      decreases iSize, 1
    {
      hide Valid;
      if iDivisor != 0 {
        ClearSub(i - 1);
      } else if iSize <= lay.NBit() {
        ClearBitmap(i - 1);
      } else {
        ClearHash(i);
      }
    }

    method ClearBitmap(x: nat)
      requires Valid() && iDivisor == 0 && x < iSize <= lay.NBit()
      modifies this
      ensures Valid() && Repr == old(Repr) && bits == old(bits) - {x}
    {
      BitmapSet(aBitmap, lay.nElem, iSize, bits, x);
      hide BitmapForm, ClearBit;
      aBitmap := ClearBit(aBitmap, x);
      bits := bits - {x};
    }

    method ClearHash(v: nat)
      requires Valid() && iDivisor == 0 && iSize > lay.NBit() && 1 <= v <= iSize
      modifies this
      ensures Valid() && Repr == old(Repr) && bits == old(bits) - {v - 1}
    {
      var h, n := Rebuild(aHash, nSet, v);
      HashRemoved(aHash, nSet, h, n, lay.nInt, iSize, bits, v);
      aHash, nSet := h, n;
      bits := bits - {v - 1};
    }

    method ClearSub(x: nat)
      requires Valid() && iDivisor != 0 && x < iSize
      modifies Repr
      ensures Valid() && Repr == old(Repr)
      ensures bits == old(bits) - {x}
      decreases iSize, 0
    {
      Descend(x);
      hide Bin, Rest, InSub, Joined, Divisor;
      var bin := Bin(x, iDivisor);
      if apSub[bin] == null { return; }
      var sub := apSub[bin];
      sub.Clear(Rest(x, iDivisor) + 1);
      JoinedClear(subs, iDivisor, iSize, x);
      Reattach(bin);
    }

    /** In order except that sub-bitmap bin may have grown or changed its bits. */
    ghost predicate Detached(bin: nat)
      reads this, Repr, if bin < |apSub| && apSub[bin] != null then {apSub[bin]} + apSub[bin].Repr else {}
    {
      && this in Repr && lay.Ok()
      && iSize > lay.NBit() && iDivisor == Divisor(iSize, lay.nPtr)
      && |apSub| == |subs| == lay.nPtr
      && bin < |apSub| && apSub[bin] != null
      && this !in apSub[bin].Repr && apSub[bin].iSize == iDivisor && apSub[bin].lay == lay && apSub[bin].Valid()
      && (forall b :: 0 <= b < |apSub| && apSub[b] == null ==> subs[b] == {})
      && (forall b :: 0 <= b < |apSub| && b != bin && apSub[b] != null ==>
            && apSub[b] in Repr && apSub[b].Repr <= Repr && this !in apSub[b].Repr
            && apSub[b].iSize == iDivisor && apSub[b].lay == lay && apSub[b].Valid()
            && subs[b] == apSub[b].bits && apSub[b].Repr !! apSub[bin].Repr)
      && (forall a, b :: 0 <= a < b < |apSub| && apSub[a] != null && apSub[b] != null ==>
            apSub[a].Repr !! apSub[b].Repr)
    }

    ghost method Reattach(bin: nat)
      requires Detached(bin)
      modifies this`Repr, this`subs, this`bits
      ensures Valid() && Repr == old(Repr) + apSub[bin].Repr
      ensures |subs| == |old(subs)| && subs == old(subs)[bin := apSub[bin].bits]
      ensures bits == Joined(subs, iDivisor, iSize)
    {
      hide Joined, InSub, Divisor;
      Repr := Repr + apSub[bin].Repr;
      subs := subs[bin := apSub[bin].bits];
      JoinedBound(subs, iDivisor, iSize);
      bits := Joined(subs, iDivisor, iSize);
    }

    method SetHash(v: nat, heap: Allocator) returns (rc: Rc)
      requires Valid() && iDivisor == 0 && iSize > lay.NBit() && 1 <= v <= iSize
      modifies Repr, heap
      ensures Valid() && fresh(Repr - old(Repr))
      ensures bits <= old(bits) + {v - 1}
      ensures rc.Ok? ==> bits == old(bits) + {v - 1}
      ensures heap.failures >= old(heap.failures) + if rc.Ok? then 0 else 1
      decreases iSize, 1, 1
    {
      var s := Home(v, lay.nInt);
      ghost var d := 0;
      if aHash[s] == 0 {
        if nSet < lay.nInt - 1 {
          Store(v, s, d);
          return Ok;
        }
      } else {
        s, d := Find(aHash, nSet, v);
        if aHash[s] == v { return Ok; }
      }
      if nSet >= lay.MxHash() {
        rc := Rehash(v, heap);
      } else {
        Store(v, s, d);
        rc := Ok;
      }
    }

    method Store(v: nat, s: nat, ghost d: nat)
      requires Valid() && iDivisor == 0 && iSize > lay.NBit() && 1 <= v <= iSize && nSet + 1 < lay.nInt
      requires d < |aHash| && Probed(aHash, v, d) && s == Slot(Home(v, |aHash|), d, |aHash|) && aHash[s] == 0
      modifies this
      ensures Valid() && Repr == old(Repr) && bits == old(bits) + {v - 1}
    {
      HashStore(aHash, nSet, lay.nInt, iSize, bits, v, s, d);
      nSet := nSet + 1;
      aHash := aHash[s := v];
      bits := bits + {v - 1};
    }

    /** The node gives up its hash table and distributes the values over sub-bitmaps. */
    method Rehash(v: nat, heap: Allocator) returns (rc: Rc)
      requires Valid() && iDivisor == 0 && iSize > lay.NBit() && 1 <= v <= iSize
      modifies Repr, heap
      ensures Valid() && fresh(Repr - old(Repr))
      ensures bits <= old(bits) + {v - 1}
      ensures rc.Ok? ==> bits == old(bits) + {v - 1}
      ensures heap.failures >= old(heap.failures) + if rc.Ok? then 0 else 1
      decreases iSize, 1, 0
    {
      InRange();
      var ok := heap.Malloc();
      if !ok { return NoMem; }
      var values := aHash;
      assert |values| == lay.nInt && forall j :: 0 <= j < |values| ==> values[j] <= iSize;
      assert forall x :: 0 <= x < iSize ==> (x in old(bits) <==> Has(values, x));
      BecomeRadix();
      hide Valid, Has;
      rc := Distribute(v, values, heap);
      InRange();
    }

    /** The new value and then every value of the hash table is set again, now in the sub-bitmaps. */
    method Distribute(v: nat, values: seq<nat>, heap: Allocator) returns (rc: Rc)
      requires Valid() && iDivisor != 0 && bits == {} && 1 <= v <= iSize
      requires forall j :: 0 <= j < |values| ==> values[j] <= iSize
      modifies Repr, heap
      ensures Valid() && fresh(Repr - old(Repr))
      ensures forall x: nat :: x in bits ==> x == v - 1 || Has(values, x)
      ensures rc.Ok? ==> v - 1 in bits && forall x: nat :: Has(values, x) ==> x in bits
      ensures heap.failures >= old(heap.failures) + if rc.Ok? then 0 else 1
      decreases iSize, 0, 3
    {
      hide Valid, Has;
      rc := Set(v, heap);
      EmptyHasNone(values[..0]);
      for j := 0 to |values|
        invariant Valid() && iDivisor != 0 && fresh(Repr - old(Repr))
        invariant forall x: nat :: x in bits ==> x == v - 1 || Has(values[..j], x)
        invariant rc.Ok? ==> v - 1 in bits && forall x: nat :: Has(values[..j], x) ==> x in bits
        invariant heap.failures >= old(heap.failures) + if rc.Ok? then 0 else 1
      {
        PrefixStep(values, j, values[..j + 1]);
        if values[j] != 0 {
          var r := Set(values[j], heap);
          rc := Or(rc, r);
        }
      }
      assert values[..|values|] == values;
    }

    method BecomeRadix()
      requires Valid() && iDivisor == 0 && iSize > lay.NBit()
      modifies this
      ensures Valid() && Repr == old(Repr) && iDivisor != 0 && bits == {}
    {
      apSub := seq(lay.nPtr, _ => null);
      subs := seq(lay.nPtr, _ => {});
      iDivisor := Divisor(iSize, lay.nPtr);
      bits := {};
    }
  }

  /** sqlite3BitvecTest: a missing bitmap has no bits. */
  method BitvecTest(p: Bitvec?, i: nat) returns (r: bool)
    requires p != null ==> p.Valid()
    ensures r == (p != null && i > 0 && i - 1 in p.bits)
  {
    if p == null { return false; }
    r := p.Test(i);
  }

  // ------------------------------------------- the built-in test as reference

  /** One operation of the test program on bit i, counted from 0; ArrayOnly skips the Bitvec on purpose. */
  datatype Op = SetOp(i: nat) | ClearOp(i: nat) | ArrayOnly(i: nat)

  /** The bits a program leaves set, counting ArrayOnly operations or not. */
  function Program(ops: seq<Op>, counting: bool): set<nat> {
    if ops == [] then {}
    else
      var s := Program(ops[..|ops| - 1], counting);
      match ops[|ops| - 1]
      case SetOp(i) => s + {i}
      case ClearOp(i) => s - {i}
      case ArrayOnly(i) => if counting then s + {i} else s
  }

  lemma ProgramStep(ops: seq<Op>, k: nat, counting: bool)
    requires k < |ops|
    ensures Program(ops[..k + 1], counting) ==
      var s := Program(ops[..k], counting);
      match ops[k]
      case SetOp(i) => s + {i}
      case ClearOp(i) => s - {i}
      case ArrayOnly(i) => if counting then s + {i} else s
  {
    assert ops[..k + 1][..k] == ops[..k];
  }

  lemma ProgramEmpty(ops: seq<Op>)
    requires ops == []
    ensures Program(ops, true) == Program(ops, false) == {}
  {
  }

  lemma {:induction false} ProgramsAgree(ops: seq<Op>)
    requires forall k :: 0 <= k < |ops| ==> !ops[k].ArrayOnly?
    ensures Program(ops, true) == Program(ops, false)
    decreases |ops|
  {
    if ops != [] {
      ProgramsAgree(ops[..|ops| - 1]);
    }
  }

  /** The loop that runs the program on the Bitvec and on the linear array pV. */
  method RunProgram(p: Bitvec, sz: nat, ops: seq<Op>, heap: Allocator) returns (rc: Rc, pV: seq<bool>)
    requires p.Valid() && p.iSize == sz && p.bits == {} && forall k :: 0 <= k < |ops| ==> ops[k].i < sz
    modifies p.Repr, heap
    ensures p.Valid() && |pV| == sz + 1
    ensures rc.Ok? ==> p.bits == Program(ops, false)
    ensures rc.Ok? ==> forall i :: 0 <= i < sz ==> (pV[i + 1] <==> i in Program(ops, true))
    ensures heap.failures >= old(heap.failures) + if rc.Ok? then 0 else 1
  {
    hide Program, Bitvec.Valid;
    ProgramEmpty(ops[..0]);
    pV := seq(sz + 1, _ => false);
    for k := 0 to |ops|
      invariant p.Valid() && fresh(p.Repr - old(p.Repr)) && |pV| == sz + 1
      invariant p.bits == Program(ops[..k], false)
      invariant heap.failures >= old(heap.failures)
      invariant forall i :: 0 <= i < sz ==> (pV[i + 1] <==> i in Program(ops[..k], true))
    {
      ProgramStep(ops, k, true);
      ProgramStep(ops, k, false);
      var i := ops[k].i;
      pV := pV[i + 1 := !ops[k].ClearOp?];
      if ops[k].SetOp? {
        var r := p.Set(i + 1, heap);
        if r.NoMem? { return NoMem, pV; }
      } else if ops[k].ClearOp? {
        p.Clear(i + 1);
      }
    }
    assert ops[..|ops|] == ops;
    rc := Ok;
  }

  /**
   sqlite3BitvecBuiltinTest: every program of sets and clears leaves the Bitvec
   and the linear array of bits in agreement; -1 reports lack of memory, any
   other non-zero result is a bit in which they differ.
   */
  method BuiltinTest(lay: Layout, sz: nat, ops: seq<Op>, heap: Allocator) returns (rc: int)
    requires lay.Ok() && forall k :: 0 <= k < |ops| ==> ops[k].i < sz
    modifies heap
    ensures rc == -1 || 0 <= rc <= sz
    ensures rc == 0 ==> forall i :: 0 <= i < sz ==> (i in Program(ops, true) <==> i in Program(ops, false))
    ensures rc > 0 ==> !(rc - 1 in Program(ops, true) <==> rc - 1 in Program(ops, false))
    ensures rc > 0 ==> forall i :: 0 <= i < rc - 1 ==> (i in Program(ops, true) <==> i in Program(ops, false))
    ensures (forall k :: 0 <= k < |ops| ==> !ops[k].ArrayOnly?) ==> rc <= 0
    ensures rc == -1 ==> heap.failures > old(heap.failures)
  {
    hide Program, Bitvec.Valid;
    var ok := heap.Malloc();
    var okV := heap.Malloc();
    var okTmp := heap.Malloc();
    if !ok || !okV || !okTmp { return -1; }
    var p := new Bitvec(lay, sz);
    var r, pV := RunProgram(p, sz, ops, heap);
    if r.NoMem? { return -1; }
    rc := Compare(p, sz, pV);
    if forall k :: 0 <= k < |ops| ==> !ops[k].ArrayOnly? { ProgramsAgree(ops); }
  }

  /** The final loop: the number of the first bit in which p and pV differ, or 0. */
  method Compare(p: Bitvec, sz: nat, pV: seq<bool>) returns (rc: nat)
    requires p.Valid() && |pV| == sz + 1
    ensures rc <= sz
    ensures if rc == 0 then forall i :: 0 <= i < sz ==> (pV[i + 1] <==> i in p.bits)
            else !(pV[rc] <==> rc - 1 in p.bits) && forall i :: 0 <= i < rc - 1 ==> (pV[i + 1] <==> i in p.bits)
  {
    hide Bitvec.Valid;
    for i := 0 to sz
      invariant forall j :: 0 <= j < i ==> (pV[j + 1] <==> j in p.bits)
    {
      var t := BitvecTest(p, i + 1);
      if pV[i + 1] != t { return i + 1; }
    }
    rc := 0;
  }
}
