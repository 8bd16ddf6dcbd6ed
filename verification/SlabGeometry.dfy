/** Addresses: how large a slab is, where its mapping and its objects lie, and how an object finds its slab. */
module SlabGeometry {
  import opened Words
  import opened MemoryLayout

  const PAGE: nat := 4096

  /** sizeof of the slab's own header, and the smallest object: a link. */
  const SLAB_HEADER: nat := 32
  const MIN_OBJ: nat := 8

  // ---------- Size by doubling ----------

  /**
    Doubles a page count until it covers what is needed.  The result covers the need
    exactly when the need is at most 2^63; above that the arithmetic wraps around.
  */
  method SizeSlab(need: nat) returns (slabSize: nat)
    requires 0 < need < WORD
    ensures slabSize >= need <==> need <= Pow2(63)
    ensures need <= Pow2(63) ==> IsPow2(slabSize) && slabSize % PAGE == 0 && (slabSize == PAGE || slabSize / 2 < need)
  {
    hide IsPow2;
    PageFacts();
    var minPages := Add(need, PAGE - 1) / PAGE;
    var pages := 1;
    ghost var k: nat := 0;
    assert Pow2(0) == 1;
    while pages < minPages
      invariant pages == Pow2(k) && 0 < pages <= Pow2(52)
      invariant pages == 1 || pages / 2 < minPages
      decreases minPages - pages
    {
      assert Pow2(k + 1) == 2 * pages;
      DoubleFits(k, minPages);
      pages := Mul(pages, 2);
      k := k + 1;
    }
    slabSize := Mul(pages, PAGE);
    SizeCorrect(need, minPages, pages, k);
  }

  lemma PageFacts()
    ensures PAGE == Pow2(12) && Pow2(63) == 0x8000_0000_0000_0000 && Pow2(52) * PAGE == WORD
    ensures Pow2(51) * PAGE == Pow2(63)
    ensures Pow2(52) == 2 * Pow2(51)
  {
    assert Pow2(8) == 256 && Pow2(4) == 16;
    Pow2Sum(8, 4);
    WordIsPow2();
    Pow2Sum(52, 12);
    Pow2Sum(51, 12);
    assert Pow2(64) == 2 * Pow2(63);
    assert Pow2(52) == 2 * Pow2(51);
  }

  lemma DoubleFits(k: nat, minPages: nat)
    requires Pow2(k) < minPages <= Pow2(52)
    ensures Pow2(k + 1) <= Pow2(52) < WORD && Mul(Pow2(k), 2) == Pow2(k + 1)
  {
    PageFacts();
    Pow2Less(k, 52);
    Pow2Monotone(k + 1, 52);
    SmallMod(Pow2(k + 1));
  }

  lemma SizeCorrect(need: nat, minPages: nat, pages: nat, k: nat)
    requires 0 < need < WORD && minPages == Add(need, PAGE - 1) / PAGE && pages == Pow2(k)
    requires minPages <= pages <= Pow2(52)
    requires pages == 1 || pages / 2 < minPages
    ensures var size := Mul(pages, PAGE);
            && (size >= need <==> need <= Pow2(63))
            && (need <= Pow2(63) ==> IsPow2(size) && size % PAGE == 0 && (size == PAGE || size / 2 < need))
  {
    hide Pow2, IsPow2, Mul, Add;
    PageFacts();
    if need <= Pow2(63) {
      SumMod(need);
      PagesSmall(minPages, pages, k);
      SizeIsPow2(pages, k);
      assert pages % 2 == 0 || pages == 1 by { Pow2Even(k); }
    } else if need + PAGE - 1 < WORD {
      SumMod(need);
      PagesLarge(minPages, pages, k);
    } else {
      SumMod(need);
      assert minPages == 0;
      SizeIsPow2(pages, k);
    }
  }

  lemma SumMod(need: nat)
    requires need < WORD
    ensures Add(need, PAGE - 1) == if need + PAGE - 1 < WORD then need + PAGE - 1 else need + PAGE - 1 - WORD
  {}

  lemma Pow2Even(k: nat)
    ensures Pow2(k) == 1 || Pow2(k) % 2 == 0
  {}

  lemma PagesSmall(minPages: nat, pages: nat, k: nat)
    requires pages == Pow2(k) && minPages <= Pow2(51) && (pages == 1 || pages / 2 < minPages)
    ensures pages <= Pow2(51)
  {
    if k > 51 {
      Pow2Monotone(51, k - 1);
      assert pages == 2 * Pow2(k - 1);
    } else {
      Pow2Monotone(k, 51);
    }
  }

  lemma PagesLarge(minPages: nat, pages: nat, k: nat)
    requires pages == Pow2(k) && Pow2(51) < minPages <= pages <= Pow2(52)
    ensures Mul(pages, PAGE) == 0
  {
    PageFacts();
    Pow2Less(51, k);
    Pow2Monotone(52, k);
    hide Pow2;
    assert pages * PAGE == WORD;
  }

  lemma SizeIsPow2(pages: nat, k: nat)
    requires pages == Pow2(k) && pages <= Pow2(51)
    ensures Mul(pages, PAGE) == pages * 4096 && IsPow2(pages * 4096)
  {
    PageFacts();
    Pow2Sum(k, 12);
    hide Pow2;
    assert pages * PAGE == Pow2(k + 12);
    SmallMod(pages * 4096);
  }

  // ---------- The aligned mapping ----------

  function AlignedAddress(raw: nat, slabSize: nat): nat
    requires 0 < slabSize < WORD
  {
    And(Add(raw, slabSize - 1), Not(slabSize - 1))
  }

  /** A slab-sized, slab-aligned stretch inside a mapping of twice the size; both trims are whole pages. */
  lemma {:induction false} MappingTrimmed(raw: nat, slabSize: nat)
    requires IsPow2(slabSize) && slabSize % PAGE == 0 && 0 < slabSize && raw + 2 * slabSize <= WORD && raw % PAGE == 0
    ensures var a := AlignedAddress(raw, slabSize);
            && raw <= a && a + slabSize <= raw + 2 * slabSize && a % slabSize == 0
            && (a - raw) % PAGE == 0 && ((raw + 2 * slabSize) - (a + slabSize)) % PAGE == 0
  {
    hide And, IsPow2;
    var x := raw + slabSize - 1;
    SmallMod(x);
    MaskRoundsDown(x, slabSize);
    RoundUpFloor(raw, slabSize);
    RoundUpBounds(raw, slabSize);
    var a := AlignedAddress(raw, slabSize);
    assert a == RoundUp(raw, slabSize);
    PageMultiple(a, slabSize);
    PageDifference(a, raw);
    assert (raw + 2 * slabSize) - (a + slabSize) == (raw + slabSize) - a;
    PageSum(raw, slabSize);
    PageDifference(raw + slabSize, a);
  }

  lemma PageMultiple(a: nat, s: nat)
    requires s > 0 && a % s == 0 && s % PAGE == 0
    ensures a % PAGE == 0
  {
    SumOfMultiples(a, 0, PAGE, s);
  }

  lemma PageSum(a: nat, b: nat)
    requires a % PAGE == 0 && b % PAGE == 0
    ensures (a + b) % PAGE == 0
  {}

  lemma PageDifference(a: nat, b: nat)
    requires a % PAGE == 0 && b % PAGE == 0 && b <= a
    ensures (a - b) % PAGE == 0
  {}

  // ---------- Objects in a slab ----------

  datatype SlabConf = SlabConf(align: nat, padded: nat, slabSize: nat, offset: nat, perSlab: nat)

  /** An object's size, at least that of a link, rounded up to its alignment. */
  function Padded(objSize: nat, align: nat): nat
    requires 0 < align < WORD
  {
    AlignSize(if objSize > MIN_OBJ then objSize else MIN_OBJ, align)
  }

  /** The geometry the configuration computes. */
  function SlabConfig(objSize: nat, align: nat, slabSize: nat): SlabConf
    requires 0 < align < WORD
    requires AlignSize(SLAB_HEADER, align) <= slabSize && Padded(objSize, align) > 0
  {
    var padded := Padded(objSize, align);
    var offset := AlignSize(SLAB_HEADER, align);
    SlabConf(align, padded, slabSize, offset, Quotient(slabSize - offset, padded))
  }

  function Quotient(x: nat, d: nat): nat
    requires d > 0
  {
    x / d
  }

  function ObjAddress(c: SlabConf, slab: nat, i: nat): nat {
    slab + c.offset + i * c.padded
  }

  /** Masking any address inside a slab gives the slab. */
  function FindSlab(addr: nat, slabSize: nat): nat
    requires 0 < slabSize < WORD
  {
    And(addr, Not(slabSize - 1))
  }

  lemma {:induction false} FindSlabInverts(slab: nat, slabSize: nat, addr: nat)
    requires IsPow2(slabSize) && 0 < slabSize < WORD && slab % slabSize == 0 && slab <= addr < slab + slabSize
    requires addr < WORD
    ensures FindSlab(addr, slabSize) == slab
  {
    MaskRoundsDown(addr, slabSize);
    Divided(slab, slabSize);
    ModOf(slab / slabSize, addr - slab, slabSize);
  }

  /**
    Masking finds the slab from every address inside it if and only if the slab size is a
    power of two, wherever the slab lies.
  */
  lemma {:induction false} FindSlabOnlyForPow2(slab: nat, slabSize: nat)
    requires 0 < slabSize < WORD && slab % slabSize == 0 && slab + slabSize <= WORD
    ensures (forall addr: nat :: slab <= addr < slab + slabSize ==> FindSlab(addr, slabSize) == slab) <==>
              IsPow2(slabSize)
  {
    hide And, IsPow2;
    if IsPow2(slabSize) {
      forall addr: nat | slab <= addr < slab + slabSize ensures FindSlab(addr, slabSize) == slab {
        FindSlabInverts(slab, slabSize, addr);
      }
    }
    if forall addr: nat :: slab <= addr < slab + slabSize ==> FindSlab(addr, slabSize) == slab {
      var m := slabSize - 1;
      forall k: nat | k <= m ensures And(k, m) == k {
        assert FindSlab(slab + k, slabSize) == slab;
        AndNot(slab + k, m);
        AndTwice(slab + k, m);
      }
      AllSubmasks(m);
    }
  }

  /**
    Three pages a slab pass every assertion of the configuration and of the mapping, here at
    0x90000; but the second object of 4064 bytes is at 0x91000 and masks to itself.
  */
  lemma {:induction false} ThreePagesLoseSlab()
    ensures var size, raw := 3 * PAGE, 0x90000;
            && AlignedAddress(raw, size) == raw && raw % size == 0 && raw % PAGE == 0
            && AlignSize(SLAB_HEADER, 32) == 32 && (size - 32) % 32 == 0 && Padded(4064, 32) == 4064
            && SlabConfig(4064, 32, size).perSlab == 3
            && ObjAddress(SlabConfig(4064, 32, size), raw, 1) == 0x91000
            && FindSlab(0x91000, size) == 0x91000
  {
    ThreePageMasks();
    hide And, Not;
    AndNot(0x92FFF, 0x2FFF);
    AndNot(0x91000, 0x2FFF);
    AndNot(63, 31);
    AndNot(4095, 31);
    assert Add(0x90000, 0x2FFF) == 0x92FFF && Add(32, 31) == 63 && Add(4064, 31) == 4095;
    QuotientIs(3 * PAGE - 32, 4064);
    hide Quotient, Add;
  }

  lemma ThreePageMasks()
    ensures And(0x92FFF, 0x2FFF) == 0x2FFF && And(0x91000, 0x2FFF) == 0
    ensures And(63, 31) == 31 && And(4095, 31) == 31
  {
    hide And;
    AndLow(63, 5);
    AndLow(4095, 5);
    AlignedMask();
    InnerMask();
  }

  lemma AlignedMask()
    ensures And(0x92FFF, 0x2FFF) == 0x2FFF
  {
    hide And;
    AndZero(0x24);
    AndStep(0x49, 0x1); AndStep(0x92, 0x2); AndStep(0x125, 0x5); AndStep(0x24B, 0xB);
    AndStep(0x497, 0x17); AndStep(0x92F, 0x2F); AndStep(0x125F, 0x5F); AndStep(0x24BF, 0xBF);
    AndStep(0x497F, 0x17F); AndStep(0x92FF, 0x2FF); AndStep(0x125FF, 0x5FF); AndStep(0x24BFF, 0xBFF);
    AndStep(0x497FF, 0x17FF); AndStep(0x92FFF, 0x2FFF);
  }

  lemma InnerMask()
    ensures And(0x91000, 0x2FFF) == 0
  {
    hide And;
    AndZero(0x24);
    AndStep(0x48, 0x1); AndStep(0x91, 0x2); AndStep(0x122, 0x5); AndStep(0x244, 0xB);
    AndStep(0x488, 0x17); AndStep(0x910, 0x2F); AndStep(0x1220, 0x5F); AndStep(0x2440, 0xBF);
    AndStep(0x4880, 0x17F); AndStep(0x9100, 0x2FF); AndStep(0x12200, 0x5FF); AndStep(0x24400, 0xBFF);
    AndStep(0x48800, 0x17FF); AndStep(0x91000, 0x2FFF);
  }

  lemma AndZero(x: nat)
    ensures And(x, 0) == 0
  {}

  /**
    All linked objects lie in the slab behind its header, are aligned and do not overlap,
    whatever the slab size; in slabs of a power-of-two size they find their slab.
  */
  lemma {:induction false} ObjectsInSlab(objSize: nat, align: nat, slabSize: nat, slab: nat, i: nat, j: nat)
    requires ValidAlign(align) && 0 < align <= slabSize < WORD && objSize < WORD
    requires slabSize % align == 0 && slab % slabSize == 0 && slab + slabSize <= WORD
    requires AlignSize(SLAB_HEADER, align) <= slabSize && Padded(objSize, align) > 0
    requires var c := SlabConfig(objSize, align, slabSize); i < c.perSlab && j < c.perSlab
    ensures var c := SlabConfig(objSize, align, slabSize); var a := ObjAddress(c, slab, i);
            && slab + SLAB_HEADER <= a && a + c.padded <= slab + slabSize && c.padded >= objSize && c.padded >= MIN_OBJ
            && a % align == 0 && (IsPow2(slabSize) ==> FindSlab(a, slabSize) == slab)
            && (i < j ==> a + c.padded <= ObjAddress(c, slab, j))
  {
    hide And, IsPow2, Padded, AlignSize, Quotient, FindSlab;
    var c := SlabConfig(objSize, align, slabSize);
    PaddedFacts(objSize, align);
    OffsetFacts(align);
    QuotientIs(slabSize - c.offset, c.padded);
    ObjectBounds(c, slab, i, j);
    ObjectAligned(c, slab, i);
    if IsPow2(slabSize) { FindSlabInverts(slab, slabSize, ObjAddress(c, slab, i)); }
  }

  /** Objects of two slabs, or two objects of one, share no byte: slab and index name the address. */
  lemma {:induction false} ObjectsApart(objSize: nat, align: nat, slabSize: nat, slab: nat, i: nat, slab': nat, j: nat)
    requires ValidAlign(align) && 0 < align <= slabSize < WORD && objSize < WORD && slabSize % align == 0
    requires slab % slabSize == 0 && slab + slabSize <= WORD && slab' % slabSize == 0 && slab' + slabSize <= WORD
    requires AlignSize(SLAB_HEADER, align) <= slabSize && Padded(objSize, align) > 0
    requires var c := SlabConfig(objSize, align, slabSize); i < c.perSlab && j < c.perSlab
    requires slab != slab' || i != j
    ensures var c := SlabConfig(objSize, align, slabSize);
            var a, a' := ObjAddress(c, slab, i), ObjAddress(c, slab', j);
            a + c.padded <= a' || a' + c.padded <= a
  {
    hide And, Padded, AlignSize, SlabConfig, ObjAddress;
    ObjectsInSlab(objSize, align, slabSize, slab, i, j);
    ObjectsInSlab(objSize, align, slabSize, slab, j, i);
    ObjectsInSlab(objSize, align, slabSize, slab', j, i);
    if slab < slab' {
      MultiplesApart(slab, slab', slabSize);
    } else if slab' < slab {
      MultiplesApart(slab', slab, slabSize);
    }
  }

  lemma MultiplesApart(a: nat, b: nat, s: nat)
    requires s > 0 && a % s == 0 && b % s == 0 && a < b
    ensures a + s <= b
  {
    Divided(a, s);
    Divided(b, s);
    var p, q := a / s, b / s;
    if q <= p { TimesMonotone(q, p, s); }
    TimesMonotone(p + 1, q, s);
    TimesMonotone(p, p, s);
  }

  lemma QuotientIs(x: nat, d: nat)
    requires d > 0
    ensures Quotient(x, d) == x / d
  {}

  lemma PaddedFacts(objSize: nat, align: nat)
    requires ValidAlign(align) && 0 < align < WORD && objSize < WORD && Padded(objSize, align) > 0
    ensures Padded(objSize, align) >= objSize && Padded(objSize, align) >= MIN_OBJ
    ensures Padded(objSize, align) % align == 0
  {
    hide And, RoundUp;
    var o := if objSize > MIN_OBJ then objSize else MIN_OBJ;
    AlignSizeIsRoundUp(o, align);
    RoundUpBounds(o, align);
  }

  lemma OffsetFacts(align: nat)
    requires ValidAlign(align) && 0 < align < WORD
    ensures AlignSize(SLAB_HEADER, align) >= SLAB_HEADER && AlignSize(SLAB_HEADER, align) % align == 0
  {
    hide And, RoundUp;
    AlignSizeIsRoundUp(SLAB_HEADER, align);
    RoundUpBounds(SLAB_HEADER, align);
    HalfWord(align);
  }

  lemma HalfWord(a: nat)
    requires ValidAlign(a) && a < WORD
    ensures 2 * a <= WORD
  {
    hide And;
    ValidAlignIsPow2(a);
    var k: nat :| a == Pow2(k);
    WordIsPow2();
    Pow2Less(k, 64);
    Pow2Monotone(k, 63);
    assert Pow2(64) == 2 * Pow2(63);
  }

  lemma ObjectBounds(c: SlabConf, slab: nat, i: nat, j: nat)
    requires c.padded > 0 && c.offset <= c.slabSize && c.perSlab == (c.slabSize - c.offset) / c.padded && i < c.perSlab
    ensures ObjAddress(c, slab, i) + c.padded <= slab + c.slabSize
    ensures i < j ==> ObjAddress(c, slab, i) + c.padded <= ObjAddress(c, slab, j)
  {
    var room := c.slabSize - c.offset;
    Divided(room, c.padded);
    TimesMonotone(i + 1, c.perSlab, c.padded);
    if i < j { TimesMonotone(i + 1, j, c.padded); }
    TimesMonotone(i, i, c.padded);
  }

  lemma ObjectAligned(c: SlabConf, slab: nat, i: nat)
    requires 0 < c.align && c.slabSize > 0 && slab % c.slabSize == 0 && c.slabSize % c.align == 0
    requires c.offset % c.align == 0 && c.padded % c.align == 0
    ensures ObjAddress(c, slab, i) % c.align == 0
  {
    var a := c.align;
    SumOfMultiples(slab, c.offset, a, c.slabSize);
    Divided(c.padded, a);
    assert i * c.padded == (i * (c.padded / a)) * a;
    MultipleMod(i * (c.padded / a), a);
    Divided(slab + c.offset, a);
    assert ObjAddress(c, slab, i) == ((slab + c.offset) / a + i * (c.padded / a)) * a;
    MultipleMod((slab + c.offset) / a + i * (c.padded / a), a);
  }
}
