/**
  The slab allocator's configuration: what its two initialisers accept, and that everything
  the allocator and its addresses rely on follows from it.
*/
module TssConfig {
  import opened Words
  import opened MemoryLayout
  import opened SlabGeometry
  import opened SlabState

  const DEFAULT_PAGES: nat := 8
  const DEFAULT_CAP: nat := 64
  const DEFAULT_ACQUIRE: nat := 32
  const DEFAULT_RELEASE: nat := 32
  const HALF_WORD: nat := 0x1_0000_0000

  /** What the user asks for; 0 stands for a default in the last four. */
  datatype Request = Request(objSize: nat, align: nat, retireThreshold: nat, pages: nat, cap: nat, acquire: nat,
                             release: nat)

  ghost predicate InRange(r: Request) {
    && r.objSize < WORD && r.align < WORD && r.retireThreshold < WORD
    && r.pages < HALF_WORD && r.cap < HALF_WORD && r.acquire < HALF_WORD && r.release < HALF_WORD
  }

  /** `Refused` is a failed assertion, or a division by a size that wrapped around to 0. */
  datatype Answer = Configured(slab: SlabConf, conf: Conf) | Refused

  function OrDefault(x: nat, default: nat): nat {
    if x == 0 then default else x
  }

  function SlabSize(r: Request): nat {
    OrDefault(r.pages, DEFAULT_PAGES) * PAGE
  }

  /** Subtraction that wraps around. */
  function Sub(x: nat, y: nat): nat {
    (x - y) % WORD
  }

  function ConfigInit(r: Request): (a: Answer)
    requires r.align < WORD
  {
    if r.align == 0 then Refused
    else
      var offset, padded := AlignSize(SLAB_HEADER, r.align), Padded(r.objSize, r.align);
      var room := Sub(SlabSize(r), offset);
      if offset % r.align != 0 || room % r.align != 0 || padded == 0 then Refused
      else
        var perSlab := Quotient(room, padded);
        if perSlab == 0 || perSlab <= r.retireThreshold then Refused
        else CacheInit(r, SlabConf(r.align, padded, SlabSize(r), offset, perSlab))
  }

  function CacheInit(r: Request, slab: SlabConf): Answer {
    var cap := OrDefault(r.cap, DEFAULT_CAP);
    var acquire, release := OrDefault(r.acquire, DEFAULT_ACQUIRE), OrDefault(r.release, DEFAULT_RELEASE);
    if cap < acquire || cap < release then Refused
    else Configured(slab, Conf(slab.perSlab, r.retireThreshold, cap, acquire, release))
  }

  // ---------- The alignment ----------

  /** When the common bits of a + 2^k - 1 and a - 1 are the low k ones, a is a power of two. */
  lemma {:induction false} LowOnes(a: nat, k: nat)
    requires a > 0 && Pow2(k) > 0 && And(a + Pow2(k) - 1, a - 1) == Pow2(k) - 1
    ensures IsPow2(a)
  {
    hide And, IsPow2;
    if k == 0 {
      assert Pow2(0) == 1;
      AndSwap(a, a - 1);
      ValidAlignIsPow2(a);
    } else {
      var p := Pow2(k - 1);
      assert Pow2(k) == 2 * p;
      AndStep(a + Pow2(k) - 1, a - 1);
      assert a % 2 == 0;
      var b := a / 2;
      assert (a + 2 * p - 1) / 2 == b + p - 1 && (a - 1) / 2 == b - 1;
      LowOnes(b, k - 1);
      Pow2Parity(a);
    }
  }

  /** A number below 2^k is what it has in common with itself plus 2^k. */
  lemma {:induction false} AndAbove(y: nat, k: nat)
    requires y < Pow2(k)
    ensures And(Pow2(k) + y, y) == y
  {
    hide And;
    AndStep(Pow2(k) + y, y);
    if k == 0 {
      assert Pow2(0) == 1;
      AndStep(0, 0);
    } else {
      var p := Pow2(k - 1);
      assert Pow2(k) == 2 * p;
      assert (2 * p + y) / 2 == p + y / 2;
      AndAbove(y / 2, k - 1);
    }
  }

  lemma {:induction false} SmallDivisor(a: nat)
    requires 0 < a <= 32 && 32 % a == 0
    ensures IsPow2(a)
  {
    assert Pow2(0) == 1 && Pow2(1) == 2 && Pow2(2) == 4 && Pow2(3) == 8 && Pow2(4) == 16 && Pow2(5) == 32;
    assert a == 1 || a == 2 || a == 4 || a == 8 || a == 16 || a == 32;
  }

  /** The assertion on the header's offset lets only powers of two through, unless the sum wraps around. */
  lemma {:induction false} OffsetAsserts(a: nat)
    requires 0 < a && a + 31 < WORD && AlignSize(SLAB_HEADER, a) % a == 0
    ensures IsPow2(a)
  {
    hide And, IsPow2;
    var x := a + 31;
    assert Add(32, a - 1) == x;
    AndNot(x, a - 1);
    AndBelow(x, a - 1);
    assert Pow2(5) == 32;
    if a <= 32 {
      AndAbove(a - 1, 5);
      SmallDivisor(a);
    } else {
      OnlyMultiple(x - And(x, a - 1), a);
      LowOnes(a, 5);
    }
  }

  lemma OnlyMultiple(y: nat, a: nat)
    requires 0 < y < 2 * a && y % a == 0
    ensures y == a
  {
    Divided(y, a);
    var q := y / a;
    if q >= 2 { TimesMonotone(2, q, a); }
  }

  /** With an alignment near the top of the address space one of the assertions fails. */
  lemma {:induction false} HugeAlignRefused(r: Request)
    requires InRange(r) && r.align + 31 >= WORD
    ensures ConfigInit(r) == Refused
  {
    var a, offset := r.align, AlignSize(SLAB_HEADER, r.align);
    HugeOffset(a);
    SlabSizeBounds(r);
    hide AlignSize, SlabSize, Quotient, Padded, CacheInit, Sub;
    if offset != 0 {
      SmallRemainder(offset, a);
    } else {
      SmallRemainder(SlabSize(r), a);
      SubNothing(SlabSize(r));
    }
  }

  lemma SmallRemainder(x: nat, a: nat)
    requires x < a
    ensures x % a == x
  {}

  lemma SubNothing(x: nat)
    requires x < WORD
    ensures Sub(x, 0) == x
  {}

  lemma SlabSizeBounds(r: Request)
    requires InRange(r)
    ensures 32 <= SlabSize(r) < WORD - 32
  {}

  lemma HugeOffset(a: nat)
    requires a < WORD <= a + 31
    ensures AlignSize(SLAB_HEADER, a) < 32
  {
    hide And;
    assert Add(32, a - 1) == a + 31 - WORD;
    AndBelow(a + 31 - WORD, Not(a - 1));
  }

  // ---------- What a configuration guarantees ----------

  /**
    An accepted configuration has a power-of-two alignment, room for its header, the object
    count of its geometry, and satisfies everything the allocator assumes.
  */
  lemma {:induction false} ConfigSound(r: Request)
    requires InRange(r) && ConfigInit(r).Configured?
    ensures ValidAlign(r.align) && 0 < r.align <= SlabSize(r) < WORD && SlabSize(r) % r.align == 0
    ensures AlignSize(SLAB_HEADER, r.align) <= SlabSize(r) && Padded(r.objSize, r.align) > 0
    ensures ConfigInit(r).slab == SlabConfig(r.objSize, r.align, SlabSize(r))
    ensures ConfigInit(r).conf.perSlab == ConfigInit(r).slab.perSlab && Good(ConfigInit(r).conf)
    ensures ConfigInit(r).conf.acquire + ConfigInit(r).conf.perSlab < WORD
  {
    hide And, IsPow2, Quotient, Padded;
    var a := r.align;
    if a + 31 >= WORD { HugeAlignRefused(r); }
    OffsetAsserts(a);
    ValidAlignIsPow2(a);
    RoomFits(a, SlabSize(r));
    QuotientIs(ConfigInit(r).slab.slabSize - ConfigInit(r).slab.offset, ConfigInit(r).slab.padded);
    QuotientBelow(SlabSize(r) - AlignSize(SLAB_HEADER, a), Padded(r.objSize, a));
  }

  lemma QuotientBelow(x: nat, d: nat)
    requires d > 0
    ensures Quotient(x, d) <= x
  {
    Divided(x, d);
    if x / d > x { TimesMonotone(1, d, x / d); }
  }

  /** The header fits, and the room behind it is what is left. */
  lemma {:induction false} RoomFits(a: nat, size: nat)
    requires ValidAlign(a) && a < WORD && 32 <= size < WORD && Sub(size, AlignSize(SLAB_HEADER, a)) % a == 0
    ensures a <= size && size % a == 0 && AlignSize(SLAB_HEADER, a) <= size
    ensures Sub(size, AlignSize(SLAB_HEADER, a)) == size - AlignSize(SLAB_HEADER, a)
  {
    hide And;
    OffsetFacts(a);
    OffsetIs(a);
    var offset := AlignSize(SLAB_HEADER, a);
    if size < offset {
      WrappedRoom(a, size);
    } else {
      SumMultiple(size - offset, offset, a);
    }
  }

  lemma OffsetIs(a: nat)
    requires ValidAlign(a) && a < WORD
    ensures a <= 32 ==> AlignSize(SLAB_HEADER, a) == 32
    ensures a > 32 ==> AlignSize(SLAB_HEADER, a) == a
  {
    hide And, RoundUp;
    AlignSizeIsRoundUp(32, a);
    RoundUpBounds(32, a);
    HalfWord(a);
    if a <= 32 {
      Pow32();
      PowersDivide(a, 32);
      MultipleAtLeast(32, a, 32);
    } else {
      assert a % a == 0;
      MultipleAtLeast(32, a, a);
      OnlyMultiple(RoundUp(32, a), a);
    }
  }

  lemma Pow32()
    ensures ValidAlign(32)
  {
    assert Pow2(5) == 32;
    ValidAlignIsPow2(32);
  }

  /** A slab smaller than its alignment leaves itself as the remainder, and fails the assertion on the room. */
  lemma {:induction false} WrappedRoom(a: nat, size: nat)
    requires ValidAlign(a) && 0 < size < a < WORD
    ensures Sub(size, a) % a == size
  {
    hide And;
    ValidAlignFacts(a);
    assert Sub(size, a) == WORD - (a - size);
    Divided(WORD, a);
    var q := WORD / a;
    assert WORD - (a - size) == (q - 1) * a + size;
    ModOf(q - 1, size, a);
  }

  lemma SumMultiple(x: nat, y: nat, a: nat)
    requires a > 0 && x % a == 0 && y % a == 0
    ensures (x + y) % a == 0
  {
    Divided(x, a);
    Divided(y, a);
    assert x + y == (x / a + y / a) * a;
    MultipleMod(x / a + y / a, a);
  }

  // ---------- Exactly what is accepted ----------

  /** What the request asks for, in plain arithmetic. */
  ghost predicate Acceptable(r: Request) {
    && IsPow2(r.align) && r.align > 0
    && var size := (if r.pages == 0 then 8 else r.pages) * 4096;
    && size % r.align == 0 && RoundUp(if r.objSize > 8 then r.objSize else 8, r.align) < WORD
    && RoundUp(32, r.align) <= size
    && r.retireThreshold < (size - RoundUp(32, r.align)) / RoundUp(if r.objSize > 8 then r.objSize else 8, r.align)
    && (if r.acquire == 0 then 32 else r.acquire) <= (if r.cap == 0 then 64 else r.cap)
    && (if r.release == 0 then 32 else r.release) <= (if r.cap == 0 then 64 else r.cap)
  }

  /** A configuration that says what the request asked for, field by field. */
  ghost predicate Grants(r: Request, slab: SlabConf, conf: Conf)
    requires r.align > 0
  {
    && slab.align == r.align && slab.slabSize == (if r.pages == 0 then 8 else r.pages) * 4096
    && slab.offset == RoundUp(32, r.align) <= slab.slabSize
    && slab.padded == RoundUp(if r.objSize > 8 then r.objSize else 8, r.align) > 0
    && slab.perSlab == (slab.slabSize - slab.offset) / slab.padded
    && conf.perSlab == slab.perSlab && conf.retireThreshold == r.retireThreshold
    && conf.cacheCap == (if r.cap == 0 then 64 else r.cap)
    && conf.acquire == (if r.acquire == 0 then 32 else r.acquire)
    && conf.release == (if r.release == 0 then 32 else r.release)
  }

  /** The initialisers accept exactly the acceptable requests, and configure what was asked for. */
  lemma {:induction false} ConfigExact(r: Request)
    requires InRange(r)
    ensures ConfigInit(r).Configured? <==> Acceptable(r)
    ensures ConfigInit(r).Configured? ==> r.align > 0 && Grants(r, ConfigInit(r).slab, ConfigInit(r).conf)
  {
    hide And, IsPow2, RoundUp, AlignSize, Sub, Quotient, Padded, SlabSize, CacheInit;
    if ConfigInit(r).Configured? { ConfigSound(r); }
    if Acceptable(r) || ConfigInit(r).Configured? {
      SlabSizeBounds(r);
      SlabSizeIs(r);
      ValidAlignIsPow2(r.align);
      ExactNumbers(r);
      var o := if r.objSize > 8 then r.objSize else 8;
      QuotientIs(SlabSize(r) - RoundUp(32, r.align), RoundUp(o, r.align));
      CacheExact(r, SlabConf(r.align, Padded(r.objSize, r.align), SlabSize(r), AlignSize(SLAB_HEADER, r.align),
                             Quotient(Sub(SlabSize(r), AlignSize(SLAB_HEADER, r.align)), Padded(r.objSize, r.align))));
    }
  }

  lemma SlabSizeIs(r: Request)
    ensures SlabSize(r) == (if r.pages == 0 then 8 else r.pages) * 4096
  {}

  /** The numbers of a request with a power-of-two alignment that divides the slab. */
  lemma {:induction false} ExactNumbers(r: Request)
    requires InRange(r) && ValidAlign(r.align) && 0 < r.align && SlabSize(r) % r.align == 0
    requires RoundUp(32, r.align) <= SlabSize(r) || AlignSize(SLAB_HEADER, r.align) <= SlabSize(r)
    ensures AlignSize(SLAB_HEADER, r.align) == RoundUp(32, r.align) <= SlabSize(r)
    ensures AlignSize(SLAB_HEADER, r.align) % r.align == 0
    ensures var room := Sub(SlabSize(r), AlignSize(SLAB_HEADER, r.align));
            room == SlabSize(r) - RoundUp(32, r.align) && room % r.align == 0
    ensures var o := if r.objSize > 8 then r.objSize else 8;
            && Padded(r.objSize, r.align) == (if RoundUp(o, r.align) < WORD then RoundUp(o, r.align) else 0)
            && RoundUp(o, r.align) > 0
  {
    hide And, RoundUp, AlignSize;
    var a := r.align;
    AlignSizeIsRoundUp(32, a);
    RoundUpBounds(32, a);
    HalfWord(a);
    SlabSizeBounds(r);
    AlignSizeIsRoundUp(if r.objSize > 8 then r.objSize else 8, a);
    RoundUpBounds(if r.objSize > 8 then r.objSize else 8, a);
    assert Sub(SlabSize(r), RoundUp(32, a)) == SlabSize(r) - RoundUp(32, a);
    DifferenceMultiple(SlabSize(r), RoundUp(32, a), a);
  }

  lemma DifferenceMultiple(x: nat, y: nat, a: nat)
    requires a > 0 && y <= x && x % a == 0 && y % a == 0
    ensures (x - y) % a == 0
  {
    Divided(x, a);
    Divided(y, a);
    var p, q := x / a, y / a;
    if p < q { TimesMonotone(p + 1, q, a); TimesMonotone(p, p, a); }
    assert x - y == (p - q) * a;
    MultipleMod(p - q, a);
  }

  lemma CacheExact(r: Request, slab: SlabConf)
    ensures CacheInit(r, slab).Configured? <==>
              && (if r.acquire == 0 then 32 else r.acquire) <= (if r.cap == 0 then 64 else r.cap)
              && (if r.release == 0 then 32 else r.release) <= (if r.cap == 0 then 64 else r.cap)
    ensures CacheInit(r, slab).Configured? ==>
              var conf := CacheInit(r, slab).conf;
              && CacheInit(r, slab).slab == slab && conf.perSlab == slab.perSlab
              && conf.retireThreshold == r.retireThreshold && conf.cacheCap == (if r.cap == 0 then 64 else r.cap)
              && conf.acquire == (if r.acquire == 0 then 32 else r.acquire)
              && conf.release == (if r.release == 0 then 32 else r.release)
  {}
}
