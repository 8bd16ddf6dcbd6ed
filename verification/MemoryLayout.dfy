/**
  The layout generator: one block that holds a memory header, the component list, the
  user's header and every component, each at an aligned offset.  Sizes are 64-bit words;
  the code's arithmetic wraps around, the ideal layout's does not.
*/
module MemoryLayout {
  import opened Words

  datatype Desc = Desc(size: nat, align: nat, count: nat)

  /** A stretch of bytes in the block. */
  datatype Region = Region(offset: nat, length: nat, align: nat)

  datatype Component = Component(ptr: nat, desc: Desc)

  datatype Memory = Memory(block: nat, size: nat, listPtr: nat, headerPtr: nat, components: seq<Component>)

  /** `Stopped` is a failed assertion of the program. */
  datatype LayoutResult = Laid(memory: Memory) | BadConf | Stopped

  datatype OffsetError = Fine | Invalid | Halted

  /** sizeof and alignof of the memory header and of one entry of the component list. */
  const MEMORY_DESC := Desc(24, 8, 1)
  const COMPONENT_SIZE: nat := 32
  const COMPONENT_ALIGN: nat := 8

  predicate Fits(d: Desc) {
    d.size < WORD && d.align < WORD && d.count < WORD
  }

  predicate ValidAlign(align: nat) {
    align != 0 && And(align - 1, align) == 0
  }

  predicate ValidDesc(d: Desc) {
    Fits(d) && ValidAlign(d.align) && d.size > 0 && d.count > 0
  }

  function AlignSize(size: nat, align: nat): nat
    requires 0 < align < WORD
  {
    And(Add(size, align - 1), Not(align - 1))
  }

  /** The grown descriptor and the offset of what was appended. */
  function Append(base: Desc, added: Desc): (Desc, nat)
    requires 0 < added.align < WORD
  {
    var aligned := AlignSize(base.size, added.align);
    var align := if added.align > base.align then added.align else base.align;
    (Desc(Add(aligned, Mul(added.size, added.count)), align, base.count), aligned)
  }

  // ---------- The ideal layout ----------

  function Length(d: Desc): nat {
    d.size * d.count
  }

  /** Where each description starts when nothing wraps, laying them out from `size` on. */
  function Offsets(size: nat, descs: seq<Desc>): seq<nat>
    requires forall d :: d in descs ==> d.align > 0
    decreases |descs|
  {
    if descs == [] then []
    else
      var off := RoundUp(size, descs[0].align);
      [off] + Offsets(off + Length(descs[0]), descs[1..])
  }

  function Total(size: nat, descs: seq<Desc>): nat
    requires forall d :: d in descs ==> d.align > 0
    decreases |descs|
  {
    if descs == [] then size else Total(RoundUp(size, descs[0].align) + Length(descs[0]), descs[1..])
  }

  function MaxAlign(align: nat, descs: seq<Desc>): nat
    decreases |descs|
  {
    if descs == [] then align else MaxAlign(if descs[0].align > align then descs[0].align else align, descs[1..])
  }

  // ---------- Rounding with words ----------

  lemma ValidAlignFacts(a: nat)
    requires ValidAlign(a) && a < WORD
    ensures IsPow2(a) && a > 0 && WORD % a == 0
  {
    ValidAlignIsPow2(a);
    var k: nat :| a == Pow2(k);
    WordIsPow2();
    Pow2Less(k, 64);
    Pow2Divides(k, 64);
  }

  /** Rounding up in 64-bit arithmetic is rounding up, unless the result does not fit; then it is 0. */
  lemma {:induction false} AlignSizeIsRoundUp(size: nat, align: nat)
    requires size < WORD && ValidAlign(align) && align < WORD
    ensures RoundUp(size, align) <= WORD
    ensures AlignSize(size, align) == if RoundUp(size, align) < WORD then RoundUp(size, align) else 0
  {
    hide And, RoundUp, IsPow2;
    ValidAlignFacts(align);
    var x := size + align - 1;
    RoundUpFloor(size, align);
    MultipleAtLeast(size, align, WORD);
    if x < WORD {
      MaskRoundsDown(x, align);
      SmallMod(x);
    } else {
      FloorAtLeast(x, align, WORD);
      var y := x - WORD;
      WrappedMod(x);
      MaskRoundsDown(y, align);
      assert y < align;
      ModOf(0, y, align);
    }
  }

  lemma RoundUpFloor(size: nat, a: nat)
    requires a > 0
    ensures RoundUp(size, a) == (size + a - 1) - (size + a - 1) % a
  {
    Divided(size + a - 1, a);
  }

  lemma FloorAtLeast(x: nat, a: nat, m: nat)
    requires a > 0 && m % a == 0 && m <= x
    ensures m <= x - x % a
  {
    Divided(x, a);
    Divided(m, a);
    GreatestQuotient(x / a, x % a, m / a, a);
  }

  lemma GreatestQuotient(q: nat, r: nat, p: nat, a: nat)
    requires r < a && p * a <= q * a + r
    ensures p * a <= q * a
  {
    if p > q {
      TimesMonotone(q + 1, p, a);
    } else {
      TimesMonotone(p, q, a);
    }
  }

  lemma SmallMod(x: nat)
    requires x < WORD
    ensures x % WORD == x
  {}

  lemma WrappedMod(x: nat)
    requires WORD <= x < 2 * WORD
    ensures x % WORD == x - WORD
  {}

  /** Appending in 64-bit arithmetic, while the result fits. */
  lemma {:induction false} AppendIsIdeal(base: Desc, d: Desc)
    requires base.size < WORD && ValidDesc(d)
    ensures var (base', off) := Append(base, d); var ideal := RoundUp(base.size, d.align);
            && (ideal + Length(d) < WORD ==> off == ideal && base'.size == ideal + Length(d))
            && (ideal < WORD ==> off == ideal) && (ideal >= WORD ==> off == 0)
            && base'.size < WORD && base'.align == (if d.align > base.align then d.align else base.align)
  {
    hide And, RoundUp;
    AlignSizeIsRoundUp(base.size, d.align);
    var ideal := RoundUp(base.size, d.align);
    if ideal + Length(d) < WORD {
      SmallMod(Length(d));
      SmallMod(ideal + Length(d));
    }
  }

  // ---------- The whole layout ----------

  /** What repeated appends compute: the offsets, and the final descriptor. */
  function Computed(base: Desc, descs: seq<Desc>): (seq<nat>, Desc)
    requires forall d :: d in descs ==> 0 < d.align < WORD
    decreases |descs|
  {
    if descs == [] then ([], base)
    else
      var (base', off) := Append(base, descs[0]);
      var (offs, final) := Computed(base', descs[1..]);
      ([off] + offs, final)
  }

  ghost predicate AllValid(descs: seq<Desc>) {
    forall d :: d in descs ==> ValidDesc(d) && 0 < d.align < WORD
  }

  /** While the ideal total fits in a word, the code computes the ideal layout. */
  lemma {:induction false} ComputedIsIdeal(base: Desc, descs: seq<Desc>)
    requires AllValid(descs) && base.size < WORD && Total(base.size, descs) < WORD
    ensures var (offs, final) := Computed(base, descs);
            offs == Offsets(base.size, descs) && final.size == Total(base.size, descs)
    decreases |descs|
  {
    hide Append, RoundUp, Length, And, Offsets, Total, ValidDesc;
    if descs == [] {
      NoOffsets(base.size);
    } else {
      var d := descs[0];
      var base' := Append(base, d).0;
      OffsetsStep(base.size, descs);
      AppendIsIdeal(base, d);
      TotalGrows(RoundUp(base.size, d.align) + Length(d), descs[1..]);
      ComputedIsIdeal(base', descs[1..]);
    }
  }

  lemma {:induction false} TotalGrows(size: nat, descs: seq<Desc>)
    requires AllValid(descs)
    ensures size <= Total(size, descs)
    decreases |descs|
  {
    if descs != [] {
      RoundUpBounds(size, descs[0].align);
      TotalGrows(RoundUp(size, descs[0].align) + Length(descs[0]), descs[1..]);
    }
  }

  /** Offsets from `size` on are aligned, follow one another without overlap, and end by the total. */
  ghost predicate InOrderTo(offs: seq<nat>, descs: seq<Desc>, size: nat, total: nat) {
    && |offs| == |descs|
    && (forall i :: 0 <= i < |offs| ==> size <= offs[i] && offs[i] + Length(descs[i]) <= total)
    && (forall i :: 0 <= i < |offs| ==> descs[i].align > 0 && offs[i] % descs[i].align == 0)
    && (forall i, j :: 0 <= i < j < |offs| ==> offs[i] + Length(descs[i]) <= offs[j])
  }

  lemma {:induction false} InOrderCons(off: nat, d: Desc, offs: seq<nat>, descs: seq<Desc>, size: nat, total: nat)
    requires InOrderTo(offs, descs, off + Length(d), total) && off + Length(d) <= total
    requires size <= off && d.align > 0 && off % d.align == 0
    ensures InOrderTo([off] + offs, [d] + descs, size, total)
  {
    hide Length;
    var offs', descs' := [off] + offs, [d] + descs;
    assert forall i :: 1 <= i < |offs'| ==> offs'[i] == offs[i - 1] && descs'[i] == descs[i - 1];
  }

  /** The ideal offsets are. */
  lemma {:induction false} OffsetsApart(size: nat, descs: seq<Desc>)
    requires AllValid(descs)
    ensures InOrderTo(Offsets(size, descs), descs, size, Total(size, descs))
    decreases |descs|
  {
    hide Offsets, Total, RoundUp, Length, InOrderTo, ValidDesc;
    if descs == [] {
      NoOffsets(size);
    } else {
      OffsetsStep(size, descs);
      var off, d, rest := RoundUp(size, descs[0].align), descs[0], descs[1..];
      RoundUpBounds(size, d.align);
      OffsetsApart(off + Length(d), rest);
      TotalGrows(off + Length(d), rest);
      InOrderCons(off, d, Offsets(off + Length(d), rest), rest, size, Total(size, descs));
    }
  }

  lemma NoOffsets(size: nat)
    ensures Offsets(size, []) == [] && Total(size, []) == size && InOrderTo([], [], size, size)
  {}

  lemma OffsetsStep(size: nat, descs: seq<Desc>)
    requires AllValid(descs) && descs != []
    ensures var d, rest := descs[0], descs[1..];
            var off := RoundUp(size, d.align);
            && AllValid(rest) && descs == [d] + rest
            && Offsets(size, descs) == [off] + Offsets(off + Length(d), rest)
            && Total(size, descs) == Total(off + Length(d), rest)
  {
    hide RoundUp, ValidDesc;
  }

  /** If the ideal total does not fit, some part is put at offset 0 or reaches past the computed size. */
  lemma {:induction false} OverflowBreaks(base: Desc, descs: seq<Desc>) returns (i: nat)
    requires AllValid(descs) && base.size < WORD && Total(base.size, descs) >= WORD
    ensures var (offs, final) := Computed(base, descs);
            && |offs| == |descs| && i < |descs| && final.size < WORD
            && (offs[i] == 0 || offs[i] + Length(descs[i]) > final.size)
    decreases |descs|
  {
    var d := descs[0];
    var (base', off) := Append(base, d);
    AppendIsIdeal(base, d);
    ComputedSizes(base', descs[1..]);
    if RoundUp(base.size, d.align) + Length(d) >= WORD {
      i := 0;
    } else {
      var k := OverflowBreaks(base', descs[1..]);
      i := k + 1;
    }
  }

  lemma {:induction false} ComputedSizes(base: Desc, descs: seq<Desc>)
    requires AllValid(descs) && base.size < WORD
    ensures var (offs, final) := Computed(base, descs);
            |offs| == |descs| && final.size < WORD && final.align == MaxAlign(base.align, descs)
    decreases |descs|
  {
    if descs != [] {
      AppendIsIdeal(base, descs[0]);
      ComputedSizes(Append(base, descs[0]).0, descs[1..]);
    }
  }

  // ---------- Alignment of the block ----------

  /** The largest alignment is a power of two that every alignment divides. */
  lemma {:induction false} MaxAlignDivides(align: nat, descs: seq<Desc>, a: nat)
    requires AllValid(descs) && ValidAlign(align) && align < WORD
    requires (a == align || exists d :: d in descs && d.align == a)
    ensures ValidAlign(MaxAlign(align, descs)) && 0 < a <= MaxAlign(align, descs) < WORD
    ensures MaxAlign(align, descs) % a == 0
    decreases |descs|
  {
    if descs == [] {
      ValidAlignFacts(align);
      ModOf(1, 0, align);
    } else {
      var m := if descs[0].align > align then descs[0].align else align;
      var rest := descs[1..];
      assert ValidDesc(descs[0]);
      if a != align && a != descs[0].align {
        var d :| d in descs && d.align == a;
        assert d in rest;
        MaxAlignDivides(m, rest, a);
      } else {
        MaxAlignDivides(m, rest, m);
        PowersDivide(a, MaxAlign(m, rest));
      }
    }
  }

  lemma PowersDivide(a: nat, b: nat)
    requires ValidAlign(a) && ValidAlign(b) && a <= b
    ensures a > 0 && b % a == 0
  {
    ValidAlignIsPow2(a);
    ValidAlignIsPow2(b);
    var j: nat :| a == Pow2(j);
    var k: nat :| b == Pow2(k);
    if j > k { Pow2Strict(k, j); }
    Pow2Divides(j, k);
  }

  lemma {:induction false} Pow2Strict(a: nat, b: nat)
    requires a < b
    ensures Pow2(a) < Pow2(b)
  {
    Pow2Monotone(a, b - 1);
  }

  lemma SumOfMultiples(x: nat, y: nat, a: nat, m: nat)
    requires a > 0 && m > 0 && x % m == 0 && m % a == 0 && y % a == 0
    ensures (x + y) % a == 0
  {
    Divided(x, m);
    Divided(m, a);
    Divided(y, a);
    var p, q, r := x / m, m / a, y / a;
    assert x + y == p * (q * a) + r * a == (p * q + r) * a;
    MultipleMod(p * q + r, a);
  }

  // ---------- Building a memory ----------

  /** Everything that is appended to the memory header, in order. */
  function Parts(header: Desc, descs: seq<Desc>): seq<Desc> {
    Listed(header, |descs|, descs)
  }

  function Listed(header: Desc, n: nat, descs: seq<Desc>): seq<Desc> {
    [Desc(COMPONENT_SIZE, COMPONENT_ALIGN, n), header] + descs
  }

  /** The descriptions up to the first invalid one. */
  function ValidPrefix(descs: seq<Desc>): (r: seq<Desc>)
    ensures r <= descs && forall d :: d in r ==> ValidDesc(d)
    ensures |r| < |descs| ==> !ValidDesc(descs[|r|])
  {
    if descs == [] || !ValidDesc(descs[0]) then [] else [descs[0]] + ValidPrefix(descs[1..])
  }

  /** An append asserts that the size so far is positive; it is not when an earlier one wrapped around to 0. */
  ghost predicate Halts(base: Desc, descs: seq<Desc>)
    requires forall d :: d in descs ==> 0 < d.align < WORD
    decreases |descs|
  {
    descs != [] && (base.size == 0 || Halts(Append(base, descs[0]).0, descs[1..]))
  }

  lemma {:induction false} HaltsSnoc(base: Desc, descs: seq<Desc>, d: Desc)
    requires AllValid(descs + [d]) && AllValid(descs)
    ensures Halts(base, descs + [d]) <==> Halts(base, descs) || Computed(base, descs).1.size == 0
    decreases |descs|
  {
    hide And, Append;
    var all := descs + [d];
    if descs == [] {
      assert all[0] == d && all[1..] == [];
    } else {
      assert all[0] == descs[0] && all[1..] == descs[1..] + [d];
      HaltsSnoc(Append(base, descs[0]).0, descs[1..], d);
    }
  }

  lemma {:induction false} HaltsGrows(base: Desc, a: seq<Desc>, b: seq<Desc>)
    requires AllValid(a + b) && AllValid(a) && Halts(base, a)
    ensures Halts(base, a + b)
    decreases |a|
  {
    hide And, Append;
    assert (a + b)[0] == a[0] && (a + b)[1..] == a[1..] + b;
    if base.size != 0 {
      HaltsGrows(Append(base, a[0]).0, a[1..], b);
    }
  }

  /** A layout that fits stops nowhere: no size and no offset is 0. */
  lemma {:induction false} FittingRuns(base: Desc, descs: seq<Desc>)
    requires AllValid(descs) && 0 < base.size < WORD && Total(base.size, descs) < WORD
    ensures !Halts(base, descs) && 0 !in Computed(base, descs).0
    decreases |descs|
  {
    if descs != [] {
      hide And, RoundUp;
      var d := descs[0];
      assert d in descs;
      AppendIsIdeal(base, d);
      RoundUpBounds(base.size, d.align);
      var ideal := RoundUp(base.size, d.align);
      TotalGrows(ideal + Length(d), descs[1..]);
      FittingRuns(Append(base, d).0, descs[1..]);
    }
  }

  /** The memory header, then one region per part. */
  function Regions(offs: seq<nat>, parts: seq<Desc>): seq<Region>
    requires |offs| == |parts|
  {
    [Region(0, MEMORY_DESC.size, MEMORY_DESC.align)] +
    seq(|parts|, i requires 0 <= i < |parts| => Region(offs[i], Length(parts[i]), parts[i].align))
  }

  ghost predicate Beside(a: Region, b: Region) {
    a.offset + a.length <= b.offset || b.offset + b.length <= a.offset
  }

  /** In bounds and pairwise disjoint. */
  ghost predicate Separate(rs: seq<Region>, size: nat) {
    && (forall i :: 0 <= i < |rs| ==> rs[i].offset + rs[i].length <= size)
    && (forall i, j :: 0 <= i < j < |rs| ==> Beside(rs[i], rs[j]))
  }

  /** The regions are in bounds and disjoint exactly when the ideal total fits in a word. */
  lemma {:induction false} LayoutCorrect(parts: seq<Desc>)
    requires AllValid(parts)
    ensures var (offs, final) := Computed(MEMORY_DESC, parts);
            |offs| == |parts| && (Separate(Regions(offs, parts), final.size) <==> Total(MEMORY_DESC.size, parts) < WORD)
    ensures var (offs, final) := Computed(MEMORY_DESC, parts);
            Total(MEMORY_DESC.size, parts) < WORD ==> forall i :: 0 <= i < |parts| ==> offs[i] % parts[i].align == 0
  {
    var (offs, final) := Computed(MEMORY_DESC, parts);
    ComputedSizes(MEMORY_DESC, parts);
    var rs := Regions(offs, parts);
    assert forall i :: 0 <= i < |parts| ==> rs[i + 1] == Region(offs[i], Length(parts[i]), parts[i].align);
    if Total(MEMORY_DESC.size, parts) < WORD {
      ComputedIsIdeal(MEMORY_DESC, parts);
      OffsetsApart(MEMORY_DESC.size, parts);
      TotalGrows(MEMORY_DESC.size, parts);
      SeparateFromOffsets(offs, parts, final.size);
    } else {
      var k := OverflowBreaks(MEMORY_DESC, parts);
      PositiveLength(parts[k]);
      assert rs[k + 1].length > 0 && rs[0] == Region(0, 24, 8);
    }
  }

  lemma PositiveLength(d: Desc)
    requires d.size > 0 && d.count > 0
    ensures Length(d) > 0
  {}

  lemma SeparateFromOffsets(offs: seq<nat>, parts: seq<Desc>, size: nat)
    requires |offs| == |parts| && MEMORY_DESC.size <= size
    requires forall i :: 0 <= i < |offs| ==> MEMORY_DESC.size <= offs[i] && offs[i] + Length(parts[i]) <= size
    requires forall i, j :: 0 <= i < j < |offs| ==> offs[i] + Length(parts[i]) <= offs[j]
    ensures Separate(Regions(offs, parts), size)
  {
    hide Length;
    var rs := Regions(offs, parts);
    assert forall i :: 0 < i < |rs| ==> rs[i] == Region(offs[i - 1], Length(parts[i - 1]), parts[i - 1].align);
  }

  lemma {:induction false} ComputedSnoc(base: Desc, descs: seq<Desc>, d: Desc)
    requires AllValid(descs) && 0 < d.align < WORD
    ensures forall x :: x in descs + [d] ==> 0 < x.align < WORD
    ensures var (offs, final) := Computed(base, descs); var (final', off) := Append(final, d);
            Computed(base, descs + [d]) == (offs + [off], final')
    decreases |descs|
  {
    hide Append;
    var all := descs + [d];
    if descs == [] {
      assert all == [d] && all[1..] == [];
      var (base', off) := Append(base, d);
      ComputedNone(base);
      ComputedNone(base');
      assert Computed(base, all) == ([off] + [], base');
      assert [] + [off] == [off] + [];
    } else {
      assert all[0] == descs[0] && all[1..] == descs[1..] + [d];
      var (base', off0) := Append(base, descs[0]);
      ComputedSnoc(base', descs[1..], d);
      var (offs', final) := Computed(base', descs[1..]);
      var (final', off) := Append(final, d);
      assert Computed(base, descs) == ([off0] + offs', final);
      assert Computed(base', all[1..]) == (offs' + [off], final');
      assert [off0] + (offs' + [off]) == [off0] + offs' + [off];
    }
  }

  /** The list of components is itself a valid description as long as there is one. */
  lemma ListDescValid(n: nat)
    requires 0 < n < WORD
    ensures ValidDesc(Desc(COMPONENT_SIZE, COMPONENT_ALIGN, n))
  {
    assert And(7, 8) == 0 by {
      AndStep(7, 8);
      AndStep(3, 4);
      AndStep(1, 2);
      AndStep(0, 1);
    }
  }

  /** The pointers of a finished memory, read off the computed offsets. */
  ghost predicate Places(m: Memory, offs: seq<nat>, descs: seq<Desc>) {
    && |offs| == |descs| + 2 && |m.components| == |descs|
    && m.listPtr == m.block + offs[0] && m.headerPtr == m.block + offs[1]
    && forall i :: 0 <= i < |descs| ==> m.components[i] == Component(m.block + offs[i + 2], descs[i])
  }

  /**
    The appends, in order.  The first invalid description ends them, unless the size has
    wrapped around to 0 before, which fails an assertion.
  */
  method ComputeOffsets(header: Desc, descs: seq<Desc>) returns (error: OffsetError, offsets: seq<nat>, final: Desc)
    requires 0 < |descs| < WORD && ValidDesc(header)
    ensures AllValid(Listed(header, |descs|, ValidPrefix(descs)))
    ensures error == Halted <==> Halts(MEMORY_DESC, Listed(header, |descs|, ValidPrefix(descs)))
    ensures error == Invalid <==> error != Halted && exists d :: d in descs && !ValidDesc(d)
    ensures error == Fine ==>
              AllValid(Parts(header, descs)) && Computed(MEMORY_DESC, Parts(header, descs)) == (offsets, final)
  {
    hide And, Append, Computed, Halts, ValidPrefix, ValidDesc;
    ListDescValid(|descs|);
    ValidHasAlign(header);
    ghost var parts := Listed(header, |descs|, ValidPrefix(descs));
    PrefixValid(header, descs);
    final, offsets := MEMORY_DESC, [];
    ComputedNone(MEMORY_DESC);
    var todo := Parts(header, descs);
    for i := 0 to |todo|
      invariant |offsets| == i && i <= |parts| && parts[..i] == todo[..i] && AllValid(todo[..i])
      invariant Computed(MEMORY_DESC, todo[..i]) == (offsets, final) && !Halts(MEMORY_DESC, todo[..i])
    {
      PrefixMeets(header, descs, i);
      if !ValidDesc(todo[i]) {
        return Invalid, offsets, final;
      }
      ValidHasAlign(todo[i]);
      ghost var done := todo[..i];
      assert done + [todo[i]] == todo[..i + 1];
      HaltsSnoc(MEMORY_DESC, done, todo[i]);
      if final.size == 0 {
        assert parts[..i + 1] + parts[i + 1..] == parts && parts[..i + 1] == todo[..i + 1];
        HaltsGrows(MEMORY_DESC, parts[..i + 1], parts[i + 1..]);
        return Halted, offsets, final;
      }
      ComputedSnoc(MEMORY_DESC, done, todo[i]);
      var grown := Append(final, todo[i]);
      offsets := offsets + [grown.1];
      final := grown.0;
    }
    assert todo[..|todo|] == todo;
    AllMet(header, descs);
    error := Fine;
  }

  lemma PrefixValid(header: Desc, descs: seq<Desc>)
    requires ValidDesc(header) && 0 < |descs| < WORD
    ensures AllValid(Listed(header, |descs|, ValidPrefix(descs)))
    ensures (exists d :: d in descs && !ValidDesc(d)) <==> |ValidPrefix(descs)| < |descs|
  {
    hide And;
    ListDescValid(|descs|);
    forall d | d in Listed(header, |descs|, ValidPrefix(descs)) ensures ValidDesc(d) && 0 < d.align < WORD {
      ValidHasAlign(d);
    }
    if |ValidPrefix(descs)| < |descs| {
      assert descs[|ValidPrefix(descs)|] in descs;
    }
  }

  /** The next part is valid exactly when the valid prefix goes on. */
  lemma PrefixMeets(header: Desc, descs: seq<Desc>, i: nat)
    requires ValidDesc(header) && 0 < |descs| < WORD && i < |descs| + 2
    requires var parts := Listed(header, |descs|, ValidPrefix(descs));
             i <= |parts| && parts[..i] == Parts(header, descs)[..i]
    ensures var parts, todo := Listed(header, |descs|, ValidPrefix(descs)), Parts(header, descs);
            && (ValidDesc(todo[i]) <==> i < |parts|)
            && (i < |parts| ==> parts[..i + 1] == todo[..i + 1])
            && (i == |parts| ==> parts == todo[..i] && exists d :: d in descs && !ValidDesc(d))
  {
    hide And;
    ListDescValid(|descs|);
    var parts, todo := Listed(header, |descs|, ValidPrefix(descs)), Parts(header, descs);
    assert parts <= todo;
    if i < |parts| {
      assert parts[i] == todo[i] && parts[i] in parts;
    } else {
      assert todo[i] == descs[i - 2] && descs[i - 2] in descs;
    }
  }

  lemma AllMet(header: Desc, descs: seq<Desc>)
    requires |descs| + 2 <= |Listed(header, |descs|, ValidPrefix(descs))|
    ensures Listed(header, |descs|, ValidPrefix(descs)) == Parts(header, descs)
    ensures forall d :: d in descs ==> ValidDesc(d)
  {}

  /** The assertions on sizes and offsets hold while these parts are laid out. */
  ghost predicate Assertions(parts: seq<Desc>)
    requires AllValid(parts)
  {
    !Halts(MEMORY_DESC, parts) && 0 !in Computed(MEMORY_DESC, parts).0
  }

  /**
    Builds a memory.  Invalid descriptions are refused; an empty list of descriptions, and an
    offset or size that has wrapped around to 0, fail an assertion.
  */
  method MemoryInit(header: Desc, descs: seq<Desc>, alloc: (nat, nat) -> nat) returns (r: LayoutResult)
    requires |descs| < WORD
    requires forall a: nat, s: nat :: ValidAlign(a) && a < WORD ==> alloc(a, s) % a == 0
    ensures !ValidDesc(header) ==> r == BadConf
    ensures ValidDesc(header) && descs == [] ==> r == Stopped
    ensures ValidDesc(header) && descs != [] ==> AllValid(Listed(header, |descs|, ValidPrefix(descs)))
    ensures ValidDesc(header) && descs != [] ==>
              (r == BadConf <==>
               && (exists d :: d in descs && !ValidDesc(d))
               && !Halts(MEMORY_DESC, Listed(header, |descs|, ValidPrefix(descs))))
    ensures r.Laid? ==> AllValid(Parts(header, descs))
    ensures r.Laid? ==>
              var (offs, final) := Computed(MEMORY_DESC, Parts(header, descs));
              && Assertions(Parts(header, descs))
              && r.memory.block == alloc(final.align, final.size) && r.memory.size == final.size
              && Places(r.memory, offs, descs)
    ensures r.Laid? ==>
              var fits := Total(MEMORY_DESC.size, Parts(header, descs)) < WORD;
              var end := r.memory.block + r.memory.size;
              && |r.memory.components| == |descs|
              && (forall i :: 0 <= i < |descs| ==> r.memory.components[i].desc == descs[i])
              && (Separate(Stretches(r.memory, header, descs), end) <==> fits)
              && (fits ==> InLine(Stretches(r.memory, header, descs), end))
    ensures descs != [] && AllValid(Parts(header, descs)) && Assertions(Parts(header, descs)) ==> r.Laid?
    ensures descs != [] && AllValid(Parts(header, descs)) && Total(MEMORY_DESC.size, Parts(header, descs)) < WORD ==>
              r.Laid?
  {
    hide And, Append, Computed, Places, Halts, ValidPrefix, ValidDesc, Total;
    PartsValid(header, descs);
    if !ValidDesc(header) { return BadConf; }
    if descs == [] { return Stopped; }
    var error, offsets, final := ComputeOffsets(header, descs);
    if AllValid(Parts(header, descs)) {
      PrefixAll(header, descs);
      if Total(MEMORY_DESC.size, Parts(header, descs)) < WORD { FittingRuns(MEMORY_DESC, Parts(header, descs)); }
    }
    if error == Halted { return Stopped; }
    if error == Invalid { return BadConf; }
    ComputedLength(MEMORY_DESC, Parts(header, descs));
    var block := alloc(final.align, final.size);
    if offsets[0] == 0 || offsets[1] == 0 { return Stopped; }
    var components := [];
    for i := 0 to |descs|
      invariant |components| == i
      invariant forall k :: 0 <= k < i ==> components[k] == Component(block + offsets[k + 2], descs[k])
      invariant forall k :: 0 <= k < i + 2 ==> offsets[k] != 0
    {
      if offsets[i + 2] == 0 { return Stopped; }
      components := components + [Component(block + offsets[i + 2], descs[i])];
    }
    r := Laid(Memory(block, final.size, block + offsets[0], block + offsets[1], components));
    PlacesHold(r.memory, offsets, descs);
    BlockAligned(header, descs);
    hide Separate, InLine, Stretches;
    MemoryApart(r.memory, header, descs);
  }

  /** Whatever the allocator returns for the final alignment is a multiple of it. */
  lemma BlockAligned(header: Desc, descs: seq<Desc>)
    requires AllValid(Parts(header, descs))
    ensures var final := Computed(MEMORY_DESC, Parts(header, descs)).1;
            ValidAlign(final.align) && 0 < final.align < WORD
  {
    hide And, Computed, MaxAlign;
    ComputedSizes(MEMORY_DESC, Parts(header, descs));
    ListDescValid(1);
    MaxAlignDivides(8, Parts(header, descs), 8);
  }

  /** The stretches of memory behind a finished memory's pointers, sizes as the program has them. */
  ghost function Stretches(m: Memory, header: Desc, descs: seq<Desc>): (rs: seq<Region>)
    requires |m.components| == |descs|
    ensures |rs| == |descs| + 3
  {
    [Region(m.block, 24, 8), Region(m.listPtr, 32 * |descs|, 8),
     Region(m.headerPtr, header.size * header.count, header.align)] +
    seq(|descs|, i requires 0 <= i < |descs| =>
          Region(m.components[i].ptr, descs[i].size * descs[i].count, descs[i].align))
  }

  /** One after the other, each at a multiple of its alignment. */
  ghost predicate InLine(rs: seq<Region>, end: nat) {
    && (forall i :: 0 <= i < |rs| ==> rs[i].align > 0 && rs[i].offset % rs[i].align == 0)
    && (forall i :: 0 <= i < |rs| ==> rs[i].offset + rs[i].length <= end)
    && (forall i, j :: 0 <= i < j < |rs| ==> rs[i].offset + rs[i].length <= rs[j].offset)
  }

  lemma StretchesAre(m: Memory, header: Desc, descs: seq<Desc>, offs: seq<nat>)
    requires Places(m, offs, descs)
    ensures |offs| == |Parts(header, descs)| && |m.components| == |descs|
    ensures var rs, ss := Regions(offs, Parts(header, descs)), Stretches(m, header, descs);
            && |rs| == |ss|
            && forall i :: 0 <= i < |rs| ==> ss[i] == Region(m.block + rs[i].offset, rs[i].length, rs[i].align)
  {
    var parts := Parts(header, descs);
    var rs, ss := Regions(offs, parts), Stretches(m, header, descs);
    assert parts[0] == Desc(COMPONENT_SIZE, COMPONENT_ALIGN, |descs|) && parts[1] == header;
    forall i | 0 <= i < |rs| ensures ss[i] == Region(m.block + rs[i].offset, rs[i].length, rs[i].align) {
      if i >= 3 { assert parts[i - 1] == descs[i - 3] && rs[i].offset == offs[i - 1]; }
    }
  }

  lemma SeparateShifted(rs: seq<Region>, ss: seq<Region>, block: nat, size: nat)
    requires |rs| == |ss|
    requires forall i :: 0 <= i < |rs| ==> ss[i] == Region(block + rs[i].offset, rs[i].length, rs[i].align)
    ensures Separate(ss, block + size) <==> Separate(rs, size)
  {
    if Separate(ss, block + size) {
      forall i, j | 0 <= i < j < |rs| ensures Beside(rs[i], rs[j]) {
        assert Beside(ss[i], ss[j]);
      }
    }
    if Separate(rs, size) {
      forall i, j | 0 <= i < j < |ss| ensures Beside(ss[i], ss[j]) {
        assert Beside(rs[i], rs[j]);
      }
    }
  }

  /** In memory, the stretches are apart exactly when the total fits; and then they lie in line, aligned. */
  lemma {:induction false} MemoryApart(m: Memory, header: Desc, descs: seq<Desc>)
    requires AllValid(Parts(header, descs))
    requires var (offs, final) := Computed(MEMORY_DESC, Parts(header, descs));
             Places(m, offs, descs) && m.size == final.size && final.align > 0 && m.block % final.align == 0
    ensures |m.components| == |descs|
    ensures var fits := Total(MEMORY_DESC.size, Parts(header, descs)) < WORD;
            && (Separate(Stretches(m, header, descs), m.block + m.size) <==> fits)
            && (fits ==> InLine(Stretches(m, header, descs), m.block + m.size))
  {
    hide And, Computed, Total, ValidDesc;
    var parts := Parts(header, descs);
    var offs, final := Computed(MEMORY_DESC, parts).0, Computed(MEMORY_DESC, parts).1;
    LayoutCorrect(parts);
    StretchesAre(m, header, descs, offs);
    SeparateShifted(Regions(offs, parts), Stretches(m, header, descs), m.block, m.size);
    if Total(MEMORY_DESC.size, parts) < WORD {
      StretchesInLine(m, header, descs);
    }
  }

  lemma {:induction false} StretchesInLine(m: Memory, header: Desc, descs: seq<Desc>)
    requires AllValid(Parts(header, descs)) && Total(MEMORY_DESC.size, Parts(header, descs)) < WORD
    requires var (offs, final) := Computed(MEMORY_DESC, Parts(header, descs));
             Places(m, offs, descs) && m.size == final.size && final.align > 0 && m.block % final.align == 0
    ensures |m.components| == |descs| && InLine(Stretches(m, header, descs), m.block + m.size)
  {
    hide And, Computed, Total, ValidDesc, Stretches, Regions, Places, InOrderTo, InLine, Offsets;
    var parts := Parts(header, descs);
    var offs, final := Computed(MEMORY_DESC, parts).0, Computed(MEMORY_DESC, parts).1;
    ComputedIsIdeal(MEMORY_DESC, parts);
    OffsetsApart(MEMORY_DESC.size, parts);
    TotalGrows(MEMORY_DESC.size, parts);
    StretchesAre(m, header, descs, offs);
    HeaderAligned(header, descs, m.block);
    forall i | 0 <= i < |parts| ensures parts[i].align > 0 && (m.block + offs[i]) % parts[i].align == 0 {
      assert parts[i] in parts;
      PartsAligned(header, descs, m.block, i);
    }
    RegionsInLine(m.block, offs, parts, Stretches(m, header, descs), Total(MEMORY_DESC.size, parts));
  }

  lemma {:induction false} RegionsInLine(block: nat, offs: seq<nat>, parts: seq<Desc>, ss: seq<Region>, total: nat)
    requires InOrderTo(offs, parts, 24, total) && 24 <= total && |ss| == |parts| + 1 && block % 8 == 0
    requires var rs := Regions(offs, parts);
             forall i :: 0 <= i < |ss| ==> ss[i] == Region(block + rs[i].offset, rs[i].length, rs[i].align)
    requires forall i :: 0 <= i < |parts| ==> parts[i].align > 0 && (block + offs[i]) % parts[i].align == 0
    ensures InLine(ss, block + total)
  {
    hide Length;
    assert ss[0] == Region(block, 24, 8);
    forall i | 1 <= i < |ss| ensures ss[i] == Region(block + offs[i - 1], Length(parts[i - 1]), parts[i - 1].align) {}
  }

  /** The block itself is aligned for the memory header. */
  lemma HeaderAligned(header: Desc, descs: seq<Desc>, block: nat)
    requires AllValid(Parts(header, descs))
    requires var final := Computed(MEMORY_DESC, Parts(header, descs)).1; final.align > 0 && block % final.align == 0
    ensures block % 8 == 0
  {
    hide And, Computed, MaxAlign;
    var parts := Parts(header, descs);
    ComputedSizes(MEMORY_DESC, parts);
    ListDescValid(1);
    MaxAlignDivides(8, parts, 8);
    SumOfMultiples(block, 0, 8, Computed(MEMORY_DESC, parts).1.align);
  }

  lemma PartsValid(header: Desc, descs: seq<Desc>)
    ensures AllValid(Parts(header, descs)) ==> ValidDesc(header) && forall d :: d in descs ==> ValidDesc(d)
  {
    var parts := Parts(header, descs);
    assert parts[1] in parts && forall d :: d in descs ==> d in parts;
  }

  lemma PrefixAll(header: Desc, descs: seq<Desc>)
    requires AllValid(Parts(header, descs)) && 0 < |descs| < WORD
    ensures ValidPrefix(descs) == descs
  {
    PartsValid(header, descs);
    PrefixValid(header, descs);
  }

  lemma {:induction false} ComputedLength(base: Desc, descs: seq<Desc>)
    requires AllValid(descs)
    ensures |Computed(base, descs).0| == |descs|
    decreases |descs|
  {
    if descs != [] { ComputedLength(Append(base, descs[0]).0, descs[1..]); }
  }

  lemma ValidHasAlign(d: Desc)
    requires ValidDesc(d)
    ensures 0 < d.align < WORD
  {}

  lemma ComputedNone(base: Desc)
    ensures Computed(base, []) == ([], base) && !Halts(base, [])
  {}

  lemma PlacesHold(m: Memory, offs: seq<nat>, descs: seq<Desc>)
    requires |offs| == |descs| + 2 && |m.components| == |descs|
    requires m.listPtr == m.block + offs[0] && m.headerPtr == m.block + offs[1]
    requires forall i :: 0 <= i < |descs| ==> m.components[i] == Component(m.block + offs[i + 2], descs[i])
    ensures Places(m, offs, descs)
  {
    assert forall i :: 0 <= i < |descs| ==> offs[2..][i] == offs[i + 2];
  }

  /** Every part of a memory whose total fits starts at a multiple of its own alignment. */
  lemma PartsAligned(header: Desc, descs: seq<Desc>, block: nat, i: nat)
    requires AllValid(Parts(header, descs)) && i < |descs| + 2
    requires Total(MEMORY_DESC.size, Parts(header, descs)) < WORD
    requires var (offs, final) := Computed(MEMORY_DESC, Parts(header, descs));
             final.align > 0 && block % final.align == 0
    ensures var parts := Parts(header, descs); var (offs, final) := Computed(MEMORY_DESC, parts);
            |offs| == |parts| && (block + offs[i]) % parts[i].align == 0
  {
    hide And, Computed, Total, Separate, Regions, MaxAlign;
    var parts := Parts(header, descs);
    var offs, final := Computed(MEMORY_DESC, parts).0, Computed(MEMORY_DESC, parts).1;
    ComputedSizes(MEMORY_DESC, parts);
    LayoutCorrect(parts);
    ListDescValid(1);
    assert parts[i] in parts;
    MaxAlignDivides(8, parts, parts[i].align);
    SumOfMultiples(block, offs[i], parts[i].align, final.align);
  }

  // ---------- Descriptions built by the tree ----------

  /** sizeof and alignof of a tree node's header. */
  const NODE_DESC := Desc(32, 8, 1)

  /** The tree's description of its blocks, and the value offset the append used. */
  function TreeDesc(obj: Desc): (Desc, nat)
    requires ValidDesc(obj)
  {
    Append(NODE_DESC, obj)
  }

  /** Recomputing the value offset from the combined alignment gives the offset the append used. */
  lemma {:induction false} TreeOffsetRecovered(obj: Desc)
    requires ValidDesc(obj)
    ensures var (desc, offset) := TreeDesc(obj);
            0 < desc.align < WORD && AlignSize(NODE_DESC.size, desc.align) == offset
    ensures RoundUp(NODE_DESC.size, obj.align) + Length(obj) < WORD ==>
              var (desc, offset) := TreeDesc(obj);
              desc.size - offset == Length(obj) && offset % obj.align == 0 && offset >= NODE_DESC.size
  {
    hide And, RoundUp;
    var a := obj.align;
    ValidAlignFacts(a);
    AppendIsIdeal(NODE_DESC, obj);
    RoundUpBounds(32, a);
    AlignSizeIsRoundUp(32, a);
    if a <= 8 {
      SmallAlign(a);
      SmallAlign(8);
      AlignSizeIsRoundUp(32, 8);
    }
  }

  /**
    The append multiplies the value size by the count and leaves the node's count at one.  So
    the described component has one block, and the value size read off it is that of one
    value exactly when one value was asked for.
  */
  lemma {:induction false} TreeDescHasOneBlock(obj: Desc)
    requires ValidDesc(obj) && RoundUp(NODE_DESC.size, obj.align) + Length(obj) < WORD
    ensures var (desc, offset) := TreeDesc(obj);
            desc.count == 1 && (desc.size - offset == obj.size <==> obj.count == 1)
  {
    hide And, RoundUp;
    AppendIsIdeal(NODE_DESC, obj);
    LengthOfOne(obj);
  }

  lemma LengthOfOne(d: Desc)
    requires d.size > 0 && d.count > 0
    ensures Length(d) == d.size <==> d.count == 1
  {
    if d.count > 1 { assert d.size * d.count >= d.size * 2; }
  }

  /** A node's header is already a multiple of every alignment up to its own. */
  lemma SmallAlign(a: nat)
    requires a <= 8 && (ValidAlign(a) || a == 8)
    ensures ValidAlign(8) && a > 0 && RoundUp(32, a) == 32
  {
    hide And;
    assert ValidAlign(8) by { ListDescValid(1); }
    PowersDivide(a, 8);
    var q := 8 / a;
    Divided(8, a);
    assert 32 == (4 * q) * a;
    MultipleMod(4 * q, a);
    RoundUpBounds(32, a);
    MultipleAtLeast(32, a, 32);
  }

  // ---------- Blocks of an arena ----------

  /** The byte at `addr` is in the i-th block threaded onto a free list. */
  predicate InBlock(base: nat, size: nat, i: nat, addr: nat) {
    base + i * size <= addr < base + i * size + size
  }

  /** A byte's block is its distance from the base divided by the block size. */
  lemma {:induction false} BlockOf(base: nat, size: nat, i: nat, addr: nat)
    requires size > 0 && InBlock(base, size, i, addr)
    ensures base <= addr && i == (addr - base) / size
  {
    ModOf(i, addr - base - i * size, size);
  }

  lemma {:induction false} BlockInside(base: nat, size: nat, count: nat, i: nat, addr: nat)
    requires InBlock(base, size, i, addr) && i < count
    ensures base <= addr < base + count * size
  {
    TimesMonotone(i + 1, count, size);
    TimesMonotone(i, i, size);
  }

  lemma {:induction false} BlockThere(base: nat, size: nat, count: nat, addr: nat) returns (i: nat)
    requires size > 0 && base <= addr < base + count * size
    ensures i < count && InBlock(base, size, i, addr)
  {
    var x := addr - base;
    i := x / size;
    Divided(x, size);
    if i >= count { TimesMonotone(count, i, size); }
  }

  /** The blocks of a component tile it: each byte belongs to exactly one block. */
  lemma {:induction false} BlocksTile(base: nat, size: nat, count: nat, addr: nat)
    requires size > 0
    ensures base <= addr < base + count * size <==> exists i: nat :: i < count && InBlock(base, size, i, addr)
    ensures forall i: nat, j: nat :: InBlock(base, size, i, addr) && InBlock(base, size, j, addr) ==> i == j
  {
    hide InBlock;
    if base <= addr < base + count * size {
      var i := BlockThere(base, size, count, addr);
    }
    if i: nat :| i < count && InBlock(base, size, i, addr) {
      BlockInside(base, size, count, i, addr);
    }
    forall i: nat, j: nat | InBlock(base, size, i, addr) && InBlock(base, size, j, addr) ensures i == j {
      BlockOf(base, size, i, addr);
      BlockOf(base, size, j, addr);
    }
  }
}
