/** A component's memory seen as equal slots: slot i of size z starts z * i bytes behind the base. */
module MemoryBlock {
  import opened Recency

  type Byte = b: nat | b < 256

  function Offset(base: nat, size: nat, i: nat): nat {
    base + i * size
  }

  lemma OffsetNext(base: nat, size: nat, i: nat)
    ensures Offset(base, size, i + 1) == Offset(base, size, i) + size
  {}

  lemma OffsetRises(base: nat, size: nat, i: nat, j: nat)
    requires i <= j
    ensures base <= Offset(base, size, i) <= Offset(base, size, j)
  {
    assert i * size <= j * size;
  }

  lemma OffsetShift(base: nat, size: nat, i: nat, n: nat)
    ensures Offset(base, size, i + n) == Offset(base, size, i) + size * n
  {
    assert (i + n) * size == i * size + n * size;
  }

  ghost predicate Holds(m: seq<Byte>, base: nat, size: nat, n: nat) {
    Offset(base, size, n) <= |m|
  }

  function SlotAt(m: seq<Byte>, base: nat, size: nat, i: nat): seq<Byte>
    requires Offset(base, size, i) + size <= |m|
  {
    m[Offset(base, size, i)..Offset(base, size, i) + size]
  }

  lemma SlotFits(m: seq<Byte>, base: nat, size: nat, n: nat, i: nat)
    requires Holds(m, base, size, n) && i < n
    ensures Offset(base, size, i) + size <= Offset(base, size, n) <= |m|
  {
    OffsetNext(base, size, i);
    OffsetRises(base, size, i + 1, n);
  }

  ghost function Slots(m: seq<Byte>, base: nat, size: nat, n: nat): (s: seq<seq<Byte>>)
    requires Holds(m, base, size, n)
    ensures |s| == n && forall i :: 0 <= i < n ==> |s[i]| == size
  {
    if n == 0 then []
    else
      SlotFits(m, base, size, n, n - 1);
      Slots(m, base, size, n - 1) + [SlotAt(m, base, size, n - 1)]
  }

  lemma {:induction false} SlotsAt(m: seq<Byte>, base: nat, size: nat, n: nat, i: nat)
    requires Holds(m, base, size, n) && i < n
    ensures Offset(base, size, i) + size <= |m| && Slots(m, base, size, n)[i] == SlotAt(m, base, size, i)
  {
    SlotFits(m, base, size, n, i);
    SlotFits(m, base, size, n, n - 1);
    if i < n - 1 {
      SlotsAt(m, base, size, n - 1, i);
    }
  }

  /** The bytes `s` written at an offset. */
  function Patched(m: seq<Byte>, at: nat, s: seq<Byte>): (r: seq<Byte>)
    requires at + |s| <= |m|
    ensures |r| == |m|
  {
    m[..at] + s + m[at + |s|..]
  }

  /** Writing one slot leaves the others. */
  lemma {:induction false} PatchSlot(m: seq<Byte>, base: nat, size: nat, n: nat, i: nat, v: seq<Byte>)
    requires Holds(m, base, size, n) && i < n && |v| == size
    ensures Offset(base, size, i) + size <= |m|
    ensures var m' := Patched(m, Offset(base, size, i), v);
            Holds(m', base, size, n) && Slots(m', base, size, n) == Slots(m, base, size, n)[i := v]
  {
    hide Slots, Offset;
    SlotFits(m, base, size, n, i);
    var m' := Patched(m, Offset(base, size, i), v);
    forall j | 0 <= j < n ensures Slots(m', base, size, n)[j] == if j == i then v else Slots(m, base, size, n)[j] {
      SlotsAt(m, base, size, n, j);
      SlotsAt(m', base, size, n, j);
      if j < i {
        OffsetNext(base, size, j);
        OffsetRises(base, size, j + 1, i);
      } else if j > i {
        OffsetNext(base, size, i);
        OffsetRises(base, size, i + 1, j);
      }
    }
  }

  /** What lies before and behind the slots. */
  ghost predicate SameOutside(m: seq<Byte>, m': seq<Byte>, base: nat, size: nat, n: nat)
    requires Holds(m, base, size, n)
  {
    && |m'| == |m| && base <= Offset(base, size, n)
    && m'[..base] == m[..base] && m'[Offset(base, size, n)..] == m[Offset(base, size, n)..]
  }

  lemma OutsideSame(m: seq<Byte>, base: nat, size: nat, n: nat)
    requires Holds(m, base, size, n)
    ensures SameOutside(m, m, base, size, n)
  {
    OffsetRises(base, size, 0, n);
  }

  lemma OutsideTrans(m: seq<Byte>, m': seq<Byte>, m'': seq<Byte>, base: nat, size: nat, n: nat)
    requires Holds(m, base, size, n) && SameOutside(m, m', base, size, n) && SameOutside(m', m'', base, size, n)
    ensures SameOutside(m, m'', base, size, n)
  {}

  lemma PatchOutside(m: seq<Byte>, base: nat, size: nat, n: nat, i: nat, v: seq<Byte>)
    requires Holds(m, base, size, n) && i < n && |v| == size
    ensures Offset(base, size, i) + size <= |m|
    ensures SameOutside(m, Patched(m, Offset(base, size, i), v), base, size, n)
  {
    SlotFits(m, base, size, n, i);
    OffsetRises(base, size, 0, i);
    OffsetRises(base, size, 0, n);
    hide Offset;
  }

  /** Bytes with slots 0..i rotated right by one place. */
  function Rotated(m: seq<Byte>, base: nat, size: nat, i: nat): seq<Byte>
    requires Holds(m, base, size, i + 1)
  {
    OffsetNext(base, size, i);
    OffsetRises(base, size, 0, i);
    m[..base] + SlotAt(m, base, size, i) + m[base..Offset(base, size, i)] + m[Offset(base, size, i + 1)..]
  }

  /** Moving slots 0..i-1 up by one place and putting slot i in front is that rotation. */
  lemma {:induction false} RemapRotates(m: seq<Byte>, base: nat, size: nat, i: nat)
    requires Holds(m, base, size, i + 1)
    ensures base + size <= Offset(base, size, i + 1) == Offset(base, size, i) + size <= |m|
    ensures base <= Offset(base, size, i)
    ensures Patched(Patched(m, base + size, m[base..Offset(base, size, i)]), base, SlotAt(m, base, size, i)) ==
            Rotated(m, base, size, i)
  {
    OffsetNext(base, size, i);
    OffsetRises(base, size, 0, i);
    hide Offset;
  }

  lemma RotatedLength(m: seq<Byte>, base: nat, size: nat, i: nat)
    requires Holds(m, base, size, i + 1)
    ensures base + size <= Offset(base, size, i) + size <= |m| == |Rotated(m, base, size, i)|
  {
    OffsetNext(base, size, i);
    OffsetRises(base, size, 0, i);
    hide Offset;
  }

  lemma {:induction false} RotatedBytes(m: seq<Byte>, base: nat, size: nat, i: nat, k: nat)
    requires Holds(m, base, size, i + 1) && k < |m|
    ensures base + size <= Offset(base, size, i) + size <= |m| == |Rotated(m, base, size, i)|
    ensures Rotated(m, base, size, i)[k] ==
            if base <= k < base + size then m[k - base + Offset(base, size, i)]
            else if base + size <= k < Offset(base, size, i) + size then m[k - size]
            else m[k]
  {
    OffsetNext(base, size, i);
    OffsetRises(base, size, 0, i);
    hide Offset;
  }

  /** The slot that ends up in place j when slot i comes to the front. */
  function Source(i: nat, j: nat): nat {
    if j == 0 then i else if j <= i then j - 1 else j
  }

  lemma SourceFits(base: nat, size: nat, i: nat, j: nat, end: nat)
    requires Offset(base, size, i + 1) <= end && Offset(base, size, j) + size <= end
    ensures Offset(base, size, Source(i, j)) + size <= end
    ensures j == 0 ==> Offset(base, size, j) == base
    ensures 0 < j <= i ==> base + size <= Offset(base, size, j) <= Offset(base, size, i)
    ensures 0 < j <= i ==> Offset(base, size, j - 1) == Offset(base, size, j) - size
    ensures j > i ==> Offset(base, size, i) + size <= Offset(base, size, j)
  {
    OffsetNext(base, size, i);
    OffsetNext(base, size, 0);
    if 0 < j <= i {
      OffsetNext(base, size, j - 1);
      OffsetRises(base, size, 1, j);
      OffsetRises(base, size, j, i);
    } else if j > i {
      OffsetRises(base, size, i + 1, j);
    }
    assert Offset(base, size, 0) == base;
    hide Offset;
  }

  lemma {:induction false} RotatedSlotByte(m: seq<Byte>, base: nat, size: nat, i: nat, j: nat, k: nat)
    requires Holds(m, base, size, i + 1) && Offset(base, size, j) + size <= |m| && k < size
    ensures |Rotated(m, base, size, i)| == |m| && Offset(base, size, Source(i, j)) + size <= |m|
    ensures Rotated(m, base, size, i)[Offset(base, size, j) + k] == m[Offset(base, size, Source(i, j)) + k]
  {
    SourceFits(base, size, i, j, |m|);
    hide Rotated, Offset;
    RotatedLength(m, base, size, i);
    RotatedBytes(m, base, size, i, Offset(base, size, j) + k);
  }

  lemma {:induction false} RotatedSlot(m: seq<Byte>, base: nat, size: nat, i: nat, j: nat)
    requires Holds(m, base, size, i + 1) && Offset(base, size, j) + size <= |m|
    ensures |Rotated(m, base, size, i)| == |m| && Offset(base, size, Source(i, j)) + size <= |m|
    ensures SlotAt(Rotated(m, base, size, i), base, size, j) == SlotAt(m, base, size, Source(i, j))
  {
    RotatedLength(m, base, size, i);
    SourceFits(base, size, i, j, |m|);
    hide Rotated, Offset, Source;
    var a, b := SlotAt(Rotated(m, base, size, i), base, size, j), SlotAt(m, base, size, Source(i, j));
    assert |a| == |b| == size;
    forall k | 0 <= k < size ensures a[k] == b[k] {
      RotatedSlotByte(m, base, size, i, j, k);
    }
  }

  /** On slots the rotation moves slot i to the front; no byte outside the slots changes. */
  lemma {:induction false} RotateMovesToFront(m: seq<Byte>, base: nat, size: nat, n: nat, i: nat)
    requires Holds(m, base, size, n) && i < n
    ensures Holds(m, base, size, i + 1)
    ensures var r := Rotated(m, base, size, i);
            && Holds(r, base, size, n) && Slots(r, base, size, n) == MoveToFront(Slots(m, base, size, n), i)
            && SameOutside(m, r, base, size, n)
            && forall k :: Offset(base, size, i + 1) <= k < |m| ==> r[k] == m[k]
  {
    OffsetRises(base, size, i + 1, n);
    OffsetNext(base, size, i);
    RotatedLength(m, base, size, i);
    var r := Rotated(m, base, size, i);
    hide Rotated, Offset, Slots, SlotAt;
    forall k | (0 <= k < base) || Offset(base, size, i + 1) <= k < |m| ensures r[k] == m[k] {
      RotatedBytes(m, base, size, i, k);
    }
    var s, t := Slots(m, base, size, n), Slots(r, base, size, n);
    forall j | 0 <= j < n ensures t[j] == MoveToFront(s, i)[j] {
      SlotsAt(r, base, size, n, j);
      RotatedSlot(m, base, size, i, j);
      SlotsAt(m, base, size, n, Source(i, j));
    }
    assert t == MoveToFront(s, i);
  }

  class Block {
    const memory: array<Byte>
    const base: nat
    const size: nat
    const capacity: nat

    ghost predicate Valid() {
      size > 0 && capacity > 0 && Offset(base, size, capacity) <= memory.Length
    }

    constructor (memory: array<Byte>, base: nat, size: nat, capacity: nat)
      requires size > 0 && capacity > 0 && Offset(base, size, capacity) <= memory.Length
      ensures Valid() && this.memory == memory && this.base == base && this.size == size && this.capacity == capacity
    {
      this.memory, this.base, this.size, this.capacity := memory, base, size, capacity;
    }

    function Index(index: nat): nat {
      Offset(base, size, index)
    }

    method Copy(at: nat, s: seq<Byte>)
      requires at + |s| <= memory.Length
      modifies memory
      ensures memory[..] == Patched(old(memory[..]), at, s)
    {
      forall k | 0 <= k < |s| {
        memory[at + k] := s[k];
      }
    }

    method Write(obj: seq<Byte>, index: nat)
      requires Valid() && index < capacity && |obj| == size
      modifies memory
      ensures Offset(base, size, index) + size <= memory.Length
      ensures memory[..] == Patched(old(memory[..]), Offset(base, size, index), obj)
    {
      SlotFits(memory[..], base, size, capacity, index);
      Copy(Index(index), obj);
    }

    method Read(index: nat) returns (obj: seq<Byte>)
      requires Valid() && index < capacity
      ensures |obj| == size && Slots(memory[..], base, size, capacity)[index] == obj
    {
      SlotFits(memory[..], base, size, capacity, index);
      SlotsAt(memory[..], base, size, capacity, index);
      obj := memory[Index(index)..Index(index) + size];
      assert obj == memory[..][Index(index)..Index(index) + size];
    }

    /** Moves `count` slots at once, as if through a copy. */
    method Remap(dest: nat, src: nat, count: nat)
      requires Valid() && dest + count <= capacity && src + count <= capacity
      modifies memory
      ensures Offset(base, size, src) <= Offset(base, size, src + count) <= memory.Length
      ensures Offset(base, size, dest) + (Offset(base, size, src + count) - Offset(base, size, src)) <= memory.Length
      ensures var moved := old(memory[..])[Offset(base, size, src)..Offset(base, size, src + count)];
              memory[..] == Patched(old(memory[..]), Offset(base, size, dest), moved)
    {
      OffsetShift(base, size, src, count);
      OffsetShift(base, size, dest, count);
      OffsetRises(base, size, src + count, capacity);
      OffsetRises(base, size, dest + count, capacity);
      var bytes := memory[Index(src)..Index(src) + size * count];
      assert bytes == memory[..][Offset(base, size, src)..Offset(base, size, src + count)];
      Copy(Index(dest), bytes);
    }
  }
}
