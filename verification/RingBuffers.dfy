/**
 * utils/ringbuffer/ringbuffer.h: the ring macros. Pointers and sizes are uint32_t, so every sum and
 * difference is taken modulo 2^32 before it is masked with size - 1.
 */
module RingBuffers {
  import opened Arithmetic

  const TWO_32: nat := 0x1_0000_0000

  // ---------- masked arithmetic ----------

  /** Bitwise and of two unsigned numbers, bit by bit. */
  function And(a: nat, b: nat): nat {
    if a == 0 || b == 0 then 0
    else 2 * And(a / 2, b / 2) + (if a % 2 == 1 && b % 2 == 1 then 1 else 0)
  }

  function Pow2(k: nat): (n: nat)
    ensures n >= 1
  {
    if k == 0 then 1 else 2 * Pow2(k - 1)
  }

  /** The sizes a uint32_t can hold for which the masks are meant. */
  ghost predicate IsPow2(n: nat) {
    exists k: nat :: k < 32 && n == Pow2(k)
  }

  lemma HalfMod(a: nat, h: nat)
    requires h > 0
    ensures a % (2 * h) == 2 * ((a / 2) % h) + a % 2
  {
    var q, t := (a / 2) / h, (a / 2) % h;
    assert a / 2 == h * q + t;
    assert 2 * (h * q) == (2 * h) * q;
    DivModUnique(a, 2 * h, q, 2 * t + a % 2);
  }

  lemma AndOdd(a: nat, h: nat)
    requires h > 0
    ensures And(a, 2 * h - 1) == 2 * And(a / 2, h - 1) + a % 2
  {
    assert (2 * h - 1) / 2 == h - 1 && (2 * h - 1) % 2 == 1;
  }

  lemma AndZero(a: nat)
    ensures And(a, 0) == 0
  {
  }

  /** Masking with 2^k - 1 is reduction modulo 2^k. */
  lemma {:induction false} AndMask(a: nat, k: nat)
    ensures And(a, Pow2(k) - 1) == a % Pow2(k)
    decreases k
  {
    hide And;
    if k == 0 {
      AndZero(a);
    } else {
      var h := Pow2(k - 1);
      AndMask(a / 2, k - 1);
      HalfMod(a, h);
      AndOdd(a, h);
    }
  }

  lemma {:induction false} Pow2Divides(k: nat, n: nat)
    requires k <= n
    ensures Pow2(n) == Pow2(k) * Pow2(n - k)
    decreases n - k
  {
    if k < n {
      Pow2Divides(k, n - 1);
      assert Pow2(n) == 2 * (Pow2(k) * Pow2(n - 1 - k));
      assert Pow2(n - k) == 2 * Pow2(n - k - 1);
    }
  }

  /** One step of a pointer: (p + 1u) & (size - 1u). */
  function Inc(p: nat, size: nat): nat
    requires size > 0
  {
    And((p + 1) % TWO_32, size - 1)
  }

  /** The distance from r to w: (w - r) & (size - 1u), where w - r wraps when w < r. */
  function Distance(w: nat, r: nat, size: nat): nat
    requires size > 0
  {
    And((w - r) % TWO_32, size - 1)
  }

  lemma SizeDivides(size: nat) returns (k: nat, m: nat)
    requires IsPow2(size)
    ensures size == Pow2(k) && size > 0 && m >= 2 && size * m == TWO_32
  {
    k :| k < 32 && size == Pow2(k);
    m := Pow2(32 - k);
    Pow2Divides(k, 32);
    Pow2Of32();
    assert m == 2 * Pow2(31 - k);
  }

  lemma Pow2Of32()
    ensures Pow2(32) == TWO_32
  {
    assert Pow2(8) == 256 by {
      assert Pow2(4) == 16;
      Pow2Divides(4, 8);
    }
    Pow2Divides(8, 16);
    Pow2Divides(16, 32);
  }

  lemma SizeBelow(size: nat, m: nat)
    requires m >= 2 && size * m == TWO_32
    ensures 2 * size <= TWO_32
  {
    assert size * m == 2 * size + size * (m - 2);
  }

  /** For every power-of-two size and all pointers in range the masks compute modulo the size. */
  lemma MasksAreModular(p: nat, w: nat, r: nat, size: nat)
    requires IsPow2(size) && p < size && w < size && r < size
    ensures Inc(p, size) == (p + 1) % size == (if p + 1 == size then 0 else p + 1)
    ensures Distance(w, r, size) == (w - r) % size == (if r <= w then w - r else w - r + size)
  {
    var k, m := SizeDivides(size);
    SizeBelow(size, m);
    IncIsModular(p, k);
    DistanceIsModular(w, r, k, m);
  }

  lemma IncIsModular(p: nat, k: nat)
    requires p < Pow2(k) && 2 * Pow2(k) <= TWO_32
    ensures Inc(p, Pow2(k)) == (p + 1) % Pow2(k) == (if p + 1 == Pow2(k) then 0 else p + 1)
  {
    AndMask((p + 1) % TWO_32, k);
    DivModUnique(p + 1, TWO_32, 0, p + 1);
    var wraps := p + 1 == Pow2(k);
    DivModUnique(p + 1, Pow2(k), if wraps then 1 else 0, if wraps then 0 else p + 1);
  }

  lemma DistanceIsModular(w: nat, r: nat, k: nat, m: nat)
    requires w < Pow2(k) && r < Pow2(k) && Pow2(k) * m == TWO_32 && m >= 2
    ensures Distance(w, r, Pow2(k)) == (w - r) % Pow2(k) == (if r <= w then w - r else w - r + Pow2(k))
  {
    var size := Pow2(k);
    var wrapped := (w - r) % TWO_32;
    AndMask(wrapped, k);
    SizeBelow(size, m);
    if r <= w {
      DivModUnique(w - r, TWO_32, 0, w - r);
      DivModUnique(w - r, size, 0, w - r);
    } else {
      DivModUnique(w - r, TWO_32, -1, w - r + TWO_32);
      DivModUnique(w - r, size, -1, w - r + size);
      assert size * (m - 1) == TWO_32 - size;
      DivModUnique(w - r + TWO_32, size, m - 1, w - r + size);
    }
  }

  // ---------- the ring as a value ----------

  datatype Ring<T> = Ring(data: seq<T>, size: nat, readPtr: nat, writePtr: nat)

  ghost predicate InRange<T>(b: Ring<T>) {
    IsPow2(b.size) && |b.data| == b.size && b.readPtr < b.size && b.writePtr < b.size
  }

  function GetLen<T>(b: Ring<T>): nat
    requires b.size > 0
  {
    Distance(b.writePtr, b.readPtr, b.size)
  }

  predicate IsEmpty<T>(b: Ring<T>) {
    b.readPtr == b.writePtr
  }

  predicate IsFull<T>(b: Ring<T>)
    requires b.size > 0
  {
    GetLen(b) == b.size - 1
  }

  function IncWrite<T>(b: Ring<T>): Ring<T>
    requires b.size > 0
  {
    b.(writePtr := Inc(b.writePtr, b.size))
  }

  function IncRead<T>(b: Ring<T>): Ring<T>
    requires b.size > 0
  {
    b.(readPtr := Inc(b.readPtr, b.size))
  }

  /** Storing into the slot at the write pointer, which is not yet part of the contents. */
  function Put<T>(b: Ring<T>, x: T): Ring<T>
    requires b.writePtr < |b.data|
  {
    b.(data := b.data[b.writePtr := x])
  }

  /** The i-th slot of the contents, counted from the read pointer. */
  function SlotAt<T>(b: Ring<T>, i: nat): (k: nat)
    requires b.readPtr < b.size && i < b.size
    ensures k < b.size
  {
    if b.readPtr + i < b.size then b.readPtr + i else b.readPtr + i - b.size
  }

  /** The queue a ring stands for, oldest first. */
  ghost function Contents<T>(b: Ring<T>): (q: seq<T>)
    requires InRange(b)
    ensures |q| == GetLen(b) < b.size
  {
    MasksAreModular(0, b.writePtr, b.readPtr, b.size);
    seq(GetLen(b), i requires 0 <= i < GetLen(b) => b.data[SlotAt(b, i)])
  }

  // ---------- a ring is a bounded queue of size - 1 places ----------

  lemma EmptyAndFull<T>(b: Ring<T>)
    requires InRange(b)
    ensures IsEmpty(b) <==> Contents(b) == []
    ensures IsFull(b) <==> |Contents(b)| == b.size - 1
    ensures !IsEmpty(b) ==> Contents(b)[0] == b.data[b.readPtr]
    ensures !IsEmpty(b) && !IsFull(b) ==> b.readPtr != b.writePtr
  {
    MasksAreModular(0, b.writePtr, b.readPtr, b.size);
  }

  /** Writing the free slot leaves the queue alone, however often it is done. */
  lemma PutKeepsContents<T>(b: Ring<T>, x: T)
    requires InRange(b)
    ensures InRange(Put(b, x)) && Contents(Put(b, x)) == Contents(b)
  {
    MasksAreModular(0, b.writePtr, b.readPtr, b.size);
  }

  lemma IncWriteAppends<T>(b: Ring<T>)
    requires InRange(b) && !IsFull(b)
    ensures InRange(IncWrite(b)) && Contents(IncWrite(b)) == Contents(b) + [b.data[b.writePtr]]
  {
    var b' := IncWrite(b);
    MasksAreModular(b.writePtr, b.writePtr, b.readPtr, b.size);
    MasksAreModular(0, b'.writePtr, b.readPtr, b.size);
    assert GetLen(b') == GetLen(b) + 1;
    assert forall i :: 0 <= i < GetLen(b') ==> SlotAt(b', i) == SlotAt(b, i);
    assert SlotAt(b', GetLen(b)) == b.writePtr;
  }

  lemma IncReadDrops<T>(b: Ring<T>)
    requires InRange(b) && !IsEmpty(b)
    ensures InRange(IncRead(b)) && Contents(b) == [b.data[b.readPtr]] + Contents(IncRead(b))
  {
    var b' := IncRead(b);
    MasksAreModular(b.readPtr, b.writePtr, b.readPtr, b.size);
    MasksAreModular(0, b.writePtr, b'.readPtr, b.size);
    assert GetLen(b') == GetLen(b) - 1;
    assert forall i :: 0 <= i < GetLen(b') ==> SlotAt(b', i) == SlotAt(b, i + 1);
  }

  // ---------- the ring in memory ----------

  class RingBuffer<T(0)> {
    const data: array<T>
    const size: nat
    var readPtr: nat
    var writePtr: nat

    ghost function View(): Ring<T>
      reads this, data
    {
      Ring(data[..], size, readPtr, writePtr)
    }

    ghost predicate Valid()
      reads this, data
    {
      InRange(View())
    }

    /** ringbuffer_init: a static buffer, so every slot starts as zero. */
    constructor (size: nat, zero: T)
      requires IsPow2(size)
      ensures Valid() && fresh(data)
      ensures View() == Ring(seq(size, _ => zero), size, 0, 0)
    {
      data := new T[size](_ => zero);
      this.size := size;
      readPtr := 0;
      writePtr := 0;
    }

    method IncWritePtr()
      requires Valid()
      modifies this`writePtr
      ensures Valid() && View() == IncWrite(old(View()))
    {
      MasksAreModular(writePtr, writePtr, readPtr, size);
      writePtr := Inc(writePtr, size);
    }

    method IncReadPtr()
      requires Valid()
      modifies this`readPtr
      ensures Valid() && View() == IncRead(old(View()))
    {
      MasksAreModular(readPtr, writePtr, readPtr, size);
      readPtr := Inc(readPtr, size);
    }

    /** ringbuffer_write: the value goes in before the pointer moves. */
    method Write(x: T)
      requires Valid()
      modifies this`writePtr, data
      ensures Valid() && View() == IncWrite(Put(old(View()), x))
      ensures !IsFull(old(View())) ==> Contents(View()) == Contents(old(View())) + [x]
    {
      ghost var b := View();
      data[writePtr] := x;
      assert View() == Put(b, x);
      PutKeepsContents(b, x);
      if !IsFull(b) {
        IncWriteAppends(Put(b, x));
      }
      IncWritePtr();
    }

    /** ringbuffer_read: the value comes out before the pointer moves. */
    method Read() returns (x: T)
      requires Valid()
      modifies this`readPtr
      ensures Valid() && View() == IncRead(old(View()))
      ensures x == old(data[readPtr])
      ensures !IsEmpty(old(View())) ==> Contents(old(View())) == [x] + Contents(View())
    {
      x := data[readPtr];
      if readPtr != writePtr {
        IncReadDrops(View());
      }
      IncReadPtr();
    }

    /** ringbuffer_getlen, ringbuffer_isEmpty and ringbuffer_isFull read together. */
    method Status() returns (len: nat, empty: bool, full: bool)
      requires Valid()
      ensures len == |Contents(View())|
      ensures empty <==> Contents(View()) == []
      ensures full <==> |Contents(View())| == size - 1
    {
      EmptyAndFull(View());
      len := Distance(writePtr, readPtr, size);
      empty := readPtr == writePtr;
      full := len == size - 1;
    }
  }
}
