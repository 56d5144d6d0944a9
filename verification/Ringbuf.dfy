/**
  Ringbuf_t: two free-running 32-bit counters, masked by a power-of-two size, implement a bounded
  first-in first-out queue. Ghost histories of everything put and everything got tie the counters,
  which wrap around, to the queue. Each method runs under the lock, so methods are atomic steps.
 */
module Ringbuf {
  import opened Bytes
  import opened Arithmetic

  /** The number of values of a 32-bit unsigned counter. */
  const WORD: nat := 0x1_0000_0000

  /** Unsigned 32-bit arithmetic: the result modulo 2^32. */
  function Wrap(x: int): (r: nat)
    ensures r < WORD
  {
    x % WORD
  }

  /** The bitwise and of two numbers. */
  function And(a: nat, b: nat): nat
    decreases a
  {
    if a == 0 || b == 0 then 0 else 2 * And(a / 2, b / 2) + if a % 2 == 1 && b % 2 == 1 then 1 else 0
  }

  /** Masking with a power of two less one is the remainder. */
  lemma {:induction false} MaskIsRemainder(a: nat, k: nat)
    ensures And(a, Power2(k) - 1) == a % Power2(k)
    decreases k
  {
    hide And;
    if k == 0 {
      MaskNothing(a);
    } else {
      var m := Power2(k - 1);
      MaskStep(a, m);
      MaskIsRemainder(a / 2, k - 1);
      HalfRemainder(a, m);
    }
  }

  lemma MaskNothing(a: nat)
    ensures And(a, 0) == 0 == a % 1
  {
  }

  lemma MaskStep(a: nat, m: nat)
    requires m > 0
    ensures And(a, 2 * m - 1) == 2 * And(a / 2, m - 1) + a % 2
  {
    assert (2 * m - 1) / 2 == m - 1 && (2 * m - 1) % 2 == 1;
  }

  lemma HalfRemainder(a: nat, m: nat)
    requires m > 0
    ensures a % (2 * m) == 2 * (a / 2 % m) + a % 2
  {
    var half := a / 2;
    var q, r := half / m, half % m;
    assert half == q * m + r;
    Regroup(2, q, m);
    DivisionIs(a, 2 * m, q, 2 * r + a % 2);
  }

  lemma WordIsPower()
    ensures Power2(32) == WORD
  {
    assert Power2(8) == 256;
    Power2Sum(8, 8);
    Power2Sum(16, 16);
  }

  // ----- slots

  /** The slot of the element with sequence number `g`. */
  function Slot(g: nat, size: nat): (r: nat)
    requires size > 0
    ensures r < size
  {
    g % size
  }

  lemma MaskIsSlot(a: nat, k: nat)
    ensures And(a, Power2(k) - 1) == Slot(a, Power2(k))
  {
    MaskIsRemainder(a, k);
  }

  /** The counter loses nothing the mask needs, although it wraps around. */
  lemma WrapSlot(g: nat, k: nat)
    requires k <= 31
    ensures Slot(Wrap(g), Power2(k)) == Slot(g, Power2(k))
  {
    Power2Sum(k, 32 - k);
    WordIsPower();
    RemainderTwice(g, WORD, Power2(k), Power2(32 - k));
  }

  lemma RemainderTwice(g: nat, word: nat, size: nat, other: nat)
    requires word == size * other && size > 0 && word > 0
    ensures g % word % size == g % size
  {
    var q, r := g / word, g % word;
    var p, slot := r / size, r % size;
    assert g == q * word + r && r == p * size + slot;
    Regroup(q, size, other);
    Distribute(q * other, p, size);
    DivisionIs(g, size, q * other + p, slot);
  }

  lemma SizeInWord(k: nat)
    requires k <= 31
    ensures 0 < Power2(k) < WORD
  {
    Power2Sum(k, 32 - k);
    WordIsPower();
    Grows2(Power2(k), Power2(32 - k));
  }

  /** `i` slots further on, once around the end of the buffer if need be. */
  function Further(slot: nat, i: nat, size: nat): int {
    if slot + i < size then slot + i else slot + i - size
  }

  lemma SlotFurther(g: nat, i: nat, size: nat)
    requires i < size
    ensures Slot(g + i, size) == Further(Slot(g, size), i, size)
  {
    var q, r := g / size, g % size;
    assert g == q * size + r;
    if r + i < size {
      DivisionIs(g + i, size, q, r + i);
    } else {
      Distribute(q, 1, size);
      DivisionIs(g + i, size, q + 1, r + i - size);
    }
  }

  /** Elements less than a whole buffer apart have different slots. */
  lemma SlotsDiffer(a: nat, b: nat, size: nat)
    requires a < b < a + size
    ensures Slot(a, size) != Slot(b, size)
  {
    SlotFurther(a, b - a, size);
  }

  lemma Grows2(a: nat, b: nat)
    requires a > 0 && b >= 2
    ensures a < a * b
  {
  }

  /** The unsigned differences the methods compute. */
  lemma Counters(puts: nat, gots: nat, size: nat)
    requires gots <= puts <= gots + size && size < WORD
    ensures Wrap(Wrap(puts) - Wrap(gots)) == puts - gots
    ensures Wrap(Wrap(size - Wrap(puts)) + Wrap(gots)) == size - (puts - gots)
    ensures Wrap(size - Wrap(Wrap(puts) - Wrap(gots))) == size - (puts - gots)
  {
    hide Wrap;
    var stored := puts - gots;
    var p, g := puts / WORD, gots / WORD;
    Wrapped(puts, p);
    Wrapped(gots, g);
    WrapTo(Wrap(puts) - Wrap(gots), stored, g - p);
    WrapTo(size - stored, size - stored, 0);
    var w := Wrap(size - Wrap(puts));
    WrapWhole(size - Wrap(puts));
    WrapTo(w + Wrap(gots), size - stored, p - g - (size - Wrap(puts)) / WORD);
  }

  lemma Wrapped(x: nat, k: int)
    requires k == x / WORD
    ensures Wrap(x) == x - k * WORD
  {
  }

  lemma WrapWhole(x: int)
    ensures Wrap(x) == x - x / WORD * WORD
  {
  }

  /** What differs by whole words from a number in range wraps to it. */
  lemma WrapTo(x: int, r: int, k: int)
    requires 0 <= r < WORD && x == r + k * WORD
    ensures Wrap(x) == r
  {
    DivisionIs(x, WORD, k, r);
  }

  lemma Advance(count: nat, n: nat)
    ensures Wrap(Wrap(count) + n) == Wrap(count + n)
  {
  }

  /** The elements from sequence number `from` on lie in their slots. */
  ghost predicate Stored<T>(slots: seq<T>, from: nat, all: seq<T>) {
    |slots| > 0 && forall j :: from <= j < |all| ==> slots[Slot(j, |slots|)] == all[j]
  }

  /** `n` slots from `slot` on, going on at the beginning behind the last one. */
  ghost predicate Covers(slot: nat, n: nat, size: nat, x: nat) {
    slot <= x < slot + n || slot <= x + size < slot + n
  }

  ghost predicate Copied<T>(before: seq<T>, after: seq<T>, slot: nat, added: seq<T>) {
    && |before| == |after| >= |added| && slot < |after|
    && (forall i :: 0 <= i < |added| ==> after[Further(slot, i, |after|)] == added[i])
    && forall x :: 0 <= x < |after| && !Covers(slot, |added|, |after|, x) ==> after[x] == before[x]
  }

  /** New elements go to free slots: nothing stored is overwritten. */
  lemma StoredMore<T>(before: seq<T>, after: seq<T>, from: nat, all: seq<T>, added: seq<T>)
    requires Stored(before, from, all) && from <= |all| && |all| + |added| <= from + |before|
    requires Copied(before, after, Slot(|all|, |before|), added)
    ensures Stored(after, from, all + added)
  {
    var size, slot := |before|, Slot(|all|, |before|);
    forall j | from <= j < |all + added| ensures after[Slot(j, size)] == (all + added)[j] {
      if |all| <= j {
        SlotFurther(|all|, j - |all|, size);
      } else {
        var x := Slot(j, size);
        if Covers(slot, |added|, size, x) {
          var i := if slot <= x < slot + |added| then x - slot else x + size - slot;
          SlotFurther(|all|, i, size);
          SlotsDiffer(j, |all| + i, size);
        }
      }
    }
  }

  function Min(a: nat, b: nat): nat {
    if a < b then a else b
  }

  class Ringbuf<T(0)> {
    const size: nat
    ghost const bits: nat
    var counterIn: nat
    var counterOut: nat
    const buf: array<T>
    ghost var puts: seq<T>
    ghost var gots: seq<T>

    constructor (size: nat, ghost bits: nat)
      requires bits <= 31 && size == Power2(bits)
      ensures Valid() && Contents() == [] && this.size == size && fresh(buf)
    {
      this.size, this.bits := size, bits;
      counterIn, counterOut := 0, 0;
      buf := new T[size];
      puts, gots := [], [];
    }

    /**
      Everything got is a prefix of everything put, the counters are the lengths of the histories
      modulo 2^32, and what is put and not yet got lies in the slots of the masked counters.
     */
    ghost predicate Valid()
      reads this, buf
    {
      && bits <= 31 && size == Power2(bits) == buf.Length
      && counterIn == Wrap(|puts|) && counterOut == Wrap(|gots|)
      && gots <= puts && |puts| - |gots| <= size && Stored(buf[..], |gots|, puts)
    }

    /** The queue. */
    ghost function Contents(): seq<T>
      reads this, buf
      requires Valid()
    {
      puts[|gots|..]
    }

    /** What the unsigned differences and the masked counters are. */
    lemma CountersMean()
      requires Valid()
      ensures 0 < size < WORD
      ensures And(counterIn, size - 1) == Slot(|puts|, size) && And(counterOut, size - 1) == Slot(|gots|, size)
      ensures Wrap(counterIn - counterOut) == |Contents()|
      ensures Wrap(Wrap(size - counterIn) + counterOut) == size - |Contents()|
      ensures Wrap(size - Wrap(counterIn - counterOut)) == size - |Contents()|
    {
      hide And, Stored, Power2, Slot, Wrap;
      SizeInWord(bits);
      WrapSlot(|puts|, bits);
      WrapSlot(|gots|, bits);
      MaskIsSlot(counterIn, bits);
      MaskIsSlot(counterOut, bits);
      Counters(|puts|, |gots|, size);
    }

    /** reset */
    method Reset()
      requires Valid()
      modifies this
      ensures Valid() && Contents() == [] && puts == [] && gots == []
    {
      counterIn, counterOut := 0, 0;
      puts, gots := [], [];
    }

    /** Copies `n` elements to consecutive slots, going on at the beginning behind the last slot. */
    method CopyIn(obj: array<T>, slot: nat, n: nat)
      requires obj != buf && n <= obj.Length && n <= buf.Length && slot < buf.Length
      modifies buf
      ensures Copied(old(buf[..]), buf[..], slot, obj[..n])
    {
      var l := Min(n, buf.Length - slot);
      forall i | 0 <= i < l {
        buf[slot + i] := obj[i];
      }
      forall i | 0 <= i < n - l {
        buf[i] := obj[l + i];
      }
    }

    /** put: the elements that fit go to the end of the queue. */
    method Put(obj: array<T>, num: nat) returns (base: nat, numPut: nat)
      requires Valid() && obj != buf && num <= obj.Length && num < WORD
      modifies this`counterIn, this`puts, buf
      ensures Valid() && numPut == Min(num, size - |old(Contents())|) && base == Slot(|old(puts)|, size)
      ensures Contents() == old(Contents()) + obj[..numPut] && puts == old(puts) + obj[..numPut]
    {
      hide And, Wrap, Slot, Stored, Copied, Power2;
      CountersMean();
      numPut := Min(num, Wrap(Wrap(size - counterIn) + counterOut));
      base := And(counterIn, size - 1);
      CopyIn(obj, base, numPut);
      StoredMore(old(buf[..]), buf[..], |gots|, puts, obj[..numPut]);
      Advance(|puts|, numPut);
      counterIn := Wrap(counterIn + numPut);
      puts := puts + obj[..numPut];
    }

    /** Copies `n` elements from consecutive slots. */
    method CopyOut(obj: array<T>, slot: nat, n: nat)
      requires obj != buf && n <= obj.Length && n <= buf.Length && slot < buf.Length
      modifies obj
      ensures forall i :: 0 <= i < n ==> obj[i] == buf[Further(slot, i, buf.Length)]
      ensures forall i :: n <= i < obj.Length ==> obj[i] == old(obj[i])
    {
      var l := Min(n, buf.Length - slot);
      forall i | 0 <= i < l {
        obj[i] := buf[slot + i];
      }
      forall i | 0 <= i < n - l {
        obj[l + i] := buf[i];
      }
    }

    /** get: the oldest elements leave the queue. */
    method Get(obj: array<T>, num: nat) returns (base: nat, numGet: nat)
      requires Valid() && obj != buf && num <= obj.Length && num < WORD
      modifies this`counterOut, this`gots, obj
      ensures Valid() && numGet == Min(num, |old(Contents())|) && base == Slot(|old(gots)|, size)
      ensures obj[..numGet] == old(Contents())[..numGet] && Contents() == old(Contents())[numGet..]
      ensures gots == old(gots) + obj[..numGet] && obj[numGet..] == old(obj[numGet..])
    {
      hide And, Wrap, Slot, Power2;
      CountersMean();
      numGet := Min(num, Wrap(counterIn - counterOut));
      base := And(counterOut, size - 1);
      CopyOut(obj, base, numGet);
      forall i | 0 <= i < numGet ensures obj[i] == Contents()[i] {
        SlotFurther(|gots|, i, size);
      }
      Advance(|gots|, numGet);
      counterOut := Wrap(counterOut + numGet);
      gots := gots + obj[..numGet];
    }

    /** get_obj_number */
    method GetObjNumber() returns (n: nat)
      requires Valid()
      ensures n == |Contents()| <= size
    {
      CountersMean();
      return Wrap(counterIn - counterOut);
    }

    /** get_free_obj_number */
    method GetFreeObjNumber() returns (n: nat)
      requires Valid()
      ensures n + |Contents()| == size
    {
      CountersMean();
      return Wrap(size - Wrap(counterIn - counterOut));
    }

    /** get_read_addr: the slot of the oldest element, NULL if there is none. */
    method GetReadAddr() returns (addr: Option<nat>)
      requires Valid()
      ensures addr == None <==> Contents() == []
      ensures addr.Some? ==> addr.value < size && buf[addr.value] == Contents()[0]
    {
      CountersMean();
      if Wrap(counterIn - counterOut) > 0 {
        return Some(And(counterOut, size - 1));
      }
      return None;
    }

    /** The k-th slot behind the read position: the slot of the k-th element, if there are so many. */
    ghost function SlotBehind(k: nat): nat
      reads this, buf
      requires Valid()
    {
      Slot(|gots| + k, size)
    }

    /** The k-th stored element lies in the k-th slot behind the read position, and k is what find answers there. */
    lemma StoredIsFound(k: nat)
      requires Valid() && k < |Contents()|
      ensures SlotBehind(k) < size && buf[SlotBehind(k)] == Contents()[k]
      ensures FindResult(k, |Contents()|, size - SlotBehind(0)) == k
    {
      hide Slot, Wrap;
      assert buf[..][Slot(|gots| + k, |buf[..]|)] == puts[|gots| + k];
    }

    /** find: where the slot `addr` is in the queue, as the two loops see it. */
    method Find(addr: nat) returns (r: nat)
      requires Valid() && addr < size
      ensures forall k :: 0 <= k < size && addr == SlotBehind(k) ==>
        r == FindResult(k, |Contents()|, size - SlotBehind(0))
    {
      hide And, Wrap, Slot, Power2, Stored;
      CountersMean();
      var base := And(counterOut, size - 1);
      ghost var position := if base <= addr then addr - base else addr + size - base;
      forall k | 0 <= k < size && addr == SlotBehind(k) ensures k == position {
        SlotFurther(|gots|, k, size);
      }
      if Wrap(counterIn - counterOut) == 0 {
        return 0;
      }
      var l := size - base;
      var i := 0;
      while i < l
        invariant 0 <= i <= l && (position < l ==> i <= position)
      {
        if addr == base + i {
          return i;
        }
        i := i + 1;
      }
      var s := Wrap(Wrap(counterIn - counterOut) - l);
      Underflow(|Contents()|, l);
      i := 0;
      while i < s
        invariant 0 <= i <= s && i <= addr
      {
        if addr == i {
          return i + l;
        }
        i := i + 1;
      }
      return 0;
    }
  }

  /**
    What find answers for the k-th slot behind the read position, with `stored` elements and `l`
    slots up to the end of the buffer. If the elements do not reach that end, the unsigned
    difference of the second loop wraps around, and free slots are reported as if they were taken.
   */
  function FindResult(k: nat, stored: nat, l: nat): nat {
    if stored == 0 then 0 else if k < stored || stored < l then k else 0
  }

  lemma Underflow(stored: nat, l: nat)
    requires stored < WORD && l < WORD
    ensures Wrap(stored - l) == if l <= stored then stored - l else WORD + stored - l
  {
  }

  /** Exactly when find answers "not found" for every free slot; otherwise it answers as if they were taken. */
  lemma FreeIsNotFound(stored: nat, l: nat, size: nat)
    requires stored <= size && 0 < l <= size
    ensures 0 < stored < l ==> forall k :: stored <= k < size ==> FindResult(k, stored, l) == k
    ensures (forall k :: stored <= k < size ==> FindResult(k, stored, l) == 0) <==> stored == 0 || l <= stored
  {
    if 0 < stored < l {
      assert FindResult(stored, stored, l) == stored;
    }
  }
}
