/**
 The C integers the rings are built on: 32-bit counters that wrap, casts to `int`,
 truncating division, and the bitwise `&` that turns a counter into a slot number.
 */
module Words {

  const TWO_31: int := 0x8000_0000
  const TWO_32: int := 0x1_0000_0000
  const TWO_64: int := 0x1_0000_0000_0000_0000

  type u32 = x: int | 0 <= x < 0x1_0000_0000

  /** Reduction of an arithmetic result to `unsigned`. */
  function Wrap32(x: int): u32 {
    x % 0x1_0000_0000
  }

  /** How far `tail` is ahead of `head` when both are free-running counters: `tail - head` on 32 bits. */
  function Lag(head: u32, tail: u32): u32 {
    Wrap32(tail + (TWO_32 - head))
  }

  /** The cast `(int) x` of a wider integer. */
  function Int32(x: int): int {
    var w := x % TWO_32;
    if w < TWO_31 then w else w - TWO_32
  }

  /** C's `/`, which truncates toward zero. */
  function TruncDiv(a: int, b: int): int
    requires b > 0
  {
    if a >= 0 then a / b else -((-a) / b)
  }

  /** C's `%`, whose sign is the dividend's. */
  function TruncMod(a: int, b: int): int
    requires b > 0
  {
    if a >= 0 then a % b else -((-a) % b)
  }

  function Min(a: int, b: int): int {
    if a <= b then a else b
  }

  function Pow2(k: nat): (p: nat)
    ensures p > 0
  {
    if k == 0 then 1 else 2 * Pow2(k - 1)
  }

  /** Bitwise `&`, one bit at a time. */
  function BitAnd(x: nat, y: nat): (r: nat)
    ensures r <= y
  {
    if x == 0 || y == 0 then 0
    else 2 * BitAnd(x / 2, y / 2) + (if x % 2 == 1 && y % 2 == 1 then 1 else 0)
  }

  /** `counter & ring_mask`, where the mask is one less than the number of entries. */
  function Slot(counter: u32, entries: nat): (slot: nat)
    requires entries > 0
    ensures slot < entries
  {
    BitAnd(counter, entries - 1)
  }

  /** A number of ring entries: a power of two that a 32-bit counter can tell apart. */
  ghost predicate IsRingSize(entries: nat) {
    exists k: nat :: k <= 31 && entries == Pow2(k)
  }

  /** A product with a positive factor is at least as large in size as that factor. */
  lemma MulBounds(m: int, d: int)
    requires m > 0
    ensures d >= 1 ==> m * d >= m
    ensures d <= 0 ==> m * d <= 0
    ensures d <= -1 ==> m * d <= -m
  {
  }

  /** A quotient and a small enough remainder are the ones division finds. */
  lemma ResidueIs(x: int, m: int, q: int, r: int)
    requires m > 0 && x == m * q + r && 0 <= r < m
    ensures x / m == q && x % m == r
  {
    DivisionIsUnique(m, q, r, x / m, x % m);
  }

  lemma DivisionIsUnique(m: int, q: int, r: int, q': int, r': int)
    requires m > 0 && m * q + r == m * q' + r' && 0 <= r < m && 0 <= r' < m
    ensures q == q' && r == r'
  {
    MulBounds(m, q - q');
    assert m * (q - q') == m * q - m * q';
  }

  lemma HalveResidue(x: nat, p: nat)
    requires p > 0
    ensures x % (2 * p) == 2 * ((x / 2) % p) + x % 2
  {
    var h := x / 2;
    var q, r := h / p, h % p;
    assert 2 * (p * q) == (2 * p) * q;
    ResidueIs(x, 2 * p, q, 2 * r + x % 2);
  }

  lemma {:induction false} MaskIsResidue(x: nat, k: nat)
    ensures BitAnd(x, Pow2(k) - 1) == x % Pow2(k)
    decreases x, k, 1
  {
    if k == 0 {
      assert Pow2(k) == 1;
    } else if x == 0 {
      ResidueIs(x, Pow2(k), 0, 0);
    } else {
      var p := Pow2(k - 1);
      assert Pow2(k) == 2 * p;
      MaskStep(x, k, p);
    }
  }

  lemma MaskStep(x: nat, k: nat, p: nat)
    requires x > 0 && k > 0 && p == Pow2(k - 1)
    ensures BitAnd(x, 2 * p - 1) == x % (2 * p)
    decreases x, k, 0
  {
    MaskIsResidue(x / 2, k - 1);
    assert BitAnd(x / 2, p - 1) == (x / 2) % p;
    LowBits(x, p);
    HalveResidue(x, p);
  }

  lemma LowBits(x: nat, p: nat)
    requires x > 0 && p > 0
    ensures BitAnd(x, 2 * p - 1) == 2 * BitAnd(x / 2, p - 1) + x % 2
  {
    assert (2 * p - 1) / 2 == p - 1 && (2 * p - 1) % 2 == 1;
  }

  lemma {:induction false} Pow2Divides(k: nat, n: nat)
    requires k <= n
    ensures Pow2(n) == Pow2(k) * Pow2(n - k)
    decreases n - k
  {
    if k < n {
      Pow2Divides(k, n - 1);
      assert Pow2(n) == 2 * (Pow2(k) * Pow2(n - 1 - k));
      assert Pow2(n - k) == 2 * Pow2(n - 1 - k);
    }
  }

  lemma Pow2Of32()
    ensures Pow2(32) == TWO_32
  {
    assert Pow2(8) == 256;
    Pow2Divides(8, 16);
    Pow2Divides(16, 32);
  }

  /** Reducing modulo a multiple first changes no residue. */
  lemma ResidueOfResidue(x: int, a: int, b: int)
    requires a > 0 && b > 0
    ensures a * b > 0 && (x % (a * b)) % a == x % a
  {
    assert a * b > 0;
    var q, r := x / (a * b), x % (a * b);
    assert x == (a * b) * q + r;
    var q', r' := r / a, r % a;
    assert r == a * q' + r';
    assert x == a * (b * q + q') + r' by {
      assert (a * b) * q == a * (b * q);
      assert a * (b * q + q') == a * (b * q) + a * q';
    }
    ResidueIs(x, a, b * q + q', r');
  }

  /** The slot of a counter is its residue, and wrapping the counter does not change it. */
  lemma SlotIsResidue(x: nat, entries: nat)
    requires IsRingSize(entries)
    ensures Slot(Wrap32(x), entries) == x % entries
  {
    var k: nat :| k <= 31 && entries == Pow2(k);
    MaskIsResidue(Wrap32(x), k);
    Pow2Of32();
    Pow2Divides(k, 32);
    ResidueOfResidue(x, entries, Pow2(32 - k));
  }

  lemma CloseResiduesDiffer(x: int, y: int, m: int)
    requires m > 0 && x < y < x + m
    ensures x % m != y % m
  {
    var d := y / m - x / m;
    MulBounds(m, d);
    MulBounds(m, d - 1);
    assert m * d == m * (y / m) - m * (x / m);
    assert m * (d - 1) == m * d - m;
  }

  lemma ResidueRepeats(x: int, m: int)
    requires m > 0
    ensures (x + m) % m == x % m
  {
    assert m * (x / m + 1) == m * (x / m) + m;
    ResidueIs(x + m, m, x / m + 1, x % m);
  }

  lemma WrapCases(x: int)
    requires -TWO_32 <= x < 2 * TWO_32
    ensures Wrap32(x) == if x < 0 then x + TWO_32 else if x < TWO_32 then x else x - TWO_32
  {
  }

  /** A counter incremented `n` times. */
  function Advance(counter: u32, n: nat): u32 {
    if n == 0 then counter else Wrap32(Advance(counter, n - 1) + 1)
  }

  lemma {:induction false} AdvanceTwice(counter: u32, m: nat, n: nat)
    ensures Advance(Advance(counter, m), n) == Advance(counter, m + n)
  {
    if n > 0 {
      AdvanceTwice(counter, m, n - 1);
    }
  }

  lemma {:induction false} AdvanceIsSum(counter: u32, n: nat)
    ensures Advance(counter, n) == Wrap32(counter + n)
  {
    if n > 0 {
      AdvanceIsSum(counter, n - 1);
      WrapNext(counter + n - 1);
    }
  }

  /** Incrementing a wrapped counter is wrapping the incremented one. */
  lemma WrapNext(x: nat)
    ensures Wrap32(Wrap32(x) + 1) == Wrap32(x + 1)
  {
    ResidueIs(x + 1, TWO_32, (Wrap32(x) + 1) / TWO_32 + x / TWO_32, Wrap32(Wrap32(x) + 1));
  }

  /** The slot of the counter `i` past `head`. */
  function SlotAt(head: u32, i: nat, entries: nat): (slot: nat)
    requires entries > 0
    ensures slot < entries
  {
    Slot(Wrap32(head + i), entries)
  }

  lemma SlotAtShift(head: u32, i: nat, entries: nat)
    requires entries > 0
    ensures SlotAt(Wrap32(head + 1), i, entries) == SlotAt(head, i + 1, entries)
  {
    WrapCases(head + 1);
    ResidueRepeats(Wrap32(head + 1) + i, TWO_32);
  }

  /** Counters less than a ring apart, taken across the 32-bit wrap or not, have different slots. */
  lemma SlotsDiffer(head: u32, i: nat, j: nat, entries: nat)
    requires IsRingSize(entries)
    requires i < j < i + entries
    ensures SlotAt(head, i, entries) != SlotAt(head, j, entries)
  {
    SlotIsResidue(head + i, entries);
    SlotIsResidue(head + j, entries);
    CloseResiduesDiffer(head + i, head + j, entries);
  }

  /** A full ring apart, the slots are the same. */
  lemma SlotsRepeat(head: u32, entries: nat)
    requires IsRingSize(entries)
    ensures SlotAt(head, 0, entries) == SlotAt(head, entries, entries)
  {
    SlotIsResidue(head, entries);
    SlotIsResidue(head + entries, entries);
    ResidueRepeats(head, entries);
  }

  ghost predicate DistinctSlots(head: u32, n: nat, entries: nat)
    requires entries > 0
  {
    forall i: nat, j: nat :: i < j < n ==> SlotAt(head, i, entries) != SlotAt(head, j, entries)
  }

  /** A window of consecutive counters has a slot for each exactly when it is no longer than the ring. */
  lemma WindowFitsIff(head: u32, n: nat, entries: nat)
    requires IsRingSize(entries)
    ensures DistinctSlots(head, n, entries) <==> n <= entries
  {
    if n <= entries {
      forall i: nat, j: nat | i < j < n
        ensures SlotAt(head, i, entries) != SlotAt(head, j, entries)
      {
        SlotsDiffer(head, i, j, entries);
      }
    } else {
      SlotsRepeat(head, entries);
    }
  }

  /** The queue a ring stores: the contents of the `n` slots from counter `head` on. */
  function Window<T>(slots: seq<T>, head: u32, n: nat): (w: seq<T>)
    requires |slots| > 0
    ensures |w| == n
  {
    seq(n, i requires 0 <= i < n => slots[SlotAt(head, i, |slots|)])
  }

  /** Writing the slot just past the window and counting it in appends to the queue. */
  lemma WindowPush<T>(slots: seq<T>, head: u32, n: nat, v: T)
    requires IsRingSize(|slots|) && n < |slots|
    ensures var written := slots[SlotAt(head, n, |slots|) := v];
            && Window(written, head, n) == Window(slots, head, n)
            && Window(written, head, n + 1) == Window(slots, head, n) + [v]
  {
    var written := slots[SlotAt(head, n, |slots|) := v];
    forall i: nat | i < n
      ensures written[SlotAt(head, i, |slots|)] == slots[SlotAt(head, i, |slots|)]
    {
      SlotsDiffer(head, i, n, |slots|);
    }
  }

  /** Counting the first slot out removes the oldest element. */
  lemma WindowPop<T>(slots: seq<T>, head: u32, n: nat)
    requires |slots| > 0 && n > 0
    ensures Window(slots, head, n)[0] == slots[Slot(head, |slots|)]
    ensures Window(slots, Wrap32(head + 1), n - 1) == Window(slots, head, n)[1..]
  {
    assert SlotAt(head, 0, |slots|) == Slot(head, |slots|);
    forall i: nat | 0 < i < n
      ensures SlotAt(Wrap32(head + 1), i - 1, |slots|) == SlotAt(head, i, |slots|)
    {
      SlotAtShift(head, i - 1, |slots|);
    }
  }

  /** The same of the window that ends at the counter `tail`. */
  lemma WindowRest<T>(slots: seq<T>, head: u32, tail: u32)
    requires |slots| > 0 && head != tail
    ensures Lag(head, tail) > 0 && Lag(Wrap32(head + 1), tail) == Lag(head, tail) - 1
    ensures Window(slots, head, Lag(head, tail))[0] == slots[Slot(head, |slots|)]
    ensures Window(slots, Wrap32(head + 1), Lag(Wrap32(head + 1), tail)) == Window(slots, head, Lag(head, tail))[1..]
  {
    LagFacts(head, tail);
    WindowPop(slots, head, Lag(head, tail));
  }

  /** Counter arithmetic as plain arithmetic, as long as the lag itself does not overflow. */
  lemma LagFacts(head: u32, tail: u32)
    ensures Wrap32(head + Lag(head, tail)) == tail
    ensures Lag(head, tail) < TWO_32 - 1 ==> Lag(head, Wrap32(tail + 1)) == Lag(head, tail) + 1
    ensures Lag(head, tail) > 0 ==> Lag(Wrap32(head + 1), tail) == Lag(head, tail) - 1
    ensures head != tail <==> Lag(head, tail) > 0
  {
    WrapCases(tail + (TWO_32 - head));
    WrapCases(head + Lag(head, tail));
    WrapCases(tail + 1);
    WrapCases(Wrap32(tail + 1) + (TWO_32 - head));
    WrapCases(head + 1);
    WrapCases(tail + (TWO_32 - Wrap32(head + 1)));
  }

  lemma WindowSnoc<T>(slots: seq<T>, head: u32, n: nat)
    requires |slots| > 0
    ensures Window(slots, head, n + 1) == Window(slots, head, n) + [slots[SlotAt(head, n, |slots|)]]
  {
  }

  lemma SlotAtTail(head: u32, tail: u32, entries: nat)
    requires entries > 0
    ensures SlotAt(head, Lag(head, tail), entries) == Slot(tail, entries)
  {
    LagFacts(head, tail);
  }

  /** When the tail moves on, the slot at the old tail comes into view, or none does at the end of the range. */
  lemma WindowGrows<T>(slots: seq<T>, head: u32, tail: u32)
    requires |slots| > 0
    ensures Window(slots, head, Lag(head, Wrap32(tail + 1)))
         <= Window(slots, head, Lag(head, tail)) + [slots[Slot(tail, |slots|)]]
  {
    LagFacts(head, tail);
    SlotAtTail(head, tail, |slots|);
    WindowSnoc(slots, head, Lag(head, tail));
    if Lag(head, tail) == TWO_32 - 1 {
      WrapCases(tail + 1);
      WrapCases(tail + (TWO_32 - head));
      WrapCases(Wrap32(tail + 1) + (TWO_32 - head));
    }
  }

  lemma {:induction false} RingSizeBound(n: nat)
    requires IsRingSize(n)
    ensures 1 <= n <= TWO_31
  {
    var k: nat :| k <= 31 && n == Pow2(k);
    Pow2Divides(k, 31);
    Pow2Of32();
    assert Pow2(32) == 2 * Pow2(31);
    MulBounds(Pow2(31 - k), Pow2(k));
    MulBounds(Pow2(k), Pow2(31 - k));
  }

  /** Advancing the tail of a ring that is not overfull, in terms of the window from `head` on. */
  lemma TailAdvances(head: u32, tail: u32, entries: nat)
    requires IsRingSize(entries) && Lag(head, tail) <= entries
    ensures Lag(head, Wrap32(tail + 1)) == Lag(head, tail) + 1 && Wrap32(tail + 1) != tail
    ensures Slot(tail, entries) == SlotAt(head, Lag(head, tail), entries)
  {
    RingSizeBound(entries);
    LagFacts(head, tail);
  }

  lemma SlotAtZero(head: u32, entries: nat)
    requires entries > 0
    ensures SlotAt(head, 0, entries) == Slot(head, entries)
  {
  }

  /** In a full or overfull ring the tail's slot belongs to the counter a whole ring behind it. */
  lemma SlotBehind(head: u32, tail: u32, entries: nat)
    requires IsRingSize(entries) && Lag(head, tail) >= entries
    ensures Slot(tail, entries) == SlotAt(head, Lag(head, tail) - entries, entries)
  {
    var lag := Lag(head, tail);
    LagFacts(head, tail);
    SlotIsResidue(head + lag, entries);
    SlotIsResidue(head + lag - entries, entries);
    ResidueRepeats(head + lag - entries, entries);
  }

  /** In a full ring the tail's slot is the head's. */
  lemma FullRingSlot(head: u32, tail: u32, entries: nat)
    requires IsRingSize(entries) && Lag(head, tail) == entries
    ensures Slot(tail, entries) == Slot(head, entries) == SlotAt(head, 0, entries)
  {
    TailAdvances(head, tail, entries);
    SlotsRepeat(head, entries);
    SlotAtZero(head, entries);
  }

  /** Writing the slot at `tail` and advancing it appends to the queue that starts at `head`. */
  lemma TailPush<T>(slots: seq<T>, head: u32, tail: u32, v: T)
    requires IsRingSize(|slots|) && Lag(head, tail) < |slots|
    ensures Lag(head, Wrap32(tail + 1)) == Lag(head, tail) + 1
    ensures Window(slots[Slot(tail, |slots|) := v], head, Lag(head, tail) + 1)
         == Window(slots, head, Lag(head, tail)) + [v]
  {
    TailAdvances(head, tail, |slots|);
    WindowPush(slots, head, Lag(head, tail), v);
  }
}
