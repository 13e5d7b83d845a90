/**
 Decoding of a switch-panel report into the indices of its set bits
 (`getBitIndexFlipped` in app.js).

 JavaScript evaluates `<<`, `|`, `^`, `&` and `>>` on 32-bit signed integers.
 The model keeps every such value as its unsigned 32-bit pattern (a `nat`
 below 2^32); the JavaScript number is that pattern read as two's complement,
 so `x > 0` holds exactly when the pattern lies strictly between 0 and 2^31.
 */
module Bits {

  /** One byte of a HID report. */
  type Byte = b: int | 0 <= b < 256

  const Two31: nat := 0x8000_0000
  const Two32: nat := 0x1_0000_0000

  function Pow2(k: nat): (r: nat)
    ensures r > 0
  {
    if k == 0 then 1 else 2 * Pow2(k - 1)
  }

  /** Bit `k` of `n`, counting from the least-significant bit (bit 0). */
  predicate Bit(n: nat, k: nat)
  {
    if k == 0 then n % 2 == 1 else Bit(n / 2, k - 1)
  }

  /** `s` read as an unbounded big-endian unsigned integer. */
  function BigEndian(s: seq<Byte>): nat
  {
    if s == [] then 0 else BigEndian(s[..|s| - 1]) * 256 + s[|s| - 1]
  }

  predicate StrictlyIncreasing(s: seq<nat>)
  {
    forall j, k :: 0 <= j < k < |s| ==> s[j] < s[k]
  }

  /** JavaScript `(field << 8) | b` on the 32-bit pattern `field`: the shift
      drops the top byte and leaves the low byte zero, so the OR puts `b` there. */
  function ShiftIn(field: nat, b: Byte): (r: nat)
    requires field < Two32
    ensures r < Two32
    ensures r % 256 == b
    ensures r / 256 == field % 0x100_0000
  {
    (field * 256 + b) % Two32
  }

  /** The value of `fieldA` after the accumulation loop over the bytes `s`. */
  function Field(s: seq<Byte>): (r: nat)
    ensures r < Two32
  {
    if s == [] then 0 else ShiftIn(Field(s[..|s| - 1]), s[|s| - 1])
  }

  /** Bitwise exclusive or of two non-negative integers. */
  function Xor(x: nat, y: nat): nat
    decreases x + y
  {
    if x == 0 && y == 0 then 0
    else 2 * Xor(x / 2, y / 2) + (if x % 2 != y % 2 then 1 else 0)
  }

  /** JavaScript `diff > 0` for the 32-bit pattern `diff`. */
  predicate Positive32(diff: nat)
  {
    0 < diff < Two31
  }

  /** What the `while (diff > 0)` loop appends to `retval` when it is entered
      with `diff` and `count`. The test `diff & 0x01 > 0` parses as
      `diff & (0x01 > 0)`, that is `diff & 1`, which is non-zero exactly for
      odd `diff`. */
  function Scan(diff: nat, count: nat): seq<nat>
    decreases diff
  {
    if Positive32(diff) then
      (if diff % 2 == 1 then [count] else []) + Scan(diff / 2, count + 1)
    else []
  }

  /** The result of `getBitIndexFlipped(a, b)`. */
  function BitIndexFlipped(a: seq<Byte>, b: seq<Byte>): seq<nat>
  {
    Scan(Xor(Field(a), Field(b)), 0)
  }

  /** The decoding used by the report handler: `getBitIndexFlipped([], data)`. */
  function ActiveControls(data: seq<Byte>): seq<nat>
  {
    BitIndexFlipped([], data)
  }

  /** `getBitIndexFlipped` as the source writes it: two accumulation loops,
      an exclusive or and a shifting loop that collects the set bit positions. */
  method GetBitIndexFlipped(a: seq<Byte>, b: seq<Byte>) returns (retval: seq<nat>)
    ensures retval == BitIndexFlipped(a, b)
    ensures StrictlyIncreasing(retval)
    ensures |a| <= 3 && |b| <= 3 ==>
      forall i :: i in retval <==> Bit(BigEndian(a), i) != Bit(BigEndian(b), i)
  {
    var fieldA, fieldB := 0, 0;
    for i := 0 to |a|
      invariant fieldA == Field(a[..i])
    {
      assert a[..i + 1][..i] == a[..i];
      fieldA := ShiftIn(fieldA, a[i]);
    }
    assert a[..|a|] == a;
    for z := 0 to |b|
      invariant fieldB == Field(b[..z])
    {
      assert b[..z + 1][..z] == b[..z];
      fieldB := ShiftIn(fieldB, b[z]);
    }
    assert b[..|b|] == b;
    var diff := Xor(fieldA, fieldB);
    retval := [];
    var count := 0;
    while Positive32(diff)
      invariant retval + Scan(diff, count) == BitIndexFlipped(a, b)
      decreases diff
    {
      if diff % 2 == 1 {
        retval := retval + [count];
      }
      diff := diff / 2;
      count := count + 1;
    }
    ScanIncreasing(Xor(fieldA, fieldB), 0);
    if |a| <= 3 && |b| <= 3 {
      FlippedBitsDiffer(a, b);
    }
  }

  // ---------------------------------------------------------------------
  // Powers of two and the bits of an integer

  lemma {:induction false} Pow2Add(a: nat, b: nat)
    ensures Pow2(a + b) == Pow2(a) * Pow2(b)
  {
    if b > 0 {
      Pow2Add(a, b - 1);
      assert Pow2(a + b) == 2 * Pow2(a + b - 1);
    }
  }

  lemma Pow2Values()
    ensures Pow2(0) == 1 && Pow2(8) == 0x100 && Pow2(16) == 0x1_0000 && Pow2(24) == 0x100_0000
  {
    assert Pow2(8) == 0x100;
    Pow2Add(8, 8);
    Pow2Add(16, 8);
  }

  /** An integer below 2^k has no set bit at index k or above. */
  lemma {:induction false} HighBitsClear(n: nat, k: nat, i: nat)
    requires n < Pow2(k) && k <= i
    ensures !Bit(n, i)
  {
    if k == 0 {
      ZeroHasNoBits(i);
    } else {
      HighBitsClear(n / 2, k - 1, i - 1);
    }
  }

  lemma {:induction false} ZeroHasNoBits(i: nat)
    ensures !Bit(0, i)
  {
    if i > 0 {
      ZeroHasNoBits(i - 1);
    }
  }

  /** A report of `n` bytes denotes an integer below 2^(8n). */
  lemma {:induction false} BigEndianBound(s: seq<Byte>)
    ensures BigEndian(s) < Pow2(8 * |s|)
  {
    if s != [] {
      var p := s[..|s| - 1];
      BigEndianBound(p);
      Pow2Add(8 * |p|, 8);
      assert Pow2(8) == 256;
    }
  }

  /** The 32-bit accumulation keeps the low 32 bits of the big-endian value:
      bytes before the last four are shifted out. */
  lemma {:induction false} FieldIsLow32Bits(s: seq<Byte>)
    ensures Field(s) == BigEndian(s) % Two32
  {
    if s != [] {
      var p := s[..|s| - 1];
      FieldIsLow32Bits(p);
      var q := BigEndian(p) / Two32;
      assert BigEndian(p) == q * Two32 + Field(p);
      assert BigEndian(s) == (q * 256) * Two32 + (Field(p) * 256 + s[|s| - 1]);
      ModAfterMultiple(q * 256, Field(p) * 256 + s[|s| - 1]);
    }
  }

  lemma ModAfterMultiple(q: nat, x: nat)
    ensures (q * Two32 + x) % Two32 == x % Two32
  {
  }

  /** For reports of at most three bytes nothing is shifted out and the
      32-bit value is non-negative. */
  lemma ShortFieldIsBigEndian(s: seq<Byte>)
    requires |s| <= 3
    ensures Field(s) == BigEndian(s) < Pow2(24)
  {
    FieldIsLow32Bits(s);
    BigEndianBound(s);
    Pow2Values();
    assert Pow2(8 * |s|) <= Pow2(24);
  }

  // ---------------------------------------------------------------------
  // Exclusive or

  lemma {:induction false} XorBit(x: nat, y: nat, k: nat)
    ensures Bit(Xor(x, y), k) == (Bit(x, k) != Bit(y, k))
    decreases k
  {
    if x == 0 && y == 0 {
      ZeroHasNoBits(k);
    } else if k > 0 {
      XorBit(x / 2, y / 2, k - 1);
    }
  }

  lemma {:induction false} XorCommutes(x: nat, y: nat)
    ensures Xor(x, y) == Xor(y, x)
    decreases x + y
  {
    if x != 0 || y != 0 {
      XorCommutes(x / 2, y / 2);
    }
  }

  lemma {:induction false} XorSelf(x: nat)
    ensures Xor(x, x) == 0
    decreases x
  {
    if x != 0 {
      XorSelf(x / 2);
    }
  }

  lemma {:induction false} XorZero(y: nat)
    ensures Xor(0, y) == y
    decreases y
  {
    if y != 0 {
      XorZero(y / 2);
    }
  }

  lemma {:induction false} XorBound(x: nat, y: nat, k: nat)
    requires x < Pow2(k) && y < Pow2(k)
    ensures Xor(x, y) < Pow2(k)
  {
    if k > 0 && (x != 0 || y != 0) {
      XorBound(x / 2, y / 2, k - 1);
    }
  }

  // ---------------------------------------------------------------------
  // The shifting loop

  /** Below the sign bit, the loop collects exactly the set bits of `diff`,
      each shifted by the starting `count`. */
  lemma {:induction false} ScanMembers(diff: nat, count: nat, i: nat)
    requires diff < Two31
    ensures i in Scan(diff, count) <==> count <= i && Bit(diff, i - count)
    decreases diff
  {
    if diff == 0 {
      if count <= i {
        ZeroHasNoBits(i - count);
      }
    } else {
      ScanMembers(diff / 2, count + 1, i);
      if count < i {
        assert Bit(diff, i - count) == Bit(diff / 2, i - (count + 1));
      }
    }
  }

  /** The collected positions all lie at or above `count`, in ascending order. */
  lemma {:induction false} ScanIncreasing(diff: nat, count: nat)
    ensures StrictlyIncreasing(Scan(diff, count))
    ensures forall j :: 0 <= j < |Scan(diff, count)| ==> count <= Scan(diff, count)[j]
    decreases diff
  {
    if Positive32(diff) {
      ScanIncreasing(diff / 2, count + 1);
    }
  }

  /** When the exclusive or has its sign bit set, JavaScript sees a negative
      number and the loop is never entered. */
  lemma NegativeDiffGivesNothing(a: seq<Byte>, b: seq<Byte>)
    requires Xor(Field(a), Field(b)) >= Two31
    ensures BitIndexFlipped(a, b) == []
  {
  }

  /** A four-byte report whose first byte has its top bit set fills bit 31
      of the accumulated field, so JavaScript sees a negative number and the
      report decodes to no active control at all. */
  lemma SignBitReportIsEmpty(data: seq<Byte>)
    requires |data| == 4 && data[0] >= 0x80
    ensures ActiveControls(data) == []
  {
    assert BigEndian(data[..1]) == data[0] by {
      assert data[..1][..0] == [];
    }
    assert data[..2][..1] == data[..1];
    assert BigEndian(data[..2]) >= (data[0] as int) * 0x100;
    assert data[..3][..2] == data[..2];
    assert BigEndian(data[..3]) >= (data[0] as int) * 0x1_0000;
    ShortFieldIsBigEndian(data[..3]);
    Pow2Values();
    var f := Field(data[..3]);
    assert 0x80_0000 <= f < 0x100_0000;
    assert data[..4] == data;
    assert Field(data) == (f * 256 + data[3]) % Two32;
    assert Field(data) == f * 256 + data[3];
    XorZero(Field(data));
    NegativeDiffGivesNothing([], data);
  }

  // ---------------------------------------------------------------------
  // getBitIndexFlipped

  /** For two reports of at most three bytes, the result holds exactly the
      positions at which their bits differ. */
  lemma FlippedBitsDiffer(a: seq<Byte>, b: seq<Byte>)
    requires |a| <= 3 && |b| <= 3
    ensures forall i :: i in BitIndexFlipped(a, b) <==> Bit(BigEndian(a), i) != Bit(BigEndian(b), i)
  {
    ShortFieldIsBigEndian(a);
    ShortFieldIsBigEndian(b);
    Pow2Values();
    ScanOfXor(Field(a), Field(b));
  }

  /** Below 2^24 the loop sees the exclusive or as a positive number and
      collects exactly the positions where `x` and `y` differ. */
  lemma ScanOfXor(x: nat, y: nat)
    requires x < 0x100_0000 && y < 0x100_0000
    ensures forall i :: i in Scan(Xor(x, y), 0) <==> Bit(x, i) != Bit(y, i)
  {
    Pow2Values();
    XorBound(x, y, 24);
    forall i
      ensures i in Scan(Xor(x, y), 0) <==> Bit(x, i) != Bit(y, i)
    {
      ScanMembers(Xor(x, y), 0, i);
      XorBit(x, y, i);
    }
  }

  /** The result is the same whichever report is passed first. */
  lemma FlippedIsSymmetric(a: seq<Byte>, b: seq<Byte>)
    ensures BitIndexFlipped(a, b) == BitIndexFlipped(b, a)
  {
    XorCommutes(Field(a), Field(b));
  }

  /** Comparing a report with itself gives no positions. */
  lemma FlippedWithItselfIsEmpty(a: seq<Byte>)
    ensures BitIndexFlipped(a, a) == []
  {
    XorSelf(Field(a));
  }

  /** A report of at most three bytes decodes to exactly the set bits of its
      big-endian value, in ascending order (hence without duplicates), all
      below 8 times its length; the empty report decodes to nothing. */
  lemma DecodeReport(data: seq<Byte>)
    requires |data| <= 3
    ensures forall i :: i in ActiveControls(data) <==> Bit(BigEndian(data), i)
    ensures StrictlyIncreasing(ActiveControls(data))
    ensures forall i :: i in ActiveControls(data) ==> i < 8 * |data|
    ensures data == [] ==> ActiveControls(data) == []
  {
    ShortFieldIsBigEndian(data);
    XorZero(Field(data));
    Pow2Values();
    forall i
      ensures i in ActiveControls(data) <==> Bit(BigEndian(data), i)
    {
      ScanMembers(Field(data), 0, i);
    }
    ScanIncreasing(Field(data), 0);
    BigEndianBound(data);
    forall i | i in ActiveControls(data)
      ensures i < 8 * |data|
    {
      if i >= 8 * |data| {
        HighBitsClear(BigEndian(data), 8 * |data|, i);
      }
    }
  }
}
