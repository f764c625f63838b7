/** checksum.c: the table-driven CRC-10 against division by the generator polynomial, one bit at a time. */
module Crc10 {

  /** x^10 + x^9 + x^5 + x^4 + x + 1 without its leading term. */
  const GENERATOR: bv10 := 0x233

  // ---- the definition: long division over GF(2) ----

  /** Addition of polynomials over GF(2). */
  function Plus(x: bv10, y: bv10): bv10 {
    x ^ y
  }

  function Coefficient(bit: bool): bv10 {
    if bit then 1 else 0
  }

  /** x times the remainder, without its x^10 term. */
  function TimesX(r: bv10): bv10 {
    r << 1
  }

  /** What the x^10 term of x times the remainder is worth modulo the generator. */
  function Excess(r: bv10): bv10 {
    if r & 0x200 != 0 then GENERATOR else 0
  }

  /** The next message bit enters at the low end of the remainder. */
  function DivideBit(r: bv10, bit: bool): bv10 {
    Plus(Plus(TimesX(r), Coefficient(bit)), Excess(r))
  }

  /** The remainder after all bits of the message, starting from r. */
  function Divide(r: bv10, bits: seq<bool>): bv10
    decreases |bits|
  {
    if bits == [] then r else Divide(DivideBit(r, bits[0]), bits[1..])
  }

  predicate Has(b: bv8, mask: bv8) {
    b & mask != 0
  }

  /** The bits of an octet, high bit first. */
  function OctetBits(b: bv8): seq<bool> {
    [Has(b, 0x80), Has(b, 0x40), Has(b, 0x20), Has(b, 0x10), Has(b, 0x08), Has(b, 0x04), Has(b, 0x02), Has(b, 0x01)]
  }

  function Bits(p: seq<bv8>): seq<bool> {
    if p == [] then [] else OctetBits(p[0]) + Bits(p[1..])
  }

  function Zeros(n: nat): seq<bool> {
    seq(n, _ => false)
  }

  // ---- linearity ----

  /** Bit by bit XOR of two messages of the same length. */
  function XorBits(a: seq<bool>, b: seq<bool>): (c: seq<bool>)
    requires |a| == |b|
    ensures |c| == |a|
  {
    seq(|a|, i requires 0 <= i < |a| => a[i] != b[i])
  }

  lemma TimesXIsLinear(x: bv10, y: bv10)
    ensures TimesX(Plus(x, y)) == Plus(TimesX(x), TimesX(y))
  {
  }

  lemma ExcessIsLinear(x: bv10, y: bv10)
    ensures Excess(Plus(x, y)) == Plus(Excess(x), Excess(y))
  {
    assert (x ^ y) & 0x200 == (x & 0x200) ^ (y & 0x200);
    assert x & 0x200 == 0 || x & 0x200 == 0x200;
    assert y & 0x200 == 0 || y & 0x200 == 0x200;
  }

  lemma PlusCommutes(x: bv10, y: bv10)
    ensures Plus(x, y) == Plus(y, x)
  {
  }

  lemma PlusAssociates(x: bv10, y: bv10, z: bv10)
    ensures Plus(Plus(x, y), z) == Plus(x, Plus(y, z))
  {
  }

  lemma Regroup(a: bv10, b: bv10, c: bv10, d: bv10)
    ensures Plus(Plus(a, b), Plus(c, d)) == Plus(Plus(a, c), Plus(b, d))
  {
    hide Plus;
    PlusAssociates(a, b, Plus(c, d));
    PlusAssociates(b, c, d);
    PlusCommutes(b, c);
    PlusAssociates(c, b, d);
    PlusAssociates(a, c, Plus(b, d));
  }

  lemma DivideBitIsLinear(x: bv10, y: bv10, a: bool, b: bool)
    ensures DivideBit(Plus(x, y), a != b) == Plus(DivideBit(x, a), DivideBit(y, b))
  {
    assert Coefficient(a != b) == Plus(Coefficient(a), Coefficient(b));
    hide TimesX, Plus, Excess, Coefficient;
    TimesXIsLinear(x, y);
    ExcessIsLinear(x, y);
    Regroup(TimesX(x), TimesX(y), Coefficient(a), Coefficient(b));
    Regroup(Plus(TimesX(x), Coefficient(a)), Plus(TimesX(y), Coefficient(b)), Excess(x), Excess(y));
  }

  lemma {:induction false} DivideIsLinear(x: bv10, y: bv10, a: seq<bool>, b: seq<bool>)
    requires |a| == |b|
    ensures Divide(Plus(x, y), XorBits(a, b)) == Plus(Divide(x, a), Divide(y, b))
    decreases |a|
  {
    hide DivideBit, Plus;
    if a != [] {
      DivideBitIsLinear(x, y, a[0], b[0]);
      DivideIsLinear(DivideBit(x, a[0]), DivideBit(y, b[0]), a[1..], b[1..]);
      assert XorBits(a, b)[1..] == XorBits(a[1..], b[1..]);
    }
  }

  lemma {:induction false} DivideAppend(r: bv10, a: seq<bool>, b: seq<bool>)
    ensures Divide(r, a + b) == Divide(Divide(r, a), b)
    decreases |a|
  {
    hide DivideBit;
    if a == [] {
      assert a + b == b;
    } else {
      assert (a + b)[1..] == a[1..] + b;
      DivideAppend(DivideBit(r, a[0]), a[1..], b);
    }
  }

  lemma {:induction false} BitsAppend(p: seq<bv8>, q: seq<bv8>)
    ensures Bits(p + q) == Bits(p) + Bits(q)
  {
    hide OctetBits;
    if p == [] {
      assert p + q == q;
    } else {
      assert (p + q)[1..] == p[1..] + q;
      BitsAppend(p[1..], q);
      assert (OctetBits(p[0]) + Bits(p[1..])) + Bits(q) == OctetBits(p[0]) + (Bits(p[1..]) + Bits(q));
    }
  }

  lemma DivideSnoc(r: bv10, p: seq<bv8>, b: bv8)
    ensures Divide(r, Bits(p + [b])) == Divide(Divide(r, Bits(p)), OctetBits(b))
  {
    hide OctetBits, DivideBit;
    BitsAppend(p, [b]);
    assert Bits([b]) == OctetBits(b);
    DivideAppend(r, Bits(p), OctetBits(b));
  }

  // ---- bits shifted in without reduction ----

  lemma DivideTwo(r: bv10, s: seq<bool>)
    requires |s| >= 2
    ensures Divide(r, s) == Divide(DivideBit(DivideBit(r, s[0]), s[1]), s[2..])
  {
    hide DivideBit;
    assert s[1..][0] == s[1] && s[1..][1..] == s[2..];
  }

  /** Two bits shifted in; the two leading coefficients of r are zero, so nothing is reduced. */
  predicate ShiftsTo(r: bv10, first: bool, second: bool, t: bv10) {
    r & 0x300 == 0 && t == (r << 2) | (Coefficient(first) << 1) | Coefficient(second)
  }

  lemma ShiftTwo(r: bv10, s: seq<bool>, t: bv10)
    requires |s| >= 2 && ShiftsTo(r, s[0], s[1], t)
    ensures Divide(r, s) == Divide(t, s[2..])
  {
    DivideTwo(r, s);
    hide Divide;
  }

  /** An octet behind two leading bits. */
  function Joined(l: bv10, b: bv8): bv10 {
    (l << 8) | (b as bv10)
  }

  /** The two bits of l and the octet b, without the low n bits of b. */
  function Window(l: bv10, b: bv8, n: bv10): bv10
    requires n <= 8
  {
    Joined(l, b) >> n
  }

  lemma DivideNothing(r: bv10)
    ensures Divide(r, []) == r
  {
  }

  lemma WindowEnds(l: bv10, b: bv8)
    requires l < 4
    ensures Window(l, b, 8) == l && Window(l, b, 0) == Joined(l, b)
  {
  }

  lemma WindowSlides(l: bv10, b: bv8)
    requires l < 4
    ensures ShiftsTo(Window(l, b, 8), Has(b, 0x80), Has(b, 0x40), Window(l, b, 6))
    ensures ShiftsTo(Window(l, b, 6), Has(b, 0x20), Has(b, 0x10), Window(l, b, 4))
  {
  }

  lemma WindowSlidesOn(l: bv10, b: bv8)
    requires l < 4
    ensures ShiftsTo(Window(l, b, 4), Has(b, 0x08), Has(b, 0x04), Window(l, b, 2))
  {
  }

  lemma WindowSlidesOut(l: bv10, b: bv8)
    requires l < 4
    ensures ShiftsTo(Window(l, b, 2), Has(b, 0x02), Has(b, 0x01), Window(l, b, 0))
  {
  }

  lemma ShiftFour(x: bv10, y: bv10, z: bv10, s: seq<bool>)
    requires |s| >= 4 && ShiftsTo(x, s[0], s[1], y) && ShiftsTo(y, s[2], s[3], z)
    ensures Divide(x, s) == Divide(z, s[4..])
  {
    hide ShiftsTo, Divide;
    ShiftTwo(x, s, y);
    ShiftTwo(y, s[2..], z);
    assert s[2..][2..] == s[4..];
  }

  /** An octet behind two leading bits is already a remainder. */
  lemma ShiftOctet(l: bv10, b: bv8)
    requires l < 4
    ensures Divide(l, OctetBits(b)) == Joined(l, b)
  {
    hide Window, ShiftsTo, Has, Joined, Divide;
    WindowEnds(l, b);
    WindowSlides(l, b);
    WindowSlidesOn(l, b);
    WindowSlidesOut(l, b);
    ShiftFour(Window(l, b, 8), Window(l, b, 6), Window(l, b, 4), OctetBits(b));
    ShiftFour(Window(l, b, 4), Window(l, b, 2), Window(l, b, 0), OctetBits(b)[4..]);
    assert OctetBits(b)[4..][4..] == [];
    DivideNothing(Joined(l, b));
  }

  // ---- the remainder is that of polynomial division ----

  /** The eleven coefficients of the generator, 0x633. */
  const GENERATOR_BITS: seq<bool> :=
    [true, true, false, false, false, true, true, false, false, true, true]

  /** The coefficients of the quotient q times the generator. */
  function TimesGenerator(q: seq<bool>): (m: seq<bool>)
    ensures |m| == |q| + 10
  {
    if q == [] then
      Zeros(10)
    else
      var n := |q| - 1;
      XorBits(TimesGenerator(q[..n]) + [false], Zeros(n) + (if q[n] then GENERATOR_BITS else Zeros(11)))
  }

  lemma GeneratorDivides()
    ensures Divide(0, GENERATOR_BITS) == 0
  {
    var g := GENERATOR_BITS;
    DivideTwo(0, g);
    DivideTwo(3, g[2..]);
    DivideTwo(0xc, g[4..]);
    DivideTwo(0x31, g[6..]);
    DivideTwo(0xc6, g[8..]);
    assert g[10..] == [true];
  }

  lemma {:induction false} MultipleLeavesZero(q: seq<bool>)
    ensures Divide(0, TimesGenerator(q)) == 0
  {
    if q == [] {
      ZerosLeaveZero(10);
    } else {
      var n := |q| - 1;
      var m, g := TimesGenerator(q[..n]), if q[n] then GENERATOR_BITS else Zeros(11);
      MultipleLeavesZero(q[..n]);
      DivideAppend(0, m, [false]);
      ZerosLeaveZero(n);
      ZerosLeaveZero(11);
      GeneratorDivides();
      DivideAppend(0, Zeros(n), g);
      RemainderIsLinear(m + [false], Zeros(n) + g);
      assert Divide(0, m + [false]) == 0;
    }
  }

  lemma RemainderIsLinear(a: seq<bool>, b: seq<bool>)
    requires |a| == |b|
    ensures Divide(0, XorBits(a, b)) == Plus(Divide(0, a), Divide(0, b))
  {
    hide DivideBit;
    assert Plus(0, 0) == 0;
    DivideIsLinear(0, 0, a, b);
  }

  lemma {:induction false} ZerosLeaveZero(n: nat)
    ensures Divide(0, Zeros(n)) == 0
  {
    if n > 0 {
      assert Zeros(n)[1..] == Zeros(n - 1);
      ZerosLeaveZero(n - 1);
    }
  }

  /** Adding a multiple of the generator to a message does not change its remainder. */
  lemma MultiplesVanish(q: seq<bool>, r: seq<bool>)
    requires |r| == |q| + 10
    ensures Divide(0, XorBits(TimesGenerator(q), r)) == Divide(0, r)
  {
    MultipleLeavesZero(q);
    RemainderIsLinear(TimesGenerator(q), r);
    PlusZero(Divide(0, r));
  }

  // ---- the table ----

  /** An octet at the top of the remainder. */
  function AtTop(i: bv8): bv10 {
    (i as bv10) << 2
  }

  /** A remainder in the sixteen-bit register. */
  function Wide(r: bv10): bv16 {
    r as bv16
  }

  /** Entry i: the octet i at the top of the remainder, followed by eight zero bits. */
  function TableEntry(i: bv8): bv16 {
    Wide(Divide(AtTop(i), Zeros(8)))
  }

  /** The ten bits of the register that matter. */
  function Remainder(accum: bv16): bv10 {
    (accum & 0x3ff) as bv10
  }

  function Top(accum: bv16): bv8 {
    ((accum >> 2) & 0xff) as bv8
  }

  function Low(accum: bv16): bv10 {
    (accum & 3) as bv10
  }

  /** The register after one octet, given the table entry for its top octet. */
  function TableStep(accum: bv16, entry: bv16, b: bv8): bv16 {
    ((accum << 8) & 0x3ff) ^ entry ^ (b as bv16)
  }

  /** One turn of the inner loop of init_crc10_table. */
  function TableBit(accum: bv16): bv16 {
    var t := accum << 1;
    if t & 0x400 != 0 then t ^ 0x633 else t
  }

  lemma SplitRemainder(accum: bv16)
    ensures Remainder(accum) == Plus(AtTop(Top(accum)), Low(accum)) && Low(accum) < 4
  {
  }

  lemma WideRemainder(r: bv10)
    ensures Remainder(Wide(r)) == r
  {
  }

  lemma TableStepJoins(accum: bv16, entry: bv10, b: bv8)
    ensures TableStep(accum, Wide(entry), b) == Wide(Plus(entry, Joined(Low(accum), b)))
  {
  }

  lemma TableBitDivides(r: bv10)
    ensures TableBit(Wide(r)) == Wide(DivideBit(r, false))
  {
  }

  lemma ZerosAddNothing(s: seq<bool>)
    ensures XorBits(Zeros(|s|), s) == s
  {
  }

  /** One table look-up does the work of eight division steps, whatever the bits above the remainder are. */
  lemma TableStepDivides(accum: bv16, b: bv8)
    ensures TableStep(accum, TableEntry(Top(accum)), b) == Wide(Divide(Remainder(accum), OctetBits(b)))
  {
    hide TableStep, Plus, Divide, DivideBit, Remainder, Top, AtTop, Low, Joined, Wide, Has;
    SplitRemainder(accum);
    TableStepJoins(accum, Divide(AtTop(Top(accum)), Zeros(8)), b);
    DivideIsLinear(AtTop(Top(accum)), Low(accum), Zeros(8), OctetBits(b));
    ZerosAddNothing(OctetBits(b));
    ShiftOctet(Low(accum), b);
  }

  lemma OneMoreZero(r: bv10, n: nat)
    ensures Divide(r, Zeros(n + 1)) == DivideBit(Divide(r, Zeros(n)), false)
  {
    hide DivideBit;
    assert Zeros(n + 1) == Zeros(n) + [false];
    DivideAppend(r, Zeros(n), [false]);
    assert Divide(Divide(r, Zeros(n)), [false]) == Divide(DivideBit(Divide(r, Zeros(n)), false), []);
  }

  /** The table that init_crc10_table computes and compares the constants of the source with. */
  ghost predicate IsCrcTable(t: seq<bv16>) {
    |t| == 256 && forall k: bv8 :: t[k as int] == TableEntry(k)
  }

  method FillEntry(i: bv8) returns (accum: bv16)
    ensures accum == TableEntry(i)
  {
    hide DivideBit, TableBit, Divide;
    accum := (i as bv16) << 2;
    assert accum == Wide(AtTop(i));
    hide Wide, AtTop;
    var j := 0;
    DivideNothing(AtTop(i));
    assert Zeros(0) == [];
    while j < 8
      invariant 0 <= j <= 8
      invariant accum == Wide(Divide(AtTop(i), Zeros(j)))
    {
      TableBitDivides(Divide(AtTop(i), Zeros(j)));
      OneMoreZero(AtTop(i), j);
      accum := TableBit(accum);
      j := j + 1;
    }
  }

  /** init_crc10_table. */
  method InitTable() returns (table: array<bv16>)
    ensures fresh(table) && IsCrcTable(table[..])
  {
    hide TableEntry;
    table := new bv16[256];
    var i := 0;
    while i < 256
      invariant 0 <= i <= 256
      invariant forall k: bv8 | k as int < i :: table[k as int] == TableEntry(k)
    {
      table[i] := FillEntry(i as bv8);
      i := i + 1;
    }
  }

  /** verify_crc10_cksum. */
  method VerifyCrc10(table: array<bv16>, start: bv16, p: seq<bv8>) returns (accum: bv16)
    requires IsCrcTable(table[..])
    ensures accum == if p == [] then start else Wide(Divide(Remainder(start), Bits(p)))
  {
    hide TableEntry, Divide, OctetBits, Bits, TableStep, Wide, Remainder, Top;
    accum := start;
    var i := 0;
    DivideNone(Remainder(start));
    while i < |p|
      invariant 0 <= i <= |p|
      invariant i == 0 ==> accum == start
      invariant Remainder(accum) == Divide(Remainder(start), Bits(p[..i]))
      invariant i > 0 ==> accum == Wide(Divide(Remainder(start), Bits(p[..i])))
    {
      TableStepDivides(accum, p[i]);
      DivideSnoc(Remainder(start), p[..i], p[i]);
      assert p[..i + 1] == p[..i] + [p[i]];
      assert table[Top(accum) as int] == table[..][Top(accum) as int];
      accum := TableStep(accum, table[Top(accum) as int], p[i]);
      i := i + 1;
      WideRemainder(Divide(Remainder(start), Bits(p[..i])));
    }
    assert p[..i] == p;
  }

  lemma DivideNone(r: bv10)
    ensures Divide(r, Bits([])) == r
  {
  }

  // ---- storing the remainder ----

  function High(c: bv10): bv8 {
    (c >> 8) as bv8
  }

  function Tail(c: bv10): bv8 {
    (c & 0xff) as bv8
  }

  function Merge(x: bv8, c: bv10): bv8 {
    x | High(c)
  }

  /** The message with c in place of its last ten bits, which are zero. */
  function Store(p: seq<bv8>, c: bv10): seq<bv8>
    requires EndsInTenZeros(p)
  {
    p[..|p| - 2] + [Merge(p[|p| - 2], c), Tail(c)]
  }

  predicate EndsInTenZeros(p: seq<bv8>) {
    |p| >= 2 && p[|p| - 2] & 3 == 0 && p[|p| - 1] == 0
  }

  lemma OctetsOf(c: bv10)
    ensures Divide(Divide(0, OctetBits(High(c))), OctetBits(Tail(c))) == c
  {
    hide Has, OctetBits, Divide;
    TenBits(c);
    hide Joined;
    ShiftOctet(0, High(c));
    ShiftOctet(Joined(0, High(c)), Tail(c));
  }

  lemma TenBits(c: bv10)
    ensures Joined(0, High(c)) < 4 && Joined(Joined(0, High(c)), Tail(c)) == c
  {
  }

  predicate BitIsSum(z: bv8, x: bv8, y: bv8, mask: bv8) {
    Has(z, mask) == (Has(x, mask) != Has(y, mask))
  }

  predicate BitsAreSums(z: bv8, x: bv8, y: bv8) {
    && BitIsSum(z, x, y, 0x80) && BitIsSum(z, x, y, 0x40) && BitIsSum(z, x, y, 0x20) && BitIsSum(z, x, y, 0x10)
    && BitIsSum(z, x, y, 0x08) && BitIsSum(z, x, y, 0x04) && BitIsSum(z, x, y, 0x02) && BitIsSum(z, x, y, 0x01)
  }

  lemma MergedBits(x: bv8, c: bv10)
    requires x & 3 == 0
    ensures BitsAreSums(Merge(x, c), x, High(c))
  {
  }

  lemma OctetBitsAt(b: bv8)
    ensures var s := OctetBits(b);
            && |s| == 8
            && s[0] == Has(b, 0x80) && s[1] == Has(b, 0x40) && s[2] == Has(b, 0x20) && s[3] == Has(b, 0x10)
            && s[4] == Has(b, 0x08) && s[5] == Has(b, 0x04) && s[6] == Has(b, 0x02) && s[7] == Has(b, 0x01)
  {
    hide Has;
  }

  lemma EightSums(a: seq<bool>, b: seq<bool>, c: seq<bool>)
    requires |a| == |b| == |c| == 8
    requires a[0] == (b[0] != c[0]) && a[1] == (b[1] != c[1]) && a[2] == (b[2] != c[2]) && a[3] == (b[3] != c[3])
    requires a[4] == (b[4] != c[4]) && a[5] == (b[5] != c[5]) && a[6] == (b[6] != c[6]) && a[7] == (b[7] != c[7])
    ensures a == XorBits(b, c)
  {
    var d := XorBits(b, c);
    assert d[0] == a[0] && d[1] == a[1] && d[2] == a[2] && d[3] == a[3];
    assert d[4] == a[4] && d[5] == a[5] && d[6] == a[6] && d[7] == a[7];
    hide XorBits;
    forall i | 0 <= i < 8
      ensures a[i] == d[i]
    {
      if i < 4 {
        assert i == 0 || i == 1 || i == 2 || i == 3;
      } else {
        assert i == 4 || i == 5 || i == 6 || i == 7;
      }
    }
  }

  lemma SumOfOctets(z: bv8, x: bv8, y: bv8)
    requires BitsAreSums(z, x, y)
    ensures |OctetBits(x)| == |OctetBits(y)|
    ensures OctetBits(z) == XorBits(OctetBits(x), OctetBits(y))
  {
    OctetBitsAt(x);
    OctetBitsAt(y);
    OctetBitsAt(z);
    hide Has, OctetBits, XorBits;
    EightSums(OctetBits(z), OctetBits(x), OctetBits(y));
  }

  lemma PlusZero(r: bv10)
    ensures Plus(r, 0) == r == Plus(0, r) && Plus(r, r) == 0
    ensures forall s :: Plus(r, s) == 0 ==> r == s
  {
  }

  /** Storing c in the last ten bits adds c to the remainder of the message. */
  lemma StoreAdds(p: seq<bv8>, c: bv10)
    requires EndsInTenZeros(p)
    ensures Divide(0, Bits(Store(p, c))) == Plus(Divide(0, Bits(p)), c)
  {
    var n := |p| - 2;
    var h, x, q := p[..n], p[n], Store(p, c);
    var s := Divide(0, Bits(h));
    MergedBits(x, c);
    SumOfOctets(Merge(x, c), x, High(c));
    hide Divide, DivideBit, OctetBits, Has, Bits, High, Tail, Merge, Plus;
    assert p == (h + [x]) + [0];
    assert q == (h + [Merge(x, c)]) + [Tail(c)];
    DivideSnoc(0, h, x);
    DivideSnoc(0, h + [x], 0);
    DivideSnoc(0, h, Merge(x, c));
    DivideSnoc(0, h + [Merge(x, c)], Tail(c));
    PlusZero(s);
    DivideIsLinear(s, 0, OctetBits(x), OctetBits(High(c)));
    ZeroOctet(Tail(c));
    DivideIsLinear(Divide(s, OctetBits(x)), Divide(0, OctetBits(High(c))), OctetBits(0), OctetBits(Tail(c)));
    OctetsOf(c);
  }

  lemma ZeroOctet(b: bv8)
    ensures |OctetBits(0)| == |OctetBits(b)|
    ensures XorBits(OctetBits(0), OctetBits(b)) == OctetBits(b)
  {
    assert BitsAreSums(b, 0, b);
    SumOfOctets(b, 0, b);
  }

  /**
   * A message whose last ten bits were zero checks to 0 exactly when they now hold the message's own remainder.
   */
  lemma StoredRemainderChecks(p: seq<bv8>, c: bv10)
    requires EndsInTenZeros(p)
    ensures Divide(0, Bits(Store(p, c))) == 0 <==> c == Divide(0, Bits(p))
  {
    StoreAdds(p, c);
    PlusZero(Divide(0, Bits(p)));
  }
}
