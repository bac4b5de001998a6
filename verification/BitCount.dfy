/** The bits of a 16-bit word, counted in parallel and one by one. */
module BitCount {
  function Pairs(x: bv16): bv16 { (x & 0x5555) + ((x & 0xaaaa) >> 1) }

  function Fours(x: bv16): bv16 { (x & 0x3333) + ((x & 0xcccc) >> 2) }

  function Eights(x: bv16): bv16 { (x & 0x0f0f) + ((x & 0xf0f0) >> 4) }

  function Sixteen(x: bv16): bv16 { (x & 0x00ff) + (x >> 8) }

  /** The number of bits set in `used`, as the code computes it. */
  function ParallelCount(used: bv16): bv16 {
    Sixteen(Eights(Fours(Pairs(used))))
  }

  /** The word with one bit set. */
  function Single(i: nat): bv16
    requires i < 16
  {
    match i
    case 0 => 0x1
    case 1 => 0x2
    case 2 => 0x4
    case 3 => 0x8
    case 4 => 0x10
    case 5 => 0x20
    case 6 => 0x40
    case 7 => 0x80
    case 8 => 0x100
    case 9 => 0x200
    case 10 => 0x400
    case 11 => 0x800
    case 12 => 0x1000
    case 13 => 0x2000
    case 14 => 0x4000
    case 15 => 0x8000
  }

  function And(x: bv16, y: bv16): bv16 {
    x & y
  }

  predicate Bit(x: bv16, i: nat)
    requires i < 16
  {
    And(x, Single(i)) != 0
  }

  /** The number of bits set below position `n`, one after the other. */
  function Count(x: bv16, n: nat): (c: nat)
    requires n <= 16
    ensures c <= n
  {
    if n == 0 then 0 else Count(x, n - 1) + (if Bit(x, n - 1) then 1 else 0)
  }

  /** Whether a word has one of the bits of another, as a word. */
  function Flag(x: bv16, mask: bv16): bv16 {
    if And(x, mask) != 0 then 1 else 0
  }

  function Plus(a: bv16, b: bv16): bv16 {
    a + b
  }

  // The fields of two, four and eight bits the count works with.

  function Field2(x: bv16, i: nat): bv16
    requires i < 16 && i % 2 == 0
  {
    match i
    case 0 => x & 3
    case 2 => (x >> 2) & 3
    case 4 => (x >> 4) & 3
    case 6 => (x >> 6) & 3
    case 8 => (x >> 8) & 3
    case 10 => (x >> 10) & 3
    case 12 => (x >> 12) & 3
    case 14 => (x >> 14) & 3
    case _ => assert false; 0
  }

  function Field4(x: bv16, i: nat): bv16
    requires i < 16 && i % 4 == 0
  {
    match i
    case 0 => x & 15
    case 4 => (x >> 4) & 15
    case 8 => (x >> 8) & 15
    case 12 => (x >> 12) & 15
    case _ => assert false; 0
  }

  function Field8(x: bv16, i: nat): bv16
    requires i < 16 && i % 8 == 0
  {
    match i
    case 0 => x & 255
    case 8 => (x >> 8) & 255
    case _ => assert false; 0
  }

  lemma PairsAt(x: bv16)
    ensures Field2(Pairs(x), 0) == Plus(Flag(x, 0x1), Flag(x, 0x2)) &&
            Field2(Pairs(x), 2) == Plus(Flag(x, 0x4), Flag(x, 0x8)) &&
            Field2(Pairs(x), 4) == Plus(Flag(x, 0x10), Flag(x, 0x20)) &&
            Field2(Pairs(x), 6) == Plus(Flag(x, 0x40), Flag(x, 0x80)) &&
            Field2(Pairs(x), 8) == Plus(Flag(x, 0x100), Flag(x, 0x200)) &&
            Field2(Pairs(x), 10) == Plus(Flag(x, 0x400), Flag(x, 0x800)) &&
            Field2(Pairs(x), 12) == Plus(Flag(x, 0x1000), Flag(x, 0x2000)) &&
            Field2(Pairs(x), 14) == Plus(Flag(x, 0x4000), Flag(x, 0x8000))
  {
  }

  lemma PairsAtMostTwo(x: bv16)
    ensures Field2(Pairs(x), 0) <= 2 && Field2(Pairs(x), 2) <= 2 && Field2(Pairs(x), 4) <= 2 &&
            Field2(Pairs(x), 6) <= 2 && Field2(Pairs(x), 8) <= 2 && Field2(Pairs(x), 10) <= 2 &&
            Field2(Pairs(x), 12) <= 2 && Field2(Pairs(x), 14) <= 2
  {
  }

  lemma FoursAt(a: bv16)
    requires Field2(a, 0) <= 2 && Field2(a, 2) <= 2 && Field2(a, 4) <= 2 && Field2(a, 6) <= 2 &&
             Field2(a, 8) <= 2 && Field2(a, 10) <= 2 && Field2(a, 12) <= 2 && Field2(a, 14) <= 2
    ensures Field4(Fours(a), 0) == Plus(Field2(a, 0), Field2(a, 2)) &&
            Field4(Fours(a), 4) == Plus(Field2(a, 4), Field2(a, 6)) &&
            Field4(Fours(a), 8) == Plus(Field2(a, 8), Field2(a, 10)) &&
            Field4(Fours(a), 12) == Plus(Field2(a, 12), Field2(a, 14))
    ensures Field4(Fours(a), 0) <= 4 && Field4(Fours(a), 4) <= 4 && Field4(Fours(a), 8) <= 4 &&
            Field4(Fours(a), 12) <= 4
  {
  }

  lemma EightsAt(b: bv16)
    requires Field4(b, 0) <= 4 && Field4(b, 4) <= 4 && Field4(b, 8) <= 4 && Field4(b, 12) <= 4
    ensures Field8(Eights(b), 0) == Plus(Field4(b, 0), Field4(b, 4)) &&
            Field8(Eights(b), 8) == Plus(Field4(b, 8), Field4(b, 12))
  {
  }

  lemma SixteenAt(c: bv16)
    ensures Sixteen(c) == Plus(Field8(c, 0), Field8(c, 8))
  {
  }

  /** A word as a number. */
  function Num(x: bv16): nat {
    x as nat
  }

  /** Small words add like numbers. */
  lemma AddSmall(p: bv16, q: bv16, bound: bv16)
    requires p <= bound && q <= bound && bound <= 8
    ensures Num(Plus(p, q)) == Num(p) + Num(q) && Plus(p, q) <= bound + bound
  {
  }

  /** Two neighbouring bits. */
  function Two(x: bv16, i: nat): bv16
    requires i < 15
  {
    Plus(Flag(x, Single(i)), Flag(x, Single(i + 1)))
  }

  function Four(x: bv16, i: nat): bv16
    requires i < 13
  {
    Plus(Two(x, i), Two(x, i + 2))
  }

  lemma ParallelSum(x: bv16)
    ensures ParallelCount(x) == Plus(Plus(Four(x, 0), Four(x, 4)), Plus(Four(x, 8), Four(x, 12)))
  {
    hide Flag, Plus, Field2, Field4, Field8, Pairs, Fours, Eights, Sixteen;
    PairsAt(x);
    PairsAtMostTwo(x);
    FoursAt(Pairs(x));
    EightsAt(Fours(Pairs(x)));
    SixteenAt(Eights(Fours(Pairs(x))));
  }

  lemma TwoCounts(x: bv16, i: nat)
    requires i < 15
    ensures Two(x, i) <= 2 && Num(Two(x, i)) == Count(x, i + 2) - Count(x, i)
  {
    hide Single;
    AddSmall(Flag(x, Single(i)), Flag(x, Single(i + 1)), 1);
    assert Count(x, i + 2) == Count(x, i + 1) + (if Bit(x, i + 1) then 1 else 0);
  }

  lemma FourCounts(x: bv16, i: nat)
    requires i < 13
    ensures Four(x, i) <= 4 && Num(Four(x, i)) == Count(x, i + 4) - Count(x, i)
  {
    hide Two, Count, Num, Plus;
    TwoCounts(x, i);
    TwoCounts(x, i + 2);
    AddSmall(Two(x, i), Two(x, i + 2), 2);
  }

  /** The parallel count counts the bits. */
  lemma ParallelCountCounts(x: bv16)
    ensures Num(ParallelCount(x)) == Count(x, 16)
  {
    hide ParallelCount, Four, Count, Num, Plus;
    ParallelSum(x);
    FourCounts(x, 0);
    FourCounts(x, 4);
    FourCounts(x, 8);
    FourCounts(x, 12);
    AddSmall(Four(x, 0), Four(x, 4), 4);
    AddSmall(Four(x, 8), Four(x, 12), 4);
    AddSmall(Plus(Four(x, 0), Four(x, 4)), Plus(Four(x, 8), Four(x, 12)), 8);
    CountNone(x);
  }

  lemma CountNone(x: bv16)
    ensures Count(x, 0) == 0
  {
  }

  /** Only the bits 0..i-1. */
  function Below(x: bv16, i: nat): bv16
    requires i < 16
  {
    And(x, Single(i) - 1)
  }

  lemma AndAssociates(x: bv16, y: bv16, z: bv16)
    ensures And(And(x, y), z) == And(x, And(y, z)) && And(x, 0) == 0
  {
  }

  lemma SinglesBelow(i: nat, j: nat)
    requires i < 16 && j < 16
    ensures And(Single(i) - 1, Single(j)) == if j < i then Single(j) else 0
  {
  }

  lemma BitBelow(x: bv16, i: nat, j: nat)
    requires i < 16 && j < 16
    ensures Bit(Below(x, i), j) <==> j < i && Bit(x, j)
  {
    hide Single, And;
    SinglesBelow(i, j);
    AndAssociates(x, Single(i) - 1, Single(j));
  }

  /** Keeping only the bits below `i` and counting all is counting below `i`. */
  lemma {:induction false} CountBelow(x: bv16, i: nat, n: nat)
    requires i < 16 && n <= 16
    ensures Count(Below(x, i), n) == Count(x, if n <= i then n else i)
  {
    hide Bit, Below;
    if n > 0 {
      CountBelow(x, i, n - 1);
      BitBelow(x, i, n - 1);
    }
  }
}
