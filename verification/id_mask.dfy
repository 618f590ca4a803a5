/**
 The touch-id bitmasks of the source (known_ids, modified_ids,
 released_ids): bit i is set when touch id i is present. Touch ids are 4-bit
 fields, so every mask the driver forms fits in 16 bits; the source keeps
 them in an int and a long whose upper bits stay clear.

 IdSet reads a mask as the set of ids it holds, and the lemmas below show
 that each bit operation the poll performs is the matching set operation.
 */
module IdMask {
  import opened TouchDecode

  /** The sixteen single-bit masks. */
  predicate Single(m: bv16) {
    m == 0x0001 || m == 0x0002 || m == 0x0004 || m == 0x0008 ||
    m == 0x0010 || m == 0x0020 || m == 0x0040 || m == 0x0080 ||
    m == 0x0100 || m == 0x0200 || m == 0x0400 || m == 0x0800 ||
    m == 0x1000 || m == 0x2000 || m == 0x4000 || m == 0x8000
  }

  /** The bit position of a single-bit mask. */
  function Position(m: bv16): TouchId
    requires Single(m)
  {
    if m == 0x0001 then 0 else if m == 0x0002 then 1 else if m == 0x0004 then 2
    else if m == 0x0008 then 3 else if m == 0x0010 then 4 else if m == 0x0020 then 5
    else if m == 0x0040 then 6 else if m == 0x0080 then 7 else if m == 0x0100 then 8
    else if m == 0x0200 then 9 else if m == 0x0400 then 10 else if m == 0x0800 then 11
    else if m == 0x1000 then 12 else if m == 0x2000 then 13 else if m == 0x4000 then 14
    else 15
  }

  /** BIT(i), written out as the sixteen masks (BitIsShift shows it is 1 << i). */
  function Bit(i: TouchId): (m: bv16)
    ensures Single(m)
  {
    if i == 0 then 0x0001 else if i == 1 then 0x0002 else if i == 2 then 0x0004
    else if i == 3 then 0x0008 else if i == 4 then 0x0010 else if i == 5 then 0x0020
    else if i == 6 then 0x0040 else if i == 7 then 0x0080 else if i == 8 then 0x0100
    else if i == 9 then 0x0200 else if i == 10 then 0x0400 else if i == 11 then 0x0800
    else if i == 12 then 0x1000 else if i == 13 then 0x2000 else if i == 14 then 0x4000
    else 0x8000
  }

  /** The table is BIT(i): bit i alone set. */
  lemma BitIsShift(i: TouchId)
    ensures Bit(i) == 1 << i
  {
    if i < 8 {
      if i < 4 {
        if i == 0 {} else if i == 1 {} else if i == 2 {} else {}
      } else {
        if i == 4 {} else if i == 5 {} else if i == 6 {} else {}
      }
    } else {
      if i < 12 {
        if i == 8 {} else if i == 9 {} else if i == 10 {} else {}
      } else {
        if i == 12 {} else if i == 13 {} else if i == 14 {} else {}
      }
    }
  }

  /** Distinct ids have distinct bits. */
  lemma BitInjective(i: TouchId, j: TouchId)
    ensures Bit(i) == Bit(j) <==> i == j
  {
    assert Position(Bit(i)) == i && Position(Bit(j)) == j;
  }

  /** x has a bit in common with the mask m. */
  predicate Meets(x: bv16, m: bv16) {
    x & m != 0
  }

  /** Whether id i is in the mask (test_bit). */
  predicate Has(m: bv16, i: TouchId) {
    Meets(m, Bit(i))
  }

  /** The ids a mask holds. */
  function IdSet(m: bv16): set<TouchId> {
    set i: TouchId | Has(m, i)
  }

  // The three facts about single-bit masks that the set view rests on. They
  // are stated on plain masks, apart from any touch id, so that each is a
  // small bit-vector goal.

  lemma MeetsSingle(m: bv16, n: bv16)
    requires Single(m) && Single(n)
    ensures Meets(m, n) <==> m == n
  {
  }

  lemma MeetsOr(a: bv16, m: bv16, n: bv16)
    requires Single(m) && Single(n)
    ensures Meets(a | m, n) <==> Meets(a, n) || m == n
  {
  }

  lemma MeetsAndNot(a: bv16, b: bv16, m: bv16)
    requires Single(m)
    ensures Meets(a & !b, m) <==> Meets(a, m) && !Meets(b, m)
  {
  }

  /** BIT(i) holds id i and no other. */
  lemma HasOnlyOwnBit(i: TouchId, j: TouchId)
    ensures Has(Bit(i), j) <==> j == i
  {
    assert Meets(Bit(i), Bit(j)) <==> Bit(i) == Bit(j) by {
      MeetsSingle(Bit(i), Bit(j));
    }
    BitInjective(i, j);
  }

  /** Setting BIT(i) adds exactly id i. */
  lemma HasWithBit(m: bv16, i: TouchId, j: TouchId)
    ensures Has(m | Bit(i), j) <==> Has(m, j) || j == i
  {
    assert Meets(m | Bit(i), Bit(j)) <==> Meets(m, Bit(j)) || Bit(i) == Bit(j) by {
      MeetsOr(m, Bit(i), Bit(j));
    }
    BitInjective(i, j);
  }

  /** a & ~b holds the ids of a that are not in b. */
  lemma HasAndNot(a: bv16, b: bv16, j: TouchId)
    ensures Has(a & !b, j) <==> Has(a, j) && !Has(b, j)
  {
    assert Meets(a & !b, Bit(j)) <==> Meets(a, Bit(j)) && !Meets(b, Bit(j)) by {
      MeetsAndNot(a, b, Bit(j));
    }
  }

  /** Some id is in every nonzero mask. */
  lemma NonzeroHasId(m: bv16)
    requires m != 0
    ensures exists i: TouchId :: Has(m, i)
  {
    assert Has(m, 0) || Has(m, 1) || Has(m, 2) || Has(m, 3)
        || Has(m, 4) || Has(m, 5) || Has(m, 6) || Has(m, 7)
        || Has(m, 8) || Has(m, 9) || Has(m, 10) || Has(m, 11)
        || Has(m, 12) || Has(m, 13) || Has(m, 14) || Has(m, 15);
  }

  /** `known_ids == 0` is the test for "no known touches". */
  lemma IdSetEmpty(m: bv16)
    ensures IdSet(m) == {} <==> m == 0
  {
    if m != 0 {
      NonzeroHasId(m);
      var i: TouchId :| Has(m, i);
      assert i in IdSet(m);
    }
  }

  /** `modified_ids |= BIT(touchid)` adds touchid to the set. */
  lemma IdSetWithBit(m: bv16, i: TouchId)
    ensures IdSet(m | Bit(i)) == IdSet(m) + {i}
  {
    forall j: TouchId ensures j in IdSet(m | Bit(i)) <==> j in IdSet(m) + {i} {
      HasWithBit(m, i, j);
    }
  }

  /** `known_ids & ~modified_ids` is the set difference. */
  lemma IdSetAndNot(a: bv16, b: bv16)
    ensures IdSet(a & !b) == IdSet(a) - IdSet(b)
  {
    forall j: TouchId ensures j in IdSet(a & !b) <==> j in IdSet(a) - IdSet(b) {
      HasAndNot(a, b, j);
    }
  }

  /** `modified_ids &= ~BIT(i)` removes id i from the set. */
  lemma IdSetClearBit(m: bv16, i: TouchId)
    ensures IdSet(m & !Bit(i)) == IdSet(m) - {i}
  {
    forall j: TouchId ensures j in IdSet(m & !Bit(i)) <==> j in IdSet(m) - {i} {
      HasAndNot(m, Bit(i), j);
      HasOnlyOwnBit(i, j);
    }
  }

  /** A mask is fixed by the ids it holds: two masks hold the same ids exactly when they are equal. */
  lemma IdSetInjective(a: bv16, b: bv16)
    ensures IdSet(a) == IdSet(b) <==> a == b
  {
    if IdSet(a) == IdSet(b) {
      IdSetAndNot(a, b);
      IdSetEmpty(a & !b);
      IdSetAndNot(b, a);
      IdSetEmpty(b & !a);
    }
  }
}
