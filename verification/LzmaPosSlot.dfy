/** The table-driven slot of a distance. */
module LzmaPosSlot {
  import opened Powers
  import opened LzmaSyntax
  import opened LzmaPackets

  /** kNumLogBits: 13 where size_t has 8 bytes, 11 where it has 4. */
  predicate LogBitsOk(logBits: nat) { logBits == 11 || logBits == 13 }

  /** The smallest number of a slot, for slots from 2. */
  function SlotStart(slot: nat): nat
    requires 2 <= slot
  {
    SlotBase(slot, slot / 2 - 1)
  }

  lemma {:induction false} SlotOfRange(slot: nat, pos: nat)
    requires 2 <= slot && SlotStart(slot) <= pos < SlotStart(slot) + Pow2(slot / 2 - 1)
    ensures SlotOf(pos) == slot
    decreases slot
  {
    hide Doubled, Pow2, SlotBase;
    if slot < 4 {
      FirstStarts(slot);
    } else {
      StartHalves(slot);
      SlotOfRange(slot - 2, pos / 2);
    }
  }

  lemma {:induction false} FirstStarts(slot: nat)
    requires 2 <= slot < 4
    ensures SlotStart(slot) == slot && Pow2(slot / 2 - 1) == 1
  {
    assert Pow2(0) == 1;
  }

  lemma {:induction false} StartHalves(slot: nat)
    requires 4 <= slot
    ensures SlotStart(slot) == 2 * SlotStart(slot - 2) && 4 <= SlotStart(slot) && Pow2(slot / 2 - 1) == 2 * Pow2((slot - 2) / 2 - 1)
  {
    var n := slot / 2 - 1;
    assert (slot - 2) / 2 - 1 == n - 1 && (slot - 2) % 2 == slot % 2;
    assert Doubled(2 + slot % 2, n) == 2 * Doubled(2 + slot % 2, n - 1) && Pow2(n) == 2 * Pow2(n - 1);
    DoubledAbove(2 + slot % 2, n - 1);
  }

  lemma NextSlot(slot: nat)
    requires 2 <= slot
    ensures SlotStart(slot + 1) == SlotStart(slot) + Pow2(slot / 2 - 1)
  {
    hide Doubled;
    var n := slot / 2 - 1;
    DoubledIsTimes(2, n);
    DoubledIsTimes(3, n);
    DoubledIsTimes(2, n + 1);
    if slot % 2 == 0 {
      assert (slot + 1) / 2 - 1 == n;
    } else {
      assert (slot + 1) / 2 - 1 == n + 1;
    }
  }

  lemma {:induction false} SlotShift(pos: nat, z: nat)
    requires 2 * Pow2(z) <= pos
    ensures 2 <= pos / Pow2(z) && SlotOf(pos) == SlotOf(pos / Pow2(z)) + 2 * z
  {
    if z != 0 {
      DivDiv(pos, 2, Pow2(z - 1));
      SlotShift(pos / 2, z - 1);
      assert 4 <= pos;
    }
  }

  /** LzmaEnc_FastPosInit: the table holds the slot of each of its indices. */
  method FastPosInit(table: array<int>, logBits: nat)
    requires LogBitsOk(logBits) && table.Length == Pow2(logBits)
    modifies table
    ensures forall i :: 0 <= i < table.Length ==> table[i] == SlotOf(i)
  {
    hide Pow2, SlotOf, Doubled, SlotStart, SlotBase;
    FirstSlots(logBits);
    table[0] := 0;
    table[1] := 1;
    var g := 2;
    for slot := 2 to logBits * 2
      invariant g == SlotStart(slot) <= table.Length
      invariant forall i :: 0 <= i < g ==> table[i] == SlotOf(i)
    {
      var k := Pow2(slot / 2 - 1);
      NextSlot(slot);
      StartsInside(slot + 1, logBits);
      for j := 0 to k
        invariant forall i :: 0 <= i < g + j ==> table[i] == SlotOf(i)
      {
        SlotOfRange(slot, g + j);
        table[g + j] := slot;
      }
      g := g + k;
    }
    StartsInside(logBits * 2, logBits);
  }

  lemma FirstSlots(logBits: nat)
    requires LogBitsOk(logBits)
    ensures SlotOf(0) == 0 && SlotOf(1) == 1 && SlotStart(2) == 2 && 2 <= Pow2(logBits)
  {
    StartsInside(2, logBits);
  }

  /** Every slot below 2 * logBits starts inside the table. */
  lemma {:induction false} StartsInside(slot: nat, logBits: nat)
    requires 2 <= slot <= 2 * logBits
    ensures SlotStart(slot) <= Pow2(logBits)
    ensures slot == 2 * logBits ==> SlotStart(slot) == Pow2(logBits)
    decreases 2 * logBits - slot
  {
    if slot == 2 * logBits {
      DoubledIsTimes(2, logBits - 1);
    } else {
      NextSlot(slot);
      StartsInside(slot + 1, logBits);
    }
  }

  /** Distances the two look-ups cover: up to kDicLogSizeMaxCompress bits. */
  predicate Covered(dist: nat, logBits: nat) { dist < Pow2(2 * logBits + 5) }

  /** GetPosSlot: one look-up in the table, of the distance itself or of its upper bits. */
  method GetPosSlot(table: array<int>, logBits: nat, dist: nat) returns (slot: int)
    requires LogBitsOk(logBits) && table.Length == Pow2(logBits) && Covered(dist, logBits)
    requires forall i :: 0 <= i < table.Length ==> table[i] == SlotOf(i)
    ensures slot == SlotOf(dist)
  {
    Pow2Values();
    if dist < 128 {
      Pow2Mono(7, logBits);
      slot := table[dist];
    } else {
      var zz := if dist < Pow2(logBits + 6) then 6 else 6 + logBits - 1;
      ShiftInside(dist, logBits);
      SlotShift(dist, zz);
      slot := table[dist / Pow2(zz)] + zz * 2;
    }
  }

  lemma ShiftInside(dist: nat, logBits: nat)
    requires LogBitsOk(logBits) && 128 <= dist && Covered(dist, logBits)
    ensures var zz := if dist < Pow2(logBits + 6) then 6 else 6 + logBits - 1;
            2 * Pow2(zz) <= dist && dist / Pow2(zz) < Pow2(logBits)
  {
    var zz := if dist < Pow2(logBits + 6) then 6 else 6 + logBits - 1;
    Pow2Values();
    assert Pow2(6 + logBits) == 2 * Pow2(6 + logBits - 1);
    Pow2Add(logBits, zz);
    DivBelow(dist, Pow2(logBits), Pow2(zz));
  }
}
