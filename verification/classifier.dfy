/** The fixed OPL2 register tables: which registers hold operator levels,
    which algorithm/feedback register governs each level register, and which
    operators are carriers. */
module Classifier {
  import opened Dro

  /** Level registers of the carrier (output) operator of each of the nine
      channels. */
  const Carriers: set<Byte> := {0x43, 0x44, 0x45, 0x4B, 0x4C, 0x4D, 0x53, 0x54, 0x55}

  /** For each level register, the algorithm/feedback register (0xC0..0xC8)
      the script assigns to it, keyed by the register number.  The table
      pairs adjacent level registers, so it is not the chip's own operator
      layout.  Four level registers in 0x40..0x55 have no entry. */
  const LevelToAlgorithm: map<int, Byte> := map[
    0x40 := 0xC0, 0x41 := 0xC0, 0x42 := 0xC1, 0x43 := 0xC1, 0x44 := 0xC2, 0x45 := 0xC2,
    0x48 := 0xC3, 0x49 := 0xC3, 0x4A := 0xC4, 0x4B := 0xC4, 0x4C := 0xC5, 0x4D := 0xC5,
    0x50 := 0xC6, 0x51 := 0xC6, 0x52 := 0xC7, 0x53 := 0xC7, 0x54 := 0xC8, 0x55 := 0xC8
  ]

  /** Key-scale-level / output-level registers. */
  predicate IsLevelRegister(register: Byte) {
    0x40 <= register <= 0x55
  }

  /** A level register whose algorithm lookup fails. */
  predicate IsUnmappedLevel(register: Byte) {
    IsLevelRegister(register) && register as int !in LevelToAlgorithm
  }

  /** Exactly 0x46, 0x47, 0x4E and 0x4F are level registers without an
      algorithm register; every table key is a level register. */
  lemma UnmappedLevelRegisters()
    ensures forall r: Byte :: IsUnmappedLevel(r) <==> r == 0x46 || r == 0x47 || r == 0x4E || r == 0x4F
    ensures forall k :: k in LevelToAlgorithm ==> 0x40 <= k <= 0x55
  {
  }

  /** Every carrier is a mapped level register, and no algorithm register is
      itself a level register, so storing a level never changes a mode bit. */
  lemma TablesConsistent()
    ensures forall r :: r in Carriers ==> r as int in LevelToAlgorithm
    ensures forall k :: k in LevelToAlgorithm ==> !IsLevelRegister(LevelToAlgorithm[k])
  {
  }
}
