/** The OPL2 register state machine (`OPL2Quieter`): a 256-byte register
    bank replayed write by write, which rewrites the output-level bits of
    level-register writes that are audible under the channel's current
    synthesis mode. */
module Quieter {
  import opened Dro
  import opened Classifier

  /** The chip's register file, one byte per register number. */
  type Bank = b: seq<Byte> | |b| == 256 witness Zeros(256)

  /** `n` zero bytes. */
  function Zeros(n: nat): (r: seq<Byte>)
    ensures |r| == n
    ensures forall i :: 0 <= i < n ==> r[i] == 0
  {
    if n == 0 then [] else [0] + Zeros(n - 1)
  }

  /** The bank at the start of a pass: every register zero. */
  const PowerOnBank: Bank := Zeros(256)

  /** A quiet function maps a 6-bit output level (0 loudest, 63 silent) to a
      new level; the state machine keeps only its low six bits. */
  type QuietFunction = nat -> nat

  /** The low six bits of a non-negative integer, `x & 0x3F`. */
  function Low6(x: nat): (r: nat)
    ensures r < 64
  {
    x % 64
  }

  /** The key-scale-level field of a level-register value, `value & 0xC0`
      (its two high bits, in place). */
  function Ksl(value: Byte): Byte {
    (value / 64) * 64
  }

  /** The output-level field of a level-register value, `value & 0x3F`. */
  function Level(value: Byte): nat {
    value as int % 64
  }

  /** A byte is its KSL field plus its level field. */
  lemma Fields(value: Byte)
    ensures Ksl(value) as int + Level(value) == value as int
    ensures Ksl(value) % 64 == 0
  {
  }

  /** Rewrites the level field of a level-register value: the two KSL bits
      are kept and the six level bits are replaced by `f` of the old ones
      (the two fields are disjoint, so their OR is their sum). */
  function Attenuate(f: QuietFunction, value: Byte): (r: Byte)
    ensures Ksl(r) == Ksl(value)
    ensures Level(r) == Low6(f(Level(value)))
  {
    Ksl(value) + Low6(f(Level(value))) as Byte
  }

  /** The channel of a mapped level register is in FM mode: bit 0 of its
      algorithm/feedback register is clear. */
  predicate IsFm(bank: Bank, register: Byte)
    requires register as int in LevelToAlgorithm
  {
    bank[LevelToAlgorithm[register as int] as int] % 2 == 0
  }

  /** A mapped level register is audible: a carrier, or any operator of a
      channel in additive mode. */
  predicate IsAudible(bank: Bank, register: Byte)
    requires register as int in LevelToAlgorithm
  {
    !IsFm(bank, register) || register in Carriers
  }

  /** What `OPL2Quieter.write` hands back: the register, the final value,
      and the bank after the write. */
  datatype Written = Written(register: Byte, value: Byte, bank: Bank)

  /** One register write through the quieter. */
  function Write(f: QuietFunction, bank: Bank, register: Byte, value: Byte): (r: Result<Written>)
    ensures r.Failure? <==> IsUnmappedLevel(register)
    ensures r.Failure? ==> r.error == UnmappedLevelRegister(register)
    ensures r.Success? ==> r.value.register == register
    ensures r.Success? ==> r.value.bank[register as int] == r.value.value
    ensures r.Success? ==> forall i :: 0 <= i < 256 && i != register as int ==> r.value.bank[i] == bank[i]
    ensures r.Success? && !IsLevelRegister(register) ==> r.value.value == value
    ensures r.Success? && IsLevelRegister(register) && !IsAudible(bank, register) ==> r.value.value == value
    ensures r.Success? && IsLevelRegister(register) && IsAudible(bank, register) ==>
              Ksl(r.value.value) == Ksl(value) && Level(r.value.value) == Low6(f(Level(value)))
  {
    if IsLevelRegister(register) then
      if register as int !in LevelToAlgorithm then
        Failure(UnmappedLevelRegister(register))
      else
        var algorithm := bank[LevelToAlgorithm[register as int] as int] % 2;
        var modifyLevel := if algorithm == 0x00 then register in Carriers else true;
        var v := if modifyLevel then Attenuate(f, value) else value;
        Success(Written(register, v, bank[register as int := v]))
    else
      Success(Written(register, value, bank[register as int := value]))
  }

  /** In FM mode a modulator's level write passes through untouched. */
  lemma FmModulatorUnchanged(f: QuietFunction, bank: Bank, register: Byte, value: Byte)
    requires register as int in LevelToAlgorithm && register !in Carriers
    requires bank[LevelToAlgorithm[register as int] as int] % 2 == 0
    ensures Write(f, bank, register, value) == Success(Written(register, value, bank[register as int := value]))
  {
  }

  /** In FM mode a carrier's level write is attenuated. */
  lemma FmCarrierAttenuated(f: QuietFunction, bank: Bank, register: Byte, value: Byte)
    requires register in Carriers
    requires bank[LevelToAlgorithm[register as int] as int] % 2 == 0
    ensures var v := Attenuate(f, value);
            Write(f, bank, register, value) == Success(Written(register, v, bank[register as int := v]))
  {
    TablesConsistent();
  }

  /** In additive mode both operators' level writes are attenuated. */
  lemma AdditiveAttenuated(f: QuietFunction, bank: Bank, register: Byte, value: Byte)
    requires register as int in LevelToAlgorithm
    requires bank[LevelToAlgorithm[register as int] as int] % 2 == 1
    ensures var v := Attenuate(f, value);
            Write(f, bank, register, value) == Success(Written(register, v, bank[register as int := v]))
  {
  }

  /** A carrier's level write is attenuated in either synthesis mode, so
      whatever the bank holds. */
  lemma CarrierAttenuated(f: QuietFunction, bank: Bank, register: Byte, value: Byte)
    requires register in Carriers
    ensures var v := Attenuate(f, value);
            Write(f, bank, register, value) == Success(Written(register, v, bank[register as int := v]))
  {
    TablesConsistent();
  }

  /** Two banks agree on every algorithm/feedback register, so they put
      every channel in the same synthesis mode. */
  ghost predicate SameModes(b1: Bank, b2: Bank) {
    forall k :: k in LevelToAlgorithm ==> b1[LevelToAlgorithm[k] as int] == b2[LevelToAlgorithm[k] as int]
  }

  /** Attenuating with `fa` and then with `fb` is attenuating with `fab`. */
  lemma AttenuateComposes(fa: QuietFunction, fb: QuietFunction, fab: QuietFunction, value: Byte)
    requires ComposesTo(fa, fb, fab)
    ensures Attenuate(fb, Attenuate(fa, value)) == Attenuate(fab, value)
  {
    var once := Attenuate(fa, value);
    assert Low6(fb(Level(once))) == Low6(fab(Level(value)));
    AttenuateAgrees(fb, fab, once, value);
  }

  /** Two attenuations agree when their inputs share the KSL bits and their
      quiet functions produce the same new level. */
  lemma AttenuateAgrees(fa: QuietFunction, fb: QuietFunction, x: Byte, y: Byte)
    requires Ksl(x) == Ksl(y)
    requires Low6(fa(Level(x))) == Low6(fb(Level(y)))
    ensures Attenuate(fa, x) == Attenuate(fb, y)
  {
    SameFields(Attenuate(fa, x), Attenuate(fb, y));
  }

  /** A byte is determined by its KSL and level fields. */
  lemma SameFields(x: Byte, y: Byte)
    requires Ksl(x) == Ksl(y) && Level(x) == Level(y)
    ensures x == y
  {
    Fields(x);
    Fields(y);
  }

  /** Replaying a write that `fa` already rewrote through `fb` gives what
      `fab` gives on the original write, provided both banks agree on the
      synthesis modes; the banks written by the `fa` and `fab` writes then
      still agree on the modes. */
  lemma {:induction false} WriteComposes(fa: QuietFunction, fb: QuietFunction, fab: QuietFunction,
                                          b1: Bank, b2: Bank, register: Byte, value: Byte)
    requires ComposesTo(fa, fb, fab) && SameModes(b1, b2)
    requires !IsUnmappedLevel(register)
    ensures var once := Write(fa, b1, register, value).value;
            var twice := Write(fb, b2, register, once.value);
            twice == Write(fab, b2, register, value) && SameModes(once.bank, twice.value.bank)
  {
    TablesConsistent();
    var audible := IsLevelRegister(register) && IsAudible(b1, register);
    assert audible == (IsLevelRegister(register) && IsAudible(b2, register));
    var v1 := if audible then Attenuate(fa, value) else value;
    var v2 := if audible then Attenuate(fb, v1) else v1;
    var v3 := if audible then Attenuate(fab, value) else value;
    WriteStores(fa, b1, register, value);
    WriteStores(fb, b2, register, v1);
    WriteStores(fab, b2, register, value);
    if audible {
      AttenuateComposes(fa, fb, fab, value);
    }
    assert v2 == v3;
  }

  /** What a write of a register with an algorithm entry (or no level
      register at all) stores. */
  lemma WriteStores(f: QuietFunction, bank: Bank, register: Byte, value: Byte)
    requires !IsUnmappedLevel(register)
    ensures var v := if IsLevelRegister(register) && IsAudible(bank, register) then Attenuate(f, value) else value;
            Write(f, bank, register, value) == Success(Written(register, v, bank[register as int := v]))
  {
  }

  /** Quiet functions that agree on all 6-bit levels make identical writes. */
  lemma WriteRespectsLevels(fa: QuietFunction, fb: QuietFunction, bank: Bank, register: Byte, value: Byte)
    requires SameOnLevels(fa, fb)
    ensures Write(fa, bank, register, value) == Write(fb, bank, register, value)
  {
    var level := Level(value);
    assert Low6(fa(level)) == Low6(fb(level));
  }

  // ---------------------------------------------------------------------
  // Quiet functions

  /** `f` leaves every 6-bit level as it is (after the state machine's mask). */
  ghost predicate KeepsLevels(f: QuietFunction) {
    forall level: nat :: level < 64 ==> Low6(f(level)) == level
  }

  /** Applying `fa` and then `fb` to a level is the same, after masking, as
      applying `fab` once. */
  ghost predicate ComposesTo(fa: QuietFunction, fb: QuietFunction, fab: QuietFunction) {
    forall level: nat :: level < 64 ==> Low6(fb(Low6(fa(level)))) == Low6(fab(level))
  }

  /** `fa` and `fb` agree on every 6-bit level, after masking. */
  ghost predicate SameOnLevels(fa: QuietFunction, fb: QuietFunction) {
    forall level: nat :: level < 64 ==> Low6(fa(level)) == Low6(fb(level))
  }

  /** The quiet function installed by the script as written:
      `max(level - level, 0)`.  The requested amount `n` is never used, so
      every attenuated level becomes 0. */
  function SourceQuiet(n: int): (g: QuietFunction)
    ensures forall level: nat :: g(level) == 0
  {
    (level: nat) => if level - level > 0 then level - level else 0
  }

  /** The evidently intended quiet function `max(level - n, 0)`: lower the
      attenuation value by `n`, clamped at 0. */
  function ReduceBy(n: int): (g: QuietFunction)
    ensures forall level: nat :: g(level) + n >= level && (g(level) == 0 || g(level) + n == level)
  {
    (level: nat) => if level - n > 0 then level - n else 0
  }

  /** A quiet function that keeps every level makes the write value-neutral. */
  lemma AttenuateKeeps(f: QuietFunction, value: Byte)
    requires KeepsLevels(f)
    ensures Attenuate(f, value) == value
  {
    var level := Level(value);
    assert Low6(f(level)) == level;
  }

  /** The as-written quiet function zeroes the level field whatever `n` is:
      only the KSL bits survive. */
  lemma SourceQuietZeroesLevel(n: int, value: Byte)
    ensures Attenuate(SourceQuiet(n), value) == Ksl(value)
  {
  }

  /** A reduction by 0 keeps every level. */
  lemma ReduceByZeroKeeps()
    ensures KeepsLevels(ReduceBy(0))
  {
  }

  /** A reduction by 63 or more drives every attenuated level to 0. */
  lemma ReduceByClamps(n: int, value: Byte)
    requires n >= 63
    ensures Level(Attenuate(ReduceBy(n), value)) == 0
  {
  }

  /** Reductions by non-negative amounts add up: the clamp at 0 absorbs any
      excess, so reducing by `a` and then by `b` is reducing by `a + b`. */
  lemma ReduceByComposes(a: int, b: int)
    requires a >= 0 && b >= 0
    ensures ComposesTo(ReduceBy(a), ReduceBy(b), ReduceBy(a + b))
  {
    forall level: nat | level < 64
      ensures Low6(ReduceBy(b)(Low6(ReduceBy(a)(level)))) == Low6(ReduceBy(a + b)(level))
    {
      ReduceStays(a, level);
      var once := ReduceBy(a)(level);
      ReduceStays(b, once);
      ReduceStays(a + b, level);
      assert ReduceBy(b)(once) == ReduceBy(a + b)(level);
    }
  }

  /** A reduction of a 6-bit level by a non-negative amount is a 6-bit
      level, so the state machine's mask leaves it alone. */
  lemma ReduceStays(n: int, level: nat)
    requires n >= 0 && level < 64
    ensures ReduceBy(n)(level) <= level
    ensures Low6(ReduceBy(n)(level)) == ReduceBy(n)(level)
  {
  }

  /** The discrepancy at a concrete input: a carrier level of 0x25 with a
      requested reduction of 5 becomes 0x00 as written, not 0x20. */
  lemma SourceQuietCounterexample()
    ensures Attenuate(SourceQuiet(5), 0x25) == 0x00
    ensures Attenuate(ReduceBy(5), 0x25) == 0x20
  {
  }
}
