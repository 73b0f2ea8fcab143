/** The pair loop of `quieter_main`: every (register, value) pair of the
    stream is either a delay, passed through as it is, or a register write,
    translated through the codemap and run through the register state
    machine; the original register byte is always re-emitted. */
module Transcoder {
  import opened Dro
  import opened Classifier
  import opened Quieter

  /** The header fields and table the loop consults. */
  datatype Tables = Tables(shortDelay: Byte, longDelay: Byte, codemap: seq<Byte>)

  /** The compact register index with the bank-select bit 0x80 removed:
      the bit is tested and, when set, flipped off. */
  function BankMask(register: Byte): (r: Byte)
    ensures r as int == register as int % 0x80
  {
    if register >= 0x80 then register - 0x80 else register
  }

  /** A pair whose masked register is one of the two delay codes. */
  predicate IsDelay(t: Tables, p: Pair) {
    var index := BankMask(p.register);
    index == t.shortDelay || index == t.longDelay
  }

  /** The masked register indexes an entry of the codemap. */
  predicate InCodemap(t: Tables, p: Pair) {
    BankMask(p.register) as int < |t.codemap|
  }

  /** The real chip register a write pair addresses. */
  function RealRegister(t: Tables, p: Pair): Byte
    requires InCodemap(t, p)
  {
    t.codemap[BankMask(p.register) as int]
  }

  /** A write pair the loop cannot process: its index is past the codemap,
      or it addresses a level register with no algorithm register. */
  predicate Faulty(t: Tables, p: Pair) {
    !IsDelay(t, p) && (!InCodemap(t, p) || IsUnmappedLevel(RealRegister(t, p)))
  }

  /** The failure a faulty pair ends the pass with. */
  function FaultOf(t: Tables, p: Pair): Error
    requires Faulty(t, p)
  {
    if !InCodemap(t, p) then CodemapIndexOutOfRange(BankMask(p.register))
    else UnmappedLevelRegister(RealRegister(t, p))
  }

  /** `pairs[i]` is the first faulty pair of `pairs`. */
  predicate FirstFault(t: Tables, pairs: seq<Pair>, i: int) {
    0 <= i < |pairs| && Faulty(t, pairs[i]) && forall j :: 0 <= j < i ==> !Faulty(t, pairs[j])
  }

  /** A write pair to a register that is not a level register. */
  predicate IsPlainWrite(t: Tables, p: Pair) {
    !IsDelay(t, p) && InCodemap(t, p) && !IsLevelRegister(RealRegister(t, p))
  }

  /** Some write pair of `pairs` stores into bank cell `c`. */
  predicate Touches(t: Tables, pairs: seq<Pair>, c: int) {
    exists i :: 0 <= i < |pairs| && WritesCell(t, pairs[i], c)
  }

  predicate WritesCell(t: Tables, p: Pair, c: int) {
    !IsDelay(t, p) && InCodemap(t, p) && RealRegister(t, p) as int == c
  }

  /** A write pair to the level register of a channel's carrier. */
  predicate IsCarrierWrite(t: Tables, p: Pair) {
    !IsDelay(t, p) && InCodemap(t, p) && RealRegister(t, p) in Carriers
  }

  /** A write pair to the mapped level register of a channel's modulator. */
  predicate IsModulatorWrite(t: Tables, p: Pair) {
    && !IsDelay(t, p) && InCodemap(t, p)
    && RealRegister(t, p) as int in LevelToAlgorithm && RealRegister(t, p) !in Carriers
  }

  /** The algorithm/feedback register governing a modulator write. */
  function AlgorithmOf(t: Tables, p: Pair): int
    requires IsModulatorWrite(t, p)
  {
    LevelToAlgorithm[RealRegister(t, p) as int] as int
  }

  /** The register state machine and the emitted pair after one step. */
  datatype Stepped = Stepped(pair: Pair, bank: Bank)

  /** One iteration of the pair loop. */
  function Step(f: QuietFunction, t: Tables, bank: Bank, p: Pair): (r: Result<Stepped>)
    ensures r.Failure? <==> Faulty(t, p)
    ensures r.Failure? ==> r.error == FaultOf(t, p)
    ensures r.Success? ==> r.value.pair.register == p.register
    ensures r.Success? && IsDelay(t, p) ==> r.value == Stepped(p, bank)
    ensures r.Success? && !IsDelay(t, p) ==>
              InCodemap(t, p) &&
              Write(f, bank, RealRegister(t, p), p.value)
                == Success(Written(RealRegister(t, p), r.value.pair.value, r.value.bank))
  {
    var index := BankMask(p.register);
    if index == t.shortDelay || index == t.longDelay then
      Success(Stepped(p, bank))
    else if index as int >= |t.codemap| then
      Failure(CodemapIndexOutOfRange(index))
    else
      match Write(f, bank, t.codemap[index], p.value)
      case Failure(e) => Failure(e)
      case Success(w) => Success(Stepped(Pair(p.register, w.value), w.bank))
  }

  /** The pairs emitted by a pass and the register bank it leaves behind. */
  datatype Transcoded = Transcoded(pairs: seq<Pair>, bank: Bank)

  /** Runs the loop over `pairs`, threading the register bank. */
  function Transcode(f: QuietFunction, t: Tables, bank: Bank, pairs: seq<Pair>): (r: Result<Transcoded>)
    ensures r.Failure? <==> exists i :: 0 <= i < |pairs| && Faulty(t, pairs[i])
    ensures r.Failure? ==> exists i :: FirstFault(t, pairs, i) && r.error == FaultOf(t, pairs[i])
    ensures r.Success? ==> |r.value.pairs| == |pairs|
    ensures r.Success? ==> forall i :: 0 <= i < |pairs| ==> r.value.pairs[i].register == pairs[i].register
    ensures r.Success? ==> forall i :: 0 <= i < |pairs| && IsDelay(t, pairs[i]) ==> r.value.pairs[i] == pairs[i]
    ensures r.Success? ==> forall i :: 0 <= i < |pairs| && IsPlainWrite(t, pairs[i]) ==> r.value.pairs[i] == pairs[i]
    ensures r.Success? ==> forall c :: 0 <= c < 256 && !Touches(t, pairs, c) ==> r.value.bank[c] == bank[c]
    decreases |pairs|
  {
    if |pairs| == 0 then
      Success(Transcoded([], bank))
    else
      match Step(f, t, bank, pairs[0])
      case Failure(e) => Failure(e)
      case Success(s) =>
        match Transcode(f, t, s.bank, pairs[1..])
        case Failure(e) => Failure(e)
        case Success(rest) => Success(Transcoded([s.pair] + rest.pairs, rest.bank))
  }

  /** With a quiet function that keeps every level, a pass emits exactly
      the pairs it read. */
  lemma {:induction false} TranscodeKeeps(f: QuietFunction, t: Tables, bank: Bank, pairs: seq<Pair>)
    requires KeepsLevels(f)
    requires Transcode(f, t, bank, pairs).Success?
    ensures Transcode(f, t, bank, pairs).value.pairs == pairs
    decreases |pairs|
  {
    if |pairs| > 0 {
      var p := pairs[0];
      var s := Step(f, t, bank, p).value;
      if !IsDelay(t, p) {
        WriteStores(f, bank, RealRegister(t, p), p.value);
        AttenuateKeeps(f, p.value);
        assert s.pair == p;
      }
      TranscodeKeeps(f, t, s.bank, pairs[1..]);
      assert pairs == [p] + pairs[1..];
    }
  }

  /** Running the loop with `fb` over the output of a pass with `fa` gives
      the result of one pass with `fab`, when `fa` then `fb` composes to
      `fab` on levels.  The banks of the two `fa`-side passes need only agree
      on the synthesis modes, because level writes never change a mode. */
  lemma {:induction false} TranscodeComposes(fa: QuietFunction, fb: QuietFunction, fab: QuietFunction,
                                              t: Tables, b1: Bank, b2: Bank, pairs: seq<Pair>)
    requires ComposesTo(fa, fb, fab) && SameModes(b1, b2)
    requires Transcode(fa, t, b1, pairs).Success?
    ensures Transcode(fb, t, b2, Transcode(fa, t, b1, pairs).value.pairs) == Transcode(fab, t, b2, pairs)
    decreases |pairs|
  {
    if |pairs| > 0 {
      var p := pairs[0];
      var first := Transcode(fa, t, b1, pairs).value;
      var s1 := Step(fa, t, b1, p).value;
      var rest1 := Transcode(fa, t, s1.bank, pairs[1..]).value;
      assert first.pairs == [s1.pair] + rest1.pairs;
      assert first.pairs[0] == s1.pair && first.pairs[1..] == rest1.pairs;
      var s2 := Step(fb, t, b2, s1.pair);
      var s3 := Step(fab, t, b2, p);
      if !IsDelay(t, p) {
        WriteComposes(fa, fb, fab, b1, b2, RealRegister(t, p), p.value);
      }
      assert s2 == s3;
      TranscodeComposes(fa, fb, fab, t, s1.bank, s3.value.bank, pairs[1..]);
    }
  }

  /** Quiet functions that agree on every 6-bit level give identical passes. */
  lemma {:induction false} TranscodeRespectsLevels(fa: QuietFunction, fb: QuietFunction,
                                                    t: Tables, bank: Bank, pairs: seq<Pair>)
    requires SameOnLevels(fa, fb)
    ensures Transcode(fa, t, bank, pairs) == Transcode(fb, t, bank, pairs)
    decreases |pairs|
  {
    if |pairs| > 0 {
      var p := pairs[0];
      if !IsDelay(t, p) && InCodemap(t, p) {
        WriteRespectsLevels(fa, fb, bank, RealRegister(t, p), p.value);
      }
      if Step(fa, t, bank, p).Success? {
        TranscodeRespectsLevels(fa, fb, t, Step(fa, t, bank, p).value.bank, pairs[1..]);
      }
    }
  }

  /** Every carrier write of a successful pass comes out attenuated, from
      any starting bank. */
  lemma {:induction false} TranscodeCarriers(f: QuietFunction, t: Tables, bank: Bank, pairs: seq<Pair>)
    requires Transcode(f, t, bank, pairs).Success?
    ensures var out := Transcode(f, t, bank, pairs).value.pairs;
            forall i :: 0 <= i < |pairs| && IsCarrierWrite(t, pairs[i]) ==>
              out[i] == Pair(pairs[i].register, Attenuate(f, pairs[i].value))
    decreases |pairs|
  {
    if |pairs| > 0 {
      var p := pairs[0];
      var s := Step(f, t, bank, p).value;
      if IsCarrierWrite(t, p) {
        CarrierAttenuated(f, bank, RealRegister(t, p), p.value);
      }
      var rest := Transcode(f, t, s.bank, pairs[1..]).value;
      TranscodeCarriers(f, t, s.bank, pairs[1..]);
      var out := Transcode(f, t, bank, pairs).value.pairs;
      assert out == [s.pair] + rest.pairs;
      forall i | 0 < i < |pairs| && IsCarrierWrite(t, pairs[i])
        ensures out[i] == Pair(pairs[i].register, Attenuate(f, pairs[i].value))
      {
        assert pairs[i] == pairs[1..][i - 1] && out[i] == rest.pairs[i - 1];
      }
    }
  }

  /** The value bank cell `c` holds after the write pairs of `pairs`,
      starting from `d`: the value of the last pair that writes it. */
  function LastValue(t: Tables, d: Byte, pairs: seq<Pair>, c: int): Byte
    decreases |pairs|
  {
    if |pairs| == 0 then d
    else LastValue(t, if WritesCell(t, pairs[0], c) then pairs[0].value else d, pairs[1..], c)
  }

  /** A cell no pair writes keeps its starting value. */
  lemma {:induction false} LastValueUntouched(t: Tables, d: Byte, pairs: seq<Pair>, c: int)
    requires !Touches(t, pairs, c)
    ensures LastValue(t, d, pairs, c) == d
    decreases |pairs|
  {
    if |pairs| > 0 {
      assert !WritesCell(t, pairs[0], c) by {
        assert pairs[0] == pairs[0];
      }
      assert !Touches(t, pairs[1..], c) by {
        forall k | 0 <= k < |pairs[1..]|
          ensures !WritesCell(t, pairs[1..][k], c)
        {
          assert pairs[1..][k] == pairs[k + 1];
        }
      }
      LastValueUntouched(t, d, pairs[1..], c);
    }
  }

  /** Every modulator write is judged by the mode its channel is in at that
      point of the stream: the algorithm register's value in the starting
      bank, overwritten by the last earlier pair that writes it.  FM mode
      passes the write unchanged, additive mode attenuates it. */
  lemma {:induction false} TranscodeModulators(f: QuietFunction, t: Tables, bank: Bank, pairs: seq<Pair>)
    requires Transcode(f, t, bank, pairs).Success?
    ensures var out := Transcode(f, t, bank, pairs).value.pairs;
            forall i :: 0 <= i < |pairs| && IsModulatorWrite(t, pairs[i]) ==>
              out[i] == if LastValue(t, bank[AlgorithmOf(t, pairs[i])], pairs[..i], AlgorithmOf(t, pairs[i])) % 2 == 0
                        then pairs[i]
                        else Pair(pairs[i].register, Attenuate(f, pairs[i].value))
    decreases |pairs|
  {
    if |pairs| > 0 {
      var p := pairs[0];
      var s := Step(f, t, bank, p).value;
      if IsModulatorWrite(t, p) {
        assert pairs[..0] == [];
        if bank[AlgorithmOf(t, p)] % 2 == 0 {
          FmModulatorUnchanged(f, bank, RealRegister(t, p), p.value);
        } else {
          AdditiveAttenuated(f, bank, RealRegister(t, p), p.value);
        }
      }
      var rest := Transcode(f, t, s.bank, pairs[1..]).value;
      TranscodeModulators(f, t, s.bank, pairs[1..]);
      var out := Transcode(f, t, bank, pairs).value.pairs;
      assert out == [s.pair] + rest.pairs;
      forall i | 0 < i < |pairs| && IsModulatorWrite(t, pairs[i])
        ensures out[i] == if LastValue(t, bank[AlgorithmOf(t, pairs[i])], pairs[..i], AlgorithmOf(t, pairs[i])) % 2 == 0
                          then pairs[i]
                          else Pair(pairs[i].register, Attenuate(f, pairs[i].value))
      {
        var c := AlgorithmOf(t, pairs[i]);
        TablesConsistent();
        assert pairs[i] == pairs[1..][i - 1] && out[i] == rest.pairs[i - 1];
        assert s.bank[c] == if WritesCell(t, p, c) then p.value else bank[c] by {
          if !IsDelay(t, p) {
            WriteStores(f, bank, RealRegister(t, p), p.value);
          }
        }
        assert pairs[..i][0] == p && pairs[..i][1..] == pairs[1..][..i - 1];
      }
    }
  }

  /** One step of the loop followed by the rest of the pass. */
  lemma TranscodeUnfold(f: QuietFunction, t: Tables, bank: Bank, p: Pair, s: Stepped, pairs: seq<Pair>, rest: Transcoded)
    requires Step(f, t, bank, p) == Success(s)
    requires Transcode(f, t, s.bank, pairs) == Success(rest)
    ensures Transcode(f, t, bank, [p] + pairs) == Success(Transcoded([s.pair] + rest.pairs, rest.bank))
  {
    assert ([p] + pairs)[0] == p && ([p] + pairs)[1..] == pairs;
  }

  /** The tables of the scenario below: delay codes 0x00 and 0x01, then
      the level register of channel 0's modulator and its algorithm register. */
  const SwitchTables := Tables(0x00, 0x01, [0x00, 0x00, 0x40, 0xC0])

  /** The banks of the scenario after each of its writes. */
  function SwitchBanks(f: QuietFunction, bank: Bank): (banks: seq<Bank>)
    ensures |banks| == 3
  {
    var b1: Bank := bank[0x40 := 0x25];
    var b2: Bank := b1[0xC0 := 0x01];
    [b1, b2, b2[0x40 := Attenuate(f, 0x25)]]
  }

  /** A short stream through the state machine, from any bank in which
      channel 0 is in FM mode: a delay, a modulator level (left alone, the
      modulator being inaudible), a switch of channel 0 to additive mode,
      and the same modulator level again through the second bank's index,
      now audible and so attenuated. */
  lemma ModeSwitch(f: QuietFunction, bank: Bank)
    requires bank[0xC0] % 2 == 0
    ensures Transcode(f, SwitchTables, bank,
                      [Pair(0x00, 0x10), Pair(0x02, 0x25), Pair(0x03, 0x01), Pair(0x82, 0x25)])
              == Success(Transcoded([Pair(0x00, 0x10), Pair(0x02, 0x25), Pair(0x03, 0x01), Pair(0x82, Attenuate(f, 0x25))],
                                    SwitchBanks(f, bank)[2]))
  {
    var banks := SwitchBanks(f, bank);
    var v := Attenuate(f, 0x25);
    var mid := Transcoded([Pair(0x02, 0x25), Pair(0x03, 0x01), Pair(0x82, v)], banks[2]);
    assert Transcode(f, SwitchTables, bank, [Pair(0x00, 0x10)] + [Pair(0x02, 0x25), Pair(0x03, 0x01), Pair(0x82, 0x25)])
             == Success(Transcoded([Pair(0x00, 0x10)] + mid.pairs, banks[2])) by {
      ModeSwitchMiddle(f, bank);
      SwitchDelayStep(f, bank);
      TranscodeUnfold(f, SwitchTables, bank, Pair(0x00, 0x10), Stepped(Pair(0x00, 0x10), bank),
                      [Pair(0x02, 0x25), Pair(0x03, 0x01), Pair(0x82, 0x25)], mid);
    }
    Prepend(Pair(0x00, 0x10), Pair(0x02, 0x25), Pair(0x03, 0x01), Pair(0x82, 0x25));
    Prepend(Pair(0x00, 0x10), Pair(0x02, 0x25), Pair(0x03, 0x01), Pair(0x82, v));
  }

  lemma Prepend<T>(a: T, b: T, c: T, d: T)
    ensures [a] + [b, c, d] == [a, b, c, d]
  {
  }

  /** The last three pairs of the scenario. */
  lemma ModeSwitchMiddle(f: QuietFunction, bank: Bank)
    requires bank[0xC0] % 2 == 0
    ensures Transcode(f, SwitchTables, bank, [Pair(0x02, 0x25), Pair(0x03, 0x01), Pair(0x82, 0x25)])
              == Success(Transcoded([Pair(0x02, 0x25), Pair(0x03, 0x01), Pair(0x82, Attenuate(f, 0x25))],
                                    SwitchBanks(f, bank)[2]))
  {
    var banks := SwitchBanks(f, bank);
    var tail := Transcoded([Pair(0x03, 0x01), Pair(0x82, Attenuate(f, 0x25))], banks[2]);
    ModeSwitchTail(f, bank);
    SwitchModulatorStep(f, bank);
    TranscodeUnfold(f, SwitchTables, bank, Pair(0x02, 0x25), Stepped(Pair(0x02, 0x25), banks[0]),
                    [Pair(0x03, 0x01), Pair(0x82, 0x25)], tail);
    assert [Pair(0x02, 0x25)] + [Pair(0x03, 0x01), Pair(0x82, 0x25)] == [Pair(0x02, 0x25), Pair(0x03, 0x01), Pair(0x82, 0x25)];
    assert [Pair(0x02, 0x25)] + tail.pairs == [Pair(0x02, 0x25), Pair(0x03, 0x01), Pair(0x82, Attenuate(f, 0x25))];
  }

  /** The last two pairs of the scenario: the mode switch and the write
      that it makes audible. */
  lemma ModeSwitchTail(f: QuietFunction, bank: Bank)
    ensures Transcode(f, SwitchTables, SwitchBanks(f, bank)[0], [Pair(0x03, 0x01), Pair(0x82, 0x25)])
              == Success(Transcoded([Pair(0x03, 0x01), Pair(0x82, Attenuate(f, 0x25))], SwitchBanks(f, bank)[2]))
  {
    var t := SwitchTables;
    var banks := SwitchBanks(f, bank);
    var v := Attenuate(f, 0x25);
    SwitchAlgorithmStep(f, bank);
    SwitchAdditiveStep(f, bank);
    TranscodeUnfold(f, t, banks[1], Pair(0x82, 0x25), Stepped(Pair(0x82, v), banks[2]), [], Transcoded([], banks[2]));
    assert [Pair(0x82, 0x25)] + [] == [Pair(0x82, 0x25)] && [Pair(0x82, v)] + [] == [Pair(0x82, v)];
    TranscodeUnfold(f, t, banks[0], Pair(0x03, 0x01), Stepped(Pair(0x03, 0x01), banks[1]),
                    [Pair(0x82, 0x25)], Transcoded([Pair(0x82, v)], banks[2]));
    assert [Pair(0x03, 0x01)] + [Pair(0x82, 0x25)] == [Pair(0x03, 0x01), Pair(0x82, 0x25)];
    assert [Pair(0x03, 0x01)] + [Pair(0x82, v)] == [Pair(0x03, 0x01), Pair(0x82, v)];
  }

  /** A delay pair passes through. */
  lemma SwitchDelayStep(f: QuietFunction, bank: Bank)
    ensures Step(f, SwitchTables, bank, Pair(0x00, 0x10)) == Success(Stepped(Pair(0x00, 0x10), bank))
  {
  }

  /** In FM mode the modulator's level is written unchanged. */
  lemma SwitchModulatorStep(f: QuietFunction, bank: Bank)
    requires bank[0xC0] % 2 == 0
    ensures Step(f, SwitchTables, bank, Pair(0x02, 0x25))
              == Success(Stepped(Pair(0x02, 0x25), SwitchBanks(f, bank)[0]))
  {
    FmModulatorUnchanged(f, bank, 0x40, 0x25);
  }

  /** Setting bit 0 of 0xC0 switches channel 0 to additive mode. */
  lemma SwitchAlgorithmStep(f: QuietFunction, bank: Bank)
    ensures Step(f, SwitchTables, SwitchBanks(f, bank)[0], Pair(0x03, 0x01))
              == Success(Stepped(Pair(0x03, 0x01), SwitchBanks(f, bank)[1]))
  {
    WriteStores(f, SwitchBanks(f, bank)[0], 0xC0, 0x01);
  }

  /** In additive mode the modulator is audible, so its level is attenuated. */
  lemma SwitchAdditiveStep(f: QuietFunction, bank: Bank)
    ensures Step(f, SwitchTables, SwitchBanks(f, bank)[1], Pair(0x82, 0x25))
              == Success(Stepped(Pair(0x82, Attenuate(f, 0x25)), SwitchBanks(f, bank)[2]))
  {
    var banks := SwitchBanks(f, bank);
    assert banks[1][0xC0] == 0x01;
    AdditiveAttenuated(f, banks[1], 0x40, 0x25);
  }

  /** The mode switch at a requested reduction of 5: the intended pass
      lowers the now-audible modulator from 0x25 to 0x20; the as-written
      pass silences it. */
  lemma ModeSwitchScenario()
    ensures var t := SwitchTables;
            var pairs := [Pair(0x00, 0x10), Pair(0x02, 0x25), Pair(0x03, 0x01), Pair(0x82, 0x25)];
            && Transcode(ReduceBy(5), t, PowerOnBank, pairs).Success?
            && Transcode(ReduceBy(5), t, PowerOnBank, pairs).value.pairs
                 == [Pair(0x00, 0x10), Pair(0x02, 0x25), Pair(0x03, 0x01), Pair(0x82, 0x20)]
            && Transcode(SourceQuiet(5), t, PowerOnBank, pairs).Success?
            && Transcode(SourceQuiet(5), t, PowerOnBank, pairs).value.pairs
                 == [Pair(0x00, 0x10), Pair(0x02, 0x25), Pair(0x03, 0x01), Pair(0x82, 0x00)]
  {
    assert PowerOnBank[0xC0] == 0;
    ModeSwitch(ReduceBy(5), PowerOnBank);
    ModeSwitch(SourceQuiet(5), PowerOnBank);
    SourceQuietCounterexample();
  }
}
