/** One pass of `quieter_main` over a whole DRO file: the header chunk and
    the codemap are copied, then up to `lengthPairs` two-byte pairs are read
    and run through the transcoder. */
module DroFile {
  import opened Dro
  import opened Quieter
  import opened Header
  import opened Transcoder

  /** The bytes of a pair sequence, register byte first. */
  function Serialize(pairs: seq<Pair>): (bytes: seq<Byte>)
    ensures |bytes| == 2 * |pairs|
    ensures forall j :: 0 <= j < |pairs| ==> bytes[2 * j] == pairs[j].register && bytes[2 * j + 1] == pairs[j].value
  {
    seq(2 * |pairs|, k requires 0 <= k < 2 * |pairs| =>
      if k % 2 == 0 then pairs[k / 2].register else pairs[k / 2].value)
  }

  /** The pairs the read loop obtains, and whether it hit a one-byte final
      read (which cannot be unpacked). */
  datatype Read = Read(pairs: seq<Pair>, dangling: bool)

  /** Reads pairs until `count` have been read or the stream is exhausted. */
  function ReadPairs(stream: seq<Byte>, count: nat): (r: Read)
    ensures |r.pairs| == Min(count, |stream| / 2)
    ensures forall i :: 0 <= i < |r.pairs| ==> r.pairs[i] == Pair(stream[2 * i], stream[2 * i + 1])
    ensures r.dangling <==> count > |stream| / 2 && |stream| % 2 == 1
  {
    if count == 0 || |stream| == 0 then Read([], false)
    else if |stream| == 1 then Read([], true)
    else
      var rest := ReadPairs(stream[2..], count - 1);
      Read([Pair(stream[0], stream[1])] + rest.pairs, rest.dangling)
  }

  /** Reading back serialized pairs, with a count that does not stop early,
      yields the same pairs and no dangling byte. */
  lemma ReadSerialized(pairs: seq<Pair>, count: nat)
    requires count >= |pairs|
    ensures ReadPairs(Serialize(pairs), count) == Read(pairs, false)
  {
    var r := ReadPairs(Serialize(pairs), count);
    assert r.pairs == pairs;
  }

  /** Where the codemap of an accepted file ends; a short file cuts it off. */
  function CodemapEnd(h: DroHeader, input: seq<Byte>): nat {
    Min(HeaderSize + h.codemapLength as int, |input|)
  }

  /** `output` is what a pass over `input` may emit given header `h`: the
      header chunk and the codemap copied, then at most `lengthPairs` whole
      pairs whose register bytes are the input's; a file whose length
      matches its header keeps its size. */
  predicate KeepsLayout(h: DroHeader, input: seq<Byte>, output: seq<Byte>) {
    CopiesTables(h, input, output) && KeepsRegisterBytes(h, input, output) && KeepsSize(h, input, output)
  }

  /** The header chunk and codemap are copied, followed by at most
      `lengthPairs` whole pairs. */
  predicate CopiesTables(h: DroHeader, input: seq<Byte>, output: seq<Byte>) {
    var end := CodemapEnd(h, input);
    && HeaderSize <= end <= |output| <= |input|
    && (|output| - end) % 2 == 0
    && (|output| - end) / 2 <= h.lengthPairs
    && output[..end] == input[..end]
  }

  /** Every emitted register byte is the input's byte at the same offset. */
  predicate KeepsRegisterBytes(h: DroHeader, input: seq<Byte>, output: seq<Byte>) {
    var end := CodemapEnd(h, input);
    forall i :: end <= i < |output| && i < |input| && (i - end) % 2 == 0 ==> output[i] == input[i]
  }

  /** A file as long as its header says is rewritten at the same length. */
  predicate KeepsSize(h: DroHeader, input: seq<Byte>, output: seq<Byte>) {
    |input| == HeaderSize + h.codemapLength as int + 2 * h.lengthPairs ==> |output| == |input|
  }

  /** The tables the pair loop consults: the header's two delay codes and
      the codemap read after the header. */
  function HeaderTables(h: DroHeader, codemap: seq<Byte>): Tables {
    Tables(h.shortDelayCode, h.longDelayCode, codemap)
  }

  /** The pair stream after the codemap, run through the transcoder: the
      pairs emitted, or the failure that ends the pass. */
  function PassPairs(f: QuietFunction, h: DroHeader, codemap: seq<Byte>, stream: seq<Byte>): (r: Result<seq<Pair>>)
    ensures var read := ReadPairs(stream, h.lengthPairs);
            r.Failure? <==> read.dangling || exists i :: 0 <= i < |read.pairs| && Faulty(HeaderTables(h, codemap), read.pairs[i])
    ensures r.Success? ==> |r.value| == Min(h.lengthPairs, |stream| / 2)
    ensures r.Success? ==> forall j :: 0 <= j < |r.value| ==> r.value[j].register == stream[2 * j]
    ensures r.Success? ==> forall j ::
              (0 <= j < |r.value| && (BankMask(stream[2 * j]) == h.shortDelayCode || BankMask(stream[2 * j]) == h.longDelayCode))
              ==> r.value[j] == Pair(stream[2 * j], stream[2 * j + 1])
    ensures r.Success? ==> forall j ::
              (0 <= j < |r.value| && IsPlainWrite(HeaderTables(h, codemap), Pair(stream[2 * j], stream[2 * j + 1])))
              ==> r.value[j] == Pair(stream[2 * j], stream[2 * j + 1])
    ensures r.Success? ==> forall j ::
              (0 <= j < |r.value| && IsCarrierWrite(HeaderTables(h, codemap), Pair(stream[2 * j], stream[2 * j + 1])))
              ==> r.value[j] == Pair(stream[2 * j], Attenuate(f, stream[2 * j + 1]))
    ensures r.Success? ==> var t := HeaderTables(h, codemap); var read := ReadPairs(stream, h.lengthPairs).pairs;
              forall j :: 0 <= j < |r.value| && IsModulatorWrite(t, read[j]) ==>
                r.value[j] == if LastValue(t, 0, read[..j], AlgorithmOf(t, read[j])) % 2 == 0 then read[j]
                              else Pair(read[j].register, Attenuate(f, read[j].value))
    ensures r.Failure? ==> var t := HeaderTables(h, codemap); var read := ReadPairs(stream, h.lengthPairs);
              if exists i :: 0 <= i < |read.pairs| && Faulty(t, read.pairs[i])
              then exists i :: FirstFault(t, read.pairs, i) && r.error == FaultOf(t, read.pairs[i])
              else r.error == ShortPair
  {
    var read := ReadPairs(stream, h.lengthPairs);
    PassPairsWrites(f, HeaderTables(h, codemap), read.pairs);
    match Transcode(f, HeaderTables(h, codemap), PowerOnBank, read.pairs)
    case Failure(e) => Failure(e)
    case Success(out) => if read.dangling then Failure(ShortPair) else Success(out.pairs)
  }

  /** From the power-on bank, carrier writes are attenuated, and a
      modulator write is attenuated exactly when the last earlier write to its
      algorithm register set additive mode; before any such write the
      channel is in FM mode. */
  lemma PassPairsWrites(f: QuietFunction, t: Tables, pairs: seq<Pair>)
    ensures Transcode(f, t, PowerOnBank, pairs).Success? ==>
              var out := Transcode(f, t, PowerOnBank, pairs).value.pairs;
              && (forall i :: 0 <= i < |pairs| && IsCarrierWrite(t, pairs[i]) ==>
                    out[i] == Pair(pairs[i].register, Attenuate(f, pairs[i].value)))
              && (forall i :: 0 <= i < |pairs| && IsModulatorWrite(t, pairs[i]) ==>
                    out[i] == if LastValue(t, 0, pairs[..i], AlgorithmOf(t, pairs[i])) % 2 == 0 then pairs[i]
                              else Pair(pairs[i].register, Attenuate(f, pairs[i].value)))
  {
    if Transcode(f, t, PowerOnBank, pairs).Success? {
      var out := Transcode(f, t, PowerOnBank, pairs).value.pairs;
      TranscodeCarriers(f, t, PowerOnBank, pairs);
      TranscodeModulators(f, t, PowerOnBank, pairs);
      forall i | 0 <= i < |pairs| && IsModulatorWrite(t, pairs[i])
        ensures out[i] == if LastValue(t, 0, pairs[..i], AlgorithmOf(t, pairs[i])) % 2 == 0 then pairs[i]
                          else Pair(pairs[i].register, Attenuate(f, pairs[i].value))
      {
        assert PowerOnBank[AlgorithmOf(t, pairs[i])] == 0;
      }
    }
  }

  /** The transcoding pass over a whole file with quiet function `f`. */
  function Run(f: QuietFunction, input: seq<Byte>): (r: Result<seq<Byte>>)
    ensures |input| < HeaderSize ==> r == Failure(ShortHeader)
    ensures |input| >= HeaderSize && input[..8] != Magic ==> r == Failure(BadSignature)
    ensures r.Success? ==> ParseHeader(input[..HeaderSize]).Success?
    ensures |input| >= HeaderSize && ParseHeader(input[..HeaderSize]).Success? ==>
              var h := ParseHeader(input[..HeaderSize]).value;
              var end := CodemapEnd(h, input);
              var pass := PassPairs(f, h, input[HeaderSize..end], input[end..]);
              && (r.Success? <==> pass.Success?)
              && (r.Failure? ==> r.error == pass.error)
              && (r.Success? ==> r.value == input[..end] + Serialize(pass.value))
  {
    var chunk := input[..Min(HeaderSize, |input|)];
    match ParseHeader(chunk)
    case Failure(e) => Failure(e)
    case Success(h) =>
      var end := CodemapEnd(h, input);
      var codemap := input[HeaderSize..end];
      TablesJoin(input, end);
      match PassPairs(f, h, codemap, input[end..])
      case Failure(e) => Failure(e)
      case Success(pairs) => Success(chunk + codemap + Serialize(pairs))
  }

  /** The header chunk followed by the codemap is the input up to the
      codemap's end. */
  lemma TablesJoin(input: seq<Byte>, end: nat)
    requires HeaderSize <= end <= |input|
    ensures input[..HeaderSize] + input[HeaderSize..end] == input[..end]
  {
  }

  /** A file is accepted exactly when it holds a whole header with the
      signature, no pair read after its codemap is faulty, and the reads do
      not end on a single byte. */
  lemma RunAccepts(f: QuietFunction, input: seq<Byte>)
    ensures Run(f, input).Success? <==>
              && |input| >= HeaderSize && input[..8] == Magic
              && var h := ParseHeader(input[..HeaderSize]).value;
                 var end := CodemapEnd(h, input);
                 var read := ReadPairs(input[end..], h.lengthPairs);
                 && !read.dangling
                 && forall i :: 0 <= i < |read.pairs| ==> !Faulty(HeaderTables(h, input[HeaderSize..end]), read.pairs[i])
  {
    if |input| >= HeaderSize {
      assert input[..HeaderSize][..8] == input[..8];
    }
  }

  /** A successful pass copies the header and codemap, emits whole pairs
      with their original register bytes, and preserves the size of a file
      whose length matches its header. */
  lemma RunKeepsLayout(f: QuietFunction, input: seq<Byte>)
    requires Run(f, input).Success?
    ensures KeepsLayout(ParseHeader(input[..HeaderSize]).value, input, Run(f, input).value)
  {
    var h := ParseHeader(input[..HeaderSize]).value;
    var end := CodemapEnd(h, input);
    var emitted := PassPairs(f, h, input[HeaderSize..end], input[end..]).value;
    EmittedFits(h, input, |emitted|);
    RegistersSerialized(emitted, input[end..]);
    PairsLayout(h, input, Serialize(emitted));
  }

  /** Serialized pairs that keep the register bytes of a stream put those
      bytes at the stream's even offsets. */
  lemma RegistersSerialized(pairs: seq<Pair>, stream: seq<Byte>)
    requires 2 * |pairs| <= |stream|
    requires forall j :: 0 <= j < |pairs| ==> pairs[j].register == stream[2 * j]
    ensures forall k :: 0 <= k < 2 * |pairs| && k % 2 == 0 ==> Serialize(pairs)[k] == stream[k]
  {
    forall k | 0 <= k < 2 * |pairs| && k % 2 == 0
      ensures Serialize(pairs)[k] == stream[k]
    {
      var j := k / 2;
      assert k == 2 * j;
    }
  }

  /** The layout facts for a header copy followed by the bytes of the pairs
      read after the codemap, with the register bytes kept. */
  lemma PairsLayout(h: DroHeader, input: seq<Byte>, bytes: seq<Byte>)
    requires HeaderSize <= |input|
    requires |bytes| == 2 * Min(h.lengthPairs, (|input| - CodemapEnd(h, input)) / 2)
    requires CodemapEnd(h, input) + |bytes| <= |input|
    requires forall k :: 0 <= k < |bytes| && k % 2 == 0 ==> bytes[k] == input[CodemapEnd(h, input)..][k]
    ensures KeepsLayout(h, input, input[..CodemapEnd(h, input)] + bytes)
  {
    var end := CodemapEnd(h, input);
    var output := input[..end] + bytes;
    assert CopiesTables(h, input, output) by {
      Halves(|bytes| / 2);
      assert output[..end] == input[..end];
    }
    assert KeepsSize(h, input, output) by {
      if |input| == HeaderSize + h.codemapLength as int + 2 * h.lengthPairs {
        assert end == HeaderSize + h.codemapLength as int;
        assert (|input| - end) / 2 == h.lengthPairs;
      }
    }
    assert KeepsRegisterBytes(h, input, output) by {
      forall i | end <= i < |output| && i < |input| && (i - end) % 2 == 0
        ensures output[i] == input[i]
      {
        assert output[i] == bytes[i - end] == input[end..][i - end];
      }
    }
  }

  /** The pairs read after the codemap fit in the input. */
  lemma EmittedFits(h: DroHeader, input: seq<Byte>, n: nat)
    requires HeaderSize <= |input|
    requires n == Min(h.lengthPairs, (|input| - CodemapEnd(h, input)) / 2)
    ensures CodemapEnd(h, input) + 2 * n <= |input| && n <= h.lengthPairs
  {
    HalfBound(|input| - CodemapEnd(h, input));
  }

  lemma HalfBound(x: nat)
    ensures 2 * (x / 2) <= x
  {
  }

  lemma Halves(k: int)
    ensures (2 * k) % 2 == 0 && (2 * k) / 2 == k && (2 * k + 1) / 2 == k
  {
  }

  lemma SerializeAt(pairs: seq<Pair>, j: int)
    requires 0 <= j < |pairs|
    ensures Serialize(pairs)[2 * j] == pairs[j].register
    ensures Serialize(pairs)[2 * j + 1] == pairs[j].value
  {
    Halves(j);
  }

  /** Serializing the pairs read from a stream gives back the bytes they
      were read from. */
  lemma SerializeRead(stream: seq<Byte>, count: nat)
    ensures var pairs := ReadPairs(stream, count).pairs;
            Serialize(pairs) == stream[..2 * |pairs|]
  {
    var pairs := ReadPairs(stream, count).pairs;
    var bytes := Serialize(pairs);
    HalfBound(|stream|);
    forall i | 0 <= i < |bytes|
      ensures bytes[i] == stream[i]
    {
      var j := i / 2;
      SerializeAt(pairs, j);
      if i % 2 == 0 {
        assert i == 2 * j;
      } else {
        assert i == 2 * j + 1;
      }
    }
  }

  /** With a quiet function that keeps every level, the pairs emitted are
      the bytes read. */
  lemma PassPairsKeeps(f: QuietFunction, h: DroHeader, codemap: seq<Byte>, stream: seq<Byte>)
    requires KeepsLevels(f)
    requires PassPairs(f, h, codemap, stream).Success?
    ensures var pairs := PassPairs(f, h, codemap, stream).value;
            Serialize(pairs) == stream[..2 * |pairs|]
  {
    var read := ReadPairs(stream, h.lengthPairs);
    TranscodeKeeps(f, HeaderTables(h, codemap), PowerOnBank, read.pairs);
    SerializeRead(stream, h.lengthPairs);
  }

  /** With a quiet function that keeps every level, a successful pass
      reproduces the input up to the last pair it read. */
  lemma RunKeeps(f: QuietFunction, input: seq<Byte>)
    requires KeepsLevels(f)
    requires Run(f, input).Success?
    ensures Run(f, input).value == input[..|Run(f, input).value|]
  {
    var h := ParseHeader(input[..HeaderSize]).value;
    var end := CodemapEnd(h, input);
    var pairs := PassPairs(f, h, input[HeaderSize..end], input[end..]).value;
    assert Serialize(pairs) == input[end..][..2 * |pairs|] by {
      PassPairsKeeps(f, h, input[HeaderSize..end], input[end..]);
    }
    PrefixJoin(input, end, 2 * |pairs|);
  }

  lemma PrefixJoin(s: seq<Byte>, end: nat, k: nat)
    requires end + k <= |s|
    ensures s[..end] + s[end..][..k] == s[..end + k]
  {
  }

  /** Re-running the pair stage with `fb` over what a run with `fa` emitted
      is one run with `fab`. */
  lemma PassPairsComposes(fa: QuietFunction, fb: QuietFunction, fab: QuietFunction,
                          h: DroHeader, codemap: seq<Byte>, stream: seq<Byte>)
    requires ComposesTo(fa, fb, fab)
    requires PassPairs(fa, h, codemap, stream).Success?
    ensures PassPairs(fb, h, codemap, Serialize(PassPairs(fa, h, codemap, stream).value))
              == PassPairs(fab, h, codemap, stream)
  {
    var t := HeaderTables(h, codemap);
    var read := ReadPairs(stream, h.lengthPairs);
    var first := PassPairs(fa, h, codemap, stream).value;
    ReadSerialized(first, h.lengthPairs);
    TranscodeComposes(fa, fb, fab, t, PowerOnBank, PowerOnBank, read.pairs);
  }

  /** A second pass with `fb` over the output of a pass with `fa` is one
      pass with `fab`, when `fa` then `fb` composes to `fab` on levels. */
  lemma RunComposes(fa: QuietFunction, fb: QuietFunction, fab: QuietFunction, input: seq<Byte>)
    requires ComposesTo(fa, fb, fab)
    requires Run(fa, input).Success?
    ensures Run(fb, Run(fa, input).value) == Run(fab, input)
  {
    RunKeepsLayout(fa, input);
    var h := ParseHeader(input[..HeaderSize]).value;
    var end := CodemapEnd(h, input);
    var codemap := input[HeaderSize..end];
    var first := PassPairs(fa, h, codemap, input[end..]).value;
    var output := Run(fa, input).value;
    assert output[..HeaderSize] == input[..HeaderSize];
    assert CodemapEnd(h, output) == end;
    assert output[HeaderSize..end] == codemap;
    assert output[end..] == Serialize(first);
    PassPairsComposes(fa, fb, fab, h, codemap, input[end..]);
  }

  /** Quiet functions that agree on every 6-bit level give identical passes. */
  lemma RunRespectsLevels(fa: QuietFunction, fb: QuietFunction, input: seq<Byte>)
    requires SameOnLevels(fa, fb)
    ensures Run(fa, input) == Run(fb, input)
  {
    if |input| >= HeaderSize && ParseHeader(input[..HeaderSize]).Success? {
      var h := ParseHeader(input[..HeaderSize]).value;
      var end := CodemapEnd(h, input);
      var read := ReadPairs(input[end..], h.lengthPairs);
      TranscodeRespectsLevels(fa, fb, HeaderTables(h, input[HeaderSize..end]),
                              PowerOnBank, read.pairs);
    }
  }

  // ---------------------------------------------------------------------
  // The script's entry point with a requested reduction `n`

  /** The pass the script evidently means to make: every audible level is
      lowered by `n`, clamped at 0. */
  function Quieten(n: int, input: seq<Byte>): Result<seq<Byte>> {
    Run(ReduceBy(n), input)
  }

  /** The pass the script makes as written. */
  function QuietenAsWritten(n: int, input: seq<Byte>): Result<seq<Byte>> {
    Run(SourceQuiet(n), input)
  }

  /** Quietening by `a` and then by `b` is quietening by `a + b`. */
  lemma QuietenComposes(a: int, b: int, input: seq<Byte>)
    requires a >= 0 && b >= 0
    requires Quieten(a, input).Success?
    ensures Quieten(b, Quieten(a, input).value) == Quieten(a + b, input)
  {
    ReduceByComposes(a, b);
    RunComposes(ReduceBy(a), ReduceBy(b), ReduceBy(a + b), input);
  }

  /** Quietening by 0 reproduces the input up to the last pair read. */
  lemma QuietenZeroKeeps(input: seq<Byte>)
    requires Quieten(0, input).Success?
    ensures Quieten(0, input).value == input[..|Quieten(0, input).value|]
  {
    ReduceByZeroKeeps();
    RunKeeps(ReduceBy(0), input);
  }

  /** As written, the requested amount makes no difference: every request
      silences every audible operator, exactly as the largest reduction
      would. */
  lemma AsWrittenSilences(n: int, input: seq<Byte>)
    ensures QuietenAsWritten(n, input) == Quieten(63, input)
  {
    assert SameOnLevels(SourceQuiet(n), ReduceBy(63)) by {
      forall level: nat | level < 64
        ensures Low6(SourceQuiet(n)(level)) == Low6(ReduceBy(63)(level))
      {
      }
    }
    RunRespectsLevels(SourceQuiet(n), ReduceBy(63), input);
  }
}
