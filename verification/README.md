# quieter: a Dafny model of the DRO volume transcoder

`quieter.py` rewrites a DOSBox Raw OPL (DRO) capture so that it plays
more quietly. The file has three parts:

- a 26-byte header whose first eight bytes must be `DBRAWOPL`;
- a codemap that turns compact register indices into real OPL2 register
  numbers;
- a stream of (register, value) byte pairs.

The script copies the header and the codemap. It then replays each pair
through `OPL2Quieter`, a 256-register shadow of the chip. When a write to a
level register (0x40..0x55) is audible, its six output-level bits are
rewritten by a quiet function. A write is audible when the register is a
carrier, or when the channel's algorithm bit (bit 0 of the matching
0xC0..0xC8 register) selects additive synthesis. Every pair is emitted again
with its original register byte.

This project models that core as pure functions and proves what it
guarantees. The modules follow the program's structure:

- `Dro` holds bytes, pairs, the failure kinds and `Result`.
- `Classifier` holds `CARRIERS` and `LEVEL_TO_ALGORITHM`.
- `Quieter` holds `OPL2Quieter.write` and the quiet functions.
- `Header` holds the 26-byte header layout and the signature check.
- `Transcoder` holds one iteration of the pair loop and the fold over a
  pair sequence.
- `DroFile` holds a whole pass over a file: header, codemap, reading pairs
  up to `iLengthPairs`, and the bytes written.

The quiet function is a parameter `f: nat -> nat`. `Quieter.SourceQuiet(n)`
is the function the script installs: `max(level - level, 0)` ignores `n`.
`Quieter.ReduceBy(n)` is the evidently intended `max(level - n, 0)`. Both
are modelled and the discrepancy is proved (see Findings).

The model makes these modelling choices:

- A byte is the integer newtype `Dro.Byte` with values 0..255.
- The bit masks the source applies are written as the fields they select:
  - `value & 0xC0` (the KSL bits) is `Quieter.Ksl`, that is `(value / 64) * 64`.
  - `value & 0x3F` (the level bits) is `Quieter.Level`, that is `value % 64`.
  - `ksl | level` is the sum of the two disjoint fields.
  - `x & 0x01` is `x % 2`.
  - `reg & 0x80` / `reg ^= 0x80` is the test `reg >= 0x80` and the
    subtraction of 0x80.
- The Python exceptions that end a run are explicit failures:
  - `struct.error` on a short header is `ShortHeader`.
  - `IndexError` from `codemap[reg]` is `CodemapIndexOutOfRange`.
  - `KeyError` from `LEVEL_TO_ALGORITHM` is `UnmappedLevelRegister`.
  - `struct.error` on a one-byte final read is `ShortPair`.
- An empty read stops the pair loop (quieter.py:204). A one-byte read cannot
  be unpacked by `unpack('BB', …)` and aborts (quieter.py:205).

## Model

| member | source | states |
|---|---|---|
| Classifier.UnmappedLevelRegisters | quieter.py:26-30 | exactly 0x46, 0x47, 0x4E and 0x4F are level registers with no algorithm register, and every key of the table is a level register |
| Classifier.TablesConsistent | quieter.py:25-30 | every carrier has an algorithm register, and no algorithm register is itself a level register, so a level write never changes a channel's mode |
| Quieter.Attenuate | quieter.py:134-140 | the rewritten value keeps the input's KSL bits, and its level bits are the quiet function of the old level bits, masked to six bits |
| Quieter.Write | quieter.py:122-143 | fails exactly on a level register missing from the algorithm table, with that register; otherwise returns the same register, stores the returned value at it and leaves the other 255 cells alone; a non-level write and an inaudible level write return the value unchanged, an audible one keeps the KSL bits and takes the quiet function's level |
| Quieter.WriteStores | quieter.py:123-142 | the exact outcome of a write whose register is not an unmapped level register: attenuated if and only if it is an audible level register, and stored |
| Quieter.FmModulatorUnchanged | quieter.py:127-129 | in FM mode a level write to a non-carrier is returned and stored unchanged |
| Quieter.FmCarrierAttenuated | quieter.py:127-129 | in FM mode a level write to a carrier is attenuated |
| Quieter.AdditiveAttenuated | quieter.py:130-132 | in additive mode a level write to either operator is attenuated |
| Quieter.CarrierAttenuated | quieter.py:127-132 | a carrier's level write is attenuated and stored whatever the bank holds, because carriers are audible in FM and in additive mode |
| Quieter.AttenuateKeeps | quieter.py:137-140 | a quiet function that keeps every 6-bit level (the identity among them) leaves every value unchanged |
| Quieter.AttenuateComposes | quieter.py:137-140 | attenuating with `fa` and then `fb` is attenuating once with `fab` whenever `fb` after `fa` equals `fab` on 6-bit levels |
| Quieter.WriteComposes | quieter.py:122-143 | replaying an `fa` write through `fb` on a bank with the same modes gives the `fab` write, and the two resulting banks still agree on every mode |
| Quieter.WriteRespectsLevels | quieter.py:139-140 | only the quiet function's values on levels 0..63, masked to six bits, affect a write |
| Quieter.SourceQuiet | quieter.py:199 | the installed function yields 0 for every level, whatever amount `n` was requested |
| Quieter.ReduceBy | quieter.py:199 | the intended function lowers a level by `n` and stops at 0: the result plus `n` is at least the level, and the result is either 0 or exactly the level minus `n` |
| Quieter.SourceQuietZeroesLevel | quieter.py:199 | with the installed quiet function every attenuated value keeps only its KSL bits, whatever reduction was requested |
| Quieter.ReduceByZeroKeeps | quieter.py:199 | the intended reduction by 0 keeps every level |
| Quieter.ReduceByClamps | quieter.py:199 | the intended reduction by 63 or more drives every attenuated level to 0 |
| Quieter.ReduceByComposes | quieter.py:199 | intended reductions by non-negative amounts add: reducing by `a` and then by `b` is reducing by `a + b` |
| Quieter.SourceQuietCounterexample | quieter.py:199 | a level value 0x25 with a requested reduction of 5 becomes 0x00 as written and 0x20 as intended |
| Header.DecodeEncode | quieter.py:176 | decoding the little-endian bytes of an in-range integer gives the integer back |
| Header.EncodeDecode | quieter.py:176 | encoding the value of little-endian bytes gives the bytes back |
| Header.ParseHeader | quieter.py:170-182 | a chunk that is not 26 bytes fails with ShortHeader; a 26-byte chunk is accepted if and only if its first eight bytes are DBRAWOPL, and otherwise fails with BadSignature; an accepted header takes the version fields from bytes 8..12, the pair count from bytes 12..16 and the length in milliseconds from bytes 16..20 (little-endian), and the hardware type, format, compression, both delay codes and the codemap length from bytes 20..25 in that order |
| Header.EncodeHeader | quieter.py:176 | a packed header is 26 bytes: the signature, the two 16-bit and the two 32-bit fields little-endian at bytes 8..20, and the six byte fields in order at bytes 20..25 |
| Header.ParseEncode | quieter.py:176-182 | a header with the right signature survives packing and unpacking |
| Header.EncodeParse | quieter.py:176-179 | an accepted chunk is exactly the packing of the header read from it |
| Transcoder.BankMask | quieter.py:209-214 | the compact index is the register byte without its bank-select bit |
| Transcoder.Step | quieter.py:209-238 | one pair fails exactly when it is not a delay and either its index is past the codemap or its real register is an unmapped level register, with the matching error; the register byte is re-emitted; a delay pair is emitted unchanged and leaves the bank alone; any other pair is a successful write of its value to the codemapped register |
| Transcoder.Transcode | quieter.py:200-239 | the pass fails if and only if some pair is faulty, with the error of the first one; a successful pass emits one pair per pair read with the same register bytes, passes delays and non-level writes through byte for byte, and leaves every bank cell no write addresses unchanged |
| Transcoder.TranscodeCarriers | quieter.py:200-239 | from any starting bank, every carrier level write of a successful pass is emitted with its register byte and its value attenuated |
| Transcoder.TranscodeModulators | quieter.py:200-239 | every modulator level write is judged by its channel's mode at that point of the stream: the algorithm register's value in the starting bank, replaced by the value of the last earlier pair that writes it; an even value (FM) emits the write unchanged, an odd one (additive) attenuates it |
| Transcoder.LastValueUntouched | quieter.py:142 | a bank cell that no pair of the stream writes keeps its starting value |
| Transcoder.TranscodeKeeps | quieter.py:200-239 | with a quiet function that keeps every level, a successful pass emits exactly the pairs it read |
| Transcoder.TranscodeComposes | quieter.py:200-239 | re-running the loop with `fb` on the output of an `fa` pass is one pass with `fab` |
| Transcoder.TranscodeRespectsLevels | quieter.py:200-239 | passes with quiet functions that agree on 6-bit levels are identical |
| Transcoder.ModeSwitch | quieter.py:122-143 | from any bank with channel 0 in FM mode, a stream with a delay, a modulator write, a switch to additive mode and a second modulator write leaves the first write alone and attenuates the second |
| Transcoder.ModeSwitchScenario | quieter.py:199 | on that stream from the power-on bank, the intended reduction by 5 turns the last value into 0x20 and the installed function turns it into 0x00 |
| DroFile.Serialize | quieter.py:238 | each pair is written as two bytes, register then value, at offsets `2j` and `2j + 1` |
| DroFile.ReadPairs | quieter.py:200-205 | reads `min(count, bytes / 2)` pairs, each from two consecutive bytes, and reports a dangling byte exactly when the count is not reached and one byte is left over |
| DroFile.ReadSerialized | quieter.py:203-205 | reading back the bytes of written pairs gives the same pairs and no dangling byte |
| DroFile.SerializeRead | quieter.py:203-238 | writing back the pairs read from a stream gives the bytes they were read from |
| DroFile.PassPairs | quieter.py:197-239 | the pairs stage, using the header's delay codes and the codemap read from the file, fails if and only if the last read is one byte or some pair read is faulty; on success it emits `min(iLengthPairs, bytes / 2)` pairs with the stream's register bytes, and a pair under either delay code or a plain (non-level) write comes out byte for byte; every carrier level write comes out with its value run through the quiet function `f`; a modulator level write comes out unchanged when the last earlier write to its algorithm register is even or there is none (the bank starts at zero), and attenuated when it is odd; a failing pass reports the error of the first faulty pair if there is one, and ShortPair otherwise |
| DroFile.PassPairsWrites | quieter.py:118-120 | from the all-zero power-on bank, carrier writes are attenuated, and a modulator write is attenuated exactly when the last earlier write to its algorithm register is odd |
| DroFile.Run | quieter.py:170-239 | a file shorter than the header fails with ShortHeader, and a wrong signature fails with BadSignature; with a valid header the file is accepted if and only if its pair stage succeeds, fails with the pair stage's error otherwise, and on success is the header and codemap followed by the bytes of the emitted pairs |
| DroFile.RunAccepts | quieter.py:170-239 | a file is accepted exactly when it holds a whole header starting with DBRAWOPL, no pair read after the codemap is faulty, and the reads do not end on a single byte |
| DroFile.RunKeepsLayout | quieter.py:179-238 | a successful pass copies the header and codemap and then emits at most `iLengthPairs` whole pairs whose register bytes sit at their input offsets; a file exactly as long as its header says keeps its size |
| DroFile.RunKeeps | quieter.py:197-239 | with a quiet function that keeps every level, the output is a prefix of the input |
| DroFile.RunComposes | quieter.py:170-239 | a second pass with `fb` over the output of a pass with `fa` is one pass with `fab` |
| DroFile.RunRespectsLevels | quieter.py:170-239 | passes with quiet functions that agree on 6-bit levels give the same outcome |
| DroFile.QuietenComposes | quieter.py:199 | with the intended function, quietening a file by `a` and then by `b` is quietening it by `a + b` |
| DroFile.QuietenZeroKeeps | quieter.py:199 | with the intended function, quietening by 0 reproduces the file up to the last pair read |
| DroFile.AsWrittenSilences | quieter.py:199 | as written, a pass with any requested amount is the same as the intended pass with the largest reduction, 63 |

## Left out

- The command line (quieter.py:255-290) is left out. It is argument plumbing; the requested amount is the parameter `n`.
- The file checks, opening, closing and the stdout redirection (quieter.py:153-168, quieter.py:249-252) are left out. They are filesystem I/O.
- `print_info`, the progress messages and the verbose trace (quieter.py:65-112, quieter.py:188-196, quieter.py:241-247) are left out as output, and so is the `bank` number kept for the trace (quieter.py:211-214). Their failure paths are listed next.
- DroFile.Run: accepts every hardware type, format and compression id, but the script's `print_info` looks them up in `HARDWARE_TYPES`, `FORMAT_TYPES` and `COMPRESSION_TYPES` (quieter.py:85-89), and its call (quieter.py:189-192) catches only `IOError`. So a header with a hardware type outside 0..2, a format outside 0..1 or a compression other than 0 aborts the script with `KeyError` even in silent mode, before any pair is read. The model leaves this check out.
- DroFile.Run: in verbose mode only, `print_info` indexes `codemap[l]` for every `l` below `iCodemapLength` (quieter.py:104-110). A file whose codemap is cut short by the end of the file then aborts with `IndexError`. The model, like the silent mode, takes the shorter codemap and goes on.
- `file_size` (quieter.py:48-55) is left out. It is floating-point formatting for display.
- Partial output on failure is not modelled. The script writes the header before checking the signature (quieter.py:179 before quieter.py:181), and then the codemap and every pair before a failing one. The model returns only the failure.
- The error messages and exit status (quieter.py:182, quieter.py:285-287) are not modelled; the failure kind is.
- The undefined `parser` reference in the `print_info` error path (quieter.py:192) is left out. It is I/O glue.
- The native byte order of `struct` is taken to be little-endian. With this format string native layout has no padding (8 + 2 + 2 + 4 + 4 + 6 = 26 bytes).
- Whether lowering the level is really quieter is out of scope. On the OPL2 scale 0 is the loudest level and 63 the softest, so the intended subtraction makes a voice louder. The model states what the code computes and does not judge the direction.

## Findings

| source | as written | input that shows it | evidently intended | confidence | as-written member | corrected member |
|---|---|---|---|---|---|---|
| quieter.py:199 | the quiet function is `max(level - level, 0)`, so the requested `--level` amount is never used and every audible level becomes 0 | `--level 5` and an audible level-register write of 0x25: the output is 0x00 | `max(level - n, 0)` with the requested `n`, giving 0x20 | not executed | Quieter.SourceQuietCounterexample | Quieter.ReduceByComposes |

`DroFile.AsWrittenSilences` lifts the as-written behaviour to whole files: for every requested amount, the pass equals the intended pass with amount 63. `Transcoder.ModeSwitchScenario` shows the same discrepancy on a pair stream that switches a channel to additive mode. The intended function is the one `DroFile.Quieten` uses, and the file-level laws `DroFile.QuietenComposes` and `DroFile.QuietenZeroKeeps` are proved about it.
