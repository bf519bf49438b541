# Layline's codecs, modelled and proved

Layline turns record declarations into binary codecs. This project states in Dafny what its hardest parts mean and
proves what they are for. Machine words are sequences of bits, least significant first (`Words.Bits`), so shifts,
masks, truncation and byte order are explicit everywhere. Where the original changes things step by step (the stream
decoder's buffer, the bit cursors, the stores of generated code, the checksum folds, the solver, the fixpoint and the
transitive closure) the model is a method or a class with its loop, proved against a function, and the properties are
proved of that function.

The parts, and what is proved of each:

- **Stream decoder** (`Frame`, `Decoding`, `Segmentation`). A machine over any sequence of pushes and pops. Bytes are
  conserved, the counters count exactly what was lost, no whole frame is passed over, and the frames returned are those
  of one leftmost greedy reading of the stream, however the stream is cut up.
- **Bit cursors and codings** (`Buffer`, `BitStream`, `BitCursor`, `BitWriting`, `ExpGolomb`, `Varint`). A cursor
  refines a stream of bits. Writes are all or nothing, fields read back, a patch is what writing the patched value
  first would have been. Exp-Golomb (section 9.1 of ITU-T H.264) and LEB128 (section 7.6 of DWARF 5) are proved
  against their definitions on unbounded integers.
- **Layouts** (`Layout`, `Access`, `Containers`, `Emit`, `Compiled`, `Derive`, `BitView`). From declared widths to
  generated code: what the solver accepts tiles the container in either bit order; the register, the `u128` container
  and the byte windows all compute one meaning over the whole container's bits, prefix and ranges included; that
  meaning round-trips; and a view's setters and seal write what encode does.
- **Checksums and stamping** (`Checksum`, `Division`, `Coverage`, `Records`, `Assertions`, `Stamping`, `Sums`, `View`).
  The CRC folds are exactly the remainders of polynomial division, and the paired byte sum; which magics, ranges and
  coverages are accepted; that stamping in declaration order leaves every checksum valid; and that each checksum is of
  the fields its declaration names.
- **Graph checks** (`Walks`, `Items`, `Graph`, `OpenEnds`). The least fixpoint, the in-place closure, and what they
  accept, said of the declared items: which have a finite value, which are held inside themselves, and which run on.

These conditions are exact, because the plain statement is not true of the code:

- `decode(encode(v)) == v` needs more of a field's codec than `to_raw(from_raw(r)) == r`: each codec value must be one
  its own raw bits decode to. `Emit.EncodedDecodes` is an if-and-only-if, and
  `Derive.ValuesThatAreNotCanonicalAreLost` is a lawful codec that loses a value.
- It also needs a readable prefix (`Emit.Readable`). The mask of the check is a `u64` shifted by the prefix's width
  (`emit.rs:316`), so for a prefix of 64 to 128 bits with a value it has the width modulo 64 ones, and the check passes
  on what encode writes exactly when the rest of the value's low 64 bits are zero. `Derive.AWidePrefixNeverDecodes` is
  an accepted layout, `bits = 128, prefix = 64, prefix_value = 1`, that refuses every wire. Such a prefix is compared in
  those low bits only, so `verify` passes exactly the wires a seal leaves as they are if and only if the prefix is
  below 64 bits (`BitView.SealFixesExactlyTheVerified`). This is of a derive built without overflow checks; with them
  the shift panics, and the layout does not compile.
- `encode(decode(w)) == w` needs each codec to return the raw bits it is handed: all of them, or, in a layout that
  truncates, those of its field (`Emit.DecodedEncodes`). `Nonzero` returns neither (`Derive.NonzeroIsNotReturned`). It
  also needs the wire's prefix to be what encode writes there (`Emit.RestoredIsTheWire`).
- An encoded record passes its own `decode` exactly when every ranged magic is in its range, which the declaration
  alone decides, and every ranged checksum's value is (`Stamping.EncodedDecodes`). Nothing in the derive refuses a
  range on a magic or a checksum: a `u8` with magic 5 and range 0 to 3 is accepted
  (`Assertions.AMagicOutsideItsRangeIsAccepted`), and its every wire is refused
  (`Stamping.AMagicOutsideItsRangeNeverDecodes`).
- A decoded record encodes to the same bytes exactly when its checksums match bit for bit (`Stamping.DecodedEncodes`).
  A `u64` checksum may pass its check without, because the comparison saturates: `Stamping.ALargeSumIsNotReturned` is
  a record and a wire that decodes and does not come back.
- `Incomplete` asks for a lower bound of bytes in a spec with the default `measure` that does not scan past a stalled
  candidate; one that does may give it up sooner, exactly when a later frame is whole (`Segmentation.NeedIsALowerBound`).
- A LEB128 or Exp-Golomb decode that fails is `Short` exactly when more bytes could make it succeed, but for a word that
  has not ended and can no longer fit: ten LEB128 bytes that all continue (`Varint.ShortMeansMoreMayDecode`), or 64 zeros
  and a suffix with a bit set (`ExpGolomb.ShortMeansAWordBegins`). Those ask for more although none would do.
- A CRC tells bursts apart exactly when its polynomial's lossless bit is set (`Checksum.BurstsAreSeenExactlyWhenLossless`).

Where the code and what it says differ:

- `validate/coverage.rs:112` refuses a range that ends before the first field as empty, but `over = ..b` on a checksum
  at the front, just before `b`, is accepted and covers nothing (`Coverage.AnAcceptedRangeThatCoversNothing`;
  `Coverage.ValidatedRangesCover` says that is the only case). The derive's own check in `asserts.rs:303` does refuse it.
- `#[range]` is refused when it is written backwards or a written end lies outside its field on its own side, but a
  lower bound above the field's greatest value with no upper one, or an upper bound below its least with no lower one,
  is accepted and holds nothing, so encode can only panic (`Assertions.AcceptedRangesThatHoldNothing`). Those two cases
  are the only ones (`Assertions.AcceptedRangesHoldUnlessBeyond`).
- `Buffer::push` leaves the buffer unchanged on overflow; `pad`, `ExpGolomb::encode` and the LEB128 encoders do not.
  Their contracts here say exactly which part they leave.
- The scan past a stalled candidate looks at candidate, length and `verify` but not at `body`, so the frame it lands on
  may next be refused for its body range (`Frame.ScanLandsOnTheNextFrame`).

## Model

Paths are relative to the repository's root.

| member | source | states |
|---|---|---|
| Frame.ParseBuffer | crates/layline-core/src/frame.rs:155-229 | the scanning loop and its branches give the verdict of the specification `Parse`: frame, incomplete or desync, with cause and discard |
| Frame.CompleteFrameBeyond | crates/layline-core/src/frame.rs:231-246 | finds the first complete, verified frame past the front, and none if there is none |
| Frame.ScanLandsOnTheNextFrame | crates/layline-core/src/frame.rs:190-212 | a stalled candidate is given up only for the first complete, verified frame beyond it, and the next verdict is that frame unless its body is out of range |
| Frame.NoFrameIsPassedOver | crates/layline-core/src/frame.rs:190-246 | a spec that scans on waits only when no later bytes are judged a whole, verified frame, and no bytes discarded for want of a start hold one |
| Decoding.Decoder.constructor | crates/layline-core/src/frame.rs:320-337 | an empty decoder, under the bounds `Decoder::new` asserts |
| Decoding.Decoder.Push | crates/layline-core/src/frame.rs:355-363 | the in-place push takes what fits, releases the spent frame and counts the rest as refused: exactly one push step of the machine |
| Decoding.Decoder.Pop | crates/layline-core/src/frame.rs:367-406 | the in-place loop terminates and is exactly one pop step: the frame returned, the bytes dropped, every counter |
| Decoding.Decoder.Consume | crates/layline-core/src/frame.rs:415-418 | moves the held bytes down over the first `n` |
| Decoding.RunConserves | crates/layline-core/src/frame.rs:154-229 | for any spec and any run of pushes and pops, the accepted bytes are in order the returned frames and the discards, then the bytes still held, and the saturating counters show exactly that log |
| Decoding.RunCountsRefusals | crates/layline-core/src/frame.rs:355-363 | over any run, every byte offered is accepted or refused, and `bytes_refused` is the saturated count of the refused ones |
| Decoding.PushTakesWhatFits | crates/layline-core/src/frame.rs:355-363 | a push takes a prefix of what it is given, and all of it unless the buffer ends up full |
| Decoding.DrainedHasRoom | crates/layline-core/src/frame.rs:350-418 | after `pop` returns `None` fewer than `MAX_FRAME` bytes are held, so the next non-empty push accepts at least one byte |
| Segmentation.VerdictIsTheFronts | crates/layline-core/src/frame.rs:155-229 | for any spec, each verdict of `parse` is what the bytes begin with, judged on their own: the same frame, cause or wait, but that a run without a start is skipped at once and a scan may skip a wait |
| Segmentation.DefaultIsStable | crates/layline-core/src/frame.rs:73-81 | a spec with the default `measure` whose `candidate` reads only its own bytes gives verdicts that more data never changes |
| Segmentation.NeedIsALowerBound | crates/layline-core/src/frame.rs:138-145 | with the default `measure`, fewer bytes than `need` leave the verdict incomplete, unless a scan past the candidate finds a later frame whole |
| Segmentation.NeedIsWhatIsMissing | crates/layline-core/src/frame.rs:138-145 | with the default `measure`, `need` completes the candidate, the header, or the frame `frame_len` gives; and those bytes end the wait for the frame |
| Segmentation.RunReads | crates/layline-core/src/frame.rs:355-418 | at every point of every run, the stream so far with anything after it reads as what the run has taken off and then what it still holds |
| Segmentation.FramesAreTheStreams | crates/layline-core/src/frame.rs:155-229 | for a spec whose verdicts more data does not change (the default `measure` gives such), however a stream is cut into pushes and pops, the frames returned are a prefix of one leftmost greedy segmentation, and once drained the frames, leftover bytes and counters equal it |
| Segmentation.CutsDoNotMatter | crates/layline-core/src/frame.rs:355-406 | two drained runs that accepted the same bytes agree in frames, held bytes and counters, whatever the cuts and buffer sizes |
| Buffer.Fixed.Push | crates/layline-core/src/buffer.rs:106-114 | appends all of the bytes exactly when they fit, and otherwise nothing |
| Buffer.Fixed.Rewind | crates/layline-core/src/buffer.rs:124-126 | truncates, and does nothing past the end |
| Buffer.Fixed.Pad | crates/layline-core/src/buffer.rs:50-59 | appends `n` zeros exactly when they fit; a failed pad leaves the whole runs of 64 that did |
| BitStream.UnpackPack | crates/layline-core/src/bits.rs:143-153 | bytes carry a bit stream back in either order, padded with zeros |
| BitStream.PackUnpack | crates/layline-core/src/bits.rs:45-66 | whole bytes are the packing of the stream they carry |
| BitStream.FieldsReadBack | crates/layline-core/src/bits.rs:73-100 | fields of any widths up to 64, after any bits and before any, read back as each value's low bits |
| BitStream.FieldsRoundTrip | crates/layline-core/src/bits.rs:73-100 | packed into bytes after anything, in either order, the fields read back and the padding is zero |
| BitStream.WholeBytesAreWords | crates/layline-core/src/bits.rs:73-100 | whole bytes at a byte's start read as their big-endian integer with the high bit first, and their little-endian one with the low bit first |
| BitStream.PatchIsWritingItFirst | crates/layline-core/src/bits.rs:216-247 | patching field `k` later gives exactly the bytes that writing the patched value first would have given |
| BitCursor.BitReader.Read | crates/layline-core/src/bits.rs:73-100 | the byte-by-byte loop reads the field the stream has there, or reports `Short` with its byte counts and does not move |
| BitCursor.ShortSaysHowMany | crates/layline-core/src/bits.rs:73-100 | with as many bytes as `Short` says the read succeeds, and with fewer it does not |
| BitCursor.BitReader.Bit | crates/layline-core/src/bits.rs:107-109 | reads the stream's next bit |
| BitCursor.BitIsAField | crates/layline-core/src/bits.rs:107-109 | that is a field of one bit, with the same errors |
| BitCursor.BitReader.Skip | crates/layline-core/src/bits.rs:116-128 | moves exactly when the bits are there |
| BitWriting.BitWriter.Write | crates/layline-core/src/bits.rs:170-181 | appends the field's bits, or on overflow leaves the written bytes and the cursor exactly as before; holds in every reachable state because unused bits are zero |
| BitWriting.BitWriter.Append | crates/layline-core/src/bits.rs:183-204 | the chunking loop appends the field's bits in order, and succeeds exactly when its bytes fit |
| BitWriting.BitWriter.Patch | crates/layline-core/src/bits.rs:216-247 | in-place patching replaces exactly the field's bits of the stream |
| BitWriting.BitWriter.Position | crates/layline-core/src/bits.rs:251-253 | the position computed from lengths is the number of bits written |
| BitWriting.CutBack | crates/layline-core/src/bits.rs:173-179 | truncating and masking the last byte of a longer stream's bytes gives the shorter stream's bytes |
| ExpGolomb.SplitMeans | crates/layline-core/src/num/expgolomb.rs:62-68 | the split gives `n <= 64` zeros and a suffix below `2^n` with `v == 2^n - 1 + suffix`, for every `u64` including the largest |
| ExpGolomb.Decode | crates/layline-core/src/num/expgolomb.rs:72-87 | the counting loop decodes as section 9.1 of ITU-T H.264 defines `ue(v)`, with each error case |
| ExpGolomb.Encode | crates/layline-core/src/num/expgolomb.rs:89-97 | appends the code word exactly when it fits; otherwise leaves nothing, its zeros, or its zeros and the one |
| ExpGolomb.EncodedDecodes | crates/layline-core/src/num/expgolomb.rs:60-98 | a code word at any bit offset, whatever follows, decodes to its value and its `2n + 1` bits |
| ExpGolomb.DecodedEncodes | crates/layline-core/src/num/expgolomb.rs:60-98 | re-encoding any decoded value reproduces exactly the bits consumed |
| ExpGolomb.ShortMeansAWordBegins | crates/layline-core/src/num/expgolomb.rs:72-87 | a failed decode is `Short` exactly when what is left begins a code word, or a suffix already too large |
| ExpGolomb.MalformedAtItsStart | crates/layline-core/src/num/expgolomb.rs:72-87 | a malformed word is reported at the byte it starts in |
| Varint.UlebDecode | crates/layline-core/src/num/varint.rs:35-53 | decodes exactly the words that end within ten bytes and whose unbounded base-128 value fits 64 bits |
| Varint.SlebDecode | crates/layline-core/src/num/varint.rs:114-139 | the same for the unbounded sign-extended value and `i64` |
| Varint.UlebEncode | crates/layline-core/src/num/varint.rs:55-68 | appends the word, byte by byte, up to what fits |
| Varint.SlebEncode | crates/layline-core/src/num/varint.rs:141-156 | appends the signed word, byte by byte, up to what fits |
| Varint.UnsignedRoundTrip | crates/layline-core/src/num/varint.rs:34-69 | a value's word followed by any bytes decodes to the value and the word's length |
| Varint.SignedRoundTrip | crates/layline-core/src/num/varint.rs:113-157 | the same for signed values |
| Varint.UnsignedIsShortest | crates/layline-core/src/num/varint.rs:34-69 | no word that decodes to a value is shorter than its encoding, and no other has its length |
| Varint.SignedIsShortest | crates/layline-core/src/num/varint.rs:113-157 | the same for signed values |
| Varint.ShortMeansMoreMayDecode | crates/layline-core/src/num/varint.rs:35-53 | a failed decode is `Short` exactly when some more bytes would make it succeed, or for ten bytes that all continue and fit, which none help |
| Varint.SignedShortMeansMoreMayDecode | crates/layline-core/src/num/varint.rs:114-139 | the same for signed words |
| Varint.ZigzagFolds | crates/layline-core/src/num/varint.rs:199-207 | zigzag is a bijection taking `v >= 0` to `2v` and `v < 0` to `-2v - 1`, `i64::MIN` included |
| Checksum.CrcFold | crates/layline-core/src/checksum.rs:67-86 | the bitwise loops compute the fold, reflected or not |
| Division.CrcIsTheRemainder | crates/layline-core/src/checksum.rs:67-104 | a word is a message's CRC if and only if, less `XOROUT`, it is a remainder of the message, raised by the register's width with `INIT` above it, divided by `x^W + POLY` over GF(2); reflected CRCs with the low bit first |
| Division.FoldDivides | crates/layline-core/src/checksum.rs:67-86 | folding from any register leaves such a remainder, and a quotient |
| Division.RemaindersAreUnique | crates/layline-core/src/checksum.rs:67-86 | and there is no other |
| Checksum.FoldSplits | crates/layline-core/src/checksum.rs:67-86 | folding a message is folding its parts in turn |
| Checksum.ReflectionReverses | crates/layline-core/src/checksum.rs:101-104 | a reflected CRC is the bit reversal of the unreflected CRC with reversed polynomial, parameters and bytes, for every width, state and message |
| Checksum.FoldIsSteps | crates/layline-core/src/checksum.rs:67-86 | folding up to a register of bytes is that many register steps from the state with those bytes XORed in as one word, big-endian or little-endian |
| Checksum.OwnCrcLeavesAConstant | crates/layline-core/src/checksum.rs:150-169 | a message followed by its own CRC folds to a value the parameters alone decide, zero when `XOROUT` is 0 |
| Checksum.BurstsAreSeen | crates/layline-core/src/checksum.rs:67-86 | with the polynomial's lossless bit set, two equal-length messages that differ only within a register of consecutive bytes never share a CRC |
| Checksum.LossyCrcsCollide | crates/layline-core/src/checksum.rs:67-86 | without that bit, anywhere in any message there are two such stretches it cannot tell apart |
| Checksum.BurstsAreSeenExactlyWhenLossless | crates/layline-core/src/checksum.rs:67-86 | the condition is exact |
| Checksum.PairIsAWord | crates/layline-core/src/checksum.rs:179-201 | two bytes are added as one 16-bit word, in either byte order |
| Checksum.Sum16Feed | crates/layline-core/src/checksum.rs:179-201 | pairing by twos with the byte held from the run before is feeding one byte at a time |
| Checksum.BlockAndCheckSumToZero | crates/layline-core/src/checksum.rs:203-209 | the words of a zero-padded block and its check word sum to zero modulo 2^16 |
| Checksum.RunsAreTheirConcatenation | crates/layline-derive/src/layout/asserts.rs:563-585 | feeding either checksum any split of the bytes into runs gives the value of the concatenation |
| Layout.SizeMeans | crates/layline-codegen/src/model/layout.rs:33-75 | a container has its declared bits, bytes or 16-bit words |
| Layout.Solve | crates/layline-derive/src/layout/solve.rs:6-64 | accepts exactly when every item is placed where it may be, every `#[at]` names its declared position and the widths fill the container; gives the mirrored positions, or the first item refused and exactly why: misplaced, overflowing or misstated |
| Layout.AgreesMeans | crates/layline-codegen/src/model/layout.rs:275-300 | an `#[at]` in bits names the declared bit, and one in bytes the byte it begins |
| Layout.PlacedMeans | crates/layline-derive/src/layout/solve.rs:46-85 | in words mode a packed field may be exactly where it lies in one word, anything else where its elements are aligned |
| Layout.OthersStayInPlace | crates/layline-codegen/src/model/layout.rs:261-273 | an array or nested layout starts at its declared position in every bit order |
| Layout.CheckLayout | crates/layline-core/src/field.rs:155-174 | accepts exactly the tables that run on from bit 0 to the total; reports the first gap or the short end |
| Layout.EveryBitInExactlyOneField | crates/layline-core/src/field.rs:155-174 | a table it accepts puts every bit of the container in exactly one field |
| Layout.TabledTiles | crates/layline-core/src/field.rs:155-174 | and no field reaches outside the container or appears twice |
| Layout.AscendingTilesAreTabled | crates/layline-core/src/field.rs:155-174 | rows that tile a container, in ascending order, are a table it accepts |
| Layout.FieldRows | crates/layline-codegen/src/walk/row.rs:126-139 | the pushes and the sort give the prefix's and every field's rows at their physical positions |
| Layout.PushRows | crates/layline-codegen/src/walk/row.rs:145-181 | one row for a field, or one for each element or word, of arrays of scalars and of nested layouts |
| Layout.RowsRunOn | crates/layline-codegen/src/walk/row.rs:145-181 | every field's rows run on from its start to its end |
| Layout.RowsAreElements | crates/layline-codegen/src/walk/row.rs:145-181 | and each is as wide as one element, or a word |
| Layout.MirrorRowCovers | crates/layline-codegen/src/model/layout.rs:261-273 | a mirrored row covers exactly the mirrors of its bits |
| Layout.MirrorTiles | crates/layline-codegen/src/model/layout.rs:261-273 | mirroring rows that run on, each inside its region, gives rows that tile |
| Layout.AcceptedLayoutsAreTabled | crates/layline-codegen/src/walk/row.rs:126-139 | when the solver accepts packed fields in either bit order, or any fields in plain order, the rows tile the container and sorted by start are a table `check_layout` accepts |
| Access.WindowsAreSound | crates/layline-derive/src/layout/access.rs:144-171 | every field of up to 128 bits gets a window over exactly the bytes it touches, with a tail only for a 17th byte |
| Access.LoadIsTheField | crates/layline-derive/src/layout/access.rs:267-282 | a window load, in either byte order and with the tail, is that field's bits of the whole container |
| Access.StoreInPlace | crates/layline-derive/src/layout/access.rs:323-380 | the in-place store changes the buffer as `Store` says |
| Access.StoreSetsTheField | crates/layline-derive/src/layout/access.rs:323-380 | a window store sets exactly the field's bits of the container and changes no other bit of the wire |
| Containers.ExtractIsSlice | crates/layline-core/src/extent.rs:52-55 | the mask-and-shift extract is the field's bits |
| Containers.InsertIsReplaced | crates/layline-core/src/extent.rs:62-65 | the insert replaces exactly the field's bits with the value's low bits |
| Containers.ExtractInserted | crates/layline-core/src/extent.rs:52-65 | an insert is read back masked, and leaves every extent beside it |
| Containers.BitWord.FromWire | crates/layline-core/src/word.rs:36-70 | both loading loops give container bit `i` at bit `i` |
| Containers.BitWord.SetRaw | crates/layline-core/src/word.rs:94-96 | replaces the bits, masked to the container |
| Containers.BitWord.ToWire | crates/layline-core/src/word.rs:49-83 | both storing loops give bytes that load back as the container |
| Emit.RawHoldsTheField | crates/layline-derive/src/layout/access.rs:426-444 | at any word size the raw value's low bits are the field's |
| Emit.DecodeValueMeans | crates/layline-derive/src/layout/access.rs:411-424 | reading a value from a masked word of any size depends only on the field's bits |
| Emit.SignExtendedMeans | crates/layline-derive/src/layout/access.rs:404-409 | shifting a field to the top of an `i64` and back fills in its sign |
| Emit.FittingSurvives | crates/layline-derive/src/layout/access.rs:468-505 | a value that passes its width guard survives its field exactly when it is canonical |
| Emit.NumbersSurviveExactlyWhenFitting | crates/layline-derive/src/layout/access.rs:455-505 | a number survives its field exactly when the guard would have passed it |
| Emit.MeaningIsTheNumber | crates/layline-derive/src/layout/access.rs:404-424 | a numeric field means the signed or unsigned integer its bits are |
| Emit.RangedMeans | crates/layline-derive/src/layout/asserts.rs:484-499 | the range guard passes exactly the numbers between the range's ends, as an `i64` shows them |
| Emit.FittingMeans | crates/layline-derive/src/layout/access.rs:455-505 | the width guard passes exactly the integers, and the raw bits of codecs, of the field's width |
| Emit.EncodeRefusesExactly | crates/layline-derive/src/layout/emit.rs:348-370 | encode stops exactly at the first number outside its range, then at the first too wide, and otherwise succeeds |
| Emit.DecodeRefusesExactly | crates/layline-derive/src/layout/emit.rs:254-293 | once the prefix passes, decode gives the fields' meanings, or `OutOfRange` for exactly the first number outside its range |
| Emit.PrefixPassesWhen | crates/layline-derive/src/layout/emit.rs:309-345 | the prefix check is of the whole prefix below 64 bits; from 64 on of as many low bits as its width has modulo 64, and it passes on the written prefix exactly when the rest of the value's low 64 bits are zero |
| Emit.UnreadablePrefixesNeverDecode | crates/layline-derive/src/layout/emit.rs:309-345 | and otherwise on no wire at all |
| Emit.EncodedDecodes | crates/layline-derive/src/layout/emit.rs:254-293 | for values in their ranges and widths encode succeeds, its wire decodes if and only if the prefix is readable, and `decode(encode(v)) == v` if and only if, besides, every codec value is one its own raw bits decode to |
| Emit.DecodedEncodes | crates/layline-derive/src/layout/emit.rs:348-370 | `encode(decode(w))` is `w` with the prefix encode writes if and only if every codec returns its raw bits, or, in a layout that truncates, its field's |
| Emit.RestoredIsTheWire | crates/layline-derive/src/layout/emit.rs:309-345 | that is `w` itself exactly when its prefix is what encode writes, as in every wire that decodes with a valued prefix below 64 bits |
| Compiled.CheckRanges | crates/layline-derive/src/layout/asserts.rs:484-499 | the range guards find the first field outside its range |
| Compiled.EncodeRegister | crates/layline-derive/src/layout/emit.rs:348-370 | the or-ing register form of up to 64 bits produces the bytes, or the panic of the first range or width guard, of the meaning |
| Compiled.DecodeRegister | crates/layline-derive/src/layout/emit.rs:254-293 | the register form decodes, prefix and range checks included, as the meaning does |
| Compiled.EncodeContainer | crates/layline-derive/src/layout/emit.rs:417-435 | the `u128` insert form produces the same bytes or panic, so for up to 64 bits the register form's |
| Compiled.DecodeContainer | crates/layline-derive/src/layout/emit.rs:232-251 | the `u128` extract form decodes as the meaning does |
| Compiled.EncodeWindows | crates/layline-derive/src/layout/emit.rs:436-457 | the window stores of a layout of any size, prefix last, produce the same bytes |
| Compiled.DecodeWindows | crates/layline-derive/src/layout/emit.rs:311-345 | the window loads, and the prefix read through its own window, decode as the meaning does |
| Compiled.RegisterBytes | crates/layline-derive/src/layout/access.rs:110-129 | the bytes picked from the register are the container's, in either byte order |
| Derive.AcceptedPlansAreSound | crates/layline-derive/src/layout/solve.rs:6-64 | the plan of every `bits = N` layout the solver accepts, in either bit order, has its fields apart, inside, and covering the container with the prefix, and a valued prefix in one window |
| Derive.SolvedKeeps | crates/layline-derive/src/layout/solve.rs:6-64 | and keeps each field's width, reading and range at its solved position, and the layout's byte order, prefix and truncation |
| Derive.AcceptedLayoutsRoundTrip | crates/layline-derive/src/layout/emit.rs:398-435 | so for every accepted layout both round trips hold exactly under their conditions |
| Derive.AWidePrefixNeverDecodes | crates/layline-codegen/src/validate/layout.rs:49-77 | an accepted layout with a 64-bit prefix that decodes no wire |
| Derive.ValuesThatAreNotCanonicalAreLost | crates/layline-core/src/codec.rs:6-15 | a codec that returns every raw bit may still lose a value |
| Derive.NonzeroIsNotReturned | crates/layline-core/src/codec.rs:97-112 | `Nonzero` does not return the raw value 2, whole or cut to its field |
| BitView.SealedIsReplaced | crates/layline-derive/src/layout/view.rs:85-94 | sealing a `bits = N` view replaces the prefix's bits of the container and no other |
| BitView.SealedVerifies | crates/layline-derive/src/layout/view.rs:85-109 | from any bytes that seal makes `verify` succeed exactly when the prefix is readable, and leaves every field's value |
| BitView.SealFixesExactlyTheWritten | crates/layline-derive/src/layout/view.rs:85-109 | it leaves exactly the wires whose prefix is the value as they are, so twice is once |
| BitView.SealFixesExactlyTheVerified | crates/layline-derive/src/layout/view.rs:85-109 | those are the wires `verify` passes if and only if the prefix is below 64 bits |
| BitView.VerifyIsDecode | crates/layline-derive/src/layout/view.rs:119-132 | for a layout that may have a view, `verify` finds what `decode` would |
| BitView.SetsHold | crates/layline-derive/src/layout/view.rs:17-39 | after any setters each field holds the value last set on it, or what it held |
| BitView.SettersAndSealAreEncode | crates/layline-derive/src/layout/view.rs:17-39 | any setters, from any bytes, whose last write to each field of a covered layout is its value, and a seal, give what encode writes; without a prefix the setters alone do |
| BitView.LayoutView.Set | crates/layline-derive/src/layout/view.rs:33-37 | a setter cuts the value to its field's bits of the container and changes no other: one step of such a run |
| BitView.LayoutView.Verify | crates/layline-derive/src/layout/view.rs:119-132 | the prefix read through its window is checked, and the result is that of `decode` |
| BitView.LayoutView.Seal | crates/layline-derive/src/layout/view.rs:100-108 | the in-place seal gives the sealed bytes, which verify if the prefix is readable, and every field as it was |
| Coverage.RunsAreTheRangeWithoutItself | crates/layline-codegen/src/model/coverage.rs:88-100 | the runs are exactly the range minus the checksum's own place, if and only if the range does not begin inside that place |
| Coverage.CoversMeansInRange | crates/layline-codegen/src/validate/coverage.rs:148-153 | a checksum covers another exactly when the other's row is in its resolved range |
| Coverage.CoversByName | crates/layline-codegen/src/validate/coverage.rs:148-153 | in names: from the row a range starts at to the last before the one it ends at, or to that one when it is taken in |
| Coverage.ValidatesExactly | crates/layline-codegen/src/validate/coverage.rs:62-135 | accepts exactly the ranges between rows other than the checksum that end at or after the first row and where they begin |
| Coverage.RefusalsAreTrue | crates/layline-codegen/src/validate/coverage.rs:62-135 | and what each refusal says of the range is so |
| Coverage.ValidatedRangesResolve | crates/layline-codegen/src/validate/coverage.rs:62-135 | an accepted range resolves forwards, inside the body |
| Coverage.ValidatedRangesCover | crates/layline-codegen/src/validate/coverage.rs:62-135 | an accepted range covers something except in one case, named |
| Coverage.AnAcceptedRangeThatCoversNothing | crates/layline-codegen/src/validate/coverage.rs:62-135 | that case |
| Coverage.WaitsByName | crates/layline-codegen/src/validate/coverage.rs:138-178 | a checksum waits on exactly the other checksums whose rows its range takes in |
| Coverage.Stampable | crates/layline-codegen/src/validate/coverage.rs:138-178 | accepts exactly when the covers relation is acyclic, which is exactly when some order computes each checksum after all it covers; a refusal names checksums each of which covers another of them |
| Assertions.ResolveAssertions | crates/layline-derive/src/layout/asserts.rs:93-218 | accepts exactly when every range, magic and coverage resolves and none covers a later checksum; gives the resolved record, or the first refusal in the order they are made |
| Assertions.ResolvedKeeps | crates/layline-derive/src/layout/asserts.rs:93-218 | the resolved record keeps the declared byte order, names, widths, readings, algorithms, coverages and text magics |
| Assertions.AcceptedKeeps | crates/layline-derive/src/layout/asserts.rs:93-218 | in an accepted one each range is as resolved, and each magic its text or its number in the record's byte order |
| Assertions.BoundsAreExtremes | crates/layline-derive/src/layout/asserts.rs:33-57 | the fields with values to bound are the integers of up to 64 bits, and the bounds are attained |
| Assertions.RangesRefusedExactly | crates/layline-derive/src/layout/asserts.rs:130-170 | a range on an integer is refused exactly when a written end is outside the field's values, a resolved one outside `i64`, or it lets every value through |
| Assertions.RangeRefusalsAreTrue | crates/layline-derive/src/layout/asserts.rs:130-170 | for the reason it gives, and with the ends it names |
| Assertions.AcceptedRangesAdmitTheWritten | crates/layline-derive/src/layout/asserts.rs:130-170 | a resolved range lets through exactly the values between the ends that are written |
| Assertions.NumberMagicReadsBack | crates/layline-derive/src/claim.rs:158-203 | a numeric magic's bytes hold its number, in either byte order |
| Assertions.ResolveRanges | crates/layline-derive/src/layout/asserts.rs:130-170 | in a `bits = N` layout, accepts exactly when every range resolves within its field's own width; gives the fields the plan is solved from, or the first range refused and why |
| Assertions.AcceptedRangesHoldUnlessBeyond | crates/layline-derive/src/layout/asserts.rs:130-170 | an accepted range holds some value of its field exactly when its ends resolve in order, and so unless it has one open end and lies beyond the field's values |
| Assertions.AcceptedRangesThatHoldNothing | crates/layline-derive/src/layout/asserts.rs:138-170 | `300..` and `..=-1` on a `u8` are accepted |
| Assertions.AMagicOutsideItsRangeIsAccepted | crates/layline-derive/src/layout/field.rs:249-289 | a `u8` with magic 5 and range 0 to 3 is accepted, as the record of `Stamping.AMagicOutsideItsRangeNeverDecodes` |
| Records.FindLaterCovered | crates/layline-derive/src/layout/asserts.rs:193-214 | finds a checksum whose range holds a later one, exactly when there is one |
| Records.RunsAreFields | crates/layline-derive/src/layout/asserts.rs:220-320 | every run of a resolved checksum is whole fields, none of them the checksum |
| Records.RunsAvoidLaterChecksums | crates/layline-derive/src/layout/asserts.rs:193-214 | testing for a checksum held whole is enough: in an accepted record no run has any byte of the checksum itself or of a later one |
| Records.FoldOverIsCompute | crates/layline-derive/src/layout/asserts.rs:563-585 | for an algorithm that folds in parts as at once, the value over any runs is that of their bytes in one piece |
| Records.CrcsAreLawful | crates/layline-core/src/checksum.rs:67-104 | catalogue CRCs are such algorithms |
| Records.SumsAreLawful | crates/layline-core/src/checksum.rs:179-209 | and so is the paired sum |
| Records.SumsToNothing | crates/layline-core/src/checksum.rs:203-209 | whose 16-bit value and the message's words add up to a multiple of 2^16 |
| Sums.ResolvesExactly | crates/layline-derive/src/layout/asserts.rs:220-320 | a range resolves exactly when it names fields other than its checksum and has one other in it |
| Sums.ReachesMeans | crates/layline-derive/src/layout/asserts.rs:193-214 | its runs hold exactly the other fields the range takes in |
| Sums.AcceptsExactly | crates/layline-derive/src/layout/asserts.rs:193-214 | so a record is accepted exactly when every range resolves and takes in no later checksum |
| Sums.RunsCarryTheFields | crates/layline-derive/src/layout/asserts.rs:220-320 | the runs carry exactly the bytes of the fields from the one the range starts at to the one it ends before, or with it, in order, without the checksum |
| Sums.SumIsOfTheFields | crates/layline-derive/src/layout/asserts.rs:535-585 | so a checksum is its algorithm's value over those bytes in one piece |
| Sums.SealedCrcIsOfTheFields | crates/layline-derive/src/layout/view.rs:95-108 | and after a seal a CRC field holds the CRC of those fields |
| Stamping.SumIgnoresLaterChecksums | crates/layline-derive/src/layout/asserts.rs:535-560 | so a checksum's value does not depend on any checksum from its own on |
| Stamping.SealedHolds | crates/layline-derive/src/layout/asserts.rs:527-560 | after stamping, each field holds its magic, its checksum over the final bytes, or what it held |
| Stamping.SealedVerifies | crates/layline-derive/src/layout/view.rs:95-108 | from any bytes of a byte-mode record, which has no prefix, `seal` makes `verify` succeed and leaves unstamped fields as they were |
| Stamping.SealIsIdempotent | crates/layline-derive/src/layout/view.rs:95-108 | sealing such a record twice is sealing it once |
| Stamping.SealFixesExactlyTheStamped | crates/layline-derive/src/layout/view.rs:95-108 | a seal leaves exactly the wires whose magics and checksums already hold |
| Stamping.EncodeRefusesExactly | crates/layline-derive/src/layout/asserts.rs:484-499 | encode stops exactly at the first number outside its field's range |
| Stamping.DecodeRefusesExactly | crates/layline-derive/src/layout/emit.rs:279-292 | decode reports the first field without its magic, else the first flag that is neither 0 nor 1, else the first number outside its range, else the first checksum that an `i64` tells from the sum, with those numbers; and otherwise succeeds |
| Stamping.EncodedDecodes | crates/layline-derive/src/layout/emit.rs:436-457 | every encoded record decodes, to the same unstamped values, exactly when each ranged magic and each ranged checksum's value is in range; without ranged checksums the declaration alone decides; always, when no field is both |
| Stamping.MagicsOutOfBoundsNeverDecode | crates/layline-derive/src/layout/emit.rs:279-292 | when a ranged magic is outside its range, no wire decodes |
| Stamping.AMagicOutsideItsRangeNeverDecodes | crates/layline-derive/src/layout/emit.rs:279-292 | a concrete record: what encode writes is `OutOfRange` on decode, and every wire is refused |
| Stamping.DecodedEncodes | crates/layline-derive/src/layout/emit.rs:270-292 | encoding what a wire decodes to gives the wire back exactly when its checksums match bit for bit |
| Stamping.DecodedStampsHold | crates/layline-derive/src/layout/asserts.rs:501-525 | which a wire that passes its checks has, if no checksum is a `u64` |
| Stamping.LargeSumsLookAlike | crates/layline-core/src/bound.rs:106-110 | two `u64` check values that the saturating comparison does not tell apart |
| Stamping.ALargeSumIsNotReturned | crates/layline-derive/src/layout/asserts.rs:501-525 | a record with such a checksum and a wire that decodes and does not encode back |
| Stamping.SettersAndSealAreEncode | crates/layline-derive/src/layout/view.rs:17-39 | any setters, from any bytes, whose last write to each unstamped field is its value, and a seal, give what encode writes |
| Stamping.VerifyIsDecode | crates/layline-derive/src/layout/view.rs:119-132 | for a byte-mode record that may have a view, `verify` finds exactly the error `decode` would |
| Stamping.WhyStrictBoolsHaveNoView | crates/layline-derive/src/layout/parse.rs:310-331 | the refusal is needed: `verify` would pass a strict `bool` that `decode` refuses |
| View.MagicWrites | crates/layline-derive/src/layout/asserts.rs:527-533 | the in-place magic writes are the specification's |
| View.ChecksumWrites | crates/layline-derive/src/layout/asserts.rs:535-560 | every checksum cleared, then each computed from the bytes as they then are and written, in declaration order |
| View.Encode | crates/layline-derive/src/layout/emit.rs:436-457 | range guards, field writes, magics and checksums produce the specified wire, or the first guard that fails |
| View.Decode | crates/layline-derive/src/layout/emit.rs:279-292 | magics, flags, ranges and checksums are checked in that order, and the first error or the values returned |
| View.RecordView.Set | crates/layline-derive/src/layout/view.rs:33-37 | a setter writes its field's bytes and no others: one step of such a run |
| View.RecordView.Verify | crates/layline-derive/src/layout/view.rs:119-132 | in a byte-mode record, succeeds exactly when `decode` on the owned type would |
| View.RecordView.Seal | crates/layline-derive/src/layout/view.rs:100-108 | in a byte-mode record, the in-place seal gives the sealed bytes, which verify |
| Graph.LeastFixpoint | crates/layline-codegen/src/emit/graph.rs:187-201 | terminates with a closed set, the least one for a monotone rule |
| Graph.EndsMeansValue | crates/layline-codegen/src/emit/graph.rs:45-49 | an item ends exactly when it has a finite value: optional parts may be absent, repeats empty unless they fill a window, and a choice takes an arm or its default |
| Graph.DirectIsInside | crates/layline-codegen/src/walk/reference.rs:34-65 | the references without a pointer are the messages and choices held inside one another, not boxed or in a collection |
| Graph.SizedMeansCycleFree | crates/layline-codegen/src/emit/graph.rs:61-67 | an item has finite size exactly when it leads to no cycle of direct references |
| Graph.NoneLeadsMeansAcyclic | crates/layline-codegen/src/emit/graph.rs:61-79 | no item leads to a cycle exactly when there is none |
| Graph.Recursion | crates/layline-codegen/src/emit/graph.rs:18-80 | accepts a module exactly when every message and choice has a finite value and none is held inside itself; a refusal names the first item for which that fails |
| OpenEnds.Close | crates/layline-codegen/src/emit/graph.rs:126-145 | the in-place closure holds exactly the pairs joined by a non-empty path of deferrals |
| OpenEnds.ViaIsReaches | crates/layline-codegen/src/emit/graph.rs:137-145 | a path through inner nodes admitted one at a time is a path |
| OpenEnds.TermMeans | crates/layline-codegen/src/walk/reference.rs:67-80 | a body's term is that of its last segment: text or a fill to the end runs on, and a message or unbounded switch ends as its item does |
| OpenEnds.DeferralsAreEnds | crates/layline-codegen/src/emit/graph.rs:98-136 | the deferrals are the pairs of items of which one ends as the other |
| OpenEnds.LeastMeansOpenEnded | crates/layline-codegen/src/emit/graph.rs:168-173 | an item's value is true exactly when it ends, zero or more items on, as one that runs on |
| OpenEnds.OneCycleOneEnd | crates/layline-codegen/src/emit/graph.rs:175-183 | all members reported for one cycle have the same value |
| OpenEnds.OpenEndCycles | crates/layline-codegen/src/emit/graph.rs:98-184 | refuses exactly when an item on a cycle ends, some items on, as one the module does not declare, naming the first such; otherwise reports every item's cycle members and whether each runs on, or nothing when there is no cycle |

## Left out

- Token building, attribute parsing and refusals, spans, and message texts: the model says what the generated code means.
- The message walk's submodules (`repeat`, `patch`, `env` and the others of `walk/message.rs`) are not part of this model.
- `cycle_from`: only the item a refusal names is modelled, not the path printed after it.
- Chunk independence with `SCAN_PAST_INCOMPLETE`: the code makes the result depend on what has arrived (frame.rs:46-51). Conservation and termination are proved with it on.
- `FrameSpec` is a datatype of functions rather than a trait; the `frame_len` panic of a spec with neither method is not modelled.
- `Buffer` is modelled at `Fixed`; `Vec` and forwarding through a reference are the same contract without an end.
- BitCursor.BitReader.Read: lengths are taken to be addressable in a 64-bit count of bits, as on a 64-bit host; `debug_assert!`s are preconditions.
- The `reaches` vector of `n * n` is a two-dimensional array.
- Layout.PushRows: a row's name, such as `field[1][2]`, is not in the model, only its place; `field_rows` sorts with an insertion sort, of which only stability and order matter.
- Overlays, `STATED` and the other published tables; the texts of `check_stated`.
- Tiling of arrays or nested layouts under `order = msb` beside packed fields: the solver alone does not give it, only the emitted `assert_layout` does (emit.rs:106-117).
- A valued prefix wider than 128 bits: its window is an array of 32 bytes given to a `u128`, which does not compile (access.rs:741-749).
- A `u128` field with a range: there is no `WireInt` for `u128`, so it does not compile (bound.rs:88-115).
- Words-mode access (`Access::Region`), where byte order applies within each word rather than to the container, and whole scalars (`Access::Whole`).
- Byte-mode fields of floats, codecs, arrays and nested layouts are plain bytes in `Records`: their own encoding is not modelled.
- Records.Algorithm: that `finish` has the checksum field's own type is a cut to the field's width here.
- A checksum algorithm that overrides `compute` so that it differs from `finish(update(init, bytes))`.
- Text codecs, borrowed lifetimes, the `unsafe` casts of views, committed files, audits and serde.
