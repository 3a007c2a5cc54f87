# Verified models of the saved-capture converters

The repository turns saved bytes of vehicles and control systems into evidence rows, offline. Most of it maps
fields; the parts modelled here are those that rebuild something from a stream or carry state across a whole
capture. Each one is modelled in its own form: the loops as methods with invariants, the stateful objects as
classes, the pure readers as functions. Beside each stands an independent description of what it must do, and
theorems for all inputs, all runs or all interleavings connect the two, in both directions where the code
supports both.

| area | files | what is proved |
|---|---|---|
| MAVLink to ULog reassembly | `CrcRegisters`, `Crc`, `Tlog`, `Ulog`, `Assembler`, `Reassembly`, `Reconstruction`, `RoundTrip`, `CrcDifferences`, `LoggingCrc`, `CrcCheckValues`, `Refusals`, `FragmentLoss`, `FrameDamage` | acceptance and every refusal are characterised exactly, everything returned is explained, reassembly undoes transmission under any interleaving, and the effect of damage is exact |
| J1939 NAME epochs | `NameEpochs`, `NameStates`, `NameTransfers` | the dictionaries and every row mean what the history of claims says; contention is absorbing; a transfer's NAME held throughout |
| CRSF parameters | `CrsfEntry`, `CrsfParameters`, `CrsfFrames`, `ChunkRuns`, `RunEvidence`, `RunAcceptance`, `RunRefusals` | frames and entries round-trip, concurrent runs do not interfere, one read authorises one run, acceptance and refusals are exact |
| S.Port and MSP streams | `Framing`, `NativeCapture`, `SportFraming`, `SportStuffing`, `SportChecksum`, `SportDecoding`, `MspFraming`, `MspDecoding`, `DiscardReasons` | inputs are tiled, packets are faithful, transmissions are read back, a window is a slice |
| BehaviorTree declarations | `BtReferences`, `BtBundle`, `BtNodes`, `BtTree`, `BtModels`, `BtFlattening`, `BtDocument`, `BtRows`, `BtBundleTrees` | cycle detection and include loading are exact; flattening is invertible; declared ports and directions agree; a bundle's checks settle its documents' |
| DisplayPort canvas | `Canvas` | the sparse map refines a dense grid whose cells have an exact history |
| Watchdog statustext | `Numerals`, `WatchdogText`, `Watchdog`, `WatchdogOutcomes`, `WatchdogBits` | what a text cut to fifty bytes can yield, exactly |
| IMU batches | `ImuBatch`, `ImuRows` | the state machine recognises exactly the grammar of whole batches; every row describes its records |
| Progress chains | `Expectation` | subjects are independent, deltas telescope, dispositions add up |
| CAP alerts | `CapAlert`, `CapInfoText`, `CapRows` | every child is counted once; the text carrier's own guards never fire |

Some results say that a guard of the code can never fire, or that an input family is treated otherwise than one might
expect. Lines 78-79 of `scripts/convert_dbc_recorded.py` are unreachable (`NameEpochs.HeldAddressIsContested`). The
import guard on the published CRC_EXTRA never fires (`LoggingCrc.PublishedExtra`), nor do the range and count guards of
`scripts/convert_cap_info_text.py` (`CapInfoText.Convert`), the canvas's second decoding of a native stream
(`MspDecoding.CanvasReadable`), and the reference guards of a document whose bundle was checked
(`BtBundleTrees.GuardsNeverFire`).

Two properties one might expect fail, and their exact conditions are proved. Damage within a logging frame's
covered bytes is not always refused: the message id is among them, and every frame that can be sent can be
hidden by one changed byte (`FrameDamage.SentCanBeHidden`). What then happens to the capture is
`FrameDamage.DamageOutcome`: inside the stream the damage is noticed or harmless
(`FrameDamage.InnerDamageHarmless`), but at its end a shorter ULog can be returned as whole
(`FrameDamage.ShorterUlogAccepted`). And not every text the watchdog writer prints qualifies after the
fifty-byte cut: `Watchdog.CutDecodedExactly` gives the exact condition and `Watchdog.ZeroMalformed` a text that
fails it.

Conventions: a byte is an integer from 0 to 255; CRC registers are bit vectors; a raised error is a `Result` or a
false `ok`; rows are datatypes rather than CSV text. Where the source keeps a SHA-256 digest in place of data, the
model keeps the data.

## Model

| member | source | states |
|---|---|---|
| Crc.CrcX25 | scripts/assemble_saved_mavlink_ulog.py:64-70 | The byte loop computes the accumulator of the whole input, one shift-form step a byte, from any starting register. |
| CrcRegisters.FoldByteRefines | scripts/assemble_saved_mavlink_ulog.py:67-69 | One shift-form step equals absorbing the byte's eight bits one at a time into the reflected CRC-16/MCRF4XX register, for every register and byte. |
| Crc.AbsorbComposes | scripts/assemble_saved_mavlink_ulog.py:66-70 | Accumulating a concatenation is accumulating the second part from the register the first part left. |
| Crc.BurstDetected | scripts/assemble_saved_mavlink_ulog.py:64-70 | Two equal-length inputs that differ only in one byte or in two adjacent bytes never share a CRC. |
| CrcRegisters.WordOfInjective | scripts/assemble_saved_mavlink_ulog.py:177-178 | Comparing the register with the frame's 16-bit field as numbers confuses no two registers. |
| Crc.ExtraIsCrcOfDeclaration | scripts/assemble_saved_mavlink_ulog.py:73-81 | The field-by-field CRC_EXTRA accumulation is the CRC of the concatenated message declaration. |
| CrcDifferences.DifferenceTurns | scripts/assemble_saved_mavlink_ulog.py:64-70 | Two registers that absorb the same bytes differ afterwards by their first difference turned once a byte, whatever the bytes. |
| LoggingCrc.PublishedExtra | scripts/assemble_saved_mavlink_ulog.py:73-86 | The derivation gives 193 for LOGGING_DATA, the published value, so the import guard never fires, and 35 for LOGGING_DATA_ACKED. |
| LoggingCrc.NeverMistaken | scripts/assemble_saved_mavlink_ulog.py:176-178 | No frame passes under both logging identifiers: with the low identifier byte swapped, and the byte before it changed or not, the CRCs differ at every length. |
| Crc.ComputeCrc8 | scripts/convert_crsf_link.py:65-71 | The nested shift loop computes the polynomial 0xD5 register of the whole input. |
| Crc.ByteErrorDetected | scripts/convert_crsf_link.py:65-71 | Two inputs that differ in exactly one byte never share the 8-bit CRC. |
| CrcCheckValues.Crc16Check | scripts/assemble_saved_mavlink_ulog.py:64-70 | The defining register gives 0x6F91 for the text 123456789, the check value that CRC-16/MCRF4XX publishes. |
| CrcCheckValues.WordCheck | scripts/assemble_saved_mavlink_ulog.py:177-178 | That register is compared as the number 0x6F91, low byte first on the wire. |
| CrcCheckValues.Crc8Check | scripts/convert_crsf_link.py:65-71 | The CRC-8 gives 0xBC for the same text, the check value that CRC-8/DVB-S2 publishes. |
| CrcCheckValues.FrameCrcCovers | scripts/assemble_saved_mavlink_ulog.py:176-178 | A logging frame's CRC is that of its covered bytes followed by 193 or 35, by its message id. |
| Tlog.RecordAtEncoded | scripts/assemble_saved_mavlink_ulog.py:116-167 | A well-formed frame written anywhere in a capture is read back as exactly its own record, whatever follows it. |
| Tlog.EncodedAtRecord | scripts/assemble_saved_mavlink_ulog.py:116-167 | Conversely, every record the reader accepts is some well-formed frame, and the bytes consumed are that frame's encoding. |
| Tlog.FrameLengthBound | scripts/assemble_saved_mavlink_ulog.py:103-109 | No record is longer than the reader's stated frame bound. |
| Tlog.StampRead | scripts/assemble_saved_mavlink_ulog.py:121-121 | A time stamped most significant byte first is the word kept of the record. |
| Tlog.EncodeAllAppend | scripts/assemble_saved_mavlink_ulog.py:103-109 | Captures concatenate: the encoding of two lists of frames is the encoding of the joined list. |
| Ulog.MessageCounts | scripts/assemble_saved_mavlink_ulog.py:215-230 | The header walk returns the tally of kinds, or the first refusal, of the recursive message grammar. |
| Ulog.CountsOfUlog | scripts/assemble_saved_mavlink_ulog.py:215-230 | A file passes exactly when it is a header followed by complete messages, and the counts are the tally of those messages' kinds. |
| Assembler.Logging | scripts/assemble_saved_mavlink_ulog.py:170-205 | Reading one logging fragment: CRC with the derived extra byte, zero restoration, then the field checks. |
| Assembler.TakeFragment | scripts/assemble_saved_mavlink_ulog.py:265-295 | One selected fragment: bounds, first-offset rule, duplicate collapse, gap and reorder refusal, wrap count and append, as one fold step. |
| Assembler.Assemble | scripts/assemble_saved_mavlink_ulog.py:233-336 | The imperative one-pass assembler equals the fold over records, including every refusal and every counter. |
| Assembler.SumFrames | scripts/assemble_saved_mavlink_ulog.py:328-328 | The unrelated frame total is the sum over all message identifiers, in whatever order they are visited. |
| Assembler.TotalPick | scripts/assemble_saved_mavlink_ulog.py:328-328 | A sum over a dictionary does not depend on which entry is taken first. |
| Reassembly.CollectExactly | scripts/assemble_saved_mavlink_ulog.py:265-295 | Taking one more fragment succeeds exactly when the longer list is in sequence and within bounds, and the new output, references and counters are those of the longer list. |
| Reassembly.ScanReadsFrames | scripts/assemble_saved_mavlink_ulog.py:248-264 | Any capture the pass accepts is the encoding of some list of well-formed frames: input records tile the file. |
| Reassembly.ScanIsPlay | scripts/assemble_saved_mavlink_ulog.py:248-295 | Scanning an encoded list of frames is playing the frames one after another. |
| Reconstruction.PlayExactly | scripts/assemble_saved_mavlink_ulog.py:248-295 | Playing a list of frames succeeds exactly on admissible lists, and leaves the state that the list determines. |
| Reconstruction.AssembledFrames | scripts/assemble_saved_mavlink_ulog.py:233-307 | For every list of well-formed frames, acceptance is equivalent to: fragments readable, one sender unless declared, in sequence, within bounds, a complete ULog. |
| Reconstruction.AssembledExactly | scripts/assemble_saved_mavlink_ulog.py:233-307 | A byte string is assembled exactly when it is the encoding of frames that reconstruct a ULog; both directions, for every input and every source argument. |
| Reconstruction.ReturnedAssembly | scripts/assemble_saved_mavlink_ulog.py:306-336 | What an accepted capture returns: the joined bytes, references, chosen sender and balanced counters; every other sender with its number of fragments, and every other message id with the offsets of all its frames, and none besides. |
| Reconstruction.NumbersAdvance | scripts/assemble_saved_mavlink_ulog.py:273-295 | The k-th appended fragment has sequence (s0+k) mod 65536, and the wraps counted equal (s0+appended-1) div 65536. |
| Reconstruction.ReferencesTile | scripts/assemble_saved_mavlink_ulog.py:286-291 | Appended references' output ranges tile the ULog in order, each holding its own fragment's bytes; collapsed ones add none. |
| Reconstruction.CollapsedNamesItsTwin | scripts/assemble_saved_mavlink_ulog.py:275-281 | Every collapsed duplicate names an earlier appended fragment with the same number and the same bytes. |
| Reconstruction.ListedOffsets | scripts/assemble_saved_mavlink_ulog.py:250-254 | The offsets reported for an unrelated message are exactly where its frames start in the capture. |
| Reconstruction.SendersCounted | scripts/assemble_saved_mavlink_ulog.py:256-258 | Each sender's count is the number of its logging frames. |
| Reconstruction.UnrelatedBalance | scripts/assemble_saved_mavlink_ulog.py:249-254 | Records equal logging fragments plus all unrelated frames. |
| Reconstruction.SenderBalance | scripts/assemble_saved_mavlink_ulog.py:256-264 | Logging fragments equal the sum of all senders' counts. |
| Refusals.TornExactly | scripts/assemble_saved_mavlink_ulog.py:116-147 | No record is read, for a stated reason, exactly when the bytes are too short, begin no frame, flag something unknown, or are the beginning of a frame but not all of it. |
| Refusals.UnreadableExactly | scripts/assemble_saved_mavlink_ulog.py:176-205 | A logging frame is refused for its CRC, its length or its first message offset exactly when its own bytes are wrong in that, in this order. |
| Refusals.UnfitExactly | scripts/assemble_saved_mavlink_ulog.py:265-295 | A fragment is refused as too many, a mid-message start, a conflicting duplicate, a gap (2 to 32768 numbers ahead), out of order (fewer behind) or too large, exactly as its number and bytes after those before it say. |
| Refusals.RefusedExactly | scripts/assemble_saved_mavlink_ulog.py:233-307 | A capture is refused for a reason exactly when it begins with frames that can all be taken and that reason is what is wrong next: with the bytes, the frame, the fragment or the end; for every input and every reason. |
| RoundTrip.SentIsRead | scripts/assemble_saved_mavlink_ulog.py:170-205 | A sent logging message, with any of its trailing zeros dropped, is read back as exactly its own fields, sender and envelope, wherever its frame lies. |
| RoundTrip.ReadWasSent | scripts/assemble_saved_mavlink_ulog.py:170-205 | Conversely, every logging frame that can be read is the frame of some sent message. |
| RoundTrip.TransmissionJoins | scripts/assemble_saved_mavlink_ulog.py:265-295 | Fragments that transmit chunks with immediate repeats, from any starting number, are in sequence and join to the chunks. |
| RoundTrip.CaptureRoundTrip | scripts/assemble_saved_mavlink_ulog.py:233-307 | Assembly undoes transmission: any cut into chunks, any repeats, any start number, any truncation and any interleaving give back exactly the original bytes. |
| FrameDamage.DamagedFrameRefused | scripts/assemble_saved_mavlink_ulog.py:176-178 | A readable logging frame damaged in one covered byte, or two adjacent ones, that still carries a logging id, its own or the other, is refused as a CRC mismatch. |
| FrameDamage.DamageNoticed | scripts/assemble_saved_mavlink_ulog.py:248-264 | Damage itself is noticed exactly when the frame still claims to log; otherwise the frame counts as unrelated, listed at its offset. |
| FrameDamage.DamagedCaptureRefused | scripts/assemble_saved_mavlink_ulog.py:176-264 | A capture that holds a damaged frame that still logs is refused as a whole, whatever else it holds. |
| FrameDamage.SentCanBeHidden | scripts/assemble_saved_mavlink_ulog.py:248-255 | Every logging frame that can be sent is hidden by damage to one covered byte: its message id becomes another message's. |
| FragmentLoss.LossUnnoticedExactly | scripts/assemble_saved_mavlink_ulog.py:265-291 | The sequence check passes the loss of one fragment exactly when it is the last, or the first and the next starts with a message, or it is repeated beside it. |
| FragmentLoss.LossKeeps | scripts/assemble_saved_mavlink_ulog.py:275-291 | The joined bytes lose nothing when the lost fragment is repeated beside it, and exactly its bytes when an end of the sequence is lost. |
| FrameDamage.HiddenCapture | scripts/assemble_saved_mavlink_ulog.py:233-307 | An accepted capture with one frame of its stream hidden is accepted exactly when that loss passes the sequence check and a whole ULog is left, which is then what is returned. |
| FrameDamage.InnerDamageHarmless | scripts/assemble_saved_mavlink_ulog.py:233-307 | Inside the stream hiding a frame is noticed or harmless: the capture is accepted exactly when a repetition stands beside it, and the ULog is then the one sent. |
| FrameDamage.OtherDamageHarmless | scripts/assemble_saved_mavlink_ulog.py:248-264 | Hiding a frame of another sender's stream never changes the ULog. |
| FrameDamage.DamageOutcome | scripts/assemble_saved_mavlink_ulog.py:233-307 | For damage to any frame of the stream that keeps its extent: accepted exactly when the frame no longer logs and its loss leaves an acceptable stream. |
| FrameDamage.ShorterUlogAccepted | scripts/assemble_saved_mavlink_ulog.py:248-307 | A capture that is accepted although its last frame was hidden: a header and a message are sent, and the header alone is returned as the whole ULog. |
| NameEpochs.Tracker.Set | scripts/convert_dbc_recorded.py:51-53 | Rewriting an address replaces its state and raises its version by one, and touches nothing else. |
| NameEpochs.Tracker.TakeClaim | scripts/convert_dbc_recorded.py:55-80 | The three dictionaries after one claim, and the reported status, as the branch structure decides them. |
| NameEpochs.Tracker.Association | scripts/convert_dbc_recorded.py:82-88 | The NAME and basis an observation may carry, withheld at the very time of a claim. |
| NameEpochs.ClaimKeepsMeaning | scripts/convert_dbc_recorded.py:55-80 | One claim of any kind keeps the dictionaries in agreement with the history of claims. |
| NameEpochs.RunMeans | scripts/convert_dbc_recorded.py:45-80 | After every run of claims the dictionaries mean: owner is the NAME's last claim, contested is an earlier collision, shown is the sole resident. |
| NameEpochs.ShowsExactly | scripts/convert_dbc_recorded.py:45-88 | An address shows a NAME exactly when that NAME's most recent claim is there and no two NAMEs ever resided there together. |
| NameEpochs.OneAddressPerName | scripts/convert_dbc_recorded.py:45-88 | No NAME is ever shown at two addresses. |
| NameEpochs.HeldAddressIsContested | scripts/convert_dbc_recorded.py:74-79 | A different NAME claiming a held address always makes it contested: the holder still owns it, so lines 78-79 are never reached. |
| NameEpochs.ContestedForever | scripts/convert_dbc_recorded.py:66-68 | Once contested, an address never shows a NAME again, whatever is claimed later. |
| NameEpochs.FirstClaimShows | scripts/convert_dbc_recorded.py:69-70 | The first claim of an address shows its NAME there as claimed earlier. |
| NameEpochs.VersionsGrow | scripts/convert_dbc_recorded.py:51-53 | Versions never fall, and an address whose version stood still kept its whole state. |
| NameEpochs.StandingVersion | scripts/convert_dbc_recorded.py:51-53 | An equal version after any further claims means the address's state never changed in between. |
| NameStates.OneClaim | scripts/convert_dbc_recorded.py:51-80 | One claim rewrites an address exactly when it is made there by a name not already alone there, or elsewhere by the name that is; version, time and status follow. |
| NameStates.StateExplained | scripts/convert_dbc_recorded.py:45-80 | After every run an address's version counts the claims that rewrite it, and the last of them fixes its time and status. |
| NameStates.AssociationExactly | scripts/convert_dbc_recorded.py:82-88 | What an observation is told, from the claims alone: nothing before a first claim, nothing at the very time of the last rewrite, and otherwise the name alone there with the status that rewrite left. |
| NameStates.ReportedExactly | scripts/convert_dbc_recorded.py:55-80 | The status reported of a claim is the one that its address's last rewriting claim left. |
| NameTransfers.Exchange.Announce | scripts/convert_dbc_recorded.py:302-303 | An announcement records the sender's version and association of that moment, under that exchange's key. |
| NameTransfers.Exchange.Complete | scripts/convert_dbc_recorded.py:223-239 | Completion takes the announcement out and attaches a NAME only if version and association are both unchanged. |
| NameTransfers.Replay | scripts/convert_dbc_recorded.py:223-306 | Any lawful interleaving of claims, announcements and completions, replayed through the two objects, ends with the dictionaries and starts of that history and emits its rows in order. |
| NameTransfers.StartIsAnnouncement | scripts/convert_dbc_recorded.py:302-303 | A recorded start is exactly the latest announcement of its exchange that no completion has used. |
| NameTransfers.EqualEndsNeverRewritten | scripts/convert_dbc_recorded.py:230-239 | Equal versions at announcement and completion mean that nothing rewrote the sender's address between them. |
| NameTransfers.UntouchedExactly | scripts/convert_dbc_recorded.py:226-239 | The version stands still between two events exactly while no claim between them rewrites the address. |
| NameTransfers.TransferNameExactly | scripts/convert_dbc_recorded.py:223-239 | A completed transfer carries a NAME exactly when no claim between announcement and completion rewrites the sender's address, the NAME is alone there, and neither end is at the time of the last rewrite. |
| NameTransfers.TransferBasisExactly | scripts/convert_dbc_recorded.py:226-239 | The basis is withheld exactly when a claim rewrote the address in between or one end, not both, is at the last rewrite's time; otherwise it is what both ends are told. |
| NameTransfers.RowsExplained | scripts/convert_dbc_recorded.py:224-249 | The rows of every run are one for each claim and each completion, in order, and each says what the claims and the open announcement say. |
| NameTransfers.NamedTransferHeldThroughout | scripts/convert_dbc_recorded.py:223-239 | At every moment of such a transfer the address showed that NAME, and no other address did. |
| CrsfEntry.EntryExactly | scripts/convert_crsf_parameters.py:138-226 | A payload is read as an entry exactly when it is that entry's encoding: no byte is lost or invented, for every declared type. |
| CrsfEntry.EveryByteAccounted | scripts/convert_crsf_parameters.py:222-226 | Consumed bytes and remainder are the whole payload, for every payload that is read. |
| CrsfEntry.StringWritten | scripts/convert_crsf_parameters.py:106-111 | A null-terminated string is read back exactly, whatever follows it. |
| CrsfEntry.StringRead | scripts/convert_crsf_parameters.py:106-111 | Conversely, what is read is the text before the first null, and the rest follows it. |
| CrsfEntry.SplitJoins | scripts/convert_crsf_parameters.py:184-192 | Cutting the reported list at its separators gives separator-free pieces whose joining is the list. |
| CrsfEntry.SplitOnce | scripts/convert_crsf_parameters.py:184-184 | No other separator-free pieces join to that list. |
| CrsfEntry.LabelExactly | scripts/convert_crsf_parameters.py:184-191 | A selection is labelled with a text exactly when the list is not empty and that text is the piece its value reaches; otherwise it has no label. |
| CrsfParameters.Convert | scripts/convert_crsf_parameters.py:268-381 | The loop over saved lines, with its three dictionaries, equals the fold of frame checks and events. |
| CrsfParameters.RefusalStands | scripts/convert_crsf_parameters.py:269-285 | Once a line is refused the whole capture is refused, for that same reason, whatever follows. |
| CrsfFrames.SaidIsRead | scripts/convert_crsf_parameters.py:276-327 | A frame written byte by byte from the layout is accepted and read as exactly the read, identity or chunk that was written. |
| CrsfFrames.FrameExactly | scripts/convert_crsf_parameters.py:276-327 | A read, an identity or a chunk is accepted of exactly the frames so written that come in time; both directions. |
| CrsfFrames.IgnoredExactly | scripts/convert_crsf_parameters.py:291-315 | Ignored are exactly the well-framed bodies of other types, and reads too short to name a chunk. |
| CrsfFrames.IdentityWritten | scripts/convert_crsf_parameters.py:121-135 | An identity written from its layout is read back with its own name, serial, hardware, firmware, total and version, whatever follows. |
| CrsfFrames.FrameRefused | scripts/convert_crsf_parameters.py:276-323 | A frame is refused for exactly the first that is wrong: its time, size, length byte, CRC, or body. |
| ChunkRuns.ConvertedIsPass | scripts/convert_crsf_parameters.py:269-318 | A capture is accepted exactly when every line passes the frame checks and the pass over its events is accepted. |
| ChunkRuns.OriginsIndependent | scripts/convert_crsf_parameters.py:287-377 | The rows of one origin are the rows of only the frames it sent and the requests addressed to it. |
| ChunkRuns.AcceptedOriginByOrigin | scripts/convert_crsf_parameters.py:287-377 | A capture is accepted exactly when each origin's own sub-capture is. |
| ChunkRuns.LinesAlone | scripts/convert_crsf_parameters.py:269-285 | The saved lines of one origin, with the reads addressed to it, pass the frame checks by themselves and hold that origin's events. |
| ChunkRuns.LinesIndependent | scripts/convert_crsf_parameters.py:269-377 | Converting one origin's saved lines alone gives exactly its rows of the whole conversion. |
| ChunkRuns.ConvertedOriginByOrigin | scripts/convert_crsf_parameters.py:269-377 | Lines that pass the frame checks are converted exactly when each origin's own lines are. |
| RunEvidence.PassMeans | scripts/convert_crsf_parameters.py:287-377 | After every accepted prefix, requests, pending runs and rows mean what the events say. |
| RunEvidence.EveryRowExplained | scripts/convert_crsf_parameters.py:319-375 | The rows of an accepted capture are its completed runs, one each and in the order they ended; the k-th holds its run's joined chunks, chunk count and identity, valued only on evidence or declaration. |
| RunEvidence.EvidenceIsARead | scripts/convert_crsf_parameters.py:294-305 | Start evidence is a captured chunk-zero read for that number, with no later event of the same pair before the run. |
| RunEvidence.OneReadOneRun | scripts/convert_crsf_parameters.py:320-327 | One read never qualifies two runs: between two observed starts of a pair lies a fresh chunk-zero read. |
| RunEvidence.ChunksConserved | scripts/convert_crsf_parameters.py:337-344 | Chunk frames in equal chunks emitted plus chunks pending, origin by origin. |
| RunAcceptance.PassExactly | scripts/convert_crsf_parameters.py:317-374 | The pass accepts exactly when every chunk continues its origin's run, within sixteen chunks and 896 bytes, and every ended run with evidence or declaration is a readable entry. |
| RunAcceptance.ConvertedExactly | scripts/convert_crsf_parameters.py:269-374 | A saved capture is accepted exactly when every line passes its checks and every chunk fits in that sense. |
| RunRefusals.StepRefused | scripts/convert_crsf_parameters.py:324-345 | A chunk is refused for its host, its place in the run, the run's extent or its entry, exactly as the run before it says; nothing else is. |
| RunRefusals.RefusedExactly | scripts/convert_crsf_parameters.py:268-345 | A capture is refused for a reason exactly when an accepted beginning is followed by a line that is wrong for it. |
| RunRefusals.WithdrawalsCounted | scripts/convert_crsf_parameters.py:302-313 | The count of withdrawn reads is the number of later-chunk reads made while a chunk-zero read was the only evidence. |
| Framing.Collector.Discard | scripts/convert_crsf_link.py:348-356 | A discarded range is recorded only when it holds a byte, and refused past the range bound of an unwindowed run. |
| Framing.Collector.Complete | scripts/convert_crsf_link.py:383-393 | A completed packet is counted, and kept as a row only inside the window. |
| Framing.Collector.Finish | scripts/convert_crsf_link.py:551-564 | The final report of rows, totals, and ranges or reason sums is that of everything framed, in the form of its mode. |
| Framing.TiledBytes | scripts/convert_crsf_link.py:392-406 | Spans that tile the input account for every byte of it, as packet or as discarded. |
| Framing.ReasonsSum | scripts/convert_crsf_link.py:349-353 | Discarded bytes by reason sum to the discarded bytes. |
| Framing.AmountExactly | scripts/convert_crsf_link.py:348-356 | Each reason is given exactly the bytes of the ranges discarded for it. |
| Framing.WindowIsSlice | scripts/convert_crsf_link.py:551-564 | A windowed report's rows are the full run's rows with index in [start, stop), its last range is the full run's last, and its totals are the full run's and sum to the input length. |
| Framing.BrokenExactly | scripts/convert_crsf_link.py:345-390 | Some bound is broken on the way exactly when the totals at the end exceed it, so refusal as the stream is read loses nothing. |
| NativeCapture.ConvertedExactly | scripts/convert_crsf_link.py:413-430 | A native capture is accepted exactly when its framing is, every kept packet can be read, something is selected or a window given, and the window lies within the packets. |
| NativeCapture.RefusedExactly | scripts/convert_crsf_link.py:413-430 | A native capture is refused for its framing, its first unreadable packet, an empty selection or its window, each exactly when that is what is wrong. |
| SportFraming.FrameSport | scripts/convert_crsf_link.py:341-397 | The byte loop with its flags returns the outcome of framing the stream: the first bound broken in stream order, or the report of its mode. |
| SportFraming.ReceivedSound | scripts/convert_crsf_link.py:358-397 | On every byte string, between packets the receiver holds no byte and no flag, and its spans tile what it framed. |
| SportFraming.StreamTiled | scripts/convert_crsf_link.py:341-397 | Complete packets and discarded ranges partition every input, in order. |
| DiscardReasons.SportReasonsExactly | scripts/convert_crsf_link.py:354-391 | Every discarded range carries the reason its bytes give: no delimiter in it, an attempt between two delimiters, or one the input cut off. |
| SportStuffing.StuffRoundTrip | scripts/convert_crsf_link.py:365-380 | Unstuffing undoes stuffing. |
| SportStuffing.ToggledIsXor | scripts/convert_crsf_link.py:370-371 | What an escaped byte becomes is its exclusive-or with 0x20, bit by bit. |
| SportStuffing.ReservedBytes | scripts/convert_crsf_link.py:362-380 | On the wire 7D 5E is 7E and 7D 5D is 7D, in both directions, and every other byte stands for itself. |
| SportStuffing.StreamFaithful | scripts/convert_crsf_link.py:358-395 | On every byte string each complete packet is the unstuffing of its own wire bytes, literal first byte exactly after idle. |
| SportStuffing.StreamRoundTrip | scripts/convert_crsf_link.py:341-397 | Stuffed nine-byte packets, with delimiter-free noise and cut-off attempts between them, decode to exactly those packets. |
| SportChecksum.Checksum | scripts/convert_crsf_link.py:133-138 | The end-around-carry loop computes the packet's checksum fold. |
| SportChecksum.AcceptedExactly | scripts/convert_crsf_link.py:133-138 | A packet passes exactly when its covered bytes sum to a positive multiple of 255. |
| SportChecksum.ByteChangeDetected | scripts/convert_crsf_link.py:133-138 | One changed byte of an accepted packet goes unnoticed exactly when it swaps 0x00 and 0xFF and some byte stays non-zero. |
| SportDecoding.ReadExactly | scripts/convert_crsf_link.py:130-139 | A framed packet is read exactly when its covered bytes sum to a positive multiple of 255 and it reports no negative voltage. |
| SportDecoding.PacketRead | scripts/convert_crsf_link.py:130-141 | A sealed report is read back with its own value, kind, sensor and application, for every 32-bit value; a negative voltage is refused and another application says nothing. |
| SportDecoding.ReportExactly | scripts/convert_crsf_link.py:130-185 | A report is read of a sealed packet exactly when its first eight bytes are those a sensor sends for it. |
| SportDecoding.ConvertSport | scripts/convert_crsf_link.py:331-410 | The conversion of a native stream, framing and hand-off together: its refusals in order, and one reading for every kept packet. |
| SportDecoding.TransmissionRead | scripts/convert_crsf_link.py:331-410 | Stuffed packets with noise and cut-off attempts between them are accepted exactly when each can be read and one is a report, and the readings are theirs in order. |
| SportDecoding.SportWindowed | scripts/convert_crsf_link.py:331-410 | When the whole stream is accepted, a window is accepted exactly when it lies within the packets, and its report and readings are the slices of the whole's. |
| MspFraming.FrameMsp | scripts/convert_crsf_link.py:446-496 | The scanning loop returns the outcome of scanning the stream: the first bound broken, or the refusal of the frame the scan stops at, or the report of its mode. |
| MspFraming.StreamSound | scripts/convert_crsf_link.py:459-496 | On every input the packets and discarded ranges partition all that was scanned, which is everything unless a marked frame is refused there; every packet is a version-one reply of its declared length. |
| DiscardReasons.MspReasonsExactly | scripts/convert_crsf_link.py:459-496 | Every discarded range either holds no marker or is the beginning of a reply that the input cut off. |
| DiscardReasons.MspRefusedExactly | scripts/convert_crsf_link.py:470-480 | A scan stops only at a marked frame, as unsupported, jumbo or encapsulated exactly as its first five bytes say. |
| MspFraming.StreamRoundTrip | scripts/convert_crsf_link.py:459-496 | Any list of replies, with marker-free noise around them, is framed as exactly those replies in order. |
| MspDecoding.FramedShaped | scripts/convert_crsf_link.py:141-146 | A framed reply always has its header and declared length, so of the hand-off's header checks only the checksum can still refuse it. |
| MspDecoding.ByteChangeRefused | scripts/convert_crsf_link.py:141-146 | A reply with one covered byte changed is always refused. |
| MspDecoding.ReplyExactly | scripts/convert_crsf_link.py:142-146 | A frame passes direction, length and checksum exactly when it is the reply of some code and payload. |
| MspDecoding.AttitudeRead | scripts/convert_crsf_link.py:199-206 | A sent attitude is read back with its own roll, pitch and yaw, or refused when one is out of range. |
| MspDecoding.AttitudeWasSent | scripts/convert_crsf_link.py:199-206 | Conversely, only a sent attitude is read as one. |
| MspDecoding.DisplayExactly | scripts/convert_crsf_link.py:186-198 | A canvas operation is read of exactly the replies in which that operation was sent. |
| MspDecoding.OtherOutcomes | scripts/convert_crsf_link.py:142-206 | Every other outcome of a reply, and exactly when it occurs: bad shape, bad checksum, wrong size, malformed operation, or nothing selected. |
| MspDecoding.ConvertMsp | scripts/convert_crsf_link.py:435-511 | The conversion of a native stream under either meaning, framing and hand-off together: its refusals in order, and one reading for every kept reply. |
| MspDecoding.TransmissionRead | scripts/convert_crsf_link.py:435-511 | Replies with marker-free noise around them are accepted exactly when each can be read and one is of the selected meaning, and the readings are theirs in order. |
| MspDecoding.MspWindowed | scripts/convert_crsf_link.py:435-511 | When the whole stream is accepted, a window is accepted exactly when it lies within the packets, and its report and readings are the slices of the whole's. |
| MspDecoding.CanvasReadable | scripts/convert_crsf_link.py:517-524 | Once the operations of a stream have been read, the canvas's own decoding of the same replies can never refuse. |
| MspDecoding.ConvertCanvas | scripts/convert_crsf_link.py:498-511 | A DisplayPort stream yields its readings and, when the canvas accepts the kept replies, the canvas frames drawn from exactly those. |
| BtReferences.Visitor.Visit | scripts/convert_bt_declarations.py:293-305 | The search either finishes the id, keeping its finishing order topological, or hands back a cycle of references. |
| BtReferences.Check | scripts/convert_bt_declarations.py:291-309 | The search terminates on every reference graph and accepts exactly the acyclic ones. |
| BtReferences.NoCycleThroughFinished | scripts/convert_bt_declarations.py:294-305 | No cycle passes through an id that the search has finished. |
| BtBundle.Loader.Load | scripts/convert_bt_declarations.py:377-399 | Loading one file appends exactly the post-order of what lies below it, files and include edges both, and keeps every file met reachable; a refusal means the include graph is no tree. |
| BtBundle.Loader.LoadIncludes | scripts/convert_bt_declarations.py:388-397 | The includes of one file are followed in document order, each target's own subtree loaded before the next include. |
| BtBundle.PostOrderOnce | scripts/convert_bt_declarations.py:377-399 | There is only one post-order of files and edges below a file, so the listed order is determined. |
| BtBundle.Resolve | scripts/convert_bt_declarations.py:361-401 | Within the file bound, includes resolve exactly when the entry is there and the files reachable from it form a tree of readable documents; files and edges are then listed in the one depth-first post-order, with one edge fewer than files. |
| BtNodes.CategoryEstablished | scripts/convert_bt_declarations.py:97-138 | A category never contradicts what the registry or the document's models say of the name, and without either it comes from a generic tag or stays unknown. |
| BtNodes.CategoryExactly | scripts/convert_bt_declarations.py:97-138 | The category and basis of every accepted tag, tag by tag and registry by registry. |
| BtNodes.RefusedExactly | scripts/convert_bt_declarations.py:114-138 | A declaration is refused exactly when a generic tag has no name or is contradicted by what its name is known as, or another tag has an ID. |
| BtNodes.ChildrenExactly | scripts/convert_bt_declarations.py:141-152 | How many children each category may have. |
| BtNodes.KeyReadExactly | scripts/convert_bt_declarations.py:62-67 | A value is a blackboard key exactly when it is {key} between spaces with a non-empty key. |
| BtNodes.AttributeRowsSay | scripts/convert_bt_declarations.py:222-255 | Each attribute but ID and name has one row, which says reserved or port by its name; a port's kind and key are where its value points, its direction the model's. |
| BtNodes.AllowedExactly | scripts/convert_bt_declarations.py:229-237 | An attribute name is allowed exactly when it begins with a letter or an underscore. |
| BtTree.Walker.Append | scripts/convert_bt_declarations.py:216-220 | A row is appended exactly while the row bound allows. |
| BtTree.Walker.AppendAttributes | scripts/convert_bt_declarations.py:222-255 | The attribute loop emits the PORT and RESERVED rows in order, refusing exactly a disallowed name or a full table. |
| BtTree.Walker.Walk | scripts/convert_bt_declarations.py:257-279 | A tree is accepted exactly when every node in document order is declarable, the nesting and element bounds hold and the rows fit; the rows and references are then the flattening. |
| BtFlattening.TreeRebuilt | scripts/convert_bt_declarations.py:257-279 | Flattening is invertible: reading the rows of an accepted tree gives back tags, IDs, names, child order and remaining attributes, whatever rows follow. |
| BtFlattening.NodesNumbered | scripts/convert_bt_declarations.py:213-279 | Node rows are the nodes in document order with consecutive indices, each with a child count its category allows. |
| BtFlattening.ParentsCounted | scripts/convert_bt_declarations.py:268-279 | Every node is named as parent by exactly as many rows as it has children, and nothing outside the tree is but the root's parent. |
| BtRows.FlatStand | scripts/convert_bt_declarations.py:257-279 | Every row of an accepted tree leads back to its element by number: its own fields, and its parent and place among that parent's children. |
| BtModels.ReadModels | scripts/convert_bt_declarations.py:70-94 | The models section is read exactly when it occurs once at most and every model and port in it has a known kind and a name of its own; the dictionary is that of its entries. |
| BtModels.EmitPorts | scripts/convert_bt_declarations.py:310-316 | The port rows are appended in declaration order exactly while the row bound allows. |
| BtModels.PortRowsExactly | scripts/convert_bt_declarations.py:310-316 | The port rows stand for exactly the ports of the section, and both numbers of each lead back to its model and port elements in document order. |
| BtModels.DirectionsDeclared | scripts/convert_bt_declarations.py:222-255 | The direction that a node's attribute can be given for a port is exactly the one that some port row declares for that model and name. |
| BtModels.TagsExactly | scripts/convert_bt_declarations.py:70-94 | Which category and which direction each tag of the models section names. |
| BtDocument.Flatten | scripts/convert_bt_declarations.py:196-316 | A document, alone or in a bundle, is accepted exactly when its models, its heading, every tree, the row bound over all its rows, the resolution of its references and their acyclicity allow it; the rows are those of its trees in order, then its declared ports. |
| BtDocument.DocumentRebuilt | scripts/convert_bt_declarations.py:281-316 | From the rows of an accepted document alone every declared tree, its name and whether it is the main one can be rebuilt, and what remains is exactly the declared ports. |
| BtRows.EveryRowStands | scripts/convert_bt_declarations.py:213-316 | Every row of an accepted document heads a tree, stands for an element inside the tree it names, or declares a port of the models section. |
| BtRows.ReferencesExactly | scripts/convert_bt_declarations.py:267-269 | The references gathered are exactly those of the SubTree elements below each tree. |
| BtBundleTrees.CheckTogether | scripts/convert_bt_declarations.py:401-435 | The checks across a bundle's documents pass exactly when models and trees are sound and named apart throughout, every reference names a tree of some document, and none are cyclic. |
| BtBundleTrees.DocumentWithin | scripts/convert_bt_declarations.py:404-417 | Every reference that one document's walk collects is a reference of the bundle's own graph. |
| BtBundleTrees.SubtreeIdsExactly | scripts/convert_bt_declarations.py:416-416 | The ids gathered of a bundle's trees are exactly those its SubTree elements give. |
| BtBundleTrees.GuardsNeverFire | scripts/convert_bt_declarations.py:196-309 | Once the bundle's checks have passed, a document's own guards on models, tree ids, unresolved and cyclic references can never fire: only its main tree, other elements, trees and rows can refuse it. |
| Canvas.Put | scripts/convert_displayport_canvas.py:79-81 | A write sets exactly the cells it covers, with its own glyph, bank, blink, record and time. |
| Canvas.StepRefines | scripts/convert_displayport_canvas.py:60-81 | Every operation keeps the sparse map and the flag in agreement with the dense grid of unknown, cleared and glyph cells. |
| Canvas.CellHistory | scripts/convert_displayport_canvas.py:66-81 | A cell shows exactly the last covering write with no later clear or invalidation, is cleared exactly when a clear touched it last, and is unknown otherwise. |
| Canvas.OperationExactly | scripts/convert_displayport_canvas.py:48-78 | An operation is read of exactly the payloads that encode it, byte by byte. |
| Canvas.MalformedExactly | scripts/convert_crsf_link.py:186-196 | A payload is no operation exactly when it is empty, has not its code's own size, or is a write with a bad attribute or glyph. |
| Canvas.FramesReport | scripts/convert_displayport_canvas.py:82-99 | The frames are one for each draw, each with the last clear and invalidation before it, every cell counted once, and in order exactly the glyphs nothing later has touched. |
| Canvas.CountsAddUp | scripts/convert_displayport_canvas.py:91-93 | Known, cleared and unknown cells sum to rows times columns. |
| Canvas.CountsFromSize | scripts/convert_displayport_canvas.py:85-93 | The counts computed from the size of the map are the dense grid's own counts. |
| Canvas.ListedExactly | scripts/convert_displayport_canvas.py:94-97 | The emitted cells are in strict row-major order and are exactly the glyph cells. |
| Canvas.ItemsOfMap | scripts/convert_displayport_canvas.py:94-94 | That list is the one sorted list of the map's items. |
| Canvas.FrameFromMap | scripts/convert_displayport_canvas.py:82-97 | The frame reported from the map and the flag equals the frame of the dense grid. |
| Canvas.Play | scripts/convert_displayport_canvas.py:42-99 | The loop accepts exactly when every write fits and the frame and row bounds hold, and reports the dense grid's frames. |
| Canvas.Convert | scripts/convert_displayport_canvas.py:33-101 | A capture is converted exactly when geometry, records, writes, draws and bounds allow, and every frame is the dense grid's. |
| WatchdogText.PrintedIsRead | scripts/convert_ardupilot_controller_reports.py:154-171 | What a conversion prints for a value of its domain is read back as that value, within the lexeme bounds. |
| WatchdogText.BodyExactly | scripts/convert_ardupilot_controller_reports.py:154-171 | What is read of a token's body is exact: a name of four characters at most, or a lexeme of the conversion whose value is in its domain. |
| WatchdogText.CutSplits | scripts/convert_ardupilot_controller_reports.py:386-386 | A joined text cut anywhere splits into the whole words before the cut and what is left of the next one. |
| Watchdog.Decode | scripts/convert_ardupilot_controller_reports.py:321-466 | The decoder with its token loop equals the recursive reading, exit by exit. |
| WatchdogOutcomes.FormatExactly | scripts/convert_ardupilot_controller_reports.py:122-168 | The printed text is the format string's own, token by token: which are signed, unsigned, hexadecimal and text. |
| WatchdogOutcomes.NumeralsWritten | scripts/convert_ardupilot_controller_reports.py:122-143 | Its numbers are the usual decimal and lower-case hexadecimal numerals. |
| WatchdogOutcomes.DispositionExactly | scripts/convert_ardupilot_controller_reports.py:321-466 | Each of the nine dispositions occurs exactly when stated, by the text's chunk, length, declaration and prefix and by how many of its words can be read. |
| WatchdogOutcomes.FirstUnread | scripts/convert_ardupilot_controller_reports.py:379-431 | Every text has a number of leading words that can be read, at most thirteen, which the dispositions are stated by. |
| WatchdogOutcomes.NamesExactly | scripts/convert_ardupilot_controller_reports.py:382-397 | The names reported as unrecoverable are the format's own from the first field that could not be read. |
| Watchdog.QualifiedSound | scripts/convert_ardupilot_controller_reports.py:362-466 | Any text that qualifies accounts for all thirteen fields, each decoded one being the in-domain value of its own word; a longer text qualifies only declared and complete. |
| Watchdog.TextLong | scripts/convert_ardupilot_controller_reports.py:122-143 | No text the pinned format prints fits in fifty bytes, so a native record is always a cut one. |
| Watchdog.CutDecodedExactly | scripts/convert_ardupilot_controller_reports.py:362-466 | A printed text cut to fifty bytes qualifies exactly when the cut leaves the last token's name whole; it then reports a prefix of the fields with exactly the written values, at most nine. |
| Watchdog.ZeroMalformed | scripts/convert_ardupilot_controller_reports.py:398-404 | The all-zero report is a printed text whose cut falls inside a token's name, and it is called malformed. |
| Watchdog.WholeDecodedExactly | scripts/convert_ardupilot_controller_reports.py:451-466 | A declared whole text qualifies, with all thirteen values, exactly when the thread name holds no space. |
| WatchdogBits.NamedBits | scripts/convert_ardupilot_controller_reports.py:303-318 | Set bits are listed once and in order, named below thirty and unnamed above, and make up the mask again. |
| ImuBatch.Refused | scripts/convert_ardupilot_imu_batch.py:104-118 | A header or block that may not come next spoils every way to read the log as whole batches. |
| ImuBatch.Aligned | scripts/convert_ardupilot_imu_batch.py:104-116 | There is only one way to read the log: any parse begins with the batches already completed. |
| ImuBatch.EmitBlock | scripts/convert_ardupilot_imu_batch.py:119-136 | One block adds thirty-two rows, numbered on from the samples before it. |
| ImuBatch.TakeHeader | scripts/convert_ardupilot_imu_batch.py:104-113 | A header is taken exactly when no batch, or a complete one, precedes it and its fields are in range; a refusal means the whole log has no parse. |
| ImuBatch.TakeBlock | scripts/convert_ardupilot_imu_batch.py:114-136 | A block is taken exactly when it is the next one its header declares and the sample bound still holds; a refusal means the log has no parse, or too many samples. |
| ImuBatch.TakeOther | scripts/convert_ardupilot_imu_batch.py:89-96 | An unselected record extends the adjacent span or starts a new one; spans stay apart, exact and with the right bytes. |
| ImuBatch.AsDeclared | scripts/convert_ardupilot_imu_batch.py:119-138 | Rows equal the sum of the declared sample counts. |
| ImuRows.EveryRowDescribed | scripts/convert_ardupilot_imu_batch.py:119-136 | Rows are one for each sample of each block, and every field of each is that of the header and block records its own indices point at. |
| ImuBatch.Convert | scripts/convert_ardupilot_imu_batch.py:80-138 | A log is accepted exactly when its records tile the file, its clock does not run backwards and its batch records are whole batches; rows, batches and spans are exact. |
| Expectation.Advance | scripts/convert_declared_expectation_check.py:168-204 | The loop refuses exactly an incomplete identity or an unreadable value; its rows are the comparisons with each subject's last report and its six counts sum to the rows read. |
| Expectation.SubjectsIndependent | scripts/convert_declared_expectation_check.py:170-204 | One subject's rows are the rows of its own saved rows alone. |
| Expectation.ChainTelescopes | scripts/convert_declared_expectation_check.py:183-195 | Within an unbroken chain the deltas sum to the last number minus the first. |
| Expectation.BlankBreaks | scripts/convert_declared_expectation_check.py:174-190 | A blank always ends the chain: neither its row nor the next one carries a delta, and each disposition occurs exactly where it should. |
| Expectation.ComparedExactly | scripts/convert_declared_expectation_check.py:174-195 | Each row carries its report, the previous one, the time between them, the difference, and the direction that its sign gives. |
| Expectation.PrintedIsRead | scripts/convert_declared_expectation_check.py:139-143 | Every number of at most eighteen digits is read back as itself. |
| Expectation.NumberExactly | scripts/convert_declared_expectation_check.py:139-143 | A value is a number exactly when it is at most eighteen decimal digits after at most one minus sign. |
| Expectation.CountsSum | scripts/convert_declared_expectation_check.py:177-195 | The six disposition counts sum to the rows. |
| CapAlert.Scan | scripts/convert_cap_alert.py:263-296 | A level's children are refused exactly when a known singleton repeats; the omission and unknown counts are those of the children. |
| CapAlert.EveryChildCounted | scripts/convert_cap_alert.py:263-296 | Every child element is parsed, counted omitted or counted unknown, and only once. |
| CapAlert.DocumentCounted | scripts/convert_cap_alert.py:707-771 | Over the whole alert, its info blocks, areas and geocodes, the parsed children and the document's omission and unknown totals add up to all children. |
| CapAlert.ColumnsWhole | scripts/convert_cap_alert.py:222-242 | Every parsed child of an accepted alert other than a container is a simple value, so no column holds only a leading part of an element. |
| CapAlert.ReadAlert | scripts/convert_cap_alert.py:549-771 | An alert is read exactly when no known singleton repeats, required values are there, all values are simple and legal, ceilings have altitudes and the bounds hold; rows carry their own accounting and the totals count each scope once. |
| CapRows.RowStands | scripts/convert_cap_alert.py:549-771 | One row for each area of each info block, or for a block without any, where the text ranges say; it counts the alert, its block, its area and its geocodes once each. |
| CapRows.AlertRow | scripts/convert_cap_alert.py:549-771 | An alert without info blocks has one row, which counts the alert alone. |
| CapInfoText.Group | scripts/convert_cap_info_text.py:59-61 | Grouping keeps each info block's row places in row order. |
| CapInfoText.OneRange | scripts/convert_cap_info_text.py:67-73 | The rows of each info block are one unbroken range. |
| CapInfoText.RangesPartition | scripts/convert_cap_info_text.py:67-77 | The text rows' ranges partition the base rows contiguously, none left out. |
| CapInfoText.RangeIsBlock | scripts/convert_cap_info_text.py:67-77 | The range of a text row holds exactly the base rows of its info block. |
| CapRows.CarriedExactly | scripts/convert_cap_info_text.py:62-92 | In an accepted alert a text is carried exactly when its block has it, as that element's own text. |
| CapInfoText.DocumentTextCounted | scripts/convert_cap_info_text.py:94-97 | The base converter's omission count of each carried text is the number of info blocks that carry it. |
| CapInfoText.DocumentAudienceCounted | scripts/convert_cap_info_text.py:98-100 | The same for the audience texts of the alert. |
| CapInfoText.Convert | scripts/convert_cap_info_text.py:34-106 | The carrier succeeds exactly when the base rows do and the selected texts are simple: its own range and count guards can never fire; what stays omitted is the rest. |

## Left out

- Command lines, files, directories, memory mapping, and change detection of inputs.
- CSV, JSON, TOML and hex text: inputs start as parsed records, frames, elements or rows, and outputs are datatypes. Caps on output and report size in bytes are not modelled; counts of records, packets, ranges, rows and fragments are.
- XML parsing, cantools, pymavlink, protobuf, rosbags and dpkt: the models start from what these return.
- SHA-256: references and rows keep the data a digest stands for.
- Basis and profile strings: only the distinctions the properties need are kept as small enumerations.
- Floating-point conversions and geodesy, the battery, attitude, channel and link-statistics readers of single saved CRSF frames, and the other single-record field mappers.
- Tlog.RecordAtEncoded: the recorded timestamp is kept as the raw word, as the source does; nothing is said of its meaning.
- Assembler.Assemble: the other senders are returned as a dictionary, so their sorted order in the report is not modelled; the message name of a fragment is represented by its identifier.
- FrameDamage.DamageOutcome: the damaged frame is read in place of the other and has its extent. Damage to the length or signing bytes moves where the next frame is read; of the bytes that result only `Reconstruction.AssembledExactly` and `Refusals.RefusedExactly` speak.
- SportDecoding.ConvertSport: quantities are kept as the integers on the wire, before division by ten or a hundred; the caller's capture time and the caps on retained text are not modelled.
- MspDecoding.ConvertMsp: angles are kept as the integers on the wire, before conversion to radians; the interval of a window is not limited to 4096 packets.
- NameTransfers.Exchange.Complete: the transport state machines that decide when a transfer is announced and completed are represented by the announcement and completion events themselves; `_bam_step` and `_RtsTransfer` are not part of this model.
- NameTransfers.TransferNameExactly: decoding of the transferred payload and evidence retention are not modelled.
- CrsfParameters.Convert: the retained extra columns of a saved line, the list of unsupported records, and the report's plain counts other than that of withdrawn reads are not modelled.
- Framing.WindowIsSlice: the row texts of the two modes are compared as packets.
- BtBundle.Resolve: the names of include targets are taken as resolved against the including file; the lexical check of a bundle name is not modelled.
- BtTree.Walker.Walk: element numbers are passed down as preorder positions, where the source looks them up by element identity. Whether a character is a letter is a parameter, because Unicode letters are not modelled.
- BtBundleTrees.CheckTogether: whether a reference is unresolved or cyclic is not told apart, and the search is the one of a single document applied to the whole graph, where the source holds the active ids in a set; the element bound of the bundle, tree selection and the bundle's own DOCUMENT and INCLUDE rows are not modelled.
- BtFlattening.TreeRebuilt: where `ID` and `name` stand among an element's attributes is not in the rows, so it cannot be rebuilt and is not claimed.
- Canvas.Convert: the shared decoder's checks of checksums and record times come before this model; records carry payloads already verified.
- Watchdog.Decode: one character stands for one byte of the text, so multi-byte characters are not modelled; the shape label, the chunk identifier and the running report counters are not part of the outcome.
- WatchdogBits.NamedBits: bit positions stand for their names.
- ImuBatch.Convert: the format declaration of each record and its constancy are checked before this model; the overflow of a nominal offset to a non-finite float is not modelled, offsets being exact quotients.
- Expectation.Advance: the membership, difference and range comparisons of the same file are left out; they hold no state between rows.
- CapAlert.ReadAlert: a row keeps its place and its accounting, not the text columns copied into it. Whether a text is a legal value of its element (an enumeration member, a time, a number, a circle, a polygon, free of characters that need quoting) is a parameter, so those lexical readers are not modelled; nor are the byte budget of the output and comments.
- CapInfoText.Convert: the context columns copied from the first base row of a group and the byte budget are not modelled.
- The Rust crates the repository mentions are not part of this model.
