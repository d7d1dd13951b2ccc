# Verified model of the Tracenium agent's protocols and codecs

A Dafny model of the parts of the agent where correctness rests on several functions at
once, with proofs over every input or every run. `dafny verify dfyconfig.toml` checks all of it.

| files | what they model |
|---|---|
| `js.dfy`, `bits.dfy` | the JavaScript platform that is relied on: 32-bit conversions, `subarray`, `trim`, the order of strings; powers of two and masks |
| `der.dfy`, `der_round_trip.dfy` | the DER writer and reader (sections 8.1.3 and 10.1 of ITU-T X.690) |
| `mldsa.dfy`, `catalyst.dfy`, `pkcs10.dfy`, `pkcs10_content.dfy` | the ML-DSA containers, the hybrid certificate verifier and the hybrid request (section 4.1 of RFC 5280, section 4 of RFC 2986) |
| `policy_store.dfy` | the canonical policy text that is hashed |
| `framing.dfy`, `lane_steps.dfy`, `lane_safety.dfy`, `lane_outcomes.dfy`, `ipc_lane.dfy`, `privsvc_client.dfy` | the lines of the IPC pipe and the serial lane of the Windows client: its safety, and what each outcome of a call means |
| `cdp_baseline.dfy`, `cdp_replication.dfy`, `cdp_channel.dfy` | the certificate baseline, its deltas, the confirmed deliveries and the channel to the server |
| `outbox.dfy`, `outbox_runs.dfy`, `outbox_effects.dfy` | the outbox: lease, retry, recovery, cleanup, and what each of them does to a row |
| `extension_policy.dfy` | the planner of a browser policy list |
| `file_integrity.dfy`, `file_integrity_runs.dfy`, `file_integrity_reach.dfy`, `file_integrity_order.dfy` | the capped file-integrity scan, its reuse of hashes and its order |
| `ipv4_text.dfy`, `probe_range.dfy`, `probe_storage.dfy`, `probe_exact.dfy` | the ranges a probe sweeps, which texts are ranges, and how the policy stores them |
| `printer_delta.dfy`, `printer_runs.dfy` | the printer delta, its baseline table and the pass over a reading |

Conventions. Bytes are integers from 0 to 255 and strings are sequences of UTF-16 code units,
except where only equality matters. A step of an object is a pure function; the class beside it
updates its fields in place and each of its methods is proved equal to that function, so what is
proved of runs of the functions holds of the object. Cryptography, compression, hashing, lower
casing, the clock, jitter and the file system are parameters; a hypothesis says what is assumed of
them (`Correct`: a signature verifies under its own key; `Injective`: different items have
different hashes; `Idempotent`: lower casing twice is lower casing once). `Run` is `Done` or
`Hangs`, for calls that contain a loop which may not end.

Where the code does not do what its text or its comments suggest, the model follows the code:

- The error of `encodeLength` for implausible lengths cannot be raised, because `>>>` brings any
  number below 2^32 (`Der.EncodeLength`).
- `readTlv` adds up lengths in signed 32-bit arithmetic, so a length of 2^31 or more becomes
  negative. The loop of `children` ends, each TLV starting where the one before ended, if and only
  if no TLV it meets goes back (`DerRoundTrip.ChildrenAdvance`); lists that were written never do
  (`DerRoundTrip.WrittenAreMetPlain`). Otherwise it may never end, and neither does the
  classification of the certificate (`Catalyst.WrappedLengthNeverClassified`), which under an issuer
  ends exactly when every list it can walk does (`Catalyst.ClassifiedExactly`).
- The Linux client gives the connection up when a chunk brings its buffer over 2 MiB, complete lines
  included; the Windows client has no limit. `Framing.LinuxAgrees` says exactly when they deliver
  the same.
- `seedFromPkcs8` looks for any OCTET STRING of 32 bytes, so when the seed has another length and
  the key has 32 bytes it returns the key (`MlDsa.SeedRoundTrip` says exactly what it returns).
- `close()` is commented as failing everything at once. It does not drain the queue first, so while
  the socket is open every queued request is still handed to the pipe before it is rejected, and
  when it is not open nothing is (`LaneSafety.CloseWritesQueue`).
- A delta applied to a mirror gives the scan exactly when no earlier entry of the scan repeats an
  identifier whose last entry is the confirmed one (`CdpReplication.DeltaMirrors`). Scans of every
  kind keep the mirror exactly when this holds and, if removals are withheld, there is none to
  claim (`CdpChannel.ScanMirrors`). Of two deltas against one baseline the second ends at its scan
  exactly when it says again whatever the first says otherwise (`CdpReplication.OverlapIsHarmless`),
  and a late copy of a delta is harmless exactly when all it says is true of the later scan
  (`CdpReplication.CopyIsHarmless`).
- `truncated` may be set although nothing was missed: exactly when there are as many files as the
  cap allows and something is looked at after the last of them (`FileIntegrityRuns.MarkedAndWhole`).
  Unset, it can be trusted (`FileIntegrityReach.ReportIsExact`).
- Reading the same printers again announces a change exactly when the list is empty or a new or
  changed printer has no name or no source (`PrinterRuns.RepeatedPass`).
- In a policy, `undefined`, functions, symbols and numbers that are not finite have the text of
  `null`, so the canonical text identifies policies up to that (`PolicyStore.CanonicalIff`).

## Model

| member | source | states |
|---|---|---|
| Der.EncodeLength | privsvc/shared/der.ts:61-73 | the length octets of the short and long form, an error for negative numbers and for no other |
| Der.ReadTlv | privsvc/shared/der.ts:131-157 | the loop over the length octets computes the TLV that the reader function defines on any bytes at any offset |
| Der.Children | privsvc/shared/der.ts:160-170 | when the loop ends it returns the TLVs met one after another |
| DerRoundTrip.LengthOctetsReadBack | privsvc/shared/der.ts:65-72 | what the reader makes of the written octets of any length: the number as a signed 32-bit integer |
| DerRoundTrip.WrittenIsMinimal | privsvc/shared/der.ts:65-72 | a length is written in as few octets as hold it, as DER wants |
| DerRoundTrip.DeclaredIsSigned | privsvc/shared/der.ts:149-150 | the loop over length octets of any content and number gives their big-endian value as a signed 32-bit integer |
| DerRoundTrip.ReadExactly | privsvc/shared/der.ts:131-157 | on any bytes at any offset a TLV is read if and only if it stands there with a single-octet tag and a definite length of at most four octets |
| DerRoundTrip.WrittenIsTlv | privsvc/shared/der.ts:76-78 | a written TLV is read back, content and all, if and only if its tag is a single byte and its content is below 2^31 bytes |
| DerRoundTrip.RawAndContent | privsvc/shared/der.ts:172-176 | `rawOf` and `contentOf` of a TLV read anywhere in a buffer are its bytes and its content |
| DerRoundTrip.ChildrenRecovered | privsvc/shared/der.ts:160-170 | `children` of a TLV that wraps a list of TLVs recovers exactly that list, each in its place |
| DerRoundTrip.RoundTrip | privsvc/shared/der.ts:76-170 | any nesting of `tlv`, `seq` and `set`, placed among any other bytes, is recovered at every level |
| DerRoundTrip.ReadableExactly | privsvc/shared/der.ts:131-157 | the hypothesis of the round trip is no more than single-byte tags and lengths below 2^31 |
| DerRoundTrip.ChildrenAdvance | privsvc/shared/der.ts:160-170 | on arbitrary bytes the loop ends with each TLV starting where the one before ended if and only if no TLV it meets goes back |
| DerRoundTrip.WrittenAreMetPlain | privsvc/shared/der.ts:76-170 | lists that were written satisfy that condition, whatever their contents look like |
| DerRoundTrip.HangsExactly | privsvc/shared/der.ts:160-170 | the model lets `children` hang exactly when its loop makes any number of turns |
| DerRoundTrip.WrappedLengthNeverEnds | privsvc/shared/der.ts:150-170 | a sequence of eight bytes, read from its start, on which the condition fails and the loop never ends |
| Catalyst.ClassifiedExactly | privsvc/shared/catalyst.ts:115-136 | on arbitrary bytes and under an issuer, a classification ends if and only if the loop of `children` ends on every list it can walk; without an issuer that suffices |
| Catalyst.PlainIsClassified | privsvc/shared/catalyst.ts:115-136 | on arbitrary bytes, if no list that can be walked meets a length that wraps, the classification ends |
| Catalyst.PlainChainIsClassified | privsvc/shared/catalyst.ts:162-183 | a chain of such certificates, whatever their number, is classified to its end |
| Catalyst.WrappedLengthNeverClassified | privsvc/shared/catalyst.ts:115-125 | on those bytes the classification never ends either |
| MlDsa.SeedRoundTrip | privsvc/shared/mldsa.ts:127-191 | what reading the seed of a written PKCS#8 returns, for seeds and keys of any length |
| MlDsa.SeedIsInside | privsvc/shared/mldsa.ts:127-168 | in any key of the right shape, the seed is the first OCTET STRING of 32 bytes inside the private key, whatever stands around it |
| MlDsa.PlantedIsRefused | privsvc/shared/mldsa.ts:137-150 | fields are taken by position: a seed planted anywhere else is refused, with the error of the first field that is wrong |
| MlDsa.RefusedKeySignsNothing | privsvc/shared/mldsa.ts:178-216 | a key that is refused neither signs nor yields a public key |
| MlDsa.PublicKeyRoundTrip | privsvc/shared/mldsa.ts:79-105 | the raw public key comes back from its SPKI |
| MlDsa.VerifiesExactly | privsvc/shared/mldsa.ts:97-227 | a signature verifies if and only if the key declares the algorithm, is long enough and its last bytes verify it; any failure to read is a no |
| MlDsa.StoredKeyVerifies | privsvc/shared/mldsa.ts:178-230 | what is signed with a stored PKCS#8 verifies under the SPKI derived from that same PKCS#8 |
| Catalyst.ExtensionValue | privsvc/shared/catalyst.ts:29-54 | the loop finds the value of the first extension with the identifier |
| Catalyst.TbsWithoutAltSignatureValue | privsvc/shared/catalyst.ts:77-101 | the loop that rebuilds the body without 2.5.29.74, with null in the same cases |
| Catalyst.KeepOthers | privsvc/shared/catalyst.ts:87-96 | the extensions kept, byte for byte and in order, and whether any was dropped |
| Catalyst.CertificateRead | privsvc/shared/catalyst.ts:29-40 | the readers find the body, the field tagged [3] and every extension of any well-formed certificate |
| Catalyst.StrippedBodyIs | privsvc/shared/catalyst.ts:77-101 | the rebuilt body is the original one with exactly the extensions 2.5.29.74 left out, and null when there is none |
| Catalyst.ExtensionValueIs | privsvc/shared/catalyst.ts:43-54 | the value read for any identifier is the one of the first extension that carries it |
| Catalyst.CatalystRoundTrip | privsvc/shared/catalyst.ts:57-101 | for any body and any place of insertion, the original bytes, the signature and 2.5.29.72 are recovered exactly |
| Catalyst.VerdictIs | privsvc/shared/catalyst.ts:115-136 | the verdict on a certificate into which 2.5.29.74 was inserted is decided by the signature over the original body and nothing else, in all four cases; `VerdictOnIssued` is the one on every certificate |
| Catalyst.VerdictOnIssued | privsvc/shared/catalyst.ts:115-136 | the verdict on every certificate: absent, unverifiable and valid each if and only if, valid exactly when the bits of the first 2.5.29.74 verify over the body without it under the issuer's key |
| Catalyst.StrippedIsInvalid | privsvc/shared/catalyst.ts:131 | taking the alternative signature out of a certificate that declares an alternative key makes it invalid, under every issuer |
| Catalyst.SignatureBitsAre | privsvc/shared/catalyst.ts:62-74 | a value holds a signature exactly when it is a BIT STRING with something after the octet of unused bits |
| Catalyst.BareIsAbsent | privsvc/shared/catalyst.ts:115-125 | a certificate without extensions has no alternative half |
| Catalyst.IssuedIsValid | privsvc/shared/catalyst.ts:115-136 | a certificate issued in that order with a stored key classifies as valid under the SPKI of that key |
| Catalyst.ClassifyChain | privsvc/shared/catalyst.ts:162-183 | one verdict per link, the depth counts the valid links before the first that is not, `anyInvalid` is set exactly when one is invalid |
| Catalyst.ChainVerdicts | privsvc/shared/catalyst.ts:162-172 | in a chain of any length each certificate is classified under the alternative key the next one declares |
| Catalyst.Leading | privsvc/shared/catalyst.ts:173-178 | what the depth of a chain means: all links below it are valid and the one at it is not |
| Pkcs10.BuildCsr | privsvc/shared/pkcs10.ts:200-237 | the request is the one of the two-pass construction, refused exactly when only half of an alternative key pair is given or its key is unreadable |
| Pkcs10Content.RefusedExactly | privsvc/shared/pkcs10.ts:200-237 | when a request is refused and with which error, and when it is hybrid, each if and only if |
| Pkcs10.RequestedAre | privsvc/shared/pkcs10.ts:134-168 | every requested extension is well formed and the identifiers are exactly those listed |
| Pkcs10.RequestRead | privsvc/shared/pkcs10.ts:171-183 | the DER readers find the version, the name, the key and every extension of a request |
| Pkcs10Content.RequestSays | privsvc/shared/pkcs10.ts:134-168 | whatever the options, what a reader finds under each identifier: digital signature alone, client authentication alone, DNS name and URI, alternative key, algorithm and signature |
| Pkcs10Content.OnlyUsageIsCritical | privsvc/shared/pkcs10.ts:153-166 | the usage of the key is critical and nothing else is |
| Pkcs10Content.UsageIsSignature | privsvc/shared/pkcs10.ts:155 | the two octets of the key usage name the digital signature and no other use |
| Pkcs10Content.SubjectIs | privsvc/shared/pkcs10.ts:98-100 | the subject is a single relative name with the common name as a UTF-8 string |
| Pkcs10Content.SignatureIs | privsvc/shared/pkcs10.ts:119-122 | RSA carries the NULL parameters and ECDSA carries none |
| Pkcs10.StrippedRequest | test/privsvc/hybrid-csr.test.ts:68-115 | taking 2.5.29.74 out of a request and encoding it again gives the request info of the remaining extensions, byte for byte |
| Pkcs10.HybridRequest | privsvc/shared/pkcs10.ts:200-237 | the alternative signature covers exactly the finished info without 2.5.29.74, the classic one covers all of it, the list reads as the first one and that extension |
| Pkcs10.PossessionVerifies | privsvc/shared/pkcs10.ts:218-224 | the signature read from a finished request verifies over the stripped info under the key the request declares |
| Pkcs10.ClassicRequest | privsvc/shared/pkcs10.ts:200-216 | without an alternative key none of the three extensions is in the request |
| PolicyStore.ReadBack | src/core/policy-store.ts:205-226 | the canonical text of any policy, followed by any delimited text, reads back as what the policy means and stops at its end |
| PolicyStore.SameText | src/core/policy-store.ts:216-221 | policies with one meaning have one text, whatever the order of their members |
| PolicyStore.CanonicalIff | src/core/policy-store.ts:205-226 | two policies have the same text if and only if they mean the same, at every depth |
| PolicyStore.SameIsMeaning | src/core/policy-store.ts:205-226 | what policies mean is one thing exactly when they say the same: equal scalars, items in order, the same members under the same keys |
| PolicyStore.TextIsWhatIsSaid | src/core/policy-store.ts:205-226 | two policies have the same text if and only if they say the same, told without any text or meaning |
| Js.LessIs | src/core/policy-store.ts:216 | strings are sorted by their first difference in code units, a proper prefix first |
| Framing.OnDataLinux | src/priv/privsvc-client-linux.ts:269-288 | split and pop deliver the non-blank lines and keep the rest, or overflow and drop everything |
| Framing.Deliver | src/priv/privsvc-client-linux.ts:286-288 | the loop over the lines delivers the cleaned ones that are not blank |
| Framing.MessagesByLine | src/priv/privsvc-client-windows.ts:476-488 | what a text delivers, told line by line: the first line trimmed unless blank, then what the rest delivers |
| Framing.TwoChunks | src/priv/privsvc-client-windows.ts:472-488 | cutting a text anywhere changes neither the lines delivered nor what is left |
| Framing.ChunkingIsInvisible | src/priv/privsvc-client-windows.ts:472-488 | over any sequence of chunks, lines and leftover depend on the concatenated text alone |
| Framing.SameDeliveries | src/priv/privsvc-client-linux.ts:269-288 | two ways of cutting one text into chunks deliver the same lines and leave the same |
| Framing.LinuxAgrees | src/priv/privsvc-client-linux.ts:269-288 | over any chunks the Linux client delivers a prefix of what the Windows client delivers, and all of it if and only if every chunk fits in the buffer or nothing was left to deliver from the first that does not |
| Framing.ReturnIsTrimmed | src/priv/privsvc-client-windows.ts:487 | stripping the carriage return before `trim` makes no difference |
| Js.TrimIs | src/priv/privsvc-client-windows.ts:487 | trimming takes spaces off both ends until none is left there, and nothing else |
| IpcLane.SetSlot | src/priv/privsvc-client-windows.ts:694-707 | `Map.set` on the entry list with holes is `Map.set` on the live entries |
| IpcLane.DeleteSlot | src/priv/privsvc-client-windows.ts:518-520 | `Map.delete` leaves a hole that later entries do not fill |
| IpcLane.PipeLane.Pump | src/priv/privsvc-client-windows.ts:641-721 | the head of the queue is dispatched, rejected or skipped as the step function says, in every state |
| IpcLane.PipeLane.Call | src/priv/privsvc-client-windows.ts:723-746 | an overflow accepts nothing, anything else is queued behind what is recorded and pumped |
| IpcLane.PipeLane.OnResponse | src/priv/privsvc-client-windows.ts:518-530 | a response leaves the lane as the step function says; `ReplySettles` and `OrphanChangesNothing` say whose promise that settles |
| LaneOutcomes.ReplySettles | src/priv/privsvc-client-windows.ts:518-530 | a reply with the identifier of the request in the lane settles that one as answered and lets the next out |
| LaneOutcomes.OrphanChangesNothing | src/priv/privsvc-client-windows.ts:518-520 | a reply with any other identifier, such as the late one of a request that timed out, changes nothing |
| IpcLane.ReplyByLine | src/priv/privsvc-client-windows.ts:490-530 | what the first line of a text does to the lane, then the rest: nothing, or a reply of the identifier it carries |
| IpcLane.PipeLane.OnTimeout | src/priv/privsvc-client-windows.ts:669-691 | a timeout settles its request and frees the lane |
| LaneOutcomes.TimerSettles | src/priv/privsvc-client-windows.ts:669-691 | a timer settles the request in the lane as timed out, exactly when its budget is over |
| IpcLane.PipeLane.DrainQueue | src/priv/privsvc-client-windows.ts:604-612 | everything queued is rejected in order and the slot is free |
| IpcLane.PipeLane.RejectPending | src/priv/privsvc-client-windows.ts:584-588 | the iteration over a map that grows while it runs ends, and visits every entry in turn |
| IpcLane.PipeLane.OnSocketError | src/priv/privsvc-client-windows.ts:548-596 | socket gone, queue drained, pending rejected, in that order |
| IpcLane.PipeLane.OnSocketClose | src/priv/privsvc-client-windows.ts:614-627 | queue drained, pending rejected, buffer emptied |
| IpcLane.PipeLane.Close | src/priv/privsvc-client-windows.ts:760-773 | pending rejected while the socket is still there, then socket and buffer dropped |
| IpcLane.PipeLane.OnData | src/priv/privsvc-client-windows.ts:472-546 | the index loop handles exactly the lines of the whole text and keeps exactly its leftover |
| IpcLane.ChunkedReplies | src/priv/privsvc-client-windows.ts:472-546 | from any buffer and over any sequence of chunks, the lane ends up where the whole text would have led it, with the same buffer |
| LaneSteps.PumpShrinks | src/priv/privsvc-client-windows.ts:641-721 | the measure by which the growing iterations end |
| LaneSafety.StepKeeps | src/priv/privsvc-client-windows.ts:548-773 | every event keeps the invariant of the lane |
| LaneSafety.EveryRun | src/priv/privsvc-client-windows.ts:641-746 | in every run one request at most is pending and it is the one in flight, an idle lane has an empty queue, the cap holds, dispatch order is call order, each accepted call is live or settled exactly once |
| LaneOutcomes.EveryOutcome | src/priv/privsvc-client-windows.ts:472-773 | in every run each promise settled has the event that its outcome tells: answered only by a reply of its own identifier, timed out only by its timer when due, unavailable only unwritten and without a socket, failed only by its own write, otherwise by the loss or the closing named |
| LaneOutcomes.EveryCall | src/priv/privsvc-client-windows.ts:641-746 | in every run the promises are exactly the calls accepted, each as it was made, and what was written is in the lane or was settled as written |
| LaneOutcomes.SocketIs | src/priv/privsvc-client-windows.ts:548-773 | in every run the socket is open exactly while it was opened and not lost since |
| LaneSafety.AcceptedOnce | src/priv/privsvc-client-windows.ts:362-371 | an accepted call is settled if and only if it is no longer in the lane, and never twice |
| LaneSafety.WaitIsBounded | src/priv/privsvc-client-windows.ts:353-360 | a request is dispatched no later than the budgets recorded ahead of it add up to, and settled within its own after that |
| LaneSafety.NothingLeft | src/priv/privsvc-client-windows.ts:548-627 | losing the socket or closing settles every accepted call |
| LaneSafety.CloseWritesQueue | src/priv/privsvc-client-windows.ts:760-773 | closing hands every queued request to the pipe, in order, while the socket is open, and none when it is not, whichever writes throw |
| LaneSafety.ErrorWritesNothing | src/priv/privsvc-client-windows.ts:577-588 | a socket error writes nothing |
| PrivSvcClient.ControlWait | src/priv/privsvc-client-windows.ts:281-305 | because lanes follow from budgets, nothing on the control lane waits more than 60 s per request ahead of it, nor is settled more than 60 s later |
| CdpBaseline.CdpRepository.ComputeDelta | src/domain/cdp-baseline-repo.ts:123-150 | the two loops compute the delta against the baseline, or nothing on the first run |
| CdpBaseline.CdpRepository.ApplyBaseline | src/domain/cdp-baseline-repo.ts:158-191 | rows absent from the scan go, the others are written, the first date stays |
| CdpBaseline.CdpRepository.Stage | src/domain/cdp-baseline-repo.ts:231-244 | the package replaces one of the same outbox id, old packages go, the number is new |
| CdpReplication.StagingKeeps | src/domain/cdp-baseline-repo.ts:231-244 | which packages are pending after a staging: the new one and exactly the others of other deliveries that are at most seven days old |
| CdpBaseline.CdpRepository.Promote | src/domain/cdp-baseline-repo.ts:251-270 | what an acknowledgement does to all tables, and its result |
| CdpReplication.PromotionIs | src/domain/cdp-baseline-repo.ts:251-270 | promoted exactly when newer than the last; only then metadata changes, key by key to what the delivery says, and the packages left are exactly the newer ones |
| CdpBaseline.CdpRepository.LoadItemsByStore | src/domain/cdp-baseline-repo.ts:292-311 | exactly the rows of the matching stores that the scan lacks, each once |
| CdpReplication.DeltaMirrors | src/domain/cdp-baseline-repo.ts:123-150 | a server at the baseline that applies the delta holds the scan if and only if no repeated identifier hides the confirmed entry |
| CdpReplication.RepeatBreaksMirror | src/domain/cdp-baseline-repo.ts:133-141 | a scan on which the condition fails |
| CdpReplication.DeltaIsIdempotent | src/domain/cdp-baseline-repo.ts:202-206 | applying any delta again changes nothing |
| CdpReplication.AppliedMirrors | src/domain/cdp-baseline-repo.ts:158-191 | after a commit the baseline is exactly the scan, each row with its hash |
| CdpReplication.PartialMirrors | src/domain/cdp-baseline-repo.ts:283-311 | carrying the rows of unread stores keeps server and baseline equal after a partial scan |
| CdpReplication.WithheldRemovals | src/domain/cdp-baseline-repo.ts:123-150 | a scan that withholds its removals keeps the mirror if and only if there was nothing to remove |
| CdpReplication.EveryStagingRun | src/domain/cdp-baseline-repo.ts:231-270 | in every run pending numbers exceed the last one, outbox ids are unique, promoted numbers increase, the baseline is that of the newest promoted scan, `superseded` is never returned |
| CdpChannel.ScanMirrors | src/plugins/cdp/index.ts:773-890 | a scan of any kind, full or diffed, complete, partial, truncated or unscoped, brings a server at the baseline to what is staged if and only if no repeat is stale and any removal withheld is covered |
| CdpChannel.UnsentIsUpToDate | src/plugins/cdp/index.ts:848-857 | a scan is not sent if and only if it is diffed and what it would stage is the baseline: anything new, changed or missing goes out |
| CdpChannel.ForcedHeals | src/plugins/cdp/index.ts:773-857 | a forced complete scan always goes out and brings any server whatever to what it saw |
| CdpChannel.ReceivedTwice | src/domain/cdp-baseline-repo.ts:202-206 | receiving any payload twice is receiving it once |
| CdpChannel.Faithful | src/domain/cdp-baseline-repo.ts:193-270 | one delivery outstanding at a time: a scan that is not sent is one the server holds already; and under every schedule of losses, copies (also after the acknowledgement, until a later delivery arrives), late acknowledgements and deliveries given up, a confirmed server is at the baseline, or at the scan outstanding once a copy of it has arrived, and at the baseline right after its acknowledgement |
| CdpReplication.OverlapIsHarmless | src/domain/cdp-baseline-repo.ts:202-206 | of two deltas against one baseline the second ends at its scan if and only if it says again whatever the first says otherwise |
| CdpReplication.OverlapDiverges | src/domain/cdp-baseline-repo.ts:202-206 | two scans on which that condition fails |
| CdpReplication.CopyIsHarmless | src/domain/cdp-baseline-repo.ts:202-206 | a late copy of a delta changes nothing of a later scan if and only if all it says is true of that scan |
| CdpReplication.OvertakenCopyBreaksMirror | src/domain/cdp-baseline-repo.ts:202-206 | a copy that a later delivery overtook and that takes the server back |
| Outbox.SqliteOutbox.Enqueue | src/queue/sqlite-outbox.ts:298-350 | an active row of the same kind and hash is returned, an oversized payload refused, else a new row |
| OutboxEffects.EnqueueIsExact | src/queue/sqlite-outbox.ts:298-350 | refused exactly when too large as stored; else the identifier returned is the active event of that kind and digest, or a new one, ready at once, when there is none |
| OutboxEffects.StoredIsMarked | src/queue/sqlite-outbox.ts:72-95 | texts are compressed exactly from the threshold on, and read back if compression can be undone |
| Outbox.SqliteOutbox.Lease | src/queue/sqlite-outbox.ts:352-433 | the fast path and the transaction lease what the step function says |
| Outbox.SqliteOutbox.Fail | src/queue/sqlite-outbox.ts:466-504 | a failed attempt: retry with backoff, or FAILED at the twentieth |
| OutboxEffects.ConfirmSends | src/queue/sqlite-outbox.ts:435-464 | a confirmation sends an active event with its date, frees it and changes nothing else; any other changes nothing |
| OutboxEffects.FailureCounts | src/queue/sqlite-outbox.ts:466-504 | a failed attempt of an active event is counted once, frees it and changes no other |
| Outbox.SqliteOutbox.Reject | src/queue/sqlite-outbox.ts:506-522 | a refusal fails an active row at once |
| OutboxEffects.RefusalFails | src/queue/sqlite-outbox.ts:506-522 | a refusal fails an active event with its error, no attempt counted, and changes no other |
| Outbox.SqliteOutbox.RecoverStaleInflight | src/queue/sqlite-outbox.ts:524-572 | the rows selected as stale are struck one by one, every other row stays |
| OutboxEffects.RecoveryIsExact | src/queue/sqlite-outbox.ts:524-572 | exactly the rows in flight for longer than the time to live are struck, each once |
| OutboxEffects.LeaseExpires | src/queue/sqlite-outbox.ts:390-572 | an event leased and not heard of again is recovered if and only if its time to live is over |
| Outbox.SqliteOutbox.Cleanup | src/queue/sqlite-outbox.ts:589-600 | only old SENT and FAILED rows are deleted |
| OutboxEffects.CleaningIsExact | src/queue/sqlite-outbox.ts:589-600 | exactly what was sent, or created and failed, before the retention goes |
| OutboxRuns.EveryRun | src/queue/sqlite-outbox.ts:298-600 | in every run on a fresh schema, of any agents started one after another: owned exactly while in flight, active below 20 attempts, no two active rows alike, a SENT or FAILED row unchanged until it is cleaned up, no event lost before reaching them |
| OutboxEffects.ConfirmedStaysSent | src/queue/sqlite-outbox.ts:435-464 | in every run what was confirmed while active is sent, at that date and with its payload, and stays so whatever follows |
| OutboxEffects.RefusedStaysFailed | src/queue/sqlite-outbox.ts:506-522 | in every run what was refused while active has failed for good |
| OutboxEffects.SentWasConfirmed | src/queue/sqlite-outbox.ts:435-446 | in every run an event is sent only by a confirmation of its own, at the date recorded |
| OutboxEffects.LeasedIsEnqueued | src/queue/sqlite-outbox.ts:298-433 | in every run, whatever failures, recoveries and leases a row went through, what a lease hands out is the text enqueued under that identifier |
| OutboxRuns.TwentyStrikes | src/queue/sqlite-outbox.ts:466-572 | the attempts are the failures and recoveries counted, and only the twentieth or a refusal fails an event |
| OutboxRuns.StrikeFails | src/queue/sqlite-outbox.ts:477-489 | the twentieth fails it and no earlier one does, whichever way it happens |
| OutboxRuns.LeaseTakesLowest | src/queue/sqlite-outbox.ts:371-433 | a lease gives exactly the ready events of lowest id up to the limit, never one already leased |
| OutboxRuns.LeaseLocks | src/queue/sqlite-outbox.ts:390-398 | what is leased is locked by its owner and nothing else changes |
| OutboxRuns.DelayAgrees | src/queue/sqlite-outbox.ts:637-655 | delay 0 exactly when a lease would give something, none exactly when nothing is pending |
| OutboxRuns.DelayIsExact | src/queue/sqlite-outbox.ts:637-655 | something can be leased as soon as the announced delay has passed and not before |
| OutboxRuns.RetryWaits | src/queue/sqlite-outbox.ts:466-572 | whether a failure or a recovery strikes it, the k-th retry waits min(3600, 30·2^(k-1)) s plus its jitter |
| OutboxRuns.WholeSeries | src/queue/sqlite-outbox.ts:466-572 | in every run, whichever of the two changes strikes an event, the waits it is given add up to the backoffs of its strikes; those of an event that fails at the twentieth to between 47010 and 47181 s |
| ExtensionPolicy.KeepCurrent | src/domain/extension-policy.ts:111-119 | the first loop: the de-duplicated survivors and what it removes |
| ExtensionPolicy.AddDesired | src/domain/extension-policy.ts:121-127 | the second loop appends what is missing, once each |
| ExtensionPolicy.PlanPolicyList | src/domain/extension-policy.ts:104-133 | all six parts of a plan |
| ExtensionPolicy.PlanIsExact | src/domain/extension-policy.ts:104-133 | which entries are in the list and which are owned after a plan, each if and only if |
| ExtensionPolicy.ForeignEntriesStay | src/domain/extension-policy.ts:104-133 | over any policies the entries that are not ours are the initial ones, each once and in order, and what we own is in the last policy, is in the list and was not there initially |
| ExtensionPolicy.EmptyPolicyRestores | src/domain/extension-policy.ts:104-133 | finishing with an empty policy restores the initial list and owns nothing |
| ExtensionPolicy.PlanIsStable | src/domain/extension-policy.ts:104-133 | planning again on the result changes nothing |
| FileIntegrity.Scanner.Record | src/domain/file-integrity-scan.ts:93-115 | a file is recorded as the step function says, in place; `ScanSaysRight` and `FullRehashReads` say which files have which hash |
| FileIntegrityRuns.ScanSaysRight | src/domain/file-integrity-scan.ts:93-115 | in every scan a file is marked hashed if and only if it is within the size limit, and has a hash if and only if it is marked so |
| FileIntegrityRuns.FullRehashReads | src/domain/file-integrity-scan.ts:93-115 | with a full rehash every hash reported is the one read in that scan, whatever was known before |
| FileIntegrityRuns.UnchangedIsNotRead | src/domain/file-integrity-scan.ts:97-101 | otherwise a file of the same size and date is reported with its old hash, and what reading it would give makes no difference |
| FileIntegrity.Scanner.Walk | src/domain/file-integrity-scan.ts:117-141 | the recursive walk with its cap makes exactly the turns of the directory, and ends on any file system |
| FileIntegrity.Scanner.WalkSets | src/domain/file-integrity-scan.ts:144-157 | the loop over the sets makes their turns one after another |
| FileIntegrity.ScanFileIntegrity | src/domain/file-integrity-scan.ts:71-163 | the scan in all its scopes and error cases |
| FileIntegrityRuns.ScopeIsExact | src/domain/file-integrity-scan.ts:82-85 | when a scan looks at all, when it is unsupported, when it is not configured |
| FileIntegrityRuns.UncutScanCounts | src/domain/file-integrity-scan.ts:93-161 | a scan with room for all fails with the first thing that stops it, and otherwise counts everything it comes across once, as a file or as unreadable |
| FileIntegrityRuns.SetsAreNamed | src/domain/file-integrity-scan.ts:84-162 | the sets a scan names are those of the policy for the platform, in order |
| FileIntegrityOrder.OrderIsInvisible | src/domain/file-integrity-scan.ts:126 | the order in which the machine lists its directories changes nothing, down to which files a cap leaves out |
| FileIntegrityOrder.NamesAreSorted | src/domain/file-integrity-scan.ts:126 | names are put in order and none is lost or added |
| FileIntegrityRuns.ScanIsPrefix | src/domain/file-integrity-scan.ts:126-145 | a capped scan gives the first files of the scan with any larger cap, is marked when that one has more, and is that one when unmarked |
| FileIntegrityRuns.UncappedScan | src/domain/file-integrity-scan.ts:126-145 | with a large enough cap nothing is ever cut |
| FileIntegrityRuns.MarkIsExact | src/domain/file-integrity-scan.ts:126-145 | the mark is set if and only if something is still looked at with the cap reached and no error |
| FileIntegrityRuns.MarkedAndWhole | src/domain/file-integrity-scan.ts:126-145 | it is set with no file missing if and only if the uncut scan has as many files as the cap allows and looks at something after the last |
| FileIntegrityRuns.MarkedButWhole | src/domain/file-integrity-scan.ts:126-145 | an accepted policy for which that happens |
| FileIntegrityRuns.KeysDiffer | src/domain/file-integrity-scan.ts:63 | keys of accepted set ids never collide |
| FileIntegrityRuns.EveryPassIsAFullRehash | src/domain/file-integrity-scan.ts:93-115 | over any sequence of passes the scan equals a full rehash, and each file reported has the hash that reading it in that pass gives or none if it is over the limit, if files of the same size and date stay readable and as they were |
| FileIntegrityReach.ReportIsExact | src/domain/file-integrity-scan.ts:117-157 | a scan that is not truncated reports under each set exactly the files that a chain of directories leads to within its depth, the unreadable aside, and no scan reports another |
| FileIntegrityReach.SetFinds | src/domain/file-integrity-scan.ts:117-157 | what a walk comes across in a set is exactly what such chains lead to |
| Bits.AndHigh | src/domain/probe-range.ts:139-140 | `and` with a mask of ones above k zeros clears the low k bits |
| Ipv4Text.ParseIpv4 | src/domain/probe-range.ts:64-74 | the loop over the octets with its refusals |
| ProbeExact.Ipv4Exactly | src/domain/probe-range.ts:64-74 | a text is an address if and only if, trimmed, it is four octets of one to three digits up to 255 between points, and its number is theirs in base 256 |
| Ipv4Text.Ipv4RoundTrip | src/domain/probe-range.ts:64-79 | every number comes back from its text, brought to 32 bits |
| ProbeRange.CidrBlock | src/domain/probe-range.ts:136-141 | masking gives the aligned block of 2^(32-prefix) addresses, 1024 at most, that holds the base, without wrapping |
| ProbeRange.CidrText | src/domain/probe-range.ts:127-142 | a CIDR text parses to its block if and only if its prefix is 22 to 32 |
| ProbeRange.DashText | src/domain/probe-range.ts:144-152 | a text of two addresses parses exactly when they are in order and span at most 1024 |
| ProbeRange.BareAddress | src/domain/probe-range.ts:127-154 | a single address is no range |
| ProbeRange.BoundsAreSmall | src/domain/probe-range.ts:127-164 | whatever the text, a range that parses has 1 to 1024 addresses below 2^32 |
| ProbeRange.RangeAddresses | src/domain/probe-range.ts:182-187 | the generator's loop |
| ProbeRange.SkippedAre | src/domain/probe-range.ts:89-96 | the addresses never swept, as four blocks of numbers |
| ProbeRange.SweepIsExact | src/domain/probe-range.ts:89-96 | the sweep denotes each address that is not excluded once, in increasing order, and no other |
| ProbeRange.ParsePorts | src/domain/probe-range.ts:98-109 | the loop over the ports with its refusals |
| ProbeExact.PortsAreExact | src/domain/probe-range.ts:98-109 | accepted if and only if not empty, all ports and eight at most without repeats; then exactly those, once each |
| ProbeExact.SniExactly | src/domain/probe-range.ts:111-116 | a name is taken if and only if, trimmed and lowered, it is two labels or more of letters, digits and inner hyphens, 253 units at most |
| ProbeExact.RangeIsRead | src/domain/probe-range.ts:158-169 | an entry is a range if and only if its text and its ports are; a bad name is dropped and nothing else |
| ProbeStorage.PortsKept | src/domain/probe-range.ts:98-109 | accepted ports are distinct, eight at most and within 1 to 65535 |
| ProbeStorage.SanitizeProbeRanges | src/core/policy-runtime.ts:775-795 | the loop with its cap and its de-duplication |
| ProbeExact.KeyIsExact | src/domain/probe-range.ts:177-179 | two ranges have one key if and only if they sweep the same addresses and ports under the same name |
| ProbeExact.StoredIsExact | src/core/policy-runtime.ts:775-795 | what is stored are entries that parse, and unless there are sixteen every entry that parses is among them |
| ProbeStorage.EntryReparses | src/domain/probe-range.ts:158-174 | every stored entry parses again to the range it was stored from |
| ProbeStorage.StorageIsStable | src/core/policy-runtime.ts:1071-1075 | sanitising what is stored changes nothing, and reading it back gives one range per entry, with different keys, sixteen at most |
| PrinterDelta.ComputePrinterDelta | src/domain/printer-inventory-delta.ts:39-107 | exactly the added, removed and updated printers, each once, and the counts |
| PrinterRuns.FacesAreCompared | src/domain/printer-inventory-delta.ts:123-155 | which fields make a printer changed and which do not |
| PrinterDelta.PrinterBaseline.Upsert | src/domain/printer-baseline-repo.ts:159-239 | rows that can be stored are written, the first date stays |
| PrinterDelta.PrinterBaseline.Delete | src/domain/printer-baseline-repo.ts:245-261 | exactly the rows named go |
| PrinterDelta.PrinterBaseline.Pass | src/plugins/amp/providers/printers-pipeline.ts:30-118 | blind, partial, first and later passes: the table and the report |
| PrinterRuns.SilentWhenUpToDate | src/domain/printer-inventory-delta.ts:62-106 | a delta is empty if and only if the table agrees with the reading up to what counts as a change |
| PrinterRuns.UpToDateAfter | src/domain/printer-inventory-delta.ts:170-176 | after its operations the table agrees if and only if every new or changed printer can be stored |
| PrinterRuns.RepeatedPass | src/plugins/amp/providers/printers-pipeline.ts:74-118 | told from the table and the reading before the first pass: a repeated pass announces a change if and only if the list is empty or a new or changed printer cannot be stored |
| PrinterRuns.RepeatedFirstPass | src/plugins/amp/providers/printers-pipeline.ts:74-118 | the same after a first pass, over any list |
| PrinterRuns.PartialKeeps | src/plugins/amp/providers/printers-pipeline.ts:165-188 | half a reading removes nothing and brings what it saw up to date |
| PrinterRuns.OnlyWholeReadingsRemove | src/plugins/amp/providers/printers-pipeline.ts:143-154 | a printer leaves the table or is reported as removed only when every scope was read and it was not seen; when nothing was read nothing changes |
| PrinterRuns.FirstSightingStays | src/domain/printer-baseline-repo.ts:154-158 | the date of the first sighting survives every pass that keeps the row |

## Left out

- Sockets, pipes, the SQLite engine, gzip, SHA-256, ML-DSA, RSA, ECDSA, base64, PEM and `toLowerCase` are parameters or absent; only what the hypotheses say of them is assumed.
- UTF-8 decoding of chunks: framing starts from decoded characters.
- In the lane: connecting and reconnecting, debug events, log texts, error wording, listeners that call back into the lane, delivery and buffering of pushes, and `PrivSvcClient` beyond routing by lane. Time is a discrete clock and a timer fires when it is due.
- A message that is not an object, or is no response, changes nothing in the lane; the Linux client is modelled for its framing only.
- `issuerAltSpkiFromBundle` and `describeCatalystChain`: text handling around what is proved. The native ML-DSA provider of newer runtimes.
- Certificates and requests whose fields are not well-formed TLVs: the verifier functions are modelled on them, but the round trips are stated for well-formed ones with no earlier field tagged like the one searched.
- Catalyst.ClassifyChain: the `catch` branches are not modelled, because the modelled readers do not throw; a chain on which a reader never ends is excluded (`Catalyst.PlainChainIsClassified` says when none is).
- CdpChannel.Faithful: one delivery outstanding at a time, scans that meet the condition of `ScanMirrors`, a complete scan until the first confirmation (before it nothing is known of the server), and no delivery given up after a copy of it arrived; where these fail, `OverlapIsHarmless` and `CopyIsHarmless` say when the mirror survives.
- The collection of a scan by the plugin is not part of this model, nor is the projection of the server: a full list is taken to replace every row but those of the stores it declares unread, and to leave every row it does not name when it withholds removals.
- `attachCdpDelivery` and `stageAttachedCdpDelivery`: a WeakMap between the scan and the outbox id; staging is modelled from there on.
- The hash of a certificate is an injective parameter; its own serialisation, and `namespace-hash`, are not modelled.
- The outbox's self-healing, the backfill of legacy hashes, listeners and `agent_state`. Adding seconds to a date is plain addition, without the local clock changes that `setSeconds` may meet. That compressing or decompressing falls back on the text when it throws is not modelled.
- `parseExtensionPolicy` and the enforcer around the planner: case by case checks that one body settles.
- In the file-integrity scan the file system does not change during one scan, and the delta and heartbeat messages of the pipeline are not modelled. A path is joined by a parameter.
- FileIntegrityRuns.EveryPassIsAFullRehash: holds for set ids the policy accepts, which is what keeps keys apart.
- FileIntegrityReach.ReportIsExact: holds for sets with ids of their own, which is what the policy accepts.
- ProbeStorage.StorageIsStable: holds for a `toLowerCase` that leaves lowered text alone. A port is modelled as what `Number` makes of it.
- The order of the printer lists in a delta and of rows loaded from a table; the noise filter in front of the pass; macOS and Linux collectors.
- Canonical text: a number is its text, taken as JavaScript gives it; holes in arrays and `toJSON` are not modelled.
- Enrolment, renewal, scheduling, tray, heartbeat, self-update and the remaining sanitizers of the policy: orchestration or branches that one body settles.
