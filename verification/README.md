# Capsule evidence, modelled and proved

A Dafny model of the parts of this repository that decide whether evidence can be trusted: the checkpoint chain and
its offline verifier, the bilateral handshake, the canonical byte forms, and the records kept around them. Hashes,
signatures and library calls are function parameters; everything built from them is modelled and proved.
`dafny verify dfyconfig.toml` checks the whole project.

| file | what it models |
|---|---|
| `Bytes`, `Sorting` | bytes, hexadecimal text as `bytes.fromhex` reads it, sorting by a strict order |
| `Mmr` | the Merkle Mountain Range: sizes, node positions, peaks, bagged root, the append loop |
| `Consistency` | consistency proofs between two sizes: verifier, builder, soundness, completeness |
| `ChainVerify` | `verify_chain_segment`: a walk over untrusted links that stops at the first break |
| `ChainBuild` | `chain_segment`: selection, replay, proofs, leaf tallies |
| `ChainHistory` | what the builder and the verifier say about each other; leaf accounting |
| `ChainWriter` | the honest writer: which logs `ChainHistory` calls honest |
| `ChainSerial` | `to_dict` / `from_dict` of segments, and verification after the journey |
| `ChainExamples` | logs and segments on which the chain code does not do what is said of it |
| `*Plain` (`ChainPlain`, `MmrPlain`, `BilateralPlain`, `StrictJsonPlain`, `NumbersPlain`, `LogScanPlain`, `ArtifactPlain`, `LedgerPlain`, `ApprovalPlain`) | what each operation accepts, answers, stores and refuses, stated over inputs, members and indices without the functions that model the operation |
| `JsonData` | decoded JSON as the record-keeping code holds it |
| `Jcs` | RFC 8785 for flat objects of strings and nulls: section 3.2.2.2 escaping, section 3.2.3 order, UTF-8 |
| `Bilateral`, `BilateralRuns` | the handshake: signing bytes, steps, the object, and properties of every run |
| `Commitment` | the commitment object as deterministic CBOR and its strict reader (RFC 8949 sections 3 and 4.2.1) |
| `StrictJson` | the strict JSON decoder over a token reader with its punctuation states |
| `Numbers` | number canonicalization and the extension number check |
| `LogScan` | the paged log scan under concurrent appends, and what `--all` asks for |
| `ArtifactRecord` | admission, verification, purging and checksum of stored artifacts |
| `Composition` | order-independent composition of slot members |
| `Ledger`, `Approval` | emitting to a ledger, capsule identity, chain or citation, pending approvals |

Code that updates state is modelled by classes and loops (`NodeStore`, `BilateralHandshake`, `Decoder`,
`LedgerWriter`, and the methods of the other modules), each proved against a function; the properties are lemmas about
those functions. The `*Plain` modules then say what those functions mean in words of their own: each lemma there
states an answer by literal conditions on the inputs, both ways where there is a condition. Concurrency is modelled as arbitrary sequences of atomic steps (the handshake holds one lock a step)
or as a log that may grow between any two reads (the scan).

## Hypotheses

- No hypothesis is made about the hash of the range except its output length: `Sha` takes any byte string to 32 bytes,
  and `Mmr.Layout` gives the exact bytes hashed for a leaf, an inner node and a bag of peaks. Where a root must bind a
  log, the conclusion is "or two different byte strings among these have one digest", for a set that is spelled out: the
  strings hashed to compute the roots of the named logs (`Consistency.RootInputs`, `ChainVerify.LogInputs`) and to check
  the named proofs (`Consistency.CheckInputs`, `ChainVerify.WalkInputs`). A digest on the wire is 32 bytes or the proof
  is refused (`core.DIGEST_LEN` in `python/tests/checkpoint/test_mmr_core.py`); leaf bodies may have any length.
- `Bilateral.Binding` (a signature is good for one message) is assumed for the lifting and sealing results only. Other
  uses of SHA-256 state "or these two preimages collide" in the same way.
- `ChainSerial.Inverse`, `Ledger.JcsInjective`, `ArtifactRecord.MarshalInjective` and `ArtifactRecord.HexSha` are what
  the results that name them ask of `CheckpointRecord`'s own conversion, of JCS, of the JSON encoder and of SHA-256 in
  hexadecimal.

## Where the code and its description differ

- `verify_chain_segment` is documented never to raise (`python/capsule_emit/chain_segment.py:332-333` and 347-354).
  `bytes.fromhex` on a root that is not hexadecimal raises: `ChainExamples.WalkRaises` is such a segment,
  `ChainVerify.RaisesExactly` says exactly when.
- A segment the builder returns does not always survive serialization: a stamp whose COSE text is only blanks decodes
  to empty bytes, which read back as absent. `ChainExamples.BlankCoseLost` is such a log,
  `ChainSerial.BuiltSegmentRoundTrip` gives the exact condition. Its verdict is unaffected (`ChainSerial.VerdictTravels`).
- `from_size`/`to_size` do not select every checkpoint between the two sizes when a boundary size repeats:
  `ChainExamples.RepeatedSizeHides` is such a log, `ChainHistory.SizesAccepted` the exact condition.
- The shipped classifier passes an entry's own kind through, so an entry of kind "stamp" is tallied with the checkpoint
  stamps; `ChainHistory.StampsTallied` says exactly when the tally is the number of stamps.
- `BilateralHandshake.open` is documented to degrade to ONE_SIDED when a probe payload does not verify
  (`python/capsule_emit/bilateral.py:313-318`). The code makes no probe: only an absent responder degrades.
- Two valid confirmations do not always commute. A party that re-signs its confirmation races the other one:
  `BilateralRuns.ReconfirmationRaces` is such a pair, `BilateralRuns.ConfirmsCommute` the exact condition.
- The payload clash check in `python/capsule_emit/core.py:1010-1013` guards only members already written, so a capsule
  emitted without `confirms` accepts a `chain` payload member naming any id: `Ledger.ForgedLink` shows one,
  `Ledger.StepChained` says exactly when parents stay earlier entries.

## Model

| member | source | states |
|---|---|---|
| Mmr.LeafCountInverse | python/tests/checkpoint/test_mmr_core.py:71-93 | `leaf_count` inverts 2n - popcount(n): it answers n exactly for the size of an n-leaf range and fails on every other size |
| MmrPlain.FiveLeafRoot | python/tests/checkpoint/test_mmr_core.py:178-218 | the root over any five bodies as nested hashes of explicit bytes: leaf prefix, eight-byte positions, order of bagging |
| Mmr.NodeStore.AddLeaf | python/tests/checkpoint/test_mmr_core.py:166-218 | appending a leaf with one merge per trailing one bit yields exactly the node list of the longer range, and never touches earlier nodes |
| Mmr.NodesPrefix | python/tests/checkpoint/test_mmr_core.py:113-135 | the nodes of a shorter range are a prefix of those of any longer one |
| Mmr.BagInjective | commitment-conformance-vectors/README.md:8-17 | equal bagged roots of equally many peaks mean equal peak lists, or two of the strings hashed to bag them collide |
| Consistency.ConsistencySound | python/tests/checkpoint/test_mmr_core.py:387-470 | if the new root commits to a log, a verified proof forces the old root and size to be those of a prefix of that log, or two of the strings hashed for that root and that check collide |
| MmrPlain.ProofShape | python/tests/checkpoint/test_mmr_core.py:422-470 | every accepted proof has version 1, its kind and the two sizes in order, one 32-byte digest for each peak (as many as one bits in the leaf count) and one sibling list for each old peak |
| Consistency.ConsistencyComplete | python/tests/checkpoint/test_mmr_core.py:368-384 | the proof cut from a log's own nodes bridges any two of its sizes, equal and empty ones included |
| ChainVerify.VerifyChainSegment | python/capsule_emit/chain_segment.py:344-419 | the loop computes the verdict that `ChainPlain.AcceptedPlainly`, `BrokenPlainly` and `UnbrokenPlainly` spell out: ok, error, continuity, depth, witnessed count |
| ChainVerify.AcceptedIff | python/capsule_emit/chain_segment.py:359-419 | accepted means non-empty with no link broken, and then the depth is the length; what a link must hold is in `ChainPlain.AcceptedPlainly` |
| ChainPlain.AcceptedPlainly | python/capsule_emit/chain_segment.py:359-419 | accepted exactly when there are links, every checkpoint is signed, the first included, and each later one names the size and root before it and carries a proof that bridges the two decoded roots |
| ChainPlain.BrokenPlainly | python/capsule_emit/chain_segment.py:370-417 | the first link that does not hold decides: its size with the signature, chaining, missing-proof or bridging error in that order, or a raise for an undecodable root; depth is the links before it, witnessed those of them with a stamp that checks |
| ChainPlain.UnbrokenPlainly | python/capsule_emit/chain_segment.py:359-419 | a segment that holds is answered ok with full depth and the number of links that have a stamp that checks; an empty one is refused |
| ChainPlain.WitnessedCounts | python/capsule_emit/chain_segment.py:405-412 | the witnessed count of a prefix is the number of its indices with a stamp that checks |
| ChainVerify.DepthOfPrefix | python/capsule_emit/chain_segment.py:364-417 | the depth is the longest acceptable prefix, and any k-link prefix has depth min(k, depth) |
| ChainVerify.WitnessedWithinDepth | python/capsule_emit/chain_segment.py:403-418 | the witnessed count never exceeds the depth, broken chain or not |
| ChainVerify.Splice | python/capsule_emit/chain_segment.py:370-411 | two accepted chains that share a boundary checkpoint splice into an accepted one |
| ChainVerify.RaisesExactly | python/capsule_emit/chain_segment.py:392-393 | the walk raises exactly when the first link that is not good has a root that does not decode |
| ChainExamples.WalkRaises | python/capsule_emit/chain_segment.py:347-393 | two signed, chained checkpoints, the first with root "zz", make the walk raise |
| ChainVerify.RootBinds | commitment-conformance-vectors/README.md:8-17 | one root of two logs of one size means one log, or two of the strings hashed for the two roots collide |
| ChainVerify.NoRewrite | python/capsule_emit/chain_segment.py:370-411 | in an accepted chain, if a later checkpoint commits to a leaf list, every earlier one commits to a prefix of it, or two of the strings hashed for the list and the proofs collide |
| ChainVerify.AcceptedChainIsAppendOnly | python/capsule_emit/chain_segment.py:370-411 | whatever an earlier checkpoint of an accepted chain commits to is a prefix of what a later one commits to, or two of the strings hashed for the two lists and the proofs collide: no history is rewritten |
| ChainBuild.BuildSegment | python/capsule_emit/chain_segment.py:232-327 | the builder, replay and loops included, computes the segment or the refusal whose parts `ChainPlain.LinkPlainly`, `LastTaken`, `SizesTaken`, `RefusedPlainly` and `SizesPlainly` spell out |
| ChainPlain.LinkPlainly | python/capsule_emit/chain_segment.py:292-325 | every link of every built segment: per kind the number of entries between its two leaf counts, per bucket those adjudications by verdict, the ids listed in order, the COSE bytes of the last stamp of its own size that has any, and the proof from the link before it |
| ChainPlain.LinkEnvelope | python/capsule_emit/chain_segment.py:252-254 | a link has no COSE bytes exactly when no stamp of its size has COSE text; otherwise what the text of the last such stamp decodes to |
| ChainPlain.LastTaken | python/capsule_emit/chain_segment.py:256-257 | on any log, `last=N` takes the final min(N, all) checkpoints in order |
| ChainPlain.SizesPlainly | python/capsule_emit/chain_segment.py:258-276 | on any checkpoint list, which run two sizes select, or which refusal they get and in what order |
| ChainPlain.SizesTaken | python/capsule_emit/chain_segment.py:258-276 | a segment built for two sizes holds the checkpoints from one boundary to the other |
| ChainPlain.SizesRefused | python/capsule_emit/chain_segment.py:258-276 | those refusals are what the caller gets |
| ChainPlain.RefusedPlainly | python/capsule_emit/chain_segment.py:232-251 | empty log, bad selection and no checkpoint are refused in that order, each exactly on its condition |
| ChainPlain.TruncatedRefused | python/capsule_emit/chain_segment.py:280-290 | a log cut shorter than its last checkpoint covers is refused |
| ChainPlain.CheckpointsPlainly | python/capsule_emit/chain_segment.py:248-249 | the checkpoints read are those of the entries of kind "checkpoint_stamp", in log order; a stamp without one is a crash |
| ChainPlain.BodiesPlainly | python/capsule_emit/chain_segment.py:283-286 | the replayed leaf bodies are the entries' ids decoded one for one; an id that does not decode is a crash |
| ChainPlain.RolesJudged | python/capsule_emit/chain_segment.py:115-133 | each of the four buckets counts exactly the adjudications whose verdict is that one, with "contradicted:" split by owner |
| ChainPlain.ClassifierPlainly | python/capsule_emit/chain_segment.py:95-105 | the shipped label of every entry by its kind, relation and block: a kindless adjudication is an "adjudication", any other kindless entry a "capsule" |
| ChainBuild.CountLabelsExact | python/capsule_emit/chain_segment.py:301-305 | a leaf tally has each kind's exact count and the counts sum to the number of leaves |
| ChainBuild.BucketsSum | python/capsule_emit/chain_segment.py:115-133 | the four buckets never sum to more than the adjudications they are given, and to exactly that many when every verdict is a valid one |
| ChainHistory.SegmentSplits | python/capsule_emit/chain_segment.py:301-311 | every link of a built segment has a verdict split exactly when it counts an adjudication; the split sums to at most that count, and to exactly it when all verdicts are valid |
| ChainHistory.LastNAccepted | python/capsule_emit/chain_segment.py:235-257 | on every honest log `last=N` returns exactly the final min(N, all) checkpoints, accepted to full depth |
| ChainHistory.SizesAccepted | python/capsule_emit/chain_segment.py:258-276 | on every honest log two sizes are answered exactly when both name a checkpoint, accepted to full depth, and the answer is exactly the checkpoints between them unless a repeated size hides a boundary |
| ChainWriter.WriteKeepsHonest | python/tests/checkpoint/test_mmr_core.py:413-432 | writing a record, or a stamp over a prefix of what is written that names the checkpoint before it, keeps a log honest: later leaves change no earlier root |
| ChainWriter.WrittenLogAccepted | python/capsule_emit/chain_segment.py:235-257 | every log so written from nothing answers any `last=N` with an accepted segment |
| ChainWriter.WrittenSizesAccepted | python/capsule_emit/chain_segment.py:258-276 | every log so written answers two sizes exactly when both name a checkpoint, accepted, with the exact condition for the filter |
| ChainWriter.WrittenSegmentAccounts | python/capsule_emit/chain_segment.py:280-325 | every segment of a log so written accounts for the leaves it covers |
| ChainHistory.DistinctSizesAccepted | python/capsule_emit/chain_segment.py:258-276 | on an honest log that repeats no size, two sizes select exactly the checkpoints with a size between them |
| ChainExamples.RepeatedSizeHides | python/capsule_emit/chain_segment.py:259-276 | an honest log with two checkpoints of one size: asking for that size is answered and accepted with the later one only |
| ChainHistory.SegmentAccounts | python/capsule_emit/chain_segment.py:280-325 | over any chained segment the leaf digests concatenate to the log's own slice, and per kind and in total no leaf is lost or counted twice |
| ChainHistory.HonestSegmentAccounts | python/capsule_emit/chain_segment.py:280-325 | over every honest log every segment is so accounted for |
| ChainHistory.StampsTallied | python/capsule_emit/chain_segment.py:95-105 | under the shipped classifier the stamps tallied are the checkpoint stamps among the leaves exactly when no entry has the kind "stamp" |
| ChainSerial.ProofRoundTrip | python/capsule_emit/chain_segment.py:69-92 | a consistency proof, nested tuples included, comes back as it was |
| ChainSerial.LinkMembers | python/capsule_emit/chain_segment.py:152-166 | the members of a written link by name, the optional two exactly when present |
| ChainSerial.SegmentRoundTrip | python/capsule_emit/chain_segment.py:152-202 | a serialized segment always reads back, and equals the original exactly when no link has empty COSE bytes |
| ChainSerial.BuiltSegmentRoundTrip | python/capsule_emit/chain_segment.py:252-254 | a built segment comes back exactly when no stamp it used has COSE text that is only blanks |
| ChainExamples.BlankCoseLost | python/capsule_emit/chain_segment.py:252-254 | an honest log whose stamp has COSE text " ": its segment is built and accepted, and differs after the round trip |
| ChainSerial.VerdictTravels | python/capsule_emit/chain_segment.py:152-202 | any segment, forged ones included, gets the same verdict after serialization as before |
| ChainSerial.HonestSegmentTravels | python/capsule_emit/chain_segment.py:152-202 | an honest log's last=N segment is still accepted to full depth after serialization |
| Jcs.CanonIffSameMembers | python/capsule_emit/bilateral.py:153-160 | for distinct property names the canonical bytes are equal exactly when the members are the same, in any written order |
| Jcs.EscapeAllEnds | python/capsule_emit/bilateral.py:153-160 | an escaped string ends at its own closing quote whatever follows, so no value can run into the next member |
| BilateralPlain.RequestText | python/capsule_emit/bilateral.py:170-188 | the request payload as literal text around the escaped arguments, in UTF-8 |
| BilateralPlain.ActionText | python/capsule_emit/bilateral.py:191-208 | the action payload as literal text, with the hashed colon-joined request signature |
| BilateralPlain.ConfirmText | python/capsule_emit/bilateral.py:211-229 | the confirm payload as literal text, with the hashed colon-joined acknowledged signature |
| BilateralPlain.EscapeTable | python/capsule_emit/bilateral.py:153-160 | how every character is escaped anywhere in a text |
| BilateralPlain.Utf8Plainly | python/capsule_emit/bilateral.py:153-160 | the bytes of every character: their number, their ranges and the value they spell |
| Bilateral.PayloadInjective | python/capsule_emit/bilateral.py:170-229 | signed bytes determine the phase and every argument: payloads are injective and pairwise disjoint |
| Bilateral.SigTextInjective | python/capsule_emit/bilateral.py:163-167 | the `sig_digest` preimage is injective when algorithm and signature hold no colon, even if the key id does |
| Bilateral.ColonsCollide | python/capsule_emit/bilateral.py:163-167 | a colon in either outer field makes two different signatures share one digest |
| Bilateral.StepConsistent | python/capsule_emit/bilateral.py:306-440 | every step keeps the invariant that each held signature verified over the record's own fields and that the state says which are held; no assertion fires |
| Bilateral.BilateralMeansFourSignatures | python/capsule_emit/bilateral.py:306-415 | in every run a BILATERAL record holds four signatures that verified over its own fields and each other's digests, between two different parties |
| Bilateral.CannotBeLifted | python/capsule_emit/bilateral.py:139-147 | in every run an action or confirmation signature sits in one slot of one handshake, and a request signature only ever as the same request |
| Bilateral.RequesterConfirmSeals | python/capsule_emit/bilateral.py:391-396 | records of any two runs with one requester confirmation agree on the action signature, the request and the action, or exhibit a collision |
| Bilateral.ResponderConfirmSeals | python/capsule_emit/bilateral.py:397-404 | records of any two runs with one responder confirmation agree on the handshake and the whole request, or exhibit a collision |
| BilateralPlain.OpenPlainly | python/capsule_emit/bilateral.py:306-339 | an open records exactly the literal record when the requester's signature over the literal request verifies, and otherwise raises InvalidSignature and records nothing |
| BilateralPlain.RespondPlainly | python/capsule_emit/bilateral.py:341-366 | on any reachable table: NotFound, IllegalTransition and InvalidSignature each exactly on its condition; otherwise the record with the action signature, ACTED |
| BilateralPlain.ConfirmPlainly | python/capsule_emit/bilateral.py:368-415 | on any reachable table: NotFound, IllegalTransition, UnknownParty and InvalidSignature each exactly on its condition; otherwise the record with that party's confirmation, BILATERAL exactly when the other one is held |
| BilateralPlain.GhostPlainly | python/capsule_emit/bilateral.py:417-440 | a refusal succeeds exactly on a REQUESTED handshake and changes its state alone; NotFound and IllegalTransition otherwise |
| Bilateral.BilateralHandshake.Open | python/capsule_emit/bilateral.py:306-339 | verifies before recording; a failure leaves every record unchanged, a success adds only its own |
| Bilateral.BilateralHandshake.Respond | python/capsule_emit/bilateral.py:341-366 | the step and its errors in order; one handshake changes or none |
| Bilateral.BilateralHandshake.Confirm | python/capsule_emit/bilateral.py:368-415 | the step and its errors in order, BILATERAL once both are done; one handshake changes or none |
| Bilateral.BilateralHandshake.Ghost | python/capsule_emit/bilateral.py:417-440 | the step `BilateralPlain.GhostPlainly` spells out: its answer, and the one record that changes or none |
| BilateralRuns.RunLater | python/capsule_emit/bilateral.py:341-440 | over any run request fields are fixed, the rank never falls, terminal states never move, no signature is lost |
| BilateralRuns.RespondExcludesGhost | python/capsule_emit/bilateral.py:341-440 | once a response or a refusal is accepted, no response and no refusal is accepted for that handshake ever after |
| BilateralRuns.ConfirmsCommute | python/capsule_emit/bilateral.py:368-415 | two confirmations valid now commute exactly when neither replaces a different one, and both succeed in either order exactly when none is held, ending BILATERAL with both |
| BilateralRuns.ReconfirmationRaces | python/capsule_emit/bilateral.py:368-415 | after an open, a response and a requester's confirmation, a re-signed confirmation and the responder's one are both acceptable and lead to different records in the two orders |
| BilateralRuns.FourMovesComplete | python/capsule_emit/bilateral.py:306-415 | between two parties, four signatures that verify over the payloads built from one another lead to BILATERAL with exactly them, in either order of confirmation |
| BilateralRuns.SelfHandshakeStalls | python/capsule_emit/bilateral.py:391-411 | a handshake with oneself never becomes BILATERAL |
| Commitment.EncodeDecode | commitment-conformance-vectors/reference_verifier.py:16-34 | the encoding and a strict shortest-form reader are inverse in both directions |
| Commitment.EncodePlainly | commitment-conformance-vectors/reference_verifier.py:29-34 | the literal bytes of up to 255 peaks of 32 bytes |
| Commitment.EncodePrefixFree | commitment-conformance-vectors/reference_verifier.py:29-34 | no commitment object is a prefix of another |
| Commitment.EncodeDefined | commitment-conformance-vectors/reference_verifier.py:16-34 | encoding fails exactly when a length does not fit in 64 bits |
| Commitment.HeaderShortest | commitment-conformance-vectors/reference_verifier.py:16-26 | across the five widths, the header written is the unique shortest well-formed one for its argument |
| Commitment.CommitmentObject | commitment-conformance-vectors/reference_verifier.py:29-34 | the growing byte array ends as the encoding and reads back as the peak list |
| Commitment.CommitmentBindsLog | commitment-conformance-vectors/README.md:24-40 | equal commitment objects of two logs of one size mean equal logs, or two of the strings hashed for the two logs collide |
| StrictJson.AcceptsExactly | go/build.go:510-587 | accepted are exactly the printed forms of documents nested at most 1000 deep with distinct keys per object and nothing trailing, with the value they denote |
| StrictJsonPlain.ErrorsPlainly | go/build.go:510-587 | any printed document followed by anything: its first fault in reading order, too deep or a repeated key, is the error; else what trails it, a value or other data, is; else its value |
| StrictJsonPlain.SoundExactly | go/build.go:529-587 | no fault means nested at most 1000 deep with distinct keys, and the other way round |
| StrictJson.DecodePrint | go/build.go:529-587 | every admissible document decodes to its value, negative zero normalized, consuming exactly its tokens |
| StrictJson.DeadBranches | go/build.go:549-586 | the key-is-not-a-string and unexpected-delimiter errors never occur |
| StrictJson.DecodeJsonValue | go/build.go:529-587 | the recursive decoder with its loops computes the specified result and leaves the reader behind the value |
| StrictJson.DecodeStrictJson | go/build.go:510-527 | success exactly on printed admissible documents |
| Numbers.CanonicalExactly | go/numbers.go:51-92 | conversion succeeds exactly when every number leaf is grammatical, finite and, if an integer, in the safe range; containers keep their shape |
| NumbersPlain.CanonicalPlainly | go/numbers.go:51-164 | conversion gives a value exactly when that value has the same containers and every leaf is converted: integer tokens in range kept but for "-0", finite floats as their printed form, zero as "0", Go integers in range as they are |
| NumbersPlain.NumberPlainly | go/numbers.go:122-131 | the matcher accepts exactly sign, digits without leading zero, point with digits, and letter with sign and digits |
| NumbersPlain.IntegerPlainly | go/numbers.go:132-142 | which tokens are integers and the value they have, read with `NumbersPlain.MagnitudePlainly` |
| NumbersPlain.MagnitudePlainly | go/numbers.go:132-142 | a digit to the right multiplies by ten and adds itself |
| NumbersPlain.ExtensionPlainly | go/extension.go:54-79 | the extension check refuses exactly a value with a token somewhere inside that has a fraction or exponent or is out of range |
| Numbers.MatchesExactly | go/numbers.go:122-131 | the number matcher accepts exactly the tokens that can be cut into sign, integer part, fraction and exponent |
| Numbers.CanonicalStable | go/extension.go:54-79 | conversion is idempotent and its result always passes the extension number check |
| Numbers.IntegerTokensKept | go/numbers.go:132-142 | an in-range integer token is kept as written, except that "-0" becomes "0" |
| Numbers.IntegerRoundTrip | go/numbers.go:134-142 | formatting what was parsed gives the token back, except for the sign of "-0" |
| Numbers.FormatRead | go/numbers.go:134-142 | parsing what was formatted gives the integer back |
| Numbers.CanonicalizeForDigest | go/numbers.go:51-92 | the loops over map members in any order and over slices compute the specified conversion |
| LogScan.RecordsInScope | python/capsule_emit/cli.py:966-1012 | the paged scan of a growing log equals one pass without pages, and within a checkpoint depends on neither page size nor later appends |
| LogScan.PickedMeaning | python/capsule_emit/cli.py:972-976 | the selection is exactly the in-scope first occurrences, in log order, with distinct leaf ids; what each scope selects is in `LogScanPlain.ScopePlainly` |
| LogScanPlain.ScopePlainly | python/capsule_emit/cli.py:941-963 | which records each scope option selects, field by field, with the time bounds inclusive in code point order |
| LogScanPlain.ScanPlainly | python/capsule_emit/cli.py:966-1012 | one pass: the first unreadable new leaf fails it; else the selected leaves are all and only the wanted ones up to the bound, ascending, those behind it are counted, and the first leaf covered that repeats or has no record is named with its reason |
| LogScan.NonRecordMeaning | python/capsule_emit/cli.py:986-1004 | the reported leaf is the first that repeats an id or has no record, and none is reported exactly when every leaf is a record |
| LogScan.PrefixStable | python/capsule_emit/cli.py:966-1012 | growth past the bound changes nothing found within it |
| LogScan.PlanBundle | python/capsule_emit/cli.py:1082-1106 | root, others, range and closure for every scope, from one pass over the log; `--all` takes a range from sequence 1 exactly when every leaf up to the checkpoint is a distinct record, over exactly the selected ids |
| ArtifactRecord.Prepare | go/artifact/record.go:271-300 | admission into a fresh slice, first error first; the caller's slice is not written |
| ArtifactRecord.PrepareMeaning | go/artifact/record.go:268-300 | exactly which records are admitted, and admission is idempotent |
| ArtifactRecord.Verify | go/artifact/record.go:91-160 | the loop fills the report, or returns the error, that `ArtifactPlain.VerifiedPlainly`, `ReportPlainly` and `RefusedPlainly` spell out |
| ArtifactRecord.CheckAllMeaning | go/artifact/record.go:116-160 | artifacts verify in any order: each by itself, under names well formed and distinct, with one report entry each; what one must hold is in `ArtifactPlain.VerifiedPlainly` |
| ArtifactPlain.VerifiedPlainly | go/artifact/record.go:91-239 | a record verifies exactly when its id is 64 digits, its capsule or padding record holds member by member, its 32-byte key is trusted, every artifact holds for its state, a bound original having exactly the digest at one of the four member paths, and names are well formed and distinct |
| ArtifactPlain.ReportPlainly | go/artifact/record.go:116-160 | one entry an artifact: its state, bound exactly when it names a location, verified exactly when it is bound and present |
| ArtifactPlain.RefusedPlainly | go/artifact/record.go:91-160 | the error of everything that does not verify: untrusted signer, the first artifact's wrong hash or wrong digest, or an invalid record |
| ArtifactPlain.PreparedPlainly | go/artifact/record.go:271-300 | admission by the literal limits, what is filled in, and which error comes first |
| ArtifactPlain.ChecksumPlainly | go/artifact/record.go:252-266 | the checksum hashes the encoded record over rows without content, purged as present, in ascending name order |
| ArtifactRecord.PaddingClosed | go/artifact/record.go:186-212 | an accepted padding record has exactly its four members |
| ArtifactRecord.ChecksumExactly | go/artifact/record.go:243-266 | for unique names the checksum ignores order and purging, and equal checksums mean equal inventories or a collision |
| ArtifactRecord.PurgeInvisible | go/artifact/record.go:91-160 | purging originals of an admitted, verified record keeps it verified with the same names, bound flags and checksum, and bars re-admission |
| ArtifactRecord.StorageChecksum | go/artifact/record.go:252-266 | overwriting and sorting a copied slice computes the specified checksum |
| Composition.OrderIndependent | go/construction.go:98-141 | one ordering of the members succeeds exactly when every other does, with the same composed list |
| Composition.ComposedMeaning | go/construction.go:94-141 | success exactly on verified members with distinct slots and ids; the list is in WHO, CAN, DID, AUDIT order with one entry a member |
| Composition.ComposedPlainly | go/construction.go:98-125 | success by literal conditions on slots, ids and verified bytes, and otherwise the error of the first member that does not fit, the earlier slot of a repeated id included |
| Composition.BuildComposition | go/construction.go:98-138 | the loops compute the specified list or the first error |
| Ledger.IdIgnoresSigner | python/capsule_emit/canonicalization.py:42-84 | an id depends on no signature, key id or already written id |
| Ledger.IdBindsContent | python/capsule_emit/canonicalization.py:54-84 | under `jcs`, ids are equal exactly when the content, chain included, is equal or SHA-256 collides |
| Ledger.VintageForgetsChain | python/capsule_emit/canonicalization.py:71-74 | under `jcs-n` the chain link is not committed |
| Ledger.RunOk | python/capsule_emit/core.py:1010-1025 | over every run of emits each stored id recomputes from the stored record, no id is stored twice, and lines are only appended |
| Ledger.ChainXorCite | python/capsule_emit/core.py:954-964 | a `confirms` id becomes the chain link if held, else a citation after the given references, never both; the JSON written is in `LedgerPlain.ConfirmedPlainly` |
| LedgerPlain.ConfirmedPlainly | python/capsule_emit/core.py:954-964 | the stored JSON: held, the chain names the id with the given relation or "follows" and the references are the given ones member by member; not held, no chain is written and exactly one literal citation follows them unless one already cites the digest |
| LedgerPlain.UnconfirmedPlainly | python/capsule_emit/core.py:954-988 | without `confirms` no chain is written and the references are the given ones member by member |
| LedgerPlain.ForeignWritten | python/capsule_emit/core.py:1138-1153 | the citation list as JSON: the given references first, then at most one with type, SHA-256, the id and responds_to |
| LedgerPlain.RefusedPlainly | python/capsule_emit/core.py:883-1013 | which emits are refused before appending and with which error, in order; every other one is composed |
| LedgerPlain.SealedPlainly | python/capsule_emit/core.py:966-1023 | the stored members: recomputed id, signature and key id over it, declared algorithm, every payload and builder member, and no other |
| LedgerPlain.IdPlainly | python/capsule_emit/canonicalization.py:42-84 | what is hashed for an id under each declared algorithm, an absent or null declaration included, and that any other is refused |
| LedgerPlain.EmitPlainly | python/capsule_emit/core.py:954-1025 | one emit as a whole: refused it leaves the ledger, composed it adds the sealed capsule exactly when its id is new |
| LedgerPlain.AppendPlainly | python/capsule_emit/core.py:1156-1174 | a new id goes to the end; a held one answers its position for an equal capsule and conflicts for a different one |
| LedgerPlain.NotAppended | python/capsule_emit/legacy_ledger.py:718-721 | a line without a 64-digit id or of a bookkeeping kind is refused, and no other line is for that reason |
| LedgerPlain.ChainedPlainly | python/capsule_emit/core.py:1120-1135 | what it means that parents are earlier: an id a chain names is the id of an entry before it |
| Ledger.StepChained | python/capsule_emit/core.py:1010-1025 | an emit keeps every parent an earlier entry exactly when its payload brings no link to an id not held |
| Ledger.ForgedLink | python/capsule_emit/core.py:1010-1013 | a payload `chain` on a capsule without `confirms` is accepted and breaks that |
| Ledger.RunChained | python/capsule_emit/core.py:954-964 | over every run without such payload members every parent is at a strictly smaller position |
| Ledger.AncestryEnds | python/capsule_emit/core.py:1120-1135 | the parent walk strictly falls and ends at a capsule without a parent |
| Ledger.LedgerWriter.EmitCapsule | python/capsule_emit/core.py:954-1025 | building, sealing and appending step by step gives the ledger and outcome that `LedgerPlain.EmitPlainly` spells out |
| Ledger.LedgerWriter.AppendLine | python/capsule_emit/core.py:1156-1174 | a new id is appended, an identical line answers its position, a different one conflicts |
| Approval.ListPending | python/capsule_emit/approval.py:223-252 | the two passes compute the pending list |
| Approval.PendingMeaning | python/capsule_emit/approval.py:198-252 | listed are exactly the open capsules with no resolving child; which those are, and in what order, is in `ApprovalPlain.PendingPlainly` |
| ApprovalPlain.PendingPlainly | python/capsule_emit/approval.py:223-252 | the list is, in ledger order, all and only the capsules with verdict_class "blocked" or status "planned" that no superseding or resolving chain names |
| ApprovalPlain.PlannedWaits | python/capsule_emit/approval.py:236-252 | a planned effect alone is listed |
| ApprovalPlain.SealPlainly | python/capsule_emit/approval.py:131-195 | which seals are refused, and what every other one emits: one superseding emit with the literal disposition, and an effect exactly for an approval without a failed recheck |
| Approval.ApprovalRemovesExactly | python/capsule_emit/approval.py:152-195 | sealing an approval or denial removes exactly the named capsule and adds nothing |
| Approval.ResolvedForever | python/capsule_emit/approval.py:198-252 | a resolved capsule is never pending again after any further emits |
| Approval.ClearedOnlyWhenGood | python/capsule_emit/approval.py:131-172 | an action is cleared only on approval without a failed recheck, and for a hold reserve only with an explicit good one |
| Approval.SealApproval | python/capsule_emit/approval.py:131-195 | the decision reassignments lead to exactly the specified emit, or to no change |

## Left out

- Network, witness and anchor submission, servers, framework adapters, command-line parsing and rendering: I/O with no
  property of the kind proved here.
- Ed25519, COSE_Sign1 and SHA-256: parameters, with the hypotheses named above.
- The `cll` library's range arithmetic is not in this repository; its behaviour is taken from
  `python/tests/checkpoint/test_mmr_core.py` and the public profile that
  `commitment-conformance-vectors/README.md` names. Inclusion proofs are not modelled.
- A range of 2^64 nodes or more: the position no longer fits its eight bytes there, which the source refuses and the
  model's layout truncates.
- Custom `id_field`, `kind_field` and `stamp_kind` of `chain_segment`, and the coercions `int(...)` makes of text in
  `from_dict`; `CheckpointRecord`'s own conversion is a parameter.
- Error message texts and, where it depends on map iteration order (`go/numbers.go`), which of several faults is named.
- Characters and bytes below the lexemes of the JSON decoder, including the UTF-8 check; the token reader is the
  standard library's, modelled by its states. An empty JSON array and a nil slice are one value.
- Strings are sequences of Unicode scalar values: a lone surrogate, which JCS refuses, is not representable.
- `get` of the handshake object, UUID generation (an argument of `open`, fresh where a result says so) and timestamps.
- JCS beyond flat objects of strings and nulls is a parameter, as are float parsing and printing.
- The artifact store is stable during a scan: a record that appears or disappears between two pages is not modelled.
- Byte slices inside an artifact are values: the copies `Prepare` makes of them are not distinguished from the
  originals. For repeated names the checksum's sort order is left open by the source and fixed by the model.
- The emit path's argument checks before the chain decision other than the relation checks, anchor tracking and witness
  outcomes; a block that should be an object but is not reads as empty in `list_pending`, where the source raises.
- Ledger files, locks and store layout: the ledger is a sequence of lines, and lines are equal when their members are.
- `isCompositionSlot`, `contradicted` and other single-branch facts appear only where a result needs them.
- Mmr.NodeStore.AddLeaf: takes the log it extends as a ghost argument, because the store itself keeps only digests.
- StrictJson.Decoder.Next: on an error promises the error but not where the reader stopped, since it is abandoned then.
- LogScan.RecordsInScope: a log that grows faster than it is read for ever is not modelled; growth ends at the last
  view.
