# Verified model of UGK's decision logic

UGK (Grundnorm 444) decides constitutional questions in four places, each over an unbounded history or graph:

- **Finality** (`ugk/csh.py`): a BFT-style quorum over signed attestations, with equivocating validators excluded.
- **Intent coverage** (`ugk/intent.py`, `ugk/will.py`): which operations are derivable from declared, unrevoked intent.
- **Namespace ownership** (`ugk/namespace_governance.py`): a fold over the receipt chain, guarded by gates that re-run it.
- **Amendments** (`ugk/amendment.py`, `ugk/successor.py`): admissibility of a record, whole ledgers, and Governor key eras.

This project models those decisions in Dafny and proves what they guarantee on every input, run and ledger.
`dafny verify dfyconfig.toml` checks everything.

## Layout

| file | contents |
|---|---|
| `Collections.dfy`, `Ordering.dfy` | finite sets and sequences; `sorted` as a stable sort, `sorted(set(..))`, first match of a sorted list |
| `Finality.dfy` | attestations, sealing, equivocation detection, the filtering loop |
| `FinalityProperties.dfy` | exact counting, quorum overlap, accountable safety, liveness |
| `FinalityAgreement.dfy` | when two hashes can both be final over one pool, exactly |
| `FinalityKeys.dfy` | when counted validators signed, and when reported equivocators did |
| `FinalityHashOrder.dfy` | when the finality hash does not depend on arrival order, and what it identifies |
| `Intent.dfy`, `IntentHistory.dfy` | the declaration store; coverage, permanence and whose revocations deactivate, on whole histories |
| `Will.dfy` | the closure loop against path reachability, coverage, the search for the covering declaration |
| `Namespace.dfy` | the ownership fold, gates, receipts, and one governed operation |
| `NamespaceProperties.dfy` | provenance, permanence, locality, agreement of gates and fold |
| `NamespaceSession.dfy` | calls one after another: an admitted operation takes effect and does what it promises |
| `NamespaceRuns.dfy` | operations interleaved between decision and append |
| `Amendment.dfy` | records, canonical bodies, the succession walk, admissibility |
| `Admissibility.dfy` | admissibility as an if-and-only-if of its conditions; law keying against frame keying |
| `KeyEras.dfy` | what extending the succession does to keys, to admitted records and to whole ledgers |
| `Ledger.dfy` | replay, append-only lineage, the archive's lookup, the record-hash chain |
| `LedgerBoundaries.dfy` | ledgers any working signer can have admitted at the edge of each promise; when a record can be repeated |
| `LedgerGate.dfy` | validating a stored ledger from the start frame it derives from its own records |

## How the source is represented

- SHA-256, Ed25519 (section 5.1 of RFC 8032), `mosaic_id` and `canonicalize` are function parameters, so every
  theorem holds for all of them. Where a result needs a collision-free hash, injectivity is an explicit hypothesis;
  where one needs a signature to verify for a single payload, so is that.
- A canonical JSON body is a map from fields to values: absent fields are absent keys.
- Public keys are byte strings. Integers are unbounded in Python and here.
- Loops are loops and dictionaries are maps; where Python iterates a dictionary or set, the order is arbitrary.
- The clock is a parameter: timestamps are arguments.

## Where the documentation and the code part ways

The model follows the code. For each point a theorem gives the exact condition, and another an input where it fails.

- "Once revoked, never seeds R_int again" (`ugk/intent.py:108`) holds exactly when the declaration is stored at the
  moment of the revocation: `RevocationIsPermanentIff`, and `HonestRevocationIsPermanentIff` where every declaration
  carries its true hash. `EarlyRevocationIsLost` is the failing input.
- A revocation's authority "must match" the declaration's (`ugk/intent.py:113`), but the store does not compare them. A
  revocation changes only its own authority's declarations exactly under `RevocationIsByDeclarerIff`, a whole history
  does exactly under `OnlyDeclarersDeactivateIff`, and `StrangersRevocationDeactivates` is the failing input.
- The finality hash sorts the signatures, yet which attestation of a validator is kept depends on arrival order. It is
  order-free exactly under `FinalityHashOrderFreeIff`; `TwoTimestampsMakeOrderMatter` is the failing input.
- Finality does not look at epochs. Pools agree on one hash whatever else they contain exactly when fewer sealed
  validators attested in two epochs than two quorums must share: `AgreementIff`. `SinglePoolAgreement` is the
  single-epoch case, `OneMoverFinalizesTwoHashes` the smallest failing input.
- `seal_validator_set` counts repeated names, which raises the threshold: `SealedListCanFinalizeIff`, and
  `RepeatedNameBlocksFinality`.
- An attestation is verified under the key it carries, and equivocation is detected before verification. Whatever part
  of a pool a call is given, those it counts signed if and only if every eligible attestation carries its name's key
  (`CountedDidSignIff`), and those it reports equivocated if and only if every conflicting attestation verifies
  (`ReportIsProvenIff`). `OneKeyCountsANonSigner` and `UnverifiedConflictIsReported` are the failing inputs.
- With the authority omitted, a namespace gate compares against no authority while the receipt carries the kernel's.
  Gate and effect agree exactly under `OmittedAuthorityAgreesIff`; `UnownedNameIsRevokedToNoEffect` and
  `OwnNameIsRefusedWithoutAuthority` are the two ways they differ.
- The start frame is no record's successor, so a ledger may return to it (`StartFrameCanReturn`), once
  (`AtMostOneReturn`). All frames are distinct exactly when no record states a return (`FramesDistinctIffNoReturnStated`),
  and exactly when the ledger is also admitted with the start counted as seen (`FramesDistinctIffSeeded`).
- The archive's lookup by law hashes finds a record exactly under `LookupIsExactIff`; in a fully chained ledger exactly
  when no earlier record has the same pair (`ChainedLookupIff`); always while only the law moves
  (`LawLedgerLookupIsExact`), not for a second schema move under one law (`SecondSchemaMoveIsShadowed`).
- A record can be admitted twice exactly under `CopyIsAdmittedIff`; never while only the law moves
  (`NoCopyWhileOnlyLawMoves`), and `LawMoveCanBeRepeated` is an input.
- The ledger gate derives its start frame from the first prior values mentioned. It is the true start exactly under
  `StartIsTrueIff`, and the gate passes a ledger exactly under `PassesIff`; `DanglingPriorMisleadsTheGate` is an admitted
  ledger it refuses.

## Model

| member | source | states |
|---|---|---|
| Finality.SealValidatorSet | ugk/csh.py:165-166 | the sealed list is the given one sorted, its length is the declared count, and the count is the number of distinct validators exactly when no name repeats |
| Finality.QuorumThreshold | ugk/csh.py:342-344 | the threshold is the least integer t with 3t >= 2N+1, and 1 when N is not positive |
| Finality.GroupByValidator | ugk/csh.py:326-329 | each (validator, epoch) key present maps to exactly the hashes attested under it |
| Finality.DetectEquivocation | ugk/csh.py:320-335 | the result is the canonical sorted list of exactly those validators that attested two hashes in one epoch, strictly ordered |
| Finality.AchieveFinality | ugk/csh.py:366-432 | the artifact field by field: the first qualifying attestation of each validator in input order, where qualifying means sealed, not equivocating, for the hash and verified over its five payload fields; the inputs that do not qualify as rejected, in input order; the exact sorted equivocators; the threshold; quorum exactly when the kept meet it; the hash empty below quorum, else the digest of their sorted signatures |
| FinalityProperties.AcceptedExact | ugk/csh.py:382-413 | one valid entry per validator; the counted validators are exactly the sealed, non-equivocating ones with some verifying attestation for the hash |
| FinalityProperties.ValidKeepsFirst | ugk/csh.py:406-410 | an attestation is kept exactly when it is the first accepted one of its validator |
| FinalityProperties.InputsPartition | ugk/csh.py:389-410 | as multisets, input = valid + invalid + repeats; invalid is exactly the rejected inputs and repeats are of counted validators |
| FinalityProperties.OrderIndependent | ugk/csh.py:382-413 | permuting or duplicating the attestations changes neither the counted validators, the verdict, the equivocator list nor the set of rejected ones |
| FinalityProperties.QuorumsIntersect | ugk/csh.py:342-344 | two final calls over one sealed set share at least 2T - D of its D distinct validators, T the threshold; where the count covers them, more than a third: 3I >= N+2 |
| FinalityProperties.AccountableSafety | ugk/csh.py:320-432 | two single-epoch lists of one epoch finalizing different hashes share that many counted validators, every one unflagged in each list and reported in their union |
| FinalityAgreement.TwoHashesNeedTwoEpochs | ugk/csh.py:366-432 | two hashes final over one pool: at least 2T - D validators attested both, in different epochs |
| FinalityAgreement.AgreementIff | ugk/csh.py:342-432 | all pools with a given set of sealed two-epoch attesters agree on one final hash if and only if that set has fewer than 2T - D members |
| FinalityAgreement.SinglePoolAgreement | ugk/csh.py:366-432 | over a single-epoch pool at most one hash is final, with no honesty assumption |
| FinalityAgreement.OneMoverFinalizesTwoHashes | ugk/csh.py:389-413 | for every working keyring, one sealed validator attesting in two epochs makes two hashes final |
| FinalityProperties.FinalIffFewMissing | ugk/csh.py:342-413 | with N >= 1 distinct validators, final exactly when at most floor((N-1)/3) are silent, flagged or unverifiable |
| FinalityProperties.SealedListCanFinalizeIff | ugk/csh.py:157-182 | for every working keyring, a sealed list can reach finality at all exactly when its distinct names meet the threshold of its full length |
| FinalityProperties.RepeatedNameBlocksFinality | ugk/csh.py:165-166 | one name sealed twice never finalizes |
| FinalityProperties.LostOnlyByEquivocation | ugk/csh.py:389-393 | adding attestations un-counts exactly the counted validators the longer list flags |
| FinalityHashOrder.FinalityHashOrderFreeIff | ugk/csh.py:415-422 | under an injective digest the hash is the same for every arrival order exactly below quorum or when no validator has two accepted attestations signed differently |
| FinalityHashOrder.TwoTimestampsMakeOrderMatter | ugk/csh.py:406-422 | one sealed validator attesting twice with different signatures is final with an order-dependent hash |
| FinalityHashOrder.FinalityHashIdentifiesKeptIff | ugk/csh.py:415-422 | where the digest is injective and a signature verifies for one payload only, final calls share the hash exactly when they kept the same signed payloads |
| FinalityHashOrder.FinalityHashIdentifiesAgreement | ugk/csh.py:415-422 | an equal finality hash then means the same constitutional hash and the same counted validators |
| FinalityKeys.CountedDidSignIff | ugk/csh.py:71-74 | over a pool and all its parts, everybody counted signed with their own key if and only if every sealed, verifying attestation for the hash carries the key its name is derived from |
| FinalityKeys.BoundKeysMeanSigned | ugk/csh.py:71-74 | if every attestation carries its name's key, every counted validator signed |
| FinalityKeys.OneKeyMayCarryTheCount | ugk/csh.py:389-410 | one key, used under every sealed name, counts for all of them |
| FinalityKeys.OneKeyCountsANonSigner | ugk/csh.py:71-74 | one key under two sealed names makes a call final in which, however names are derived from keys, somebody counted did not sign |
| FinalityKeys.ReportIsProvenIff | ugk/csh.py:320-335 | over a pool and all its parts, everybody reported has two conflicting verifying attestations if and only if every attestation that conflicts with another verifies |
| FinalityKeys.UnverifiedConflictIsReported | ugk/csh.py:320-335 | one attestation that does not verify gets its validator reported without such proof |
| FinalityKeys.UnverifiedConflictUncounts | ugk/csh.py:382-393 | one conflicting attestation un-counts a counted validator whether or not it verifies |
| Intent.Create | ugk/intent.py:62-83 | the created declaration carries the given authority, scope and time and the given ops sorted without repetition, and its hash is the digest of exactly these |
| Intent.HashIdentifiesContent | ugk/intent.py:43-83 | two created declarations have one hash exactly when op sets, authority, scope and time agree |
| Intent.ActiveExact | ugk/intent.py:227-239 | active declarations are exactly the unrevoked rows whose scope is open or matches, as read back |
| Intent.IntentStore.Declare | ugk/intent.py:178-191 | inserts the row with revoked unset, unless its hash is stored |
| Intent.IntentStore.Revoke | ugk/intent.py:193-209 | records the revocation once and flags every stored row of that hash, and no other |
| Intent.IntentStore.Get | ugk/intent.py:211-218 | returns the stored declaration of that hash with its ops sorted, or nothing when none is stored |
| Intent.IntentStore.IsRevoked | ugk/intent.py:220-225 | true exactly for a stored, flagged hash |
| Intent.IntentStore.ActiveDeclarations | ugk/intent.py:227-239 | the rows that are unrevoked and open or of that scope, read back with sorted ops, in table order |
| Intent.ActiveInTableOrder | ugk/intent.py:227-239 | the active declarations are those rows at increasing positions, none left out |
| Intent.CreatedSurvivesTheStore | ugk/intent.py:178-258 | a created declaration reads back unchanged and still verifies |
| Intent.StoredCopyVerifiesIff | ugk/intent.py:248-258 | in general the copy read back verifies exactly when the ops were in order |
| IntentHistory.RowsExact | ugk/intent.py:178-209 | after any history a row is stored exactly when it is the first declaration of its hash, flagged exactly when revoked while stored |
| IntentHistory.CoveredIffDerivableFromIntentInForce | ugk/will.py:72-90 | after any history an op is COVERED exactly when derivable from a stored, never-revoked-while-stored declaration in scope |
| IntentHistory.RevocationIsPermanentIff | ugk/intent.py:193-209 | a revoked hash is never active again, under any later events, exactly when it was stored at the revocation |
| IntentHistory.HonestRevocationIsPermanentIff | ugk/intent.py:193-209 | the same for a created declaration when every later declaration carries its true hash |
| IntentHistory.EarlyRevocationIsLost | ugk/intent.py:178-209 | a created declaration revoked before it is stored is in force once declared |
| IntentHistory.RevocationIsByDeclarerIff | ugk/intent.py:104-113 | every row a revocation changes was declared by its authority exactly when the live row under its hash, if any, was |
| IntentHistory.StrangersRevocationDeactivates | ugk/intent.py:193-209 | a stranger's revocation takes a stored declaration out of force |
| IntentHistory.OnlyDeclarersDeactivateIff | ugk/intent.py:178-209 | over a whole history only declarers deactivate exactly when the first revocation after each first declaration carries that declaration's authority |
| IntentHistory.DeclareGrowsRevokeShrinks | ugk/intent.py:178-239 | declaring never shrinks and revoking never enlarges what is intended, at every depth |
| Will.Closure | ugk/will.py:92-111 | the loop terminates with exactly the ops reachable by edge paths, within the depth if one is given |
| Will.ClosureIsReachability | ugk/will.py:92-111 | round-by-round closure equals path reachability: N rounds reach exactly what at most N edges reach |
| Will.UnboundedIsLeastFixpoint | ugk/will.py:92-111 | the unbounded closure contains the seed, is closed, and lies inside every closed superset of the seed |
| Will.EnoughDepthIsFullClosure | ugk/will.py:99-111 | a depth of at least the number of ops the full closure adds yields the full closure |
| Will.ClosureIsMonotone | ugk/will.py:92-111 | more seed, more edges or more depth never cover less |
| Will.FindCover | ugk/will.py:113-130 | the hash of the declaration with fewest ops, earliest on ties, among those declaring the op; if there is none, among those deriving it; if there is none, empty |
| Will.ClosureOfUnion | ugk/will.py:72-82 | at every depth, the closure of all declared ops is the union of the declarations' closures |
| Will.CoverSearchIsComplete | ugk/will.py:88-130 | a covered op always has a chosen declaration that covers it alone: fewest ops among direct declarers, else among closure-coverers, earliest on ties |
| Will.Covers | ugk/will.py:54-90 | WL-005 exactly when no op is declared, else WL-001 exactly when no declaration derives the op, else COVERED with the hash of the smallest and earliest direct declarer, or of the smallest and earliest deriving declaration if none declares it |
| Will.CoverageExact | ugk/will.py:63-90 | COVERED exactly when some declaration derives the op, whose hash is reported; WL-005 exactly when no op is declared; WL-001 otherwise |
| Namespace.Project | ugk/namespace_governance.py:85-137 | the loop over the chain computes the recursive fold Projection |
| NamespaceProperties.NextReceiptExact | ugk/namespace_governance.py:97-137 | one more receipt, read off its own fields: failed, nameless and other receipts do nothing, and any other changes only its own name, when and as its operation says |
| Namespace.Kernel.Execute | ugk/kernel.py:1415-1821 | empty authority: nothing is written; gate false: exactly one failed gate_refuse receipt; gate true: a gate_admit receipt and then the operation's own receipt, each with its fields given, under the passed authority or else the kernel's |
| Namespace.Kernel.Owner | ugk/namespace_governance.py:153-156 | the owner read off a fresh projection of the chain |
| NamespaceProperties.AlwaysConsistent | ugk/namespace_governance.py:97-137 | over every chain, owned and revoked names are disjoint, only owned names have delegates, delegates do not repeat, indices lie in the chain |
| NamespaceProperties.EveryOwnershipHasProvenance | ugk/namespace_governance.py:107-136 | the stored index points at the non-failed grant naming that owner, and the record stood after every later prefix |
| NamespaceProperties.DelegatesHaveProvenance | ugk/namespace_governance.py:110-116 | an authority is a delegate exactly when the present owner delegated to it after receiving the name |
| NamespaceProperties.AuthorityHasProvenance | ugk/namespace_governance.py:163-171 | authority over a name belongs to whom the standing grant names, and to whom that owner delegated it since, and to nobody else |
| NamespaceProperties.RemovalIsPermanent | ugk/namespace_governance.py:117-136 | a revoked or invalidated name is unowned after every continuation of the chain |
| NamespaceProperties.AtMostOneEffectiveAllocation | ugk/namespace_governance.py:107-109 | however many allocations of a name land, at most one ever takes effect |
| NamespaceProperties.OnlyOwnerOrAwardChanges | ugk/namespace_governance.py:100-137 | an owned name keeps its record unless its owner removes or transfers it or an adjudication awards it |
| NamespaceProperties.ProjectionIsLocal | ugk/namespace_governance.py:85-137 | owner, revocation and delegates of a name are the same projected from the whole chain or from its receipts alone |
| NamespaceProperties.DifferentNamesCommute | ugk/namespace_governance.py:85-137 | swapping adjacent receipts for different names changes no name's view |
| NamespaceProperties.GateAgreesWithFold | ugk/namespace_governance.py:174-317 | with an explicit authority each gate admits exactly when its receipt next takes effect, up to a repeated delegation and the Governor check |
| NamespaceProperties.OmittedAuthorityAgreesIff | ugk/namespace_governance.py:190-317 | with the authority omitted, each gate admits exactly when the receipt under the kernel's authority would change the state, if and only if OmissionIsSafe: malformed, an allocation, a name owned by another authority, a repeated delegation, or an award of a revoked name |
| NamespaceProperties.UnownedNameIsRevokedToNoEffect | ugk/namespace_governance.py:240-255 | without an authority, revoking an unowned name is admitted and changes nothing |
| NamespaceProperties.OwnNameIsRefusedWithoutAuthority | ugk/namespace_governance.py:240-255 | without an authority, the kernel's own name is refused although the receipt would take effect |
| NamespaceSession.AdmittedMeansEffective | ugk/namespace_governance.py:190-317 | a governed operation with an explicit authority changes the state exactly when admitted, claims and repeated delegations aside; refusals and errors never do |
| NamespaceSession.AdmittedOperationDoesItsJob | ugk/namespace_governance.py:205-317 | an admitted allocate, delegate, revoke, invalidate, supersede or adjudicate leaves its name with the owner and delegates it promises, and every other name looking the same |
| NamespaceSession.OneSuccessfulAllocationPerName | ugk/namespace_governance.py:174-218 | in any session without interleaving a canonical name has at most one successful allocation receipt |
| NamespaceRuns.FirstLandingKeepsTheName | ugk/namespace_governance.py:107-109 | two callers admitted to allocate one free name may both land; the first to land keeps it |
| NamespaceRuns.EveryAwardIsGovernorsIff | ugk/namespace_governance.py:303-308 | in every run, with any receipts written between decision and landing, the chain's awards are all the Governor's exactly when those of the foreign receipts are |
| NamespaceRuns.StaleGatesAreHarmless | ugk/namespace_governance.py:174-317 | in every run, with any receipts in between, the state is consistent and a receipt changes an owned name's record only as an act on its owner's authority or an award, which is the Governor's if it came through the gate |
| NamespaceRuns.LandingIsAsIfDecidedNow | ugk/namespace_governance.py:100-137 | a landing that changes the state would be admitted again by its gate on the chain as it then is |
| NamespaceRuns.RemovedForGood | ugk/namespace_governance.py:117-136 | a removed name is unowned in every later world of every run |
| Amendment.Create | ugk/amendment.py:53-101 | the completed record verifies and signs the same payload as its draft |
| Amendment.BodyIsInjective | ugk/amendment.py:103-120 | omitting empty fields loses nothing: bodies are equal exactly when records agree on all fields but the stored hash |
| Amendment.BodyLayout | ugk/amendment.py:103-120 | every core field and the signature is in the hashed body with the record's value; each optional field is there exactly when its value is not empty |
| Amendment.PayloadLayout | ugk/amendment.py:171-194 | the signed payload likewise, without the signature and with sorted invariant lists |
| Amendment.PlainRecordVerifiesIff | ugk/amendment.py:103-120 | a record without optional values verifies exactly when its hash is the digest of its nine fields |
| Amendment.PayloadCommits | ugk/amendment.py:171-194 | signed payloads are equal exactly when all fields but signature and hash agree, invariant lists as multisets |
| Amendment.AuthorizedKeys | ugk/amendment.py:203-225 | the governor's key, then each successor whose link names the MosaicID of the key before it and carries that key's signature over the link's six fields; the walk stops only at a link for which that fails |
| Amendment.EachKeyVouchesForTheNext | ugk/amendment.py:213-225 | the same of the function the other results use |
| KeyEras.KeysAreLongestUnbrokenPrefix | ugk/amendment.py:213-225 | authorized keys are the genesis key and the successors of the longest prefix in which every link is signed by the key before it |
| KeyEras.ExtensionOnlyAppends | ugk/amendment.py:203-225 | extending the lineage only appends keys |
| KeyEras.AdmittedIsSignedInEra | ugk/amendment.py:276-299 | an admitted record is signed by an authorized key it names; a non-historical one by the head key |
| KeyEras.AdmittedStaysHistorical | ugk/amendment.py:285-299 | an admitted record remains admissible as historical after any extension of the lineage |
| KeyEras.AdmittedStaysNewIff | ugk/amendment.py:294-297 | as a new amendment it survives an extension exactly when the active key is the same, and is otherwise refused as retired |
| KeyEras.LedgerSurvivesExtensionIff | ugk/amendment.py:276-299 | a ledger admitted under a lineage is admitted under an extension exactly when every record is attested historical or its signer is the key then active |
| Admissibility.AdmittedIff | ugk/amendment.py:228-332 | admitted exactly when intact, consistent with its frames, signed by the first matching key of the right era, and extending the lineage |
| Admissibility.AdmittedAtIff | ugk/amendment.py:228-332 | what admits record i of a ledger, read off records, frames and authorized keys: kind, hash, each leg, the signer of the era, where the last record led, a new frame, the predecessor's hash |
| Admissibility.RefusalNamesFirstFailure | ugk/amendment.py:238-332 | a refusal names a demand that is not met while all demands checked earlier are; admission means all are met |
| Admissibility.LawKeyingAgreesWhileOnlyLawMoves | ugk/amendment.py:300-320 | while only the law has moved, callers passing law hashes get the verdict of callers passing frames |
| Ledger.ReplayReproducesHistory | ugk/amendment.py:247-268 | folding the committed legs from the first frame reproduces every frame of an admitted ledger |
| Ledger.FirstCommitStatesTheStart | ugk/amendment.py:256-268 | the first record committing a leg states the value the ledger started from |
| Ledger.RecordsDetermineHistory | ugk/amendment.py:247-268 | two admitted histories of the same records agree on law everywhere, and on each leg some record commits or both start alike |
| Ledger.WalkLedger | ugk/conformance/amendment_admissibility_gate.py:78-96 | from a given start frame, the frame-evolving walk accepts exactly the admitted ledgers and ends at the replayed head frame |
| Ledger.WalkIsComplete | ugk/conformance/amendment_admissibility_gate.py:78-96 | the replayed history is admitted exactly when some history of those records from that frame is |
| LedgerGate.ValidateLedger | ugk/conformance/amendment_admissibility_gate.py:50-99 | accepts exactly when the first genesis record departs from the first record's prior law, the legend and schema starts are derivable, and the records have an admitted history ending live |
| LedgerGate.FirstMentioned | ugk/conformance/amendment_admissibility_gate.py:75-76 | the first non-empty prior value of the leg, or the live value |
| LedgerGate.StartIsTrueIff | ugk/conformance/amendment_admissibility_gate.py:71-77 | the derived start is the true one exactly when the genesis record is dated from the first and, for each leg, the first mentioned prior agrees with the first commit, or with the live value if none |
| LedgerGate.PassesIff | ugk/conformance/amendment_admissibility_gate.py:50-99 | the gate passes exactly the ledgers with an admitted history ending live whose start is derivable |
| LedgerGate.DanglingPriorMisleadsTheGate | ugk/conformance/amendment_admissibility_gate.py:75-77 | a record mentioning a legend it does not move is admitted, and the gate refuses its ledger |
| LedgerGate.GenesisAlonePasses | ugk/conformance/amendment_admissibility_gate.py:50-99 | the one-record genesis ledger of any working signer passes against the frame it leads to |
| Ledger.SuccessorsAreDistinct | ugk/amendment.py:315-320 | no two records of an admitted ledger lead to the same frame |
| Ledger.AtMostOneReturn | ugk/amendment.py:315-320 | at most one record leads back to the start frame |
| Ledger.SeedingRefusesOnlyTheReturn | ugk/amendment.py:315-320 | counting the start as seen refuses exactly the records leading to it and changes no other verdict |
| Ledger.FramesDistinctIffSeeded | ugk/amendment.py:300-320 | a ledger is admitted with all frames distinct, its start included, exactly when it is admitted with the start counted as seen |
| Ledger.ReturnIffStated | ugk/amendment.py:247-320 | a record leads back to the start exactly when it arrives at the first prior law and each leg's last commit arrives where its first commit departed |
| Ledger.FramesDistinctIffNoReturnStated | ugk/amendment.py:247-320 | the frames of an admitted ledger are distinct, the start included, exactly when no record states such a return |
| Ledger.LaterRecordsMove | ugk/amendment.py:300-320 | every record after the first moves the law or a leg it commits |
| Ledger.AmendmentArchive.Append | ugk/amendment.py:143-152 | the archive grows by exactly that record |
| Ledger.AmendmentArchive.RecordForTransition | ugk/amendment.py:157-161 | the earliest record with that prior and successor law, or nothing exactly when there is none |
| Ledger.LookupIsExactIff | ugk/amendment.py:157-161 | in every admitted ledger the lookup of a record's transition finds a record, and finds that one exactly when the first with its pair of law hashes equals it |
| Ledger.DistinctRecordsLookupIff | ugk/amendment.py:157-161 | where no record repeats, exactly when no earlier record has the same pair |
| Ledger.ChainedLookupIff | ugk/amendment.py:157-161 | where every later record commits its predecessor and the digest is injective, exactly when no earlier record has the same pair |
| Ledger.LawLedgerLookupIsExact | ugk/amendment.py:157-161 | in a ledger that moves only law, each transition's lookup returns its unique record |
| Ledger.AdmittedIsHashChained | ugk/amendment.py:321-331 | admission of every record makes the ledger a verified record-hash chain |
| Ledger.SameHeadSameSuffix | ugk/amendment.py:103-120 | under an injective digest, ledgers with equal head hash agree back to and including the first record committing no predecessor |
| Ledger.HeadHashIdentifiesLedger | ugk/amendment.py:321-331 | if every later record commits its predecessor, equal head hashes mean equal ledgers |
| LedgerBoundaries.StartFrameCanReturn | ugk/amendment.py:315-320 | any working signer can have a chained ledger admitted whose second record returns to its start frame |
| LedgerBoundaries.SecondSchemaMoveIsShadowed | ugk/amendment.py:157-161 | any working signer can have a ledger admitted in which the lookup for a second schema move returns the first |
| LedgerBoundaries.CopyIsAdmittedIff | ugk/amendment.py:228-332 | a verbatim copy of an admitted record is admitted next exactly when the head matches its prior legs, its frame is new, the last record is the predecessor it commits, and its key is active or the copy historical |
| LedgerBoundaries.CopyNeedsAnotherLegMoved | ugk/amendment.py:256-320 | a copy is only admitted after a leg it does not commit has moved |
| LedgerBoundaries.NoCopyWhileOnlyLawMoves | ugk/amendment.py:300-320 | while only the law moves no record is admitted twice |
| LedgerBoundaries.CopyRepeatsItsPredecessor | ugk/amendment.py:321-331 | under an injective digest, a record committing its predecessor is repeated only behind a copy of that predecessor |
| LedgerBoundaries.LawMoveCanBeRepeated | ugk/amendment.py:300-320 | any working signer can have the same law move admitted twice around a schema move |

## Left out

- SHA-256, canonical JSON bytes and Ed25519 themselves: they enter as parameters.
- Unicode normalization and case folding in `canonicalize`: any deterministic function is allowed, and none is assumed idempotent.
- SQLite, files, JSON parsing and swallowed I/O exceptions in the stores and loaders: tables are sequences of rows and archives sequences of records.
- Namespace.Kernel.Execute: models the gate decision and the receipts of an operation without effect; governor signatures, declared-op checks, capability, locality, intent and warrant preconditions of `execute` are not modelled, because they only add refusals.
- NamespaceRuns.StaleGatesAreHarmless: the source runs gate and append in one call; the model lets any receipts be written in between, which is more general.
- Receipt parameters that are not strings, and `canonicalize(None)`: an absent name and an empty one are the same here.
- KeyEras.AdmittedStaysNewIff: keys are compared as bytes, while the source compares their hex spelling.
- LedgerGate.ValidateLedger: the gate's other acceptance checks (pinned genesis hash, negative cases, demonstrations on synthetic records) are not modelled.
- Frames with missing legs: `is_admissible` raises on them; here a frame always has its three legs.
- The text of refusal details: refusals carry a reason code.
- Inception certificates, rotation rules, the validator-set seal signature, `SuccessorLineage.verify_hash`: single hashes or signatures over one record.
- The kernel's fallback choice of `intent_ref` and its scoped-intent filter (`ugk/kernel.py:1613-1669`): they filter the list given to coverage.
- Witness, decision, freshness, scope, charter, summary and lineage modules, the command line, generators and release scripts.
