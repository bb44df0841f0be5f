# Verified models of Brainarbeit's protocols and stores

Brainarbeit runs agent sessions in micro-VMs behind a portal. This project models the parts of it that
are protocols, stores and cursors, and proves what they are for. One module covers one component or a part of
it; theorems about whole runs stand in modules of their own where a component is large.

| component | modules | question answered |
|---|---|---|
| Canonical JSON and signing strings | `Bytes`, `Canonical`, `CanonicalParse`, `CanonicalForm`, `SigningString`, `Envelope` | Which values and requests are signed over the same bytes? |
| Replay memory and request verifier | `NonceTable`, `NonceMemory`, `NonceHistory`, `NonceEviction`, `Verifier`, `AcceptedRequests`, `ReplaySafety` | What does a bounded, evicting memory still refuse? Which envelopes are accepted? When can an envelope pass twice? |
| Key registry and enrollment | `Registry`, `RegistryRules`, `Enrollment`, `EnrollmentRules`, `EnrollmentSafety`, `TrustedRequests` | How does a key get in, what can never be undone, and what does an accepted request say about its key? |
| Two-way file exchange | `ExchangeSync`, `ExchangeConvergence` | Does a pass lose anything, and does the next one rest? |
| Package installation | `PackageWalk`, `PackageChains`, `PackageIndex`, `ArArchive`, `ArVisits`, `Orbits` | When is the install order complete with dependencies first? Does the index find the right record? Is an archive read as it was written, and when does reading end? |
| WebSocket framing | `Frames`, `PortalFrames`, `AgentFrames`, `KeyboardFrames`, `KeyboardCuts` | Do the three implementations of RFC 6455 read what the others write, however the stream is cut? When does the cut matter? |
| Cast messages | `CastMessage` | Do the hand-written protobuf encoder and decoder fit? |
| Cursors over logs | `LogLines`, `LogTail`, `LogTailRuns`, `EventScan`, `EventRereads` | Is each line handed out exactly once, and when does a cursor move? |
| Channel adapter | `ChannelAdapter`, `ChannelDelivery`, `ChannelRules` | What is relayed? Do threads and sessions stay matched, and events stay in order? |
| Renewal dates | `Renewal` | Is it the next anniversary, in a real calendar? |
| Framebuffer blits | `Framebuffer`, `ScreenBuffer` | For which rectangles is the copy order right? For which does a write stay in its rectangle? |

State that the program updates in place is a class here (`NonceCache`, `KeyRegistry`,
`EnrollmentManager`, `RequestVerifier`, `Exchange`, `Installer`, `Conn`, `WS`, `RfbSink`, `Screen`,
`EventScanner`, `ChannelWorker`, `ArReader`). Its methods are proved equal to functions on values, and the theorems
about single steps and whole runs are lemmas about those functions.

## What turned out otherwise

Eleven things do not hold of the code as one would state them first. In each case the code is modelled as it
is, and the exact condition is proved.

- **Replay boundary.** `NonceCache` forgets a nonce at `c + 2 * skew`, while the skew window, both ends
  included, may still admit the envelope at that instant. `ReplaySafety.SecondAcceptanceExactly` says when an
  envelope passes twice; `ReplaySafety.AcceptedOnTheBoundary` gives the case.
- **Null arguments.** A request with `args` null and one with `args` `{}` are signed over the same bytes
  (`SigningString.NullSignsLikeEmpty`); apart from this the signing bytes determine the request.
- **Deep files.** The sync's documentation promises a depth of at most 4 and windows of 4 MB; the code
  lists paths of up to five components, pushes files from any depth, and copies in chunks of 128 KiB. A file below the fifth
  component is sent in every pass and overwrites a newer remote one: `ExchangeConvergence.SecondPassExactly`,
  `ExchangeConvergence.DeepAlwaysSent`.
- **Install order.** It is complete with dependencies first, whatever order dependencies and wanted packages come in,
  if and only if no chain of packages to install that starts at a wanted one has more than twelve edges:
  `PackageChains.CompleteExactly`. Cycles are such chains.
- **Overlapping copies.** The row order chosen for CopyRect is the reverse of the safe one.
  `Framebuffer.CopyRectExactly` gives the rectangles it is right for; `Framebuffer.MirroredOrderIsRight` proves the
  opposite choice right for all.
- **The sentinel in a transcript.** A line that contains `__XT__` stops the transcript cursor for good
  (`LogTail.SentinelBlocks`). `LogTail.AdvancesExactly`: the cursor moves if and only if the first line fits the window,
  has arrived, and does not hold the sentinel.
- **A short size reading.** A size reading below the offset, such as the 0 that stands for a failed `wc`, sends the
  transcript cursor back to the start. `LogTailRuns.OnceExactly`: over any run each line is handed out once if and
  only if every such reading comes while no line in front of the cursor is one to hand out.
- **Rewritten event files.** An offset behind the end of a file is taken for 0, but not once the file has grown past it.
  `EventRereads.NothingSkippedExactly`: from right after a file was cut, removed or written anew, each of its lines is found
  if and only if reading begins at the start or behind white space, and no growth takes the file to an offset of an
  earlier, longer content unless behind white space.
- **Negative sizes.** The archive reader accepts a signed size and can go back. `ArVisits.EndsExactly`: reading ends if
  and only if no position comes back, which shows within twice as many members as there are bytes;
  `ArVisits.EndsWhenMoving` gives the headers that suffice, `ArVisits.ReadForEver` two archives that are read without end.
- **Rectangles outside the frame.** They come off the wire unchecked. `ScreenBuffer.RawExactly`: a raw write changes
  exactly its rectangle, and keeps the size of the buffer, if and only if it is empty or lies inside the frame.
  `ScreenBuffer.CopySizeExactly` says the same of a copy and the size of the buffer.
- **Close frames.** What the keyboard client's `_wsrecv` answers can depend on how the stream is cut.
  `KeyboardCuts.DependsOnTheCutExactly`: it does if and only if more bytes are asked for than are there, they are still to
  come, and a close frame ends less than one `recv` behind them; `KeyboardCuts.CloseDependsOnTheCut` gives two such cuts.

## Assumptions

- Ed25519, SHA-256 and base64url decoding are function parameters. That two digests differ when the digested texts do is
  assumed only where a lemma says so, and only for the two texts at hand. Key ids are never empty.
- Clock readings, random masks, transport answers, failing transfers, size readings and the number of bytes that
  arrive before a time limit are parameters of the steps, and arbitrary unless a lemma names a condition.
- Each poll of a transcript sees its own output alone. The code drops what the connection holds before it sends a
  command; output of an earlier command that comes later still, after a time limit or behind a sentinel inside a line, is
  not modelled.
- Strings are sequences of Unicode scalar values. Logs are bytes, and a newline is the only line break in them.

## Model

| member | source | states |
|---|---|---|
| Bytes.Utf8Injective | cockpit/identity/canonical.py:109-111 | different texts have different UTF-8 encodings |
| Bytes.EncodeCharExactly | cockpit/identity/canonical.py:109-111 | the bytes of a character in its shortest form: their number, lead and continuation bytes, and the code point they add up to (RFC 3629, section 3) |
| Bytes.Utf8Append | cockpit/identity/canonical.py:109-111 | the encoding of a text is that of its characters, in order |
| Canonical.KeyLessStrictTotal | cockpit/identity/canonical.py:79-82 | the order by UTF-16 code units is irreflexive, transitive and total on distinct keys (RFC 8785, section 3.2.3) |
| Canonical.NotCodePointOrder | cockpit/identity/canonical.py:79-82 | that order is not the order of code points: two keys on which they differ |
| CanonicalForm.KeyOrderExactly | cockpit/identity/canonical.py:79-82 | which order it is: a proper prefix comes first; at the first difference two characters below U+10000, or two above, compare by code point, and one above lies between U+D7FF and U+E000 |
| CanonicalForm.MembersInOrder | cockpit/identity/canonical.py:97-106 | a dict is printed with each of its members once, any two of them in that order |
| CanonicalForm.ItemsJoined | cockpit/identity/canonical.py:95-96 | items are joined by a comma and nothing else |
| CanonicalForm.MembersJoined | cockpit/identity/canonical.py:97-106 | so are members |
| CanonicalForm.OneMember | cockpit/identity/canonical.py:97-106 | a member is its quoted key, a colon and its value |
| CanonicalForm.EscapesExactly | cockpit/identity/canonical.py:53-77 | the escape of every character: seven short ones, `\u00` and two lower-case hexadecimal digits for the other control characters, and none for anything else (RFC 8785, section 3.2.2.2) |
| CanonicalForm.DecimalExactly | cockpit/identity/canonical.py:36-51 | integers have no leading zero, and a minus sign exactly if they are negative |
| Canonical.JcsString | cockpit/identity/canonical.py:53-77 | the loop yields the quoted text with every character escaped as section 3.2.2.2 of RFC 8785 asks |
| CanonicalParse.StringRoundTrip | cockpit/identity/canonical.py:53-77 | a parser reads every quoted string back, whatever follows it |
| CanonicalParse.IntRoundTrip | cockpit/identity/canonical.py:36-51 | a parser reads every printed integer back |
| CanonicalParse.RoundTrip | cockpit/identity/canonical.py:84-107 | printing is invertible: parsing the printed text of any value gives the value with its dicts in key order and leaves what follows |
| CanonicalParse.KeyOrderKeepsMeaning | cockpit/identity/canonical.py:84-107 | putting dicts in key order does not change the value they stand for |
| CanonicalParse.OrderIndependent | cockpit/identity/canonical.py:84-107 | values equal up to insertion order, at any depth, print alike |
| CanonicalParse.CanonicalExactly | cockpit/identity/canonical.py:84-111 | two values have the same canonical bytes if and only if they have the same meaning: the same scalars, items and members, the order of members aside |
| SigningString.JoinLinesInjective | cockpit/identity/canonical.py:149-162 | lines without line breaks are determined by their joined text |
| SigningString.SigningBytesExactly | cockpit/identity/canonical.py:113-162 | two requests are signed over the same bytes if and only if their text fields and times agree and their arguments have the same meaning |
| SigningString.SignedText | cockpit/identity/canonical.py:121-162 | the signed text line by line, in its order, and the refusal of a text field with a line break, as an if and only if |
| SigningString.NullSignsLikeEmpty | cockpit/identity/canonical.py:113-115 | the one exception: null arguments sign like an empty object |
| NonceTable.EvictOneTotal | cockpit/identity/verifier.py:74-83 | one global eviction lowers the total by exactly one whenever it is positive, so the eviction loop ends |
| NonceTable.EvictBelowBuckets | cockpit/identity/verifier.py:85-113 | global eviction only drops the oldest nonces of a bucket and empties none that it keeps, the caller's own aside |
| NonceEviction.EvictOneFlat | cockpit/identity/verifier.py:74-83 | with all buckets laid one behind the other in the order of the principals, one global eviction drops exactly the first nonce |
| NonceEviction.EvictBelowFlat | cockpit/identity/verifier.py:103-110 | the loop drops exactly as many from the front as have to go for one more to fit, and none if it fits already |
| NonceEviction.FreshExactly | cockpit/identity/verifier.py:85-113 | the memory after a fresh nonce: the principal's own bucket is freed first, the global cap then drops just the excess from the front of all, the nonce goes to the end of its bucket; once the cap is met the total stays at it |
| NonceHistory.StepKeepsCaps | cockpit/identity/verifier.py:85-113 | one call, whatever the clock reads, keeps the total equal to the sum of bucket sizes, both caps, distinct nonces and no empty bucket |
| NonceHistory.RunExists | cockpit/identity/verifier.py:85-113 | every list of calls has a run |
| NonceHistory.RunKeepsCaps | cockpit/identity/verifier.py:65-113 | those invariants hold in every table of every run |
| NonceHistory.RunRemembers | cockpit/identity/verifier.py:65-113 | a principal's bucket is always a suffix of everything ever accepted from it, in expiry order; with the global cap unreached nothing is missing but expired entries and those beyond the principal's own cap |
| NonceHistory.RefusesTheWindow | cockpit/identity/verifier.py:65-113 | refinement of the full history: a refused nonce is among the principal's newest accepted unexpired ones, and with the global cap unreached exactly those are refused and the bucket is exactly that window |
| NonceMemory.NonceCache.constructor | cockpit/identity/verifier.py:48-63 | an empty memory whose entries live twice the skew |
| NonceMemory.NonceCache.ExpireBucket | cockpit/identity/verifier.py:65-72 | drops exactly the expired front of a bucket and keeps the total right |
| NonceMemory.NonceCache.EvictOneGlobal | cockpit/identity/verifier.py:74-83 | drops the oldest nonce of the first bucket that has one, and the bucket if it becomes empty |
| NonceMemory.NonceCache.CheckAndRecord | cockpit/identity/verifier.py:85-113 | the imperative call has the verdict and the table of the specification and keeps all invariants |
| NonceMemory.NonceCache.Seen | cockpit/identity/verifier.py:115-120 | true exactly for a nonce in the bucket that has not expired |
| Verifier.RequestVerifier.VerifyRequest | cockpit/identity/verifier.py:142-250 | the imperative verify returns the result of the specification and changes nothing but the replay memory, and that only after every other check has passed |
| AcceptedRequests.AcceptedExactly | cockpit/identity/verifier.py:142-250 | an answer is given if and only if the envelope says, field by field, what the answer reports, under this contract and type; the nonce has the asked form; the key is approved, bound to that principal and role, and has signed exactly that; the time is within the skew; and the nonce is not refused |
| AcceptedRequests.CheckedExactly | cockpit/identity/verifier.py:142-223 | the same for the checks made before the clock is read |
| AcceptedRequests.NonceExactly | cockpit/identity/verifier.py:20-31 | a nonce is 8 to 64 letters, digits, or one of `-_=` |
| AcceptedRequests.LateRefusals | cockpit/identity/verifier.py:225-237 | of requests that pass those checks exactly those outside the skew are stale, and the others are accepted or replays |
| AcceptedRequests.MemoryExactly | cockpit/identity/verifier.py:225-237 | the replay memory changes only for a request that was made and signed as it says, and in time |
| AcceptedRequests.KeyRefusals | cockpit/identity/verifier.py:168-197 | an unknown, a pending, a revoked key and one of another principal are refused, each for its own reason |
| ReplaySafety.AcceptedAgainExactly | cockpit/identity/verifier.py:85-113 | with no cap reached and no acceptance in between, an accepted nonce is accepted again if and only if the reading is its expiry or later |
| ReplaySafety.VerifierRunExists | cockpit/identity/verifier.py:142-250 | every list of verifies has a run |
| ReplaySafety.NonceRefused | cockpit/identity/verifier.py:85-113 | a principal's nonce accepted at memory reading c is refused below c + 2 * skew, in whatever envelope it comes |
| ReplaySafety.NeverTwice | cockpit/identity/verifier.py:225-237 | the same envelope is stale above c + 2 * skew; a second acceptance needs readings that meet or straddle that instant |
| ReplaySafety.SecondAcceptanceExactly | cockpit/identity/verifier.py:225-237 | when a second acceptance does happen, as an if and only if on the two readings |
| ReplaySafety.AcceptedOnTheBoundary | cockpit/identity/verifier.py:225-237 | the boundary is real: an envelope dated ahead by the skew passes at once and again 2 * skew later |
| Registry.RecordRoundTrip | cockpit/identity/registry.py:92-101 | reading a saved record gives the record back |
| Registry.SaveLoadRoundTrip | cockpit/identity/registry.py:77-161 | a registry of valid records is accepted by the next load and restored, order included |
| Registry.LoadedIsValid | cockpit/identity/registry.py:77-135 | whatever file is loaded, fields that are not checked holding anything, the records that come out are valid and stored under their own key ids |
| RegistryRules.FieldMeans | cockpit/identity/registry.py:77-81 | what is looked up in a dict is what it stands for under that name |
| RegistryRules.DescribesExactly | cockpit/identity/registry.py:82-102 | the dict a record is made of, field by field: no unknown field, the required ones present, the others as given or by default |
| RegistryRules.ValidExactly | cockpit/identity/registry.py:110-135 | which records are valid: a known role and status, a principal, and the key id that the key itself gives |
| RegistryRules.LoadExactly | cockpit/identity/registry.py:77-108 | a file is taken if and only if it names the schema and lists such records under distinct key ids; the registry then holds just those, in that order |
| Registry.KeyRegistry.LoadFile | cockpit/identity/registry.py:77-108 | the imperative load: its result or its refusal, leaving the records alone when it refuses |
| Registry.KeyRegistry.Save | cockpit/identity/registry.py:137-161 | after a save the file holds the records |
| Registry.KeyRegistry.Upsert | cockpit/identity/registry.py:192-195 | exactly one record is put and the file follows |
| Registry.KeyRegistry.SetStatus | cockpit/identity/registry.py:197-218 | exactly one record changes status, with its time and approver stamped as that status requires |
| Registry.KeyRegistry.LinkRotation | cockpit/identity/registry.py:220-226 | exactly the two records present are linked to each other |
| Registry.KeyRegistry.ActiveOwner | cockpit/identity/registry.py:181-186 | true exactly if an owner key is active |
| Enrollment.EnrollmentManager.BootstrapOwner | cockpit/identity/enrollment.py:45-69 | registry and outcome are those of the specification, refusals included |
| Enrollment.EnrollmentManager.RequestKey | cockpit/identity/enrollment.py:71-190 | the same, with every refusal in the order of the checks |
| Enrollment.EnrollmentManager.ApproveKey | cockpit/identity/enrollment.py:192-226 | the same, with the guard against claiming a principal that already has active keys |
| Enrollment.EnrollmentManager.DenyKey | cockpit/identity/enrollment.py:228-241 | the same: only a pending key is removed |
| Enrollment.EnrollmentManager.RevokeKey | cockpit/identity/enrollment.py:243-255 | the same |
| Enrollment.EnrollmentManager.RotateKey | cockpit/identity/enrollment.py:257-292 | the same: a pending successor linked to the old key |
| Enrollment.EnrollmentManager.DelegateKey | cockpit/identity/enrollment.py:294-345 | the same, under the chain-of-trust policy only |
| EnrollmentRules.RefusedChangesNothing | cockpit/identity/enrollment.py:45-345 | a refused operation, whichever it is, leaves the registry as it was |
| EnrollmentRules.BootstrapExactly | cockpit/identity/enrollment.py:45-69 | an owner is bootstrapped if and only if no active owner exists and the key decodes and is new; the record it puts, field by field |
| EnrollmentRules.ClaimsExactly | cockpit/identity/enrollment.py:104-174 | the claims are accepted if and only if the envelope, field by field, is an enroll.request that makes them and the presented key has signed it; a bad signature is reported exactly if everything else is in order |
| EnrollmentRules.RequestExactly | cockpit/identity/enrollment.py:71-190 | a key is put as pending if and only if in addition the role is member or guest, the principal is neither empty nor "owner", and the key decodes and is new; it is marked exactly if its principal has active keys |
| EnrollmentRules.ApproveExactly | cockpit/identity/enrollment.py:192-226 | approval, exactly: by an active owner, of a key that is not revoked, in the role expected, and of a marked one only on purpose; what is stamped, and that approving again changes nothing |
| EnrollmentRules.DenyExactly | cockpit/identity/enrollment.py:228-241 | denial, exactly: by an active owner, of a pending key, which alone is removed from its place |
| EnrollmentRules.RevokeExactly | cockpit/identity/enrollment.py:243-255 | revocation, exactly: by an owner's key or the key's own principal; what is stamped, and that revoking again changes nothing |
| EnrollmentRules.RotateExactly | cockpit/identity/enrollment.py:257-292 | rotation, exactly: who may rotate which key to what, the pending successor field by field, and the link both ways |
| EnrollmentRules.DelegateExactly | cockpit/identity/enrollment.py:294-345 | delegation, exactly: under the policy, by an active key, never to an owner; the approved record field by field |
| EnrollmentRules.ActorRefusals | cockpit/identity/enrollment.py:192-292 | who is told that the actor is no owner and who that there is no such key, as an if and only if |
| EnrollmentSafety.StepKeeps | cockpit/identity/enrollment.py:45-345 | every operation keeps the invariant (owner role exactly for principal "owner", key id derived from the key, `rotated_from` a present key of the same principal and role, approvers present), changes no principal or role, revives no revoked key, removes only pending keys, and approves only for someone entitled to |
| EnrollmentSafety.RunExists | cockpit/identity/enrollment.py:45-345 | every list of operations has a run |
| EnrollmentSafety.RunSound | cockpit/identity/enrollment.py:45-345 | the invariant holds in every reachable registry |
| EnrollmentSafety.ReachableReloads | cockpit/identity/registry.py:77-161 | what is saved of any reachable registry loads back to exactly that registry |
| EnrollmentSafety.SettledForever | cockpit/identity/enrollment.py:228-255 | over any number of operations a key that has left the pending state stays, keeps its principal and role, and stays revoked once revoked |
| EnrollmentSafety.Provenance | cockpit/identity/enrollment.py:192-241 | every key ever approved was let in by one step of the run: bootstrapped with no owner active, or by a key active at that moment that the record still names |
| EnrollmentSafety.ChainEndsAtOwner | cockpit/identity/enrollment.py:294-355 | following `enrolled_by` never cycles and ends at a bootstrapped owner |
| TrustedRequests.AcceptedIsChecked | cockpit/identity/verifier.py:142-250 | what is accepted has passed every check made before the clock is read |
| TrustedRequests.CheckedIsTrusted | cockpit/identity/verifier.py:142-223 | a request that passes those checks against a reachable registry carries a valid signature of an active key, its id derived from it, bound to the principal and role reported, whose `enrolled_by` chain ends at a bootstrapped owner |
| TrustedRequests.RevokedIsNeverAccepted | cockpit/identity/verifier.py:177-181 | a key that was ever revoked signs no request that passes the checks later |
| ExchangeSync.Exchange.WalkRemote | cockpit/server/cell_exchange_sync.py:65-80 | the recursive listing holds exactly the unskipped files of at most five components, with size and time |
| ExchangeSync.Exchange.Fetch | cockpit/server/cell_exchange_sync.py:92-120 | the chunked copy yields the content when its size is the listed one |
| ExchangeSync.Exchange.Upload | cockpit/server/cell_exchange_sync.py:122-156 | the chunked upload yields the content |
| ExchangeSync.Exchange.Pull | cockpit/server/cell_exchange_sync.py:92-120 | moves a file exactly when it is at most 2 GiB, newer by more than two seconds or new, fits the tree and does not fail; the file then has the content of its source and its time in whole seconds, and nothing else changes |
| ExchangeSync.Exchange.Push | cockpit/server/cell_exchange_sync.py:122-156 | the same in the other direction, against the listing taken before the pulls |
| ExchangeSync.Exchange.Once | cockpit/server/cell_exchange_sync.py:158-173 | both sides after a pass, and the number returned, for any transfers that fail and any order of the two walks; both sides are trees again, so passes chain |
| ExchangeConvergence.PassExactly | cockpit/server/cell_exchange_sync.py:65-173 | one pass path by path, whatever fails: which files are pulled and which pushed, by size, depth, names, times and place, with the content and the time they then have, and that all others stay |
| ExchangeConvergence.SkipExactly | cockpit/server/cell_exchange_sync.py:61-63 | the names that are skipped |
| ExchangeConvergence.NothingLost | cockpit/server/cell_exchange_sync.py:158-173 | whatever fails, every file stays as it was or is replaced by the other side's newer one, and nothing appears that neither side held |
| ExchangeConvergence.BothSidesHold | cockpit/server/cell_exchange_sync.py:158-173 | a pass without failures leaves every syncable path of either side on both sides, with the newer content wherever the times differ by more than EPS |
| ExchangeConvergence.SecondPassExactly | cockpit/server/cell_exchange_sync.py:65-173 | the next pass pulls nothing, changes nothing, and pushes exactly the deep files, so it transfers nothing if and only if there are none |
| ExchangeConvergence.DeepAlwaysSent | cockpit/server/cell_exchange_sync.py:68-69 | a file below the fifth component overwrites its remote counterpart in every pass |
| PackageWalk.Installer.Walk | cockpit/server/pn_pkg.py:378-391 | the recursive closure changes `seen` and `todo` as the specification does, and ends on every graph |
| PackageWalk.Installer.Plan | cockpit/server/pn_pkg.py:393-394 | the records collected are those of the specified order |
| PackageWalk.OrderIsNeeded | cockpit/server/pn_pkg.py:376-394 | on every graph the order lists only packages to install that are needed over at most twelve edges, each once |
| PackageWalk.OrderIsComplete | cockpit/server/pn_pkg.py:376-394 | if no chain of packages to install that starts at a wanted one has more than twelve edges, the order is exactly the packages needed, with every dependency before its dependents; names that are installed or unknown do not count |
| PackageWalk.InTurn | cockpit/server/pn_pkg.py:393-394 | packages are taken in the order asked for: asking for more only adds behind |
| PackageWalk.DepsInOrder | cockpit/server/pn_pkg.py:145-155 | the first alternative of each dependency group counts, in the order of the groups, unless the base image or the noise list covers it |
| PackageChains.CompleteExactly | cockpit/server/pn_pkg.py:376-394 | the order is complete with dependencies first, for every order of the same dependencies and of the same wanted names, if and only if that bound on chains holds |
| PackageChains.PlacesFall | cockpit/server/pn_pkg.py:376-394 | in any order with dependencies first, places fall along every chain of packages to install |
| PackageChains.LongChainBreaks | cockpit/server/pn_pkg.py:378-391 | asked for first and walked down first, a chain of thirteen edges lists the package at depth twelve before its dependency |
| PackageChains.CycleBreaksOrder | cockpit/server/pn_pkg.py:376-394 | no order that lists a package of a cycle, of any length, puts dependencies first |
| PackageChains.ThirteenEdgesDrop | cockpit/server/pn_pkg.py:379 | on a ladder of dependencies the package thirteen edges away is needed and is dropped |
| PackageChains.LadderExists | cockpit/server/pn_pkg.py:379 | there is such a ladder |
| PackageWalk.RecordsOnce | cockpit/server/pn_pkg.py:376-394 | if every name resolves to its own record, no record is listed twice |
| PackageIndex.BuildOffsets | cockpit/server/pn_pkg.py:110-115 | the loop computes the offset of the last line of each name |
| PackageIndex.OffsetsPointAtLast | cockpit/server/pn_pkg.py:110-115 | a name has an offset exactly if a record has it, and reading there gives the last such record |
| PackageIndex.LookupReadsLast | cockpit/server/pn_pkg.py:110-143 | a lookup returns the last record of the name, or of the package that provides it, or nothing |
| PackageIndex.ParseExactly | cockpit/server/pn_pkg.py:141-143 | a line with fewer than six fields leaves the others empty, and of one with more the first six count |
| ArArchive.ArReader.NextMember | cockpit/server/pn_pkg.py:170-184 | one round of the generator: the member at the position, the position behind it, the end, or the refusal of a blob without the magic |
| ArArchive.SizeRoundTrip | cockpit/server/pn_pkg.py:178-179 | every padded decimal size is read back |
| ArArchive.DigitsExactly | cockpit/server/pn_pkg.py:178-179 | which texts are taken for a number without a sign: digits, with single underscores between them |
| ArArchive.EntryIsRead | cockpit/server/pn_pkg.py:174-184 | a written member, its name with or without the closing slash, is read with its name and data, wherever it stands |
| ArArchive.ReadsEntries | cockpit/server/pn_pkg.py:170-184 | reading a written archive yields exactly its members, in order, and then ends |
| ArArchive.NegativeSize | cockpit/server/pn_pkg.py:178-179 | every negative size is read back too |
| ArVisits.MovesExactly | cockpit/server/pn_pkg.py:178-184 | the position moves on if and only if the size is above -60, and stays where it is if and only if it is -60 or -61 |
| ArVisits.EndsExactly | cockpit/server/pn_pkg.py:174-184 | reading ends if and only if no position visited comes back, and if and only if it has ended after twice as many members as there are bytes |
| ArVisits.EndsWhenMoving | cockpit/server/pn_pkg.py:174-184 | if every header visited names a size above -60, reading ends |
| ArVisits.ReadForEver | cockpit/server/pn_pkg.py:170-184 | archives with the magic that are read for ever: one member of size -60, and two of sizes 0 and -120 |
| Frames.MaskedTwice | clients/win-agent/win_input_agent.py:102 | masking twice with the same mask gives the data back (RFC 6455, section 5.3) |
| Frames.MaskedBitwise | cockpit/server/pn_portal.py:120-121 | masking flips each bit exactly where the mask, repeated every four bytes, has a one |
| Frames.FrameLayout | clients/win-agent/win_input_agent.py:91-103 | the bytes of a frame: final bit, opcode, mask bit, the length in one, two or eight bytes with the highest first, mask and payload (RFC 6455, section 5.2) |
| Frames.HeaderRoundTrip | clients/win-agent/win_input_agent.py:91-103 | all three length forms of a header are parsed back (RFC 6455, section 5.2) |
| Frames.TakesEncoded | cockpit/server/pn_portal.py:84-122 | an encoded frame within the limit is taken off the stream, unmasked, and nothing behind it is touched |
| PortalFrames.SendText | cockpit/server/pn_portal.py:66-76 | what is sent is one final unmasked text frame with the payload |
| PortalFrames.RecvN | cockpit/server/pn_portal.py:86-93 | exactly n bytes of the stream, or nothing at its end |
| PortalFrames.ReadFrameFrom | cockpit/server/pn_portal.py:84-122 | the frame read depends on the stream alone and not on how it arrives in pieces |
| PortalFrames.ReadsEncoded | cockpit/server/pn_portal.py:84-122 | every frame of up to 8 MiB, masked or not, is read back with its opcode and payload |
| PortalFrames.ReadsNothing | cockpit/server/pn_portal.py:84-122 | a longer frame is refused, and so is one that the end of the stream cuts off anywhere |
| AgentFrames.WS.RecvExact | clients/win-agent/win_input_agent.py:48-55 | exactly n bytes of buffer and stream, or the end |
| AgentFrames.WS.Recv | clients/win-agent/win_input_agent.py:57-89 | the message, the error and the pongs sent depend on the stream alone |
| AgentFrames.WS.Send | clients/win-agent/win_input_agent.py:91-103 | what is sent is one final masked frame with the next mask |
| AgentFrames.ReceivesMessage | clients/win-agent/win_input_agent.py:57-89 | a message of up to 16 MiB cut into fragments in any way, with pings and pongs between, is received as their concatenation, and every ping is answered in order with its payload (RFC 6455, sections 5.4 and 5.5) |
| AgentFrames.RecvStep | clients/win-agent/win_input_agent.py:57-89 | what one frame does, for every opcode and length: close, ping, pong, continuation or beginning, and the refusal of frames over 8 MiB and messages over 16 MiB |
| AgentFrames.RecvCut | clients/win-agent/win_input_agent.py:48-73 | a frame that the end of the stream cuts off anywhere yields nothing |
| AgentFrames.ReceivesPortalText | cockpit/server/pn_portal.py:66-76 | what the portal sends as a text, the agent receives |
| AgentFrames.PongIsRead | clients/win-agent/win_input_agent.py:78-79 | the portal reads one pong per ping, with the ping's payload |
| KeyboardFrames.DrainAppend | clients/pn_naskbd.py:147-166 | decoding a buffer in two steps is decoding it at once |
| KeyboardFrames.DrainsFrames | clients/pn_naskbd.py:150-160 | a stream of unmasked frames without a close decodes to its text and binary payloads |
| KeyboardFrames.RfbSink.WsRecv | clients/pn_naskbd.py:147-166 | answer and state are those of one call as a function of buffer, decoded bytes, pieces and n; without a close ahead, for every cut, calls return consecutive slices of the same bytes and fail exactly when too few are left |
| KeyboardCuts.AskAnswers | clients/pn_naskbd.py:147-166 | decoding as the bytes come answers what decoding everything that has arrived does |
| KeyboardCuts.AnswerSettled | clients/pn_naskbd.py:147-166 | where the cut does not matter: the answer for every cut |
| KeyboardCuts.DependsOnTheCutExactly | clients/pn_naskbd.py:147-166 | two cuts of a stream get different answers if and only if more is asked for than is there, it is still to come, and a close frame ends less than 65536 bytes behind the frame that completes it |
| KeyboardCuts.CloseDependsOnTheCut | clients/pn_naskbd.py:159-165 | a text and a close frame in one piece report the close, in two pieces yield the text |
| CastMessage.EncodeVarint | cockpit/server/pn_cast_display.py:162-168 | the loop writes the base-128 form of every natural number |
| CastMessage.DecodeVarint | cockpit/server/pn_cast_display.py:170-178 | the loop reads what the specification reads, on any buffer, cut off or not |
| CastMessage.VarintRoundTrip | cockpit/server/pn_cast_display.py:162-178 | reading inverts writing for every natural number, wherever it stands and whatever follows |
| CastMessage.VarintExactly | cockpit/server/pn_cast_display.py:162-168 | seven bits to a byte, lowest first, the high bit in all but the last, and no spare byte |
| CastMessage.DecodeCastMessage | cockpit/server/pn_cast_display.py:192-210 | decoding ends on any bytes and gives the last data of fields 4 and 6 |
| CastMessage.MessageRoundTrip | cockpit/server/pn_cast_display.py:180-210 | decoding an encoded body returns all six fields, source and destination among them, and so the namespace and the payload |
| CastMessage.BodyExactly | cockpit/server/pn_cast_display.py:180-190 | the bytes of the body: the key of each field in turn, and each text behind its length |
| CastMessage.OtherFields | cockpit/server/pn_cast_display.py:199-209 | fields of four and eight bytes are passed over, and any other wire type ends the reading |
| CastMessage.CutField | cockpit/server/pn_cast_display.py:203-205 | a field longer than the rest of the message holds that rest |
| CastMessage.LengthInFront | cockpit/server/pn_cast_display.py:187-190 | the four bytes in front give the length of the body |
| LogLines.DeliveredAppend | cockpit/server/pn_cell_transcript.py:561-568 | whole lines handed out piece by piece are those handed out at once |
| LogLines.LineDelivered | cockpit/server/pn_cell_transcript.py:561-568 | a line is handed out as it is, unless it holds nothing but white space |
| LogLines.CompletePartIsAll | cockpit/server/pn_cell_transcript.py:562-565 | no newline is left behind the whole lines |
| LogLines.SplitLines | cockpit/server/pn_cell_transcript.py:567 | the lines that are not blank, in order |
| LogTail.ReadTranscript | cockpit/server/pn_cell_transcript.py:547-568 | the imperative poll has the lines and the offset of the specification, for any size reading and any part of the output arriving |
| LogTail.ReadBus | cockpit/server/pn_cell_transcript.py:514-544 | the same for the unlimited window |
| LogTail.ConsumedIsWindow | cockpit/server/pn_cell_transcript.py:559-565 | whatever arrives of window and sentinel, what is taken is whole lines from the start of the window |
| LogTail.ReadsWindow | cockpit/server/pn_cell_transcript.py:547-568 | a poll whose output arrives, with the sentinel at its end, hands out all whole lines of the bytes asked for, which are at least 1024 and at most 900000, and moves the offset behind them |
| LogTail.BusReadsAll | cockpit/server/pn_cell_transcript.py:519-544 | the same for the unlimited window |
| LogTailRuns.ExactlyOnce | cockpit/server/pn_cell_transcript.py:514-568 | over every interleaving of appends and polls whose size readings reach the offset, the lines handed out are exactly the non-blank lines between start and offset, once, in order, and the offset stays at the start of a line |
| LogTail.ContainsMeans | cockpit/server/pn_cell_transcript.py:561 | what splitting looks for is any occurrence, and the first one is where it cuts |
| LogTail.AdvancesExactly | cockpit/server/pn_cell_transcript.py:558-568 | for whatever part of the output arrives, the cursor moves if and only if the first line fits the window, has arrived, and does not hold the sentinel |
| LogTail.BusAdvancesExactly | cockpit/server/pn_cell_transcript.py:519-544 | the same for the unlimited window |
| LogTail.SentinelBlocks | cockpit/server/pn_cell_transcript.py:561 | a line that holds the sentinel is never passed, whatever is appended or asked for later |
| LogTailRuns.ShortReadingRewinds | cockpit/server/pn_cell_transcript.py:552-557 | only a size reading below the offset sends the cursor back, and then it reads as from the start |
| LogTailRuns.OnceExactly | cockpit/server/pn_cell_transcript.py:514-568 | over any run at all, the lines in front of the start and those handed out are together those in front of the cursor if and only if no short reading came while a line in front of the cursor was one to hand out; otherwise lines have been handed out again, for good |
| EventScan.EventScanner.ScanEvents | cockpit/server/pn_hpc_safeguard.py:345-400 | offsets and events of the specification; writing the offsets back only after a change loses nothing |
| EventScan.EachPathAlone | cockpit/server/pn_hpc_safeguard.py:349-388 | paths do not disturb each other: each is treated as if scanned alone |
| EventScan.ExactlyOnce | cockpit/server/pn_hpc_safeguard.py:349-388 | over every interleaving of growing files and scans, whatever cannot be read in between, each non-blank line of a file is found once and in order |
| EventScan.FirstScan | cockpit/server/pn_hpc_safeguard.py:354-357 | the first scan finds nothing and passes over exactly the files it can size |
| EventScan.OnceFromFirstScan | cockpit/server/pn_hpc_safeguard.py:345-400 | from the first scan on, over every run: what a file held when it was first sized is passed over, and each later line is found once and in order |
| EventRereads.NothingSkippedExactly | cockpit/server/pn_hpc_safeguard.py:358-388 | from any state on, also right after a file was cut, removed or written anew, the lines found are those in front of the reading, as they are parsed, if and only if reading begins at the start or behind white space and no growth takes the file to the offset of an earlier, longer content unless behind white space |
| EventScan.GoneIsForgotten | cockpit/server/pn_hpc_safeguard.py:389-392 | the offset of a file that is gone is forgotten |
| EventScan.AdvancesExactly | cockpit/server/pn_hpc_safeguard.py:358-375 | an offset moves if and only if the file can be read and its next line ends within a mebibyte |
| EventScan.WindowExactly | cockpit/server/pn_hpc_safeguard.py:366-369 | at most a mebibyte behind the offset is looked at, and all of it |
| ChannelAdapter.ChannelWorker.EnsureTopic | cockpit/server/pn_chanadapter.py:484-507 | the thread of a session, made or renamed as the specification does |
| ChannelAdapter.ChannelWorker.CloseOrReopen | cockpit/server/pn_chanadapter.py:560-600 | deletion, closing, reopening and parking for every answer of the transport |
| ChannelAdapter.ChannelWorker.Handle | cockpit/server/pn_chanadapter.py:509-558 | verdict, binding and message sent for every kind of event |
| ChannelAdapter.ChannelWorker.DeliverPass | cockpit/server/pn_chanadapter.py:678-693 | a pass of at most 500 events is the specified one, the offset written behind each |
| ChannelAdapter.ChannelWorker.Receive | cockpit/server/pn_chanadapter.py:425-458 | binding, text passed on and replies sent for a message from the chat, whatever the store and the session answer |
| ChannelDelivery.TopicForExactly | cockpit/server/pn_chanadapter.py:498-506 | making a thread keeps threads and sessions matched if and only if its number was not in use |
| ChannelDelivery.AdoptedExactly | cockpit/server/pn_chanadapter.py:406-423 | adopting a thread keeps the match if and only if the session is new |
| ChannelDelivery.SetTopicKeeps | cockpit/server/pn_chanadapter.py:586-600 | parking keeps the match |
| ChannelDelivery.RunKeepsMatch | cockpit/server/pn_chanadapter.py:406-600 | over every run in which only new numbers are handed out, `topics` and `rev` stay each other's inverse |
| ChannelDelivery.RepliesComeBack | cockpit/server/pn_chanadapter.py:446-455 | an answer written in the thread that carried a session's message is said to that session |
| ChannelDelivery.RefusedExactly | cockpit/server/pn_chanadapter.py:509-558 | an event is refused if and only if it needs a thread that cannot be made, and then nothing changes |
| ChannelRules.RelayExactly | cockpit/server/pn_chanadapter.py:541-558 | a message reaches the chat if and only if it was written elsewhere, is no edit, is not ambient to a quiet binding, is not empty, is wanted, and has a thread where the chat has threads; its thread, its text with session and speaker, and the binding afterwards |
| ChannelRules.LifeExactly | cockpit/server/pn_chanadapter.py:509-540 | what each event in the life of a session does to the binding and says in the chat |
| ChannelRules.ThreadFateExactly | cockpit/server/pn_chanadapter.py:560-600 | when a thread is closed, reopened, parked or left for later, and what `closed`, `parked`, `topics` and `rev` then hold |
| ChannelRules.SaidExactly | cockpit/server/pn_chanadapter.py:446-458 | which messages from the chat are said to which session, and what is answered if it does not take them |
| ChannelRules.BindingExactly | cockpit/server/pn_chanadapter.py:406-458 | how every message from the chat changes the binding |
| ChannelDelivery.RunFollowsBus | cockpit/server/pn_chanadapter.py:678-693 | over every run the events put behind the worker are exactly the principal's events between the two offsets, once and in order |
| ChannelDelivery.PassStops | cockpit/server/pn_chanadapter.py:678-693 | a pass is a run of single deliveries and stops only when the limit is reached, no event is left, or one is refused |
| Renewal.EpochIs | cockpit/server/llmpool.py:142 | the month lengths add up to the day number of 1 January 1970 |
| Renewal.YearsAddUp | cockpit/server/llmpool.py:145 | the month lengths add up to the Gregorian years |
| Renewal.LengthExactly | cockpit/server/llmpool.py:145 | the length of each month |
| Renewal.CalendarRoundTrip | cockpit/server/llmpool.py:142-147 | writing a local date back as a timestamp inverts reading it |
| Renewal.LocalRoundTrip | cockpit/server/llmpool.py:142-147 | reading a timestamp inverts writing the local date |
| Renewal.LocalTimeExactly | cockpit/server/llmpool.py:142 | local time is ahead of UTC by the offset, and counts from the start of 1970 |
| Renewal.AnniversaryStep | cockpit/server/llmpool.py:145 | two anniversaries in a row are 28 to 31 days apart, clamped or not |
| Renewal.AnniversaryShows | cockpit/server/llmpool.py:145 | read off the calendar, an anniversary has the time and the day of the first date, or the last day of a month that lacks it |
| Renewal.NextMonthlyRenewal | cockpit/server/llmpool.py:137-151 | the loop over years and months returns the first of 600 anniversaries that is not past, or 0 |
| Renewal.EarliestAnniversary | cockpit/server/llmpool.py:137-151 | the result is the earliest of all anniversaries not before now, less than 31 days ahead of a now after creation, and 0 exactly when 600 months have passed |
| ScreenBuffer.Screen.BlitRaw | cockpit/server/pn_cell_desk_bridge.py:97-102 | the buffer after the loop, for every rectangle and any data |
| ScreenBuffer.Screen.BlitCopyRect | cockpit/server/pn_cell_desk_bridge.py:104-110 | the buffer after the loop, row by row in the order that the code chooses, for every two rectangles |
| ScreenBuffer.RawShows | cockpit/server/pn_cell_desk_bridge.py:97-102 | inside the frame the buffer keeps its size and shows the image with the rectangle written |
| ScreenBuffer.CopyShows | cockpit/server/pn_cell_desk_bridge.py:104-110 | inside the frame the buffer keeps its size and shows the image copied in that order |
| ScreenBuffer.RawExactly | cockpit/server/pn_cell_desk_bridge.py:97-102 | for all buffers of the frame and all data nothing but the rectangle changes and the buffer keeps its size, if and only if the rectangle is empty or lies inside the frame |
| ScreenBuffer.CopySizeExactly | cockpit/server/pn_cell_desk_bridge.py:104-110 | for any two rectangles and any buffer, a copy keeps the size of the buffer if and only if, row by row, the buffer holds source and target whole or nothing of either, unless they are the same or empty |
| ScreenBuffer.RawRectExactly | cockpit/server/pn_cell_desk_bridge.py:97-102 | inside the frame exactly the rectangle changes, and it shows the data (RFC 6143, section 7.7.1) |
| ScreenBuffer.RawPixelsExactly | cockpit/server/pn_cell_desk_bridge.py:97-102 | byte by byte of the buffer, the rectangle holds the data row by row |
| ScreenBuffer.CopyPixelsExactly | cockpit/server/pn_cell_desk_bridge.py:104-110 | where the order is right, every byte of the target is what stood at its source |
| Framebuffer.CopyRectExactly | cockpit/server/pn_cell_desk_bridge.py:104-110 | the chosen order copies every image as if in one step if and only if the rectangles lie in the same rows, or share no row, or share no column (RFC 6143, section 7.7.2) |
| Framebuffer.MirroredOrderIsRight | cockpit/server/pn_cell_desk_bridge.py:106 | the opposite order is right for every overlap |

## Left out

Identity:
- Floats: `_jcs_number` prints them as Python does, not as section 3.2.2.3 of RFC 8785 asks; numbers are integers here. Lone surrogates are left out with them.
- Registry.SaveLoadRoundTrip: at the level of JSON values; the text of the file, `json.dump` and `json.load`, the temporary file and its renaming are not modelled.
- Registry.KeyRegistry.LoadFile: which error is raised where several checks fail; the file being refused is what is promised.
- Verifier.RequestVerifier.VerifyRequest: a key id that is not hashable and raises TypeError, and a public key of the wrong length that raises ValueError, are refusals here.
- `rotated_to` as an invariant: `deny` can remove the key it names.
- Live `KeyRecord` objects that callers hold and could change; locks and threads, as every operation holds its lock throughout.

File exchange:
- ExchangeConvergence.BothSidesHold: no edits during the pass, times that the file system reports as positive, a remote side that keeps content and time as sent.
- Temporary files (`.pnpart`, `.pnup`) left by a broken transfer, the fallback to `r_stat`, and the HTTP calls; a broken transfer changes nothing here.

Packages:
- PackageWalk.RecordsOnce: names that resolve through `Provides` to another record can list it twice.
- ArArchive.EntryIsRead: names are bytes here; the replacement of bytes that are not ASCII is not modelled.
- Splitting of the dependency text, parsing of the package lists, unpacking.

Wire formats:
- Handshakes, timeouts, and the sender in `clients/pn_naskbd.py`, which has no 64-bit length.
- CastMessage.DecodeCastMessage: gives the bytes of the two fields; decoding of invalid UTF-8 with replacement characters is not modelled.

Cursors:
- LogTailRuns.ExactlyOnce: for logs of valid UTF-8, which decoding and encoding give back unchanged, and with newlines as the only line breaks; `splitlines` knows more of them. What is made of a line (JSON, turns, filtering) is not modelled.
- EventScan.ExactlyOnce: for files that are only appended to while they stay; `EventRereads.NothingSkippedExactly` is about the others.

Channel adapter:
- ChannelDelivery.RunFollowsBus: offsets count events where the code counts bytes, and the bus is only appended to. The result of sending a message is ignored by the code, so an event put behind the worker may not have arrived.
- Exceptions after a message has been sent, events without a session, thread names with white space around them, reconciliation of names and states (its changes are those of `CloseOrReopen`), polling, and the parsing of commands.

Framebuffer:
- ScreenBuffer.CopyShows: for rectangles inside the frame; for others `ScreenBuffer.Screen.BlitCopyRect` gives the buffer and `ScreenBuffer.CopySizeExactly` its size.

Others:
- Renewal.NextMonthlyRenewal: daylight-saving shifts and dates beyond the year 9999.
- `LLMPool.pick` and `record`, micro-VM life cycle, brokers, volumes, certificates, media, casting control, mail, user interface and the small stores.
