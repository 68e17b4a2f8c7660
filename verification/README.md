# Verified model of the Raspberry Pi 3 board support package

A Dafny model of four parts of the repository, with proofs about all inputs, all runs or all
interleavings:

- the regulatory-domain library of `bsp/crdad`: intersecting, folding and optimizing lists of
  frequency rules, and decoding them from the binary database;
- the TCP socket wrapper of `bsp/fastbootd` and the framing, download and erase loops of the daemon;
- the lock protocol of the audio HAL in `bsp/audio`.

`dafny verify dfyconfig.toml` checks everything.

## How the parts fit together

| file | content |
|---|---|
| `CTypes`, `Arithmetic`, `KeyBits` | C integer widths and the arithmetic facts the proofs share |
| `RegRule` | one rule: sanity check, intersection, union, merge, and what a rule permits |
| `Intersection`, `Fold` | rule lists: pairwise intersection, its algebra, the fold over many domains |
| `Optimize`, `Groups` | the greedy merger: one run, and what the rules merged into one have in common |
| `OneRun`, `NormalForm`, `Canonical` | when one run is enough, repeated runs, uniqueness and channels of the result |
| `RegDomain`, `OptimizeDomain` | the same operations in place on allocated domains, in two passes |
| `RegDbFile`, `RegDbAccess` | the database image and its decoder |
| `RegDbFold`, `RegDbTheorems` | intersecting a whole database with manual ownership |
| `Framing`, `Sockets`, `Fastboot`, `Erase` | length codec and frames, send and receive loops, replies and download, erase plan |
| `AudioLocks`, `AudioRuns`, `AudioCalls` | the transition system with its invariant, what holds over every run, and what each call has done when it returns |

A rule's range is read as half-open, `[start, end)`. Intersection refuses ranges that only touch;
union accepts them. Integers carry their C range, and unsigned subtraction wraps where the source
relies on it. Flags and keys are 32-bit vectors. A domain in memory is an object with an array of
rules, and the heap keeps the set of live domains: releasing requires membership, so releasing
twice or using a released domain does not verify. `exit(3)` is a separate outcome.

In the lock model each thread has a program point, each stream its two mutexes, its flag and its
PCM, and one step is one mutex operation or one access between them.

## What was found

- The optimizer's key leaves out the bandwidth and lets EIRP and flags cancel each other, so rules
  that differ in both can be merged, although the header (`bsp/crdad/reglib.h:230-231`) says all of
  them must match. `CollidingKeysLoseAChannel` gives an input on which an allowed channel is lost and
  `KeysCollideIff` says when keys collide. `UniformIffUnmixed` gives the exact condition: every merged
  rule has the EIRP and flags of all it stands for iff no two overlapping or touching rules of one key
  differ in them. Under it what is offered, normal forms and their channels are settled;
  `GroupsLoseNothingIff` is the condition for channels in one run.
- One optimizer run is not a fixed point: `OneRunIsNotEnough`. `OneRunIsEnoughIff` and
  `OneRunSufficesIff` say for which lists it is; lists sorted by start are among them.
- The band deduction never yields 60 (`DeduceBandMeaning`).
- Two ranges that both start at zero never intersect (`ZeroStartsLoseCoverage`). Coverage of two
  domains is exact iff they do not both cover zero (`RulesCoverExactly`, and for channels
  `RulesAllowExactly`); `IntersectRuleAssociates` says when rules re-associate.
- A lone country stored beside any other entry is not returned (`LoneCountry`), and a country whose
  memory cannot be allocated is taken for the end of the database, so that the intersection of a prefix
  of the countries is returned as if it were complete (`IntersectRegdb`).
- The send loop cannot finish when the last buffer is empty (`SendCanFinish`, `ReplyCanFinish`), and the
  erase loop does not advance on devices of one to nine blocks (`EraseEnds`).
- A connection closed in order makes receives return 0, which neither receive loop counts as a failure:
  `ReceiveAll` then never ends, and the download loop does not if a payload was cut off
  (`ReceiveAllSpinsIff`, `DownloadSpinsIff`).
- The two notes on mutex order in the audio HAL contradict each other
  (`bsp/audio/audio_hal.c:151-156` and `bsp/audio/audio_hal.c:348-351`); the code takes the stream lock
  first, and that order is what is modelled.

## Model

| member | source | states |
|---|---|---|
| RegRules.IsValidRule | bsp/crdad/reglib.c:415-433 | the chain of tests accepts exactly the rules with a nonempty range above zero that is at least as wide as the bandwidth |
| RegRules.IntersectRuleSucceeds | bsp/crdad/reglib.c:498-538 | two rules intersect iff they share a frequency and do not both start at zero |
| RegRules.IntersectRuleCovers | bsp/crdad/reglib.c:516-519 | the intersection covers exactly the shared frequencies |
| RegRules.IntersectRuleForm | bsp/crdad/reglib.c:516-538 | closed form of the result; the wrapping difference never matters in a rule that is kept |
| RegRules.IntersectRuleCommutes | bsp/crdad/reglib.c:498-538 | the order of the two rules is irrelevant |
| RegRules.IntersectRuleAssociates | bsp/crdad/reglib.c:498-538 | re-association holds iff nothing is shared by all three, the middle rule starts above zero, or the outer two agree on starting at zero |
| RegRules.IntersectRulePermits | bsp/crdad/reglib.c:516-532 | a channel fits the intersection iff it fits both rules and they do not both start at zero, so the bandwidth clamp loses no channel |
| RegRules.MergeRuleMeaning | bsp/crdad/reglib.c:1138-1173 | on valid rules the union-and-fit step succeeds iff the ranges overlap or touch |
| RegRules.RawUnionMeaning | bsp/crdad/reglib.c:469-491 | the union is valid and covers exactly the two ranges |
| RegRules.UnionDominatesBoth | bsp/crdad/reglib.c:474-486 | the union dominates whatever either operand dominated, in range, bandwidth, power and flag bits |
| Intersection.RulesMember | bsp/crdad/reglib.c:603-617 | the result holds exactly the successful pairs, nothing of a failed pair |
| Intersection.RulesValid | bsp/crdad/reglib.c:534-538 | every rule of an intersection passes the sanity check, whatever the inputs |
| Intersection.RulesCover | bsp/crdad/reglib.c:553-631 | a frequency is covered by the intersection iff both domains cover it, one of them by a rule starting above zero |
| Intersection.RulesCoverExactly | bsp/crdad/reglib.c:553-631 | the intersection covers exactly what both domains cover iff they do not both cover zero |
| Intersection.RulesAllow | bsp/crdad/reglib.c:553-631 | a channel is allowed by the intersection iff some rule of each domain allows it, one of them starting above zero |
| Intersection.RulesAllowExactly | bsp/crdad/reglib.c:553-631 | the intersection allows exactly what both domains allow iff they do not both allow channels by rules starting at zero |
| Intersection.ZeroStartsLoseCoverage | bsp/crdad/reglib.c:420-421 | a concrete domain with start zero whose self-intersection covers nothing |
| Intersection.RulesAssociate | bsp/crdad/reglib.c:553-631 | domain intersection is associative as an exact rule sequence |
| Intersection.RulesCommute | bsp/crdad/reglib.c:553-631 | domain intersection is commutative up to the order of the rules |
| Intersection.RulesRespectOrder | bsp/crdad/reglib.c:603-617 | reordering an operand only reorders the result |
| Fold.FoldStaysEmpty | bsp/crdad/reglib.c:662-667 | once a prefix of the domains intersects to nothing, so does the whole list: returning early is right |
| Fold.FoldCovers | bsp/crdad/reglib.c:645-671 | the fold covers a frequency iff every domain does, apart from what the first two cover by rules starting at zero only |
| Fold.FoldAllows | bsp/crdad/reglib.c:645-671 | the same for channels |
| Fold.FoldEmptyIffNothingShared | bsp/crdad/reglib.c:661-667 | with two or more domains the fold is empty iff there is no frequency that it should cover |
| Fold.FoldCons | bsp/crdad/reglib.c:645-671 | the left fold of the loop equals the right fold, rule for rule |
| Fold.FoldOrderIndependent | bsp/crdad/reglib.c:645-671 | the multiset of resulting rules does not depend on the order of the domains |
| RegDomains.ArrayLen | bsp/crdad/reglib.c:61-70 | returns the exact sum iff it fits in `size_t`, else exit; the division test is exact |
| RegDomains.Heap.Free | bsp/crdad/reglib.c:656-666 | only a live domain can be released, and then it is no longer live |
| RegDomains.RegRulesIntersect | bsp/crdad/reglib.c:498-538 | one slot is written, all but the CAC time, also when the pair fails |
| RegDomains.IntersectPair | bsp/crdad/reglib.c:607-617 | a successful pair extends the kept rules by its intersection, a failed one leaves them as they are |
| RegDomains.CountPairs | bsp/crdad/reglib.c:581-592 | the counting pass counts exactly the successful pairs |
| RegDomains.FillPairs | bsp/crdad/reglib.c:603-619 | the filling pass stays within the `num_rules + 1` slots and leaves the lexicographic list of successful pairs |
| RegDomains.IntersectRds | bsp/crdad/reglib.c:553-631 | the two passes agree; a non-NULL result is fresh, valid, marked "99", and holds exactly the intersection; NULL without allocation failure means an empty intersection |
| Optimize.DeduceBandMeaning | bsp/crdad/reglib.c:1096-1107 | the exact frequency limits of each band; 60 is never produced |
| Optimize.KeysCollideIff | bsp/crdad/reglib.c:1113-1130 | two rules share a key iff EIRP difference, flag difference shifted by eight and band difference shifted by sixteen cancel bit by bit |
| Optimize.KeyTellsEirp | bsp/crdad/reglib.c:1113-1130 | rules of one band with equal flags share a key iff their EIRP values are equal |
| Optimize.MergeRuleByUnion | bsp/crdad/reglib.c:1159-1173 | on valid rules merging means taking the union of ranges that are not apart |
| Optimize.ScanValid | bsp/crdad/reglib.c:1212-1234 | on valid rules the accumulated rule is valid after every merge |
| Optimize.ScanSameKey | bsp/crdad/reglib.c:1212-1217 | only other rules with the pivot's key are merged into it |
| Optimize.ScanDominates | bsp/crdad/reglib.c:1212-1234 | a pivot's accumulated rule dominates every rule merged into it |
| Optimize.ScanCovers | bsp/crdad/reglib.c:1212-1234 | the accumulated rule covers exactly the pivot and the merged rules |
| Optimize.ScanHits | bsp/crdad/reglib.c:1212-1234 | a valid same-key rule that overlaps or touches the pivot, or a rule merged before it is visited, is always merged |
| Optimize.SweepOwns | bsp/crdad/reglib.c:1263-1273 | every rule belongs to the group of a chosen pivot |
| Optimize.OptimizeProgress | bsp/crdad/reglib.c:1237-1334 | a run changes nothing iff no two same-key rules overlap or touch, and otherwise returns strictly fewer rules |
| Optimize.OptimizeSound | bsp/crdad/reglib.c:1185-1334 | output rules are valid, and each of their frequencies lies in an input rule of the pivot's key |
| Optimize.OptimizeComplete | bsp/crdad/reglib.c:1185-1334 | every input rule is dominated by an output rule built for its key |
| Optimize.OptimizeCovers | bsp/crdad/reglib.c:1185-1334 | exactly the same frequencies are covered |
| MergeGroups.MemberMeets | bsp/crdad/reglib.c:1212-1234 | what overlaps or touches the accumulated rule overlaps or touches one of the rules it was made of |
| MergeGroups.HitWhenVisited | bsp/crdad/reglib.c:1212-1234 | a rule is merged on its own turn or not at all |
| MergeGroups.GroupTakesLater | bsp/crdad/reglib.c:1212-1234 | a group holding a rule also takes every later same-key rule that overlaps or touches it |
| MergeGroups.ScanAttains | bsp/crdad/reglib.c:474-484 | bandwidth, antenna gain, EIRP, start and end of the accumulated rule are those of rules it was made of |
| MergeGroups.ScanHonours | bsp/crdad/reglib.c:486-486 | obeying the flags of the accumulated rule is obeying those of every rule it was made of |
| MergeGroups.UniformIffNoMixedMerge | bsp/crdad/reglib.c:1185-1235 | every output rule agrees with all it stands for iff no two rules that may be merged differ, for whatever a union of equals keeps |
| OneRun.AttachedIsNoPivot | bsp/crdad/reglib.c:1263-1273 | a rule that overlaps or touches an earlier same-key rule is never chosen as pivot |
| OneRun.OneRunIsEnoughIff | bsp/crdad/reglib.c:1237-1334 | one run leaves nothing to merge iff every rule with no gap to an earlier rule of its key overlaps or touches an earlier one |
| OneRun.SortedIsOutward | bsp/crdad/reglib.c:1263-1273 | lists sorted by start meet that condition |
| OneRun.LateBridge | bsp/crdad/reglib.c:1212-1234 | for any valid rules a, b, c of one key where only c meets both others, one run yields the two overlapping unions |
| OneRun.OneRunIsNotEnough | bsp/crdad/reglib.c:1263-1273 | three rules on which one greedy run leaves two same-key rules overlapping |
| NormalForm.OptimizeRun | bsp/crdad/reglib.c:1237-1334 | one run on a valid domain: validity, same coverage, every rule dominated, unchanged or strictly shorter |
| NormalForm.UniformIffUnmixed | bsp/crdad/reglib.c:1113-1235 | every output rule has the EIRP and flags of all rules it stands for iff overlapping or touching rules of one key agree on them; likewise for flags alone |
| NormalForm.GroupWithin | bsp/crdad/reglib.c:1113-1235 | on unmixed rules a merged rule keeps the key, EIRP and flags of its group, holds all of it, and takes bandwidth and gain from it |
| NormalForm.OutputOrigin | bsp/crdad/reglib.c:1212-1234 | on unmixed rules each frequency of an output rule comes from an input rule of its key, EIRP and flags |
| NormalForm.InputSurvives | bsp/crdad/reglib.c:1263-1273 | on unmixed rules each input rule lies within an output rule of its key, EIRP and flags that dominates it |
| NormalForm.OptimizeStaysUnmixed | bsp/crdad/reglib.c:1237-1334 | a run keeps rules unmixed, so the guarantees carry over to the next run |
| NormalForm.OptimizeKeepsOffers | bsp/crdad/reglib.c:1237-1334 | on unmixed rules the (EIRP, flags) pairs available at each frequency are unchanged |
| NormalForm.OptimizeKeepsKeyCover | bsp/crdad/reglib.c:1237-1334 | on unmixed rules each key covers the same frequencies before and after |
| NormalForm.OptimizeKeepsChannels | bsp/crdad/reglib.c:1237-1334 | every allowed channel stays allowed if rules that may be merged have equal flags |
| NormalForm.GroupsLoseNothingIff | bsp/crdad/reglib.c:1185-1334 | among rules of positive bandwidth, no output rule refuses a channel of a rule it stands for iff rules that may be merged have equal flags |
| NormalForm.NormalFormMeaning | bsp/crdad/reglib.c:1175-1184 | repeating the run ends, in rules whose same-key ranges are separated, with coverage and dominance kept |
| NormalForm.OneRunSufficesIff | bsp/crdad/reglib.c:1237-1334 | on unmixed rules one run reaches the result of all runs iff every rule with no gap to an earlier one of its key overlaps or touches an earlier one |
| NormalForm.SortedNeedsOneRun | bsp/crdad/reglib.c:1237-1334 | unmixed rules sorted by start need one run only |
| Canonical.NormalFormKeeps | bsp/crdad/reglib.c:1237-1334 | on unmixed rules what each key covers and what each frequency offers survive every run |
| Canonical.NormalFormTakesMaxima | bsp/crdad/reglib.c:474-484 | bandwidth and antenna gain of a final rule are those of input rules of its key inside it |
| Canonical.SeparatedIsCanonical | bsp/crdad/reglib.c:1175-1184 | separated rule lists with the same coverage per key consist of the same ranges |
| Canonical.NormalFormOrderIndependent | bsp/crdad/reglib.c:1175-1184 | on unmixed rules the repeated result is the same multiset of rules in whatever order they are listed, up to the CAC time |
| Canonical.NormalFormAllows | bsp/crdad/reglib.c:1175-1184 | on unmixed rules the repeated result allows a channel iff rules of one key with no gap between them and the channel grant its bandwidth, gain and power |
| Canonical.RunsOnlyAddChannels | bsp/crdad/reglib.c:1185-1334 | on unmixed rules one run allows all channels allowed before, and beyond them only such as joined rules of one key grant together |
| Canonical.CollidingKeysLoseAChannel | bsp/crdad/reglib.c:1125-1127 | two rules with different EIRP and flags are merged and an allowed channel is lost |
| OptimizeDomain.RegRulesUnion | bsp/crdad/reglib.c:451-492 | succeeds exactly when the union is defined and then stores it; the CAC time stays zero |
| OptimizeDomain.OptRuleFit | bsp/crdad/reglib.c:1138-1157 | succeeds exactly when both rules intersect the candidate |
| OptimizeDomain.RegRuleOptimize | bsp/crdad/reglib.c:1159-1173 | the scratch slot holds the merged rule on success; its CAC time stays zero |
| OptimizeDomain.RegRuleOptimizeRd | bsp/crdad/reglib.c:1185-1235 | for an unmarked pivot: which marks are set, how many are new, and the accumulated rule |
| OptimizeDomain.Visit | bsp/crdad/reglib.c:1263-1273 | a rule becomes a pivot iff it is unmarked, and the rule chosen for output is the pivot's accumulated rule |
| OptimizeDomain.CountOptimized | bsp/crdad/reglib.c:1246-1277 | the counting run finds one rule per pivot, never more than there are input rules |
| OptimizeDomain.FillOptimized | bsp/crdad/reglib.c:1294-1318 | from a reset map the filling run finds the same pivots and writes exactly the optimized list within bounds |
| OptimizeDomain.AllRulesValid | bsp/crdad/reglib.c:1321-1325 | the closing check passes iff every rule written is valid |
| OptimizeDomain.OptimizeRegdom | bsp/crdad/reglib.c:1237-1334 | the result carries the input's code and DFS region and the optimized rules, all valid; on a valid domain it is NULL only when allocation fails |
| RegDbFile.WordRoundTrip | bsp/crdad/reglib.c:46-46 | a word reads as x iff its bytes are the big-endian encoding of x |
| RegDbFile.WordBytesMeaning | bsp/crdad/regdb.h:33-49 | four bytes encode the number whose most significant byte comes first |
| RegDbFile.FilePtr | bsp/crdad/reglib.c:43-59 | a pointer is returned iff the whole record lies in the first `dblen` bytes |
| RegDbFile.OpenUndoesHeader | bsp/crdad/reglib.c:240-271 | opening a file whose header holds these five words: the exact context, no database for a wrong magic, version, signature length or signature, exit for a table out of bounds |
| RegDbFile.HeaderExists | bsp/crdad/regdb.h:33-49 | every file of 20 bytes or more holds such a header, so the outcome of opening is settled for all files |
| RegDbFile.ShortFileExits | bsp/crdad/reglib.c:236-240 | a file too short for a header exits |
| RegDbFile.OpenDbValid | bsp/crdad/reglib.c:243-271 | the accepted country table lies in the signed region iff its length fits in `size_t` |
| RegDbFile.DecodeFlagsMeaning | bsp/crdad/reglib.c:317-320 | of a stored flag word the two no-IR bits end up both set iff either was, and all other bits are kept |
| RegDbFile.LocateRules | bsp/crdad/reglib.c:333-345 | the collection and its length are found iff all of it lies in the signed region and the domain can be sized, else exit |
| RegDbFile.DecodeUndoesLayout | bsp/crdad/reglib.c:296-363 | an image holding a country, its records placed or shared anywhere, decodes to exactly that country |
| RegDbFile.DecodeFindsLayout | bsp/crdad/reglib.c:296-363 | whatever decodes is a country the image holds |
| RegDbFile.DecodeIffLaidOut | bsp/crdad/reglib.c:296-363 | decoding yields d iff the image holds a record of d that can be sized |
| RegDbFile.TableDecodes | bsp/crdad/regdb.h:120-127 | in a table of eight-byte records country i has the code, the DFS region and the rules of record i |
| RegDbFile.DecodeFootprint | bsp/crdad/reglib.c:43-59 | images that agree on the signed region decode identically |
| RegDbFile.FileFootprint | bsp/crdad/reglib.c:210-271 | verified files of one length that agree on the signed region open alike and decode to the same countries |
| RegDbAccess.RegRule2Rd | bsp/crdad/reglib.c:296-321 | writes one slot with the decoded rule, or exits exactly when a pointer is bad |
| RegDbAccess.FillRules | bsp/crdad/reglib.c:357-360 | the loop fills every slot with the decoded rule, or exits iff some rule does not decode |
| RegDbAccess.Country2Rd | bsp/crdad/reglib.c:323-363 | a fresh domain holding exactly what the image says, or NULL on allocation failure, or exit on a bad image |
| RegDbAccess.GetRdIdx | bsp/crdad/reglib.c:365-379 | NULL past the last country, otherwise the decoded country |
| RegDbAccess.GetRdAlpha2 | bsp/crdad/reglib.c:381-412 | the first country whose record starts with the code, as a fresh domain the caller owns, and NULL without allocation failure only if there is none |
| RegDbAccess.TableFirstMatch | bsp/crdad/reglib.c:395-400 | in a table of records that is the first record with these two bytes |
| RegDbFold.IntersectNext | bsp/crdad/reglib.c:656-671 | how one more country moves ownership between the two fold pointers |
| RegDbFold.AbsorbCountry | bsp/crdad/reglib.c:645-671 | one round keeps the fold pointers equal to the fold of the countries so far and the live domains accounted for |
| RegDbFold.FinishFold | bsp/crdad/reglib.c:672-687 | what is returned, and that everything else is released |
| RegDbFold.EmptyDecides | bsp/crdad/reglib.c:662-666 | an empty intermediate intersection already makes the answer NULL |
| RegDbFold.IntersectRegdb | bsp/crdad/reglib.c:634-688 | every domain allocated on the way is released exactly once or returned; the loop ends; the result is the left fold over the non-world countries, or after an allocation failure possibly that of a prefix |
| RegDbTheorems.IntersectAllExactly | bsp/crdad/reglib.h:183-194 | with two or more non-world countries: covers and allows what all of them do, apart from what the first two grant by rules starting at zero only; marked "99"; NULL iff nothing is left |
| RegDbTheorems.IntersectAllMeaning | bsp/crdad/reglib.h:183-194 | if no rule starts at zero: covers and allows exactly what all of them do, NULL iff they share nothing |
| RegDbTheorems.IntersectAllOrderIndependent | bsp/crdad/reglib.c:634-688 | storing the countries in another order changes at most the order of the rules |
| RegDbTheorems.NonWorldCountries | bsp/crdad/reglib.h:128-133 | exactly the entries not coded "00" are intersected, in database order |
| RegDbTheorems.CountryCounts | bsp/crdad/reglib.c:646-649 | no entry with another code is passed over |
| RegDbTheorems.WorldEntryIgnored | bsp/crdad/reglib.c:646-649 | an entry coded "00" makes no difference wherever it is stored, except beside a lone country |
| RegDbTheorems.LoneCountry | bsp/crdad/reglib.c:675-682 | a lone country is returned, as it is stored, iff it is the only entry |
| Framing.DecodeUndoesEncode | bsp/fastbootd/fastbootd.cpp:140-153 | decoding an encoded length gives it back |
| Framing.EncodeUndoesDecode | bsp/fastbootd/fastbootd.cpp:140-153 | encoding a decoded header gives the header back |
| Framing.EncodedByte | bsp/fastbootd/fastbootd.cpp:148-153 | byte i is the number shifted right by the bytes that follow and truncated |
| Framing.EncodeMessageLength | bsp/fastbootd/fastbootd.cpp:148-153 | the loop writes the eight big-endian bytes and nothing else |
| Framing.ExtractMessageLength | bsp/fastbootd/fastbootd.cpp:139-146 | the loop computes the big-endian value without overflow |
| Framing.ParseUndoesFrames | bsp/fastbootd/fastbootd.cpp:155-175 | a sequence of frames parses back to exactly its payloads |
| Framing.FramesUndoParse | bsp/fastbootd/fastbootd.cpp:155-175 | only streams of frames parse, and to what they were framed from |
| Framing.RepliesUnambiguous | bsp/fastbootd/fastbootd.cpp:155-175 | different sequences of untruncated replies are different on the wire |
| Framing.ReplyTextIntact | bsp/fastbootd/fastbootd.cpp:157-164 | a text reaches the client unchanged iff it is shorter than the buffer |
| Framing.ReplyPayloadMeaning | bsp/fastbootd/fastbootd.cpp:166-175 | the first four payload bytes are the id, the rest is the text if it fits the buffer |
| Sockets.AdvanceKeepsRest | bsp/fastbootd/socket.cpp:205-225 | after a short write the remaining buffers hold exactly the remaining bytes |
| Sockets.AdvanceEnd | bsp/fastbootd/socket.cpp:205-225 | a trailing empty buffer survives every round; a nonempty last buffer is used up exactly when everything is sent |
| Sockets.SendCanFinish | bsp/fastbootd/socket.cpp:196-228 | the loop can finish at all iff the list is empty or its last buffer is not |
| Sockets.TcpSocket.SkipSent | bsp/fastbootd/socket.cpp:205-225 | the inner loop never steps past the list and leaves the buffers still to be sent |
| Sockets.TcpSocket.Send | bsp/fastbootd/socket.cpp:196-228 | under any short writes: success means exactly the concatenation was sent, failure a prefix of it |
| Sockets.TcpSocket.Receive | bsp/fastbootd/socket.cpp:230-236 | the next bytes of the stream land in the buffer; 0 at an orderly end of the stream, -1 at a failure |
| Sockets.TcpSocket.ReceiveAll | bsp/fastbootd/socket.cpp:51-66 | under any chunking: the next bytes in order, and on a connection without failures as many as are asked for, or as there are before a reset |
| Sockets.ReceiveAllSpinsIff | bsp/fastbootd/socket.cpp:51-66 | the loop can be kept going for ever iff the peer closes the connection in order after too few bytes |
| Fastboot.SendReply | bsp/fastbootd/fastbootd.cpp:155-175 | a successful reply put exactly one frame with id and text on the wire |
| Fastboot.ReplyCanFinish | bsp/fastbootd/fastbootd.cpp:155-175 | a reply can be sent at all iff a nonempty format does not expand to nothing |
| Fastboot.ReceivePayload | bsp/fastbootd/fastbootd.cpp:267-278 | the inner loop writes exactly the next `length` bytes, or a prefix before a failed receive; without failures it succeeds iff they are there |
| Fastboot.ReceiveMessage | bsp/fastbootd/fastbootd.cpp:259-278 | one header and its payload: what is written, consumed and subtracted from the size; without failures or split headers it succeeds iff both are there |
| Fastboot.Download | bsp/fastbootd/fastbootd.cpp:258-279 | success wrote exactly what the stream holds and failure a prefix; without failures or split headers it succeeds iff the stream allows, and for a client that keeps to the announced size it always does, with the concatenated payloads written |
| Fastboot.AnnouncedArrives | bsp/fastbootd/fastbootd.cpp:248-283 | whole messages whose lengths sum to the announced size are written completely and in order |
| Fastboot.DownloadSpinsIff | bsp/fastbootd/fastbootd.cpp:258-279 | the loop can be kept going for ever iff the peer closes the connection in order within a payload |
| Erase.EraseEnds | bsp/fastbootd/fastbootd.cpp:356-359 | where the 64-bit offset does not wrap, the loop reaches the end iff the device is empty or has more than nine blocks |
| Erase.PercentSteps | bsp/fastbootd/fastbootd.cpp:370-372 | each step raises the reported percentage, and the end of the device is 100 |
| Erase.ErasePlan | bsp/fastbootd/fastbootd.cpp:352-373 | the segments tile the device, there are ten to nineteen, all but the last a tenth of the device in 64 KiB blocks, each reporting the percentage erased so far, rising strictly to 100 |
| AudioLocks.NextKeepsInv | bsp/audio/audio_hal.c:331-559 | every step of every thread keeps the invariant relating mutex owners, program points, `standby` and PCM |
| AudioRuns.RunInv | bsp/audio/audio_hal.c:331-559 | the invariant holds in every state of every run |
| AudioRuns.StandbyAgrees | bsp/audio/audio_hal.c:407-420 | whenever a stream's lock is free, `standby` is true iff its PCM is closed, failed opens included |
| AudioRuns.PcmUsedSafely | bsp/audio/audio_hal.c:503-559 | a PCM is opened only when closed, closed only when open, and moves data only when open, under the locks |
| AudioRuns.OneWaiter | bsp/audio/audio_hal.c:338-343 | at most one thread waits for a stream lock, owns it, or owns the device lock |
| AudioRuns.NotOvertaken | bsp/audio/audio_hal.c:151-156 | as long as a thread waits for a stream lock, nobody else acquires it |
| AudioRuns.WaiterIsNextOwner | bsp/audio/audio_hal.c:331-343 | whoever acquires a stream lock was waiting for it |
| AudioRuns.NoDeadlock | bsp/audio/audio_hal.c:151-156 | while some call is in progress, some thread can step |
| AudioRuns.StepRanks | bsp/audio/audio_hal.c:407-559 | every step of a call in progress, failed opens included, lowers a bound on the remaining steps |
| AudioRuns.CallsFinish | bsp/audio/audio_hal.c:407-559 | without new calls, no run is longer than the calls in progress allow |
| AudioRuns.Completes | bsp/audio/audio_hal.c:407-559 | from every state of the invariant the calls in progress can run to an end in which every mutex is free |
| AudioRuns.StuckIsQuiet | bsp/audio/audio_hal.c:407-559 | a reachable state that no call in progress can leave has every mutex free and every flag right |
| AudioCalls.ChangesUnderLocks | bsp/audio/audio_hal.c:407-420 | a PCM changes only under its stream lock and the device lock, `standby` only under the stream lock or before the stream is handed out |
| AudioCalls.MuteUnderDevice | bsp/audio/audio_hal.c:1164-1171 | the microphone is muted and unmuted under the device lock only |
| AudioCalls.CallsPossible | bsp/audio/audio_hal.c:596-724 | any thread without a call in progress can open a stream, mute, or call on any stream handed out |
| AudioCalls.OpenMayFail | bsp/audio/audio_hal.c:503-522 | opening a PCM may succeed or fail |
| AudioCalls.CallDoes | bsp/audio/audio_hal.c:407-559 | what a call on a stream has done when it returns: standby closed the PCM, a transfer moved data exactly once or after a failed open nothing, parameter calls took the device lock once; each took both stream locks once |
| AudioCalls.MuteDoes | bsp/audio/audio_hal.c:1164-1171 | a muting call has set the microphone as asked, under the device lock |
| AudioCalls.OpenDoes | bsp/audio/audio_hal.c:596-724 | an opening call took the device lock once and hands out a new stream of the kind asked for, in standby with its PCM closed |

## Left out

- RegDomains.IntersectRds: requires the number of successful pairs to stay below the range of the unsigned counter; beyond it the C counter wraps and the fill pass would leave the allocation.
- RegDbFold.IntersectRegdb: makes the same demand of every intermediate result, and assumes a country table whose length fits in `size_t`.
- OptimizeDomain.OptimizeRegdom: requires the rule count plus two to fit in 32 bits, as the size of the map is computed in that width; releasing the map itself is not tracked.
- NormalForm.OptimizeKeepsOffers: assumes unmixed rules, the exact condition for merged rules to keep the EIRP and flags of what they stand for; mixed rules can lose channels, as `Canonical.CollidingKeysLoseAChannel` shows.
- Sockets.TcpSocket.Send: requires a list whose last buffer is not empty, exactly the lists on which the loop can finish; the kernel is assumed to accept at least one byte when there is one.
- Sockets.TcpSocket.ReceiveAll: requires that the bytes are there or the connection is reset after them, exactly the cases in which the loop cannot be kept going for ever; timeouts are not modelled.
- Fastboot.SendReply: texts longer than the buffer, for which the source reads past it, are excluded, and so is a nonempty format that expands to nothing, for which sending cannot finish.
- Fastboot.Download: requires that no payload is cut off by an orderly end of the stream, exactly the cases in which the loop cannot be kept going for ever. The replies around the loop and the file operations are not modelled; writes to the file are assumed complete, and a header that arrives in pieces makes the download fail, as in the source.
- Erase.EraseEnds: leaves out devices that end less than one step below 2^64 bytes, on which the offset wraps.
- Erase.ErasePlan: covers the segment plan only; what `dd` does with `seek` and `bs` is outside.
- AudioLocks.NextKeepsInv: closing a stream frees it under the framework's promise that no call is in progress, so streams are never removed; conversion buffers, profile contents and card discovery are not modelled.
- The whole-word reads of a length header are modelled with division and addition instead of shifts and bitwise or; the bits involved are disjoint.
- Signature verification: its verdict is a parameter of `OpenDb`.
- File, mmap and context release: the image is a byte sequence; `reglib_free_regdb_ctx` clears the context before using it and nothing is claimed about it.
- Allocation of the database context: failure there is not distinguished from a missing database.
- Text parsing and printing of domains: floating point and stdio.
- The single-buffer `TcpSocket::Send`, UDP sockets, the flash, getvar, reboot and firewall commands, the lights and Wi-Fi HALs, `crda` and `crdad`: thin wrappers or I/O.
