# OpenSAF base library, verified

A Dafny model of the parts of the OpenSAF base library that have to be right for everything above it, with
proofs of what they promise and, where the code does otherwise, of exactly when it keeps the promise.

- `Edu*.dfy`: the EDU encoder/decoder. An EDP is a small program of rules; one interpreter encodes a C structure by
  it, another decodes, and a compile pass checks programs. Structures are maps from offsets to fields, octets are
  sequences. `EduEncode` is the encoder with its state, the handle's tree and the list attribute each loop carries
  along; `EduFormat` is the same without state, that is, what the decoder expects. `EduWellFormed` says statically which
  programs (EDU_START names the program, tests and lengths read fields stored before them, labels lead forward, the list
  test comes last, a field is stored once, programs behind pointers can be allocated) and which values (right types along the rules taken, counts
  and strings within 16 bits) EDU is meant for. `EduCarried` says, from rules and values alone, what a peer will hold.
- `Handle*.dfy`: the handle manager as bit fields, atomic steps under the pool lock, whole histories of any number of
  threads, a backup that replays a primary, and the manager class itself.
- `Timer*.dfy`: the timer list on one OS timer, as values, as runs, as a doubly linked structure updated in place, and
  with callbacks that come back into the block while the expiry loop is under way.
- `Log*.dfy`: RFC 5424 records in a bounded buffer with a reader for them, and the rotating file writer.
- `Trace*.dfy`: the circular trace buffer in front of the writer.
- `UsrBuf.dfy`, `SaName.dfy`: buffer chains and names on the wire.
- `Queue.dfy`: the intrusive queue.

## What the code does otherwise

Each of these is stated by a lemma with a concrete case, and by a condition that is necessary and sufficient where the
table says "if and only if".

- The NCS_KEY program takes the format number for a jump distance, so octet-string keys lose their length.
- Arrays of strings and lists of 65536 nodes or more put the decoder out of step.
- Whether a pointer gets its count depends on an attribute that the first run of a built-in program leaves stale: a
  pointer to a list, then the first pointer to a number, and the count of the number is missing.
- Programs that execute each other in a circle send the compile pass into endless recursion.
- A char array is filled by the count found in the input, whatever its size.
- The compile pass works on the node of the program that EDU_START names. If that is another program, the one compiled
  is not recorded, and the other is recorded or unrecorded instead.
- The compile pass accepts negative labels and does not look at rules behind an early EDU_END. It accepts plain fields and
  tested strings that overhang the structure, fields in front of it, pointers to strings and lengths anywhere. Its check
  that a tested field exists never fails and is not modelled.
- The word of a free cell reads as a busy one in half of the banks, so the value printed on it can be taken.
- 2047 open takes of one handle wrap the use count. The search for a bank does not end when all 256 are used.
- The timer list is not in deadline order. A callback that stops the timer next in line makes that timer fire and
  drops the rest of the list.
- A log buffer of 25 to 38 bytes can lose the zone in the middle of a record.
- An empty trace, refused, overwrites the oldest line of the circular buffer; a flush right after it hands over the wrong text.
- A trace without a final newline loses its last character to one; one that is too long loses its own newline.
- A name is limited by the payload of its pool, 8000 octets less header and trailer reserve (7925 in the MDS pool), not
  by the 65535 its length field suggests.

## Conventions

Bit fields are laid out from the least significant bit, as on little-endian targets. Memory that is not mentioned is
zero. Clocks, time zones, the broken-down local time and what the file system does are inputs. Unless a counter's width
matters it is unbounded: `ttl` is, `use_ct`, `seq_id` and the EDU counts are not. Calls under one lock are one step.
Service ids fit twelve bits. Each timer call reads the clock once.

## Model

| member | source | states |
|---|---|---|
| EduModel.BasicRoundTrip | src/base/hj_edp.c:51-690 | every number in the range of every built-in kind comes back from its big-endian wire form |
| EduModel.WireInverse | src/base/hj_dec.c:188-290 | a w-octet big-endian decoder undoes the encoder for every value below 256^w |
| EduFacts.RoundTripIff | src/base/hj_edu.c:134-546 | for all well-formed programs, all values that fit them, all handles and whatever follows: the encoder succeeds, and the decoder gets what the wire carries and stops in the right place if and only if every pointer got its count |
| EduFacts.ExactRoundTripIff | src/base/hj_edu.c:134-546 | a value in normal form comes back as itself if and only if every pointer got its count |
| EduFacts.CountedMeans | src/base/hj_edu.c:1774-1892 | every pointer got its count if and only if no loop of the run, nested ones included, met a list pointer and behind it, with no program that answers in between, a non-NULL pointer to one that does not |
| EduFacts.TameRoundTrip | src/base/hj_edu.c:1774-1892 | on a handle whose tree holds what the programs with list pointers point to, every value in normal form comes back |
| EduFacts.Lockstep | src/base/hj_edu.c:1771-2201 | with the counts written, encoder and decoder visit the same sequence of program counters of one structure, the decoder stops where the encoder did, and it has stored exactly the fields on the way |
| EduFacts.Forwarded | src/base/hj_edu.c:432-546 | what arrives is part of what was sent, is carried unchanged from there on, and is written as the same octets |
| EduWellFormed.EdpCarries | src/base/hj_edu.c:432-546 | from the static form of programs and the typing of values alone: every value that fits is carried, and one in normal form is carried as itself |
| EduWellFormed.NodeCarries | src/base/hj_edu.c:1771-2036 | the same for one structure from any rule on; the course the rules take is the one on the sender's value, and a list is left only through its list test |
| EduWellFormed.RuleCarries | src/base/hj_edu.c:1553-1593 | one rule: it is carried, a test gives the same label on what has arrived as on the original, and the way on is well formed |
| EduWellFormed.TypedFits | src/base/hj_edu.c:1771-2036 | a structure with a field of the right type for every rule fits, whichever way the labels go, unless a label fails |
| EduShortest.ReadEdp | src/base/hj_edu.c:454-535 | the decoder on any input whatever: it comes back, without char arrays it writes behind no array, and whatever it accepts is at least as long as what the format would write for the value it got |
| EduShortest.ReadNode | src/base/hj_edu.c:2051-2201 | the same for one structure, which encodes along the course it was decoded on |
| EduShortest.ReadChars | src/base/hj_edu.c:1249-1294 | a char array writes behind its end if and only if the count in the input is above its size and the input has more characters than it holds; whatever it accepts is as long as the format's string |
| EduShortest.CourseAgrees | src/base/hj_edu.c:1915-2035 | rule by rule the decoder goes where the encoder goes on any structure that extends what has been decoded |
| EduCounts.EdpRefines | src/base/hj_edu.c:1730-1892 | for every program, value and handle the encoder ends as the format does, and writes its octets exactly if every pointer got its count, and fewer if not |
| EduCounts.CountedIff | src/base/hj_edu.c:1774-1892 | the counts of one loop are all written if and only if there are no two such pointers in it |
| EduCounts.BitEndIff | src/base/hj_edu.c:1774-1794 | the attribute is set if and only if some list pointer was followed only by programs that do not answer |
| EduCounts.EdpTame | src/base/hj_edu.c:1774-1892 | if a program that points to a list points to nothing the tree lacks, all counts are written, whatever the value |
| EduCounts.LeafyExact | src/base/hj_edu.c:1774-1892 | a program without pointers and user programs writes what the format asks for on any handle |
| EduStale.StaleCountIff | src/base/hj_edu.c:1774-1892 | a pointer to a list and then one to a number: the pair comes back if and only if the number's program is in the tree already or the nodes of the list run it |
| EduStale.StaleOctets | src/base/hj_edu.c:1774-1892 | on a fresh handle the octets of that value, without the second count |
| EduRoundTrip.TripEdp | src/base/hj_edu.c:432-546 | decoding the octets of the format, with anything behind them, gives the carried value and leaves exactly what was behind |
| EduRoundTrip.TripChain | src/base/hj_edu.c:1740-1759 | the node count patched in afterwards is the number of nodes emitted, and as many nodes are decoded |
| EduRoundTrip.AgainAtLink | src/base/hj_edu.c:1681-1722 | the encoder moves on to another node only at the rule that names the next pointer |
| EduRoundTrip.ChainFromStart | src/base/hj_edu.c:1769-1986 | restarting each further node at rule 0 writes the octets of starting at rule 1 |
| EduRoundTrip.TripLlTest | src/base/hj_edu.c:1681-1722 | the list test ends the node on both sides |
| EduRoundTrip.TripInline | src/base/hj_edu.c:904-1313 | inline fields, arrays and variable-length data come back |
| EduRoundTrip.TripText | src/base/hj_edu.c:1073-1090 | a string below 65536 octets comes back, the empty one as NULL |
| EduRoundTrip.TripCharArray | src/base/hj_edu.c:915-960 | a char array travels as a string and comes back padded with zeros |
| EduRoundTrip.TripSeq | src/base/hj_edu.c:938-960 | every element of an array comes back in order |
| EduStable.StableEdp | src/base/hj_edu.c:432-546 | the carried value is a fixed point: carrying it changes nothing and it encodes to the same octets |
| EduStable.StableNode | src/base/hj_edu.c:1771-2036 | a structure that extends what was carried takes the same course through the program and writes the same octets |
| EduStable.StableChain | src/base/hj_edu.c:1740-1759 | the same for whole lists |
| EduPart.PartEdp | src/base/hj_edu.c:432-546 | the peer ends up with nothing the sender did not have: the same leaves at the same places, NULL only for the sender's own NULL or for variable-length data of length zero, zeros only behind the terminator of a char array |
| EduPart.PartNode | src/base/hj_edu.c:2051-2201 | the same for each structure, from any program counter |
| EduFacts.ListRoundTripIff | src/base/hj_edu.c:1740-1759 | a list whose counts are written comes back if and only if it has fewer than 65536 nodes |
| EduFacts.StringArrayIff | src/base/hj_edu.c:915-960 | an array of strings: the encoder writes a zero length per element, the decoder reads one string, so the two stay aligned if and only if the array has one element |
| EduFacts.EarlyTestDesynchronises | src/base/hj_edu.c:1553-1606 | a test in front of the field it reads: nothing is sent, yet the peer consumes an octet |
| EduFacts.FieldAfterListTestDesynchronises | src/base/hj_edu.c:2096-2199 | a field behind the list test is never sent, yet the peer reads it |
| EduNcsKey.NumKey | src/base/hj_edp.c:1608-1690 | numeric keys come back |
| EduNcsKey.StrKey | src/base/hj_edp.c:1608-1690 | string keys come back, by way of the octet-string rules |
| EduNcsKey.OctKeyLosesLength | src/base/hj_edp.c:1668-1690 | whatever the length of an octet-string key, the peer holds length zero, because the test function returns the format number as a jump distance |
| EduNcsKey.OctKeyIff | src/base/hj_edp.c:1668-1690 | the length of an octet-string key arrives if and only if it is zero |
| EduNcsKey.OtherFormatsFail | src/base/hj_edp.c:1668-1690 | a key of any other format is refused |
| EduLoops.RunRulesForEnc | src/base/hj_edu.c:1723-2039 | the encoding loop with its program counter, current node, stale attribute, 16-bit counter and late patch succeeds exactly when the recursive definition does, appends its octets and leaves its tree |
| EduLoops.RunRulesForDec | src/base/hj_edu.c:2051-2201 | the decoding loop reads exactly what the recursive definition does |
| EduLoops.EncTurn | src/base/hj_edu.c:1915-2036 | one turn of the encoding loop, for every kind of jump |
| EduLoops.PatchCount | src/base/hj_edu.c:1964-1975 | the 16-bit count of nodes ends up in the two octets reserved in front of them, and nothing else changes |
| EduCompile.CompileSound | src/base/hj_edu.c:3754-3796 | if every EDU_START from the program down names its own program: compiling it, to any depth, keeps every recorded program sound and forgets none; success means it is recorded |
| EduCompile.CompileRulesSound | src/base/hj_edu.c:2536-2799 | after the rule loop all checked rules hold, tests on user programs included, and all executed programs have passed |
| EduCompile.EveryRunSound | src/base/hj_edu.c:2370-2799 | after any sequence of such compilations, successful or not, every program recorded as passed is sound and closed under EDU_EXEC |
| EduNames.RecordsTheNamed | src/base/hj_edu.c:608-625 | whatever the programs and the handle: a compilation that succeeds records the program its EDU_START names |
| EduNames.OwnNameIff | src/base/hj_edu.c:608-625 | the name is needed: for a program that is accepted, what CompileSound concludes holds on every handle in order if and only if its EDU_START names it |
| EduNames.LoneCompile | src/base/hj_edu.c:2370-2799 | everything a compilation of a program of built-in fields does to a handle that knows the name: the named node is sized and passed, or cleared |
| EduNames.RefusedThenRecorded | src/base/hj_edu.c:608-625 | a program refused for a label is recorded as passed, unsound, by compiling another that names it |
| EduNames.PassedThenCleared | src/base/hj_edu.c:2397 | a program that has passed is unrecorded by the refusal of another that names it |
| EduAccepted.PassedAllTheWayDown | src/base/hj_edu.c:2536-2554 | a passed program executes, at any depth, only passed and sound programs |
| EduAccepted.CircleNeverPasses | src/base/hj_edu.c:2536-2554 | programs that execute each other in a circle are never accepted, nor is anything that leads to them |
| EduAccepted.CounterContainedIff | src/base/hj_edu.c:2370-2535 | for every passed program and every label a rule can return, with test routines that return no negative distance, both program counters stay inside prog[] if and only if no label is a negative number other than the reserved ones and the rules behind an early EDU_END keep the limits the others are held to |
| EduAccepted.RunsInside | src/base/hj_edu.c:1771-2201 | then no run of either loop, over any structures and from one list node to the next, leaves prog[] |
| EduAccepted.FreshIff | src/base/hj_edu.c:2370-2799 | a program of built-in fields is accepted on a fresh handle if and only if its own checks hold |
| EduAccepted.NegativeLabelAccepted | src/base/hj_edu.c:2370-2535 | a program with label -1 passes and sends both interpreters to rule -1 |
| EduAccepted.EarlyEndUnchecked | src/base/hj_edu.c:2427-2535 | a program whose labels are all in order up to its first EDU_END passes, yet jumps behind it and from there to rule 100 of 5 |
| EduFields.FieldSized | src/base/hj_edu.c:2595-2625 | whatever an accepted program executes has a recorded size, for a user program the one it declares, in 32 bits |
| EduFields.SlotInsideIff | src/base/hj_edu.c:2595-2684 | arrays and pointer and variable-length slots of an accepted program: with a declared size and a target that has one they end inside, and lie inside if and only if the offset is not negative; pointers are at most eight octets in front |
| EduFields.PointerAcceptedIff | src/base/hj_edu.c:2624-2650 | a pointer to a built-in type is accepted if and only if no size is declared, or it leads to a string, or it begins at most eight octets in front and ends inside |
| EduFields.ArrayAcceptedIff | src/base/hj_edu.c:2606-2623 | an array is accepted if and only if no size is declared, or it is of strings, or it ends inside, wherever it starts |
| EduFields.LengthUnchecked | src/base/hj_edu.c:2650-2678 | variable-length data is accepted if and only if its slot is as a pointer's: the offset of its length plays no part |
| EduFields.StringPointerOutside | src/base/hj_edu.c:2624-2650 | an accepted pointer to a string a thousand octets behind a structure of eight |
| EduFields.PointerInFront | src/base/hj_edu.c:2638-2650 | an accepted pointer that begins in front of its structure |
| EduFields.LengthOutside | src/base/hj_edu.c:2650-2678 | accepted data whose length is read a thousand octets behind a structure of eight |
| EduFields.ElementsInsideIff | src/base/hj_edu.c:2606-2637 | every element of an accepted array, sizes declared, lies inside if and only if the array does not start in front or has no element |
| EduFields.NextPointerInsideIff | src/base/hj_edu.c:2485-2515 | the next pointer of an accepted list ends inside, is not at offset zero and at most eight octets in front, and lies inside if and only if its offset is positive |
| EduFields.NextAcceptedIff | src/base/hj_edu.c:2485-2515 | those are exactly the offsets that are accepted |
| EduFields.NextInFront | src/base/hj_edu.c:2485-2515 | an accepted list whose next pointer begins in front of its nodes |
| EduFields.ReadsBounded | src/base/hj_edu.c:2683-2748 | for every test and every plain field of an accepted program with a declared size: a tested field with a size ends inside, and lies inside if and only if its offset is not negative; a plain field or a tested string starts in front of the end and ends at most its size less one outside |
| EduFields.PlainAcceptedIff | src/base/hj_edu.c:2683-2694 | a plain field is accepted if and only if no size is declared or its first octet lies in front of the end, at any negative offset too |
| EduFields.TestAcceptedIff | src/base/hj_edu.c:2700-2748 | a test is accepted if and only if no size is declared or the field, of a string the first octet, ends inside |
| EduFields.FieldInFront | src/base/hj_edu.c:2683-2694 | an accepted number a hundred octets in front of its structure |
| EduFields.PlainFieldOverrun | src/base/hj_edu.c:2683-2694 | the bound on plain fields is met: an accepted eight-octet number that ends seven octets behind its structure |
| EduFields.TestedStringOverrun | src/base/hj_edu.c:1573-1581 | and an accepted string test that reads a pointer that ends seven octets behind it |
| EduTerminates.AcyclicIff | src/base/hj_edu.c:2536-2554 | a rank that falls along every EDU_EXEC exists if and only if no program executes itself, at any depth |
| EduTerminates.CompileEnds | src/base/hj_edu.c:2536-2554 | whatever the names, the handle and the other programs: a compilation that cannot get to a program that executes itself comes back, within a depth given by the number of programs |
| EduTerminates.CompileIff | src/base/hj_edu.c:2370-2799 | for programs with their own names, after any run: a compilation that is not refused succeeds if and only if it cannot get to a circle, and otherwise does not come back |
| EduTerminates.CompileSteady | src/base/hj_edu.c:2370-2799 | an answer of the compile pass does not depend on the depth allowed |
| EduTerminates.PartnersNeverCompile | src/base/hj_edu.c:2397-2796 | two programs that point to each other: compiling either recurses past every depth, because edcompile_pass is set only at the end |
| EduTerminates.RankFalls | src/base/hj_edu.c:2536-2554 | if no program below executes itself, the number of programs below falls along every EDU_EXEC the interpreters can meet |
| EduTerminates.NeitherStrays | src/base/hj_edu.c:1723-2201 | on programs formed as EDU is meant, in no circle, both sides come back: the encoder with success on every value that fits, the decoder on every input; without char arrays it writes behind no array |
| EduTerminates.CharRuleOverrunsIff | src/base/hj_edu.c:1249-1294 | every char-array rule of every program writes behind its array if and only if the count in the input is above its size and the characters are there |
| EduTerminates.CharArrayOverrunsIff | src/base/hj_edu.c:1249-1294 | the same for a whole structure that is one char array |
| EduTerminates.FitCompiles | src/base/hj_edu.c:2536-2554 | programs formed as EDU is meant, in no circle, have their own names and lead the compile pass to no circle |
| EduTerminates.SendReceiveIff | src/base/hj_edu.c:432-546 | the two whole calls, compile pass included, on any two handles, whatever other programs there are: both come back, the sender succeeds if and only if its handle accepts the program, and the value arrives if and only if both do and every pointer got its count |
| HandleModel.OverlayRoundTrip | src/base/ncs_hdl.h:152-181 | the free-list view and the cell view of a word agree on where a free cell lives |
| HandleModel.PoolMapIff | src/base/hj_hdl.c:51-98 | the shift macro and the range table give every unit the same pool |
| HandleSafety.MatchesIff | src/base/hj_hdl.c:350-420 | the lookup accepts a handle if and only if it is bound to the service, or is the value printed on a free cell of a bank with bit 4 set |
| HandleSafety.TakeOk | src/base/hj_hdl.c:394-428 | a take on a bound handle returns its data and counts |
| HandleSafety.GiveOk | src/base/hj_hdl.c:431-457 | a give on a live or dying handle uncounts; the last one posts the destroyer |
| HandleSafety.DestroyAtOnce | src/base/hj_hdl.c:350-384 | with no take open a destroy frees the cell and returns the saved data |
| HandleSafety.DestroyBlocks | src/base/hj_hdl.c:700-729 | with takes open a destroy parks its semaphore in the cell and blocks |
| HandleSafety.ResumeOk | src/base/hj_hdl.c:350-384 | a blocked destroy goes on only after the last give, and then returns the saved data |
| HandleSafety.NewBankOk | src/base/hj_hdl.c:556-605 | carving a whole new bank keeps every cell free once, live or dying |
| HandleRuns.ScanEndsIff | src/base/hj_hdl.c:562-582 | the search for a bank ends if and only if the unit has one unused |
| HandleRuns.CreateOk | src/base/hj_hdl.c:270-295 | a created handle is never zero, was not in use, belongs to the pool asked for, and is bound to exactly what was saved; no other cell changes |
| HandleRuns.DeclareIff | src/base/hj_hdl.c:310-338 | a declare succeeds if and only if the handle is fresh on this side, and otherwise binds nothing |
| HandleHistory.StepOk | src/base/hj_hdl.c:270-457 | every call, gives too many included, keeps cells, free lists and abstract table in agreement |
| HandleHistory.EveryRun | src/base/hj_hdl.c:270-457 | from the empty manager, over every interleaving, each cell is exactly one of free (once, on the list of its own pool), live, or being destroyed |
| HandleHistory.TakeSees | src/base/hj_hdl.c:394-428 | take returns the saved data if and only if the table binds the handle to the service; never a semaphore |
| HandleHistory.DestroySees | src/base/hj_hdl.c:350-384 | destroy is refused unless bound, blocks exactly while takes are open, else returns the saved data |
| HandleHistory.ResumeSees | src/base/hj_hdl.c:350-384 | a waiting destroy goes on, with the saved data, if and only if no take is open any more |
| HandleHistory.GiveSees | src/base/hj_hdl.c:431-457 | the last give on a dying handle posts its destroyer, once, and no other give does |
| HandleHistory.WaiterPosted | src/base/hj_hdl.c:731-736 | a blocked destroyer has been posted exactly once if no take is open, else not at all |
| HandleHistory.RecycledIdle | src/base/hj_hdl.c:531-547 | a cell is recycled only by a destroy and only with no take open |
| HandleHistory.StepConstant | src/base/hj_hdl.c:350-457 | a binding keeps its owner and data for life, and dying is final |
| HandleHistory.StepUnbound | src/base/hj_hdl.c:350-457 | a handle once dying or gone leads nowhere until it is issued again |
| HandleHistory.DestroyedOnce | src/base/hj_hdl.c:350-384 | over any run, once a binding is dying or gone, takes and further destroys of its handle are refused and change nothing until it is issued again: at most one destroy succeeds |
| HandleReuse.StepSeq | src/base/hj_hdl.c:531-547 | only a release changes a sequence number, and moves it on by one |
| HandleReuse.RunSeq | src/base/hj_hdl.c:531-547 | over any run the number has advanced by the number of releases |
| HandleReuse.StaleIsHarmless | src/base/hj_hdl.c:364-366 | take, give and destroy on a stale value change nothing |
| HandleReuse.ReuseDistance | src/base/hj_hdl.c:536-540 | after its release a handle value stays stale and is not issued until the cell has been released fourteen more times |
| HandleReuse.ReuseIsTight | src/base/hj_hdl.c:270-384 | fourteen is exact: a run of that many creates and destroys, then a create that issues the very same value |
| HandleReuse.ReissuedNext | src/base/hj_hdl.c:270-295 | the next create in the pool of a released cell returns that cell under the following number |
| HandleReuse.RoundsRun | src/base/hj_hdl.c:531-547 | any number of creates and destroys in turn reuse one cell, each under the next number |
| HandleReuse.DestroyReadies | src/base/hj_hdl.c:531-547 | a destroy that does not block leaves its cell next in line in its pool |
| HandleReuse.PhantomTake | src/base/hj_hdl.c:394-428 | taking the value printed on such a free cell returns the free-list link and breaks the table |
| HandleReuse.PhantomExists | src/base/hj_hdl.c:531-547 | every free cell in a bank with bit 4 set can be taken so |
| HandleReuse.StrayGiveIff | src/base/hj_hdl.c:431-457 | a give on the value printed on a free cell leaves the table intact if and only if the word happens to read as one user |
| HandleReuse.TooManyTakes | src/base/hj_hdl.c:408-420 | the take after 2046 open ones wraps the 11-bit count, and a destroy then frees the cell under its users |
| HandleBackup.MirrorStep | src/base/hj_hdl.c:310-338 | replaying one step: the declare succeeds with the very handle of the primary, and the two sides stay alike |
| HandleBackup.MirrorCreate | src/base/hj_hdl.c:622-690 | whatever banks either side has made, the handle the primary creates is fresh on the backup |
| HandleBackup.ReplayKeepsUp | src/base/hj_hdl.c:270-338 | after any run of the primary, through any number of wraps, both sides hold the same handles for the same data |
| HandleManager.Manager.constructor | src/base/hj_hdl.c:173-221 | an empty table that the words agree with |
| HandleManager.Manager.Release | src/base/hj_hdl.c:531-547 | hm_free_cell: the cell is the next its pool hands out, under the following number |
| HandleManager.Manager.MakeBank | src/base/hj_hdl.c:583-600 | the carving loop: state and result are those of the step the theorems above are about |
| HandleManager.Manager.MakeFreeCells | src/base/hj_hdl.c:556-605 | finds an unused bank and fills it: state and result are those of the step the theorems above are about |
| HandleManager.Manager.CreateHdl | src/base/hj_hdl.c:270-295 | the table gains exactly the new handle, which is not zero and was fresh; fails if and only if there is no such pool; table and words stay in agreement |
| HandleManager.Manager.DeclareHdl | src/base/hj_hdl.c:310-338 | succeeds if and only if the handle is fresh, and then the table gains it; table and words stay in agreement |
| HandleManager.Manager.TargetCell | src/base/hj_hdl.c:670-692 | the walk along a free list ends at the entry printed with this very handle, if there is one |
| HandleManager.Manager.TakeHdl | src/base/hj_hdl.c:394-428 | data if and only if the table binds the handle to the service, and then one more take is open; for every call a client may make table and words stay in agreement |
| HandleManager.Manager.GiveHdl | src/base/hj_hdl.c:431-457 | one open take fewer, and a waiting destroyer has been posted once if and only if none is left; table and words stay in agreement |
| HandleManager.Manager.DestroyHdl | src/base/hj_hdl.c:350-384 | refused if and only if not bound, blocked if and only if takes are open, else the data and the binding is gone; table and words stay in agreement |
| HandleManager.Manager.ResumeDestroy | src/base/hj_hdl.c:350-384 | after the wait: the saved data and the binding gone if and only if it was dying with no take open; table and words stay in agreement |
| TimerSpec.LeftMeans | src/base/hj_tmr.c:77-90 | time left is the distance to the deadline, or zero |
| TimerSpec.DueIsLongestPrefix | src/base/hj_tmr.c:535-580 | what expiry fires is the longest prefix whose deadlines have passed, and nothing else |
| TimerSpec.LatestIff | src/base/hj_tmr.c:248-337 | the bound on a timer is the least upper bound of the deadlines up to it |
| TimerSpec.StartNeverDelays | src/base/hj_tmr.c:248-337 | starting another timer does not move the bound of any queued one |
| TimerSpec.StopNeverDelays | src/base/hj_tmr.c:374-408 | stopping another timer can only lower it |
| TimerSpec.ExpiryNeverDelays | src/base/hj_tmr.c:535-580 | so can an expiry |
| TimerSpec.FiredByLatest | src/base/hj_tmr.c:535-580 | an expiry at or after the bound fires the timer |
| TimerSpec.OnTimeIff | src/base/hj_tmr.c:296-337 | a new timer is bound by its own deadline if and only if it does not land behind a longer one |
| TimerSpec.NotSorted | src/base/hj_tmr.c:305-315 | periods 10, 20, 15 leave 15 behind 20: the list is not in deadline order |
| TimerRuns.NeverDelayed | src/base/hj_tmr.c:175-408 | no start, stop or expiry raises the bound; a timer leaves the list only by its own stop or at or after its deadline |
| TimerRuns.BoundHolds | src/base/hj_tmr.c:175-597 | over any run the bound only falls |
| TimerRuns.FiresInTime | src/base/hj_tmr.c:510-597 | over any run, a timer nobody stops has fired once an expiry comes at or after the bound it had at the start |
| TimerBlock.TmrCb.constructor | src/base/hj_tmr.c:104-126 | an empty list with the OS timer off |
| TimerBlock.TmrCb.FindPlace | src/base/hj_tmr.c:299-334 | the walk ends at the first node with at least the period left, else at the last node |
| TimerBlock.TmrCb.LinkFirst | src/base/hj_tmr.c:260-270 | puts a timer first, links correct both ways |
| TimerBlock.TmrCb.LinkAfter | src/base/hj_tmr.c:305-315 | puts a timer behind a node, links correct both ways |
| TimerBlock.TmrCb.Unlink | src/base/hj_tmr.c:374-403 | takes a node out, links correct both ways |
| TimerBlock.TmrCb.Start | src/base/hj_tmr.c:175-340 | the list becomes the started one or stays (null, zero period, already queued); queued if and only if tmr_value is not 0; the OS timer runs if and only if the list is non-empty, set for the deadline of the head |
| TimerBlock.TmrCb.Stop | src/base/hj_tmr.c:356-413 | fails if and only if the timer is not queued; otherwise exactly it goes, and the OS timer follows the new head |
| TimerBlock.TmrCb.Exp | src/base/hj_tmr.c:510-600 | fires exactly the due prefix in order, keeps the rest, sets the OS timer for the new head; fails if and only if the list is empty |
| TimerCallbacks.PlainExpiry | src/base/hj_tmr.c:535-580 | with callbacks that leave the block alone the loop fires the due prefix, each once |
| TimerCallbacks.NoneEarlyIff | src/base/hj_tmr.c:561-575 | with callbacks that start and stop timers, every call is for a queued timer whose deadline has passed if and only if at each turn the callback leaves the saved next timer queued |
| TimerCallbacks.GentleExpiry | src/base/hj_tmr.c:541-575 | a condition on the list and the callbacks alone: if no callback stops a due timer, the one behind them or one that callbacks start, the loop fires exactly the due prefix, in order, whatever is started and stopped besides |
| TimerCallbacks.NoneLost | src/base/hj_tmr.c:561-575 | then every queued timer that no callback stops is fired or still queued |
| TimerCallbacks.StartsAreSteady | src/base/hj_tmr.c:561-575 | callbacks that only start timers are always safe |
| TimerCallbacks.StopInCallbackLoses | src/base/hj_tmr.c:541-575 | a callback that stops the next timer: that timer is called early and the one behind it is lost |
| LogBuffer.FixedIff | src/base/buffer.h:56-64 | the digits written are the only ones of that width that denote the number |
| LogBuffer.NumberValue | src/base/buffer.h:69-72 | the number is denoted without needless leading zeros |
| LogBuffer.Buffer.AppendChar | src/base/buffer.h:51-53 | the buffer holds the first bytes of all that was appended |
| LogBuffer.Buffer.AppendFixedWidthNumber | src/base/buffer.h:56-64 | appends the fixed-width digits |
| LogBuffer.Buffer.AppendNumber | src/base/buffer.h:69-72 | appends the shortest digits |
| LogBuffer.Buffer.AppendString | src/base/buffer.h:74-79 | appends the string as far as it fits |
| LogBuffer.Buffer.AppendZone | src/base/log_message.h:302-309 | works the colon into the zone text in place |
| LogText.NameIff | src/base/log_message.h:67-90 | sanitised names are always legal, and a name is unchanged if and only if it was legal |
| LogText.MakeName | src/base/log_message.h:67-90 | the constructor loop computes the sanitised name |
| LogText.FractionMeans | src/base/log_message.h:292-301 | the fraction does not end in zero and denotes exactly the microseconds |
| LogElements.InsertOrdered | src/base/log_message.h:160-176 | insertion keeps the order, adds an element exactly when its id is new, and keeps all others |
| LogElements.DistinctIds | src/base/log_message.h:175-176 | whatever is put in, the SD-IDs are pairwise distinct and each given id is there (section 6.3.2 of RFC 5424) |
| LogParse.ValueBack | src/base/log_message.h:331-340 | escaping is undone by reading, whatever the value and whatever follows (section 6.3.3 of RFC 5424) |
| LogParse.ElementsBack | src/base/log_message.h:320-340 | structured elements read back with all names and values |
| LogParse.SdMsgBack | src/base/log_message.h:219-230 | structured data and message cannot be confused |
| LogRoundTrip.TimeBack | src/base/log_message.h:274-318 | date, time, microseconds and zone read back; only the sign of a zero offset is lost |
| LogRoundTrip.PriBack | src/base/log_message.h:208-213 | PRI reads back as facility and severity |
| LogRoundTrip.ReadBack | src/base/log_message.h:201-231 | every record reads back: facility, severity, time, host, application, process, message id, elements, message |
| LogRoundTrip.Unambiguous | src/base/log_message.h:201-231 | two records with the same text tell the same |
| LogWrite.Stripped | src/base/log_message.h:292-301 | the loop that takes trailing zeros off finds the fraction |
| LogWrite.WriteTime | src/base/log_message.h:274-318 | writes the time stamp, and the zone only if six bytes are free |
| LogWrite.WriteParam | src/base/log_message.h:331-340 | writes a parameter with its value escaped |
| LogWrite.WriteElement | src/base/log_message.h:320-328 | writes an element and its parameters in order |
| LogWrite.Write | src/base/log_message.h:201-231 | the buffer holds the first bytes of the record text with or without the zone |
| LogWrite.CleanIff | src/base/log_message.h:302-313 | an empty buffer holds the first bytes of the full text if and only if the zone does not fall on its last five bytes |
| LogWrite.CleanForAllIff | src/base/log_message.h:302-313 | truncation is clean for all records if and only if the capacity is at most 24 or at least 39 |
| LogFiles.RotateKeeps | src/base/log_writer.cc:78-88 | rotation loses exactly the oldest backup and leaves no live file |
| LogFiles.DownKeeps | src/base/log_writer.cc:81-87 | the renames move every file up by one and lose nothing, with gaps allowed |
| LogWriter.Writer.constructor | src/base/log_writer.cc:29-38 | starts with nothing pending |
| LogWriter.Writer.Open | src/base/log_writer.cc:54-67 | opens or creates the live file at its end |
| LogWriter.Writer.Close | src/base/log_writer.cc:69-76 | closes the file |
| LogWriter.Writer.RotateLog | src/base/log_writer.cc:78-88 | rotates the files as above |
| LogWriter.Writer.Put | src/base/log_writer.cc:125-133 | the write loop stores all bytes however the system splits them |
| LogWriter.Writer.Flush | src/base/log_writer.cc:113-134 | all pending bytes reach the files in order; the files hold a suffix of everything ever flushed, and no file the writer began reaches max_file_size_ + kBufferSize |
| LogWriter.Writer.Write | src/base/log_writer.cc:90-105 | the bytes pass on unchanged and the buffer is not exceeded |
| LogWriter.Writer.Commit | src/base/log_writer.cc:107-111 | bytes already placed are taken over, and there is room for a whole message again |
| TraceRing.NewlineIff | src/base/logtrace_buffer.cc:57-66 | a stored line ends in a newline if and only if it was not cut off in front of its own |
| TraceRing.WholeIff | src/base/logtrace_buffer.cc:57-66 | a trace is stored whole if and only if it ends in a newline and has at most 248 characters |
| TraceRing.RingIsLast | src/base/logtrace_buffer.cc:57-93 | after any run of writes, refused ones included, and flushes the slots hold the last n lines since the previous flush, in order; a refused write shows only while it is the last event, as a bare prefix in the slot that was to go next |
| TraceRing.FlushHands | src/base/logtrace_buffer.cc:74-93 | what a flush hands over after any run: those lines, oldest first, or, right after a refused write, the prefix in place of the oldest |
| TraceRing.FlushHandsIff | src/base/logtrace_buffer.cc:57-93 | a flush hands the writer exactly the last n lines stored since the flush before if and only if no refused write came just before it |
| TraceRing.NextWriteHeals | src/base/logtrace_buffer.cc:57-67 | a refused write leaves no trace once another line has been stored |
| TraceBuffer.Buffer.constructor | src/base/logtrace_buffer.cc:27-48 | empty slots |
| TraceBuffer.Buffer.Store | src/base/logtrace_buffer.cc:57-67 | stores one line in the slot that is next |
| TraceBuffer.Buffer.FlushRange | src/base/logtrace_buffer.cc:77-82 | hands a range of slots over and empties them |
| TraceBuffer.Buffer.FlushBuffer | src/base/logtrace_buffer.cc:74-93 | hands everything to the file, oldest first, and empties the slots |
| TraceBuffer.Buffer.WriteToBuffer | src/base/logtrace_buffer.cc:57-68 | slots and bytes handed over are those of the run so far |
| UsrBuf.Uba.constructor | src/base/hj_ubaid.c:106-118 | an empty chain of one link |
| UsrBuf.Uba.Append | src/base/sysf_mem.c:856-915 | the chain grows by a non-empty prefix of the data, or by all of it when the total is asked for |
| UsrBuf.Uba.EncodeOctets | src/base/hj_ubaid.c:713-764 | exactly the source is appended and ttl grows by count, however the chain splits it; a null source gives zeros |
| UsrBuf.Uba.EncodeInPayloads | src/base/hj_enc.c:60-93 | the same, whole payloads at a time; fails, before anything is written, if and only if a fresh link has less room than the first payload |
| UsrBuf.Uba.Put | src/base/hj_ubaid.c:226-276 | reserve, write and claim of one contiguous piece |
| UsrBuf.Uba.Skip | src/base/sysf_mem.c:1001-1025 | consumes exactly count octets across links |
| UsrBuf.Uba.Flatten | src/base/sysf_mem.c:1098-1135 | the first count octets, gathered across as many links as they are spread over |
| UsrBuf.Uba.DecodeOctets | src/base/hj_ubaid.c:786-814 | returns the first count octets and consumes them |
| SaName.Alloc | src/base/osaf_extended_name.c:173-190 | the name made from a string stands for that string |
| SaName.NameRoundTrip | src/base/hj_enc.c:384-452 | both wire forms read back as the same name and leave exactly what followed, for all names below 65535 octets |
| SaName.EncodeString | src/base/hj_enc.c:480-498 | succeeds if and only if the string fits a fresh payload of its pool |
| SaName.EncodeName | src/base/hj_enc.c:384-406 | appends the wire form and adds its length to ttl; fails if and only if a long name does not fit a fresh payload |
| SaName.DecodeName | src/base/hj_enc.c:416-452 | returns the name and consumes exactly its octets |
| Queue.NcsQueue.constructor | src/base/hj_queue.c:388-394 | empty |
| Queue.NcsQueue.Enqueue | src/base/hj_queue.c:42-65 | the sequence gets the element at its end |
| Queue.NcsQueue.EnqueueHead | src/base/hj_queue.c:84-106 | the sequence gets the element at its front |
| Queue.NcsQueue.Dequeue | src/base/hj_queue.c:125-146 | the first element leaves; NULL if and only if empty |
| Queue.NcsQueue.FindItem | src/base/hj_queue.c:223-241 | the first match, NULL if and only if there is none |
| Queue.NcsQueue.Unlink | src/base/hj_queue.c:176-190 | one element leaves, links, tail and count stay right; its own next is left as it was |
| Queue.NcsQueue.RemoveItem | src/base/hj_queue.c:168-201 | exactly the first match leaves and the rest keep their order |

## Left out

- EDU in TLV mode, pretty-printing and its database, selective execution by a variable array of rules, error strings.
- Allocation failure everywhere, and raw pointer arithmetic.
- EduFacts.ExactRoundTripIff: takes user programs as compiled on the handle, as ncs_edu_ver_exec leaves them; EduTerminates.SendReceiveIff puts the compile pass in front.
- EDU programs that execute themselves through NULL-terminated data: the compile pass does not come back on them (EduTerminates.CompileIff), so the interpreters refuse them.
- EduCompile.CompileSound: asks that every EDU_START from the program down names its own program, because it is false otherwise (EduNames.OwnNameIff).
- EduFacts.RoundTripIff: asks for the own name too, because the decoder takes the list attribute from the node and the encoder from the program.
- EduFields.ArrayAcceptedIff: an array's offset and size are added without the overflow of long.
- TimerCallbacks.NoneEarlyIff: does not model the OS timer; its condition is about each turn, TimerCallbacks.GentleExpiry has one on the list and the callbacks.
- UsrBuf.Uba.Flatten: asked for nothing on a chain without octets it gives nothing, where the code follows a null link.
- HandleHistory.StepOk: assumes fewer than 2047 open takes of a handle and callers that do not present the value printed on a free cell; HandleReuse.PhantomTake, HandleReuse.StrayGiveIff and HandleReuse.TooManyTakes show what happens otherwise.
- HandleManager.Manager.MakeFreeCells: assumes that the unit has an unused bank, because the search does not end otherwise (HandleRuns.ScanEndsIff).
- The semaphore, lock and thread primitives; a blocked destroy is two steps.
- Timer deletion and destruction; TimerBlock.TmrCb.Exp returns the callbacks in order, TimerCallbacks runs them.
- TimerCallbacks: models the interleaving on values, not on the linked structure.
- The format-string overload of LogMessage::Write, localtime_r and strftime.
- Failing system calls in the log writer; a partial write is modelled, a refused one is not.
- LogWriter.Writer.Commit: the caller must have room for what it places; Writer.Write may leave less than a whole message.
- The owner of a trace buffer and flushes from its thread.
- Shared payloads beyond the test that keeps data out of them; removal at the end of a chain; reservations at the start.
- ncs_encode_key, which does not write numeric values, and the remaining one-line encoders.
- Queue.NcsQueue.Enqueue: assumes that the element is not queued already; the code does not look.
- Queue iterators and the reads of the queue head outside its lock.
- Daemon start-up, configuration, hashing, file notification, the AIS wrappers, the Python bindings and the samples.
