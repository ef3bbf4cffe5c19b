# Verification of the scanner driver's library code

This project models parts of the scanner driver package in Dafny and proves what they promise. Each module names the
file that it models. Where the original updates state in place, the model does too: classes with fields, arrays and
loops, proved against functions over values; the lemmas about those functions state what the code is for.

- **MD5** (`Rfc1321`, `Md5Rounds`, `Md5Length`, `Md5Context`, `Md5Stream`, `Md5Vectors`): `Rfc1321` defines the digest
  of a whole message as the standard does, and `Md5Vectors` works out two digests of its test suite. The unrolled
  rounds, the buffering of a message that arrives in pieces, the length counter and the reading of files are proved
  equal to it.
- **getopt** (`GetoptExchange`, `GetoptSpec`, `Getopt`, `GetoptRun`, `GetoptReread`, `GetoptMeaning`):
  `GetoptSpec.Scan` reads a command line once from left to right and moves nothing. Every call of the permuting state
  machine follows it, whole runs yield it, and but for one case the permuted command line means the same as the
  original one. `GetoptMeaning` says what each form of an option means to a caller.
- **The SANE wire** (`WireSpec`, `WireRoundTrip`, `WireReceived`, `WireMessages`, `WireIo`, `WireTransfer`,
  `WireCall`, `WireLayout`): a codec function is described by a term, so that one traversal and one round trip cover
  every structure. The buffer, partial reads and writes and the accounting of memory are those of the original.
  `WireLayout` gives the bytes of the messages as another implementation would have to read them.
- **The text codec** (`AsciiCodec`, `AsciiStream`).
- **The scan client** (`ScanReceive`, `ScanConnection`, `ScanDevice`, `ScanSession`, `ScanImage`, `ScanPages`,
  `ScanDaemon`, `ScanFeed`): messages from a socket, the start/read/cancel state machine of a device over whole
  sessions, and the page loop of the command-line client. Sockets, the daemon, files and the user are sequences of
  outcomes, over all of which the theorems quantify. The connection itself records what is looked for, sent and
  received and how each command ends; a law (`Lawful`) says of such a record what every request and every outcome must
  be, and sessions are proved to keep it. `ScanImage` and `ScanDaemon` show that with a daemon that keeps to the
  protocol, every page arrives whole. `ScanFeed` connects the bytes on the socket to what the device and the page loop
  see.
- **Smaller cores**: `StrCaseStr`, `MagicEdges`, `MagicColumns` and `MagicCrop`, `ConstrainSpec` and `Constrain`,
  `UsbTable`; `Machine` holds bytes and 32-bit words.

`hide` statements keep proofs short; they take definitions away from the verifier and add nothing.

## What turned out to be false, and where exactly

- md5: the length counter is wrong for some buffers of 2^32 bytes or more (`IncrementCountsBytes` says for which;
  `IncrementMiscountsHugeBuffers` gives one).
- getopt: an ambiguous name after `-W` moves optind once too often; at the end of the command line it moves past argc
  (`OverrunExactly`, `OverrunHappens`). The sign in front of optstring is skipped by the first call only
  (`SignIsReadLater`; `SignMatters`). An option value of -1 cannot be told from the end, and ends a run early
  (`CallUntilEnd`, `Run`; `MinusOneHidesOptions`).
- getopt: permuting changes the meaning of a command line exactly if its last option lacks a required argument and
  non-options are moved behind it (`PermutingKeepsMeaning`, `PermutingMayChangeMeaning`).
- Wire: freeing gives back less than receiving took exactly if a string holds a NUL before its last byte, or an array
  looks shorter than it was received (`ReceivedFrees`, `CallAndFree`; `StringLosesMemory`, `WordListLosesMemory`,
  `StringListLosesMemory`); for whatever an encoder has sent it gives all back (`FreeingUndoesReceiving`). After a
  write has failed, the bytes that it sent are sent again (`FlushAndCall`).
- Text codec: -2^31 is read back as 0 (`ListRoundTrip` is an equivalence). `get_digit` also takes the six characters
  between `Z` and `a` for 4 to 9, which `HexValue` follows.
- Scan client: a header that arrives in pieces is taken for a whole one, and then the wrong message is received
  (`MessageExactly`, `ReceivedExactly`; `SplitHeader`). An error message with the code SUCCESS makes `start` report
  GOOD (`GoodExactly`; `GoodWithoutScan`), and `scan` succeed (`SuccessExactly`; `SucceedingAtOnce`), without a scan.
  `scan` forgets a failure to write the last data of a page, so that it succeeds although data are lost (`Scan`,
  `LostExactly`; `LosingLast`). When the connection is lost between two pages, `start` asks for the next page on a
  closed socket and fails until there is a cancel (`LossStopsStarts`; `StrandedUntilCancel`). A cancel stops later
  reads exactly if it finds the daemon while a scan is going on (`Cancel`, `CancelStopsReads`); if the page is
  complete (`CancelAfterTheEnd`), or the daemon has closed the connection (`CancelUnnoticed`), they report INVAL
  instead of CANCELLED. EOF is also reported, before enough has been delivered, when the daemon sends END_OF_PAGE
  (`Read`; `EarlyEnd`).
- Constraints: rounding can pass max if quant does not divide the range (`ConstrainedIsAccepted`;
  `RoundingPassesMax`), and sum and result can overflow (`QuantisedExactly`; `SumOverflows`, `RoundingOverflows`),
  after which repeating changes the value (`ConstrainedStays`; `RepeatingChanges`). A string that is in the list may
  be replaced by an earlier entry that differs in case (`EntryStaysExactly`; `EntryMayChange`).

## Model

| member | source | states |
|---|---|---|
| Rfc1321.FoldConcat | lib/md5.c:328-449 | compressing a concatenation of whole blocks is compressing its parts in order, for the one-shot definition of RFC 1321 |
| Md5Rounds.FFIsF | lib/md5.c:296-299 | the shortened form of the first function equals F of section 3.4 of RFC 1321 |
| Md5Rounds.FGIsG | lib/md5.c:296-299 | FF with permuted arguments equals G of section 3.4 |
| Md5Rounds.OpIsCombine | lib/md5.c:340-352 | one OP macro computes the operation [abcd k s i] of section 3.4 |
| Md5Rounds.PerformRound1 | lib/md5.c:360-376 | the sixteen unrolled steps of round 1 are steps 1 to 16 of the standard, with its message words, shifts and constants |
| Md5Rounds.PerformRound2 | lib/md5.c:391-407 | the same for round 2 |
| Md5Rounds.PerformRound3 | lib/md5.c:409-425 | the same for round 3 |
| Md5Rounds.PerformRound4 | lib/md5.c:427-443 | the same for round 4 |
| Md5Rounds.StandardRun | lib/md5.c:354-443 | 64 steps in a row end in the state that the recursive step form defines |
| Md5Rounds.CompressBlock | lib/md5.c:330-450 | the unrolled body of md5_process_block equals the compression function of RFC 1321 for every state and block |
| Md5Length.IncrementCountsBytes | lib/md5.c:317-321 | the carry test adds len modulo 2^64, for every counter, exactly if len fits in 32 bits or wraps in the one way that the test notices |
| Md5Length.IncrementMiscountsHugeBuffers | lib/md5.c:317-321 | a buffer of 2^32 bytes or more for which the counter is wrong |
| Md5Length.IncrementAddsLength | lib/md5.c:127-130 | the counter stays equal to the bytes counted modulo 2^64 |
| Md5Length.ShiftedWords | lib/md5.c:135-138 | the shifts and the bitwise or of the two counter words compute BitsLow and BitsHigh, the words of the length field |
| Md5Length.LengthField | lib/md5.c:135-138 | the eight bytes written are eight times the message length modulo 2^64, low-order byte first, as section 3.2 of RFC 1321 asks |
| Md5Context.PaddingFits | lib/md5.c:132-141 | for 0 to 64 waiting bytes the appended bytes end the first or the second block and are the padding of section 3.1 |
| Md5Context.PaddedMessage | lib/md5.c:123-141 | compressed part, waiting bytes, padding and length field together are the padded message of the standard |
| Md5Context.Md5Ctx.constructor | lib/md5.c:87-98 | a fresh context stands for the empty message |
| Md5Context.Md5Ctx.ProcessBlock | lib/md5.c:304-457 | whole blocks are folded into the registers in order, and the counter grows by their length |
| Md5Context.Md5Ctx.CompressBuffer | lib/md5.c:233-241 | compressing the front of the buffer and moving its rest down does not change the message |
| Md5Context.Md5Ctx.FillBuffer | lib/md5.c:223-245 | the carry-over branch takes a beginning of the data and leaves the buffer empty unless it takes all |
| Md5Context.Md5Ctx.ProcessWholeBlocks | lib/md5.c:247-272 | both the unaligned loop, which keeps 1 to 64 bytes back, and the aligned path append the bytes they take |
| Md5Context.Md5Ctx.KeepRemaining | lib/md5.c:274-288 | the tail appends 1 to 64 bytes and never leaves more than 64 waiting |
| Md5Context.Md5Ctx.ProcessBytes | lib/md5.c:220-289 | whatever the alignment, the message grows by exactly the data, and at most 64 bytes wait in the buffer |
| Md5Context.Md5Ctx.ReadCtx | lib/md5.c:104-114 | the registers, low-order byte first, in the first sixteen bytes and nowhere else |
| Md5Context.Md5Ctx.PadBuffer | lib/md5.c:121-138 | one or two blocks that complete the padded message |
| Md5Context.Md5Ctx.FinishCtx | lib/md5.c:120-145 | the result is the RFC 1321 digest of the whole message, whenever the counter is right |
| Md5Context.Md5Buffer | lib/md5.c:204-217 | the digest of a buffer of less than 2^32 bytes |
| Md5Context.DigestOfChunks | lib/md5.c:220-289 | chunking independence: any sequence of chunks, each under 2^32 bytes and with the alignment branch chosen freely, gives the one-shot digest of their concatenation |
| Md5Stream.ReadBlock | lib/md5.c:167-179 | the inner loop gathers a block from partial reads without losing, doubling or reordering bytes |
| Md5Stream.DigestStream | lib/md5.c:149-198 | 1 exactly if a read fails, and otherwise the digest of everything in the file, however the reads are broken up |
| Md5Vectors.InitialBytes | lib/md5.c:87-98 | the sixteen bytes of the initial registers, as section 3.3 of RFC 1321 prints them |
| Md5Vectors.DigestOfNothing | lib/md5.c:204-217 | the digest of the empty message in appendix A.5 of RFC 1321, as sixteen literal bytes |
| Md5Vectors.DigestOfLetters | lib/md5.c:204-217 | the digest of the 62 letters and digits in the same test suite, a message of two blocks |
| GetoptExchange.ExchangeByElements | lib/getopt.c:309-387 | an array whose elements come from the places of the exchange is the exchange of the two segments |
| GetoptExchange.ExchangeSegments | lib/getopt.c:309-387 | the swaps of the shorter segment with the far end of the longer one leave prefix, later segment, earlier segment, suffix, for all lengths |
| Getopt.MyIndex | lib/getopt.c:226-238 | the first occurrence of a character |
| Getopt.FindLong | lib/getopt.c:658-687 | the loop over the long options finds what Lookup defines: an exact name, or the first abbreviation unless another one differs |
| GetoptSpec.FirstExactIsLeast | lib/getopt.c:661-674 | the exact match that counts is the first one |
| GetoptSpec.FirstPrefixedIsLeast | lib/getopt.c:675-680 | the abbreviation that counts is the first one |
| GetoptSpec.LookupFinds | lib/getopt.c:658-719 | an option is found exactly if the name is one of the names or all options that it abbreviates do the same |
| GetoptSpec.SignIsReadLater | lib/getopt.c:410-425 | only the first call skips the sign in front of optstring: later ones accept it as an option and no longer see the colon behind it |
| GetoptRun.SignMatters | lib/getopt.c:410-425 | "-b -a" with optstring "+:ba:": the second call reports the missing argument of -a with "?", and the first call reports it with ":" if "-a" is all there is |
| GetoptSpec.DecodeProgress | lib/getopt.c:640-1193 | a call that stays in an element shortens its unread part and one that leaves it leaves nothing: half of the termination measure |
| GetoptSpec.DecodeStaysInside | lib/getopt.c:884-1193 | without "W;" no call moves optind past argc |
| GetoptRun.OverrunExactly | lib/getopt.c:939-1047 | optind passes argc exactly if the element is read as short options, the option is -W, and an ambiguous name is the last thing on the command line |
| GetoptRun.OverrunHappens | lib/getopt.c:1022-1047 | the command line "-W a" with the long options ab and ac does that |
| Getopt.Getopt.constructor | lib/getopt.c:124-165 | the static variables before the first call |
| Getopt.Getopt.Initialize | lib/getopt.c:394-425 | the ordering mode follows the sign of optstring and then POSIXLY_CORRECT |
| Getopt.Getopt.Exchange | lib/getopt.c:309-387 | both records are moved to the new place of the non-options |
| Getopt.Getopt.MoveOptions | lib/getopt.c:567-573 | options passed since the last exchange come to stand before the skipped elements, in order |
| Getopt.Getopt.SkipElements | lib/getopt.c:575-580 | skips all elements up to the next option and records them |
| Getopt.Getopt.Settle | lib/getopt.c:558-581 | at each element boundary first_nonopt <= last_nonopt <= optind <= argc, and the skipped elements grow by those up to the next option |
| Getopt.Getopt.EndOptions | lib/getopt.c:583-599 | "--" is passed like an option and everything after it is skipped |
| Getopt.Getopt.Reach | lib/getopt.c:583-629 | what is done with the element that is reached: end, non-option in order, or option text |
| Getopt.Getopt.TakeFound | lib/getopt.c:718-826 | a long option that has been found: its argument, *longind, the flag or the value |
| Getopt.Getopt.TakeLong | lib/getopt.c:646-882 | a long option, found, ambiguous, unknown or read as short options |
| Getopt.Getopt.TakeW | lib/getopt.c:939-1130 | -W: its argument is read as a long option; ambiguous names advance optind once more than they should |
| Getopt.Getopt.TakeArgument | lib/getopt.c:1131-1192 | optional and required arguments of a short option |
| Getopt.Getopt.TakeShort | lib/getopt.c:884-1193 | a short option has the effect of DecodeShort on every variable |
| Getopt.Getopt.TakeOption | lib/getopt.c:640-1193 | decoding one option has the effect of Decode on every variable |
| Getopt.Getopt.GetoptInternal | lib/getopt.c:516-1194 | every call: the return value and all variables are those of OneCall on the elements still to be looked at, argv is divided as OneCall says, and has the same elements as before, whatever the call reports |
| GetoptSpec.ScanSkipsLeading | lib/getopt.c:575-580 | skipping non-options one by one or all at once is the same |
| GetoptSpec.CallFollowsScan | lib/getopt.c:516-1194 | one call reports the next event of a single left-to-right reading of the command line |
| GetoptRun.ScanDivides | lib/getopt.c:516-634 | options with arguments, and other elements, each keep the order of the command line, and together they are all of it |
| GetoptRun.RunPermutes | lib/getopt.c:309-387 | argv is permuted |
| GetoptRun.NoOverrunWithoutW | lib/getopt.c:516-1194 | without "W;" no run leaves argv |
| GetoptRun.EventsAreNotTheEnd | lib/getopt.c:601-622 | if no long option has the value -1, no event has it, so that -1 means the end |
| GetoptRun.CallOnce | lib/getopt.c:516-1194 | one call in any run brings it one event further, or ends it with argv divided |
| GetoptRun.CallUntilEnd | lib/getopt.c:1216-1232 | the loop of a caller ends and has seen all events before the first with the value -1; if there is none, argv is divided; argv keeps its elements |
| GetoptRun.MinusOneHidesOptions | lib/getopt.c:601-622 | with a long option x whose value is -1, a caller sees nothing of "--x --y" |
| GetoptRun.Run | lib/getopt.c:1216-1278 | a whole run, in every ordering mode: it ends; argv is permuted; what the caller sees is the left-to-right reading, up to an option with the value -1; if there is none, argv[..optind) holds the options, their arguments and "--", and argv[optind..) the other elements, in the original order |
| GetoptReread.DecodeLocal | lib/getopt.c:640-1193 | decoding looks at no more of what follows than it uses, unless a required argument is missing |
| GetoptReread.LackingTakesMore | lib/getopt.c:784-816 | an option without its argument is the last thing on the command line, and would take one more element |
| GetoptReread.StableExactly | lib/getopt.c:516-1194 | the induction behind PermutingKeepsMeaning, with elements that were skipped before |
| GetoptReread.PermutingKeepsMeaning | lib/getopt.c:516-1194 | a second run over the permuted argv reports the same and changes nothing, exactly if no option lacks its argument or there are only options |
| GetoptReread.PermutingMayChangeMeaning | lib/getopt.c:1150-1170 | "x" and "-a" with optstring "a:": after the run "-a" takes "x" as its argument |
| GetoptMeaning.LongWithArgument | lib/getopt.c:718-746 | --name=v, before anything: the value of the option with v as its argument, if it takes one; one element is passed |
| GetoptMeaning.LongWithNext | lib/getopt.c:784-797 | --name v: the same for a required argument; two elements are passed |
| GetoptMeaning.LongAlone | lib/getopt.c:798-826 | --name: no argument, unless one is required |
| GetoptMeaning.LongInError | lib/getopt.c:747-816 | --name=v without an argument to take, and --name without the one that it requires |
| GetoptMeaning.LongUnknown | lib/getopt.c:700-882 | an unknown or ambiguous name: a question mark |
| GetoptMeaning.StrictLookupFinds | lib/getopt.c:658-719 | in getopt_long_only and behind -W, a name is found exactly if it is one of the names or abbreviates only one |
| GetoptMeaning.BothFormsOfLong | lib/getopt.c:718-826 | --name=v and --name v report the same, whatever follows |
| GetoptMeaning.ShortWithArgument | lib/getopt.c:1131-1192 | -xv: the letter with v as its argument, if a colon stands behind it in optstring |
| GetoptMeaning.ShortWithNext | lib/getopt.c:1150-1192 | -x v: the same if there is only one colon; two elements are passed |
| GetoptMeaning.ShortAlone | lib/getopt.c:1131-1149 | -x with two colons or none: no argument, and one element is passed |
| GetoptMeaning.ShortInError | lib/getopt.c:884-1192 | -x without the argument that it requires, and a letter that is unknown |
| GetoptMeaning.BothFormsOfShort | lib/getopt.c:1131-1192 | -xv and -x v report the same, whatever follows |
| GetoptMeaning.LettersTogether | lib/getopt.c:884-1193 | -xy... and -x -y... report the same if x takes no argument |
| GetoptMeaning.LongBehindW | lib/getopt.c:939-1130 | -Wname=v and -W name=v: the long option with v; one without an argument gets its own name; what is no long option is the argument of -W |
| GetoptMeaning.OtherElement | lib/getopt.c:575-622 | an element that is no option is reported, ends the options or is passed over, by the sign in front of optstring and POSIXLY_CORRECT |
| GetoptMeaning.DoubleDash | lib/getopt.c:583-599 | "--" ends the options, and all the rest are other elements |
| GetoptMeaning.RunFrom | lib/getopt.c:1216-1278 | in a whole run, the first thing that the caller gets is the value and the argument that these laws say |
| WireSpec.WordRoundTrip | sanei/sanei_codec_bin.c:98-130 | every 32-bit word survives its four bytes, most significant first |
| WireRoundTrip.StringSurvives | sanei/sanei_codec_bin.c:75-96 | NULL and strings free of NULs survive |
| WireRoundTrip.PtrSurvives | sanei/sanei_wire.c:250-317 | pointers survive if what they point to does |
| WireRoundTrip.ArraySurvives | sanei/sanei_wire.c:158-248 | arrays survive if their elements do |
| WireRoundTrip.CaseSurvives | sanei/sanei_wire.c:507-540 | a structure whose tail depends on its head survives |
| WireRoundTrip.RoundTrip | sanei/sanei_wire.c:158-317 | for every codec and well-formed value, decoding its encoding gives the value and consumes exactly its bytes, whatever follows, if it fits in memory, and ENOMEM exactly if it does not |
| WireRoundTrip.SmallFits | sanei/sanei_wire.c:204-231 | whatever needs no more than what is left of MAX_MEM fits |
| WireRoundTrip.FreeingUndoesReceiving | sanei/sanei_wire.c:169-190 | the bytes given back by freeing are those taken by decoding, at every depth |
| WireRoundTrip.WhatIsSentIsReadable | sanei/sanei_wire.c:169-190 | whatever can be sent can be freed |
| WireReceived.ReceivedString | sanei/sanei_codec_bin.c:75-96 | a string that any peer has sent gives back at most the memory that it took, and all of it exactly if it has no NUL before its last byte |
| WireReceived.ReceivedFrees | sanei/sanei_wire.c:158-317 | for every codec and every stream of bytes that decodes: if no array looks longer than it was received, freeing gives back at most what receiving took, and all of it exactly if no string in it has a NUL before its last byte and every array looks as long as it was received |
| WireReceived.StringLosesMemory | sanei/sanei_codec_bin.c:75-96 | a string that takes three bytes and gives back two |
| WireReceived.WordListLosesMemory | sanei/sanei_wire.c:493-540 | a word list of twelve bytes that gives back eight |
| WireReceived.StringListLosesMemory | sanei/sanei_wire.c:493-540 | a string list with an early NULL, which takes 18 bytes and gives back eight |
| WireMessages.TotalIsValid | sanei/sanei_wire.c:493-566 | structures without option values can always be sent |
| WireMessages.ConstraintIsWellFormed | sanei/sanei_wire.c:512-538 | each of the four constraint types: none, range, word list that counts itself, string list up to its NULL |
| WireMessages.ValidArrives | sanei/sanei_wire.c:599-653 | whatever can be sent arrives as it was, and freeing it gives back what it took |
| WireMessages.DevicesArrive | sanei/sanei_net.c:63-82 | lists of devices, with the NULL at the end that the loop looks for |
| WireMessages.DescriptorArrives | sanei/sanei_wire.c:493-540 | option descriptors |
| WireMessages.DescriptorsArrive | sanei/sanei_net.c:128-134 | the options of a device, also if there are none |
| WireMessages.OptionRequestArrives | sanei/sanei_net.c:136-151 | control-option requests between ends with the same version; up to version 2 a value follows even for SET_AUTO |
| WireMessages.OptionReplyArrives | sanei/sanei_net.c:153-162 | control-option replies |
| WireMessages.SimpleMessagesArrive | sanei/sanei_net.c:49-60 | the messages that hold only words and strings |
| WireMessages.RepliesArePlain | sanei/sanei_net.c:49-162 | the replies of the protocol are codecs for which freeing is exact |
| WireIo.Io.Write | sanei/sanei_wire.c:86-97 | a write that may be partial or fail |
| WireIo.Io.Read | sanei/sanei_wire.c:123-139 | a read that may be partial, fail or meet the end |
| WireIo.Wire.constructor | sanei/sanei_wire.c:655-682 | an empty buffer of 8192 bytes |
| WireIo.Wire.SendBuffer | sanei/sanei_wire.c:81-102 | the waiting bytes are sent in order, in as many writes as it takes; after a failure a beginning of them has been sent |
| WireIo.Wire.FillBuffer | sanei/sanei_wire.c:104-142 | bytes are read behind those left over until there are enough; nothing is lost |
| WireIo.Wire.Space | sanei/sanei_wire.c:55-150 | buffer transparency: bytes sent and waiting, or waiting and still to be read, are the same before and after; with status 0 there is room for, or there are, howmuch bytes, unless the buffer is smaller |
| WireTransfer.WByte | sanei/sanei_codec_bin.c:51-73 | one byte in each direction |
| WireTransfer.WWord | sanei/sanei_codec_bin.c:98-130 | one word in each direction |
| WireTransfer.WLength | sanei/sanei_wire.c:192-231 | the length word, with the limits on memory when receiving |
| WireTransfer.WString | sanei/sanei_codec_bin.c:75-96 | a string in each direction |
| WireTransfer.ArrayLength | sanei/sanei_net.c:63-82 | the loops that count an array before it is sent or freed |
| WireTransfer.WArray | sanei/sanei_wire.c:158-248 | an array in each direction |
| WireTransfer.WPtr | sanei/sanei_wire.c:250-317 | a pointer in each direction |
| WireTransfer.Transfer | sanei/sanei_wire.c:493-566 | one traversal for all codecs: over any connection it sends Enc of the value, receives what Dec makes of the stream, or frees Freed of any value with readable memory; if it fails on a connection without failures, Enc or Dec fails with that status |
| WireTransfer.TransferCase | sanei/sanei_net.c:92-126 | the continuation that a constraint type, an option type or an action selects; EINVAL for an unknown option type |
| WireCall.Flush | sanei/sanei_wire.c:568-579 | everything waiting is sent, or dropped |
| WireCall.SetDir | sanei/sanei_wire.c:581-597 | after a change of direction nothing waits |
| WireCall.Call | sanei/sanei_wire.c:599-624 | if the status is 0 the whole request has been sent and the reply is what the connection holds; without failures of the connection it succeeds whenever request and reply are valid |
| WireCall.Reply | sanei/sanei_wire.c:626-637 | if the status is 0 the whole reply has been sent |
| WireCall.Free | sanei/sanei_wire.c:639-653 | nothing but the amount of allocated memory changes, by Freed, for any value whose memory can be read |
| WireCall.Exchange | sanei/sanei_wire.c:599-653 | call and free: the client gets what the server sent, leaves what follows, and has as much memory as before |
| WireCall.FlushAndCall | sanei/sanei_wire.c:81-102 | after a flush that fails with k bytes sent, the next successful call sends these k bytes again, in front of its request |
| WireCall.CallAndFree | sanei/sanei_wire.c:599-653 | call and free with any peer: memory never shrinks, and is as before exactly if the bytes of the reply are balanced |
| WireLayout.WordsInOrder | sanei/sanei_codec_bin.c:98-130 | the most significant byte first: as unsigned numbers, words are in the order of their bytes on the wire |
| WireLayout.WordReceived | sanei/sanei_codec_bin.c:118-126 | any four bytes are received as the signed value of ((a * 256 + b) * 256 + c) * 256 + d |
| WireLayout.RefusedExactly | sanei/sanei_wire.c:204-231 | the limits of one megabyte, as a number |
| WireLayout.SentText | sanei/sanei_codec_bin.c:75-96 | a string on the wire: its length with the terminator, its letters, a zero |
| WireLayout.SentNull | sanei/sanei_wire.c:250-317 | NULL strings and arrays are a zero, and NULL pointers a one |
| WireLayout.SentRef | sanei/sanei_wire.c:250-317 | other pointers are a zero and what they point to |
| WireLayout.SentElems | sanei/sanei_wire.c:158-248 | arrays are their number of elements and the elements |
| WireLayout.InitBytes | sanei/sanei_net.c:49-60 | the eight bytes of the first request of a client of version 1.0.3 |
| WireLayout.SendInit | sanei/sanei_wire.c:599-624 | these bytes, behind the number of the request, are what a successful call has sent |
| WireLayout.DeviceBytes | sanei/sanei_wire.c:470-486 | the bytes of a device with a NULL and an empty string |
| WireLayout.DevicesBytes | sanei/sanei_net.c:63-82 | the bytes of a list of one device, whose end is a NULL pointer |
| WireLayout.HeadBytes | sanei/sanei_wire.c:493-511 | the bytes of an option descriptor in front of its constraint, field by field |
| WireLayout.ConstraintBytes | sanei/sanei_wire.c:512-540 | the bytes of no constraint, a range, a word list and a string list |
| WireLayout.OptionBytes | sanei/sanei_wire.c:493-540 | the bytes of a whole option descriptor |
| WireLayout.SettingBytes | sanei/sanei_net.c:92-126 | the bytes of option values: words, a string, nothing |
| WireLayout.TypedBytes | sanei/sanei_net.c:92-126 | the type of an option selects the form of its value |
| WireLayout.ControlBytes | sanei/sanei_net.c:136-151 | the bytes of a control-option request; from version 3 on, none for the value of SET_AUTO |
| AsciiCodec.DigitsRoundTrip | sanei/sanei_codec_ascii.c:287-331 | reading the decimal digits of a number gives the number |
| AsciiCodec.WordReads | sanei/sanei_codec_ascii.c:278-336 | every word above -2^31 is read as it was written, and its newline is left |
| AsciiCodec.LeastWordReads | sanei/sanei_codec_ascii.c:287-308 | -2^31 is read as 0 |
| AsciiCodec.HexReads | sanei/sanei_codec_ascii.c:70-115 | every byte is read as it was written |
| AsciiCodec.QuotedReads | sanei/sanei_codec_ascii.c:169-248 | every string, with quotes, backslashes and newlines, is read as it was written |
| AsciiCodec.NewlineSkipped | sanei/sanei_codec_ascii.c:54-68 | the newline that the item before has left makes no difference |
| AsciiCodec.ListRoundTrip | sanei/sanei_codec_ascii.c:54-336 | a list of words, bytes and strings comes back exactly if -2^31 is not in it |
| AsciiCodec.WordIsDecimal | sanei/sanei_codec_ascii.c:287-308 | the text of a word is its decimal number, most significant digit first, without leading zeros and with a minus sign if it is negative |
| AsciiCodec.SomeTexts | sanei/sanei_codec_ascii.c:87-195 | the text of two bytes, a NULL string and an escaped string, character by character |
| AsciiStream.DigitsFit | sanei/sanei_codec_ascii.c:283-302 | a word has at most ten digits, so that the local buffer is large enough |
| AsciiStream.Stream.WriteWord | sanei/sanei_codec_ascii.c:287-308 | the digit loop over the local buffer writes the text of the word |
| AsciiStream.Stream.ReadAWord | sanei/sanei_codec_ascii.c:310-331 | the digit loop reads what ReadWord defines |
| AsciiStream.Stream.GetDigit | sanei/sanei_codec_ascii.c:70-85 | the wrap-around arithmetic on a hexadecimal digit |
| AsciiStream.Stream.ReadAByte | sanei/sanei_codec_ascii.c:87-115 | two digits, taken from left to right |
| AsciiStream.Stream.WriteString | sanei/sanei_codec_ascii.c:169-195 | quotes and backslashes are escaped |
| AsciiStream.Stream.ReadAString | sanei/sanei_codec_ascii.c:197-269 | a quoted string or (nil) |
| AsciiStream.WriteAndRead | sanei/sanei_codec_ascii.c:54-336 | writing a list and reading it back with these loops gives the list exactly if -2^31 is not in it |
| ScanReceive.ReceiveHeader | driver/odc_scandif.cpp:127-150 | status, bytes and socket after up to four tries for a header are those of HeaderTurns; the bytes that one turn brings are taken for all of it |
| ScanReceive.ReceivePayload | driver/odc_scandif.cpp:153-191 | status, data and socket after up to four turns for the payload are those of PayloadTurns |
| ScanReceive.ScandifRecv | driver/odc_scandif.cpp:122-194 | status, header, data and socket are those of Receive, for every plan and every contents of the socket |
| ScanReceive.HeaderExactly | driver/odc_scandif.cpp:127-150 | the first of four turns that is neither a timeout nor an interruption alone decides how much of a header arrives |
| ScanReceive.PayloadExactly | driver/odc_scandif.cpp:153-191 | SUCCESS exactly if the payload is there and the turns before the first failure, no more than four, bring all of it |
| ScanReceive.ReceiveDelivers | driver/odc_scandif.cpp:122-194 | header bytes, data and what is left are the contents of the socket in order; SUCCESS delivers exactly data_length bytes; NODATA consumes none |
| ScanReceive.MessageExactly | driver/odc_scandif.cpp:122-194 | after SUCCESS the message is the next one of the stream, and the others are left, exactly if the header has arrived whole |
| ScanReceive.ReceivedExactly | driver/odc_scandif.cpp:122-194 | the plans with which the next message of a stream is received, and no others: the first turn that brings anything brings the whole header, and the next ones, at most four, all its data |
| ScanReceive.SplitHeader | driver/odc_scandif.cpp:127-150 | a header that arrives in two pieces: a message with three bytes is received as one without any |
| ScanConnection.Scandif.Send | driver/scandifc.cpp:331-334 | nothing but the request that is due can be sent; every attempt is in the trace, and it succeeds exactly if there is a socket and the next outcome is a success |
| ScanConnection.Scandif.Receive | driver/scandifc.cpp:325-328 | every arrival that is taken is in the trace, and what is taken and what is to come stay the same altogether |
| ScanConnection.Scandif.IsOpen | driver/scandifc.cpp:237-256 | the daemon is found exactly if there is a socket and it answers; otherwise the socket is closed |
| ScanConnection.Extend | backend/odc_products.cpp:643-854 | what one more step means for the law of a trace, the story of its commands, whether a page may be continued, the size of the image, and the image data since the last start |
| ScanConnection.CancelStopsReads | backend/odc_products.cpp:842-854 | in every lawful trace: after a cancel that finds the daemon while a scan is going on, every read up to the next start reports CANCELLED and gives no data |
| ScanConnection.LossStopsStarts | backend/odc_products.cpp:695-703 | in every lawful trace: once the connection is lost while a page may be continued, every start up to the next cancel reports INVAL |
| ScanConnection.ReadsFit | backend/odc_products.cpp:795-819 | in every lawful trace: no read gives more than its caller has room for; what it gives is the beginning of the data that wait; and if it succeeds, it fills that room or leaves nothing |
| ScanConnection.StatusesApart | backend/odc_products.cpp:906-961 | GOOD, CANCELLED and EOF are each the status of one code of the daemon only |
| ScanDevice.Device.StartScan | backend/odc_products.cpp:660-694 | status, requests, the connection with all outcomes that are left, scan_data_size and use_adf are exactly those of BegunByScan |
| ScanDevice.Device.StartContinue | backend/odc_products.cpp:695-726 | exactly one SCANCONTINUE request is sent; a new scan is tried exactly if it is rejected; otherwise all results are those of BegunByContinue |
| ScanDevice.Device.Start | backend/odc_products.cpp:643-732 | nothing is left of the page before; status, requests, connection, size and use_adf are exactly those of Beginning; the outcome is in the trace |
| ScanDevice.GoodExactly | backend/odc_products.cpp:643-732 | start reports GOOD exactly if the last request gets through and is answered with the response that was asked for or with an error status whose code is SUCCESS |
| ScanDevice.Device.AwaitMessage | backend/odc_products.cpp:767-775 | the next arrival that is not a timeout; nothing else is passed over |
| ScanDevice.Device.ReceiveMore | backend/odc_products.cpp:767-791 | the next arrival but for timeouts is taken from the connection; image data become the undelivered tail, and anything else ends the read |
| ScanDevice.Device.CopyOut | backend/odc_products.cpp:795-819 | the caller gets as many bytes of the tail as it has room for, and no more: either its room is filled or the tail is empty; scanning ends when enough has been delivered |
| ScanDevice.Device.Read | backend/odc_products.cpp:734-834 | status, data, tail, connection and trace are determined: the waiting bytes, or those of the next message if none wait, go to the caller as far as it has room, never more, and either its room is filled or the tail is empty; without the daemon CANCELLED exactly after a cancel that has stopped the scan, and else INVAL; EOF if the tail is empty and enough has been delivered, or the daemon reports END_OF_PAGE; what has been delivered, followed by the tail, is what has arrived since start |
| ScanDevice.ProperRead | backend/odc_products.cpp:734-834 | the status and the data of a read are those that the trace of the connection determines |
| ScanDevice.Device.Cancel | backend/odc_products.cpp:842-854 | canceled is set exactly if a scan was going on and the daemon was still there; no page can be continued, and there is no socket |
| ScanSession.Session | backend/odc_products.cpp:643-854 | any sequence of start, read and cancel with any daemon: the trace of the connection is lawful, that is, each request in it is the one that is due, SCANCONTINUE or SCAN, and each outcome is the one that the steps before it determine: the status of a start, the status and the data of a read, and whether a cancel has stopped a scan; the outcomes in the trace are those of the commands, in order; no read gives more than its caller has room for; what the reads since the last start have given, followed by the tail, is exactly the image data that have arrived since, and all of them at the end of a page; no arrival is passed over |
| ScanSession.GoodWithoutScan | backend/odc_products.cpp:684-687 | one error status with the code SUCCESS, and start reports GOOD |
| ScanSession.StrandedUntilCancel | backend/odc_products.cpp:695-703 | the daemon goes away between two pages and comes back: two starts fail, and the one after a cancel succeeds |
| ScanSession.CancelUnnoticed | backend/odc_products.cpp:842-854 | a cancel after the daemon has gone away: the next read reports INVAL |
| ScanSession.CancelAfterTheEnd | backend/odc_products.cpp:842-854 | a cancel after the whole image has been read: the next read reports INVAL |
| ScanSession.EarlyEnd | backend/odc_products.cpp:776-791 | END_OF_PAGE before any of the 100 bytes of an image: read reports EOF |
| ScanImage.UnpackingData | driver/devel/scandifdef.h:146-153 | the data of a message are as many bytes as its first two say, low byte first, behind a header of four |
| ScanImage.ReadImage | backend/odc_products.cpp:734-834 | a frontend that reads until the end of the page gets exactly the image, with a buffer of any size and however the daemon divides the data |
| ScanImage.ReadStack | backend/odc_products.cpp:643-834 | a frontend that starts and reads again and again gets every page of a stack: each start reports GOOD, and each page ends with EOF |
| ScanPages.Scanner.RequestFirst | driver/scandifc.cpp:428-472 | one SCAN request first; its response is waited for |
| ScanPages.Scanner.RequestNext | driver/scandifc.cpp:473-516 | SCANCONTINUE only after a page of source 2 that ended with more documents; data still on their way are dropped |
| ScanPages.Scanner.ReceivePage | driver/scandifc.cpp:560-613 | all the data up to the message marked last are written in order, unless one of the writes before the last fails: then, and only then, FIOERROR |
| ScanPages.Scanner.OnePage | driver/scandifc.cpp:426-615 | from the request to the end of a page |
| ScanPages.Scanner.Scan | driver/scandifc.cpp:419-662 | the page loop: requests are disciplined, and no arrival is passed over; SUCCESS only if the messages of the daemon end in it and no write has failed but those of the last data of a page; exactly then if requests can be sent, files can be opened and there is no cancel; after all the pages, the files are the pages exactly if every failed write had nothing to write |
| ScanPages.SuccessExactly | driver/scandifc.cpp:465-467 | the messages end in SUCCESS in two ways: after all the pages, or at an error message whose code is SUCCESS |
| ScanPages.LostExactly | driver/scandifc.cpp:579-604 | the files hold what was meant for them exactly if every failed write had nothing to write |
| ScanPages.LosingLast | driver/scandifc.cpp:579-604 | a scan that succeeds although its only page is lost |
| ScanPages.SucceedingAtOnce | driver/scandifc.cpp:465-467 | a scan that succeeds without a page |
| ScanDaemon.SinglePage | driver/scandifc.cpp:560-662 | without the feeder one page is scanned, whatever its marks say |
| ScanDaemon.WholeStack | driver/scandifc.cpp:419-662 | the messages of a daemon that keeps to the protocol are read as the pages of the stack, and all of them |
| ScanDaemon.ScanStack | driver/scandifc.cpp:419-662 | scan succeeds on such a stack, and every document becomes a file with exactly its data |
| ScanDaemon.ScanSingle | driver/scandifc.cpp:419-662 | from another source scan succeeds with a file for one page |
| ScanFeed.MessagesAreHeard | driver/odc_scandif.cpp:122-194 | repeated calls of scandif_recv hear the messages on the socket in order, each as it was sent, if each is received whole, with timeouts between them |
| ScanFeed.PayloadsEndTheData | backend/odc_products.cpp:643-834 | the image data since the last start are the last ones of all that have arrived |
| ScanFeed.LengthOfData | driver/odc_scandif.cpp:122-194 | the header of a message with 300 bytes of data |
| ScanFeed.ResponseIsRead | driver/devel/scandifdef.h:134-143 | the source and the size in the bits and bytes of a response to SCAN |
| ScanFeed.DataIsRead | driver/devel/scandifdef.h:146-153 | the number of data and their marks in the bits and bytes of a message with image data |
| ScanFeed.SessionOverBytes | backend/odc_products.cpp:643-854 | from bytes to reads: any session over any bytes on a socket is lawful, and what the reads since the last start have given, followed by the tail, ends the image data of the messages taken, which are the first that scandif_recv hears |
| ScanFeed.ScanOverBytes | driver/scandifc.cpp:419-662 | the page loop over the bytes of a socket: SUCCESS and the files follow what scandif_recv hears |
| StrCaseStr.MatchRest | lib/strcasestr.c:85-112 | the unrolled comparison decides whether the needle matches here |
| StrCaseStr.StrCaseStr | lib/strcasestr.c:43-119 | the least offset at which the needle matches ignoring case, or NULL exactly if there is none; it ends for every pair of strings |
| StrCaseStr.LowerIsSameLetter | lib/strcasestr.c:43-119 | two characters count as the same exactly if they are equal or a capital and its small letter |
| StrCaseStr.CaseDoesNotMatter | lib/strcasestr.c:43-119 | writing letters of either string the other way does not change the result |
| StrCaseStr.FindInside | lib/strcasestr.c:43-119 | "ow" is found in "cOW" at offset 1 |
| MagicEdges.WindowSlides | sanei/sanei_magic.c:1190-1208 | moving a window by one line takes away the line that it leaves and adds the one that it reaches, in both directions |
| MagicEdges.WindowStarts | sanei/sanei_magic.c:1182-1187 | repeated copies of the first pixel are the windows at the first line |
| MagicEdges.Slide | sanei/sanei_magic.c:1192-1208 | near and far stay the direct sums over the last nine lines and the nine before them |
| MagicEdges.FindTransition | sanei/sanei_magic.c:1176-1216 | the first scanned line at which the direct sums differ by more than the threshold, or lastLine |
| MagicEdges.NeighboursSame | sanei/sanei_magic.c:1245-1254 | the neighbours of a column do not depend on the columns before it |
| MagicEdges.Filter | sanei/sanei_magic.c:1245-1254 | the pass in place equals filtering the original array |
| MagicEdges.GetTransY | sanei/sanei_magic.c:1132-1259 | for colour and gray images, the filtered first transitions of all columns |
| MagicColumns.PixelBytes | sanei/sanei_magic.c:1176-1187 | where the bytes of a pixel lie |
| MagicColumns.ChangesAt | sanei/sanei_magic.c:1190-1214 | in a column with an edge between two colours, the change is noticed m lines beyond it exactly if m times the difference exceeds 450 for each byte of a pixel less 40/255 of the last nine lines; later than nine lines, only if before |
| MagicColumns.EdgeFound | sanei/sanei_magic.c:1165-1216 | the transition is the first such line, in either direction |
| MagicColumns.EdgeNotFound | sanei/sanei_magic.c:1165-1216 | if there is none within nine lines and the image, the column has no transition |
| MagicColumns.OneColour | sanei/sanei_magic.c:1165-1216 | a column of one colour has no transition |
| MagicColumns.WhiteToBlack | sanei/sanei_magic.c:1165-1216 | from white to black, it is the first black line |
| MagicColumns.BlackToWhite | sanei/sanei_magic.c:1165-1216 | from black to white, it is the second white line, if that is in the image |
| MagicColumns.KeptExactly | sanei/sanei_magic.c:1245-1254 | a transition is kept exactly if it is one of the last seven or close to two of the next seven |
| MagicColumns.StraightEdge | sanei/sanei_magic.c:1132-1259 | a straight edge from white to black is found in every column |
| MagicCrop.CroppedRow | sanei/sanei_magic.c:484-488 | row r of the result is the cropped part of row top + r |
| MagicCrop.MovedFurther | sanei/sanei_magic.c:484-488 | a row is still intact when it is read |
| MagicCrop.MoveRows | sanei/sanei_magic.c:484-488 | the loop over the rows, in place |
| MagicCrop.Crop | sanei/sanei_magic.c:437-501 | the cropped rows of the original at the front of the buffer, the rest unchanged, and parameters that describe them |
| MagicCrop.CroppedPixel | sanei/sanei_magic.c:437-501 | pixel for pixel, colours, shades or bits: what was at (top + r, left + c) is at (r, c); a binary image keeps the columns that share a byte with the first one |
| ConstrainSpec.QuantisedIsNearest | sanei/sanei_constrain_value.c:215-229 | wherever neither the sum for this word nor its rounded value overflows, quantisation goes to the nearest value of the grid |
| ConstrainSpec.ConstrainedStays | sanei/sanei_constrain_value.c:193-229 | for every range and word: constraining twice is constraining once, exactly if quant is 0, the sum overflows, or the rounded value is a word that can be rounded again |
| ConstrainSpec.ConstrainedIsAccepted | sanei/sanei_constrain_value.c:82-99 | for every range and word: sanei_check_value accepts the result exactly if quant is 0, the sum overflows, or the clamped value plus half a step stays below the first step beyond max and the sum for the result does not overflow; that holds whenever quant divides max - min and the sum for max fits |
| ConstrainSpec.RoundingPassesMax | sanei/sanei_constrain_value.c:82-99 | in steps of 4 from 0 to 10, the value 10 becomes 12 |
| ConstrainSpec.RepeatingChanges | sanei/sanei_constrain_value.c:193-229 | from 0 to the largest word in steps of 2, the largest word becomes the smallest one, and that becomes 0 |
| ConstrainSpec.AcceptedStays | sanei/sanei_constrain_value.c:193-229 | a value that is accepted is left as it is |
| ConstrainSpec.QuantisedExactly | sanei/sanei_constrain_value.c:215-229 | the rounded value is computed exactly if neither the sum with half a step exceeds 32 bits nor the result 31 |
| ConstrainSpec.RoundingOverflows | sanei/sanei_constrain_value.c:215-229 | the largest word, with quant 2, becomes the smallest one |
| ConstrainSpec.SumOverflows | sanei/sanei_constrain_value.c:215-229 | the sum may overflow although the rounded value is a word |
| ConstrainSpec.ChoiceStays | sanei/sanei_constrain_value.c:253-286 | a chosen string is in the list, and choosing again leaves it alone |
| ConstrainSpec.EntryStaysExactly | sanei/sanei_constrain_value.c:253-286 | a string in the list is kept exactly if no entry before it differs from it only in case |
| ConstrainSpec.EntryMayChange | sanei/sanei_constrain_value.c:263-275 | "a" becomes "A", if that comes first |
| Constrain.ConstrainRange | sanei/sanei_constrain_value.c:176-230 | every word of an array is repaired in place; INEXACT is set exactly if some step changed one |
| Constrain.CheckRange | sanei/sanei_constrain_value.c:66-100 | GOOD exactly if every word is accepted |
| Constrain.RepairAndCheck | sanei/sanei_constrain_value.c:66-230 | an accepted array is left as it is and nothing is flagged; a repaired one is accepted exactly if every word of the original is one that ConstrainedIsAccepted describes |
| Constrain.ConstrainWordList | sanei/sanei_constrain_value.c:232-251 | a member of the list, and barring overflow one of the nearest; INEXACT exactly if it differs |
| Constrain.CheckWordList | sanei/sanei_constrain_value.c:102-108 | GOOD exactly for members |
| Constrain.ConstrainString | sanei/sanei_constrain_value.c:253-286 | the first entry that is the same but for case, else the only one that the string begins, else INVAL |
| Constrain.CheckString | sanei/sanei_constrain_value.c:110-118 | GOOD exactly for entries |
| Constrain.ChooseTwice | sanei/sanei_constrain_value.c:110-286 | what is chosen is accepted and stays |
| UsbTable.StoredIsTable | sanei/sanei_usb.c:326-374 | no two slots share method, name, vendor and product; never more than MAX_DEVICES; the device is stored unless the table is full of devices seen lately |
| UsbTable.StoredWhere | sanei/sanei_usb.c:326-374 | where a device is stored, with which handle, missing count and open flag, and that no other slot changes |
| UsbTable.StoredKeeps | sanei/sanei_usb.c:334-362 | a slot missing for less than two scans is not given to another device |
| UsbTable.ScannedKeeps | sanei/sanei_usb.c:484-487 | a device seen in the last scan keeps its slot in the next, seen or not |
| UsbTable.SeenDevicesStay | sanei/sanei_usb.c:326-374 | a device seen in every scan since it was stored keeps its index for ever |
| UsbTable.Table.FindSlot | sanei/sanei_usb.c:332-362 | the first slot with the key, else the last reusable one |
| UsbTable.Table.StoreDevice | sanei/sanei_usb.c:326-374 | the table becomes Stored of the old one |
| UsbTable.Table.Age | sanei/sanei_usb.c:484-487 | every device counts as missing once more |
| UsbTable.Table.Rescan | sanei/sanei_usb.c:484-487 | one scan: aged, and then the reported devices stored in order |

## Left out

- lib/md5.c: the machine is little-endian, and the alignment of a source is a parameter; messages are values, so that
  a source which overlaps the context is not modelled.
- lib/getopt.c: messages on stderr, the `_LIBC` branches with `__getopt_nonoption_flags`, and callers that change argv
  or optind between calls (`BringBack` is modelled for what it does, but runs never need it). NULL and an empty
  nextchar are one value, which the code does not tell apart either. When a call moves optind past argc, the run is
  not followed further.
- sanei/sanei_wire.c: failing malloc, debug output and sanei_w_exit. Sizes are those of a 64-bit machine. Values are
  trees: sharing and overwriting of memory are not modelled. After a failure while decoding, the original goes on
  without effect, while the model stops at once; memory that a failed decode has already taken is not followed.
  allocated_memory is an unbounded integer.
- sanei/sanei_net.c: sanei_w_open_reply, sanei_w_start_reply, sanei_w_init_req and the like are instances
  (`SimpleMessagesArrive`).
- sanei/sanei_codec_ascii.c: ascii_w_char, whose decoder does not skip the newline before it; the bounded buffer,
  where the closing quote has no reservation of its own; FREE; realloc.
- GetoptInternal: argc is at least 1; without arguments the original returns -1 at once, which `Run` models.
- Transfer: what is sent is well-formed, as for C strings without NULs and arrays of the length that the loops find;
  what is freed must be readable, so that no array looks longer than its memory; what is received is arbitrary.
- Read: messages with image data fit the buffer of the device and hold all the data that they announce (`IsSound`),
  which the original does not check.
- Run: of argv it says only that its elements stay the same if an option with the value -1 has ended the loop early.
- driver/devel/scandifdef.h: structures have their full size; a message of a kind that the client does not know, or of
  another size, is one that it does not expect. Whether the messages are heard as sent is decided by `DeliversAll`;
  what becomes of one whose header is split is in `ScanReceive`.
- backend/odc_products.cpp: options, parameters and their units (`update_sane_parameters`), the table of device errors
  in libsts2sanests beyond the codes that matter to the state machine, and non_blocking, which read does not use.
- driver/scandifc.cpp: paths, headers of image files, progress callbacks and device lists.
- sanei/sanei_magic.c: the 1-bit branch of getTransY and getTransX, for which the window theorem does not hold; skew
  and rotation in floating point; a failing malloc.
- sanei/sanei_constrain_value.c: booleans, of which sanei_constrain_value tests only the first; ranges with a negative
  quant or max below min. strcpy assumes room for the longest entry.
- lib/strcasestr.c: tolower is that of the C locale.
- sanei/sanei_usb.c: everything but the table; devices have names, and the pointers of libusb are one number.
- USB transfers, parallel port, SCSI, threads, lock files, tracing and the containers of the driver: foreign calls and
  textbook code.
