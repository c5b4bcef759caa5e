# OSC messages and the mood lamp daemon, verified

A Dafny model of the OSC 1.0 library that the mood lamp daemon uses to read its commands, of the
buffered writer through which it talks to the lamp, and of the part of the daemon between the two,
with proofs about all inputs and all runs.

`dafny verify dfyconfig.toml` checks everything.

## How it is laid out

| part | modules |
|---|---|
| bytes, padding, byte order | `Bytes`, `Pod` |
| address patterns: the matching relation, and where the matcher stops | `PatternSpec`, `PatternLaws`, `BraceLaws`, `ParentPath`, `PartialLaws`, `BeginningLaws`, `RoomLaws` |
| the pattern language in characters: what each kind of pattern matches | `PatternFacts` |
| the matcher as written: loops and recursion over positions | `PatternMatcher` |
| messages: wire format, parser and encoder as functions, and the laws between them | `MessageFormat`, `MessageLaws`, `Pops` |
| `Storage`, `Message`, `ArgReader` as classes | `Messages` |
| packets: the grammar, the reader as a function, and what writer calls build | `PacketFormat`, `ReaderLaws`, `WriterFormat`, `WriterLaws`, `WriterRuns` |
| `PacketWriter` and `PacketReader` as classes | `Packets` |
| the round trips, on bytes and on the objects | `RoundTrip` |
| the wire format in bytes, with the library's own test packets; which error is raised when | `WireFacts`, `ErrorLaws` |
| `NonblockWriter` and the device behind it | `Serial` |
| the daemon's OSC branch, and whole runs of it | `RgbPattern`, `LampLines`, `Moodpd`, `DaemonRuns` |

Whatever the source updates in place is a class with the same fields. Its methods are proved against
functions (`Walk`, `ParseMessage`, `Apply`, `ReadPacket`, `Flushed`, ...), and the laws are proved about
those functions, so that they hold of the objects. Longer proofs hide the definitions they mention (`hide *`) and
take the facts they need from one-line lemmas, which keeps them quick. `Written` is what a sequence of writer calls has
built, `PacketWriter.Valid` says that the bytes in the storage are its flattening, and every method of
the writer keeps that.

Two things about the platform are constants without a value, so that everything holds for either
choice: the byte order of the host (`Pod.HOST`) and whether plain `char` is signed
(`PatternSpec.CHAR_IS_SIGNED`). Pointers are indices, a null pointer is -1 or a missing value, and the
start of a buffer is taken to be aligned to 4 bytes. Floating point arguments are bit patterns. The 32-bit
sum in the size of a blob, the 32-bit size words, the unsigned number of remaining arguments and the
`int` arithmetic of the orientation message are modelled with their wrap-around (that of `int` as two's
complement, which C++ does not promise). The kernel's answers to `write` and what `sscanf` makes of a lamp index are
arbitrary functions.

## Where the code and its comments differ

The model follows the code.

- Integers are big-endian on the wire (`Pod.Pod2Bytes`), not little-endian as oscpkt/oscpkt.hh:129 and
  oscpkt/oscpkt.hh:141 say.
- The writer's error flag stays down when a bundle is left open or a second bundle follows the first,
  despite oscpkt/oscpkt.hh:614-615. `WriterRuns.ErrorIffOutOfOrder` says exactly when it is raised.
- A brace list commits to its first alternative that is a prefix of the path, so a path may be refused
  although another alternative fits. `BraceLaws.BraceExactIffPrefixFree` says exactly for which lists
  this cannot happen.
- The parent-path law that oscpkt/oscpkt_test.cc:345-348 checks fails for some brace lists whose alternatives
  contain slashes. `BraceLaws.BraceParentLawIffSettled` says exactly for which.
- A partial match need not be a match of the pattern's beginning (oscpkt/oscpkt.hh:176). A path that does
  not fit a bracket or a brace list is a partial match up to there (`RoomLaws.BracketMismatchIsPartial`),
  and a path that matches all that comes before an unclosed brace may be none
  (`RoomLaws.UnclosedBraceIsNotPartial`). `PartialLaws.PartialMatchFollows` says exactly what a partial
  match is. A pattern keeps to the documented meaning if it is roomy, that is, if every bracket takes all
  characters, every brace list has an empty alternative, and none is left open
  (`BeginningLaws.PartialMatchBegins`). For
  patterns without `//`, stars or not, this is exactly the condition (`RoomLaws.DocumentedIffRoomy`), but for
  one family: patterns with a star in which an open brace is the only fault. In that family, and with `//`,
  it is not needed: `RoomLaws.StarBeforeOpenBrace` and `RoomLaws.WildcardsMakeRoom` give patterns with the
  documented meaning that do not meet it.
- An orientation outside -180 to 180 degrees need not become a colour value (src/main.cpp:440-442): the
  remainder can be negative. `Moodpd.AngleIsOctet` and `Moodpd.OrientationLineFixed` say exactly when it does
  not matter, and `Moodpd.SteepAngle` shows an angle for which it does.
- The overflow check at oscpkt/oscpkt.hh:465 does not see the 32-bit overflow of a blob's size. One length
  word, 0xFFFFFFFC, is accepted as an argument of size zero. `MessageLaws.AcceptsExactlyTheImage` shows
  that nothing else separates the accepted buffers from the encodable ones.

## Model

| member | source | states |
|---|---|---|
| Bytes.AlignedMeans | oscpkt/oscpkt.hh:157 | the alignment test used throughout is divisibility by 4 |
| Bytes.Ceil4Means | oscpkt/oscpkt.hh:107-108 | rounding up is adding 3 and clearing the two low bits |
| Bytes.Ceil4Least | oscpkt/oscpkt.hh:107-108 | no multiple of 4 lies between a number and its rounding |
| Pod.IsBigEndianCorrect | oscpkt/oscpkt.hh:124-127 | the run-time test of one byte finds out the host's byte order |
| Pod.Pod2Bytes | oscpkt/oscpkt.hh:142-150 | what is written is big-endian on hosts of either byte order |
| Pod.Bytes2Pod | oscpkt/oscpkt.hh:130-139 | bytes are read as big-endian on hosts of either byte order, and the value fits the width |
| Pod.FromToWire | oscpkt/oscpkt.hh:124-150 | reading inverts writing, for every width and value |
| Pod.ToFromWire | oscpkt/oscpkt.hh:124-150 | writing inverts reading, for every byte string |
| Pod.HostsAgree | oscpkt/oscpkt.hh:124-150 | a writer and a reader of any two byte orders agree on every value of every width |
| PatternMatcher.ScanBracket | oscpkt/oscpkt.hh:640-647 | the scan decides membership in the bracket's class, with negation, and stops at its end |
| PatternMatcher.ScanBraces | oscpkt/oscpkt.hh:672-680 | the loop finds the first alternative that is a prefix of the path, or none |
| PatternMatcher.ConsumeToken | oscpkt/oscpkt.hh:634-685 | one round of the loop moves both cursors, returns or stops as the position function says |
| PatternMatcher.MatchAfterStar | oscpkt/oscpkt.hh:649-658 | the result is the furthest position over all stops up to the next slash |
| PatternMatcher.MatchAfterSlashes | oscpkt/oscpkt.hh:659-668 | the result is the furthest position over the current place and all later slashes |
| PatternMatcher.InternalPatternMatch | oscpkt/oscpkt.hh:633-687 | terminates on every pattern and path, keeps both cursors inside, and returns null or the position the recursive definition gives, which lies in the given pattern |
| PatternMatcher.FullPatternMatch | oscpkt/oscpkt.hh:694-697 | true exactly when the path is a concatenation of what the pattern's tokens stand for, braces committing to their first fit |
| PatternMatcher.PartialPatternMatch | oscpkt/oscpkt.hh:689-692 | true exactly when the position is not null |
| PatternLaws.FullMatchCommits | oscpkt/oscpkt.hh:633-687 | for every pattern, keeping only the furthest position hides no full match: it is derivability with committed braces |
| PatternLaws.FullMatchSound | oscpkt/oscpkt.hh:633-697 | for every pattern, unclosed brackets and overlapping alternatives included, a full match is a derivation of the matching relation |
| PatternLaws.FullMatchExact | oscpkt/oscpkt.hh:633-697 | for prefix-free brace lists a full match is the matching relation, in both directions |
| BraceLaws.OverlapFails | oscpkt/oscpkt.hh:673-680 | two overlapping alternatives give a pattern and a path that match by the relation and are refused |
| BraceLaws.BraceExactIffPrefixFree | oscpkt/oscpkt.hh:669-681 | a brace list is matched exactly, whatever single-character wildcards follow, if and only if it is prefix-free |
| ParentPath.ParentPathLaw | oscpkt/oscpkt_test.cc:345-348 | a full match of a path is a partial match of each of its parents, for all patterns with settled brace lists |
| ParentPath.ParentPathLawPlain | oscpkt/oscpkt_test.cc:345-348 | the law for lists that are prefix-free or have no slash in an alternative |
| BraceLaws.UnsettledBraceFails | oscpkt/oscpkt.hh:673-680 | a list that is not settled gives a path and a parent for which the law fails |
| BraceLaws.UnsettledListExists | oscpkt/oscpkt_test.cc:345-348 | a concrete list, path and parent for which the law fails |
| BraceLaws.BraceParentLawIffSettled | oscpkt/oscpkt_test.cc:345-348 | the law holds of a brace list for all paths if and only if the list is settled |
| PartialLaws.PartialMatchFollows | oscpkt/oscpkt.hh:633-692 | for every pattern, a partial match means that the tokens take the whole path or lead up to one where the path ends or does not fit |
| BeginningLaws.BeginningIsPartial | oscpkt/oscpkt.hh:633-692 | for every pattern without an unclosed brace, a path that some beginning of the pattern fully matches is a partial match |
| BeginningLaws.PartialMatchBegins | oscpkt/oscpkt.hh:176-177 | for every roomy pattern, whatever its wildcards, the partial matches are exactly the paths that a beginning of the pattern fully matches, as documented |
| RoomLaws.DocumentedIffRoomy | oscpkt/oscpkt.hh:176-177 | a pattern without `//`, whatever its stars, has the documented meaning for all paths if and only if its brackets take all characters, its brace lists have empty alternatives, and nothing is left open; only where an open brace is the one fault of a pattern with a star does it not say |
| RoomLaws.BarredPath | oscpkt/oscpkt.hh:637-681 | a pattern without `//` that has a bracket or brace list in the way follows some path up to it, however the path goes on |
| RoomLaws.BeginningSlashes | oscpkt/oscpkt.hh:633-687 | without `//`, what a beginning of a pattern matches has no more slashes than that beginning has characters |
| RoomLaws.BraceDocumentedIffEmpty | oscpkt/oscpkt.hh:669-681 | a single brace list has the documented meaning if and only if one of its alternatives is empty |
| RoomLaws.BarredNever | oscpkt/oscpkt.hh:637-681 | at a bracket or brace list that the path does not fit, the matcher returns a position although no beginning of the pattern matches |
| RoomLaws.BracketMismatchIsPartial | oscpkt/oscpkt.hh:647 | with a bracket the documentation fails: a mismatch is a partial match |
| RoomLaws.UnclosedBraceIsNotPartial | oscpkt/oscpkt.hh:670-671 | with an unclosed brace it fails the other way: a path that a beginning matches is refused |
| RoomLaws.WildcardsMakeRoom | oscpkt/oscpkt.hh:649-668 | after a double slash and a star, any brackets and closed brace lists keep to the documented meaning |
| RoomLaws.StarBeforeOpenBrace | oscpkt/oscpkt.hh:649-671 | a pattern of a star, a letter and an open brace keeps to the documented meaning: it and its beginnings match the paths without a slash |
| PatternFacts.StringsEndAtNul | oscpkt/oscpkt.hh:689-697 | of pattern and path only what comes before the first NUL counts |
| PatternFacts.EmptyPatternMatches | oscpkt/oscpkt.hh:686 | the empty pattern matches the empty path only |
| PatternFacts.LetterMatches | oscpkt/oscpkt.hh:682 | any character but `*`, `?`, `[` and `{`, and a slash before another, matches itself, whatever follows |
| PatternFacts.QuestionMatches | oscpkt/oscpkt.hh:636 | `?` matches any character, a slash included, whatever follows |
| PatternFacts.StarMatches | oscpkt/oscpkt.hh:649-658 | `*` matches any run without a slash, whatever follows |
| PatternFacts.RunOfStarsMatches | oscpkt/oscpkt.hh:650 | two stars match what one does |
| PatternFacts.DoubleSlashMatches | oscpkt/oscpkt.hh:659-668 | a double slash matches a slash and whatever leads up to it |
| PatternFacts.RunOfSlashesMatches | oscpkt/oscpkt.hh:660 | three slashes match what two do |
| PatternFacts.AlternativeMatches | oscpkt/oscpkt.hh:669-680 | a list takes its first alternative if the path starts with it, for better or worse, and else behaves as the rest of the list |
| PatternFacts.LastAlternativeMatches | oscpkt/oscpkt.hh:669-681 | a list of one alternative matches that, and nothing else |
| PatternFacts.UnclosedBraceMatches | oscpkt/oscpkt.hh:671 | a brace that is never closed matches nothing |
| PatternFacts.CharOrder | oscpkt/oscpkt.hh:645 | characters below 128 compare by value; those above as the platform's `char` does, either way |
| PatternFacts.EmptyBracketMatches | oscpkt/oscpkt.hh:641-647 | empty brackets match nothing |
| PatternFacts.MemberMatches | oscpkt/oscpkt.hh:642-646 | a character at the front of a class adds itself to what the class matches |
| PatternFacts.RangeMatches | oscpkt/oscpkt.hh:642-646 | a range at the front of a class adds its characters to what the class matches |
| PatternFacts.NegatedMatches | oscpkt/oscpkt.hh:639-647 | a negated class matches the characters that the class does not |
| PatternFacts.OneRangeMatches | oscpkt/oscpkt.hh:637-648 | a class of one range takes exactly the characters from its lower to its upper end |
| PatternFacts.OneNegatedRangeMatches | oscpkt/oscpkt.hh:637-648 | negated, exactly the others |
| PatternFacts.AsciiRange | oscpkt/oscpkt.hh:637-648 | for characters below 128, ranges are by value: `[a-c]` takes a, b and c, `[!a-c]` all others |
| PatternFacts.DashTakesBracket | oscpkt/oscpkt.hh:644 | a dash before the closing bracket makes a range up to that bracket |
| PatternFacts.UnclosedBracketMatches | oscpkt/oscpkt.hh:647 | a bracket that is never closed matches nothing |
| PatternFacts.WordMatches | oscpkt/oscpkt.hh:682 | a word of plain characters matches itself, whatever follows |
| PatternFacts.TestOfListAndRange | oscpkt/oscpkt_test.cc:377-378 | two of the library's matching tests, for every range: a match exactly when r is in it |
| PatternFacts.TestOfDoubleSlash | oscpkt/oscpkt_test.cc:368-370 | three of the library's matching tests, for any directory names |
| MessageLaws.EncodedArgReads | oscpkt/oscpkt.hh:393-417 | an argument's encoding, wherever it stands, is read back as that argument |
| MessageLaws.HeaderParses | oscpkt/oscpkt.hh:364-379 | address and type tags are found where they were written, whatever follows |
| MessageLaws.EncodedMessageParses | oscpkt/oscpkt.hh:364-390 | every encoded message is accepted, with its address, type tags and arguments |
| MessageLaws.HeaderWritten | oscpkt/oscpkt.hh:364-379 | an accepted message starts with the encoding of its address and type tags |
| MessageLaws.BlobExtent | oscpkt/oscpkt.hh:456-468 | a blob that is accepted has its declared length, or declares 0xFFFFFFFC and has size zero |
| MessageLaws.FittingArgDecodes | oscpkt/oscpkt.hh:440-470 | where the parser finds an argument, the padded bytes are that argument's encoding |
| MessageLaws.ScannedArgsHeld | oscpkt/oscpkt.hh:379-386 | a scan without error gives one argument for each type tag, each standing in its slot |
| MessageLaws.ScannedArgsDecode | oscpkt/oscpkt.hh:379-390 | the bytes scanned are the encoding of the arguments read, unless a blob overflows |
| MessageLaws.AcceptedMessageIsEncoded | oscpkt/oscpkt.hh:364-390 | an accepted message without an overflowing blob is the encoding of what is read from it |
| MessageLaws.OverflowIsDeclared | oscpkt/oscpkt.hh:458 | a blob overflows in an accepted message exactly when it declares 0xFFFFFFFC bytes |
| MessageLaws.AcceptsExactlyTheImage | oscpkt/oscpkt.hh:364-390 | a buffer is the encoding of a message if and only if it is accepted and no blob in it declares 0xFFFFFFFC bytes |
| MessageLaws.EncodingIsUnique | oscpkt/oscpkt.hh:364-435 | different addresses or arguments have different encodings |
| MessageLaws.OverflowIsAccepted | oscpkt/oscpkt.hh:456-469 | for every address, a message with the overflowing length is accepted, and its next argument is read from the length word |
| Pops.PopChainExact | oscpkt/oscpkt.hh:245-318 | a chain of pops ends well with nothing left if and only if the pattern matched and the pops are exactly the types of the arguments |
| Pops.RunExact | oscpkt/oscpkt.hh:253-318 | from any place, a chain succeeds if and only if each pop fits its argument, and it moves on by one argument per pop |
| Pops.PopsInOrder | oscpkt/oscpkt.hh:253-318 | while no error is set, the k-th pop is for the k-th argument and the index is within the arguments |
| Pops.ErrorStays | oscpkt/oscpkt.hh:182 | the first error of a chain is the one it ends with |
| Pops.StepMeans | oscpkt/oscpkt.hh:277-318 | the error and the index after one pop, with the type tags as characters |
| Pops.FirstMisfit | oscpkt/oscpkt.hh:253-318 | the first pop that does not fit decides the error of a chain: not enough arguments, or a type mismatch; an unmatched pattern comes before both |
| Pops.BooleansMoveOn | oscpkt/oscpkt.hh:277-285 | booleans move the index on even without arguments or after an error, past the last argument |
| Pops.SkipsMoveOn | oscpkt/oscpkt.hh:287-291 | skipping goes on to the last argument, error or not |
| Pops.OthersStay | oscpkt/oscpkt.hh:254-275 | all other pops stay where they are after an error |
| Pops.RemainingMeans | oscpkt/oscpkt.hh:245 | the number of arguments left is exact modulo 2^64, and huge when the index is past them |
| WireFacts.FourBytes | oscpkt/oscpkt.hh:130-150 | four bytes on the wire are a number, most significant first |
| WireFacts.EightBytes | oscpkt/oscpkt.hh:130-150 | eight bytes are two words, the more significant first |
| WireFacts.LowOrderBytes | oscpkt/oscpkt.hh:430 | only the low-order bytes of a number are written |
| WireFacts.HostOrder | oscpkt/oscpkt.hh:119-127 | what the two byte orders make of the same memory |
| WireFacts.TwosComplement | oscpkt/oscpkt.hh:398-399 | negative integers are in two's complement |
| WireFacts.TagCharacters | oscpkt/oscpkt.hh:94-103 | the type tags are the characters T, F, i, h, f, d, s and b |
| WireFacts.IntegerBytes | oscpkt/oscpkt.hh:393-399 | booleans have no bytes, integers four or eight |
| WireFacts.FloatBytes | oscpkt/oscpkt.hh:400-401 | floating point values are their bit patterns, four or eight bytes |
| WireFacts.StringBytes | oscpkt/oscpkt.hh:402-417 | a string is followed by one to four zeros, a blob by none to three, to a multiple of 4 |
| WireFacts.CopiedUpToNul | oscpkt/oscpkt.hh:406 | a string with a NUL inside is copied up to it, and its room is zero from there on |
| WireFacts.MessageBytes | oscpkt/oscpkt.hh:426-435 | a message is an address that starts with a slash, a comma and the type tags, and the arguments |
| WireFacts.BundleBytes | oscpkt/oscpkt.hh:584-603 | a bundle is its name and NUL, its time tag, and each element after its size |
| WireFacts.EmptyBundlesFlat | oscpkt/oscpkt.hh:594-596 | an empty bundle is its header and a zero word, alone and inside another |
| WireFacts.ImmediateIsOne | oscpkt/oscpkt.hh:84-91 | the time tag for immediately is 1 |
| WireFacts.InnermostTags | oscpkt/oscpkt.hh:541-556 | each message gets the time tag of the innermost bundle around it, also after an inner bundle; alone it gets 1 |
| WireFacts.LargerMessage | oscpkt/oscpkt_test.cc:79 | the message of the library's tests, push by push |
| WireFacts.BuildLarger | oscpkt/oscpkt_test.cc:78-88 | the test's calls on the objects give byte for byte what the test expects |
| WireFacts.BuildNested | oscpkt/oscpkt_test.cc:102-107 | two nested empty bundles are the forty bytes expected, and are read as no message and no error |
| ErrorLaws.HeaderErrors | oscpkt/oscpkt.hh:364-377 | a message is refused for its address, or its type tags, exactly when it does not start with a padded address, or with that but no padded type tags after it |
| ErrorLaws.HeaderOutcome | oscpkt/oscpkt.hh:364-390 | with a good header, address and type tags are kept and only the arguments can be at fault |
| ErrorLaws.UnhandledTypeError | oscpkt/oscpkt.hh:440-462 | the error is an unhandled type exactly when the arguments before the first unknown tag are well formed |
| ErrorLaws.ScanSlots | oscpkt/oscpkt.hh:379-386 | the arguments of a message, in error or not, are those before the first that is not well formed |
| ErrorLaws.ArgumentsKept | oscpkt/oscpkt.hh:364-390 | a message keeps the arguments that its scan found, in error or not, and none without a good header |
| ErrorLaws.ReaderErrors | oscpkt/oscpkt.hh:512-558 | the reader's error is the packet's size, or that of the last message read, or else an invalid bundle; all messages before are OK |
| Messages.Storage.GetBytes | oscpkt/oscpkt.hh:156-163 | the storage grows by zeros up to a multiple of 4 and what was there stays |
| Messages.IsZeroPaddingCorrect | oscpkt/oscpkt.hh:111-116 | true exactly when all bytes up to the next multiple of 4 are zero |
| Messages.Message.constructor | oscpkt/oscpkt.hh:321 | a message without address and arguments |
| Messages.Message.WithAddress | oscpkt/oscpkt.hh:322 | a message with an unchecked address and no arguments |
| Messages.Message.FromBytes | oscpkt/oscpkt.hh:323 | the parsed message with the time tag given; when it is OK its slots hold the arguments of the bytes |
| Messages.Message.Clear | oscpkt/oscpkt.hh:420-423 | a clean state, whatever was there |
| Messages.Message.Init | oscpkt/oscpkt.hh:336-341 | a clean message with the address, in error exactly when it does not start with a slash |
| Messages.Message.GetArgSize | oscpkt/oscpkt.hh:440-470 | the size of the argument at a place, or the error; every read stays inside the data |
| Messages.Message.ScanArguments | oscpkt/oscpkt.hh:379-386 | the loop over the type tags gives the scan's slots and end, or its first error |
| Messages.Message.BuildFromRawData | oscpkt/oscpkt.hh:364-390 | on every aligned buffer the message's whole state is what the parser function gives, with a copy of all the data |
| Messages.PushKeeps | oscpkt/oscpkt.hh:393-417 | appending an argument keeps every argument in its slot, and keeps the storage an encoding if it was one |
| Messages.Message.PushBool | oscpkt/oscpkt.hh:393-397 | the argument is in the tag alone; the slot's size is the size of the storage |
| Messages.Message.PushInt32 | oscpkt/oscpkt.hh:398 | tag, slot and encoding are appended, and all arguments stay readable |
| Messages.Message.PushInt64 | oscpkt/oscpkt.hh:399 | the same for 64-bit integers |
| Messages.Message.PushFloat | oscpkt/oscpkt.hh:400 | the same for floats, as bit patterns |
| Messages.Message.PushDouble | oscpkt/oscpkt.hh:401 | the same for doubles, as bit patterns |
| Messages.Message.PushPod | oscpkt/oscpkt.hh:472-477 | the same for any value of 4 or 8 bytes |
| Messages.Message.PushStr | oscpkt/oscpkt.hh:402-408 | the string up to its first NUL is appended, in room for all of it |
| Messages.Message.PushBlob | oscpkt/oscpkt.hh:409-417 | the length word and the padded bytes are appended |
| Messages.Message.PackMessage | oscpkt/oscpkt.hh:426-435 | an OK message is appended, after its size if asked for; one in error leaves the storage as it was |
| Messages.Message.Match | oscpkt/oscpkt.hh:353-355 | a reader that is OK exactly when the message is and its address fully matches; the message's error comes first |
| Messages.Message.PartialMatch | oscpkt/oscpkt.hh:358-360 | the same for the partial match, with the address as pattern |
| Messages.ArgReader.constructor | oscpkt/oscpkt.hh:233-235 | the message's error, or else the one given, and the first argument |
| Messages.ArgReader.IsOkNoMoreArgs | oscpkt/oscpkt.hh:250 | no error, and all arguments popped, counted in an unsigned word |
| Messages.ArgReader.CurrentTypeTag | oscpkt/oscpkt.hh:301-305 | the next tag, or -1 and an error |
| Messages.ArgReader.Precheck | oscpkt/oscpkt.hh:314-318 | the error raised, and when there is none an argument of the type asked for standing in its slot |
| Messages.ArgReader.PopPod | oscpkt/oscpkt.hh:306-312 | the value encoded in the argument, or zero in case of an error |
| Messages.ArgReader.PopInt32 | oscpkt/oscpkt.hh:254 | the next argument, if it is a 32-bit integer |
| Messages.ArgReader.PopInt64 | oscpkt/oscpkt.hh:256 | the next argument, if it is a 64-bit integer |
| Messages.ArgReader.PopFloat | oscpkt/oscpkt.hh:258 | the next argument, if it is a float |
| Messages.ArgReader.PopDouble | oscpkt/oscpkt.hh:260 | the next argument, if it is a double |
| Messages.ArgReader.PopStr | oscpkt/oscpkt.hh:262-267 | the next argument, if it is a string; else the caller's string is kept |
| Messages.ArgReader.PopBlob | oscpkt/oscpkt.hh:269-275 | the next argument, if it is a blob; else the caller's bytes are kept |
| Messages.ArgReader.PopBool | oscpkt/oscpkt.hh:277-285 | the next argument, if it is a boolean; the index moves on even in case of an error |
| Messages.ArgReader.Pop | oscpkt/oscpkt.hh:287-291 | moves on if there is an argument |
| ReaderLaws.ReadsGood | oscpkt/oscpkt.hh:533-559 | every packet of the grammar is read as its messages in order, and its tree is recovered from the bytes |
| ReaderLaws.ReadsOnlyGood | oscpkt/oscpkt.hh:533-559 | a range that is read without error is the bytes of a packet of the grammar |
| ReaderLaws.ReaderMeetsGrammar | oscpkt/oscpkt.hh:512-559 | the reader is OK if and only if the bytes are those of a packet of the grammar, and then lists all of its messages in order |
| ReaderLaws.EncodedIsGood | oscpkt/oscpkt.hh:533-559 | at any depth, a tree of encoded messages is a packet of the grammar in which no blob declares 0xFFFFFFFC bytes, and the other way round |
| ReaderLaws.ReaderMeetsEncodings | oscpkt/oscpkt.hh:512-559 | the reader is OK and no blob it returns declares 0xFFFFFFFC bytes if and only if the bytes are those of a tree whose leaves are encodings of addresses and arguments |
| ReaderLaws.PacketIsUnique | oscpkt/oscpkt.hh:512-559 | no two packets of the grammar have the same bytes |
| WriterLaws.StartBytes | oscpkt/oscpkt.hh:584-590 | opening a bundle appends the hole for a nested size and the header, and records where the bundle starts |
| WriterLaws.AddBytes | oscpkt/oscpkt.hh:607-612 | adding a message appends it, after its size inside a bundle, and moves no open bundle |
| WriterLaws.EndBytes | oscpkt/oscpkt.hh:592-603 | filling the hole of the innermost bundle, after a zero word if it is empty, makes it an element of the bundle around it |
| Packets.EndRepresents | oscpkt/oscpkt.hh:592-600 | the back-patched storage stands for the closed bundle: its recursive encoding in place of the open one |
| Packets.FullIsSeen | oscpkt/oscpkt.hh:608 | a storage that is not empty while no bundle is open is exactly a packet that can take nothing more |
| Packets.PacketWriter.constructor | oscpkt/oscpkt.hh:579-580 | nothing is written |
| Packets.PacketWriter.Init | oscpkt/oscpkt.hh:580 | starts over, whatever was written |
| Packets.PacketWriter.StartBundle | oscpkt/oscpkt.hh:584-590 | the storage is the flattening of the stack with the bundle opened |
| Packets.PacketWriter.EndBundle | oscpkt/oscpkt.hh:592-603 | the storage is the flattening of the stack with the innermost bundle closed, or an error is raised |
| Packets.PacketWriter.AddMessage | oscpkt/oscpkt.hh:607-612 | the storage is the flattening of the stack with the message added, or an error is raised |
| Packets.PacketWriter.SizeIsMultipleOf4 | oscpkt/oscpkt.hh:619-622 | the packet size is a multiple of 4, and that of the storage below 2^32 |
| Packets.MessageCallIsSound | oscpkt/oscpkt.hh:607-612 | every message object is a call to which the results on runs apply |
| WriterRuns.CallsBuild | oscpkt/oscpkt.hh:584-612 | the calls for a packet put that packet where the writer is, at any depth |
| WriterRuns.BalancedRuns | oscpkt/oscpkt.hh:584-612 | a run ends without error, with one finished packet and nothing open, if and only if it is the calls of that packet |
| WriterRuns.RunHistory | oscpkt/oscpkt.hh:584-612 | at every moment of a run without error, what is built determines all the calls so far |
| WriterRuns.ErrorIffOutOfOrder | oscpkt/oscpkt.hh:592-617 | an error is raised if and only if some call is out of order, judged by the numbers of bundles opened and closed before it |
| WriterRuns.FirstOutOfOrder | oscpkt/oscpkt.hh:592-612 | the first call that is out of order decides the error |
| WriterRuns.ErrorsOnlyFlag | oscpkt/oscpkt.hh:592-612 | an error does not keep later calls from building what they build |
| WriterRuns.UnclosedBundleIsNotFlagged | oscpkt/oscpkt.hh:614-616 | a bundle left open raises no error |
| WriterRuns.SecondBundleIsNotFlagged | oscpkt/oscpkt.hh:614-616 | a second bundle beside the first raises no error |
| Packets.PacketReader.constructor | oscpkt/oscpkt.hh:508 | no messages, no error |
| Packets.PacketReader.Init | oscpkt/oscpkt.hh:512-518 | the reader holds fresh messages that stand for what the bytes read as; a size that is no multiple of 4 is an error |
| Packets.PacketReader.Parse | oscpkt/oscpkt.hh:533-559 | terminates on every aligned range, reads inside it, and gives its messages up to the first error |
| Packets.PacketReader.ParseElements | oscpkt/oscpkt.hh:541-551 | the loop over a bundle's elements, each of which is a smaller range inside it |
| Packets.PacketReader.PopMessage | oscpkt/oscpkt.hh:521-524 | the next message; null when all are read, and always null after an error |
| RoundTrip.PacketRoundTrip | oscpkt/oscpkt.hh:512-612 | balanced calls over well-formed messages leave the recursive encoding in the storage, and the reader returns those messages in order with the time tags of their innermost bundles |
| RoundTrip.DataIffInOrder | oscpkt/oscpkt.hh:619-625 | after any calls, the writer hands out the bytes built if and only if all calls were in order; else it hands out nothing and the size zero |
| RoundTrip.Exchange | oscpkt/oscpkt.hh:512-630 | the same on the objects: a reader given the writer's bytes holds the messages sent, with every argument readable |
| RoundTrip.BuiltMessageCall | oscpkt/oscpkt.hh:607-612 | a message built by pushing is added to a packet as its encoding |
| RoundTrip.BuiltMessagePacks | oscpkt/oscpkt.hh:393-435 | the bytes that a built message is packed to are its encoding |
| RoundTrip.RepackReproduces | oscpkt/oscpkt.hh:364-435 | the arguments of an accepted message, pushed into a fresh one and packed, are the original bytes, padding included |
| RoundTrip.CopyArgument | oscpkt/oscpkt.hh:237-312 | popping an argument by its type and pushing it appends that very argument |
| RoundTrip.Repack | oscpkt/oscpkt.hh:262-435 | the reverse round trip on the objects, argument by argument |
| RoundTrip.PackingAParsedMessageGrows | oscpkt/oscpkt.hh:364-435 | packing a parsed message as it is never reproduces it: its storage is the whole packet |
| Serial.Device.Write | src/utils.h:150-158 | the device takes some of the bytes from the front, or would block |
| Serial.NonblockWriter.WriteToFile | src/utils.h:148-159 | the number of bytes taken, zero when the device would block |
| Serial.NonblockWriter.Flush | src/utils.h:84-98 | queue and device move on together, as the recursive definition says; true when the queue is empty |
| Serial.NonblockWriter.Write | src/utils.h:103-112 | the data goes to the end of the queue before flushing |
| Serial.NonblockWriter.WriteBufferEmpty | src/utils.h:100-101 | true exactly when a flush would make no attempt to write, and then no byte is left to deliver |
| Serial.NonblockWriter.GetWritebufferSize | src/utils.h:132-138 | the number of bytes still to be delivered |
| Serial.AttemptConserves | src/utils.h:88-94 | one short write neither loses nor reorders a byte |
| Serial.FlushConserves | src/utils.h:84-98 | a flush delivers from the front of what is queued, and reports an empty queue exactly when there is one |
| Serial.WriteConserves | src/utils.h:103-107 | a write adds its data behind everything queued |
| Serial.RunConserves | src/utils.h:84-107 | for every interleaving of writes and flushes and every device, what was delivered followed by what is queued is all that was written |
| Serial.FlushExact | src/utils.h:84-98 | a flush delivers exactly the chunks that the device takes whole, one attempt each, and what it takes of the next; it is done if there is none |
| Serial.AllTaken | src/utils.h:84-98 | if the device takes every chunk, one flush delivers the whole queue |
| Serial.WriteFlushes | src/utils.h:103-107 | a write flushes: a device that takes all has the data at once, behind everything queued |
| Serial.FlushTries | src/utils.h:84-98 | a flush of a queue attempts at least one write, a flush of an empty one does nothing |
| Serial.FlushAdvances | src/utils.h:84-98 | a flush at which the device takes the first byte offered, and that does not finish, delivers at least one byte |
| Serial.DrainBound | src/utils.h:84-98 | with N bytes queued, at most max(1, N) such flushes empty the queue, whatever the device refused before or refuses later in a flush |
| Serial.EagerAccepts | src/utils.h:84-98 | a device that takes something from some attempt on makes all later flushes such flushes |
| Serial.DrainBoundIsReached | src/utils.h:84-98 | a device that takes one byte at a time needs as many flushes as there are bytes |
| RgbPattern.PatternCharacters | src/main.cpp:417-433 | the patterns of the daemon in characters |
| RgbPattern.RgbAddresses | src/main.cpp:417 | the colour pattern matches exactly the prefix, a lamp name without slash, and the suffix |
| RgbPattern.OriAddresses | src/main.cpp:433 | the orientation pattern matches exactly one address |
| LampLines.ColourLineDecodes | src/main.cpp:431 | a colour line is `i`, eight lowercase hexadecimal digits and a newline, and decodes to its colour and lamp |
| LampLines.ColourCharacters | src/main.cpp:431 | a colour line in characters: red, green, blue and lamp, two lowercase digits each, high digit first |
| LampLines.TurnCharacters | src/main.cpp:443 | an orientation line in characters |
| LampLines.TurnLineDecodes | src/main.cpp:443 | an orientation line has six digits and six more for each negative number, never eight, and decodes to its numbers |
| LampLines.PaintAt | src/main.cpp:431 | in a stream of colour lines, each line stands at its multiple of ten |
| LampLines.TextDecodes | src/main.cpp:431-443 | every line ends at its only newline, decodes to its command, and has ten bytes exactly when it is a colour line |
| LampLines.PrefixDecodes | src/main.cpp:431-443 | the complete lines in any prefix of a stream decode to the first commands sent |
| LampLines.LinesAreUnique | src/main.cpp:431-443 | a stream of lines determines its commands |
| Moodpd.ClampIsNearest | src/main.cpp:423-425 | the clamped value is the one in 0..255 nearest to the one asked for |
| Moodpd.CommandAsks | src/main.cpp:416-444 | three integers at a lamp's address ask for the line with the nearest colours in their order and the lamp index if in range; three at `/ori` for their angles; any other message for nothing |
| Moodpd.AsksForOne | src/main.cpp:416-444 | what a message asks for is one line at most |
| Moodpd.AngleMeans | src/main.cpp:440-442 | the sum wraps in 32 bits, the remainder has its sign, the quotient is rounded towards zero |
| Moodpd.AngleIsOctet | src/main.cpp:440-442 | for every int, the angle becomes a value in 0..255 if and only if the remainder of the turned angle is at least -1; from -180 on it does, by the intended formula, unless the sum overflows |
| Moodpd.OrientationLineFixed | src/main.cpp:433-444 | for all ints, the orientation line has eight bytes if and only if all three remainders are at least -1, and six more for each that is not |
| Moodpd.SteepAngle | src/main.cpp:440-442 | the angle -182 becomes -1 and its line has fourteen bytes; the angle -181 still becomes 0 |
| Moodpd.GoodReading | src/main.cpp:413-414 | every message that the daemon gets from an OK reader is OK and has an address without NUL |
| Moodpd.Daemon.constructor | src/main.cpp:310 | the reset command is written first |
| Moodpd.Daemon.WriteCommand | src/main.cpp:87-96 | a command is written to the serial line |
| Moodpd.Daemon.PopTriple | src/main.cpp:416-421 | the chain is OK exactly when the address matches and the arguments are three 32-bit integers, which it returns |
| Moodpd.Daemon.HandleMessage | src/main.cpp:416-444 | the line that the message asks for, and nothing else, is sent |
| Moodpd.Daemon.HandleMessages | src/main.cpp:414-445 | all messages of a packet are handled, in order |
| Moodpd.Daemon.HandlePacket | src/main.cpp:409-446 | a malformed packet does nothing, any other does what its messages ask for |
| Moodpd.Daemon.HandleWritable | src/main.cpp:376-378 | a ready serial line is flushed |
| DaemonRuns.Run | src/main.cpp:310-450 | up to any moment, the event loop has sent the lamp a prefix of the reset command and the commands of all messages |
| DaemonRuns.LampStream | src/main.cpp:310-450 | at every moment what was received followed by what is queued is the reset command and the commands of all messages in order |
| DaemonRuns.StreamAsks | src/main.cpp:405-447 | the stream of a run is, for each message received in order, the line that it asks for |
| DaemonRuns.EndToEnd | src/main.cpp:310-450 | for every run, the lamp has received a prefix of `q` and newline and the lines that the messages ask for, in order, and the rest is buffered; its complete lines decode to the first of the commands |
| DaemonRuns.ColourRuns | src/main.cpp:411-432 | while no orientation is asked for, whatever other messages arrive, the stream is the colour lines, each of ten bytes, one after the other |
| DaemonRuns.EverythingArrives | src/main.cpp:376-378 | whatever the device did before, once it takes the first byte offered at each flush, the lamp has received all commands when the line has been ready as often as bytes were queued |
| DaemonRuns.SenderToLamp | src/main.cpp:411-444 | a packet that a sender builds with balanced calls over any well-formed messages becomes exactly the lines that these messages ask for, in order |

## Left out

- Messages.ArgReader.PopBlob: must not be called on a blob that declares 0xFFFFFFFC bytes; the source then assigns from a range whose end is before its start, which has no defined meaning.
- Messages.Message.BuildFromRawData: takes only buffers whose length is a multiple of 4; on others, which the packet reader never passes, the source's padding check reads behind the buffer.
- Messages.Message.FromBytes: likewise takes only such buffers.
- RoundTrip.Repack: takes messages whose strings and blobs are shorter than 2^31 - 1 bytes, as `pushStr` and `pushBlob` assert; RepackReproduces has no such limit.
- RoundTrip.CopyArgument: likewise takes only arguments that may be pushed.
- PatternLaws.FullMatchExact: prefix-freeness is shown to be necessary one brace list at a time (BraceExactIffPrefixFree); in a whole pattern the overlapping alternatives may never get a path that tells them apart.
- ParentPath.ParentPathLaw: likewise, that the lists be settled is shown to be necessary one list at a time (BraceParentLawIffSettled).
- RoomLaws.DocumentedIffRoomy: does not say which patterns with `//`, or with a star and an open brace as their only fault, have the documented meaning; that a pattern is roomy is sufficient (PartialMatchBegins) but not necessary there (WildcardsMakeRoom, StarBeforeOpenBrace).
- The matcher is one function in the source; here its branches are methods of their own. Sizes and addresses of memory are unbounded: that a 64-bit pointer sum wraps around is not modelled.
- `Storage`'s reserved capacity, and `pod2bytes` and `strcpy` writing through pointers: values are computed and then written in place as a piece.
- `PacketReader` keeps its messages in a list with an iterator; here it is a sequence with an index, and `Parse` returns its messages instead of appending to the field.
- `std::string` and `std::vector` arguments are byte strings; the references that pops write through are results.
- UDP sockets, socket addresses and URLs (oscpkt/udp.hh), `openSerial`, `poll`, `fork`, terminal settings, keys on standard input, logging, and options: input, output and configuration.
- What the lamp says back, and the write errors that end the process: only runs in which `write` returns a count or would block.
- The `MUCPROTOCOL` branches, which are not compiled, the `m00d` packets with their text and raw modes, and the text of a lamp index: what `sscanf` leaves in the index is an arbitrary int before the range check.
- The meaning of floating point values, and acting on time tags, which the library only stores.
- Printing of messages, the Python scripts, the demo and the build files.
