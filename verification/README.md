# incbot in Dafny

`incbot` reads a table of identifiers, scans C source text for them, and prints the `#include`
directives that the text needs. This project models its three stateful parts and proves them
correct separately and end to end:

- the interning dictionary (`libincbot/dict.c`): strings in segments that never move, a two-way
  associative hash index with overflow chains threaded through one growing array;
- the lexical classifier (`libcf/libcf.c`): a character machine with one character of lookahead
  that tells code from literals and comments;
- the pipeline (`libincbot/incbot.c`): the pull/pushback code filter, the identifier scanner, the
  table reader, and the emitter that sorts and groups.

Code that updates state is a class or a method with loops, proved against a specification
function; what the program promises is proved about those functions.

| file | contents |
|---|---|
| `CStrings`, `Lists`, `Files` | C strings and character classes, lists, input files |
| `Interning` | what the symbol table means: first-fit lookup and interning |
| `HashIndex` | the shape of the hash index, and why searching one bucket equals searching every name |
| `Dict` | `HashMap` and `Dict`, the methods of `dict.c` |
| `Hash` | `hash_symbol` and why it is injective in each character |
| `Lexing`, `CodeStream` | the machine as a function, the region-by-region lexing, the code stream |
| `Libcf` | the buffer `Ccv` and the machine `Cf` |
| `CodeFilter` | `cf_getc` and `cf_ungetc` as a lazy stream |
| `Tokens`, `Includes`, `Scanner` | the words the scanner looks up; what `#include` lines hide from it; its nested loops |
| `IdTable` | the meaning of a table text |
| `Syncing` | when the table is in step with the dictionary, and when the dictionary runs ahead |
| `References`, `Incbot` | what a lookup records; the tables, the table reader, the searches |
| `Headers`, `Emit`, `Show` | the pointer loop over header names; the printed text; `show_includes` |
| `Answers`, `Program` | from table text and source texts to printed text |

The end-to-end statement is the contract of `Program.Run`, for any number of tables named by `-t`,
or else the default table:

- Every table named by `-t` is used, every record that it commits has its entry
  (`Program.EveryRecordUsed`), and the default table is used only where none is named.
- The default table is accepted exactly when every record has 3 to 8 fields and no identifier stands
  twice (`Program.DefaultExact`), because `main` gives up on any reported error. Tables named by `-t`
  are accepted exactly when the check of each succeeds: `main` ignores what reading them returned.
  One such table is accepted exactly when the records that it commits have an identifier each, no two
  the same (`Program.OptionExact`), however many lines are too long; a further one exactly when its
  identifiers go on from where the tables before it stopped (`Program.NextTableExact`).
- An accepted table may end in the middle of a line, or reading may have been given up. Fields that
  were stored but not committed make a new identifier wait for its entry (`Syncing.WaitingExact`).
  The first one that waits has the entry behind the committed ones, which lookups reach as in the
  code and `IdDatabase.View` includes. After one table every identifier has its own entry
  (`Program.OneTableGood`); `Program.NextTableGood` says exactly when that is so after further ones,
  and `Program.ReachedExact` which identifiers are left without an entry that was ever written.
- The text printed after each source text is an answer for it and all texts before it.
  `Answers.Answer` says what that is: groups in strictly increasing order, exactly for the pairs of
  include string and identifier that the lookups need, each with the type of an entry that gives it.
  The order is that of a dictionary by character codes (`CStrings.StrCmpExact`), and the text of a
  group is written out in `Emit.RenderText`, `Emit.ImportText` and `Emit.OnePrinted`. Printing stays
  inside every include string exactly when all that is needed can be printed.
- There is only one answer wherever every identifier has its own entry (`Program.GoodReached`,
  `Answers.AnswerUnique`). Behind any accepted tables it is unique exactly when no two entries give
  one printable include string for one identifier under types that print differently
  (`Program.UniqueExact`); else the order of ties, which is up to `qsort`, decides (`Emit.TieShows`).

For code streams in which no token `include` has a `#` before it, so for those without a `#` and
those without a token `include` (`Tokens.QuietStreams`), `Answers.AllNeededExact` reduces "need" to
token positions. For every other stream, whatever is needed is justified by a token, and whatever a
token off the `#include` lines justifies is needed (`Answers.NeededJustified`,
`Answers.JustifiedNeeded`). `Program.EntryExact` reads every entry off its line of table text, and
`Program.OneRecordAnswer` puts the parts together for a table of one record.

`cmd/test/README:9` promises that names in `#include` directives are not looked up. For a line of the
code stream that begins with `#` and has something behind its first word `include`, the code keeps this
exactly if the text before the line does not end with a word with no directive open
(`Includes.HidesExact`; `Includes.ClosedLeaves` says when there is no such word). Then no name in the
line is needed (`Answers.IncludedNamesNotNeeded`), and none changes what is printed
(`Answers.IncludedNamesDoNotMatter`).

Facts about the code that differ from what its comments or documentation suggest:

- A slash that starts no comment is code together with the character after it, even a quote. A
  slash at the end of the text is never classified (`Lexing.Region`, `Lexing.RunConserves`).
- The closer of a comment is inner, not outer; the newline that ends a line comment is not code.
- The report of an end of file inside a literal never happens: the test looks at the character on
  top of the buffer, which is never EOF (`CodeFilter.Fill` keeps the error at 0).
- The pointer loop over header names never looks at the character after a bar. It reads past the
  terminator exactly when an odd number of bars ends the string (`Headers.InsideIffEvenBars`), for
  example on `a|` (`Headers.BarAtEndRunsPast`).
- White space behind a word is skipped over newlines, and one more character is dropped. After a line
  that ends with a word, such as `extern int x`, the `#` of an `#include <errno.h>` is dropped that way,
  and `errno` is looked up (`Includes.NotHidden`).
- Behind `#include "x.h"`, whose name is hidden as a string, the scanner skips the next line instead of
  the rest of this one (`Includes.QuotedIncludeSkipsNext`).
- The newline behind a line comment is hidden, so that a `#` below it is not in the first column, and
  the names in its line are looked up (`Includes.CommentShowsInclude`).
- The table check does not see stored fields that were not committed. On the text `f;3;x;h;` it
  succeeds with the dictionary one ahead of the table (`Syncing.UnfinishedLineGoesAhead`). There the
  obsolete linear search no longer finds what the indexed one does (`References.FindersAgree`).
- A second table that commits nothing can overwrite the entry of an identifier that still waits for
  its commit: `f;3;x;h;` and then `f;` (`Program.OverwrittenEntry`). A third table, `f;3;x;h;` with
  its newline, is accepted and gives the identifier its entry again (`Program.EntryWrittenAgain`).
- The second table can also leave the entry of another identifier there. After `f;3;x;h;` and then
  `v;3;y;k;` a use of `x` prints the directive and the name of `y` (`Program.OtherNameRecorded`).

## Model

| member | source | states |
|---|---|---|
| Dict.HashMap.AppendOvfl | libincbot/dict.c:209-233 | one more unlinked entry, entry 0 reserved; first allocation and growth change no earlier entry |
| Dict.HashMap.FindInChainNr | libincbot/dict.c:269-278 | the walk along a chain finds a number exactly when the chain holds it, and otherwise ends at the last entry of that chain |
| Dict.HashMap.File | libincbot/dict.c:235-283 | filing the next number extends a well-formed index to it; filing a number already in the index changes nothing |
| Dict.Dict.GetNameNr | libincbot/dict.c:503-514 | the segment and offset of a number hold its name; number 0 has none |
| Dict.Dict.FindLinear | libincbot/dict.c:418-432 | the scan returns the first slot that holds the string, 0 if none does |
| Dict.Dict.FindHash | libincbot/dict.c:314-402 | the indexed search returns what the scan of every name returns |
| Dict.Dict.FindInSlots | libincbot/dict.c:330-367 | comparing stored hashes first skips no match; an empty slot means that the name is absent |
| Dict.Dict.FindInChain | libincbot/dict.c:377-391 | the walk ends and returns the first matching symbol of the chain |
| Dict.Dict.Find | libincbot/dict.c:476-501 | the two searches agree for every string, so the abort is unreachable; no name changes |
| Dict.Dict.Grow | libincbot/dict.c:569-576 | one more segment; no name moves |
| Dict.Dict.AppendSymbol | libincbot/dict.c:531-551 | the name gets the next number; all earlier numbers keep their names |
| Dict.Dict.SymnrAddHash | libincbot/dict.c:235-283 | the index covers the new number, and stays as it is for an old one |
| Dict.Dict.Add | libincbot/dict.c:553-567 | `dict_add` is interning |
| HashIndex.FindAgreesWithScan | libincbot/dict.c:485-494 | the first match among the symbols of one bucket is the first match among all names |
| HashIndex.FiledExactlyOnce | libincbot/dict.c:250-259 | each number 1..len-1 is filed once, in the bucket of its hash and nowhere else; slots fill before chains |
| HashIndex.ChainsPartitionOvfl | libincbot/dict.c:261-282 | each overflow entry lies on one chain, that of the bucket of its symbol |
| HashIndex.FileInSlot | libincbot/dict.c:251-255 | filing in the first free slot keeps the index well formed |
| HashIndex.FileInAllocated | libincbot/dict.c:263-282 | filing at the end of a chain, allocating the array if need be, keeps the index well formed and the links ascending |
| Interning.InternAllFaithful | libincbot/dict.c:553-567 | strings read back from their numbers, and share a number exactly when they are equal, whatever else is added |
| Interning.InternAllDense | libincbot/dict.c:538-549 | new numbers are dense, in order of first insertion |
| Hash.ComputeHash | libincbot/dict.c:193-207 | the loop computes the hash, on 32-bit words and sign-extended characters |
| Hash.AbsorbExact | libincbot/dict.c:198-202 | one round: the character, then the sum with itself shifted left by 10, then the exclusive or with itself shifted right by 6 |
| Hash.FinishExact | libincbot/dict.c:203-205 | the last mix: shifts left by 3, right by 11 and left by 15 |
| Hash.XorExact | libincbot/dict.c:201-204 | each binary digit of the exclusive or is set exactly where the digits differ |
| Hash.AbsorbInjectiveInState | libincbot/dict.c:199-201 | one round is a one-to-one map of the 32-bit state |
| Hash.AbsorbInjectiveInChar | libincbot/dict.c:199-201 | different characters take one state to different states |
| Hash.FinishInjective | libincbot/dict.c:203-205 | the final mix is a one-to-one map of the state |
| Hash.OneCharacterChangesHash | libincbot/dict.c:193-207 | two strings that differ in exactly one character never share a hash |
| Libcf.Ccv.Push | libcf/libcf.c:144-155 | a push appends, or is rejected without effect when the buffer is full |
| Libcf.Ccv.Top | libcf/libcf.c:157-171 | the entry pushed last, or ENODATA |
| Libcf.Ccv.Pop | libcf/libcf.c:173-188 | undoes the last push |
| Libcf.CfEof | libcf/libcf.c:235-264 | one end mark on top of the buffer; the error test looks at the top of the buffer; a pending slash is not flushed |
| Libcf.CfNext | libcf/libcf.c:228-403 | one step of the machine on buffer, state and error; the state determines the class, so the abort inside character literals is unreachable |
| Lexing.StepConserves | libcf/libcf.c:266-402 | a call emits 0, 1 or 2 characters: what was pending and what came in, less what is pending now |
| Lexing.RunConserves | libcf/libcf.c:228-403 | a whole run emits its input in order, but for a slash still pending |
| Lexing.RunRegion | libcf/libcf.c:266-389 | the machine runs through one code character, literal or comment and is back in its start state |
| Lexing.RunIsLex | libcf/libcf.c:266-402 | for every text the classified characters are those of the region-by-region lexing |
| CodeStream.HiddenRegion | libcf/libcf.c:296-389 | a comment or literal with a well-formed body ends where it is written to end; what opens a comment and the quotes of a literal are outer, all else is inner, and nothing is code |
| CodeStream.HiddenContributesNothing | libcf/libcf.c:296-389 | after any prefix that ends in the start state, comments and literals add nothing to the code stream and change nothing around them |
| CodeStream.PlainIsCode | libcf/libcf.c:266-402 | a text without quotes, in which every slash has a character behind it that makes it no comment, is all code |
| CodeFilter.Fill | libincbot/incbot.c:654-674 | reading into the empty buffer loses no code character, holds at most 2 entries, and keeps the error at 0, so the exit is unreachable |
| CodeFilter.Take | libincbot/incbot.c:676-699 | the first code character or mark is taken, and the entries behind it move to the front |
| CodeFilter.CfGetc | libincbot/incbot.c:646-700 | returns the head of the stream of code characters and leaves its tail; EOF for ever after the end; always terminates |
| CodeFilter.CfUngetc | libincbot/incbot.c:702-723 | one code character in front; refused only by a full buffer |
| CodeFilter.UngetThenGet | libincbot/incbot.c:702-723 | a character pushed back is the head of the stream again, and its tail is the old stream |
| CStrings.ClassesExact | libincbot/incbot.c:631-641 | the characters of a word are the letters, the digits and the underscore, a word begins with no digit, and white space is the six characters of the C locale |
| Tokens.ScanIsTokens | libincbot/incbot.c:739-803 | where no token `include` has a `#` before it, whatever else stands there, the words and call flags of the scanner are those of a maximal-munch tokeniser, one by one, to the end of the file |
| Tokens.QuietStreams | libincbot/incbot.c:784-788 | so in a stream without a `#`, where `include` may be an identifier, and in one without a token `include` |
| Tokens.TokensExact | libincbot/incbot.c:755-770 | a use is listed exactly when some maximal identifier run is that use: one that begins with a letter or underscore after nothing but digits |
| Tokens.TokensInOrder | libincbot/incbot.c:739-774 | the tokeniser lists the uses at all token starts from left to right, each once |
| Tokens.TokenStartExact | libincbot/incbot.c:755-764 | a token start begins exactly one token, which reaches to the end of its word |
| Tokens.ParenFollowsExact | libincbot/incbot.c:765-774 | a use is a call exactly when a parenthesis stands behind it with nothing but white space between |
| Tokens.ScanSound | libincbot/incbot.c:739-803 | for every code stream, every lookup is a token of it |
| Tokens.ScanComplete | libincbot/incbot.c:784-803 | for every code stream, every token is looked up unless it is a word `include` with a `#` somewhere before it, or behind such a word on its line |
| Includes.ScanIsLookups | libincbot/incbot.c:739-803 | the column count says no more than whether the last line between two words begins with `#`: with it the scanner looks up, one by one, what follows from the words and the text between them |
| Includes.IncludeSkips | libincbot/incbot.c:776-803 | at the start of a line, behind a `#` in the first column, the rest of a line whose first word is `include` is skipped, whatever stands there, and the scanner is at the start of the next line |
| Includes.BareIncludeSkips | libincbot/incbot.c:765-803 | if nothing stands behind that word, the next line on which something stands is skipped instead |
| Includes.IncludeIsWord | libincbot/incbot.c:748-784 | where the first column holds no `#`, the word `include` is a word like any other, and its line is scanned |
| Includes.LookupsSplit | libincbot/incbot.c:725-848 | the lookups of a text are those before the end of any line and those from there on, which depend on the text before by the way in which it is left only |
| Includes.IncludeInText | libincbot/incbot.c:739-803 | an `#include` line anywhere in a code stream: the lookups before it, the word `include`, and those below it or, behind a word with no directive open, those in the line as well |
| Includes.HidesExact | cmd/test/README:5-9 | the names in an `#include` line are hidden exactly if the text before it does not end with a word with no directive open |
| Includes.NotHidden | libincbot/incbot.c:765-774 | behind such a word the name in the line is looked up |
| Includes.ClosedLeaves | libincbot/incbot.c:765-774 | there is no such word where something other than white space follows behind every word |
| Includes.QuotedIncludeSkipsNext | libincbot/incbot.c:784-803 | behind an `#include` with a quoted name the next line of a source text is skipped |
| Includes.CommentShowsInclude | libincbot/incbot.c:748-784 | below a line comment the names in an `#include` line of a source text are looked up |
| Scanner.Next | libincbot/incbot.c:739-759 | between calls the buffer holds at most 2 entries of 4, after a read at most 1 |
| Scanner.PushBack | libincbot/incbot.c:772-774 | there is always room to push back, so the exit is unreachable |
| Scanner.ReadWord | libincbot/incbot.c:755-764 | the buffer holds one whole word and the next character is behind it |
| Scanner.SkipSpaces | libincbot/incbot.c:765-768 | white space behind a word is dropped, newlines included |
| Scanner.Word | libincbot/incbot.c:755-803 | one lookup of the specification: word, call flag, line, lookahead, rest of an `#include` line |
| Scanner.RecordUse | libincbot/incbot.c:805-823 | at most one reference for a lookup, as the identifier table decides |
| Scanner.ScanStream | libincbot/incbot.c:725-848 | for every source text, the references are those of the lookups of its code stream, in order |
| References.FindersAgree | libincbot/incbot.c:315-391 | the indexed search and the obsolete linear one over the committed entries agree exactly when the name is not that of a fitting entry still to be committed; with all committed they always agree |
| References.MasksExact | libincbot/incbot.c:756-770 | the masks of a call and of any other use, bit by bit |
| References.RefOfExact | libincbot/incbot.c:805-823 | a lookup records entry k exactly if k is the entry of its name, the type of k fits the use and is no keyword, and the include string of k is not empty |
| References.RecordedExact | libincbot/incbot.c:739-845 | entry k is recorded exactly if some lookup justifies it |
| Incbot.IdVector.Put | libincbot/incbot.c:393-436 | a field goes into the entry being filled in; committed entries survive growth |
| Incbot.RefVector.Add | libincbot/incbot.c:439-450 | one more reference; earlier ones survive growth |
| Incbot.IdDatabase.AddIdField | libincbot/incbot.c:393-436 | a field is interned in the right dictionary and its number stored; an empty eighth field is not |
| Incbot.IdDatabase.ReadIdTableStream | libincbot/incbot.c:455-535 | the character loop equals splitting into lines and fields, with its comments, blank lines, error count and early end, and what it leaves uncommitted |
| Incbot.IdDatabase.VerifyIdTable | libincbot/incbot.c:288-311 | accepts exactly when entry p holds symbol p + 1 throughout |
| Incbot.IdDatabase.Find | libincbot/incbot.c:365-391 | the indexed search, which also reaches the entry behind the committed ones; no table changes |
| Incbot.IdDatabase.FindLinearSearch | libincbot/incbot.c:315-330 | the obsolete search, over the committed entries |
| IdTable.JoinOfFields | libincbot/incbot.c:476-508 | splitting a line at its semicolons is undone by joining, and no field holds a semicolon |
| IdTable.RecordsOfText | libincbot/incbot.c:476-532 | reading a text that was written from records gives those records |
| IdTable.LetterType | libincbot/incbot.c:218-234 | the type of each letter |
| IdTable.LineExact | libincbot/incbot.c:476-486 | a finished line is dropped if it is blank or begins with `#`, and is a record otherwise |
| IdTable.TypeLetters | libincbot/incbot.c:218-270 | the letter of each type encodes to it, and a text is valid exactly when its type decodes to it |
| IdTable.MaskLetters | libincbot/incbot.c:236-270 | a combination of types decodes to exactly the letters that encode to one of them |
| IdTable.MatchesExact | libincbot/incbot.c:125-135 | types and masks of types are compared bit by bit |
| IdTable.ReadTextReads | libincbot/incbot.c:455-535 | one entry for each committed record, in order; every stored number reads back the text of its field, absent fields are undefined; the fields stored behind the committed entries read back too |
| IdTable.NeverStops | libincbot/incbot.c:488-499 | with at most 8 fields a line every record is committed and nothing is reported |
| IdTable.LongLinesReported | libincbot/incbot.c:488-499 | each line of more than 8 fields is counted, and reading stops exactly at the eleventh |
| IdTable.ExitExact | libincbot/incbot.c:488-534 | reading returns 2 with eleven such lines or more, 1 with one to ten, 0 with none |
| IdTable.CommittedLines | libincbot/incbot.c:488-502 | all records are committed, or all before the eleventh of more than 8 fields |
| Syncing.InStepExact | libincbot/incbot.c:288-311 | wherever the check succeeded before, it accepts exactly the texts whose committed records have an identifier each that goes on: first those that wait for their entries, in order, then new ones |
| Syncing.WaitingExact | libincbot/incbot.c:476-504 | what waits after an accepted text is what its records left of those that waited before, and a new identifier that its uncommitted fields bring; the dictionary is as long as the table exactly when nothing waits |
| Syncing.GoodWaiting | libincbot/incbot.c:376-391 | every identifier has its own entry exactly when nothing waits, or one identifier whose number the entry behind the committed ones holds |
| Syncing.GoodExact | libincbot/incbot.c:376-391 | after an accepted text, from wherever the check succeeded before, every identifier has its own entry exactly when its records leave none that waits, or one whose entry was written last |
| Syncing.UnfinishedLineGoesAhead | libincbot/incbot.c:476-504 | a text after which the check succeeds and the dictionary is ahead |
| Syncing.NothingLoose | libincbot/incbot.c:476-504 | a final newline and at most 8 fields a line leave nothing uncommitted |
| Headers.PrintDirectives | libincbot/incbot.c:909-926 | the pointer loop prints as specified, or runs past the terminator |
| Headers.InsideIffEvenBars | libincbot/incbot.c:911-926 | it stays inside the string exactly when an even number of bars ends it |
| Headers.BarAtEndRunsPast | libincbot/incbot.c:911-926 | a string on which it runs past the terminator |
| Headers.NamesPrinted | libincbot/incbot.c:909-926 | an include string gives one line for each of its names that is not empty, in order |
| Headers.NamesOfString | libincbot/incbot.c:909-926 | every string in which the loop stays inside is such a list of names |
| CStrings.StrCmpExact | libincbot/incbot.c:874-888 | the comparison is negative exactly when one string breaks off where the other goes on, or has the smaller character where they first differ |
| Emit.RefCmpTransitive | libincbot/incbot.c:874-888 | the comparison is transitive |
| Emit.RefCmpTotal | libincbot/incbot.c:874-888 | the comparison is total |
| Emit.RefCmpZero | libincbot/incbot.c:874-888 | ties are references to the same include string and identifier, because interning is injective |
| Emit.EmitIsRender | libincbot/incbot.c:899-951 | the loop that compares neighbours prints group by group |
| Emit.RenderText | libincbot/incbot.c:904-949 | the text of a group: the lines of its header names, then those of its identifiers |
| Emit.ImportText | libincbot/incbot.c:933-948 | the line for an identifier of each type, written out |
| Emit.OnePrinted | libincbot/incbot.c:899-951 | the whole text for one reference, by the type of its entry, written out |
| Emit.KeysExact | libincbot/incbot.c:904-949 | every include string and identifier referenced is printed, with the type of one of its references, and nothing else |
| Emit.KeysIncrease | libincbot/incbot.c:898-949 | in sorted order what is printed increases strictly, include strings first, in the order of a dictionary |
| Emit.IncreasingUnique | libincbot/incbot.c:898-949 | a strictly increasing list is determined by its members |
| Emit.TextDependsOnSetOnly | libincbot/incbot.c:891-952 | where no identifier is referenced with two types under one include string, the text depends on the set of references, not on order, multiplicity, line numbers or sort stability |
| Emit.OwnEntriesOneType | libincbot/incbot.c:805-823 | so wherever every reference is to the entry of its own identifier |
| Emit.TieShows | libincbot/incbot.c:874-951 | two references for one include string and identifier may stand in either order, and the text is the same exactly when they print the same line |
| Emit.PrintedGroups | libincbot/incbot.c:891-952 | one group for each include string in strictly increasing order of a dictionary, its identifiers likewise, nothing but what was recorded, and every pair recorded |
| Show.CompareRefs | libincbot/incbot.c:874-888 | the comparison by include string, then identifier |
| Show.PrintRefs | libincbot/incbot.c:899-951 | the printing loop; it stays inside all include strings exactly when every reference can be printed |
| Show.ShowIncludes | libincbot/incbot.c:891-952 | sorts the references in place, keeps their multiset, and prints them, or runs past an include string exactly when one cannot be printed |
| Answers.AnswerUnique | libincbot/incbot.c:891-952 | the printed text is determined by what is needed, where no identifier is needed with two types for one include string |
| Answers.AnswerOfNone | libincbot/incbot.c:891-952 | where nothing is needed, nothing is printed |
| Answers.AnswerOfOne | libincbot/incbot.c:891-952 | where one include string and identifier are needed, one directive and one line are printed |
| Answers.RecordedNeeded | libincbot/incbot.c:739-845 | the recorded pairs and their types are exactly those needed |
| Answers.SortedAnswer | libincbot/incbot.c:891-952 | sorted references that hold what is needed print as the answer |
| Answers.PrintsExact | libincbot/incbot.c:909-926 | the references can be printed exactly when all that is needed can |
| Answers.NeededJustified | libincbot/incbot.c:725-848 | for every code stream, whatever is needed is justified by a code token |
| Answers.JustifiedNeeded | libincbot/incbot.c:725-848 | for every code stream, whatever a code token justifies is needed unless the token is behind a `#` and is `include`, or stands behind such an `include` on its line |
| Answers.NeededExact | libincbot/incbot.c:725-848 | where no token `include` has a `#` before it, needed is exactly what a code token justifies |
| Answers.AllNeededExact | cmd/incbot.c:153-159 | the same over all source texts so far |
| Answers.BodiesDoNotMatter | libcf/libcf.c:296-389 | replacing a comment or literal by another, in any of the source texts, never changes what can be printed, and so not what is printed where that is unique |
| Answers.IncludedNamesDoNotMatter | cmd/test/README:5-9 | the names in an `#include` line of any of the source texts never change what can be printed, but for the lines that `Includes.HidesExact` excludes |
| Answers.IncludedNamesNotNeeded | cmd/test/README:5-9 | nothing is needed for them: all that is needed is needed before the line, for the word `include`, or below the line |
| Program.OptionExact | cmd/incbot.c:248-253 | the program goes on after one table named by an option exactly when the committed records have an identifier each, no two the same |
| Program.DefaultExact | cmd/incbot.c:307-316 | the default table is accepted exactly when every record has between 3 and 8 fields and no two have the same identifier |
| Program.OneTableGood | libincbot/incbot.c:365-391 | after one accepted table, whatever its last line, every identifier has its own entry |
| Program.NextTableExact | cmd/incbot.c:248-253 | a further table is accepted exactly when those before it are and its committed records go on from where they stopped |
| Program.NextTableWaiting | cmd/incbot.c:248-253 | the identifiers that wait for their entries behind a further table |
| Program.NextTableGood | cmd/incbot.c:248-253 | exactly when every identifier has its own entry behind a further table, whatever was so before it |
| Program.OverwrittenEntry | cmd/incbot.c:248-253 | two accepted tables after which an identifier has no entry of its own |
| Program.EntryWrittenAgain | cmd/incbot.c:248-253 | a third one after which it has |
| Program.TablesPrepared | libincbot/incbot.c:393-436 | whatever tables were read, both dictionaries are without repetitions, all numbers in range, and an entry with an include string has an identifier |
| Program.GoodReached | libincbot/incbot.c:365-391 | where every identifier has its own entry, every use finds it, and no identifier is needed with two types |
| Program.ReachedExact | libincbot/incbot.c:376-381 | behind accepted tables, a use reads an entry never written exactly when its name waits, and is not the first to wait or nothing was written behind the committed entries |
| Program.WaitingRef | libincbot/incbot.c:376-391 | a use of the name that waits first is recorded as the entry written last says, whosever it is |
| Program.OtherNameRecorded | cmd/incbot.c:248-253 | two accepted tables after which a use of one identifier is recorded as one of another |
| Program.UniqueExact | libincbot/incbot.c:891-951 | behind accepted tables the text to print is unique, whatever is looked up, exactly when no name waits whose lookups reach an entry that gives the include string of a committed entry of the same identifier, under a type that prints differently |
| Program.EntryExact | libincbot/incbot.c:393-436 | whatever tables were read, type, identifier and include string of every reachable entry are the fields of its line, and decide what it provides |
| Program.EntriesCounted | libincbot/incbot.c:501-504 | the reachable entries are those of all committed records, in order, and the one stored last while the dictionary is ahead |
| Program.EveryRecordUsed | cmd/incbot.c:248-253 | every committed record of every table has its entry, with the type, identifier and include string of its fields |
| Program.OneRecordAnswer | cmd/incbot.c:307-361 | with a default table of one record, a lookup of its identifier prints its directive and its line if the include string is not empty and the type fits, and nothing otherwise |
| Program.ReadIdTableFile | libincbot/incbot.c:602-629 | reads a table into whatever tables there are, and goes on exactly when the check succeeds |
| Program.ReadTableFiles | cmd/incbot.c:248-253 | several tables one after the other; the first that fails the check ends the program |
| Program.AllFiles | cmd/incbot.c:142-162 | after each source text the answer for all texts so far is printed, up to the first text that needs what cannot be printed |
| Program.Run | cmd/incbot.c:248-361 | from table texts and source texts to printed texts: all tables named by options, accepted exactly when the checks succeed, or else the default table, accepted exactly when it is well formed |

## Left out

- Dict.Dict.FindHash: the branch that inserts while searching; it has no caller and uses an unset number. Rehashing is not compiled by default.
- Dict.Dict: the hash function is a parameter of the class, `Hash.HashSymbol` where `incbot` creates its dictionaries; nothing in the dictionary depends on which it is.
- Dict.HashMap.AppendOvfl: growth is a new array with the old contents copied; memory that C leaves unset is given a value that no contract promises.
- Hash.ComputeHash: `char` is taken as signed and 8 bits wide, the words as numbers below 2^32.
- Libcf.CfNext: the class set is a value with one class; S_INCHAR, which no transition enters, is absent.
- Libcf.CfEof: an end of file inside a literal or comment is not reported, as in the code.
- Incbot.IdDatabase.ReadIdTableStream: fields of 1024 characters and more are excluded by precondition; the code writes past its buffer for them. Messages on stderr are not modelled.
- Scanner.ScanStream: source texts in which a word of 1024 characters or more is looked up are excluded by precondition; the code does not check its buffer.
- Scanner.Word: line and column are kept as the code keeps them, which is not where the word stands; they are never printed.
- Answers.NeededExact: where a token `include` has a `#` before it, the tokens behind it may be skipped; `Includes.ScanIsLookups` says which, not in terms of single positions.
- Show.ShowIncludes: what is printed once the loop has run past an include string; the result only says that it does.
- Show.QSort: stands for `qsort`. Callers use no more than that the result is some sorted permutation; the insertion inside only shows that there is one.
- Program.Run: with tables named by options, source texts that use an identifier whose entry was never written are excluded, for which the code reads memory that it did not write; `Program.ReachedExact` says which identifiers these are, and after one table, named or default, there are none.
- Program.UniqueExact: which of two clashing entries is printed is left to `qsort`; the model allows either.
- Opening files, the other options, the second default table path and the probing of file names.
- Emit.PrintedGroups: two include strings may share a header, so a directive can occur in several groups; only include strings are unique.
- The trace flag and debug output of the searches and the scanner.
- Allocation failure, and sizes beyond `size_t`.
- Locales other than C in the character tests.
- Line splicing, trigraphs and comments becoming spaces (section 5.1.1.2 of ISO/IEC 9899:1999), which the code does not implement.
