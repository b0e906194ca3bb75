# KIMAP: codecs, parsers and job state machines

KIMAP is an IMAP client library. This project models the parts of it that lie between the socket and
the interface of its jobs, and proves what they are for:

- the mailbox-name codec (modified UTF-7, section 5.1.3 of RFC 3501): `Bits`, `Unicode`,
  `FolderNameCodec`, `FolderNameDecoder`, `FolderNameText`, `FolderNameRoundTrip`;
- the incremental parser of server responses: `QuotedStrings`, `StreamText`, `StreamParser`, `ListReading`,
  `CutOff`;
- the recursive descent over BODYSTRUCTURE: `BodyStructures`;
- the LIST and IDLE jobs, whose reports do not depend on timer ticks: `ListAggregation`, `StatusPairing`,
  `IdleStats`, `Jobs`;
- the search-term serialiser: `SearchTerms`, `SearchGrammar`, `SearchMeaning`;
- the session with its protocol state and its queue of jobs: `SessionLog`, `Sessions`, and the SELECT
  job on top of them: `MailboxSelection`;
- sets of message numbers: `ImapSets`, `Decimals`, `Texts`;
- the job that sets metadata, in one line or with literals: `MetaData`;
- what a server reads from the arguments of SELECT and of the metadata commands: `CommandArguments`.

Octets are Dafny characters, byte arrays are strings. What the source does with loops and fields is a
method or a class here, tied by its contract to a function of its input or to the history of the object;
the lemmas say what that function means. Shift registers have the source's 32 or 64 bits. A read one
past the end of a byte array gives a NUL, as the source relies on. An assertion of the
source does nothing, as in release code, unless a row says that it holds.

Where the code does not do what its purpose asks for, the exact condition is proved:

- A mailbox name comes back from the codec if and only if it has no double quote and no backslash, and
  every code point from U+100000 on is one of U+10DC00..U+10DFFF directly after U+FDC00
  (`RoundTripExactly`); the encoder loses bit 20 of a code point. Its output is modified UTF-7 if and
  only if no code point from U+100020 to U+10007E occurs, and those of U+10DC00..U+10DFFF come directly
  after those of U+10D800..U+10DBFF and nowhere else (`EncodedConforms`; `LoneSurrogate` is a name that
  breaks it).
- The descent over a BODYSTRUCTURE of section 7.4.2 of RFC 3501 gets through if and only if the text has
  no literal outside its quoted strings; with one, a loop of it is in its body after any number of
  iterations (`StructureOutcome`, `GroupEndless`, `ConsumeEndless`, `LiteralNeverEnds`).
- Search criteria are read back as the query if and only if it has no KEYWORD key, which is written with
  a quoted string where an atom is due, no sequence number, before which a second space is written, no
  value that has a double quote or a backslash, which are written as they are, or a NUL, a line break
  or, unless UTF8=ACCEPT is enabled, an octet from 0x80 on, no header name that is no astring, no size
  below 0 or from 2^32 on, no year that has not four digits, no set that is empty or has an empty range
  or an id below 1 or from 2^32 on, and no relation without subterms (`SearchMeansQuery`; a value with
  a double quote can add keys, `QuoteInjects`).
- A printed list is read back if and only if it has no value with such backslashes between quotes as it
  is, and no bracket in a sublist outside of its quoted strings, which would be added to the item before
  the sublist as well (`ListReadBackExactly`). A section of a body, as `BODY[HEADER.FIELDS (DATE)]<0>`,
  is read as one item, its own text, if and only if it has no space and no list between the brackets, and
  no origin after them; what is read otherwise is exactly given (`SectionOwnText`, `ListReadBack`).
- A count in an EXISTS or RECENT line is reported as it is if and only if it has 31 bits; a larger one is
  taken for 0 (`IdleStats.LineMeans`, `IdleStats.RunLines`).
- A charset, which is written without a space after it, is read as it was set if and only if the criteria
  start with a space themselves (`CharsetRead`).
- A quoted string is read back if and only if it has no backslash before a backslash or a quote
  (`QuotedReadBackExactly`).
- A value that is written between quotes as it is, as the metadata job does with its keys and values,
  comes back if and only if it has no quote, no two backslashes together and none at its end
  (`RawReadBack`, `EntriesReadBackExactly`).
- In literal mode a value that is to be removed is sent as the value NIL is; entries are told apart if and
  only if they differ in more than that (`ToldApart`, `RemovalOrNil`).
- A printed set is read back if and only if no interval has size 0, as the default one has, which stands
  for every id and prints as nothing, and none but a single id has size one, as one has that is open at
  the largest 64-bit number (`SetRoundTripExactly`).
- The comparison of sets is not symmetric on lists with repetitions (`SetsEqualNotSymmetric`). On
  optimised ones it holds if and only if both stand for the same ids, which are the numbers from 1 on, and
  both or neither begin with an undefined begin (`SetsEqualExactly`; `UndefinedBegin` is a pair with the
  same ids that it tells apart).
- A mailbox gets the status that the server sends for it if and only if UTF8=ACCEPT is enabled or decoding
  leaves its name alone: LIST decodes the name, STATUS does not (`SameName`). Without UTF8=ACCEPT that
  is, of the names that the codec brings back, printable ASCII without an ampersand (`EncodedNameMatched`).
- The SELECT job's assertion holds if and only if the server refuses, or accepts after login a name that
  comes back from the arguments, or the name is empty: an acceptance before login, a name that does
  not come back and a reply of a tag alone break it (`SelectJob.HandleResponse`).
- A response whose first part is no text matches every tag that is not awaited: the session stays in
  order if and only if it has no code that the state reacts to, or those tags are awaited
  (`Session.ResponseReceived`, `BlankFirstPart`); `BlankRefusal` is a refusal that leaves the mailbox.
- A socket error between connection and greeting takes the first job out of the queue without running
  it (`Session.SocketError`).

## Model

| member | source | states |
|---|---|---|
| FolderNameCodec.QuoteIMAP | src/rfccodecs.cpp:154-167 | a backslash goes before every double quote and backslash, and nothing else changes |
| FolderNameCodec.EncodeImapFolderName | src/rfccodecs.cpp:190-291 | for every octet string the wrapping shift register writes what the encoder writes on an unbounded bit stream, then quotes it |
| FolderNameCodec.SpewCodePoint | src/rfccodecs.cpp:264-281 | a code point adds its UTF-16 code units to the bit stream, whose whole sextets are written and whose rest stays in the register |
| FolderNameCodec.CollectOctet | src/rfccodecs.cpp:238-262 | the registers that collect a UTF-8 sequence advance by one octet |
| FolderNameDecoder.DecodeImapFolderName | src/rfccodecs.cpp:52-142 | for every octet string, also a malformed one, the loops decode literal characters and runs in their order |
| FolderNameDecoder.DecodeRun | src/rfccodecs.cpp:89-138 | a run's sextets, regrouped in code units and combined through the word that the decoder keeps, give its octets; a dash that ends it is skipped |
| FolderNameDecoder.ConvertToUtf8 | src/rfccodecs.cpp:109-132 | the masked and shifted octets are the UTF-8 form of the word |
| FolderNameDecoder.Base64Table | src/rfccodecs.cpp:70-74 | the table inverts the alphabet, and NUL is undefined in spite of the loop over the terminator |
| FolderNameCodec.Base64Alphabet | src/rfccodecs.cpp:37 | the table is the alphabet of modified base64, character by character: the capitals, the small letters, the digits, plus and comma |
| FolderNameCodec.Base64Place | src/rfccodecs.cpp:70-74 | a character of the alphabet stands for its place there, and every other one is undefined |
| FolderNameText.EncodedOne | src/rfccodecs.cpp:264-287 | a name of one code point of the basic plane is sent as an ampersand, the three characters of the alphabet that its bits count out, and a dash |
| FolderNameText.EncodedAcute | src/rfccodecs.cpp:213-289 | a small e with an acute accent is sent as `&AOk-` |
| FolderNameRoundTrip.DecodedAcute | src/rfccodecs.cpp:52-142 | and `&AOk-` is decoded to its two octets |
| Unicode.Samples | src/rfccodecs.cpp:100-132 | the UTF-8 and UTF-16 forms of the euro sign and of a character beyond the basic plane |
| FolderNameText.EncodedIsModified | src/rfccodecs.cpp:213-289 | on UTF-8 text the encoder writes, run by run, the UTF-16 bit stream of the code points it collected, regrouped in sextets and padded with zeros |
| FolderNameText.EncodedPrintable | src/rfccodecs.cpp:213-289 | before quoting, the output for any octets is bytes 0x20 to 0x7E only |
| FolderNameText.EncodedConforms | src/rfccodecs.cpp:213-289 | the output is modified UTF-7: runs are well-formed UTF-16 without printable characters, zero padded, closed and never adjacent; exactly when no code point loses its bit 20 to a printable character or to a lone surrogate |
| FolderNameText.LoneSurrogate | src/rfccodecs.cpp:264-281 | U+10D800 is sent as a high surrogate alone |
| FolderNameRoundTrip.RoundTripExactly | src/rfccodecs.cpp:52-291 | decoding the encoding of a name gives the name if and only if the condition on its code points holds |
| FolderNameRoundTrip.RoundTripBelow | src/rfccodecs.cpp:52-291 | in particular for every name below U+100000 without double quote and backslash |
| FolderNameRoundTrip.UnquotedRoundTrip | src/rfccodecs.cpp:52-291 | when the backslashes of quoting are taken away before decoding, as a server does, names with quotes and backslashes come back as well, exactly under the condition on code points from U+100000 on |
| QuotedStrings.ReplaceAll | src/imapstreamparser.cpp:386-391 | the replacement loop ends, and leaves no backslash directly before the character |
| QuotedStrings.QuotedCloses | src/imapstreamparser.cpp:336-357 | the text that quoting makes of any value is closed by the quote after it and no earlier one |
| QuotedStrings.QuotedReadBackExactly | src/imapstreamparser.cpp:384-392 | removing the backslashes of a quoted value gives the value if and only if it has no backslash before a backslash or a quote |
| QuotedStrings.RawReadBack | src/imapstreamparser.cpp:336-392 | a value put between quotes as it is comes back if and only if it has no quote, no two backslashes together and none at its end; otherwise something is read that cannot grow into it |
| StreamParser.ImapStreamParser.WaitForMoreData | src/imapstreamparser.cpp:442-452 | waiting moves data from socket to buffer and keeps what is unread |
| StreamParser.ImapStreamParser.TrimBuffer | src/imapstreamparser.cpp:539-546 | trimming keeps what is unread |
| StreamParser.ImapStreamParser.ReadLiteralPart | src/imapstreamparser.cpp:134-155 | the part and what is unread after it make up what was unread before; an exception means that the stream is too short |
| StreamParser.ImapStreamParser.ReadLiteral | src/imapstreamparser.cpp:129-155 | for every split of the stream the loop returns exactly the announced next bytes, and raises if and only if the stream has fewer |
| StreamParser.ImapStreamParser.HasLiteral | src/imapstreamparser.cpp:79-127 | finds the size and the first byte of a literal, or leaves the position where it was |
| StreamParser.ImapStreamParser.ParseQuotedString | src/imapstreamparser.cpp:318-396 | the string, the position after it and the cases that raise, as the grammar on the unread text says |
| StreamParser.ImapStreamParser.ReadString | src/imapstreamparser.cpp:34-56 | a literal, a quoted or an unquoted string, from the unread text |
| StreamParser.ImapStreamParser.ReadParenthesizedList | src/imapstreamparser.cpp:188-284 | the items, the position after the list and the cases that raise, on every text that the code defines a result for |
| ListReading.QuotationParsed | src/imapstreamparser.cpp:318-396 | parsing a quoted value stops right after the closing quote, and gives the value exactly when it has no such backslash |
| ListReading.LiteralString | src/imapstreamparser.cpp:104-126 | a printed literal with any bytes is read back |
| ListReading.BinaryLiteral | src/imapstreamparser.cpp:79-127 | so is one with a tilde before its size |
| ListReading.BreakAfter | src/imapstreamparser.cpp:267-271 | line breaks after a string in a list are passed over |
| ListReading.ListReadBack | src/imapstreamparser.cpp:188-284 | reading a printed list of atoms, quoted strings, literals, balanced sublists and sections, in any order, gives their values, and stops right after the list; sublists come verbatim, and sections as name, brackets and words without spaces, then the list between the brackets with the closing one, then the origin |
| ListReading.ListReadBackExactly | src/imapstreamparser.cpp:188-284 | with values between quotes as they are, and brackets in sublists, a printed list is read back if and only if each of those values alone would be and no sublist has a bracket outside its quoted strings |
| ListReading.SectionOwnText | src/imapstreamparser.cpp:245-283 | a section such as `BODY[TEXT]` is one item with its own text if and only if it has at most one word and no list between the brackets, and no origin |
| CutOff.ListCut | src/imapstreamparser.cpp:188-284 | of a list that has not come completely the reader raises, wherever it is cut behind its opening parenthesis; it never gives a part of the items |
| CutOff.ItemsCut | src/imapstreamparser.cpp:203-281 | for any state of the loop and any text, what is read of a part of the text is what is read of the whole, or it raises |
| ListReading.ReadPrintedList | src/imapstreamparser.cpp:188-284 | the parser object does so, wherever it trims its buffer |
| BodyStructures.ParseBodyStructure | src/fetchjob.cpp:386-434 | wherever the source ends, it builds the tree and stops at the position that the structural reader of the unread text gives |
| BodyStructures.ParsePart | src/fetchjob.cpp:436-477 | so does the reading of one part, wherever it ends, whatever fields follow the types |
| BodyStructures.ParseChildren | src/fetchjob.cpp:402-407 | the parts of a multipart, each once and in order, wherever the source ends |
| BodyStructures.ParseSentence | src/fetchjob.cpp:479-521 | the position moves past the next string or, by counting parentheses, past the matching one of a list, wherever the source ends |
| BodyStructures.ParseString | src/fetchjob.cpp:523-579 | a quoted string, an atom, nothing for NIL or in front of a parenthesis, bracket or line break |
| BodyStructures.WordReadExactly | src/fetchjob.cpp:569-576 | a quoted type is read as it is exactly when it has no backslash before a backslash or a quote |
| BodyStructures.StructureOutcome | src/fetchjob.cpp:386-521 | on the text of any body of section 7.4.2 of RFC 3501, literals included, the descent gives the tree and stops right after it if there is no literal, and never ends if there is one |
| BodyStructures.ChildrenOutcome | src/fetchjob.cpp:402-407 | the same of the parts of a multipart |
| BodyStructures.LineBreakStops | src/fetchjob.cpp:472-521 | in front of a line break a string and a sentence read nothing, and the readers of fields, lists and extension data are endless |
| BodyStructures.GroupEndless | src/fetchjob.cpp:492-516 | the reader of a list is endless if and only if the do-while loop goes on after any number of iterations, in any text |
| BodyStructures.ConsumeEndless | src/fetchjob.cpp:472-476 | the reader of what is left is endless if and only if the loop, or the one inside it, goes on after any number of iterations |
| BodyStructures.LineBreakLoops | src/fetchjob.cpp:472-516 | at a line break any number of iterations of either loop leaves position and depth as they are |
| BodyStructures.GroupOnce | src/fetchjob.cpp:493-515 | the body of the loop over a list does to position and depth what one iteration does to the unread text |
| BodyStructures.ConsumeOnce | src/fetchjob.cpp:473-475 | so does the body of the loop that consumes what is left |
| BodyStructures.LiteralNeverEnds | src/fetchjob.cpp:436-477 | on a text part whose subtype is a literal the descent never ends, whatever follows |
| Jobs.Job.HandleErrorReplies | src/job.cpp:58-78 | a reply with one of the job's tags takes the tag away, fails the job unless it is OK, and with the last tag emits the result |
| Jobs.Job.ConnectionLost | src/job.cpp:51-56 | fails the job and emits its result |
| ListAggregation.ReadResponse | src/listjob.cpp:204-263 | a response is read as a LIST with lower-case flags and a decoded name, as a STATUS, or as neither |
| ListAggregation.ListJob.EmitPendings | src/listjob.cpp:29-58 | an emission at any time reports only what is complete, the final one everything; the assertion on the number of statuses holds |
| ListAggregation.ListJob.HandleResponse | src/listjob.cpp:192-267 | with what is emitted and pending, the job accounts for all its responses; the reply to its last tag completes the report |
| ListAggregation.ReportSnoc | src/listjob.cpp:231-264 | what one more LIST or STATUS does to the report: a status goes to the last mailbox if the name matches, none came yet and it is selectable |
| ListAggregation.Run | src/listjob.cpp:29-58 | in any run, with ticks anywhere, the signals carry exactly the report of the responses: each LIST once, in order, with its status or none |
| ListAggregation.TicksDoNotMatter | src/listjob.cpp:29-58 | that report is the one of the run without ticks |
| StatusPairing.SameName | src/listjob.cpp:223-251 | a STATUS with the name that the LIST had on the wire is matched if and only if UTF8=ACCEPT is enabled or decoding leaves the name alone, also for INBOX |
| StatusPairing.OwnStatus | src/listjob.cpp:204-263 | what is then reported of the mailbox, from responses given as data: its name, INBOX in capitals, its flags in small letters, and the names and 64-bit numbers of its status, exactly under that condition and if no flag is `\NoSelect` in any case of letters |
| StatusPairing.Converted | src/listjob.cpp:269-280 | INBOX is put in capitals, alone or before the separator, and every other name is left alone |
| StatusPairing.StatusRead | src/listjob.cpp:258-263 | every name of a status keeps its number |
| StatusPairing.WordsJoined | src/listjob.cpp:217-221 | a name in several parts is put together with single spaces |
| StatusPairing.NoSelectSpelled | src/listjob.cpp:204-208 | a mailbox counts as not selectable if and only if one of its flags spells `\NoSelect`, in any case of letters |
| StatusPairing.LowerLetters | src/listjob.cpp:206-208 | each capital letter is put in its small one, and nothing else is changed |
| StatusPairing.LowerAllAt | src/listjob.cpp:205-208 | every letter of every flag is put in lower case in its place |
| StatusPairing.EncodedNameMatched | src/listjob.cpp:223-251 | without UTF8=ACCEPT, of the names that the codec brings back those of printable ASCII without an ampersand are matched, and no others |
| StatusPairing.AmpersandUnmatched | src/listjob.cpp:246-251 | the mailbox named by an ampersand is not |
| IdleStats.IdleJob.EmitStats | src/idlejob.cpp:27-38 | the pending counts become one report, and none is pending |
| IdleStats.IdleJob.HandleResponse | src/idlejob.cpp:91-134 | reported and pending counts are at any time the counts received; the timer runs exactly while a count is pending, and none is after the tagged reply |
| IdleStats.Run | src/idlejob.cpp:27-134 | in any run that ends in its tagged reply, however the timer fires, each non-negative count of either kind is reported once and in order, and no report is empty |
| IdleStats.RunLines | src/idlejob.cpp:91-134 | in any run of server lines given as kind and number, however the timer fires, the message counts reported are those of the EXISTS lines and the recent counts those of the RECENT lines, once and in order |
| IdleStats.LineMeans | src/idlejob.cpp:102-126 | a line with EXISTS names messages and one with RECENT recent ones, with its number if that has 31 bits and 0 otherwise; a continuation and any other line name nothing |
| IdleStats.NoCount | src/idlejob.cpp:102-126 | a text that is no number counts as 0, and less than three parts for nothing |
| SearchTerms.MakeRelation | src/searchjob.cpp:36-63 | the loops over the subterms nest OR to the right and join AND with single spaces |
| SearchTerms.MakeSequence | src/searchjob.cpp:191-204 | a sequence key writes the text of a canonical list for the same set of ids |
| SearchMeaning.LeafWord | src/searchjob.cpp:65-204 | the name written for each key is that of section 6.4.4 of RFC 3501; a set of sequence numbers is its own name |
| SearchMeaning.KeyMeans | src/searchjob.cpp:217-227 | the parsed key, whose arguments are texts, dates, numbers and ranges of ids, has the truth value of the query on every message |
| SearchMeaning.DateRead | src/searchjob.cpp:141-175 | the text of a date is read as the same day, month and year, the month by its place in the list of section 9 of RFC 3501 |
| SearchMeaning.SetRead | src/searchjob.cpp:191-204 | the text of a set is read as its ranges, in their order, an open end as the asterisk |
| SearchMeaning.QueryParses | src/searchjob.cpp:36-63 | the grammar reads a serialised query as the key it stands for, with any text after it, if and only if the query is grammatical: its quoted strings are those of section 9 of RFC 3501, with escapes |
| SearchMeaning.Stripped | src/searchjob.cpp:291-296 | a leading parenthesis matches the last character, and the text without the two means the same |
| SearchMeaning.SearchMeansQuery | src/searchjob.cpp:36-63 | for every query, the criteria sent are read back as the query, with its dates, sizes, sets and texts themselves as arguments, if and only if each of its keys meets the condition above and no relation is empty; the query read back matches exactly the messages that the query matches |
| SearchMeaning.SequenceNumberFails | src/searchjob.cpp:191-204 | a search by sequence number is sent with a second space, which the grammar refuses |
| SearchMeaning.QuoteInjects | src/searchjob.cpp:96-98 | a value with double quotes is read as one key up to the first of them, and the rest of it as further keys |
| SearchMeaning.HeaderNameFails | src/searchjob.cpp:102-108 | a search in a header whose name has a space or is empty is not read back |
| SearchMeaning.NullFails | src/searchjob.cpp:60-61 | a relation without subterms is sent as nothing, which is no search |
| SearchMeaning.CharsetRead | src/searchjob.cpp:285-296 | a charset is read as it was set, with certain keys, if and only if the criteria start with a space and the rest of them means these keys |
| SearchMeaning.CharsetFails | src/searchjob.cpp:287-289 | with a search by subject the charset is not read as it was set |
| SearchMeaning.CharsetOmitted | src/searchjob.cpp:285-296 | no charset is named when none is set or UTF8=ACCEPT is enabled |
| SearchMeaning.KeywordFails | src/searchjob.cpp:84-98 | a search by keyword is sent with a quoted string, which the grammar refuses |
| SearchMeaning.RawCharacterFails | src/searchjob.cpp:96-98 | a value with NUL, a line break or a single backslash in it is not read back |
| SearchMeaning.DoubledBackslashMeansOther | src/searchjob.cpp:96-98 | a value with two backslashes is read as one with a single one |
| SearchMeaning.EightBitFails | src/searchjob.cpp:96-98 | a value beyond ASCII is read back if and only if UTF8=ACCEPT is enabled |
| SearchMeaning.NegativeSizeFails | src/searchjob.cpp:177-189 | a negative size, which the constructor accepts, is not |
| SearchMeaning.YearFails | src/searchjob.cpp:147-175 | nor a year of three or five digits |
| SearchMeaning.SetFails | src/searchjob.cpp:191-204 | nor an empty set, one with id 0, or one with id 2^32 |
| ImapSets.ImapSet.Optimize | src/imapset.cpp:264-293 | the result stands for the same ids, is not longer, and is sorted with gaps and open at the end only, however ties were sorted; the setters' assertions hold |
| ImapSets.CanonicalUnique | src/imapset.cpp:264-293 | two such lists for the same ids are equal if and only if both or neither have an undefined first begin |
| ImapSets.FromOneSameIds | src/imapset.cpp:264-293 | defining the first begin as 1 changes neither the form nor the ids, so each set has one such list with defined begins |
| ImapSets.OptimizeIdempotent | src/imapset.cpp:264-293 | optimising an optimised list once more leaves it as it is |
| ImapSets.SetsEqualExactly | src/imapset.cpp:168-181 | on optimised lists the comparison holds if and only if both stand for the same ids and both or neither have an undefined first begin |
| ImapSets.UndefinedBegin | src/imapset.cpp:168-181 | it tells apart the optimised lists 0:n and 1:n, and the default interval and 1:*, which stand for the same ids |
| ImapSets.SetsEqualNotSymmetric | src/imapset.cpp:168-181 | with repetitions it is not symmetric |
| ImapSets.ImapSet.Add | src/imapset.cpp:188-209 | one interval is added for each run of consecutive values; with positive values the set may be optimised then |
| ImapSets.RunsDenote | src/imapset.cpp:188-209 | for positive values these stand for exactly the values |
| ImapSets.RunsCanonical | src/imapset.cpp:188-209 | for distinct values the runs are maximal |
| ImapSets.SequenceRoundTrip | src/imapset.cpp:97-143 | the text of any interval that is not empty is read back, decimals included, but for an open end at the largest number |
| ImapSets.ToImapSequenceSet | src/imapset.cpp:216-237 | the loop joins the texts of the intervals with commas |
| ImapSets.FromImapSequenceSet | src/imapset.cpp:239-252 | the loop reads the pieces between commas, without empty ones |
| ImapSets.Malformed | src/imapset.cpp:114-143 | more than two ends, or one that is no number, give the default interval |
| ImapSets.SetRoundTripExactly | src/imapset.cpp:97-252 | a printed list of any intervals is read back if and only if each of them has a text of its own |
| Decimals.NumberRoundTrip | src/imapset.cpp:122-136 | a printed 64-bit number is read back |
| Decimals.SignsRead | src/imapset.cpp:122-136 | a plus sign is read over, and what ends in no digit is no number |
| SessionLog.TagInjective | src/session.cpp:301 | different counters give different tags |
| SessionLog.ResolveRecent | src/session.cpp:301-321 | among the last 65536 commands a tag names one |
| SessionLog.TagMeans | src/session.cpp:235-268 | comparing a tag with the one kept for a kind of command tells whether the reply is to it |
| SessionLog.ReplyPhase | src/session.cpp:234-258 | what a reply does to the state and mailbox that a log leads to: the machine of section 3 of RFC 3501 |
| SessionLog.PendingReply | src/job.cpp:70-73 | a reply takes exactly its command from those that a job waits for |
| Sessions.ReplyFollowed | src/session.cpp:213-268 | state, mailbox and tags after the comparisons are those that the log leads to after the reply |
| Sessions.BlankFirstPart | src/session.cpp:213-258 | when the comparisons with an empty tag leave state and mailbox alone, for every state |
| Sessions.BlankRefusal | src/session.cpp:249-253 | a refusal whose first part is a list takes a session without an awaited SELECT out of its mailbox, though the server said nothing of the kind |
| Sessions.Session.SendCommand | src/session.cpp:299-322 | tag, command and arguments go out; LOGIN and AUTHENTICATE, SELECT and EXAMINE, and CLOSE have their tags kept, and SELECT and EXAMINE their mailbox, and no other command; the command is logged, and the session still follows its log |
| Sessions.Answer | src/session.cpp:235-322 | by the name of the command, what its reply does: LOGIN or AUTHENTICATE accepted authenticates; SELECT or EXAMINE opens its mailbox, or leaves any when refused; CLOSE accepted leaves it; every other command, and every reply in another state, changes neither state nor mailbox |
| Sessions.WireForms | src/session.cpp:301-308 | the first tag is A000001, and what goes out is tag, command and arguments with single spaces; a reply has its tag first and its code second |
| Sessions.Utf8Enabled | src/session.cpp:270-278 | UTF8=ACCEPT is found anywhere among the capabilities that are enabled, in any case of letters, and nowhere else |
| Sessions.Session.AddJob | src/session.cpp:130-141 | the job is the last of the queue, or, on an idle greeted connection, its commands go out at once, in their order |
| Sessions.Session.DoStartNext | src/session.cpp:148-159 | jobs start in the order they were added, at most once, one at a time; a greeted connection with waiting jobs runs one |
| Sessions.Session.DoStart | src/session.cpp:148-159 | the job's commands go out in order with consecutive tags, and it waits for exactly the replies to them; a job without commands is done at once and the next one starts |
| Sessions.Session.JobDone | src/session.cpp:161-172 | a job that reported counts as reported, and the next one starts |
| Sessions.Session.UpdateState | src/session.cpp:234-268 | for any tag the switch over the state gives the next state and mailbox, and these are what the log leads to if and only if there is a tag or its absence changes nothing |
| Sessions.Session.TrackEnabled | src/session.cpp:270-278 | UTF-8 is on from the first response that enables it, in any letter case |
| Sessions.Session.ResponseReceived | src/session.cpp:182-288 | every response keeps state, mailbox and tags those that the log leads to, one whose first part is no text if and only if the comparisons change nothing; the running job reports exactly with the reply to the last of its commands, once, and failed if a reply was not OK |
| Sessions.Session.SocketDisconnected | src/session.cpp:362-382 | a disconnect fails exactly the running or else the first waiting job, destroys the other waiting ones and touches no other job |
| Sessions.Session.ClearJobQueue | src/session.cpp:410-423 | so does clearing the queue |
| Sessions.Session.SocketError | src/session.cpp:389-408 | without a connection it clears the queue, with one it only closes it; the session stays in order exactly when no job waited for the greeting |
| MailboxSelection.NameInUtf8 | src/session.cpp:312-317 | the name cut out of the arguments is the job's if and only if it needs no backslash, with any suffix |
| MailboxSelection.NameInUtf7 | src/session.cpp:312-317 | for every name, also with quotes, the name cut out and decoded is the job's if and only if the codec brings it back, with any suffix |
| MailboxSelection.AfterReply | src/session.cpp:239-256 | the reply to the last SELECT opens its mailbox if it is OK and the session is logged in, and none otherwise; other responses leave it awaited |
| MailboxSelection.SelectJob.Parameters | src/selectjob.cpp:181-194 | the quoted encoded name, then CONDSTORE, or QRESYNC with its numbers and set |
| CommandArguments.SelectNames | src/selectjob.cpp:179-194 | a server that unquotes and decodes the first argument gets the name, with quotes and backslashes too, exactly when the codec brings it back, and then the suffix |
| CommandArguments.Qresync | src/selectjob.cpp:186-194 | the suffix is the word QRESYNC and a list of UID validity, modification sequence and known ids, in this order |
| CommandArguments.Condstore | src/selectjob.cpp:181-186 | it is CONDSTORE alone when neither number is set, and nothing when it is not asked for |
| MailboxSelection.SelectJob.DoStart | src/selectjob.cpp:172-198 | SELECT or EXAMINE goes out with these arguments, and the session will take the mailbox that it reads from them for selected |
| MailboxSelection.SelectJob.HandleResponse | src/selectjob.cpp:312 | after its reply, when the next job may already run, the job failed or its mailbox is selected, if and only if the server refused, or accepted after login a name that comes back, or the name is empty |
| MetaData.EntriesReadBackExactly | src/setmetadatajob.cpp:68-84 | the list parser reads the text of the entries as their keys and values, in order, NIL for an empty one, if and only if the keys and, in one line, the values come back from between quotes as they are |
| MetaData.ToldApart | src/setmetadatajob.cpp:80-143 | as literals, lists of entries are sent alike if and only if the server is to read the same from them |
| MetaData.RemovalOrNil | src/setmetadatajob.cpp:68-83 | a removal and the value NIL are sent alike as literals, and differently in one line |
| MetaData.SetMetaDataJob.DoStart | src/setmetadatajob.cpp:46-94 | the command starts with the whole list, or with the first key and the size of its value |
| CommandArguments.OpeningNames | src/setmetadatajob.cpp:46-57 | a server that unquotes and decodes the first argument gets the mailbox exactly when the codec brings it back; in the older command the entry follows |
| MetaData.OneLine | src/setmetadatajob.cpp:59-79 | what is sent in one line has no line break, if the keys have none |
| MetaData.SimpleExactly | src/setmetadatajob.cpp:55-65 | in the newer command the line is chosen if and only if no value has a line break, in the older one always |
| MetaData.SetMetaDataJob.Continue | src/setmetadatajob.cpp:127-143 | each continuation sends the value that was asked for and announces the next one |
| MetaData.Exchange | src/setmetadatajob.cpp:80-143 | all that is sent in literal mode is one list, from which the library's own parser reads the keys and values, in order, if and only if the keys come back from between quotes as they are |

## Left out

- StreamParser.ImapStreamParser.ReadParenthesizedList: the stream is fully buffered, as are those of the other parsing methods but the literal ones, because several waits of the source happen only once; texts are excluded on which the source reads the last item of an empty list or a literal of negative size.
- StreamParser.ImapStreamParser.ReadLiteralPart: a negative announced size, with which the source moves its position back, is excluded; after an exception nothing is promised about the position.
- StreamParser.ImapStreamParser.HasLiteral: the continuation that a parser in server mode writes.
- ListReading.ListReadBack: a literal in a sublist is part of its text and has no parentheses or quotes, since the source does not look for literals there; between the brackets of a section there are no quoted strings and no literals.
- BodyStructures.ParseBodyStructure: the parameters, the disposition and the description of a part, which the source also keeps; nothing is promised where the source does not end or reads beyond the text.
- BodyStructures.StructureOutcome: groups have no brackets, and no line breaks outside their quoted strings and literals, as in the grammar.
- Sessions.Session.ResponseReceived: the server's replies come fewer than 65536 commands after the command; what the session does after a response without a textual first part that put it out of order; what jobs other than the ones modelled do with untagged responses.
- Sessions.Session.DoStart: a job is a list of commands that it sends at its start; further ones are sent by `SendForJob`. Deletion of the running job by somebody else.
- Sessions.Session.SocketConnected: the timers, TLS and the user name taken from a login job; a lost connection stays lost, whereas setting a proxy reconnects the same session with its mailbox, tags and UTF-8 mode kept.
- MailboxSelection.SelectJob.HandleResponse: what the job stores of untagged responses.
- CommandArguments.Qresync: known ids that have no text, such as the default interval alone, after which a space is left.
- CutOff.ListCut: a text of which only spaces have come, for which the source gives an empty list.
- MetaData.SetMetaDataJob.Continue: what the job makes of its tagged reply, and a continuation after the last entry.
- MetaData.EntriesReadBackExactly: literals have sizes of 31 bits, the width of the parser's number; a line break in a value of the older command, which ends the line too early, is seen by the parser of a list as any other character.
- ListAggregation.ReadResponse: a list of status items of odd length, and ill-formed UTF-8 in names.
- IdleStats.IdleJob.HandleResponse: the signal for changed flags, and the socket timeout.
- ImapSets.ImapSet.Optimize: the library sort is a parameter, any sorted permutation; ends are below the largest 64-bit number, at which adding one overflows.
- ImapSets.SetRoundTripExactly: intervals whose size overflows 64 bits.
- Decimals.NumberRoundTrip: white space around numbers, which the library's conversion skips.
- SearchMeaning.SearchMeansQuery: whether a date exists. Values and header names are octets, taken to be well-formed UTF-8, as the source converts them.
- Login and SASL, ACL bitmasks, quotas, capabilities, and jobs with one command and only setters: easy or dominated by library calls.
- Sockets, threads, TLS, timers as clocks, logging, KMime content, translated texts, and the UTF-16 overloads of the codec.
