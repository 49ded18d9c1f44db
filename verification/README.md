# Models of the SDK's text, list, codec and byte transforms

Dafny models of six parts of the repository, and proofs of what those parts promise.
`dafny verify dfyconfig.toml` checks everything.

* **JSON** (`json/src`). `JsonScan` and `JsonParse` say what the recursive-descent reader computes
  from a document, a position, the value it overwrites and the errors so far; `JsonReader` is the
  reader itself, a class with a cursor, a node stack and an error list, proved to compute exactly
  that. `JsonDoc` and `JsonLayout` say what the writers print, `JsonWriter` holds the writers with
  their buffer of child values and their indentation, proved to print exactly that.
  `JsonRoundTrip` proves that reading undoes printing for every layout of the printed tokens, and
  `JsonPipeline` joins the parts, up to a writer followed by the reader. `JsonGrammar` is the
  language the reader accepts: trees over the tokens of a document, what they mean, and the proof
  that the reader succeeds exactly on them. `JsonReprint` says which trees can be read at all, and
  that reading, printing and reading again gives the same tree. `JsonLines` says what the styled
  text is line by line and which arrays stand on one line, `JsonCharacters` what the characters of
  a document mean, and `JsonErrors` what the reader reports and where it goes on. `JsonNumber`,
  `JsonString` and `Utf8` treat numbers, string literals and Unicode escapes (RFC 8259 sections 4
  to 7, RFC 3629 sections 3 and 4). `JsonValue` is the value tree with its order and its equality,
  `JsonOrder` what it is ordered by, `JsonContainer` the operations that change a container in
  place.
* **ConcurrentSet** (`collections`). `LinkedList` is the doubly linked list on the heap,
  `ConcurrentSet` the table, list and node set over it and its enumerators. Freed nodes are
  overwritten with anything, and the memory of a new node is a parameter, so that it may be
  memory that was freed before. `CursorRuns` proves the cursor guarantee over whole runs of
  insertions, removals and cursor moves.
* **LinkedList_Fix** (`collections`). `LinkedListFix` is the list over positions in one block
  of nodes.
* **ValueInternalMap** (`json/src`). `InternalMap` is the chain of six-item pages.
* **Binary messages** (`stage/stage/model`, `xiyousdk/proto`). `Codec` says what reading and
  writing a flat object of numbers and texts does to a cursor over all of memory; `Texts` holds
  the blocks that the generated classes repeat for each field; `Handshake` has the two handshake
  classes; `LoginCodec` says what reading and writing the nested messages does, and
  `LoginMessages` has their three classes.
* **Byte transforms**. `Crc32` is the hash of `stage/core/Random.h` against the bit-serial
  definition of RFC 1952 section 8, `Rc4` the cipher of `stage/cipher/RC4.cpp`, `Guid` the GUID
  text of `uuid`.

`Common`, `Sequences` and `Text` hold types and lemmas on sequences that the others share.

Things the code does that its documentation does not say, all modelled as they are:

* The separator test of `readArray` (`json/src/json_reader.cpp:566`) asks for two token kinds at
  once and never fires, so that any token but a closing bracket may stand between two elements
  (`JsonGrammar.ColonBetweenElements` has an input, `JsonRoundTrip.ReadsLooseArray` the case for
  all arrays).
* An object may end behind a comma exactly when its last member name is empty
  (`JsonGrammar.TrailingComma`, with the input of `JsonGrammar.CommaBehindEmptyName`), and any
  token may end a member that a comment follows (`JsonGrammar.ColonBehindComment`; the case for all
  documents is `JsonGrammar.ParsesExactlyTrees`). A strict reader accepts `null` as a root
  (`JsonGrammar.StrictReaderAcceptsNull`).
* `decodeNumber` compares with a tenth of the limit before it takes each digit in, so that
  integers from -2147483648 to -2147483640 and from 4294967290 on become reals
  (`JsonNumber.DecodeIntegerExactly`).
* A removed entry's cursor comes to life again when the allocator hands its memory out for a new
  value, and only then (`CursorRuns.RevivedExactlyByReuse`, with the run of
  `CursorRuns.ReuseMisleadsCursor`).
* `GenericResponse::Deserialize` does not look at the result of its tag
  (`LoginCodec.TruncatedTagIsAccepted`). A response of which enough is counted for its own part is
  reported as read, and is read as a whole exactly when the count is as much as it needs
  (`LoginCodec.ResponseReadsBack`).
* The mark of a null nested object is not counted, so that a message needs less count than it has
  bytes (`LoginCodec.LoginNeedBytes`) and may be read past the count
  (`LoginCodec.NullsOverrun`). A message is read past the count exactly when the count lies between
  what it needs and its bytes (`LoginCodec.LoginOverrun`); no read ends more than 65534 bytes
  behind (`LoginCodec.ResponseReach`), and none depends on bytes that the cursor does not pass
  (`LoginCodec.ResponseReadsPassed`).
* `rc4_crypt` never moves its low index from 0.

## Model

| member | source | states |
|---|---|---|
| JsonPipeline.CompactTextParses | json/src/json_writer.cpp:199-265 | whatever tree is written compactly, with `:` or `: `, the reader reads it back as its canonical form (numbers as their text decodes, every array slot filled); it reports success unless it is strict and the root is a scalar |
| JsonPipeline.StyledTextParses | json/src/json_writer.cpp:278-482 | the styled texts, for every white space indentation, read back as the same canonical form |
| JsonPipeline.SpelledTextParses | json/src/json_reader.cpp:150-191 | a document that begins with any text that spells the printed tokens of a tree, with any white space between them, and goes on with anything that does not continue a number, parses to the canonical form |
| JsonPipeline.LooseArrayParses | json/src/json_reader.cpp:538-578 | an array document whose elements are parted by any tokens but closing brackets, in place of commas, parses to the same array |
| JsonPipeline.CanonIsIdentity | json/src/json_reader.cpp:581-616 | reading back what was printed is the identity exactly on the trees whose arrays are dense, whose signed integers are at least -2147483639, whose unsigned ones lie above maxInt and at most at 4294967289, and whose reals the C library rereads |
| JsonPipeline.CompactRoundTrip | json/src/json_writer.cpp:199-265 | writing and then parsing succeeds, and the result is `==` to the tree exactly when the tree is canonical |
| JsonPipeline.StyledRoundTrip | json/src/json_writer.cpp:545-763 | parsing what StyledWriter and what StyledStreamWriter print gives the same tree, the one the compact text gives |
| JsonReprint.ParseIsValid | json/src/json_reader.cpp:150-191 | a document that is read with success gives a tree that the writers take: sorted maps of C strings, machine integers, and moreover arrays without gaps and integers within what decodeNumber yields |
| JsonReprint.ReadPrintRead | json/src/json_reader.cpp:150-191 | reading a document, printing the tree compactly or styled, and reading that text gives the same tree, if the reals of the tree do |
| JsonReprint.ReadsExactlyParsed | json/src/json_reader.cpp:150-191 | the trees that some document is read as are exactly those without gaps and within the decoder's ranges (among the trees whose reals reread) |
| JsonReprint.ParsedExactlyCanonical | json/src/json_reader.cpp:581-616 | these are exactly the valid trees that printing and reading leaves as they are |
| JsonReprint.ReadWriteRead | json/src/json_writer.cpp:199-206 | Reader, FastWriter and Reader one after the other: the second tree is the first |
| JsonReprint.MeaningIsParsed | json/src/json_reader.cpp:194-242 | whatever tree of the grammar a document holds, its meaning lies within those ranges |
| JsonRoundTrip.ReadsBack | json/src/json_reader.cpp:194-242 | readValue over the token sequence of a tree, wherever it stands and whatever value is overwritten, succeeds, ends where the last token ends and builds the canonical tree |
| JsonRoundTrip.ReadsObject | json/src/json_reader.cpp:480-535 | the member loop of readObject consumes a printed object up to its brace |
| JsonRoundTrip.ReadsArray | json/src/json_reader.cpp:538-578 | the element loop of readArray consumes a printed array up to its bracket, although its separator test never fires |
| JsonRoundTrip.ReadsItems | json/src/json_reader.cpp:550-576 | the element loop takes any token but a closing bracket between two printed elements, and builds the array that commas would give |
| JsonRoundTrip.ReadsLooseArray | json/src/json_reader.cpp:566-575 | an array is read as the same array whatever tokens stand between its elements: the separator test never fires |
| JsonGrammar.ParsesExactlyTrees | json/src/json_reader.cpp:150-191 | parse reports success exactly when some tree of the accepted grammar stands at the start of the document, with an array or an object at its root when the reader is strict; the root is what that tree means |
| JsonGrammar.ParseIsSound | json/src/json_reader.cpp:150-191 | a successful parse comes with a tree: the document begins with its tokens, one behind the other with white space and comments between them, and the result is its meaning |
| JsonGrammar.ReadsExactlyTrees | json/src/json_reader.cpp:194-242 | readValue succeeds at a position exactly when a tree stands there; it ends where the tree ends, adds no error and builds the meaning of the tree whatever value it overwrites, so that a position has one meaning at most |
| JsonGrammar.ReadsTree | json/src/json_reader.cpp:194-242 | every tree that stands in the document is read, however it is nested |
| JsonGrammar.ReadsElements | json/src/json_reader.cpp:538-578 | the element loop over trees: the k-th element takes slot k, whatever parts the elements |
| JsonGrammar.ReadsMembers | json/src/json_reader.cpp:480-535 | the member loop over trees: members are bound one after the other |
| JsonGrammar.TreeRead | json/src/json_reader.cpp:194-242 | a successful readValue leaves a tree, found through the recursion of the reader |
| JsonGrammar.TreeIsLaid | json/src/json_reader.cpp:194-242 | the tokens of a tree stand in the document in their order, with nothing but white space and comments before each, up to where the tree ends |
| JsonGrammar.LastMemberWins | json/src/json_reader.cpp:508-511 | of members with the same name the last one gives the value |
| JsonGrammar.TrailingComma | json/src/json_reader.cpp:492-495 | an object that closes behind a comma is accepted exactly when its last name is empty |
| JsonGrammar.ColonBetweenElements | json/src/json_reader.cpp:566-575 | the input for the missing separator test: `[{}:{}]` parses to an array of two elements |
| JsonGrammar.CommaBehindEmptyName | json/src/json_reader.cpp:492-493 | the input for the comma: `{"":1,}` parses to an object of one member |
| JsonGrammar.ColonBehindComment | json/src/json_reader.cpp:516-528 | the input for a member that a comment follows: in `{"a":1/**/:"b":2}` a colon stands for the comma |
| JsonGrammar.StrictReaderAcceptsNull | json/src/json_reader.cpp:177-189 | the input for strict readers: `null` parses with success |
| JsonParse.Parse | json/src/json_reader.cpp:150-191 | success means exactly that no error is recorded; at most one error is recorded, two in strict mode, over all recovery paths; the cursor stays in the document |
| JsonParse.ReadValue | json/src/json_reader.cpp:194-242 | a value consumes at least one character; success adds no error, failure exactly one, and earlier errors stay |
| JsonParse.ReadMembers | json/src/json_reader.cpp:480-535 | the same for the member loop, through every recovery to the closing brace |
| JsonParse.ReadElements | json/src/json_reader.cpp:538-578 | the same for the element loop, with recovery to the closing bracket |
| JsonParse.ReadMember | json/src/json_reader.cpp:497-513 | one member: name, colon and value, or one error and a skip to the brace |
| JsonParse.AfterMember | json/src/json_reader.cpp:515-530 | what follows a member: a comma goes on, a brace ends the object, a comment is passed, anything else is one error |
| JsonReader.Reader.Parse | json/src/json_reader.cpp:150-191 | the imperative reader computes the function Parse and leaves exactly the root on the node stack |
| JsonReader.Reader.ReadValue | json/src/json_reader.cpp:194-242 | readValue moves the cursor, replaces the top of the node stack and adds errors as the function ReadValue says; the stack below, and its height, are restored |
| JsonReader.Reader.ReadObject | json/src/json_reader.cpp:480-535 | the object loop against its function, with termination by the distance to the end |
| JsonReader.Reader.ReadArray | json/src/json_reader.cpp:538-578 | the array loop against its function |
| JsonReader.Reader.ReadMember | json/src/json_reader.cpp:497-513 | the part of the object loop from a name to the end of its value, stack height restored |
| JsonReader.Reader.ReadToken | json/src/json_reader.cpp:273-345 | the token read, and a cursor at its end, inside the document |
| JsonReader.Reader.PassComments | json/src/json_reader.cpp:488-489 | the first token that is no comment |
| JsonReader.Reader.SkipCommentTokens | json/src/json_reader.cpp:245-260 | comments are passed only when they are allowed |
| JsonReader.Reader.ReadString | json/src/json_reader.cpp:463-476 | stops behind the first quote that no backslash precedes, or at the end |
| JsonReader.Reader.ReadNumber | json/src/json_reader.cpp:451-460 | stops at the first character that cannot be part of a number |
| JsonReader.Reader.ReadComment | json/src/json_reader.cpp:377-402 | recognises both kinds of comments and stops behind them |
| JsonReader.Reader.Match | json/src/json_reader.cpp:362-373 | succeeds exactly when the pattern stands at the cursor, and only then moves |
| JsonReader.Reader.RecoverFromError | json/src/json_reader.cpp:773-787 | drops tokens up to the wanted one or the end, and every error recorded meanwhile |
| JsonReader.Reader.AddErrorAndRecover | json/src/json_reader.cpp:790-797 | adds exactly one error and recovers |
| JsonReader.Reader.AccumulateDigits | json/src/json_reader.cpp:596-608 | the digit loop in 32 bit arithmetic: no operation wraps, the answer is that over unbounded integers |
| JsonReader.Reader.DecodeNumber | json/src/json_reader.cpp:581-616 | stores the decoded number or adds one error; what is decoded for every text is JsonNumber.DecodesExactly |
| JsonReader.Reader.InspectNumber | json/src/json_reader.cpp:583-590 | the loop that looks for the signs of a real answers for the whole token; which tokens have them is JsonNumber.RealsAreScanned |
| JsonReader.Reader.DecodeStringTo | json/src/json_reader.cpp:657-700 | the decoded text, or one error with its location |
| JsonReader.Reader.DecodeUnicodeCodePoint | json/src/json_reader.cpp:703-730 | a unit or a surrogate pair, in 32 bit arithmetic, or one error |
| JsonReader.Reader.DecodeUnicodeEscapeSequence | json/src/json_reader.cpp:733-756 | four hexadecimal digits as a number, or one error |
| JsonScan.TokenAt | json/src/json_reader.cpp:273-345 | every token starts where it is looked for, ends in the document and is not empty before the end; a string token holds both its quotes |
| JsonScan.Recover | json/src/json_reader.cpp:773-787 | recovery ends in the document and goes forward only |
| JsonNumber.UIntToString | json/src/json_writer.cpp:30-40 | fills at most eleven places of the buffer backwards with the shortest decimal text and a terminator, and no other place |
| JsonNumber.ValueToString | json/src/json_writer.cpp:42-64 | the decimal text of every 32-bit number, signed or unsigned |
| JsonNumber.DigitsDenote | json/src/json_writer.cpp:30-40 | the printed digits denote the number and have no leading zero |
| JsonNumber.AccumulateExact | json/src/json_reader.cpp:596-608 | over any digit string the threshold test answers with the mathematical value exactly when that value is below ten times the threshold |
| JsonNumber.DecodeIntegerExactly | json/src/json_reader.cpp:581-616 | every optionally signed digit string decodes to its mathematical value as Int or UInt exactly when that lies in [-2147483639, 4294967289]; every other one goes to decodeDouble |
| JsonNumber.DecodeInvertsPrint | json/src/json_reader.cpp:581-616 | decodeNumber inverts valueToString exactly on [-2147483639, 4294967289] |
| JsonNumber.RealsAreScanned | json/src/json_reader.cpp:581-616 | a text over the characters of numbers that is not an optional minus and digits goes to the C library, whatever its digits: the result is what it scans, or an error exactly when it scans nothing |
| JsonNumber.DecodesExactly | json/src/json_reader.cpp:581-616 | what every text over `0123456789.eE+-` decodes to: plain integers from -2147483639 to 4294967289 to themselves, everything else to what the C library scans |
| JsonRoundTrip.NumberTextDecodes | json/src/json_reader.cpp:581-616 | the texts that the round trips ask for, stated by their characters and by `scan`, decode to that integer or that real |
| JsonString.ValueToQuotedString | json/src/json_writer.cpp:111-174 | both paths of the writer, copying and escaping, print the same quoted text |
| JsonString.QuotedRoundTrip | json/src/json_reader.cpp:463-476 | a quoted string anywhere in a document is one token that ends at the writer's own closing quote, and decodes to the string, for all bytes |
| JsonString.StopsAtClosingQuote | json/src/json_reader.cpp:463-476 | readString never stops at a quote inside escaped text |
| JsonString.DecodesEscaped | json/src/json_reader.cpp:657-700 | decodeString inverts escaping, control characters and bytes of 0x80 and above included |
| JsonString.DecodesScalar | json/src/json_reader.cpp:703-756 | every Unicode scalar value, written as one escape or as a surrogate pair in hexadecimal of either case (RFC 8259 section 7), decodes to a well-formed UTF-8 sequence that carries it |
| JsonCharacters.EscapeMeans | json/src/json_reader.cpp:657-700 | the character each two-character escape stands for, the slash included, and the error for any other |
| JsonCharacters.UnicodeEscapeMeans | json/src/json_reader.cpp:703-756 | a unicode escape is the number of its digits; a high surrogate takes the ten low bits of whatever escape follows, or is one of two errors with its place |
| JsonCharacters.FourDigits | json/src/json_reader.cpp:733-756 | four hexadecimal digits as a number, or the error with the place of the first that is none |
| JsonCharacters.EscapeIs | json/src/json_writer.cpp:111-174 | how each character is written, control characters with upper-case digits |
| JsonCharacters.SpacesArePassed | json/src/json_reader.cpp:348-359 | space, tab, carriage return and line feed before a token do not matter |
| JsonCharacters.LineComment | json/src/json_reader.cpp:377-430 | a comment from two slashes ends behind the next line feed or carriage return |
| JsonCharacters.BlockComment | json/src/json_reader.cpp:377-430 | a comment from slash and star ends behind the first star and slash, and is an error without them |
| JsonCharacters.CommentBeforeValue | json/src/json_reader.cpp:245-260 | a comment before a value is passed if comments are allowed, and otherwise the error |
| JsonCharacters.WordTokens | json/src/json_reader.cpp:273-345 | the tokens of true, false and null |
| JsonCharacters.OtherTokens | json/src/json_reader.cpp:273-345 | a terminator inside the document ends it; a character that starts no token is an error of one character |
| JsonCharacters.OpenString | json/src/json_reader.cpp:463-476 | a string without a closing quote is an error up to the end |
| JsonErrors.NoValue | json/src/json_reader.cpp:194-242 | a token that starts no value: the message, its token, and the value that stays |
| JsonErrors.NoNumber | json/src/json_reader.cpp:619-650 | the message for a number that is not one |
| JsonErrors.NoName | json/src/json_reader.cpp:492-534 | the message where a member name is missing, and recovery to the brace |
| JsonErrors.NoColon | json/src/json_reader.cpp:501-507 | the message where the colon is missing, at the token found there |
| JsonErrors.NoComma | json/src/json_reader.cpp:515-524 | the message where comma and brace are missing |
| JsonErrors.BadName | json/src/json_reader.cpp:497-499 | a member name that cannot be decoded: its error and recovery to the brace |
| JsonErrors.BadMember | json/src/json_reader.cpp:508-513 | a member whose value fails keeps what was read of it; recovery goes on to the brace behind it |
| JsonErrors.BadElement | json/src/json_reader.cpp:550-557 | an element that fails keeps what was read of it; recovery goes on to the bracket |
| JsonErrors.NoStrictRoot | json/src/json_reader.cpp:177-189 | the message of a strict reader, over the whole document, behind the error of the value if there is one |
| JsonErrors.RecoveryDrops | json/src/json_reader.cpp:773-787 | recovery drops consecutive tokens up to the first of the kind wanted or the end, and stops behind it |
| Utf8.EncodesWellFormed | json/src/json_reader.cpp:69-103 | codePointToUTF8 of a scalar value is a well-formed sequence (RFC 3629 section 4) whose number is that value |
| Utf8.EncodingIsUnique | json/src/json_reader.cpp:69-103 | no other well-formed sequence carries the value, and none a surrogate |
| JsonCharacters.Utf8Examples | json/src/json_reader.cpp:69-103 | the bytes of four characters, of one to four bytes |
| JsonValue.Trichotomy | json/src/json_value.cpp:564-605 | of a < b, a == b and b < a exactly one holds, on all trees without NaN; which one is JsonOrder.LessIsBefore |
| JsonValue.Transitive | json/src/json_value.cpp:564-605 | operator< is transitive on all such trees |
| JsonOrder.LessIsBefore | json/src/json_value.cpp:564-605 | operator< is the order by type, number, first difference of strings, size, and first entry that differs, by its key and then by its value |
| JsonOrder.LessOnScalars | json/src/json_value.cpp:564-605 | numbers and bools by value, strings by the first position where they differ or one ends |
| JsonOrder.LessOnTypes | json/src/json_value.cpp:564-605 | null, int, uint, real, string, bool, array, object, in this order |
| JsonOrder.LessOnContainers | json/src/json_value.cpp:564-605 | containers by size; at equal size the first entry that differs decides, by the smaller key or by the smaller value at the same key |
| JsonOrder.KeyLessDecides | json/src/json_value.cpp:217-231 | keys by index, or by the first difference of the names |
| JsonValue.EqualIsIdentity | json/src/json_value.cpp:626-668 | operator== holds exactly between equal trees |
| JsonValue.KeyTrichotomy | json/src/json_value.cpp:217-231 | CZString comparison is a strict total order consistent with its equality |
| JsonValue.PutIsMapUpdate | json/src/json_value.cpp:974-992 | binding a key keeps the container sorted, adds or replaces that entry and no other |
| JsonValue.LookupAfterPut | json/src/json_value.cpp:995-1011 | after binding a key every lookup finds what a finite map would |
| JsonContainer.PutAtLowerBound | json/src/json_value.cpp:1021-1042 | replacing or inserting at lower_bound is the sorted-map update |
| JsonContainer.PutValid | json/src/json_value.cpp:974-992 | binding a key keeps a container well-formed |
| JsonContainer.AppendGrows | json/src/json_value.cpp:1117-1121 | append adds one slot behind the last, holding the value, and leaves every slot as it was |
| JsonContainer.Container.Reference | json/src/json_value.cpp:1021-1042 | operator[] makes null a container, adds a missing key bound to null and nothing else, and points at the key |
| JsonContainer.Container.Assign | json/src/json_value.cpp:974-992 | assigning through operator[] is the map update |
| JsonContainer.Container.Append | json/src/json_value.cpp:1117-1121 | append is assignment behind the last slot |
| JsonContainer.Container.GetMemberNames | json/src/json_value.cpp:1204-1226 | all member names, in strictly ascending order |
| JsonWriter.FastWriter.Write | json/src/json_writer.cpp:199-206 | the compact text of every tree, and a line feed |
| JsonWriter.FastWriter.WriteArray | json/src/json_writer.cpp:232-244 | the elements of an array, missing ones as null |
| JsonWriter.FastWriter.WriteObject | json/src/json_writer.cpp:245-263 | the members of an object in order |
| JsonWriter.StyledWriter.Write | json/src/json_writer.cpp:278-289 | the styled text of every tree (JsonLines.DocumentLines has its lines); the indentation ends as it began, and no assertion on the buffer or the indentation fails on the way |
| JsonWriter.StyledWriter.WriteValue | json/src/json_writer.cpp:292-350 | the document grows by exactly the styled text of the value, or the buffer by exactly one piece |
| JsonWriter.StyledWriter.WriteArrayValue | json/src/json_writer.cpp:353-403 | an array in a row or on lines of its own, although nested calls overwrite the buffer |
| JsonWriter.StyledWriter.WriteItems | json/src/json_writer.cpp:364-388 | the lines of an array, from the buffer or by recursion |
| JsonWriter.StyledWriter.WriteItem | json/src/json_writer.cpp:373-382 | one element on a line of its own, from the buffer or by recursion |
| JsonWriter.StyledWriter.WriteRow | json/src/json_writer.cpp:392-400 | the row of an array from a buffer that holds one text for each element |
| JsonWriter.StyledWriter.IsMultilineArray | json/src/json_writer.cpp:406-434 | whether an array takes several lines (JsonLines.ArrayOnOneLine says when); when it does not, the buffer holds its elements |
| JsonWriter.StyledWriter.BufferElements | json/src/json_writer.cpp:419-432 | the buffer is filled with one text for each element, and the line length is theirs |
| JsonWriter.StyledWriter.HasFilledContainer | json/src/json_writer.cpp:412-418 | whether some element is a container that is not empty |
| JsonWriter.StyledWriter.WriteMembers | json/src/json_writer.cpp:325-346 | the members of an object, each on a line of its own |
| JsonWriter.StyledWriter.WriteIndent | json/src/json_writer.cpp:447-459 | when a line is broken and when not, in both styled writers |
| JsonWriter.StyledWriter.ForStream | json/src/json_writer.cpp:545-551 | the stream writer starts with the indentation it is given |
| JsonLines.ArrayOnOneLine | json/src/json_writer.cpp:406-434 | an array with elements is printed without a line break exactly when each element is a scalar or an empty container, there are fewer than 25 of them, and `[ `, the elements joined by `, ` and ` ]` take fewer than 74 characters |
| JsonLines.OneLineExactly | json/src/json_writer.cpp:406-434 | the same for printed trees |
| JsonLines.DocumentLines | json/src/json_writer.cpp:278-482 | the document of a styled writer is its lines, each beginning with the indentation unit once for every container around it: elements and members one level deeper than their brackets, a comma behind all but the last, ` : ` behind a name |
| JsonLines.StyledLines | json/src/json_writer.cpp:568-763 | the same for every part of a document, at any depth, for both styled writers |
| JsonLines.OnePiece | json/src/json_writer.cpp:292-326 | a scalar is printed as its text, an empty container as its two brackets |
| JsonLines.FastIsTokens | json/src/json_writer.cpp:209-265 | the compact text is the tokens of the tree with nothing between them |
| JsonLayout.FastSpelled | json/src/json_writer.cpp:209-265 | the compact text spells the token sequence of the tree, wherever it stands |
| JsonLayout.StyledSpelled | json/src/json_writer.cpp:568-763 | so does the styled text: it differs in white space between tokens only |
| JsonLayout.StyledEndsSolid | json/src/json_writer.cpp:462-467 | styled text begins and ends with a token, which is why writeIndent breaks the line |
| CursorRuns.VisitsInInsertionOrder | collections/ConcurrentSet.h:107-136 | in every run of insertions, removals, clears, MoveNext, operator-- and resets, also under the cursor: the entries visited, but for those stepped back over, are in the order of insertion without a repetition, and the set keeps that order without a repeated value or address |
| CursorRuns.EverythingPresentVisitedOnce | collections/ConcurrentSet.h:107-136 | if nothing removes the entry under the cursor and the cursor does not start from the back, then when MoveNext runs off the end the visited entries still in the set are exactly the set in its order, each once; steps back in between do not matter |
| CursorRuns.RemovedEntryEndsIteration | collections/ConcurrentSet.h:87-136 | once the entry under the cursor is removed, MoveNext and operator-- lead nowhere, GetCurrent is null and nothing more is visited, for every run in which no step inserts a missing value into the memory at the cursor's address; inserting a value that is there, anywhere, does not matter |
| CursorRuns.CursorAfterRemoval | collections/ConcurrentSet.h:87-136 | after the entry under the cursor is removed and others change the set in any way, GetCurrent returns a value exactly when some insertion put a missing value into the memory at the cursor's address and that value was not taken out since; that entry is newer than the removal and was never visited; MoveNext returns false when GetCurrent is null, and otherwise exactly at the last entry |
| CursorRuns.RevivedExactlyByReuse | collections/ConcurrentSet.h:479-498 | over whole runs: after the entry under the cursor is removed, GetCurrent is not null at some point of a run exactly when some step of the run inserts a missing value into the memory at the cursor's address |
| CursorRuns.StrandedStep | collections/ConcurrentSet.h:87-136 | for one step of any kind but Reset: such a cursor stays without an entry, and nothing is visited, unless the step reuses its address |
| CursorRuns.LiveAfterRun | collections/ConcurrentSet.h:286-336 | after any changes by others an address is in use exactly when its entry was kept throughout or some insertion occupied it and its value was not taken out since |
| CursorRuns.ReuseMisleadsCursor | collections/ConcurrentSet.h:479-498 | a run in which that happens: the cursor then stands on a value it never moved to |
| CursorRuns.RefinesSet | collections/ConcurrentSet.h:286-334 | Insert and Remove act on the values as on a mathematical set |
| CursorRuns.CountIsCardinality | collections/ConcurrentSet.h:278-281 | the number of list nodes is the number of members |
| CursorRuns.BackwardUndoesForward | collections/ConcurrentSet.h:208-240 | operator-- undoes MoveNext |
| CursorRuns.MoveSound | collections/ConcurrentSet.h:107-136 | MoveNext goes to the first entry or to the one behind, and records it |
| CursorRuns.BackSound | collections/ConcurrentSet.h:208-240 | operator-- goes to the last entry or to the one before, and takes the entries stepped over off the trail |
| CursorRuns.MovesCount | collections/ConcurrentSet.h:107-240 | any number of moves to and fro on an unchanged set: the cursor stands on an entry exactly when no move has led off either end, and then on the one that counting the moves gives |
| ConcurrentSets.ConcurrentSet.Insert | collections/ConcurrentSet.h:286-315 | list, table and node set stay in agreement; the value is added at the end, unless it is there or memory is missing |
| ConcurrentSets.ConcurrentSet.Remove | collections/ConcurrentSet.h:316-334 | list, table and node set stay in agreement; exactly the entry of the value goes, and its freed node is not needed again |
| ConcurrentSets.ConcurrentSet.Clear | collections/ConcurrentSet.h:335-349 | every node is freed after its successor was read; an empty, agreeing set is left |
| ConcurrentSets.ConcurrentSet.GetCount | collections/ConcurrentSet.h:278-281 | the count is the number of entries and of distinct members |
| ConcurrentSets.ConcurrentSet.ContainsKey | collections/ConcurrentSet.h:282-285 | the table answers for the entries |
| ConcurrentSets.ConcurrentSet.GetFirst | collections/ConcurrentSet.h:352-361 | the oldest entry, or null |
| ConcurrentSets.ConcurrentSet.GetLast | collections/ConcurrentSet.h:362-371 | the youngest entry, or null |
| ConcurrentSets.ConcurrentSet.IsAvailableEntry | collections/ConcurrentSet.h:479-498 | whether an address is that of an entry, without reading the node |
| ConcurrentSets.ConcurrentSet.Neighbours | collections/ConcurrentSet.h:107-136 | the links of a live node lead to its neighbours in insertion order |
| ConcurrentSets.InsertIndexed | collections/ConcurrentSet.h:286-315 | table and node set still describe the entries after an insertion |
| ConcurrentSets.RemoveIndexed | collections/ConcurrentSet.h:316-334 | and after a removal |
| ConcurrentSets.Enumerator.MoveNext | collections/ConcurrentSet.h:107-136 | the cursor moves as the run model says; a node is followed only while it is in the set |
| ConcurrentSets.Enumerator.GetCurrent | collections/ConcurrentSet.h:87-106 | the value of a live entry, else null and a dropped cursor |
| ConcurrentSets.Enumerator.MoveBack | collections/ConcurrentSet.h:208-240 | operator-- as the run model says |
| LinkedLists.LinkedList.AddFirst | collections/linkedlist.h:35-61 | puts the node in front; links mirror each other, ends and count are right |
| LinkedLists.LinkedList.AddLast | collections/linkedlist.h:62-86 | puts the node behind |
| LinkedLists.LinkedList.AddAfter | collections/linkedlist.h:87-111 | puts the node behind a node of the list |
| LinkedLists.LinkedList.RemoveFirst | collections/linkedlist.h:138-163 | takes the first node off and detaches it |
| LinkedLists.LinkedList.RemoveLast | collections/linkedlist.h:164-189 | takes the last node off and detaches it |
| LinkedLists.LinkedList.Remove | collections/linkedlist.h:190-219 | takes exactly the given node out and detaches it |
| LinkedLists.LinkedList.Find | collections/linkedlist.h:220-232 | the first node with the value, null when no node has it |
| LinkedLists.LinkedList.Clear | collections/linkedlist.h:233-250 | detaches every node and leaves an empty list |
| LinkedListsFix.LinkedListFix.Initialize | collections/linkedlist_fix.h:88-92 | an empty list of the given capacity |
| LinkedListsFix.LinkedListFix.AddFirst | collections/linkedlist_fix.h:107-133 | puts the position in front, or refuses one outside the capacity; links mirror each other, no values change |
| LinkedListsFix.LinkedListFix.AddLast | collections/linkedlist_fix.h:134-158 | puts the position behind |
| LinkedListsFix.LinkedListFix.AddAfter | collections/linkedlist_fix.h:160-187 | puts the position behind a position of the chain |
| LinkedListsFix.LinkedListFix.AddBefore | collections/linkedlist_fix.h:188-216 | puts the position before a position of the chain, also at the front |
| LinkedListsFix.LinkedListFix.RemoveFirst | collections/linkedlist_fix.h:217-246 | takes the first position off and returns it |
| LinkedListsFix.LinkedListFix.RemoveLast | collections/linkedlist_fix.h:247-275 | takes the last position off and returns it |
| LinkedListsFix.LinkedListFix.Remove | collections/linkedlist_fix.h:276-307 | takes exactly the given position out |
| LinkedListsFix.LinkedListFix.GetNode | collections/linkedlist_fix.h:54-65 | a node exactly for the positions within the capacity |
| LinkedListsFix.LinkedListFix.GetPosition | collections/linkedlist_fix.h:66-85 | GetPosition is the inverse of GetNode |
| LinkedListsFix.LinkedAfterInsert | collections/linkedlist_fix.h:160-187 | four written links turn a chain into the chain with one position more, for every chain and place |
| LinkedListsFix.LinkedAfterRemove | collections/linkedlist_fix.h:276-307 | two written links turn a chain into the chain with one position less |
| LinkedListsFix.WalksMirror | collections/linkedlist_fix.h:19-34 | following the links forward from the first node and backward from the last walks the whole chain and ends |
| LinkedListsFix.AddAndRemove | collections/linkedlist_fix.h:107-307 | adding a position behind a node and removing it again leaves the chain and every value as they were, and the list well-formed |
| InternalMaps.ValueInternalMap.Find | json/src/json_internalmap.inl:271-292 | for every key the answer of the finite map, value included |
| InternalMaps.ValueInternalMap.ResolveReference | json/src/json_internalmap.inl:303-329 | a missing key is added behind all others, bound to null; the place returned is that of the key; pages stay full but the last |
| InternalMaps.ValueInternalMap.Scan | json/src/json_internalmap.inl:308-325 | the first place that is free or holds the key, over all pages |
| InternalMaps.ValueInternalMap.UnsafeAdd | json/src/json_internalmap.inl:427-451 | a key that is not there goes behind the last item, on a new page when the tail is full |
| InternalMaps.ValueInternalMap.SetNewItem | json/src/json_internalmap.inl:412-424 | the first free place is taken, the count goes up, other pages do not change |
| InternalMaps.ValueInternalMap.AddPage | json/src/json_internalmap.inl:442-449 | the new page is chained behind the full tail and becomes the tail |
| InternalMaps.ValueInternalMap.GetLastLinkInBucket | json/src/json_internalmap.inl:400-409 | the tail page |
| InternalMaps.ValueInternalMap.Reserve | json/src/json_internalmap.inl:258-268 | a bucket is there afterwards, the items are the same |
| InternalMaps.ValueInternalMap.PagesNeeded | json/src/json_internalmap.inl:425-451 | a page holds six items; there are as many pages as the items need |
| InternalMaps.ValueInternalMap.Size | json/src/json_internalmap.inl:246-250 | the count is the number of keys of the finite map |
| InternalMaps.ValueInternalMap.Assign | json/src/json_internalmap.inl:181-188 | assigning through the reference is finite-map update |
| InternalMaps.PlaceIsLookup | json/src/json_internalmap.inl:271-292 | the chain of pages with distinct keys and a finite map answer alike |
| InternalMaps.ResolvedContents | json/src/json_internalmap.inl:303-329 | resolving a key adds it bound to null when it is missing, and changes nothing else |
| InternalMaps.StoredContents | json/src/json_internalmap.inl:181-188 | storing at the place of a key updates the finite map at that key only |
| InternalMaps.Hash | json/src/json_internalmap.inl:454-461 | the loop in 32 bits yields 37 times the sum of the signed bytes, wrapped once |
| InternalMaps.SignedByteIs | json/src/json_internalmap.inl:454-461 | a char counts as a signed byte |
| Codec.ObjectReadsBack | stage/stage/model/AuthenticationAAA.h:97-135 | Deserialize inverts Serialize for every object of numbers and texts, whatever follows it in memory and whatever the object held, exactly when the count covers the object's bytes; with less it fails |
| Codec.ObjectSpells | stage/stage/model/AuthenticationAAA.h:97-135 | a successful Deserialize consumed exactly the bytes that Serialize would write, and lowered the count by as many; a failure behind a zero mark leaves the count negative |
| Codec.ObjectGap | stage/stage/model/AuthenticationAAA.h:97-125 | on any bytes: the cursor never passes more bytes than the count lost, exactly as many on success and fewer when a field fails |
| Codec.ObjectIgnoresOld | stage/stage/model/AuthenticationAAA.h:97-125 | success, cursor and the object read do not depend on what the object held |
| Codec.ObjectReadsInside | stage/stage/model/AuthenticationAAA.h:97-125 | bytes beyond the count make no difference: they are not read |
| Codec.ObjectReadsPassed | stage/stage/model/AuthenticationAAA.h:97-125 | nor do any bytes but those that the cursor passes, also when reading fails |
| Codec.ObjectReach | stage/stage/model/AuthenticationAAA.h:97-125 | the cursor stays within the count, whether reading succeeds or fails; after success the count left is what is left up to its end |
| Codec.ObjectIsThere | stage/stage/model/AuthenticationAAA.h:97-125 | behind a zero byte any memory holds an object of given fields, so that the theorem on reading back covers all memories |
| Codec.NumberIsBytes | stage/stage/model/AuthenticationAAA.h:100-102 | little-endian bytes and the number determine each other |
| Codec.TextSpells | stage/stage/model/AuthenticationAAA.h:106-118 | a text in memory is exactly its length and its bytes; 0xffff is null |
| Codec.ReadFieldSpells | stage/stage/model/AuthenticationAAA.h:106-118 | the same accounting for one field |
| Texts.Replace | stage/stage/model/AuthenticationAAA.h:74-88 | after a setter the text is the one given, cut to its length; a length of 0xffff stands for the C string's own, of which 16 bits count; a null pointer with a length leaves that many bytes of any content |
| Texts.ReadText | stage/stage/model/AuthenticationAAA.h:106-118 | the block that each text field repeats, its four outcomes and its cursor |
| Texts.ReadNumber | stage/stage/model/AuthenticationAAA.h:100-102 | a number of the field's width, or failure with the cursor's address where it was and the field as it was |
| Texts.StrLen | stage/stage/model/AuthenticationAAA.h:75 | the first terminator |
| Handshake.AuthenticationAAARequest.SetPlatform | stage/stage/model/AuthenticationAAA.h:74-88 | only the platform changes, to the text given |
| Handshake.AuthenticationAAARequest.Deserialize | stage/stage/model/AuthenticationAAA.h:97-125 | field by field, with every early return, what the reading function says; after success each field is what stands at its place: svrAreaNo in bytes 1 and 2, serverNo in 3 and 4, lowest first, then the platform behind its length, linkType and maxFD |
| Handshake.AuthenticationAAARequest.Serialize | stage/stage/model/AuthenticationAAA.h:126-135 | appends 0, svrAreaNo and serverNo with their low byte first, the platform behind its length, linkType and maxFD |
| Handshake.AuthenticationAAAResponse.SetKey | stage/stage/model/AuthenticationAAA.h:202-216 | only the key changes, to the text given |
| Handshake.AuthenticationAAAResponse.Deserialize | stage/stage/model/AuthenticationAAA.h:225-256 | field by field, with every early return, what the reading function says; after success each field is what stands at its place |
| Handshake.AuthenticationAAAResponse.Serialize | stage/stage/model/AuthenticationAAA.h:257-267 | appends 0, code, subtract, modVt, the key behind its length, four bytes of linkNo and linkType |
| Handshake.RequestWire | stage/stage/model/AuthenticationAAA.h:126-135 | the bytes of a request, from its fields |
| Handshake.ResponseWire | stage/stage/model/AuthenticationAAA.h:257-267 | the bytes of a response, from its fields |
| Texts.TextWire | stage/stage/model/AuthenticationAAA.h:131-133 | a text goes out as its length in 16 bits, 0xffff for null, and its characters |
| Codec.SignedBytes | xiyousdk/proto/model/XiYouGameServer.h:223-226 | the four bytes of a signed number |
| Handshake.Echo | stage/stage/model/AuthenticationAAA.h:97-135 | a request read and written again reproduces the consumed bytes |
| Handshake.Deliver | stage/stage/model/AuthenticationAAA.h:225-267 | a response written, followed by anything, and read into any other response makes the two alike |
| LoginCodec.ResponseReadsBack | xiyousdk/proto/impl/GenericResponse_LoginAccountResponse.h:87-130 | for every response that stands in memory, whatever follows it, whatever marks of null it has and whatever was held before: Deserialize reports success exactly when the count is more than the bytes of the response's own part; the response accounts for its bytes exactly when the count is as much as it needs, and then it is rebuilt, up to the cap on its list, with the cursor behind it and the count lowered by its bytes minus one per null |
| LoginCodec.LoginReadsBack | xiyousdk/proto/response/LoginAccountResponse.h:198-320 | a login that stands in memory is read exactly when the count is as much as it needs, and is then rebuilt in the same way; with less it fails |
| LoginCodec.ListReadsBack | xiyousdk/proto/response/LoginAccountResponse.h:261-281 | the same for the list: its length, null, or the first 65534 elements |
| LoginCodec.ItemsReadBack | xiyousdk/proto/response/LoginAccountResponse.h:268-277 | the same for the elements from any one on |
| LoginCodec.ServerReadsBack | xiyousdk/proto/response/LoginAccountResponse.h:249-260 | the same for a nested server or its mark of null |
| LoginCodec.LoginIsThere | xiyousdk/proto/response/LoginAccountResponse.h:198-282 | behind a zero byte any memory holds a login, so that the condition on the count decides for all memories |
| LoginCodec.ResponseIsThere | xiyousdk/proto/impl/GenericResponse_LoginAccountResponse.h:87-118 | the same for a response |
| LoginCodec.ResponsePlaced | xiyousdk/proto/impl/GenericResponse_LoginAccountResponse.h:119-130 | what Serialize wrote stands in memory |
| LoginCodec.ItemsNeedBytes | xiyousdk/proto/response/LoginAccountResponse.h:268-277 | the count that a list needs is the number of its bytes without its nulls, and one more when its last element is null |
| LoginCodec.LoginNeedBytes | xiyousdk/proto/response/LoginAccountResponse.h:198-282 | the same for a login; it never needs more than its bytes |
| LoginCodec.LoginAccount | xiyousdk/proto/response/LoginAccountResponse.h:198-282 | on any bytes: a login read with success can be written, in as many bytes as were consumed, the count lowered by them minus the null marks; the ignored failure of the nested server always makes the whole read fail |
| LoginCodec.LoginIgnoresOld | xiyousdk/proto/response/LoginAccountResponse.h:198-282 | a login read with success does not depend on what was there before |
| LoginCodec.ResponseAccount | xiyousdk/proto/impl/GenericResponse_LoginAccountResponse.h:87-118 | success means exactly that the response's own part was read and a byte is left; then the response accounts for the consumed bytes and its null marks exactly when its tag is null or was read with success |
| LoginCodec.LoginAstray | xiyousdk/proto/response/LoginAccountResponse.h:198-282 | a login that fails behind its mark never leaves the cursor and the count that the bytes of its value would account for |
| LoginCodec.LoginOverrun | xiyousdk/proto/response/LoginAccountResponse.h:198-282 | a login is read with success and leaves the cursor outside the counted bytes exactly when the count is at least what the login needs and less than its bytes |
| LoginCodec.ResponseOverrun | xiyousdk/proto/impl/GenericResponse_LoginAccountResponse.h:87-118 | the same for a response that is read as a whole |
| LoginCodec.LoginReach | xiyousdk/proto/response/LoginAccountResponse.h:198-282 | from any bytes, with success or without, reading a login never ends more than 65534 bytes behind the counted ones |
| LoginCodec.ResponseReach | xiyousdk/proto/impl/GenericResponse_LoginAccountResponse.h:87-118 | the same for a response, also when its tag fails |
| LoginCodec.ItemsReach | xiyousdk/proto/response/LoginAccountResponse.h:268-277 | each element passes one uncounted byte at most, and the last one none |
| LoginCodec.NullsOverrun | xiyousdk/proto/response/LoginAccountResponse.h:261-281 | the inputs that go past the count: 12 bytes and n null elements behind them are read with a count of 12, for every n up to 65534, and leave the cursor n bytes outside |
| LoginCodec.LoginReadsPassed | xiyousdk/proto/response/LoginAccountResponse.h:198-282 | only the bytes that the cursor passes make a difference, with success or without |
| LoginCodec.ResponseReadsPassed | xiyousdk/proto/impl/GenericResponse_LoginAccountResponse.h:87-118 | the same for a response |
| LoginCodec.TruncatedTagIsAccepted | xiyousdk/proto/impl/GenericResponse_LoginAccountResponse.h:105-117 | eight bytes for which the tag fails and the response reports success |
| LoginCodec.ServerAccount | xiyousdk/proto/model/XiYouGameServer.h:160-215 | the accounting for one nested server, and a negative count on failure |
| LoginMessages.XiYouGameServer.Deserialize | xiyousdk/proto/model/XiYouGameServer.h:160-215 | field by field, with every early return, what the reading function says; after success each field is what stands at its place |
| LoginMessages.XiYouGameServer.Serialize | xiyousdk/proto/model/XiYouGameServer.h:216-231 | appends 0, serverName, isCommend, kind, serverId, status, four bytes each of activeTime and loginTime, and platform |
| LoginMessages.XiYouGameServer.SetServerName | xiyousdk/proto/model/XiYouGameServer.h:98-112 | only the server name changes |
| LoginMessages.XiYouGameServer.SetServerId | xiyousdk/proto/model/XiYouGameServer.h:119-133 | only the server id changes |
| LoginMessages.XiYouGameServer.SetPlatform | xiyousdk/proto/model/XiYouGameServer.h:143-157 | only the platform changes |
| LoginMessages.LoginAccountResponse.Deserialize | xiyousdk/proto/response/LoginAccountResponse.h:198-282 | over nested objects in place or new ones, what the reading function says, also when it fails half way; after success the four texts are those at their places, and the server is null exactly when the byte behind them is not zero |
| LoginMessages.LoginAccountResponse.DeserializeTexts | xiyousdk/proto/response/LoginAccountResponse.h:199-248 | the mark and the four texts, in the order userId, userName, channelId, channelUserId |
| LoginMessages.LoginAccountResponse.DeserializeDefault | xiyousdk/proto/response/LoginAccountResponse.h:250-260 | the nested server is read over the one that is there, over a new one, or dropped |
| LoginMessages.LoginAccountResponse.DeserializeList | xiyousdk/proto/response/LoginAccountResponse.h:261-281 | the vector is replaced by one that holds what was read and null behind it |
| LoginMessages.LoginAccountResponse.DeserializeItems | xiyousdk/proto/response/LoginAccountResponse.h:268-277 | the loop over the elements; every object in the vector is new |
| LoginMessages.LoginAccountResponse.Serialize | xiyousdk/proto/response/LoginAccountResponse.h:283-320 | texts, nested server or mark, and list |
| LoginMessages.LoginAccountResponse.SerializeList | xiyousdk/proto/response/LoginAccountResponse.h:301-319 | a null list, or at most 65534 elements behind their number |
| LoginMessages.GenericResponse.Deserialize | xiyousdk/proto/impl/GenericResponse_LoginAccountResponse.h:87-118 | the outer object and its tag, whose result is ignored, as the reading function says; code is the signed number in bytes 1 to 4, the message stands behind it, and the tag is null exactly when the next byte is not zero |
| LoginMessages.GenericResponse.Serialize | xiyousdk/proto/impl/GenericResponse_LoginAccountResponse.h:119-130 | head, and tag or mark |
| LoginMessages.ServerWire | xiyousdk/proto/model/XiYouGameServer.h:216-231 | the bytes of a server, from its fields |
| LoginMessages.TextsWire | xiyousdk/proto/response/LoginAccountResponse.h:283-298 | the bytes of the four texts of a login, in their order |
| LoginMessages.HeadWire | xiyousdk/proto/impl/GenericResponse_LoginAccountResponse.h:119-124 | the bytes of code and message |
| LoginMessages.PutServer | xiyousdk/proto/response/LoginAccountResponse.h:299-300 | a nested server, or the byte 1 for null |
| LoginCodec.ListWire | xiyousdk/proto/response/LoginAccountResponse.h:301-319 | a list is its length in 16 bits, 0xffff for null and 65534 for 65535 elements and more, and its elements |
| LoginCodec.NullWire | xiyousdk/proto/impl/GenericResponse_LoginAccountResponse.h:125-128 | a missing object is the byte 1 |
| LoginMessages.Transmit | xiyousdk/proto/impl/GenericResponse_LoginAccountResponse.h:87-130 | a response sent through a stream and received by a new object is the same response up to the cap; reading stops where the rest of the stream begins |
| Crc32.GetHashCode | stage/core/Random.h:138-199 | the CRC-32 of the bytes as a signed integer; null and empty input hash to zero; a negative length means up to the terminator (Crc32.HashedPart) |
| Crc32.TableIsRemainder | stage/core/Random.h:155-188 | each of the 256 table entries is its index after eight bit steps of division by 0xEDB88320 (RFC 1952 section 8) |
| Crc32.TableStepIsByteStep | stage/core/Random.h:192-195 | one table step is eight bit-serial steps, for every register and byte |
| Crc32.BurstChangesHash | stage/core/Random.h:189-198 | inputs of equal length that differ only within four consecutive bytes, in particular in one byte, hash differently |
| Crc32.RegistersStayApart | stage/core/Random.h:192-195 | the step is injective in the register |
| Crc32.BurstChangesRegister | stage/core/Random.h:192-195 | up to four bytes can be told from what they do to the register |
| Crc32.CheckValue | stage/core/Random.h:189-198 | the check value of CRC-32: the digits from 1 to 9 hash to 0xCBF43926 |
| Crc32.CheckHash | stage/core/Random.h:197-198 | and GetHashCode returns it as -873187034 |
| Crc32.HashedMessageHasResidue | stage/core/Random.h:189-198 | any message with its own hash behind it leaves the register at 0xDEBB20E3 |
| Crc32.HashedPart | stage/core/Random.h:140-153 | what is hashed: nothing, the first len bytes, or those before the first zero |
| Crc32.SignedWraps | stage/core/Random.h:198 | the hash as a signed integer of 32 bits |
| Rc4.CryptUndone | stage/cipher/RC4.cpp:23-46 | for every mod in 1..255, every key but the empty one, data of any length and any subtrahend, decryption undoes encryption and encryption decryption |
| Rc4.CryptInPlace | stage/cipher/RC4.cpp:23-46 | the first datalen bytes are transformed in place, the others stay; an empty key or no data changes nothing |
| Rc4.FillBox | stage/cipher/RC4.cpp:7-21 | the box is a permutation of 0..mod-1 that the key determines, every index in range |
| Rc4.MixBox | stage/cipher/RC4.cpp:15-20 | the key schedule as iterated swaps |
| Rc4.Mix | stage/cipher/RC4.cpp:15-20 | every swap of the key schedule keeps a permutation |
| Rc4.Step | stage/cipher/RC4.cpp:33-40 | a byte of the stream: the box stays a permutation, the moving index and the byte stay below mod; which byte it is Rc4.StreamIs says |
| Rc4.NextByte | stage/cipher/RC4.cpp:33-40 | the same in place |
| Rc4.CombineInPlace | stage/cipher/RC4.cpp:32-45 | each byte is combined with its byte of the stream, once and in order |
| Rc4.CombineUndone | stage/cipher/RC4.cpp:41-44 | exclusive or and subtraction in eight bits are undone by the other branch |
| Rc4.EncryptThenDecrypt | stage/cipher/RC4.cpp:23-46 | encrypting and then decrypting an array restores it |
| Rc4.StreamIs | stage/cipher/RC4.cpp:32-40 | the stream is a trace of boxes and indexes: each index is the one before plus the number at the place of the byte, that number and the first change places, and the byte stands at the place of their sum |
| Rc4.ScheduleIs | stage/cipher/RC4.cpp:11-20 | the box a key gives: from the numbers in order, for each place one exchange with the place that the index, the number there and a byte of the key add up to |
| Rc4.CryptIsBytewise | stage/cipher/RC4.cpp:39-44 | each byte out: exclusive or with its byte of the stream, then minus the subtrahend, in eight bits; and the reverse |
| Rc4.XorBitwise | stage/cipher/RC4.cpp:41 | exclusive or, bit by bit |
| Rc4.CryptExample | stage/cipher/RC4.cpp:23-46 | two equal bytes under the key 1 with mod 3: 65 and 67 |
| GuidText.PrintedGuidParses | uuid/Guid.cpp:148-168 | ParseExact(ToString(g, fmt)) is g for every 128-bit GUID in the formats D, N, B and P |
| GuidText.ParsesFields | uuid/Guid.h:47-92 | the parser reads the numbers back whatever separators stand between them |
| GuidText.HexLoop | uuid/Guid.h:58-90 | the parser stops at the latest behind the terminator, and the number fits its type |
| GuidText.HexToNumber | uuid/Guid.h:47-92 | the same for one number, from any position |
| GuidText.HexTextDenotes | uuid/Guid.cpp:26-35 | the printed digits are hexadecimal and denote the number |
| GuidText.HexTextIs | uuid/Guid.cpp:26-35 | each printed digit is that of the number, letters in lower case |
| GuidText.SeparatorExactly | uuid/Guid.h:62-68 | the characters the parser skips |
| GuidText.Guid.HexNumber | uuid/Guid.h:47-92 | the loop over the characters against its function; it terminates and never reads past the terminator |
| GuidText.Guid.ParseExact | uuid/Guid.cpp:148-168 | Data1, Data2, Data3 and the bytes of Data4 are the eleven numbers of the text in turn; an empty text gives the zero GUID |
| GuidText.Guid.ToString | uuid/Guid.cpp:18-84 | the text of each of D, N, B and P from the fields: eleven numbers in their widths, dashes, and braces or parentheses; parsing it gives the eleven numbers back |
| GuidText.Guid.Print | uuid/Guid.cpp:18-84 | eleven pieces, each number in its width behind its literal, are the text that the parser is proved to undo |
| GuidText.RoundTrip | uuid/Guid.cpp:148-168 | printing a GUID and parsing the text gives an equal GUID |

## Left out

* Printing and scanning of reals: `valueToString(double)` and `sscanf` are the parameters `show`
  and `scan`; what is asked of them is stated over their results as `NumberText` and `ShowsSolid`. Reals are finite.
* Comments: they are skipped by the reader, and neither collected nor printed.
* String values with a null pointer. C strings are strings without a NUL, and bytes are chars
  below 256 or numbers from 0 to 255.
- JsonReader.Reader.ReadValue: the node stack holds values that are stored back into their
  parents, where the source holds pointers into the tree; aliasing of a node is not captured.
- JsonContainer.Container.Reference: the reference is a position in the container; that it dangles
  after a later removal is not captured. The choice of the position in the map is the library's
  `lower_bound`. Array indexes are unbounded: an index above 2147483647, which `CZString(int)` wraps
  to a negative one and so orders before the others, is not captured.
- JsonWriter.StyledWriter.ForStream: StyledWriter and StyledStreamWriter are one class with a
  flag, since they differ in `writeIndent`, in their destination and in the indentation unit; the
  stream is a string.
- JsonWriter.StyledWriter.IsMultilineArray: sizes and line lengths are unbounded integers; the
  32-bit overflow of `size*3` is not captured.
- JsonNumber.ValueToString: negating the smallest integer overflows in C++; the model takes the usual
  result, its magnitude.
- ConcurrentSets.ConcurrentSet.Insert: the hash table is a finite map, and its own failure to insert
  a key it did not find is not captured.
- ConcurrentSets.ConcurrentSet.IsAvailableEntry: the repair of a list with a positive count and no
  first node is not modelled, because no operation leads there.
- LinkedLists.LinkedList.AddAfter: a node to be added must not be in the list already, which the
  source does not test; positions of nodes are passed along as ghost arguments.
- LinkedListsFix.LinkedListFix.AddFirst: the position type holds every position of the memory, and
  capacities are not negative.
- LinkedListsFix.LinkedListFix.GetPosition: a node is named by its position; that the source takes
  the difference of two pointers is not modelled.
- LoginCodec.ResponseOverrun: about responses that are read as a whole; where a cut-short tag leaves
  the cursor is bounded (`LoginCodec.ResponseReach`) but not computed from the message.
- InternalMaps.ValueInternalMap.ResolveReference: the place is a page and an index; insertion and
  lookup only. Removal, iterators, copies and comparison of the map are not modelled, nor is the
  `previous_` link, which insertion does not maintain.
* The setters of LoginAccountResponse and GenericResponse, which repeat `Texts.Replace` or replace one
  object by another, and the getters of all message classes.
- LoginMessages.LoginAccountResponse.Deserialize: each nested object belongs to one place only, and
  released objects are simply no longer referred to.
- GuidText.Guid.ToString: format X, `Guid::operator!=` and the generation of GUIDs are not modelled.
- Rc4.CryptInPlace: a null key or null data is an empty one; a mod of 0 or above 255 overruns the box
  and is excluded.
* `resize`, `removeMember`, `Path` and the typed accessors of `json_value.cpp`, `ValueInternalArray`
  and the batch allocators.
* `LinkedList::AddBefore`, `LinkedList_Fix::Find` and `ConcurrentSet::erase(iterator)`, which do not
  compile when instantiated.
* Sockets, listeners, timers, gzip, hosting, the SDK client and its controllers: they depend on
  libraries or on files that are not part of this model.
* The other flat request and response classes, which repeat the same codec with fewer features.
