# mcsrv: a verified model of its formats, containers and streams

mcsrv is a Minecraft server in C. This project models the parts of it that carry real logic and proves what
they do, in Dafny 4.11. `dafny verify dfyconfig.toml` checks everything.

The model follows the code where the code departs from what it is meant for. Where a promised property does
not hold on all inputs, the project says exactly when it does, in both directions, and shows inputs on which it
fails; where only one direction is given, Left out says so.

## The parts

* **Bytes** (`Bytes.dfy`): host memory, wire order, the in-place byte swap.
* **NBT**: `NbtTree.dfy` has the preorder array of tags and the trees it stands for. `NbtParse.dfy` is the
  stack machine of the parser, `NbtParser.dfy` the parser itself. `NbtComplete.dfy` shows that the byte form of
  every tree is parsed to its array, `NbtSound.dfy` that nothing else is; `NbtEmptyLists.dfy` is about empty
  lists inside lists, which the parser miscounts, and elements of unknown types. `FlatWalk.dfy` is the loop the
  two writers share, `NbtWrite.dfy` and `Snbt.dfy` are the writers. `NbtFormat.dfy` has the format in figures, byte by
  byte, and `SnbtText.dfy` the text of a tree, told without the writer. `NbtRoundTrip.dfy` is what comes back when a tree is written and read,
  `NbtRewrite.dfy` and `NbtSlips.dfy` what comes out when bytes are read and written. The tree is never in memory:
  the proofs relate loops and stacks of counters to a recursive datatype.
* **Dictionary**: `Probe.dfy` is the arithmetic of the probe sequence, `Dict.dfy` the open-addressing table
  against a finite map, `Visits.dfy` what a visit meets after any run of puts, `Lookups.dfy` what a
  lookup answers.
* **JSON**: `JsonTree.dfy` has values and their tokens (RFC 8259, sections 2 to 7), `JsonLex.dfy` and
  `JsonParse.dfy` the lexer and the parser. `JsonBuild.dfy` makes the objects: each is a dictionary filled by
  puts, with the hash as a parameter, and what it holds and in what order is what the table says. `JsonText.dfy`
  is the printer, `JsonPrinted.dfy` the tokens of what it prints, `JsonRoundTrip.dfy` printing and parsing
  together, with objects compared as bags of bindings. `JsonKeys.dfy` has inputs for the hash of the program.
  `JsonSpelling.dfy` says how every text is spelled and what the lexer makes of it, `JsonNesting.dfy` how deep it may
  nest, and `JsonShown.dfy` and `JsonLayout.dfy` read the printed text without the lexer.
  `JsonReader.dfy` and `JsonWriter.dfy` are the program: two token lists with two cursors, a dictionary for each
  object, and a string builder.
* **Layout** (`Layout.dfy`): a reader of indented text with brackets and commas, for SNBT and JSON.
* **Byte streams**: `ByteBuffer.dfy` is the ring buffer against a queue of bytes, `VarInt.dfy` the
  variable-length numbers, `Framing.dfy` packets as frames and the resumable receiver, `PacketFormat.dfy` what
  it makes of the bytes of a packet. `Inbound.dfy` and `Outbound.dfy` say what a readable and a writable event do,
  given the answers of the system; `Receiver.dfy` (with the scratch buffer of the sender) and `SendPath.dfy` are the
  two halves of a connection that do it, `Link.dfy` both ends joined.
* **Vector**: `Vector.dfy` is a chain of blocks of different sizes against a sequence, `VectorRuns.dfy` says
  which runs of additions and removals it survives.
* **Arena**: `Intervals.dfy` has the tracked allocations as an ideal list, `Tracking.dfy` the tracker that keeps
  them in a vector, `Arena.dfy` the linear allocator on top.
* **Digest** (`Digest.dfy`): the signed hexadecimal digest of the login handshake.

## Conventions

Code that changes things step by step is a class or a method with loops, proved against a function; lemmas
say what that function means. An access outside an array, which C leaves undefined, is an outcome of its own
(`Overrun`, `Outside`, `Crashed`), and so is a loop that the source never leaves (`GoesRound`, `Endless`). A program that calls abort returns `ok == false` or a value that says so.
What the operating system answers each time a socket is asked (how many bytes it takes or delivers, none yet, or no
more) is an input, any function of the number of the question, and nothing is assumed of it. printf and
strtod are parameters or left open. Locks are not modelled: an operation is one step.

## Where code and documentation disagree

* `arena_save` is documented to replace a length saved before; the code keeps the first one
  (src/memory/arena.c:115-121).
* `arena_restore` without a saved length is documented to free everything; the code frees nothing
  (src/memory/arena.c:123-128).
* `vect_pop` is documented to deliver the last element; the code delivers the slot behind it
  (src/containers/vector.c:222-238).
* `dict_get` returns 0 for a key that is not there, where its callers test for -1
  (src/containers/dict-op.c:50, src/containers/dict-op.c:151).

## Model

| member | source | states |
|---|---|---|
| Bytes.SwapBytes | src/utils/bitwise.c:40-48 | the in-place swap leaves the bytes reversed |
| Bytes.HostToNet | src/utils/bitwise.c:76-98 | a host number of k bytes comes out most significant byte first |
| Bytes.NetToHost | src/utils/bitwise.c:50-74 | wire bytes are read as the big-endian number they spell |
| Bytes.WireRoundTrip | src/utils/bitwise.c:50-98 | every number of k bytes survives hton followed by ntoh |
| Bytes.WireOnto | src/utils/bitwise.c:50-98 | every k wire bytes survive ntoh followed by hton, so both directions are inverse |
| NbtParse.RoundKeeps | src/data/nbt/serial.c:428-442 | on any bytes, a round keeps every stack entry on its own container and no exhausted list on top, and makes (unread bytes, pending elements) fall lexicographically, so the loop ends on every input |
| NbtParse.PendingFalls | src/data/nbt/serial.c:86-169 | a round that reads no byte takes an element off the innermost list or array |
| NbtComplete.CreditsContainer | src/data/nbt/serial.c:86-124 | update_parents credits the container a tag was read in unless the tag was not pushed and has the type of its container, if and only if |
| NbtComplete.ReadsTree | src/data/nbt/serial.c:315-442 | from any state that awaits a tree, with the bytes of the tree ahead, the loop appends the preorder array of the tree and uses up exactly its bytes |
| NbtComplete.ParsesWire | src/data/nbt/serial.c:413-446 | the byte form of every tree at most 512 containers deep is parsed to its preorder array, whatever follows it |
| NbtSound.RoundSound | src/data/nbt/serial.c:428-442 | a round that meets no misfit keeps the array a partly built tree: each compound entry counts its children so far, each list entry waits for its declared length less the elements seen, and the bytes read are the byte form of what was built |
| NbtSound.RunSound | src/data/nbt/serial.c:413-446 | a run without misfit that ends well has read the byte form of a tree and returns its preorder array |
| NbtSound.AcceptsExactlyTrees | src/data/nbt/serial.c:315-446 | the parser accepts, without a misfit, exactly the byte forms of trees at most 512 containers deep, and leaves unread what follows |
| NbtSound.StrictAgrees | src/data/nbt/serial.c:428-442 | unless the run meets a misfit, giving up at misfits changes nothing |
| NbtSound.WirePrefixFree | src/data/nbt/serial.c:315-446 | the bytes determine the tree and where it ends: no byte form is a prefix of another |
| NbtParser.Parser.EnsureRead | src/data/nbt/serial.c:36-44 | a read delivers n bytes or fails with the stream used up |
| NbtParser.Parser.ParseType | src/data/nbt/serial.c:46-84 | the type of the next tag: a byte of the input, or the element type of the open list or array |
| NbtParser.Parser.ReadArray | src/data/nbt/serial.c:190-213 | the element count, -1 refused, and a stack entry when it is positive |
| NbtParser.Parser.ReadData | src/data/nbt/serial.c:325-411 | the payload of each type, and what it pushes, pops or refuses; NbtFormat.ReadsNumber has the lengths in figures |
| NbtParser.Parser.ReadTag | src/data/nbt/serial.c:315-411 | name and payload of one tag |
| NbtParser.Parser.CreditParent | src/data/nbt/serial.c:86-124 | the entry credited with a tag, and by how much |
| NbtParser.Parser.PruneStack | src/data/nbt/serial.c:150-169 | finished lists and arrays are popped, compounds are not |
| NbtParser.Parser.Run | src/data/nbt/serial.c:428-442 | the do-while loop ends on every input with the outcome of the stack machine |
| NbtEmptyLists.EmptyListRound | src/data/nbt/serial.c:86-124 | an empty list directly inside a list leaves the count of that list as it was and credits the container below |
| NbtEmptyLists.ListOfListsExactly | src/data/nbt/serial.c:413-446 | the bytes of a list of lists at the root are accepted if and only if none of the lists in it is empty; otherwise they are refused |
| NbtEmptyLists.EmptyListRefused | src/data/nbt/serial.c:413-446 | a list that holds one empty list is refused |
| NbtEmptyLists.EmptyListUnnoticed | src/data/nbt/serial.c:413-446 | a tree with an empty list inside a list that is nevertheless parsed correctly, so the restriction is not necessary |
| NbtEmptyLists.UnknownElements | src/data/nbt/serial.c:46-84 | a list whose element type is above 12 is refused if that is 13, and otherwise taken for a list whose elements take no bytes: the tag declares elements that are not there |
| NbtWrite.Writer.WriteString | src/data/nbt/serial.c:183-188 | two length bytes and at most 65535 bytes of text |
| NbtWrite.Writer.WriteArray | src/data/nbt/serial.c:215-223 | the count written and pushed is the one of the list member |
| NbtWrite.Writer.WriteTag | src/data/nbt/serial.c:225-283 | head, payload and new stack for every type, with one child taken off the parent; NbtFormat.WritesNumber has the lengths in figures |
| NbtWrite.Writer.CloseFinished | src/data/nbt/serial.c:301-309 | all finished containers are closed, compounds with an end tag |
| NbtWrite.Writer.Write | src/data/nbt/serial.c:285-313 | the loop over the array writes what the walk over it writes |
| FlatWalk.WalksTree | src/data/nbt/serial.c:297-310 | the walk over a preorder array writes head, children and end of each tree in it, closes what it completes and goes on with what follows |
| FlatWalk.WalkRenders | src/data/nbt/serial.c:297-310 | over the array of a tree at most 512 containers deep the walk writes exactly the tree and never finds the stack full |
| NbtRoundTrip.RenderIsWire | src/data/nbt/serial.c:225-313 | the bytes written for a tree are the byte form of the tree that will come back |
| NbtRoundTrip.RereadParsed | src/data/nbt/serial.c:183-283 | what comes back is a tree the parser builds, no deeper than the tree written |
| NbtRoundTrip.RoundTrip | src/data/nbt/serial.c:225-446 | parsing the written bytes gives the tree back with floats byte-reversed, strings cut to 65535 bytes, element names dropped and array counts moved, and uses up exactly those bytes |
| NbtRoundTrip.RoundTripExact | src/data/nbt/serial.c:225-446 | the same array comes back if and only if every float reads the same both ways, every string and name fits, elements have no names and no array has elements |
| NbtRoundTrip.FloatReversed | src/data/nbt/serial.c:225-283 | a float that comes back as another one |
| NbtRoundTrip.ArrayMoved | src/data/nbt/serial.c:215-223 | an array with one element comes back with its count in the other member |
| NbtRewrite.WalksOpen | src/data/nbt/serial.c:297-310 | exactly what is written for a tree with a negative size in it: ends of compounds are missing, and so are type and name of what follows in its compound |
| NbtRewrite.WalkIsWire | src/data/nbt/serial.c:297-310 | for a parsed tree whose payloads are all kept, the byte form is written if and only if no compound has a list of negative size anywhere in it: such a list is never closed, nor is anything around it |
| NbtSlips.EarlyShows | src/data/nbt/serial.c:225-313 | if the first thing to go wrong is a payload that is not kept, the output and the byte form go the same way up to it and differ there |
| NbtSlips.WireWeighs | src/data/nbt/serial.c:225-313 | the length of the byte form of a tree, tag by tag |
| NbtSlips.StuckShort | src/data/nbt/serial.c:285-313 | above a list that is never closed, the writer writes no more than the tags to come and the open compounds bring, whatever payloads follow and wherever the elements of miscounted arrays end up |
| NbtSlips.LateShort | src/data/nbt/serial.c:285-313 | if the first thing to go wrong is a negative size below a compound, the output stays shorter than the byte form |
| NbtSlips.ReadThenWrite | src/data/nbt/serial.c:225-446 | reading bytes and writing them again reproduces them if and only if every float in them reads the same both ways, no array has elements and no compound has a negative size in it |
| NbtSlips.EndMissing | src/data/nbt/serial.c:190-223 | a compound that holds a list of size -2 is parsed as it is and written without its last byte |
| NbtFormat.WellFormedIsParsed | src/data/nbt/serial.c:315-442 | the trees of the format, with type numbers, sizes and bounds in figures, are exactly those the parser builds |
| NbtFormat.FormatIsWire | src/data/nbt/serial.c:225-446 | their bytes in figures: types 1 to 12, lengths in two or four bytes, payloads of 1, 2, 4, 8, 4 and 8 bytes, integers with the highest byte first, floats in host order, 0 behind a compound |
| NbtFormat.ReadsFormat | src/data/nbt/serial.c:413-446 | these bytes are parsed to the preorder array, whatever follows, up to 512 containers deep |
| NbtFormat.ReadsNumber | src/data/nbt/serial.c:325-356 | type, name and any payload of 1, 2, 4, 8, 4 or 8 bytes for types 1 to 6 are parsed to the number the payload spells, and what follows is left |
| NbtFormat.WritesNumber | src/data/nbt/serial.c:225-263 | a number is written as its type, its name and 1, 2, 4, 8, 4 or 8 bytes, the highest first also in a float |
| NbtFormat.WritesString | src/data/nbt/serial.c:183-188 | a string of at most 65535 bytes is written whole behind its length, a longer one is cut there |
| NbtFormat.WritesFormat | src/data/nbt/serial.c:225-313 | what is written for a tree is the bytes, in figures, of the tree that will come back |
| NbtFormat.DepthExactly | src/data/nbt/serial.c:413-446 | compounds nested up to 512 deep are parsed, and those nested deeper end the run |
| Snbt.Writer.WriteIndent | src/data/nbt/snbt.c:50-55 | four spaces for each open container |
| Snbt.Writer.WriteTag | src/data/nbt/snbt.c:57-120 | separator, indentation, label and value of one tag |
| Snbt.Writer.CloseFinished | src/data/nbt/snbt.c:142-162 | all finished containers are closed, each on a line of its own with a brace for a compound and a square bracket for a list or an array |
| Snbt.Writer.Write | src/data/nbt/snbt.c:122-168 | the loop over the array writes what the walk over it writes, and fails exactly when a container finds the stack full |
| Snbt.RenderIsPretty | src/data/nbt/snbt.c:57-168 | what the emitter writes for a tree below any parent is its lead and the text of SnbtText.Pretty, which has the brackets, prefixes and spaces written out |
| Snbt.WalkIsPretty | src/data/nbt/snbt.c:122-168 | for every tree at most 512 containers deep the stack-driven writer prints exactly the text of a recursive pretty-printer that shares nothing with it but printf |
| Snbt.OutputLaid | src/data/nbt/snbt.c:122-168 | read with a stack of brackets, the output closes each bracket with its partner and ends with none open; what stands inside is on lines of its own, four spaces further in, with a comma at the end of a line exactly when a sibling follows |
| SnbtText.PrettyLaid | src/data/nbt/snbt.c:57-168 | anywhere in a text, the text of a tree is read as one such value |
| JsonParse.AnalyzeSound | src/data/json/json_parse.c:291-392 | what the parser returns is the value whose tokens it consumed, within the nesting bound |
| JsonParse.AnalyzeComplete | src/data/json/json_parse.c:291-392 | every value within the nesting bound is found at the head of its tokens, whatever follows |
| JsonParse.AnalyzesExactlyValues | src/data/json/json_parse.c:291-392 | a token list is accepted if and only if it starts with a value nested at most 32 deep, and it is that value as it is spelled |
| JsonParse.LeavesEof | src/data/json/json_parse.c:291-392 | on a token list that ends in EOF a successful parse leaves at least the EOF unread |
| JsonLex.NoProgress | src/data/json/json_parse.c:90-230 | the only token that consumes nothing is the number a minus sign starts |
| JsonLex.EndlessAtMinus | src/data/json/json_parse.c:232-243 | a minus sign where a token is due keeps the lexer there for ever |
| JsonText.LexesText | src/data/json/json_parse.c:90-243 | the text printed for a lexable value is lexed to the tokens of that value |
| JsonShown.IntSpells | src/data/json/json.c:260-262 | an integer is printed as the one signed decimal that spells it: an optional minus, digits, no zero in front |
| JsonShown.StringifySeen | src/data/json/json.c:252-299 | read without the lexer, the printed text of a tree shows its words, its strings, its signs and its integers with their signs, in order |
| JsonLayout.StringifyLaid | src/data/json/json.c:204-299 | the printed text closes each bracket with its partner, indents by four spaces a level and has commas between siblings only, if and only if the size counters put commas between members only |
| JsonSpelling.LexesLexeme | src/data/json/json_parse.c:90-230 | each bracket, comma, colon, word, number and string is lexed to what it means: a number is one token with all its dots and exponents, of which the first digits count; a backslash stays twice and what it escapes is lost |
| JsonSpelling.LexesHead | src/data/json/json_parse.c:176-243 | behind any spaces, tabs, line feeds, vertical tabs, form feeds and carriage returns: what the lexer makes of a lexeme, a number at the end, the end, a null character, a minus sign, an unclosed string and anything else |
| JsonSpelling.Covers | src/data/json/json_parse.c:176-243 | every text begins in one of these ways |
| JsonSpelling.WhatFollows | src/data/json/json_parse.c:394-426 | behind a value the text must be spelled right to its end, but what it says is ignored |
| JsonNesting.NestingExactly | src/data/json/json_parse.c:364-392 | a text of nested arrays is parsed up to 32 of them and refused beyond |
| JsonPrinted.PrintedExact | src/data/json/json_parse.c:291-392 | the tokens of printed text are parsed if and only if the size counters put commas between the members only and the nesting is within the bound, and then to the value as it is spelled |
| JsonBuild.BuiltKeeps | src/data/json/json.c:129-136 | the objects built are no deeper than the text spells them and hold nothing the lexer cannot produce |
| JsonBuild.BuiltCounts | src/data/json/json.c:129-136 | putting members into dictionaries never adds members, and loses none if and only if no put is lost |
| JsonBuild.BuiltExact | src/data/json/json.c:129-136 | what is built means what is spelled, with objects as bags of bindings, if and only if no put is lost |
| JsonBuild.KeysFresh | src/data/json/json.c:129-136 | no put is lost when the keys of each object are distinct and their hashes are not 0 |
| JsonRoundTrip.ParsesText | src/data/json/json.c:204-299 | the text of a lexable tree is parsed to the tree built from it if its commas are right and it is within the nesting bound, and refused otherwise |
| JsonRoundTrip.ParsesLexable | src/data/json/json_parse.c:394-426 | every tree the parser returns is lexable and within the nesting bound, or is the single float that ends a text with a dot |
| JsonRoundTrip.RoundTripExact | src/data/json/json.c:204-299 | printing and parsing gives a tree with the same bindings if and only if its integers are not negative, its strings hold no quote and only paired backslashes, it holds no float, its size counters put commas between members only, no binding is lost when they are put again in visiting order, and it is nested at most 32 deep |
| JsonRoundTrip.MapsComeBack | src/data/json/json.c:204-299 | in particular every lexable tree within the bound whose objects have distinct keys with hashes other than 0 and exact counters comes back |
| JsonRoundTrip.ReparseStable | src/data/json/json.c:204-299 | a parsed tree, other than a single float, comes back from its own text if and only if its commas are right and no binding is lost when they are put again in visiting order |
| JsonRoundTrip.BuiltMaps | src/data/json/json.c:129-136 | of members with distinct keys, with hashes other than 0, objects are built that are maps again, with exact counters |
| JsonRoundTrip.MapsReparse | src/data/json/json_parse.c:394-426 | a text whose objects have distinct keys, with hashes other than 0, is parsed to what it spells, and that comes back from its own text |
| JsonKeys.SlotOrder | src/containers/dict-op.c:170-179 | with the hash of the program the keys b and a, put in this order, are visited as a and b |
| JsonKeys.RepeatedKey | src/data/json/json.c:235-250 | an object in which the same short key is put twice is printed with a comma at the end, and refused |
| JsonKeys.StoredTwice | src/containers/dict-op.c:58-124 | an object spelled with the keys a, b, c, a holds a twice, as growing has displaced it, and comes back |
| JsonReader.Lexer.ReadString | src/data/json/json_parse.c:90-108 | the string up to the closing quote, each backslash doubled and the character behind it lost |
| JsonReader.Lexer.ReadNumber | src/data/json/json_parse.c:114-149 | digits, dots and exponents are collected; only a dot at the end of the text makes a float |
| JsonReader.Lexer.ReadToken | src/data/json/json_parse.c:176-230 | one token and the text behind it |
| JsonReader.Lexer.Run | src/data/json/json_parse.c:232-243 | the kinds and the values of all tokens, in two lists, or the loop that never ends |
| JsonReader.Parser.PopToken | src/data/json/json_parse.c:245-252 | one token; a token without a value leaves the two cursors in step |
| JsonReader.Parser.PopValue | src/data/json/json_parse.c:262-266 | one value |
| JsonReader.CreateObj | src/data/json/json.c:26-39 | a new object is an empty dictionary |
| JsonReader.PutNode | src/data/json/json.c:129-136 | the table of the object is the one the puts so far make |
| JsonReader.VisitMembers | src/containers/dict-op.c:170-179 | the members an object is visited in are the puts that are still there, in slot order |
| JsonReader.Parser.ReadKey | src/data/json/json_parse.c:297-313 | a string and a colon, or a refusal |
| JsonReader.Parser.ReadMember | src/data/json/json_parse.c:297-320 | one member is read as the grammar spells it and put |
| JsonReader.Parser.AnalyzeObj | src/data/json/json_parse.c:291-334 | the object loop, in step with the grammar; the object is the dictionary that the puts leave |
| JsonReader.Parser.AnalyzeNode | src/data/json/json_parse.c:364-392 | the recursive parser returns the node built for the value the grammar finds, reads within the token list only and leaves both cursors in step when it succeeds |
| JsonReader.Parser.AnalyzeArray | src/data/json/json_parse.c:336-362 | the array loop, in step with the grammar |
| JsonReader.ReadJson | src/data/json/json_parse.c:394-426 | lexing and parsing together give a tree, a refusal or a lexer that never ends |
| JsonWriter.Printer.AddPadding | src/data/json/json.c:204-208 | four spaces for each level |
| JsonWriter.Printer.PrintArray | src/data/json/json.c:210-226 | elements on lines of their own, commas between them |
| JsonWriter.Printer.PrintMember | src/data/json/json.c:235-250 | one member, with a comma unless its index is the last the size counter admits |
| JsonWriter.Printer.PrintNode | src/data/json/json.c:252-291 | the text of each kind of node |
| JsonWriter.StringifyJson | src/data/json/json.c:293-299 | the text of the whole tree and a line break |
| Probe.WalkReaches | src/containers/dict-op.c:36-38 | for a power-of-two capacity every slot is met within that many probes, from every start |
| Probe.WalkDistinct | src/containers/dict-op.c:36-38 | for a power-of-two capacity no slot is met twice within that many probes |
| Probe.FullPeriodExactly | src/containers/dict-op.c:36-38 | the probe reaches every slot from every start if and only if the capacity is a power of two |
| Dict.SeenCounts | src/containers/dict-op.c:40-56 | within one turn each used slot on the path is counted once |
| Dict.NeverMissed | src/containers/dict-op.c:40-56 | when as many used slots as the size says have been seen without a match, the key is not stored, whatever holes lie on the path |
| Dict.SearchNeverEnds | src/containers/dict-op.c:40-56 | in a table that holds nothing, under a size that is not 0, no round of the search ends it |
| Dict.MeetsStored | src/containers/dict-op.c:40-56 | the search meets the key within one turn if and only if it is stored in some slot |
| Dict.FirstTurn | src/containers/dict-op.c:40-56 | the first match on a probe path is met within one turn |
| Dict.PutKeeps | src/containers/dict-op.c:98-124 | a binding written where the search for its key landed keeps the table a finite map if and only if the key was not stored or was found |
| Dict.VisitsMap | src/containers/dict-op.c:170-179 | over a table without duplicates the visited bindings are those of the map, each exactly once |
| Dict.GrowthDisplaces | src/containers/dict-op.c:58-87 | after growing, every key whose home is in the new half is no longer on its probe path, so the next put of it lands in a hole |
| Dict.Dict.constructor | src/containers/dict-init.c:20-28 | an empty table of capacity 4 stands for the empty map |
| Dict.Dict.GetElem | src/containers/dict-op.c:40-56 | the search ends at the first slot of the probe path that holds the key, within one turn; it finds the key if and only if it is stored; it goes on for ever if and only if nothing is stored |
| Dict.Dict.Get | src/containers/dict-op.c:145-158 | the answer of the table, whatever has been put; while no key is stored twice, that of the finite map; a miss in a non-empty table reports slot 0 and a value never set |
| Dict.Dict.Put | src/containers/dict-op.c:98-124 | the whole new table; afterwards no key is stored twice if and only if the key was not stored or still sits on its probe path, and then the finite map is updated; a key whose hash is 0 is lost |
| Dict.PutAll | src/containers/dict-op.c:98-124 | the table after any run of puts; if the keys are new and different and have hashes other than 0, the dictionary is the finite map of all of them |
| Dict.Dict.FindSlot | src/containers/dict-op.c:102-111 | the probe loop of a put ends within one turn at the first hole or the key |
| Visits.FilledStands | src/containers/dict-op.c:98-124 | after any run of puts, repeated keys and growths included, every used slot holds a put of its own under its key, and there are as many as puts if and only if none was lost |
| Visits.LostWhenPlaced | src/containers/dict-op.c:98-124 | a put adds nothing if and only if its hash is 0 or its key still sits on its probe path |
| Visits.VisitsOnce | src/containers/dict-op.c:170-179 | a visit after any run of puts meets every put at most once, and all of them if and only if none was lost |
| Visits.DistinctFresh | src/containers/dict-op.c:98-124 | of keys that are all different, with hashes other than 0, no put is lost |
| Visits.StoresNothing | src/containers/dict-op.c:98-124 | a run of puts stores nothing if and only if all the hashes are 0 |
| Visits.EndlessGet | src/containers/dict-op.c:40-56 | after such a run, unless it is empty, the search for any key goes on for ever |
| Visits.FilledByPuts | src/containers/dict-op.c:98-124 | the table over which runs of puts are described is the one the puts of the program make |
| Lookups.StaysThere | src/containers/dict-op.c:58-124 | the slot a put went to holds its key for ever, and its own value until the key lands there again |
| Lookups.WentThere | src/containers/dict-op.c:58-124 | every slot that holds a key is one a put of it went to |
| Lookups.LookupExact | src/containers/dict-op.c:145-158 | after any run of puts, repeated keys and growths included, a lookup finds a put of the key, and the last one if and only if its slot is nearer on the probe path than every other slot that holds the key |
| Lookups.LookupByPuts | src/containers/dict-op.c:145-158 | the same on the puts: if and only if no earlier put of the key went to a slot that is nearer now |
| Lookups.LookupInMap | src/containers/dict-op.c:145-158 | while no key is stored twice, every lookup finds the last put |
| Lookups.LookupSinceGrowth | src/containers/dict-op.c:145-158 | a key is found with its last put as long as the table has not grown since before that put |
| Lookups.PutThenGet | src/containers/dict-op.c:98-158 | a put that does not make the table grow changes the answer for its key to its value, and the answer for no other key |
| Lookups.TwiceAndRight | src/containers/dict-op.c:98-158 | a run after which two keys are stored twice and every lookup finds the last put |
| Lookups.Stale | src/containers/dict-op.c:58-158 | one more put, of another key, makes the table grow, and the lookup of a key finds an older put of it |
| Dict.Dict.Grow | src/containers/dict-op.c:58-91 | the capacity doubles and every node keeps its index |
| Dict.Dict.Foreach | src/containers/dict-op.c:170-179 | the used slots are visited in index order, all of them |
| ByteBuffer.Undone | src/containers/bytebuffer.c:405-445 | unread undoes the last read and unwrite the last write, heads and size |
| ByteBuffer.StoredFaithfully | src/containers/bytebuffer.c:86-91 | written data are stored as they are if and only if they do not wrap, or the part that wraps repeats the beginning |
| ByteBuffer.ReadRegionsExact | src/containers/bytebuffer.c:94-204 | the read regions are in bounds; they do not overlap and hold exactly the readable bytes in order if and only if the buffer is not full with its heads inside the array |
| ByteBuffer.WriteRegionsExact | src/containers/bytebuffer.c:135-204 | the same for the free space, with the empty buffer as the exception |
| ByteBuffer.ArrivesWhole | src/containers/bytebuffer.c:279-287 | copying a buffer appends exactly its content if and only if its regions are exact and none is cut by the end of the destination |
| ByteBuffer.Buffer.constructor | src/containers/bytebuffer.c:220-228 | a fixed buffer starts as the empty queue |
| ByteBuffer.Buffer.WriteAt | src/containers/bytebuffer.c:73-92 | the whole array after the copy loop, data wrapped with the source pointer left where it was |
| ByteBuffer.Buffer.Write | src/containers/bytebuffer.c:289-298 | the queue is extended by the data as stored; too little room changes nothing |
| ByteBuffer.Buffer.Prepend | src/containers/bytebuffer.c:320-337 | the data as stored come to stand in front of the queue |
| ByteBuffer.Buffer.ReadConst | src/containers/bytebuffer.c:43-58 | the first n bytes of the queue, across the wrap |
| ByteBuffer.Buffer.Read | src/containers/bytebuffer.c:346-355 | the prefix is delivered and taken off the queue |
| ByteBuffer.Buffer.Peek | src/containers/bytebuffer.c:391-397 | the prefix is delivered and nothing changes |
| ByteBuffer.Buffer.PeekAt | src/containers/bytebuffer.c:60-71 | the byte at an index, nothing behind the queue, and a byte from outside when the index passes the end of the array |
| ByteBuffer.Buffer.RegisterWrite | src/containers/bytebuffer.c:460-470 | heads and size after bytes were laid down |
| ByteBuffer.Buffer.RegisterRead | src/containers/bytebuffer.c:447-458 | the queue loses its prefix, at most all of it |
| ByteBuffer.Buffer.Unwrite | src/containers/bytebuffer.c:405-422 | the queue loses its end, at most all of it |
| ByteBuffer.Buffer.Unread | src/containers/bytebuffer.c:424-445 | what was readable is the end of what is, with at most as many bytes in front as there is room for |
| ByteBuffer.Buffer.GetRegions | src/containers/bytebuffer.c:180-204 | the region loop at offset 0 yields the read regions or the write regions |
| ByteBuffer.Buffer.WriteBuffer | src/containers/bytebuffer.c:279-287 | what copying another buffer appends, and when it fits |
| VarInt.Encode | src/network/utils.c:7-19 | the encoding loop: the bytes left in the array, and how many are claimed |
| VarInt.Minimal | src/network/utils.c:7-19 | a number below 2^28 is encoded in k bytes with 128^(k-1) <= n < 128^k; every other number claims a byte behind the array |
| VarInt.SpellSame | src/network/utils.c:7-19 | the encoding of a number below 2^28 does not depend on the byte behind the array |
| VarInt.ReadVarint | src/containers/bytebuffer.c:357-378 | the reading loop: a number and its length taken off, or 0 for too few bytes and -1 for no end with the buffer unchanged |
| VarInt.RoundTrip | src/containers/bytebuffer.c:305-378 | a number below 2^28 comes back, using up its own bytes only, if and only if they do not run past the end of the array |
| VarInt.RoundTripOther | src/containers/bytebuffer.c:305-378 | any other number comes back if and only if the byte behind the array happens to hold its top bits |
| VarInt.Truncated | src/containers/bytebuffer.c:357-378 | a truncated encoding reads as too short |
| VarInt.ScanMore | src/containers/bytebuffer.c:357-378 | more bytes behind a number do not change it |
| VarInt.ReadsAll | src/containers/bytebuffer.c:305-378 | a concatenation of encodings is read back as the same list |
| VarInt.WriteVarint | src/containers/bytebuffer.c:305-318 | the encoding is appended as stored |
| VarInt.PrependVarint | src/containers/bytebuffer.c:339-344 | the encoding is put in front as stored |
| Framing.DecodeMore | src/network/receiver.c:20-114 | decoding with more bytes behind gives the same packet, the same failure, or goes on where it had stopped |
| Framing.Resumable | src/network/receiver.c:123-150 | receiving what is there and then more is receiving all of it |
| Framing.AnyCut | src/network/receiver.c:123-150 | however the bytes are cut into arrivals, the same packets are delivered and the receiver ends in the same state |
| Framing.WaitsForRoom | src/network/receiver.c:20-79 | a receiver that waits with a full buffer waits for a packet no buffer of this size can hold |
| Framing.FrameDecodes | src/network/receiver.c:20-114 | a frame is decoded as its packet, using up the frame, if and only if neither its length nor its identifier runs past the end of the ring; otherwise the receiver fails |
| Framing.StreamReceived | src/network/receiver.c:123-150 | a stream of frames is received in full, or up to the first frame with a number across the end of the ring |
| Framing.EndToEnd | src/network/sender.c:25-51 | frames cut into arrivals anywhere are decoded as the packets sent, none lost, duplicated or split, if and only if no length and no identifier straddles the end of the ring |
| Framing.WaitsForBody | src/network/receiver.c:20-79 | a receiver that waits in the middle of a stream waits for a length or for the body of one of the packets |
| Framing.PartReceived | src/network/receiver.c:123-150 | what comes of the beginning of a stream: a beginning of the packets; a failure only if a number straddles the end of the ring |
| Framing.NothingInvented | src/network/receiver.c:123-150 | at any moment what has been delivered is a beginning of what was sent |
| Framing.Straddles | src/network/receiver.c:24-30 | a packet whose length starts on the last byte of the ring fails the receiver |
| PacketFormat.ScansNumber | src/containers/bytebuffer.c:357-378 | one to five bytes, all but the last 128 or more, are read as the 32-bit number with a sign that they spell |
| PacketFormat.ScansNothing | src/containers/bytebuffer.c:357-378 | a number with no end among five bytes is refused, fewer bytes of it are waited for |
| PacketFormat.ReadsPacket | src/network/receiver.c:20-114 | length, mark, identifier and payload, however the numbers are spelled: the packet, or a failure if and only if the mark is above 0 or the identifier runs past the length |
| PacketFormat.WaitsForPacket | src/network/receiver.c:20-43 | a packet that is not there yet, or whose length is negative, is waited for, and its length is kept |
| PacketFormat.LengthWithoutEnd | src/network/receiver.c:22-29 | a length with no end among five bytes fails the receiver |
| Receiver.Build | src/network/sender.c:25-44 | the scratch buffer holds the frame: length, mark, identifier, payload; when it is too small, and when zlib takes over |
| Receiver.Receiver.SockRecv | src/platform/linux/network_linux.c:78-114 | the whole new state, given what the system does next: the bytes it gives out extend the queue and leave the wire, and only an empty buffer with its heads inside the array can be overrun |
| Receiver.Receiver.DecodeLength | src/network/receiver.c:22-43 | the cached or freshly read length, and whether the packet is complete |
| Receiver.Receiver.DecodeMark | src/network/receiver.c:46-67 | the mark of an uncompressed packet |
| Receiver.Receiver.DecodePayload | src/network/receiver.c:69-114 | the identifier and a payload of exactly the rest of the packet |
| Receiver.Receiver.ReceivePacket | src/network/receiver.c:123-150 | the receive loop delivers what the specification of receiving says, and keeps what is not complete |
| Receiver.Receiver.FillBuffer | src/platform/linux/network_linux.c:200-236 | the whole new state and the code are those of the specification, for any answers of the system |
| Receiver.Receiver.OnReadable | src/platform/linux/network_linux.c:363-385 | the whole new state is that of the specification, for any answers of the system |
| Receiver.Session | src/platform/linux/network_linux.c:363-385 | a stream of packets, any answers and any number of wake-ups: what is delivered is a beginning of the stream; an open connection waits unless a packet is larger than the buffer; once the wire is empty, which as many wake-ups that find bytes as there are bytes bring about, everything has been delivered if and only if no length and no identifier straddles the end of the ring |
| Inbound.GivenReports | src/platform/linux/network_linux.c:78-114 | what recvmsg may report for each answer, and how many bytes it gives out |
| Inbound.FillEnding | src/platform/linux/network_linux.c:200-236 | fill_buffer asks unless the buffer is full and goes on as long as bytes come, until the buffer is full or no bytes come; the code is the worst there was, and it waits exactly when the system had none |
| Inbound.ServedEnds | src/platform/linux/network_linux.c:363-385 | a readable event on a waiting connection asks the system if and only if there is room; the bytes among the answers are what came in; it goes on until the system has none, the stream ends or breaks, a packet is refused or the buffer is full; then all packets that are there are delivered and the connection waits, or it is closed |
| Inbound.NeverTooMuch | src/platform/linux/network_linux.c:78-114 | a system that gives out at most as much as the buffer holds overruns nothing |
| Inbound.ServedTakes | src/platform/linux/network_linux.c:363-385 | a wake-up that finds bytes takes some off the wire |
| Inbound.BetweenStream | src/platform/linux/network_linux.c:363-385 | between wake-ups: what has been delivered is a beginning of the packets, and all of them if and only if no number straddles the end of the ring, once all bytes are in |
| Inbound.WakesDrain | src/platform/linux/network_linux.c:363-385 | as many wake-ups that find bytes as there are bytes empty the wire |
| SendPath.LandsExactly | src/network/sender.c:51-51 | the queue gets the frame if and only if the scratch buffer is not full and neither header nor rest is cut by the end of the ring, or the cut does not show |
| SendPath.CutFrame | src/containers/bytebuffer.c:86-91 | a frame of three bytes that is cut by the end of the ring and damaged |
| SendPath.FrameRegions | src/containers/bytebuffer.c:279-287 | what the two regions of the scratch buffer leave in the queue |
| SendPath.RegionsStart | src/containers/bytebuffer.c:94-204 | the regions handed to the socket start with the content and hold more only when the buffer is full with its heads inside the array |
| SendPath.OneMore | src/network/sender.c:25-51 | whether the frames of a run land, and where the write head is then, is decided packet by packet by their frames and the write head at the start |
| SendPath.QueuedSizes | src/network/sender.c:14-51 | a packet of up to 2097140 bytes is queued if there is room for its frame; no frame above 2097151 bytes is |
| Outbound.PushedSpends | src/platform/linux/network_linux.c:116-151 | sendmsg is asked once, and what it took is what is added to the bytes sent |
| Outbound.TakesQueue | src/platform/linux/network_linux.c:116-151 | a socket that takes n bytes gets the first n of the queue, or all of them, and those leave it |
| Outbound.EmptiedEnds | src/platform/linux/network_linux.c:238-248 | empty_buffer goes on as long as the socket takes bytes, until the queue is empty or it takes none; it waits exactly when the socket can take none yet |
| Outbound.WrittenEnds | src/platform/linux/network_linux.c:387-398 | a writable event on a waiting connection with a queue asks the socket until the queue is empty, or it takes none yet, or it is closed or broken, which closes the connection; what the receipts say is what was sent |
| Outbound.FlushedEnds | src/network/sender.c:53-60 | the same for a packet sent while the connection does not wait, which a closed socket leaves open |
| Outbound.WrittenTakes | src/platform/linux/network_linux.c:387-398 | a wake-up that finds a socket that takes bytes makes the queue shorter |
| Outbound.WrittenKeeps | src/platform/linux/network_linux.c:116-151 | bytes sent and queued stay the same stream unless the buffer was full |
| SendPath.Connection.Conservation | src/platform/linux/network_linux.c:116-151 | bytes the socket took followed by the queue are all the frames if and only if every frame landed intact and they are as many; they are never fewer |
| SendPath.Connection.constructor | src/platform/linux/network_linux.c:319-321 | a fresh connection waits for the socket to be writable |
| SendPath.Connection.SockSend | src/platform/linux/network_linux.c:116-151 | the whole new state and the code, given what the system does next; bytes are conserved |
| SendPath.Connection.EmptyBuffer | src/platform/linux/network_linux.c:238-248 | the whole new state and the code are those of the specification, for any answers; the loop ends with an empty queue, with pending_send set, or with a failed socket |
| SendPath.Connection.OnWritable | src/platform/linux/network_linux.c:387-398 | the whole new state is that of the specification, for any answers; no wake-up is lost: a queue that is not empty afterwards belongs to a connection that waits or has failed |
| SendPath.Connection.Queue | src/network/sender.c:25-51 | what becomes of the packet; if it is framed, its frame joins the queue as it lands |
| SendPath.Connection.SendPacket | src/network/sender.c:16-64 | the whole new state, given the answers of the socket; conservation is kept, and every non-empty queue waits or has failed |
| SendPath.HandleOne | src/platform/linux/network_linux.c:387-398 | one packet or one writable event: the whole new state, and the tally of what has been framed, whether it landed, and where the write head is |
| SendPath.Drive | src/platform/linux/network_linux.c:387-398 | any interleaving of packets and writable events with any answers: the state it ends in, and the bytes taken and queued are the frames sent if and only if all frames land, as the packets and the write head at the start decide, and they are as many, which is certain while the frames leave room in the queue; no wake-up is lost |
| Link.FramesAreStream | src/network/sender.c:25-51 | the frames queued for packets that can be sent are the stream the receiver is specified on |
| Link.Run | src/platform/linux/network_linux.c:363-398 | sender, socket and receiver together, over any interleaving and any answers at both ends: the state they end in; if all frames land in the ring of the sender and as many bytes are taken and queued as were framed, what is delivered is a beginning of what was sent, and when all bytes are out and taken, all of it if and only if no length and no identifier straddles the end of the ring of the receiver |
| Link.EverythingArrives | src/platform/linux/network_linux.c:363-398 | as many rounds of wake-ups, with sockets that take and give bytes, as there are bytes queued and on the way empty the queue and the wire unless an end is closed or overrun, and then everything has been delivered if and only if no number straddles the end of the ring of the receiver |
| Vector.ConcatAt | src/containers/vector.c:21-31 | a slot of a block holds the element at the block start plus its offset |
| Vector.ShiftedRemoves | src/containers/vector.c:70-104 | shifting everything behind an element down by one and forgetting the last slot removes that element |
| Vector.CountedFits | src/containers/vector.c:33-68 | a vector whose counters agree is full if and only if the next insertion is behind its last block |
| Vector.CountedRemove | src/containers/vector.c:59-68 | removal keeps the size equal to the capacities before the current block plus the insert index |
| Vector.RemovedAndAdded | src/containers/vector.c:33-68 | a removal and an addition at the start of a block leave a full current block with room in the chain, where the next addition goes past the block |
| Vector.Vector.constructor | src/containers/vector.c:138-155 | an empty vector of one block, which may have no slots |
| Vector.Vector.Locate | src/containers/vector.c:21-31 | the block and the slot of an index |
| Vector.Vector.Get | src/containers/vector.c:240-256 | the element at an index, if there is one |
| Vector.Vector.Set | src/containers/vector.c:247-257 | a write through the pointer to an element changes that element only |
| Vector.Vector.Grow | src/containers/vector.c:33-52 | a block of half the capacity is linked behind and becomes current, the elements stay |
| Vector.Vector.Add | src/containers/vector.c:163-172 | the element is appended; exactly when the vector is full and static, and exactly when a slot outside a block is written |
| Vector.Vector.MoveAcross | src/containers/vector.c:84-95 | the first slot of a block moves to the end of the block before |
| Vector.Vector.MoveDown | src/containers/vector.c:96-100 | memmove inside a block moves slots down by one |
| Vector.Vector.ShiftBackwards | src/containers/vector.c:70-104 | all elements behind an index move down by one, across every block boundary |
| Vector.Vector.RegisterRemoval | src/containers/vector.c:59-68 | the size falls by one and the counters still agree |
| Vector.Vector.Remove | src/containers/vector.c:200-220 | element idx is returned and the sequence is the same without it; an index out of range changes nothing |
| Vector.Vector.Pop | src/containers/vector.c:222-238 | the last element goes, but the slot behind it is handed out |
| Vector.Vector.Clear | src/containers/vector.c:157-161 | no elements, the same capacity |
| Vector.CountersOf | src/containers/vector.c:33-68 | the insert index is 0 or the end of the block exactly when the size is where the current block begins or ends |
| VectorRuns.RecordsFewer | src/containers/vector.c:59-68 | on the way down the counters stay those that the sizes so far determine |
| VectorRuns.RecordsMore | src/containers/vector.c:33-57 | an addition is written outside a block if and only if with it the size climbs past the end of a block for a second time, having been below it in between; otherwise the counters stay those that the sizes determine |
| VectorRuns.SmallStays | src/containers/vector.c:33-57 | a vector that never outgrows its first block never climbs |
| VectorRuns.RecordsCleared | src/containers/vector.c:157-161 | clearing keeps the counters those that the sizes determine |
| VectorRuns.AppendsExactly | src/containers/vector.c:163-198 | a vector to which is only added, such as the tags of the parser, is written outside its blocks if and only if it starts with fewer than two slots and outgrows them |
| Digest.Negate | src/network/security.c:203-211 | the carry loop leaves the two's complement: the magnitude of a negative number |
| Digest.Hex | src/network/security.c:218-224 | two lower-case digits a byte that spell the big-endian number |
| Digest.HexDigits | src/network/security.c:218-224 | the digits are 0 to 9 and a to f in lower case |
| Digest.HashToString | src/network/security.c:198-224 | for every byte string the text is a minus sign exactly for negative numbers, then two digits a byte for the magnitude of the two's-complement number |
| Digest.HexUnique | src/network/security.c:218-224 | length and value determine the digits |
| Intervals.StaysTiled | src/memory/memory_common.c:112-164 | registering and unregistering keep the tracked intervals not empty, sorted and without gaps |
| Intervals.RunsTiled | src/memory/memory_common.c:112-164 | so does every sequence of calls, on the ideal list of intervals |
| Intervals.TagsCover | src/memory/memory_common.c:112-164 | between the first start and the last end every byte has a tag, outside none has |
| Intervals.RegisteredTags | src/memory/memory_common.c:112-148 | a registered range gets its tag, the bytes before keep theirs, a gap goes to the interval in front, what was behind is forgotten |
| Intervals.UnregisteredTags | src/memory/memory_common.c:150-164 | what is unregistered loses its tag and nothing else does |
| Tracking.Tracker.Register | src/memory/memory_common.c:112-148 | intervals from the start on are popped, the one in front ends at the start, the new one follows, one that starts at the same place is replaced; the vector that holds them is written outside its blocks if and only if their number climbs past the end of a block a second time |
| Tracking.Tracker.Unregister | src/memory/memory_common.c:150-164 | intervals from the start on are popped, one that reaches past it is cut off there |
| Tracking.Drive | src/memory/memory_common.c:94-164 | every sequence of calls leaves the intervals of the ideal list in the vector, tiled, if and only if their number never climbs past the end of a block, falls below it and climbs past it again |
| Tracking.FewAllocations | src/memory/memory_common.c:94-164 | that is so as long as at most 64 allocations are tracked |
| Tracking.SecondClimb | src/memory/memory_common.c:94-164 | sixty-five allocations, two given back and two made again: the last is written behind the first block |
| Arena.CeilWraps | src/utils/math.c:7-16 | rounding up to whole words gives at least what was asked for if and only if the request is not among the seven largest, which get nothing |
| Arena.CeilRounds | src/utils/math.c:7-16 | every other request is rounded up to the next multiple of eight |
| Arena.Arena.constructor | src/memory/arena.c:11-29 | an empty arena with nothing tracked and nothing saved |
| Arena.Arena.Allocate | src/memory/arena.c:59-86 | new memory at the end, in whole words; it is tracked, and the tracked intervals tile exactly what is in use, unless its interval is written outside the blocks of the vector, with the exact condition |
| Arena.Arena.Free | src/memory/arena.c:93-106 | the end is given back; offsets stay multiples of 8 if and only if whole words or everything is freed |
| Arena.Arena.FreePtr | src/memory/arena.c:108-113 | everything from a pointer on is given back; pointers elsewhere are ignored |
| Arena.Arena.Save | src/memory/arena.c:115-121 | the first saved length stays |
| Arena.Arena.Restore | src/memory/arena.c:123-128 | back to the saved length, unless less is in use or none was saved |

## Left out

- NbtEmptyLists.EmptyListUnnoticed: beyond a list of lists at the root (NbtEmptyLists.ListOfListsExactly) no exact condition is given for trees with an empty list directly inside a list; such a tree may be refused, misread or, as this lemma shows, read correctly by luck.
- NbtSlips.ReadThenWrite: each container with a negative size in it stays on the stack of the writer for ever; the tree and these containers together are at most 512 deep, which for trees without negative sizes is the bound of the writer itself; so also for NbtRewrite.WalkIsWire and NbtRewrite.WalksOpen.
- Arena.Arena.Allocate: a request is below 2^64 and the capacity below 2^64 - 1, as the machine has it.
- Framing.Decode: compressed packets at or above the threshold, a length or mark that sets no variable, and an identifier read past the packet are all one failure; the compression flag is fixed for a connection; every identifier has a decoder that takes exactly the payload and a handler that accepts it.
- VarInt.Scan: bytes fetched behind the array are an outcome without a value.
- JsonRoundTrip.ReparseStable: says nothing about a text that is a single float, whose printed form is uninterpreted.
- NbtParser.Parser.ReadTag: the tags are a sequence without bound; the vector that holds them in the program is written outside its blocks exactly when it starts with fewer than two slots and outgrows them (VectorRuns.AppendsExactly).
- JsonReader.Lexer.ReadString: a text that ends right behind an opening quote compares a variable that was never set; it counts as an unterminated string.
- JsonReader.Parser.AnalyzeNode: the visit of an object is made when it is complete; the program makes it when the object is printed, and nothing is put in between.
- Receiver.Session: the buffer has at least five bytes (the program gives it many); nothing is said once the system has written more into an empty buffer than there is room for, which the regions it is offered allow.
- Link.Run: of a run in which a frame is damaged in the ring of the sender, or the socket takes more than was queued, it is not said what is delivered.
- SendPath.Drive: whether a full queue with its heads inside the array is sent past its end depends on how much the socket takes; the condition is the number of bytes taken.
- The NBT builder, navigation and `total_tag_length` (src/data/nbt/nbt.c): the skip counts are not maintained consistently.
- NBT files: gzip and reads that deliver part of what was asked for; a short read does not advance the target.
- The 513th nested container: the parser writes through a null pointer and the model stops there (`Crashed`); the binary writer drops the entry.
- The text printf makes of numbers and of byte strings in SNBT, and of floats in JSON: uninterpreted functions.
- Fixed dictionaries, `dict_remove` and shrinking: nothing calls removal, and a put after it can store a key twice.
- Counters of 32 bits (vector sizes, list counts beyond the ones read) and 64-bit wrap-around of probe indices are unbounded here.
- `vect_insert` and its forward shift: the loop moves the wrong element at a block end and follows a null pointer.
- Dynamic byte buffers, regions at an offset other than 0, `bytebuf_copy` and `bytebuf_read_mcstring`.
- The blocks of a vector are a sequence of arrays; the next and prev pointers are the order of that sequence.
- Encryption, zlib, the event loop, accepting and closing sockets, threads and locks, Windows.
- Ring queue, event bus, object pool, registry, string helpers and UUIDs: only easy members.
