# A verified model of cpuminer

cpuminer is a CPU miner for Bitcoin, written in C. Worker threads ask a work-I/O thread for work,
scan nonces with one of several SHA-256 implementations, and hand solutions back; work arrives and
leaves as JSON, through a bundled copy of the Jansson library. This project models the three parts
in which a mistake would be hard to see, and proves what they promise:

1. **The JSON library** (`compat/jansson`). `Utf8`, `Lexer`, `Parser`, `Dumper`, `Hashtable`,
   `JsonObject`, `JsonArray`, `RefCounts` and `HeapValues` follow the C code step by step, on classes
   and arrays with explicit frames. Beside them stand pure specifications (`JsonValue`, `JsonOrder`,
   `JsonPrint`, `JsonParse`), about which the theorems are proved. What is loaded is stated by the
   grammar of RFC 4627 with every byte written out (`JsonGrammar`): `json_loads` accepts exactly its
   texts and gives the values they stand for (`GrammarTheorems`, `GrammarConverse`,
   `GrammarMembers`), on any C string (`AnyText`, `Utf8Table`). What is printed is stated byte by byte
   (`PrintedText`) and in its order (`PrintedOrder`). Parsing undoes printing for every value and every
   layout (`RoundTrip`, `RoundTripTheorems`), everything loaded is good text (`LoadedText`), the
   printed bytes are canonical (`Canonical`), printing an arbitrary heap graph terminates and leaves
   no mark behind (`Dumper`, `HeapDumps`), the hash table is a finite map through every history,
   nothing that is referred to is freed, and reference counts are exact as long as a value has fewer
   than 2^32 - 1 references.
2. **Four implementations of SHA-256** (section 6.2.2 of FIPS 180-4): the plain one, the one with a
   circular schedule and turning registers, the four-lane one that leaves out three rounds, and the
   assembly one that builds rotations from shift chains. Each is proved against the same
   specification for every state and block (the four-lane one in the two words that stay exact), and
   the two nonce scans on top are proved complete. The constants are proved to be the roots of the
   first primes that the standard asks for (`Sha256Constants`), and the hash searched to be the double
   hash of the block header (`BlockHash`).
3. **The work protocol** between miners and the work-I/O thread: freezable queues on a mutex, a
   condition variable and an intrusive list. `ThreadQueue` proves the list operations and a queue
   machine with any number of consumers; `WorkProtocol` proves token, order, ownership and wake-up
   invariants of every run with any number of miners; `WorkProgress` says when a waiting miner can
   still count on an answer, and how far away it is; `WorkRetries` when the work-I/O thread gives up
   and how everything comes to an end then.

Each theorem about a run or a history holds for runs and histories of any length. `dafny verify
dfyconfig.toml` checks the whole project.

## Where the code does less than it seems to

Properties one would expect of this code that fail on some inputs. In each case the model keeps the
code as it is; a lemma gives an input, and another the exact condition.

- **JSON_PRESERVE_ORDER prints in insertion order** unless serials are far apart. The comparator
  cuts an `unsigned long` difference down to `int`. Insertion order is certain if and only if, for
  every two members, the difference of their serials modulo 2^32 is positive and below 2^31
  (`KeySort.SerialOrderIff`; in terms of what was done to the object,
  `JsonObjects.PrintedAfterIff`). One key set 2^31 + 1 times and then a second one come out the
  wrong way round (`KeySort.SerialOrderCounterexample`, `JsonObjects.PrintedAfterCounterexample`).
- **A deep copy keeps the insertion order** only if in every object iteration already meets the
  members in that order (`DeepCopy.DeepCopyKeepsOrderIff`): a copy numbers its members anew in
  iteration order. Setting "a" and then "f" is enough to lose it
  (`DeepCopy.DeepCopyOrderCounterexample`, with `JsonObjects.SecondInFront`).
- **Every value is freed with its last reference** only if it never had 2^32 - 1 references or more
  (`RefCounts.FreedIff`; for the operations, `RefCounts.Incref` and `RefCounts.Extend`): the largest
  number a count can hold is the mark of the values that are not counted, and a count that gets there
  stays there (`RefCounts.NeverFreed`).
- **Every waiting miner is answered** only as long as the work-I/O thread has not given up, whether
  `curl_easy_init` or a call failed (`WorkProgress.ServedIff`). A miner that waits when a call fails
  for the last time sleeps until it wakes without a signal, if ever (`WorkProgress.LeftAsleep`);
  `main` then ends the process.
- **The four-lane scan comes to an end** without a hit or a restart if and only if its bound is at
  most 0xffffffe0 (`NonceScan.FourWayEndsIff`); the miner's cap is 0xfffffffa.
- **`json_loads` refuses text behind the value**, except one undecodable byte sequence at the very
  end: it is delivered as one EOF character, which the parser cannot tell from the end of the text
  (`RoundTripTheorems.TailCounterexample`). Which strings are accepted is stated exactly in
  `AnyText.LoadsEveryIff`.
- **`json_loads` accepts the texts of RFC 4627** except those with `\u0000`, with an integer outside of
  `int`, or with a surrogate escape that has no partner; `JsonGrammar` leaves just these out, and
  `GrammarConverse.LoadsIff` holds in both directions. A number with a fraction or an exponent is
  taken as text, see below.

## How the model is made

A byte is a number below 256 and a C string a sequence without NUL. Where the code works in place
there is a class or an array: the lexer's five-byte buffer, the circular lists, the bucket array,
the `visited` marks, the SHA-256 state and schedule. Words of SHA-256 are numbers below 2^32 that
are added modulo 2^32 and turned into bit vectors for the logical functions only. The serial
comparator, the key hash, reference counts and nonces have the widths they have in C (two's
complement, 32-bit `int`, 64-bit `long`, signed `char`); other lengths and counters are unbounded.
`qsort` is modelled by what it may leave (`KeySort.MayGive`): some permutation, sorted if the
comparator is consistent. The sink of the printer may fail at any write; the answers of
the server, the restart flag and wake-ups without a signal are arbitrary. A queue operation is one
atomic step, as the mutex makes it.

## Model

| member | source | states |
|---|---|---|
| `Utf8.EncodeThenRead` | compat/jansson/utf.c:11-137 | For every scalar value, the reader gives back the value and the length of its encoding, whatever bytes follow it. |
| `Utf8.ReadThenEncode` | compat/jansson/utf.c:47-137 | Every sequence the reader accepts is the encoding of the code point it reports, and that code point is a scalar value: overlong forms, surrogates and values above 0x10FFFF are refused. |
| `Utf8.ValidIffEncodable` | compat/jansson/utf.c:165-190 | A string is accepted if and only if it is a concatenation of encodings of scalar values. |
| `Utf8.CodePointsInvertEncodeAll` | compat/jansson/utf.c:139-163 | Iterating over the concatenated encodings of any scalar values yields exactly those values. |
| `Utf8.EncodeAllInvertsCodePoints` | compat/jansson/utf.c:139-163 | Encoding the code points that iteration yields gives back the string, so string and code points determine each other. |
| `Utf8.EncodeInto` | compat/jansson/utf.c:11-45 | The buffer method writes exactly the specified encoding, and leaves the buffer alone when it fails. |
| `Utf8.CheckFullBuffer` | compat/jansson/utf.c:83-137 | The loop with its early exits accepts and computes what the specification says of the whole sequence, and reads no byte behind the first that is no continuation byte, even when the announced length runs past the terminator. |
| `Utf8.Iterate` | compat/jansson/utf.c:139-163 | One step on a terminated string: the terminator is reported without moving, otherwise the first unit or failure. |
| `Utf8.CheckString` | compat/jansson/utf.c:165-190 | The loop over units accepts exactly the valid strings. |
| `Utf8Table.FirstUnitIff` | compat/jansson/utf.c:139-163 | A step of the iteration reads a character of a given number and length if and only if the table of section 4 of RFC 3629, written out byte by byte, has it there with that number. |
| `Utf8Table.ValidIff` | compat/jansson/utf.c:165-190 | A string is accepted if and only if it is a concatenation of characters of that table. |
| `Utf8Table.EncodeIff` | compat/jansson/utf.c:11-45 | For every number that is no surrogate, the encoding is the one character of the table with that number, and there is none beyond the table. |
| `JsonValue.EqualIffSameMeaning` | compat/jansson/value.c:272-296 | For all values without reals, with distinct keys and serials but otherwise any text and any hash table layout: `json_equal` holds if and only if both denote the same atoms, sequences and finite maps. |
| `JsonValue.EqualIsEquivalence` | compat/jansson/value.c:890-918 | On these values `json_equal` is reflexive, symmetric and transitive. |
| `JsonOrder.OnlySortedPermutation` | compat/jansson/dump.c:307-333 | With distinct keys (or serials) there is exactly one sorted permutation of the members, so whatever sorts them gives the same list. |
| `JsonOrder.KeyLessIff` | compat/jansson/dump.c:156-160 | One key is less than another if and only if they agree in their first k bytes for some k and then the first one ends or has the smaller byte, as `strcmp` compares. |
| `KeySort.CompareSerialsAgrees` | compat/jansson/dump.c:162-166 | The serial comparator, a difference of unsigned numbers cut down to `int`, tells two serials a < b the right way both ways round if and only if 0 < (b - a) mod 2^32 < 2^31. |
| `KeySort.GivesSorted` | compat/jansson/dump.c:307-333 | When the keys are distinct, or the serials are told apart by the comparator, any `qsort` leaves exactly the sorted list. |
| `KeySort.QsortMayGive` | compat/jansson/dump.c:333 | There is always a result `qsort` may leave: an insertion sort with the comparator gives one. So no statement about all results is empty. |
| `KeySort.SerialOrderIff` | compat/jansson/dump.c:307-333 | `qsort` is certain to put members with distinct serials in serial order if and only if every two of their serials are told apart by the comparator. |
| `KeySort.SerialOrderCounterexample` | compat/jansson/dump.c:162-166 | Two members with serials 0 and 0x80000001 always come out the wrong way round. |
| `KeySort.FittingAreFew` | compat/jansson/dump.c:162-166 | Members that are all told apart number at most 2^31. |
| `Canonical.FollowsPrint` | compat/jansson/dump.c:307-401 | Sorting the members of every object while printing gives the same bytes as sorting the whole tree first and printing it as it is, for every tree, layout and depth. |
| `Canonical.PrintArranged` | compat/jansson/dump.c:168-415 | The text depends on the ordering flags only through the arranged tree. |
| `Canonical.ArrangeKeepsMeaning` | compat/jansson/dump.c:307-369 | Reordering members changes no meaning. |
| `Canonical.ArrangeTwice` | compat/jansson/dump.c:307-369 | Arranging an arranged tree again, in the same order, by serial or as it is, changes nothing. |
| `Canonical.SortedKeysCanonical` | compat/jansson/dump.c:307-369 | With JSON_SORT_KEYS, values with the same meaning arrange to the same tree, whatever their layouts and serials. |
| `Canonical.PreservedOrderCanonical` | compat/jansson/dump.c:307-369 | With JSON_PRESERVE_ORDER, the arranged tree does not depend on the layout of any hash table. |
| `Canonical.ShuffledSameMeaning` | compat/jansson/hashtable.c:326-353 | Changing the iteration order of every hash table in a value changes no meaning. |
| `RoundTrip.EscapedStands` | compat/jansson/dump.c:69-154 | Every printed string body, in front of any text, is passed over by the first string pass and stands for the original string in the second, with and without ASCII escaping, surrogate pairs included. |
| `RoundTrip.ScanStringText` | compat/jansson/load.c:248-402 | A printed string is one token, the token is the string, and the scanner stops right behind it. |
| `RoundTrip.ScanIntegerText` | compat/jansson/load.c:404-498 | A printed `int` followed by a delimiter is scanned back as the same number. |
| `RoundTrip.ReadPrinted` | compat/jansson/load.c:608-766 | For every layout, depth and following text, the parser reads a printed tree back and stops right behind it, members numbered as they come. |
| `LoadedText.ScannedStringGood` | compat/jansson/load.c:248-402 | Whatever string token the lexer produces from a stream of whole characters is NUL-free valid UTF-8. |
| `LoadedText.ScanGood` | compat/jansson/load.c:500-571 | Every token that is accepted leaves a stream of whole characters, so this holds token after token. |
| `LoadedText.LoadedIsSound` | compat/jansson/load.c:645-719 | For every C string: in a successfully loaded value all strings and keys are NUL-free valid UTF-8, keys are distinct in each object, integers are in range. This justifies the unchecked constructors the parser uses. |
| `RoundTripTheorems.LoadsWithTail` | compat/jansson/load.c:768-834 | For every well-formed array or object, all flags and any bytes behind the printed text: the whole is loaded, to the tree with its members in printed order, if and only if what is behind is delivered as white space, but for one EOF character at its end; otherwise it is refused. |
| `RoundTripTheorems.TailCounterexample` | compat/jansson/load.c:127-175 | The text of an empty array with one byte 0xFF behind it is accepted; with two it is refused. |
| `RoundTripTheorems.LoadsDumps` | compat/jansson/load.c:807-834 | For every well-formed array or object and all flags, loading the printed text succeeds and gives the tree with its members in printed order. |
| `RoundTripTheorems.LoadsDumpsEqual` | compat/jansson/load.c:807-834 | Whatever the hash tables of the loaded value look like, it is `json_equal` to the printed one, both ways round. |
| `RoundTripTheorems.DumpsLoadsDumps` | compat/jansson/dump.c:418-438 | With JSON_SORT_KEYS, or with JSON_PRESERVE_ORDER and serials that are told apart, printing the loaded value gives the same bytes, and its serials are told apart again. |
| `RoundTripTheorems.SortedDumpsIffEqual` | compat/jansson/dump.c:418-438 | With JSON_SORT_KEYS two values print the same bytes if and only if they are `json_equal`. |
| `GrammarTheorems.CharsStand` | compat/jansson/load.c:248-402 | Every spelling of the characters of a string, with any of the eight escapes, digits in both cases and surrogate pairs, passes the first string pass and is decoded by the second to the bytes the grammar says. |
| `GrammarTheorems.ScanReal` | compat/jansson/load.c:404-498 | Every number with a fraction or an exponent is one token with its whole text. |
| `GrammarTheorems.Accept` | compat/jansson/load.c:713-766 | Every text of the grammar is accepted wherever a value may stand, and gives the value the grammar says. |
| `GrammarConverse.CharsFound` | compat/jansson/load.c:248-402 | What the string passes accept is spelled by characters of the grammar, and only by such. |
| `GrammarConverse.NumberFound` | compat/jansson/load.c:404-498 | What the number scan accepts is a number of the grammar. |
| `GrammarConverse.ValueFound` | compat/jansson/load.c:608-766 | What the parser accepts is white space and a text of the grammar, which stands for the value it gives. |
| `GrammarConverse.ParseIff` | compat/jansson/load.c:768-805 | On every stream the parser gives a value if and only if section 2 of RFC 4627, written out with literal bytes for white space, escapes, digits and punctuation, makes it a text for that value. Three differences from the standard are part of the grammar: `\u0000` and integers beyond `int` are refused, and so are surrogates without a partner. |
| `GrammarConverse.LoadsIff` | compat/jansson/load.c:807-834 | The same for `json_loads` on every C string of whole characters. |
| `GrammarMembers.MembersTell` | compat/jansson/load.c:608-671 | The value of an object text has every key of the text once, numbered by its first occurrence, with the value of its last one, and nothing else. |
| `AnyText.LoadsEveryIff` | compat/jansson/load.c:127-175 | `json_loads` on every C string, whole characters or not: it gives a value if and only if the string is a text of the grammar for it, or such a text with one broken byte sequence at its very end, which is a byte that cannot begin a character or up to as many bytes as the first one asks for. |
| `StrBuffers.StrBuffer.constructor` | compat/jansson/strbuffer.c:17-29 | A new buffer is empty. |
| `StrBuffers.StrBuffer.Clear` | compat/jansson/strbuffer.c:39-43 | The contents become empty. |
| `StrBuffers.StrBuffer.AppendBytes` | compat/jansson/strbuffer.c:67-84 | The bytes go behind the contents, terminator kept, in the old block or in a larger new one. |
| `StrBuffers.StrBuffer.Value` | compat/jansson/strbuffer.c:45-48 | Up to its terminator the block holds the contents. |
| `StrBuffers.StrBuffer.Pop` | compat/jansson/strbuffer.c:86-95 | The last byte is taken off and returned; an empty buffer gives NUL and stays empty. |
| `Lexers.Lexer.constructor` | compat/jansson/load.c:584-594 | At the start the characters to be delivered are the decoded input. |
| `Lexers.Lexer.StreamGet` | compat/jansson/load.c:127-175 | Each call delivers the next character of the decoded stream; an undecodable sequence is delivered as EOF; behind the end EOF comes for ever. |
| `Lexers.Lexer.ReadSequence` | compat/jansson/load.c:138-157 | The rest of a multi-byte sequence is read without running past the terminator, and accepted exactly when it is complete and checks out. |
| `Lexers.Lexer.StreamUnget` | compat/jansson/load.c:177-182 | Putting the last character back restores the stream; the assertion that it is the character in the buffer always holds. |
| `Lexers.Lexer.UngetUnsave` | compat/jansson/load.c:207-213 | The character taken back from the saved text is the one put back to the stream, so the assertion cannot fail. |
| `Lexers.Lexer.EscapePass` | compat/jansson/load.c:278-299 | A round of the first pass at a backslash goes over exactly one escape, or stops when the scan specification has no continuation. |
| `Lexers.Lexer.ScanPass` | compat/jansson/load.c:258-302 | The first pass ends at the closing quote if and only if the specification accepts, and has then saved exactly the string with its quotes. |
| `Lexers.Lexer.DecodeEscape` | compat/jansson/load.c:324-373 | One `\u` escape or surrogate pair is decoded to a scalar value other than 0, or refused exactly when the specification refuses it. The assertion on four digits cannot fail. |
| `Lexers.Lexer.DecodeOne` | compat/jansson/load.c:323-395 | One piece is decoded and written behind what is there; it fits because it is never longer than its source. |
| `Lexers.Lexer.DecodePass` | compat/jansson/load.c:304-402 | After an accepted first pass the second pass ends exactly at the final quote, decodes what the specification says, and the result with its terminator fits into the saved length plus one. Its unreachable branches are unreachable. |
| `Lexers.Lexer.ScanStringToken` | compat/jansson/load.c:248-402 | The two passes together produce the specified string token, or none. |
| `Lexers.Lexer.ScanNumberToken` | compat/jansson/load.c:404-498 | Sign, digits, fraction and exponent are consumed as the grammar of section 2.4 of RFC 4627 says and the character behind is put back; integers outside `int` are refused. |
| `Lexers.Lexer.SavedInteger` | compat/jansson/load.c:432-448 | The value of the saved digits with their sign. |
| `Lexers.Lexer.ScanToken` | compat/jansson/load.c:500-571 | For every stream the method delivers exactly the specified token and leaves exactly the specified rest. |
| `Parser.ParseObject` | compat/jansson/load.c:608-671 | Recursive descent over the lexer object returns what the specification returns, failure included, and leaves the same rest. |
| `Parser.ParseArray` | compat/jansson/load.c:673-711 | The same for arrays. |
| `Parser.ParseCurrent` | compat/jansson/load.c:713-766 | The same for any value at the current token. |
| `Parser.JsonLoads` | compat/jansson/load.c:807-834 | For every NUL-free text the whole imperative loader equals the specification that the round-trip theorems are about. |
| `PrintedText.DumpsLaid` | compat/jansson/dump.c:168-415 | Reading the text of any well-formed container from the left, counting open brackets outside of strings: every byte is where the flags put it. With an indentation a line ends behind each comma and opening bracket and before each closing one, and the next begins with that many spaces for each open bracket, one fewer before a closing one; otherwise one space follows each comma and colon, none in a compact text; strings escape what has to be escaped in one way only. |
| `PrintedText.DumpsLines` | compat/jansson/dump.c:47-67 | Every line feed in the text is outside of strings and followed by exactly the indentation times the open brackets in spaces, one bracket fewer in front of a closing one; without an indentation there is no line feed. |
| `PrintedText.DumpsAscii` | compat/jansson/dump.c:94-96 | With JSON_ENSURE_ASCII every byte of the text is below 0x80. |
| `PrintedText.EscapedLaid` | compat/jansson/dump.c:69-154 | A backslash stands in front of a quote, a backslash or one of five letters, or in front of `u` and four digits without capitals for a number that has no shorter escape and has to be escaped. |
| `PrintedText.IntegerSpelled` | compat/jansson/dump.c:183-193 | An integer is printed in decimal without leading zeros, and only negative ones have a sign. |
| `PrintedOrder.LoadsDumpsInOrder` | compat/jansson/dump.c:307-369 | Loading what was printed gives the value back with the members of every object, at any depth, ordered by the first byte in which their keys differ under JSON_SORT_KEYS, else by their serials under JSON_PRESERVE_ORDER, else as they came. The statement does not mention a sort. |
| `Dumper.Sink.Write` | compat/jansson/dump.c:31-43 | A string buffer takes every text behind what it has; any other sink may fail, and then the failure is remembered. |
| `Dumper.DumpString` | compat/jansson/dump.c:69-154 | Three pointers over the text: on success the printed string was written, and this means the text is UTF-8; it fails only when a write fails or the text is not UTF-8. |
| `Dumper.DumpIndent` | compat/jansson/dump.c:47-67 | Line break and indentation, or a space, or nothing, as the flags say; failures of the sink are passed on. |
| `Dumper.DoDump` | compat/jansson/dump.c:168-415 | For every heap graph, shared or cyclic, every set of open containers and every sink: it terminates; it succeeds only if no open container is met again and all strings are UTF-8, and fails only otherwise or when a write failed; on success marks are as before and the text is that of a tree the node stands for, members ordered as `qsort` left them; on every failure no mark stays on a node that was not marked. |
| `Dumper.DumpArray` | compat/jansson/dump.c:225-272 | The array case of the same statement. |
| `Dumper.DumpObject` | compat/jansson/dump.c:274-409 | The object case, for all three ways of ordering members. |
| `Dumper.Unmark` | compat/jansson/dump.c:266-270 | Whatever happened below a container, its own mark goes and every other stays as it is. |
| `HeapDumps.DumpableIff` | compat/jansson/dump.c:225-409 | A node can be printed if and only if no walk from it along child pointers meets a node twice on the way down and none ends in a string that is not UTF-8. |
| `HeapDumps.CycleStopsDump` | compat/jansson/dump.c:232-234 | A walk that comes back to a container it has visited makes the printer fail. |
| `HeapDumps.JsonDumps` | compat/jansson/dump.c:418-438 | Printing into a string buffer succeeds if and only if the root is a container and can be printed; the text taken out of the buffer is the specified one; no mark is left on any node, on success and on failure. |
| `HeapDumps.JsonDumpf` | compat/jansson/dump.c:440-446 | The same for a sink that may fail at any write: whatever fails, no mark is left. |
| `HeapDumps.LoadsUndoesJsonDumps` | compat/jansson/load.c:807-834 | Whatever text a successful dump returns for a heap graph with UTF-8 text, `int` integers and no reals, loading it succeeds and gives a value `json_equal` to the tree the root stands for, even if the serial comparator was inconsistent. |
| `HeapDumps.JsonDumpsAgain` | compat/jansson/dump.c:418-438 | With sorted keys, or preserved order and serials that are told apart, dumping the loaded value gives the same bytes. |
| `CircularLists.Link` | elist.h:33-41 | The four assignments of an insertion turn a circular list into the one with the node at the chosen place, in both directions. |
| `CircularLists.Unlink` | elist.h:76-80 | The two assignments of a removal give the circular list without the node. |
| `BucketLayout.TableInserted` | compat/jansson/hashtable.c:47-60 | Putting a pair at the front of its bucket's segment, or at the end for an empty bucket, keeps every bucket a contiguous segment with exactly the pairs whose hash belongs to it. |
| `BucketLayout.TableRemoved` | compat/jansson/hashtable.c:102-136 | Removing a pair and adjusting first and last keeps this for every bucket. |
| `Hashtables.ListInsert` | compat/jansson/hashtable.c:28-34 | The list with the node right before the given one. |
| `Hashtables.ListRemove` | compat/jansson/hashtable.c:36-40 | The list without the node, whose own pointers still lead on. |
| `Hashtables.InsertToBucket` | compat/jansson/hashtable.c:47-60 | The pair gets a place that keeps list and segments; this place is the first of its bucket, or the end. |
| `Hashtables.FindPair` | compat/jansson/hashtable.c:76-99 | Walking a bucket from first to last finds the pair with the key if and only if it is anywhere on the list. |
| `Hashtables.Relink` | compat/jansson/hashtable.c:155-187 | The loop that rewires the list it walks over visits every node exactly once, terminates, and ends with the same nodes laid out bucket by bucket. |
| `Hashtables.Rebuild` | compat/jansson/hashtable.c:155-187 | A rehash keeps the finite map, restores the segments for the new size, and its iteration order is a function of the old one. |
| `Hashtables.TakePair` | compat/jansson/hashtable.c:102-136 | Removing a found pair removes its key from the map and nothing else. |
| `Hashtables.DoClear` | compat/jansson/hashtable.c:138-153 | Every value is released once, in list order. |
| `Hashtables.Hashtable.constructor` | compat/jansson/hashtable.c:212-238 | An empty table of 5 buckets. |
| `Hashtables.Hashtable.DoRehash` | compat/jansson/hashtable.c:155-187 | The next prime, the same map, and strictly more buckets than pairs. |
| `Hashtables.Hashtable.Get` | compat/jansson/hashtable.c:288-302 | The value of the key in the map, or none. |
| `Hashtables.Hashtable.Set` | compat/jansson/hashtable.c:246-286 | The map gains or changes exactly this key, an old key keeps its serial and gives up its old value; before a new key goes in there are more buckets than pairs. The iteration order afterwards is stated in full, with and without a rehash: an old key keeps its place, a new one goes in front of the first member of its bucket or to the end. |
| `Hashtables.Hashtable.Del` | compat/jansson/hashtable.c:304-308 | The map loses exactly this key; iteration loses one member and keeps the order of the others. |
| `Hashtables.Hashtable.Clear` | compat/jansson/hashtable.c:310-324 | The map becomes empty and all values are released. |
| `Hashtables.Hashtable.Iter` | compat/jansson/hashtable.c:326-329 | Iteration starts at the first pair. |
| `Hashtables.Hashtable.IterNext` | compat/jansson/hashtable.c:347-353 | It goes on with the next one. |
| `Hashtables.Hashtable.IterAt` | compat/jansson/hashtable.c:331-345 | It can start at any key of the map, and at no other. |
| `Hashtables.Hashtable.IterSet` | compat/jansson/hashtable.c:367-375 | Setting through an iterator changes one value and no order. |
| `Hashtables.Hashtable.EntriesAreMap` | compat/jansson/hashtable.c:326-353 | Iteration meets every member of the map exactly once, and nothing else. |
| `Hashtables.Hashtable.SizeIsMap` | compat/jansson/hashtable.c:246-308 | The size is the number of live keys, however many operations there were. |
| `Hashtables.RunHistory` | compat/jansson/hashtable.c:246-324 | For any history of set, get, del and clear, whatever its length, as long as the live keys stay below the last prime: every operation answered as the finite map did at that time, and the table returned in the end is the finite map the history describes. |
| `JsonObjects.JsonObject.Set` | compat/jansson/value.c:112-141 | The member keeps its place and serial if the key is there and comes last with a new serial if not; a serial is used up in both cases; the iteration order is stated in full. |
| `JsonObjects.JsonObject.Del` | compat/jansson/value.c:154-163 | The member leaves, the others keep order and serials. |
| `JsonObjects.JsonObject.Clear` | compat/jansson/value.c:165-176 | No members; the counter goes on. |
| `JsonObjects.JsonObject.SameSorting` | compat/jansson/dump.c:307-333 | What `qsort` may leave of the members as the table lists them is what it may leave of them in insertion order: the layout does not matter. |
| `JsonObjects.JsonObject.PrintedInOrder` | compat/jansson/dump.c:307-369 | If the comparator tells the serials apart, JSON_PRESERVE_ORDER prints members in insertion order. |
| `JsonObjects.CollectAndSort` | compat/jansson/dump.c:314-333 | The loop that collects the keys and the sort behind it give a permutation of the members, sorted when the comparator is consistent. |
| `JsonObjects.PrintedAfter` | compat/jansson/value.c:112-176 | After any history of set, del and clear (live keys below the last prime), the members printed are the surviving keys with their last values, and in the order of their first insertion if the history fits the comparator. |
| `JsonObjects.PrintedAfterIff` | compat/jansson/dump.c:162-166 | Insertion order is certain after a history if and only if, between the insertions of any two live keys, the number of keys set is positive and below 2^31 modulo 2^32. |
| `JsonObjects.PrintedAfterCounterexample` | compat/jansson/dump.c:162-166 | A history that does not fit: one key set 2^31 + 1 times and then a second key; the second is printed first. |
| `JsonObjects.SecondInFront` | compat/jansson/value.c:37-51 | With the library's hash function, setting "a" and then "f" in a new object leaves a table that iterates over "f" first. |
| `JsonObjects.Update` | compat/jansson/value.c:178-200 | Updating from another object is the same as setting its members in iteration order; the other object is not touched. |
| `JsonObjects.UpdateSelf` | compat/jansson/value.c:178-200 | Updating an object with itself terminates although a rehash may rewire the list under the iterator, and changes neither members nor order; only serials are used up. |
| `JsonObjects.UpdatedValues` | compat/jansson/value.c:178-200 | After an update every key of the other object has its value from there and every other key what it had. |
| `KeyHash.HashKeyIs` | compat/jansson/value.c:37-51 | The hash of a key is 5381 * 33^n + c1 * 33^(n-1) + ... + cn modulo 2^32, where characters have a sign. |
| `JsonArrays.JsonArray.constructor` | compat/jansson/value.c:351-370 | An empty array. |
| `JsonArrays.JsonArray.Get` | compat/jansson/value.c:391-402 | The element at the index, none at or behind the end. |
| `JsonArrays.JsonArray.GrowCopy` | compat/jansson/value.c:443-470 | Room for more elements, which stay what they are. |
| `JsonArrays.JsonArray.Append` | compat/jansson/value.c:472-495 | The element goes to the end. |
| `JsonArrays.JsonArray.Set` | compat/jansson/value.c:404-428 | One element is replaced and handed back, or nothing happens when the index is at or behind the end. |
| `JsonArrays.JsonArray.Insert` | compat/jansson/value.c:497-535 | The element goes to the index, the others keep their order, in place or with a new block; it fails exactly for an index behind the end. |
| `JsonArrays.JsonArray.Extend` | compat/jansson/value.c:572-592 | The elements of the other array go behind, also when it is the array itself. |
| `JsonArrays.JsonArray.Remove` | compat/jansson/value.c:537-554 | One element leaves and is handed back, the others close up. |
| `JsonArrays.JsonArray.Clear` | compat/jansson/value.c:556-570 | No elements. |
| `DeepCopy.DeepCopyEqual` | compat/jansson/value.c:323-346 | Whatever the table of a copied object looks like, the copy is `json_equal` to the original. |
| `DeepCopy.DeepCopyKeepsOrderIff` | compat/jansson/value.c:323-346 | With JSON_PRESERVE_ORDER a deep copy prints the same bytes as the original if and only if in every object of it iteration meets the members in the order of their serials. |
| `DeepCopy.DeepCopyOrderCounterexample` | compat/jansson/value.c:323-346 | The object of `SecondInFront` prints its members the other way round after a deep copy. |
| `HeapValues.JsonEqual` | compat/jansson/value.c:890-918 | On heap graphs without a reachable cycle and without reals, pointer comparison and recursion decide equality of the trees. |
| `HeapValues.ArrayEqual` | compat/jansson/value.c:594-614 | The array case. |
| `HeapValues.ObjectEqual` | compat/jansson/value.c:272-296 | The object case: same size and an equal partner for every member. |
| `HeapValues.CopyNode` | compat/jansson/value.c:949-976 | A deep copy is a new finite graph whose tree is the original's with serials renumbered in iteration order; all its nodes are new except `true`, `false` and `null`. |
| `HeapValues.CopyArray` | compat/jansson/value.c:631-644 | The array case. |
| `HeapValues.CopyObject` | compat/jansson/value.c:323-346 | The object case. |
| `HeapValues.DeepCopyNode` | compat/jansson/value.c:949-976 | A deep copy is equal to its original and shares no node with it except these three. |
| `RefCounts.Decref` | compat/jansson/jansson.h:74-78 | Giving up one reference, and all that is freed by it, keeps: every live value's count is stuck at (unsigned)-1 or equals the slots holding it plus the references of callers. The same values are stuck as before. Whatever is freed, a container reachable from another reference of a caller survives. |
| `RefCounts.Delete` | compat/jansson/value.c:867-885 | Freeing a value nobody refers to releases its slots one after the other and keeps the same invariant; it terminates and frees no value with a stuck count. |
| `RefCounts.Incref` | compat/jansson/jansson.h:63-68 | One more caller reference, for any live value. Exactly the values that were stuck are stuck afterwards, and this one if it has (unsigned)-1 or more references now; all other counts are exact. |
| `RefCounts.SetNew` | compat/jansson/value.c:404-428 | `json_array_set_new`, and overwriting an object member: exactly one caller reference to the value is used up on success and on failure, and the invariant holds again, also when the old element frees a whole structure. No further count gets stuck. The container may be held through another container only. |
| `RefCounts.InsertNew` | compat/jansson/value.c:472-535 | Append, insert and a new object member: the same, for any live container. |
| `RefCounts.Remove` | compat/jansson/value.c:537-554 | Removing an element or a member gives up one reference and keeps the invariant. |
| `RefCounts.Clear` | compat/jansson/value.c:556-570 | All slots are released and the invariant holds. |
| `RefCounts.Extend` | compat/jansson/value.c:572-592 | Every element gets one more reference, also when an array is extended by itself. Afterwards exactly those values are stuck that were before, or whose slots, caller references and new slots together, all known before the call, reach (unsigned)-1. |
| `RefCounts.NewContainer` | compat/jansson/value.c:351-370 | A new container with one reference, its caller's. |
| `RefCounts.Startup` | compat/jansson/value.c:835-862 | The three static values are live and stuck from the start. |
| `RefCounts.UncountedReference` | compat/jansson/value.c:835-862 | Handing out a reference to a stuck value without counting it, as `json_true` does, keeps the invariant. |
| `RefCounts.ExactOrStuck` | compat/jansson/jansson.h:63-78 | A count is exact, and then below (unsigned)-1, if and only if it is not stuck. |
| `RefCounts.CountAfterIs` | compat/jansson/jansson.h:63-78 | Through every history of references taken and given back, the count is the number of references if that number always was below (unsigned)-1, and (unsigned)-1 otherwise. |
| `RefCounts.FreedIff` | compat/jansson/jansson.h:63-78 | So the count comes to 0 if and only if the last reference is given back and the number of references always was below (unsigned)-1. |
| `RefCounts.NeverFreed` | compat/jansson/jansson.h:63-78 | A run of increments and decrements of one value, 2^32 - 1 references at its height, in the end of which nothing refers to the value and it is still live. |
| `RefCounts.CutPath` | compat/jansson/value.c:867-885 | Every path of slots from a caller's reference to a container can be cut where it first meets it. |
| `RefCounts.RootSurvives` | compat/jansson/value.c:867-885 | A container at the end of such a path is never the one that is freed, and the path stays. |
| `RefCounts.LeakedCycle` | compat/jansson/value.c:537-554 | Without such a path it may be freed: of two containers that hold only each other, one that gives up the other is freed while it is being changed. |
| `RefCounts.NoGarbage` | compat/jansson/value.c:867-885 | A value that nothing refers to has been freed, unless its count is stuck. |
| `RefCounts.NoDangling` | compat/jansson/value.c:867-885 | A value that anything refers to has not been freed, and its count is positive, however many references there are. |
| `Sha256.SameChoice` | sha256_generic.c:37-40 | The short form of Ch used by three implementations is that of section 4.1.2 of FIPS 180-4. |
| `Sha256.ThreeRoundsLater` | sha256_4way.c:457-465 | Words d and h after three more rounds are words a and e now, for every state and block. |
| `Sha256Constants.ConstantsAreRoots` | sha256_generic.c:84-211 | Section 4.2.2 of FIPS 180-4: constant t is the first 32 bits of the fractional part of the cube root of the t-th prime, for the first 64 primes. |
| `Sha256Constants.InitialAreRoots` | sha256_generic.c:236-239 | Section 5.3.3: the initial hash value in the same way from square roots of the first 8 primes. |
| `Sha256Generic.SameMajority` | sha256_generic.c:42-45 | Its majority formula is Maj. |
| `Sha256Generic.Load` | sha256_generic.c:52-63 | The array of 64 words is the message schedule. |
| `Sha256Generic.Transform` | sha256_generic.c:65-228 | For every state and block, the array ends up holding the compression of section 6.2.2 of FIPS 180-4. |
| `Sha256CryptoPP.SameMajority` | sha256_cryptopp.c:39-60 | Its majority formula is Maj. |
| `Sha256CryptoPP.NextWord` | sha256_cryptopp.c:39-60 | The circular buffer of 16 words yields word t of the schedule and keeps the last 16. |
| `Sha256CryptoPP.R` | sha256_cryptopp.c:39-60 | One use of the macro performs round t with registers addressed modulo 8, changing two of eight in place. |
| `Sha256CryptoPP.Transform` | sha256_cryptopp.c:62-87 | With the circular schedule and turning registers, for every state and block: the compression of section 6.2.2 of FIPS 180-4. |
| `Sha256FourWay.SameMaj` | sha256_4way.c:47-49 | Its majority formula is Maj. |
| `Sha256FourWay.ColumnExact` | sha256_4way.c:457-483 | Although rounds 61 to 63 of the second compression are missing, words 3 and 7 of a column are those of the full double hash. |
| `Sha256FourWay.FourColumns` | sha256_4way.c:151-486 | One pass computes, in every lane, both compressions of the block with that lane's nonce, down to the nine words stored. |
| `Sha256FourWay.StoreRow` | sha256_4way.c:471-483 | Four cells are written and no others. |
| `Sha256FourWay.DoubleBlock` | sha256_4way.c:151-486 | After eight passes every cell of the 9 by 32 table is that of its column. |
| `Sha256Asm.SmallChain0IsSigma` | x86_64/sha256_xmm_amd64.asm:43-77 | The chain of shifts is the rotation-based sigma 0 of the schedule. |
| `Sha256Asm.SmallChain1IsSigma` | x86_64/sha256_xmm_amd64.asm:43-77 | The same for sigma 1 of the schedule. |
| `Sha256Asm.BigChain0IsSigma` | x86_64/sha256_xmm_amd64.asm:101-170 | The same for Sigma 0 of the rounds. |
| `Sha256Asm.BigChain1IsSigma` | x86_64/sha256_xmm_amd64.asm:101-170 | The same for Sigma 1 of the rounds. |
| `Sha256Asm.Calc` | x86_64/sha256_xmm_amd64.asm:43-77 | The in-place expansion leaves words 0 to 15 and makes words 16 to 63 the schedule, in each lane. |
| `Sha256Asm.BodyOnLane` | x86_64/sha256_xmm_amd64.asm:101-170 | One pass of the loop, with its register shuffle, is one round in every lane. |
| `Sha256Asm.CalcSha256` | x86_64/sha256_xmm_amd64.asm:36-214 | For every state and four blocks, each lane ends with the compression of section 6.2.2 of FIPS 180-4; the input words and everything behind the eight result words survive. |
| `NonceScan.OnePass` | sha256_4way.c:115-138 | 32 nonces are hashed; the first hit among them is found, if any, with its exact words 3 and 7. |
| `NonceScan.ScanHash4Way` | sha256_4way.c:104-148 | For every block and every behaviour of the restart flag: a result other than -1 is the least nonce from 32 on whose double hash has word 7 zero, and is stored in the block; -1 means that all nonces from 32 up to the last pass, 0xffffffff aside, are no hits, and that the bound was reached or a restart seen. On a hit as on a miss, no pass before the last one reached the bound or saw the flag. |
| `NonceScan.FourWayEndsIff` | sha256_4way.c:115-147 | Without hit and restart the scan comes to an end if and only if the bound is at most 0xffffffe0; the miner allows 0xfffffffa. |
| `NonceScan.DoubleCalc` | sha256_sse2_amd64.c:95-99 | Two calls of the assembly form give the full double hash in each lane; words 8 to 15 of the buffer between them survive as padding. |
| `NonceScan.ScanHashSse2` | sha256_sse2_amd64.c:52-130 | The same completeness from nonce 0 on, a hit comes with its whole double hash, and no pass that was followed by another had reached the bound or seen the flag. |
| `NonceScan.Sse2EndsIff` | sha256_sse2_amd64.c:91-129 | This scan comes to an end if and only if the bound is at most 0xfffffffc, which the miner's cap is. |
| `BlockHash.HashOfHeader` | sha256_4way.c:104-148 | When the server's data and pad carry the padding of section 5.1.1 of FIPS 180-4, the hash the scans look at is, for every header of 20 words and every nonce, SHA-256 of SHA-256 of the header with the nonce as its last word. |
| `QueueMachine.InvKept` | util.c:475-552 | Every step of any thread keeps: accepted = popped + contents, and no unsignalled sleeper while there is more to take than threads woken. |
| `QueueMachine.EveryRun` | util.c:475-552 | So it holds in every state of every run, with any number of consumers and wake-ups without a signal. |
| `QueueMachine.AcceptedPushes` | util.c:495-520 | In every run the accepted items are exactly those pushed while the queue was not frozen, in order. |
| `QueueMachine.NothingLostOrInvented` | util.c:495-552 | In every run they are the items popped so far followed by the contents. |
| `QueueMachine.NoLostWakeup` | util.c:495-552 | A consumer asleep without a signal means, if it is the only one, that the queue is empty. |
| `ThreadQueues.ListAddTail` | elist.h:64-67 | The circular list with the entry at its end. |
| `ThreadQueues.ListDel` | elist.h:87-92 | The list without the entry, whose pointers become null. |
| `ThreadQueues.ListEmpty` | elist.h:131-134 | True if and only if there is no entry. |
| `ThreadQueues.ThreadQueue.constructor` | util.c:441-454 | An empty queue that is not frozen. |
| `ThreadQueues.ThreadQueue.Push` | util.c:495-520 | On the circular list: what the queue machine does in its push step. |
| `ThreadQueues.ThreadQueue.PopHead` | util.c:522-552 | What the machine does when a consumer finds the list as it is. |
| `ThreadQueues.ThreadQueue.FreezeThaw` | util.c:475-483 | The flag changes, the contents stay. |
| `ThreadQueues.ThreadQueue.Drain` | util.c:456-473 | All entries are taken off, in order. |
| `WorkProtocol.StepsAgree` | util.c:475-552 | The queues of the protocol are the queue machine with one consumer: every step of one is the step of the other. |
| `WorkProtocol.InvKept` | cpu-miner.c:365-548 | Every step of miners and work-I/O thread keeps the whole invariant. |
| `WorkProtocol.EveryRun` | cpu-miner.c:365-667 | It holds in every state of every run, for any number of miners and retries, any answers of the server and wake-ups without a signal. |
| `WorkProtocol.WaitingMinerHasOneToken` | cpu-miner.c:491-520 | In every run a miner has at most one of: GET queued, GET in hand, answer waiting; and exactly one while it waits and the work-I/O thread has not given up. |
| `WorkProtocol.SubmitsDoneBeforeGet` | cpu-miner.c:522-548 | When the work-I/O thread works on a miner's GET, every solution that miner submitted before has been submitted to the server. |
| `WorkProtocol.DoneInOrder` | cpu-miner.c:432-475 | Commands are carried out in the order in which they were accepted. |
| `WorkProtocol.FreedOnce` | cpu-miner.c:365-380 | No command or work block is freed twice; a freed block is in no queue and in no thread's hands; every other block is in one of these. |
| `WorkProtocol.NoDeadlock` | cpu-miner.c:432-520 | A miner and the work-I/O thread are never both asleep without a signal. |
| `WorkProgress.BoundedResponse` | cpu-miner.c:382-520 | While a miner's answer is missing, the steps of the work-I/O thread still needed go down by exactly one with each of its steps that is not a failed call tried again, whatever the miners do; at the start they are at most three for each queued command and one more. Later commands never delay an earlier request. |
| `WorkProgress.IoCanAdvance` | cpu-miner.c:432-475 | And until then the work-I/O thread can always make such a step. |
| `WorkProgress.AnswerTaken` | cpu-miner.c:506-520 | Once the answer is there, the miner's next step takes it. |
| `WorkProgress.ServedIff` | cpu-miner.c:432-520 | A waiting miner can still get work if and only if its answer has come or the work-I/O thread has not given up. |
| `WorkProgress.StaysLost` | cpu-miner.c:432-520 | Otherwise it never mines again, and if it sleeps only a wake-up without a signal ends its sleep. |
| `WorkProgress.LeftAsleep` | cpu-miner.c:382-475 | A run in which this happens: no retries, one miner, one call that fails. (The process ends then, because `main` waits for the work-I/O thread only.) |
| `WorkRetries.EveryTry` | cpu-miner.c:382-430 | In every run, while a command is worked on, the failed calls counted are those made for it since it was taken, and there are at most as many as retries allowed. |
| `WorkRetries.GivesUpIff` | cpu-miner.c:382-430 | In every run the work-I/O thread gives up on a command at a call if and only if the number of retries is not negative and exactly one call more than that has failed for this command; it is done with the command at a successful call; otherwise it goes on with the same command. With a negative number it never gives up. |
| `WorkRetries.StopsIff` | cpu-miner.c:432-475 | It stops serving if and only if it could not start, a wake-up without a signal found the queue empty, or it gave up. |
| `WorkRetries.WindsDown` | cpu-miner.c:491-548 | Once the work queue is frozen, each step of a miner brings its end nearer and no other thread's step puts it off. |
| `WorkRetries.AtMostSixSteps` | cpu-miner.c:491-548 | So whatever happens a miner makes at most six more steps. |
| `WorkRetries.QuitsIff` | cpu-miner.c:491-548 | A miner turns to its end if and only if the frozen work queue refuses its command, or a wake-up without a signal finds its own queue empty. |

## Left out

- Networking, long polling, option parsing, logging, CPU affinity, hex conversion and the hash meter: they decide nothing here; the result of a call to the server is an arbitrary yes or no.
- Failing allocation: every `malloc` succeeds.
- Real numbers: the text `%.17g` gives and the value `strtod` finds are opaque, so a number with a fraction or an exponent is accepted whenever its grammar is right, while the code also refuses one that overflows, such as `[1e999]`. Round trips, equality and deep copies are stated for values without reals; in a heap graph to be printed a real is a leaf with some text.
- Error messages with their line numbers, and `errno` after `strtol` (a 64-bit `long` is assumed, so that only the comparison with `INT_MIN` and `INT_MAX` matters for numbers that fit).
- Objects with keys that are not UTF-8, which only the `_nocheck` functions can make: `do_dump` ignores that `dump_string` fails on them, so printing succeeds; the marks and the success condition are proved for them, the text is not stated.
- The round-trip theorems, for values with strings made by the `_nocheck` functions: printing fails on such strings that are not UTF-8, which `HeapDumps.DumpableIff` covers.
- Running past the last prime of the hash table, which takes more than a billion live keys.
- The hash table layout of loaded and copied trees: trees list members in set order and the theorems hold for every reordering (`Shuffled`), while `TableOrder` gives the exact layout for operations on a table.
- `qsort` with an inconsistent comparator may in C do worse than leave some permutation.
- The saved text of the lexer is a sequence with the operations of `StrBuffers.StrBuffer`; the printer writes into such a buffer.
- JsonArrays.JsonArray.Remove: requires room for one more when the index is valid, because on a full array the code moves one slot too many.
- JsonValue.EqualIffSameMeaning: values without reals, because equality of doubles is not modelled.
- JsonValue.EqualIsEquivalence: values without reals; NaN is not equal to itself.
- DeepCopy.DeepCopyEqual: values without reals; a copy of NaN is not equal to it.
- HeapValues.JsonEqual, ArrayEqual, ObjectEqual, CopyNode, CopyArray, CopyObject, DeepCopyNode: heap graphs without reals, for the same reason.
- Lexers.Lexer.ScanNumberToken, Lexers.Lexer.ScanToken: accept a real that overflows.
- Parser.JsonLoads: loads a text with such a real, as its specification does.
- Dumper.DoDump, Dumper.DumpObject: state no text when a key in the graph is not UTF-8.
- HeapDumps.JsonDumps, HeapDumps.JsonDumpf: the same.
- `json_object_iter_set_new` when it fails, shallow copies (`json_copy`), and files as sources: nothing new to prove.
- Widths that would matter for huge data only: positions and lengths of texts are `int` in the lexer, the string buffer and the printer (texts above 2^31 - 1 bytes), array sizes are `unsigned int` (arrays near 2^32 elements), the serial counter is `unsigned long` (2^64 set operations).
- The depth of the C stack: parser, printer, equality, deep copy and `json_delete` recurse as deep as the value is nested.
- That a failed `json_loads` gives back every reference it took: the parser is proved on values, `RefCounts` on the operations it uses.
- In `RefCounts`, container operations are stated on slots; that a member's slot is found by its key is what `Hashtables` and `JsonObjects` prove.
- `JsonObjects.Update` on two tables requires that they share no node, and `JsonObjects.UpdateSelf` covers an object updated with itself.
- The unrolled groups of eight rounds are loops over such groups; the straight-line vector code of the assembly form is written lane by lane, with the same names for the registers.
- The double hash inside `scanhash_c` and `scanhash_cryptopp`: its second block reads beyond the 32 bytes that were written, so the code does not determine it. The compression functions they use are proved.
- `fulltest` accepts every hash, so a hit means that word 7 is zero; the target is not looked at.
- NonceScan.ScanHash4Way: requires a bound of at most 0xffffffe0, because above it the scan need not end (`NonceScan.FourWayEndsIff`); a hit on nonce 0xffffffff is returned as -1 and is not told apart from a miss.
- The VIA PadLock instruction and the 32-bit assembly of Crypto++.
- Timed waits on a queue: every caller passes no time limit.
- That threads are scheduled fairly is not assumed; `WorkProgress` bounds the work that is still to be done instead of the time it takes.
