# cjdns route server: a verified model

A cjdns supernode (route server) collects announcements from nodes, keeps a table of nodes and links,
exchanges announcements with other supernodes, searches cheapest paths in the resulting graph and
answers with a routing label: a bit string that a switch consumes hop by hop. Around that core the
workspace has codecs (bencode, a JSON dialect, bit-packed encoding schemes) written against a buffer
that grows at its front, an admin connection that routes replies to their requests, and a checksum.

This project models that core in Dafny and proves what the code is for. Each file is one module.

| file | models |
|---|---|
| `Frontier.dfy`, `Dijkstra.dfy` | the priority queue with its position index, and least-cost path search |
| `Bits.dfy`, `Scheme.dfy`, `Splice.dfy`, `ReEncode.dfy`, `BuildLabel.dfy` | label bits as numbers of a given width, encoding schemes, splicing, re-encoding, whole-path labels |
| `SchemeCodec.dfy` | the bit-packed encoding of schemes |
| `Message.dfy` | the chunked buffer written from its end to its front |
| `Objects.dfy`, `Bencode.dfy`, `BencodeGrammar.dfy`, `BencodeIO.dfy` | bencode: parsing as a function and round trips, the language it accepts, the reader and the writer over the buffer |
| `Json.dfy`, `JsonGrammar.dfy`, `JsonIO.dfy` | the JSON dialect, in the same parts |
| `Announcements.dfy`, `Compaction.dfy`, `Links.dfy`, `Nodes.dfy`, `Server.dfy` | announcement compaction, once and over a whole history, link tables, the node table and the list of offered hashes |
| `Route.dfy` | the node graph, routes and the route cache |
| `Gossip.dfy`, `GossipHistory.dfy` | the HELLO / INV / GET_DATA / DATA protocol between two supernodes |
| `Dispatch.dfy` | the admin connection's table of requests and streams |
| `Checksum.dfy` | the Internet checksum |
| `Wrappers.dfy` | optional values, results, bytes, sequences |

Conventions. Code that updates state is a class or a method with loops, proved against a function or
predicate on values; the lemmas are about those. Costs are reals, and adding a weight to a cost is a
parameter `plus` of which only two laws are used: a non-negative weight never lowers a cost, and
adding keeps the order of costs. Exact addition has both; rounded floating-point addition has both on
the numbers it is defined for and extends from there to a lawful function on all reals. Clocks, hashes, the
reciprocal of a link value and the order in which a hash map is walked are parameters or arbitrary
choices. A panic of a decoder is an explicit error value.

What the model shows to be false of the code, each with the exact condition under which it holds:

- Re-encoding a 3-5-8 label to another form and back is not always the identity: director 7 is lost
  when form 0 is requested (`ReEncoding.SevenIsLost`), because the switch to form 1 comes after the
  form's sizes have been read. `ReEncoding.V358RoundTrip` says exactly when the identity holds.
- The shortest encoding of a 3-5-8 label need not mean the same director and need not be stable:
  158 goes to 31 and 31 to 29 (`ReEncoding.CanonicalTwice`). It keeps the director if and only if it
  does not stand as 7 in the label (`ReEncoding.V358CanonicalKeeps`), and it does not depend on an
  earlier form exactly as `ReEncoding.V358CanonicalAfterDetour` says.
- Re-encoding keeps a director if and only if it fits the requested form
  (`ReEncoding.DirectorKeptIffFits`); the code does not check this, and director 200 of the 4-8 scheme
  becomes 8 (`ReEncoding.DirectorIsLost`).
- Parsing does not undo bencode for the least 64-bit integer, for objects nested too deep, or for an
  empty root dictionary that got padding (`Bencode.ParseOfEncode`, `Bencode.ParseOfAligned`; the
  instances are `Bencode.ParseIntOf` and `Bencode.PaddedEmptyRoot`).
- The newer variant of the label computation reads one node's label with the other node's scheme, so
  a hop may keep a form lower than its way back needs (`Routes.NewVariantCanMismatch`, on a chain of
  three nodes); `Routes.HopMatchesIff` says exactly when.
- Not every announcement that a node stands on is offered: one heard twice is withdrawn by the next one
  (`NodeTables.TwiceHeard`). As long as announcements are new, all are (`NodeTables.StaysOffered`).
- The bencode parser takes a bare colon for an empty key (`BencodeGrammar.BareColon`), and the JSON parser
  does not see the end of a comment behind two stars (`JsonGrammar.TwoStars`) and takes the end of the
  input for the end of a string; `BencodeGrammar.AcceptedIffSpelled`, `JsonGrammar.NextIff` and
  `JsonGrammar.StringIff` say exactly what is accepted.
- A better link may cost more: one worth less than 1e-20 costs more than one without any value
  (`Routes.BetterCostsLess`).
- The checksum agrees with RFC 1071 unless carries out of 32 bits are lost in a number that is not a
  multiple of 65535 (`Checksum.CksumRaw`); 65537 words are always safe and 65538 are not
  (`Checksum.BoundIsTight`).

Where code and documentation disagree the model follows the code: `unsplice` fails with
`RoutesThroughFailed`, not with the error its comment names (cjdns-core/src/splice.rs:391), and
`validate` compares prefix values only, so that no prefix is the beginning of another is a separate
hypothesis (`PrefixFree`) wherever it is needed.

## Model

| member | source | states |
|---|---|---|
| `Frontiers.Frontier.InsertionPos` | cjdns-snode/src/pathsearch/frontier.rs:40-44 | the position splits the queue into what sorts before the item and what does not |
| `Frontiers.Frontier.Push` | cjdns-snode/src/pathsearch/frontier.rs:47-57 | the entry is inserted; order and index stay right exactly if the tag was not queued, and then the map from tag to cost gains the entry |
| `Frontiers.Frontier.Pop` | cjdns-snode/src/pathsearch/frontier.rs:60-69 | removes an entry whose cost is least among all queued, of several the one with the greatest tag; nothing comes out exactly when the queue is empty |
| `Frontiers.Frontier.TryInsertOrDecreaseCost` | cjdns-snode/src/pathsearch/frontier.rs:75-106 | inserts a new tag or lowers its cost, never raises one, and reports exactly whether it did |
| `Frontiers.InsertedSorted` | cjdns-snode/src/pathsearch/frontier.rs:47-57 | inserting at that position keeps strict order by descending cost, then tag |
| `Frontiers.InsertedIndexes` | cjdns-snode/src/pathsearch/frontier.rs:51-56 | shifting the stored positions up makes the index again the exact inverse of the longer queue |
| `Frontiers.QueuedTwice` | cjdns-snode/src/pathsearch/frontier.rs:47-57 | with one tag queued twice no index is right |
| `Frontiers.RemovedIndexes` | cjdns-snode/src/pathsearch/frontier.rs:79-85 | shifting the stored positions down makes the index again the exact inverse of the shorter queue |
| `PathSearch.WalkBound` | cjdns-snode/src/pathsearch/dijkstra.rs:68-100 | any walk either stays among explored nodes at no lower cost than found, or costs at least as much as something still queued |
| `PathSearch.LeastIsCheapest` | cjdns-snode/src/pathsearch/dijkstra.rs:68-77 | the walk found to a queued node of least cost is cheapest among all walks to it |
| `PathSearch.ExploredIsReachable` | cjdns-snode/src/pathsearch/dijkstra.rs:134-156 | when the queue is empty, the explored nodes are exactly the reachable ones |
| `PathSearch.Dijkstra.AddNode` | cjdns-snode/src/pathsearch/dijkstra.rs:29-34 | sets the links of one node; weights must not be negative |
| `PathSearch.Dijkstra.RelaxLink` | cjdns-snode/src/pathsearch/dijkstra.rs:84-98 | every node found keeps a real walk behind its `previous` chain, at no higher cost than before, and this link can improve nothing any more |
| `PathSearch.Dijkstra.Explore` | cjdns-snode/src/pathsearch/dijkstra.rs:79-99 | one round keeps the search invariant and adds exactly one new node to the explored ones, which is why the search ends |
| `PathSearch.Dijkstra.TraceBack` | cjdns-snode/src/pathsearch/dijkstra.rs:70-77 | following `previous` ends, zero weights or not, and spells the walk backwards |
| `PathSearch.Dijkstra.ReversePath` | cjdns-snode/src/pathsearch/dijkstra.rs:50-111 | empty exactly if both ends are one node or the target is unreachable; otherwise a real walk read backwards that costs no more than any other walk |
| `PathSearch.Dijkstra.Path` | cjdns-snode/src/pathsearch/dijkstra.rs:41-48 | the same walk read forwards |
| `PathSearch.Dijkstra.Waypoints` | cjdns-snode/src/pathsearch/dijkstra.rs:163-180 | the nodes strictly inside the walk found to one node, in order |
| `PathSearch.Dijkstra.PathSearchTree` | cjdns-snode/src/pathsearch/dijkstra.rs:113-187 | lists exactly the other reachable nodes, each once, each with the inside of a cheapest walk |
| `Splicing.XorShiftJoins` | cjdns-core/src/splice.rs:69 | the xor-and-shift step computes a * 2^hsb(b) + (b - 2^hsb(b)) in a word of any width that holds it |
| `Splicing.JoinAssociative` | cjdns-core/src/splice.rs:56-73 | joining routes is associative |
| `Splicing.JoinUnit` | cjdns-core/src/splice.rs:56-73 | the self-reference label 1 is the unit on both sides |
| `Splicing.HsbOfJoin` | cjdns-core/src/splice.rs:63-67 | lengths of joined routes add up |
| `Splicing.Splice` | cjdns-core/src/splice.rs:56-73 | succeeds exactly for two or more labels whose highest-set-bit indices sum to at most payload - 1, and then gives the joined route |
| `Splicing.UnspliceOfJoin` | cjdns-core/src/splice.rs:403-409 | unsplicing a joined route by its first hop gives back the rest |
| `Splicing.JoinOfUnsplice` | cjdns-core/src/splice.rs:388-409 | joining what unsplicing left with the hop gives back the destination |
| `Splicing.UnspliceSolves` | cjdns-core/src/splice.rs:403-409 | unsplicing finds exactly the route that, joined with the hop, is the destination, and fails exactly if there is none |
| `Splicing.SpliceOfUnsplice` | cjdns-core/src/splice.rs:388-409 | splicing undoes unsplicing exactly for destinations that fit the payload |
| `Splicing.RoutesThroughIffExtends` | cjdns-core/src/splice.rs:379-386 | holds exactly when the destination is the mid path continued by some route |
| `Splicing.RoutesThroughOrder` | cjdns-core/src/splice.rs:379-386 | is reflexive, antisymmetric and transitive |
| `Splicing.UnspliceWholeRoute` | cjdns-core/src/splice.rs:316-365 | unsplicing a route by its hops in order ends at the self-reference |
| `Schemes.Validate` | cjdns-core/src/encoding.rs:394-439 | accepts exactly the valid schemes: 1 to 31 forms, a lone form without prefix, several with prefixes, ascending widths, sizes in range and distinct prefix values; an error is that of the first faulty form |
| `Schemes.AssembledReads` | cjdns-core/src/splice.rs:94-121 | with prefix-free forms, a label assembled in a form is read in that form, with the same director and rest |
| `Schemes.FormFrom` | cjdns-core/src/splice.rs:94-111 | the first form whose prefix matches, or an error exactly when none does |
| `Schemes.FormByPrefix` | cjdns-core/src/splice.rs:94-111 | with prefix-free forms, a form is found exactly for the labels that end in its prefix |
| `Schemes.DirectorIsField` | cjdns-core/src/splice.rs:115-119 | the shifts to and fro cut out the director field |
| `Schemes.LabelParts` | cjdns-core/src/splice.rs:235-239 | a label is the rest of its route, its director and its prefix put together |
| `Schemes.AssembledParts` | cjdns-core/src/splice.rs:251-252 | and a label put together that way reads back as those parts |
| `ReEncoding.ShortestFrom` | cjdns-core/src/splice.rs:159-168 | the earliest form of least width that holds the director, or an error exactly when none does |
| `ReEncoding.ReEncodeExact` | cjdns-core/src/splice.rs:199-255 | for a prefix-free scheme other than 3-5-8 and a director that fits: succeeds exactly when the result fits the payload (and is not zero), with the requested form, the same director and the same rest |
| `ReEncoding.ReEncodeBack` | cjdns-core/src/splice.rs:199-255 | for such a scheme and director, re-encoding back restores the label exactly when it was payload-sized |
| `ReEncoding.PayloadSized` | cjdns-core/src/splice.rs:241-249 | the overflow test of the first form means: the label is below 2^payload |
| `ReEncoding.DirectorKeptIffFits` | cjdns-core/src/splice.rs:199-255 | for such a scheme, the director survives exactly when it fits the requested form |
| `ReEncoding.CanonicalAfterDetour` | cjdns-core/src/splice.rs:203-211 | for such a scheme, the shortest encoding does not depend on the form a label was in before |
| `ReEncoding.CanonicalIsNarrowest` | cjdns-core/src/splice.rs:159-168 | for such a scheme, without a request the label goes to the first of the narrowest forms that hold its director, with director and rest kept; an error exactly if none does |
| `ReEncoding.ReEncodeErrors` | cjdns-core/src/splice.rs:199-211 | an unknown form and a request beyond the scheme are refused |
| `ReEncoding.ReEncodeKeepsMeaning` | cjdns-core/src/splice.rs:199-255 | in every scheme, what is re-encoded to a form that takes its director keeps director, as converted, and rest |
| `ReEncoding.DirectorIsLost` | cjdns-core/src/splice.rs:251-252 | a label of the 4-8 scheme whose director 200, asked into the narrow form, becomes 8 and spoils the rest of the route |
| `ReEncoding.V358Exact` | cjdns-core/src/splice.rs:214-233 | for the 3-5-8 scheme: requested form, converted director, same rest |
| `ReEncoding.V358RoundTrip` | cjdns-core/src/splice.rs:214-233 | there and back is the identity if and only if the director converts without loss |
| `ReEncoding.SevenIsLost` | cjdns-core/src/splice.rs:220-222 | a concrete label whose director 7 comes back as 6 |
| `ReEncoding.V358None` | cjdns-core/src/splice.rs:203-211 | in the 3-5-8 scheme, asking for no form is asking for the narrowest one for the director as it stands |
| `ReEncoding.V358CanonicalKeeps` | cjdns-core/src/splice.rs:203-233 | the shortest encoding in the 3-5-8 scheme keeps the rest, and the director if and only if it does not stand as 7 in the label |
| `ReEncoding.V358CanonicalAfterDetour` | cjdns-core/src/splice.rs:203-233 | a form in between changes the shortest encoding exactly where form 0 is left or entered with a 7 |
| `ReEncoding.CanonicalTwice` | cjdns-core/src/splice.rs:220-222 | label 158 goes to 31 and, asked again, on to 29 |
| `LabelBuilding.ReEncodedForm` | cjdns-core/src/splice.rs:199-255 | any requested form is the form of the result, whether or not the director fits it |
| `LabelBuilding.ForwardAtLeastAsWide` | cjdns-core/src/splice.rs:340-354 | with a prefix-free scheme the forward form of a middle hop is at least as wide as that of its return label |
| `LabelBuilding.HopLabelIs` | cjdns-core/src/splice.rs:340-354 | there is a label exactly if both labels are there, in known forms, and can be widened where needed; it leads on, not back |
| `LabelBuilding.BuildLabel` | cjdns-core/src/splice.rs:316-365 | each path label is the hop's own label to the next node, or that label in the wider form of the way back; unsplicing by them in order ends at 1; succeeds exactly when the path is well-formed and fits |
| `SchemeCodec.PushBits` | cjdns-core/src/encoding.rs:80-94 | pushing the bits of a word one by one appends its low bits to the packed number; the remainder is what the word has above them |
| `SchemeCodec.Serialize` | cjdns-core/src/encoding.rs:49-100 | packs the forms, lowest first, padded to whole bytes by less than 8 zero bits; fails exactly on a form out of range; nothing is left in the accumulator |
| `SchemeCodec.ReadBits` | cjdns-core/src/encoding.rs:135-169 | reads the addressed bits of the reversed bytes as a number |
| `SchemeCodec.Deserialize` | cjdns-core/src/encoding.rs:105-133 | computes, for all bytes, the decoding of the packed number form by form, including where it stops and where it panics |
| `SchemeCodec.DecodePacked` | cjdns-core/src/encoding.rs:105-133 | decoding packed forms gives the forms, and a pad of under 8 bits is never taken for another form |
| `SchemeCodec.DecodeIff` | cjdns-core/src/encoding.rs:105-133 | forms are decoded exactly if they stand packed in the low bits, with less than ten bits behind them |
| `SchemeCodec.DeserializedIff` | cjdns-core/src/encoding.rs:105-133 | the bytes accepted for a scheme: exactly two or more that hold a valid one in their low bits, with less than ten bits behind it |
| `SchemeCodec.RoundTrip` | cjdns-core/src/encoding.rs:49-169 | deserializing what a valid scheme serializes to gives the same scheme |
| `SchemeCodec.KnownSchemes` | cjdns-core/src/encoding.rs:249-285 | the bytes on the wire for the 4-8 and the 3-5-8 scheme |
| `Messages.Chunk.Discard` | cjdns-bytes/src/message.rs:28-35 | drops bytes from the front or fails and changes nothing |
| `Messages.Chunk.Pop` | cjdns-bytes/src/message.rs:37-45 | moves bytes from the front into the caller's buffer, and only there |
| `Messages.Chunk.Push` | cjdns-bytes/src/message.rs:47-56 | prepends the input or fails and changes nothing |
| `Messages.Message.TakeWritableChunk` | cjdns-bytes/src/message.rs:128-142 | gives a chunk with room, and the rest of the message is as before; a spare chunk is always empty |
| `Messages.Message.Write` | cjdns-bytes/src/message.rs:172-188 | prepends the whole buffer to the byte sequence |
| `Messages.Message.Read` | cjdns-bytes/src/message.rs:146-164 | moves the front of the byte sequence to the caller's buffer, as much as there is room or content for |
| `Messages.Message.Discard` | cjdns-bytes/src/message.rs:98-116 | drops bytes from the front; fails exactly if there are too few, and then drops all |
| `Messages.Message.Clear` | cjdns-bytes/src/message.rs:119-121 | leaves the empty sequence; the unwrap never fails |
| `Messages.Message.Len` | cjdns-bytes/src/message.rs:193-197 | the length of the byte sequence |
| `Messages.Message.AsVec` | cjdns-bytes/src/message.rs:88-94 | the byte sequence itself |
| `Messages.FlatKept` | cjdns-bytes/src/message.rs:60-64 | chunks that nobody touched hold what they held |
| `Messages.Message.LooseChanged` | cjdns-bytes/src/message.rs:128-142 | changing a chunk that is taken out changes nothing in the message |
| `Objects.DecimalValue` | cjdns-bencode/src/standard.rs:197-203 | reading the decimal digits of a number gives the number |
| `Objects.DecimalUnique` | cjdns-bencode/src/standard.rs:26-72 | digits without a needless zero in front are those of their number |
| `Objects.LessIff` | cjdns-bencode/src/standard.rs:89-106 | keys are ordered by the first byte in which they differ |
| `Objects.InsertIs` | cjdns-bencode/src/standard.rs:89-106 | inserting into an ordered map sets one key and leaves every other, in order |
| `Objects.CollectedIsLast` | cjdns-bencode/src/standard.rs:89-106 | a map collected from entries holds exactly the keys read, each with the last value read for it |
| `Objects.InsertLast` | cjdns-bencode/src/standard.rs:89-106 | reading entries in ascending key order into a sorted map keeps their order |
| `Bencode.ParseIntOf` | cjdns-bencode/src/standard.rs:26-72 | the parser undoes the printed integer, except for the least one, which overflows |
| `Bencode.ParseBytesOf` | cjdns-bencode/src/standard.rs:108-136 | the parser undoes a length-prefixed string, also after pad zeros where they are accepted |
| `Bencode.ParseOfEncode` | cjdns-bencode/src/standard.rs:26-158 | parsing undoes encoding and leaves trailing bytes unread if and only if the object is nested within the limit and free of the least integer; otherwise parsing fails |
| `Bencode.ParseOfAligned` | cjdns-bencode/src/standard.rs:215-242 | an aligned root dictionary has a length that is a multiple of the alignment, and parses to itself if no pad was needed or pads are accepted and it is not empty; otherwise parsing fails |
| `Bencode.ParseOfWritten` | cjdns-bencode/src/standard.rs:165-247 | whatever the value and alignment: what was written is read back and what was behind it left, exactly under those conditions; otherwise parsing fails |
| `Bencode.PaddedEmptyRoot` | cjdns-bencode/src/standard.rs:222-230 | the empty dictionary aligned to 8 bytes is d000000e, which is refused |
| `Bencode.Padding` | cjdns-bencode/src/standard.rs:222-229 | the least number of zeros that completes a multiple of the alignment |
| `BencodeGrammar.ParseIntBack` | cjdns-bencode/src/standard.rs:26-72 | an integer is accepted only in its one spelling: no needless zeros, no minus zero |
| `BencodeGrammar.ParseOfText` | cjdns-bencode/src/standard.rs:26-158 | every legal spelling, keys in any order and repeated, is parsed to what it means |
| `BencodeGrammar.TextOfParse` | cjdns-bencode/src/standard.rs:26-158 | whatever is parsed is a legal spelling of what it is parsed to |
| `BencodeGrammar.AcceptedIffSpelled` | cjdns-bencode/src/standard.rs:26-158 | the language of the parser: a text is accepted, with value and rest, exactly if it spells a legal tree with that meaning |
| `BencodeGrammar.DictIsLast` | cjdns-bencode/src/standard.rs:89-106 | a dictionary that was read is in order and holds exactly the keys read, each with its last value |
| `BencodeGrammar.BareColon` | cjdns-bencode/src/standard.rs:108-122 | a colon without a length is taken for an empty key |
| `BencodeGrammar.KnownEncoding` | cjdns-bencode/src/standard.rs:187-232 | marks and lengths stand where they do on the wire |
| `BencodeIO.Parser.ReadInt` | cjdns-bencode/src/standard.rs:26-72 | the loop reads what the grammar says, with the same errors |
| `BencodeIO.Parser.ReadStringWithByte` | cjdns-bencode/src/standard.rs:108-136 | the loop reads what the grammar says, with the same errors; a length that no vector can have is a panic |
| `BencodeIO.Parser.ReadList` | cjdns-bencode/src/standard.rs:74-87 | the loop reads what the grammar says and restores the depth |
| `BencodeIO.Parser.ReadDict` | cjdns-bencode/src/standard.rs:89-106 | the loop reads what the grammar says, accepts a pad only before the first key of the root, and restores the depth |
| `BencodeIO.Parser.ReadGeneric` | cjdns-bencode/src/standard.rs:138-158 | the reader computes the grammar's parse of its input and leaves the rest |
| `BencodeIO.Serializer.WriteDict` | cjdns-bencode/src/standard.rs:215-232 | writing backwards prepends the encoding, with the pad before the first key |
| `BencodeIO.Serializer.WriteValue` | cjdns-bencode/src/standard.rs:235-242 | writing backwards prepends exactly the encoding to the buffer |
| `BencodeIO.RoundTrip` | cjdns-bencode/src/standard.rs:161-247 | written to a buffer with any alignment and read back, an object returns and what was behind it is left, exactly if it is parseable and its pad accepted |
| `Json.LaxExtendsStrict` | cjdns-bencode/src/json.rs:42-200 | wherever strict mode succeeds, lax mode gives the same value and the same rest |
| `Json.ParseStringOf` | cjdns-bencode/src/json.rs:202-227 | the parser undoes the escapes of every byte string |
| `Json.ParseIntOf` | cjdns-bencode/src/json.rs:229-245 | the parser undoes every printed 64-bit integer |
| `Json.ParseOfPrint` | cjdns-bencode/src/json.rs:291-353 | strict parsing undoes the printer for every object, at any indentation and before any bytes that do not continue a number |
| `JsonGrammar.StrictIsPlain` | cjdns-bencode/src/json.rs:42-200 | strict mode accepts exactly plain JSON: items separated by single commas, keys and values by single colons, with the same value and rest |
| `JsonGrammar.LaxIsLooseList` | cjdns-bencode/src/json.rs:158-200 | lax mode reads the items of a list and ignores commas |
| `JsonGrammar.LaxIsLooseDict` | cjdns-bencode/src/json.rs:86-156 | lax mode reads the members of a dictionary and ignores commas and colons |
| `JsonGrammar.DictIsLast` | cjdns-bencode/src/json.rs:86-156 | a dictionary read in either mode is in order and holds exactly the keys read, each with its last value |
| `JsonGrammar.NextIff` | cjdns-bencode/src/json.rs:72-84 | the next byte that counts is the first behind any blanks, comments and stray slashes |
| `JsonGrammar.TwoStars` | cjdns-bencode/src/json.rs:266-275 | a comment that ends in two stars and a slash is not seen to end |
| `JsonGrammar.StringIff` | cjdns-bencode/src/json.rs:202-227 | a string is read exactly if it is spelled in plain bytes and hexadecimal escapes up to its quote or the end of the input |
| `JsonGrammar.HexPairIs` | cjdns-bencode/src/json.rs:277-288 | an escape is two digits of either case, or a plus sign and one |
| `JsonGrammar.ReadI64Iff` | cjdns-bencode/src/json.rs:229-245 | a number is read exactly if it is spelled in digits, zeros in front allowed, within 64 bits |
| `JsonGrammar.NumberIff` | cjdns-bencode/src/json.rs:229-245 | a number is the longest run of digits and minus signs, read as a whole; accepted exactly if the run spells a 64-bit integer |
| `JsonGrammar.PlainTextPrintsItself` | cjdns-bencode/src/json.rs:291-303 | plain text is printed as it is |
| `JsonGrammar.ListLayout` | cjdns-bencode/src/json.rs:315-330 | the lines and indentation of a list |
| `JsonGrammar.DictLayout` | cjdns-bencode/src/json.rs:331-349 | the lines and indentation of a dictionary |
| `JsonIO.Parser.NextMeaningfulChar` | cjdns-bencode/src/json.rs:72-84 | skips blanks and comments as the grammar says |
| `JsonIO.Parser.ParseStr` | cjdns-bencode/src/json.rs:202-227 | the loop reads what the grammar says |
| `JsonIO.Parser.ParseNumber` | cjdns-bencode/src/json.rs:229-245 | the loop reads the whole run of digits and puts the byte after it back |
| `JsonIO.Parser.ParseItems` | cjdns-bencode/src/json.rs:158-200 | the loop with its comma flag reads what the grammar says |
| `JsonIO.Parser.ParseEntries` | cjdns-bencode/src/json.rs:86-156 | the loop with its comma and colon flags reads what the grammar says |
| `JsonIO.Parser.Parse` | cjdns-bencode/src/json.rs:42-58 | the reader computes the grammar's parse of its input and leaves the rest |
| `JsonIO.Printer.SerializeString` | cjdns-bencode/src/json.rs:291-303 | writing byte by byte backwards prepends the quoted, escaped string |
| `JsonIO.Printer.SerializeReverse` | cjdns-bencode/src/json.rs:305-353 | writing backwards prepends exactly the printed object |
| `JsonIO.RoundTrip` | cjdns-bencode/src/json.rs:355-361 | printed to a buffer and parsed back in either mode, every object returns |
| `Announcements.ReplacementIsSameClass` | cjdns-snode/src/server/utils.rs:44-65 | one entity replaces another exactly when both announce the same class: version, scheme or one peer number |
| `Announcements.RetainedAnnouncesTheSame` | cjdns-snode/src/server.rs:387-452 | compaction keeps, for every class, the first unexpired entity that announces it |
| `Announcements.RetainedIsJustified` | cjdns-snode/src/server.rs:403-441 | everything kept is unexpired and, unless it is the new announcement, is the first to announce some class |
| `Announcements.FirstHolderStays` | cjdns-snode/src/server.rs:394-441 | the newest announcement of a class within 20 minutes is kept |
| `Announcements.RetainedOrDropped` | cjdns-snode/src/server.rs:394-441 | every announcement is either kept or dropped |
| `Announcements.RetainedNewestFirst` | cjdns-snode/src/server.rs:394-441 | compaction keeps the order newest first |
| `Announcements.CurrentStaysFirst` | cjdns-snode/src/server.rs:417-429 | the new announcement is kept and stays at the head |
| `Announcements.Justify` | cjdns-snode/src/server.rs:403-415 | an announcement is safe exactly if it announces a class not announced before it |
| `Announcements.Retain` | cjdns-snode/src/server.rs:390-441 | the filtering loop keeps and drops what the specification says |
| `Compaction.RetainedKeepsHolder` | cjdns-snode/src/server.rs:394-441 | one compaction keeps, for every class, the newest unexpired announcement that speaks of it |
| `Compaction.HolderLater` | cjdns-snode/src/server.rs:389-401 | as time goes by that announcement expires or stays; no older one takes its place |
| `Compaction.CompactedKeepsHolders` | cjdns-snode/src/server.rs:387-452 | after any number of compactions, at any later time, list and full history have the same such announcement |
| `Compaction.CompactedAnnouncesTheSame` | cjdns-snode/src/server.rs:387-452 | so any number of compactions leaves what is announced of every class unchanged, at any later time |
| `Links.ApplyPeer` | cjdns-snode/src/server.rs:326-372 | changes exactly one link: withdrawn, refreshed with value and age kept, or started anew; no list becomes empty, numbers stay distinct and in place |
| `Links.UpdateLinks` | cjdns-snode/src/server.rs:326-372 | after an announcement each mentioned link is as last announced or gone, keeps value and age exactly if it was there and never announced otherwise, and all others are untouched |
| `Links.ReflectsProper` | cjdns-snode/src/server/link.rs:37-53 | non-zero labels and values that are not negative last through every announcement |
| `Servers.AnnList.Add` | cjdns-snode/src/peer/ann_list.rs:22-25 | list and map gain the hash; the list stays free of duplicates exactly if the hash was not listed |
| `Servers.AnnList.Remove` | cjdns-snode/src/peer/ann_list.rs:27-30 | removes the hash from list and map, and nothing else |
| `Servers.AnnList.AddAnn` | cjdns-snode/src/peer.rs:112-120 | adds a hash that is not there yet, and reports it |
| `Servers.Server.ForgetNode` | cjdns-snode/src/server/nodes.rs:175-183 | exactly the hashes the node stands on are withdrawn |
| `Servers.Server.AddAnnouncement` | cjdns-snode/src/server.rs:387-452 | the node's list is the compaction of new and old, its time that of the head; exactly the dropped announcements are withdrawn, but for the reset message |
| `Servers.Server.ResetNode` | cjdns-snode/src/server/nodes.rs:107-173 | a new node replaces the old one, whose hashes are withdrawn; its version, key and scheme are the first announced, the scheme known before only if none is; a panic if no version is |
| `Servers.Server.HandleAnnounce` | cjdns-snode/src/server.rs:294-382 | the exact condition of every outcome; nodes fit for routes stay so, and new announcements keep everything offered; on acceptance the whole new table and list of hashes; lists stay newest-first and equal to the compaction of all heard, link tables valid, and what is offered is the text of an announcement that a known node stands on |
| `Servers.Server.KeepTableClean` | cjdns-snode/src/server/nodes.rs:89-105 | drops exactly the nodes not heard of in time, with exactly their hashes, and keeps the same invariants |
| `Servers.Server.EnterPeers` | cjdns-snode/src/server.rs:324-382 | only the links of the node change, as the announcement says, and its hash is offered |
| `NodeTables.StaysRoutable` | cjdns-snode/src/server.rs:294-382 | announcements with valid schemes and non-zero labels keep every node fit for route computation |
| `Servers.TableIsHistory` | cjdns-snode/src/server.rs:294-382 | after every sequence of announcements and cleanings, a node is described as by all that was heard from it since its reset: same announced entity for every class at any later time, every link as last said, key, version and scheme of the reset |
| `NodeTables.LinksFollowStep` | cjdns-snode/src/server.rs:326-372 | an accepted announcement keeps every link as last said in the whole history |
| `NodeTables.LiveWithout` | cjdns-snode/src/server/nodes.rs:153-173 | replacing a node after its hashes were withdrawn leaves no offered hash without a holder |
| `NodeTables.LiveAfterForgetting` | cjdns-snode/src/server/nodes.rs:89-105 | nor does forgetting nodes |
| `NodeTables.StillLive` | cjdns-snode/src/server.rs:446-450 | withdrawing the dropped announcements leaves no offered hash without a holder |
| `NodeTables.StaysOffered` | cjdns-snode/src/server.rs:376-382 | a new announcement keeps every announcement that a node stands on offered |
| `NodeTables.OfferedFewer` | cjdns-snode/src/server/nodes.rs:89-105 | so does forgetting nodes |
| `NodeTables.TwiceHeard` | cjdns-snode/src/server.rs:446-450 | an announcement heard twice is withdrawn by the next one, although a node still stands on it |
| `Gossip.Peer.CompleteReq` | cjdns-snode/src/peer/peer.rs:60-62 | true exactly for an outstanding request, which then no longer is |
| `Gossip.Peers.HandleInv` | cjdns-snode/src/peer.rs:272-282 | asks for each unknown hash under a new number that is then outstanding |
| `Gossip.Peers.HandleMessage` | cjdns-snode/src/peer.rs:228-298 | the handler refines the protocol step, with the exact condition of each error, what is delivered and what is sent |
| `Gossip.Peers.Incoming` | cjdns-snode/src/peer.rs:134-148 | the accepting side greets and lists all hashes it knows |
| `Gossip.Peers.AddAnn` | cjdns-snode/src/peer.rs:112-126 | a new announcement is added and every accepted connection told of it, no other |
| `Gossip.ChunksNameAll` | cjdns-snode/src/peer.rs:141-148 | the initial INV messages list the known hashes in order, at most 128 each, none empty |
| `Gossip.RequestUnknownIssues` | cjdns-snode/src/peer.rs:272-282 | new requests carry distinct new numbers, all of them outstanding |
| `Gossip.StepKeeps` | cjdns-snode/src/peer.rs:228-298 | every step of either side keeps: outstanding is the disjoint union of requests and answers on the way |
| `Gossip.EveryRun` | cjdns-snode/src/peer.rs:134-175 | in every run neither side fails, no request completes twice, and outstanding requests are exactly those on the way |
| `Gossip.QuietMeansDone` | cjdns-snode/src/peer.rs:228-298 | when nothing is on the way, every request made has been answered |
| `GossipHistory.NewRequests` | cjdns-snode/src/peer.rs:272-282 | exactly the unknown hashes of a list are asked for, under numbers never used before, each for its own hash |
| `GossipHistory.StaysHonest` | cjdns-snode/src/peer.rs:228-298 | every step keeps: each request on the way asks what is recorded, each answer on the way is what the server held under that hash when it took the request |
| `GossipHistory.EveryDelivery` | cjdns-snode/src/peer.rs:228-298 | in every run, what completes a request is what the server held under the hash asked for when it took the request, nothing only if it held nothing |
| `GossipHistory.HeldIsDelivered` | cjdns-snode/src/peer.rs:255-262 | what the server holds from the start and never forgets is what every request for it gets |
| `GossipHistory.NothingIsMissed` | cjdns-snode/src/peer.rs:134-148 | when nothing is on the way, the client knew of or has been answered on everything that the server holds |
| `Routes.ComputeHop` | cjdns-snode/src/server/route.rs:170-231 | exactly when there is a hop, and that it uses the link announced in its direction, with the form the way back asks for |
| `Routes.ComputeHops` | cjdns-snode/src/server/route.rs:163-242 | succeeds exactly if all nodes are known and linked; hop by hop the announced link, the scheme of the node left, the form asked for by the hop before, and the label kept or widened |
| `Routes.HopBetweenIs` | cjdns-snode/src/server/route.rs:173-230 | the hop between two nodes, on their announced links alone |
| `Routes.HopsUpToIs` | cjdns-snode/src/server/route.rs:163-242 | the hops of a path, on the nodes and the path alone |
| `Routes.ComputeRoutingLabel` | cjdns-snode/src/server/route.rs:163-247 | unsplicing the label by the hop labels in order ends at the self-reference; succeeds exactly if the path is linked and its labels fit together |
| `Routes.HopMatchesIff` | cjdns-snode/src/server/route.rs:173-230 | exactly when a hop's label takes a form no lower than its way back |
| `Routes.HopMatchesWayBack` | cjdns-snode/src/server/route.rs:173-193 | it always does in the older variant, and between nodes of one scheme |
| `Routes.NewVariantCanMismatch` | cjdns-snode/src/server/route.rs:195-230 | along a concrete chain of three nodes, the first hop asks the second for form 1 and the newer variant sends it out in form 0 |
| `Routes.BuildOutward` | cjdns-snode/src/server/route.rs:108-136 | the links of one node: those announced by both ends, at the cost of the best of them |
| `Routes.BuildNodeGraph` | cjdns-snode/src/server/route.rs:103-142 | a graph over exactly the known nodes, with exactly the mutual links |
| `Routes.LinkCostIs` | cjdns-snode/src/server/route.rs:126-133 | a weight is the reciprocal of the greatest value among parallel links |
| `Routes.BetterCostsLess` | cjdns-snode/src/server/route.rs:126-133 | better links never cost more, but for links worth less than one without a value counts for |
| `Routes.Routing.ComputeRoute` | cjdns-snode/src/server/route.rs:144-161 | a cheapest path of the graph by announced links, with a label its hops use up; no path exactly if unreachable |
| `Routes.Routing.GetRouteImpl` | cjdns-snode/src/server/route.rs:81-101 | every answer, cached or fresh, is a cheapest path on the graph of the last rebuild, at most 3 seconds old, by links announced when it was computed, and its label is used up by its hops; a rebuild empties the cache, and a cached answer is given again |
| `Routes.GetRoute` | cjdns-snode/src/server/route.rs:65-79 | every answer's label is used up by its hops; only a node's route to itself has none |
| `Dispatching.StepKeepsValid` | cjdns-admin/src/conn/dispatch.rs:223-276 | every event keeps the tables consistent: a waiting slot has its own txid and no answer, a stream entry its own streamId |
| `Dispatching.AnsweredOnce` | cjdns-admin/src/conn/dispatch.rs:229-275 | in every run a request is answered at most once, by a message with its txid or the repeated-txid error |
| `Dispatching.ReplyGoesToItsRequest` | cjdns-admin/src/conn/dispatch.rs:234-247 | a reply reaches its own request and no other, and opens an empty stream if it names one |
| `Dispatching.RequestIsEntered` | cjdns-admin/src/conn/dispatch.rs:263-275 | a request with a free txid waits; one with a txid in use is refused and disturbs nothing |
| `Dispatching.RequestIsAnswered` | cjdns-admin/src/conn/dispatch.rs:229-275 | in every run, a request with a free txid is answered by the next reply with that txid while its receiver is there |
| `Dispatching.CleanupKeepsOpen` | cjdns-admin/src/conn/dispatch.rs:224-227 | exactly the requests and streams whose receivers are gone are removed |
| `Dispatching.UnroutableChangesNothing` | cjdns-admin/src/conn/dispatch.rs:248-260 | a message for nobody changes nothing, and an error opens no stream |
| `Dispatching.SubscriberReceives` | cjdns-admin/src/conn/dispatch.rs:248-257 | a subscriber receives, in order and without gaps, the stream's messages up to the first failed send, cleanup or replacement |
| `Dispatching.NothingAfterTheEnd` | cjdns-admin/src/conn/dispatch.rs:223-276 | and nothing after that |
| `Dispatching.Dispatcher.Cleanup` | cjdns-admin/src/conn/dispatch.rs:224-227 | drops exactly the closed slots and streams |
| `Dispatching.Dispatcher.DispatchMessage` | cjdns-admin/src/conn/dispatch.rs:229-261 | refines one step of the run, with the exact condition of each error |
| `Dispatching.Dispatcher.HandleRequest` | cjdns-admin/src/conn/dispatch.rs:263-275 | refines one step of the run |
| `Checksum.SumBeWords` | netchecksum/src/lib.rs:17-39 | the loop adds all little-endian words modulo 2^32 |
| `Checksum.FinalizeChecksum` | netchecksum/src/lib.rs:41-49 | folding ends and gives the byte-swapped complement of the sum modulo 65535 |
| `Checksum.ByteOrderIndependence` | netchecksum/src/lib.rs:13-16 | summing little-endian and swapping the result is the one's-complement sum of big-endian words |
| `Checksum.WrapIsHarmlessIff` | netchecksum/src/lib.rs:28 | lost carries change the result exactly unless their number is a multiple of 65535 |
| `Checksum.CksumRaw` | netchecksum/src/lib.rs:51-54 | equals the RFC 1071 checksum for up to 65537 words, and in general exactly under that condition |
| `Checksum.BoundIsTight` | netchecksum/src/lib.rs:3-9 | one word more, and a buffer of ones gets another checksum |

## Left out

- Sockets, websockets, tokio tasks, timeouts, the HTTP server and the command-line tools: handlers are atomic steps and channels are sequences.
- Signatures, hashes, key conversion, base32 and base64: a hash is a given value of an announcement.
- Floating-point bit tricks and the decay of link values (`link_state_update1`, `ls_value`): costs are reals with an abstract addition and reciprocal, and a link's value is a given number.
- The checks before an announcement reaches the acceptance part (decoding, meant for another supernode, clock skew, gossip about oneself) and the state hash in the reply.
- Servers.Server.HandleAnnounce: leaves out the link-state samples, which only change a link's value; nodes and links are values in a map, so readers that hold a node while it is replaced, and locks, are not captured; the INV sent to peers for a new hash is a step in `Gossip` instead. That every announcement a node stands on is offered holds only while announcements are new.
- Routes.Routing.GetRouteImpl: hops are those of the nodes at the time a route was computed, which need not be those of the rebuild; failures are not cached, as in the code.
- SchemeCodec.Deserialize: integers of the decoder are unbounded; reading before the first bit and forms without width, where the code panics, give the error `Panic`.
- Checksum.SumBeWords: the addition of a last odd byte wraps, as in a release build; a debug build would panic there. Big-endian hosts and `cksum_udp4` are not modelled.
- Messages.Message.Write: a buffer is a value, so aliasing between the caller's slice and the chunks is excluded, as it is by the language.
- BencodeIO.Parser.ReadStringWithByte: a length that a vector may have but memory cannot hold aborts the program; here it is the end of the input.
- JSON line numbers in errors, the configuration quirk fixers and the cleaning of configuration files.
- Dispatching.Dispatcher.DispatchMessage: takes the decoded message; reading txid, error and streamId out of a dictionary is not modelled. A stream's bound, its receiver and a slot's receiver are events of the run.
- Gossip.EveryRun: one connection between two supernodes, with the counter not wrapping; further connections of the connecting side appear as steps that learn and forget announcements or use up sequence numbers. Reconnection after an error is not modelled.
- `is_one_hop`, label printing, headers, control messages, TLV, varint, DNS seed records, the seeder, PNS and Ethereum calls: they would add only short codecs or wrappers.
