# Verification of libyimmo's data structures and protocol engines

A Dafny model of the parts of libyimmo where correctness depends on state kept across calls: an index
flattened into an array, a resumable WebSocket parser, a streaming UTF-8 validator, chains of buckets that the
socket takes piecemeal, a tree rebuilt from parser events, containers that live in a pool, and the framing of
HTTP responses. `dafny verify dfyconfig.toml` verifies all of it.

Code that works in place is modelled in place, with the source's own fields, pointers, arrays and loops
(`TrieNode`, `OffsetTrie`, `Session`, `Utf8State`, `Bucket`, `SendQueue`, `Document`, `Queue`, `Table`,
`Response`). Each method is specified by a function on values, and what the code is for is proved about those
functions. Pointer structures are described by ghost sequences of their nodes; most method specifications say
that a snapshot of all fields (`Now`, `Image`, `Cells`, `Abs`) becomes a function of the snapshot before.

| files | what they model |
|---|---|
| `Trie*.dfy` | the pointer trie, its preorder numbering, the flattened array, and lookup |
| `Utf8.dfy`, `Base64.dfy` | the UTF-8 validator against sections 3 and 4 of RFC 3629, and the encoder against section 4 of RFC 4648 |
| `WsMachine.dfy`, `WsUnmask.dfy`, `WsSession.dfy` | the WebSocket read side: a byte-at-a-time machine, and the session that refines it |
| `WsDecoder.dfy`, `WsRules.dfy`, `WsService.dfy`, `WsFraming.dfy` | a whole-stream decoder after sections 5.2 to 5.5 of RFC 6455, its rules in the numbers of the RFC, agreement with it, and the grammar of section 5.4 |
| `Buckets.dfy`, `Net.dfy` | bucket chains and partial sends |
| `WsHeader.dfy`, `WsSend.dfy`, `WsEndpoint.dfy` | the WebSocket write side, and both sides together |
| `Yaml*.dfy` | the builder of YAML trees, its storage, and key-path lookup |
| `Queue.dfy`, `HdrTable.dfy` | the pooled containers |
| `ChunkSpec.dfy`, `HttpResponse.dfy`, `HttpWrite.dfy` | the framing of HTTP response bodies after section 4.1 of RFC 7230, the write callback, and whole responses |
| `Bytes.dfy`, `Common.dfy` | bytes, exclusive-or, concatenation, status codes |

`sendmsg` may fail or take any nonempty prefix of what it is offered; the user's WebSocket callback may be any
function of everything that has happened before; addresses are arbitrary. Bit operations are written as
division and remainder, exclusive-or by recursion on bits. Functions that both the code and its specification use
have a meaning of their own, in terms that do not name them: `Bytes.XorMeaning`, `YamlSpec.CStrMeaning`,
`YamlLookup.KeyExactly` and `LookupExactly`, `HttpWrite.StartedExactly` and `ChunkedExactly`, and all of `WsRules`.

## Findings

Where the natural property is false of the code, the code is modelled as it is. The failing input and the exact
condition are proved.

- An empty final continuation leaves `msg_type` set, because it is cleared only where payload is handled
  (src/protocol/ws/ymo_ws_parse.c:369-377). The bytes `01 80 k1 80 80 k2 81` are a complete text message and the
  beginning of another, and fail with status 1002 (`WsFraming.EmptyEndFails`). For accepted frames, `msg_type` keeps
  in step with section 5.4 of RFC 6455 exactly if there is no such frame (`WsFraming.InStepUnlessEmpty`).
- A bucket without data ends the send loop when it comes to the head of the chain (src/core/ymo_net.c:163), and
  the caller lets go of the rest. Some run of partial sends loses bytes exactly if such a bucket stands between
  unsent bytes (`Net.StrandsExactlyAtGaps`); the frame behind an echoed Ping without data is one case
  (`WsSend.EmptyPayloadCanStrand`).
- The flattening loop of the trie does not advance at a child in slot 0xFF (src/core/ymo_trie.c:188). It advances
  past every child exactly if slot 0xFF is free (`TrieFlat.LoopAdvances`, with the counter of
  `Trie.PointerTrie.FindRight`), and at every node exactly if no key has a byte 0xFF (`Trie.LoopsWithoutFF`).
- A jump to a next sibling of more than 255 cells makes flattening fail, and the failure is dropped
  (src/core/ymo_trie.c:220). The array then answers some key as absent; it answers every string as the key set does
  exactly if every jump fits (`Trie.Build`). A key of more than 255 bytes and a key whose first byte comes after its
  first byte are such a set (`Trie.LongKeyHides`).
- Case folding also moves the bytes 0xC1 to 0xDA (`TrieSpec.ToLowerMeaning`).
- Storing a YAML scalar moves `end` by its length and two, but takes only its length and one off `remain`
  (src/core/ymo_yaml.c:365-369). Four one-byte scalars in a nine-byte file are allowed by `remain` and do not
  fit the ten-byte buffer (`YamlSpec.FourLettersSpill`). Which inputs go beyond the buffer is
  `YamlSpec.StoredExactly`.
- An empty body bucket is a terminal chunk by its own framing: framed parts decode to their data exactly if none
  is empty (`ChunkSpec.FramedDecodes`).
- A write with nothing to send fails with EBADMSG (src/core/ymo_net.c:120-127), and the server closes the connection
  (src/core/ymo_server.c:535-537). A write of an HTTP response fails in this way, whatever the socket does, if the
  response has been started, nothing of it is to be queued and the send buffer is empty; otherwise all of it can be
  sent, and the write fails only if the socket does (`HttpWrite.Write`, `Net.SendableExactly`). A started response
  that ends has nothing to be queued exactly if the application has set its length or encoding and all its data has
  been handed over (`HttpWrite.FinishIdle`); one that has not ended, exactly if all data added so far has been
  (`HttpWrite.IdleBeforeEnd`). The failing input is a response with its own length, one part of data, a write, and the
  end of the response after all of it has gone out: the whole message is on the wire, the response is never reported
  as sent, and the next write event closes the connection (`HttpWrite.OwnLengthIdle`, `HttpWrite.EndsTooLate`).
- An application's frame without a payload bucket leaves `send_tail` null while the queue is not empty
  (src/protocol/ws/ymo_ws_session.c:171-179); `WsSend.SendQueue.SendNoCheck` says so exactly.

## Model

| member | source | states |
|---|---|---|
| Trie.FindAmong | src/core/ymo_trie.c:60-288 | for any admissible keys, lookup in the flattened array succeeds exactly for strings whose folded form is a folded key, and the id is that key's dictionary rank among them |
| Trie.Build | src/core/ymo_trie.c:60-288 | for any admissible keys, the array that is built answers every string as the key set does, dictionary rank included, exactly if every jump to a next sibling fits |
| Trie.LongKeyHides | src/core/ymo_trie.c:169-180 | of two keys, one with a first byte before the other's, all jumps fit exactly if the first has at most 255 bytes |
| Trie.LoopsWithoutFF | src/core/ymo_trie.c:160-188 | the flattening loop moves on at every node exactly if no key has a byte 0xFF |
| Trie.PointerTrie.AddString | src/core/ymo_trie.c:60-81 | adds exactly the folded key to the trie's set of keys, keeps node links, paths and node count right, and creates only the nodes that were missing |
| Trie.PointerTrie.Annotate | src/core/ymo_trie.c:104-122 | numbers everything below a node from the two counters on, each child after everything in the slots before it, and changes nothing elsewhere |
| Trie.PointerTrie.CreateOffsetTrie | src/core/ymo_trie.c:194-227 | the nodes other than the root are numbered one to one from 0 to no_nodes - 1, in preorder; the array holds the forest if every jump fits, and otherwise leads to a cell with a next sibling and no jump to it; all jumps stay within it |
| Trie.PointerTrie.Flatten | src/core/ymo_trie.c:125-191 | fills in exactly the cells of a node's subtree, terminates, fails exactly if some jump to a next sibling exceeds 255, and then leaves a cell with a next sibling and no jump |
| Trie.PointerTrie.FindRight | src/core/ymo_trie.c:160-188 | finds the next child and leaves the loop counter one past it, or one past slot 255 if there is none |
| Trie.OffsetTrie.GetId | src/core/ymo_trie.c:248-288 | the walk, always forward and within bounds, gives what the cells say for the folded string, in complete and incomplete arrays |
| TrieFlat.LookIsFind | src/core/ymo_trie.c:248-288 | in a complete array that is what a walk over the forest finds |
| TrieFlat.BrokenHides | src/core/ymo_trie.c:175-180 | in one where a jump is missing, some key is not found |
| TrieNumbering.NumberedInPreorder | src/core/ymo_trie.c:104-122 | numbers written as annotation writes them are the places of the nodes in preorder, and these are a bijection |
| TrieNumbering.FirstAndNext | src/core/ymo_trie.c:104-122 | a first child is numbered next after its parent, and a next sibling after the whole subtree before it |
| TrieFlat.FindIsRank | src/core/ymo_trie.c:248-288 | a walk over the forest answers like the key set, with the dictionary rank |
| TrieFlat.RankFits | src/core/ymo_trie.c:155-158 | with at most 256 keys no rank is cut off by the eight-bit id |
| TrieFlat.LoopAdvances | src/core/ymo_trie.c:160-188 | the flattening loop moves past every child exactly if slot 0xFF is free |
| TrieSpec.ToLowerMeaning | include/ymo_util.h:161-165 | which bytes the branch-free fold moves, and that folding twice changes nothing more |
| Utf8.CheckChunks | src/core/ymo_util.c:379-535 | over any split into calls, accepted with done exactly the UTF-8 texts, without it exactly their prefixes |
| Utf8.Utf8State.Check | src/core/ymo_util.c:379-535 | one call: the verdict and the pending bytes are those of the byte automaton, ASCII fast path included |
| Utf8.TextIsScalars | src/core/ymo_util.c:374-535 | the grammar of RFC 3629 section 4 generates exactly the encodings of scalar-value sequences of section 3 |
| Utf8.RunMeaning | src/core/ymo_util.c:379-535 | the byte automaton accepts exactly the texts, and runs on exactly their prefixes |
| Base64.Encode | src/core/ymo_util.c:329-358 | writes the encoding and a NUL, and nothing else |
| Base64.DecodeEncoded | src/core/ymo_util.c:329-358 | an RFC 4648 section 4 decoder recovers every input |
| Base64.TestVectors | src/core/ymo_util.c:329-358 | three test vectors of section 10 of RFC 4648, padding included, and the last two letters of the alphabet |
| Base64.EncodedLength | src/core/ymo_util.c:329-358 | the encoding has 4 * ceil(len / 3) characters |
| WsService.Serve | src/protocol/ws/ymo_proto_ws.c:247-379 | on a stream that is clean up to its first error or Close, however cut into reads, deliveries, queued frames and closing are those of a whole-stream decoder |
| WsService.DeliveredTextIsUtf8 | src/protocol/ws/ymo_ws_parse.c:330-399 | every finished text message delivered is UTF-8, and an unfinished one a prefix of UTF-8 |
| WsService.DecodedCloseIsLast | src/protocol/ws/ymo_proto_ws.c:626-641 | the decoder queues one Close at most, and nothing after it |
| WsDecoder.Agrees | src/protocol/ws/ymo_proto_ws.c:247-379 | the byte-at-a-time machine reaches the decoder's outcome on every stream that is clean up to its first error or Close |
| WsDecoder.HeadSteps | src/protocol/ws/ymo_ws_parse.c:56-265 | header bytes, whatever their number, take the machine to the verdict of reading the header at once |
| WsRules.HeadExactly | src/protocol/ws/ymo_ws_parse.c:56-265 | which headers are refused and with which status, and the fields of the others, in terms of the bytes of the stream |
| WsRules.RefusalExactly | src/protocol/ws/ymo_proto_ws.c:817-868 | a refused header ends the session with 1002, or 1011 if the frame is too long |
| WsRules.DataExactly | src/protocol/ws/ymo_proto_ws.c:314-376 | a data frame: 1007 exactly if no text can go on or end like this, 1002 if the callback fails, and otherwise what is delivered, queued and kept of the message |
| WsRules.CutExactly | src/protocol/ws/ymo_ws_parse.c:330-399 | a frame cut short does nothing, unless what is there can be no text |
| WsRules.PingExactly | src/protocol/ws/ymo_proto_ws.c:581-602 | a Ping is echoed as a Pong with its payload, and decoding goes on |
| WsRules.CloseExactly | src/protocol/ws/ymo_proto_ws.c:674-749 | a Close of a connected session, with its status code as a number: echoed exactly if a peer may send that code, and otherwise answered with 1002 |
| WsRules.AcceptedExactly | src/protocol/ws/ymo_ws_session.c:185-223 | of the frames the callback sends, those with one of the six opcodes are queued, in order |
| WsMachine.PayloadCases | src/protocol/ws/ymo_ws_parse.c:330-401 | payload bytes one at a time amount to the same bytes at once: refused, going on, or complete |
| WsSession.Session.ParseOp | src/protocol/ws/ymo_ws_parse.c:56-124 | the verdict on byte 0 and the new message type are the machine's |
| WsSession.Session.ParseLen | src/protocol/ws/ymo_ws_parse.c:128-173 | the verdict on byte 1 and where parsing goes on are the machine's |
| WsSession.Session.ParseLenExt | src/protocol/ws/ymo_ws_parse.c:177-204 | extended length bytes, some or all, leave the machine's state or its error |
| WsSession.Session.ParseMaskingKey | src/protocol/ws/ymo_ws_parse.c:208-265 | key bytes, some or all, leave the machine's state, dispatching a frame without payload |
| WsSession.Session.ParsePayload | src/protocol/ws/ymo_ws_parse.c:330-401 | payload bytes, some or all, are unmasked, checked and dispatched as the machine does |
| WsSession.Session.CompleteFrame | src/protocol/ws/ymo_proto_ws.c:314-376 | a complete frame is delivered, echoed, let go of or refused as the machine does, and the order of closing is kept |
| WsSession.Session.GetCloseReason | src/protocol/ws/ymo_proto_ws.c:644-669 | the status code is the first two bytes of the list's contents, however they lie in its buckets |
| WsSession.Session.HandleClientClose | src/protocol/ws/ymo_proto_ws.c:700-749 | a Close that answers our own queues nothing; any other is echoed exactly if it has no status code or one of 1000 to 1003, 1007 to 1011, or 3000 and above, and otherwise is answered with a Close of payload 3, 234 in state ERROR |
| WsMachine.CloseAnswered | src/protocol/ws/ymo_proto_ws.c:700-749 | the same of the machine, for a payload cut into any buckets |
| WsSession.Session.Send | src/protocol/ws/ymo_ws_session.c:185-223 | only a connected session queues what the application sends, exactly the frames with opcode 0, 1, 2, 8, 9 or 10; the status says why another does not |
| WsSession.Session.Read | src/protocol/ws/ymo_proto_ws.c:247-379 | one call of the read callback consumes bytes as the machine does and keeps the session valid |
| WsSession.Session.ReceiveAll | src/core/ymo_server.c:469-491 | over any reads from the socket the session is at the machine's state for all the bytes |
| WsSession.Session.Converse | src/protocol/ws/ymo_proto_ws.c:626-641 | over any run of reads and application frames, the protocol's Close is the last frame queued, and nothing is delivered once the session has left CONNECTED |
| WsSession.Session.AllocFrame | src/protocol/ws/ymo_ws_session.c:52-87 | the frame buffer has room for the frame, or the frame is too big |
| WsUnmask.UnmaskInto | src/protocol/ws/ymo_ws_parse.c:287-326 | for any alignment, leading bytes, words and trailing bytes write, place by place, the byte whose k-th bit is 1 exactly if those of the byte read and of its key byte differ; mask_mod stays congruent across eight-bit wrap-around, and nothing else is written |
| Bytes.XorMeaning | src/protocol/ws/ymo_ws_parse.c:304-305 | each of the eight bits of the result, read by division, is 1 exactly if those of the operands differ |
| WsUnmask.WordXor | src/protocol/ws/ymo_ws_parse.c:268-278 | a 32-bit exclusive-or is four byte ones |
| WsMachine.UnmaskBits | src/protocol/ws/ymo_ws_parse.c:287-326 | the same of a payload unmasked from any place of the key on |
| WsRules.HelloUnmasked | src/protocol/ws/ymo_ws_parse.c:287-326 | the masked frame of section 5.7 of RFC 6455 is "Hello" |
| WsRules.PayloadBits | src/protocol/ws/ymo_ws_parse.c:287-326 | the payload of the frame at the start of a stream, bit by bit |
| WsFraming.AcceptsMessages | src/protocol/ws/ymo_ws_parse.c:69-118 | without empty final continuations, the accepted frame sequences are exactly those of RFC 6455 section 5.4 |
| WsFraming.InStepUnlessEmpty | src/protocol/ws/ymo_ws_parse.c:361-399 | for accepted frames, msg_type is in step with section 5.4 throughout exactly if no final continuation is empty |
| WsFraming.EmptyEndFails | src/protocol/ws/ymo_ws_parse.c:369-377 | the failing input, byte by byte: a well framed stream that ends with status 1002 |
| WsFraming.EmptyEndBlocks | src/protocol/ws/ymo_ws_parse.c:369-377 | its opcodes and FIN bits are well framed, and refused |
| WsFraming.OpenSessionIsFramed | src/protocol/ws/ymo_ws_parse.c:361-399 | an open session that has read whole clean frames has read well framed messages, msg_type is nonzero exactly while one is unfinished, and when one is to start the validator has no pending bytes |
| WsHeader.GenMsgHdr | src/protocol/ws/ymo_ws_session.c:111-156 | writes the header for every opcode byte and length |
| WsHeader.FrameReadsBack | src/protocol/ws/ymo_ws_session.c:111-156 | a generated header, masked with any key, parses back to the same flags and payload, or is refused for its length alone |
| WsHeader.LengthReadsBack | src/protocol/ws/ymo_ws_session.c:111-156 | the length fields of every generated header read back, beyond the frame limit too |
| WsHeader.HeaderIsShortest | src/protocol/ws/ymo_ws_session.c:111-156 | no header that says the same length is shorter |
| WsHeader.SentFrameIsDecoded | src/protocol/ws/ymo_ws_session.c:111-156 | the decoder takes a sent frame as one complete frame and goes on after it |
| WsSend.Drive | src/protocol/ws/ymo_ws_session.c:159-182 | over every run of sends and writable events with any partial sends, bytes on the wire and in the chain are the queued frames in order, and send_tail is the last bucket, or both ends are null |
| WsSend.SendQueue.SendNoCheck | src/protocol/ws/ymo_ws_session.c:159-182 | queues the frame's header and payload after what is there; the tail is right exactly if there is a payload bucket |
| WsSend.SendQueue.Send | src/protocol/ws/ymo_ws_session.c:185-223 | the same for the application, or a status by the session's state, and nothing changed |
| WsSend.SendQueue.Write | src/protocol/ws/ymo_proto_ws.c:385-417 | success lets go of the queue; what was lost is stated, and is nothing if no bucket is empty |
| WsSend.EmptyPayloadCanStrand | src/protocol/ws/ymo_proto_ws.c:584-602 | a frame behind an empty payload bucket can be lost |
| WsEndpoint.Exchange | src/protocol/ws/ymo_ws_session.c:159-223 | over every run of reads, application frames and writable events with any partial sends, if no frame queued is without payload, bytes on the wire and in the send queue are the frames of the session's log, in order |
| WsEndpoint.Answer | src/protocol/ws/ymo_proto_ws.c:247-417 | from bytes in to bytes out: on a clean stream these are the frames that decoding the whole stream at once says are sent |
| Buckets.Create | src/core/ymo_bucket.c:42-65 | the new bucket comes after prev and before what followed it, or before next |
| Buckets.LenAll | src/core/ymo_bucket.c:287-295 | the sum of all bytes of the chain, sent or not |
| Buckets.Tail | src/core/ymo_bucket.c:298-304 | the last bucket, or null |
| Buckets.Append | src/core/ymo_bucket.c:307-315 | the second chain goes after the end of the first; the result is the second one's last bucket |
| Net.SendBuckets | src/core/ymo_net.c:64-171 | for every chain and every results of sendmsg, bytes sent and bytes left make up the unsent bytes, the loop ends, with no empty bucket OKAY means an empty chain, and an error is EBADMSG if nothing was offered and the socket's otherwise |
| Net.SendOnce | src/core/ymo_net.c:70-162 | one call of sendmsg puts a prefix of the unsent bytes on the wire, and exactly that leaves the chain |
| Net.Gather | src/core/ymo_net.c:83-116 | the I/O vector holds the unsent bytes of the longest run of buckets that fills at most 32 places: it ends with the chain or with 32 places filled |
| Net.WindowExactly | src/core/ymo_net.c:83-116 | a vector ends with the chain or when all its places are filled |
| Net.AccountFor | src/core/ymo_net.c:135-162 | letting go of n bytes frees whole buckets and marks part of the next |
| Net.AccountConserves | src/core/ymo_net.c:135-162 | after accounting for n bytes, the unsent bytes are those before without the first n |
| Net.StrandsExactlyAtGaps | src/core/ymo_net.c:162-170 | some run of partial sends ends without error and with bytes unsent exactly if an empty bucket stands between unsent bytes |
| Net.SendableExactly | src/core/ymo_net.c:118-171 | a chain whose buckets all have bytes left can be sent whole, by some run of sends, exactly if it is not empty |
| Yaml.LoadAndGet | src/core/ymo_yaml.c:485-570 | for every one-document stream whose scalars stay in the buffer, loading succeeds exactly if the root is a collection and remain suffices, the pointers and the table are the document, and a key path finds what the document has there: without NUL bytes, the text of the value that following the first key equal but for ASCII case leads to, and nothing exactly if it leads nowhere |
| Yaml.Document.CreateScalar | src/core/ymo_yaml.c:359-416 | a scalar's node holds the longest beginning of the text without NUL; the storage it takes and the cursor are those of the table |
| YamlSpec.CStrMeaning | src/core/ymo_yaml.c:365-368 | what is stored of a text is its longest beginning without NUL, and all of it if it has none |
| Yaml.Document.CreateCollection | src/core/ymo_yaml.c:417-448 | a collection's node becomes its parent's last child and the cursor |
| Yaml.Document.PopParent | src/core/ymo_yaml.c:541-559 | the end of a collection goes up past key scalars |
| Yaml.Document.Parse | src/core/ymo_yaml.c:485-570 | the event loop follows the table builder to its status |
| Yaml.Document.ObjectGet | src/core/ymo_yaml.c:251-282 | the value of the first key of the length of the term whose bytes are the same or an ASCII letter in two cases; null exactly if there is none |
| Yaml.Document.Vget | src/core/ymo_yaml.c:227-248 | key after key from the root, as in the table |
| YamlSpec.StreamParsed | src/core/ymo_yaml.c:485-570 | building from a document's events lays the document out whole, or gives the error its storage or its root calls for |
| YamlSpec.StoredExactly | src/core/ymo_yaml.c:365-369 | all scalars are stored exactly if remain allows for them and each fits where it goes; one goes beyond the buffer exactly if one that does not fit is taken |
| YamlSpec.FourLettersSpill | src/core/ymo_yaml.c:365-369 | the failing input: four letters in nine bytes of file |
| YamlLookup.LayoutRepresents | src/core/ymo_yaml.c:343-465 | a document's layout represents the document |
| YamlLookup.RepresentsOne | src/core/ymo_yaml.c:343-465 | a table represents one document only, up to what C strings can hold |
| YamlLookup.RepresentsOnly | src/core/ymo_yaml.c:343-465 | of documents without NUL bytes, a table represents one only |
| YamlLookup.WalkAgrees | src/core/ymo_yaml.c:227-282 | walking a key path in a table that represents a document finds what the document has there |
| YamlLookup.LookupExactly | src/core/ymo_yaml.c:251-282 | in a document: the value of a pair is found exactly if its key is the first of the length of the term with the same bytes but for ASCII case, and nothing exactly if no key is like that |
| YamlLookup.KeyExactly | src/core/ymo_yaml.c:251-282 | the same of the keys of a mapping in a table |
| YamlLookup.WalkExactly | src/core/ymo_yaml.c:227-248 | a path finds a value exactly if following such keys leads to it |
| Queues.Drive | src/core/ymo_queue.c:133-319 | over every run of appends, prepends, pops and removals on a pool of at least two nodes, the queue holds what a sequence would, its count is right, and each pool node is free or in the list |
| Queues.LinksAreInverse | src/core/ymo_queue.c:133-319 | in every valid queue next and prev are inverse, only the ends lead to null, and free and listed pool nodes make up the pool |
| Queues.Queue.PoolInit | src/core/ymo_queue.c:93-115 | the pool becomes the stack of free nodes, in order |
| Queues.Queue.Append | src/core/ymo_queue.c:133-153 | one more item at the back |
| Queues.Queue.Prepend | src/core/ymo_queue.c:167-187 | one more item at the front |
| Queues.Queue.PopFront | src/core/ymo_queue.c:190-210 | the first item, or null from an empty queue |
| Queues.Queue.PopBack | src/core/ymo_queue.c:213-233 | the last item, or null from an empty queue |
| Queues.Queue.Remove | src/core/ymo_queue.c:283-319 | a member goes and the others keep their order; null is refused |
| Queues.Queue.CreateNode | src/core/ymo_queue.c:48-61 | a node in neither list, from the stack while it lasts |
| Queues.Queue.DeleteNode | src/core/ymo_queue.c:29-45 | a pool node goes back on the stack, another is let go of |
| HdrTable.Drive | src/protocol/http/ymo_http_hdr_table.c:111-446 | over every run of inserts and clears, the table maps each id to its latest entry, and no pool node is lost |
| HdrTable.Table.InsertPrecompute | src/protocol/http/ymo_http_hdr_table.c:200-224 | the id maps to the new entry, and every other id to what it did |
| HdrTable.Table.InsertFirst | src/protocol/http/ymo_http_hdr_table.c:174-197 | the same for an id that is not in the table |
| HdrTable.Table.GetId | src/protocol/http/ymo_http_hdr_table.c:352-374 | the value of the id's latest entry, or null |
| HdrTable.Table.Clear | src/protocol/http/ymo_http_hdr_table.c:377-392 | no id maps to anything, and pool nodes are free again |
| HdrTable.Table.List | src/protocol/http/ymo_http_hdr_table.c:395-446 | iteration ends and lists exactly the map, each id once |
| HdrTable.Table.Init | src/protocol/http/ymo_http_hdr_table.c:111-120 | a zeroed table becomes an empty one with its whole pool free |
| HdrTable.Table.NodeCreate | src/protocol/http/ymo_http_hdr_table.c:123-142 | a node in no list, from the pool while it lasts, and no id changed |
| HdrTable.Table.NodeFree | src/protocol/http/ymo_http_hdr_table.c:145-164 | a pool node becomes free, a heap node is let go of |
| HttpWrite.Drive | src/protocol/http/ymo_proto_http.c:664-733 | over every run of body appends, ready, finish and writable events, up to the closing of the connection, bytes on the wire and in the chain are the message so far, and from a response said to be done the client gets all the data appended |
| HttpWrite.WholeMessage | src/protocol/http/ymo_proto_http.c:702-728 | a whole chunked body decodes under RFC 7230 section 4.1 to the appended data with one terminal chunk, at the end; an unchunked one is that data, and its Content-Length, if the server sets it, is its length |
| HttpWrite.PartialMessage | src/protocol/http/ymo_proto_http.c:702-728 | a chunked body under way decodes to a beginning of the appended data, unended |
| HttpWrite.WrittenWhole | src/protocol/http/ymo_proto_http.c:664-728 | once the response is complete, one write event queues all that is missing |
| HttpWrite.EndedBeforeStart | src/protocol/http/ymo_http_response.c:329-385 | a response complete before it starts is not chunked, and declares the length of all its data |
| HttpWrite.RunKept | src/protocol/http/ymo_http_response.c:211-229 | in every run the response holds exactly the appended data, queued or not, and its flags agree |
| HttpWrite.ReadyExactly | src/protocol/http/ymo_http_response.c:211-319 | a response is ready exactly if the application has said so, has ended it, or has added data for a client that supports chunking |
| HttpWrite.StartedExactly | src/protocol/http/ymo_http_response.c:329-385 | a response has started exactly if a write has come while it was ready and either chunking was supported, a length or encoding set, or all of it there |
| HttpWrite.ChunkedExactly | src/protocol/http/ymo_http_response.c:370-378 | a response is chunked exactly if its client supports that, neither length nor encoding is set, and such a write has come before its end |
| HttpWrite.GoesOut | src/protocol/http/ymo_proto_http.c:664-733 | a write hands over all data added so far if something may go out, and changes nothing if not |
| HttpWrite.StreamsAsAdded | src/protocol/http/ymo_http_response.c:370-378 | for a client that supports chunking and without length or encoding set, data added before the end goes out chunked with the next write |
| HttpWrite.Write | src/protocol/http/ymo_proto_http.c:664-733 | one write event queues headers, body and terminal chunk when each is due; it fails with EBADMSG if nothing is to be queued or sent, and otherwise all can be sent and only the socket makes it fail; done means all on the wire |
| HttpWrite.WriteEvent | src/core/ymo_server.c:523-540 | the connection is closed if nothing is to be queued or sent, and otherwise only for an error of the socket other than a full buffer; a complete response is done exactly if all of it has gone out |
| HttpWrite.FinishIdle | src/protocol/http/ymo_http_response.c:315-319 | ending a response leaves nothing to be queued exactly if it has been started, the application has set its length or encoding, and all data has been handed over |
| HttpWrite.IdleBeforeEnd | src/protocol/http/ymo_http_response.c:301-306 | before its end, a response has nothing to be queued exactly if it has been started and all data added has been handed over |
| HttpWrite.OwnLengthIdle | src/protocol/http/ymo_http_response.c:329-341 | the failing input: with its own length, data, a write and the end of the response may happen, and leave nothing to be queued |
| HttpWrite.EndsTooLate | src/protocol/http/ymo_proto_http.c:719-728 | from there, with all of it on the wire, no further events report the response as sent, and a write event closes the connection |
| HttpWrite.Continue | src/core/ymo_server.c:523-540 | events one after the other up to the closing of the connection; a response that has ended with nothing to queue or send is never done, and a write event closes its connection |
| HttpResponse.Response.BodyAppend | src/protocol/http/ymo_http_response.c:211-229 | buckets go after all of the body, found from its first bucket |
| HttpResponse.Response.ShouldBufferBody | src/protocol/http/ymo_http_response.c:329-385 | the body waits exactly if the application has set neither length nor encoding, the response is incomplete and the client does not support chunking; otherwise the framing is settled, and it is chunked exactly if neither is set and it is incomplete |
| HttpResponse.Response.TakeBody | src/protocol/http/ymo_http_response.c:502-543 | the body is handed over whole, framed bucket by bucket if chunked |
| HttpResponse.FrameAll | src/protocol/http/ymo_http_response.c:514-534 | the loop links a size line before and an end of line after every bucket, in order |
| HttpResponse.FramedUnsent | src/protocol/http/ymo_http_response.c:514-534 | the bytes of the framed chain are the chunks of its buckets |
| ChunkSpec.FramedDecodes | src/protocol/http/ymo_http_response.c:514-534 | framed parts with a terminal chunk decode to their data, nothing left over, exactly if no part is empty |
| ChunkSpec.ChunkOf26 | src/protocol/http/ymo_http_response.c:514-534 | a chunk of 26 bytes in characters: "1a", the data, and a CRLF after each |
| ChunkSpec.SizeLineFits | src/protocol/http/ymo_http_response.c:521-522 | a size line fits its buffer exactly for buckets of at most 65535 bytes |

## Left out

- Trie.FindAmong: makes no claim for keys with a byte 0xFF, on which the flattening loop does not advance; key sets
  with a jump of more than 255 cells are `Trie.Build`'s.
- WsService.Serve: covers streams without an empty Pong, an empty final continuation or a control frame with payload
  inside an unfinished text message, up to the first error or Close.
- WsSession.Session.Converse: after an empty Pong it does not promise that the Close is last, because the Pong's
  bucket is still on the receive list and is echoed with the next frame.
- WsHeader.FrameReadsBack: speaks of the legal opcodes in the given state; control frames of more than 125 bytes
  are generated and not read back.
- WsSend.Drive: payloads are made of at least one bucket, none of them empty, as needed for the tail and for
  sending everything.
- Yaml.LoadAndGet: says nothing about a document one of whose scalars is written beyond the buffer.
- Yaml.Document.CreateScalar: scalars are values; their bytes in the buffer are modelled by where they go and how
  many they are, not by the buffer's contents.
- HttpWrite.Drive: body buckets are not empty, those that are framed hold at most 65535 bytes, and the application
  adds and ends nothing after finishing; the serialized status line and headers are a parameter, and a write event may
  come at any time, whether the code has asked for one or not.
- Net.SendBuckets: the sendfile and TLS paths are not part of this model.
- WsEndpoint.Exchange: makes no claim once a frame without payload has been queued, and payloads are single buckets;
  what a read has queued goes into the send queue at the end of that read, as nothing is written meanwhile.
- Failed allocations, logging, timers, connection shutdown and the transmit watcher, except for the flags they set.
- HTTP request parsing, the dispatch of requests, header serialization and the Upgrade handshake.
- Message buffering in front of the user's WebSocket callback (`ws_buffer_msg`).
- Value concatenation in the header table, peeking at, finding in and joining queues, and freeing of containers.
- YAML aliases, mappings with keys that are not scalars, streams of several documents, number conversion and printing.
- The vectorised case folding functions, the block allocator, MQTT and the WSGI server.
