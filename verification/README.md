# libre protocol components: a verified model

sipperf carries its own copy of the libre protocol library. This project models the parts of libre that hold its
protocol logic and proves properties of the model with Dafny 4.11. `dafny verify dfyconfig.toml` checks all of it.

What is modelled, by module:

- Base containers: memory buffers (`MemoryBuffer`), hash buckets (`HashTable`), the doubly linked list and its sort
  on real `prev` and `next` links (`LinkedList`, against the sort functions of `StableSorting`), ordered
  dictionaries (`OrderedDictionary`).
- Printers and parsers: JSON (`JsonText`, `JsonNumber`, `Json`, `JsonCodec`), BFCP attribute trees and messages
  (`BfcpWire`, `BfcpCodec`), DNS names with compression (`DnsName`, `DnsNameCodec`), IPv4 and IPv6 addresses
  (`InetText`, `InetCodec`), integers (`NumberText`), RTCP packets (`RtcpWire`, `RtcpCodec`).
- ICE: priorities (`IcePriority`), roles (`IceRoles`), the lists and what every step keeps (`IceLists`), forming and
  pruning the check list (`IceForm`), the whole state machine of one media stream (`Ice`).
- Media: the jitter buffer (`JitterBuffer`), RTP receiver statistics (`RtpSource`), the RTCP session
  (`RtcpSession`).
- Streaming hashes: `BlockHash`, `Md5`, `Sha1`.
- Protocol runs: the BFCP client queue (`BfcpClient`), DNS over TCP (`DnsTcp`), SDP format alignment (`SdpAlign`),
  the NAT binding lifetime search (`NatLifetime`), sorting of DNS records (`DnsRecordList`).

Where a file of the library works step by step, the model is a class or a loop with the same steps, proved against
a function or predicate; the properties are proved about that. Sends, clocks, random choices and calls into code
outside the model are nondeterministic choices or parameters.

What the code relies on, and the contracts require:

- A jitter buffer that packets are put into has room for at least one (`jbuf_alloc` accepts zero).
- BFCP attributes fit their one-byte length.
- DNS labels have 1 to 63 bytes and names at most 255 characters, a dot at the end not counted.
- ICE component ids start at 1 and do not repeat (`icem_comp_add` refuses others).
- Callbacks do not call back into the component; allocation does not fail.
- One append to MD5 has at most 2^31 - 65 bytes: the byte count and its sum with the block offset are `int`.

Where the code differs from what its documentation or its standard says:

- SHA-1 counts one carry too many for an update of 2^32 bits or more whose low words do not carry
  (`Sha1.SpuriousIff`, with an example in `Sha1.SpuriousExample`).
- `inet_pton6` says that `::` in a full address is ignored; the groups behind it are in fact cleared
  (`InetText.FullAddressWithColons`).
- A pair priority wraps when both candidate priorities are 2^32 - 1 (`IcePriority.PairPrioWraps`), and pairs can be
  ordered otherwise than by their smaller candidate priority once the larger one is 2^31 or more
  (`IcePriority.PairPrioOrderIff`, with an example in `IcePriority.OvertakesExample`).
- The lifetime search waits for a number of milliseconds cut to 32 bits, so that a probe of 4294968 seconds or more can
  succeed against a shorter lifetime: min may exceed the lifetime, and the search may never settle, or by accident
  (`NatLifetime.WorksIff`, `NatLifetime.SettlesIff`; inputs in `NatLifetime.WaitCutShort`,
  `NatLifetime.NeverSettlesExample`, `NatLifetime.AccidentExample`, `NatLifetime.DoublingOverflows` and
  `NatLifetime.SumOverflows`). With a first interval up to 4294967 seconds it works exactly when the first doubling past
  the lifetime is no longer than that (`NatLifetime.ShortFirstInterval`).
- A jitter buffer can accept a duplicate when it spans a whole cycle of sequence numbers, and when it is full: it
  throws its oldest packet away before it searches, even when it then refuses the new one as a duplicate
  (`JitterBuffer.AllDuplicatesKnownIff`, `JitterBuffer.RefusedIff`; runs in `JitterBuffer.WideBufferTakesDuplicate` and
  `JitterBuffer.FullBufferTakesDuplicate`).
- `candpair_set_states` can let several pairs of one foundation wait, where its comment and section 5.7.4 of RFC 5245
  want one (`IceForm.OnePerFoundationIff`, with an example in `IceForm.TwoOfOneComponent`).
- A request in our own role switches whichever role we have when our tie-breaker is at least the peer's, and a conflict
  answer always switches, where sections 7.2.1.1 and 7.1.3.1 of RFC 5245 tell the roles apart: two agents that ask at
  the same time do not get out of a conflict unless an answer overtakes a request (`IceRoles.CrossedIff`,
  `IceRoles.ConflictLasts`); by the standard's rules they do (`IceRoles.CrossedByRfcIff`).
- A failed ICE pair that is made valid stays failed in the valid list (`Ice.Icem.MakeValid`).
- The size test of `dns_dname_decode` lets one case pass, a label behind a text of 255 characters; the model has it as
  an outcome of its own, `Overrun` (`DnsName.DecodeOutcome`, with an example in `DnsName.OverrunExample`).
- `is_number` accepts texts without digits such as "-" and "." (`JsonNumber.AcceptedIff`,
  `JsonNumber.NoDigitsAccepted`), and takes powers of ten modulo 2^64 from exponent 20 on (`JsonNumber.ScaleIsTrueIff`).

## Model

| member | source | states |
|---|---|---|
| MemoryBuffer.Mbuf.WriteMem | libre/src/mbuf/mbuf.c:207-232 | A write at the position replaces exactly those bytes, leaves every other allocated byte alone, and moves the end mark when it was behind |
| MemoryBuffer.Mbuf.ReadMem | libre/src/mbuf/mbuf.c:334-350 | A read succeeds exactly when enough bytes are left, returns them and moves past them; a failed one moves nothing |
| MemoryBuffer.Mbuf.Resize | libre/src/mbuf/mbuf.c:118-133 | Reallocation keeps the common prefix |
| MemoryBuffer.Mbuf.ReadU16 | libre/src/mbuf/mbuf.c:375-380 | A 16-bit read past the end yields zero and does not move |
| MemoryBuffer.WroteBoth | libre/src/mbuf/mbuf.c:207-232 | Two writes one behind the other are one write of the concatenation |
| MemoryBuffer.HeaderLast | libre/src/mbuf/mbuf.c:207-232 | A header skipped first and written after its body gives header and body |
| HashTable.Hash.Append | libre/src/hash/hash.c:78-84 | An element goes to the end of the bucket of its key, and to the end of the table's insertion order |
| HashTable.Hash.Lookup | libre/src/hash/hash.c:108-115 | Searching one bucket finds the oldest element of the whole table the handler accepts |
| HashTable.BucketFindsFirst | libre/src/hash/hash.c:108-115 | Bucket search and whole-table search agree once accepted elements sit under the key searched for |
| HashTable.BucketDropsFirst | libre/src/hash/hash.c:92-95 | Unlinking an element from its bucket unlinks it, and no other, from the table |
| HashTable.BucketsHoldAll | libre/src/hash/hash.c:127-139 | Bucket after bucket, the table holds every element exactly as often as it was inserted |
| HashTable.Hash.InOrder | libre/src/hash/hash.c:127-139 | Walking all buckets visits every element once |
| OrderedDictionary.OrderedDict.Add | libre/src/odict/entry.c:40-106 | An added entry is last in the list and in its bucket; list and table keep holding the same entries |
| OrderedDictionary.OrderedDict.Del | libre/src/odict/entry.c:109-112 | Deleting a key takes the oldest entry with it out of list and table together |
| OrderedDictionary.DelDequeues | libre/src/odict/entry.c:109-112 | The entries of each key form a queue: deleting a key takes its oldest entry and nothing from any other queue |
| OrderedDictionary.DelUncovers | libre/src/odict/entry.c:109-112 | After deleting a key, looking it up finds its next oldest entry; lookups of other keys are unchanged |
| OrderedDictionary.OrderedDict.Lookup | libre/src/odict/odict.c:50-69 | The lookup through the hash table returns the oldest entry of the list with the key |
| NumberText.LocalItoa | libre/src/fmt/print.c:71-97 | The digit loop never leaves its 64-byte buffer and produces the digits of the number in base 10 or 16 |
| NumberText.DigitsRoundTrip | libre/src/fmt/print.c:71-97 | Reading the digits gives the number back |
| JsonCodec.PutInt | libre/src/fmt/print.c:43-68 | A signed number is a minus sign if negative and the digits of its absolute value |
| JsonText.UnescapeEscape | libre/src/fmt/unicode.c:87-168 | Unescaping an escaped NUL-free string gives the string back |
| JsonText.EscapedStaysQuoted | libre/src/fmt/unicode.c:22-76 | An escaped string never ends the quotes it is put in |
| JsonCodec.Utf8Encode | libre/src/fmt/unicode.c:22-76 | The character loop emits exactly the escaped string |
| JsonCodec.Utf8Decode | libre/src/fmt/unicode.c:87-168 | The loop over escapes accepts exactly the well-formed ones and emits the unescaped string |
| JsonCodec.EncodeEntry | libre/src/json/encode.c:13-73 | The recursive printer emits the printed form of a value |
| JsonCodec.EncodeObject | libre/src/json/encode.c:76-99 | The entry loop emits the printed form of a dictionary, with commas between entries only |
| Json.RoundTrip | libre/src/json/decode.c:281-453 | Decoding the printed form of any dictionary rebuilds it, entries in order, and stops at its closing brace whatever follows, exactly when it is nested no deeper than maxdepth; deeper ones end in the overflow error |
| Json.EntriesRun | libre/src/json/decode.c:281-453 | In the middle of an object, the state machine turns the printed rest of the entries into those entries |
| Json.ItemsRun | libre/src/json/decode.c:281-453 | The same for the items of an array, which are keyed by their index |
| Json.StringRun | libre/src/json/decode.c:270-278 | Inside quotes no character, escaped or not, is taken for punctuation |
| Json.ScalarRoundTrip | libre/src/json/decode.c:129-175 | A printed string, number, boolean or null is recognised as the value it was printed from |
| JsonNumber.NumberRoundTrip | libre/src/json/decode.c:42-112 | A printed integer is recognised as the number it was printed from |
| JsonNumber.NumberMeans | libre/src/json/decode.c:42-112 | A text made of sign, digits, point, digits and exponent has the value of those parts: an integer without point and negative exponent, else a real; digits may be missing |
| JsonNumber.AcceptedIff | libre/src/json/decode.c:42-112 | Exactly the non-empty texts of that form are numbers |
| JsonNumber.NoDigitsAccepted | libre/src/json/decode.c:42-112 | `-`, `.` and `e` are numbers, of value zero |
| JsonNumber.MyPower10 | libre/src/json/decode.c:16-24 | The loop computes the power of ten modulo 2^64, for any exponent |
| JsonNumber.PowerIsTrue | libre/src/json/decode.c:16-24 | The power of ten is exact up to exponent 19 and for no larger one |
| JsonNumber.PowerVanishes | libre/src/json/decode.c:16-24 | It is zero, as a divisor too, exactly from exponent 64 on |
| JsonNumber.ScaleIsTrueIff | libre/src/json/decode.c:96-104 | A number has its true value exactly for exponents from -19 to 19, or when it is zero and not divided by zero |
| JsonNumber.ReadNumber | libre/src/json/decode.c:42-112 | The loop over the characters from the last to the first computes the specified result on every text |
| Json.WordsAreNoNumbers | libre/src/json/decode.c:129-175 | true, false and null are not taken for numbers or strings |
| JsonCodec.DecodeFrom | libre/src/json/decode.c:281-453 | The recursive in-place parser computes the state machine's result on every input, well-formed or not |
| JsonCodec.PrintAndDecode | libre/src/json/decode.c:456-464 | Printing and decoding a dictionary gives the same dictionary, or the overflow error exactly when it is nested too deep |
| BfcpCodec.EncodeAttr | libre/src/bfcp/attr.c:58-139 | An attribute without children is written with its header last and zeros up to a 32-bit boundary |
| BfcpCodec.EncodeTree | libre/src/bfcp/attr.c:151-207 | A group's length byte, patched after its children, counts the group's bytes |
| BfcpCodec.EncodeAttrs | libre/src/bfcp/attr.c:151-207 | The loop writes the encoding of the attribute list, or reports an unknown type |
| BfcpWire.EncAllWords | libre/src/bfcp/attr.c:151-207 | Encoded attribute lists fill whole 32-bit words |
| BfcpWire.AttrsAligned | libre/src/bfcp/attr.c:151-207 | Every attribute of the tree, at any depth, starts on a 4-byte boundary of the list |
| BfcpCodec.DecodeAttr | libre/src/bfcp/attr.c:231-387 | One attribute is decoded as specified, on any bytes; the recursion into groups ends |
| BfcpCodec.DecodeAttrs | libre/src/bfcp/attr.c:390-416 | The mutually recursive decoder ends on any input and restores the outer end mark |
| BfcpWire.AttrsRoundTrip | libre/src/bfcp/attr.c:390-416 | Decoding an encoded attribute list returns the list |
| BfcpWire.AttrRoundTrip | libre/src/bfcp/attr.c:231-387 | Decoding an encoded attribute, nested groups included, returns it and stops behind its padding |
| BfcpWire.HdrRoundTrip | libre/src/bfcp/msg.c:31-77 | A header decodes to its fields |
| BfcpWire.MsgRoundTrip | libre/src/bfcp/msg.c:161-193 | Decoding an encoded message returns its header fields and attribute tree, wherever it stands in a buffer |
| BfcpCodec.EncodeMsg | libre/src/bfcp/msg.c:95-120 | The encoder writes the message's wire form, and fails exactly on an unknown attribute type |
| BfcpCodec.DecodeMsg | libre/src/bfcp/msg.c:161-193 | The decoder computes the specified result on any bytes; a bad header leaves the position where it was |
| BfcpCodec.SendAndReceive | libre/src/bfcp/msg.c:95-193 | A message encoded and decoded comes back unchanged |
| BfcpClient.BfcpConn.Request | libre/src/bfcp/request.c:143-197 | A request uses the next transaction id; it joins the queue's end unless encoding or, for the first in line, sending fails |
| BfcpClient.BfcpConn.Dispatch | libre/src/bfcp/request.c:56-77 | The first request that can be sent goes in flight; those before it are completed with the send error |
| BfcpClient.BfcpConn.TimerFires | libre/src/bfcp/request.c:80-109 | A retransmission doubles the delay; after the fourth send the request times out and the next one is dispatched |
| BfcpClient.BfcpConn.HandleResponse | libre/src/bfcp/request.c:112-140 | Only the request in flight can be answered, by ids that all match; its handler is called once |
| BfcpClient.BfcpConn.Run | libre/src/bfcp/request.c:56-197 | In any run: timer armed exactly when the queue is not empty, only its head ever sent, at most four sends on the doubling schedule, handlers called in order of acceptance, each once |
| BfcpClient.ScheduleDoubles | libre/src/bfcp/request.c:18-21 | The delays after the four sends are 500, 1000, 2000 and 4000 ms |
| BfcpClient.TidsDistinct | libre/src/bfcp/request.c:156-162 | Any 65535 consecutive requests carry different ids, none of them zero |
| BfcpClient.TidsRepeat | libre/src/bfcp/request.c:156-162 | The next 65535 requests carry the same ids in the same order |
| DnsNameCodec.EncodeName | libre/src/dns/dname.c:91-150 | A valid name is written so that its bytes spell it, and every entry of the compression table still points at bytes that spell its name |
| DnsNameCodec.EncodeLabels | libre/src/dns/dname.c:99-139 | The same for the character loop with its label patching and table lookups at every label start |
| DnsNameCodec.CloseLabel | libre/src/dns/dname.c:99-139 | Closing a label patches its length and either ends the name with a pointer or records the rest of the name in the table |
| DnsNameCodec.AppendName | libre/src/dns/dname.c:37-55 | Only names at offsets a pointer can hold enter the table |
| DnsNameCodec.LookupName | libre/src/dns/dname.c:66-71 | The table lookup ignores case and finds the oldest entry |
| DnsName.PointerSpells | libre/src/dns/dname.c:74-77 | A pointer to bytes that spell a name spells that name, without a second jump |
| DnsName.SpelledNameDecodes | libre/src/dns/dname.c:162-219 | Bytes that spell a valid name of at most 255 characters decode to it, but for case and a dot at its end, within the jump limit |
| DnsNameCodec.DecodeName | libre/src/dns/dname.c:162-219 | On any bytes the decoding loop computes the specified result and ends, and every byte it writes lies in its 256-byte array unless it overruns; a name has at most 255 characters |
| DnsName.DecodeOutcome | libre/src/dns/dname.c:162-219 | On any bytes: it overruns exactly when a label is met behind a text of exactly 255 characters, and returns a name exactly when a terminator is reached and the text has at most 255 |
| DnsName.SpelledOutcome | libre/src/dns/dname.c:162-219 | The same for bytes that spell given labels within the jump limit, by the lengths of the labels |
| DnsName.OverrunExample | libre/src/dns/dname.c:162-219 | Four labels of 63 characters and one more overrun the array |
| DnsNameCodec.WriteMessage | libre/src/dns/dname.c:91-219 | Any names and other fields written into one message with a shared table: every name decodes from its place in the finished message to itself, ignoring case and a dot at its end |
| DnsRecordList.StdSortComparesRanks | libre/src/dns/rrlist.c:18-57 | In every case the handler compares records by one lexicographic rank |
| DnsRecordList.HandlerIsPreorder | libre/src/dns/rrlist.c:18-57 | The handler is a total preorder for every query type |
| DnsRecordList.SortedRecords | libre/src/dns/rrlist.c:66-70 | Sorted records are in rank order, none is lost, and equals keep their order |
| DnsRecordList.RrlistSort | libre/src/dns/rrlist.c:66-70 | Sorting on the links yields the stable sort of the list |
| DnsTcp.TcpConn.Receive | libre/src/dns/client.c:294-355 | After a receive buffer the connection has handed over the frames of its stream up to the first one rejected, and is closed exactly when there is such a one |
| DnsTcp.TcpConn.Step | libre/src/dns/client.c:299-347 | One round hands over at most one frame, the next of the stream, closes exactly when that is rejected, and makes progress |
| DnsTcp.TcpConn.Gather | libre/src/dns/client.c:299-330 | Length and content are collected across buffers without losing or repeating a byte |
| DnsTcp.ReceiveAll | libre/src/dns/client.c:294-355 | However the stream is divided into buffers, and whatever is answered to the payloads: those handed over are the frames of the whole stream up to the first one rejected, and the connection closes exactly when there is such a one |
| DnsTcp.AnsweredIs | libre/src/dns/client.c:334-352 | What is handed over is settled by the frames and the answers alone |
| DnsTcp.FramesAppend | libre/src/dns/client.c:294-355 | The frames of two pieces are those of the first, then those of its leftover and the second |
| DnsTcp.FramesCover | libre/src/dns/client.c:294-355 | The frames with their length prefixes, and the leftover, are the stream |
| LinkedList.List.Append | libre/src/list/list.c:90-112 | The element becomes the tail; forward and backward links stay consistent |
| LinkedList.List.Prepend | libre/src/list/list.c:122-144 | The element becomes the head |
| LinkedList.List.InsertBefore | libre/src/list/list.c:155-177 | The element is spliced in before the given one |
| LinkedList.List.InsertAfter | libre/src/list/list.c:188-210 | The element is spliced in after the given one |
| LinkedList.Unlink | libre/src/list/list.c:218-240 | The element leaves the list, the others keep their order, and its own links are cleared |
| LinkedList.List.Apply | libre/src/list/list.c:293-313 | The walk, forward or backward, stops at the first element the handler accepts |
| LinkedList.MoveBehindNext | libre/src/list/list.c:262-268 | Unlinking an element and inserting it behind its successor exchanges the two |
| LinkedList.Sort | libre/src/list/list.c:250-280 | For every total-preorder handler the sort ends, by falling inversions, and the linked list holds the stable sort of its elements |
| StableSorting.ExchangeRemovesInversion | libre/src/list/list.c:250-280 | Exchanging two neighbours out of order lowers the number of inversions by one |
| StableSorting.ExchangeKeepsSort | libre/src/list/list.c:250-280 | Exchanging two neighbours strictly out of order does not change the stable sort |
| StableSorting.StableSortSorts | libre/src/list/list.c:250-280 | The stable sort is an ordered permutation |
| StableSorting.StableSortIsStable | libre/src/list/list.c:250-280 | Elements of equal rank keep their order |
| StableSorting.SortedIsSorted | libre/src/list/list.c:250-280 | A list in order is its own stable sort |
| IcePriority.CandPrioOrder | libre/src/ice/util.c:39-56 | Candidate priorities order by type, then local preference, then component |
| IcePriority.PairPrioOrder | libre/src/ice/util.c:66-72 | Below 2^31 pair priorities order lexicographically by smaller candidate priority, larger one, and which side is larger |
| IcePriority.PairPrioOrderIff | libre/src/ice/util.c:66-72 | For candidate priorities of any size: a pair that ranks below another has the lower priority exactly unless it overtakes one with the next smaller candidate priority, or the other wraps and it does not stay below |
| IcePriority.SameRankSamePrio | libre/src/ice/util.c:66-72 | Pairs that rank the same have the same priority |
| IcePriority.OvertakesExample | libre/src/ice/util.c:66-72 | 1 and 2^32 - 1 overtake 2 and 2 |
| IcePriority.PairPrioFits | libre/src/ice/util.c:66-72 | For candidate priorities below 2^31 the 64-bit formula does not overflow |
| IcePriority.PairPrioWraps | libre/src/ice/util.c:66-72 | It overflows exactly when both candidate priorities are 2^32 - 1 |
| IcePriority.PairPrioWrapExample | libre/src/ice/util.c:66-72 | A concrete pair whose priority wraps below one it should outrank |
| IcePriority.AgentsAgree | libre/src/ice/util.c:66-72 | Both agents compute the same priority for a pair, whichever of them controls |
| IceForm.Unique | libre/src/ice/util.c:108-144 | Pruning keeps, of any two elements the handler calls equal, the first; what it removes is represented by something earlier |
| Ice.Icem.SwitchRole | libre/src/ice/util.c:75-95 | A role switch recomputes the check list's priorities and re-sorts it, keeping its members |
| IceLists.AddSorted | libre/src/ice/candpair.c:64-79 | A pair is inserted behind those of higher priority; order and distinctness are kept |
| Ice.Icem.Alloc | libre/src/ice/candpair.c:82-114 | A new pair is frozen, has its priority for the current role and its place in the check list; it fails exactly without a component |
| Ice.Icem.Clone | libre/src/ice/candpair.c:117-147 | A clone differs in its candidates only and takes its place in the check list |
| Ice.Icem.PrioOrder | libre/src/ice/candpair.c:151-162 | Priorities recomputed for the role, check list sorted by them, members unchanged, valid list untouched |
| IceLists.SortOrders | libre/src/ice/candpair.c:151-162 | Sorting by priority orders the list and neither loses nor repeats a pair |
| Ice.Icem.MakeValid | libre/src/ice/candpair.c:175-188 | The pair leaves whichever list it is in and takes its place in the valid list; a failed one stays failed |
| Ice.Icem.Fail | libre/src/ice/candpair.c:191-201 | The pair becomes failed unless it has ended before |
| Ice.Icem.SetState | libre/src/ice/candpair.c:204-220 | A pair that has succeeded or failed never changes state again |
| IceLists.FindSt | libre/src/ice/candpair.c:316-336 | Finds the best pair of an ordered list in a state, or there is none |
| IceLists.Find | libre/src/ice/candpair.c:288-313 | Finds the first pair with the given candidates, or there is none |
| IceLists.FindCompid | libre/src/ice/candpair.c:339-355 | Finds a pair of the component, or there is none |
| Ice.Icem.FindByRemote | libre/src/ice/candpair.c:361-375 | Searches the check list, then the valid list, by remote candidate |
| Ice.Icem.CandpairsForm | libre/src/ice/chklist.c:27-62 | Afterwards every compatible pair of candidates is in the check list, or a component is missing |
| Ice.Icem.Prune | libre/src/ice/chklist.c:92-107 | After pruning no two pairs share component, base-substituted local address and remote address, and every pair removed is represented |
| IceForm.PrunedIsFormed | libre/src/ice/chklist.c:92-107 | The pruned list holds the best pair of every class of compatible candidates |
| IceForm.FormedHasOneBest | libre/src/ice/chklist.c:92-107 | For each class exactly one pair is left, and it has the class's maximum priority |
| Ice.Icem.SetStates | libre/src/ice/chklist.c:113-142 | A pair of the check list starts to wait exactly when no pair of its foundation has both a lower component and a higher priority; nothing else changes |
| IceForm.Leader | libre/src/ice/chklist.c:126-138 | The inner loop arrives at a pair that nothing dominates, the one it started from if that is such a pair |
| IceForm.OnePerFoundationIff | libre/src/ice/chklist.c:117-122 | One pair per foundation waits, as the comment wants, exactly when in every foundation one pair has the lowest component and the highest priority, alone in both |
| IceForm.TwoOfOneComponent | libre/src/ice/chklist.c:117-122 | Two pairs of one foundation and one component both wait |
| Ice.Icem.ChecklistForm | libre/src/ice/chklist.c:157-190 | A formed check list is ordered by non-increasing priority, holds one best pair per class, and in the first stream exactly its undominated pairs wait; each error is reported exactly in its case |
| Ice.Icem.IsCompleted | libre/src/ice/chklist.c:196-209 | True exactly when every pair of the check list has succeeded or failed |
| Ice.Icem.Conclude | libre/src/ice/chklist.c:213-241 | Under either nomination the component is concluded with the best succeeded pair of the valid list selected; without such a pair nothing changes |
| Ice.Icem.ChecklistUpdate | libre/src/ice/chklist.c:247-288 | Once all pairs have ended, the list completes exactly when every component has a valid pair, and then every component is concluded or has no succeeded pair; otherwise it fails |
| IceLists.BestKept | libre/src/ice/chklist.c:213-241 | While checks go on, the best succeeded pair of the valid list stays the best |
| Ice.Icem.PaceNext | libre/src/ice/connchk.c:24-35 | Scheduling, checking and concluding call each other and end: Waiting plus Frozen pairs fall with every check |
| Ice.Icem.ScheduleCheck | libre/src/ice/connchk.c:340-373 | The best waiting pair is checked, or else the best frozen one; with neither, nothing changes |
| Ice.Icem.DoCheck | libre/src/ice/connchk.c:319-334 | The pair checked never waits again, and the number of pairs to do falls strictly |
| IceLists.TodoFalls | libre/src/ice/connchk.c:340-373 | Pairs that wait never become more, and fewer as soon as one is checked |
| Ice.Icem.ConncheckSend | libre/src/ice/connchk.c:206-302 | The pair goes in progress even when the request does not leave; a second transaction is refused |
| Ice.Icem.ConstructValidPair | libre/src/ice/connchk.c:43-105 | The pair checked becomes valid, and the result is a valid pair of known candidates with the mapped and destination addresses |
| Ice.Icem.HandleSuccess | libre/src/ice/connchk.c:108-141 | The pair revealed by the response is valid, nominated and selected for its component |
| Ice.Icem.Answered | libre/src/ice/connchk.c:155-203 | An error fails the pair, a role conflict switches the role and sends again |
| Ice.Icem.HandleResponse | libre/src/ice/connchk.c:155-203 | The answer's effect followed by the next check keeps the whole invariant |
| Ice.Icem.Start | libre/src/ice/connchk.c:387-411 | Checks start on a formed check list, or not at all |
| Ice.Icem.Stop | libre/src/ice/connchk.c:424-442 | Every pair still open fails, and the list is concluded by what is valid |
| Ice.Icem.Step | libre/src/ice/connchk.c:155-442 | Any single event keeps the invariant |
| Ice.Icem.Run | libre/src/ice/connchk.c:24-442 | Over any run of events: check and valid list disjoint, without repeats, each ordered by stored priority; ended pairs keep their state; the valid list holds ended pairs only, loses relayed pairs only, and none in a run without an update; a concluded component has a selected pair, and every selected pair is in the valid list and of its own component |
| Ice.Icem.TriggeredCheck | libre/src/ice/stunsrv.c:28-89 | A pair waiting or frozen goes in progress, one in progress or succeeded is left alone, no other pair changes |
| Ice.Icem.HandleStunFull | libre/src/ice/stunsrv.c:95-170 | The sender is a known remote candidate afterwards; with USE-CANDIDATE its pair is valid and, under regular nomination, selected |
| Ice.Icem.UseCandidate | libre/src/ice/stunsrv.c:149-166 | The pair moves to the valid list, nominated if it had succeeded for the controlled side |
| Ice.Icem.HandleStunLite | libre/src/ice/stunsrv.c:176-214 | Only with USE-CANDIDATE, and then every pair that becomes valid is nominated, succeeded and from the sender |
| Ice.Icem.HandleRequest | libre/src/ice/stunsrv.c:231-326 | A request in our role switches it or is answered with a conflict by the tie-breakers; a request without priority is refused after that; the invariant is kept |
| IceRoles.ExchangeResolves | libre/src/ice/stunsrv.c:284-289 | A request and its answer, handled one after the other, resolve a conflict of roles, whoever asks and whatever the tie-breakers, and bring none about |
| IceRoles.CrossedIff | libre/src/ice/stunsrv.c:284-289 | When both agents ask at once, the conflict is resolved exactly when the one with the larger tie-breaker has its answer before the other's request |
| IceRoles.CrossedByRfcIff | libre/src/ice/stunsrv.c:284-289 | By the rules of the standard it would be resolved in any order as long as the tie-breakers differ |
| IceRoles.ConflictLasts | libre/src/ice/stunsrv.c:284-289 | Agents that go on asking at once stay in conflict for ever |
| Ice.Icem.Update | libre/src/ice/icem.c:273-317 | An update takes from both lists exactly the relayed pairs of the components whose selected pair is not relayed; no selected pair is among them |
| IceLists.PurgeKeeps | libre/src/ice/icem.c:273-288 | Purging for such a component keeps the lists in order and every selection in the valid list |
| JitterBuffer.SeqLessTotal | libre/src/jbuf/jbuf.c:65-68 | Wrap-around comparison orders any two numbers one way, both ways exactly at distance 2^15 |
| JitterBuffer.Jbuf.FrameAlloc | libre/src/jbuf/jbuf.c:74-99 | A free frame is taken, or the oldest packet gives its frame up |
| JitterBuffer.Jbuf.FrameDeref | libre/src/jbuf/jbuf.c:105-111 | The frame leaves the buffer, drops its memory object and joins the pool |
| JitterBuffer.Jbuf.constructor | libre/src/jbuf/jbuf.c:134-179 | All frames start free |
| JitterBuffer.Jbuf.Link | libre/src/jbuf/jbuf.c:211-254 | The search from the tail links the frame at its place or returns a duplicate's frame to the pool |
| JitterBuffer.Jbuf.Put | libre/src/jbuf/jbuf.c:191-270 | Late packets are refused by the rule, duplicates at their place; any other packet is inserted where the order says, the oldest making room in a full buffer; all counters exact |
| JitterBuffer.PlaceKeepsOrder | libre/src/jbuf/jbuf.c:211-254 | Inserting at the place found keeps neighbours strictly increasing |
| JitterBuffer.TrulyIncreasing | libre/src/jbuf/jbuf.c:191-270 | While buffered numbers span less than 2^15, the whole buffer is strictly increasing in true sequence number, without duplicates |
| JitterBuffer.PlaceIsExact | libre/src/jbuf/jbuf.c:211-254 | In that window a packet is refused as duplicate exactly when its true number is among the packets searched, and otherwise goes between smaller and larger ones |
| JitterBuffer.RefusedIff | libre/src/jbuf/jbuf.c:191-254 | Whatever the buffer, a number not late is refused as a duplicate exactly when it is that of a buffered packet that is not the oldest of a full buffer and has no packet behind it that precedes it; `Put` promises the same of its result |
| JitterBuffer.DuplicateKnownIff | libre/src/jbuf/jbuf.c:191-254 | For a buffer without repeated numbers, packet by packet: when a buffered number comes again it is recognised exactly under that condition |
| JitterBuffer.AllDuplicatesKnownIff | libre/src/jbuf/jbuf.c:191-254 | So all duplicates are recognised exactly when the buffer is not full and no later packet of it precedes an earlier one |
| JitterBuffer.WideBufferTakesDuplicate | libre/src/jbuf/jbuf.c:191-270 | Four puts into a new buffer, 0, 0x7000, 0xe000 and 0 again, are all accepted |
| JitterBuffer.FullBufferTakesDuplicate | libre/src/jbuf/jbuf.c:191-270 | In a full buffer of 5 and 6 a second 5 is accepted, and a second 6 is refused but costs the 5 |
| JitterBuffer.Jbuf.Get | libre/src/jbuf/jbuf.c:282-328 | The oldest packet is returned once more than the minimum are buffered; underflow and loss counters exact |
| JitterBuffer.Jbuf.Flush | libre/src/jbuf/jbuf.c:336-359 | All frames return to the pool and the next packet is never late |
| JitterBuffer.Run | libre/src/jbuf/jbuf.c:191-359 | Over any run, packets accepted are those played, overwritten, flushed or still buffered |
| RtpSource.Source.UpdateSeq | libre/src/rtp/source.c:42-104 | The method is the update function, probation branch included |
| RtpSource.UpdateTracks | libre/src/rtp/source.c:42-104 | An arrival between 99 behind and 2999 ahead is taken, and cycles plus max_seq keeps tracking the true maximum across wraps |
| RtpSource.OutsideWindow | libre/src/rtp/source.c:42-104 | Within a cycle and apart from the number expected after a jump, arrivals are taken exactly in that window; a refusal changes only the number expected next |
| RtpSource.RunTracks | libre/src/rtp/source.c:42-104 | Over any run of arrivals in the window the state is the true maximum and the true count |
| RtpSource.LostIsExact | libre/src/rtp/source.c:135-150 | The loss reported is expected minus received, up to the 24-bit clamp |
| RtpSource.StreamLossIsExact | libre/src/rtp/source.c:23-150 | From the first arrival on, over any run of arrivals in the window, the loss reported is the numbers passed over less the arrivals too many, up to the clamp |
| RtpSource.Source.CalcFractionLost | libre/src/rtp/source.c:154-177 | The fraction is the byte of the quotient, and the report interval starts anew |
| RtpSource.CountsKept | libre/src/rtp/source.c:42-104 | In every branch, more packets are expected only when one has been received |
| RtpSource.FractionFitsByte | libre/src/rtp/source.c:154-177 | In every state of a source whose counts since the last report stay in the range of `int`, the quotient is the true fraction in 256ths, at most 255, and never wraps its byte |
| RtpSource.Source.CalcJitter | libre/src/rtp/source.c:114-131 | The method is the jitter function; a transit time of zero counts as none yet |
| RtpSource.JitterStep | libre/src/rtp/source.c:114-131 | A sample whose transit time changes by at most D keeps the estimate within 16D + 7, for D below 2^28 by the exact recurrence |
| RtpSource.JitterBounded | libre/src/rtp/source.c:114-131 | Over any run with changes of at most D, whatever D, stored jitter is at most 16D + 7 and the reported value at most D |
| RtcpWire.RrRoundTrip | libre/src/rtp/rr.c:54-72 | A report block decodes to itself, the sign of the 24-bit loss included |
| RtcpWire.RrsRoundTrip | libre/src/rtp/rr.c:54-72 | A run of report blocks decodes to itself |
| RtcpCodec.EncodeRr | libre/src/rtp/rr.c:35-51 | Six words are written |
| RtcpCodec.DecodeRr | libre/src/rtp/rr.c:54-72 | A block is read exactly when its 24 bytes are there |
| RtcpCodec.EncodeHdr | libre/src/rtp/pkt.c:85-98 | Version bits or-ed with the count, type and length |
| RtcpCodec.EncodePacket | libre/src/rtp/pkt.c:130-245 | The packet's wire form is written, padded to 32 bits, whatever was behind it cut off |
| RtcpCodec.Finish | libre/src/rtp/pkt.c:229-244 | The header filled in last counts the words behind it |
| RtcpCodec.Decode | libre/src/rtp/pkt.c:278-463 | SR, RR and BYE decoding computes the specified result on any bytes |
| RtcpCodec.DecodeBye | libre/src/rtp/pkt.c:369-394 | Sources and optional reason of a goodbye, on any bytes |
| RtcpWire.SenderReportRoundTrip | libre/src/rtp/pkt.c:130-327 | A Sender Report of up to 31 blocks decodes to its sender fields and blocks |
| RtcpWire.ByeRoundTrip | libre/src/rtp/pkt.c:130-394 | A goodbye decodes to its sources and reason, its padding skipped |
| RtcpWire.PacketRoundTrip | libre/src/rtp/pkt.c:130-463 | Decoding an encoded packet returns it, wherever it stands, and stops behind its padding |
| RtcpCodec.SendAndReceive | libre/src/rtp/pkt.c:130-463 | A packet encoded and decoded comes back unchanged |
| RtcpSession.RtcpSess.Find | libre/src/rtp/member.c:50-53 | The member filed under an SSRC, or there is none |
| RtcpSession.RtcpSess.GetMember | libre/src/rtp/sess.c:85-103 | A known member is found, a new one added while fewer than eight are there; member counter and table stay equal |
| RtcpSession.RtcpSess.ReceiveRtp | libre/src/rtp/sess.c:534-578 | The member's source goes through sequence rules and jitter; the sender counter grows exactly with a new source |
| RtcpSession.RtcpSess.ReceiveBye | libre/src/rtp/sess.c:190-208 | Exactly the members named leave, and both counters still agree with the table |
| RtcpSession.RtcpSess.ReceiveReport | libre/src/rtp/sess.c:144-187 | A report updates its member from its last block and, for a Sender Report, its source's timing |
| RtcpSession.RtcpSess.ReceiveRtcp | libre/src/rtp/sess.c:211-233 | Any packet keeps table, counters and source statistics consistent |
| RtcpSession.RtcpSess.WriteBlocks | libre/src/rtp/sess.c:359-391 | One block per member with a source is appended, in table order, from its state before the report |
| RtcpSession.AsManyAsSenders | libre/src/rtp/sess.c:382-391 | There are as many blocks as the sender counter says |
| RtcpSession.BlockIsTrue | libre/src/rtp/sess.c:359-379 | The fraction in a block is the true fraction of the interval |
| RtcpSession.RtcpSess.FractionsAreTrue | libre/src/rtp/sess.c:359-379 | In every state a session reaches, the fraction in a member's block is the true one and at most 255 |
| RtcpSession.RtcpSess.MakeSr | libre/src/rtp/sess.c:395-423 | The packet is the encoding of a Sender Report whose header count is its number of blocks |
| RtcpSession.RtcpSess.Report | libre/src/rtp/sess.c:441-464 | A report sent by a session decodes to the same sender fields and blocks |
| RtcpSession.RtcpSess.TransmitRtp | libre/src/rtp/sess.c:514-531 | Transmit counters and the timestamp reference |
| RtcpSession.RtcpSess.Run | libre/src/rtp/sess.c:85-578 | Over any run: member counter equals table size, at most eight; sender counter equals members with a source; every source's counts are sound |
| Md5.Md5State.Append | libre/src/md5/md5.c:326-361 | After any append, the state is the fold of the block function over the whole blocks of the message, the rest is buffered, and the bit count is exact |
| Md5.Md5State.Finish | libre/src/md5/md5.c:364-384 | The digest is the one-shot digest of the padded message |
| Md5.DigestOf | libre/src/md5/md5.c:316-384 | However a message is split into appends, the digest is that of the whole message |
| BlockHash.FoldAppend | libre/src/md5/md5.c:340-360 | Folding over two runs of blocks is folding over their concatenation |
| BlockHash.Completed | libre/src/md5/md5.c:340-352 | Filling the buffered block and processing it is processing the message's next block |
| BlockHash.CountsMore | libre/src/md5/md5.c:335-338 | The two-word bit count stays exact, carries included |
| Sha1.Context.Update | libre/src/sha/sha1.c:213-232 | The same as for MD5; the counter is exact but for carries taken that are not due |
| Sha1.SpuriousIff | libre/src/sha/sha1.c:218-220 | A carry not due is taken exactly when the data has 2^32 bits or more and the low words do not carry |
| Sha1.SpuriousExample | libre/src/sha/sha1.c:218-220 | 2^29 bytes handed to a fresh context in one piece miscount |
| Sha1.PaddingIsTrue | libre/src/sha/sha1.c:241-256 | What is hashed is the standard's padded message exactly when the carries too many cancel modulo 2^32 |
| Sha1.Context.PadTo56 | libre/src/sha/sha1.c:251-254 | The padding loop ends, with the least number of zeros |
| Sha1.Context.Final | libre/src/sha/sha1.c:241-260 | The digest is that of the message padded with the counter as it stands; with no carry too many it is the one-shot digest |
| Sha1.DigestOf | libre/src/sha/sha1.c:194-270 | However a message is split into updates of fewer than 2^29 bytes, the digest is that of the whole message |
| InetCodec.Ntop4 | libre/src/sa/ntop.c:42-52 | Printed piece by piece, it fails exactly when text and NUL do not fit; otherwise what it wrote is the dotted quad, parses back to the address, and nothing in front of it changed |
| InetCodec.ToWords | libre/src/sa/ntop.c:78-80 | Or-ing the bytes together gives the eight words |
| InetCodec.BestRun | libre/src/sa/ntop.c:81-106 | The first of the longest runs of at least two zero words, or none |
| InetCodec.Format6 | libre/src/sa/ntop.c:75-143 | The text is put together inside the 46 bytes, whatever the address |
| InetCodec.Ntop6 | libre/src/sa/ntop.c:64-153 | It fails, the buffer untouched, exactly when text and NUL do not fit; otherwise what it wrote parses back to the address |
| InetText.BestIsUnique | libre/src/sa/ntop.c:81-106 | An address has one such run, so one text |
| InetText.Text6Length | libre/src/sa/ntop.c:75-146 | The text never overruns the printer's 46 bytes |
| InetText.AddressRoundTrip | libre/src/sa/pton.c:107-188 | For every sixteen-byte address, parsing its printed text gives its bytes: leading, middle, trailing and no `::`, embedded IPv4 |
| InetText.Text4RoundTrip | libre/src/sa/pton.c:51-89 | Every dotted quad parses back to its bytes |
| InetText.ParseTwoSides | libre/src/sa/pton.c:107-188 | Groups on both sides of `::` parse to the left ones, zeros, and the right ones |
| InetText.FullAddressWithColons | libre/src/sa/pton.c:107-188 | Any text that spells out sixteen bytes and has a `::` is accepted with the bytes behind the colons cleared: it stands for the bytes it spells out exactly when those are zero |
| InetText.EightGroupsWithColons | libre/src/sa/pton.c:107-188 | So for eight groups and a `::` anywhere |
| InetText.SixGroupsWithColons | libre/src/sa/pton.c:107-188 | And for six groups, a `::` anywhere among them or behind, and a dotted quad |
| InetText.ParseTwoSidesDotted | libre/src/sa/pton.c:107-188 | Groups on both sides of `::` and a dotted quad parse to the left groups, zeros, the right groups and the quad |
| InetCodec.ShiftRight | libre/src/sa/pton.c:170-182 | The overlapping shift by hand moves the bytes to the end, or clears them when there is nowhere to move |
| InetCodec.Pton4 | libre/src/sa/pton.c:51-89 | Accepts what the specification accepts; refused texts leave the destination alone |
| InetCodec.Pton6 | libre/src/sa/pton.c:107-188 | The parse loop and its ending compute the specified result on every text |
| InetCodec.PrintAndParse | libre/src/sa/pton.c:107-188 | An address printed and parsed comes back |
| SdpAlign.FirstMatchIsFirst | libre/src/sdp/format.c:205-235 | The format found is the first that compares equal, and none does when none is found |
| SdpAlign.SdpMedia.AlignFormats | libre/src/sdp/media.c:259-334 | Ignored lines are untouched; on an answer the order stays; on an offer the local list is the aligned one; flags set exactly by the matches |
| SdpAlign.AlignedMeans | libre/src/sdp/media.c:259-334 | The aligned list is a permutation, every format that matched before every one that did not, the former by the last remote format each matched, the latter in reverse order, position by position |
| SdpAlign.ByLastMatchMeans | libre/src/sdp/media.c:275-318 | The matched formats, each once, in the order of their last match |
| SdpAlign.TurnsOrder | libre/src/sdp/media.c:275-318 | During the remote loop the list is the formats without a match in order, then those with one by last match |
| SdpAlign.TurnsFlags | libre/src/sdp/media.c:275-318 | A local format is marked supported exactly when it matched at some turn, a remote one exactly when a local one matched at its own |
| SdpAlign.SdpMedia.Separate | libre/src/sdp/media.c:320-333 | The last loop moves the unsupported formats behind the supported ones, reversing them |
| NatLifetime.WorksIff | libre/src/natbd/lifetime.c:103-307 | For every first interval and every lifetime: the lifetime stays between min and max and is reached exactly when the first doubling past it fails as it should and halving from there tries no longer interval whose wait is cut short, which takes 32 steps to find out |
| NatLifetime.ShortFirstInterval | libre/src/natbd/lifetime.c:103-307 | For first intervals up to 4294967 s, whose own wait fits 32 bits: exactly when the first doubling past the lifetime is at most 4294967 s |
| NatLifetime.RunKeepsBetweenIff | libre/src/natbd/lifetime.c:103-246 | In a run min stays at most the lifetime, and the lifetime below max, exactly as long as no wait is cut short by the 32-bit product of milliseconds |
| NatLifetime.ProbeHalves | libre/src/natbd/lifetime.c:221-246 | Where the wait is not cut short and the sums of a step fit in 32 bits, a probe behind the first failure halves the bracket |
| NatLifetime.SearchConverges | libre/src/natbd/lifetime.c:103-307 | A run in which no wait is cut short and no sum overflows reaches the lifetime within 2k + 1 probes, for initial interval and twice the lifetime at most 2^k, and stays there |
| NatLifetime.BoundedRunFits | libre/src/natbd/lifetime.c:103-307 | That is so when the first doubling past the lifetime is at most 4294967 s |
| NatLifetime.SettlesIff | libre/src/natbd/lifetime.c:103-307 | For every first interval and lifetime: the search settles, by whatever way, exactly when it comes within 2^31 + 68 probes to a bracket of the lifetime below 4294968 s |
| NatLifetime.Repeats | libre/src/natbd/lifetime.c:103-307 | Every run repeats a state within that many probes |
| NatLifetime.TooLongNeverSettles | libre/src/natbd/lifetime.c:103-307 | From a lifetime of 4294967 s on no search settles, whatever its first interval |
| NatLifetime.WaitCutShort | libre/src/natbd/lifetime.c:112 | A first interval of 4294968 s is waited for 704 ms and counts as a success: min is past the lifetime, for every lifetime up to 4294967 s |
| NatLifetime.NeverSettlesExample | libre/src/natbd/lifetime.c:112 | With that first interval and a lifetime of one second the search never settles |
| NatLifetime.AccidentExample | libre/src/natbd/lifetime.c:103-307 | A search may settle after min was past the lifetime: it starts at 2^31 + 1, which doubles to 2 |
| NatLifetime.DoublingOverflows | libre/src/natbd/lifetime.c:221-233 | A search that starts at 2^31 is at zero after two probes and stays there, whatever the lifetime |
| NatLifetime.SumOverflows | libre/src/natbd/lifetime.c:237-246 | A search that starts at 2^32 - 1 is at zero after one probe and stays there, for all lifetimes below 4294967 s |
| NatLifetime.Lifetime.Search | libre/src/natbd/lifetime.c:103-332 | A session probing a fixed lifetime, with waits cut to 32 bits, goes through the states of the search |
| NatLifetime.Lifetime.BindingOk | libre/src/natbd/lifetime.c:221-233 | The method is the step function in 32-bit arithmetic |
| NatLifetime.Lifetime.BindingExpired | libre/src/natbd/lifetime.c:237-246 | The method is the step function in 32-bit arithmetic |

## Left out

- Sockets, TLS, the event loop, file loading, logging and debug printing: foreign calls; sends are steps that may fail, timers steps that may fire.
- `libre/src/mem/mem.c`: freeing an element held once is removing it from its list; allocation never fails.
- The block functions of MD5 and SHA-1 and the hash functions joaat and fast: parameters, any function will do.
- Floating point: JSON numbers are exact reals; the rounding of `long double`, and integers and exponents too large for 64 bits, are not modelled. Printing a real is not modelled either.
- `re_vhprintf`, `re_regex` and the SIP, HTTP and SDP text parsers built on them.
- DNS retries and server rotation, HTTP, NAT mapping, filtering and hairpinning: callbacks around network requests.
- sipperf's own classes, `csv.h`, name tables and platform code: easy members only.
- Json.RoundTrip: characters stand for bytes; child dictionaries are values handed down the recursion, not objects reached through `h->arg`, and the hash table inside a dictionary is modelled separately in `OrderedDictionary`.
- BfcpCodec.EncodeMsg: attributes come as a tree of values, not as a `va_list` with encode handlers.
- DnsNameCodec.EncodeName: for names that are not valid in the sense above nothing is stated.
- Ice.Icem.Run: one media stream; priorities and foundations of peer reflexive candidates are arbitrary; the checklist handler, keep-alives and STUN message contents are not modelled; pairs are values under an identity, so that sharing between lists is by identity.
- LinkedList.Sort: the position of an element in its list is known to the proof only; the code finds it through the links.
- JitterBuffer.Jbuf.Put: the two lists are sequences of frame numbers; the links below them are those of `LinkedList`. Counters are unbounded.
- RtpSource.FractionFitsByte: report intervals whose counts leave the range of `int` are excluded.
- RtcpSession.RtcpSess.Run: SDES, APP and feedback packets, encryption, the interval timer and the round-trip time value are left out.
- RtcpWire.PacketRoundTrip: the remaining packet types decode to an outcome that only names their type.
- Md5.Md5State.Append: a negative byte count is not modelled; the left shift of the byte count is taken modulo 2^32.
- BfcpClient.BfcpConn.Run: destinations and message bytes are left out; a retransmission sends the same request again.
- DnsTcp.TcpConn.Receive: what `reply_recv` does with a payload; whether it rejects it is any function of the payloads so far.
- SdpAlign.SdpMedia.AlignFormats: reference counts of shared parameters; `atoi` and the format handlers are parameters.
- NatLifetime.Lifetime.BindingOk: the handler call and the next STUN request.
