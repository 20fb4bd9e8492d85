# Proofs about the ACCORDS platform core

This project models the parts of the ACCORDS platform whose correctness does not follow from reading one
function, and proves what they do on every input:

- **Hashing** (`cocarrier/sha2.c`, `cocarrier/hmac_sha2.c`). The streaming SHA-2 contexts are classes over
  byte arrays. `Sha2Spec` writes the hash functions of FIPS 180-4 (sections 5.1, 6.2.2 and 6.4.2) as
  mathematics over an abstract word type, and the streaming proof is made once for both word sizes. Any
  way of cutting a message into `update` calls gives the digest of the code's own padding; that padding is
  the standard's exactly below 2^29 bytes, because only 32 bits of the bit count are kept. Both compiled
  forms of the round loop give the same state. The tables are the fractional bits of the roots of the
  first primes. HMAC is RFC 2104, section 2, through any number of `reinit` cycles, and `base_64` is compared
  with section 4 of RFC 4648.
- **JSON** (`cocarrier/json.c`, `cocarrier/dataelement.c`). The parser runs on a file with one character of
  pushback and builds a doubly linked tree in an explicit heap, where a node may be freed only while it is
  live. `JsonText` is the same parser as a function on text, `JsonPrint` the printer. The heap parser is
  proved against that function, and printing followed by parsing is the identity exactly on the printable
  trees. `JsonLayout` says what any layout of a document denotes: with blanks wherever they may stand and tokens in any
  mixture of quotes and escapes. `JsonSearch` says on which trees the search for a name misses one that is there.
- **Azure signing** (`cocarrier/azclient.c`). The exchange sort, the header lines and the resource lines:
  their text depends only on which headers and parameters there are, not on their order.
- **Service lifecycle** (`broker/brokerservice.c`). The walks along the link table, the report they write,
  the six requests as a state machine, what holds of the actions issued over every run of it
  (`ServiceRuns`), and the duration parser.
- **Two loops**: the instance-type choice (`cnprocci/cncontract.c`) and the in-place metadata tokenizer
  (`cocarrier/osclient.c`).

Code that works in place is modelled in place, as classes, arrays and loops, and tied to a function of its
inputs or of the old state; the properties are then proved about that function. The functions at the bottom
of the model, which code and specification share, have a meaning of their own: the word functions bit by bit
(`WordBits`), exclusive or on bytes (`Hmac.XorByteBits`), the order of `strcmp` (`Sorting.LeqExact`), the
characters each reader passes over or stops at (`JsonLayout.BlankExact`, `Metadata.BlankExact`,
`ServiceDuration.LeadExact`), and numbers in text (`CText.AtoiPrinted`).

Where a promise does not hold for every input, the project says exactly when it does: padding
(`Sha2.PaddingExact`), base64 (`Base64.CanonicalExact`), printing and parsing (`JsonExact.ElementExact`,
`JsonExact.ValueExact`, `JsonExact.FileExact`), the report (`ReportExact.FaithfulExact`), the search for a
name (`JsonSearch.FindCompleteExact`), stopped contracts (`ServiceRuns.PendingExact`,
`ServiceRuns.AllStoppedExact`, `ServiceRuns.IdleIsStoppedExact`), double starts (`ServiceRuns.CarefulExact`,
`ServiceRuns.StartsOnceExact`, `ServiceRuns.ReportsMatter`), the choice of an instance type
(`InstanceMinimal.MinimalExact`), adding durations (`ServiceDuration.AdditiveExact`) and metadata lists
(`Metadata.ListReadBack`). The comment above `service_action` promises a report that reflects the service;
in the code a report file that cannot be opened makes the walk return before it does anything, while the
request still changes the state. The model follows the code: a service can then be idle with its contracts
running (`ServiceRuns.IdleAndPending`).

Verify everything with `dafny verify dfyconfig.toml`.

## Model

| member | source | states |
|---|---|---|
| Sha2Spec.PaddingFills | cocarrier/sha2.c:381-391 | the padding of FIPS 180-4 fills whole blocks with the smallest possible number of zero bytes |
| Sha2Spec.FoldConcat | cocarrier/sha2.c:195-222 | hashing the blocks of two texts one after the other is hashing the blocks of their concatenation |
| Sha2Spec.AgreeHash | cocarrier/sha2.c:195-305 | word functions that agree pointwise define the same digest of every message |
| Sha2.PaddingExact | cocarrier/sha2.c:381-391 | the bytes that final appends are the standard's padding exactly when the message is shorter than 2^29 bytes |
| Sha2.CodeHashIsHash | cocarrier/sha2.c:371-407 | below that bound the code's padding gives the digest of the standard |
| Sha2.ExpIsRound | cocarrier/sha2.c:95-111 | one rotating-argument step is one round with the registers shifted |
| Sha2.UnrolledIsRolled | cocarrier/sha2.c:224-305 | after any number j of rounds role i of the shifting loop is wv[(i - j) mod 8] of the unrolled form |
| Sha2.Expand | cocarrier/sha2.c:209-222 | the array w is the message schedule of the block |
| Sha2.RunRolled | cocarrier/sha2.c:224-240 | the loop that shifts the registers computes all rounds |
| Sha2.RunUnrolled | cocarrier/sha2.c:269-297 | the loop with rotating arguments computes the same rounds on the same array |
| Sha2.Exp | cocarrier/sha2.c:95-111 | one macro call in place is one step of the unrolled form |
| Sha2.AbsorbShort | cocarrier/sha2.c:344-354 | bytes that fit the buffer keep the streaming invariant: buffer is the tail, hash value the fold over the rest |
| Sha2.AbsorbLong | cocarrier/sha2.c:356-369 | filling the buffer, hashing whole blocks and keeping the remainder keep the streaming invariant |
| Sha2.Context.Init | cocarrier/sha2.c:319-335 | a context stands for the empty message |
| Sha2.Context.TransfBlock | cocarrier/sha2.c:204-304 | one block, in either compiled form, is one compression |
| Sha2.Context.Transf | cocarrier/sha2.c:195-305 | the transform folds compression over all blocks of its argument |
| Sha2.Context.Update | cocarrier/sha2.c:337-369 | a context that stands for m stands for m + piece afterwards |
| Sha2.Context.Pad | cocarrier/sha2.c:387-389 | the buffer becomes the pending bytes followed by the code's padding |
| Sha2.Context.Final | cocarrier/sha2.c:371-407 | the digest is that of the whole message absorbed since init |
| Sha2.FinalForm | cocarrier/sha2.c:381-391 | block count, bit count and padding computed from len and tot_len are those of the whole message |
| Sha2Words.PackIsBigEndian32 | cocarrier/sha2.c:49-55 | PACK32 reads a big-endian number |
| Sha2Words.UnpackIsBigEndian32 | cocarrier/sha2.c:41-47 | UNPACK32 writes it |
| Sha2Words.PackUnpack32 | cocarrier/sha2.c:41-55 | packing undoes unpacking |
| Sha2Words.PackIsBigEndian64 | cocarrier/sha2.c:69-79 | PACK64 reads a big-endian number |
| Sha2Words.UnpackIsBigEndian64 | cocarrier/sha2.c:57-67 | UNPACK64 writes it |
| Sha2Words.PackUnpack64 | cocarrier/sha2.c:57-79 | packing undoes unpacking |
| Sha2Words.MacrosAgree256 | cocarrier/sha2.c:25-34 | the 32-bit macros are the functions of FIPS 180-4 on every word |
| Sha2Words.MacrosAgree512 | cocarrier/sha2.c:25-39 | the 64-bit macros are the functions of FIPS 180-4 on every word |
| WordBits.InEveryBit32 | cocarrier/sha2.c:27-34 | in every bit Ch takes y where x is set and z elsewhere, Maj is the majority, and the sum of three words is their parity |
| WordBits.InEveryBit64 | cocarrier/sha2.c:27-39 | the same for 64-bit words |
| Primes.FirstPrimes | cocarrier/sha2.c:113-191 | the numbers behind the tables are the first 80 primes: each is prime and between neighbours there is none |
| Sha2Tables.RoundConstants256 | cocarrier/sha2.c:133-149 | every round constant is the first 32 fractional bits of the cube root of prime number i |
| Sha2Tables.RoundConstants512 | cocarrier/sha2.c:151-191 | every round constant is the first 64 fractional bits of the cube root of prime number i |
| Sha2Tables.InitialValue256 | cocarrier/sha2.c:117-119 | the initial values are fractional bits of the square roots of the first 8 primes |
| Sha2Tables.InitialValue384 | cocarrier/sha2.c:121-125 | the initial values are fractional bits of the square roots of the 9th to the 16th prime |
| Sha2Tables.InitialValue512 | cocarrier/sha2.c:127-131 | the initial values are fractional bits of the square roots of the first 8 primes |
| Sha2Tables.InitialValue224 | cocarrier/sha2.c:113-115 | the initial values are the second 32 bits of those of SHA-384 |
| Sha2Digests.Stream | cocarrier/sha2.c:310-317 | init, any number of updates and final depend only on the concatenated message |
| Sha2Digests.Standard32 | cocarrier/sha2.c:195-407 | for messages below 2^29 bytes the 32-bit code computes the function of FIPS 180-4 |
| Sha2Digests.Standard64 | cocarrier/sha2.c:411-604 | for messages below 2^29 bytes the 64-bit code computes the function of FIPS 180-4 |
| Sha2Digests.Sha224 | cocarrier/sha2.c:708-805 | SHA-224 of the concatenated pieces, 28 bytes |
| Sha2Digests.Sha256 | cocarrier/sha2.c:310-407 | SHA-256 of the concatenated pieces, 32 bytes |
| Sha2Digests.Sha384 | cocarrier/sha2.c:608-704 | SHA-384 of the concatenated pieces, 48 bytes |
| Sha2Digests.Sha512 | cocarrier/sha2.c:506-604 | SHA-512 of the concatenated pieces, 64 bytes |
| Hmac.CopyContext | cocarrier/hmac_sha2.c:153-156 | a copied context stands for the same message |
| Hmac.HmacContext.UsableKey | cocarrier/hmac_sha2.c:122-133 | the key, hashed when it is longer than a block, padded to a block as RFC 2104 says |
| Hmac.HmacContext.FillPads | cocarrier/hmac_sha2.c:134-143 | the two pads are the block key xor 0x36 and xor 0x5c, byte by byte |
| Hmac.XorByteBits | cocarrier/hmac_sha2.c:139-142 | bit by bit, the result is set where exactly one of key byte and constant is |
| Hmac.HmacContext.Init | cocarrier/hmac_sha2.c:112-157 | the working and the saved contexts stand for the two pads of the key |
| Hmac.HmacContext.Reinit | cocarrier/hmac_sha2.c:159-165 | the same state as after init with the same key |
| Hmac.HmacContext.Update | cocarrier/hmac_sha2.c:167-171 | the inner context stands for pad, message and piece |
| Hmac.HmacContext.Final | cocarrier/hmac_sha2.c:173-183 | the first mac_size bytes of the nested hash, with the saved contexts intact |
| Hmac.MacEach | cocarrier/hmac_sha2.c:112-194 | for every key length, every cutting of every message and any number of reinit cycles, each MAC is that of RFC 2104, section 2, cut to mac_size |
| Hmac.Rfc2104Agree | cocarrier/hmac_sha2.c:112-183 | hash functions that agree below 2^29 bytes give the same MACs of messages below it |
| Hmac.StandardMac32 | cocarrier/hmac_sha2.c:112-194 | the 32-bit MACs are HMAC over the hash of FIPS 180-4 |
| Hmac.StandardMac64 | cocarrier/hmac_sha2.c:198-366 | the 64-bit MACs are HMAC over the hash of FIPS 180-4 |
| Base64.DecodeCodeText | cocarrier/hmac_sha2.c:453-513 | a decoder of RFC 4648, section 4, that ignores pad bits recovers every input |
| Base64.CanonicalExact | cocarrier/hmac_sha2.c:453-513 | the output is the standard's encoding exactly when the length is not 1 modulo 3 |
| Base64.TextLength | cocarrier/hmac_sha2.c:453-513 | four letters for every started group of three bytes |
| Base64.LetterExact | cocarrier/hmac_sha2.c:449-450 | the letters are those of table 1 of RFC 4648, in its order |
| Base64.EncodeGroups | cocarrier/hmac_sha2.c:485-502 | the loop over moving pointers writes the letters of all groups |
| Base64.Encode | cocarrier/hmac_sha2.c:453-513 | nothing for the empty input, otherwise the text that is decoded above |
| JsonReader.Reader.Ungetch | cocarrier/json.c:78-81 | a character is pushed back only into the empty slot, and none is lost |
| JsonReader.Reader.Getch | cocarrier/json.c:97-113 | takes the pushed-back character first, then the file, NUL at its end |
| JsonReader.Reader.RemoveWhite | cocarrier/json.c:137-156 | drops exactly the leading blanks of the pending input |
| JsonReader.Reader.Punctuation | cocarrier/json.c:173-188 | takes one punctuation character or leaves the next character pending |
| JsonReader.Reader.Token | cocarrier/json.c:194-243 | reads the token that the text-level function defines, with its quotes, escapes and length limit |
| JsonText.GetValue | cocarrier/json.c:248-286 | what is left unread is a suffix of the pending input |
| JsonText.GetElement | cocarrier/json.c:291-321 | what is left unread is a suffix of the pending input |
| JsonText.GetComplex | cocarrier/json.c:327-342 | the loop ends on every input, leaving a suffix |
| JsonText.GetMatrix | cocarrier/json.c:348-367 | the loop ends on every input, leaving a suffix |
| JsonLayout.BlankExact | cocarrier/json.c:118-156 | a character in front of a token or of punctuation is passed over exactly when it is a blank, a line feed, a carriage return or a tab |
| JsonLayout.BlanksInFront | cocarrier/json.c:248-409 | every reading function gives the same behind any number of them |
| JsonLayout.TokenRead | cocarrier/json.c:194-243 | however a token is cut into bare characters, escapes and quoted stretches of either kind, it is read as what it means, and only the blank that ended it is gone |
| JsonLayout.EveryText | cocarrier/json.c:194-243 | every text without NUL below 16000 characters can be written so that it is read back |
| JsonLayout.TokenCut | cocarrier/json.c:204-241 | a token is cut after 16000 characters |
| JsonLayout.DocRead | cocarrier/json.c:248-367 | a value, object or array in any layout denotes its tree, and the next punctuation is what followed it |
| JsonLayout.FileRead | cocarrier/json.c:372-409 | a file that holds an object or an array in any layout reads as its tree; empty brackets hold one empty node |
| JsonPrint.ReadElement | cocarrier/json.c:291-471 | a printed named node followed by punctuation is read back whole, and what follows stays unread |
| JsonPrint.ReadValue | cocarrier/json.c:248-471 | the same for an unnamed node |
| JsonPrint.FileRoundTrip | cocarrier/json.c:372-492 | serialise then parse gives the first child of the root under the file's name, or fails when that child is named or a bare value |
| JsonTally.ValueBalanced | cocarrier/json.c:194-286 | the parser makes up no character: backslashes, quotes and NULs of the tree are bounded by those read |
| JsonExact.ElementExact | cocarrier/json.c:291-471 | a named node survives printing and parsing exactly when it is printable: value or children but not both, siblings all named or all unnamed, plain strings, at most the last unnamed sibling empty |
| JsonExact.ValueExact | cocarrier/json.c:248-471 | the same for unnamed nodes |
| JsonExact.FileExact | cocarrier/json.c:372-492 | a serialised file is read back exactly when the first child is unnamed, printable and has children |
| DataElement.LinkAppends | cocarrier/dataelement.c:79-96 | add appends to the child list, keeps every link consistent and touches nothing outside the parent's tree |
| DataElement.UnlinkRemoves | cocarrier/dataelement.c:101-127 | drop removes the child at any position, keeps every link consistent, frees exactly its subtree and touches nothing else |
| DataElement.Heap.Add | cocarrier/dataelement.c:79-96 | the pointer assignments are the append above |
| DataElement.Heap.Liberate | cocarrier/dataelement.c:26-44 | frees every node of the tree exactly once and nothing else |
| DataElement.Heap.Drop | cocarrier/dataelement.c:101-127 | the pointer assignments are the removal above |
| DataElement.Heap.Detach | cocarrier/dataelement.c:105-123 | neighbours and parent are joined, whichever of them are there |
| JsonParser.AppendOne | cocarrier/json.c:327-367 | a child that was parsed becomes the last child of its parent, with all links consistent |
| JsonParser.DropGrown | cocarrier/json.c:248-367 | dropping a half-built node frees exactly what was built below it |
| JsonParser.Parser.Value | cocarrier/json.c:248-286 | the node becomes the tree the text denotes, or it is dropped and the heap is as if it had never been added |
| JsonParser.Parser.Element | cocarrier/json.c:291-321 | a new last child that is the element the text denotes, or no change of the heap |
| JsonParser.Parser.Complex | cocarrier/json.c:327-342 | the children the text denotes in order, or the node and all it had are gone |
| JsonParser.Parser.Matrix | cocarrier/json.c:348-367 | the children the text denotes in order, or the node and all it had are gone |
| JsonParser.ParseFile | cocarrier/json.c:372-409 | a file that parses leaves exactly its tree in the heap; any other leaves the heap as it was |
| JsonWalk.SerialiseComplex | cocarrier/json.c:436-471 | prints the tree that the heap holds |
| JsonWalk.Serialise | cocarrier/json.c:476-492 | writes the first child of the root, or frees the whole tree when the file cannot be opened |
| JsonWalk.Element | cocarrier/json.c:594-629 | the pointer walk refines the search on trees, whatever the shape |
| JsonSearch.FindComplete | cocarrier/json.c:594-629 | on an open tree a name is found exactly when it occurs: behind a named first sibling no other sibling has names below it, at every place where the search starts |
| JsonSearch.FindCompleteExact | cocarrier/json.c:594-629 | where no name occurs twice, every name is found exactly when it occurs if and only if the tree is open |
| JsonSearch.FindFromRoot | cocarrier/json.c:594-629 | from a named root every name that occurs is found when the siblings of each level are open, in particular when all nodes are named |
| JsonSearch.FindSound | cocarrier/json.c:594-629 | what is found has the name and lies in the subtree or among the following siblings |
| JsonSearch.FindIncomplete | cocarrier/json.c:594-629 | an example of a name that occurs, behind an unnamed node, and is not found |
| Sorting.TriIteratif | cocarrier/azclient.c:2218-2231 | every table ends as its sorted arrangement |
| Sorting.Pass | cocarrier/azclient.c:2223-2230 | a whole inner loop keeps the contents, sorts one entry more and moves the maximum to entry i |
| Sorting.PassStep | cocarrier/azclient.c:2223-2230 | one comparison and exchange keeps the invariant of the pass |
| Sorting.SortedIsSort | cocarrier/azclient.c:2218-2231 | a multiset of strings has one sorted arrangement, that of insertion sort |
| Sorting.SortOrderFree | cocarrier/azclient.c:2218-2231 | the order of the input does not matter |
| Sorting.LeqExact | cocarrier/azclient.c:2225 | the order is that of strcmp: a prefix comes first, otherwise the first different character decides |
| AzureCanonical.Strtok | cocarrier/azclient.c:2131-2177 | repeated calls return the non-empty stretches between separators |
| AzureCanonical.PiecesExact | cocarrier/azclient.c:2131-2177 | the pieces are determined by: none of an empty text, a text without separator whole, both sides of a separator on their own |
| AzureCanonical.RestHeader.CutValue | cocarrier/azclient.c:2038-2043 | the value ends at its first line break |
| AzureCanonical.CutExact | cocarrier/azclient.c:2038-2043 | what is kept is the longest front in which no carriage return with line feed begins |
| AzureCanonical.CollectHeaders | cocarrier/azclient.c:2034-2049 | the list holds the name:value lines of the selected headers, each as often as it occurs |
| AzureCanonical.CanonicalizedHeaders | cocarrier/azclient.c:2020-2076 | the signed text is the sorted lines of the selected headers |
| AzureCanonical.HeaderOrderFree | cocarrier/azclient.c:2020-2076 | rearranging the headers does not change the signed text |
| AzureCanonical.HeaderAlone | cocarrier/azclient.c:2034-2072 | a single signed header gives name, colon, value and line feed |
| AzureResource.Deal | cocarrier/azclient.c:2158-2180 | the fields of all tokens go by turns to parameters and values, across tokens |
| AzureResource.RenderAll | cocarrier/azclient.c:2181-2207 | the rendering loop with its two flags writes the text that Render defines |
| AzureResource.CanonicalizedResource | cocarrier/azclient.c:2081-2213 | the signed text: the path, then the rendering of the sorted parameters |
| AzureGroups.Contiguous | cocarrier/azclient.c:2151-2207 | after sorting, the parameters of one name are neighbours |
| AzureGroups.RenderIsLines | cocarrier/azclient.c:2181-2207 | comparing each name with the one before is enough to write one line for each name |
| AzureGroups.ResourceOfItems | cocarrier/azclient.c:2081-2213 | every name of the query has exactly one line, with all its values, sorted |
| AzureGroups.ResourceOrderFree | cocarrier/azclient.c:2081-2213 | rearranging the parameters does not change the signed text |
| AzureGroups.PathExact | cocarrier/azclient.c:2112-2130 | the path up to the question mark is signed as it stands behind the account |
| ServiceWalk.CategoryId | occi/occi.c:436-455 | what follows the last slash, or everything |
| ServiceWalk.MineExact | broker/brokerservice.c:216-231 | a link belongs to the service exactly when its source is the identifier or ends with it behind a slash |
| ServiceWalk.InhibitedExact | broker/brokerservice.c:242-258 | the first attribute of that name decides, and a number inhibits exactly when it is odd, whatever its sign and size |
| ServiceWalk.NotInhibited | broker/brokerservice.c:242-258 | without it, or with a value that is no number, nothing is inhibited |
| ServiceWalk.Service.WriteContract | broker/brokerservice.c:270-321 | one contract of the report with its attributes, behind a comma if it is not the first |
| ServiceWalk.Service.ServiceAction | broker/brokerservice.c:185-331 | without a report file nothing; otherwise the action in table order to every linked contract that answers and does not inhibit it, and the report of those that answered |
| ServiceWalk.VisitedExact | broker/brokerservice.c:235-313 | the report holds exactly the linked contracts that answered, with the attributes from before an inhibited action and from after any other |
| ServiceWalk.Service.ReverseServiceAction | broker/brokerservice.c:351-469 | without a report file nothing; otherwise the action to every linked contract in the opposite of table order |
| ServiceReport.ReportRoundTrip | broker/brokerservice.c:209-328 | the report parses to the service and the visited contracts in order, each with its attributes in order; an empty list reads as one empty node |
| ReportExact.FaithfulExact | broker/brokerservice.c:209-328 | whatever the strings, the report reads back as exactly what was visited if and only if there is a contract, every contract has an attribute and all strings are plain |
| ServiceLifecycle.StartService | broker/brokerservice.c:501-531 | acts from idle inside the service period, 409 before and 410 after it, 404 without a service |
| ServiceLifecycle.PeriodOfNumbers | broker/brokerservice.c:473-494 | between two numbers the period begins at the first and ends at the second, both included |
| ServiceLifecycle.PeriodOpen | broker/brokerservice.c:473-494 | without a beginning it has begun, and without an end it does not end |
| ServiceLifecycle.SuspendService | broker/brokerservice.c:536-561 | acts on a running service only |
| ServiceLifecycle.RestartService | broker/brokerservice.c:566-589 | stops backwards, then starts forwards, from any state |
| ServiceLifecycle.CopyService | broker/brokerservice.c:594-645 | save and snapshot act unless idle and keep the state |
| ServiceLifecycle.StopService | broker/brokerservice.c:650-674 | stops backwards and goes idle unless idle |
| ServiceRuns.PhaseIsState | broker/brokerservice.c:501-674 | the state after a run follows from the requests and the times alone |
| ServiceRuns.PendingExact | broker/brokerservice.c:185-674 | after any run a linked contract has been stopped since its last start exactly when it is not pending, which the guards of each request decide |
| ServiceRuns.AllStoppedExact | broker/brokerservice.c:185-674 | after any run all linked contracts are stopped exactly when none is pending |
| ServiceRuns.CarefulExact | broker/brokerservice.c:185-674 | after any run no contract was started twice without a stop between exactly when no start walk of it reached a pending contract, or one contract twice |
| ServiceRuns.IdleIsStopped | broker/brokerservice.c:501-674 | over every run whose backward walks could write their report, an idle service has stopped every linked contract since its last start |
| ServiceRuns.IdleAndPending | broker/brokerservice.c:367-372 | a run after which the service is idle and its contracts are started: a restart, then a stop whose report file does not open |
| ServiceRuns.IdleIsStoppedExact | broker/brokerservice.c:367-372 | over all runs, idle means stopped exactly when the service has no contracts |
| ServiceRuns.StartsOnce | broker/brokerservice.c:501-674 | over a run whose backward walks could write their report no contract is started twice without a stop between, when none is linked twice |
| ServiceLifecycle.ReportAgrees | broker/brokerservice.c:202-328 | over every run the counter of contracts is the number of contracts in the report that was last written |
| ServiceRuns.StartsOnceExact | broker/brokerservice.c:185-674 | all such runs are safe exactly when no contract is linked twice |
| ServiceRuns.ReportsMatter | broker/brokerservice.c:367-372 | without that proviso all runs are safe exactly when the service has no contracts |
| ServiceDuration.Evaluate | broker/brokerservice.c:745-788 | the seconds of the pieces up to the first one not understood, as a 32-bit int |
| ServiceDuration.UnitExact | broker/brokerservice.c:761-784 | the units in seconds, in either case |
| ServiceDuration.LeadExact | broker/brokerservice.c:753-784 | a character in front never changes a duration exactly when it is a blank, a plus sign or a unit letter |
| ServiceDuration.AdditiveExact | broker/brokerservice.c:745-788 | durations written one after the other add exactly when every piece of the first is understood |
| ServiceDuration.WrittenTotal | broker/brokerservice.c:745-788 | written pieces are all understood and add up |
| ServiceDuration.PrintedRead | broker/brokerservice.c:745-788 | every non-negative int printed as days, hours, minutes and seconds is read back |
| InstanceChoice.Resolve | cnprocci/cncontract.c:672-752 | the loop that overwrites best returns the entry that Pick defines |
| InstanceChoice.ArchitectureExact | cnprocci/cncontract.c:655-667 | which names ask for 32 or 64 bits, and what leaves it open |
| InstanceChoice.BeginsExact | cnprocci/cncontract.c:711-712 | an architecture fits when it begins with the one asked for, in any case |
| InstanceChoice.ChosenExact | cnprocci/cncontract.c:711-751 | something is chosen exactly when something feasible is listed |
| InstanceMinimal.ChoiceMinimal | cnprocci/cncontract.c:711-748 | the choice is Pareto-minimal among the feasible entries, and of entries with the same sizes the last, in every list without a misleading pair: an entry and a later one that gives all its sizes and that nothing later is sure to displace, where the first lacks a size of the later one or something between them lacks a size of the first |
| InstanceMinimal.OrderedNotMisleading | cnprocci/cncontract.c:711-748 | no pair misleads when no feasible entry gives a size that a feasible one before it lacks |
| InstanceMinimal.MinimalExact | cnprocci/cncontract.c:711-748 | which sizes each entry gives decides: whatever their values, the choice is minimal exactly when no pair misleads |
| InstanceMinimal.UnknownSizeMisleads | cnprocci/cncontract.c:730-737 | an example of a dominated entry that is chosen because of a missing size |
| Metadata.TakeKey | cocarrier/osclient.c:1000-1031 | the key stands in memory as a C string and what follows its equals sign is untouched |
| Metadata.TakeValue | cocarrier/osclient.c:1033-1057 | the value stands in memory as a C string and what follows its separator is untouched |
| Metadata.ParseOne | cocarrier/osclient.c:991-1059 | one call cuts out the next key and value in place, moves strictly forward and leaves the rest of the text as it was |
| Metadata.BlankExact | cocarrier/osclient.c:1000-1003 | only blanks, line ends and tabs are passed over before a key |
| Metadata.KeyCharExact | cocarrier/osclient.c:1007-1016 | a key goes on over letters, digits, hyphens and underscores only |
| Metadata.SeparatorExact | cocarrier/osclient.c:1033-1057 | a value ends at a comma, a semicolon or a line end only |
| Metadata.ParseAll | cocarrier/osclient.c:1169-1199 | the calling loop reads all items |
| Metadata.ListReadBack | cocarrier/osclient.c:991-1059 | a written list is read back in order exactly when no blank value stands before a line break |

## Left out

- Failing allocations: `malloc` and `allocate_string` are taken to succeed, so the cleanup branches behind them are not modelled.
- Fixed buffer sizes and overlapping `sprintf` calls in `azclient.c`, modelled as appending to a string.
- AzureResource.CanonicalizedResource: excludes empty ranges of `str_sub`, odd numbers of query fields and a query without any (`AzureResource.Usable`), because the code then reads buffers it never set.
- AzureCanonical.CanonicalizedHeaders: needs at least one selected header, for the same reason.
- `searchWord`, the choice of signed headers: a parameter.
- `json_atribut`, `json_parse_string`, `json_show`, echo and the line and column counters of the JSON code.
- `signature_hmac` and `test`, wrappers that use `strlen` on binary data.
- Masks and shifts of single bytes in `base_64`, modelled as division and remainder.
- Sha2.Context.Update: covers single calls below 2^31 bytes, because the code indexes the message with an int.
- How hard digests are to invert or to collide.
- Report files, clocks and remote answers: parameters of each walk and request. The status a walk returns is not modelled, because no caller reads it.
- `update_instruction_values` and `autosave_cords_service_nodes`, which the walks and requests call.
- ServiceRuns.PendingExact: for a fixed link table; links that change between requests are not covered.
- `rest_normalise_value`, which turns an attribute of an instance type into a size: the sizes are inputs.
- InstanceMinimal.ChoiceMinimal: for one list with its values, that no pair misleads is enough but not needed; `InstanceMinimal.MinimalExact` is exact over all values of the sizes that are given.
- Metadata.ParseOne: the byte behind the terminator of the text, which the code reads when the last key has no equals sign, is taken to be NUL.
- `atoi` on numbers that do not fit an int, which C leaves open, wraps around.
- HTTP, TLS, XML, OCCI rendering, configuration, the authorization cache and the cordscript interpreter.
