# Verification of the daemon's core algorithms

Dafny models of the parts of this BitTorrent daemon and its clients where the logic is hardest, with
proofs of what they promise. Every module follows one component:

| module | component |
|---|---|
| `Merkle`, `PieceStream`, `MakeInfo`, `MakeTorrent` | torrent creation: the v2 Merkle trees in two layers (BEP 52), the v1 and hybrid piece streams (BEP 3) |
| `Bencode`, `Utf8` | the bencode printer and parser, UTF-8 in both directions, and the byte order of sorted text keys |
| `Transfer` | RPC wire framing: the reassembler of chunks |
| `Alerts` | the bounded cooperative scheduler for libtorrent alerts |
| `QueueOrder` | multi-select queue moves |
| `StatusDiff` | the status diff protocol between daemon and client cache |
| `LoginLimiter` | blocking clients after failed logins |
| `Sessions` | the RPC server's session tables |
| `TrackerPolicy` | filtering trackers and web seeds of torrent metadata |
| `SaveState` | the crash-tolerant save of the torrent list |
| `FileTree` | the file trees shown by the clients |
| `MoFile` | the writer of binary message catalogs |
| `Bytes`, `Wrappers` | shared helpers |

The imperative code is modelled by methods with loops and by classes with the source's fields. Where a
property spans several calls, each method is tied to the step function on the fields' values, or to the
functions the steps are made of, and the properties are proved for every run of steps. What the steps amount to is also
stated without them: by the standard's tree on the hash function, by a UTF-8 decoder, by the events or calls of a run
alone, or by the values of the fields before and after. SHA-1, SHA-256, URL
validation and key normalisation are function parameters; the clock and the outcomes of file operations are
inputs.

## Results worth knowing

Some unrestricted claims are false of the code. Each has a lemma with a failing input or the exact condition:

- A directory that holds at most one file gets no `length` (`MakeInfo.MakeInfo`: the layout is `Length(None)`), and an
  empty file in a v2 torrent gets the piece padding as its root (`MakeInfo.EmptyFileRoot`) although BEP 52 gives empty
  files no root.
- A dictionary key with a negative length moves the parser's cursor back, so parsing need not end
  (`Bencode.NegativeKeyNeverEnds`). Unless it meets a key whose end is not past its start, the parser ends within two
  steps per byte (`Bencode.EndsUnlessKeyGoesBack`); so it ends on every input whose keys all start with a digit
  (`Bencode.DigitKeysEnd`). The converse does not hold: going back can also end in an error
  (`Bencode.BackwardKeyCanEnd`).
- Reassembly depends on the chunking exactly for streams with a foreign version byte or a body of one to four bytes
  (`Transfer.ChunkingIndependentIffClean`).
- A drain turn counts 101 units of work instead of 100 exactly when the hundredth unit ahead takes an alert that has
  handlers and the calls due before it leave room below the cap (`Alerts.TurnCounts101Iff`); a registration and one pop
  reach such a turn (`Alerts.OvershootIsReached`).
- Status diffs are lossless exactly as long as every event is safe (`StatusDiff.RunInSyncIff`). A diff request for a
  cached torrent is safe, whatever the daemon's status, exactly if its answer will find the torrent cached in a list
  (`StatusDiff.MergeSafeIffLive`). But a torrent first fetched on its own is cached in a tuple, on which every later
  answer raises although the daemon remembers it as sent (`StatusDiff.FirstFetchFreezes`, `StatusDiff.FrozenForever`),
  and two first fetches at once lose the first one's values (`StatusDiff.FirstFetchesOverlap`). The handler of added
  torrents keeps both sides in step exactly under the condition of `StatusDiff.AddedKeepsSyncIff`.
- The session table is the set of open connections exactly as long as no login was dispatched after its connection
  was lost (`Sessions.SessionsAreOpenIff`); one that was leaves a session nobody owns (`Sessions.LateLoginLingers`).
- A save can lose the torrent list exactly when the backup is the only readable copy it starts from
  (`SaveState.SafeIff`), which a crash in an earlier save can bring about (`SaveState.SecondCrashCanLose`).
- Building a file tree raises exactly if an earlier path is a proper prefix of a later one (`FileTree.BuildTree`).
- The value offsets of a message catalog are right exactly when all message ids are ASCII
  (`MoFile.ValueOffsetRightIff`).

## Model

| member | source | states |
|---|---|---|
| Merkle.NextPow2Least | deluge/metafile.py:218-223 | `_next_pow2` is a power of two at or above its argument, and no smaller power of two is; 1 for 0 |
| Merkle.HashLayer | deluge/metafile.py:236-245 | one layer overwrites or appends so that the list's first entries are the parents of the padded layer, and the list never shrinks |
| Merkle.LayerStep | deluge/metafile.py:236-245 | putting parents in place of a layer keeps the root, whatever stale entries stay behind in the list |
| Merkle.MerkleRoot | deluge/metafile.py:226-246 | for any list, leaf count and padding the loop returns the recursive root of the padded leaves; with `in_place=False` the caller's list is untouched |
| Merkle.OnePieceIsFlat | deluge/metafile.py:375-382 | a file of at most one piece: the root over its piece layer is the root of its 16 KiB blocks padded to the next power of two |
| Merkle.ChunkOfFlat | deluge/metafile.py:373-382 | leaf run i of the padded flat tree is the padded block list of piece i, or all padding past the last piece |
| Merkle.NextPow2Split | deluge/metafile.py:406-411 | the block count's power of two is the piece count's power of two times the blocks per piece |
| Merkle.Layering | deluge/metafile.py:404-411 | the root of a tree is the root over the roots of its equal runs |
| Merkle.RootIsTreeRoot | deluge/metafile.py:236-246 | on 2^k leaves the layer-by-layer computation is the binary tree that combines the roots of two subtrees, whatever the combining function |
| Merkle.FlatRootIsTreeRoot | deluge/metafile.py:376-382 | the root of the flat, zero-padded block list is such a tree's root, at the least height that holds the blocks |
| Merkle.TwoLayersAreFlat | deluge/metafile.py:303-382 | for every non-empty file and every power-of-two number of blocks per piece, piece roots first and then a root over padded pieces is the root of the flat block list (BEP 52, "pieces root") |
| Merkle.FlatRootIsStandard | deluge/metafile.py:236-258 | the root of the flat block list is the pieces root of BEP 52, written on the hash function and the file's bytes alone: leaves are the digests of 16 KiB blocks and 32 zero bytes past the end, a node is the hash of its left digest followed by its right one, at the least height that holds the file |
| Merkle.PieceRootIsStandard | deluge/metafile.py:373-382 | in a file of several pieces, piece root i is node i of that tree's layer at the height of a piece |
| Merkle.PiecePaddingIsStandard | deluge/metafile.py:314-316 | the padding of the piece layer is that tree over a piece's worth of zero leaves |
| PieceStream.UpdateStreamed | deluge/metafile.py:362-370 | the running hash, the byte count and the digests stay those of the stream so far when a part goes in |
| PieceStream.Feed | deluge/metafile.py:362-370 | a buffer of at most a piece, split at the piece boundary, extends the stream by exactly its bytes |
| PieceStream.PadStreamed | deluge/metafile.py:389-402 | the zeros of a padding file close the open piece and are part of the stream |
| PieceStream.FinishStreamed | deluge/metafile.py:424-425 | in the end the pieces are the digests of the consecutive piece-length slices of the stream |
| MakeInfo.HashFile | deluge/metafile.py:345-382 | one file read piece by piece: the v1 stream grows by its content and the collected roots are its BEP 52 piece layer |
| MakeInfo.PadFile | deluge/metafile.py:389-402 | adds one pad of exactly the missing bytes when the file ends off a boundary, and nothing otherwise; then the stream is what the records say and stands at a piece boundary |
| MakeInfo.AddFile | deluge/metafile.py:336-402 | each file keeps records, stream and alignment in step |
| MakeInfo.AddToTree | deluge/metafile.py:404-422 | each file keeps the file tree and the piece layers those of the files so far |
| MakeInfo.AddFiles | deluge/metafile.py:336-422 | the loop over all files, in every format |
| MakeInfo.LookupInsert | deluge/metafile.py:412-420 | entering a file changes the tree at and below its own path and nowhere else |
| MakeInfo.TreeHoldsFiles | deluge/metafile.py:412-420 | for distinct paths of which none is below another, each file's length and root are found at its path |
| MakeInfo.FileRootIsStandard | deluge/metafile.py:404-411 | the root stored for a non-empty file is the pieces root of BEP 52, for every piece length v2 admits |
| MakeInfo.EmptyFileRoot | deluge/metafile.py:404-420 | an empty file is stored with the root of that tree over a piece of zero leaves |
| MakeInfo.TreeIsStandard | deluge/metafile.py:404-420 | for distinct paths of which none is below another, every path leads to its file's length and standard root, and no other path to a file |
| MakeInfo.JoinedLayerIsStandard | deluge/metafile.py:373-422 | the stored layer of a file of several pieces is, digest by digest, the layer of the standard's tree at the height of a piece, one entry per piece |
| MakeInfo.LayersAreStandard | deluge/metafile.py:406-422 | every file longer than a piece has that layer stored under its pieces root, and no other layer is stored |
| MakeInfo.LayersHashBack | deluge/metafile.py:406-422 | each stored piece layer, cut into 32-byte digests, hashes back to the root it is stored under |
| MakeInfo.RecordsAreFiles | deluge/metafile.py:344-402 | in every format the records that are no pads are those of the files in order, each with its own length and path |
| MakeInfo.PaddedPartIsTight | deluge/metafile.py:389-402 | hybrid with several files: every pad is shorter than a piece and directly follows a file that ends off a boundary, which it fills up to |
| MakeInfo.PaddedLengthsFillPieces | deluge/metafile.py:384-402 | hybrid with several files: the listed lengths sum to piece length times piece count |
| MakeInfo.PaddedIsAlignedConcat | deluge/metafile.py:336-402 | hybrid with several files: what is hashed are the files, each filled up with zeros to a multiple of the piece length |
| MakeInfo.UnpaddedIsConcat | deluge/metafile.py:336-370 | otherwise there is one record per file in order, and the pieces cover the concatenation of the contents |
| MakeInfo.MakeInfo | deluge/metafile.py:291-451 | for every format and file list: ValueError exactly for a bad v2 piece length; v1 pieces are the digests of the slices of the recorded bytes; padded records are exactly the files, each followed by one pad up to the next piece boundary if it ends off one; the v2 tree holds each file's length and BEP 52 pieces root and the layers are the standard's, stated on the hash function and the bytes alone; the parts absent from a format are absent |
| MakeTorrent.ChoosePieceSize | deluge/maketorrent.py:102-105 | the least power of two from 16 KiB up that needs at most 1024 full pieces, or 8 MiB |
| MakeTorrent.HashOne | deluge/maketorrent.py:158-173 | one file through the shared buffer extends the stream by its content |
| MakeTorrent.HashDirectory | deluge/maketorrent.py:146-179 | without padding files the pieces are the digests of the slices of the concatenation, as in v1 `makeinfo` |
| MakeTorrent.HashSingle | deluge/maketorrent.py:181-194 | the same for a single file |
| Transfer.TransferProtocol.TransferMessage | deluge/transfer.py:55-70 | writes the byte 1, the length most significant byte first, and the body; fails exactly for bodies of 4 GiB and more, and then writes and counts nothing |
| Transfer.TransferProtocol.HandleNewMessage | deluge/transfer.py:103-140 | takes a header off the buffer and its length with it; empties the buffer on a version other than 1; drops the connection over the size limit |
| Transfer.TransferProtocol.DataReceived | deluge/transfer.py:72-101 | the loop over the buffer is the receive step on the state; bytes are counted unless dropped |
| Transfer.ReceiveContinues | deluge/transfer.py:84-101 | on a clean stream, receiving a chunk after a prefix is parsing the prefix and the chunk together |
| Transfer.RunIsParse | deluge/transfer.py:72-140 | however a clean stream is cut into chunks, the receiver ends in the state of one whole read |
| Transfer.BodiesArrive | deluge/transfer.py:55-140 | for sendable bodies and any chunks of their frames, exactly the bodies complete so far were handed on, in order and unaltered; after all of them the receiver is idle |
| Transfer.OversizedIsDropped | deluge/transfer.py:131-140 | after any frames a header over the size limit drops the connection, however the bytes are cut: exactly the bodies before it are handed on |
| Transfer.VersionDisagrees | deluge/transfer.py:114-129 | a foreign version byte makes two chunkings of the same bytes end differently |
| Transfer.ShortBodyDisagrees | deluge/transfer.py:89-101 | a body of one to four bytes is handed on with its header but held back after it |
| Transfer.UncleanDisagrees | deluge/transfer.py:72-140 | every unclean stream has two chunkings of one of its prefixes that end differently |
| Transfer.ChunkingIndependentIffClean | deluge/transfer.py:72-140 | chunking does not matter for a stream and its prefixes exactly when the stream is clean |
| Utf8.DecodesIffEncoded | deluge/bencode.py:106-107 | a byte string decodes to a text by section 3 of RFC 3629 (lead bytes, continuation bytes, six-bit groups, shortest form, no surrogates) exactly when it is what the encoder gives for the text |
| Utf8.LessIff | deluge/bencode.py:123 | the order on keys: a proper initial part, or smaller at the first place where they differ |
| Utf8.EncodeKeepsOrder | deluge/bencode.py:121-130 | UTF-8 keeps code point order in both directions (section 1 of RFC 3629) |
| Utf8.SortedUnique | deluge/bencode.py:123 | only one ascending sequence has the elements of a given set of keys |
| Utf8.SortSet | deluge/bencode.py:123 | sorting keys yields that sequence |
| Bencode.PyIntDecimal | deluge/bencode.py:29-39 | `int()` reads back every number `str()` prints |
| Bencode.EncodeValue | deluge/bencode.py:98-141 | appends to the shared list exactly the bytes of the value |
| Bencode.EncodeList | deluge/bencode.py:114-118 | the same for lists |
| Bencode.EncodeDict | deluge/bencode.py:121-130 | the same for dicts with byte keys, in sorted key order |
| Bencode.EncodeStrDict | deluge/bencode.py:121-130 | the same for dicts with text keys |
| Bencode.Bencode | deluge/bencode.py:144-147 | joins the list into the encoding of the value, which the parser reads back to the last byte as what the value reads as: text as bytes that are its UTF-8 by the decoder, in values and in keys |
| Bencode.DecodeValue | deluge/bencode.py:62-75 | the program's parser on any input at any cursor, well formed or not |
| Bencode.DecodeList | deluge/bencode.py:46-51 | its list loop |
| Bencode.DecodeDict | deluge/bencode.py:54-59 | its dictionary loop, which reads keys without looking at their first byte |
| Bencode.Bdecode | deluge/bencode.py:78-84 | the value at position 0, or the error |
| Bencode.ValueDecodes | deluge/bencode.py:26-147 | wherever an encoding stands in a byte string, either parser returns its value and the position behind it |
| Bencode.DecodeEncode | deluge/bencode.py:26-147 | decoding at offset \|p\| in p ++ encode(v) ++ s gives the value (bools as ints, texts as UTF-8 bytes) and \|p\| + \|encode(v)\| |
| Bencode.PlainRoundTrip | deluge/bencode.py:26-147 | for ints, byte strings, lists and byte-keyed dicts the value itself comes back |
| Bencode.PrefixFree | deluge/bencode.py:98-147 | an encoding that begins another value's encoding is that encoding, of the same value: prefix-free and injective |
| Bencode.EncodeImage | deluge/bencode.py:98-147 | a value and what it is decoded to have the same encoding |
| Bencode.ReadsAsIff | deluge/bencode.py:98-147 | the decoded form of a value, described through the UTF-8 decoder, is unique and is what the parser returns |
| Bencode.PrintedReadsBack | deluge/bencode.py:26-147 | parsing an encoding returns such a form and stops at its end |
| Bencode.ReadsAsPrintsAlike | deluge/bencode.py:98-147 | a value prints as any value it reads as: text as its UTF-8 bytes, also for keys |
| Bencode.PrintExamples | deluge/bencode.py:98-112 | the examples of BEP 3 byte for byte: `4:spam`, `0:`, `i3e`, `i-3e`, `i10e`, and bools as `i1e` and `i0e` |
| Bencode.TextExample | deluge/bencode.py:106-112 | the text U+65E5 prints as `3:` and the bytes E6 97 A5 |
| Bencode.ListExample | deluge/bencode.py:114-118 | a list of `spam` and 3 prints as `l4:spami3ee` |
| Bencode.DictExample | deluge/bencode.py:121-130 | a dict of `cow` to `moo` prints as `d3:cow3:mooe` |
| Bencode.PyIntIff | deluge/bencode.py:29 | `int()` of a byte string accepts exactly white space, at most one sign, digits with single underscores between them, white space, and returns what they are worth |
| Bencode.IntAcceptedIff | deluge/bencode.py:26-34 | between `i` and the next `e`: accepted exactly if `int()` accepts it and it does not begin with `-0`, nor with `0` unless that is all |
| Bencode.StringAcceptedIff | deluge/bencode.py:36-43 | before the colon: accepted exactly if `int()` accepts it and it does not begin with `0` unless that is all; the string is the bytes that follow, as many as there are |
| Bencode.RawKeysAscend | deluge/bencode.py:121-130 | sorting text keys by code point puts the raw keys in strictly ascending order, as section "bencoding" of BEP 3 requires |
| Bencode.StringAdvances | deluge/bencode.py:36-43 | a string whose length starts with a digit moves the cursor forward |
| Bencode.StrictEnds | deluge/bencode.py:46-75 | a parser that refuses a dictionary key whose end is not past its start ends on every input, within two steps per byte, with its cursor moved forward |
| Bencode.AgreesWithStrict | deluge/bencode.py:54-59 | unless that parser refuses a key, the program's parser gives the same outcome |
| Bencode.EndsUnlessKeyGoesBack | deluge/bencode.py:46-75 | the program's parser ends, within two steps per byte, unless it meets a key whose end is not past its start |
| Bencode.DigitKeysAdvance | deluge/bencode.py:54-59 | on an input all of whose keys start with a digit no key is refused and the cursor moves forward |
| Bencode.DigitKeysEnd | deluge/bencode.py:46-75 | the program's parser ends, within two steps per byte, on every input all of whose keys start with a digit |
| Bencode.BackwardKeyCanEnd | deluge/bencode.py:54-59 | `d-9:` goes back and ends in an error, so the condition is not necessary |
| Bencode.NegativeKeyNeverEnds | deluge/bencode.py:54-59 | on `d1:ai1e-6:` no number of steps is enough |
| Bencode.FuelMonotone | deluge/bencode.py:46-75 | more steps never change an answer |
| Alerts.AlertManager.DrainAlerts | deluge/core/alertmanager.py:232-293 | one drain turn, loop included, is the drain step on the scheduler's state, and its counter ends at the turn's count |
| Alerts.AlertManager.HandleAlerts | deluge/core/alertmanager.py:173-206 | accepts a batch exactly without local work, keeps its first 2000 alerts and drains |
| Alerts.AlertManager.OnHandlerFinished | deluge/core/alertmanager.py:225-230 | the first occurrence of the call goes, all others stay in order; a drain is scheduled exactly if work waits and fewer than 100 calls are outstanding |
| Alerts.AlertManager.CancelDelayedCalls | deluge/core/alertmanager.py:117-128 | leaves no pending alert, no current alert, no call and no scheduled drain, and the handlers as they were |
| Alerts.AlertManager.OnRegister | deluge/core/alertmanager.py:145-160 | adds the handler at the end for its alert type, which is the given name without a final `_alert` |
| Alerts.AlertManager.OnDeregister | deluge/core/alertmanager.py:162-171 | from every alert type the first occurrence of the handler goes, and all other handlers stay in order |
| Alerts.AlertManager.ScheduleAlertDrain | deluge/core/alertmanager.py:221-223 | schedules a drain exactly if there is work and none is scheduled |
| Alerts.StepKeepsInv | deluge/core/alertmanager.py:117-293 | every event keeps the bounds and the wake-up |
| Alerts.RunKeepsInv | deluge/core/alertmanager.py:117-293 | in every reachable state at most the cap of calls is outstanding, at most 2000 alerts are pending, and undispatched work means a scheduled drain or the full cap of outstanding calls |
| Alerts.StepHistory | deluge/core/alertmanager.py:173-293 | each event but a stop keeps the dispatch log the exact expansion of the dequeued alerts, with the handlers registered when each was dequeued |
| Alerts.RunHistory | deluge/core/alertmanager.py:173-293 | in every run without a stop the dispatch log and the calls still owed are, in order, each popped alert paired with its handlers, none lost, repeated or reordered |
| Alerts.WithoutRemovesFirst | deluge/core/alertmanager.py:226-227 | removing from a list takes out the first occurrence and keeps all other entries in order, told by index |
| Alerts.OutstandingCalls | deluge/core/alertmanager.py:117-293 | after every run, stops included, the outstanding calls are exactly those made and since then neither finished nor cancelled, in the order they were made |
| Alerts.PopOnlyWhenDone | deluge/core/alertmanager.py:177-206 | a batch is taken only when the one before is fully dispatched and finished, and it is the first 2000 alerts |
| Alerts.DrainTurnWork | deluge/core/alertmanager.py:237-293 | a scheduled drain turn strictly lowers the remaining work, by at most 101 units |
| Alerts.LoopCountIsWork | deluge/core/alertmanager.py:235-287 | the work a turn counts is the alerts it dequeues plus the calls it makes |
| Alerts.TurnCounts101Iff | deluge/core/alertmanager.py:237-266 | a turn counts at most 101 units, and 101 exactly when the hundredth unit ahead takes an alert with handlers and the calls due before it, together with those outstanding, are below the cap |
| Alerts.OvershootIsReached | deluge/core/alertmanager.py:237-266 | a run of one registration and one pop of 100 alerts whose drain turn does 101 units |
| Alerts.MoveLowersFuel | deluge/core/alertmanager.py:225-293 | with a fixed handler table each enabled drain or finish lowers a measure, so no run of them is infinite |
| Alerts.AllWorkGetsDone | deluge/core/alertmanager.py:225-293 | any run of enabled drains and finishes has at most as many steps as the measure of its first state; with none enabled, no work and no call is left |
| Alerts.RestMeansDispatched | deluge/core/alertmanager.py:225-293 | when nothing is enabled, every call owed by every popped alert has been made, in order |
| QueueOrder.TorrentManager.QueueUp | deluge/core/torrentmanager.py:1324-1330 | swaps with the torrent in front, reports no move at the top, raises for an unknown id |
| QueueOrder.TorrentManager.QueueDown | deluge/core/torrentmanager.py:1332-1340 | swaps with the torrent behind, reports no move at the bottom, raises for an unknown id |
| QueueOrder.TorrentManager.QueueTop | deluge/core/torrentmanager.py:1316-1322 | moves to the front unless there already, raises for an unknown id |
| QueueOrder.TorrentManager.QueueBottom | deluge/core/torrentmanager.py:1342-1350 | moves to the end unless there already, raises for an unknown id |
| QueueOrder.PositionsKnown | deluge/core/core.py:1249-1256 | sorting asks for every position, which raises exactly if an id is unknown |
| QueueOrder.QueueUp | deluge/core/core.py:1247-1269 | raises with nothing moved exactly if an id is unknown; else the loop with its moved flag and last position refines moving each selected torrent that has an unselected one in front |
| QueueOrder.QueueDown | deluge/core/core.py:1272-1294 | the same, mirrored |
| QueueOrder.QueueTop | deluge/core/core.py:1233-1244 | the loop in descending position refines gathering the selection at the top |
| QueueOrder.QueueBottom | deluge/core/core.py:1297-1308 | the loop in ascending position refines gathering it at the bottom |
| QueueOrder.UpPositions | deluge/core/core.py:1247-1269 | the maximal selected prefix stays, every other selected torrent ends exactly one place higher |
| QueueOrder.UpKeepsOrder | deluge/core/core.py:1247-1269 | a permutation that keeps the order within the selected and within the unselected torrents |
| QueueOrder.DownPositions | deluge/core/core.py:1272-1294 | the maximal selected suffix stays, every other selected torrent ends exactly one place lower |
| QueueOrder.DownKeepsOrder | deluge/core/core.py:1272-1294 | a permutation that keeps both orders |
| QueueOrder.TopSpec | deluge/core/core.py:1233-1244 | the result is the selected torrents in their order, then the others in theirs |
| QueueOrder.BottomSpec | deluge/core/core.py:1297-1308 | the result is the unselected torrents in their order, then the selected in theirs |
| StatusDiff.Torrent.GetStatus | deluge/core/torrent.py:1132-1176 | raises exactly for an unknown key and then remembers nothing; a diff request answers with exactly the asked keys that are new or changed since the last answer and remembers the whole status for the keys, of this session only |
| StatusDiff.SessionProxy.OnStatus | deluge/ui/sessionproxy.py:150-162 | merges an answer into a torrent cached in a list, ignores a removed one, raises on one cached in a tuple, leaves all others alone |
| StatusDiff.SessionProxy.OnStatuses | deluge/ui/sessionproxy.py:199-210 | merges the answers up to the first torrent cached in a tuple, which raises; the changes of all after it are dropped |
| StatusDiff.SessionProxy.OnFirstStatus | deluge/ui/sessionproxy.py:168-176 | a non-empty first answer replaces the cache entry, by a tuple |
| StatusDiff.SessionProxy.OnTorrentStateChanged | deluge/ui/sessionproxy.py:266-269 | sets the state exactly in a cached entry that has none, and changes nothing else |
| StatusDiff.SessionProxy.OnTorrentAdded | deluge/ui/sessionproxy.py:271-273 | starts an empty entry in a list, dropping cached values; the request for all values that follows is the event `Request(Full, {})` |
| StatusDiff.SessionProxy.OnFullStatus | deluge/ui/sessionproxy.py:275-279 | merges the full answer into any cached entry, raises for a removed one |
| StatusDiff.SessionProxy.OnTorrentRemoved | deluge/ui/sessionproxy.py:283-286 | removes the entry and nothing else |
| StatusDiff.SessionProxy.OnSessionState | deluge/ui/sessionproxy.py:50-56 | exactly the cached and the listed torrents are cached, the former as they were, the latter with an empty list entry |
| StatusDiff.MergeCovers | deluge/core/torrent.py:1160-1174 | a client that holds the last answered status holds the new one after merging the diff |
| StatusDiff.AnswerRecordsStatus | deluge/core/torrent.py:1153-1176 | an answer's record is the daemon's status for the requested keys at that moment, all keys if none is named; a diff sends no value the client was sent last |
| StatusDiff.RequestKeepsSyncIff | deluge/core/torrent.py:1153-1176 | with anything in flight, a request keeps daemon and client in step exactly when its answer fits: a merged diff finds a list or brings nothing new, a first answer is all or nothing, a full answer agrees with what is remembered |
| StatusDiff.MergeSafeIffLive | deluge/ui/sessionproxy.py:203-210 | a diff request for a cached torrent is safe for every status of the daemon exactly if the answer will find a list |
| StatusDiff.FirstSafeIffForgotten | deluge/ui/sessionproxy.py:165-176 | a diff request for an uncached torrent is safe for every status exactly if the daemon remembers nothing |
| StatusDiff.ResetKeepsSyncIff | deluge/ui/sessionproxy.py:271-286 | dropping a torrent's values keeps both in step exactly when the answers in flight carry every key they answer and every remembered key |
| StatusDiff.AddedKeepsSyncIff | deluge/ui/sessionproxy.py:271-281 | the handler of added torrents, full request included, keeps both in step exactly when the daemon remembers only its present values and the answers in flight carry every key they answer |
| StatusDiff.StepKeepsSyncIff | deluge/ui/sessionproxy.py:150-286 | each event keeps both in step exactly when it is safe; status changes, deliveries, state events and listings always are |
| StatusDiff.RunInSyncIff | deluge/core/torrent.py:1153-1176 | over any run both are in step at every moment exactly when every event was safe when it happened |
| StatusDiff.DiffsAreLossless | deluge/core/torrent.py:1153-1176 | in every run of safe events with in-order answers, the client's values for the keys of each delivered answer are the daemon's at that answer, and with nothing in flight all remembered values are in the cache |
| StatusDiff.SteadyRunsAreLossless | deluge/ui/sessionproxy.py:199-210 | for a torrent cached in a list the same holds over every run of status changes, forgetting, diff requests for a cached torrent, deliveries, state events and listings, with nothing to check on the way |
| StatusDiff.FirstFetchFreezes | deluge/ui/sessionproxy.py:168-176 | fetching one key of an uncached torrent and then another leaves the second remembered by the daemon and missing at the client |
| StatusDiff.FrozenForever | deluge/ui/sessionproxy.py:203-210 | from then on no diff request brings anything |
| StatusDiff.FirstFetchesOverlap | deluge/ui/sessionproxy.py:165-176 | two first fetches in flight at once: the second answer, a diff, replaces the first |
| StatusDiff.GapUntilFullAnswer | deluge/ui/sessionproxy.py:271-281 | a diff answered after the reset leaves out an unchanged value; the full answer brings it |
| StatusDiff.ChangeBackIsLost | deluge/ui/sessionproxy.py:271-281 | a value that differs only while the full answer is made leaves the client with the wrong one |
| LoginLimiter.Limiter.Check | deluge/login_limiter.py:58-64 | the seconds left of a live entry's block, deleting the entry if it expired; for a client that was not evicted told from its calls: 0 up to four counted failures, and from the fifth on the rounded-up rest of the block after the last |
| LoginLimiter.Limiter.OnFailure | deluge/login_limiter.py:66-82 | one more failure for the client, moved to the end of the table, with room made for a new one |
| LoginLimiter.Limiter.OnSuccess | deluge/login_limiter.py:84-86 | forgets the client and nothing else |
| LoginLimiter.Limiter.GetEntry | deluge/login_limiter.py:88-93 | returns a live entry, deletes an expired one |
| LoginLimiter.Limiter.MakeRoomFor | deluge/login_limiter.py:99-105 | the two deletion loops on the table |
| LoginLimiter.MakeRoomKeeps | deluge/login_limiter.py:99-105 | with room left nothing changes; what is left is unchanged; live clients are evicted only until exactly one place is free, and before every client with a later failure |
| LoginLimiter.TableBounded | deluge/login_limiter.py:58-105 | over every run with a monotone clock the table stays within its limit, free of duplicates and ordered by last failure |
| LoginLimiter.WaitMeansBlocked | deluge/login_limiter.py:58-64 | 0 exactly when no block is left, else the remaining time rounded up |
| LoginLimiter.BlockIsDocumented | deluge/login_limiter.py:80-82 | the cap on the exponent never shows: 30 seconds doubled per further failure, at most 900 |
| LoginLimiter.BackOffHolds | deluge/login_limiter.py:66-82 | with failures recorded only while unblocked, a client's (5 + k)-th failure since its reset comes at least the first k documented blocks after its fifth |
| LoginLimiter.EntryIsAccount | deluge/login_limiter.py:58-105 | over every run with a monotone clock a client that was not evicted has exactly the entry its calls amount to: a good login clears the count, each bad login adds one or starts again if the failures were forgotten, and from the fifth on the block is 30 seconds doubled per further failure, at most 900 |
| LoginLimiter.CheckAnswers | deluge/login_limiter.py:58-64 | and `check` answers it 0 up to the fourth failure, and from the fifth on the seconds, rounded up, to the end of the block after the last |
| LoginLimiter.ForgottenIff | deluge/login_limiter.py:95-97 | failures are forgotten (block over and an hour since the last) exactly an hour after the last one, since no block is that long |
| LoginLimiter.EveryFailureCounts | deluge/login_limiter.py:66-86 | with no good login since and never an hour between two of them, every bad login counts |
| LoginLimiter.NobodyEvicted | deluge/login_limiter.py:99-105 | as long as no more clients than the limit have had a bad login, nobody is evicted |
| LoginLimiter.AgreesWithUnbounded | deluge/login_limiter.py:58-105 | a client that was not evicted has the entry an unbounded table would have |
| Sessions.RpcServer.OnConnectionMade | deluge/core/rpcserver.py:194-204 | a new session without a login |
| Sessions.RpcServer.OnConnectionLost | deluge/core/rpcserver.py:220-235 | removes the session from all three tables |
| Sessions.RpcServer.OnLogin | deluge/core/rpcserver.py:311-355 | a good login sets the level granted, the user and the protocol, a bad one changes nothing |
| Sessions.RpcServer.OnSetEventInterest | deluge/core/rpcserver.py:361-391 | adds the new names of a logged-in session exactly if they are a list of names of at most 128 characters and the total stays at most 256, else changes nothing |
| Sessions.RpcServer.OnCall | deluge/core/rpcserver.py:357-417 | the method runs exactly for a session of sufficient level |
| Sessions.RpcServer.OnEndUserSessions | deluge/core/rpcserver.py:592-614 | the loop takes every logged-in session of the user down and no other |
| Sessions.RpcServer.OnEmitEvent | deluge/core/rpcserver.py:649-672 | sends to exactly the interested sessions with a protocol, each once |
| Sessions.FreshKeepsDuplicateFree | deluge/core/rpcserver.py:376-386 | adding names keeps the interest list free of duplicates |
| Sessions.FreshCovers | deluge/core/rpcserver.py:376-386 | and makes it exactly the old and the given names |
| Sessions.StepKeepsInv | deluge/core/rpcserver.py:194-391 | every event keeps the tables nested |
| Sessions.RunKeepsInv | deluge/core/rpcserver.py:194-614 | over every interleaving: interest only with a protocol, a protocol exactly with a level above NONE, interest lists duplicate-free and at most 256 long |
| Sessions.EndUserEnds | deluge/core/rpcserver.py:592-614 | no session of the user is left, each of them is below login without protocol and interest, all others are as before |
| Sessions.EndedUserIsSilent | deluge/core/rpcserver.py:592-614 | after that, whatever events follow short of a new login, the user receives no event and runs no method |
| Sessions.EffectsNeedLogin | deluge/core/rpcserver.py:401-417 | whoever receives an event is logged in and interested, whoever runs a method has the required level, at that moment |
| Sessions.LevelIsLastLogin | deluge/core/rpcserver.py:194-337 | over every run, from the events alone: a session has a level and a user exactly if they are those of a good login dispatched for it, with no later good login for it, loss of its connection or ending of that user's sessions |
| Sessions.CallRunsIff | deluge/core/rpcserver.py:401-417 | so a call that needs a level runs for a user exactly if such a login of that user has at least that level, and otherwise has no effect |
| Sessions.EmitReaches | deluge/core/rpcserver.py:649-672 | an event reaches every session that registered its name, once, under its user, and no other |
| Sessions.AcceptsInterestIff | deluge/core/rpcserver.py:363-386 | a request is accepted exactly from a logged-in session whose names are at most 128 long and, with those it has, at most 256 different ones |
| Sessions.FreshInOrder | deluge/core/rpcserver.py:379-383 | new names are registered in the order in which they first occur |
| Sessions.StrayStep | deluge/core/rpcserver.py:194-337 | only a good login dispatched after its connection was lost adds a session without a connection, and nothing removes one |
| Sessions.SessionsAreOpenIff | deluge/core/rpcserver.py:194-337 | over every run the session table is the set of open connections exactly as long as no such login happened |
| Sessions.LateLoginLingers | deluge/core/rpcserver.py:331-337 | a run of three events that ends with a session nobody owns |
| TrackerPolicy.SpecClean | deluge/core/network_policy.py:301-319 | the flat specification's result is valid and duplicate-free |
| TrackerPolicy.SpecSaturated | deluge/core/network_policy.py:309-310 | past either limit further candidates change nothing |
| TrackerPolicy.FilterNetworkUrls | deluge/core/network_policy.py:301-319 | the loop returns the first `limit` distinct valid values among the first 4 * `limit` |
| TrackerPolicy.FilterTrackerTiers | deluge/core/network_policy.py:322-353 | the accepted trackers keep their own tier, with tiers outside 0..255 read as 0 |
| TrackerPolicy.FilterTier | deluge/core/network_policy.py:366-387 | one tier continues the flat specification and keeps a subsequence of itself |
| TrackerPolicy.KeptSnoc | deluge/core/network_policy.py:366-389 | a tier becomes what it adds to the flat specification of the tiers before it, or goes if it adds nothing |
| TrackerPolicy.FilterTiers | deluge/core/network_policy.py:366-391 | flattened, the tiers left are the flat specification of all candidates; and they are exactly the kept tiers, each tracker staying in the first tier that brings it |
| TrackerPolicy.MetaInfo.Sanitize | deluge/core/network_policy.py:356-433 | exactly the kept tiers, with a valid unseen announce first if there is room, announce equal to the first entry, both keys absent when nothing is left, web seeds filtered keeping scalar or list form; a missing announce-list has no tiers |
| TrackerPolicy.MetaInfo.SanitizeSeeds | deluge/core/network_policy.py:412-431 | a single valid seed stays as it is; of a list something is left exactly if one of its first 64 values is valid, and then at most 16 distinct valid ones |
| TrackerPolicy.ValidAnnounceSurvives | deluge/core/network_policy.py:393-405 | with fewer than 32 trackers accepted a valid announce is left: in a tier of its own at the front, or under a URL that a tier brought already |
| TrackerPolicy.TiersNonEmpty | deluge/core/network_policy.py:388-407 | no tier left is empty, so there is a first entry |
| TrackerPolicy.SanitizedIsClean | deluge/core/network_policy.py:356-410 | the trackers left are all valid, duplicate-free and at most 32 |
| TrackerPolicy.SanitizeTwice | deluge/core/network_policy.py:356-410 | sanitizing sanitized trackers changes nothing |
| TrackerPolicy.SeedsTwice | deluge/core/network_policy.py:412-431 | nor does sanitizing sanitized web seeds |
| SaveState.TorrentManager.Save | deluge/core/torrentmanager.py:1103-1144 | the file operations under any pattern of failures are a run of the protocol; an unchanged state is not saved; the disk in the end is told by the first operation that fails: without failures the new state is in the main file, and if only the install fails the old one is back in it; the remembered state changes exactly with the install |
| SaveState.RunKeepsInv | deluge/core/torrentmanager.py:1116-1144 | every crash point leaves the disk in one of the shapes of the protocol |
| SaveState.SaveIsSafe | deluge/core/torrentmanager.py:938-964 | with a readable main file, any crash or failure leaves the old or the new state loadable, a finished save the new one, a given-up save the old one |
| SaveState.SafeIff | deluge/core/torrentmanager.py:1126-1131 | a save is safe exactly unless the backup is the only readable copy |
| SaveState.SecondCrashCanLose | deluge/core/torrentmanager.py:1126-1131 | a crash in one save and one in the next can lose the list |
| FileTree.LookupInsert | deluge/ui/common.py:476-493 | inserting a path puts a file there, with nothing below it, extends the directories above it and changes nothing else |
| FileTree.SetItemNames | deluge/ui/common.py:480-493 | a name keeps its place in its directory and a new one comes last |
| FileTree.InsertLength | deluge/ui/common.py:476-493 | and adds the file's length to the sum below the root |
| FileTree.InsertShows | deluge/ui/common.py:486-493 | inserting the next path keeps the tree exact |
| FileTree.CanInsertIff | deluge/ui/common.py:476-484 | a path can be inserted exactly when no earlier path is a proper prefix of it |
| FileTree.BuildTree | deluge/ui/common.py:473-493 | raises exactly if an earlier path is a proper prefix of a later one; every leaf is one of the paths; for distinct paths of which none is below another, the leaves are exactly the paths, the directories exactly their parents, each with the right sum |
| FileTree.AddToParents | deluge/ui/common.py:258-262 | walking up adds the length to every proper parent and to nothing else |
| FileTree.AccumulateDirs | deluge/ui/common.py:235-262 | the directories are exactly the parents of files, each with the sum of the lengths below it |
| FileTree.DirSizesAreTreeSums | deluge/ui/common.py:239-274 | the sizes added up file by file are the recursive sums over the tree that is built |
| FileTree.CopyEntry | deluge/ui/common.py:706-725 | a file takes the running index, a directory its copy and its length |
| FileTree.CopyTree | deluge/ui/common.py:704-726 | one directory's files are numbered on from the given index in depth-first order, with their own lengths, and all sums below are right |
| FileTree.CopyMetadata | deluge/ui/common.py:701-728 | the files of a v2 torrent get the indices 0 to n - 1 in depth-first order, and every directory the sum of the lengths below it |
| MoFile.Collect | msgfmt.py:64-78 | sizes and positions of each key and value in their regions |
| MoFile.IndexTables | msgfmt.py:86-93 | the two index tables, size before offset, keys before values |
| MoFile.Pack | msgfmt.py:104 | raises exactly for a number of 2^31 or more |
| MoFile.Generate | msgfmt.py:58-107 | the bytes of the file for every catalog, or the overflow |
| MoFile.KeyReads | msgfmt.py:80-107 | every key's index entry slices out exactly that key's encoding, followed by NUL, for all catalogs |
| MoFile.ValueReads | msgfmt.py:84-107 | with ASCII keys, every value's entry slices out exactly that translation, followed by NUL |
| MoFile.ValueOffsetRightIff | msgfmt.py:84-92 | a value's recorded offset is its position exactly when all keys are ASCII, and is too small otherwise |
| MoFile.NonAsciiKeyLosesValue | msgfmt.py:84-92 | a catalog with one non-ASCII key whose translation cannot be read |
| MoFile.CatalogReadsBack | msgfmt.py:58-107 | a reader of the format in the GNU gettext manual gets the whole catalog back when all keys are ASCII |
| MoFile.RawCatalogHas | msgfmt.py:58-107 | in that catalog each raw key has its own translation, and there is no other key |
| MoFile.RawKeysAscend | msgfmt.py:62-63 | the raw keys of the file are strictly ascending |
| MoFile.CatalogTextsReadBack | msgfmt.py:58-107 | with ASCII keys a reader gets exactly the catalog's keys and translations, as bytes that the UTF-8 decoder turns into their texts |
| MoFile.FirstBytes | msgfmt.py:95-107 | the file begins with DE 12 04 95 and four zero bytes |
| MoFile.RegionsTile | msgfmt.py:80-92 | header, tables, keys and values follow one another without gap or overlap up to the end of the file |

## Left out

- `content_type`, `ca_cert`, `private`, names and progress callbacks of `makeinfo`, and the libtorrent variant `makeinfo_lt`: easy members.
- The order of `subfiles` and its sorting for v2: the list of files is an input. A file is assumed not to change while it is read.
- `_next_pow2` and `math.ceil(len / block)` use floating point: modelled as the exact integers they stand for.
- MakeTorrent.HashDirectory: without the padding files of `maketorrent.py` (lines 134-140 and 153-157); their size depends on the file alone, so that alignment across directories is not promised.
- Bencode.EncodeValue: and with it Bencode.Bencode, without `Bencached` values and tuples (encoded like lists).
- Text with lone surrogates, mixed key types in one dict (sorting raises), Python's recursion limit and its limit on integer digits.
- Bencode.DecodeValue: takes a bound on the number of parser steps, since the program's parser need not end; `Bencode.FuelMonotone` shows that the bound never changes an answer.
- zlib and rencode: a message body is a byte string, and what is done with a body handed on is outside.
- The per-session message size limit: the size limit of `Transfer` is fixed during a run.
- Handler time-outs and the polling thread of the alert manager: a time-out is a handler that finishes.
- QueueOrder.QueueUp: like the other three moves, for distinct ids only; repeated ids, torrents that are known but not in the queue, and how often an event is emitted are outside.
- The cache time of the client, and the shortcut for entries of equal size in `create_status_dict`.
- StatusDiff.DiffsAreLossless: follows one torrent; that an answer for several torrents may be dropped for those after a tuple is stated by `SessionProxy.OnStatuses`. Plugin keys, answers out of order and the daemon's asynchronous status update are outside.
- `client_key`: a client is known by its key, so IPv4-mapped and IPv6 /64 addresses are one client by assumption.
- `LoginLimiter.Entry` records the times of the failures only so that properties can speak of them.
- URL validation: any partial function from raw values to canonical URLs.
- The login timer, `daemon.info`, error replies, and methods after their authorization check.
- Archiving an unreadable state file; whether the file system makes renames durable before a crash; exceptions other than those `open_state` catches from a damaged file.
- FileTree.BuildTree: directories are values, not dictionaries shared and updated in place; paths are lists of names, so splitting at `/`, absolute paths and entries ending in `/` are outside.
- FileTree.CopyTree: names are distinct after decoding.
- MoFile.Generate: packs least significant byte first, which is the native order `struct` and `array` use on the machines the program runs on.
- The parser of `.po` files, and catalogs with lone surrogates.
