# Verified models of Tillerinobot

A Dafny model of the stateful and algorithmic parts of Tillerinobot, and proofs of what they promise.
`dafny verify dfyconfig.toml` checks everything.

Values are modelled by datatypes and functions; what the code changes step by step is a class or a method with loops
that is proved to compute such a function, and the promises are proved about the function or about whole runs.

| part of the system | files |
|---|---|
| persistent hash map shipped in the Swagger bundle | `TrieSlots`, `HashTrie`, `HashTrieLoops`, `HashTrieBits`, `HashTrieProofs`, `HashTrieMap` |
| Buffer's UTF-8 codec and the streaming decoder | `Utf8`, `Utf8Proofs`, `StringDecoder`, `StringDecoderProofs`, `StringDecoderAnyBytes` |
| base64 codec | `Base64`, `Base64Proofs` |
| least-recently-used queue of the memoizer | `LruQueue`, `LruHistory` |
| chat command dispatch and edit distance | `EditDistance`, `CommandDispatch` |
| priority rate limiter | `RateLimiter`, `RateLimiterInterleaving`, `RateLimiterFifo` |
| merging request objects in the browser | `ObjectTrees`, `RequestSequences`, `DeepMerge` |
| user data with dirty tracking, and overlapping sessions | `UserData`, `UserDataParts`, `UserSessions`, `OverlappingWrites` |
| chat name resolution, its cache and its repair | `NameResolver`, `NameResolverRuns` |
| live feed | `LiveFanout` |
| ping gate in front of outgoing chat | `PingGate` |

## What the code does that a reader may not expect

Each is a lemma, with the exact condition where there is one.

- The UTF-8 encoder loses the last of two lead surrogates at the end of a string
  (`Utf8Proofs.LoneSurrogatesReplaced`).
- The streaming decoder makes one U+FFFD of a character that breaks off, decoding at once makes one of each of its
  bytes (`StringDecoderAnyBytes.BrokenAgreesIff`).
- Base64 text with padding where a group should begin loses the group before it (`Base64Proofs.MisplacedPadding`).
- Fuzzy dispatch is unambiguous for space-free messages exactly when command words are at least five edits apart, but
  never for messages with a space (`CommandDispatch.AmbiguousIffClose`, `CommandDispatch.SpacesAreAmbiguous`).
- The object merge is the right-biased one exactly when no source object meets a truthy primitive
  (`ObjectTrees.MergeIsIdealIff`), and is associative only where no primitive erases anything
  (`ObjectTrees.AssociativeIff`).
- Two sessions that both change a user's data can lose an update (`UserSessions.TwoWritersLose`): exactly when the one
  that closes last changes something but not every part the first one changed
  (`OverlappingWrites.NothingIsLostIff`).
- A stale row for a name nobody has can turn fresh again a day after its first attempt
  (`NameResolverRuns.StaleNobodyStaysIff`).
- The class comment of the rate limiter speaks of permits per second; the code adds one every 50 ms, and the model
  follows the code.

## Model

| member | source | states |
|---|---|---|
| `HashTrieMap.RunRefines` | docs/swagger/swagger-ui-standalone-preset.js:1 | Main theorem: after every sequence of sets and removes the trie map is valid, every lookup gives what a plain finite map gives, `size` is its number of keys, and there is a root exactly when it is not empty. Through growth at the ninth entry, the bitmap and hash-array switches at 16 and 8, collisions and collapsing leaves, for every 32-bit hash. |
| `HashTrieMap.UpdateRefines` | docs/swagger/swagger-ui-standalone-preset.js:1 | One set or remove on a map that refines a plain map is the same change of the plain map, size included. |
| `HashTrieMap.ArrayCorrect` | docs/swagger/swagger-ui-standalone-preset.js:1 | Updating a root that still lists its entries: correct flags, a valid result, and every key looks up as it must, also when the ninth entry turns the list into a trie. |
| `HashTrieMap.AddAllGet` | docs/swagger/swagger-ui-standalone-preset.js:1 | Re-inserting a list of distinct entries below a root: each key of the list is found with its value, every other key as before. |
| `HashTrieMap.ArrayGrowsAt` | docs/swagger/swagger-ui-standalone-preset.js:1 | A list of entries takes new keys up to the eighth; the ninth makes it a trie. |
| `HashTrieMap.BitmapGrowsAt` | docs/swagger/swagger-ui-standalone-preset.js:1 | A bitmap node takes new children up to the sixteenth; the seventeenth makes it a hash array. |
| `HashTrieMap.HashArrayShrinksAt` | docs/swagger/swagger-ui-standalone-preset.js:1 | A hash array gives up children down to the eighth; with seven it is a bitmap node again. |
| `HashTrieProofs.UpdateCorrect` | docs/swagger/swagger-ui-standalone-preset.js:1 | The recursive node update keeps the structural invariant, raises `altered` and `resized` exactly when the binding and the key set change, and changes the lookup of no other key of the same path. |
| `HashTrieProofs.MergeValid` | docs/swagger/swagger-ui-standalone-preset.js:1 | Merging a leaf or collision with an entry of another hash stops at a differing five-bit chunk before the seven chunks are used up, and yields a valid node. |
| `HashTrieProofs.MergeGet` | docs/swagger/swagger-ui-standalone-preset.js:1 | The merged node finds the new entry under its key and every old entry under its own. |
| `HashTrieProofs.UpdateBitmapBecomes` | docs/swagger/swagger-ui-standalone-preset.js:1 | A bitmap node whose child changed turns into a valid node that differs in that child only, or into the one leaf that is left. |
| `HashTrieProofs.UpdateHashArrayBecomes` | docs/swagger/swagger-ui-standalone-preset.js:1 | The same for a hash array, including packing it when seven children are left. |
| `HashTrieProofs.SomeKey` | docs/swagger/swagger-ui-standalone-preset.js:1 | Every valid node holds some key, so no empty branch is ever kept. |
| `TrieSlots.FullPath` | docs/swagger/swagger-ui-standalone-preset.js:1 | Two 32-bit hashes are equal exactly when their first seven five-bit chunks are. |
| `HashTrie.PutEntryGet` | docs/swagger/swagger-ui-standalone-preset.js:1 | Setting or removing a key in an entry list, with the last entry moved into the gap, keeps the keys distinct and changes that key only. |
| `HashTrieLoops.ExpandNodes` | docs/swagger/swagger-ui-standalone-preset.js:1 | The loop over the bits of a bitmap word fills the 32 places with the nodes of its ones, in order, and nothing elsewhere. |
| `HashTrieLoops.PackNodes` | docs/swagger/swagger-ui-standalone-preset.js:1 | The loop over the places collects the nodes but one, in order, and the word whose ones are their places. |
| `HashTrieLoops.CountIsPopulation` | docs/swagger/swagger-ui-standalone-preset.js:1 | Counting the set slots below a slot is counting the ones of the masked bitmap word. |
| `HashTrieBits.MaskedSumIsPopulation` | docs/swagger/swagger-ui-standalone-preset.js:1 | The population count by sums of masked bit fields is the number of ones, for every 32-bit word. |
| `HashTrieBits.IndexIsCount` | docs/swagger/swagger-ui-standalone-preset.js:1 | So the index computed for a child from `bitmap & bit - 1` is the number of set slots below its own. |
| `HashTrieLoops.SpliceIn` | docs/swagger/swagger-ui-standalone-preset.js:1 | The copying loop yields the old nodes with the new one at its index. |
| `HashTrieLoops.SpliceOut` | docs/swagger/swagger-ui-standalone-preset.js:1 | The copying loop yields the old nodes without the one at the index. |
| `HashTrieLoops.FindIndex` | docs/swagger/swagger-ui-standalone-preset.js:1 | The search loop gives the position of the key, or the number of entries. |
| `Utf8Proofs.RoundTripIffPaired` | docs/swagger/swagger-ui-standalone-preset.js:13 | Decoding the encoding of a string gives the string back if and only if its surrogates are paired. |
| `Utf8Proofs.LoneSurrogatesReplaced` | docs/swagger/swagger-ui-standalone-preset.js:13 | On any string each lone surrogate comes back as U+FFFD, if and only if the string does not end in two leads: then the encoder drops the last one. |
| `Utf8Proofs.DecodeOneStandard` | docs/swagger/swagger-ui-standalone-preset.js:13 | The decoder accepts a character exactly when the syntax of section 4 of RFC 3629 does, and then re-encoding gives its bytes; otherwise it gives U+FFFD for one byte. |
| `Utf8Proofs.BytesRoundTripIffWellFormed` | docs/swagger/swagger-ui-standalone-preset.js:13 | Decoding then encoding is the identity exactly on the well-formed byte sequences. |
| `Utf8Proofs.LimitCutsWholeCharacters` | docs/swagger/swagger-ui-standalone-preset.js:13 | A limited encoding is the encoding of the longest list of whole scalar values that fits. |
| `Utf8Proofs.DecodeOfEncoded` | docs/swagger/swagger-ui-standalone-preset.js:13 | What comes back from any encoded string, lost lead included. |
| `Utf8.Encode` | docs/swagger/swagger-ui-standalone-preset.js:13 | The encoding loop, with its pending lead and its byte limit, writes the scalar values of what it reads until one does not fit. |
| `Utf8.Decode` | docs/swagger/swagger-ui-standalone-preset.js:13 | The decoding loop gives the UTF-16 code units of the scalar values read one character at a time. |
| `Utf8.RestIsScalars` | docs/swagger/swagger-ui-standalone-preset.js:13 | From every state of the encoding loop, the scalar values still to be written are those of the rest of the string, but for the lead it loses. |
| `StringDecoderProofs.ChunksDecodeAsWhole` | docs/swagger/swagger-ui-standalone-preset.js:13 | A stream of characters of which the last may be unfinished, cut into any chunks: the `write` results and `end` together are the whole decoded at once, with a single U+FFFD for an unfinished end. |
| `StringDecoderProofs.WellFormedChunks` | docs/swagger/swagger-ui-standalone-preset.js:13 | Well-formed bytes in any chunks decode as the whole does. |
| `StringDecoderProofs.EncodedChunks` | docs/swagger/swagger-ui-standalone-preset.js:13 | From a string to bytes, through any chunks, and back: the scalar values the encoder read. |
| `StringDecoderProofs.ScanStream` | docs/swagger/swagger-ui-standalone-preset.js:13 | The scan of at most three bytes from the back finds exactly the unfinished character at the end and how many bytes it lacks. |
| `StringDecoderProofs.WriteOfStream` | docs/swagger/swagger-ui-standalone-preset.js:13 | One `write` gives the finished characters, and the decoder waits with exactly the bytes of the unfinished one. |
| `StringDecoderAnyBytes.WriteOfAny` | docs/swagger/swagger-ui-standalone-preset.js:13 | One `write` of any bytes, well formed or not: continuation bytes go to the waiting character until it is complete; a byte that cannot continue it turns it into a single U+FFFD and decoding starts afresh there; all but an unfinished character at the end comes out. |
| `StringDecoderAnyBytes.EndOfAny` | docs/swagger/swagger-ui-standalone-preset.js:13 | At the end of any bytes a character that still waits comes out as U+FFFD. |
| `StringDecoderAnyBytes.BrokenAgreesIff` | docs/swagger/swagger-ui-standalone-preset.js:13 | For a character that breaks off the decoder agrees with decoding at once if and only if one byte of it was there. |
| `StringDecoder.Decoder.FillLast` | docs/swagger/swagger-ui-standalone-preset.js:13 | Fills up the waiting character from a chunk, checking each continuation byte; new fields and result. |
| `StringDecoder.Decoder.Text` | docs/swagger/swagger-ui-standalone-preset.js:13 | Decodes a chunk and keeps an unfinished character; new fields and result. |
| `StringDecoder.Decoder.Write` | docs/swagger/swagger-ui-standalone-preset.js:13 | One chunk: new fields and result. |
| `StringDecoder.Decoder.End` | docs/swagger/swagger-ui-standalone-preset.js:13 | A last chunk, with U+FFFD for an unfinished character. |
| `Base64Proofs.RoundTrip` | docs/swagger/swagger-ui-standalone-preset.js:21 | Decoding the encoding of any byte sequence gives it back, for all three padding cases. |
| `Base64Proofs.TextRoundTripIffCanonical` | docs/swagger/swagger-ui-standalone-preset.js:21 | Encoding what a text decodes to gives the text back if and only if it is canonical: whole groups of letters of the alphabet, at most one padded group at the end, and no stray bits before the padding. |
| `Base64Proofs.LettersAreDigits` | docs/swagger/swagger-ui-standalone-preset.js:21 | The letters are the base-64 digits of the bytes read as one number, filled with zero bytes to a multiple of three (section 4 of RFC 4648). |
| `Base64Proofs.Alphabet` | docs/swagger/swagger-ui-standalone-preset.js:21 | The 64 letters, as literal strings. |
| `Base64Proofs.RefusedIff` | docs/swagger/swagger-ui-standalone-preset.js:21 | A text is refused if and only if its length is no multiple of four or it begins with padding. |
| `Base64Proofs.MisplacedPadding` | docs/swagger/swagger-ui-standalone-preset.js:21 | Padding where a group should begin costs the group before it: two zero bytes stand for its three. |
| `Base64Proofs.SameLettersDecodeSame` | docs/swagger/swagger-ui-standalone-preset.js:21 | Texts whose letters have the same values decode alike. |
| `Base64Proofs.UrlSafeRoundTrip` | docs/swagger/swagger-ui-standalone-preset.js:21 | An encoding written with `-` and `_` decodes to the same bytes. |
| `Base64.FromByteArray` | docs/swagger/swagger-ui-standalone-preset.js:21 | The loop over chunks of 16383 bytes and the one or two bytes left give the encoding of the whole array. |
| `Base64.ToByteArray` | docs/swagger/swagger-ui-standalone-preset.js:21 | The loop over groups and the incomplete group fill the array with the decoded bytes; refused lengths give no array. |
| `LruHistory.EvictsLeastRecentlyUsed` | docs/swagger/swagger-ui-standalone-preset.js:21 | For every history of calls, a hit evicts exactly when the live ids and the new one exceed the limit, and then the one whose last use, read off the history, is longest ago. |
| `LruHistory.OrderIsLastUse` | docs/swagger/swagger-ui-standalone-preset.js:21 | In every run the queue lists its ids by last use. |
| `LruHistory.QueueIsLive` | docs/swagger/swagger-ui-standalone-preset.js:21 | In every run the queue holds exactly the live ids, read off the history: a hit adds its id, and over the limit all stay but the one whose last use is longest ago; a deletion takes its id away. |
| `LruQueue.Queue.Hit` | docs/swagger/swagger-ui-standalone-preset.js:21 | Keeps the two maps inverse, the base the least live index and the count the number of ids; the new order and the evicted id. |
| `LruQueue.Queue.Delete` | docs/swagger/swagger-ui-standalone-preset.js:21 | Removes one id from the order and nothing else; keeps the same invariant, with the base loop terminating. |
| `LruQueue.Queue.Clear` | docs/swagger/swagger-ui-standalone-preset.js:21 | Forgets all ids. |
| `LruQueue.Queue.Advance` | docs/swagger/swagger-ui-standalone-preset.js:21 | The base moves up to the least live index. |
| `CommandDispatch.AmbiguousIffClose` | tillerinobot/src/main/java/tillerino/tillerinobot/CommandHandler.java:142-159 | Two plain command words share a claim on some space-free message longer than one letter if and only if they are at most four edits apart. |
| `CommandDispatch.OrderIrrelevant` | tillerinobot/src/main/java/tillerino/tillerinobot/CommandHandler.java:142-159 | In a list of handlers of any kind whose command words are pairwise five or more edits apart, a space-free message longer than one letter that the handlers of other kinds pass on gets the same answer from every arrangement of the list. |
| `CommandDispatch.OneClaimant` | tillerinobot/src/main/java/tillerino/tillerinobot/CommandHandler.java:142-159 | At most one handler of such a list claims the message by its command word. |
| `CommandDispatch.DispatchFinds` | tillerinobot/src/main/java/tillerino/tillerinobot/IRCBot.java:256-263 | The handler that claims is the one that answers, wherever it stands among handlers of any kind that pass the message on. |
| `CommandDispatch.FarApartPermutes` | tillerinobot/src/main/java/tillerino/tillerinobot/CommandHandler.java:142-159 | Being far apart does not depend on the arrangement of the list. |
| `CommandDispatch.SpacesAreAmbiguous` | tillerinobot/src/main/java/tillerino/tillerinobot/CommandHandler.java:142-159 | With a space in the message this fails for every two plain words: some message is claimed by both, and the order decides. |
| `CommandDispatch.ShortMessages` | tillerinobot/src/main/java/tillerino/tillerinobot/CommandHandler.java:142-159 | Words of at least four letters with distinct initials share no claim on a message of at most one letter. |
| `CommandDispatch.NearBothIff` | tillerinobot/src/main/java/tillerino/tillerinobot/CommandHandler.java:148 | Some word is within two edits of both words if and only if they are at most four edits apart. |
| `CommandDispatch.ClaimsIffNear` | tillerinobot/src/main/java/tillerino/tillerinobot/CommandHandler.java:142-159 | For space-free messages longer than one letter only the distance of the lower-cased message decides, and the argument is empty. |
| `CommandDispatch.OneWord` | tillerinobot/src/main/java/tillerino/tillerinobot/CommandHandler.java:144-150 | A message of one word is claimed by the alias letter or a word within two edits, in any case, with nothing left for the handler, and not otherwise. |
| `CommandDispatch.SeveralWords` | tillerinobot/src/main/java/tillerino/tillerinobot/CommandHandler.java:144-158 | A message of several words is claimed as a whole by a misspelling, or else by the alias letter or a misspelling as its first word, and then exactly what follows the space is left for the handler. |
| `CommandDispatch.HandlingHandsOn` | tillerinobot/src/main/java/tillerino/tillerinobot/CommandHandler.java:79-100 | `handling` takes exactly the messages that begin with its start in any case, hands on what follows it, and rejects what its handler passes on. |
| `CommandDispatch.AlwaysHandsOn` | tillerinobot/src/main/java/tillerino/tillerinobot/CommandHandler.java:112-128 | `alwaysHandling` takes the same messages and hands on what follows. |
| `CommandDispatch.JoinedIsList` | tillerinobot/src/main/java/tillerino/tillerinobot/CommandHandler.java:45-63 | Handlers joined by `or`, in whatever nesting, behave as the dispatch loop over them from left to right, rejections included. |
| `CommandDispatch.Dispatch` | tillerinobot/src/main/java/tillerino/tillerinobot/IRCBot.java:256-263 | The loop stops at the first handler that answers or throws. |
| `CommandDispatch.FirstDecides` | tillerinobot/src/main/java/tillerino/tillerinobot/IRCBot.java:256-263 | The first handler of the list that does not pass decides. |
| `EditDistance.NoShorterPath` | tillerinobot/src/main/java/tillerino/tillerinobot/CommandHandler.java:148 | No sequence of single-character edits is shorter than the distance the recurrence computes. |
| `EditDistance.ShortestPath` | tillerinobot/src/main/java/tillerino/tillerinobot/CommandHandler.java:148 | There is a sequence of exactly that many edits, spelled with the letters of the two words. |
| `EditDistance.Symmetric` | tillerinobot/src/main/java/tillerino/tillerinobot/CommandHandler.java:148 | The distance is symmetric. |
| `EditDistance.Triangle` | tillerinobot/src/main/java/tillerino/tillerinobot/CommandHandler.java:148 | The triangle inequality. |
| `EditDistance.Between` | tillerinobot/src/main/java/tillerino/tillerinobot/CommandHandler.java:148 | Between two words there are words at every pair of distances that add up to theirs. |
| `RateLimiter.Limiter.AddPermit` | tillerinobot/src/main/java/tillerino/tillerinobot/RateLimiter.java:96-106 | One permit goes to the first queue with room, none if all are full; the other queues keep theirs. |
| `RateLimiter.Limiter.LimitRate` | tillerinobot/src/main/java/tillerino/tillerinobot/RateLimiter.java:68-89 | Takes a permit from the lowest priority allowed that has one; false exactly when all of those queues are empty. |
| `RateLimiterInterleaving.RequestReserve` | tillerinobot/src/main/java/tillerino/tillerinobot/RateLimiter.java:68-106 | In every interleaving of single polls, takes and offers, queue 0 holds at least the permits of a private bucket of 50 that the first offer after each tick feeds and every granted request is charged to, so a request is only made to wait when that bucket is empty. |
| `RateLimiterInterleaving.TickFills` | tillerinobot/src/main/java/tillerino/tillerinobot/RateLimiter.java:96-106 | A tick that nothing interrupts puts its permit into the first queue with room, of 50, 50 and 100, and wastes it when all are full. |
| `RateLimiterInterleaving.CallTakes` | tillerinobot/src/main/java/tillerino/tillerinobot/RateLimiter.java:68-89 | A call that nothing interrupts takes from the lowest priority that has a permit, down to its own, or is left waiting at its own queue when all of those are empty. |
| `RateLimiterInterleaving.WindowBound` | tillerinobot/src/main/java/tillerino/tillerinobot/RateLimiter.java:44-106 | Between any two moments of any run the permits granted are at most those stored at the first plus the ticks under way or begun since, hence at most 200 plus those. |
| `RateLimiterInterleaving.RunKeeps` | tillerinobot/src/main/java/tillerino/tillerinobot/RateLimiter.java:44-106 | Queues stay within 50, 50 and 100, and permits are conserved: stored, granted, wasted and owed ones add up to the ticks. |
| `RateLimiterFifo.BoundedWaiting` | tillerinobot/src/main/java/tillerino/tillerinobot/RateLimiter.java:44-106 | The waiter with k before it at priority p is served within as many ticks as there are free places above its queue, permits granted from above meanwhile, and k + 1. |
| `RateLimiterFifo.WaitingBalance` | tillerinobot/src/main/java/tillerino/tillerinobot/RateLimiter.java:44-106 | While a thread waits, its position is determined: free places above, grants above and its old position against the ticks. |
| `RateLimiterFifo.NoPermitWasted` | tillerinobot/src/main/java/tillerino/tillerinobot/RateLimiter.java:68-106 | In every run a thread waits at priority p only while the queues p to 2 are all empty. |
| `RateLimiterFifo.RequestsSeeOneBucket` | tillerinobot/src/main/java/tillerino/tillerinobot/RateLimiter.java:44-106 | With requests only, the three queues behave as one bucket of 200 permits with one waiting list. |
| `DeepMerge.Merge` | ppaddict-site/src/main/resources/static/code.js:30-39 | In place on disjoint trees of objects: terminates, the source still denotes its tree, the target denotes what the merge on values gives, the two share no object; false exactly when the script throws. |
| `DeepMerge.MergeKey` | ppaddict-site/src/main/resources/static/code.js:31-37 | One property of the loop, with the same frame. |
| `DeepMerge.RangeReq` | ppaddict-site/src/main/resources/static/code.js:8-17 | A `copy` request leaves the shared base as it is and sends the JSON form of base merged with it; a `mod` request changes the base. |
| `DeepMerge.Stringify` | ppaddict-site/src/main/resources/static/code.js:11-16 | The loop over the properties gives the JSON form: properties that are undefined are dropped. |
| `DeepMerge.Parse` | ppaddict-site/src/main/resources/static/code.js:11 | New objects, sharing nothing, that denote the tree. |
| `ObjectTrees.MergeIsIdealIff` | ppaddict-site/src/main/resources/static/code.js:30-39 | The script computes the right-biased recursive merge if and only if no source object meets a truthy primitive in the target. |
| `ObjectTrees.MergeAt` | ppaddict-site/src/main/resources/static/code.js:30-39 | At every path the right-biased merge has the value or object of the right tree where that has one, and what the left tree has where the right one misses a property. |
| `ObjectTrees.ThrowsIff` | ppaddict-site/src/main/resources/static/code.js:30-39 | The script throws if and only if, at some path, an object of the source with a non-empty object in it meets a truthy primitive of the target. |
| `ObjectTrees.ClashKeeps` | ppaddict-site/src/main/resources/static/code.js:33-34 | Where it does not throw, a truthy primitive that meets an object stays. |
| `ObjectTrees.AssociativeIff` | ppaddict-site/src/main/resources/static/code.js:30-39 | The merge is associative if and only if no primitive in the middle erases what the outer two would have combined. |
| `ObjectTrees.Idempotent` | ppaddict-site/src/main/resources/static/code.js:30-39 | Merging a tree into itself changes nothing. |
| `ObjectTrees.MergeIsRightIff` | ppaddict-site/src/main/resources/static/code.js:30-39 | Merging gives just the right tree if and only if the left one has no path the right one lacks. |
| `ObjectTrees.ChangesCombine` | ppaddict-site/src/main/resources/static/code.js:30-39 | On trees that agree on what is an object, merging changes one after the other is merging all of them combined first. |
| `RequestSequences.RequestsCombine` | ppaddict-site/src/main/resources/static/code.js:8-17 | On such trees no request throws, and a sequence of `mod` requests followed by a `copy` request, merged as the script merges, sends the JSON form of the base merged with all of them merged together. |
| `RequestSequences.JsonMerge` | ppaddict-site/src/main/resources/static/code.js:11-16 | Copying the base through JSON before the merge does not change what is sent, for any two trees. |
| `RequestSequences.JsonAt` | ppaddict-site/src/main/resources/static/code.js:16 | At every path, what is sent has the values and objects of the tree, but for the properties that are undefined. |
| `RequestSequences.JsonKeepsIff` | ppaddict-site/src/main/resources/static/code.js:16 | A tree is sent as it is if and only if no property anywhere is undefined. |
| `RequestSequences.ModsMerge` | ppaddict-site/src/main/resources/static/code.js:13-14 | After all `mod` requests the base is the right-biased merge of them in turn. |
| `DeepMerge.RequestsInTurn` | ppaddict-site/src/main/resources/static/code.js:8-17 | The same requests on objects in the heap, for any trees: what is sent, and the base that is left, are those of the sequence on values, or one of them throws. |
| `DeepMerge.MergeAndSend` | ppaddict-site/src/main/resources/static/code.js:12-16 | Merging into an object and serialising it, with the frame that lets requests follow each other. |
| `UserData.SessionStoresEverything` | tillerinobot/src/main/java/tillerino/tillerinobot/UserDataManager.java:68-130 | Loading after any session gives exactly what the session intended: writing only when something changed is as good as always writing. |
| `UserDataParts.LastSetIsReadBack` | tillerinobot/src/main/java/tillerino/tillerinobot/UserDataManager.java:85-287 | For every setting and the language, the value of the last operation that sets it is what is read back after the session. |
| `UserDataParts.UnsetIsReadBack` | tillerinobot/src/main/java/tillerino/tillerinobot/UserDataManager.java:85-287 | A part that no operation sets is read back as it was stored. |
| `UserDataParts.NewUser` | tillerinobot/src/main/java/tillerino/tillerinobot/UserDataManager.java:68-198 | What a user has who was never stored. |
| `UserDataParts.WritesLittle` | tillerinobot/src/main/java/tillerino/tillerinobot/UserDataManager.java:261-275 | Nothing is written unless something changed, and a language that reports no change is not serialised anew. |
| `UserData.ApplyAllKeepsClean` | tillerinobot/src/main/java/tillerino/tillerinobot/UserDataManager.java:68-130 | While nothing counts as changed, the stored row already means what memory means. |
| `UserData.Session.constructor` | tillerinobot/src/main/java/tillerino/tillerinobot/UserDataManager.java:238-259 | The object loaded from a row, or a new one. |
| `UserData.Session.Change` | tillerinobot/src/main/java/tillerino/tillerinobot/UserDataManager.java:85-198 | A setter: the field, and a flag that only ever goes up. |
| `UserData.Session.SwitchLanguage` | tillerinobot/src/main/java/tillerino/tillerinobot/UserDataManager.java:94-103 | Another identifier forgets the language object and its serialised form; the same one does nothing. |
| `UserData.Session.UsingLanguage` | tillerinobot/src/main/java/tillerino/tillerinobot/UserDataManager.java:108-130 | Decodes or makes the language once, then applies the function to it. |
| `UserData.Session.SaveUserData` | tillerinobot/src/main/java/tillerino/tillerinobot/UserDataManager.java:261-287 | Writes nothing unless something changed; serialises the language only if it reports a change; clears both flags. |
| `UserSessions.ReadersDoNotInterfere` | tillerinobot/src/main/java/tillerino/tillerinobot/UserDataManager.java:207-287 | With any number of overlapping sessions of which at most one makes a change, the row is at every moment what that session alone would have made it. |
| `UserSessions.WriterIsStored` | tillerinobot/src/main/java/tillerino/tillerinobot/OsuApiV2Sometimes.java:23-31 | After that session has closed, the row means what it intended. |
| `UserSessions.TwoWritersLose` | tillerinobot/src/main/java/tillerino/tillerinobot/UserDataManager.java:261-287 | A run in which two changing sessions lose an update. |
| `OverlappingWrites.LaterCloserDecides` | tillerinobot/src/main/java/tillerino/tillerinobot/UserDataManager.java:207-287 | Two sessions that both open before either closes, in any interleaving, among others that write nothing: if the one that closes last changes anything the row means what it intended for the row both loaded, and otherwise what the other one intended. |
| `OverlappingWrites.NothingIsLostIff` | tillerinobot/src/main/java/tillerino/tillerinobot/UserDataManager.java:207-287 | Nothing of the first closer is lost, but for what the second sets itself, if and only if the second changes nothing or sets every part that the first leaves different from the row. Likewise, exactly when nothing of either is lost. |
| `NameResolverRuns.CacheCoherent` | tillerinobot/src/main/java/tillerino/tillerinobot/IrcNameResolver.java:45-177 | In every run of resolve, setMapping, resolveManually and redownloadUser with arbitrary evictions a cached id is the one in the row and never -1. |
| `NameResolverRuns.RepairHolds` | tillerinobot/src/main/java/tillerino/tillerinobot/IRCBot.java:417-448 | After a mismatch is repaired, for 90 days, through any lookups, evictions and mappings of other names, and whatever asking again would give, the nick resolves to the user found and the old user's own name to the old id. |
| `NameResolverRuns.RunHolds` | tillerinobot/src/main/java/tillerino/tillerinobot/IrcNameResolver.java:45-120 | A mapping to a user holds in row and cache through any such events for 90 days. |
| `NameResolverRuns.FoundIsResolved` | tillerinobot/src/main/java/tillerino/tillerinobot/IrcNameResolver.java:45-120 | A name that must be asked for and that the API knows is answered with that user, stored and cached. |
| `NameResolverRuns.FoundStays` | tillerinobot/src/main/java/tillerino/tillerinobot/IrcNameResolver.java:45-120 | It resolves to that user for 90 days, through any lookups, evictions and mappings of other names. |
| `NameResolverRuns.NotFoundIsNobody` | tillerinobot/src/main/java/tillerino/tillerinobot/IrcNameResolver.java:68-120 | A name the API does not know is stored as nobody's with its first attempt, and not cached. |
| `NameResolverRuns.FailureAnswers` | tillerinobot/src/main/java/tillerino/tillerinobot/IrcNameResolver.java:91-100 | A timeout on a stale mapping to a user answers and caches the old id; any other failure is an error; no row changes. |
| `NameResolverRuns.KnownIsAnswered` | tillerinobot/src/main/java/tillerino/tillerinobot/IrcNameResolver.java:45-65 | A cached or fresh name is answered from the row without asking. |
| `NameResolverRuns.AsksWhen` | tillerinobot/src/main/java/tillerino/tillerinobot/IrcNameResolver.java:74-84 | When the API is asked, in milliseconds: without a row, for a user after 90 days, and for nobody after a day, or after an hour within a day of the first attempt. |
| `NameResolverRuns.MatchingNick` | tillerinobot/src/main/java/tillerino/tillerinobot/IRCBot.java:423-447 | A nick that resolves to a user of that chat name gets that user, and nothing is mapped. |
| `NameResolverRuns.RepairWithoutUser` | tillerinobot/src/main/java/tillerino/tillerinobot/IRCBot.java:428-448 | A repair that finds nobody for the nick throws, and leaves the other name mapped to the old user. |
| `NameResolverRuns.IrcNameIs` | tillerinobot/src/main/java/tillerino/tillerinobot/IrcNameResolver.java:140-142 | In a chat name each space is an underscore and nothing else changes. |
| `NameResolverRuns.EventsMap` | tillerinobot/src/main/java/tillerino/tillerinobot/IrcNameResolver.java:129-177 | What setting, resolving manually and downloading again leave in row and cache. |
| `NameResolverRuns.RetrySchedule` | tillerinobot/src/main/java/tillerino/tillerinobot/IrcNameResolver.java:79-112 | For a name nobody has, completed downloads are more than an hour apart, at most 24 start within a day of the first attempt, and later ones are more than a day apart. |
| `NameResolverRuns.DownloadsSpaced` | tillerinobot/src/main/java/tillerino/tillerinobot/IrcNameResolver.java:79-112 | The spacing from any stored mapping on. |
| `NameResolverRuns.CutoffMonotone` | tillerinobot/src/main/java/tillerino/tillerinobot/IrcNameResolver.java:74-80 | The age limit stays between 90 and 180 days and the cutoff never moves back. |
| `NameResolverRuns.StaleStays` | tillerinobot/src/main/java/tillerino/tillerinobot/IrcNameResolver.java:74-80 | A stale mapping to a user stays stale until it is refreshed. |
| `NameResolverRuns.StaleNobodyStaysIff` | tillerinobot/src/main/java/tillerino/tillerinobot/IrcNameResolver.java:81-84 | For every row of a name nobody has: once stale it stays stale if and only if it is more than a day old, or was stored before its first attempt. |
| `NameResolverRuns.NegativeStalenessLapses` | tillerinobot/src/main/java/tillerino/tillerinobot/IrcNameResolver.java:81-84 | Such a row, which turns fresh again a day after its first attempt. |
| `NameResolver.Resolver.GetIDByUserName` | tillerinobot/src/main/java/tillerino/tillerinobot/IrcNameResolver.java:68-120 | When a download is made, what is stored, and the answer, timeouts with a stale id included. |
| `NameResolver.Resolver.ResolveIRCName` | tillerinobot/src/main/java/tillerino/tillerinobot/IrcNameResolver.java:45-65 | The cache, then the table; only somebody is cached. |
| `NameResolver.Resolver.SetMapping` | tillerinobot/src/main/java/tillerino/tillerinobot/IrcNameResolver.java:150-159 | Replaces the row and drops the cached id. |
| `NameResolver.Resolver.ResolveManually` | tillerinobot/src/main/java/tillerino/tillerinobot/IrcNameResolver.java:129-137 | Maps the name the API gives for an id; a user the API does not know changes nothing. |
| `NameResolver.Resolver.RedownloadUser` | tillerinobot/src/main/java/tillerino/tillerinobot/IrcNameResolver.java:169-177 | Maps the name to the user found, or to -1. |
| `NameResolver.Resolver.GetUserOrThrow` | tillerinobot/src/main/java/tillerino/tillerinobot/IRCBot.java:417-448 | Resolve, compare names, repair, answer. |
| `LiveFanout.StreamIsAccepted` | tillerinobot-live/src/main/rust/rabbit.rs:141-162 | A client's stream is exactly the events published while its own channel was open and had room, in order, converted with its own salt. |
| `LiveFanout.ConvertIs` | tillerinobot-live/src/main/rust/rabbit.rs:156-162 | What a client gets of each kind of event: id, text and ping as they are, and the name hidden with its own salt. |
| `LiveFanout.EventReaches` | tillerinobot-live/src/main/rust/rabbit.rs:141-151 | An event is queued for an open client while fewer than 100 messages wait, and changes nothing for it otherwise. |
| `LiveFanout.AllIsTaken` | tillerinobot-live/src/main/rust/websocket.rs:53-58 | Events and pongs reach a client in one order, that of the events published and the pings answered while its channel was open and had room. |
| `LiveFanout.SaltIsOwn` | tillerinobot-live/src/main/rust/websocket.rs:35-51 | In every run a client keeps the salt it connected with. |
| `LiveFanout.DrainedInOrder` | tillerinobot-live/src/main/rust/websocket.rs:40-46 | An open client gets all that waits for it, in order. |
| `LiveFanout.ClientsAreIsolated` | tillerinobot-live/src/main/rust/rabbit.rs:141-151 | Removing all that other clients do changes nothing a client gets. |
| `LiveFanout.RunKeeps` | tillerinobot-live/src/main/rust/websocket.rs:40-58 | In every run no channel holds more than 100 messages, and every open channel is connected exactly once. |
| `LiveFanout.Hub.ConsumeSingle` | tillerinobot-live/src/main/rust/rabbit.rs:141-154 | One pass offers the event to every connection and keeps those that are not closed, in order. |
| `LiveFanout.Hub.SendTo` | tillerinobot-live/src/main/rust/rabbit.rs:145-150 | A full channel misses the event and stays; a closed one is dropped. |
| `LiveFanout.Hub.Connect` | tillerinobot-live/src/main/rust/websocket.rs:40-51 | A new client gets an empty channel of its own at the end of the list. |
| `PingGate.OwnPongNeeded` | tillerinobot-irc/src/main/rust/ircc.rs:179-207 | A tenth call is only sent after a pong with its own marker came in while it waited; a gate that fails sends nothing. |
| `PingGate.QueuedPongIsFound` | tillerinobot-irc/src/main/rust/ircc.rs:192-207 | A matching pong queued behind k others before the deadline is found by the k + 1st look, whatever else comes in. |
| `PingGate.TimesOut` | tillerinobot-irc/src/main/rust/ircc.rs:192-207 | When no pong with its marker is queued and none comes in, the call is refused once the time is over, and the queue is empty. |
| `PingGate.QueueBoundedAndEveryTenth` | tillerinobot-irc/src/main/rust/ircc.rs:173-221 | In every run at most 100 pongs are queued and exactly one call in ten has to pass the gate. |
| `PingGate.CallsDecide` | tillerinobot-irc/src/main/rust/ircc.rs:179-209 | In every run the results are what becomes of the calls by their list alone: other methods are unknown and do not count, every message or action but each tenth is sent without a ping, and each tenth is sent behind its pong or refused. |
| `PingGate.PongsQueue` | tillerinobot-irc/src/main/rust/ircc.rs:173-176 | A pong is queued while fewer than 100 wait. |
| `PingGate.RunKeeps` | tillerinobot-irc/src/main/rust/ircc.rs:173-221 | The invariant behind it, from any state that satisfies it. |
| `PingGate.Pinger.Ping` | tillerinobot-irc/src/main/rust/ircc.rs:179-209 | Counts, pings and waits: what it returns and leaves behind is a run of the protocol in which pongs only come in as they arrived. |
| `PingGate.Pinger.Await` | tillerinobot-irc/src/main/rust/ircc.rs:192-207 | The receive loop stops at the matching pong, or by time only when every pong that came in has been looked at. |
| `PingGate.Pinger.Pong` | tillerinobot-irc/src/main/rust/ircc.rs:212-219 | A pong is queued, or lost when 100 are waiting. |
| `PingGate.Pinger.Handle` | tillerinobot-irc/src/main/rust/rabbit.rs:180-197 | A message or action counts and is sent only behind the gate; other methods are refused and do not count. |

## Left out

- The owner-id path of the hash map, which changes nodes in place: every update modelled here builds new nodes.
- HashTrieMap.ArrayCorrect: at the ninth entry the source builds the trie with a fresh owner id, in place; the model
  builds it by updates that make new nodes. No node of that trie is reachable from elsewhere while it is built.
- HashTrieMap.AddAllGet: re-inserts by updates that make new nodes, for the same reason.
- A bitmap word in a node is the set of its ones. `HashTrieLoops` and `HashTrieBits` tie set and word together for
  indexing, counting, expanding and packing; there words are unsigned, where the source's are signed.
- Key equality and hashing of the hash map: a key is modelled up to its own equality and carries its hash. Values are
  compared by equality, so a NaN value counts as equal to itself here.
- Shifts and masks of the codecs are written as quotients, remainders and sums of fields that do not overlap.
- Lower-casing and case-insensitive prefixes of commands beyond the letters A to Z; the list of choices in error texts.
- The list of handlers that are not of the shorthand kind: each is any function of the rest of the message.
- RateLimiter.Limiter.LimitRate: returns whether the caller has to wait instead of blocking; waiting is a step of
  `RateLimiterInterleaving` and `RateLimiterFifo`. The time spent blocked and the thread's own priority setting.
- RateLimiterFifo.BoundedWaiting: takes each scan of the queues as one step and serves waiters in order, as the fair
  queues do; the bounds for arbitrary interleavings of single queue operations are those of `RateLimiterInterleaving`.
- Arrays, functions and prototype keys in merged objects, and the keys a non-empty string has of its own (`length` and
  its indices); number values beyond integers.
- Failed writes of user data and unreadable rows; the JSON codec is taken to give back what was written.
- Concurrent calls for one name in the resolver, its semaphore, and how the database compares names; every check of a
  lookup sees one reading of the clock, and only the time after a download is a second one.
- NameResolverRuns.RepairHolds: user ids are positive, as the API's are.
- The hash behind a client's anonymised names, an arbitrary function of name and salt here.
- Closing of a client's socket is a step of the model; that the sending side notices it is not.
- A pong queue whose sender is gone, silent mode, and acknowledgements of the message broker. That a fresh marker
  is not in the queue already is taken from its randomness.
- The message broker, chat, HTTP and database protocols, logging and timing.
- The other data structures and user interface code of the Swagger bundles, the individual chat handlers, the API
  clients, message formatting and configuration: easy members or outside what is stated here.
