# Verified models of the HalpCheers core

HalpCheers sends anonymous appreciation "pings" to handles. This project models the parts of it whose correctness
rests on arithmetic, on state shared between requests, or on a protocol between machines, and proves what they are
relied on for. `dafny verify dfyconfig.toml` checks everything.

The model follows the program's form. Objects that the program updates in place are classes whose methods are
proved against specification functions or step relations; what holds over whole runs is proved about those steps.

| Files | What they model |
|---|---|
| `Gf256`, `GeneratorPowers`, `ReedSolomon`, `QrDivisor` | GF(256) tables and the error-correction divider of the QR encoder |
| `BitStrings`, `QrBits`, `QrLayout`, `QrStream`, `QrCode` | bit packing, placement, masking and format of the QR symbol, and a reader for it |
| `Contacts`, `ContactsPadding`, `ContactsSync` | merging, padding and synchronising the sealed contact list |
| `Groups`, `GroupEffects`, `Resolver`, `ResolverRecency`, `GroupPing`, `GroupServer` | group tables with their cascades, the resolver's caches, and pings in front of them |
| `BloomFilter`, `PairCascade`, `PairDays`, `GroupSpread`, `TokenBucket`, `BoundedBuckets`, `CountMinSketch`, `GuardService` | the abuse guard |
| `Coalescing`, `Delivery` | the bounded queue, the digest accumulator and the pumps between them |
| `Words`, `Fips180`, `Sha256Constants`, `FirstPrimes`, `Sha256Grinder`, `LeadingZeros` | SHA-256 as FIPS 180-4 defines it and as the browser computes it |
| `DecimalPrinting`, `ProofOfWork` | hashcash tokens: printing, solving, checking, challenges |
| `KolmogorovSmirnov` | the two-sample statistic of the load test |
| `ChatBot`, `ChatBotCrowd` | the chat bot's cooldown maps |

## Results that differ from what the program's own text suggests

Where a property fails, the code is modelled as it is, the failing input is given, and the exact condition is proved.

- **QR divisor.** The error-correction loop reads the divisor's coefficients highest degree first, but they are stored
  lowest first. Every codeword vanishes at the required powers of 2 exactly when the coefficients below the leading one
  read the same both ways (`ReedSolomon.CodewordsVanishIffPalindrome`), and that is so for at most one error-correction
  byte and for no other number up to 255 (`QrDivisor.CodewordsVanishIff`), so in none of the four versions; the codeword
  of the byte 1 shows it (`QrCode.NoVersionVanishes`). The encoder's header calls the symbol a QR Code Model 2; the model
  claims only what is proved here.
- **QR length.** A text longer than 102 bytes is accepted and cannot be read back (`QrCode.SymbolReadsBack`); beyond 62
  its data codewords exceed the version's, and beyond 84 check bytes are cut off (`QrCode.CodewordFitsIff`).
- **KS ties.** A value in both samples is passed in one sample first, so the walk can exceed the statistic; exactly when
  it does is `KolmogorovSmirnov.WalkVersusStatistic`.
- **SHA-256 padding** holds the low 32 bits of the bit length only: it is the standard's exactly below 2^29 bytes.
- **Leading zeros.** The server counts in eight bits; the two counters differ exactly on a digest of 32 zero bytes.
- **Solver.** With a prefix of 256 bytes or more the server's solver indexes past its buffer (`ProofOfWork.SolvePoW`).
- **Distinct-group cap.** A false positive of the first Bloom filter skips the charge. Over every sequence of pings a
  sender's distinct groups number its charged grants, at most ten, and its uncharged first grants
  (`GroupSpread.GroupsOfPings`); once the charges are used a group passes exactly when it looks seen and its pair has a
  free slot (`GroupSpread.OutOfChargesIff`). Twenty-two pings to handles of one kind each pass the cap
  (`GroupSpread.CapCanBePassed`).
- **Token buckets** admit exactly the whole tokens there and flowing in (`TokenBucket.LevelBound`,
  `TokenBucket.LevelIsReached`), so an hourly limit of 20 bounds one hour by 40. A period keeps to the limit whatever the
  calls exactly when it starts with less than one token (`TokenBucket.PeriodKeepsLimitIff`).
- **Pair limit.** It holds per calendar day: any 24 hours grant a pair at most twice its limit
  (`PairDays.StretchIsLimited`), and around every midnight they can (`PairDays.TwiceIsReached`).
- **Chat cooldowns.** They are kept while no more users or channels than a map holds come between; with one more, a run
  answers the first again within both cooldowns (`ChatBot.NoUserTwice`, `ChatBotCrowd.LimitIsTight`).
- **Suspensions** last as long as no new one meets a full map (`GuardService.StaysSuspended`); one that does may free
  anyone (`GuardService.AnyoneMayBeFreed`).
- **Sketch.** The estimate is below the true count exactly when one of the pair's 32-bit cells has wrapped to less than
  that count (`CountMinSketch.BelowIffWrapped`), and 0 exactly when one has wrapped to 0 or was never hit
  (`CountMinSketch.OverflowForgets`).
- **Resolver coherence.** Creating a group and joining one mint a handle without invalidating it; a cached "unknown" for
  that handle then survives. Both keep full coherence exactly when the handle was not cached, and both have runs in which
  it was (`GroupPing.CreateCoherence`, `GroupPing.CreateCanLoseCoherence`, `GroupPing.JoinCoherence`,
  `GroupPing.JoinCanLoseCoherence`). Answers that let a ping through are always right (`GroupPing.RunIsSafe`).
- **Nicknames.** Days and deletions never depend on which list is local (`Contacts.JoinLaws`), but nicknames do: when both
  entries of a handle are live, of one day and named differently, and when a live entry without a name is later than a
  deleted one that kept its name, which is cleared if that one is inserted first and passed on if it is second. For
  lists with one entry per handle these are exactly the cases (`Contacts.LocalMattersIff`, `Contacts.PairOrderIff`); an
  input of the second kind is `Contacts.ReviveDependsOnOrder`.
- **Nonce.** The check sees of the nonce only what the prefix leaves room for in 256 bytes (`ProofOfWork.NonceSeenIff`).

## Model

| member | source | states |
|---|---|---|
| Gf256.MulIsProductModulo | web/app/src/qr.ts:7-27 | multiplication is the carry-less product of the two polynomials reduced modulo 0x11d: it is the one remainder below 256 |
| Gf256.MulAssociates | web/app/src/qr.ts:24-27 | field multiplication is associative |
| Gf256.MulCommutes | web/app/src/qr.ts:24-27 | field multiplication is commutative |
| Gf256.MulAddsRight | web/app/src/qr.ts:24-27 | field multiplication distributes over exclusive or |
| Gf256.NoZeroDivisors | web/app/src/qr.ts:24-27 | a product is 0 only if a factor is |
| Gf256.GeneratorOrder | web/app/src/qr.ts:11-22 | the generator 2 has order exactly 255 |
| Gf256.LogExists | web/app/src/qr.ts:11-22 | every nonzero byte is one of the first 255 powers of 2, so each has a logarithm |
| Gf256.Tables.constructor | web/app/src/qr.ts:8-22 | the filled tables are the powers of 2, twice over, and their logarithms |
| Gf256.Tables.Fill | web/app/src/qr.ts:11-22 | the table loop, by shifting and reducing, leaves valid tables |
| Gf256.Tables.GfMul | web/app/src/qr.ts:24-27 | adding logarithms gives the field product of any two bytes |
| ReedSolomon.RsComputePoly | web/app/src/qr.ts:29-41 | the loop builds the product of (x + 2^i) for i below the count |
| ReedSolomon.MultiplyInto | web/app/src/qr.ts:32-37 | one round multiplies the polynomial so far by one factor |
| ReedSolomon.GeneratorRoots | web/app/src/qr.ts:29-41 | the roots of the computed polynomial are exactly 2^0, 2^1, and so on below the count |
| ReedSolomon.GeneratorIsMonic | web/app/src/qr.ts:29-41 | it has one coefficient more than the count, and the leading one is 1 |
| ReedSolomon.RsCalculateEc | web/app/src/qr.ts:43-55 | the shift register returns the remainder of the data after division by the divisor it reads |
| ReedSolomon.FeedByte | web/app/src/qr.ts:46-53 | feeding one byte, in place, is one step of long division |
| ReedSolomon.DivisionIsExact | web/app/src/qr.ts:43-55 | for every data and every divisor, data times x^ec plus the remainder is a multiple of the monic divisor |
| ReedSolomon.RemainderIsUnique | web/app/src/qr.ts:43-55 | no other check bytes make the codeword a multiple of the divisor |
| ReedSolomon.CodewordRoots | web/app/src/qr.ts:43-55 | a codeword vanishes at a point exactly when the divisor or the quotient does |
| ReedSolomon.CodewordsVanishIffPalindrome | web/app/src/qr.ts:43-52 | all codewords vanish at the powers of 2 exactly when the stored coefficients below the leading one are the same reversed |
| QrDivisor.CodewordsVanishIff | web/app/src/qr.ts:29-55 | up to 255 check bytes, all codewords vanish at the required powers exactly for none or one; for every larger number the codeword of the byte 1 does not |
| QrCode.NoVersionVanishes | web/app/src/qr.ts:70-75 | so in none of the four versions do all codewords vanish at the required powers |
| QrDivisor.GeneratorBackwards | web/app/src/qr.ts:29-41 | the stored coefficients read highest degree first give, at 2^i, the product of 2^(i+j) + 1 |
| ReedSolomon.TooManyRoots | web/app/src/qr.ts:29-41 | a polynomial of degree below n with n roots is zero |
| QrBits.EncodeText | web/app/src/qr.ts:130-176 | the pushed bits, packed, are mode, count, text, terminator, zero fill and alternating pad bytes |
| QrBits.PackBits | web/app/src/qr.ts:160-168 | packing bit by bit is the inverse of unpacking |
| QrBits.CodewordsHoldPayload | web/app/src/qr.ts:134-176 | the bits of the codewords begin with mode, count and text |
| QrBits.ReadsBackIffItFits | web/app/src/qr.ts:134-147 | a reader gets the text back exactly when the stream holds the whole payload and the length fits its eight-bit count |
| QrLayout.DataCellsExact | web/app/src/qr.ts:187-216 | the serpentine walk visits every cell that is not reserved exactly once, and no other |
| QrLayout.DataCellsInOrder | web/app/src/qr.ts:187-216 | in order: pairs of columns from the right without the timing column, alternately upwards and downwards, and in a row from right to left |
| QrLayout.DataCellCount | web/app/src/qr.ts:70-75 | the four sizes have 208, 384, 592 and 832 free cells |
| QrCode.QRCode.DrawFinderPattern | web/app/src/qr.ts:246-264 | draws one finder pattern with its separator, clipped to the symbol, and reserves exactly those cells |
| QrCode.QRCode.DrawTiming | web/app/src/qr.ts:104-111 | draws and reserves the two timing lines |
| QrCode.QRCode.ReserveFormat | web/app/src/qr.ts:118-128 | reserves exactly the format areas without touching modules |
| QrCode.QRCode.DrawFunctionPatterns | web/app/src/qr.ts:99-128 | afterwards the reserved cells are exactly those the layout names |
| QrCode.QRCode.PlacePair | web/app/src/qr.ts:195-214 | two columns take the next bits of the stream in walk order, and reserved cells keep their modules |
| QrCode.QRCode.PlaceBits | web/app/src/qr.ts:187-216 | unmasking the cells in walk order shows the stream, zeros after its end; reserved modules stay |
| QrCode.QRCode.WriteFormat | web/app/src/qr.ts:218-243 | the two copies of the format bits change reserved cells only |
| QrCode.QRCode.BuildMatrix | web/app/src/qr.ts:96-244 | the data cells show the stream of data and check codewords and the reserved cells the fixed part |
| QrCode.QRCode.constructor | web/app/src/qr.ts:81-94 | the symbol has the size of the smallest version with two bytes to spare, or of the largest; its cells hold, as far as they go, data codewords that decode to the text with terminator and literal pad bytes, followed by the check bytes that make the whole a multiple of the divisor, and zeros after them |
| QrStream.EncodedIsCodeword | web/app/src/qr.ts:130-185 | the encoder's data codewords and their remainder are such a codeword, for every text and version |
| QrStream.CellsAreDetermined | web/app/src/qr.ts:130-185 | and no other cells hold one: text, capacity and number of check bytes determine them |
| QrStream.FirstBitsAreCodeword | web/app/src/qr.ts:187-216 | where the cells have room for the whole codeword their first bits, packed, are it |
| QrCode.FirstBytes | web/app/src/qr.ts:187-216 | so for every text of at most 84 bytes the first bits of the symbol, packed, are data and check bytes |
| QrCode.CodewordFitsIff | web/app/src/qr.ts:70-94 | a symbol has room for the whole codeword exactly for at most 84 bytes of text |
| QrCode.QRCode.ReadUnderMask | web/app/src/qr.ts:204-208 | a cell is inverted exactly where row and column add up to an even number |
| QrCode.QRCode.FormatShows | web/app/src/qr.ts:218-243 | both copies of the format information show 101010000010010 |
| QrCode.QRCode.PatternsShow | web/app/src/qr.ts:99-111 | the three corners show the finder pattern, cell by cell, and dark and light take turns on the timing lines |
| QrCode.SymbolReadsBack | web/app/src/qr.ts:81-94 | reading a finished symbol gives the text back exactly when it has at most 102 bytes |
| Contacts.JoinLaws | web/core/src/contacts.ts:96-156 | on (day, deleted) per handle merging is commutative, associative and idempotent |
| Contacts.JoinIsLeast | web/core/src/contacts.ts:121-138 | the merge is the least state above both, with the later day winning and deletion winning on one day |
| Contacts.LatestDecides | web/core/src/contacts.ts:121-138 | what a merge keeps of a handle is of the latest day any of its entries has, and deleted exactly if some entry of that day is |
| Contacts.MergeContacts | web/core/src/contacts.ts:100-156 | the merged list is the pointwise maximum of the two, with exactly one entry per nonempty trimmed handle, each being what the insertions of the remote and then the local list leave of its handle |
| Contacts.Upsert | web/core/src/contacts.ts:103-146 | taking in one entry joins its state into the accumulator and settles the nickname |
| Contacts.NamedByLatest | web/core/src/contacts.ts:103-153 | a live named entry that is the latest of its handle, local before remote on one day, is what the merge keeps |
| Contacts.NicknameHasOrigin | web/core/src/contacts.ts:103-153 | every nickname of the merge is one that an entry of the same handle had |
| Contacts.PairOrderIff | web/core/src/contacts.ts:103-138 | two given entries of one handle merge alike in both orders exactly when they are not both live, of one day and named differently, and neither is live, nameless and later than the other, deleted one with a name |
| Contacts.LocalMattersIff | web/core/src/contacts.ts:100-156 | for lists with one entry per handle it matters which is local exactly when it does for the two entries of some handle |
| Contacts.OwnDecides | web/core/src/contacts.ts:101-153 | what a merge keeps of a handle is decided by the entries of that handle, in their order |
| Contacts.ReviveDependsOnOrder | web/core/src/contacts.ts:108-133 | a deleted entry that kept its name and a later nameless live one: the merge keeps the name in one order and not in the other |
| Contacts.CanonicalView | web/core/src/contacts.ts:155-155 | in a merged list every entry is found under its own handle with its own day and mark |
| ContactsPadding.Pad | web/core/src/contacts.ts:63-79 | writes the length, the payload and zeros up to whole blocks, or refuses what exceeds the ceiling |
| ContactsPadding.PaddingRoundTrip | web/core/src/contacts.ts:60-94 | whatever can be padded unpads to the same bytes, and the server accepts its sealed length exactly under a ceiling its blocks fit |
| ContactsPadding.SizeRevealsBlocksOnly | web/core/src/contacts.ts:60-79 | the padded size tells two payloads apart exactly when they need different numbers of blocks |
| ContactsSync.StepKeepsInv | web/core/src/contacts.ts:247-276 | every step of any client or the server keeps the protocol's invariant |
| ContactsSync.NoLostUpdate | server/internal/http/contacts.go:224-253 | over every interleaving the version counts the commits, the server's state only grows, and stays above everything any client committed |
| ContactsSync.NothingInvented | web/core/src/contacts.ts:239-279 | at every moment of every run each handle's state on the server was there at first or was brought by some commit |
| ContactsSync.DoneHasEverything | web/core/src/contacts.ts:259-264 | a finished sync returns exactly the server's state at its commit, everything before it included |
| ContactsSync.ConflictMeansProgress | web/core/src/contacts.ts:265-275 | a conflict means another client committed after the fetch, and giving up means more than the allowed retries of such commits |
| ContactsSync.ContactsStore.Put | server/internal/http/contacts.go:224-253 | the write happens exactly when the version matches, and raises it by one |
| ContactsSync.ContactsStore.SyncContacts | web/core/src/contacts.ts:239-279 | the retry loop against other writers: it succeeds exactly if some attempt meets no foreign write; what was there and what is local are then stored, and of local entries, one per handle, a named one that still has the latest day keeps its name |
| ContactsSync.MergeKeepsNames | web/core/src/contacts.ts:247-259 | merging a fetched list into the working one keeps the local names on entries of the same day |
| Groups.CreateTxKeepsInv | server/internal/http/groups.go:181-224 | creating a group keeps one owner row per group, rows and group handles in correspondence, and names distinct up to case |
| Groups.JoinTxKeepsInv | server/internal/http/groups.go:458-536 | joining keeps it, and adds exactly one member under a new handle |
| Groups.LeaveTxKeepsInv | server/internal/http/groups.go:587-646 | leaving keeps it, with promotion of the successor or deletion of a group left empty |
| Groups.RemoveTxKeepsInv | server/internal/http/groups.go:694-727 | removing a member keeps it |
| Groups.UpdateTxKeepsInv | server/internal/http/groups.go:854-941 | renaming, regrading and transferring ownership, to oneself too, keep it |
| Groups.RotateTxKeepsInv | server/internal/http/groups.go:782-800 | rotating the invitation keeps it |
| Groups.DeleteTxKeepsInv | server/internal/http/groups.go:981-1014 | deleting a group with its cascade keeps it |
| Groups.PromotionKeepsInv | server/internal/http/groups.go:600-645 | dropping the owner's row and promoting a successor leaves exactly one owner, whom the group names |
| Groups.TransferKeepsInv | server/internal/http/groups.go:909-938 | stepping down and naming another owner leaves exactly one owner, whom the group names |
| Groups.NoGroupIsEmpty | server/internal/http/groups.go:625-638 | every group has a member |
| Groups.DeleteLastIsDropGroup | server/internal/http/groups.go:625-633 | deleting the last member's handle and then the group is deleting the group |
| Groups.GroupStore.Create | server/internal/http/groups.go:181-224 | the statements, with their early exits, are the create transaction |
| Groups.GroupStore.Join | server/internal/http/groups.go:458-536 | the checks in their order and the two inserts are the join transaction |
| Groups.GroupStore.FindSuccessor | server/internal/http/groups.go:604-610 | the query returns the first admin, or else member, by joining day and row number |
| Groups.GroupStore.Leave | server/internal/http/groups.go:587-646 | the statements are the leave transaction |
| Groups.GroupStore.Remove | server/internal/http/groups.go:694-727 | the statements are the remove transaction: some row matching by handle or name, never an owner's |
| Groups.GroupStore.Update | server/internal/http/groups.go:854-941 | the statements in their order are the update transaction, all or nothing |
| Groups.GroupStore.Rotate | server/internal/http/groups.go:782-800 | the statements are the rotation |
| Groups.GroupStore.Delete | server/internal/http/groups.go:981-1014 | only the owner deletes, with every row and handle of the group |
| GroupEffects.UpdateIff | server/internal/http/groups.go:854-941 | an update succeeds exactly if the caller owns or administers the group, owns it for a regrading or a transfer, and name, role and successor are valid; it then changes each row and the group as asked and nothing else |
| GroupEffects.SuccessorIff | server/internal/http/groups.go:604-610 | the successor is an admin if there is one, of these or else of all the one who joined first, by day and then by row |
| GroupEffects.LeaveEffect | server/internal/http/groups.go:587-646 | exactly a member can leave; an owner hands over to that successor and to no one else, and with no one left the group goes |
| GroupEffects.RemoveEffect | server/internal/http/groups.go:694-727 | a removal takes one row that goes by that handle or name and is not the owner's, at the word of an owner or admin |
| GroupEffects.CreateEffect | server/internal/http/groups.go:181-224 | creating succeeds exactly below the limit of groups and with a new handle, and adds the group and its owner's row |
| GroupEffects.JoinEffect | server/internal/http/groups.go:458-536 | who joins held the invitation, was no member, had room for a group and the group for a member, and a name free in any spelling; whoever may join does |
| GroupEffects.RotateEffect | server/internal/http/groups.go:782-800 | exactly an owner or admin changes the invitation, and nothing else changes |
| GroupEffects.DeleteEffect | server/internal/http/groups.go:981-1014 | exactly the owner deletes; every row and handle of the group goes and all others stay |
| GroupEffects.RunKeepsLimits | server/internal/http/groups.go:458-536 | over every run no group gets more members and no account more groups than allowed |
| Resolver.Resolver.constructor | server/internal/region/resolver.go:46-68 | an empty cache with the configured or the default capacity |
| Resolver.Resolver.RemoveElement | server/internal/region/resolver.go:82-97 | list and both indexes lose exactly one entry and still hold the same entries without duplicates |
| Resolver.Resolver.Invalidate | server/internal/region/resolver.go:100-111 | exactly the entries of the target, with and without the alias mark, go |
| Resolver.Resolver.InvalidateGroup | server/internal/region/resolver.go:114-130 | exactly the entries and the membership answers of the group go |
| Resolver.Resolver.ResolveDetailed | server/internal/region/resolver.go:140-267 | a hit answers from the entry and moves it to the front; a miss answers a route exactly when the tables lead there, and caches the answer, evicting the least recently used entry of a full cache |
| Resolver.ResolvesIff | server/internal/region/resolver.go:180-265 | an uncached target resolves exactly when it names a handle, directly or by an alias behind @, that is not paused, whose account takes pings, and group pings only for a group handle, and whose group, if any, is large enough; the route carries that account, handle, kind, group and mode |
| ResolverRecency.CacheIsMostRecent | server/internal/region/resolver.go:146-256 | over every run of resolutions the cache holds the most recently resolved targets, as many as fit, in that order |
| Resolver.Resolver.IsGroupMember | server/internal/region/resolver.go:270-304 | answers from the membership cache or the table, within the capacity |
| Resolver.ListMatchesAdd | server/internal/region/resolver.go:242-249 | adding a new entry keeps list and index the same |
| Resolver.IndexesDropGroup | server/internal/region/resolver.go:118-124 | dropping a group's slice keeps the index by group exact |
| GroupPing.EndpointKeepsInv | server/internal/http/groups.go:552-555 | every group endpoint with its invalidations keeps each cached positive answer and each membership answer what the tables say |
| GroupPing.ResolvesSound | server/internal/region/resolver.go:140-267 | a resolution keeps the cache sound, and what it lets through is what the tables say now |
| GroupPing.VerdictMeansActive | server/internal/region/resolver.go:226-237 | a group handle resolves only if its group exists and is large enough |
| GroupPing.PingIsSafe | server/internal/http/ping.go:121-168 | a ping is enqueued only if at that moment the tables lead from its target to that handle, and for a group handle only if the group has the minimum size and the sender is a member |
| GroupPing.RunIsSafe | server/internal/http/ping.go:103-168 | the same over every run of group endpoints and pings, despite the caches |
| GroupPing.CoherentAnswers | server/internal/region/resolver.go:140-267 | while the cache is coherent the resolver answers exactly what the uncached query would |
| GroupPing.PingIff | server/internal/http/ping.go:103-168 | while the cache is coherent, and for a target that is not cached, a ping is enqueued for a handle exactly when the tables lead there, the sender belongs to its group if any, and proof of work, guard and queue let it through |
| GroupPing.InvalidationRestoresCoherence | server/internal/region/resolver.go:99-130 | after any change of the tables, dropping every affected target restores coherence |
| GroupPing.JoinCoherence | server/internal/http/groups.go:552-555 | a join keeps full coherence exactly when the minted handle was not cached as unknown |
| GroupPing.JoinCanLoseCoherence | server/internal/http/groups.go:552-555 | a run of a creation, a ping and a join whose last step leaves a wrong "unknown" cached |
| GroupPing.CreateCoherence | server/internal/http/groups.go:180-237 | a creation keeps full coherence exactly when the minted handle was not cached |
| GroupPing.CreateCanLoseCoherence | server/internal/http/groups.go:180-237 | a run of a ping and a creation whose last step leaves a wrong "unknown" cached |
| GroupPing.OthersKeepCoherent | server/internal/http/groups.go:657-665 | the endpoints that mint no handle keep full coherence: leaving, removing, deleting, updating and rotating |
| GroupServer.Server.CreateGroup | server/internal/http/groups.go:180-237 | the handler is one step of the machine and keeps its invariant |
| GroupServer.Server.JoinGroup | server/internal/http/groups.go:458-555 | transaction and invalidation are one step of the machine |
| GroupServer.Server.LeaveGroup | server/internal/http/groups.go:587-665 | transaction and invalidations are one step of the machine |
| GroupServer.Server.RemoveMember | server/internal/http/groups.go:694-750 | transaction and invalidations are one step of the machine |
| GroupServer.Server.UpdateGroup | server/internal/http/groups.go:854-955 | the transaction, without invalidation, is one step of the machine |
| GroupServer.Server.RotateInvite | server/internal/http/groups.go:782-820 | the transaction, without invalidation, is one step of the machine |
| GroupServer.Server.DeleteGroup | server/internal/http/groups.go:981-1039 | transaction and the loop of invalidations are one step of the machine |
| GroupServer.Server.SendPing | server/internal/http/ping.go:103-168 | the decision path enqueues only for a handle the tables lead to, and for a group only to a large enough group and from one of its members |
| BloomFilter.OrSetsBit | server/internal/guard/guard.go:60-65 | or-ing a shifted bit sets that bit of the word and no other |
| BloomFilter.Filter.constructor | server/internal/guard/guard.go:32-43 | an empty filter of at least one mebibyte |
| BloomFilter.Filter.Contains | server/internal/guard/guard.go:46-56 | true exactly when all four positions are marked |
| BloomFilter.Filter.Add | server/internal/guard/guard.go:59-66 | marks exactly the four positions more |
| BloomFilter.FourPositions | server/internal/guard/guard.go:46-66 | the positions are the first hash and three steps of the second from it, in 64 bits |
| PairCascade.GrantKeepsInv | server/internal/guard/guard.go:172-179 | a grant in the first free slot keeps the window's invariant for any hash and any other traffic |
| PairCascade.PairIsLimited | server/internal/guard/guard.go:153-184 | a pair asked for with limits up to L is granted at most L times in a window |
| PairCascade.RefusalNeedsFalsePositive | server/internal/guard/guard.go:151-152 | where an exact counter would have granted, a refusal means some slot looks taken though the pair was never put there |
| PairCascade.FalsePositiveIsOthers | server/internal/guard/guard.go:151-152 | each position of such a false positive was marked for another pair |
| PairCascade.Cascade.constructor | server/internal/guard/guard.go:104-115 | empty windows with at least ten slots |
| PairCascade.Cascade.RotateIfNeeded | server/internal/guard/guard.go:117-125 | a later day opens an empty window and forgets the old grants; otherwise nothing changes |
| PairCascade.Cascade.HasSeenToday | server/internal/guard/guard.go:128-149 | true exactly when the first slot looks taken |
| PairCascade.Cascade.Allow | server/internal/guard/guard.go:153-184 | the window afterwards is exactly the one the first free slot makes; each grant is one an exact per-pair counter would have made too, and each refusal that it would not have made is a false positive |
| PairCascade.Bounded | server/internal/guard/guard.go:172-179 | the exact count of a pair's grants never passes its first free slot |
| PairCascade.AskKeepsInv | server/internal/guard/guard.go:153-184 | asking keeps the invariant and answers as an exact counter would but for false positives |
| PairDays.StretchIsLimited | server/internal/guard/guard.go:117-184 | over every run with its rotations, any 24 hours grant a pair asked for with limits up to L at most twice min(L, slots) times |
| PairDays.TwiceIsReached | server/internal/guard/guard.go:117-184 | for every pair, hash, key and limit within the slots a run across any midnight reaches twice the limit |
| PairDays.RunIsBooked | server/internal/guard/guard.go:117-184 | in every run the current window holds exactly the grants of its day, and no day grants a pair more than the limit |
| PairDays.CascadeSteps | server/internal/guard/guard.go:117-125 | the window a call of the cascade starts from is the run's |
| GroupSpread.ChargesAreLimited | server/internal/guard/guard.go:567-578 | a sender is charged for distinct groups at most ten times in a window |
| GroupSpread.DistinctGroupsBound | server/internal/guard/guard.go:567-578 | the distinct group handles granted to a sender are at most ten and the uncharged first grants |
| GroupSpread.DistinctGroupsCount | server/internal/guard/guard.go:567-587 | their number is exactly that of the charged grants, at most ten, and that of the uncharged first grants |
| GroupSpread.PingKeepsInv | server/internal/guard/guard.go:567-587 | a ping keeps the window exact and its charges in order, whatever its handle and kind |
| GroupSpread.GroupsOfPings | server/internal/guard/guard.go:567-587 | the same number over every sequence of pings from an empty window |
| GroupSpread.OutOfChargesIff | server/internal/guard/guard.go:567-587 | once the ten charges are used a group is granted exactly when its first slot looks taken and a slot within the pair limit is free |
| GroupSpread.BypassIsFalsePositive | server/internal/guard/guard.go:567-578 | an uncharged first grant of a new pair is a false positive of the first slot |
| GroupSpread.NoFalsePositivesNoSpread | server/internal/guard/guard.go:567-578 | with one kind per handle and no pair looking taken that was not granted before, the cap of ten holds |
| GroupSpread.NoBypassesNoSpread | server/internal/guard/guard.go:567-578 | without uncharged first grants the cap of ten holds |
| GroupSpread.CapCanBePassed | server/internal/guard/guard.go:567-587 | from an empty window, under one hash, twenty-two pings to nonempty handles of one kind each grant a never charged sender eleven groups |
| TokenBucket.Tokens.Allow | server/internal/guard/guard.go:222-240 | admits exactly if the inflow since the last call, capped, makes a whole token, which it takes; a refusal keeps the inflow |
| TokenBucket.StretchBound | server/internal/guard/guard.go:222-240 | any stretch of any run with a clock that never goes back admits at most capacity + rate * length calls |
| TokenBucket.BoundIsReached | server/internal/guard/guard.go:222-240 | for every capacity, period and number of tokens a run meets that bound exactly |
| TokenBucket.LevelBound | server/internal/guard/guard.go:222-240 | from any level, the calls of a stretch take at most the whole tokens there at its start and flowing in |
| TokenBucket.LevelIsReached | server/internal/guard/guard.go:222-240 | and calls that each come as soon as a token is there take as many |
| TokenBucket.PeriodKeepsLimitIff | server/internal/guard/guard.go:205-240 | one period admits at most the limit, whatever the calls, exactly when it starts with less than one token |
| TokenBucket.SpacedCallsAdmitted | server/internal/guard/guard.go:222-240 | calls at least one token's time apart are never refused |
| BoundedBuckets.LoadOrStore | server/internal/guard/guard.go:368-392 | keeps an entry, adds one, or evicts an arbitrary one for it |
| BoundedBuckets.Take | server/internal/guard/guard.go:535-544 | loads or creates the key's bucket, calls it, and stays within the capacity |
| BoundedBuckets.KeptKeyIsBounded | server/internal/guard/guard.go:535-554 | while its bucket is not evicted, a key's admissions in a stretch obey the bucket's bound whatever other keys do |
| CountMinSketch.NeverBelow | server/internal/guard/guard.go:268-293 | while none of the pair's cells has wrapped the estimate is at least the true count and at most the hits of each of its cells |
| CountMinSketch.BelowIffWrapped | server/internal/guard/guard.go:268-293 | the estimate is below the true count exactly when some cell of the pair has wrapped to less than it |
| CountMinSketch.OverflowForgets | server/internal/guard/guard.go:268-277 | a pair is estimated at 0 exactly when the hits of one of its cells are a multiple of 2^32, whoever made them |
| CountMinSketch.OnePairForgotten | server/internal/guard/guard.go:268-277 | so is a pair after 2^32 additions of it alone |
| CountMinSketch.Sketch.constructor | server/internal/guard/guard.go:250-266 | an all-zero table of the configured or default size |
| CountMinSketch.Sketch.Add | server/internal/guard/guard.go:268-277 | afterwards every cell is its number of hits modulo 2^32 |
| CountMinSketch.Sketch.Estimate | server/internal/guard/guard.go:279-292 | the least of the pair's cells |
| GuardService.SenderIsBounded | server/internal/guard/guard.go:535-554 | while its buckets are not evicted, a sender is allowed in any stretch at most what the hourly and what the daily bucket allow, at once |
| GuardService.Service.SenderIsLimited | server/internal/guard/guard.go:515-565 | so over all calls a service has decided, on a clock that never went back |
| GuardService.TracedSenderIsBounded | server/internal/guard/guard.go:515-565 | the decisions a service records, one per call, are such a run |
| GuardService.StaysSuspended | server/internal/guard/guard.go:356-366 | over every run of suspensions an account stays suspended as long as no new suspension meets a full map |
| GuardService.Service.SuspensionHolds | server/internal/guard/guard.go:488-497 | so in every state of the service |
| GuardService.SuspendedWasAsked | server/internal/guard/guard.go:488-497 | only accounts that were suspended are found suspended |
| GuardService.AnyoneMayBeFreed | server/internal/guard/guard.go:356-366 | a new suspension that meets a full map may drop any account from it |
| GuardService.RecordKeepsCover | server/internal/guard/guard.go:595-599 | while no cell of a handle's senders has wrapped: the record of a handle never evicted stays at least the true count of each of its senders, and names a sender that reached the handle and is estimated at no less |
| GuardService.Service.WindowIsLimited | server/internal/guard/guard.go:567-587 | in every state of the guard each grant is exact and a sender's distinct groups number its charged grants, at most ten, and its bypasses |
| GuardService.Service.GroupsAreCapped | server/internal/guard/guard.go:567-587 | in every state of the guard: the distinct handles that calls for group handles were allowed to reach for a sender in the window are at most ten, and its bypasses |
| GuardService.Service.constructor | server/internal/guard/guard.go:432-486 | defaults where the configuration is not positive, a thousand pings an hour per target, and all invariants |
| GuardService.Service.SuspendAccount | server/internal/guard/guard.go:356-366 | the account is suspended, at the price of another suspension when the map is full |
| GuardService.Service.PassCascade | server/internal/guard/guard.go:567-587 | a group is charged first unless its first slot already looks taken; then the pair is asked for; the window afterwards is exactly the one this makes |
| GuardService.PingIsPassage | server/internal/guard/guard.go:567-587 | each answer on that way is the exact counter's or due to a false positive |
| GuardService.PingLeavesGrant | server/internal/guard/guard.go:567-587 | a ping that passes leaves its own grant last, a group's exactly if it was for a group; one that fails leaves none besides a charge |
| GuardService.Service.Record | server/internal/guard/guard.go:595-599 | the sketch counts one more, an estimate at least as large replaces the record, and every record still covers its senders |
| GuardService.Service.TakeBuckets | server/internal/guard/guard.go:535-565 | hourly, daily and target bucket in this order, a refusal leaving the later ones alone |
| GuardService.Service.TopSender | server/internal/guard/guard.go:611-616 | while no cell of a handle's senders has wrapped: for a handle never evicted nobody is returned only if nobody reached it, and whoever is returned did reach it and is estimated at no less than any sender's true count |
| GuardService.Service.Allow | server/internal/guard/guard.go:515-602 | in order: a suspended or blocked sender consumes nothing; each bucket is asked only if the one before admits; only behind all three are groups charged and pairs granted, which decides and makes exactly the new window; an allowed call leaves as the last grant its pair with the limit of its kind, a group's exactly if it was for a group handle; only an allowed ping is counted and may replace the record |
| Coalescing.Queue.constructor | server/internal/coalesce/queue.go:23-31 | an empty queue of the configured or the default capacity |
| Coalescing.Queue.Enqueue | server/internal/coalesce/queue.go:35-45 | never waits: appends, or counts a drop exactly when full |
| Coalescing.Coalescer.constructor | server/internal/coalesce/coalesce.go:53-75 | empty, with defaults where the configuration is not positive |
| Coalescing.Coalescer.AddAt | server/internal/coalesce/coalesce.go:85-116 | a job older than the limit is stale; else it counts one more for its own recipient, unless that one is new and there is no room |
| Coalescing.Coalescer.GetAndClearPending | server/internal/coalesce/coalesce.go:120-131 | returns and clears one account's count; what is returned and what remains is what was there |
| Coalescing.Coalescer.Flush | server/internal/coalesce/coalesce.go:135-160 | exactly the entries whose window has passed go out, each once, the others stay as they are, and counts are conserved |
| Coalescing.Coalescer.ForceFlush | server/internal/coalesce/coalesce.go:163-180 | one account's entry goes out whole, and counts are conserved |
| Coalescing.Coalescer.FlushAll | server/internal/coalesce/coalesce.go:183-199 | every entry goes out once, and the digests' sum is what was accumulated |
| Coalescing.SumIsTotal | server/internal/coalesce/coalesce.go:140-160 | digests that list a map once, in any order, sum to its total |
| Coalescing.SumForIsCount | server/internal/coalesce/coalesce.go:140-160 | and say of each account what the map holds for it |
| Coalescing.DueAndRest | server/internal/coalesce/coalesce.go:140-160 | what is due and what stays make up the whole |
| Delivery.StepConserves | server/internal/http/assemble.go:307-346 | every step of handlers and pumps conserves accepted pings in all |
| Delivery.StepConservesFor | server/internal/http/assemble.go:307-346 | and for each account by itself |
| Delivery.StepSpaces | server/internal/coalesce/coalesce.go:135-160 | every step keeps flushed digests of one recipient at least its window apart, whatever time a tick carries |
| Delivery.RunHolds | server/internal/http/assemble.go:307-346 | over every interleaving, in all and for each account: accepted = queued + in hand + accumulated + stale + over capacity + in digests + returned as pending; and digests are spaced |
| Delivery.DigestsPerInterval | server/internal/coalesce/coalesce.go:135-160 | an interval of length T holds at most T/window + 1 flushed digests of a recipient |
| Delivery.Assembly.Submit | server/internal/http/ping.go:157-166 | a submitted job is queued exactly when there is room |
| Delivery.Assembly.PumpReceive | server/internal/http/assemble.go:307-323 | taking one job off the queue is a step |
| Delivery.Assembly.PumpIngest | server/internal/http/assemble.go:307-323 | accumulating the job in hand is a step and keeps the account of every recipient |
| Delivery.Assembly.FlushTick | server/internal/http/assemble.go:325-346 | a tick pushes exactly the digests of the entries whose window has passed at the time it carries, each once, even if jobs were accumulated after that time |
| Delivery.Assembly.TakePending | server/internal/http/stream.go:86-92 | the pending count is given out and cleared |
| Delivery.Assembly.ForceFlush | server/internal/coalesce/coalesce.go:163-180 | one account's digest is pushed at once |
| Delivery.Assembly.Close | server/internal/http/assemble.go:392-425 | after the drain nothing is queued, in hand or accumulated, and for each account every ping ever accepted for it was dropped as its own, pushed to it in a digest or returned to it |
| Words.ShiftOrIsRotr | web/core/src/pow.ts:89-94 | shifting right, shifting left and or-ing is the circular shift of a 32-bit word |
| Words.BigEndianRoundTrip | web/core/src/pow.ts:75-77 | the four bytes of a word give the word back |
| Fips180.ChSelects | web/core/src/pow.ts:102-102 | Ch takes each bit of the second or third word as the first says |
| Fips180.MajVotes | web/core/src/pow.ts:105-105 | each bit of Maj is the majority of the three |
| Fips180.RotrMoves | web/core/src/pow.ts:89-94 | the circular shift moves each bit n places around the word |
| Sha256Constants.KIsCubeRoots | web/core/src/pow.ts:55-64 | each of the 64 constants is the first 32 bits of the fraction of the cube root of the corresponding prime |
| FirstPrimes.TableIsFirstPrimes | web/core/src/pow.ts:55-64 | the primes meant are the first 64: the table is ascending and holds all primes up to 311 and nothing else |
| Sha256Constants.InitialIsSquareRoots | web/core/src/pow.ts:79-80 | the eight initial words are those of the square roots of the first eight primes |
| Sha256Grinder.Pad | web/core/src/pow.ts:66-77 | the padded buffer, byte for byte |
| Sha256Grinder.PaddingIsFips | web/core/src/pow.ts:66-77 | the padding is that of section 5.1.1 of FIPS 180-4 exactly for messages below 2^29 bytes |
| Sha256Grinder.Expand | web/core/src/pow.ts:82-96 | the array holds the message schedule of section 6.2.2 for the block |
| Sha256Grinder.CompressBlock | web/core/src/pow.ts:98-125 | the register loop and the additions are the compression of section 6.2.2 |
| Sha256Grinder.Hash | web/core/src/pow.ts:66-139 | the in-place block loop computes the chained digest of the padded message |
| Sha256Grinder.DigestOfPadded | web/core/src/pow.ts:66-139 | every message, of any length, is hashed as the standard hashes its padded form |
| Sha256Grinder.DigestIsSha256 | web/core/src/pow.ts:66-139 | the hash of every message below 2^29 bytes is its SHA-256 |
| LeadingZeros.CountLeadingZeroBits | web/core/src/pow.ts:35-47 | counts the leading zero bits of the digest |
| LeadingZeros.CountLeadingZeroBitsUint8 | server/internal/auth/pow/pow.go:356-367 | counts them modulo 256 |
| LeadingZeros.CountersAgreeIff | server/internal/auth/pow/pow.go:356-367 | the server's counter is exact for a 32-byte digest unless every byte is zero |
| LeadingZeros.LeadingIsLongest | web/core/src/pow.ts:35-47 | the count is the length of the longest all-zero prefix |
| DecimalPrinting.AppendUint | server/internal/auth/pow/pow.go:369-382 | appends the decimal digits as far as they fit and leaves the rest of the buffer alone |
| DecimalPrinting.DecimalParses | server/internal/auth/pow/pow.go:369-382 | what is printed is digits and parses to the same number |
| DecimalPrinting.PrintsBackIff | server/internal/auth/pow/pow.go:253-256 | a digit string prints back exactly if it has no superfluous leading zero |
| ProofOfWork.CheckPoW | server/internal/auth/pow/pow.go:323-334 | decides on the first 256 bytes of handle, epoch, challenge and nonce; panics exactly for epoch 0 behind a handle that fills the buffer |
| ProofOfWork.SolvePoW | server/internal/auth/pow/pow.go:337-354 | returns the least nonce that the check accepts, or none if there is none below the limit; panics exactly when the prefix fills the buffer |
| ProofOfWork.HeaderRoundTrip | server/internal/auth/pow/pow.go:245-258 | `<epoch>.<nonce>` parses back to the same pair, unless the nonce is empty |
| ProofOfWork.ParsedIff | server/internal/auth/pow/pow.go:245-258 | the accepted headers are digits naming a 64-bit number, a dot, and anything nonempty |
| ProofOfWork.ServedIff | server/internal/auth/pow/pow.go:207-223 | an epoch within one of the server's gets the challenge derived for it; others get none, but for the two ends of the 64-bit range |
| ProofOfWork.Engine.constructor | server/internal/auth/pow/pow.go:84-100 | the cached challenges are those of the current epoch and its neighbours |
| ProofOfWork.Engine.RotateChallenges | server/internal/auth/pow/pow.go:195-204 | afterwards they are those of the new epoch |
| ProofOfWork.Engine.GetChallenge | server/internal/auth/pow/pow.go:207-223 | the cache answers as deriving afresh would |
| ProofOfWork.Engine.Verify | server/internal/auth/pow/pow.go:262-289 | accepted exactly if the header is digits, a dot and a nonce, its epoch is served, and the digest of the first 256 bytes of handle, epoch, challenge and nonce has enough leading zeros for the epoch's challenge or the all-zero one; malformed, expired and panicking tokens each on their own condition |
| ProofOfWork.VerdictIff | server/internal/auth/pow/pow.go:245-289 | the conditions of each verdict, told of the bytes of handle and header |
| ProofOfWork.SufficesIff | server/internal/auth/pow/pow.go:323-334 | the check decides on the leading zero bits, modulo 256, of the SHA-256 of those bytes in that order |
| ProofOfWork.SolvedTokenVerifies | server/internal/auth/pow/pow.go:262-289 | a solved token is accepted at every server epoch within one of its own and for every requirement up to the solved difficulty |
| ProofOfWork.NonceSeenIff | server/internal/auth/pow/pow.go:323-334 | two nonces make the same hashed message exactly when they agree on the bytes that the prefix leaves room for |
| ProofOfWork.FullPrefixHidesNonce | server/internal/auth/pow/pow.go:262-289 | behind a prefix of 256 bytes or more every nonempty nonce gets the same verdict |
| ProofOfWork.VerdictDependsOnServed | server/internal/auth/pow/pow.go:262-289 | the verdict depends on the challenges through the one served only, and not on that either for a nonce that meets the requirement against the all-zero challenge |
| ProofOfWork.SolvePoWSync | web/core/src/pow.ts:173-205 | the browser returns the least nonce its own check accepts, or none if there is none |
| ProofOfWork.SidesAgreeIff | web/core/src/pow.ts:146-168 | on a message that fits the server's buffer both sides decide alike, unless the digest is all zero and the target is not 0 |
| ProofOfWork.WebTokenVerifies | server/internal/auth/pow/pow.go:262-289 | so the server accepts a token solved in the browser |
| ProofOfWork.GrinderIsSum256 | web/core/src/pow.ts:66-139 | the browser's hash and the server's are the same function below 2^29 bytes |
| KolmogorovSmirnov.KolmogorovSmirnov2Sample | loadtest/stats.go:73-113 | sorts both samples in place, be they one slice or two, and returns 1 for an empty one or else the walk's greatest difference |
| KolmogorovSmirnov.Walk | loadtest/stats.go:84-112 | although it stops when one sample is exhausted, it returns the greatest difference over all values |
| KolmogorovSmirnov.Finished | loadtest/stats.go:87-87 | once one sample is exhausted no later difference is greater |
| KolmogorovSmirnov.SortCounts | loadtest/stats.go:78-79 | sorting changes no distribution function |
| KolmogorovSmirnov.WalkVersusStatistic | loadtest/stats.go:70-113 | the result lies between the statistic and 1, and is the statistic exactly when no gap at a shared value exceeds it; without shared values it is |
| KolmogorovSmirnov.StatisticExists | loadtest/stats.go:70-72 | nonempty samples have a greatest difference of distribution functions, taken at a sample value |
| KolmogorovSmirnov.TiesExceedTheStatistic | loadtest/stats.go:92-97 | for two equal one-element samples the statistic is 0 and the walk's value 1 |
| ChatBot.PruningChangesNoDecision | tui/internal/bot/bot.go:231-236 | pruning expired entries changes no decision, now or later |
| ChatBot.HandledKeepsInv | tui/internal/bot/bot.go:176-257 | each message keeps both maps within the limit, every entry a given answer, and the answers spaced |
| ChatBot.RunKeepsInv | tui/internal/bot/bot.go:165-257 | so in every run; an answer to a channel within its cooldown comes only after a cooldown in which more than the limit of channels was answered |
| ChatBot.NoUserTwice | tui/internal/bot/bot.go:229-257 | while at most the limit of users is answered from one answer on, the next answer to the same user comes a whole cooldown later |
| ChatBot.RefusalHasReason | tui/internal/bot/bot.go:193-227 | in every run a trigger is refused only because its channel or its user was answered less than a cooldown before |
| ChatBotCrowd.LimitIsTight | tui/internal/bot/bot.go:204-257 | for every limit a run answers one user and one channel more than it, and then the first user in the first channel again within both cooldowns |
| ChatBot.EvictionNeedsCrowd | tui/internal/bot/bot.go:238-253 | the oldest entry goes only when more users than the limit have been answered since it |
| ChatBot.Prune | tui/internal/bot/bot.go:231-236 | deleting while iterating removes exactly the expired entries |
| ChatBot.FindOldest | tui/internal/bot/bot.go:239-252 | the entry found has the least time |
| ChatBot.Bot.constructor | tui/internal/bot/bot.go:47-72 | empty maps, and defaults where a limit is not positive |
| ChatBot.Bot.HandleMessage | tui/internal/bot/bot.go:165-257 | a trigger is answered exactly when neither cooldown blocks it, and only then recorded; other texts change nothing |

## Left out

- Concurrency inside one request: each transaction, locked region or handler is one step, except that the contacts
  protocol and the delivery pumps interleave step by step. The resolver's unlocked gap between a miss and its insert, and
  the window between a commit and its invalidations, are not modelled.
- Encryption, key derivation, HMAC, JSON, HTTP, SQLite, channels, clocks and random numbers: parameters, uninterpreted
  functions, maps with explicit cascades, and bounded sequences. Sealing and opening are taken as inverse.
- JavaScript's signed 32-bit results: the words stand for the same values modulo 2^32.
- Floating point: the Kolmogorov-Smirnov fractions and the token buckets are over the reals.
- KolmogorovSmirnov.SortFloats: a stand-in for the library's sort; only its result matters.
- Contacts.MergeContacts: leaves the locale's order open, and takes one value of the day for a whole merge.
- ContactsSync.StepKeepsInv: excludes deleting the contact list, which resets its version.
- QR conformance: alignment patterns are absent and version 4 is not split into blocks in the code; no claim of ISO/IEC
  18004 is made. Rendering is not part of this model.
- QrCode.QRCode.DrawFunctionPatterns: the dark module lies in the format area, whose writing overwrites it.
- Group requests: validation and trimming of their fields, their proof of work, notes, labels and the policy text.
  Deleting a group handle outside the group endpoints, deleting accounts, pausing handles and changing settings are
  excluded, and the minimum size is fixed during a run.
- Resolver.Resolver.ResolveDetailed: takes the target already trimmed, and a failing database is not modelled.
- GroupServer.Server.SendPing: the proof of work, the guard and the queue enter as given outcomes; the guard and the
  queue are modelled in their own files.
- GuardService.Service.Allow: buckets and records are values in maps, so sharing a bucket object across an eviction is
  not captured; one reading of the clock serves a whole call.
- Moving averages of the guard: the rate stays between 0 and 1, so the thresholds for raising the difficulty are not
  reached; nothing is claimed about escalation. The difficulty a check requires is a parameter.
- Delivery.Assembly.Close: assumes that nothing is submitted any more once the queue has been drained; the push pool, the
  stream hub and the maintenance pump are left out.
- Delivery.DigestsPerInterval: counts the digests of the periodic flush, with a window fixed per account.
- ChatBot.Bot.HandleMessage: splitting and lower-casing of the text, the link and the forwarded ping are left out.
- The solver of the terminal client, which uses another byte layout, and the web worker around the browser's solver.
- Handles, aliases, sessions, settings, push delivery, the user interfaces, metrics and configuration: bookkeeping without
  a property that spans steps.
