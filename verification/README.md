# Verified model of the gemstone frontend's algorithms and protocols

This project models, in Dafny 4.11, the parts of the gemstone frontend that compute something a
user's money, privacy or session depends on, and proves what those parts are for. `dafny verify
dfyconfig.toml` checks all of it.

| file | models |
|---|---|
| `Texts.dfy`, `Decimals.dfy`, `Arithmetic.dfy` | JavaScript strings as UTF-16 code units, decimal text, division facts |
| `Json.dfy` | value trees, JSON text (RFC 8259), and a reader that inverts the printer |
| `JsonText.dfy` | JSON text as the standards spell it, without reference to the printer |
| `Canonical.dfy` | the canonical JSON printer whose output is hashed |
| `PropertyOrder.dfy` | the order in which objects list their properties, and what of it that text shows |
| `CanonicalForms.dfy` | that printer against RFC 8785 and against the canonical printer of the Edge Functions |
| `QueryPersistence.dfy` | value trees in the stored query cache: bigint tagging, and the ageing of countdowns |
| `PersistedClient.dfy` | the stored client as a whole: saving, restoring, and runs of both |
| `Telemetry.dfy` | redaction of error reports |
| `PreloadChunks.dfy` | the build step that walks the import graph from the critical modules |
| `GiftCardWrap.dfy` | greedy line wrapping on the gift card |
| `QrPath.dfy` | run-length SVG path of a QR symbol |
| `RefreshCoalescer.dfy` | the coalesced refresh of chain queries |
| `WalletRevival.dfy` | session recovery when a phone returns to the browser |
| `SiweNonceCache.dfy` | the single-use sign-in nonce cached ahead of the tap |
| `Redaction.dfy`, `DiagnosticLog.dfy` | the redacted and pruned local log |
| `Money.dfy` | 18-decimal dollar amounts, their text forms, and price headroom |
| `PrimaryAuction.dfy` | minimum bids, the bid form, auction phases and the leader's exits |

Code that updates variables step by step is a method or a class proved against a specification
function or predicate; the protocols are state machines whose lemmas range over every sequence of
steps. Time, randomness, promises, wallets, the server and the page's visibility are parameters: a
recovery, for instance, is run against an arbitrary `World` that answers every question afresh.

## Assumptions and findings

- **Collation.** `serialize` sorts keys with `localeCompare`. The model takes the host's collation as
  a parameter that is only required to be a total preorder. Objects list array indices first and in
  ascending order (`PropertyOrder.Listed`). Independence from insertion order holds exactly when the
  collation tells any two different names apart that are not array indices
  (`PropertyOrder.OrderIndependentIff`).
- **RFC 8785.** `CanonicalForms.Rfc8785` is the serialization of RFC 8785 written from that standard,
  sections 3.2.2.2 and 3.2.3, without reference to the printers. The repository's README (lines
  106-107) promises it of the Edge Functions, and they print it for every value that has one
  (`CanonicalForms.ServerPrintsRfc8785`). The client's `serialize` prints it exactly for values
  without lone surrogates whose objects its collation orders as code units do
  (`CanonicalForms.MatchesRfc8785Iff`), and prints a lone surrogate where the standard requires an
  error (`CanonicalForms.LoneSurrogateIsPrinted`). `CanonicalForms.ClientMatchesServerIff` says for
  which values client and Edge Functions hash one text.
- **Restored countdowns.** Restoring leaves `dataUpdatedAt` where it was, so a second restore takes
  the same time off again. `PersistedClient.RestoredCountdowns` gives the exact condition under
  which a later restore is still right; it is never late and never negative.
  `PersistedClient.SecondRestoreIsEarly` is an input.
- **Ceiling division.** `ceilMulDiv` truncates towards zero, so it is a ceiling only under the
  condition of `Money.CeilMulDivIsCeilingIff`; `Money.NegativeProductRoundsTooHigh` is an input.
  Every caller in scope passes non-negative amounts.
- **Zero bids.** A leading bid of zero reads as no bid. The bid form refuses zero
  (`PrimaryAuction.SubmittedIsPositive`), so over every run of its bids the lead keeps the pace of a
  dollar a bid, whatever the floor. Were bids of zero placed elsewhere, the pace would be sure exactly
  for a positive floor (`PrimaryAuction.LeadKeepsPaceIff`).
- **Exits.** The leader of an ended auction is always offered an exit
  (`PrimaryAuction.ExitIsAlwaysOffered`), but it may be one the contract refuses: an exit works exactly
  if the page is right about the contract's pause or knows that the grace of binding bids has passed
  (`PrimaryAuction.ExitWorksIff`). A contract paused after the page read it is an input
  (`PrimaryAuction.UnseenPauseRefusesSettle`), and the pause of a contract without binding bids is
  never read at all (`PrimaryAuction.OlderPauseIsNeverSeen`).
- **Ellipsis.** It can push a line one character past its limit (`GiftCardWrap.OverflowIff`), and
  appears without a dropped word when the text has extra white space (`GiftCardWrap.MarkedIff`, and
  `GiftCardWrap.CardMarkedIff` for the messages that reach the card). `GiftCardWrap.EllipsisOverflows`
  and `GiftCardWrap.EllipsisForNoWord` are such messages.
- **Overlong first word.** It leaves the first line empty (`GiftCardWrap.EmptyLineIff`), which is the
  only way the loop shows fewer words than it could (`GiftCardWrap.WrapIsOptimalIff`);
  `GiftCardWrap.OverlongFirstWordWastesALine` is a message that loses a word so.
- **Joined takes.** Two takes return one nonce exactly if they awaited one entry, and a take joins an
  earlier one exactly if it begins while that one's entry is cached, for the same key and not about
  to expire (`SiweNonceCache.SharedNonceIff`, `SiweNonceCache.BeginSharesIff`). Overlap alone is
  necessary, not sufficient; `SiweNonceCache.OverlapSharesNonce` is a run that does share. That the
  server issues distinct nonces is assumed.
- **Property names.** `scrub` looks at values only, so the result is free of addresses exactly if no
  name outside the subtrees under sensitive keys holds one (`Telemetry.NoAddressIff`);
  `Telemetry.AddressAsNameStays` is an input.
- **Chained addresses.** Redacting a log line leaves an e-mail address only where one is directly
  followed by an at sign and a dotted name, and in a text too short to be cut exactly there
  (`Redaction.RedactLeavesIff`); `Redaction.ChainedAddressIsLeft` is an input.
- **Clock.** The log refines its full history as long as the clock does not go back. With any clock
  and any number of entries `DiagnosticLog.ReadRefinesHistoryIff` is the exact condition, and
  `DiagnosticLog.StoreIsLasting` says which entries are stored. `DiagnosticLog.ClockMustAdvance` is a
  run that loses an entry, `DiagnosticLog.OlderEntryLingers` one that keeps an entry beyond its 150.

## Model

| member | source | states |
|---|---|---|
| Json.ReadEscaped | src/lib/canonical.ts:5 | a printed string, control characters, quotes and lone surrogates included, reads back unit for unit |
| Json.ReadPrinted | src/lib/canonical.ts:4-19 | JSON text is self-delimiting: whatever delimiter-led text follows, reading gives the value back and stops at its end |
| Json.StrayTextFails | src/providers/queryPersistence.ts:73 | text after a value, or a bare control character in a string, is no JSON |
| JsonText.NumberTextIff | src/lib/canonical.ts:10 | the text of a number is the only one that spells it: a minus sign exactly if it is negative, one digit or digits not starting with zero, then nothing or a dot and its fraction digits |
| JsonText.StringTextIs | src/lib/canonical.ts:4-5 | a string is quoted unit by unit as ECMA-262 says, with lower-case hex escapes for control characters and lone surrogates |
| JsonText.PrintIsTextOf | src/providers/queryPersistence.ts:49-51 | JSON text as a whole: literals, numbers, strings, commas, colons and brackets, members in the order given |
| Canonical.SortIsStable | src/lib/canonical.ts:16 | the sort keeps keys the collation ties in their original order, for any total preorder |
| Canonical.SerializePrintsCanon | src/lib/canonical.ts:3-21 | text is produced exactly for trees without bigints, non-finite numbers or stray `undefined`, and it is the sorted, `undefined`-free value printed |
| Canonical.FailureHasCause | src/lib/canonical.ts:8-20 | a refusal of non-finite numbers or of unsupported types has such a value as its cause somewhere in what would be printed |
| Canonical.ReadBack | src/lib/canonical.ts:3-25 | the normalised value is recovered from the text followed by any delimiter-led rest, at any depth |
| Canonical.EqualTextMeansSame | src/lib/canonical.ts:23-29 | injectivity: equal texts mean the same data, whatever the collation |
| Canonical.EqualTextIffSame | src/lib/canonical.ts:13-18 | under a separating collation the texts are equal if and only if the data is the same up to member order and `undefined` members |
| PropertyOrder.OrderIndependentIff | src/lib/canonical.ts:14-16 | over all values that exist, with array indices listed first and ascending: insertion order never shows in the text if and only if the collation separates names that are not array indices |
| PropertyOrder.ListedTextIffSame | src/lib/canonical.ts:13-18 | for such values and such a collation the texts are equal if and only if the data is the same |
| PropertyOrder.ReadObjectPrintsAlike | src/lib/canonical.ts:3-25 | reading the text into an object of the host, which may reorder its array indices, and printing that gives the text back |
| Canonical.Fixpoint | src/lib/canonical.ts:3-25 | reading canonical text and printing it again gives the same text |
| CanonicalForms.MatchesRfc8785Iff | src/lib/canonical.ts:3-21 | value by value: the text is the RFC 8785 serialization if and only if the value has one and the collation orders each of its objects as code units do |
| CanonicalForms.PrintsRfc8785Iff | src/lib/canonical.ts:14-16 | every value that exists and has an RFC 8785 serialization is printed as it if and only if the collation compares as code units do, for names of whole characters in an order objects can list |
| CanonicalForms.LoneSurrogateIsPrinted | src/lib/canonical.ts:4-5 | a lone surrogate is printed escaped, where RFC 8785 requires an error |
| CanonicalForms.ServerPrintsRfc8785 | supabase/functions/_shared/canonicalJson.ts:2-15 | the Edge Functions print the RFC 8785 serialization of every value that has one, which are those without gaps, bigints, non-finite numbers and lone surrogates |
| CanonicalForms.ServerTextIs | supabase/functions/_shared/canonicalJson.ts:2-15 | for every value: the Edge Functions throw exactly on bigints and stray gaps, and print anything else as the value with null for each number that is not finite |
| Texts.CodeUnitOrderIff | supabase/functions/_shared/canonicalJson.ts:12 | the order of their comparator: at the first difference the smaller unit decides, and a text comes before any it begins |
| CanonicalForms.ClientMatchesServerIff | supabase/functions/_shared/canonicalJson.ts:2-15 | client and Edge Functions print one text for a value if and only if the client prints it and its collation orders each object as code units do |
| CanonicalForms.NonFiniteDiffers | supabase/functions/_shared/canonicalJson.ts:4-8 | a non-finite number is an error to the client and null to the Edge Functions |
| QueryPersistence.WrittenReadsKept | src/providers/queryPersistence.ts:47-77 | for every tree that owns no tag, what is written reads back with `undefined` members dropped, other members in order, null for an `undefined` or non-finite value that remains, and all else, bigints included, unchanged |
| QueryPersistence.StorableIffKept | src/providers/queryPersistence.ts:47-77 | a tree comes back as it was if and only if it has no `undefined`, no non-finite number and no owner of the tag |
| QueryPersistence.StorableRevives | src/providers/queryPersistence.ts:47-77 | replacer and reviver are inverse on trees without gaps or tag owners, for bigints of any size and sign at any depth |
| QueryPersistence.BigIntIsTagged | src/providers/queryPersistence.ts:47-51 | a bigint is written as an object whose one member, the tag, holds its decimal text |
| QueryPersistence.TagDecides | src/providers/queryPersistence.ts:72-77 | any object that owns the tag is read as what `BigInt` makes of the tag's value |
| QueryPersistence.ToBigIntIff | src/providers/queryPersistence.ts:75 | that is the integer a flag, an integral number or decimal digits denote, and an error otherwise |
| QueryPersistence.ErrorsSurface | src/providers/queryPersistence.ts:72-77 | an error anywhere in a tree is an error of the whole |
| QueryPersistence.ReloadUnchangedIff | src/providers/queryPersistence.ts:47-83 | for the data of one query: writing, reading and ageing by nothing returns the tree if and only if it has no gap, no owner of the bigint tag and no negative countdown |
| PersistedClient.SavedQueriesLoad | src/providers/queryPersistence.ts:49-77 | any client that owns no tag is loaded as JSON keeps it, with its queries |
| PersistedClient.KeptQueries | src/providers/queryPersistence.ts:49-77 | JSON keeps every query of a client, its read time, and its data less the gaps |
| PersistedClient.RestoreFails | src/providers/queryPersistence.ts:72-78 | a text that is no JSON or holds no client is an error |
| QueryPersistence.ElapsedMeans | src/providers/queryPersistence.ts:79 | the elapsed time is the whole seconds since the read, fractions of a millisecond included, and nothing if the clock is behind |
| QueryPersistence.AgeNumberSubtracts | src/providers/queryPersistence.ts:65-66 | an aged countdown is the old one less the elapsed seconds, stopping at zero |
| QueryPersistence.AgeMovesOn | src/providers/queryPersistence.ts:59-70 | at every depth exactly the numbers under `secondsLeft` change: each is less by the elapsed seconds but not below zero, and unknown or infinite ones stay, minus infinity becoming zero |
| QueryPersistence.AgeLeavesTheRest | src/providers/queryPersistence.ts:59-70 | a tree without countdowns is not changed by ageing |
| QueryPersistence.AgeComposes | src/providers/queryPersistence.ts:59-70 | ageing by a and then b is ageing by a + b |
| QueryPersistence.AgeCommutesWithEncodeIff | src/providers/queryPersistence.ts:47-70 | ageing before writing and ageing after reading agree if and only if no countdown is minus infinity |
| PersistedClient.MoveAllReads | src/providers/queryPersistence.ts:78-82 | restoring changes the data of each query, by the time since its own read, and nothing else in the client |
| PersistedClient.RestoreUnchangedIff | src/providers/queryPersistence.ts:49-83 | saving and restoring a storable client changes nothing if and only if every query has data without a negative countdown, and either no second has passed or every countdown is over |
| PersistedClient.SessionsAddUp | src/providers/queryPersistence.ts:49-83 | after any run of save and restore cycles a client, with or without `undefined` members, is what JSON keeps of the first one with each query's data aged by the sum of all times measured |
| PersistedClient.RestoredCountdowns | src/providers/queryPersistence.ts:53-83 | over any run of cycles and for every query no countdown is negative or later than the truth, the first restore is exact, and a later one is exact if and only if a stated condition holds |
| PersistedClient.SecondRestoreIsEarly | src/providers/queryPersistence.ts:78-81 | a countdown of 100 restored after 10 and after 20 seconds reads 70 instead of 80 |
| PersistedClient.AdvanceQueries | src/providers/queryPersistence.ts:78-81 | the loop ages each query's data in place by the time since its own read, and moves no read time |
| PersistedClient.DeserializeClient | src/providers/queryPersistence.ts:72-83 | loading a text and advancing its queries in place gives the client that the restoring function describes, or the error reading it meets |
| Telemetry.ReplaceLeavesNone | src/lib/telemetry.ts:23-30 | leftmost replacement removes every address and creates no new match |
| Telemetry.ReplaceFirst | src/lib/telemetry.ts:30 | only addresses go: text before the first one stays, it becomes the mark, and the rest is treated alike |
| Telemetry.AddressAtIff | src/lib/telemetry.ts:23 | an address is `0x` and forty hex digits of either case |
| Telemetry.IsSensitiveIff | src/lib/telemetry.ts:24-25 | a key is sensitive if and only if it holds one of ten words anywhere, in any case |
| Telemetry.ScrubCleans | src/lib/telemetry.ts:28-38 | no string of the result holds an address, every value under a sensitive key is the filter mark, and elsewhere the shape and all else stay, with addresses in strings replaced |
| Telemetry.CleanIffUnchanged | src/lib/telemetry.ts:28-38 | scrubbing leaves a tree alone if and only if it is clean |
| Telemetry.ScrubIdempotent | src/lib/telemetry.ts:28-38 | scrubbing twice is scrubbing once |
| Telemetry.NoAddressIff | src/lib/telemetry.ts:28-38 | the scrubbed tree holds no address anywhere, property names included, if and only if no name outside a subtree under a sensitive key held one |
| Telemetry.AddressAsNameStays | src/lib/telemetry.ts:32-36 | an object with a property named by an address keeps it |
| PreloadChunks.Preloader.Visit | vite.config.ts:153-159 | on any finite graph, cycles included, `visit` ends; it adds only files reached from its argument, and everything they reach |
| PreloadChunks.RootsAre | vite.config.ts:146-151 | the roots are the files of exactly the chunks of the bundle that hold a critical module |
| PreloadChunks.IsCriticalIff | vite.config.ts:132-151 | a chunk is critical if and only if the path of one of its modules ends in one of three names |
| PreloadChunks.PreloadFiles | vite.config.ts:144-165 | the files are exactly the non-entry chunks reached from a critical chunk of the bundle through non-entry chunks, each once |
| PreloadChunks.ClosedHoldsWalks | vite.config.ts:153-159 | a walk along imports never leaves a set of files closed under visitable imports |
| GiftCardWrap.Wrap | src/components/gift/GiftCardArt.tsx:84-102 | for every text the loop returns the greedy lines of the split text; exactly when all lines are used and hold less than the text, the last one loses one mark of punctuation it ends in, if any, and gains an ellipsis |
| GiftCardWrap.SplitShape | src/components/gift/GiftCardArt.tsx:87 | splitting any text gives its words, and an empty piece at each end that has white space |
| GiftCardWrap.WrapIsGreedy | src/components/gift/GiftCardArt.tsx:84-97 | for every text the lines are the greedy breaking of its words, after an empty line if the first word is too long, the last line keeping one space if the text ends in white space and it has room |
| GiftCardWrap.EmptyLineIff | src/components/gift/GiftCardArt.tsx:87-96 | a line is empty if and only if it is the first and the first word is too long for it |
| GiftCardWrap.GreedyIsOptimal | src/components/gift/GiftCardArt.tsx:83-97 | no legal breaking into as many lines shows more words, and none that shows all uses fewer lines, whatever the lengths of the words |
| GiftCardWrap.WrapIsOptimalIff | src/components/gift/GiftCardArt.tsx:87-96 | the loop shows as many words as any legal breaking could, unless the first word is too long for a line and no legal breaking into one line less shows every word; then it does not |
| GiftCardWrap.OverlongFirstWordWastesALine | src/components/gift/GiftCardArt.tsx:87-116 | a message of the card, words of 47, 30 and 30 letters, whose empty first line costs a word that had room |
| GiftCardWrap.MarkedIff | src/components/gift/GiftCardArt.tsx:98 | for every text, white space at its ends included: the ellipsis is added if and only if a word is dropped, or every line is used and the text is longer than its words with single spaces, the empty first line and the kept space counted |
| GiftCardWrap.EllipsisIffDropped | src/components/gift/GiftCardArt.tsx:98-100 | for single-spaced text the ellipsis is added if and only if a word is dropped, and, unless the first word is too long, if and only if no legal breaking shows them all |
| GiftCardWrap.CardMarkedIff | src/components/gift/GiftCardArt.tsx:98-116 | for the trimmed messages and the limits of the card: the ellipsis is added if and only if a word is dropped, or all lines are used and the message has white space between words to spare |
| GiftCardWrap.EllipsisForNoWord | src/components/gift/GiftCardArt.tsx:98-116 | a message of the card whose double space earns an ellipsis although no word is dropped |
| GiftCardWrap.OverflowIff | src/components/gift/GiftCardArt.tsx:89-99 | for every text: the ellipsis makes a line that fitted too long if and only if it is added, the words of the last greedy line fill it, and the last word shown does not end in punctuation |
| GiftCardWrap.EllipsisOverflows | src/components/gift/GiftCardArt.tsx:98-116 | a message of the card, four words of 46 letters, whose marked line is one character too long |
| GiftCardWrap.OverlongLineIsOneWord | src/components/gift/GiftCardArt.tsx:87-96 | a line longer than the limit is always a single word |
| QrPath.RunLengthPath | src/lib/qr.ts:27-41 | the path is that of the maximal runs, and reading it back and filling it paints the symbol module for module |
| QrPath.ExactCover | src/lib/qr.ts:29-38 | each dark module is covered by exactly one rectangle, each light one by none |
| QrPath.FewestRuns | src/lib/qr.ts:31-37 | no cover of the dark modules by horizontal runs uses fewer rectangles |
| QrPath.PathReads | src/lib/qr.ts:36-40 | the path text reads back as the outline commands of every rectangle, in order |
| QrPath.RectTextIs | src/lib/qr.ts:36-40 | the text of a rectangle, letter by letter, with its numbers as plain numerals |
| QrPath.PathPaintsSymbol | src/lib/qr.ts:36-40 | under the non-zero fill rule the path read back paints exactly the dark modules |
| RefreshCoalescer.RunKeepsInvariant | src/providers/queryClient.ts:34-56 | over every interleaving: one invalidation at a time, queued implies in flight, and starts never exceed calls |
| RefreshCoalescer.NoRequestLost | src/providers/queryClient.ts:38-54 | with nothing queued, every call so far was followed by a start |
| RefreshCoalescer.BurstCausesOneMore | src/providers/queryClient.ts:39-53 | any number of calls during one refresh causes exactly one more, and none queued behind it |
| RefreshCoalescer.Coalescer.Refresh | src/providers/queryClient.ts:38-56 | the variables take the machine's step, and a caller during a refresh gets that refresh's promise |
| RefreshCoalescer.Coalescer.Finally | src/providers/queryClient.ts:48-54 | settling clears the refresh and starts the queued one |
| WalletRevival.CandidatesAre | src/providers/walletConnectRevival.ts:118-130 | the candidates are the recoverable connectors, each once |
| WalletRevival.CandidatesInOrder | src/providers/walletConnectRevival.ts:127-130 | candidates keep the order in which they are first met |
| WalletRevival.KnownBeforeConfigured | src/providers/walletConnectRevival.ts:126-130 | the session's owner and the remembered connectors come before those only configured |
| WalletRevival.ConnectedGoesFirst | src/providers/walletConnectRevival.ts:117-130 | the connector that owns the session is tried first |
| WalletRevival.RecoverApprovedSession | src/providers/walletConnectRevival.ts:100-114 | a reconnect happens exactly if the bounded check found the wallet authorised, and succeeds if a session is then current |
| WalletRevival.OneNextEvent | src/providers/walletConnectRevival.ts:100-169 | the rules of a recovery leave no choice: after any log the world determines the next event, its connector, its duration and its answer |
| WalletRevival.RecoveryIsDetermined | src/providers/walletConnectRevival.ts:116-169 | only one log follows the rules to an end: the world determines every event of a recovery and where it stops |
| WalletRevival.LawfulMeans | src/providers/walletConnectRevival.ts:100-114 | in a log that follows the rules a check counts as authorised exactly if the wallet said so in time, exactly such a wallet is reconnected, and nothing follows a reconnect that leaves a session |
| WalletRevival.Prepare | src/providers/walletConnectRevival.ts:132-157 | transports are revived within two timeouts a candidate; unless it stops every candidate was asked and the prepared connectors are exactly those whose provider answered, in order; it stops only on disposal or an existing session |
| WalletRevival.CarryOut | src/providers/walletConnectRevival.ts:132-169 | the log follows the rules to an end, which is unique; it ends before all rounds are complete only on a page then disposed, hidden or connected; checks go round the prepared connectors; waiting is bounded |
| WalletRevival.WakeOnce | src/providers/walletConnectRevival.ts:116-169 | a whole recovery, from whatever connectors the page knows: the log follows the rules to an end, only recoverable connectors are prepared, each once, and no connector is ever checked twice more often than another |
| WalletRevival.LeftAlone | src/providers/walletConnectRevival.ts:164 | a page connected, hidden or disposed throughout gets no check |
| WalletRevival.RoundRobinCount | src/providers/walletConnectRevival.ts:162-168 | how often each connector has been checked after n checks |
| WalletRevival.ChecksAreFair | src/providers/walletConnectRevival.ts:159-168 | no connector is checked a further time before all were checked as often |
| WalletRevival.SingleFlight | src/providers/walletConnectRevival.ts:171-176 | over every order of page events and of the steps of recoveries at most one recovery runs, and every recovery that ends has followed the rules to an end |
| WalletRevival.NoneAfterDispose | src/providers/walletConnectRevival.ts:172-188 | no recovery begins after disposal |
| WalletRevival.WakeBeginsIff | src/providers/walletConnectRevival.ts:171-176 | after every run, a wake begins a recovery, with an empty log, if and only if the page is visible, ready and not disposed and none is running; any other wake changes nothing |
| WalletRevival.RecoveryGoesOn | src/providers/walletConnectRevival.ts:171-176 | the running recovery takes exactly the steps the rules allow, and once they allow no more its end leaves room for the next |
| WalletRevival.DisposedIff | src/providers/walletConnectRevival.ts:187-192 | the page is disposed if and only if it was told so |
| WalletRevival.Revival.OnWake | src/providers/walletConnectRevival.ts:171-176 | the call begins a recovery if and only if the page is visible and ready and neither flag is up, and the flags take the machine's step |
| SiweNonceCache.RunKeepsInvariant | src/providers/AuthProvider.tsx:98-136 | over every interleaving the cache holds the newest unrejected entry or none, and a finished take leaves its entry uncached |
| SiweNonceCache.SharedNonceMeansOverlap | src/providers/AuthProvider.tsx:128-135 | two takes return one nonce only if the second began while the first was running |
| SiweNonceCache.NoncesAreSingleUse | src/providers/AuthProvider.tsx:128-135 | with one take at a time no nonce is returned twice |
| SiweNonceCache.SharedNonceIff | src/providers/AuthProvider.tsx:128-135 | two takes return one nonce if and only if they awaited one entry |
| SiweNonceCache.BeginSharesIff | src/providers/AuthProvider.tsx:98-131 | a new take awaits the entry of an earlier one if and only if that entry is cached, for the same key and not about to expire; the earlier take is then still running |
| SiweNonceCache.OwnEntriesIff | src/providers/AuthProvider.tsx:98-136 | over every run, each take awaits an entry of its own if and only if no take ever joined another |
| SiweNonceCache.SingleUseUnlessJoined | src/providers/AuthProvider.tsx:98-136 | unless a take joined another no nonce is returned twice, however the takes overlap |
| SiweNonceCache.OverlapSharesNonce | src/providers/AuthProvider.tsx:104-135 | one run: of two takes for one key, the second begun before the server answers, both return the same nonce |
| SiweNonceCache.ReturnedForItsKey | src/providers/AuthProvider.tsx:102-135 | a returned nonce was issued to a request for the same key |
| SiweNonceCache.ResolvedByServer | src/providers/AuthProvider.tsx:111-119 | a resolved entry holds the nonce and the expiry the server gave to that very request |
| SiweNonceCache.RejectionIsLocal | src/providers/AuthProvider.tsx:120-123 | a rejected request is never left cached, and a late rejection evicts nothing else |
| SiweNonceCache.AnswerIsLocal | src/providers/AuthProvider.tsx:111-119 | an answer settles its own pending request and touches no other entry, no take and not the cache |
| SiweNonceCache.EndTakeIsLocal | src/providers/AuthProvider.tsx:128-135 | a take that ends returns its entry's nonce or fails as the request did, and empties the cache if and only if that entry is still in it and was resolved; all else stays |
| SiweNonceCache.TakeAwaitsFreshEntry | src/providers/AuthProvider.tsx:103-133 | a take awaits a new request or a cached one with more than the margin left |
| SiweNonceCache.PreparedNonceIsTaken | src/providers/AuthProvider.tsx:98-136 | a nonce prepared in time is the one taken, with no second request |
| SiweNonceCache.NonceCache.PrepareSiweNonce | src/providers/AuthProvider.tsx:98-126 | the ref and the entries take the machine's step, and the entry returned is the cached one |
| SiweNonceCache.NonceCache.FinishTake | src/providers/AuthProvider.tsx:131-133 | after the await the ref is cleared only if it still holds this promise |
| DiagnosticLog.ReadRefinesHistory | src/lib/diagnostics.ts:36-80 | with a clock that never goes back, a read is the entries under a day old among the last 150 recorded since the last clear |
| DiagnosticLog.StoreTrails | src/lib/diagnostics.ts:46-71 | the stored list is always the newest history less a prefix that was already too old |
| DiagnosticLog.ReadRefinesHistoryIff | src/lib/diagnostics.ts:36-71 | with any clock and any number of entries, a read is the history's if and only if no entry of the newest 150 that is young now was already old at a later record, and no older entry that is young now outlasted the records after it |
| DiagnosticLog.StoreIsLasting | src/lib/diagnostics.ts:46-71 | the stored entries are exactly those never too old at a later record and at none of them followed by 150 kept entries |
| DiagnosticLog.StoreIsSurviving | src/lib/diagnostics.ts:46-71 | so the stored list is what pruning leaves of the newest 150 entries, after the older ones that outlast what followed them |
| DiagnosticLog.ReadEndsWithHistory | src/lib/diagnostics.ts:36-71 | if the clock lost none of the newest 150, a read ends with their young entries, after the young ones that linger |
| DiagnosticLog.ClockMustAdvance | src/lib/diagnostics.ts:39-40 | a clock that jumps ahead and back loses a young entry |
| DiagnosticLog.OlderEntryLingers | src/lib/diagnostics.ts:66 | after 150 further records, one of them dated by a wrong clock, an entry is still read |
| DiagnosticLog.Log.ReadDiagnostics | src/lib/diagnostics.ts:36-44 | a read returns the stored entries still young, which are those of the history exactly under the stated condition, and each is kept from a line given, redacted and safe |
| Redaction.StartsEmailIff | src/lib/diagnostics.ts:21 | a match starts at the front of a text exactly if some beginning of it matches the pattern, and it takes the longest |
| Redaction.ReplacedFirst | src/lib/diagnostics.ts:32-34 | after text in which no match starts, the longest match becomes the mark, the text before it stays and the rest is treated alike |
| Redaction.LeavesEmailIff | src/lib/diagnostics.ts:32-34 | replacement leaves an address if and only if some match is directly followed by an at sign and a dotted name that starts no match |
| Redaction.RedactLeavesIff | src/lib/diagnostics.ts:32-34 | the redacted and cut text holds an address only in that case, and exactly then if nothing is cut; text without an address is only cut |
| Redaction.ChainedAddressIsLeft | src/lib/diagnostics.ts:32-34 | an input: a@b.c@d.e keeps an address |
| DiagnosticLog.RedactedIsSafe | src/lib/diagnostics.ts:32-62 | in a kept line the message and every text are at most 300 long, hold an address only if their original chained one on, and without one are a beginning of the original |
| DiagnosticLog.Log.RecordDiagnostic | src/lib/diagnostics.ts:46-71 | the new entry has the line's kind and detail names, message and texts redacted and other details as given, and the log stores what the specification says |
| Money.CeilMulDivTruncates | src/lib/units.ts:3-7 | in every case: an error for a zero divisor, zero for a zero factor, and else the corrected product over the divisor with its fraction dropped |
| Money.CeilMulDivIsCeilingIff | src/lib/units.ts:3-7 | for every divisor, negative ones included, the result is the ceiling if and only if a stated condition on the product holds |
| Money.NegativeProductRoundsTooHigh | src/lib/units.ts:6 | minus four thirds rounds to zero, where the ceiling is minus one |
| Money.ParseIsExact | src/lib/units.ts:27-31 | the base units are the denoted decimal times 10^18 |
| Money.AcceptedIff | src/lib/units.ts:27-31 | a text is accepted if and only if it is digits, or digits, a dot and at most eighteen digits, and then has the value they say |
| Money.TrimIs | src/lib/units.ts:19-25 | trimming takes the white space at both ends, all of it and nothing else |
| Money.SameUnitsIffSameDecimal | src/lib/units.ts:27-31 | two accepted texts give the same units if and only if they denote the same decimal |
| Money.ParseIgnoresSpace | src/lib/units.ts:19-25 | white space around an amount does not matter |
| Money.FormatRoundTrip | src/lib/slippage.ts:51 | parsing the 18-decimal rendering returns the amount, and nothing for a negative one |
| Money.FormatIsDecimal | src/lib/slippage.ts:51 | the text of any amount is its sign, the numeral of its dollars and the fraction digits down to the last that is not zero |
| Money.InputStringIs | src/lib/slippage.ts:49-54 | the field shows the numeral of the dollars and two digits of cents, rounded towards zero, or no cents for whole dollars |
| Money.InputStringRoundTrip | src/lib/slippage.ts:49-54 | parsing the field text returns the amount rounded down to a cent, and nothing for a negative one |
| Money.HeadroomIsLeast | src/lib/slippage.ts:29-32 | the payment is the least whole amount 0.5% above the quote and covers every requote up to that |
| Money.HeadroomIsTightIff | src/lib/slippage.ts:29-32 | it equals the largest whole requote in the band if and only if the quote is a multiple of 200 |
| Money.SuggestionIsLeast | src/lib/slippage.ts:34-42 | the suggestion is the least whole-cent amount 0.5% above a positive minimum |
| Money.SuggestionSurvivesField | src/lib/slippage.ts:38-54 | the suggestion survives the text field exactly, for every minimum that is not negative |
| Money.SuggestionIsSafe | src/lib/slippage.ts:38-47 | it is never below the minimum and never in the warning band |
| Money.WarningBandIff | src/lib/slippage.ts:44-47 | a whole-cent bid is in the band if and only if it is less than 0.5% above the minimum |
| Money.WarningBandExactly | src/lib/slippage.ts:44-47 | for any bid and any minimum the band is what reaches a positive minimum but no whole cent half a percent above it |
| PrimaryAuction.MinimumIsLeast | src/lib/auctionBid.ts:12-18 | the minimum is the floor or, with a positive lead, a dollar above it if that is more: exactly what a bid must reach |
| PrimaryAuction.SubmittedIsPositive | src/components/modals/index.tsx:95-167 | the form submits exactly the amounts above zero that reach the floor and top a positive lead by a dollar, as far as the auction is known |
| PrimaryAuction.SuggestionSubmittableIff | src/components/modals/index.tsx:88-167 | left as suggested the form can be submitted if and only if the minimum is above zero |
| PrimaryAuction.EachBidAddsADollar | src/lib/auctionBid.ts:12-18 | each bid that meets its minimum, whoever places it, raises a positive lead by a dollar |
| PrimaryAuction.MinimumBidsAreExact | src/lib/auctionBid.ts:12-18 | bids at exactly the minimum by any bidders are accepted and raise a leading bid by one dollar each, no more |
| PrimaryAuction.RunKeepsPace | src/lib/auctionBid.ts:12-18 | over any run of bids by anyone, withdrawals, settlement, pauses and reads, for every floor, if no bid is zero: with k bids accepted since the last accepted withdrawal the lead is at least the floor plus k - 1 dollars |
| PrimaryAuction.LeadKeepsPaceIff | src/lib/auctionBid.ts:12-18 | that pace is kept by all runs of all auctions with a given floor if and only if the floor is positive or no bid of zero gets through |
| PrimaryAuction.PhaseMovesForward | src/lib/gemActions.ts:87-97 | over any run of bids, withdrawals, settlement and pauses the phase never goes back |
| PrimaryAuction.PhaseIff | src/lib/gemActions.ts:87-97 | each phase is shown exactly between its times, or once settled |
| PrimaryAuction.SettledIsFinal | src/pages/AuctionsPage.tsx:117-132 | after a settlement nothing changes the auction or its leader |
| PrimaryAuction.RunKeepsLead | src/lib/auctionBid.ts:12-18 | over any such run a leading bid stays above zero and at or above the floor |
| PrimaryAuction.WithdrawalMatchesContract | src/lib/auctionBid.ts:32-43 | at every time, before the close included: with its reads answered the page offers a withdrawal if and only if the contract releases the leader, and with the pause unread it offers none that is refused |
| PrimaryAuction.ExitIsAlwaysOffered | src/services/chain/chainService.ts:1636-1655 | after any run and whatever was read of either kind of contract, the page offers the leader of an ended, unsettled auction an exit |
| PrimaryAuction.ExitWorksIff | src/pages/AuctionsPage.tsx:55-134 | after any run, an exit it offers is accepted if and only if the page is right about the contract's pause or knows that the grace of binding bids has passed |
| PrimaryAuction.UnseenPauseRefusesSettle | src/pages/AuctionsPage.tsx:57-132 | an input: a contract paused after its rule was read refuses the only exit offered |
| PrimaryAuction.OlderPauseIsNeverSeen | src/services/chain/chainService.ts:1651 | for a contract without binding bids an exit works if and only if it is not paused, whatever was read |
| PrimaryAuction.LeaderNeverStranded | src/lib/auctionBid.ts:20-43 | under binding bids a read that is answered gives the leader a working exit, and once the grace has passed any rule read offers a withdrawal that works |

## Left out

- Canonical hashing: `keccak256` and UTF-8 encoding of the canonical text.
- Numbers in exponent notation, and negative zero, which prints as zero: numbers are plain decimals, and countdown arithmetic on them is exact where the code uses doubles.
- Sparse arrays, symbols, functions, dates and `toJSON` in value trees.
- JSON reading of text the printers do not write: white space between tokens, leading zeros, and the last-wins rule for repeated keys.
- `BigInt` of a tag holding hexadecimal or blank text or an array: the model reports an error there. No tree that owns the tag survives a reload either way.
- `PersistedClient.DeserializeClient`: a query whose `dataUpdatedAt` is not a number makes it report an error where the code converts it or computes with NaN, and so does an empty text in place of the list of queries, which the code accepts.
- `PersistedClient.SessionsAddUp`: is about clients whose queries have data, as the choice of queries to store ensures (`src/providers/queryPersistence.ts:41-43`).
- That choice, the cache's maximum age and its storage.
- The link tags around the preloaded files, and the order of the files.
- `GiftCardWrap.Wrap`: requires at least one line, because with none the code fails on a missing last line.
- QR symbol generation: the module matrix is an input. Closing lines of a path that are not vertical are not modelled, since none is drawn.
- The query client itself: an invalidation is one start and one completion, successful or not.
- Names, relayer lookup and diagnostics of the wallet recovery; a connector without a provider function answers at once. Disposal during a round stops the recovery at the next round only, as in the code.
- The profile, origin and chain parts of a nonce's key are one text; an unconfigured server and the signature that uses the nonce.
- `DiagnosticLog.Log.RecordDiagnostic`: a write the browser refuses, which loses its entry, and the JSON text of the stored list.
- The debug flag, the page listeners and the plain-text report of the log.
- `headroomPercent`, `reserveFundingPercent` and `listingBidReleased`: one-line facts.
- The branches of `gemPageMode` for tokens. The contracts are modelled as the comments of `src/lib/auctionBid.ts` and `src/pages/AuctionsPage.tsx` describe them; one that is upgraded during a run is not.
- React components, routing, styling, remote services, and the Edge Functions apart from their canonical printer.
