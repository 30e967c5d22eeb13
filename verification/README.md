# ESP-Hole, verified model

ESP-Hole blocks DNS names on small devices. A *generator* fetches block lists, turns them into one sorted list of
64-bit domain hashes and publishes it over HTTP. *Sinkholes* poll for it, keep it in two flash slots, and answer DNS
queries: NXDOMAIN for listed names and their subdomains, everything else from a small cache or from an upstream
server. This project models both firmwares in Dafny and proves what holds them together.

`dafny verify dfyconfig.toml` checks everything. There is one module per source file or component:

| area | modules |
|---|---|
| shared | `Bytes`, `Bits`, `Text`, `Hash`, `LittleEndian`, `SortedList` |
| generator pipeline | `Normalize`, `ParseLine`, `Allowlist`, `Generate`, `Fetch` |
| DNS serving | `DnsWire`, `LeftDrop`, `DnsCache`, `DnsServe` |
| flash stores | `Flash`, `Manifest`, `SlotStore`, `SlotRuns`, `Sinkhole`, `ArtifactStore` |
| publish and poll | `World`, `SwapLock` |
| statistics | `StatsLine`, `StatsSender`, `StatsCollector`, `Collector` |
| everything together | `EndToEnd` |

How the parts are modelled:

- Code that changes things step by step (scanners, the builder, the line assembler, the cache, the stores, the
  collector) is a class or a method with loops, proved against a specification function; the lemmas are about those
  functions and about runs.
- A device's durable state is two NOR flash slots and a key-value store. Every durable write appends the state it
  leads to, and a possible torn state, to a log (`Flash.Device`). A crash leaves the device in any logged state, so a
  statement about all logged states is a statement about a power failure between any two writes.
- SHA-256 is an arbitrary function parameter. Where authenticity depends on it, the absence of a collision among the
  contents hashed in that run is a hypothesis. FNV-1a is modelled exactly and never assumed injective: blocking is
  stated in terms of hashes.
- Network, clock, allocator and lock time-outs are parameters or nondeterministic choices: chunk contents, statuses,
  read errors, receive results, "allocation succeeded".

The central results are `EndToEnd.EmittedIsBlocked`, `EndToEnd.BlockedExactly`, `EndToEnd.EveryServedEditionBlocks`,
`EndToEnd.PollInWorld`, `EndToEnd.RefuseWhilePolling`, `World.EveryServedListWasPublished`, `SlotStore.OnceServing`,
`SlotStore.KeptExactlyWhenServing`, `ArtifactStore.SaveRun`, `SwapLock.LookupIsMembership`, `Sinkhole.PollStable`,
`Fetch.AssembleLines`, `Generate.Builder.Finish`, `DnsWire.AcceptsExactlyQueries`, `DnsServe.Server.ServeAll`,
`DnsServe.AnswerStays` and `StatsCollector.TotalsAreCounters`.

Where the code and what is said about it differ, the model follows the code:

- "Once some slot validates, some slot always validates" is not true of a device that serves nothing. When recording
  the version of a first download fails, slot 0 validates but is not installed, and the next poll erases it again
  (`SlotRuns.FirstCommitCanBeLost`, `Sinkhole.PollCanLose`). In any state of any run from a boot, whatever manifests
  were polled before, a valid slot survives every further run if and only if a list is served, or a slot validates and
  no manifest to come passes the gates of a poll: a version other than the one served, the floor, and a size that fits
  (`SlotStore.KeptExactlyWhenServing`). The unserved slot of that run is of the second kind: kept until something
  wanted is polled, and lost to the same manifest (`SlotRuns.HalfCommitted`).
- `dns_cache_insert` is described as overwriting the entry for a key (main/dns_sinkhole.c:113), but it never looks for
  one: inserting a key twice in a row leaves two entries for it (`DnsCache.InsertedTwice`). Keys stay distinct if and
  only if the key was not cached or the victim slot held it (`DnsCache.Cache.Insert`); the serve loop inserts only
  after a miss, so there they always do.
- The cache key keeps the answers of different types for one name apart (main/dns_sinkhole.c:335-339), but a key is not
  as good as a name and a type: two queries share one exactly when their name hashes differ by the xor of their types in
  bits 32 to 47 (`DnsServe.KeysMeetExactly`), so different hashes can meet under different types, such as 0 under A and
  29 * 2^32 under AAAA (`DnsServe.KeysCanMeet`).
- A commit that fails is said to leave the previous list serving and the active record untouched
  (main/blocklist.h:49-50). A failed commit has already swapped if and only if it failed at the very end, where the
  final `nvs_commit` reported an error. Nor does success mean that the record names the new slot: the result of setting
  it is discarded (main/blocklist.c:242-243). After a swap, reported as success or failure, the record names the slot if
  and only if the set took effect or the record named it already, and the next boot loads the new list if and only if
  the record names its slot, or the other slot does not validate, or the record names neither slot and the new one is
  slot 0 (`Sinkhole.Sinkhole.CommitSlot`). So a poll can report success and a reboot still bring the old list back
  (`SlotRuns.UnrecordedSwapServesNew`).
- A saved artifact with no entries is verified and activated but refused at the next load
  (`ArtifactStore.EmptySaveLoses`). The generator never builds one: `Generate.Builder.Finish` publishes at least one
  entry.
- Report counts above 2^31-1 are printed in full but read back as 2^31-1, because `long` has 32 bits on the device
  (`StatsLine.PrintedCountReadBack`). One report is added exactly if and only if each of its deltas is at most that
  (`StatsCollector.ExactWhenSmall`), and over a run the totals are exact after every report if and only if
  every delta of the run is (`StatsCollector.ExactExactlyWhenSmall`).

## Model

| member | source | states |
|---|---|---|
| EndToEnd.EmittedIsBlocked | main/dns_sinkhole.c:325-369 | A domain some source line emits and the allowlist does not hold is blocked together with all its subdomains: every query packet whose labels spell it, or end in it after a dot, each letter upper or lower case, is refused with RCODE 3 and no records whatever the cache holds, even if the list is swapped for another edition listing the domain between any two lookups of the turn |
| EndToEnd.BodyLineLists | generator-node/main/fetch.c:88-134 | Every domain that a line of a complete body of some source emits is listed in the edition, unless it is allowlisted |
| EndToEnd.SpelledIsTested | main/dns_sinkhole.c:178-184 | Labels that spell a listed domain or a subdomain in any letter case are read as a name whose left-drop sequence reaches that domain |
| EndToEnd.BlockedExactly | main/dns_sinkhole.c:196-218 | With one published edition in use, a query is blocked if and only if a tested suffix of its name has the hash of an emitted, non-allowlisted domain of that edition |
| EndToEnd.EveryServedEditionBlocks | main/updater.c:273-306 | In every interleaved run of publications, fetches, torn writes and reboots in which each published edition lists d, a serving sinkhole refuses every query at or under d, even when its lookups fall into different states of the run |
| EndToEnd.EditionHolds | generator-node/components/blocklist_pipeline/generate.c:152-221 | The list decoded from a published blob holds exactly the hashes of the non-allowlisted domains emitted by the lines of all sources |
| EndToEnd.UnderIsTested | main/dns_sinkhole.c:196-218 | The name of any query at or under an emitted domain is a C string whose left-drop sequence reaches that domain |
| Hash.ComputeDomainHash | generator-node/components/blocklist_pipeline/hash.c:9-17 | The loop computes 64-bit FNV-1a with wrap-around over all bytes; the sinkhole's copy is the same function |
| Hash.EveryByteCounts | generator-node/components/blocklist_pipeline/hash.c:9-17 | Strings that differ in exactly one byte, wherever it is and whatever follows, have different hashes |
| Hash.StepInjective | generator-node/components/blocklist_pipeline/hash.c:13-14 | A step loses nothing: it is injective in the accumulator (the prime has an inverse modulo 2^64) and in the byte |
| Hash.DomainVector | generator-node/components/blocklist_pipeline/test/host_main.c:140 | The published vector for "example.com", which fixes the order of the bytes |
| Bits.XorBits | generator-node/components/blocklist_pipeline/hash.c:13 | The xor works bit by bit |
| Hash.PinnedVectors | generator-node/components/blocklist_pipeline/test/host_main.c:138-139 | The published FNV-1a vectors for the empty string and "a" |
| LittleEndian.DecodeU64 | generator-node/components/blocklist_pipeline/generate.c:85-92 | The shift-and-or loop reads the little-endian value at an offset |
| LittleEndian.DecodeIsLittleEndian | generator-node/components/blocklist_pipeline/generate.c:85-92 | The value of eight bytes is their sum with weights 1, 256, 65536, ... in order |
| LittleEndian.EncodeU64 | generator-node/components/blocklist_pipeline/generate.c:94-99 | Writes exactly the eight little-endian bytes in place and nothing else |
| LittleEndian.DecodeOfEncode | generator-node/components/blocklist_pipeline/generate.c:175-181 | Decoding a serialised list gives the list back |
| LittleEndian.EncodeOfDecode | generator-node/components/blocklist_pipeline/generate.c:85-99 | Serialising a decoded blob gives the blob back, byte for byte |
| LittleEndian.DecodeInjective | main/blocklist.c:83-92 | Blobs of one length that hold the same list are equal |
| SortedList.EarlyExitSearch | main/blocklist.c:174-189 | On a strictly ascending list the early-exit search answers membership with at most floor(log2 n)+1 probes |
| SortedList.BlobContains | generator-node/components/blocklist_pipeline/generate.c:105-118 | The lower-bound search over the undecoded blob answers membership in the decoded list |
| SortedList.FullSlotProbes | main/blocklist.c:174-189 | A list that fills a 14 MB slot needs at most 21 probes |
| SortedList.VerifyBlob | generator-node/components/blocklist_pipeline/generate.c:120-140 | Accepts exactly the blobs with the right length, the wanted digest and strictly ascending entries |
| SortedList.NeighboursSuffice | main/blocklist.c:110-116 | Comparing neighbours is enough for strict order between all pairs |
| Normalize.ScanIpv4 | generator-node/components/blocklist_pipeline/normalize.c:27-46 | The index-advancing scanner accepts exactly four dot-separated groups of one to three digits |
| Normalize.Ipv4Language | generator-node/components/blocklist_pipeline/normalize.c:27-46 | The same language described as joins of four digit groups |
| Normalize.ScanDomain | generator-node/components/blocklist_pipeline/normalize.c:48-80 | The one-pass scanner accepts exactly the shape of its comment |
| Normalize.DomainLanguage | generator-node/components/blocklist_pipeline/normalize.c:48-80 | That shape is the set of joins of two or more labels of 1 to 63 allowed characters |
| Normalize.NormalizeDomain | generator-node/components/blocklist_pipeline/normalize.c:86-131 | The buffer-filling method computes the normal form (which `Normalize.NormalizedExactly` describes), or nothing for ignored hosts, addresses, non-ASCII and malformed names |
| Normalize.DomainIsFixedPoint | generator-node/components/blocklist_pipeline/normalize.c:86-131 | Every domain (lower-case, well-shaped, not ignored, not an address) is its own normal form |
| Normalize.NormalizedIsDomain | generator-node/components/blocklist_pipeline/normalize.c:86-131 | Every non-empty result is such a domain, so normalisation is idempotent |
| Normalize.NormalizedExactly | generator-node/components/blocklist_pipeline/normalize.c:86-131 | A token stands for a domain if and only if it is that domain with each letter in upper or lower case, with or without one leading "*." and one trailing dot, and white space around it |
| Normalize.AnyCase | generator-node/components/blocklist_pipeline/normalize.c:98-114 | Every letter-case variant of a domain normalises to it, bare or with "*." and "." around it |
| Normalize.LowerMerges | generator-node/components/blocklist_pipeline/normalize.c:110-114 | Two strings are lower-cased alike if and only if they differ at most by pairs of bytes 32 apart, one of them from A to Z |
| Normalize.LowerIs | generator-node/components/blocklist_pipeline/normalize.c:110-114 | Lower-casing yields the one such variant without bytes from A to Z |
| Normalize.LocalDomainIgnored | generator-node/components/blocklist_pipeline/normalize.c:116-118 | "localhost.localdomain" is never a result |
| ParseLine.Tokenize | generator-node/components/blocklist_pipeline/parse.c:68-86 | The tokenising loop yields the first whitespace-separated fields, at most the token limit |
| ParseLine.Parse | generator-node/components/blocklist_pipeline/parse.c:20-107 | The classifier emits, in order, exactly the domains the line's shape prescribes |
| ParseLine.EmittedAreDomains | generator-node/components/blocklist_pipeline/parse.c:11-18 | Every emitted domain is a fixed point of normalisation: lower-case, at most 253 long, no address, no ignored host |
| ParseLine.NoticesEmitNothing | generator-node/components/blocklist_pipeline/parse.c:22-50 | Lines that start with "!", "[" or "@@" behind any white space, and lines over 2048 bytes, emit nothing |
| ParseLine.BlankEmitsNothing | generator-node/components/blocklist_pipeline/parse.c:28-46 | White space and comments emit nothing |
| ParseLine.AbpRulesEmitNothing | generator-node/components/blocklist_pipeline/parse.c:51-66 | "\|\|" rules without a final "^", or with "/", "^", "*", "$" or "\|" inside, emit nothing |
| ParseLine.PlainLine | generator-node/components/blocklist_pipeline/parse.c:88-106 | A bare domain, padded and commented in any way, emits itself |
| ParseLine.DomainsLine | generator-node/components/blocklist_pipeline/parse.c:68-106 | Several domains on one line, with any white space between them, emit themselves in order, 64 at most |
| ParseLine.AbpLine | generator-node/components/blocklist_pipeline/parse.c:41-66 | "\|\|domain^", padded and commented in any way, emits the domain |
| ParseLine.HostsLine | generator-node/components/blocklist_pipeline/parse.c:68-106 | An address (IPv4 shape, or anything with a colon) followed by words with any white space between them means the first 63 words; domains come out unchanged |
| ParseLine.HostsFileEntry | generator-node/components/blocklist_pipeline/parse.c:68-106 | The usual hosts file entry: an IPv4 address and up to 63 domains with any white space between them emits exactly those domains |
| Allowlist.Allowlist.Init | generator-node/main/allowlist.c:17-38 | The scanning loop stores the hashes of the first 32 valid comma-separated entries, in order |
| Allowlist.Allowlist.Contains | generator-node/main/allowlist.c:40-48 | The linear search answers membership |
| Allowlist.ConfiguredDomain | generator-node/main/allowlist.c:17-38 | Any way of writing a domain among at most 32 entries puts that domain's hash on the allowlist |
| Allowlist.ConfiguredExactly | generator-node/main/allowlist.c:17-38 | In full: the list has the hash of the n-th valid entry in place n and nothing else, 32 places at most |
| Generate.Qsort | generator-node/components/blocklist_pipeline/generate.c:72-80 | Sorts the used part of the array in place and leaves the rest alone |
| Generate.SortedCopyCorrect | generator-node/components/blocklist_pipeline/generate.c:72-80 | The sorted copy is an ascending permutation |
| Generate.DedupKeepsSet | generator-node/components/blocklist_pipeline/generate.c:175-181 | Dropping equal neighbours of a sorted list leaves a strictly ascending list of the same set |
| Generate.AscendingCardinality | generator-node/components/blocklist_pipeline/generate.c:175-188 | A strictly ascending list has as many entries as its set |
| Generate.Builder.Reserve | generator-node/components/blocklist_pipeline/generate.c:36-52 | Growing keeps the contents; failure leaves everything as it was |
| Generate.Builder.Add | generator-node/components/blocklist_pipeline/generate.c:54-61 | Appends the hash or changes nothing; over all adds fewer than twice the count of entries have been copied |
| Generate.Builder.Serialize | generator-node/components/blocklist_pipeline/generate.c:167-192 | The in-place dedupe-and-encode scan writes exactly the encoding of the distinct entries |
| Generate.Builder.SelfTest | generator-node/components/blocklist_pipeline/generate.c:197-214 | Fails exactly when the hash of a canary was added: verification and the round trip cannot fail |
| Generate.Builder.Finish | generator-node/components/blocklist_pipeline/generate.c:152-221 | On success the blob decodes to the strictly ascending sequence of exactly the set of added hashes, with the floor met; each failure code if and only if its cause |
| Fetch.NextByte | generator-node/main/fetch.c:98-125 | What one more byte does to the lines of a body |
| Fetch.LineAssembler.FeedByte | generator-node/main/fetch.c:98-125 | One byte: the fixed buffer, its length and the overflow flag stay the state of the lines of the bytes fed so far |
| Fetch.LineAssembler.FeedChunk | generator-node/main/fetch.c:88-125 | The same for a chunk of any size |
| Fetch.LineAssembler.Finish | generator-node/main/fetch.c:126-134 | At the end the parser has been given, of any newline-free lines that make up the body, those of at most 2048 bytes in order, except an empty last one |
| Fetch.AssembleLines | generator-node/main/fetch.c:63-139 | However the body is cut into chunks: of any newline-free lines that make it up, the parser is given those of at most 2048 bytes in order, the last one only if it is not empty and no read failed; from an unreachable source it is given none |
| Fetch.LinesOfSource | generator-node/main/fetch.c:88-134 | The lines of a source as the rest of the model uses them are those |
| Fetch.AllLinesAppend | generator-node/main/fetch.c:141-168 | The lines of all sources are those of the sources one after another |
| Fetch.LineIsParsed | generator-node/main/fetch.c:88-134 | Every non-empty line of at most 2048 bytes of a complete body is among them |
| Fetch.HashesOfLines | generator-node/main/fetch.c:48-61 | The hashes a sequence of lines adds are exactly those of its emitted, non-allowlisted domains |
| Fetch.CanaryLine | generator-node/components/blocklist_pipeline/generate.c:142-150 | A line that emits one of the three canary names makes the self-test fail, unless it is allowlisted |
| Fetch.Sink.Add | generator-node/main/fetch.c:48-61 | Allowlisted: nothing; otherwise the hash is appended and counted, or on allocation failure neither |
| Fetch.Sink.AddLine | generator-node/main/fetch.c:98-134 | One line adds exactly its wanted hashes, and never others even when memory runs out |
| Fetch.FetchAndGenerate | generator-node/main/fetch.c:141-168 | All sources through parser, allowlist and builder: with memory, the artifact publishes exactly the hashes of all lines of all sources, and each error happens if and only if its cause; without, it publishes some of them |
| DnsWire.FlagBits | main/dns_sinkhole.c:223-234 | The flag rewrite sets QR, keeps opcode and RD, clears AA and TC |
| DnsWire.ParseQuestion | main/dns_sinkhole.c:147-191 | The loop over packet and name buffer computes the question (which `DnsWire.AcceptsExactlyQueries` and `Normalize.LowerIs` describe), with every access in bounds on arbitrary bytes |
| DnsWire.ReadQuestion | main/dns_sinkhole.c:147-191 | Success implies an end offset between 17 and the packet length and a name of at most 253 bytes |
| DnsWire.ParseInvertsEncoding | main/dns_sinkhole.c:143-191 | For all labels of 1 to 63 bytes joining to at most 253, parsing the encoded query gives the lower-cased dotted name and the offset after the class |
| DnsWire.AcceptedIsEncoding | main/dns_sinkhole.c:147-191 | Whatever is accepted starts with the encoding of such labels |
| DnsWire.AcceptsExactlyQueries | main/dns_sinkhole.c:147-191 | On arbitrary bytes: accepted with result q if and only if the packet is a query that starts with an encoded name giving q |
| DnsWire.MakeNxdomain | main/dns_sinkhole.c:223-234 | The in-place patch produces the reply that refuses the query and touches nothing beyond it |
| DnsWire.NxReplyRefuses | main/dns_sinkhole.c:220-234 | The reply has the query's ID, QR set, opcode and RD kept, AA and TC clear, RA set, RCODE 3, one question, no records, and the question bytes as asked |
| DnsWire.NxReplyEchoesQuestion | main/dns_sinkhole.c:220-234 | The reply keeps ID and question bytes, has QR set, and with QR cleared parses to the same name and end |
| LeftDrop.TestedNames | main/dns_sinkhole.c:193-218 | Looked up are exactly the non-empty name and its dot-suffixes of two or more labels |
| LeftDrop.IsBlocked | main/dns_sinkhole.c:196-218 | The loop terminates, `strchr` never misses, and it answers true exactly when some lookup of a tested name does |
| LeftDrop.FixedList | main/dns_sinkhole.c:196-218 | Over one list: blocked if and only if a tested name has a listed hash |
| LeftDrop.SwappingLists | main/dns_sinkhole.c:196-218 | With lists swapping between lookups: a suffix on all of them blocks, and blocking needs a listed suffix on one of them |
| LeftDrop.SubdomainBlocked | main/dns_sinkhole.c:193-218 | A listed domain blocks itself and every name that ends in it after a dot |
| DnsCache.Cache.Find | main/dns_sinkhole.c:98-111 | A hit is the latest answer inserted under that key, at most 300 s old; an expired entry is dropped; the clock ticks only on a hit; until it wraps the array refines the recency list's lookup |
| DnsCache.Cache.Insert | main/dns_sinkhole.c:117-141 | Overwrites the first free slot, else one with the lowest tick; keys stay distinct if and only if the key was not cached or that slot held it; until the clock wraps the array refines inserting in front of a recency list of capacity 100; oversized answers change nothing |
| DnsCache.InsertedTwice | main/dns_sinkhole.c:113-141 | Inserting one key twice in a row leaves two valid entries for it |
| DnsCache.Cache.PickVictim | main/dns_sinkhole.c:122-133 | The first free slot, else the first with the lowest tick, whatever the ticks |
| DnsCache.Cache.Touch | main/dns_sinkhole.c:106-107 | Using an entry moves it to the front of the recency list |
| DnsCache.Cache.Expire | main/dns_sinkhole.c:102-105 | Expiring an entry removes exactly it from the recency list |
| DnsCache.RecentlyUsedStays | main/dns_sinkhole.c:113-133 | An answer survives any 99 uses of other keys, however mixed |
| DnsCache.Replaced | main/dns_sinkhole.c:117-141 | Overwriting the victim slot is insertion into the recency list, dropping the last entry when full |
| DnsServe.TypesKeptApart | main/dns_sinkhole.c:335-342 | Answers of different query types for one name never share a cache key |
| DnsServe.KeysMeetExactly | main/dns_sinkhole.c:340-342 | Two hashes under two types have one key if and only if the hashes differ exactly by the xor of the types in bits 32 to 47; then the hashes are equal if and only if the types are |
| DnsServe.KeysCanMeet | main/dns_sinkhole.c:340-342 | Two different hashes that have one key under the types A and AAAA |
| DnsServe.KeyOfQuery | main/dns_sinkhole.c:335-342 | The key of a query is made of the hash of its lower-cased name and the two type bytes behind the encoded name |
| DnsServe.Server.ForwardUpstream | main/dns_sinkhole.c:236-256 | If one of up to four datagrams is at least 12 bytes with the query's ID and QR set, and only other datagrams came before it, it is returned byte for byte; otherwise the call fails |
| DnsServe.UpstreamIsFirst | main/dns_sinkhole.c:236-256 | The same for the upstream answer the rest of the model uses |
| DnsServe.Server.Consult | main/dns_sinkhole.c:343-368 | A live cached answer is replayed under the query's ID; otherwise the upstream answer is sent and remembered under the key; on an exact recency list this is lookup and, after a miss, insertion in front |
| DnsServe.Server.Resolve | main/dns_sinkhole.c:340-369 | The same under the key made of name and type |
| DnsServe.Server.RefuseInPlace | main/dns_sinkhole.c:328-336 | The received query becomes its NXDOMAIN reply |
| DnsServe.Server.ServeOne | main/dns_sinkhole.c:310-369 | One turn: nothing unless the packet is a query that starts with an encoded name; a refusal if blocked; else the live cached answer with the query's ID and every other byte kept; else exactly the first matching datagram of four, and nothing without one; reply and new cache are those of a server over the recency list |
| DnsServe.ReplyServes | main/dns_sinkhole.c:325-369 | The same for the reply of a turn as the run and end-to-end results use it |
| DnsServe.Server.ServeAll | main/dns_sinkhole.c:288-371 | Over any number of turns every reply carries its query's ID, has QR set and is 12 to 1500 bytes long; for the first 2^32-1 clock ticks all replies and the cache are exactly those of a server over a recency list of 100 answers |
| DnsServe.AnswerStays | main/dns_sinkhole.c:346-369 | On that server, the answer given last is replayed in any of the next 99 turns on other keys until it is 300 s old |
| DnsServe.AnswerReplayed | main/dns_sinkhole.c:346-355 | So the next turn on that key, after at most 99 turns on other keys and within 300 s, is answered with it under the new query's ID |
| DnsServe.RepliesAreGood | main/dns_sinkhole.c:325-369 | The same for the reply of a single turn |
| Flash.ProgramErased | main/updater.c:240-244 | Under AND-write semantics, programming erased cells stores the data exactly and nothing else |
| Flash.ProgramClears | main/updater.c:240-244 | Programming only clears bits: a bit is set afterwards if and only if it was set and is set in the value |
| Flash.EraseLengthIsLeast | main/updater.c:186-188 | For a power-of-two erase size dividing the slot, the masked length is the least multiple covering the size and stays in the slot |
| Flash.Device.Write | generator-node/main/artifact_store.c:142-144 | A write that succeeds programs the range, one that fails or is cut short may leave anything in that slot, and nothing else changes |
| Flash.Device.Erase | generator-node/main/artifact_store.c:139-141 | The same for erasing |
| Flash.Device.Store | main/blocklist.c:216-228 | A key-value write becomes durable on its own, or has no effect |
| Manifest.ParseSha256Hex | main/updater.c:54-68 | Accepts exactly 64 hex digits of either case and returns their value |
| Manifest.HexRoundTrip | generator-node/main/http_serve.c:49-52 | Printing a digest in hex and parsing it back is the identity |
| Manifest.HexPrints | generator-node/main/http_serve.c:49-52 | Byte i prints as digits 2i and 2i+1 of "0123456789abcdef", the high one first |
| Manifest.NibbleOf | main/updater.c:54-68 | A byte is read as n if and only if it is the n-th of those digits, a to f in either case |
| Manifest.TruncateKeeps | main/updater.c:144 | Versions of up to 31 bytes are kept; of longer ones the first 31 bytes |
| Manifest.ParseManifest | main/updater.c:114-170 | Accepts exactly complete manifests of the right format with size = 8 * count at or above the floor |
| Manifest.ManifestRoundTrip | generator-node/main/http_serve.c:46-71 | The sinkhole accepts a published manifest if and only if it has at least 10000 entries, and reads size, count, digest and version back unchanged, a version of 32 bytes or more cut to 31 |
| SlotStore.BootFindsAnyValidSlot | main/blocklist.c:136-165 | A boot serves a list if and only if some slot validates |
| SlotStore.BootLoads | main/blocklist.c:144-164 | A boot loads a valid slot if and only if the record names it, the other slot does not validate, or the record names neither and it is slot 0 |
| SlotStore.ValidatesExactly | main/blocklist.c:49-116 | A slot validates if and only if it has a recorded count from 10000 to 14 MB worth, the digest of that many entries on record, and strictly ascending entries |
| SlotStore.StepSafe | main/blocklist.c:204-244 | No durable write, swap, activation record or reboot touches the flash or records of the served slot; a serving node keeps serving a validated list |
| SlotStore.RunSafe | main/blocklist.c:136-244 | The same over every run of such steps with a crash anywhere |
| SlotStore.OnceServing | main/blocklist.c:136-244 | Once a list is served, in every later state some slot validates and a reboot serves a validated list, however far the active record lags |
| SlotStore.RunKeepsBooted | main/blocklist.c:136-165 | In every state of every run of polls from a boot, a session that serves nothing has no valid slot 1 |
| SlotStore.KeptExactlyWhenServing | main/updater.c:286-292 | In any state of any run from a boot, whatever manifests were polled before, a valid slot survives every further run of polls of given manifests if and only if a list is served, or a slot validates and none of those manifests is wanted (new version, above the floor, fits) |
| SlotStore.UnservedSlotLost | main/updater.c:186-188 | From a booted node that serves nothing, the erase of the next wanted download leaves no valid slot |
| SlotRuns.FirstCommitCanBeLost | main/blocklist.c:209-232 | A concrete run from a blank device: a wanted list of version "v2" is written to slot 0 but not installed, and the next poll's erase loses it |
| SlotRuns.HalfCommitted | main/blocklist.c:209-232 | A concrete unserved device with a valid slot: the slot is kept through every run that polls nothing wanted, and lost in a run that polls the same manifest again |
| SlotRuns.UnrecordedSwapServesNew | main/blocklist.c:237-243 | A concrete run in which only setting the active record has no effect, which the commit may report as success: the new list is served, and a reboot brings the old one back |
| Sinkhole.Sinkhole.Validate | main/blocklist.c:49-116 | The load checks accept exactly a slot with a plausible count, the recorded digest and strictly ascending entries |
| Sinkhole.Sinkhole.Install | main/blocklist.c:118-126 | Swaps buffer, count, slot and version together |
| Sinkhole.Sinkhole.Boot | main/blocklist.c:136-165 | Serves the recorded slot, else the other, which is then recorded; succeeds exactly when a slot validates; all its writes are safe steps |
| Sinkhole.Sinkhole.Contains | main/blocklist.c:167-192 | Membership in the served list within floor(log2 n)+1 probes |
| Sinkhole.Sinkhole.DownloadToSlot | main/updater.c:174-271 | Success implies the slot starts with exactly the delivered bytes, of the manifest's length and digest; a good response on a healthy device succeeds; without a connection exactly the erase has happened; every intermediate state is a safe step |
| Sinkhole.Sinkhole.CommitSlot | main/blocklist.c:209-244 | Any slot number: the served slot and numbers that are no slot are refused without a write; the session changes if and only if the commit succeeds or only its final `nvs_commit` reports an error; then the slot validates and is served, the record names it if and only if the (unchecked) set of it took effect or it named it before, and the next boot loads the new list exactly under the condition of `SlotStore.BootLoads`; a verified blob on a healthy device is committed and recorded; every intermediate state is a safe step |
| Sinkhole.Sinkhole.CheckOnce | main/updater.c:273-306 | One poll: no-op for a failed fetch, a bad manifest, the current version or a blob that does not fit; otherwise only safe poll steps, and with nothing failing it ends serving the published blob |
| Sinkhole.WorthwhileExactly | main/updater.c:114-170 | A manifest makes a poll download if and only if its format is 2, all fields are there, the digest is 64 hex digits, the size is 8 times the count, the count at least 10000, the size at most 14 MB, and its version (cut to 31 bytes) is not the one served |
| Sinkhole.PollCanLose | main/updater.c:292-298 | A booted device that serves nothing, polls a wanted manifest and cannot connect ends with no valid slot |
| Sinkhole.LaterPolls | main/updater.c:286-290 | While the manifest is not worth a download, any number of polls with any responses write and change nothing |
| Sinkhole.PollStable | main/updater.c:308-315 | Against a generator keeping one artifact published, under a version (cut to 31 bytes) other than the one served, with nothing failing: the first poll ends serving that blob and version, and every later one changes nothing |
| World.NextKeepsProvenance | generator-node/main/http_serve.c:73-104 | Every digest a sinkhole relies on stays that of a published blob, whatever is published between its two requests |
| World.RunKeepsProvenance | main/updater.c:273-306 | The same over whole runs |
| World.LogIsRun | main/updater.c:292-298 | The log of a poll of the sinkhole is a run of the world from any state that has its manifest |
| EndToEnd.PollInWorld | main/updater.c:273-306 | A poll as it runs, after any run of the world: without a collision it ends serving a published blob, if it serves anything |
| EndToEnd.ServeWhilePolling | main/dns_sinkhole.c:325-369 | A turn whose list lookups are calls of the sinkhole's own search, with any polls (downloads, commits, crash states logged) between them, is answered as if lookup k were membership in the list served in one state of the world's run, none earlier than the turn; if a list was served before, each of those states serves one |
| EndToEnd.RefuseWhilePolling | main/dns_sinkhole.c:325-369 | On a serving sinkhole, while every published edition lists d, such a turn for d or a subdomain is answered with NXDOMAIN unless two hashed contents collide |
| EndToEnd.LookupAll | main/dns_sinkhole.c:196-218 | The searches of one turn up to the first hit, possibly with a poll before each: each answers membership in the list served at that moment |
| EndToEnd.LockedLookups | main/blocklist.c:167-192 | With the lookups as locked searches interleaved with commits in any way: a tested name on every list current during its call blocks unless the call times out, and only a tested name on a list current during its call does |
| World.EveryServedListWasPublished | main/updater.c:174-306 | Over every interleaving, with truncated or oversized bodies and crashes tearing the records: without a collision, every list served is byte for byte one whole published blob |
| ArtifactStore.Store.Load | generator-node/main/artifact_store.c:36-110 | Restores the recorded artifact exactly when it re-validates; resource failures can only lose it |
| ArtifactStore.Store.WriteInactive | generator-node/main/artifact_store.c:138-191 | Everything before the flip leaves the recorded slot untouched; success means the artifact was read back verified |
| ArtifactStore.Store.Save | generator-node/main/artifact_store.c:112-199 | In whatever state the power fails, a reboot restores exactly the previous artifact or exactly what the new, verified one reloads as; success means the latter |
| ArtifactStore.Flipped | generator-node/main/artifact_store.c:193-198 | Recording a slot that holds a verified artifact restores exactly that artifact, or nothing if it is empty |
| ArtifactStore.SaveRun | generator-node/main/artifact_store.c:36-199 | Over every run of saves, each on the device as the last power failure left it and cut off in any state or run to its end: the device restores what it did at the start or a verified artifact of one of the saves, in either case nothing older than the last save that completed; a save on healthy flash that is not cut off completes; and a recorded slot never stops restoring as long as no saved artifact is empty |
| ArtifactStore.EmptySaveLoses | generator-node/main/artifact_store.c:82-86 | Saving an artifact without entries on a healthy device leaves a recorded slot that does not restore |
| SwapLock.NoFaultEver | generator-node/main/http_serve.c:97-102 | In every interleaving no freed buffer is read, each superseded buffer is freed once and none leaks |
| SwapLock.RunKeepsInv | main/blocklist.c:118-123 | Mutual exclusion and pointer-and-count agreement hold in every reachable state |
| SwapLock.OneContentSeen | main/blocklist.c:167-192 | A finished reader saw one content installed during its call, whole and unmixed |
| SwapLock.LookupIsMembership | main/blocklist.c:167-192 | In every interleaving with commits a lookup that gets the lock answers membership in one list installed during the call; one that times out answers false, so a positive answer is always right |
| SwapLock.SendIsOneBlob | generator-node/main/http_serve.c:126-138 | In every interleaving with publications a complete send is one whole blob published during the request |
| StatsLine.BucketEdges | main/stats.c:46-54 | Bucket 0 is below 128 us, bucket b covers [2^(b+6), 2^(b+7)), the last one everything from 2^21 us |
| StatsLine.PlusMinus | main/stats.c:36-39 | Deltas by unsigned subtraction are exact across a wrap |
| StatsLine.PrintedCountReadBack | generator-node/main/stats_ui.c:96-104 | A printed count followed by its suffix is read back exactly up to 2^31-1 and as that maximum beyond |
| StatsLine.KeysUnderstood | generator-node/main/stats_ui.c:97-112 | Every printed field name is understood as itself, h0 to h15 in their own buckets |
| StatsLine.NamesAreUnique | generator-node/main/stats_ui.c:97-106 | The five named totals have exactly those field names |
| StatsLine.LineReads | main/stats.c:150-165 | The text of a report: "esphole,node=", the node, a space, and the 21 fields by name in order, each with its decimal value and an "i", with commas between them |
| StatsLine.PrintedVector | main/stats.c:150-165 | 40961 prints as "40961" |
| StatsLine.ReadVector | generator-node/main/stats_ui.c:96 | " -12i" is read as -12 |
| StatsLine.LineFits | main/stats.c:153-168 | A report always fits the 512-byte buffer |
| StatsSender.Sender.CountForwarded | main/stats.c:66-72 | Counts one forward, its latency and its bucket and nothing else |
| StatsSender.Sender.SendOnce | main/stats.c:118-174 | The datagram carries the growth since the previous interval, sent or dropped; the snapshot advances either way |
| StatsCollector.ReportReadBack | generator-node/main/stats_ui.c:85-115 | Reading the printed fields adds exactly the (saturated) deltas, each bucket to its own |
| StatsCollector.ExactWhenSmall | generator-node/main/stats_ui.c:96-110 | One report is added exactly if and only if each of its deltas is at most 2^31-1 |
| StatsCollector.ExactExactlyWhenSmall | generator-node/main/stats_ui.c:96-110 | Over every run of up to 16 nodes: the totals are exact after every report if and only if every delta of the run is at most 2^31-1 |
| StatsCollector.ReportIngested | generator-node/main/stats_ui.c:66-116 | A report the sender printed adds its deltas to that node's totals and changes no other node |
| StatsCollector.ParsedExactly | generator-node/main/stats_ui.c:66-80 | A line is taken apart into a node and its fields if and only if it is "esphole,node=", a name of 1 to 15 bytes without a space, a space, and those fields |
| StatsCollector.OtherLinesIgnored | generator-node/main/stats_ui.c:66-80 | Every other line changes nothing |
| StatsCollector.TotalsAreCounters | generator-node/main/stats_ui.c:22-33 | Over every run of up to 16 nodes, each datagram delivered once, with deltas of at most 2^31-1: the collector knows exactly the reporting nodes and its sums are their counters modulo 2^32 |
| Collector.Collector.FindOrCreate | generator-node/main/stats_ui.c:39-60 | The slot of a known node, else a fresh zeroed one while there is room, else none; names of 0 or over 15 bytes are refused |
| Collector.Collector.AddPiece | generator-node/main/stats_ui.c:86-114 | Cutting one field out of the buffer in place adds its value and leaves the rest of the line intact |
| Collector.Collector.AddFields | generator-node/main/stats_ui.c:85-115 | The loop adds exactly the comma-separated fields of the line, an empty last one included |
| Collector.Collector.IngestLine | generator-node/main/stats_ui.c:66-116 | The node table after cutting up a line that ends at a newline or at the NUL: for a line that ends at the NUL, the table the line's meaning prescribes; otherwise its fields run on into the text behind it |

## Left out

- Sockets, HTTP client and server calls, TLS, JSON text, Ethernet, logging and the watchdog: only their results appear, as parameters.
- The internals of SHA-256, of the key-value store and of the allocator: an arbitrary function, a durable map, and a may-fail choice.
- Wrap-around of 32-bit sizes in `count * 8` and in capacity doubling: sizes are unbounded, and `ArtifactStore.Store.Save` keeps the stored count modulo 2^32.
- A manifest version given as a number: it is taken as its decimal string.
- Read-only C buffers are byte strings; buffers the source fills or patches are arrays. A slot's flash and the PSRAM hash list are replaced as values.
- Which statistics counter a turn of the serve loop increments.
- The line sink callback of `parse_line` is the sequence of emitted domains.
- The fields of a collector slot's name buffer and time of last sight: the name is a byte string, the time is not kept.
- The loop over the lines of a stats datagram: each line is modelled, but not what the cuts of one line leave of the next.
- Counters read one by one while the DNS task runs: the sender's snapshot is taken between two counter updates.
- The order of an interrupted erase or write: any contents of that slot are possible, not only those a real chip can show.
- Lists longer than memory allows, the HTML page, settings, the list of source URLs and the refresh schedule: they would add easy members only.
- No relation between a sinkhole's version label and its list is claimed after torn record writes, and none between the allowlist and left-drop matches of a parent domain.
- DnsCache.Cache.Insert: after the 32-bit clock has wrapped, the victim still has the lowest tick, but ticks no longer follow the order of use, so the recency list is claimed for the first 2^32-1 ticks only; that hits stay correct is claimed for all.
