# rove verification model

A Dafny model of the proxy node **rove**, with proofs. It covers the address-book
pipeline from rule text to routing decision, and the state machines around it.

The address book. Rules (addresses and CIDRs, domain suffixes, exact names,
keywords, each under a hierarchical category) are added to a builder. `build`
sweeps overlapping ranges into disjoint segments carrying category bitmasks,
interns the masks and lays out a book. The book is written to a checksummed
`.rab` container, read back by a strict decoder, queried by binary search and a
walk over reversed labels, and exported as names and CIDR blocks. Every stage is
proved to be a faster or encoded form of one relation: some added rule of a
selected category covers this host. `Pipeline.BuildAndServe` ties them end to end.

Around it: the routing snapshot compiler and its first-match index
(`SnapshotCompiler.CompileAndDecide`), the stream sniffer with prefix replay, the
token bucket, and the registry of diagnostic sessions. Each has its properties
proved over all runs.

| files | what they model |
|---|---|
| `Wrappers` `Orders` `Words` `Text` `Unicode` `Flattening` `LittleEndian` | option and result, sorted iteration, 64-bit masks, strings as UTF-8 bytes, the laws of UTF-8, row tables, little-endian integers |
| `Addresses` `Rules` `Coherence` `Sweeping` `CanonicalForm` `Interning` `BuildSpec` `BuildValidity` `Builder` | the builder: meaning of each call, state of a run, sweep, interning, the built book |
| `BookFormat` `Sections` `StringDecoding` `FixedDecoding` `Container` `Decoder` `PartEncoding` `Encoder` `CanonicalBytes` `WireLimits` | validation, wire layout, decoder, encoder, round trip, when the bytes are canonical, what is written and not read |
| `Queries` `Lookup` `Resolution` `SelectorCache` `SelectorBudget` `EndToEnd` `Pipeline` | queries, pattern resolution, its weak cache and its memory budget, the end-to-end theorems |
| `Cidr` `Export` | range to CIDR export and the control-plane catalog |
| `TokenBucket` `Sniff` `Replay` `Diagnostics` | rate limiter, sniffer, capture and replay, session registry |
| `Trie` `RuleSets` `RouteIndex` `Egresses` `Snapshot` `SnapshotCompiler` | selectors, label tries, first-match index, egress chains, snapshot compilation and decision |
| `Spelling` `HostNames` `RuleLines` `SelectorLaws` `EgressLaws` `ReadingLaws` `DocumentLaws` `StreamLaws` `DiagnosticsLaws` `WireLaws` `AddressLaws` | what the words of the specifications mean, said in literal text, byte positions and numbers |

How it is modelled. Objects that change in place are classes with the fields of
the original (`BookBuilder`, `Cursor`, `AddrBook`, `TokenBucket`, `ObserveState`,
`PrefixedIo`, `Registry`); loops are loops with invariants; values are datatypes.
Machine words are naturals with their bounds written out. Strings are their UTF-8
bytes, and trimming knows the Unicode white space characters by their encodings.
SHA-256, UTF-8 validation, the parsing of addresses, networks and dates, the HTTP
request parser, the TLS acceptor, the clock and the event channel are function
parameters, and the order in which the map of policies is iterated is a parameter too,
so the theorems hold whatever these return. Where a property needs a law of UTF-8 it is
required, and `Unicode.Utf8Laws` proves all of them of the UTF-8 of RFC 3629. Errors
carry no message.

Code and specification share a vocabulary: trimming and normalising, which hosts a line
covers, which egress an action means, when a document compiles, which record a session
counts, where in an artifact a field stands. The law modules fix it without using it:
each law says, for all inputs, what such a word means in literal text, byte by byte or
number by number. So `RuleLines.ServeLine` says of one line of text, built, encoded,
decoded and queried, exactly which hosts match; `ReadingLaws.ReadingIs` where a
connection goes, down to address and credentials of the upstream
(`EgressLaws.UpstreamIff`); `DocumentLaws.CompilableIff` which documents compile;
`StreamLaws.ObserveStream` what a stream is observed as; `DiagnosticsLaws.RecordLaw`
which counters a record moves after any run; and `WireLaws.ArtifactIsLaid` what stands
at which byte.

Properties that turned out false of the code, each with its exact condition:

- A successful `add_*` call does not mean that the book builds: a stored name can
  keep space at its ends that the validator refuses (`Pipeline.BuildCanFail`).
  A run builds if and only if each call by itself stores a normalised text and the
  registered paths are within the category limit (`Pipeline.BuildableIff`).
- The CIDR export is minimal if and only if the range is not the whole address
  space, which comes out as two halves (`Cidr.GreedyMinimal`, `Cidr.WholeSpaceHalves`).
- Re-encoding an accepted artifact does not always give its bytes back. It does if
  and only if the sections are listed and laid out in order of their kinds and
  either there are categories or the set count is zero (`CanonicalBytes.CanonicalIff`,
  `CanonicalBytes.CountsOfBook`). Every order of the table is accepted as the same
  book (`CanonicalBytes.AnyTableOrder`, `CanonicalBytes.SwappedIsAccepted`), and so
  is every count of zero-word sets (`PartEncoding.ZeroWordCountIsFree`).
- What the encoder accepts is not always what the decoder accepts: the decoder's
  count and heap limits are the exact difference (`Encoder.EncodedIsArtifact`; the
  other way everything accepted can be encoded, `Encoder.AcceptedIsReencoded`). A run
  of 8,000,001 successful calls builds a book whose artifact is written and then
  refused (`WireLimits.WrittenAndRefused`).
- Sniffing is not always independent of chunking. For a stream that is not TLS it is
  if and only if the limit is zero, or what may be read is uniform, or its head is
  complete and unsupported anyway (`Sniff.SplitsAgreeIff`, for every parser). A parser
  that calls a head unsupported only if a token starts it after empty lines leaves of
  these, under a positive limit, the uniform streams and the unsupported heads with an
  empty line that ends in a bare LF (`Sniff.SplitsAgreeIffUniform`). The streams that
  are not uniform start with CR and then are not HTTP; whole and split observations
  differ (`Sniff.NonUniformDepends`).
- The per-user session cap holds throughout a run if and only if no live session
  is armed again under the name of a user without room (`Diagnostics.UserCapIff`,
  `Diagnostics.RearmBreaksUserCap`).
- Not every session that ends has a summary. All ended arms of a session have one if
  and only if no start came while it was expired and not yet swept, and none armed it
  again (`Diagnostics.EverySummaryIff`; `Diagnostics.SilentEnd` is a run without).

## Model

| member | source | states |
|---|---|---|
| `Sweeping.Sweep` | src/addrbook/builder.rs:327-375 | For every list of ranges with start not above end: the segments are sorted, disjoint, non-empty and maximally merged, none passes the numeric maximum, and at every position the mask is the set of categories of the ranges covering it |
| `Sweeping.CollectEvents` | src/addrbook/builder.rs:331-340 | The event map records, per boundary, exactly the +1 and -1 deltas of the ranges that open or have just closed there; a range ending at the maximum closes at the infinite boundary |
| `Sweeping.ApplyDeltas` | src/addrbook/builder.rs:365-371 | Applying the deltas of one boundary in any order adds the openings and subtracts the closings of each category, drops a counter exactly when it reaches zero, and never goes negative |
| `Sweeping.TracksCats` | src/addrbook/builder.rs:341-373 | Whenever the counters equal the cover counts at a position, the active keys are exactly the categories covering it |
| `Sweeping.PushKeepsSettled` | src/addrbook/builder.rs:345-362 | Appending a segment, or extending a touching one with an equal mask, keeps the list canonical and correct up to the new end |
| `CanonicalForm.CanonicalUnique` | src/addrbook/builder.rs:327-375 | Two canonical segment lists with the same categories at every position are equal |
| `Builder.BookBuilder.constructor` | src/addrbook/builder.rs:33-45 | A new builder holds nothing but its epoch |
| `Builder.BookBuilder.AddCategory` | src/addrbook/builder.rs:47-78 | Registers the normalised path with all its ancestors, or fails and changes nothing, exactly as the path is valid |
| `Builder.BookBuilder.AddLine` | src/addrbook/builder.rs:80-110 | `add_rule`: the state gains exactly the effect of the line, also when the line fails after registering its category; success exactly when both parts are valid. Which hosts a line of each type then covers: `RuleLines.LineMeaning`, `RuleLines.ServeLine` |
| `Builder.BookBuilder.AddDomainSuffix` | src/addrbook/builder.rs:112-124 | Stores the reversed name under the category; the category stays registered when the host is blank and the call fails |
| `Builder.BookBuilder.AddDomainExact` | src/addrbook/builder.rs:126-134 | The same for exact names |
| `Builder.BookBuilder.AddKeywordFragment` | src/addrbook/builder.rs:136-144 | The same for keywords |
| `RuleLines.KeywordLine` | src/addrbook/builder.rs:80-110 | A line "keyword:" and a fragment, space around it or not, covers exactly the host names that contain the fragment, both normalised; no addresses, and no names if the fragment is empty |
| `RuleLines.FullLine` | src/addrbook/builder.rs:80-110 | A line "full:" and a name covers exactly that name |
| `RuleLines.DomainLine` | src/addrbook/builder.rs:80-124 | A line "domain:" and a name, a leading "*." put aside, covers exactly that name and the names that end in a dot and it |
| `RuleLines.AddressLine` | src/addrbook/builder.rs:80-110 | A line that parses as an address or network covers exactly the addresses in it, mapped forms included |
| `RuleLines.OtherTypeLine` | src/addrbook/builder.rs:80-110 | A line with any other type before its first colon covers as a domain what follows the colon |
| `RuleLines.PlainLine` | src/addrbook/builder.rs:80-110 | A line without a type covers as a domain |
| `RuleLines.BlankLine` | src/addrbook/builder.rs:80-110 | A line of white space covers nothing |
| `RuleLines.LineMeaning` | src/addrbook/builder.rs:80-110 | All of these as one statement about every line |
| `RuleLines.ServeLine` | src/addrbook/builder.rs:33-264 | One line under one category, built, encoded, decoded, resolved against patterns and matched: for a category at or below a pattern the answer is what the text of the line says of the host, else no |
| `RuleLines.ExactCall` | src/addrbook/builder.rs:126-134 | A call of `add_domain_exact` covers, in the categories at or below it, exactly its name |
| `RuleLines.SuffixCall` | src/addrbook/builder.rs:112-124 | A call of `add_domain_suffix` covers exactly the name and what is below it |
| `RuleLines.KeywordCall` | src/addrbook/builder.rs:136-144 | A call of `add_keyword` covers exactly the names that contain the fragment |
| `RuleLines.CategoryCall` | src/addrbook/builder.rs:47-78 | A call of `add_category` covers no host |
| `RuleLines.CallByCall` | src/addrbook/builder.rs:47-144 | A run covers a host exactly if one of its calls alone does |
| `Spelling.TrimIs` | src/addrbook/book.rs:52-66 | White space around a text that has none at its ends is what trimming takes off |
| `Spelling.TrimParts` | src/addrbook/book.rs:52-66 | Every text is its trimmed text with white space around it |
| `Spelling.SpaceIff` | src/addrbook/book.rs:52-66 | White space in UTF-8 is exactly the characters with the Unicode property White_Space |
| `Spelling.SpaceIsOne` | src/addrbook/book.rs:52-66 | Whatever is trimmed off is made of whole such characters |
| `Spelling.LowerIff` | src/addrbook/book.rs:52-66 | Two texts are lowered to the same exactly if they differ at most in the case of ASCII letters |
| `Spelling.NormalizeDomainIs` | src/addrbook/book.rs:52-55 | A name with dots and then white space around it is normalised to its lowered letters |
| `Spelling.NormalizeCategoryIs` | src/addrbook/book.rs:63-66 | A path with slashes and then white space around it is normalised to its lowered letters |
| `Spelling.CategoryOfIff` | src/addrbook/builder.rs:47-78 | `add_category` admits exactly the paths that normalise to non-empty segments of small letters, digits and "-_.@!" with single slashes between them |
| `Spelling.ValidPathIff` | src/addrbook/format.rs:597-635 | The validator admits exactly those |
| `Spelling.AncestorsIff` | src/addrbook/builder.rs:47-78 | The registered paths are exactly the path and what stands before one of its slashes |
| `Spelling.NormalizedIff` | src/addrbook/format.rs:716-718 | A match text is normalised exactly if it has no white space and no dots at its ends, and no capitals |
| `Builder.BookBuilder.Build` | src/addrbook/builder.rs:155-264 | Succeeds exactly on buildable states (category limit, stored texts normalised), and the result is valid and is the one book of the state |
| `Builder.BookBuilder.Assemble` | src/addrbook/builder.rs:155-262 | What is assembled before validation is the book of the state: sorted tables, swept ranges, masks by category id, sets interned in order of first use |
| `Builder.InternAll` | src/addrbook/builder.rs:190-250 | The five streams interned in their fixed order give the distinct masks in order of first use, and every id points at its mask |
| `Builder.CatsMask` | src/addrbook/builder.rs:181-188 | The mask of a set of categories has exactly their ids as bits |
| `Builder.ParentsPresent` | src/addrbook/builder.rs:167-179 | The parent looked up for every nested category is there and is the path before the last slash |
| `Interning.Intern` | src/addrbook/builder.rs:194-202 | A known mask keeps its id, a new one gets the next id and is appended, in the table the flat vector holds |
| `Interning.TableOfDistinct` | src/addrbook/builder.rs:190-202 | The interned table holds every mask used, each once |
| `Addresses.CanonicalizeCovers` | src/addrbook/builder.rs:307-325 | Splitting a range at the IPv4-mapped region keeps exactly the covered addresses (a mapped address and its IPv4 form being one), and no IPv6 piece reaches into the region |
| `AddressLaws.FoldIs` | src/addrbook/book.rs:205-226 | The addresses that are folded are `::ffff:0:0` and the 2^32 - 1 after it, onto the IPv4 address of the same number |
| `AddressLaws.CoversIff` | src/addrbook/builder.rs:278-325 | A network covers the addresses between its ends, and of the other family those whose mapped form is |
| `AddressLaws.AvoidsMappedIff` | src/addrbook/format.rs:571-714 | A stored IPv6 range avoids the mapped region exactly if none of its addresses has an IPv4 form |
| `Rules.RunRepresents` | src/addrbook/builder.rs:47-144 | After any run of calls the state holds exactly the effects of the calls: ranges, tagged names and registered categories, and nothing else |
| `Rules.EffectsDetermineContents` | src/addrbook/builder.rs:21-45 | States with the same effects have the same contents, up to order and repetition in the range lists |
| `Coherence.RunCoherent` | src/addrbook/builder.rs:47-144 | After any run of calls the categories are valid paths closed under ancestors, and every range and tag refers to one |
| `BuildSpec.BookUnique` | src/addrbook/builder.rs:155-264 | States with the same contents build the identical book, category-set ids included |
| `BuildValidity.BuiltValid` | src/addrbook/format.rs:571-714 | An assembled book passes validation if and only if the state is within the category limit and every stored text is normalised |
| `Pipeline.BuildBook` | src/addrbook/builder.rs:33-264 | Any run of calls followed by `build`: success exactly when each call by itself stores a normalised text and the paths are within the limit, with the one valid book |
| `Pipeline.BuildableIff` | src/addrbook/builder.rs:47-264 | A run is buildable if and only if its registered paths, ancestors included, are within the category limit and each call, tested by itself, stores a normalised text |
| `Pipeline.BuildCanFail` | src/addrbook/builder.rs:126-134 | Counterexample: adding the exact host ". a" succeeds, and the build then fails, because the stored name keeps its space |
| `BookFormat.Validate` | src/addrbook/format.rs:571-714 | Accepts exactly the valid books, both directions, over all nine fields |
| `BookFormat.LastWordDecides` | src/addrbook/format.rs:636-644 | Checking the last word of a set against the remainder mask decides whether any bit lies outside the category table |
| `BookFormat.ParentPrecedes` | src/addrbook/format.rs:597-635 | In a sorted table every parent stands before its children, so the debug assertion cannot fire |
| `Words.SetBitAdds` | src/addrbook/book.rs:389-394 | Setting a bit adds exactly that id to a mask that has room for it, and changes nothing for an id beyond the mask |
| `Words.MaskExtensional` | src/addrbook/builder.rs:194-202 | A mask is determined by its length and the ids it holds, so equal category sets intern to the same id |
| `AddressLaws.MemberIs` | src/addrbook/book.rs:389-400 | Category `c` is in a mask exactly if bit `c % 64` of word `c / 64` is set, said by division |
| `PartEncoding.EncodeStrings` | src/addrbook/format.rs:106-123 | Succeeds exactly when every text, offset and pool fits its field, with the heads and the pool laid end to end |
| `PartEncoding.EncodePart` | src/addrbook/format.rs:131-203 | Each of the seven payloads is written exactly when it fits, as its canonical bytes |
| `PartEncoding.PayloadEncodes` | src/addrbook/format.rs:270-324 | A written payload is one the decoder reads back as the same part if and only if the part is within the decoder's count limits |
| `PartEncoding.PayloadDetermines` | src/addrbook/format.rs:270-324 | A written payload can be read as nothing but the part it was written for |
| `PartEncoding.Reencoded` | src/addrbook/format.rs:404-547 | Re-encoding what was read from a payload gives the payload back if and only if its count is canonical: the sets have words, or their count is zero |
| `PartEncoding.ZeroWordCountIsFree` | src/addrbook/format.rs:453-482 | Counterexample: with no categories, set counts 0 and 5 are both accepted and mean the same |
| `Encoder.AppendSections` | src/addrbook/format.rs:205-219 | Appending each section and back-patching its table row leaves header, full table and all payloads |
| `Encoder.Encode` | src/addrbook/format.rs:127-223 | Succeeds exactly on valid books whose counts, lengths and pools fit their fields, and writes the sealed artifact |
| `WireLaws.ArtifactIsLaid` | src/addrbook/format.rs:127-223 | Every artifact of a book, byte by byte: "RAB1", version 1, epoch, seven table rows, each kind once; where its row says, the section with every count, string, set and range at its position as a little-endian number; and at the end the digest of all before |
| `WireLaws.ReadableIff` | src/addrbook/format.rs:270-569 | The decoder's limits as numbers: at most 100,000 categories and 8,000,000 of anything else, and 256 MiB in all at 82 bytes a string, 8 a section and a set word, 12 and 48 a range, and the texts |
| `Encoder.EncodedIsArtifact` | src/addrbook/format.rs:127-223 | The bytes written are an artifact of the book if and only if it is within the decoder's limits |
| `Encoder.EncodableSmall` | src/addrbook/format.rs:205-219 | Whatever the encoder accepts is shorter than 2^64 bytes, so no offset or length in the table is truncated |
| `WireLimits.EncodableUnreadable` | src/addrbook/format.rs:270-324 | Counterexample: the book of 8,000,001 calls that each add another name can be encoded and is beyond the decoder's limits |
| `WireLimits.WrittenAndRefused` | src/addrbook/format.rs:127-324 | Those calls all succeed, the book builds, its artifact is written, and decoding the artifact fails |
| `Encoder.EncodedUnique` | src/addrbook/format.rs:329-553 | Whatever book can be read in the bytes written for a book is that book |
| `Encoder.RoundTrip` | src/addrbook/format.rs:127-553 | Encode, then decode, for every book: the same book if it is encodable and within the decoder's limits, an error in every other case |
| `Encoder.AcceptedIsReencoded` | src/addrbook/format.rs:350-553 | Every accepted byte string is of a book the encoder accepts, within the limits; each section's payload is the encoding of the book's part if and only if its count is canonical |
| `CanonicalBytes.CanonicalIff` | src/addrbook/format.rs:127-553 | An accepted byte string is the one the encoder writes for its book if and only if its sections come in order and its counts are canonical |
| `CanonicalBytes.CountsOfBook` | src/addrbook/format.rs:453-482 | For a valid book: the counts are canonical if and only if there are categories or the set count field is zero |
| `CanonicalBytes.AnyTableOrder` | src/addrbook/format.rs:350-398 | Every rearrangement of the section table over the same payloads is accepted as the same book, and is the encoder's output only in the encoder's order |
| `CanonicalBytes.SwappedIsAccepted` | src/addrbook/format.rs:350-398 | Counterexample family: every encodable book within the decoder's limits has a second artifact, its first two table rows exchanged |
| `StringDecoding.Cursor.constructor` | src/addrbook/format.rs:237-239 | A cursor starts at the beginning of its buffer |
| `StringDecoding.Cursor.Take` | src/addrbook/format.rs:240-249 | Returns the next bytes and advances, or fails without moving; never reads out of bounds |
| `StringDecoding.Cursor.Uint` | src/addrbook/format.rs:250-261 | Reads the one integer whose little-endian bytes come next |
| `StringDecoding.DecodeStrings` | src/addrbook/format.rs:270-324 | Accepts a payload exactly when it encodes some entries within count and heap limits, and returns those entries |
| `FixedDecoding.DecodeCatsets` | src/addrbook/format.rs:453-482 | Accepts exactly the set tables whose length fits the two counts, within limits |
| `FixedDecoding.DecodeRanges` | src/addrbook/format.rs:483-536 | Accepts exactly the encodings of range lists, for both widths, within limits |
| `Container.ReadHeader` | src/addrbook/format.rs:337-361 | Accepts exactly the bodies that start with a header and a seven-row table |
| `Container.CheckTiling` | src/addrbook/format.rs:362-388 | Accepts only tables whose sections tile the bytes after the table, each byte in one section; and accepts every tiling by non-empty sections |
| `Container.TilingForces` | src/addrbook/format.rs:374-385 | In a tiling by non-empty sections the next section by offset can start nowhere but where the last ended |
| `Decoder.DecodePart` | src/addrbook/format.rs:404-547 | Each section is accepted exactly when its payload encodes a part that the remaining heap budget can hold, and the charge is that part's |
| `Decoder.DecodeBody` | src/addrbook/format.rs:337-549 | Accepts exactly the bodies laid out as some book, every kind once, and returns that book |
| `Decoder.Decode` | src/addrbook/format.rs:329-553 | On every byte string: acceptance implies the bytes are an artifact of the returned book, and whenever they are an artifact of a book, that book is returned |
| `Queries.LookupRangeFinds` | src/addrbook/book.rs:348-364 | The binary search finds the set of the range containing the key, and finds nothing exactly when no range does |
| `Queries.MatchesIpSelects` | src/addrbook/book.rs:205-226 | True exactly when the range containing the address, folded to IPv4 when mapped, carries a selected category |
| `Queries.WalkStep` | src/addrbook/book.rs:243-266 | One step of the boundary walk reaches exactly the next label-boundary prefix of the reversed name |
| `Queries.MatchesDomain` | src/addrbook/book.rs:228-271 | True exactly when the normalised name is not empty and some exact entry equals it, some suffix entry is it or a parent domain of it, or some keyword occurs in it, with a selected category |
| `Queries.Matches` | src/addrbook/book.rs:198-203 | An address literal is matched as an address, anything else as a name |
| `Text.ReverseLabelsInvolution` | src/addrbook/book.rs:57-61 | Reversing labels twice gives the name back |
| `Lookup.LookupCategories` | src/addrbook/book.rs:274-346 | Lists all and only the categories of the host, in table order |
| `Lookup.MatchesIffListed` | src/addrbook/book.rs:198-346 | A host matches a selector exactly when some category listed for it is selected |
| `Queries.IntersectsSelects` | src/addrbook/book.rs:366-377 | Word-by-word intersection is non-zero exactly when the two id sets meet |
| `Text.PrefixIsRange` | src/addrbook/book.rs:168-178 | The strings from `name/` up to `name0` are exactly those that start with `name/` |
| `Resolution.DescendantsAreContiguous` | src/addrbook/book.rs:168-178 | Between the two partition points lie exactly the descendants of the name |
| `Resolution.ResolveUncached` | src/addrbook/book.rs:134-195 | Sets exactly the bits of the named categories and their descendants, and fails exactly when some name is blank or names nothing |
| `SelectorCache.AddrBook.constructor` | src/addrbook/book.rs:69-88 | A book starts with an empty cache |
| `SelectorCache.AddrBook.Resolve` | src/addrbook/book.rs:134-195 | Whatever the cache holds, the answer is the uncached one, and depends only on the set of normalised patterns; the cache changes by that one publication, or not at all on an error |
| `SelectorCache.AddrBook.PruneSelectorCache` | src/addrbook/book.rs:122-132 | Keeps exactly the entries whose selector is still held, and no lookup answers differently for it |
| `SelectorCache.CacheTransparent` | src/addrbook/book.rs:122-195 | In every state reachable by publications, prunes and selector drops in any interleaving, the cache is within its cap and hands out only uncached answers |
| `SelectorCache.PublishShares` | src/addrbook/book.rs:181-194 | After any run: a list whose selector is still held gets that one and nothing changes; another gets one of its own, which the next lookup shares if there were fewer than 20,000 entries; other lists are found as before |
| `SelectorCache.ResolvesToUnique` | src/addrbook/book.rs:134-195 | One set of normalised patterns has one answer |
| `SelectorBudget.FollowsStep` | src/addrbook/book.rs:181-194 | While a compile holds its selectors, looking up or publishing a list hands out a new allocation exactly when the tally of cached and used lists says so |
| `SelectorBudget.AllocationBounds` | src/addrbook/book.rs:181-194 | Lists resolved in turn take at least as many allocations as are distinct and at most as many as there are; with room in the cache exactly as many as are distinct, in any order |
| `SelectorBudget.OnceEachIff` | src/addrbook/book.rs:181-194 | Each distinct list has one allocation if and only if every list that comes again is cached by then |
| `SelectorBudget.OrderCounts` | src/addrbook/book.rs:181-194 | Counterexample family: with one place left in the cache, the lists a, a, b take two allocations and b, a, a take three |
| `SelectorBudget.ChargeSelector` | src/model.rs:1336-1365 | Charging one more selector succeeds exactly when the allocations of all lists so far fit the budget, and keeps the account equal to their cost |
| `SelectorBudget.CostIsProduct` | src/model.rs:1336-1365 | That cost is eight bytes times the mask words times the allocations |
| `SelectorBudget.WithinIff` | src/model.rs:21 | The budget is 64 MiB |
| `EndToEnd.HostCategories` | src/addrbook/builder.rs:80-375 | The categories found for a host are exactly those of the added rules that cover it |
| `EndToEnd.BuiltBookAnswers` | src/addrbook/book.rs:134-271 | Over every run of builder calls: the selector matches a host exactly when some call registered a rule that covers it in a category equal to or below a pattern |
| `EndToEnd.BuildIsDeterministic` | src/addrbook/builder.rs:155-264 | Runs with the same set of effects, in any order and repetition, build the identical book |
| `Pipeline.ResolvesIffMentioned` | src/addrbook/book.rs:134-195 | Patterns resolve exactly when none is blank and each equals or is above a category some call registered |
| `Pipeline.BuiltTyped` | src/addrbook/builder.rs:249-262 | Every field of a built book fits its machine type |
| `Unicode.EffectText` | src/addrbook/builder.rs:47-144 | Of a call whose strings are UTF-8 the registered path and the stored name are UTF-8, through trimming, lowering, prefixes and the cut at a colon |
| `Pipeline.BookTexts` | src/addrbook/builder.rs:155-264 | If the strings of all calls are UTF-8 then so are all strings of the book, reversed names and ancestor paths included |
| `Unicode.Utf8Laws` | src/addrbook/format.rs:270-324 | The well-formed byte sequences of section 4 of RFC 3629 have every law that the text of calls and books is required to have |
| `Pipeline.Serve` | src/addrbook/book.rs:69-271 | Encode the book of a run, decode, resolve and match: there is a decision exactly when the book fits wire and limits and the patterns were mentioned, and it is what the calls say |
| `Pipeline.BuildAndServe` | src/addrbook/builder.rs:33-264 | From the calls alone, their strings being UTF-8: run them, build, encode, decode, resolve and match. There is a decision exactly when the run is buildable, its book fits wire and limits and every pattern was mentioned; and it is whether some call registered a covering rule in a category at or below a pattern |
| `Cidr.Ipv4RangeToCidrs` | src/addrbook/export.rs:57-84 | The greedy tiling of the range by largest aligned blocks, for every pair of ends |
| `Cidr.Ipv6RangeToCidrs` | src/addrbook/export.rs:87-114 | The same in 128 bits, with the saturating and checked additions |
| `Cidr.NoSaturation` | src/addrbook/export.rs:87-114 | The saturating addition never saturates on an aligned block, so no address at the top is lost |
| `Cidr.GreedyTiles` | src/addrbook/export.rs:57-114 | The blocks are aligned, in order, disjoint, and cover exactly the range |
| `Cidr.GreedyMinimal` | src/addrbook/export.rs:57-114 | No cover by aligned blocks inside the range has fewer blocks, if and only if the range is not the whole address space |
| `AddressLaws.BlockIs` | src/addrbook/export.rs:57-114 | A block holds exactly the addresses that agree with its own in the first `prefix` bits |
| `Cidr.WholeSpaceHalves` | src/addrbook/export.rs:63-70 | Counterexample family: the whole space comes out as its two halves |
| `Export.HasIsMember` | src/addrbook/export.rs:38-50 | `catset_has` reads the bit of the set's row |
| `Export.ControlPlaneCatalog` | src/addrbook/export.rs:122-185 | Fails exactly on a book without categories; otherwise every category lists exactly its own names and, as CIDR blocks, exactly its own addresses |
| `Export.ExportAgrees` | src/addrbook/export.rs:122-185 | A host falls under a category's exported lists exactly when the lookup of the host names the category |
| `TokenBucket.TokensInRange` | src/io.rs:271-291 | Over every run the tokens stay between zero and one second's worth |
| `TokenBucket.Window` | src/io.rs:271-291 | Over every run the tokens taken between two moments are at most rate plus rate times the time between |
| `TokenBucket.Conserved` | src/io.rs:271-291 | Over every run in which the bucket does not overflow: what was there and what has flowed in is what was taken and what is left |
| `TokenBucket.LeastBounded` | src/io.rs:271-291 | The number of sleeps is at most the amount divided by the rate, rounded up |
| `TokenBucket.TokenBucket.constructor` | src/io.rs:263-269 | A bucket starts full |
| `TokenBucket.TokenBucket.Attempt` | src/io.rs:276-288 | One turn refills, takes what is needed or all there is, and keeps the account of what was taken |
| `TokenBucket.TokenBucket.Consume` | src/io.rs:271-291 | Takes exactly the amount asked for, unless the rate is zero, with the least number of sleeps that can supply it, however late each sleep ends |
| `Sniff.ResumedSearch` | src/sniff.rs:239-258 | Searching on from three bytes before what was searched finds the first occurrence in the whole |
| `Sniff.FindSubFinds` | src/util.rs:58-63 | Finds the first occurrence, and nothing exactly when there is none |
| `Sniff.CouldBeHttpPrefix` | src/sniff.rs:475-483 | What could be HTTP could be HTTP at every shorter length |
| `Sniff.VerdictStays` | src/sniff.rs:129-167 | A verdict on a stream is the verdict on every longer stream |
| `Sniff.ObserveState.constructor` | src/sniff.rs:115-127 | Nothing seen, and the limit capped |
| `Sniff.ObserveState.Observe` | src/sniff.rs:129-167 | Keeps the invariant that ties observation, parser and buffer to the bytes offered so far (buffer within the limit and cleared when final); a final observation never changes; an expired clock times out; a TLS stream is observed as the acceptor answers it. What whole streams are observed as: `StreamLaws.ObserveStream` |
| `Sniff.ObserveState.ObserveHttp` | src/sniff.rs:239-258 | Appends the chunk and classifies the head exactly when it is now complete |
| `Sniff.ObserveState.FinishTimeout` | src/sniff.rs:169-173 | Times out unless an observation is final |
| `Sniff.ObserveState.FinishStream` | src/sniff.rs:175-200 | Final observation if there is one, else timeout or incomplete as the clock says |
| `Sniff.ObserveChunks` | src/sniff.rs:129-167 | For every split into non-empty chunks the outcome is the verdict on the whole stream, given what the first chunk was taken for |
| `Sniff.ObserveUniform` | src/sniff.rs:129-167 | Uniform streams (every stream starting with a token byte among them) have one observation however they are split |
| `StreamLaws.FirstByteIff` | src/sniff.rs:475-504 | A stream that does not start with CR may be HTTP exactly if its first byte is a token character of section 5.6.2 of RFC 9110 |
| `StreamLaws.AfterCr` | src/sniff.rs:475-483 | An empty line before it changes nothing, and CR before anything but LF is not HTTP |
| `StreamLaws.HeadObserved` | src/sniff.rs:129-258 | However it is split, a stream whose head ends within the limit is observed as the parser classifies exactly the head, up to and with its first empty line |
| `StreamLaws.OtherObserved` | src/sniff.rs:129-167 | However it is split, a stream that starts with anything else, CR aside, is unsupported |
| `StreamLaws.HeadAwaited` | src/sniff.rs:129-258 | Without such a head there is no observation before the limit (never more than 64 KiB), and then it is over the limit |
| `StreamLaws.FirstAnswer` | src/sniff.rs:129-235 | Of a TLS stream the acceptor's first answer within the limit is the observation |
| `StreamLaws.ObserveStream` | src/sniff.rs:129-258 | The state machine, fed chunk by chunk, observes what these laws say |
| `Sniff.UniformLead` | src/sniff.rs:475-483 | Every first chunk of a uniform stream is taken for what the whole is taken for |
| `Sniff.SplitsAgreeIff` | src/sniff.rs:129-167 | For every non-TLS stream, limit and parser: all splits into non-empty chunks agree if and only if the limit is zero, the readable part is uniform, or its head is complete and unsupported |
| `Sniff.SplitsAgreeIffUniform` | src/sniff.rs:475-483 | With a parser that calls a head unsupported only if a token starts it after empty lines, and a positive limit: all splits agree if and only if the readable part is uniform, or has a bare LF before its request and a complete unsupported head |
| `Sniff.NonUniformDepends` | src/sniff.rs:475-483 | Every other non-TLS stream under a positive limit: whole it is unsupported, with its first byte apart it is searched for a head, and the two observations differ if and only if the head is not complete and unsupported |
| `Sniff.LoneCrIsNotUniform` | src/sniff.rs:475-483 | Counterexample: CR then "A" is unsupported whole and undecided split |
| `Replay.PrefixedIo.constructor` | src/io.rs:26-33 | The stream to read is the prefix followed by the inner stream |
| `Replay.PrefixedIo.Read` | src/io.rs:36-54 | What is read and what is left are together what was left before; nothing is read only if there is no room or nothing left |
| `Replay.PrefixedIo.ReadAll` | src/io.rs:36-54 | Any sequence of buffer sizes reads a prefix of the stream in order, and enough of them read all of it |
| `Replay.CapturePrefix` | src/sniff.rs:382-427 | What is captured is exactly what was consumed, within the limit; an error only if the turn it had come to failed, all turns before having taken bytes; and a uniform capture undisturbed up to its last turn is judged as that prefix |
| `Replay.CaptureThenReplay` | src/sniff.rs:382-427 | Capture, wrap and read on: exactly the original stream, for every sequence of buffer sizes; an error only from the turn that failed |
| `Diagnostics.SessionCap` | src/diagnostics.rs:300-350 | Over every run of calls there are at most `max_sessions` sessions |
| `Diagnostics.StepUserCap` | src/diagnostics.rs:300-350 | A call keeps the per-user cap if and only if it does not re-arm a live session under a full user's name |
| `Diagnostics.UserCapIff` | src/diagnostics.rs:300-409 | Over every run the cap holds throughout if and only if no call is such a re-arm |
| `Diagnostics.RearmBreaksUserCap` | src/diagnostics.rs:300-350 | Counterexample family: three starts that leave a user with two sessions where one is allowed |
| `Diagnostics.Accounting` | src/diagnostics.rs:365-390 | Over every run a session's matched and dropped counters are the wanted, matching records before its deadline since its last arm, sent and not sent |
| `DiagnosticsLaws.EventIs` | src/diagnostics.rs:75-93 | The event type of each of the stages, and of a record without one |
| `DiagnosticsLaws.MatchesIff` | src/diagnostics.rs:239-251 | A record matches a session exactly if user, and host, port, protocol and listener where named, are equal letter by letter up to case |
| `DiagnosticsLaws.RecordLaw` | src/diagnostics.rs:365-390 | After any run a record adds one to matched, or to dropped if the channel is full, of exactly the sessions whose deadline is ahead, that it matches and that want its type; nothing else changes |
| `DiagnosticsLaws.StartLaw` | src/diagnostics.rs:300-350 | After any run a start drops exactly the sessions past their deadline and arms the new one, counters at zero, exactly if it is live already or neither the registry nor its user is full |
| `DiagnosticsLaws.EndLaws` | src/diagnostics.rs:353-409 | A cancel removes the one session, a sweep exactly those past their deadline |
| `DiagnosticsLaws.SummaryLaw` | src/diagnostics.rs:353-409 | After any run a session is summed up exactly by its cancel while it is armed and by a sweep past its deadline |
| `DiagnosticsLaws.SecondsLaw` | src/diagnostics.rs:300-350 | The reply says whole seconds, at least one |
| `DiagnosticsLaws.TokenIs` | src/diagnostics.rs:61-72 | The names of the event types, whose order is that of the reply |
| `Diagnostics.ArmsAreConserved` | src/diagnostics.rs:300-409 | Over every run each arm ends in exactly one way: one summary, silently (purged by a start, or re-armed), or not yet |
| `Diagnostics.EverySummaryIff` | src/diagnostics.rs:300-409 | Over every run the summaries of a session are as many as its ended arms if and only if no call ends it in silence |
| `Diagnostics.SilentEnd` | src/diagnostics.rs:300-350 | Counterexample family: a session that has expired when another is started is gone without a summary |
| `Diagnostics.OneSummaryPerArm` | src/diagnostics.rs:353-409 | So no session has more summaries than arms |
| `Diagnostics.Registry.constructor` | src/diagnostics.rs:281-292 | A registry starts empty |
| `Diagnostics.Registry.StartSession` | src/diagnostics.rs:300-350 | Purges the expired, then arms or re-arms, or rejects for the global or the per-user limit, and changes nothing else; an acceptance carries the whole seconds, at least one, and exactly the wanted event types in order of their names |
| `Diagnostics.Registry.CancelSession` | src/diagnostics.rs:353-360 | Removes the session and returns its summary, if there is one |
| `Diagnostics.Registry.RecordAttempt` | src/diagnostics.rs:365-390 | Counts the record in exactly the live sessions that want and match it, whatever the iteration order. Which those are, field by field: `DiagnosticsLaws.RecordLaw` |
| `Diagnostics.Registry.SweepExpired` | src/diagnostics.rs:393-409 | Removes exactly the expired sessions and returns the summary of each |
| `Trie.GetInsert` | src/policy/mod.rs:220-229 | Filing a domain changes the one path, to the smaller route index |
| `Trie.Best` | src/policy/mod.rs:231-249 | The walk returns the least index filed under any non-empty prefix of the name's labels |
| `Trie.UnderIsPrefix` | src/policy/domain.rs:29-64 | A name is a domain or below it exactly when the reversed labels of the domain begin those of the name |
| `RuleSets.EnterHolds` | src/policy/domain.rs:97-116 | Entering a selector adds it, and nothing else, to the table it belongs to |
| `RuleSets.FromRules` | src/policy/mod.rs:40-74 | Fails exactly when a `book:` selector is blank, unknown or without a book; otherwise the set stands for the selector list, and the selector cache moved by the one publication of its category names |
| `SelectorLaws.BookLine` | src/policy/mod.rs:40-74 | "book:" and a path hits exactly the hosts in a category at or below the path |
| `SelectorLaws.AddressLineHits` | src/policy/mod.rs:40-74 | An address or network hits exactly its addresses, each in its own family |
| `SelectorLaws.TypedLineHits` | src/policy/domain.rs:97-133 | "full:" hits the one name, "keyword:" the names that contain the fragment, any other type the domain and what is below it |
| `SelectorLaws.PlainLineHits` | src/policy/domain.rs:97-133 | A line without a type hits as a domain |
| `SelectorLaws.SpaceAround` | src/policy/mod.rs:40-74 | Space around a line does not matter |
| `SelectorLaws.SpaceHits` | src/policy/mod.rs:40-74 | A line of white space hits nothing |
| `RuleSets.CompiledHits` | src/policy/mod.rs:76-88 | A compiled set hits a host exactly when one of its selectors, read directly, does |
| `RuleSets.SetMatches` | src/policy/mod.rs:76-88 | `matches` computes that |
| `RouteIndex.IndexInto` | src/policy/mod.rs:98-113 | Indexing one more route leaves an index of all routes so far, every selector with the smallest route that has it |
| `RouteIndex.IndexRoutes` | src/model.rs:482-492 | The index of all routes of a policy |
| `RouteIndex.NoteAll` | src/policy/mod.rs:202-206 | `note_min`: the smaller of the old and the new index per key, other keys untouched |
| `RouteIndex.SuffixLeast` | src/policy/mod.rs:170-177 | The walk down the shared trie finds the least route whose own trie reaches the name |
| `RouteIndex.FirstMatch` | src/policy/mod.rs:154-199 | Returns the least route that matches the host, and none exactly when no route does: what trying the routes in order returns |
| `Egresses.CompileChain` | src/model.rs:1213-1258 | Succeeds exactly on chains of 1 to 16 valid members with distinct ids and priorities, and orders them |
| `Egresses.ByPrioritySorts` | src/model.rs:1252-1253 | The try order has the same members, by ascending priority |
| `Egresses.ChainIsNoUpstream` | src/model.rs:1112-1119 | A backend of kind chain never compiles as an upstream, so chains do not nest |
| `Egresses.CompileEgress` | src/model.rs:1264-1282 | Succeeds exactly on valid egresses, with their compiled form. What is valid and what the form carries: `EgressLaws.ChainOkIff`, `EgressLaws.EgressOfIs` |
| `EgressLaws.UpstreamIff` | src/model.rs:1112-1175 | An upstream compiles to a value exactly if, by its kind in whatever case: http or https, socks5 or socks keep address, credentials and TLS settings as they are; reverse has neither credentials nor TLS and the trimmed, non-empty hop id; subnetra neither and the address as it is |
| `EgressLaws.UpstreamRefusedIff` | src/model.rs:1112-1175 | An upstream is refused exactly if its kind is unknown, a reverse hop has no id, or a kind without use for them has credentials or TLS |
| `EgressLaws.ChainOkIff` | src/model.rs:1213-1258 | A chain compiles exactly if it has a name and 1 to 16 members that compile, no two with one id or one priority |
| `EgressLaws.EgressOfIs` | src/model.rs:1264-1282 | What a valid egress compiles to: its upstream, or each of its members with its own upstream, in order of priority |
| `SnapshotCompiler.ApplyOverrides` | src/model.rs:693-706 | Succeeds exactly when every override replaces a base egress, and then replaces those and adds none |
| `SnapshotCompiler.CompileEgresses` | src/model.rs:707-724 | Succeeds exactly when every egress is valid, and holds each compiled |
| `SnapshotCompiler.ActionResolves` | src/model.rs:1186-1207 | Against the compiled table an action resolves exactly when its egress is there, to what the document means, and a block stays a block |
| `SnapshotCompiler.CompilePolicies` | src/model.rs:730-780 | Succeeds exactly when every policy is valid, the rules of all policies are within the limit, and the selectors, resolved in the order the map is iterated, fit the memory budget |
| `SnapshotCompiler.CompileUsers` | src/model.rs:782-806 | Succeeds exactly when every user is valid and no two claim one uuid on a protocol; the index maps each claim to its claimant |
| `SnapshotCompiler.Compile` | src/model.rs:647-815 | For every iteration order: succeeds exactly on compilable documents whose selectors fit the memory budget in that order, and the result stands for the document on this node |
| `SnapshotCompiler.CompileAndDecide` | src/model.rs:647-920 | Compile, then decide: there is a decision exactly on compilable documents whose selectors fit the memory budget; decision, deciding host, policy and route are those of the raw document read directly |
| `SnapshotCompiler.FitBounds` | src/model.rs:730-780 | Whatever the order: what fits has its distinct lists within the budget, and rules within the budget are enough; with room in the cache the number of distinct lists decides, so the order does not matter |
| `Snapshot.FirstFromIsLeast` | src/model.rs:505-511 | Trying the routes in order returns the first that matches |
| `Snapshot.FirstRoute` | src/model.rs:498-502 | The indexed first match is the first route of the raw policy that matches |
| `Snapshot.DecideWithSniff` | src/model.rs:854-920 | On every user, host and sniffed host the compiled snapshot decides as the document reads. What it reads: `ReadingLaws.ReadingIs` |
| `Snapshot.NeverDirectByAccident` | src/model.rs:1179-1207 | On a compilable document the decision is direct, a block or this node's egress exactly as the deciding action says; no egress action becomes direct |
| `Snapshot.SniffLaws` | src/model.rs:838-853 | A block of either host vetoes, and for a requested name the sniffed host can do nothing but veto |
| `ReadingLaws.RouteHitsIff` | src/model.rs:505-511 | A route hits a host exactly if one of its lines does |
| `ReadingLaws.ReadingIs` | src/model.rs:838-929 | Which host and route decide and where the connection goes: a block of the requested host, then one of the sniffed, then for a requested address the sniffed host's route, then the requested host's, then the default, then direct; an egress is the node's override, if there is one, as the document describes it |
| `ReadingLaws.UnroutedSniff` | src/model.rs:854-920 | A sniffed host that no route hits changes nothing |
| `ReadingLaws.UnknownIsRefused` | src/model.rs:854-920 | An unknown user, or one without a policy, is blocked |
| `DocumentLaws.CompilableIff` | src/model.rs:647-815 | A document compiles exactly if it has schema 1, at most 100,000 users, 10,000 policies, egresses and overrides and 200,000 non-blank lines; overrides replace egresses that are there; every egress of the node is one; every route has a non-blank line, known categories and an action that reaches an egress; every user has a policy, a readable expiry and no credential of another on the same protocol, case and space aside |
| `DocumentLaws.AllRulesCounted` | src/model.rs:730-780 | The rules that are counted are the non-blank lines of all routes of all policies |

## Left out

- SnapshotCompiler.CompileAndDecide: other users of the selector cache during a compile are not modelled.
- Pipeline.Serve: takes books that fit the machine types, as built ones do, with UTF-8 strings.
- Pipeline.BuildAndServe: takes runs whose book has at most 2^32 category sets (the builder panics otherwise), UTF-8 strings, as Rust's are, and a 64-bit epoch.
- RuleLines.ServeLine: takes UTF-8 strings and a 64-bit epoch, as `Pipeline.BuildAndServe` does.
- Pipeline.BuiltTyped: takes books with at most 2^32 category sets; above that the builder panics.
- TokenBucket.TokenBucket.Consume: time and tokens are reals; floating-point rounding is not modelled.
- Sniff.ObserveUniform: says nothing of TLS streams beyond their being handed to the acceptor, whose incremental behaviour is a library's.
- Replay.CapturePrefix: a pending read is not a step; the outside decides how many bytes each read returns.
- Decoder.Decode: the sizes of decoded tuples and strings that the heap budget charges are those of a 64-bit target (the IPv6 tuple is 48 bytes).
- Tries, rule sets and the route index are values rebuilt on insertion; sharing and update in place of nodes are not modelled. Iteration over hash maps is in an arbitrary order.
- SHA-256, UTF-8 validation, IP, CIDR and date parsing, the HTTP request parser and host normalisation, and the TLS acceptor are parameters.
- Error messages, log lines, views, JSON forms (snapshot wire format, catalog text, diagnostic envelopes) and the textual form of CIDRs.
- The passive `SniffingIo` wrapper with its timer task, write halves, vectored writes, `splice` and the copy loops.
- The clamping of a requested ttl before a session is started, and the event bodies of diagnostic sessions; credentials, rates and connection limits of users.
- File polling and reloading of address books, configuration, MQTT, health, access log, resolver, relay and command-line programs: input and output around the core.
