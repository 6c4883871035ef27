# Verified model of Clodex's commitment engine, release versions, text editing and stateful protocols

This project models, in Dafny, the parts of Clodex whose correctness is hardest to see by reading them, and proves
what they promise. `dafny verify dfyconfig.toml` verifies all of it.

## What is modelled

**The native commitment engine.** `Sha256Spec` is SHA-256 as FIPS 180-4 defines it, `Sha256Constants` derives its
constants from the roots of primes; `Sha256Stream` is the C program that streams it through a 64-octet buffer, proved
equal to the definition for every way of feeding a message. `Commitment` and `Tree` are the length-prefixed,
domain-tagged encodings that the helper hashes, proved uniquely decodable. `TreeWalk` is the recursive directory walk
with its limits. `CreateProtocol` is the exclusive creation of a file as a step relation: one system call a step, any
change by other writers between any two steps, a failure anywhere. The one thing asked of other writers is that a
change moves the change time of the changed inode forward. `CreateContent` says what such a run writes,
`CreateWitness` constructs runs. `HelperFailure` is the line and the status of a failing helper. `HelperWire`,
`Selector`, `Hex`, `Unicode` and `Adapter` are the two sides of the wire between the helper and its TypeScript caller.

**Release versions and updates.** `SemVer` is the grammar and the precedence of Semantic Versioning 2.0.0.
`ReleaseScript` and `Nightly` print versions, `UpdateVersion` and `NightlyDate` read them, `UpdateFeed` filters and
sorts the published releases, `UpdateSelection` chooses the offer, `Manifest` rewrites a Squirrel manifest and
resolves its names again.

**Text editing.** `SearchReplace` is the nested-loop search and replace on a file, with its cap and its reports.

**Stateful protocols.** `ReplayRegistry` is a class with one map and five sets, `TokenLock` a state machine for any
number of processes, `LogObserver` a class with a bounded window, and `TerminalIds` says which terminal ids it
reports.

`Bytes`, `Decimal`, `Splitting`, `JsText`, `HelperLimits` and `Wrappers` hold shared vocabulary.

## Where the code does less than one would expect

The lemmas named here give witnesses and the exact conditions under which the expectation holds.

- A create request whose ticket identifier is malformed can have created its file and still be reported with
  `effectMayHaveOccurred` false: the identifier is examined at filesystem-capability.ts:182, after the helper ran.
  The reports are true if and only if the identifier is well formed (`Adapter.CreateReportsAreTrue`).
- An OK from the create command implies an instant at which the whole path led to the created file only when the
  path has at most one directory component (`CreateWitness.OneInstantIff`), or at most two where renaming a directory
  moves its own change time (`CreateWitness.OneInstantNamedIff`); for every longer admissible path there is a run, under
  one clock, without such an instant. What always holds is the binding inside the directory that the walk reached
  (`CreateProtocol.CreateIsExact`).
- The adapter accepts a success record behind a byte order mark, which the helper never prints
  (`HelperWire.AcceptedIff`, `HelperWire.MarkIsAccepted`).
- A published tag whose version begins with an equals sign passes the filter of the update server, and the sort then
  throws when there is another release (`UpdateFeed.SortFailsIff`, `UpdateVersion.ComparableIff`). When it is the only
  release, the selection throws for every client that names its version (`UpdateSelection.FetchedUncomparable`).
- A proxied package name can resolve to another release than the one whose manifest named it, when a newer eligible
  release has a package of the same name (`Manifest.ProxiedIsOwn`, `Manifest.NewerTakesItsPlace`). On an unpinned channel
  this can happen to every proxied line (`Manifest.ProxiedCanBeForeign`), on a pinned one to none (`Manifest.PinnedIsOwn`).
- A negative `maxReplacements` is neither refused nor ignored: it allows one replacement, and only on the first line
  (`SearchReplace.Chosen`).
- When the removal of the lock directory fails half way, the next release call counts the lock as released and the
  directory stays (`TokenLock.LockCanStay`). It stays exactly when the last removal reported an error
  (`TokenLock.LockStaysIff`).
- A process that stops while it holds the lock blocks all others for good: nothing recovers a stale directory
  (`TokenLock.StoppedHolderBlocks`).
- The log observer misses a text that begins before the window it keeps; `LogObserver.FlagIsExactIff` says for which
  chunk sizes this cannot happen.
- The log observer reports a terminal id that never existed when a chunk ends behind the first digits of an id
  (`TerminalIds.ReportedIds`, `TerminalIds.TornLine`); `TerminalIds.IdsAreExactIff` says for which cuttings the
  reported ids are those of the stream.

## Model

| member | source | states |
|---|---|---|
| `Sha256Stream.HashChunks` | packages/clodex-adapters-node/native/sha256.c:96-160 | For every message and every way of cutting it into update calls, empty ones included, init, updates and final give the one-shot SHA-256 of the concatenation as FIPS 180-4 sections 5.1.1 and 6.2.2 define it. |
| `Sha256Constants.RoundConstant` | packages/clodex-adapters-node/native/sha256.c:5-22 | Constant t of the table is the first 32 bits of the fractional part of the cube root of the prime that has exactly t primes below it: section 4.2.2 of FIPS 180-4, without the table's text. |
| `Sha256Constants.InitialConstant` | packages/clodex-adapters-node/native/sha256.c:96-107 | Word t of the initial value comes in the same way from the square root of that prime: section 5.3.3. |
| `Sha256Constants.PassesIff` | packages/clodex-adapters-node/native/sha256.c:5-22 | Trial division by the primes up to 17 decides primality below 361, so that the first sixty-four primes are the primes in order and no list is trusted. |
| `Sha256Spec.RotrRotates` | packages/clodex-adapters-node/native/sha256.c:24-26 | The pair of shifts is the rotation of a word, for every amount that the hash uses. |
| `Sha256Stream.Context.constructor` | packages/clodex-adapters-node/native/sha256.c:96-111 | A fresh context represents the empty message. |
| `Sha256Stream.Context.Update` | packages/clodex-adapters-node/native/sha256.c:113-135 | The context then represents what it did before followed by the new octets, with the bit count modulo 2^64, whatever the fill of the block buffer was. |
| `Sha256Stream.Context.AbsorbPiece` | packages/clodex-adapters-node/native/sha256.c:121-134 | One turn of the copy loop keeps the buffer, the state and the absorbed octets in agreement, with or without a full block. |
| `Sha256Stream.Context.Transform` | packages/clodex-adapters-node/native/sha256.c:41-94 | The in-place state becomes the compression of the old state with the buffered block. |
| `Sha256Stream.Context.ExpandSchedule` | packages/clodex-adapters-node/native/sha256.c:44-58 | The sixty-four words are the message schedule of the standard, which is defined by recursion. |
| `Sha256Stream.Context.RunRounds` | packages/clodex-adapters-node/native/sha256.c:59-93 | Eight registers shifted in the C order end as the standard's registers after round 64. |
| `Sha256Stream.Context.PadToLength` | packages/clodex-adapters-node/native/sha256.c:142-147 | The padding loop terminates, after exactly the least number of zero octets, with 56 octets in the block. |
| `Sha256Stream.Context.Final` | packages/clodex-adapters-node/native/sha256.c:137-160 | The digest is the SHA-256 of everything absorbed, and the context is wiped. |
| `Sha256Stream.Context.EmitDigest` | packages/clodex-adapters-node/native/sha256.c:150-158 | The output loop writes the state words most significant octet first. |
| `Sha256Stream.StoreBe64` | packages/clodex-adapters-node/native/sha256.c:35-39 | The shift loop writes the eight big-endian octets of the value. |
| `Sha256Stream.LoadBe32` | packages/clodex-adapters-node/native/sha256.c:28-33 | The word read is the big-endian word of the block at that offset. |
| `Sha256Stream.ChainOfPrefix` | packages/clodex-adapters-node/native/sha256.c:121-134 | Octets appended to a message never disturb the chaining value of the blocks already folded in. |
| `Sha256Spec.PaddingIsLeast` | packages/clodex-adapters-node/native/sha256.c:141-147 | The number of zero octets is the least solution of the congruence in section 5.1.1 of FIPS 180-4, counted in bits. |
| `Hex.PrintHex` | packages/clodex-adapters-node/native/sha256.c:162-169 | The loop writes the hexadecimal text of the digest, two lowercase digits an octet, and a terminating zero. |
| `Hex.DigestIsLowercase` | packages/clodex-adapters-node/native/clodex-openat2-helper.c:78-89 | Every printed digest passes the lowercase-digest test and decodes to its 32 octets. |
| `Hex.EncodeRoundTrip` | packages/clodex-adapters-node/native/sha256.c:162-169 | Hexadecimal text of any octets decodes to those octets. |
| `Hex.DecodeRoundTrip` | packages/clodex-adapters-node/native/clodex-openat2-helper.c:78-89 | Every text of lowercase hexadecimal digits is the printed form of exactly what it decodes to. |
| `Bytes.BigEndianRoundTrip` | packages/clodex-adapters-node/native/clodex-openat2-helper.c:205-212 | Big-endian words of a fixed width decode to the number they encode. |
| `Commitment.ItemsDecode` | packages/clodex-adapters-node/native/clodex-openat2-helper.c:205-225 | Length-prefixed texts and 64-bit words of a known shape are read back uniquely from the front of any octet string, together with what follows them. |
| `Commitment.TagsSeparate` | packages/clodex-adapters-node/native/clodex-openat2-helper.c:214-225 | Octet strings that open with different domain tags differ, whatever follows the tags. |
| `Commitment.StatItemsInjective` | packages/clodex-adapters-node/native/clodex-openat2-helper.c:227-242 | Eleven hashed words determine the metadata, negative sizes and times included. |
| `Commitment.StatLayout` | packages/clodex-adapters-node/native/clodex-openat2-helper.c:227-242 | Each field of the metadata stands at its own offset: octets 0 to 8 are the device, 8 to 16 the inode, 16 to 24 the mode, and so on in the order in which the helper hashes them. |
| `Commitment.FileLayout` | packages/clodex-adapters-node/native/clodex-openat2-helper.c:283-300 | The octets of a file state are, in this order, the tag, the root identity, the path, the kind, the 88 octets of metadata and the digest. |
| `Commitment.AbsentLayout` | packages/clodex-adapters-node/native/clodex-openat2-helper.c:385-417 | The octets of an absent state are, in this order, the tag, the root identity, the path, the kind and the parent identity. |
| `Commitment.FilePreimageDecodes` | packages/clodex-adapters-node/native/clodex-openat2-helper.c:283-300 | A file preimage determines the root identity, the path, all metadata and the content digest. |
| `Commitment.AbsentPreimageDecodes` | packages/clodex-adapters-node/native/clodex-openat2-helper.c:385-417 | An absent preimage determines the root identity, the path and the parent identity. |
| `Tree.DomainsSeparate` | packages/clodex-adapters-node/native/clodex-openat2-helper.c:283-300 | No file, absent and tree preimages are ever equal to one another. |
| `Tree.TreePreimageDecodes` | packages/clodex-adapters-node/native/clodex-openat2-helper.c:1074-1090 | A tree preimage determines the root metadata, the entries in order and both counters, although entries of two shapes have no terminator between them and the counters. |
| `Tree.NamesDecode` | packages/clodex-adapters-node/native/clodex-openat2-helper.c:816-855 | Preorder listings with slash-joined paths are read back name by name and subtree by subtree. |
| `Tree.TreeDetermined` | packages/clodex-adapters-node/native/clodex-openat2-helper.c:842-1090 | Two tree preimages are equal if and only if root metadata and byte totals are equal and the trees agree in shape, names, metadata and content digests. |
| `Tree.SortedUnique` | packages/clodex-adapters-node/native/clodex-openat2-helper.c:810-814 | A list in strcmp order is determined by its set of names, so the order readdir returned does not matter. |
| `Tree.BelowIff` | packages/clodex-adapters-node/native/clodex-openat2-helper.c:810-814 | The order of names is decided at the first difference, by unsigned octets; a proper beginning comes first. |
| `Tree.EntryLayout` | packages/clodex-adapters-node/native/clodex-openat2-helper.c:842-855 | The octets of an entry are its path, its kind, its metadata and, for a file, its digest. |
| `TreeWalk.CommitmentIdentifiesTree` | packages/clodex-adapters-node/native/clodex-openat2-helper.c:1074-1090 | For two trees the helper commits to, the printed commitments are equal if and only if the trees agree, provided the hash does not collide on these two preimages. |
| `TreeWalk.TreeCommitment` | packages/clodex-adapters-node/native/clodex-openat2-helper.c:1074-1090 | For an unchanging tree the command succeeds if and only if the tree is admissible and within all limits, and then prints the commitment of the preorder specification with the node count and the byte total. |
| `TreeWalk.WalkTree` | packages/clodex-adapters-node/native/clodex-openat2-helper.c:857-1072 | The recursive walk succeeds if and only if every name, kind, device, link count and depth is admissible and both totals stay within limits; it then has fed exactly the sorted preorder listing and added exactly the node count and the sum of file sizes. |
| `TreeWalk.WalkNames` | packages/clodex-adapters-node/native/clodex-openat2-helper.c:936-1066 | The child loop feeds the children in name order and adds up their counts and sizes, or fails exactly when one of them is inadmissible or over a limit. |
| `TreeWalk.WalkChild` | packages/clodex-adapters-node/native/clodex-openat2-helper.c:936-1066 | One child: file, directory or refused kind, with the exact condition of success. |
| `TreeWalk.WalkFile` | packages/clodex-adapters-node/native/clodex-openat2-helper.c:963-1010 | A file is accepted if and only if it has one link and its size still fits the byte limit, although the unsigned subtraction before it may wrap. |
| `TreeWalk.WrappedCheck` | packages/clodex-adapters-node/native/clodex-openat2-helper.c:985-989 | The wrapped comparison rejects exactly the files that fit the limit alone but not with what was counted before; an oversized file passes it and is stopped while it is read. |
| `TreeWalk.HashContents` | packages/clodex-adapters-node/native/clodex-openat2-helper.c:250-281 | With reads of any sizes, the loop yields the content and its length if and only if it is within the limit. |
| `TreeWalk.CollectNames` | packages/clodex-adapters-node/native/clodex-openat2-helper.c:886-935 | The readdir loop collects every name but the two special ones, once each, if and only if all names are admissible and the entry limit holds, in whatever order they come. |
| `TreeWalk.CheckName` | packages/clodex-adapters-node/native/clodex-openat2-helper.c:901-919 | The byte loop accepts exactly the names of admissible length without control characters and backslashes. |
| `TreeWalk.SortByName` | packages/clodex-adapters-node/native/clodex-openat2-helper.c:810-814 | The result is in strcmp order and has the same names. |
| `TreeWalk.UpdateTreeEntry` | packages/clodex-adapters-node/native/clodex-openat2-helper.c:842-855 | One entry is fed as path, kind, metadata and, for a file, its digest. |
| `TreeWalk.CountIsLength` | packages/clodex-adapters-node/native/clodex-openat2-helper.c:1083-1086 | The entry counter of a finished walk is the length of the listing that was hashed. |
| `CreateProtocol.CreateIsExact` | packages/clodex-adapters-node/native/clodex-openat2-helper.c:573-753 | In every interleaving with other writers: if the run reaches OK there is an instant at which the directory reached by the confined walk held, under the base name, the very inode this run created, regular, mode 0600, one link, with content of the authorized digest; and the printed commitments are those of exactly that state and of the absent state seen before, the parent directory having had the committed metadata at the instant when the name was missing. |
| `CreateProtocol.InstalledThroughout` | packages/clodex-adapters-node/native/clodex-openat2-helper.c:633-753 | It was so at every instant from the post-effect stat of the parent to the last stat of the file, and the name still led to the file at the last check of all. |
| `CreateProtocol.KindOfFile` | packages/clodex-adapters-node/native/clodex-openat2-helper.c:611-632 | The checks of the created file amount to type 8, permissions 0600 and one link. |
| `CreateContent.InputIsWritten` | packages/clodex-adapters-node/native/clodex-openat2-helper.c:470-533 | In every run in which no other writer changes the content of the created file, it holds all of standard input from the end of the copy on, and during the copy exactly the octets written so far, never more than announced, however reads and writes were cut and wherever the run failed. |
| `CreateContent.LeftAloneInstallsInput` | packages/clodex-adapters-node/native/clodex-openat2-helper.c:573-753 | Such a run that prints OK has bound the octets of standard input, with no assumption about collisions, and its commitment is that of their digest. |
| `CreateContent.TraceIsHistory` | packages/clodex-adapters-node/native/clodex-openat2-helper.c:573-753 | Every step of a run is one instant, and the recorded instants are the file systems of the worlds before. |
| `CreateProtocol.ContentIsInput` | packages/clodex-adapters-node/native/clodex-openat2-helper.c:470-533 | That content is the octets of standard input, unless a regular file of this very run has other octets with the same digest. |
| `CreateProtocol.ShortPathResolvesAtOnce` | packages/clodex-adapters-node/native/clodex-openat2-helper.c:343-368 | With at most one directory component the whole path resolved to the created file at one instant. |
| `CreateProtocol.NamedPathResolvesAtOnce` | packages/clodex-adapters-node/native/clodex-openat2-helper.c:343-368 | With two directory components as well, where linking, unlinking and renaming move the change time of the inode that is named. |
| `CreateProtocol.FailuresAreClassified` | packages/clodex-adapters-node/native/clodex-openat2-helper.c:62-66 | Every failure exits with 10 or 20, and with 20 exactly when its line says UNCERTAIN, which is from the start of the effect on; after an exit with 10 no step of the helper has changed the file system, and a run that prints OK has changed it. |
| `CreateProtocol.AffectedIff` | packages/clodex-adapters-node/native/clodex-openat2-helper.c:573-606 | Some step of the helper itself has changed the file system if and only if the run is past the exclusive creation. |
| `HelperFailure.UncertainIff` | packages/clodex-adapters-node/native/clodex-openat2-helper.c:62-66 | The printed line is an uncertain one if and only if the effect had started or the call itself says so. |
| `CreateProtocol.RunKeeps` | packages/clodex-adapters-node/native/clodex-openat2-helper.c:573-753 | Every reachable state of every run satisfies the protocol invariant: what was seen at which instant, and that unchanged metadata means an unchanged inode. |
| `CreateProtocol.NextKeeps` | packages/clodex-adapters-node/native/clodex-openat2-helper.c:573-753 | Every step keeps it: each system call of the helper, a failure at any point, and any change by other writers that moves the changed inode's time forward. |
| `CreateProtocol.SameStatSameInode` | packages/clodex-adapters-node/native/clodex-openat2-helper.c:153-165 | Two equal stats of one inode mean that it was the same at every instant between them. |
| `CreateWitness.CreateCanSucceed` | packages/clodex-adapters-node/native/clodex-openat2-helper.c:573-753 | For every admissible path of one component and every content up to the limit there is a run under one clock that prints OK and leaves a file with that content under that name, every change bearing a later time than all before. |
| `CreateWitness.NestedPathNeedNotResolve` | packages/clodex-adapters-node/native/clodex-openat2-helper.c:343-368 | For any two or more directory components there is a run under one clock that prints OK although at no instant did the whole path resolve, with three or more even where renaming moves the change time of what is renamed: a component-by-component walk is not atomic. |
| `CreateWitness.OneInstantIff` | packages/clodex-adapters-node/native/clodex-openat2-helper.c:302-368 | For every admissible path: OK implies, in every run under one clock, an instant at which the whole path resolved to the created file, if and only if the path has at most one directory component. |
| `CreateWitness.OneInstantNamedIff` | packages/clodex-adapters-node/native/clodex-openat2-helper.c:302-368 | The same where renaming moves the change time of what is renamed, if and only if the path has at most two directory components. |
| `HelperWire.ParseU64` | packages/clodex-adapters-node/native/clodex-openat2-helper.c:91-110 | A text is accepted if and only if it is the canonical decimal numeral of a number not above the maximum, and that number is returned. |
| `HelperWire.RecordRoundTrip` | packages/clodex-adapters-node/src/filesystem-capability.ts:392-444 | For each operation the success record the helper prints is parsed back to exactly its digests. |
| `HelperWire.AcceptedIff` | packages/clodex-adapters-node/src/filesystem-capability.ts:392-444 | The adapter accepts octets as certain digests if and only if there are as many as the operation has, all are lowercase digests, and the octets are their printed record, with or without one byte order mark in front. |
| `HelperWire.MarkIsAccepted` | packages/clodex-adapters-node/src/node-security.ts:504-522 | For every record there are accepted octets that are no printed record: those with a byte order mark. |
| `Unicode.DecodeIff` | packages/clodex-adapters-node/src/node-security.ts:504-522 | The fatal decoder accepts exactly the encodings of texts without surrogates, and gives the text back. |
| `Unicode.AsciiDecodes` | packages/clodex-adapters-node/src/node-security.ts:504-522 | An ASCII text is what the decoder reads from its own octets, from those behind one byte order mark, and from no others. |
| `Selector.ScannersAgree` | packages/clodex-adapters-node/src/filesystem-capability.ts:446-492 | The helper's scanner accepts the UTF-8 octets of a path if and only if the adapter's validator accepts the path and every component is at most NAME_MAX octets long. |
| `Selector.ValidateSelector` | packages/clodex-adapters-node/native/clodex-openat2-helper.c:112-151 | The single-pass scanner accepts exactly the octet strings whose slash-separated components are all admissible. |
| `Selector.SplitEncoded` | packages/clodex-adapters-node/src/filesystem-capability.ts:446-492 | Splitting the octets at slashes is encoding the components of the split path. |
| `Adapter.CreateReportsAreTrue` | packages/clodex-adapters-node/src/filesystem-capability.ts:155-190 | For create requests every report of no effect is true of the file system, over all runs of the helper and all ends of its process, if and only if the ticket identifier is well formed. |
| `Adapter.InvalidTicketHidesEffect` | packages/clodex-adapters-node/src/filesystem-capability.ts:180-188 | For every malformed ticket identifier a file can be created and the failure still be reported as having had no effect, because the identifier is examined after the helper has run. |
| `Adapter.ExitTellsEffect` | packages/clodex-adapters-node/src/filesystem-capability.ts:329-357 | Exit 0 means that the helper changed the file system, 10 that it did not; there is no other status but 20, and 20 goes together with the word UNCERTAIN that the adapter finds on standard error. |
| `Adapter.NoEffectIff` | packages/clodex-adapters-node/src/filesystem-capability.ts:329-357 | With a well-formed ticket a create is reported as effect-free if and only if its checks failed or the helper was never started; an inspection is reported as perhaps effective if and only if a failed helper said so. |
| `SemVer.ParsePrint` | scripts/release/bump-version.ts:54-93 | Every version is read back from its printed text. |
| `SemVer.ParseIff` | scripts/release/bump-version.ts:54-93 | A text is read as a version if and only if it is that version's text, perhaps with build metadata of section 10 of SemVer 2.0.0; everything else is refused. |
| `SemVer.PrecedenceIff` | apps/update-server/src/version.ts:84-90 | The comparison is the precedence of section 11 read declaratively: core numbers, then prerelease below release, then the first differing identifier, numbers below texts and a proper beginning first. |
| `SemVer.TotalOrder` | apps/update-server/src/version.ts:84-90 | Precedence by section 11 of SemVer 2.0.0 is a total order in which only equal versions are equal. |
| `SemVer.PaddedOrder` | scripts/release/bump-version.ts:8-39 | Zero-padded numerals of one width sort as numbers under the text order of section 11.4.2. |
| `ReleaseScript.PadNumber` | scripts/release/bump-version.ts:25-39 | Padding is refused exactly above 999, and otherwise gives three digits that read back as the number. |
| `ReleaseScript.IncIsLeast` | scripts/release/bump-version.ts:117-132 | A bump leads to the least stable version above the given one whose numbers below the bumped one are zero. |
| `ReleaseScript.BumpIsLeast` | scripts/release/bump-version.ts:109-164 | From a stable version the script prints that least version on the release channel, and its first alpha or beta on the others. |
| `ReleaseScript.PaddedInOrder` | scripts/release/bump-version.ts:8-39 | Padded prereleases of one base compare exactly as their channels and then their numbers. |
| `ReleaseScript.PrereleaseStepIsLeast` | scripts/release/bump-version.ts:134-164 | From a padded prerelease the script goes to the least one of the target channel with that base above it, and throws if and only if there is none. |
| `ReleaseScript.ReleaseStepIsLeast` | scripts/release/bump-version.ts:113-124 | On the release channel it goes to the least stable version above the prerelease. |
| `ReleaseScript.FormatIsClassified` | scripts/release/bump-version.ts:54-93 | Stable, three-digit and legacy dotted versions are read back to their channel and number. |
| `ReleaseScript.StepText` | scripts/release/bump-version.ts:109-164 | The text printed for a bump and a channel is that of the next format, and the script throws exactly when there is none: a channel below the current one, or a number above 999. |
| `ReleaseScript.ChoiceText` | scripts/release/index.ts:411-442 | The same with the new-cycle choice, which is refused for stable versions and the release channel. |
| `ReleaseScript.StepAscends` | scripts/release/bump-version.ts:109-164 | Every step goes strictly up in precedence, from legacy to padded numbers and across channels. |
| `ReleaseScript.EmittedIsNewer` | scripts/release/index.ts:411-442 | Whatever is emitted is in canonical format and strictly newer than what it was computed from. |
| `ReleaseScript.RunsAscend` | scripts/release/index.ts:411-442 | In every run of any length with any choices, each later version is canonical and strictly greater than every earlier one. |
| `UpdateVersion.ScriptVersionsAreRead` | apps/update-server/src/version.ts:29-110 | Every version of the release script parses on the server to its channel and number, and is accepted by its own channel, by alpha if it is a beta, and by no other. |
| `UpdateVersion.PrintedIsClean` | apps/update-server/src/version.ts:29-34 | A printed version is its own cleaned form and both parsers of the server read it back. |
| `UpdateVersion.ComparableIff` | apps/update-server/src/version.ts:84-90 | A version the server accepts can be compared if and only if, trimmed, it begins with a digit or with one v and a digit. |
| `UpdateVersion.EqualsSignIsNotComparable` | apps/update-server/src/version.ts:29-34 | An equals sign before any printed version is accepted by the parser and makes every comparison throw. |
| `NightlyDate.RoundTripsIff` | apps/update-server/src/version.ts:16-27 | Year, month and day come back unchanged from a JavaScript date, as section 21.4.1 of ECMA-262 counts days, if and only if they are a calendar date from the year 100 on. |
| `NightlyDate.DateTest` | apps/update-server/src/version.ts:16-27 | So the eight digits of a nightly version are a valid date exactly when that round trip succeeds. |
| `NightlyDate.FieldsAreUnique` | apps/update-server/src/version.ts:20-26 | A day has only one year, month and date, so the three fields are determined by it. |
| `Nightly.FormatCounter` | scripts/release/nightly-version.ts:35-46 | A counter is formatted exactly from 1 to 999, as three digits that read back as the counter. |
| `Nightly.MaxCounter` | scripts/release/nightly-version.ts:60-79 | The counter found is at least that of every matching tag. |
| `Nightly.CounterIsAttained` | scripts/release/nightly-version.ts:60-79 | It is the counter of one of those tags, or zero. |
| `Nightly.NightlyIsRead` | apps/update-server/src/version.ts:29-110 | Every nightly parses on the server to its date and counter and is accepted by the nightly channel alone. |
| `Nightly.MainPrintsNightly` | scripts/release/nightly-version.ts:81-119 | What the script prints is such a version for the given date, with the given counter or the next free one, above the stable version and below its base, which is the least stable version above the core of the stable one. |
| `Nightly.CounterIsFresh` | scripts/release/nightly-version.ts:60-79 | Without an explicit counter the new tag is not among the existing tags, whatever they are. |
| `Nightly.NightliesInOrder` | scripts/release/nightly-version.ts:102-119 | Nightlies of one base compare exactly as their pairs of date and counter. |
| `UpdateFeed.FetchReleases` | apps/update-server/src/github.ts:104-129 | The loop and the sort compute the feed, or throw as the feed does. |
| `UpdateFeed.FeedIsSorted` | apps/update-server/src/github.ts:104-129 | The feed fails if and only if two or more releases were accepted and one of them cannot be compared; otherwise it holds every accepted release, newest first, releases of one precedence in their old order. |
| `UpdateFeed.SortFailsIff` | apps/update-server/src/github.ts:126-127 | A sort whose comparison throws on a version that cannot be parsed throws if and only if there are two releases and such a version among them, wherever it stands. |
| `UpdateFeed.InFeedIff` | apps/update-server/src/github.ts:104-129 | A release is in the feed if and only if an entry of the answer was accepted as it. |
| `UpdateFeed.SortedIsStable` | apps/update-server/src/github.ts:126-127 | The sorted list is newest first, a permutation, and stable. |
| `UpdateFeed.AcceptedIsCollected` | apps/update-server/src/github.ts:106-124 | Every published entry of the application with a parsable version is kept. |
| `UpdateFeed.CollectedWasAccepted` | apps/update-server/src/github.ts:106-124 | Nothing else is kept. |
| `UpdateFeed.Accept` | apps/update-server/src/version.ts:112-119 | An accepted entry's tag is the application name, an at sign and its version, and the parsed version is that of the text. |
| `UpdateFeed.AcceptIff` | apps/update-server/src/github.ts:106-124 | An entry is accepted if and only if it is published under the application's name, an at sign and a text that parses. |
| `UpdateSelection.EligibleReleases` | apps/update-server/src/releases.ts:24-37 | Exactly the releases of the channel that are not blocked and match the pin, in an order that stays newest first. |
| `UpdateSelection.OfferIsPermitted` | apps/update-server/src/releases.ts:24-37 | No version that is blocked, off a non-empty pin or of another channel is ever offered, on any list. |
| `UpdateSelection.PermittedIsOffered` | apps/update-server/src/releases.ts:129-152 | A listed release of the channel that is neither blocked nor off the pin, is newer than the client and has the asset keeps the offer from being none, and the offer is not below it. |
| `UpdateSelection.BlockingTheOffer` | apps/update-server/src/releases.ts:31-37 | Blocking one more version, the offered one for instance, turns the offer into the best candidate among the others, or into none if there is no other. |
| `UpdateSelection.PinningTheOffer` | apps/update-server/src/releases.ts:31-37 | Pinning a channel to a version turns the offer into the best candidate of that version, whatever an older pin allowed. |
| `UpdateSelection.SelectMacOSUpdate` | apps/update-server/src/releases.ts:129-152 | The early-return loop computes the offer. |
| `UpdateSelection.OfferIsFirst` | apps/update-server/src/releases.ts:129-152 | On any list, sorted or not, the offer is the first usable release unless a comparison throws before it. |
| `UpdateSelection.OfferIsMaximal` | apps/update-server/src/releases.ts:129-152 | On a newest-first list the offer is an eligible release with a matching asset, strictly newer than the client, that no other such release exceeds; there is none if and only if no such release exists. |
| `UpdateSelection.InstalledIsFinal` | apps/update-server/src/releases.ts:129-152 | A client that installs the offer is offered nothing more from the same list and policy. |
| `UpdateSelection.SelectionFailsIff` | apps/update-server/src/releases.ts:135-138 | On a newest-first list the selection throws if and only if some release is eligible and the client's version is present and unreadable. |
| `UpdateSelection.FetchedOffer` | apps/update-server/src/releases.ts:120-152 | For any published data that can be compared: the client is offered a published candidate that no published candidate exceeds, nothing if and only if there is none, and nothing more once it has installed the offer. |
| `UpdateSelection.FetchedUncomparable` | apps/update-server/src/releases.ts:129-152 | The one uncomparable list that is fetched holds a single release; if it is eligible, the selection throws for every client that names its version and offers the release to one that does not. |
| `UpdateSelection.FindAsset` | apps/update-server/src/releases.ts:43-50 | The loop returns the first asset whose name matches. |
| `UpdateSelection.ZipNames` | apps/update-server/src/releases.ts:74-85 | A name matches if and only if some optional alphanumeric suffix completes it, up to the case of letters. |
| `Manifest.TransformReleases` | apps/update-server/src/releases.ts:268-324 | The loop produces the rewritten lines in order. |
| `Manifest.FindNupkgAsset` | apps/update-server/src/releases.ts:330-352 | The loop returns the first eligible release with an asset of the restored name. |
| `Manifest.NamesRoundTrip` | apps/update-server/src/releases.ts:306-340 | Stripping the architecture and putting it back are inverse in both directions. |
| `Manifest.ArchIsInserted` | apps/update-server/src/releases.ts:306-340 | The architecture stands between the name of the package and -full.nupkg, and is taken out and put back there. |
| `Manifest.TwoWordLine` | apps/update-server/src/releases.ts:282-322 | A line of two words, however spaced, carries its first word as hash and 0 as size into the output. |
| `Manifest.LongerLine` | apps/update-server/src/releases.ts:282-322 | A longer line carries its first word as hash and its third as size. |
| `Manifest.NupkgIsPermitted` | apps/update-server/src/releases.ts:330-352 | The proxy route finds a package if and only if a listed release of the channel, neither blocked nor off the pin, has one of the restored name. |
| `Manifest.ProxiedIff` | apps/update-server/src/releases.ts:282-310 | A line becomes a proxy name if and only if it names a full package of this architecture that the release has. |
| `Manifest.ProxiedResolves` | apps/update-server/src/releases.ts:268-352 | Every proxied line of an eligible release resolves to an asset with exactly the line's original file name. |
| `Manifest.ProxiedIsOwn` | apps/update-server/src/releases.ts:330-352 | It resolves to the manifest's own release if and only if no other eligible release before it has an asset of that name. |
| `Manifest.NewerTakesItsPlace` | apps/update-server/src/releases.ts:330-352 | On any fetched list, if a newer eligible release has a package of the line's name, the name resolves to a newer release than the line's own. |
| `Manifest.ProxiedCanBeForeign` | apps/update-server/src/releases.ts:330-352 | On an unpinned channel there is, for every proxied line of an accepted entry, published data with that entry for which the name resolves to another release. |
| `Manifest.PinnedIsOwn` | apps/update-server/src/releases.ts:330-352 | On a pinned channel every proxied line resolves to the package of its own release, for all published data with one entry a tag. |
| `Manifest.ManifestResolves` | apps/update-server/src/releases.ts:268-352 | For every manifest, each output line comes from one input line in order, and each proxied one resolves through the proxy route to an asset with the file name of that input line. |
| `Manifest.OthersKeepTheirTarget` | apps/update-server/src/releases.ts:289-305 | Lines without a matching asset stay as they are, and other packages point at the asset of their own name. |
| `Manifest.LinesKeepTheirOrder` | apps/update-server/src/releases.ts:277-324 | Every line with a file name gives one output line, at the place its predecessors leave it. |
| `SearchReplace.SearchAndReplace` | agent/runtime-node/src/index.ts:310-402 | For any pattern whose matches are not empty: the text written is exactly the left-to-right rewrite of the first matches of the whole document, as many as the cap allows; the total is their number; nothing is written on a dry run or without matches. |
| `SearchReplace.DocumentRewrite` | agent/runtime-node/src/index.ts:332-392 | Editing line by line and joining is one left-to-right rewrite of the first matches of the joined text, by absolute offsets. |
| `SearchReplace.EditLines` | agent/runtime-node/src/index.ts:332-392 | The loop over the lines keeps their number, replaces the first matches in document order and takes the remaining lines unchanged when the cap is reached. |
| `SearchReplace.CollectMatches` | agent/runtime-node/src/index.ts:336-358 | The loop collects the first matches of a line, no more than the cap leaves. |
| `SearchReplace.ReplaceMatches` | agent/runtime-node/src/index.ts:360-384 | Splicing from the last match to the first gives the left-to-right rewrite of the line, and one report for each match. |
| `SearchReplace.SpliceStep` | agent/runtime-node/src/index.ts:374-377 | One splice into the already spliced line is the rewrite with one more match. |
| `SearchReplace.ReportsAreTrue` | agent/runtime-node/src/index.ts:366-372 | There are as many reports as replacements, and each one's line and column hold its old text in the original. |
| `SearchReplace.LiteralIsSound` | agent/runtime-node/src/index.ts:313-330 | The case-sensitive search for a non-empty literal is such a pattern. |
| `ReplayRegistry.Registry.constructor` | packages/clodex-approval/src/in-memory-replay-registry.ts:44-49 | A new registry is empty. |
| `ReplayRegistry.Registry.Register` | packages/clodex-approval/src/in-memory-replay-registry.ts:51-66 | The call changes the six fields and answers as the step on states says. |
| `ReplayRegistry.Registry.Consume` | packages/clodex-approval/src/in-memory-replay-registry.ts:68-94 | The review is consumed before it is compared, and the answer is as the step on states says. |
| `ReplayRegistry.Registry.Artifact` | packages/clodex-approval/src/in-memory-replay-registry.ts:96-112 | All three sets change together, or none does. |
| `ReplayRegistry.RunIsCounted` | packages/clodex-approval/src/in-memory-replay-registry.ts:44-112 | In every run pending and consumed ids are disjoint, seen nonces number pending plus consumed, and the three artifact sets have one size. |
| `ReplayRegistry.ReviewAnswer` | packages/clodex-approval/src/in-memory-replay-registry.ts:68-94 | In every run a review succeeds if and only if an identical challenge was registered and the review was not submitted since; each refusal has its own exact condition on the earlier calls. |
| `ReplayRegistry.RegistrationAnswer` | packages/clodex-approval/src/in-memory-replay-registry.ts:51-66 | In every run a registration succeeds if and only if no earlier successful one had its id or its nonce. |
| `ReplayRegistry.ArtifactAnswer` | packages/clodex-approval/src/in-memory-replay-registry.ts:96-112 | In every run an artifact is accepted if and only if no earlier accepted one shares its id, nonce or digest. |
| `ReplayRegistry.ReviewIsFinal` | packages/clodex-approval/src/in-memory-replay-registry.ts:83-93 | After a success or a mismatch every later submission of that review is answered as a replay, so a review succeeds at most once. |
| `ReplayRegistry.RejectionChangesNothing` | packages/clodex-approval/src/in-memory-replay-registry.ts:96-112 | A call leaves the registry as it was if and only if it is refused for another reason than a mismatch. |
| `ReplayRegistry.HistoryOfReviews` | packages/clodex-approval/src/in-memory-replay-registry.ts:44-94 | The fields say of every review exactly what the earlier calls and answers say. |
| `ReplayRegistry.HistoryOfArtifacts` | packages/clodex-approval/src/in-memory-replay-registry.ts:96-112 | The three sets say exactly which accepted artifacts a new one clashes with. |
| `TokenLock.MutualExclusion` | scripts/release/terminal-acceptance.ts:197-255 | For any number of processes and any schedule of their file-system calls, failures, crashes and repeated releases, at most one is between its successful mkdir and the end of its removal. |
| `TokenLock.NoForeignRemoval` | scripts/release/terminal-acceptance.ts:222-243 | No step of any process removes or alters a lock directory or an owner file that another process made. |
| `TokenLock.WorkerHolds` | scripts/release/terminal-acceptance.ts:207-220 | A process whose acquire returned is inside, and the lock carries its token. |
| `TokenLock.WorkerIsUndisturbed` | scripts/release/terminal-acceptance.ts:222-243 | Whatever the others do, a working process keeps its lock until it releases it itself. |
| `TokenLock.OnlyOwnStepsCount` | scripts/release/terminal-acceptance.ts:197-255 | While a process holds the lock, any steps of others between its own change nothing for it: it ends where its own steps alone would lead. |
| `TokenLock.ReleaseFrees` | scripts/release/terminal-acceptance.ts:223-231 | A release whose calls succeed frees the lock, whatever the others do between them: then there is no directory or one made since by another process, and the process is outside. |
| `TokenLock.ReleaseRemoves` | scripts/release/terminal-acceptance.ts:229-230 | The last call of such a release leaves no directory. |
| `TokenLock.CleanupFrees` | scripts/release/terminal-acceptance.ts:210-219 | The removal after an owner file that could not be written frees the lock in the same sense. |
| `TokenLock.FreeLockIsTaken` | scripts/release/terminal-acceptance.ts:207-220 | Where there is no directory the mkdir of any waiting process succeeds, and after its two further steps it works with its token in the lock, whatever the others do. |
| `TokenLock.RunKeeps` | scripts/release/terminal-acceptance.ts:197-255 | Every reachable state satisfies the lock invariant. |
| `TokenLock.LockStaysIff` | scripts/release/terminal-acceptance.ts:222-243 | A process whose release is over has left its lock behind if and only if its last removal reported an error. |
| `TokenLock.LockCanStay` | scripts/release/terminal-acceptance.ts:222-243 | After a removal that failed half way, a second release call takes the lock for released and leaves the directory. |
| `TokenLock.SecondCallLeavesLock` | scripts/release/terminal-acceptance.ts:222-243 | This happens in every schedule in which the process takes those steps. |
| `TokenLock.LateReleaseOnlyLooks` | scripts/release/terminal-acceptance.ts:222-243 | A release whose lock is gone never touches what it finds, and is over if and only if it finds no owner file. |
| `TokenLock.StoppedHolderBlocks` | scripts/release/terminal-acceptance.ts:197-255 | After a process has stopped while it held the lock, the directory stays as it was in every continuation and no other process ever gets inside. |
| `LogObserver.AppLogObserver.constructor` | scripts/release/terminal-acceptance.ts:372-377 | A new observer has seen nothing. |
| `LogObserver.AppLogObserver.Append` | scripts/release/terminal-acceptance.ts:379-408 | After every chunk the tail is the last 1 MiB of the whole stream, the two flags are set exactly when some tail so far contained one of their texts, and the ids are exactly those some tail so far mentioned. |
| `LogObserver.FindIds` | scripts/release/terminal-acceptance.ts:384-388 | The match loop, which goes on behind each match, finds every id that the pattern can match at any position, and no other. |
| `LogObserver.TailOfMore` | scripts/release/terminal-acceptance.ts:382-382 | The bounded tail of the longer stream is computed from the bounded tail alone. |
| `LogObserver.SeenIsThere` | scripts/release/terminal-acceptance.ts:397-397 | A raised flag is always right about the whole stream. |
| `LogObserver.ThereIsSeen` | scripts/release/terminal-acceptance.ts:397-397 | When every chunk fits, a text that occurs anywhere in the concatenated stream raises the flag, however it was chunked. |
| `LogObserver.UnfitCanMiss` | scripts/release/terminal-acceptance.ts:382-397 | For every cutting with a chunk that does not fit there is a stream, cut alike, that holds the text and leaves the flag down. |
| `LogObserver.FlagIsExactIff` | scripts/release/terminal-acceptance.ts:382-397 | The flag is exact for all streams of one cutting if and only if, for each chunk, the stream so far fits the window or the chunk and all but one character of the text do. |
| `LogObserver.ShutdownFlag` | scripts/release/terminal-acceptance.ts:397-397 | The same for the shutdown text of 25 characters and the window of 1 MiB. |
| `TerminalIds.SeenIdIsThere` | scripts/release/terminal-acceptance.ts:379-388 | Every reported id is mentioned in the whole stream or was torn apart by the end of a chunk. |
| `TerminalIds.ReportedIds` | scripts/release/terminal-acceptance.ts:379-388 | When every chunk fits the window, exactly the ids of the whole stream are reported, and the torn ones besides. |
| `TerminalIds.TornLine` | scripts/release/terminal-acceptance.ts:384-388 | For every cutting with a chunk that ends, before the end of the stream, where a whole match can stand, there is a stream for which an id is reported that it does not mention. |
| `TerminalIds.IdsAreExactIff` | scripts/release/terminal-acceptance.ts:379-388 | The reported ids are those of the stream, for every stream cut in one way, if and only if the stream fits the window and no chunk but the last ends where a whole match can stand. |

## Left out

- System calls, descriptors and errno values: the file system is a map of inodes, and a call may fail at any point.
- CreateProtocol.CreateIsExact: an inode number is not given to a new file after its inode is gone; the change-time assumption is about the clock's granularity; two changes within one tick of the kernel's clock are outside the model.
- CreateProtocol.NextKeeps: the model takes every check of the source; some of them repeat what later ones establish (the stat of the new entry, the second looks at the visible and the held parent), and nothing is claimed that only those give.
- Collision resistance of SHA-256 is never assumed silently: `CreateProtocol.ContentIsInput` asks it of the regular files of the run at hand and its input, `TreeWalk.CommitmentIdentifiesTree` of two preimages.
- TreeWalk.SortByName: the library's qsort is modelled by insertion; sortedness and the set of names are all that is used of it.
- TreeWalk.WalkTree: the growth of the name array by realloc and allocation failures are not modelled; the metadata of an unchanging tree is the same at every stat.
- `execute_mkdir` and `execute_replace` of the helper only refuse and are represented by that refusal; `inspect_replace` is represented by its wire record.
- Argument parsing in the helper's `main` beyond `parse_u64`, the digest test and the selector: the other checks are one step that may fail.
- Inspection, replace and mkdir requests of the adapter: their helper runs create nothing by construction, so nothing is claimed about them.
- `runPinnedExecutable` and the directory leases: `Adapter.End` lists the ways a helper process can end.
- UpdateVersion.PrintedIsClean: the semver library is modelled from the standard; its limits of 256 characters and of safe integers are not.
- Nightly.MainPrintsNightly: the current date and the list of git tags are parameters.
- Versions outside the stated formats (nightly or other prerelease tags given to the bump script): no monotonicity is claimed.
- UpdateFeed.FetchReleases: the library's sort is modelled by insertion; fetching, the shape test of an entry and the refresh cache are not modelled; an entry arrives as rejected or published.
- UpdateSelection.ZipNames: case is folded for ASCII letters only.
- Manifest.TransformReleases: the printing of a proxy address (base address, percent-encoding) is not modelled; a proxied line carries its arch-free file name.
- SearchReplace.SearchAndReplace: the regular-expression engine is a parameter that returns a non-empty match at or after a position; patterns that match the empty text make the source loop without end, or up to the cap at one place. A cap that is not a whole number is not modelled. Replacement text, case preservation included, is a parameter that maps a match to its replacement.
- ReplayRegistry.Registry.Consume: canonical JSON text is represented by the challenge itself, and an argument that fails validation by its absence.
- TokenLock.MutualExclusion: waiting, back-off and the deadline are not modelled, and nobody but the processes of the protocol removes the directory.
- LogObserver.AppLogObserver.Append: exit codes are not modelled, a chunk arrives as decoded text, and lower case is ASCII.
- `container-engine.ts`, `git-capability.ts`, `test-capability.ts`, the sibling locks of the other acceptance scripts, HTTP routes, Electron and the user interface: other programs, or easier members.
