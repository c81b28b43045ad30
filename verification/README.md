# buildcage, verified

Buildcage lets a container build reach only the network its author allows. Three parts of it carry
guarantees that reading one function does not give, and this project models and proves them.

**Certificate surgery.** The runtime wrapper makes a build step trust the proxy's certificate authority (CA)
by writing it into PEM bundles, Java keystores, an NSS module list and anchor directories, and takes it out
again afterwards without disturbing anything the step did. Modelled are the windowed search and the in-place
edits of bundles (`Search`, `FileWindow`, `Bundle`, `BundleRoundTrip`, `BundleStable`), keystores
(`Keystore`, `KeystoreFile`, `KeystoreRoundTrip`), EFI signature lists (`SignatureLists`, section 32.4.1 of
the UEFI specification 2.10), the NSS slot (`NssSlot`), the confined symlink resolver (`Resolve`), the
directories created and taken back (`Anchors`), the sweep of a directory (`Sweep`), the planning of mirrored
directories (`Binds`), telling whether a mirror was changed (`Manifests`), and the whole course from
injection to the end of the step (`Lifecycle`).

**The rule compiler.** Allow rules become regular expressions, narrowed matchers, a sequential proxy program
and a resolver allowlist. `Regex` is the expression tree with its printer and meaning; `Anchoring`,
`Wildcards`, `Cidr` and `Ipv4` are the compilers to it, and `Unambiguous` shows that its texts have one
meaning; `Matchers` narrows; `RequestChecks` is what the frontend asks of a host and a path itself;
`Haproxy` interprets the small language the generators write; `RuleBlocks` and `InspectStages` generate,
`RuleBlockCorrect` and `InspectStageSafe` prove what every run does; `UrlRules`, `RawRules` (the `~` rules,
whose author writes the expression) and `RuleSets` compile rules, `RawRuleMeaning` says what a `~` rule lets
through and `PlainRuleMeaning`, over `RuleLines`, what any other does; `NamedAddresses` follows a rule for an
address from its text to the end of a run. `ResolverAgreement` shows that resolver and proxy accept the same
names, and `AllowlistLiteral` that nothing ends the literal they are written in. `AuditRules` writes an
allowlist from observed traffic, `RequestUrls` says what it reads out of a URL, and `AuditRoundTrip` proves
that it allows what was seen and no more.

**The summary fitter.** `SummaryFit` models the allocation of a byte budget to the blocks of a report.

`Decimal`, `Sorting` and `Text` hold what several modules need. Code that updates state is modelled by
classes and methods with loops, each proved against a function; the properties are lemmas about those
functions. A file is a sequence of bytes, a directory tree a map from paths to nodes, and a read, write or
walk that can fail is a choice left open. What other libraries and programs decide is a parameter, with only
the laws named in a contract: the PEM decoder, SHA-1, X.509 and PKCS#12 in `Sweep.Codecs`, the regex engine,
the converter that drops a header's port, address-in-network and the DNS answers in `Haproxy.World`, and in
`RawRules.Checks` whether a text compiles and keeps to the syntax all engines share. One law is asked of the
engine, `Matchers.ReadsTrees`: of a text on one line it finds what the tree of the expression finds, for
trees no engine refuses. `Unambiguous.SomeEngineReadsTrees` shows it can be met.

Where the code promises less than one might expect, the exact extent is proved: the earliest of several
needles is found in every file just when each one holding another starts with a shorter one
(`FileWindow.EarliestExactly`), which the needles of a CA do not meet (`Bundle.SubjectCanWin`), though what
is cut does not depend on it (`Bundle.CleanHasNothingToCut`); removing the CA twice can differ from once
(`BundleRoundTrip.RemovalCanUncoverACopy`), and for a bundle that ends its line never does, whatever comes
after it, exactly when no opening line it leaves unread can go on
(`BundleStable.SecondChangesNothingExactly`); a keystore comes back exactly when it held no copy before
(`KeystoreRoundTrip.WithoutUndoesWith`); and although `anchor.go` says that directories are taken back, a
created path that a step turned into a file goes as a file (`Anchors.OnlyDirectoriesGo`).

## Model

| member | source | states |
|---|---|---|
| FileWindow.BundleFile.ReadAt | docker/inspect/buildcage-runc/castore.go:165-173 | a read gives the bytes from an offset, fewer only where the file ends |
| FileWindow.BundleFile.WriteAt | docker/inspect/buildcage-runc/castore.go:165-173 | a write inside the file puts the bytes where they belong; one that fails may have put the first of them |
| FileWindow.BundleFile.Truncate | docker/inspect/buildcage-runc/castore.go:165-173 | truncation keeps exactly the first bytes |
| FileWindow.Window.At | docker/inspect/buildcage-runc/castore.go:440-457 | what is read through the window is the piece of the file asked for, and the cached bytes stay the slice they claim to be |
| FileWindow.EarliestInBuffer | docker/inspect/buildcage-runc/castore.go:481-490 | shrinking the buffer after each hit finds, of all needles, the earliest occurrence inside one window |
| FileWindow.Window.FindAnyInFile | docker/inspect/buildcage-runc/castore.go:471-502 | the loop over overlapping windows computes `FindAny`, whatever the window held before |
| FileWindow.Window.FindInFile | docker/inspect/buildcage-runc/castore.go:460-463 | for one needle the windowed search returns exactly the first occurrence or -1 |
| FileWindow.FindAnyRefinesNaive | docker/inspect/buildcage-runc/castore.go:466-502 | a miss means no needle occurs at or after the start, and the other way round; a hit is a real occurrence, never after any of its own needle, and of none at all where the list can lose nothing; the first listed among equals where the longer comes last |
| FileWindow.FindOneIsIndexOf | docker/inspect/buildcage-runc/castore.go:460-463 | with one needle the windowed search is the naive one |
| FileWindow.NothingBeforeHit | docker/inspect/buildcage-runc/castore.go:466-502 | where any needle with another strictly inside starts with a shorter one, no needle occurs before the hit of the window it is found in, also one running past the window's end |
| FileWindow.FirstOfItsOwn | docker/inspect/buildcage-runc/castore.go:466-502 | whatever the needles, a window's hit is not after any occurrence of the same needle, also one running past its end |
| FileWindow.LaterIsWithin | docker/inspect/buildcage-runc/castore.go:466-502 | wherever a needle occurs something is found, and what is found after it lies strictly inside that occurrence |
| FileWindow.EarliestCanLose | docker/inspect/buildcage-runc/castore.go:466-502 | whenever one needle lies strictly inside another that no shorter one starts, a file is given in which the earliest occurrence loses |
| FileWindow.EarliestExactly | docker/inspect/buildcage-runc/castore.go:466-502 | the earliest occurrence is found in every file just when every needle with another strictly inside starts with a shorter one; for any list that leaves a byte unused |
| Bundle.ShiftDown | docker/inspect/buildcage-runc/castore.go:572-598 | for any chunk size, the bytes moved down are the file's original ones and nothing else is touched, also when a write stops partway |
| Bundle.CloseGaps | docker/inspect/buildcage-runc/castore.go:555-568 | for any cuts in order, apart and inside the file, what is left at the front is the kept runs one after the other |
| Bundle.FoundInOrder | docker/inspect/buildcage-runc/castore.go:343-374 | the cuts that are found always meet what closing gaps needs |
| Bundle.ReadPEMBlock | docker/inspect/buildcage-runc/castore.go:385-421 | the reader through the window agrees with the specification on the whole text: where a block ends, its size cap, and the forward-only step over what is no block |
| Bundle.FindCertificates | docker/inspect/buildcage-runc/castore.go:343-374 | the loop finds what `FindCerts` says, whose ranges the two lemmas below pin down |
| Bundle.OnlyCopiesAreCut | docker/inspect/buildcage-runc/castore.go:343-374 | every range found is an armoured block that reads as one of the certificates |
| Bundle.EveryCopyIsCut | docker/inspect/buildcage-runc/castore.go:343-374 | every such block is found, unless it starts inside a block before it |
| Bundle.RemoveCA | docker/inspect/buildcage-runc/castore.go:298-339 | on success the file holds everything but the copies, or all of it when it has a NUL byte; a file that cannot be opened is left, and a missing one is no error |
| Bundle.AppendCA | docker/inspect/buildcage-runc/castore.go:189-225 | a CA that holds no certificate is refused, and so is what is no regular file; otherwise the file, created where missing, is the old one, its line ended, then the CA; a failure leaves the old file and a beginning of what was to follow |
| Bundle.ScanForCA | docker/inspect/buildcage-runc/castore.go:509-541 | the windowed scan reaches the verdict of `Scan`: a needle raw, or inside a block that can be read, which is then stepped over |
| Bundle.CleanHasNothingToCut | docker/inspect/buildcage-runc/castore.go:505-541 | what the scan calls clean holds nothing removal would cut, whatever the needles beside the certificates |
| Bundle.SubjectCanWin | docker/inspect/buildcage-runc/castore.go:255-273 | the needles of a CA are no such list: in the file given, its subject is found and the certificate it lies in, which starts earlier, is not |
| Bundle.OnlyThereIsFound | docker/inspect/buildcage-runc/castore.go:509-541 | where the scan says the CA is held, a needle stands in the raw bytes, or a block that reads holds one |
| Bundle.RawNeedleIsFound | docker/inspect/buildcage-runc/castore.go:509-541 | a needle anywhere in the raw bytes makes the scan say so, unless it starts inside a block read before it or inside an opening line; for needles without an opening line in them |
| Bundle.HoldingBlockIsFound | docker/inspect/buildcage-runc/castore.go:509-541 | a block that holds a needle does too, unless it opens inside a block read before it |
| Bundle.ExtentBounds | docker/inspect/buildcage-runc/castore.go:385-421 | a block that is read always ends past its start and inside what was read |
| BundleRoundTrip.FindBefore | docker/inspect/buildcage-runc/castore.go:343-374 | text before a line-ended opening line is scanned the same whatever follows it |
| BundleRoundTrip.FindAfter | docker/inspect/buildcage-runc/castore.go:343-374 | a tail with nothing to cut has nothing to cut wherever it stands |
| BundleRoundTrip.ExtentOfBlock | docker/inspect/buildcage-runc/castore.go:385-421 | an armoured block is read to its own end, whatever comes after |
| BundleRoundTrip.CutBlocks | docker/inspect/buildcage-runc/castore.go:343-374 | all blocks of the CA are cut, and what is kept after them is the tail |
| BundleRoundTrip.RemoveUndoesAppend | docker/inspect/buildcage-runc/castore.go:298-339 | a bundle that ends its line, then the CA, then any tail: with no copy elsewhere, removal leaves exactly the bundle and the tail; with a NUL anywhere it leaves the file as it is |
| BundleRoundTrip.BlocksAreTheCA | docker/inspect/buildcage-runc/castore.go:232-244 | the certificates looked for are the bodies of the CA's own blocks, in order |
| BundleRoundTrip.AppendThenRemove | docker/inspect/buildcage-runc/castore.go:189-339 | removing the CA undoes appending it: the bundle and what a step appended come back byte for byte, an unterminated last line gaining only its line break; a file with a NUL is untouched |
| BundleRoundTrip.RemovalCanUncoverACopy | docker/inspect/buildcage-runc/castore.go:298-339 | removal is not idempotent: a copy cut out of the opening dashes of another, in a text that does not end its line, leaves that other one, which a second pass removes |
| BundleStable.ExtentStays | docker/inspect/buildcage-runc/castore.go:385-421 | a block complete in whole lines is read the same whatever comes after it |
| BundleStable.NoBeginWithin | docker/inspect/buildcage-runc/castore.go:385-421 | no other opening line starts inside a block, but for one that shares its last five dashes |
| BundleStable.JoinIsClean | docker/inspect/buildcage-runc/castore.go:343-374 | two texts without a copy make one without a copy where nothing left unread in the first can go on |
| BundleStable.SecondChangesNothingExactly | docker/inspect/buildcage-runc/castore.go:298-374 | a bundle that ends its line, the CA, then any tail without a copy: for every such tail a second removal changes nothing, just when no opening line the bundle leaves unread is the beginning of a copy, or of a block that ends at its dashes |
| BundleStable.LastReadIsEnough | docker/inspect/buildcage-runc/castore.go:343-374 | only the last opening line can be such: a bundle whose last one reads as a block, or that has none, is safe |
| BundleStable.SettledFileIsDone | docker/inspect/buildcage-runc/castore.go:298-374 | any file, however many copies: where every stretch kept before a cut ends its line and leaves nothing that can go on, a second removal changes nothing |
| KeystoreFile.Reader.Advance | docker/inspect/buildcage-runc/jks.go:285-296 | the cursor moves by what is asked or fails for good, never past the end |
| KeystoreFile.Reader.Certificate | docker/inspect/buildcage-runc/jks.go:316-321 | reads the type from version 2 on and then the DER, or fails |
| KeystoreFile.ReadChainOf | docker/inspect/buildcage-runc/jks.go:254-261 | a private key's chain is read as specified, in a number of turns bounded by the bytes consumed, whatever count the file claims |
| KeystoreFile.ParseEntry | docker/inspect/buildcage-runc/jks.go:239-269 | one entry with its exact byte range, trusted or private, or the error |
| KeystoreFile.ParseKeystore | docker/inspect/buildcage-runc/jks.go:226-275 | the loops compute `Parse`, in at most one turn per byte of the body whatever the file claims: each turn takes bytes or ends the loop |
| KeystoreFile.KeystoreWith | docker/inspect/buildcage-runc/jks.go:149-171 | inserting computes `With`: seal checked, entries added, count patched, resealed |
| KeystoreFile.KeystoreWithout | docker/inspect/buildcage-runc/jks.go:106-143 | stripping computes `Without`: entries holding a certificate dropped, a private chain refused, count patched, resealed |
| Keystore.EntriesEnd | docker/inspect/buildcage-runc/jks.go:226-275 | each entry takes at least 14 bytes, so a parsed count is bounded by the body |
| Keystore.ReadEntriesOn | docker/inspect/buildcage-runc/jks.go:226-275 | parsing more entries is parsing the first ones and going on where they end |
| Keystore.ReadsTrusted | docker/inspect/buildcage-runc/jks.go:175-193 | an entry as it is written parses back to one trusted entry with its alias and its DER |
| Keystore.ReadEntryMoved | docker/inspect/buildcage-runc/jks.go:226-275 | an entry copied elsewhere, trusted or private, reads there as the same one |
| Keystore.AliasesApart | docker/inspect/buildcage-runc/jvmstore.go:48-55 | no two certificates added share an alias, however many there are |
| Keystore.AddedTexts | docker/inspect/buildcage-runc/jks.go:175-193 | the alias is buildcage-proxy-ca, with the number after a dash for all but the first; the certificate type is X.509 |
| Keystore.OpensJust | docker/inspect/buildcage-runc/jks.go:204-213 | a keystore opens just where its last 20 bytes are the digest of changeit in UTF-16, the words Mighty Aphrodite, and all before them |
| KeystoreRoundTrip.ReadsAdded | docker/inspect/buildcage-runc/jks.go:149-193 | every entry that was added parses back, each under its own alias |
| KeystoreRoundTrip.ParseInjected | docker/inspect/buildcage-runc/jks.go:149-171 | an injected keystore parses to its own entries followed by the added ones, its count right |
| KeystoreRoundTrip.KeptOfParsed | docker/inspect/buildcage-runc/jks.go:106-143 | of a keystore's own entries everything is kept byte for byte just when none holds a certificate; otherwise fewer bytes are |
| KeystoreRoundTrip.KeepNoneAdded | docker/inspect/buildcage-runc/jks.go:106-143 | every entry that was added is removed again |
| KeystoreRoundTrip.WithoutUndoesWith | docker/inspect/buildcage-runc/jks.go:106-171 | stripping what was injected gives back the keystore, digest and count included, exactly when no entry held one of the certificates before |
| KeystoreRoundTrip.WithReads | docker/inspect/buildcage-runc/jks.go:149-171 | an injected keystore opens and parses to its own entries and, after them, one trusted entry for each certificate |
| KeystoreRoundTrip.WithoutLeavesTheRest | docker/inspect/buildcage-runc/jks.go:106-143 | stripping any keystore that parses: refused just where a private chain holds a certificate, or nothing does; else what is written opens, and parses to the entries that hold none, in order and byte for byte |
| SignatureLists.DecodeEncode | docker/inspect/buildcage-runc/efi.go:35-77 | valid lists print to text that parses to the same lists, so every size field is right |
| SignatureLists.EncodeDecode | docker/inspect/buildcage-runc/efi.go:35-77 | what is accepted is exactly what its lists print as |
| SignatureLists.KeptExactly | docker/inspect/buildcage-runc/efi.go:54-64 | exactly the signatures of X.509 lists equal to a target go |
| SignatureLists.FilterList | docker/inspect/buildcage-runc/efi.go:54-64 | the inner loop keeps the list's header and the signatures that are not targets, and says whether any went |
| SignatureLists.OneListWithout | docker/inspect/buildcage-runc/efi.go:51-74 | a list comes out as it was, with its size patched, or not at all |
| SignatureLists.SignatureListsWithout | docker/inspect/buildcage-runc/efi.go:35-77 | removal is reported just when the content tiles to its last byte and holds a target; the output is then the printed filtered lists; untouched content comes out as it went in |
| SignatureLists.WithoutClean | docker/inspect/buildcage-runc/efi.go:35-77 | the filtered lists are valid, hold no target, and a second pass changes nothing |
| SignatureLists.RewrittenDecodes | docker/inspect/buildcage-runc/efi.go:35-77 | the rewritten file parses to the same lists minus the targets and the lists they emptied |
| NssSlot.Pkcs11Txt.AppendSlot | docker/inspect/buildcage-runc/nssdb_slot.go:36-74 | the file gains a separating blank line only where it lacks one, then the slot, and what was appended is returned; what is no regular file is refused; a failure leaves the file and a beginning of what was to follow |
| NssSlot.Pkcs11Txt.RemoveSlot | docker/inspect/buildcage-runc/nssdb_slot.go:83-122 | what was appended goes, else the last slot; an oversized file is an error; a file the injection created goes when nothing else is in it; one that is no file any more is no error; a rewrite broken off is a beginning of the new text over the old |
| NssSlot.Pkcs11Txt.StripCopy | docker/inspect/buildcage-runc/nssdb_slot.go:128-168 | the loop ends with every slot cut; an emptied file goes; residue is reported just when the directory is still named or the file is too large; reading and writing can fail |
| NssSlot.NoSlotNoCut | docker/inspect/buildcage-runc/nssdb_slot.go:83-168 | a file without a slot is left as it is by taking back and by cutting |
| NssSlot.RemoveUndoesAppend | docker/inspect/buildcage-runc/nssdb_slot.go:36-122 | for any content and any slot-free tail under the size cap, taking the slot back leaves the content, with separator and tail where there is a tail |
| NssSlot.SlotStandsApart | docker/inspect/buildcage-runc/nssdb_slot.go:54-66 | the slot comes to stand at the start of the file or after a blank line, and no more is added for that than it takes |
| NssSlot.StrippedHoldsNone | docker/inspect/buildcage-runc/nssdb_slot.go:128-168 | however the passes join text together, no slot is left |
| NssSlot.StripsOneCopy | docker/inspect/buildcage-runc/nssdb_slot.go:128-168 | one slot between texts that do not join into another is taken out alone |
| NssSlot.StripUndoesAppend | docker/inspect/buildcage-runc/nssdb_slot.go:128-168 | a copy that still ends in what was appended is the original again |
| Resolve.ResolveInRoot | docker/inspect/buildcage-runc/castore.go:74-144 | the loop over components, links and hops computes `Resolution`, which the lemmas below pin down, and ends |
| Resolve.FollowStaysInside | docker/inspect/buildcage-runc/castore.go:74-144 | wherever links lead, a path returned lies inside the root with no link below it, in at most 32 hops |
| Resolve.ResolvesToItself | docker/inspect/buildcage-runc/castore.go:606-612 | the container path of a host path resolves back to it just when no component below the root is a link; so resolving again changes nothing |
| Resolve.ResolutionIsWhereItLeads | docker/inspect/buildcage-runc/castore.go:74-144 | for any tree and path: resolving gives a path just when a walk from the root, one name, climb or link at a time, an absolute link going on from the root and a relative one from where it lies, comes to it with nothing left and at most 32 links; it fails just when the walk meets what cannot be looked at, or a 33rd link |
| Resolve.LinkLeads | docker/inspect/buildcage-runc/castore.go:129-132 | a link to a link-free path leads below the root where it is absolute, and below its own directory where it is relative, in one hop |
| Resolve.CleanSteps | docker/inspect/buildcage-runc/castore.go:84-133 | cleaning drops empty names and dots, takes a name away with the climb after it, and a climb at the root |
| Resolve.CleanStays | docker/inspect/buildcage-runc/castore.go:84-133 | what has nothing to clean in it stays |
| Resolve.CleanIsClean | docker/inspect/buildcage-runc/castore.go:84-133 | and cleaning always comes to such a path |
| Resolve.PlainWithLess | docker/inspect/buildcage-runc/anchor.go:134-159 | taking entries away leaves a link-free path link-free |
| Anchors.RemovalOrderIs | docker/inspect/buildcage-runc/anchor.go:58-64 | every created directory is there, and none before one below it |
| Anchors.Host.MkdirAllTracking | docker/inspect/buildcage-runc/anchor.go:101-110 | below a directory reached without a link, exactly the missing ancestors are reported, deepest first; nothing else is made, also on failure |
| Anchors.Host.RemoveCreatedDirs | docker/inspect/buildcage-runc/anchor.go:134-159 | the loop takes back each created directory that is not adopted, still resolves to itself, is empty and that the system lets go |
| Anchors.OnlyCreatedGo | docker/inspect/buildcage-runc/anchor.go:134-159 | whatever the system refuses, only created, unadopted paths reached without a link go, a directory only once nothing is below it; all else is untouched |
| Anchors.OwnTreeGoes | docker/inspect/buildcage-runc/anchor.go:134-159 | a directory holding nothing but created ones is taken back with all of them, where the system refuses none |
| Anchors.OnlyDirectoriesGo | docker/inspect/buildcage-runc/anchor.go:134-159 | only directories go exactly when no created path, unadopted, link-free and not refused by the system, has become a file |
| Sweep.Tree.StripFile | docker/inspect/buildcage-runc/layer.go:314-341 | one file that carries the CA is rewritten by `StripCA`, or removed when nothing is left of it |
| Sweep.Tree.SweepFiles | docker/inspect/buildcage-runc/layer.go:204-244 | in whatever order, every file under the directory is stripped, those left empty go, those that cannot be are reported; broken off, it has touched no file that carried nothing |
| Sweep.FollowLinks | docker/inspect/buildcage-runc/layer.go:251-310 | the fixpoint loop ends and finds the least set holding what was removed and every link to one of its own |
| Sweep.Tree.DropRemovedLinks | docker/inspect/buildcage-runc/layer.go:251-310 | exactly those links go |
| Sweep.Tree.SweepDir | docker/inspect/buildcage-runc/layer.go:204-244 | files and links together: what goes, what is rewritten and what is reported, and nothing else changes |
| Sweep.ParentResolves | docker/inspect/buildcage-runc/layer.go:269-275 | the directory a link lies in resolves to itself, so the link removed is the one listed |
| Sweep.HoldsJust | docker/inspect/buildcage-runc/castore.go:509-541 | the CA is looked for by the scan, and in what starts as a PKCS#12 of at most 16 MiB |
| Sweep.LinkToRemovedGoes | docker/inspect/buildcage-runc/layer.go:251-310 | a link left naming a file that went, from the swept directory where it is absolute and else from its own, goes too |
| Sweep.StripTells | docker/inspect/buildcage-runc/layer.go:314-341 | a file is reported just when what is left of it still holds the CA |
| Sweep.BinaryIsStripped | docker/inspect/buildcage-runc/layer.go:314-341 | kind by kind, what is left of a binary that holds the CA: a keystore its other entries or, where it cannot be rewritten, all of it; a bare certificate nothing; a signature list its other signatures; anything else all of it |
| Sweep.SweepFrame | docker/inspect/buildcage-runc/layer.go:204-244 | a file that carried no certificate keeps its bytes; one that goes had nothing else in it |
| Binds.GroupTargetsByBind | docker/inspect/buildcage-runc/mount.go:104-115 | every target is in exactly one group, once, under its directory or the store's, and nothing else is |
| Binds.Outermost | docker/inspect/buildcage-runc/mount.go:126-131 | the scan finds the outermost directory, in whatever order the map is walked |
| Binds.MergeNestedGroups | docker/inspect/buildcage-runc/mount.go:122-141 | each group is folded into its outermost directory, its names made relative to it |
| Binds.MergedAreApart | docker/inspect/buildcage-runc/mount.go:117-141 | merged directories never nest |
| Binds.TargetsAreConserved | docker/inspect/buildcage-runc/mount.go:117-141 | each directory is in one merged group, once, with the same full paths |
| Binds.OrderKeepsDirs | docker/inspect/buildcage-runc/mount.go:143-161 | the store comes first and every directory comes once |
| Binds.Spec.PrepareBind | docker/inspect/buildcage-runc/inject.go:394-430 | a directory is bound exactly when it is not the root, conflicts with no mount and can be prepared; a refusal adds no mount |
| Binds.BindGroup | docker/inspect/buildcage-runc/inject.go:341-361 | a merged group is bound, or its own directory was refused for a reason that holds of it and the others folded into it are bound without it |
| Binds.BindTargets | docker/inspect/buildcage-runc/inject.go:341-361 | the recursion ends; every directory is either placed, with exactly its targets, or was itself refused: it is the container's root, conflicts with a mount the step came with, or its mirror could not be made; every bind is clear of the mounts before it |
| Binds.OnlyRefusedGoWithout | docker/inspect/buildcage-runc/inject.go:337-361 | a target goes without the CA only where its own directory was itself refused |
| Binds.RefusedGoWithout | docker/inspect/buildcage-runc/inject.go:337-361 | of targets grouped by directory, exactly those of the refused directories go without |
| Binds.BoundAreApart | docker/inspect/buildcage-runc/spec.go:146-183 | no bound directory nests with another or with a mount the step came with |
| Binds.HostDirsAreApart | docker/inspect/buildcage-runc/spec.go:146-183 | on the host too no mirrored directory lies in another |
| Lifecycle.PlannedAreApart | docker/inspect/buildcage-runc/inject.go:206-220 | so the directories the plan binds are ones whose write-backs do not touch each other |
| Manifests.ManifestsTell | docker/inspect/buildcage-runc/mount.go:279-287 | two states of a mirror have equal manifests just when they hold the same entries with the same owners and modes, and files whose bytes have one digest |
| Manifests.ManifestTells | docker/inspect/buildcage-runc/mount.go:279-287 | a mirror compares equal to a manifest just when every path is as it was recorded, the digest of its bytes included, and none has come or gone |
| Lifecycle.InjectedBundles | docker/inspect/buildcage-runc/mount.go:353-378 | a CA file with a certificate goes at the end of each named bundle, and no other file changes |
| Lifecycle.InjectedKeystore | docker/inspect/buildcage-runc/mount.go:353-378 | a named JKS keystore comes to hold, after its own entries, a trusted one for each certificate of the CA file; stripping those gives back its bytes just where none of its own held one |
| Lifecycle.InjectedOtherwise | docker/inspect/buildcage-runc/jks.go:149-171 | a PKCS#12 that takes the certificates becomes what its own library makes of it; what is no keystore is left |
| Lifecycle.DirBind.InjectInto | docker/inspect/buildcage-runc/mount.go:353-378 | a bundle gets the CA appended, a keystore of either format its certificates as entries, its bytes from before remembered; one that takes none is left, and a write that fails ends the mirror or, for a keystore, the injection |
| Lifecycle.DirBind.Prepare | docker/inspect/buildcage-runc/mount.go:340-400 | each named file that takes the CA has it, but for keystores whose write did not start, nothing else changes, and the state before and after is recorded; mirroring, writing and recording can fail |
| Lifecycle.DirBind.CoverKeystore | docker/inspect/buildcage-runc/mount.go:471-499 | one more keystore in a mirror already made; where the state after it cannot be recorded the old one stands, and one left half-written is reported |
| Lifecycle.DirBind.RestoreUntouchedKeystores | docker/inspect/buildcage-runc/mount.go:506-518 | exactly the keystores whose entry is as recorded after the injection, digest, owner and mode, get their earlier bytes back |
| Lifecycle.DirBind.RemoveSlot | docker/inspect/buildcage-runc/mount.go:425-429 | the mirror's module list is what taking back the slot appended to it leaves, or is gone; one too large to read is an error |
| Lifecycle.SlotFrame | docker/inspect/buildcage-runc/nssdb_slot.go:83-122 | a file without the slot's text comes through that, whatever its name |
| Lifecycle.SlotComesBack | docker/inspect/buildcage-runc/nssdb_slot.go:36-122 | a mirror given the slot and taken it back is what it was, without a module list where it had none; what the step appended stays |
| Lifecycle.CutCopyIs | docker/inspect/buildcage-runc/nssdb_slot.go:128-168 | a copy that empties goes; one is reported just when it is too large or what is left of it names the slot directory |
| Lifecycle.DirBind.RestoreUnchangedMtimes | docker/inspect/buildcage-runc/mount.go:320-338 | entries as they were before mirroring, links aside, get their time back, and only those |
| Lifecycle.TimesAre | docker/inspect/buildcage-runc/mount.go:320-338 | an entry as it was recorded gets its recorded time back unless it is a link, and nothing else of any entry changes |
| Lifecycle.DirBind.StripMirror | docker/inspect/buildcage-runc/mount.go:419-447 | keystores put back, slot cut, then all of the mirror swept, in that order |
| Lifecycle.DirBind.OwedIsLeft | docker/inspect/buildcage-runc/mount.go:419-440 | an untouched keystore that held no CA before comes through the cut and the sweep with its original bytes |
| Lifecycle.DirBind.ChangedBytesTell | docker/inspect/buildcage-runc/mount.go:279-287 | bytes of another digest than the one recorded are a change to the mirror, and a keystore so changed keeps the bytes of the step |
| Lifecycle.DirBind.OwedIs | docker/inspect/buildcage-runc/mount.go:410-518 | what a write-back owes the step is the earlier bytes of just those keystores that are as recorded after the injection and held neither CA nor slot before, where the mirror is not as recorded |
| Lifecycle.DirBind.Commit | docker/inspect/buildcage-runc/mount.go:449-463 | the mirror is written back only where its container path still leads to the directory itself; where it does not, nothing is written |
| Lifecycle.DirBind.Finish | docker/inspect/buildcage-runc/mount.go:410-464 | a mirror the step left as recorded is not written back; where it ends well and some file has bytes of another digest, what is written is the swept mirror, with untouched keystores byte for byte, and nothing outside the directory changes |
| Lifecycle.GraftIsTree | docker/inspect/buildcage-runc/mount.go:187-201 | a mirror put in a directory's place leaves a directory tree |
| Lifecycle.StripSlotCopies | docker/inspect/buildcage-runc/layer.go:404-459 | every module list in the layer, and every file a link so named leads to, is cut as a copy of the file with the slot, and exactly the ones still naming it are reported |
| Lifecycle.NoneIsNamed | docker/inspect/buildcage-runc/layer.go:404-459 | where none is reported, no file so named or so led to holds the slot or names its directory |
| Lifecycle.VerifyLayer | docker/inspect/buildcage-runc/layer.go:455-462 | reading the layer back lists exactly the regular files that hold the CA |
| Lifecycle.StripLayer | docker/inspect/buildcage-runc/layer.go:350-395 | the layer counts as done just when all of it could be stripped, no cut file still counts as residue and no file holds the CA by the scan's own verdict; then no module list names the slot; without a layer found, or where a read or write fails, it fails |
| Lifecycle.StripKeeps | docker/inspect/buildcage-runc/layer.go:350-395 | a file that carried neither the CA nor a slot keeps its bytes, whatever its name |
| Lifecycle.InjectedBundleComesBack | docker/inspect/buildcage-runc/mount.go:353-447 | a bundle of a mirror the CA was injected into comes out of the sweep with all it held, its last line ended, and all the step appended; one left empty goes |
| Lifecycle.Injection.FinishBinds | docker/inspect/buildcage-runc/inject.go:206-220 | each mirror is reconciled, one leaving what another wrote; the first failure is remembered |
| Lifecycle.Injection.RemoveCreated | docker/inspect/buildcage-runc/inject.go:223-225 | the created directories are taken back and no file outside them changes |
| Lifecycle.Injection.Finish | docker/inspect/buildcage-runc/inject.go:206-232 | whatever the step did: with residue made to fail, an end without error leaves no regular file holding the CA and no module list naming the slot; keystores owed their earlier bytes have them; residue alone never fails where it is tolerated; the created directories are taken back last |
| Lifecycle.Injection.Abandon | docker/inspect/buildcage-runc/inject.go:329-335 | mirrors are dropped unwritten and the same end promises the same of the layer |
| Regex.AnchoredFinds | src/core/lib/acl/partial-wildcard.ts:443-445 | a search between anchors finds a name just when the expression covers it |
| Anchoring.RegexChars | src/core/lib/acl/partial-wildcard.ts:158-171 | the scan visits each unescaped character once, with whether it sits inside a class |
| Anchoring.HasTopLevelAlternation | src/core/lib/acl/partial-wildcard.ts:174-188 | the loop over depth and classes decides whether a bar stands outside every group and class |
| Anchoring.EndsAnchored | src/core/lib/acl/partial-wildcard.ts:424-429 | counting backslashes decides whether a final `$` is an anchor |
| Anchoring.AlternationIsAtTheRoot | src/core/lib/acl/partial-wildcard.ts:174-188 | for every expression the scan says yes exactly when the tree has an alternation at its root |
| Anchoring.EndIsLastPiece | src/core/lib/acl/partial-wildcard.ts:424-429 | the text ends in an anchor exactly when the tree's last piece is one |
| Anchoring.AnchorsSplitByAlternation | src/core/lib/acl/partial-wildcard.ts:432-445 | why a top-level bar is refused, for any number of branches: the start binds the first branch alone, the end the last, and those between float |
| Anchoring.AnchoringBindsTheWhole | src/core/lib/acl/partial-wildcard.ts:432-445 | where no top-level bar is found, the anchored text is that of the anchored tree, and searching with it accepts exactly what the author's expression covers from first to last character |
| Wildcards.AtomToRegex | src/core/lib/acl/partial-wildcard.ts:37-57 | the loop over a label or segment writes what its wildcards stand for |
| Wildcards.DomainTextIs | src/core/lib/acl/partial-wildcard.ts:91-99 | a domain compiles label by label to its wildcards in turn, and is refused just when a label is no host label |
| Wildcards.PathTextIs | src/core/lib/acl/partial-wildcard.ts:108-114 | a path compiles segment by segment to its wildcards in turn |
| Wildcards.TreeFits | src/core/lib/acl/partial-wildcard.ts:20-57 | the compiled expression accepts exactly the names and paths the pattern describes |
| Wildcards.TextTellsPattern | src/core/lib/acl/partial-wildcard.ts:37-57 | two patterns written as one text are one pattern |
| Cidr.CidrPrints | src/core/lib/acl/wildcard-rules.ts:146-159 | the text built from octets is that of a well-formed tree |
| Cidr.OctetAccepts | src/core/lib/acl/wildcard-rules.ts:146-159 | an octet's part accepts a number exactly when the fixed bits agree |
| Cidr.BitsAgree | src/core/lib/acl/wildcard-rules.ts:146-159 | shifting the 32-bit numbers agrees with comparing octet by octet |
| Cidr.TextMatchIsPrefixMatch | src/core/lib/acl/wildcard-rules.ts:146-159 | for every block, prefix 0 to 32 and canonical address, the anchored expression accepts the text exactly when the 32-bit numbers agree on the prefix (section 3.1 of RFC 4632) |
| Cidr.DottedInjective | src/core/lib/acl/wildcard-rules.ts:146-159 | no two addresses have the same canonical text |
| Ipv4.OctetTreeCovers | src/core/lib/acl/ipv4.ts:3-3 | the octet expression covers exactly the numbers below 256 without a leading zero |
| Ipv4.OctetText | src/core/lib/acl/ipv4.ts:3-3 | the tree is written as the source's own text |
| Ipv4.HostIsAddress | src/core/lib/acl/haproxy-rules.ts:22-22 | the anchored expression finds exactly the canonical dotted addresses |
| RequestChecks.NameFinds | src/core/lib/acl/haproxy-matchers.ts:20-20 | the host name expression finds names of its characters and nothing else |
| RequestChecks.ClimbFinds | src/core/lib/acl/haproxy-inspect-stage.ts:223-223 | the climb expression finds something just in paths with a `..` between separators, bare or encoded in either letter case |
| RequestChecks.ChecksRead | src/core/lib/acl/haproxy-inspect-stage.ts:212-223 | the three texts the frontend tries a request with are those expressions, as any engine that reads trees takes them |
| Matchers.EscapedWordReadsBack | src/core/lib/acl/haproxy-matchers.ts:36-38 | a value escaped into a line is read back whole and nothing after it is touched |
| Matchers.HostNarrowingIsExact | src/core/lib/acl/haproxy-matchers.ts:72-79 | the narrowed host match accepts exactly what the rule's expression accepts of a lowercased name |
| Matchers.PathNarrowingIsExact | src/core/lib/acl/haproxy-matchers.ts:89-106 | the narrowed path match accepts exactly what the rule's expression accepts |
| Matchers.TreesReadLiterals | src/core/lib/acl/haproxy-matchers.ts:56-64 | as expressions, the three narrowed shapes accept one text or its extensions |
| Unambiguous.SameTextSameMeaning | src/core/lib/acl/partial-wildcard.ts:390-416 | a text has one meaning: two well-formed trees written alike match alike, so an engine can be asked about texts |
| Unambiguous.SomeEngineReadsTrees | src/core/lib/acl/partial-wildcard.ts:390-416 | the one law asked of an engine can be met |
| RuleBlocks.EmitRule | src/core/lib/acl/haproxy-rule-block.ts:51-84 | one rule's lines, sharing the acl of an earlier rule naming the same host, and both maps brought up to date |
| RuleBlocks.DeclareRules | src/core/lib/acl/haproxy-rule-block.ts:48-84 | the acls of all rules and the acl each rule's host is matched by |
| RuleBlocks.FlagRules | src/core/lib/acl/haproxy-rule-block.ts:87-102 | one flag line per rule, naming the acls declared for it |
| RuleBlocks.RuleBlock | src/core/lib/acl/haproxy-rule-block.ts:17-107 | the emitted block is the specified program, empty lists and audit included |
| RuleBlockCorrect.RuleGoesIn | src/core/lib/acl/haproxy-rule-block.ts:51-84 | running a rule's lines declares acls that answer as the rule's own expressions do, and leaves every other name alone |
| RuleBlockCorrect.ClauseDecides | src/core/lib/acl/haproxy-rule-block.ts:87-91 | a rule's clause holds exactly when host, port, path and method match |
| RuleBlockCorrect.FlagLinesDecide | src/core/lib/acl/haproxy-rule-block.ts:92-102 | the short-circuiting lines leave the flag set exactly when some rule matches |
| RuleBlockCorrect.BlockDecidesAsTheRules | src/core/lib/acl/haproxy-rule-block.ts:17-107 | compiler correctness: for every non-empty list and request, the block denies with 403 exactly when no rule matches, through acl sharing, flags and narrowing |
| RuleBlockCorrect.EmptyAndAuditBlocks | src/core/lib/acl/haproxy-rule-block.ts:12-30 | an empty list denies everything, and audit denies nothing here |
| InspectStages.InternalGuard | src/core/lib/acl/haproxy-inspect-stage.ts:107-139 | the guard lines as specified, one per rule naming an address |
| InspectStages.InspectStage | src/core/lib/acl/haproxy-inspect-stage.ts:156-286 | the frontend's request rules in order: checks, rules, an extension's, resolution, guard |
| InspectStageSafe.PreludeEnds | src/core/lib/acl/haproxy-inspect-stage.ts:194-224 | a request without a host, with no name for a host, or with a climbing path is denied before any rule, by the code the design gives, the engine reading the expressions as they are written |
| InspectStageSafe.DottedNameIsSame | src/core/lib/acl/haproxy-matchers.ts:14-14 | a name is the same host in any case and with its final dot or without |
| InspectStageSafe.NamesJust | src/core/lib/acl/haproxy-inspect-stage.ts:91-98 | the rules an internal address is opened by are those whose expression is that address between anchors, whatever else they ask |
| InspectStageSafe.ExtensionKeeps | src/core/lib/acl/haproxy-inspect-stage.ts:35-46 | an extension that keeps to names of its own ends the run or leaves everything the lines after it go by |
| InspectStageSafe.GuardSegment | src/core/lib/acl/haproxy-inspect-stage.ts:107-139 | an internal destination is denied unless a rule names it and it is not the proxy's own |
| InspectStageSafe.EveryRunEndsAsDesigned | src/core/lib/acl/haproxy-inspect-stage.ts:156-286 | for all rules, extensions, requests and DNS answers, the status, the number of queries and the address connected to are the designed ones; an internal address is open to a rule just where the host expression of the rule is that address between anchors and the rule matches the request |
| InspectStageSafe.NoQueryWithoutAMatch | src/core/lib/acl/haproxy-inspect-stage.ts:241-271 | in restrict mode no query is issued, and no request goes on, unless some rule matched all of it; two queries at most |
| InspectStageSafe.OnlySafeDestinations | src/core/lib/acl/haproxy-inspect-stage.ts:91-139 | in both modes the origin is reached only where it is not internal, or where a rule names that very address, matches the whole request, and it is neither in the proxy's network nor its listener |
| NamedAddresses.AddressRuleNames | src/core/lib/acl/haproxy-inspect-stage.ts:91-139 | the host rule of an address and a port compiles, and names just the requests for that address on that port |
| NamedAddresses.NamedAddressIsReached | src/core/lib/acl/haproxy-inspect-stage.ts:107-139 | from rule text to the end of the run: with such a rule among any others, a request for the address on its port is sent there without a query, internal or not, the listener of the proxy aside |
| RawRules.CheckRawRegexHalf | src/core/lib/acl/partial-wildcard.ts:390-416 | a half of a `~` rule is accepted just when its syntax is shared, no bar stands at its top level, and a host half can be put in the resolver's literal |
| RawRules.PortPatternStart | src/core/lib/acl/partial-wildcard.ts:459-473 | the scan computes `PortFrom`, which the next lemma pins down |
| RawRules.PortStartsFirst | src/core/lib/acl/partial-wildcard.ts:459-473 | a port pattern starts at the first colon, or group opening at one, that is neither escaped nor in a class nor the colon of a `(?:`; there is none just where there is no such place |
| RawRuleMeaning.RawHostRuleMeans | src/core/lib/acl/haproxy-rules.ts:191-223 | a `~` host rule that compiles lets through exactly the hosts and ports the expression of its author covers from first to last character, with any method and absolute path |
| RawRuleMeaning.RawUrlRuleMeans | src/core/lib/acl/url-rules.ts:132-250 | a `~` URL rule put together from a scheme, a host and a path half: it is for the schemes the first covers; the host half covers host, at the own port of the scheme, or host and port; the path half matches a beginning of the path; the method is one of its own |
| RawRuleMeaning.RawSchemesMean | src/core/lib/acl/url-rules.ts:132-157 | the schemes read out of the text before the separator are those its expression covers |
| RawRuleMeaning.RawUrlSplits | src/core/lib/acl/url-rules.ts:197-222 | an expression is cut at its first separator, slashes escaped or not, and at the first slash after that |
| PlainRuleMeaning.PlainHostRuleMeans | src/core/lib/acl/haproxy-rules.ts:134-223 | a host rule lets through every method on every absolute path of the names its pattern takes, on the port it is written with or on any |
| PlainRuleMeaning.HostRuleCompiles | src/core/lib/acl/haproxy-rules.ts:134-152 | a host rule compiles just when it is a domain and a port, a colon between them |
| PlainRuleMeaning.UrlRuleMeans | src/core/lib/acl/url-rules.ts:252-350 | a line of methods and a URL, whitespace around and between them: refused just where its path carries a query; else a rule of that scheme alone, which lets through just the methods, names, port and paths it is written with, the own port of the scheme where it names none and any path where it names none |
| PlainRuleMeaning.RawLineMeans | src/core/lib/acl/url-rules.ts:278-350 | a line of methods and a `~` expression is the rule the expression is cut into, for those methods; refused just where it does not compile or cannot be cut |
| PlainRuleMeaning.RulesDecide | src/core/lib/acl/haproxy-rules.ts:210-253 | the compiled rules of a scheme let a request through just when one of the host rules, or of the URL rules of that scheme, does |
| RuleLines.DomainIs | src/core/lib/acl/partial-wildcard.ts:66-87 | a host pattern is names and wildcards between single dots |
| RuleLines.PortIs | src/core/lib/acl/partial-wildcard.ts:117-131 | a port is a star, or the decimal of a number from 1 to 65535 without a leading zero |
| RuleLines.MethodsRead | src/core/lib/acl/url-rules.ts:81-98 | tokens joined by bars are read as each of them in upper case |
| RuleLines.UrlCompiles | src/core/lib/acl/url-rules.ts:278-318 | what a URL put together from scheme, host, port and path compiles to, or that it is refused for its query |
| RuleSets.CompileSchemeRules | src/core/lib/acl/haproxy-rules.ts:210-253 | the rules of a scheme in input order, `~` rules among them, numbered; an error where a host rule is none |
| RuleSets.ConvertedIsGood | src/core/lib/acl/url-rules.ts:331-350 | a URL line that compiles, literal or `~`, has method names the language takes and an anchored path |
| RuleSets.CompiledRulesAreGood | src/core/lib/acl/haproxy-rules.ts:134-253 | rules compiled from their lines, `~` rules among them, meet all that the rule block's correctness asks |
| RuleSets.IdsTellRules | src/core/lib/acl/haproxy-rules.ts:249-251 | an id names one rule, of one scheme |
| RuleSets.ResolverHosts | src/core/lib/acl/haproxy-rules.ts:330-341 | the names of all rules, in input order, each once |
| ResolverAgreement.AuthorityCutsBack | src/core/lib/acl/haproxy-rules.ts:163-188 | cutting a compiled authority gives back the host and port it was compiled from |
| ResolverAgreement.UrlRuleHost | src/core/lib/acl/url-rules.ts:278-350 | the host a literal URL rule is matched and resolved by is the one written in it |
| ResolverAgreement.AllowedAre | src/core/lib/acl/haproxy-rules.ts:330-341 | every wildcard or literal rule that compiles has a domain; the proxy matches it by that domain and the resolver is told of it, each text once |
| ResolverAgreement.DomainsAgree | src/core/lib/acl/coredns-config.ts:248-273 | dropping repeats loses no name: some listed text takes a name exactly when some rule's host matcher does |
| ResolverAgreement.MatcherFits | src/core/lib/acl/haproxy-matchers.ts:72-79 | the proxy's host match, narrowed or not, accepts exactly the names of the pattern |
| ResolverAgreement.AllowlistFinds | src/core/lib/acl/coredns-config.ts:248-273 | a query passes the allowlist exactly when it is an allowed name with its final dot |
| ResolverAgreement.AllowlistReads | src/core/lib/acl/coredns-config.ts:43-54 | what the resolver reads out of the generated literal is the intended expression |
| ResolverAgreement.NoQuoteInHost | src/core/lib/acl/partial-wildcard.ts:60-99 | no host rule can end the literal it is put in |
| AllowlistLiteral.NothingEndsTheLiteral | src/core/lib/acl/partial-wildcard.ts:216-221 | for all rules that compile, `~` rules among them: the literal of the allowlist reads back as the alternation of their names, and nothing in it could be taken for its end or for a variable of the file it stands in |
| ResolverAgreement.ResolverAndProxyAgree | src/core/lib/acl/coredns-config.ts:248-273 | for all wildcard host rules and literal URL rules that compile and all names: the generated literal reads as a tree's text, and a query for the name passes that tree exactly when some compiled rule's host matcher accepts the name |
| AuditRules.PartitionRequests | src/core/lib/report/render/inspect-example.ts:157-176 | unblocked requests a rule can be written from, in order, and those it cannot, once per method and URL in the order first seen, each as last seen |
| AuditRules.LeftOutInOrder | src/core/lib/report/render/inspect-example.ts:152-176 | of two left-out requests the one shown first was seen before any of the other |
| AuditRules.KeysTell | src/core/lib/report/render/inspect-example.ts:61-91 | two requests are shown as one just where method and URL are the same |
| AuditRules.CommonPrefixSegments | src/core/lib/report/render/inspect-example.ts:94-106 | the segments all paths share |
| AuditRoundTrip.CommonIsLongest | src/core/lib/report/render/inspect-example.ts:94-106 | nothing longer is shared by all paths |
| AuditRules.PathPatternsFor | src/core/lib/report/render/inspect-example.ts:115-128 | the patterns of a group of paths |
| AuditRules.GroupRequests | src/core/lib/report/render/inspect-example.ts:179-190 | requests grouped by origin and method, with exactly their paths |
| AuditRules.MergePatterns | src/core/lib/report/render/inspect-example.ts:192-201 | groups with the same origin and pattern merged, each method once |
| AuditRules.RuleLinesFrom | src/core/lib/report/render/inspect-example.ts:178-208 | one line per origin and pattern, sorted, with exactly the methods whose own paths gave the pattern |
| RequestUrls.RequestIs | src/core/lib/report/render/inspect-example.ts:61-91 | for every URL put together from scheme, host, header port, path and query: left out for its method, its host or a star in its path, in that order, and shown without its query; else read as that host on the port it was sent to, that method and path |
| RequestUrls.UrlHasParts | src/core/lib/report/render/inspect-example.ts:61-70 | every URL is put together so |
| RequestUrls.HostIs | src/core/lib/log/authority.ts:31-37 | the host is what stands before the last colon outside brackets |
| AuditRoundTrip.WritableIsObserved | src/core/lib/report/render/inspect-example.ts:61-91 | a request a rule is written from is the one its URL and port say, whatever its query and its header port hold |
| AuditRoundTrip.LineReadsBack | src/core/lib/acl/url-rules.ts:278-350 | a printed line parses to the rule it was printed from: methods, scheme, host, port, path |
| AuditRoundTrip.MethodsInOrder | src/core/lib/report/render/inspect-example.ts:130-140 | a line lists the conventional methods in their order and any others after them by name |
| Sorting.BeforeIs | src/core/lib/report/render/inspect-example.ts:130-140 | texts are compared as in a dictionary, by their character codes |
| AuditRoundTrip.PatternsCover | src/core/lib/report/render/inspect-example.ts:115-128 | every path seen is taken by a pattern of its group |
| AuditRoundTrip.PatternsTakeNoMore | src/core/lib/report/render/inspect-example.ts:115-128 | a pattern takes only paths seen, or ones that go on from the longest segments all of them share |
| AuditRoundTrip.ObservedIsAllowed | src/core/lib/report/render/inspect-example.ts:141-208 | audit then restrict: every request a rule could be written from is allowed by a printed line, parsed and compiled |
| AuditRoundTrip.OnlyObservedIsAllowed | src/core/lib/report/render/inspect-example.ts:141-208 | a printed line allows only an origin, a port and a method that were seen together, and paths seen or under their longest shared prefix |
| AuditRoundTrip.AuditedIsAllowed | src/core/lib/report/render/inspect-example.ts:141-208 | for any timeline: an event let through, to a URL of a literal host and a path without a star and by a literal method, is allowed, sent again to that host in lower case, that port and that path, by a line written from the timeline |
| AuditRoundTrip.OnlyAuditedIsAllowed | src/core/lib/report/render/inspect-example.ts:141-208 | for any timeline: a line allows only the host and the port some event of it went to, by the method of that event, at paths seen or under their longest shared prefix |
| SummaryFit.CutBlock | src/core/lib/report/render/fit-step-summary.ts:121-162 | the line loop, which has no end of its own, ends before the text does and computes the specified cut |
| SummaryFit.NextLine | src/core/lib/report/render/fit-step-summary.ts:132-152 | as long as the budget holds there is another line: the search never wraps past the end |
| SummaryFit.CutIsBounded | src/core/lib/report/render/fit-step-summary.ts:121-162 | a cut block takes at most its budget and its open, close, notice and five bytes more |
| SummaryFit.CutKeepsWholeLines | src/core/lib/report/render/fit-step-summary.ts:121-162 | what a cut prints, exactly: its frame around the most whole lines there is room for, a fence closed, a table ended; or the notice alone, just where it is to be whole or no line is left after its head |
| SummaryFit.FencesAreClosed | src/core/lib/report/render/fit-step-summary.ts:148-158 | closing the fence that is open after some lines leaves none open |
| SummaryFit.OrderIsByRank | src/core/lib/report/render/fit-step-summary.ts:100-101 | each block gets room once: those always kept first, then the lowest priority first, in document order among equals |
| SummaryFit.PrintedIs | src/core/lib/report/render/fit-step-summary.ts:89-115 | what every block of a report prints: all whole where they fit; else, in that order, nothing where a less deep block of its section was cut before it, all of it where it is always kept or fits in what the ones before it leave, and otherwise what is left cut to fit; and just those are reported cut |
| SummaryFit.FitStepSummary | src/core/lib/report/render/fit-step-summary.ts:89-115 | the allocation as specified, and the blocks reported cut, in order |
| SummaryFit.FitIsBounded | src/core/lib/report/render/fit-step-summary.ts:89-115 | for any blocks the summary is at most the larger of the remaining budget and the blocks always kept, plus the frame of each cut block |
| SummaryFit.CutSilencesDeeper | src/core/lib/report/render/fit-step-summary.ts:99-113 | where a block was cut, the deeper blocks of its section that come after it print nothing |

## Left out

- FileWindow.Window.FindAnyInFile: asks for needles that are not empty, because after a hit at offset 0 the code would slice below zero; no caller passes one.
- FileWindow.EarliestExactly: the direction that exhibits a file asks for a byte in none of the needles to fill it with.
- Bundle.RemoveCA: says nothing about a file whose removal failed partway; the code reports the error and the step fails.
- BundleRoundTrip.RemoveUndoesAppend: a CA of armoured blocks under the size cap, one end line each; other text between the blocks of the CA file is not covered.
- KeystoreRoundTrip.WithoutUndoesWith: asks for a keystore the reader accepts (sealed, version 1 or 2, under the size cap), with room in the 32-bit count.
- Resolve.ResolveInRoot: paths are cleaned by their text, as the code does; agreement with the kernel on `x/..` over a link is not claimed.
- Resolve.ResolutionIsWhereItLeads: the root itself is no link and can be looked at.
- Bundle.RawNeedleIsFound: for needles that hold no opening line, as the CA's do not.
- Anchors.Host.MkdirAllTracking: asks for a directory reached without a link, which is what its callers have from the resolver; a dangling link on the way is then not met.
- Anchors.Host.RemoveCreatedDirs: the adopted directories and what the system refuses are parameters; which packages adopt them is not modelled.
- Sweep.Tree.SweepDir: one tree is both listing and root, as for a mirror; the split of an overlay's upper directory and the rootfs, and whiteouts, are not modelled.
- NssSlot.Pkcs11Txt.RemoveSlot: of a file whose rewrite was broken off only its shape is promised; the code reports the error and the step fails.
- BundleStable.SettledFileIsDone: one way only: a kept stretch that does not end its line can be harmless or not (`BundleRoundTrip.RemovalCanUncoverACopy`), and the converse is stated over all tails (`BundleStable.SecondChangesNothingExactly`), not for one file.
- Lifecycle.DirBind.Prepare: of a mirror that could not be prepared nothing is promised, since it is dropped; its size limits are among the failures left open.
- Lifecycle.StripLayer: of a run that fails in the middle only that it fails is stated, beside what the sweep promises.
- Lifecycle.Injection.Finish: a keystore at a path the injection created as a directory is not among those owed their bytes.
- Binds.BindTargets: whether a mirror can be prepared is a function of the directory and its targets; limits and scratch directories are not modelled.
- Anchoring.AnchoringBindsTheWhole: for expressions the tree can write; not in it are back-references, quantified lookahead, counts with leading zeros, spans that end in a control escape, and the empty class; `$` does not match before a final line break.
- Matchers.TreesReadLiterals: the law asked of an engine is for trees without lookaround, named groups, counts above 1000 and spans out of order, which some engine refuses.
- RawRules.CheckRawRegexHalf: that the syntax is one every engine shares (classes, escapes, groups, braces) is a parameter, as is whether an engine compiles a text.
- RawRuleMeaning.RawHostRuleMeans: the author's expression is one a portable tree writes; what the resolver makes of the host half is not compared with it.
- ResolverAgreement.ResolverAndProxyAgree: wildcard host rules and literal URL rules only; for a `~` rule the resolver is given the text before the port pattern and the two need not agree.
- InspectStageSafe.EveryRunEndsAsDesigned: an extension is taken to keep to names of its own and neither to resolve nor to set a destination; response rules, log lines and the normalization of the path before the checks are not modelled, and no header or path holds a line break.
- RuleBlocks.RuleBlock: the parser's limit of 64 words a line is not modelled; a rule listing very many methods could reach it.
- AuditRoundTrip.AuditedIsAllowed: URLs without whitespace, as the log holds them, ports 1 to 65535, and an ASCII notion of whitespace; other Unicode space is not modelled.
- AuditRules.GroupRequests: map keys joined by a tab are modelled as pairs.
- SummaryFit.FitStepSummary: sizes are UTF-8 lengths of characters of the basic plane and beyond; unpaired surrogates are not modelled.
- Real I/O, rsync, overlay mounts, ownership, signals and the process wrapper.
- The NSS database itself, homes and passwd lookups; choosing where stores and keystores are.
- The universal and detect frontends, and the TLS and address rules: they reuse the same language and add no harder property.
- The resolver's reverse, discovery and service zones.
- Markdown tables, timestamps, log classification and the table of requests left out.
