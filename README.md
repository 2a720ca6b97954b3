# Elivagar pre-ingest transfer, modelled in Dafny

Elivagar fetches e-books and audio books from Pubhub, characterizes them, and drops them into
one book directory per book identifier, under an ebook and an audio base directory. The
**pre-ingest transfer** runs over these book directories:

- A book that was never ingested is checked for readiness. The checks are:
  - the required formats are present;
  - each content file is old enough since its creation and since its last modification;
  - the publication date in the book's `.pubhub.xml` metadata file passes its threshold: the
    date plus the threshold lies after the current time.
- A ready book is copied whole into its ingest directory. Its transfer registry then gets the
  ingest date and a fingerprint (checksum, last-modified) of every content file.
- An ingested book is checked for updates. The content files that are new or changed since
  the registry's fingerprints go to the book's update-content directory. So do the FITS
  characterization files modified after the latest update (or the ingest). New MODS records
  go to the book's update-metadata directory.
- The copies are made in that order, and the first copy that fails stops the update. Content
  files that were copied keep their new fingerprints. The update date is stamped only when
  every copy succeeded.
- A registry from before fingerprints existed holds an ingest date and no fingerprint of any
  of the book's content files. For such a book, every content file first gets a baseline
  fingerprint, so it is not copied as an update. A registry that fingerprints some content
  file gets no baseline: a content file it has no entry for is new and is copied.

The model also covers the configurable file-suffix validator, used to classify book files when
computing statistics over the ebook and audio output directories, and the metadata file-suffix
constants.

Modules:

- `Strings`: `EndsWith` (Java's `String.endsWith`) and facts about it.
- `Constants`: the metadata suffixes and the facts that keep them apart.
- `SuffixValidator`: the class `FileSuffixValidator`.
- `TransferModel`: the values of the transfer (files, book directories, configuration,
  registry records, destination directories). It also holds the specification functions:
  - readiness: `ReadinessOf`;
  - change detection: `ContentFiles`, `NewFilesWithSuffix`, `NewContentFiles`;
  - one book's effect: `IngestEffect`, `UpdateEffect`, `ApplyUpdate`, `BookEffect`;
  - a whole base directory: `TransferAll`.
- `Registry`: the class `TransferRegistry`, the per-book registry whose fields the transfer
  updates in place.
- `FileSystem`: the class `Store`. It holds the destination directories, the paths where
  writes fail, and the persisted registries.
- `PreIngestTransfer`: the operations as methods over `Store` and `TransferRegistry`. Each
  is proved equal to its specification function.
- `BookProperties`, `RunProperties`: what the operations promise, as lemmas about the
  specification functions.

`PreIngestTransfer.java` and `TransferRegistry.java` are modelled from the assertions of
`PreIngestTransferTest.java`, and the rows below cite those test methods. Where the test's mock-interaction counts fix an order of
checks, the model keeps that order. `ReadyForIngest` reports which thresholds it read, and
its contract states the order.

For a book whose registry holds only an ingest date, the test at
`src/test/java/dk/kb/elivagar/transfer/PreIngestTransferTest.java:1043-1111` fixes what an
update does: the content file is not copied but gets a registry entry, while the FITS and
MODS files are copied. `RunProperties.LegacyRegistryUpgrade` states this.

The publication check runs the other way round from the create and modify checks. Those pass
a time stamp that lies at least the threshold before the current time. The publication check
passes a date that lies less than the threshold before it. Two tests fix this direction. At
`src/test/java/dk/kb/elivagar/transfer/PreIngestTransferTest.java:541-570` the threshold is the
current time and the book is ready. At lines 691-720 the same metadata with a threshold of
10000000 ms is not ready. `BookProperties.PublicationThresholdDecides` states the rule.

## Model

| member | source | states |
|---|---|---|
| Constants.MetadataSuffixValues | src/main/java/dk/kb/elivagar/Constants.java:11-22 | the six metadata suffixes are `.pubhub.xml`, `.fits.xml`, `.epubcheck.xml`, `.marc.xml`, `.aleph.xml`, `.mods.xml` |
| Constants.MetadataSuffixes | src/main/java/dk/kb/elivagar/Constants.java:9-22 | there are six metadata suffixes and every one ends with the XML suffix `.xml` |
| Constants.MetadataSuffixesUnambiguous | src/main/java/dk/kb/elivagar/Constants.java:11-22 | no metadata suffix ends with another (so a file name has at most one metadata kind) and all six are distinct |
| Constants.DottedXmlSuffixesNest | src/main/java/dk/kb/elivagar/Constants.java:11-22 | `.p.xml` ends with `.q.xml` for dot-free stems only when `p == q` |
| Constants.EpubIsNotMetadata | src/main/java/dk/kb/elivagar/Constants.java:9-25 | a file name ending with `.epub` ends with neither `.xml` nor any metadata suffix |
| SuffixValidator.FileSuffixValidator.constructor | src/main/java/dk/kb/elivagar/pubhub/validator/FileSuffixValidator.java:20-22 | the validator keeps exactly the given list of suffixes |
| SuffixValidator.ConstructorCopiesList | src/main/java/dk/kb/elivagar/pubhub/validator/FileSuffixValidator.java:20-22 | changing the caller's array after construction does not change the validator's suffixes |
| SuffixValidator.FileSuffixValidator.HasValidSuffix | src/main/java/dk/kb/elivagar/pubhub/validator/FileSuffixValidator.java:29-37 | a path is valid if and only if its extracted suffix ends with one of the configured suffixes |
| SuffixValidator.EmptyListRejects | src/main/java/dk/kb/elivagar/pubhub/validator/FileSuffixValidator.java:29-37 | a validator with no suffixes rejects every path |
| SuffixValidator.VerdictIgnoresOrderAndDuplicates | src/main/java/dk/kb/elivagar/pubhub/validator/FileSuffixValidator.java:29-37 | two validators whose suffix lists hold the same elements give the same verdict |
| SuffixValidator.MoreSuffixesAcceptMore | src/main/java/dk/kb/elivagar/pubhub/validator/FileSuffixValidator.java:29-37 | adding suffixes never rejects a path that was accepted |
| SuffixValidator.LongerSuffixAccepted | src/main/java/dk/kb/elivagar/pubhub/validator/FileSuffixValidator.java:29-37 | an `xml` validator accepts the suffix `fits.xml` (the end-of-string match, not equality) |
| SuffixValidator.EbookValidatorExamples | src/test/java/dk/kb/elivagar/pubhub/SuffixValidatorTest.java:26-37 | the `pdf`/`epub` validator accepts `epub` and `pdf` and rejects `xml`, `fits.xml`, `mp3` and the empty suffix |
| SuffixValidator.AudioValidatorExamples | src/test/java/dk/kb/elivagar/pubhub/SuffixValidatorTest.java:40-51 | the `mp3` validator accepts `mp3` and rejects `epub`, `pdf`, `xml`, `fits.xml` and the empty suffix |
| TransferModel.ContentFiles | src/test/java/dk/kb/elivagar/transfer/PreIngestTransferTest.java:934-956 | a file is a content file exactly when its name ends with one of the ebook or audio formats, and it keeps its data |
| TransferModel.NewFilesWithSuffix | src/test/java/dk/kb/elivagar/transfer/PreIngestTransferTest.java:959-1004 | a file is selected exactly when its name ends with one of the suffixes and it was modified strictly after the date |
| TransferModel.NewContentFiles | src/test/java/dk/kb/elivagar/transfer/PreIngestTransferTest.java:1007-1040 | a file is new or changed exactly when it is a content file and has no registry entry or one whose checksum differs |
| TransferModel.HasContentFileDate | src/test/java/dk/kb/elivagar/transfer/PreIngestTransferTest.java:809-898 | a file passes exactly when it passes both the create and the modify threshold (a negative threshold is off); the modify threshold is read only when the create check passed |
| TransferModel.LatestUpdateDate | src/test/java/dk/kb/elivagar/transfer/PreIngestTransferTest.java:395-416 | the reference date is the update date when there is one, else the ingest date, and is absent only when both are |
| TransferModel.PublicationReadiness | src/test/java/dk/kb/elivagar/transfer/PreIngestTransferTest.java:659-720 | with the check on, the verdict is an error exactly when the publication file is there and does not parse, and "ready" exactly when it holds a date that plus the threshold lies after the current time; with the check off it is "ready" |
| TransferModel.ReadinessOf | src/test/java/dk/kb/elivagar/transfer/PreIngestTransferTest.java:541-720 | a book is ready exactly when the required formats are present, every content file passes the age checks and the publication check says ready; a metadata error is reported only after the first two passed |
| TransferModel.WithBaseline | src/test/java/dk/kb/elivagar/transfer/PreIngestTransferTest.java:1043-1111 | when the registry fingerprints none of the content files, the baseline adds the current fingerprint of each; otherwise the registry is unchanged. Both dates and every existing entry are kept |
| Registry.TransferRegistry.Load | src/test/java/dk/kb/elivagar/transfer/PreIngestTransferTest.java:171-211 | a loaded registry holds exactly the persisted record |
| Registry.TransferRegistry.HasFileEntry | src/test/java/dk/kb/elivagar/transfer/PreIngestTransferTest.java:214-273 | a file has an entry exactly when its name is among the registry's entries |
| Registry.TransferRegistry.Verify | src/test/java/dk/kb/elivagar/transfer/PreIngestTransferTest.java:1007-1040 | a file verifies exactly when it has an entry and the entry's checksum is the file's; the modification time plays no part |
| Registry.TransferRegistry.GetIngestDate | src/test/java/dk/kb/elivagar/transfer/PreIngestTransferTest.java:131-168 | the registry reports its ingest date |
| Registry.TransferRegistry.GetLatestUpdateDate | src/test/java/dk/kb/elivagar/transfer/PreIngestTransferTest.java:214-273 | the registry reports the reference date `LatestUpdateDate` of its record |
| Registry.TransferRegistry.SetIngestDate | src/test/java/dk/kb/elivagar/transfer/PreIngestTransferTest.java:448-490 | sets the ingest date and changes nothing else |
| Registry.TransferRegistry.SetUpdateDate | src/test/java/dk/kb/elivagar/transfer/PreIngestTransferTest.java:214-273 | sets the update date and changes nothing else |
| Registry.TransferRegistry.SetChecksumAndDate | src/test/java/dk/kb/elivagar/transfer/PreIngestTransferTest.java:1043-1111 | records or replaces one file's fingerprint and changes nothing else |
| Registry.TransferRegistry.UpdateFileEntries | src/test/java/dk/kb/elivagar/transfer/PreIngestTransferTest.java:214-273 | after the loop the entries are the old ones overridden by the fingerprints of exactly the given files |
| FileSystem.Store.constructor | src/test/java/dk/kb/elivagar/transfer/PreIngestTransferTest.java:89-103 | the store starts in exactly the given state |
| FileSystem.Store.MakeDirectory | src/test/java/dk/kb/elivagar/transfer/PreIngestTransferTest.java:789-806 | creation succeeds exactly on a writable path; an existing directory keeps its files |
| FileSystem.Store.PutFile | src/test/java/dk/kb/elivagar/transfer/PreIngestTransferTest.java:789-806 | a write succeeds exactly on a writable path and adds or replaces that one file |
| FileSystem.Store.LoadRegistry | src/test/java/dk/kb/elivagar/transfer/PreIngestTransferTest.java:131-168 | the registry opened is the persisted one, or the empty record when none was persisted |
| FileSystem.Store.SaveRegistry | src/test/java/dk/kb/elivagar/transfer/PreIngestTransferTest.java:131-168 | persists the book's registry and changes no directory |
| PreIngestTransfer.ReadyForIngest | src/test/java/dk/kb/elivagar/transfer/PreIngestTransferTest.java:541-720 | the verdict is `ReadinessOf`. When a required format is missing, no threshold is read. The create threshold is read exactly when the formats are present and there is a content file. The publication threshold is read exactly when all earlier checks passed; the modify threshold only after a create check passed |
| PreIngestTransfer.CopyUpdatedFiles | src/test/java/dk/kb/elivagar/transfer/PreIngestTransferTest.java:789-806 | the copy succeeds exactly when the destination is writable, and then the destination holds its old files overridden by the copied ones; otherwise nothing changes |
| PreIngestTransfer.WriteFiles | src/test/java/dk/kb/elivagar/transfer/PreIngestTransferTest.java:789-806 | writing the files one at a time leaves the directories as `CopyInto` says |
| PreIngestTransfer.IngestBook | src/test/java/dk/kb/elivagar/transfer/PreIngestTransferTest.java:419-538 | registry, directories and outcome are those of `IngestEffect`, and the persisted registries are untouched |
| PreIngestTransfer.RegisterIngest | src/test/java/dk/kb/elivagar/transfer/PreIngestTransferTest.java:448-538 | the ingest date is stamped and each content file's fingerprint is recorded one file at a time, the entries ending as the old ones overridden by those fingerprints |
| PreIngestTransfer.UpdateBook | src/test/java/dk/kb/elivagar/transfer/PreIngestTransferTest.java:214-416 | registry, directories and outcome are those of `UpdateEffect`, and the persisted registries are untouched |
| PreIngestTransfer.FindNewContentFiles | src/test/java/dk/kb/elivagar/transfer/PreIngestTransferTest.java:214-273 | asking the registry `HasFileEntry` and `Verify` for each content file collects exactly `NewContentFiles`: the content files with no entry or a failing checksum |
| PreIngestTransfer.CopyUpdate | src/test/java/dk/kb/elivagar/transfer/PreIngestTransferTest.java:214-273 | the copies and the registry changes of one update are those of `ApplyUpdate`: content fingerprints are recorded once the content copy succeeded, the update date once all copies did |
| PreIngestTransfer.RegisterBaseline | src/test/java/dk/kb/elivagar/transfer/PreIngestTransferTest.java:1043-1111 | the registry becomes `WithBaseline` of its old record |
| PreIngestTransfer.TransferBook | src/test/java/dk/kb/elivagar/transfer/PreIngestTransferTest.java:89-211 | processing the base directory in order yields the state and outcomes of `TransferAll` |
| BookProperties.MissingRequiredFormatNotReady | src/test/java/dk/kb/elivagar/transfer/PreIngestTransferTest.java:603-623 | a missing required format makes the book not ready, whatever else holds |
| BookProperties.RequiredFitsMissingNotReady | src/test/java/dk/kb/elivagar/transfer/PreIngestTransferTest.java:603-623 | with `pdf` and `fits.xml` required, a book with only a pdf and its pubhub file is not ready |
| BookProperties.HasRequiredFileExample | src/test/java/dk/kb/elivagar/transfer/PreIngestTransferTest.java:723-736 | a `.suffix` file satisfies the requirement `.suffix` and not `.notSuffix` |
| BookProperties.SingleFileRequired | src/test/java/dk/kb/elivagar/transfer/PreIngestTransferTest.java:723-736 | `HasRequiredFile`: a one-file directory has a required suffix exactly when that file's name ends with it |
| BookProperties.NoChecksReady | src/test/java/dk/kb/elivagar/transfer/PreIngestTransferTest.java:573-600 | with no required formats and every threshold off, every book is ready |
| BookProperties.TooRecentlyCreatedNotReady | src/test/java/dk/kb/elivagar/transfer/PreIngestTransferTest.java:626-656 | one content file created too recently makes the book not ready |
| BookProperties.MissingPublicationFileNotReady | src/test/java/dk/kb/elivagar/transfer/PreIngestTransferTest.java:659-688 | with the publication check on, a book without its `.pubhub.xml` file is not ready |
| BookProperties.UnparsablePublicationFileMalformed | src/test/java/dk/kb/elivagar/transfer/PreIngestTransferTest.java:924-931 | when the publication file does not parse and the earlier checks passed, the verdict is an error, not "not ready" |
| BookProperties.PublicationThresholdDecides | src/test/java/dk/kb/elivagar/transfer/PreIngestTransferTest.java:691-720 | once the formats and content dates pass and the publication check is on, a book whose metadata holds date d is ready exactly when d plus the threshold lies after the current time, and otherwise not ready (as 541-570 and 691-720 both show) |
| BookProperties.ReadyImpliesChecksPassed | src/test/java/dk/kb/elivagar/transfer/PreIngestTransferTest.java:541-570 | a ready book has every required format, and every content file passes both age thresholds |
| BookProperties.ContentDatesStayOk | src/test/java/dk/kb/elivagar/transfer/PreIngestTransferTest.java:809-898 | content files that pass the age checks now still pass them at any later time |
| BookProperties.FreshFileDateChecks | src/test/java/dk/kb/elivagar/transfer/PreIngestTransferTest.java:809-898 | for a freshly written file: it passes with the checks off and with zero thresholds. A too-new creation fails after reading only the create threshold. A too-new modification fails after reading both thresholds |
| BookProperties.ContentFilesAre | src/test/java/dk/kb/elivagar/transfer/PreIngestTransferTest.java:934-956 | the content files are exactly the files whose names end with a format |
| BookProperties.ContentFilesExample | src/test/java/dk/kb/elivagar/transfer/PreIngestTransferTest.java:934-956 | of a `.tif`, an `.mp3` and a `.suffix` file, with formats tif/pdf and mp3/wav, the first two are content files |
| BookProperties.NewFilesWithSuffixExamples | src/test/java/dk/kb/elivagar/transfer/PreIngestTransferTest.java:959-1004 | a pdf modified after the date is selected; one modified before it is not; a file with the wrong suffix is not |
| BookProperties.NewContentFilesExample | src/test/java/dk/kb/elivagar/transfer/PreIngestTransferTest.java:1007-1040 | of a changed `.tif` and an unchanged `.mp3`, only the `.tif` is new |
| BookProperties.OnlyChangedIsNew | src/test/java/dk/kb/elivagar/transfer/PreIngestTransferTest.java:1007-1040 | of two content files, the one that fails verification is the only new one |
| BookProperties.DestinationsPerBook | src/test/java/dk/kb/elivagar/transfer/PreIngestTransferTest.java:739-786 | `IngestDir`, `UpdateContentDir` and `UpdateMetadataDir` are the configured ingest, update-content and update-metadata root for the book type plus "/" and the book's name; different books get different destinations |
| BookProperties.CopyAddsExactly | src/test/java/dk/kb/elivagar/transfer/PreIngestTransferTest.java:789-806 | a copy adds exactly the copied names with the copied data, keeps the destination's other files and touches no other directory |
| BookProperties.RecopyAddsNoFiles | src/test/java/dk/kb/elivagar/transfer/PreIngestTransferTest.java:276-355 | copying files that are already at the destination leaves its file count unchanged |
| BookProperties.IngestOnlyWhenReady | src/test/java/dk/kb/elivagar/transfer/PreIngestTransferTest.java:419-445 | a book is ingested exactly when it is ready and its ingest directory is writable; otherwise registry and directories are unchanged |
| BookProperties.IngestCopiesWholeBook | src/test/java/dk/kb/elivagar/transfer/PreIngestTransferTest.java:448-538 | a successful ingest creates the ingest directory holding every file of the book. It stamps the ingest date and fingerprints every content file |
| BookProperties.IngestSucceeded | src/test/java/dk/kb/elivagar/transfer/PreIngestTransferTest.java:448-490 | an ingest succeeds only for a ready book with a writable destination, and then has the full copy-and-stamp effect |
| BookProperties.UpdateWithoutDateDoesNothing | src/test/java/dk/kb/elivagar/transfer/PreIngestTransferTest.java:395-416 | a registry with neither an ingest nor an update date makes the update do nothing |
| BookProperties.ApplyUpdateCommits | src/test/java/dk/kb/elivagar/transfer/PreIngestTransferTest.java:171-211 | on success the registry gets the update date and the copied content's fingerprints. A failed content copy changes no registry entry. A failure after the content copy keeps the copied content's fingerprints and stamps no date. "No changes" means exactly that nothing was new, and then nothing changes. Failure means exactly that a needed destination is not writable |
| BookProperties.ApplyUpdateKeepsCopiedContent | src/test/java/dk/kb/elivagar/transfer/PreIngestTransferTest.java:171-211 | once changed content went to a writable content directory, the update ends updated or failed with that content and the new FITS files in the directory and the content's fingerprints recorded |
| BookProperties.ApplyUpdateIgnoresDirs | src/test/java/dk/kb/elivagar/transfer/PreIngestTransferTest.java:276-355 | the outcome and the new registry of an update do not depend on what the destinations already hold |
| BookProperties.UpdateRouting | src/test/java/dk/kb/elivagar/transfer/PreIngestTransferTest.java:214-273 | after a successful update, the content directory has gained the changed content and the new FITS files, and the metadata directory the new MODS files. No other directory changed. The registry has the update date and the new fingerprints |
| BookProperties.BaselineSettlesContent | src/test/java/dk/kb/elivagar/transfer/PreIngestTransferTest.java:1043-1111 | after the baseline of a registry that fingerprints no content file, every content file verifies and none is new; for any other registry the new content files are the same as without the baseline |
| BookProperties.BookEffectSparesReadOnly | src/test/java/dk/kb/elivagar/transfer/PreIngestTransferTest.java:171-211 | processing a book never changes a read-only directory |
| BookProperties.ApplyUpdateSparesReadOnly | src/test/java/dk/kb/elivagar/transfer/PreIngestTransferTest.java:171-211 | no copy of an update changes a read-only directory |
| BookProperties.ThreeCopiesLand | src/test/java/dk/kb/elivagar/transfer/PreIngestTransferTest.java:214-273 | the three copies of an update leave each destination with exactly its routed files added |
| RunProperties.BookEffectKeepsWellFormed | src/test/java/dk/kb/elivagar/transfer/PreIngestTransferTest.java:131-168 | processing a book keeps the ingest date no later than the update date, and stamps the current time |
| RunProperties.BookEffectIgnoresDirs | src/test/java/dk/kb/elivagar/transfer/PreIngestTransferTest.java:131-168 | a book's outcome and registry do not depend on the destination directories' contents |
| RunProperties.SettledBookHasNoChanges | src/test/java/dk/kb/elivagar/transfer/PreIngestTransferTest.java:358-392 | an ingested book whose content verifies and whose metadata is not newer reports no changes and changes nothing |
| RunProperties.SecondRunFindsNothing | src/test/java/dk/kb/elivagar/transfer/PreIngestTransferTest.java:358-392 | processing an unchanged book again after a successful run reports no changes and changes nothing |
| RunProperties.IngestLeavesBookSettled | src/test/java/dk/kb/elivagar/transfer/PreIngestTransferTest.java:448-490 | after a successful ingest every content file verifies and no metadata is newer than the reference date |
| RunProperties.UpdateLeavesBookSettled | src/test/java/dk/kb/elivagar/transfer/PreIngestTransferTest.java:214-273 | after a successful update every content file verifies and no metadata is newer than the reference date |
| RunProperties.CommitVerifies | src/test/java/dk/kb/elivagar/transfer/PreIngestTransferTest.java:214-273 | once the changed content is fingerprinted, every content file verifies |
| RunProperties.NothingNewSince | src/test/java/dk/kb/elivagar/transfer/PreIngestTransferTest.java:358-392 | no FITS or MODS file is new when no file was modified after the date |
| RunProperties.SecondTransferLeavesWorldUnchanged | src/test/java/dk/kb/elivagar/transfer/PreIngestTransferTest.java:131-168 | transferring an unchanged book a second time leaves the whole state unchanged and reports no changes |
| RunProperties.FutureReferenceDateLeavesWorldUnchanged | src/test/java/dk/kb/elivagar/transfer/PreIngestTransferTest.java:131-168 | a book whose files all predate its registry's reference date and verify is left alone |
| RunProperties.LegacyRegistryUpgrade | src/test/java/dk/kb/elivagar/transfer/PreIngestTransferTest.java:1043-1111 | a book with a registry holding only an ingest date is updated. Its FITS file goes to the content directory and its MODS file to the metadata directory. The pdf is not copied but gets its fingerprint. The update date is later than the ingest date |
| RunProperties.LegacyBaseline | src/test/java/dk/kb/elivagar/transfer/PreIngestTransferTest.java:1043-1111 | the legacy baseline fingerprints the pdf, after which no content file is new |
| RunProperties.MetadataOnlyUpdate | src/test/java/dk/kb/elivagar/transfer/PreIngestTransferTest.java:1043-1111 | an update with only one new FITS and one new MODS file copies each to its directory and stamps only the update date |
| RunProperties.LegacyBookFiles | src/test/java/dk/kb/elivagar/transfer/PreIngestTransferTest.java:1043-1111 | in the legacy book the pdf is the only content file, and the FITS and MODS files are the new metadata |
| RunProperties.UnreadyBookLeavesWorldUnchanged | src/test/java/dk/kb/elivagar/transfer/PreIngestTransferTest.java:106-128 | with `pdf` and `suffix` required, a never-ingested book holding only its pdf is reported not yet ready and nothing changes |
| RunProperties.UnregisteredContentIsCopied | src/test/java/dk/kb/elivagar/transfer/PreIngestTransferTest.java:214-273 | a content file that a fingerprinting registry has no entry for is new after the baseline; the update does not report no changes; with a writable update-content directory it lands there and gets its fingerprint, even when the metadata copy fails |
| RunProperties.BookStep | src/test/java/dk/kb/elivagar/transfer/PreIngestTransferTest.java:106-211 | one book's step reports the book's outcome, stores its registry and leaves every other registry as it was |
| RunProperties.TransferAllSparesReadOnly | src/test/java/dk/kb/elivagar/transfer/PreIngestTransferTest.java:89-211 | a run keeps the read-only paths and writes none of them |
| RunProperties.TransferAllPerBook | src/test/java/dk/kb/elivagar/transfer/PreIngestTransferTest.java:89-211 | over a base directory of distinct books, each entry's outcome and registry are what processing it alone gives; plain files are skipped; other registries are untouched; no read-only directory is written |

## Left out

- The suffix extraction of a path (`getSuffix`) is a parameter of `HasValidSuffix`; the model states the verdict for any extraction.
- Parsing of the publisher metadata XML and of its date is not modelled. `Env.findPublicationDate` returns a date, no date, or a parse error.
- Checksums are integers carried by each file; MD5 computation and file contents are not modelled.
- Real file-system I/O, the registry's on-disk format and exceptions are not modelled. A destination path listed as read-only makes its copy fail, and the failure is an outcome (`Failed(IoError)`); the run goes on with the next entry.
- How often the configuration is read, as counted by the tests' mocks, is kept only as the set of retention thresholds `ReadyForIngest` consults.
- `transferReadyBooks`, which calls `transferBook` on the ebook and then the audio base directory, is not modelled beyond `TransferBook` on one base directory.
- Metadata files other than FITS and MODS (pubhub, epubcheck, MARC, Aleph) are never routed to an update directory.
- In an update (`ApplyUpdate`), a copy with no files is skipped and does not create its destination directory; an ingest always copies the whole book directory.
- `NewContentFiles` does not filter content files by a "modified after" date: a content file is new exactly when it fails verification against the registry, as the test at PreIngestTransferTest.java:1007-1040 shows.
- `WithBaseline` decides "from before fingerprints existed" by the book's current content files, not by the registry having no entries at all. A registry that fingerprints only files no longer in the book therefore gets a baseline, and content that replaced them under new names is fingerprinted instead of copied as an update. No test fixes this case either way.
- A `.pubhub.xml` file that does not parse makes the book fail with `Failed(BadMetadata)`; nothing is copied or stamped, and the run goes on with the next entry. The exception the parser raises is not modelled.
- Book directories are flat maps from file name to file: the recursive copy of sub-directories is not modelled.
- `PubhubWorkflow` and `PubhubCharacterizationScriptWrapper` are not part of this model: they drive downloads and external characterization scripts.
- Times are unbounded integers (milliseconds); the 64-bit range of Java's `long` is not modelled.
