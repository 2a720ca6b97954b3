/** Properties of whole transfer runs: the registry invariant, idempotence of a second run,
    the legacy-registry upgrade, and the independence of the books of one base directory. */
module RunProperties {
  import opened Strings
  import opened Constants
  import opened TransferModel
  import BookProperties

  /** A registry records an update only after an ingest, and not before it. */
  predicate WellFormed(rec: RegistryRecord) {
    rec.updateDate.Some? ==> rec.ingestDate.Some? && rec.ingestDate.value <= rec.updateDate.value
  }

  /** Processing a book keeps its registry well formed when the current time is not before the
      registry's latest date; an ingest or update stamps the current time. */
  lemma BookEffectKeepsWellFormed(cfg: Config, env: Env, kind: BookType, book: BookDir,
                                  rec: RegistryRecord, dirs: Dirs, readOnly: set<string>)
    requires WellFormed(rec)
    requires LatestUpdateDate(rec).Some? ==> LatestUpdateDate(rec).value <= env.now
    ensures var e := BookEffect(cfg, env, kind, book, rec, dirs, readOnly);
      WellFormed(e.rec) &&
      (e.outcome == Ingested ==> e.rec.ingestDate == Some(env.now)) &&
      (e.outcome == Updated ==> e.rec.updateDate == Some(env.now))
  {
    if rec.ingestDate.None? {
      BookProperties.IngestOnlyWhenReady(cfg, env, kind, book, rec, dirs, readOnly);
    } else {
      var base := WithBaseline(cfg, book.files, rec);
      var since := LatestUpdateDate(base).value;
      BookProperties.ApplyUpdateCommits(env.now, base, dirs, readOnly,
        NewContentFiles(cfg, book.files, base), NewFitsFiles(book.files, since), NewModsFiles(book.files, since),
        UpdateContentDir(cfg, kind, book), UpdateMetadataDir(cfg, kind, book));
      assert rec.ingestDate.value <= env.now;
    }
  }

  /** The outcome and the registry a book ends with do not depend on the destination
      directories' contents, only on which of them can be written. */
  lemma BookEffectIgnoresDirs(cfg: Config, env: Env, kind: BookType, book: BookDir,
                              rec: RegistryRecord, dirs: Dirs, other: Dirs, readOnly: set<string>)
    ensures BookEffect(cfg, env, kind, book, rec, dirs, readOnly).outcome ==
            BookEffect(cfg, env, kind, book, rec, other, readOnly).outcome
    ensures BookEffect(cfg, env, kind, book, rec, dirs, readOnly).rec ==
            BookEffect(cfg, env, kind, book, rec, other, readOnly).rec
  {
    if rec.ingestDate.Some? {
      var base := WithBaseline(cfg, book.files, rec);
      var since := LatestUpdateDate(base).value;
      BookProperties.ApplyUpdateIgnoresDirs(env.now, base, dirs, other, readOnly,
        NewContentFiles(cfg, book.files, base), NewFitsFiles(book.files, since), NewModsFiles(book.files, since),
        UpdateContentDir(cfg, kind, book), UpdateMetadataDir(cfg, kind, book));
    }
  }

  // ---------------------------------------------------------------------------------------
  // Idempotence

  /** A book whose registry has a reference date, whose content files all verify against
      their entries and which has no FITS or MODS file newer than that date has nothing to
      update: neither the registry nor any directory changes. */
  lemma SettledBookHasNoChanges(cfg: Config, env: Env, kind: BookType, book: BookDir,
                                rec: RegistryRecord, dirs: Dirs, readOnly: set<string>)
    requires rec.ingestDate.Some?
    requires forall n :: n in ContentFiles(cfg, book.files) ==> VerifyFile(rec, n, book.files[n])
    requires NewFitsFiles(book.files, LatestUpdateDate(rec).value) == map[]
    requires NewModsFiles(book.files, LatestUpdateDate(rec).value) == map[]
    ensures BookEffect(cfg, env, kind, book, rec, dirs, readOnly) == Effect(rec, dirs, NoChanges)
  {
    var content := ContentFiles(cfg, book.files);
    assert Fingerprints(content) + rec.entries == rec.entries;
    assert WithBaseline(cfg, book.files, rec) == rec;
    assert NewContentFiles(cfg, book.files, rec) == map[];
  }

  /** A book processed at time `env.now`, none of whose files is newer than that, has nothing
      left to do on the next run: whatever the first run did (ingest, update, or nothing), the
      second one reports no changes and changes neither the registry nor any directory. */
  lemma SecondRunFindsNothing(cfg: Config, env: Env, next: Env, kind: BookType, book: BookDir,
                              rec: RegistryRecord, dirs: Dirs, readOnly: set<string>)
    requires WellFormed(rec)
    requires forall n :: n in book.files ==> book.files[n].mtime <= env.now
    requires BookEffect(cfg, env, kind, book, rec, dirs, readOnly).outcome in {Ingested, Updated, NoChanges}
    ensures var e := BookEffect(cfg, env, kind, book, rec, dirs, readOnly);
      BookEffect(cfg, next, kind, book, e.rec, e.dirs, readOnly) == Effect(e.rec, e.dirs, NoChanges)
  {
    if rec.ingestDate.None? {
      IngestLeavesBookSettled(cfg, env, kind, book, rec, dirs, readOnly);
    } else {
      UpdateLeavesBookSettled(cfg, env, kind, book, rec, dirs, readOnly);
    }
    var e := BookEffect(cfg, env, kind, book, rec, dirs, readOnly);
    SettledBookHasNoChanges(cfg, next, kind, book, e.rec, e.dirs, readOnly);
  }

  /** The registry has a reference date, every content file verifies against it and no FITS
      or MODS file is newer than that date. */
  predicate Settled(cfg: Config, files: Dir, rec: RegistryRecord) {
    rec.ingestDate.Some? &&
    (forall n :: n in ContentFiles(cfg, files) ==> VerifyFile(rec, n, files[n])) &&
    NewFitsFiles(files, LatestUpdateDate(rec).value) == map[] &&
    NewModsFiles(files, LatestUpdateDate(rec).value) == map[]
  }

  /** A successful ingest at `env.now` of a book with no file newer than that settles it. */
  lemma IngestLeavesBookSettled(cfg: Config, env: Env, kind: BookType, book: BookDir,
                                rec: RegistryRecord, dirs: Dirs, readOnly: set<string>)
    requires WellFormed(rec) && rec.ingestDate.None?
    requires forall n :: n in book.files ==> book.files[n].mtime <= env.now
    requires BookEffect(cfg, env, kind, book, rec, dirs, readOnly).outcome in {Ingested, Updated, NoChanges}
    ensures Settled(cfg, book.files, BookEffect(cfg, env, kind, book, rec, dirs, readOnly).rec)
  {
    var e := IngestEffect(cfg, env, kind, book, rec, dirs, readOnly);
    assert e == BookEffect(cfg, env, kind, book, rec, dirs, readOnly);
    BookProperties.IngestSucceeded(cfg, env, kind, book, rec, dirs, readOnly);
    BookProperties.FingerprintsMerge(rec.entries, ContentFiles(cfg, book.files));
    assert LatestUpdateDate(e.rec) == Some(env.now);
    NothingNewSince(book.files, env.now);
  }

  /** An update at `env.now` that did not fail, of a book with no file newer than that,
      settles it. */
  lemma UpdateLeavesBookSettled(cfg: Config, env: Env, kind: BookType, book: BookDir,
                                rec: RegistryRecord, dirs: Dirs, readOnly: set<string>)
    requires WellFormed(rec) && rec.ingestDate.Some?
    requires forall n :: n in book.files ==> book.files[n].mtime <= env.now
    requires BookEffect(cfg, env, kind, book, rec, dirs, readOnly).outcome in {Ingested, Updated, NoChanges}
    ensures Settled(cfg, book.files, BookEffect(cfg, env, kind, book, rec, dirs, readOnly).rec)
  {
    var content := ContentFiles(cfg, book.files);
    var base := WithBaseline(cfg, book.files, rec);
    var since := LatestUpdateDate(base).value;
    var changed := NewContentFiles(cfg, book.files, base);
    var fits := NewFitsFiles(book.files, since);
    var mods := NewModsFiles(book.files, since);
    var e := ApplyUpdate(env.now, base, dirs, readOnly, changed, fits, mods,
                         UpdateContentDir(cfg, kind, book), UpdateMetadataDir(cfg, kind, book));
    assert e == BookEffect(cfg, env, kind, book, rec, dirs, readOnly);
    BookProperties.ApplyUpdateCommits(env.now, base, dirs, readOnly, changed, fits, mods,
      UpdateContentDir(cfg, kind, book), UpdateMetadataDir(cfg, kind, book));
    if e.outcome == Updated {
      CommitVerifies(cfg, book.files, base, env.now);
      assert LatestUpdateDate(e.rec) == Some(env.now);
      NothingNewSince(book.files, env.now);
    } else {
      assert changed == map[] && fits == map[] && mods == map[];
      forall n | n in content ensures VerifyFile(e.rec, n, book.files[n]) {
        assert n !in changed;
      }
    }
  }

  /** After the changed content files are fingerprinted, every content file verifies. */
  lemma CommitVerifies(cfg: Config, files: Dir, base: RegistryRecord, now: int)
    ensures var committed := base.(updateDate := Some(now),
                                   entries := base.entries + Fingerprints(NewContentFiles(cfg, files, base)));
      forall n :: n in ContentFiles(cfg, files) ==> VerifyFile(committed, n, files[n])
  {
    var changed := NewContentFiles(cfg, files, base);
    BookProperties.FingerprintsMerge(base.entries, changed);
    forall n | n in ContentFiles(cfg, files) && n !in changed ensures VerifyFile(base, n, files[n]) {
    }
  }

  /** No file modified at or before `date` is new with respect to it. */
  lemma NothingNewSince(files: Dir, date: int)
    requires forall n :: n in files ==> files[n].mtime <= date
    ensures NewFitsFiles(files, date) == map[] && NewModsFiles(files, date) == map[]
  {
  }

  /** The same book transferred twice: the second transfer leaves the world as the first left
      it, so the persisted registry is not even rewritten. */
  lemma SecondTransferLeavesWorldUnchanged(cfg: Config, env: Env, next: Env, kind: BookType,
                                           w: World, book: BookDir)
    requires WellFormed(RegistryOf(w.registries, book.name))
    requires forall n :: n in book.files ==> book.files[n].mtime <= env.now
    requires TransferEntry(cfg, env, kind, w, BookDirectory(book)).outcomes[0] in {Ingested, Updated, NoChanges}
    ensures var first := TransferEntry(cfg, env, kind, w, BookDirectory(book));
      TransferEntry(cfg, next, kind, first.world, BookDirectory(book)) == Run(first.world, [NoChanges])
  {
    var rec := RegistryOf(w.registries, book.name);
    var e := BookEffect(cfg, env, kind, book, rec, w.dirs, w.readOnly);
    var first := TransferEntry(cfg, env, kind, w, BookDirectory(book));
    assert RegistryOf(first.world.registries, book.name) == e.rec;
    SecondRunFindsNothing(cfg, env, next, kind, book, rec, w.dirs, w.readOnly);
    assert first.world.(dirs := e.dirs) == first.world;
  }

  /** A registry with a reference date later than every file of the book, and fingerprints
      matching every content file, makes a transfer a no-op that leaves the persisted registry
      as it was. */
  lemma FutureReferenceDateLeavesWorldUnchanged(cfg: Config, env: Env, kind: BookType, w: World, book: BookDir)
    requires RegistryOf(w.registries, book.name).ingestDate.Some?
    requires forall n :: n in book.files ==>
      book.files[n].mtime < LatestUpdateDate(RegistryOf(w.registries, book.name)).value
    requires forall n :: n in ContentFiles(cfg, book.files) ==>
      VerifyFile(RegistryOf(w.registries, book.name), n, book.files[n])
    ensures TransferEntry(cfg, env, kind, w, BookDirectory(book)) == Run(w, [NoChanges])
  {
    var rec := RegistryOf(w.registries, book.name);
    NothingNewSince(book.files, LatestUpdateDate(rec).value);
    SettledBookHasNoChanges(cfg, env, kind, book, rec, w.dirs, w.readOnly);
  }

  // ---------------------------------------------------------------------------------------
  // Legacy registries

  /** A registry written before fingerprints existed, holding only an ingest date, for an
      ebook with a pdf, a FITS and a MODS file all newer than that date: the book is not
      ingested again; the FITS file goes to the update-content directory and the MODS file to
      the update-metadata directory; the pdf is not copied anywhere but gets a registry entry;
      and the update date ends up after the ingest date. */
  lemma LegacyRegistryUpgrade(cfg: Config, env: Env, id: string, pdf: FileInfo, fits: FileInfo,
                              mods: FileInfo, ingested: int, dirs: Dirs, readOnly: set<string>)
    requires cfg.ebookFormats == ["pdf"] && cfg.audioFormats == ["mp3"]
    requires ingested < fits.mtime && ingested < mods.mtime && ingested < env.now
    requires UpdateContentDir(cfg, Ebook, BookDir(id, map[])) != UpdateMetadataDir(cfg, Ebook, BookDir(id, map[]))
    requires UpdateContentDir(cfg, Ebook, BookDir(id, map[])) !in readOnly
    requires UpdateMetadataDir(cfg, Ebook, BookDir(id, map[])) !in readOnly
    ensures var book := BookDir(id, map[id + ".pdf" := pdf, id + FITS_METADATA_SUFFIX := fits,
                                        id + MODS_METADATA_SUFFIX := mods]);
      var cdir := UpdateContentDir(cfg, Ebook, book);
      var mdir := UpdateMetadataDir(cfg, Ebook, book);
      var e := BookEffect(cfg, env, Ebook, book, RegistryRecord(Some(ingested), None, map[]), dirs, readOnly);
      e.outcome == Updated &&
      e.dirs == dirs[cdir := DirAt(dirs, cdir)[id + FITS_METADATA_SUFFIX := fits]]
                    [mdir := DirAt(dirs, mdir)[id + MODS_METADATA_SUFFIX := mods]] &&
      e.rec == RegistryRecord(Some(ingested), Some(env.now), map[id + ".pdf" := Fingerprint(pdf)]) &&
      e.rec.ingestDate.value < e.rec.updateDate.value
  {
    var files := map[id + ".pdf" := pdf, id + ".fits.xml" := fits, id + ".mods.xml" := mods];
    var book := BookDir(id, files);
    var rec := RegistryRecord(Some(ingested), None, map[]);
    var base := RegistryRecord(Some(ingested), None, map[id + ".pdf" := Fingerprint(pdf)]);
    LegacyBaseline(cfg, id, pdf, fits, mods, ingested);
    LegacyBookFiles(cfg, id, pdf, fits, mods, ingested);
    assert FITS_METADATA_SUFFIX == ".fits.xml" && MODS_METADATA_SUFFIX == ".mods.xml";
    var cdir := UpdateContentDir(cfg, Ebook, book);
    var mdir := UpdateMetadataDir(cfg, Ebook, book);
    assert cdir == UpdateContentDir(cfg, Ebook, BookDir(id, map[]));
    assert mdir == UpdateMetadataDir(cfg, Ebook, BookDir(id, map[]));
    assert BookEffect(cfg, env, Ebook, book, rec, dirs, readOnly) == UpdateEffect(cfg, env.now, Ebook, book, base, dirs, readOnly);
    assert LatestUpdateDate(base) == Some(ingested);
    assert UpdateEffect(cfg, env.now, Ebook, book, base, dirs, readOnly) ==
      ApplyUpdate(env.now, base, dirs, readOnly, map[], map[id + ".fits.xml" := fits],
                  map[id + ".mods.xml" := mods], cdir, mdir);
    MetadataOnlyUpdate(env.now, base, dirs, readOnly, id + ".fits.xml", fits, id + ".mods.xml", mods, cdir, mdir);
  }

  /** The baseline registers the pdf's current fingerprint, so the pdf is not a changed file. */
  lemma LegacyBaseline(cfg: Config, id: string, pdf: FileInfo, fits: FileInfo, mods: FileInfo, ingested: int)
    requires cfg.ebookFormats == ["pdf"] && cfg.audioFormats == ["mp3"]
    ensures var files := map[id + ".pdf" := pdf, id + ".fits.xml" := fits, id + ".mods.xml" := mods];
      var base := WithBaseline(cfg, files, RegistryRecord(Some(ingested), None, map[]));
      base == RegistryRecord(Some(ingested), None, map[id + ".pdf" := Fingerprint(pdf)]) &&
      NewContentFiles(cfg, files, base) == map[]
  {
    var files := map[id + ".pdf" := pdf, id + ".fits.xml" := fits, id + ".mods.xml" := mods];
    LegacyContent(cfg, id, pdf, fits, mods);
    var base := WithBaseline(cfg, files, RegistryRecord(Some(ingested), None, map[]));
    assert base.entries == map[id + ".pdf" := Fingerprint(pdf)];
    var changed := NewContentFiles(cfg, files, base);
    assert forall n :: n in changed ==> n == id + ".pdf";
  }

  /** An update with no changed content file, one new FITS file and one new MODS file, both
      destinations writable, copies each to its directory and stamps the update date. */
  lemma MetadataOnlyUpdate(now: int, rec: RegistryRecord, dirs: Dirs, readOnly: set<string>,
                           fitsName: string, fits: FileInfo, modsName: string, mods: FileInfo,
                           cdir: string, mdir: string)
    requires cdir != mdir && cdir !in readOnly && mdir !in readOnly
    ensures ApplyUpdate(now, rec, dirs, readOnly, map[], map[fitsName := fits], map[modsName := mods], cdir, mdir)
      == Effect(rec.(updateDate := Some(now)),
                dirs[cdir := DirAt(dirs, cdir)[fitsName := fits]][mdir := DirAt(dirs, mdir)[modsName := mods]],
                Updated)
  {
    assert fitsName in map[fitsName := fits] && modsName in map[modsName := mods];
    var dirs2 := CopyInto(dirs, map[fitsName := fits], cdir);
    assert DirAt(dirs, cdir) + map[fitsName := fits] == DirAt(dirs, cdir)[fitsName := fits];
    assert DirAt(dirs2, mdir) == DirAt(dirs, mdir);
    assert DirAt(dirs, mdir) + map[modsName := mods] == DirAt(dirs, mdir)[modsName := mods];
    assert rec.entries + Fingerprints(map[]) == rec.entries;
  }

  /** The files of the legacy book: three distinct names, of which only the pdf is a content
      file, only the FITS file is new with the FITS suffix and only the MODS file with the
      MODS suffix. */
  lemma LegacyBookFiles(cfg: Config, id: string, pdf: FileInfo, fits: FileInfo, mods: FileInfo, ingested: int)
    requires cfg.ebookFormats == ["pdf"] && cfg.audioFormats == ["mp3"]
    requires ingested < fits.mtime && ingested < mods.mtime
    ensures var files := map[id + ".pdf" := pdf, id + ".fits.xml" := fits, id + ".mods.xml" := mods];
      ContentFiles(cfg, files) == map[id + ".pdf" := pdf] &&
      NewFitsFiles(files, ingested) == map[id + ".fits.xml" := fits] &&
      NewModsFiles(files, ingested) == map[id + ".mods.xml" := mods]
  {
    LegacyNamesDistinct(id);
    LegacyContent(cfg, id, pdf, fits, mods);
    LegacyNewMetadata(id, pdf, fits, mods, ingested);
  }

  lemma LegacyNamesDistinct(id: string)
    ensures id + ".pdf" != id + ".fits.xml" && id + ".pdf" != id + ".mods.xml"
    ensures id + ".fits.xml" != id + ".mods.xml"
  {
    assert (id + ".fits.xml")[|id| + 1] == 'f' && (id + ".mods.xml")[|id| + 1] == 'm';
  }

  lemma LegacyContent(cfg: Config, id: string, pdf: FileInfo, fits: FileInfo, mods: FileInfo)
    requires cfg.ebookFormats == ["pdf"] && cfg.audioFormats == ["mp3"]
    ensures ContentFiles(cfg, map[id + ".pdf" := pdf, id + ".fits.xml" := fits, id + ".mods.xml" := mods])
            == map[id + ".pdf" := pdf]
  {
    var files := map[id + ".pdf" := pdf, id + ".fits.xml" := fits, id + ".mods.xml" := mods];
    var formats := cfg.ebookFormats + cfg.audioFormats;
    assert formats == ["pdf", "mp3"];
    LegacyNamesDistinct(id);
    EndsWithAppended(id, ".pdf", "pdf");
    assert ".pdf"[1..] == "pdf";
    assert "pdf" in formats && EndsWith(id + ".pdf", "pdf");
    assert (id + ".fits.xml")[|id| + 8] == 'l' && (id + ".mods.xml")[|id| + 8] == 'l';
    LastCharDiffers(id + ".fits.xml", "pdf");
    LastCharDiffers(id + ".fits.xml", "mp3");
    LastCharDiffers(id + ".mods.xml", "pdf");
    LastCharDiffers(id + ".mods.xml", "mp3");
    BookProperties.ContentFilesAre(cfg, files, map[id + ".pdf" := pdf]);
  }

  lemma LegacyNewMetadata(id: string, pdf: FileInfo, fits: FileInfo, mods: FileInfo, ingested: int)
    requires ingested < fits.mtime && ingested < mods.mtime
    ensures var files := map[id + ".pdf" := pdf, id + ".fits.xml" := fits, id + ".mods.xml" := mods];
      NewFitsFiles(files, ingested) == map[id + ".fits.xml" := fits] &&
      NewModsFiles(files, ingested) == map[id + ".mods.xml" := mods]
  {
    LegacyNewFits(id, pdf, fits, mods, ingested);
    LegacyNewMods(id, pdf, fits, mods, ingested);
  }

  lemma LegacyNewFits(id: string, pdf: FileInfo, fits: FileInfo, mods: FileInfo, ingested: int)
    requires ingested < fits.mtime
    ensures NewFitsFiles(map[id + ".pdf" := pdf, id + ".fits.xml" := fits, id + ".mods.xml" := mods], ingested)
            == map[id + ".fits.xml" := fits]
  {
    LegacyNamesDistinct(id);
    LegacySuffixes(id);
    var files := map[id + ".pdf" := pdf, id + ".fits.xml" := fits, id + ".mods.xml" := mods];
    assert forall n :: n in files <==> n == id + ".pdf" || n == id + ".fits.xml" || n == id + ".mods.xml";
    assert files[id + ".fits.xml"] == fits;
    OnlyOneNew(files, FITS_METADATA_SUFFIX, ingested, id + ".fits.xml");
  }

  lemma LegacyNewMods(id: string, pdf: FileInfo, fits: FileInfo, mods: FileInfo, ingested: int)
    requires ingested < mods.mtime
    ensures NewModsFiles(map[id + ".pdf" := pdf, id + ".fits.xml" := fits, id + ".mods.xml" := mods], ingested)
            == map[id + ".mods.xml" := mods]
  {
    LegacyNamesDistinct(id);
    LegacySuffixes(id);
    var files := map[id + ".pdf" := pdf, id + ".fits.xml" := fits, id + ".mods.xml" := mods];
    assert forall n :: n in files <==> n == id + ".pdf" || n == id + ".fits.xml" || n == id + ".mods.xml";
    assert files[id + ".mods.xml"] == mods;
    OnlyOneNew(files, MODS_METADATA_SUFFIX, ingested, id + ".mods.xml");
  }

  /** When one file alone carries a suffix and it is new, it alone is new with that suffix. */
  lemma OnlyOneNew(files: Dir, suffix: string, date: int, name: string)
    requires name in files && files[name].mtime > date && EndsWith(name, suffix)
    requires forall n :: n in files && EndsWith(n, suffix) ==> n == name
    ensures NewFilesWithSuffix(files, [suffix], date) == map[name := files[name]]
  {
    var r := NewFilesWithSuffix(files, [suffix], date);
    assert forall n :: n in r <==> n == name;
  }

  /** Of the legacy book's files, only the one named with a metadata stem ends with that
      stem's suffix. */
  lemma LegacySuffixes(id: string)
    ensures EndsWith(id + ".fits.xml", FITS_METADATA_SUFFIX) && !EndsWith(id + ".mods.xml", FITS_METADATA_SUFFIX)
    ensures !EndsWith(id + ".pdf", FITS_METADATA_SUFFIX)
    ensures EndsWith(id + ".mods.xml", MODS_METADATA_SUFFIX) && !EndsWith(id + ".fits.xml", MODS_METADATA_SUFFIX)
    ensures !EndsWith(id + ".pdf", MODS_METADATA_SUFFIX)
  {
    assert FITS_METADATA_SUFFIX == ".fits.xml" && MODS_METADATA_SUFFIX == ".mods.xml";
    EndsWithSelf(".fits.xml");
    EndsWithSelf(".mods.xml");
    EndsWithAppended(id, ".fits.xml", ".fits.xml");
    EndsWithAppended(id, ".mods.xml", ".fits.xml");
    EndsWithAppended(id, ".fits.xml", ".mods.xml");
    EndsWithAppended(id, ".mods.xml", ".mods.xml");
    assert ".fits.xml"[1] != ".mods.xml"[1];
    EndsWithConcat(id + ".pdf", ".fits", ".xml");
    EndsWithConcat(id + ".pdf", ".mods", ".xml");
    assert ".fits" + ".xml" == ".fits.xml" && ".mods" + ".xml" == ".mods.xml";
    EndsWithAppended(id, ".pdf", ".xml");
  }

  /** A book directory holding only its pdf file, with "pdf" and "suffix" required and no
      ingest recorded, is not ready for ingest: its step reports it as not yet ready and
      changes neither a directory nor a registry. */
  lemma UnreadyBookLeavesWorldUnchanged(cfg: Config, env: Env, kind: BookType, w: World, id: string, pdf: FileInfo)
    requires cfg.requiredFormats == ["pdf", "suffix"]
    requires RegistryOf(w.registries, id).ingestDate.None?
    ensures TransferEntry(cfg, env, kind, w, BookDirectory(BookDir(id, map[id + ".pdf" := pdf])))
            == Run(w, [NotYetReady])
  {
    var book := BookDir(id, map[id + ".pdf" := pdf]);
    LastCharDiffers(id + ".pdf", "suffix");
    BookProperties.SingleFileRequired(id + ".pdf", pdf, "suffix");
    BookProperties.MissingRequiredFormatNotReady(cfg, env, book, 1);
  }

  /** A content file that a fingerprinting registry has no entry for is new: the baseline
      does not cover it, the update does not report it unchanged, and when the
      update-content directory is writable the file is copied there and fingerprinted, even
      if the metadata copy fails afterwards. */
  lemma UnregisteredContentIsCopied(cfg: Config, env: Env, kind: BookType, book: BookDir,
                                    rec: RegistryRecord, dirs: Dirs, readOnly: set<string>, n: string)
    requires rec.ingestDate.Some? && !Unfingerprinted(cfg, book.files, rec)
    requires n in ContentFiles(cfg, book.files) && n !in rec.entries
    requires UpdateContentDir(cfg, kind, book) != UpdateMetadataDir(cfg, kind, book)
    ensures n in NewContentFiles(cfg, book.files, WithBaseline(cfg, book.files, rec))
    ensures var e := BookEffect(cfg, env, kind, book, rec, dirs, readOnly);
      e.outcome in {Updated, Failed(IoError)} &&
      (UpdateContentDir(cfg, kind, book) in readOnly ==> e.outcome == Failed(IoError) && e.rec == rec)
    ensures var e := BookEffect(cfg, env, kind, book, rec, dirs, readOnly);
      var cdir := UpdateContentDir(cfg, kind, book);
      cdir !in readOnly ==>
        n in DirAt(e.dirs, cdir) && DirAt(e.dirs, cdir)[n] == book.files[n] &&
        n in e.rec.entries && e.rec.entries[n] == Fingerprint(book.files[n])
  {
    var since := LatestUpdateDate(rec).value;
    var changed := NewContentFiles(cfg, book.files, rec);
    var fits := NewFitsFiles(book.files, since);
    var mods := NewModsFiles(book.files, since);
    var cdir := UpdateContentDir(cfg, kind, book);
    var mdir := UpdateMetadataDir(cfg, kind, book);
    assert WithBaseline(cfg, book.files, rec) == rec;
    assert n in changed;
    var e := BookEffect(cfg, env, kind, book, rec, dirs, readOnly);
    assert e == ApplyUpdate(env.now, rec, dirs, readOnly, changed, fits, mods, cdir, mdir);
    if cdir !in readOnly {
      BookProperties.ApplyUpdateKeepsCopiedContent(env.now, rec, dirs, readOnly, changed, fits, mods, cdir, mdir);
      assert DirAt(e.dirs, cdir) == DirAt(dirs, cdir) + changed + fits;
    }
  }

  // ---------------------------------------------------------------------------------------
  // Independence of the books of one base directory

  /** No two book directories of the base directory have the same name. */
  predicate DistinctBooks(entries: seq<BaseEntry>) {
    forall i, j :: 0 <= i < j < |entries| && entries[i].BookDirectory? && entries[j].BookDirectory? ==>
      entries[i].book.name != entries[j].book.name
  }

  /** The outcome an entry has when processed alone in the world `w`. */
  function OwnOutcome(cfg: Config, env: Env, kind: BookType, w: World, e: BaseEntry): Outcome {
    match e
    case PlainFile(_) => Skipped
    case BookDirectory(book) =>
      BookEffect(cfg, env, kind, book, RegistryOf(w.registries, book.name), w.dirs, w.readOnly).outcome
  }

  /** Every entry of a base directory gets its own outcome, in order: plain files are skipped,
      and each book ends with the outcome and registry it would have on its own, however the
      books before it fared (a failed copy of one book does not stop the next). Registries of
      books not in the base directory are untouched, and no read-only path is ever written. */
  lemma TransferAllPerBook(cfg: Config, env: Env, kind: BookType, w: World, entries: seq<BaseEntry>)
    requires DistinctBooks(entries)
    ensures var run := TransferAll(cfg, env, kind, w, entries);
      |run.outcomes| == |entries| && run.world.readOnly == w.readOnly
    ensures var run := TransferAll(cfg, env, kind, w, entries);
      forall i :: 0 <= i < |entries| ==> run.outcomes[i] == OwnOutcome(cfg, env, kind, w, entries[i])
    ensures var run := TransferAll(cfg, env, kind, w, entries);
      forall i :: 0 <= i < |entries| && entries[i].BookDirectory? ==>
        RegistryOf(run.world.registries, entries[i].book.name) ==
        BookEffect(cfg, env, kind, entries[i].book, RegistryOf(w.registries, entries[i].book.name),
                   w.dirs, w.readOnly).rec
    ensures var run := TransferAll(cfg, env, kind, w, entries);
      forall name :: (forall i :: 0 <= i < |entries| && entries[i].BookDirectory? ==> entries[i].book.name != name) ==>
        RegistryOf(run.world.registries, name) == RegistryOf(w.registries, name)
    ensures var run := TransferAll(cfg, env, kind, w, entries);
      forall p :: p in w.readOnly ==> DirAt(run.world.dirs, p) == DirAt(w.dirs, p)
  {
    TransferAllSparesReadOnly(cfg, env, kind, w, entries);
    TransferAllUntouched(cfg, env, kind, w, entries);
    TransferAllOutcomes(cfg, env, kind, w, entries);
    TransferAllRegistries(cfg, env, kind, w, entries);
  }

  /** No entry of a run writes a read-only directory. */
  lemma {:induction false} TransferAllSparesReadOnly(cfg: Config, env: Env, kind: BookType, w: World,
                                                    entries: seq<BaseEntry>)
    ensures var run := TransferAll(cfg, env, kind, w, entries);
      run.world.readOnly == w.readOnly &&
      forall p :: p in w.readOnly ==> DirAt(run.world.dirs, p) == DirAt(w.dirs, p)
    decreases |entries|
  {
    if entries != [] {
      var prefix := entries[..|entries| - 1];
      TransferAllSparesReadOnly(cfg, env, kind, w, prefix);
      var before := TransferAll(cfg, env, kind, w, prefix);
      match entries[|entries| - 1]
      case PlainFile(_) =>
      case BookDirectory(book) =>
        BookProperties.BookEffectSparesReadOnly(cfg, env, kind, book, RegistryOf(before.world.registries, book.name),
                                                before.world.dirs, before.world.readOnly);
    }
  }

  /** A run has one outcome per entry, keeps the read-only paths and leaves the registry of
      every name that is not one of its books. */
  lemma {:induction false} TransferAllUntouched(cfg: Config, env: Env, kind: BookType, w: World,
                                               entries: seq<BaseEntry>)
    ensures var run := TransferAll(cfg, env, kind, w, entries);
      |run.outcomes| == |entries| && run.world.readOnly == w.readOnly
    ensures var run := TransferAll(cfg, env, kind, w, entries);
      forall name :: (forall i :: 0 <= i < |entries| && entries[i].BookDirectory? ==> entries[i].book.name != name) ==>
        RegistryOf(run.world.registries, name) == RegistryOf(w.registries, name)
    decreases |entries|
  {
    if entries != [] {
      var prefix := entries[..|entries| - 1];
      var last := entries[|entries| - 1];
      TransferAllUntouched(cfg, env, kind, w, prefix);
      var before := TransferAll(cfg, env, kind, w, prefix);
      var step := TransferEntry(cfg, env, kind, before.world, last);
      var run := TransferAll(cfg, env, kind, w, entries);
      assert run == Run(step.world, before.outcomes + step.outcomes);
      match last
      case PlainFile(_) =>
        assert step == Run(before.world, [Skipped]);
        forall name | (forall i :: 0 <= i < |entries| && entries[i].BookDirectory? ==> entries[i].book.name != name)
          ensures RegistryOf(run.world.registries, name) == RegistryOf(w.registries, name)
        {
          forall i | 0 <= i < |prefix| && prefix[i].BookDirectory? ensures prefix[i].book.name != name {
            assert entries[i] == prefix[i];
          }
        }
      case BookDirectory(book) =>
        BookStep(cfg, env, kind, before.world, book);
        forall name | (forall i :: 0 <= i < |entries| && entries[i].BookDirectory? ==> entries[i].book.name != name)
          ensures RegistryOf(run.world.registries, name) == RegistryOf(w.registries, name)
        {
          forall i | 0 <= i < |prefix| && prefix[i].BookDirectory? ensures prefix[i].book.name != name {
            assert entries[i] == prefix[i];
          }
          assert entries[|entries| - 1].BookDirectory?;
        }
    }
  }

  /** With distinct book names, each entry of a run gets the outcome it would get on its own. */
  lemma {:induction false} TransferAllOutcomes(cfg: Config, env: Env, kind: BookType, w: World,
                                              entries: seq<BaseEntry>)
    requires DistinctBooks(entries)
    ensures var run := TransferAll(cfg, env, kind, w, entries);
      forall i :: 0 <= i < |entries| ==> i < |run.outcomes| && run.outcomes[i] == OwnOutcome(cfg, env, kind, w, entries[i])
    decreases |entries|
  {
    if entries != [] {
      var prefix := entries[..|entries| - 1];
      var last := entries[|entries| - 1];
      assert DistinctBooks(prefix);
      TransferAllOutcomes(cfg, env, kind, w, prefix);
      TransferAllUntouched(cfg, env, kind, w, prefix);
      var before := TransferAll(cfg, env, kind, w, prefix);
      var run := TransferAll(cfg, env, kind, w, entries);
      assert run.outcomes == before.outcomes + TransferEntry(cfg, env, kind, before.world, last).outcomes;
      forall i | 0 <= i < |prefix| && prefix[i].BookDirectory? && last.BookDirectory?
        ensures prefix[i].book.name != last.book.name
      {
        assert entries[i] == prefix[i];
      }
      StepAsAlone(cfg, env, kind, w, before.world, last);
      forall i | 0 <= i < |entries| ensures i < |run.outcomes| && run.outcomes[i] == OwnOutcome(cfg, env, kind, w, entries[i]) {
        if i < |prefix| {
          assert entries[i] == prefix[i] && run.outcomes[i] == before.outcomes[i];
        } else {
          assert entries[i] == last;
        }
      }
    }
  }

  /** With distinct book names, each book of a run ends with the registry it would get on its
      own. */
  lemma {:induction false} TransferAllRegistries(cfg: Config, env: Env, kind: BookType, w: World,
                                                entries: seq<BaseEntry>)
    requires DistinctBooks(entries)
    ensures var run := TransferAll(cfg, env, kind, w, entries);
      forall i :: 0 <= i < |entries| && entries[i].BookDirectory? ==>
        RegistryOf(run.world.registries, entries[i].book.name) ==
        BookEffect(cfg, env, kind, entries[i].book, RegistryOf(w.registries, entries[i].book.name),
                   w.dirs, w.readOnly).rec
    decreases |entries|
  {
    if entries != [] {
      var prefix := entries[..|entries| - 1];
      var last := entries[|entries| - 1];
      assert DistinctBooks(prefix);
      TransferAllRegistries(cfg, env, kind, w, prefix);
      TransferAllUntouched(cfg, env, kind, w, prefix);
      var before := TransferAll(cfg, env, kind, w, prefix);
      var run := TransferAll(cfg, env, kind, w, entries);
      assert run.world == TransferEntry(cfg, env, kind, before.world, last).world;
      forall i | 0 <= i < |prefix| && prefix[i].BookDirectory? && last.BookDirectory?
        ensures prefix[i].book.name != last.book.name
      {
        assert entries[i] == prefix[i];
      }
      StepAsAlone(cfg, env, kind, w, before.world, last);
      forall i | 0 <= i < |entries| && entries[i].BookDirectory?
        ensures RegistryOf(run.world.registries, entries[i].book.name) ==
                BookEffect(cfg, env, kind, entries[i].book, RegistryOf(w.registries, entries[i].book.name),
                           w.dirs, w.readOnly).rec
      {
        var name := entries[i].book.name;
        if i < |prefix| {
          assert entries[i] == prefix[i];
          assert RegistryOf(run.world.registries, name) == RegistryOf(before.world.registries, name);
        } else {
          assert entries[i] == last;
        }
      }
    }
  }

  /** Processing an entry from a world that agrees with `w` on the read-only paths and on the
      entry's own registry has the outcome and registry the entry has on its own in `w`, and
      leaves every other registry alone. */
  lemma StepAsAlone(cfg: Config, env: Env, kind: BookType, w: World, v: World, e: BaseEntry)
    requires v.readOnly == w.readOnly
    requires e.BookDirectory? ==> RegistryOf(v.registries, e.book.name) == RegistryOf(w.registries, e.book.name)
    ensures var step := TransferEntry(cfg, env, kind, v, e);
      step.outcomes == [OwnOutcome(cfg, env, kind, w, e)] && step.world.readOnly == w.readOnly
    ensures e.BookDirectory? ==>
      RegistryOf(TransferEntry(cfg, env, kind, v, e).world.registries, e.book.name) ==
      BookEffect(cfg, env, kind, e.book, RegistryOf(w.registries, e.book.name), w.dirs, w.readOnly).rec
    ensures forall name :: (e.BookDirectory? ==> name != e.book.name) ==>
      RegistryOf(TransferEntry(cfg, env, kind, v, e).world.registries, name) == RegistryOf(v.registries, name)
  {
    match e
    case PlainFile(_) =>
    case BookDirectory(book) =>
      BookStep(cfg, env, kind, v, book);
      BookEffectIgnoresDirs(cfg, env, kind, book, RegistryOf(w.registries, book.name), v.dirs, w.dirs, w.readOnly);
  }

  /** One book directory's step reports the book's outcome, stores its registry and leaves
      every other registry as it was. */
  lemma BookStep(cfg: Config, env: Env, kind: BookType, v: World, book: BookDir)
    ensures var step := TransferEntry(cfg, env, kind, v, BookDirectory(book));
      var eff := BookEffect(cfg, env, kind, book, RegistryOf(v.registries, book.name), v.dirs, v.readOnly);
      step.outcomes == [eff.outcome] && step.world.readOnly == v.readOnly &&
      RegistryOf(step.world.registries, book.name) == eff.rec &&
      forall name :: name != book.name ==> RegistryOf(step.world.registries, name) == RegistryOf(v.registries, name)
  {
  }
}
