/** Properties of the decisions taken for one book directory: readiness, file classification,
    change detection, destinations, ingest and update routing. */
module BookProperties {
  import opened Strings
  import opened Constants
  import opened TransferModel

  // ---------------------------------------------------------------------------------------
  // Readiness

  /** A required format without a matching file makes the book not ready. */
  lemma MissingRequiredFormatNotReady(cfg: Config, env: Env, book: BookDir, i: int)
    requires 0 <= i < |cfg.requiredFormats|
    requires !HasRequiredFile(book.files, cfg.requiredFormats[i])
    ensures ReadinessOf(cfg, env, book) == NotReady
  {
  }

  /** A book holding a pdf file and its publisher metadata lacks a required "fits.xml" file. */
  lemma RequiredFitsMissingNotReady(cfg: Config, env: Env, id: string, pdf: FileInfo, pubhub: FileInfo)
    requires cfg.requiredFormats == ["pdf", "fits.xml"]
    ensures ReadinessOf(cfg, env, BookDir(id, map[id + ".pdf" := pdf, id + PUBHUB_METADATA_SUFFIX := pubhub]))
            == NotReady
  {
    var files := map[id + ".pdf" := pdf, id + PUBHUB_METADATA_SUFFIX := pubhub];
    MetadataSuffixValues();
    forall n | n in files ensures !EndsWith(n, "fits.xml") {
      if n == id + ".pdf" {
        EndsWithConcat(n, "fits", ".xml");
        EndsWithAppended(id, ".pdf", ".xml");
      } else {
        EndsWithAppended(id, ".pubhub.xml", "fits.xml");
        assert ".pubhub.xml"[3..] == "bhub.xml";
      }
    }
    MissingRequiredFormatNotReady(cfg, env, BookDir(id, files), 1);
  }

  /** A file name made of any stem and a suffix passes the required-format check for that
      suffix, and not for a suffix the name does not end with. */
  lemma HasRequiredFileExample(stem: string, f: FileInfo)
    ensures HasRequiredFile(map[stem + ".suffix" := f], ".suffix")
    ensures !HasRequiredFile(map[stem + ".suffix" := f], ".notSuffix")
  {
    var name := stem + ".suffix";
    EndsWithAppended(stem, ".suffix", ".suffix");
    EndsWithSelf(".suffix");
    assert |name| >= 10 ==> name[|name| - 10..][3] == '.' by {
      assert name[|stem|] == '.';
    }
    assert ".notSuffix"[3] == 't';
    SingleFileRequired(name, f, ".suffix");
    SingleFileRequired(name, f, ".notSuffix");
  }

  /** A directory of one file has a required format exactly when that file's name ends with it. */
  lemma SingleFileRequired(name: string, f: FileInfo, suffix: string)
    ensures HasRequiredFile(map[name := f], suffix) <==> EndsWith(name, suffix)
  {
    if EndsWith(name, suffix) {
      assert name in map[name := f];
    }
  }

  /** Without required formats and with every threshold off, any book is ready. */
  lemma NoChecksReady(cfg: Config, env: Env, book: BookDir)
    requires cfg.requiredFormats == []
    requires cfg.policy.retainCreateDate < 0 && cfg.policy.retainModifyDate < 0
    requires cfg.policy.retainPublicationDate < 0
    ensures ReadinessOf(cfg, env, book) == Ready
  {
  }

  /** A content file created too recently makes the book not ready, whatever its publication
      date. */
  lemma TooRecentlyCreatedNotReady(cfg: Config, env: Env, book: BookDir, n: string)
    requires n in ContentFiles(cfg, book.files)
    requires cfg.policy.retainCreateDate >= 0
    requires book.files[n].ctime + cfg.policy.retainCreateDate > env.now
    ensures ReadinessOf(cfg, env, book) == NotReady
  {
    assert !HasContentFileDate(cfg.policy, ContentFiles(cfg, book.files)[n], env.now).ok;
  }

  /** An enabled publication threshold with no publisher metadata file: not ready, no error. */
  lemma MissingPublicationFileNotReady(cfg: Config, env: Env, book: BookDir)
    requires cfg.policy.retainPublicationDate >= 0
    requires PublicationFileName(book) !in book.files
    ensures ReadinessOf(cfg, env, book) == NotReady
  {
  }

  /** A publisher metadata file that cannot be parsed is reported as malformed, never as
      ready, once the earlier checks pass. */
  lemma UnparsablePublicationFileMalformed(cfg: Config, env: Env, book: BookDir)
    requires RequiredFormatsPresent(cfg.requiredFormats, book.files)
    requires ContentDatesOk(cfg.policy, ContentFiles(cfg, book.files), env.now)
    requires cfg.policy.retainPublicationDate >= 0
    requires PublicationFileName(book) in book.files
    requires env.findPublicationDate(book.files[PublicationFileName(book)]) == ParseError
    ensures ReadinessOf(cfg, env, book) == MalformedMetadata
  {
  }

  /** Once the required formats and the content dates pass, a publication check that is on
      decides readiness by the date the metadata file holds: the book is ready exactly when
      that date plus the threshold lies after the current time. */
  lemma PublicationThresholdDecides(cfg: Config, env: Env, book: BookDir, d: int)
    requires RequiredFormatsPresent(cfg.requiredFormats, book.files)
    requires ContentDatesOk(cfg.policy, ContentFiles(cfg, book.files), env.now)
    requires cfg.policy.retainPublicationDate >= 0
    requires PublicationFileName(book) in book.files
    requires env.findPublicationDate(book.files[PublicationFileName(book)]) == Present(d)
    ensures ReadinessOf(cfg, env, book) ==
            (if d + cfg.policy.retainPublicationDate > env.now then Ready else NotReady)
  {
  }

  /** A book is ready only if it holds every required format and all its content files have
      been retained long enough. */
  lemma ReadyImpliesChecksPassed(cfg: Config, env: Env, book: BookDir)
    requires ReadinessOf(cfg, env, book) == Ready
    ensures forall i :: 0 <= i < |cfg.requiredFormats| ==> HasRequiredFile(book.files, cfg.requiredFormats[i])
    ensures forall n :: n in ContentFiles(cfg, book.files) ==>
      RetainedLongEnough(book.files[n].ctime, cfg.policy.retainCreateDate, env.now) &&
      RetainedLongEnough(book.files[n].mtime, cfg.policy.retainModifyDate, env.now)
  {
    assert RequiredFormatsPresent(cfg.requiredFormats, book.files);
    assert ContentDatesOk(cfg.policy, ContentFiles(cfg, book.files), env.now);
    var content := ContentFiles(cfg, book.files);
    forall n | n in content
      ensures RetainedLongEnough(book.files[n].ctime, cfg.policy.retainCreateDate, env.now)
      ensures RetainedLongEnough(book.files[n].mtime, cfg.policy.retainModifyDate, env.now)
    {
      assert HasContentFileDate(cfg.policy, content[n], env.now).ok;
      assert content[n] == book.files[n];
    }
  }

  /** Content dates that pass at one time still pass later. */
  lemma {:induction false} ContentDatesStayOk(p: RetentionPolicy, content: Dir, now: int, later: int)
    requires now <= later
    requires ContentDatesOk(p, content, now)
    ensures ContentDatesOk(p, content, later)
  {
    forall n | n in content ensures HasContentFileDate(p, content[n], later).ok {
      assert HasContentFileDate(p, content[n], now).ok;
    }
  }

  /** A file created and modified within the last 1000000 ms passes with both thresholds off
      or both at 0; a create threshold of 1000000 fails it without reading the modify
      threshold, and a modify threshold of 1000000 fails it after reading both. */
  lemma FreshFileDateChecks(f: FileInfo, now: int)
    requires now - 1000000 < f.ctime <= now && now - 1000000 < f.mtime <= now
    ensures HasContentFileDate(RetentionPolicy(-1, -1, -1), f, now).ok
    ensures HasContentFileDate(RetentionPolicy(0, 0, -1), f, now).ok
    ensures var c := HasContentFileDate(RetentionPolicy(1000000, -1, -1), f, now);
      !c.ok && c.consulted == {CreateAge}
    ensures var c := HasContentFileDate(RetentionPolicy(-1, 1000000, -1), f, now);
      !c.ok && c.consulted == {CreateAge, ModifyAge}
  {
  }

  // ---------------------------------------------------------------------------------------
  // Classification and change detection

  /** The content files are exactly the files of `keep` when each of them ends with a
      configured format and no other file does. */
  lemma ContentFilesAre(cfg: Config, files: Dir, keep: Dir)
    requires forall n :: n in keep ==> n in files && keep[n] == files[n]
    requires forall n :: n in keep ==> exists fmt :: fmt in cfg.ebookFormats + cfg.audioFormats && EndsWith(n, fmt)
    requires forall n :: n in files && n !in keep ==>
      forall fmt :: fmt in cfg.ebookFormats + cfg.audioFormats ==> !EndsWith(n, fmt)
    ensures ContentFiles(cfg, files) == keep
  {
    var r := ContentFiles(cfg, files);
    assert forall n :: n in r <==> n in keep;
  }

  /** With ebook formats tif, pdf and audio formats mp3, wav, the tif and mp3 files are content
      files and a file with another suffix is not. */
  lemma ContentFilesExample(cfg: Config, id: string, tif: FileInfo, mp3: FileInfo, other: FileInfo)
    requires cfg.ebookFormats == ["tif", "pdf"] && cfg.audioFormats == ["mp3", "wav"]
    ensures ContentFiles(cfg, map[id + ".tif" := tif, id + ".mp3" := mp3, id + ".suffix" := other])
            == map[id + ".tif" := tif, id + ".mp3" := mp3]
  {
    var files := map[id + ".tif" := tif, id + ".mp3" := mp3, id + ".suffix" := other];
    var keep := map[id + ".tif" := tif, id + ".mp3" := mp3];
    var formats := cfg.ebookFormats + cfg.audioFormats;
    assert formats == ["tif", "pdf", "mp3", "wav"];
    EndsWithAppended(id, ".tif", "tif");
    EndsWithAppended(id, ".mp3", "mp3");
    assert ".tif"[1..] == "tif" && ".mp3"[1..] == "mp3";
    assert (id + ".suffix")[|id| + 6] == 'x';
    LastCharDiffers(id + ".suffix", "tif");
    LastCharDiffers(id + ".suffix", "pdf");
    LastCharDiffers(id + ".suffix", "mp3");
    LastCharDiffers(id + ".suffix", "wav");
    assert id + ".tif" != id + ".suffix" && id + ".mp3" != id + ".suffix" by {
      assert (id + ".tif")[|id| + 1] == 't' && (id + ".mp3")[|id| + 1] == 'm' && (id + ".suffix")[|id| + 1] == 's';
    }
    forall n | n in keep ensures exists fmt :: fmt in formats && EndsWith(n, fmt) {
      if n == id + ".tif" {
        assert "tif" in formats && EndsWith(n, "tif");
      } else {
        assert "mp3" in formats && EndsWith(n, "mp3");
      }
    }
    ContentFilesAre(cfg, files, keep);
  }

  /** New files with a suffix: a pdf file modified after the date is kept; one modified before
      it, or a file with another suffix, is not. */
  lemma NewFilesWithSuffixExamples(id: string, f: FileInfo)
    ensures f.mtime == 200000000000 ==>
      id + ".pdf" in NewFilesWithSuffix(map[id + ".pdf" := f], ["pdf"], 100000000000)
    ensures f.mtime == 100000000000 ==>
      NewFilesWithSuffix(map[id + ".pdf" := f], ["pdf"], 200000000000) == map[]
    ensures NewFilesWithSuffix(map[id + ".tif" := f], ["pdf"], 0) == map[]
  {
    EndsWithAppended(id, ".pdf", "pdf");
    assert ".pdf"[1..] == "pdf";
    EndsWithAppended(id, ".tif", "pdf");
    assert ".tif"[1..] == "tif";
    assert "pdf" in ["pdf"];
  }

  /** A registered content file whose checksum still verifies is not new; one whose checksum
      changed is. */
  lemma NewContentFilesExample(cfg: Config, id: string, tif: FileInfo, mp3: FileInfo, rec: RegistryRecord)
    requires cfg.ebookFormats == ["tif"] && cfg.audioFormats == ["mp3"]
    requires id + ".tif" in rec.entries && rec.entries[id + ".tif"].checksum != tif.checksum
    requires id + ".mp3" in rec.entries && rec.entries[id + ".mp3"].checksum == mp3.checksum
    ensures NewContentFiles(cfg, map[id + ".tif" := tif, id + ".mp3" := mp3], rec) == map[id + ".tif" := tif]
  {
    TifAndMp3AreContent(cfg, id, tif, mp3);
    OnlyChangedIsNew(cfg, map[id + ".tif" := tif, id + ".mp3" := mp3], rec, id + ".tif", tif, id + ".mp3", mp3);
  }

  lemma TifAndMp3AreContent(cfg: Config, id: string, tif: FileInfo, mp3: FileInfo)
    requires cfg.ebookFormats == ["tif"] && cfg.audioFormats == ["mp3"]
    ensures id + ".tif" != id + ".mp3"
    ensures ContentFiles(cfg, map[id + ".tif" := tif, id + ".mp3" := mp3]) == map[id + ".tif" := tif, id + ".mp3" := mp3]
  {
    var files := map[id + ".tif" := tif, id + ".mp3" := mp3];
    var formats := cfg.ebookFormats + cfg.audioFormats;
    assert formats == ["tif", "mp3"];
    EndsWithAppended(id, ".tif", "tif");
    EndsWithAppended(id, ".mp3", "mp3");
    assert ".tif"[1..] == "tif" && ".mp3"[1..] == "mp3";
    assert id + ".tif" != id + ".mp3" by {
      assert (id + ".tif")[|id| + 1] == 't';
    }
    forall n | n in files ensures exists fmt :: fmt in formats && EndsWith(n, fmt) {
      if n == id + ".tif" {
        assert "tif" in formats && EndsWith(n, "tif");
      } else {
        assert "mp3" in formats && EndsWith(n, "mp3");
      }
    }
    ContentFilesAre(cfg, files, files);
  }

  /** Of two content files, the one whose fingerprint no longer verifies is the only new one. */
  lemma OnlyChangedIsNew(cfg: Config, files: Dir, rec: RegistryRecord, a: string, fa: FileInfo, b: string, fb: FileInfo)
    requires a != b && files == map[a := fa, b := fb] && ContentFiles(cfg, files) == files
    requires !VerifyFile(rec, a, fa) && VerifyFile(rec, b, fb)
    ensures NewContentFiles(cfg, files, rec) == map[a := fa]
  {
    var r := NewContentFiles(cfg, files, rec);
    assert forall n :: n in r <==> n == a;
  }

  // ---------------------------------------------------------------------------------------
  // Destinations

  /** Each destination is named after the book, below the root configured for the book type,
      so two different books never share a destination directory. */
  lemma DestinationsPerBook(cfg: Config, kind: BookType, a: BookDir, b: BookDir)
    ensures IngestDir(cfg, Ebook, a) == cfg.ebookIngestDir + "/" + a.name
    ensures IngestDir(cfg, Audio, a) == cfg.audioIngestDir + "/" + a.name
    ensures UpdateContentDir(cfg, Ebook, a) == cfg.updateEbookContentDir + "/" + a.name
    ensures UpdateMetadataDir(cfg, Ebook, a) == cfg.updateEbookMetadataDir + "/" + a.name
    ensures UpdateContentDir(cfg, Audio, a) == cfg.updateAudioContentDir + "/" + a.name
    ensures UpdateMetadataDir(cfg, Audio, a) == cfg.updateAudioMetadataDir + "/" + a.name
    ensures a.name != b.name ==>
      IngestDir(cfg, kind, a) != IngestDir(cfg, kind, b) &&
      UpdateContentDir(cfg, kind, a) != UpdateContentDir(cfg, kind, b) &&
      UpdateMetadataDir(cfg, kind, a) != UpdateMetadataDir(cfg, kind, b)
  {
    if IngestDir(cfg, kind, a) == IngestDir(cfg, kind, b) {
      ChildPathInjective(IngestRoot(cfg, kind), a.name, b.name);
    }
    if UpdateContentDir(cfg, kind, a) == UpdateContentDir(cfg, kind, b) {
      ChildPathInjective(UpdateContentRoot(cfg, kind), a.name, b.name);
    }
    if UpdateMetadataDir(cfg, kind, a) == UpdateMetadataDir(cfg, kind, b) {
      ChildPathInjective(UpdateMetadataRoot(cfg, kind), a.name, b.name);
    }
  }

  /** A copy adds exactly the copied files to the destination, with their content, and leaves
      every other directory as it was. */
  lemma CopyAddsExactly(dirs: Dirs, files: Dir, dest: string)
    ensures DirAt(CopyInto(dirs, files, dest), dest).Keys == DirAt(dirs, dest).Keys + files.Keys
    ensures forall n :: n in files ==> DirAt(CopyInto(dirs, files, dest), dest)[n] == files[n]
    ensures forall n :: n in DirAt(dirs, dest) && n !in files ==>
      DirAt(CopyInto(dirs, files, dest), dest)[n] == DirAt(dirs, dest)[n]
    ensures forall d :: d != dest ==> DirAt(CopyInto(dirs, files, dest), d) == DirAt(dirs, d)
  {
  }

  /** Copying files that are already in the destination overwrites them without adding files. */
  lemma RecopyAddsNoFiles(dirs: Dirs, files: Dir, dest: string)
    requires forall n :: n in files ==> n in DirAt(dirs, dest)
    ensures DirAt(CopyInto(dirs, files, dest), dest).Keys == DirAt(dirs, dest).Keys
    ensures |DirAt(CopyInto(dirs, files, dest), dest)| == |DirAt(dirs, dest)|
  {
    CopyAddsExactly(dirs, files, dest);
    assert DirAt(dirs, dest).Keys + files.Keys == DirAt(dirs, dest).Keys;
  }

  // ---------------------------------------------------------------------------------------
  // Ingest

  /** A book is ingested exactly when it is ready and its ingest directory can be written;
      in every other case neither the registry nor any directory changes. */
  lemma IngestOnlyWhenReady(cfg: Config, env: Env, kind: BookType, book: BookDir,
                            rec: RegistryRecord, dirs: Dirs, readOnly: set<string>)
    ensures IngestEffect(cfg, env, kind, book, rec, dirs, readOnly).outcome == Ingested <==>
      ReadinessOf(cfg, env, book) == Ready && IngestDir(cfg, kind, book) !in readOnly
    ensures IngestEffect(cfg, env, kind, book, rec, dirs, readOnly).outcome != Ingested ==>
      IngestEffect(cfg, env, kind, book, rec, dirs, readOnly).rec == rec &&
      IngestEffect(cfg, env, kind, book, rec, dirs, readOnly).dirs == dirs
    ensures ReadinessOf(cfg, env, book) == NotReady ==>
      IngestEffect(cfg, env, kind, book, rec, dirs, readOnly).outcome == NotYetReady
  {
  }

  /** A successful ingest creates one directory, named after the book, holding as many files
      as the book, stamps the ingest date and fingerprints every content file. */
  lemma IngestCopiesWholeBook(cfg: Config, env: Env, kind: BookType, book: BookDir,
                              rec: RegistryRecord, dirs: Dirs, readOnly: set<string>)
    requires IngestDir(cfg, kind, book) !in dirs
    requires IngestEffect(cfg, env, kind, book, rec, dirs, readOnly).outcome == Ingested
    ensures var e := IngestEffect(cfg, env, kind, book, rec, dirs, readOnly);
      e.dirs.Keys == dirs.Keys + {IngestDir(cfg, kind, book)} &&
      e.dirs[IngestDir(cfg, kind, book)] == book.files &&
      |e.dirs[IngestDir(cfg, kind, book)]| == |book.files|
    ensures var e := IngestEffect(cfg, env, kind, book, rec, dirs, readOnly);
      e.rec.ingestDate == Some(env.now) && e.rec.updateDate == rec.updateDate &&
      (forall n :: n in e.rec.entries <==> n in rec.entries || n in ContentFiles(cfg, book.files)) &&
      (forall n :: n in ContentFiles(cfg, book.files) ==> e.rec.entries[n] == Fingerprint(book.files[n]))
  {
    IngestSucceeded(cfg, env, kind, book, rec, dirs, readOnly);
    CopyIntoNewDir(dirs, book.files, IngestDir(cfg, kind, book));
    StampedIngest(rec, env.now, cfg, book.files);
  }

  lemma CopyIntoNewDir(dirs: Dirs, files: Dir, d: string)
    requires d !in dirs
    ensures var after := dirs[d := DirAt(dirs, d) + files];
      after.Keys == dirs.Keys + {d} && after[d] == files && |after[d]| == |files|
  {
    assert DirAt(dirs, d) + files == files;
  }

  lemma StampedIngest(rec: RegistryRecord, now: int, cfg: Config, files: Dir)
    ensures var r := rec.(ingestDate := Some(now), entries := rec.entries + Fingerprints(ContentFiles(cfg, files)));
      r.ingestDate == Some(now) && r.updateDate == rec.updateDate &&
      (forall n :: n in r.entries <==> n in rec.entries || n in ContentFiles(cfg, files)) &&
      (forall n :: n in ContentFiles(cfg, files) ==> r.entries[n] == Fingerprint(files[n]))
  {
    FingerprintsMerge(rec.entries, ContentFiles(cfg, files));
  }

  /** A successful ingest is the copy of the book and the stamped registry. */
  lemma IngestSucceeded(cfg: Config, env: Env, kind: BookType, book: BookDir,
                        rec: RegistryRecord, dirs: Dirs, readOnly: set<string>)
    requires IngestEffect(cfg, env, kind, book, rec, dirs, readOnly).outcome == Ingested
    ensures ReadinessOf(cfg, env, book) == Ready && IngestDir(cfg, kind, book) !in readOnly
    ensures IngestEffect(cfg, env, kind, book, rec, dirs, readOnly) ==
      Effect(rec.(ingestDate := Some(env.now), entries := rec.entries + Fingerprints(ContentFiles(cfg, book.files))),
             dirs[IngestDir(cfg, kind, book) := DirAt(dirs, IngestDir(cfg, kind, book)) + book.files],
             Ingested)
  {
  }

  /** Merging fingerprints keeps every old entry's name and gives each merged file its own
      fingerprint. */
  lemma FingerprintsMerge(entries: map<string, FileEntry>, files: Dir)
    ensures forall n :: n in entries + Fingerprints(files) <==> n in entries || n in files
    ensures forall n :: n in files ==> (entries + Fingerprints(files))[n] == Fingerprint(files[n])
  {
  }

  // ---------------------------------------------------------------------------------------
  // Update

  /** Without a reference date an update does nothing. */
  lemma UpdateWithoutDateDoesNothing(cfg: Config, now: int, kind: BookType, book: BookDir,
                                     rec: RegistryRecord, dirs: Dirs, readOnly: set<string>)
    requires rec.ingestDate.None? && rec.updateDate.None?
    ensures UpdateEffect(cfg, now, kind, book, rec, dirs, readOnly) == Effect(rec, dirs, NoChanges)
  {
  }

  /** An update that succeeds stamps the update date and fingerprints the copied content
      files; one with no new file changes nothing at all; a copy into a read-only directory is
      the only failure. A failure never stamps the update date, and keeps the fingerprints of
      the content files when their copy succeeded before it. A fingerprint is only ever
      recorded for a content file that reached the update-content directory. */
  lemma ApplyUpdateCommits(now: int, rec: RegistryRecord, dirs: Dirs, readOnly: set<string>,
                           changed: Dir, fits: Dir, mods: Dir, cdir: string, mdir: string)
    ensures var e := ApplyUpdate(now, rec, dirs, readOnly, changed, fits, mods, cdir, mdir);
      e.outcome == Updated ==>
        e.rec == rec.(updateDate := Some(now), entries := rec.entries + Fingerprints(changed))
    ensures var e := ApplyUpdate(now, rec, dirs, readOnly, changed, fits, mods, cdir, mdir);
      e.outcome == Failed(IoError) ==>
        e.rec == if changed != map[] && cdir !in readOnly
                 then rec.(entries := rec.entries + Fingerprints(changed)) else rec
    ensures var e := ApplyUpdate(now, rec, dirs, readOnly, changed, fits, mods, cdir, mdir);
      (e.outcome == NoChanges <==> changed == map[] && fits == map[] && mods == map[]) &&
      (e.outcome == NoChanges ==> e.rec == rec && e.dirs == dirs)
    ensures var e := ApplyUpdate(now, rec, dirs, readOnly, changed, fits, mods, cdir, mdir);
      e.outcome == Failed(IoError) <==>
        !(changed == map[] && fits == map[] && mods == map[]) &&
        (((changed != map[] || fits != map[]) && cdir in readOnly) || (mods != map[] && mdir in readOnly))
    ensures var e := ApplyUpdate(now, rec, dirs, readOnly, changed, fits, mods, cdir, mdir);
      e.outcome in {NoChanges, Updated, Failed(IoError)}
    ensures var e := ApplyUpdate(now, rec, dirs, readOnly, changed, fits, mods, cdir, mdir);
      e.rec.entries != rec.entries ==> forall n :: n in changed ==> n in DirAt(e.dirs, cdir)
  {
    var e := ApplyUpdate(now, rec, dirs, readOnly, changed, fits, mods, cdir, mdir);
    if e.rec.entries != rec.entries {
      assert changed != map[] && cdir !in readOnly;
      var dirs1 := CopyInto(dirs, changed, cdir);
      assert forall n :: n in changed ==> n in DirAt(dirs1, cdir);
      var dirs2 := if fits == map[] then dirs1 else CopyInto(dirs1, fits, cdir);
      assert forall n :: n in changed ==> n in DirAt(dirs2, cdir);
    }
  }

  /** The outcome and the registry of an update do not depend on the destination directories'
      contents. */
  lemma ApplyUpdateIgnoresDirs(now: int, rec: RegistryRecord, dirs: Dirs, other: Dirs, readOnly: set<string>,
                               changed: Dir, fits: Dir, mods: Dir, cdir: string, mdir: string)
    ensures ApplyUpdate(now, rec, dirs, readOnly, changed, fits, mods, cdir, mdir).outcome ==
            ApplyUpdate(now, rec, other, readOnly, changed, fits, mods, cdir, mdir).outcome
    ensures ApplyUpdate(now, rec, dirs, readOnly, changed, fits, mods, cdir, mdir).rec ==
            ApplyUpdate(now, rec, other, readOnly, changed, fits, mods, cdir, mdir).rec
  {
  }

  /** The baseline of a registry that fingerprints none of the content files makes every
      content file verify, so none of them counts as new; for any other registry the baseline
      changes nothing about what is new. */
  lemma BaselineSettlesContent(cfg: Config, files: Dir, rec: RegistryRecord)
    ensures Unfingerprinted(cfg, files, rec) ==>
      (forall n :: n in ContentFiles(cfg, files) ==> VerifyFile(WithBaseline(cfg, files, rec), n, files[n])) &&
      NewContentFiles(cfg, files, WithBaseline(cfg, files, rec)) == map[]
    ensures !Unfingerprinted(cfg, files, rec) ==>
      NewContentFiles(cfg, files, WithBaseline(cfg, files, rec)) == NewContentFiles(cfg, files, rec)
  {
  }

  /** Once changed content files were copied to a writable content directory, they stay there
      and keep their fingerprints whatever happens to the metadata copy. */
  lemma ApplyUpdateKeepsCopiedContent(now: int, rec: RegistryRecord, dirs: Dirs, readOnly: set<string>,
                                      changed: Dir, fits: Dir, mods: Dir, cdir: string, mdir: string)
    requires cdir != mdir
    requires changed != map[] && cdir !in readOnly
    ensures var e := ApplyUpdate(now, rec, dirs, readOnly, changed, fits, mods, cdir, mdir);
      e.outcome in {Updated, Failed(IoError)} &&
      DirAt(e.dirs, cdir) == DirAt(dirs, cdir) + changed + fits &&
      e.rec.entries == rec.entries + Fingerprints(changed)
  {
    ThreeCopiesLand(dirs, changed, fits, map[], cdir, mdir);
    ThreeCopiesLand(dirs, changed, fits, mods, cdir, mdir);
  }

  /** Neither an ingest nor an update writes a read-only directory. */
  lemma BookEffectSparesReadOnly(cfg: Config, env: Env, kind: BookType, book: BookDir,
                                 rec: RegistryRecord, dirs: Dirs, readOnly: set<string>)
    ensures forall p :: p in readOnly ==>
      DirAt(BookEffect(cfg, env, kind, book, rec, dirs, readOnly).dirs, p) == DirAt(dirs, p)
  {
    if rec.ingestDate.Some? {
      var base := WithBaseline(cfg, book.files, rec);
      var since := LatestUpdateDate(base).value;
      ApplyUpdateSparesReadOnly(env.now, base, dirs, readOnly,
        NewContentFiles(cfg, book.files, base), NewFitsFiles(book.files, since), NewModsFiles(book.files, since),
        UpdateContentDir(cfg, kind, book), UpdateMetadataDir(cfg, kind, book));
    }
  }

  /** Each copy of an update is made only into a writable directory. */
  lemma ApplyUpdateSparesReadOnly(now: int, rec: RegistryRecord, dirs: Dirs, readOnly: set<string>,
                                  changed: Dir, fits: Dir, mods: Dir, cdir: string, mdir: string)
    ensures forall p :: p in readOnly ==>
      DirAt(ApplyUpdate(now, rec, dirs, readOnly, changed, fits, mods, cdir, mdir).dirs, p) == DirAt(dirs, p)
  {
  }

  /** A successful update routes the new or changed content files and the new FITS files to
      the book's update-content directory and the new MODS files to its update-metadata
      directory, touches no other directory, and fingerprints exactly the changed content
      files. */
  lemma UpdateRouting(cfg: Config, now: int, kind: BookType, book: BookDir,
                      rec: RegistryRecord, dirs: Dirs, readOnly: set<string>)
    requires UpdateContentDir(cfg, kind, book) != UpdateMetadataDir(cfg, kind, book)
    requires UpdateEffect(cfg, now, kind, book, rec, dirs, readOnly).outcome == Updated
    ensures LatestUpdateDate(rec).Some?
    ensures var e := UpdateEffect(cfg, now, kind, book, rec, dirs, readOnly);
      var since := LatestUpdateDate(rec).value;
      var cdir := UpdateContentDir(cfg, kind, book);
      var mdir := UpdateMetadataDir(cfg, kind, book);
      DirAt(e.dirs, cdir) == DirAt(dirs, cdir) + NewContentFiles(cfg, book.files, rec) + NewFitsFiles(book.files, since) &&
      DirAt(e.dirs, mdir) == DirAt(dirs, mdir) + NewModsFiles(book.files, since) &&
      (forall d :: d != cdir && d != mdir ==> DirAt(e.dirs, d) == DirAt(dirs, d))
    ensures var e := UpdateEffect(cfg, now, kind, book, rec, dirs, readOnly);
      e.rec.ingestDate == rec.ingestDate && e.rec.updateDate == Some(now) &&
      e.rec.entries == rec.entries + Fingerprints(NewContentFiles(cfg, book.files, rec))
  {
    var since := LatestUpdateDate(rec).value;
    var changed := NewContentFiles(cfg, book.files, rec);
    var fits := NewFitsFiles(book.files, since);
    var mods := NewModsFiles(book.files, since);
    var cdir := UpdateContentDir(cfg, kind, book);
    var mdir := UpdateMetadataDir(cfg, kind, book);
    assert LatestUpdateDate(rec) == Some(since);
    assert !(changed == map[] && fits == map[] && mods == map[]);
    assert !(changed != map[] && cdir in readOnly);
    assert !(fits != map[] && cdir in readOnly);
    assert !(mods != map[] && mdir in readOnly);
    ThreeCopiesLand(dirs, changed, fits, mods, cdir, mdir);
  }

  /** The three copies of an update, skipping empty ones: the first two land in one directory,
      the third in another, and no other directory changes. */
  lemma ThreeCopiesLand(dirs: Dirs, changed: Dir, fits: Dir, mods: Dir, cdir: string, mdir: string)
    requires cdir != mdir
    ensures var dirs1 := if changed == map[] then dirs else CopyInto(dirs, changed, cdir);
      var dirs2 := if fits == map[] then dirs1 else CopyInto(dirs1, fits, cdir);
      var dirs3 := if mods == map[] then dirs2 else CopyInto(dirs2, mods, mdir);
      DirAt(dirs3, cdir) == DirAt(dirs, cdir) + changed + fits &&
      DirAt(dirs3, mdir) == DirAt(dirs, mdir) + mods &&
      (forall d :: d != cdir && d != mdir ==> DirAt(dirs3, d) == DirAt(dirs, d))
  {
    var dirs1 := if changed == map[] then dirs else CopyInto(dirs, changed, cdir);
    var dirs2 := if fits == map[] then dirs1 else CopyInto(dirs1, fits, cdir);
    assert DirAt(dirs1, cdir) == DirAt(dirs, cdir) + changed;
    assert DirAt(dirs2, cdir) == DirAt(dirs, cdir) + changed + fits;
    assert DirAt(dirs2, mdir) == DirAt(dirs, mdir);
  }
}
