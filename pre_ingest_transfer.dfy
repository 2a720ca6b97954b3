/** The pre-ingest transfer: for each book directory of a base directory, ingest it once when
    it is ready, and afterwards copy its new or changed files to the update destinations,
    keeping the book's registry up to date. Each method is proved against the specification
    function of the same operation in TransferModel. */
module PreIngestTransfer {
  import opened Constants
  import opened TransferModel
  import opened Registry
  import opened FileSystem

  /** Readiness for ingest, with the retention thresholds it read on the way. The required
      formats are checked first; then every content file's create and modify dates, stopping at
      the first failing file; the publication threshold is read only when all of that passed. */
  method ReadyForIngest(cfg: Config, env: Env, book: BookDir) returns (r: Readiness, consulted: set<Threshold>)
    ensures r == ReadinessOf(cfg, env, book)
    ensures !RequiredFormatsPresent(cfg.requiredFormats, book.files) ==> consulted == {}
    ensures CreateAge in consulted <==>
      RequiredFormatsPresent(cfg.requiredFormats, book.files) && ContentFiles(cfg, book.files) != map[]
    ensures PublicationAge in consulted <==>
      RequiredFormatsPresent(cfg.requiredFormats, book.files) &&
      ContentDatesOk(cfg.policy, ContentFiles(cfg, book.files), env.now)
    ensures ModifyAge in consulted ==>
      exists n :: n in ContentFiles(cfg, book.files) &&
        RetainedLongEnough(ContentFiles(cfg, book.files)[n].ctime, cfg.policy.retainCreateDate, env.now)
    ensures PublicationAge in consulted && ContentFiles(cfg, book.files) != map[] ==> ModifyAge in consulted
  {
    consulted := {};
    for i := 0 to |cfg.requiredFormats|
      invariant forall j :: 0 <= j < i ==> HasRequiredFile(book.files, cfg.requiredFormats[j])
    {
      if !HasRequiredFile(book.files, cfg.requiredFormats[i]) {
        return NotReady, {};
      }
    }
    var content := ContentFiles(cfg, book.files);
    var todo := content.Keys;
    while todo != {}
      invariant todo <= content.Keys
      invariant forall n :: n in content && n !in todo ==> HasContentFileDate(cfg.policy, content[n], env.now).ok
      invariant CreateAge in consulted <==> todo != content.Keys
      invariant PublicationAge !in consulted
      invariant ModifyAge in consulted ==>
        exists n :: n in content && RetainedLongEnough(content[n].ctime, cfg.policy.retainCreateDate, env.now)
      invariant todo != content.Keys ==> ModifyAge in consulted
      decreases todo
    {
      var n :| n in todo;
      var check := HasContentFileDate(cfg.policy, content[n], env.now);
      consulted := consulted + check.consulted;
      if !check.ok {
        return NotReady, consulted;
      }
      todo := todo - {n};
    }
    consulted := consulted + {PublicationAge};
    r := PublicationReadiness(cfg.policy, env, book);
  }

  /** Copies files into a destination directory, creating it first; nothing is copied when the
      directory cannot be written. The source files are not touched. */
  method CopyUpdatedFiles(fs: Store, files: Dir, dest: string) returns (ok: bool)
    modifies fs
    ensures ok == (dest !in fs.readOnly)
    ensures fs.dirs == if ok then CopyInto(old(fs.dirs), files, dest) else old(fs.dirs)
    ensures fs.registries == old(fs.registries)
  {
    ok := fs.MakeDirectory(dest);
    if !ok {
      return;
    }
    assert DirAt(fs.dirs, dest) == DirAt(old(fs.dirs), dest);
    WriteFiles(fs, files, dest);
  }

  /** Writes the files one at a time into an existing, writable directory. */
  method WriteFiles(fs: Store, files: Dir, dest: string)
    requires dest in fs.dirs && dest !in fs.readOnly
    modifies fs
    ensures fs.dirs == CopyInto(old(fs.dirs), files, dest)
    ensures fs.registries == old(fs.registries)
  {
    var todo := files.Keys;
    ghost var present := DirAt(old(fs.dirs), dest);
    ghost var copied: Dir := map[];
    assert present + copied == present;
    assert old(fs.dirs)[dest := present] == old(fs.dirs);
    while todo != {}
      invariant todo <= files.Keys
      invariant copied.Keys == files.Keys - todo
      invariant forall n :: n in copied ==> copied[n] == files[n]
      invariant fs.dirs == old(fs.dirs)[dest := present + copied]
      invariant fs.registries == old(fs.registries)
      decreases todo
    {
      var n :| n in todo;
      var written := fs.PutFile(dest, n, files[n]);
      assert written;
      assert (present + copied)[n := files[n]] == present + copied[n := files[n]];
      copied := copied[n := files[n]];
      todo := todo - {n};
    }
    assert copied == files;
  }

  /** Ingests a book when it is ready: copies the whole book directory to the ingest
      destination, then stamps the ingest date and fingerprints every content file, one file
      at a time. */
  method IngestBook(cfg: Config, env: Env, kind: BookType, fs: Store, reg: TransferRegistry, book: BookDir)
    returns (outcome: Outcome)
    modifies fs, reg
    ensures var e := IngestEffect(cfg, env, kind, book, old(reg.Record()), old(fs.dirs), fs.readOnly);
      reg.Record() == e.rec && fs.dirs == e.dirs && outcome == e.outcome
    ensures fs.registries == old(fs.registries)
  {
    var ready, _ := ReadyForIngest(cfg, env, book);
    if ready == NotReady {
      return NotYetReady;
    }
    if ready == MalformedMetadata {
      return Failed(BadMetadata);
    }
    var ok := CopyUpdatedFiles(fs, book.files, IngestDir(cfg, kind, book));
    if !ok {
      return Failed(IoError);
    }
    RegisterIngest(reg, env.now, ContentFiles(cfg, book.files));
    outcome := Ingested;
  }

  /** Stamps the ingest date, then records the fingerprint of each content file, one file at
      a time. */
  method RegisterIngest(reg: TransferRegistry, now: int, content: Dir)
    modifies reg
    ensures reg.Record() == old(reg.Record()).(ingestDate := Some(now),
                                               entries := old(reg.entries) + Fingerprints(content))
  {
    reg.SetIngestDate(now);
    var todo := content.Keys;
    ghost var done: Dir := map[];
    ghost var stamped := reg.Record();
    assert stamped.entries + Fingerprints(done) == stamped.entries;
    while todo != {}
      invariant todo <= content.Keys
      invariant done.Keys == content.Keys - todo
      invariant forall n :: n in done ==> done[n] == content[n]
      invariant reg.ingestDate == stamped.ingestDate && reg.updateDate == stamped.updateDate
      invariant reg.entries == stamped.entries + Fingerprints(done)
      decreases todo
    {
      var n :| n in todo;
      reg.SetChecksumAndDate(n, content[n]);
      done := done[n := content[n]];
      todo := todo - {n};
    }
    assert done == content;
  }

  /** Updates an ingested book: copies new or changed content files and new FITS files to the
      book's update-content directory and new MODS files to its update-metadata directory. The
      copied content files are fingerprinted as soon as they are copied; the update date is
      stamped once every copy succeeded. */
  method UpdateBook(cfg: Config, now: int, kind: BookType, fs: Store, reg: TransferRegistry, book: BookDir)
    returns (outcome: Outcome)
    modifies fs, reg
    ensures var e := UpdateEffect(cfg, now, kind, book, old(reg.Record()), old(fs.dirs), fs.readOnly);
      reg.Record() == e.rec && fs.dirs == e.dirs && outcome == e.outcome
    ensures fs.registries == old(fs.registries)
  {
    var latest := reg.GetLatestUpdateDate();
    if latest.None? {
      return NoChanges;
    }
    var since := latest.value;
    var changed := FindNewContentFiles(cfg, reg, book.files);
    var fits := NewFitsFiles(book.files, since);
    var mods := NewModsFiles(book.files, since);
    if changed == map[] && fits == map[] && mods == map[] {
      return NoChanges;
    }
    outcome := CopyUpdate(now, fs, reg, changed, fits, mods,
                          UpdateContentDir(cfg, kind, book), UpdateMetadataDir(cfg, kind, book));
  }

  /** Asks the registry about each content file in turn: a file without an entry, or whose
      entry does not verify, is new or changed. */
  method FindNewContentFiles(cfg: Config, reg: TransferRegistry, files: Dir) returns (changed: Dir)
    ensures changed == NewContentFiles(cfg, files, reg.Record())
  {
    var content := ContentFiles(cfg, files);
    var todo := content.Keys;
    changed := map[];
    while todo != {}
      invariant todo <= content.Keys
      invariant forall n :: n in changed <==>
        n in content && n !in todo && !VerifyFile(reg.Record(), n, content[n])
      invariant forall n :: n in changed ==> changed[n] == content[n]
      decreases todo
    {
      var n :| n in todo;
      if !reg.HasFileEntry(n) || !reg.Verify(n, content[n]) {
        changed := changed[n := content[n]];
      }
      todo := todo - {n};
    }
    assert changed == NewContentFiles(cfg, files, reg.Record());
  }

  /** The copies of one update, in the order `ApplyUpdate` gives, with the registry changes
      each completed copy commits. */
  method CopyUpdate(now: int, fs: Store, reg: TransferRegistry, changed: Dir, fits: Dir, mods: Dir,
                    contentDir: string, metadataDir: string)
    returns (outcome: Outcome)
    requires changed != map[] || fits != map[] || mods != map[]
    modifies fs, reg
    ensures var e := ApplyUpdate(now, old(reg.Record()), old(fs.dirs), fs.readOnly,
                                 changed, fits, mods, contentDir, metadataDir);
      reg.Record() == e.rec && fs.dirs == e.dirs && outcome == e.outcome
    ensures fs.registries == old(fs.registries)
  {
    var ok := true;
    if changed != map[] {
      ok := CopyUpdatedFiles(fs, changed, contentDir);
      if !ok {
        return Failed(IoError);
      }
      reg.UpdateFileEntries(changed);
    }
    if fits != map[] {
      ok := CopyUpdatedFiles(fs, fits, contentDir);
      if !ok {
        return Failed(IoError);
      }
    }
    if mods != map[] {
      ok := CopyUpdatedFiles(fs, mods, metadataDir);
      if !ok {
        return Failed(IoError);
      }
    }
    reg.SetUpdateDate(now);
    outcome := Updated;
  }

  /** A registry that fingerprints none of the book's content files gets their current
      fingerprints as a baseline; any other registry is left alone. */
  method RegisterBaseline(cfg: Config, reg: TransferRegistry, book: BookDir)
    modifies reg
    ensures reg.Record() == WithBaseline(cfg, book.files, old(reg.Record()))
  {
    var content := ContentFiles(cfg, book.files);
    if forall n | n in content :: !reg.HasFileEntry(n) {
      reg.UpdateFileEntries(content);
    }
  }

  /** Processes every entry of a base directory in order. Each book directory has its
      registry loaded; a book never ingested is ingested when ready, any other book is updated.
      A registry that changed is saved. A failing book is reported and the next one processed. */
  method TransferBook(cfg: Config, env: Env, kind: BookType, fs: Store, base: seq<BaseEntry>)
    returns (outcomes: seq<Outcome>)
    modifies fs
    ensures Run(fs.State(), outcomes) == TransferAll(cfg, env, kind, old(fs.State()), base)
  {
    outcomes := [];
    for i := 0 to |base|
      invariant Run(fs.State(), outcomes) == TransferAll(cfg, env, kind, old(fs.State()), base[..i])
    {
      assert base[..i + 1][..i] == base[..i];
      match base[i]
      case PlainFile(_) =>
        outcomes := outcomes + [Skipped];
      case BookDirectory(book) =>
        var reg := fs.LoadRegistry(book.name);
        var loaded := reg.Record();
        var outcome;
        if reg.GetIngestDate().None? {
          outcome := IngestBook(cfg, env, kind, fs, reg, book);
        } else {
          RegisterBaseline(cfg, reg, book);
          outcome := UpdateBook(cfg, env.now, kind, fs, reg, book);
        }
        if reg.Record() != loaded {
          fs.SaveRegistry(book.name, reg.Record());
        }
        outcomes := outcomes + [outcome];
    }
    assert base[..|base|] == base;
  }
}
