/** The values the pre-ingest transfer works on, and the specification functions that say what
    each of its operations decides: readiness for ingest, change detection, routing of updated
    files, and the effect of processing one book directory or a whole base directory. */
module TransferModel {
  import opened Strings
  import opened Constants

  datatype Option<T> = None | Some(value: T)

  /** A file as the transfer sees it: creation time, last-modified time (milliseconds) and the
      checksum of its content. */
  datatype FileInfo = FileInfo(ctime: int, mtime: int, checksum: int)

  /** The files of one directory, by file name. */
  type Dir = map<string, FileInfo>

  /** A book directory: named by the book identifier, holding content and metadata files. */
  datatype BookDir = BookDir(name: string, files: Dir)

  /** An entry of a base directory: only sub-directories are books. */
  datatype BaseEntry = BookDirectory(book: BookDir) | PlainFile(fileName: string)

  datatype BookType = Ebook | Audio

  /** Minimum ages (milliseconds) since creation, modification and publication. A negative
      threshold switches its check off. */
  datatype RetentionPolicy = RetentionPolicy(
    retainCreateDate: int,
    retainModifyDate: int,
    retainPublicationDate: int)

  /** The configuration the transfer reads; it never changes during a run. */
  datatype Config = Config(
    ebookFormats: seq<string>,
    audioFormats: seq<string>,
    requiredFormats: seq<string>,
    policy: RetentionPolicy,
    ebookIngestDir: string,
    audioIngestDir: string,
    updateEbookContentDir: string,
    updateAudioContentDir: string,
    updateEbookMetadataDir: string,
    updateAudioMetadataDir: string)

  /** What the publication-date extractor finds in a metadata document. */
  datatype PubDate = Present(date: int) | Absent | ParseError

  /** What the transfer takes from outside: the current time and the publication-date
      extractor (XML parsing is not modelled). */
  datatype Env = Env(
    now: int,
    findPublicationDate: FileInfo -> PubDate)

  /** The registry's fingerprint of one content file. */
  datatype FileEntry = FileEntry(checksum: int, lastModified: int)

  /** The persisted per-book registry. A registry written before file fingerprints existed
      holds only an ingest date: its entries are empty. */
  datatype RegistryRecord = RegistryRecord(
    ingestDate: Option<int>,
    updateDate: Option<int>,
    entries: map<string, FileEntry>)

  const EmptyRecord := RegistryRecord(None, None, map[])

  datatype Readiness = Ready | NotReady | MalformedMetadata

  /** The three retention thresholds of the policy, as observable reads. */
  datatype Threshold = CreateAge | ModifyAge | PublicationAge

  /** The verdict of a retention check and the thresholds it read to reach it. */
  datatype DateCheck = DateCheck(ok: bool, consulted: set<Threshold>)

  datatype Failure = IoError | BadMetadata

  /** What processing one base-directory entry did. */
  datatype Outcome = Skipped | NotYetReady | Ingested | NoChanges | Updated | Failed(reason: Failure)

  /** Destination directories, by path. */
  type Dirs = map<string, Dir>

  // ---------------------------------------------------------------------------------------
  // Classification of files

  /** A content file: its name ends with one of the ebook or audio formats. */
  predicate IsContentFile(cfg: Config, name: string) {
    EndsWithAny(name, cfg.ebookFormats + cfg.audioFormats)
  }

  /** The content files of a directory, whatever their dates. */
  function ContentFiles(cfg: Config, files: Dir): (r: Dir)
    ensures forall n :: n in r <==>
      (n in files && exists fmt :: fmt in cfg.ebookFormats + cfg.audioFormats && EndsWith(n, fmt))
    ensures forall n :: n in r ==> r[n] == files[n]
  {
    forall n | n in files ensures IsContentFile(cfg, n) <==>
      exists fmt :: fmt in cfg.ebookFormats + cfg.audioFormats && EndsWith(n, fmt)
    {
      EndsWithAnyMembers(n, cfg.ebookFormats + cfg.audioFormats);
    }
    map n | n in files && IsContentFile(cfg, n) :: files[n]
  }

  /** The files whose name ends with one of `suffixes` and that were modified after `date`. */
  function NewFilesWithSuffix(files: Dir, suffixes: seq<string>, date: int): (r: Dir)
    ensures forall n :: n in r <==>
      (n in files && files[n].mtime > date && exists s :: s in suffixes && EndsWith(n, s))
    ensures forall n :: n in r ==> r[n] == files[n]
  {
    forall n | n in files ensures EndsWithAny(n, suffixes) <==> exists s :: s in suffixes && EndsWith(n, s) {
      EndsWithAnyMembers(n, suffixes);
    }
    map n | n in files && EndsWithAny(n, suffixes) && files[n].mtime > date :: files[n]
  }

  /** The fingerprint the registry keeps of a file. */
  function Fingerprint(f: FileInfo): FileEntry {
    FileEntry(f.checksum, f.mtime)
  }

  function Fingerprints(files: Dir): map<string, FileEntry> {
    map n | n in files :: Fingerprint(files[n])
  }

  /** The registry's check of a file: an entry exists and its checksum is the file's. */
  predicate VerifyFile(rec: RegistryRecord, name: string, f: FileInfo) {
    name in rec.entries && rec.entries[name].checksum == f.checksum
  }

  /** The content files that are new or changed with respect to the registry: those without an
      entry, and those whose checksum no longer matches their entry. */
  function NewContentFiles(cfg: Config, files: Dir, rec: RegistryRecord): (r: Dir)
    ensures forall n :: n in r <==> n in ContentFiles(cfg, files) && !VerifyFile(rec, n, files[n])
    ensures forall n :: n in r ==> r[n] == files[n]
  {
    var content := ContentFiles(cfg, files);
    map n | n in content && !VerifyFile(rec, n, content[n]) :: content[n]
  }

  // ---------------------------------------------------------------------------------------
  // Readiness for ingest

  /** Some file of the directory ends with the required suffix. */
  predicate HasRequiredFile(files: Dir, suffix: string) {
    exists n :: n in files && EndsWith(n, suffix)
  }

  predicate RequiredFormatsPresent(required: seq<string>, files: Dir) {
    forall i :: 0 <= i < |required| ==> HasRequiredFile(files, required[i])
  }

  /** A time stamp passes a retention threshold when the threshold is off, or the time stamp
      lies at least `threshold` milliseconds before `now`. */
  predicate RetainedLongEnough(time: int, threshold: int, now: int) {
    threshold < 0 || time + threshold <= now
  }

  /** The create and modify retention checks of one content file. The create threshold is
      read first; the modify threshold is read only when the create check passed. */
  function HasContentFileDate(p: RetentionPolicy, f: FileInfo, now: int): (r: DateCheck)
    ensures r.ok <==> RetainedLongEnough(f.ctime, p.retainCreateDate, now) &&
                      RetainedLongEnough(f.mtime, p.retainModifyDate, now)
    ensures CreateAge in r.consulted && PublicationAge !in r.consulted
    ensures ModifyAge in r.consulted <==> RetainedLongEnough(f.ctime, p.retainCreateDate, now)
  {
    if p.retainCreateDate >= 0 && f.ctime + p.retainCreateDate > now then
      DateCheck(false, {CreateAge})
    else if p.retainModifyDate >= 0 && f.mtime + p.retainModifyDate > now then
      DateCheck(false, {CreateAge, ModifyAge})
    else
      DateCheck(true, {CreateAge, ModifyAge})
  }

  predicate ContentDatesOk(p: RetentionPolicy, content: Dir, now: int) {
    forall n :: n in content ==> HasContentFileDate(p, content[n], now).ok
  }

  /** The book's publisher metadata file is named after the book. */
  function PublicationFileName(book: BookDir): string {
    book.name + PUBHUB_METADATA_SUFFIX
  }

  /** A publication date passes the threshold when it lies less than `threshold` milliseconds
      before `now`. */
  predicate PublicationDateAccepted(date: int, threshold: int, now: int) {
    date + threshold > now
  }

  /** The publication-date check: off, or the metadata file must exist, parse, hold a date and
      that date must pass the threshold. A file that does not parse is an error, not "not ready". */
  function PublicationReadiness(p: RetentionPolicy, env: Env, book: BookDir): (r: Readiness)
    ensures r == MalformedMetadata <==>
      p.retainPublicationDate >= 0 && PublicationFileName(book) in book.files &&
      env.findPublicationDate(book.files[PublicationFileName(book)]) == ParseError
    ensures r == Ready <==>
      p.retainPublicationDate < 0 ||
      (PublicationFileName(book) in book.files &&
       env.findPublicationDate(book.files[PublicationFileName(book)]).Present? &&
       PublicationDateAccepted(env.findPublicationDate(book.files[PublicationFileName(book)]).date,
                               p.retainPublicationDate, env.now))
  {
    if p.retainPublicationDate < 0 then Ready
    else if PublicationFileName(book) !in book.files then NotReady
    else match env.findPublicationDate(book.files[PublicationFileName(book)])
      case ParseError => MalformedMetadata
      case Absent => NotReady
      case Present(d) =>
        if PublicationDateAccepted(d, p.retainPublicationDate, env.now) then Ready else NotReady
  }

  /** Whether a book directory may be ingested: the required formats, then the content files'
      dates, then the publication date, stopping at the first check that fails. */
  function ReadinessOf(cfg: Config, env: Env, book: BookDir): (r: Readiness)
    ensures r == Ready <==>
      RequiredFormatsPresent(cfg.requiredFormats, book.files) &&
      ContentDatesOk(cfg.policy, ContentFiles(cfg, book.files), env.now) &&
      PublicationReadiness(cfg.policy, env, book) == Ready
    ensures r == MalformedMetadata ==>
      RequiredFormatsPresent(cfg.requiredFormats, book.files) &&
      ContentDatesOk(cfg.policy, ContentFiles(cfg, book.files), env.now) &&
      PublicationFileName(book) in book.files &&
      env.findPublicationDate(book.files[PublicationFileName(book)]) == ParseError
  {
    if !RequiredFormatsPresent(cfg.requiredFormats, book.files) then NotReady
    else if !ContentDatesOk(cfg.policy, ContentFiles(cfg, book.files), env.now) then NotReady
    else PublicationReadiness(cfg.policy, env, book)
  }

  // ---------------------------------------------------------------------------------------
  // Destinations

  function IngestRoot(cfg: Config, kind: BookType): string {
    if kind == Ebook then cfg.ebookIngestDir else cfg.audioIngestDir
  }

  function UpdateContentRoot(cfg: Config, kind: BookType): string {
    if kind == Ebook then cfg.updateEbookContentDir else cfg.updateAudioContentDir
  }

  function UpdateMetadataRoot(cfg: Config, kind: BookType): string {
    if kind == Ebook then cfg.updateEbookMetadataDir else cfg.updateAudioMetadataDir
  }

  /** Each destination is the book's own sub-directory of the configured root. */
  function IngestDir(cfg: Config, kind: BookType, book: BookDir): string {
    IngestRoot(cfg, kind) + "/" + book.name
  }

  function UpdateContentDir(cfg: Config, kind: BookType, book: BookDir): string {
    UpdateContentRoot(cfg, kind) + "/" + book.name
  }

  function UpdateMetadataDir(cfg: Config, kind: BookType, book: BookDir): string {
    UpdateMetadataRoot(cfg, kind) + "/" + book.name
  }

  function DirAt(dirs: Dirs, path: string): Dir {
    if path in dirs then dirs[path] else map[]
  }

  /** Copying files into a directory creates it if needed and overwrites same-named files;
      each copy keeps its source's time stamps and content. */
  function CopyInto(dirs: Dirs, files: Dir, dest: string): Dirs {
    dirs[dest := DirAt(dirs, dest) + files]
  }

  // ---------------------------------------------------------------------------------------
  // Ingest and update of one book

  /** The state one book's processing leaves behind, and what it reports. */
  datatype Effect = Effect(rec: RegistryRecord, dirs: Dirs, outcome: Outcome)

  /** Ingest: when ready, copy the whole book directory to the ingest destination, then stamp
      the ingest date and fingerprint every content file. A failed copy stamps nothing. */
  function IngestEffect(cfg: Config, env: Env, kind: BookType, book: BookDir,
                        rec: RegistryRecord, dirs: Dirs, readOnly: set<string>): Effect {
    match ReadinessOf(cfg, env, book)
    case NotReady => Effect(rec, dirs, NotYetReady)
    case MalformedMetadata => Effect(rec, dirs, Failed(BadMetadata))
    case Ready =>
      if IngestDir(cfg, kind, book) in readOnly then Effect(rec, dirs, Failed(IoError))
      else Effect(
        rec.(ingestDate := Some(env.now),
             entries := rec.entries + Fingerprints(ContentFiles(cfg, book.files))),
        CopyInto(dirs, book.files, IngestDir(cfg, kind, book)),
        Ingested)
  }

  /** The date changes are measured from: the latest update, or else the ingest. */
  function LatestUpdateDate(rec: RegistryRecord): (r: Option<int>)
    ensures r.None? <==> rec.ingestDate.None? && rec.updateDate.None?
    ensures rec.updateDate.Some? ==> r == rec.updateDate
    ensures rec.updateDate.None? ==> r == rec.ingestDate
  {
    if rec.updateDate.Some? then rec.updateDate else rec.ingestDate
  }

  /** New characterization output: routed with the content. */
  function NewFitsFiles(files: Dir, since: int): Dir {
    NewFilesWithSuffix(files, [FITS_METADATA_SUFFIX], since)
  }

  /** New MODS records: routed to the metadata destination. */
  function NewModsFiles(files: Dir, since: int): Dir {
    NewFilesWithSuffix(files, [MODS_METADATA_SUFFIX], since)
  }

  /** Update: nothing without a reference date. Otherwise the new or changed content files
      and the FITS and MODS files modified after that date are copied as `ApplyUpdate` says. */
  function UpdateEffect(cfg: Config, now: int, kind: BookType, book: BookDir,
                        rec: RegistryRecord, dirs: Dirs, readOnly: set<string>): Effect {
    match LatestUpdateDate(rec)
    case None => Effect(rec, dirs, NoChanges)
    case Some(since) =>
      ApplyUpdate(now, rec, dirs, readOnly,
                  NewContentFiles(cfg, book.files, rec), NewFitsFiles(book.files, since),
                  NewModsFiles(book.files, since),
                  UpdateContentDir(cfg, kind, book), UpdateMetadataDir(cfg, kind, book))
  }

  /** Nothing happens when no file is new. Otherwise the changed content files and then the new
      FITS files are copied to the update-content directory, then the new MODS files to the
      update-metadata directory, each copy skipped when it has no files; once all copies
      succeeded, the update date is stamped and the copied content files fingerprinted. A
      failed copy stops the update with what was copied before it; content files that were
      copied keep their fingerprints, and the update date is not stamped. */
  function ApplyUpdate(now: int, rec: RegistryRecord, dirs: Dirs, readOnly: set<string>,
                       changed: Dir, fits: Dir, mods: Dir, contentDir: string, metadataDir: string): Effect {
    if changed == map[] && fits == map[] && mods == map[] then Effect(rec, dirs, NoChanges)
    else if changed != map[] && contentDir in readOnly then Effect(rec, dirs, Failed(IoError))
    else
      var dirs1 := if changed == map[] then dirs else CopyInto(dirs, changed, contentDir);
      if fits != map[] && contentDir in readOnly then Effect(rec, dirs1, Failed(IoError))
      else
        var dirs2 := if fits == map[] then dirs1 else CopyInto(dirs1, fits, contentDir);
        if mods != map[] && metadataDir in readOnly then
          Effect(if changed == map[] then rec else rec.(entries := rec.entries + Fingerprints(changed)),
                 dirs2, Failed(IoError))
        else
          var dirs3 := if mods == map[] then dirs2 else CopyInto(dirs2, mods, metadataDir);
          Effect(rec.(updateDate := Some(now), entries := rec.entries + Fingerprints(changed)),
                 dirs3, Updated)
  }

  /** The registry fingerprints none of the book's content files: it was written before file
      fingerprints existed. */
  predicate Unfingerprinted(cfg: Config, files: Dir, rec: RegistryRecord) {
    forall n :: n in ContentFiles(cfg, files) ==> n !in rec.entries
  }

  /** Before an update, a registry that fingerprints none of the content files gets their
      current fingerprints as a baseline; any other registry is left as it is. */
  function WithBaseline(cfg: Config, files: Dir, rec: RegistryRecord): (r: RegistryRecord)
    ensures r.ingestDate == rec.ingestDate && r.updateDate == rec.updateDate
    ensures forall n :: n in rec.entries ==> n in r.entries && r.entries[n] == rec.entries[n]
    ensures forall n :: n in r.entries <==>
      n in rec.entries || (Unfingerprinted(cfg, files, rec) && n in ContentFiles(cfg, files))
    ensures Unfingerprinted(cfg, files, rec) ==>
      forall n :: n in ContentFiles(cfg, files) ==> r.entries[n] == Fingerprint(files[n])
    ensures !Unfingerprinted(cfg, files, rec) ==> r == rec
  {
    if Unfingerprinted(cfg, files, rec) then
      rec.(entries := rec.entries + Fingerprints(ContentFiles(cfg, files)))
    else rec
  }

  /** One book directory: ingest when its registry has no ingest date, otherwise update. */
  function BookEffect(cfg: Config, env: Env, kind: BookType, book: BookDir,
                      rec: RegistryRecord, dirs: Dirs, readOnly: set<string>): Effect {
    if rec.ingestDate.None? then IngestEffect(cfg, env, kind, book, rec, dirs, readOnly)
    else UpdateEffect(cfg, env.now, kind, book, WithBaseline(cfg, book.files, rec), dirs, readOnly)
  }

  // ---------------------------------------------------------------------------------------
  // A whole base directory

  /** The destinations (with the paths whose writes fail) and the persisted registries, by
      book name. */
  datatype World = World(dirs: Dirs, readOnly: set<string>, registries: map<string, RegistryRecord>)

  function RegistryOf(registries: map<string, RegistryRecord>, name: string): RegistryRecord {
    if name in registries then registries[name] else EmptyRecord
  }

  datatype Run = Run(world: World, outcomes: seq<Outcome>)

  /** One entry of the base directory: plain files are skipped; a book's registry is written
      back when its processing changed it. */
  function TransferEntry(cfg: Config, env: Env, kind: BookType, w: World, e: BaseEntry): Run {
    match e
    case PlainFile(_) => Run(w, [Skipped])
    case BookDirectory(book) =>
      var rec := RegistryOf(w.registries, book.name);
      var eff := BookEffect(cfg, env, kind, book, rec, w.dirs, w.readOnly);
      Run(w.(dirs := eff.dirs,
             registries := if eff.rec == rec then w.registries else w.registries[book.name := eff.rec]),
          [eff.outcome])
  }

  /** The entries in order, each from the state the previous ones left; a failing book does
      not stop the others. */
  function TransferAll(cfg: Config, env: Env, kind: BookType, w: World, entries: seq<BaseEntry>): Run
    decreases |entries|
  {
    if entries == [] then Run(w, [])
    else
      var before := TransferAll(cfg, env, kind, w, entries[..|entries| - 1]);
      var last := TransferEntry(cfg, env, kind, before.world, entries[|entries| - 1]);
      Run(last.world, before.outcomes + last.outcomes)
  }
}
