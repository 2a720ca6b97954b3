/** The per-book transfer registry: when the book was ingested and last updated, and a
    fingerprint (checksum and last-modified time) of each content file it has copied. */
module Registry {
  import opened TransferModel

  class TransferRegistry {
    var ingestDate: Option<int>
    var updateDate: Option<int>
    var entries: map<string, FileEntry>

    /** The registry as it is persisted. */
    function Record(): RegistryRecord
      reads this
    {
      RegistryRecord(ingestDate, updateDate, entries)
    }

    /** Loads a persisted registry; an absent one loads as the empty record. */
    constructor Load(rec: RegistryRecord)
      ensures Record() == rec
    {
      ingestDate := rec.ingestDate;
      updateDate := rec.updateDate;
      entries := rec.entries;
    }

    /** The file has an entry in the persisted record. */
    predicate HasFileEntry(name: string)
      reads this
      ensures HasFileEntry(name) <==> name in Record().entries
    {
      name in entries
    }

    /** The file's current checksum matches its entry; false when there is no entry. */
    predicate Verify(name: string, f: FileInfo)
      reads this
      ensures Verify(name, f) <==> HasFileEntry(name) && entries[name].checksum == f.checksum
    {
      VerifyFile(Record(), name, f)
    }

    function GetIngestDate(): (r: Option<int>)
      reads this
      ensures r == Record().ingestDate
    {
      ingestDate
    }

    /** The update date when there is one, otherwise the ingest date. */
    function GetLatestUpdateDate(): (r: Option<int>)
      reads this
      ensures r == LatestUpdateDate(Record())
    {
      if updateDate.Some? then updateDate else ingestDate
    }

    method SetIngestDate(date: int)
      modifies this
      ensures Record() == old(Record()).(ingestDate := Some(date))
    {
      ingestDate := Some(date);
    }

    method SetUpdateDate(date: int)
      modifies this
      ensures Record() == old(Record()).(updateDate := Some(date))
    {
      updateDate := Some(date);
    }

    /** Records (or replaces) the fingerprint of one file. */
    method SetChecksumAndDate(name: string, f: FileInfo)
      modifies this
      ensures Record() == old(Record()).(entries := old(entries)[name := Fingerprint(f)])
    {
      entries := entries[name := Fingerprint(f)];
    }

    /** Records the fingerprint of every given file, one at a time. */
    method UpdateFileEntries(files: Dir)
      modifies this
      ensures Record() == old(Record()).(entries := old(entries) + Fingerprints(files))
    {
      var todo := files.Keys;
      ghost var done: Dir := map[];
      while todo != {}
        invariant todo <= files.Keys
        invariant done.Keys == files.Keys - todo
        invariant forall n :: n in done ==> done[n] == files[n]
        invariant ingestDate == old(ingestDate) && updateDate == old(updateDate)
        invariant entries == old(entries) + Fingerprints(done)
        decreases todo
      {
        var n :| n in todo;
        SetChecksumAndDate(n, files[n]);
        done := done[n := files[n]];
        todo := todo - {n};
      }
      assert done == files;
    }
  }
}
