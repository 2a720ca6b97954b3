/** The part of the file system the transfer writes: the destination directories (some of
    which may refuse writes) and each book's persisted registry. */
module FileSystem {
  import opened TransferModel
  import opened Registry

  class Store {
    var dirs: Dirs
    /** Directories where creating the directory or writing a file fails. */
    const readOnly: set<string>
    /** Persisted registries, by book name. */
    var registries: map<string, RegistryRecord>

    function State(): World
      reads this
    {
      World(dirs, readOnly, registries)
    }

    constructor (dirs: Dirs, readOnly: set<string>, registries: map<string, RegistryRecord>)
      ensures State() == World(dirs, readOnly, registries)
    {
      this.dirs := dirs;
      this.readOnly := readOnly;
      this.registries := registries;
    }

    /** Creates the directory if it does not exist yet; fails on a read-only path. */
    method MakeDirectory(path: string) returns (ok: bool)
      modifies this
      ensures ok == (path !in readOnly)
      ensures registries == old(registries)
      ensures dirs == if ok then old(dirs)[path := DirAt(old(dirs), path)] else old(dirs)
    {
      ok := path !in readOnly;
      if ok {
        dirs := dirs[path := DirAt(dirs, path)];
      }
    }

    /** Writes one file (a copy keeping time stamps and content) into a directory. */
    method PutFile(path: string, name: string, f: FileInfo) returns (ok: bool)
      modifies this
      ensures ok == (path !in readOnly)
      ensures registries == old(registries)
      ensures dirs == if ok then old(dirs)[path := DirAt(old(dirs), path)[name := f]] else old(dirs)
    {
      ok := path !in readOnly;
      if ok {
        dirs := dirs[path := DirAt(dirs, path)[name := f]];
      }
    }

    /** Opens the book's registry, empty when none was persisted. */
    method LoadRegistry(name: string) returns (reg: TransferRegistry)
      ensures fresh(reg)
      ensures reg.Record() == RegistryOf(registries, name)
    {
      reg := new TransferRegistry.Load(RegistryOf(registries, name));
    }

    method SaveRegistry(name: string, rec: RegistryRecord)
      modifies this
      ensures dirs == old(dirs)
      ensures registries == old(registries)[name := rec]
    {
      registries := registries[name := rec];
    }
  }
}
