/**
 * The host filesystem as the pipeline sees it: a finite map from paths to file
 * contents, updated in place by `shutil.copy2` and `shutil.move`. Directories,
 * metadata and permissions are not part of the model.
 */
module Storage {

  type Data = seq<bv8>

  /** The files after copying `src` to `dst`: the source stays, `dst` gets its bytes. */
  function Copied(files: map<string, Data>, src: string, dst: string): (r: map<string, Data>)
    requires src in files
    ensures r.Keys == files.Keys + {dst}
    ensures r[dst] == files[src]
    ensures src in r && r[src] == files[src]
    ensures forall p :: p in files && p != dst ==> r[p] == files[p]
  {
    files[dst := files[src]]
  }

  /**
   * The files after moving `src` to `dst` (a rename, which replaces a file already at
   * `dst`): `src` is gone unless it is `dst` itself, and `dst` holds its bytes.
   */
  function Moved(files: map<string, Data>, src: string, dst: string): (r: map<string, Data>)
    requires src in files
    ensures r.Keys == files.Keys - {src} + {dst}
    ensures r[dst] == files[src]
    ensures src != dst ==> src !in r
    ensures forall p :: p in files && p != src && p != dst ==> r[p] == files[p]
  {
    (files - {src})[dst := files[src]]
  }

  class FileSystem {
    var files: map<string, Data>

    constructor (initial: map<string, Data>)
      ensures files == initial
    {
      files := initial;
    }

    /** `os.path.exists`. */
    predicate Exists(path: string): (b: bool)
      reads this
      ensures b <==> path in files
    {
      path in files
    }

    /** `shutil.copy2(src, dst)`. */
    method Copy(src: string, dst: string)
      requires src in files
      modifies this
      ensures files == Copied(old(files), src, dst)
    {
      files := files[dst := files[src]];
    }

    /** `shutil.move(src, dst)`. */
    method Move(src: string, dst: string)
      requires src in files
      modifies this
      ensures files == Moved(old(files), src, dst)
    {
      files := (files - {src})[dst := files[src]];
    }
  }
}
