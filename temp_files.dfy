/**
 * The upload directory: files staged by the multipart middleware, the
 * age-based sweep that runs before each new file is staged, and the
 * per-request removal of a staged file.
 */
module TempFiles {
  import UploadPolicy

  /** Entries older than this many milliseconds are swept. */
  const MaxAgeMs: int := 60 * 60 * 1000

  /** `now - mtime > 60 * 60 * 1000`: strictly older than one hour. */
  predicate Stale(now: int, mtime: int)
  {
    now - mtime > MaxAgeMs
  }

  /**
   * The directory after a sweep at time `now`: stale entries are gone unless
   * their stat or unlink fails (`locked`), in which case they stay.
   */
  function Swept(files: map<string, int>, locked: set<string>, now: int): (r: map<string, int>)
    ensures forall f :: f in r <==> f in files && (f in locked || !Stale(now, files[f]))
    ensures forall f :: f in r ==> r[f] == files[f]
  {
    map f | f in files && (f in locked || !Stale(now, files[f])) :: files[f]
  }

  /**
   * The directory after removing `path`: a no-op for the empty (falsy) path, a
   * missing entry, or an entry whose unlink fails.
   */
  function AfterCleanup(files: map<string, int>, locked: set<string>, path: string): (r: map<string, int>)
    ensures path != "" && path !in locked ==> path !in r
    ensures forall f :: f != path ==> (f in r <==> f in files)
    ensures forall f :: f in r ==> f in files && r[f] == files[f]
    ensures path == "" || path in locked ==> r == files
  {
    if path != "" && path in files && path !in locked then files - {path} else files
  }

  /** The boundary: an entry exactly one hour old is kept, one a millisecond older is swept. */
  lemma OneHourBoundary(now: int)
    ensures !Stale(now, now - 3600000)
    ensures Stale(now, now - 3600001)
  {
  }

  /** A second sweep at the same instant removes nothing more. */
  lemma SweepIdempotent(files: map<string, int>, locked: set<string>, now: int)
    ensures Swept(Swept(files, locked, now), locked, now) == Swept(files, locked, now)
  {
  }

  /** Removing the same file twice is the same as removing it once. */
  lemma CleanupIdempotent(files: map<string, int>, locked: set<string>, path: string)
    ensures AfterCleanup(AfterCleanup(files, locked, path), locked, path) == AfterCleanup(files, locked, path)
  {
  }

  class TempDir {
    /** Entry name to modification time in milliseconds. */
    var files: map<string, int>
    /** Entries whose stat or unlink throws (permissions, a directory, a race). */
    var locked: set<string>
    /** The directory exists (or could be created) and can be listed. */
    var listable: bool

    constructor (files: map<string, int>, locked: set<string>, listable: bool)
      ensures this.files == files && this.locked == locked && this.listable == listable
    {
      this.files := files;
      this.locked := locked;
      this.listable := listable;
    }

    /**
     * `cleanupTempFile`: unlink the file if the path is truthy and the file
     * exists; a failing unlink is swallowed, so the call never throws.
     */
    method CleanupTempFile(path: string)
      modifies this
      ensures files == AfterCleanup(old(files), locked, path)
      ensures locked == old(locked) && listable == old(listable)
    {
      if path != "" && path in files {
        if path !in locked {
          files := files - {path};
        }
      }
    }

    /**
     * `cleanupOldFiles`: read the clock once, then visit every entry of the
     * listing; an entry older than one hour is unlinked, and a failure on one
     * entry is caught so the others are still visited. A directory that cannot
     * be listed ends the sweep quietly.
     */
    method CleanupOldFiles(now: int)
      modifies this
      ensures files == (if listable then Swept(old(files), locked, now) else old(files))
      ensures locked == old(locked) && listable == old(listable)
    {
      if !listable {
        return;
      }
      ghost var listing := files;
      var pending := files.Keys;
      while pending != {}
        invariant pending <= listing.Keys
        invariant forall f :: f in files <==>
          f in listing && (f in pending || f in locked || !Stale(now, listing[f]))
        invariant forall f :: f in files ==> files[f] == listing[f]
        invariant locked == old(locked) && listable == old(listable) && listable
        decreases pending
      {
        var f :| f in pending;
        if Stale(now, files[f]) && f !in locked {
          files := files - {f};
        }
        pending := pending - {f};
      }
      assert files == Swept(listing, locked, now);
    }

    /**
     * Staging one upload: the destination callback sweeps first, then the file
     * is written under the generated name with the original extension.
     */
    method StageUpload(now: int, prefix: string, originalName: string) returns (path: string)
      modifies this
      ensures path == UploadPolicy.StagedFilename(prefix, originalName)
      ensures files == (if listable then Swept(old(files), locked, now) else old(files))[path := now]
      ensures locked == old(locked) && listable == old(listable)
    {
      CleanupOldFiles(now);
      path := UploadPolicy.StagedFilename(prefix, originalName);
      files := files[path := now];
    }
  }
}
