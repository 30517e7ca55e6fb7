/**
 * cleanupFiles: the retention sweep run over uploads/ and output/ on every
 * request. A directory is a map from entry name to what `is_file` and
 * `filemtime` report for it; the clock reading `time()` is a parameter.
 */
module Cleanup {

  /** Twenty-four hours, in seconds. */
  const RETENTION: int := 86400

  /** An entry of the directory: whether it is a regular file, and its modification time. */
  datatype Entry = Entry(isFile: bool, mtime: int)

  type Directory = map<string, Entry>

  /** `glob($dir . '*')` lists every name that does not start with a dot. */
  predicate Listed(name: string) {
    name != [] && name[0] != '.'
  }

  /** `$now - filemtime($file) >= 86400`. */
  predicate Expired(e: Entry, now: int) {
    now - e.mtime >= RETENTION
  }

  /** The sweep unlinks a listed regular file once it has expired. */
  predicate Swept(name: string, e: Entry, now: int) {
    Listed(name) && e.isFile && Expired(e, now)
  }

  /** The directory once every listed name outside `pending` has been visited. */
  function SweptExcept(dir: Directory, now: int, pending: set<string>): Directory {
    map name | name in dir && !(name !in pending && Swept(name, dir[name], now)) :: dir[name]
  }

  /** The directory after a complete sweep. */
  function AfterSweep(dir: Directory, now: int): Directory {
    SweptExcept(dir, now, {})
  }

  /** The loop over the listed names; the order glob returns them in does not matter. */
  method CleanupFiles(dir: Directory, now: int) returns (after: Directory)
    ensures after == AfterSweep(dir, now)
  {
    var files := set name | name in dir && Listed(name);
    after := dir;
    assert after == SweptExcept(dir, now, files);
    while files != {}
      invariant files <= dir.Keys
      invariant forall name :: name in files ==> Listed(name)
      invariant after == SweptExcept(dir, now, files)
      decreases |files|
    {
      var file :| file in files;
      if dir[file].isFile && now - dir[file].mtime >= RETENTION {
        after := after - {file};
      }
      files := files - {file};
      assert after == SweptExcept(dir, now, files);
    }
  }

  // ---------------------------------------------------------------------
  // Properties of the sweep
  // ---------------------------------------------------------------------

  /**
   * An entry survives exactly when it is hidden from glob, is not a regular
   * file, or is less than a day old; survivors are unchanged and nothing new
   * appears.
   */
  lemma Survivors(dir: Directory, now: int, name: string)
    ensures name in AfterSweep(dir, now) <==>
      name in dir && (!Listed(name) || !dir[name].isFile || now - dir[name].mtime < RETENTION)
    ensures name in AfterSweep(dir, now) ==> AfterSweep(dir, now)[name] == dir[name]
  {
  }

  /** A file exactly 86400 seconds old is removed; one 86399 seconds old is kept. */
  lemma RetentionBoundary(dir: Directory, now: int, stale: string, young: string)
    requires Listed(stale) && Listed(young)
    requires stale in dir && dir[stale] == Entry(true, now - 86400)
    requires young in dir && dir[young] == Entry(true, now - 86399)
    ensures stale !in AfterSweep(dir, now)
    ensures young in AfterSweep(dir, now)
  {
  }

  /** Sweeping twice at the same time removes nothing more. */
  lemma SweepIdempotent(dir: Directory, now: int)
    ensures AfterSweep(AfterSweep(dir, now), now) == AfterSweep(dir, now)
  {
  }

  /** A later sweep keeps no entry that an earlier one removed. */
  lemma LaterSweepRemovesMore(dir: Directory, now: int, later: int)
    requires now <= later
    ensures AfterSweep(dir, later).Keys <= AfterSweep(dir, now).Keys
  {
  }
}
