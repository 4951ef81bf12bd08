/**
 * The attachment cache (database.py:146-167): bare file name to relative path,
 * byte size and numbered subdirectory, filled in walk order with the later file
 * overwriting the earlier one, and never cleared between conversations
 * (database.py:39).
 */
module AttachmentIndex {
  import opened Basics
  import opened Recognisers

  /**
   * One file as `os.walk` reports it: its bare name, its path relative to the
   * export root, and its size, absent when `os.path.getsize` raises `OSError`.
   */
  datatype ScannedFile = ScannedFile(name: string, relPath: string, size: Option<nat>)

  datatype CacheEntry = CacheEntry(relPath: string, size: nat, directoryNumber: Option<string>)

  type Cache = map<string, CacheEntry>

  /** Hidden files are skipped, and so is a file whose size cannot be read. */
  predicate Admitted(f: ScannedFile)
  {
    !(|f.name| > 0 && f.name[0] == '.') && f.size.Some?
  }

  function EntryOf(f: ScannedFile): CacheEntry
    requires f.size.Some?
  {
    CacheEntry(f.relPath, f.size.value, DirectoryNumberOf(f.relPath))
  }

  /** The cache after the walk has visited `files` in order. */
  function CacheAfter(cache: Cache, files: seq<ScannedFile>): Cache
  {
    if files == [] then cache
    else
      var before := CacheAfter(cache, files[..|files| - 1]);
      var f := files[|files| - 1];
      if Admitted(f) then before[f.name := EntryOf(f)] else before
  }

  /** The index of the last admitted file called `name`. */
  function LastAdmitted(files: seq<ScannedFile>, name: string): (r: Option<nat>)
    ensures r.Some? ==> r.value < |files| && Admitted(files[r.value]) && files[r.value].name == name
    ensures forall k :: 0 <= k < |files| && (r.None? || r.value < k) ==> !(Admitted(files[k]) && files[k].name == name)
  {
    if files == [] then None
    else if Admitted(files[|files| - 1]) && files[|files| - 1].name == name then Some(|files| - 1)
    else LastAdmitted(files[..|files| - 1], name)
  }

  /**
   * Last write wins: a name maps to the entry of the last admitted file with
   * that name, and keeps its earlier entry when the walk found none.
   */
  lemma {:induction false} CacheLookupIsLastWrite(cache: Cache, files: seq<ScannedFile>, name: string)
    ensures LastAdmitted(files, name).Some? ==>
      name in CacheAfter(cache, files) && CacheAfter(cache, files)[name] == EntryOf(files[LastAdmitted(files, name).value])
    ensures LastAdmitted(files, name).None? ==>
      (name in CacheAfter(cache, files) <==> name in cache) &&
      (name in cache ==> CacheAfter(cache, files)[name] == cache[name])
  {
    if files != [] {
      CacheLookupIsLastWrite(cache, files[..|files| - 1], name);
    }
  }

  /** The walk only adds or overwrites: every name cached before stays cached. */
  lemma {:induction false} CacheNeverForgets(cache: Cache, files: seq<ScannedFile>)
    ensures cache.Keys <= CacheAfter(cache, files).Keys
  {
    if files != [] {
      CacheNeverForgets(cache, files[..|files| - 1]);
    }
  }
}
