/** The listing of the filesystem backend: collect, sort, filter, take. */
module FsList {
  import opened Strings
  import opened Order
  import opened Listing
  import opened Timestamp

  // Metadata of a directory entry, links not followed. `modified` is the time in whole seconds, absent
  // when the system has none or it lies before the epoch.
  datatype Meta = Meta(isLink: bool, isFile: bool, size: nat, modified: Option<nat>)

  // What reading the directory yields, step by step; a failed open is a fault at the first step.
  datatype DirStep = Entry(name: string, meta: Option<Meta>) | Fault

  datatype ListError = IoError | UpstreamError

  predicate IsListed(step: DirStep) {
    step.Entry? && step.meta.Some? && !step.meta.value.isLink && step.meta.value.isFile
  }

  function EntryOf(step: DirStep): FileEntry
    requires IsListed(step)
  {
    var meta := step.meta.value;
    FileEntry(step.name, meta.size,
              if meta.modified.None? then None else Some(FormatRfc3339(meta.modified.value)))
  }

  // The regular files of a directory, in the order it was read.
  function FilesOf(dir: seq<DirStep>): seq<FileEntry> {
    if dir == [] then []
    else
      var n := |dir| - 1;
      FilesOf(dir[..n]) + if IsListed(dir[n]) then [EntryOf(dir[n])] else []
  }

  method List(dir: seq<DirStep>, opts: ListOptions) returns (r: Result<seq<FileEntry>, ListError>)
    ensures r == if Fault in dir then Err(IoError)
                 else Ok(Page(SortByName(FilesOf(dir)), opts.startAfter,
                              if opts.limit.Some? then opts.limit.value else 1000))
  {
    var limit := LimitOf(opts);
    var collected: seq<FileEntry> := [];
    var i := 0;
    while i < |dir|
      invariant i <= |dir| && Fault !in dir[..i]
      invariant collected == FilesOf(dir[..i])
    {
      assert dir[..i + 1][..i] == dir[..i];
      if dir[i].Fault? {
        return Err(IoError);
      }
      if dir[i].meta.None? || dir[i].meta.value.isLink || !dir[i].meta.value.isFile {
        i := i + 1;
        continue;
      }
      collected := collected + [EntryOf(dir[i])];
      i := i + 1;
    }
    assert dir[..i] == dir;
    collected := SortByName(collected);

    var filtered: seq<FileEntry> := [];
    var j := 0;
    while j < |collected|
      invariant j <= |collected|
      invariant filtered == After(collected[..j], opts.startAfter)
    {
      AfterConcat(collected[..j], [collected[j]], opts.startAfter);
      assert collected[..j + 1] == collected[..j] + [collected[j]];
      if IsAfter(opts.startAfter, collected[j].name) {
        filtered := filtered + [collected[j]];
      }
      j := j + 1;
    }
    assert collected[..j] == collected;
    r := Ok(Take(filtered, limit));
  }

  // A directory lists each name once.
  ghost predicate NamesOnce(dir: seq<DirStep>) {
    forall i, j :: 0 <= i < j < |dir| && dir[i].Entry? && dir[j].Entry? ==> dir[i].name != dir[j].name
  }

  lemma {:induction false} FilesComeFromSteps(dir: seq<DirStep>)
    ensures forall e :: e in FilesOf(dir) <==> exists i :: 0 <= i < |dir| && IsListed(dir[i]) && EntryOf(dir[i]) == e
  {
    if dir != [] {
      FilesComeFromSteps(dir[..|dir| - 1]);
      forall e
        ensures e in FilesOf(dir) <==> exists i :: 0 <= i < |dir| && IsListed(dir[i]) && EntryOf(dir[i]) == e
      {
        LastStepListed(dir, e);
      }
    }
  }

  lemma LastStepListed(dir: seq<DirStep>, e: FileEntry)
    requires dir != []
    ensures
      var n := |dir| - 1;
      (exists i :: 0 <= i < |dir| && IsListed(dir[i]) && EntryOf(dir[i]) == e) <==>
        || (exists i :: 0 <= i < n && IsListed(dir[..n][i]) && EntryOf(dir[..n][i]) == e)
        || (IsListed(dir[n]) && EntryOf(dir[n]) == e)
  {
    var n := |dir| - 1;
    assert forall i :: 0 <= i < n ==> dir[..n][i] == dir[i];
  }

  lemma {:induction false} FilesAreDistinct(dir: seq<DirStep>)
    requires NamesOnce(dir)
    ensures DistinctNames(FilesOf(dir))
  {
    if dir != [] {
      var n := |dir| - 1;
      FilesAreDistinct(dir[..n]);
      FilesComeFromSteps(dir[..n]);
      var before := FilesOf(dir[..n]);
      if IsListed(dir[n]) {
        forall k | 0 <= k < |before|
          ensures before[k].name != dir[n].name
        {
          assert before[k] in before;
          var i :| 0 <= i < n && IsListed(dir[..n][i]) && EntryOf(dir[..n][i]) == before[k];
          assert dir[i] == dir[..n][i];
        }
      }
    }
  }

  // The step finds a regular file, not a link and not a directory, and `e` tells its name, size and time.
  ghost predicate FindsFile(step: DirStep, e: FileEntry) {
    && step.Entry? && step.name == e.name && step.meta.Some?
    && var m := step.meta.value;
    && m.isFile && !m.isLink && e.size == m.size
    && (m.modified.None? ==> e.lastModified.None?)
    && (m.modified.Some? ==> e.lastModified == Some(FormatRfc3339(m.modified.value)))
  }

  lemma ListedIsFile(step: DirStep, e: FileEntry)
    ensures FindsFile(step, e) <==> IsListed(step) && EntryOf(step) == e
  {
  }

  /** The listing behind the pages: the regular files of the root, each once, in name order, whatever
      order the directory was read in. Links, directories and entries that cannot be looked at are left
      out. */
  lemma ListingOfDirectory(dir: seq<DirStep>)
    requires NamesOnce(dir)
    ensures NameOrder(SortByName(FilesOf(dir)))
    ensures forall e :: e in SortByName(FilesOf(dir)) <==> Found(dir, e)
  {
    FilesAreDistinct(dir);
    SortOrders(FilesOf(dir));
    forall e
      ensures e in FilesOf(dir) <==> Found(dir, e)
    {
      FilesAreFound(dir, e);
    }
  }

  // Some step of reading the directory finds the file.
  ghost predicate Found(dir: seq<DirStep>, e: FileEntry) {
    exists i :: 0 <= i < |dir| && FindsFile(dir[i], e)
  }

  lemma {:induction false} FilesAreFound(dir: seq<DirStep>, e: FileEntry)
    ensures e in FilesOf(dir) <==> Found(dir, e)
  {
    if dir != [] {
      var n := |dir| - 1;
      FilesAreFound(dir[..n], e);
      ListedIsFile(dir[n], e);
      FoundStep(dir, e);
    }
  }

  lemma FoundStep(dir: seq<DirStep>, e: FileEntry)
    requires dir != []
    ensures
      var n := |dir| - 1;
      Found(dir, e) <==> Found(dir[..n], e) || FindsFile(dir[n], e)
  {
    var n := |dir| - 1;
    assert forall i :: 0 <= i < n ==> dir[..n][i] == dir[i];
    if i :| 0 <= i < n && FindsFile(dir[..n][i], e) {
      assert FindsFile(dir[i], e);
    }
    if i :| 0 <= i < |dir| && FindsFile(dir[i], e) && i < n {
      assert FindsFile(dir[..n][i], e);
    }
  }

  /** Two readings of a directory that meet the same files answer every request alike. */
  lemma ReadOrderDoesNotMatter(a: seq<DirStep>, b: seq<DirStep>, cursor: Option<string>, limit: nat)
    requires NamesOnce(a) && NamesOnce(b)
    requires forall e :: e in FilesOf(a) <==> e in FilesOf(b)
    ensures Page(SortByName(FilesOf(a)), cursor, limit) == Page(SortByName(FilesOf(b)), cursor, limit)
  {
    FilesAreDistinct(a);
    FilesAreDistinct(b);
    SortOrders(FilesOf(a));
    SortOrders(FilesOf(b));
    OrderIsUnique(SortByName(FilesOf(a)), SortByName(FilesOf(b)));
  }
}
