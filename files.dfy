/** The part of the filesystem the launcher touches: folders with their
    entries in listing order, other paths that exist but are not folders,
    and the precondition checks and effect of compress_directory. */
module Files {
  import opened Errors

  /** One entry of a folder listing: its name and its creation time, on the
      same scale of seconds as Clock.Seconds. */
  datatype Entry = Entry(name: string, created: int)

  predicate HasName(s: seq<Entry>, n: string)
  {
    exists i :: 0 <= i < |s| && s[i].name == n
  }

  function NameAt(s: seq<Entry>, i: nat): string
    requires i < |s|
  {
    s[i].name
  }

  /** A folder never lists two entries under one name. */
  predicate DistinctNames(s: seq<Entry>)
  {
    forall i, j :: 0 <= i < j < |s| ==> NameAt(s, i) != NameAt(s, j)
  }

  /** The entries left after os.remove of the named file, in listing order. */
  function Without(s: seq<Entry>, n: string): (r: seq<Entry>)
    ensures |r| <= |s|
  {
    if s == [] then []
    else Without(s[..|s| - 1], n) + (if s[|s| - 1].name == n then [] else [s[|s| - 1]])
  }

  /** Removal drops the entries of that name and only those. */
  lemma {:induction false} WithoutMembers(s: seq<Entry>, n: string)
    ensures forall e :: e in Without(s, n) <==> e in s && e.name != n
  {
    if s != [] {
      var p := s[..|s| - 1];
      WithoutMembers(p, n);
      assert s == p + [s[|s| - 1]];
    }
  }

  lemma {:induction false} WithoutAppend(a: seq<Entry>, b: seq<Entry>, n: string)
    ensures Without(a + b, n) == Without(a, n) + Without(b, n)
    decreases |b|
  {
    if b == [] {
      assert a + b == a;
    } else {
      assert (a + b)[..|a + b| - 1] == a + b[..|b| - 1];
      WithoutAppend(a, b[..|b| - 1], n);
    }
  }

  lemma {:induction false} WithoutAbsent(s: seq<Entry>, n: string)
    requires !HasName(s, n)
    ensures Without(s, n) == s
    decreases |s|
  {
    if s != [] {
      var p := s[..|s| - 1];
      forall i | 0 <= i < |p| ensures p[i].name != n {
        assert p[i] == s[i];
      }
      WithoutAbsent(p, n);
    }
  }

  lemma DistinctAt(s: seq<Entry>, i: nat, j: nat)
    requires DistinctNames(s) && i < |s| && j < |s| && i != j
    ensures s[i].name != s[j].name
  {
    if i < j {
      assert NameAt(s, i) != NameAt(s, j);
    } else {
      assert NameAt(s, j) != NameAt(s, i);
    }
  }

  /** Appending an entry whose name the sequence lacks keeps names distinct. */
  lemma DistinctSnoc(w: seq<Entry>, e: Entry)
    requires DistinctNames(w)
    requires forall i :: 0 <= i < |w| ==> w[i].name != e.name
    ensures DistinctNames(w + [e])
  {
    var r := w + [e];
    forall i, j | 0 <= i < j < |r| ensures NameAt(r, i) != NameAt(r, j) {
      if j < |w| {
        assert NameAt(w, i) != NameAt(w, j);
      }
    }
  }

  lemma {:induction false} WithoutKeepsDistinct(s: seq<Entry>, n: string)
    requires DistinctNames(s)
    ensures DistinctNames(Without(s, n))
    decreases |s|
  {
    if s != [] {
      var p, last := s[..|s| - 1], s[|s| - 1];
      assert DistinctNames(p) by {
        forall i, j | 0 <= i < j < |p| ensures NameAt(p, i) != NameAt(p, j) {
          assert NameAt(s, i) != NameAt(s, j);
        }
      }
      WithoutKeepsDistinct(p, n);
      WithoutMembers(p, n);
      var w := Without(p, n);
      if last.name != n {
        forall i | 0 <= i < |w| ensures w[i].name != last.name {
          assert w[i] in p;
          var k :| 0 <= k < |p| && p[k] == w[i];
          DistinctAt(s, k, |s| - 1);
        }
        DistinctSnoc(w, last);
      } else {
        assert Without(s, n) == w + [] == w;
      }
    }
  }

  /** The folder's entries once the archive `name` has been written into it:
      an older file of the same name is replaced. */
  function ArchiveAdded(entries: seq<Entry>, name: string, created: int): (r: seq<Entry>)
    ensures |r| > 0 && r[|r| - 1] == Entry(name, created)
    ensures forall e :: e in r[..|r| - 1] <==> e in entries && e.name != name
  {
    WithoutMembers(entries, name);
    var w := Without(entries, name);
    assert (w + [Entry(name, created)])[..|w|] == w;
    w + [Entry(name, created)]
  }

  lemma ArchiveAddedDistinct(entries: seq<Entry>, name: string, created: int)
    requires DistinctNames(entries)
    ensures DistinctNames(ArchiveAdded(entries, name, created))
  {
    WithoutKeepsDistinct(entries, name);
    var w := Without(entries, name);
    WithoutMembers(entries, name);
    forall i | 0 <= i < |w| ensures w[i].name != name {
      assert w[i] in w;
    }
    DistinctSnoc(w, Entry(name, created));
  }

  /** No path is both a folder and a plain file, and no folder lists two
      entries under one name. */
  ghost predicate WellFormed(folders: map<string, seq<Entry>>, plainFiles: set<string>)
  {
    && folders.Keys !! plainFiles
    && forall d :: d in folders ==> DistinctNames(folders[d])
  }

  lemma WellFormedUpdate(folders: map<string, seq<Entry>>, plainFiles: set<string>, dir: string, s: seq<Entry>)
    requires WellFormed(folders, plainFiles) && dir in folders && DistinctNames(s)
    ensures WellFormed(folders[dir := s], plainFiles)
  {
  }

  /** The filesystem, as far as the launcher sees it. */
  class FileSystem {
    var folders: map<string, seq<Entry>>
    var plainFiles: set<string>

    ghost predicate Valid()
      reads this
    {
      WellFormed(folders, plainFiles)
    }

    constructor (folders: map<string, seq<Entry>>, plainFiles: set<string>)
      requires WellFormed(folders, plainFiles)
      ensures Valid()
      ensures this.folders == folders && this.plainFiles == plainFiles
    {
      this.folders := folders;
      this.plainFiles := plainFiles;
    }

    /** os.remove(os.path.join(dir, name)) of an entry of a folder. */
    method Remove(dir: string, name: string)
      requires Valid() && dir in folders
      modifies this
      ensures Valid()
      ensures folders == old(folders)[dir := Without(old(folders)[dir], name)]
      ensures plainFiles == old(plainFiles)
    {
      WithoutKeepsDistinct(folders[dir], name);
      WellFormedUpdate(folders, plainFiles, dir, Without(folders[dir], name));
      folders := folders[dir := Without(folders[dir], name)];
    }
  }

  /** os.path.join(dir, name) for a relative name. */
  function JoinPath(dir: string, name: string): string
  {
    if dir == [] || dir[|dir| - 1] == '/' then dir + name else dir + "/" + name
  }

  function NotFoundMessage(path: string): string
  {
    // One text; the first words stand apart so that proofs can read its
    // leading characters (the solver reads those of a short literal only).
    "Le dossier " + "à compresser \"" + path + "\" n'existe pas."
  }

  function NotADirectoryMessage(path: string): string
  {
    "Le chemin \"" + path + "\" ne correspond pas à un dossier."
  }

  /** The two checks compress_directory makes before compressing: the source
      must exist, and it must be a folder. */
  function SourceCheck(folders: set<string>, plainFiles: set<string>, source: string): (r: Outcome)
    ensures r == Pass <==> source in folders
    ensures source !in folders && source !in plainFiles ==> r == Fail(Raised(NotFoundMessage(source)))
    ensures source !in folders && source in plainFiles ==> r == Fail(Raised(NotADirectoryMessage(source)))
  {
    if source !in folders && source !in plainFiles then Fail(HandleException(NotFoundMessage(source), None))
    else if source !in folders then Fail(HandleException(NotADirectoryMessage(source), None))
    else Pass
  }

  /** compress_directory(source, dir/name), as an outcome and the folders
      afterwards. A failure of the archive library is not wrapped: the
      handler around it only catches an error the library never raises. */
  function CompressEffect(folders: map<string, seq<Entry>>, plainFiles: set<string>, source: string,
                          dir: string, name: string, created: int, failure: Option<string>)
    : (r: (Outcome, map<string, seq<Entry>>))
    ensures r.0 == Pass <==> source in folders && dir in folders && failure.None?
    ensures r.0.Fail? ==> r.1 == folders
    ensures r.0 == Pass ==> r.1 == folders[dir := ArchiveAdded(folders[dir], name, created)]
    ensures r.0.Fail? && source in folders ==> r.0.error.Foreign?
  {
    var check := SourceCheck(folders.Keys, plainFiles, source);
    if check.Fail? then (check, folders)
    else if dir !in folders then
      (Fail(Foreign("[Errno 2] No such file or directory: '" + JoinPath(dir, name) + "'")), folders)
    else if failure.Some? then (Fail(Foreign(failure.value)), folders)
    else (Pass, folders[dir := ArchiveAdded(folders[dir], name, created)])
  }

  /** compress_directory: checks the source, then writes the archive. */
  method CompressDirectory(fs: FileSystem, source: string, dir: string, name: string,
                           created: int, failure: Option<string>) returns (outcome: Outcome)
    requires fs.Valid()
    modifies fs
    ensures fs.Valid()
    ensures fs.plainFiles == old(fs.plainFiles)
    ensures (outcome, fs.folders) == CompressEffect(old(fs.folders), old(fs.plainFiles), source, dir, name, created, failure)
  {
    outcome := SourceCheck(fs.folders.Keys, fs.plainFiles, source);
    if outcome.Fail? {
      return;
    }
    if dir !in fs.folders {
      outcome := Fail(Foreign("[Errno 2] No such file or directory: '" + JoinPath(dir, name) + "'"));
      return;
    }
    if failure.Some? {
      outcome := Fail(Foreign(failure.value));
      return;
    }
    ArchiveAddedDistinct(fs.folders[dir], name, created);
    fs.folders := fs.folders[dir := ArchiveAdded(fs.folders[dir], name, created)];
  }
}
