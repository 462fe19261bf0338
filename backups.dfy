/** handle_backups: one pass over the backups folder that deletes archives
    older than the retention window, notices whether a recent archive is
    left, and compresses the server folder into a new archive when none is.
    All comparisons use one "now" captured before the pass. */
module Backups {
  import opened Errors
  import opened Text
  import opened Config
  import opened Clock
  import opened Files

  const ARCHIVE_SUFFIX := ".tar.gz"
  const BACKUP_PREFIX := "backup_OuiOui_"

  /** The four settings handle_backups reads. */
  datatype BackupConfig = BackupConfig(
    serverPath: string,
    backupsPath: string,
    daysBeforeDelete: int,
    hoursBeforeNew: int)

  /** MINECRAFT_SERVER_PATH, BACKUPS_PATH, NB_DAYS_BEFORE_DELETE_BACKUP and
      NB_HOURS_BEFORE_NEW_BACKUP, read in that order; the first read that
      raises ends the sequence with its error. */
  function ReadBackupConfig(env: Environment): Result<BackupConfig>
  {
    var server :- Lookup(env, MINECRAFT_SERVER_PATH);
    var backups :- Lookup(env, BACKUPS_PATH);
    var days :- LookupInt(env, NB_DAYS_BEFORE_DELETE_BACKUP);
    var hours :- LookupInt(env, NB_HOURS_BEFORE_NEW_BACKUP);
    Ok(BackupConfig(server, backups, days, hours))
  }

  /** The backup settings succeed exactly when every variable is set and both
      counts parse, and then hold those values; a missing server path is
      the first error. */
  lemma ReadBackupConfigMeans(env: Environment)
    ensures ReadBackupConfig(env).Ok? <==>
      && MINECRAFT_SERVER_PATH in env && BACKUPS_PATH in env
      && NB_DAYS_BEFORE_DELETE_BACKUP in env && ParseInt(env[NB_DAYS_BEFORE_DELETE_BACKUP]).Ok?
      && NB_HOURS_BEFORE_NEW_BACKUP in env && ParseInt(env[NB_HOURS_BEFORE_NEW_BACKUP]).Ok?
    ensures ReadBackupConfig(env).Ok? ==>
      && ReadBackupConfig(env).value.serverPath == env[MINECRAFT_SERVER_PATH]
      && ReadBackupConfig(env).value.backupsPath == env[BACKUPS_PATH]
      && ParseInt(env[NB_DAYS_BEFORE_DELETE_BACKUP]) == Ok(ReadBackupConfig(env).value.daysBeforeDelete)
      && ParseInt(env[NB_HOURS_BEFORE_NEW_BACKUP]) == Ok(ReadBackupConfig(env).value.hoursBeforeNew)
    ensures MINECRAFT_SERVER_PATH !in env ==> ReadBackupConfig(env) == Err(MissingEnvValue(MINECRAFT_SERVER_PATH))
    ensures MINECRAFT_SERVER_PATH in env && BACKUPS_PATH !in env
            ==> ReadBackupConfig(env) == Err(MissingEnvValue(BACKUPS_PATH))
    ensures MINECRAFT_SERVER_PATH in env && BACKUPS_PATH in env && NB_DAYS_BEFORE_DELETE_BACKUP !in env
            ==> ReadBackupConfig(env) == Err(MissingEnvValue(NB_DAYS_BEFORE_DELETE_BACKUP))
    ensures MINECRAFT_SERVER_PATH in env && BACKUPS_PATH in env && NB_DAYS_BEFORE_DELETE_BACKUP in env
            && ParseInt(env[NB_DAYS_BEFORE_DELETE_BACKUP]).Err?
            ==> ReadBackupConfig(env) == Err(InvalidLiteral(env[NB_DAYS_BEFORE_DELETE_BACKUP]))
    ensures MINECRAFT_SERVER_PATH in env && BACKUPS_PATH in env && NB_DAYS_BEFORE_DELETE_BACKUP in env
            && ParseInt(env[NB_DAYS_BEFORE_DELETE_BACKUP]).Ok? && NB_HOURS_BEFORE_NEW_BACKUP !in env
            ==> ReadBackupConfig(env) == Err(MissingEnvValue(NB_HOURS_BEFORE_NEW_BACKUP))
    ensures MINECRAFT_SERVER_PATH in env && BACKUPS_PATH in env && NB_DAYS_BEFORE_DELETE_BACKUP in env
            && ParseInt(env[NB_DAYS_BEFORE_DELETE_BACKUP]).Ok? && NB_HOURS_BEFORE_NEW_BACKUP in env
            && ParseInt(env[NB_HOURS_BEFORE_NEW_BACKUP]).Err?
            ==> ReadBackupConfig(env) == Err(InvalidLiteral(env[NB_HOURS_BEFORE_NEW_BACKUP]))
  {
    if MINECRAFT_SERVER_PATH in env && BACKUPS_PATH in env && NB_DAYS_BEFORE_DELETE_BACKUP in env {
      assert LookupInt(env, NB_DAYS_BEFORE_DELETE_BACKUP) == ParseInt(env[NB_DAYS_BEFORE_DELETE_BACKUP]);
      if ParseInt(env[NB_DAYS_BEFORE_DELETE_BACKUP]).Ok? && NB_HOURS_BEFORE_NEW_BACKUP in env {
        assert LookupInt(env, NB_HOURS_BEFORE_NEW_BACKUP) == ParseInt(env[NB_HOURS_BEFORE_NEW_BACKUP]);
      }
    }
  }

  /** name.endswith('.tar.gz'): the only entries the pass looks at. */
  predicate IsArchive(name: string)
  {
    |name| >= |ARCHIVE_SUFFIX| && name[|name| - |ARCHIVE_SUFFIX|..] == ARCHIVE_SUFFIX
  }

  /** The pass deletes an archive strictly older than the retention window. */
  predicate Expired(e: Entry, now: int, days: int)
  {
    IsArchive(e.name) && now - e.created > days * SECONDS_PER_DAY
  }

  /** An archive the pass keeps and that is strictly younger than the
      minimum interval between two backups. */
  predicate Recent(e: Entry, now: int, days: int, hours: int)
  {
    IsArchive(e.name) && !(now - e.created > days * SECONDS_PER_DAY) && now - e.created < hours * SECONDS_PER_HOUR
  }

  /** The entries of a listing the pass leaves in place, in listing order. */
  function Survivors(listing: seq<Entry>, now: int, days: int): (r: seq<Entry>)
    ensures |r| <= |listing|
  {
    if listing == [] then []
    else
      var last := listing[|listing| - 1];
      Survivors(listing[..|listing| - 1], now, days) + (if Expired(last, now, days) then [] else [last])
  }

  /** The pass keeps exactly the entries that are not expired archives. */
  lemma {:induction false} SurvivorsMembers(listing: seq<Entry>, now: int, days: int)
    ensures forall e :: e in Survivors(listing, now, days) <==> e in listing && !Expired(e, now, days)
  {
    if listing != [] {
      var p := listing[..|listing| - 1];
      SurvivorsMembers(p, now, days);
      assert listing == p + [listing[|listing| - 1]];
    }
  }

  /** Whether the pass marks some entry of the listing recent. */
  predicate AnyRecent(listing: seq<Entry>, now: int, days: int, hours: int)
  {
    if listing == [] then false
    else AnyRecent(listing[..|listing| - 1], now, days, hours) || Recent(listing[|listing| - 1], now, days, hours)
  }

  /** The flag is raised exactly when some entry of the listing is recent. */
  lemma {:induction false} AnyRecentMeans(listing: seq<Entry>, now: int, days: int, hours: int)
    ensures AnyRecent(listing, now, days, hours) <==> exists i :: 0 <= i < |listing| && Recent(listing[i], now, days, hours)
  {
    if listing != [] {
      var p := listing[..|listing| - 1];
      AnyRecentMeans(p, now, days, hours);
      if AnyRecent(p, now, days, hours) {
        var i :| 0 <= i < |p| && Recent(p[i], now, days, hours);
        assert listing[i] == p[i];
      }
      if exists i :: 0 <= i < |listing| && Recent(listing[i], now, days, hours) {
        var i :| 0 <= i < |listing| && Recent(listing[i], now, days, hours);
        if i < |p| {
          assert p[i] == listing[i];
        }
      }
    }
  }

  /** is_backup_needed after the pass: the folder was empty, or no archive
      in it was found recent. */
  predicate BackupNeeded(listing: seq<Entry>, now: int, days: int, hours: int)
  {
    |listing| == 0 || !AnyRecent(listing, now, days, hours)
  }

  /** Whether the pass raises on an entry: for every archive it builds the
      retention window timedelta(days=...), and for an archive it keeps
      the minimum interval timedelta(hours=...); either may overflow. */
  predicate RaisesOn(e: Entry, now: int, days: int, hours: int)
  {
    && IsArchive(e.name)
    && (|| Timedelta(days * SECONDS_PER_DAY).Err?
        || (!(now - e.created > days * SECONDS_PER_DAY) && Timedelta(hours * SECONDS_PER_HOUR).Err?))
  }

  /** The OverflowError the pass raises: the window's when the window
      overflows, the interval's otherwise. */
  function DeltaError(days: int, hours: int): Error
    requires Timedelta(days * SECONDS_PER_DAY).Err? || Timedelta(hours * SECONDS_PER_HOUR).Err?
  {
    var window := Timedelta(days * SECONDS_PER_DAY);
    if window.Err? then window.error else Timedelta(hours * SECONDS_PER_HOUR).error
  }

  /** How many entries of the listing the pass gets through: all of them,
      or those before the first on which it raises. */
  function Reached(listing: seq<Entry>, now: int, days: int, hours: int): (k: nat)
    ensures k <= |listing|
    ensures forall j :: 0 <= j < k ==> !RaisesOn(listing[j], now, days, hours)
    ensures k < |listing| ==> RaisesOn(listing[k], now, days, hours)
  {
    if listing == [] then 0
    else
      var p := listing[..|listing| - 1];
      var k := Reached(p, now, days, hours);
      if k < |p| then k
      else if RaisesOn(listing[|listing| - 1], now, days, hours) then |p|
      else |listing|
  }

  /** The entries the pass gets through are those before the first on
      which it raises. */
  lemma ReachedIs(listing: seq<Entry>, i: nat, now: int, days: int, hours: int)
    requires i <= |listing|
    requires forall j :: 0 <= j < i ==> !RaisesOn(listing[j], now, days, hours)
    requires i == |listing| || RaisesOn(listing[i], now, days, hours)
    ensures Reached(listing, now, days, hours) == i
  {
  }

  /** f"backup_OuiOui_{now.strftime('%Y%m%d_%H%M%S')}.tar.gz" */
  function BackupName(now: DateTime): (name: string)
    requires ValidDateTime(now)
    ensures |name| == |BACKUP_PREFIX| + 15 + |ARCHIVE_SUFFIX|
  {
    BACKUP_PREFIX + Stamp(now) + ARCHIVE_SUFFIX
  }

  /** The date-time a backup name was made from, or None for any other name. */
  function ParseBackupName(name: string): Option<DateTime>
  {
    var n := |BACKUP_PREFIX|;
    if |name| == n + 15 + |ARCHIVE_SUFFIX| && name[..n] == BACKUP_PREFIX && name[n + 15..] == ARCHIVE_SUFFIX
    then ParseStamp(name[n..n + 15])
    else None
  }

  /** A new archive is named after the "now" of its pass, and the name gives
      that "now" back. */
  lemma BackupNameRoundTrip(now: DateTime)
    requires ValidDateTime(now)
    ensures ParseBackupName(BackupName(now)) == Some(now)
    ensures IsArchive(BackupName(now))
  {
    var name := BackupName(now);
    var n := |BACKUP_PREFIX|;
    assert name[..n] == BACKUP_PREFIX;
    assert name[n..n + 15] == Stamp(now);
    assert name[n + 15..] == ARCHIVE_SUFFIX;
    StampRoundTrip(now);
  }

  /** Two passes at different instants never name their archives alike. */
  lemma BackupNameInjective(a: DateTime, b: DateTime)
    requires ValidDateTime(a) && ValidDateTime(b)
    requires BackupName(a) == BackupName(b)
    ensures a == b
  {
    BackupNameRoundTrip(a);
    BackupNameRoundTrip(b);
  }

  /** What the clock and the archive library contribute to one pass: the
      captured "now", the creation time the new archive gets, and the
      library's failure if it fails. */
  datatype BackupClock = BackupClock(now: DateTime, archiveCreated: int, compressFailure: Option<string>)

  function NotADirectoryError(path: string): Error
  {
    Foreign("[Errno 20] Not a directory: '" + path + "'")
  }

  /** The whole of handle_backups as an outcome and the folders afterwards. */
  function BackupsEffect(folders: map<string, seq<Entry>>, plainFiles: set<string>,
                         env: Environment, clock: BackupClock): (r: (Outcome, map<string, seq<Entry>>))
    requires ValidDateTime(clock.now)
  {
    match ReadBackupConfig(env)
    case Err(e) => (Fail(e), folders)
    case Ok(cfg) =>
      var dir := cfg.backupsPath;
      var created := if dir in folders || dir in plainFiles then folders else folders[dir := []];
      if dir !in created then (Fail(NotADirectoryError(dir)), created)
      else
        var listing := created[dir];
        var now := Seconds(clock.now);
        var days, hours := cfg.daysBeforeDelete, cfg.hoursBeforeNew;
        var k := Reached(listing, now, days, hours);
        if k < |listing| then
          (Fail(DeltaError(days, hours)), created[dir := Survivors(listing[..k], now, days) + listing[k..]])
        else
          var pruned := created[dir := Survivors(listing, now, days)];
          if BackupNeeded(listing, now, days, hours) then
            CompressEffect(pruned, plainFiles, cfg.serverPath, dir, BackupName(clock.now),
                           clock.archiveCreated, clock.compressFailure)
          else (Pass, pruned)
  }

  lemma SurvivorsSnoc(visited: seq<Entry>, e: Entry, now: int, days: int)
    ensures Survivors(visited + [e], now, days)
         == Survivors(visited, now, days) + (if Expired(e, now, days) then [] else [e])
  {
    assert (visited + [e])[..|visited|] == visited;
  }

  lemma AnyRecentSnoc(visited: seq<Entry>, e: Entry, now: int, days: int, hours: int)
    ensures AnyRecent(visited + [e], now, days, hours)
        <==> AnyRecent(visited, now, days, hours) || Recent(e, now, days, hours)
  {
    assert (visited + [e])[..|visited|] == visited;
  }

  /** Removing an entry whose name occurs nowhere else in the folder. */
  lemma RemoveBetween(kept: seq<Entry>, e: Entry, rest: seq<Entry>)
    requires !HasName(kept, e.name) && !HasName(rest, e.name)
    ensures Without(kept + ([e] + rest), e.name) == kept + rest
  {
    var n := e.name;
    assert Without([e], n) == [] by {
      assert [e][..0] == [];
    }
    WithoutAppend([e], rest, n);
    WithoutAbsent(rest, n);
    assert Without([e] + rest, n) == rest;
    WithoutAppend(kept, [e] + rest, n);
    WithoutAbsent(kept, n);
  }

  /** Deleting an expired entry keeps the folder laid out as the survivors
      of the visited entries followed by the unvisited ones. */
  lemma DeleteStep(visited: seq<Entry>, e: Entry, rest: seq<Entry>, now: int, days: int)
    requires DistinctNames(visited + [e] + rest)
    requires Expired(e, now, days)
    ensures Without(Survivors(visited, now, days) + ([e] + rest), e.name)
         == Survivors(visited + [e], now, days) + rest
  {
    var s := visited + [e] + rest;
    var kept := Survivors(visited, now, days);
    SurvivorsSnoc(visited, e, now, days);
    SurvivorsMembers(visited, now, days);
    assert kept + [] == kept;
    forall j | 0 <= j < |kept| ensures kept[j].name != e.name {
      assert kept[j] in visited;
      var k :| 0 <= k < |visited| && visited[k] == kept[j];
      assert s[k] == visited[k] && s[|visited|] == e;
      DistinctAt(s, k, |visited|);
    }
    forall j | 0 <= j < |rest| ensures rest[j].name != e.name {
      assert s[|visited| + 1 + j] == rest[j] && s[|visited|] == e;
      DistinctAt(s, |visited| + 1 + j, |visited|);
    }
    RemoveBetween(kept, e, rest);
  }

  /** Keeping an entry does the same without touching the folder. */
  lemma KeepStep(visited: seq<Entry>, e: Entry, rest: seq<Entry>, now: int, days: int)
    requires !Expired(e, now, days)
    ensures Survivors(visited, now, days) + ([e] + rest)
         == Survivors(visited + [e], now, days) + rest
  {
    SurvivorsSnoc(visited, e, now, days);
  }

  /** One turn of the loop of lines 143-162, on the folder's contents:
      the folder stays laid out as the survivors of the visited entries
      followed by the unvisited ones, and keeps distinct names. */
  lemma PruneStep(listing: seq<Entry>, i: nat, visited: seq<Entry>, rest: seq<Entry>, folder: seq<Entry>,
                  now: int, days: int)
    requires i < |listing| && visited == listing[..i] && rest == listing[i..]
    requires DistinctNames(listing) && DistinctNames(folder)
    requires folder == Survivors(visited, now, days) + rest
    ensures visited + [listing[i]] == listing[..i + 1] && rest[1..] == listing[i + 1..]
    ensures Expired(listing[i], now, days) ==>
      && Without(folder, listing[i].name) == Survivors(visited + [listing[i]], now, days) + rest[1..]
      && DistinctNames(Without(folder, listing[i].name))
    ensures !Expired(listing[i], now, days) ==> folder == Survivors(visited + [listing[i]], now, days) + rest[1..]
  {
    var entry := listing[i];
    assert rest == [entry] + rest[1..];
    assert listing == visited + [entry] + rest[1..];
    if Expired(entry, now, days) {
      DeleteStep(visited, entry, rest[1..], now, days);
      WithoutKeepsDistinct(folder, entry.name);
    } else {
      KeepStep(visited, entry, rest[1..], now, days);
    }
  }

  lemma UpdateTwice(m: map<string, seq<Entry>>, k: string, a: seq<Entry>, b: seq<Entry>)
    ensures m[k := a][k := b] == m[k := b]
  {
  }

  /** The loop of lines 143-162 over the second listing of the folder:
      deletes every expired archive in place and reports whether a recent
      one was seen, or raises the OverflowError of a timedelta at the first
      entry that builds one too large, with the deletions before it done. */
  method PruneBackups(fs: FileSystem, dir: string, now: int, days: int, hours: int)
    returns (outcome: Outcome, recentFound: bool)
    requires fs.Valid() && dir in fs.folders
    modifies fs
    ensures fs.Valid()
    ensures fs.plainFiles == old(fs.plainFiles)
    ensures var listing := old(fs.folders)[dir];
      var k := Reached(listing, now, days, hours);
      && fs.folders == old(fs.folders)[dir := Survivors(listing[..k], now, days) + listing[k..]]
      && (outcome.Pass? <==> k == |listing|)
      && (outcome.Fail? ==> outcome.error == DeltaError(days, hours))
      && (outcome.Pass? ==> fs.folders == old(fs.folders)[dir := Survivors(listing, now, days)])
      && (outcome.Pass? ==> recentFound == AnyRecent(listing, now, days, hours))
  {
    var listing := fs.folders[dir];
    ghost var before, files := fs.folders, fs.plainFiles;
    ghost var visited, rest, folder := [], listing, listing;
    assert DistinctNames(listing);
    recentFound := false;
    var i := 0;
    assert Survivors(visited, now, days) + rest == listing;
    assert before[dir := listing] == before;
    while i < |listing|
      invariant 0 <= i <= |listing| && visited == listing[..i] && rest == listing[i..]
      invariant folder == Survivors(visited, now, days) + rest
      invariant DistinctNames(folder)
      invariant fs.folders == before[dir := folder] && fs.plainFiles == files
      invariant fs.Valid()
      invariant i <= Reached(listing, now, days, hours)
      invariant recentFound == AnyRecent(visited, now, days, hours)
    {
      var entry := listing[i];
      PruneStep(listing, i, visited, rest, folder, now, days);
      AnyRecentSnoc(visited, entry, now, days, hours);
      assert fs.folders[dir] == folder;
      var step, recent := PruneEntry(fs, dir, entry, now, days, hours);
      if step.Fail? {
        ReachedAt(listing, i, now, days, hours);
        return step, recentFound;
      }
      ReachedPast(listing, i, now, days, hours);
      if Expired(entry, now, days) {
        UpdateTwice(before, dir, folder, Without(folder, entry.name));
        folder := Without(folder, entry.name);
      }
      if recent {
        recentFound := true;
      }
      visited, rest := visited + [entry], rest[1..];
      i := i + 1;
    }
    outcome := Pass;
    assert visited == listing && rest == [];
    assert listing[..|listing|] == listing && listing[|listing|..] == [];
    assert folder == Survivors(listing, now, days);
  }

  /** The pass stops at the first entry on which it raises... */
  lemma ReachedAt(listing: seq<Entry>, i: nat, now: int, days: int, hours: int)
    requires i < |listing| && i <= Reached(listing, now, days, hours)
    requires RaisesOn(listing[i], now, days, hours)
    ensures Reached(listing, now, days, hours) == i
  {
  }

  /** ... and gets past every other. */
  lemma ReachedPast(listing: seq<Entry>, i: nat, now: int, days: int, hours: int)
    requires i < |listing| && i <= Reached(listing, now, days, hours)
    requires !RaisesOn(listing[i], now, days, hours)
    ensures i + 1 <= Reached(listing, now, days, hours)
  {
  }

  /** One turn of the loop of lines 143-162: an expired archive is deleted,
      a kept one is checked against the minimum interval, and building
      either timedelta may raise its OverflowError first. */
  method PruneEntry(fs: FileSystem, dir: string, entry: Entry, now: int, days: int, hours: int)
    returns (outcome: Outcome, recent: bool)
    requires fs.Valid() && dir in fs.folders
    modifies fs
    ensures fs.Valid() && fs.plainFiles == old(fs.plainFiles)
    ensures outcome.Fail? <==> RaisesOn(entry, now, days, hours)
    ensures outcome.Fail? ==> outcome.error == DeltaError(days, hours) && fs.folders == old(fs.folders)
    ensures outcome.Pass? ==> recent == Recent(entry, now, days, hours)
    ensures outcome.Pass? && Expired(entry, now, days) ==>
      fs.folders == old(fs.folders)[dir := Without(old(fs.folders)[dir], entry.name)]
    ensures outcome.Pass? && !Expired(entry, now, days) ==> fs.folders == old(fs.folders)
  {
    outcome, recent := Pass, false;
    if IsArchive(entry.name) {
      var window := Timedelta(days * SECONDS_PER_DAY);
      if window.Err? {
        return Fail(window.error), false;
      }
      if now - entry.created > window.value {
        fs.Remove(dir, entry.name);
      } else {
        var interval := Timedelta(hours * SECONDS_PER_HOUR);
        if interval.Err? {
          return Fail(interval.error), false;
        }
        recent := now - entry.created < interval.value;
      }
    }
  }

  /** handle_backups (lines 107-177). */
  method HandleBackups(fs: FileSystem, env: Environment, clock: BackupClock) returns (outcome: Outcome)
    requires fs.Valid() && ValidDateTime(clock.now)
    modifies fs
    ensures fs.Valid()
    ensures fs.plainFiles == old(fs.plainFiles)
    ensures (outcome, fs.folders) == BackupsEffect(old(fs.folders), old(fs.plainFiles), env, clock)
  {
    var config := ReadBackupConfig(env);
    if config.Err? {
      return Fail(config.error);
    }
    var serverPath, backupsPath := config.value.serverPath, config.value.backupsPath;
    var days, hours := config.value.daysBeforeDelete, config.value.hoursBeforeNew;

    if !(backupsPath in fs.folders || backupsPath in fs.plainFiles) {
      fs.folders := fs.folders[backupsPath := []];
    }

    var now := Seconds(clock.now);

    if backupsPath !in fs.folders {
      return Fail(NotADirectoryError(backupsPath));
    }
    var backupFiles := fs.folders[backupsPath];
    var isBackupNeeded := false;

    if |backupFiles| <= 0 {
      isBackupNeeded := true;
    }

    if !isBackupNeeded {
      var pruned, isThereARecentBackup := PruneBackups(fs, backupsPath, now, days, hours);
      if pruned.Fail? {
        return pruned;
      }
      isBackupNeeded := !isThereARecentBackup;
    } else {
      assert Reached(backupFiles, now, days, hours) == 0;
      assert fs.folders == fs.folders[backupsPath := Survivors(backupFiles, now, days)];
    }

    if isBackupNeeded {
      var backupFilename := BackupName(clock.now);
      outcome := CompressDirectory(fs, serverPath, backupsPath, backupFilename,
                                   clock.archiveCreated, clock.compressFailure);
    } else {
      outcome := Pass;
    }
  }

  /** A pass over a folder it has just pruned deletes nothing more. */
  lemma {:induction false} SurvivorsIdempotent(listing: seq<Entry>, now: int, days: int)
    ensures Survivors(Survivors(listing, now, days), now, days) == Survivors(listing, now, days)
  {
    if listing != [] {
      var p, last := listing[..|listing| - 1], listing[|listing| - 1];
      assert listing == p + [last];
      SurvivorsIdempotent(p, now, days);
      SurvivorsSnoc(p, last, now, days);
      var kept := Survivors(p, now, days);
      if Expired(last, now, days) {
        assert Survivors(listing, now, days) == kept;
      } else {
        assert Survivors(listing, now, days) == kept + [last];
        SurvivorsSnoc(kept, last, now, days);
      }
    }
  }

  /** The entries of a listing that are not .tar.gz archives, in order. */
  function Others(listing: seq<Entry>): seq<Entry>
  {
    if listing == [] then []
    else
      var last := listing[|listing| - 1];
      Others(listing[..|listing| - 1]) + (if IsArchive(last.name) then [] else [last])
  }

  lemma {:induction false} OthersAppend(a: seq<Entry>, b: seq<Entry>)
    ensures Others(a + b) == Others(a) + Others(b)
    decreases |b|
  {
    if b == [] {
      assert a + b == a;
    } else {
      assert (a + b)[..|a + b| - 1] == a + b[..|b| - 1];
      OthersAppend(a, b[..|b| - 1]);
    }
  }

  lemma {:induction false} OthersOfSurvivors(listing: seq<Entry>, now: int, days: int)
    ensures Others(Survivors(listing, now, days)) == Others(listing)
  {
    if listing != [] {
      var p, last := listing[..|listing| - 1], listing[|listing| - 1];
      OthersOfSurvivors(p, now, days);
      var tail := if Expired(last, now, days) then [] else [last];
      OthersAppend(Survivors(p, now, days), tail);
      assert Others(tail) == (if IsArchive(last.name) then [] else [last]) by {
        if tail == [last] {
          assert tail[..0] == [];
        }
      }
    }
  }

  /** The pass deletes no entry that is not a .tar.gz archive, wherever it
      stands in the listing, whether the pass gets through the listing or
      raises after k entries. */
  lemma OthersKept(listing: seq<Entry>, k: nat, now: int, days: int)
    requires k <= |listing|
    ensures Others(Survivors(listing[..k], now, days) + listing[k..]) == Others(listing)
  {
    OthersAppend(Survivors(listing[..k], now, days), listing[k..]);
    OthersOfSurvivors(listing[..k], now, days);
    OthersAppend(listing[..k], listing[k..]);
    assert listing[..k] + listing[k..] == listing;
  }

  /** An entry that is not a .tar.gz archive, wherever it stands, never
      counts as a recent backup: the listing without it raises the flag
      exactly when the listing with it does. */
  lemma OthersNotCounted(listing: seq<Entry>, i: nat, now: int, days: int, hours: int)
    requires i < |listing| && !IsArchive(listing[i].name)
    ensures AnyRecent(listing[..i] + listing[i + 1..], now, days, hours) == AnyRecent(listing, now, days, hours)
  {
    var s := listing[..i] + listing[i + 1..];
    AnyRecentMeans(listing, now, days, hours);
    AnyRecentMeans(s, now, days, hours);
    if AnyRecent(listing, now, days, hours) {
      var j :| 0 <= j < |listing| && Recent(listing[j], now, days, hours);
      if j < i {
        assert s[j] == listing[j];
      } else {
        assert j != i;
        assert s[j - 1] == listing[j];
      }
    }
    if AnyRecent(s, now, days, hours) {
      var j :| 0 <= j < |s| && Recent(s[j], now, days, hours);
      if j < i {
        assert s[j] == listing[j];
      } else {
        assert s[j] == listing[j + 1];
      }
    }
  }

  /** Before the point where the pass raises, every archive it passed over
      was expired: what is left of that part is its non-archive entries. */
  lemma {:induction false} SurvivorsOfExpired(listing: seq<Entry>, now: int, days: int)
    requires forall j :: 0 <= j < |listing| && IsArchive(listing[j].name) ==> Expired(listing[j], now, days)
    ensures Survivors(listing, now, days) == Others(listing)
  {
    if listing != [] {
      var p := listing[..|listing| - 1];
      assert forall j :: 0 <= j < |p| ==> p[j] == listing[j];
      SurvivorsOfExpired(p, now, days);
    }
  }

  lemma {:induction false} OthersOfOthers(listing: seq<Entry>)
    requires forall j :: 0 <= j < |listing| ==> !IsArchive(listing[j].name)
    ensures Others(listing) == listing
  {
    if listing != [] {
      var p := listing[..|listing| - 1];
      assert forall j :: 0 <= j < |p| ==> p[j] == listing[j];
      OthersOfOthers(p);
    }
  }

  /** A new archive is needed exactly when the folder was empty or none of
      the archives the pass keeps is younger than the minimum interval. */
  lemma NeededIffNoYoungSurvivor(listing: seq<Entry>, now: int, days: int, hours: int)
    ensures BackupNeeded(listing, now, days, hours) <==>
      || |listing| == 0
      || forall e :: e in Survivors(listing, now, days) && IsArchive(e.name)
           ==> now - e.created >= hours * SECONDS_PER_HOUR
  {
    AnyRecentMeans(listing, now, days, hours);
    SurvivorsMembers(listing, now, days);
    if AnyRecent(listing, now, days, hours) {
      var i :| 0 <= i < |listing| && Recent(listing[i], now, days, hours);
      assert listing[i] in Survivors(listing, now, days);
    } else {
      forall e | e in Survivors(listing, now, days) && IsArchive(e.name)
        ensures now - e.created >= hours * SECONDS_PER_HOUR
      {
        var i :| 0 <= i < |listing| && listing[i] == e;
        assert !Recent(listing[i], now, days, hours);
      }
    }
  }

  /** Once a pass has written its archive, a pass run before that archive is
      older than the minimum interval (and than the retention window) finds
      it recent and writes no other. */
  lemma SecondPassSkips(listing: seq<Entry>, stamp: DateTime, created: int, now: int, days: int, hours: int)
    requires ValidDateTime(stamp)
    requires 0 <= now - created < hours * SECONDS_PER_HOUR
    requires now - created <= days * SECONDS_PER_DAY
    ensures !BackupNeeded(ArchiveAdded(listing, BackupName(stamp), created), now, days, hours)
  {
    BackupNameRoundTrip(stamp);
    var added := ArchiveAdded(listing, BackupName(stamp), created);
    AnyRecentSnoc(added[..|added| - 1], added[|added| - 1], now, days, hours);
    assert added[..|added| - 1] + [added[|added| - 1]] == added;
  }

  /** An empty backups folder, or a missing one that the pass creates, ends
      up holding exactly the new archive when compression succeeds. */
  lemma EmptyFolderGetsOneArchive(folders: map<string, seq<Entry>>, plainFiles: set<string>,
                                  env: Environment, clock: BackupClock)
    requires ValidDateTime(clock.now)
    requires ReadBackupConfig(env).Ok?
    requires var cfg := ReadBackupConfig(env).value;
      && cfg.backupsPath !in plainFiles
      && (cfg.backupsPath !in folders || folders[cfg.backupsPath] == [])
      && cfg.serverPath in folders
      && clock.compressFailure.None?
    ensures var cfg := ReadBackupConfig(env).value;
      BackupsEffect(folders, plainFiles, env, clock)
        == (Pass, folders[cfg.backupsPath := [Entry(BackupName(clock.now), clock.archiveCreated)]])
  {
    var cfg := ReadBackupConfig(env).value;
    var dir := cfg.backupsPath;
    assert Without([], BackupName(clock.now)) == [];
    var created := if dir in folders || dir in plainFiles then folders else folders[dir := []];
    assert created[dir] == [];
    assert Reached([], Seconds(clock.now), cfg.daysBeforeDelete, cfg.hoursBeforeNew) == 0;
    assert created[dir := []] == created;
    assert created[dir := [Entry(BackupName(clock.now), clock.archiveCreated)]]
        == folders[dir := [Entry(BackupName(clock.now), clock.archiveCreated)]];
  }

  /** After a pass that read its settings and could list the folder, an
      entry that was in it and does not bear the new archive's name is
      still there exactly when it is not an expired archive or the pass
      raised an OverflowError before reaching it, whether the compression
      then succeeded or not. */
  lemma DeletesExactlyExpired(folders: map<string, seq<Entry>>, plainFiles: set<string>,
                              env: Environment, clock: BackupClock, i: nat)
    requires ValidDateTime(clock.now)
    requires ReadBackupConfig(env).Ok?
    requires var cfg := ReadBackupConfig(env).value;
      && cfg.backupsPath in folders && DistinctNames(folders[cfg.backupsPath])
      && i < |folders[cfg.backupsPath]| && folders[cfg.backupsPath][i].name != BackupName(clock.now)
    ensures var cfg := ReadBackupConfig(env).value;
      var listing, now := folders[cfg.backupsPath], Seconds(clock.now);
      var r := BackupsEffect(folders, plainFiles, env, clock);
      && cfg.backupsPath in r.1
      && (listing[i] in r.1[cfg.backupsPath]
          <==> !Expired(listing[i], now, cfg.daysBeforeDelete)
               || i >= Reached(listing, now, cfg.daysBeforeDelete, cfg.hoursBeforeNew))
  {
    var cfg := ReadBackupConfig(env).value;
    var dir, now := cfg.backupsPath, Seconds(clock.now);
    var days, hours := cfg.daysBeforeDelete, cfg.hoursBeforeNew;
    var listing := folders[dir];
    var e := listing[i];
    var k := Reached(listing, now, days, hours);
    if k < |listing| {
      PartialPassMembers(listing, i, k, now, days);
    } else {
      var kept := Survivors(listing, now, days);
      SurvivorsMembers(listing, now, days);
      var added := ArchiveAdded(kept, BackupName(clock.now), clock.archiveCreated);
      assert e in added <==> e in added[..|added| - 1] by {
        assert added == added[..|added| - 1] + [added[|added| - 1]];
      }
    }
  }

  /** What a pass that raised after k entries leaves of entry i. */
  lemma PartialPassMembers(listing: seq<Entry>, i: nat, k: nat, now: int, days: int)
    requires DistinctNames(listing) && i < |listing| && k <= |listing|
    ensures listing[i] in Survivors(listing[..k], now, days) + listing[k..]
        <==> !Expired(listing[i], now, days) || i >= k
  {
    var e := listing[i];
    var pre := listing[..k];
    SurvivorsMembers(pre, now, days);
    if i < k {
      assert e == pre[i];
      if Expired(e, now, days) {
        forall j | k <= j < |listing| ensures listing[j] != e {
          DistinctAt(listing, i, j);
        }
        assert e !in listing[k..];
      }
    } else {
      assert e == listing[k..][i - k];
    }
  }

  /** A retention window too large for timedelta makes the pass raise its
      OverflowError at the first archive, before deleting anything; a
      folder without archives is left as it is. */
  lemma WindowOverflowDeletesNothing(folders: map<string, seq<Entry>>, plainFiles: set<string>,
                                     env: Environment, clock: BackupClock)
    requires ValidDateTime(clock.now)
    requires ReadBackupConfig(env).Ok?
    requires var cfg := ReadBackupConfig(env).value;
      && cfg.backupsPath in folders
      && (cfg.daysBeforeDelete < -MAX_DELTA_DAYS || cfg.daysBeforeDelete > MAX_DELTA_DAYS)
      && exists j :: 0 <= j < |folders[cfg.backupsPath]| && IsArchive(folders[cfg.backupsPath][j].name)
    ensures var cfg := ReadBackupConfig(env).value;
      var r := BackupsEffect(folders, plainFiles, env, clock);
      && r.0 == Fail(Timedelta(cfg.daysBeforeDelete * SECONDS_PER_DAY).error)
      && r.0.error.Overflow?
      && r.1 == folders
  {
    var cfg := ReadBackupConfig(env).value;
    var dir := cfg.backupsPath;
    var listing := folders[dir];
    var j :| 0 <= j < |listing| && IsArchive(listing[j].name);
    var now, days, hours := Seconds(clock.now), cfg.daysBeforeDelete, cfg.hoursBeforeNew;
    WindowOverflowListing(listing, j, now, days, hours);
    var k := Reached(listing, now, days, hours);
    var window := Timedelta(days * SECONDS_PER_DAY);
    assert window.error.Overflow?;
    assert BackupsEffect(folders, plainFiles, env, clock)
        == (Fail(DeltaError(days, hours)), folders[dir := Survivors(listing[..k], now, days) + listing[k..]]);
    assert folders[dir := listing] == folders;
  }

  lemma WindowOverflowListing(listing: seq<Entry>, j: nat, now: int, days: int, hours: int)
    requires days < -MAX_DELTA_DAYS || days > MAX_DELTA_DAYS
    requires j < |listing| && IsArchive(listing[j].name)
    ensures var k := Reached(listing, now, days, hours);
      && k < |listing|
      && Survivors(listing[..k], now, days) + listing[k..] == listing
      && Timedelta(days * SECONDS_PER_DAY).Err?
      && DeltaError(days, hours) == Timedelta(days * SECONDS_PER_DAY).error
  {
    TimedeltaRange(days);
    var k := Reached(listing, now, days, hours);
    WindowOverflowReached(listing, j, now, days, hours);
    var pre := listing[..k];
    assert forall m :: 0 <= m < |pre| ==> pre[m] == listing[m];
    SurvivorsOfExpired(pre, now, days);
    OthersOfOthers(pre);
    SplitAt(listing, k);
  }

  /** With the window overflowing, the pass raises on the first archive. */
  lemma WindowOverflowReached(listing: seq<Entry>, j: nat, now: int, days: int, hours: int)
    requires Timedelta(days * SECONDS_PER_DAY).Err?
    requires j < |listing| && IsArchive(listing[j].name)
    ensures var k := Reached(listing, now, days, hours);
      && k < |listing|
      && forall m :: 0 <= m < k ==> !IsArchive(listing[m].name)
  {
    assert RaisesOn(listing[j], now, days, hours);
    var k := Reached(listing, now, days, hours);
    forall m | 0 <= m < k ensures !IsArchive(listing[m].name) {
      assert !RaisesOn(listing[m], now, days, hours);
    }
  }

  /** A minimum interval too large for timedelta, with a retention window
      that fits, makes the pass raise its OverflowError at the first
      archive it keeps: the expired archives listed before it are already
      gone, only the non-archives remain of that part, and everything from
      that archive on is left in place. */
  lemma IntervalOverflowStopsAtKept(folders: map<string, seq<Entry>>, plainFiles: set<string>,
                                    env: Environment, clock: BackupClock, k: nat)
    requires ValidDateTime(clock.now)
    requires ReadBackupConfig(env).Ok?
    requires var cfg := ReadBackupConfig(env).value;
      var now := Seconds(clock.now);
      && cfg.backupsPath in folders
      && -MAX_DELTA_DAYS <= cfg.daysBeforeDelete <= MAX_DELTA_DAYS
      && (cfg.hoursBeforeNew < -23999999976 || cfg.hoursBeforeNew > 23999999999)
      && k < |folders[cfg.backupsPath]|
      && IsArchive(folders[cfg.backupsPath][k].name)
      && !Expired(folders[cfg.backupsPath][k], now, cfg.daysBeforeDelete)
      && forall j :: 0 <= j < k && IsArchive(folders[cfg.backupsPath][j].name)
           ==> Expired(folders[cfg.backupsPath][j], now, cfg.daysBeforeDelete)
    ensures var cfg := ReadBackupConfig(env).value;
      var dir := cfg.backupsPath;
      var r := BackupsEffect(folders, plainFiles, env, clock);
      && r.0 == Fail(Timedelta(cfg.hoursBeforeNew * SECONDS_PER_HOUR).error)
      && r.0.error.Overflow?
      && r.1 == folders[dir := Others(folders[dir][..k]) + folders[dir][k..]]
  {
    var cfg := ReadBackupConfig(env).value;
    var dir, now := cfg.backupsPath, Seconds(clock.now);
    var days, hours := cfg.daysBeforeDelete, cfg.hoursBeforeNew;
    var listing := folders[dir];
    TimedeltaRange(days);
    TimedeltaRange(hours);
    ReachedIs(listing, k, now, days, hours);
    var pre := listing[..k];
    assert forall j :: 0 <= j < |pre| ==> pre[j] == listing[j];
    SurvivorsOfExpired(pre, now, days);
  }

  /** A pass that cannot read its settings raises before touching anything. */
  lemma ConfigErrorChangesNothing(folders: map<string, seq<Entry>>, plainFiles: set<string>,
                                  env: Environment, clock: BackupClock)
    requires ValidDateTime(clock.now)
    requires ReadBackupConfig(env).Err?
    ensures BackupsEffect(folders, plainFiles, env, clock) == (Fail(ReadBackupConfig(env).error), folders)
  {
  }

  /** A pass touches no folder but the backups folder. */
  lemma OnlyBackupsFolderChanges(folders: map<string, seq<Entry>>, plainFiles: set<string>,
                                 env: Environment, clock: BackupClock, d: string)
    requires ValidDateTime(clock.now)
    requires ReadBackupConfig(env).Ok? && d != ReadBackupConfig(env).value.backupsPath
    ensures var r := BackupsEffect(folders, plainFiles, env, clock);
      (d in r.1 <==> d in folders) && (d in folders ==> r.1[d] == folders[d])
  {
    var cfg := ReadBackupConfig(env).value;
    var dir := cfg.backupsPath;
    var created := if dir in folders || dir in plainFiles then folders else folders[dir := []];
    assert d in created <==> d in folders;
    if dir in created {
      var now := Seconds(clock.now);
      var listing := created[dir];
      var pruned := created[dir := Survivors(listing, now, cfg.daysBeforeDelete)];
      assert d in pruned <==> d in folders;
      if Reached(listing, now, cfg.daysBeforeDelete, cfg.hoursBeforeNew) == |listing|
         && BackupNeeded(listing, now, cfg.daysBeforeDelete, cfg.hoursBeforeNew) {
        var c := CompressEffect(pruned, plainFiles, cfg.serverPath, dir, BackupName(clock.now),
                                clock.archiveCreated, clock.compressFailure);
        assert c.1 == pruned || c.1 == pruned[dir := ArchiveAdded(pruned[dir], BackupName(clock.now), clock.archiveCreated)];
      }
    }
  }
}
