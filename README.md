# OuiOui Minecraft launcher — a Dafny model

The launcher script `Configuration/Launcher/launch_server_with_backup.py` does the following:

- It starts the Minecraft server as a child process, built from settings read from the environment.
- It polls the child.
- Once a day, at the configured time, it stops the child. While the child is down it runs a backup pass, then starts the child again.
- On the first exception it stops the child cleanly and returns a message.

The backup pass works on the backups folder:

- It deletes the `.tar.gz` archives older than the retention window.
- It writes a new archive `backup_OuiOui_YYYYMMDD_HHMMSS.tar.gz` of the server folder when the folder was empty, or when no archive the pass keeps is younger than the minimum interval.

The model is split into modules by component:

- **Errors**: the exceptions the script raises or lets through, their `str()` texts, and `handle_exception`'s ` -> ` join.
- **Text**: the Python built-ins the script relies on. These are `str.split()`, `int()` on a string (with its own set of blanks to strip, a sign and underscores) and `str()` of an integer.
- **Config**: `get_env_value`, and the typed reads of the launch settings in source order.
- **Clock**: dates, naive date-times and `timedelta`. It covers:
  - the difference of two naive date-times (day numbers as `toordinal`, plus the time of day);
  - the zero-padded `strftime` fields;
  - the range check of `timedelta`, with its OverflowError.
- **Files**: the part of the filesystem the script touches. It covers:
  - a `FileSystem` class: folders with their entries in listing order, plus plain files;
  - `os.remove`;
  - the checks and effect of `compress_directory`.
- **Backups**: `handle_backups`. The pure functions `Survivors`, `AnyRecent` and `BackupsEffect` give the specification. The loop of lines 143-162 is the imperative method `PruneBackups`, which deletes archives from the folder in place; `PruneEntry` is one turn of it. `HandleBackups` is the whole pass.
- **Launch**: the launch command string and its split into arguments.
- **Supervisor**: `handle_minecraft_server`.
  - `StepEffect` is one iteration of its `while True` loop, on the loop's variables.
  - `Steps` runs the iterations over a finite sequence of ticks.
  - `RunEffect` is the whole call, including `finally`.
  - `Iterate` and `HandleMinecraftServer` are the imperative methods, proved equal to those functions.

The world is given as inputs:

- the process environment;
- the dates and clock readings of each iteration;
- the exit status the system reports to `poll()` and to `wait()`;
- whether `Popen` or the archive library fails;
- the text of `datetime.now()` that a message quotes.

The effects on the operating system are collected as a sequence of actions: `Spawn`, `Terminate`, `Wait` and `Sleep`.

The environment is loaded once by `load_dotenv()` and never changes while the script runs. So the settings read again after a restart are always the ones read at the start (`Supervisor.EveryChildSameCommand`), despite the comment at line 247.

## Model

| member | source | states |
|---|---|---|
| Errors.HandleException | Configuration/Launcher/launch_server_with_backup.py:31-39 | The raised error is a plain exception. Its text starts with the caller's message; when a cause is given the rest is " -> " and the cause's text, otherwise there is no rest. |
| Errors.ChainSplitsBack | Configuration/Launcher/launch_server_with_backup.py:35-36 | The joined message cuts back into the caller's message, the separator and the cause's text, so nothing of either is lost. |
| Text.Split | Configuration/Launcher/launch_server_with_backup.py:208 | `str.split()` yields only non-empty words free of whitespace. |
| Text.SplitJoinSpaced | Configuration/Launcher/launch_server_with_backup.py:208 | Splitting blank-free words joined by single spaces gives those words back, in order. |
| Text.SplitAtBlank | Configuration/Launcher/launch_server_with_backup.py:208 | A whitespace character cuts the string there: the words of `a + c + b` are the words of `a` followed by those of `b`. |
| Text.SplitOfJoin | Configuration/Launcher/launch_server_with_backup.py:208 | Splitting strings joined by single spaces gives the words of each string in turn, whatever blanks the strings hold. |
| Text.ParseInt | Configuration/Launcher/launch_server_with_backup.py:117-118 | `int()` either raises ValueError naming the rejected text, or accepts a text whose stripped form is non-empty and starts with a character `int()` does not strip. `int()` strips ASCII tab to carriage return, space and non-ASCII whitespace. |
| Text.ParseIntOfLiteral | Configuration/Launcher/launch_server_with_backup.py:117-118 | Any text made of `int()` blanks, an optional sign, digit groups joined by single underscores and `int()` blanks parses to the signed value of the digits. |
| Text.LeadingZeroIgnored | Configuration/Launcher/launch_server_with_backup.py:117-118 | A leading zero does not change the value of the digits. |
| Text.UnderscoreIgnored | Configuration/Launcher/launch_server_with_backup.py:117-118 | An underscore between digits does not change their value. |
| Text.SeparatorIsNotBlank | Configuration/Launcher/launch_server_with_backup.py:117-118 | The character `\x1c` is whitespace to `str.split()`, but `int()` does not strip it: `int()` of it followed by digits raises ValueError. |
| Text.ParseRejects | Configuration/Launcher/launch_server_with_backup.py:117-118 | A text whose stripped form starts with neither a digit nor a sign raises ValueError naming the text. |
| Text.ParseIntOnlyLiterals | Configuration/Launcher/launch_server_with_backup.py:117-118 | The converse of `ParseIntOfLiteral`: every text `int()` accepts is `int()` blanks, then at most one sign, then a digit group with single underscores between digits, then `int()` blanks. With `ParseIntOfLiteral`, the accepted texts are exactly the literals. |
| Text.ParseIntRefusesTrailingLetter | Configuration/Launcher/launch_server_with_backup.py:117-118 | `int("12a")` raises ValueError. |
| Text.ParseIntRefusesDoubledUnderscore | Configuration/Launcher/launch_server_with_backup.py:117-118 | `int("1__2")` raises ValueError. |
| Text.ParseIntRefusesTrailingUnderscore | Configuration/Launcher/launch_server_with_backup.py:117-118 | `int("1_")` raises ValueError. |
| Text.ParseIntRefusesDoubledSign | Configuration/Launcher/launch_server_with_backup.py:117-118 | `int("+-1")` raises ValueError. |
| Text.ParseIntOfIntToString | Configuration/Launcher/launch_server_with_backup.py:202 | `int(str(n)) == n` for every integer. |
| Text.IntToStringIsWord | Configuration/Launcher/launch_server_with_backup.py:202 | `str(n)` of an integer holds no whitespace, so a memory flag stays one argument. |
| Config.GetEnvValue | Configuration/Launcher/launch_server_with_backup.py:41-53 | As written: a missing name raises the invalid-name error. Any other name, the empty one included, yields the variable's value exactly when it is set, and otherwise raises MissingEnvValue naming it. |
| Config.EmptyNameIsLookedUp | Configuration/Launcher/launch_server_with_backup.py:45 | As written, the empty name is not rejected by the guard; it raises MissingEnvValue instead of the invalid-name error. |
| Config.GetEnvValueIntended | Configuration/Launcher/launch_server_with_backup.py:41-53 | Corrected guard: a missing or empty name raises the invalid-name error quoting it. Any other name yields its value when set, and otherwise raises MissingEnvValue. |
| Config.IntendedDiffersOnlyOnEmpty | Configuration/Launcher/launch_server_with_backup.py:45 | The corrected and written versions disagree exactly on the empty name. |
| Config.LookupInt | Configuration/Launcher/launch_server_with_backup.py:117 | `int(get_env_value(name))`: a missing variable raises MissingEnvValue; a set one gives what `int()` gives on its value. |
| Config.ReadLaunchConfigMeans | Configuration/Launcher/launch_server_with_backup.py:195-199 | The five launch settings succeed exactly when all are set and both memory values parse, and then they hold those values. Otherwise the first failing read, in source order, is the error. |
| Clock.OrdinalOfNextDay | Configuration/Launcher/launch_server_with_backup.py:152 | Day numbers count days, so the difference of two naive date-times is measured on a scale of consecutive days, across month and year ends. |
| Clock.StampRoundTrip | Configuration/Launcher/launch_server_with_backup.py:169 | `strftime('%Y%m%d_%H%M%S')` of a valid date-time reads back as that date-time. |
| Clock.StampInjective | Configuration/Launcher/launch_server_with_backup.py:169 | Distinct date-times never share a stamp. |
| Clock.ClockText | Configuration/Launcher/launch_server_with_backup.py:224 | `time.strftime("%H:%M")` is five characters with ':' in the middle. |
| Clock.ClockTextRoundTrip | Configuration/Launcher/launch_server_with_backup.py:224 | The `%H:%M` text of a valid hour and minute reads back as that hour and minute. |
| Clock.ClockTextInjective | Configuration/Launcher/launch_server_with_backup.py:224 | Distinct times of day never share a `%H:%M` text, so comparing the texts compares the times. |
| Clock.TimedeltaRange | Configuration/Launcher/launch_server_with_backup.py:152-157 | `timedelta(days=n)` is built exactly when n is between -999999999 and 999999999. `timedelta(hours=n)` is built exactly when n is between -23999999976 and 23999999999. Otherwise both raise OverflowError. |
| Clock.TimedeltaMessage | Configuration/Launcher/launch_server_with_backup.py:152 | Above that bound for days, and within a C int, the OverflowError text is `days=n; must have magnitude <= 999999999`. |
| Files.Without | Configuration/Launcher/launch_server_with_backup.py:154 | Removing a file never lengthens the listing. |
| Files.WithoutMembers | Configuration/Launcher/launch_server_with_backup.py:154 | `os.remove` drops the entries of that name and only those. |
| Files.WithoutKeepsDistinct | Configuration/Launcher/launch_server_with_backup.py:154 | After a removal, a folder still never lists two entries under one name. |
| Files.FileSystem.Remove | Configuration/Launcher/launch_server_with_backup.py:154 | Removes the named entry from that folder, changes no other folder and no other path, and keeps the filesystem well formed. |
| Files.ArchiveAdded | Configuration/Launcher/launch_server_with_backup.py:70-71 | The written archive is the last entry. The entries before it are exactly the old entries of other names; one of the same name is replaced. |
| Files.ArchiveAddedDistinct | Configuration/Launcher/launch_server_with_backup.py:70-71 | Writing an archive keeps names distinct in the folder. |
| Files.SourceCheck | Configuration/Launcher/launch_server_with_backup.py:60-65 | Passes exactly when the source is a folder. A missing path raises the "n'existe pas" error; a path that is not a folder raises the "ne correspond pas à un dossier" error. |
| Files.CompressEffect | Configuration/Launcher/launch_server_with_backup.py:55-74 | Succeeds exactly when the source and target folders exist and the library does not fail. On success the archive is added to the target folder; on failure nothing changes. A library failure escapes unwrapped, because line 73 catches an error type the library never raises. |
| Files.CompressDirectory | Configuration/Launcher/launch_server_with_backup.py:55-74 | The method's outcome and folders are those of CompressEffect, and the filesystem stays well formed. |
| Backups.ReadBackupConfigMeans | Configuration/Launcher/launch_server_with_backup.py:115-118 | The four backup settings succeed exactly when all are set and the two counts parse, and then they hold those values. A missing server path is the first error. |
| Backups.Survivors | Configuration/Launcher/launch_server_with_backup.py:143-155 | Pruning never lengthens the listing. |
| Backups.SurvivorsMembers | Configuration/Launcher/launch_server_with_backup.py:147-155 | An entry survives exactly when it is not a `.tar.gz` archive strictly older than days·86400 seconds. |
| Backups.AnyRecentMeans | Configuration/Launcher/launch_server_with_backup.py:152-160 | The recent flag is raised exactly when some archive is not expired and is strictly younger than hours·3600 seconds. Because of the elif, an expired archive is never recent. |
| Backups.BackupName | Configuration/Launcher/launch_server_with_backup.py:169 | The new archive's name has the fixed prefix, a 15-character stamp and the `.tar.gz` suffix. |
| Backups.BackupNameRoundTrip | Configuration/Launcher/launch_server_with_backup.py:169 | The name gives back the "now" it was built from, and it is an archive name the next pass considers. |
| Backups.BackupNameInjective | Configuration/Launcher/launch_server_with_backup.py:169 | Passes at different instants never name their archives alike. |
| Backups.Reached | Configuration/Launcher/launch_server_with_backup.py:143-162 | The pass gets through exactly the entries before the first one on which a `timedelta` overflows: `timedelta(days=…)` for every archive, and `timedelta(hours=…)` for an archive it keeps. With no such entry it gets through all of them. |
| Backups.ReachedIs | Configuration/Launcher/launch_server_with_backup.py:143-162 | That point is unique: an index with no overflow before it, and an overflow at it or the end of the listing, is where the pass stops. |
| Backups.PruneEntry | Configuration/Launcher/launch_server_with_backup.py:147-161 | One entry of the loop. It raises exactly when the entry is an archive and building the retention `timedelta` overflows, or the archive is kept and building the interval `timedelta` overflows; it then changes nothing. Otherwise it deletes the entry exactly when it is an expired archive, and reports it recent exactly when it is a kept archive younger than the interval. |
| Backups.PruneBackups | Configuration/Launcher/launch_server_with_backup.py:143-162 | Goes through the listing in order, deleting in place each expired archive and keeping everything else in order, and touches no other folder. At the first entry where a `timedelta` overflows it raises that OverflowError. The deletions before that entry are done and everything from it on is left in place. Otherwise it returns whether an archive was found recent. |
| Backups.HandleBackups | Configuration/Launcher/launch_server_with_backup.py:107-177 | The pass's outcome and resulting folders are those of BackupsEffect, including an OverflowError of the prune loop, and the filesystem stays well formed. |
| Backups.SurvivorsIdempotent | Configuration/Launcher/launch_server_with_backup.py:143-155 | A pass over a folder it has just pruned deletes nothing more. |
| Backups.OthersKept | Configuration/Launcher/launch_server_with_backup.py:147-162 | Wherever they stand in the listing, entries that are not `.tar.gz` archives are never deleted, whether the pass gets through the listing or raises part-way. |
| Backups.OthersNotCounted | Configuration/Launcher/launch_server_with_backup.py:147-162 | Taking an entry that is not a `.tar.gz` archive out of any position of the listing does not change whether a recent archive is found. |
| Backups.NeededIffNoYoungSurvivor | Configuration/Launcher/launch_server_with_backup.py:130-164 | A new archive is needed exactly when the folder was empty or no kept archive is strictly younger than the minimum interval. |
| Backups.SecondPassSkips | Configuration/Launcher/launch_server_with_backup.py:157-169 | Once a pass has written its archive, a later pass within the minimum interval and the retention window needs no new archive. |
| Backups.EmptyFolderGetsOneArchive | Configuration/Launcher/launch_server_with_backup.py:120-175 | An empty or missing backups folder ends up holding exactly the one new archive, with nothing deleted, when compression succeeds. |
| Backups.DeletesExactlyExpired | Configuration/Launcher/launch_server_with_backup.py:143-175 | After the pass, an old entry other than the new archive is still in the folder exactly when it was not an expired archive, or the pass raised an OverflowError at or before it. This holds whether compression succeeded or not. |
| Backups.ConfigErrorChangesNothing | Configuration/Launcher/launch_server_with_backup.py:115-118 | A pass that cannot read its settings raises that error and touches no folder. |
| Backups.OnlyBackupsFolderChanges | Configuration/Launcher/launch_server_with_backup.py:107-177 | Every folder other than the backups folder is left as it was. |
| Backups.WindowOverflowDeletesNothing | Configuration/Launcher/launch_server_with_backup.py:147-152 | When `timedelta(days=…)` overflows and the folder holds an archive, the pass raises that OverflowError at the first archive, before deleting anything. |
| Backups.IntervalOverflowStopsAtKept | Configuration/Launcher/launch_server_with_backup.py:147-157 | When only `timedelta(hours=…)` overflows, the pass raises that OverflowError at the first archive it keeps. The expired archives listed before it are already deleted, only the non-archives remain of that part, and everything from that archive on is left in place. |
| Launch.CommandIsJoined | Configuration/Launcher/launch_server_with_backup.py:202 | The command string is java path, `-Xmx{max}G`, `-Xms{min}G`, `-jar`, jar path and `nogui`, joined by single spaces. |
| Launch.FlagIsWord | Configuration/Launcher/launch_server_with_backup.py:202 | A memory flag is a single argument. |
| Launch.LaunchArgvOfPlainPaths | Configuration/Launcher/launch_server_with_backup.py:202-208 | When neither path holds a blank, the split gives exactly the six arguments. |
| Launch.LaunchArgvSplitsPaths | Configuration/Launcher/launch_server_with_backup.py:202-208 | Whatever the paths hold, the arguments are the words of the java path, the two memory flags, `-jar`, the words of the jar path and `nogui`. Only a path can be cut into several arguments. |
| Launch.RamFlagsRoundTrip | Configuration/Launcher/launch_server_with_backup.py:197-202 | The digits between a flag's prefix and its "G" parse back to the configured amount. |
| Launch.BlankInJavaPathSplits | Configuration/Launcher/launch_server_with_backup.py:202-208 | A java path made of two words around a blank, such as `C:/Program Files/java`, is cut in two by the split, giving seven arguments. |
| Supervisor.HeldStatusKept | Configuration/Launcher/launch_server_with_backup.py:227 | An iteration without a restart leaves in hand the status it polled. A status already held is kept whatever the system reports; otherwise the system's report is taken. |
| Supervisor.StepRaisesOnExit | Configuration/Launcher/launch_server_with_backup.py:227-229 | An iteration raises the failed-child message for a code exactly when `poll()` gives that code and the code is not 0. A clean exit falls through, and no other failure of the iteration produces that message. |
| Supervisor.MalformedTargetNeverFires | Configuration/Launcher/launch_server_with_backup.py:224-232 | A reboot time not of the form HH:MM never matches the clock, so no restart happens. |
| Supervisor.Pause | Configuration/Launcher/launch_server_with_backup.py:270-272 | The sleep goes ahead exactly when SECONDS_BETWEEN_CHECKS is set, parses and lies between 0 and 9223372036, and it lasts that long. Otherwise the error is MissingEnvValue or ValueError from `int()`. Beyond ±9223372036 seconds `time.sleep` raises OverflowError, checked before its negative-length ValueError. |
| Supervisor.InterruptedMessage | Configuration/Launcher/launch_server_with_backup.py:275-278 | The returned message is the interruption prefix followed by the exception's text. |
| Supervisor.CleanupActions | Configuration/Launcher/launch_server_with_backup.py:279-285 | `finally` terminates once and waits once, terminate first, exactly when the poll finds the child running; otherwise it does nothing. |
| Supervisor.StepBookkeeping | Configuration/Launcher/launch_server_with_backup.py:227-272 | An iteration restarts exactly when the child has not failed, the day differs from the last reboot day and the clock reads the reboot time. A restart records today and adds one reboot. Without a restart the launch settings, the reboot bookkeeping and the folders are unchanged. |
| Supervisor.FailedChildRaises | Configuration/Launcher/launch_server_with_backup.py:227-229 | A non-zero status raises with the status in the message, before any other action or change to a folder. |
| Supervisor.QuietPassSleeps | Configuration/Launcher/launch_server_with_backup.py:269-272 | An iteration without a restart reads SECONDS_BETWEEN_CHECKS again and sleeps that long when `time.sleep` accepts the value. Otherwise it raises and does nothing. |
| Supervisor.RelaunchOutcome | Configuration/Launcher/launch_server_with_backup.py:245-266 | After the backup pass, the relaunch succeeds exactly when the pass, the settings and `Popen` succeed. It then starts the child built from the settings read again. On failure the stopped child is still the one in hand. |
| Supervisor.RestartSequence | Configuration/Launcher/launch_server_with_backup.py:232-266 | A restart terminates and waits for the old child, leaves the folders as the backup pass did, and, when it goes through, spawns a new child from the settings read again. |
| Supervisor.RunningChildOnlyAfterQuietFailure | Configuration/Launcher/launch_server_with_backup.py:232-285 | An iteration that raises with a child still running has raised in the sleep branch. Every failure during a restart leaves a child that was already waited for. |
| Supervisor.OneRestartPerDay | Configuration/Launcher/launch_server_with_backup.py:232-237 | Over iterations on one day, the server restarts at most once. It does not restart at all when it was last rebooted that day. |
| Supervisor.NoRestartOnStartDay | Configuration/Launcher/launch_server_with_backup.py:191-232 | Since the start day counts as the last reboot day, no restart happens on it. |
| Supervisor.StepKeepsSettings | Configuration/Launcher/launch_server_with_backup.py:247-259 | With the environment fixed, the settings read again after a restart equal the ones in use, so the command and the spawned arguments never change. |
| Supervisor.StepsKeepSettings | Configuration/Launcher/launch_server_with_backup.py:221-272 | The same holds over any number of iterations. |
| Supervisor.Iterate | Configuration/Launcher/launch_server_with_backup.py:222-272 | One iteration of the loop on its variables has the outcome, new variables and folders of StepEffect, and keeps the filesystem well formed. |
| Supervisor.HandleMinecraftServer | Configuration/Launcher/launch_server_with_backup.py:181-287 | The whole call's result, actions and folders are those of RunEffect, and the filesystem stays well formed. |
| Supervisor.StartupReadsEscape | Configuration/Launcher/launch_server_with_backup.py:194-199 | A failed read before the try raises out of the call, with no action and no change to a folder. |
| Supervisor.FirstLaunchFailureReturns | Configuration/Launcher/launch_server_with_backup.py:207-285 | A failed first `Popen` returns the interruption prefix, the first-launch message and Popen's error, with no action taken. |
| Supervisor.EveryChildSameCommand | Configuration/Launcher/launch_server_with_backup.py:202-259 | The first action is the launch. Every child started, first or after a restart, gets the arguments split from the command built at the start, in the server folder. |
| Supervisor.InterruptionCleansUpOnce | Configuration/Launcher/launch_server_with_backup.py:275-285 | After an exception in the loop, the call returns the prefixed message. It adds exactly one terminate and one wait when the final poll finds the child running, and none otherwise, after the actions already taken. |

## Left out

- Logging, `init_logger`, `main` and `load_dotenv` are not modelled. Log lines have no effect on the state. The environment is an input that stays fixed for the whole call, as `os.environ` does.
- The content of archives and the tar/gzip format are not modelled. An archive is one new entry with its creation time. The library's failures are an input.
- Processes, signals and the system clock are not modelled; their observations are inputs to each iteration.
  - A child that ends between the poll of an iteration and the `terminate()` of the same iteration is taken as still running at `terminate()`.
  - `terminate()` on a child that has already exited sends nothing. The action is recorded as a call either way.
- Each iteration reads the date and the clock once, as lines 223-224 do. A midnight between the two reads is not modelled.
- Microseconds and the sub-second part of `os.path.getctime` are not modelled. Creation times and "now" are whole seconds on one naive local scale, and time-zone changes are ignored.
- For `int()`, only ASCII digits, an optional sign and single underscores between digits are accepted, with `int()`'s blanks stripped around them. Non-ASCII decimal digits, which CPython also accepts, are not modelled. The ValueError text quotes the value without Python's `repr` escaping.
- The limit of 4300 digits that `int()` applies from Python 3.11 on is not modelled.
- The OverflowError texts of `timedelta` and `time.sleep` are those of CPython 3.8's C implementation.
- `%Y` is zero-padded to four digits. The C library may print years before 1000 without padding; that difference is not modelled.
- The backups folder holds files only. Subdirectories in it, and the intermediate folders `os.makedirs` creates, are not modelled. An `os.makedirs` failure other than "a file has that path" is not modelled either.
- The folder is listed twice (lines 129 and 143). Changes by another process between the two listings are not modelled, so both listings are the same.
- Partial archives left by a failing compression are not modelled.
- `Popen` either returns a process or raises, so the checks at lines 214 and 265 always find a process. Lines 266 and 274 are unreachable, and the model has no branch for them.
- After a restart, a failing settings read can leave `time_when_reboot` updated while the other settings are not. The loop ends right after, so this is not observable and is not modelled.
- An exception raised inside `finally`, and a `KeyboardInterrupt` (which skips `except Exception`), are not modelled.
- `while True` never ends by itself. The model runs it over a finite sequence of ticks and reports `StillRunning` when the ticks run out.
- `Popen` is modelled by the exit status it holds (`returncode`) rather than as an object of its own.
- Config.GetEnvValue is faithful to line 45 as written. The launcher only passes it non-empty literal names, so the model's lookups go through Config.GetEnvValueIntended, which gives the same result on such names.

## Findings

| source | as written | input that shows it | evidently intended | confidence | as-written member | corrected member |
|---|---|---|---|---|---|---|
| Configuration/Launcher/launch_server_with_backup.py:45 | `if env_name is None or "":` only tests for None, because its second operand is the constant `""`, which is always false. | `get_env_value("")` passes the guard, is looked up, and raises MissingEnvValue for the name `""`. | `env_name is None or env_name == ""`: the empty name raises the invalid-name error, `"" n'est pas un nom de variable d'environnement valide.` | high (not executed) | Config.GetEnvValue, Config.EmptyNameIsLookedUp | Config.GetEnvValueIntended, Config.IntendedDiffersOnlyOnEmpty |
