/** handle_minecraft_server: start the server once, then poll it, restart it
    once a day at the configured time (running a backup pass while it is
    down), and on the first exception stop it cleanly and return a message.
    The world (dates, clock, the child's exit status, spawn failures) is
    given as one Tick per iteration of the loop; the effects on the operating
    system are collected as a sequence of Actions. */
module Supervisor {
  import opened Errors
  import opened Text
  import opened Config
  import opened Clock
  import opened Files
  import opened Backups
  import opened Launch

  /** What the supervisor asks of the operating system. */
  datatype Action =
    | Spawn(argv: seq<string>, cwd: string)   // subprocess.Popen(argv, cwd=...)
    | Terminate                               // terminate() of the current child
    | Wait                                    // wait() of the current child
    | Sleep(seconds: nat)                     // time.sleep(seconds)

  /** One attempt at Popen: the text of datetime.now() that a failure
      message would quote, and the error Popen raises, if it does. */
  datatype SpawnAttempt = SpawnAttempt(stamp: string, failure: Option<string>)

  /** What the world shows during one iteration of the loop. */
  datatype Tick = Tick(
    today: Date,              // datetime.date.today()
    hour: nat,                // the clock read by time.strftime("%H:%M")
    minute: nat,
    observed: Option<int>,    // the exit status the system reports to poll(); None while running
    exitOnWait: int,          // the exit status wait() collects after terminate()
    backups: BackupClock,     // what the backup pass of a restart sees
    relaunch: SpawnAttempt)   // the Popen of a restart

  /** The local variables the loop updates. */
  datatype Loop = Loop(
    timeWhenReboot: string,
    command: string,          // fullLaunchCommand
    lastRebootDate: Date,
    nbReboots: nat,
    returnCode: Option<int>,  // the returncode the current Popen object holds
    actions: seq<Action>)

  /** How a call of handle_minecraft_server ends, as far as the ticks go. */
  datatype RunResult =
    | Escaped(error: Error)    // an exception from the reads before the try
    | Returned(message: string) // the message returned after an interruption
    | StillRunning              // the loop is still going when the ticks run out

  const INTERRUPTED_PREFIX := "La gestion du serveur et de ses backups a dû être interrompue." + CHAIN_SEPARATOR

  /** Popen.poll(): once the object holds an exit status it keeps it;
      until then it reports what the system reports. */
  function PollResult(cached: Option<int>, observed: Option<int>): Option<int>
  {
    if cached.Some? then cached else observed
  }

  /** Popen.wait(): the held status, or the one collected from the system. */
  function WaitResult(cached: Option<int>, exitOnWait: int): int
  {
    if cached.Some? then cached.value else exitOnWait
  }

  /** `returncode != None and returncode != 0` */
  predicate ExitRaises(rc: Option<int>)
  {
    rc.Some? && rc.value != 0
  }

  // The messages below are one text each; their first words stand apart
  // only so that the proofs about ExitLike can read their leading characters
  // (the solver reads characters of a short literal, not of a long one).
  const EXIT_MESSAGE_PREFIX := "Le sous-processus " + "du serveur Minecraft s'est interrompu avec le code de retour -> "

  function ExitMessage(code: int): string
  {
    EXIT_MESSAGE_PREFIX + IntToString(code)
  }

  /** `current_date != last_reboot_date and current_time == time_when_reboot` */
  predicate RestartDue(today: Date, clock: string, last: Date, target: string)
  {
    today != last && clock == target
  }

  /** A reboot time not written as HH:MM never matches the clock, so the
      server is then never restarted. */
  lemma MalformedTargetNeverFires(today: Date, last: Date, target: string, hour: nat, minute: nat)
    requires |target| != 5 || target[2] != ':'
    ensures !RestartDue(today, ClockText(hour, minute), last, target)
  {
  }

  /** The largest length, in seconds, time.sleep accepts either way: it
      turns the length into nanoseconds in a signed 64-bit integer. */
  const MAX_SLEEP_SECONDS := 9223372036

  const SLEEP_OVERFLOW_MESSAGE := "timestamp too large to convert to C _PyTime_t"

  /** int(get_env_value("SECONDS_BETWEEN_CHECKS")) handed to time.sleep,
      which first refuses a length whose nanoseconds overflow, then a
      negative one. */
  function Pause(env: Environment): (r: Result<nat>)
    ensures r.Ok? <==> SECONDS_BETWEEN_CHECKS in env && ParseInt(env[SECONDS_BETWEEN_CHECKS]).Ok?
                       && 0 <= ParseInt(env[SECONDS_BETWEEN_CHECKS]).value <= MAX_SLEEP_SECONDS
    ensures r.Ok? ==> ParseInt(env[SECONDS_BETWEEN_CHECKS]) == Ok(r.value as int)
    ensures SECONDS_BETWEEN_CHECKS !in env ==> r == Err(MissingEnvValue(SECONDS_BETWEEN_CHECKS))
    ensures SECONDS_BETWEEN_CHECKS in env && ParseInt(env[SECONDS_BETWEEN_CHECKS]).Err?
            ==> r == Err(InvalidLiteral(env[SECONDS_BETWEEN_CHECKS]))
    ensures (SECONDS_BETWEEN_CHECKS in env && ParseInt(env[SECONDS_BETWEEN_CHECKS]).Ok?
             && -MAX_SLEEP_SECONDS <= ParseInt(env[SECONDS_BETWEEN_CHECKS]).value < 0) ==> r == Err(NegativeSleep)
    ensures (SECONDS_BETWEEN_CHECKS in env && ParseInt(env[SECONDS_BETWEEN_CHECKS]).Ok?
             && (|| ParseInt(env[SECONDS_BETWEEN_CHECKS]).value < -MAX_SLEEP_SECONDS
                 || ParseInt(env[SECONDS_BETWEEN_CHECKS]).value > MAX_SLEEP_SECONDS))
            ==> r == Err(Overflow(SLEEP_OVERFLOW_MESSAGE))
  {
    var n :- LookupInt(env, SECONDS_BETWEEN_CHECKS);
    if n < -MAX_SLEEP_SECONDS || n > MAX_SLEEP_SECONDS then Err(Overflow(SLEEP_OVERFLOW_MESSAGE))
    else if n < 0 then Err(NegativeSleep)
    else Ok(n)
  }

  function FirstLaunchMessage(stamp: string, command: string): string
  {
    "Impossible de démarrer (1ère fois) le serveur Minecraft à " + stamp + " avec la commande " + command
  }

  function RelaunchMessage(stamp: string, command: string): string
  {
    // First word apart, as in EXIT_MESSAGE_PREFIX.
    "Impossible " + "de redémarrer le serveur Minecraft à " + stamp + " avec la commande " + command + "."
  }

  /** The message returned once the try block has been left by an exception. */
  function InterruptedMessage(e: Error): (m: string)
    ensures |m| >= |INTERRUPTED_PREFIX| && m[..|INTERRUPTED_PREFIX|] == INTERRUPTED_PREFIX
    ensures m[|INTERRUPTED_PREFIX|..] == Message(e)
  {
    INTERRUPTED_PREFIX + Message(e)
  }

  /** The finally block: terminate and wait only when a child exists and
      its poll still finds it running. */
  function CleanupActions(polled: Option<int>): (a: seq<Action>)
    ensures Count(a, Terminate) == Count(a, Wait) == (if polled.None? then 1 else 0)
    ensures forall k :: 0 <= k < |a| ==> a[k] == Terminate || a[k] == Wait
    ensures polled.None? ==> a[0] == Terminate
  {
    if polled.None? then [Terminate, Wait] else []
  }

  /** How often an action occurs in a sequence of actions. */
  function Count(a: seq<Action>, x: Action): nat
  {
    if a == [] then 0 else Count(a[..|a| - 1], x) + (if a[|a| - 1] == x then 1 else 0)
  }

  /** The restart branch once the child is stopped and the backup pass
      has ended: read the launch settings again, rebuild the command and
      start a new child. */
  function Relaunch(stopped: Loop, env: Environment, serverPath: string,
                    backed: Outcome, folders: map<string, seq<Entry>>, t: Tick)
    : (r: (Outcome, Loop, map<string, seq<Entry>>))
  {
    if backed.Fail? then (backed, stopped, folders)
    else match ReadLaunchConfig(env)
      case Err(e) => (Fail(e), stopped, folders)
      case Ok(cfg) =>
        var rebuilt := stopped.(timeWhenReboot := cfg.timeWhenReboot, command := LaunchCommand(cfg));
        if t.relaunch.failure.Some? then
          (Fail(HandleException(RelaunchMessage(t.relaunch.stamp, rebuilt.command), Some(Foreign(t.relaunch.failure.value)))),
           rebuilt, folders)
        else
          (Pass, rebuilt.(returnCode := None, actions := rebuilt.actions + [Spawn(Split(rebuilt.command), serverPath)]),
           folders)
  }

  /** The child's state once the restart branch has terminated and waited
      for it. */
  function Stopped(s: Loop, t: Tick): Loop
  {
    s.(lastRebootDate := t.today, nbReboots := s.nbReboots + 1,
       returnCode := Some(WaitResult(s.returnCode, t.exitOnWait)),
       actions := s.actions + [Terminate, Wait])
  }

  /** The restart branch: record the restart, terminate and wait for the
      child, run the backup pass, then relaunch. */
  function RestartEffect(s: Loop, env: Environment, serverPath: string,
                         folders: map<string, seq<Entry>>, plainFiles: set<string>, t: Tick)
    : (r: (Outcome, Loop, map<string, seq<Entry>>))
    requires ValidDateTime(t.backups.now)
  {
    var backed := BackupsEffect(folders, plainFiles, env, t.backups);
    Relaunch(Stopped(s, t), env, serverPath, backed.0, backed.1, t)
  }

  /** Whether an iteration with these inputs takes the restart branch. */
  predicate Restarts(s: Loop, t: Tick)
  {
    !ExitRaises(PollResult(s.returnCode, t.observed))
    && RestartDue(t.today, ClockText(t.hour, t.minute), s.lastRebootDate, s.timeWhenReboot)
  }

  /** One iteration of `while True`: poll, raise on a failed child, then
      either restart or sleep. */
  function StepEffect(s: Loop, env: Environment, serverPath: string,
                      folders: map<string, seq<Entry>>, plainFiles: set<string>, t: Tick)
    : (r: (Outcome, Loop, map<string, seq<Entry>>))
    requires ValidDateTime(t.backups.now)
  {
    var rc := PollResult(s.returnCode, t.observed);
    var polled := s.(returnCode := rc);
    if ExitRaises(rc) then (Fail(HandleException(ExitMessage(rc.value), None)), polled, folders)
    else if RestartDue(t.today, ClockText(t.hour, t.minute), s.lastRebootDate, s.timeWhenReboot) then
      RestartEffect(polled, env, serverPath, folders, plainFiles, t)
    else match Pause(env)
      case Err(e) => (Fail(e), polled, folders)
      case Ok(n) => (Pass, polled.(actions := polled.actions + [Sleep(n)]), folders)
  }

  predicate ValidTicks(ticks: seq<Tick>)
  {
    forall k :: 0 <= k < |ticks| ==> ValidDateTime(ticks[k].backups.now)
  }

  /** The iterations over a sequence of ticks, stopping at the first that
      raises. */
  function Steps(s: Loop, env: Environment, serverPath: string,
                 folders: map<string, seq<Entry>>, plainFiles: set<string>, ticks: seq<Tick>)
    : (r: (Outcome, Loop, map<string, seq<Entry>>))
    requires ValidTicks(ticks)
  {
    if ticks == [] then (Pass, s, folders)
    else
      var (o, s', f') := Steps(s, env, serverPath, folders, plainFiles, ticks[..|ticks| - 1]);
      if o.Fail? then (o, s', f')
      else StepEffect(s', env, serverPath, f', plainFiles, ticks[|ticks| - 1])
  }

  /** The loop's variables once the first child has started: the start
      day counts as the last reboot day. */
  function StartLoop(cfg: LaunchConfig, startDate: Date, serverPath: string): Loop
  {
    Loop(cfg.timeWhenReboot, LaunchCommand(cfg), startDate, 0, None, [Spawn(Split(LaunchCommand(cfg)), serverPath)])
  }

  /** The whole of handle_minecraft_server. */
  function RunEffect(env: Environment, folders: map<string, seq<Entry>>, plainFiles: set<string>,
                     startDate: Date, first: SpawnAttempt, ticks: seq<Tick>, finalObserved: Option<int>)
    : (r: (RunResult, seq<Action>, map<string, seq<Entry>>))
    requires ValidTicks(ticks)
  {
    match Lookup(env, MINECRAFT_SERVER_PATH)
    case Err(e) => (Escaped(e), [], folders)
    case Ok(serverPath) =>
      match ReadLaunchConfig(env)
      case Err(e) => (Escaped(e), [], folders)
      case Ok(cfg) =>
        var command := LaunchCommand(cfg);
        if first.failure.Some? then
          (Returned(InterruptedMessage(HandleException(FirstLaunchMessage(first.stamp, command), Some(Foreign(first.failure.value))))),
           [], folders)
        else Supervise(env, serverPath, cfg, folders, plainFiles, startDate, ticks, finalObserved)
  }

  /** The try block from the first successful launch on, and the finally
      block. */
  function Supervise(env: Environment, serverPath: string, cfg: LaunchConfig,
                     folders: map<string, seq<Entry>>, plainFiles: set<string>,
                     startDate: Date, ticks: seq<Tick>, finalObserved: Option<int>)
    : (r: (RunResult, seq<Action>, map<string, seq<Entry>>))
    requires ValidTicks(ticks)
  {
    var (o, s, f) := Steps(StartLoop(cfg, startDate, serverPath), env, serverPath, folders, plainFiles, ticks);
    if o.Fail? then
      (Returned(InterruptedMessage(o.error)), s.actions + CleanupActions(PollResult(s.returnCode, finalObserved)), f)
    else (StillRunning, s.actions, f)
  }

  /** Once an iteration has raised, later ticks change nothing. */
  lemma {:induction false} StepsStopAtFailure(s: Loop, env: Environment, serverPath: string,
                                              folders: map<string, seq<Entry>>, plainFiles: set<string>,
                                              ticks: seq<Tick>, i: nat)
    requires ValidTicks(ticks) && i <= |ticks|
    requires Steps(s, env, serverPath, folders, plainFiles, ticks[..i]).0.Fail?
    ensures Steps(s, env, serverPath, folders, plainFiles, ticks) == Steps(s, env, serverPath, folders, plainFiles, ticks[..i])
    decreases |ticks|
  {
    if i < |ticks| {
      var p := ticks[..|ticks| - 1];
      assert p[..i] == ticks[..i];
      StepsStopAtFailure(s, env, serverPath, folders, plainFiles, p, i);
    } else {
      assert ticks[..i] == ticks;
    }
  }

  lemma StepsSnoc(s: Loop, env: Environment, serverPath: string,
                  folders: map<string, seq<Entry>>, plainFiles: set<string>, ticks: seq<Tick>, i: nat)
    requires ValidTicks(ticks) && i < |ticks|
    requires Steps(s, env, serverPath, folders, plainFiles, ticks[..i]).0.Pass?
    ensures var r := Steps(s, env, serverPath, folders, plainFiles, ticks[..i]);
      Steps(s, env, serverPath, folders, plainFiles, ticks[..i + 1]) == StepEffect(r.1, env, serverPath, r.2, plainFiles, ticks[i])
  {
    assert ticks[..i + 1][..i] == ticks[..i];
  }

  /** The restart branch of a pass, as the relaunch after the stop and the
      backup pass. */
  lemma RestartIsRelaunch(s: Loop, env: Environment, serverPath: string,
                          folders: map<string, seq<Entry>>, plainFiles: set<string>, t: Tick)
    requires ValidDateTime(t.backups.now) && Restarts(s, t)
    ensures var backed := BackupsEffect(folders, plainFiles, env, t.backups);
      StepEffect(s, env, serverPath, folders, plainFiles, t)
      == Relaunch(Stopped(s.(returnCode := PollResult(s.returnCode, t.observed)), t), env, serverPath, backed.0, backed.1, t)
  {
  }

  /** A pass restarts exactly when the child has not failed and the day and
      time call for it; a restart records the day and counts one more
      reboot, and nothing but a restart touches the reboot bookkeeping, the
      launch settings or the folders. */
  lemma StepBookkeeping(s: Loop, env: Environment, serverPath: string,
                        folders: map<string, seq<Entry>>, plainFiles: set<string>, t: Tick)
    requires ValidDateTime(t.backups.now)
    ensures var r := StepEffect(s, env, serverPath, folders, plainFiles, t);
      && r.1.nbReboots == s.nbReboots + (if Restarts(s, t) then 1 else 0)
      && r.1.lastRebootDate == (if Restarts(s, t) then t.today else s.lastRebootDate)
      && (!Restarts(s, t) ==> r.1.command == s.command && r.1.timeWhenReboot == s.timeWhenReboot && r.2 == folders)
  {
    if Restarts(s, t) {
      var backed := BackupsEffect(folders, plainFiles, env, t.backups);
      RestartIsRelaunch(s, env, serverPath, folders, plainFiles, t);
      RelaunchOutcome(Stopped(s.(returnCode := PollResult(s.returnCode, t.observed)), t), env, serverPath, backed.0, backed.1, t);
    }
  }

  /** A child that has ended with a non-zero status makes the pass raise
      with its status in the message, before anything else is done. */
  lemma FailedChildRaises(s: Loop, env: Environment, serverPath: string,
                          folders: map<string, seq<Entry>>, plainFiles: set<string>, t: Tick)
    requires ValidDateTime(t.backups.now)
    requires ExitRaises(PollResult(s.returnCode, t.observed))
    ensures var r := StepEffect(s, env, serverPath, folders, plainFiles, t);
      && r.0 == Fail(Raised(ExitMessage(PollResult(s.returnCode, t.observed).value)))
      && r.1.actions == s.actions && r.2 == folders
  {
  }

  /** poll() asks the system only while the Popen object holds no exit
      status: an iteration that does not restart leaves the status it
      polled in hand, and a status once held is kept whatever the system
      reports afterwards. */
  lemma HeldStatusKept(s: Loop, env: Environment, serverPath: string,
                       folders: map<string, seq<Entry>>, plainFiles: set<string>, t: Tick)
    requires ValidDateTime(t.backups.now)
    requires !Restarts(s, t)
    ensures var r := StepEffect(s, env, serverPath, folders, plainFiles, t);
      && (s.returnCode.Some? ==> r.1.returnCode == s.returnCode)
      && (s.returnCode.None? ==> r.1.returnCode == t.observed)
  {
  }

  /** An iteration raises the message of a failed child with a given code
      exactly when poll() gives that code and it is not zero: a clean exit
      does not stop the loop, and no other failure of the iteration reads
      like a failed child. */
  lemma StepRaisesOnExit(s: Loop, env: Environment, serverPath: string,
                         folders: map<string, seq<Entry>>, plainFiles: set<string>, t: Tick, code: int)
    requires ValidDateTime(t.backups.now)
    ensures StepEffect(s, env, serverPath, folders, plainFiles, t).0 == Fail(Raised(ExitMessage(code)))
        <==> PollResult(s.returnCode, t.observed) == Some(code) && code != 0
  {
    var rc := PollResult(s.returnCode, t.observed);
    var r := StepEffect(s, env, serverPath, folders, plainFiles, t);
    ExitMessageLooksLikeExit(code);
    if ExitRaises(rc) {
      if r.0 == Fail(Raised(ExitMessage(code))) {
        ExitMessageInjective(rc.value, code);
      }
    } else if RestartDue(t.today, ClockText(t.hour, t.minute), s.lastRebootDate, s.timeWhenReboot) {
      var polled := s.(returnCode := rc);
      var backed := BackupsEffect(folders, plainFiles, env, t.backups);
      BackupErrorsAreNotExits(folders, plainFiles, env, t.backups);
      RelaunchErrorsAreNotExits(Stopped(polled, t), env, serverPath, backed.0, backed.1, t);
    }
  }

  /** The messages of a failed child begin with "Le s". Two characters
      suffice to tell them from the other messages handle_exception raises
      in the loop ("Le d" of a missing folder, "Le c" of a source that is
      not a folder, "Impossible" of a failed relaunch); every other error
      is not a Raised one. Testing only those two characters keeps the
      proofs away from the long message texts. */
  predicate ExitLike(e: Error)
  {
    e.Raised? && |e.message| > 3 && e.message[0] == 'L' && e.message[3] == 's'
  }

  lemma ExitMessageLooksLikeExit(code: int)
    ensures ExitLike(Raised(ExitMessage(code)))
  {
    var m := ExitMessage(code);
    assert m[0] == 'L' && m[3] == 's';
  }

  lemma ExitMessageInjective(a: int, b: int)
    requires ExitMessage(a) == ExitMessage(b)
    ensures a == b
  {
    assert ExitMessage(a)[|EXIT_MESSAGE_PREFIX|..] == IntToString(a);
    assert ExitMessage(b)[|EXIT_MESSAGE_PREFIX|..] == IntToString(b);
    ParseIntOfIntToString(a);
    ParseIntOfIntToString(b);
  }

  lemma ReadErrorsAreNotExits(env: Environment)
    ensures ReadBackupConfig(env).Err? ==> !ReadBackupConfig(env).error.Raised?
    ensures ReadLaunchConfig(env).Err? ==> !ReadLaunchConfig(env).error.Raised?
  {
    ReadBackupConfigMeans(env);
    ReadLaunchConfigMeans(env);
  }

  lemma BackupErrorsAreNotExits(folders: map<string, seq<Entry>>, plainFiles: set<string>,
                                env: Environment, clock: BackupClock)
    requires ValidDateTime(clock.now)
    ensures var r := BackupsEffect(folders, plainFiles, env, clock);
      r.0.Fail? ==> !ExitLike(r.0.error)
  {
    ReadErrorsAreNotExits(env);
    match ReadBackupConfig(env)
    case Err(_) =>
    case Ok(cfg) =>
      var dir := cfg.backupsPath;
      var created := if dir in folders || dir in plainFiles then folders else folders[dir := []];
      if dir in created {
        var listing, now := created[dir], Seconds(clock.now);
        var days, hours := cfg.daysBeforeDelete, cfg.hoursBeforeNew;
        if Reached(listing, now, days, hours) == |listing| && BackupNeeded(listing, now, days, hours) {
          var pruned := created[dir := Survivors(listing, now, days)];
          CompressErrorsAreNotExits(pruned, plainFiles, cfg.serverPath, dir, BackupName(clock.now),
                                    clock.archiveCreated, clock.compressFailure);
        }
      }
  }

  lemma CompressErrorsAreNotExits(folders: map<string, seq<Entry>>, plainFiles: set<string>, source: string,
                                  dir: string, name: string, created: int, failure: Option<string>)
    ensures var r := CompressEffect(folders, plainFiles, source, dir, name, created, failure);
      r.0.Fail? ==> !ExitLike(r.0.error)
  {
    assert NotFoundMessage(source)[3] == 'd';
    assert NotADirectoryMessage(source)[3] == 'c';
  }

  lemma RelaunchErrorsAreNotExits(stopped: Loop, env: Environment, serverPath: string,
                                  backed: Outcome, folders: map<string, seq<Entry>>, t: Tick)
    requires backed.Fail? ==> !ExitLike(backed.error)
    ensures var r := Relaunch(stopped, env, serverPath, backed, folders, t);
      r.0.Fail? ==> !ExitLike(r.0.error)
  {
    ReadErrorsAreNotExits(env);
    if backed.Pass? && ReadLaunchConfig(env).Ok? && t.relaunch.failure.Some? {
      var command := LaunchCommand(ReadLaunchConfig(env).value);
      var m := RelaunchMessage(t.relaunch.stamp, command);
      assert m[0] == 'I';
    }
  }

  /** A pass that does not restart reads SECONDS_BETWEEN_CHECKS again and
      sleeps that long, or raises what the read or the sleep raises. */
  lemma QuietPassSleeps(s: Loop, env: Environment, serverPath: string,
                        folders: map<string, seq<Entry>>, plainFiles: set<string>, t: Tick)
    requires ValidDateTime(t.backups.now)
    requires !ExitRaises(PollResult(s.returnCode, t.observed)) && !Restarts(s, t)
    ensures var r := StepEffect(s, env, serverPath, folders, plainFiles, t);
      && (r.0.Pass? <==> SECONDS_BETWEEN_CHECKS in env && ParseInt(env[SECONDS_BETWEEN_CHECKS]).Ok?
                         && 0 <= ParseInt(env[SECONDS_BETWEEN_CHECKS]).value <= MAX_SLEEP_SECONDS)
      && (r.0.Pass? ==> r.1.actions == s.actions + [Sleep(ParseInt(env[SECONDS_BETWEEN_CHECKS]).value as nat)])
      && (r.0.Fail? ==> r.1.actions == s.actions)
  {
  }

  /** After the backup pass, the relaunch leaves the folders alone; when
      it goes through, the new child runs the settings read again, and when
      it fails, the stopped child is still the one in hand. */
  lemma RelaunchOutcome(stopped: Loop, env: Environment, serverPath: string,
                        backed: Outcome, folders: map<string, seq<Entry>>, t: Tick)
    ensures var r := Relaunch(stopped, env, serverPath, backed, folders, t);
      && r.2 == folders
      && r.1.lastRebootDate == stopped.lastRebootDate && r.1.nbReboots == stopped.nbReboots
      && (r.0.Pass? <==> backed.Pass? && ReadLaunchConfig(env).Ok? && t.relaunch.failure.None?)
      && (r.0.Pass? ==>
           && r.1.command == LaunchCommand(ReadLaunchConfig(env).value)
           && r.1.timeWhenReboot == ReadLaunchConfig(env).value.timeWhenReboot
           && r.1.actions == stopped.actions + [Spawn(LaunchArgv(ReadLaunchConfig(env).value), serverPath)]
           && r.1.returnCode.None?)
      && (r.0.Fail? ==> r.1.actions == stopped.actions && r.1.returnCode == stopped.returnCode)
      && ((r.1.command == stopped.command && r.1.timeWhenReboot == stopped.timeWhenReboot)
          || (ReadLaunchConfig(env).Ok? && r.1.command == LaunchCommand(ReadLaunchConfig(env).value)
              && r.1.timeWhenReboot == ReadLaunchConfig(env).value.timeWhenReboot))
  {
  }

  /** A restart that goes through terminates and waits for the old child,
      then starts a new one from the settings read again, in that order;
      the folders are what the backup pass left. */
  lemma RestartSequence(s: Loop, env: Environment, serverPath: string,
                        folders: map<string, seq<Entry>>, plainFiles: set<string>, t: Tick)
    requires ValidDateTime(t.backups.now)
    requires Restarts(s, t)
    ensures var r := StepEffect(s, env, serverPath, folders, plainFiles, t);
      && r.2 == BackupsEffect(folders, plainFiles, env, t.backups).1
      && (r.0.Pass? ==>
           && ReadLaunchConfig(env).Ok?
           && r.1.command == LaunchCommand(ReadLaunchConfig(env).value)
           && r.1.timeWhenReboot == ReadLaunchConfig(env).value.timeWhenReboot
           && r.1.actions == s.actions + [Terminate, Wait, Spawn(LaunchArgv(ReadLaunchConfig(env).value), serverPath)]
           && r.1.returnCode.None?)
      && (r.0.Fail? ==> r.1.actions == s.actions + [Terminate, Wait] && r.1.returnCode.Some?)
      && ((r.1.command == s.command && r.1.timeWhenReboot == s.timeWhenReboot)
          || (ReadLaunchConfig(env).Ok? && r.1.command == LaunchCommand(ReadLaunchConfig(env).value)
              && r.1.timeWhenReboot == ReadLaunchConfig(env).value.timeWhenReboot))
  {
    var polled := s.(returnCode := PollResult(s.returnCode, t.observed));
    var backed := BackupsEffect(folders, plainFiles, env, t.backups);
    var stopped := Stopped(polled, t);
    RestartIsRelaunch(s, env, serverPath, folders, plainFiles, t);
    RelaunchOutcome(stopped, env, serverPath, backed.0, backed.1, t);
    if ReadLaunchConfig(env).Ok? {
      var spawn := Spawn(LaunchArgv(ReadLaunchConfig(env).value), serverPath);
      assert stopped.actions + [spawn] == s.actions + [Terminate, Wait, spawn];
    }
  }

  /** A pass that raises while a child still runs has raised in the sleep
      branch: every failure of a restart leaves in hand a child that has
      already been waited for, which the finally block then leaves alone. */
  lemma RunningChildOnlyAfterQuietFailure(s: Loop, env: Environment, serverPath: string,
                                          folders: map<string, seq<Entry>>, plainFiles: set<string>, t: Tick)
    requires ValidDateTime(t.backups.now)
    ensures var r := StepEffect(s, env, serverPath, folders, plainFiles, t);
      r.0.Fail? && r.1.returnCode.None? ==> !Restarts(s, t) && Pause(env).Err?
  {
    if Restarts(s, t) {
      RestartSequence(s, env, serverPath, folders, plainFiles, t);
    }
  }

  /** Over ticks that all fall on one day, the server restarts at most once,
      and not at all when it was last (re)started that day. */
  lemma {:induction false} OneRestartPerDay(s: Loop, env: Environment, serverPath: string,
                                            folders: map<string, seq<Entry>>, plainFiles: set<string>,
                                            ticks: seq<Tick>, day: Date)
    requires ValidTicks(ticks)
    requires forall k :: 0 <= k < |ticks| ==> ticks[k].today == day
    ensures var r := Steps(s, env, serverPath, folders, plainFiles, ticks);
      && r.1.nbReboots <= s.nbReboots + (if s.lastRebootDate == day then 0 else 1)
      && (r.1.nbReboots == s.nbReboots ==> r.1.lastRebootDate == s.lastRebootDate)
      && (r.1.nbReboots != s.nbReboots ==> r.1.lastRebootDate == day)
    decreases |ticks|
  {
    if ticks != [] {
      var p := ticks[..|ticks| - 1];
      OneRestartPerDay(s, env, serverPath, folders, plainFiles, p, day);
      var q := Steps(s, env, serverPath, folders, plainFiles, p);
      if q.0.Pass? {
        StepBookkeeping(q.1, env, serverPath, q.2, plainFiles, ticks[|ticks| - 1]);
      }
    }
  }

  /** The loop starts with the start day as the last reboot day, so no
      restart happens on that day. */
  lemma NoRestartOnStartDay(s: Loop, env: Environment, serverPath: string,
                            folders: map<string, seq<Entry>>, plainFiles: set<string>,
                            ticks: seq<Tick>, startDate: Date)
    requires ValidTicks(ticks) && s.lastRebootDate == startDate
    requires forall k :: 0 <= k < |ticks| ==> ticks[k].today == startDate
    ensures Steps(s, env, serverPath, folders, plainFiles, ticks).1.nbReboots == s.nbReboots
    ensures Steps(s, env, serverPath, folders, plainFiles, ticks).1.lastRebootDate == startDate
  {
    OneRestartPerDay(s, env, serverPath, folders, plainFiles, ticks, startDate);
  }

  /** Every child is started with the same arguments and folder. */
  predicate SpawnsOnly(actions: seq<Action>, argv: seq<string>, cwd: string)
  {
    forall k :: 0 <= k < |actions| && actions[k].Spawn? ==> actions[k] == Spawn(argv, cwd)
  }

  /** The loop's settings as read from an environment. */
  predicate SettingsFrom(s: Loop, cfg: LaunchConfig, serverPath: string)
  {
    && s.command == LaunchCommand(cfg)
    && s.timeWhenReboot == cfg.timeWhenReboot
    && SpawnsOnly(s.actions, LaunchArgv(cfg), serverPath)
  }

  lemma SpawnsOnlyAppend(a: seq<Action>, b: seq<Action>, argv: seq<string>, cwd: string)
    requires SpawnsOnly(a, argv, cwd) && SpawnsOnly(b, argv, cwd)
    ensures SpawnsOnly(a + b, argv, cwd)
  {
    forall k | 0 <= k < |a + b| && (a + b)[k].Spawn? ensures (a + b)[k] == Spawn(argv, cwd) {
      if k >= |a| {
        assert (a + b)[k] == b[k - |a|];
      }
    }
  }

  lemma RestartKeepsSettings(s: Loop, env: Environment, serverPath: string,
                             folders: map<string, seq<Entry>>, plainFiles: set<string>, t: Tick, cfg: LaunchConfig)
    requires ValidDateTime(t.backups.now) && Restarts(s, t)
    requires ReadLaunchConfig(env) == Ok(cfg) && SettingsFrom(s, cfg, serverPath)
    ensures SettingsFrom(StepEffect(s, env, serverPath, folders, plainFiles, t).1, cfg, serverPath)
  {
    var backed := BackupsEffect(folders, plainFiles, env, t.backups);
    var stopped := Stopped(s.(returnCode := PollResult(s.returnCode, t.observed)), t);
    RestartIsRelaunch(s, env, serverPath, folders, plainFiles, t);
    RelaunchOutcome(stopped, env, serverPath, backed.0, backed.1, t);
    var spawn := Spawn(LaunchArgv(cfg), serverPath);
    SpawnsOnlyAppend(s.actions, [Terminate, Wait], LaunchArgv(cfg), serverPath);
    SpawnsOnlyAppend(stopped.actions, [spawn], LaunchArgv(cfg), serverPath);
  }

  lemma QuietKeepsSettings(s: Loop, env: Environment, serverPath: string,
                           folders: map<string, seq<Entry>>, plainFiles: set<string>, t: Tick, cfg: LaunchConfig)
    requires ValidDateTime(t.backups.now) && !Restarts(s, t)
    requires SettingsFrom(s, cfg, serverPath)
    ensures SettingsFrom(StepEffect(s, env, serverPath, folders, plainFiles, t).1, cfg, serverPath)
  {
    var r := StepEffect(s, env, serverPath, folders, plainFiles, t);
    StepBookkeeping(s, env, serverPath, folders, plainFiles, t);
    if ExitRaises(PollResult(s.returnCode, t.observed)) {
      FailedChildRaises(s, env, serverPath, folders, plainFiles, t);
    } else {
      QuietPassSleeps(s, env, serverPath, folders, plainFiles, t);
      if r.0.Pass? {
        SpawnsOnlyAppend(s.actions, [Sleep(ParseInt(env[SECONDS_BETWEEN_CHECKS]).value as nat)], LaunchArgv(cfg), serverPath);
      }
    }
  }

  /** The environment is loaded once, so a pass keeps the settings it was
      started with: reading them again after a restart gives them back. */
  lemma StepKeepsSettings(s: Loop, env: Environment, serverPath: string,
                          folders: map<string, seq<Entry>>, plainFiles: set<string>, t: Tick, cfg: LaunchConfig)
    requires ValidDateTime(t.backups.now)
    requires ReadLaunchConfig(env) == Ok(cfg) && SettingsFrom(s, cfg, serverPath)
    ensures SettingsFrom(StepEffect(s, env, serverPath, folders, plainFiles, t).1, cfg, serverPath)
  {
    if Restarts(s, t) {
      RestartKeepsSettings(s, env, serverPath, folders, plainFiles, t, cfg);
    } else {
      QuietKeepsSettings(s, env, serverPath, folders, plainFiles, t, cfg);
    }
  }

  lemma {:induction false} StepsKeepSettings(s: Loop, env: Environment, serverPath: string,
                                             folders: map<string, seq<Entry>>, plainFiles: set<string>,
                                             ticks: seq<Tick>, cfg: LaunchConfig)
    requires ValidTicks(ticks)
    requires ReadLaunchConfig(env) == Ok(cfg) && SettingsFrom(s, cfg, serverPath)
    ensures SettingsFrom(Steps(s, env, serverPath, folders, plainFiles, ticks).1, cfg, serverPath)
    decreases |ticks|
  {
    if ticks != [] {
      var p := ticks[..|ticks| - 1];
      StepsKeepSettings(s, env, serverPath, folders, plainFiles, p, cfg);
      var q := Steps(s, env, serverPath, folders, plainFiles, p);
      if q.0.Pass? {
        StepKeepsSettings(q.1, env, serverPath, q.2, plainFiles, ticks[|ticks| - 1], cfg);
      }
    }
  }

  /** One pass of the `while True` loop, on the loop's variables. */
  method Iterate(fs: FileSystem, env: Environment, serverPath: string, s: Loop, t: Tick)
    returns (outcome: Outcome, next: Loop)
    requires fs.Valid() && ValidDateTime(t.backups.now)
    modifies fs
    ensures fs.Valid() && fs.plainFiles == old(fs.plainFiles)
    ensures (outcome, next, fs.folders) == StepEffect(s, env, serverPath, old(fs.folders), old(fs.plainFiles), t)
  {
    var timeWhenReboot, command, lastRebootDate := s.timeWhenReboot, s.command, s.lastRebootDate;
    var nbReboots, returnCode, actions := s.nbReboots, s.returnCode, s.actions;
    returnCode := PollResult(returnCode, t.observed);
    outcome := Pass;
    if ExitRaises(returnCode) {
      outcome := Fail(HandleException(ExitMessage(returnCode.value), None));
    } else if RestartDue(t.today, ClockText(t.hour, t.minute), lastRebootDate, timeWhenReboot) {
      ghost var polled := s.(returnCode := returnCode);
      lastRebootDate := t.today;
      nbReboots := nbReboots + 1;
      actions := actions + [Terminate, Wait];
      returnCode := Some(WaitResult(returnCode, t.exitOnWait));
      outcome := HandleBackups(fs, env, t.backups);
      ghost var stopped := Loop(timeWhenReboot, command, lastRebootDate, nbReboots, returnCode, actions);
      assert stopped == Stopped(polled, t);
      ghost var backed := outcome;
      if outcome.Pass? {
        var reread := ReadLaunchConfig(env);
        if reread.Err? {
          outcome := Fail(reread.error);
        } else {
          timeWhenReboot := reread.value.timeWhenReboot;
          command := LaunchCommand(reread.value);
          if t.relaunch.failure.Some? {
            outcome := Fail(HandleException(RelaunchMessage(t.relaunch.stamp, command),
                                            Some(Foreign(t.relaunch.failure.value))));
          } else {
            actions := actions + [Spawn(Split(command), serverPath)];
            returnCode := None;
          }
        }
      }
      assert (outcome, Loop(timeWhenReboot, command, lastRebootDate, nbReboots, returnCode, actions), fs.folders)
          == Relaunch(stopped, env, serverPath, backed, fs.folders, t);
    } else {
      var pause := Pause(env);
      if pause.Err? {
        outcome := Fail(pause.error);
      } else {
        actions := actions + [Sleep(pause.value)];
      }
    }
    next := Loop(timeWhenReboot, command, lastRebootDate, nbReboots, returnCode, actions);
  }

  /** handle_minecraft_server, over the ticks the loop sees. */
  method HandleMinecraftServer(fs: FileSystem, env: Environment, startDate: Date, first: SpawnAttempt,
                               ticks: seq<Tick>, finalObserved: Option<int>)
    returns (result: RunResult, actions: seq<Action>)
    requires fs.Valid() && ValidTicks(ticks)
    modifies fs
    ensures fs.Valid() && fs.plainFiles == old(fs.plainFiles)
    ensures (result, actions, fs.folders)
         == RunEffect(env, old(fs.folders), old(fs.plainFiles), startDate, first, ticks, finalObserved)
  {
    var lastRebootDate := startDate;
    var serverPath := Lookup(env, MINECRAFT_SERVER_PATH);
    if serverPath.Err? {
      return Escaped(serverPath.error), [];
    }
    var cfg := ReadLaunchConfig(env);
    if cfg.Err? {
      return Escaped(cfg.error), [];
    }
    var command := LaunchCommand(cfg.value);
    if first.failure.Some? {
      var e := HandleException(FirstLaunchMessage(first.stamp, command), Some(Foreign(first.failure.value)));
      return Returned(InterruptedMessage(e)), [];
    }
    var state := Loop(cfg.value.timeWhenReboot, command, lastRebootDate, 0, None, [Spawn(Split(command), serverPath.value)]);
    assert state == StartLoop(cfg.value, startDate, serverPath.value);
    ghost var start := state;
    var outcome := Pass;
    var i := 0;
    while i < |ticks| && outcome.Pass?
      invariant i <= |ticks|
      invariant fs.Valid() && fs.plainFiles == old(fs.plainFiles)
      invariant (outcome, state, fs.folders) == Steps(start, env, serverPath.value, old(fs.folders), old(fs.plainFiles), ticks[..i])
    {
      StepsSnoc(start, env, serverPath.value, old(fs.folders), old(fs.plainFiles), ticks, i);
      outcome, state := Iterate(fs, env, serverPath.value, state, ticks[i]);
      i := i + 1;
    }
    if outcome.Fail? {
      StepsStopAtFailure(start, env, serverPath.value, old(fs.folders), old(fs.plainFiles), ticks, i);
      actions := state.actions + CleanupActions(PollResult(state.returnCode, finalObserved));
      result := Returned(InterruptedMessage(outcome.error));
    } else {
      assert ticks[..i] == ticks;
      actions := state.actions;
      result := StillRunning;
    }
  }

  lemma {:induction false} CountAppend(a: seq<Action>, b: seq<Action>, x: Action)
    ensures Count(a + b, x) == Count(a, x) + Count(b, x)
    decreases |b|
  {
    if b != [] {
      assert (a + b)[..|a + b| - 1] == a + b[..|b| - 1];
      CountAppend(a, b[..|b| - 1], x);
    } else {
      assert a + b == a;
    }
  }

  /** A pass only ever appends to the actions already taken. */
  lemma StepExtendsActions(s: Loop, env: Environment, serverPath: string,
                           folders: map<string, seq<Entry>>, plainFiles: set<string>, t: Tick)
    requires ValidDateTime(t.backups.now)
    ensures s.actions <= StepEffect(s, env, serverPath, folders, plainFiles, t).1.actions
  {
    if ExitRaises(PollResult(s.returnCode, t.observed)) {
      FailedChildRaises(s, env, serverPath, folders, plainFiles, t);
    } else if Restarts(s, t) {
      RestartSequence(s, env, serverPath, folders, plainFiles, t);
    } else {
      QuietPassSleeps(s, env, serverPath, folders, plainFiles, t);
    }
  }

  lemma {:induction false} StepsExtendActions(s: Loop, env: Environment, serverPath: string,
                                              folders: map<string, seq<Entry>>, plainFiles: set<string>, ticks: seq<Tick>)
    requires ValidTicks(ticks)
    ensures s.actions <= Steps(s, env, serverPath, folders, plainFiles, ticks).1.actions
    decreases |ticks|
  {
    if ticks != [] {
      var p := ticks[..|ticks| - 1];
      StepsExtendActions(s, env, serverPath, folders, plainFiles, p);
      var q := Steps(s, env, serverPath, folders, plainFiles, p);
      if q.0.Pass? {
        StepExtendsActions(q.1, env, serverPath, q.2, plainFiles, ticks[|ticks| - 1]);
      }
    }
  }

  /** The reads before the try block raise straight out of the call, before
      any child is started or any folder touched. */
  lemma StartupReadsEscape(env: Environment, folders: map<string, seq<Entry>>, plainFiles: set<string>,
                           startDate: Date, first: SpawnAttempt, ticks: seq<Tick>, finalObserved: Option<int>)
    requires ValidTicks(ticks)
    ensures var r := RunEffect(env, folders, plainFiles, startDate, first, ticks, finalObserved);
      && (MINECRAFT_SERVER_PATH !in env ==> r == (Escaped(MissingEnvValue(MINECRAFT_SERVER_PATH)), [], folders))
      && (MINECRAFT_SERVER_PATH in env && ReadLaunchConfig(env).Err? ==> r == (Escaped(ReadLaunchConfig(env).error), [], folders))
  {
  }

  /** The interruption message around a wrapped foreign error. */
  lemma InterruptedForeign(m: string, f: string)
    ensures InterruptedMessage(HandleException(m, Some(Foreign(f)))) == INTERRUPTED_PREFIX + m + CHAIN_SEPARATOR + f
  {
    var e := HandleException(m, Some(Foreign(f)));
    assert Message(e) == m + CHAIN_SEPARATOR + f;
    assert INTERRUPTED_PREFIX + (m + CHAIN_SEPARATOR + f) == INTERRUPTED_PREFIX + m + CHAIN_SEPARATOR + f;
  }

  /** When the first Popen fails, the call returns the interruption message
      wrapping the first-launch message and Popen's error; with no child in
      hand, the finally block does nothing. */
  lemma FirstLaunchFailureReturns(env: Environment, folders: map<string, seq<Entry>>, plainFiles: set<string>,
                                  startDate: Date, first: SpawnAttempt, ticks: seq<Tick>, finalObserved: Option<int>)
    requires ValidTicks(ticks)
    requires MINECRAFT_SERVER_PATH in env && ReadLaunchConfig(env).Ok? && first.failure.Some?
    ensures var r := RunEffect(env, folders, plainFiles, startDate, first, ticks, finalObserved);
      && r.1 == [] && r.2 == folders
      && r.0 == Returned(INTERRUPTED_PREFIX + FirstLaunchMessage(first.stamp, LaunchCommand(ReadLaunchConfig(env).value))
                         + CHAIN_SEPARATOR + first.failure.value)
  {
    var m := FirstLaunchMessage(first.stamp, LaunchCommand(ReadLaunchConfig(env).value));
    var e := HandleException(m, Some(Foreign(first.failure.value)));
    assert Lookup(env, MINECRAFT_SERVER_PATH) == Ok(env[MINECRAFT_SERVER_PATH]);
    InterruptedForeign(m, first.failure.value);
    assert RunEffect(env, folders, plainFiles, startDate, first, ticks, finalObserved) == (Returned(InterruptedMessage(e)), [], folders);
  }

  /** Once the first child is up, every child the call starts, at launch or
      at a restart, runs the command built from the settings read at the
      start, in the server folder; the first action is that launch. */
  lemma EveryChildSameCommand(env: Environment, folders: map<string, seq<Entry>>, plainFiles: set<string>,
                              startDate: Date, first: SpawnAttempt, ticks: seq<Tick>, finalObserved: Option<int>)
    requires ValidTicks(ticks)
    requires MINECRAFT_SERVER_PATH in env && ReadLaunchConfig(env).Ok? && first.failure.None?
    ensures var r := RunEffect(env, folders, plainFiles, startDate, first, ticks, finalObserved);
      var cfg := ReadLaunchConfig(env).value;
      && |r.1| > 0 && r.1[0] == Spawn(LaunchArgv(cfg), env[MINECRAFT_SERVER_PATH])
      && SpawnsOnly(r.1, LaunchArgv(cfg), env[MINECRAFT_SERVER_PATH])
  {
    var cfg := ReadLaunchConfig(env).value;
    var sp := env[MINECRAFT_SERVER_PATH];
    var start := StartLoop(cfg, startDate, sp);
    StepsKeepSettings(start, env, sp, folders, plainFiles, ticks, cfg);
    StepsExtendActions(start, env, sp, folders, plainFiles, ticks);
    var q := Steps(start, env, sp, folders, plainFiles, ticks);
    var cleanup := CleanupActions(PollResult(q.1.returnCode, finalObserved));
    SpawnsOnlyAppend(q.1.actions, cleanup, LaunchArgv(cfg), sp);
    assert q.1.actions[0] == start.actions[0];
  }

  /** After an interruption inside the try block the call returns the
      interruption message, and the finally block terminates and waits for
      the child exactly once if its poll finds it running, and not at all
      otherwise. */
  lemma InterruptionCleansUpOnce(env: Environment, folders: map<string, seq<Entry>>, plainFiles: set<string>,
                                 startDate: Date, first: SpawnAttempt, ticks: seq<Tick>, finalObserved: Option<int>)
    requires ValidTicks(ticks)
    requires MINECRAFT_SERVER_PATH in env && ReadLaunchConfig(env).Ok? && first.failure.None?
    requires Steps(StartLoop(ReadLaunchConfig(env).value, startDate, env[MINECRAFT_SERVER_PATH]),
                   env, env[MINECRAFT_SERVER_PATH], folders, plainFiles, ticks).0.Fail?
    ensures var r := RunEffect(env, folders, plainFiles, startDate, first, ticks, finalObserved);
      var q := Steps(StartLoop(ReadLaunchConfig(env).value, startDate, env[MINECRAFT_SERVER_PATH]),
                     env, env[MINECRAFT_SERVER_PATH], folders, plainFiles, ticks);
      var running := PollResult(q.1.returnCode, finalObserved).None?;
      && r.0 == Returned(INTERRUPTED_PREFIX + Message(q.0.error))
      && Count(r.1, Terminate) == Count(q.1.actions, Terminate) + (if running then 1 else 0)
      && Count(r.1, Wait) == Count(q.1.actions, Wait) + (if running then 1 else 0)
      && q.1.actions <= r.1
  {
    var q := Steps(StartLoop(ReadLaunchConfig(env).value, startDate, env[MINECRAFT_SERVER_PATH]),
                   env, env[MINECRAFT_SERVER_PATH], folders, plainFiles, ticks);
    var cleanup := CleanupActions(PollResult(q.1.returnCode, finalObserved));
    CountAppend(q.1.actions, cleanup, Terminate);
    CountAppend(q.1.actions, cleanup, Wait);
  }
}
