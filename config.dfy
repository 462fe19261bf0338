/** Configuration lookups. The process environment is a map from variable
    name to value; a missing variable raises MissingEnvValue and a value that
    int() rejects raises ValueError. */
module Config {
  import opened Errors
  import opened Text

  type Environment = map<string, string>

  const MINECRAFT_SERVER_PATH := "MINECRAFT_SERVER_PATH"
  const BACKUPS_PATH := "BACKUPS_PATH"
  const NB_DAYS_BEFORE_DELETE_BACKUP := "NB_DAYS_BEFORE_DELETE_BACKUP"
  const NB_HOURS_BEFORE_NEW_BACKUP := "NB_HOURS_BEFORE_NEW_BACKUP"
  const TIME_WHEN_REBOOT := "TIME_WHEN_REBOOT"
  const JAVA_EXE_PATH := "JAVA_EXE_PATH"
  const MAX_RAM_GB := "MAX_RAM_GB"
  const MIN_RAM_GB := "MIN_RAM_GB"
  const MINECRAFT_SERVER_JAR_PATH := "MINECRAFT_SERVER_JAR_PATH"
  const SECONDS_BETWEEN_CHECKS := "SECONDS_BETWEEN_CHECKS"

  /** The text an f-string gives for a name: "None" when it is missing. */
  function NameText(name: Option<string>): string
  {
    if name.None? then "None" else name.value
  }

  function InvalidNameMessage(name: Option<string>): string
  {
    "\"" + NameText(name) + "\" n'est pas un nom de variable d'environnement valide."
  }

  /** get_env_value as written. The name guard `env_name is None or ""`
      only rejects a missing name (None): its second operand is the constant
      "", which is always false, so the empty name passes the guard and is
      looked up like any other. */
  function GetEnvValue(env: Environment, name: Option<string>): (r: Result<string>)
    ensures name.None? ==> r == Err(Raised(InvalidNameMessage(None)))
    ensures name.Some? ==> (r.Ok? <==> name.value in env)
    ensures name.Some? && name.value in env ==> r.value == env[name.value]
    ensures name.Some? && name.value !in env ==> r.error == MissingEnvValue(name.value)
  {
    if name.None? then Err(HandleException(InvalidNameMessage(name), None))
    else if name.value in env then Ok(env[name.value])
    else Err(MissingEnvValue(name.value))
  }

  /** The guard as written never rejects the empty name with the
      invalid-name error: "" is looked up, and raises MissingEnvValue when
      the environment has no such variable. */
  lemma EmptyNameIsLookedUp(env: Environment)
    requires "" !in env
    ensures GetEnvValue(env, Some("")) != Err(Raised(InvalidNameMessage(Some(""))))
    ensures GetEnvValue(env, Some("")) == Err(MissingEnvValue(""))
  {
  }

  /** get_env_value with the guard it evidently means,
      `env_name is None or env_name == ""`: both the missing and the empty
      name are rejected as invalid before any lookup. */
  function GetEnvValueIntended(env: Environment, name: Option<string>): (r: Result<string>)
    ensures name.None? || name.value == "" ==> r == Err(Raised(InvalidNameMessage(name)))
    ensures name.Some? && name.value != "" ==> (r.Ok? <==> name.value in env)
    ensures name.Some? && name.value != "" && name.value in env ==> r.value == env[name.value]
    ensures name.Some? && name.value != "" && name.value !in env ==> r.error == MissingEnvValue(name.value)
  {
    if name.None? || name.value == "" then Err(HandleException(InvalidNameMessage(name), None))
    else if name.value in env then Ok(env[name.value])
    else Err(MissingEnvValue(name.value))
  }

  /** The corrected guard changes the result for the empty name and for
      no other: a missing name and every non-empty name fare as before. */
  lemma IntendedDiffersOnlyOnEmpty(env: Environment, name: Option<string>)
    ensures GetEnvValueIntended(env, name) != GetEnvValue(env, name) <==> name == Some("")
  {
  }

  /** get_env_value called with one of the launcher's literal names; every
      such name is non-empty, so the two guards agree on it. */
  function Lookup(env: Environment, name: string): Result<string>
    requires name != ""
  {
    GetEnvValueIntended(env, Some(name))
  }

  /** int(get_env_value(name)) */
  function LookupInt(env: Environment, name: string): (r: Result<int>)
    requires name != ""
    ensures name !in env ==> r == Err(MissingEnvValue(name))
    ensures name in env ==> r == ParseInt(env[name])
  {
    var text :- Lookup(env, name);
    ParseInt(text)
  }

  /** The settings of the server launch, read in the order of the source. */
  datatype LaunchConfig = LaunchConfig(
    timeWhenReboot: string,
    javaExePath: string,
    maxRamGb: int,
    minRamGb: int,
    jarPath: string)

  /** TIME_WHEN_REBOOT, JAVA_EXE_PATH, MAX_RAM_GB, MIN_RAM_GB and
      MINECRAFT_SERVER_JAR_PATH, read one after the other; the first read
      that raises ends the sequence with its error. */
  function ReadLaunchConfig(env: Environment): Result<LaunchConfig>
  {
    var time :- Lookup(env, TIME_WHEN_REBOOT);
    var java :- Lookup(env, JAVA_EXE_PATH);
    var maxRam :- LookupInt(env, MAX_RAM_GB);
    var minRam :- LookupInt(env, MIN_RAM_GB);
    var jar :- Lookup(env, MINECRAFT_SERVER_JAR_PATH);
    Ok(LaunchConfig(time, java, maxRam, minRam, jar))
  }

  /** The launch settings succeed exactly when every variable is set and both
      memory values parse, and then hold those values; the first read that
      fails, in source order, gives the error. */
  lemma ReadLaunchConfigMeans(env: Environment)
    ensures ReadLaunchConfig(env).Ok? <==>
      && TIME_WHEN_REBOOT in env && JAVA_EXE_PATH in env
      && MAX_RAM_GB in env && ParseInt(env[MAX_RAM_GB]).Ok?
      && MIN_RAM_GB in env && ParseInt(env[MIN_RAM_GB]).Ok?
      && MINECRAFT_SERVER_JAR_PATH in env
    ensures ReadLaunchConfig(env).Ok? ==>
      && ReadLaunchConfig(env).value.timeWhenReboot == env[TIME_WHEN_REBOOT]
      && ReadLaunchConfig(env).value.javaExePath == env[JAVA_EXE_PATH]
      && ParseInt(env[MAX_RAM_GB]) == Ok(ReadLaunchConfig(env).value.maxRamGb)
      && ParseInt(env[MIN_RAM_GB]) == Ok(ReadLaunchConfig(env).value.minRamGb)
      && ReadLaunchConfig(env).value.jarPath == env[MINECRAFT_SERVER_JAR_PATH]
    ensures TIME_WHEN_REBOOT !in env ==> ReadLaunchConfig(env) == Err(MissingEnvValue(TIME_WHEN_REBOOT))
    ensures TIME_WHEN_REBOOT in env && JAVA_EXE_PATH !in env ==> ReadLaunchConfig(env) == Err(MissingEnvValue(JAVA_EXE_PATH))
    ensures TIME_WHEN_REBOOT in env && JAVA_EXE_PATH in env && MAX_RAM_GB !in env
            ==> ReadLaunchConfig(env) == Err(MissingEnvValue(MAX_RAM_GB))
    ensures TIME_WHEN_REBOOT in env && JAVA_EXE_PATH in env && MAX_RAM_GB in env && ParseInt(env[MAX_RAM_GB]).Err?
            ==> ReadLaunchConfig(env) == Err(InvalidLiteral(env[MAX_RAM_GB]))
    ensures TIME_WHEN_REBOOT in env && JAVA_EXE_PATH in env && MAX_RAM_GB in env && ParseInt(env[MAX_RAM_GB]).Ok?
            && MIN_RAM_GB !in env
            ==> ReadLaunchConfig(env) == Err(MissingEnvValue(MIN_RAM_GB))
    ensures TIME_WHEN_REBOOT in env && JAVA_EXE_PATH in env && MAX_RAM_GB in env && ParseInt(env[MAX_RAM_GB]).Ok?
            && MIN_RAM_GB in env && ParseInt(env[MIN_RAM_GB]).Err?
            ==> ReadLaunchConfig(env) == Err(InvalidLiteral(env[MIN_RAM_GB]))
    ensures TIME_WHEN_REBOOT in env && JAVA_EXE_PATH in env && MAX_RAM_GB in env && ParseInt(env[MAX_RAM_GB]).Ok?
            && MIN_RAM_GB in env && ParseInt(env[MIN_RAM_GB]).Ok? && MINECRAFT_SERVER_JAR_PATH !in env
            ==> ReadLaunchConfig(env) == Err(MissingEnvValue(MINECRAFT_SERVER_JAR_PATH))
  {
    if TIME_WHEN_REBOOT in env && JAVA_EXE_PATH in env {
      var r := ReadLaunchConfig(env);
      if MAX_RAM_GB in env && ParseInt(env[MAX_RAM_GB]).Ok? {
        assert LookupInt(env, MAX_RAM_GB) == ParseInt(env[MAX_RAM_GB]);
        if MIN_RAM_GB in env && ParseInt(env[MIN_RAM_GB]).Ok? {
          assert LookupInt(env, MIN_RAM_GB) == ParseInt(env[MIN_RAM_GB]);
        }
      }
    }
  }
}
