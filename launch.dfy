/** The command line the launcher starts the server with: one string built
    from the launch settings, then cut into arguments by str.split(). */
module Launch {
  import opened Errors
  import opened Text
  import opened Config

  /** f"{java} -Xmx{max}G -Xms{min}G -jar {jar} nogui" */
  function LaunchCommand(cfg: LaunchConfig): string
  {
    cfg.javaExePath + " -Xmx" + IntToString(cfg.maxRamGb) + "G -Xms" + IntToString(cfg.minRamGb)
      + "G -jar " + cfg.jarPath + " nogui"
  }

  /** The maximum-memory flag, as one argument. */
  function MaxRamFlag(gb: int): string { "-Xmx" + IntToString(gb) + "G" }

  /** The initial-memory flag, as one argument. */
  function MinRamFlag(gb: int): string { "-Xms" + IntToString(gb) + "G" }

  /** The arguments handed to Popen: fullLaunchCommand.split(). */
  function LaunchArgv(cfg: LaunchConfig): seq<string>
  {
    Split(LaunchCommand(cfg))
  }

  lemma JoinLastThree(jar: string)
    ensures JoinSpaced(["-jar", jar, "nogui"]) == "-jar " + jar + " nogui"
  {
    JoinSpacedCons(jar, ["nogui"]);
    assert [jar] + ["nogui"] == [jar, "nogui"];
    JoinSpacedCons("-jar", [jar, "nogui"]);
    assert ["-jar"] + [jar, "nogui"] == ["-jar", jar, "nogui"];
    assert "-jar" + " " == "-jar ";
  }

  lemma JoinLastFive(mx: string, mn: string, jar: string)
    ensures JoinSpaced([mx, mn, "-jar", jar, "nogui"]) == mx + " " + mn + " -jar " + jar + " nogui"
  {
    JoinLastThree(jar);
    JoinSpacedCons(mn, ["-jar", jar, "nogui"]);
    assert [mn] + ["-jar", jar, "nogui"] == [mn, "-jar", jar, "nogui"];
    JoinSpacedCons(mx, [mn, "-jar", jar, "nogui"]);
    assert [mx] + [mn, "-jar", jar, "nogui"] == [mx, mn, "-jar", jar, "nogui"];
    assert " " + "-jar " == " -jar ";
  }

  lemma CommandRegroup(java: string, i1: string, i2: string, jar: string)
    ensures java + " -Xmx" + i1 + "G -Xms" + i2 + "G -jar " + jar + " nogui"
         == java + " " + (("-Xmx" + i1 + "G") + " " + ("-Xms" + i2 + "G") + " -jar " + jar + " nogui")
  {
    assert " " + "-Xmx" == " -Xmx";
    assert "G" + " " + "-Xms" == "G -Xms";
    assert "G" + " -jar " == "G -jar ";
  }

  /** The command is the six arguments joined by single spaces. */
  lemma CommandIsJoined(cfg: LaunchConfig)
    ensures LaunchCommand(cfg)
         == JoinSpaced([cfg.javaExePath, MaxRamFlag(cfg.maxRamGb), MinRamFlag(cfg.minRamGb), "-jar", cfg.jarPath, "nogui"])
  {
    var java, jar := cfg.javaExePath, cfg.jarPath;
    var mx, mn := MaxRamFlag(cfg.maxRamGb), MinRamFlag(cfg.minRamGb);
    JoinLastFive(mx, mn, jar);
    JoinSpacedCons(java, [mx, mn, "-jar", jar, "nogui"]);
    assert [java] + [mx, mn, "-jar", jar, "nogui"] == [java, mx, mn, "-jar", jar, "nogui"];
    CommandRegroup(java, IntToString(cfg.maxRamGb), IntToString(cfg.minRamGb), jar);
  }

  /** A flag built from an integer is a single word. */
  lemma FlagIsWord(prefix: string, n: int)
    requires IsWord(prefix) && prefix[0] == '-'
    ensures IsWord(prefix + IntToString(n) + "G")
  {
    IntToStringIsWord(n);
  }

  /** When neither path holds a blank, the split gives back exactly the java
      path, the two memory flags, "-jar", the jar path and "nogui". */
  lemma LaunchArgvOfPlainPaths(cfg: LaunchConfig)
    requires IsWord(cfg.javaExePath) && IsWord(cfg.jarPath)
    ensures LaunchArgv(cfg)
         == [cfg.javaExePath, MaxRamFlag(cfg.maxRamGb), MinRamFlag(cfg.minRamGb), "-jar", cfg.jarPath, "nogui"]
  {
    var ws := [cfg.javaExePath, MaxRamFlag(cfg.maxRamGb), MinRamFlag(cfg.minRamGb), "-jar", cfg.jarPath, "nogui"];
    CommandIsJoined(cfg);
    FlagIsWord("-Xmx", cfg.maxRamGb);
    FlagIsWord("-Xms", cfg.minRamGb);
    assert IsWord("-jar") && IsWord("nogui");
    SplitJoinSpaced(ws);
  }

  /** The memory flags carry the settings: int() of the digits between the
      prefix and the "G" gives the setting back. */
  lemma RamFlagsRoundTrip(gb: int)
    ensures var f := MaxRamFlag(gb); ParseInt(f[4..|f| - 1]) == Ok(gb)
    ensures var f := MinRamFlag(gb); ParseInt(f[4..|f| - 1]) == Ok(gb)
  {
    var f, g := MaxRamFlag(gb), MinRamFlag(gb);
    assert f[4..|f| - 1] == IntToString(gb);
    assert g[4..|g| - 1] == IntToString(gb);
    ParseIntOfIntToString(gb);
  }

  /** Splitting joined arguments cuts only the two paths: the words
      between and after them are one argument each. */
  lemma SplitAroundPaths(java: string, flags: seq<string>, jar: string, last: seq<string>)
    requires forall k :: 0 <= k < |flags| ==> IsWord(flags[k])
    requires forall k :: 0 <= k < |last| ==> IsWord(last[k])
    ensures Split(JoinSpaced([java] + flags + [jar] + last)) == Split(java) + flags + Split(jar) + last
  {
    var head := [java] + flags;
    SplitOfJoin(head + [jar] + last);
    SplitEachAppend(head + [jar], last);
    SplitEachAppend(head, [jar]);
    SplitEachAppend([java], flags);
    SplitEachOne(java);
    SplitEachOne(jar);
    SplitEachWords(flags);
    SplitEachWords(last);
  }

  lemma FixedWords()
    ensures IsWord("-jar") && IsWord("nogui")
  {
  }

  /** Whatever the paths hold, the arguments are the words of the java
      path, the two memory flags, "-jar", the words of the jar path and
      "nogui": a blank inside a path cuts it into several arguments, and
      nothing else is cut. */
  lemma LaunchArgvSplitsPaths(cfg: LaunchConfig)
    ensures LaunchArgv(cfg)
         == Split(cfg.javaExePath) + [MaxRamFlag(cfg.maxRamGb), MinRamFlag(cfg.minRamGb), "-jar"]
            + Split(cfg.jarPath) + ["nogui"]
  {
    var java, jar := cfg.javaExePath, cfg.jarPath;
    var mx, mn := MaxRamFlag(cfg.maxRamGb), MinRamFlag(cfg.minRamGb);
    CommandIsJoined(cfg);
    FlagIsWord("-Xmx", cfg.maxRamGb);
    FlagIsWord("-Xms", cfg.minRamGb);
    FixedWords();
    assert [java, mx, mn, "-jar", jar, "nogui"] == [java] + [mx, mn, "-jar"] + [jar] + ["nogui"];
    SplitAroundPaths(java, [mx, mn, "-jar"], jar, ["nogui"]);
  }

  /** A java path with a blank in it, such as "C:/Program Files/java", is
      cut in two by the split: the launcher then starts the program named
      by the part before the blank and hands it the rest as an argument. */
  lemma BlankInJavaPathSplits(cfg: LaunchConfig, before: string, after: string)
    requires IsWord(before) && IsWord(after) && cfg.javaExePath == before + " " + after
    requires IsWord(cfg.jarPath)
    ensures LaunchArgv(cfg)
         == [before, after, MaxRamFlag(cfg.maxRamGb), MinRamFlag(cfg.minRamGb), "-jar", cfg.jarPath, "nogui"]
  {
    LaunchArgvSplitsPaths(cfg);
    SplitTwoWords(before, after);
    SplitWord(cfg.jarPath);
    SevenParts(before, after, MaxRamFlag(cfg.maxRamGb), MinRamFlag(cfg.minRamGb), "-jar", cfg.jarPath, "nogui");
  }

  lemma SevenParts<T>(a: T, b: T, c: T, d: T, e: T, f: T, g: T)
    ensures [a, b] + [c, d, e] + [f] + [g] == [a, b, c, d, e, f, g]
  {
  }

  lemma SplitTwoWords(before: string, after: string)
    requires IsWord(before) && IsWord(after)
    ensures Split(before + " " + after) == [before, after]
  {
    assert before + " " + after == before + [' '] + after;
    SplitAtBlank(before, ' ', after);
    SplitWord(before);
    SplitWord(after);
  }
}
