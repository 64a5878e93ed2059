/** The plugin's options, their defaults, and the two paths it computes
    from them: where a collected file is copied and where the report goes. */
module Options {
  import opened Text
  import opened Host

  /** The options object as the user passes it; `None` is a property left
      `undefined`. `mode` and `logType` are plain strings at run time. */
  datatype UserOptions = UserOptions(
    outputDir: Option<string>,
    baseDir: Option<string>,
    mode: Option<string>,
    logType: Option<string>)

  /** The options after defaults are applied. */
  datatype Config = Config(outputDir: string, baseDir: string, mode: string, logType: string)

  const DefaultOutputDir := "build"
  const DefaultMode := "log"
  const DefaultLogType := "md"

  /** Destructuring with defaults: each missing option takes its default,
      `baseDir` the current working directory. */
  function WithDefaults(opts: UserOptions, cwd: string): (c: Config)
    ensures c.outputDir == (if opts.outputDir.Some? then opts.outputDir.value else "build")
    ensures c.baseDir == (if opts.baseDir.Some? then opts.baseDir.value else cwd)
    ensures c.mode == (if opts.mode.Some? then opts.mode.value else "log")
    ensures c.logType == (if opts.logType.Some? then opts.logType.value else "md")
  {
    Config(
      match opts.outputDir case Some(d) => d case None => DefaultOutputDir,
      match opts.baseDir case Some(d) => d case None => cwd,
      match opts.mode case Some(m) => m case None => DefaultMode,
      match opts.logType case Some(t) => t case None => DefaultLogType)
  }

  /** Where `filePath` is copied: `outputDir` joined with `filePath` after the
      leftmost occurrence of the unresolved `baseDir` is cut out of it. */
  function Dest(cfg: Config, env: Env, filePath: string): (d: string)
    ensures !Contains(filePath, cfg.baseDir) ==> d == env.join(cfg.outputDir, filePath)
    ensures Contains(filePath, cfg.baseDir) ==>
      exists i :: FirstOccurrence(filePath, cfg.baseDir, i) &&
        d == env.join(cfg.outputDir, filePath[..i] + filePath[i + |cfg.baseDir|..])
  {
    env.join(cfg.outputDir, RemoveFirst(filePath, cfg.baseDir))
  }

  /** A file under `baseDir` keeps its path relative to `baseDir`. */
  lemma DestUnderBase(cfg: Config, env: Env, filePath: string)
    requires cfg.baseDir <= filePath
    ensures Dest(cfg, env, filePath) == env.join(cfg.outputDir, filePath[|cfg.baseDir|..])
  {
    RemoveFirstOfPrefix(filePath, cfg.baseDir);
  }

  /** `baseDir` is cut wherever it first occurs, not only as a prefix: with
      base `/app`, the file `/lib/app/x.ts` goes to `join(out, "/lib/x.ts")`. */
  lemma DestCutsInnerOccurrence(env: Env)
    ensures Dest(Config("out", "/app", "copy", "md"), env, "/lib/app/x.ts")
         == env.join("out", "/lib/x.ts")
  {
    var s, pat := "/lib/app/x.ts", "/app";
    assert OccursAt(s, pat, 4);
    assert s[0..4][1] != pat[1] && s[1..5][0] != pat[0] && s[2..6][0] != pat[0] && s[3..7][0] != pat[0];
    assert s[..4] + s[8..] == "/lib/x.ts";
  }

  /** The report file: `path.join(resolve(baseDir), "<outputDir>/README.<logType>"
      with the leftmost occurrence of `baseDir` cut out)`. */
  function ReportFileName(cfg: Config, env: Env): (f: string)
    ensures !Contains(cfg.outputDir + "/README." + cfg.logType, cfg.baseDir) ==>
      f == env.join(env.resolve(cfg.baseDir), cfg.outputDir + "/README." + cfg.logType)
  {
    env.join(env.resolve(cfg.baseDir), RemoveFirst(cfg.outputDir + "/README." + cfg.logType, cfg.baseDir))
  }

  /** With no options, the report is `build/README.md` under the resolved
      working directory, provided the working directory does not occur in
      that name. */
  lemma DefaultReportFileName(env: Env)
    requires !Contains("build/README.md", env.cwd)
    ensures ReportFileName(WithDefaults(UserOptions(None, None, None, None), env.cwd), env)
         == env.join(env.resolve(env.cwd), "build/README.md")
  {
    assert DefaultOutputDir + "/README." + DefaultLogType == "build/README.md";
  }

  /** With no options and working directory `/`, the first slash of
      `build/README.md` is cut: the report is named `buildREADME.md`. */
  lemma RootCwdCutsReportName(env: Env)
    requires env.cwd == "/"
    ensures ReportFileName(WithDefaults(UserOptions(None, None, None, None), env.cwd), env)
         == env.join(env.resolve("/"), "buildREADME.md")
  {
    var s: string := "build/README.md";
    assert DefaultOutputDir + "/README." + DefaultLogType == s;
    FirstSlashOfReportName();
    assert s[..5] + s[6..] == "buildREADME.md";
  }

  lemma FirstSlashOfReportName()
    ensures FirstOccurrence("build/README.md", "/", 5)
  {
    var s: string := "build/README.md";
    assert s[0] != '/' && s[1] != '/' && s[2] != '/' && s[3] != '/' && s[4] != '/';
    assert forall j :: 0 <= j < 5 ==> s[j..j + 1][0] == s[j];
    assert OccursAt(s, "/", 5);
  }
}
