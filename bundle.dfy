/** The `generateBundle` hook: collect the module ids (copying in copy
    mode), then write the report chosen by `logType`. The writes it performs
    are given by `BundleEffects`; the lemmas state what they guarantee. */
module Bundle {
  import opened Text
  import opened Host
  import opened Options
  import opened Collector
  import opened Report

  /** The report write chosen by the `switch (logType)`, which has no
      default case: an unknown `logType` writes nothing. */
  function ReportEffects(cfg: Config, env: Env, fs: Snapshot, c: seq<string>): seq<Effect>
    requires AllExist(c, fs)
  {
    var fileName := ReportFileName(cfg, env);
    if cfg.logType == "md" then [WriteReport(fileName, TextBody(ReportText(Markdown, c, fs)))]
    else if cfg.logType == "csv" then [WriteReport(fileName, TextBody(ReportText(Csv, c, fs)))]
    else if cfg.logType == "json" then [WriteReport(fileName, JsonBody(JsonRecord(c, fs)))]
    else []
  }

  /** Every write of one `generateBundle` call, in order. */
  function BundleEffects(ids: seq<string>, cfg: Config, env: Env, fs: Snapshot): seq<Effect>
  {
    var c := Collected(ids, fs);
    CollectedSound(ids, fs);
    Copies(cfg, env, fs, c) + ReportEffects(cfg, env, fs, c)
  }

  /** `generateBundle` */
  method GenerateBundle(ids: seq<string>, cfg: Config, env: Env, fs: Snapshot)
    returns (effects: seq<Effect>)
    ensures effects == BundleEffects(ids, cfg, env, fs)
  {
    var resolvedBaseDir := env.resolve(cfg.baseDir);
    var fileName := env.join(resolvedBaseDir, RemoveFirst(cfg.outputDir + "/README." + cfg.logType, cfg.baseDir));
    var preserved, copies := CollectModules(ids, cfg, env, fs);
    effects := copies;
    if cfg.logType == "md" {
      var r := GenerateMarkdownFile(preserved, fs);
      effects := effects + [WriteReport(fileName, TextBody(r.value))];
    } else if cfg.logType == "csv" {
      var r := GenerateCsvFile(preserved, fs);
      effects := effects + [WriteReport(fileName, TextBody(r.value))];
    } else if cfg.logType == "json" {
      var r := GenerateJsonFile(preserved, fs);
      effects := effects + [WriteReport(fileName, JsonBody(r.value))];
    }
  }

  // ----- copies -----

  /** How many copies read `source`. */
  function CopiesFrom(effects: seq<Effect>, source: string): nat
  {
    if effects == [] then 0
    else
      var last := effects[|effects| - 1];
      CopiesFrom(effects[..|effects| - 1], source) + (if last.Copy? && last.source == source then 1 else 0)
  }

  lemma {:induction false} CopiesFromConcat(a: seq<Effect>, b: seq<Effect>, source: string)
    ensures CopiesFrom(a + b, source) == CopiesFrom(a, source) + CopiesFrom(b, source)
    decreases |b|
  {
    if b == [] {
      assert a + b == a;
    } else {
      assert (a + b)[..|a + b| - 1] == a + b[..|b| - 1];
      CopiesFromConcat(a, b[..|b| - 1], source);
    }
  }

  lemma ReportEffectsCopyNothing(cfg: Config, env: Env, fs: Snapshot, c: seq<string>, source: string)
    requires AllExist(c, fs)
    ensures CopiesFrom(ReportEffects(cfg, env, fs, c), source) == 0
    ensures |ReportEffects(cfg, env, fs, c)| <= 1
    ensures forall e :: e in ReportEffects(cfg, env, fs, c) ==>
      e.WriteReport? && e.path == ReportFileName(cfg, env)
  {
    var r := ReportEffects(cfg, env, fs, c);
    if r != [] {
      assert r[..0] == [];
    }
  }

  lemma DistinctInit(c: seq<string>)
    requires Distinct(c) && c != []
    ensures Distinct(c[..|c| - 1]) && c[|c| - 1] !in c[..|c| - 1]
  {
    var pre := c[..|c| - 1];
    assert forall i :: 0 <= i < |pre| ==> pre[i] == c[i];
  }

  /** The copies of distinct paths read each path exactly once. */
  lemma {:induction false} CopiesExactlyOnce(cfg: Config, env: Env, fs: Snapshot, c: seq<string>, p: string)
    requires AllExist(c, fs) && Distinct(c) && cfg.mode == "copy"
    ensures CopiesFrom(Copies(cfg, env, fs, c), p) == if p in c then 1 else 0
  {
    if c != [] {
      var pre, last := c[..|c| - 1], c[|c| - 1];
      DistinctInit(c);
      CopiesExactlyOnce(cfg, env, fs, pre, p);
      var prior := Copies(cfg, env, fs, pre);
      var all := prior + [CopyOf(cfg, env, fs, last)];
      assert Copies(cfg, env, fs, c) == all;
      assert all[..|all| - 1] == prior;
      assert CopiesFrom(all, p) == CopiesFrom(prior, p) + (if last == p then 1 else 0);
      assert c == pre + [last];
    }
  }

  /** Every copy is the one `loopFile` makes for a path of `c`: it reads
      that path and writes its text to the path's destination. */
  lemma {:induction false} CopiesOfCollected(cfg: Config, env: Env, fs: Snapshot, c: seq<string>)
    requires AllExist(c, fs)
    ensures forall e :: e in Copies(cfg, env, fs, c) ==>
      e.Copy? && e.source in c && e == CopyOf(cfg, env, fs, e.source)
  {
    if cfg.mode == "copy" && c != [] {
      var pre := c[..|c| - 1];
      CopiesOfCollected(cfg, env, fs, pre);
      assert forall p :: p in pre ==> p in c;
    }
  }

  // ----- what one build writes -----

  /** In any mode other than "copy" the build writes nothing but the report:
      at most one write, to the report file. */
  lemma LogModeWritesOnlyReport(ids: seq<string>, cfg: Config, env: Env, fs: Snapshot)
    requires cfg.mode != "copy"
    ensures |BundleEffects(ids, cfg, env, fs)| <= 1
    ensures forall e :: e in BundleEffects(ids, cfg, env, fs) ==>
      e.WriteReport? && e.path == ReportFileName(cfg, env)
  {
    var c := Collected(ids, fs);
    CollectedSound(ids, fs);
    ReportEffectsCopyNothing(cfg, env, fs, c, "");
    assert Copies(cfg, env, fs, c) == [];
  }

  /** In copy mode every collected path is copied exactly once, whatever
      repetitions the ids contain, each copy writing the file's own text to
      its destination; nothing else is copied. */
  lemma CopyModeCopiesEachOnce(ids: seq<string>, cfg: Config, env: Env, fs: Snapshot)
    requires cfg.mode == "copy"
    ensures forall p :: CopiesFrom(BundleEffects(ids, cfg, env, fs), p)
                        == if p in Collected(ids, fs) then 1 else 0
    ensures forall e :: e in BundleEffects(ids, cfg, env, fs) && e.Copy? ==>
      e.source in Collected(ids, fs) && e.source in fs.files &&
      e.dest == Dest(cfg, env, e.source) && e.text == fs.files[e.source].text
  {
    var c := Collected(ids, fs);
    CollectedSound(ids, fs);
    CollectedDistinct(ids, fs);
    CopiesOfCollected(cfg, env, fs, c);
    var copies, report := Copies(cfg, env, fs, c), ReportEffects(cfg, env, fs, c);
    forall p
      ensures CopiesFrom(BundleEffects(ids, cfg, env, fs), p) == if p in c then 1 else 0
    {
      CopiesExactlyOnce(cfg, env, fs, c, p);
      CopiesFromConcat(copies, report, p);
      ReportEffectsCopyNothing(cfg, env, fs, c, p);
    }
    ReportEffectsCopyNothing(cfg, env, fs, c, "");
  }

  /** A `logType` other than "md", "csv" and "json" writes no report; a
      known one writes exactly one, last, to the report file. */
  lemma ReportWrittenIffKnownLogType(ids: seq<string>, cfg: Config, env: Env, fs: Snapshot)
    ensures var effects := BundleEffects(ids, cfg, env, fs);
      (cfg.logType in {"md", "csv", "json"} <==>
        effects != [] && effects[|effects| - 1].WriteReport?) &&
      (cfg.logType in {"md", "csv", "json"} ==>
        effects[|effects| - 1].path == ReportFileName(cfg, env))
  {
    var c := Collected(ids, fs);
    CollectedSound(ids, fs);
    CopiesOfCollected(cfg, env, fs, c);
  }

  /** The JSON report maps exactly the collected paths, each to its size in
      kilobytes; those are the ids that pass both filters and exist. */
  lemma JsonReportKeys(ids: seq<string>, cfg: Config, env: Env, fs: Snapshot)
    requires cfg.logType == "json"
    ensures var effects := BundleEffects(ids, cfg, env, fs);
      effects != [] && effects[|effects| - 1].WriteReport? &&
      effects[|effects| - 1].body.JsonBody? &&
      effects[|effects| - 1].body.record.Keys == set p | p in ids && Eligible(p, fs) &&
      forall p :: p in effects[|effects| - 1].body.record ==>
        p in fs.files && effects[|effects| - 1].body.record[p] == Kb(fs.files[p].size)
  {
    CollectedSound(ids, fs);
    CollectedComplete(ids, fs);
    var c := Collected(ids, fs);
    assert (set p | p in c) == set p | p in ids && Eligible(p, fs);
  }

  /** The Markdown and CSV reports hold their header and then one row per
      collected path, numbered 1..n in collection order, when no collected
      path contains a newline or the format's cell separator; skipped and
      missing ids may contain anything. */
  lemma TextReportRows(ids: seq<string>, cfg: Config, env: Env, fs: Snapshot, f: Format)
    requires cfg.logType == (match f case Markdown => "md" case Csv => "csv")
    requires forall p :: p in Collected(ids, fs) ==> Plain(f, p)
    ensures var effects := BundleEffects(ids, cfg, env, fs);
      effects != [] && effects[|effects| - 1].WriteReport? &&
      effects[|effects| - 1].body.TextBody? &&
      AllExist(Collected(ids, fs), fs) &&
      ParseReport(f, effects[|effects| - 1].body.text) == Some(ExpectedRows(Collected(ids, fs), fs))
  {
    CollectedSound(ids, fs);
    ReportRoundTrip(f, Collected(ids, fs), fs);
  }

  /** With no options given, a build copies nothing and writes the Markdown
      report to `build/README.md` under the resolved working directory. */
  lemma DefaultsWriteMarkdownOnly(ids: seq<string>, env: Env, fs: Snapshot)
    ensures var cfg := WithDefaults(UserOptions(None, None, None, None), env.cwd);
      AllExist(Collected(ids, fs), fs) &&
      BundleEffects(ids, cfg, env, fs)
        == [WriteReport(ReportFileName(cfg, env), TextBody(ReportText(Markdown, Collected(ids, fs), fs)))]
  {
    var cfg := WithDefaults(UserOptions(None, None, None, None), env.cwd);
    CollectedSound(ids, fs);
    assert Copies(cfg, env, fs, Collected(ids, fs)) == [];
  }

  /** The module ids, filesystem and options of the CSV scenario below. */
  const ScenarioIds := ["/p/a.ts", "/p/node_modules/x.ts", "/p/b.ts"]
  const ScenarioFs := Snapshot(map["/p/a.ts" := File(200, "a"), "/p/b.ts" := File(2048, "b"),
                                   "/p/node_modules/x.ts" := File(10, "x")])
  const ScenarioCfg := Config("out", "/p", "log", "csv")

  lemma ScenarioCollected()
    ensures Collected(ScenarioIds, ScenarioFs) == ["/p/a.ts", "/p/b.ts"]
  {
    var a, x, b := "/p/a.ts", "/p/node_modules/x.ts", "/p/b.ts";
    var ids, fs := ScenarioIds, ScenarioFs;
    assert OccursAt(x, NodeModules, 3);
    assert !Contains(a, Nul) by {
      forall i | 0 <= i < |a| ensures !OccursAt(a, Nul, i) { assert a[i..i + 1][0] == a[i]; }
    }
    assert !Contains(b, Nul) by {
      forall i | 0 <= i < |b| ensures !OccursAt(b, Nul, i) { assert b[i..i + 1][0] == b[i]; }
    }
    assert !Contains(a, NodeModules) && !Contains(b, NodeModules);
    assert a != b by { assert a[3] != b[3]; }
    assert ids[..2][..1] == [a] && ids[..2] == [a, x] && ids[..1][..0] == [];
    assert Collected([a], fs) == [a];
    assert Collected([a, x], fs) == [a];
  }

  lemma ScenarioRows()
    ensures RowLine(Csv, 1, "/p/a.ts", 200) == "1,/p/a.ts,0.20"
    ensures RowLine(Csv, 2, "/p/b.ts", 2048) == "2,/p/b.ts,2.00"
  {
    FormatKBSamples();
    assert Dec(1) == "1" && Dec(2) == "2";
  }

  /** A log-mode CSV build over two sources and one dependency: the
      dependency is skipped, nothing is copied, and the single report holds
      rows 1 and 2 for the two sources, sized 0.20 and 2.00 kilobytes. */
  lemma CsvScenario(env: Env)
    ensures AllExist(["/p/a.ts", "/p/b.ts"], ScenarioFs)
    ensures BundleEffects(ScenarioIds, ScenarioCfg, env, ScenarioFs) ==
      [WriteReport(ReportFileName(ScenarioCfg, env),
        TextBody(ReportText(Csv, ["/p/a.ts", "/p/b.ts"], ScenarioFs)))]
    ensures ExpectedRows(["/p/a.ts", "/p/b.ts"], ScenarioFs)
         == [Row(1, "/p/a.ts", 20), Row(2, "/p/b.ts", 200)]
  {
    ScenarioCollected();
    var c := ["/p/a.ts", "/p/b.ts"];
    assert c[..1] == ["/p/a.ts"];
  }

  /** The same build with `logType` "json": the record maps each source to
      its unrounded size in kilobytes (200 bytes give 0.1953125). */
  lemma JsonScenario(env: Env)
    ensures var cfg := Config("out", "/p", "log", "json");
      BundleEffects(ScenarioIds, cfg, env, ScenarioFs) ==
        [WriteReport(ReportFileName(cfg, env),
          JsonBody(map["/p/a.ts" := 0.1953125, "/p/b.ts" := 2.0]))]
  {
    ScenarioCollected();
    var c := ["/p/a.ts", "/p/b.ts"];
    var m := JsonRecord(c, ScenarioFs);
    assert m.Keys == {"/p/a.ts", "/p/b.ts"};
    assert m == map["/p/a.ts" := 0.1953125, "/p/b.ts" := 2.0];
  }
}
