# vite-plugin-resource-collector, modelled in Dafny

The plugin runs during a Vite production build. In its `generateBundle` hook it:

- walks the module ids the bundler reports;
- skips ids that contain `node_modules` or the NUL character of virtual modules;
- keeps, in an insertion-ordered set, every remaining id that exists on disk;
- in `copy` mode, copies each kept file under `outputDir` as it is added, at the path that `replace(baseDir, "")` gives;
- writes a report of the kept files: Markdown, CSV or JSON, chosen by `logType`.

The model has six modules:

- `Text`: the string operations the plugin relies on, with JavaScript's semantics:
  - `includes`;
  - `indexOf`;
  - `replace` with a string pattern, which removes only the leftmost occurrence;
  - `String(n)`;
  - the line and cell splitting used to read a report back.
- `Host`: what the plugin sees of its environment:
  - the filesystem as a snapshot from path to size and text;
  - `process.cwd`, `path.resolve` and `path.join` as parameters;
  - the writes it performs, recorded in order as effects.
- `Options`: the option defaults, the copy destination, and the report file name.
- `Collector`: the id loop, the `loopFile` closure and the `Set` it fills. The set is a class with a sequence field. `CollectModules` is a `while` loop proved against the specification function `Collected`.
- `Report`: the three writers, as loops proved against `ReportText` and `JsonRecord`. `ParseReport` reads a text report back, and round-trip lemmas connect it to the writers.
- `Bundle`: `generateBundle` as a method proved against `BundleEffects`, with lemmas on what one build writes.

`(size / 1024).toFixed(2)` is modelled exactly, with integers:

- `size / 1024` is exact in binary floating point;
- `toFixed` rounds the exact value to the nearest hundredth, taking the larger one on a tie;
- so the printed number of hundredths is `(100 * size + 512) div 1024`.

The JSON report records the unrounded quotient as a `real`.

Three behaviours of the code are worth stating outright:

- **JSON sizes are not rounded.** The JSON writer stores `stats.size / 1024` as it is, so 200 bytes give 0.1953125 (`Bundle.JsonScenario`). Only the Markdown and CSV writers print two decimals.
- **A missing file fails the writer.** The writers call `statSync` with no existence check, and `statSync` throws for a missing path. Each writer therefore returns `StatError` with the first missing path (`Report.FirstMissing`); it does not skip the path.
- **The report name is cut like a copy destination.** The name `"<outputDir>/README.<logType>"` has its first occurrence of the unresolved `baseDir` removed, just as copied paths do. With no options and working directory `/`, the first slash goes, and the report is named `buildREADME.md` (`Options.RootCwdCutsReportName`).

## Model

| member | source | states |
|---|---|---|
| Text.RemoveFirst | src/index.ts:54 | `replace(pat, "")` leaves the text unchanged when `pat` does not occur; otherwise it cuts out exactly the leftmost occurrence |
| Text.RemoveFirstOfPrefix | src/index.ts:54 | when `baseDir` is a prefix of the path, the replacement strips exactly that prefix |
| Text.RemoveFirstLength | src/index.ts:54 | only one occurrence is removed: the result is `|pat|` shorter if `pat` occurs, otherwise unchanged in length |
| Text.IndexOf | src/index.ts:54 | -1 exactly when the pattern does not occur; otherwise the leftmost index at which it occurs |
| Text.Dec | src/index.ts:126 | the row index is written as a non-empty run of decimal digits |
| Text.DecNoLeadingZero | src/index.ts:126 | the index numeral has no leading zero: its first digit is 0 only for 0, as `${index}` prints |
| Text.ParseNatOfDec | src/index.ts:126 | the decimal numeral of an index reads back as that index |
| Text.SplitUnlines | src/index.ts:118-127 | newline-terminated lines without newlines split back into those lines, followed by one empty text |
| Options.WithDefaults | src/index.ts:17 | each missing option takes its default: `outputDir` "build", `baseDir` the working directory, `mode` "log", `logType` "md"; a given option is kept |
| Options.Dest | src/index.ts:54 | a copy goes to `join(outputDir, filePath)`, with the leftmost occurrence of `baseDir` cut out, or to the whole path when there is none |
| Options.DestUnderBase | src/index.ts:54 | a file under `baseDir` keeps its path relative to `baseDir` |
| Options.DestCutsInnerOccurrence | src/index.ts:54 | `baseDir` is cut where it first occurs even when it is not a prefix: base `/app` sends `/lib/app/x.ts` to `join(out, "/lib/x.ts")` |
| Options.ReportFileName | src/index.ts:43-48 | the report goes to `join(resolve(baseDir), "<outputDir>/README.<logType>")` when that name does not contain `baseDir` |
| Collector.PathSet.constructor | src/index.ts:50 | a new set is valid and empty |
| Collector.PathSet.Add | src/index.ts:61 | `add` appends a path that is absent and leaves the set unchanged otherwise; it stays duplicate-free |
| Collector.LoopFile | src/index.ts:52-63 | a path that is not yet collected and exists is added at the end, and copied to its destination with its own text in copy mode; any other path changes nothing |
| Collector.CollectModules | src/index.ts:65-76 | after the loop the set holds exactly `Collected(ids)`, every element exists, and the copies are one per collected path in order (none outside copy mode) |
| Collector.FirstIndex | src/index.ts:66 | the position at which an id is first reported: it holds the id, and no earlier position does |
| Collector.CollectedSound | src/index.ts:66-76 | every collected path is a reported id, contains neither `node_modules` nor NUL, and exists |
| Collector.CollectedComplete | src/index.ts:66-76 | every reported id that passes both filters and exists is collected |
| Collector.CollectedDistinct | src/index.ts:50-63 | no path is collected twice, however often it is reported |
| Collector.CollectedInFirstSeenOrder | src/index.ts:50-76 | collected paths keep the order in which their ids are first reported |
| Report.Hundredths | src/index.ts:125-126 | the printed size is the nearest hundredth of a kilobyte: within half a hundredth of `size / 1024`, ties rounded up |
| Report.ParseFixed2OfFixed2 | src/index.ts:126 | a size printed with two decimals reads back as the same number of hundredths |
| Report.FormatKBSamples | src/index.ts:125-126 | 200 bytes print as "0.20", 2048 as "2.00", and the tie 128 as "0.13" |
| Report.RowsAt | src/index.ts:122-127 | there is one data line per path, and line k carries index k+1, the k-th path and its size |
| Report.ReportTextAppend | src/index.ts:126 | each loop turn appends exactly one newline-terminated row to the text so far |
| Report.MarkdownHeaderText | src/index.ts:118-120 | with no paths, the Markdown report is the title, a blank line, the column line and the rule line |
| Report.CsvHeaderText | src/index.ts:140-141 | with no paths, the CSV report is the column line and the rule line |
| Report.GenerateMarkdownFile | src/index.ts:110-130 | when every path exists the content is `ReportText(Markdown, paths)`; otherwise the writer fails at the first missing path |
| Report.GenerateCsvFile | src/index.ts:132-151 | when every path exists the content is `ReportText(Csv, paths)`; otherwise the writer fails at the first missing path |
| Report.JsonRecord | src/index.ts:161-167 | the record's keys are exactly the collected paths, each mapped to its size divided by 1024 |
| Report.GenerateJsonFile | src/index.ts:153-170 | when every path exists the content is `JsonRecord(paths)`; otherwise the writer fails at the first missing path |
| Report.ExpectedRows | src/index.ts:122-127 | the rows a report should hold number exactly as many as the paths |
| Report.ExpectedRowsAt | src/index.ts:122-127 | expected row k is index k+1, the k-th path, and its size in hundredths |
| Report.RowLineLacksNewline | src/index.ts:126 | a data line of a path without newline or separator holds no newline |
| Report.CsvCells | src/index.ts:147 | a CSV line of a comma-free path splits into exactly index, path and size |
| Report.MarkdownCells | src/index.ts:126 | a Markdown line of a bar-free path splits into five cells: empty, index, path and size (each padded with spaces), and empty |
| Report.ParseRowOfRowLine | src/index.ts:126 | a data line reads back as its index, path and rounded size, in both layouts |
| Report.HeaderLinesLackNewline | src/index.ts:118-120 | no header line of either layout contains a newline |
| Report.ReportLines | src/index.ts:118-127 | a report splits into its header lines, one line per path, and nothing after the last newline |
| Report.RowsParse | src/index.ts:122-127 | the data lines parse back as exactly the expected rows |
| Report.ReportRoundTrip | src/index.ts:118-148 | a Markdown or CSV report parses back to one row per collected path, numbered 1..n in set order, each with its rounded size |
| Report.CsvCommaBreaksRow | src/index.ts:147 | the CSV writer does not quote: a path with a comma gives a row that no longer parses |
| Bundle.GenerateBundle | src/index.ts:42-107 | the writes of one call are exactly `BundleEffects`: the copies made while collecting, then the report that `logType` selects |
| Bundle.ReportEffectsCopyNothing | src/index.ts:80-102 | the report step performs at most one write, to the report file, and copies nothing |
| Bundle.CopiesExactlyOnce | src/index.ts:52-63 | in copy mode, distinct collected paths are each read for a copy exactly once |
| Bundle.CopiesOfCollected | src/index.ts:54-61 | every copy reads a collected path and writes its text to that path's destination |
| Bundle.LogModeWritesOnlyReport | src/index.ts:56-60 | outside copy mode a build copies nothing, and its only write is the report |
| Bundle.CopyModeCopiesEachOnce | src/index.ts:52-76 | in copy mode each collected path is copied exactly once and no other path is copied; each copy writes the file's own text to `Dest` |
| Bundle.ReportWrittenIffKnownLogType | src/index.ts:80-102 | the build ends with a report write if and only if `logType` is "md", "csv" or "json"; that write goes to the report file |
| Bundle.JsonReportKeys | src/index.ts:153-170 | the JSON report's keys are exactly the reported ids that pass both filters and exist, each mapped to its size in kilobytes |
| Bundle.TextReportRows | src/index.ts:80-94 | the Markdown or CSV report written by a build reads back as one row per collected path, in collection order, whenever the collected paths (not the skipped or missing ids) carry no newline or cell separator |
| Bundle.DefaultsWriteMarkdownOnly | src/index.ts:17 | with no options a build copies nothing and writes only the Markdown report, to `ReportFileName` of the defaults |
| Options.DefaultReportFileName | src/index.ts:17 | with no options the report is `build/README.md` under the resolved working directory, provided the working directory does not occur in that name |
| Options.RootCwdCutsReportName | src/index.ts:45-48 | with no options and working directory `/`, the report is named `buildREADME.md` under `resolve("/")`, because the first slash is cut |
| Bundle.ScenarioCollected | src/index.ts:66-76 | of `a.ts`, a `node_modules` file and `b.ts`, only `a.ts` and `b.ts` are collected, in that order |
| Bundle.ScenarioRows | src/index.ts:147 | the CSV rows of that scenario read "1,/p/a.ts,0.20" and "2,/p/b.ts,2.00" |
| Bundle.CsvScenario | src/index.ts:42-151 | the log-mode CSV build of that scenario copies nothing and writes one report holding rows 1 and 2, sized 20 and 200 hundredths |
| Bundle.JsonScenario | src/index.ts:153-170 | the JSON build of that scenario records 0.1953125 and 2.0 kilobytes |

## Left out

- The `config`, `buildStart` and `transform` hooks (src/index.ts:26-40) are left out. They only configure logging, create the output directory and register watch files; none of that affects what is collected or written.
- Logging, the `cyan` helper and the logger prefix are left out, because they only produce console output.
- `path.resolve`, `path.join` and `process.cwd` are parameters (`Host.Env`) with no properties assumed. Path normalisation is not modelled.
- `fs.mkdirSync` for the output directory, for a copy's parent directory and for the report's directory is not modelled. Directories are not part of the snapshot. These calls throw on permission or disk errors, and also with EEXIST or ENOTDIR when the path or one of its ancestors is a regular file, for example a copy destination under `outputDir/src` when `outputDir/src` is a file (src/index.ts:58, 79). Such a throw aborts `generateBundle` partway, and the model always produces every copy and the report.
- The filesystem is a fixed snapshot during one `generateBundle` call. Concurrent changes to it are not modelled.
- The plugin's own copies are not fed back into the snapshot. A copy whose destination equals an id handled later changes what `existsSync`, `readFileSync` and `statSync` return for that id in the source. The later copy and that id's report row then carry the overwritten text and size. The model reads every file's text and size from the snapshot taken before the call.
- Failures of `readFileSync` and `writeFileSync` are not modelled. In the source they throw and abort `generateBundle` partway, with no later copies and no report. The model always produces every copy and the report.
- Directories are not modelled. `existsSync` is also true for a directory, so the source collects a directory id. In log mode, the default, `statSync` succeeds on it, and the Markdown, CSV or JSON report lists it with the directory's stat size (src/index.ts:124-126, 145-147, 164-166). In copy mode `readFileSync` throws on it (src/index.ts:57) and aborts the build. The snapshot holds only regular files, so the model skips such an id as missing.
- Bundle.GenerateBundle: takes the writers' `Ok` value, because in a fixed snapshot every collected path still exists at report time. A file deleted between collection and the report (where `statSync` throws) is captured only by the writers' `StatError` result.
- The UTF-8 decoding done by `readFileSync(p, "utf-8")` is not modelled. A file's text is given directly.
- The JSON text that `JSON.stringify(content, null, 2)` produces is not modelled: number formatting, indentation, key order, and the special `__proto__` key. The report is modelled as the record it serialises.
- `toFixed` switches to exponent notation for values of 10^21 and above. `Report.FormatKB` covers only smaller sizes, which no file reaches.
- Options.ReportFileName: its contract states the file name only when `"<outputDir>/README.<logType>"` does not contain `baseDir`. In the other case the name follows `Text.RemoveFirst`'s contract.
- Report.ReportRoundTrip: requires that no collected path contains a newline or the layout's cell separator. The writers do not escape, and `Report.CsvCommaBreaksRow` shows a row that does not read back.
- Bundle.TextReportRows: carries the same restriction on the collected paths, for the same reason. Ids that are skipped or missing may contain anything.
- The `mode` and `logType` options are plain strings. The TypeScript types restrict them, but nothing checks them when the build runs. An unknown `logType` writes no report, as the `switch` without a default does.
- The build configuration file (rollup.config.js) is not part of this model.
