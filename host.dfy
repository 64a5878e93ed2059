/** What the plugin sees of its host: a snapshot of the filesystem, the
    path library and process state it calls into, and the filesystem
    writes it performs, recorded in order. */
module Host {

  /** A regular file: its size in bytes (`statSync(p).size`) and its text as
      `readFileSync(p, "utf-8")` returns it. */
  datatype File = File(size: nat, text: string)

  /** The filesystem during one `generateBundle` call. `existsSync(p)` holds
      exactly for the keys of `files`. */
  datatype Snapshot = Snapshot(files: map<string, File>)

  /** `process.cwd()`, `path.resolve` and `path.join`. */
  datatype Env = Env(cwd: string, resolve: string -> string, join: (string, string) -> string)

  /** The content handed to `writeFileSync` for the report: a text, or the
      key-to-number record that `JSON.stringify` serialises. */
  datatype ReportBody = TextBody(text: string) | JsonBody(record: map<string, real>)

  /** A filesystem write. `Copy` is one read of `source` followed by a write
      of the same text to `dest` (after creating its parent directory). */
  datatype Effect =
    | Copy(source: string, dest: string, text: string)
    | WriteReport(path: string, body: ReportBody)

  /** Every path in `ps` exists in the snapshot. */
  predicate AllExist(ps: seq<string>, fs: Snapshot)
  {
    forall p :: p in ps ==> p in fs.files
  }
}
