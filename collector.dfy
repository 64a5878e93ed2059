/** The module-id collector of `generateBundle`: the loop over the ids the
    bundler reports, the `loopFile` closure, and the insertion-ordered set
    of paths they fill. In copy mode each newly collected path is copied
    under the output directory at the moment it is added. */
module Collector {
  import opened Text
  import opened Host
  import opened Options

  const NodeModules := "node_modules"
  /** The NUL character Rollup puts in the ids of virtual modules. */
  const Nul := "\0"

  /** The loop's two `continue` filters. */
  predicate Skipped(id: string)
  {
    Contains(id, NodeModules) || Contains(id, Nul)
  }

  /** The guard of `loopFile`: not yet collected and present on disk. */
  predicate Admitted(collected: seq<string>, filePath: string, fs: Snapshot)
  {
    filePath !in collected && filePath in fs.files
  }

  /** An id that passes every test when it is first seen. */
  predicate Eligible(id: string, fs: Snapshot)
  {
    !Skipped(id) && id in fs.files
  }

  predicate Distinct(s: seq<string>)
  {
    forall i, j :: 0 <= i < j < |s| ==> s[i] != s[j]
  }

  /** The paths collected from `ids`, in the order the loop adds them. */
  function Collected(ids: seq<string>, fs: Snapshot): seq<string>
  {
    if ids == [] then []
    else
      var prev := Collected(ids[..|ids| - 1], fs);
      var id := ids[|ids| - 1];
      if !Skipped(id) && Admitted(prev, id, fs) then prev + [id] else prev
  }

  /** The copy `loopFile` performs for a newly collected path. */
  function CopyOf(cfg: Config, env: Env, fs: Snapshot, p: string): Effect
    requires p in fs.files
  {
    Copy(p, Dest(cfg, env, p), fs.files[p].text)
  }

  /** The copies made while collecting `ps`, in order: one per path in copy
      mode, none otherwise. */
  function Copies(cfg: Config, env: Env, fs: Snapshot, ps: seq<string>): seq<Effect>
    requires AllExist(ps, fs)
  {
    if cfg.mode != "copy" || ps == [] then []
    else Copies(cfg, env, fs, ps[..|ps| - 1]) + [CopyOf(cfg, env, fs, ps[|ps| - 1])]
  }

  /** The index of the first occurrence of `x` in `s`. */
  function FirstIndex(s: seq<string>, x: string): (i: nat)
    requires x in s
    ensures i < |s| && s[i] == x && x !in s[..i]
  {
    if s[0] == x then 0
    else
      assert x in s[1..];
      var i := 1 + FirstIndex(s[1..], x);
      assert s[..i] == [s[0]] + s[1..][..i - 1];
      i
  }

  /** The elements of `r` occur in `ids`, ordered by their first occurrence. */
  predicate InFirstSeenOrder(r: seq<string>, ids: seq<string>)
  {
    forall i, j :: 0 <= i < j < |r| ==>
      r[i] in ids && r[j] in ids && FirstIndex(ids, r[i]) < FirstIndex(ids, r[j])
  }

  lemma FirstIndexOfPrefix(s: seq<string>, m: nat, x: string)
    requires m <= |s| && x in s[..m]
    ensures x in s && FirstIndex(s, x) == FirstIndex(s[..m], x) < m
  {
    var k := FirstIndex(s[..m], x);
    assert s[..m][k] == s[k];
  }

  // ----- what the collection guarantees -----

  /** Soundness: every collected path is one of the ids, contains neither
      "node_modules" nor NUL, and exists on disk. */
  lemma {:induction false} CollectedSound(ids: seq<string>, fs: Snapshot)
    ensures forall p :: p in Collected(ids, fs) ==>
      p in ids && !Contains(p, NodeModules) && !Contains(p, Nul) && p in fs.files
  {
    if ids != [] {
      var pre := ids[..|ids| - 1];
      CollectedSound(pre, fs);
      assert forall p :: p in pre ==> p in ids;
    }
  }

  /** Completeness: every id that passes the filters and exists is collected. */
  lemma {:induction false} CollectedComplete(ids: seq<string>, fs: Snapshot)
    ensures forall p :: p in ids && Eligible(p, fs) ==> p in Collected(ids, fs)
  {
    if ids != [] {
      var pre := ids[..|ids| - 1];
      CollectedComplete(pre, fs);
      assert ids == pre + [ids[|ids| - 1]];
    }
  }

  /** No path is collected twice, however often its id is reported. */
  lemma {:induction false} CollectedDistinct(ids: seq<string>, fs: Snapshot)
    ensures Distinct(Collected(ids, fs))
  {
    if ids != [] {
      CollectedDistinct(ids[..|ids| - 1], fs);
    }
  }

  /** Order: collected paths appear in the order of their first occurrence
      among the ids. */
  lemma {:induction false} CollectedInFirstSeenOrder(ids: seq<string>, fs: Snapshot)
    ensures InFirstSeenOrder(Collected(ids, fs), ids)
  {
    CollectedSound(ids, fs);
    if ids != [] {
      var n := |ids|;
      var pre, id := ids[..n - 1], ids[n - 1];
      var prev, r := Collected(pre, fs), Collected(ids, fs);
      CollectedInFirstSeenOrder(pre, fs);
      CollectedSound(pre, fs);
      forall i, j | 0 <= i < j < |r|
        ensures r[i] in ids && r[j] in ids && FirstIndex(ids, r[i]) < FirstIndex(ids, r[j])
      {
        FirstIndexOfPrefix(ids, n - 1, r[i]);
        if j < |prev| {
          FirstIndexOfPrefix(ids, n - 1, r[j]);
        } else {
          // r[j] is the id just added; it cannot have occurred earlier,
          // since an earlier eligible occurrence would already be collected
          CollectedComplete(pre, fs);
          assert id !in pre;
          assert FirstIndex(ids, id) == n - 1 by {
            assert ids[..n - 1] == pre;
          }
        }
      }
    }
  }

  // ----- the imperative collector -----

  /** The JavaScript `Set<string>` that `generateBundle` fills: distinct
      strings in insertion order. */
  class PathSet {
    var elems: seq<string>

    ghost predicate Valid()
      reads this
    {
      Distinct(elems)
    }

    constructor ()
      ensures Valid() && elems == []
    {
      elems := [];
    }

    /** `set.has(p)` */
    predicate Has(p: string)
      reads this
    {
      p in elems
    }

    /** `set.add(p)`: appends `p` unless it is already present. */
    method Add(p: string)
      requires Valid()
      modifies this
      ensures Valid()
      ensures elems == if p in old(elems) then old(elems) else old(elems) + [p]
    {
      if p !in elems {
        elems := elems + [p];
      }
    }
  }

  /** The `loopFile` closure: a path not yet collected that exists is copied
      (in copy mode) and added to the set. */
  method LoopFile(preserved: PathSet, filePath: string, cfg: Config, env: Env, fs: Snapshot)
    returns (copies: seq<Effect>)
    requires preserved.Valid()
    modifies preserved
    ensures preserved.Valid()
    ensures Admitted(old(preserved.elems), filePath, fs) ==>
      preserved.elems == old(preserved.elems) + [filePath] &&
      copies == if cfg.mode == "copy" then [CopyOf(cfg, env, fs, filePath)] else []
    ensures !Admitted(old(preserved.elems), filePath, fs) ==>
      preserved.elems == old(preserved.elems) && copies == []
  {
    copies := [];
    if !preserved.Has(filePath) && filePath in fs.files {
      var destPath := Dest(cfg, env, filePath);
      if cfg.mode == "copy" {
        var content := fs.files[filePath].text;
        copies := [Copy(filePath, destPath, content)];
      }
      preserved.Add(filePath);
    }
  }

  /** The `for` loop over `getModuleIds()`: returns the filled set and the
      copies made along the way. */
  method CollectModules(ids: seq<string>, cfg: Config, env: Env, fs: Snapshot)
    returns (preserved: PathSet, copies: seq<Effect>)
    ensures fresh(preserved) && preserved.Valid()
    ensures preserved.elems == Collected(ids, fs)
    ensures AllExist(preserved.elems, fs)
    ensures copies == Copies(cfg, env, fs, preserved.elems)
  {
    preserved := new PathSet();
    copies := [];
    var i := 0;
    while i < |ids|
      invariant 0 <= i <= |ids|
      invariant preserved.Valid()
      invariant preserved.elems == Collected(ids[..i], fs)
      invariant AllExist(preserved.elems, fs)
      invariant copies == Copies(cfg, env, fs, preserved.elems)
    {
      var id := ids[i];
      assert ids[..i + 1][..i] == ids[..i];
      if Contains(id, NodeModules) {
        i := i + 1;
        continue;
      }
      if Contains(id, Nul) {
        i := i + 1;
        continue;
      }
      ghost var before := preserved.elems;
      var c := LoopFile(preserved, id, cfg, env, fs);
      if Admitted(before, id, fs) {
        assert (before + [id])[..|before|] == before;
      }
      copies := copies + c;
      i := i + 1;
    }
    assert ids[..i] == ids;
  }
}
