/**
  `publishPair` of scripts/catalog/product-translation-catalog.ts: two files that appear together or
  not at all, through temporary files, two renames and a roll-back.
*/
module PublishPair {

  type Path = string

  type Files = map<Path, string>

  /** The two outputs, the temporary files beside them, and what is to be written. */
  datatype Pair = Pair(first: Path, second: Path, firstTemporary: Path, secondTemporary: Path,
                       firstBytes: string, secondBytes: string)

  /**
    What fails in one run. `unseen` are the existing files that the existence probe does not see: it
    takes every error of `access` for absence. `late` is what unfinished writes leave behind after the
    clean-up of a run that failed while writing.
  */
  datatype Faults = Faults(
    makeDirectories: bool, writeFirst: bool, writeSecond: bool, renameFirst: bool, renameSecond: bool, late: Files)

  datatype Outcome = Done | Failed

  /** The temporary names are fresh; they coincide exactly when the outputs do. */
  ghost predicate FreshNames(fs: Files, p: Pair) {
    && p.firstTemporary !in fs && p.secondTemporary !in fs
    && {p.firstTemporary, p.secondTemporary} !! {p.first, p.second}
    && (p.firstTemporary == p.secondTemporary <==> p.first == p.second)
  }

  predicate Seen(fs: Files, path: Path, unseen: set<Path>) {
    path in fs && path !in unseen
  }

  /** Only temporary files can be left by late writes. */
  ghost predicate LateIsTemporary(p: Pair, f: Faults) {
    f.late.Keys <= {p.firstTemporary, p.secondTemporary}
  }

  /** Writing both temporary files and renaming one: taken back, or completed by the other. */
  lemma AfterRename(before: Files, p: Pair)
    requires FreshNames(before, p) && p.firstTemporary != p.secondTemporary
    ensures var temporaries := {p.firstTemporary, p.secondTemporary};
            var written := before[p.firstTemporary := p.firstBytes][p.secondTemporary := p.secondBytes];
            var renamed := written[p.first := p.firstBytes] - {p.firstTemporary};
            && written - temporaries == before - temporaries
            && renamed - (temporaries + {p.first}) == before - (temporaries + {p.first})
            && renamed[p.second := p.secondBytes] - {p.secondTemporary}
               == before[p.first := p.firstBytes][p.second := p.secondBytes] - temporaries
  {
  }

  class Directory {
    var fs: Files

    constructor (fs: Files)
      ensures this.fs == fs
    {
      this.fs := fs;
    }

    /** `wx`: creates a file, and fails if there already is one. */
    method WriteNew(path: Path, bytes: string, fails: bool) returns (ok: bool)
      modifies this
      ensures ok <==> !fails && path !in old(fs)
      ensures fs == if ok then old(fs)[path := bytes] else old(fs)
    {
      if fails || path in fs {
        return false;
      }
      fs := fs[path := bytes];
      return true;
    }

    method Rename(from: Path, to: Path, fails: bool) returns (ok: bool)
      modifies this
      requires from in fs
      ensures ok <==> !fails
      ensures fs == if ok then old(fs)[to := old(fs)[from]] - {from} else old(fs)
    {
      if fails {
        return false;
      }
      fs := fs[to := fs[from]] - {from};
      return true;
    }

    /** The clean-up of the `catch` block. */
    method RollBack(p: Pair, firstPublished: bool)
      modifies this
      ensures !firstPublished ==> fs == old(fs) - {p.firstTemporary, p.secondTemporary}
      ensures firstPublished ==> fs == old(fs) - ({p.firstTemporary, p.secondTemporary} + {p.first})
    {
      fs := fs - {p.firstTemporary};
      fs := fs - {p.secondTemporary};
      if firstPublished {
        fs := fs - {p.first};
      }
    }

    /** The run: probes, two temporary files, two renames, and the roll-back of whatever failed. */
    method PublishPair(p: Pair, unseen: set<Path>, f: Faults) returns (outcome: Outcome)
      requires FreshNames(fs, p)
      modifies this
      ensures (fs, outcome) == Publish(old(fs), p, unseen, f)
    {
      ghost var before := fs;
      if f.makeDirectories || Seen(fs, p.first, unseen) || Seen(fs, p.second, unseen) {
        RollBack(p, false);
        return Failed;
      }
      ghost var temporaries := {p.firstTemporary, p.secondTemporary};
      var firstWritten := WriteNew(p.firstTemporary, p.firstBytes, f.writeFirst);
      var secondWritten := WriteNew(p.secondTemporary, p.secondBytes, f.writeSecond);
      assert fs - temporaries == before - temporaries;
      if !firstWritten || !secondWritten {
        RollBack(p, false);
        fs := fs + f.late;
        return Failed;
      }
      AfterRename(before, p);
      var firstPublished := Rename(p.firstTemporary, p.first, f.renameFirst);
      if !firstPublished {
        RollBack(p, false);
        return Failed;
      }
      var secondPublished := Rename(p.secondTemporary, p.second, f.renameSecond);
      if !secondPublished {
        RollBack(p, true);
        return Failed;
      }
      return Done;
    }
  }

  /** The files after a run, and whether it succeeded. */
  function Publish(fs: Files, p: Pair, unseen: set<Path>, f: Faults): (Files, Outcome) {
    var temporaries := {p.firstTemporary, p.secondTemporary};
    if f.makeDirectories || Seen(fs, p.first, unseen) || Seen(fs, p.second, unseen) then (fs - temporaries, Failed)
    else if f.writeFirst || f.writeSecond || p.firstTemporary == p.secondTemporary then (fs - temporaries + f.late, Failed)
    else if f.renameFirst then (fs - temporaries, Failed)
    else if f.renameSecond then (fs - (temporaries + {p.first}), Failed)
    else (fs[p.first := p.firstBytes][p.second := p.secondBytes] - temporaries, Done)
  }

  /** Apart from temporary files, nothing is different. */
  ghost predicate SameButTemporaries(p: Pair, before: Files, after: Files) {
    forall path :: path != p.firstTemporary && path != p.secondTemporary ==>
      (path in before <==> path in after) && (path in before ==> before[path] == after[path])
  }

  /** Both outputs are there, with their new contents, and nothing else is different. */
  ghost predicate BothPublished(p: Pair, before: Files, after: Files) {
    after == before[p.first := p.firstBytes][p.second := p.secondBytes] && p.first != p.second
  }

  /**
    Both or neither: when neither output exists before, a run that succeeds publishes both, a run that
    fails publishes neither, and no other file is touched. Two equal output paths always fail.
  */
  lemma BothOrNeither(fs: Files, p: Pair, unseen: set<Path>, f: Faults)
    requires FreshNames(fs, p) && LateIsTemporary(p, f)
    requires p.first !in fs && p.second !in fs
    ensures var (after, outcome) := Publish(fs, p, unseen, f);
            && (outcome == Done ==> BothPublished(p, fs, after))
            && (outcome == Failed ==> SameButTemporaries(p, fs, after))
            && (p.first == p.second ==> outcome == Failed)
  {
  }

  /** No run, whatever fails in it, changes a file that was there before. */
  ghost predicate ExistingFilesKept(fs: Files, p: Pair, unseen: set<Path>) {
    forall f :: LateIsTemporary(p, f) ==>
      forall path :: path in fs ==>
        path in Publish(fs, p, unseen, f).0 && Publish(fs, p, unseen, f).0[path] == fs[path]
  }

  /** The probe lets a run through although an output exists whose content the run can change. */
  predicate Overlooked(fs: Files, p: Pair, unseen: set<Path>) {
    && p.first != p.second
    && !Seen(fs, p.first, unseen) && !Seen(fs, p.second, unseen)
    && (p.first in fs || (p.second in fs && fs[p.second] != p.secondBytes))
  }

  /**
    A file that was there before is safe from every run exactly when the probe does not overlook an
    existing output. The probe takes every error for absence, so this is a condition and not a given.
    An overlooked first output is lost even when it is to be written again: the roll-back removes it.
  */
  lemma ExistingFilesKeptIff(fs: Files, p: Pair, unseen: set<Path>)
    requires FreshNames(fs, p)
    ensures ExistingFilesKept(fs, p, unseen) <==> !Overlooked(fs, p, unseen)
  {
    if Overlooked(fs, p, unseen) {
      var f := Faults(false, false, false, false, p.first in fs, map[]);
      var path := if p.first in fs then p.first else p.second;
      assert LateIsTemporary(p, f);
      var after := Publish(fs, p, unseen, f).0;
      assert path !in after || after[path] != fs[path];
    }
  }

  const OLD_OUTPUT := map["a" := "old"]

  const TWO_OUTPUTS := Pair("a", "b", ".a", ".b", "new", "other")

  const SECOND_RENAME_FAILS := Faults(false, false, false, false, true, map[])

  /**
    An input that shows it: the first output is there and the probe fails to see it. The second rename
    fails, the roll-back takes the first output away, and the file that was there is gone.
  */
  lemma OverlookedOutputIsLost()
    ensures FreshNames(OLD_OUTPUT, TWO_OUTPUTS) && LateIsTemporary(TWO_OUTPUTS, SECOND_RENAME_FAILS)
    ensures Publish(OLD_OUTPUT, TWO_OUTPUTS, {"a"}, SECOND_RENAME_FAILS) == (map[], Failed)
    ensures Overlooked(OLD_OUTPUT, TWO_OUTPUTS, {"a"}) && !ExistingFilesKept(OLD_OUTPUT, TWO_OUTPUTS, {"a"})
  {
    assert "a"[0] != "b"[0] && ".a"[1] != ".b"[1];
    assert |"a"| == |"b"| == 1 && |".a"| == |".b"| == 2;
    ExistingFilesKeptIff(OLD_OUTPUT, TWO_OUTPUTS, {"a"});
  }

  /** Where the probe sees what exists, an existing output makes every run fail and stays as it is. */
  lemma ExistingOutputRefused(fs: Files, p: Pair, f: Faults)
    requires FreshNames(fs, p) && LateIsTemporary(p, f)
    requires p.first in fs || p.second in fs
    ensures var (after, outcome) := Publish(fs, p, {}, f);
            outcome == Failed && after == fs
  {
  }

  /** A run is done exactly when nothing fails, the probe sees neither output, and there are two of them. */
  lemma DoneIff(fs: Files, p: Pair, unseen: set<Path>, f: Faults)
    requires FreshNames(fs, p)
    ensures Publish(fs, p, unseen, f).1 == Done
            <==> && !f.makeDirectories && !f.writeFirst && !f.writeSecond && !f.renameFirst && !f.renameSecond
                 && p.first != p.second
                 && (p.first in fs ==> p.first in unseen) && (p.second in fs ==> p.second in unseen)
  {
  }

  /** A run that fails while writing leaves what was there and what is written late, and nothing else. */
  lemma FailedWriteLeaves(fs: Files, p: Pair, unseen: set<Path>, f: Faults, path: Path)
    requires FreshNames(fs, p) && LateIsTemporary(p, f)
    requires !f.makeDirectories && !Seen(fs, p.first, unseen) && !Seen(fs, p.second, unseen)
    requires f.writeFirst || f.writeSecond || p.first == p.second
    ensures var (after, outcome) := Publish(fs, p, unseen, f);
            && outcome == Failed
            && (path in after <==> path in fs || path in f.late)
            && (path in fs ==> after[path] == fs[path])
            && (path in f.late ==> after[path] == f.late[path])
  {
  }
}
