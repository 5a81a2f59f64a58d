/** merge_csv.py: appends CSV files to a destination file, keeping only the
    header of the first one. Files are modelled as a map from path to the
    rows the csv module reads and writes. */
module MergeCsv {
  import opened Util

  type Row = seq<string>

  /** The module-level `title` flag and the files on disk. */
  datatype State = State(title: int, files: map<string, seq<Row>>)

  /** One call of `mergeCsv`: the new state, and whether it returned
      normally (false: it raised). */
  datatype Outcome = Outcome(state: State, ok: bool)

  /** A run of `main`: the final state and, when a call raised, the index
      of its target among the targets. */
  datatype RunResult = RunResult(state: State, failedAt: Option<nat>)

  /** `mergeCsv(dest, target)` (merge_csv.py:5-20). Opening `dest` for
      appending creates it; a missing `target` raises IOError; once `title`
      is set, the first row of `target` is skipped, and an empty `target`
      then raises StopIteration; otherwise `title` is set and nothing is
      skipped. The remaining rows are appended to `dest`. A target equal to
      `dest` is read as it was when the call began. */
  function Merge(s: State, dest: string, target: string): Outcome {
    var files := s.files[dest := Get(s.files, dest, [])];
    if target !in files then Outcome(State(s.title, files), false)
    else
      var rows := files[target];
      if s.title > 0 then
        if rows == [] then Outcome(State(s.title, files), false)
        else Outcome(State(s.title, files[dest := files[dest] + rows[1..]]), true)
      else Outcome(State(s.title + 1, files[dest := files[dest] + rows]), true)
  }

  /** The loop of `main` (merge_csv.py:32-33): the targets in order, the
      first exception ending the program. */
  function MergeAll(s: State, dest: string, targets: seq<string>): RunResult
    decreases |targets|
  {
    if targets == [] then RunResult(s, None)
    else
      var before := MergeAll(s, dest, targets[..|targets| - 1]);
      if before.failedAt.Some? then before
      else
        var o := Merge(before.state, dest, targets[|targets| - 1]);
        RunResult(o.state, if o.ok then None else Some(|targets| - 1))
  }

  /** The targets `main` merges: every argument but the last; none when
      there are fewer than two arguments (merge_csv.py:24-33). */
  function Targets(argv: seq<string>): (r: seq<string>)
    requires |argv| >= 1
    ensures |argv| <= 2 ==> r == []
    ensures |argv| > 2 ==> |r| == |argv| - 2 && forall i :: 0 <= i < |r| ==> r[i] == argv[i + 1]
  {
    if |argv| <= 2 then [] else argv[1..|argv| - 1]
  }

  /** The rows the destination gains from files `cs` merged in order
      starting with `title` unset: all of the first, then every later one
      without its header row. */
  function Combined(cs: seq<seq<Row>>): seq<Row>
    decreases |cs|
  {
    if |cs| <= 1 then (if cs == [] then [] else cs[0])
    else
      var last := cs[|cs| - 1];
      Combined(cs[..|cs| - 1]) + (if last == [] then [] else last[1..])
  }

  // ---------------------------------------------------------------------
  // Properties of one call

  /** `title` only ever holds 0 or 1, and is 1 after a call that returns. */
  lemma MergeTitle(s: State, dest: string, target: string)
    requires s.title == 0 || s.title == 1
    ensures Merge(s, dest, target).state.title == 0 || Merge(s, dest, target).state.title == 1
    ensures Merge(s, dest, target).ok ==> Merge(s, dest, target).state.title == 1
    ensures !Merge(s, dest, target).ok ==> Merge(s, dest, target).state.title == s.title
  {
  }

  /** A call creates `dest` if needed and touches no other file. */
  lemma MergeFrame(s: State, dest: string, target: string)
    ensures dest in Merge(s, dest, target).state.files
    ensures Merge(s, dest, target).state.files.Keys == s.files.Keys + {dest}
    ensures forall f :: f in s.files && f != dest ==> Merge(s, dest, target).state.files[f] == s.files[f]
  {
  }

  /** A call raises exactly when the target does not exist (and is not the
      destination it has just created), or when the header is to be
      skipped and the target is empty. */
  lemma MergeFails(s: State, dest: string, target: string)
    ensures !Merge(s, dest, target).ok <==>
      (target != dest && target !in s.files)
      || (s.title > 0 && Get(s.files[dest := Get(s.files, dest, [])], target, []) == [])
  {
  }

  /** A call that returns appends the target's rows, without the first one
      when `title` was set. */
  lemma MergeAppends(s: State, dest: string, target: string)
    requires target != dest && target in s.files
    requires s.title > 0 ==> s.files[target] != []
    ensures Merge(s, dest, target).ok
    ensures Merge(s, dest, target).state.files[dest] ==
      Get(s.files, dest, []) + (if s.title > 0 then s.files[target][1..] else s.files[target])
  {
  }

  // ---------------------------------------------------------------------
  // Properties of a run

  /** The contents of the files named by `targets`. */
  function Contents(files: map<string, seq<Row>>, targets: seq<string>): (cs: seq<seq<Row>>)
    requires forall i :: 0 <= i < |targets| ==> targets[i] in files
    ensures |cs| == |targets| && forall i :: 0 <= i < |targets| ==> cs[i] == files[targets[i]]
  {
    seq(|targets|, i requires 0 <= i < |targets| => files[targets[i]])
  }

  /** A run that starts with `title` unset, whose targets all exist and
      differ from the destination, and whose targets after the first are
      not empty, raises nothing, sets `title` once a target is merged,
      creates the destination and changes no other file. */
  lemma {:induction false} MergeAllSucceeds(s: State, dest: string, targets: seq<string>)
    requires s.title == 0
    requires forall i :: 0 <= i < |targets| ==> targets[i] in s.files && targets[i] != dest
    requires forall i :: 1 <= i < |targets| ==> s.files[targets[i]] != []
    ensures MergeAll(s, dest, targets).failedAt == None
    ensures MergeAll(s, dest, targets).state.title == (if targets == [] then 0 else 1)
    ensures targets != [] ==> dest in MergeAll(s, dest, targets).state.files
    ensures forall f :: f in s.files && f != dest ==>
      f in MergeAll(s, dest, targets).state.files && MergeAll(s, dest, targets).state.files[f] == s.files[f]
    ensures forall f :: f in MergeAll(s, dest, targets).state.files ==> f in s.files || f == dest
    decreases |targets|
  {
    if targets != [] {
      var init := targets[..|targets| - 1];
      MergeAllSucceeds(s, dest, init);
      MergeAppends(MergeAll(s, dest, init).state, dest, targets[|targets| - 1]);
    }
  }

  /** Under the same conditions the destination ends up holding what it had
      followed by `Combined` of the targets: one header, the first file's,
      then every file's data rows, in argument order. */
  lemma {:induction false} MergeAllCombines(s: State, dest: string, targets: seq<string>)
    requires s.title == 0
    requires forall i :: 0 <= i < |targets| ==> targets[i] in s.files && targets[i] != dest
    requires forall i :: 1 <= i < |targets| ==> s.files[targets[i]] != []
    requires targets != []
    ensures Get(MergeAll(s, dest, targets).state.files, dest, []) == Get(s.files, dest, []) + Combined(Contents(s.files, targets))
    decreases |targets|
  {
    var init, target := targets[..|targets| - 1], targets[|targets| - 1];
    var prefix := if init == [] then [] else Combined(Contents(s.files, init));
    var before := MergeAll(s, dest, init);
    assert before.failedAt == None && before.state.title == (if |targets| == 1 then 0 else 1)
      && target in before.state.files && before.state.files[target] == s.files[target]
      && Get(before.state.files, dest, []) == Get(s.files, dest, []) + prefix by {
      MergeAllSucceeds(s, dest, init);
      if init != [] {
        MergeAllCombines(s, dest, init);
      }
    }
    var last := s.files[target];
    var added := if |targets| == 1 then last else last[1..];
    assert Get(MergeAll(s, dest, targets).state.files, dest, []) == Get(s.files, dest, []) + prefix + added by {
      MergeAllAppends(s, dest, targets, Get(s.files, dest, []) + prefix);
    }
    assert Combined(Contents(s.files, targets)) == prefix + added by {
      CombinedSnoc(s.files, targets);
    }
  }

  /** The last call of a run whose earlier calls all returned appends the
      last target, without its header once `title` is set. */
  lemma MergeAllAppends(s: State, dest: string, targets: seq<string>, rows: seq<Row>)
    requires targets != [] && targets[|targets| - 1] in s.files && targets[|targets| - 1] != dest
    requires var before := MergeAll(s, dest, targets[..|targets| - 1]);
      before.failedAt == None && before.state.title == (if |targets| == 1 then 0 else 1)
      && targets[|targets| - 1] in before.state.files
      && before.state.files[targets[|targets| - 1]] == s.files[targets[|targets| - 1]]
      && Get(before.state.files, dest, []) == rows
    requires |targets| > 1 ==> s.files[targets[|targets| - 1]] != []
    ensures Get(MergeAll(s, dest, targets).state.files, dest, []) ==
      rows + (if |targets| == 1 then s.files[targets[0]] else s.files[targets[|targets| - 1]][1..])
  {
    MergeAppends(MergeAll(s, dest, targets[..|targets| - 1]).state, dest, targets[|targets| - 1]);
  }

  /** `Combined` of one more file. */
  lemma CombinedSnoc(files: map<string, seq<Row>>, targets: seq<string>)
    requires targets != [] && forall i :: 0 <= i < |targets| ==> targets[i] in files
    ensures Combined(Contents(files, targets)) ==
      (if |targets| == 1 then files[targets[0]]
       else
         var last := files[targets[|targets| - 1]];
         Combined(Contents(files, targets[..|targets| - 1])) + (if last == [] then [] else last[1..]))
  {
    var cs := Contents(files, targets);
    if |targets| > 1 {
      assert cs[..|targets| - 1] == Contents(files, targets[..|targets| - 1]);
    }
  }

  /** A run raises at target `i` only if every earlier call returned and
      call `i` met one of the two failures of `mergeCsv`: later targets are
      never opened. */
  lemma {:induction false} MergeAllFails(s: State, dest: string, targets: seq<string>)
    ensures MergeAll(s, dest, targets).failedAt.Some? ==>
      var i := MergeAll(s, dest, targets).failedAt.value;
      i < |targets|
      && MergeAll(s, dest, targets[..i]).failedAt == None
      && MergeAll(s, dest, targets) == MergeAll(s, dest, targets[..i + 1])
      && !Merge(MergeAll(s, dest, targets[..i]).state, dest, targets[i]).ok
    decreases |targets|
  {
    if targets != [] {
      var init := targets[..|targets| - 1];
      MergeAllFails(s, dest, init);
      var before := MergeAll(s, dest, init);
      if before.failedAt.Some? {
        var i := before.failedAt.value;
        assert init[..i] == targets[..i] && init[..i + 1] == targets[..i + 1];
      } else {
        assert targets[..|targets|] == targets;
      }
    }
  }

  /** The number of rows `Combined` yields: the first file's rows and one
      fewer than each later file's. */
  lemma {:induction false} CombinedLength(cs: seq<seq<Row>>)
    requires forall i :: 1 <= i < |cs| ==> cs[i] != []
    ensures |Combined(cs)| + (if cs == [] then 0 else |cs| - 1) == SumNats(RowCounts(cs))
    decreases |cs|
  {
    if |cs| > 1 {
      var init := cs[..|cs| - 1];
      CombinedLength(init);
      assert RowCounts(cs) == RowCounts(init) + [|cs[|cs| - 1]|];
      assert RowCounts(cs)[..|cs| - 1] == RowCounts(init);
    } else if |cs| == 1 {
      assert RowCounts(cs) == [|cs[0]|];
      assert RowCounts(cs)[..0] == [];
    }
  }

  /** The row count of each file. */
  function RowCounts(cs: seq<seq<Row>>): (r: seq<nat>)
    ensures |r| == |cs| && forall i :: 0 <= i < |cs| ==> r[i] == |cs[i]|
  {
    seq(|cs|, i requires 0 <= i < |cs| => |cs[i]|)
  }

  // ---------------------------------------------------------------------
  // The program state

  /** The process: the global `title` and the files it reads and writes. */
  class Merger {
    var title: int
    var files: map<string, seq<Row>>

    /** Module load: `title = 0` (merge_csv.py:3). */
    constructor (files: map<string, seq<Row>>)
      ensures title == 0 && this.files == files
    {
      title := 0;
      this.files := files;
    }

    function Current(): State
      reads this
    {
      State(title, files)
    }

    /** `mergeCsv` (merge_csv.py:5-20). */
    method MergeCsv(dest: string, target: string) returns (ok: bool)
      modifies this
      ensures Outcome(Current(), ok) == Merge(old(Current()), dest, target)
    {
      var start := Get(files, dest, []);
      files := files[dest := start];
      if target !in files {
        return false;
      }
      var rows := files[target];
      if title > 0 {
        if rows == [] {
          return false;
        }
        rows := rows[1..];
      } else {
        title := title + 1;
      }
      var i, written, flag := 0, start, title;
      while i < |rows|
        invariant 0 <= i <= |rows| && written == start + rows[..i]
        invariant title == flag
        invariant files == old(files)[dest := written]
      {
        written := written + [rows[i]];
        files := files[dest := written];
        assert rows[..i + 1] == rows[..i] + [rows[i]];
        i := i + 1;
      }
      assert rows[..i] == rows;
      ok := true;
    }

    /** `main` (merge_csv.py:23-35) on `argv`, program name first: with one
        argument it only prints its usage; otherwise every argument but the
        last is merged into the last, stopping at the first exception. */
    method Run(argv: seq<string>) returns (failedAt: Option<nat>)
      requires |argv| >= 1
      modifies this
      ensures |argv| == 2 ==> Current() == old(Current()) && failedAt == None
      ensures |argv| != 2 ==>
        RunResult(Current(), failedAt) == MergeAll(old(Current()), argv[|argv| - 1], Targets(argv))
    {
      var argc := |argv|;
      if argc <= 2 {
        return None;
      }
      var merged := argv[argc - 1];
      var targets := Targets(argv);
      ghost var s0 := Current();
      failedAt := None;
      for j := 0 to |targets|
        invariant RunResult(Current(), None) == MergeAll(s0, merged, targets[..j])
        invariant failedAt == None
      {
        ghost var prev := Current();
        var ok := MergeCsv(merged, targets[j]);
        MergeAllStep(s0, merged, targets, j, prev, Current(), ok);
        if !ok {
          failedAt := Some(j);
          return;
        }
      }
      assert targets[..|targets|] == targets;
    }
  }

  /** One more call of the loop of `main`: a call that returns extends the
      run, and one that raises ends it, whatever targets remain. */
  lemma MergeAllStep(s: State, dest: string, targets: seq<string>, j: nat, prev: State, next: State, ok: bool)
    requires j < |targets|
    requires MergeAll(s, dest, targets[..j]) == RunResult(prev, None)
    requires Merge(prev, dest, targets[j]) == Outcome(next, ok)
    ensures ok ==> MergeAll(s, dest, targets[..j + 1]) == RunResult(next, None)
    ensures !ok ==> MergeAll(s, dest, targets) == RunResult(next, Some(j))
  {
    assert targets[..j + 1][..j] == targets[..j];
    if !ok {
      MergeAllPrefix(s, dest, targets, j + 1);
    }
  }

  /** Once a run fails, the remaining targets change nothing. */
  lemma {:induction false} MergeAllPrefix(s: State, dest: string, targets: seq<string>, n: nat)
    requires n <= |targets|
    requires MergeAll(s, dest, targets[..n]).failedAt.Some?
    ensures MergeAll(s, dest, targets) == MergeAll(s, dest, targets[..n])
    decreases |targets| - n
  {
    if n < |targets| {
      assert targets[..n + 1][..n] == targets[..n];
      MergeAllPrefix(s, dest, targets, n + 1);
    } else {
      assert targets[..n] == targets;
    }
  }
}
