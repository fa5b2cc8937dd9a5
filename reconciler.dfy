/**
 * The reconciler loop of `main` (src/main.rs:75-95): for each duplicate
 * group the operator is asked; on a yes every member but the first is
 * removed, one removal at a time, and a failed removal is reported without
 * stopping the loop; on anything else the group is skipped.
 */
module Reconciler {
  import opened Wrappers
  import opened FingerprintIndex
  import opened Confirmation

  /** The filesystem as far as removal sees it: the paths that exist, and
      the paths whose removal the system refuses (permission denied, a busy
      or read-only file). `attempts` records every path passed to removal. */
  class FileSystem {
    var files: set<Path>
    const denied: set<Path>
    ghost var attempts: seq<Path>

    constructor (files: set<Path>, denied: set<Path>)
      ensures this.files == files && this.denied == denied && attempts == []
    {
      this.files := files;
      this.denied := denied;
      attempts := [];
    }

    /** `fs::remove_file`: fails when the path does not exist or the system
        refuses; otherwise the path is gone. */
    method RemoveFile(p: Path) returns (r: Result<(), string>)
      modifies this
      ensures r.Ok? <==> p in old(files) && p !in denied
      ensures files == if r.Ok? then old(files) - {p} else old(files)
      ensures attempts == old(attempts) + [p]
    {
      attempts := attempts + [p];
      if p !in files {
        return Err("No such file or directory");
      }
      if p in denied {
        return Err("Permission denied");
      }
      files := files - {p};
      return Ok(());
    }
  }

  /** The report printed for one removal. */
  datatype Removal = Deleted(path: Path) | FailedToDelete(path: Path, reason: string)

  /** What happened to one group. */
  datatype GroupOutcome = Skipped | Confirmed(removals: seq<Removal>)

  /** The members removal is attempted on: all but the first. */
  function Tail(group: seq<Path>): seq<Path> {
    if group == [] then [] else group[1..]
  }

  /** The paths that attempts on `ps` remove: those the system does not refuse. */
  function Deletable(ps: seq<Path>, denied: set<Path>): set<Path> {
    set p | p in ps && p !in denied
  }

  /** The line read for group `i`; past the end of the input `read_line`
      leaves the line empty, which is not a yes. */
  function LineAt(answers: seq<string>, i: nat): (r: string)
    ensures i >= |answers| ==> !IsAffirmative(r)
  {
    if i < |answers| then answers[i] else ""
  }

  /** Every path passed to removal over the whole run, in order: the tails
      of the confirmed groups, group after group. */
  function Attempted(groups: seq<seq<Path>>, answers: seq<string>): seq<Path> {
    if groups == [] then []
    else
      var n := |groups| - 1;
      Attempted(groups[..n], answers) + (if IsAffirmative(LineAt(answers, n)) then Tail(groups[n]) else [])
  }

  /** No path occurs twice, within a group or across groups. */
  ghost predicate Disjoint(groups: seq<seq<Path>>) {
    forall i, a, j, b | 0 <= i < |groups| && 0 <= j < |groups| && 0 <= a < |groups[i]| && 0 <= b < |groups[j]| &&
                        (i != j || a != b) ::
      groups[i][a] != groups[j][b]
  }

  /** A report tells the truth about a removal, given the files before and
      after: a deleted path existed, is not refused and is gone; a path that
      failed is refused or does not exist. */
  predicate Truthful(r: Removal, before: set<Path>, after: set<Path>, denied: set<Path>) {
    match r
    case Deleted(p) => p in before && p !in denied && p !in after
    case FailedToDelete(p, _) => p in denied || p !in after
  }

  /** The removals reported for a confirmed group: one per member after the
      first, in order, each of them truthful. `before` is the files when the
      run began and `earlier` the paths passed to removal before this group:
      a member is reported deleted exactly when it existed then, is not
      refused, and was not attempted before, in an earlier group or earlier
      in this one. */
  predicate RemovalsReport(removals: seq<Removal>, group: seq<Path>,
                           before: set<Path>, after: set<Path>, denied: set<Path>, earlier: seq<Path>) {
    && |removals| == |Tail(group)|
    && (forall k | 0 <= k < |removals| ::
          && removals[k].path == group[k + 1]
          && (removals[k].Deleted? <==>
                group[k + 1] in before && group[k + 1] !in denied &&
                group[k + 1] !in earlier && group[k + 1] !in group[1..k + 1]))
    && (forall r | r in removals :: Truthful(r, before, after, denied))
  }

  /** The outcome reported for a group answered by `line`: confirmed
      exactly on a yes, with the removals reported as above. */
  predicate Reports(outcome: GroupOutcome, group: seq<Path>, line: string,
                    before: set<Path>, after: set<Path>, denied: set<Path>, earlier: seq<Path>) {
    && (outcome.Confirmed? <==> IsAffirmative(line))
    && (outcome.Confirmed? ==> RemovalsReport(outcome.removals, group, before, after, denied, earlier))
  }

  /** A report stays true while files only disappear. */
  lemma ReportsLater(outcome: GroupOutcome, group: seq<Path>, line: string,
                     before: set<Path>, after: set<Path>, later: set<Path>, denied: set<Path>, earlier: seq<Path>)
    requires Reports(outcome, group, line, before, after, denied, earlier) && later <= after
    ensures Reports(outcome, group, line, before, later, denied, earlier)
  {
  }

  /** A report made against the files left after the attempts `done` is a
      report against the files the run began with, counting `done` as
      attempted earlier. */
  lemma ReportsRebase(outcome: GroupOutcome, group: seq<Path>, line: string,
                      start: set<Path>, done: seq<Path>, after: set<Path>, denied: set<Path>)
    requires Reports(outcome, group, line, start - Deletable(done, denied), after, denied, [])
    ensures Reports(outcome, group, line, start, after, denied, done)
  {
  }

  /** The first `n` groups are reported as above, group `j` against the
      paths attempted in the groups before it. */
  predicate ReportsUpTo(outcomes: seq<GroupOutcome>, groups: seq<seq<Path>>, answers: seq<string>,
                        before: set<Path>, after: set<Path>, denied: set<Path>, n: nat)
    requires n <= |outcomes| && n <= |groups|
  {
    n == 0 ||
    (&& ReportsUpTo(outcomes, groups, answers, before, after, denied, n - 1)
     && Reports(outcomes[n - 1], groups[n - 1], LineAt(answers, n - 1), before, after, denied,
                Attempted(groups[..n - 1], answers)))
  }

  /** `ReportsUpTo` is a report on each of the first `n` groups: group `j`
      is reported against the paths attempted in the groups before it. */
  lemma {:induction false} ReportsUpToAt(outcomes: seq<GroupOutcome>, groups: seq<seq<Path>>, answers: seq<string>,
                                         before: set<Path>, after: set<Path>, denied: set<Path>, n: nat, j: nat)
    requires j < n <= |outcomes| && n <= |groups|
    requires ReportsUpTo(outcomes, groups, answers, before, after, denied, n)
    ensures Reports(outcomes[j], groups[j], LineAt(answers, j), before, after, denied, Attempted(groups[..j], answers))
  {
    if j < n - 1 {
      ReportsUpToAt(outcomes, groups, answers, before, after, denied, n - 1, j);
    }
  }

  /** The same, for all of the first `n` groups at once. */
  lemma ReportsUpToAll(outcomes: seq<GroupOutcome>, groups: seq<seq<Path>>, answers: seq<string>,
                       before: set<Path>, after: set<Path>, denied: set<Path>, n: nat)
    requires n <= |outcomes| && n <= |groups|
    requires ReportsUpTo(outcomes, groups, answers, before, after, denied, n)
    ensures forall j {:trigger outcomes[j]} | 0 <= j < n ::
              Reports(outcomes[j], groups[j], LineAt(answers, j), before, after, denied, Attempted(groups[..j], answers))
  {
    forall j | 0 <= j < n
      ensures Reports(outcomes[j], groups[j], LineAt(answers, j), before, after, denied, Attempted(groups[..j], answers))
    {
      ReportsUpToAt(outcomes, groups, answers, before, after, denied, n, j);
    }
  }

  /** The reports of the first `n` groups stay true while files only
      disappear and more outcomes follow. */
  lemma {:induction false} ReportsUpToLater(previous: seq<GroupOutcome>, outcome: GroupOutcome, groups: seq<seq<Path>>,
                                            answers: seq<string>, start: set<Path>, before: set<Path>, after: set<Path>,
                                            denied: set<Path>, n: nat)
    requires n <= |previous| && n <= |groups|
    requires ReportsUpTo(previous, groups, answers, start, before, denied, n) && after <= before
    ensures ReportsUpTo(previous + [outcome], groups, answers, start, after, denied, n)
  {
    if n > 0 {
      ReportsUpToLater(previous, outcome, groups, answers, start, before, after, denied, n - 1);
      assert (previous + [outcome])[n - 1] == previous[n - 1];
      ReportsLater(previous[n - 1], groups[n - 1], LineAt(answers, n - 1), start, before, after, denied,
                   Attempted(groups[..n - 1], answers));
    }
  }

  /** The reports of the groups done so far stay true after one more group,
      and the new group's report joins them. */
  lemma ReportsExtend(previous: seq<GroupOutcome>, outcome: GroupOutcome, groups: seq<seq<Path>>,
                      answers: seq<string>, start: set<Path>, before: set<Path>, after: set<Path>, denied: set<Path>)
    requires |previous| < |groups|
    requires ReportsUpTo(previous, groups, answers, start, before, denied, |previous|)
    requires before == start - Deletable(Attempted(groups[..|previous|], answers), denied)
    requires Reports(outcome, groups[|previous|], LineAt(answers, |previous|), before, after, denied, [])
    requires after <= before
    ensures ReportsUpTo(previous + [outcome], groups, answers, start, after, denied, |previous| + 1)
  {
    var n := |previous|;
    ReportsUpToLater(previous, outcome, groups, answers, start, before, after, denied, n);
    ReportsRebase(outcome, groups[n], LineAt(answers, n), start, Attempted(groups[..n], answers), after, denied);
    assert (previous + [outcome])[n] == outcome;
  }

  /** The paths passed to removal after one more group. */
  lemma AttemptsStep(groups: seq<seq<Path>>, answers: seq<string>,
                     first: seq<Path>, attempts: seq<Path>, attemptsAfter: seq<Path>, i: nat)
    requires i < |groups|
    requires attempts == first + Attempted(groups[..i], answers)
    requires attemptsAfter == attempts + (if IsAffirmative(LineAt(answers, i)) then Tail(groups[i]) else [])
    ensures attemptsAfter == first + Attempted(groups[..i + 1], answers)
  {
    AttemptedStep(groups, answers, i);
  }

  /** One more group of the run: the files left and the reports after it
      follow from those before it and from the group's own report. */
  lemma ReconcileStep(previous: seq<GroupOutcome>, outcome: GroupOutcome, groups: seq<seq<Path>>, answers: seq<string>,
                      first: seq<Path>, attempts: seq<Path>, attemptsAfter: seq<Path>,
                      start: set<Path>, before: set<Path>, after: set<Path>, denied: set<Path>, i: nat)
    requires i == |previous| < |groups|
    requires attempts == first + Attempted(groups[..i], answers)
    requires attemptsAfter == attempts + (if IsAffirmative(LineAt(answers, i)) then Tail(groups[i]) else [])
    requires before == start - Deletable(Attempted(groups[..i], answers), denied)
    requires after == before - Deletable(if IsAffirmative(LineAt(answers, i)) then Tail(groups[i]) else [], denied)
    requires ReportsUpTo(previous, groups, answers, start, before, denied, i)
    requires Reports(outcome, groups[i], LineAt(answers, i), before, after, denied, [])
    ensures attemptsAfter == first + Attempted(groups[..i + 1], answers)
    ensures after == start - Deletable(Attempted(groups[..i + 1], answers), denied)
    ensures ReportsUpTo(previous + [outcome], groups, answers, start, after, denied, i + 1)
  {
    AttemptsStep(groups, answers, first, attempts, attemptsAfter, i);
    AttemptedStep(groups, answers, i);
    RemovalsCompose(start, Attempted(groups[..i], answers),
                    if IsAffirmative(LineAt(answers, i)) then Tail(groups[i]) else [], denied);
    ReportsExtend(previous, outcome, groups, answers, start, before, after, denied);
  }

  /** Removing the deletable paths of two runs of attempts, one after the
      other, is removing those of the two runs together. */
  lemma RemovalsCompose(files: set<Path>, ps: seq<Path>, qs: seq<Path>, denied: set<Path>)
    ensures files - Deletable(ps, denied) - Deletable(qs, denied) == files - Deletable(ps + qs, denied)
  {
    assert Deletable(ps + qs, denied) == Deletable(ps, denied) + Deletable(qs, denied);
  }

  /** `Attempted` over the first `i + 1` groups extends that over the first `i`. */
  lemma AttemptedStep(groups: seq<seq<Path>>, answers: seq<string>, i: nat)
    requires i < |groups|
    ensures Attempted(groups[..i + 1], answers) ==
            Attempted(groups[..i], answers) + (if IsAffirmative(LineAt(answers, i)) then Tail(groups[i]) else [])
  {
    assert groups[..i + 1][..i] == groups[..i];
  }

  /** One more attempt adds its path to the deletable ones unless refused. */
  lemma DeletableAppend(ps: seq<Path>, p: Path, denied: set<Path>)
    ensures Deletable(ps + [p], denied) == Deletable(ps, denied) + (if p in denied then {} else {p})
  {
  }

  /** The inner loop on a confirmed group: index 0 is kept, every other
      member is passed to removal once, in group order, whatever became of
      the earlier ones. Removal `k` reports the member at index `k + 1`, and
      it deletes that member exactly when it existed, is not refused and was
      not already removed earlier in the group. */
  method DeleteAllButFirst(fs: FileSystem, group: seq<Path>) returns (log: seq<Removal>)
    modifies fs
    ensures fs.attempts == old(fs.attempts) + Tail(group)
    ensures fs.files == old(fs.files) - Deletable(Tail(group), fs.denied)
    ensures |log| == |Tail(group)|
    ensures forall k | 0 <= k < |log| ::
              log[k].path == group[k + 1] &&
              (log[k].Deleted? <==> group[k + 1] in old(fs.files) && group[k + 1] !in fs.denied &&
                                    group[k + 1] !in group[1..k + 1])
    ensures forall r | r in log :: Truthful(r, old(fs.files), fs.files, fs.denied)
  {
    log := [];
    var index := 0;
    while index < |group|
      invariant 0 <= index <= |group|
      invariant fs.attempts == old(fs.attempts) + Tail(group[..index])
      invariant fs.files == old(fs.files) - Deletable(Tail(group[..index]), fs.denied)
      invariant |log| == |Tail(group[..index])|
      invariant forall k | 0 <= k < |log| ::
                  log[k].path == group[k + 1] &&
                  (log[k].Deleted? <==> group[k + 1] in old(fs.files) && group[k + 1] !in fs.denied &&
                                        group[k + 1] !in group[1..k + 1])
      invariant forall r | r in log :: Truthful(r, old(fs.files), fs.files, fs.denied)
    {
      var file := group[index];
      if index != 0 {
        assert Tail(group[..index + 1]) == Tail(group[..index]) + [file];
        assert Tail(group[..index]) == group[1..index];
        DeletableAppend(Tail(group[..index]), file, fs.denied);
        var r := fs.RemoveFile(file);
        if r.Err? {
          log := log + [FailedToDelete(file, r.error)];
        } else {
          log := log + [Deleted(file)];
        }
      }
      index := index + 1;
    }
    assert group[..index] == group;
  }

  /** One group: ask, then delete all but the first on a yes, or skip. */
  method ReconcileGroup(fs: FileSystem, group: seq<Path>, line: string) returns (outcome: GroupOutcome)
    modifies fs
    ensures fs.attempts == old(fs.attempts) + (if IsAffirmative(line) then Tail(group) else [])
    ensures fs.files == old(fs.files) - Deletable(if IsAffirmative(line) then Tail(group) else [], fs.denied)
    ensures Reports(outcome, group, line, old(fs.files), fs.files, fs.denied, [])
  {
    if IsAffirmative(line) {
      var log := DeleteAllButFirst(fs, group);
      outcome := Confirmed(log);
    } else {
      outcome := Skipped;
    }
  }

  /** The loop over the groups: group `i` is answered by line `i`; the run
      attempts exactly `Attempted(groups, answers)` and removes what of it is
      not refused. */
  method ReconcileAll(fs: FileSystem, groups: seq<seq<Path>>, answers: seq<string>) returns (outcomes: seq<GroupOutcome>)
    modifies fs
    ensures fs.attempts == old(fs.attempts) + Attempted(groups, answers)
    ensures fs.files == old(fs.files) - Deletable(Attempted(groups, answers), fs.denied)
    ensures |outcomes| == |groups|
    ensures forall i {:trigger outcomes[i]} | 0 <= i < |groups| ::
              Reports(outcomes[i], groups[i], LineAt(answers, i), old(fs.files), fs.files, fs.denied,
                      Attempted(groups[..i], answers))
  {
    outcomes := [];
    ghost var start := fs.files;
    var i := 0;
    while i < |groups|
      invariant 0 <= i <= |groups|
      invariant fs.attempts == old(fs.attempts) + Attempted(groups[..i], answers)
      invariant fs.files == start - Deletable(Attempted(groups[..i], answers), fs.denied)
      invariant |outcomes| == i
      invariant ReportsUpTo(outcomes, groups, answers, start, fs.files, fs.denied, i)
    {
      ghost var before := fs.files;
      ghost var attempts := fs.attempts;
      var outcome := ReconcileGroup(fs, groups[i], LineAt(answers, i));
      ReconcileStep(outcomes, outcome, groups, answers, old(fs.attempts), attempts, fs.attempts,
                    start, before, fs.files, fs.denied, i);
      outcomes := outcomes + [outcome];
      i := i + 1;
    }
    assert groups[..i] == groups;
    ReportsUpToAll(outcomes, groups, answers, start, fs.files, fs.denied, i);
  }

  /** Every path passed to removal is a member, other than the first, of a
      confirmed group. */
  lemma {:induction false} AttemptedFrom(groups: seq<seq<Path>>, answers: seq<string>, p: Path) returns (i: nat, k: nat)
    requires p in Attempted(groups, answers)
    ensures i < |groups| && 1 <= k < |groups[i]| && groups[i][k] == p && IsAffirmative(LineAt(answers, i))
  {
    var n := |groups| - 1;
    var init := groups[..n];
    var now := if IsAffirmative(LineAt(answers, n)) then Tail(groups[n]) else [];
    assert Attempted(groups, answers) == Attempted(init, answers) + now;
    if p in Attempted(init, answers) {
      i, k := AttemptedFrom(init, answers, p);
      assert groups[i] == init[i];
    } else {
      var j :| 0 <= j < |now| && now[j] == p;
      i, k := n, j + 1;
    }
  }

  /** Every member, other than the first, of a confirmed group is passed to
      removal. */
  lemma {:induction false} AttemptedCovers(groups: seq<seq<Path>>, answers: seq<string>, i: nat, k: nat)
    requires i < |groups| && 1 <= k < |groups[i]| && IsAffirmative(LineAt(answers, i))
    ensures groups[i][k] in Attempted(groups, answers)
  {
    var n := |groups| - 1;
    var init := groups[..n];
    if i < n {
      AttemptedCovers(init, answers, i, k);
      assert init[i][k] == groups[i][k];
    } else {
      assert Tail(groups[n])[k - 1] == groups[i][k];
    }
  }

  /** A path is passed to removal exactly when it is a member, other than
      the first, of a group the operator confirmed. */
  lemma AttemptedMembers(groups: seq<seq<Path>>, answers: seq<string>, p: Path)
    ensures p in Attempted(groups, answers) <==>
            exists i, k | 0 <= i < |groups| && 1 <= k < |groups[i]| ::
              groups[i][k] == p && IsAffirmative(LineAt(answers, i))
  {
    if p in Attempted(groups, answers) {
      var i, k := AttemptedFrom(groups, answers, p);
    }
    if exists i, k | 0 <= i < |groups| && 1 <= k < |groups[i]| ::
         groups[i][k] == p && IsAffirmative(LineAt(answers, i)) {
      var i, k :| 0 <= i < |groups| && 1 <= k < |groups[i]| &&
                  groups[i][k] == p && IsAffirmative(LineAt(answers, i));
      AttemptedCovers(groups, answers, i, k);
    }
  }

  /** When no path occurs twice among the groups, no path is passed to
      removal twice: together with AttemptedMembers, every member after
      the first of a confirmed group is attempted exactly once. */
  lemma {:induction false} AttemptedOnce(groups: seq<seq<Path>>, answers: seq<string>)
    requires Disjoint(groups)
    ensures Distinct(Attempted(groups, answers))
  {
    if groups != [] {
      var n := |groups| - 1;
      var init := groups[..n];
      assert Disjoint(init) by {
        forall i, a, j, b | 0 <= i < n && 0 <= j < n && 0 <= a < |init[i]| && 0 <= b < |init[j]| &&
                            (i != j || a != b)
          ensures init[i][a] != init[j][b]
        {
          assert init[i] == groups[i] && init[j] == groups[j];
        }
      }
      AttemptedOnce(init, answers);
      var done := Attempted(init, answers);
      var now := if IsAffirmative(LineAt(answers, n)) then Tail(groups[n]) else [];
      var all := Attempted(groups, answers);
      assert all == done + now;
      forall a, b | 0 <= a < b < |all| ensures all[a] != all[b] {
        if b < |done| {
          assert all[a] == done[a] && all[b] == done[b];
        } else if a >= |done| {
          assert all[a] == groups[n][a - |done| + 1] && all[b] == groups[n][b - |done| + 1];
        } else {
          assert done[a] in done;
          var i, k := AttemptedFrom(init, answers, done[a]);
          assert all[a] == groups[i][k] && all[b] == groups[n][b - |done| + 1];
        }
      }
    }
  }

  /** The first member of a group is never passed to removal, so the kept
      file, if it existed, still exists after the run. */
  lemma KeptFileSurvives(groups: seq<seq<Path>>, answers: seq<string>, i: nat, files: set<Path>, denied: set<Path>)
    requires Disjoint(groups) && i < |groups| && groups[i] != []
    ensures groups[i][0] !in Attempted(groups, answers)
    ensures groups[i][0] in files ==> groups[i][0] in files - Deletable(Attempted(groups, answers), denied)
  {
    if groups[i][0] in Attempted(groups, answers) {
      var j, k := AttemptedFrom(groups, answers, groups[i][0]);
    }
  }

  /** A group the operator did not confirm is left as it was: none of its
      members is passed to removal, and each exists after the run exactly
      when it existed before. */
  lemma DeclinedGroupUntouched(groups: seq<seq<Path>>, answers: seq<string>, i: nat, files: set<Path>, denied: set<Path>)
    requires Disjoint(groups) && i < |groups| && !IsAffirmative(LineAt(answers, i))
    ensures forall p | p in groups[i] ::
              p !in Attempted(groups, answers) &&
              (p in files - Deletable(Attempted(groups, answers), denied) <==> p in files)
  {
    forall p | p in groups[i]
      ensures p !in Attempted(groups, answers)
    {
      var a :| 0 <= a < |groups[i]| && groups[i][a] == p;
      if p in Attempted(groups, answers) {
        var j, k := AttemptedFrom(groups, answers, p);
      }
    }
  }

  /** In a confirmed group every member after the first is passed to
      removal, whatever happened to the others: it is gone after the run
      unless the system refused it, and a refused one stays if it existed. */
  lemma ConfirmedMemberRemoved(groups: seq<seq<Path>>, answers: seq<string>, i: nat, k: nat,
                               files: set<Path>, denied: set<Path>)
    requires i < |groups| && 1 <= k < |groups[i]| && IsAffirmative(LineAt(answers, i))
    ensures groups[i][k] in Attempted(groups, answers)
    ensures groups[i][k] !in denied ==> groups[i][k] !in files - Deletable(Attempted(groups, answers), denied)
    ensures groups[i][k] in denied ==>
              (groups[i][k] in files - Deletable(Attempted(groups, answers), denied) <==> groups[i][k] in files)
  {
    AttemptedCovers(groups, answers, i, k);
  }
}
