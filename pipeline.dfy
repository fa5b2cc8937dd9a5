/**
 * The whole run of `main` once the directory argument is known
 * (src/main.rs:63-99): scan, filter, then ask and delete group by group;
 * with the properties of the run as a whole.
 */
module Pipeline {
  import opened Wrappers
  import opened FingerprintIndex
  import opened Confirmation
  import opened DuplicateFilter
  import opened Reconciler

  /** Items `i` and `j` are regular files whose contents digest alike. */
  predicate SameDigest(items: seq<WalkItem>, digest: Content -> Digest, i: nat, j: nat)
    requires i < |items| && j < |items|
  {
    items[i].File? && items[j].File? && CalculateHash(items[i].read, digest).Some? &&
    CalculateHash(items[i].read, digest) == CalculateHash(items[j].read, digest)
  }

  /** `main`: scan the walk, keep the buckets with more than one path in the
      map's iteration order `order`, report "No duplicates found." when none
      is left, otherwise answer group `i` with line `i` of `answers`. */
  method Run(fs: FileSystem, items: seq<WalkItem>, digest: Content -> Digest, order: seq<Digest>, answers: seq<string>)
    returns (report: FilterOutcome, outcomes: seq<GroupOutcome>)
    requires IsIterationOrder(order, Fingerprints(items, digest))
    modifies fs
    ensures report == FilterDuplicates(Fingerprints(items, digest), order)
    ensures report.NoDuplicatesFound? ==> fs.files == old(fs.files) && fs.attempts == old(fs.attempts) && outcomes == []
    ensures var groups := DuplicateGroups(Fingerprints(items, digest), order);
            && fs.attempts == old(fs.attempts) + Attempted(groups, answers)
            && fs.files == old(fs.files) - Deletable(Attempted(groups, answers), fs.denied)
            && |outcomes| == |groups|
            && forall i | 0 <= i < |groups| ::
                 Reports(outcomes[i], groups[i], LineAt(answers, i), old(fs.files), fs.files, fs.denied,
                         Attempted(groups[..i], answers))
  {
    var scanned := ScanDirectory(items, digest);
    var fileHashMap := scanned.value;
    report := FilterDuplicates(fileHashMap, order);
    match report
    case NoDuplicatesFound =>
      outcomes := [];
      assert Deletable([], fs.denied) == {};
    case FoundDuplicates(duplicates) =>
      outcomes := ReconcileAll(fs, duplicates, answers);
  }

  /** Two paths of one bucket of a walk without repeated paths come from
      two different items of the walk. */
  lemma BucketFromTwoItems(items: seq<WalkItem>, digest: Content -> Digest, h: Digest) returns (i: nat, j: nat)
    requires DistinctPaths(items)
    requires h in Fingerprints(items, digest) && |Fingerprints(items, digest)[h]| >= 2
    ensures i < |items| && j < |items| && i != j && SameDigest(items, digest, i, j)
    ensures CalculateHash(items[i].read, digest) == Some(h)
  {
    var index := Fingerprints(items, digest);
    var p, q := index[h][0], index[h][1];
    ScanIndexContents(items, digest, p, h);
    ScanIndexContents(items, digest, q, h);
    DistinctPathsDisjointBuckets(items, digest);
    i :| 0 <= i < |items| && HashedAs(items[i], digest, p, h);
    j :| 0 <= j < |items| && HashedAs(items[j], digest, q, h);
  }

  /** With the walk yielding each path once, there are no duplicates exactly
      when no two regular files digest alike; in particular an empty tree or
      one of distinct contents yields "No duplicates found.". */
  lemma NoDuplicatesIff(items: seq<WalkItem>, digest: Content -> Digest, order: seq<Digest>)
    requires DistinctPaths(items) && IsIterationOrder(order, Fingerprints(items, digest))
    ensures FilterDuplicates(Fingerprints(items, digest), order).NoDuplicatesFound? <==>
            forall i, j | 0 <= i < j < |items| :: !SameDigest(items, digest, i, j)
  {
    var index := Fingerprints(items, digest);
    if exists h | h in index :: |index[h]| > 1 {
      var h :| h in index && |index[h]| > 1;
      var i, j := BucketFromTwoItems(items, digest, h);
      if j < i {
        assert SameDigest(items, digest, j, i);
      } else {
        assert SameDigest(items, digest, i, j);
      }
    }
    if exists i, j | 0 <= i < j < |items| :: SameDigest(items, digest, i, j) {
      var i, j :| 0 <= i < j < |items| && SameDigest(items, digest, i, j);
      var h := CalculateHash(items[i].read, digest).value;
      DiscoveryOrder(items, digest, i, j, items[i].path, items[j].path, h);
    }
  }

  /** Files whose contents digest alike end up together in one duplicate
      group. */
  lemma SameContentSameGroup(items: seq<WalkItem>, digest: Content -> Digest, order: seq<Digest>, i: nat, j: nat)
    requires DistinctPaths(items) && IsIterationOrder(order, Fingerprints(items, digest))
    requires i < j < |items| && SameDigest(items, digest, i, j)
    ensures exists g | g in DuplicateGroups(Fingerprints(items, digest), order) ::
              items[i].path in g && items[j].path in g
  {
    var index := Fingerprints(items, digest);
    var h := CalculateHash(items[i].read, digest).value;
    DiscoveryOrder(items, digest, i, j, items[i].path, items[j].path, h);
    DuplicateGroupsExact(index, order);
    var x, y :| 0 <= x < y < |index[h]| && index[h][x] == items[i].path && index[h][y] == items[j].path;
    assert index[h] in DuplicateGroups(index, order);
  }

  /** A path of the walk that lies in a bucket comes from an item whose
      contents have that bucket's digest. */
  lemma BucketDigest(items: seq<WalkItem>, digest: Content -> Digest, h: Digest, i: nat)
    requires DistinctPaths(items) && i < |items| && items[i].File?
    requires h in Fingerprints(items, digest) && items[i].path in Fingerprints(items, digest)[h]
    ensures CalculateHash(items[i].read, digest) == Some(h)
  {
    ScanIndexContents(items, digest, items[i].path, h);
    var k :| 0 <= k < |items| && HashedAs(items[k], digest, items[i].path, h);
    assert k == i;
  }

  /** A regular file lands in a duplicate group exactly when some other
      file of the walk digests like it; a file of unique contents is in no
      group. */
  lemma InSomeGroupIff(items: seq<WalkItem>, digest: Content -> Digest, order: seq<Digest>, i: nat)
    requires DistinctPaths(items) && IsIterationOrder(order, Fingerprints(items, digest))
    requires i < |items| && items[i].File?
    ensures (exists g | g in DuplicateGroups(Fingerprints(items, digest), order) :: items[i].path in g) <==>
            exists j | 0 <= j < |items| && j != i :: SameDigest(items, digest, i, j)
  {
    var index := Fingerprints(items, digest);
    var groups := DuplicateGroups(index, order);
    if g :| g in groups && items[i].path in g {
      DuplicateGroupsExact(index, order);
      var n :| 0 <= n < |groups| && groups[n] == g;
      var h :| h in index && |index[h]| > 1 && g == index[h];
      BucketDigest(items, digest, h, i);
      var a, b := BucketFromTwoItems(items, digest, h);
      var j := if a != i then a else b;
      assert j != i && SameDigest(items, digest, i, j);
    }
    if j :| 0 <= j < |items| && j != i && SameDigest(items, digest, i, j) {
      if i < j {
        SameContentSameGroup(items, digest, order, i, j);
      } else {
        assert SameDigest(items, digest, j, i);
        SameContentSameGroup(items, digest, order, j, i);
      }
    }
  }

  /** With the walk yielding each path once, no path occurs twice among the
      duplicate groups. */
  lemma GroupsDisjoint(items: seq<WalkItem>, digest: Content -> Digest, order: seq<Digest>)
    requires DistinctPaths(items) && IsIterationOrder(order, Fingerprints(items, digest))
    ensures Disjoint(DuplicateGroups(Fingerprints(items, digest), order))
  {
    var index := Fingerprints(items, digest);
    var keys := DuplicateKeys(index, order);
    var groups := DuplicateGroups(index, order);
    DistinctPathsDisjointBuckets(items, digest);
    forall i, a, j, b | 0 <= i < |groups| && 0 <= j < |groups| && 0 <= a < |groups[i]| && 0 <= b < |groups[j]| &&
                        (i != j || a != b)
      ensures groups[i][a] != groups[j][b]
    {
      assert keys[i] in keys && keys[j] in keys;
      assert groups[i] == index[keys[i]] && groups[j] == index[keys[j]];
    }
  }

  /** What a whole run does to each duplicate group, for a walk that yields
      each path once: the first member survives if it existed; a group not
      confirmed is left as it was; in a confirmed group every other member
      is removed unless the system refuses it; and no path is passed to
      removal twice. */
  lemma RunGroupEffects(items: seq<WalkItem>, digest: Content -> Digest, order: seq<Digest>, answers: seq<string>,
                        files: set<Path>, denied: set<Path>, i: nat)
    requires DistinctPaths(items) && IsIterationOrder(order, Fingerprints(items, digest))
    requires i < |DuplicateGroups(Fingerprints(items, digest), order)|
    ensures var groups := DuplicateGroups(Fingerprints(items, digest), order);
            var after := files - Deletable(Attempted(groups, answers), denied);
            && Distinct(Attempted(groups, answers))
            && (groups[i][0] in files ==> groups[i][0] in after)
            && (!IsAffirmative(LineAt(answers, i)) ==> forall p | p in groups[i] :: p in after <==> p in files)
            && (IsAffirmative(LineAt(answers, i)) ==>
                  forall k | 1 <= k < |groups[i]| :: groups[i][k] !in denied ==> groups[i][k] !in after)
  {
    var groups := DuplicateGroups(Fingerprints(items, digest), order);
    GroupsDisjoint(items, digest, order);
    AttemptedOnce(groups, answers);
    assert groups[i] in groups;
    KeptFileSurvives(groups, answers, i, files, denied);
    if !IsAffirmative(LineAt(answers, i)) {
      DeclinedGroupUntouched(groups, answers, i, files, denied);
    } else {
      forall k | 1 <= k < |groups[i]| {
        ConfirmedMemberRemoved(groups, answers, i, k, files, denied);
      }
    }
  }

  /** A small tree: two copies `a` and `b` of one text, an original `c`,
      a directory `d`, an unreadable file `e` and a walk error. */
  function SampleWalk(a: Path, b: Path, c: Path, d: Path, e: Path, copy: Content, original: Content): seq<WalkItem> {
    [File(a, Some(copy)), NotAFile(d), File(b, Some(copy)), File(c, Some(original)), File(e, None), WalkError]
  }

  /** Scanning the first three items of the sample tree: the copies share
      a bucket in discovery order and the directory adds nothing. */
  lemma SampleCopiesIndex(a: Path, b: Path, d: Path, copy: Content, digest: Content -> Digest)
    ensures Fingerprints([File(a, Some(copy)), NotAFile(d), File(b, Some(copy))], digest) == map[digest(copy) := [a, b]]
  {
    var h := digest(copy);
    var none: seq<Path> := [];
    var w0: seq<WalkItem> := [];
    var w1 := w0 + [File(a, Some(copy))];
    var w2 := w1 + [NotAFile(d)];
    assert Fingerprints(w1, digest) == map[h := [a]] by {
      assert Fingerprints(w0, digest) == map[];
      ScanStep(w0, File(a, Some(copy)), digest);
      assert none + [a] == [a];
    }
    ScanStep(w1, NotAFile(d), digest);
    ScanStep(w2, File(b, Some(copy)), digest);
    assert [a] + [b] == [a, b];
    assert w2 + [File(b, Some(copy))] == [File(a, Some(copy)), NotAFile(d), File(b, Some(copy))];
  }

  /** Scanning the sample tree: the copies share a bucket in discovery
      order, the original has its own, the rest add nothing. */
  lemma SampleIndex(a: Path, b: Path, c: Path, d: Path, e: Path, copy: Content, original: Content, digest: Content -> Digest)
    requires digest(copy) != digest(original)
    ensures Fingerprints(SampleWalk(a, b, c, d, e, copy, original), digest) ==
            map[digest(copy) := [a, b], digest(original) := [c]]
  {
    var h, x := digest(copy), digest(original);
    var none: seq<Path> := [];
    var w3 := [File(a, Some(copy)), NotAFile(d), File(b, Some(copy))];
    var w4 := w3 + [File(c, Some(original))];
    var w5 := w4 + [File(e, None)];
    SampleCopiesIndex(a, b, d, copy, digest);
    assert Fingerprints(w4, digest) == map[h := [a, b], x := [c]] by {
      ScanStep(w3, File(c, Some(original)), digest);
      assert none + [c] == [c];
    }
    assert Fingerprints(w5 + [WalkError], digest) == Fingerprints(w4, digest) by {
      ScanStep(w4, File(e, None), digest);
      ScanStep(w5, WalkError, digest);
    }
    assert w5 + [WalkError] == SampleWalk(a, b, c, d, e, copy, original);
  }

  /** On the sample tree the copies form the one duplicate group, whatever
      the map's iteration order. */
  lemma SampleGroups(a: Path, b: Path, c: Path, d: Path, e: Path, copy: Content, original: Content,
                     digest: Content -> Digest, order: seq<Digest>)
    requires digest(copy) != digest(original)
    requires IsIterationOrder(order, Fingerprints(SampleWalk(a, b, c, d, e, copy, original), digest))
    ensures DuplicateGroups(Fingerprints(SampleWalk(a, b, c, d, e, copy, original), digest), order) == [[a, b]]
  {
    SampleIndex(a, b, c, d, e, copy, original, digest);
    OneDuplicateBucket(Fingerprints(SampleWalk(a, b, c, d, e, copy, original), digest), order, digest(copy));
  }

  /** For one group of two copies, answering " Y " passes only the second
      copy to removal, answering "yes" passes nothing. */
  lemma SampleAnswers(a: Path, b: Path)
    ensures Attempted([[a, b]], [" Y \n"]) == [b]
    ensures Attempted([[a, b]], ["yes"]) == []
  {
    var groups := [[a, b]];
    assert groups[..0] == [];
    PaddedUpperCaseIsAffirmative();
    OtherAnswersAreNegative();
    assert Tail([a, b]) == [b];
  }
}
