/**
 * The duplicate filter of `main` (src/main.rs:65-72): the index is iterated
 * in the hash map's order, the buckets with more than one path are kept and
 * their keys dropped. An empty result is reported as "No duplicates found.".
 */
module DuplicateFilter {
  import opened Wrappers
  import opened FingerprintIndex

  /** An order in which a hash map may yield its keys: each key exactly
      once. Which one the map uses is unspecified, so it is a parameter. */
  predicate IsIterationOrder(order: seq<Digest>, index: Index) {
    Distinct(order) && (forall h | h in order :: h in index) && (forall h | h in index :: h in order)
  }

  /** The `filter` step: the keys, in iteration order, whose bucket holds
      more than one path. */
  function DuplicateKeys(index: Index, order: seq<Digest>): (keys: seq<Digest>)
    requires forall h | h in order :: h in index
    ensures forall h | h in keys :: h in order && |index[h]| > 1
    ensures forall h | h in order && |index[h]| > 1 :: h in keys
    ensures Distinct(order) ==> Distinct(keys)
  {
    if order == [] then []
    else
      var n := |order| - 1;
      assert forall h | h in order[..n] :: h in order;
      DuplicateKeys(index, order[..n]) + (if |index[order[n]]| > 1 then [order[n]] else [])
  }

  /** `keys` is a subsequence of `order`: key `a` sits at position
      `pos[a]`, and the positions strictly increase. */
  predicate SubsequenceAt(pos: seq<nat>, keys: seq<Digest>, order: seq<Digest>) {
    && |pos| == |keys|
    && (forall a | 0 <= a < |pos| :: pos[a] < |order| && order[pos[a]] == keys[a])
    && (forall a, b | 0 <= a < b < |pos| :: pos[a] < pos[b])
  }

  /** A subsequence of all but the last element of `order` stays one of
      `order`, with or without that last element appended. */
  lemma SubsequenceExtend(pos: seq<nat>, keys: seq<Digest>, order: seq<Digest>, keep: bool)
    requires order != [] && SubsequenceAt(pos, keys, order[..|order| - 1])
    ensures var n := |order| - 1;
            SubsequenceAt(pos + (if keep then [n] else []), keys + (if keep then [order[n]] else []), order)
  {
    var n := |order| - 1;
    var pos', keys' := pos + (if keep then [n] else []), keys + (if keep then [order[n]] else []);
    forall a | 0 <= a < |pos'| ensures pos'[a] < |order| && order[pos'[a]] == keys'[a] {
      if a < |pos| {
        assert order[..n][pos[a]] == order[pos[a]];
      }
    }
  }

  /** The filter keeps the iteration order: the duplicate keys are a
      subsequence of `order`. */
  lemma {:induction false} DuplicateKeysInOrder(index: Index, order: seq<Digest>) returns (pos: seq<nat>)
    requires forall h | h in order :: h in index
    ensures SubsequenceAt(pos, DuplicateKeys(index, order), order)
  {
    if order == [] {
      pos := [];
    } else {
      var n := |order| - 1;
      assert forall h | h in order[..n] :: h in order;
      var init := DuplicateKeysInOrder(index, order[..n]);
      var keep := |index[order[n]]| > 1;
      assert DuplicateKeys(index, order) ==
             DuplicateKeys(index, order[..n]) + (if keep then [order[n]] else []);
      SubsequenceExtend(init, DuplicateKeys(index, order[..n]), order, keep);
      pos := init + (if keep then [n] else []);
    }
  }

  /** The `map` and `collect` steps: the duplicate groups, each with at
      least two members. */
  function DuplicateGroups(index: Index, order: seq<Digest>): (groups: seq<seq<Path>>)
    requires forall h | h in order :: h in index
    ensures forall g | g in groups :: |g| >= 2
  {
    var keys := DuplicateKeys(index, order);
    seq(|keys|, i requires 0 <= i < |keys| => index[keys[i]])
  }

  /** The outcome of the filter when it leaves nothing. */
  datatype FilterOutcome = NoDuplicatesFound | FoundDuplicates(groups: seq<seq<Path>>)

  function FilterDuplicates(index: Index, order: seq<Digest>): (r: FilterOutcome)
    requires IsIterationOrder(order, index)
    ensures r.NoDuplicatesFound? <==> forall h | h in index :: |index[h]| <= 1
    ensures r.FoundDuplicates? ==> r.groups == DuplicateGroups(index, order) && r.groups != []
  {
    var duplicates := DuplicateGroups(index, order);
    var keys := DuplicateKeys(index, order);
    assert keys != [] ==> keys[0] in keys;
    if duplicates == [] then NoDuplicatesFound else FoundDuplicates(duplicates)
  }

  /** A sequence without repetitions has as many elements as its set. */
  lemma {:induction false} DistinctCardinality(s: seq<Digest>)
    requires Distinct(s)
    ensures |set x | x in s| == |s|
  {
    if s != [] {
      var n := |s| - 1;
      DistinctCardinality(s[..n]);
      assert (set x | x in s) == (set x | x in s[..n]) + {s[n]};
      assert s[n] !in (set x | x in s[..n]);
    }
  }

  /** The groups are exactly the buckets with more than one path, each
      listed once: every group is such a bucket, every such bucket is a
      group, and there are as many groups as such buckets. */
  lemma DuplicateGroupsExact(index: Index, order: seq<Digest>)
    requires IsIterationOrder(order, index)
    ensures var groups := DuplicateGroups(index, order);
            && (forall i | 0 <= i < |groups| :: exists h | h in index :: |index[h]| > 1 && groups[i] == index[h])
            && (forall h | h in index && |index[h]| > 1 :: index[h] in groups)
            && |groups| == |set h | h in index && |index[h]| > 1|
  {
    var groups := DuplicateGroups(index, order);
    var keys := DuplicateKeys(index, order);
    forall i | 0 <= i < |groups| ensures exists h | h in index :: |index[h]| > 1 && groups[i] == index[h] {
      assert keys[i] in keys;
    }
    forall h | h in index && |index[h]| > 1 ensures index[h] in groups {
      var i :| 0 <= i < |keys| && keys[i] == h;
      assert groups[i] == index[h];
    }
    assert (set h | h in index && |index[h]| > 1) == (set x | x in keys);
    DistinctCardinality(keys);
  }

  /** When a single bucket holds more than one path, it is the only group,
      whatever the iteration order. */
  lemma OneDuplicateBucket(index: Index, order: seq<Digest>, h: Digest)
    requires IsIterationOrder(order, index)
    requires h in index && |index[h]| > 1
    requires forall k | k in index && k != h :: |index[k]| <= 1
    ensures DuplicateGroups(index, order) == [index[h]]
  {
    var groups := DuplicateGroups(index, order);
    DuplicateGroupsExact(index, order);
    assert (set k | k in index && |index[k]| > 1) == {h};
    var k :| k in index && |index[k]| > 1 && groups[0] == index[k];
  }
}
