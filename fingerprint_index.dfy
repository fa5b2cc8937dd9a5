/**
 * The fingerprint index built by `scan_directory` (src/main.rs:21-36).
 *
 * The recursive walk is taken as its output: a sequence of walk items in
 * discovery order. Reading a file and digesting its bytes is taken as a
 * parameter `digest`, an uninterpreted function from content to digest; a
 * failed open or read is recorded in the item itself.
 */
module FingerprintIndex {
  import opened Wrappers

  type Path = string
  type Digest = string
  type Content = seq<bv8>

  /** One item of the walk. `read` is what opening the file and reading it
      to the end produced: its bytes, or None when either step failed. */
  datatype WalkItem =
    | WalkError
    | NotAFile(path: Path)
    | File(path: Path, read: Option<Content>)

  /** The map from digest to the paths that produced it. */
  type Index = map<Digest, seq<Path>>

  /** `calculate_hash`: the digest of the bytes read, or the read failure. */
  function CalculateHash(read: Option<Content>, digest: Content -> Digest): (r: Option<Digest>)
    ensures r.Some? <==> read.Some?
  {
    match read
    case Some(c) => Some(digest(c))
    case None => None
  }

  /** The scan hashes `item` as path `p` with digest `h`. */
  predicate HashedAs(item: WalkItem, digest: Content -> Digest, p: Path, h: Digest) {
    item.File? && item.path == p && CalculateHash(item.read, digest) == Some(h)
  }

  /** No path is yielded twice by the walk. */
  predicate DistinctPaths(items: seq<WalkItem>) {
    forall i, j | 0 <= i < j < |items| && !items[i].WalkError? && !items[j].WalkError? ::
      items[i].path != items[j].path
  }

  /** The files the scan hashed, with their digests, in discovery order. */
  function Hashed(items: seq<WalkItem>, digest: Content -> Digest): seq<(Path, Digest)> {
    if items == [] then []
    else Hashed(items[..|items| - 1], digest) + HashOf(items[|items| - 1], digest)
  }

  /** What one item contributes to the hashed files: its path and digest
      when it is a regular file that reads, nothing otherwise. */
  function HashOf(item: WalkItem, digest: Content -> Digest): seq<(Path, Digest)> {
    if item.File? then
      match CalculateHash(item.read, digest)
      case Some(h) => [(item.path, h)]
      case None => []
    else []
  }

  /** The paths hashed to `h`, in the order of `hs`. */
  function Bucket(hs: seq<(Path, Digest)>, h: Digest): seq<Path> {
    if hs == [] then []
    else Bucket(hs[..|hs| - 1], h) + (if hs[|hs| - 1].1 == h then [hs[|hs| - 1].0] else [])
  }

  function Digests(hs: seq<(Path, Digest)>): set<Digest> {
    set x | x in hs :: x.1
  }

  /** Group by digest, keeping order: the reference definition of the index. */
  function GroupBy(hs: seq<(Path, Digest)>): Index {
    map h | h in Digests(hs) :: Bucket(hs, h)
  }

  /** The index the scan of `items` produces. */
  function Fingerprints(items: seq<WalkItem>, digest: Content -> Digest): Index {
    GroupBy(Hashed(items, digest))
  }

  /** `entry(hash).or_insert(Vec::new()).push(path)`. */
  function Insert(m: Index, h: Digest, p: Path): (r: Index)
    ensures r.Keys == m.Keys + {h}
    ensures forall k | k in m && k != h :: r[k] == m[k]
    ensures |r[h]| > 0 && r[h][|r[h]| - 1] == p && r[h][..|r[h]| - 1] == (if h in m then m[h] else [])
  {
    m[h := (if h in m then m[h] else []) + [p]]
  }

  /** A root that does not exist makes the walk yield one error and
      nothing else; the scan still succeeds, with an empty index. */
  lemma MissingRootIsEmpty(digest: Content -> Digest)
    ensures Fingerprints([WalkError], digest) == map[]
  {
    assert Hashed([WalkError], digest) == [] by {
      assert [WalkError][..0] == [];
    }
  }

  /** The number of paths over all buckets. */
  ghost function TotalSize(m: Index): nat
    decreases |m|
  {
    if m == map[] then 0
    else
      var h :| h in m;
      assert (m - {h}).Keys < m.Keys;
      |m[h]| + TotalSize(m - {h})
  }

  /** `scan_directory`: walk the items in order, hash every regular file,
      skip walk errors, non-files and files that fail to read, and append
      each hashed path to the bucket of its digest. It never fails. */
  method ScanDirectory(items: seq<WalkItem>, digest: Content -> Digest) returns (r: Result<Index, string>)
    ensures r == Ok(Fingerprints(items, digest))
  {
    var fileHashMap: Index := map[];
    var i := 0;
    while i < |items|
      invariant 0 <= i <= |items|
      invariant fileHashMap == Fingerprints(items[..i], digest)
    {
      var entry := items[i];
      assert items[..i + 1] == items[..i] + [entry];
      ScanStep(items[..i], entry, digest);
      if entry.File? {
        var filePath := entry.path;
        match CalculateHash(entry.read, digest)
        case Some(hash) =>
          fileHashMap := Insert(fileHashMap, hash, filePath);
        case None =>
      }
      i := i + 1;
    }
    assert items[..i] == items;
    return Ok(fileHashMap);
  }

  /** One step of the scan: a regular file that hashes is inserted under
      its digest; any other item leaves the index as it was. */
  lemma ScanStep(prefix: seq<WalkItem>, item: WalkItem, digest: Content -> Digest)
    ensures Fingerprints(prefix + [item], digest) ==
            if item.File? && item.read.Some? then
              Insert(Fingerprints(prefix, digest), digest(item.read.value), item.path)
            else Fingerprints(prefix, digest)
  {
    var items := prefix + [item];
    assert items[..|items| - 1] == prefix;
    assert Hashed(items, digest) == Hashed(prefix, digest) + HashOf(item, digest);
    if item.File? && item.read.Some? {
      GroupByAppend(Hashed(prefix, digest), item.path, digest(item.read.value));
    } else {
      assert HashOf(item, digest) == [];
      assert Hashed(prefix, digest) + [] == Hashed(prefix, digest);
    }
  }

  /** A path is in bucket `h` exactly when it was hashed to `h`. */
  lemma {:induction false} BucketMembers(hs: seq<(Path, Digest)>, h: Digest, p: Path)
    ensures p in Bucket(hs, h) <==> (p, h) in hs
  {
    if hs != [] {
      var init := hs[..|hs| - 1];
      BucketMembers(init, h, p);
      assert hs == init + [hs[|hs| - 1]];
    }
  }

  /** Hashing one more file appends its path to the bucket of its digest and
      leaves every other bucket as it was. */
  lemma GroupByAppend(hs: seq<(Path, Digest)>, p: Path, h: Digest)
    ensures GroupBy(hs + [(p, h)]) == Insert(GroupBy(hs), h, p)
  {
    var hs' := hs + [(p, h)];
    assert hs'[..|hs'| - 1] == hs;
    forall k ensures k in Digests(hs') <==> k in Digests(hs) + {h} {
      if k in Digests(hs') {
        var x :| x in hs' && x.1 == k;
      }
      if k in Digests(hs) {
        var x :| x in hs && x.1 == k;
        assert x in hs';
      }
      if k == h {
        assert (p, h) in hs';
      }
    }
    var m, m' := GroupBy(hs), Insert(GroupBy(hs), h, p);
    forall k | k in Digests(hs') ensures GroupBy(hs')[k] == m'[k] {
      assert GroupBy(hs')[k] == Bucket(hs, k) + (if k == h then [p] else []);
      if k == h && h !in m && Bucket(hs, h) != [] {
        BucketMembers(hs, h, Bucket(hs, h)[0]);
      }
    }
  }

  /** One more item adds what that item contributes at the end. */
  lemma HashedSnoc(items: seq<WalkItem>, item: WalkItem, digest: Content -> Digest)
    ensures Hashed(items + [item], digest) == Hashed(items, digest) + HashOf(item, digest)
  {
    assert (items + [item])[..|items|] == items;
  }

  /** The hashed files of a concatenated walk are those of each part, in turn. */
  lemma {:induction false} HashedConcat(a: seq<WalkItem>, b: seq<WalkItem>, digest: Content -> Digest)
    ensures Hashed(a + b, digest) == Hashed(a, digest) + Hashed(b, digest)
  {
    if b == [] {
      assert a + b == a;
    } else {
      var n := |b| - 1;
      assert a + b == (a + b[..n]) + [b[n]];
      assert b == b[..n] + [b[n]];
      HashedSnoc(a + b[..n], b[n], digest);
      HashedSnoc(b[..n], b[n], digest);
      HashedConcat(a, b[..n], digest);
    }
  }

  /** A pair is among the hashed files exactly when some item of the walk
      is a regular file with that path whose content has that digest. */
  lemma {:induction false} HashedMembers(items: seq<WalkItem>, digest: Content -> Digest, p: Path, h: Digest)
    ensures (p, h) in Hashed(items, digest) <==>
            exists i | 0 <= i < |items| :: HashedAs(items[i], digest, p, h)
  {
    if items != [] {
      var n := |items| - 1;
      HashedMembers(items[..n], digest, p, h);
      if exists i | 0 <= i < |items| :: HashedAs(items[i], digest, p, h) {
        var i :| 0 <= i < |items| && HashedAs(items[i], digest, p, h);
        if i < n {
          assert HashedAs(items[..n][i], digest, p, h);
        }
      }
      if exists i | 0 <= i < n :: HashedAs(items[..n][i], digest, p, h) {
        var i :| 0 <= i < n && HashedAs(items[..n][i], digest, p, h);
        assert HashedAs(items[i], digest, p, h);
      }
    }
  }

  /** The scan result, bucket by bucket: `p` is listed under `h` exactly when
      a regular file of the walk has path `p` and its content digests to `h`;
      a file that failed to read is therefore listed nowhere, and no bucket is
      empty. */
  lemma ScanIndexContents(items: seq<WalkItem>, digest: Content -> Digest, p: Path, h: Digest)
    ensures (h in Fingerprints(items, digest) && p in Fingerprints(items, digest)[h]) <==>
            exists i | 0 <= i < |items| :: HashedAs(items[i], digest, p, h)
    ensures h in Fingerprints(items, digest) ==> Fingerprints(items, digest)[h] != []
  {
    var hs := Hashed(items, digest);
    HashedMembers(items, digest, p, h);
    BucketMembers(hs, h, p);
    if (p, h) in hs {
      assert h in Digests(hs);
    }
    if h in Digests(hs) {
      var x :| x in hs && x.1 == h;
      BucketMembers(hs, h, x.0);
    }
  }

  /** A walk error, a non-file or a file that fails to read adds nothing:
      the scan goes on with the next item as if it had not been there. */
  lemma SkippedItemAddsNothing(before: seq<WalkItem>, item: WalkItem, after: seq<WalkItem>, digest: Content -> Digest)
    requires !item.File? || item.read.None?
    ensures Fingerprints(before + [item] + after, digest) == Fingerprints(before + after, digest)
  {
    assert Hashed([item], digest) == [] by {
      assert [item][..0] == [];
    }
    calc {
      Hashed(before + [item] + after, digest);
      { HashedConcat(before + [item], after, digest); }
      Hashed(before + [item], digest) + Hashed(after, digest);
      { HashedConcat(before, [item], digest); }
      Hashed(before, digest) + Hashed(after, digest);
      { HashedConcat(before, after, digest); }
      Hashed(before + after, digest);
    }
  }

  /** The bucket sizes of any map: removing one bucket subtracts its size. */
  lemma {:induction false} TotalSizeRemove(m: Index, h: Digest)
    requires h in m
    ensures TotalSize(m) == |m[h]| + TotalSize(m - {h})
    decreases |m|
  {
    var k :| k in m && TotalSize(m) == |m[k]| + TotalSize(m - {k});
    if k != h {
      assert (m - {k}).Keys < m.Keys;
      assert (m - {h}).Keys < m.Keys;
      TotalSizeRemove(m - {k}, h);
      TotalSizeRemove(m - {h}, k);
      assert m - {k} - {h} == m - {h} - {k};
    }
  }

  /** Inserting a path adds one to the total size. */
  lemma TotalSizeInsert(m: Index, h: Digest, p: Path)
    ensures TotalSize(Insert(m, h, p)) == TotalSize(m) + 1
  {
    var m' := Insert(m, h, p);
    TotalSizeRemove(m', h);
    if h in m {
      TotalSizeRemove(m, h);
      assert m' - {h} == m - {h};
    } else {
      assert m' - {h} == m;
    }
  }

  /** The bucket sizes add up to the number of files hashed. */
  lemma {:induction false} BucketSizesSum(hs: seq<(Path, Digest)>)
    ensures TotalSize(GroupBy(hs)) == |hs|
  {
    if hs == [] {
      assert GroupBy(hs) == map[];
    } else {
      var init := hs[..|hs| - 1];
      var x := hs[|hs| - 1];
      assert hs == init + [(x.0, x.1)];
      BucketSizesSum(init);
      GroupByAppend(init, x.0, x.1);
      TotalSizeInsert(GroupBy(init), x.1, x.0);
    }
  }

  /** The scan's buckets together hold exactly as many paths as files were hashed. */
  lemma ScanSizes(items: seq<WalkItem>, digest: Content -> Digest)
    ensures TotalSize(Fingerprints(items, digest)) == |Hashed(items, digest)|
  {
    BucketSizesSum(Hashed(items, digest));
  }

  /** Items hashed earlier come earlier in the hashed files. */
  lemma {:induction false} HashedInOrder(items: seq<WalkItem>, digest: Content -> Digest, i: nat, j: nat, p: Path, q: Path, h: Digest, k: Digest)
    requires i < j < |items|
    requires HashedAs(items[i], digest, p, h) && HashedAs(items[j], digest, q, k)
    ensures exists a, b | 0 <= a < b < |Hashed(items, digest)| ::
              Hashed(items, digest)[a] == (p, h) && Hashed(items, digest)[b] == (q, k)
  {
    var n := |items| - 1;
    var init := items[..n];
    var hs := Hashed(items, digest);
    assert HashedAs(init[i], digest, p, h);
    if j == n {
      HashedMembers(init, digest, p, h);
      var a :| 0 <= a < |Hashed(init, digest)| && Hashed(init, digest)[a] == (p, h);
      assert hs == Hashed(init, digest) + [(q, k)];
      assert hs[a] == (p, h) && hs[|hs| - 1] == (q, k);
    } else {
      assert HashedAs(init[j], digest, q, k);
      HashedInOrder(init, digest, i, j, p, q, h, k);
      var a, b :| 0 <= a < b < |Hashed(init, digest)| &&
                  Hashed(init, digest)[a] == (p, h) && Hashed(init, digest)[b] == (q, k);
      assert hs[a] == (p, h) && hs[b] == (q, k);
    }
  }

  /** A bucket keeps the order of the hashed files. */
  lemma {:induction false} BucketInOrder(hs: seq<(Path, Digest)>, h: Digest, a: nat, b: nat)
    requires a < b < |hs| && hs[a].1 == h && hs[b].1 == h
    ensures exists x, y | 0 <= x < y < |Bucket(hs, h)| ::
              Bucket(hs, h)[x] == hs[a].0 && Bucket(hs, h)[y] == hs[b].0
  {
    var n := |hs| - 1;
    var init := hs[..n];
    var bucket := Bucket(hs, h);
    if b == n {
      BucketMembers(init, h, hs[a].0);
      assert init[a] == (hs[a].0, h);
      var x :| 0 <= x < |Bucket(init, h)| && Bucket(init, h)[x] == hs[a].0;
      assert bucket == Bucket(init, h) + [hs[b].0];
      assert bucket[x] == hs[a].0 && bucket[|bucket| - 1] == hs[b].0;
    } else {
      BucketInOrder(init, h, a, b);
      var x, y :| 0 <= x < y < |Bucket(init, h)| &&
                  Bucket(init, h)[x] == hs[a].0 && Bucket(init, h)[y] == hs[b].0;
      assert bucket[x] == hs[a].0 && bucket[y] == hs[b].0;
    }
  }

  /** Discovery order: of two files hashed to the same digest, the one the
      walk yielded first comes first in the bucket. */
  lemma DiscoveryOrder(items: seq<WalkItem>, digest: Content -> Digest, i: nat, j: nat, p: Path, q: Path, h: Digest)
    requires i < j < |items|
    requires HashedAs(items[i], digest, p, h) && HashedAs(items[j], digest, q, h)
    ensures h in Fingerprints(items, digest)
    ensures exists x, y | 0 <= x < y < |Fingerprints(items, digest)[h]| ::
              Fingerprints(items, digest)[h][x] == p && Fingerprints(items, digest)[h][y] == q
  {
    var hs := Hashed(items, digest);
    HashedInOrder(items, digest, i, j, p, q, h, h);
    var a, b :| 0 <= a < b < |hs| && hs[a] == (p, h) && hs[b] == (q, h);
    assert hs[a] in hs;
    BucketInOrder(hs, h, a, b);
  }

  /** When the walk yields no path twice, neither do the hashed files. */
  lemma {:induction false} HashedDistinct(items: seq<WalkItem>, digest: Content -> Digest)
    requires DistinctPaths(items)
    ensures forall a, b | 0 <= a < b < |Hashed(items, digest)| ::
              Hashed(items, digest)[a].0 != Hashed(items, digest)[b].0
  {
    if items != [] {
      var n := |items| - 1;
      var init := items[..n];
      assert DistinctPaths(init) by {
        forall i, j | 0 <= i < j < |init| && !init[i].WalkError? && !init[j].WalkError?
          ensures init[i].path != init[j].path
        {
          assert init[i] == items[i] && init[j] == items[j];
        }
      }
      HashedDistinct(init, digest);
      var hs, hs0 := Hashed(items, digest), Hashed(init, digest);
      forall a, b | 0 <= a < b < |hs| ensures hs[a].0 != hs[b].0 {
        if b >= |hs0| {
          HashedMembers(init, digest, hs0[a].0, hs0[a].1);
          assert hs0[a] in hs0;
          var i :| 0 <= i < n && HashedAs(init[i], digest, hs0[a].0, hs0[a].1);
          assert items[i] == init[i];
        }
      }
    }
  }

  /** When the walk yields no path twice, no path is listed twice in the
      index: not twice in one bucket, and not in two buckets. */
  lemma DistinctPathsDisjointBuckets(items: seq<WalkItem>, digest: Content -> Digest)
    requires DistinctPaths(items)
    ensures var index := Fingerprints(items, digest);
            forall g, h, x, y | g in index && h in index && 0 <= x < |index[g]| && 0 <= y < |index[h]| &&
                                (g != h || x != y) ::
              index[g][x] != index[h][y]
  {
    var hs := Hashed(items, digest);
    HashedDistinct(items, digest);
    var index := Fingerprints(items, digest);
    forall g, h, x, y | g in index && h in index && 0 <= x < |index[g]| && 0 <= y < |index[h]| &&
                        index[g][x] == index[h][y]
      ensures g == h && x == y
    {
      var p := index[g][x];
      BucketMembers(hs, g, p);
      BucketMembers(hs, h, p);
      var a :| 0 <= a < |hs| && hs[a] == (p, g);
      var b :| 0 <= b < |hs| && hs[b] == (p, h);
      assert a == b;
      BucketDistinct(hs, g);
    }
  }

  /** A bucket of hashed files with distinct paths lists no path twice. */
  lemma {:induction false} BucketDistinct(hs: seq<(Path, Digest)>, h: Digest)
    requires forall a, b | 0 <= a < b < |hs| :: hs[a].0 != hs[b].0
    ensures Distinct(Bucket(hs, h))
  {
    if hs != [] {
      var n := |hs| - 1;
      var init := hs[..n];
      BucketDistinct(init, h);
      if hs[n].1 == h {
        var bucket := Bucket(hs, h);
        var b0 := Bucket(init, h);
        assert bucket == b0 + [hs[n].0];
        forall x | 0 <= x < |b0| ensures b0[x] != hs[n].0 {
          BucketMembers(init, h, b0[x]);
          var a :| 0 <= a < n && init[a] == (b0[x], h);
          assert hs[a].0 == b0[x];
        }
      }
    }
  }
}
