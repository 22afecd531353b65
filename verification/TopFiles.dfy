/** DiskHound's streaming list of the largest files (`_record_file`). */
module TopFiles {
  import opened Basics
  import opened Ordering
  import opened Sorting

  // `path` is the path's file-system bytes, its sort key.
  datatype FileResult = FileResult(path: Key, logicalBytes: int, allocatedBytes: int)

  type SizeKey = (int, Key)

  function KeyOf(f: FileResult): SizeKey {
    (-f.logicalBytes, f.path)
  }

  /** Python's tuple order on (-size, path). */
  predicate Before(a: SizeKey, b: SizeKey) {
    a.0 < b.0 || (a.0 == b.0 && Less(a.1, b.1))
  }

  lemma BeforeIsOrder(a: SizeKey, b: SizeKey, c: SizeKey)
    ensures !(Before(a, b) && Before(b, a)) && !Before(a, a)
    ensures Before(a, b) || Before(b, a) || a == b
    ensures Before(a, b) && !Before(c, b) ==> Before(a, c)
    ensures !Before(b, a) && Before(b, c) ==> Before(a, c)
    ensures !Before(b, a) && !Before(c, b) ==> !Before(c, a)
  {
    LessIsTotal(a.1, b.1);
    LessIsTotal(b.1, c.1);
    LessIsTotal(a.1, c.1);
    if Less(a.1, b.1) && Less(b.1, c.1) { LessIsTransitive(a.1, b.1, c.1); }
    if Less(c.1, b.1) && Less(b.1, a.1) { LessIsTransitive(c.1, b.1, a.1); }
    if Less(c.1, a.1) && Less(a.1, b.1) { LessIsTransitive(c.1, a.1, b.1); }
    if Less(b.1, c.1) && Less(c.1, a.1) { LessIsTransitive(b.1, c.1, a.1); }
  }

  // ----- the specification: sort everything recorded, keep the first `top`

  predicate FileBefore(f: FileResult, g: FileResult) {
    Before(KeyOf(f), KeyOf(g))
  }

  function InsertFile(f: FileResult, files: seq<FileResult>): seq<FileResult> {
    InsertBy(FileBefore, f, files)
  }

  /** All recorded files by (-size, path), earlier recordings first among equals. */
  function Ranked(recorded: seq<FileResult>): seq<FileResult> {
    SortBy(FileBefore, recorded)
  }

  ghost predicate InRank(files: seq<FileResult>) {
    InOrder(FileBefore, files)
  }

  /** Inserting after every file that does not come later is insertion at that index. */
  lemma {:induction false} InsertAt(f: FileResult, files: seq<FileResult>, k: nat)
    requires k <= |files|
    requires forall i | 0 <= i < k :: !Before(KeyOf(f), KeyOf(files[i]))
    requires k < |files| ==> Before(KeyOf(f), KeyOf(files[k]))
    ensures InsertFile(f, files) == files[..k] + [f] + files[k..]
  {
    if k > 0 {
      forall i | 0 <= i < k - 1 ensures !Before(KeyOf(f), KeyOf(files[1..][i])) {
        assert files[1..][i] == files[i + 1];
      }
      InsertAt(f, files[1..], k - 1);
      assert files[..k] == [files[0]] + files[1..][..k - 1];
    }
  }

  lemma FilesAreOrdered()
    ensures WeakOrder(FileBefore)
  {
    hide Before;
    forall x, y, z ensures FileBefore(x, y) ==> !FileBefore(y, x) && (FileBefore(x, z) || FileBefore(z, y)) {
      BeforeIsOrder(KeyOf(x), KeyOf(y), KeyOf(z));
    }
  }

  /** `Ranked` sorts: in order, and the same files. */
  lemma RankedSorts(recorded: seq<FileResult>)
    ensures InRank(Ranked(recorded)) && multiset(Ranked(recorded)) == multiset(recorded)
  {
    FilesAreOrdered();
    SortSorts(FileBefore, recorded);
    SortPermutes(FileBefore, recorded);
  }

  /** Only the kept files matter for what is kept next. */
  lemma {:induction false} TakeInsert(f: FileResult, files: seq<FileResult>, n: nat)
    ensures Take(InsertFile(f, files), n) == Take(InsertFile(f, Take(files, n)), n)
  {
    if n > 0 && files != [] && !Before(KeyOf(f), KeyOf(files[0])) {
      TakeInsert(f, files[1..], n - 1);
      assert Take(files, n) == [files[0]] + Take(files[1..], n - 1);
      assert Take(InsertFile(f, files), n) == [files[0]] + Take(InsertFile(f, files[1..]), n - 1);
    }
  }

  /** A file that comes after the last kept one changes nothing: why the cheap filter is safe. */
  lemma FilteredIsDiscarded(f: FileResult, files: seq<FileResult>, n: nat)
    requires InRank(files) && n >= 1 && |files| >= n && !Before(KeyOf(f), KeyOf(files[n - 1]))
    ensures Take(InsertFile(f, files), n) == Take(files, n)
  {
    var kept := Take(files, n);
    forall i | 0 <= i < n ensures !Before(KeyOf(f), KeyOf(kept[i])) {
      BeforeIsOrder(KeyOf(files[i]), KeyOf(files[n - 1]), KeyOf(f));
    }
    InsertAt(f, kept, n);
    TakeInsert(f, files, n);
    assert kept[..n] == kept;
    assert InsertFile(f, kept) == kept + [f];
  }

  // ----- what the first `top` of a ranking are

  /** No smaller than the other file, and of two files of one size not the later one by path. */
  predicate NotAfter(f: FileResult, g: FileResult) {
    f.logicalBytes > g.logicalBytes || (f.logicalBytes == g.logicalBytes && !Less(g.path, f.path))
  }

  /** `top` of the recorded files, or all, from the largest down; none of the others is larger than one of them. */
  ghost predicate AreLargest(files: seq<FileResult>, recorded: seq<FileResult>, top: nat) {
    && |files| == Smaller(top, |recorded|)
    && (forall i, j | 0 <= i < j < |files| :: NotAfter(files[i], files[j]))
    && exists others: seq<FileResult> ::
         && multiset(files) + multiset(others) == multiset(recorded)
         && forall f, g | f in files && g in others :: NotAfter(f, g)
  }

  lemma RankingDescends(recorded: seq<FileResult>)
    ensures
      var ranked := Ranked(recorded);
      && multiset(ranked) == multiset(recorded) && |ranked| == |recorded|
      && forall i, j | 0 <= i < j < |ranked| :: NotAfter(ranked[i], ranked[j])
  {
    var ranked := Ranked(recorded);
    RankedSorts(recorded);
    assert |ranked| == |multiset(ranked)| == |multiset(recorded)| == |recorded|;
    hide Ranked;
    forall i, j | 0 <= i < j < |ranked| ensures NotAfter(ranked[i], ranked[j]) {
      assert !FileBefore(ranked[j], ranked[i]);
    }
  }

  lemma TopIsLargest(recorded: seq<FileResult>, top: nat)
    ensures AreLargest(Take(Ranked(recorded), top), recorded, top)
  {
    RankingDescends(recorded);
    hide Ranked, NotAfter;
    var ranked, files := Ranked(recorded), Take(Ranked(recorded), top);
    var others := ranked[|files|..];
    assert ranked == files + others;
    forall f, g | f in files && g in others ensures NotAfter(f, g) {
      var i :| 0 <= i < |files| && files[i] == f;
      var j :| 0 <= j < |others| && others[j] == g;
      assert ranked[i] == f && ranked[|files| + j] == g;
    }
    assert multiset(files) + multiset(others) == multiset(ranked);
  }

  // ----- the two lists changed in place

  ghost predicate Parallel(keys: seq<SizeKey>, files: seq<FileResult>) {
    |keys| == |files| && forall i | 0 <= i < |files| :: keys[i] == KeyOf(files[i])
  }

  lemma KeysInserted(keys: seq<SizeKey>, files: seq<FileResult>, f: FileResult, k: nat)
    requires Parallel(keys, files) && k <= |files|
    ensures Parallel(keys[..k] + [KeyOf(f)] + keys[k..], files[..k] + [f] + files[k..])
  {}

  class Largest {
    const top: nat
    var keys: seq<SizeKey>
    var files: seq<FileResult>
    ghost var recorded: seq<FileResult>

    /** The lists are parallel and hold the first `top` of everything recorded. */
    ghost predicate Valid()
      reads this
    {
      && top >= 1
      && files == Take(Ranked(recorded), top)
      && Parallel(keys, files)
    }

    constructor (top: nat)
      requires top >= 1
      ensures Valid() && recorded == [] && this.top == top
    {
      this.top := top;
      keys, files, recorded := [], [], [];
    }

    /** `bisect.bisect_right`. */
    method BisectRight(key: SizeKey) returns (k: nat)
      requires Valid()
      ensures k <= |keys|
      ensures forall i | 0 <= i < k :: !Before(key, keys[i])
      ensures forall i | k <= i < |keys| :: Before(key, keys[i])
    {
      RankedSorts(recorded);
      var lo, hi := 0, |keys|;
      while lo < hi
        invariant 0 <= lo <= hi <= |keys|
        invariant forall i | 0 <= i < lo :: !Before(key, keys[i])
        invariant forall i | hi <= i < |keys| :: Before(key, keys[i])
      {
        var mid := (lo + hi) / 2;
        if Before(key, keys[mid]) {
          forall i | mid <= i < hi ensures Before(key, keys[i]) {
            BeforeIsOrder(key, keys[mid], keys[i]);
            assert i > mid ==> !Before(KeyOf(Ranked(recorded)[i]), KeyOf(Ranked(recorded)[mid]));
          }
          hi := mid;
        } else {
          forall i | lo <= i <= mid ensures !Before(key, keys[i]) {
            BeforeIsOrder(keys[i], keys[mid], key);
            assert i < mid ==> !Before(KeyOf(Ranked(recorded)[mid]), KeyOf(Ranked(recorded)[i]));
          }
          lo := mid + 1;
        }
      }
      k := lo;
    }

    /** The ranking part of `_record_file`. */
    method Record(f: FileResult)
      requires Valid()
      modifies this
      ensures Valid() && recorded == old(recorded) + [f]
      ensures AreLargest(files, recorded, top)
    {
      TopIsLargest(recorded + [f], top);
      hide AreLargest;
      ghost var ranked := Ranked(recorded);
      RankedSorts(recorded);
      RankedSnoc(recorded, f);
      TakeInsert(f, ranked, top);
      hide InsertFile, Ranked, InRank, FileBefore;
      var key := KeyOf(f);
      if |keys| < top || (key.0 <= keys[|keys| - 1].0 && Before(key, keys[|keys| - 1])) {
        InsertSorted(f);
      } else {
        FilteredIsDiscarded(f, ranked, top);
      }
      recorded := recorded + [f];
    }

    method InsertSorted(f: FileResult)
      requires Valid()
      modifies `keys, `files
      ensures files == Take(InsertFile(f, old(files)), top)
      ensures Parallel(keys, files)
    {
      var k := BisectRight(KeyOf(f));
      InsertAt(f, files, k);
      KeysInserted(keys, files, f, k);
      hide Largest.Valid, Ranked;
      keys := keys[..k] + [KeyOf(f)] + keys[k..];
      files := files[..k] + [f] + files[k..];
      assert Parallel(keys, files);
      if |keys| > top {
        keys := keys[..|keys| - 1];
        files := files[..|files| - 1];
      }
    }
  }

  lemma RankedSnoc(recorded: seq<FileResult>, f: FileResult)
    ensures Ranked(recorded + [f]) == InsertFile(f, Ranked(recorded))
  {
    assert (recorded + [f])[..|recorded|] == recorded;
  }
}
