/** The hard cap on the total size of the backups. */
module SizeCap {
  import opened Retention

  datatype SizedFile = SizedFile(path: string, size: int, modified: int)

  function Total(files: seq<SizedFile>): int {
    if files == [] then 0 else files[0].size + Total(files[1..])
  }

  function Paths(files: seq<SizedFile>): (r: seq<string>)
    ensures |r| == |files| && forall i :: 0 <= i < |r| ==> r[i] == files[i].path
  {
    seq(|files|, i requires 0 <= i < |files| => files[i].path)
  }

  /** Oldest first. */
  ghost predicate OldestFirst(files: seq<SizedFile>) {
    forall i, j :: 0 <= i < j < |files| ==> files[i].modified <= files[j].modified
  }

  /** `n` is the length of the shortest prefix whose removal brings the total to the cap or below,
      or of the whole list when no prefix does. */
  ghost predicate Shortest(files: seq<SizedFile>, cap: int, n: nat) {
    n <= |files| && (Total(files[n..]) <= cap || n == |files|) &&
    forall m :: 0 <= m < n ==> Total(files[m..]) > cap
  }

  lemma {:induction false} TotalSplit(files: seq<SizedFile>, n: nat)
    requires n < |files|
    ensures Total(files[n..]) == files[n].size + Total(files[n + 1..])
  {
    assert files[n..][1..] == files[n + 1..];
  }

  lemma {:induction false} TotalPrefix(files: seq<SizedFile>, n: nat)
    requires n < |files|
    ensures Total(files[..n + 1]) == Total(files[..n]) + files[n].size
  {
    if n == 0 {
      assert files[..1][1..] == [] && files[..0] == [];
    } else {
      assert files[..n + 1][1..] == files[1..][..n] && files[..n][1..] == files[1..][..n - 1];
      TotalPrefix(files[1..], n - 1);
    }
  }

  lemma {:induction false} TotalOrderFree(s: seq<SizedFile>, t: seq<SizedFile>)
    requires multiset(s) == multiset(t)
    ensures Total(s) == Total(t)
    decreases |s|
  {
    if s != [] {
      var i := MatchHead(s, t);
      TotalOrderFree(s[1..], t[..i] + t[i + 1..]);
      TotalConcat(t[..i], t[i + 1..]);
      TotalConcat(t[..i], [t[i]] + t[i + 1..]);
      assert t[..i] + ([t[i]] + t[i + 1..]) == t;
      assert ([t[i]] + t[i + 1..])[1..] == t[i + 1..];
    }
  }

  lemma {:induction false} TotalConcat(s: seq<SizedFile>, t: seq<SizedFile>)
    ensures Total(s + t) == Total(s) + Total(t)
  {
    if s == [] {
      assert s + t == t;
    } else {
      assert (s + t)[1..] == s[1..] + t;
      TotalConcat(s[1..], t);
    }
  }

  /** The total is the sum of the sizes. */
  lemma TotalMeaning(files: seq<SizedFile>, f: SizedFile)
    ensures Total([]) == 0 && Total(files + [f]) == Total(files) + f.size
  {
    TotalConcat(files, [f]);
    assert [f][1..] == [];
  }

  /** The running total while the files are collected. */
  method TotalOf(files: array<SizedFile>) returns (total: int)
    ensures total == Total(files[..])
  {
    total := 0;
    ghost var all := files[..];
    for i := 0 to files.Length
      invariant total == Total(all[..i])
    {
      TotalPrefix(all, i);
      total := total + files[i].size;
    }
    assert all[..files.Length] == all;
  }

  /** The removal loop on the sorted files. */
  method RemoveOldest(files: seq<SizedFile>, total: int, cap: int, removable: string -> bool)
    returns (removed: seq<string>, left: int, failed: bool)
    requires total == Total(files)
    ensures |removed| <= |files| && removed == Paths(files[..|removed|])
    ensures left == Total(files[|removed|..])
    ensures !failed ==> Shortest(files, cap, |removed|)
    ensures failed ==> |removed| < |files| && !removable(files[|removed|].path)
  {
    hide Total, Paths;
    removed, left, failed := [], total, false;
    assert files[0..] == files && files[..0] == [];
    NoPaths();
    for i := 0 to |files|
      invariant removed == Paths(files[..i]) && left == Total(files[i..])
      invariant forall m :: 0 <= m < i ==> Total(files[m..]) > cap
    {
      if left <= cap { return; }
      if !removable(files[i].path) { return removed, left, true; }
      TotalSplit(files, i);
      PathsMore(files, i);
      removed := removed + [files[i].path];
      left := left - files[i].size;
    }
  }

  lemma NoPaths()
    ensures Paths([]) == []
  {
  }

  lemma PathsMore(files: seq<SizedFile>, n: nat)
    requires n < |files|
    ensures Paths(files[..n + 1]) == Paths(files[..n]) + [files[n].path]
  {
  }

  /** `enforceSizeCap` from the collected files on: `cap` is what `parseSizeCap` gave, and
      `removable` tells where removing a file succeeds. The files removed are the shortest oldest
      prefix that brings the total down to the cap, and the running total is the size of what is
      still there; a failed removal stops early. */
  method EnforceSizeCap(files: array<SizedFile>, cap: int, removable: string -> bool)
    returns (removed: seq<string>, left: int, failed: bool)
    modifies files
    ensures multiset(files[..]) == multiset(old(files[..]))
    ensures |removed| <= files.Length && removed == Paths(files[..|removed|])
    ensures left == Total(files[|removed|..])
    ensures removed != [] || failed ==> OldestFirst(files[..])
    ensures cap == 0 ==> removed == [] && !failed
    ensures cap != 0 && !failed ==> Shortest(files[..], cap, |removed|)
    ensures failed ==> |removed| < files.Length && !removable(files[|removed|].path)
  {
    ghost var given := files[..];
    left := TotalOf(files);
    assert files[0..] == files[..];
    if cap == 0 || left <= cap { return [], left, false; }
    ExchangeSort(files, (f: SizedFile) => -f.modified);
    ByAge(files[..]);
    TotalOrderFree(files[..], given);
    removed, left, failed := RemoveOldest(files[..], left, cap, removable);
    assert files[..][|removed|..] == files[|removed|..] && files[..][..|removed|] == files[..|removed|];
  }

  lemma ByAge(files: seq<SizedFile>)
    requires SortedBy(files, (f: SizedFile) => -f.modified)
    ensures OldestFirst(files)
  {
    forall i, j | 0 <= i < j < |files| ensures files[i].modified <= files[j].modified {
      var key := (f: SizedFile) => -f.modified;
      assert key(files[i]) >= key(files[j]);
    }
  }

  /** With sizes that are not negative, removing a longer prefix never leaves more. */
  lemma {:induction false} TotalShrinks(files: seq<SizedFile>, m: nat, n: nat)
    requires m <= n <= |files| && forall i :: 0 <= i < |files| ==> files[i].size >= 0
    ensures Total(files[n..]) <= Total(files[m..])
    decreases n - m
  {
    if m < n {
      TotalSplit(files, m);
      TotalShrinks(files, m + 1, n);
    }
  }

  /** With sizes and a cap that are not negative, the prefixes that meet the cap are exactly those at
      least as long as the shortest one; and no file that stays is older than one that goes. */
  lemma CapMet(files: seq<SizedFile>, cap: int, n: nat)
    requires Shortest(files, cap, n) && OldestFirst(files) && cap >= 0
    requires forall i :: 0 <= i < |files| ==> files[i].size >= 0
    ensures forall m :: 0 <= m <= |files| ==> (Total(files[m..]) <= cap <==> m >= n)
    ensures forall i, j :: 0 <= i < n <= j < |files| ==> files[i].modified <= files[j].modified
  {
    assert files[|files|..] == [];
    forall m | n <= m <= |files| ensures Total(files[m..]) <= cap {
      TotalShrinks(files, n, m);
    }
  }
}
