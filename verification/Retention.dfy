/** Backup retention: the exchange sort, the four marking passes, deletion, and the size cap. */
module Retention {
  import opened Text
  import opened Calendar

  // ---------- the exchange sort ----------

  /** Largest key first. */
  ghost predicate SortedBy<T>(s: seq<T>, key: T -> int) {
    forall i, j :: 0 <= i < j < |s| ==> key(s[i]) >= key(s[j])
  }

  /** The first `i` elements are in place: none of them has a smaller key than a later element. */
  ghost predicate Leads<T>(s: seq<T>, i: int, key: T -> int) {
    forall m, n :: 0 <= m < i && m < n < |s| ==> key(s[m]) >= key(s[n])
  }

  /** Element `i` has the largest key up to position `j`. */
  ghost predicate LargestUpTo<T>(s: seq<T>, i: int, j: int, key: T -> int)
    requires 0 <= i < |s|
  {
    forall n :: i < n < j && n < |s| ==> key(s[i]) >= key(s[n])
  }

  /** The same for the keys themselves. */
  ghost predicate NewestFirst(s: seq<int>) {
    forall i, j :: 0 <= i < j < |s| ==> s[i] >= s[j]
  }

  method Swap<T>(a: array<T>, i: int, j: int)
    requires 0 <= i < j < a.Length
    modifies a
    ensures a[..] == old(a[..])[i := old(a[j])][j := old(a[i])]
    ensures multiset(a[..]) == multiset(old(a[..]))
  {
    a[i], a[j] := a[j], a[i];
  }

  lemma SwapKeepsLead<T>(s: seq<T>, i: int, j: int, key: T -> int)
    requires 0 <= i < j < |s| && Leads(s, i, key) && LargestUpTo(s, i, j, key) && key(s[i]) < key(s[j])
    ensures var t := s[i := s[j]][j := s[i]]; Leads(t, i, key) && LargestUpTo(t, i, j + 1, key)
  {
  }

  /** The inner loop: the largest key from `i` on comes to `i`. */
  method BringLargest<T>(a: array<T>, i: int, key: T -> int)
    requires 0 <= i < a.Length && Leads(a[..], i, key)
    modifies a
    ensures Leads(a[..], i + 1, key) && multiset(a[..]) == multiset(old(a[..]))
  {
    hide Leads, LargestUpTo;
    NothingBetween(a[..], i, key);
    for j := i + 1 to a.Length
      invariant multiset(a[..]) == multiset(old(a[..]))
      invariant Leads(a[..], i, key) && LargestUpTo(a[..], i, j, key)
    {
      if key(a[i]) < key(a[j]) {
        SwapKeepsLead(a[..], i, j, key);
        Swap(a, i, j);
      } else {
        OneFurther(a[..], i, j, key);
      }
    }
    InPlace(a[..], i, key);
  }

  lemma NothingBetween<T>(s: seq<T>, i: int, key: T -> int)
    requires 0 <= i < |s|
    ensures LargestUpTo(s, i, i + 1, key)
  {
  }

  lemma OneFurther<T>(s: seq<T>, i: int, j: int, key: T -> int)
    requires 0 <= i < j < |s| && LargestUpTo(s, i, j, key) && key(s[i]) >= key(s[j])
    ensures LargestUpTo(s, i, j + 1, key)
  {
  }

  lemma InPlace<T>(s: seq<T>, i: int, key: T -> int)
    requires 0 <= i < |s| && Leads(s, i, key) && LargestUpTo(s, i, |s|, key)
    ensures Leads(s, i + 1, key)
  {
  }

  /** The hand-written sort of both loops over backups: whenever a later element has the larger
      key, the two change places. Ties may end up in any order. */
  method ExchangeSort<T>(a: array<T>, key: T -> int)
    modifies a
    ensures SortedBy(a[..], key) && multiset(a[..]) == multiset(old(a[..]))
  {
    for i := 0 to a.Length
      invariant multiset(a[..]) == multiset(old(a[..])) && Leads(a[..], i, key)
    {
      BringLargest(a, i, key);
    }
  }

  lemma MultisetTail(s: seq<int>)
    requires s != []
    ensures multiset(s[1..]) == multiset(s) - multiset{s[0]} && s[0] in multiset(s)
  {
    assert s == [s[0]] + s[1..];
  }

  lemma LargestFirst(s: seq<int>, x: int)
    requires NewestFirst(s) && x in multiset(s)
    ensures s[0] >= x
  {
    assert x in s;
  }

  lemma SortedTail(s: seq<int>)
    requires s != [] && NewestFirst(s)
    ensures NewestFirst(s[1..])
  {
    forall i, j | 0 <= i < j < |s[1..]| ensures s[1..][i] >= s[1..][j] {
      assert s[i + 1] >= s[j + 1];
    }
  }

  lemma SameHeads(s: seq<int>, t: seq<int>)
    requires s != [] && NewestFirst(s) && NewestFirst(t) && multiset(s) == multiset(t)
    ensures t != [] && s[0] == t[0] && multiset(s[1..]) == multiset(t[1..])
  {
    hide NewestFirst;
    MultisetTail(s);
    assert s[0] in t;
    MultisetTail(t);
    LargestFirst(s, t[0]);
    LargestFirst(t, s[0]);
  }

  /** A sorted arrangement of the same keys is unique, whatever the ties. */
  lemma {:induction false} SortedUnique(s: seq<int>, t: seq<int>)
    requires NewestFirst(s) && NewestFirst(t) && multiset(s) == multiset(t)
    ensures s == t
    decreases |s|
  {
    hide NewestFirst;
    if s != [] {
      SameHeads(s, t);
      SortedTail(s);
      SortedTail(t);
      SortedUnique(s[1..], t[1..]);
      assert s == [s[0]] + s[1..] && t == [t[0]] + t[1..];
    } else if t != [] {
      SameHeads(t, s);
    }
  }

  // ---------- tiers ----------

  /** The rule a backup is kept under. */
  datatype Tier = Unkept | Yearly | Monthly | Weekly | Daily

  datatype Quotas = Quotas(daily: int, weekly: int, monthly: int, yearly: int)

  function QuotaOf(q: Quotas, t: Tier): int {
    match t
    case Unkept => 0
    case Yearly => q.yearly
    case Monthly => q.monthly
    case Weekly => q.weekly
    case Daily => q.daily
  }

  /** A quota that is not positive keeps nothing. */
  function Room(q: Quotas, t: Tier): nat {
    if QuotaOf(q, t) < 0 then 0 else QuotaOf(q, t)
  }

  /** Yearly backups are those of 1 January, monthly ones of the first of a month, weekly ones of a
      Sunday; days are numbered by `Calendar`. */
  predicate Qualifies(t: Tier, day: int) {
    match t
    case Unkept => false
    case Yearly => DateOf(day).month == 1 && DateOf(day).day == 1
    case Monthly => DateOf(day).day == 1
    case Weekly => Weekday(DateOf(day)) == 0
    case Daily => true
  }

  /** What the tiers are, by dates: a day is a Sunday when its number leaves 6 by seven. */
  lemma TiersByDate(day: int)
    ensures Qualifies(Daily, day) && !Qualifies(Unkept, day)
    ensures Qualifies(Weekly, day) <==> day % 7 == 6
    ensures Qualifies(Monthly, day) <==>
      exists year, month :: 1 <= month <= 12 && day == DayNumber(Date(year, month, 1))
    ensures Qualifies(Yearly, day) <==> exists year :: day == DayNumber(Date(year, 1, 1))
  {
    hide DateOf, DayNumber;
    var date := DateOf(day);
    assert DayNumber(date) == day;
    forall year, month | 1 <= month <= 12 && day == DayNumber(Date(year, month, 1)) ensures date == Date(year, month, 1) {
      DateOfDayNumber(Date(year, month, 1));
    }
    if date.day == 1 { assert day == DayNumber(Date(date.year, date.month, 1)); }
    forall year | day == DayNumber(Date(year, 1, 1)) ensures date == Date(year, 1, 1) {
      DateOfDayNumber(Date(year, 1, 1));
    }
  }

  /** One marking pass, from the front, with `k` places left. */
  function Assign(days: seq<int>, tiers: seq<Tier>, t: Tier, k: int): (r: seq<Tier>)
    requires |days| == |tiers|
    ensures |r| == |days|
  {
    if days == [] then []
    else if tiers[0] == Unkept && Qualifies(t, days[0]) && k > 0 then
      [t] + Assign(days[1..], tiers[1..], t, k - 1)
    else [tiers[0]] + Assign(days[1..], tiers[1..], t, k)
  }

  function NoTiers(n: nat): (r: seq<Tier>)
    ensures |r| == n && forall i :: 0 <= i < n ==> r[i] == Unkept
  {
    seq(n, _ => Unkept)
  }

  /** The passes in their order: yearly before monthly before weekly before daily. */
  function Tiers(days: seq<int>, q: Quotas): (r: seq<Tier>)
    ensures |r| == |days|
  {
    var yearly := Assign(days, NoTiers(|days|), Yearly, q.yearly);
    var monthly := Assign(days, yearly, Monthly, q.monthly);
    var weekly := Assign(days, monthly, Weekly, q.weekly);
    Assign(days, weekly, Daily, q.daily)
  }

  // ---------- ApplyRetentionPolicy ----------

  datatype Backup = Backup(path: string, day: int, keep: bool)

  function DaysOf(s: seq<Backup>): (r: seq<int>)
    ensures |r| == |s| && forall i :: 0 <= i < |s| ==> r[i] == s[i].day
  {
    seq(|s|, i requires 0 <= i < |s| => s[i].day)
  }

  /** The keep flags say who has a tier. */
  ghost predicate FlagsShow(s: seq<Backup>, tiers: seq<Tier>) {
    |s| == |tiers| && forall i :: 0 <= i < |s| ==> (s[i].keep <==> tiers[i] != Unkept)
  }

  /** The pass at position `i`: what becomes of the element, and the places left after it. */
  lemma AssignStep(days: seq<int>, tiers: seq<Tier>, t: Tier, k: int, i: nat)
    requires |days| == |tiers| && i < |days|
    ensures var marks := tiers[i] == Unkept && Qualifies(t, days[i]) && k > 0;
      Assign(days[i..], tiers[i..], t, k) ==
        [if marks then t else tiers[i]] + Assign(days[i + 1..], tiers[i + 1..], t, if marks then k - 1 else k)
  {
    hide Qualifies;
    var d, r := days[i..], tiers[i..];
    assert d[0] == days[i] && r[0] == tiers[i] && d[1..] == days[i + 1..] && r[1..] == tiers[i + 1..];
  }

  /** The same, after what is done. */
  lemma PassStep(days: seq<int>, tiers: seq<Tier>, t: Tier, k: int, i: nat, done: seq<Tier>, after: seq<Tier>)
    requires |days| == |tiers| && i < |days| && after == done + Assign(days[i..], tiers[i..], t, k)
    ensures var marks := tiers[i] == Unkept && Qualifies(t, days[i]) && k > 0;
      after == done + [if marks then t else tiers[i]] +
        Assign(days[i + 1..], tiers[i + 1..], t, if marks then k - 1 else k)
  {
    hide Qualifies;
    var marks := tiers[i] == Unkept && Qualifies(t, days[i]) && k > 0;
    var rest := Assign(days[i + 1..], tiers[i + 1..], t, if marks then k - 1 else k);
    AssignStep(days, tiers, t, k, i);
    Regroup(done, if marks then t else tiers[i], rest);
  }

  lemma Regroup<T>(done: seq<T>, x: T, rest: seq<T>)
    ensures done + ([x] + rest) == done + [x] + rest
  {
  }

  /** One of the four marking loops: it goes through the backups in order and counts. */
  method MarkPass(a: array<Backup>, ghost tiers: seq<Tier>, t: Tier, quota: int) returns (ghost after: seq<Tier>)
    requires FlagsShow(a[..], tiers)
    requires t != Unkept
    modifies a
    ensures after == Assign(DaysOf(old(a[..])), tiers, t, quota) && FlagsShow(a[..], after)
    ensures forall i :: 0 <= i < a.Length ==> a[i].path == old(a[i].path) && a[i].day == old(a[i].day)
  {
    hide Qualifies, Assign, DaysOf;
    ghost var days := DaysOf(a[..]);
    after := Assign(days, tiers, t, quota);
    var count := 0;
    ghost var done: seq<Tier> := [];
    assert days[0..] == days && tiers[0..] == tiers;
    for i := 0 to a.Length
      invariant |done| == i && after == done + Assign(days[i..], tiers[i..], t, quota - count)
      invariant forall k :: 0 <= k < i ==> (a[k].keep <==> done[k] != Unkept)
      invariant forall k :: i <= k < a.Length ==> a[k] == old(a[k])
      invariant forall k :: 0 <= k < a.Length ==> a[k].path == old(a[k].path) && a[k].day == old(a[k].day)
    {
      PassStep(days, tiers, t, quota - count, i, done, after);
      assert days[i] == a[i].day && (a[i].keep <==> tiers[i] != Unkept);
      if !a[i].keep && Qualifies(t, a[i].day) && count < quota {
        a[i] := a[i].(keep := true);
        done := done + [t];
        count := count + 1;
      } else {
        done := done + [tiers[i]];
      }
    }
    assert days[a.Length..] == [] && done + [] == done;
    NothingLeft(tiers[a.Length..], t, quota - count);
  }

  lemma NothingLeft(tiers: seq<Tier>, t: Tier, k: int)
    requires tiers == []
    ensures Assign([], tiers, t, k) == []
  {
  }

  /** The paths of the backups that no tier keeps, in order. */
  function Unmarked(s: seq<Backup>): seq<string> {
    if s == [] then []
    else (if s[0].keep then [] else [s[0].path]) + Unmarked(s[1..])
  }

  /** They are the paths of the backups whose flag is not set, each as often as there are such. */
  lemma {:induction false} UnmarkedMeaning(s: seq<Backup>, p: string)
    ensures p in Unmarked(s) <==> exists i :: 0 <= i < |s| && s[i].path == p && !s[i].keep
    ensures |Unmarked(s)| + |Survivors(s)| == |s|
  {
    if s != [] {
      UnmarkedMeaning(s[1..], p);
      assert forall i :: 1 <= i < |s| ==> s[i] == s[1..][i - 1];
      if p in Unmarked(s[1..]) {
        var i :| 0 <= i < |s[1..]| && s[1..][i].path == p && !s[1..][i].keep;
        assert s[i + 1].path == p && !s[i + 1].keep;
      }
    }
  }

  /** The deletion loop; `removable` tells for which paths removing the file succeeds. The first
      failure ends it. */
  method DeleteUnmarked(s: seq<Backup>, removable: string -> bool) returns (removed: seq<string>, failed: bool)
    ensures !failed ==> removed == Unmarked(s)
    ensures failed ==> |removed| < |Unmarked(s)| && removed == Unmarked(s)[..|removed|]
    ensures failed ==> !removable(Unmarked(s)[|removed|])
    ensures forall i :: 0 <= i < |removed| ==> removable(removed[i])
  {
    hide Unmarked;
    removed := [];
    assert s[0..] == s;
    for i := 0 to |s|
      invariant Unmarked(s) == removed + Unmarked(s[i..])
      invariant forall k :: 0 <= k < |removed| ==> removable(removed[k])
    {
      UnmarkedNext(s, i);
      if !s[i].keep {
        if !removable(s[i].path) { return removed, true; }
        removed := removed + [s[i].path];
      }
    }
    assert s[|s|..] == [];
    NothingUnmarked();
    return removed, false;
  }

  lemma UnmarkedNext(s: seq<Backup>, i: nat)
    requires i < |s|
    ensures Unmarked(s[i..]) == (if s[i].keep then [] else [s[i].path]) + Unmarked(s[i + 1..])
  {
    assert s[i..][0] == s[i] && s[i..][1..] == s[i + 1..];
  }

  lemma NothingUnmarked()
    ensures Unmarked([]) == []
  {
  }

  /** `ApplyRetentionPolicy` from the list of backups on: sort in place, mark in place, delete. */
  method ApplyRetention(a: array<Backup>, q: Quotas, removable: string -> bool)
    returns (removed: seq<string>, failed: bool)
    requires forall i :: 0 <= i < a.Length ==> !a[i].keep
    modifies a
    ensures NewestFirst(DaysOf(a[..]))
    ensures multiset(Unflagged(a[..])) == multiset(old(a[..]))
    ensures FlagsShow(a[..], Tiers(DaysOf(a[..]), q))
    ensures !failed ==> removed == Unmarked(a[..])
    ensures failed ==> |removed| < |Unmarked(a[..])| && removed == Unmarked(a[..])[..|removed|]
  {
    ExchangeSort(a, (b: Backup) => b.day);
    ghost var sorted := a[..];
    AllIn(sorted, old(a[..]));
    ghost var tiers := NoTiers(a.Length);
    tiers := MarkPass(a, tiers, Yearly, q.yearly);
    assert DaysOf(a[..]) == DaysOf(sorted);
    tiers := MarkPass(a, tiers, Monthly, q.monthly);
    assert DaysOf(a[..]) == DaysOf(sorted);
    tiers := MarkPass(a, tiers, Weekly, q.weekly);
    assert DaysOf(a[..]) == DaysOf(sorted);
    tiers := MarkPass(a, tiers, Daily, q.daily);
    assert DaysOf(a[..]) == DaysOf(sorted);
    assert Unflagged(a[..]) == sorted;
    removed, failed := DeleteUnmarked(a[..], removable);
  }

  /** The backups without their flags. */
  function Unflagged(s: seq<Backup>): (r: seq<Backup>)
    ensures |r| == |s| && forall i :: 0 <= i < |s| ==> r[i] == s[i].(keep := false)
  {
    seq(|s|, i requires 0 <= i < |s| => s[i].(keep := false))
  }

  lemma AllIn(s: seq<Backup>, t: seq<Backup>)
    requires multiset(s) == multiset(t) && forall i :: 0 <= i < |t| ==> !t[i].keep
    ensures forall i :: 0 <= i < |s| ==> !s[i].keep
  {
    forall i | 0 <= i < |s| ensures !s[i].keep {
      assert s[i] in multiset(t);
      assert s[i] in t;
    }
  }

  // ---------- what the passes guarantee ----------

  function CountTier(tiers: seq<Tier>, t: Tier): nat {
    if tiers == [] then 0 else (if tiers[0] == t then 1 else 0) + CountTier(tiers[1..], t)
  }

  /** One pass: marks stay, new marks qualify, at most the quota is used, and whoever qualifies but
      stays without a tier comes after the full quota. */
  lemma {:induction false} AssignGreedy(days: seq<int>, tiers: seq<Tier>, t: Tier, k: int, i: nat)
    requires |days| == |tiers| && i < |days| && t != Unkept
    ensures var r := Assign(days, tiers, t, k);
      && (tiers[i] != Unkept ==> r[i] == tiers[i])
      && (r[i] != tiers[i] ==> r[i] == t && Qualifies(t, days[i]))
      && (r[i] == Unkept && Qualifies(t, days[i]) ==>
            CountTier(r[..i], t) == CountTier(tiers[..i], t) + if k < 0 then 0 else k)
  {
    hide Qualifies;
    var r := Assign(days, tiers, t, k);
    if i > 0 {
      var k' := if tiers[0] == Unkept && Qualifies(t, days[0]) && k > 0 then k - 1 else k;
      AssignGreedy(days[1..], tiers[1..], t, k', i - 1);
      assert r[..i][1..] == r[1..][..i - 1] && tiers[..i][1..] == tiers[1..][..i - 1];
      assert r[1..] == Assign(days[1..], tiers[1..], t, k');
    }
  }

  /** A pass leaves the counts of the other tiers alone and adds at most its quota to its own. */
  lemma {:induction false} AssignCounts(days: seq<int>, tiers: seq<Tier>, t: Tier, k: int, i: nat, u: Tier)
    requires |days| == |tiers| && i <= |days| && t != Unkept && u != Unkept
    ensures var r := Assign(days, tiers, t, k);
      && (u != t ==> CountTier(r[..i], u) == CountTier(tiers[..i], u))
      && CountTier(r[..i], t) <= CountTier(tiers[..i], t) + if k < 0 then 0 else k
  {
    hide Qualifies;
    var r := Assign(days, tiers, t, k);
    if i > 0 {
      var k' := if tiers[0] == Unkept && Qualifies(t, days[0]) && k > 0 then k - 1 else k;
      AssignCounts(days[1..], tiers[1..], t, k', i - 1, u);
      var rest := Assign(days[1..], tiers[1..], t, k');
      assert r == [r[0]] + rest;
      hide Assign;
      CountFront(r, i, t);
      CountFront(r, i, u);
      CountFront(tiers, i, t);
      CountFront(tiers, i, u);
    }
  }

  lemma CountFront(tiers: seq<Tier>, i: nat, t: Tier)
    requires 0 < i <= |tiers|
    ensures CountTier(tiers[..i], t) == (if tiers[0] == t then 1 else 0) + CountTier(tiers[1..][..i - 1], t)
  {
    assert tiers[..i][1..] == tiers[1..][..i - 1];
  }

  /** What a pass does at one place: the tier is given to a backup that has none and qualifies, as long as
      the pass has given out fewer than the quota before it. */
  lemma {:induction false} AssignAt(days: seq<int>, tiers: seq<Tier>, t: Tier, k: int, i: nat)
    requires |days| == |tiers| && i < |days| && t != Unkept
    ensures var r := Assign(days, tiers, t, k);
      r[i] == if tiers[i] == Unkept && Qualifies(t, days[i]) && CountTier(r[..i], t) - CountTier(tiers[..i], t) < k
              then t else tiers[i]
  {
    hide Qualifies;
    if i > 0 {
      var r := Assign(days, tiers, t, k);
      var k' := if tiers[0] == Unkept && Qualifies(t, days[0]) && k > 0 then k - 1 else k;
      var rest := Assign(days[1..], tiers[1..], t, k');
      AssignAt(days[1..], tiers[1..], t, k', i - 1);
      assert r == [r[0]] + rest && r[1..] == rest;
      hide Assign;
      CountFront(r, i, t);
      CountFront(tiers, i, t);
    }
  }

  /** The first of the tiers, from yearly to daily, that the day qualifies for and that is not yet full. */
  function FirstOpen(day: int, newer: seq<Tier>, q: Quotas): Tier {
    if Qualifies(Yearly, day) && CountTier(newer, Yearly) < q.yearly then Yearly
    else if Qualifies(Monthly, day) && CountTier(newer, Monthly) < q.monthly then Monthly
    else if Qualifies(Weekly, day) && CountTier(newer, Weekly) < q.weekly then Weekly
    else if CountTier(newer, Daily) < q.daily then Daily
    else Unkept
  }

  /** The four passes are one scan: going through the backups once, from the newest on, and giving each the
      first tier that is still open to it, gives the same. */
  lemma TierByTier(days: seq<int>, q: Quotas, i: nat)
    requires i < |days|
    ensures Tiers(days, q)[i] == FirstOpen(days[i], Tiers(days, q)[..i], q)
  {
    var none := NoTiers(|days|);
    var yearly := Assign(days, none, Yearly, q.yearly);
    var monthly := Assign(days, yearly, Monthly, q.monthly);
    var weekly := Assign(days, monthly, Weekly, q.weekly);
    PassOnly(days, none, Yearly, q.yearly, i);
    PassOnly(days, yearly, Monthly, q.monthly, i);
    PassOnly(days, monthly, Weekly, q.weekly, i);
    PassOnly(days, weekly, Daily, q.daily, i);
    NoTiersCount(|days|, i, Yearly);
    NoTiersCount(|days|, i, Monthly);
    NoTiersCount(|days|, i, Weekly);
    NoTiersCount(|days|, i, Daily);
    assert Qualifies(Daily, days[i]);
    hide Assign, Qualifies, CountTier, NoTiers;
  }

  /** A pass at one place, and the counts of the other tiers before it. */
  lemma PassOnly(days: seq<int>, tiers: seq<Tier>, t: Tier, k: int, i: nat)
    requires |days| == |tiers| && i < |days| && t != Unkept
    ensures var r := Assign(days, tiers, t, k);
      && (r[i] == if tiers[i] == Unkept && Qualifies(t, days[i]) && CountTier(r[..i], t) - CountTier(tiers[..i], t) < k
                  then t else tiers[i])
      && forall u :: u != t && u != Unkept ==> CountTier(r[..i], u) == CountTier(tiers[..i], u)
  {
    hide Assign, Qualifies, CountTier;
    AssignAt(days, tiers, t, k, i);
    forall u | u != t && u != Unkept
      ensures CountTier(Assign(days, tiers, t, k)[..i], u) == CountTier(tiers[..i], u)
    {
      AssignCounts(days, tiers, t, k, i, u);
    }
  }

  lemma {:induction false} NoTiersCount(n: nat, i: nat, t: Tier)
    requires i <= n && t != Unkept
    ensures CountTier(NoTiers(n)[..i], t) == 0
  {
    if i > 0 {
      assert NoTiers(n)[..i][1..] == NoTiers(n - 1)[..i - 1];
      NoTiersCount(n - 1, i - 1, t);
    }
  }

  /** Greedy-optimal: a backup that is not kept qualifies only for tiers whose quota is filled by
      backups before it, which qualify for the tier and, in a sorted list, are no older; no tier
      keeps more than its quota. */
  lemma RetentionGreedy(days: seq<int>, q: Quotas, i: nat, t: Tier)
    requires i < |days| && t != Unkept
    ensures var tiers := Tiers(days, q);
      && (tiers[i] == Unkept && Qualifies(t, days[i]) ==> CountTier(tiers[..i], t) == Room(q, t))
      && (tiers[i] == t ==> Qualifies(t, days[i]))
      && CountTier(tiers, t) <= Room(q, t)
  {
    hide Qualifies, Assign, CountTier;
    var n := |days|;
    var none := NoTiers(n);
    var yearly := Assign(days, none, Yearly, q.yearly);
    var monthly := Assign(days, yearly, Monthly, q.monthly);
    var weekly := Assign(days, monthly, Weekly, q.weekly);
    var tiers := Assign(days, weekly, Daily, q.daily);
    AssignGreedy(days, none, Yearly, q.yearly, i);
    AssignGreedy(days, yearly, Monthly, q.monthly, i);
    AssignGreedy(days, monthly, Weekly, q.weekly, i);
    AssignGreedy(days, weekly, Daily, q.daily, i);
    CountsThrough(days, q, i, t);
    CountsThrough(days, q, n, t);
    assert tiers[..n] == tiers;
  }

  /** Only its own pass changes a tier's count. */
  lemma CountsThrough(days: seq<int>, q: Quotas, i: nat, t: Tier)
    requires i <= |days| && t != Unkept
    ensures var none := NoTiers(|days|);
      var yearly := Assign(days, none, Yearly, q.yearly);
      var monthly := Assign(days, yearly, Monthly, q.monthly);
      var weekly := Assign(days, monthly, Weekly, q.weekly);
      var tiers := Assign(days, weekly, Daily, q.daily);
      && CountTier(none[..i], t) == 0
      && (t != Yearly ==> CountTier(yearly[..i], t) == 0)
      && (t != Yearly && t != Monthly ==> CountTier(monthly[..i], t) == 0)
      && (t == Daily ==> CountTier(weekly[..i], t) == 0)
      && (t == Yearly ==> CountTier(tiers[..i], t) == CountTier(yearly[..i], t))
      && (t == Monthly ==> CountTier(tiers[..i], t) == CountTier(monthly[..i], t))
      && (t == Weekly ==> CountTier(tiers[..i], t) == CountTier(weekly[..i], t))
      && CountTier(tiers[..i], t) <= Room(q, t)
  {
    hide Qualifies, Assign, CountTier;
    var none := NoTiers(|days|);
    var yearly := Assign(days, none, Yearly, q.yearly);
    var monthly := Assign(days, yearly, Monthly, q.monthly);
    var weekly := Assign(days, monthly, Weekly, q.weekly);
    NoTiersCount(|days|, i, t);
    AssignCounts(days, none, Yearly, q.yearly, i, t);
    AssignCounts(days, yearly, Monthly, q.monthly, i, t);
    AssignCounts(days, monthly, Weekly, q.weekly, i, t);
    AssignCounts(days, weekly, Daily, q.daily, i, t);
  }

  /** The backups that are kept. */
  function Kept(tiers: seq<Tier>): nat {
    if tiers == [] then 0 else (if tiers[0] != Unkept then 1 else 0) + Kept(tiers[1..])
  }

  lemma {:induction false} KeptByTier(tiers: seq<Tier>)
    ensures Kept(tiers) == CountTier(tiers, Yearly) + CountTier(tiers, Monthly) + CountTier(tiers, Weekly) + CountTier(tiers, Daily)
  {
    if tiers != [] { KeptByTier(tiers[1..]); }
  }

  /** At most as many backups survive as the quotas add up to, and with a daily quota the newest one
      does. */
  lemma RetentionBounds(days: seq<int>, q: Quotas)
    ensures Kept(Tiers(days, q)) <= Room(q, Yearly) + Room(q, Monthly) + Room(q, Weekly) + Room(q, Daily)
    ensures days != [] && q.daily >= 1 ==> Tiers(days, q)[0] != Unkept
  {
    hide Tiers;
    KeptByTier(Tiers(days, q));
    if days != [] {
      RetentionGreedy(days, q, 0, Yearly);
      RetentionGreedy(days, q, 0, Monthly);
      RetentionGreedy(days, q, 0, Weekly);
      RetentionGreedy(days, q, 0, Daily);
    }
  }

  // ---------- running again ----------

  /** The elements whose tier is not `Unkept`, as `mask` gives them. */
  function Select<T>(s: seq<T>, mask: seq<Tier>): (r: seq<T>)
    requires |s| == |mask|
    ensures |r| <= |s|
  {
    if s == [] then []
    else (if mask[0] != Unkept then [s[0]] else []) + Select(s[1..], mask[1..])
  }

  lemma {:induction false} SelectSameLength<A, B>(s: seq<A>, t: seq<B>, mask: seq<Tier>)
    requires |s| == |t| == |mask|
    ensures |Select(s, mask)| == |Select(t, mask)|
  {
    if s != [] { SelectSameLength(s[1..], t[1..], mask[1..]); }
  }

  /** Dropping only elements that a pass does not mark does not change what it marks. */
  lemma {:induction false} SelectAssign(days: seq<int>, tiers: seq<Tier>, t: Tier, k: int, mask: seq<Tier>)
    requires |days| == |tiers| == |mask| && t != Unkept
    requires forall i :: 0 <= i < |days| && Assign(days, tiers, t, k)[i] != Unkept ==> mask[i] != Unkept
    ensures |Select(days, mask)| == |Select(tiers, mask)|
    ensures Select(Assign(days, tiers, t, k), mask) == Assign(Select(days, mask), Select(tiers, mask), t, k)
  {
    SelectSameLength(days, tiers, mask);
    if days != [] {
      var r := Assign(days, tiers, t, k);
      var k' := if tiers[0] == Unkept && Qualifies(t, days[0]) && k > 0 then k - 1 else k;
      assert r[1..] == Assign(days[1..], tiers[1..], t, k');
      forall i | 0 <= i < |days[1..]| && r[1..][i] != Unkept ensures mask[1..][i] != Unkept {
        assert r[i + 1] != Unkept;
      }
      SelectAssign(days[1..], tiers[1..], t, k', mask[1..]);
      var d, u := Select(days, mask), Select(tiers, mask);
      if mask[0] != Unkept {
        assert d[1..] == Select(days[1..], mask[1..]) && u[1..] == Select(tiers[1..], mask[1..]);
      } else {
        assert r[0] == Unkept;
        assert d == Select(days[1..], mask[1..]) && u == Select(tiers[1..], mask[1..]);
      }
    }
  }

  lemma {:induction false} SelectNone(n: nat, mask: seq<Tier>)
    requires |mask| == n
    ensures Select(NoTiers(n), mask) == NoTiers(|Select(NoTiers(n), mask)|)
  {
    if n > 0 {
      assert NoTiers(n)[1..] == NoTiers(n - 1);
      SelectNone(n - 1, mask[1..]);
    }
  }

  lemma {:induction false} SelectKept(mask: seq<Tier>)
    ensures forall i :: 0 <= i < |Select(mask, mask)| ==> Select(mask, mask)[i] != Unkept
  {
    SelectOwn(mask, mask);
  }

  lemma {:induction false} SelectOwn(s: seq<Tier>, mask: seq<Tier>)
    requires s == mask
    ensures forall i :: 0 <= i < |Select(s, mask)| ==> Select(s, mask)[i] != Unkept
  {
    if s != [] { SelectOwn(s[1..], mask[1..]); }
  }

  /** What later passes leave: a mark made once is never taken back. */
  lemma MarksStay(days: seq<int>, tiers: seq<Tier>, t: Tier, k: int)
    requires |days| == |tiers| && t != Unkept
    ensures forall i :: 0 <= i < |days| && tiers[i] != Unkept ==> Assign(days, tiers, t, k)[i] != Unkept
  {
    forall i | 0 <= i < |days| && tiers[i] != Unkept ensures Assign(days, tiers, t, k)[i] != Unkept {
      AssignGreedy(days, tiers, t, k, i);
    }
  }

  /** The passes on the survivors give every survivor the tier it had. */
  lemma SurvivorsKeepTiers(days: seq<int>, q: Quotas)
    ensures var tiers := Tiers(days, q);
      Tiers(Select(days, tiers), q) == Select(tiers, tiers)
  {
    hide Assign, Select;
    var none := NoTiers(|days|);
    var yearly := Assign(days, none, Yearly, q.yearly);
    var monthly := Assign(days, yearly, Monthly, q.monthly);
    var weekly := Assign(days, monthly, Weekly, q.weekly);
    var tiers := Assign(days, weekly, Daily, q.daily);
    MarksStay(days, yearly, Monthly, q.monthly);
    MarksStay(days, monthly, Weekly, q.weekly);
    MarksStay(days, weekly, Daily, q.daily);
    SelectAssign(days, none, Yearly, q.yearly, tiers);
    SelectAssign(days, yearly, Monthly, q.monthly, tiers);
    SelectAssign(days, monthly, Weekly, q.weekly, tiers);
    SelectAssign(days, weekly, Daily, q.daily, tiers);
    SelectNone(|days|, tiers);
  }

  lemma {:induction false} SelectSorted(days: seq<int>, mask: seq<Tier>)
    requires |days| == |mask| && NewestFirst(days)
    ensures NewestFirst(Select(days, mask))
    ensures forall x :: x in Select(days, mask) ==> x in days
  {
    if days != [] {
      SortedTail(days);
      SelectSorted(days[1..], mask[1..]);
      var rest := Select(days[1..], mask[1..]);
      forall x | x in rest ensures x in days && days[0] >= x {
        var j :| 0 <= j < |days[1..]| && days[1..][j] == x;
        assert x == days[j + 1];
      }
      assert Select(days, mask) == (if mask[0] == Unkept then [] else [days[0]]) + rest;
      forall i | 0 <= i < |rest| ensures days[0] >= rest[i] {
        assert rest[i] in rest;
      }
    }
  }

  /** Idempotence: sorting the survivors again, whichever way ties fall, and running the passes with
      the same quotas keeps every one of them. */
  lemma RetentionIdempotent(days: seq<int>, again: seq<int>, q: Quotas)
    requires NewestFirst(days) && NewestFirst(again)
    requires multiset(again) == multiset(Select(days, Tiers(days, q)))
    ensures forall i :: 0 <= i < |again| ==> Tiers(again, q)[i] != Unkept
  {
    hide Tiers, Select;
    var tiers := Tiers(days, q);
    SelectSorted(days, tiers);
    SortedUnique(again, Select(days, tiers));
    SurvivorsKeepTiers(days, q);
    SelectKept(tiers);
  }

  // ---------- the second run, on backups ----------

  /** The backups whose flag is set. */
  function Survivors(s: seq<Backup>): (r: seq<Backup>)
    ensures |r| <= |s|
  {
    if s == [] then [] else (if s[0].keep then [s[0]] else []) + Survivors(s[1..])
  }

  lemma {:induction false} SurvivorDays(s: seq<Backup>, tiers: seq<Tier>)
    requires FlagsShow(s, tiers)
    ensures DaysOf(Survivors(s)) == Select(DaysOf(s), tiers)
  {
    if s != [] {
      assert DaysOf(s)[1..] == DaysOf(s[1..]);
      SurvivorDays(s[1..], tiers[1..]);
    }
  }

  /** Two arrangements of the same elements: the first element of one, taken out of both. */
  lemma MatchHead<T>(s: seq<T>, t: seq<T>) returns (i: nat)
    requires s != [] && multiset(s) == multiset(t)
    ensures i < |t| && t[i] == s[0] && multiset(s[1..]) == multiset(t[..i] + t[i + 1..])
  {
    assert s == [s[0]] + s[1..];
    assert multiset(s) == multiset{s[0]} + multiset(s[1..]);
    assert s[0] in multiset(t);
    assert s[0] in t;
    i :| 0 <= i < |t| && t[i] == s[0];
    assert t == t[..i] + [t[i]] + t[i + 1..];
    assert multiset(t) == multiset(t[..i]) + multiset{t[i]} + multiset(t[i + 1..]);
    assert multiset(s[1..]) == multiset(t) - multiset{s[0]};
  }

  lemma {:induction false} DaysMultiset(s: seq<Backup>, t: seq<Backup>)
    requires multiset(s) == multiset(t)
    ensures multiset(DaysOf(s)) == multiset(DaysOf(t))
    decreases |s|
  {
    if s == [] {
      NothingElse(t);
    } else {
      hide DaysOf;
      var i := MatchHead(s, t);
      DaysWithout(s, 0);
      assert s[..0] + s[1..] == s[1..];
      DaysWithout(t, i);
      DaysMultiset(s[1..], t[..i] + t[i + 1..]);
    }
  }

  lemma NothingElse<T>(t: seq<T>)
    requires multiset(t) == multiset{}
    ensures t == []
  {
    assert |multiset(t)| == |t|;
  }

  lemma DaysWithout(s: seq<Backup>, i: nat)
    requires i < |s|
    ensures multiset(DaysOf(s)) == multiset{s[i].day} + multiset(DaysOf(s[..i] + s[i + 1..]))
  {
    var before, after := DaysOf(s[..i]), DaysOf(s[i + 1..]);
    assert DaysOf(s) == before + [s[i].day] + after;
    assert DaysOf(s[..i] + s[i + 1..]) == before + after;
  }

  lemma {:induction false} AllKept(s: seq<Backup>)
    requires forall i :: 0 <= i < |s| ==> s[i].keep
    ensures Unmarked(s) == []
  {
    if s != [] { AllKept(s[1..]); }
  }

  lemma UnflaggedDays(s: seq<Backup>)
    ensures DaysOf(Unflagged(s)) == DaysOf(s)
  {
  }

  /** `first` and `second` are what two runs of the policy with the same quotas leave, the second one
      on the survivors of the first: the second run deletes nothing. */
  lemma SecondRunDeletesNothing(first: seq<Backup>, second: seq<Backup>, q: Quotas)
    requires NewestFirst(DaysOf(first)) && FlagsShow(first, Tiers(DaysOf(first), q))
    requires NewestFirst(DaysOf(second)) && FlagsShow(second, Tiers(DaysOf(second), q))
    requires multiset(Unflagged(second)) == multiset(Unflagged(Survivors(first)))
    ensures Unmarked(second) == []
  {
    hide Tiers, NewestFirst;
    SurvivorDays(first, Tiers(DaysOf(first), q));
    DaysMultiset(Unflagged(second), Unflagged(Survivors(first)));
    UnflaggedDays(second);
    UnflaggedDays(Survivors(first));
    RetentionIdempotent(DaysOf(first), DaysOf(second), q);
    AllKept(second);
  }
}
