/** `normalizeCronField`: month and weekday names become numbers before parsing. */
module CronNames {
  import opened Text
  import opened CronField

  const MONTHS: map<string, nat> :=
    map["JAN" := 1, "FEB" := 2, "MAR" := 3, "APR" := 4, "MAY" := 5, "JUN" := 6, "JUL" := 7,
        "AUG" := 8, "SEP" := 9, "OCT" := 10, "NOV" := 11, "DEC" := 12]

  const WEEKDAYS: map<string, nat> :=
    map["SUN" := 0, "MON" := 1, "TUE" := 2, "WED" := 3, "THU" := 4, "FRI" := 5, "SAT" := 6]

  /** The names field number `index` understands; only the month and weekday fields have any. */
  function NamesOf(index: nat): map<string, nat> {
    if index == 3 then MONTHS else if index == 4 then WEEKDAYS else map[]
  }

  function ReplaceName(bound: string, names: map<string, nat>): string {
    if bound in names then Itoa(names[bound]) else bound
  }

  function ReplaceNames(bounds: seq<string>, names: map<string, nat>): (r: seq<string>)
    ensures |r| == |bounds|
    ensures forall i :: 0 <= i < |r| ==> r[i] == ReplaceName(bounds[i], names)
  {
    if bounds == [] then [] else [ReplaceName(bounds[0], names)] + ReplaceNames(bounds[1..], names)
  }

  /** One list item: only the part before the first slash can hold names. */
  function NormalizeItem(item: string, names: map<string, nat>): string {
    var parts := Split(item, '/');
    Join([Join(ReplaceNames(Split(parts[0], '-'), names), '-')] + parts[1..], '/')
  }

  function NormalizeItems(items: seq<string>, names: map<string, nat>): (r: seq<string>)
    ensures |r| == |items|
    ensures forall i :: 0 <= i < |r| ==> r[i] == NormalizeItem(items[i], names)
  {
    if items == [] then [] else [NormalizeItem(items[0], names)] + NormalizeItems(items[1..], names)
  }

  function Normalize(spec: string, index: nat): string {
    if index != 3 && index != 4 then spec
    else Join(NormalizeItems(Split(ToUpper(spec), ','), NamesOf(index)), ',')
  }

  /** The inner loop of `normalizeCronField`: bounds are replaced element by element. */
  method RewriteBounds(given: seq<string>, names: map<string, nat>) returns (bounds: seq<string>)
    ensures bounds == ReplaceNames(given, names)
  {
    bounds := given;
    for j := 0 to |bounds|
      invariant |bounds| == |given|
      invariant forall k :: 0 <= k < j ==> bounds[k] == ReplaceName(given[k], names)
      invariant forall k :: j <= k < |given| ==> bounds[k] == given[k]
    {
      if bounds[j] in names { bounds := bounds[j := Itoa(names[bounds[j]])]; }
    }
  }

  /** The outer loop of `normalizeCronField`: items are rewritten element by element. */
  method RewriteItems(given: seq<string>, names: map<string, nat>) returns (items: seq<string>)
    ensures items == NormalizeItems(given, names)
  {
    items := given;
    for i := 0 to |items|
      invariant |items| == |given|
      invariant forall k :: 0 <= k < i ==> items[k] == NormalizeItem(given[k], names)
      invariant forall k :: i <= k < |given| ==> items[k] == given[k]
    {
      var parts := Split(items[i], '/');
      var bounds := RewriteBounds(Split(parts[0], '-'), names);
      assert parts[0 := Join(bounds, '-')] == [Join(bounds, '-')] + parts[1..];
      parts := parts[0 := Join(bounds, '-')];
      items := items[i := Join(parts, '/')];
    }
  }

  method NormalizeCronField(spec: string, index: nat) returns (r: string)
    ensures r == Normalize(spec, index)
  {
    if index != 3 && index != 4 { return spec; }
    var items := RewriteItems(Split(ToUpper(spec), ','), NamesOf(index));
    return Join(items, ',');
  }

  // ---------- normalising twice ----------

  /** Neither a lower-case letter nor a separator. */
  predicate Plain(c: char) { UpperChar(c) == c && c != ',' && c != '/' && c != '-' }

  predicate NoDash(c: char) { UpperChar(c) == c && c != ',' && c != '/' }

  predicate NoComma(c: char) { UpperChar(c) == c && c != ',' }

  /** Three capital letters. */
  predicate IsName(s: string) {
    |s| == 3 && 'A' <= s[0] <= 'Z' && 'A' <= s[1] <= 'Z' && 'A' <= s[2] <= 'Z'
  }

  lemma MonthNames(name: string)
    requires name in MONTHS
    ensures IsName(name)
  {
    assert IsName("JAN") && IsName("FEB") && IsName("MAR") && IsName("APR") && IsName("MAY") && IsName("JUN");
    assert IsName("JUL") && IsName("AUG") && IsName("SEP") && IsName("OCT") && IsName("NOV") && IsName("DEC");
    hide IsName;
  }

  lemma WeekdayNames(name: string)
    requires name in WEEKDAYS
    ensures IsName(name)
  {
    assert IsName("SUN") && IsName("MON") && IsName("TUE") && IsName("WED") && IsName("THU");
    assert IsName("FRI") && IsName("SAT");
    hide IsName;
  }

  lemma AllNames(name: string, names: map<string, nat>)
    requires name in names && (names == MONTHS || names == WEEKDAYS)
    ensures IsName(name)
  {
    hide MONTHS, WEEKDAYS, IsName;
    if names == MONTHS { MonthNames(name); } else { WeekdayNames(name); }
  }

  lemma ReplacedPlain(bound: string, names: map<string, nat>)
    requires Over(bound, Plain) && (names == MONTHS || names == WEEKDAYS)
    ensures Over(ReplaceName(bound, names), Plain)
    ensures ReplaceName(ReplaceName(bound, names), names) == ReplaceName(bound, names)
  {
    hide MONTHS, WEEKDAYS, Itoa;
    if bound in names {
      var s := Itoa(names[bound]);
      assert IsDigit(s[0]);
      if s in names { AllNames(s, names); }
    }
  }

  /** Pieces of an item before the slash, split at dashes, replaced and joined again. */
  lemma NormalizedBounds(text: string, names: map<string, nat>)
    requires Over(text, NoDash) && (names == MONTHS || names == WEEKDAYS)
    ensures var joined := Join(ReplaceNames(Split(text, '-'), names), '-');
      Over(joined, NoDash) && Join(ReplaceNames(Split(joined, '-'), names), '-') == joined
  {
    var bounds := Split(text, '-');
    var replaced := ReplaceNames(bounds, names);
    SplitOver(text, '-', NoDash);
    SplitPartsFree(text, '-');
    forall i | 0 <= i < |bounds|
      ensures Over(replaced[i], Plain) && '-' !in replaced[i] && ReplaceName(replaced[i], names) == replaced[i]
    {
      assert Over(bounds[i], NoDash) && '-' !in bounds[i];
      ReplacedPlain(bounds[i], names);
    }
    assert AllOver(replaced, NoDash);
    JoinOver(replaced, '-', NoDash);
    SplitJoin(replaced, '-');
    assert ReplaceNames(replaced, names) == replaced;
  }

  lemma NormalizedItem(item: string, names: map<string, nat>)
    requires Over(item, NoComma) && (names == MONTHS || names == WEEKDAYS)
    ensures var n := NormalizeItem(item, names); Over(n, NoComma) && NormalizeItem(n, names) == n
  {
    var parts := Split(item, '/');
    SplitOver(item, '/', NoComma);
    SplitPartsFree(item, '/');
    assert Over(parts[0], NoComma) && '/' !in parts[0];
    assert Over(parts[0], NoDash);
    NormalizedBounds(parts[0], names);
    var changed := [Join(ReplaceNames(Split(parts[0], '-'), names), '-')] + parts[1..];
    assert Over(changed[0], NoDash);
    assert forall i :: 0 <= i < |changed| ==> Over(changed[i], NoComma) && '/' !in changed[i];
    JoinOver(changed, '/', NoComma);
    SplitJoin(changed, '/');
    assert [changed[0]] + changed[1..] == changed;
  }

  /** Items without lower-case letters and commas stay so, and normalise once. */
  lemma NormalizedItems(items: seq<string>, names: map<string, nat>)
    requires AllOver(items, NoComma) && (names == MONTHS || names == WEEKDAYS)
    ensures var n := NormalizeItems(items, names); AllOver(n, NoComma) && NormalizeItems(n, names) == n
  {
    hide NormalizeItem, MONTHS, WEEKDAYS;
    forall i | 0 <= i < |items| { NormalizedItem(items[i], names); }
    var n := NormalizeItems(items, names);
    assert NormalizeItems(n, names) == n;
  }

  lemma UpperItems(spec: string)
    ensures AllOver(Split(ToUpper(spec), ','), NoComma)
  {
    var upper := ToUpper(spec);
    var items := Split(upper, ',');
    var isUpper := (c: char) => UpperChar(c) == c;
    SplitOver(upper, ',', isUpper);
    SplitPartsFree(upper, ',');
    forall i | 0 <= i < |items| ensures Over(items[i], NoComma) {
      assert Over(items[i], isUpper) && ',' !in items[i];
    }
  }

  lemma JoinedItems(items: seq<string>)
    requires |items| >= 1 && AllOver(items, NoComma)
    ensures Split(ToUpper(Join(items, ',')), ',') == items
  {
    var isUpper := (c: char) => UpperChar(c) == c;
    forall i | 0 <= i < |items| ensures Over(items[i], isUpper) && ',' !in items[i] {}
    JoinOver(items, ',', isUpper);
    ToUpperFixed(Join(items, ','));
    SplitJoin(items, ',');
  }

  /** Normalising is idempotent, for every text in every field. */
  lemma NormalizeIdempotent(spec: string, index: nat)
    ensures Normalize(Normalize(spec, index), index) == Normalize(spec, index)
  {
    hide MONTHS, WEEKDAYS, Split, Join, ToUpper, NormalizeItems;
    if index == 3 || index == 4 {
      UpperItems(spec);
      var items := Split(ToUpper(spec), ',');
      NormalizedItems(items, NamesOf(index));
      JoinedItems(NormalizeItems(items, NamesOf(index)));
    }
  }

  // ---------- names as they are written ----------

  /** A name in any case, alone or at either end of a range, reads as its number. */
  lemma NamesRead(first: string, second: string, index: nat)
    requires (index == 3 || index == 4) && ToUpper(first) in NamesOf(index) && ToUpper(second) in NamesOf(index)
    ensures Normalize(first, index) == Itoa(NamesOf(index)[ToUpper(first)])
    ensures Normalize(first + "-" + second, index) ==
      Itoa(NamesOf(index)[ToUpper(first)]) + "-" + Itoa(NamesOf(index)[ToUpper(second)])
  {
    var names := NamesOf(index);
    NameLetters(ToUpper(first), names);
    NameLetters(ToUpper(second), names);
    hide NamesOf, MONTHS, WEEKDAYS, Itoa, Split, Normalize, ReplaceNames, Join, ToUpper;
    var a, b := ToUpper(first), ToUpper(second);
    OneItem(first, index, [a]);
    UpperRange(first, second);
    SplitTwo(a, b, '-');
    OneItem(first + "-" + second, index, [a, b]);
    JoinedBounds(a, b, names);
  }

  lemma UpperRange(first: string, second: string)
    ensures ToUpper(first + "-" + second) == ToUpper(first) + "-" + ToUpper(second)
  {
  }

  lemma JoinedBounds(a: string, b: string, names: map<string, nat>)
    requires a in names && b in names
    ensures Join(ReplaceNames([a], names), '-') == Itoa(names[a])
    ensures Join(ReplaceNames([a, b], names), '-') == Itoa(names[a]) + "-" + Itoa(names[b])
  {
    hide Itoa;
    var replaced := ReplaceNames([a, b], names);
    assert replaced[1..] == [replaced[1]];
  }

  lemma NameLetters(name: string, names: map<string, nat>)
    requires name in names && (names == MONTHS || names == WEEKDAYS)
    ensures ',' !in name && '/' !in name && '-' !in name && Split(name, '-') == [name]
  {
    hide MONTHS, WEEKDAYS;
    AllNames(name, names);
    SplitSingle(name, '-');
  }

  /** A spec of a single item without a step, whose bounds are known. */
  lemma OneItem(spec: string, index: nat, bounds: seq<string>)
    requires index == 3 || index == 4
    requires ',' !in ToUpper(spec) && '/' !in ToUpper(spec) && Split(ToUpper(spec), '-') == bounds
    ensures Normalize(spec, index) == Join(ReplaceNames(bounds, NamesOf(index)), '-')
  {
    hide NamesOf;
    var upper := ToUpper(spec);
    SplitSingle(upper, ',');
    SplitSingle(upper, '/');
    assert [upper][1..] == [];
    var joined := Join(ReplaceNames(bounds, NamesOf(index)), '-');
    assert [joined] + [] == [joined];
    assert NormalizeItem(upper, NamesOf(index)) == joined;
    assert NormalizeItems([upper], NamesOf(index)) == [joined];
  }

  // ---------- texts without names ----------

  /** No bound of any item is a name, whatever its case. */
  ghost predicate NameFree(spec: string, index: nat) {
    forall i :: 0 <= i < |Split(ToUpper(spec), ',')| ==>
      ItemNameFree(Split(ToUpper(spec), ',')[i], NamesOf(index))
  }

  ghost predicate ItemNameFree(item: string, names: map<string, nat>) {
    forall j :: 0 <= j < |Split(Split(item, '/')[0], '-')| ==> Split(Split(item, '/')[0], '-')[j] !in names
  }

  lemma NameFreeItem(item: string, names: map<string, nat>)
    requires ItemNameFree(item, names)
    ensures NormalizeItem(item, names) == item
  {
    var parts := Split(item, '/');
    var bounds := Split(parts[0], '-');
    assert ReplaceNames(bounds, names) == bounds;
    JoinSplit(parts[0], '-');
    assert [parts[0]] + parts[1..] == parts;
    JoinSplit(item, '/');
  }

  lemma DigitsUpper(s: string)
    ensures AllDigits(ToUpper(s)) <==> AllDigits(s)
    ensures AllDigits(s) ==> ToUpper(s) == s
  {
    assert forall i :: 0 <= i < |s| ==> (IsDigit(ToUpper(s)[i]) <==> IsDigit(s[i]));
    if AllDigits(s) { ToUpperFixed(s); }
  }

  lemma AtoiUpper(s: string)
    ensures Atoi(ToUpper(s)) == Atoi(s)
  {
    hide DigitsValue, AllDigits;
    DigitsUpper(s);
    if s != [] {
      DigitsUpper(s[1..]);
      assert ToUpper(s)[1..] == ToUpper(s[1..]);
    }
  }

  lemma UpperStar(s: string)
    ensures ToUpper(s) == "*" <==> s == "*"
    ensures IsWildcard(ToUpper(s)) <==> IsWildcard(s)
  {
    var u := ToUpper(s);
    if |s| >= 2 {
      assert u[0] == UpperChar(s[0]) && u[1] == UpperChar(s[1]);
      assert "*/" <= u <==> u[0] == '*' && u[1] == '/';
      assert "*/" <= s <==> s[0] == '*' && s[1] == '/';
    } else if |s| == 1 {
      assert u[0] == UpperChar(s[0]);
    }
  }

  lemma ParseRangeUpper(base: string, open: bool, step: int, min: int, max: int)
    ensures ParseRange(ToUpper(base), open, step, min, max) == ParseRange(base, open, step, min, max)
  {
    UpperStar(base);
    SplitToUpper(base, '-');
    var bounds := Split(base, '-');
    AtoiUpper(bounds[0]);
    if |bounds| == 2 { AtoiUpper(bounds[1]); }
  }

  lemma ParseItemUpper(item: string, min: int, max: int)
    ensures ParseItem(ToUpper(item), min, max) == ParseItem(item, min, max)
  {
    hide ParseRange, Atoi;
    var parts := Split(item, '/');
    SplitToUpper(item, '/');
    ParseRangeUpper(item, false, 1, min, max);
    if |parts| == 2 {
      AtoiUpper(parts[1]);
      var step := Atoi(parts[1]);
      if step.Some? { ParseRangeUpper(parts[0], true, step.value, min, max); }
    }
  }

  lemma {:induction false} ParseItemsUpper(items: seq<string>, upper: seq<string>, min: int, max: int)
    requires 0 <= min <= max <= 59 && |items| == |upper|
    requires forall i :: 0 <= i < |items| ==> upper[i] == ToUpper(items[i])
    ensures ParseItems(upper, min, max) == ParseItems(items, min, max)
  {
    if items != [] {
      ParseItemUpper(items[0], min, max);
      ParseItemsUpper(items[1..], upper[1..], min, max);
    }
  }

  lemma ParseFieldUpper(spec: string, min: int, max: int, sundayAlias: bool)
    requires 0 <= min <= max <= 59
    ensures ParseField(ToUpper(spec), min, max, sundayAlias) == ParseField(spec, min, max, sundayAlias)
  {
    SplitToUpper(spec, ',');
    ParseItemsUpper(Split(spec, ','), Split(ToUpper(spec), ','), min, max);
    UpperStar(spec);
  }

  lemma NameFreeNormalize(spec: string, index: nat)
    requires (index == 3 || index == 4) && NameFree(spec, index)
    ensures Normalize(spec, index) == ToUpper(spec)
  {
    var items := Split(ToUpper(spec), ',');
    forall i | 0 <= i < |items| ensures NormalizeItem(items[i], NamesOf(index)) == items[i] {
      NameFreeItem(items[i], NamesOf(index));
    }
    assert NormalizeItems(items, NamesOf(index)) == items;
    JoinSplit(ToUpper(spec), ',');
  }

  /** A field written without names parses the same with and without normalising. */
  lemma NameFreeSameParse(spec: string, index: nat, min: int, max: int, sundayAlias: bool)
    requires 0 <= min <= max <= 59 && NameFree(spec, index)
    ensures ParseField(Normalize(spec, index), min, max, sundayAlias) == ParseField(spec, min, max, sundayAlias)
  {
    if index == 3 || index == 4 {
      NameFreeNormalize(spec, index);
      ParseFieldUpper(spec, min, max, sundayAlias);
    }
  }
}
