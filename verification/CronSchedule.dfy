/** `nextScheduledTime` on the schedule text: intervals, presets and five-field specs. */
module CronSchedule {
  import opened Durations
  import opened Text
  import opened Calendar
  import opened CronField
  import opened CronNames
  import opened CronSearch
  import opened CronLaws

  datatype ScheduleError = BadInterval | FieldCount | BadField(index: nat, error: FieldError) | NoOccurrence

  datatype Next = At(time: int) | Error(error: ScheduleError)

  datatype ParsedFields = Good(fields: seq<Field>) | Bad(error: ScheduleError)

  /** The presets and the specs they stand for. */
  function Expand(schedule: string): string {
    if schedule == "@hourly" then "0 * * * *"
    else if schedule == "@daily" || schedule == "@midnight" then "0 0 * * *"
    else if schedule == "@weekly" then "0 0 * * 0"
    else if schedule == "@monthly" then "0 0 1 * *"
    else if schedule == "@yearly" || schedule == "@annually" then "0 0 1 1 *"
    else schedule
  }

  /** The table of field ranges. */
  function RangeOf(index: nat): (r: (int, int))
    requires index < 5
    ensures 0 <= r.0 <= r.1 <= 59
  {
    if index == 0 then (0, 59) else if index == 1 then (0, 23) else if index == 2 then (1, 31)
    else if index == 3 then (1, 12) else (0, 7)
  }

  function ParsePart(part: string, index: nat): Parsed<Field>
    requires index < 5
  {
    ParseField(Normalize(part, index), RangeOf(index).0, RangeOf(index).1, index == 4)
  }

  /** Fields `index` and on; the first bad one decides the error. */
  function ParseFrom(parts: seq<string>, index: nat): (r: ParsedFields)
    requires |parts| == 5 && index <= 5
    ensures r.Good? ==> |r.fields| == 5 - index
    decreases 5 - index
  {
    if index == 5 then Good([])
    else
      var field := ParsePart(parts[index], index);
      if field.Err? then Bad(BadField(index + 1, field.error))
      else
        var rest := ParseFrom(parts, index + 1);
        if rest.Bad? then rest else Good([field.value] + rest.fields)
  }

  function AsFields(fields: seq<Field>): Fields
    requires |fields| == 5
  {
    Fields(fields[0], fields[1], fields[2], fields[3], fields[4])
  }

  function ParseSpec(spec: string): (r: ParsedFields)
    ensures r.Good? ==> |r.fields| == 5
  {
    var parts := Text.Fields(spec);
    if |parts| != 5 then Bad(FieldCount) else ParseFrom(parts, 0)
  }

  /** The schedule's next time after `after`. `parseDuration` is `time.ParseDuration`. */
  function NextTime(schedule: string, after: int, offset: int, parseDuration: string -> Option<int>): Next {
    var text := TrimSpace(schedule);
    if "@every " <= text then
      var duration := parseDuration(TrimSpace(text[7..]));
      if duration.None? || duration.value <= 0 then Error(BadInterval) else At(after + duration.value)
    else
      var parsed := ParseSpec(Expand(text));
      if parsed.Bad? then Error(parsed.error)
      else
        match Occurrence(AsFields(parsed.fields), after, offset)
        case None => Error(NoOccurrence)
        case Some(t) => At(t)
  }

  /** The loop of `nextScheduledTime` that fills `fields`. */
  method ParseParts(parts: seq<string>) returns (r: ParsedFields)
    requires |parts| == 5
    ensures r == ParseFrom(parts, 0)
  {
    hide ParsePart, RangeOf, Normalize, ParseField;
    var fields: seq<Field> := [];
    for i := 0 to 5
      invariant |fields| == i
      invariant var rest := ParseFrom(parts, i);
        ParseFrom(parts, 0) == if rest.Bad? then rest else Good(fields + rest.fields)
    {
      var part := NormalizeCronField(parts[i], i);
      var field := ParseCronField(part, RangeOf(i).0, RangeOf(i).1, i == 4);
      PartOf(parts[i], i);
      if field.Err? { return Bad(BadField(i + 1, field.error)); }
      ghost var rest := ParseFrom(parts, i + 1);
      assert rest.Good? ==> fields + ([field.value] + rest.fields) == fields + [field.value] + rest.fields;
      fields := fields + [field.value];
    }
    assert fields + [] == fields;
    return Good(fields);
  }

  lemma PartOf(part: string, index: nat)
    requires index < 5
    ensures ParsePart(part, index) == ParseField(Normalize(part, index), RangeOf(index).0, RangeOf(index).1, index == 4)
  {
  }

  method NextScheduledTime(schedule: string, after: int, offset: int, parseDuration: string -> Option<int>)
    returns (r: Next)
    ensures r == NextTime(schedule, after, offset, parseDuration)
  {
    hide ParseFrom, Occurrence, TrimSpace;
    var text := TrimSpace(schedule);
    if "@every " <= text {
      var duration := parseDuration(TrimSpace(text[7..]));
      if duration.None? || duration.value <= 0 { return Error(BadInterval); }
      return At(after + duration.value);
    }
    var parts := Text.Fields(Expand(text));
    if |parts| != 5 { return Error(FieldCount); }
    var parsed := ParseParts(parts);
    if parsed.Bad? { return Error(parsed.error); }
    var found := NextOccurrence(AsFields(parsed.fields), after, offset);
    if found.None? { return Error(NoOccurrence); }
    return At(found.value);
  }

  // ---------- laws ----------

  lemma {:induction false} ParseFromFields(parts: seq<string>, index: nat)
    requires |parts| == 5 && index <= 5 && ParseFrom(parts, index).Good?
    ensures forall i :: index <= i < 5 ==>
      ParsePart(parts[i], i).Ok? && ParseFrom(parts, index).fields[i - index] == ParsePart(parts[i], i).value
    decreases 5 - index
  {
    hide ParsePart;
    if index < 5 { ParseFromFields(parts, index + 1); }
  }

  /** Whatever parses is well formed, so the failure law of the search applies to it. */
  lemma ParsedWellFormed(spec: string)
    requires ParseSpec(spec).Good?
    ensures WellFormed(AsFields(ParseSpec(spec).fields))
  {
    var parts := Text.Fields(spec);
    ParseFromFields(parts, 0);
    hide ParseFrom, ParsePart, Text.Fields, WellFormed, WellFormedField, RangeOf;
    forall i | 0 <= i < 5
      ensures WellFormedField(ParseSpec(spec).fields[i], RangeOf(i).0, RangeOf(i).1)
    {
      PartWellFormed(parts[i], i);
    }
    WellFormedParts(ParseSpec(spec).fields);
  }

  lemma PartWellFormed(part: string, index: nat)
    requires index < 5 && ParsePart(part, index).Ok?
    ensures WellFormedField(ParsePart(part, index).value, RangeOf(index).0, RangeOf(index).1)
  {
    hide ParseField, Normalize, RangeOf, Selects, StepsTooFar;
    FieldSelection(Normalize(part, index), RangeOf(index).0, RangeOf(index).1, index == 4);
  }

  lemma WellFormedParts(f: seq<Field>)
    requires |f| == 5 && forall i :: 0 <= i < 5 ==> WellFormedField(f[i], RangeOf(i).0, RangeOf(i).1)
    ensures WellFormed(AsFields(f))
  {
    hide WellFormedField;
    assert WellFormedField(f[0], RangeOf(0).0, RangeOf(0).1);
    assert WellFormedField(f[1], RangeOf(1).0, RangeOf(1).1);
    assert WellFormedField(f[2], RangeOf(2).0, RangeOf(2).1);
    assert WellFormedField(f[3], RangeOf(3).0, RangeOf(3).1);
    assert WellFormedField(f[4], RangeOf(4).0, RangeOf(4).1);
  }

  /** A next time always lies strictly after the instant asked about. */
  lemma NextTimeLater(schedule: string, after: int, offset: int, parseDuration: string -> Option<int>)
    ensures var r := NextTime(schedule, after, offset, parseDuration); r.At? ==> r.time > after
  {
    hide Occurrence, ParseSpec, Expand, TrimSpace;
    var text := TrimSpace(schedule);
    if !("@every " <= text) && ParseSpec(Expand(text)).Good? {
      var f := AsFields(ParseSpec(Expand(text)).fields);
      if Occurrence(f, after, offset).Some? { OccurrenceEarliest(f, after, offset); }
    }
  }

  /** The schedule text has a next time from every instant. */
  ghost predicate AlwaysNext(schedule: string, offset: int, parseDuration: string -> Option<int>) {
    forall after :: NextTime(schedule, after, offset, parseDuration).At?
  }

  /** Five-field schedules: always a next time in every zone, exactly when the day is left to the
      weekday or some selected date exists every year. */
  lemma SpecAlwaysNext(schedule: string, parseDuration: string -> Option<int>)
    requires var text := TrimSpace(schedule); !("@every " <= text) && ParseSpec(Expand(text)).Good?
    ensures (forall offset :: AlwaysNext(schedule, offset, parseDuration)) <==>
      NeverFails(AsFields(ParseSpec(Expand(TrimSpace(schedule))).fields))
  {
    hide Occurrence, ParseSpec, Expand, TrimSpace, NeverFails, WellFormed;
    var spec := Expand(TrimSpace(schedule));
    var f := AsFields(ParseSpec(spec).fields);
    ParsedWellFormed(spec);
    NeverFailsMeaning(f);
    forall offset, after
      ensures NextTime(schedule, after, offset, parseDuration).At? <==> Occurrence(f, after, offset).Some?
    {
    }
    if forall offset :: AlwaysNext(schedule, offset, parseDuration) {
      forall after, offset ensures Occurrence(f, after, offset).Some? {
        assert AlwaysNext(schedule, offset, parseDuration);
        assert NextTime(schedule, after, offset, parseDuration).At?;
      }
    }
  }

  // ---------- specs of stars and numbers ----------

  predicate IsWord(w: string) {
    w != [] && forall i :: 0 <= i < |w| ==> !IsSpace(w[i])
  }

  lemma FirstWord(w: string, rest: string)
    requires IsWord(w) && (rest == [] || IsSpace(rest[0]))
    ensures Text.Fields(w + rest) == [w] + Text.Fields(rest)
  {
    hide Text.Fields, IsSpace;
    FieldsMeaning([], w, rest);
    assert [] + w == w;
  }

  /** Words joined by single spaces are read back as those words. */
  lemma {:induction false} FieldsOfWords(words: seq<string>)
    requires |words| >= 1 && forall i :: 0 <= i < |words| ==> IsWord(words[i])
    ensures Text.Fields(Join(words, ' ')) == words
  {
    hide IsWord, Text.Fields;
    var rest := if |words| == 1 then [] else [' '] + Join(words[1..], ' ');
    assert Join(words, ' ') == words[0] + rest;
    FirstWord(words[0], rest);
    if |words| == 1 {
      NoWords();
      assert words == [words[0]] + [];
    } else {
      FieldsOfWords(words[1..]);
      SpaceBefore(Join(words[1..], ' '));
      assert words == [words[0]] + words[1..];
    }
  }

  lemma NoWords()
    ensures Text.Fields([]) == []
  {
  }

  lemma SpaceBefore(s: string)
    ensures Text.Fields([' '] + s) == Text.Fields(s)
  {
    assert ([' '] + s)[1..] == s;
  }

  lemma StarField(min: int, max: int, sundayAlias: bool)
    requires 0 <= min <= max <= 59
    ensures ParseField("*", min, max, sundayAlias).Ok?
    ensures var f := ParseField("*", min, max, sundayAlias).value;
      f.wildcard && forall v :: min <= v <= max ==> v in f.values
  {
    SplitSingle("*", ',');
    SplitSingle("*", '/');
    assert ParseItem("*", min, max) == Ok(Span(min, max, 1));
    assert Split("*", ',')[0] == "*";
    ItemsOfOne("*", min, max);
    SteppedExact(min, max, 1);
    forall v | min <= v <= max ensures OnStride(min, 1, v) {}
    UnitStep(min, max);
  }

  lemma UnitStep(min: int, max: int)
    requires 0 <= min <= max <= 59
    ensures !Overflows(Span(min, max, 1))
  {
  }

  lemma ItemsOfOne(item: string, min: int, max: int)
    requires 0 <= min <= max <= 59 && ParseItem(item, min, max).Ok?
    ensures var s := ParseItem(item, min, max).value;
      ParseItems([item], min, max) == Ok(Stepped(s.lo, s.hi, s.step))
  {
    hide ParseItem, Stepped;
    assert [item][1..] == [] && [item][0] == item;
    var s := ParseItem(item, min, max).value;
    assert Stepped(s.lo, s.hi, s.step) + {} == Stepped(s.lo, s.hi, s.step);
  }

  /** A field of one number selects that value. */
  lemma NumberField(n: nat, min: int, max: int, sundayAlias: bool)
    requires (sundayAlias ==> n <= 6) && 0 <= min <= n <= max <= 59
    ensures ParseField(Itoa(n), min, max, sundayAlias).Ok?
    ensures var f := ParseField(Itoa(n), min, max, sundayAlias).value; !f.wildcard && f.values == {n}
  {
    var s := Itoa(n);
    AtoiItoa(n);
    DigitsOnly(s);
    SplitSingle(s, ',');
    SplitSingle(s, '/');
    SplitSingle(s, '-');
    hide Itoa, Atoi;
    assert ParseItem(s, min, max) == Ok(Span(n, n, 1));
    ItemsOfOne(s, min, max);
    assert Stepped(n, n, 1) == {n};
  }

  /** A one-character part holds no name, so normalising does not matter. */
  lemma OneCharacterPart(w: string, index: nat)
    requires index < 5 && |w| == 1 && w[0] != ',' && w[0] != '/' && w[0] != '-'
    ensures ParsePart(w, index) == ParseField(w, RangeOf(index).0, RangeOf(index).1, index == 4)
  {
    var upper := ToUpper(w);
    assert upper == [UpperChar(w[0])];
    SplitSingle(upper, ',');
    SplitSingle(upper, '/');
    SplitSingle(upper, '-');
    hide MONTHS, WEEKDAYS;
    if upper in NamesOf(index) { AllNames(upper, NamesOf(index)); }
    assert NameFree(w, index);
    NameFreeSameParse(w, index, RangeOf(index).0, RangeOf(index).1, index == 4);
  }

  predicate Star(f: Field, index: nat)
    requires index < 5
  {
    f.wildcard && forall v :: RangeOf(index).0 <= v <= RangeOf(index).1 ==> v in f.values
  }

  predicate IsSimple(w: string, n: nat, index: nat)
    requires index < 5
  {
    w == "*" || (w == Itoa(n) && (n <= 6 || index < 3) && RangeOf(index).0 <= n <= RangeOf(index).1)
  }

  predicate ReadsAs(w: string, n: nat, index: nat, f: Field)
    requires index < 5
  {
    if w == "*" then Star(f, index) else !f.wildcard && f.values == {n}
  }

  /** A part that is a star or one number in range: what it parses to. */
  lemma SimplePart(w: string, n: nat, index: nat)
    requires index < 5 && IsSimple(w, n, index)
    ensures ParsePart(w, index).Ok? && ReadsAs(w, n, index, ParsePart(w, index).value)
  {
    if w == "*" {
      StarField(RangeOf(index).0, RangeOf(index).1, index == 4);
    } else {
      NumberField(n, RangeOf(index).0, RangeOf(index).1, index == 4);
    }
    if index >= 3 { OneCharacterPart(w, index); }
  }

  lemma JoinFive(a: char, b: char, c: char, d: char, e: char)
    ensures Join([[a], [b], [c], [d], [e]], ' ') == [a, ' ', b, ' ', c, ' ', d, ' ', e]
  {
    JoinNext([a], [[b], [c], [d], [e]]);
    JoinNext([b], [[c], [d], [e]]);
    JoinNext([c], [[d], [e]]);
    JoinNext([d], [[e]]);
  }

  lemma JoinNext(word: string, rest: seq<string>)
    requires rest != []
    ensures Join([word] + rest, ' ') == word + [' '] + Join(rest, ' ')
  {
    assert ([word] + rest)[1..] == rest;
  }

  /** A spec of five simple parts, `words[i]` being a star or the number `digits[i]`. */
  lemma SimpleSpec(words: seq<string>, digits: seq<nat>)
    requires |words| == |digits| == 5
    requires forall i :: 0 <= i < 5 ==> IsSimple(words[i], digits[i], i)
    ensures ParseSpec(Join(words, ' ')).Good?
    ensures var fields := ParseSpec(Join(words, ' ')).fields;
      forall i :: 0 <= i < 5 ==> ReadsAs(words[i], digits[i], i, fields[i])
  {
    forall i | 0 <= i < 5 ensures IsWord(words[i]) {
      assert words[i] == "*" || AllDigits(words[i]);
    }
    FieldsOfWords(words);
    SimpleParts(words, digits);
  }

  lemma SimpleParts(words: seq<string>, digits: seq<nat>)
    requires |words| == |digits| == 5
    requires forall i :: 0 <= i < 5 ==> IsSimple(words[i], digits[i], i)
    ensures ParseFrom(words, 0).Good?
    ensures var fields := ParseFrom(words, 0).fields;
      forall i :: 0 <= i < 5 ==> ReadsAs(words[i], digits[i], i, fields[i])
  {
    hide ParsePart, ReadsAs, IsSimple, ParseFrom;
    forall i | 0 <= i < 5 { SimplePart(words[i], digits[i], i); }
    AllGood(words, 0);
    ParseFromFields(words, 0);
  }

  lemma {:induction false} AllGood(parts: seq<string>, index: nat)
    requires |parts| == 5 && index <= 5
    requires forall i :: index <= i < 5 ==> ParsePart(parts[i], i).Ok?
    ensures ParseFrom(parts, index).Good?
    decreases 5 - index
  {
    hide ParsePart;
    if index < 5 { AllGood(parts, index + 1); }
  }

  // ---------- an occurrence that is lost ----------

  lemma StarsMatch(f: Fields, m: int)
    requires Star(f.minute, 0) && Star(f.hour, 1) && Star(f.dayOfMonth, 2) && Star(f.month, 3) && Star(f.dayOfWeek, 4)
    ensures Matches(f, m)
  {
    var date, clock := DateOf(m / 1440), m % 1440;
    hide DateOf, DayNumber;
    assert 0 <= clock / 60 <= 23 && 0 <= clock % 60 <= 59;
    assert 0 <= Weekday(date) <= 6;
  }

  lemma StarsParse()
    ensures ParseSpec("* * * * *").Good?
    ensures var f := AsFields(ParseSpec("* * * * *").fields);
      Star(f.minute, 0) && Star(f.hour, 1) && Star(f.dayOfMonth, 2) && Star(f.month, 3) && Star(f.dayOfWeek, 4)
  {
    var words: seq<string> := ["*", "*", "*", "*", "*"];
    JoinFive('*', '*', '*', '*', '*');
    hide ParseSpec, Star;
    SimpleSpec(words, [0, 0, 0, 0, 0]);
    var fields := ParseSpec("* * * * *").fields;
    assert forall i :: 0 <= i < 5 ==> ReadsAs(words[i], 0, i, fields[i]);
    assert ReadsAs(words[0], 0, 0, fields[0]) && ReadsAs(words[1], 0, 1, fields[1]) && ReadsAs(words[2], 0, 2, fields[2]);
    assert ReadsAs(words[3], 0, 3, fields[3]) && ReadsAs(words[4], 0, 4, fields[4]);
  }

  /** Half a minute off UTC, asked at instant 0, the schedule of every minute answers with local minute
      2 (90 seconds on), though it selects minute 1 as well, and that one begins 30 seconds on. */
  lemma LostOccurrence(parseDuration: string -> Option<int>)
    ensures var (spec, offset) := ("* * * * *", MINUTE / 2);
      && NextTime(spec, 0, offset, parseDuration) == At(2 * MINUTE - offset)
      && ParseSpec(spec).Good?
      && var f := AsFields(ParseSpec(spec).fields);
        Matches(f, 1) && MinuteAfter(1, 0, offset) && !EarliestAfter(f, 0, offset, 2)
  {
    StarsParse();
    StarsText();
    hide ParseSpec, TrimSpace, Occurrence, Matches, NextTime, Expand, EarliestAfter, Star;
    LostByStars("* * * * *", parseDuration);
  }

  lemma StarsText()
    ensures var spec := "* * * * *"; TrimSpace(spec) == spec && !("@every " <= spec) && Expand(spec) == spec
  {
    hide TrimSpace;
    UntrimmedText("* * * * *");
    EveryPrefix("* * * * *");
  }

  lemma LostByStars(spec: string, parseDuration: string -> Option<int>)
    requires TrimSpace(spec) == spec && !("@every " <= spec) && Expand(spec) == spec && ParseSpec(spec).Good?
    requires var f := AsFields(ParseSpec(spec).fields);
      Star(f.minute, 0) && Star(f.hour, 1) && Star(f.dayOfMonth, 2) && Star(f.month, 3) && Star(f.dayOfWeek, 4)
    ensures NextTime(spec, 0, MINUTE / 2, parseDuration) == At(2 * MINUTE - MINUTE / 2)
    ensures var f := AsFields(ParseSpec(spec).fields);
      Matches(f, 1) && MinuteAfter(1, 0, MINUTE / 2) && !EarliestAfter(f, 0, MINUTE / 2, 2)
  {
    hide ParseSpec, TrimSpace, Occurrence, Matches, NextTime, Expand, Star, StartMinute;
    var f := AsFields(ParseSpec(spec).fields);
    StarsMatch(f, 1);
    StarsMatch(f, 2);
    SkippedMinuteExample();
    FoundAtOnce(f, 0, MINUTE / 2);
    FoundIsNext(spec, 0, MINUTE / 2, parseDuration);
  }

  // ---------- presets ----------

  const PRESETS: set<string> :=
    {"@hourly", "@daily", "@midnight", "@weekly", "@monthly", "@yearly", "@annually"}

  /** The words of a preset's spec: stars, zeros and ones. */
  function PresetWords(preset: string): (seq<string>, seq<nat>)
    requires preset in PRESETS
  {
    if preset == "@hourly" then (["0", "*", "*", "*", "*"], [0, 0, 0, 0, 0])
    else if preset == "@daily" || preset == "@midnight" then (["0", "0", "*", "*", "*"], [0, 0, 0, 0, 0])
    else if preset == "@weekly" then (["0", "0", "*", "*", "0"], [0, 0, 0, 0, 0])
    else if preset == "@monthly" then (["0", "0", "1", "*", "*"], [0, 0, 1, 0, 0])
    else (["0", "0", "1", "1", "*"], [0, 0, 1, 1, 0])
  }

  lemma PresetSpec(preset: string)
    requires preset in PRESETS
    ensures Join(PresetWords(preset).0, ' ') == Expand(preset)
  {
    hide Join;
    if preset == "@hourly" { JoinFive('0', '*', '*', '*', '*'); }
    else if preset == "@daily" || preset == "@midnight" { JoinFive('0', '0', '*', '*', '*'); }
    else if preset == "@weekly" { JoinFive('0', '0', '*', '*', '0'); }
    else if preset == "@monthly" { JoinFive('0', '0', '1', '*', '*'); }
    else { JoinFive('0', '0', '1', '1', '*'); }
  }

  lemma UntrimmedText(s: string)
    requires s != [] && !IsSpace(s[0]) && !IsSpace(s[|s| - 1])
    ensures TrimSpace(s) == s
  {
  }

  lemma EveryPrefix(s: string)
    ensures "@every " <= s ==> |s| >= 2 && s[1] == 'e'
  {
    var every := "@every ";
    assert every[1] == 'e';
  }

  lemma PresetText(preset: string)
    requires preset in PRESETS
    ensures TrimSpace(preset) == preset && !("@every " <= preset)
  {
    hide TrimSpace;
    UntrimmedText(preset);
    EveryPrefix(preset);
  }

  lemma PresetNeverFails(preset: string, f: Fields, words: seq<string>, fields: seq<Field>)
    requires preset in PRESETS && words == PresetWords(preset).0
    requires |fields| == 5 && f == AsFields(fields)
    requires forall i :: 0 <= i < 5 ==> ReadsAs(words[i], PresetWords(preset).1[i], i, fields[i])
    ensures NeverFails(f)
  {
    assert ReadsAs(words[2], PresetWords(preset).1[2], 2, fields[2]);
    assert ReadsAs(words[3], PresetWords(preset).1[3], 3, fields[3]);
    if words[2] != "*" {
      assert 1 in f.month.values && 1 in f.dayOfMonth.values;
    }
  }

  lemma PresetDigits(preset: string)
    requires preset in PRESETS
    ensures var (words, digits) := PresetWords(preset);
      |words| == |digits| == 5 && forall i :: 0 <= i < 5 ==> IsSimple(words[i], digits[i], i)
  {
    assert Itoa(0) == "0" && Itoa(1) == "1";
  }

  lemma FoundIsNext(schedule: string, after: int, offset: int, parseDuration: string -> Option<int>)
    requires TrimSpace(schedule) == schedule && !("@every " <= schedule) && ParseSpec(Expand(schedule)).Good?
    requires Occurrence(AsFields(ParseSpec(Expand(schedule)).fields), after, offset).Some?
    ensures NextTime(schedule, after, offset, parseDuration) ==
      At(Occurrence(AsFields(ParseSpec(Expand(schedule)).fields), after, offset).value)
  {
    hide TrimSpace, ParseSpec, Expand, Occurrence;
  }

  /** Every preset parses and has a next time from every instant in every zone; in particular the
      hourly schedule that `Register` falls back to cannot fail. */
  lemma PresetsNeverFail(preset: string, after: int, offset: int, parseDuration: string -> Option<int>)
    requires preset in PRESETS
    ensures NextTime(preset, after, offset, parseDuration).At?
  {
    var (words, digits) := PresetWords(preset);
    PresetDigits(preset);
    PresetSpec(preset);
    PresetText(preset);
    hide PresetWords, PRESETS, ReadsAs, IsSimple, NextTime, ParseSpec, Expand, Itoa, TrimSpace, WellFormed, NeverFails, Occurrence, Star, Join;
    SimpleSpec(words, digits);
    var fields := ParseSpec(Expand(preset)).fields;
    ParsedWellFormed(Expand(preset));
    PresetNeverFails(preset, AsFields(fields), words, fields);
    NeverFailsMeaning(AsFields(fields));
    FoundIsNext(preset, after, offset, parseDuration);
  }
}
