/** What schedule texts mean, in minutes, hours and dates: written fields, the tables of names, presets
    and intervals. */
module CronMeaning {
  import opened Durations
  import opened Int64
  import opened Text
  import opened Calendar
  import opened CronField
  import opened CronNames
  import opened CronSearch
  import opened CronLaws
  import opened CronSchedule

  // ---------- one written field ----------

  /** The range of a field: minutes, hours, days of the month, months, weekdays. */
  predicate InRange(index: nat, v: int) {
    match index
    case 0 => 0 <= v <= 59
    case 1 => 0 <= v <= 23
    case 2 => 1 <= v <= 31
    case 3 => 1 <= v <= 12
    case _ => 0 <= v <= 7
  }

  /** What a written item asks of a field: a star every value of the range, one number itself, or with a
      step itself and all that follow in the range, a range what lies in it; of these, with a step,
      every so many from the start on. */
  predicate AsksFor(f: Form, index: nat, v: int)
    requires Readable(f)
  {
    InRange(index, v) &&
    match f
    case Star(step) => step.Some? ==> (if index == 2 || index == 3 then v - 1 else v) % step.value == 0
    case From(lo, step) => if step.None? then v == lo else v >= lo && (v - lo) % step.value == 0
    case Between(lo, hi, step) => lo <= v <= hi && (step.Some? ==> (v - lo) % step.value == 0)
  }

  /** The bounds lie in the range, and in order. */
  predicate Fitting(f: Form, index: nat) {
    match f
    case Star(_) => true
    case From(lo, _) => InRange(index, lo)
    case Between(lo, hi, _) => InRange(index, lo) && InRange(index, hi) && lo <= hi
  }

  /** Digits, stars, dashes and slashes: what a form is written with. */
  predicate NoLetter(c: char) { UpperChar(c) == c && !('A' <= c <= 'Z') && c != ',' }

  lemma WrittenWithoutLetters(f: Form)
    ensures Over(Render(f), NoLetter)
  {
    if f.From? { DigitsOnly(Itoa(f.lo)); }
    if f.Between? {
      DigitsOnly(Itoa(f.lo));
      DigitsOnly(Itoa(f.hi));
    }
    if f.step.Some? { DigitsOnly(Itoa(f.step.value)); }
    hide Itoa;
    assert Over(RenderBase(f), NoLetter);
  }

  lemma NoLetterNoName(s: string, names: map<string, nat>)
    requires Over(s, NoLetter) && (names == MONTHS || names == WEEKDAYS)
    ensures s !in names
  {
    hide MONTHS, WEEKDAYS;
    if s in names { AllNames(s, names); }
  }

  lemma NoLetterNameFree(spec: string, index: nat)
    requires Over(spec, NoLetter) && (index == 3 || index == 4)
    ensures NameFree(spec, index)
  {
    hide MONTHS, WEEKDAYS, Split;
    ToUpperFixed(spec);
    SplitOver(spec, ',', NoLetter);
    forall i | 0 <= i < |Split(spec, ',')| ensures ItemNameFree(Split(spec, ',')[i], NamesOf(index)) {
      var item := Split(spec, ',')[i];
      SplitOver(item, '/', NoLetter);
      SplitOver(Split(item, '/')[0], '-', NoLetter);
      forall j | 0 <= j < |Split(Split(item, '/')[0], '-')|
        ensures Split(Split(item, '/')[0], '-')[j] !in NamesOf(index)
      {
        NoLetterNoName(Split(Split(item, '/')[0], '-')[j], NamesOf(index));
      }
    }
  }

  /** A form is one item, without names. */
  lemma FormIsItem(f: Form, index: nat)
    requires index < 5
    ensures Split(Render(f), ',') == [Render(f)]
    ensures ParsePart(Render(f), index) == ParseField(Render(f), RangeOf(index).0, RangeOf(index).1, index == 4)
  {
    hide Render, Normalize, ParseField, Split;
    WrittenWithoutLetters(f);
    SplitSingle(Render(f), ',');
    if index == 3 || index == 4 {
      NoLetterNameFree(Render(f), index);
      NameFreeSameParse(Render(f), index, RangeOf(index).0, RangeOf(index).1, index == 4);
    } else {
      assert Normalize(Render(f), index) == Render(f) by { UnnamedField(Render(f), index); }
    }
  }

  lemma UnnamedField(spec: string, index: nat)
    requires index != 3 && index != 4
    ensures Normalize(spec, index) == spec
  {
  }

  /** Only a star, with or without a step, is a wildcard. */
  lemma OnlyStarsAreWild(f: Form)
    ensures IsWildcard(Render(f)) <==> f.Star?
  {
    if f.Star? {
      assert f.step.Some? ==> Render(f)[..2] == "*/";
    } else {
      DigitsOnly(Itoa(f.lo));
      assert Render(f)[0] == Itoa(f.lo)[0];
    }
  }

  /** A field written as one item: it is refused exactly when its bounds are out of range or order. Else it
      selects what the item asks for, and 0 as well when that is weekday 7; a star is a wildcard, even
      with a step. Steps up to a thousand, so that nothing overflows. */
  lemma WrittenField(f: Form, index: nat)
    requires index < 5 && Readable(f) && (f.step.Some? ==> f.step.value <= 1000)
    ensures !Fitting(f, index) ==> ParsePart(Render(f), index) == Err(OutOfRange)
    ensures Fitting(f, index) ==> ParsePart(Render(f), index).Ok?
    ensures Fitting(f, index) ==>
      var field := ParsePart(Render(f), index).value;
      && (field.wildcard <==> f.Star?)
      && forall v :: v in field.values <==> AsksFor(f, index, v) || (index == 4 && v == 0 && AsksFor(f, index, 7))
  {
    var (min, max) := RangeOf(index);
    var s := Meaning(f, min, max);
    FormIsItem(f, index);
    RenderedItem(f, min, max);
    OnlyStarsAreWild(f);
    InRangeMeans(f, index);
    hide Render, IsWildcard, ParseItem, Meaning, Fitting, AsksFor, RangeOf, ParsePart, Stepped, Progression;
    if Fitting(f, index) {
      OneItemField(Render(f), min, max, index == 4);
      SteppedExact(s.lo, s.hi, s.step);
      SmallStep(s);
      forall v ensures v in Progression(s.lo, s.hi, s.step) <==> AsksFor(f, index, v) { AskedMeans(f, index, v); }
    } else {
      ItemRefused(Render(f), min, max);
    }
  }

  lemma InRangeMeans(f: Form, index: nat)
    requires index < 5 && Readable(f)
    ensures var s := Meaning(f, RangeOf(index).0, RangeOf(index).1);
      && (Fitting(f, index) <==> RangeOf(index).0 <= s.lo <= s.hi <= RangeOf(index).1)
      && s.step > 0 && (f.step.Some? ==> s.step == f.step.value) && (f.step.None? ==> s.step == 1)
  {
  }

  /** A field of one item. */
  lemma OneItemField(item: string, min: int, max: int, sundayAlias: bool)
    requires 0 <= min <= max <= 59 && Split(item, ',') == [item] && ParseItem(item, min, max).Ok?
    ensures var s := ParseItem(item, min, max).value; var values := Stepped(s.lo, s.hi, s.step);
      ParseField(item, min, max, sundayAlias) ==
        Ok(Field(if sundayAlias && 7 in values then values + {0} else values, IsWildcard(item), min, max))
  {
    hide ParseItem, Stepped, IsWildcard;
    ItemsOfOne(item, min, max);
    var s := ParseItem(item, min, max).value;
    SteppedExact(s.lo, s.hi, s.step);
  }

  lemma ItemRefused(item: string, min: int, max: int)
    requires 0 <= min <= max <= 59 && Split(item, ',') == [item] && ParseItem(item, min, max) == Err(OutOfRange)
    ensures forall sundayAlias :: ParseField(item, min, max, sundayAlias) == Err(OutOfRange)
  {
    hide ParseItem;
    assert [item][0] == item;
  }

  lemma SmallStep(s: Span)
    requires 0 <= s.lo <= s.hi <= 59 && 0 < s.step <= 1000
    ensures !Overflows(s)
  {
    var q, r := (s.hi - s.lo) / s.step, (s.hi - s.lo) % s.step;
    assert q * s.step == s.hi - s.lo - r;
  }

  lemma AskedMeans(f: Form, index: nat, v: int)
    requires index < 5 && Readable(f) && Fitting(f, index)
    ensures var s := Meaning(f, RangeOf(index).0, RangeOf(index).1);
      v in Progression(s.lo, s.hi, s.step) <==> AsksFor(f, index, v)
  {
    var s := Meaning(f, RangeOf(index).0, RangeOf(index).1);
    assert f.step.None? ==> (v - s.lo) % 1 == 0;
  }

  // ---------- items that are refused ----------

  /** The other ways an item is refused: empty, with two slashes, with a step that is not a positive number,
      with two dashes, or with a bound that is not a number. */
  lemma RefusedItems(a: string, b: string, c: string, min: int, max: int)
    requires '/' !in a && '/' !in b && '/' !in c && '-' !in a && '-' !in b && '-' !in c
    ensures ParseItem("", min, max) == Err(EmptyItem)
    ensures ParseItem(a + "/" + b + "/" + c, min, max) == Err(BadStep)
    ensures Atoi(b).None? || Atoi(b).value <= 0 ==> ParseItem(a + "/" + b, min, max) == Err(BadStep)
    ensures ParseItem(a + "-" + b + "-" + c, min, max) == Err(BadRange)
    ensures a != "" && a != "*" && Atoi(a).None? ==> ParseItem(a, min, max) == Err(BadValue)
    ensures Atoi(a).None? || Atoi(b).None? ==> ParseItem(a + "-" + b, min, max) == Err(BadValue)
  {
    hide Atoi;
    SplitThree(a, b, c, '/');
    SplitTwo(a, b, '/');
    SplitThree(a, b, c, '-');
    SplitTwo(a, b, '-');
    SplitSingle(a, '/');
    SplitSingle(a, '-');
    SplitSingle(a + "-" + b, '/');
    SplitSingle(a + "-" + b + "-" + c, '/');
    hide Split;
    assert '-' in a + "-" + b && '-' in a + "-" + b + "-" + c;
  }

  lemma SplitThree(a: string, b: string, c: string, sep: char)
    requires sep !in a && sep !in b && sep !in c
    ensures Split(a + [sep] + b + [sep] + c, sep) == [a, b, c]
  {
    var tail, parts := [b, c], [a, b, c];
    SplitJoin(parts, sep);
    assert parts[1..] == tail && tail[1..] == [c];
    assert Join(tail, sep) == b + [sep] + c;
    assert Join(parts, sep) == a + [sep] + Join(tail, sep);
    hide Split, Join;
    assert a + [sep] + (b + [sep] + c) == a + [sep] + b + [sep] + c;
  }

  /** Signs are read, and what is not a 64-bit number is not. */
  lemma SignedNumbers(n: nat, s: string)
    ensures n <= MAX_INT ==> Atoi("+" + Itoa(n)) == Some(n)
    ensures n <= MAX_INT ==> Atoi("-" + Itoa(n)).Some? && Atoi("-" + Itoa(n)).value + n == 0
    ensures n > MAX_INT ==> Atoi(Itoa(n)) == None
    ensures Atoi("") == None && Atoi("-") == None && Atoi("+") == None
    ensures s != "" && s[0] != '+' && s[0] != '-' && !AllDigits(s) ==> Atoi(s) == None
  {
    ItoaValue(n);
    DigitsOnly(Itoa(n));
    assert ("+" + Itoa(n))[1..] == Itoa(n) && ("-" + Itoa(n))[1..] == Itoa(n);
    hide Itoa, DigitsValue;
  }

  // ---------- the names ----------

  /** The months from January on are 1 to 12, and there are no other names for them. */
  lemma MonthNumbers(name: string, n: nat)
    ensures (name in MONTHS && MONTHS[name] == n) <==>
      (name == "JAN" && n == 1) || (name == "FEB" && n == 2) || (name == "MAR" && n == 3) || (name == "APR" && n == 4) ||
      (name == "MAY" && n == 5) || (name == "JUN" && n == 6) || (name == "JUL" && n == 7) || (name == "AUG" && n == 8) ||
      (name == "SEP" && n == 9) || (name == "OCT" && n == 10) || (name == "NOV" && n == 11) || (name == "DEC" && n == 12)
  {
  }

  /** The weekdays from Sunday on are 0 to 6, as in the calendar. */
  lemma WeekdayNumbers(name: string, n: nat)
    ensures (name in WEEKDAYS && WEEKDAYS[name] == n) <==>
      (name == "SUN" && n == 0) || (name == "MON" && n == 1) || (name == "TUE" && n == 2) || (name == "WED" && n == 3) ||
      (name == "THU" && n == 4) || (name == "FRI" && n == 5) || (name == "SAT" && n == 6)
  {
  }

  // ---------- whole specs ----------

  /** The field that a part parses to. */
  ghost predicate IsWritten(f: Form, index: nat, field: Field)
    requires Readable(f)
  {
    (field.wildcard <==> f.Star?) &&
    forall v :: v in field.values <==> AsksFor(f, index, v) || (index == 4 && v == 0 && AsksFor(f, index, 7))
  }

  function Texts(forms: seq<Form>): (r: seq<string>)
    ensures |r| == |forms| && forall i :: 0 <= i < |r| ==> r[i] == Render(forms[i])
  {
    if forms == [] then [] else [Render(forms[0])] + Texts(forms[1..])
  }

  predicate SmallSteps(forms: seq<Form>) {
    forall i :: 0 <= i < |forms| ==> Readable(forms[i]) && (forms[i].step.Some? ==> forms[i].step.value <= 1000)
  }

  lemma FormIsWord(f: Form)
    ensures IsWord(Render(f))
  {
    if f.From? { DigitsOnly(Itoa(f.lo)); }
    if f.Between? {
      DigitsOnly(Itoa(f.lo));
      DigitsOnly(Itoa(f.hi));
    }
    hide Itoa;
    assert RenderBase(f) != [] && forall i :: 0 <= i < |RenderBase(f)| ==> !IsSpace(RenderBase(f)[i]);
  }

  /** Five written items that fit: the spec parses, field by field. */
  lemma WrittenSpec(forms: seq<Form>)
    requires |forms| == 5 && SmallSteps(forms) && forall i :: 0 <= i < 5 ==> Fitting(forms[i], i)
    ensures ParseSpec(Join(Texts(forms), ' ')).Good?
    ensures var fields := ParseSpec(Join(Texts(forms), ' ')).fields;
      forall i :: 0 <= i < 5 ==> IsWritten(forms[i], i, fields[i])
  {
    hide Fitting, ParsePart, Render, IsWritten, IsWord, Texts, ParseSpec, Join;
    var words := Texts(forms);
    forall i | 0 <= i < 5
      ensures IsWord(words[i]) && ParsePart(words[i], i).Ok? && IsWritten(forms[i], i, ParsePart(words[i], i).value)
    {
      FormIsWord(forms[i]);
      PartIsWritten(forms[i], i);
    }
    WordsParse(words);
  }

  /** Five words that parse: the spec parses, word by word. */
  lemma WordsParse(words: seq<string>)
    requires |words| == 5 && forall i :: 0 <= i < 5 ==> IsWord(words[i]) && ParsePart(words[i], i).Ok?
    ensures ParseSpec(Join(words, ' ')).Good?
    ensures forall i :: 0 <= i < 5 ==> ParseSpec(Join(words, ' ')).fields[i] == ParsePart(words[i], i).value
  {
    hide ParsePart, IsWord, ParseFrom, Text.Fields, Join;
    FieldsOfWords(words);
    AllGood(words, 0);
    ParseFromFields(words, 0);
  }

  lemma PartIsWritten(f: Form, index: nat)
    requires index < 5 && Readable(f) && Fitting(f, index) && (f.step.Some? ==> f.step.value <= 1000)
    ensures ParsePart(Render(f), index).Ok? && IsWritten(f, index, ParsePart(Render(f), index).value)
  {
    hide ParsePart, Render, AsksFor;
    WrittenField(f, index);
  }

  /** A spec that is not five words is refused; else the first field that cannot be read is named, counting
      from one, with its error. */
  lemma RefusedSpecs(words: seq<string>, k: nat, error: FieldError)
    requires |words| >= 1 && forall i :: 0 <= i < |words| ==> IsWord(words[i])
    ensures |words| != 5 ==> ParseSpec(Join(words, ' ')) == Bad(FieldCount)
    ensures |words| == 5 ==>
      (ParseSpec(Join(words, ' ')) == Bad(BadField(k, error)) <==>
       1 <= k <= 5 && ParsePart(words[k - 1], k - 1) == Err(error) && forall i :: 0 <= i < k - 1 ==> ParsePart(words[i], i).Ok?)
  {
    hide ParseFrom, ParsePart, Text.Fields, Join, IsWord;
    FieldsOfWords(words);
    if |words| == 5 { FirstBadField(words, 0, k, error); }
  }

  lemma {:induction false} FirstBadField(parts: seq<string>, index: nat, k: nat, error: FieldError)
    requires |parts| == 5 && index <= 5
    ensures ParseFrom(parts, index) == Bad(BadField(k, error)) <==>
      index + 1 <= k <= 5 && ParsePart(parts[k - 1], k - 1) == Err(error) &&
      forall i :: index <= i < k - 1 ==> ParsePart(parts[i], i).Ok?
    decreases 5 - index
  {
    hide ParsePart;
    if index < 5 { FirstBadField(parts, index + 1, k, error); }
  }

  /** The fifth field allows a weekday. */
  predicate AllowsWeekday(f: Form, weekday: int)
    requires Readable(f)
  {
    AsksFor(f, 4, weekday) || (weekday == 0 && AsksFor(f, 4, 7))
  }

  /** When a written spec fires, by the clock and the calendar: at the minutes, hours and months asked for,
      and on the days that the day of the month asks for, or the weekday, or, with both restricted,
      either of them. */
  lemma WrittenSpecFires(forms: seq<Form>, date: Date, hour: int, minute: int)
    requires |forms| == 5 && SmallSteps(forms) && forall i :: 0 <= i < 5 ==> Fitting(forms[i], i)
    requires Valid(date) && 0 <= hour <= 23 && 0 <= minute <= 59
    ensures ParseSpec(Join(Texts(forms), ' ')).Good?
    ensures var f := AsFields(ParseSpec(Join(Texts(forms), ' ')).fields);
      var byDay, byWeekday := AsksFor(forms[2], 2, date.day), AllowsWeekday(forms[4], Weekday(date));
      Matches(f, DayNumber(date) * 1440 + hour * 60 + minute) <==>
        AsksFor(forms[0], 0, minute) && AsksFor(forms[1], 1, hour) && AsksFor(forms[3], 3, date.month) &&
        if forms[2].Star? then byWeekday else if forms[4].Star? then byDay else byDay || byWeekday
  {
    WrittenSpec(forms);
    var fields := ParseSpec(Join(Texts(forms), ' ')).fields;
    assert IsWritten(forms[0], 0, fields[0]) && IsWritten(forms[1], 1, fields[1]) && IsWritten(forms[2], 2, fields[2]);
    assert IsWritten(forms[3], 3, fields[3]) && IsWritten(forms[4], 4, fields[4]);
    hide ParseSpec, Join, Texts, AsksFor, Fitting, DayNumber, Matches;
    FieldsFire(forms, AsFields(fields), date, hour, minute);
  }

  lemma FieldsFire(forms: seq<Form>, f: Fields, date: Date, hour: int, minute: int)
    requires |forms| == 5 && SmallSteps(forms) && Valid(date) && 0 <= hour <= 23 && 0 <= minute <= 59
    requires IsWritten(forms[0], 0, f.minute) && IsWritten(forms[1], 1, f.hour) && IsWritten(forms[2], 2, f.dayOfMonth)
    requires IsWritten(forms[3], 3, f.month) && IsWritten(forms[4], 4, f.dayOfWeek)
    ensures var byDay, byWeekday := AsksFor(forms[2], 2, date.day), AllowsWeekday(forms[4], Weekday(date));
      Matches(f, DayNumber(date) * 1440 + hour * 60 + minute) <==>
        AsksFor(forms[0], 0, minute) && AsksFor(forms[1], 1, hour) && AsksFor(forms[3], 3, date.month) &&
        if forms[2].Star? then byWeekday else if forms[4].Star? then byDay else byDay || byWeekday
  {
    hide DayNumber, Matches, AsksFor;
    MatchesAt(f, date, hour, minute);
  }

  // ---------- presets and intervals ----------

  /** The items a preset stands for. */
  function PresetForms(preset: string): seq<Form>
    requires preset in PRESETS
  {
    var star, zero, one := Star(None), From(0, None), From(1, None);
    if preset == "@hourly" then [zero, star, star, star, star]
    else if preset == "@daily" || preset == "@midnight" then [zero, zero, star, star, star]
    else if preset == "@weekly" then [zero, zero, star, star, zero]
    else if preset == "@monthly" then [zero, zero, one, star, star]
    else [zero, zero, one, one, star]
  }

  lemma PresetText(preset: string)
    requires preset in PRESETS
    ensures |PresetForms(preset)| == 5 && SmallSteps(PresetForms(preset))
    ensures forall i :: 0 <= i < 5 ==> Fitting(PresetForms(preset)[i], i)
    ensures Texts(PresetForms(preset)) == PresetWords(preset).0
  {
    SimpleForms();
    hide Render, Texts;
    var forms, words := PresetForms(preset), PresetWords(preset).0;
    assert forall i :: 0 <= i < 5 ==> Render(forms[i]) == words[i];
  }

  lemma SimpleForms()
    ensures Render(Star(None)) == "*" && Render(From(0, None)) == "0" && Render(From(1, None)) == "1"
  {
  }

  /** When the presets fire: on the hour; at midnight every day, on Sundays, on the first of a month, on
      1 January. */
  lemma PresetFires(preset: string, date: Date, hour: int, minute: int)
    requires preset in PRESETS && Valid(date) && 0 <= hour <= 23 && 0 <= minute <= 59
    ensures ParseSpec(Expand(preset)).Good?
    ensures var f := AsFields(ParseSpec(Expand(preset)).fields);
      Matches(f, DayNumber(date) * 1440 + hour * 60 + minute) <==>
        minute == 0 && (preset != "@hourly" ==> hour == 0) && (preset == "@weekly" ==> Weekday(date) == 0) &&
        (preset == "@monthly" || preset == "@yearly" || preset == "@annually" ==> date.day == 1) &&
        (preset == "@yearly" || preset == "@annually" ==> date.month == 1)
  {
    var forms := PresetForms(preset);
    PresetText(preset);
    PresetSpec(preset);
    PresetAsks(preset, date, hour, minute);
    hide PresetForms, PresetWords, ParseSpec, Expand, Join, Texts, AsksFor, DayNumber, Matches, Fitting, Weekday;
    WrittenSpecFires(forms, date, hour, minute);
  }

  lemma PresetAsks(preset: string, date: Date, hour: int, minute: int)
    requires preset in PRESETS && Valid(date) && 0 <= hour <= 23 && 0 <= minute <= 59
    requires |PresetForms(preset)| == 5 && SmallSteps(PresetForms(preset))
    ensures var forms := PresetForms(preset);
      var byDay, byWeekday := AsksFor(forms[2], 2, date.day), AllowsWeekday(forms[4], Weekday(date));
      (AsksFor(forms[0], 0, minute) && AsksFor(forms[1], 1, hour) && AsksFor(forms[3], 3, date.month) &&
       if forms[2].Star? then byWeekday else if forms[4].Star? then byDay else byDay || byWeekday) <==>
        minute == 0 && (preset != "@hourly" ==> hour == 0) && (preset == "@weekly" ==> Weekday(date) == 0) &&
        (preset == "@monthly" || preset == "@yearly" || preset == "@annually" ==> date.day == 1) &&
        (preset == "@yearly" || preset == "@annually" ==> date.month == 1)
  {
    hide DayNumber;
  }

  /** An interval counts from the instant asked about; a duration that is not positive is refused. */
  lemma IntervalTime(w: string, after: int, offset: int, parseDuration: string -> Option<int>)
    requires w != [] && !IsSpace(w[0]) && !IsSpace(w[|w| - 1])
    ensures NextTime("@every " + w, after, offset, parseDuration) ==
      match parseDuration(w)
      case None => Error(BadInterval)
      case Some(d) => if d <= 0 then Error(BadInterval) else At(after + d)
  {
    var text := "@every " + w;
    assert text[0] == '@' && text[|text| - 1] == w[|w| - 1] && text[7..] == w;
    UntrimmedText(text);
    UntrimmedText(w);
    hide TrimSpace;
  }

  /** A five-field text has the next time of the fields it parses to. */
  lemma SpecTime(schedule: string, now: int, offset: int, parseDuration: string -> Option<int>)
    requires TrimSpace(schedule) == schedule && !("@every " <= schedule) && Expand(schedule) == schedule
    requires ParseSpec(schedule).Good?
    ensures NextTime(schedule, now, offset, parseDuration) ==
      match Occurrence(AsFields(ParseSpec(schedule).fields), now, offset)
      case None => Error(NoOccurrence)
      case Some(t) => At(t)
  {
    hide TrimSpace, ParseSpec, Expand, Occurrence;
  }

  // ---------- a dated example ----------

  /** `0 0 13 * 5`, asked on Friday 10 January 2025 at midnight: the next time is Monday the 13th, and from
      there Friday the 17th. */
  lemma ThirteenthOrFriday(parseDuration: string -> Option<int>)
    ensures var next := (now: int) => NextTime("0 0 13 * 5", now, 0, parseDuration);
      && next(DayNumber(Date(2025, 1, 10)) * DAY) == At(DayNumber(Date(2025, 1, 13)) * DAY)
      && next(DayNumber(Date(2025, 1, 13)) * DAY) == At(DayNumber(Date(2025, 1, 17)) * DAY)
  {
    ThirteenthText();
    ThirteenthFields();
    hide DayNumber, ParseSpec, NextTime;
    ThirteenthTimes("0 0 13 * 5", parseDuration);
  }

  predicate OnThirteenthOrFriday(f: Fields) {
    f.minute.values == {0} && f.hour.values == {0} && (forall m :: 1 <= m <= 12 ==> m in f.month.values) &&
    f.dayOfMonth.values == {13} && !f.dayOfMonth.wildcard && f.dayOfWeek.values == {5} && !f.dayOfWeek.wildcard
  }

  lemma ThirteenthText()
    ensures var s := "0 0 13 * 5"; TrimSpace(s) == s && !("@every " <= s) && Expand(s) == s
  {
    hide TrimSpace;
    UntrimmedText("0 0 13 * 5");
    EveryPrefix("0 0 13 * 5");
  }

  lemma ThirteenthFields()
    ensures var spec := ParseSpec("0 0 13 * 5"); spec.Good? && OnThirteenthOrFriday(AsFields(spec.fields))
  {
    var words: seq<string>, numbers := ["0", "0", "13", "*", "5"], [0, 0, 13, 0, 5];
    assert Itoa(0) == "0" && Itoa(13) == "13" && Itoa(5) == "5";
    ThirteenthWords();
    hide ParseSpec, Itoa, Join;
    SimpleSpec(words, numbers);
    var fields := ParseSpec("0 0 13 * 5").fields;
    hide ReadsAs, OnThirteenthOrFriday;
    assert forall i :: 0 <= i < 5 ==> ReadsAs(words[i], numbers[i], i, fields[i]);
    FieldsOfThirteenth(fields);
  }

  lemma FieldsOfThirteenth(fields: seq<Field>)
    requires |fields| == 5
    requires ReadsAs("0", 0, 0, fields[0]) && ReadsAs("0", 0, 1, fields[1]) && ReadsAs("13", 13, 2, fields[2])
    requires ReadsAs("*", 0, 3, fields[3]) && ReadsAs("5", 5, 4, fields[4])
    ensures OnThirteenthOrFriday(AsFields(fields))
  {
  }

  lemma ThirteenthWords()
    ensures Join(["0", "0", "13", "*", "5"], ' ') == "0 0 13 * 5"
  {
    JoinNext("0", ["0", "13", "*", "5"]);
    JoinNext("0", ["13", "*", "5"]);
    JoinNext("13", ["*", "5"]);
    JoinNext("*", ["5"]);
  }

  lemma ThirteenthTimes(s: string, parseDuration: string -> Option<int>)
    requires TrimSpace(s) == s && !("@every " <= s) && Expand(s) == s
    requires ParseSpec(s).Good? && OnThirteenthOrFriday(AsFields(ParseSpec(s).fields))
    ensures NextTime(s, DayNumber(Date(2025, 1, 10)) * DAY, 0, parseDuration) == At(DayNumber(Date(2025, 1, 13)) * DAY)
    ensures NextTime(s, DayNumber(Date(2025, 1, 13)) * DAY, 0, parseDuration) == At(DayNumber(Date(2025, 1, 17)) * DAY)
  {
    hide DayNumber, ParseSpec, TrimSpace, NextTime, Expand, Occurrence, OnThirteenthOrFriday;
    JanuaryNumbers();
    var f := AsFields(ParseSpec(s).fields);
    NextOnDay(f, 739260, 739263);
    NextOnDay(f, 739263, 739267);
    SpecTime(s, 739260 * DAY, 0, parseDuration);
    SpecTime(s, 739263 * DAY, 0, parseDuration);
  }

  lemma JanuaryNumbers()
    ensures DayNumber(Date(2025, 1, 10)) == 739260 && DayNumber(Date(2025, 1, 13)) == 739263
    ensures DayNumber(Date(2025, 1, 17)) == 739267
  {
  }

  /** From the midnight that opens day `n` on, the next time is the midnight of day `k`. */
  lemma NextOnDay(f: Fields, n: int, k: int)
    requires OnThirteenthOrFriday(f) && ((n == 739260 && k == 739263) || (n == 739263 && k == 739267))
    ensures Occurrence(f, n * DAY, 0) == Some(k * DAY)
  {
    forall m | n * 1440 < m < k * 1440 ensures !Matches(f, m) { NotBefore(f, n, k, m); }
    MidnightMatches(f, k);
    StartMinuteValue(n * DAY, 0);
    assert StartMinute(n * DAY, 0) == n * 1440 + 1;
    WeekSearched(n * DAY, n);
    hide Matches, StartMinute, EndDay, OnThirteenthOrFriday;
    OccurrenceMeaning(f, n * DAY, 0);
    assert IsFirst(f, n * DAY, 0, k * 1440);
  }

  lemma WeekSearched(after: int, n: int)
    requires after == n * DAY
    ensures EndDay(after, 0) > n + 7
  {
    var date := StartDate(after, 0);
    assert DayNumber(date) == n by { hide DayNumber, DateOf; }
    FiveYearsOn(date);
    hide DayNumber, StartDate, EndDay;
    WindowBounds(after, 0);
    WeekWithin(date, AddYears(date, 5));
  }

  lemma WeekWithin(date: Date, later: Date)
    requires Valid(date) && Valid(later) && later.year == date.year + 5
    ensures DayNumber(later) > DayNumber(date) + 7
  {
    var next := Date(date.year + 2, 1, 1);
    hide DayNumber;
    DayNumberOrder(next, later);
    DayNumberOrder(date, Date(date.year + 1, 1, 1));
    assert DayNumber(next) >= DayNumber(Date(date.year + 1, 1, 1)) + 31 by { MonthApart(date.year + 1); }
  }

  lemma MonthApart(year: int)
    ensures DayNumber(Date(year + 1, 1, 1)) >= DayNumber(Date(year, 1, 1)) + 31
  {
    DaysBeforeNextYear(year);
  }

  lemma DaysOfJanuary(n: int)
    requires 739260 <= n <= 739267
    ensures DateOf(n) == Date(2025, 1, n - 739250) && Weekday(DateOf(n)) == (n + 1) % 7
  {
    var date := Date(2025, 1, n - 739250);
    assert DayNumber(date) == n;
    DateOfDayNumber(date);
  }

  lemma NotBefore(f: Fields, n: int, k: int, m: int)
    requires OnThirteenthOrFriday(f) && ((n == 739260 && k == 739263) || (n == 739263 && k == 739267))
    requires n * 1440 < m < k * 1440
    ensures !Matches(f, m)
  {
    JanuaryDay(f, m / 1440);
    OnlyMidnight(f, m % 1440);
    hide DateOf, DateMatches, ClockMatches, OnThirteenthOrFriday;
  }

  /** Of these days the 10th, the 13th and the 17th are selected. */
  lemma JanuaryDay(f: Fields, n: int)
    requires OnThirteenthOrFriday(f) && 739260 <= n <= 739267
    ensures DateMatches(f, DateOf(n)) <==> n == 739260 || n == 739263 || n == 739267
  {
    hide DateOf, DayNumber, Weekday, OnThirteenthOrFriday, DateMatches, Valid;
    DaysOfJanuary(n);
    FridaysHere(n);
    SelectedDate(f, DateOf(n));
  }

  lemma FridaysHere(n: int)
    requires 739260 <= n <= 739267
    ensures (n + 1) % 7 == 5 <==> n == 739260 || n == 739267
  {
  }

  lemma SelectedDate(f: Fields, date: Date)
    requires OnThirteenthOrFriday(f) && Valid(date)
    ensures DateMatches(f, date) <==> date.day == 13 || Weekday(date) == 5
  {
    hide Weekday, DayNumber;
  }

  lemma OnlyMidnight(f: Fields, clock: int)
    requires OnThirteenthOrFriday(f) && 0 <= clock < 1440
    ensures ClockMatches(f, clock) <==> clock == 0
  {
  }

  lemma MidnightMatches(f: Fields, k: int)
    requires OnThirteenthOrFriday(f) && (k == 739263 || k == 739267)
    ensures Matches(f, k * 1440)
  {
    JanuaryDay(f, k);
    OnlyMidnight(f, 0);
    AtMidnight(f, k);
  }

  lemma AtMidnight(f: Fields, k: int)
    requires DateMatches(f, DateOf(k)) && ClockMatches(f, 0)
    ensures Matches(f, k * 1440)
  {
    hide DateOf, DateMatches, ClockMatches;
    assert k * 1440 / 1440 == k && k * 1440 % 1440 == 0;
  }
}
