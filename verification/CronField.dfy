/** Parsing of one field of a cron schedule: `normalizeCronField` and `parseCronField`. */
module CronField {
  import opened Int64
  import opened Text

  datatype FieldError = EmptyItem | BadStep | BadRange | BadValue | OutOfRange | NoValues

  datatype Parsed<+T> = Ok(value: T) | Err(error: FieldError)

  datatype Field = Field(values: set<int>, wildcard: bool, min: int, max: int)

  /** What one list item asks for: from `lo` to `hi` by `step`. */
  datatype Span = Span(lo: int, hi: int, step: int)

  // ---------- 64-bit stepping ----------

  /** {lo, lo + step, ...} up to `hi`. */
  function Progression(lo: int, hi: int, step: int): set<int>
    requires step > 0
  {
    set v | lo <= v <= hi && OnStride(lo, step, v)
  }

  predicate OnStride(lo: int, step: int, v: int)
    requires step > 0
  {
    (v - lo) % step == 0
  }

  /** Rounds left in the stepping loop. A step that can overflow sends a value below zero
      and, one round later, at least two below where it was. */
  function Rounds(value: int, hi: int, step: int): nat
    requires 0 <= hi <= 59 && 0 < step <= MAX_INT
  {
    if value > hi then 0
    else if step <= MAX_INT - hi then hi - value + 1
    else if value >= 0 then 2 * value + 2
    else if value + step > hi then 1
    else if value + step >= 0 then 2 * (value + step) + 3
    else 2
  }

  /** The values the stepping loop records from `value` on, in 64-bit arithmetic. */
  function Stepped(value: int, hi: int, step: int): set<int>
    requires 0 <= hi <= 59 && 0 < step <= MAX_INT && -MAX_INT - 1 <= value
    decreases Rounds(value, hi, step)
  {
    if value > hi then {} else {value} + Stepped(Wrap64(value + step), hi, step)
  }

  /** The last member of the progression, plus the step, leaves the 64-bit range. */
  predicate Overflows(s: Span)
    requires s.lo <= s.hi && s.step > 0
  {
    s.lo + (s.hi - s.lo) / s.step * s.step + s.step > MAX_INT
  }

  /** One step of the closed form. */
  lemma ProgressionStep(lo: int, hi: int, step: int)
    requires step > 0 && lo <= hi
    ensures Progression(lo, hi, step) == {lo} + Progression(lo + step, hi, step)
  {
    forall v | lo <= v <= hi
      ensures OnStride(lo, step, v) <==> v == lo || (lo + step <= v && OnStride(lo + step, step, v))
    {
      if v - lo >= step {
        ModSubtract(v - lo, step);
      } else {
        ModUnique(v - lo, step, 0, v - lo);
      }
    }
  }

  lemma ModSubtract(a: int, m: int)
    requires m > 0
    ensures (a - m) % m == a % m
  {
    ModUnique(a - m, m, a / m - 1, a % m);
  }

  lemma QuotientStep(lo: int, hi: int, step: int)
    requires step > 0 && lo + step <= hi
    ensures (hi - lo) / step == (hi - (lo + step)) / step + 1
  {
    var q, r := (hi - lo) / step, (hi - lo) % step;
    assert hi - (lo + step) == (q - 1) * step + r;
    ModUnique(hi - (lo + step), step, q - 1, r);
  }

  /** The loop records the progression exactly when no step leaves the 64-bit range; otherwise
      it records a negative number too. */
  lemma {:induction false} SteppedExact(lo: int, hi: int, step: int)
    requires 0 <= lo <= hi <= 59 && 0 < step <= MAX_INT
    ensures lo in Stepped(lo, hi, step)
    ensures !Overflows(Span(lo, hi, step)) ==> Stepped(lo, hi, step) == Progression(lo, hi, step)
    ensures Overflows(Span(lo, hi, step)) ==> exists v :: v in Stepped(lo, hi, step) && v < 0
    decreases hi - lo
  {
    ProgressionStep(lo, hi, step);
    if lo + step <= hi {
      QuotientStep(lo, hi, step);
      var q := (hi - (lo + step)) / step;
      assert (q + 1) * step == q * step + step;
      SteppedExact(lo + step, hi, step);
      if Overflows(Span(lo, hi, step)) {
        var v :| v in Stepped(lo + step, hi, step) && v < 0;
        assert v in Stepped(lo, hi, step);
      }
    } else {
      ModUnique(hi - lo, step, 0, hi - lo);
      assert (hi - lo) / step * step == 0;
      assert Progression(lo + step, hi, step) == {};
      if Overflows(Span(lo, hi, step)) {
        assert Wrap64(lo + step) in Stepped(Wrap64(lo + step), hi, step);
        assert Wrap64(lo + step) in Stepped(lo, hi, step);
      }
    }
  }

  /** A value that comes back from an overflow: below the start by a multiple of twice the distance
      between the step and 2^63. */
  predicate Stray(s: Span, v: int)
    requires 0 < s.step <= MAX_INT
  {
    v < s.lo && (s.lo - v) % (2 * (MAX_INT + 1 - s.step)) == 0
  }

  lemma NoStrays(s: Span, v: int)
    requires 0 < s.step <= MAX_INT && 0 <= v && s.lo < 2 * (MAX_INT + 1 - s.step)
    ensures !Stray(s, v)
  {
    if v < s.lo { ModUnique(s.lo - v, 2 * (MAX_INT + 1 - s.step), 0, s.lo - v); }
  }

  lemma StrayStep(s: Span, v: int)
    requires 0 < s.step <= MAX_INT
    ensures var gap := 2 * (MAX_INT + 1 - s.step); var back := Span(s.lo - gap, s.hi, s.step);
      Stray(s, v) <==> v == back.lo || Stray(back, v)
  {
    var gap := 2 * (MAX_INT + 1 - s.step);
    ModSubtract(s.lo - v, gap);
    if s.lo - gap < v < s.lo { ModUnique(s.lo - v, gap, 0, s.lo - v); }
    if v == s.lo - gap { ModUnique(gap, gap, 1, 0); }
  }

  lemma OneTerm(lo: int, hi: int, step: int, v: int)
    requires step > hi - lo
    requires step > 0
    ensures v in Progression(lo, hi, step) <==> v == lo <= hi
  {
    if lo < v <= hi { ModUnique(v - lo, step, 0, v - lo); }
    if v == lo { ModUnique(0, step, 0, 0); }
  }

  lemma NextStep(lo: int, hi: int, step: int)
    requires 0 <= lo <= hi <= 59 && 0 < step && lo + step <= MAX_INT
    ensures Stepped(lo, hi, step) == {lo} + if lo + step <= hi then Stepped(lo + step, hi, step) else {}
  {
  }

  /** A step that overflows: the next value is negative, and the one after it lies below the start. */
  lemma WrapTwice(lo: int, hi: int, step: int)
    requires 0 <= lo <= hi <= 59 && 0 < step <= MAX_INT < lo + step
    ensures var back := lo - 2 * (MAX_INT + 1 - step);
      if back < 0 then forall v :: v >= 0 ==> (v in Stepped(lo, hi, step) <==> v == lo)
      else forall v :: v >= 0 ==> (v in Stepped(lo, hi, step) <==> v == lo || v in Stepped(back, hi, step))
  {
    var back, wrapped := lo - 2 * (MAX_INT + 1 - step), Wrap64(lo + step);
    assert wrapped < 0 && Wrap64(wrapped + step) == back;
    assert Stepped(lo, hi, step) == {lo} + Stepped(wrapped, hi, step);
    assert Stepped(wrapped, hi, step) == {wrapped} + Stepped(back, hi, step);
    if back < 0 {
      assert Wrap64(back + step) > hi;
      assert Stepped(back, hi, step) == {back} + Stepped(Wrap64(back + step), hi, step);
    }
  }

  /** All that the loop records that can ever be looked up: the progression, and the stray values. */
  lemma {:induction false} SteppedStrays(lo: int, hi: int, step: int, v: int)
    requires 0 <= lo <= hi <= 59 && 0 < step <= MAX_INT && v >= 0
    ensures v in Stepped(lo, hi, step) <==> v in Progression(lo, hi, step) || Stray(Span(lo, hi, step), v)
    decreases if step <= 59 then hi - lo else lo
  {
    if lo + step <= MAX_INT {
      if lo + step <= hi { SteppedStrays(lo + step, hi, step, v); }
      NextStrays(lo, hi, step, v);
    } else {
      var back := lo - 2 * (MAX_INT + 1 - step);
      if back >= 0 { SteppedStrays(back, hi, step, v); }
      BackStrays(lo, hi, step, v, back);
    }
  }

  lemma NextStrays(lo: int, hi: int, step: int, v: int)
    requires 0 <= lo <= hi <= 59 && 0 < step && lo + step <= MAX_INT && v >= 0
    requires lo + step <= hi ==>
      (v in Stepped(lo + step, hi, step) <==> v in Progression(lo + step, hi, step) || Stray(Span(lo + step, hi, step), v))
    ensures v in Stepped(lo, hi, step) <==> v in Progression(lo, hi, step) || Stray(Span(lo, hi, step), v)
  {
    ProgressionStep(lo, hi, step);
    NoStrays(Span(lo, hi, step), v);
    hide Stray, Progression, Stepped;
    NextStep(lo, hi, step);
    if lo + step <= hi {
      NoStrays(Span(lo + step, hi, step), v);
    } else {
      OneTerm(lo, hi, step, v);
    }
  }

  lemma BackStrays(lo: int, hi: int, step: int, v: int, back: int)
    requires 0 <= lo <= hi <= 59 && 0 < step <= MAX_INT < lo + step && v >= 0
    requires back == lo - 2 * (MAX_INT + 1 - step)
    requires back >= 0 ==>
      (v in Stepped(back, hi, step) <==> v in Progression(back, hi, step) || Stray(Span(back, hi, step), v))
    ensures v in Stepped(lo, hi, step) <==> v in Progression(lo, hi, step) || Stray(Span(lo, hi, step), v)
  {
    hide Stray, Progression, Stepped;
    WrapTwice(lo, hi, step);
    OneTerm(lo, hi, step, v);
    if back >= 0 {
      StrayStep(Span(lo, hi, step), v);
      OneTerm(back, hi, step, v);
    } else {
      NoStrays(Span(lo, hi, step), v);
    }
  }

  /** So an item is read as it is meant if and only if the value two wraps below its start lies below
      the range: the overflow must reach back into it. */
  lemma StraysExist(s: Span, min: int, max: int)
    requires 0 <= min <= s.lo <= s.hi <= max <= 59 && 0 < s.step <= MAX_INT
    ensures (forall v :: min <= v <= max ==> (v in Stepped(s.lo, s.hi, s.step) <==> v in Progression(s.lo, s.hi, s.step))) <==>
      s.lo - 2 * (MAX_INT + 1 - s.step) < min
  {
    var back := s.lo - 2 * (MAX_INT + 1 - s.step);
    if back < min {
      forall v | min <= v <= max
        ensures v in Stepped(s.lo, s.hi, s.step) <==> v in Progression(s.lo, s.hi, s.step)
      {
        SteppedStrays(s.lo, s.hi, s.step, v);
        StrayStep(s, v);
      }
    } else {
      SteppedStrays(s.lo, s.hi, s.step, back);
      StrayStep(s, back);
    }
  }

  // ---------- parseCronField ----------

  /** The checks on a range with `count` bounds, of which the readable ones are given; `open`
      says that a step follows, so a lone start runs to `max`. */
  function CheckRange(count: int, first: Option<int>, second: Option<int>, open: bool, step: int,
                      min: int, max: int): (r: Parsed<Span>)
    ensures r.Ok? ==> min <= r.value.lo <= r.value.hi <= max && r.value.step == step
  {
    if count > 2 then Err(BadRange)
    else if first.None? || (count == 2 && second.None?) then Err(BadValue)
    else
      var lo := first.value;
      var hi := if count == 2 then second.value else if open then max else lo;
      if lo < min || hi > max || hi < lo then Err(OutOfRange) else Ok(Span(lo, hi, step))
  }

  function ParseRange(base: string, open: bool, step: int, min: int, max: int): (r: Parsed<Span>)
    ensures r.Ok? ==> min <= r.value.lo <= r.value.hi <= max && r.value.step == step
  {
    if base == "*" then
      if max < min then Err(OutOfRange) else Ok(Span(min, max, step))
    else
      var bounds := Split(base, '-');
      var second := if |bounds| == 2 then Atoi(bounds[1]) else None;
      CheckRange(|bounds|, Atoi(bounds[0]), second, open, step, min, max)
  }

  /** The checks one list item goes through. */
  function ParseItem(item: string, min: int, max: int): (r: Parsed<Span>)
    ensures r.Ok? ==> min <= r.value.lo <= r.value.hi <= max && 0 < r.value.step <= MAX_INT
  {
    var parts := Split(item, '/');
    if item == "" then Err(EmptyItem)
    else if |parts| > 2 then Err(BadStep)
    else if |parts| == 1 then ParseRange(item, false, 1, min, max)
    else
      var step := Atoi(parts[1]);
      if step.None? || step.value <= 0 then Err(BadStep)
      else ParseRange(parts[0], true, step.value, min, max)
  }

  /** All list items, in order; the first bad one decides the error. */
  function ParseItems(items: seq<string>, min: int, max: int): (r: Parsed<set<int>>)
    requires 0 <= min <= max <= 59
  {
    if items == [] then Ok({})
    else
      var first := ParseItem(items[0], min, max);
      if first.Err? then Err(first.error)
      else
        var rest := ParseItems(items[1..], min, max);
        if rest.Err? then rest
        else Ok(Stepped(first.value.lo, first.value.hi, first.value.step) + rest.value)
  }

  predicate IsWildcard(spec: string) {
    spec == "*" || "*/" <= spec
  }

  function ParseField(spec: string, min: int, max: int, sundayAlias: bool): Parsed<Field>
    requires 0 <= min <= max <= 59
  {
    var parsed := ParseItems(Split(spec, ','), min, max);
    if parsed.Err? then Err(parsed.error)
    else
      var values := if sundayAlias && 7 in parsed.value then parsed.value + {0} else parsed.value;
      if values == {} then Err(NoValues) else Ok(Field(values, IsWildcard(spec), min, max))
  }

  /** The part of the loop body of `parseCronField` that reads one item. */
  method ReadItem(item: string, min: int, max: int) returns (r: Parsed<Span>)
    ensures r == ParseItem(item, min, max)
  {
    if item == "" { return Err(EmptyItem); }
    var base, step := item, 1;
    var parts := Split(item, '/');
    if |parts| > 2 {
      return Err(BadStep);
    } else if |parts| == 2 {
      base := parts[0];
      var parsed := Atoi(parts[1]);
      if parsed.None? || parsed.value <= 0 { return Err(BadStep); }
      step := parsed.value;
    }
    var lo, hi := min, max;
    if base != "*" {
      var bounds := Split(base, '-');
      if |bounds| > 2 { return Err(BadRange); }
      var first := Atoi(bounds[0]);
      if first.None? { return Err(BadValue); }
      lo := first.value;
      hi := lo;
      if |bounds| == 1 && |parts| == 2 { hi := max; }
      if |bounds| == 2 {
        var second := Atoi(bounds[1]);
        if second.None? { return Err(BadValue); }
        hi := second.value;
      }
    }
    if lo < min || hi > max || hi < lo { return Err(OutOfRange); }
    return Ok(Span(lo, hi, step));
  }

  /** The stepping loop of `parseCronField`. */
  method FillValues(before: set<int>, s: Span) returns (values: set<int>)
    requires 0 <= s.lo <= s.hi <= 59 && 0 < s.step <= MAX_INT
    ensures values == before + Stepped(s.lo, s.hi, s.step)
  {
    values := before;
    var value := s.lo;
    while value <= s.hi
      invariant -MAX_INT - 1 <= value
      invariant before + Stepped(s.lo, s.hi, s.step) == values + Stepped(value, s.hi, s.step)
      decreases Rounds(value, s.hi, s.step)
    {
      values := values + {value};
      value := Wrap64(value + s.step);
    }
  }

  /** `parseCronField` as it runs: one pass over the items, filling `values` value by value. */
  method ParseCronField(spec: string, min: int, max: int, sundayAlias: bool) returns (r: Parsed<Field>)
    requires 0 <= min <= max <= 59
    ensures r == ParseField(spec, min, max, sundayAlias)
  {
    hide ParseItem, Stepped;
    var values: set<int> := {};
    var items := Split(spec, ',');
    ghost var whole := ParseItems(items, min, max);
    assert items[0..] == items && (whole.Ok? ==> values + whole.value == whole.value);
    var i := 0;
    while i < |items|
      invariant 0 <= i <= |items|
      invariant var rest := ParseItems(items[i..], min, max);
        whole == if rest.Err? then rest else Ok(values + rest.value)
    {
      assert items[i..][1..] == items[i + 1..];
      var item := ReadItem(items[i], min, max);
      if item.Err? { return Err(item.error); }
      ghost var before, rest := values, ParseItems(items[i + 1..], min, max);
      values := FillValues(values, item.value);
      if rest.Ok? {
        var added := Stepped(item.value.lo, item.value.hi, item.value.step);
        assert before + (added + rest.value) == values + rest.value;
      }
      i := i + 1;
    }
    if sundayAlias && 7 in values { values := values + {0}; }
    if values == {} { return Err(NoValues); }
    return Ok(Field(values, IsWildcard(spec), min, max));
  }

  /** The values item `i` of a list asks for. */
  ghost predicate Asked(spec: string, min: int, max: int, i: int, v: int) {
    0 <= i < |Split(spec, ',')| &&
    var item := ParseItem(Split(spec, ',')[i], min, max);
    item.Ok? && v in Progression(item.value.lo, item.value.hi, item.value.step)
  }

  /** Some item's stepping leaves the 64-bit range. */
  ghost predicate StepsTooFar(spec: string, min: int, max: int) {
    exists i :: 0 <= i < |Split(spec, ',')| &&
      var item := ParseItem(Split(spec, ',')[i], min, max); item.Ok? && Overflows(item.value)
  }

  /** What an accepted field is meant to select: the union over its items, and Sunday as 0
      when weekday 7 is asked for. */
  ghost predicate Selects(spec: string, min: int, max: int, sundayAlias: bool, v: int) {
    (exists i :: Asked(spec, min, max, i, v)) ||
    (sundayAlias && v == 0 && exists i :: Asked(spec, min, max, i, 7))
  }

  lemma {:induction false} ParseItemsValues(items: seq<string>, min: int, max: int)
    requires 0 <= min <= max <= 59
    ensures ParseItems(items, min, max).Ok? <==>
      forall i :: 0 <= i < |items| ==> ParseItem(items[i], min, max).Ok?
    ensures ParseItems(items, min, max).Ok? ==> forall v :: v in ParseItems(items, min, max).value <==>
      exists i :: 0 <= i < |items| && var s := ParseItem(items[i], min, max).value; v in Stepped(s.lo, s.hi, s.step)
  {
    hide ParseItem, Stepped;
    if items != [] {
      ParseItemsValues(items[1..], min, max);
      var r, rest := ParseItems(items, min, max), ParseItems(items[1..], min, max);
      assert forall i :: 1 <= i < |items| ==> items[i] == items[1..][i - 1];
      assert forall i :: 0 <= i < |items[1..]| ==> items[1..][i] == items[i + 1];
      if r.Ok? {
        forall v ensures v in r.value <==>
          exists i :: 0 <= i < |items| && var s := ParseItem(items[i], min, max).value; v in Stepped(s.lo, s.hi, s.step)
        {
          if v in rest.value {
            var i :| 0 <= i < |items[1..]| &&
              var s := ParseItem(items[1..][i], min, max).value; v in Stepped(s.lo, s.hi, s.step);
            assert items[i + 1] == items[1..][i];
          }
        }
      }
    }
  }

  /** An accepted field selects exactly what its items ask for if and only if no item's
      stepping leaves the 64-bit range; either way it selects some value within its range. */
  lemma FieldSelection(spec: string, min: int, max: int, sundayAlias: bool)
    requires 0 <= min <= max <= 59
    requires ParseField(spec, min, max, sundayAlias).Ok?
    ensures var f := ParseField(spec, min, max, sundayAlias).value;
      && (exists v :: v in f.values && min <= v <= max)
      && (sundayAlias && 7 in f.values ==> 0 in f.values)
      && ((forall v :: v in f.values <==> Selects(spec, min, max, sundayAlias, v)) <==>
          !StepsTooFar(spec, min, max))
  {
    hide ParseItem, Stepped, Overflows, ParseItems;
    var items := Split(spec, ',');
    var f := ParseField(spec, min, max, sundayAlias).value;
    var values := ParseItems(items, min, max).value;
    ParseItemsValues(items, min, max);
    forall i | 0 <= i < |items| ensures ParseItem(items[i], min, max).Ok? &&
      var s := ParseItem(items[i], min, max).value; s.lo in Stepped(s.lo, s.hi, s.step)
    {
      var s := ParseItem(items[i], min, max).value;
      SteppedExact(s.lo, s.hi, s.step);
    }
    assert ParseItem(items[0], min, max).value.lo in f.values;
    if StepsTooFar(spec, min, max) {
      var i :| 0 <= i < |items| && Overflows(ParseItem(items[i], min, max).value);
      var s := ParseItem(items[i], min, max).value;
      SteppedExact(s.lo, s.hi, s.step);
      var v :| v in Stepped(s.lo, s.hi, s.step) && v < 0;
      assert v in f.values && !Selects(spec, min, max, sundayAlias, v);
    } else {
      forall v ensures v in values <==> exists i :: Asked(spec, min, max, i, v) {
        forall i | 0 <= i < |items|
          ensures var s := ParseItem(items[i], min, max).value;
            v in Stepped(s.lo, s.hi, s.step) <==> Asked(spec, min, max, i, v)
        {
          var s := ParseItem(items[i], min, max).value;
          SteppedExact(s.lo, s.hi, s.step);
        }
      }
    }
  }

  /** Item `i` of the list records the stray value `v`. */
  ghost predicate StrayAt(spec: string, min: int, max: int, i: int, v: int) {
    0 <= i < |Split(spec, ',')| &&
    var item := ParseItem(Split(spec, ',')[i], min, max);
    item.Ok? && Stray(item.value, v)
  }

  ghost predicate Recorded(spec: string, min: int, max: int, v: int) {
    exists i :: Asked(spec, min, max, i, v) || StrayAt(spec, min, max, i, v)
  }

  lemma RecordedInRange(spec: string, min: int, max: int, v: int)
    requires 0 <= min <= max <= 59 && v >= 0 && ParseItems(Split(spec, ','), min, max).Ok?
    ensures v in ParseItems(Split(spec, ','), min, max).value <==> Recorded(spec, min, max, v)
  {
    hide ParseItem, Stepped, Progression, Stray, ParseItems;
    var items := Split(spec, ',');
    ParseItemsValues(items, min, max);
    forall i | 0 <= i < |items|
      ensures var s := ParseItem(items[i], min, max).value;
        v in Stepped(s.lo, s.hi, s.step) <==> Asked(spec, min, max, i, v) || StrayAt(spec, min, max, i, v)
    {
      var s := ParseItem(items[i], min, max).value;
      SteppedStrays(s.lo, s.hi, s.step, v);
    }
  }

  /** What an accepted field selects within its range, which is all that the search looks up: what its
      items ask for, their stray values, and Sunday as 0 with weekday 7. It is what was asked for if
      and only if every stray value within the range is asked for anyway. */
  lemma FieldInRange(spec: string, min: int, max: int, sundayAlias: bool)
    requires 0 <= min <= max <= 59 && ParseField(spec, min, max, sundayAlias).Ok?
    ensures var f := ParseField(spec, min, max, sundayAlias).value;
      && (forall v :: min <= v <= max ==> (v in f.values <==>
            Recorded(spec, min, max, v) || (sundayAlias && v == 0 && Recorded(spec, min, max, 7))))
      && ((forall v :: min <= v <= max ==> (v in f.values <==> Selects(spec, min, max, sundayAlias, v))) <==>
          (forall i, v :: min <= v <= max && StrayAt(spec, min, max, i, v) ==> Selects(spec, min, max, sundayAlias, v)))
  {
    hide ParseItem, Stepped, Progression, Stray, ParseItems;
    var f := ParseField(spec, min, max, sundayAlias).value;
    forall v | v >= 0
      ensures v in ParseItems(Split(spec, ','), min, max).value <==> Recorded(spec, min, max, v)
    {
      RecordedInRange(spec, min, max, v);
    }
    if exists i :: StrayAt(spec, min, max, i, 7) { StrayBelow(spec, min, max, 7); }
  }

  lemma StrayBelow(spec: string, min: int, max: int, v: int)
    ensures forall i :: StrayAt(spec, min, max, i, v) ==> v < max
  {
  }

  /** The check for an empty selection never fires, and without overflow every value is in range. */
  lemma FieldNeverEmpty(spec: string, min: int, max: int, sundayAlias: bool)
    requires 0 <= min <= max <= 59 && (sundayAlias ==> min == 0)
    ensures ParseField(spec, min, max, sundayAlias) != Err(NoValues)
    ensures ParseField(spec, min, max, sundayAlias).Ok? && !StepsTooFar(spec, min, max) ==>
      forall v :: v in ParseField(spec, min, max, sundayAlias).value.values ==> min <= v <= max
  {
    var items := Split(spec, ',');
    ParseItemsValues(items, min, max);
    ItemErrorsOnly(items, min, max);
    if ParseItems(items, min, max).Ok? {
      var s := ParseItem(items[0], min, max).value;
      SteppedExact(s.lo, s.hi, s.step);
      assert s.lo in ParseItems(items, min, max).value;
      FieldSelection(spec, min, max, sundayAlias);
    }
  }

  lemma {:induction false} ItemErrorsOnly(items: seq<string>, min: int, max: int)
    requires 0 <= min <= max <= 59
    ensures ParseItems(items, min, max) != Err(NoValues)
  {
    if items != [] { ItemErrorsOnly(items[1..], min, max); }
  }

  // ---------- items as they are written ----------

  /** The forms of an item: a star, one number, or two numbers with a dash, each with an optional step. */
  datatype Form = Star(step: Option<nat>) | From(lo: nat, step: Option<nat>) | Between(lo: nat, hi: nat, step: Option<nat>)

  function RenderBase(f: Form): string {
    match f
    case Star(_) => "*"
    case From(lo, _) => Itoa(lo)
    case Between(lo, hi, _) => Itoa(lo) + "-" + Itoa(hi)
  }

  function Render(f: Form): string {
    match f.step case None => RenderBase(f) case Some(n) => RenderBase(f) + "/" + Itoa(n)
  }

  /** What the form means: a star is the whole range; one number is itself, or with a step runs to
      the end of the range. */
  function Meaning(f: Form, min: int, max: int): Span {
    var step := if f.step.Some? then f.step.value else 1;
    match f
    case Star(_) => Span(min, max, step)
    case From(lo, _) => Span(lo, if f.step.Some? then max else lo, step)
    case Between(lo, hi, _) => Span(lo, hi, step)
  }

  predicate Readable(f: Form) {
    (f.step.Some? ==> 1 <= f.step.value <= MAX_INT) && (!f.Star? ==> f.lo <= MAX_INT) && (f.Between? ==> f.hi <= MAX_INT)
  }

  lemma DigitsOnly(s: string)
    requires AllDigits(s)
    ensures '/' !in s && '-' !in s && ',' !in s && '*' !in s
  {
  }

  lemma RangeReads(f: Form, open: bool, step: int, min: int, max: int)
    requires Readable(f) && min <= max && open == f.step.Some?
    ensures ParseRange(RenderBase(f), open, step, min, max) ==
      var s := Meaning(f, min, max);
      if min <= s.lo <= s.hi <= max then Ok(Span(s.lo, s.hi, step)) else Err(OutOfRange)
  {
    hide Itoa, Atoi;
    match f {
      case Star(_) =>
      case From(lo, _) =>
        AtoiItoa(lo);
        DigitsOnly(Itoa(lo));
        SplitSingle(Itoa(lo), '-');
      case Between(lo, hi, _) =>
        AtoiItoa(lo);
        AtoiItoa(hi);
        DigitsOnly(Itoa(lo));
        DigitsOnly(Itoa(hi));
        SplitTwo(Itoa(lo), Itoa(hi), '-');
        assert '-' in RenderBase(f);
    }
  }

  lemma SplitTwo(a: string, b: string, sep: char)
    requires sep !in a && sep !in b
    ensures Split(a + [sep] + b, sep) == [a, b]
  {
    var parts := [a, b];
    SplitJoin(parts, sep);
    assert Join(parts[1..], sep) == b;
    assert Join(parts, sep) == a + [sep] + b;
  }

  lemma BaseHasNoSlash(f: Form)
    ensures '/' !in RenderBase(f) && RenderBase(f) != ""
  {
    if f.From? { DigitsOnly(Itoa(f.lo)); }
    if f.Between? {
      DigitsOnly(Itoa(f.lo));
      DigitsOnly(Itoa(f.hi));
    }
  }

  /** Reading back a written item gives what its form means, or is refused as out of range. */
  lemma RenderedItem(f: Form, min: int, max: int)
    requires Readable(f) && min <= max
    ensures ParseItem(Render(f), min, max) ==
      var s := Meaning(f, min, max); if min <= s.lo <= s.hi <= max then Ok(s) else Err(OutOfRange)
  {
    hide Itoa, Atoi, ParseRange, RenderBase, Split;
    BaseHasNoSlash(f);
    RangeReads(f, f.step.Some?, if f.step.Some? then f.step.value else 1, min, max);
    if f.step.None? {
      SplitSingle(RenderBase(f), '/');
    } else {
      AtoiItoa(f.step.value);
      DigitsOnly(Itoa(f.step.value));
      SplitTwo(RenderBase(f), Itoa(f.step.value), '/');
    }
  }

  /** A minute field for which the code selects a minute nobody asked for: starting at 10 with
      the largest 64-bit step, the stepping wraps around and comes back as minute 8. */
  lemma OverflowSelectsStrayMinute(step: nat)
    requires step == MAX_INT
    ensures var spec := "10/" + Itoa(step); var f := ParseField(spec, 0, 59, false);
      f.Ok? && 8 in f.value.values && !Selects(spec, 0, 59, false, 8)
  {
    hide Stepped, ParseItem, Atoi, Itoa;
    var spec := "10/" + Itoa(step);
    AtoiItoa(step);
    HugeStepItem(step);
    HugeStepStray(step);
    assert [spec][0] == spec;
    ParseItemsValues([spec], 0, 59);
  }

  lemma HugeStepStray(step: int)
    requires step == MAX_INT
    ensures 8 in Stepped(10, 59, step)
  {
    var wrapped := Wrap64(10 + step);
    assert Wrap64(wrapped + step) == 8;
    assert 8 in Stepped(8, 59, step);
    assert 8 in Stepped(wrapped, 59, step);
  }

  lemma HugeStepItem(step: nat)
    requires 0 < step <= MAX_INT
    ensures Split("10/" + Itoa(step), ',') == ["10/" + Itoa(step)]
    ensures ParseItem("10/" + Itoa(step), 0, 59) == Ok(Span(10, 59, step))
  {
    assert Itoa(10) == "10";
    DigitsOnly(Itoa(step));
    hide Itoa;
    SplitSingle("10/" + Itoa(step), ',');
    var f := From(10, Some(step));
    RenderedItem(f, 0, 59);
    assert Render(f) == "10/" + Itoa(step) by { assert "10" + "/" == "10/"; }
  }
}
