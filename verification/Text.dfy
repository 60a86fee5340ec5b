/** The string routines of the Go standard library that the modelled code relies on,
    over sequences of characters. */
module Text {
  import opened Int64

  datatype Option<+T> = None | Some(value: T)

  // ---------- strings.Split and strings.Join ----------

  /** `strings.Split(s, sep)` for a one-character separator: always at least one part. */
  function Split(s: string, sep: char): (parts: seq<string>)
    ensures |parts| >= 1
  {
    if s == [] then [[]]
    else
      var rest := Split(s[1..], sep);
      if s[0] == sep then [[]] + rest else [[s[0]] + rest[0]] + rest[1..]
  }

  function Join(parts: seq<string>, sep: char): string {
    if |parts| == 0 then []
    else if |parts| == 1 then parts[0]
    else parts[0] + [sep] + Join(parts[1..], sep)
  }

  /** Joining the parts gives the text back. */
  lemma {:induction false} JoinSplit(s: string, sep: char)
    ensures Join(Split(s, sep), sep) == s
  {
    if s != [] {
      JoinSplit(s[1..], sep);
      var rest := Split(s[1..], sep);
      if s[0] == sep {
        assert ([[]] + rest)[1..] == rest;
      } else if |rest| > 1 {
        var parts := [[s[0]] + rest[0]] + rest[1..];
        assert parts[1..] == rest[1..];
      }
    }
  }

  /** Parts free of the separator are recovered by splitting their join. */
  lemma {:induction false} SplitJoin(parts: seq<string>, sep: char)
    requires |parts| >= 1
    requires forall i :: 0 <= i < |parts| ==> sep !in parts[i]
    ensures Split(Join(parts, sep), sep) == parts
    decreases |parts|, |parts[0]|
  {
    var head := parts[0];
    if head != [] {
      var shorter := [head[1..]] + parts[1..];
      SplitJoin(shorter, sep);
      JoinShorter(parts, sep);
      assert head[0] in parts[0];
      SplitCons(head[0], Join(shorter, sep), sep);
      hide Join, Split;
      assert [head[0]] + shorter[0] == head && shorter[1..] == parts[1..];
      assert [head] + parts[1..] == parts;
    } else if |parts| > 1 {
      SplitJoin(parts[1..], sep);
      assert Join(parts, sep) == [sep] + Join(parts[1..], sep);
    } else {
      assert parts == [[]];
    }
  }

  lemma {:induction false} SplitPartsFree(s: string, sep: char)
    ensures forall i :: 0 <= i < |Split(s, sep)| ==> sep !in Split(s, sep)[i]
  {
    if s != [] {
      SplitPartsFree(s[1..], sep);
    }
  }

  /** The first character of a join whose first part is not empty. */
  lemma JoinShorter(parts: seq<string>, sep: char)
    requires parts != [] && parts[0] != []
    ensures Join(parts, sep) == [parts[0][0]] + Join([parts[0][1..]] + parts[1..], sep)
  {
    assert ([parts[0][1..]] + parts[1..])[1..] == parts[1..];
    assert [parts[0][0]] + parts[0][1..] == parts[0];
  }

  /** Every character of the text satisfies `p`. */
  ghost predicate Over(s: string, p: char -> bool) {
    forall i :: 0 <= i < |s| ==> p(s[i])
  }

  ghost predicate AllOver(parts: seq<string>, p: char -> bool) {
    forall i :: 0 <= i < |parts| ==> Over(parts[i], p)
  }

  lemma {:induction false} SplitOver(s: string, sep: char, p: char -> bool)
    requires Over(s, p)
    ensures AllOver(Split(s, sep), p)
  {
    if s != [] {
      assert Over(s[1..], p);
      SplitOver(s[1..], sep, p);
    }
  }

  lemma {:induction false} JoinOver(parts: seq<string>, sep: char, p: char -> bool)
    requires AllOver(parts, p) && p(sep)
    ensures Over(Join(parts, sep), p)
  {
    if |parts| > 1 {
      JoinOver(parts[1..], sep, p);
    }
  }

  /** Without the separator there is one part, and only then. */
  lemma {:induction false} SplitSingle(s: string, sep: char)
    ensures (|Split(s, sep)| == 1) <==> sep !in s
    ensures sep !in s ==> Split(s, sep) == [s]
  {
    if s != [] {
      SplitSingle(s[1..], sep);
      assert [s[0]] + s[1..] == s;
    }
  }

  // ---------- white space ----------

  /** `unicode.IsSpace`. */
  predicate IsSpace(c: char) {
    c == ' ' || '\U{9}' <= c <= '\U{D}' || c == '\U{85}' || c == '\U{A0}' || c == '\U{1680}'
    || '\U{2000}' <= c <= '\U{200A}' || c == '\U{2028}' || c == '\U{2029}' || c == '\U{202F}'
    || c == '\U{205F}' || c == '\U{3000}'
  }

  function TrimLeftSpace(s: string): (r: string)
    ensures |r| <= |s| && r == s[|s| - |r|..]
    ensures r != [] ==> !IsSpace(r[0])
  {
    if s != [] && IsSpace(s[0]) then TrimLeftSpace(s[1..]) else s
  }

  function TrimRightSpace(s: string): (r: string)
    ensures r <= s
    ensures r != [] ==> !IsSpace(r[|r| - 1])
  {
    if s != [] && IsSpace(s[|s| - 1]) then TrimRightSpace(s[..|s| - 1]) else s
  }

  /** `strings.TrimSpace`. */
  function TrimSpace(s: string): string {
    TrimRightSpace(TrimLeftSpace(s))
  }

  predicate AllSpace(s: string) {
    forall i :: 0 <= i < |s| ==> IsSpace(s[i])
  }

  /** Trimming empties exactly the blank texts. */
  lemma {:induction false} TrimSpaceBlank(s: string)
    ensures TrimSpace(s) == [] <==> AllSpace(s)
  {
    TrimLeftBlank(s);
    var l := TrimLeftSpace(s);
    if l != [] {
      TrimRightKeepsHead(l);
    }
  }

  lemma {:induction false} TrimLeftBlank(s: string)
    ensures TrimLeftSpace(s) == [] <==> AllSpace(s)
  {
    if s != [] {
      TrimLeftBlank(s[1..]);
      if AllSpace(s[1..]) && IsSpace(s[0]) {
        forall i | 0 <= i < |s| ensures IsSpace(s[i]) {
          if i > 0 { assert s[1..][i - 1] == s[i]; }
        }
      }
      if AllSpace(s) {
        assert forall i :: 0 <= i < |s[1..]| ==> s[1..][i] == s[i + 1];
      }
    }
  }

  lemma {:induction false} TrimRightKeepsHead(s: string)
    requires s != [] && !IsSpace(s[0])
    ensures TrimRightSpace(s) != []
  {
    if IsSpace(s[|s| - 1]) {
      TrimRightKeepsHead(s[..|s| - 1]);
    }
  }

  /** `strings.Fields`: the maximal runs of non-space characters. */
  function Fields(s: string): seq<string>
    decreases |s|
  {
    var t := TrimLeftSpace(s);
    if t == [] then []
    else
      var n := WordLength(t);
      [t[..n]] + Fields(t[n..])
  }

  function WordLength(s: string): (n: nat)
    ensures n <= |s|
    ensures s != [] && !IsSpace(s[0]) ==> n > 0
  {
    if s == [] || IsSpace(s[0]) then 0 else 1 + WordLength(s[1..])
  }

  /** The white space characters by their code points. */
  lemma SpaceMeaning(c: char)
    ensures IsSpace(c) <==>
      var n := c as int;
      n == 32 || 9 <= n <= 13 || n == 133 || n == 160 || n == 5760 || 8192 <= n <= 8202 || n == 8232 || n == 8233 ||
      n == 8239 || n == 8287 || n == 12288
  {
  }

  /** Trimming takes the white space off both ends, and nothing else. */
  lemma TrimMeaning(before: string, s: string, behind: string)
    requires AllSpace(before) && AllSpace(behind) && s != [] && !IsSpace(s[0]) && !IsSpace(s[|s| - 1])
    ensures TrimSpace(before + s + behind) == s
  {
    assert before + s + behind == before + (s + behind);
    TrimLeftPast(before, s + behind);
    assert TrimLeftSpace(s + behind) == s + behind;
    TrimRightPast(s, behind);
  }

  lemma {:induction false} TrimLeftPast(before: string, s: string)
    requires AllSpace(before)
    ensures TrimLeftSpace(before + s) == TrimLeftSpace(s)
  {
    if before == [] {
      assert before + s == s;
    } else {
      assert (before + s)[1..] == before[1..] + s;
      TrimLeftPast(before[1..], s);
    }
  }

  lemma {:induction false} TrimRightPast(s: string, behind: string)
    requires AllSpace(behind) && s != [] && !IsSpace(s[|s| - 1])
    ensures TrimRightSpace(s + behind) == s
    decreases |behind|
  {
    if behind == [] {
      assert s + behind == s;
    } else {
      var last := |behind| - 1;
      assert (s + behind)[..|s + behind| - 1] == s + behind[..last];
      assert AllSpace(behind[..last]) && IsSpace(behind[last]);
      TrimRightPast(s, behind[..last]);
    }
  }

  /** The fields are the words, however wide the white space before and between them is. */
  lemma FieldsMeaning(gap: string, word: string, rest: string)
    requires AllSpace(gap)
    ensures Fields(gap) == []
    ensures word != [] && (forall i :: 0 <= i < |word| ==> !IsSpace(word[i])) && (rest == [] || IsSpace(rest[0])) ==>
      Fields(gap + word + rest) == [word] + Fields(rest)
  {
    TrimLeftBlank(gap);
    if word != [] && (forall i :: 0 <= i < |word| ==> !IsSpace(word[i])) && (rest == [] || IsSpace(rest[0])) {
      assert gap + word + rest == gap + (word + rest);
      TrimLeftPast(gap, word + rest);
      assert TrimLeftSpace(word + rest) == word + rest;
      WordLengthMeaning(word, rest);
      assert (word + rest)[..|word|] == word && (word + rest)[|word|..] == rest;
    }
  }

  lemma {:induction false} WordLengthMeaning(word: string, rest: string)
    requires (forall i :: 0 <= i < |word| ==> !IsSpace(word[i])) && (rest == [] || IsSpace(rest[0]))
    ensures WordLength(word + rest) == |word|
  {
    if word == [] {
      assert word + rest == rest;
    } else {
      assert (word + rest)[1..] == word[1..] + rest;
      WordLengthMeaning(word[1..], rest);
    }
  }

  // ---------- numbers ----------

  predicate IsDigit(c: char) { '0' <= c <= '9' }

  predicate AllDigits(s: string) {
    forall i :: 0 <= i < |s| ==> IsDigit(s[i])
  }

  function DigitsValue(s: string): nat
    requires AllDigits(s)
  {
    if s == [] then 0
    else DigitsValue(s[..|s| - 1]) * 10 + (s[|s| - 1] as int - '0' as int)
  }

  /** `strconv.Atoi` on a 64-bit platform: an optional sign, digits, and a range check. */
  function Atoi(s: string): Option<int> {
    var negative := s != [] && s[0] == '-';
    var digits := if s != [] && (s[0] == '-' || s[0] == '+') then s[1..] else s;
    if digits == [] || !AllDigits(digits) then None
    else
      var magnitude: int := DigitsValue(digits);
      var v := if negative then -magnitude else magnitude;
      if -MAX_INT - 1 <= v <= MAX_INT then Some(v) else None
  }

  /** `strconv.Itoa` on natural numbers. */
  function Itoa(n: nat): (s: string)
    ensures s != [] && AllDigits(s)
  {
    if n < 10 then [('0' as int + n) as char] else Itoa(n / 10) + [('0' as int + n % 10) as char]
  }

  /** Reading back a printed number. */
  lemma {:induction false} AtoiItoa(n: nat)
    requires n <= MAX_INT
    ensures Atoi(Itoa(n)) == Some(n)
  {
    ItoaValue(n);
  }

  lemma {:induction false} ItoaValue(n: nat)
    ensures DigitsValue(Itoa(n)) == n
  {
    var s := Itoa(n);
    if n < 10 {
      assert s[..|s| - 1] == [];
    } else {
      ItoaValue(n / 10);
      assert s[..|s| - 1] == Itoa(n / 10);
    }
  }

  // ---------- case ----------

  /** `strings.ToUpper` on one character, where the result is an ASCII letter: a small letter, or one of the
      two others (dotless i, long s) whose capital is one. Other characters are unchanged. */
  function UpperChar(c: char): char {
    if 'a' <= c <= 'z' then (c as int - 32) as char
    else if c == '\U{0131}' then 'I'
    else if c == '\U{017F}' then 'S'
    else c
  }

  function ToUpper(s: string): (r: string)
    ensures |r| == |s|
    ensures forall i :: 0 <= i < |s| ==> r[i] == UpperChar(s[i])
  {
    if s == [] then [] else [UpperChar(s[0])] + ToUpper(s[1..])
  }

  /** Small ASCII letters lie 32 code points above their capitals; two more letters have ASCII capitals. */
  lemma UpperMeaning(c: char)
    ensures 97 <= c as int <= 122 ==> UpperChar(c) as int == c as int - 32
    ensures c as int == 305 ==> UpperChar(c) == 'I'
    ensures c as int == 383 ==> UpperChar(c) == 'S'
    ensures !(97 <= c as int <= 122) && c as int != 305 && c as int != 383 ==> UpperChar(c) == c
  {
  }

  predicate IsUpperText(s: string) {
    forall i :: 0 <= i < |s| ==> UpperChar(s[i]) == s[i]
  }

  /** Upper-casing commutes with splitting at a character that is not a letter. */
  lemma {:induction false} SplitToUpper(s: string, sep: char)
    requires UpperChar(sep) == sep && !('A' <= sep <= 'Z')
    ensures Uppers(Split(s, sep), Split(ToUpper(s), sep))
  {
    if s == [] {
      assert ToUpper(s) == [];
    } else {
      SplitToUpper(s[1..], sep);
      var rest, above := Split(s[1..], sep), Split(ToUpper(s[1..]), sep);
      SplitCons(s[0], s[1..], sep);
      SplitCons(UpperChar(s[0]), ToUpper(s[1..]), sep);
      UpperCons(s[0], s[1..]);
      UpperCons(s[0], rest[0]);
      assert [s[0]] + s[1..] == s && ToUpper([]) == [];
      hide Split, ToUpper, Uppers;
      UppersTail(rest, above);
      if s[0] == sep {
        UppersCons([], [], rest, above);
      } else {
        assert UpperChar(s[0]) != sep by { OnlySelf(s[0], sep); }
        UppersCons([s[0]] + rest[0], [UpperChar(s[0])] + above[0], rest[1..], above[1..]);
      }
    }
  }

  /** The second list holds the texts of the first in upper case. */
  predicate Uppers(parts: seq<string>, above: seq<string>) {
    |above| == |parts| && forall i :: 0 <= i < |parts| ==> above[i] == ToUpper(parts[i])
  }

  lemma UppersCons(first: string, upper: string, rest: seq<string>, above: seq<string>)
    requires upper == ToUpper(first) && Uppers(rest, above)
    ensures Uppers([first] + rest, [upper] + above)
  {
    hide ToUpper;
  }

  lemma UppersTail(parts: seq<string>, above: seq<string>)
    requires Uppers(parts, above) && parts != []
    ensures above != [] && above[0] == ToUpper(parts[0]) && Uppers(parts[1..], above[1..])
  {
    hide ToUpper;
  }

  lemma OnlySelf(c: char, sep: char)
    requires UpperChar(sep) == sep && !('A' <= sep <= 'Z') && c != sep
    ensures UpperChar(c) != sep
  {
  }

  lemma UpperCons(c: char, t: string)
    ensures ToUpper([c] + t) == [UpperChar(c)] + ToUpper(t)
  {
    assert ([c] + t)[1..] == t;
  }

  lemma SplitCons(c: char, t: string, sep: char)
    ensures Split([c] + t, sep) ==
      if c == sep then [[]] + Split(t, sep) else [[c] + Split(t, sep)[0]] + Split(t, sep)[1..]
  {
    assert ([c] + t)[1..] == t;
  }

  /** Upper-case text is its own upper case. */
  lemma ToUpperFixed(s: string)
    requires IsUpperText(s)
    ensures ToUpper(s) == s
  {
  }
}
