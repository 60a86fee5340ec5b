/** The build-time check of the locale files, and what an accepted set of files gives the translator. */
module I18nValidate {
  import opened Text
  import opened I18n

  const REQUIRED: seq<string> := ["en", "es", "zh", "fr", "ar", "de", "ja"]

  // ---------- interpolation tokens ----------

  predicate IsWordChar(c: char) {
    'a' <= c <= 'z' || 'A' <= c <= 'Z' || '0' <= c <= '9' || c == '_'
  }

  function WordRun(s: string): (n: nat)
    ensures n <= |s|
  {
    if s != [] && IsWordChar(s[0]) then 1 + WordRun(s[1..]) else 0
  }

  /** The length of the `{name}` that the text starts with, or 0. */
  function TokenLength(s: string): (n: nat)
    ensures n <= |s|
  {
    if s == [] || s[0] != '{' then 0
    else
      var run := WordRun(s[1..]);
      if run >= 1 && 1 + run < |s| && s[1 + run] == '}' then run + 2 else 0
  }

  /** All matches of the token pattern, from left to right. */
  function Tokens(s: string): seq<string>
    decreases |s|
  {
    if s == [] then []
    else
      var n := TokenLength(s);
      if n > 0 then [s[..n]] + Tokens(s[n..]) else Tokens(s[1..])
  }

  ghost function Elements(s: seq<string>): set<string> { set x | x in s }

  /** A name of letters, digits and underscores in braces. */
  predicate IsToken(x: string) {
    |x| >= 3 && x[0] == '{' && x[|x| - 1] == '}' &&
    forall i :: 1 <= i < |x| - 1 ==>
      'a' <= x[i] <= 'z' || 'A' <= x[i] <= 'Z' || '0' <= x[i] <= '9' || x[i] == '_'
  }

  ghost predicate Occurs(x: string, s: string) {
    exists i :: OccursAt(x, s, i)
  }

  predicate OccursAt(x: string, s: string, i: int) { 0 <= i <= |s| - |x| && s[i..i + |x|] == x }

  lemma {:induction false} WordRunMeaning(s: string)
    ensures forall i :: 0 <= i < WordRun(s) ==> IsWordChar(s[i])
    ensures WordRun(s) < |s| ==> !IsWordChar(s[WordRun(s)])
  {
    if s != [] && IsWordChar(s[0]) {
      WordRunMeaning(s[1..]);
      assert forall i :: 1 <= i < |s| ==> s[i] == s[1..][i - 1];
    }
  }

  /** The token that a text starts with, if any, is the one that is taken. */
  lemma TokenLengthMeaning(s: string, k: nat)
    requires k <= |s|
    ensures IsToken(s[..k]) <==> k == TokenLength(s) > 0
  {
    if s != [] {
      WordRunMeaning(s[1..]);
      var run := WordRun(s[1..]);
      assert forall i :: 1 <= i < |s| ==> s[1..][i - 1] == s[i];
      if IsToken(s[..k]) {
        assert forall i :: 0 <= i < k ==> s[..k][i] == s[i];
        assert forall i :: 0 <= i < k - 2 ==> IsWordChar(s[1..][i]);
        assert s[1..][k - 2] == '}' && !IsWordChar(s[1..][k - 2]);
        assert run == k - 2;
      }
    }
  }

  /** The tokens of a text are the names in braces that occur in it, wherever they stand. */
  lemma {:induction false} TokensMeaning(s: string, x: string)
    ensures x in Tokens(s) <==> IsToken(x) && Occurs(x, s)
    decreases |s|
  {
    hide TokenLength, IsToken;
    if s == [] {
      EmptyIsNoToken(x);
    } else {
      var n := TokenLength(s);
      TokenLengthMeaning(s, n);
      if |x| <= |s| { TokenLengthMeaning(s, |x|); }
      if n > 0 {
        TokensMeaning(s[n..], x);
        OccursAfterToken(s, n, x);
      } else {
        TokensMeaning(s[1..], x);
        OccursFromNext(s, x);
      }
    }
  }

  lemma EmptyIsNoToken(x: string)
    ensures IsToken(x) ==> x != [] && !Occurs(x, [])
  {
  }

  lemma OccursFromNext(s: string, x: string)
    requires s != []
    ensures Occurs(x, s) <==> Occurs(x, s[1..]) || (|x| <= |s| && s[..|x|] == x)
  {
    if Occurs(x, s) {
      var i :| OccursAt(x, s, i);
      if i > 0 { assert OccursAt(x, s[1..], i - 1); }
    }
    if Occurs(x, s[1..]) {
      var i :| OccursAt(x, s[1..], i);
      assert OccursAt(x, s, i + 1);
    }
    if |x| <= |s| && s[..|x|] == x { assert OccursAt(x, s, 0); }
  }

  /** No token begins inside another one. */
  lemma OccursAfterToken(s: string, n: nat, x: string)
    requires 0 < n <= |s| && IsToken(s[..n])
    ensures IsToken(x) ==> (Occurs(x, s) <==> Occurs(x, s[n..]) || x == s[..n])
  {
    if IsToken(x) {
      if Occurs(x, s) {
        var i :| OccursAt(x, s, i);
        OccursOutside(s, n, x, i);
      }
      if Occurs(x, s[n..]) {
        var i :| OccursAt(x, s[n..], i);
        assert s[i + n..i + n + |x|] == s[n..][i..i + |x|];
        assert OccursAt(x, s, i + n);
      }
      if x == s[..n] { assert OccursAt(x, s, 0); }
    }
  }

  lemma OccursOutside(s: string, n: nat, x: string, i: int)
    requires 0 < n <= |s| && IsToken(s[..n]) && IsToken(x) && OccursAt(x, s, i)
    ensures Occurs(x, s[n..]) || x == s[..n]
  {
    assert s[i] == x[0] == '{';
    assert forall j :: 0 <= j < n ==> s[..n][j] == s[j];
    if i == 0 {
      TokenLengthMeaning(s, |x|);
      TokenLengthMeaning(s, n);
    } else {
      assert s[n..][i - n..i - n + |x|] == s[i..i + |x|];
      assert OccursAt(x, s[n..], i - n);
    }
  }

  /** Two texts have the same tokens when the same names in braces occur in them. */
  lemma SameTokens(a: string, b: string)
    ensures Elements(Tokens(a)) == Elements(Tokens(b)) <==> forall x :: IsToken(x) ==> (Occurs(x, a) <==> Occurs(x, b))
  {
    hide Tokens, IsToken, Occurs;
    forall x ensures x in Elements(Tokens(a)) <==> IsToken(x) && Occurs(x, a) { TokensMeaning(a, x); }
    forall x ensures x in Elements(Tokens(b)) <==> IsToken(x) && Occurs(x, b) { TokensMeaning(b, x); }
  }

  lemma SameSizeSubset(a: set<string>, b: set<string>)
    requires |a| == |b| && a <= b
    ensures a == b
  {
    if a != b {
      var x :| x in b && x !in a;
      SubsetSize(a, b - {x});
    }
  }

  lemma {:induction false} SubsetSize(a: set<string>, b: set<string>)
    requires a <= b
    ensures |a| <= |b|
    decreases a
  {
    if a != {} {
      var x :| x in a;
      SubsetSize(a - {x}, b - {x});
    }
  }

  method SetOf(s: seq<string>) returns (r: set<string>)
    ensures r == Elements(s)
  {
    r := {};
    for i := 0 to |s|
      invariant r == Elements(s[..i])
    {
      assert s[..i + 1] == s[..i] + [s[i]];
      r := r + {s[i]};
    }
    assert s[..|s|] == s;
  }

  /** `sameSet`: equal sizes and one inclusion decide equality. */
  method SameSet(a: seq<string>, b: seq<string>) returns (same: bool)
    ensures same <==> Elements(a) == Elements(b)
  {
    var setA := SetOf(a);
    var setB := SetOf(b);
    if |setA| != |setB| { return false; }
    var todo := setA;
    while todo != {}
      invariant todo <= setA && forall x :: x in setA && x !in todo ==> x in setB
      decreases todo
    {
      var x :| x in todo;
      if x !in setB { return false; }
      todo := todo - {x};
    }
    SameSizeSubset(setA, setB);
    return true;
  }

  /** `diffKeys`, without the order in which the keys are printed. */
  method DiffKeys(a: map<string, string>, b: map<string, string>) returns (out: set<string>)
    ensures out == a.Keys - b.Keys
  {
    out := {};
    var todo := a.Keys;
    while todo != {}
      invariant todo <= a.Keys && out == a.Keys - todo - b.Keys
      decreases todo
    {
      var k :| k in todo;
      todo := todo - {k};
      if k !in b { out := out + {k}; }
    }
  }

  // ---------- the verdict ----------

  ghost predicate EntryOk(en: map<string, string>, k: string, v: string) {
    TrimSpace(v) != "" && (k in en ==> Elements(Tokens(en[k])) == Elements(Tokens(v)))
  }

  /** A language has the keys of English, no blank text, and the tokens of English in each text. */
  ghost predicate LanguageOk(en: map<string, string>, flat: map<string, string>) {
    flat.Keys == en.Keys && forall k :: k in flat ==> EntryOk(en, k, flat[k])
  }

  ghost predicate Accepted(en: map<string, string>, load: string -> Option<map<string, string>>) {
    (forall i :: 0 <= i < |REQUIRED| && REQUIRED[i] != "en" ==>
      load(REQUIRED[i]).Some? && LanguageOk(en, load(REQUIRED[i]).value)) &&
    (forall k :: k in en ==> TrimSpace(en[k]) != "")
  }

  /** The keys of English, no blank text, and in each text the names in braces that the English one has. */
  ghost predicate Translates(en: map<string, string>, flat: map<string, string>) {
    flat.Keys == en.Keys &&
    forall k :: k in en ==>
      TrimSpace(flat[k]) != "" && forall x :: IsToken(x) ==> (Occurs(x, en[k]) <==> Occurs(x, flat[k]))
  }

  /** Spanish, Chinese, French, Arabic, German and Japanese. */
  predicate IsOther(lang: string) {
    lang == "es" || lang == "zh" || lang == "fr" || lang == "ar" || lang == "de" || lang == "ja"
  }

  /** What acceptance means: the six other languages translate English, which has no blank text. */
  lemma AcceptedMeaning(en: map<string, string>, load: string -> Option<map<string, string>>)
    ensures Accepted(en, load) <==>
      (forall lang :: IsOther(lang) ==> load(lang).Some? && Translates(en, load(lang).value)) &&
      (forall k :: k in en ==> TrimSpace(en[k]) != "")
  {
    forall flat ensures LanguageOk(en, flat) <==> Translates(en, flat) { LanguageMeaning(en, flat); }
    hide LanguageOk, Translates, TrimSpace, REQUIRED, IsOther;
    RequiredLanguages();
    if Accepted(en, load) {
      forall lang | IsOther(lang) ensures load(lang).Some? && Translates(en, load(lang).value) {
        assert lang in REQUIRED;
        var i :| 0 <= i < |REQUIRED| && REQUIRED[i] == lang;
      }
    }
  }

  lemma LanguageMeaning(en: map<string, string>, flat: map<string, string>)
    ensures LanguageOk(en, flat) <==> Translates(en, flat)
  {
    hide TrimSpace, Tokens, IsToken, Occurs, Elements;
    forall k | k in en && k in flat { SameTokens(en[k], flat[k]); }
  }

  lemma RequiredLanguages()
    ensures forall i :: 0 <= i < |REQUIRED| ==> REQUIRED[i] == "en" || IsOther(REQUIRED[i])
    ensures forall lang :: IsOther(lang) ==> lang in REQUIRED && lang != "en"
  {
    assert "es" == REQUIRED[1] && "zh" == REQUIRED[2] && "fr" == REQUIRED[3];
    assert "ar" == REQUIRED[4] && "de" == REQUIRED[5] && "ja" == REQUIRED[6];
  }

  /** The checks on one language. */
  method CheckLanguage(en: map<string, string>, flat: map<string, string>) returns (failed: bool)
    ensures !failed <==> LanguageOk(en, flat)
  {
    hide Tokens, TrimSpace;
    failed := false;
    var missing := DiffKeys(en, flat);
    var extra := DiffKeys(flat, en);
    if |missing| > 0 { failed := true; }
    if |extra| > 0 { failed := true; }
    assert !failed <==> flat.Keys == en.Keys;
    var todo := flat.Keys;
    while todo != {}
      invariant todo <= flat.Keys
      invariant !failed <==> flat.Keys == en.Keys && forall k :: k in flat && k !in todo ==> EntryOk(en, k, flat[k])
      decreases todo
    {
      var k :| k in todo;
      todo := todo - {k};
      var v := flat[k];
      if TrimSpace(v) == "" { failed := true; }
      if k !in en { continue; }
      var same := SameSet(Tokens(en[k]), Tokens(v));
      if !same { failed := true; }
    }
  }

  /** `main` after English has loaded: every language is checked, then English itself. */
  method Validate(en: map<string, string>, load: string -> Option<map<string, string>>) returns (failed: bool)
    ensures !failed <==> Accepted(en, load)
  {
    hide LanguageOk, TrimSpace;
    failed := false;
    for i := 0 to |REQUIRED|
      invariant !failed <==> forall j :: 0 <= j < i && REQUIRED[j] != "en" ==>
        load(REQUIRED[j]).Some? && LanguageOk(en, load(REQUIRED[j]).value)
    {
      var lang := REQUIRED[i];
      if lang == "en" { continue; }
      var flat := load(lang);
      if flat.None? {
        failed := true;
        continue;
      }
      var bad := CheckLanguage(en, flat.value);
      if bad { failed := true; }
    }
    var todo := en.Keys;
    ghost var before := failed;
    while todo != {}
      invariant todo <= en.Keys
      invariant !failed <==> !before && forall k :: k in en && k !in todo ==> TrimSpace(en[k]) != ""
      decreases todo
    {
      var k :| k in todo;
      todo := todo - {k};
      if TrimSpace(en[k]) == "" { failed := true; }
    }
  }

  // ---------- what acceptance means ----------

  /** The node at a dotted key. */
  function NodeAt(data: map<string, Node>, key: string): Option<Node> {
    Follow(Tree(data), Split(key, '.'))
  }

  /** The lookup gives the text of a string leaf and nothing for any other node: it agrees with the
      flattened entry exactly when the leaf is a string, or prints as the empty text. */
  lemma {:induction false} LookupAgrees(data: map<string, Node>, key: string)
    ensures LookupKey(data, key) ==
      if NodeAt(data, key).Some? && NodeAt(data, key).value.Leaf? then NodeAt(data, key).value.text else ""
    ensures LeafAt(data, key).Some? ==>
      (NodeAt(data, key).Some? &&
       (LookupKey(data, key) == LeafAt(data, key).value <==>
        NodeAt(data, key).value.Leaf? || LeafAt(data, key).value == ""))
    decreases |key|
  {
    hide Split;
    LeafAtFollows(data, key);
    CutIsSplit(key);
    var (head, rest) := CutDot(key);
    var path := Split(key, '.');
    if head in data {
      if rest.None? {
        assert path[1..] == [];
      } else {
        assert path[1..] == Split(rest.value, '.');
        if data[head].Tree? { LookupAgrees(data[head].children, rest.value); }
      }
    }
  }

  lemma {:induction false} StringLeafAt(n: Node, path: seq<string>)
    requires StringLeaves(n) && Follow(n, path).Some?
    ensures StringLeaves(Follow(n, path).value)
    decreases |path|
  {
    if path != [] { StringLeafAt(n.children[path[0]], path[1..]); }
  }

  /** On string leaves the lookup and the flattened file agree at every key. */
  lemma LookupIsFlat(data: map<string, Node>, flat: map<string, string>, key: string)
    requires StringLeaves(Tree(data)) && IsFlat(flat, data)
    ensures LookupKey(data, key) == if key in flat then flat[key] else ""
  {
    hide LookupKey, Split;
    LookupAgrees(data, key);
    LeafAtFollows(data, key);
    assert Get(flat, key) == LeafAt(data, key);
    hide LeafAt;
    if NodeAt(data, key).Some? { StringLeafAt(Tree(data), Split(key, '.')); }
  }

  /** What the translator answers with when its own language has no text for the key. */
  function Fallback(t: Translator, key: string): string {
    if t.lang != "en" && t.english.Some? && LookupKey(t.english.value, key) != "" then LookupKey(t.english.value, key)
    else key
  }

  lemma AcceptedEntry(en: map<string, string>, load: string -> Option<map<string, string>>,
                      lang: string, flat: map<string, string>, key: string)
    requires Accepted(en, load) && key in en
    requires lang in REQUIRED && (if lang == "en" then flat == en else load(lang) == Some(flat))
    ensures key in flat && TrimSpace(flat[key]) != "" && Elements(Tokens(flat[key])) == Elements(Tokens(en[key]))
  {
    hide Tokens, TrimSpace;
    if lang != "en" {
      var i :| 0 <= i < |REQUIRED| && REQUIRED[i] == lang;
      assert LanguageOk(en, flat);
      assert EntryOk(en, key, flat[key]);
    }
  }

  /** The text of the string leaf that a key's dots lead to; empty if there is none. */
  function TextAt(data: map<string, Node>, key: string): string {
    var n := NodeAt(data, key);
    if n.Some? && n.value.Leaf? then n.value.text else ""
  }

  /** The translator's answer: the language's own text for the key, if it is not empty; else English's, for
      another language, if that is not; else the key. */
  lemma TranslatorAnswers(t: Translator, key: string)
    ensures T(t, key) ==
      if TextAt(t.data, key) != "" then TextAt(t.data, key)
      else if t.lang != "en" && t.english.Some? && TextAt(t.english.value, key) != "" then TextAt(t.english.value, key)
      else key
  {
    hide LookupKey, NodeAt;
    LookupAgrees(t.data, key);
    if t.english.Some? { LookupAgrees(t.english.value, key); }
  }

  /** Key by key, for every file: after acceptance the translator answers with the validated text if and
      only if that is the text its own lookup finds, or, where that finds none, the fallback. */
  lemma AcceptedAnswers(en: map<string, string>, load: string -> Option<map<string, string>>,
                        t: Translator, flat: map<string, string>, key: string)
    requires Accepted(en, load) && key in en
    requires t.lang in REQUIRED && (if t.lang == "en" then flat == en else load(t.lang) == Some(flat))
    ensures key in flat && flat[key] != ""
    ensures T(t, key) == if TextAt(t.data, key) != "" then TextAt(t.data, key) else Fallback(t, key)
    ensures T(t, key) == flat[key] <==>
      TextAt(t.data, key) == flat[key] || (TextAt(t.data, key) == "" && Fallback(t, key) == flat[key])
  {
    hide LookupKey, Tokens, TrimSpace, NodeAt;
    AcceptedEntry(en, load, t.lang, flat, key);
    LookupAgrees(t.data, key);
    EmptyIsBlank();
  }

  /** In a file whose names are not empty and hold no dots, that is so if and only if the value at the key
      is a string, or the fallback happens to be the same text. */
  lemma ProperAnswers(en: map<string, string>, load: string -> Option<map<string, string>>,
                      t: Translator, flat: map<string, string>, key: string)
    requires Accepted(en, load) && key in en
    requires t.lang in REQUIRED && (if t.lang == "en" then flat == en else load(t.lang) == Some(flat))
    requires WellNamed(Tree(t.data)) && IsFlattening(flat, t.data)
    ensures NodeAt(t.data, key).Some? && key in flat
    ensures LookupKey(t.data, key) != "" <==> NodeAt(t.data, key).value.Leaf?
    ensures T(t, key) == flat[key] <==> NodeAt(t.data, key).value.Leaf? || Fallback(t, key) == flat[key]
  {
    hide LookupKey, Tokens, TrimSpace, NodeAt, IsFlattening, WellNamed;
    ProperNamesFlat(flat, t.data);
    AcceptedEntry(en, load, t.lang, flat, key);
    LookupAgrees(t.data, key);
    assert Get(flat, key) == LeafAt(t.data, key);
    EmptyIsBlank();
  }

  /** If the validator accepts, then in every required language with string leaves and proper names the
      translator answers every English key with that language's own text, which is not blank and has
      the tokens of the English text; the fallback is never used. */
  lemma AcceptedTranslates(en: map<string, string>, load: string -> Option<map<string, string>>,
                           t: Translator, flat: map<string, string>, key: string)
    requires Accepted(en, load) && key in en
    requires t.lang in REQUIRED && (if t.lang == "en" then flat == en else load(t.lang) == Some(flat))
    requires StringLeaves(Tree(t.data)) && WellNamed(Tree(t.data)) && IsFlattening(flat, t.data)
    ensures key in flat && T(t, key) == flat[key] && !AllSpace(T(t, key))
    ensures forall x :: IsToken(x) ==> (Occurs(x, T(t, key)) <==> Occurs(x, en[key]))
  {
    SameTokens(T(t, key), en[key]);
    hide LookupKey, Tokens, TrimSpace, StringLeaves, IsFlat, IsFlattening, WellNamed;
    ProperNamesFlat(flat, t.data);
    LookupIsFlat(t.data, flat, key);
    AcceptedEntry(en, load, t.lang, flat, key);
    TrimSpaceBlank(flat[key]);
    EmptyIsBlank();
  }

  lemma EmptyIsBlank()
    ensures TrimSpace("") == "" && AllSpace("")
  {
  }

  // ---------- accepted, and yet not answered ----------

  /** An English file of one text passes the validator, with every other language the same. */
  lemma OneTextAccepted(key: string, text: string)
    requires TrimSpace(text) != ""
    ensures Accepted(map[key := text], _ => Some(map[key := text]))
  {
    var en := map[key := text];
    hide Tokens, TrimSpace;
    assert EntryOk(en, key, text);
    assert LanguageOk(en, en);
  }

  lemma WordNotBlank(c: char)
    requires !IsSpace(c)
    ensures TrimSpace([c]) != ""
  {
    TrimSpaceBlank([c]);
    assert !IsSpace([c][0]);
  }

  predicate EveryLeafIs(n: Node, v: string) {
    match n
    case Leaf(text) => text == v
    case Other(rendered) => rendered == v
    case Tree(children) => forall name :: name in children ==> EveryLeafIs(children[name], v)
  }

  lemma {:induction false} LeafOf(n: Node, path: seq<string>, v: string)
    requires EveryLeafIs(n, v) && Follow(n, path).Some?
    ensures EveryLeafIs(Follow(n, path).value, v)
    decreases |path|
  {
    if path != [] { LeafOf(n.children[path[0]], path[1..], v); }
  }

  /** A file of one text flattens to that text, at the key of its path. */
  lemma OneLeafFlat(data: map<string, Node>, flat: map<string, string>, path: seq<string>, x: string, v: string)
    requires IsFlattening(flat, data) && LeadsTo(data, path, x, v) && EveryLeafIs(Tree(data), v)
    ensures x in flat && flat[x] == v
  {
    var other :| LeadsTo(data, other, x, flat[x]);
    LeafOf(Tree(data), other, v);
  }

  /** A file of one text, at a key that the lookup cannot follow to it. */
  lemma FallsBack(data: map<string, Node>, flat: map<string, string>, path: seq<string>, key: string, v: string)
    requires IsFlattening(flat, data) && LeadsTo(data, path, key, v) && EveryLeafIs(Tree(data), v)
    requires TextAt(data, key) == "" && TrimSpace(v) != ""
    ensures key in flat && flat[key] == v && T(Translator("en", data, None), key) == key
    ensures Accepted(map[key := v], _ => Some(map[key := v]))
  {
    hide IsFlattening, LeadsTo, EveryLeafIs, TrimSpace, LookupKey, NodeAt, Accepted;
    OneLeafFlat(data, flat, path, key, v);
    LookupAgrees(data, key);
    OneTextAccepted(key, v);
  }

  /** A number is accepted, yet the translator answers with the bare key. */
  lemma NumberFallsBack(flat: map<string, string>)
    requires IsFlattening(flat, map["limit" := Other("5")])
    ensures var t := Translator("en", map["limit" := Other("5")], None);
      && "limit" in flat && flat["limit"] == "5" && T(t, "limit") == "limit"
      && Accepted(map["limit" := "5"], _ => Some(map["limit" := "5"]))
  {
    var data := map["limit" := Other("5")];
    NumberPath();
    WordNotBlank('5');
    hide IsFlattening, LeadsTo, TrimSpace, T, Accepted, TextAt;
    FallsBack(data, flat, ["limit"], "limit", "5");
  }

  lemma NumberPath()
    ensures var data := map["limit" := Other("5")]; LeadsTo(data, ["limit"], "limit", "5") && TextAt(data, "limit") == ""
  {
    var path := ["limit"];
    assert path[1..] == [];
    SplitSingle("limit", '.');
    hide Split;
  }

  /** So is a name with a dot in it: the validator joins it to the key that the lookup takes apart. */
  lemma DottedNameFallsBack(flat: map<string, string>)
    requires IsFlattening(flat, map["a.b" := Leaf("x")])
    ensures var data := map["a.b" := Leaf("x")]; var t := Translator("en", data, None);
      && StringLeaves(Tree(data)) && "a.b" in flat && flat["a.b"] == "x" && T(t, "a.b") == "a.b"
      && Accepted(map["a.b" := "x"], _ => Some(map["a.b" := "x"]))
  {
    var data := map["a.b" := Leaf("x")];
    DottedPath();
    WordNotBlank('x');
    hide IsFlattening, LeadsTo, TrimSpace, T, Accepted, TextAt;
    FallsBack(data, flat, ["a.b"], "a.b", "x");
  }

  lemma DottedPath()
    ensures var data := map["a.b" := Leaf("x")]; LeadsTo(data, ["a.b"], "a.b", "x") && TextAt(data, "a.b") == ""
  {
    var path, parts := ["a.b"], ["a", "b"];
    assert path[1..] == [] && parts[1..] == ["b"];
    SplitJoin(parts, '.');
    assert Join(parts, '.') == "a.b";
    hide Split, Join;
    assert Split("a.b", '.') == parts && "a" != "a.b";
  }

  /** And an empty name: the validator takes it for no prefix at all. */
  lemma EmptyNameFallsBack(flat: map<string, string>)
    requires IsFlattening(flat, map["" := Tree(map["a" := Leaf("x")])])
    ensures var data := map["" := Tree(map["a" := Leaf("x")])]; var t := Translator("en", data, None);
      && StringLeaves(Tree(data)) && "a" in flat && flat["a"] == "x" && T(t, "a") == "a"
      && Accepted(map["a" := "x"], _ => Some(map["a" := "x"]))
  {
    var data := map["" := Tree(map["a" := Leaf("x")])];
    EmptyPath();
    WordNotBlank('x');
    hide IsFlattening, LeadsTo, TrimSpace, T, Accepted, TextAt;
    FallsBack(data, flat, ["", "a"], "a", "x");
  }

  lemma EmptyPath()
    ensures var data := map["" := Tree(map["a" := Leaf("x")])]; LeadsTo(data, ["", "a"], "a", "x") && TextAt(data, "a") == ""
  {
    var path, rest := ["", "a"], ["a"];
    assert path[1..] == rest && rest[1..] == [];
    SplitSingle("a", '.');
    hide Split;
    assert "" != "a";
  }
}
