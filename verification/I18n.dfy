/** Translations: the dotted lookup of the translator, the flattening of the build-time validator,
    and what the validator's verdict means for the translator. */
module I18n {
  import opened Text

  /** A parsed locale file. `Other` is a number, a boolean, null or an array, with the text that
      printing it gives. */
  datatype Node = Leaf(text: string) | Other(rendered: string) | Tree(children: map<string, Node>)

  // ---------- lookup ----------

  /** `strings.SplitN(key, ".", 2)`: the part before the first dot, and the rest if there is a dot. */
  function CutDot(key: string): (r: (string, Option<string>))
    ensures r.1.Some? ==> |r.1.value| < |key|
    ensures '.' !in r.0
    ensures key == if r.1.Some? then r.0 + ['.'] + r.1.value else r.0
  {
    if key == [] then ([], None)
    else if key[0] == '.' then ([], Some(key[1..]))
    else
      var (head, rest) := CutDot(key[1..]);
      ([key[0]] + head, rest)
  }

  /** `lookupKey`: empty when the key leads to no string. */
  function LookupKey(data: map<string, Node>, key: string): string
    decreases |key|
  {
    var (head, rest) := CutDot(key);
    if head !in data then ""
    else if rest.None? then (if data[head].Leaf? then data[head].text else "")
    else if data[head].Tree? then LookupKey(data[head].children, rest.value)
    else ""
  }

  /** A translator: the language, its data and the data of English, when that loads. */
  datatype Translator = Translator(lang: string, data: map<string, Node>, english: Option<map<string, Node>>)

  /** `Translator.T`. */
  function T(t: Translator, key: string): string {
    var own := LookupKey(t.data, key);
    if own != "" then own
    else if t.lang != "en" && t.english.Some? then
      var fallback := LookupKey(t.english.value, key);
      if fallback != "" then fallback else key
    else key
  }

  // ---------- leaves by path ----------

  function LeafValue(n: Node): Option<string> {
    match n case Leaf(text) => Some(text) case Other(rendered) => Some(rendered) case Tree(_) => None
  }

  /** The node that a path of names leads to. */
  function Follow(n: Node, path: seq<string>): Option<Node>
    decreases |path|
  {
    if path == [] then Some(n)
    else if n.Tree? && path[0] in n.children then Follow(n.children[path[0]], path[1..])
    else None
  }

  /** The leaf at a dotted key, read name by name. */
  function LeafAt(data: map<string, Node>, key: string): Option<string>
    decreases |key|
  {
    var (head, rest) := CutDot(key);
    if head !in data then None
    else if rest.None? then LeafValue(data[head])
    else if data[head].Tree? then LeafAt(data[head].children, rest.value)
    else None
  }

  lemma {:induction false} CutIsSplit(key: string)
    ensures var (head, rest) := CutDot(key);
      Split(key, '.') == [head] + if rest.Some? then Split(rest.value, '.') else []
  {
    if key != [] && key[0] != '.' { CutIsSplit(key[1..]); }
  }

  /** The leaf at a key is the leaf at the end of the path that the key's dots spell. */
  lemma {:induction false} LeafAtFollows(data: map<string, Node>, key: string)
    ensures LeafAt(data, key) ==
      match Follow(Tree(data), Split(key, '.')) case None => None case Some(n) => LeafValue(n)
    decreases |key|
  {
    hide Split;
    CutIsSplit(key);
    var (head, rest) := CutDot(key);
    var path := Split(key, '.');
    if head in data {
      if rest.None? {
        assert path[1..] == [];
      } else {
        assert path[1..] == Split(rest.value, '.');
        assert Split(rest.value, '.') != [];
        if data[head].Tree? { LeafAtFollows(data[head].children, rest.value); }
      }
    }
  }

  // ---------- flattening ----------

  /** Every name is non-empty and free of dots, at every depth. */
  predicate WellNamed(n: Node) {
    n.Tree? ==> forall name :: name in n.children ==> name != "" && '.' !in name && WellNamed(n.children[name])
  }

  /** Every leaf is a string. */
  predicate StringLeaves(n: Node) {
    match n
    case Leaf(_) => true
    case Other(_) => false
    case Tree(children) => forall name :: name in children ==> StringLeaves(children[name])
  }

  function Get(m: map<string, string>, x: string): Option<string> {
    if x in m then Some(m[x]) else None
  }

  /** The full key of a name below a prefix. */
  function KeyOf(prefix: string, name: string): string {
    if prefix == "" then name else prefix + "." + name
  }

  /** The key that flattening gives to what lies at the end of a path. */
  function KeyAlong(prefix: string, path: seq<string>): string
    decreases |path|
  {
    if path == [] then prefix else KeyAlong(KeyOf(prefix, path[0]), path[1..])
  }

  /** The path leads to a leaf with value `v`, and its names join to the key `x`. */
  ghost predicate Reads(prefix: string, data: map<string, Node>, path: seq<string>, x: string, v: string) {
    path != [] && KeyAlong(prefix, path) == x &&
    match Follow(Tree(data), path) case None => false case Some(n) => LeafValue(n) == Some(v)
  }

  /** Some path that starts with one of the names leads to a leaf at key `x` with value `v`. */
  ghost predicate Offers(prefix: string, data: map<string, Node>, names: set<string>, x: string, v: string) {
    exists path :: Reads(prefix, data, path, x, v) && path != [] && path[0] in names
  }

  /** What flattening the names leaves at key `x`: a value on offer, or what was there if there is none. */
  ghost predicate Settled(before: map<string, string>, after: map<string, string>, prefix: string,
                          data: map<string, Node>, names: set<string>, x: string) {
    if exists v :: Offers(prefix, data, names, x, v) then x in after && Offers(prefix, data, names, x, after[x])
    else Get(after, x) == Get(before, x)
  }

  ghost predicate Filled(before: map<string, string>, after: map<string, string>, prefix: string,
                         data: map<string, Node>, names: set<string>) {
    forall x :: Settled(before, after, prefix, data, names, x)
  }

  /** The output map, shared by all levels of the recursion. */
  class FlatMap {
    var m: map<string, string>

    constructor ()
      ensures m == map[]
    {
      m := map[];
    }
  }

  /** What one child offers at key `x`, filed under `key`. */
  ghost predicate ChildOffers(key: string, child: Node, x: string, v: string) {
    if child.Tree? then Offers(key, child.children, child.children.Keys, x, v)
    else x == key && LeafValue(child) == Some(v)
  }

  lemma ReadsChild(prefix: string, data: map<string, Node>, path: seq<string>, x: string, v: string)
    requires path != [] && path[0] in data
    ensures var (key, child) := (KeyOf(prefix, path[0]), data[path[0]]);
      Reads(prefix, data, path, x, v) <==>
        if child.Tree? then Reads(key, child.children, path[1..], x, v)
        else path[1..] == [] && x == key && LeafValue(child) == Some(v)
  {
    var key, child, rest := KeyOf(prefix, path[0]), data[path[0]], path[1..];
    hide KeyOf;
    assert Follow(Tree(data), path) == Follow(child, rest) && KeyAlong(prefix, path) == KeyAlong(key, rest);
    if child.Tree? {
      assert child == Tree(child.children);
    } else {
      assert rest != [] ==> Follow(child, rest) == None;
    }
  }

  lemma ReadsStarts(prefix: string, data: map<string, Node>, path: seq<string>, x: string, v: string)
    requires Reads(prefix, data, path, x, v)
    ensures path != [] && path[0] in data
  {
  }

  /** A name offers what its child offers. */
  lemma NameOffers(prefix: string, data: map<string, Node>, name: string, x: string, v: string)
    requires name in data
    ensures Offers(prefix, data, {name}, x, v) <==> ChildOffers(KeyOf(prefix, name), data[name], x, v)
  {
    hide KeyOf, Reads;
    var key, child := KeyOf(prefix, name), data[name];
    if Offers(prefix, data, {name}, x, v) {
      var path :| Reads(prefix, data, path, x, v) && path != [] && path[0] in {name};
      ReadsChild(prefix, data, path, x, v);
      if child.Tree? { ReadsStarts(key, child.children, path[1..], x, v); }
    }
    if ChildOffers(key, child, x, v) {
      var rest: seq<string> := [];
      if child.Tree? { rest :| Reads(key, child.children, rest, x, v) && rest != [] && rest[0] in child.children.Keys; }
      var path := [name] + rest;
      assert path[0] == name && path[1..] == rest;
      ReadsChild(prefix, data, path, x, v);
    }
  }

  lemma MoreNames(prefix: string, data: map<string, Node>, done: set<string>, name: string, x: string, v: string)
    ensures Offers(prefix, data, done + {name}, x, v) <==>
      Offers(prefix, data, done, x, v) || Offers(prefix, data, {name}, x, v)
  {
    hide Reads;
  }

  /** One more name: what its child leaves, over what the names before it left. */
  lemma NameFilled(before: map<string, string>, m: map<string, string>, after: map<string, string>, prefix: string,
                   data: map<string, Node>, done: set<string>, name: string)
    requires Filled(before, m, prefix, data, done) && Filled(m, after, prefix, data, {name})
    ensures Filled(before, after, prefix, data, done + {name})
  {
    hide Offers;
    forall x ensures Settled(before, after, prefix, data, done + {name}, x) {
      assert Settled(before, m, prefix, data, done, x) && Settled(m, after, prefix, data, {name}, x);
      forall v { MoreNames(prefix, data, done, name, x, v); }
    }
  }

  lemma LeafFilled(m: map<string, string>, prefix: string, data: map<string, Node>, name: string, text: string)
    requires name in data && LeafValue(data[name]) == Some(text)
    ensures Filled(m, m[KeyOf(prefix, name) := text], prefix, data, {name})
  {
    var after := m[KeyOf(prefix, name) := text];
    hide KeyOf, Offers;
    forall x ensures Settled(m, after, prefix, data, {name}, x) {
      forall v { NameOffers(prefix, data, name, x, v); }
    }
  }

  lemma TreeFilled(m: map<string, string>, after: map<string, string>, prefix: string, data: map<string, Node>, name: string)
    requires name in data && data[name].Tree?
    requires var children := data[name].children; Filled(m, after, KeyOf(prefix, name), children, children.Keys)
    ensures Filled(m, after, prefix, data, {name})
  {
    hide KeyOf, Offers;
    var children := data[name].children;
    forall x ensures Settled(m, after, prefix, data, {name}, x) {
      assert Settled(m, after, KeyOf(prefix, name), children, children.Keys, x);
      forall v { NameOffers(prefix, data, name, x, v); }
    }
  }

  lemma NothingFilled(m: map<string, string>, prefix: string, data: map<string, Node>)
    ensures Filled(m, m, prefix, data, {})
  {
  }

  /** `flatten`: the children in any order, written into one shared map. Whatever the names are, each key
      to which the names of some path to a leaf join ends up with the value of such a leaf, and no
      other key is touched. */
  method Flatten(prefix: string, node: Node, out: FlatMap)
    requires node.Tree?
    modifies out
    ensures Filled(old(out.m), out.m, prefix, node.children, node.children.Keys)
    decreases node
  {
    hide KeyOf, Filled;
    var children := node.children;
    var todo := children.Keys;
    ghost var before := out.m;
    NothingFilled(before, prefix, children);
    assert children.Keys - todo == {};
    while todo != {}
      invariant todo <= children.Keys
      invariant Filled(before, out.m, prefix, children, children.Keys - todo)
      decreases todo
    {
      var name :| name in todo;
      ghost var done, m := children.Keys - todo, out.m;
      todo := todo - {name};
      var key := KeyOf(prefix, name);
      match children[name] {
        case Leaf(text) =>
          LeafFilled(m, prefix, children, name, text);
          out.m := out.m[key := text];
        case Other(rendered) =>
          LeafFilled(m, prefix, children, name, rendered);
          out.m := out.m[key := rendered];
        case Tree(_) =>
          Flatten(key, children[name], out);
          TreeFilled(m, out.m, prefix, children, name);
      }
      NameFilled(before, m, out.m, prefix, children, done, name);
      assert children.Keys - todo == done + {name};
    }
    assert children.Keys - todo == children.Keys;
  }

  /** The path leads to a leaf of the file with value `v`, at key `x`. */
  ghost predicate LeadsTo(data: map<string, Node>, path: seq<string>, x: string, v: string) {
    Reads("", data, path, x, v)
  }

  /** `m` is what some order of flattening `data` gives: a key is there if some path leads to it, with
      the value at the end of such a path. */
  ghost predicate IsFlattening(m: map<string, string>, data: map<string, Node>) {
    (forall x :: x in m ==> exists path :: LeadsTo(data, path, x, m[x])) &&
    (forall path, x, v :: LeadsTo(data, path, x, v) ==> x in m)
  }

  method FlattenAll(data: map<string, Node>) returns (flat: map<string, string>)
    ensures IsFlattening(flat, data)
    ensures WellNamed(Tree(data)) ==> IsFlat(flat, data)
  {
    var out := new FlatMap();
    Flatten("", Tree(data), out);
    FilledFromNothing(out.m, data);
    if WellNamed(Tree(data)) { ProperNamesFlat(out.m, data); }
    return out.m;
  }

  lemma FilledFromNothing(m: map<string, string>, data: map<string, Node>)
    requires Filled(map[], m, "", data, data.Keys)
    ensures IsFlattening(m, data)
  {
    hide Reads;
    forall x | x in m ensures exists path :: LeadsTo(data, path, x, m[x]) {
      assert Settled(map[], m, "", data, data.Keys, x);
      var path :| Reads("", data, path, x, m[x]) && path != [] && path[0] in data.Keys;
      assert LeadsTo(data, path, x, m[x]);
    }
    forall path, x, v | LeadsTo(data, path, x, v) ensures x in m {
      ReadsStarts("", data, path, x, v);
      assert Settled(map[], m, "", data, data.Keys, x);
      assert Offers("", data, data.Keys, x, v);
    }
  }

  // ---------- trees with proper names ----------

  /** `m` holds at each key exactly the leaf that the key's dots lead to. */
  ghost predicate IsFlat(m: map<string, string>, data: map<string, Node>) {
    forall x :: Get(m, x) == LeafAt(data, x)
  }

  ghost predicate ProperPath(path: seq<string>) {
    forall i :: 0 <= i < |path| ==> path[i] != "" && '.' !in path[i]
  }

  lemma {:induction false} PathProper(n: Node, path: seq<string>)
    requires WellNamed(n) && Follow(n, path).Some?
    ensures ProperPath(path)
    decreases |path|
  {
    if path != [] { PathProper(n.children[path[0]], path[1..]); }
  }

  lemma {:induction false} KeyAlongJoins(prefix: string, path: seq<string>)
    requires ProperPath(path) && path != []
    ensures KeyAlong(prefix, path) == KeyOf(prefix, Join(path, '.'))
    decreases |path|
  {
    if |path| == 1 {
      assert path[1..] == [];
    } else {
      KeyAlongJoins(KeyOf(prefix, path[0]), path[1..]);
    }
  }

  /** With proper names the path to a key is the one its dots spell. */
  lemma ProperPathOf(data: map<string, Node>, path: seq<string>, x: string, v: string)
    requires WellNamed(Tree(data)) && LeadsTo(data, path, x, v)
    ensures path == Split(x, '.') && LeafAt(data, x) == Some(v)
  {
    PathProper(Tree(data), path);
    KeyAlongJoins("", path);
    SplitJoin(path, '.');
    LeafAtFollows(data, x);
  }

  /** Without dots and empty names the result does not depend on the order. */
  lemma ProperNamesFlat(m: map<string, string>, data: map<string, Node>)
    requires WellNamed(Tree(data)) && IsFlattening(m, data)
    ensures IsFlat(m, data)
  {
    forall x ensures Get(m, x) == LeafAt(data, x) {
      if x in m {
        var path :| LeadsTo(data, path, x, m[x]);
        ProperPathOf(data, path, x, m[x]);
      } else if LeafAt(data, x).Some? {
        LeafAtFollows(data, x);
        var path := Split(x, '.');
        PathProper(Tree(data), path);
        KeyAlongJoins("", path);
        JoinSplit(x, '.');
        assert LeadsTo(data, path, x, LeafAt(data, x).value);
      }
    }
  }
}
