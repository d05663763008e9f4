/** The meme store (store/store.go): a directory with an index of templates,
    macros and votes. The DB class holds the in-memory index (the maps of
    templates and macros and their next-id counters) and, as maps, the
    tables of the index database that its methods write. */
module Store {
  import opened Wrappers
  import opened GoStrings
  import opened Tmemes
  import opened StoreDb
  import Sorting

  // ---------------------------------------------------------------------
  // Options

  /** The optional settings of a DB; `None` stands for a nil *Options. */
  datatype Options = Options(minPruneBytes: int, maxAccessAge: int)

  /** One minute of time.Duration, in nanoseconds. */
  const Minute: int := 60_000_000_000

  /** time.Time{}, the zero time (year 1), in nanoseconds since the epoch. */
  const ZeroTime: Time := -62_135_596_800_000_000_000

  /** The pruning threshold: the option when positive, 50 MiB otherwise. */
  function MinPruneBytes(o: Option<Options>): (n: int)
    ensures n > 0
    ensures o.Some? && o.value.minPruneBytes > 0 ==> n == o.value.minPruneBytes
    ensures o.None? || o.value.minPruneBytes <= 0 ==> n == 50 * 1_048_576
  {
    if o.None? || o.value.minPruneBytes <= 0 then 50 * 1_048_576 else o.value.minPruneBytes
  }

  /** The eviction age: the option when positive, 30 minutes otherwise. */
  function MaxAccessAge(o: Option<Options>): (d: int)
    ensures d > 0
    ensures o.Some? && o.value.maxAccessAge > 0 ==> d == o.value.maxAccessAge
    ensures o.None? || o.value.maxAccessAge <= 0 ==> d == 30 * Minute
  {
    if o.None? || o.value.maxAccessAge <= 0 then 30 * Minute else o.value.maxAccessAge
  }

  /** Settings that are already resolved resolve to themselves. */
  lemma OptionsResolved(o: Option<Options>)
    ensures var r := Some(Options(MinPruneBytes(o), MaxAccessAge(o)));
            MinPruneBytes(r) == MinPruneBytes(o) && MaxAccessAge(r) == MaxAccessAge(o)
  {
  }

  // ---------------------------------------------------------------------
  // Template names

  /** unicode.ToLower on ASCII letters; other characters are kept. */
  function LowerChar(c: char): char {
    if 'A' <= c <= 'Z' then (c as int + 32) as char else c
  }

  predicate IsUpper(c: char) { 'A' <= c <= 'Z' }

  /** strings.ToLower, letter by letter. */
  function ToLower(s: string): (r: string)
    ensures |r| == |s|
  {
    if s == [] then [] else [LowerChar(s[0])] + ToLower(s[1..])
  }

  lemma {:induction false} ToLowerAt(s: string)
    ensures forall i :: 0 <= i < |s| ==> ToLower(s)[i] == LowerChar(s[i])
  {
    if s != [] {
      ToLowerAt(s[1..]);
    }
  }

  /** The replacer that turns " " and "_" into "-". */
  function HyphenChar(c: char): char {
    if c == ' ' || c == '_' then '-' else c
  }

  function Hyphenate(s: string): (r: string)
    ensures |r| == |s|
  {
    if s == [] then [] else [HyphenChar(s[0])] + Hyphenate(s[1..])
  }

  lemma {:induction false} HyphenateAt(s: string)
    ensures forall i :: 0 <= i < |s| ==> Hyphenate(s)[i] == HyphenChar(s[i])
  {
    if s != [] {
      HyphenateAt(s[1..]);
    }
  }

  /** canonicalTemplateName: the words of the trimmed name joined by "-",
      lower-cased, with spaces and underscores made hyphens. */
  function CanonicalTemplateName(name: string): string {
    Hyphenate(ToLower(Join(Fields(TrimSpace(name)), "-")))
  }

  /** A canonical name has no white space (so none at either end), no space,
      no underscore and no upper-case letter. */
  lemma CanonicalShape(name: string)
    ensures Canonical(CanonicalTemplateName(name))
  {
    var fs := Fields(TrimSpace(name));
    assert forall i :: 0 <= i < |fs| ==> NoSpace(fs[i]) by {
      forall i | 0 <= i < |fs| ensures NoSpace(fs[i]) {
        assert fs[i] in fs;
      }
    }
    var j := Join(fs, "-");
    JoinNoSpace(fs, "-");
    ToLowerAt(j);
    HyphenateAt(ToLower(j));
  }

  /** The shape CanonicalShape states. */
  predicate Canonical(cn: string) {
    NoSpace(cn) && forall i :: 0 <= i < |cn| ==> cn[i] != ' ' && cn[i] != '_' && !IsUpper(cn[i])
  }

  /** A name of canonical shape is its own canonical form. */
  lemma CanonicalFixed(cn: string)
    requires Canonical(cn)
    ensures CanonicalTemplateName(cn) == cn
  {
    TrimSpaceOfNoSpace(cn);
    if cn == [] {
      assert Fields([]) == [];
    } else {
      FieldsOfWord(cn);
      assert Join([cn], "-") == cn;
      LowerFixed(cn);
      HyphenFixed(cn);
    }
  }

  lemma LowerFixed(s: string)
    requires forall i :: 0 <= i < |s| ==> !IsUpper(s[i])
    ensures ToLower(s) == s
  {
    ToLowerAt(s);
  }

  lemma HyphenFixed(s: string)
    requires forall i :: 0 <= i < |s| ==> s[i] != ' ' && s[i] != '_'
    ensures Hyphenate(s) == s
  {
    HyphenateAt(s);
  }

  /** Canonicalising a canonical name changes nothing, so a name is found
      under its own canonical form. */
  lemma CanonicalIdempotent(name: string)
    ensures CanonicalTemplateName(CanonicalTemplateName(name)) == CanonicalTemplateName(name)
  {
    CanonicalShape(name);
    CanonicalFixed(CanonicalTemplateName(name));
  }

  // Lower-casing leaves white space where it is, so it commutes with the
  // trimming and the splitting into fields.

  lemma ToLowerAppend(a: string, b: string)
    ensures ToLower(a + b) == ToLower(a) + ToLower(b)
  {
    ToLowerAt(a + b);
    ToLowerAt(a);
    ToLowerAt(b);
  }

  lemma HyphenateAppend(a: string, b: string)
    ensures Hyphenate(a + b) == Hyphenate(a) + Hyphenate(b)
  {
    HyphenateAt(a + b);
    HyphenateAt(a);
    HyphenateAt(b);
  }

  lemma ToLowerDrop(s: string, k: nat)
    requires k <= |s|
    ensures ToLower(s)[k..] == ToLower(s[k..])
  {
    ToLowerAt(s);
    ToLowerAt(s[k..]);
  }

  lemma ToLowerTwice(s: string)
    ensures ToLower(ToLower(s)) == ToLower(s)
  {
    ToLowerAt(s);
    LowerFixed(ToLower(s));
  }

  lemma {:induction false} TrimLeftLower(s: string)
    ensures TrimLeftSpace(ToLower(s)) == ToLower(TrimLeftSpace(s))
    decreases |s|
  {
    if |s| > 0 {
      assert ToLower(s)[0] == LowerChar(s[0]) && ToLower(s)[1..] == ToLower(s[1..]);
      if IsSpace(s[0]) {
        TrimLeftLower(s[1..]);
      }
    }
  }

  lemma {:induction false} WordPrefixLower(s: string)
    ensures WordPrefix(ToLower(s)) == ToLower(WordPrefix(s))
    decreases |s|
  {
    if |s| > 0 {
      assert ToLower(s)[0] == LowerChar(s[0]) && ToLower(s)[1..] == ToLower(s[1..]);
      if !IsSpace(s[0]) {
        WordPrefixLower(s[1..]);
        var w := WordPrefix(s);
        assert w[0] == s[0] && w[1..] == WordPrefix(s[1..]);
        assert ToLower(w) == [LowerChar(w[0])] + ToLower(w[1..]);
      }
    }
  }

  /** Each field lower-cased. */
  function LowerAll(ps: seq<string>): (r: seq<string>)
    ensures |r| == |ps|
  {
    if ps == [] then [] else [ToLower(ps[0])] + LowerAll(ps[1..])
  }

  /** The fields of the lower-cased name are its fields lower-cased. */
  lemma {:induction false} FieldsLower(s: string)
    ensures Fields(ToLower(s)) == LowerAll(Fields(s))
    decreases |s|
  {
    var t := TrimLeftSpace(s);
    TrimLeftLower(s);
    if t != [] {
      TrimLeftSpaceSpec(s);
      var w := WordPrefix(t);
      assert |w| > 0 by { assert !IsSpace(t[0]); }
      WordPrefixLower(t);
      ToLowerDrop(t, |w|);
      FieldsLower(t[|w|..]);
      var fs := Fields(s);
      assert fs == [w] + Fields(t[|w|..]);
      assert fs[0] == w && fs[1..] == Fields(t[|w|..]);
    }
  }

  lemma {:induction false} JoinLower(ps: seq<string>)
    ensures ToLower(Join(ps, "-")) == Join(LowerAll(ps), "-")
    decreases |ps|
  {
    if |ps| > 1 {
      JoinLower(ps[1..]);
      ToLowerAppend(ps[0] + "-", Join(ps[1..], "-"));
      ToLowerAppend(ps[0], "-");
      assert ToLower("-") == "-";
      var l := LowerAll(ps);
      assert l[0] == ToLower(ps[0]) && l[1..] == LowerAll(ps[1..]);
    } else if |ps| == 1 {
      assert LowerAll(ps) == [ToLower(ps[0])];
    }
  }

  /** The canonical name depends only on the fields of the lower-cased
      name: how much white space separates the words, white space at either
      end and the case of the letters make no difference. */
  lemma CanonicalOfLowerFields(name: string)
    ensures CanonicalTemplateName(name) == Hyphenate(Join(Fields(ToLower(name)), "-"))
  {
    FieldsOfTrimSpace(name);
    JoinLower(Fields(name));
    FieldsLower(name);
  }

  /** Names whose lower-cased words agree have the same canonical name, so
      TemplateByName finds the same template for both. */
  lemma CanonicalCaseBlind(a: string, b: string)
    requires Fields(ToLower(a)) == Fields(ToLower(b))
    ensures CanonicalTemplateName(a) == CanonicalTemplateName(b)
  {
    CanonicalOfLowerFields(a);
    CanonicalOfLowerFields(b);
  }

  /** The comparison is without regard to case. */
  lemma CanonicalIgnoresCase(name: string)
    ensures CanonicalTemplateName(ToLower(name)) == CanonicalTemplateName(name)
  {
    ToLowerTwice(name);
    CanonicalCaseBlind(ToLower(name), name);
  }

  /** White space around a name is dropped. */
  lemma CanonicalTrims(sp1: string, name: string, sp2: string)
    requires AllSpace(sp1) && AllSpace(sp2)
    ensures CanonicalTemplateName(sp1 + name + sp2) == CanonicalTemplateName(name)
  {
    assert sp1 + name + sp2 == sp1 + (name + sp2);
    FieldsOfTrimSpace(sp1 + name + sp2);
    FieldsLeadingSpace(sp1, name + sp2);
    FieldsTrailingSpace(name, sp2);
    FieldsOfTrimSpace(name);
  }

  /** A run of white space between two words becomes one "-". */
  lemma CanonicalWords(a: string, ws: string, b: string)
    requires |a| > 0 && NoSpace(a) && |b| > 0 && NoSpace(b)
    requires |ws| > 0 && AllSpace(ws)
    ensures CanonicalTemplateName(a + ws + b) == CanonicalTemplateName(a) + "-" + CanonicalTemplateName(b)
  {
    FieldsOfTwoWords(a, ws, b);
    CanonicalOfWord(a);
    CanonicalOfWord(b);
    CanonicalOfJoin(a, b);
  }

  lemma FieldsOfTwoWords(a: string, ws: string, b: string)
    requires |a| > 0 && NoSpace(a) && |b| > 0 && NoSpace(b)
    requires |ws| > 0 && AllSpace(ws)
    ensures Fields(TrimSpace(a + ws + b)) == [a, b]
  {
    var n := a + ws + b;
    assert n == a + (ws + b);
    assert (ws + b)[0] == ws[0];
    FieldsWord(a, ws + b);
    FieldsLeadingSpace(ws, b);
    FieldsOfWord(b);
    FieldsOfTrimSpace(n);
  }

  lemma CanonicalOfWord(a: string)
    requires |a| > 0 && NoSpace(a)
    ensures CanonicalTemplateName(a) == Hyphenate(ToLower(a))
  {
    FieldsOfWord(a);
    FieldsOfTrimSpace(a);
  }

  lemma CanonicalOfJoin(a: string, b: string)
    ensures Hyphenate(ToLower(Join([a, b], "-"))) == Hyphenate(ToLower(a)) + "-" + Hyphenate(ToLower(b))
  {
    assert Join([a, b], "-") == a + "-" + b;
    ToLowerAppend(a + "-", b);
    ToLowerAppend(a, "-");
    assert ToLower("-") == "-";
    HyphenateAppend(ToLower(a) + "-", ToLower(b));
    HyphenateAppend(ToLower(a), "-");
    assert Hyphenate("-") == "-";
  }

  // ---------------------------------------------------------------------
  // File paths

  /** The key that starts every cache file name. */
  function CacheKey(seed: string): (k: string)
    ensures k == if seed == "" then "0000" else seed
    ensures k != ""
  {
    if seed == "" then "0000" else seed
  }

  /** The name of a macro's cache file: key, "-", the macro id, and the
      extension of the template image. */
  function CacheName(seed: string, macroID: int, templatePath: string): string {
    CacheKey(seed) + "-" + Itoa(macroID) + Ext(templatePath)
  }

  /** cachePath: the cache file of `m`, under "macros" in the store. */
  function CachePathOf(dir: string, seed: string, m: Macro, t: Tmemes.Template): string {
    dir + "/macros/" + CacheName(seed, m.id, t.path)
  }

  /** A cache path starts with the macros directory and the key. */
  lemma CachePathShape(dir: string, seed: string, m: Macro, t: Tmemes.Template)
    ensures HasPrefix(CachePathOf(dir, seed, m, t), dir + "/macros/" + CacheKey(seed) + "-")
  {
    var head := dir + "/macros/" + CacheKey(seed) + "-";
    var mid, e := Itoa(m.id), Ext(t.path);
    assert CachePathOf(dir, seed, m, t) == head + mid + e;
    Affixes(head, mid, e);
  }

  /** A cache file has the extension of its template's image, so the
      format it is generated in follows the template. */
  lemma CachePathExt(dir: string, seed: string, m: Macro, t: Tmemes.Template)
    requires Ext(t.path) != ""
    ensures Ext(CachePathOf(dir, seed, m, t)) == Ext(t.path)
  {
    var head := dir + "/macros/" + CacheKey(seed) + "-" + Itoa(m.id);
    var e := Ext(t.path);
    assert CachePathOf(dir, seed, m, t) == head + e;
    ExtOfSuffix(head, e);
  }

  lemma Affixes(head: string, mid: string, tail: string)
    ensures HasPrefix(head + mid + tail, head) && HasSuffix(head + mid + tail, tail)
  {
    var p := head + mid + tail;
    assert p[..|head|] == head;
    assert p[|p| - |tail|..] == tail;
  }

  /** Macros of one template get distinct cache paths. */
  lemma CachePathInjective(dir: string, seed: string, m1: Macro, m2: Macro, t: Tmemes.Template)
    requires MinInt64 <= m1.id <= MaxInt64 && MinInt64 <= m2.id <= MaxInt64
    requires CachePathOf(dir, seed, m1, t) == CachePathOf(dir, seed, m2, t)
    ensures m1.id == m2.id
  {
    var head := dir + "/macros/" + CacheKey(seed) + "-";
    var e := Ext(t.path);
    var a, b := Itoa(m1.id), Itoa(m2.id);
    CachePathParts(dir, seed, m1, t);
    CachePathParts(dir, seed, m2, t);
    MiddleEqual(head, a, b, e);
    ItoaInjective(m1.id, m2.id);
  }

  lemma CachePathParts(dir: string, seed: string, m: Macro, t: Tmemes.Template)
    ensures CachePathOf(dir, seed, m, t) == (dir + "/macros/" + CacheKey(seed) + "-") + Itoa(m.id) + Ext(t.path)
  {
    var k, i, e := CacheKey(seed), Itoa(m.id), Ext(t.path);
    assert k + "-" + i + e == k + "-" + (i + e);
  }

  lemma ItoaInjective(x: int, y: int)
    requires MinInt64 <= x <= MaxInt64 && MinInt64 <= y <= MaxInt64
    requires Itoa(x) == Itoa(y)
    ensures x == y
  {
    AtoiItoa(x);
    AtoiItoa(y);
  }

  lemma MiddleEqual(head: string, a: string, b: string, e: string)
    requires head + a + e == head + b + e
    ensures a == b
  {
    var p := head + a + e;
    assert |a| == |b|;
    assert a == p[|head|..|head| + |a|];
    assert b == (head + b + e)[|head|..|head| + |b|];
  }

  /** The extension as AddTemplate stores it: "png" by default, else the
      given one without a leading ".". */
  function FileExt(fileExt: string): (ext: string)
    ensures fileExt == "" ==> ext == "png"
    ensures fileExt != "" && HasPrefix(fileExt, ".") ==> "." + ext == fileExt
    ensures fileExt != "" && !HasPrefix(fileExt, ".") ==> ext == fileExt
  {
    if fileExt == "" then "png" else TrimPrefix(fileExt, ".")
  }

  /** The image file of template `id`, under "templates" in the store. */
  function TemplateFile(dir: string, id: int, ext: string): string {
    dir + "/templates/" + Itoa(id) + "." + ext
  }

  /** When the stored extension holds no '.' or '/', the template file's
      extension is exactly it, and so is the cache files' extension. */
  lemma TemplateFileExt(dir: string, id: int, ext: string)
    requires forall k :: 0 <= k < |ext| ==> ext[k] != '.' && ext[k] != '/'
    ensures Ext(TemplateFile(dir, id, ext)) == "." + ext
  {
    var base := dir + "/templates/" + Itoa(id);
    assert TemplateFile(dir, id, ext) == base + ("." + ext);
    ExtOfSuffix(base, "." + ext);
  }

  // ---------------------------------------------------------------------
  // Votes

  /** The value SetVote stores for a non-zero vote. */
  function VoteFlag(vote: int): (flag: int)
    requires vote != 0
    ensures flag == 1 || flag == -1
    ensures flag == 1 <==> vote > 0
  {
    if vote < 0 then -1 else 1
  }

  /** The keys of the votes cast on macro `id`. */
  function VotesOn(votes: map<(UserID, int), int>, id: int): set<(UserID, int)> {
    set p | p in votes && p.1 == id
  }

  /** The up count of the VoteTotals view for macro `id`. */
  function Ups(votes: map<(UserID, int), int>, id: int): nat {
    |set p | p in votes && p.1 == id && votes[p] > 0|
  }

  /** The down count of the VoteTotals view for macro `id`. */
  function Downs(votes: map<(UserID, int), int>, id: int): nat {
    |set p | p in votes && p.1 == id && votes[p] < 0|
  }

  /** Every stored vote is +1 or -1. */
  predicate Pinned(votes: map<(UserID, int), int>) {
    forall p :: p in votes ==> votes[p] == 1 || votes[p] == -1
  }

  /** With pinned votes, every vote on a macro is counted once, as up or
      as down. */
  lemma VoteTotalsCount(votes: map<(UserID, int), int>, id: int)
    requires Pinned(votes)
    ensures Ups(votes, id) + Downs(votes, id) == |VotesOn(votes, id)|
  {
    var up := set p | p in votes && p.1 == id && votes[p] > 0;
    var down := set p | p in votes && p.1 == id && votes[p] < 0;
    assert VotesOn(votes, id) == up + down;
    assert up * down == {};
  }

  /** Go ranges over a map in no fixed order: `order` is the order a loop
      visits the keys in, each key once. */
  ghost predicate KeyOrder<V>(m: map<int, V>, order: seq<int>) {
    (forall k :: k in m ==> k in order) &&
    (forall i :: 0 <= i < |order| ==> order[i] in m) &&
    (forall i, j :: 0 <= i < j < |order| ==> order[i] != order[j])
  }

  /** Whether a template is listed: not hidden, and by `creator` if given. */
  predicate Listed(t: Tmemes.Template, creator: Option<UserID>) {
    !t.hidden && (creator.None? || t.creator == creator.value)
  }

  /** Non-decreasing by ID. */
  predicate AscendingByID(ts: seq<Tmemes.Template>) {
    forall i, j :: 0 <= i < j < |ts| ==> ts[i].id <= ts[j].id
  }

  /** The listed templates among `keys`, in that order. */
  function ListedIn(ts: map<int, Tmemes.Template>, creator: Option<UserID>, keys: seq<int>): seq<Tmemes.Template>
    requires forall j :: 0 <= j < |keys| ==> keys[j] in ts
  {
    if keys == [] then []
    else
      var last := ts[keys[|keys| - 1]];
      ListedIn(ts, creator, keys[..|keys| - 1]) + (if Listed(last, creator) then [last] else [])
  }

  lemma {:induction false} ListedInAt(ts: map<int, Tmemes.Template>, creator: Option<UserID>, keys: seq<int>, t: Tmemes.Template)
    requires forall j :: 0 <= j < |keys| ==> keys[j] in ts
    ensures t in ListedIn(ts, creator, keys) <==> exists j :: 0 <= j < |keys| && ts[keys[j]] == t && Listed(t, creator)
    decreases |keys|
  {
    if keys != [] {
      var prefix := keys[..|keys| - 1];
      ListedInAt(ts, creator, prefix, t);
      assert forall j :: 0 <= j < |prefix| ==> prefix[j] == keys[j];
    }
  }

  /** Visiting every key, the listed templates are those of the map. */
  lemma ListedInMembers(ts: map<int, Tmemes.Template>, creator: Option<UserID>, order: seq<int>)
    requires KeyOrder(ts, order)
    ensures forall t :: t in ListedIn(ts, creator, order) <==> exists id :: id in ts && ts[id] == t && Listed(t, creator)
  {
    forall t ensures t in ListedIn(ts, creator, order) <==> exists id :: id in ts && ts[id] == t && Listed(t, creator) {
      ListedInAt(ts, creator, order, t);
      if exists id :: id in ts && ts[id] == t && Listed(t, creator) {
        var id :| id in ts && ts[id] == t && Listed(t, creator);
        var j :| 0 <= j < |order| && order[j] == id;
      }
    }
  }

  /** The listed keys of `prefix + [k]`. */
  lemma ListedSetSnoc(ts: map<int, Tmemes.Template>, creator: Option<UserID>, prefix: seq<int>, k: int)
    requires forall j :: 0 <= j < |prefix| ==> prefix[j] in ts
    requires k in ts
    ensures (set x | x in prefix + [k] && Listed(ts[x], creator)) ==
            (set x | x in prefix && Listed(ts[x], creator)) + (if Listed(ts[k], creator) then {k} else {})
  {
    var a := set x | x in prefix + [k] && Listed(ts[x], creator);
    var b := (set x | x in prefix && Listed(ts[x], creator)) + (if Listed(ts[k], creator) then {k} else {});
    forall x ensures x in a <==> x in b {
      assert x in prefix + [k] <==> x in prefix || x == k;
    }
    assert a == b;
  }

  /** Each listed template is visited once: with distinct keys there are as
      many as there are listed keys. */
  lemma {:induction false} ListedInCard(ts: map<int, Tmemes.Template>, creator: Option<UserID>, keys: seq<int>)
    requires forall j :: 0 <= j < |keys| ==> keys[j] in ts
    requires forall i, j :: 0 <= i < j < |keys| ==> keys[i] != keys[j]
    ensures |ListedIn(ts, creator, keys)| == |set k | k in keys && Listed(ts[k], creator)|
    decreases |keys|
  {
    if keys != [] {
      var prefix := keys[..|keys| - 1];
      var k := keys[|keys| - 1];
      ListedInCard(ts, creator, prefix);
      assert keys == prefix + [k];
      assert k !in prefix;
      ListedSetSnoc(ts, creator, prefix, k);
    }
  }

  lemma ListedInCount(ts: map<int, Tmemes.Template>, creator: Option<UserID>, order: seq<int>)
    requires KeyOrder(ts, order)
    ensures |ListedIn(ts, creator, order)| == |set id | id in ts && Listed(ts[id], creator)|
  {
    ListedInCard(ts, creator, order);
    var a := set k | k in order && Listed(ts[k], creator);
    var b := set id | id in ts && Listed(ts[id], creator);
    forall k ensures k in a <==> k in b {
      if k in order {
        var j :| 0 <= j < |order| && order[j] == k;
      }
    }
    assert a == b;
  }

  /** sort.Slice by ascending ID: a permutation of `ts` in non-decreasing
      order of ID. */
  function SortByID(ts: seq<Tmemes.Template>): (r: seq<Tmemes.Template>)
    ensures forall t :: t in r <==> t in ts
    ensures |r| == |ts|
    ensures AscendingByID(r)
  {
    var r := Sorting.Sort(ts, (t: Tmemes.Template) => Sorting.Key(-t.id, 0));
    assert forall t :: t in r <==> t in ts by {
      forall t ensures t in r <==> t in ts {
        assert t in r <==> t in multiset(r);
        assert t in ts <==> t in multiset(ts);
      }
    }
    assert |r| == |multiset(r)| == |multiset(ts)| == |ts|;
    assert AscendingByID(r) by {
      forall i, j | 0 <= i < j < |r| ensures r[i].id <= r[j].id {
        assert Sorting.KeyGe(Sorting.Key(-r[i].id, 0), Sorting.Key(-r[j].id, 0));
      }
    }
    r
  }

  function NotFound(kind: string, id: int): string {
    kind + " " + Itoa(id) + " not found"
  }

  function Quote(s: string): string { "\"" + s + "\"" }

  // ---------------------------------------------------------------------
  // The store

  class DB {
    var dir: string
    var minPruneBytes: int
    var maxAccessAge: int
    var cacheSeed: string
    var macros: map<int, Macro>
    var nextMacroID: int
    var templates: map<int, Tmemes.Template>
    var nextTemplateID: int
    /** The Macros and Templates tables, as rows by id. */
    var macroRows: map<int, Macro>
    var templateRows: map<int, Tmemes.Template>
    /** The Votes table, keyed by user and macro. */
    var votes: map<(UserID, int), int>
    /** The "cacheSeed" row of the Meta table, if any. */
    var metaSeed: Option<string>

    /** The id counters are past every id in use. */
    ghost predicate Valid()
      reads this
    {
      nextMacroID >= 1 && nextTemplateID >= 1 &&
      (forall id :: id in macros ==> id < nextMacroID) &&
      (forall id :: id in templates ==> id < nextTemplateID)
    }

    /** A DB before its index is loaded (New, up to loadSQLiteIndex). */
    constructor (dir: string, opts: Option<Options>, macroRows: map<int, Macro>,
                 templateRows: map<int, Tmemes.Template>, votes: map<(UserID, int), int>, metaSeed: Option<string>)
      ensures this.dir == dir && minPruneBytes == MinPruneBytes(opts) && maxAccessAge == MaxAccessAge(opts)
      ensures this.macroRows == macroRows && this.templateRows == templateRows
      ensures this.votes == votes && this.metaSeed == metaSeed
      ensures cacheSeed == "" && macros == map[] && templates == map[]
      ensures nextMacroID == 0 && nextTemplateID == 0
    {
      this.dir := dir;
      minPruneBytes := MinPruneBytes(opts);
      maxAccessAge := MaxAccessAge(opts);
      this.macroRows := macroRows;
      this.templateRows := templateRows;
      this.votes := votes;
      this.metaSeed := metaSeed;
      cacheSeed := "";
      macros := map[];
      templates := map[];
      nextMacroID := 0;
      nextTemplateID := 0;
    }

    /** loadSQLiteIndex: both tables are loaded from the rows their queries
        return, then the cache seed from the Meta table; every load runs, and
        their errors are joined. */
    method LoadIndex(macroTable: seq<Row<Macro>>, templateTable: seq<Row<Tmemes.Template>>)
      returns (err: Option<string>)
      modifies this`macros, this`nextMacroID, this`templates, this`nextTemplateID, this`cacheSeed
      ensures macros == LoadedIndex(macroTable) && nextMacroID == LoadedNext(macroTable)
      ensures templates == LoadedIndex(templateTable) && nextTemplateID == LoadedNext(templateTable)
      ensures cacheSeed == if metaSeed.Some? then metaSeed.value else old(cacheSeed)
      ensures err.None? <==> Decodes(macroTable) && Decodes(templateTable)
      ensures err == JoinErrors([LoadError("macro", macroTable), LoadError("template", templateTable)])
      ensures err.None? ==> Valid()
    {
      var ms, mnext, merr := LoadRows("macro", macroTable);
      var ts, tnext, terr := LoadRows("template", templateTable);
      JoinTwoErrors(merr, terr);
      if merr.None? && terr.None? {
        NextAboveLoaded(macroTable);
        NextAboveLoaded(templateTable);
      }
      macros, nextMacroID := ms, mnext;
      templates, nextTemplateID := ts, tnext;
      if metaSeed.Some? {
        cacheSeed := metaSeed.value;
      }
      err := JoinErrors([merr, terr]);
    }

    /** SetCacheSeed: a new seed is written to the Meta table and used. */
    method SetCacheSeed(s: string)
      modifies this`cacheSeed, this`metaSeed
      ensures cacheSeed == s
      ensures if s == old(cacheSeed) then metaSeed == old(metaSeed) else metaSeed == Some(s)
    {
      if s == cacheSeed {
        return;
      }
      metaSeed := Some(s);
      cacheSeed := s;
    }

    // -------------------------------------------------------------------
    // Lookups

    /** Template: a hidden template is not found. */
    function Template(id: int): (r: Result<Tmemes.Template, string>)
      reads this
      ensures r.Ok? <==> id in templates && !templates[id].hidden
      ensures r.Ok? ==> r.value == templates[id]
      ensures r.Err? ==> r.error == NotFound("template", id)
    {
      if id in templates && !templates[id].hidden then Ok(templates[id])
      else Err(NotFound("template", id))
    }

    /** AnyTemplate: hidden templates are found too. */
    function AnyTemplate(id: int): (r: Result<Tmemes.Template, string>)
      reads this
      ensures r.Ok? <==> id in templates
      ensures r.Ok? ==> r.value == templates[id]
      ensures r.Err? ==> r.error == NotFound("template", id)
    {
      if id in templates then Ok(templates[id]) else Err(NotFound("template", id))
    }

    /** TemplatePath: the image path, for hidden templates too. */
    function TemplatePath(id: int): (r: Result<string, string>)
      reads this
      ensures r.Ok? <==> id in templates
      ensures r.Ok? ==> r.value == templates[id].path
    {
      if id in templates then Ok(templates[id].path) else Err(NotFound("template", id))
    }

    /** Template, AnyTemplate and TemplatePath agree, and differ only on
        hidden templates. */
    lemma TemplateVisibility(id: int)
      ensures Template(id).Ok? ==> AnyTemplate(id) == Template(id)
      ensures AnyTemplate(id).Ok? && Template(id).Err? ==> AnyTemplate(id).value.hidden
      ensures TemplatePath(id).Ok? <==> AnyTemplate(id).Ok?
      ensures TemplatePath(id).Ok? ==> TemplatePath(id).value == AnyTemplate(id).value.path
    {
    }

    /** Macro: the macro stored under `id`. */
    function Macro(id: int): (r: Result<Tmemes.Macro, string>)
      reads this
      ensures r.Ok? <==> id in macros
      ensures r.Ok? ==> r.value == macros[id]
    {
      if id in macros then Ok(macros[id]) else Err(NotFound("macro", id))
    }

    /** CachePath: the cache file of `m`, when its template exists. */
    function CachePath(m: Tmemes.Macro): (r: Result<string, string>)
      reads this
      ensures r.Ok? <==> m.templateID in templates
      ensures r.Ok? ==> r.value == CachePathOf(dir, cacheSeed, m, templates[m.templateID])
    {
      if m.templateID in templates then Ok(CachePathOf(dir, cacheSeed, m, templates[m.templateID]))
      else Err(NotFound("template", m.templateID))
    }

    /** TemplateByName: a listed template whose name is the canonical form
        of `name`, the keys visited in `order`. */
    method TemplateByName(name: string, order: seq<int>) returns (r: Result<Tmemes.Template, string>)
      requires KeyOrder(templates, order)
      ensures var cn := CanonicalTemplateName(name);
              (cn == "" ==> r == Err("empty template name")) &&
              (r.Ok? ==> exists id :: id in templates && !templates[id].hidden &&
                                      templates[id].name == cn && r.value == templates[id]) &&
              (r.Err? && cn != "" ==> r.error == "template " + Quote(cn) + " not found" &&
                                      forall id :: id in templates && !templates[id].hidden ==> templates[id].name != cn)
    {
      var cn := CanonicalTemplateName(name);
      if cn == "" {
        return Err("empty template name");
      }
      var i := 0;
      while i < |order|
        invariant 0 <= i <= |order|
        invariant forall j :: 0 <= j < i ==> templates[order[j]].hidden || templates[order[j]].name != cn
      {
        var t := templates[order[i]];
        if !t.hidden && t.name == cn {
          return Ok(t);
        }
        i := i + 1;
      }
      forall id | id in templates && !templates[id].hidden
        ensures templates[id].name != cn
      {
        var j :| 0 <= j < |order| && order[j] == id;
      }
      return Err("template " + Quote(cn) + " not found");
    }

    /** The listed templates, each once, in the order the keys are
        visited. */
    method CollectListed(creator: Option<UserID>, order: seq<int>) returns (found: seq<Tmemes.Template>)
      requires KeyOrder(templates, order)
      ensures forall t :: t in found <==> exists id :: id in templates && templates[id] == t && Listed(t, creator)
      ensures |found| == |set id | id in templates && Listed(templates[id], creator)|
    {
      found := [];
      var i := 0;
      while i < |order|
        invariant 0 <= i <= |order|
        invariant found == ListedIn(templates, creator, order[..i])
      {
        var t := templates[order[i]];
        assert order[..i + 1][..i] == order[..i];
        if Listed(t, creator) {
          found := found + [t];
        }
        i := i + 1;
      }
      assert order[..i] == order;
      ListedInMembers(templates, creator, order);
      ListedInCount(templates, creator, order);
    }

    /** Templates and TemplatesByCreator: the listed templates, each once,
        in non-decreasing order of ID. */
    method ListTemplates(creator: Option<UserID>, order: seq<int>) returns (all: seq<Tmemes.Template>)
      requires KeyOrder(templates, order)
      ensures forall t :: t in all <==> exists id :: id in templates && templates[id] == t && Listed(t, creator)
      ensures |all| == |set id | id in templates && Listed(templates[id], creator)|
      ensures AscendingByID(all)
    {
      var found := CollectListed(creator, order);
      all := SortByID(found);
    }

    method Templates(order: seq<int>) returns (all: seq<Tmemes.Template>)
      requires KeyOrder(templates, order)
      ensures forall t :: t in all <==> exists id :: id in templates && templates[id] == t && !t.hidden
      ensures |all| == |set id | id in templates && !templates[id].hidden|
      ensures AscendingByID(all)
    {
      all := ListTemplates(None, order);
      assert (set id | id in templates && Listed(templates[id], None)) ==
             (set id | id in templates && !templates[id].hidden);
    }

    method TemplatesByCreator(creator: UserID, order: seq<int>) returns (all: seq<Tmemes.Template>)
      requires KeyOrder(templates, order)
      ensures forall t :: t in all <==> exists id :: id in templates && templates[id] == t && !t.hidden && t.creator == creator
      ensures |all| == |set id | id in templates && !templates[id].hidden && templates[id].creator == creator|
      ensures AscendingByID(all)
    {
      all := ListTemplates(Some(creator), order);
      assert (set id | id in templates && Listed(templates[id], Some(creator))) ==
             (set id | id in templates && !templates[id].hidden && templates[id].creator == creator);
    }

    // -------------------------------------------------------------------
    // Writing rows

    /** updateMacroLocked: the row holds the macro without its vote counts,
        and the macro in the index is left as it is. */
    method UpdateMacroRow(m: Tmemes.Macro)
      modifies this`macroRows
      ensures macroRows == old(macroRows)[m.id := StoredMacro(m)]
    {
      macroRows := macroRows[m.id := StoredMacro(m)];
    }

    /** updateTemplateLocked. */
    method UpdateTemplateRow(t: Tmemes.Template)
      modifies this`templateRows
      ensures templateRows == old(templateRows)[t.id := t]
    {
      templateRows := templateRows[t.id := t];
    }

    // -------------------------------------------------------------------
    // Macros

    /** AddMacro: `overlayNil` tells a nil overlay from an empty one. */
    method AddMacro(m: Tmemes.Macro, overlayNil: bool, now: Time) returns (m': Tmemes.Macro, err: Option<string>)
      requires Valid()
      requires overlayNil ==> m.textOverlay == []
      modifies this`macros, this`nextMacroID, this`macroRows
      ensures Valid()
      ensures m.id != 0 ==> err == Some("macro ID must be zero")
      ensures m.id == 0 && m.templateID == 0 ==> err == Some("macro must have a template ID")
      ensures m.id == 0 && m.templateID != 0 && overlayNil ==> err == Some("macro must have an overlay")
      ensures err.None? <==> m.id == 0 && m.templateID != 0 && !overlayNil
      ensures err.Some? ==> m' == m && unchanged(this`macros, this`nextMacroID, this`macroRows)
      ensures err.None? ==>
                m' == m.(id := old(nextMacroID), createdAt := now) &&
                m'.id !in old(macros) &&
                nextMacroID == old(nextMacroID) + 1 &&
                macros == old(macros)[m'.id := m'] &&
                macroRows == old(macroRows)[m'.id := StoredMacro(m')]
    {
      if m.id != 0 {
        return m, Some("macro ID must be zero");
      } else if m.templateID == 0 {
        return m, Some("macro must have a template ID");
      } else if overlayNil {
        return m, Some("macro must have an overlay");
      }
      m' := m.(id := nextMacroID, createdAt := now);
      nextMacroID := nextMacroID + 1;
      macros := macros[m'.id := m'];
      UpdateMacroRow(m');
      err := None;
    }

    /** DeleteMacro: the macro leaves the index and its table; `removed` is
        the cache file removed, when the macro's template exists. */
    method DeleteMacro(id: int) returns (err: Option<string>, removed: Option<string>)
      requires Valid()
      modifies this`macros, this`macroRows
      ensures Valid()
      ensures id !in old(macros) ==> err == Some(NotFound("macro", id)) && removed == None && unchanged(this)
      ensures id in old(macros) ==>
                err == None &&
                macros == old(macros) - {id} && macroRows == old(macroRows) - {id} &&
                removed == (var m := old(macros)[id];
                            if m.templateID in templates then Some(CachePathOf(dir, cacheSeed, m, templates[m.templateID]))
                            else None)
    {
      if id !in macros {
        return Some(NotFound("macro", id)), None;
      }
      var m := macros[id];
      removed := None;
      if m.templateID in templates {
        removed := Some(CachePathOf(dir, cacheSeed, m, templates[m.templateID]));
      }
      macros := macros - {id};
      macroRows := macroRows - {id};
      err := None;
    }

    /** fillAllMacroVotesLocked: the rows of the VoteTotals view are read in
        order and each sets the counts of the macro it names, if present. */
    method FillAllMacroVotes(totals: seq<VoteTotal>)
      modifies this`macros
      ensures macros == ApplyTotals(old(macros), totals)
    {
      var i := 0;
      while i < |totals|
        invariant 0 <= i <= |totals|
        invariant macros == ApplyTotals(old(macros), totals[..i])
      {
        var t := totals[i];
        assert totals[..i + 1][..i] == totals[..i];
        if t.macroID in macros {
          macros := macros[t.macroID := macros[t.macroID].(upvotes := t.up, downvotes := t.down)];
        }
        i := i + 1;
      }
      assert totals[..i] == totals;
    }

    /** SetVote: a positive vote is stored as +1, a negative one as -1, and 0
        removes the user's vote; the macro then takes its totals. */
    method SetVote(user: UserID, macroID: int, vote: int) returns (r: Result<Tmemes.Macro, string>)
      modifies this`votes, this`macros
      ensures macroID !in old(macros) ==> r == Err(NotFound("macro", macroID)) && unchanged(this)
      ensures macroID in old(macros) ==>
                votes == (if vote == 0 then old(votes) - {(user, macroID)}
                          else old(votes)[(user, macroID) := VoteFlag(vote)]) &&
                macros == old(macros)[macroID := old(macros)[macroID].(upvotes := Ups(votes, macroID),
                                                                      downvotes := Downs(votes, macroID))] &&
                r == Ok(macros[macroID])
      ensures Pinned(old(votes)) ==> Pinned(votes)
      ensures macros.Keys == old(macros).Keys
    {
      if macroID !in macros {
        return Err(NotFound("macro", macroID));
      }
      if vote == 0 {
        votes := votes - {(user, macroID)};
      } else {
        var flag := 1;
        if vote < 0 {
          flag := -1;
        }
        votes := votes[(user, macroID) := flag];
      }
      var m := macros[macroID].(upvotes := Ups(votes, macroID), downvotes := Downs(votes, macroID));
      macros := macros[macroID := m];
      r := Ok(m);
    }

    // -------------------------------------------------------------------
    // Templates

    /** SetTemplateHidden: only the template's flag changes, and its row is
        written when the flag does. */
    method SetTemplateHidden(id: int, hidden: bool) returns (err: Option<string>)
      requires Valid()
      modifies this`templates, this`templateRows
      ensures Valid()
      ensures id !in old(templates) ==> err == Some(NotFound("template", id)) && unchanged(this)
      ensures id in old(templates) ==>
                err == None &&
                templates == old(templates)[id := old(templates)[id].(hidden := hidden)] &&
                templateRows == if old(templates)[id].hidden == hidden then old(templateRows)
                                else old(templateRows)[templates[id].id := templates[id]]
      ensures id in old(templates) ==> (Template(id).Ok? <==> !hidden)
    {
      if id !in templates {
        return Some(NotFound("template", id));
      }
      var t := templates[id];
      if t.hidden != hidden {
        t := t.(hidden := hidden);
        templates := templates[id := t];
        UpdateTemplateRow(t);
      }
      err := None;
    }

    /** Whether a listed template already has the name `cn`. */
    ghost predicate NameTaken(cn: string)
      reads this
    {
      exists id :: id in templates && !templates[id].hidden && templates[id].name == cn
    }

    /** The checks AddTemplate makes before it writes anything, in order:
        the ID must be zero, and the canonical name non-empty and not taken
        by a listed template. */
    ghost function NewTemplateError(t: Tmemes.Template): Option<string>
      reads this
    {
      var cn := CanonicalTemplateName(t.name);
      if t.id != 0 then Some("template ID must be zero")
      else if cn == "" then Some("empty template name")
      else if NameTaken(cn) then Some("duplicate template name " + Quote(cn))
      else None
    }

    /** The checks, made with TemplateByName's search. */
    method CheckNewTemplate(t: Tmemes.Template, order: seq<int>) returns (cn: string, err: Option<string>)
      requires KeyOrder(templates, order)
      ensures cn == CanonicalTemplateName(t.name)
      ensures err == NewTemplateError(t)
    {
      cn := CanonicalTemplateName(t.name);
      if t.id != 0 {
        return cn, Some("template ID must be zero");
      }
      if cn == "" {
        return cn, Some("empty template name");
      }
      var found := TemplateByName(cn, order);
      CanonicalIdempotent(t.name);
      if found.Ok? {
        return cn, Some("duplicate template name " + Quote(cn));
      }
      err := None;
    }

    /** AddTemplate: `written` tells whether the image file was created and
        filled. The name is canonicalised once the ID check passes, and `t'`
        carries that change even when a later check fails, as the caller's
        template does. */
    method AddTemplate(t: Tmemes.Template, fileExt: string, written: bool, now: Time, order: seq<int>)
      returns (t': Tmemes.Template, err: Option<string>)
      requires Valid() && KeyOrder(templates, order)
      modifies this`templates, this`nextTemplateID, this`templateRows
      ensures Valid()
      ensures old(NewTemplateError(t)).Some? ==> err == old(NewTemplateError(t))
      ensures old(NewTemplateError(t)).None? ==> (err.None? <==> written)
      ensures t.id != 0 ==> t' == t
      ensures t.id == 0 ==> t'.name == CanonicalTemplateName(t.name)
      ensures err.Some? ==> unchanged(this`templates, this`nextTemplateID, this`templateRows)
      ensures err.None? ==>
                t' == t.(name := t'.name,
                         createdAt := if t.createdAt == ZeroTime then now else t.createdAt,
                         id := old(nextTemplateID),
                         path := TemplateFile(dir, old(nextTemplateID), FileExt(fileExt))) &&
                t'.id !in old(templates) &&
                nextTemplateID == old(nextTemplateID) + 1 &&
                templates == old(templates)[t'.id := t'] &&
                templateRows == old(templateRows)[t'.id := t']
    {
      var cn, checkErr := CheckNewTemplate(t, order);
      if t.id != 0 {
        return t, checkErr;
      }
      t' := t.(name := cn);
      if checkErr.Some? {
        return t', checkErr;
      }
      if t'.createdAt == ZeroTime {
        t' := t'.(createdAt := now);
      }
      t', err := StoreTemplate(t', FileExt(fileExt), written);
    }

    /** The second half of AddTemplate: the image file of the next id is
        written, then the template takes that id and path and is stored. */
    method StoreTemplate(t: Tmemes.Template, ext: string, written: bool) returns (t': Tmemes.Template, err: Option<string>)
      requires Valid()
      modifies this`templates, this`nextTemplateID, this`templateRows
      ensures Valid()
      ensures err.None? <==> written
      ensures err.Some? ==> t' == t && unchanged(this`templates, this`nextTemplateID, this`templateRows)
      ensures err.None? ==>
                t' == t.(id := old(nextTemplateID), path := TemplateFile(dir, old(nextTemplateID), ext)) &&
                t'.id !in old(templates) &&
                nextTemplateID == old(nextTemplateID) + 1 &&
                templates == old(templates)[t'.id := t'] &&
                templateRows == old(templateRows)[t'.id := t']
    {
      var id := nextTemplateID;
      var path := TemplateFile(dir, id, ext);
      if !written {
        return t, Some("open " + path);
      }
      t' := t.(id := id, path := path);
      nextTemplateID := nextTemplateID + 1;
      templates := templates[id := t'];
      UpdateTemplateRow(t');
      err := None;
    }
  }
}
