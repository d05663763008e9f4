/** The request helpers of the web UI (tmemes/ui.go), the older revision of
    the listing helpers next to the ones in tmemes/utils.go: the sort
    dispatch without the score order, pagination without a last-page flag,
    ID paths, the generated display names of unknown users, vote flags and
    the overlay checks of macro creation. */
module TmemesUI {
  import opened Wrappers
  import opened GoStrings
  import opened Tmemes
  import Sorting
  import TmemesUtils
  import Store

  // ---------------------------------------------------------------------
  // sortMacros, before the score order existed

  /** The sort keys this revision understands: all but "score". */
  predicate KnownSortKey(key: string) {
    key in {"", "default", "id", "recent", "popular", "top-popular"}
  }

  /** The order sortMacros leaves; an unknown key leaves the input alone. */
  function SortedBy(key: string, s: seq<Macro>, now: Time): seq<Macro> {
    if key == "recent" then Sorting.Sort(s, TmemesUtils.RecencyKey)
    else if key == "popular" then Sorting.Sort(s, TmemesUtils.PopularityKey)
    else if key == "top-popular" then TmemesUtils.TopPopular(s, now)
    else s
  }

  /** Apart from "score", which this revision rejects, the two revisions
      sort alike. */
  lemma SortedByAgrees(key: string, s: seq<Macro>, now: Time, scoreKey: Macro -> Sorting.Key)
    ensures KnownSortKey(key) <==> TmemesUtils.KnownSortKey(key) && key != "score"
    ensures key != "score" ==> SortedBy(key, s, now) == TmemesUtils.SortedBy(key, s, now, scoreKey)
  {
  }

  /** sortMacros: in place; the only error is an unknown key, and then the
      slice is left alone. */
  method SortMacros(key: string, ms: array<Macro>, now: Time) returns (err: Option<string>)
    modifies ms
    ensures err.Some? <==> !KnownSortKey(key)
    ensures err.Some? ==> err.value == "invalid sort order \"" + key + "\""
    ensures ms[..] == SortedBy(key, old(ms[..]), now)
    ensures multiset(ms[..]) == multiset(old(ms[..]))
  {
    if key == "" || key == "default" || key == "id" {
      return None;
    }
    if !KnownSortKey(key) {
      return Some("invalid sort order \"" + key + "\"");
    }
    var r := SortedBy(key, ms[..], now);
    SortedByAgrees(key, ms[..], now, TmemesUtils.RecencyKey);
    TmemesUtils.SortedByPermutes(key, ms[..], now, TmemesUtils.RecencyKey);
    assert |r| == |multiset(r)| == |multiset(ms[..])| == ms.Length;
    TmemesUtils.Assign(ms, r);
    err := None;
  }

  // ---------------------------------------------------------------------
  // Pagination

  /** parsePageOptions of this revision: without a page the count is 0. */
  function ParsePageOptions(pageStr: string, countStr: string, defaultCount: int): (r: TmemesUtils.Paging)
    ensures pageStr == "" ==> r == TmemesUtils.Paging(-1, 0, None)
  {
    if pageStr == "" then TmemesUtils.Paging(-1, 0, None)
    else TmemesUtils.ParsePageOptions(pageStr, countStr, defaultCount)
  }

  /** With a page given, both revisions parse alike; without one, they
      differ only in the count. */
  lemma ParsePageOptionsAgrees(pageStr: string, countStr: string, defaultCount: int)
    ensures pageStr != "" ==> ParsePageOptions(pageStr, countStr, defaultCount) == TmemesUtils.ParsePageOptions(pageStr, countStr, defaultCount)
    ensures pageStr == "" ==> ParsePageOptions(pageStr, countStr, defaultCount) == TmemesUtils.ParsePageOptions(pageStr, countStr, defaultCount).(count := 0)
  {
  }

  /** slicePage of this revision, with the offsets computed exactly: the
      page alone. */
  function SlicePage<T>(vs: seq<T>, page: int, count: int): seq<T>
    requires page < 0 || (page >= 1 && count >= 0)
  {
    if page < 0 then vs
    else
      var start := (page - 1) * count;
      var end := start + count;
      if start >= |vs| then []
      else if end > |vs| then vs[start..]
      else vs[start..end]
  }

  /** The page is the whole input without pagination, empty past the end,
      and otherwise vs[(page-1)*count .. min(page*count, len)]; it is the
      page the newer revision returns. */
  lemma SlicePageIs<T>(vs: seq<T>, page: int, count: int)
    requires page < 0 || (page >= 1 && count >= 0)
    ensures page < 0 ==> SlicePage(vs, page, count) == vs
    ensures page >= 1 ==>
              var start := (page - 1) * count;
              var end := page * count;
              0 <= start <= end &&
              SlicePage(vs, page, count) == (if start >= |vs| then [] else vs[start..if end < |vs| then end else |vs|])
    ensures SlicePage(vs, page, count) == TmemesUtils.SlicePage(vs, page, count).0
  {
    if page >= 1 {
      TmemesUtils.SlicePageIs(vs, page, count);
    }
  }

  /** slicePage of this revision as the code computes it: the offsets
      wrap around in Go's 64-bit int, and a slice with a negative start or
      an end before its start panics (None). It panics on the same inputs
      as the newer revision and otherwise returns the same page. */
  function SlicePageAsWritten<T>(vs: seq<T>, page: int, count: int): (r: Option<seq<T>>)
    requires MinInt64 <= page <= MaxInt64 && MinInt64 <= count <= MaxInt64
    requires page < 0 || (page >= 1 && count >= 0)
    ensures page < 0 ==> r == Some(vs)
    ensures var u := TmemesUtils.SlicePageAsWritten(vs, page, count);
            r == if u.None? then None else Some(u.value.0)
  {
    if page < 0 then Some(vs)
    else
      var start := Wrap64((page - 1) * count);
      var end := Wrap64(start + count);
      if start >= |vs| then Some([])
      else if end > |vs| then (if start < 0 then None else Some(vs[start..]))
      else if start < 0 || end < start then None
      else Some(vs[start..end])
  }

  /** Page 3 with a count of 2^62 panics in this revision too, where the
      intended page is empty. */
  lemma SlicePageWrapPanics<T>(vs: seq<T>)
    requires 0 < |vs| <= MaxInt64
    ensures SlicePageAsWritten(vs, 3, 0x4000_0000_0000_0000) == None
    ensures SlicePage(vs, 3, 0x4000_0000_0000_0000) == []
  {
    TmemesUtils.SlicePageWrapPanics(vs);
    SlicePageIs(vs, 3, 0x4000_0000_0000_0000);
  }

  // ---------------------------------------------------------------------
  // getSingleFromIDInPath

  /** What a lookup by ID reports: a value (meaningful or zero) and an
      error. */
  datatype Lookup<T> = Lookup(value: T, err: Option<string>)

  /** What getSingleFromIDInPath reports; `value` is None where the source
      returns the zero value. */
  datatype Single<T> = Single(value: Option<T>, found: bool, err: Option<string>)

  /** getSingleFromIDInPath: the ID after "/key/" in the path, looked up
      with `f`. */
  function GetSingleFromIDInPath<T>(path: string, key: string, f: int -> Lookup<T>): (r: Single<T>)
    ensures r.found ==> r.err.None? && r.value.Some?
    ensures !HasPrefix(path, "/" + key + "/") || path == "/" + key + "/" ==> r == Single(None, false, None)
    ensures HasPrefix(path, "/" + key + "/") && path != "/" + key + "/" ==>
              var idStr := path[|key| + 2..];
              match Atoi(idStr)
              case Err(e) => r == Single(None, false, Some("invalid " + key + " ID: " + e))
              case Ok(id) => r.value == Some(f(id).value) && r.err == f(id).err && (r.found <==> f(id).err.None?)
  {
    var prefix := "/" + key + "/";
    if !HasPrefix(path, prefix) || path == prefix then Single(None, false, None)
    else
      var idStr := TrimPrefix(path, prefix);
      match Atoi(idStr)
      case Err(e) => Single(None, false, Some("invalid " + key + " ID: " + e))
      case Ok(id) =>
        var v := f(id);
        if v.err.Some? then Single(Some(v.value), false, v.err)
        else Single(Some(v.value), true, None)
  }

  /** A path built from a 64-bit ID finds what the lookup finds under that
      ID. */
  lemma GetSingleRoundTrip<T>(key: string, id: int, f: int -> Lookup<T>)
    requires MinInt64 <= id <= MaxInt64
    ensures var r := GetSingleFromIDInPath("/" + key + "/" + Itoa(id), key, f);
            r.value == Some(f(id).value) && r.err == f(id).err && (r.found <==> f(id).err.None?)
  {
    var prefix := "/" + key + "/";
    var path := prefix + Itoa(id);
    assert path[..|prefix|] == prefix;
    assert path[|key| + 2..] == Itoa(id);
    AtoiItoa(id);
  }

  // ---------------------------------------------------------------------
  // Vote flags of newUIData

  /** How a macro shows the caller's vote. */
  datatype UIMacro = UIMacro(macro: Macro, upvoted: bool, downvoted: bool)

  /** The flags for one vote: at most one is set. */
  function VoteFlags(vote: int): (r: (bool, bool))
    ensures !(r.0 && r.1)
    ensures r.0 <==> vote > 0
    ensures r.1 <==> vote < 0
  {
    if vote > 0 then (true, false) else if vote < 0 then (false, true) else (false, false)
  }

  /** The flags show the vote the store records for a non-zero vote. */
  lemma VoteFlagsAgree(vote: int)
    requires vote != 0
    ensures VoteFlags(vote).0 <==> Store.VoteFlag(vote) == 1
    ensures VoteFlags(vote).1 <==> Store.VoteFlag(vote) == -1
  {
  }

  /** The vote of the caller on a macro, 0 when there is none. */
  function VoteOf(uv: map<int, int>, id: int): int {
    if id in uv then uv[id] else 0
  }

  /** newUIData: the macros, in order, each with the caller's vote. */
  method UIMacros(macros: seq<Macro>, uv: map<int, int>) returns (ums: seq<UIMacro>)
    ensures |ums| == |macros|
    ensures forall i :: 0 <= i < |ums| ==> ums[i].macro == macros[i]
    ensures forall i :: 0 <= i < |ums| ==> (ums[i].upvoted <==> VoteOf(uv, macros[i].id) > 0)
    ensures forall i :: 0 <= i < |ums| ==> (ums[i].downvoted <==> VoteOf(uv, macros[i].id) < 0)
  {
    ums := [];
    var i := 0;
    while i < |macros|
      invariant 0 <= i <= |macros| && |ums| == i
      invariant forall k :: 0 <= k < i ==> ums[k].macro == macros[k]
      invariant forall k :: 0 <= k < i ==> (ums[k].upvoted <==> VoteOf(uv, macros[k].id) > 0)
      invariant forall k :: 0 <= k < i ==> (ums[k].downvoted <==> VoteOf(uv, macros[k].id) < 0)
    {
      var m := macros[i];
      var vote := VoteOf(uv, m.id);
      var um := UIMacro(m, false, false);
      if vote > 0 {
        um := um.(upvoted := true);
      } else if vote < 0 {
        um := um.(downvoted := true);
      }
      ums := ums + [um];
      i := i + 1;
    }
  }

  // ---------------------------------------------------------------------
  // serveUICreatePost

  /** The overlay checks: at least one overlay, none with empty text. */
  method CheckOverlays(overlays: seq<TextLine>) returns (err: Option<string>)
    ensures err.None? <==> |overlays| > 0 && forall k :: 0 <= k < |overlays| ==> overlays[k].text != ""
    ensures |overlays| == 0 ==> err == Some("must specify at least one overlay")
    ensures |overlays| > 0 && err.Some? ==> err == Some("overlay text cannot be empty")
  {
    if |overlays| == 0 {
      return Some("must specify at least one overlay");
    }
    var i := 0;
    while i < |overlays|
      invariant 0 <= i <= |overlays|
      invariant forall k :: 0 <= k < i ==> overlays[k].text != ""
    {
      if overlays[i].text == "" {
        return Some("overlay text cannot be empty");
      }
      i := i + 1;
    }
    return None;
  }

  /** The creator of a macro made from the UI: -1 for an anonymous one,
      which the server may forbid, else the caller. */
  function UICreator(anon: bool, allowAnonymous: bool, caller: UserID): (r: Result<UserID, string>)
    ensures r.Err? <==> anon && !allowAnonymous
    ensures r.Ok? && anon ==> r.value == -1
    ensures r.Ok? && !anon ==> r.value == caller
  {
    if anon then (if allowAnonymous then Ok(-1) else Err("anonymous macros not allowed"))
    else Ok(caller)
  }

  // ---------------------------------------------------------------------
  // tailyScalyName

  /** Go's `%` on int: truncated toward zero, so the remainder has the
      sign of the dividend. */
  function TruncMod(v: int, n: int): (r: int)
    requires n > 0
    ensures v >= 0 ==> r == v % n
    ensures v < 0 ==> -n < r <= 0
  {
    if v >= 0 then v % n else -((-v) % n)
  }

  /** Go's `/` on int: truncated toward zero. */
  function TruncDiv(v: int, n: int): (r: int)
    requires n > 0
    ensures v >= 0 ==> r == v / n
  {
    if v >= 0 then v / n else -((-v) / n)
  }

  function UpperChar(c: char): char {
    if 'a' <= c <= 'z' then (c as int - 32) as char else c
  }

  /** The word with its first letter upper-cased (ASCII letters). */
  function Capitalize(w: string): (r: string)
    requires |w| >= 1
    ensures |r| == |w| && r[0] == UpperChar(w[0]) && r[1..] == w[1..]
    ensures !('a' <= r[0] <= 'z')
  {
    [UpperChar(w[0])] + w[1..]
  }

  /** The two word lists the name is drawn from, as `pick` holds them. */
  predicate WordLists(tails: seq<string>, scales: seq<string>) {
    |tails| > 0 && |scales| > 0 &&
    (forall i :: 0 <= i < |tails| ==> |tails[i]| > 0) &&
    (forall i :: 0 <= i < |scales| ==> |scales[i]| > 0)
  }

  function Pick(j: int, tails: seq<string>, scales: seq<string>): seq<string> {
    if j == 0 then tails else scales
  }

  /** The loop of tailyScalyName AS WRITTEN, for `iters` more rounds from
      `v`: bit 0 picks the list (v & 1, then v >>= 1, an arithmetic shift),
      then Go's truncating `%` and `/` pick the word. None is the index
      panic a negative remainder causes. */
  function TailyAsWritten(v: int, tails: seq<string>, scales: seq<string>, iters: nat): Option<seq<string>>
    requires WordLists(tails, scales)
    decreases iters
  {
    if iters == 0 then Some([])
    else
      var j := v % 2;
      var v1 := v / 2;
      var list := Pick(j, tails, scales);
      var k := TruncMod(v1, |list|);
      if k < 0 then None
      else match TailyAsWritten(TruncDiv(v1, |list|), tails, scales, iters - 1)
        case None => None
        case Some(rest) => Some([Capitalize(list[k])] + rest)
  }

  /** A time two microseconds before the epoch, with a tails list of two
      or more words, drives the first index negative: the source panics. */
  lemma TailyAsWrittenPanics(tails: seq<string>, scales: seq<string>)
    requires WordLists(tails, scales) && |tails| >= 2
    ensures TailyAsWritten(-2, tails, scales, 3) == None
  {
    assert -2 % 2 == 0 && -2 / 2 == -1;
    assert TruncMod(-1, |tails|) == -1;
  }

  /** The word one round picks from `v`, with Euclidean `%` and `/`. */
  function Chosen(v: int, tails: seq<string>, scales: seq<string>): (w: string)
    requires WordLists(tails, scales)
    ensures (w in tails || w in scales) && |w| >= 1
  {
    var list := Pick(v % 2, tails, scales);
    list[v / 2 % |list|]
  }

  /** What is left of `v` after one round. */
  function Next(v: int, tails: seq<string>, scales: seq<string>): int
    requires WordLists(tails, scales)
  {
    v / 2 / |Pick(v % 2, tails, scales)|
  }

  /** The words with Euclidean `%` and `/`, which every time can index. */
  function TailyWords(v: int, tails: seq<string>, scales: seq<string>, iters: nat): (r: seq<string>)
    requires WordLists(tails, scales)
    ensures |r| == iters
    decreases iters
  {
    if iters == 0 then []
    else [Capitalize(Chosen(v, tails, scales))] + TailyWords(Next(v, tails, scales), tails, scales, iters - 1)
  }

  /** A word of a list, first letter upper-cased. */
  ghost predicate CapitalisedFrom(x: string, tails: seq<string>, scales: seq<string>) {
    exists w :: (w in tails || w in scales) && |w| >= 1 && x == Capitalize(w)
  }

  /** Each word is a capitalised member of one of the lists. */
  lemma {:induction false} TailyWordsFrom(v: int, tails: seq<string>, scales: seq<string>, iters: nat)
    requires WordLists(tails, scales)
    decreases iters
    ensures forall i :: 0 <= i < iters ==> CapitalisedFrom(TailyWords(v, tails, scales, iters)[i], tails, scales)
  {
    if iters > 0 {
      var rest := TailyWords(Next(v, tails, scales), tails, scales, iters - 1);
      TailyWordsFrom(Next(v, tails, scales), tails, scales, iters - 1);
      var w := Chosen(v, tails, scales);
      var r := TailyWords(v, tails, scales, iters);
      assert r[0] == Capitalize(w);
      forall i | 0 <= i < iters
        ensures CapitalisedFrom(r[i], tails, scales)
      {
        if i > 0 {
          assert r[i] == rest[i - 1];
        }
      }
    }
  }

  /** From the epoch on, the corrected words are the ones the source
      picks. */
  lemma {:induction false} TailyAgreesFromEpoch(v: int, tails: seq<string>, scales: seq<string>, iters: nat)
    requires WordLists(tails, scales) && v >= 0
    decreases iters
    ensures TailyAsWritten(v, tails, scales, iters) == Some(TailyWords(v, tails, scales, iters))
  {
    if iters > 0 {
      TailyAgreesFromEpoch(Next(v, tails, scales), tails, scales, iters - 1);
    }
  }

  /** tailyScalyName, corrected: three capitalised words from the
      alternating lists, joined by spaces, for any time (`micros` is its
      Unix time in microseconds). */
  method TailyScalyName(micros: int, tails: seq<string>, scales: seq<string>) returns (name: string, names: seq<string>)
    requires WordLists(tails, scales)
    ensures names == TailyWords(micros, tails, scales, 3) && |names| == 3
    ensures forall i :: 0 <= i < 3 ==> CapitalisedFrom(names[i], tails, scales)
    ensures name == Join(names, " ")
  {
    names := [];
    var v := micros;
    var i := 0;
    while i < 3
      invariant 0 <= i <= 3
      invariant names + TailyWords(v, tails, scales, 3 - i) == TailyWords(micros, tails, scales, 3)
    {
      ghost var v0 := v;
      var j := v % 2;
      v := v / 2;
      var list := Pick(j, tails, scales);
      var n := |list|;
      var k := v % n;
      v := v / n;
      var w := list[k];
      assert w == Chosen(v0, tails, scales) && v == Next(v0, tails, scales);
      assert TailyWords(v0, tails, scales, 3 - i) == [Capitalize(w)] + TailyWords(v, tails, scales, 3 - i - 1);
      names := names + [Capitalize(w)];
      i := i + 1;
    }
    name := Join(names, " ");
    TailyWordsFrom(micros, tails, scales, 3);
  }
}
