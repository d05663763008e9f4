/** The listing helpers of the server (tmemes/utils.go): the sort orders of
    macro lists, pagination, ETag formatting, the hashing reader and the
    removal of a slice element. */
module TmemesUtils {
  import opened Wrappers
  import opened GoStrings
  import opened Tmemes
  import Sorting

  /** One hour of time.Duration, in nanoseconds. */
  const Hour: int := 3_600_000_000_000

  // ---------------------------------------------------------------------
  // Sort orders

  /** sortMacrosByRecency: newest first. */
  function RecencyKey(m: Macro): Sorting.Key {
    Sorting.Key(m.createdAt, 0)
  }

  /** The net vote count. */
  function Net(m: Macro): int { m.upvotes - m.downvotes }

  /** sortMacrosByPopularity: larger net count first, then newest first. */
  function PopularityKey(m: Macro): Sorting.Key {
    Sorting.Key(Net(m), m.createdAt)
  }

  /** Created less than an hour before `now`. */
  predicate IsRecent(m: Macro, now: Time) {
    now - m.createdAt < Hour
  }

  /** The macros kept by the partition of "top-popular", in order. */
  function RecentOnes(s: seq<Macro>, now: Time): (r: seq<Macro>)
    ensures forall m :: m in r ==> IsRecent(m, now)
  {
    if s == [] then []
    else (if IsRecent(s[0], now) then [s[0]] else []) + RecentOnes(s[1..], now)
  }

  /** The other macros of the partition, in order. */
  function OlderOnes(s: seq<Macro>, now: Time): (r: seq<Macro>)
    ensures forall m :: m in r ==> !IsRecent(m, now)
  {
    if s == [] then []
    else (if IsRecent(s[0], now) then [] else [s[0]]) + OlderOnes(s[1..], now)
  }

  /** The partition loses and adds nothing. */
  lemma {:induction false} PartitionPermutes(s: seq<Macro>, now: Time)
    ensures multiset(RecentOnes(s, now)) + multiset(OlderOnes(s, now)) == multiset(s)
  {
    if s != [] {
      PartitionPermutes(s[1..], now);
      assert s == [s[0]] + s[1..];
    }
  }

  /** The "top-popular" order: the recent macros newest first, then the
      others by popularity. */
  function TopPopular(s: seq<Macro>, now: Time): seq<Macro> {
    Sorting.Sort(RecentOnes(s, now), RecencyKey) + Sorting.Sort(OlderOnes(s, now), PopularityKey)
  }

  /** The sort keys sortMacros understands. */
  predicate KnownSortKey(key: string) {
    key in {"", "default", "id", "recent", "popular", "top-popular", "score"}
  }

  /** The order sortMacros leaves; `scoreKey` stands for the blended score
      of sortMacrosByScore. An unknown key leaves the input as it is. */
  function SortedBy(key: string, s: seq<Macro>, now: Time, scoreKey: Macro -> Sorting.Key): seq<Macro> {
    if key == "recent" then Sorting.Sort(s, RecencyKey)
    else if key == "popular" then Sorting.Sort(s, PopularityKey)
    else if key == "top-popular" then TopPopular(s, now)
    else if key == "score" then Sorting.Sort(s, scoreKey)
    else s
  }

  /** Every order is a permutation of the input. */
  lemma SortedByPermutes(key: string, s: seq<Macro>, now: Time, scoreKey: Macro -> Sorting.Key)
    ensures multiset(SortedBy(key, s, now, scoreKey)) == multiset(s)
  {
    if key == "top-popular" {
      PartitionPermutes(s, now);
    }
  }

  /** The popularity order is non-increasing in net votes, ties newest
      first. */
  lemma PopularityOrder(s: seq<Macro>)
    requires Sorting.SortedDesc(s, PopularityKey)
    ensures forall i, j :: 0 <= i < j < |s| ==> Net(s[i]) >= Net(s[j])
    ensures forall i, j :: 0 <= i < j < |s| && Net(s[i]) == Net(s[j]) ==> s[i].createdAt >= s[j].createdAt
  {
    forall i, j | 0 <= i < j < |s| ensures Net(s[i]) >= Net(s[j]) {
      assert Sorting.KeyGe(PopularityKey(s[i]), PopularityKey(s[j]));
    }
    forall i, j | 0 <= i < j < |s| && Net(s[i]) == Net(s[j]) ensures s[i].createdAt >= s[j].createdAt {
      assert Sorting.KeyGe(PopularityKey(s[i]), PopularityKey(s[j]));
    }
  }

  /** The recency order is newest first. */
  lemma RecencyOrder(s: seq<Macro>)
    requires Sorting.SortedDesc(s, RecencyKey)
    ensures forall i, j :: 0 <= i < j < |s| ==> s[i].createdAt >= s[j].createdAt
  {
    forall i, j | 0 <= i < j < |s| ensures s[i].createdAt >= s[j].createdAt {
      assert Sorting.KeyGe(RecencyKey(s[i]), RecencyKey(s[j]));
    }
  }

  /** "recent" and "popular" sort the whole list in their order. */
  lemma SortedByOrders(key: string, s: seq<Macro>, now: Time, scoreKey: Macro -> Sorting.Key)
    ensures key == "recent" ==> Sorting.SortedDesc(SortedBy(key, s, now, scoreKey), RecencyKey)
    ensures key == "popular" ==> Sorting.SortedDesc(SortedBy(key, s, now, scoreKey), PopularityKey)
    ensures key == "score" ==> Sorting.SortedDesc(SortedBy(key, s, now, scoreKey), scoreKey)
    ensures key in {"", "default", "id"} || !KnownSortKey(key) ==> SortedBy(key, s, now, scoreKey) == s
  {
  }

  /** Sorting keeps the length and the members. */
  lemma SortKeeps<T>(s: seq<T>, key: T -> Sorting.Key)
    ensures |Sorting.Sort(s, key)| == |s|
    ensures forall x :: x in Sorting.Sort(s, key) <==> x in s
  {
    var r := Sorting.Sort(s, key);
    assert |r| == |multiset(r)| == |multiset(s)| == |s|;
    forall x ensures x in r <==> x in s {
      assert x in r <==> x in multiset(r);
      assert x in s <==> x in multiset(s);
    }
  }

  /** Two parts put together, the first all recent and the second none. */
  lemma SplitAt(a: seq<Macro>, b: seq<Macro>, now: Time)
    requires forall m :: m in a ==> IsRecent(m, now)
    requires forall m :: m in b ==> !IsRecent(m, now)
    ensures (a + b)[..|a|] == a && (a + b)[|a|..] == b
    ensures forall i :: 0 <= i < |a| ==> IsRecent((a + b)[i], now)
    ensures forall i :: |a| <= i < |a + b| ==> !IsRecent((a + b)[i], now)
  {
    forall i | 0 <= i < |a| ensures IsRecent((a + b)[i], now) {
      assert (a + b)[i] == a[i];
    }
    forall i | |a| <= i < |a + b| ensures !IsRecent((a + b)[i], now) {
      assert (a + b)[i] == b[i - |a|];
    }
  }

  /** "top-popular": a prefix of exactly the recent macros, newest first,
      then the others by popularity. */
  lemma TopPopularShape(s: seq<Macro>, now: Time)
    ensures var r := TopPopular(s, now);
            var k := |RecentOnes(s, now)|;
            k <= |r| &&
            (forall i :: 0 <= i < k ==> IsRecent(r[i], now)) &&
            (forall i :: k <= i < |r| ==> !IsRecent(r[i], now)) &&
            Sorting.SortedDesc(r[..k], RecencyKey) &&
            Sorting.SortedDesc(r[k..], PopularityKey)
  {
    var rs, os := RecentOnes(s, now), OlderOnes(s, now);
    var a := Sorting.Sort(rs, RecencyKey);
    var b := Sorting.Sort(os, PopularityKey);
    SortKeeps(rs, RecencyKey);
    SortKeeps(os, PopularityKey);
    SplitAt(a, b, now);
  }

  /** Writing a computed order back into the slice. */
  method Assign(ms: array<Macro>, r: seq<Macro>)
    requires |r| == ms.Length
    modifies ms
    ensures ms[..] == r
  {
    var i := 0;
    while i < ms.Length
      invariant 0 <= i <= ms.Length
      invariant ms[..i] == r[..i]
    {
      ms[i] := r[i];
      assert ms[..i + 1] == ms[..i] + [ms[i]];
      assert r[..i + 1] == r[..i] + [r[i]];
      i := i + 1;
    }
    assert ms[..] == ms[..i];
  }

  /** sortMacros: sorts `ms` in place by `key`; the only error is a key it
      does not know, and then the slice is left alone. */
  method SortMacros(key: string, ms: array<Macro>, now: Time, scoreKey: Macro -> Sorting.Key) returns (err: Option<string>)
    modifies ms
    ensures err.Some? <==> !KnownSortKey(key)
    ensures err.Some? ==> err.value == "invalid sort order \"" + key + "\""
    ensures ms[..] == SortedBy(key, old(ms[..]), now, scoreKey)
  {
    if key == "" || key == "default" || key == "id" {
      return None;
    }
    if !KnownSortKey(key) {
      return Some("invalid sort order \"" + key + "\"");
    }
    var r := SortedBy(key, ms[..], now, scoreKey);
    SortedByPermutes(key, ms[..], now, scoreKey);
    assert |r| == |multiset(r)| == |multiset(ms[..])| == ms.Length;
    Assign(ms, r);
    err := None;
  }

  // ---------------------------------------------------------------------
  // Pagination

  /** The page and count parsePageOptions reports, and its error. */
  datatype Paging = Paging(page: int, count: int, err: Option<string>)

  /** parsePageOptions over the "page" and "count" form values ("" when
      absent). */
  function ParsePageOptions(pageStr: string, countStr: string, defaultCount: int): (r: Paging)
    ensures pageStr == "" ==> r == Paging(-1, defaultCount, None)
    ensures r.err.Some? ==> r.page == -1 && r.count == 0
    ensures r.err.None? && pageStr != "" ==> Atoi(pageStr) == Ok(r.page) && r.page > 0
    ensures pageStr != "" && Atoi(pageStr).Ok? && Atoi(pageStr).value <= 0 ==> r.err == Some("page must be positive")
    ensures pageStr != "" && Atoi(pageStr).Err? ==> r.err.Some?
    ensures pageStr != "" && Atoi(pageStr).Ok? && Atoi(pageStr).value > 0 ==>
              if countStr == "" then r == Paging(Atoi(pageStr).value, defaultCount, None)
              else if Atoi(countStr).Err? then r.err.Some?
              else if Atoi(countStr).value < 0 then r.err == Some("count must be non-negative")
              else if Atoi(countStr).value == 0 then r == Paging(Atoi(pageStr).value, defaultCount, None)
              else r == Paging(Atoi(pageStr).value, Atoi(countStr).value, None)
  {
    if pageStr == "" then Paging(-1, defaultCount, None)
    else match Atoi(pageStr)
      case Err(e) => Paging(-1, 0, Some("invalid page: " + e))
      case Ok(page) =>
        if page <= 0 then Paging(-1, 0, Some("page must be positive"))
        else if countStr == "" then Paging(page, defaultCount, None)
        else match Atoi(countStr)
          case Err(e) => Paging(-1, 0, Some("invalid count: " + e))
          case Ok(count) =>
            if count < 0 then Paging(-1, 0, Some("count must be non-negative"))
            else if count == 0 then Paging(page, defaultCount, None)
            else Paging(page, count, None)
  }

  /** Printed positive page and count options read back as themselves. */
  lemma PageOptionsRoundTrip(page: int, count: int, defaultCount: int)
    requires 0 < page <= MaxInt64 && 0 < count <= MaxInt64
    ensures ParsePageOptions(Itoa(page), Itoa(count), defaultCount) == Paging(page, count, None)
  {
    AtoiItoa(page);
    AtoiItoa(count);
  }

  /** slicePage as its comment describes it: the page as a sub-sequence
      and whether it is the last, with the offsets computed exactly. A page
      of 0 with a positive count would slice from a negative start, which
      panics, so callers pass what parsePageOptions reports. The code as
      written computes the offsets in 64-bit ints; that reading is
      SlicePageAsWritten below. */
  function SlicePage<T>(vs: seq<T>, page: int, count: int): (r: (seq<T>, bool))
    requires page < 0 || (page >= 1 && count >= 0)
  {
    if page < 0 then (vs, true)
    else
      var start := (page - 1) * count;
      var end := start + count;
      if start >= |vs| then ([], true)
      else if end >= |vs| then (vs[start..], true)
      else (vs[start..end], false)
  }

  lemma MulNonNeg(a: int, b: int)
    requires a >= 0 && b >= 0
    ensures a * b >= 0
  {
  }

  /** A page is the slice [(page-1)*count, min(page*count, len)), empty
      past the end, and it is the last page exactly when page*count reaches
      the length. */
  lemma SlicePageIs<T>(vs: seq<T>, page: int, count: int)
    requires page >= 1 && count >= 0
    ensures var start := (page - 1) * count;
            var end := page * count;
            var (r, last) := SlicePage(vs, page, count);
            0 <= start <= end &&
            (last <==> end >= |vs|) &&
            r == (if start >= |vs| then [] else vs[start..if end < |vs| then end else |vs|])
  {
    MulNonNeg(page - 1, count);
    assert page * count == (page - 1) * count + count;
  }

  /** slicePage as the code computes it: `(page-1)*count` and
      `start+count` wrap around in Go's 64-bit int, and slicing with a
      negative start or with an end before the start panics (None). */
  function SlicePageAsWritten<T>(vs: seq<T>, page: int, count: int): (r: Option<(seq<T>, bool)>)
    requires MinInt64 <= page <= MaxInt64 && MinInt64 <= count <= MaxInt64
    requires page < 0 || (page >= 1 && count >= 0)
    ensures page < 0 ==> r == Some((vs, true))
    ensures page >= 1 ==> var start := Wrap64((page - 1) * count);
                          var end := Wrap64(start + count);
                          (r.None? <==> start < |vs| && (start < 0 || (end < |vs| && end < start))) &&
                          (r.Some? && start >= |vs| ==> r.value == ([], true)) &&
                          (r.Some? && start < |vs| ==>
                             0 <= start && start + |r.value.0| <= |vs| &&
                             r.value.0 == vs[start..start + |r.value.0|] &&
                             (r.value.1 <==> end >= |vs|))
  {
    if page < 0 then Some((vs, true))
    else
      var start := Wrap64((page - 1) * count);
      var end := Wrap64(start + count);
      if start >= |vs| then Some(([], true))
      else if start < 0 then None
      else if end >= |vs| then Some((vs[start..], true))
      else if end < start then None
      else Some((vs[start..end], false))
  }

  /** While page*count fits in an int64 nothing wraps, and the code gives
      the intended page. */
  lemma SlicePageInRange<T>(vs: seq<T>, page: int, count: int)
    requires MinInt64 <= page <= MaxInt64 && MinInt64 <= count <= MaxInt64
    requires page < 0 || (page >= 1 && count >= 0 && page * count <= MaxInt64)
    ensures SlicePageAsWritten(vs, page, count) == Some(SlicePage(vs, page, count))
  {
    if page >= 1 {
      MulNonNeg(page - 1, count);
      assert page * count == (page - 1) * count + count;
    }
  }

  /** Page 3 with a count of 2^62: the start 2^63 wraps to -2^63, and the
      code panics on any non-empty list, where the intended page is the
      empty one past the end. */
  lemma SlicePageWrapPanics<T>(vs: seq<T>)
    requires 0 < |vs| <= MaxInt64
    ensures SlicePageAsWritten(vs, 3, 0x4000_0000_0000_0000) == None
    ensures SlicePage(vs, 3, 0x4000_0000_0000_0000) == ([], true)
  {
    assert Wrap64(2 * 0x4000_0000_0000_0000) == MinInt64;
  }

  /** Page 2^62+1 with a count of 4: the start 2^64 wraps to 0, and the code
      returns the first page, marked as not the last, where the intended
      page is the empty one past the end. */
  lemma SlicePageWrapWrongPage<T>(vs: seq<T>)
    requires 5 <= |vs| <= MaxInt64
    ensures SlicePageAsWritten(vs, 0x4000_0000_0000_0001, 4) == Some((vs[..4], false))
    ensures SlicePage(vs, 0x4000_0000_0000_0001, 4) == ([], true)
  {
    assert Wrap64(0x4000_0000_0000_0000 * 4) == 0;
    assert Wrap64(0 + 4) == 4;
  }

  /** The pages 1..k put together. */
  function Pages<T>(vs: seq<T>, count: int, k: nat): seq<T>
    requires count >= 0
  {
    if k == 0 then [] else Pages(vs, count, k - 1) + SlicePage(vs, k, count).0
  }

  /** The first k pages are the first min(k*count, len) elements: pages
      neither overlap nor leave gaps. */
  lemma {:induction false} PagesCover<T>(vs: seq<T>, count: int, k: nat)
    requires count >= 0
    ensures k * count >= 0
    ensures Pages(vs, count, k) == vs[..if k * count < |vs| then k * count else |vs|]
  {
    MulNonNeg(k, count);
    if k > 0 {
      PagesCover(vs, count, k - 1);
      SlicePageIs(vs, k, count);
      MulNonNeg(k - 1, count);
      var start := (k - 1) * count;
      var end := k * count;
      assert end == start + count;
      if start >= |vs| {
        assert end >= |vs|;
      } else {
        var e := if end < |vs| then end else |vs|;
        assert vs[..start] + vs[start..e] == vs[..e];
      }
    }
  }

  // ---------------------------------------------------------------------
  // ETags and the hashing reader

  /** formatEtag: the digest in lower-case hex, in double quotes. */
  function FormatEtag(sum: seq<byte>): (r: string)
    ensures |r| == 2 * |sum| + 2 && r[0] == '"' && r[|r| - 1] == '"'
  {
    "\"" + LowerHex(sum) + "\""
  }

  /** The digest reads back from between the quotes. */
  lemma EtagRoundTrip(sum: seq<byte>)
    ensures var r := FormatEtag(sum); ParseHexPairs(r[1..|r| - 1]) == Some(sum)
  {
    var r := FormatEtag(sum);
    assert r[1..|r| - 1] == LowerHex(sum);
    HexRoundTrip(sum);
  }

  /** makeFileEtag: `file` is what opening the path gives (its contents, or
      the error), `copyErr` the error copying it into the hash, if any, and
      `sha` the SHA-256 digest. */
  function MakeFileEtag(file: Result<seq<byte>, string>, copyErr: Option<string>,
                        sha: seq<byte> -> seq<byte>): (r: Result<string, string>)
    ensures file.Err? ==> r == Err(file.error)
    ensures file.Ok? && copyErr.Some? ==> r == Err(copyErr.value)
    ensures r.Ok? <==> file.Ok? && copyErr.None?
    ensures r.Ok? ==> |r.value| >= 2 && r.value[0] == '"' && r.value[|r.value| - 1] == '"'
  {
    if file.Err? then Err(file.error)
    else if copyErr.Some? then Err(copyErr.value)
    else Ok(FormatEtag(sha(file.value)))
  }

  /** The digest of the whole file reads back from a file's ETag, so two
      files with different digests have different ETags. */
  lemma FileEtagNamesDigest(file: Result<seq<byte>, string>, sha: seq<byte> -> seq<byte>)
    requires file.Ok?
    ensures var r := MakeFileEtag(file, None, sha);
            r.Ok? && ParseHexPairs(r.value[1..|r.value| - 1]) == Some(sha(file.value))
  {
    EtagRoundTrip(sha(file.value));
  }

  /** hashPipe: a reader over `pending` (what the underlying reader has
      left) that writes what every Read returns to the hash, whose input so
      far is `hashed`. */
  class HashPipe {
    var pending: seq<byte>
    var hashed: seq<byte>
    ghost var stream: seq<byte>

    /** What was hashed is exactly what was read from the stream. */
    ghost predicate Valid()
      reads this
    {
      stream == hashed + pending
    }

    constructor (input: seq<byte>, hashed: seq<byte>)
      ensures Valid() && pending == input && this.hashed == hashed
    {
      pending := input;
      this.hashed := hashed;
      stream := hashed + input;
    }

    /** Read: the underlying reader delivers up to `avail` bytes into
        `data`; the bytes read, data[..nr], go to the hash. At the end of
        the input it reports io.EOF. */
    method Read(data: array<byte>, avail: nat) returns (nr: nat, eof: bool)
      requires Valid()
      modifies this`pending, this`hashed, data
      ensures Valid() && stream == old(stream)
      ensures nr <= avail && nr <= data.Length && nr <= old(|pending|)
      ensures nr == avail || nr == data.Length || nr == old(|pending|)
      ensures data[..nr] == old(pending)[..nr]
      ensures pending == old(pending)[nr..]
      ensures hashed == old(hashed) + data[..nr]
      ensures eof <==> old(pending) == []
    {
      var n := if avail < data.Length then avail else data.Length;
      if n > |pending| {
        n := |pending|;
      }
      var p := pending;
      var i := 0;
      while i < n
        invariant 0 <= i <= n
        invariant data[..i] == p[..i]
        invariant hashed == old(hashed) && pending == p
      {
        data[i] := p[i];
        assert data[..i + 1] == data[..i] + [data[i]];
        assert p[..i + 1] == p[..i] + [p[i]];
        i := i + 1;
      }
      nr := n;
      eof := p == [];
      var read := data[..nr];
      assert read == p[..nr];
      assert p == read + p[nr..];
      hashed := hashed + read;
      pending := p[nr..];
    }
  }

  // ---------------------------------------------------------------------
  // removeItem

  /** s without its element at i. */
  function Without<T>(s: seq<T>, i: nat): seq<T>
    requires i < |s|
  {
    s[..i] + s[i + 1..]
  }

  /** Removing an element keeps the others, in order, one fewer. */
  lemma WithoutIs<T>(s: seq<T>, i: nat)
    requires i < |s|
    ensures |Without(s, i)| == |s| - 1
    ensures forall k :: 0 <= k < i ==> Without(s, i)[k] == s[k]
    ensures forall k :: i <= k < |s| - 1 ==> Without(s, i)[k] == s[k + 1]
    ensures multiset(Without(s, i)) + multiset{s[i]} == multiset(s)
  {
    assert s == s[..i] + [s[i]] + s[i + 1..];
  }

  /** removeItem: a fresh slice, the original untouched. */
  method RemoveItem<T(0)>(s: array<T>, i: nat) returns (cp: array<T>)
    requires i < s.Length
    ensures fresh(cp)
    ensures cp[..] == Without(s[..], i)
  {
    cp := new T[s.Length - 1];
    var j := 0;
    while j < i
      invariant 0 <= j <= i
      invariant forall k :: 0 <= k < j ==> cp[k] == s[k]
    {
      cp[j] := s[j];
      j := j + 1;
    }
    while j < cp.Length
      invariant i <= j <= cp.Length
      invariant forall k :: 0 <= k < i ==> cp[k] == s[k]
      invariant forall k :: i <= k < j ==> cp[k] == s[k + 1]
    {
      cp[j] := s[j + 1];
      j := j + 1;
    }
    WithoutIs(s[..], i);
    assert cp[..] == Without(s[..], i);
  }
}
