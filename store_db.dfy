/** The index loading and the macro-cache janitor of the store (store/db.go),
    on values: the rows the SQL queries return and the directory listing of
    the cache are parameters, and the DB class of module Store assigns what
    these methods compute to its fields. */
module StoreDb {
  import opened Wrappers
  import opened GoStrings
  import opened Tmemes

  // ---------------------------------------------------------------------
  // Loading the index: loadMacrosLocked, loadTemplatesLocked

  /** A row of the Macros or Templates table: its id and its JSON decoded,
      None when json.Unmarshal fails on it. */
  datatype Row<T> = Row(id: int, raw: Option<T>)

  /** The largest id among `rows`, and 0 when none is larger. */
  function MaxID<T>(rows: seq<Row<T>>): (m: int)
    ensures m >= 0
    ensures forall j :: 0 <= j < |rows| ==> rows[j].id <= m
    ensures m == 0 || exists j :: 0 <= j < |rows| && rows[j].id == m
  {
    if rows == [] then 0
    else
      var m := MaxID(rows[..|rows| - 1]);
      var last := rows[|rows| - 1];
      assert forall j :: 0 <= j < |rows| - 1 ==> rows[..|rows| - 1][j] == rows[j];
      if last.id > m then last.id else m
  }

  /** The map the rows fill, a later row with the same id replacing an
      earlier one; rows that do not decode are skipped. */
  function Index<T>(rows: seq<Row<T>>): (index: map<int, T>)
    ensures forall id :: id in index ==> exists j :: 0 <= j < |rows| && rows[j].id == id && rows[j].raw.Some?
  {
    if rows == [] then map[]
    else
      var prefix := rows[..|rows| - 1];
      var last := rows[|rows| - 1];
      var index := Index(prefix);
      assert forall j :: 0 <= j < |prefix| ==> prefix[j] == rows[j];
      if last.raw.Some? then index[last.id := last.raw.value] else index
  }

  /** The position of the first row that does not decode, |rows| if all do. */
  function FirstUndecodable<T>(rows: seq<Row<T>>): (k: nat)
    ensures k <= |rows|
    ensures forall j :: 0 <= j < k ==> rows[j].raw.Some?
    ensures k < |rows| ==> rows[k].raw.None?
  {
    if rows == [] then 0
    else if rows[0].raw.None? then 0
    else 1 + FirstUndecodable(rows[1..])
  }

  lemma {:induction false} FirstUndecodableIs<T>(rows: seq<Row<T>>, i: nat)
    requires i <= |rows|
    requires forall j :: 0 <= j < i ==> rows[j].raw.Some?
    requires i < |rows| ==> rows[i].raw.None?
    ensures FirstUndecodable(rows) == i
    decreases i
  {
    if i > 0 {
      assert rows[0].raw.Some?;
      assert forall j :: 0 <= j < i - 1 ==> rows[1..][j] == rows[j + 1];
      FirstUndecodableIs(rows[1..], i - 1);
    }
  }

  /** Whether every row decodes. */
  predicate Decodes<T>(rows: seq<Row<T>>) {
    FirstUndecodable(rows) == |rows|
  }

  /** The index a load leaves: the rows before the first that does not
      decode. */
  function LoadedIndex<T>(rows: seq<Row<T>>): map<int, T> {
    Index(rows[..FirstUndecodable(rows)])
  }

  /** The counter a load leaves: one past the largest id when every row
      decodes; otherwise the largest id up to and including the row that
      stopped the load, since the increment is never reached. */
  function LoadedNext<T>(rows: seq<Row<T>>): int {
    var k := FirstUndecodable(rows);
    if k == |rows| then MaxID(rows) + 1 else MaxID(rows[..k + 1])
  }

  /** The error a load reports: none when every row decodes, otherwise the
      id of the first row that does not. */
  function LoadError<T>(kind: string, rows: seq<Row<T>>): (r: Option<string>)
    ensures r.None? <==> Decodes(rows)
  {
    var k := FirstUndecodable(rows);
    if k == |rows| then None else Some("decode " + kind + " id " + Itoa(rows[k].id))
  }

  /** One load loop: the rows are read in order, the largest id seen so far
      is kept, and the first row that does not decode stops the loop with an
      error. */
  method LoadRows<T>(kind: string, rows: seq<Row<T>>) returns (index: map<int, T>, next: int, err: Option<string>)
    ensures err.None? <==> Decodes(rows)
    ensures err == LoadError(kind, rows)
    ensures index == LoadedIndex(rows) && next == LoadedNext(rows)
  {
    index := map[];
    next := 0;
    var i := 0;
    while i < |rows|
      invariant 0 <= i <= |rows|
      invariant forall j :: 0 <= j < i ==> rows[j].raw.Some?
      invariant index == Index(rows[..i]) && next == MaxID(rows[..i])
    {
      var r := rows[i];
      assert rows[..i + 1][..i] == rows[..i];
      if r.id > next {
        next := r.id;
      }
      if r.raw.None? {
        FirstUndecodableIs(rows, i);
        err := Some("decode " + kind + " id " + Itoa(r.id));
        return;
      }
      index := index[r.id := r.raw.value];
      i := i + 1;
    }
    FirstUndecodableIs(rows, i);
    assert rows[..i] == rows;
    next := next + 1;
    err := None;
  }

  /** After a load without error the counter is at least 1 and above every
      loaded id, so the next id handed out is not in use. */
  lemma NextAboveLoaded<T>(rows: seq<Row<T>>)
    requires Decodes(rows)
    ensures LoadedNext(rows) >= 1
    ensures forall id :: id in LoadedIndex(rows) ==> id < LoadedNext(rows)
  {
    assert rows[..|rows|] == rows;
  }

  // ---------------------------------------------------------------------
  // The macro-cache janitor: one pass of cleanMacroCache

  /** An entry of the cache directory: its name, whether it is a regular
      file, its size, and its access time (None when it cannot be read). */
  datatype DirEntry = DirEntry(name: string, regular: bool, size: int, atime: Option<Time>)

  /** The entries the janitor counts: regular files whose access time reads. */
  predicate Readable(e: DirEntry) { e.regular && e.atime.Some? }

  /** A counted entry not accessed for longer than `maxAge`. */
  predicate Stale(e: DirEntry, now: Time, maxAge: int) {
    Readable(e) && now - e.atime.value > maxAge
  }

  /** filepath.Join of the cache directory and an entry name. */
  function CacheFile(cacheDir: string, name: string): string {
    cacheDir + "/" + name
  }

  /** The sum of the sizes of the counted entries. */
  function TotalSize(es: seq<DirEntry>): int {
    if es == [] then 0
    else
      var last := es[|es| - 1];
      TotalSize(es[..|es| - 1]) + (if Readable(last) then last.size else 0)
  }

  /** The paths of the stale entries, in directory order. */
  function Candidates(cacheDir: string, es: seq<DirEntry>, now: Time, maxAge: int): (cand: seq<string>)
    ensures |cand| <= |es|
  {
    if es == [] then []
    else
      var last := es[|es| - 1];
      Candidates(cacheDir, es[..|es| - 1], now, maxAge)
        + (if Stale(last, now, maxAge) then [CacheFile(cacheDir, last.name)] else [])
  }

  /** A path is a candidate exactly when it names a stale entry. */
  lemma {:induction false} CandidatesExactly(cacheDir: string, es: seq<DirEntry>, now: Time, maxAge: int, p: string)
    ensures p in Candidates(cacheDir, es, now, maxAge) <==>
            exists k :: 0 <= k < |es| && Stale(es[k], now, maxAge) && p == CacheFile(cacheDir, es[k].name)
    decreases |es|
  {
    if es != [] {
      var prefix := es[..|es| - 1];
      CandidatesExactly(cacheDir, prefix, now, maxAge, p);
      assert forall k :: 0 <= k < |prefix| ==> prefix[k] == es[k];
    }
  }

  /** The counted size is additive over splits of the listing. */
  lemma {:induction false} TotalSizeAppend(a: seq<DirEntry>, b: seq<DirEntry>)
    ensures TotalSize(a + b) == TotalSize(a) + TotalSize(b)
    decreases |b|
  {
    if b == [] {
      assert a + b == a;
    } else {
      var b' := b[..|b| - 1];
      TotalSizeAppend(a, b');
      assert (a + b)[..|a + b| - 1] == a + b';
    }
  }

  /** Entries that are not counted add nothing to the size. */
  lemma {:induction false} TotalSizeOfUncounted(es: seq<DirEntry>)
    requires forall k :: 0 <= k < |es| ==> !Readable(es[k])
    ensures TotalSize(es) == 0
    decreases |es|
  {
    if es != [] {
      TotalSizeOfUncounted(es[..|es| - 1]);
    }
  }

  /** Phase 2 of cleanMacroCache: the candidates and the total size. */
  method SelectCandidates(cacheDir: string, es: seq<DirEntry>, now: Time, maxAge: int)
    returns (totalSize: int, cand: seq<string>)
    ensures totalSize == TotalSize(es)
    ensures cand == Candidates(cacheDir, es, now, maxAge)
  {
    totalSize := 0;
    cand := [];
    var i := 0;
    while i < |es|
      invariant 0 <= i <= |es|
      invariant totalSize == TotalSize(es[..i])
      invariant cand == Candidates(cacheDir, es[..i], now, maxAge)
    {
      var e := es[i];
      assert es[..i + 1][..i] == es[..i];
      if !e.regular {
        i := i + 1;
        continue;
      }
      if e.atime.None? {
        i := i + 1;
        continue;
      }
      var age := now - e.atime.value;
      if age > maxAge {
        cand := cand + [CacheFile(cacheDir, e.name)];
      }
      totalSize := totalSize + e.size;
      i := i + 1;
    }
    assert es[..i] == es;
  }

  /** The janitor prunes only when the cache is above the threshold and
      there is something to remove. */
  predicate ShouldPrune(totalSize: int, cand: seq<string>, minPruneBytes: int) {
    !(totalSize <= minPruneBytes || |cand| == 0)
  }

  /** Phase 3 of cleanMacroCache: every candidate is removed in turn; the
      removal of a path succeeds when the file exists and `removable` holds
      it, and a failure does not stop the loop. */
  method RemoveCandidates(files: set<string>, cand: seq<string>, removable: set<string>) returns (files': set<string>)
    ensures files' == files - (set p | p in cand && p in removable)
  {
    files' := files;
    var i := 0;
    while i < |cand|
      invariant 0 <= i <= |cand|
      invariant files' == files - (set p | p in cand[..i] && p in removable)
    {
      var path := cand[i];
      if path in files' && path in removable {
        files' := files' - {path};
      }
      assert cand[..i + 1] == cand[..i] + [path];
      assert (set p | p in cand[..i + 1] && p in removable) ==
             (set p | p in cand[..i] && p in removable) + (if path in removable then {path} else {});
      i := i + 1;
    }
    assert cand[..i] == cand;
  }

  /** One tick of cleanMacroCache over the files of the cache directory
      `files`. A listing error skips the tick. */
  method CleanPass(cacheDir: string, listing: Result<seq<DirEntry>, string>, now: Time, maxAge: int, minPruneBytes: int,
                   files: set<string>, removable: set<string>) returns (files': set<string>)
    ensures listing.Err? ==> files' == files
    ensures listing.Ok? ==>
              var cand := Candidates(cacheDir, listing.value, now, maxAge);
              files' == if ShouldPrune(TotalSize(listing.value), cand, minPruneBytes)
                        then files - (set p | p in cand && p in removable)
                        else files
  {
    if listing.Err? {
      return files;
    }
    var totalSize, cand := SelectCandidates(cacheDir, listing.value, now, maxAge);
    if totalSize <= minPruneBytes || |cand| == 0 {
      return files;
    }
    files' := RemoveCandidates(files, cand, removable);
  }

  /** A pass removes only files, only candidates, and every removable
      candidate, whatever failed before it. */
  lemma CleanPassRemovesCandidates(cacheDir: string, es: seq<DirEntry>, now: Time, maxAge: int, minPruneBytes: int,
                                   files: set<string>, removable: set<string>, files': set<string>)
    requires var cand := Candidates(cacheDir, es, now, maxAge);
             files' == if ShouldPrune(TotalSize(es), cand, minPruneBytes)
                       then files - (set p | p in cand && p in removable)
                       else files
    ensures files' <= files
    ensures forall p :: p in files - files' ==>
              exists k :: 0 <= k < |es| && Stale(es[k], now, maxAge) && p == CacheFile(cacheDir, es[k].name)
    ensures TotalSize(es) <= minPruneBytes ==> files' == files
  {
    forall p | p in files - files'
      ensures exists k :: 0 <= k < |es| && Stale(es[k], now, maxAge) && p == CacheFile(cacheDir, es[k].name)
    {
      CandidatesExactly(cacheDir, es, now, maxAge, p);
    }
  }

  // ---------------------------------------------------------------------
  // Writing a macro row and filling in vote totals

  /** The copy updateMacroLocked stores: the macro with its vote counts
      zeroed, which the Macros table never holds. */
  function StoredMacro(m: Macro): (r: Macro)
    ensures r.upvotes == 0 && r.downvotes == 0
    ensures r.(upvotes := m.upvotes, downvotes := m.downvotes) == m
  {
    m.(upvotes := 0, downvotes := 0)
  }

  /** A row of the VoteTotals view: a macro id and its up and down counts. */
  datatype VoteTotal = VoteTotal(macroID: int, up: int, down: int)

  /** The macros after fillAllMacroVotesLocked reads `totals` in order. */
  function ApplyTotals(macros: map<int, Macro>, totals: seq<VoteTotal>): (r: map<int, Macro>)
    ensures r.Keys == macros.Keys
    ensures forall id :: id in r ==> r[id].(upvotes := macros[id].upvotes, downvotes := macros[id].downvotes) == macros[id]
  {
    if totals == [] then macros
    else
      var prev := ApplyTotals(macros, totals[..|totals| - 1]);
      var t := totals[|totals| - 1];
      if t.macroID in prev then prev[t.macroID := prev[t.macroID].(upvotes := t.up, downvotes := t.down)] else prev
  }

  /** A macro no row names keeps its counts. */
  lemma {:induction false} ApplyTotalsUnnamed(macros: map<int, Macro>, totals: seq<VoteTotal>, id: int)
    requires id in macros
    requires forall k :: 0 <= k < |totals| ==> totals[k].macroID != id
    ensures ApplyTotals(macros, totals)[id] == macros[id]
    decreases |totals|
  {
    if totals != [] {
      ApplyTotalsUnnamed(macros, totals[..|totals| - 1], id);
    }
  }

  /** A macro takes the counts of the last row that names it. */
  lemma {:induction false} ApplyTotalsLast(macros: map<int, Macro>, totals: seq<VoteTotal>, k: nat)
    requires k < |totals| && totals[k].macroID in macros
    requires forall j :: k < j < |totals| ==> totals[j].macroID != totals[k].macroID
    ensures var id := totals[k].macroID;
            ApplyTotals(macros, totals)[id].upvotes == totals[k].up &&
            ApplyTotals(macros, totals)[id].downvotes == totals[k].down
    decreases |totals|
  {
    if k < |totals| - 1 {
      ApplyTotalsLast(macros, totals[..|totals| - 1], k);
    }
  }
}
