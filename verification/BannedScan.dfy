/** The banned-audio registry scan: one upload's fingerprint against every
    registry row, through a bounded cache of decoded rows that must never change
    an answer. Decoding is an arbitrary partial function of the stored string.
 */
module BannedScan {
  import opened Sums
  import opened AudioMatch
  import opened FirstMax

  type Decoder = string -> Option<seq<Word>>

  const BLOCK_SCORE: real := 0.88
  const REVIEW_SCORE: real := 0.80
  const CACHE_MAX: nat := 4096

  datatype Verdict = Block | Review | NoMatch

  /** banned_audio_match_verdict. */
  function VerdictOf(score: Option<real>): Verdict {
    match score
    case None => NoMatch
    case Some(x) => if x >= BLOCK_SCORE then Block else if x >= REVIEW_SCORE then Review else NoMatch
  }

  /** A registry row; either column may be NULL. */
  datatype Row = Row(hashValue: Option<string>, category: Option<string>)

  /** What str.strip() removes. */
  predicate IsSpace(c: char) {
    var code := c as int;
    || 9 <= code <= 13 || 28 <= code <= 32 || 0x2000 <= code <= 0x200A
    || code in {0x85, 0xA0, 0x1680, 0x2028, 0x2029, 0x202F, 0x205F, 0x3000}
  }

  /** One by one: tab to carriage return, the four separators and the space, next line, no-break
      space, and the Unicode spaces and line separators.
   */
  lemma {:induction false} WhiteSpaceIs(c: char)
    ensures IsSpace(c) <==>
              c in "\t\n\U{0B}\U{0C}\r\U{1C}\U{1D}\U{1E}\U{1F} \U{85}\U{A0}\U{1680}\U{2000}\U{2001}\U{2002}\U{2003}\U{2004}\U{2005}\U{2006}\U{2007}\U{2008}\U{2009}\U{200A}\U{2028}\U{2029}\U{202F}\U{205F}\U{3000}"
  {
  }

  function StripLeft(s: string): string {
    if s != "" && IsSpace(s[0]) then StripLeft(s[1..]) else s
  }

  function Strip(s: string): string
    decreases |s|
  {
    if s != "" && IsSpace(s[|s| - 1]) then Strip(s[..|s| - 1]) else StripLeft(s)
  }

  function HashOf(row: Row): string {
    if row.hashValue.Some? then Strip(row.hashValue.value) else ""
  }

  function CategoryOf(row: Row): string {
    if row.category.Some? then row.category.value else ""
  }

  lemma {:induction false} StripLeftExactly(s: string) returns (n: nat)
    ensures n <= |s| && StripLeft(s) == s[n..]
    ensures forall i :: 0 <= i < n ==> IsSpace(s[i])
    ensures n < |s| ==> !IsSpace(s[n])
  {
    n := 0;
    if s != "" && IsSpace(s[0]) {
      n := StripLeftExactly(s[1..]);
      n := n + 1;
      assert s[n..] == s[1..][n - 1..];
      assert forall i :: 0 < i < n ==> s[i] == s[1..][i - 1];
    }
  }

  /** Stripping takes the longest runs of white space off both ends and nothing else. */
  lemma {:induction false} StripExactly(s: string) returns (from: nat, to: nat)
    ensures from <= to <= |s| && Strip(s) == s[from..to]
    ensures forall i :: 0 <= i < from || to <= i < |s| ==> IsSpace(s[i])
    ensures from < to ==> !IsSpace(s[from]) && !IsSpace(s[to - 1])
    decreases |s|
  {
    if s != "" && IsSpace(s[|s| - 1]) {
      from, to := StripExactly(s[..|s| - 1]);
    } else {
      from := StripLeftExactly(s);
      to := |s|;
    }
  }

  /** A row's hash is its stored text without surrounding white space; a missing text, or
      one of white space only, is blank, and so is a missing category.
   */
  lemma {:induction false} RowTextsExactly(row: Row)
    ensures HashOf(row) == "" <==>
              row.hashValue.None? || forall i :: 0 <= i < |row.hashValue.value| ==> IsSpace(row.hashValue.value[i])
    ensures row.hashValue.Some? ==>
              exists from: nat, to: nat :: from <= to <= |row.hashValue.value| && HashOf(row) == row.hashValue.value[from..to]
    ensures CategoryOf(row) == match row.category { case Some(c) => c case None => "" }
  {
    if row.hashValue.Some? {
      var from, to := StripExactly(row.hashValue.value);
    }
  }

  /** BannedAudioEntry. */
  datatype Entry = Entry(frames: seq<Word>, usable: bool)

  /** What decoding a stored string afresh gives. */
  function Decoded(decode: Decoder, hash: string): Option<Entry> {
    match decode(hash)
    case None => None
    case Some(frames) => Some(Entry(frames, Usable(frames)))
  }

  // ── The scan, row by row ───────────────────────────────────────────────────

  datatype Match = Match(score: real, category: string, hash: string)
  datatype Fault = Fault(hash: string, category: string)
  datatype Tally = Tally(best: Option<Match>, compared: nat, unusable: seq<Fault>, undecodable: seq<Fault>)

  datatype Scan = Scan(queryUsable: bool, best: Option<Match>, compared: nat,
                       unusable: seq<Fault>, undecodable: seq<Fault>) {
    function Verdict(): Verdict {
      if best.None? then NoMatch else VerdictOf(Some(best.value.score))
    }
  }

  const NOTHING: Tally := Tally(None, 0, [], [])

  function Counted(t: Tally, query: seq<Word>, row: Row, entry: Option<Entry>): Tally {
    var hash, category := HashOf(row), CategoryOf(row);
    if hash == "" then t
    else if entry.None? then t.(undecodable := t.undecodable + [Fault(hash, category)])
    else if !entry.value.usable then t.(unusable := t.unusable + [Fault(hash, category)])
    else
      var score := Similarity(query, entry.value.frames);
      var better := score.Some? && (t.best.None? || score.value > t.best.value.score);
      t.(compared := t.compared + 1,
         best := if better then Some(Match(score.value, category, hash)) else t.best)
  }

  function Tallied(decode: Decoder, query: seq<Word>, rows: seq<Row>): Tally {
    if rows == [] then NOTHING
    else
      var last := rows[|rows| - 1];
      Counted(Tallied(decode, query, rows[..|rows| - 1]), query, last, Decoded(decode, HashOf(last)))
  }

  function Concluded(t: Tally): Scan {
    var reported := t.best.Some? && VerdictOf(Some(t.best.value.score)) != NoMatch;
    Scan(true, if reported then t.best else None, t.compared, t.unusable, t.undecodable)
  }

  /** scan_banned_audio without a cache. None stands for the exception an undecodable query raises. */
  function ScanOf(decode: Decoder, queryFp: string, rows: seq<Row>): Option<Scan> {
    match decode(queryFp)
    case None => None
    case Some(query) =>
      if !Usable(query) then Some(Scan(false, None, 0, [], [])) else Some(Concluded(Tallied(decode, query, rows)))
  }

  // ── The cache ──────────────────────────────────────────────────────────────

  class EntryCache {
    var entries: map<string, Entry>

    /** Bounded, and every string is mapped to its own decode. */
    ghost predicate Valid(decode: Decoder)
      reads this
    {
      |entries| <= CACHE_MAX && forall h :: h in entries ==> Decoded(decode, h) == Some(entries[h])
    }

    constructor ()
      ensures forall decode :: Valid(decode)
    {
      entries := map[];
    }

    /** The read under the first lock. */
    method Lookup(hash: string) returns (entry: Option<Entry>)
      ensures entry == if hash in entries then Some(entries[hash]) else None
    {
      entry := None;
      if hash in entries {
        entry := Some(entries[hash]);
      }
    }

    /** The write under the second lock. Other uploads may have changed the cache since the read. */
    method Store(decode: Decoder, hash: string, entry: Entry)
      requires Valid(decode) && Decoded(decode, hash) == Some(entry)
      modifies this
      ensures Valid(decode)
      ensures entries == if |old(entries)| < 4096 then old(entries)[hash := entry] else old(entries)
    {
      if |entries| < CACHE_MAX {
        StoreGrowsByOne(entries, hash, entry);
        entries := entries[hash := entry];
      }
    }

    /** _banned_audio_entry: what it returns does not depend on the cache. */
    method BannedAudioEntry(decode: Decoder, hash: string) returns (entry: Option<Entry>)
      requires Valid(decode)
      modifies this
      ensures Valid(decode) && entry == Decoded(decode, hash)
    {
      entry := Lookup(hash);
      if entry.Some? {
        return;
      }
      entry := Decoded(decode, hash);
      if entry.Some? {
        Store(decode, hash, entry.value);
      }
    }
  }

  lemma {:induction false} StoreGrowsByOne(m: map<string, Entry>, hash: string, entry: Entry)
    ensures |m[hash := entry]| <= |m| + 1
  {
  }

  /** scan_banned_audio: for every cache content the scan is the uncached one. */
  method ScanBannedAudio(decode: Decoder, cache: EntryCache, queryFp: string,
      rows: seq<Row>) returns (scan: Option<Scan>)
    requires cache.Valid(decode)
    modifies cache
    ensures cache.Valid(decode)
    ensures scan == ScanOf(decode, queryFp, rows)
  {
    var decoded := decode(queryFp);
    if decoded.None? {
      return None;
    }
    var query := decoded.value;
    if !Usable(query) {
      return Some(Scan(false, None, 0, [], []));
    }
    var tally := NOTHING;
    for i := 0 to |rows|
      invariant cache.Valid(decode)
      invariant tally == Tallied(decode, query, rows[..i])
    {
      assert rows[..i + 1][..i] == rows[..i];
      var row := rows[i];
      var hash, category := HashOf(row), CategoryOf(row);
      if hash == "" {
        continue;
      }
      var entry := cache.BannedAudioEntry(decode, hash);
      if entry.None? {
        tally := tally.(undecodable := tally.undecodable + [Fault(hash, category)]);
        continue;
      }
      if !entry.value.usable {
        tally := tally.(unusable := tally.unusable + [Fault(hash, category)]);
        continue;
      }
      var score := AudioSimilarityFrames(query, entry.value.frames);
      tally := tally.(compared := tally.compared + 1);
      if score.None? {
        continue;
      }
      if tally.best.None? || score.value > tally.best.value.score {
        tally := tally.(best := Some(Match(score.value, category, hash)));
      }
    }
    assert rows[..|rows|] == rows;
    if tally.best.Some? && VerdictOf(Some(tally.best.value.score)) == NoMatch {
      tally := tally.(best := None);
    }
    return Some(Scan(true, tally.best, tally.compared, tally.unusable, tally.undecodable));
  }

  // ── What the scan means ────────────────────────────────────────────────────

  /** The row's fingerprint decodes and carries enough information to be compared. */
  predicate Enforceable(decode: Decoder, row: Row) {
    HashOf(row) != "" && decode(HashOf(row)).Some? && Usable(decode(HashOf(row)).value)
  }

  /** The score the row is entered with, None for rows that are not compared. */
  function RowScore(decode: Decoder, query: seq<Word>, row: Row): Option<real> {
    if Enforceable(decode, row) then Similarity(query, decode(HashOf(row)).value) else None
  }

  function RowScores(decode: Decoder, query: seq<Word>, rows: seq<Row>): (scores: seq<Option<real>>)
    ensures |scores| == |rows|
    ensures forall j :: 0 <= j < |rows| ==> scores[j] == RowScore(decode, query, rows[j])
  {
    if rows == [] then []
    else RowScores(decode, query, rows[..|rows| - 1]) + [RowScore(decode, query, rows[|rows| - 1])]
  }

  /** The match kept is the row with the first highest score. */
  lemma {:induction false} TallyKeepsFirstBest(decode: Decoder, query: seq<Word>, rows: seq<Row>)
    ensures var best := BestIndex(RowScores(decode, query, rows));
            Tallied(decode, query, rows).best ==
              if best.None? then None
              else Some(Match(RowScores(decode, query, rows)[best.value].value,
                              CategoryOf(rows[best.value]), HashOf(rows[best.value])))
    decreases |rows|
  {
    if rows != [] {
      var n := |rows| - 1;
      TallyKeepsFirstBest(decode, query, rows[..n]);
      assert RowScores(decode, query, rows)[..n] == RowScores(decode, query, rows[..n]);
    }
  }

  predicate SomeRowScores(decode: Decoder, query: seq<Word>, rows: seq<Row>, cut: real) {
    exists r :: r in rows && Enforceable(decode, r) && RowScore(decode, query, r).Some? && RowScore(decode, query, r).value >= cut
  }

  lemma {:induction false} ReachesExactly(decode: Decoder, query: seq<Word>, rows: seq<Row>, cut: real)
    ensures Reaches(RowScores(decode, query, rows), cut) <==> SomeRowScores(decode, query, rows, cut)
  {
    var scores := RowScores(decode, query, rows);
    BestIndexIsFirstMax(scores);
    if Reaches(scores, cut) {
      assert rows[BestIndex(scores).value] in rows;
    }
    if r :| r in rows && Enforceable(decode, r) && RowScore(decode, query, r).Some? && RowScore(decode, query, r).value >= cut {
      var j :| 0 <= j < |rows| && rows[j] == r;
      assert scores[j] == RowScore(decode, query, r);
    }
  }

  /** A usable query is blocked exactly when some decodable, usable row scores at
      or above the block cut, and reported for review exactly when none does but
      some row reaches the review cut. */
  lemma {:induction false} VerdictExactly(decode: Decoder, queryFp: string, rows: seq<Row>)
    requires decode(queryFp).Some? && Usable(decode(queryFp).value)
    ensures var query, verdict := decode(queryFp).value, ScanOf(decode, queryFp, rows).value.Verdict();
            && (verdict == Block <==> SomeRowScores(decode, query, rows, 0.88))
            && (verdict == Review <==> !SomeRowScores(decode, query, rows, 0.88) && SomeRowScores(decode, query, rows, 0.80))
  {
    var query := decode(queryFp).value;
    TallyKeepsFirstBest(decode, query, rows);
    ReachesExactly(decode, query, rows, BLOCK_SCORE);
    ReachesExactly(decode, query, rows, REVIEW_SCORE);
  }

  /** No comparison the scan makes is undefined. */
  lemma {:induction false} EveryEnforceableRowScores(decode: Decoder, query: seq<Word>, row: Row)
    requires Usable(query)
    ensures RowScore(decode, query, row).Some? <==> Enforceable(decode, row)
  {
  }

  /** The verdict does not depend on the order the registry returns its rows in. */
  lemma {:induction false} VerdictIgnoresRowOrder(decode: Decoder, queryFp: string, rows: seq<Row>, shuffled: seq<Row>)
    requires multiset(rows) == multiset(shuffled)
    ensures ScanOf(decode, queryFp, rows).Some? <==> ScanOf(decode, queryFp, shuffled).Some?
    ensures ScanOf(decode, queryFp, rows).Some? ==>
              ScanOf(decode, queryFp, rows).value.Verdict() == ScanOf(decode, queryFp, shuffled).value.Verdict()
  {
    if decode(queryFp).Some? && Usable(decode(queryFp).value) {
      VerdictExactly(decode, queryFp, rows);
      VerdictExactly(decode, queryFp, shuffled);
      forall r
        ensures r in rows <==> r in shuffled
      {
        assert r in multiset(rows) <==> r in multiset(shuffled);
      }
    }
  }

  function NonBlank(rows: seq<Row>): nat {
    if rows == [] then 0 else NonBlank(rows[..|rows| - 1]) + if HashOf(rows[|rows| - 1]) != "" then 1 else 0
  }

  /** Every non-blank row is accounted for: compared, unusable or undecodable. */
  lemma {:induction false} EveryRowIsAccountedFor(decode: Decoder, query: seq<Word>, rows: seq<Row>)
    ensures var t := Tallied(decode, query, rows);
            t.compared + |t.unusable| + |t.undecodable| == NonBlank(rows)
    decreases |rows|
  {
    if rows != [] {
      EveryRowIsAccountedFor(decode, query, rows[..|rows| - 1]);
    }
  }

  /** So a scan of a usable query accounts for the whole registry. */
  lemma {:induction false} ScanAccountsForRegistry(decode: Decoder, queryFp: string, rows: seq<Row>)
    requires ScanOf(decode, queryFp, rows).Some? && ScanOf(decode, queryFp, rows).value.queryUsable
    ensures var scan := ScanOf(decode, queryFp, rows).value;
            scan.compared + |scan.unusable| + |scan.undecodable| == NonBlank(rows)
  {
    EveryRowIsAccountedFor(decode, decode(queryFp).value, rows);
  }

  /** Rows whose stored value will not decode, and rows that decode to something degenerate. */
  predicate Undecodable(decode: Decoder, row: Row) {
    HashOf(row) != "" && decode(HashOf(row)).None?
  }

  predicate Degenerate(decode: Decoder, row: Row) {
    HashOf(row) != "" && decode(HashOf(row)).Some? && !Usable(decode(HashOf(row)).value)
  }

  /** The rows kept, in the registry's order. */
  function Only(rows: seq<Row>, keep: Row -> bool): seq<Row> {
    if rows == [] then []
    else
      var last := rows[|rows| - 1];
      Only(rows[..|rows| - 1], keep) + if keep(last) then [last] else []
  }

  /** The faults name these rows, one each and in this order. */
  predicate Faulted(faults: seq<Fault>, rows: seq<Row>) {
    |faults| == |rows| && forall i :: 0 <= i < |rows| ==> faults[i] == Fault(HashOf(rows[i]), CategoryOf(rows[i]))
  }

  /** Each row lands where it belongs: degenerate and undecodable ones are listed in order
      under their own hash and category, and the others that are not blank are compared.
   */
  lemma {:induction false} TallySortsRows(decode: Decoder, query: seq<Word>, rows: seq<Row>)
    ensures var t := Tallied(decode, query, rows);
            && Faulted(t.undecodable, Only(rows, row => Undecodable(decode, row)))
            && Faulted(t.unusable, Only(rows, row => Degenerate(decode, row)))
            && t.compared == |Only(rows, row => Enforceable(decode, row))|
    decreases |rows|
  {
    if rows != [] {
      TallySortsRows(decode, query, rows[..|rows| - 1]);
    }
  }

  /** Row i is the first of the highest scoring rows. */
  predicate FirstBestRow(decode: Decoder, query: seq<Word>, rows: seq<Row>, i: nat) {
    && i < |rows| && RowScore(decode, query, rows[i]).Some?
    && forall j :: 0 <= j < |rows| && RowScore(decode, query, rows[j]).Some? ==>
         var (here, there) := (RowScore(decode, query, rows[i]).value, RowScore(decode, query, rows[j]).value);
         there <= here && (j < i ==> there < here)
  }

  predicate Reports(decode: Decoder, query: seq<Word>, rows: seq<Row>, i: nat, m: Match) {
    && FirstBestRow(decode, query, rows, i)
    && m == Match(RowScore(decode, query, rows[i]).value, CategoryOf(rows[i]), HashOf(rows[i]))
  }

  /** The whole report on an upload: no answer for a query that does not decode, an empty
      one for a query too poor to compare, and otherwise the first highest scoring row if
      it reaches the review cut, with its own hash and category.
   */
  lemma {:induction false} ReportExactly(decode: Decoder, queryFp: string, rows: seq<Row>)
    ensures match decode(queryFp)
            case None => ScanOf(decode, queryFp, rows) == None
            case Some(query) =>
              && ScanOf(decode, queryFp, rows).Some?
              && var scan := ScanOf(decode, queryFp, rows).value;
                 if !Usable(query) then scan == Scan(false, None, 0, [], [])
                 else
                   && scan.queryUsable
                   && (scan.best.None? <==> !SomeRowScores(decode, query, rows, 0.80))
                   && (scan.best.Some? ==> exists i :: 0 <= i < |rows| && Reports(decode, query, rows, i, scan.best.value))
  {
    if decode(queryFp).Some? && Usable(decode(queryFp).value) {
      var query := decode(queryFp).value;
      var scores := RowScores(decode, query, rows);
      TallyKeepsFirstBest(decode, query, rows);
      BestIndexIsFirstMax(scores);
      ReachesExactly(decode, query, rows, 0.80);
      if BestIndex(scores).Some? {
        assert FirstBestRow(decode, query, rows, BestIndex(scores).value);
        assert Reaches(scores, 0.80) ==> Reports(decode, query, rows, BestIndex(scores).value, Tallied(decode, query, rows).best.value);
      }
    }
  }

  // ── The server's report ────────────────────────────────────────────────────

  /** The registry-fault counters, one per kind of fault. */
  class FaultCounters {
    var undecodable: nat
    var unusable: nat

    constructor ()
      ensures undecodable == 0 && unusable == 0
    {
      undecodable, unusable := 0, 0;
    }

    /** One increment for every faulty row of a scan. */
    method Count(scan: Scan)
      modifies this
      ensures undecodable == old(undecodable) + |scan.undecodable|
      ensures unusable == old(unusable) + |scan.unusable|
    {
      for i := 0 to |scan.undecodable|
        invariant undecodable == old(undecodable) + i && unusable == old(unusable)
      {
        undecodable := undecodable + 1;
      }
      for i := 0 to |scan.unusable|
        invariant undecodable == old(undecodable) + |scan.undecodable| && unusable == old(unusable) + i
      {
        unusable := unusable + 1;
      }
    }
  }

  /** _scan_banned_audio: the scan, and one count for every row it could not enforce.
      With a usable query, what is compared and what is counted make up the registry.
   */
  method ScanAndCountFaults(decode: Decoder, cache: EntryCache, counters: FaultCounters, queryFp: string,
      rows: seq<Row>)
    returns (scan: Option<Scan>)
    requires cache.Valid(decode)
    modifies cache, counters
    ensures cache.Valid(decode) && scan == ScanOf(decode, queryFp, rows)
    ensures scan.None? ==> counters.undecodable == old(counters.undecodable) && counters.unusable == old(counters.unusable)
    ensures scan.Some? ==>
              && counters.undecodable == old(counters.undecodable) + |scan.value.undecodable|
              && counters.unusable == old(counters.unusable) + |scan.value.unusable|
    ensures scan.Some? && scan.value.queryUsable ==>
              scan.value.compared + (counters.undecodable - old(counters.undecodable))
                + (counters.unusable - old(counters.unusable)) == NonBlank(rows)
  {
    scan := ScanBannedAudio(decode, cache, queryFp, rows);
    if scan.Some? {
      counters.Count(scan.value);
      if scan.value.queryUsable {
        ScanAccountsForRegistry(decode, queryFp, rows);
      }
    }
  }
}
