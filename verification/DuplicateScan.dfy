/** The duplicate search over stored fingerprints. The stored side's information
    check is expensive and runs only on a score that would be reported; the
    search is proved to answer exactly as if every candidate were checked first.
 */
module DuplicateScan {
  import opened Sums
  import opened AudioMatch
  import opened BannedScan
  import opened FirstMax

  const DUPLICATE_BLOCK: real := 0.90
  const DUPLICATE_REVIEW: real := 0.82

  /** audio_match_verdict. */
  function DuplicateVerdict(score: real): Verdict {
    if score >= DUPLICATE_BLOCK then Block else if score >= DUPLICATE_REVIEW then Review else NoMatch
  }

  datatype Stored = Stored(assetId: int, fingerprint: string)

  datatype Found = Found(score: real, row: Stored, verdict: Verdict)

  /** AudioFingerprintComparer.score for a usable query: the check comes after the comparison.
      An undecodable candidate, which raises, is skipped by the caller like an unscored one. */
  function LazyScore(decode: Decoder, query: seq<Word>, row: Stored): Option<real> {
    match decode(row.fingerprint)
    case None => None
    case Some(other) =>
      var value := Similarity(query, other);
      if value.None? then None
      else if value.value >= DUPLICATE_REVIEW && !Usable(other) then None
      else value
  }

  /** The simple form: check the candidate before comparing it. */
  function EagerScore(decode: Decoder, query: seq<Word>, row: Stored): Option<real> {
    match decode(row.fingerprint)
    case None => None
    case Some(other) => if Usable(other) then Similarity(query, other) else None
  }

  function LazyScores(decode: Decoder, query: seq<Word>, rows: seq<Stored>): (scores: seq<Option<real>>)
    ensures |scores| == |rows|
  {
    if rows == [] then []
    else LazyScores(decode, query, rows[..|rows| - 1]) + [LazyScore(decode, query, rows[|rows| - 1])]
  }

  function EagerScores(decode: Decoder, query: seq<Word>, rows: seq<Stored>): (scores: seq<Option<real>>)
    ensures |scores| == |rows|
  {
    if rows == [] then []
    else EagerScores(decode, query, rows[..|rows| - 1]) + [EagerScore(decode, query, rows[|rows| - 1])]
  }

  /** The best row, if its score earns a verdict. */
  function Reported(scores: seq<Option<real>>, rows: seq<Stored>): Option<Found>
    requires |scores| == |rows|
  {
    match BestIndex(scores)
    case None => None
    case Some(i) =>
      var verdict := DuplicateVerdict(scores[i].value);
      if verdict == NoMatch then None else Some(Found(scores[i].value, rows[i], verdict))
  }

  /** The answer when every candidate is checked first. */
  function EagerMatch(decode: Decoder, queryFp: string, rows: seq<Stored>): Option<Found> {
    match decode(queryFp)
    case None => None
    case Some(query) => if Usable(query) then Reported(EagerScores(decode, query, rows), rows) else None
  }

  lemma {:induction false} LateCheckAgreesFromCut(decode: Decoder, query: seq<Word>, rows: seq<Stored>)
    ensures AgreeFrom(DUPLICATE_REVIEW, LazyScores(decode, query, rows), EagerScores(decode, query, rows))
    decreases |rows|
  {
    if rows != [] {
      LateCheckAgreesFromCut(decode, query, rows[..|rows| - 1]);
    }
  }

  /** The fast search refines the simple one for every store and query: same row, score and verdict. */
  lemma {:induction false} LazyAnswersLikeEager(decode: Decoder, query: seq<Word>, rows: seq<Stored>)
    ensures Reported(LazyScores(decode, query, rows), rows) == Reported(EagerScores(decode, query, rows), rows)
  {
    LateCheckAgreesFromCut(decode, query, rows);
    AgreeingScansReportAlike(DUPLICATE_REVIEW, LazyScores(decode, query, rows), EagerScores(decode, query, rows));
  }

  /** AudioFingerprintComparer.score: the information check runs only from the review cut upwards. */
  method CandidateScore(decode: Decoder, query: seq<Word>, row: Stored) returns (score: Option<real>)
    ensures score == LazyScore(decode, query, row)
  {
    var other := decode(row.fingerprint);
    if other.None? {
      return None;
    }
    score := AudioSimilarityFrames(query, other.value);
    if score.Some? && score.value >= DUPLICATE_REVIEW {
      if !Usable(other.value) {
        return None;
      }
    }
  }

  /** _closest_audio_match, with the late check. */
  method ClosestAudioMatch(decode: Decoder, queryFp: string, rows: seq<Stored>) returns (found: Option<Found>)
    ensures found == EagerMatch(decode, queryFp, rows)
  {
    var decoded := decode(queryFp);
    if decoded.None? {
      return None;
    }
    var query := decoded.value;
    if !Usable(query) {
      return None;
    }
    var best: Option<real> := None;
    var bestRow := 0;
    for i := 0 to |rows|
      invariant var scores := LazyScores(decode, query, rows[..i]);
                if best.None? then BestIndex(scores).None?
                else 0 <= bestRow < i && BestIndex(scores) == Some(bestRow) && scores[bestRow] == best
    {
      assert rows[..i + 1][..i] == rows[..i];
      LastScore(decode, query, rows, i);
      var score := CandidateScore(decode, query, rows[i]);
      if score.None? {
        continue;
      }
      if best.None? || score.value > best.value {
        best, bestRow := score, i;
      }
    }
    assert rows[..|rows|] == rows;
    LazyAnswersLikeEager(decode, query, rows);
    if best.None? {
      return None;
    }
    var verdict := DuplicateVerdict(best.value);
    if verdict == NoMatch {
      return None;
    }
    return Some(Found(best.value, rows[bestRow], verdict));
  }

  lemma {:induction false} LastScore(decode: Decoder, query: seq<Word>, rows: seq<Stored>, i: nat)
    requires i < |rows|
    ensures var before, after := LazyScores(decode, query, rows[..i]), LazyScores(decode, query, rows[..i + 1]);
            after == before + [LazyScore(decode, query, rows[i])] && after[..i] == before
  {
    assert rows[..i + 1][..i] == rows[..i];
  }

  /** What is reported: the first candidate, among those that decode and are usable, with
      the highest score, and only if it reaches the review cut; nothing for a query that
      does not decode or is not usable.
   */
  lemma {:induction false} ReportedExactly(decode: Decoder, queryFp: string, rows: seq<Stored>)
    ensures decode(queryFp).None? || !Usable(decode(queryFp).value) ==> EagerMatch(decode, queryFp, rows) == None
    ensures decode(queryFp).Some? && Usable(decode(queryFp).value) ==>
              var scores := EagerScores(decode, decode(queryFp).value, rows);
              match EagerMatch(decode, queryFp, rows)
              case None => forall j :: 0 <= j < |rows| && scores[j].Some? ==> scores[j].value < 0.82
              case Some(found) =>
                && found.score >= 0.82 && found.verdict == (if found.score >= 0.90 then Block else Review)
                && exists i :: 0 <= i < |rows| && IsFirstMax(scores, i) && found.row == rows[i] && scores[i] == Some(found.score)
  {
    if decode(queryFp).Some? {
      BestIndexIsFirstMax(EagerScores(decode, decode(queryFp).value, rows));
    }
  }

  /** A candidate has a score exactly when it decodes to a usable fingerprint, and it is their similarity. */
  lemma {:induction false} EagerScoreExactly(decode: Decoder, query: seq<Word>, rows: seq<Stored>, j: nat)
    requires Usable(query) && j < |rows|
    ensures var candidate := decode(rows[j].fingerprint);
            if candidate.Some? && Usable(candidate.value) then
              EagerScores(decode, query, rows)[j].Some? && EagerScores(decode, query, rows)[j] == Similarity(query, candidate.value)
            else EagerScores(decode, query, rows)[j].None?
    decreases |rows|
  {
    if j < |rows| - 1 {
      EagerScoreExactly(decode, query, rows[..|rows| - 1], j);
    }
  }
}
