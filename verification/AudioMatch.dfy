/** The audio fingerprint matcher: decoded chromaprint fingerprints are sequences
    of 32-bit frames, slid against each other over a bounded range of offsets and
    compared bit by bit. Scores are exact rationals.
 */
module AudioMatch {
  import opened Sums

  type Word = x: int | 0 <= x < 0x1_0000_0000

  const MAX_OFFSET_FRAMES := 320
  const COMPARE_FRAMES := 256
  const MIN_OVERLAP_FRAMES := 64

  // ── Bits ───────────────────────────────────────────────────────────────────

  function Xor(a: nat, b: nat): nat
    decreases a + b
  {
    if a == 0 && b == 0 then 0 else 2 * Xor(a / 2, b / 2) + if a % 2 != b % 2 then 1 else 0
  }

  /** bitwise_count. */
  function PopCount(x: nat): nat {
    if x == 0 then 0 else PopCount(x / 2) + x % 2
  }

  /** The bits in which two frames differ. */
  function BitDiff(a: Word, b: Word): nat {
    PopCount(Xor(a, b))
  }

  function Pow2(n: nat): (p: nat)
    ensures p > 0
  {
    if n == 0 then 1 else 2 * Pow2(n - 1)
  }

  lemma {:induction false} XorSymmetric(a: nat, b: nat)
    ensures Xor(a, b) == Xor(b, a)
    decreases a + b
  {
    if a + b > 0 {
      XorSymmetric(a / 2, b / 2);
    }
  }

  lemma {:induction false} XorBound(a: nat, b: nat, n: nat)
    requires a < Pow2(n) && b < Pow2(n)
    ensures Xor(a, b) < Pow2(n)
    ensures Xor(a, b) == 0 <==> a == b
    decreases n
  {
    if a + b > 0 {
      XorBound(a / 2, b / 2, n - 1);
    }
  }

  lemma {:induction false} PopCountBound(x: nat, n: nat)
    requires x < Pow2(n)
    ensures PopCount(x) <= n
    ensures PopCount(x) == 0 <==> x == 0
    decreases n
  {
    if x > 0 {
      PopCountBound(x / 2, n - 1);
    }
  }

  lemma {:induction false} Pow2Of(n: nat, k: nat)
    requires k <= n
    ensures Pow2(n) == Pow2(n - k) * Pow2(k)
    decreases k
  {
    if k > 0 {
      Pow2Of(n - 1, k - 1);
    }
  }

  lemma {:induction false} WordsHave32Bits()
    ensures Pow2(32) == 0x1_0000_0000
  {
    assert Pow2(8) == 256;
    Pow2Of(16, 8);
    Pow2Of(32, 16);
  }

  /** Frames differ in 0 to 32 bits, in none exactly when equal, and symmetrically. */
  lemma {:induction false} BitDiffFacts(a: Word, b: Word)
    ensures BitDiff(a, b) <= 32 && BitDiff(a, b) == BitDiff(b, a)
    ensures BitDiff(a, b) == 0 <==> a == b
  {
    WordsHave32Bits();
    XorSymmetric(a, b);
    XorBound(a, b, 32);
    PopCountBound(Xor(a, b), 32);
  }

  // ── The bits themselves ────────────────────────────────────────────────────

  /** Bit i of a frame. */
  function Bit(x: nat, i: nat): nat {
    (x / Pow2(i)) % 2
  }

  lemma {:induction false} HalvesOnce(x: nat, p: nat)
    requires p > 0
    ensures x / (2 * p) == x / 2 / p
  {
    var k := x / 2 / p;
    var r := x / 2 % p;
    assert x / 2 == k * p + r;
    assert x == k * (2 * p) + (2 * r + x % 2);
    QuotientIs(x, 2 * p, k, 2 * r + x % 2);
  }

  lemma {:induction false} QuotientIs(x: nat, d: nat, q: nat, r: nat)
    requires d > 0 && r < d && x == q * d + r
    ensures x / d == q
  {
    var e := x / d - q;
    assert x == x / d * d + x % d;
    assert e * d == r - x % d;
    assert e > 0 ==> e * d >= d;
    assert e < 0 ==> e * d <= 0 - d;
  }

  /** Of the lowest n bits, those in which a and b differ. */
  function DifferingBits(a: nat, b: nat, n: nat): set<nat> {
    set i: nat | i < n && Bit(a, i) != Bit(b, i)
  }

  /** One more bit at the top, or one more at the bottom. */
  lemma {:induction false} DifferingFromBelow(a: nat, b: nat, n: nat)
    ensures |DifferingBits(a, b, n + 1)| == |DifferingBits(a / 2, b / 2, n)| + if a % 2 != b % 2 then 1 else 0
    decreases n
  {
    TopBit(a, b, n);
    if n == 0 {
      assert DifferingBits(a, b, 0) == {} && DifferingBits(a / 2, b / 2, 0) == {};
      assert Pow2(0) == 1;
    } else {
      DifferingFromBelow(a, b, n - 1);
      TopBit(a / 2, b / 2, n - 1);
      HalvesOnce(a, Pow2(n - 1));
      HalvesOnce(b, Pow2(n - 1));
    }
  }

  lemma {:induction false} TopBit(a: nat, b: nat, n: nat)
    ensures |DifferingBits(a, b, n + 1)| == |DifferingBits(a, b, n)| + if Bit(a, n) != Bit(b, n) then 1 else 0
  {
    assert DifferingBits(a, b, n + 1) == DifferingBits(a, b, n) + if Bit(a, n) != Bit(b, n) then {n} else {};
  }

  lemma {:induction false} CountsDiffering(a: nat, b: nat, n: nat)
    requires a < Pow2(n) && b < Pow2(n)
    ensures PopCount(Xor(a, b)) == |DifferingBits(a, b, n)|
    decreases n
  {
    if n == 0 {
      assert DifferingBits(a, b, 0) == {};
    } else {
      CountsDiffering(a / 2, b / 2, n - 1);
      DifferingFromBelow(a, b, n - 1);
    }
  }

  /** The count computed by xor and population count is the number of the 32 bits in which the frames differ. */
  lemma {:induction false} BitDiffExactly(a: Word, b: Word)
    ensures BitDiff(a, b) == |DifferingBits(a, b, 32)|
  {
    WordsHave32Bits();
    CountsDiffering(a, b, 32);
  }

  // ── Alignments ─────────────────────────────────────────────────────────────

  function Min(a: int, b: int): int {
    if a < b then a else b
  }

  function Overlap(a: seq<Word>, b: seq<Word>): nat {
    Min(Min(|a|, |b|), COMPARE_FRAMES)
  }

  /** The largest offset at which `slid` still covers the overlap. */
  function Span(slid: seq<Word>, overlap: nat): nat
    requires overlap <= |slid|
  {
    Min(MAX_OFFSET_FRAMES, |slid| - overlap)
  }

  /** Differing bits over the first n aligned frames. */
  function Mismatch(slid: seq<Word>, offset: nat, fixed: seq<Word>, n: nat): nat
    requires offset + n <= |slid| && n <= |fixed|
  {
    if n == 0 then 0 else Mismatch(slid, offset, fixed, n - 1) + BitDiff(slid[offset + n - 1], fixed[n - 1])
  }

  /** One way of laying the fingerprints over each other: which of the two is slid, and by how much. */
  datatype Alignment = Alignment(swapped: bool, offset: nat)

  predicate Allowed(a: seq<Word>, b: seq<Word>, at: Alignment) {
    at.offset <= Span(if at.swapped then b else a, Overlap(a, b))
  }

  function MismatchAt(a: seq<Word>, b: seq<Word>, at: Alignment): nat
    requires Allowed(a, b, at)
  {
    if at.swapped then Mismatch(b, at.offset, a, Overlap(a, b)) else Mismatch(a, at.offset, b, Overlap(a, b))
  }

  /** Fraction of equal bits under an alignment. */
  function ScoreOf(mismatched: nat, overlap: nat): real
    requires overlap > 0
  {
    1.0 - mismatched as real / (32.0 * overlap as real)
  }

  /** The smallest mismatch over offsets 0 to span. */
  function Least(slid: seq<Word>, fixed: seq<Word>, overlap: nat, span: nat): nat
    requires span + overlap <= |slid| && overlap <= |fixed|
    decreases span
  {
    var here := Mismatch(slid, span, fixed, overlap);
    if span == 0 then here else Min(here, Least(slid, fixed, overlap, span - 1))
  }

  /** Similarity at the best alignment, None when too few frames are shared. */
  function Similarity(a: seq<Word>, b: seq<Word>): Option<real> {
    var overlap := Overlap(a, b);
    if overlap < MIN_OVERLAP_FRAMES then None
    else Some(ScoreOf(Min(Least(a, b, overlap, Span(a, overlap)), Least(b, a, overlap, Span(b, overlap))), overlap))
  }

  lemma {:induction false} LeastIsLeast(slid: seq<Word>, fixed: seq<Word>, overlap: nat, span: nat)
    requires span + overlap <= |slid| && overlap <= |fixed|
    ensures forall o: nat :: o <= span ==> Least(slid, fixed, overlap, span) <= Mismatch(slid, o, fixed, overlap)
    ensures exists o: nat :: o <= span && Least(slid, fixed, overlap, span) == Mismatch(slid, o, fixed, overlap)
    decreases span
  {
    if span > 0 {
      LeastIsLeast(slid, fixed, overlap, span - 1);
      assert Least(slid, fixed, overlap, span)
          == Min(Mismatch(slid, span, fixed, overlap), Least(slid, fixed, overlap, span - 1));
    } else {
      assert Least(slid, fixed, overlap, 0) == Mismatch(slid, 0, fixed, overlap);
    }
  }

  lemma {:induction false} ScoreDecreases(m: nat, n: nat, overlap: nat)
    requires overlap > 0
    ensures m <= n <==> ScoreOf(m, overlap) >= ScoreOf(n, overlap)
  {
  }

  /** The similarity is the score of an allowed alignment and no allowed alignment scores higher. */
  lemma {:induction false} SimilarityIsBest(a: seq<Word>, b: seq<Word>)
    requires Overlap(a, b) >= MIN_OVERLAP_FRAMES
    ensures exists at :: Allowed(a, b, at) && Similarity(a, b) == Some(ScoreOf(MismatchAt(a, b, at), Overlap(a, b)))
    ensures forall at :: Allowed(a, b, at) ==> Similarity(a, b).value >= ScoreOf(MismatchAt(a, b, at), Overlap(a, b))
  {
    var overlap := Overlap(a, b);
    var sa, sb := Span(a, overlap), Span(b, overlap);
    LeastIsLeast(a, b, overlap, sa);
    LeastIsLeast(b, a, overlap, sb);
    var m := Min(Least(a, b, overlap, sa), Least(b, a, overlap, sb));
    forall at | Allowed(a, b, at)
      ensures Similarity(a, b).value >= ScoreOf(MismatchAt(a, b, at), overlap)
    {
      ScoreDecreases(m, MismatchAt(a, b, at), overlap);
    }
    if m == Least(a, b, overlap, sa) {
      var o: nat :| o <= sa && m == Mismatch(a, o, b, overlap);
      assert Allowed(a, b, Alignment(false, o)) && MismatchAt(a, b, Alignment(false, o)) == m;
    } else {
      var o: nat :| o <= sb && m == Mismatch(b, o, a, overlap);
      assert Allowed(a, b, Alignment(true, o)) && MismatchAt(a, b, Alignment(true, o)) == m;
    }
  }

  /** The positions, frame and bit, at which the first n aligned frames differ. */
  function Differing(slid: seq<Word>, offset: nat, fixed: seq<Word>, n: nat): set<(nat, nat)>
    requires offset + n <= |slid| && n <= |fixed|
  {
    set i: nat, bit: nat | i < n && bit < 32 && Bit(slid[offset + i], bit) != Bit(fixed[i], bit) :: (i, bit)
  }

  function Paired(i: nat, bits: set<nat>): set<(nat, nat)> {
    set bit | bit in bits :: (i, bit)
  }

  lemma {:induction false} PairedSize(i: nat, bits: set<nat>)
    ensures |Paired(i, bits)| == |bits|
    decreases |bits|
  {
    if bits == {} {
      assert Paired(i, bits) == {};
    } else {
      var b :| b in bits;
      PairedSize(i, bits - {b});
      assert Paired(i, bits) == Paired(i, bits - {b}) + {(i, b)};
    }
  }

  lemma {:induction false} OneMoreFrame(slid: seq<Word>, offset: nat, fixed: seq<Word>, n: nat)
    requires offset + n < |slid| && n < |fixed|
    ensures Differing(slid, offset, fixed, n + 1)
         == Differing(slid, offset, fixed, n) + Paired(n, DifferingBits(slid[offset + n], fixed[n], 32))
  {
  }

  lemma {:induction false} FramesApart(slid: seq<Word>, offset: nat, fixed: seq<Word>, n: nat, bits: set<nat>)
    requires offset + n <= |slid| && n <= |fixed|
    ensures |Differing(slid, offset, fixed, n) + Paired(n, bits)| == |Differing(slid, offset, fixed, n)| + |Paired(n, bits)|
  {
    assert Differing(slid, offset, fixed, n) !! Paired(n, bits);
  }

  lemma {:induction false} OneMoreFrameCounts(slid: seq<Word>, offset: nat, fixed: seq<Word>, n: nat)
    requires offset + n < |slid| && n < |fixed|
    ensures |Differing(slid, offset, fixed, n + 1)| == |Differing(slid, offset, fixed, n)| + BitDiff(slid[offset + n], fixed[n])
  {
    var bits := DifferingBits(slid[offset + n], fixed[n], 32);
    BitDiffExactly(slid[offset + n], fixed[n]);
    PairedSize(n, bits);
    OneMoreFrame(slid, offset, fixed, n);
    FramesApart(slid, offset, fixed, n, bits);
  }

  lemma {:induction false} NothingDiffersYet(slid: seq<Word>, offset: nat, fixed: seq<Word>)
    requires offset <= |slid|
    ensures |Differing(slid, offset, fixed, 0)| == 0
  {
    assert Differing(slid, offset, fixed, 0) == {};
  }

  lemma {:induction false} MismatchExactly(slid: seq<Word>, offset: nat, fixed: seq<Word>, n: nat)
    requires offset + n <= |slid| && n <= |fixed|
    ensures Mismatch(slid, offset, fixed, n) == |Differing(slid, offset, fixed, n)|
    decreases n
  {
    if n == 0 {
      NothingDiffersYet(slid, offset, fixed);
    } else {
      MismatchExactly(slid, offset, fixed, n - 1);
      OneMoreFrameCounts(slid, offset, fixed, n - 1);
    }
  }

  /** One of the fingerprints is slid by at most 320 frames and still covers n. */
  predicate Slides(slid: seq<Word>, offset: nat, n: nat) {
    offset <= 320 && offset + n <= |slid|
  }

  /** The score is the share of equal bits among the 32n compared. */
  predicate ShareOfEqualBits(score: real, slid: seq<Word>, offset: nat, fixed: seq<Word>, n: nat)
    requires Slides(slid, offset, n) && n <= |fixed|
  {
    score * (32 * n) as real == (32 * n - |Differing(slid, offset, fixed, n)|) as real
  }

  predicate AtLeastShare(score: real, slid: seq<Word>, offset: nat, fixed: seq<Word>, n: nat)
    requires Slides(slid, offset, n) && n <= |fixed|
  {
    score * (32 * n) as real >= (32 * n - |Differing(slid, offset, fixed, n)|) as real
  }

  lemma {:induction false} ScoreTimesTotal(m: nat, n: nat, score: real)
    requires n > 0
    ensures ScoreOf(m, n) * (32 * n) as real == (32 * n - m) as real
    ensures score >= ScoreOf(m, n) ==> score * (32 * n) as real >= (32 * n - m) as real
  {
    var total := 32.0 * n as real;
    assert total == (32 * n) as real && m as real / total * total == m as real;
    assert score >= ScoreOf(m, n) ==> score * total >= ScoreOf(m, n) * total;
  }

  lemma {:induction false} ScoreIsShare(slid: seq<Word>, offset: nat, fixed: seq<Word>, n: nat, score: real)
    requires Slides(slid, offset, n) && 0 < n <= |fixed|
    ensures score == ScoreOf(Mismatch(slid, offset, fixed, n), n) ==> ShareOfEqualBits(score, slid, offset, fixed, n)
    ensures score >= ScoreOf(Mismatch(slid, offset, fixed, n), n) ==> AtLeastShare(score, slid, offset, fixed, n)
  {
    MismatchExactly(slid, offset, fixed, n);
    ScoreTimesTotal(Mismatch(slid, offset, fixed, n), n, score);
  }

  /** In terms of the frames' bits alone: there is no score when either side has fewer than
      64 frames; otherwise the first 256 frames or all of the shorter side are compared,
      the score is the share of equal bits at some slide of either side by up to 320
      frames, and no such slide has a larger share.
   */
  lemma {:induction false} SimilarityExactly(a: seq<Word>, b: seq<Word>, n: nat)
    requires n <= |a| && n <= |b| && n <= 256 && n in {|a|, |b|, 256}
    ensures Similarity(a, b).None? <==> n < 64
    ensures n >= 64 ==>
              var score := Similarity(a, b).value;
              || (exists o: nat :: Slides(a, o, n) && ShareOfEqualBits(score, a, o, b, n))
              || (exists o: nat :: Slides(b, o, n) && ShareOfEqualBits(score, b, o, a, n))
    ensures n >= 64 ==>
              var score := Similarity(a, b).value;
              && (forall o: nat :: Slides(a, o, n) ==> AtLeastShare(score, a, o, b, n))
              && (forall o: nat :: Slides(b, o, n) ==> AtLeastShare(score, b, o, a, n))
  {
    assert n == Overlap(a, b);
    if n >= 64 {
      SimilarityIsBest(a, b);
      var score := Similarity(a, b).value;
      var at :| Allowed(a, b, at) && Similarity(a, b) == Some(ScoreOf(MismatchAt(a, b, at), n));
      if at.swapped {
        ScoreIsShare(b, at.offset, a, n, score);
      } else {
        ScoreIsShare(a, at.offset, b, n, score);
      }
      forall o: nat | Slides(a, o, n)
        ensures AtLeastShare(score, a, o, b, n)
      {
        assert Allowed(a, b, Alignment(false, o));
        ScoreIsShare(a, o, b, n, score);
      }
      forall o: nat | Slides(b, o, n)
        ensures AtLeastShare(score, b, o, a, n)
      {
        assert Allowed(a, b, Alignment(true, o));
        ScoreIsShare(b, o, a, n, score);
      }
    }
  }

  /** Comparing the other way round gives the same answer. */
  lemma {:induction false} SimilarityIsSymmetric(a: seq<Word>, b: seq<Word>)
    ensures Similarity(a, b) == Similarity(b, a)
  {
  }

  predicate FramesAgree(slid: seq<Word>, offset: nat, fixed: seq<Word>, n: nat)
    requires offset + n <= |slid| && n <= |fixed|
  {
    forall i :: 0 <= i < n ==> slid[offset + i] == fixed[i]
  }

  predicate AgreesAt(a: seq<Word>, b: seq<Word>, at: Alignment)
    requires Allowed(a, b, at)
  {
    if at.swapped then FramesAgree(b, at.offset, a, Overlap(a, b)) else FramesAgree(a, at.offset, b, Overlap(a, b))
  }

  lemma {:induction false} MismatchFacts(slid: seq<Word>, offset: nat, fixed: seq<Word>, n: nat)
    requires offset + n <= |slid| && n <= |fixed|
    ensures Mismatch(slid, offset, fixed, n) <= 32 * n
    ensures Mismatch(slid, offset, fixed, n) == 0 <==> FramesAgree(slid, offset, fixed, n)
    decreases n
  {
    if n > 0 {
      MismatchFacts(slid, offset, fixed, n - 1);
      BitDiffFacts(slid[offset + n - 1], fixed[n - 1]);
    }
  }

  lemma {:induction false} ScoreRange(m: nat, overlap: nat)
    requires overlap > 0 && m <= 32 * overlap
    ensures 0.0 <= ScoreOf(m, overlap) <= 1.0
    ensures ScoreOf(m, overlap) == 1.0 <==> m == 0
  {
  }

  /** A defined similarity lies in [0, 1], and is 1 exactly when some allowed
      alignment agrees on every compared frame. */
  lemma {:induction false} PerfectExactlyWhenAligned(a: seq<Word>, b: seq<Word>)
    requires Overlap(a, b) >= MIN_OVERLAP_FRAMES
    ensures 0.0 <= Similarity(a, b).value <= 1.0
    ensures Similarity(a, b) == Some(1.0) <==> exists at :: Allowed(a, b, at) && AgreesAt(a, b, at)
  {
    var overlap := Overlap(a, b);
    SimilarityIsBest(a, b);
    forall at | Allowed(a, b, at)
      ensures MismatchAt(a, b, at) <= 32 * overlap && (MismatchAt(a, b, at) == 0 <==> AgreesAt(a, b, at))
    {
      MismatchFacts(if at.swapped then b else a, at.offset, if at.swapped then a else b, overlap);
    }
    var best :| Allowed(a, b, best) && Similarity(a, b) == Some(ScoreOf(MismatchAt(a, b, best), overlap));
    ScoreRange(MismatchAt(a, b, best), overlap);
    if at :| Allowed(a, b, at) && AgreesAt(a, b, at) {
      ScoreRange(MismatchAt(a, b, at), overlap);
    }
  }

  /** A copy with up to 320 leading frames removed, and at least 64 left, is a perfect match. */
  lemma {:induction false} TrimmedCopyIsPerfect(a: seq<Word>, k: nat)
    requires k <= 320 && k + 64 <= |a|
    ensures Similarity(a, a[k..]) == Some(1.0)
  {
    var b := a[k..];
    var at := Alignment(false, k);
    assert Allowed(a, b, at) && AgreesAt(a, b, at);
    PerfectExactlyWhenAligned(a, b);
  }

  // ── The loops ──────────────────────────────────────────────────────────────

  method WindowMismatch(slid: seq<Word>, offset: nat, fixed: seq<Word>, overlap: nat) returns (m: nat)
    requires offset + overlap <= |slid| && overlap <= |fixed|
    ensures m == Mismatch(slid, offset, fixed, overlap)
  {
    m := 0;
    for i := 0 to overlap
      invariant m == Mismatch(slid, offset, fixed, i)
    {
      m := m + PopCount(Xor(slid[offset + i], fixed[i]));
    }
  }

  method LeastMismatch(slid: seq<Word>, fixed: seq<Word>, overlap: nat, span: nat) returns (least: nat)
    requires span + overlap <= |slid| && overlap <= |fixed|
    ensures least == Least(slid, fixed, overlap, span)
  {
    least := WindowMismatch(slid, 0, fixed, overlap);
    for o := 1 to span + 1
      invariant least == Least(slid, fixed, overlap, o - 1)
    {
      var m := WindowMismatch(slid, o, fixed, overlap);
      if m < least {
        least := m;
      }
    }
  }

  /** audio_similarity_frames: both slide directions, keeping the best score. */
  method AudioSimilarityFrames(a: seq<Word>, b: seq<Word>) returns (score: Option<real>)
    ensures score == Similarity(a, b)
  {
    var overlap := Overlap(a, b);
    if overlap < MIN_OVERLAP_FRAMES {
      return None;
    }
    var best := 0.0;
    var ma := LeastMismatch(a, b, overlap, Span(a, overlap));
    best := MaxReal(best, ScoreOf(ma, overlap));
    var mb := LeastMismatch(b, a, overlap, Span(b, overlap));
    best := MaxReal(best, ScoreOf(mb, overlap));
    PerfectExactlyWhenAligned(a, b);
    ScoreDecreases(ma, mb, overlap);
    ScoreDecreases(mb, ma, overlap);
    return Some(best);
  }

  function MaxReal(a: real, b: real): real {
    if b > a then b else a
  }

  // ── Is a fingerprint informative enough? ───────────────────────────────────

  function Ones(frames: seq<Word>, i: nat): nat {
    if frames == [] then 0 else Ones(frames[..|frames| - 1], i) + Bit(frames[|frames| - 1], i)
  }

  /** 4·p·(1 - p) summed over the first n bit positions, times the squared number of frames. */
  function SpreadSum(frames: seq<Word>, n: nat): int {
    if n == 0 then 0
    else
      var ones := Ones(frames, n - 1);
      SpreadSum(frames, n - 1) + 4 * ones * (|frames| - ones)
  }

  /** audio_fingerprint_usable: enough frames, and a mean bit variance of at least one half. */
  predicate Usable(frames: seq<Word>) {
    |frames| >= MIN_OVERLAP_FRAMES && 2 * SpreadSum(frames, 32) >= 32 * |frames| * |frames|
  }

  /** The frames in which bit i is set. */
  function FramesWith(frames: seq<Word>, i: nat): set<nat> {
    set j: nat | j < |frames| && Bit(frames[j], i) == 1
  }

  lemma {:induction false} OnesExactly(frames: seq<Word>, i: nat)
    ensures Ones(frames, i) == |FramesWith(frames, i)|
    decreases |frames|
  {
    if frames == [] {
      assert FramesWith(frames, i) == {};
    } else {
      var n := |frames| - 1;
      OnesExactly(frames[..n], i);
      assert FramesWith(frames, i) == FramesWith(frames[..n], i) + if Bit(frames[n], i) == 1 then {n} else {};
    }
  }

  /** 4·p·(1 - p) for the share p of so many ones. */
  function BitSpread(ones: nat, total: nat): real
    requires total > 0
  {
    var p := ones as real / total as real;
    4.0 * p * (1.0 - p)
  }

  /** The spread of each of the first n bits over the frames, added up. */
  function SpreadOf(frames: seq<Word>, n: nat): real
    requires frames != []
  {
    if n == 0 then 0.0 else SpreadOf(frames, n - 1) + BitSpread(|FramesWith(frames, n - 1)|, |frames|)
  }

  lemma {:induction false} OneBitsSpread(ones: nat, total: nat)
    requires total > 0
    ensures BitSpread(ones, total) * (total * total) as real == (4 * ones * (total - ones)) as real
  {
    var p, t := ones as real / total as real, total as real;
    assert p * t == ones as real;
    assert 4.0 * p * (1.0 - p) * (t * t) == 4.0 * (p * t) * (t - p * t);
  }

  predicate Scales(spread: real, frames: nat, scaled: int) {
    spread * (frames * frames) as real == scaled as real
  }

  function ScaledSpread(ones: int, total: int): int {
    4 * ones * (total - ones)
  }

  lemma {:induction false} BitScales(ones: nat, total: nat)
    requires total > 0
    ensures Scales(BitSpread(ones, total), total, ScaledSpread(ones, total))
  {
    OneBitsSpread(ones, total);
  }

  lemma {:induction false} ScalesAdd(x: real, y: real, frames: nat, a: int, b: int)
    requires Scales(x, frames, a) && Scales(y, frames, b)
    ensures Scales(x + y, frames, a + b)
  {
    var square := (frames * frames) as real;
    assert (x + y) * square == x * square + y * square;
  }

  lemma {:induction false} SpreadScales(frames: seq<Word>, n: nat)
    requires frames != []
    ensures Scales(SpreadOf(frames, n), |frames|, SpreadSum(frames, n))
    decreases n
  {
    if n > 0 {
      OnesExactly(frames, n - 1);
      SpreadScales(frames, n - 1);
      BitScales(Ones(frames, n - 1), |frames|);
      ScalesAdd(SpreadOf(frames, n - 1), BitSpread(Ones(frames, n - 1), |frames|), |frames|,
                SpreadSum(frames, n - 1), ScaledSpread(Ones(frames, n - 1), |frames|));
    }
  }

  /** Usable means at least 64 frames and a mean spread over the 32 bits of at least one half. */
  lemma {:induction false} UsableExactly(frames: seq<Word>)
    requires frames != []
    ensures Usable(frames) <==> |frames| >= 64 && SpreadOf(frames, 32) / 32.0 >= 0.5
  {
    var square := (|frames| * |frames|) as real;
    SpreadScales(frames, 32);
    assert square > 0.0;
    assert SpreadOf(frames, 32) >= 16.0 <==> SpreadOf(frames, 32) * square >= 16.0 * square;
  }

  // ── Usable means that frames differ from each other ────────────────────────

  /** The bits, counted frame by frame, in which x differs from the frames. */
  function DifferencesTo(frames: seq<Word>, x: Word): nat {
    if frames == [] then 0
    else DifferencesTo(frames[..|frames| - 1], x) + |DifferingBits(frames[|frames| - 1], x, 32)|
  }

  /** The same over all pairs of frames. */
  function DifferencesAmong(frames: seq<Word>): nat {
    if frames == [] then 0
    else DifferencesAmong(frames[..|frames| - 1]) + DifferencesTo(frames[..|frames| - 1], frames[|frames| - 1])
  }

  /** For each of the first n bits, the frames whose bit is not x's. */
  function BitwiseGap(frames: seq<Word>, x: Word, n: nat): int {
    if n == 0 then 0
    else
      var ones := Ones(frames, n - 1);
      BitwiseGap(frames, x, n - 1) + if Bit(x, n - 1) == 1 then |frames| - ones else ones
  }

  lemma {:induction false} GapOfMore(frames: seq<Word>, y: Word, x: Word, n: nat)
    ensures BitwiseGap(frames + [y], x, n) == BitwiseGap(frames, x, n) + |DifferingBits(y, x, n)|
    decreases n
  {
    assert (frames + [y])[..|frames|] == frames;
    if n == 0 {
      assert DifferingBits(y, x, 0) == {};
    } else {
      GapOfMore(frames, y, x, n - 1);
      TopBit(y, x, n - 1);
    }
  }

  lemma {:induction false} GapOfNone(x: Word, n: nat)
    ensures BitwiseGap([], x, n) == 0
    decreases n
  {
    if n > 0 {
      GapOfNone(x, n - 1);
    }
  }

  lemma {:induction false} GapCountsDifferences(frames: seq<Word>, x: Word)
    ensures BitwiseGap(frames, x, 32) == DifferencesTo(frames, x)
    decreases |frames|
  {
    if frames == [] {
      GapOfNone(x, 32);
    } else {
      var front, last := frames[..|frames| - 1], frames[|frames| - 1];
      GapCountsDifferences(front, x);
      GapOfMore(front, last, x, 32);
      assert frames == front + [last];
    }
  }

  lemma {:induction false} SpreadOfMore(frames: seq<Word>, x: Word, n: nat)
    ensures SpreadSum(frames + [x], n) == SpreadSum(frames, n) + 4 * BitwiseGap(frames, x, n)
    decreases n
  {
    assert (frames + [x])[..|frames|] == frames;
    if n > 0 {
      SpreadOfMore(frames, x, n - 1);
      SpreadStep(Ones(frames, n - 1), |frames|, Bit(x, n - 1));
    }
  }

  lemma {:induction false} SpreadStep(ones: int, total: int, bit: int)
    requires 0 <= bit <= 1
    ensures 4 * (ones + bit) * (total + 1 - (ones + bit))
         == 4 * ones * (total - ones) + 4 * if bit == 1 then total - ones else ones
  {
  }

  lemma {:induction false} SpreadOfNone(n: nat)
    ensures SpreadSum([], n) == 0
    decreases n
  {
    if n > 0 {
      SpreadOfNone(n - 1);
    }
  }

  lemma {:induction false} SpreadCountsDifferences(frames: seq<Word>)
    ensures SpreadSum(frames, 32) == 4 * DifferencesAmong(frames)
    decreases |frames|
  {
    if frames == [] {
      SpreadOfNone(32);
    } else {
      var front, last := frames[..|frames| - 1], frames[|frames| - 1];
      SpreadCountsDifferences(front);
      SpreadOfMore(front, last, 32);
      GapCountsDifferences(front, last);
      assert frames == front + [last];
    }
  }

  /** The spread test asks that frames differ from one another: n frames are usable when
      there are at least 64 and their pairs differ in at least 4n² bits altogether, about
      a quarter of the bits of an average pair.
   */
  lemma {:induction false} UsableMeansFramesDiffer(frames: seq<Word>)
    ensures Usable(frames) <==> |frames| >= 64 && DifferencesAmong(frames) >= 4 * |frames| * |frames|
  {
    SpreadCountsDifferences(frames);
    HalfOfSpread(SpreadSum(frames, 32), DifferencesAmong(frames), |frames|);
  }

  lemma {:induction false} HalfOfSpread(spread: int, differences: int, n: nat)
    requires spread == 4 * differences
    ensures 2 * spread >= 32 * n * n <==> differences >= 4 * n * n
  {
    var square := n * n;
    assert 32 * n * n == 32 * square && 4 * n * n == 4 * square;
  }

  /** Two usable fingerprints always have a score. */
  lemma {:induction false} UsablePairHasScore(a: seq<Word>, b: seq<Word>)
    requires Usable(a) && Usable(b)
    ensures Similarity(a, b).Some?
  {
  }

  lemma {:induction false} OnesOfConstant(frames: seq<Word>, x: Word, i: nat)
    requires forall j :: 0 <= j < |frames| ==> frames[j] == x
    ensures Ones(frames, i) == if Bit(x, i) == 1 then |frames| else 0
    decreases |frames|
  {
    if frames != [] {
      OnesOfConstant(frames[..|frames| - 1], x, i);
    }
  }

  lemma {:induction false} ConstantHasNoSpread(frames: seq<Word>, x: Word, n: nat)
    requires forall j :: 0 <= j < |frames| ==> frames[j] == x
    ensures SpreadSum(frames, n) == 0
    decreases n
  {
    if n > 0 {
      ConstantHasNoSpread(frames, x, n - 1);
      OnesOfConstant(frames, x, n - 1);
    }
  }

  /** Silence and steady tones, one frame repeated, are never usable. */
  lemma {:induction false} ConstantIsUnusable(frames: seq<Word>, x: Word)
    requires forall j :: 0 <= j < |frames| ==> frames[j] == x
    ensures !Usable(frames)
  {
    ConstantHasNoSpread(frames, x, 32);
    if |frames| >= MIN_OVERLAP_FRAMES {
      assert 32 * |frames| * |frames| > 0;
    }
  }
}
