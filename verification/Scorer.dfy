/**
  The risk score of a session: weighted counters, suppression of content-same writes, the cap on
  delete-only sessions and the cap on a single behavioural dimension.
 */
module Scorer {
  import opened Base
  import opened Session

  datatype Weights = Weights(
    modified: int,
    renamed: int,
    deleted: int,
    dirs: int,
    extChanged: int,
    ransomExt: int,
    highEntropy: int,
    yaraMatch: int)

  datatype Thresholds = Thresholds(warn: int, high: int, critical: int)

  datatype Scoring = Scoring(weights: Weights, thresholds: Thresholds)

  /** What loading the configuration demands of thresholds and weights. */
  predicate Validated(p: Scoring) {
    var t, w := p.thresholds, p.weights;
    && 1 <= t.warn < t.high < t.critical <= 100
    && 0 <= w.modified && 0 <= w.renamed && 0 <= w.deleted && 0 <= w.dirs
    && 0 <= w.extChanged && 0 <= w.ransomExt && 0 <= w.highEntropy && 0 <= w.yaraMatch
  }

  /** An `int` holds every weight. */
  predicate IntWeights(w: Weights) {
    && w.modified <= INT32_MAX && w.renamed <= INT32_MAX && w.deleted <= INT32_MAX && w.dirs <= INT32_MAX
    && w.extChanged <= INT32_MAX && w.ransomExt <= INT32_MAX && w.highEntropy <= INT32_MAX && w.yaraMatch <= INT32_MAX
  }

  /** Counters whose hundredfold fits 32 bits. */
  predicate Small(n: nat) { n * 100 < TWO_32 }

  predicate SmallCounters(c: Counters, dirs: nat) {
    && Small(c.modified) && Small(c.renamed) && Small(c.deleted) && Small(c.extChanged)
    && Small(c.ransomExt) && Small(c.contentSame) && Small(dirs)
  }

  //
  // scorer_calculate, stage by stage
  //

  function Once(n: nat): (r: int) { if n > 0 then 1 else 0 }

  function Raw(w: Weights, c: Counters, dirs: nat): (score: int) {
    c.modified * w.modified + c.renamed * w.renamed + c.deleted * w.deleted + dirs * w.dirs
    + c.extChanged * w.extChanged + c.ransomExt * w.ransomExt
    + Once(c.highEntropy) * w.highEntropy + Once(c.yaraMatch) * w.yaraMatch
  }

  /** The percentage of content-same writes in `unsigned` arithmetic; 0 where it is not computed. */
  function PercentSame(c: Counters): (r: int) {
    var total := (c.modified + c.contentSame) % TWO_32;
    if total > 0 && c.contentSame > 0 then (c.contentSame * 100) % TWO_32 / total else 0
  }

  function Suppress(score: int, percent: int, warn: int): (r: int) {
    if percent >= 80 then 0 else if percent >= 50 then Min(score, warn - 1) else score
  }

  function Clamp(v: int): (r: int)
    ensures 0 <= r <= 100
  {
    if v < 0 then 0 else if v > 100 then 100 else v
  }

  predicate DeleteOnly(c: Counters) {
    && c.modified == 0 && c.renamed == 0 && c.extChanged == 0 && c.ransomExt == 0
    && c.highEntropy == 0 && c.yaraMatch == 0 && c.deleted > 0
  }

  function Dimensions(c: Counters, dirs: nat): (n: nat) {
    (if c.modified > 0 then 1 else 0) + (if c.renamed > 0 then 1 else 0) + (if c.deleted > 0 then 1 else 0)
    + (if dirs > 0 then 1 else 0) + (if c.extChanged > 0 then 1 else 0)
  }

  predicate OneDimension(c: Counters, dirs: nat) { Dimensions(c, dirs) == 1 && c.ransomExt == 0 }

  /** The caps on the weighted sum, in the order in which they apply. */
  function Capped(t: Thresholds, raw: int, c: Counters, dirs: nat): (r: int) {
    var a := Clamp(Suppress(raw, PercentSame(c), t.warn));
    var b := if DeleteOnly(c) then Min(a, 60) else a;
    if OneDimension(c, dirs) then Min(b, t.critical - 1) else b
  }

  /** The score as a function of the counters. */
  function Score(p: Scoring, c: Counters, dirs: nat): (r: int) {
    Capped(p.thresholds, Raw(p.weights, c, dirs), c, dirs)
  }

  function Level(t: Thresholds, score: int): (r: RiskLevel) {
    if score >= t.critical then Critical
    else if score >= t.high then High
    else if score >= t.warn then Suspicious
    else Normal
  }

  /** The weighted sum, term by term. */
  method Sum(w: Weights, c: Counters, dirs: nat) returns (score: int)
    ensures score == Raw(w, c, dirs)
  {
    score := c.modified * w.modified;
    score := score + c.renamed * w.renamed;
    score := score + c.deleted * w.deleted;
    score := score + dirs * w.dirs;
    score := score + c.extChanged * w.extChanged;
    score := score + c.ransomExt * w.ransomExt;
    if c.highEntropy > 0 {
      score := score + w.highEntropy;
    }
    if c.yaraMatch > 0 {
      score := score + w.yaraMatch;
    }
  }

  method SuppressSame(raw: int, c: Counters, warn: int) returns (score: int)
    ensures score == Suppress(raw, PercentSame(c), warn)
  {
    score := raw;
    var totalWrites := (c.modified + c.contentSame) % TWO_32;
    if totalWrites > 0 && c.contentSame > 0 {
      var percent := (c.contentSame * 100) % TWO_32 / totalWrites;
      if percent >= 80 {
        score := 0;
      } else if percent >= 50 {
        var cap := warn - 1;
        if score > cap {
          score := cap;
        }
      }
    }
  }

  /** `scorer_calculate`: only the score and the level of the session change. */
  method Calculate(cell: Cell, p: Scoring)
    modifies cell
    ensures var score := Score(p, old(cell.s).counts, old(cell.s).touchedDirs);
            cell.s == old(cell.s).(score := score, level := Level(p.thresholds, score))
  {
    var c, t := cell.s.counts, p.thresholds;
    var score := Sum(p.weights, c, cell.s.touchedDirs);
    score := SuppressSame(score, c, t.warn);
    score := Clamp(score);
    if DeleteOnly(c) && score > 60 {
      score := 60;
    }
    var dims := 0;
    if c.modified > 0 { dims := dims + 1; }
    if c.renamed > 0 { dims := dims + 1; }
    if c.deleted > 0 { dims := dims + 1; }
    if cell.s.touchedDirs > 0 { dims := dims + 1; }
    if c.extChanged > 0 { dims := dims + 1; }
    assert dims == Dimensions(c, cell.s.touchedDirs);
    var evidence := c.ransomExt > 0;
    if dims == 1 && !evidence {
      var cap := t.critical - 1;
      if score > cap {
        score := cap;
      }
    }
    cell.s := cell.s.(score := score);
    if score >= t.critical {
      cell.s := cell.s.(level := Critical);
    } else if score >= t.high {
      cell.s := cell.s.(level := High);
    } else if score >= t.warn {
      cell.s := cell.s.(level := Suspicious);
    } else {
      cell.s := cell.s.(level := Normal);
    }
  }

  //
  // What the score promises
  //

  /** The integer percentage meets its marks exactly where the true ratio does. */
  lemma PercentExact(c: Counters)
    requires Small(c.modified) && Small(c.contentSame)
    ensures PercentSame(c) >= 80 <==> c.contentSame > 0 && 5 * c.contentSame >= 4 * (c.modified + c.contentSame)
    ensures PercentSame(c) >= 50 <==> c.contentSame > 0 && 2 * c.contentSame >= c.modified + c.contentSame
  {
    var total := c.modified + c.contentSame;
    Unwrapped(c.contentSame * 100);
    Unwrapped(total);
    if c.contentSame > 0 {
      AtLeast(c.contentSame * 100, total, 80);
      AtLeast(c.contentSame * 100, total, 50);
    }
  }

  lemma Unwrapped(n: nat)
    requires n < TWO_32
    ensures n % TWO_32 == n
  {
  }

  lemma AtLeast(a: nat, b: nat, k: nat)
    requires b > 0
    ensures a / b >= k <==> a >= k * b
  {
    var q := a / b;
    assert q * b <= a < (q + 1) * b;
    if q >= k {
      assert q * b >= k * b;
    } else {
      assert (q + 1) * b <= k * b;
    }
  }

  lemma Product(n: nat, w: int, bound: nat)
    requires 0 <= w <= bound
    ensures 0 <= n * w <= n * bound
  {
  }

  /** The sum in a 64-bit `long` does not overflow. */
  lemma RawFits(p: Scoring, c: Counters, dirs: nat)
    requires Validated(p) && IntWeights(p.weights) && SmallCounters(c, dirs)
    ensures 0 <= Raw(p.weights, c, dirs) < TWO_64 / 2
  {
    var w := p.weights;
    Product(c.modified, w.modified, INT32_MAX);
    Product(c.renamed, w.renamed, INT32_MAX);
    Product(c.deleted, w.deleted, INT32_MAX);
    Product(dirs, w.dirs, INT32_MAX);
    Product(c.extChanged, w.extChanged, INT32_MAX);
    Product(c.ransomExt, w.ransomExt, INT32_MAX);
  }

  //
  // What each counter is worth
  //

  /** No activity weighs nothing. */
  lemma NothingIsZero(w: Weights)
    ensures Raw(w, Counters(0, 0, 0, 0, 0, 0, 0, 0), 0) == 0
  {
  }

  lemma OneTimesMore(n: nat, w: int)
    ensures (n + 1) * w == n * w + w
  {
  }

  /**
    What one more event of each kind adds to the sum: its own weight, and for the two content
    signals their weight on the first hit only. With `NothingIsZero` this is the whole sum.
   */
  lemma OneMoreAdds(w: Weights, c: Counters, dirs: nat)
    ensures Raw(w, c.(modified := c.modified + 1), dirs) == Raw(w, c, dirs) + w.modified
    ensures Raw(w, c.(renamed := c.renamed + 1), dirs) == Raw(w, c, dirs) + w.renamed
    ensures Raw(w, c.(deleted := c.deleted + 1), dirs) == Raw(w, c, dirs) + w.deleted
    ensures Raw(w, c, dirs + 1) == Raw(w, c, dirs) + w.dirs
    ensures Raw(w, c.(extChanged := c.extChanged + 1), dirs) == Raw(w, c, dirs) + w.extChanged
    ensures Raw(w, c.(ransomExt := c.ransomExt + 1), dirs) == Raw(w, c, dirs) + w.ransomExt
    ensures Raw(w, c.(highEntropy := c.highEntropy + 1), dirs)
         == Raw(w, c, dirs) + (if c.highEntropy == 0 then w.highEntropy else 0)
    ensures Raw(w, c.(yaraMatch := c.yaraMatch + 1), dirs)
         == Raw(w, c, dirs) + (if c.yaraMatch == 0 then w.yaraMatch else 0)
    ensures Raw(w, c.(contentSame := c.contentSame + 1), dirs) == Raw(w, c, dirs)
  {
    OneTimesMore(c.modified, w.modified);
    OneTimesMore(c.renamed, w.renamed);
    OneTimesMore(c.deleted, w.deleted);
    OneTimesMore(dirs, w.dirs);
    OneTimesMore(c.extChanged, w.extChanged);
    OneTimesMore(c.ransomExt, w.ransomExt);
  }

  /** A kind of evidence that is counted: five behavioural dimensions, and ransom extensions. */
  datatype Kind = Modified | Renamed | Deleted | Dirs | ExtChanged | RansomExt

  /** How much there is of it, and what each is worth. */
  function Amount(c: Counters, dirs: nat, k: Kind): (n: nat) {
    match k
    case Modified => c.modified
    case Renamed => c.renamed
    case Deleted => c.deleted
    case Dirs => dirs
    case ExtChanged => c.extChanged
    case RansomExt => c.ransomExt
  }

  function Worth(w: Weights, k: Kind): (n: int) {
    match k
    case Modified => w.modified
    case Renamed => w.renamed
    case Deleted => w.deleted
    case Dirs => w.dirs
    case ExtChanged => w.extChanged
    case RansomExt => w.ransomExt
  }

  /**
    A session is critical exactly when its weighted sum reaches the critical threshold, fewer than
    half of its writes left the content as it was, it does not rest on one behavioural dimension
    without a ransom extension, and, if all it did was delete, the threshold is within the fixed
    cap of 60.
   */
  lemma CriticalIff(p: Scoring, c: Counters, dirs: nat)
    requires Validated(p) && Small(c.modified) && Small(c.contentSame)
    ensures Level(p.thresholds, Score(p, c, dirs)).Critical? <==>
            && Raw(p.weights, c, dirs) >= p.thresholds.critical
            && (c.contentSame == 0 || 2 * c.contentSame < c.modified + c.contentSame)
            && !OneDimension(c, dirs)
            && (DeleteOnly(c) ==> p.thresholds.critical <= 60)
  {
    PercentExact(c);
  }

  lemma ScoreInRange(p: Scoring, c: Counters, dirs: nat)
    requires Validated(p)
    ensures 0 <= Score(p, c, dirs) <= 100
  {
  }

  /** Half or more content-same writes: the session is normal. */
  lemma ContentSameIsNormal(p: Scoring, c: Counters, dirs: nat)
    requires Validated(p) && Small(c.modified) && Small(c.contentSame)
    requires c.contentSame > 0 && 2 * c.contentSame >= c.modified + c.contentSame
    ensures Level(p.thresholds, Score(p, c, dirs)).Normal?
  {
    PercentExact(c);
  }

  /**
    The suppression holds up exactly while the hundredfold of the content-same writes fits 32 bits:
    from there on the percentage wraps, at the latest for a session with no other write.
   */
  lemma SuppressesIffSmall(s: nat)
    requires 0 < s < TWO_32
    ensures Small(s) <==> forall c: Counters :: c.contentSame == s && c.modified <= s ==> PercentSame(c) >= 50
  {
    if Small(s) {
      forall c: Counters | c.contentSame == s && c.modified <= s ensures PercentSame(c) >= 50 {
        PercentExact(c);
      }
    } else {
      WrapsWhenLarge(s, NO_COUNTS.(contentSame := s));
    }
  }

  lemma WrapsWhenLarge(s: nat, c: Counters)
    requires 0 < s < TWO_32 && !Small(s) && c.contentSame == s && c.modified == 0
    ensures PercentSame(c) < 50
  {
    Unwrapped(s);
    var wrapped := s * 100 % TWO_32;
    assert wrapped < 50 * s by {
      if 50 * s < TWO_32 {
        assert wrapped == s * 100 - TWO_32;
      }
    }
    AtLeast(wrapped, s, 50);
  }

  /** Past 2^32 / 100 content-same writes the percentage wraps and the suppression is lost. */
  lemma WrapLosesSuppression()
    ensures var c := NO_COUNTS.(modified := 7, contentSame := 42949673);
            var p := Scoring(Weights(10, 0, 0, 20, 0, 0, 0, 0), Thresholds(30, 60, 85));
            && Validated(p) && 2 * c.contentSame >= c.modified + c.contentSame
            && Level(p.thresholds, Score(p, c, 1)).Critical?
  {
    var c := NO_COUNTS.(modified := 7, contentSame := 42949673);
    assert (c.contentSame * 100) % TWO_32 == 4;
    assert PercentSame(c) == 0;
  }

  lemma KindWeighs(p: Scoring, c: Counters, dirs: nat, k: Kind)
    requires Validated(p)
    ensures 0 <= Amount(c, dirs, k) * Worth(p.weights, k)
  {
    Product(Amount(c, dirs, k), Worth(p.weights, k), Worth(p.weights, k));
  }

  /** The sum is no less than what any two kinds weigh together. */
  lemma TwoKindsWeigh(p: Scoring, c: Counters, dirs: nat, a: Kind, b: Kind)
    requires Validated(p) && a != b
    ensures Raw(p.weights, c, dirs) >= Amount(c, dirs, a) * Worth(p.weights, a) + Amount(c, dirs, b) * Worth(p.weights, b)
  {
    forall k: Kind ensures 0 <= Amount(c, dirs, k) * Worth(p.weights, k) {
      KindWeighs(p, c, dirs, k);
    }
    var w := p.weights;
    assert Raw(w, c, dirs) >= Amount(c, dirs, Modified) * Worth(w, Modified) + Amount(c, dirs, Renamed) * Worth(w, Renamed)
      + Amount(c, dirs, Deleted) * Worth(w, Deleted) + Amount(c, dirs, Dirs) * Worth(w, Dirs)
      + Amount(c, dirs, ExtChanged) * Worth(w, ExtChanged) + Amount(c, dirs, RansomExt) * Worth(w, RansomExt);
  }

  /**
    Two kinds of evidence that together weigh the critical threshold make a session critical, unless
    it wrote contents back; deletions and the directories they touched only below the fixed cap.
   */
  lemma TwoKindsAreCritical(p: Scoring, c: Counters, dirs: nat, a: Kind, b: Kind)
    requires Validated(p) && c.contentSame == 0 && a != b && Amount(c, dirs, a) > 0 && Amount(c, dirs, b) > 0
    requires Amount(c, dirs, a) * Worth(p.weights, a) + Amount(c, dirs, b) * Worth(p.weights, b) >= p.thresholds.critical
    requires {a, b} == {Deleted, Dirs} ==> p.thresholds.critical <= 60
    ensures Level(p.thresholds, Score(p, c, dirs)).Critical?
  {
    TwoKindsWeigh(p, c, dirs, a, b);
    assert PercentSame(c) == 0;
    if DeleteOnly(c) {
      assert {a, b} == {Deleted, Dirs};
    }
  }

  /** Ransom extensions that weigh the critical threshold make a session critical by themselves. */
  lemma RansomAloneIsCritical(p: Scoring, c: Counters, dirs: nat)
    requires Validated(p) && c.contentSame == 0 && c.ransomExt > 0
    requires c.ransomExt * p.weights.ransomExt >= p.thresholds.critical
    ensures Level(p.thresholds, Score(p, c, dirs)).Critical?
  {
    TwoKindsWeigh(p, c, dirs, RansomExt, Modified);
    KindWeighs(p, c, dirs, Modified);
    assert PercentSame(c) == 0;
  }

  /** A single dimension, however much of it and whatever the content signals, stays below critical. */
  lemma OneKindIsCapped(p: Scoring, c: Counters, dirs: nat, k: Kind)
    requires Validated(p) && k != RansomExt && Amount(c, dirs, k) > 0
    requires forall other: Kind :: other != k ==> Amount(c, dirs, other) == 0
    ensures Score(p, c, dirs) < p.thresholds.critical
  {
    assert forall other: Kind :: other != k ==> Amount(c, dirs, other) == 0;
    assert k != Modified ==> Amount(c, dirs, Modified) == 0;
    assert k != Renamed ==> Amount(c, dirs, Renamed) == 0;
    assert k != Deleted ==> Amount(c, dirs, Deleted) == 0;
    assert k != Dirs ==> Amount(c, dirs, Dirs) == 0;
    assert k != ExtChanged ==> Amount(c, dirs, ExtChanged) == 0;
    assert Amount(c, dirs, RansomExt) == 0;
  }

  /** With no dimension at all the content signals are scored as they are. */
  lemma SignalsAloneScore(p: Scoring, c: Counters)
    requires Validated(p) && c.contentSame == 0 && forall k: Kind :: Amount(c, 0, k) == 0
    ensures Score(p, c, 0) == Min(100, (if c.highEntropy > 0 then p.weights.highEntropy else 0)
                                       + (if c.yaraMatch > 0 then p.weights.yaraMatch else 0))
  {
    assert Amount(c, 0, Modified) == 0 && Amount(c, 0, Renamed) == 0 && Amount(c, 0, Deleted) == 0;
    assert Amount(c, 0, ExtChanged) == 0 && Amount(c, 0, RansomExt) == 0;
    assert PercentSame(c) == 0;
  }

  /** The fixed cap of 60 falls on exactly the sessions that did nothing but delete. */
  lemma SixtyIff(p: Scoring, c: Counters, dirs: nat)
    requires Validated(p) && c.contentSame == 0 && c.deleted > 0
    requires Raw(p.weights, c, dirs) > 60 && p.thresholds.critical > 61
    ensures Score(p, c, dirs) == 60 <==>
            && c.modified == 0 && c.renamed == 0 && c.extChanged == 0 && c.ransomExt == 0
            && c.highEntropy == 0 && c.yaraMatch == 0
  {
    assert PercentSame(c) == 0;
  }

  /** The thresholds, edges included. */
  lemma LevelEdges(t: Thresholds)
    requires 1 <= t.warn < t.high < t.critical <= 100
    ensures Level(t, t.critical) == Critical && Level(t, t.critical - 1) == High
    ensures Level(t, t.high) == High && Level(t, t.high - 1) == Suspicious
    ensures Level(t, t.warn) == Suspicious && Level(t, t.warn - 1) == Normal
    ensures forall s, r :: 0 <= s <= r <= 100 ==> Severity(Level(t, s)) <= Severity(Level(t, r))
  {
  }

  function Severity(l: RiskLevel): (n: nat) {
    match l
    case Normal => 0
    case Suspicious => 1
    case High => 2
    case Critical => 3
  }

  /**
    Without content-same writes the score is the sum, cut at 100; at 60 for a session that only
    deleted; and just below critical for one that rests on a single dimension.
   */
  lemma ScoreIsCutSum(p: Scoring, c: Counters, dirs: nat)
    requires Validated(p) && c.contentSame == 0
    ensures var sum := Raw(p.weights, c, dirs);
            var whole := if DeleteOnly(c) then Min(sum, 60) else Min(sum, 100);
            Score(p, c, dirs) == if OneDimension(c, dirs) then Min(whole, p.thresholds.critical - 1) else whole
  {
    assert PercentSame(c) == 0;
    KindWeighs(p, c, dirs, Modified);
    KindWeighs(p, c, dirs, Renamed);
    KindWeighs(p, c, dirs, Deleted);
    KindWeighs(p, c, dirs, Dirs);
    KindWeighs(p, c, dirs, ExtChanged);
    KindWeighs(p, c, dirs, RansomExt);
  }

  /**
    Four fifths and more content-same writes score nothing; from one half on the score is that of the
    other counters, cut just below the first mark; fewer change nothing.
   */
  lemma SameWritesScore(p: Scoring, c: Counters, dirs: nat)
    requires Validated(p) && Small(c.modified) && Small(c.contentSame) && c.contentSame > 0
    ensures var total, without := c.modified + c.contentSame, Score(p, c.(contentSame := 0), dirs);
            Score(p, c, dirs) == if 5 * c.contentSame >= 4 * total then 0
                                 else if 2 * c.contentSame >= total then Min(without, p.thresholds.warn - 1)
                                 else without
  {
    PercentExact(c);
    NoSameWrites(p, c, dirs);
  }

  lemma NoSameWrites(p: Scoring, c: Counters, dirs: nat)
    requires Validated(p)
    ensures var raw := Raw(p.weights, c, dirs);
            Score(p, c.(contentSame := 0), dirs) == Capped(p.thresholds, raw, c.(contentSame := 0), dirs)
    ensures PercentSame(c.(contentSame := 0)) == 0
  {
    assert Raw(p.weights, c.(contentSame := 0), dirs) == Raw(p.weights, c, dirs);
  }

  /** An instance with the default weights: four renames to a ransom extension in one directory. */
  lemma RansomRenames()
    ensures var p := Scoring(Weights(3, 4, 3, 5, 5, 20, 8, 40), Thresholds(30, 60, 80));
            var c := NO_COUNTS.(renamed := 4, extChanged := 4, ransomExt := 4);
            Validated(p) && Score(p, c, 1) == 100 && Level(p.thresholds, Score(p, c, 1)).Critical?
  {
  }

  predicate Grows(c: Counters, d: Counters) {
    && c.modified <= d.modified && c.renamed <= d.renamed && c.extChanged <= d.extChanged
    && c.ransomExt <= d.ransomExt && c.highEntropy <= d.highEntropy && c.yaraMatch <= d.yaraMatch
  }

  lemma ProductGrows(m: nat, n: nat, w: int)
    requires m <= n && 0 <= w
    ensures m * w <= n * w
  {
  }

  lemma RawGrows(p: Scoring, c: Counters, d: Counters, m: nat, n: nat)
    requires Validated(p) && Grows(c, d) && c.deleted <= d.deleted && m <= n
    ensures Raw(p.weights, c, m) <= Raw(p.weights, d, n)
  {
    var w := p.weights;
    ProductGrows(c.modified, d.modified, w.modified);
    ProductGrows(c.renamed, d.renamed, w.renamed);
    ProductGrows(c.deleted, d.deleted, w.deleted);
    ProductGrows(m, n, w.dirs);
    ProductGrows(c.extChanged, d.extChanged, w.extChanged);
    ProductGrows(c.ransomExt, d.ransomExt, w.ransomExt);
  }

  /** The caps only loosen as anything but deletions grows, unless a first dimension appears. */
  lemma CapsLoosen(t: Thresholds, raw: int, raw': int, c: Counters, d: Counters, m: nat, n: nat)
    requires c.contentSame == 0 && d.contentSame == 0
    requires Grows(c, d) && c.deleted == d.deleted && m <= n && raw <= raw'
    requires OneDimension(d, n) && !OneDimension(c, m) ==> raw < t.critical && 0 < t.critical
    ensures Capped(t, raw, c, m) <= Capped(t, raw', d, n)
  {
    assert PercentSame(c) == 0 && PercentSame(d) == 0;
    assert DeleteOnly(d) ==> DeleteOnly(c);
  }

  /** With no dimension and no ransom extension only the content signals count. */
  lemma SignalsAlone(p: Scoring, c: Counters, m: nat)
    requires Validated(p) && Dimensions(c, m) == 0 && c.ransomExt == 0
    ensures Raw(p.weights, c, m) <= p.weights.highEntropy + p.weights.yaraMatch
  {
  }

  /**
    With no content-same writes, more of anything but deletions never lowers the score, provided
    the two content signals alone stay below critical.
   */
  lemma ScoreMonotone(p: Scoring, c: Counters, d: Counters, m: nat, n: nat)
    requires Validated(p) && c.contentSame == 0 && d.contentSame == 0
    requires p.weights.highEntropy + p.weights.yaraMatch < p.thresholds.critical
    requires Grows(c, d) && c.deleted == d.deleted && m <= n
    ensures Score(p, c, m) <= Score(p, d, n)
  {
    RawGrows(p, c, d, m, n);
    if OneDimension(d, n) && !OneDimension(c, m) {
      SignalsAlone(p, c, m);
    }
    CapsLoosen(p.thresholds, Raw(p.weights, c, m), Raw(p.weights, d, n), c, d, m, n);
  }

  /** A session scores lower although nothing but more activity came in. */
  ghost predicate Drops(p: Scoring, c: Counters, d: Counters, m: nat, n: nat) {
    && c.contentSame == 0 && d.contentSame == 0
    && Grows(c, d) && c.deleted == d.deleted && m <= n
    && Score(p, c, m) > Score(p, d, n)
  }

  /** The condition on the content signals is exact: without it one more write lowers some score. */
  lemma MonotoneIffWeakSignals(p: Scoring)
    requires Validated(p)
    ensures p.weights.highEntropy + p.weights.yaraMatch < p.thresholds.critical <==>
            forall c: Counters, d: Counters, m: nat, n: nat :: !Drops(p, c, d, m, n)
  {
    if p.weights.highEntropy + p.weights.yaraMatch >= p.thresholds.critical {
      var c, d := SignalsThenWrite();
      StrongSignalsDrop(p, c, d);
    } else {
      forall c: Counters, d: Counters, m: nat, n: nat ensures !Drops(p, c, d, m, n) {
        if Drops(p, c, d, m, n) {
          ScoreMonotone(p, c, d, m, n);
        }
      }
    }
  }

  lemma CapsApart(t: Thresholds, raw: int, raw': int, c: Counters, d: Counters)
    requires 1 <= t.critical <= 100 && t.critical <= raw
    requires c.contentSame == 0 && c.deleted == 0 && Dimensions(c, 0) == 0 && OneDimension(d, 0)
    ensures Capped(t, raw, c, 0) >= t.critical > Capped(t, raw', d, 0)
  {
    assert PercentSame(c) == 0;
  }

  lemma SignalsOnly(w: Weights, c: Counters)
    requires Dimensions(c, 0) == 0 && c.ransomExt == 0 && c.highEntropy > 0 && c.yaraMatch > 0
    ensures Raw(w, c, 0) == w.highEntropy + w.yaraMatch
  {
  }

  /** Both content signals and nothing else; then one write more. */
  lemma SignalsThenWrite() returns (c: Counters, d: Counters)
    ensures c.contentSame == 0 && d.contentSame == 0 && Grows(c, d) && c.deleted == d.deleted
    ensures Dimensions(c, 0) == 0 && c.ransomExt == 0 && c.highEntropy > 0 && c.yaraMatch > 0
    ensures OneDimension(d, 0)
  {
    c := NO_COUNTS.(highEntropy := 1, yaraMatch := 1);
    d := c.(modified := 1);
  }

  lemma StrongSignalsDrop(p: Scoring, c: Counters, d: Counters)
    requires Validated(p) && p.weights.highEntropy + p.weights.yaraMatch >= p.thresholds.critical
    requires c.contentSame == 0 && d.contentSame == 0 && Grows(c, d) && c.deleted == d.deleted
    requires Dimensions(c, 0) == 0 && c.ransomExt == 0 && c.highEntropy > 0 && c.yaraMatch > 0
    requires OneDimension(d, 0)
    ensures Drops(p, c, d, 0, 0)
  {
    SignalsOnly(p.weights, c);
    CapsApart(p.thresholds, Raw(p.weights, c, 0), Raw(p.weights, d, 0), c, d);
  }

  /** Nothing but directories touched: one more deletion makes it a delete-only session. */
  predicate OnlyDirs(c: Counters, dirs: nat) {
    && c.modified == 0 && c.renamed == 0 && c.deleted == 0 && c.extChanged == 0 && c.ransomExt == 0
    && c.highEntropy == 0 && c.yaraMatch == 0 && dirs > 0
  }

  lemma DeletionAdds(p: Scoring, c: Counters, dirs: nat)
    requires Validated(p)
    ensures Raw(p.weights, c.(deleted := c.deleted + 1), dirs) == Raw(p.weights, c, dirs) + p.weights.deleted
  {
    var w := p.weights;
    assert (c.deleted + 1) * w.deleted == c.deleted * w.deleted + w.deleted;
  }

  lemma OnlyDirsSum(w: Weights, c: Counters, dirs: nat)
    requires OnlyDirs(c, dirs)
    ensures Raw(w, c, dirs) == dirs * w.dirs
  {
  }

  /** The caps before and after one more deletion, on any weighted sum. */
  lemma DeletionCaps(t: Thresholds, raw: int, raw': int, c: Counters, dirs: nat)
    requires 1 <= t.critical <= 100 && c.contentSame == 0 && raw <= raw'
    requires raw > 0 ==> Dimensions(c, dirs) > 0 || c.ransomExt > 0 || c.highEntropy > 0 || c.yaraMatch > 0
    ensures Capped(t, raw', c.(deleted := c.deleted + 1), dirs) < Capped(t, raw, c, dirs) <==>
            || (OnlyDirs(c, dirs) && raw > 60 && t.critical > 61)
            || (Dimensions(c, dirs) == 0 && c.ransomExt == 0 && raw >= t.critical)
  {
    var d := c.(deleted := c.deleted + 1);
    assert PercentSame(c) == 0 && PercentSame(d) == 0;
  }

  lemma NothingCounted(w: Weights, c: Counters, dirs: nat)
    requires Dimensions(c, dirs) == 0 && c.ransomExt == 0 && c.highEntropy == 0 && c.yaraMatch == 0
    ensures Raw(w, c, dirs) == 0
  {
  }

  /**
    Exactly when one more deletion lowers the score of a session without content-same writes: when
    it had only touched directories and stood above the fixed cap of 60; or when it rested on the
    content signals alone and was critical, the deletion becoming its one dimension.
   */
  lemma DeletionLowersIff(p: Scoring, c: Counters, dirs: nat)
    requires Validated(p) && c.contentSame == 0
    ensures Score(p, c.(deleted := c.deleted + 1), dirs) < Score(p, c, dirs) <==>
            || (OnlyDirs(c, dirs) && dirs * p.weights.dirs > 60 && p.thresholds.critical > 61)
            || (Dimensions(c, dirs) == 0 && c.ransomExt == 0 && Raw(p.weights, c, dirs) >= p.thresholds.critical)
  {
    var raw := Raw(p.weights, c, dirs);
    DeletionAdds(p, c, dirs);
    if OnlyDirs(c, dirs) {
      OnlyDirsSum(p.weights, c, dirs);
    }
    if Dimensions(c, dirs) == 0 && c.ransomExt == 0 && c.highEntropy == 0 && c.yaraMatch == 0 {
      NothingCounted(p.weights, c, dirs);
    }
    DeletionCaps(p.thresholds, raw, raw + p.weights.deleted, c, dirs);
  }

  /** An instance: nine directories and a deletion. */
  lemma DeletionMayLower()
    ensures var p := Scoring(Weights(0, 0, 1, 10, 0, 0, 0, 0), Thresholds(30, 60, 85));
            && Validated(p)
            && Score(p, NO_COUNTS.(deleted := 1), 9) == 60 < Score(p, NO_COUNTS, 9)
  {
  }

  /** A YARA hit is scored once like any other signal and forces nothing. */
  lemma YaraForcesNothing(p: Scoring, hits: nat)
    requires Validated(p) && hits > 0
    ensures Level(p.thresholds, Score(p, NO_COUNTS.(yaraMatch := hits), 0)).Critical?
            <==> p.weights.yaraMatch >= p.thresholds.critical
  {
    assert Raw(p.weights, NO_COUNTS.(yaraMatch := hits), 0) == p.weights.yaraMatch;
  }
}
