/**
  Event ids: a date and a sequence number of the day, seeded from the database when the day changes
  or the daemon starts. They never repeat, except on the local day of the epoch.
 */
module EventId {
  import opened Base

  /** A calendar day as `%Y%m%d` shows it. */
  datatype Date = Date(year: nat, month: nat, day: nat) {
    predicate Valid() { year <= 9999 && month <= 12 && day <= 31 }
  }

  //
  // The text of an id
  //

  function Digit(n: nat): (c: char)
    requires n < 10
  {
    '0' + n as char
  }

  function DigitValue(c: char): (n: nat)
    requires '0' <= c <= '9'
  {
    (c - '0') as nat
  }

  function Decimal(n: nat): (t: string)
    ensures |t| > 0
  {
    if n < 10 then [Digit(n)] else Decimal(n / 10) + [Digit(n % 10)]
  }

  /** `%03d`. */
  function Padded(n: nat): (t: string) {
    var t := Decimal(n);
    if |t| == 1 then "00" + t else if |t| == 2 then "0" + t else t
  }

  function TwoDigits(n: nat): (t: string)
    requires n < 100
    ensures |t| == 2
  {
    [Digit(n / 10), Digit(n % 10)]
  }

  function DateText(d: Date): (t: string)
    requires d.Valid()
    ensures |t| == 8
  {
    TwoDigits(d.year / 100) + TwoDigits(d.year % 100) + TwoDigits(d.month) + TwoDigits(d.day)
  }

  /** What every id of a day begins with. */
  function Prefix(d: Date): (t: string)
    requires d.Valid()
    ensures |t| == 13
  {
    "evt-" + DateText(d) + "-"
  }

  function Id(d: Date, n: nat): (t: string)
    requires d.Valid()
  {
    Prefix(d) + Padded(n)
  }

  /** The database's conversion of a text to an integer: its leading digits. */
  function Cast(t: string): (n: nat) {
    if t == [] then 0
    else
      var init, last := t[..|t| - 1], t[|t| - 1];
      if AllDigits(t) then Cast(init) * 10 + DigitValue(last) else Cast(init)
  }

  predicate AllDigits(t: string) {
    forall i :: 0 <= i < |t| ==> '0' <= t[i] <= '9'
  }

  lemma {:induction false} DecimalCasts(n: nat)
    ensures AllDigits(Decimal(n)) && Cast(Decimal(n)) == n
  {
    if n < 10 {
      var t := Decimal(n);
      assert t[..0] == [];
      assert Cast(t[..0]) == 0;
      assert DigitValue(Digit(n)) == n;
    } else {
      DecimalCasts(n / 10);
      var t := Decimal(n);
      assert t[..|t| - 1] == Decimal(n / 10);
      assert DigitValue(Digit(n % 10)) == n % 10;
    }
  }

  lemma {:induction false} LeadingZero(t: string)
    requires AllDigits(t)
    ensures AllDigits("0" + t) && Cast("0" + t) == Cast(t)
  {
    var u := "0" + t;
    if t == [] {
      assert u[..0] == [];
      assert Cast(u[..0]) == 0;
    } else {
      assert u[..|u| - 1] == "0" + t[..|t| - 1];
      LeadingZero(t[..|t| - 1]);
    }
  }

  /** Padding does not change the number, also past three digits. */
  lemma PaddedCasts(n: nat)
    ensures Cast(Padded(n)) == n
  {
    DecimalCasts(n);
    var t := Decimal(n);
    LeadingZero(t);
    LeadingZero("0" + t);
    assert "00" + t == "0" + ("0" + t);
  }

  lemma {:induction false} DecimalShape(n: nat)
    ensures n < 10 ==> |Decimal(n)| == 1
    ensures 10 <= n < 100 ==> |Decimal(n)| == 2
    ensures 100 <= n < 1000 ==> |Decimal(n)| == 3
    ensures n >= 1000 ==> |Decimal(n)| > 3
    ensures n > 0 ==> Decimal(n)[0] != '0'
  {
    if n >= 10 {
      DecimalShape(n / 10);
    }
  }

  lemma CastTwo(n: nat)
    requires n < 100
    ensures AllDigits(TwoDigits(n)) && Cast(TwoDigits(n)) == n
  {
    var t := TwoDigits(n);
    assert t[..1] == [Digit(n / 10)] && t[..1][..0] == [];
    assert DigitValue(Digit(n / 10)) == n / 10 && DigitValue(Digit(n % 10)) == n % 10;
    assert Cast(t[..1]) == n / 10;
  }

  /**
    How an id reads: the mark, four digits for the year, two each for month and day, and the number
    in decimal digits, in three places while it has no more and without leading zeros after that.
   */
  lemma IdReads(d: Date, n: nat)
    requires d.Valid()
    ensures var id := Id(d, n);
            && |id| >= 16 && id[..4] == "evt-" && id[12] == '-'
            && Cast(id[4..6]) * 100 + Cast(id[6..8]) == d.year && Cast(id[8..10]) == d.month && Cast(id[10..12]) == d.day
            && AllDigits(id[13..]) && Cast(id[13..]) == n
            && (|id| == 16 <==> n < 1000) && (n >= 1000 ==> id[13] != '0')
  {
    var id := Id(d, n);
    var a, b, c, e := TwoDigits(d.year / 100), TwoDigits(d.year % 100), TwoDigits(d.month), TwoDigits(d.day);
    DecimalShape(n);
    PaddedCasts(n);
    PaddedDigits(n);
    IdPlaces(a, b, c, e, Padded(n));
    CastTwo(d.year / 100);
    CastTwo(d.year % 100);
    CastTwo(d.month);
    CastTwo(d.day);
  }

  lemma PaddedDigits(n: nat)
    ensures AllDigits(Padded(n))
  {
    DecimalCasts(n);
  }

  lemma IdPlaces(a: string, b: string, c: string, e: string, t: string)
    requires |a| == |b| == |c| == |e| == 2
    ensures var id := ("evt-" + (a + b + c + e) + "-") + t;
            && id[..4] == "evt-" && id[4..6] == a && id[6..8] == b && id[8..10] == c && id[10..12] == e
            && id[12] == '-' && id[13..] == t
  {
  }

  lemma TwoDigitsInjective(m: nat, n: nat)
    requires m < 100 && n < 100 && TwoDigits(m) == TwoDigits(n)
    ensures m == n
  {
    assert TwoDigits(m)[0] == TwoDigits(n)[0] && TwoDigits(m)[1] == TwoDigits(n)[1];
    assert DigitValue(Digit(m / 10)) == m / 10 && DigitValue(Digit(n / 10)) == n / 10;
    assert DigitValue(Digit(m % 10)) == m % 10 && DigitValue(Digit(n % 10)) == n % 10;
  }

  lemma PrefixDigits(d: Date)
    requires d.Valid()
    ensures var p := Prefix(d);
            && [p[4], p[5]] == TwoDigits(d.year / 100)
            && [p[6], p[7]] == TwoDigits(d.year % 100)
            && [p[8], p[9]] == TwoDigits(d.month)
            && [p[10], p[11]] == TwoDigits(d.day)
  {
    DateDigits(TwoDigits(d.year / 100), TwoDigits(d.year % 100), TwoDigits(d.month), TwoDigits(d.day));
  }

  lemma DateDigits(a: string, b: string, c: string, e: string)
    requires |a| == |b| == |c| == |e| == 2
    ensures var p := "evt-" + (a + b + c + e) + "-";
            [p[4], p[5]] == a && [p[6], p[7]] == b && [p[8], p[9]] == c && [p[10], p[11]] == e
  {
  }

  lemma PrefixInjective(d: Date, e: Date)
    requires d.Valid() && e.Valid() && Prefix(d) == Prefix(e)
    ensures d == e
  {
    PrefixDigits(d);
    PrefixDigits(e);
    TwoDigitsInjective(d.year / 100, e.year / 100);
    TwoDigitsInjective(d.year % 100, e.year % 100);
    TwoDigitsInjective(d.month, e.month);
    TwoDigitsInjective(d.day, e.day);
    SameYear(d.year, e.year);
  }

  lemma SameYear(x: nat, y: nat)
    requires x / 100 == y / 100 && x % 100 == y % 100
    ensures x == y
  {
  }

  lemma IdParts(d: Date, n: nat)
    requires d.Valid()
    ensures |Id(d, n)| > 13 && Id(d, n)[..13] == Prefix(d) && Cast(Id(d, n)[13..]) == n
  {
    assert Id(d, n)[13..] == Padded(n);
    PaddedCasts(n);
  }

  /** Different days or different numbers give different ids. */
  lemma IdInjective(d: Date, m: nat, e: Date, n: nat)
    requires d.Valid() && e.Valid() && Id(d, m) == Id(e, n)
    ensures d == e && m == n
  {
    IdParts(d, m);
    IdParts(e, n);
    PrefixInjective(d, e);
  }

  //
  // Making ids
  //

  predicate OfDay(id: string, d: Date)
    requires d.Valid()
  {
    |id| >= 13 && id[..13] == Prefix(d)
  }

  /** `db_get_max_daily_seq`: the largest number of the day among the stored ids, or 0. */
  function MaxSeq(stored: seq<string>, d: Date): (n: nat)
    requires d.Valid()
  {
    if stored == [] then 0
    else
      var before := MaxSeq(stored[..|stored| - 1], d);
      var id := stored[|stored| - 1];
      if OfDay(id, d) && Cast(id[13..]) > before then Cast(id[13..]) else before
  }

  /** The daemon's memory and the ids of the database. */
  datatype Maker = Maker(seqNo: nat, anchor: Date, stored: seq<string>)

  function Seeded(st: Maker, today: Date): (n: nat)
    requires today.Valid()
  {
    if st.anchor != today then MaxSeq(st.stored, today) else st.seqNo
  }

  /** The id that `make_event_id` makes. */
  function Made(st: Maker, today: Date): (id: string)
    requires today.Valid()
  {
    Id(today, Seeded(st, today) + 1)
  }

  /** The state once the id is stored; storing an id again changes nothing. */
  function AfterMake(st: Maker, today: Date): (r: Maker)
    requires today.Valid()
  {
    var id := Made(st, today);
    Maker(Seeded(st, today) + 1, today, if id in st.stored then st.stored else st.stored + [id])
  }

  /** A start of the daemon: the anchor is time zero. */
  function Restarted(st: Maker, epoch: Date): (r: Maker) {
    st.(seqNo := 0, anchor := epoch)
  }

  class IdMaker {
    var seqNo: nat
    var anchor: Date

    constructor (epoch: Date)
      ensures seqNo == 0 && anchor == epoch
    {
      seqNo, anchor := 0, epoch;
    }

    static method QueryMax(stored: seq<string>, d: Date) returns (n: nat)
      requires d.Valid()
      ensures n == MaxSeq(stored, d)
    {
      n := 0;
      assert stored[..0] == [];
      for i := 0 to |stored|
        invariant n == MaxSeq(stored[..i], d)
      {
        assert stored[..i + 1][..i] == stored[..i];
        var id := stored[i];
        if OfDay(id, d) && Cast(id[13..]) > n {
          n := Cast(id[13..]);
        }
      }
      assert stored[..|stored|] == stored;
    }

    /** `make_event_id`. */
    method Make(today: Date, stored: seq<string>) returns (id: string)
      requires today.Valid()
      modifies this
      ensures var st := Maker(old(seqNo), old(anchor), stored);
              id == Made(st, today) && seqNo == AfterMake(st, today).seqNo && anchor == today
    {
      if anchor != today {
        seqNo := QueryMax(stored, today);
        anchor := today;
      }
      seqNo := seqNo + 1;
      id := Id(today, seqNo);
    }
  }

  //
  // Runs
  //

  datatype Step = MakeOn(today: Date) | Restart

  ghost predicate Legal(step: Step) { step.MakeOn? ==> step.today.Valid() }

  ghost function After(st: Maker, step: Step, epoch: Date): (r: Maker)
    requires Legal(step)
  {
    match step
    case MakeOn(today) => AfterMake(st, today)
    case Restart => Restarted(st, epoch)
  }

  ghost predicate IsRun(epoch: Date, steps: seq<Step>, sts: seq<Maker>) {
    && epoch.Valid()
    && |sts| == |steps| + 1
    && sts[0] == Maker(0, epoch, [])
    && forall i :: 0 <= i < |steps| ==> Legal(steps[i]) && sts[i + 1] == After(sts[i], steps[i], epoch)
  }

  /** The stored ids of each day are numbered from 1 without a gap. */
  ghost predicate Dense(stored: seq<string>) {
    forall d: Date, n: nat :: d.Valid() ==> (Id(d, n) in stored <==> 1 <= n <= MaxSeq(stored, d))
  }

  /** The number in memory is never ahead of the database, and behind it only on the epoch day. */
  ghost predicate Synced(st: Maker, epoch: Date) {
    && st.anchor.Valid()
    && st.seqNo <= MaxSeq(st.stored, st.anchor)
    && (st.anchor != epoch ==> st.seqNo == MaxSeq(st.stored, st.anchor))
  }

  lemma MaxSeqSnoc(stored: seq<string>, d: Date, e: Date, n: nat)
    requires d.Valid() && e.Valid()
    ensures var before := MaxSeq(stored, e);
            MaxSeq(stored + [Id(d, n)], e) == if d == e && n > before then n else before
  {
    IdParts(d, n);
    assert (stored + [Id(d, n)])[..|stored|] == stored;
    if OfDay(Id(d, n), e) {
      PrefixInjective(d, e);
    }
  }

  /** A new id is the next number of its day. */
  lemma DenseSnoc(stored: seq<string>, d: Date)
    requires Dense(stored) && d.Valid()
    ensures Dense(stored + [Id(d, MaxSeq(stored, d) + 1)])
  {
    var n := MaxSeq(stored, d) + 1;
    var more := stored + [Id(d, n)];
    forall e: Date, m: nat | e.Valid() ensures Id(e, m) in more <==> 1 <= m <= MaxSeq(more, e) {
      MaxSeqSnoc(stored, d, e, n);
      if Id(e, m) == Id(d, n) {
        IdInjective(e, m, d, n);
      }
    }
  }

  /**
    Exactly when a made id is new: unless the memory is behind the database for today, which it can
    be on the epoch day only.
   */
  lemma FreshIff(st: Maker, today: Date, epoch: Date)
    requires Dense(st.stored) && Synced(st, epoch) && today.Valid()
    ensures Made(st, today) !in st.stored <==> !(today == st.anchor && st.seqNo < MaxSeq(st.stored, today))
    ensures today != epoch ==> Made(st, today) !in st.stored
  {
  }

  lemma MakeKeeps(st: Maker, today: Date, epoch: Date)
    requires Dense(st.stored) && Synced(st, epoch) && today.Valid()
    ensures Dense(AfterMake(st, today).stored) && Synced(AfterMake(st, today), epoch)
  {
    var n := Seeded(st, today) + 1;
    if Made(st, today) !in st.stored {
      FreshIff(st, today, epoch);
      assert n == MaxSeq(st.stored, today) + 1;
      DenseSnoc(st.stored, today);
      MaxSeqSnoc(st.stored, today, today, n);
    }
  }

  lemma NothingStoredIsDense()
    ensures Dense([])
  {
  }

  lemma {:induction false} RunKeeps(epoch: Date, steps: seq<Step>, sts: seq<Maker>, n: nat)
    requires IsRun(epoch, steps, sts) && n < |sts|
    ensures Dense(sts[n].stored) && Synced(sts[n], epoch)
  {
    if n > 0 {
      RunKeeps(epoch, steps, sts, n - 1);
      if steps[n - 1].MakeOn? {
        MakeKeeps(sts[n - 1], steps[n - 1].today, epoch);
      }
    } else {
      NothingStoredIsDense();
    }
  }

  /** The ids of a run are stored, so a later id that is new differs from all of them. */
  lemma {:induction false} StoredStays(epoch: Date, steps: seq<Step>, sts: seq<Maker>, i: nat, n: nat)
    requires IsRun(epoch, steps, sts) && i < n < |sts| && steps[i].MakeOn?
    ensures Made(sts[i], steps[i].today) in sts[n].stored
    decreases n
  {
    if i + 1 < n {
      StoredStays(epoch, steps, sts, i, n - 1);
    }
  }

  /** Ids never repeat over restarts, day changes and clock steps either way, off the epoch day. */
  lemma IdsNeverRepeat(epoch: Date, steps: seq<Step>, sts: seq<Maker>, i: nat, j: nat)
    requires IsRun(epoch, steps, sts) && i < j < |steps|
    requires steps[i].MakeOn? && steps[j].MakeOn? && steps[j].today != epoch
    ensures Made(sts[i], steps[i].today) != Made(sts[j], steps[j].today)
  {
    RunKeeps(epoch, steps, sts, j);
    StoredStays(epoch, steps, sts, i, j);
    FreshIff(sts[j], steps[j].today, epoch);
  }

  /** On the epoch day a restart makes the daemon begin again at 1. */
  lemma EpochDayRepeats(epoch: Date)
    requires epoch.Valid()
    ensures var first := Maker(0, epoch, []);
            var later := Restarted(AfterMake(first, epoch), epoch);
            Made(first, epoch) == Made(later, epoch)
  {
  }
}
