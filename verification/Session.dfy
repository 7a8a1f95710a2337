/**
  Session state of the daemon: tumbling windows, saturating counters and the set of touched
  directories, and what they conserve over every run.
 */
module Session {
  import opened Base

  const KEY_LEN: nat := 128
  const DIR_SET_MAX: nat := 256

  datatype RiskLevel = Normal | Suspicious | High | Critical

  /** The counters that one short window collects. */
  datatype Counters = Counters(
    modified: nat,
    renamed: nat,
    deleted: nat,
    extChanged: nat,
    ransomExt: nat,
    highEntropy: nat,
    yaraMatch: nat,
    contentSame: nat)

  const NO_COUNTS := Counters(0, 0, 0, 0, 0, 0, 0, 0)

  /**
    `struct session_state`. `dirs` is the used part of `dir_set_hashes`, so its length is
    `dir_set_count`.
   */
  datatype State = State(
    key: string,
    inUse: bool,
    blocked: bool,
    lastSeen: int,
    counts: Counters,
    touchedDirs: nat,
    dirs: seq<int>,
    shortStart: int,
    longStart: int,
    score: int,
    level: RiskLevel,
    eventId: string,
    totalEvents: nat)

  /** A bucket after `memset`. */
  const ZERO := State("", false, false, 0, NO_COUNTS, 0, [], 0, 0, 0, Normal, "", 0)

  /** A bucket just taken for `key`: `snprintf` cuts the key to the buffer. */
  function Taken(key: string, now: int): (s: State) {
    ZERO.(key := if |key| < KEY_LEN then key else key[..KEY_LEN - 1], inUse := true, lastSeen := now)
  }

  datatype Op = Open | Write | Truncate | Rename | Delete | Close | OtherOp {
    predicate Modifies() { Open? || Write? || Truncate? }
  }

  datatype Flags = Flags(
    risky: bool,
    backedUp: bool,
    extChange: bool,
    newFile: bool,
    contentSame: bool,
    ransomExt: bool,
    highEntropy: bool,
    yaraMatch: bool)

  //
  // session_check_window
  //

  function StartedAt(start: int, now: int): (t: int) { if start == 0 then now else start }

  /** Whether a window that began at `start` is over. */
  predicate Expired(start: int, now: int, length: int) { now - StartedAt(start, now) >= length }

  /** `session_check_window` as a function of the state. */
  function CheckWindow(s: State, now: int, shortLen: int, longLen: int): (r: State) {
    var shortOver := Expired(s.shortStart, now, shortLen);
    var longOver := Expired(s.longStart, now, longLen);
    s.(counts := if shortOver then NO_COUNTS else s.counts,
       shortStart := if shortOver then now else StartedAt(s.shortStart, now),
       touchedDirs := if longOver then 0 else s.touchedDirs,
       dirs := if longOver then [] else s.dirs,
       longStart := if longOver then now else StartedAt(s.longStart, now),
       eventId := if longOver then "" else s.eventId,
       level := if longOver then Normal else s.level,
       score := if longOver then 0 else s.score)
  }

  //
  // session_update
  //

  function Saturated(n: nat, bump: bool): (r: nat) {
    if bump && n < UINT32_MAX then n + 1 else n
  }

  predicate Retracts(c: Counters, op: Op, f: Flags) { op.Close? && f.contentSame && c.modified > 0 }

  function CountEvent(c: Counters, op: Op, f: Flags): (r: Counters) {
    Counters(
      if Retracts(c, op, f) then c.modified - 1 else Saturated(c.modified, op.Modifies() && f.risky),
      Saturated(c.renamed, op.Rename?),
      Saturated(c.deleted, op.Delete?),
      Saturated(c.extChanged, op.Rename? && f.extChange),
      Saturated(c.ransomExt, (op.Modifies() || op.Rename?) && f.ransomExt),
      Saturated(c.highEntropy, f.highEntropy),
      Saturated(c.yaraMatch, f.yaraMatch),
      Saturated(c.contentSame, Retracts(c, op, f)))
  }

  /** A directory hash is added when it is not zero, not stored yet, and there is room. */
  predicate AddsDir(dirs: seq<int>, hash: int) {
    hash != 0 && hash !in dirs && |dirs| < DIR_SET_MAX
  }

  /** `session_update` as a function of the state. */
  function Update(s: State, op: Op, f: Flags, dirHash: int): (r: State) {
    s.(counts := CountEvent(s.counts, op, f),
       dirs := if AddsDir(s.dirs, dirHash) then s.dirs + [dirHash] else s.dirs,
       touchedDirs := Saturated(s.touchedDirs, AddsDir(s.dirs, dirHash)),
       totalEvents := s.totalEvents + 1)
  }

  //
  // The two routines, step by step
  //

  /** A session as the routines update it, field by field. */
  class Cell {
    var s: State

    constructor (s: State)
      ensures this.s == s
    {
      this.s := s;
    }

    method SlideWindows(now: int, shortLen: int, longLen: int)
      modifies this
      ensures s == CheckWindow(old(s), now, shortLen, longLen)
    {
      if s.shortStart == 0 {
        s := s.(shortStart := now);
      }
      if s.longStart == 0 {
        s := s.(longStart := now);
      }
      if now - s.shortStart >= shortLen {
        s := s.(counts := NO_COUNTS);
        s := s.(shortStart := now);
      }
      if now - s.longStart >= longLen {
        s := s.(touchedDirs := 0);
        s := s.(dirs := []);
        s := s.(longStart := now);
        s := s.(eventId := "");
        s := s.(level := Normal);
        s := s.(score := 0);
      }
    }

    method Count(op: Op, f: Flags)
      modifies this
      ensures s == old(s).(counts := CountEvent(old(s).counts, op, f))
    {
      var c := CountOperation(s.counts, op, f);
      if f.highEntropy && c.highEntropy < UINT32_MAX {
        c := c.(highEntropy := c.highEntropy + 1);
      }
      if f.yaraMatch && c.yaraMatch < UINT32_MAX {
        c := c.(yaraMatch := c.yaraMatch + 1);
      }
      s := s.(counts := c);
    }

    /** The switch over the operation. */
    static method CountOperation(counts: Counters, op: Op, f: Flags) returns (c: Counters)
      ensures c == CountEvent(counts, op, f).(highEntropy := counts.highEntropy, yaraMatch := counts.yaraMatch)
    {
      c := counts;
      match op {
      case Open | Write | Truncate =>
        if f.risky && c.modified < UINT32_MAX {
          c := c.(modified := c.modified + 1);
        }
        if f.ransomExt && c.ransomExt < UINT32_MAX {
          c := c.(ransomExt := c.ransomExt + 1);
        }
      case Rename =>
        if c.renamed < UINT32_MAX {
          c := c.(renamed := c.renamed + 1);
        }
        if f.extChange && c.extChanged < UINT32_MAX {
          c := c.(extChanged := c.extChanged + 1);
        }
        if f.ransomExt && c.ransomExt < UINT32_MAX {
          c := c.(ransomExt := c.ransomExt + 1);
        }
      case Delete =>
        if c.deleted < UINT32_MAX {
          c := c.(deleted := c.deleted + 1);
        }
      case Close =>
        if f.contentSame && c.modified > 0 {
          c := c.(modified := c.modified - 1);
          if c.contentSame < UINT32_MAX {
            c := c.(contentSame := c.contentSame + 1);
          }
        }
      case OtherOp =>
      }
    }

    method Record(op: Op, f: Flags, dirHash: int)
      modifies this
      ensures s == Update(old(s), op, f, dirHash)
    {
      Count(op, f);
      var seen := Contains(s.dirs, dirHash);
      if dirHash != 0 && !seen {
        if |s.dirs| < DIR_SET_MAX {
          s := s.(dirs := s.dirs + [dirHash]);
          if s.touchedDirs < UINT32_MAX {
            s := s.(touchedDirs := s.touchedDirs + 1);
          }
        }
      }
      s := s.(totalEvents := s.totalEvents + 1);
    }
  }

  //
  // Conservation over runs
  //

  /** One thing that happens to a session: a window check or an event. */
  datatype Step =
    | Window(now: int, shortLen: int, longLen: int)
    | Event(op: Op, flags: Flags, dir: int)

  function Apply(s: State, step: Step): (r: State) {
    match step
    case Window(now, shortLen, longLen) => CheckWindow(s, now, shortLen, longLen)
    case Event(op, f, dir) => Update(s, op, f, dir)
  }

  function Run(s: State, steps: seq<Step>): (r: State) {
    if steps == [] then s else Apply(Run(s, steps[..|steps| - 1]), steps[|steps| - 1])
  }

  // The history of a run, told without the counters: when the windows began and which events came
  // after that.

  ghost function ShortStart(steps: seq<Step>): (t: int) {
    if steps == [] then 0
    else
      var before := ShortStart(steps[..|steps| - 1]);
      var last := steps[|steps| - 1];
      if last.Event? then before
      else if Expired(before, last.now, last.shortLen) then last.now
      else StartedAt(before, last.now)
  }

  ghost function LongStart(steps: seq<Step>): (t: int) {
    if steps == [] then 0
    else
      var before := LongStart(steps[..|steps| - 1]);
      var last := steps[|steps| - 1];
      if last.Event? then before
      else if Expired(before, last.now, last.longLen) then last.now
      else StartedAt(before, last.now)
  }

  /** Events since the last reset of the short window. */
  ghost function SinceShort(steps: seq<Step>): (es: seq<Step>) {
    if steps == [] then []
    else
      var init, last := steps[..|steps| - 1], steps[|steps| - 1];
      if last.Event? then SinceShort(init) + [last]
      else if Expired(ShortStart(init), last.now, last.shortLen) then []
      else SinceShort(init)
  }

  /** Events since the last reset of the long window. */
  ghost function SinceLong(steps: seq<Step>): (es: seq<Step>) {
    if steps == [] then []
    else
      var init, last := steps[..|steps| - 1], steps[|steps| - 1];
      if last.Event? then SinceLong(init) + [last]
      else if Expired(LongStart(init), last.now, last.longLen) then []
      else SinceLong(init)
  }

  /** Risky opens, writes and truncations among some events. */
  ghost function RiskyWrites(es: seq<Step>): (n: nat) {
    if es == [] then 0
    else
      var last := es[|es| - 1];
      RiskyWrites(es[..|es| - 1])
      + (if last.Event? && last.op.Modifies() && last.flags.risky then 1 else 0)
  }

  /** The distinct non-zero directory hashes of some events, in order of first appearance. */
  ghost function DistinctDirs(es: seq<Step>): (ds: seq<int>) {
    if es == [] then []
    else
      var before := DistinctDirs(es[..|es| - 1]);
      var last := es[|es| - 1];
      if last.Event? && last.dir != 0 && last.dir !in before then before + [last.dir] else before
  }

  ghost function FirstFew(ds: seq<int>): (r: seq<int>) {
    if |ds| <= DIR_SET_MAX then ds else ds[..DIR_SET_MAX]
  }

  lemma {:induction false} StartsAgree(steps: seq<Step>)
    ensures var s := Run(ZERO, steps);
            s.shortStart == ShortStart(steps) && s.longStart == LongStart(steps)
  {
    if steps != [] {
      StartsAgree(steps[..|steps| - 1]);
    }
  }

  ghost predicate Conserved(c: Counters, risky: nat) {
    && c.modified + c.contentSame <= risky
    && (risky <= UINT32_MAX ==> c.modified + c.contentSame == risky)
  }

  /**
    Writes are conserved: modified plus content-same is the number of risky writes since the last
    short reset, as long as that number has not reached the saturation point; beyond it the two
    never exceed it.
   */
  lemma {:induction false} WritesConserved(steps: seq<Step>)
    ensures Conserved(Run(ZERO, steps).counts, RiskyWrites(SinceShort(steps)))
  {
    if steps != [] {
      var init, last := steps[..|steps| - 1], steps[|steps| - 1];
      WritesConserved(init);
      StartsAgree(init);
      if last.Event? {
        RiskyWritesSnoc(SinceShort(init), last);
        OneEventConserves(Run(ZERO, init).counts, last.op, last.flags, RiskyWrites(SinceShort(init)));
      }
    }
  }

  lemma OneEventConserves(c: Counters, op: Op, f: Flags, risky: nat)
    requires Conserved(c, risky)
    ensures Conserved(CountEvent(c, op, f), risky + (if op.Modifies() && f.risky then 1 else 0))
  {
  }

  lemma RiskyWritesSnoc(es: seq<Step>, e: Step)
    requires e.Event?
    ensures RiskyWrites(es + [e]) == RiskyWrites(es) + (if e.op.Modifies() && e.flags.risky then 1 else 0)
  {
    assert (es + [e])[..|es|] == es;
  }

  lemma {:induction false} DistinctDirsAreDistinct(es: seq<Step>)
    ensures Distinct(DistinctDirs(es)) && 0 !in DistinctDirs(es)
  {
    if es != [] {
      DistinctDirsAreDistinct(es[..|es| - 1]);
    }
  }

  /**
    The stored directories are the first 256 distinct non-zero hashes since the last long reset,
    and `touched_dirs` is their number.
   */
  lemma {:induction false} DirsConserved(steps: seq<Step>)
    ensures var s := Run(ZERO, steps);
            && s.dirs == FirstFew(DistinctDirs(SinceLong(steps)))
            && s.touchedDirs == |s.dirs| <= DIR_SET_MAX
  {
    if steps != [] {
      var init, last := steps[..|steps| - 1], steps[|steps| - 1];
      DirsConserved(init);
      StartsAgree(init);
      if last.Event? {
        var es := SinceLong(init) + [last];
        assert es[..|es| - 1] == SinceLong(init);
        DirAdded(DistinctDirs(SinceLong(init)), last.dir);
      }
    }
  }

  /** Cutting a list at 256 commutes with adding a new hash to it. */
  lemma DirAdded(ds: seq<int>, dir: int)
    ensures var after := if dir != 0 && dir !in ds then ds + [dir] else ds;
            FirstFew(after) == if AddsDir(FirstFew(ds), dir) then FirstFew(ds) + [dir] else FirstFew(ds)
  {
  }

  /** The kinds of event that the plain counters count. */
  datatype Counted = Renames | Deletes | ExtChanges | RansomNames | HighEntropy | YaraHits

  function CountOf(c: Counters, k: Counted): (n: nat) {
    match k
    case Renames => c.renamed
    case Deletes => c.deleted
    case ExtChanges => c.extChanged
    case RansomNames => c.ransomExt
    case HighEntropy => c.highEntropy
    case YaraHits => c.yaraMatch
  }

  /** Which events are of that kind. */
  predicate IsOf(k: Counted, op: Op, f: Flags) {
    match k
    case Renames => op == Rename
    case Deletes => op == Delete
    case ExtChanges => op == Rename && f.extChange
    case RansomNames => op in {Open, Write, Truncate, Rename} && f.ransomExt
    case HighEntropy => f.highEntropy
    case YaraHits => f.yaraMatch
  }

  ghost function HowMany(k: Counted, es: seq<Step>): (n: nat) {
    if es == [] then 0
    else
      var last := es[|es| - 1];
      HowMany(k, es[..|es| - 1]) + (if last.Event? && IsOf(k, last.op, last.flags) then 1 else 0)
  }

  lemma OneEventCounts(c: Counters, op: Op, f: Flags, k: Counted, n: nat)
    requires CountOf(c, k) == Min(UINT32_MAX, n)
    ensures CountOf(CountEvent(c, op, f), k) == Min(UINT32_MAX, n + (if IsOf(k, op, f) then 1 else 0))
  {
  }

  lemma HowManySnoc(k: Counted, es: seq<Step>, e: Step)
    requires e.Event?
    ensures HowMany(k, es + [e]) == HowMany(k, es) + (if IsOf(k, e.op, e.flags) then 1 else 0)
  {
    assert (es + [e])[..|es|] == es;
  }

  /** Each of these counters is the number of its events since the last short reset, up to saturation. */
  lemma {:induction false} CountersConserved(steps: seq<Step>, k: Counted)
    ensures CountOf(Run(ZERO, steps).counts, k) == Min(UINT32_MAX, HowMany(k, SinceShort(steps)))
  {
    if steps != [] {
      var init, last := steps[..|steps| - 1], steps[|steps| - 1];
      CountersConserved(init, k);
      StartsAgree(init);
      if last.Event? {
        HowManySnoc(k, SinceShort(init), last);
        OneEventCounts(Run(ZERO, init).counts, last.op, last.flags, k, HowMany(k, SinceShort(init)));
      }
    }
  }

  /** Content-same closes among some events: each takes back a write that stands, if there is one. */
  ghost function Standing(es: seq<Step>): (n: nat) {
    if es == [] then 0
    else
      var before, last := Standing(es[..|es| - 1]), es[|es| - 1];
      if !last.Event? then before
      else if last.op in {Open, Write, Truncate} && last.flags.risky then before + 1
      else if last.op == Close && last.flags.contentSame && before > 0 then before - 1
      else before
  }

  lemma OneEventStands(c: Counters, op: Op, f: Flags, n: nat)
    requires c.modified == n < UINT32_MAX
    ensures CountEvent(c, op, f).modified ==
            if op in {Open, Write, Truncate} && f.risky then n + 1
            else if op == Close && f.contentSame && n > 0 then n - 1
            else n
  {
  }

  lemma StandingSnoc(es: seq<Step>, e: Step)
    requires e.Event?
    ensures var n := Standing(es);
            Standing(es + [e]) ==
              if e.op in {Open, Write, Truncate} && e.flags.risky then n + 1
              else if e.op == Close && e.flags.contentSame && n > 0 then n - 1
              else n
  {
    assert (es + [e])[..|es|] == es;
  }

  /** The modified count is the writes that no content-same close has taken back, while they fit 32 bits. */
  lemma {:induction false} WritesStand(steps: seq<Step>)
    requires RiskyWrites(SinceShort(steps)) < UINT32_MAX
    ensures Run(ZERO, steps).counts.modified == Standing(SinceShort(steps)) <= RiskyWrites(SinceShort(steps))
  {
    if steps != [] {
      var init, last := steps[..|steps| - 1], steps[|steps| - 1];
      StartsAgree(init);
      if last.Event? {
        RiskyWritesSnoc(SinceShort(init), last);
        StandingSnoc(SinceShort(init), last);
        WritesStand(init);
        OneEventStands(Run(ZERO, init).counts, last.op, last.flags, Standing(SinceShort(init)));
      } else if !Expired(ShortStart(init), last.now, last.shortLen) {
        WritesStand(init);
      }
    }
  }

  ghost function EventsIn(steps: seq<Step>): (n: nat) {
    if steps == [] then 0 else EventsIn(steps[..|steps| - 1]) + (if steps[|steps| - 1].Event? then 1 else 0)
  }

  /** Over every run all events are counted, and nothing blocks, renames or ages a session. */
  lemma {:induction false} RunLeaves(s: State, steps: seq<Step>)
    ensures var r := Run(s, steps);
            && r.totalEvents == s.totalEvents + EventsIn(steps)
            && (r.key, r.inUse, r.blocked, r.lastSeen) == (s.key, s.inUse, s.blocked, s.lastSeen)
  {
    if steps != [] {
      RunLeaves(s, steps[..|steps| - 1]);
    }
  }

  /**
    The edges of the windows: one that began at `t` still holds what it counted a moment before its
    length is over, and starts anew at that length.
   */
  lemma WindowEdges(s: State, t: int, now: int, shortLen: int, longLen: int)
    requires t != 0
    ensures s.shortStart == t && now - t < shortLen ==>
              CheckWindow(s, now, shortLen, longLen).counts == s.counts
              && CheckWindow(s, now, shortLen, longLen).shortStart == t
    ensures s.shortStart == t && now - t >= shortLen ==>
              CheckWindow(s, now, shortLen, longLen).counts == Counters(0, 0, 0, 0, 0, 0, 0, 0)
              && CheckWindow(s, now, shortLen, longLen).shortStart == now
    ensures var r := CheckWindow(s, now, shortLen, longLen);
            s.longStart == t ==>
              if now - t < longLen then
                (r.longStart, r.touchedDirs, r.dirs, r.eventId, r.level, r.score)
                == (t, s.touchedDirs, s.dirs, s.eventId, s.level, s.score)
              else (r.longStart, r.touchedDirs, r.dirs, r.eventId, r.level, r.score) == (now, 0, [], "", Normal, 0)
    ensures var r := CheckWindow(s, now, shortLen, longLen);
            (r.key, r.inUse, r.blocked, r.lastSeen, r.totalEvents)
            == (s.key, s.inUse, s.blocked, s.lastSeen, s.totalEvents)
  {
  }

  /** A window that has not begun begins with the first check. */
  lemma WindowBegins(s: State, now: int, shortLen: int, longLen: int)
    requires shortLen > 0 && longLen > 0
    ensures s.shortStart == 0 ==> CheckWindow(s, now, shortLen, longLen).shortStart == now
                                  && CheckWindow(s, now, shortLen, longLen).counts == s.counts
    ensures s.longStart == 0 ==> CheckWindow(s, now, shortLen, longLen).longStart == now
                                 && CheckWindow(s, now, shortLen, longLen).eventId == s.eventId
  {
  }
}
