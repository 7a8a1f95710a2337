/**
  The open-addressed session table with eviction of the least recently seen session that is not
  blocked, proved to refine a map from keys to sessions. The hash is any function to 64-bit values.
 */
module SessionTable {
  import opened Base
  import opened Session

  const BUCKETS: nat := 1024

  type Hash = string -> nat

  /** Bucket of one probe: 64-bit addition, then the remainder. */
  function Slot(h: nat, probe: nat): (i: nat)
    ensures i < BUCKETS
  {
    (h + probe) % TWO_64 % BUCKETS
  }

  /** Which probe of a key with hash `h` reaches bucket `i`. */
  function Distance(h: nat, i: nat): (p: nat)
    requires i < BUCKETS
    ensures p < BUCKETS
  {
    (i - h) % BUCKETS
  }

  /** The table size divides 2^64, so the wrap of the addition does not show. */
  lemma SlotOfDistance(h: nat, i: nat, p: nat)
    requires i < BUCKETS && p < BUCKETS
    ensures Slot(h, p) == i <==> p == Distance(h, i)
  {
  }

  //
  // The invariant of the table
  //

  /** Every bucket that a key's probes pass before its own is in use. */
  ghost predicate Reachable(hash: Hash, b: seq<State>, i: nat)
    requires |b| == BUCKETS && i < BUCKETS
  {
    var h := hash(b[i].key);
    forall p: nat :: p < Distance(h, i) ==> b[Slot(h, p)].inUse
  }

  ghost predicate Ok(hash: Hash, b: seq<State>) {
    && |b| == BUCKETS
    && (forall i, j :: 0 <= i < j < BUCKETS && b[i].inUse && b[j].inUse ==> b[i].key != b[j].key)
    && (forall i: nat :: i < BUCKETS && b[i].inUse ==> Reachable(hash, b, i))
  }

  ghost predicate Holds(b: seq<State>, i: nat, key: string) {
    i < |b| && b[i].inUse && b[i].key == key
  }

  ghost predicate Has(b: seq<State>, key: string) {
    exists i: nat :: Holds(b, i, key)
  }

  function InUse(b: seq<State>): (n: nat)
    ensures n <= |b|
  {
    if b == [] then 0 else InUse(b[..|b| - 1]) + (if b[|b| - 1].inUse then 1 else 0)
  }

  //
  // What one lookup does
  //

  /** The first probe from `p` on that meets a free bucket or the key. */
  function Probe(hash: Hash, b: seq<State>, key: string, p: nat): (r: Option<nat>)
    requires |b| == BUCKETS
    ensures r.Some? ==> p <= r.value < BUCKETS
    decreases BUCKETS - p
  {
    if p >= BUCKETS then None
    else
      var s := b[Slot(hash(key), p)];
      if !s.inUse || s.key == key then Some(p) else Probe(hash, b, key, p + 1)
  }

  predicate Evictable(s: State) { s.inUse && !s.blocked }

  /** The first of the least recently seen evictable sessions among the first `n` buckets. */
  function Oldest(b: seq<State>, n: nat): (r: Option<nat>)
    requires n <= |b|
    ensures r.Some? ==> r.value < n && Evictable(b[r.value])
  {
    if n == 0 then None
    else
      var o := Oldest(b, n - 1);
      if Evictable(b[n - 1]) && (o.None? || b[n - 1].lastSeen < b[o.value].lastSeen) then Some(n - 1) else o
  }

  datatype Found = Found(buckets: seq<State>, at: Option<nat>)

  /** `session_find_or_create` as a function of the buckets. */
  function Lookup(hash: Hash, b: seq<State>, key: string, now: int): (r: Found)
    requires |b| == BUCKETS
    ensures |r.buckets| == BUCKETS
    ensures r.at.Some? ==> r.at.value < BUCKETS
  {
    var p := Probe(hash, b, key, 0);
    if p.Some? then
      var i := Slot(hash(key), p.value);
      if b[i].inUse then Found(b[i := b[i].(lastSeen := now)], Some(i))
      else Found(b[i := Taken(key, now)], Some(i))
    else
      var v := Oldest(b, BUCKETS);
      if v.None? then Found(b, None) else Found(b[v.value := Taken(key, now)], v)
  }

  //
  // What it means
  //

  lemma {:induction false} ProbeMeets(hash: Hash, b: seq<State>, key: string, p: nat)
    requires |b| == BUCKETS
    ensures var r := Probe(hash, b, key, p);
            var h := hash(key);
            && (forall q: nat :: p <= q < (if r.Some? then r.value else BUCKETS) ==>
                  b[Slot(h, q)].inUse && b[Slot(h, q)].key != key)
            && (r.Some? ==> !b[Slot(h, r.value)].inUse || b[Slot(h, r.value)].key == key)
    decreases BUCKETS - p
  {
    if p < BUCKETS {
      ProbeMeets(hash, b, key, p + 1);
    }
  }

  lemma {:induction false} OldestIsOldest(b: seq<State>, n: nat)
    requires n <= |b|
    ensures var r := Oldest(b, n);
            && (r.None? ==> forall i :: 0 <= i < n ==> !Evictable(b[i]))
            && (r.Some? ==> forall i :: 0 <= i < n && Evictable(b[i]) ==> b[r.value].lastSeen <= b[i].lastSeen)
            && (r.Some? ==> forall i :: 0 <= i < r.value && Evictable(b[i]) ==> b[r.value].lastSeen < b[i].lastSeen)
  {
    if n > 0 {
      OldestIsOldest(b, n - 1);
    }
  }

  /** A key in the table is found in its own bucket. */
  lemma PresentIsFound(hash: Hash, b: seq<State>, key: string, i: nat)
    requires Ok(hash, b) && Holds(b, i, key)
    ensures Probe(hash, b, key, 0) == Some(Distance(hash(key), i))
    ensures Slot(hash(key), Distance(hash(key), i)) == i
  {
    var h := hash(key);
    var d := Distance(h, i);
    SlotOfDistance(h, i, d);
    ProbeMeets(hash, b, key, 0);
    assert Reachable(hash, b, i);
    forall q: nat | q < d ensures b[Slot(h, q)].inUse && b[Slot(h, q)].key != key {
      SlotOfDistance(h, i, q);
    }
  }

  /** A key that is not in the table gets the first free bucket on its way, if there is one. */
  lemma AbsentGetsFree(hash: Hash, b: seq<State>, key: string)
    requires |b| == BUCKETS && !Has(b, key)
    ensures var p := Probe(hash, b, key, 0);
            var h := hash(key);
            && (p.Some? ==> !b[Slot(h, p.value)].inUse)
            && (p.None? ==> forall i :: 0 <= i < BUCKETS ==> b[i].inUse)
  {
    ProbeMeets(hash, b, key, 0);
    var p := Probe(hash, b, key, 0);
    var h := hash(key);
    if p.Some? {
      var i := Slot(h, p.value);
      assert !Holds(b, i, key);
    } else {
      forall i | 0 <= i < BUCKETS ensures b[i].inUse {
        SlotOfDistance(h, i, Distance(h, i));
        assert b[Slot(h, Distance(h, i))].inUse;
      }
    }
  }

  /** Taking a free or an evicted bucket for a new key keeps the invariant. */
  lemma TakeKeepsOk(hash: Hash, b: seq<State>, key: string, now: int, i: nat)
    requires Ok(hash, b) && i < BUCKETS && |key| < KEY_LEN && !Has(b, key)
    requires forall p: nat :: p < Distance(hash(key), i) ==> b[Slot(hash(key), p)].inUse
    ensures Ok(hash, b[i := Taken(key, now)])
  {
    var b' := b[i := Taken(key, now)];
    assert forall j: nat :: j < BUCKETS && b[j].inUse ==> b'[j].inUse;
    forall j: nat | j < BUCKETS && b'[j].inUse ensures Reachable(hash, b', j) {
      if j != i {
        assert Reachable(hash, b, j);
        assert b'[j].key == b[j].key;
      }
    }
    forall x, y | 0 <= x < y < BUCKETS && b'[x].inUse && b'[y].inUse ensures b'[x].key != b'[y].key {
      if x == i {
        assert !Holds(b, y, key);
      } else if y == i {
        assert !Holds(b, x, key);
      }
    }
  }

  /** Changing anything of a session but its key and its use keeps the invariant. */
  lemma TouchKeepsOk(hash: Hash, b: seq<State>, i: nat, s: State)
    requires Ok(hash, b) && i < BUCKETS && b[i].inUse && s.inUse && s.key == b[i].key
    ensures Ok(hash, b[i := s])
  {
    var b' := b[i := s];
    assert forall j: nat :: j < BUCKETS ==> b'[j].inUse == b[j].inUse && b'[j].key == b[j].key;
    forall j: nat | j < BUCKETS && b'[j].inUse ensures Reachable(hash, b', j) {
      assert Reachable(hash, b, j);
    }
  }

  /** What the map from keys to sessions must do on a lookup. */
  ghost predicate MapStep(
      b: seq<State>, key: string, now: int, r: Found)
    requires |b| == BUCKETS && |r.buckets| == BUCKETS
  {
    if Has(b, key) then
      // the same bucket with the same state, seen now
      exists i: nat :: Holds(b, i, key) && r == Found(b[i := b[i].(lastSeen := now)], Some(i))
    else if exists i: nat :: i < BUCKETS && !b[i].inUse then
      // a free bucket
      exists i: nat :: i < BUCKETS && !b[i].inUse && r == Found(b[i := Taken(key, now)], Some(i))
    else if exists i: nat :: i < BUCKETS && !b[i].blocked then
      // the oldest session that is not blocked makes room
      exists i: nat :: i < BUCKETS && !b[i].blocked && r == Found(b[i := Taken(key, now)], Some(i))
        && forall j: nat :: j < BUCKETS && !b[j].blocked ==> b[i].lastSeen <= b[j].lastSeen
    else
      // only a table full of blocked sessions turns a key away
      r == Found(b, None)
  }

  /** One lookup refines one step of the map and keeps the invariant. */
  lemma LookupRefinesMap(hash: Hash, b: seq<State>, key: string, now: int)
    requires Ok(hash, b) && |key| < KEY_LEN
    ensures MapStep(b, key, now, Lookup(hash, b, key, now))
    ensures Ok(hash, Lookup(hash, b, key, now).buckets)
  {
    var r := Lookup(hash, b, key, now);
    if Has(b, key) {
      var i: nat :| Holds(b, i, key);
      PresentIsFound(hash, b, key, i);
      TouchKeepsOk(hash, b, i, b[i].(lastSeen := now));
    } else {
      AbsentGetsFree(hash, b, key);
      ProbeMeets(hash, b, key, 0);
      var p := Probe(hash, b, key, 0);
      if p.Some? {
        var i := Slot(hash(key), p.value);
        SlotOfDistance(hash(key), i, p.value);
        TakeKeepsOk(hash, b, key, now, i);
      } else {
        OldestIsOldest(b, BUCKETS);
        var v := Oldest(b, BUCKETS);
        if v.Some? {
          TakeKeepsOk(hash, b, key, now, v.value);
        }
      }
    }
  }

  /** A key that does not fit the buffer is stored cut, so it is never found again. */
  lemma LongKeyNeverFound(hash: Hash, b: seq<State>, key: string, now: int)
    requires |b| == BUCKETS && KEY_LEN <= |key|
    requires forall i :: 0 <= i < BUCKETS ==> |b[i].key| < KEY_LEN
    ensures var r := Lookup(hash, b, key, now);
            && (forall i :: 0 <= i < BUCKETS ==> |r.buckets[i].key| < KEY_LEN)
            && (r.at.Some? ==>
                  && r.buckets[r.at.value] == Taken(key, now) && !Has(r.buckets, key)
                  && r.buckets[r.at.value].key == key[..KEY_LEN - 1])
  {
    ProbeMeets(hash, b, key, 0);
    var r := Lookup(hash, b, key, now);
    assert forall i: nat :: i < BUCKETS ==> |r.buckets[i].key| < KEY_LEN;
  }

  //
  // Counting
  //

  lemma {:induction false} InUseUpdate(b: seq<State>, i: nat, s: State)
    requires i < |b|
    ensures InUse(b[i := s])
         == InUse(b) - (if b[i].inUse then 1 else 0) + (if s.inUse then 1 else 0)
    decreases |b|
  {
    var n := |b| - 1;
    if i < n {
      assert b[i := s][..n] == b[..n][i := s];
      InUseUpdate(b[..n], i, s);
    } else {
      assert b[i := s][..n] == b[..n];
    }
  }

  lemma {:induction false} InUseOfZeros(n: nat)
    ensures InUse(seq(n, _ => ZERO)) == 0
  {
    if n > 0 {
      assert seq(n, _ => ZERO)[..n - 1] == seq(n - 1, _ => ZERO);
      InUseOfZeros(n - 1);
    }
  }

  //
  // The table as the daemon mutates it
  //

  class Table {
    const hash: Hash
    const buckets: array<State>
    var count: int

    ghost predicate Valid()
      reads this, buckets
    {
      Ok(hash, buckets[..]) && count == InUse(buckets[..])
    }

    constructor (hash: Hash)
      ensures Valid() && fresh(buckets) && this.hash == hash && count == 0
      ensures buckets[..] == seq(BUCKETS, _ => ZERO)
    {
      this.hash := hash;
      buckets := new State[BUCKETS](_ => ZERO);
      count := 0;
      new;
      assert buckets[..] == seq(BUCKETS, _ => ZERO);
      InUseOfZeros(BUCKETS);
    }

    /** The eviction scan: index of the oldest session that is in use and not blocked, or -1. */
    method FindOldest() returns (oldest: int)
      requires buckets.Length == BUCKETS
      ensures oldest == (var o := Oldest(buckets[..], BUCKETS); if o.None? then -1 else o.value)
    {
      oldest := -1;
      ghost var b := buckets[..];
      for i := 0 to BUCKETS
        invariant -1 <= oldest < i
        invariant oldest == (var o := Oldest(b, i); if o.None? then -1 else o.value)
      {
        var s := buckets[i];
        assert s == b[i];
        if s.inUse && !s.blocked {
          if oldest < 0 || s.lastSeen < buckets[oldest].lastSeen {
            oldest := i;
          }
        }
      }
    }

    /** The probe loop: the probe that meets a free bucket or the key, or -1. */
    method FindProbe(key: string) returns (p: int)
      requires buckets.Length == BUCKETS
      ensures p == (var r := Probe(hash, buckets[..], key, 0); if r.None? then -1 else r.value)
    {
      ghost var b := buckets[..];
      var h := hash(key);
      p := 0;
      while p < BUCKETS
        invariant 0 <= p <= BUCKETS
        invariant Probe(hash, b, key, p) == Probe(hash, b, key, 0)
      {
        var i := Slot(h, p);
        assert buckets[i] == b[i];
        if !buckets[i].inUse || buckets[i].key == key {
          return;
        }
        p := p + 1;
      }
      p := -1;
    }

    /** `session_find_or_create`: the bucket of the key, or -1 for NULL. */
    method FindOrCreate(key: string, now: int) returns (at: int)
      requires Valid() && |key| < KEY_LEN
      modifies this`count, buckets
      ensures Valid()
      ensures var r := Lookup(hash, old(buckets[..]), key, now);
              && buckets[..] == r.buckets
              && at == if r.at.None? then -1 else r.at.value
    {
      ghost var b := buckets[..];
      LookupRefinesMap(hash, b, key, now);
      var p := FindProbe(key);
      if p >= 0 {
        at := Slot(hash(key), p);
        assert buckets[at] == b[at];
        if !buckets[at].inUse {
          InUseUpdate(b, at, Taken(key, now));
          buckets[at] := Taken(key, now);
          count := count + 1;
        } else {
          InUseUpdate(b, at, b[at].(lastSeen := now));
          buckets[at] := buckets[at].(lastSeen := now);
        }
        return;
      }
      at := FindOldest();
      if at < 0 {
        return -1;
      }
      InUseUpdate(b, at, Taken(key, now));
      buckets[at] := Taken(key, now);
    }

    /** Any change of a found session that keeps its key. */
    method Put(i: nat, s: State)
      requires Valid() && i < BUCKETS && buckets[i].inUse && s.inUse && s.key == buckets[i].key
      modifies buckets
      ensures Valid() && buckets[..] == old(buckets[..])[i := s]
    {
      TouchKeepsOk(hash, buckets[..], i, s);
      InUseUpdate(buckets[..], i, s);
      buckets[i] := s;
    }
  }

  //
  // Runs
  //

  /** A lookup, or a change of a session in place. */
  datatype TableOp = Find(key: string, now: int) | Touch(at: nat, s: State)

  ghost predicate Legal(b: seq<State>, op: TableOp) {
    match op
    case Find(key, _) => |key| < KEY_LEN
    case Touch(i, s) =>
      i < |b| && b[i].inUse && s.inUse && s.key == b[i].key && (b[i].blocked ==> s.blocked)
  }

  ghost function Do(hash: Hash, b: seq<State>, op: TableOp): (r: seq<State>)
    requires |b| == BUCKETS && Legal(b, op)
    ensures |r| == BUCKETS
  {
    match op
    case Find(key, now) => Lookup(hash, b, key, now).buckets
    case Touch(i, s) => b[i := s]
  }

  /** `states` is a run of the table that starts with no session. */
  ghost predicate IsRun(hash: Hash, ops: seq<TableOp>, states: seq<seq<State>>) {
    && |states| == |ops| + 1
    && states[0] == seq(BUCKETS, _ => ZERO)
    && (forall i :: 0 <= i < |states| ==> |states[i]| == BUCKETS)
    && forall i :: 0 <= i < |ops| ==>
         Legal(states[i], ops[i]) && states[i + 1] == Do(hash, states[i], ops[i])
  }

  /** The invariant holds in every state of every run. */
  lemma {:induction false} RunKeepsOk(hash: Hash, ops: seq<TableOp>, states: seq<seq<State>>, n: nat)
    requires IsRun(hash, ops, states) && n < |states|
    ensures Ok(hash, states[n])
  {
    if n > 0 {
      RunKeepsOk(hash, ops, states, n - 1);
      match ops[n - 1]
      case Find(key, now) => LookupRefinesMap(hash, states[n - 1], key, now);
      case Touch(i, s) => TouchKeepsOk(hash, states[n - 1], i, s);
    }
  }

  /** One step moves no key: a bucket keeps its key unless it was the oldest unblocked one of a full table. */
  lemma StepKeepsBucket(hash: Hash, b: seq<State>, op: TableOp, j: nat)
    requires Ok(hash, b) && Legal(b, op) && j < BUCKETS && b[j].inUse
    ensures var b' := Do(hash, b, op);
            && b'[j].inUse
            && ((b'[j].key == b[j].key && (b[j].blocked ==> b'[j].blocked))
                || (&& op.Find? && !Has(b, op.key) && b'[j] == Taken(op.key, op.now)
                    && (forall i :: 0 <= i < BUCKETS ==> b[i].inUse)
                    && !b[j].blocked
                    && forall i :: 0 <= i < BUCKETS && !b[i].blocked ==> b[j].lastSeen <= b[i].lastSeen))
  {
    if op.Find? {
      LookupRefinesMap(hash, b, op.key, op.now);
    }
  }

  /** A blocked session stays in its bucket, blocked, for the rest of the run. */
  lemma {:induction false} BlockedStays(
      hash: Hash, ops: seq<TableOp>, states: seq<seq<State>>, m: nat, n: nat, j: nat)
    requires IsRun(hash, ops, states) && m <= n < |states|
    requires j < BUCKETS && states[m][j].inUse && states[m][j].blocked
    ensures states[n][j].inUse && states[n][j].blocked && states[n][j].key == states[m][j].key
    decreases n
  {
    if m < n {
      BlockedStays(hash, ops, states, m, n - 1, j);
      RunKeepsOk(hash, ops, states, n - 1);
      StepKeepsBucket(hash, states[n - 1], ops[n - 1], j);
    }
  }

  //
  // When a session was last seen
  //

  /** A new session carries nothing over from the one whose bucket it takes. */
  lemma NewSessionIsEmpty(hash: Hash, b: seq<State>, key: string, now: int)
    requires Ok(hash, b) && |key| < KEY_LEN && !Has(b, key)
    ensures var r := Lookup(hash, b, key, now);
            r.at.Some? ==>
              var s := r.buckets[r.at.value];
              && s.key == key && s.inUse && s.lastSeen == now && !s.blocked
              && s.counts == Counters(0, 0, 0, 0, 0, 0, 0, 0) && s.touchedDirs == 0 && s.dirs == []
              && s.shortStart == 0 && s.longStart == 0 && s.score == 0 && s.level == Normal
              && s.eventId == "" && s.totalEvents == 0
  {
    AbsentGetsFree(hash, b, key);
  }

  /** The time of the last lookup of a key, by the operations alone. */
  ghost function LastFind(ops: seq<TableOp>, key: string): (t: Option<int>) {
    if ops == [] then None
    else
      var last := ops[|ops| - 1];
      if last.Find? && last.key == key then Some(last.now) else LastFind(ops[..|ops| - 1], key)
  }

  /** A change in place that leaves the time of the last lookup alone, as all the daemon's do. */
  ghost predicate KeepsTime(b: seq<State>, op: TableOp) {
    op.Touch? && op.at < |b| ==> op.s.lastSeen == b[op.at].lastSeen
  }

  ghost predicate TimesAgree(b: seq<State>, ops: seq<TableOp>) {
    forall j: nat :: j < |b| && b[j].inUse ==> LastFind(ops, b[j].key) == Some(b[j].lastSeen)
  }

  lemma LookupTimes(hash: Hash, b: seq<State>, ops: seq<TableOp>, key: string, now: int)
    requires Ok(hash, b) && |key| < KEY_LEN && TimesAgree(b, ops)
    ensures TimesAgree(Lookup(hash, b, key, now).buckets, ops + [Find(key, now)])
  {
    LookupRefinesMap(hash, b, key, now);
    var b', after := Lookup(hash, b, key, now).buckets, ops + [Find(key, now)];
    assert after[..|ops|] == ops;
    forall j: nat | j < BUCKETS && b'[j].inUse ensures LastFind(after, b'[j].key) == Some(b'[j].lastSeen) {
      if b'[j].key != key {
        assert b'[j] == b[j];
      } else if Has(b, key) {
        var i: nat :| Holds(b, i, key);
        assert Holds(b', i, key);
        assert Lookup(hash, b, key, now).at == Some(i) by {
          PresentIsFound(hash, b, key, i);
        }
      } else {
        assert !Holds(b, j, key);
        AbsentGetsFree(hash, b, key);
      }
    }
  }

  /** Over every run a session's `lastSeen` is the time of the last lookup of its key. */
  lemma {:induction false} LastSeenIsLastFind(hash: Hash, ops: seq<TableOp>, states: seq<seq<State>>, n: nat)
    requires IsRun(hash, ops, states) && n < |states|
    requires forall i :: 0 <= i < n ==> KeepsTime(states[i], ops[i])
    ensures TimesAgree(states[n], ops[..n])
  {
    if n > 0 {
      LastSeenIsLastFind(hash, ops, states, n - 1);
      RunKeepsOk(hash, ops, states, n - 1);
      var b := states[n - 1];
      assert ops[..n] == ops[..n - 1] + [ops[n - 1]];
      match ops[n - 1]
      case Find(key, now) => LookupTimes(hash, b, ops[..n - 1], key, now);
      case Touch(i, s) => assert ops[..n][..n - 1] == ops[..n - 1];
    }
  }

  /**
    Whom an eviction hits, told by the operations: in any run, a session that loses its bucket to
    another key is unblocked, and its last lookup is no later than that of any other unblocked one.
   */
  lemma EvictedWasLookedUpFirst(
      hash: Hash, ops: seq<TableOp>, states: seq<seq<State>>, n: nat, j: nat, other: nat)
    requires IsRun(hash, ops, states) && n < |ops| && j < BUCKETS && other < BUCKETS
    requires forall i :: 0 <= i < n ==> KeepsTime(states[i], ops[i])
    requires states[n][j].inUse && states[n + 1][j].key != states[n][j].key
    ensures ops[n].Find? && states[n + 1][j].key == ops[n].key && !states[n][j].blocked && states[n][other].inUse
    ensures var evicted, kept := LastFind(ops[..n], states[n][j].key), LastFind(ops[..n], states[n][other].key);
            !states[n][other].blocked ==> evicted.Some? && kept.Some? && evicted.value <= kept.value
  {
    LastSeenIsLastFind(hash, ops, states, n);
    RunKeepsOk(hash, ops, states, n);
    StepKeepsBucket(hash, states[n], ops[n], j);
  }
}
