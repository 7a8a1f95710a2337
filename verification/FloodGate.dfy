/**
  The flood gate: a direct-mapped cache of the last event sent per key, which may forget a key when
  another one takes its slot.
 */
module FloodGate {
  import opened Base
  import Bits

  const SLOTS: nat := 1024

  datatype Slot = Slot(key: nat, lastSent: int)

  const EMPTY := Slot(0, 0)

  /** 0 marks an empty slot, so no event has it as its key. */
  function NonZero(mixed: nat): (key: nat)
    ensures if mixed > 0 then key == mixed else key == 1
  {
    if mixed == 0 then 1 else mixed
  }

  function Index(key: nat): (i: nat)
    ensures i < SLOTS
  {
    key % SLOTS
  }

  /** The slot is given by the ten low bits of the key. */
  lemma IndexIsLowBits(key: nat)
    ensures Index(key) == Bits.And(key, SLOTS - 1)
  {
    Bits.PowOf10();
    Bits.LowMask(key, 10);
    Bits.LowIsRemainder(key, 10);
  }

  predicate Suppressed(slots: seq<Slot>, key: nat, now: int, window: int)
    requires |slots| == SLOTS
  {
    var e := slots[Index(key)];
    e.key == key && now - e.lastSent < window
  }

  class Gate {
    const slots: array<Slot>
    /** The mix of the session's hash and the file number, any function to 64 bits. */
    const mix: (string, nat) -> nat

    ghost predicate Valid() { slots.Length == SLOTS }

    constructor (mix: (string, nat) -> nat)
      ensures Valid() && fresh(slots) && this.mix == mix
      ensures slots[..] == seq(SLOTS, _ => EMPTY)
    {
      this.mix := mix;
      slots := new Slot[SLOTS](_ => EMPTY);
    }

    /** `fangate_reset`. */
    method Reset()
      requires Valid()
      modifies slots
      ensures slots[..] == seq(SLOTS, _ => EMPTY)
    {
      for i := 0 to SLOTS
        invariant forall k :: 0 <= k < i ==> slots[k] == EMPTY
      {
        slots[i] := EMPTY;
      }
    }

    /** `fangate_allow`; no session stands for a missing key. */
    method Allow(session: Option<string>, inode: nat, now: int, window: int) returns (sent: bool)
      requires Valid()
      modifies slots
      ensures var step := if session.None? || window <= 0 then Pass
                          else Event(NonZero(mix(session.value, inode)), now, window);
              slots[..] == After(old(slots[..]), step) && sent == Sends(old(slots[..]), step)
    {
      if window <= 0 || session.None? {
        return true;
      }
      var key := mix(session.value, inode);
      if key == 0 {
        key := 1;
      }
      var e := slots[Index(key)];
      var suppress := e.key == key && now - e.lastSent < window;
      if !suppress {
        slots[Index(key)] := Slot(key, now);
      }
      return !suppress;
    }
  }

  //
  // Runs
  //

  datatype Step =
    | Event(key: nat, now: int, window: int)
    | Pass      // let through without being recorded
    | Clear

  function Sends(slots: seq<Slot>, step: Step): (b: bool)
    requires |slots| == SLOTS
  {
    match step
    case Event(key, now, window) => !Suppressed(slots, key, now, window)
    case Pass => true
    case Clear => false
  }

  function After(slots: seq<Slot>, step: Step): (r: seq<Slot>)
    requires |slots| == SLOTS
    ensures |r| == SLOTS
  {
    match step
    case Event(key, now, window) =>
      if Suppressed(slots, key, now, window) then slots else slots[Index(key) := Slot(key, now)]
    case Pass => slots
    case Clear => seq(SLOTS, _ => EMPTY)
  }

  ghost predicate IsRun(steps: seq<Step>, states: seq<seq<Slot>>) {
    && |states| == |steps| + 1
    && states[0] == seq(SLOTS, _ => EMPTY)
    && (forall i :: 0 <= i < |states| ==> |states[i]| == SLOTS)
    && (forall i :: 0 <= i < |steps| && steps[i].Event? ==> steps[i].key > 0)
    && forall i :: 0 <= i < |steps| ==> states[i + 1] == After(states[i], steps[i])
  }

  ghost predicate Emitted(steps: seq<Step>, states: seq<seq<Slot>>, i: nat)
    requires IsRun(steps, states)
  {
    i < |steps| && steps[i].Event? && Sends(states[i], steps[i])
  }

  ghost predicate Monotone(steps: seq<Step>) {
    forall i, j :: 0 <= i < j < |steps| && steps[i].Event? && steps[j].Event? ==> steps[i].now <= steps[j].now
  }

  /** Step `j` emitted what the slot of `key` remembers. */
  ghost predicate Recalls(steps: seq<Step>, states: seq<seq<Slot>>, j: nat, n: nat, key: nat)
    requires IsRun(steps, states) && n < |states|
  {
    j < n && Emitted(steps, states, j) && steps[j].key == key && steps[j].now == states[n][Index(key)].lastSent
  }

  /** A slot never remembers anything that was not emitted. */
  lemma {:induction false} SlotRecalls(steps: seq<Step>, states: seq<seq<Slot>>, n: nat, key: nat) returns (j: nat)
    requires IsRun(steps, states) && n < |states| && key > 0 && states[n][Index(key)].key == key
    ensures Recalls(steps, states, j, n, key)
  {
    var step := steps[n - 1];
    if step.Event? && Sends(states[n - 1], step) && Index(step.key) == Index(key) {
      j := n - 1;
    } else {
      j := SlotRecalls(steps, states, n - 1, key);
    }
  }

  /** A suppressed event has an emitted one with the same key less than its window before it. */
  lemma SuppressedHasCause(steps: seq<Step>, states: seq<seq<Slot>>, n: nat) returns (j: nat)
    requires IsRun(steps, states) && Monotone(steps)
    requires n < |steps| && steps[n].Event? && !Sends(states[n], steps[n])
    ensures j < n && Emitted(steps, states, j) && steps[j].key == steps[n].key
    ensures steps[j].now <= steps[n].now < steps[j].now + steps[n].window
  {
    j := SlotRecalls(steps, states, n, steps[n].key);
  }

  /** Another key of the same slot is emitted between two steps. */
  ghost predicate Displaced(steps: seq<Step>, states: seq<seq<Slot>>, i: nat, n: nat, key: nat)
    requires IsRun(steps, states)
  {
    exists m: nat :: i < m < n && Emitted(steps, states, m) && steps[m].key != key && Index(steps[m].key) == Index(key)
  }

  /** Until another key takes the slot, it remembers a key from its emission on. */
  lemma {:induction false} SlotRemembers(steps: seq<Step>, states: seq<seq<Slot>>, i: nat, n: nat)
    requires IsRun(steps, states) && Monotone(steps) && i < n < |states|
    requires Emitted(steps, states, i) && Clear !in steps
    requires !Displaced(steps, states, i, n, steps[i].key)
    ensures var e := states[n][Index(steps[i].key)]; e.key == steps[i].key && e.lastSent >= steps[i].now
    decreases n
  {
    if i + 1 < n {
      SlotRemembers(steps, states, i, n - 1);
      assert steps[n - 1] in steps;
      assert !(Emitted(steps, states, n - 1) && steps[n - 1].key != steps[i].key && Index(steps[n - 1].key) == Index(steps[i].key));
    }
  }

  /**
    With one positive window and no reset, two emissions of a key closer than the window happen
    only if another key of the slot was emitted between them.
   */
  lemma CloseEmissionsAreDisplaced(steps: seq<Step>, states: seq<seq<Slot>>, i: nat, j: nat, window: int)
    requires IsRun(steps, states) && Monotone(steps) && window > 0 && Clear !in steps
    requires forall k :: 0 <= k < |steps| && steps[k].Event? ==> steps[k].window == window
    requires i < j && Emitted(steps, states, i) && Emitted(steps, states, j) && steps[i].key == steps[j].key
    requires steps[j].now - steps[i].now < window
    ensures Displaced(steps, states, i, j, steps[i].key)
  {
    if !Displaced(steps, states, i, j, steps[i].key) {
      SlotRemembers(steps, states, i, j);
    }
  }
}
