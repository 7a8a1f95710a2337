/** Shared small types. */
module Base {
  datatype Option<+T> = None | Some(value: T)

  /** An `unsigned char`. */
  type byte = x: int | 0 <= x < 256

  /** C `unsigned` limits that the daemon's counters saturate at or wrap at. */
  const UINT32_MAX: int := 0xFFFF_FFFF
  const TWO_32: int := 0x1_0000_0000
  const TWO_64: int := 0x1_0000_0000_0000_0000
  const INT32_MAX: int := 0x7FFF_FFFF
  const INT32_MIN: int := -0x8000_0000

  /** How many automatic entries the blacklist keeps, in memory and in the policy file. */
  const AUTO_MAX: nat := 64

  /** The bytes of a text as characters, and back. */
  function Chars(s: seq<byte>): (t: string) { seq(|s|, i requires 0 <= i < |s| => s[i] as char) }

  function Octets(t: string): (s: seq<byte>) {
    seq(|t|, i requires 0 <= i < |t| => (t[i] as int % 256) as byte)
  }

  function Min(a: int, b: int): (r: int) { if a <= b then a else b }

  ghost predicate Distinct<T>(s: seq<T>) {
    forall i, j :: 0 <= i < j < |s| ==> s[i] != s[j]
  }

  /**
    A predicate of the form `forall n {:trigger Unfold(n)} :: Unfold(n) ==> P` stays folded in a
    proof until `Unfold(0)` is asserted.
   */
  ghost predicate Unfold(n: nat) { true }

  /** A linear scan, as for the directories of a session and for the addresses of a list. */
  method Contains<T(==)>(list: seq<T>, x: T) returns (found: bool)
    ensures found <==> x in list
  {
    for i := 0 to |list|
      invariant x !in list[..i]
    {
      if list[i] == x {
        return true;
      }
    }
    return false;
  }

  //
  // Runs
  //

  /** What the steps of a run add up to. */
  ghost function Total<S, I>(adds: (S, I) -> nat, ss: seq<S>, ins: seq<I>, start: nat, end: nat): (n: nat)
    requires start <= end <= |ins| < |ss|
  {
    if start == end then 0 else Total(adds, ss, ins, start, end - 1) + adds(ss[end - 1], ins[end - 1])
  }

  /** What every step keeps while it counts, holds at the end with the count of all steps. */
  lemma {:induction false} KeptByRun<S, I>(
      kept: (S, nat) -> bool, adds: (S, I) -> nat, ss: seq<S>, ins: seq<I>, start: nat, end: nat)
    requires start <= end <= |ins| < |ss| && kept(ss[start], 0)
    requires forall i: nat, n: nat {:trigger kept(ss[i], n)} ::
               start <= i < end && kept(ss[i], n) ==> kept(ss[i + 1], n + adds(ss[i], ins[i]))
    ensures kept(ss[end], Total(adds, ss, ins, start, end))
    decreases end
  {
    if start < end {
      KeptByRun(kept, adds, ss, ins, start, end - 1);
      assert kept(ss[end - 1], Total(adds, ss, ins, start, end - 1));
    }
  }
}
