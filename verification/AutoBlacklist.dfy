/**
  The automatic blacklist in memory: at most 64 addresses in the order in which they were added,
  the oldest making room for a new one.
 */
module AutoBlacklist {
  import opened Base
  import opened BlockedFile

  const IP_LEN: nat := 48

  /** What an entry of the list can hold of an address. */
  function Stored(ip: string): (r: string) { if |ip| < IP_LEN then ip else ip[..IP_LEN - 1] }

  predicate Adds(isIp: string -> bool, manual: seq<string>, autos: seq<string>, ip: string) {
    ip != [] && isIp(ip) && ip !in manual && ip !in autos
  }

  /** The list after `scorer_blacklist_auto_add`. */
  function Added(isIp: string -> bool, manual: seq<string>, autos: seq<string>, ip: string): (r: seq<string>) {
    if !Adds(isIp, manual, autos, ip) then autos
    else (if |autos| >= AUTO_MAX then autos[|autos| - AUTO_MAX + 1..] else autos) + [Stored(ip)]
  }

  /** The array and its used part, shifted in place. */
  class AutoList {
    const ips: array<string>
    var count: nat

    ghost predicate Valid()
      reads this
    {
      ips.Length == AUTO_MAX && count <= AUTO_MAX
    }

    ghost function Contents(): (s: seq<string>)
      requires Valid()
      reads this, ips
    {
      ips[..count]
    }

    constructor ()
      ensures Valid() && fresh(ips) && Contents() == []
    {
      ips := new string[AUTO_MAX](_ => "");
      count := 0;
    }

    /** `memmove` of all entries one place to the left. */
    method ShiftLeft()
      requires Valid() && count == AUTO_MAX
      modifies this`count, ips
      ensures Valid() && Contents() == old(Contents())[1..]
    {
      for i := 0 to AUTO_MAX - 1
        invariant forall k :: 0 <= k < i ==> ips[k] == old(ips[k + 1])
        invariant forall k :: i <= k < AUTO_MAX ==> ips[k] == old(ips[k])
      {
        ips[i] := ips[i + 1];
      }
      count := AUTO_MAX - 1;
      assert forall k :: 0 <= k < AUTO_MAX - 1 ==> ips[..count][k] == old(ips[..count])[1..][k];
    }

    method Add(isIp: string -> bool, manual: seq<string>, ip: string)
      requires Valid()
      modifies this`count, ips
      ensures Valid() && Contents() == Added(isIp, manual, old(Contents()), ip)
    {
      if ip == [] || !isIp(ip) {
        return;
      }
      var found := Contains(manual, ip);
      if found {
        return;
      }
      found := Contains(ips[..count], ip);
      if found {
        return;
      }
      if count >= AUTO_MAX {
        ShiftLeft();
      }
      ips[count] := Stored(ip);
      count := count + 1;
    }
  }

  //
  // Runs
  //

  function AddAll(isIp: string -> bool, manual: seq<string>, asked: seq<string>): (autos: seq<string>) {
    if asked == [] then [] else Added(isIp, manual, AddAll(isIp, manual, asked[..|asked| - 1]), asked[|asked| - 1])
  }

  /** The addresses that were added, each time they were, over a whole run. */
  ghost function Insertions(isIp: string -> bool, manual: seq<string>, asked: seq<string>): (log: seq<string>) {
    if asked == [] then []
    else
      var init, ip := asked[..|asked| - 1], asked[|asked| - 1];
      Insertions(isIp, manual, init) + (if Adds(isIp, manual, AddAll(isIp, manual, init), ip) then [ip] else [])
  }

  ghost function LastFew(log: seq<string>): (r: seq<string>) {
    if |log| <= AUTO_MAX then log else log[|log| - AUTO_MAX..]
  }

  lemma LastFewSnoc(log: seq<string>, ip: string)
    ensures LastFew(log + [ip])
         == (if |LastFew(log)| >= AUTO_MAX then LastFew(log)[1..] else LastFew(log)) + [ip]
  {
  }

  /** The list holds exactly the last 64 insertions, oldest first: only the oldest is ever evicted. */
  lemma {:induction false} ListIsLastInsertions(isIp: string -> bool, manual: seq<string>, asked: seq<string>)
    requires Sound(isIp)
    ensures AddAll(isIp, manual, asked) == LastFew(Insertions(isIp, manual, asked))
  {
    if asked != [] {
      var init, ip := asked[..|asked| - 1], asked[|asked| - 1];
      ListIsLastInsertions(isIp, manual, init);
      if Adds(isIp, manual, AddAll(isIp, manual, init), ip) {
        assert AddressText(ip);
        LastFewSnoc(Insertions(isIp, manual, init), ip);
      }
    }
  }

  ghost predicate Clean(isIp: string -> bool, manual: seq<string>, autos: seq<string>) {
    && |autos| <= AUTO_MAX
    && Distinct(autos)
    && forall i :: 0 <= i < |autos| ==> isIp(autos[i]) && autos[i] !in manual
  }

  lemma AddedKeepsClean(isIp: string -> bool, manual: seq<string>, autos: seq<string>, ip: string)
    requires Sound(isIp) && Clean(isIp, manual, autos)
    ensures Clean(isIp, manual, Added(isIp, manual, autos, ip))
    ensures isIp(ip) ==> ip in manual || ip in Added(isIp, manual, autos, ip)
  {
    if Adds(isIp, manual, autos, ip) {
      assert AddressText(ip);
      assert Stored(ip) == ip;
    }
  }

  /** After any run: real addresses only, none twice, none of the manual list, at most 64. */
  lemma {:induction false} RunIsClean(isIp: string -> bool, manual: seq<string>, asked: seq<string>)
    requires Sound(isIp)
    ensures Clean(isIp, manual, AddAll(isIp, manual, asked))
  {
    if asked != [] {
      RunIsClean(isIp, manual, asked[..|asked| - 1]);
      AddedKeepsClean(isIp, manual, AddAll(isIp, manual, asked[..|asked| - 1]), asked[|asked| - 1]);
    }
  }
}
