/**
  The daemon's verdict across a reload: an address that was written into the policy file is on the
  blacklist of the next policy and in the rebuilt blocked file.
 */
module PolicyReload {
  import opened Base
  import opened SessionTable
  import opened HashLookup
  import opened PolicyLookup
  import opened BlockedFile
  import opened AutoBlacklist
  import opened Daemon
  import PolicyFile
  import JsonTree

  function RowsOf(ips: seq<PolicyFile.Stored>): (rs: seq<Row>) {
    seq(|ips|, i requires 0 <= i < |ips| => Row(Chars(ips[i].ip), ips[i].auto))
  }

  /** The address lists of a policy that was loaded from this file; the sorted array has the same texts. */
  ghost predicate LoadedFrom(lists: Lists, file: seq<byte>) {
    && PolicyFile.LoadedIps(file).Some?
    && lists.blackIps == RowsOf(PolicyFile.LoadedIps(file).value)
    && SameTexts(lists)
  }

  ghost predicate SameTexts(lists: Lists) {
    && (forall i :: 0 <= i < |lists.blackIps| ==> lists.blackIps[i].text in lists.manual)
    && forall t :: t in lists.manual ==> Listed(lists.blackIps, t)
  }

  /** Whatever address the loaded file holds is refused from then on, by the daemon and by the blocked file. */
  lemma LoadedIsBlacklisted(
      host: Host, w: World, policy: Policy, lists: Lists, io: Io, file: seq<byte>, ip: seq<byte>, m: Msg)
    requires Sound(host.isIp) && LoadedFrom(lists, file)
    requires PolicyFile.Holds(PolicyFile.LoadedIps(file).value, ip) && host.isIp(Chars(ip)) && m.ip == Chars(ip)
    ensures Blacklisted(host, Reloaded(w, Some(file), policy, lists, io), m)
    ensures io.lockable && io.writable ==> m.ip in Blocked(Reloaded(w, Some(file), policy, lists, io).text)
  {
    var ips := PolicyFile.LoadedIps(file).value;
    var i :| 0 <= i < |ips| && ips[i].ip == ip;
    assert AddressText(m.ip);
    assert lists.blackIps[i].text == m.ip;
    if io.lockable && io.writable {
      PlainOnesAre(lists.manual + []);
      assert Plain(m.ip);
      JoinHas(PlainOnes(lists.manual + []), m.ip);
    }
  }

  /** The step blocks an ordinary client by its score, and the client has a real address. */
  ghost predicate Convicts(host: Host, w: World, m: Msg, env: Env)
    requires |w.buckets| == BUCKETS
  {
    Lands(host, w, m, env) && !Blacklisted(host, w, m) && host.isIp(m.ip)
  }

  /** What a block by score does to the lists and to the two files. */
  lemma LandingIs(host: Host, w: World, m: Msg, env: Env)
    requires |w.buckets| == BUCKETS && Lands(host, w, m, env) && !Blacklisted(host, w, m)
    ensures var w' := Handle(host, w, m, env);
            && w'.lists == w.lists
            && w'.autos == Added(host.isIp, w.lists.manual, w.autos, m.ip)
            && w'.file == host.persist(w.file, m.ip, env.savable)
            && w'.text == Synced(Executed(host.isIp, w.text, FileIp(m), env.io).1, w.lists.manual, w'.autos, env.syncIo)
  {
    var found := Lookup(host.hash, w.buckets, Key(m), env.seenAt);
    AssessedKeeps(host, w.policy, WithEvent(found.buckets[found.at.value], env.newId), m, env);
  }

  /** A real address has octets that say the same. */
  lemma AddressOctets(isIp: string -> bool, ip: string)
    requires Sound(isIp) && isIp(ip)
    ensures Chars(Octets(ip)) == ip && 0 !in Octets(ip) && 0 < |Octets(ip)| < PolicyFile.IP_LEN - 1
  {
    assert AddressText(ip);
    forall i | 0 <= i < |ip| ensures ip[i] as int < 256 && ip[i] as int != 0 {
      assert ip[i] in ip;
    }
  }

  /** What the recogniser of addresses says of this text, as a routine on its bytes asks it. */
  function Answer(host: Host, ip: string): (isIp: seq<byte> -> bool) { _ => host.isIp(ip) }

  /** The daemon persists its verdicts as PolicyFile has it. */
  ghost predicate Persists(host: Host) {
    forall file: Option<seq<byte>>, ip: string, savable: bool ::
      host.persist(file, ip, savable) == PolicyFile.Saved(Answer(host, ip), file, Octets(ip), savable)
  }

  /**
    A verdict survives a reload of the policy file as the daemon left it, whatever the policy held
    before, if the loader takes the file and gets as far as the entry that names the address.
   */
  lemma VerdictSurvivesReload(
      host: Host, w: World, m: Msg, env: Env, policy: Policy, lists: Lists, io: Io, later: Msg)
    requires |w.buckets| == BUCKETS && Sound(host.isIp) && Persists(host)
    requires Convicts(host, w, m, env) && later.ip == m.ip
    requires w.file.Some? && JsonTree.Parse(JsonTree.CStr(w.file.value)).Some? && PolicyFile.Reprintable(w.file)
    ensures var root := JsonTree.Parse(JsonTree.CStr(w.file.value)).value;
            var w' := Handle(host, w, m, env);
            var w'' := Reloaded(w', w'.file, policy, lists, io);
            && |w.file.value| <= PolicyFile.FILE_MAX && env.savable && PolicyFile.WillLoad(root, Octets(m.ip))
            && w'.file.Some? && LoadedFrom(lists, w'.file.value) ==>
              && Blacklisted(host, w'', later)
              && (io.lockable && io.writable ==> m.ip in Blocked(w''.text))
  {
    var root := JsonTree.Parse(JsonTree.CStr(w.file.value)).value;
    var w' := Handle(host, w, m, env);
    var ip := Octets(m.ip);
    LandingIs(host, w, m, env);
    AddressOctets(host.isIp, m.ip);
    if |w.file.value| <= PolicyFile.FILE_MAX && env.savable && PolicyFile.WillLoad(root, ip)
      && w'.file.Some? && LoadedFrom(lists, w'.file.value) {
      assert w'.file == Some(PolicyFile.NextFile(w.file.value, ip));
      PolicyFile.PersistThenLoad(w.file.value, ip);
      LoadedIsBlacklisted(host, w', policy, lists, io, w'.file.value, ip, later);
    }
  }
}
