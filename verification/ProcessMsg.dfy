/** `process_msg` as the daemon runs it: the steps on the table, the lists and the file, in order. */
module ProcessMsg {
  import opened Base
  import opened Session
  import opened SessionTable
  import opened HashLookup
  import opened PolicyLookup
  import opened Scorer
  import opened BlockedFile
  import opened AutoBlacklist
  import opened Daemon

  class Guard {
    const host: Host
    const table: Table
    const autos: AutoList
    const blocked: BlockedList
    const files: HashedList
    const folders: HashedList
    const whiteUsers: HashedList
    const whiteIps: HashedList
    const blackUsers: HashedList
    const blackIps: HashedList
    const policy: Policy
    var file: Option<seq<byte>>
    var triggers: seq<Trigger>

    ghost predicate ValidLists()
      reads files.hashes, files.rows, folders.hashes, folders.rows
      reads whiteUsers.hashes, whiteUsers.rows, whiteIps.hashes, whiteIps.rows
      reads blackUsers.hashes, blackUsers.rows, blackIps.hashes, blackIps.rows
    {
      && files.Valid() && folders.Valid() && whiteUsers.Valid() && whiteIps.Valid()
      && blackUsers.Valid() && blackIps.Valid()
      && forall i :: 0 <= i < blackIps.count ==> |blackIps.rows[i].text| < IP_LEN
    }

    ghost predicate Valid()
      reads this, table, table.buckets, autos, autos.ips
      reads files.hashes, files.rows, folders.hashes, folders.rows
      reads whiteUsers.hashes, whiteUsers.rows, whiteIps.hashes, whiteIps.rows
      reads blackUsers.hashes, blackUsers.rows, blackIps.hashes, blackIps.rows
    {
      && ValidLists()
      && table.Valid() && table.hash == host.hash
      && autos.Valid() && forall i :: 0 <= i < autos.count ==> |autos.ips[i]| < IP_LEN
    }

    ghost function Manual(): (r: seq<string>)
      requires blackIps.count <= blackIps.rows.Length
      reads blackIps.rows
    {
      seq(blackIps.count, i requires 0 <= i < blackIps.count reads blackIps.rows => blackIps.rows[i].text)
    }

    ghost function ListValues(): (r: Lists)
      requires ValidLists()
      reads files.hashes, files.rows, folders.hashes, folders.rows
      reads whiteUsers.hashes, whiteUsers.rows, whiteIps.hashes, whiteIps.rows
      reads blackUsers.hashes, blackUsers.rows, blackIps.hashes, blackIps.rows
    {
      Lists(files.configured, folders.configured, whiteUsers.configured, whiteIps.configured,
            blackUsers.configured, blackIps.configured, Manual())
    }

    /** The state that the step function speaks of. */
    ghost function Value(): (w: World)
      requires Valid()
      reads this, table, table.buckets, autos, autos.ips, blocked
      reads files.hashes, files.rows, folders.hashes, folders.rows
      reads whiteUsers.hashes, whiteUsers.rows, whiteIps.hashes, whiteIps.rows
      reads blackUsers.hashes, blackUsers.rows, blackIps.hashes, blackIps.rows
      ensures |w.buckets| == BUCKETS
    {
      World(table.buckets[..], policy, ListValues(), autos.Contents(), blocked.text, file, triggers)
    }

    /** The daemon at its start, with the lists of its policy loaded. */
    constructor (host: Host, policy: Policy, text: string, file: Option<seq<byte>>, files: HashedList, folders: HashedList,
        whiteUsers: HashedList, whiteIps: HashedList, blackUsers: HashedList, blackIps: HashedList)
      requires files.Valid() && folders.Valid() && whiteUsers.Valid() && whiteIps.Valid()
      requires blackUsers.Valid() && blackIps.Valid()
      requires forall i :: 0 <= i < blackIps.count ==> |blackIps.rows[i].text| < IP_LEN
      ensures Valid() && this.host == host && this.policy == policy
      ensures Value().buckets == seq(BUCKETS, _ => ZERO) && Value().autos == [] && Value().triggers == []
      ensures Value().text == text && Value().file == file
    {
      this.host, this.policy := host, policy;
      this.files, this.folders := files, folders;
      this.whiteUsers, this.whiteIps := whiteUsers, whiteIps;
      this.blackUsers, this.blackIps := blackUsers, blackIps;
      table := new Table(host.hash);
      autos := new AutoList();
      blocked := new BlockedList(text);
      this.file := file;
      triggers := [];
    }

    /** The texts of the manual list, as the routines that scan it see them. */
    method ManualTexts() returns (r: seq<string>)
      requires Valid()
      ensures r == Manual() && forall e :: e in r ==> |e| < IP_LEN
    {
      r := [];
      for i := 0 to blackIps.count
        invariant |r| == i && forall k :: 0 <= k < i ==> r[k] == blackIps.rows[k].text
      {
        r := r + [blackIps.rows[i].text];
      }
    }

    /** The bucket of the message's session, or -1. */
    method Find(m: Msg, env: Env) returns (at: int)
      requires Valid()
      modifies table`count, table.buckets
      ensures Valid()
      ensures var found := Lookup(host.hash, old(Value()).buckets, Key(m), env.seenAt);
              && Value() == old(Value()).(buckets := found.buckets)
              && at == (if found.at.None? then -1 else found.at.value)
      ensures at >= 0 ==> Value().buckets[at].inUse
    {
      LookupBlocks(host.hash, table.buckets[..], Key(m), env.seenAt, "");
      at := table.FindOrCreate(Key(m), env.seenAt);
    }

    method Store(at: nat, s: State)
      requires Valid() && at < BUCKETS
      requires Value().buckets[at].inUse && s.inUse && s.key == Value().buckets[at].key
      modifies table`count, table.buckets
      ensures Valid()
      ensures Value() == old(Value()).(buckets := old(Value()).buckets[at := s])
    {
      table.Put(at, s);
    }

    method Session(at: nat) returns (s: State)
      requires Valid() && at < BUCKETS
      ensures s == Value().buckets[at]
    {
      s := table.buckets[at];
    }

    method Block(m: Msg, env: Env) returns (ok: bool)
      requires Valid()
      modifies blocked
      ensures Valid()
      ensures var done := Executed(host.isIp, old(Value()).text, FileIp(m), env.io);
              ok == done.0 && Value() == old(Value()).(text := done.1)
    {
      ok := blocked.Execute(host.isIp, FileIp(m), env.io);
    }

    method HandleNotice(m: Msg, env: Env)
      requires Valid()
      modifies table`count, table.buckets
      ensures Valid() && Value() == Noticed(host, old(Value()), m, env)
    {
      var at := Find(m, env);
      if at >= 0 {
        var s := Session(at);
        Store(at, WithEvent(s, env.newId));
      }
    }

    /** `r` is what the message makes of the blacklisted client's session. Folded; `Unfold(0)` opens it. */
    static ghost predicate BlocksTo(host: Host, w: World, i: nat, m: Msg, env: Env, r: World) {
      forall n: nat {:trigger Unfold(n)} :: Unfold(n) ==>
        |w.buckets| == BUCKETS && i < BUCKETS && r == BlockAt(host, w, i, m, env)
    }

    static lemma BlockWhenFound(host: Host, w: World, found: World, at: int, m: Msg, env: Env, r: World)
      requires |w.buckets| == BUCKETS
      requires var f := Lookup(host.hash, w.buckets, Key(m), env.seenAt);
               && found == w.(buckets := f.buckets) && at == (if f.at.None? then -1 else f.at.value)
      requires if at < 0 then r == found else BlocksTo(host, found, at, m, env, r)
      ensures r == BlockListed(host, w, m, env)
    {
      assert Unfold(0);
    }

    /** The branch of a blacklisted client. */
    method BlockNow(m: Msg, env: Env)
      requires Valid()
      modifies table`count, table.buckets, blocked
      ensures Valid() && Value() == BlockListed(host, old(Value()), m, env)
    {
      var at := Find(m, env);
      ghost var found := Value();
      if at >= 0 {
        BlockSession(at, m, env);
      }
      BlockWhenFound(host, old(Value()), found, at, m, env, Value());
    }

    method BlockSession(at: nat, m: Msg, env: Env)
      requires Valid() && at < BUCKETS && Value().buckets[at].inUse
      modifies table`count, table.buckets, blocked
      ensures Valid() && BlocksTo(host, old(Value()), at, m, env, Value())
    {
      var s := Session(at);
      if !s.blocked {
        s := WithEvent(s, env.newId);
        s := s.(blocked := true);
        var ok := Block(m, env);
        if !ok {
          s := s.(blocked := false);
        }
        Store(at, s);
      }
    }

    /** Windows, counters and score of one session. */
    method Assess(was: State, m: Msg, env: Env) returns (s: State)
      ensures s == Assessed(host, policy, was, m, env)
    {
      var f := Analysed(policy, was, m, env);
      var cell := new Cell(was);
      cell.SlideWindows(env.now, ShortLen(policy, m.source), LongLen(policy, m.source));
      cell.Record(m.op, f, DirHash(host.hash, m.path));
      if !Defers(m.op, f) {
        Calculate(cell, policy.scoring);
      }
      s := cell.s;
    }

    /** `scorer_blacklist_auto_add` on the daemon's lists. */
    method AddAuto(ip: string)
      requires Valid()
      modifies autos`count, autos.ips
      ensures Valid()
      ensures Value() == old(Value()).(autos := Added(host.isIp, old(Value()).lists.manual, old(Value()).autos, ip))
    {
      var manual := ManualTexts();
      ghost var before := autos.Contents();
      assert forall e :: e in before ==> |e| < IP_LEN;
      autos.Add(host.isIp, manual, ip);
      AddedIsShort(host.isIp, manual, before, ip);
      assert forall i :: 0 <= i < autos.count ==> autos.ips[i] == autos.Contents()[i];
      assert autos.Contents() == Added(host.isIp, manual, before, ip);
    }

    /** `blocker_sync_blacklist` on the daemon's lists. */
    method SyncFile(io: Io)
      requires Valid()
      modifies blocked
      ensures Valid()
      ensures Value() == old(Value()).(text := Synced(old(Value()).text, Value().lists.manual, Value().autos, io))
    {
      var manual := ManualTexts();
      var list := autos.ips[..autos.count];
      blocked.Sync(manual, list, io);
    }

    /** `config_persist_blacklist_ip` on the policy file; a failure is logged and nothing more. */
    method SaveVerdict(ip: string, savable: bool)
      requires Valid()
      modifies this`file
      ensures Valid()
      ensures Value() == old(Value()).(file := host.persist(old(Value()).file, ip, savable))
    {
      file := host.persist(file, ip, savable);
    }

    /** What follows a block that landed: the address joins the automatic list and the file is rebuilt. */
    method Punish(m: Msg, eventId: string, env: Env)
      requires Valid()
      modifies autos`count, autos.ips, blocked, this`file, this`triggers
      ensures Valid()
      ensures var w := old(Value());
              var list := Added(host.isIp, w.lists.manual, w.autos, m.ip);
              Value() == w.(autos := list,
                            file := host.persist(w.file, m.ip, env.savable),
                            text := Synced(w.text, w.lists.manual, list, env.syncIo),
                            triggers := w.triggers + [Trigger(Key(m), eventId)])
    {
      AddAuto(m.ip);
      SaveVerdict(m.ip, env.savable);
      SyncFile(env.syncIo);
      CallTrigger(Trigger(Key(m), eventId));
    }

    method CallTrigger(t: Trigger)
      requires Valid()
      modifies this`triggers
      ensures Valid() && Value() == old(Value()).(triggers := old(Value()).triggers + [t])
    {
      triggers := triggers + [t];
    }

    static lemma AddedIsShort(isIp: string -> bool, manual: seq<string>, list: seq<string>, ip: string)
      requires forall e :: e in list ==> |e| < IP_LEN
      ensures forall i :: 0 <= i < |Added(isIp, manual, list, ip)| ==> |Added(isIp, manual, list, ip)[i]| < IP_LEN
    {
    }

    /** `r` is what the message makes of the session in bucket `i`. Kept folded; `Unfold(0)` opens it. */
    static ghost predicate ScoresTo(host: Host, w: World, i: nat, m: Msg, env: Env, r: World) {
      forall n: nat {:trigger Unfold(n)} :: Unfold(n) ==>
        |w.buckets| == BUCKETS && i < BUCKETS && r == ScoredAt(host, w, i, m, env)
    }

    static lemma ScoredWhenFound(host: Host, w: World, found: World, at: int, m: Msg, env: Env, r: World)
      requires |w.buckets| == BUCKETS
      requires var f := Lookup(host.hash, w.buckets, Key(m), env.seenAt);
               && found == w.(buckets := f.buckets) && at == (if f.at.None? then -1 else f.at.value)
      requires if at < 0 then r == found else ScoresTo(host, found, at, m, env, r)
      ensures r == Scored(host, w, m, env)
    {
      assert Unfold(0);
    }

    /** The branch of an ordinary client. */
    method ScoreNow(m: Msg, env: Env)
      requires Valid()
      modifies table`count, table.buckets, autos`count, autos.ips, blocked, this`file, this`triggers
      ensures Valid() && Value() == Scored(host, old(Value()), m, env)
    {
      var at := Find(m, env);
      ghost var found := Value();
      if at >= 0 {
        ScoreSession(at, m, env);
      }
      ScoredWhenFound(host, old(Value()), found, at, m, env, Value());
    }

    /** The session that was found is assessed and, if it is critical, blocked. */
    method ScoreSession(at: nat, m: Msg, env: Env)
      requires Valid() && at < BUCKETS && Value().buckets[at].inUse
      modifies table`count, table.buckets, autos`count, autos.ips, blocked, this`file, this`triggers
      ensures Valid() && ScoresTo(host, old(Value()), at, m, env, Value())
    {
      var s := Session(at);
      s := WithEvent(s, env.newId);
      AssessedKeeps(host, policy, s, m, env);
      s := Assess(s, m, env);
      if s.level.Critical? && !s.blocked {
        var ok := Block(m, env);
        if ok {
          s := s.(blocked := true);
          Punish(m, s.eventId, env);
        }
      }
      Store(at, s);
    }

    /** `process_msg`. */
    method Process(m: Msg, env: Env)
      requires Valid()
      modifies table`count, table.buckets, autos`count, autos.ips, blocked, this`file, this`triggers
      ensures Valid() && Value() == Handle(host, old(Value()), m, env)
    {
      if m.notice {
        HandleNotice(m, env);
        return;
      }
      if !Protected(policy, m.source) || ExtFiltered(policy, m.path) {
        return;
      }
      var skip := IsExcepted(m.path, files, folders);
      if skip {
        return;
      }
      skip := IsListed(host.net, whiteUsers, whiteIps, Some(m.user), Some(m.ip));
      if skip {
        return;
      }
      var black := IsBlacklisted(host.net, blackUsers, blackIps, autos.ips[..autos.count], Some(m.user), Some(m.ip));
      if black {
        BlockNow(m, env);
      } else {
        ScoreNow(m, env);
      }
    }
  }
}
