/**
  The daemon's step function: what one message does to the session table, the automatic blacklist,
  the blocked file and the auto-restore trigger, and what holds in every run.
 */
module Daemon {
  import opened Base
  import opened Session
  import opened SessionTable
  import opened HashLookup
  import opened PolicyLookup
  import opened Scorer
  import opened BlockedFile
  import opened AutoBlacklist

  /** Which channel a message comes from; a value of 0 or beyond the known ones is `Legacy`. */
  datatype Source = Legacy | Smb | Cloud | Ftp | HostPath

  datatype Msg = Msg(
    notice: bool,       // the file-server module reports a refused client
    source: Source,
    user: string,
    ip: string,
    path: string,
    newName: string,
    op: Op,
    flags: Flags)

  datatype Policy = Policy(
    enabled: bool, smb: bool, cloud: bool, ftp: bool, hostPath: bool,
    allExts: bool,
    exts: seq<string>,
    ransomExts: seq<string>,
    entropyOn: bool,
    yaraOn: bool,
    shortLen: int, longLen: int, cloudShort: int, cloudLong: int,
    scoring: Scoring,
    autoRestore: bool)

  /** The configured lists, and the manual addresses in the order of their sorted array. */
  datatype Lists = Lists(
    files: seq<Row>,
    folders: seq<Row>,
    whiteUsers: seq<Row>,
    whiteIps: seq<Row>,
    blackUsers: seq<Row>,
    blackIps: seq<Row>,
    manual: seq<string>)

  /** A call of the auto-restore trigger. */
  datatype Trigger = Trigger(key: string, eventId: string)

  datatype World = World(
    buckets: seq<State>,
    policy: Policy,
    lists: Lists,
    autos: seq<string>,
    text: string,                 // the blocked file
    file: Option<seq<byte>>,      // the policy file, unless it cannot be read
    triggers: seq<Trigger>)

  /** What does not change while the daemon runs. */
  datatype Host = Host(
    hash: string -> nat,
    isIp: string -> bool,
    net: Net,
    // `config_persist_blacklist_ip`: the policy file after a call, by whether it can be replaced
    persist: (Option<seq<byte>>, string, bool) -> Option<seq<byte>>)

  /** What the outside answers during one message. */
  datatype Env = Env(
    seenAt: int,
    now: int,
    newId: string,
    entropyHit: bool,
    yaraHit: bool,
    io: Io,
    savable: bool,      // the policy file can be replaced
    syncIo: Io)

  //
  // What a message says
  //

  function Key(m: Msg): (k: string)
    ensures |k| < KEY_LEN
  {
    var k := m.user + "@" + m.ip;
    if |k| < KEY_LEN then k else k[..KEY_LEN - 1]
  }

  /** Only the SMB and the FTP channel give an address that belongs in the blocked file. */
  function FileIp(m: Msg): (r: Option<string>) {
    if m.source.Smb? || m.source.Ftp? then Some(m.ip) else None
  }

  /** `strrchr`: the rest of the text from the last `c` on. */
  function FromLast(s: string, c: char): (r: Option<string>)
    ensures r.Some? ==> 0 < |r.value| <= |s|
  {
    if s == [] then None
    else
      var r := FromLast(s[1..], c);
      if r.Some? then r else if s[0] == c then Some(s) else None
  }

  predicate Protected(p: Policy, source: Source) {
    p.enabled &&
    match source
    case Cloud => p.cloud
    case Ftp => p.ftp
    case HostPath => p.hostPath
    case Smb | Legacy => p.smb
  }

  function LowerChar(c: char): (r: char) { if 'A' <= c <= 'Z' then c - 'A' + 'a' else c }

  predicate SameText(a: string, b: string) {
    |a| == |b| && forall i :: 0 <= i < |a| ==> LowerChar(a[i]) == LowerChar(b[i])
  }

  predicate ExtFiltered(p: Policy, path: string) {
    && !p.allExts && path != []
    && var ext := FromLast(path, '.');
       !(ext.Some? && exists i :: 0 <= i < |p.exts| && SameText(ext.value, p.exts[i]))
  }

  predicate RansomRename(p: Policy, m: Msg) {
    var dst := FromLast(m.newName, '.');
    ChangesExt(m) && dst.Some? && dst.value in p.ransomExts
  }

  predicate ChangesExt(m: Msg) {
    m.op.Rename? && m.path != [] && m.newName != [] && FromLast(m.path, '.') != FromLast(m.newName, '.')
  }

  predicate RansomCreate(p: Policy, m: Msg) {
    var ext := FromLast(m.path, '.');
    m.flags.newFile && m.path != [] && ext.Some? && ext.value in p.ransomExts
  }

  /** The flags of the message with what the daemon finds out itself. */
  function Analysed(p: Policy, s: State, m: Msg, env: Env): (f: Flags) {
    m.flags.(
      extChange := m.flags.extChange || ChangesExt(m),
      ransomExt := m.flags.ransomExt || RansomRename(p, m) || RansomCreate(p, m),
      highEntropy := m.flags.highEntropy
        || (p.entropyOn && m.path != [] && s.counts.highEntropy == 0 && m.flags.backedUp && m.op.Modifies() && env.entropyHit),
      yaraMatch := m.flags.yaraMatch
        || (p.yaraOn && m.path != [] && m.op.Close? && s.counts.yaraMatch == 0 && env.yaraHit))
  }

  function DirHash(hash: string -> nat, path: string): (h: nat) {
    var slash := FromLast(path, '/');
    if slash.None? || |slash.value| == |path| then 0 else hash(path[..|path| - |slash.value|])
  }

  function ShortLen(p: Policy, source: Source): (n: int) {
    if source.Cloud? && p.cloudShort > 0 then p.cloudShort else p.shortLen
  }

  function LongLen(p: Policy, source: Source): (n: int) {
    if source.Cloud? && p.cloudLong > 0 then p.cloudLong else p.longLen
  }

  /** Plain writes wait for the close before they are scored. */
  predicate Defers(op: Op, f: Flags) {
    op.Modifies() && !f.ransomExt && !f.highEntropy && !f.yaraMatch
  }

  //
  // The step
  //

  function WithEvent(s: State, id: string): (r: State) {
    if s.eventId == [] then s.(eventId := id) else s
  }

  /** The session after its windows slid, the event was counted and, unless deferred, scored. */
  function Assessed(host: Host, p: Policy, s: State, m: Msg, env: Env): (r: State) {
    var f := Analysed(p, s, m, env);
    var slid := CheckWindow(s, env.now, ShortLen(p, m.source), LongLen(p, m.source));
    var counted := Update(slid, m.op, f, DirHash(host.hash, m.path));
    if Defers(m.op, f) then counted
    else
      var score := Score(p.scoring, counted.counts, counted.touchedDirs);
      counted.(score := score, level := Level(p.scoring.thresholds, score))
  }

  function Noticed(host: Host, w: World, m: Msg, env: Env): (r: World)
    requires |w.buckets| == BUCKETS
    ensures |r.buckets| == BUCKETS
  {
    var found := Lookup(host.hash, w.buckets, Key(m), env.seenAt);
    if found.at.None? then w.(buckets := found.buckets)
    else
      var i := found.at.value;
      w.(buckets := found.buckets[i := WithEvent(found.buckets[i], env.newId)])
  }

  /** What the message of a blacklisted client does to the session that was found in bucket `i`. */
  function BlockAt(host: Host, w: World, i: nat, m: Msg, env: Env): (r: World)
    requires |w.buckets| == BUCKETS && i < BUCKETS
    ensures |r.buckets| == BUCKETS
  {
    if w.buckets[i].blocked then w
    else
      var done := Executed(host.isIp, w.text, FileIp(m), env.io);
      w.(buckets := w.buckets[i := WithEvent(w.buckets[i], env.newId).(blocked := done.0)], text := done.1)
  }

  function BlockListed(host: Host, w: World, m: Msg, env: Env): (r: World)
    requires |w.buckets| == BUCKETS
    ensures |r.buckets| == BUCKETS
  {
    var found := Lookup(host.hash, w.buckets, Key(m), env.seenAt);
    if found.at.None? then w.(buckets := found.buckets)
    else BlockAt(host, w.(buckets := found.buckets), found.at.value, m, env)
  }

  /** The file after a rebuild from the lists. */
  function Synced(text: string, manual: seq<string>, autos: seq<string>, io: Io): (r: string) {
    if io.lockable && io.writable then Join(PlainOnes(manual + autos)) else text
  }

  /** What the message does to the session that was found in bucket `i`. */
  function ScoredAt(host: Host, w: World, i: nat, m: Msg, env: Env): (r: World)
    requires |w.buckets| == BUCKETS && i < BUCKETS
    ensures |r.buckets| == BUCKETS
  {
    var s := Assessed(host, w.policy, WithEvent(w.buckets[i], env.newId), m, env);
    if !s.level.Critical? || s.blocked then w.(buckets := w.buckets[i := s])
    else
      var done := Executed(host.isIp, w.text, FileIp(m), env.io);
      if !done.0 then w.(buckets := w.buckets[i := s], text := done.1)
      else
        var autos := Added(host.isIp, w.lists.manual, w.autos, m.ip);
        w.(buckets := w.buckets[i := s.(blocked := true)],
           autos := autos,
           file := host.persist(w.file, m.ip, env.savable),
           text := Synced(done.1, w.lists.manual, autos, env.syncIo),
           triggers := w.triggers + [Trigger(Key(m), s.eventId)])
  }

  function Scored(host: Host, w: World, m: Msg, env: Env): (r: World)
    requires |w.buckets| == BUCKETS
    ensures |r.buckets| == BUCKETS
  {
    var found := Lookup(host.hash, w.buckets, Key(m), env.seenAt);
    if found.at.None? then w.(buckets := found.buckets)
    else ScoredAt(host, w.(buckets := found.buckets), found.at.value, m, env)
  }

  ghost predicate Bypassed(host: Host, w: World, m: Msg) {
    || !Protected(w.policy, m.source)
    || ExtFiltered(w.policy, m.path)
    || Excepted(m.path, w.lists.files, w.lists.folders)
    || ListsClient(host.net, w.lists.whiteUsers, w.lists.whiteIps, Some(m.user), Some(m.ip))
  }

  ghost predicate Blacklisted(host: Host, w: World, m: Msg) {
    || ListsClient(host.net, w.lists.blackUsers, w.lists.blackIps, Some(m.user), Some(m.ip))
    || SomeAutoCovers(host.net, w.autos, m.ip)
  }

  /** `process_msg` as a function of the state. */
  ghost function Handle(host: Host, w: World, m: Msg, env: Env): (r: World)
    requires |w.buckets| == BUCKETS
    ensures |r.buckets| == BUCKETS
  {
    if m.notice then Noticed(host, w, m, env)
    else if Bypassed(host, w, m) then w
    else if Blacklisted(host, w, m) then BlockListed(host, w, m, env)
    else Scored(host, w, m, env)
  }

  /** The step runs `blocker_execute`, which succeeds. */
  ghost predicate Lands(host: Host, w: World, m: Msg, env: Env)
    requires |w.buckets| == BUCKETS
  {
    && !m.notice && !Bypassed(host, w, m)
    && (Blacklisted(host, w, m) || LandsByScore(host, w, m, env))
    && Executed(host.isIp, w.text, FileIp(m), env.io).0
    && var found := Lookup(host.hash, w.buckets, Key(m), env.seenAt);
       found.at.Some? && !found.buckets[found.at.value].blocked
  }

  ghost predicate LandsByScore(host: Host, w: World, m: Msg, env: Env)
    requires |w.buckets| == BUCKETS
  {
    var found := Lookup(host.hash, w.buckets, Key(m), env.seenAt);
    && found.at.Some?
    && Assessed(host, w.policy, WithEvent(found.buckets[found.at.value], env.newId), m, env).level.Critical?
  }

  //
  // Who is blocked after a step
  //

  ghost predicate IsBlocked(b: seq<State>, key: string) {
    exists i: nat :: Holds(b, i, key) && b[i].blocked
  }

  /** A lookup finds its key, and changes nobody's block. */
  lemma LookupBlocks(hash: Hash, b: seq<State>, key: string, now: int, k: string)
    requires Ok(hash, b) && |key| < KEY_LEN
    ensures var r := Lookup(hash, b, key, now);
            && Ok(hash, r.buckets)
            && (r.at.Some? ==> Holds(r.buckets, r.at.value, key))
            && (IsBlocked(r.buckets, k) <==> IsBlocked(b, k))
  {
    LookupRefinesMap(hash, b, key, now);
    var r := Lookup(hash, b, key, now);
    if IsBlocked(b, k) {
      var i: nat :| Holds(b, i, k) && b[i].blocked;
      assert Holds(r.buckets, i, k) && r.buckets[i].blocked;
    }
    if IsBlocked(r.buckets, k) {
      var i: nat :| Holds(r.buckets, i, k) && r.buckets[i].blocked;
      assert Holds(b, i, k) && b[i].blocked;
    }
  }

  /** Writing a session back decides its own block and nobody else's. */
  lemma PutBlocks(hash: Hash, b: seq<State>, i: nat, s: State, k: string)
    requires Ok(hash, b) && i < BUCKETS && b[i].inUse && s.inUse && s.key == b[i].key
    ensures Ok(hash, b[i := s])
    ensures IsBlocked(b[i := s], k) <==> if k == s.key then s.blocked else IsBlocked(b, k)
  {
    TouchKeepsOk(hash, b, i, s);
    var b' := b[i := s];
    if k == s.key {
      assert Holds(b', i, k);
      forall j: nat | Holds(b', j, k) ensures j == i {
      }
    } else {
      if IsBlocked(b, k) {
        var j: nat :| Holds(b, j, k) && b[j].blocked;
        assert Holds(b', j, k) && b'[j].blocked;
      }
      if IsBlocked(b', k) {
        var j: nat :| Holds(b', j, k) && b'[j].blocked;
        assert Holds(b, j, k) && b[j].blocked;
      }
    }
  }

  lemma OwnBlock(hash: Hash, b: seq<State>, i: nat)
    requires Ok(hash, b) && i < BUCKETS && b[i].inUse
    ensures IsBlocked(b, b[i].key) <==> b[i].blocked
  {
    assert Holds(b, i, b[i].key);
    forall j: nat | Holds(b, j, b[i].key) ensures j == i {
    }
  }

  lemma AssessedKeeps(host: Host, p: Policy, s: State, m: Msg, env: Env)
    ensures var r := Assessed(host, p, s, m, env);
            r.key == s.key && r.inUse == s.inUse && r.blocked == s.blocked
  {
  }

  /** A lookup followed by writing the session back. */
  lemma FoundAndPut(hash: Hash, b: seq<State>, key: string, now: int, s: State, k: string)
    requires Ok(hash, b) && |key| < KEY_LEN
    ensures var r := Lookup(hash, b, key, now);
            r.at.Some? && s.inUse && s.key == r.buckets[r.at.value].key ==>
              var b' := r.buckets[r.at.value := s];
              && Ok(hash, b')
              && s.key == key
              && (IsBlocked(b, key) <==> r.buckets[r.at.value].blocked)
              && (IsBlocked(b', k) <==> if k == key then s.blocked else IsBlocked(b, k))
  {
    var r := Lookup(hash, b, key, now);
    LookupBlocks(hash, b, key, now, k);
    LookupBlocks(hash, b, key, now, key);
    if r.at.Some? && s.inUse && s.key == r.buckets[r.at.value].key {
      OwnBlock(hash, r.buckets, r.at.value);
      PutBlocks(hash, r.buckets, r.at.value, s, k);
    }
  }

  /** `w'` blocks whom `w` blocks, and `key` in addition if `lands`. */
  ghost predicate Blocks(hash: Hash, w: World, w': World, key: string, lands: bool) {
    && Ok(hash, w'.buckets)
    && forall k :: IsBlocked(w'.buckets, k) <==> IsBlocked(w.buckets, k) || (lands && k == key)
  }

  lemma NoticedBlocks(host: Host, w: World, m: Msg, env: Env)
    requires Ok(host.hash, w.buckets)
    ensures Blocks(host.hash, w, Noticed(host, w, m, env), Key(m), false)
  {
    var found := Lookup(host.hash, w.buckets, Key(m), env.seenAt);
    forall k ensures IsBlocked(Noticed(host, w, m, env).buckets, k) <==> IsBlocked(w.buckets, k) {
      LookupBlocks(host.hash, w.buckets, Key(m), env.seenAt, k);
      if found.at.Some? {
        FoundAndPut(host.hash, w.buckets, Key(m), env.seenAt, WithEvent(found.buckets[found.at.value], env.newId), k);
      }
    }
    LookupBlocks(host.hash, w.buckets, Key(m), env.seenAt, "");
    if found.at.Some? {
      FoundAndPut(host.hash, w.buckets, Key(m), env.seenAt, WithEvent(found.buckets[found.at.value], env.newId), "");
    }
  }

  lemma BlockListedBlocks(host: Host, w: World, m: Msg, env: Env)
    requires Ok(host.hash, w.buckets) && !m.notice && !Bypassed(host, w, m) && Blacklisted(host, w, m)
    ensures Blocks(host.hash, w, BlockListed(host, w, m, env), Key(m), Lands(host, w, m, env))
  {
    var found := Lookup(host.hash, w.buckets, Key(m), env.seenAt);
    var w' := BlockListed(host, w, m, env);
    LookupBlocks(host.hash, w.buckets, Key(m), env.seenAt, "");
    if found.at.Some? && !found.buckets[found.at.value].blocked {
      var ok := Executed(host.isIp, w.text, FileIp(m), env.io).0;
      var s := WithEvent(found.buckets[found.at.value], env.newId).(blocked := ok);
      FoundAndPut(host.hash, w.buckets, Key(m), env.seenAt, s, "");
      forall k ensures IsBlocked(w'.buckets, k) <==> IsBlocked(w.buckets, k) || (ok && k == Key(m)) {
        FoundAndPut(host.hash, w.buckets, Key(m), env.seenAt, s, k);
      }
    } else {
      forall k ensures IsBlocked(w'.buckets, k) <==> IsBlocked(w.buckets, k) {
        LookupBlocks(host.hash, w.buckets, Key(m), env.seenAt, k);
      }
    }
  }

  lemma ScoredBlocks(host: Host, w: World, m: Msg, env: Env)
    requires Ok(host.hash, w.buckets) && !m.notice && !Bypassed(host, w, m) && !Blacklisted(host, w, m)
    ensures Blocks(host.hash, w, Scored(host, w, m, env), Key(m), Lands(host, w, m, env))
  {
    var found := Lookup(host.hash, w.buckets, Key(m), env.seenAt);
    var w' := Scored(host, w, m, env);
    LookupBlocks(host.hash, w.buckets, Key(m), env.seenAt, "");
    if found.at.Some? {
      var was := WithEvent(found.buckets[found.at.value], env.newId);
      var s := Assessed(host, w.policy, was, m, env);
      AssessedKeeps(host, w.policy, was, m, env);
      var after := s.(blocked := s.blocked || Lands(host, w, m, env));
      FoundAndPut(host.hash, w.buckets, Key(m), env.seenAt, after, "");
      assert w'.buckets == found.buckets[found.at.value := after];
      forall k ensures IsBlocked(w'.buckets, k) <==> IsBlocked(w.buckets, k) || (Lands(host, w, m, env) && k == Key(m)) {
        FoundAndPut(host.hash, w.buckets, Key(m), env.seenAt, after, k);
      }
    } else {
      forall k ensures IsBlocked(w'.buckets, k) <==> IsBlocked(w.buckets, k) {
        LookupBlocks(host.hash, w.buckets, Key(m), env.seenAt, k);
      }
    }
  }

  /**
    After a message exactly those sessions are blocked that were blocked before it, and its own
    session if `blocker_execute` ran in this step and succeeded.
   */
  lemma HandleBlocksExactly(host: Host, w: World, m: Msg, env: Env)
    requires Ok(host.hash, w.buckets)
    ensures Blocks(host.hash, w, Handle(host, w, m, env), Key(m), Lands(host, w, m, env))
  {
    if m.notice {
      NoticedBlocks(host, w, m, env);
    } else if Bypassed(host, w, m) {
    } else if Blacklisted(host, w, m) {
      BlockListedBlocks(host, w, m, env);
    } else {
      ScoredBlocks(host, w, m, env);
    }
  }

  //
  // The trigger
  //

  ghost function Calls(ts: seq<Trigger>, key: string): (n: nat) {
    if ts == [] then 0 else Calls(ts[..|ts| - 1], key) + (if ts[|ts| - 1].key == key then 1 else 0)
  }

  /** No session was restored twice, and only blocked ones were. */
  ghost predicate RestoredOnce(b: seq<State>, ts: seq<Trigger>) {
    forall k :: Calls(ts, k) <= 1 && (Calls(ts, k) == 1 ==> IsBlocked(b, k))
  }

  /** The event id that a restore is triggered for: none, where the long window ends in the same message. */
  function TriggerId(w: World, m: Msg, env: Env, s: State): (id: string) {
    if Expired(s.longStart, env.now, LongLen(w.policy, m.source)) then []
    else if s.eventId == [] then env.newId
    else s.eventId
  }

  /** `restore_trigger_auto` forks the recovery tool. */
  predicate Starts(p: Policy, id: string) { p.autoRestore && id != [] }

  /**
    Exactly when a message calls the restore trigger, and for which event: a block by score landed.
    The call starts a restore exactly when, in addition, automatic restore is on and the session's
    long window did not end in this message, for then the id is empty.
   */
  lemma TriggersIff(host: Host, w: World, m: Msg, env: Env)
    requires |w.buckets| == BUCKETS
    ensures var found := Lookup(host.hash, w.buckets, Key(m), env.seenAt);
            var w' := Handle(host, w, m, env);
            if Lands(host, w, m, env) && !Blacklisted(host, w, m) then
              var id := TriggerId(w, m, env, found.buckets[found.at.value]);
              && w'.triggers == w.triggers + [Trigger(Key(m), id)]
              && (env.newId != [] ==>
                    (Starts(w.policy, id) <==>
                      && w.policy.autoRestore
                      && !Expired(found.buckets[found.at.value].longStart, env.now, LongLen(w.policy, m.source))))
            else w'.triggers == w.triggers
  {
    var found := Lookup(host.hash, w.buckets, Key(m), env.seenAt);
    if found.at.Some? {
      var was := found.buckets[found.at.value];
      AssessedKeeps(host, w.policy, WithEvent(was, env.newId), m, env);
      AssessedId(host, w.policy, WithEvent(was, env.newId), m, env);
    }
  }

  lemma AssessedId(host: Host, p: Policy, s: State, m: Msg, env: Env)
    ensures Assessed(host, p, s, m, env).eventId
         == if Expired(s.longStart, env.now, LongLen(p, m.source)) then [] else s.eventId
  {
  }

  lemma HandleTriggers(host: Host, w: World, m: Msg, env: Env)
    requires Ok(host.hash, w.buckets)
    ensures var w' := Handle(host, w, m, env);
            || w'.triggers == w.triggers
            || (&& (exists id :: w'.triggers == w.triggers + [Trigger(Key(m), id)])
                && !IsBlocked(w.buckets, Key(m)) && Lands(host, w, m, env))
  {
    TriggersIff(host, w, m, env);
    if Lands(host, w, m, env) {
      LookupBlocks(host.hash, w.buckets, Key(m), env.seenAt, Key(m));
      var found := Lookup(host.hash, w.buckets, Key(m), env.seenAt);
      OwnBlock(host.hash, found.buckets, found.at.value);
    }
  }

  lemma HandleRestoresOnce(host: Host, w: World, m: Msg, env: Env)
    requires Ok(host.hash, w.buckets) && RestoredOnce(w.buckets, w.triggers)
    ensures RestoredOnce(Handle(host, w, m, env).buckets, Handle(host, w, m, env).triggers)
  {
    var w' := Handle(host, w, m, env);
    HandleBlocksExactly(host, w, m, env);
    HandleTriggers(host, w, m, env);
    if w'.triggers != w.triggers {
      assert w'.triggers[..|w.triggers|] == w.triggers;
      assert w'.triggers[|w.triggers|].key == Key(m);
    }
  }

  //
  // The blocked file
  //

  lemma SyncedHas(text: string, manual: seq<string>, autos: seq<string>, io: Io, ip: string)
    requires AddressText(ip) && ip in manual + autos && ip in Lines(text)
    ensures ip in Lines(Synced(text, manual, autos, io))
  {
    PlainOnesAre(manual + autos);
    assert Plain(ip);
    JoinHas(PlainOnes(manual + autos), ip);
  }

  /**
    A block that lands on the SMB or FTP channel for a real address leaves that address in the
    blocked file, through the rebuild that follows a critical score too.
   */
  lemma LandedIsInFile(host: Host, w: World, m: Msg, env: Env)
    requires |w.buckets| == BUCKETS && Sound(host.isIp)
    ensures Lands(host, w, m, env) && (m.source.Smb? || m.source.Ftp?) && host.isIp(m.ip) ==>
              m.ip in Blocked(Handle(host, w, m, env).text)
  {
    if Lands(host, w, m, env) && (m.source.Smb? || m.source.Ftp?) && host.isIp(m.ip) {
      assert AddressText(m.ip);
      var done := Executed(host.isIp, w.text, FileIp(m), env.io);
      ExecuteBlocks(host.isIp, w.text, FileIp(m), env.io);
      assert m.ip in Lines(done.1);
      if !Blacklisted(host, w, m) {
        var found := Lookup(host.hash, w.buckets, Key(m), env.seenAt);
        AssessedKeeps(host, w.policy, WithEvent(found.buckets[found.at.value], env.newId), m, env);
        var autos := Added(host.isIp, w.lists.manual, w.autos, m.ip);
        SyncedHas(done.1, w.lists.manual, autos, env.syncIo, m.ip);
      }
    }
  }

  //
  // Runs
  //

  datatype Input =
    | Message(m: Msg, env: Env)
    | Reload(file: Option<seq<byte>>, policy: Policy, lists: Lists, io: Io)

  /**
    A reload finds a policy file, takes its policy, forgets the automatic list and rebuilds the
    blocked file.
   */
  function Reloaded(w: World, file: Option<seq<byte>>, policy: Policy, lists: Lists, io: Io): (r: World) {
    w.(policy := policy, lists := lists, autos := [], file := file, text := Synced(w.text, lists.manual, [], io))
  }

  ghost function Next(host: Host, w: World, input: Input): (r: World)
    requires |w.buckets| == BUCKETS
    ensures |r.buckets| == BUCKETS
  {
    match input
    case Message(m, env) => Handle(host, w, m, env)
    case Reload(file, policy, lists, io) => Reloaded(w, file, policy, lists, io)
  }

  /** A run of the daemon from its start, when no session is known. */
  ghost predicate IsRun(host: Host, inputs: seq<Input>, ws: seq<World>) {
    && |ws| == |inputs| + 1
    && ws[0].buckets == seq(BUCKETS, _ => ZERO) && ws[0].triggers == [] && ws[0].autos == []
    && (forall i :: 0 <= i < |ws| ==> |ws[i].buckets| == BUCKETS)
    && forall i :: 0 <= i < |inputs| ==> ws[i + 1] == Next(host, ws[i], inputs[i])
  }

  ghost predicate Safe(host: Host, w: World) {
    && Ok(host.hash, w.buckets)
    && RestoredOnce(w.buckets, w.triggers)
    && Clean(host.isIp, w.lists.manual, w.autos)
  }

  lemma HandleAutos(host: Host, w: World, m: Msg, env: Env)
    requires |w.buckets| == BUCKETS && Sound(host.isIp) && Clean(host.isIp, w.lists.manual, w.autos)
    ensures var w' := Handle(host, w, m, env);
            w'.lists == w.lists && Clean(host.isIp, w'.lists.manual, w'.autos)
  {
    AddedKeepsClean(host.isIp, w.lists.manual, w.autos, m.ip);
  }

  lemma NextKeepsSafe(host: Host, w: World, input: Input)
    requires Sound(host.isIp) && Safe(host, w)
    ensures Safe(host, Next(host, w, input))
  {
    if input.Message? {
      HandleBlocksExactly(host, w, input.m, input.env);
      HandleRestoresOnce(host, w, input.m, input.env);
      HandleAutos(host, w, input.m, input.env);
    }
  }

  /** In every state of every run, no session was restored twice and the table is in order. */
  lemma {:induction false} RunIsSafe(host: Host, inputs: seq<Input>, ws: seq<World>, n: nat)
    requires Sound(host.isIp) && IsRun(host, inputs, ws) && n < |ws|
    ensures Safe(host, ws[n])
  {
    if n > 0 {
      RunIsSafe(host, inputs, ws, n - 1);
      NextKeepsSafe(host, ws[n - 1], inputs[n - 1]);
    }
  }

  /** The input of step `n` is a message of this session whose block landed. */
  ghost predicate LandsAt(host: Host, inputs: seq<Input>, ws: seq<World>, n: nat, key: string)
    requires |ws| == |inputs| + 1 && n < |inputs| && |ws[n].buckets| == BUCKETS
  {
    && inputs[n].Message? && Key(inputs[n].m) == key
    && Lands(host, ws[n], inputs[n].m, inputs[n].env)
  }

  lemma StepBlocksExactly(host: Host, inputs: seq<Input>, ws: seq<World>, n: nat, key: string)
    requires Sound(host.isIp) && IsRun(host, inputs, ws) && n < |inputs|
    ensures IsBlocked(ws[n + 1].buckets, key)
       <==> IsBlocked(ws[n].buckets, key) || LandsAt(host, inputs, ws, n, key)
  {
    RunIsSafe(host, inputs, ws, n);
    if inputs[n].Message? {
      HandleBlocksExactly(host, ws[n], inputs[n].m, inputs[n].env);
    }
  }

  /** In some step before `n` a block of this session landed. */
  ghost predicate Landed(host: Host, inputs: seq<Input>, ws: seq<World>, n: nat, key: string)
    requires IsRun(host, inputs, ws) && n < |ws|
  {
    exists i: nat :: i < n && LandsAt(host, inputs, ws, i, key)
  }

  lemma NobodyBlockedAtFirst(key: string)
    ensures !IsBlocked(seq(BUCKETS, _ => ZERO), key)
  {
  }

  /**
    Once blocked, always blocked, and never without cause: a session is blocked in a state of a run
    exactly when in some earlier step `blocker_execute` ran for it and succeeded.
   */
  lemma {:induction false} BlockedIffLanded(host: Host, inputs: seq<Input>, ws: seq<World>, n: nat, key: string)
    requires Sound(host.isIp) && IsRun(host, inputs, ws) && n < |ws|
    ensures IsBlocked(ws[n].buckets, key) <==> Landed(host, inputs, ws, n, key)
  {
    if n == 0 {
      NobodyBlockedAtFirst(key);
    } else {
      BlockedIffLanded(host, inputs, ws, n - 1, key);
      StepBlocksExactly(host, inputs, ws, n - 1, key);
      LandedStep(host, inputs, ws, n - 1, key);
    }
  }

  lemma LandedStep(host: Host, inputs: seq<Input>, ws: seq<World>, n: nat, key: string)
    requires IsRun(host, inputs, ws) && n < |inputs|
    ensures Landed(host, inputs, ws, n + 1, key)
       <==> Landed(host, inputs, ws, n, key) || LandsAt(host, inputs, ws, n, key)
  {
  }
}
