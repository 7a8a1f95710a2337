/**
  The three copies of the blacklist: in memory, in the policy file and in the blocked file. Over every
  run whose calls succeed they agree, so that a verdict of the daemon stands, reloads
  included, until 64 later verdicts have pushed it out.
 */
module Lockstep {
  import opened Base
  import opened SessionTable
  import opened HashLookup
  import opened PolicyLookup
  import opened BlockedFile
  import opened AutoBlacklist
  import opened Daemon
  import opened PolicyReload
  import PolicyFile
  import JsonTree

  function OctetsOf(autos: seq<string>): (ips: seq<seq<byte>>) {
    seq(|autos|, i requires 0 <= i < |autos| => Octets(autos[i]))
  }

  /** A policy file that the daemon can load and edit. */
  ghost predicate Good(file: Option<seq<byte>>) {
    && file.Some? && JsonTree.Parse(JsonTree.CStr(file.value)).Some? && PolicyFile.Reprintable(file)
    && PolicyFile.Editable(JsonTree.Parse(JsonTree.CStr(file.value)).value)
    && |PolicyFile.Autos(EntriesOf(file))| <= AUTO_MAX
  }

  /** The entries of the blacklist in the policy file. */
  ghost function EntriesOf(file: Option<seq<byte>>): (items: seq<JsonTree.Json>) {
    if file.None? || JsonTree.Parse(JsonTree.CStr(file.value)).None? then []
    else PolicyFile.Entries(JsonTree.Parse(JsonTree.CStr(file.value)).value)
  }

  /** Every real address among the entries is in the loaded list. */
  ghost predicate Known(isIp: string -> bool, items: seq<JsonTree.Json>, rows: seq<Row>) {
    forall e :: e in items && PolicyFile.Address(e).Some? && isIp(Chars(PolicyFile.Address(e).value)) ==>
      Listed(rows, Chars(PolicyFile.Address(e).value))
  }

  /** The file holds the loaded entries, some of them perhaps pushed out, and behind them the automatic list. */
  ghost predicate Agrees(isIp: string -> bool, items: seq<JsonTree.Json>, rows: seq<Row>, autos: seq<string>) {
    && |autos| <= |items|
    && items[|items| - |autos|..] == PolicyFile.NewEntries(OctetsOf(autos))
    && Known(isIp, items[..|items| - |autos|], rows)
  }

  /** The blocked file holds every real address of both lists. */
  ghost predicate InText(isIp: string -> bool, listed: seq<string>, text: string) {
    forall a :: a in listed && isIp(a) ==> a in Blocked(text)
  }

  /** The three copies agree. */
  ghost predicate Lockstep(host: Host, w: World) {
    && Good(w.file)
    && SameTexts(w.lists)
    && Clean(host.isIp, w.lists.manual, w.autos)
    && Agrees(host.isIp, EntriesOf(w.file), w.lists.blackIps, w.autos)
    && InText(host.isIp, w.lists.manual + w.autos, w.text)
  }

  //
  // What the agreement is good for
  //

  lemma OctetsDiffer(isIp: string -> bool, a: string, b: string)
    requires Sound(isIp) && isIp(a) && isIp(b) && Octets(a) == Octets(b)
    ensures a == b
  {
    AddressOctets(isIp, a);
    AddressOctets(isIp, b);
  }

  /** A real address is in the file exactly when memory holds it as a loaded or as an automatic entry. */
  lemma FileInMemory(isIp: string -> bool, items: seq<JsonTree.Json>, rows: seq<Row>, autos: seq<string>, ip: string)
    requires Sound(isIp) && Agrees(isIp, items, rows, autos) && isIp(ip)
    requires forall a :: a in autos ==> isIp(a)
    ensures ip in autos ==> PolicyFile.Lists(items, Octets(ip))
    ensures PolicyFile.Lists(items, Octets(ip)) ==> ip in autos || Listed(rows, ip)
  {
    var n := |items| - |autos|;
    AddressOctets(isIp, ip);
    if ip in autos {
      var k :| 0 <= k < |autos| && autos[k] == ip;
      assert items[n + k] == items[n..][k] == PolicyFile.NewEntry(Octets(ip));
      PolicyFile.NewEntryIsAuto(Octets(ip));
      assert PolicyFile.Names(items[n + k], Octets(ip));
    }
    if PolicyFile.Lists(items, Octets(ip)) {
      var j :| 0 <= j < |items| && PolicyFile.Names(items[j], Octets(ip));
      if j < n {
        assert items[j] == items[..n][j];
      } else {
        assert items[j] == items[n..][j - n] == PolicyFile.NewEntry(Octets(autos[j - n]));
        PolicyFile.NewEntryIsAuto(Octets(autos[j - n]));
        OctetsDiffer(isIp, ip, autos[j - n]);
      }
    }
  }

  /** What the file lists, the daemon refuses and the blocked file holds. */
  lemma ListedIsRefused(host: Host, w: World, m: Msg)
    requires Sound(host.isIp) && Lockstep(host, w) && host.isIp(m.ip)
    requires PolicyFile.Lists(EntriesOf(w.file), Octets(m.ip))
    ensures Blacklisted(host, w, m) && m.ip in Blocked(w.text)
  {
    FileInMemory(host.isIp, EntriesOf(w.file), w.lists.blackIps, w.autos, m.ip);
    assert AddressText(m.ip);
    if m.ip in w.autos {
      var k :| 0 <= k < |w.autos| && w.autos[k] == m.ip;
      assert AutoCovers(host.net, w.autos[k], m.ip);
      assert m.ip in w.lists.manual + w.autos;
    } else {
      var i :| 0 <= i < |w.lists.blackIps| && w.lists.blackIps[i].text == m.ip;
      assert m.ip in w.lists.manual + w.autos;
    }
  }

  //
  // Steps that convict nobody
  //

  /** The text after a step holds what the text before it held, or was rebuilt from both lists. */
  ghost predicate TextMoves(isIp: string -> bool, before: string, lists: seq<string>, after: string) {
    Blocked(before) <= Blocked(after) || after == Join(PlainOnes(lists))
  }

  lemma RebuiltHolds(isIp: string -> bool, lists: seq<string>)
    requires Sound(isIp)
    ensures InText(isIp, lists, Join(PlainOnes(lists)))
  {
    PlainOnesAre(lists);
    forall a | a in lists && isIp(a) ensures a in Blocked(Join(PlainOnes(lists))) {
      assert AddressText(a);
      assert Plain(a);
      JoinHas(PlainOnes(lists), a);
    }
  }

  lemma TextKeeps(isIp: string -> bool, before: string, listed: seq<string>, after: string)
    requires Sound(isIp) && TextMoves(isIp, before, listed, after) && InText(isIp, listed, before)
    ensures InText(isIp, listed, after)
  {
    if after == Join(PlainOnes(listed)) {
      RebuiltHolds(isIp, listed);
    }
  }

  /** The lists and the policy file stay, and the text stays or is that of `blocker_execute`. */
  ghost predicate Quiet(host: Host, w: World, m: Msg, env: Env, w': World) {
    && w'.lists == w.lists && w'.autos == w.autos && w'.file == w.file
    && (w'.text == w.text || w'.text == Executed(host.isIp, w.text, FileIp(m), env.io).1)
  }

  lemma NoticeIsQuiet(host: Host, w: World, m: Msg, env: Env)
    requires |w.buckets| == BUCKETS
    ensures Quiet(host, w, m, env, Noticed(host, w, m, env))
  {
  }

  lemma BlockIsQuiet(host: Host, w: World, m: Msg, env: Env)
    requires |w.buckets| == BUCKETS
    ensures Quiet(host, w, m, env, BlockListed(host, w, m, env))
  {
  }

  lemma ScoreIsQuiet(host: Host, w: World, m: Msg, env: Env)
    requires |w.buckets| == BUCKETS && !m.notice && !Bypassed(host, w, m) && !Blacklisted(host, w, m)
    requires !Lands(host, w, m, env)
    ensures Quiet(host, w, m, env, Scored(host, w, m, env))
  {
    var found := Lookup(host.hash, w.buckets, Key(m), env.seenAt);
    if found.at.Some? {
      AssessedKeeps(host, w.policy, WithEvent(found.buckets[found.at.value], env.newId), m, env);
    }
  }

  /** A step that convicts nobody leaves the lists and the policy file as they are. */
  lemma QuietStep(host: Host, w: World, m: Msg, env: Env)
    requires |w.buckets| == BUCKETS && Sound(host.isIp) && Persists(host) && !Convicts(host, w, m, env)
    ensures var w' := Handle(host, w, m, env);
            && w'.lists == w.lists && w'.autos == w.autos && w'.file == w.file
            && TextMoves(host.isIp, w.text, w.lists.manual + w.autos, w'.text)
  {
    ExecuteBlocks(host.isIp, w.text, FileIp(m), env.io);
    if m.notice {
      NoticeIsQuiet(host, w, m, env);
    } else if Bypassed(host, w, m) {
    } else if Blacklisted(host, w, m) {
      BlockIsQuiet(host, w, m, env);
    } else if Lands(host, w, m, env) {
      LandingIs(host, w, m, env);
      UnrealIsIgnored(host, w, m, env);
    } else {
      ScoreIsQuiet(host, w, m, env);
    }
  }

  /** A client without a real address joins neither list. */
  lemma UnrealIsIgnored(host: Host, w: World, m: Msg, env: Env)
    requires !host.isIp(m.ip) && Persists(host)
    ensures Added(host.isIp, w.lists.manual, w.autos, m.ip) == w.autos
    ensures host.persist(w.file, m.ip, env.savable) == w.file
  {
  }

  //
  // Convictions
  //

  /** The calls of the step that have to succeed: the policy file and the blocked file are written. */
  ghost predicate Succeeds(host: Host, w: World, m: Msg, env: Env) {
    && PolicyFile.Persisted(Answer(host, m.ip), w.file, Octets(m.ip), env.savable).ok
    && (m.source.Smb? || m.source.Ftp? || (env.syncIo.lockable && env.syncIo.writable))
  }

  /** Nobody convicts an address that one of the copies holds. */
  lemma ConvictIsNew(host: Host, w: World, m: Msg, env: Env)
    requires |w.buckets| == BUCKETS && Sound(host.isIp) && Persists(host) && Lockstep(host, w) && Convicts(host, w, m, env)
    ensures m.ip !in w.lists.manual && m.ip !in w.autos
    ensures !PolicyFile.Lists(EntriesOf(w.file), Octets(m.ip))
  {
    if PolicyFile.Lists(EntriesOf(w.file), Octets(m.ip)) {
      ListedIsRefused(host, w, m);
    }
    assert AddressText(m.ip);
    FileInMemory(host.isIp, EntriesOf(w.file), w.lists.blackIps, w.autos, m.ip);
  }

  /** The policy file after the verdict. */
  lemma VerdictIsWritten(isIp: seq<byte> -> bool, file: Option<seq<byte>>, ip: seq<byte>, savable: bool)
    requires Good(file) && isIp(ip) && 0 !in ip && ip != []
    requires !PolicyFile.Lists(EntriesOf(file), ip)
    requires PolicyFile.Persisted(isIp, file, ip, savable).ok
    ensures var next := PolicyFile.Saved(isIp, file, ip, savable);
            Good(next) && EntriesOf(next) == PolicyFile.WithEntry(EntriesOf(file), ip)
  {
    var root := JsonTree.Parse(JsonTree.CStr(file.value)).value;
    var t := PolicyFile.Edited(root, ip);
    PolicyFile.EditIsFound(root, ip);
    PolicyFile.EditableStays(root, ip);
    PolicyFile.WrittenParses(JsonTree.CStr(file.value), ip);
    PolicyFile.WrittenIsCString(t.value);
    PolicyFile.WithEntryKeeps(EntriesOf(file), ip);
  }

  /** The entries and the automatic list take in the new address alike. */
  lemma AgreeOnNew(
      isIp: string -> bool, items: seq<JsonTree.Json>, rows: seq<Row>, autos: seq<string>, ip: string)
    requires Agrees(isIp, items, rows, autos) && |PolicyFile.Autos(items)| <= AUTO_MAX
    ensures Agrees(isIp, PolicyFile.WithEntry(items, Octets(ip)), rows, PolicyFile.Roomy(autos) + [ip])
  {
    var older, ips := items[..|items| - |autos|], OctetsOf(autos);
    assert items == older + PolicyFile.NewEntries(ips);
    var kept := PolicyFile.QueueStep(older, ips, Octets(ip));
    var now := PolicyFile.Roomy(autos) + [ip];
    assert OctetsOf(now) == PolicyFile.Roomy(ips) + [Octets(ip)];
    var all := kept + PolicyFile.NewEntries(OctetsOf(now));
    assert all[..|all| - |now|] == kept && all[|all| - |now|..] == PolicyFile.NewEntries(OctetsOf(now));
  }

  /** The blocked file holds the new address as well. */
  lemma TextTakesNew(host: Host, w: World, m: Msg, env: Env)
    requires |w.buckets| == BUCKETS && Sound(host.isIp) && Persists(host) && Lockstep(host, w)
    requires Convicts(host, w, m, env) && Succeeds(host, w, m, env)
    ensures var w' := Handle(host, w, m, env);
            InText(host.isIp, w.lists.manual + w'.autos, w'.text)
  {
    var w' := Handle(host, w, m, env);
    LandingIs(host, w, m, env);
    ExecuteBlocks(host.isIp, w.text, FileIp(m), env.io);
    if env.syncIo.lockable && env.syncIo.writable {
      RebuiltHolds(host.isIp, w.lists.manual + w'.autos);
    } else {
      forall a | a in w.lists.manual + w'.autos && host.isIp(a) ensures a in Blocked(w'.text) {
        assert a in w.lists.manual + w.autos || a == m.ip;
      }
    }
  }

  lemma ConvictionStep(host: Host, w: World, m: Msg, env: Env)
    requires |w.buckets| == BUCKETS && Sound(host.isIp) && Persists(host) && Lockstep(host, w)
    requires Convicts(host, w, m, env) && Succeeds(host, w, m, env)
    ensures var w' := Handle(host, w, m, env);
            && Lockstep(host, w')
            && EntriesOf(w'.file) == PolicyFile.WithEntry(EntriesOf(w.file), Octets(m.ip))
  {
    AddressOctets(host.isIp, m.ip);
    LandingIs(host, w, m, env);
    ConvictIsNew(host, w, m, env);
    VerdictIsWritten(Answer(host, m.ip), w.file, Octets(m.ip), env.savable);
    AgreeOnNew(host.isIp, EntriesOf(w.file), w.lists.blackIps, w.autos, m.ip);
    AddedKeepsClean(host.isIp, w.lists.manual, w.autos, m.ip);
    TextTakesNew(host, w, m, env);
  }

  //
  // Reloads
  //

  /** A reload that takes in every address of the policy file and rebuilds the blocked file. */
  ghost predicate Complete(file: Option<seq<byte>>, lists: Lists, io: Io) {
    && Good(file) && LoadedFrom(lists, file.value)
    && |PolicyFile.Addressed(EntriesOf(file))| <= PolicyFile.LIST_MAX
    && io.lockable && io.writable
  }

  lemma AllKnown(isIp: string -> bool, items: seq<JsonTree.Json>, rows: seq<Row>)
    requires Sound(isIp) && rows == RowsOf(PolicyFile.Addressed(items))
    ensures Known(isIp, items, rows)
  {
    forall e | e in items && PolicyFile.Address(e).Some? && isIp(Chars(PolicyFile.Address(e).value))
      ensures Listed(rows, Chars(PolicyFile.Address(e).value))
    {
      var ip := PolicyFile.Address(e).value;
      var i :| 0 <= i < |items| && items[i] == e;
      assert PolicyFile.Names(items[i], ip);
      assert AddressText(Chars(ip));
      PolicyFile.ListedIsAddressed(items, ip);
      var all := PolicyFile.Addressed(items);
      var k :| 0 <= k < |all| && all[k].ip == ip;
      assert rows[k].text == Chars(ip);
    }
  }

  /** A complete load brings the copies into step, whatever state it finds: at the start, too. */
  lemma LoadBringsIntoStep(host: Host, w: World, file: Option<seq<byte>>, policy: Policy, lists: Lists, io: Io)
    requires Sound(host.isIp) && Complete(file, lists, io)
    ensures Lockstep(host, Reloaded(w, file, policy, lists, io))
  {
    var items := EntriesOf(file);
    AllKnown(host.isIp, items, lists.blackIps);
    assert items[..|items| - 0] == items;
    assert items[|items| - 0..] == PolicyFile.NewEntries(OctetsOf([]));
    assert lists.manual + [] == lists.manual;
    RebuiltHolds(host.isIp, lists.manual);
  }

  //
  // Runs
  //

  ghost predicate Convicting(host: Host, w: World, input: Input)
    requires |w.buckets| == BUCKETS
  {
    input.Message? && Convicts(host, w, input.m, input.env)
  }

  /** Every verdict of this step is written, and every reload is complete. */
  ghost predicate Faithful(host: Host, w: World, input: Input)
    requires |w.buckets| == BUCKETS
  {
    match input
    case Message(m, env) => Convicts(host, w, m, env) ==> Succeeds(host, w, m, env)
    case Reload(file, _, lists, io) => Complete(file, lists, io)
  }

  lemma StepInLockstep(host: Host, w: World, input: Input)
    requires |w.buckets| == BUCKETS && Sound(host.isIp) && Persists(host) && Lockstep(host, w) && Faithful(host, w, input)
    ensures Lockstep(host, Next(host, w, input))
  {
    match input
    case Message(m, env) =>
      if Convicts(host, w, m, env) {
        ConvictionStep(host, w, m, env);
      } else {
        QuietStep(host, w, m, env);
        TextKeeps(host.isIp, w.text, w.lists.manual + w.autos, Handle(host, w, m, env).text);
      }
    case Reload(file, policy, lists, io) =>
      LoadBringsIntoStep(host, w, file, policy, lists, io);
  }

  lemma EntriesAfter(host: Host, w: World, input: Input)
    requires |w.buckets| == BUCKETS && Sound(host.isIp) && Persists(host) && Lockstep(host, w) && Faithful(host, w, input)
    requires input.Reload? ==> input.file == w.file
    ensures EntriesOf(Next(host, w, input).file)
         == if Convicting(host, w, input) then PolicyFile.WithEntry(EntriesOf(w.file), Octets(input.m.ip))
            else EntriesOf(w.file)
  {
    if Convicting(host, w, input) {
      ConvictionStep(host, w, input.m, input.env);
    } else if input.Message? {
      QuietStep(host, w, input.m, input.env);
    }
  }

  /** 1 for a verdict and 0 for any other step. */
  ghost function OneIfVerdict(host: Host): (adds: (World, Input) -> nat) {
    (w: World, input: Input) => if |w.buckets| == BUCKETS && Convicting(host, w, input) then 1 else 0
  }

  /** How many of these steps are verdicts. */
  ghost function Verdicts(host: Host, inputs: seq<Input>, ws: seq<World>, start: nat, end: nat): (n: nat)
    requires start <= end <= |inputs| < |ws|
  {
    Total(OneIfVerdict(host), ws, inputs, start, end)
  }

  /** The copies are in step, and the entry of the address has few automatic ones behind it. */
  ghost predicate StandsInStep(host: Host, w: World, ip: seq<byte>, later: nat) {
    Lockstep(host, w) && (later < AUTO_MAX ==> PolicyFile.Stands(EntriesOf(w.file), ip, later))
  }

  /** The entry of a verdict moves one place towards the front with each later one. */
  lemma MoveOn(host: Host, w: World, input: Input, ip: seq<byte>, later: nat)
    requires |w.buckets| == BUCKETS && Sound(host.isIp) && Persists(host) && Faithful(host, w, input)
    requires input.Reload? ==> input.file == w.file
    requires StandsInStep(host, w, ip, later)
    ensures StandsInStep(host, Next(host, w, input), ip, later + if Convicting(host, w, input) then 1 else 0)
  {
    StepInLockstep(host, w, input);
    EntriesAfter(host, w, input);
    if Convicting(host, w, input) && later + 1 < AUTO_MAX {
      PolicyFile.StandsOneMore(EntriesOf(w.file), ip, later, Octets(input.m.ip));
    }
  }

  lemma VerdictIsLast(host: Host, w: World, input: Input)
    requires |w.buckets| == BUCKETS && Sound(host.isIp) && Persists(host) && Faithful(host, w, input) && Lockstep(host, w)
    requires Convicting(host, w, input)
    ensures StandsInStep(host, Next(host, w, input), Octets(input.m.ip), 0)
  {
    StepInLockstep(host, w, input);
    EntriesAfter(host, w, input);
    PolicyFile.NewEntryStands(EntriesOf(w.file), Octets(input.m.ip));
  }

  lemma StandingIsRefused(host: Host, w: World, m: Msg, later: nat)
    requires Sound(host.isIp) && host.isIp(m.ip) && StandsInStep(host, w, Octets(m.ip), later) && later < AUTO_MAX
    ensures Blacklisted(host, w, m) && m.ip in Blocked(w.text)
  {
    PolicyFile.StandingIsListed(EntriesOf(w.file), Octets(m.ip), later);
    ListedIsRefused(host, w, m);
  }

  ghost function KeepsStep(host: Host): (kept: (World, nat) -> bool) { (w, _) => Lockstep(host, w) }

  ghost function KeepsStanding(host: Host, ip: seq<byte>): (kept: (World, nat) -> bool) {
    (w: World, later: nat) => StandsInStep(host, w, ip, later)
  }

  ghost function Zero(): (adds: (World, Input) -> nat) { (_, _) => 0 }

  /** Once in step, the three copies stay in step. */
  lemma RunInLockstep(host: Host, inputs: seq<Input>, ws: seq<World>, start: nat, end: nat)
    requires Sound(host.isIp) && Persists(host) && Daemon.IsRun(host, inputs, ws) && start <= end <= |inputs|
    requires Lockstep(host, ws[start])
    requires forall i :: start <= i < end ==> Faithful(host, ws[i], inputs[i])
    ensures Lockstep(host, ws[end])
  {
    forall i: nat, n: nat {:trigger KeepsStep(host)(ws[i], n)} | start <= i < end && KeepsStep(host)(ws[i], n)
      ensures KeepsStep(host)(ws[i + 1], n + Zero()(ws[i], inputs[i]))
    {
      StepInLockstep(host, ws[i], inputs[i]);
    }
    KeptByRun(KeepsStep(host), Zero(), ws, inputs, start, end);
    assert KeepsStep(host)(ws[end], Total(Zero(), ws, inputs, start, end));
  }

  lemma StandingMovesOn(host: Host, inputs: seq<Input>, ws: seq<World>, start: nat, end: nat, ip: seq<byte>)
    requires Sound(host.isIp) && Persists(host) && Daemon.IsRun(host, inputs, ws) && start <= end <= |inputs|
    requires forall i :: start <= i < end ==>
               Faithful(host, ws[i], inputs[i]) && (inputs[i].Reload? ==> inputs[i].file == ws[i].file)
    ensures StandsInStep(host, ws[start], ip, 0) ==>
              StandsInStep(host, ws[end], ip, Verdicts(host, inputs, ws, start, end))
  {
    forall i: nat, n: nat {:trigger KeepsStanding(host, ip)(ws[i], n)}
      | start <= i < end && KeepsStanding(host, ip)(ws[i], n)
      ensures KeepsStanding(host, ip)(ws[i + 1], n + OneIfVerdict(host)(ws[i], inputs[i]))
    {
      MoveOn(host, ws[i], inputs[i], ip, n);
    }
    if KeepsStanding(host, ip)(ws[start], 0) {
      KeptByRun(KeepsStanding(host, ip), OneIfVerdict(host), ws, inputs, start, end);
    }
  }

  /**
    A verdict stands: until 64 later ones, the client is refused in every state, and the blocked file
    holds its address, through any traffic and any reload of the daemon's own policy file.
   */
  lemma VerdictStands(host: Host, inputs: seq<Input>, ws: seq<World>, verdict: nat, end: nat, m: Msg)
    requires Sound(host.isIp) && Persists(host) && Daemon.IsRun(host, inputs, ws) && verdict < end <= |inputs|
    requires Lockstep(host, ws[verdict])
    requires forall i :: verdict <= i < end ==>
               Faithful(host, ws[i], inputs[i]) && (inputs[i].Reload? ==> inputs[i].file == ws[i].file)
    requires Convicting(host, ws[verdict], inputs[verdict]) && inputs[verdict].m.ip == m.ip
    requires Verdicts(host, inputs, ws, verdict + 1, end) < AUTO_MAX
    ensures Blacklisted(host, ws[end], m) && m.ip in Blocked(ws[end].text)
  {
    VerdictIsLast(host, ws[verdict], inputs[verdict]);
    StandingMovesOn(host, inputs, ws, verdict + 1, end, Octets(m.ip));
    StandingIsRefused(host, ws[end], m, Verdicts(host, inputs, ws, verdict + 1, end));
  }
}
