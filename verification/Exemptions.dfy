/**
  Which messages the daemon passes over, told by the configured lists and switches alone: what is
  exempt changes nothing and is never blocked, and everything else is seen, counted or refused.
 */
module Exemptions {
  import opened Base
  import opened Session
  import opened SessionTable
  import opened HashLookup
  import opened PolicyLookup
  import opened BlockedFile
  import opened Daemon
  import Bits

  //
  // The rules, spelled out
  //

  /** Protection is off as a whole or for the channel of the message. */
  predicate SwitchedOff(p: Policy, source: Source) {
    || !p.enabled
    || (source == Cloud && !p.cloud)
    || (source == Ftp && !p.ftp)
    || (source == HostPath && !p.hostPath)
    || (source == Smb && !p.smb)
    || (source == Legacy && !p.smb)
  }

  /** The same character, or the same letter of the alphabet as capital and as small letter. */
  ghost predicate SameLetter(a: char, b: char) {
    || a == b
    || exists i: nat :: i < 26 && Cases(a, b, i)
  }

  /** One is the `i`th capital and the other the `i`th small letter. */
  predicate Cases(a: char, b: char, i: nat) {
    (a as int == 65 + i && b as int == 97 + i) || (b as int == 65 + i && a as int == 97 + i)
  }

  ghost predicate SameWord(a: string, b: string) {
    |a| == |b| && forall i :: 0 <= i < |a| ==> SameLetter(a[i], b[i])
  }

  /** `ext` is what stands from the last point of the path on. */
  predicate IsExtension(path: string, ext: string) {
    0 < |ext| <= |path| && path[|path| - |ext|..] == ext && ext[0] == '.' && '.' !in ext[1..]
  }

  /** Only some extensions are watched, and the path has none of them. */
  ghost predicate NotWatched(p: Policy, path: string) {
    && !p.allExts && path != []
    && forall ext, k :: IsExtension(path, ext) && 0 <= k < |p.exts| ==> !SameWord(ext, p.exts[k])
  }

  /** The path is a listed file, ends with one behind a slash, or is a listed folder or below one. */
  ghost predicate OnPath(path: string, files: seq<Row>, folders: seq<Row>) {
    && path != []
    && (|| (exists k :: 0 <= k < |files| && files[k].text == path)
        || (exists k, front :: 0 <= k < |files| && files[k].text != [] && path == front + "/" + files[k].text)
        || (exists k :: 0 <= k < |folders| && folders[k].text == path)
        || (exists k, rest :: 0 <= k < |folders| && folders[k].text != [] && path == folders[k].text + "/" + rest))
  }

  /** The first 63 characters: what a buffer of 64 bytes holds. */
  function Held(entry: string): (r: string) { entry[..Min(|entry|, 63)] }

  /** A network entry, cut to its buffer: all addresses that agree with its base but for the low bits. */
  ghost predicate InNetwork(net: Net, entry: string, ip: string) {
    exists base, bits ::
      && Held(entry) == base + "/" + bits && '/' !in base
      && 0 <= net.atoi(bits) <= 32 && net.aton(base).Some? && net.aton(ip).Some?
      && net.aton(base).value / Bits.Pow2(32 - net.atoi(bits)) == net.aton(ip).value / Bits.Pow2(32 - net.atoi(bits))
  }

  /** A range entry: all addresses from one end to the other. */
  ghost predicate InInterval(net: Net, entry: string, ip: string) {
    exists one, two ::
      && Held(entry) == one + "-" + two && '-' !in one
      && net.aton(one).Some? && net.aton(two).Some? && net.aton(ip).Some?
      && var a, x, y := net.aton(ip).value, net.aton(one).value, net.aton(two).value;
         x <= a <= y || y <= a <= x
  }

  ghost predicate OnList(net: Net, users: seq<Row>, ips: seq<Row>, user: string, ip: string) {
    || (user != [] && exists k :: 0 <= k < |users| && users[k].text == user)
    || (ip != [] && exists k :: 0 <= k < |ips| && ips[k].text == ip)
    || (exists k :: 0 <= k < |ips| && '/' in ips[k].text && InNetwork(net, ips[k].text, ip))
    || (exists k :: 0 <= k < |ips| && '/' !in ips[k].text && '-' in ips[k].text && InInterval(net, ips[k].text, ip))
  }

  ghost predicate Exempt(host: Host, p: Policy, lists: Lists, m: Msg) {
    || SwitchedOff(p, m.source)
    || NotWatched(p, m.path)
    || OnPath(m.path, lists.files, lists.folders)
    || OnList(host.net, lists.whiteUsers, lists.whiteIps, m.user, m.ip)
  }

  //
  // The daemon's checks agree with the rules
  //

  lemma LettersAgree(a: char, b: char)
    ensures LowerChar(a) == LowerChar(b) <==> SameLetter(a, b)
  {
    if 'A' <= a <= 'Z' {
      assert Cases(a, b, a as int - 65) <==> b as int == a as int + 32;
    }
    if 'A' <= b <= 'Z' {
      assert Cases(a, b, b as int - 65) <==> a as int == b as int + 32;
    }
  }

  lemma WordsAgree(a: string, b: string)
    ensures SameText(a, b) <==> SameWord(a, b)
  {
    forall i | 0 <= i < |a| && |a| == |b| ensures LowerChar(a[i]) == LowerChar(b[i]) <==> SameLetter(a[i], b[i]) {
      LettersAgree(a[i], b[i]);
    }
  }

  lemma {:induction false} ExtensionIs(path: string, ext: string)
    ensures FromLast(path, '.') == Some(ext) <==> IsExtension(path, ext)
    ensures FromLast(path, '.') == None ==> '.' !in path
  {
    if path != [] {
      ExtensionIs(path[1..], ext);
      var rest := FromLast(path[1..], '.');
      if rest.Some? {
        ExtensionIs(path[1..], rest.value);
      }
      if |ext| <= |path[1..]| {
        assert path[1..][|path[1..]| - |ext|..] == path[|path| - |ext|..];
      }
    }
  }

  lemma FilterAgrees(p: Policy, path: string)
    ensures ExtFiltered(p, path) <==> NotWatched(p, path)
  {
    var ext := FromLast(path, '.');
    if ext.Some? {
      ExtensionIs(path, ext.value);
      forall k | 0 <= k < |p.exts| ensures SameText(ext.value, p.exts[k]) <==> SameWord(ext.value, p.exts[k]) {
        WordsAgree(ext.value, p.exts[k]);
      }
    }
    forall other | IsExtension(path, other) ensures ext == Some(other) {
      ExtensionIs(path, other);
    }
  }

  lemma SwitchesAgree(p: Policy, source: Source)
    ensures Protected(p, source) <==> !SwitchedOff(p, source)
  {
  }

  lemma EndsAgree(path: string, entry: string)
    ensures EndsAfterSlash(path, entry) <==> entry != [] && exists front :: path == front + "/" + entry
  {
    if EndsAfterSlash(path, entry) {
      var n := |path| - |entry| - 1;
      assert path == path[..n] + "/" + entry;
    }
    if entry != [] && exists front :: path == front + "/" + entry {
      var front :| path == front + "/" + entry;
      assert |path| - |entry| - 1 == |front|;
    }
  }

  lemma FoldersAgree(path: string, folders: seq<Row>)
    requires path != []
    ensures FolderAbove(path, folders, 0) <==>
            || (exists k :: 0 <= k < |folders| && folders[k].text == path)
            || (exists k, rest :: 0 <= k < |folders| && folders[k].text != [] && path == folders[k].text + "/" + rest)
  {
    if FolderAbove(path, folders, 0) {
      var d: nat :| Boundary(path, d) && Listed(folders, path[..d]);
      var k :| 0 <= k < |folders| && folders[k].text == path[..d];
      if d == |path| {
        assert path[..d] == path;
      } else {
        assert path == folders[k].text + "/" + path[d + 1..];
      }
    }
    if k :| 0 <= k < |folders| && folders[k].text == path {
      assert path[..|path|] == path;
      assert Boundary(path, |path|) && Listed(folders, path[..|path|]);
    }
    if k, rest :| 0 <= k < |folders| && folders[k].text != [] && path == folders[k].text + "/" + rest {
      var d := |folders[k].text|;
      assert path[..d] == folders[k].text && path[d] == '/';
      assert Boundary(path, d) && Listed(folders, path[..d]);
    }
  }

  lemma PathsAgree(path: string, files: seq<Row>, folders: seq<Row>)
    ensures Excepted(path, files, folders) <==> OnPath(path, files, folders)
  {
    if path != [] {
      FoldersAgree(path, folders);
      forall k | 0 <= k < |files|
        ensures EndsAfterSlash(path, files[k].text) <==>
                files[k].text != [] && exists front :: path == front + "/" + files[k].text
      {
        EndsAgree(path, files[k].text);
      }
    }
  }

  lemma HalfThenDivide(a: nat, p: nat)
    requires p > 0
    ensures a / 2 / p == a / (2 * p)
  {
    var q, r := a / 2 / p, a / 2 % p;
    assert a / 2 == q * p + r;
    assert a == q * (2 * p) + (2 * r + a % 2);
    Bits.RemainderIs(a, 2 * p, q, 2 * r + a % 2);
  }

  lemma {:induction false} FloorDivides(a: nat, k: nat)
    ensures Floor(a, k) == a / Bits.Pow2(k) * Bits.Pow2(k)
  {
    if k > 0 {
      FloorDivides(a / 2, k - 1);
      HalfThenDivide(a, Bits.Pow2(k - 1));
    }
  }

  lemma NetsAgree(a: Address, base: Address, prefix: nat)
    requires prefix <= 32
    ensures SameNet(a, base, prefix) <==> a / Bits.Pow2(32 - prefix) == base / Bits.Pow2(32 - prefix)
  {
    var k := 32 - prefix;
    PowOf32();
    Bits.PowGrows(k, 32);
    MaskFloors(a, 32, k);
    MaskFloors(base, 32, k);
    FloorDivides(a, k);
    FloorDivides(base, k);
    Cancels(a / Bits.Pow2(k), base / Bits.Pow2(k), Bits.Pow2(k));
  }

  lemma Cancels(x: int, y: int, p: int)
    requires p > 0
    ensures x * p == y * p <==> x == y
  {
  }

  lemma FirstSplit(s: string, c: char, front: string, back: string)
    requires s == front + [c] + back && c !in front
    ensures IndexOf(s, c) == Some(|front|) && s[..|front|] == front && s[|front| + 1..] == back
  {
    assert s[|front|] == c;
    assert forall j :: 0 <= j < |front| ==> s[j] == front[j];
  }

  lemma HeldIsCut(entry: string)
    ensures Held(entry) == CutEntry(entry)
  {
  }

  lemma NetworkAgrees(net: Net, entry: string, ip: string)
    ensures InCidr(net, ip, entry) <==> InNetwork(net, entry, ip)
  {
    var buf := CutEntry(entry);
    var slash := IndexOf(buf, '/');
    HeldIsCut(entry);
    if InCidr(net, ip, entry) {
      var base, bits := buf[..slash.value], buf[slash.value + 1..];
      NetsAgree(net.aton(ip).value, net.aton(base).value, net.atoi(bits));
      assert buf == base + "/" + bits;
    }
    if InNetwork(net, entry, ip) {
      var base, bits :|
        && Held(entry) == base + "/" + bits && '/' !in base
        && 0 <= net.atoi(bits) <= 32 && net.aton(base).Some? && net.aton(ip).Some?
        && net.aton(base).value / Bits.Pow2(32 - net.atoi(bits)) == net.aton(ip).value / Bits.Pow2(32 - net.atoi(bits));
      FirstSplit(buf, '/', base, bits);
      NetsAgree(net.aton(ip).value, net.aton(base).value, net.atoi(bits));
    }
  }

  lemma IntervalAgrees(net: Net, entry: string, ip: string)
    ensures InRange(net, ip, entry) <==> InInterval(net, entry, ip)
  {
    var buf := CutEntry(entry);
    var dash := IndexOf(buf, '-');
    HeldIsCut(entry);
    if InRange(net, ip, entry) {
      var one, two := buf[..dash.value], buf[dash.value + 1..];
      assert buf == one + "-" + two;
    }
    if InInterval(net, entry, ip) {
      var one, two :|
        && Held(entry) == one + "-" + two && '-' !in one
        && net.aton(one).Some? && net.aton(two).Some? && net.aton(ip).Some?
        && var a, x, y := net.aton(ip).value, net.aton(one).value, net.aton(two).value;
           x <= a <= y || y <= a <= x;
      FirstSplit(buf, '-', one, two);
    }
  }

  lemma ListsAgree(net: Net, users: seq<Row>, ips: seq<Row>, user: string, ip: string)
    ensures ListsClient(net, users, ips, Some(user), Some(ip)) <==> OnList(net, users, ips, user, ip)
  {
    forall k | 0 <= k < |ips|
      ensures Covers(net, ips[k].text, ip) <==>
              if '/' in ips[k].text then InNetwork(net, ips[k].text, ip)
              else '-' in ips[k].text && InInterval(net, ips[k].text, ip)
    {
      NetworkAgrees(net, ips[k].text, ip);
      IntervalAgrees(net, ips[k].text, ip);
    }
  }

  lemma RulesAgree(host: Host, w: World, m: Msg)
    ensures Bypassed(host, w, m) <==> Exempt(host, w.policy, w.lists, m)
  {
    SwitchesAgree(w.policy, m.source);
    FilterAgrees(w.policy, m.path);
    PathsAgree(m.path, w.lists.files, w.lists.folders);
    ListsAgree(host.net, w.lists.whiteUsers, w.lists.whiteIps, m.user, m.ip);
  }

  //
  // What follows
  //

  /**
    A message of a switched-off channel, of an extension that is not watched, on an excepted path or
    of a whitelisted client changes nothing at all.
   */
  lemma ExemptChangesNothing(host: Host, w: World, m: Msg, env: Env)
    requires |w.buckets| == BUCKETS && !m.notice && Exempt(host, w.policy, w.lists, m)
    ensures Handle(host, w, m, env) == w
  {
    RulesAgree(host, w, m);
  }

  /** Over every run, a session all of whose messages are exempt or mere notices is never blocked. */
  lemma ExemptIsNeverBlocked(host: Host, inputs: seq<Input>, ws: seq<World>, n: nat, key: string)
    requires Sound(host.isIp) && Daemon.IsRun(host, inputs, ws) && n < |ws|
    requires forall i :: 0 <= i < n && inputs[i].Message? && Key(inputs[i].m) == key ==>
               inputs[i].m.notice || Exempt(host, ws[i].policy, ws[i].lists, inputs[i].m)
    ensures !Daemon.IsBlocked(ws[n].buckets, key)
  {
    BlockedIffLanded(host, inputs, ws, n, key);
    if Landed(host, inputs, ws, n, key) {
      var i: nat :| i < n && LandsAt(host, inputs, ws, i, key);
      RulesAgree(host, ws[i], inputs[i].m);
    }
  }

  /** The client is on the blacklist: a listed user or address, a covering entry, or an automatic one. */
  ghost predicate Refused(host: Host, lists: Lists, autos: seq<string>, m: Msg) {
    || OnList(host.net, lists.blackUsers, lists.blackIps, m.user, m.ip)
    || (m.ip != [] && m.ip in autos)
    || (exists k :: 0 <= k < |autos| && '/' in autos[k] && InNetwork(host.net, autos[k], m.ip))
    || (exists k :: 0 <= k < |autos| && '-' in autos[k] && InInterval(host.net, autos[k], m.ip))
  }

  lemma RefusalsAgree(host: Host, w: World, m: Msg)
    ensures Blacklisted(host, w, m) <==> Refused(host, w.lists, w.autos, m)
  {
    ListsAgree(host.net, w.lists.blackUsers, w.lists.blackIps, m.user, m.ip);
    forall k | 0 <= k < |w.autos|
      ensures AutoCovers(host.net, w.autos[k], m.ip) <==>
              && w.autos[k] != []
              && (|| m.ip == w.autos[k]
                  || ('/' in w.autos[k] && InNetwork(host.net, w.autos[k], m.ip))
                  || ('-' in w.autos[k] && InInterval(host.net, w.autos[k], m.ip)))
    {
      NetworkAgrees(host.net, w.autos[k], m.ip);
      IntervalAgrees(host.net, w.autos[k], m.ip);
    }
  }

  /**
    Any other message of a blacklisted client blocks its session if the address can be put into the
    blocked file; the event itself is not counted.
   */
  lemma RefusedIsBlocked(host: Host, w: World, m: Msg, env: Env)
    requires Ok(host.hash, w.buckets) && !m.notice && Refused(host, w.lists, w.autos, m)
    requires !Exempt(host, w.policy, w.lists, m)
    requires Lookup(host.hash, w.buckets, Key(m), env.seenAt).at.Some?
    ensures var w' := Handle(host, w, m, env);
            && Executed(host.isIp, w.text, FileIp(m), env.io).0 ==> Daemon.IsBlocked(w'.buckets, Key(m))
    ensures var w' := Handle(host, w, m, env);
            (w'.autos, w'.lists, w'.policy, w'.file, w'.triggers) == (w.autos, w.lists, w.policy, w.file, w.triggers)
  {
    RulesAgree(host, w, m);
    RefusalsAgree(host, w, m);
    HandleBlocksExactly(host, w, m, env);
    LookupBlocks(host.hash, w.buckets, Key(m), env.seenAt, Key(m));
    var found := Lookup(host.hash, w.buckets, Key(m), env.seenAt);
    OwnBlock(host.hash, found.buckets, found.at.value);
  }

  /** A lookup leaves the session that it finds seen at that time, and with the events it had. */
  lemma FoundIsSeen(hash: Hash, b: seq<State>, key: string, now: int)
    requires Ok(hash, b) && |key| < KEY_LEN
    ensures var r := Lookup(hash, b, key, now);
            r.at.Some? ==>
              var i := r.at.value;
              && Holds(r.buckets, i, key) && r.buckets[i].lastSeen == now
              && r.buckets[i].totalEvents == (if Holds(b, i, key) then b[i].totalEvents else 0)
              && (Has(b, key) ==> Holds(b, i, key))
  {
    LookupRefinesMap(hash, b, key, now);
    if Has(b, key) {
      var i: nat :| Holds(b, i, key);
      PresentIsFound(hash, b, key, i);
    }
  }

  lemma ScoringCounts(host: Host, w: World, i: nat, m: Msg, env: Env)
    requires |w.buckets| == BUCKETS && i < BUCKETS
    ensures var s, s' := w.buckets[i], ScoredAt(host, w, i, m, env).buckets[i];
            s'.totalEvents == s.totalEvents + 1 && (s'.key, s'.inUse, s'.lastSeen) == (s.key, s.inUse, s.lastSeen)
  {
  }

  /**
    Any other message of any other client is counted: its session is in the table, seen at that
    time, and has one event more than before, whether it was there or is new.
   */
  lemma OthersAreCounted(host: Host, w: World, m: Msg, env: Env)
    requires Ok(host.hash, w.buckets) && !m.notice
    requires !Exempt(host, w.policy, w.lists, m) && !Refused(host, w.lists, w.autos, m)
    requires Lookup(host.hash, w.buckets, Key(m), env.seenAt).at.Some?
    ensures var b, b' := w.buckets, Handle(host, w, m, env).buckets;
            exists i: nat :: Holds(b', i, Key(m)) && b'[i].lastSeen == env.seenAt
              && b'[i].totalEvents == 1 + (if Holds(b, i, Key(m)) then b[i].totalEvents else 0)
              && (Has(b, Key(m)) ==> Holds(b, i, Key(m)))
  {
    RulesAgree(host, w, m);
    RefusalsAgree(host, w, m);
    FoundIsSeen(host.hash, w.buckets, Key(m), env.seenAt);
    var found := Lookup(host.hash, w.buckets, Key(m), env.seenAt);
    ScoringCounts(host, w.(buckets := found.buckets), found.at.value, m, env);
    assert Holds(Handle(host, w, m, env).buckets, found.at.value, Key(m));
  }
}
