/**
  What one message does to its session, told in plain words: which window lengths apply, what counts
  as a ransom name, when the content scanners matter, which directory is touched and when the score
  is computed.
 */
module Assessment {
  import opened Base
  import opened Session
  import opened SessionTable
  import opened Scorer
  import opened BlockedFile
  import opened Daemon
  import opened Exemptions

  //
  // Names
  //

  /** Both have the same extension, or neither has one. */
  ghost predicate SameExtension(a: string, b: string) {
    forall ext :: IsExtension(a, ext) <==> IsExtension(b, ext)
  }

  ghost predicate HasOneOf(path: string, exts: seq<string>) {
    exists k :: 0 <= k < |exts| && IsExtension(path, exts[k])
  }

  /** A rename that changes the extension. */
  ghost predicate Changes(m: Msg) {
    m.op == Rename && m.path != [] && m.newName != [] && !SameExtension(m.path, m.newName)
  }

  /** A rename to a listed extension that it did not have, or a new file with one. */
  ghost predicate IsRansom(p: Policy, m: Msg) {
    || (Changes(m) && HasOneOf(m.newName, p.ransomExts))
    || (m.flags.newFile && m.path != [] && HasOneOf(m.path, p.ransomExts))
  }

  lemma ExtensionsAgree(a: string, b: string)
    ensures FromLast(a, '.') == FromLast(b, '.') <==> SameExtension(a, b)
  {
    var x, y := FromLast(a, '.'), FromLast(b, '.');
    forall ext ensures (x == Some(ext) <==> IsExtension(a, ext)) && (y == Some(ext) <==> IsExtension(b, ext)) {
      ExtensionIs(a, ext);
      ExtensionIs(b, ext);
    }
    if x.Some? {
      assert IsExtension(a, x.value);
    }
    if y.Some? {
      assert IsExtension(b, y.value);
    }
  }

  lemma OneOfAgrees(path: string, exts: seq<string>)
    ensures HasOneOf(path, exts) <==> FromLast(path, '.').Some? && FromLast(path, '.').value in exts
  {
    forall ext ensures FromLast(path, '.') == Some(ext) <==> IsExtension(path, ext) {
      ExtensionIs(path, ext);
    }
  }

  /** The rename of a file that gives it a new extension, and the ransom extensions, are found out from the names. */
  lemma NamesAreJudged(p: Policy, s: State, m: Msg, env: Env)
    ensures var f := Analysed(p, s, m, env);
            && (f.extChange <==> m.flags.extChange || Changes(m))
            && (f.ransomExt <==> m.flags.ransomExt || IsRansom(p, m))
            && (f.risky, f.backedUp, f.newFile, f.contentSame)
               == (m.flags.risky, m.flags.backedUp, m.flags.newFile, m.flags.contentSame)
  {
    ExtensionsAgree(m.path, m.newName);
    OneOfAgrees(m.newName, p.ransomExts);
    OneOfAgrees(m.path, p.ransomExts);
  }

  //
  // The content scanners
  //

  /**
    Exactly when the entropy of a file matters: the scan is on, a backed-up file was opened, written
    or cut, and neither the message nor an earlier event of the session has the signal already.
   */
  lemma EntropyMatters(p: Policy, s: State, m: Msg, env: Env)
    ensures Analysed(p, s, m, env.(entropyHit := true)) != Analysed(p, s, m, env.(entropyHit := false)) <==>
            && p.entropyOn && m.path != [] && m.flags.backedUp && m.op in {Open, Write, Truncate}
            && s.counts.highEntropy == 0 && !m.flags.highEntropy
    ensures m.flags.highEntropy ==> Analysed(p, s, m, env).highEntropy
    ensures !m.flags.highEntropy && !env.entropyHit ==> !Analysed(p, s, m, env).highEntropy
  {
    var yes, no := Analysed(p, s, m, env.(entropyHit := true)), Analysed(p, s, m, env.(entropyHit := false));
    assert yes == no.(highEntropy := yes.highEntropy);
  }

  /** Exactly when a rule match matters: the scan is on, a file is closed, and there was no match yet. */
  lemma YaraMatters(p: Policy, s: State, m: Msg, env: Env)
    ensures Analysed(p, s, m, env.(yaraHit := true)) != Analysed(p, s, m, env.(yaraHit := false)) <==>
            p.yaraOn && m.path != [] && m.op == Close && s.counts.yaraMatch == 0 && !m.flags.yaraMatch
    ensures m.flags.yaraMatch ==> Analysed(p, s, m, env).yaraMatch
    ensures !m.flags.yaraMatch && !env.yaraHit ==> !Analysed(p, s, m, env).yaraMatch
  {
    var yes, no := Analysed(p, s, m, env.(yaraHit := true)), Analysed(p, s, m, env.(yaraHit := false));
    assert yes == no.(yaraMatch := yes.yaraMatch);
  }

  //
  // Directories and windows
  //

  lemma {:induction false} LastSlash(dir: string, name: string)
    requires '/' !in name
    ensures FromLast(dir + "/" + name, '/') == Some("/" + name)
  {
    var path := dir + "/" + name;
    if dir == [] {
      assert path == "/" + name && path[1..] == name;
      NoSlash(name);
    } else {
      assert path[1..] == dir[1..] + "/" + name;
      LastSlash(dir[1..], name);
    }
  }

  lemma {:induction false} NoSlash(name: string)
    requires '/' !in name
    ensures FromLast(name, '/') == None
  {
    if name != [] {
      NoSlash(name[1..]);
    }
  }

  /** The directory of a path is what stands in front of its last slash; the root and bare names have none. */
  lemma DirectoryIs(hash: string -> nat, dir: string, name: string)
    requires '/' !in name
    ensures dir != [] ==> DirHash(hash, dir + "/" + name) == hash(dir)
    ensures DirHash(hash, "/" + name) == 0 && DirHash(hash, name) == 0
  {
    LastSlash(dir, name);
    LastSlash([], name);
    NoSlash(name);
    assert [] + "/" + name == "/" + name;
    assert (dir + "/" + name)[..|dir|] == dir;
  }

  /** The cloud channel has windows of its own where they are set. */
  lemma WindowsApply(host: Host, p: Policy, s: State, m: Msg, env: Env)
    ensures var shortLen := if m.source == Cloud && p.cloudShort > 0 then p.cloudShort else p.shortLen;
            var longLen := if m.source == Cloud && p.cloudLong > 0 then p.cloudLong else p.longLen;
            var r := Assessed(host, p, s, m, env);
            && (s.shortStart != 0 ==>
                  r.shortStart == if env.now - s.shortStart >= shortLen then env.now else s.shortStart)
            && (s.longStart != 0 ==> r.longStart == if env.now - s.longStart >= longLen then env.now else s.longStart)
  {
  }

  //
  // The score
  //

  /** A plain open, write or cut waits: without a ransom name or a content signal it is counted but not scored. */
  ghost predicate Waits(p: Policy, s: State, m: Msg, env: Env) {
    && m.op in {Open, Write, Truncate}
    && !m.flags.ransomExt && !IsRansom(p, m)
    && !Analysed(p, s, m, env).highEntropy && !Analysed(p, s, m, env).yaraMatch
  }

  /**
    When the score is computed, and of what: of the counters with this event in them. Otherwise it
    stays, unless the long window is over.
   */
  lemma ScoredWhen(host: Host, p: Policy, s: State, m: Msg, env: Env)
    ensures var r := Assessed(host, p, s, m, env);
            var longLen := if m.source == Cloud && p.cloudLong > 0 then p.cloudLong else p.longLen;
            var over := s.longStart != 0 && env.now - s.longStart >= longLen;
            if !Waits(p, s, m, env) then
              r.score == Score(p.scoring, r.counts, r.touchedDirs) && r.level == Level(p.scoring.thresholds, r.score)
            else if over then (r.score, r.level) == (0, Normal)
            else longLen > 0 ==> (r.score, r.level) == (s.score, s.level)
  {
    NamesAreJudged(p, s, m, env);
  }

  /** The counters after the message are those of the open window with this one event added. */
  lemma OneEventIsCounted(host: Host, p: Policy, s: State, m: Msg, env: Env)
    ensures var r := Assessed(host, p, s, m, env);
            var shortLen := if m.source == Cloud && p.cloudShort > 0 then p.cloudShort else p.shortLen;
            var longLen := if m.source == Cloud && p.cloudLong > 0 then p.cloudLong else p.longLen;
            r.counts == Run(s, [Window(env.now, shortLen, longLen),
                                Event(m.op, Analysed(p, s, m, env), DirHash(host.hash, m.path))]).counts
            && r.dirs == Run(s, [Window(env.now, shortLen, longLen),
                                 Event(m.op, Analysed(p, s, m, env), DirHash(host.hash, m.path))]).dirs
  {
    var shortLen := if m.source == Cloud && p.cloudShort > 0 then p.cloudShort else p.shortLen;
    var longLen := if m.source == Cloud && p.cloudLong > 0 then p.cloudLong else p.longLen;
    var steps := [Window(env.now, shortLen, longLen), Event(m.op, Analysed(p, s, m, env), DirHash(host.hash, m.path))];
    assert steps[..1] == [steps[0]] && steps[..1][..0] == [];
    assert Run(s, steps[..1]) == CheckWindow(s, env.now, shortLen, longLen);
  }

  //
  // In the table
  //

  /** The key of a session: user and address, cut to what its buffer holds. */
  lemma KeyIs(m: Msg)
    ensures |m.user| + |m.ip| + 1 <= 127 ==> Key(m) == m.user + "@" + m.ip
    ensures Key(m) == (m.user + "@" + m.ip)[..Min(|m.user + "@" + m.ip|, 127)]
  {
  }

  /**
    The message of a client that is neither exempt nor refused leaves its session in the table as
    assessed: with its event id, new if it had none, and blocked if it was or if it is critical now
    and the call succeeds.
   */
  lemma SessionIsAssessed(host: Host, w: World, m: Msg, env: Env)
    requires Ok(host.hash, w.buckets) && !m.notice
    requires !Exempt(host, w.policy, w.lists, m) && !Refused(host, w.lists, w.autos, m)
    requires Lookup(host.hash, w.buckets, Key(m), env.seenAt).at.Some?
    ensures var found := Lookup(host.hash, w.buckets, Key(m), env.seenAt);
            var s, s' := found.buckets[found.at.value], Handle(host, w, m, env).buckets[found.at.value];
            var was := if s.eventId == "" then s.(eventId := env.newId) else s;
            var r := Assessed(host, w.policy, was, m, env);
            && s' == r.(blocked := s'.blocked)
            && (s'.blocked <==> s.blocked || (r.level == Critical && Executed(host.isIp, w.text, FileIp(m), env.io).0))
  {
    RulesAgree(host, w, m);
    RefusalsAgree(host, w, m);
    var found := Lookup(host.hash, w.buckets, Key(m), env.seenAt);
    var was := WithEvent(found.buckets[found.at.value], env.newId);
    AssessedKeeps(host, w.policy, was, m, env);
  }

  /** A notice gives the session an event id if it has none, and changes nothing else but its time. */
  lemma NoticeOnlyNames(host: Host, w: World, m: Msg, env: Env)
    requires |w.buckets| == BUCKETS && m.notice
    ensures var found := Lookup(host.hash, w.buckets, Key(m), env.seenAt);
            var w' := Handle(host, w, m, env);
            && w' == w.(buckets := w'.buckets)
            && (found.at.None? ==> w'.buckets == w.buckets)
            && (found.at.Some? ==>
                  var s := found.buckets[found.at.value];
                  w'.buckets == found.buckets[found.at.value :=
                                  if s.eventId == "" then s.(eventId := env.newId) else s])
  {
  }

  /** Only the SMB and the FTP channel put an address into the blocked file directly; others only by a rebuild. */
  lemma OtherChannelsStayOut(host: Host, w: World, m: Msg, env: Env)
    requires |w.buckets| == BUCKETS && m.source in {Cloud, HostPath, Legacy}
    ensures var w' := Handle(host, w, m, env);
            w'.text == w.text || w'.text == Join(PlainOnes(w.lists.manual + w'.autos))
  {
  }
}
