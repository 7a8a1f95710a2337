/**
  The file-server module as a machine over files, backups and open handles: the first copy of a
  file wins, and what strict mode does and does not keep safe.
 */
module VfsBackup {
  import opened Base

  /** What the module remembers of a handle that may destroy data (`struct rguard_file_state`). */
  datatype Track = Track(done: bool, failed: bool, known: bool)

  /**
    An open file: the inode, the name it was opened by, and whether the client came in through
    /proc, so that the name is hidden from the module.
   */
  datatype Handle = Handle(inode: nat, path: string, writable: bool, append: bool, hidden: bool, track: Option<Track>)

  datatype Share = Share(
    strict: bool,
    files: map<string, nat>,
    data: map<nat, seq<byte>>,
    backups: map<string, seq<byte>>,
    handles: map<nat, Handle>)

  datatype OpenFlags = OpenFlags(pathOnly: bool, write: bool, creat: bool, trunc: bool, append: bool) {
    predicate CreateTrunc() { creat && trunc }
  }

  /** What the outside answers during one callback. */
  datatype Env = Env(
    blocked: bool,     // the client is in the blocked file
    fits: bool,        // the full path fits its buffer
    storable: bool,    // the backup path fits its buffer
    copies: bool,      // directories, opens and the copy of a new backup succeed
    proceeds: bool,    // the next module's call succeeds
    attaches: bool,    // memory for the handle's track
    named: bool)       // a hidden name has become visible

  datatype Step =
    | Open(h: nat, path: string, flags: OpenFlags, hidden: bool, inode: nat, env: Env)
    | Pwrite(h: nat, bytes: seq<byte>, offset: nat, env: Env)
    | Ftruncate(h: nat, len: nat, env: Env)
    | Unlink(path: string, env: Env)
    | Close(h: nat)

  //
  // do_backup
  //

  /** The store after `do_backup`, and whether it returned OK. */
  function BackedUp(w: Share, path: string, env: Env): (r: (bool, map<string, seq<byte>>))
    requires Valid(w)
  {
    if path !in w.files || !env.storable then (false, w.backups)
    else if path in w.backups then (true, w.backups)
    else if env.copies then (true, w.backups[path := w.data[w.files[path]]])
    else (false, w.backups)
  }

  //
  // The calls of the next module
  //

  function Zeros(n: nat): (r: seq<byte>) { seq(n, _ => 0) }

  function Resized(s: seq<byte>, n: nat): (r: seq<byte>) {
    if n <= |s| then s[..n] else s + Zeros(n - |s|)
  }

  /** `bytes` written at `offset`, a gap before them filled with zeros. */
  function Spliced(s: seq<byte>, offset: nat, bytes: seq<byte>): (r: seq<byte>) {
    Resized(s, offset) + bytes + (if offset + |bytes| < |s| then s[offset + |bytes|..] else [])
  }

  function Written(w: Share, h: nat, bytes: seq<byte>, offset: nat): (r: Share)
    requires h in w.handles && w.handles[h].inode in w.data
  {
    var hd := w.handles[h];
    if !hd.writable then w
    else
      var was := w.data[hd.inode];
      w.(data := w.data[hd.inode := if hd.append then was + bytes else Spliced(was, offset, bytes)])
  }

  function Truncated(w: Share, h: nat, len: nat): (r: Share)
    requires h in w.handles && w.handles[h].inode in w.data
  {
    var hd := w.handles[h];
    if !hd.writable then w else w.(data := w.data[hd.inode := Resized(w.data[hd.inode], len)])
  }

  predicate CanOpen(w: Share, step: Step)
    requires step.Open?
  {
    step.env.proceeds && (step.path in w.files || (step.flags.creat && !step.flags.pathOnly))
  }

  function Opened(w: Share, step: Step, track: Option<Track>): (r: Share)
    requires step.Open? && CanOpen(w, step) && (step.path in w.files ==> w.files[step.path] in w.data)
  {
    var fl, path := step.flags, step.path;
    var inode := if path in w.files then w.files[path] else step.inode;
    var hd := Handle(inode, path, fl.write && !fl.pathOnly, fl.append, step.hidden, track);
    var data := if path !in w.files || (fl.trunc && !fl.pathOnly) then w.data[inode := []] else w.data;
    w.(files := w.files[path := inode], data := data, handles := w.handles[step.h := hd])
  }

  //
  // The callbacks
  //

  predicate PassedThrough(fl: OpenFlags) { fl.pathOnly || (!fl.write && !fl.CreateTrunc()) }

  /** The module's `stat` finds the file: a full path that is cut to its buffer names none. */
  predicate Sees(w: Share, path: string, env: Env) { path in w.files && env.fits }

  /** An open of an existing file that the module takes for destructive. */
  predicate Risky(w: Share, step: Step)
    requires step.Open?
  {
    Sees(w, step.path, step.env) && ((step.flags.write && !step.flags.append) || step.flags.CreateTrunc())
  }

  /** The track attached to a new handle: of a risky open, or of what passes for a created file. */
  function TrackFor(attaches: bool, risky: bool, seen: bool, creat: bool, ok: bool): (t: Option<Track>) {
    if attaches && risky then Some(Track(ok, !ok, true))
    else if attaches && !seen && creat then Some(Track(true, false, true))
    else None
  }

  function OpenTrack(w: Share, step: Step, ok: bool): (t: Option<Track>)
    requires step.Open?
  {
    TrackFor(step.env.attaches, Risky(w, step), Sees(w, step.path, step.env), step.flags.creat, ok)
  }

  /** The open of a client that is not refused, by a name that the module sees. */
  function GuardedOpen(w: Share, step: Step): (r: Share)
    requires Valid(w) && step.Open?
  {
    var b := if Risky(w, step) then BackedUp(w, step.path, step.env) else (true, w.backups);
    var w' := w.(backups := b.1);
    if (!b.0 && w.strict) || !CanOpen(w, step) then w' else Opened(w', step, OpenTrack(w, step, b.0))
  }

  /** `gf_openat`. */
  function AfterOpen(w: Share, step: Step): (r: Share)
    requires Valid(w) && step.Open?
  {
    var env := step.env;
    if PassedThrough(step.flags) then
      if CanOpen(w, step) then Opened(w, step, None) else w
    else if env.blocked then w
    else if step.hidden then
      if CanOpen(w, step)
      then Opened(w, step, if env.attaches then Some(Track(false, false, env.named)) else None) else w
    else GuardedOpen(w, step)
  }

  datatype Verdict = Deny | Unresolved | Go

  function WithTrack(w: Share, h: nat, t: Track): (r: Share)
    requires h in w.handles
  {
    w.(handles := w.handles[h := w.handles[h].(track := Some(t))])
  }

  /** `do_backup` for the file of a handle, with its outcome noted in the track. */
  function TrackedBackUp(w: Share, h: nat, t: Track, env: Env): (r: (bool, Share))
    requires Valid(w) && h in w.handles
  {
    var b := BackedUp(w, w.handles[h].path, env);
    (b.0, WithTrack(w.(backups := b.1), h, t.(done := b.0, failed := !b.0)))
  }

  /** The part of the deferred backup that knows the path. */
  function Attempted(w: Share, h: nat, t: Track, env: Env): (r: (Verdict, Share))
    requires Valid(w) && h in w.handles
    ensures r.1.files == w.files && r.1.data == w.data && r.1.strict == w.strict
    ensures h in r.1.handles && r.1.handles[h].inode == w.handles[h].inode
  {
    if !env.fits then (Unresolved, WithTrack(w, h, t))
    else
      var b := TrackedBackUp(w, h, t, env);
      if b.0 || !w.strict then (Go, b.1) else (Deny, b.1)
  }

  /** `gf_deferred_backup`. */
  function Deferred(w: Share, h: nat, env: Env): (r: (Verdict, Share))
    requires Valid(w) && h in w.handles && w.handles[h].track.Some?
    ensures r.1.files == w.files && r.1.data == w.data && r.1.strict == w.strict
    ensures h in r.1.handles && r.1.handles[h].inode == w.handles[h].inode
  {
    var hd := w.handles[h];
    var t := hd.track.value;
    if t.failed then (Go, w)
    else if !t.known && hd.hidden && !env.named then (Unresolved, w)
    else Attempted(w, h, t.(known := true), env)
  }

  /** `gf_pwrite`; `bytes` is what reaches the file. */
  function AfterPwrite(w: Share, step: Step): (r: Share)
    requires Valid(w) && step.Pwrite? && step.h in w.handles
  {
    var t := w.handles[step.h].track;
    if t.None? then Written(w, step.h, step.bytes, step.offset)
    else if step.env.blocked then w
    else if t.value.done then Written(w, step.h, step.bytes, step.offset)
    else
      var d := Deferred(w, step.h, step.env);
      if d.0.Deny? then d.1 else Written(d.1, step.h, step.bytes, step.offset)
  }

  /** The first cut through a handle that is not tracked and whose name is visible. */
  function GuardedCut(w: Share, step: Step): (r: Share)
    requires Valid(w) && step.Ftruncate? && step.h in w.handles
  {
    var b := BackedUp(w, w.handles[step.h].path, step.env);
    var w1 := w.(backups := b.1);
    var w2 := if step.env.attaches then WithTrack(w1, step.h, Track(b.0, !b.0, true)) else w1;
    if !b.0 && w.strict then w2 else Truncated(w2, step.h, step.len)
  }

  /** `gf_ftruncate`. */
  function AfterFtruncate(w: Share, step: Step): (r: Share)
    requires Valid(w) && step.Ftruncate? && step.h in w.handles
  {
    var hd, env := w.handles[step.h], step.env;
    if hd.track.None? then
      if hd.hidden && !env.named then Truncated(w, step.h, step.len)
      else if env.blocked then w
      else if !Sees(w, hd.path, env) then Truncated(w, step.h, step.len)
      else GuardedCut(w, step)
    else if env.blocked then w
    else if hd.track.value.done then Truncated(w, step.h, step.len)
    else
      var d := Deferred(w, step.h, env);
      if d.0.Deny? then d.1 else Truncated(d.1, step.h, step.len)
  }

  /** `gf_unlinkat`. */
  function AfterUnlink(w: Share, step: Step): (r: Share)
    requires Valid(w) && step.Unlink?
  {
    if step.env.blocked || step.path !in w.files then w
    else
      var b := if Sees(w, step.path, step.env) then BackedUp(w, step.path, step.env) else (true, w.backups);
      var w' := w.(backups := b.1);
      if (!b.0 && w.strict) || !step.env.proceeds then w' else w'.(files := w.files - {step.path})
  }

  function After(w: Share, step: Step): (r: Share)
    requires Valid(w) && Legal(w, step)
  {
    match step
    case Open(_, _, _, _, _, _) => AfterOpen(w, step)
    case Pwrite(_, _, _, _) => AfterPwrite(w, step)
    case Ftruncate(_, _, _) => AfterFtruncate(w, step)
    case Unlink(_, _) => AfterUnlink(w, step)
    case Close(h) => w.(handles := w.handles - {h})
  }

  //
  // Consistency of the share
  //

  /** New handles and inodes are new; there are no hard links and no renames. */
  predicate Legal(w: Share, step: Step) {
    match step
    case Open(h, _, _, _, inode, _) => h !in w.handles && inode !in w.data
    case Pwrite(h, _, _, _) => h in w.handles
    case Ftruncate(h, _, _) => h in w.handles
    case Unlink(_, _) => true
    case Close(_) => true
  }

  ghost predicate FilesValid(w: Share) {
    && (forall p :: p in w.files ==> w.files[p] in w.data)
    && (forall p, q :: p in w.files && q in w.files && w.files[p] == w.files[q] ==> p == q)
  }

  ghost predicate HandlesValid(w: Share) {
    && (forall h :: h in w.handles ==> w.handles[h].inode in w.data)
    && (forall h, p :: h in w.handles && p in w.files && w.files[p] == w.handles[h].inode ==> p == w.handles[h].path)
  }

  ghost predicate Valid(w: Share) { FilesValid(w) && HandlesValid(w) }

  lemma OpenedKeepsValid(w: Share, step: Step, track: Option<Track>)
    requires Valid(w) && step.Open? && CanOpen(w, step) && step.h !in w.handles && step.inode !in w.data
    ensures Valid(Opened(w, step, track))
  {
  }

  lemma TrackKeepsValid(w: Share, h: nat, t: Track)
    requires Valid(w) && h in w.handles
    ensures Valid(WithTrack(w, h, t))
  {
  }

  lemma BytesKeepValid(w: Share, h: nat, bytes: seq<byte>)
    requires Valid(w) && h in w.handles
    ensures Valid(w.(data := w.data[w.handles[h].inode := bytes]))
  {
  }

  lemma DeferredKeepsValid(w: Share, h: nat, env: Env)
    requires Valid(w) && h in w.handles && w.handles[h].track.Some?
    ensures Valid(Deferred(w, h, env).1)
  {
    var t := w.handles[h].track.value.(known := true);
    var b := BackedUp(w, w.handles[h].path, env);
    TrackKeepsValid(w, h, t);
    TrackKeepsValid(w.(backups := b.1), h, t.(done := b.0, failed := !b.0));
  }

  lemma WrittenKeepsValid(w: Share, h: nat, bytes: seq<byte>, offset: nat, len: nat)
    requires Valid(w) && h in w.handles
    ensures Valid(Written(w, h, bytes, offset)) && Valid(Truncated(w, h, len))
  {
    var was := w.data[w.handles[h].inode];
    BytesKeepValid(w, h, if w.handles[h].append then was + bytes else Spliced(was, offset, bytes));
    BytesKeepValid(w, h, Resized(was, len));
  }

  lemma GuardedOpenKeepsValid(w: Share, step: Step)
    requires Valid(w) && step.Open? && Legal(w, step)
    ensures Valid(GuardedOpen(w, step))
  {
    var b := if Risky(w, step) then BackedUp(w, step.path, step.env) else (true, w.backups);
    var w' := w.(backups := b.1);
    assert Valid(w');
    if CanOpen(w, step) {
      OpenedKeepsValid(w', step, OpenTrack(w, step, b.0));
    }
  }

  lemma OpenKeepsValid(w: Share, step: Step)
    requires Valid(w) && step.Open? && Legal(w, step)
    ensures Valid(AfterOpen(w, step))
  {
    GuardedOpenKeepsValid(w, step);
    if CanOpen(w, step) {
      OpenedKeepsValid(w, step, if PassedThrough(step.flags) || !step.env.attaches then None else Some(Track(false, false, step.env.named)));
    }
  }

  lemma PwriteKeepsValid(w: Share, step: Step)
    requires Valid(w) && step.Pwrite? && Legal(w, step)
    ensures Valid(AfterPwrite(w, step))
  {
    WrittenKeepsValid(w, step.h, step.bytes, step.offset, 0);
    if w.handles[step.h].track.Some? {
      DeferredKeepsValid(w, step.h, step.env);
      WrittenKeepsValid(Deferred(w, step.h, step.env).1, step.h, step.bytes, step.offset, 0);
    }
  }

  lemma FirstCutKeepsValid(w: Share, step: Step)
    requires Valid(w) && step.Ftruncate? && Legal(w, step) && w.handles[step.h].track.None?
    ensures Valid(AfterFtruncate(w, step))
  {
    var hd, env := w.handles[step.h], step.env;
    if (hd.hidden && !env.named) || !Sees(w, hd.path, env) {
      WrittenKeepsValid(w, step.h, [], 0, step.len);
    } else if !env.blocked {
      var b := BackedUp(w, hd.path, env);
      var w1 := w.(backups := b.1);
      assert Valid(w1);
      var w2 := if env.attaches then WithTrack(w1, step.h, Track(b.0, !b.0, true)) else w1;
      TrackKeepsValid(w1, step.h, Track(b.0, !b.0, true));
      WrittenKeepsValid(w2, step.h, [], 0, step.len);
    }
  }

  lemma FtruncateKeepsValid(w: Share, step: Step)
    requires Valid(w) && step.Ftruncate? && Legal(w, step)
    ensures Valid(AfterFtruncate(w, step))
  {
    if w.handles[step.h].track.None? {
      FirstCutKeepsValid(w, step);
    } else {
      WrittenKeepsValid(w, step.h, [], 0, step.len);
      DeferredKeepsValid(w, step.h, step.env);
      WrittenKeepsValid(Deferred(w, step.h, step.env).1, step.h, [], 0, step.len);
    }
  }

  lemma AfterKeepsValid(w: Share, step: Step)
    requires Valid(w) && Legal(w, step)
    ensures Valid(After(w, step)) && After(w, step).strict == w.strict
  {
    match step
    case Open(_, _, _, _, _, _) => OpenKeepsValid(w, step);
    case Pwrite(_, _, _, _) => PwriteKeepsValid(w, step);
    case Ftruncate(_, _, _) => FtruncateKeepsValid(w, step);
    case Unlink(_, _) =>
    case Close(_) =>
  }

  //
  // First copy wins
  //

  /** One backup at most is added, and it holds the bytes that the file has. */
  ghost predicate Grows(w: Share, backups: map<string, seq<byte>>, path: string)
    requires Valid(w)
  {
    && (path in w.backups ==> path in backups && backups[path] == w.backups[path])
    && (path in backups && path !in w.backups ==> path in w.files && backups[path] == w.data[w.files[path]])
  }

  lemma BackedUpGrows(w: Share, path: string, env: Env, p: string)
    requires Valid(w)
    ensures Grows(w, BackedUp(w, path, env).1, p)
    ensures BackedUp(w, path, env).0 ==> path in BackedUp(w, path, env).1
  {
  }

  lemma DeferredGrows(w: Share, h: nat, env: Env, p: string)
    requires Valid(w) && h in w.handles && w.handles[h].track.Some?
    ensures Grows(w, Deferred(w, h, env).1.backups, p)
  {
    BackedUpGrows(w, w.handles[h].path, env, p);
  }

  lemma PwriteGrows(w: Share, step: Step, p: string)
    requires Valid(w) && step.Pwrite? && Legal(w, step)
    ensures Grows(w, AfterPwrite(w, step).backups, p)
  {
    if w.handles[step.h].track.Some? {
      DeferredGrows(w, step.h, step.env, p);
    }
  }

  lemma FtruncateGrows(w: Share, step: Step, p: string)
    requires Valid(w) && step.Ftruncate? && Legal(w, step)
    ensures Grows(w, AfterFtruncate(w, step).backups, p)
  {
    if w.handles[step.h].track.Some? {
      DeferredGrows(w, step.h, step.env, p);
    } else {
      BackedUpGrows(w, w.handles[step.h].path, step.env, p);
    }
  }

  lemma OpenGrows(w: Share, step: Step, p: string)
    requires Valid(w) && step.Open? && Legal(w, step)
    ensures Grows(w, AfterOpen(w, step).backups, p)
  {
    BackedUpGrows(w, step.path, step.env, p);
  }

  /** A backup does not change, and a new one holds the bytes that the file had at that moment. */
  lemma AfterKeepsBackups(w: Share, step: Step, p: string)
    requires Valid(w) && Legal(w, step)
    ensures Grows(w, After(w, step).backups, p)
  {
    match step
    case Open(_, _, _, _, _, _) => OpenGrows(w, step, p);
    case Pwrite(_, _, _, _) => PwriteGrows(w, step, p);
    case Ftruncate(_, _, _) => FtruncateGrows(w, step, p);
    case Unlink(path, env) => BackedUpGrows(w, path, env, p);
    case Close(_) =>
  }

  /** A run from a consistent share; that the later ones are consistent too is `AfterKeepsValid`. */
  ghost predicate IsRun(steps: seq<Step>, ws: seq<Share>) {
    && |ws| == |steps| + 1
    && (forall i :: 0 <= i < |ws| ==> Valid(ws[i]))
    && forall i :: 0 <= i < |steps| ==> Legal(ws[i], steps[i]) && ws[i + 1] == After(ws[i], steps[i])
  }

  /** Step by step the store only grows. */
  ghost predicate AllGrow(ws: seq<Share>, p: string) {
    && (forall i :: 0 <= i < |ws| ==> Valid(ws[i]))
    && forall i :: 0 <= i < |ws| - 1 ==> Grows(ws[i], ws[i + 1].backups, p)
  }

  lemma RunGrows(steps: seq<Step>, ws: seq<Share>, p: string)
    requires IsRun(steps, ws)
    ensures AllGrow(ws, p)
  {
    forall i | 0 <= i < |ws| - 1 ensures Grows(ws[i], ws[i + 1].backups, p) {
      AfterKeepsBackups(ws[i], steps[i], p);
    }
  }

  lemma {:induction false} GrownStays(ws: seq<Share>, m: nat, n: nat, p: string)
    requires AllGrow(ws, p) && m <= n < |ws| && p in ws[m].backups
    ensures p in ws[n].backups && ws[n].backups[p] == ws[m].backups[p]
    decreases n
  {
    if m < n {
      GrownStays(ws, m, n - 1, p);
      assert Grows(ws[n - 1], ws[n - 1 + 1].backups, p);
    }
  }

  /** Backups are never changed or lost by any later step. */
  lemma BackupStays(steps: seq<Step>, ws: seq<Share>, m: nat, n: nat, p: string)
    requires IsRun(steps, ws) && m <= n < |ws| && p in ws[m].backups
    ensures p in ws[n].backups && ws[n].backups[p] == ws[m].backups[p]
  {
    RunGrows(steps, ws, p);
    GrownStays(ws, m, n, p);
  }

  lemma {:induction false} GrownIsFirst(ws: seq<Share>, n: nat, p: string) returns (m: nat)
    requires AllGrow(ws, p) && n < |ws| && p !in ws[0].backups && p in ws[n].backups
    ensures m < n && p !in ws[m].backups && p in ws[m + 1].backups && p in ws[m].files
    ensures ws[n].backups[p] == ws[m].data[ws[m].files[p]]
  {
    assert Grows(ws[n - 1], ws[n - 1 + 1].backups, p);
    if p in ws[n - 1].backups {
      m := GrownIsFirst(ws, n - 1, p);
    } else {
      m := n - 1;
    }
  }

  /** A backup made during a run holds the bytes the file had just before the step that made it. */
  lemma BackupIsFirstCopy(steps: seq<Step>, ws: seq<Share>, n: nat, p: string) returns (m: nat)
    requires IsRun(steps, ws) && n < |ws| && p !in ws[0].backups && p in ws[n].backups
    ensures m < n && p !in ws[m].backups && p in ws[m + 1].backups && p in ws[m].files
    ensures ws[n].backups[p] == ws[m].data[ws[m].files[p]]
  {
    RunGrows(steps, ws, p);
    m := GrownIsFirst(ws, n, p);
  }

  //
  // What strict mode keeps
  //

  /**
    A handle of a file without a backup: it cannot write, or only append, or it waits for the
    deferred backup, or its name is hidden and it is not tracked.
   */
  predicate Quiet(hd: Handle) {
    || !hd.writable
    || (hd.track.None? && (hd.append || hd.hidden))
    || (hd.track.Some? && !hd.track.value.done)
  }

  /**
    The bytes `first` that `path` began with are not lost: the backup begins with them, or there is
    none yet, the file still begins with them, and no open handle can change that.
   */
  ghost predicate Kept(w: Share, path: string, first: seq<byte>)
    requires Valid(w)
  {
    if path in w.backups then first <= w.backups[path]
    else
      && path in w.files && first <= w.data[w.files[path]]
      && forall h :: h in w.handles && w.handles[h].inode == w.files[path] ==> Quiet(w.handles[h])
  }

  /** Truncating without O_CREAT, read-only or with O_APPEND: the open is not taken for destructive. */
  predicate BareTrunc(fl: OpenFlags) { !fl.pathOnly && fl.trunc && !fl.creat && (fl.append || !fl.write) }

  /** An open that is no safer for finding no file: it truncates or overwrites, or passes for a creation. */
  predicate Unseen(fl: OpenFlags) { fl.trunc || (fl.write && (!fl.append || fl.creat)) }

  /** The handle can write to a file that stands under its name and has no backup. */
  predicate Exposed(w: Share, h: nat)
    requires h in w.handles
  {
    var hd := w.handles[h];
    hd.writable && hd.path in w.files && w.files[hd.path] == hd.inode && hd.path !in w.backups
  }

  /** The deferred backup of a tracked handle is skipped: it failed before, or there is no path. */
  predicate Skips(hd: Handle, env: Env)
    requires hd.track.Some?
  {
    var t := hd.track.value;
    t.failed || (!t.known && hd.hidden && !env.named) || !env.fits
  }

  /**
    The calls on a file without a backup that strict mode does not cover, each recognisable before
    it is made: a truncating open that is bare or by a hidden name; a write or cut whose deferred
    backup is skipped, or that comes through a hidden name and is not tracked; and any destructive
    open, first cut or removal by a name whose full path does not fit its buffer.
   */
  predicate Hazard(w: Share, step: Step) {
    match step
    case Open(_, path, fl, hidden, _, env) =>
      && path in w.files && path !in w.backups
      && (PassedThrough(fl) || !env.blocked)
      && (BareTrunc(fl) || (!PassedThrough(fl) && if hidden then fl.trunc else !env.fits && Unseen(fl)))
    case Pwrite(h, _, _, env) =>
      && h in w.handles && Exposed(w, h) && !w.handles[h].append
      && var hd := w.handles[h];
         if hd.track.None? then hd.hidden else !env.blocked && !hd.track.value.done && Skips(hd, env)
    case Ftruncate(h, _, env) =>
      && h in w.handles && Exposed(w, h)
      && var hd := w.handles[h];
         if hd.track.None? then (hd.hidden && !env.named) || (!env.blocked && !env.fits)
         else !env.blocked && !hd.track.value.done && Skips(hd, env)
    case Unlink(path, env) => path in w.files && path !in w.backups && !env.blocked && !env.fits
    case Close(_) => false
  }

  /** A new backup of any file keeps what was kept. */
  lemma BackedUpKeeps(w: Share, path: string, env: Env, p: string, first: seq<byte>)
    requires Valid(w) && Kept(w, p, first)
    ensures Kept(w.(backups := BackedUp(w, path, env).1), p, first)
  {
  }

  /** Opening a backed-up file, or opening any file in a way that destroys nothing, keeps everything. */
  lemma OpenedKeeps(w: Share, step: Step, track: Option<Track>, p: string, first: seq<byte>)
    requires Valid(w) && step.Open? && Legal(w, step) && CanOpen(w, step) && Kept(w, p, first)
    requires step.path in w.backups || step.path !in w.files || step.flags.pathOnly
             || (!step.flags.trunc
                 && (!step.flags.write
                     || (track.None? && (step.flags.append || step.hidden))
                     || (track.Some? && !track.value.done)))
    ensures Valid(Opened(w, step, track)) && Kept(Opened(w, step, track), p, first)
  {
    OpenedKeepsValid(w, step, track);
  }

  lemma OpenKeeps(w: Share, step: Step, p: string, first: seq<byte>)
    requires Valid(w) && w.strict && step.Open? && Legal(w, step) && !Hazard(w, step) && Kept(w, p, first)
    ensures Valid(AfterOpen(w, step)) && Kept(AfterOpen(w, step), p, first)
  {
    OpenKeepsValid(w, step);
    if PassedThrough(step.flags) {
      if CanOpen(w, step) {
        OpenedKeeps(w, step, None, p, first);
      }
    } else if step.env.blocked {
    } else if step.hidden {
      if CanOpen(w, step) {
        OpenedKeeps(w, step, if step.env.attaches then Some(Track(false, false, step.env.named)) else None, p, first);
      }
    } else {
      var b := if Risky(w, step) then BackedUp(w, step.path, step.env) else (true, w.backups);
      var w' := w.(backups := b.1);
      BackedUpKeeps(w, step.path, step.env, p, first);
      if b.0 && CanOpen(w, step) {
        OpenedKeeps(w', step, OpenTrack(w, step, b.0), p, first);
      }
    }
  }

  /** The file behind a handle is of no concern to `p`: `p` is backed up, or it is another file. */
  ghost predicate Elsewhere(w: Share, h: nat, p: string)
    requires h in w.handles
  {
    p in w.backups || p !in w.files || w.files[p] != w.handles[h].inode
  }

  /** Changing the bytes behind a handle keeps `p` if they are elsewhere or only grow. */
  lemma BytesKept(w: Share, h: nat, bytes: seq<byte>, p: string, first: seq<byte>)
    requires Valid(w) && h in w.handles && Kept(w, p, first)
    requires Elsewhere(w, h, p) || w.data[w.handles[h].inode] <= bytes
    ensures Valid(w.(data := w.data[w.handles[h].inode := bytes]))
    ensures Kept(w.(data := w.data[w.handles[h].inode := bytes]), p, first)
  {
    BytesKeepValid(w, h, bytes);
  }

  lemma WrittenKeeps(w: Share, h: nat, bytes: seq<byte>, offset: nat, p: string, first: seq<byte>)
    requires Valid(w) && h in w.handles && Kept(w, p, first)
    requires Elsewhere(w, h, p) || !w.handles[h].writable || w.handles[h].append
    ensures Valid(Written(w, h, bytes, offset)) && Kept(Written(w, h, bytes, offset), p, first)
  {
    var hd := w.handles[h];
    if hd.writable {
      var was := w.data[hd.inode];
      BytesKept(w, h, if hd.append then was + bytes else Spliced(was, offset, bytes), p, first);
    }
  }

  lemma TruncatedKeeps(w: Share, h: nat, len: nat, p: string, first: seq<byte>)
    requires Valid(w) && h in w.handles && Kept(w, p, first)
    requires Elsewhere(w, h, p) || !w.handles[h].writable
    ensures Valid(Truncated(w, h, len)) && Kept(Truncated(w, h, len), p, first)
  {
    if w.handles[h].writable {
      BytesKept(w, h, Resized(w.data[w.handles[h].inode], len), p, first);
    }
  }

  lemma TrackKeeps(w: Share, h: nat, t: Track, p: string, first: seq<byte>)
    requires Valid(w) && h in w.handles && Kept(w, p, first)
    requires Elsewhere(w, h, p) || !w.handles[h].writable || !t.done
    ensures Valid(WithTrack(w, h, t)) && Kept(WithTrack(w, h, t), p, first)
  {
    TrackKeepsValid(w, h, t);
  }

  /** The deferred backup keeps everything, and where it lets a call go on it has saved the file. */
  lemma DeferredKeeps(w: Share, h: nat, env: Env, p: string, first: seq<byte>)
    requires Valid(w) && w.strict && h in w.handles && Kept(w, p, first)
    requires w.handles[h].track.Some? && !w.handles[h].track.value.done
    ensures var d := Deferred(w, h, env);
            && Valid(d.1) && Kept(d.1, p, first)
            && d.1.handles[h].writable == w.handles[h].writable && d.1.handles[h].append == w.handles[h].append
            && (Elsewhere(w, h, p) ==> Elsewhere(d.1, h, p))
            && (!Skips(w.handles[h], env) && !d.0.Deny? ==> Elsewhere(d.1, h, p))
  {
    var t := w.handles[h].track.value.(known := true);
    var b := BackedUp(w, w.handles[h].path, env);
    TrackKeeps(w, h, t, p, first);
    BackedUpKeeps(w, w.handles[h].path, env, p, first);
    BackedUpSaves(w, h, env, p);
    TrackKeeps(w.(backups := b.1), h, t.(done := b.0, failed := !b.0), p, first);
  }

  lemma BackedUpSaves(w: Share, h: nat, env: Env, p: string)
    requires Valid(w) && h in w.handles
    ensures var b := BackedUp(w, w.handles[h].path, env);
            b.0 ==> Elsewhere(w.(backups := b.1), h, p)
  {
  }

  /** A handle that reaches `p` without a backup is exposed. */
  lemma ReachesExposed(w: Share, h: nat, p: string, first: seq<byte>)
    requires Valid(w) && h in w.handles && Kept(w, p, first) && !Elsewhere(w, h, p) && w.handles[h].writable
    ensures Exposed(w, h) && Quiet(w.handles[h])
  {
  }

  lemma PwriteKeeps(w: Share, step: Step, p: string, first: seq<byte>)
    requires Valid(w) && w.strict && step.Pwrite? && Legal(w, step) && !Hazard(w, step) && Kept(w, p, first)
    ensures Valid(AfterPwrite(w, step)) && Kept(AfterPwrite(w, step), p, first)
  {
    var h, hd := step.h, w.handles[step.h];
    if !Elsewhere(w, h, p) && hd.writable {
      ReachesExposed(w, h, p, first);
    }
    if hd.track.None? || hd.track.value.done {
      WrittenKeeps(w, h, step.bytes, step.offset, p, first);
    } else if !step.env.blocked {
      DeferredKeeps(w, h, step.env, p, first);
      if !Deferred(w, h, step.env).0.Deny? {
        WrittenKeeps(Deferred(w, h, step.env).1, h, step.bytes, step.offset, p, first);
      }
    }
  }

  /** The first cut through a handle that is not tracked. */
  lemma FirstCutKeeps(w: Share, step: Step, p: string, first: seq<byte>)
    requires Valid(w) && w.strict && step.Ftruncate? && Legal(w, step) && !Hazard(w, step) && Kept(w, p, first)
    requires w.handles[step.h].track.None?
    ensures Valid(AfterFtruncate(w, step)) && Kept(AfterFtruncate(w, step), p, first)
  {
    var hd, env := w.handles[step.h], step.env;
    if (hd.hidden && !env.named) || !Sees(w, hd.path, env) {
      if !Elsewhere(w, step.h, p) && hd.writable {
        ReachesExposed(w, step.h, p, first);
      }
      if !env.blocked || (hd.hidden && !env.named) {
        TruncatedKeeps(w, step.h, step.len, p, first);
      }
    } else if !env.blocked {
      var b := BackedUp(w, hd.path, env);
      var w1 := w.(backups := b.1);
      BackedUpKeeps(w, hd.path, env, p, first);
      BackedUpSaves(w, step.h, env, p);
      var t := Track(b.0, !b.0, true);
      TrackKeeps(w1, step.h, t, p, first);
      if b.0 {
        TruncatedKeeps(w1, step.h, step.len, p, first);
        TruncatedKeeps(WithTrack(w1, step.h, t), step.h, step.len, p, first);
      }
    }
  }

  lemma FtruncateKeeps(w: Share, step: Step, p: string, first: seq<byte>)
    requires Valid(w) && w.strict && step.Ftruncate? && Legal(w, step) && !Hazard(w, step) && Kept(w, p, first)
    ensures Valid(AfterFtruncate(w, step)) && Kept(AfterFtruncate(w, step), p, first)
  {
    var h, hd := step.h, w.handles[step.h];
    if !Elsewhere(w, h, p) && hd.writable {
      ReachesExposed(w, h, p, first);
    }
    if hd.track.None? {
      FirstCutKeeps(w, step, p, first);
    } else if !step.env.blocked {
      if hd.track.value.done {
        TruncatedKeeps(w, h, step.len, p, first);
      } else {
        DeferredKeeps(w, h, step.env, p, first);
        if !Deferred(w, h, step.env).0.Deny? {
          TruncatedKeeps(Deferred(w, h, step.env).1, h, step.len, p, first);
        }
      }
    }
  }

  lemma UnlinkKeeps(w: Share, step: Step, p: string, first: seq<byte>)
    requires Valid(w) && w.strict && step.Unlink? && !Hazard(w, step) && Kept(w, p, first)
    ensures Valid(AfterUnlink(w, step)) && Kept(AfterUnlink(w, step), p, first)
  {
    BackedUpKeeps(w, step.path, step.env, p, first);
  }

  lemma AfterKeeps(w: Share, step: Step, p: string, first: seq<byte>)
    requires Valid(w) && w.strict && Legal(w, step) && !Hazard(w, step) && Kept(w, p, first)
    ensures Valid(After(w, step)) && Kept(After(w, step), p, first)
  {
    match step
    case Open(_, _, _, _, _, _) => OpenKeeps(w, step, p, first);
    case Pwrite(_, _, _, _) => PwriteKeeps(w, step, p, first);
    case Ftruncate(_, _, _) => FtruncateKeeps(w, step, p, first);
    case Unlink(_, _) => UnlinkKeeps(w, step, p, first);
    case Close(_) =>
  }

  /**
    Strict mode loses no byte: from a share with no open handle, whatever a file without a backup
    held is, in every state of every run without hazards, the beginning of its backup or of the
    file itself.
   */
  lemma {:induction false} StrictLosesNothing(steps: seq<Step>, ws: seq<Share>, n: nat, p: string)
    requires IsRun(steps, ws) && n < |ws| && ws[0].strict && ws[0].handles == map[]
    requires p in ws[0].files && p !in ws[0].backups
    requires forall i :: 0 <= i < n ==> !Hazard(ws[i], steps[i])
    ensures ws[n].strict && Kept(ws[n], p, ws[0].data[ws[0].files[p]])
  {
    if n > 0 {
      StrictLosesNothing(steps, ws, n - 1, p);
      AfterKeeps(ws[n - 1], steps[n - 1], p, ws[0].data[ws[0].files[p]]);
      AfterKeepsValid(ws[n - 1], steps[n - 1]);
    }
  }

  //
  // The hazards are real
  //

  /** The bytes `was` of a file are neither in it any more nor in a backup. */
  predicate Lost(w: Share, path: string, was: seq<byte>) {
    path in w.files && w.files[path] in w.data && !(was <= w.data[w.files[path]]) && path !in w.backups
  }

  /** A truncating open goes through to a file. */
  predicate Truncates(w: Share, step: Step)
    requires step.Open?
  {
    CanOpen(w, step) && step.flags.trunc && !step.flags.pathOnly && (PassedThrough(step.flags) || !step.env.blocked)
  }

  /** No backup comes before an open: it is not taken for destructive, or its name is hidden. */
  predicate Unguarded(w: Share, step: Step)
    requires step.Open?
  {
    PassedThrough(step.flags) || step.hidden || !Risky(w, step)
  }

  /**
    Exactly when an open loses the bytes of a file that has no backup, in both modes: it truncates,
    and it is unguarded or permissive mode lets it pass although the backup failed. A truncating open
    that is guarded and whose backup works leaves that backup.
   */
  lemma OpenLosesIff(w: Share, step: Step)
    requires Valid(w) && step.Open? && Legal(w, step) && step.path in w.files && step.path !in w.backups
    requires w.data[w.files[step.path]] != []
    ensures Lost(AfterOpen(w, step), step.path, w.data[w.files[step.path]]) <==>
            && Truncates(w, step)
            && (Unguarded(w, step) || (!w.strict && !BackedUp(w, step.path, step.env).0))
    ensures step.path in AfterOpen(w, step).backups <==>
            !Unguarded(w, step) && !step.env.blocked && BackedUp(w, step.path, step.env).0
  {
  }

  /** What is unguarded of the truncating opens that are not refused: bare, hidden, or not seen. */
  lemma UnguardedTruncations(w: Share, step: Step)
    requires step.Open? && step.path in w.files && step.flags.trunc && !step.flags.pathOnly
    ensures Unguarded(w, step) <==> BareTrunc(step.flags) || step.hidden || !step.env.fits
  {
  }

  /** Exactly when a removal leaves neither the file nor a backup. */
  lemma UnlinkLosesIff(w: Share, path: string, env: Env)
    requires Valid(w) && path in w.files && path !in w.backups
    ensures var w' := AfterUnlink(w, Unlink(path, env));
            path !in w'.files && path !in w'.backups <==>
              !env.blocked && env.proceeds && (!env.fits || (!w.strict && !BackedUp(w, path, env).0))
  {
  }

  /** An instance in strict mode: a name whose full path does not fit is removed with no backup. */
  lemma LongNameIsRemoved(path: string)
    ensures var w := Share(true, map[path := 0], map[0 := [1]], map[], map[]);
            var env := Env(false, false, true, true, true, true, true);
            && Valid(w) && Hazard(w, Unlink(path, env))
            && var w' := AfterUnlink(w, Unlink(path, env)); path !in w'.files && path !in w'.backups
  {
    var w := Share(true, map[path := 0], map[0 := [1]], map[], map[]);
    var env := Env(false, false, true, true, true, true, true);
    UnlinkLosesIff(w, path, env);
  }

  /** A tracked handle is let through without a backup. */
  predicate SlipsThrough(w: Share, h: nat, env: Env)
    requires Valid(w) && h in w.handles && w.handles[h].track.Some?
  {
    var hd := w.handles[h];
    !env.blocked
    && (hd.track.value.done || Skips(hd, env) || (!w.strict && !BackedUp(w, hd.path, env).0))
  }

  lemma DeferredPasses(w: Share, h: nat, env: Env)
    requires Valid(w) && h in w.handles && Exposed(w, h) && w.handles[h].track.Some? && !w.handles[h].track.value.done
    ensures var d := Deferred(w, h, env);
            && d.1.handles[h] == w.handles[h].(track := d.1.handles[h].track)
            && (Skips(w.handles[h], env) || (!w.strict && !BackedUp(w, w.handles[h].path, env).0)
                <==> !d.0.Deny? && w.handles[h].path !in d.1.backups)
  {
  }

  lemma TrackedCutLosesIff(w: Share, h: nat, len: nat, env: Env)
    requires Valid(w) && h in w.handles && Exposed(w, h) && len < |w.data[w.handles[h].inode]|
    requires w.handles[h].track.Some?
    ensures var hd := w.handles[h];
            Lost(AfterFtruncate(w, Ftruncate(h, len, env)), hd.path, w.data[hd.inode]) <==> SlipsThrough(w, h, env)
  {
    assert |Resized(w.data[w.handles[h].inode], len)| == len;
    if !w.handles[h].track.value.done {
      DeferredPasses(w, h, env);
    }
  }

  /**
    Exactly when a cut loses bytes of a file that has no backup. In strict mode: through a handle
    that is not tracked and whose name is still hidden; or, for a client that is not refused, through
    one that is not tracked and whose full path does not fit, or a tracked one whose backup counts as
    done, failed before, or has no path.
   */
  lemma CutLosesIff(w: Share, h: nat, len: nat, env: Env)
    requires Valid(w) && h in w.handles && Exposed(w, h) && len < |w.data[w.handles[h].inode]|
    ensures var hd := w.handles[h];
            Lost(AfterFtruncate(w, Ftruncate(h, len, env)), hd.path, w.data[hd.inode]) <==>
              if hd.track.Some? then SlipsThrough(w, h, env)
              else if hd.hidden && !env.named then true
              else !env.blocked && (!env.fits || (!w.strict && !BackedUp(w, hd.path, env).0))
  {
    assert |Resized(w.data[w.handles[h].inode], len)| == len;
    if w.handles[h].track.Some? {
      TrackedCutLosesIff(w, h, len, env);
    }
  }

  /** Exactly when a write loses bytes of a file that has no backup. */
  lemma WriteLosesIff(w: Share, h: nat, bytes: seq<byte>, offset: nat, env: Env)
    requires Valid(w) && h in w.handles && Exposed(w, h)
    ensures var hd := w.handles[h];
            Lost(AfterPwrite(w, Pwrite(h, bytes, offset, env)), hd.path, w.data[hd.inode]) <==>
              && !hd.append && !(w.data[hd.inode] <= Spliced(w.data[hd.inode], offset, bytes))
              && (hd.track.None? || SlipsThrough(w, h, env))
  {
    if w.handles[h].track.Some? && !w.handles[h].track.value.done {
      DeferredPasses(w, h, env);
    }
  }

  /** A cut that strict mode denied because the backup failed goes through when it is tried again. */
  lemma RetriedCutIsNotDenied(w: Share, h: nat, env: Env)
    requires Valid(w) && w.strict && h in w.handles && Exposed(w, h) && w.data[w.handles[h].inode] != []
    requires w.handles[h].track.None? && !w.handles[h].hidden
    requires !env.blocked && env.fits && env.storable && !env.copies && env.attaches
    ensures var hd, w1 := w.handles[h], AfterFtruncate(w, Ftruncate(h, 0, env));
            && Valid(w1) && h in w1.handles && w1.data == w.data
            && Lost(AfterFtruncate(w1, Ftruncate(h, 0, env)), hd.path, w.data[hd.inode])
  {
    FtruncateKeepsValid(w, Ftruncate(h, 0, env));
    CutLosesIff(AfterFtruncate(w, Ftruncate(h, 0, env)), h, 0, env);
  }

  //
  // A blocked client
  //

  /** The same call by a client that is, or is not, in the blocked file. */
  function Asked(step: Step, blocked: bool): (r: Step) {
    match step
    case Open(h, path, flags, hidden, inode, env) => Step.Open(h, path, flags, hidden, inode, env.(blocked := blocked))
    case Pwrite(h, bytes, offset, env) => Step.Pwrite(h, bytes, offset, env.(blocked := blocked))
    case Ftruncate(h, len, env) => Step.Ftruncate(h, len, env.(blocked := blocked))
    case Unlink(path, env) => Step.Unlink(path, env.(blocked := blocked))
    case Close(h) => Step.Close(h)
  }

  /** The client of this call is in the blocked file. */
  predicate ByBlocked(step: Step) {
    match step
    case Open(_, _, _, _, _, env) => env.blocked
    case Pwrite(_, _, _, env) => env.blocked
    case Ftruncate(_, _, env) => env.blocked
    case Unlink(_, env) => env.blocked
    case Close(_) => false
  }

  /**
    The calls that are not refused to anybody: opens of a path alone or without write access, unless
    they create and truncate; writes through a handle that is not tracked; cuts through one that is
    not tracked and whose name is still hidden; and closing.
   */
  predicate LetThrough(w: Share, step: Step)
    requires Legal(w, step)
  {
    match step
    case Open(_, _, fl, _, _, _) => fl.pathOnly || (!fl.write && !(fl.creat && fl.trunc))
    case Pwrite(h, _, _, _) => w.handles[h].track == None
    case Ftruncate(h, _, env) => w.handles[h].track == None && w.handles[h].hidden && !env.named
    case Unlink(_, _) => false
    case Close(_) => true
  }

  /** A blocked client is refused everything but those calls, and those go as they go for anybody. */
  lemma BlockedIsRefused(w: Share, step: Step)
    requires Valid(w) && Legal(w, step) && ByBlocked(step)
    ensures !LetThrough(w, step) ==> After(w, step) == w
    ensures LetThrough(w, step) ==> After(w, step) == After(w, Asked(step, false))
  {
  }

  /** A call that is let through and still changes files or bytes. */
  predicate Intrudes(w: Share, step: Step)
    requires Legal(w, step)
  {
    match step
    case Open(_, path, fl, _, _, _) => LetThrough(w, step) && !fl.pathOnly && (fl.trunc || (fl.creat && path !in w.files))
    case Pwrite(h, _, _, _) => LetThrough(w, step) && w.handles[h].writable
    case Ftruncate(h, _, _) => LetThrough(w, step) && w.handles[h].writable
    case Unlink(_, _) => false
    case Close(_) => false
  }

  lemma BlockedChangesLittle(w: Share, step: Step)
    requires Valid(w) && Legal(w, step) && (ByBlocked(step) || step.Close?)
    ensures After(w, step).backups == w.backups
    ensures !Intrudes(w, step) ==> After(w, step).files == w.files && After(w, step).data == w.data
  {
    if step.Open? && LetThrough(w, step) && !Intrudes(w, step) && CanOpen(w, step) {
      assert w.files[step.path := w.files[step.path]] == w.files;
    }
  }

  /** Step by step a blocked client makes no backup, and changes files only where it is let through. */
  ghost predicate Idle(ws: seq<Share>, changes: seq<bool>) {
    && |ws| == |changes| + 1
    && (forall i {:trigger changes[i]} :: 0 <= i < |changes| ==> ws[i + 1].backups == ws[i].backups)
    && (forall i {:trigger changes[i]} :: 0 <= i < |changes| && !changes[i] ==>
          ws[i + 1].files == ws[i].files && ws[i + 1].data == ws[i].data)
  }

  lemma {:induction false} IdleChangesNothing(ws: seq<Share>, changes: seq<bool>, n: nat)
    requires Idle(ws, changes) && n <= |changes|
    ensures ws[n].backups == ws[0].backups
    ensures true !in changes[..n] ==> ws[n].files == ws[0].files && ws[n].data == ws[0].data
  {
    if n > 0 {
      IdleChangesNothing(ws, changes, n - 1);
      assert changes[..n] == changes[..n - 1] + [changes[n - 1]];
      assert ws[n - 1 + 1] == ws[n];
    }
  }

  /**
    While a client is blocked it makes no backup, and but for the calls that are let through and
    change something by themselves, no file comes, goes or changes a byte.
   */
  lemma BlockedRunChangesNothing(steps: seq<Step>, ws: seq<Share>)
    requires IsRun(steps, ws)
    requires forall i :: 0 <= i < |steps| ==> ByBlocked(steps[i]) || steps[i].Close?
    ensures ws[|steps|].backups == ws[0].backups
    ensures (forall i :: 0 <= i < |steps| ==> !Intrudes(ws[i], steps[i])) ==>
              ws[|steps|].files == ws[0].files && ws[|steps|].data == ws[0].data
  {
    var changes := seq(|steps|, i requires 0 <= i < |steps| => Intrudes(ws[i], steps[i]));
    forall i | 0 <= i < |steps|
      ensures ws[i + 1].backups == ws[i].backups
      ensures !changes[i] ==> ws[i + 1].files == ws[i].files && ws[i + 1].data == ws[i].data
    {
      BlockedChangesLittle(ws[i], steps[i]);
    }
    IdleChangesNothing(ws, changes, |steps|);
  }

  //
  // What the next module does
  //

  /** A write puts its bytes at its offset and leaves the others; a gap before them reads as zeros. */
  lemma SplicedAt(s: seq<byte>, offset: nat, bytes: seq<byte>, k: nat)
    ensures var r := Spliced(s, offset, bytes);
            && |r| == (if offset + |bytes| < |s| then |s| else offset + |bytes|)
            && (k < |r| ==>
                  r[k] == if offset <= k < offset + |bytes| then bytes[k - offset] else if k < |s| then s[k] else 0)
  {
  }

  /** A cut keeps what is in front of it; past the end it reads as zeros. */
  lemma ResizedAt(s: seq<byte>, n: nat, k: nat)
    ensures |Resized(s, n)| == n
    ensures k < n ==> Resized(s, n)[k] == if k < |s| then s[k] else 0
  {
  }

  /** An open by a visible name of a file whose bytes it may overwrite or cut. */
  predicate Destroys(w: Share, step: Step)
    requires step.Open?
  {
    && step.path in w.files && step.env.fits && !step.hidden && !step.flags.pathOnly
    && ((step.flags.write && !step.flags.append) || (step.flags.creat && step.flags.trunc))
  }

  /**
    What an open leaves: the file is there, empty if it was made or truncated and otherwise as it
    was; the handle writes only if it was opened for writing; nothing else changes.
   */
  ghost predicate Opens(w: Share, step: Step, w': Share)
    requires step.Open? && FilesValid(w)
  {
    var fl, path := step.flags, step.path;
    && path in w'.files && step.h in w'.handles && w'.files[path] in w'.data
    && w'.handles[step.h].inode == w'.files[path] && w'.handles[step.h].path == path
    && (w'.handles[step.h].writable <==> fl.write && !fl.pathOnly)
    && (w'.handles[step.h].append <==> fl.append)
    && (w'.handles[step.h].hidden <==> step.hidden)
    && (path in w.files ==> w'.files == w.files)
    && w'.data[w'.files[path]] == (if path in w.files && (fl.pathOnly || !fl.trunc) then w.data[w.files[path]] else [])
    && (forall p :: p in w.files ==> p in w'.files && w'.files[p] == w.files[p])
    && (forall p :: p in w'.files ==> p in w.files || p == path)
    && (forall i :: i in w.data && i != w'.files[path] ==> i in w'.data && w'.data[i] == w.data[i])
    && (forall g :: g in w.handles ==> g in w'.handles && w'.handles[g] == w.handles[g])
  }

  lemma OpenedOpens(w: Share, step: Step, track: Option<Track>, backups: map<string, seq<byte>>)
    requires Valid(w) && step.Open? && Legal(w, step) && CanOpen(w, step)
    ensures Opens(w, step, Opened(w.(backups := backups), step, track))
  {
  }

  /** An open that is neither refused nor denied goes through if the next module's does. */
  lemma OpenGives(w: Share, step: Step)
    requires Valid(w) && step.Open? && Legal(w, step) && step.env.proceeds
    requires !step.env.blocked && (Destroys(w, step) && w.strict ==> BackedUp(w, step.path, step.env).0)
    ensures if step.path in w.files || (step.flags.creat && !step.flags.pathOnly) then Opens(w, step, After(w, step))
            else After(w, step).files == w.files && After(w, step).data == w.data && After(w, step).handles == w.handles
  {
    if CanOpen(w, step) {
      var env := step.env;
      if PassedThrough(step.flags) {
        OpenedOpens(w, step, None, w.backups);
      } else if step.hidden {
        OpenedOpens(w, step, if env.attaches then Some(Track(false, false, env.named)) else None, w.backups);
      } else {
        var b := if Risky(w, step) then BackedUp(w, step.path, env) else (true, w.backups);
        OpenedOpens(w, step, OpenTrack(w, step, b.0), b.1);
      }
    }
  }

  /**
    What the module remembers of a new handle: nothing of one that cannot destroy; of one by a hidden
    name that its backup is due; of a destructive one how its backup went; and of a created file, or
    one that it does not see, that there is nothing to back up.
   */
  lemma OpenTracks(w: Share, step: Step)
    requires Valid(w) && step.Open? && Legal(w, step) && step.env.proceeds
    requires !step.env.blocked && (Destroys(w, step) && w.strict ==> BackedUp(w, step.path, step.env).0)
    requires step.path in w.files || (step.flags.creat && !step.flags.pathOnly)
    ensures var fl, env, b := step.flags, step.env, BackedUp(w, step.path, step.env).0;
            step.h in After(w, step).handles &&
            After(w, step).handles[step.h].track ==
              if !env.attaches || fl.pathOnly || (!fl.write && !(fl.creat && fl.trunc)) then None
              else if step.hidden then Some(Track(false, false, env.named))
              else if Destroys(w, step) then Some(Track(b, !b, true))
              else if fl.creat && !(step.path in w.files && env.fits) then Some(Track(true, false, true))
              else None
  {
  }

  /** The first cut through a handle by a visible name is remembered like a destructive open. */
  lemma FirstCutTracks(w: Share, h: nat, len: nat, env: Env)
    requires Valid(w) && h in w.handles && w.handles[h].track.None? && !env.blocked
    requires !(w.handles[h].hidden && !env.named) && w.handles[h].path in w.files && env.fits
    ensures var b, w' := BackedUp(w, w.handles[h].path, env).0, After(w, Ftruncate(h, len, env));
            h in w'.handles && w'.handles[h].track == if env.attaches then Some(Track(b, !b, true)) else None
  {
  }

  /** When the call of the next module fails, at most a backup has been made. */
  lemma FailedCallChangesNothing(w: Share, step: Step)
    requires Valid(w) && Legal(w, step)
    requires (step.Open? && !step.env.proceeds) || (step.Unlink? && !step.env.proceeds)
    ensures (After(w, step).files, After(w, step).data, After(w, step).handles) == (w.files, w.data, w.handles)
  {
  }

  /** A client that is blocked while it has a file open destructively can write and cut no more. */
  lemma BlockedInBetween(w: Share, open: Step, write: Step, cut: Step)
    requires Valid(w) && open.Open? && Legal(w, open) && open.env.proceeds && !open.env.blocked && open.env.attaches
    requires Destroys(w, open) && BackedUp(w, open.path, open.env).0
    requires write.Pwrite? && write.h == open.h && write.env.blocked
    requires cut.Ftruncate? && cut.h == open.h && cut.env.blocked
    ensures var w' := After(w, open);
            Valid(w') && Legal(w', write) && Legal(w', cut) && After(w', write) == w' && After(w', cut) == w'
  {
    OpenTracks(w, open);
    AfterKeepsValid(w, open);
  }

  /** The first write through a handle by a hidden name makes the backup that was due, once the name is visible. */
  lemma HiddenWriteBacksUp(w: Share, h: nat, bytes: seq<byte>, offset: nat, env: Env)
    requires Valid(w) && h in w.handles && w.handles[h].track == Some(Track(false, false, false)) && !env.blocked
    requires env.named && env.fits && env.storable && env.copies
    requires w.handles[h].path in w.files && w.handles[h].path !in w.backups
    ensures var path, w' := w.handles[h].path, After(w, Pwrite(h, bytes, offset, env));
            && path in w'.backups && w'.backups[path] == w.data[w.files[path]]
            && h in w'.handles && w'.handles[h].track == Some(Track(true, false, true))
  {
  }

  /** The handle waits for a backup that strict mode demands and that fails. */
  predicate Denied(w: Share, h: nat, env: Env)
    requires Valid(w) && h in w.handles
  {
    var hd := w.handles[h];
    w.strict && !BackedUp(w, hd.path, env).0
    && hd.track.Some? && !hd.track.value.done && !Skips(hd, env)
  }

  /** A write that is neither refused nor denied puts its bytes into the file, and changes no other. */
  lemma WriteGives(w: Share, h: nat, bytes: seq<byte>, offset: nat, env: Env)
    requires Valid(w) && h in w.handles && (w.handles[h].track.Some? ==> !env.blocked) && !Denied(w, h, env)
    ensures var w', hd := After(w, Pwrite(h, bytes, offset, env)), w.handles[h];
            var was := w.data[hd.inode];
            && w'.files == w.files
            && w'.data == if !hd.writable then w.data
                          else w.data[hd.inode := if hd.append then was + bytes else Spliced(was, offset, bytes)]
  {
  }

  /** What a cut leaves. */
  ghost predicate Cuts(w: Share, h: nat, len: nat, w': Share)
    requires Valid(w) && h in w.handles
  {
    var hd := w.handles[h];
    && w'.files == w.files
    && w'.data == if hd.writable then w.data[hd.inode := Resized(w.data[hd.inode], len)] else w.data
  }

  lemma TrackedCutGives(w: Share, h: nat, len: nat, env: Env)
    requires Valid(w) && h in w.handles && w.handles[h].track.Some? && !env.blocked && !Denied(w, h, env)
    ensures Cuts(w, h, len, After(w, Ftruncate(h, len, env)))
  {
  }

  /** The first cut needs a backup only where strict mode is on and the file is seen. */
  predicate FirstCutDenied(w: Share, h: nat, env: Env)
    requires Valid(w) && h in w.handles
  {
    var hd := w.handles[h];
    && w.strict && (!hd.hidden || env.named) && hd.path in w.files && env.fits && !BackedUp(w, hd.path, env).0
  }

  /** A cut that is neither refused nor denied cuts the file, and changes no other. */
  lemma CutGives(w: Share, h: nat, len: nat, env: Env)
    requires Valid(w) && h in w.handles
    requires env.blocked ==> w.handles[h].track.None? && w.handles[h].hidden && !env.named
    requires if w.handles[h].track.Some? then !Denied(w, h, env) else !FirstCutDenied(w, h, env)
    ensures Cuts(w, h, len, After(w, Ftruncate(h, len, env)))
  {
    if w.handles[h].track.Some? {
      TrackedCutGives(w, h, len, env);
    }
  }

  /** A removal that is not refused, and that strict mode does not deny, takes the name away and no byte of a file. */
  lemma UnlinkGives(w: Share, path: string, env: Env)
    requires Valid(w) && !env.blocked && env.proceeds
    requires w.strict && path in w.files && env.fits ==> BackedUp(w, path, env).0
    ensures var w' := After(w, Unlink(path, env));
            w'.files == w.files - {path} && w'.data == w.data && w'.handles == w.handles
  {
  }

  /** Strict mode denies what destroys a file whose backup fails: the files and their bytes stay. */
  lemma StrictDenies(w: Share, step: Step)
    requires Valid(w) && Legal(w, step) && w.strict
    requires match step
             case Open(_, path, fl, _, _, env) =>
               Destroys(w, step) && (fl.write || (fl.creat && fl.trunc)) && !BackedUp(w, path, env).0
             case Pwrite(h, _, _, env) => Denied(w, h, env)
             case Ftruncate(h, _, env) =>
               if w.handles[h].track.Some? then Denied(w, h, env) else FirstCutDenied(w, h, env)
             case Unlink(path, env) => path in w.files && env.fits && !BackedUp(w, path, env).0
             case Close(_) => false
    ensures After(w, step).files == w.files && After(w, step).data == w.data && After(w, step).backups == w.backups
  {
  }

  /** When `do_backup` succeeds: the file is there, and its backup is or can be made now. */
  lemma BackedUpIff(w: Share, path: string, env: Env)
    requires Valid(w)
    ensures BackedUp(w, path, env).0 <==> path in w.files && env.storable && (path in w.backups || env.copies)
    ensures BackedUp(w, path, env).1 ==
            if BackedUp(w, path, env).0 && path !in w.backups then w.backups[path := w.data[w.files[path]]] else w.backups
  {
  }
}
