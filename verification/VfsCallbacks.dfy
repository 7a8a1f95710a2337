/** The callbacks of the file-server module, statement by statement, on one connection's share. */
module VfsCallbacks {
  import opened Base
  import opened VfsBackup
  import CopyFd
  import BlockedFile

  /** How the copy of one backup goes. */
  datatype CopyIo = CopyIo(reflinks: bool, seeks: bool, script: seq<CopyFd.Result>)

  class Connection {
    const strict: bool
    /** The address of the client and the blocked file as last read. */
    const ip: string
    const blockedText: string
    var files: map<string, nat>
    var data: map<nat, seq<byte>>
    var backups: map<string, seq<byte>>
    var handles: map<nat, Handle>

    constructor (w: Share, ip: string, blockedText: string)
      requires w.handles == map[] && VfsBackup.Valid(w)
      ensures Valid() && Value() == w && this.ip == ip && this.blockedText == blockedText
    {
      this.strict, this.ip, this.blockedText := w.strict, ip, blockedText;
      files, data, backups, handles := w.files, w.data, w.backups, w.handles;
    }

    ghost function Value(): (w: Share)
      reads this
    {
      Share(strict, files, data, backups, handles)
    }

    ghost predicate Valid()
      reads this
    {
      VfsBackup.Valid(Value())
    }

    /** What the environment answered once the client was looked up and the copy was made. */
    ghost function Answers(env: Env, copied: bool): (r: Env) {
      env.(blocked := ip in BlockedFile.Blocked(blockedText), copies := copied)
    }

    /** The step with these answers in it. */
    ghost function Answered(step: Step, copied: bool): (r: Step) {
      match step
      case Open(h, path, flags, hidden, inode, env) => Step.Open(h, path, flags, hidden, inode, Answers(env, copied))
      case Pwrite(h, bytes, offset, env) => Step.Pwrite(h, bytes, offset, Answers(env, copied))
      case Ftruncate(h, len, env) => Step.Ftruncate(h, len, Answers(env, copied))
      case Unlink(path, env) => Step.Unlink(path, Answers(env, copied))
      case Close(h) => Step.Close(h)
    }

    method ClientBlocked() returns (b: bool)
      ensures b <==> ip in BlockedFile.Blocked(blockedText)
    {
      b := BlockedFile.IsBlocked(blockedText, ip);
    }

    /** `do_backup`; `copied` says whether a new backup could be made. */
    method DoBackup(path: string, env: Env, io: CopyIo) returns (ok: bool, copied: bool)
      requires Valid()
      modifies this`backups
      ensures Valid()
      ensures (ok, backups) == BackedUp(old(Value()), path, Answers(env, copied))
    {
      copied := env.copies;
      if path !in files || !env.storable {
        return false, copied;
      }
      if path in backups {
        return true, copied;
      }
      if !env.copies {
        return false, copied;
      }
      var src := data[files[path]];
      var copier := new CopyFd.Copier(src, [], io.script);
      var rc := copier.CopyWhole(|src|, io.reflinks, io.seeks);
      ghost var before := backups;
      backups := backups[path := copier.dst];
      copied := rc == 0;
      if !copied {
        backups := backups - {path};
        assert backups == before;
      }
      return copied, copied;
    }

    /** The open of the next module, with the track that is attached to the handle. */
    method NextOpen(step: Step, track: Option<Track>)
      requires Valid() && step.Open? && Legal(Value(), step)
      modifies this`files, this`data, this`handles
      ensures Valid()
      ensures Value() == if CanOpen(old(Value()), step) then Opened(old(Value()), step, track) else old(Value())
    {
      var fl, path := step.flags, step.path;
      if !step.env.proceeds || (path !in files && (!fl.creat || fl.pathOnly)) {
        return;
      }
      OpenedKeepsValid(Value(), step, track);
      var inode;
      if path in files {
        inode := files[path];
        if fl.trunc && !fl.pathOnly {
          data := data[inode := []];
        }
      } else {
        inode := step.inode;
        data := data[inode := []];
      }
      files := files[path := inode];
      handles := handles[step.h := Handle(inode, path, fl.write && !fl.pathOnly, fl.append, step.hidden, track)];
    }

    /** `gf_openat`. */
    method OpenAt(step: Step, io: CopyIo) returns (copied: bool)
      requires Valid() && step.Open? && Legal(Value(), step)
      modifies this
      ensures Valid()
      ensures Value() == AfterOpen(old(Value()), Answered(step, copied))
    {
      var env, fl := step.env, step.flags;
      copied := env.copies;
      if fl.pathOnly || (!fl.write && !fl.CreateTrunc()) {
        NextOpen(step, None);
        return;
      }
      var blocked := ClientBlocked();
      if blocked {
        return;
      }
      if step.hidden {
        NextOpen(step, if env.attaches then Some(Track(false, false, env.named)) else None);
        return;
      }
      copied := OpenVisible(step, io);
    }

    /** `gf_openat` of a client that is not refused, by a name that the module sees. */
    method OpenVisible(step: Step, io: CopyIo) returns (copied: bool)
      requires Valid() && step.Open? && Legal(Value(), step)
      modifies this
      ensures Valid()
      ensures Value() == GuardedOpen(old(Value()), Answered(step, copied))
    {
      var known, risky := step.path in files && step.env.fits, false;
      var ok;
      ok, risky, copied := BackUpIfRisky(step, io);
      if risky && !ok && strict {
        return;
      }
      var track := TrackFor(step.env.attaches, risky, known, step.flags.creat, ok);
      ghost var w1, asked := Value(), Answered(step, copied);
      NextOpen(step, track);
      assert CanOpen(w1, step) ==> Value() == Opened(w1, asked, track);
    }

    /** An existing file that the open may destroy is backed up first. */
    method BackUpIfRisky(step: Step, io: CopyIo) returns (ok: bool, risky: bool, copied: bool)
      requires Valid() && step.Open?
      modifies this`backups
      ensures Valid()
      ensures risky == Risky(old(Value()), step)
      ensures var b := if risky then BackedUp(old(Value()), step.path, Answers(step.env, copied)) else (true, old(backups));
              ok == b.0 && Value() == old(Value()).(backups := b.1)
    {
      var fl := step.flags;
      ok, copied := true, step.env.copies;
      risky := step.path in files && step.env.fits && ((fl.write && !fl.append) || fl.CreateTrunc());
      if risky {
        ok, copied := DoBackup(step.path, step.env, io);
      }
    }

    method SetTrack(h: nat, t: Track)
      requires Valid() && h in handles
      modifies this`handles
      ensures Valid() && Value() == WithTrack(old(Value()), h, t)
    {
      TrackKeepsValid(Value(), h, t);
      handles := handles[h := handles[h].(track := Some(t))];
    }

    method NextPwrite(h: nat, bytes: seq<byte>, offset: nat)
      requires Valid() && h in handles
      modifies this`data
      ensures Valid() && Value() == Written(old(Value()), h, bytes, offset)
    {
      WrittenKeepsValid(Value(), h, bytes, offset, 0);
      var hd := handles[h];
      if hd.writable {
        var was := data[hd.inode];
        if hd.append {
          data := data[hd.inode := was + bytes];
        } else {
          data := data[hd.inode := Spliced(was, offset, bytes)];
        }
      }
    }

    method NextFtruncate(h: nat, len: nat)
      requires Valid() && h in handles
      modifies this`data
      ensures Valid() && Value() == Truncated(old(Value()), h, len)
    {
      WrittenKeepsValid(Value(), h, [], 0, len);
      var hd := handles[h];
      if hd.writable {
        data := data[hd.inode := Resized(data[hd.inode], len)];
      }
    }

    /** `gf_deferred_backup`. */
    method DeferredBackup(h: nat, env: Env, io: CopyIo) returns (verdict: Verdict, copied: bool)
      requires Valid() && h in handles && handles[h].track.Some?
      modifies this`backups, this`handles
      ensures Valid()
      ensures (verdict, Value()) == Deferred(old(Value()), h, Answers(env, copied))
    {
      copied := env.copies;
      var hd := handles[h];
      var t := hd.track.value;
      if t.failed {
        return Go, copied;
      }
      if !t.known && (!hd.hidden || env.named) {
        t := t.(known := true);
      }
      if !t.known {
        return Unresolved, copied;
      }
      verdict, copied := Attempt(h, t, env, io);
    }

    /** The part of the deferred backup that knows the path. */
    method Attempt(h: nat, t: Track, env: Env, io: CopyIo) returns (verdict: Verdict, copied: bool)
      requires Valid() && h in handles
      modifies this`backups, this`handles
      ensures Valid()
      ensures (verdict, Value()) == Attempted(old(Value()), h, t, Answers(env, copied))
    {
      copied := env.copies;
      if !env.fits {
        SetTrack(h, t);
        return Unresolved, copied;
      }
      var ok;
      ok, copied := TrackedBackup(h, t, env, io);
      return if !ok && strict then Deny else Go, copied;
    }

    /** `do_backup` for a handle, with its outcome noted in the track. */
    method TrackedBackup(h: nat, t: Track, env: Env, io: CopyIo) returns (ok: bool, copied: bool)
      requires Valid() && h in handles
      modifies this`backups, this`handles
      ensures Valid()
      ensures (ok, Value()) == TrackedBackUp(old(Value()), h, t, Answers(env, copied))
    {
      ok, copied := DoBackup(handles[h].path, env, io);
      if ok {
        SetTrack(h, t.(done := true, failed := false));
      } else {
        SetTrack(h, t.(done := false, failed := true));
      }
    }

    /** `gf_pwrite`. */
    method Pwrite(step: Step, io: CopyIo) returns (copied: bool)
      requires Valid() && step.Pwrite? && step.h in handles
      modifies this`data, this`backups, this`handles
      ensures Valid()
      ensures Value() == AfterPwrite(old(Value()), Answered(step, copied))
    {
      copied := step.env.copies;
      var t := handles[step.h].track;
      if t.None? {
        NextPwrite(step.h, step.bytes, step.offset);
        return;
      }
      var blocked := ClientBlocked();
      if blocked {
        return;
      }
      if t.value.done {
        NextPwrite(step.h, step.bytes, step.offset);
        return;
      }
      var verdict;
      verdict, copied := DeferredBackup(step.h, step.env, io);
      if verdict != Deny {
        NextPwrite(step.h, step.bytes, step.offset);
      }
    }

    /** `gf_ftruncate`. */
    method Ftruncate(step: Step, io: CopyIo) returns (copied: bool)
      requires Valid() && step.Ftruncate? && step.h in handles
      modifies this`data, this`backups, this`handles
      ensures Valid()
      ensures Value() == AfterFtruncate(old(Value()), Answered(step, copied))
    {
      copied := step.env.copies;
      if handles[step.h].track.None? {
        copied := FirstCut(step, io);
        return;
      }
      var blocked := ClientBlocked();
      if blocked {
        return;
      }
      if handles[step.h].track.value.done {
        NextFtruncate(step.h, step.len);
        return;
      }
      var verdict;
      verdict, copied := DeferredBackup(step.h, step.env, io);
      if verdict != Deny {
        NextFtruncate(step.h, step.len);
      }
    }

    /** `gf_ftruncate` on a handle that is not tracked. */
    method FirstCut(step: Step, io: CopyIo) returns (copied: bool)
      requires Valid() && step.Ftruncate? && step.h in handles && handles[step.h].track.None?
      modifies this`data, this`backups, this`handles
      ensures Valid()
      ensures Value() == AfterFtruncate(old(Value()), Answered(step, copied))
    {
      var env, hd := step.env, handles[step.h];
      copied := env.copies;
      if hd.hidden && !env.named {
        NextFtruncate(step.h, step.len);
        return;
      }
      var blocked := ClientBlocked();
      if blocked {
        return;
      }
      if hd.path !in files || !env.fits {
        NextFtruncate(step.h, step.len);
        return;
      }
      copied := CutVisible(step, io);
    }

    /** The first cut through a handle that is not tracked and whose name is visible. */
    method CutVisible(step: Step, io: CopyIo) returns (copied: bool)
      requires Valid() && step.Ftruncate? && step.h in handles
      modifies this`data, this`backups, this`handles
      ensures Valid()
      ensures Value() == GuardedCut(old(Value()), Answered(step, copied))
    {
      var ok;
      ok, copied := DoBackup(handles[step.h].path, step.env, io);
      if step.env.attaches {
        SetTrack(step.h, Track(ok, !ok, true));
      }
      if !ok && strict {
        return;
      }
      NextFtruncate(step.h, step.len);
    }

    /** `gf_unlinkat`. */
    method UnlinkAt(step: Step, io: CopyIo) returns (copied: bool)
      requires Valid() && step.Unlink?
      modifies this`files, this`backups
      ensures Valid()
      ensures Value() == AfterUnlink(old(Value()), Answered(step, copied))
    {
      copied := step.env.copies;
      var blocked := ClientBlocked();
      if blocked {
        return;
      }
      if step.path in files {
        var ok := true;
        if step.env.fits {
          ok, copied := DoBackup(step.path, step.env, io);
        }
        if !ok && strict {
          return;
        }
        if step.env.proceeds {
          files := files - {step.path};
        }
      }
    }
  }
}
