/**
  The recovery tool: a backup is copied back over the damaged file, which is moved into quarantine
  first, and the backup is consumed only when the copy succeeded.
 */
module Restore {
  import opened Base
  import EventId
  import CopyFd
  import VfsBackup

  const PATH_MAX: nat := 4096

  datatype Node = File(bytes: seq<byte>) | Symlink | Directory(empty: bool)

  type Tree = map<string, Node>

  /** A row of the table of protected files. */
  datatype ProtectedFile = ProtectedFile(original: string, backup: string, eventId: string, pending: bool)

  datatype Status = Unchanged | Restored | Failed

  //
  // Paths
  //

  predicate HasAt(s: string, i: nat, t: string) { i + |t| <= |s| && s[i..i + |t|] == t }

  /** `valid_restore_path`: absolute, and no component "..". */
  predicate ValidPath(path: string) {
    path != [] && path[0] == '/' && NoInnerDots(path) && !EndsInDots(path)
  }

  predicate NoInnerDots(path: string) {
    forall i: nat :: i < |path| ==> !HasAt(path, i, "/../")
  }

  predicate EndsInDots(path: string) { |path| >= 3 && path[|path| - 3..] == "/.." }

  /** The components of a path between its slashes. */
  function Components(path: string): (cs: seq<string>)
    ensures cs != []
  {
    if path == [] then [""]
    else
      var cs := Components(path[..|path| - 1]);
      if path[|path| - 1] == '/' then cs + [""] else cs[..|cs| - 1] + [cs[|cs| - 1] + [path[|path| - 1]]]
  }

  function LastOf(cs: seq<string>): (c: string)
    requires cs != []
  {
    cs[|cs| - 1]
  }

  /** An absolute path ends with a slash and its last component. */
  lemma {:induction false} EndsWithLast(path: string)
    requires path != [] && path[0] == '/'
    ensures var last := LastOf(Components(path));
            && '/' !in last && |last| < |path|
            && path[|path| - |last| - 1] == '/' && path[|path| - |last|..] == last
  {
    var init, c := path[..|path| - 1], path[|path| - 1];
    if c != '/' {
      assert init[0] == path[0];
      EndsWithLast(init);
      var last := LastOf(Components(init));
      assert path[|path| - |last| - 1..] == init[|init| - |last|..] + [c];
    }
  }

  lemma DotsAt(path: string)
    requires |path| >= 3
    ensures EndsInDots(path) <==>
            path[|path| - 3] == '/' && path[|path| - 2] == '.' && path[|path| - 1] == '.'
  {
    var tail := path[|path| - 3..];
    assert |tail| == 3;
    assert tail[0] == path[|path| - 3] && tail[1] == path[|path| - 2] && tail[2] == path[|path| - 1];
    assert tail == [tail[0], tail[1], tail[2]];
  }

  lemma TwoDots(last: string)
    ensures last == ".." <==> |last| == 2 && last[0] == '.' && last[1] == '.'
  {
    if |last| == 2 {
      assert last == [last[0], last[1]];
    }
  }

  /** Behind the last slash of a path that ends in "/.." there are two characters. */
  lemma LastSlashIsLast(path: string, last: string)
    requires |path| >= 3 && path[|path| - 3] == '/' && path[|path| - 2] == '.' && path[|path| - 1] == '.'
    requires |last| < |path| && path[|path| - |last|..] == last && '/' !in last && path[|path| - |last| - 1] == '/'
    ensures |last| == 2
  {
    var n, k := |path|, |last|;
    forall j | n - k <= j < n ensures path[j] != '/' {
      assert path[j] == last[j - (n - k)];
      assert last[j - (n - k)] in last;
    }
  }

  lemma LastIsDots(path: string)
    requires path != [] && path[0] == '/'
    ensures EndsInDots(path) <==> LastOf(Components(path)) == ".."
  {
    EndsWithLast(path);
    var last := LastOf(Components(path));
    TwoDots(last);
    if |path| >= 3 {
      DotsAt(path);
      if EndsInDots(path) {
        LastSlashIsLast(path, last);
      }
      if |last| == 2 {
        assert last[0] == path[|path| - 2] && last[1] == path[|path| - 1];
      }
    }
  }

  lemma NoInnerDotsSnoc(path: string)
    requires path != []
    ensures var init, c := path[..|path| - 1], path[|path| - 1];
            NoInnerDots(path) <==> NoInnerDots(init) && !(c == '/' && EndsInDots(init))
  {
    var init, c := path[..|path| - 1], path[|path| - 1];
    forall i: nat ensures HasAt(init, i, "/../") ==> HasAt(path, i, "/../") {
      if HasAt(init, i, "/../") {
        assert path[i..i + 4] == init[i..i + 4];
      }
    }
    if c == '/' && EndsInDots(init) {
      var i := |init| - 3;
      assert path[i..i + 4] == init[i..] + [c];
      assert HasAt(path, i, "/../");
    }
    forall i: nat | HasAt(path, i, "/../")
      ensures HasAt(init, i, "/../") || (c == '/' && EndsInDots(init))
    {
      if i + 4 < |path| {
        assert init[i..i + 4] == path[i..i + 4];
      } else {
        assert path[i..i + 4][3] == c;
        assert init[i..] == path[i..i + 4][..3];
      }
    }
  }

  lemma {:induction false} InnerDots(path: string)
    requires path != [] && path[0] == '/'
    ensures var cs := Components(path); NoInnerDots(path) <==> ".." !in cs[..|cs| - 1]
  {
    var init, c := path[..|path| - 1], path[|path| - 1];
    NoInnerDotsSnoc(path);
    if init == [] {
      assert Components(path)[..1] == [""];
    } else {
      assert init[0] == path[0];
      InnerDots(init);
      LastIsDots(init);
      var cs := Components(init);
      if c == '/' {
        assert cs == cs[..|cs| - 1] + [LastOf(cs)];
        assert Components(path)[..|cs|] == cs;
      } else {
        assert Components(path)[..|cs| - 1] == cs[..|cs| - 1];
      }
    }
  }

  /** A valid path is an absolute one with no component "..". */
  lemma ValidPathIff(path: string)
    ensures ValidPath(path) <==> path != [] && path[0] == '/' && ".." !in Components(path)
  {
    if path != [] && path[0] == '/' {
      InnerDots(path);
      LastIsDots(path);
      var cs := Components(path);
      assert cs == cs[..|cs| - 1] + [LastOf(cs)];
    }
  }

  predicate Under(path: string, dir: string) { dir + "/" <= path }

  function Quarantine(dir: string, eventId: string, path: string): (q: string) {
    dir + "/" + eventId + "/" + (if path != [] && path[0] == '/' then path[1..] else path)
  }

  lemma QuarantineIsUnder(dir: string, eventId: string, path: string)
    ensures Under(Quarantine(dir, eventId, path), dir)
  {
    var q := Quarantine(dir, eventId, path);
    assert q[..|dir| + 1] == dir + "/";
  }

  /** In quarantine a file stands below the event's directory under its own absolute path. */
  lemma QuarantineName(dir: string, eventId: string, path: string)
    requires path != [] && path[0] == '/'
    ensures Quarantine(dir, eventId, path) == dir + "/" + eventId + path
  {
    assert path == "/" + path[1..];
  }

  //
  // quarantine_unique
  //

  /** What fits the buffer. */
  function CutPath(path: string): (r: string) { if |path| < PATH_MAX then path else path[..PATH_MAX - 1] }

  function Numbered(base: string, i: nat): (q: string) { base + "." + EventId.Decimal(i) }

  /** The name the search ends at from number `i` on; one that does not fit is left cut. */
  function UniqueFrom(fs: Tree, base: string, i: nat): (q: string)
    decreases 100 - i
  {
    var q := Numbered(base, i);
    if |q| >= PATH_MAX then CutPath(q)
    else if q !in fs || i >= 99 then q
    else UniqueFrom(fs, base, i + 1)
  }

  function Unique(fs: Tree, base: string): (q: string) {
    if base !in fs then base else UniqueFrom(fs, base, 1)
  }

  /** `quarantine_unique`. */
  method QuarantineUnique(fs: Tree, base: string) returns (path: string)
    ensures path == Unique(fs, base)
  {
    path := base;
    if path !in fs {
      return;
    }
    var i := 1;
    while i < 100
      invariant 1 <= i <= 100
      invariant i < 100 ==> Unique(fs, base) == UniqueFrom(fs, base, i)
      invariant i == 100 ==> path == Unique(fs, base)
    {
      var q := Numbered(base, i);
      path := CutPath(q);
      if |q| >= PATH_MAX {
        return;
      }
      if path !in fs {
        return;
      }
      i := i + 1;
    }
  }

  /**
    The search finds a free name: the name itself, or a numbered form that fits the buffer. A name
    two characters short of the buffer has one more form, its number cut off; a full one has none.
   */
  ghost predicate FindsRoom(fs: Tree, base: string) {
    || base !in fs
    || (|base| + 3 < PATH_MAX && exists i: nat :: 1 <= i <= 99 && Numbered(base, i) !in fs)
    || (|base| + 3 == PATH_MAX && exists i: nat :: 1 <= i <= 9 && Numbered(base, i) !in fs)
    || (|base| + 2 == PATH_MAX && base + "." !in fs)
  }

  lemma NumberedLength(base: string, i: nat)
    requires i <= 99
    ensures |Numbered(base, i)| == |base| + (if i < 10 then 2 else 3)
    ensures Numbered(base, i)[..|base| + 1] == base + "."
  {
    if i >= 10 {
      assert EventId.Decimal(i) == EventId.Decimal(i / 10) + [EventId.Digit(i % 10)];
      assert |EventId.Decimal(i / 10)| == 1;
    }
  }

  lemma {:induction false} UniqueFromIsFree(fs: Tree, base: string, i: nat)
    requires 1 <= i <= 99 && |base| + 3 < PATH_MAX
    ensures UniqueFrom(fs, base, i) !in fs <==> exists j: nat :: i <= j <= 99 && Numbered(base, j) !in fs
    decreases 100 - i
  {
    NumberedLength(base, i);
    if Numbered(base, i) in fs && i < 99 {
      UniqueFromIsFree(fs, base, i + 1);
    }
  }

  /** One character less room: the tenth name is cut back to the first, which is taken by then. */
  lemma {:induction false} OneDigitIsFree(fs: Tree, base: string, i: nat)
    requires 1 <= i <= 10 && |base| + 3 == PATH_MAX
    requires forall j: nat :: 1 <= j < i ==> Numbered(base, j) in fs
    ensures UniqueFrom(fs, base, i) !in fs <==> exists j: nat :: 1 <= j <= 9 && Numbered(base, j) !in fs
    decreases 10 - i
  {
    NumberedLength(base, i);
    if i == 10 {
      TenthIsCut(base);
      assert UniqueFrom(fs, base, 10) == Numbered(base, 1);
    } else if Numbered(base, i) in fs {
      OneDigitIsFree(fs, base, i + 1);
    }
  }

  lemma TenthIsCut(base: string)
    requires |base| + 3 == PATH_MAX
    ensures |Numbered(base, 10)| == PATH_MAX && CutPath(Numbered(base, 10)) == Numbered(base, 1)
  {
    NumberedLength(base, 10);
    assert EventId.Decimal(10) == EventId.Decimal(1) + [EventId.Digit(0)];
    assert Numbered(base, 10) == Numbered(base, 1) + [EventId.Digit(0)];
    NumberedLength(base, 1);
  }

  /** Exactly when the search ends at a free name, for every name that fits the buffer. */
  lemma UniqueIsFreeIff(fs: Tree, base: string)
    requires |base| < PATH_MAX
    ensures Unique(fs, base) !in fs <==> FindsRoom(fs, base)
  {
    if base in fs {
      NumberedLength(base, 1);
      if |base| + 3 < PATH_MAX {
        UniqueFromIsFree(fs, base, 1);
      } else if |base| + 3 == PATH_MAX {
        OneDigitIsFree(fs, base, 1);
      } else if |base| + 2 == PATH_MAX {
        assert Unique(fs, base) == base + ".";
      } else {
        FullNameIsNotUnique(fs, base);
      }
    }
  }

  /** A name that fills the buffer comes back itself although it is taken. */
  lemma FullNameIsNotUnique(fs: Tree, base: string)
    requires |base| == PATH_MAX - 1 && base in fs
    ensures Unique(fs, base) == base
  {
    NumberedLength(base, 1);
    assert Numbered(base, 1)[..PATH_MAX - 1] == base;
  }

  lemma {:induction false} UniqueFromExtends(fs: Tree, base: string, i: nat)
    requires i <= 99 && |base| < PATH_MAX
    ensures base <= UniqueFrom(fs, base, i)
    decreases 100 - i
  {
    if |Numbered(base, i)| < PATH_MAX && Numbered(base, i) in fs && i < 99 {
      UniqueFromExtends(fs, base, i + 1);
    }
  }

  lemma UniqueIsUnder(fs: Tree, base: string, dir: string)
    requires Under(base, dir) && |base| < PATH_MAX
    ensures Under(Unique(fs, base), dir)
  {
    if base in fs {
      UniqueFromExtends(fs, base, 1);
    }
  }

  //
  // Copying
  //

  /** How a copy ends: the files do not open, it stops after some bytes, or it goes through. */
  datatype CopyEnd = Refused | Stopped(k: nat) | Whole

  function FirstBytes(s: seq<byte>, k: nat): (r: seq<byte>) { if k < |s| then s[..k] else s }

  predicate Opens(fs: Tree, src: string, dst: string) {
    src in fs && fs[src].File? && (dst in fs ==> fs[dst].File?)
  }

  /** The tree after `copy_file`, and whether it returned 0. */
  function Copied(fs: Tree, src: string, dst: string, end: CopyEnd): (r: (bool, Tree)) {
    if !Opens(fs, src, dst) || end.Refused? then (false, fs)
    else
      var bytes := if src == dst then [] else fs[src].bytes;
      if end.Whole? then (true, fs[dst := File(bytes)]) else (false, fs[dst := File(FirstBytes(bytes, end.k))])
  }

  /** The copy loop of `copy_file`: what reaches the new file. A read moves nothing only at the end. */
  method CopyBytes(src: seq<byte>, script: seq<CopyFd.Result>) returns (end: CopyEnd, out: seq<byte>)
    ensures !end.Refused? && (end.Stopped? ==> end.k < |src|)
    ensures out == if end.Whole? then src else FirstBytes(src, end.k)
  {
    out := [];
    var s := script;
    while |out| < |src|
      invariant out <= src
      decreases |s|
    {
      if s == [] || s[0].Failed? {
        return Stopped(|out|), out;
      }
      var r := s[0];
      s := s[1..];
      if r.Interrupted? || r.n == 0 {
        continue;
      }
      var n := if r.n <= |src| - |out| && r.n <= 65536 then r.n
               else if |src| - |out| <= 65536 then |src| - |out| else 65536;
      var ok;
      ok, out, s := WriteOut(src, out, n, s);
      if !ok {
        return Stopped(|out|), out;
      }
    }
    return Whole, out;
  }

  /** The inner loop: `n` bytes that were read are written out. */
  method WriteOut(src: seq<byte>, done: seq<byte>, n: nat, script: seq<CopyFd.Result>)
    returns (ok: bool, out: seq<byte>, rest: seq<CopyFd.Result>)
    requires |done| + n <= |src| && done <= src
    ensures out <= src && |rest| <= |script|
    ensures if ok then |out| == |done| + n else |out| < |done| + n
  {
    out, rest := done, script;
    var w := 0;
    while w < n
      invariant 0 <= w <= n && |out| == |done| + w && out <= src && |rest| <= |script|
      decreases |rest|
    {
      if rest == [] || rest[0].Failed? || (rest[0].Moved? && rest[0].n == 0) {
        return false, out, rest;
      }
      var r := rest[0];
      rest := rest[1..];
      if r.Interrupted? {
        continue;
      }
      var k := if r.n <= n - w then r.n else n - w;
      out := out + src[|out|..|out| + k];
      w := w + k;
    }
    return true, out, rest;
  }

  //
  // restore_one
  //

  /** What the outside answers while one row is restored. */
  datatype Env = Env(renames: bool, moved: CopyEnd, unlinks: bool, copied: CopyEnd, consumes: bool)

  /** The tree after a file was moved to `q`, by renaming or by copying and removing. */
  function MovedAway(fs: Tree, path: string, q: string, renames: bool, moved: CopyEnd, unlinks: bool): (r: Tree)
    requires path in fs
  {
    if renames then (fs - {path})[q := fs[path]]
    else
      var c := if fs[path].File? then Copied(fs, path, q, moved) else (false, fs);
      if c.0 && unlinks then c.1 - {path} else c.1
  }

  /** The tree after the damaged file was quarantined, if that was possible. */
  function Displaced(fs: Tree, dir: string, row: ProtectedFile, env: Env): (r: Tree) {
    var q := Quarantine(dir, row.eventId, row.original);
    if row.original !in fs || |q| >= PATH_MAX then fs
    else MovedAway(fs, row.original, Unique(fs, q), env.renames, env.moved, env.unlinks)
  }

  /** `restore_one` as a function of the tree. */
  function RestoredOne(fs: Tree, dir: string, row: ProtectedFile, env: Env): (r: (Status, Tree)) {
    if !row.pending then (Unchanged, fs)
    else if !ValidPath(row.original) || row.backup !in fs then (Failed, fs)
    else
      var c := Copied(Displaced(fs, dir, row, env), row.backup, row.original, env.copied);
      if !c.0 then (Failed, c.1)
      else (Restored, if env.consumes then c.1 - {row.backup} else c.1)
  }

  /** The row names a backup in the store: not the file itself, and nothing in quarantine. */
  predicate InStore(row: ProtectedFile, dir: string) {
    row.backup != row.original && !Under(row.backup, dir)
  }

  lemma DisplacedFrame(fs: Tree, dir: string, row: ProtectedFile, env: Env, p: string)
    requires p != row.original && !Under(p, dir)
    ensures var fs' := Displaced(fs, dir, row, env);
            (p in fs' <==> p in fs) && (p in fs ==> fs'[p] == fs[p])
  {
    var q := Quarantine(dir, row.eventId, row.original);
    QuarantineIsUnder(dir, row.eventId, row.original);
    if |q| < PATH_MAX {
      UniqueIsUnder(fs, q, dir);
    }
  }

  /** A row that was dealt with, names an unsafe path or has lost its backup leaves every file where it is. */
  lemma RestoreKeepsOff(fs: Tree, dir: string, row: ProtectedFile, env: Env)
    ensures !row.pending ==> RestoredOne(fs, dir, row, env) == (Unchanged, fs)
    ensures row.pending && (!ValidPath(row.original) || row.backup !in fs) ==> RestoredOne(fs, dir, row, env) == (Failed, fs)
  {
  }

  /** A row whose backup is the file itself: where the file cannot be moved, the copy empties it. */
  lemma RestoreOntoItself(fs: Tree, dir: string, row: ProtectedFile, env: Env)
    requires row.pending && ValidPath(row.original) && row.backup == row.original
    requires row.original in fs && fs[row.original].File? && |Quarantine(dir, row.eventId, row.original)| >= PATH_MAX
    requires Opens(fs, row.original, row.original) && env.copied.Whole? && !env.consumes
    ensures RestoredOne(fs, dir, row, env) == (Restored, fs[row.original := File([])])
  {
  }

  /** Nothing outside quarantine changes but the file and its backup. */
  lemma RestoreFrame(fs: Tree, dir: string, row: ProtectedFile, env: Env, p: string)
    requires p != row.original && p != row.backup && !Under(p, dir)
    ensures var fs' := RestoredOne(fs, dir, row, env).1;
            (p in fs' <==> p in fs) && (p in fs ==> fs'[p] == fs[p])
  {
    DisplacedFrame(fs, dir, row, env, p);
  }

  /**
    A restore that succeeds puts the bytes of the backup back and consumes the backup; one that
    does not leaves the backup as it was.
   */
  lemma RestoreOutcome(fs: Tree, dir: string, row: ProtectedFile, env: Env)
    requires InStore(row, dir)
    ensures var (st, fs') := RestoredOne(fs, dir, row, env);
            && (st.Restored? ==>
                  && row.backup in fs && fs[row.backup].File?
                  && row.original in fs' && fs'[row.original] == fs[row.backup]
                  && (env.consumes <==> row.backup !in fs'))
            && (!st.Restored? && row.backup in fs ==> row.backup in fs' && fs'[row.backup] == fs[row.backup])
  {
    DisplacedFrame(fs, dir, row, env, row.backup);
  }

  /** Exactly when a restore succeeds. */
  lemma RestoreSucceedsIff(fs: Tree, dir: string, row: ProtectedFile, env: Env)
    requires InStore(row, dir)
    ensures RestoredOne(fs, dir, row, env).0.Restored? <==>
            && row.pending && ValidPath(row.original)
            && row.backup in fs && fs[row.backup].File? && env.copied.Whole?
            && var now := Displaced(fs, dir, row, env);
               row.original in now ==> now[row.original].File?
  {
    DisplacedFrame(fs, dir, row, env, row.backup);
  }

  /** All of a file's bytes get to a free name: it is renamed, or the copy does not stop short. */
  predicate MovesAll(env: Env, bytes: seq<byte>) {
    env.renames || env.moved.Whole? || (env.moved.Stopped? && env.moved.k >= |bytes|)
  }

  /**
    What quarantine does. One path there changes, and it replaces an earlier copy exactly when the
    search for a free name fails. A regular file whose name is free is there afterwards exactly when
    the move takes all its bytes. A name that does not fit the buffer is not quarantined at all.
   */
  lemma DisplacedIsKept(fs: Tree, dir: string, row: ProtectedFile, env: Env, p: string)
    requires row.original in fs && !Under(row.original, dir) && Under(p, dir)
    ensures var base := Quarantine(dir, row.eventId, row.original);
            var q := Unique(fs, base);
            var fs' := Displaced(fs, dir, row, env);
            if |base| >= PATH_MAX then fs' == fs
            else
              && Under(q, dir)
              && (q !in fs <==> FindsRoom(fs, base))
              && (p in fs && p != q ==> p in fs' && fs'[p] == fs[p])
              && (env.renames ==> q in fs' && fs'[q] == fs[row.original])
              && (q !in fs && fs[row.original].File? ==>
                    (q in fs' && fs'[q] == fs[row.original] <==> MovesAll(env, fs[row.original].bytes)))
  {
    var base := Quarantine(dir, row.eventId, row.original);
    QuarantineIsUnder(dir, row.eventId, row.original);
    if |base| < PATH_MAX {
      UniqueIsUnder(fs, base, dir);
      UniqueIsFreeIff(fs, base);
    }
  }

  /**
    Exactly when a restore that succeeds has kept the displaced file, whose name fits and finds room:
    when the move took all its bytes. The restore itself does not wait for that.
   */
  lemma RestoreKeepsDisplacedIff(fs: Tree, dir: string, row: ProtectedFile, env: Env)
    requires InStore(row, dir) && !Under(row.original, dir)
    requires row.original in fs && fs[row.original].File? && RestoredOne(fs, dir, row, env).0.Restored?
    ensures var base := Quarantine(dir, row.eventId, row.original);
            var fs' := RestoredOne(fs, dir, row, env).1;
            var q := Unique(fs, base);
            |base| < PATH_MAX && FindsRoom(fs, base) ==>
              (q in fs' && fs'[q] == fs[row.original] <==> MovesAll(env, fs[row.original].bytes))
  {
    var base := Quarantine(dir, row.eventId, row.original);
    QuarantineIsUnder(dir, row.eventId, row.original);
    DisplacedIsKept(fs, dir, row, env, base);
  }

  /** Where nothing moves, a restore that succeeds overwrites the file and keeps no other copy of it. */
  lemma UnmovedIsOverwritten(fs: Tree, dir: string, row: ProtectedFile, env: Env)
    requires InStore(row, dir) && row.original in fs && fs[row.original].File? && row.backup in fs && fs[row.backup].File?
    requires row.pending && ValidPath(row.original) && !env.renames && env.moved.Refused? && env.copied.Whole?
    ensures RestoredOne(fs, dir, row, env)
         == (Restored, if env.consumes then fs[row.original := fs[row.backup]] - {row.backup}
                       else fs[row.original := fs[row.backup]])
  {
  }

  //
  // delete_created_one
  //

  /** The tree after `delete_created_one`, and whether the file counts as deleted. */
  function DeletedOne(fs: Tree, dir: string, eventId: string, path: string, env: Env): (r: (bool, Tree)) {
    if !ValidPath(path) then (false, fs)
    else if path !in fs then (true, fs)
    else
      match fs[path]
      case File(_) =>
        var q := Unique(fs, CreatedBase(dir, eventId, path));
        (env.renames || (Copied(fs, path, q, env.moved).0 && env.unlinks),
         MovedAway(fs, path, q, env.renames, env.moved, env.unlinks))
      case Symlink => (env.unlinks, if env.unlinks then fs - {path} else fs)
      case Directory(empty) => (empty && env.unlinks, if empty && env.unlinks then fs - {path} else fs)
  }

  /** Where a created file goes: unlike a restore, this routine cuts a name that is too long. */
  function CreatedBase(dir: string, eventId: string, path: string): (base: string)
    ensures |base| < PATH_MAX
  {
    CutPath(Quarantine(dir, eventId, path))
  }

  lemma CreatedBaseIsUnder(dir: string, eventId: string, path: string)
    requires |dir| + 1 < PATH_MAX
    ensures Under(CreatedBase(dir, eventId, path), dir)
  {
    QuarantineIsUnder(dir, eventId, path);
    var q := Quarantine(dir, eventId, path);
    assert CutPath(q)[..|dir| + 1] == q[..|dir| + 1];
  }

  /**
    What counts as deleted is gone, a file's bytes being in quarantine; what does not is still there;
    a full directory is never touched. Apart from the file only one path changes, and it replaces an
    earlier copy in quarantine exactly when the search for a free name fails.
   */
  lemma DeleteOutcome(fs: Tree, dir: string, eventId: string, path: string, env: Env, p: string)
    requires !Under(path, dir) && |dir| + 1 < PATH_MAX
    ensures var (gone, fs') := DeletedOne(fs, dir, eventId, path, env);
            var base := CreatedBase(dir, eventId, path);
            var q := Unique(fs, base);
            && (gone ==> path !in fs')
            && (!gone && path in fs ==> path in fs' && fs'[path] == fs[path])
            && (gone && path in fs && fs[path].File? ==> q in fs' && fs'[q] == fs[path])
            && (path in fs && fs[path] == Directory(false) ==> fs' == fs)
            && (p != path && p != q && p in fs ==> p in fs' && fs'[p] == fs[p])
            && (q !in fs <==> FindsRoom(fs, base))
            && (!ValidPath(path) ==> !gone && fs' == fs)
            && (ValidPath(path) && path !in fs ==> gone && fs' == fs)
            && (ValidPath(path) && path in fs && !fs[path].File? ==>
                  (gone <==> env.unlinks && fs[path] != Directory(false)) && (gone ==> fs' == fs - {path}))
            && (ValidPath(path) && path in fs && fs[path].File? && q !in fs ==>
                  (gone <==> env.renames || (env.moved.Whole? && env.unlinks)))
  {
    var base := CreatedBase(dir, eventId, path);
    CreatedBaseIsUnder(dir, eventId, path);
    UniqueIsUnder(fs, base, dir);
    UniqueIsFreeIff(fs, base);
  }

  /** Of two files whose names are cut to the same quarantine path the second replaces the first. */
  lemma CutNamesCollide(fs: Tree, dir: string, eventId: string, one: string, two: string, env: Env)
    requires ValidPath(one) && ValidPath(two) && one != two && !Under(one, dir) && !Under(two, dir)
    requires one in fs && fs[one].File? && two in fs && fs[two].File? && env.renames && |dir| + 1 < PATH_MAX
    requires |Quarantine(dir, eventId, one)| >= PATH_MAX
    requires CreatedBase(dir, eventId, one) == CreatedBase(dir, eventId, two)
    ensures var base := CreatedBase(dir, eventId, one);
            var fs1 := DeletedOne(fs, dir, eventId, one, env).1;
            var fs2 := DeletedOne(fs1, dir, eventId, two, env).1;
            && base in fs1 && fs1[base] == fs[one]
            && one !in fs2 && two !in fs2 && base in fs2 && fs2[base] == fs[two]
  {
    var base := CreatedBase(dir, eventId, one);
    CreatedBaseIsUnder(dir, eventId, one);
    assert |base| == PATH_MAX - 1;
    if base in fs {
      FullNameIsNotUnique(fs, base);
    }
    var fs1 := DeletedOne(fs, dir, eventId, one, env).1;
    FullNameIsNotUnique(fs1, base);
  }

  //
  // A whole event, and the way back to the share
  //

  /** All rows of an event one after the other. */
  function RestoredAll(fs: Tree, dir: string, rows: seq<ProtectedFile>, envs: seq<Env>): (r: Tree)
    requires |rows| == |envs|
  {
    if rows == [] then fs
    else
      var n := |rows| - 1;
      RestoredOne(RestoredAll(fs, dir, rows[..n], envs[..n]), dir, rows[n], envs[n]).1
  }

  /** No two rows share a file or a backup, and all name files outside quarantine. */
  ghost predicate Separate(dir: string, rows: seq<ProtectedFile>) {
    && (forall i :: 0 <= i < |rows| ==> InStore(rows[i], dir) && !Under(rows[i].original, dir))
    && forall i, j :: 0 <= i < |rows| && 0 <= j < |rows| && i != j ==>
         && rows[i].original != rows[j].original && rows[i].backup != rows[j].backup
         && rows[i].original != rows[j].backup
  }

  /** Rows before `n` and the others do not disturb a path that belongs to none of them. */
  lemma {:induction false} AllFrame(fs: Tree, dir: string, rows: seq<ProtectedFile>, envs: seq<Env>, p: string)
    requires |rows| == |envs| && !Under(p, dir)
    requires forall i :: 0 <= i < |rows| ==> p != rows[i].original && p != rows[i].backup
    ensures var fs' := RestoredAll(fs, dir, rows, envs);
            (p in fs' <==> p in fs) && (p in fs ==> fs'[p] == fs[p])
  {
    if rows != [] {
      var n := |rows| - 1;
      AllFrame(fs, dir, rows[..n], envs[..n], p);
      RestoreFrame(RestoredAll(fs, dir, rows[..n], envs[..n]), dir, rows[n], envs[n], p);
    }
  }

  /** The outcome of row `i` when its turn comes. */
  function TurnOf(fs: Tree, dir: string, rows: seq<ProtectedFile>, envs: seq<Env>, i: nat): (st: Status)
    requires |rows| == |envs| && i < |rows|
  {
    RestoredOne(RestoredAll(fs, dir, rows[..i], envs[..i]), dir, rows[i], envs[i]).0
  }

  /**
    After a whole event every row that was restored has the bytes its backup had before the event,
    and every other row still has its backup.
   */
  lemma {:induction false} EventOutcome(fs: Tree, dir: string, rows: seq<ProtectedFile>, envs: seq<Env>, i: nat)
    requires |rows| == |envs| && Separate(dir, rows) && i < |rows| && rows[i].backup in fs
    ensures var fs' := RestoredAll(fs, dir, rows, envs);
            if TurnOf(fs, dir, rows, envs, i).Restored?
            then rows[i].original in fs' && fs'[rows[i].original] == fs[rows[i].backup]
            else rows[i].backup in fs' && fs'[rows[i].backup] == fs[rows[i].backup]
  {
    var n := |rows| - 1;
    var before := RestoredAll(fs, dir, rows[..n], envs[..n]);
    if i == n {
      AllFrame(fs, dir, rows[..n], envs[..n], rows[n].backup);
      RestoreOutcome(before, dir, rows[n], envs[n]);
    } else {
      EventOutcome(fs, dir, rows[..n], envs[..n], i);
      assert rows[..n][..i] == rows[..i] && envs[..n][..i] == envs[..i];
      RestoreFrame(before, dir, rows[n], envs[n], rows[i].original);
      RestoreFrame(before, dir, rows[n], envs[n], rows[i].backup);
    }
  }

  /** The created files of an event are deleted before its rows are restored. */
  function DeletedAll(fs: Tree, dir: string, eventId: string, paths: seq<string>, envs: seq<Env>): (r: Tree)
    requires |paths| == |envs|
  {
    if paths == [] then fs
    else
      var n := |paths| - 1;
      DeletedOne(DeletedAll(fs, dir, eventId, paths[..n], envs[..n]), dir, eventId, paths[n], envs[n]).1
  }

  /** The turn of a created path counts it as deleted. */
  predicate CountsDeleted(fs: Tree, dir: string, eventId: string, paths: seq<string>, envs: seq<Env>, k: nat)
    requires |paths| == |envs| && k < |paths|
  {
    DeletedOne(DeletedAll(fs, dir, eventId, paths[..k], envs[..k]), dir, eventId, paths[k], envs[k]).0
  }

  /** After all turns a path is there exactly if it was there and no turn of it counts it as deleted. */
  lemma {:induction false} DeletedAllOutcome(
      fs: Tree, dir: string, eventId: string, paths: seq<string>, envs: seq<Env>, c: string)
    requires |paths| == |envs| && !Under(c, dir) && |dir| + 1 < PATH_MAX
    requires forall i :: 0 <= i < |paths| ==> !Under(paths[i], dir)
    ensures var fs' := DeletedAll(fs, dir, eventId, paths, envs);
            && (c in fs' <==> c in fs && forall k :: 0 <= k < |paths| && paths[k] == c ==>
                  !CountsDeleted(fs, dir, eventId, paths, envs, k))
            && (c in fs' ==> fs'[c] == fs[c])
  {
    if paths != [] {
      var n := |paths| - 1;
      var mid := DeletedAll(fs, dir, eventId, paths[..n], envs[..n]);
      DeletedAllOutcome(fs, dir, eventId, paths[..n], envs[..n], c);
      CreatedBaseIsUnder(dir, eventId, paths[n]);
      UniqueIsUnder(mid, CreatedBase(dir, eventId, paths[n]), dir);
      DeleteOutcome(mid, dir, eventId, paths[n], envs[n], c);
      forall k | 0 <= k < n
        ensures CountsDeleted(fs, dir, eventId, paths, envs, k)
            <==> CountsDeleted(fs, dir, eventId, paths[..n], envs[..n], k)
      {
        assert paths[..n][..k] == paths[..k] && envs[..n][..k] == envs[..k];
      }
    }
  }

  /**
    A whole recovery. A path that is created and backed up in one event is deleted first and then gets
    the bytes of its backup; a path that no row names is gone exactly if its own turn counts it as
    deleted or it was not there; a row that is not restored keeps its backup.
   */
  lemma RecoveryOutcome(
      fs: Tree, dir: string, eventId: string, paths: seq<string>, denvs: seq<Env>,
      rows: seq<ProtectedFile>, envs: seq<Env>, i: nat, c: string)
    requires |paths| == |denvs| && |rows| == |envs| && Separate(dir, rows) && |dir| + 1 < PATH_MAX
    requires forall k :: 0 <= k < |paths| ==> !Under(paths[k], dir)
    requires i < |rows| && rows[i].backup in fs && rows[i].backup !in paths
    requires !Under(c, dir) && forall k :: 0 <= k < |rows| ==> c != rows[k].original && c != rows[k].backup
    ensures var mid := DeletedAll(fs, dir, eventId, paths, denvs);
            var fs' := RestoredAll(mid, dir, rows, envs);
            && (if TurnOf(mid, dir, rows, envs, i).Restored?
                then rows[i].original in fs' && fs'[rows[i].original] == fs[rows[i].backup]
                else rows[i].backup in fs' && fs'[rows[i].backup] == fs[rows[i].backup])
            && (c in fs' <==> c in fs && forall k :: 0 <= k < |paths| && paths[k] == c ==>
                  !CountsDeleted(fs, dir, eventId, paths, denvs, k))
  {
    var mid := DeletedAll(fs, dir, eventId, paths, denvs);
    DeletedAllOutcome(fs, dir, eventId, paths, denvs, rows[i].backup);
    DeletedAllOutcome(fs, dir, eventId, paths, denvs, c);
    EventOutcome(mid, dir, rows, envs, i);
    AllFrame(mid, dir, rows, envs, c);
  }

  /**
    Backup, then restore: whatever the clients of a share did after the first backup of a file in a
    run, restoring it brings back the bytes the file had just before that backup was made.
   */
  lemma BackupThenRestore(
      steps: seq<VfsBackup.Step>, ws: seq<VfsBackup.Share>, n: nat, p: string,
      fs: Tree, dir: string, row: ProtectedFile, env: Env) returns (m: nat)
    requires VfsBackup.IsRun(steps, ws) && n < |ws| && p !in ws[0].backups && p in ws[n].backups
    requires row.backup in fs && fs[row.backup] == File(ws[n].backups[p]) && InStore(row, dir)
    requires RestoredOne(fs, dir, row, env).0.Restored?
    ensures m < n && p !in ws[m].backups && p in ws[m].files && p in ws[m + 1].backups
    ensures var fs' := RestoredOne(fs, dir, row, env).1;
            row.original in fs' && fs'[row.original] == File(ws[m].data[ws[m].files[p]])
  {
    m := VfsBackup.BackupIsFirstCopy(steps, ws, n, p);
    RestoreOutcome(fs, dir, row, env);
  }

  //
  // The tool at work
  //

  class Recovery {
    const dir: string
    var fs: Tree
    var total: nat
    var success: nat
    var fail: nat
    var deleted: nat
    var undeleted: nat

    constructor (dir: string, fs: Tree)
      ensures this.dir == dir && this.fs == fs && total == success == fail == deleted == undeleted == 0
    {
      this.dir, this.fs := dir, fs;
      total, success, fail, deleted, undeleted := 0, 0, 0, 0, 0;
    }

    /** `copy_file`; `end` says how the copy went. */
    method CopyFile(src: string, dst: string, opens: bool, script: seq<CopyFd.Result>) returns (ok: bool, end: CopyEnd)
      modifies this`fs
      ensures (ok, fs) == Copied(old(fs), src, dst, end)
    {
      if src !in fs || !fs[src].File? || !opens {
        return false, Refused;
      }
      if dst in fs && !fs[dst].File? {
        return false, Refused;
      }
      ghost var before := fs;
      fs := fs[dst := File([])];
      var out;
      end, out := CopyBytes(fs[src].bytes, script);
      fs := fs[dst := File(out)];
      assert fs == before[dst := File(out)];
      ok := end.Whole?;
    }

    /** The move into quarantine: rename, or copy and remove. */
    method MoveAway(path: string, q: string, renames: bool, opens: bool, script: seq<CopyFd.Result>, unlinks: bool)
      returns (gone: bool, end: CopyEnd)
      requires path in fs
      modifies this`fs
      ensures fs == MovedAway(old(fs), path, q, renames, end, unlinks)
      ensures gone == (renames || (old(fs)[path].File? && Copied(old(fs), path, q, end).0 && unlinks))
    {
      gone, end := renames, Refused;
      if renames {
        var node := fs[path];
        fs := fs - {path};
        fs := fs[q := node];
        return;
      }
      if fs[path].File? {
        var ok;
        ok, end := CopyFile(path, q, opens, script);
        if ok && unlinks {
          fs := fs - {path};
          gone := true;
        }
      }
    }

    /** Only the move matters to what is displaced. */
    static lemma DisplacedAlike(fs: Tree, dir: string, row: ProtectedFile, env: Env, one: CopyEnd, two: CopyEnd)
      ensures Displaced(fs, dir, row, env.(copied := one)) == Displaced(fs, dir, row, env.(copied := two))
    {
    }

    /** The damaged file goes into quarantine, if it is there and its name fits. */
    method Displace(row: ProtectedFile, env: Env, script: seq<CopyFd.Result>) returns (moved: CopyEnd)
      modifies this`fs
      ensures fs == Displaced(old(fs), dir, row, env.(moved := moved, copied := Refused))
    {
      moved := Refused;
      if row.original in fs {
        var q := Quarantine(dir, row.eventId, row.original);
        if |q| < PATH_MAX {
          q := QuarantineUnique(fs, q);
          var gone;
          gone, moved := MoveAway(row.original, q, env.renames, !env.moved.Refused?, script, env.unlinks);
        }
      }
    }

    /** `restore_one`. */
    method RestoreOne(row: ProtectedFile, env: Env, script: seq<CopyFd.Result>, script2: seq<CopyFd.Result>)
      returns (st: Status, moved: CopyEnd, copied: CopyEnd)
      modifies this
      ensures (st, fs) == RestoredOne(old(fs), dir, row, env.(moved := moved, copied := copied))
      ensures total == old(total) + 1
      ensures success == old(success) + (if st.Restored? then 1 else 0)
      ensures fail == old(fail) + (if st.Failed? then 1 else 0)
    {
      moved, copied := Refused, Refused;
      total := total + 1;
      if !row.pending {
        return Unchanged, moved, copied;
      }
      if !ValidPath(row.original) || row.backup !in fs {
        fail := fail + 1;
        return Failed, moved, copied;
      }
      ghost var before := fs;
      moved := Displace(row, env, script);
      var ok;
      ok, copied := CopyFile(row.backup, row.original, !env.copied.Refused?, script2);
      DisplacedAlike(before, dir, row, env.(moved := moved), copied, Refused);
      if !ok {
        fail := fail + 1;
        return Failed, moved, copied;
      }
      if env.consumes {
        fs := fs - {row.backup};
      }
      success := success + 1;
      return Restored, moved, copied;
    }

    /** `delete_created_one`. */
    method DeleteCreatedOne(eventId: string, path: string, env: Env, script: seq<CopyFd.Result>)
      returns (gone: bool, moved: CopyEnd)
      modifies this
      ensures (gone, fs) == DeletedOne(old(fs), dir, eventId, path, env.(moved := moved))
      ensures deleted == old(deleted) + (if gone then 1 else 0)
      ensures undeleted == old(undeleted) + (if gone then 0 else 1)
    {
      gone, moved := false, Refused;
      if !ValidPath(path) {
        undeleted := undeleted + 1;
        return;
      }
      if path !in fs {
        deleted := deleted + 1;
        return true, moved;
      }
      match fs[path] {
      case File(_) =>
        var q := QuarantineUnique(fs, CutPath(Quarantine(dir, eventId, path)));
        gone, moved := MoveAway(path, q, env.renames, !env.moved.Refused?, script, env.unlinks);
      case Symlink =>
        if env.unlinks {
          fs := fs - {path};
          gone := true;
        }
      case Directory(empty) =>
        if empty && env.unlinks {
          fs := fs - {path};
          gone := true;
        }
      }
      if gone {
        deleted := deleted + 1;
      } else {
        undeleted := undeleted + 1;
      }
    }
  }
}
