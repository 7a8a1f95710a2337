/**
  The copy behind every backup and restore: reflink, then in-kernel copy, then read and write, each
  taking over where the one before stopped, under any results of the system calls.
 */
module CopyFd {
  import opened Base

  /** How one system call turns out; the system never moves more than was asked for and is there. */
  datatype Result = Interrupted | Failed | Moved(n: nat)

  const RANGE_MAX: nat := 0x10_0000
  const BUFFER: nat := 0x1_0000

  /** `data` written over the old bytes from `at` on. */
  function Overwrite(old_: seq<byte>, at: nat, data: seq<byte>): (r: seq<byte>)
    requires at <= |old_|
  {
    old_[..at] + data + (if at + |data| < |old_| then old_[at + |data|..] else [])
  }

  /** The first `k` bytes of the source over the old bytes of the destination. */
  function Overlay(src: seq<byte>, k: nat, was: seq<byte>): (r: seq<byte>)
    requires k <= |src|
  {
    src[..k] + (if k < |was| then was[k..] else [])
  }

  lemma OverlayGrows(src: seq<byte>, k: nat, n: nat, was: seq<byte>)
    requires k + n <= |src|
    ensures k <= |Overlay(src, k, was)|
    ensures Overwrite(Overlay(src, k, was), k, src[k..k + n]) == Overlay(src, k + n, was)
  {
    var a, data := Overlay(src, k, was), src[k..k + n];
    assert src[..k + n] == src[..k] + data;
    assert a[..k] == src[..k];
    if k + n < |was| {
      assert a[k + n..] == was[k + n..];
    }
  }

  lemma SliceOfSlice(s: seq<byte>, at: nat, n: nat, w: nat, k: nat)
    requires at + n <= |s| && w + k <= n
    ensures s[at..at + n][w..w + k] == s[at + w..at + w + k]
  {
    var a, b := s[at..at + n][w..w + k], s[at + w..at + w + k];
    assert |a| == |b|;
    assert forall i :: 0 <= i < k ==> a[i] == s[at + w + i] == b[i];
  }

  /** Every call moves something. */
  ghost predicate Diligent(script: seq<Result>) {
    forall i :: 0 <= i < |script| ==> script[i].Moved? && script[i].n > 0
  }

  class Copier {
    const src: seq<byte>
    var dst: seq<byte>
    /** Results still to come; none left means that every further call fails. */
    var script: seq<Result>

    constructor (src: seq<byte>, dst: seq<byte>, script: seq<Result>)
      ensures this.src == src && this.dst == dst && this.script == script
    {
      this.src, this.dst, this.script := src, dst, script;
    }

    method NextResult() returns (r: Result)
      modifies this`script
      ensures if old(script) == [] then r == Failed && script == []
              else r == old(script)[0] && script == old(script)[1..]
    {
      if script == [] {
        return Failed;
      }
      r := script[0];
      script := script[1..];
    }

    /** `copy_file_range` until the size is reached or it gives up. */
    method CopyRange(size: nat, ghost was: seq<byte>) returns (total: nat)
      requires dst == Overlay(src, 0, was)
      modifies this`dst, this`script
      ensures total <= |src| && total <= size && dst == Overlay(src, total, was)
      ensures Diligent(old(script)) && size <= |src| && size <= |old(script)| ==> total == size
    {
      total := 0;
      while total < size
        invariant total <= |src| && total <= size && dst == Overlay(src, total, was)
        invariant Diligent(old(script)) ==> Diligent(script)
        invariant Diligent(old(script)) && size <= |old(script)| ==> size - total <= |script|
        decreases |script|
      {
        var want := if size - total < RANGE_MAX then size - total else RANGE_MAX;
        var r := NextResult();
        if r.Interrupted? {
          continue;
        }
        var n := if r.Moved? then Min(r.n, Min(want, |src| - total)) else 0;
        if n == 0 {
          break;
        }
        OverlayGrows(src, total, n, was);
        dst := Overwrite(dst, total, src[total..total + n]);
        total := total + n;
      }
    }

    /** `write` until the buffer is out; `w` is how much of it is. */
    method WriteAll(at: nat, n: nat, ghost was: seq<byte>) returns (ok: bool, w: nat)
      requires at + n <= |src| && dst == Overlay(src, at, was)
      modifies this`dst, this`script
      ensures w <= n && dst == Overlay(src, at + w, was) && (ok ==> w == n)
      ensures |script| <= |old(script)|
    {
      w := 0;
      var buf := src[at..at + n];
      while w < n
        invariant w <= n && dst == Overlay(src, at + w, was)
        invariant |script| <= |old(script)|
        decreases n - w
      {
        var r := NextResult();
        var k := if r.Moved? then Min(r.n, n - w) else 0;
        if k == 0 {
          return false, w;
        }
        SliceOfSlice(src, at, n, w, k);
        OverlayGrows(src, at + w, k, was);
        dst := Overwrite(dst, at + w, buf[w..w + k]);
        w := w + k;
      }
      return true, w;
    }

    /** `read` and `write` from where the in-kernel copy stopped. */
    method ReadWrite(size: nat, from: nat, ghost was: seq<byte>) returns (ok: bool, total: nat, ghost written: nat)
      requires from <= |src| && dst == Overlay(src, from, was)
      modifies this`dst, this`script
      ensures written <= |src| && dst == Overlay(src, written, was) && total <= written
      ensures !ok ==> total < size
    {
      total := from;
      written := from;
      while total < size
        invariant total == written <= |src| && dst == Overlay(src, total, was)
        decreases |script|
      {
        var r := NextResult();
        if r.Interrupted? {
          continue;
        }
        var n := if r.Moved? then Min(r.n, Min(BUFFER, |src| - total)) else 0;
        if n == 0 {
          break;
        }
        var ok, w := WriteAll(total, n, was);
        written := total + w;
        if !ok {
          return false, total, written;
        }
        total := total + n;
      }
      ok := true;
    }

    /**
      `rguard_copy_fd`. Without a reflink the destination always holds a first part of the source
      over its old bytes, and 0 comes back only if that part reaches `size`.
     */
    method Copy(size: nat, reflinks: bool, seeks: bool) returns (rc: int, ghost written: nat)
      modifies this`dst, this`script
      ensures rc == 0 || rc == -1
      ensures written <= |src|
      ensures reflinks ==> rc == 0 && dst == src
      ensures !reflinks ==> dst == Overlay(src, written, old(dst)) && (rc == 0 ==> size <= written)
      ensures Diligent(old(script)) && size <= |src| && size <= |old(script)| ==> rc == 0
    {
      if reflinks {
        dst := src;
        return 0, |src|;
      }
      ghost var was := dst;
      assert dst == Overlay(src, 0, was);
      var total := CopyRange(size, was);
      written := total;
      if total < size {
        if !seeks {
          return -1, written;
        }
        var ok;
        ok, total, written := ReadWrite(size, total, was);
        if !ok {
          return -1, written;
        }
      }
      rc := if total >= size then 0 else -1;
    }

    /** What a backup relies on: 0 means a true copy, and a short source never gives 0. */
    method CopyWhole(size: nat, reflinks: bool, seeks: bool) returns (rc: int)
      modifies this`dst, this`script
      ensures rc == 0 || rc == -1
      ensures rc == 0 && size <= |src| ==> size <= |dst| && dst[..size] == src[..size]
      ensures !reflinks && |src| < size ==> rc == -1
      ensures rc == 0 && size == |src| && old(dst) == [] ==> dst == src
      ensures Diligent(old(script)) && size <= |src| && size <= |old(script)| ==> rc == 0
    {
      ghost var written;
      rc, written := Copy(size, reflinks, seeks);
    }
  }
}
