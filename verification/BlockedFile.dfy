/**
  The blocked file: one address per line, rewritten by the daemon and the recovery tool under a
  lock, and read without it by the file-server module.
 */
module BlockedFile {
  import opened Base

  //
  // Lines
  //

  /** Length of the first line. */
  function Eol(t: string): (e: nat)
    ensures e <= |t| && '\n' !in t[..e] && (e < |t| ==> t[e] == '\n')
  {
    if t == [] || t[0] == '\n' then 0
    else
      var e := Eol(t[1..]);
      assert t[..e + 1] == [t[0]] + t[1..][..e];
      e + 1
  }

  /** The lines of a text; a last line without its newline counts unless it is empty. */
  function Lines(t: string): (ls: seq<string>)
    decreases |t|
  {
    if t == [] then []
    else
      var e := Eol(t);
      if e == |t| then [t] else [t[..e]] + Lines(t[e + 1..])
  }

  function Join(ls: seq<string>): (t: string) {
    if ls == [] then [] else ls[0] + "\n" + Join(ls[1..])
  }

  function Without(ls: seq<string>, l: string): (r: seq<string>) {
    if ls == [] then [] else (if ls[0] == l then [] else [ls[0]]) + Without(ls[1..], l)
  }

  /** What a client address must match to be refused. */
  ghost function Blocked(t: string): (s: set<string>) {
    set l | l in Lines(t) && l != []
  }

  /** The text with a line added, after completing the last line if that is open. */
  function Appended(t: string, ip: string): (r: string) {
    if t == [] || t[|t| - 1] == '\n' then t + ip + "\n" else t + "\n" + ip + "\n"
  }

  ghost predicate NoNewlines(ls: seq<string>) {
    forall l :: l in ls ==> '\n' !in l
  }

  lemma {:induction false} EolIs(t: string, e: nat)
    requires e <= |t| && '\n' !in t[..e] && (e < |t| ==> t[e] == '\n')
    ensures Eol(t) == e
  {
    if e > 0 {
      assert t[0] == t[..e][0];
      assert t[1..][..e - 1] == t[..e][1..];
      EolIs(t[1..], e - 1);
    }
  }

  /** One complete line in front. */
  lemma LinesCons(l: string, t: string)
    requires '\n' !in l
    ensures Lines(l + "\n" + t) == [l] + Lines(t)
  {
    var whole := l + "\n" + t;
    assert whole[..|l|] == l && whole[|l| + 1..] == t;
    EolIs(whole, |l|);
  }

  lemma {:induction false} LinesOfJoin(ls: seq<string>)
    requires NoNewlines(ls)
    ensures Lines(Join(ls)) == ls
  {
    if ls != [] {
      assert ls[0] in ls;
      LinesOfJoin(ls[1..]);
      LinesCons(ls[0], Join(ls[1..]));
    }
  }

  lemma {:induction false} LinesHaveNoNewline(t: string)
    ensures NoNewlines(Lines(t))
    decreases |t|
  {
    if t != [] && Eol(t) < |t| {
      LinesHaveNoNewline(t[Eol(t) + 1..]);
    }
  }

  lemma {:induction false} LinesOfAppended(t: string, ip: string)
    requires ip != [] && '\n' !in ip
    ensures Lines(Appended(t, ip)) == Lines(t) + [ip]
    decreases |t|
  {
    var e := Eol(t);
    if t == [] {
      assert Appended(t, ip) == ip + "\n" + [];
      LinesCons(ip, []);
    } else if e == |t| {
      assert t[..e] == t;
      assert Appended(t, ip) == t + "\n" + (ip + "\n" + []);
      LinesCons(ip, []);
      LinesCons(t, ip + "\n" + []);
    } else {
      var l, rest := t[..e], t[e + 1..];
      assert t == l + "\n" + rest;
      AppendedCons(l, rest, ip);
      LinesOfAppended(rest, ip);
      LinesCons(l, Appended(rest, ip));
      LinesCons(l, rest);
    }
  }

  lemma AppendedCons(l: string, rest: string, ip: string)
    ensures Appended(l + "\n" + rest, ip) == l + "\n" + Appended(rest, ip)
  {
    var t := l + "\n" + rest;
    if rest == [] {
      assert t[|t| - 1] == '\n';
    } else {
      assert t[|t| - 1] == rest[|rest| - 1];
    }
  }

  lemma {:induction false} WithoutDrops(ls: seq<string>, l: string)
    ensures forall x :: x in Without(ls, l) <==> x in ls && x != l
  {
    if ls != [] {
      WithoutDrops(ls[1..], l);
      assert ls == [ls[0]] + ls[1..];
    }
  }

  lemma FirstLine(x: string) returns (l: string, rest: string)
    requires Eol(x) < |x|
    ensures '\n' !in l && x == l + "\n" + rest
  {
    var e := Eol(x);
    l, rest := x[..e], x[e + 1..];
  }

  lemma RegroupLines(l: string, rest: string, t: string)
    ensures l + "\n" + rest + "\n" + t == l + "\n" + (rest + "\n" + t)
  {
  }

  /** `Lines`, kept folded; `Unfold(0)` opens it. */
  ghost predicate HasLines(t: string, ls: seq<string>) {
    forall n: nat {:trigger Unfold(n)} :: Unfold(n) ==> Lines(t) == ls
  }

  lemma HasLinesCons(l: string, t: string, ls: seq<string>)
    requires '\n' !in l && HasLines(t, ls)
    ensures HasLines(l + "\n" + t, [l] + ls)
  {
    assert Unfold(0);
    LinesCons(l, t);
  }

  /** A newline always ends a line, so the lines before it and after it do not depend on each other. */
  lemma {:induction false} LinesAfterNewline(x: string, t: string, lt: seq<string>) returns (lx: seq<string>)
    requires HasLines(t, lt)
    ensures HasLines(x + "\n", lx) && HasLines(x + "\n" + t, lx + lt)
    decreases |x|
  {
    NoLines();
    if Eol(x) == |x| {
      assert x[..|x|] == x;
      HasLinesCons(x, t, lt);
      HasLinesCons(x, [], []);
      assert x + "\n" + [] == x + "\n";
      lx := [x];
    } else {
      var l, rest := FirstLine(x);
      RegroupLines(l, rest, t);
      RegroupLines(l, rest, []);
      var lr := LinesAfterNewline(rest, t, lt);
      HasLinesCons(l, rest + "\n" + t, lr + lt);
      HasLinesCons(l, rest + "\n", lr);
      assert l + "\n" + rest + "\n" == l + "\n" + (rest + "\n");
      lx := [l] + lr;
      assert lx + lt == [l] + (lr + lt);
    }
  }

  lemma NoLines()
    ensures HasLines([], [])
  {
  }

  /** The lines that an entry makes once it is written with its newline. */
  ghost function LinesOf(entries: seq<string>): (ls: seq<string>) {
    if entries == [] then [] else Lines(entries[0] + "\n") + LinesOf(entries[1..])
  }

  lemma {:induction false} LinesOfJoined(entries: seq<string>)
    ensures HasLines(Join(entries), LinesOf(entries))
  {
    NoLines();
    if entries != [] {
      LinesOfJoined(entries[1..]);
      var lx := LinesAfterNewline(entries[0], Join(entries[1..]), LinesOf(entries[1..]));
      SameLines(entries[0] + "\n", lx);
    }
  }

  lemma SameLines(t: string, ls: seq<string>)
    requires HasLines(t, ls)
    ensures Lines(t) == ls
  {
    assert Unfold(0);
  }

  lemma {:induction false} LinesOfMember(entries: seq<string>, l: string)
    ensures l in LinesOf(entries) <==> exists i :: 0 <= i < |entries| && l in Lines(entries[i] + "\n")
  {
    if entries != [] {
      LinesOfMember(entries[1..], l);
      if i :| 0 <= i < |entries[1..]| && l in Lines(entries[1..][i] + "\n") {
        assert l in Lines(entries[i + 1] + "\n");
      }
      if i :| 0 <= i < |entries| && l in Lines(entries[i] + "\n") {
        if i > 0 {
          assert l in Lines(entries[1..][i - 1] + "\n");
        }
      }
    }
  }

  /** Whatever else a joined text holds, a line put into it is one of its lines. */
  lemma {:induction false} JoinHas(ls: seq<string>, ip: string)
    requires ip in ls && '\n' !in ip
    ensures ip in Lines(Join(ls))
  {
    var lt := Lines(Join(ls[1..]));
    var lx := LinesAfterNewline(ls[0], Join(ls[1..]), lt);
    if ls[0] == ip {
      HasLinesCons(ip, Join(ls[1..]), lt);
    } else {
      assert ls == [ls[0]] + ls[1..];
      JoinHas(ls[1..], ip);
    }
    assert Unfold(0);
  }

  /** Blocking adds exactly the address. */
  lemma BlockedAppended(t: string, ip: string)
    requires ip != [] && '\n' !in ip
    ensures Blocked(Appended(t, ip)) == Blocked(t) + {ip}
  {
    LinesOfAppended(t, ip);
  }

  /** Unblocking removes exactly the address: nothing that begins with it or that it begins with. */
  lemma BlockedWithout(t: string, ip: string)
    ensures Lines(Join(Without(Lines(t), ip))) == Without(Lines(t), ip)
    ensures Blocked(Join(Without(Lines(t), ip))) == Blocked(t) - {ip}
  {
    LinesHaveNoNewline(t);
    WithoutDrops(Lines(t), ip);
    LinesOfJoin(Without(Lines(t), ip));
  }

  //
  // Scanning and rewriting
  //

  /** `ls` are the lines from position `p` on. Kept folded; `Unfold(0)` opens it. */
  ghost predicate LinesAre(t: string, p: nat, ls: seq<string>) {
    forall n: nat {:trigger Unfold(n)} :: Unfold(n) ==> p <= |t| && ls == Lines(t[p..])
  }

  /** The line that begins at `p` ends at `e`. */
  ghost predicate LineEndsAt(t: string, p: nat, e: nat) {
    p <= e <= |t| && '\n' !in t[p..e] && (e < |t| ==> t[e] == '\n')
  }

  lemma LinesStart(t: string)
    ensures LinesAre(t, 0, Lines(t))
  {
    assert t[0..] == t;
  }

  lemma LinesEnd(t: string, ls: seq<string>)
    requires LinesAre(t, |t|, ls)
    ensures ls == []
  {
    assert Unfold(0);
  }

  lemma LinesStep(t: string, p: nat, e: nat, ls: seq<string>)
    requires LinesAre(t, p, ls) && p < |t| && LineEndsAt(t, p, e)
    ensures ls != [] && ls[0] == t[p..e]
    ensures if e < |t| then LinesAre(t, e + 1, ls[1..]) else |ls| == 1
  {
    assert Unfold(0);
    var rest := t[p..];
    assert rest[..e - p] == t[p..e];
    EolIs(rest, e - p);
    if e < |t| {
      assert rest[e - p + 1..] == t[e + 1..];
    } else {
      assert rest == t[p..e];
    }
  }

  /** `memchr` for the newline, or the end of the text. */
  method LineEnd(text: string, p: nat) returns (e: nat)
    requires p <= |text|
    ensures LineEndsAt(text, p, e)
  {
    e := p;
    while e < |text| && text[e] != '\n'
      invariant p <= e <= |text| && '\n' !in text[p..e]
    {
      e := e + 1;
    }
  }

  /** `line_exists`, and the matcher of the file-server module. */
  method LineExists(text: string, key: string) returns (found: bool)
    ensures found <==> key in Lines(text)
  {
    LinesStart(text);
    found := SearchLines(text, key, Lines(text));
  }

  method SearchLines(text: string, key: string, ghost all: seq<string>) returns (found: bool)
    requires LinesAre(text, 0, all)
    ensures found <==> key in all
  {
    ghost var rest := all;
    var p: nat := 0;
    while p < |text|
      invariant p <= |text| && LinesAre(text, p, rest)
      invariant key in all <==> key in rest
      decreases |text| - p
    {
      var e := LineEnd(text, p);
      LinesStep(text, p, e, rest);
      if e - p == |key| && text[p..e] == key {
        return true;
      }
      if e == |text| {
        return false;
      }
      assert rest == [rest[0]] + rest[1..];
      p, rest := e + 1, rest[1..];
    }
    LinesEnd(text, rest);
    return false;
  }

  /** The block test of the file-server module: no client without an address is refused. */
  method IsBlocked(text: string, ip: string) returns (refused: bool)
    ensures refused <==> ip in Blocked(text)
  {
    if |text| == 0 || |ip| == 0 {
      return false;
    }
    refused := LineExists(text, ip);
  }

  /** `memcpy` into a buffer. */
  method CopyInto(buf: array<char>, at: nat, s: string)
    requires at + |s| <= buf.Length
    modifies buf
    ensures buf[..at] == old(buf[..at]) && buf[at..at + |s|] == s
  {
    for i := 0 to |s|
      invariant buf[..at] == old(buf[..at]) && buf[at..at + i] == s[..i]
    {
      buf[at + i] := s[i];
    }
  }

  lemma SplitAt(buf: seq<char>, i: nat, j: nat)
    requires i <= j <= |buf|
    ensures buf[..j] == buf[..i] + buf[i..j]
  {
  }

  /** A piece is put at the end of what a buffer holds. */
  method Push(buf: array<char>, len: nat, s: string) returns (newLen: nat)
    requires len + |s| <= buf.Length
    modifies buf
    ensures newLen == len + |s|
    ensures buf[..newLen] == old(buf[..len]) + s
  {
    CopyInto(buf, len, s);
    newLen := len + |s|;
    SplitAt(buf[..], len, newLen);
    assert buf[..][..newLen] == buf[..newLen] && buf[..][len..newLen] == buf[len..newLen] && buf[..][..len] == buf[..len];
  }

  /** The append path of `blocker_execute`, in a buffer of `len + iplen + 2` bytes. */
  method AppendLine(text: string, ip: string) returns (r: string)
    ensures r == Appended(text, ip)
  {
    var buf := new char[|text| + |ip| + 2];
    var len := Push(buf, 0, text);
    if len > 0 && text[len - 1] != '\n' {
      len := Push(buf, len, "\n");
    }
    len := Push(buf, len, ip);
    len := Push(buf, len, "\n");
    r := buf[..len];
  }

  lemma {:induction false} WithoutSnoc(ls: seq<string>, l: string, key: string)
    ensures Without(ls + [l], key) == if l == key then Without(ls, key) else Without(ls, key) + [l]
  {
    if ls == [] {
      assert [l][1..] == [];
    } else {
      assert (ls + [l])[1..] == ls[1..] + [l];
      WithoutSnoc(ls[1..], l, key);
    }
  }

  lemma {:induction false} JoinSnoc(ls: seq<string>, l: string)
    ensures Join(ls + [l]) == Join(ls) + (l + "\n")
  {
    if ls == [] {
      assert [l][1..] == [];
    } else {
      assert (ls + [l])[1..] == ls[1..] + [l];
      JoinSnoc(ls[1..], l);
    }
  }

  /** What the filter has to keep of the lines seen so far. */
  ghost function Filtered(seen: seq<string>, ip: string): (t: string) { Join(Without(seen, ip)) }

  lemma FilteredSnoc(seen: seq<string>, line: string, ip: string)
    ensures Filtered(seen + [line], ip) == Filtered(seen, ip) + (if line == ip then [] else line + "\n")
  {
    WithoutSnoc(seen, line, ip);
    if line != ip {
      JoinSnoc(Without(seen, ip), line);
    }
  }

  /** A line goes to the output unless it is the address. */
  method KeepLine(out: array<char>, len: nat, line: string, ip: string) returns (newLen: nat)
    requires len + |line| + 1 <= out.Length
    modifies out
    ensures len <= newLen <= len + |line| + 1
    ensures out[..newLen] == old(out[..len]) + (if line == ip then [] else line + "\n")
  {
    if |line| == |ip| && line == ip {
      return len;
    }
    newLen := Push(out, len, line);
    newLen := Push(out, newLen, "\n");
  }

  /** The filter loop of `blocker_unblock`, in a buffer of `len + 1` bytes. */
  method FilterLines(text: string, ip: string) returns (found: bool, r: string)
    ensures found <==> ip in Lines(text)
    ensures r == Join(Without(Lines(text), ip))
  {
    LinesStart(text);
    found, r := KeepLines(text, ip, Lines(text));
  }

  lemma OneLineMore(seen: seq<string>, rest: seq<string>, line: string, ip: string)
    requires rest != [] && rest[0] == line
    ensures seen + rest == (seen + [line]) + rest[1..]
    ensures ip in seen + [line] <==> ip in seen || line == ip
    ensures Filtered(seen + [line], ip) == Filtered(seen, ip) + (if line == ip then [] else line + "\n")
  {
    FilteredSnoc(seen, line, ip);
  }

  method KeepLines(text: string, ip: string, ghost all: seq<string>) returns (found: bool, r: string)
    requires LinesAre(text, 0, all)
    ensures found <==> ip in all
    ensures r == Filtered(all, ip)
  {
    var out := new char[|text| + 1];
    var len: nat := 0;
    found := false;
    var p: nat := 0;
    ghost var seen, rest := [], all;
    while p < |text|
      invariant len <= p <= |text| < out.Length
      invariant LinesAre(text, p, rest) && all == seen + rest
      invariant found <==> ip in seen
      invariant out[..len] == Filtered(seen, ip)
      decreases |text| - p
    {
      var e := LineEnd(text, p);
      LinesStep(text, p, e, rest);
      var line := text[p..e];
      if line == ip {
        found := true;
      }
      len := KeepLine(out, len, line, ip);
      OneLineMore(seen, rest, line, ip);
      seen, rest := seen + [line], rest[1..];
      if e == |text| {
        assert all == seen;
        return found, out[..len];
      }
      p := e + 1;
    }
    LinesEnd(text, rest);
    assert all == seen;
    r := out[..len];
  }

  //
  // Rebuilding from the lists
  //

  /** An entry that is a single address: networks and ranges are left to the daemon. */
  predicate Plain(entry: string) { entry != [] && '/' !in entry && '-' !in entry }

  function PlainOnes(entries: seq<string>): (r: seq<string>) {
    if entries == [] then []
    else PlainOnes(entries[..|entries| - 1]) + (if Plain(entries[|entries| - 1]) then [entries[|entries| - 1]] else [])
  }

  lemma {:induction false} PlainOnesAre(entries: seq<string>)
    ensures forall e :: e in PlainOnes(entries) <==> e in entries && Plain(e)
  {
    if entries != [] {
      PlainOnesAre(entries[..|entries| - 1]);
      assert entries == entries[..|entries| - 1] + [entries[|entries| - 1]];
    }
  }

  lemma PlainOnesSnoc(entries: seq<string>, i: nat)
    requires i < |entries|
    ensures PlainOnes(entries[..i + 1])
         == if Plain(entries[i]) then PlainOnes(entries[..i]) + [entries[i]] else PlainOnes(entries[..i])
  {
    assert entries[..i + 1][..i] == entries[..i];
  }

  /** `realloc` to a larger buffer. */
  method Grow(buf: array<char>, cap: nat) returns (r: array<char>)
    requires buf.Length <= cap
    ensures fresh(r) && r.Length == cap && r[..buf.Length] == buf[..]
  {
    r := new char[cap];
    CopyInto(r, 0, buf[..]);
  }

  /** The buffer that `blocker_sync_blacklist` builds; the manual entries come first. */
  method Rebuild(entries: seq<string>) returns (r: string)
    requires forall e :: e in entries ==> |e| + 2 <= 4096
    ensures r == Join(PlainOnes(entries))
  {
    var buf := new char[|entries| * 64 + 256];
    var len: nat := 0;
    assert entries[..0] == [];
    for i := 0 to |entries|
      invariant fresh(buf) && len <= buf.Length
      invariant buf[..len] == RebuiltFrom(entries[..i])
    {
      RebuiltSnoc(entries, i);
      if Plain(entries[i]) {
        buf, len := AddLine(buf, len, entries[i]);
      }
    }
    assert entries[..|entries|] == entries;
    r := buf[..len];
  }

  ghost function RebuiltFrom(entries: seq<string>): (t: string) { Join(PlainOnes(entries)) }

  lemma RebuiltSnoc(entries: seq<string>, i: nat)
    requires i < |entries|
    ensures RebuiltFrom(entries[..i + 1])
         == if Plain(entries[i]) then RebuiltFrom(entries[..i]) + (entries[i] + "\n") else RebuiltFrom(entries[..i])
  {
    PlainOnesSnoc(entries, i);
    if Plain(entries[i]) {
      JoinSnoc(PlainOnes(entries[..i]), entries[i]);
    }
  }

  /** One line more, in a larger buffer where it does not fit. */
  method AddLine(old_: array<char>, len: nat, s: string) returns (buf: array<char>, newLen: nat)
    requires len <= old_.Length && |s| + 2 <= 4096
    modifies old_
    ensures buf == old_ || fresh(buf)
    ensures newLen <= buf.Length && buf[..newLen] == old(old_[..len]) + (s + "\n")
  {
    buf := old_;
    if len + |s| + 2 > buf.Length {
      buf := Grow(buf, buf.Length + 4096);
      assert buf[..len] == buf[..old_.Length][..len] == old_[..len];
    }
    newLen := Push(buf, len, s);
    newLen := Push(buf, newLen, "\n");
  }

  /** What a list of entries blocks: the lines that its plain ones make. */
  ghost function BlockedBy(entries: seq<string>): (s: set<string>) {
    set l | l in LinesOf(PlainOnes(entries)) && l != []
  }

  /** A rebuilt file blocks exactly the non-empty lines of the plain entries. */
  lemma BlockedRebuilt(entries: seq<string>, l: string)
    ensures Blocked(Join(PlainOnes(entries))) == BlockedBy(entries)
    ensures l in BlockedBy(entries) <==>
            l != [] && exists e :: e in entries && e != [] && '/' !in e && '-' !in e && l in Lines(e + "\n")
  {
    var plain := PlainOnes(entries);
    LinesOfJoined(plain);
    SameLines(Join(plain), LinesOf(plain));
    PlainOnesAre(entries);
    LinesOfMember(plain, l);
    if e :| e in entries && Plain(e) && l in Lines(e + "\n") {
      var i :| 0 <= i < |plain| && plain[i] == e;
    }
    if i :| 0 <= i < |plain| && l in Lines(plain[i] + "\n") {
      assert plain[i] in plain;
    }
  }

  /** Entries of one line each are blocked themselves. */
  lemma PlainEntriesBlocked(entries: seq<string>)
    requires NoNewlines(entries)
    ensures BlockedBy(entries) == set e | e in entries && e != [] && '/' !in e && '-' !in e
  {
    PlainOnesAre(entries);
    var plain := PlainOnes(entries);
    LinesOfJoined(plain);
    SameLines(Join(plain), LinesOf(plain));
    LinesOfJoin(plain);
  }

  //
  // The operations on the file
  //

  /** How the system calls of one operation turn out. */
  datatype Io = Io(lockable: bool, readable: bool, writable: bool)

  /** Text that `inet_pton` may accept; the longest address has 45 characters. */
  predicate AddressText(s: string) {
    0 < |s| < 46 && forall c :: c in s ==> '0' <= c <= '9' || 'a' <= c <= 'f' || 'A' <= c <= 'F' || c == ':' || c == '.'
  }

  /** A recogniser of real addresses: any that accepts nothing but address text. */
  ghost predicate Sound(isIp: string -> bool) {
    forall s :: isIp(s) ==> AddressText(s)
  }

  /** The text after `blocker_execute`, and whether it returned 0. */
  function Executed(isIp: string -> bool, text: string, ip: Option<string>, io: Io): (r: (bool, string)) {
    if ip.None? || !isIp(ip.value) then (true, text)
    else if !io.lockable || !io.readable then (false, text)
    else if ip.value in Lines(text) then (true, text)
    else if !io.writable then (false, text)
    else (true, Appended(text, ip.value))
  }

  class BlockedList {
    /** The text of the file; a missing file reads as empty. */
    var text: string

    constructor (text: string)
      ensures this.text == text
    {
      this.text := text;
    }

    /** `blocker_execute`. */
    method Execute(isIp: string -> bool, ip: Option<string>, io: Io) returns (ok: bool)
      modifies this
      ensures (ok, text) == Executed(isIp, old(text), ip, io)
    {
      if ip.Some? && isIp(ip.value) {
        if !io.lockable || !io.readable {
          return false;
        }
        var found := LineExists(text, ip.value);
        if !found {
          var next := AppendLine(text, ip.value);
          if !io.writable {
            return false;
          }
          text := next;
        }
      }
      return true;
    }

    /** `blocker_unblock`: 0 when a line was removed, 1 when there was none, -1 on an error. */
    method Unblock(ip: string, io: Io) returns (rc: int)
      modifies this
      ensures rc == if !io.lockable || !io.readable then -1
                    else if ip !in Lines(old(text)) then 1
                    else if !io.writable then -1 else 0
      ensures text == if rc == 0 then Join(Without(Lines(old(text)), ip)) else old(text)
    {
      if !io.lockable || !io.readable {
        return -1;
      }
      var found, next := FilterLines(text, ip);
      if !found {
        return 1;
      }
      if !io.writable {
        return -1;
      }
      text := next;
      return 0;
    }

    /** `blocker_sync_blacklist`. */
    method Sync(manual: seq<string>, autos: seq<string>, io: Io)
      requires forall e :: e in manual + autos ==> |e| + 2 <= 4096
      modifies this
      ensures text == if io.lockable && io.writable then Join(PlainOnes(manual + autos)) else old(text)
    {
      var next := Rebuild(manual + autos);
      if io.lockable && io.writable {
        text := next;
      }
    }
  }

  /** What the file says after a block: the address if it is real, and nothing else that is new. */
  lemma ExecuteBlocks(isIp: string -> bool, text: string, ip: Option<string>, io: Io)
    requires Sound(isIp)
    ensures var (ok, after) := Executed(isIp, text, ip, io);
            Blocked(after) == if ok && ip.Some? && isIp(ip.value) then Blocked(text) + {ip.value} else Blocked(text)
  {
    if ip.Some? && isIp(ip.value) {
      assert AddressText(ip.value);
      BlockedAppended(text, ip.value);
    }
  }

  /**
    When `blocker_execute` returns 0: there is no real address to block, or the file can be locked
    and read and holds the address already, or it can be written as well.
   */
  lemma ExecuteSucceedsIff(isIp: string -> bool, text: string, ip: Option<string>, io: Io)
    requires Sound(isIp)
    ensures Executed(isIp, text, ip, io).0 <==>
            || ip.None? || !isIp(ip.value)
            || (io.lockable && io.readable && (ip.value in Blocked(text) || io.writable))
    ensures ip.Some? && ip.value in Blocked(text) ==> Executed(isIp, text, ip, io).1 == text
  {
    if ip.Some? && isIp(ip.value) {
      assert AddressText(ip.value);
    }
  }

  //
  // Any interleaving of the locked steps
  //

  datatype Job = Block(ip: string) | Unblock(ip: string) | Sync(entries: seq<string>)

  /** What each process has done so far. */
  datatype Phase = Waiting | Holding | Seen(text: string) | Written | Finished(ok: bool)

  datatype Shared = Shared(
    file: string,
    lock: Option<nat>,
    phases: seq<Phase>,
    /** The processes in the order in which they got the lock. */
    order: seq<nat>)

  datatype Action =
    | Acquire
    | Read      // the whole file (a rebuild makes no use of it)
    | Commit    // the rename of the new text over the file
    | Fail      // any system call that fails before the rename
    | Release

  ghost predicate RealJob(job: Job) {
    match job
    case Block(ip) => ip != [] && '\n' !in ip
    case Unblock(_) => true
    case Sync(_) => true
  }

  /** The text that a process writes, from the text it read. */
  ghost function NewText(job: Job, t: string): (r: string) {
    match job
    case Block(ip) => if ip in Lines(t) then t else Appended(t, ip)
    case Unblock(ip) => if ip in Lines(t) then Join(Without(Lines(t), ip)) else t
    case Sync(entries) => Join(PlainOnes(entries))
  }

  ghost predicate CanAct(w: Shared, p: nat, a: Action) {
    && p < |w.phases|
    && match a
       case Acquire => w.lock == None && w.phases[p] == Waiting
       case Read => w.phases[p] == Holding
       case Commit => w.phases[p].Seen?
       case Fail => w.phases[p].Waiting? || w.phases[p].Holding? || w.phases[p].Seen?
       case Release => w.phases[p].Written?
  }

  ghost function Act(w: Shared, jobs: seq<Job>, p: nat, a: Action): (r: Shared)
    requires |jobs| == |w.phases| && CanAct(w, p, a)
  {
    match a
    case Acquire => w.(lock := Some(p), phases := w.phases[p := Holding], order := w.order + [p])
    case Read => w.(phases := w.phases[p := Seen(w.file)])
    case Commit => w.(file := NewText(jobs[p], w.phases[p].text), phases := w.phases[p := Written])
    case Fail => w.(lock := if w.phases[p].Waiting? then w.lock else None, phases := w.phases[p := Finished(false)])
    case Release => w.(lock := None, phases := w.phases[p := Finished(true)])
  }

  ghost predicate IsRun(start: string, jobs: seq<Job>, moves: seq<(nat, Action)>, ws: seq<Shared>) {
    && |ws| == |moves| + 1
    && ws[0] == Shared(start, None, seq(|jobs|, _ => Waiting), [])
    && (forall i :: 0 <= i < |ws| ==> |ws[i].phases| == |jobs|)
    && forall i :: 0 <= i < |moves| ==>
         CanAct(ws[i], moves[i].0, moves[i].1) && ws[i + 1] == Act(ws[i], jobs, moves[i].0, moves[i].1)
  }

  predicate HasWritten(ph: Phase) { ph.Written? || ph == Finished(true) }

  predicate InLock(ph: Phase) { ph.Holding? || ph.Seen? || ph.Written? }

  ghost predicate InJobs(order: seq<nat>, n: nat) {
    forall i :: 0 <= i < |order| ==> order[i] < n
  }

  /** The jobs that took effect, in lock order. */
  ghost function Effective(jobs: seq<Job>, phases: seq<Phase>, order: seq<nat>): (r: seq<Job>)
    requires |jobs| == |phases| && InJobs(order, |jobs|)
  {
    if order == [] then []
    else
      var p := order[|order| - 1];
      Effective(jobs, phases, order[..|order| - 1]) + (if HasWritten(phases[p]) then [jobs[p]] else [])
  }

  ghost function AllTexts(start: string, js: seq<Job>): (r: string) {
    if js == [] then start else NewText(js[|js| - 1], AllTexts(start, js[..|js| - 1]))
  }

  ghost predicate Consistent(start: string, jobs: seq<Job>, w: Shared) {
    && |w.phases| == |jobs|
    && InJobs(w.order, |jobs|)
    && Distinct(w.order)
    && (forall p :: 0 <= p < |jobs| ==>
          && (InLock(w.phases[p]) ==> w.lock == Some(p) && w.order != [] && w.order[|w.order| - 1] == p)
          && (w.phases[p].Seen? ==> w.phases[p].text == w.file)
          && (w.phases[p].Waiting? ==> p !in w.order))
    && w.file == AllTexts(start, Effective(jobs, w.phases, w.order))
  }

  /** Only whether a process has written matters to what took effect. */
  lemma {:induction false} EffectiveSame(jobs: seq<Job>, ph: seq<Phase>, ph': seq<Phase>, order: seq<nat>)
    requires |jobs| == |ph| == |ph'| && InJobs(order, |jobs|)
    requires forall i :: 0 <= i < |order| ==> (HasWritten(ph[order[i]]) <==> HasWritten(ph'[order[i]]))
    ensures Effective(jobs, ph, order) == Effective(jobs, ph', order)
  {
    if order != [] {
      EffectiveSame(jobs, ph, ph', order[..|order| - 1]);
    }
  }

  /** A step that neither takes the lock nor writes leaves what took effect as it was. */
  lemma QuietAct(start: string, jobs: seq<Job>, w: Shared, p: nat, a: Action)
    requires Consistent(start, jobs, w) && CanAct(w, p, a) && (a.Read? || a.Fail? || a.Release?)
    ensures Consistent(start, jobs, Act(w, jobs, p, a))
  {
    var w' := Act(w, jobs, p, a);
    assert forall q :: 0 <= q < |jobs| && q != p ==> w'.phases[q] == w.phases[q];
    assert HasWritten(w'.phases[p]) <==> HasWritten(w.phases[p]);
    EffectiveSame(jobs, w.phases, w'.phases, w.order);
  }

  lemma AcquireAct(start: string, jobs: seq<Job>, w: Shared, p: nat)
    requires Consistent(start, jobs, w) && CanAct(w, p, Acquire)
    ensures Consistent(start, jobs, Act(w, jobs, p, Acquire))
  {
    var w' := Act(w, jobs, p, Acquire);
    assert w'.order[..|w.order|] == w.order;
    EffectiveSame(jobs, w.phases, w'.phases, w.order);
    var js := Effective(jobs, w.phases, w.order);
    assert Effective(jobs, w'.phases, w'.order) == js + [] == js;
    assert p !in w.order;
    assert Distinct(w'.order);
  }

  lemma CommitAct(start: string, jobs: seq<Job>, w: Shared, p: nat)
    requires Consistent(start, jobs, w) && CanAct(w, p, Commit)
    ensures Consistent(start, jobs, Act(w, jobs, p, Commit))
  {
    var w' := Act(w, jobs, p, Commit);
    var n := |w.order| - 1;
    EffectiveSame(jobs, w.phases, w'.phases, w.order[..n]);
    var js := Effective(jobs, w.phases, w.order);
    assert js == Effective(jobs, w.phases, w.order[..n]);
    assert Effective(jobs, w'.phases, w'.order) == js + [jobs[p]];
    assert (js + [jobs[p]])[..|js|] == js;
  }

  /** The lock is held only by a process between its acquisition and its release, failed ones let it go. */
  lemma {:induction false} LockIsInUse(start: string, jobs: seq<Job>, moves: seq<(nat, Action)>, ws: seq<Shared>, n: nat)
    requires IsRun(start, jobs, moves, ws) && n < |ws|
    ensures forall p :: ws[n].lock == Some(p) ==>
              p < |jobs| && (ws[n].phases[p].Holding? || ws[n].phases[p].Seen? || ws[n].phases[p].Written?)
  {
    if n > 0 {
      LockIsInUse(start, jobs, moves, ws, n - 1);
      LockStep(start, jobs, ws[n - 1], moves[n - 1].0, moves[n - 1].1);
      FileIsSequential(start, jobs, moves, ws, n - 1);
    }
  }

  lemma LockStep(start: string, jobs: seq<Job>, w: Shared, p: nat, a: Action)
    requires |w.phases| == |jobs| && CanAct(w, p, a)
    ensures var w' := Act(w, jobs, p, a);
            Consistent(start, jobs, w) ==>
              (forall q :: w.lock == Some(q) ==> q < |jobs| && InLock(w.phases[q])) ==>
                forall q :: w'.lock == Some(q) ==> q < |jobs| && InLock(w'.phases[q])
  {
  }

  /** At every moment the file is what the jobs that took effect make of it, in lock order. */
  lemma {:induction false} FileIsSequential(
      start: string, jobs: seq<Job>, moves: seq<(nat, Action)>, ws: seq<Shared>, n: nat)
    requires IsRun(start, jobs, moves, ws) && n < |ws|
    ensures Consistent(start, jobs, ws[n])
  {
    if n > 0 {
      FileIsSequential(start, jobs, moves, ws, n - 1);
      var w, p := ws[n - 1], moves[n - 1].0;
      match moves[n - 1].1 {
      case Acquire => AcquireAct(start, jobs, w, p);
      case Commit => CommitAct(start, jobs, w, p);
      case Read | Fail | Release => QuietAct(start, jobs, w, p, moves[n - 1].1);
      }
    }
  }

  /** A job as an operation on a set of addresses. */
  ghost function OnSet(s: set<string>, job: Job): (r: set<string>) {
    match job
    case Block(ip) => s + {ip}
    case Unblock(ip) => s - {ip}
    case Sync(entries) => BlockedBy(entries)
  }

  ghost function AllOnSet(s: set<string>, js: seq<Job>): (r: set<string>) {
    if js == [] then s else OnSet(AllOnSet(s, js[..|js| - 1]), js[|js| - 1])
  }

  lemma {:induction false} TextsAreSets(start: string, js: seq<Job>)
    requires forall j :: j in js ==> RealJob(j)
    ensures Blocked(AllTexts(start, js)) == AllOnSet(Blocked(start), js)
  {
    if js != [] {
      var job, t := js[|js| - 1], AllTexts(start, js[..|js| - 1]);
      TextsAreSets(start, js[..|js| - 1]);
      assert job in js;
      match job {
      case Block(ip) => BlockedAppended(t, ip);
      case Unblock(ip) => BlockedWithout(t, ip);
      case Sync(entries) => BlockedRebuilt(entries, []);
      }
    }
  }

  lemma {:induction false} EffectiveAreJobs(jobs: seq<Job>, phases: seq<Phase>, order: seq<nat>)
    requires |jobs| == |phases| && InJobs(order, |jobs|)
    ensures forall j :: j in Effective(jobs, phases, order) ==> j in jobs
  {
    if order != [] {
      EffectiveAreJobs(jobs, phases, order[..|order| - 1]);
    }
  }

  /**
    In every interleaving, and at every moment, a reader finds the set that the jobs which took
    effect make of the first set when they are applied one after the other in lock order.
   */
  lemma InterleavingsAreSetOperations(
      start: string, jobs: seq<Job>, moves: seq<(nat, Action)>, ws: seq<Shared>, n: nat)
    requires IsRun(start, jobs, moves, ws) && n < |ws|
    requires forall j :: j in jobs ==> RealJob(j)
    ensures InJobs(ws[n].order, |jobs|)
    ensures Blocked(ws[n].file) == AllOnSet(Blocked(start), Effective(jobs, ws[n].phases, ws[n].order))
  {
    FileIsSequential(start, jobs, moves, ws, n);
    EffectiveAreJobs(jobs, ws[n].phases, ws[n].order);
    TextsAreSets(start, Effective(jobs, ws[n].phases, ws[n].order));
  }
}
