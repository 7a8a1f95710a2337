/**
  The policy questions of the daemon: is a path excepted, is a client on the white- or the
  blacklist. Each fast answer is proved equal to a plain check over the configured entries.
 */
module PolicyLookup {
  import opened Base
  import opened HashLookup
  import opened Bits

  /** A list of the policy as the loader leaves it. */
  class HashedList {
    const hash: Hash
    const hashes: array<nat>
    const rows: array<Row>
    const count: nat
    /** The rows in the order of the configuration file. */
    ghost const configured: seq<Row>

    ghost predicate Valid()
      reads hashes, rows
    {
      && count <= hashes.Length && count <= rows.Length
      && Indexed(hash, hashes[..count], rows[..count])
      && multiset(rows[..count]) == multiset(configured)
    }

    constructor (hash: Hash, configured: seq<Row>)
      ensures Valid() && fresh(hashes) && fresh(rows)
      ensures this.hash == hash && this.configured == configured
    {
      this.hash := hash;
      this.configured := configured;
      count := |configured|;
      hashes := new nat[|configured|](_ => 0);
      rows := new Row[|configured|](i requires 0 <= i < |configured| => configured[i]);
      new;
      assert rows[..count] == configured;
      Index(hash, hashes, rows, count);
    }

    method Has(key: string) returns (found: bool)
      requires Valid()
      ensures found <==> key != [] && Listed(configured, key)
    {
      found := Find(hash, hashes, rows, count, key);
      ListedInAnyOrder(rows[..count], configured, key);
    }
  }

  //
  // Addresses
  //

  /** An IPv4 address in host byte order. */
  type Address = x: int | 0 <= x < 0x1_0000_0000

  /** `inet_aton` and `atoi`. */
  datatype Net = Net(aton: string -> Option<Address>, atoi: string -> int)

  /** What fits a 64-byte buffer with its terminator. */
  function CutEntry(s: string): (r: string) { if |s| < 64 then s else s[..63] }

  /** Index of the first `c`, if any. */
  function IndexOf(s: string, c: char): (r: Option<nat>)
    ensures r.Some? ==> r.value < |s| && s[r.value] == c && c !in s[..r.value]
    ensures r.None? ==> c !in s
  {
    if s == [] then None
    else if s[0] == c then Some(0)
    else
      var r := IndexOf(s[1..], c);
      if r.None? then None
      else
        assert s[..r.value + 1] == [s[0]] + s[1..][..r.value];
        Some(r.value + 1)
  }

  /** The mask of a prefix: the complement of a block of `32 - prefix` low ones. */
  function NetMask(prefix: nat): (m: int)
    requires prefix <= 32
    ensures m >= 0
  {
    PowGrows(32 - prefix, 32);
    assert Pow2(32) == TWO_32 by { PowOf32(); }
    if prefix == 0 then 0 else UINT32_MAX - (Pow2(32 - prefix) - 1)
  }

  lemma PowOf32()
    ensures Pow2(32) == TWO_32
  {
    assert Pow2(8) == 256;
    assert Pow2(16) == 256 * 256;
    assert Pow2(24) == 256 * 256 * 256;
  }

  predicate SameNet(a: Address, net: Address, prefix: nat)
    requires prefix <= 32
  {
    And(a, NetMask(prefix)) == And(net, NetMask(prefix))
  }

  /** Between two ends, in either order. */
  predicate Between(a: int, x: int, y: int) {
    if x > y then y <= a <= x else x <= a <= y
  }

  /** The first and the last address of a network. */
  function First(net: Address, prefix: nat): (a: nat)
    requires prefix <= 32
  {
    And(net, NetMask(prefix))
  }

  function Last(net: Address, prefix: nat): (a: nat)
    requires prefix <= 32
  {
    First(net, prefix) + Pow2(32 - prefix) - 1
  }

  /** `a` with its `k` low bits cleared. */
  ghost function Floor(a: nat, k: nat): (r: nat) {
    if k == 0 then a else 2 * Floor(a / 2, k - 1)
  }

  /** Masking keeps all but the `k` low bits of a number of `n` bits. */
  lemma {:induction false} MaskFloors(a: nat, n: nat, k: nat)
    requires k <= n && a < Pow2(n) && Pow2(k) <= Pow2(n)
    ensures And(a, Pow2(n) - Pow2(k)) == Floor(a, k)
  {
    if k > 0 {
      PowGrows(k - 1, n - 1);
      MaskFloors(a / 2, n - 1, k - 1);
      AndStep(a, Pow2(n - 1) - Pow2(k - 1));
    } else if n > 0 {
      MaskFloors(a / 2, n - 1, 0);
      AndStep(a, Pow2(n - 1) - 1);
    }
  }

  /** Numbers that agree but for `k` low bits form an interval of 2^k numbers. */
  lemma {:induction false} FloorIsInterval(a: nat, b: nat, k: nat)
    ensures Floor(a, k) == Floor(b, k) <==> Floor(b, k) <= a < Floor(b, k) + Pow2(k)
  {
    if k > 0 {
      FloorIsInterval(a / 2, b / 2, k - 1);
    }
  }

  /** A prefix accepts exactly the interval from its first to its last address, in either order. */
  lemma CidrIsInterval(a: Address, net: Address, prefix: nat)
    requires prefix <= 32
    ensures SameNet(a, net, prefix) <==> Between(a, First(net, prefix), Last(net, prefix))
    ensures SameNet(a, net, prefix) <==> Between(a, Last(net, prefix), First(net, prefix))
    ensures Between(net, First(net, prefix), Last(net, prefix))
  {
    var k := 32 - prefix;
    PowOf32();
    PowGrows(k, 32);
    MaskFloors(a, 32, k);
    MaskFloors(net, 32, k);
    FloorIsInterval(a, net, k);
    FloorIsInterval(net, net, k);
  }

  /** `ip_in_cidr`. */
  predicate InCidr(net: Net, ip: string, entry: string) {
    var buf := CutEntry(entry);
    var slash := IndexOf(buf, '/');
    slash.Some? &&
    var prefix := net.atoi(buf[slash.value + 1..]);
    var base, addr := net.aton(buf[..slash.value]), net.aton(ip);
    0 <= prefix <= 32 && base.Some? && addr.Some? && SameNet(addr.value, base.value, prefix)
  }

  /** `ip_in_range`. */
  predicate InRange(net: Net, ip: string, entry: string) {
    var buf := CutEntry(entry);
    var dash := IndexOf(buf, '-');
    dash.Some? &&
    var start, end, addr := net.aton(buf[..dash.value]), net.aton(buf[dash.value + 1..]), net.aton(ip);
    start.Some? && end.Some? && addr.Some? && Between(addr.value, start.value, end.value)
  }

  /** A range that is written with the two ends of a prefix, in either order. */
  ghost predicate Spells(net: Net, range: string, cidr: string) {
    var r, c := CutEntry(range), CutEntry(cidr);
    var dash, slash := IndexOf(r, '-'), IndexOf(c, '/');
    && dash.Some? && slash.Some?
    && var base, prefix := net.aton(c[..slash.value]), net.atoi(c[slash.value + 1..]);
    && base.Some? && 0 <= prefix <= 32
    && var start, end := net.aton(r[..dash.value]), net.aton(r[dash.value + 1..]);
    && start.Some? && end.Some?
    && {start.value, end.value} == {First(base.value, prefix), Last(base.value, prefix)}
  }

  /** A prefix and the range from its first to its last address accept the same clients. */
  lemma CidrEqualsRange(net: Net, ip: string, cidr: string, range: string)
    requires Spells(net, range, cidr)
    ensures InCidr(net, ip, cidr) <==> InRange(net, ip, range)
  {
    var r, c := CutEntry(range), CutEntry(cidr);
    var dash, slash := IndexOf(r, '-').value, IndexOf(c, '/').value;
    var base, prefix := net.aton(c[..slash]).value, net.atoi(c[slash + 1..]);
    var start, end := net.aton(r[..dash]).value, net.aton(r[dash + 1..]).value;
    if net.aton(ip).Some? {
      var a := net.aton(ip).value;
      var first, last := First(base, prefix), Last(base, prefix);
      CidrIsInterval(a, base, prefix);
      EitherOrder(start, end, first, last, a);
    }
  }

  lemma EitherOrder(x: int, y: int, first: int, last: int, a: int)
    requires {x, y} == {first, last}
    ensures Between(a, x, y) <==> Between(a, first, last)
  {
    assert x in {first, last} && y in {first, last};
    assert first in {x, y} && last in {x, y};
  }

  //
  // White- and blacklist
  //

  /** How one entry that is a network or a range accepts an address. */
  predicate Covers(net: Net, entry: string, ip: string) {
    if '/' in entry then InCidr(net, ip, entry)
    else '-' in entry && InRange(net, ip, entry)
  }

  ghost predicate SomeCovers(net: Net, entries: seq<Row>, ip: string) {
    exists k :: 0 <= k < |entries| && Covers(net, entries[k].text, ip)
  }

  /** The plain check: the user is listed, or the address is listed or covered by an entry. */
  ghost predicate ListsClient(net: Net, users: seq<Row>, ips: seq<Row>, user: Option<string>, ip: Option<string>) {
    || (user.Some? && user.value != [] && Listed(users, user.value))
    || (ip.Some? && ((ip.value != [] && Listed(ips, ip.value)) || SomeCovers(net, ips, ip.value)))
  }

  lemma CoversInAnyOrder(net: Net, rs: seq<Row>, ts: seq<Row>, ip: string)
    requires multiset(rs) == multiset(ts)
    ensures SomeCovers(net, rs, ip) <==> SomeCovers(net, ts, ip)
  {
    if SomeCovers(net, rs, ip) {
      var k :| 0 <= k < |rs| && Covers(net, rs[k].text, ip);
      assert rs[k] in multiset(ts);
    }
    if SomeCovers(net, ts, ip) {
      var k :| 0 <= k < |ts| && Covers(net, ts[k].text, ip);
      assert ts[k] in multiset(rs);
    }
  }

  method ScanNetworks(net: Net, list: HashedList, ip: string) returns (found: bool)
    requires list.Valid()
    ensures found <==> SomeCovers(net, list.configured, ip)
  {
    CoversInAnyOrder(net, list.rows[..list.count], list.configured, ip);
    for i := 0 to list.count
      invariant !SomeCovers(net, list.rows[..i], ip)
    {
      var entry := list.rows[i].text;
      assert list.rows[..i + 1] == list.rows[..i] + [list.rows[i]];
      if '/' in entry {
        if InCidr(net, ip, entry) {
          assert list.rows[..list.count][i] == list.rows[i];
          return true;
        }
      } else if '-' in entry {
        if InRange(net, ip, entry) {
          assert list.rows[..list.count][i] == list.rows[i];
          return true;
        }
      }
    }
    return false;
  }

  /** `scorer_is_whitelisted`, and the manual part of `scorer_is_blacklisted`. */
  method IsListed(net: Net, users: HashedList, ips: HashedList, user: Option<string>, ip: Option<string>)
    returns (found: bool)
    requires users.Valid() && ips.Valid()
    ensures found <==> ListsClient(net, users.configured, ips.configured, user, ip)
  {
    if user.Some? {
      found := users.Has(user.value);
      if found {
        return true;
      }
    }
    if ip.Some? {
      found := ips.Has(ip.value);
      if found {
        return true;
      }
      found := ScanNetworks(net, ips, ip.value);
      return;
    }
    return false;
  }

  /** How an entry of the automatic list accepts an address. */
  predicate AutoCovers(net: Net, entry: string, ip: string) {
    entry != [] && (ip == entry || ('/' in entry && InCidr(net, ip, entry)) || ('-' in entry && InRange(net, ip, entry)))
  }

  ghost predicate SomeAutoCovers(net: Net, autos: seq<string>, ip: string) {
    exists k :: 0 <= k < |autos| && AutoCovers(net, autos[k], ip)
  }

  /** `scorer_is_blacklisted`: the manual lists as above, or an entry of the automatic list. */
  method IsBlacklisted(net: Net, users: HashedList, ips: HashedList, autos: seq<string>, user: Option<string>,
      ip: Option<string>)
    returns (found: bool)
    requires users.Valid() && ips.Valid()
    ensures found <==>
      || ListsClient(net, users.configured, ips.configured, user, ip)
      || (ip.Some? && SomeAutoCovers(net, autos, ip.value))
  {
    found := IsListed(net, users, ips, user, ip);
    if found || ip.None? {
      return;
    }
    var addr := ip.value;
    for i := 0 to |autos|
      invariant forall k :: 0 <= k < i ==> !AutoCovers(net, autos[k], addr)
    {
      var entry := autos[i];
      if entry == [] {
        continue;
      }
      if addr == entry {
        return true;
      }
      if '/' in entry && InCidr(net, addr, entry) {
        return true;
      }
      if '-' in entry && InRange(net, addr, entry) {
        return true;
      }
    }
    return false;
  }

  //
  // Exceptions
  //

  /** The path ends with `entry`, which begins just after a slash. */
  predicate EndsAfterSlash(path: string, entry: string) {
    && 0 < |entry| < |path|
    && path[|path| - |entry|..] == entry
    && path[|path| - |entry| - 1] == '/'
  }

  /** `path[..d]` is the whole path or one of its ancestors. */
  predicate Boundary(path: string, d: nat) {
    0 < d <= |path| && (d == |path| || path[d] == '/')
  }

  ghost predicate FolderAbove(path: string, folders: seq<Row>, from: nat) {
    exists d: nat :: from <= d && Boundary(path, d) && Listed(folders, path[..d])
  }

  /** The plain check of an exception. */
  ghost predicate Excepted(path: string, files: seq<Row>, folders: seq<Row>) {
    && path != []
    && (|| Listed(files, path)
        || (exists k :: 0 <= k < |files| && EndsAfterSlash(path, files[k].text))
        || FolderAbove(path, folders, 0))
  }

  method EndsWithFile(path: string, files: HashedList) returns (found: bool)
    requires files.Valid()
    ensures found <==> exists k :: 0 <= k < |files.configured| && EndsAfterSlash(path, files.configured[k].text)
  {
    ghost var rs := files.rows[..files.count];
    for i := 0 to files.count
      invariant forall k :: 0 <= k < i ==> !EndsAfterSlash(path, rs[k].text)
    {
      var entry := files.rows[i].text;
      if |entry| == 0 || |path| <= |entry| {
        continue;
      }
      var tail := |path| - |entry|;
      if path[tail - 1] != '/' {
        continue;
      }
      if path[tail..] == entry {
        assert rs[i] in multiset(files.configured);
        return true;
      }
    }
    forall k | 0 <= k < |files.configured| ensures !EndsAfterSlash(path, files.configured[k].text) {
      assert files.configured[k] in multiset(rs);
    }
    return false;
  }

  /** Back to the previous slash, or to the start. */
  method BackUp(path: string, from: nat) returns (cursor: nat)
    requires from < |path|
    ensures cursor <= from
    ensures forall d :: cursor < d <= from ==> path[d] != '/'
    ensures cursor > 0 ==> path[cursor] == '/'
  {
    cursor := from;
    while cursor > 0 && path[cursor] != '/'
      invariant cursor <= from
      invariant forall d :: cursor < d <= from ==> path[d] != '/'
    {
      cursor := cursor - 1;
    }
  }

  /** The walk up the path components. */
  method UnderFolder(path: string, folders: HashedList) returns (found: bool)
    requires folders.Valid()
    ensures found <==> FolderAbove(path, folders.configured, 0)
  {
    var cursor: nat := |path|;
    while cursor > 0
      invariant cursor <= |path|
      invariant !FolderAbove(path, folders.configured, cursor + 1)
      decreases cursor
    {
      if cursor != |path| && path[cursor] != '/' {
        ghost var was := cursor;
        cursor := BackUp(path, cursor);
        assert forall d: nat :: cursor + 1 <= d <= was ==> !Boundary(path, d);
        continue;
      }
      found := folders.Has(path[..cursor]);
      if found {
        assert Boundary(path, cursor);
        return true;
      }
      ghost var was := cursor;
      cursor := BackUp(path, cursor - 1);
      assert forall d: nat :: cursor + 1 <= d < was ==> !Boundary(path, d);
    }
    return false;
  }

  /** `scorer_is_excepted`. */
  method IsExcepted(path: string, files: HashedList, folders: HashedList) returns (found: bool)
    requires files.Valid() && folders.Valid()
    ensures found <==> Excepted(path, files.configured, folders.configured)
  {
    if path == [] {
      return false;
    }
    found := files.Has(path);
    if found {
      return;
    }
    found := EndsWithFile(path, files);
    if found {
      return;
    }
    if folders.count > 0 {
      found := UnderFolder(path, folders);
    } else {
      assert |multiset(folders.configured)| == |multiset(folders.rows[..0])| == 0;
    }
  }

  /** An excepted folder covers itself, with or without slashes behind it, and everything below it. */
  lemma FolderCovers(folder: string, rest: string, files: seq<Row>, folders: seq<Row>)
    requires folder != [] && Listed(folders, folder)
    ensures Excepted(folder, files, folders)
    ensures Excepted(folder + "/" + rest, files, folders)
  {
    var path := folder + "/" + rest;
    assert path[..|folder|] == folder && folder[..|folder|] == folder;
    assert Boundary(path, |folder|) && Boundary(folder, |folder|);
  }
}
