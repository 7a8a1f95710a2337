/**
  The daemon's own rewrite of the policy file: an automatically blocked address is added to the
  array `blacklist.ips`, which keeps at most 64 automatic entries and every manual one.
 */
module PolicyFile {
  import opened Base
  import opened JsonTree
  import JsonNumber
  import opened JsonSize

  const FILE_MAX: nat := 4 * MIB
  const LIST_MAX: nat := 64
  const IP_LEN: nat := 48

  const BLACKLIST: seq<byte> := [0x62, 0x6C, 0x61, 0x63, 0x6B, 0x6C, 0x69, 0x73, 0x74]
  const IPS: seq<byte> := [0x69, 0x70, 0x73]
  const IP: seq<byte> := [0x69, 0x70]
  const AUTO_ADD: seq<byte> := [0x61, 0x75, 0x74, 0x6F, 0x5F, 0x61, 0x64, 0x64]

  //
  // Members by name
  //

  function Lower(b: byte): (r: byte) { if 0x41 <= b <= 0x5A then b + 32 else b }

  /** Names are compared without regard to case. */
  predicate SameName(a: seq<byte>, b: seq<byte>) {
    |a| == |b| && forall i :: 0 <= i < |a| ==> Lower(a[i]) == Lower(b[i])
  }

  /** The first member of that name. */
  function MemberAt(ms: seq<Member>, name: seq<byte>): (r: Option<nat>)
    ensures r.Some? ==> r.value < |ms| && SameName(name, ms[r.value].key)
  {
    if ms == [] then None
    else if SameName(name, ms[0].key) then Some(0)
    else
      var r := MemberAt(ms[1..], name);
      if r.None? then None else Some(r.value + 1)
  }

  /** `cJSON_GetObjectItem`. */
  function Get(t: Json, name: seq<byte>): (r: Option<Json>) {
    if !t.Object? then None
    else
      var i := MemberAt(t.members, name);
      if i.None? then None else Some(t.members[i.value].value)
  }

  function RemoveAt<T>(s: seq<T>, i: nat): (r: seq<T>)
    requires i < |s|
  {
    s[..i] + s[i + 1..]
  }

  //
  // Entries of the array
  //

  /** The address of an entry, in its string or its object form. */
  function Address(e: Json): (r: Option<seq<byte>>) {
    if e.String? then Some(e.s)
    else
      var n := Get(e, IP);
      if n.Some? && n.value.String? then Some(n.value.s) else None
  }

  predicate IsAuto(e: Json) { Get(e, AUTO_ADD) == Some(True) }

  predicate Names(e: Json, ip: seq<byte>) { Address(e) == Some(ip) }

  function NewEntry(ip: seq<byte>): (e: Json) {
    Object([Member(IP, String(ip)), Member(AUTO_ADD, True)])
  }

  function Manual(items: seq<Json>): (r: seq<Json>) {
    if items == [] then [] else (if IsAuto(items[0]) then [] else [items[0]]) + Manual(items[1..])
  }

  function Autos(items: seq<Json>): (r: seq<Json>) {
    if items == [] then [] else (if IsAuto(items[0]) then [items[0]] else []) + Autos(items[1..])
  }

  predicate Lists(items: seq<Json>, ip: seq<byte>) {
    exists i :: 0 <= i < |items| && Names(items[i], ip)
  }

  /** The array without its first automatic entry. */
  function DropOldest(items: seq<Json>): (r: seq<Json>) {
    if items == [] then []
    else if IsAuto(items[0]) then items[1..]
    else [items[0]] + DropOldest(items[1..])
  }

  /** What stands in the array before the new entry. */
  function Before(items: seq<Json>): (r: seq<Json>) {
    if |Autos(items)| >= AUTO_MAX then DropOldest(items) else items
  }

  /** The array after a new address was added. */
  function WithEntry(items: seq<Json>, ip: seq<byte>): (r: seq<Json>) {
    Before(items) + [NewEntry(ip)]
  }

  lemma NewEntryIsAuto(ip: seq<byte>)
    ensures IsAuto(NewEntry(ip)) && Address(NewEntry(ip)) == Some(ip)
  {
    var ms := NewEntry(ip).members;
    assert SameName(IP, IP) && SameName(AUTO_ADD, AUTO_ADD) && !SameName(AUTO_ADD, IP);
    assert MemberAt(ms, IP) == Some(0);
    assert MemberAt(ms[1..], AUTO_ADD) == Some(0);
    assert MemberAt(ms, AUTO_ADD) == Some(1);
  }

  /** A member is found behind others that have no name like it. */
  lemma FirstOfName(before: seq<Member>, m: Member, after: seq<Member>, name: seq<byte>)
    requires SameName(name, m.key) && forall j :: 0 <= j < |before| ==> !SameName(name, before[j].key)
    ensures Get(Object(before + [m] + after), name) == Some(m.value)
    ensures Get(Object(before), name) == None
  {
    var ms := before + [m] + after;
    assert ms[|before|] == m;
    assert forall j :: 0 <= j < |before| ==> ms[j] == before[j];
    MemberAtIs(ms, name, |before|);
    MemberAtIsFirst(before, name);
  }

  /**
    The two forms of an entry carry the same address: the text itself, or an object whose first
    member named `ip`, in any case of its letters, is a text. Nothing else carries one.
   */
  lemma EntryForms(e: Json, ip: seq<byte>)
    ensures Address(e) == Some(ip) <==>
            || e == String(ip)
            || (exists before, key, after :: IsMember(e, before, Member(key, String(ip)), after, IP))
  {
    if e.Object? {
      var ms := e.members;
      var i := MemberAt(ms, IP);
      MemberAtIsFirst(ms, IP);
      if i.Some? && ms[i.value].value == String(ip) {
        var before, after := ms[..i.value], ms[i.value + 1..];
        assert ms == before + [ms[i.value]] + after;
        assert IsMember(e, before, Member(ms[i.value].key, String(ip)), after, IP);
      }
      if before, key, after :| IsMember(e, before, Member(key, String(ip)), after, IP) {
        FirstOfName(before, Member(key, String(ip)), after, IP);
      }
    }
  }

  /** `m` is the first member of that name of an object. */
  ghost predicate IsMember(e: Json, before: seq<Member>, m: Member, after: seq<Member>, name: seq<byte>) {
    && e == Object(before + [m] + after) && SameName(name, m.key)
    && forall j :: 0 <= j < |before| ==> !SameName(name, before[j].key)
  }

  /** Names are the same exactly when they differ in nothing but the case of letters. */
  lemma NamesAgree(a: seq<byte>, b: seq<byte>)
    ensures SameName(a, b) <==> |a| == |b| && forall i :: 0 <= i < |a| ==> SameLetter(a[i], b[i])
  {
  }

  /** The same byte, or a letter and its capital. */
  predicate SameLetter(a: byte, b: byte) {
    || a == b
    || (0x61 <= a < 0x7B && a - b == 0x20)
    || (0x61 <= b < 0x7B && b - a == 0x20)
  }

  /** The member names that the routine looks for. */
  lemma NamesSpelled()
    ensures BLACKLIST == Octets("blacklist") && IPS == Octets("ips") && IP == Octets("ip") && AUTO_ADD == Octets("auto_add")
  {
  }

  /** An entry is automatic exactly when it is an object whose first member of that name is true. */
  lemma AutoForms(e: Json)
    ensures IsAuto(e) <==> exists before, key, after :: IsMember(e, before, Member(key, True), after, AUTO_ADD)
  {
    if IsAuto(e) {
      var ms := e.members;
      var i := MemberAt(ms, AUTO_ADD).value;
      MemberAtIsFirst(ms, AUTO_ADD);
      assert ms == ms[..i] + [ms[i]] + ms[i + 1..];
      assert IsMember(e, ms[..i], Member(ms[i].key, True), ms[i + 1..], AUTO_ADD);
    }
    if before, key, after :| IsMember(e, before, Member(key, True), after, AUTO_ADD) {
      FirstOfName(before, Member(key, True), after, AUTO_ADD);
    }
  }

  lemma {:induction false} ManualSnoc(items: seq<Json>, e: Json)
    ensures Manual(items + [e]) == if IsAuto(e) then Manual(items) else Manual(items) + [e]
  {
    var more := items + [e];
    if items == [] {
      assert more[1..] == [];
    } else {
      var head := if IsAuto(items[0]) then [] else [items[0]];
      assert more[0] == items[0] && more[1..] == items[1..] + [e];
      ManualSnoc(items[1..], e);
      assert Manual(more) == head + Manual(items[1..] + [e]);
    }
  }

  lemma {:induction false} AutosSnoc(items: seq<Json>, e: Json)
    ensures Autos(items + [e]) == if IsAuto(e) then Autos(items) + [e] else Autos(items)
  {
    var more := items + [e];
    if items == [] {
      assert more[1..] == [];
    } else {
      var head := if IsAuto(items[0]) then [items[0]] else [];
      assert more[0] == items[0] && more[1..] == items[1..] + [e];
      AutosSnoc(items[1..], e);
      assert Autos(more) == head + Autos(items[1..] + [e]);
    }
  }

  lemma {:induction false} DropOldestKeeps(items: seq<Json>)
    ensures Manual(DropOldest(items)) == Manual(items)
    ensures Autos(DropOldest(items)) == if Autos(items) == [] then [] else Autos(items)[1..]
  {
    if items != [] && !IsAuto(items[0]) {
      DropOldestKeeps(items[1..]);
      var r := DropOldest(items);
      assert r[1..] == DropOldest(items[1..]);
    }
  }

  /** Manual entries stay, all of them and in order; the automatic ones form a queue. */
  lemma WithEntryKeeps(items: seq<Json>, ip: seq<byte>)
    ensures Manual(WithEntry(items, ip)) == Manual(items)
    ensures Autos(WithEntry(items, ip))
         == (if |Autos(items)| >= AUTO_MAX then Autos(items)[1..] else Autos(items)) + [NewEntry(ip)]
  {
    NewEntryIsAuto(ip);
    DropOldestKeeps(items);
    var kept := Before(items);
    ManualSnoc(kept, NewEntry(ip));
    AutosSnoc(kept, NewEntry(ip));
  }

  function NewEntries(ips: seq<seq<byte>>): (r: seq<Json>) {
    seq(|ips|, i requires 0 <= i < |ips| => NewEntry(ips[i]))
  }

  lemma {:induction false} AutosConcat(a: seq<Json>, b: seq<Json>)
    ensures Autos(a + b) == Autos(a) + Autos(b)
  {
    if a == [] {
      assert a + b == b;
    } else {
      assert (a + b)[1..] == a[1..] + b;
      AutosConcat(a[1..], b);
    }
  }

  lemma {:induction false} NewEntriesAreAuto(ips: seq<seq<byte>>)
    ensures Autos(NewEntries(ips)) == NewEntries(ips)
  {
    if ips != [] {
      NewEntryIsAuto(ips[0]);
      NewEntriesAreAuto(ips[1..]);
      assert NewEntries(ips)[1..] == NewEntries(ips[1..]);
    }
  }

  lemma {:induction false} DropOldestConcat(a: seq<Json>, b: seq<Json>)
    ensures DropOldest(a + b) == if Autos(a) == [] then a + DropOldest(b) else DropOldest(a) + b
  {
    if a == [] {
      assert a + b == b;
    } else {
      assert (a + b)[1..] == a[1..] + b;
      DropOldestConcat(a[1..], b);
    }
  }

  lemma {:induction false} DropOldestOnlyDrops(items: seq<Json>)
    ensures forall e :: e in DropOldest(items) ==> e in items
  {
    if items != [] && !IsAuto(items[0]) {
      DropOldestOnlyDrops(items[1..]);
    }
  }

  /** How a queue makes room for one more. */
  function Roomy<T>(s: seq<T>): (r: seq<T>) {
    if |s| >= AUTO_MAX then s[|s| - AUTO_MAX + 1..] else s
  }

  lemma DropFirstNew(ips: seq<seq<byte>>)
    requires ips != []
    ensures DropOldest(NewEntries(ips)) == NewEntries(ips[1..])
  {
    NewEntryIsAuto(ips[0]);
  }

  lemma AutosOfQueue(older: seq<Json>, ips: seq<seq<byte>>)
    ensures |Autos(older + NewEntries(ips))| == |Autos(older)| + |ips|
  {
    AutosConcat(older, NewEntries(ips));
    NewEntriesAreAuto(ips);
  }

  /** Room is made among the older entries as long as one of them is automatic. */
  lemma RoomAmongOlder(older: seq<Json>, ips: seq<seq<byte>>) returns (kept: seq<Json>)
    requires |Autos(older)| + |ips| <= AUTO_MAX
    ensures Before(older + NewEntries(ips)) == kept + NewEntries(Roomy(ips))
    ensures forall e :: e in kept ==> e in older
  {
    AutosOfQueue(older, ips);
    DropOldestConcat(older, NewEntries(ips));
    if |Autos(older)| + |ips| < AUTO_MAX {
      kept := older;
    } else if Autos(older) != [] {
      DropOldestOnlyDrops(older);
      kept := DropOldest(older);
    } else {
      DropFirstNew(ips);
      kept := older;
    }
  }

  /**
    With the newest entries at its end, the array takes in one more as the queue of those entries
    does, which is how the automatic list in memory takes it in.
   */
  lemma QueueStep(older: seq<Json>, ips: seq<seq<byte>>, ip: seq<byte>) returns (kept: seq<Json>)
    requires |Autos(older + NewEntries(ips))| <= AUTO_MAX
    ensures WithEntry(older + NewEntries(ips), ip) == kept + NewEntries(Roomy(ips) + [ip])
    ensures forall e :: e in kept ==> e in older
  {
    AutosOfQueue(older, ips);
    kept := RoomAmongOlder(older, ips);
    assert NewEntries(Roomy(ips)) + [NewEntry(ip)] == NewEntries(Roomy(ips) + [ip]);
  }

  /** The address has an automatic entry, and at most `later` automatic ones stand behind it. */
  ghost predicate Stands(items: seq<Json>, ip: seq<byte>, later: nat) {
    exists i :: 0 <= i < |Autos(items)| <= i + later + 1 && Autos(items)[i] == NewEntry(ip)
  }

  lemma NewEntryStands(items: seq<Json>, ip: seq<byte>)
    ensures Stands(WithEntry(items, ip), ip, 0)
  {
    WithEntryKeeps(items, ip);
    var autos := Autos(WithEntry(items, ip));
    assert autos[|autos| - 1] == NewEntry(ip);
  }

  /** One more entry pushes an automatic one out only where 63 stand behind it. */
  lemma StandsOneMore(items: seq<Json>, ip: seq<byte>, later: nat, more: seq<byte>)
    requires Stands(items, ip, later) && |Autos(items)| <= AUTO_MAX && later + 1 < AUTO_MAX
    ensures Stands(WithEntry(items, more), ip, later + 1)
  {
    WithEntryKeeps(items, more);
    var autos, after := Autos(items), Autos(WithEntry(items, more));
    var i :| 0 <= i < |autos| <= i + later + 1 && autos[i] == NewEntry(ip);
    var j := if |autos| >= AUTO_MAX then i - 1 else i;
    assert after[j] == NewEntry(ip);
  }

  lemma {:induction false} AutosAreItems(items: seq<Json>)
    ensures forall e :: e in Autos(items) ==> e in items
  {
    if items != [] {
      AutosAreItems(items[1..]);
    }
  }

  lemma StandingIsListed(items: seq<Json>, ip: seq<byte>, later: nat)
    requires Stands(items, ip, later)
    ensures Lists(items, ip)
  {
    NewEntryIsAuto(ip);
    AutosAreItems(items);
    assert NewEntry(ip) in items;
    var i :| 0 <= i < |items| && items[i] == NewEntry(ip);
    assert Names(items[i], ip);
  }

  /** The array after any sequence of additions, those of listed addresses being skipped. */
  function WithEntries(items: seq<Json>, ips: seq<seq<byte>>): (r: seq<Json>) {
    if ips == [] then items
    else
      var before := WithEntries(items, ips[..|ips| - 1]);
      if Lists(before, ips[|ips| - 1]) then before else WithEntry(before, ips[|ips| - 1])
  }

  /** Over any run no manual entry is lost or moved, and the cap on automatic entries holds. */
  lemma {:induction false} RunKeepsManual(items: seq<Json>, ips: seq<seq<byte>>)
    ensures Manual(WithEntries(items, ips)) == Manual(items)
    ensures |Autos(items)| <= AUTO_MAX ==> |Autos(WithEntries(items, ips))| <= AUTO_MAX
    ensures |Autos(items)| > AUTO_MAX ==> |Autos(WithEntries(items, ips))| == |Autos(items)|
    ensures ips != [] ==> Lists(WithEntries(items, ips), ips[|ips| - 1])
  {
    if ips != [] {
      var before, ip := WithEntries(items, ips[..|ips| - 1]), ips[|ips| - 1];
      RunKeepsManual(items, ips[..|ips| - 1]);
      if !Lists(before, ip) {
        WithEntryKeeps(before, ip);
        var after := WithEntry(before, ip);
        NewEntryIsAuto(ip);
        assert after[|after| - 1] == NewEntry(ip);
        assert Names(after[|after| - 1], ip);
      }
    }
  }

  //
  // The edit of the whole tree
  //

  /** The array that is edited: a missing or ill-typed one counts as empty. */
  function Items(bl: seq<Member>): (items: seq<Json>) {
    var i := MemberAt(bl, IPS);
    if i.Some? && bl[i.value].value.Array? then bl[i.value].value.items else []
  }

  /** Replaces the value of the first member of that name, or, if `fits` is not given, makes a new member. */
  function SetMember(ms: seq<Member>, name: seq<byte>, fits: bool, value: Json): (r: seq<Member>) {
    var i := MemberAt(ms, name);
    if i.None? then ms + [Member(name, value)]
    else if fits then ms[i.value := Member(ms[i.value].key, value)]
    else RemoveAt(ms, i.value) + [Member(name, value)]
  }

  function HasObject(ms: seq<Member>, name: seq<byte>): (b: bool) {
    var i := MemberAt(ms, name);
    i.Some? && ms[i.value].value.Object?
  }

  function HasArray(ms: seq<Member>, name: seq<byte>): (b: bool) {
    var i := MemberAt(ms, name);
    i.Some? && ms[i.value].value.Array?
  }

  function Blacklist(ms: seq<Member>): (bl: seq<Member>) {
    var i := MemberAt(ms, BLACKLIST);
    if i.Some? && ms[i.value].value.Object? then ms[i.value].value.members else []
  }

  function EditedList(bl: seq<Member>, ip: seq<byte>): (r: seq<Member>) {
    SetMember(bl, IPS, HasArray(bl, IPS), Array(WithEntry(Items(bl), ip)))
  }

  /**
    The tree that is written back, or None where the address is listed already. A root that is not
    an object finds no member; a new member of an array is printed without its name, and a member
    of anything else is not printed at all.
   */
  function Edited(root: Json, ip: seq<byte>): (r: Option<Json>) {
    match root
    case Object(ms) =>
      var bl := Blacklist(ms);
      if Lists(Items(bl), ip) then None
      else Some(Object(SetMember(ms, BLACKLIST, HasObject(ms, BLACKLIST), Object(EditedList(bl, ip)))))
    case Array(items) => Some(Array(items + [Object(EditedList([], ip))]))
    case _ => Some(root)
  }

  /**
    The edit of a list of members, spelled out. A first member of that name with a fitting value
    gets its new value where it stands; one with another value is taken out, and, as without any,
    a new member stands at the end.
   */
  lemma SetMemberForms(before: seq<Member>, m: Member, after: seq<Member>, name: seq<byte>, fits: bool, value: Json)
    requires SameName(name, m.key) && forall j :: 0 <= j < |before| ==> !SameName(name, before[j].key)
    ensures SetMember(before + [m] + after, name, fits, value)
         == if fits then before + [Member(m.key, value)] + after else before + after + [Member(name, value)]
    ensures SetMember(before, name, fits, value) == before + [Member(name, value)]
  {
    var ms := before + [m] + after;
    assert ms[|before|] == m;
    assert forall j :: 0 <= j < |before| ==> ms[j] == before[j];
    MemberAtIs(ms, name, |before|);
    MemberAtIsFirst(before, name);
    assert ms[..|before|] == before && ms[|before| + 1..] == after;
  }

  /** Which array is edited, and where the edited one stands. */
  lemma EditedListForms(before: seq<Member>, m: Member, after: seq<Member>, ip: seq<byte>)
    requires SameName(IPS, m.key) && forall j :: 0 <= j < |before| ==> !SameName(IPS, before[j].key)
    ensures EditedList(before + [m] + after, ip)
         == if m.value.Array? then before + [Member(m.key, Array(WithEntry(m.value.items, ip)))] + after
            else before + after + [Member(IPS, Array([NewEntry(ip)]))]
    ensures EditedList(before, ip) == before + [Member(IPS, Array([NewEntry(ip)]))]
  {
    var ms := before + [m] + after;
    assert ms[|before|] == m;
    assert forall j :: 0 <= j < |before| ==> ms[j] == before[j];
    MemberAtIs(ms, IPS, |before|);
    MemberAtIsFirst(before, IPS);
    assert WithEntry([], ip) == [NewEntry(ip)];
    var value := if m.value.Array? then Array(WithEntry(m.value.items, ip)) else Array([NewEntry(ip)]);
    SetMemberForms(before, m, after, IPS, m.value.Array?, value);
    SetMemberForms(before, m, after, IPS, false, Array([NewEntry(ip)]));
  }

  /** The same for the blacklist in a tree that is an object. */
  lemma EditedForms(before: seq<Member>, m: Member, after: seq<Member>, ip: seq<byte>)
    requires SameName(BLACKLIST, m.key) && forall j :: 0 <= j < |before| ==> !SameName(BLACKLIST, before[j].key)
    ensures var r := Edited(Object(before + [m] + after), ip);
            if m.value.Object? then
              r == if Lists(Items(m.value.members), ip) then None
                   else Some(Object(before + [Member(m.key, Object(EditedList(m.value.members, ip)))] + after))
            else r == Some(Object(before + after + [Member(BLACKLIST, Object(EditedList([], ip)))]))
    ensures Edited(Object(before), ip) == Some(Object(before + [Member(BLACKLIST, Object(EditedList([], ip)))]))
  {
    var ms := before + [m] + after;
    assert ms[|before|] == m;
    assert forall j :: 0 <= j < |before| ==> ms[j] == before[j];
    MemberAtIs(ms, BLACKLIST, |before|);
    MemberAtIsFirst(before, BLACKLIST);
    var bl := if m.value.Object? then m.value.members else [];
    SetMemberForms(before, m, after, BLACKLIST, m.value.Object?, Object(EditedList(bl, ip)));
    SetMemberForms(before, m, after, BLACKLIST, false, Object(EditedList([], ip)));
  }

  //
  // What a later load finds
  //

  lemma {:induction false} MemberAtIs(ms: seq<Member>, name: seq<byte>, i: nat)
    requires i < |ms| && SameName(name, ms[i].key)
    requires forall j :: 0 <= j < i ==> !SameName(name, ms[j].key)
    ensures MemberAt(ms, name) == Some(i)
  {
    if i > 0 {
      assert ms[0] == ms[..i][0];
      MemberAtIs(ms[1..], name, i - 1);
    }
  }

  lemma {:induction false} MemberAtIsFirst(ms: seq<Member>, name: seq<byte>)
    ensures var r := MemberAt(ms, name);
            forall j :: 0 <= j < (if r.Some? then r.value else |ms|) ==> !SameName(name, ms[j].key)
  {
    if ms != [] && !SameName(name, ms[0].key) {
      MemberAtIsFirst(ms[1..], name);
      assert forall j :: 0 < j < |ms| ==> ms[j] == ms[1..][j - 1];
    }
  }

  /** No second member hides behind a first one that has to be replaced. */
  predicate Unshadowed(ms: seq<Member>, name: seq<byte>, fits: bool) {
    var i := MemberAt(ms, name);
    i.Some? && !fits ==> MemberAt(RemoveAt(ms, i.value), name).None?
  }

  lemma SetMemberIsFound(ms: seq<Member>, name: seq<byte>, fits: bool, value: Json)
    requires Unshadowed(ms, name, fits)
    ensures Get(Object(SetMember(ms, name, fits, value)), name) == Some(value)
  {
    var i := MemberAt(ms, name);
    var r := SetMember(ms, name, fits, value);
    MemberAtIsFirst(ms, name);
    if i.Some? && fits {
      MemberAtIs(r, name, i.value);
    } else {
      var rest := if i.None? then ms else RemoveAt(ms, i.value);
      MemberAtIsFirst(rest, name);
      MemberAtIs(r, name, |rest|);
    }
  }

  /** The entries of the blacklist that a load of the policy finds. */
  function Entries(root: Json): (items: seq<Json>) {
    if root.Object? then Items(Blacklist(root.members)) else []
  }

  /** What a caller can check beforehand. */
  predicate Editable(root: Json) {
    && root.Object?
    && Unshadowed(root.members, BLACKLIST, HasObject(root.members, BLACKLIST))
    && Unshadowed(Blacklist(root.members), IPS, HasArray(Blacklist(root.members), IPS))
  }

  /** An editable tree: the next load finds the edited array. */
  lemma EditIsFound(root: Json, ip: seq<byte>)
    requires Editable(root)
    ensures var r := Edited(root, ip);
            && (r.None? <==> Lists(Entries(root), ip))
            && (r.Some? ==> Entries(r.value) == WithEntry(Entries(root), ip))
  {
    var ms := root.members;
    var bl := Blacklist(ms);
    if !Lists(Items(bl), ip) {
      SetMemberIsFound(bl, IPS, HasArray(bl, IPS), Array(WithEntry(Items(bl), ip)));
      SetMemberIsFound(ms, BLACKLIST, HasObject(ms, BLACKLIST), Object(EditedList(bl, ip)));
    }
  }

  /** An edit leaves an editable tree behind. */
  lemma EditableStays(root: Json, ip: seq<byte>)
    requires Editable(root) && Edited(root, ip).Some?
    ensures Editable(Edited(root, ip).value)
  {
    var ms := root.members;
    var bl := Blacklist(ms);
    SetMemberIsFound(bl, IPS, HasArray(bl, IPS), Array(WithEntry(Items(bl), ip)));
    SetMemberIsFound(ms, BLACKLIST, HasObject(ms, BLACKLIST), Object(EditedList(bl, ip)));
  }

  /** What hides the edit of a tree that is not editable: the next member of the same name. */
  function Hiding(root: Json): (items: seq<Json>)
    requires !Editable(root)
  {
    if !root.Object? then []
    else
      var ms := root.members;
      var bl := Blacklist(ms);
      if !Unshadowed(ms, BLACKLIST, HasObject(ms, BLACKLIST))
      then Items(Blacklist(RemoveAt(ms, MemberAt(ms, BLACKLIST).value)))
      else Items(RemoveAt(bl, MemberAt(bl, IPS).value))
  }

  lemma {:induction false} MemberAtFront(ms: seq<Member>, m: Member, name: seq<byte>)
    requires MemberAt(ms, name).Some?
    ensures MemberAt(ms + [m], name) == MemberAt(ms, name)
  {
    if !SameName(name, ms[0].key) {
      assert (ms + [m])[1..] == ms[1..] + [m];
      MemberAtFront(ms[1..], m, name);
    }
  }

  /** A tree that is not editable: the next load finds what it would have found without the first member. */
  lemma EditIsHidden(root: Json, ip: seq<byte>)
    requires !Editable(root) && Edited(root, ip).Some?
    ensures Entries(Edited(root, ip).value) == Hiding(root)
  {
    if root.Object? {
      var ms := root.members;
      var bl := Blacklist(ms);
      var list := EditedList(bl, ip);
      if !Unshadowed(ms, BLACKLIST, HasObject(ms, BLACKLIST)) {
        MemberAtFront(RemoveAt(ms, MemberAt(ms, BLACKLIST).value), Member(BLACKLIST, Object(list)), BLACKLIST);
      } else {
        SetMemberIsFound(ms, BLACKLIST, HasObject(ms, BLACKLIST), Object(list));
        MemberAtFront(RemoveAt(bl, MemberAt(bl, IPS).value), Member(IPS, Array(WithEntry(Items(bl), ip))), IPS);
      }
    }
  }

  /** An instance: {"blacklist": 0, "blacklist": {}} takes no entry, although the call succeeds. */
  lemma TwoBlacklists(ip: seq<byte>)
    ensures var root := Object([Member(BLACKLIST, Number(JsonNumber.Decimal(0, 0))), Member(BLACKLIST, Object([]))]);
            !Editable(root) && Edited(root, ip).Some? && Entries(Edited(root, ip).value) == []
  {
    var ms := [Member(BLACKLIST, Number(JsonNumber.Decimal(0, 0))), Member(BLACKLIST, Object([]))];
    assert SameName(BLACKLIST, BLACKLIST);
    assert MemberAt(ms, BLACKLIST) == Some(0);
    var rest := RemoveAt(ms, 0);
    assert rest == [Member(BLACKLIST, Object([]))];
    assert MemberAt(rest, BLACKLIST) == Some(0);
    EditIsHidden(Object(ms), ip);
  }

  /** A policy that is not an object takes no entry, although the call succeeds. */
  lemma NoObjectNoEntry(root: Json, ip: seq<byte>)
    requires !root.Object?
    ensures Edited(root, ip).Some? && Entries(Edited(root, ip).value) == []
  {
  }

  //
  // Loading
  //

  /** An element of the blacklist's address array, its text cut to the field. */
  datatype Stored = Stored(ip: seq<byte>, auto: bool)

  function CutIp(ip: seq<byte>): (r: seq<byte>) { if |ip| < IP_LEN then ip else ip[..IP_LEN - 1] }

  /** Every entry that carries an address, in the order of the array. */
  function Addressed(items: seq<Json>): (r: seq<Stored>) {
    if items == [] then []
    else
      var e := items[|items| - 1];
      Addressed(items[..|items| - 1])
      + (if Address(e).Some? then [Stored(CutIp(Address(e).value), IsAuto(e))] else [])
  }

  function FirstFew(s: seq<Stored>): (r: seq<Stored>) { if |s| <= LIST_MAX then s else s[..LIST_MAX] }

  predicate Holds(s: seq<Stored>, ip: seq<byte>) {
    exists i :: 0 <= i < |s| && s[i].ip == ip
  }

  /** What an entry is stored as: its address, of a longer one the first 47 bytes, and whether it is automatic. */
  ghost predicate StoredAs(e: Json, s: Stored) {
    && Address(e).Some? && s.auto == IsAuto(e)
    && s.ip <= Address(e).value && |s.ip| == if |Address(e).value| <= 47 then |Address(e).value| else 47
  }

  /** Entry by entry: one that carries an address is stored behind those before it, another is passed over. */
  lemma EntryIsStored(items: seq<Json>, e: Json)
    ensures Address(e) == None ==> Addressed(items + [e]) == Addressed(items)
    ensures Address(e).Some? ==>
      exists s :: StoredAs(e, s) && Addressed(items + [e]) == Addressed(items) + [s]
  {
    AddressedSnoc(items, e);
    if Address(e).Some? {
      assert StoredAs(e, Stored(CutIp(Address(e).value), IsAuto(e)));
    }
  }

  lemma AddressedSnoc(items: seq<Json>, e: Json)
    ensures Addressed(items + [e])
         == Addressed(items) + (if Address(e).Some? then [Stored(CutIp(Address(e).value), IsAuto(e))] else [])
  {
    assert (items + [e])[..|items|] == items;
  }

  /** The loop of `config_load` over `blacklist.ips`: it stops once the array is full. */
  method LoadIps(items: seq<Json>) returns (ips: seq<Stored>)
    ensures ips == FirstFew(Addressed(items))
  {
    ips := [];
    var i := 0;
    assert items[..0] == [];
    while i < |items| && |ips| < LIST_MAX
      invariant 0 <= i <= |items| && |ips| <= LIST_MAX
      invariant ips == Addressed(items[..i])
    {
      var e := items[i];
      assert items[..i + 1] == items[..i] + [e];
      AddressedSnoc(items[..i], e);
      var address := Address(e);
      if address.Some? {
        ips := ips + [Stored(CutIp(address.value), IsAuto(e))];
      }
      i := i + 1;
    }
    AddressedPrefix(items, i);
    assert items[..|items|] == items;
  }

  lemma {:induction false} AddressedPrefix(items: seq<Json>, n: nat)
    requires n <= |items|
    ensures Addressed(items[..n]) <= Addressed(items)
    decreases |items|
  {
    if n < |items| {
      var init := items[..|items| - 1];
      assert init[..n] == items[..n];
      AddressedPrefix(init, n);
    } else {
      assert items[..n] == items;
    }
  }

  /** The blacklist addresses that a load of the file yields, or None where the file is refused. */
  function LoadedIps(file: seq<byte>): (r: Option<seq<Stored>>) {
    if |file| > FILE_MAX then None
    else
      var root := Parse(CStr(file));
      if root.None? then None else Some(FirstFew(Addressed(Entries(root.value))))
  }

  /** The first entry that names the address. */
  function FirstNaming(items: seq<Json>, ip: seq<byte>): (k: nat)
    ensures k <= |items|
  {
    if items == [] || Names(items[0], ip) then 0 else 1 + FirstNaming(items[1..], ip)
  }

  /**
    Whether the next load knows the address, as a caller can tell before the call: the place of the
    entry that names it already, or of the new one, or what the hiding member lists.
   */
  predicate WillLoad(root: Json, ip: seq<byte>) {
    var items := Entries(root);
    if Lists(items, ip) then |Addressed(items[..FirstNaming(items, ip)])| < LIST_MAX
    else if Editable(root) then |Addressed(Before(items))| < LIST_MAX
    else Holds(FirstFew(Addressed(Hiding(root))), ip)
  }

  lemma {:induction false} FirstNamingIs(items: seq<Json>, ip: seq<byte>)
    requires Lists(items, ip)
    ensures var k := FirstNaming(items, ip); k < |items| && Names(items[k], ip) && !Lists(items[..k], ip)
  {
    if !Names(items[0], ip) {
      var i :| 0 <= i < |items| && Names(items[i], ip);
      assert Names(items[1..][i - 1], ip);
      FirstNamingIs(items[1..], ip);
      var k := FirstNaming(items[1..], ip);
      forall j | 0 <= j < k + 1 ensures !Names(items[j], ip) {
        if j > 0 {
          assert items[j] == items[1..][..k][j - 1];
        }
      }
    }
  }

  /** An address that is listed is loaded exactly when fewer than 64 stand before its first entry. */
  lemma ListedLoadsIff(items: seq<Json>, ip: seq<byte>)
    requires Lists(items, ip) && |ip| < IP_LEN - 1
    ensures Holds(FirstFew(Addressed(items)), ip) <==> |Addressed(items[..FirstNaming(items, ip)])| < LIST_MAX
  {
    FirstNamingIs(items, ip);
    var k := FirstNaming(items, ip);
    var front, all := Addressed(items[..k]), Addressed(items);
    UnlistedIsAbsent(items[..k], ip);
    assert items[..k + 1] == items[..k] + [items[k]];
    AddressedSnoc(items[..k], items[k]);
    AddressedPrefix(items, k + 1);
    assert all[|front|] == Addressed(items[..k + 1])[|front|] && all[|front|].ip == ip;
    if |front| < LIST_MAX {
      assert FirstFew(all)[|front|].ip == ip;
    } else {
      forall i | 0 <= i < LIST_MAX ensures all[i].ip != ip {
        assert all[i] == Addressed(items[..k + 1])[i] == front[i];
      }
    }
  }

  lemma {:induction false} ListedIsAddressed(items: seq<Json>, ip: seq<byte>)
    requires Lists(items, ip) && |ip| < IP_LEN
    ensures Holds(Addressed(items), ip)
  {
    var n := |items| - 1;
    var front, all := Addressed(items[..n]), Addressed(items);
    if Names(items[n], ip) {
      assert all[|front|].ip == ip;
    } else {
      var i :| 0 <= i < |items| && Names(items[i], ip);
      assert Names(items[..n][i], ip);
      ListedIsAddressed(items[..n], ip);
      var k :| 0 <= k < |front| && front[k].ip == ip;
      assert all[k] == front[k];
    }
  }

  lemma {:induction false} UnlistedIsAbsent(items: seq<Json>, ip: seq<byte>)
    requires !Lists(items, ip) && |ip| < IP_LEN - 1
    ensures !Holds(Addressed(items), ip)
  {
    if items != [] {
      var n := |items| - 1;
      assert !Names(items[n], ip);
      forall i | 0 <= i < n ensures !Names(items[..n][i], ip) {
        assert !Names(items[i], ip);
      }
      UnlistedIsAbsent(items[..n], ip);
    }
  }

  lemma {:induction false} DropOldestUnlisted(items: seq<Json>, ip: seq<byte>)
    requires !Lists(items, ip)
    ensures !Lists(DropOldest(items), ip)
  {
    if items != [] {
      assert !Names(items[0], ip);
      forall i | 0 <= i < |items| - 1 ensures !Names(items[1..][i], ip) {
        assert !Names(items[i + 1], ip);
      }
      if !IsAuto(items[0]) {
        DropOldestUnlisted(items[1..], ip);
      }
    }
  }

  /** A new entry is loaded exactly when fewer than 64 addresses stand before it. */
  lemma EntryLoadsIff(items: seq<Json>, ip: seq<byte>)
    requires !Lists(items, ip) && |ip| < IP_LEN - 1
    ensures Holds(FirstFew(Addressed(WithEntry(items, ip))), ip) <==> |Addressed(Before(items))| < LIST_MAX
  {
    var kept := Before(items);
    NewEntryIsAuto(ip);
    DropOldestUnlisted(items, ip);
    UnlistedIsAbsent(kept, ip);
    AddressedSnoc(kept, NewEntry(ip));
    var all := Addressed(WithEntry(items, ip));
    assert all == Addressed(kept) + [Stored(ip, true)];
    if |Addressed(kept)| < LIST_MAX {
      assert FirstFew(all)[|Addressed(kept)|].ip == ip;
    } else {
      assert forall i :: 0 <= i < LIST_MAX ==> all[i] == Addressed(kept)[i];
    }
  }

  lemma {:induction false} Repeated(e: Json, n: nat)
    requires Address(e).Some? && !IsAuto(e)
    ensures |Addressed(seq(n, _ => e))| == n && Autos(seq(n, _ => e)) == []
  {
    if n > 0 {
      assert seq(n, _ => e) == seq(n - 1, _ => e) + [e];
      Repeated(e, n - 1);
      AddressedSnoc(seq(n - 1, _ => e), e);
      AutosSnoc(seq(n - 1, _ => e), e);
    }
  }

  /** An instance: behind 64 addresses of the administrator a verdict is listed and never loaded. */
  lemma FullListDropsVerdict(manual: seq<byte>, ip: seq<byte>)
    requires manual != ip && |ip| < IP_LEN - 1
    ensures var items := seq(LIST_MAX, _ => String(manual));
            && !Lists(items, ip) && !Holds(FirstFew(Addressed(WithEntry(items, ip))), ip)
            && Lists(WithEntry(items, ip), ip)
  {
    var items := seq(LIST_MAX, _ => String(manual));
    Repeated(String(manual), LIST_MAX);
    forall i | 0 <= i < LIST_MAX ensures !Names(items[i], ip) {
    }
    EntryLoadsIff(items, ip);
    NewEntryIsAuto(ip);
    assert Names(WithEntry(items, ip)[|Before(items)|], ip);
  }

  //
  // The text
  //

  ghost predicate PrintableMember(m: Member, d: nat) { 0 !in m.key && Printable(m.value, d) }

  lemma {:induction false} PrintableMembersAll(ms: seq<Member>, d: nat)
    ensures PrintableMembers(ms, d) <==> forall i :: 0 <= i < |ms| ==> PrintableMember(ms[i], d)
  {
    if ms != [] {
      PrintableMembersAll(ms[1..], d);
      assert PrintableMembers(ms, d) <==> PrintableMember(ms[0], d) && PrintableMembers(ms[1..], d);
      assert forall i :: 0 < i < |ms| ==> ms[i] == ms[1..][i - 1];
    }
  }

  lemma {:induction false} PrintableItemsAll(items: seq<Json>, d: nat)
    ensures PrintableItems(items, d) <==> forall i :: 0 <= i < |items| ==> Printable(items[i], d)
  {
    if items != [] {
      PrintableItemsAll(items[1..], d);
      assert forall i :: 0 < i < |items| ==> items[i] == items[1..][i - 1];
    }
  }

  lemma SetMemberPrintable(ms: seq<Member>, name: seq<byte>, fits: bool, value: Json, d: nat)
    requires PrintableMembers(ms, d) && 0 !in name && Printable(value, d)
    ensures PrintableMembers(SetMember(ms, name, fits, value), d)
  {
    var r := SetMember(ms, name, fits, value);
    PrintableMembersAll(ms, d);
    PrintableMembersAll(r, d);
    forall i | 0 <= i < |r| ensures PrintableMember(r[i], d) {
    }
  }

  lemma {:induction false} DropOldestFrom(items: seq<Json>, d: nat)
    requires PrintableItems(items, d)
    ensures PrintableItems(DropOldest(items), d)
  {
    if items != [] && !IsAuto(items[0]) {
      DropOldestFrom(items[1..], d);
      assert DropOldest(items)[1..] == DropOldest(items[1..]);
    }
  }

  lemma WithEntryPrintable(items: seq<Json>, ip: seq<byte>, d: nat)
    requires PrintableItems(items, d) && 0 !in ip && d < NESTING_LIMIT
    ensures PrintableItems(WithEntry(items, ip), d)
  {
    DropOldestFrom(items, d);
    var kept := Before(items);
    var e := NewEntry(ip);
    assert Printable(e, d) by {
      PrintableMembersAll(e.members, d + 1);
    }
    PrintableItemsAll(kept, d);
    PrintableItemsAll(kept + [e], d);
  }

  lemma EditedListPrintable(bl: seq<Member>, ip: seq<byte>, d: nat)
    requires PrintableMembers(bl, d) && 0 !in ip && d + 1 < NESTING_LIMIT
    ensures PrintableMembers(EditedList(bl, ip), d)
  {
    PrintableMembersAll(bl, d);
    var i := MemberAt(bl, IPS);
    if i.Some? && bl[i.value].value.Array? {
      assert PrintableMember(bl[i.value], d);
    }
    WithEntryPrintable(Items(bl), ip, d + 1);
    SetMemberPrintable(bl, IPS, HasArray(bl, IPS), Array(WithEntry(Items(bl), ip)), d);
  }

  /** The edit keeps a tree within what the printer and the parser handle. */
  lemma EditedPrintable(root: Json, ip: seq<byte>)
    requires Printable(root, 0) && 0 !in ip && Edited(root, ip).Some?
    ensures Printable(Edited(root, ip).value, 0)
  {
    match root
    case Object(ms) =>
      var bl := Blacklist(ms);
      PrintableMembersAll(ms, 1);
      var i := MemberAt(ms, BLACKLIST);
      if i.Some? && ms[i.value].value.Object? {
        assert PrintableMember(ms[i.value], 1);
      }
      EditedListPrintable(bl, ip, 2);
      SetMemberPrintable(ms, BLACKLIST, HasObject(ms, BLACKLIST), Object(EditedList(bl, ip)), 1);
    case Array(items) =>
      EditedListPrintable([], ip, 2);
      PrintableItemsAll(items, 1);
      PrintableItemsAll(items + [Object(EditedList([], ip))], 1);
    case _ =>
  }

  lemma {:induction false} PrintableMeans(t: Json, d: nat)
    requires Printable(t, d) && d <= NESTING_LIMIT
    ensures NulFree(t) && RecoverableOnly(t) && d + Nesting(t) <= NESTING_LIMIT
    decreases t, 1
  {
    match t
    case Array(items) => PrintableItemsMean(items, d + 1);
    case Object(ms) => PrintableMembersMean(ms, d + 1);
    case _ =>
  }

  lemma {:induction false} PrintableItemsMean(items: seq<Json>, d: nat)
    requires PrintableItems(items, d) && d <= NESTING_LIMIT
    ensures NulFreeItems(items) && RecoverableOnlyItems(items) && d + NestingItems(items) <= NESTING_LIMIT
    decreases items, 0
  {
    if items != [] {
      PrintableMeans(items[0], d);
      PrintableItemsMean(items[1..], d);
    }
  }

  lemma {:induction false} PrintableMembersMean(ms: seq<Member>, d: nat)
    requires PrintableMembers(ms, d) && d <= NESTING_LIMIT
    ensures NulFreeMembers(ms) && RecoverableOnlyMembers(ms) && d + NestingMembers(ms) <= NESTING_LIMIT
    decreases ms, 0
  {
    if ms != [] {
      PrintableMeans(ms[0].value, d);
      PrintableMembersMean(ms[1..], d);
    }
  }

  /** The text that is written back: the formatted tree and a newline. */
  function Written(root: Json): (text: seq<byte>) { PrintValue(root, 0, true) + [NEWLINE] }

  /** A text whose tree holds integers only is parsed to a printable tree. */
  lemma ParsedIsPrintable(text: seq<byte>)
    requires Parse(text).Some? && RecoverableOnly(Parse(text).value)
    ensures Printable(Parse(text).value, 0)
  {
    var c := text + [0];
    ParsedValueBounded(c, SkipWs(c, BomEnd(c)), 0);
    PrintableWhen(Parse(text).value, 0);
  }

  /** What is written back parses to the edited tree. */
  lemma WrittenParses(text: seq<byte>, ip: seq<byte>)
    requires Parse(text).Some? && RecoverableOnly(Parse(text).value) && 0 !in ip
    requires Edited(Parse(text).value, ip).Some?
    ensures var t := Edited(Parse(text).value, ip).value;
            NulFree(t) && RecoverableOnly(t) && Parse(Written(t)) == Some(t)
  {
    ParsedIsPrintable(text);
    EditedPrintable(Parse(text).value, ip);
    var t := Edited(Parse(text).value, ip).value;
    PrintableMeans(t, 0);
    RoundTrip(t, true, [NEWLINE]);
  }

  //
  // The edited tree is never too long to print
  //

  lemma {:induction false} ItemsWeightConcat(a: seq<Json>, b: seq<Json>)
    ensures ItemsWeight(a + b) == ItemsWeight(a) + ItemsWeight(b)
  {
    if a == [] {
      assert a + b == b;
    } else {
      assert (a + b)[1..] == a[1..] + b;
      ItemsWeightConcat(a[1..], b);
    }
  }

  lemma {:induction false} MembersWeightConcat(a: seq<Member>, b: seq<Member>)
    ensures MembersWeight(a + b) == MembersWeight(a) + MembersWeight(b)
  {
    if a == [] {
      assert a + b == b;
    } else {
      assert (a + b)[1..] == a[1..] + b;
      MembersWeightConcat(a[1..], b);
    }
  }

  lemma OneMemberWeight(m: Member)
    ensures MembersWeight([m]) == KeyWeight(m.key) + Weight(m.value)
  {
    assert [m][1..] == [];
  }

  lemma InsertedWeight(a: seq<Member>, m: Member, b: seq<Member>)
    ensures MembersWeight(a + [m] + b) == MembersWeight(a + b) + KeyWeight(m.key) + Weight(m.value)
  {
    MembersWeightConcat(a, b);
    MembersWeightConcat(a, [m]);
    MembersWeightConcat(a + [m], b);
    OneMemberWeight(m);
  }

  lemma SplitAt<T>(s: seq<T>, i: nat)
    requires i < |s|
    ensures s == s[..i] + [s[i]] + s[i + 1..]
  {
  }

  lemma MembersWeightAt(ms: seq<Member>, i: nat)
    requires i < |ms|
    ensures MembersWeight(ms) == MembersWeight(RemoveAt(ms, i)) + KeyWeight(ms[i].key) + Weight(ms[i].value)
  {
    SplitAt(ms, i);
    InsertedWeight(ms[..i], ms[i], ms[i + 1..]);
  }

  lemma {:induction false} DropOldestWeight(items: seq<Json>)
    ensures ItemsWeight(DropOldest(items)) <= ItemsWeight(items)
  {
    if items != [] && !IsAuto(items[0]) {
      DropOldestWeight(items[1..]);
      assert DropOldest(items)[1..] == DropOldest(items[1..]);
    }
  }

  /** What one new entry adds to the weight of the array. */
  function EntryWeight(ip: seq<byte>): (w: nat) { Weight(NewEntry(ip)) + 2 }

  lemma WithEntryWeight(items: seq<Json>, ip: seq<byte>)
    ensures ItemsWeight(WithEntry(items, ip)) <= ItemsWeight(items) + EntryWeight(ip)
  {
    DropOldestWeight(items);
    ItemsWeightConcat(Before(items), [NewEntry(ip)]);
    assert [NewEntry(ip)][1..] == [];
  }

  /** A member that is set: what it weighs more than the value that stood there before. */
  lemma SetMemberWeight(ms: seq<Member>, name: seq<byte>, fits: bool, value: Json, more: nat)
    requires var i := MemberAt(ms, name);
             Weight(value) <= more + (if i.Some? && fits then Weight(ms[i.value].value) else 0)
    ensures MembersWeight(SetMember(ms, name, fits, value)) <= MembersWeight(ms) + KeyWeight(name) + more
  {
    var i := MemberAt(ms, name);
    if i.None? {
      MembersWeightConcat(ms, [Member(name, value)]);
      OneMemberWeight(Member(name, value));
    } else {
      var m := ms[i.value];
      MembersWeightAt(ms, i.value);
      if fits {
        var r := SetMember(ms, name, fits, value);
        MembersWeightAt(r, i.value);
        assert RemoveAt(r, i.value) == RemoveAt(ms, i.value);
      } else {
        MembersWeightConcat(RemoveAt(ms, i.value), [Member(name, value)]);
        OneMemberWeight(Member(name, value));
      }
    }
  }

  lemma EditedListWeight(bl: seq<Member>, ip: seq<byte>)
    ensures MembersWeight(EditedList(bl, ip)) <= MembersWeight(bl) + KeyWeight(IPS) + EntryWeight(ip) + 2
  {
    WithEntryWeight(Items(bl), ip);
    SetMemberWeight(bl, IPS, HasArray(bl, IPS), Array(WithEntry(Items(bl), ip)), EntryWeight(ip) + 2);
  }

  /** What the edit adds to the weight of the tree. */
  function EditWeight(ip: seq<byte>): (w: nat) {
    KeyWeight(BLACKLIST) + KeyWeight(IPS) + EntryWeight(ip) + 2 * NESTING_LIMIT
  }

  lemma EditedWeight(root: Json, ip: seq<byte>)
    ensures var t := Edited(root, ip);
            t.Some? ==> Weight(t.value) <= Weight(root) + EditWeight(ip)
  {
    match root
    case Object(ms) =>
      var bl := Blacklist(ms);
      EditedListWeight(bl, ip);
      SetMemberWeight(ms, BLACKLIST, HasObject(ms, BLACKLIST), Object(EditedList(bl, ip)),
                      KeyWeight(IPS) + EntryWeight(ip) + NESTING_LIMIT + 5);
    case Array(items) =>
      EditedListWeight([], ip);
      ItemsWeightConcat(items, [Object(EditedList([], ip))]);
      assert [Object(EditedList([], ip))][1..] == [];
    case _ =>
  }

  lemma EditWeightBound(ip: seq<byte>)
    requires |ip| < IP_LEN
    ensures EditWeight(ip) <= 10000
  {
    var e := NewEntry(ip);
    QuotedLength(BLACKLIST);
    QuotedLength(IPS);
    QuotedLength(IP);
    QuotedLength(AUTO_ADD);
    QuotedLength(ip);
    assert e.members[0] == Member(IP, String(ip)) && e.members[1..] == [Member(AUTO_ADD, True)];
    OneMemberWeight(Member(AUTO_ADD, True));
    assert MembersWeight(e.members) == KeyWeight(IP) + Weight(String(ip)) + MembersWeight([Member(AUTO_ADD, True)]);
  }

  /**
    A policy file that is short enough to be read is short enough to be written: what the edit makes
    of it never fails to print.
   */
  lemma WrittenFits(text: seq<byte>, ip: seq<byte>)
    requires Parse(text).Some? && RecoverableOnly(Parse(text).value) && |text| <= FILE_MAX
    requires 0 !in ip && |ip| < IP_LEN
    ensures var t := Edited(Parse(text).value, ip);
            t.Some? ==> |Written(t.value)| + 2 <= INT32_MAX
  {
    var root := Parse(text).value;
    if Edited(root, ip).Some? {
      ParsedIsPrintable(text);
      EditedPrintable(root, ip);
      PrintWithin(Edited(root, ip).value, 0, true);
      TextGrowth(text);
      EditedWeight(root, ip);
      EditWeightBound(ip);
    }
  }

  //
  // The routine
  //

  lemma AutosUpTo(items: seq<Json>, i: nat)
    requires i < |items|
    ensures |Autos(items[..i + 1])| == |Autos(items[..i])| + (if IsAuto(items[i]) then 1 else 0)
  {
    assert items[..i + 1] == items[..i] + [items[i]];
    AutosSnoc(items[..i], items[i]);
  }

  /** `first` is the index of the first automatic entry before `i`, or -1. */
  ghost predicate FirstAutoUpTo(items: seq<Json>, i: nat, first: int)
    requires i <= |items|
  {
    if first == -1 then forall k :: 0 <= k < i ==> !IsAuto(items[k])
    else 0 <= first < i && IsAuto(items[first]) && forall k :: 0 <= k < first ==> !IsAuto(items[k])
  }

  /** One pass over the array: is the address listed, how many automatic entries, where the first is. */
  method Scan(items: seq<Json>, ip: seq<byte>) returns (listed: bool, autos: nat, first: int)
    ensures listed <==> Lists(items, ip)
    ensures !listed ==> autos == |Autos(items)|
    ensures !listed && autos > 0 ==> 0 <= first < |items| && DropOldest(items) == RemoveAt(items, first)
  {
    autos, first := 0, -1;
    for i := 0 to |items|
      invariant forall k :: 0 <= k < i ==> !Names(items[k], ip)
      invariant autos == |Autos(items[..i])|
      invariant FirstAutoUpTo(items, i, first) && (first == -1 <==> autos == 0)
    {
      var e := items[i];
      AutosUpTo(items, i);
      if Names(e, ip) {
        return true, 0, -1;
      }
      if IsAuto(e) {
        if first < 0 {
          first := i;
        }
        autos := autos + 1;
      }
    }
    assert items[..|items|] == items;
    listed := false;
    if first >= 0 {
      DropOldestIs(items, first);
    }
  }

  lemma {:induction false} DropOldestIs(items: seq<Json>, first: nat)
    requires first < |items| && IsAuto(items[first]) && forall k :: 0 <= k < first ==> !IsAuto(items[k])
    ensures DropOldest(items) == RemoveAt(items, first)
  {
    if first > 0 {
      assert items[1..][first - 1] == items[first];
      DropOldestIs(items[1..], first - 1);
      assert items[..first] == [items[0]] + items[1..][..first - 1];
      assert items[first + 1..] == items[1..][first..];
    }
  }

  /** The array edit as the routine makes it; None where the address is listed. */
  method EditItems(items: seq<Json>, ip: seq<byte>) returns (r: Option<seq<Json>>)
    ensures r == if Lists(items, ip) then None else Some(WithEntry(items, ip))
  {
    var listed, autos, first := Scan(items, ip);
    if listed {
      return None;
    }
    var kept := items;
    if autos >= AUTO_MAX && first >= 0 {
      kept := RemoveAt(items, first);
    }
    r := Some(kept + [NewEntry(ip)]);
  }

  method EditTree(root: Json, ip: seq<byte>) returns (r: Option<Json>)
    ensures r == Edited(root, ip)
  {
    var ms := if root.Object? then root.members else [];
    var bl := Blacklist(ms);
    var items := EditItems(Items(bl), ip);
    if items.None? {
      return None;
    }
    match root {
    case Object(_) =>
      r := Some(Object(SetMember(ms, BLACKLIST, HasObject(ms, BLACKLIST),
        Object(SetMember(bl, IPS, HasArray(bl, IPS), Array(items.value))))));
    case Array(es) =>
      r := Some(Array(es + [Object(SetMember(bl, IPS, HasArray(bl, IPS), Array(items.value)))]));
    case _ =>
      r := Some(root);
    }
  }

  datatype Outcome = Outcome(ok: bool, rewritten: Option<seq<byte>>)

  /** The result of `config_persist_blacklist_ip` and the bytes that replace the policy file, if any do. */
  function Persisted(isIp: seq<byte> -> bool, file: Option<seq<byte>>, ip: seq<byte>, writable: bool): (r: Outcome) {
    if ip == [] then Outcome(false, None)
    else if !isIp(ip) then Outcome(true, None)
    else if file.None? || |file.value| > FILE_MAX then Outcome(false, None)
    else
      var root := Parse(CStr(file.value));
      if root.None? then Outcome(false, None)
      else
        var t := Edited(root.value, ip);
        if t.None? then Outcome(true, None)
        else if writable then Outcome(true, Some(Written(t.value)))
        else Outcome(false, None)
  }

  /** The policy file after the call: as it was, where the address is listed already. */
  function NextFile(file: seq<byte>, ip: seq<byte>): (next: seq<byte>)
    requires Parse(CStr(file)).Some?
  {
    var t := Edited(Parse(CStr(file)).value, ip);
    if t.None? then file else Written(t.value)
  }

  /** The file can be read, is no longer than 4 MiB, and its text begins with a tree. */
  predicate Readable(file: Option<seq<byte>>) {
    file.Some? && |file.value| <= 4 * 1024 * 1024 && Parse(CStr(file.value)).Some?
  }

  /** An entry of the blacklist in the file names the address. */
  predicate InFile(file: seq<byte>, ip: seq<byte>)
    requires Parse(CStr(file)).Some?
  {
    exists i :: 0 <= i < |Entries(Parse(CStr(file)).value)| && Names(Entries(Parse(CStr(file)).value)[i], ip)
  }

  /**
    When the call succeeds and when it writes: an address is written exactly if the file can be read
    and written and does not list it; what is no address is let pass, except the empty text.
   */
  lemma PersistIff(isIp: seq<byte> -> bool, file: Option<seq<byte>>, ip: seq<byte>, writable: bool)
    ensures var r := Persisted(isIp, file, ip, writable);
            && (r.ok <==> ip != [] && (isIp(ip) ==> Readable(file) && (InFile(file.value, ip) || writable)))
            && (r.rewritten.Some? <==> ip != [] && isIp(ip) && Readable(file) && !InFile(file.value, ip) && writable)
            && (r.rewritten.Some? ==> r.ok && r.rewritten == Some(NextFile(file.value, ip)))
  {
    if Readable(file) {
      NotListed(Parse(CStr(file.value)).value, ip);
    }
  }

  /** The file changes only through such a write. */
  lemma SavedIff(isIp: seq<byte> -> bool, file: Option<seq<byte>>, ip: seq<byte>, writable: bool)
    ensures var written := ip != [] && isIp(ip) && Readable(file) && !InFile(file.value, ip) && writable;
            && (!written ==> Saved(isIp, file, ip, writable) == file)
            && (written ==> Saved(isIp, file, ip, writable) == Some(NextFile(file.value, ip)))
  {
    PersistIff(isIp, file, ip, writable);
  }

  /** The numbers of the policy file, where it parses, are printed as modelled. */
  ghost predicate Reprintable(file: Option<seq<byte>>) {
    file.Some? && Parse(CStr(file.value)).Some? ==> RecoverableOnly(Parse(CStr(file.value)).value)
  }

  /** The text of a printable tree is its own C string. */
  lemma WrittenIsCString(root: Json)
    requires NulFree(root) && RecoverableOnly(root)
    ensures CStr(Written(root)) == Written(root)
  {
    PrintHasNoNul(root, 0, true);
  }

  /** The policy file after a call of `config_persist_blacklist_ip`. */
  function Saved(isIp: seq<byte> -> bool, file: Option<seq<byte>>, ip: seq<byte>, writable: bool)
    : (next: Option<seq<byte>>)
  {
    var r := Persisted(isIp, file, ip, writable);
    if r.rewritten.Some? then r.rewritten else file
  }

  lemma SavedIsReprintable(isIp: seq<byte> -> bool, file: Option<seq<byte>>, ip: seq<byte>, writable: bool)
    requires Reprintable(file) && (isIp(ip) ==> 0 !in ip)
    ensures Reprintable(Saved(isIp, file, ip, writable))
  {
    if Persisted(isIp, file, ip, writable).rewritten.Some? {
      var t := Edited(Parse(CStr(file.value)).value, ip);
      WrittenParses(CStr(file.value), ip);
      WrittenIsCString(t.value);
    }
  }

  /** The tree of that file. */
  function NextTree(root: Json, ip: seq<byte>): (next: Json) {
    var t := Edited(root, ip);
    if t.None? then root else t.value
  }

  /**
    Persisting and loading again, for every address, listed or not. The manual entries stay as they
    were, in order, and at most 64 entries are automatic if that held before. The next load knows the
    address exactly when the file is not too long for the loader and fewer than 64 addresses stand
    before the entry that names it; an edit that is hidden counts for nothing.
   */
  lemma PersistThenLoad(file: seq<byte>, ip: seq<byte>)
    requires Parse(CStr(file)).Some? && RecoverableOnly(Parse(CStr(file)).value) && 0 !in ip && |ip| < IP_LEN - 1
    ensures var root := Parse(CStr(file)).value;
            var next := NextFile(file, ip);
            var known := LoadedIps(next);
            && Parse(CStr(next)) == Some(NextTree(root, ip))
            && (known.Some? <==> |next| <= FILE_MAX)
            && (known.Some? ==> (Holds(known.value, ip) <==> WillLoad(root, ip)))
            && (Editable(root) ==>
                  && Manual(Entries(NextTree(root, ip))) == Manual(Entries(root))
                  && (|Autos(Entries(root))| <= AUTO_MAX ==> |Autos(Entries(NextTree(root, ip)))| <= AUTO_MAX))
  {
    var root := Parse(CStr(file)).value;
    var items := Entries(root);
    if Edited(root, ip).None? {
      ListedLoadsIff(items, ip);
    } else {
      NotListed(root, ip);
      WrittenParses(CStr(file), ip);
      WrittenIsCString(Edited(root, ip).value);
      if Editable(root) {
        EditIsFound(root, ip);
        WithEntryKeeps(items, ip);
        EntryLoadsIff(items, ip);
      } else {
        EditIsHidden(root, ip);
      }
    }
  }

  lemma NotListed(root: Json, ip: seq<byte>)
    ensures Edited(root, ip).None? <==> Lists(Entries(root), ip)
  {
  }

  /**
    A verdict that was written is not written again: a second call finds it listed and leaves the
    file as it is, even where the loader never gets as far as the entry.
   */
  lemma SecondCallChangesNothing(root: Json, ip: seq<byte>)
    requires Editable(root)
    ensures Edited(NextTree(root, ip), ip) == None
  {
    var items := Entries(root);
    if Edited(root, ip).Some? {
      EditIsFound(root, ip);
      NewEntryIsAuto(ip);
      var after := WithEntry(items, ip);
      assert Names(after[|after| - 1], ip);
      NotListed(Edited(root, ip).value, ip);
    }
  }
}
