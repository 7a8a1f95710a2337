/**
  The language of the JSON parser, as a grammar over the trees: where in a buffer a tree stands
  written. The parser accepts exactly that, and reads that tree.
 */
module JsonGrammar {
  import opened Base
  import opened JsonTree
  import JsonText
  import JsonNumber

  /** Blanks are all bytes up to the space, control bytes included. */
  predicate Blank(c: seq<byte>, a: nat, b: nat) { a <= b <= |c| && forall i :: a <= i < b ==> c[i] <= 0x20 }

  predicate Word(c: seq<byte>, i: nat, j: nat, word: seq<byte>) { i <= j <= |c| && c[i..j] == word }

  predicate Mark(c: seq<byte>, i: nat, b: byte) { i < |c| && c[i] == b }

  predicate StartsNumber(c: seq<byte>, i: nat) { i < |c| && (c[i] == 0x2D || 0x30 <= c[i] <= 0x39) }

  /** `s` is what stands in `bytes` in front of their first NUL. */
  predicate BeforeNul(bytes: seq<byte>, s: seq<byte>) {
    |s| <= |bytes| && bytes[..|s|] == s && 0 !in s && (|s| < |bytes| ==> bytes[|s|] == 0)
  }

  /** A quoted string that stands from `i` to `j`, cut at its first NUL. */
  predicate Literal(c: seq<byte>, i: nat, j: nat, s: seq<byte>) {
    && Mark(c, i, 0x22) && JsonText.StringAt(c, i).Some? && JsonText.StringAt(c, i).value.1 == j
    && BeforeNul(JsonText.StringAt(c, i).value.0, s)
  }

  /** The tree `t` stands written in `c` from `i` to `j`. */
  ghost predicate Stands(c: seq<byte>, i: nat, j: nat, t: Json)
    decreases t, 1
  {
    match t
    case Null => Word(c, i, j, [0x6E, 0x75, 0x6C, 0x6C])
    case False => Word(c, i, j, [0x66, 0x61, 0x6C, 0x73, 0x65])
    case True => Word(c, i, j, [0x74, 0x72, 0x75, 0x65])
    case Number(n) => StartsNumber(c, i) && NumberAt(c, i) == Some((t, j))
    case String(s) => Literal(c, i, j, s)
    case Array(items) => Mark(c, i, 0x5B) && ItemsFollow(c, i + 1, j, items)
    case Object(ms) => Mark(c, i, 0x7B) && MembersFollow(c, i + 1, j, ms)
  }

  /** Blanks, and items with commas between them up to and with the closing bracket. */
  ghost predicate ItemsFollow(c: seq<byte>, z: nat, j: nat, items: seq<Json>)
    decreases items, 3
  {
    exists p: nat :: Blank(c, z, p) && ItemsStand(c, p, j, items)
  }

  ghost predicate ItemsStand(c: seq<byte>, p: nat, j: nat, items: seq<Json>)
    decreases items, 2
  {
    if items == [] then Mark(c, p, 0x5D) && j == p + 1
    else exists e: nat :: Stands(c, p, e, items[0]) && ItemsGoOn(c, e, j, items[1..])
  }

  /** Blanks, and the closing bracket or a comma and the other items. */
  ghost predicate ItemsGoOn(c: seq<byte>, e: nat, j: nat, rest: seq<Json>)
    decreases rest, 5
  {
    exists q: nat :: Blank(c, e, q) && ItemsGoOnAt(c, q, j, rest)
  }

  ghost predicate ItemsGoOnAt(c: seq<byte>, q: nat, j: nat, rest: seq<Json>)
    decreases rest, 4
  {
    if rest == [] then Mark(c, q, 0x5D) && j == q + 1 else Mark(c, q, 0x2C) && ItemsFollow(c, q + 1, j, rest)
  }

  ghost predicate MembersFollow(c: seq<byte>, z: nat, j: nat, ms: seq<Member>)
    decreases ms, 3
  {
    exists p: nat :: Blank(c, z, p) && MembersStand(c, p, j, ms)
  }

  ghost predicate MembersStand(c: seq<byte>, p: nat, j: nat, ms: seq<Member>)
    decreases ms, 2
  {
    if ms == [] then Mark(c, p, 0x7D) && j == p + 1
    else exists e: nat :: MemberStands(c, p, e, ms[0]) && MembersGoOn(c, e, j, ms[1..])
  }

  ghost predicate MembersGoOn(c: seq<byte>, e: nat, j: nat, rest: seq<Member>)
    decreases rest, 5
  {
    exists q: nat :: Blank(c, e, q) && MembersGoOnAt(c, q, j, rest)
  }

  ghost predicate MembersGoOnAt(c: seq<byte>, q: nat, j: nat, rest: seq<Member>)
    decreases rest, 4
  {
    if rest == [] then Mark(c, q, 0x7D) && j == q + 1 else Mark(c, q, 0x2C) && MembersFollow(c, q + 1, j, rest)
  }

  /** A quoted key, a colon and a value, with blanks around the colon. */
  ghost predicate MemberStands(c: seq<byte>, p: nat, j: nat, m: Member)
    decreases m, 4
  {
    exists e: nat, k: nat, v: nat ::
      && Literal(c, p, e, m.key) && Blank(c, e, k) && ColonLeadsTo(c, k, v) && Stands(c, v, j, m.value)
  }

  predicate ColonLeadsTo(c: seq<byte>, k: nat, v: nat) { Mark(c, k, 0x3A) && Blank(c, k + 1, v) }

  //
  // Blanks and words
  //

  lemma {:induction false} SkipBlankIs(c: seq<byte>, a: nat)
    requires a <= |c|
    ensures Blank(c, a, SkipBlank(c, a))
    decreases |c| - a
  {
    if a < |c| && c[a] <= 32 {
      SkipBlankIs(c, a + 1);
    }
  }

  lemma SkipIsBlank(c: seq<byte>, a: nat)
    requires SkipWs(c, a) < |c|
    ensures Blank(c, a, SkipWs(c, a))
  {
    SkipBlankIs(c, a);
  }

  lemma BlankIsSkipped(c: seq<byte>, a: nat, b: nat)
    requires Blank(c, a, b) && b < |c| && c[b] > 0x20
    ensures SkipWs(c, a) == b
  {
    SkipTo(c, a, b);
  }

  lemma WordIff(c: seq<byte>, i: nat, word: seq<byte>)
    requires word != []
    ensures HasText(c, i, word) <==> Word(c, i, i + |word|, word)
  {
    if i <= |c| {
      HasTextSlice(c, i, word);
    } else if HasText(c, i, word) {
      HasTextFits(c, i, word);
    }
  }

  lemma {:induction false} CStrIsBeforeNul(bytes: seq<byte>)
    ensures BeforeNul(bytes, CStr(bytes))
    decreases |bytes|
  {
    if bytes != [] && bytes[0] != 0 {
      CStrIsBeforeNul(bytes[1..]);
      var s := CStr(bytes);
      assert s == [bytes[0]] + CStr(bytes[1..]);
      assert bytes[..|s|] == [bytes[0]] + bytes[1..][..|s| - 1];
    }
  }

  lemma OneBeforeNul(bytes: seq<byte>, r: seq<byte>, s: seq<byte>)
    requires BeforeNul(bytes, r)
    ensures BeforeNul(bytes, s) ==> s == r
  {
    assert forall i :: 0 <= i < |r| ==> bytes[i] == bytes[..|r|][i] && bytes[i] != 0;
    assert BeforeNul(bytes, s) ==> forall i :: 0 <= i < |s| ==> bytes[i] == bytes[..|s|][i] && bytes[i] != 0;
  }

  lemma BeforeNulIff(bytes: seq<byte>, s: seq<byte>)
    ensures BeforeNul(bytes, s) <==> s == CStr(bytes)
  {
    CStrIsBeforeNul(bytes);
    OneBeforeNul(bytes, CStr(bytes), s);
  }

  lemma LiteralIff(c: seq<byte>, i: nat, j: nat, s: seq<byte>)
    requires Mark(c, i, 0x22)
    ensures Literal(c, i, j, s) <==>
        JsonText.StringAt(c, i).Some? && JsonText.StringAt(c, i).value.1 == j && CStr(JsonText.StringAt(c, i).value.0) == s
  {
    if JsonText.StringAt(c, i).Some? {
      BeforeNulIff(JsonText.StringAt(c, i).value.0, s);
    }
  }

  /** How a tree begins tells its kind. */
  predicate Begins(b: byte, t: Json) {
    match t
    case Null => b == 0x6E
    case False => b == 0x66
    case True => b == 0x74
    case Number(n) => b == 0x2D || 0x30 <= b <= 0x39
    case String(s) => b == 0x22
    case Array(items) => b == 0x5B
    case Object(ms) => b == 0x7B
  }

  lemma WordBegins(c: seq<byte>, i: nat, j: nat, word: seq<byte>)
    requires word != [] && Word(c, i, j, word)
    ensures i < j <= |c| && c[i] == word[0] && j == i + |word|
  {
    assert c[i] == c[i..j][0];
  }

  lemma StandsBegins(c: seq<byte>, i: nat, j: nat, t: Json)
    requires Stands(c, i, j, t)
    ensures i < |c| && Begins(c[i], t) && c[i] > 0x20
  {
    match t
    case Null => WordBegins(c, i, j, [0x6E, 0x75, 0x6C, 0x6C]);
    case False => WordBegins(c, i, j, [0x66, 0x61, 0x6C, 0x73, 0x65]);
    case True => WordBegins(c, i, j, [0x74, 0x72, 0x75, 0x65]);
    case _ =>
  }

  //
  // What the parser accepts stands there
  //

  lemma SomeItems(c: seq<byte>, p: nat, d: nat)
    ensures ParseItems(c, p, d).Some? ==> ParseItems(c, p, d).value.0 != []
  {
  }

  lemma SomeMembers(c: seq<byte>, p: nat, d: nat)
    ensures ParseMembers(c, p, d).Some? ==> ParseMembers(c, p, d).value.0 != []
  {
  }

  /** Kept folded, as `ValueIs` is. */
  ghost predicate MemberIs(c: seq<byte>, p: nat, d: nat, m: Member, q: nat) {
    forall n: nat {:trigger Unfold(n)} :: Unfold(n) ==> ParseMember(c, p, d) == Some((m, q))
  }

  /** One step of the item parser. */
  lemma ItemsParts(c: seq<byte>, p: nat, d: nat, items: seq<Json>, j: nat) returns (e: nat, q: nat, z: nat)
    requires ItemsAre(c, p, d, Some((items, j)))
    ensures items != [] && ValueIs(c, p, d, Some((items[0], e)))
    ensures q == SkipWs(c, e) < |c| && p < z == SkipWs(c, q + 1)
    ensures items[1..] == [] ==> Mark(c, q, 0x5D) && j == q + 1
    ensures items[1..] != [] ==> Mark(c, q, 0x2C) && ItemsAre(c, z, d, Some((items[1..], j)))
  {
    assert Unfold(0);
    e := ParseValue(c, p, d).value.1;
    q := SkipWs(c, e);
    z := SkipWs(c, q + 1);
    if c[q] == 0x2C {
      SomeItems(c, z, d);
      assert items[1..] == ParseItems(c, z, d).value.0;
    } else {
      assert items[1..] == [];
    }
  }

  lemma MembersParts(c: seq<byte>, p: nat, d: nat, ms: seq<Member>, j: nat) returns (q: nat, z: nat)
    requires MembersAre(c, p, d, Some((ms, j)))
    ensures ms != [] && MemberIs(c, p, d, ms[0], q) && p < q < |c| && z == SkipWs(c, q + 1)
    ensures ms[1..] == [] ==> Mark(c, q, 0x7D) && j == q + 1
    ensures ms[1..] != [] ==> Mark(c, q, 0x2C) && MembersAre(c, z, d, Some((ms[1..], j)))
  {
    assert Unfold(0);
    q := ParseMember(c, p, d).value.1;
    z := SkipWs(c, q + 1);
    if c[q] == 0x2C {
      SomeMembers(c, z, d);
      assert ms[1..] == ParseMembers(c, z, d).value.0;
    } else {
      assert ms[1..] == [];
    }
  }

  lemma MemberParts(c: seq<byte>, p: nat, d: nat, m: Member, q: nat) returns (e: nat, k: nat, v: nat, z: nat)
    requires MemberIs(c, p, d, m, q)
    ensures Literal(c, p, e, m.key) && k == SkipWs(c, e) && Mark(c, k, 0x3A)
    ensures p < v == SkipWs(c, k + 1) && ValueIs(c, v, d, Some((m.value, z))) && q == SkipWs(c, z)
  {
    assert Unfold(0);
    e := JsonText.StringAt(c, p).value.1;
    k := SkipWs(c, e);
    v := SkipWs(c, k + 1);
    z := ParseValue(c, v, d).value.1;
    LiteralIff(c, p, e, m.key);
  }

  lemma ItemsStandStep(c: seq<byte>, p: nat, e: nat, q: nat, z: nat, j: nat, items: seq<Json>)
    requires items != [] && Stands(c, p, e, items[0]) && q == SkipWs(c, e) < |c| && z == SkipWs(c, q + 1)
    requires items[1..] == [] ==> Mark(c, q, 0x5D) && j == q + 1
    requires items[1..] != [] ==> Mark(c, q, 0x2C) && z < |c| && ItemsStand(c, z, j, items[1..])
    ensures ItemsStand(c, p, j, items)
  {
    SkipIsBlank(c, e);
    if items[1..] != [] {
      SkipIsBlank(c, q + 1);
      assert ItemsFollow(c, q + 1, j, items[1..]);
    }
    assert ItemsGoOnAt(c, q, j, items[1..]);
    assert ItemsGoOn(c, e, j, items[1..]);
  }

  lemma MembersStandStep(c: seq<byte>, p: nat, e: nat, q: nat, z: nat, j: nat, ms: seq<Member>)
    requires ms != [] && MemberStands(c, p, e, ms[0]) && q == SkipWs(c, e) < |c| && z == SkipWs(c, q + 1)
    requires ms[1..] == [] ==> Mark(c, q, 0x7D) && j == q + 1
    requires ms[1..] != [] ==> Mark(c, q, 0x2C) && z < |c| && MembersStand(c, z, j, ms[1..])
    ensures MembersStand(c, p, j, ms)
  {
    SkipIsBlank(c, e);
    if ms[1..] != [] {
      SkipIsBlank(c, q + 1);
      assert MembersFollow(c, q + 1, j, ms[1..]);
    }
    assert MembersGoOnAt(c, q, j, ms[1..]);
    assert MembersGoOn(c, e, j, ms[1..]);
  }

  lemma MemberStandsStep(c: seq<byte>, p: nat, e: nat, k: nat, v: nat, j: nat, m: Member)
    requires Literal(c, p, e, m.key) && k == SkipWs(c, e) && Mark(c, k, 0x3A) && v == SkipWs(c, k + 1) < |c|
    requires Stands(c, v, j, m.value)
    ensures MemberStands(c, p, j, m)
  {
    SkipIsBlank(c, e);
    SkipIsBlank(c, k + 1);
    assert ColonLeadsTo(c, k, v);
  }

  lemma LeafStands(c: seq<byte>, i: nat, d: nat, t: Json, j: nat)
    requires ValueIs(c, i, d, Some((t, j))) && !t.Array? && !t.Object?
    ensures Stands(c, i, j, t)
  {
    assert Unfold(0);
    assert ParseValue(c, i, d) == Some((t, j));
    if t.String? {
      LiteralIff(c, i, j, t.s);
    }
    WordIff(c, i, NULL_TEXT);
    WordIff(c, i, FALSE_TEXT);
    WordIff(c, i, TRUE_TEXT);
  }

  lemma ArrayOpens(c: seq<byte>, i: nat, d: nat, items: seq<Json>, j: nat) returns (p: nat)
    requires ValueIs(c, i, d, Some((Array(items), j)))
    ensures Mark(c, i, 0x5B) && i < p == SkipWs(c, i + 1) < |c|
    ensures if items == [] then Mark(c, p, 0x5D) && j == p + 1 else ItemsAre(c, p, d + 1, Some((items, j)))
  {
    assert Unfold(0);
    assert ParseValue(c, i, d) == Some((Array(items), j));
    p := SkipWs(c, i + 1);
    SomeItems(c, p, d + 1);
  }

  lemma ObjectOpens(c: seq<byte>, i: nat, d: nat, ms: seq<Member>, j: nat) returns (p: nat)
    requires ValueIs(c, i, d, Some((Object(ms), j)))
    ensures Mark(c, i, 0x7B) && i < p == SkipWs(c, i + 1) < |c|
    ensures if ms == [] then Mark(c, p, 0x7D) && j == p + 1 else MembersAre(c, p, d + 1, Some((ms, j)))
  {
    assert Unfold(0);
    assert ParseValue(c, i, d) == Some((Object(ms), j));
    p := SkipWs(c, i + 1);
    SomeMembers(c, p, d + 1);
  }

  lemma ArrayStands(c: seq<byte>, i: nat, p: nat, j: nat, items: seq<Json>)
    requires Mark(c, i, 0x5B) && p == SkipWs(c, i + 1) < |c| && ItemsStand(c, p, j, items)
    ensures Stands(c, i, j, Array(items))
  {
    SkipIsBlank(c, i + 1);
    assert ItemsFollow(c, i + 1, j, items);
  }

  lemma ObjectStands(c: seq<byte>, i: nat, p: nat, j: nat, ms: seq<Member>)
    requires Mark(c, i, 0x7B) && p == SkipWs(c, i + 1) < |c| && MembersStand(c, p, j, ms)
    ensures Stands(c, i, j, Object(ms))
  {
    SkipIsBlank(c, i + 1);
    assert MembersFollow(c, i + 1, j, ms);
  }

  lemma {:induction false} ParsedStands(c: seq<byte>, i: nat, d: nat, t: Json, j: nat)
    requires ValueIs(c, i, d, Some((t, j)))
    ensures i < |c| && Stands(c, i, j, t)
    decreases t, 1
  {
    match t
    case Array(items) =>
      var p := ArrayOpens(c, i, d, items, j);
      if items != [] {
        ParsedItemsStand(c, p, d + 1, items, j);
      }
      ArrayStands(c, i, p, j, items);
    case Object(ms) =>
      var p := ObjectOpens(c, i, d, ms, j);
      if ms != [] {
        ParsedMembersStand(c, p, d + 1, ms, j);
      }
      ObjectStands(c, i, p, j, ms);
    case _ =>
      LeafStands(c, i, d, t, j);
      StandsBegins(c, i, j, t);
  }

  lemma {:induction false} ParsedItemsStand(c: seq<byte>, p: nat, d: nat, items: seq<Json>, j: nat)
    requires ItemsAre(c, p, d, Some((items, j)))
    ensures p < |c| && ItemsStand(c, p, j, items)
    decreases items, 0
  {
    var e, q, z := ItemsParts(c, p, d, items, j);
    ParsedStands(c, p, d, items[0], e);
    if items[1..] != [] {
      ParsedItemsStand(c, z, d, items[1..], j);
    }
    ItemsStandStep(c, p, e, q, z, j, items);
  }

  lemma {:induction false} ParsedMembersStand(c: seq<byte>, p: nat, d: nat, ms: seq<Member>, j: nat)
    requires MembersAre(c, p, d, Some((ms, j)))
    ensures p < |c| && MembersStand(c, p, j, ms)
    decreases ms, 0
  {
    var q, z := MembersParts(c, p, d, ms, j);
    var e := ParsedMemberStands(c, p, d, ms[0], q);
    if ms[1..] != [] {
      ParsedMembersStand(c, z, d, ms[1..], j);
    }
    MembersStandStep(c, p, e, q, z, j, ms);
  }

  lemma {:induction false} ParsedMemberStands(c: seq<byte>, p: nat, d: nat, m: Member, q: nat) returns (z: nat)
    requires MemberIs(c, p, d, m, q)
    ensures MemberStands(c, p, z, m) && q == SkipWs(c, z)
    decreases m, 2
  {
    var e, k, v, z' := MemberParts(c, p, d, m, q);
    z := z';
    ParsedStands(c, v, d, m.value, z);
    MemberStandsStep(c, p, e, k, v, z, m);
  }

  //
  // What stands there is accepted
  //

  lemma ItemsBegin(c: seq<byte>, p: nat, j: nat, items: seq<Json>)
    requires items != [] && ItemsStand(c, p, j, items)
    ensures p < |c| && c[p] > 0x20 && c[p] != 0x5D
  {
    var e: nat :| Stands(c, p, e, items[0]) && ItemsGoOn(c, e, j, items[1..]);
    StandsBegins(c, p, e, items[0]);
  }

  lemma MembersBegin(c: seq<byte>, p: nat, j: nat, ms: seq<Member>)
    requires ms != [] && MembersStand(c, p, j, ms)
    ensures Mark(c, p, 0x22)
  {
    var e: nat :| MemberStands(c, p, e, ms[0]) && MembersGoOn(c, e, j, ms[1..]);
  }

  lemma ItemsFollowAt(c: seq<byte>, z: nat, j: nat, items: seq<Json>) returns (p: nat)
    requires items != [] && ItemsFollow(c, z, j, items)
    ensures SkipWs(c, z) == p && ItemsStand(c, p, j, items)
  {
    p :| Blank(c, z, p) && ItemsStand(c, p, j, items);
    ItemsBegin(c, p, j, items);
    BlankIsSkipped(c, z, p);
  }

  lemma ItemsStandParts(c: seq<byte>, p: nat, j: nat, items: seq<Json>) returns (e: nat, q: nat, z: nat)
    requires items != [] && ItemsStand(c, p, j, items)
    ensures Stands(c, p, e, items[0]) && q == SkipWs(c, e) && z == SkipWs(c, q + 1)
    ensures items[1..] == [] ==> Mark(c, q, 0x5D) && j == q + 1
    ensures items[1..] != [] ==> Mark(c, q, 0x2C) && ItemsStand(c, z, j, items[1..])
  {
    e :| Stands(c, p, e, items[0]) && ItemsGoOn(c, e, j, items[1..]);
    q :| Blank(c, e, q) && ItemsGoOnAt(c, q, j, items[1..]);
    BlankIsSkipped(c, e, q);
    z := SkipWs(c, q + 1);
    if items[1..] != [] {
      z := ItemsFollowAt(c, q + 1, j, items[1..]);
    }
  }

  lemma MembersFollowAt(c: seq<byte>, z: nat, j: nat, ms: seq<Member>) returns (p: nat)
    requires ms != [] && MembersFollow(c, z, j, ms)
    ensures SkipWs(c, z) == p && MembersStand(c, p, j, ms)
  {
    p :| Blank(c, z, p) && MembersStand(c, p, j, ms);
    MembersBegin(c, p, j, ms);
    BlankIsSkipped(c, z, p);
  }

  lemma MembersStandParts(c: seq<byte>, p: nat, j: nat, ms: seq<Member>) returns (e: nat, q: nat, z: nat)
    requires ms != [] && MembersStand(c, p, j, ms)
    ensures MemberStands(c, p, e, ms[0]) && q == SkipWs(c, e) && z == SkipWs(c, q + 1)
    ensures ms[1..] == [] ==> Mark(c, q, 0x7D) && j == q + 1
    ensures ms[1..] != [] ==> Mark(c, q, 0x2C) && MembersStand(c, z, j, ms[1..])
  {
    e :| MemberStands(c, p, e, ms[0]) && MembersGoOn(c, e, j, ms[1..]);
    q :| Blank(c, e, q) && MembersGoOnAt(c, q, j, ms[1..]);
    BlankIsSkipped(c, e, q);
    z := SkipWs(c, q + 1);
    if ms[1..] != [] {
      z := MembersFollowAt(c, q + 1, j, ms[1..]);
    }
  }

  lemma MemberStandsParts(c: seq<byte>, p: nat, j: nat, m: Member) returns (e: nat, k: nat, v: nat)
    requires MemberStands(c, p, j, m)
    ensures Literal(c, p, e, m.key) && k == SkipWs(c, e) && Mark(c, k, 0x3A)
    ensures v == SkipWs(c, k + 1) && Stands(c, v, j, m.value)
  {
    e, k, v :| Literal(c, p, e, m.key) && Blank(c, e, k) && ColonLeadsTo(c, k, v) && Stands(c, v, j, m.value);
    StandsBegins(c, v, j, m.value);
    BlankIsSkipped(c, e, k);
    BlankIsSkipped(c, k + 1, v);
  }

  lemma NestingOfItems(items: seq<Json>)
    requires items != []
    ensures Nesting(items[0]) <= NestingItems(items) && NestingItems(items[1..]) <= NestingItems(items)
  {
  }

  lemma NestingOfMembers(ms: seq<Member>)
    requires ms != []
    ensures Nesting(ms[0].value) <= NestingMembers(ms) && NestingMembers(ms[1..]) <= NestingMembers(ms)
  {
  }

  lemma ItemsParsed(c: seq<byte>, p: nat, e: nat, q: nat, z: nat, j: nat, items: seq<Json>, d: nat)
    requires items != [] && ValueIs(c, p, d, Some((items[0], e))) && q == SkipWs(c, e) && z == SkipWs(c, q + 1)
    requires items[1..] == [] ==> Mark(c, q, 0x5D) && j == q + 1
    requires items[1..] != [] ==> Mark(c, q, 0x2C) && ItemsAre(c, z, d, Some((items[1..], j)))
    ensures ItemsAre(c, p, d, Some((items, j)))
  {
    assert Unfold(0);
    Uncons(items);
    assert items[1..] == [] ==> items == [items[0]];
  }

  lemma MembersParsed(c: seq<byte>, p: nat, q: nat, z: nat, j: nat, ms: seq<Member>, d: nat)
    requires ms != [] && MemberIs(c, p, d, ms[0], q) && z == SkipWs(c, q + 1)
    requires ms[1..] == [] ==> Mark(c, q, 0x7D) && j == q + 1
    requires ms[1..] != [] ==> Mark(c, q, 0x2C) && MembersAre(c, z, d, Some((ms[1..], j)))
    ensures MembersAre(c, p, d, Some((ms, j)))
  {
    assert Unfold(0);
    Uncons(ms);
    assert ms[1..] == [] ==> ms == [ms[0]];
  }

  lemma MemberParsed(c: seq<byte>, p: nat, e: nat, k: nat, v: nat, z: nat, m: Member, d: nat)
    requires Literal(c, p, e, m.key) && k == SkipWs(c, e) && Mark(c, k, 0x3A)
    requires v == SkipWs(c, k + 1) && ValueIs(c, v, d, Some((m.value, z)))
    ensures MemberIs(c, p, d, m, SkipWs(c, z))
  {
    assert Unfold(0);
    LiteralIff(c, p, e, m.key);
  }

  lemma ArrayParsed(c: seq<byte>, i: nat, p: nat, j: nat, items: seq<Json>, d: nat)
    requires d < NESTING_LIMIT && Mark(c, i, 0x5B) && p == SkipWs(c, i + 1) < |c|
    requires items == [] ==> Mark(c, p, 0x5D) && j == p + 1
    requires items != [] ==> c[p] != 0x5D && ItemsAre(c, p, d + 1, Some((items, j)))
    ensures ValueIs(c, i, d, Some((Array(items), j)))
  {
    assert Unfold(0);
    NoLiteral(c, i);
  }

  lemma ObjectParsed(c: seq<byte>, i: nat, p: nat, j: nat, ms: seq<Member>, d: nat)
    requires d < NESTING_LIMIT && Mark(c, i, 0x7B) && p == SkipWs(c, i + 1) < |c|
    requires ms == [] ==> Mark(c, p, 0x7D) && j == p + 1
    requires ms != [] ==> c[p] != 0x7D && MembersAre(c, p, d + 1, Some((ms, j)))
    ensures ValueIs(c, i, d, Some((Object(ms), j)))
  {
    assert Unfold(0);
    NoLiteral(c, i);
  }

  lemma LeafParsed(c: seq<byte>, i: nat, j: nat, t: Json, d: nat)
    requires Stands(c, i, j, t) && !t.Array? && !t.Object?
    ensures ValueIs(c, i, d, Some((t, j)))
  {
    StandsBegins(c, i, j, t);
    WordIff(c, i, NULL_TEXT);
    WordIff(c, i, FALSE_TEXT);
    WordIff(c, i, TRUE_TEXT);
    match t
    case Null =>
    case False => OtherLiteral(c, i, NULL_TEXT);
    case True =>
      OtherLiteral(c, i, NULL_TEXT);
      OtherLiteral(c, i, FALSE_TEXT);
    case Number(_) => NoLiteral(c, i);
    case String(s) =>
      NoLiteral(c, i);
      LiteralIff(c, i, j, s);
  }

  lemma {:induction false} StandsParsed(c: seq<byte>, i: nat, j: nat, t: Json, d: nat)
    requires Stands(c, i, j, t) && d + Nesting(t) <= NESTING_LIMIT
    ensures ValueIs(c, i, d, Some((t, j)))
    decreases t, 1
  {
    match t
    case Array(items) =>
      var p := ArrayStandParsed(c, i + 1, j, items, d + 1);
      ArrayParsed(c, i, p, j, items, d);
    case Object(ms) =>
      var p := ObjectStandParsed(c, i + 1, j, ms, d + 1);
      ObjectParsed(c, i, p, j, ms, d);
    case _ => LeafParsed(c, i, j, t, d);
  }

  lemma {:induction false} ArrayStandParsed(c: seq<byte>, z: nat, j: nat, items: seq<Json>, d: nat) returns (p: nat)
    requires ItemsFollow(c, z, j, items) && d + NestingItems(items) <= NESTING_LIMIT
    ensures p == SkipWs(c, z) < |c|
    ensures items == [] ==> Mark(c, p, 0x5D) && j == p + 1
    ensures items != [] ==> c[p] != 0x5D && ItemsAre(c, p, d, Some((items, j)))
    decreases items, 2
  {
    if items == [] {
      p :| Blank(c, z, p) && ItemsStand(c, p, j, items);
      BlankIsSkipped(c, z, p);
    } else {
      p := ItemsFollowAt(c, z, j, items);
      ItemsBegin(c, p, j, items);
      ItemsStandParsed(c, p, j, items, d);
    }
  }

  lemma {:induction false} ItemsStandParsed(c: seq<byte>, p: nat, j: nat, items: seq<Json>, d: nat)
    requires items != [] && ItemsStand(c, p, j, items) && d + NestingItems(items) <= NESTING_LIMIT
    ensures ItemsAre(c, p, d, Some((items, j)))
    decreases items, 1
  {
    var e, q, z := ItemsStandParts(c, p, j, items);
    NestingOfItems(items);
    StandsParsed(c, p, e, items[0], d);
    if items[1..] != [] {
      ItemsStandParsed(c, z, j, items[1..], d);
    }
    ItemsParsed(c, p, e, q, z, j, items, d);
  }

  lemma {:induction false} ObjectStandParsed(c: seq<byte>, z: nat, j: nat, ms: seq<Member>, d: nat) returns (p: nat)
    requires MembersFollow(c, z, j, ms) && d + NestingMembers(ms) <= NESTING_LIMIT
    ensures p == SkipWs(c, z) < |c|
    ensures ms == [] ==> Mark(c, p, 0x7D) && j == p + 1
    ensures ms != [] ==> c[p] != 0x7D && MembersAre(c, p, d, Some((ms, j)))
    decreases ms, 2
  {
    if ms == [] {
      p :| Blank(c, z, p) && MembersStand(c, p, j, ms);
      BlankIsSkipped(c, z, p);
    } else {
      p := MembersFollowAt(c, z, j, ms);
      MembersBegin(c, p, j, ms);
      MembersStandParsed(c, p, j, ms, d);
    }
  }

  lemma {:induction false} MembersStandParsed(c: seq<byte>, p: nat, j: nat, ms: seq<Member>, d: nat)
    requires ms != [] && MembersStand(c, p, j, ms) && d + NestingMembers(ms) <= NESTING_LIMIT
    ensures MembersAre(c, p, d, Some((ms, j)))
    decreases ms, 1
  {
    var e, q, z := MembersStandParts(c, p, j, ms);
    NestingOfMembers(ms);
    MemberStandsParsed(c, p, e, ms[0], d);
    if ms[1..] != [] {
      MembersStandParsed(c, z, j, ms[1..], d);
    }
    MembersParsed(c, p, q, z, j, ms, d);
  }

  lemma {:induction false} MemberStandsParsed(c: seq<byte>, p: nat, j: nat, m: Member, d: nat)
    requires MemberStands(c, p, j, m) && d + Nesting(m.value) <= NESTING_LIMIT
    ensures MemberIs(c, p, d, m, SkipWs(c, j))
    decreases m, 2
  {
    var e, k, v := MemberStandsParts(c, p, j, m);
    StandsParsed(c, v, j, m.value, d);
    MemberParsed(c, p, e, k, v, j, m, d);
  }

  /** At any place and depth the parser reads a tree exactly where that tree stands and nests within the limit. */
  lemma ParsesIff(c: seq<byte>, i: nat, j: nat, t: Json, d: nat)
    requires d <= NESTING_LIMIT
    ensures ParseValue(c, i, d) == Some((t, j)) <==> Stands(c, i, j, t) && d + Nesting(t) <= NESTING_LIMIT
  {
    if ParseValue(c, i, d) == Some((t, j)) {
      ParsedStands(c, i, d, t, j);
      ParsedValueBounded(c, i, d);
    }
    if Stands(c, i, j, t) && d + Nesting(t) <= NESTING_LIMIT {
      StandsParsed(c, i, j, t, d);
      assert Unfold(0);
    }
  }

  predicate HasBom(text: seq<byte>) { |text| >= 3 && text[0] == 0xEF && text[1] == 0xBB && text[2] == 0xBF }

  /** The text, behind a byte order mark and blanks, begins with the tree. */
  ghost predicate TextIs(text: seq<byte>, t: Json) {
    exists i: nat, j: nat :: Blank(text + [0], if HasBom(text) then 3 else 0, i) && Stands(text + [0], i, j, t)
  }

  lemma BomEndIs(text: seq<byte>, b: nat)
    requires b == if HasBom(text) then 3 else 0
    ensures |text| != 3 || !HasBom(text) ==> BomEnd(text + [0]) == b
    ensures |text| == 3 && HasBom(text) ==> BomEnd(text + [0]) == 0
  {
    var c := text + [0];
    assert |c| > 4 ==> (c[..3] == [0xEF, 0xBB, 0xBF] <==> c[0] == 0xEF && c[1] == 0xBB && c[2] == 0xBF);
  }

  /**
    The parser accepts exactly the texts that begin with a tree of at most 1000 containers in one
    another, and gives that tree. What follows it is not looked at.
   */
  lemma ParseIff(text: seq<byte>, t: Json)
    ensures Parse(text) == Some(t) <==> TextIs(text, t) && Nesting(t) <= 1000
  {
    var c := text + [0];
    var b := if HasBom(text) then 3 else 0;
    var p := SkipWs(c, BomEnd(c));
    BomEndIs(text, b);
    if Parse(text) == Some(t) {
      var j := ParseValue(c, p, 0).value.1;
      ParsesIff(c, p, j, t, 0);
      StandsBegins(c, p, j, t);
      SkipIsBlank(c, BomEnd(c));
      assert BomEnd(c) == b by {
        if b != BomEnd(c) {
          BlankIsSkipped(c, 0, 0);
        }
      }
    }
    if TextIs(text, t) && Nesting(t) <= 1000 {
      var i: nat, j: nat :| Blank(c, b, i) && Stands(c, i, j, t);
      StandsBegins(c, i, j, t);
      BlankIsSkipped(c, b, i);
      ParsesIff(c, i, j, t, 0);
    }
  }

  //
  // How a tree is laid out
  //

  lemma LastItemText(b: Json, depth: nat, fmt: bool)
    ensures PrintItems([b], depth, fmt) == PrintValue(b, depth, fmt)
  {
  }

  lemma TwoItems(a: Json, b: Json, depth: nat, fmt: bool)
    ensures PrintItems([a, b], depth, fmt) == PrintValue(a, depth, fmt) + Separator(fmt) + PrintValue(b, depth, fmt)
  {
    assert [a, b][1..] == [b];
    LastItemText(b, depth, fmt);
  }

  /** Items stand on one line, with a comma between two, and a space behind it where the text is formatted. */
  lemma ArrayLayout(a: Json, b: Json, depth: nat, fmt: bool)
    ensures PrintValue(Array([a, b]), depth, fmt)
         == Octets("[") + (PrintValue(a, depth + 1, fmt) + Octets(if fmt then ", " else ",") + PrintValue(b, depth + 1, fmt))
            + Octets("]")
    ensures PrintValue(Array([]), depth, fmt) == Octets("[]")
  {
    TwoItems(a, b, depth + 1, fmt);
    assert Separator(fmt) == Octets(if fmt then ", " else ",");
    assert Octets("[") == [0x5B] && Octets("]") == [0x5D] && Octets("[]") == [0x5B, 0x5D];
  }

  /** Tabs, where the text is formatted. */
  function Tabbed(n: nat, fmt: bool): (t: seq<byte>) { if fmt then seq(n, _ => 9) else [] }

  lemma TabbedIs(n: nat, fmt: bool)
    ensures Indent(n, fmt) == Tabbed(n, fmt)
  {
  }

  /** One member: its tabs, its key, the colon, its value, and what ends its line. */
  function Line(m: Member, depth: nat, fmt: bool, end: string): (t: seq<byte>) {
    Tabbed(depth, fmt) + JsonText.Quoted(m.key) + Octets(if fmt then ":\t" else ":") + PrintValue(m.value, depth, fmt)
    + Octets(end)
  }

  lemma LineIs(m: Member, rest: seq<Member>, depth: nat, fmt: bool)
    ensures PrintMembers([m] + rest, depth, fmt)
         == Line(m, depth, fmt, if rest != [] then if fmt then ",\n" else "," else if fmt then "\n" else "")
            + PrintMembers(rest, depth, fmt)
  {
    assert ([m] + rest)[1..] == rest;
    TabbedIs(depth, fmt);
    assert Colon(fmt) == Octets(if fmt then ":\t" else ":");
    assert MemberTail(rest != [], fmt)
        == Octets(if rest != [] then if fmt then ",\n" else "," else if fmt then "\n" else "");
  }

  lemma TwoMembers(a: Member, b: Member, depth: nat, fmt: bool)
    ensures PrintMembers([a, b], depth, fmt)
         == Line(a, depth, fmt, if fmt then ",\n" else ",") + Line(b, depth, fmt, if fmt then "\n" else "")
  {
    assert [a] + [b] == [a, b] && [b] + [] == [b];
    LineIs(a, [b], depth, fmt);
    LineIs(b, [], depth, fmt);
  }

  /** Members stand on a line each, one tab deeper than their object, where the text is formatted. */
  lemma ObjectLayout(a: Member, b: Member, depth: nat, fmt: bool)
    ensures PrintValue(Object([a, b]), depth, fmt)
         == Octets(if fmt then "{\n" else "{")
            + (Line(a, depth + 1, fmt, if fmt then ",\n" else ",") + Line(b, depth + 1, fmt, if fmt then "\n" else ""))
            + (Tabbed(depth, fmt) + Octets("}"))
    ensures PrintValue(Object([]), depth, fmt) == Octets(if fmt then "{\n" else "{") + [] + (Tabbed(depth, fmt) + Octets("}"))
  {
    TwoMembers(a, b, depth + 1, fmt);
    TabbedIs(depth, fmt);
    assert Opening(fmt) == Octets(if fmt then "{\n" else "{") && Octets("}") == [0x7D];
  }
}
