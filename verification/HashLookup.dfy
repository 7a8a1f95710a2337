/**
  Lists searched by hash: two parallel arrays sorted in place by the hash of their rows, a binary
  search and a walk over the neighbours that share the hash. The hash is any function.
 */
module HashLookup {
  import opened Base

  type Hash = string -> nat

  /** A row of a list: the text its hash is taken of, and whatever else the row holds. */
  datatype Row = Row(text: string, extra: bool)

  datatype Entry = Entry(hash: nat, row: Row)

  //
  // The sort, on values
  //

  predicate Sorted(s: seq<nat>) {
    forall i, j :: 0 <= i <= j < |s| ==> s[i] <= s[j]
  }

  predicate SortedEntries(es: seq<Entry>) {
    forall i, j :: 0 <= i <= j < |es| ==> es[i].hash <= es[j].hash
  }

  /** Put `e` after the last entry whose hash is not larger. */
  function Insert(es: seq<Entry>, e: Entry): (r: seq<Entry>)
    ensures |r| == |es| + 1
  {
    if es == [] || es[|es| - 1].hash <= e.hash then es + [e]
    else Insert(es[..|es| - 1], e) + [es[|es| - 1]]
  }

  function Sort(es: seq<Entry>): (r: seq<Entry>)
    ensures |r| == |es|
  {
    if es == [] then [] else Insert(Sort(es[..|es| - 1]), es[|es| - 1])
  }

  ghost function Rows(es: seq<Entry>): (rs: seq<Row>)
    ensures |rs| == |es|
  {
    if es == [] then [] else Rows(es[..|es| - 1]) + [es[|es| - 1].row]
  }

  ghost function WithHash(es: seq<Entry>, h: nat): (r: seq<Entry>) {
    if es == [] then []
    else WithHash(es[..|es| - 1], h) + (if es[|es| - 1].hash == h then [es[|es| - 1]] else [])
  }

  lemma RowsSnoc(es: seq<Entry>, e: Entry)
    ensures Rows(es + [e]) == Rows(es) + [e.row]
  {
    assert (es + [e])[..|es|] == es;
  }

  lemma WithHashSnoc(es: seq<Entry>, e: Entry, h: nat)
    ensures WithHash(es + [e], h) == WithHash(es, h) + (if e.hash == h then [e] else [])
  {
    assert (es + [e])[..|es|] == es;
  }

  lemma {:induction false} InsertOrders(es: seq<Entry>, e: Entry)
    requires SortedEntries(es)
    ensures SortedEntries(Insert(es, e))
    ensures forall x :: x in Insert(es, e) <==> x in es || x == e
  {
    if es != [] && es[|es| - 1].hash > e.hash {
      var init, last := es[..|es| - 1], es[|es| - 1];
      InsertOrders(init, e);
      assert es == init + [last];
      SortedSnoc(Insert(init, e), last);
    } else {
      SortedSnoc(es, e);
    }
  }

  lemma SortedSnoc(es: seq<Entry>, e: Entry)
    requires SortedEntries(es) && forall x :: x in es ==> x.hash <= e.hash
    ensures SortedEntries(es + [e])
  {
  }

  lemma {:induction false} InsertKeepsRows(es: seq<Entry>, e: Entry)
    ensures multiset(Rows(Insert(es, e))) == multiset(Rows(es)) + multiset{e.row}
  {
    if es != [] && es[|es| - 1].hash > e.hash {
      InsertKeepsRows(es[..|es| - 1], e);
      RowsSnoc(Insert(es[..|es| - 1], e), es[|es| - 1]);
    } else {
      RowsSnoc(es, e);
    }
  }

  lemma {:induction false} InsertIsStable(es: seq<Entry>, e: Entry, h: nat)
    ensures WithHash(Insert(es, e), h) == WithHash(es, h) + (if e.hash == h then [e] else [])
  {
    if es != [] && es[|es| - 1].hash > e.hash {
      InsertIsStable(es[..|es| - 1], e, h);
      WithHashSnoc(Insert(es[..|es| - 1], e), es[|es| - 1], h);
    } else {
      WithHashSnoc(es, e, h);
    }
  }

  lemma {:induction false} SortOrders(es: seq<Entry>)
    ensures SortedEntries(Sort(es))
    ensures forall x :: x in Sort(es) <==> x in es
  {
    if es != [] {
      var init, last := es[..|es| - 1], es[|es| - 1];
      SortOrders(init);
      InsertOrders(Sort(init), last);
      assert es == init + [last];
    }
  }

  /** The sort loses and invents no row. */
  lemma {:induction false} SortKeepsRows(es: seq<Entry>)
    ensures multiset(Rows(Sort(es))) == multiset(Rows(es))
  {
    if es != [] {
      SortKeepsRows(es[..|es| - 1]);
      InsertKeepsRows(Sort(es[..|es| - 1]), es[|es| - 1]);
    }
  }

  /** Entries of equal hash keep the order they came in. */
  lemma {:induction false} SortIsStable(es: seq<Entry>, h: nat)
    ensures WithHash(Sort(es), h) == WithHash(es, h)
  {
    if es != [] {
      SortIsStable(es[..|es| - 1], h);
      InsertIsStable(Sort(es[..|es| - 1]), es[|es| - 1], h);
    }
  }

  //
  // The sort, in place on the parallel arrays
  //

  ghost function Zip(hashes: seq<nat>, rows: seq<Row>): (es: seq<Entry>)
    requires |hashes| == |rows|
    ensures |es| == |hashes|
  {
    seq(|hashes|, i requires 0 <= i < |hashes| => Entry(hashes[i], rows[i]))
  }

  lemma ZipSnoc(hashes: seq<nat>, rows: seq<Row>, i: nat)
    requires |hashes| == |rows| && i < |rows|
    ensures Zip(hashes[..i + 1], rows[..i + 1]) == Zip(hashes[..i], rows[..i]) + [Entry(hashes[i], rows[i])]
  {
  }

  lemma {:induction false} RowsOfZip(hashes: seq<nat>, rows: seq<Row>)
    requires |hashes| == |rows|
    ensures Rows(Zip(hashes, rows)) == rows
  {
    if rows != [] {
      var n := |rows| - 1;
      ZipSnoc(hashes, rows, n);
      assert hashes[..n + 1] == hashes && rows[..n + 1] == rows;
      RowsOfZip(hashes[..n], rows[..n]);
      RowsSnoc(Zip(hashes[..n], rows[..n]), Entry(hashes[n], rows[n]));
    }
  }

  /** Inserting from the right stops at position `j`. */
  lemma {:induction false} InsertAt(es: seq<Entry>, e: Entry, j: nat)
    requires j <= |es|
    requires forall k :: j <= k < |es| ==> es[k].hash > e.hash
    requires j > 0 ==> es[j - 1].hash <= e.hash
    ensures Insert(es, e) == es[..j] + [e] + es[j..]
  {
    if j < |es| {
      var init, last := es[..|es| - 1], es[|es| - 1];
      InsertAt(init, e, j);
      assert init[..j] == es[..j];
      assert init[j..] + [last] == es[j..];
    }
  }

  /** Arrays whose rows from `j` on moved one place right, with the pair at `i` put at `j`. */
  ghost predicate Shifted(hs: seq<nat>, rs: seq<Row>, hs0: seq<nat>, rs0: seq<Row>, i: nat, j: nat) {
    && |hs| == |rs| == |hs0| == |rs0| == i + 1 && j <= i
    && (forall k :: 0 <= k < j ==> hs[k] == hs0[k] && rs[k] == rs0[k])
    && hs[j] == hs0[i] && rs[j] == rs0[i]
    && (forall k :: j <= k < i ==> hs[k + 1] == hs0[k] && rs[k + 1] == rs0[k])
  }

  lemma ShiftedIsInsert(hs: seq<nat>, rs: seq<Row>, hs0: seq<nat>, rs0: seq<Row>, i: nat, j: nat)
    requires Shifted(hs, rs, hs0, rs0, i, j)
    requires forall k :: j <= k < i ==> hs0[k] > hs0[i]
    requires j > 0 ==> hs0[j - 1] <= hs0[i]
    ensures Zip(hs, rs) == Insert(Zip(hs0[..i], rs0[..i]), Entry(hs0[i], rs0[i]))
  {
    var es, e := Zip(hs0[..i], rs0[..i]), Entry(hs0[i], rs0[i]);
    InsertAt(es, e, j);
    var r := es[..j] + [e] + es[j..];
    assert |r| == i + 1;
    forall k | 0 <= k <= i ensures Zip(hs, rs)[k] == r[k] {
      if k > j {
        assert hs[k - 1 + 1] == hs0[k - 1] && rs[k - 1 + 1] == rs0[k - 1];
      }
    }
  }

  /** `SORT_BY_HASH`: both arrays end up as the stable sort of their pairs. */
  method SortByHash(hashes: array<nat>, rows: array<Row>, count: nat)
    requires count <= hashes.Length && count <= rows.Length
    modifies hashes, rows
    ensures Zip(hashes[..count], rows[..count]) == Sort(old(Zip(hashes[..count], rows[..count])))
    ensures hashes[count..] == old(hashes[count..]) && rows[count..] == old(rows[count..])
  {
    if count == 0 {
      return;
    }
    ghost var hs, rs := hashes[..count], rows[..count];
    SortOfOne(Zip(hs[..1], rs[..1]));
    assert hashes[..1] == hs[..1] && rows[..1] == rs[..1];
    var i := 1;
    while i < count
      invariant 1 <= i <= count
      invariant Zip(hashes[..i], rows[..i]) == Sort(Zip(hs[..i], rs[..i]))
      invariant hashes[i..] == old(hashes[i..]) && rows[i..] == old(rows[i..])
    {
      assert hashes[i] == old(hashes[i..])[0] && rows[i] == old(rows[i..])[0];
      ZipSnoc(hs, rs, i);
      SortSnoc(Zip(hs[..i], rs[..i]), Entry(hashes[i], rows[i]));
      InsertInPlace(hashes, rows, i);
      assert hashes[i + 1..] == old(hashes[i..])[1..] && rows[i + 1..] == old(rows[i..])[1..];
      i := i + 1;
    }
    assert hs[..count] == hs && rs[..count] == rs;
  }

  lemma SortOfOne(es: seq<Entry>)
    requires |es| == 1
    ensures Sort(es) == es
  {
    assert Sort(es[..0]) == [];
  }

  lemma SortSnoc(es: seq<Entry>, e: Entry)
    ensures Sort(es + [e]) == Insert(Sort(es), e)
  {
    assert (es + [e])[..|es|] == es;
  }

  /** The shift of one round: rows with a larger hash move right, and the row at `i` takes the gap. */
  method ShiftInPlace(hashes: array<nat>, rows: array<Row>, i: nat) returns (j: nat)
    requires i < hashes.Length && i < rows.Length
    modifies hashes, rows
    ensures j <= i && hashes[j] == old(hashes[i]) && rows[j] == old(rows[i])
    ensures forall k :: 0 <= k < j ==> hashes[k] == old(hashes[k]) && rows[k] == old(rows[k])
    ensures forall k :: j <= k < i ==> hashes[k + 1] == old(hashes[k]) && rows[k + 1] == old(rows[k])
    ensures forall k :: j <= k < i ==> old(hashes[k]) > old(hashes[i])
    ensures j > 0 ==> old(hashes[j - 1]) <= old(hashes[i])
    ensures forall k :: i < k < hashes.Length ==> hashes[k] == old(hashes[k])
    ensures forall k :: i < k < rows.Length ==> rows[k] == old(rows[k])
  {
    var h, row := hashes[i], rows[i];
    j := i;
    while j > 0 && hashes[j - 1] > h
      invariant j <= i
      invariant forall k :: 0 <= k < j ==> hashes[k] == old(hashes[k]) && rows[k] == old(rows[k])
      invariant forall k :: j <= k < i ==> hashes[k + 1] == old(hashes[k]) && rows[k + 1] == old(rows[k])
      invariant forall k :: j <= k < i ==> old(hashes[k]) > h
      invariant forall k :: i < k < hashes.Length ==> hashes[k] == old(hashes[k])
      invariant forall k :: i < k < rows.Length ==> rows[k] == old(rows[k])
    {
      hashes[j] := hashes[j - 1];
      rows[j] := rows[j - 1];
      j := j - 1;
    }
    hashes[j] := h;
    rows[j] := row;
  }

  /** One round of the sort: the row at `i` moves left past every larger hash. */
  method InsertInPlace(hashes: array<nat>, rows: array<Row>, i: nat)
    requires i < hashes.Length && i < rows.Length
    modifies hashes, rows
    ensures Zip(hashes[..i + 1], rows[..i + 1])
         == Insert(old(Zip(hashes[..i], rows[..i])), old(Entry(hashes[i], rows[i])))
    ensures hashes[i + 1..] == old(hashes[i + 1..]) && rows[i + 1..] == old(rows[i + 1..])
  {
    ghost var hs0, rs0 := hashes[..i + 1], rows[..i + 1];
    assert hs0[..i] == hashes[..i] && rs0[..i] == rows[..i];
    var j := ShiftInPlace(hashes, rows, i);
    assert Shifted(hashes[..i + 1], rows[..i + 1], hs0, rs0, i, j);
    ShiftedIsInsert(hashes[..i + 1], rows[..i + 1], hs0, rs0, i, j);
  }

  //
  // The search
  //

  ghost predicate Listed(rows: seq<Row>, key: string) {
    exists k :: 0 <= k < |rows| && rows[k].text == key
  }

  /** The arrays are sorted and each hash is that of its row. */
  ghost predicate Indexed(hash: Hash, hashes: seq<nat>, rows: seq<Row>) {
    && |hashes| == |rows|
    && Sorted(hashes)
    && forall k :: 0 <= k < |rows| ==> hashes[k] == hash(rows[k].text)
  }

  /** The walk over the neighbours of a hit, to the left and then to the right. */
  method WalkNeighbours(hashes: array<nat>, rows: array<Row>, count: nat, mid: nat, key: string)
    returns (found: bool)
    requires count <= hashes.Length && count <= rows.Length && mid < count
    requires Sorted(hashes[..count])
    ensures found <==> exists k :: 0 <= k < count && k != mid && hashes[k] == hashes[mid] && rows[k].text == key
  {
    var h := hashes[mid];
    ghost var hs := hashes[..count];
    var l: int := mid - 1;
    while l >= 0 && hashes[l] == h
      invariant -1 <= l < mid
      invariant forall k :: l < k < mid ==> rows[k].text != key
    {
      if rows[l].text == key {
        return true;
      }
      l := l - 1;
    }
    assert forall k :: 0 <= k <= l ==> hs[k] <= hs[l] && hs[l] <= hs[mid];
    var r: int := mid + 1;
    while r < count && hashes[r] == h
      invariant mid < r <= count
      invariant forall k :: mid < k < r ==> rows[k].text != key
    {
      if rows[r].text == key {
        return true;
      }
      r := r + 1;
    }
    assert forall k :: r <= k < count ==> hs[mid] <= hs[r] && hs[r] <= hs[k];
    return false;
  }

  /**
    `rguard_hash_lookup` (and, for a key given by pointer and length, `rguard_hash_lookup_len`):
    true exactly when the non-empty key is one of the rows, whatever the hash does.
   */
  method Find(hash: Hash, hashes: array<nat>, rows: array<Row>, count: nat, key: string)
    returns (found: bool)
    requires count <= hashes.Length && count <= rows.Length
    requires Indexed(hash, hashes[..count], rows[..count])
    ensures found <==> key != [] && Listed(rows[..count], key)
  {
    if count == 0 || key == [] {
      return false;
    }
    ghost var hs, rs := hashes[..count], rows[..count];
    var h := hash(key);
    var lo: int, hi: int := 0, count - 1;
    while lo <= hi
      invariant 0 <= lo <= hi + 1 <= count
      invariant forall k :: 0 <= k < lo ==> hs[k] < h
      invariant forall k :: hi < k < count ==> hs[k] > h
    {
      var mid := lo + (hi - lo) / 2;
      if hashes[mid] < h {
        assert forall k :: 0 <= k <= mid ==> hs[k] <= hs[mid];
        lo := mid + 1;
      } else if hashes[mid] > h {
        assert forall k :: mid <= k < count ==> hs[mid] <= hs[k];
        hi := mid - 1;
      } else {
        if key == rows[mid].text {
          assert rs[mid].text == key;
          return true;
        }
        found := WalkNeighbours(hashes, rows, count, mid, key);
        assert forall k :: 0 <= k < count ==> rs[k] == rows[k] && hs[k] == hash(rs[k].text);
        return;
      }
    }
    assert forall k :: 0 <= k < count ==> hs[k] != h && hs[k] == hash(rs[k].text);
    return false;
  }

  method HashRows(hash: Hash, hashes: array<nat>, rows: array<Row>, count: nat)
    requires count <= hashes.Length && count <= rows.Length
    modifies hashes
    ensures forall e :: e in Zip(hashes[..count], rows[..count]) ==> e.hash == hash(e.row.text)
  {
    for i := 0 to count
      invariant forall k :: 0 <= k < i ==> hashes[k] == hash(rows[k].text)
    {
      hashes[i] := hash(rows[i].text);
    }
  }

  /** Hashing every row and sorting, as the configuration loader does for each list. */
  method Index(hash: Hash, hashes: array<nat>, rows: array<Row>, count: nat)
    requires count <= hashes.Length && count <= rows.Length
    modifies hashes, rows
    ensures Indexed(hash, hashes[..count], rows[..count])
    ensures multiset(rows[..count]) == multiset(old(rows[..count]))
    ensures rows[count..] == old(rows[count..])
  {
    HashRows(hash, hashes, rows, count);
    ghost var before := Zip(hashes[..count], rows[..count]);
    assert rows[..count] == old(rows[..count]);
    RowsOfZip(hashes[..count], rows[..count]);
    SortByHash(hashes, rows, count);
    SortOrders(before);
    SortKeepsRows(before);
    RowsOfZip(hashes[..count], rows[..count]);
    IndexedAfterSort(hash, before, hashes[..count], rows[..count]);
  }

  lemma IndexedAfterSort(hash: Hash, before: seq<Entry>, hashes: seq<nat>, rows: seq<Row>)
    requires |hashes| == |rows|
    requires forall e :: e in before ==> e.hash == hash(e.row.text)
    requires SortedEntries(Zip(hashes, rows)) && forall x :: x in Zip(hashes, rows) <==> x in before
    ensures Indexed(hash, hashes, rows)
  {
    var after := Zip(hashes, rows);
    forall k | 0 <= k < |rows| ensures hashes[k] == hash(rows[k].text) {
      assert after[k] in after;
    }
    forall i, j | 0 <= i <= j < |hashes| ensures hashes[i] <= hashes[j] {
      assert after[i].hash <= after[j].hash;
    }
  }

  /** Membership does not depend on the order the rows were sorted into. */
  lemma ListedInAnyOrder(rs: seq<Row>, ts: seq<Row>, key: string)
    requires multiset(rs) == multiset(ts)
    ensures Listed(rs, key) <==> Listed(ts, key)
  {
    if Listed(rs, key) {
      var k :| 0 <= k < |rs| && rs[k].text == key;
      assert rs[k] in multiset(ts);
    }
    if Listed(ts, key) {
      var k :| 0 <= k < |ts| && ts[k].text == key;
      assert ts[k] in multiset(rs);
    }
  }
}
