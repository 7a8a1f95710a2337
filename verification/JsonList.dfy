/**
  The sibling lists of cJSON on the heap: nodes with `next` and `prev` links, where the head's
  `prev` is the tail. Each edit is proved to refine an edit of the sequence of siblings, and its
  frame names every field it may touch.
 */
module JsonList {
  import opened Base

  /** What a node carries besides its links. */
  datatype Payload = Payload(kind: nat, number: int, text: Option<seq<byte>>, name: Option<seq<byte>>)

  class Node {
    var next: Node?
    var prev: Node?
    var child: Node?
    var data: Payload

    constructor (data: Payload)
      ensures next == null && prev == null && child == null && this.data == data
    {
      next, prev, child := null, null, null;
      this.data := data;
    }
  }

  /**
    `s` is the sibling list that starts at `head`: `next` and `prev` are inverse, the last `next`
    is null and the head's `prev` is the tail.
   */
  ghost predicate Linked(head: Node?, s: seq<Node>)
    reads s
  {
    && Distinct(s)
    && (s == [] ==> head == null)
    && (s != [] ==> head == s[0] && s[0].prev == s[|s| - 1] && s[|s| - 1].next == null)
    && (forall i {:trigger s[i].next} :: 0 <= i < |s| - 1 ==> s[i].next == s[i + 1])
    && (forall i {:trigger s[i].prev} :: 1 <= i < |s| ==> s[i].prev == s[i - 1])
  }

  ghost function Nodes(s: seq<Node>): (r: set<Node>) { set n | n in s }
  ghost function Only(n: Node?): (r: set<Node>) { if n == null then {} else {n} }
  ghost function Last(s: seq<Node>): (n: set<Node>) { if s == [] then {} else {s[|s| - 1]} }
  ghost function First(s: seq<Node>): (n: set<Node>) { if s == [] then {} else {s[0]} }

  /**
    `add_item_to_array`. Appending to a non-empty list leaves `item.next` as it was, so the result
    is a sibling list exactly when the item came with no successor.
   */
  method AddItemToArray(parent: Node?, item: Node?, ghost s: seq<Node>) returns (ok: bool)
    requires parent != null ==> Linked(parent.child, s)
    requires item != null ==> item !in s
    modifies Only(parent)`child, Only(item)`prev, Only(item)`next, Last(s)`next, First(s)`prev
    ensures ok <==> parent != null && item != null && parent != item
    ensures ok && s == [] ==> Linked(parent.child, [item])
    ensures ok && s != [] ==> (Linked(parent.child, s + [item]) <==> old(item.next) == null)
    ensures s != [] && item != null ==> item.next == old(item.next)
    ensures !ok && parent != null ==> Linked(parent.child, s)
  {
    if item == null || parent == null || parent == item {
      return false;
    }
    var child := parent.child;
    if child == null {
      parent.child := item;
      item.prev := item;
      item.next := null;
    } else {
      // suffix_object
      child.prev.next := item;
      item.prev := child.prev;
      parent.child.prev := item;
      ghost var r := s + [item];
      assert r[|r| - 1] == item && r[|r| - 2] == s[|s| - 1];
    }
    ok := true;
  }

  /** `get_array_item`: the node at an index, or null past the end. */
  method GetArrayItem(parent: Node, index: nat, ghost s: seq<Node>) returns (item: Node?)
    requires Linked(parent.child, s)
    ensures item == if index < |s| then s[index] else null
  {
    item := parent.child;
    var left := index;
    ghost var i := 0;
    while item != null && left > 0
      invariant i + left == index && 0 <= i && 0 <= left
      invariant i <= |s|
      invariant item == if i < |s| then s[i] else null
      decreases left
    {
      left := left - 1;
      item := item.next;
      i := i + 1;
    }
  }

  /**
    How `parse_array` and `parse_object` chain the items they read, one new node each: at the end of
    the list, and the head's `prev` to the tail once all are there.
   */
  method ChainParsed(parent: Node, items: seq<Payload>) returns (ghost s: seq<Node>)
    modifies parent`child
    ensures |s| == |items|
    ensures forall i :: 0 <= i < |s| ==> fresh(s[i]) && s[i].data == items[i]
    ensures Linked(parent.child, s)
  {
    s := [];
    var head: Node?, current: Node? := null, null;
    for i := 0 to |items|
      invariant |s| == i && Chain(head, current, s)
      invariant forall k :: 0 <= k < i ==> fresh(s[k]) && s[k].data == items[k]
    {
      var item := new Node(items[i]);
      if head == null {
        head := item;
      } else {
        current.next := item;
        item.prev := current;
      }
      current := item;
      s := s + [item];
    }
    if head != null {
      head.prev := current;
    }
    parent.child := head;
  }

  /** A list under construction: linked both ways, but the head's `prev` not yet set. */
  ghost predicate Chain(head: Node?, last: Node?, s: seq<Node>)
    reads s
  {
    && Distinct(s)
    && (if s == [] then head == null && last == null
        else head == s[0] && last == s[|s| - 1] && s[|s| - 1].next == null)
    && (forall i {:trigger s[i].next} :: 0 <= i < |s| - 1 ==> s[i].next == s[i + 1])
    && (forall i {:trigger s[i].prev} :: 1 <= i < |s| ==> s[i].prev == s[i - 1])
  }

  ghost function Without(s: seq<Node>, k: nat): (r: seq<Node>)
    requires k < |s|
  {
    s[..k] + s[k + 1..]
  }

  /** The neighbours of position `k`, and the head. */
  ghost function Around(s: seq<Node>, k: nat): (n: set<Node>)
    requires k < |s|
  {
    (if k > 0 then {s[k - 1]} else {}) + (if k + 1 < |s| then {s[k + 1]} else {}) + {s[0], s[k]}
  }

  /** `cJSON_DetachItemViaPointer`. */
  method DetachItem(parent: Node, item: Node, ghost s: seq<Node>, ghost k: nat)
    requires Linked(parent.child, s) && k < |s| && s[k] == item
    modifies parent`child, Around(s, k)`next, Around(s, k)`prev
    ensures Linked(parent.child, Without(s, k))
    ensures item.next == null && item.prev == null
  {
    ghost var r := Without(s, k);
    if item != parent.child {
      item.prev.next := item.next;
    }
    if item.next != null {
      item.next.prev := item.prev;
    }
    if item == parent.child {
      parent.child := item.next;
    } else if item.next == null {
      parent.child.prev := item.prev;
    }
    item.prev := null;
    item.next := null;
    assert forall i {:trigger r[i]} :: 0 <= i < |r| ==> r[i] == if i < k then s[i] else s[i + 1];
  }

  ghost function WithAt(s: seq<Node>, k: nat, n: Node): (r: seq<Node>)
    requires k <= |s|
  {
    s[..k] + [n] + s[k..]
  }

  /** `cJSON_InsertItemInArray` for an index inside the list. */
  method InsertBefore(parent: Node, which: nat, item: Node, ghost s: seq<Node>)
    requires Linked(parent.child, s) && which < |s| && item !in s
    modifies parent`child, item`next, item`prev, Around(s, which)`next, Around(s, which)`prev
    ensures Linked(parent.child, WithAt(s, which, item))
  {
    ghost var r := WithAt(s, which, item);
    var after := GetArrayItem(parent, which, s);
    item.next := after;
    item.prev := after.prev;
    after.prev := item;
    if after == parent.child {
      parent.child := item;
    } else {
      item.prev.next := item;
    }
    assert forall i {:trigger r[i]} :: 0 <= i < |r| ==>
      r[i] == if i < which then s[i] else if i == which then item else s[i - 1];
  }

  /** `cJSON_InsertItemInArray`: before the index, or at the end when the index is past it. */
  method InsertItemInArray(parent: Node, which: int, item: Node?, ghost s: seq<Node>) returns (ok: bool)
    requires Linked(parent.child, s)
    requires item != null ==> item !in s
    modifies parent`child, Only(item)`next, Only(item)`prev, Nodes(s)`next, Nodes(s)`prev
    ensures which < 0 || item == null ==> !ok && Linked(parent.child, s)
    ensures 0 <= which < |s| && item != null ==> ok && Linked(parent.child, WithAt(s, which, item))
    ensures which >= |s| && item != null ==> (ok <==> parent != item)
    ensures which >= |s| && item != null && ok ==>
      (Linked(parent.child, s + [item]) <==> s == [] || old(item.next) == null)
  {
    if which < 0 || item == null {
      return false;
    }
    var after := GetArrayItem(parent, which, s);
    if after == null {
      ok := AddItemToArray(parent, item, s);
      assert s == [] ==> s + [item] == [item];
      return;
    }
    if after != parent.child && after.prev == null {
      return false;
    }
    InsertBefore(parent, which, item, s);
    ok := true;
  }

  /** `cJSON_ReplaceItemViaPointer`, up to the deletion of the replaced node. */
  method ReplaceItem(parent: Node, item: Node, replacement: Node?, ghost s: seq<Node>, ghost k: nat)
      returns (ok: bool)
    requires Linked(parent.child, s) && k < |s| && s[k] == item
    requires replacement != null && replacement != item ==> replacement !in s
    modifies parent`child, Only(replacement)`next, Only(replacement)`prev, Around(s, k)`next, Around(s, k)`prev
    ensures ok <==> replacement != null
    ensures replacement == null || replacement == item ==> Linked(parent.child, s)
    ensures replacement != null && replacement != item ==>
      Linked(parent.child, s[k := replacement]) && item.next == null && item.prev == null
  {
    if parent.child == null || replacement == null {
      return false;
    }
    if replacement == item {
      return true;
    }
    ghost var r := s[k := replacement];
    replacement.next := item.next;
    replacement.prev := item.prev;
    if replacement.next != null {
      replacement.next.prev := replacement;
    }
    if parent.child == item {
      if parent.child.prev == parent.child {
        replacement.prev := replacement;
      }
      parent.child := replacement;
    } else {
      if replacement.prev != null {
        replacement.prev.next := replacement;
      }
      if replacement.next == null {
        parent.child.prev := replacement;
      }
    }
    item.next := null;
    item.prev := null;
    ok := true;
  }

  //
  // Trees of nodes, and their duplication
  //

  /** The nodes of a tree, as they hang together: a ghost map of the heap. */
  datatype Shape = Shape(node: Node, kids: seq<Shape>)

  /** What a tree of nodes says, apart from where it lives. */
  datatype Content = Content(data: Payload, kids: seq<Content>)

  ghost function Tops(kids: seq<Shape>): (s: seq<Node>)
    ensures |s| == |kids|
  {
    seq(|kids|, i requires 0 <= i < |kids| => kids[i].node)
  }

  /** All nodes strictly below the top of a tree. */
  ghost function Below(sh: Shape): (ns: set<Node>)
    decreases sh, 0
  {
    Nodes(Tops(sh.kids)) + Deep(sh.kids)
  }

  /** All nodes strictly below the tops of some trees. */
  ghost function Deep(kids: seq<Shape>): (ns: set<Node>)
    decreases kids, 1
  {
    if kids == [] then {} else Deep(kids[..|kids| - 1]) + Below(kids[|kids| - 1])
  }

  ghost function Footprint(kids: seq<Shape>): (ns: set<Node>) { Nodes(Tops(kids)) + Deep(kids) }

  lemma TopsOfInit(kids: seq<Shape>)
    requires kids != []
    ensures var n := |kids| - 1;
            && Tops(kids) == Tops(kids[..n]) + [kids[n].node]
            && Nodes(Tops(kids)) == Nodes(Tops(kids[..n])) + {kids[n].node}
  {
    var n := |kids| - 1;
    assert Tops(kids) == Tops(kids[..n]) + [kids[n].node];
  }

  /** The heap holds the tree `sh`, with no node in two places. */
  ghost predicate Tree(sh: Shape)
    reads {sh.node}`child, Below(sh)
    decreases sh, 0
  {
    && sh.node !in Below(sh)
    && Trees(sh.kids)
    && Linked(sh.node.child, Tops(sh.kids))
  }

  /** Several trees side by side, whatever their tops are linked to. */
  ghost predicate Trees(kids: seq<Shape>)
    reads Nodes(Tops(kids))`child, Deep(kids)
    decreases kids, 1
  {
    if kids == [] then true
    else
      var init, last := kids[..|kids| - 1], kids[|kids| - 1];
      TopsOfInit(kids);
      && Trees(init) && Tree(last)
      && Nodes(Tops(init)) + Deep(init) !! {last.node} + Below(last)
  }

  ghost function Says(sh: Shape): (c: Content)
    reads {sh.node}`data, Below(sh)
    decreases sh, 0
  {
    Content(sh.node.data, SayAll(sh.kids))
  }

  ghost function SayAll(kids: seq<Shape>): (cs: seq<Content>)
    reads Nodes(Tops(kids))`data, Deep(kids)
    decreases kids, 1
  {
    if kids == [] then []
    else
      TopsOfInit(kids);
      SayAll(kids[..|kids| - 1]) + [Says(kids[|kids| - 1])]
  }

  /** Any of several trees is a tree, and what it says is part of what all say. */
  lemma {:induction false} TreesAt(kids: seq<Shape>, i: nat)
    requires Trees(kids) && i < |kids|
    ensures Tree(kids[i]) && |SayAll(kids)| == |kids| && SayAll(kids)[i] == Says(kids[i])
    ensures {kids[i].node} + Below(kids[i]) <= Footprint(kids)
    decreases |kids|
  {
    var n := |kids| - 1;
    TopsOfInit(kids);
    if i < n {
      TreesAt(kids[..n], i);
    } else if n > 0 {
      TreesAt(kids[..n], n - 1);
    } else {
      assert kids[..n] == [];
    }
  }

  /** Copies linked so far: as `Linked`, but the head's `prev` is not set yet. */
  ghost predicate Chained(head: Node?, s: seq<Node>)
    reads s
  {
    && Distinct(s)
    && (s == [] ==> head == null)
    && (s != [] ==> head == s[0] && s[|s| - 1].next == null)
    && (forall i {:trigger s[i].next} :: 0 <= i < |s| - 1 ==> s[i].next == s[i + 1])
    && (forall i {:trigger s[i].prev} :: 1 <= i < |s| ==> s[i].prev == s[i - 1])
  }

  /** Crosswire one more node behind the last one. */
  method Crosswire(parent: Node, last: Node?, child: Node, ghost s: seq<Node>)
    requires child.next == null && child !in s && Chained(parent.child, s)
    requires last == if s == [] then null else s[|s| - 1]
    modifies parent`child, Only(last)`next, child`prev
    ensures Chained(parent.child, s + [child])
  {
    ghost var r := s + [child];
    if last != null {
      last.next := child;
      child.prev := last;
      assert r[|r| - 2] == last;
    } else {
      parent.child := child;
    }
  }

  /** Trees put side by side. */
  lemma TreesSnoc(kids: seq<Shape>, kid: Shape)
    requires Trees(kids) && Tree(kid) && Nodes(Tops(kids)) + Deep(kids) !! {kid.node} + Below(kid)
    ensures Trees(kids + [kid]) && SayAll(kids + [kid]) == SayAll(kids) + [Says(kid)]
    ensures Tops(kids + [kid]) == Tops(kids) + [kid.node]
    ensures Nodes(Tops(kids + [kid])) == Nodes(Tops(kids)) + {kid.node}
    ensures Deep(kids + [kid]) == Deep(kids) + Below(kid)
  {
    var all := kids + [kid];
    assert all[..|all| - 1] == kids;
    TopsOfInit(all);
  }

  // The next predicates stay folded: `Unfold(1)` opens `Copied`, and `Unfold(0)` the others. The
  // copying code needs no more of them than that they are kept.

  /** Some trees, and what they say. */
  ghost predicate TreesSay(kids: seq<Shape>, said: seq<Content>)
    reads Nodes(Tops(kids))`child, Nodes(Tops(kids))`data, Deep(kids)
  {
    forall n: nat {:trigger Unfold(n)} :: Unfold(n) && n == 0 ==> Trees(kids) && SayAll(kids) == said
  }

  ghost predicate TreeSays(sh: Shape, said: Content)
    reads {sh.node}`child, {sh.node}`data, Below(sh)
  {
    forall n: nat {:trigger Unfold(n)} :: Unfold(n) && n == 0 ==> Tree(sh) && Says(sh) == said
  }

  lemma TreesSaySnoc(kids: seq<Shape>, kid: Shape, said: seq<Content>, more: Content)
    requires TreesSay(kids, said) && TreeSays(kid, more)
    requires Footprint(kids) !! {kid.node} + Below(kid)
    ensures TreesSay(kids + [kid], said + [more])
    ensures Tops(kids + [kid]) == Tops(kids) + [kid.node]
    ensures Footprint(kids + [kid]) == Footprint(kids) + {kid.node} + Below(kid)
  {
    assert Unfold(0);
    TreesSnoc(kids, kid);
  }

  lemma LastTop(kids: seq<Shape>, said: seq<Content>)
    requires kids != [] && TreesSay(kids, said)
    ensures var last := kids[|kids| - 1].node;
            last == Tops(kids)[|kids| - 1] && last !in Deep(kids)
  {
    assert Unfold(0);
    TopNotDeep(kids, |kids| - 1);
  }

  /** The copies made so far hang under `copy`, say `said`, and `last` is the newest of them. */
  ghost predicate Copied(copy: Node, kids: seq<Shape>, last: Node?, said: seq<Content>)
    reads copy`child, Nodes(Tops(kids)), Deep(kids)
  {
    forall n: nat {:trigger Unfold(n)} :: Unfold(n) && n == 1 ==>
      && TreesSay(kids, said) && copy !in Footprint(kids)
      && Chained(copy.child, Tops(kids))
      && last == (if kids == [] then null else kids[|kids| - 1].node)
  }

  /** The tree that is being copied, and what its children say. */
  ghost predicate Original(sh: Shape, said: seq<Content>)
    reads {sh.node}`child, Below(sh)
  {
    forall n: nat {:trigger Unfold(n)} :: Unfold(n) && n == 0 ==> Tree(sh) && SayAll(sh.kids) == said
  }

  lemma OriginalAt(sh: Shape, said: seq<Content>, i: nat)
    requires Original(sh, said) && i < |sh.kids|
    ensures Tree(sh.kids[i]) && |said| == |sh.kids| && Says(sh.kids[i]) == said[i]
    ensures {sh.kids[i].node} + Below(sh.kids[i]) <= Below(sh)
    ensures sh.kids[i].node.next == ChildAt(sh, i + 1)
  {
    assert Unfold(0);
    TreesAt(sh.kids, i);
    NextOfTop(sh, i);
  }

  ghost function ChildAt(sh: Shape, i: nat): (n: Node?) {
    if i < |sh.kids| then sh.kids[i].node else null
  }

  lemma NextOfTop(sh: Shape, i: nat)
    requires Tree(sh) && i < |sh.kids|
    ensures sh.kids[i].node.next == ChildAt(sh, i + 1)
  {
    var s := Tops(sh.kids);
    assert s[i] == sh.kids[i].node;
    assert i + 1 < |s| ==> s[i].next == s[i + 1] == sh.kids[i + 1].node;
  }

  /** Attach a duplicated child. `made` and `more` name the nodes of the copies, so far and new. */
  method Attach(
      copy: Node, last: Node?, child: Node, ghost kids: seq<Shape>, ghost kid: Shape,
      ghost made: set<Node>, ghost more: set<Node>, ghost said: seq<Content>)
    requires kid.node == child && child.next == null && Tree(kid)
    requires Copied(copy, kids, last, said)
    requires made == Footprint(kids) && more == {child} + Below(kid) && made !! more
    requires copy !in made + more
    modifies copy`child, Only(last)`next, child`prev
    ensures Copied(copy, kids + [kid], child, said + [old(Says(kid))])
    ensures Footprint(kids + [kid]) == made + more
  {
    assert Unfold(1);
    if kids != [] {
      LastTop(kids, said);
    }
    ghost var c := Says(kid);
    assert TreeSays(kid, c);
    Crosswire(copy, last, child, Tops(kids));
    TreesSaySnoc(kids, kid, said, c);
  }

  lemma {:induction false} TopNotDeep(kids: seq<Shape>, i: nat)
    requires Trees(kids) && i < |kids|
    ensures kids[i].node !in Deep(kids)
    decreases |kids|
  {
    var n := |kids| - 1;
    TopsOfInit(kids);
    if i < n {
      TopNotDeep(kids[..n], i);
      assert Tops(kids[..n])[i] == kids[i].node;
    } else {
      assert kids[i].node !in Below(kids[i]);
    }
  }

  /**
    `cJSON_Duplicate` with recursion: a tree of fresh nodes that says the same, while no node of
    the original is written.
   */
  method Duplicate(item: Node, ghost sh: Shape, ghost nodes: set<Node>)
      returns (copy: Node, ghost csh: Shape)
    requires sh.node == item && Tree(sh) && {item} + Below(sh) <= nodes
    ensures csh.node == copy && Tree(csh) && Says(csh) == old(Says(sh))
    ensures fresh({copy} + Below(csh))
    ensures copy.next == null && copy.prev == null
    decreases sh, 1
  {
    copy := new Node(item.data);
    ghost var kids := DuplicateChildren(item, copy, sh, nodes);
    csh := Shape(copy, kids);
  }

  /** The loop over the children of `item`. */
  method DuplicateChildren(item: Node, copy: Node, ghost sh: Shape, ghost nodes: set<Node>)
      returns (ghost kids: seq<Shape>)
    requires sh.node == item && Tree(sh) && {item} + Below(sh) <= nodes
    requires copy !in nodes && copy.child == null
    modifies copy`child
    ensures Tree(Shape(copy, kids)) && SayAll(kids) == old(SayAll(sh.kids))
    ensures fresh(Footprint(kids))
    decreases sh, 0
  {
    ghost var said := SayAll(sh.kids);
    ghost var made: set<Node> := {};
    kids := [];
    var last: Node? := null;
    var child := item.child;
    ghost var i := 0;
    CopyStart(copy, sh, said);
    while child != null
      invariant Original(sh, said) && |said| == |sh.kids|
      invariant 0 <= i <= |sh.kids| && |kids| == i && child == ChildAt(sh, i)
      invariant Copied(copy, kids, last, said[..i])
      invariant made == Footprint(kids) && fresh(made) && copy !in made
      invariant last != null ==> last in made
      decreases |sh.kids| - i
    {
      OriginalAt(sh, said, i);
      last, kids, made := DuplicateChild(copy, last, child, kids, made, sh.kids[i], nodes, said[..i]);
      TakeOneMore(said, i);
      OriginalAt(sh, said, i);
      child := child.next;
      i := i + 1;
    }
    assert said[..i] == said;
    assert kids != [] ==> kids[0].node == Tops(kids)[0] && Tops(kids)[0] in made;
    CloseRing(copy, last, kids, made, said);
  }

  lemma TakeOneMore<T>(s: seq<T>, i: nat)
    requires i < |s|
    ensures s[..i + 1] == s[..i] + [s[i]]
  {
  }

  lemma CopyStart(copy: Node, sh: Shape, said: seq<Content>)
    requires Tree(sh) && said == SayAll(sh.kids) && copy.child == null
    ensures Original(sh, said) && |said| == |sh.kids| && sh.node.child == ChildAt(sh, 0)
    ensures Copied(copy, [], null, said[..0])
  {
    if sh.kids != [] {
      TreesAt(sh.kids, 0);
      assert Tops(sh.kids)[0] == sh.kids[0].node;
    }
  }

  /** Close the ring: the head's `prev` becomes the tail. */
  method CloseRing(copy: Node, last: Node?, ghost kids: seq<Shape>, ghost made: set<Node>, ghost said: seq<Content>)
    requires Copied(copy, kids, last, said) && made == Footprint(kids)
    modifies (if kids == [] then {} else {kids[0].node})`prev
    ensures Tree(Shape(copy, kids)) && SayAll(kids) == said
  {
    assert Unfold(1) && Unfold(0);
    if copy.child != null {
      TopNotDeep(kids, 0);
      assert Tops(kids)[0] == kids[0].node;
      copy.child.prev := last;
    }
  }

  /** One round of the loop: duplicate the next child and attach the copy. */
  method DuplicateChild(
      copy: Node, last: Node?, child: Node, ghost kids: seq<Shape>, ghost made: set<Node>,
      ghost original: Shape, ghost nodes: set<Node>, ghost said: seq<Content>)
      returns (newLast: Node, ghost newKids: seq<Shape>, ghost newMade: set<Node>)
    requires Tree(original) && original.node == child && {child} + Below(original) <= nodes
    requires Copied(copy, kids, last, said) && made == Footprint(kids) && copy !in made
    requires {copy} !! nodes
    modifies copy`child, Only(last)`next
    ensures |newKids| == |kids| + 1 && newLast in newMade && copy !in newMade
    ensures Copied(copy, newKids, newLast, said + [old(Says(original))])
    ensures newMade == Footprint(newKids) && made <= newMade && fresh(newMade - made)
    decreases original, 2
  {
    ghost var kid;
    newLast, kid := Duplicate(child, original, nodes);
    ghost var more := {newLast} + Below(kid);
    Attach(copy, last, newLast, kids, kid, made, more, said);
    newKids := kids + [kid];
    newMade := made + more;
  }
}
