// The free lists of the split allocator (libsel4allocman/src/utspace/split.c): doubly linked, one for each pool and
// size.
module BuddyLists {
  import opened BuddyForest

  predicate ValidSlot(s: Slot) {
    s.pool < 3 && s.bits < 64
  }

  // The nodes of a list point to each other in order, and none occurs twice.
  ghost predicate Chained(list: seq<Node>)
    reads list`next, list`prev
  {
    && (forall i {:trigger list[i].next} | 0 <= i < |list| ::
          list[i].next == if i + 1 < |list| then list[i + 1] else null)
    && (forall i {:trigger list[i].prev} | 0 <= i < |list| ::
          list[i].prev == if i > 0 then list[i - 1] else null)
    && (forall i, j | 0 <= i < j < |list| :: list[i] != list[j])
  }

  function First(list: seq<Node>): Node? {
    if list == [] then null else list[0]
  }

  function Without<T>(list: seq<T>, k: nat): seq<T>
    requires k < |list|
  {
    list[..k] + list[k + 1..]
  }

  // Every slot has a list; slotOf says which one a node is on.
  ghost predicate Placed(lists: map<Slot, seq<Node>>, slotOf: map<Node, Slot>) {
    && (forall s | ValidSlot(s) :: s in lists)
    && (forall s, i | ValidSlot(s) && 0 <= i < |lists[s]| :: lists[s][i] in slotOf && slotOf[lists[s][i]] == s)
    && (forall n | n in slotOf :: ValidSlot(slotOf[n]) && n in lists[slotOf[n]])
  }

  lemma InsertKeepsPlaced(lists: map<Slot, seq<Node>>, slotOf: map<Node, Slot>, s: Slot, node: Node)
    requires Placed(lists, slotOf) && ValidSlot(s) && node !in slotOf
    ensures Placed(lists[s := [node] + lists[s]], slotOf[node := s])
  {
  }

  lemma RemoveKeepsPlaced(lists: map<Slot, seq<Node>>, slotOf: map<Node, Slot>, s: Slot, k: nat)
    requires Placed(lists, slotOf) && ValidSlot(s) && k < |lists[s]|
    requires forall i, j | 0 <= i < j < |lists[s]| :: lists[s][i] != lists[s][j]
    ensures Placed(lists[s := Without(lists[s], k)], slotOf - {lists[s][k]})
  {
    var list := lists[s];
    forall n | n in slotOf && n != list[k] && slotOf[n] == s
      ensures n in Without(list, k)
    {
      var i :| 0 <= i < |list| && list[i] == n;
      assert Without(list, k)[if i < k then i else i - 1] == n;
    }
  }

  lemma ListsExist(lists: map<Slot, seq<Node>>, slotOf: map<Node, Slot>)
    requires Placed(lists, slotOf)
    ensures forall s | ValidSlot(s) :: s in lists && forall n | n in lists[s] :: n in slotOf
  {
  }

  // A node is on no list but its own.
  lemma ListsApart(lists: map<Slot, seq<Node>>, slotOf: map<Node, Slot>, s: Slot, t: Slot)
    requires Placed(lists, slotOf) && ValidSlot(s) && ValidSlot(t) && s != t
    ensures forall n | n in lists[t] :: n !in lists[s]
    ensures forall n | n in lists[t] :: n in slotOf
  {
  }

  // The pointer updates of _insert_node, on one list
  method Link(first: Node?, node: Node, ghost list: seq<Node>)
    requires Chained(list) && first == First(list) && node !in list
    modifies list`prev, node`next, node`prev
    ensures Chained([node] + list)
  {
    node.next := first;
    node.prev := null;
    if first != null {
      first.prev := node;
    }
  }

  // The pointer updates of _remove_node, on one list
  method Unlink(node: Node, ghost list: seq<Node>, ghost k: nat)
    requires Chained(list) && k < |list| && list[k] == node
    modifies list`prev, list`next
    ensures Chained(Without(list, k))
    ensures node.next == old(node.next) && node.prev == old(node.prev)
  {
    if node.prev != null {
      assert list[k - 1] == node.prev;
      node.prev.next := node.next;
    }
    if node.next != null {
      assert list[k + 1] == node.next;
      node.next.prev := node.prev;
    }
  }

  // utspace_split_t: the heads of the lists, indexed by pool and size
  class FreeLists {
    const heads: array2<Node?>
    ghost var contents: map<Slot, seq<Node>>
    // the list every free node is on
    ghost var slotOf: map<Node, Slot>

    ghost predicate Valid()
      reads this, heads, slotOf.Keys`next, slotOf.Keys`prev
    {
      && heads.Length0 == 3 && heads.Length1 == 64
      && Placed(contents, slotOf)
      && (forall s | ValidSlot(s) :: heads[s.pool, s.bits] == First(contents[s]))
      && (forall s | ValidSlot(s) :: Chained(contents[s]))
    }

    // utspace_split_create
    constructor ()
      ensures Valid() && fresh(heads) && slotOf == map[]
      ensures forall s | ValidSlot(s) :: contents[s] == []
    {
      heads := new Node?[3, 64]((i, j) => null);
      contents := map p, b | 0 <= p < 3 && 0 <= b < 64 :: Slot(p, b) := [];
      slotOf := map[];
    }

    lemma Member(s: Slot, k: nat)
      requires Valid() && ValidSlot(s) && s in contents && k < |contents[s]|
      ensures contents[s][k] in slotOf && slotOf[contents[s][k]] == s
    {
      hide Chained, First;
    }

    // _insert_node
    method Insert(s: Slot, node: Node)
      requires Valid() && ValidSlot(s) && node !in slotOf
      modifies this`contents, this`slotOf, heads, slotOf.Keys`prev, node`next, node`prev, node`head
      ensures Valid() && slotOf == old(slotOf)[node := s] && s in old(contents)
      ensures contents == old(contents)[s := [node] + old(contents[s])]
      ensures node.head == Null
    {
      hide Chained, Placed;
      ListsExist(contents, slotOf);
      ghost var before, places, list := contents, slotOf, contents[s];
      Link(heads[s.pool, s.bits], node, list);
      heads[s.pool, s.bits] := node;
      node.head := Null;
      InsertKeepsPlaced(before, places, s, node);
      contents := contents[s := [node] + list];
      slotOf := slotOf[node := s];
      forall t | ValidSlot(t)
        ensures Chained(contents[t])
      {
        if t != s {
          ListsApart(before, places, s, t);
          assert old(Chained(before[t]));
          assert forall n: Node | n in before[t] :: n.next == old(n.next) && n.prev == old(n.prev);
        }
      }
    }

    // _remove_node
    method Remove(s: Slot, node: Node, ghost k: nat)
      requires Valid() && ValidSlot(s) && k < |contents[s]| && contents[s][k] == node
      modifies this`contents, this`slotOf, heads, slotOf.Keys`prev, slotOf.Keys`next, node`head
      ensures Valid() && slotOf == old(slotOf) - {node}
      ensures node in old(slotOf) && old(slotOf)[node] == s
      ensures contents == old(contents)[s := Without(old(contents[s]), k)]
      ensures node.head == Head(s)
    {
      hide Chained, Placed, Without, First;
      ListsExist(contents, slotOf);
      ghost var before, places, list := contents, slotOf, contents[s];
      Member(s, k);
      ChainedEnds(list, k);
      Unlink(node, list, k);
      if node.prev == null {
        heads[s.pool, s.bits] := node.next;
      }
      node.head := Head(s);
      RemoveKeepsPlaced(before, places, s, k);
      contents := contents[s := Without(list, k)];
      slotOf := slotOf - {node};
      forall t | ValidSlot(t)
        ensures Chained(contents[t])
      {
        if t != s {
          ListsApart(before, places, s, t);
          assert old(Chained(before[t]));
          assert forall n: Node | n in before[t] :: n.next == old(n.next) && n.prev == old(n.prev);
        }
      }
    }

    // Take node off list t and put right, then left, at the head of list s.
    method Replace(t: Slot, node: Node, ghost k: nat, s: Slot, left: Node, right: Node)
      requires Valid() && ValidSlot(s) && ValidSlot(t) && s != t && t in contents && s in contents
      requires k < |contents[t]| && contents[t][k] == node
      requires left !in slotOf && right !in slotOf && left != right && left != node && right != node
      modifies this`contents, this`slotOf, heads, slotOf.Keys`prev, slotOf.Keys`next
      modifies node`head, left`next, left`prev, left`head, right`next, right`prev, right`head
      ensures Valid() && slotOf == (old(slotOf) - {node})[right := s][left := s]
      ensures contents.Keys == old(contents.Keys) && contents[s] == [left, right] + old(contents[s])
      ensures forall x | x in contents && x != s && x != t :: contents[x] == old(contents[x])
      ensures node.head == Head(t) && left.head == Null && right.head == Null
    {
      hide Chained, Placed, First, Without;
      Remove(t, node, k);
      Insert(s, right);
      Insert(s, left);
    }
  }

  // What prev and next say about the place of a node.
  lemma ChainedEnds(list: seq<Node>, k: nat)
    requires Chained(list) && k < |list|
    ensures list[k].prev == null <==> k == 0
    ensures k == 0 ==> First(Without(list, k)) == list[k].next
    ensures k > 0 ==> First(Without(list, k)) == First(list)
    ensures forall i, j | 0 <= i < j < |list| :: list[i] != list[j]
  {
  }
}
