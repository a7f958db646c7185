/** The configuration items of rtb_fwc.c and the intrusive doubly linked rings they are kept in. */
module ConfigList {
  import opened DataIntegrity

  /** uint16_t. */
  type Offset = x: int | 0 <= x < 0x10000

  /** The data of an item, whose length is a uint8_t. */
  type Data = d: seq<byte> | |d| < 256 witness []

  /** A configuration item as a value. */
  datatype Item = Item(offset: Offset, data: Data)

  /** struct cfg_list_item with its list_head; a ring's head is one whose item is not used. */
  class CfgListItem {
    var next: CfgListItem?
    var prev: CfgListItem?
    var offset: Offset
    var data: Data

    constructor (offset: Offset, data: Data)
      ensures this.offset == offset && this.data == data
    {
      this.offset, this.data := offset, data;
      next, prev := null, null;
    }

    function Value(): Item
      reads this
    {
      Item(offset, data)
    }
  }

  type Nodes = seq<CfgListItem>

  ghost predicate Distinct(r: Nodes) {
    forall i, j :: 0 <= i < j < |r| ==> r[i] != r[j]
  }

  function After(r: Nodes, i: nat): CfgListItem
    requires i < |r|
  {
    if i == |r| - 1 then r[0] else r[i + 1]
  }

  function Before(r: Nodes, i: nat): CfgListItem
    requires i < |r|
  {
    if i == 0 then r[|r| - 1] else r[i - 1]
  }

  /** The nodes of r, in this order, form a ring. */
  ghost predicate IsRing(r: Nodes)
    reads r
  {
    |r| > 0 && Distinct(r)
    && forall i :: 0 <= i < |r| ==> r[i].next == After(r, i) && r[i].prev == Before(r, i)
  }

  /** The items of a ring, its head left out. */
  ghost function Items(r: Nodes): (items: seq<Item>)
    requires |r| > 0
    reads r
    ensures |items| == |r| - 1
    ensures forall i :: 1 <= i < |r| ==> items[i - 1] == r[i].Value()
  {
    seq(|r| - 1, i requires 0 <= i < |r| - 1 reads r => r[i + 1].Value())
  }

  function Without<T>(s: seq<T>, k: nat): seq<T>
    requires k < |s|
  {
    s[..k] + s[k + 1..]
  }

  lemma RingStart(r: Nodes)
    requires IsRing(r)
    ensures |r| > 0 && r[0].next == After(r, 0)
  {}

  lemma RingStep(r: Nodes, i: nat)
    requires IsRing(r) && i < |r|
    ensures r[i].next == After(r, i)
  {}

  /** Only the head of a ring is its head. */
  lemma RingEnd(r: Nodes, i: nat)
    requires IsRing(r) && 1 <= i <= |r| && r[if i == |r| then 0 else i] == r[0]
    ensures i == |r|
  {}

  lemma ItemsAre(r: Nodes, items: seq<Item>)
    requires |r| == |items| + 1 && forall i :: 1 <= i < |r| ==> r[i].Value() == items[i - 1]
    ensures Items(r) == items
  {}

  // ----- ring operations

  /** INIT_LIST_HEAD. */
  method InitListHead(list: CfgListItem)
    modifies list`next, list`prev
    ensures IsRing([list])
  {
    list.next := list;
    list.prev := list;
  }

  /** list_empty. */
  method ListEmpty(head: CfgListItem, ghost r: Nodes) returns (empty: bool)
    requires IsRing(r) && r[0] == head
    ensures empty <==> |r| == 1
  {
    empty := head.next == head;
  }

  /** list_add_tail, with __list_add in place. */
  method ListAddTail(item: CfgListItem, head: CfgListItem, ghost r: Nodes)
    requires IsRing(r) && r[0] == head && item !in r
    modifies r`next, r`prev, item`next, item`prev
    ensures IsRing(r + [item])
  {
    var prev, next := head.prev, head;
    next.prev := item;
    item.next := next;
    item.prev := prev;
    prev.next := item;
    ghost var q, n := r + [item], |r|;
    assert forall i :: 0 <= i < n ==> q[i].next == if i == n - 1 then item else After(r, i);
    assert forall i :: 0 <= i < n ==> q[i].prev == if i == 0 then item else Before(r, i);
  }

  /** list_del, with __list_del in place; the poisoned pointers are null. */
  method ListDel(entry: CfgListItem, ghost r: Nodes, ghost k: nat)
    requires IsRing(r) && 1 <= k < |r| && r[k] == entry
    modifies r`next, r`prev
    ensures IsRing(Without(r, k)) && entry.next == null && entry.prev == null
  {
    var prev, next := entry.prev, entry.next;
    assert prev == r[k - 1] && next == After(r, k);
    next.prev := prev;
    prev.next := next;
    entry.next := null;
    entry.prev := null;
    ghost var q := Without(r, k);
    DistinctWithout(r, k);
    forall i | 0 <= i < |q| ensures q[i].next == After(q, i) && q[i].prev == Before(q, i) {
      if i < k { assert q[i] == r[i]; } else { assert q[i] == r[i + 1]; }
    }
  }

  lemma DistinctWithout(r: Nodes, k: nat)
    requires Distinct(r) && k < |r|
    ensures Distinct(Without(r, k))
  {}

  lemma DistinctConcat(q: Nodes, r: Nodes)
    requires Distinct(q) && Distinct(r) && forall n :: n in r ==> n !in q
    ensures Distinct(q + r)
  {
    var all := q + r;
    forall i, j | 0 <= i < j < |all| ensures all[i] != all[j] {
      if |q| <= j { assert all[j] == r[j - |q|] && r[j - |q|] in r; }
    }
  }

  /** list_splice_tail: list keeps its own stale pointers. */
  method ListSpliceTail(list: CfgListItem, head: CfgListItem, ghost r: Nodes, ghost q: Nodes)
    requires IsRing(r) && r[0] == list && IsRing(q) && q[0] == head && forall n :: n in r ==> n !in q
    modifies r`next, r`prev, q`next, q`prev
    ensures IsRing(q + r[1..])
  {
    var empty := ListEmpty(list, r);
    if !empty { ListSplice(list, head, r, q); } else { assert q + r[1..] == q; }
  }

  /** __list_splice between the last node and the head of a ring. */
  method ListSplice(list: CfgListItem, head: CfgListItem, ghost r: Nodes, ghost q: Nodes)
    requires IsRing(r) && r[0] == list && IsRing(q) && q[0] == head && forall n :: n in r ==> n !in q
    requires |r| > 1
    modifies r`next, r`prev, q`next, q`prev
    ensures IsRing(q + r[1..])
  {
    var first, last, prev, next := list.next, list.prev, head.prev, head;
    ghost var n, m := |q|, |r|;
    assert first == r[1] && last == r[m - 1] && prev == q[n - 1];
    assert forall i, j :: 0 <= i < n && 0 <= j < m ==> q[i] != r[j] by {
      assert forall j :: 0 <= j < m ==> r[j] in r;
    }
    first.prev := prev;
    prev.next := first;
    last.next := next;
    next.prev := last;
    assert forall i :: 0 <= i < n ==> q[i].next == (if i == n - 1 then r[1] else After(q, i));
    assert forall i :: 0 <= i < n ==> q[i].prev == (if i == 0 then r[m - 1] else Before(q, i));
    assert forall i :: 1 <= i < m ==> r[i].next == (if i == m - 1 then q[0] else After(r, i));
    assert forall i :: 1 <= i < m ==> r[i].prev == (if i == 1 then q[n - 1] else Before(r, i));
    SplicedRing(q, r);
  }

  lemma SplicedRing(q: Nodes, r: Nodes)
    requires Distinct(q) && Distinct(r) && |q| > 0 && |r| > 1 && forall x :: x in r ==> x !in q
    requires forall i :: 0 <= i < |q| ==> q[i].next == (if i == |q| - 1 then r[1] else After(q, i))
    requires forall i :: 0 <= i < |q| ==> q[i].prev == (if i == 0 then r[|r| - 1] else Before(q, i))
    requires forall i :: 1 <= i < |r| ==> r[i].next == (if i == |r| - 1 then q[0] else After(r, i))
    requires forall i :: 1 <= i < |r| ==> r[i].prev == (if i == 1 then q[|q| - 1] else Before(r, i))
    ensures IsRing(q + r[1..])
  {
    var all := q + r[1..];
    DistinctConcat(q, r[1..]);
    forall i | 0 <= i < |all| ensures all[i].next == After(all, i) && all[i].prev == Before(all, i) {
      if i < |q| { assert all[i] == q[i]; } else { assert all[i] == r[i - |q| + 1]; }
    }
  }

  /** list_replace. */
  method ListReplace(entry: CfgListItem, replacement: CfgListItem, ghost r: Nodes, ghost k: nat)
    requires IsRing(r) && 1 <= k < |r| && r[k] == entry && replacement !in r
    modifies r`next, r`prev, replacement`next, replacement`prev
    ensures IsRing(r[k := replacement]) && entry !in r[k := replacement]
  {
    ghost var a, b := k - 1, if k == |r| - 1 then 0 else k + 1;
    assert entry.prev == r[a] && entry.next == r[b] && r[a] != entry && entry != r[b];
    replacement.next := entry.next;
    replacement.next.prev := replacement;
    replacement.prev := entry.prev;
    replacement.prev.next := replacement;
    assert forall i :: 0 <= i < |r| && i != k ==> r[i].next == (if i == a then replacement else After(r, i));
    assert forall i :: 0 <= i < |r| && i != k ==> r[i].prev == (if i == b then replacement else Before(r, i));
    ReplacedRing(r, replacement, k);
  }

  lemma ReplacedRing(r: Nodes, node: CfgListItem, k: nat)
    requires Distinct(r) && 1 <= k < |r| && node !in r
    requires node.next == After(r, k) && node.prev == Before(r, k)
    requires forall i :: 0 <= i < |r| && i != k ==> r[i].next == (if i == k - 1 then node else After(r, i))
    requires var b := if k == |r| - 1 then 0 else k + 1;
             forall i :: 0 <= i < |r| && i != k ==> r[i].prev == (if i == b then node else Before(r, i))
    ensures IsRing(r[k := node]) && r[k] !in r[k := node]
  {
    var q := r[k := node];
    DistinctReplace(r, node, k);
    forall i | 0 <= i < |q| ensures q[i].next == After(q, i) && q[i].prev == Before(q, i) {
      if i != k { assert q[i] == r[i]; }
    }
  }

  lemma DistinctReplace(r: Nodes, node: CfgListItem, k: nat)
    requires Distinct(r) && k < |r| && node !in r
    ensures Distinct(r[k := node]) && r[k] !in r[k := node]
  {}

  /** list_replace_init, with list_replace in place. */
  method ListReplaceInit(entry: CfgListItem, replacement: CfgListItem, ghost r: Nodes, ghost k: nat)
    requires IsRing(r) && 1 <= k < |r| && r[k] == entry && replacement !in r
    modifies r`next, r`prev, replacement`next, replacement`prev
    ensures IsRing(r[k := replacement]) && IsRing([entry])
  {
    ListReplace(entry, replacement, r, k);
    InitListHead(entry);
  }
}
