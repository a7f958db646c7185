/** merge_configs of rtb_fwc.c: the extra items of one ring are overlaid on, or moved into, the
    ring of the configuration. */
module ConfigMerge {
  import opened ConfigList

  // ----- the merge on values

  /** A shorter extra overwrites the front of the item, any other replaces it. */
  function Overlay(it: Item, e: Item): Item {
    if |e.data| < |it.data| then Item(it.offset, e.data + it.data[|e.data|..]) else e
  }

  function Apply(it: Item, e: Item): Item {
    if e.offset == it.offset then Overlay(it, e) else it
  }

  /** An item after the extras, one after another. */
  function Fold(it: Item, extras: seq<Item>): Item {
    if extras == [] then it else Apply(Fold(it, extras[..|extras| - 1]), extras[|extras| - 1])
  }

  function Folded(items: seq<Item>, extras: seq<Item>): (r: seq<Item>)
    ensures |r| == |items| && forall i :: 0 <= i < |items| ==> r[i] == Fold(items[i], extras)
  {
    seq(|items|, i requires 0 <= i < |items| => Fold(items[i], extras))
  }

  predicate HasOffset(items: seq<Item>, offset: Offset) {
    exists i :: 0 <= i < |items| && items[i].offset == offset
  }

  /** At most one of the items has the offset. */
  ghost predicate AtMostOnce(items: seq<Item>, offset: Offset) {
    forall i, j :: 0 <= i < j < |items| ==> !(items[i].offset == offset && items[j].offset == offset)
  }

  /** The extras whose offsets are new to items, in order. */
  function Added(items: seq<Item>, extras: seq<Item>): seq<Item> {
    if extras == [] then []
    else
      var e := extras[|extras| - 1];
      Added(items, extras[..|extras| - 1]) + if HasOffset(items, e.offset) then [] else [e]
  }

  function Merged(items: seq<Item>, extras: seq<Item>): seq<Item> {
    Folded(items, extras) + Added(items, extras)
  }

  lemma {:induction false} FoldOffset(it: Item, extras: seq<Item>)
    ensures Fold(it, extras).offset == it.offset
  {
    if extras != [] { FoldOffset(it, extras[..|extras| - 1]); }
  }

  /** One extra applied to every item. */
  function ApplyAll(items: seq<Item>, e: Item): (r: seq<Item>)
    ensures |r| == |items| && forall i :: 0 <= i < |items| ==> r[i] == Apply(items[i], e)
  {
    seq(|items|, i requires 0 <= i < |items| => Apply(items[i], e))
  }

  lemma ApplyNone(items: seq<Item>, e: Item)
    requires !HasOffset(items, e.offset)
    ensures ApplyAll(items, e) == items
  {}

  lemma ApplyOnce(items: seq<Item>, e: Item, m: nat)
    requires AtMostOnce(items, e.offset) && m < |items| && items[m].offset == e.offset
    ensures ApplyAll(items, e) == items[m := Overlay(items[m], e)] && HasOffset(items, e.offset)
  {}

  lemma {:induction false} FoldedOffsets(items: seq<Item>, extras: seq<Item>)
    ensures forall i :: 0 <= i < |items| ==> Folded(items, extras)[i].offset == items[i].offset
  {
    forall i | 0 <= i < |items| ensures Folded(items, extras)[i].offset == items[i].offset {
      FoldOffset(items[i], extras);
    }
  }

  lemma OffsetsDecide(a: seq<Item>, b: seq<Item>, offset: Offset)
    requires |a| == |b| && forall i :: 0 <= i < |a| ==> a[i].offset == b[i].offset
    ensures HasOffset(a, offset) <==> HasOffset(b, offset)
    ensures AtMostOnce(a, offset) <==> AtMostOnce(b, offset)
  {}

  lemma FoldedStep(items: seq<Item>, extras: seq<Item>, i: nat)
    requires i < |extras|
    ensures Folded(items, extras[..i + 1]) == ApplyAll(Folded(items, extras[..i]), extras[i])
  {
    assert extras[..i + 1][..i] == extras[..i];
  }

  lemma AddedStep(items: seq<Item>, extras: seq<Item>, i: nat)
    requires i < |extras|
    ensures var added := Added(items, extras[..i]);
            Added(items, extras[..i + 1]) + extras[i + 1..]
            == if HasOffset(items, extras[i].offset) then Without(added + extras[i..], |added|) else added + extras[i..]
    ensures |Added(items, extras[..i + 1])|
         == |Added(items, extras[..i])| + if HasOffset(items, extras[i].offset) then 0 else 1
  {
    assert extras[..i + 1][..i] == extras[..i];
  }

  /** The last of the extras with the item's offset that reaches byte j, or -1. */
  function LastReaching(it: Item, extras: seq<Item>, j: nat): (k: int)
    ensures -1 <= k < |extras|
  {
    if extras == [] then -1
    else
      var e := extras[|extras| - 1];
      if e.offset == it.offset && j < |e.data| then |extras| - 1 else LastReaching(it, extras[..|extras| - 1], j)
  }

  /** Byte by byte: every byte of a folded item comes from the last extra of its offset that is
      long enough to reach it, or else from the item itself; it has as many bytes as the longest
      of them. */
  lemma {:induction false} FoldBytes(it: Item, extras: seq<Item>, j: nat)
    ensures var k := LastReaching(it, extras, j);
            (j < |Fold(it, extras).data| <==> k >= 0 || j < |it.data|)
            && (k >= 0 ==> j < |extras[k].data| && Fold(it, extras).data[j] == extras[k].data[j])
            && (k < 0 && j < |it.data| ==> Fold(it, extras).data[j] == it.data[j])
  {
    if extras != [] {
      var n := |extras| - 1;
      FoldBytes(it, extras[..n], j);
      FoldOffset(it, extras[..n]);
    }
  }

  lemma FoldTwiceByte(it: Item, extras: seq<Item>, j: nat)
    ensures var once, twice := Fold(it, extras).data, Fold(Fold(it, extras), extras).data;
            (j < |twice| <==> j < |once|) && (j < |once| ==> twice[j] == once[j])
  {
    FoldOffset(it, extras);
    FoldBytes(it, extras, j);
    FoldBytes(Fold(it, extras), extras, j);
    SameReach(it, Fold(it, extras), extras, j);
  }

  lemma FoldIdempotent(it: Item, extras: seq<Item>)
    ensures Fold(Fold(it, extras), extras) == Fold(it, extras)
  {
    var once, twice := Fold(it, extras), Fold(Fold(it, extras), extras);
    FoldOffset(it, extras);
    FoldOffset(once, extras);
    FoldTwiceByte(it, extras, |once.data|);
    FoldTwiceByte(it, extras, |twice.data|);
    forall j | 0 <= j < |once.data| ensures twice.data[j] == once.data[j] { FoldTwiceByte(it, extras, j); }
    assert twice.data == once.data;
  }

  lemma {:induction false} SameReach(a: Item, b: Item, extras: seq<Item>, j: nat)
    requires a.offset == b.offset
    ensures LastReaching(a, extras, j) == LastReaching(b, extras, j)
  {
    if extras != [] { SameReach(a, b, extras[..|extras| - 1], j); }
  }

  /** An item that is one of the extras is left alone by them, when no other has its offset. */
  lemma {:induction false} FoldSelf(extras: seq<Item>, k: nat, n: nat)
    requires k < |extras| && n <= |extras| && AtMostOnce(extras, extras[k].offset)
    ensures Fold(extras[k], extras[..n]) == extras[k]
  {
    if n > 0 {
      FoldSelf(extras, k, n - 1);
      assert extras[..n][..n - 1] == extras[..n - 1];
    }
  }

  /** Which extras are added. */
  lemma {:induction false} AddedFrom(items: seq<Item>, extras: seq<Item>)
    ensures forall e :: e in Added(items, extras) <==> e in extras && !HasOffset(items, e.offset)
  {
    if extras != [] {
      var n := |extras| - 1;
      AddedFrom(items, extras[..n]);
      assert extras == extras[..n] + [extras[n]];
    }
  }

  lemma {:induction false} NoneAdded(items: seq<Item>, extras: seq<Item>)
    requires forall e :: e in extras ==> HasOffset(items, e.offset)
    ensures Added(items, extras) == []
  {
    if extras != [] {
      var n := |extras| - 1;
      assert extras[n] in extras;
      NoneAdded(items, extras[..n]);
    }
  }

  lemma MergedHasExtra(items: seq<Item>, extras: seq<Item>, e: Item)
    requires e in extras
    ensures HasOffset(Merged(items, extras), e.offset)
  {
    var merged := Merged(items, extras);
    if HasOffset(items, e.offset) {
      var i :| 0 <= i < |items| && items[i].offset == e.offset;
      FoldOffset(items[i], extras);
      assert merged[i] == Folded(items, extras)[i];
    } else {
      AddedFrom(items, extras);
      var i :| 0 <= i < |Added(items, extras)| && Added(items, extras)[i] == e;
      assert merged[|items| + i] == e;
    }
  }

  /** Merging the same extras again changes nothing, when their offsets are distinct. */
  lemma MergeIdempotent(items: seq<Item>, extras: seq<Item>)
    requires forall e :: e in extras ==> AtMostOnce(extras, e.offset)
    ensures Merged(Merged(items, extras), extras) == Merged(items, extras)
  {
    var merged := Merged(items, extras);
    forall e | e in extras ensures HasOffset(merged, e.offset) { MergedHasExtra(items, extras, e); }
    NoneAdded(merged, extras);
    forall i | 0 <= i < |merged| ensures Fold(merged[i], extras) == merged[i] {
      if i < |items| {
        FoldIdempotent(items[i], extras);
      } else {
        AddedFrom(items, extras);
        assert merged[i] == Added(items, extras)[i - |items|];
        var k :| 0 <= k < |extras| && extras[k] == merged[i];
        FoldSelf(extras, k, |extras|);
        assert extras[..|extras|] == extras;
      }
    }
    assert Folded(merged, extras) == merged;
  }

  // ----- the merge on the heap

  ghost predicate Disjoint(q: Nodes, r: Nodes) {
    forall n :: n in q ==> n !in r
  }

  twostate lemma RingKept(r: Nodes)
    requires old(IsRing(r))
    requires forall n :: n in r ==> n.next == old(n.next) && n.prev == old(n.prev)
    ensures IsRing(r)
  {
    assert forall i :: 0 <= i < |r| ==> r[i] in r;
  }

  lemma ItemsWithout(r: Nodes, items: seq<Item>, k: nat)
    requires |r| == |items| + 1 && 1 <= k < |r| && forall i :: 1 <= i < |r| ==> r[i].Value() == items[i - 1]
    ensures Items(Without(r, k)) == Without(items, k - 1)
  {}

  lemma StillApart(q: Nodes, r: Nodes, k: nat, r': Nodes, m: nat)
    requires Distinct(q) && k < |q| && m < |r| && Disjoint(q, r) && (r' == r || r' == r[m := q[k]])
    ensures Disjoint(Without(q, k), r')
  {
    Left(q, k);
    assert forall n :: n in Without(q, k) ==> n in q && n != q[k];
    assert forall n :: n in r' ==> n in r || n == q[k];
  }

  lemma OnceApart(r: Nodes, q: Nodes)
    requires Disjoint(q, r)
    ensures forall n :: n in q ==> n !in r
  {}

  lemma Left(q: Nodes, k: nat)
    requires Distinct(q) && k < |q|
    ensures q[k] !in Without(q, k)
  {}

  lemma Apart(r: Nodes, m: nat, q: Nodes, k: nat)
    requires IsRing(r) && m < |r| && IsRing(q) && k < |q| && Disjoint(q, r)
    ensures r[m] in r && q[k] in q && q[k] !in r && Distinct(r) && Distinct(q) && forall n :: n in r ==> n !in q
  {}

  /** The memcpy of a match: the front of the item is overwritten. */
  method OverwriteFront(n: CfgListItem, extra: CfgListItem)
    requires |extra.data| <= |n.data| && n != extra
    modifies n`data
    ensures n.data == extra.data + old(n.data)[|extra.data|..]
  {
    n.data := extra.data + n.data[|extra.data|..];
  }

  /** A match in merge_configs with a shorter extra: it overwrites the front of the item and leaves
      its ring. */
  method UpdateItem(pos: CfgListItem, epos: CfgListItem, ghost r: Nodes, ghost m: nat, ghost q: Nodes, ghost k: nat)
    requires IsRing(r) && 1 <= m < |r| && r[m] == pos && IsRing(q) && 1 <= k < |q| && q[k] == epos && Disjoint(q, r)
    requires |epos.data| < |pos.data|
    modifies q`next, q`prev, pos`data
    ensures IsRing(r) && IsRing(Without(q, k))
    ensures Items(r) == old(Items(r))[m - 1 := Overlay(old(pos.Value()), epos.Value())]
  {
    hide IsRing, Items, Disjoint;
    Apart(r, m, q, k);
    ghost var items, extra := Items(r), epos.Value();
    OverwriteFront(pos, epos);
    RingKept(q);
    ListDel(epos, q, k);
    assert epos.Value() == extra;
    RingKept(r);
    ItemsAre(r, items[m - 1 := Overlay(items[m - 1], extra)]);
  }

  /** list_replace_init, seen from the items and from another ring. */
  method PutInPlace(pos: CfgListItem, epos: CfgListItem, ghost r: Nodes, ghost m: nat, ghost rest: Nodes)
    requires IsRing(r) && 1 <= m < |r| && r[m] == pos && epos !in r
    requires IsRing(rest) && Disjoint(rest, r) && epos !in rest
    modifies r`next, r`prev, epos`next, epos`prev
    ensures IsRing(r[m := epos]) && IsRing(rest)
    ensures Items(r[m := epos]) == old(Items(r))[m - 1 := epos.Value()]
  {
    hide IsRing, Items, Disjoint;
    ghost var items := Items(r);
    OnceApart(r, rest);
    ListReplaceInit(pos, epos, r, m);
    RingKept(rest);
    ItemsAre(r[m := epos], items[m - 1 := epos.Value()]);
  }

  /** A match with any other extra: it leaves its ring and takes the item's place. */
  method ReplaceItem(pos: CfgListItem, epos: CfgListItem, ghost r: Nodes, ghost m: nat, ghost q: Nodes, ghost k: nat)
    requires IsRing(r) && 1 <= m < |r| && r[m] == pos && IsRing(q) && 1 <= k < |q| && q[k] == epos && Disjoint(q, r)
    modifies q`next, q`prev, r`next, r`prev
    ensures IsRing(r[m := epos]) && IsRing(Without(q, k))
    ensures Items(r[m := epos]) == old(Items(r))[m - 1 := epos.Value()]
  {
    Apart(r, m, q, k);
    Left(q, k);
    ghost var items := Items(r);
    ListDel(epos, q, k);
    RingKept(r);
    ItemsAre(r, items);
    PutInPlace(pos, epos, r, m, Without(q, k));
  }

  /** A match, either way. */
  method TakeExtra(pos: CfgListItem, epos: CfgListItem, ghost r: Nodes, ghost m: nat, ghost q: Nodes, ghost k: nat)
    returns (ghost r': Nodes)
    requires IsRing(r) && 1 <= m < |r| && r[m] == pos && IsRing(q) && 1 <= k < |q| && q[k] == epos && Disjoint(q, r)
    requires pos.offset == epos.offset
    modifies q`next, q`prev, r`next, r`prev, pos`data
    ensures IsRing(r') && IsRing(Without(q, k)) && (r' == r || r' == r[m := epos])
    ensures Items(r') == old(Items(r))[m - 1 := Overlay(old(pos.Value()), epos.Value())]
  {
    if |epos.data| < |pos.data| {
      UpdateItem(pos, epos, r, m, q, k);
      r' := r;
    } else {
      ReplaceItem(pos, epos, r, m, q, k);
      r' := r[m := epos];
    }
  }

  /** The inner loop of merge_configs: one extra meets every item of the first ring. */
  method ApplyExtra(head: CfgListItem, epos: CfgListItem, ghost r: Nodes, ghost q: Nodes, ghost k: nat)
    returns (ghost r': Nodes, ghost m: nat)
    requires IsRing(r) && r[0] == head && IsRing(q) && 1 <= k < |q| && q[k] == epos && Disjoint(q, r)
    requires AtMostOnce(Items(r), epos.offset)
    modifies q`next, q`prev, r`next, r`prev, r`data
    ensures m < |r| && IsRing(r') && |r'| == |r|
    ensures m == 0 ==> r' == r && IsRing(q) && !HasOffset(old(Items(r)), epos.offset) && Items(r) == old(Items(r))
    ensures m > 0 ==> IsRing(Without(q, k)) && (r' == r || r' == r[m := epos])
    ensures m > 0 ==> old(r[m].offset) == epos.offset
    ensures m > 0 ==> Items(r') == old(Items(r))[m - 1 := Overlay(old(r[m].Value()), epos.Value())]
  {
    hide IsRing, Items, Disjoint;
    ghost var items := Items(r);
    ghost var i := 1;
    r', m := r, 0;
    RingStart(r);
    var pos := head.next;
    RingStep(r, if |r| == 1 then 0 else 1);
    var next := pos.next;
    while pos != head
      invariant 1 <= i <= |r| && m < i && IsRing(r') && |r'| == |r| && r'[0] == head
      invariant pos == r'[if i == |r| then 0 else i]
      invariant i < |r| ==> next == After(r', i)
      invariant m == 0 ==> r' == r && IsRing(q) && Items(r) == items
      invariant m == 0 ==> forall j :: 0 <= j < i - 1 ==> items[j].offset != epos.offset
      invariant m > 0 ==> IsRing(Without(q, k)) && (r' == r || r' == r[m := epos])
      invariant m > 0 ==> items[m - 1].offset == epos.offset
      invariant m > 0 ==> Items(r') == items[m - 1 := Overlay(items[m - 1], epos.Value())]
      decreases |r| - i
    {
      assert Items(r')[i - 1] == items[i - 1];
      if epos.offset == pos.offset {
        assert m == 0;
        assert pos in r;
        r' := TakeExtra(pos, epos, r, i, q, k);
        m := i;
      }
      pos := next;
      i := i + 1;
      RingStep(r', if i == |r| then 0 else i);
      next := pos.next;
    }
    RingEnd(r', i);
  }

  /** The same, with the ring the extra comes from. */
  method MergeExtra(head: CfgListItem, epos: CfgListItem, ghost r: Nodes, ghost q: Nodes, ghost k: nat)
    returns (ghost r': Nodes, ghost q': Nodes)
    requires IsRing(r) && r[0] == head && IsRing(q) && 1 <= k < |q| && q[k] == epos && Disjoint(q, r)
    requires AtMostOnce(Items(r), epos.offset)
    modifies q`next, q`prev, r`next, r`prev, r`data
    ensures IsRing(r') && IsRing(q') && Disjoint(q', r') && r'[0] == head && forall n :: n in r' ==> n in r || n == epos
    ensures Items(r') == ApplyAll(old(Items(r)), old(epos.Value()))
    ensures q' == if HasOffset(old(Items(r)), epos.offset) then Without(q, k) else q
    ensures Items(q') == if HasOffset(old(Items(r)), epos.offset) then Without(old(Items(q)), k - 1) else old(Items(q))
  {
    hide IsRing, Items, Disjoint, ApplyAll, HasOffset, AtMostOnce;
    ghost var items, extras := Items(r), Items(q);
    Apart(r, 0, q, k);
    OnceApart(r, q);
    assert forall i :: 1 <= i < |q| ==> q[i] in q && q[i] !in r && q[i].Value() == extras[i - 1];
    ghost var m;
    r', m := ApplyExtra(head, epos, r, q, k);
    assert forall i :: 1 <= i < |q| ==> q[i].Value() == extras[i - 1];
    if m == 0 {
      q' := q;
      ItemsAre(q, extras);
      ApplyNone(items, epos.Value());
    } else {
      q' := Without(q, k);
      ItemsWithout(q, extras, k);
      ApplyOnce(items, epos.Value(), m - 1);
      StillApart(q, r, k, r', m);
    }
  }

  // ----- merge_configs

  /** The state of the outer loop after i extras. */
  ghost predicate Merging(r: Nodes, q: Nodes, items: seq<Item>, extras: seq<Item>, i: nat)
    reads r, q
  {
    i <= |extras| && IsRing(r) && IsRing(q) && Disjoint(q, r)
    && Items(r) == Folded(items, extras[..i])
    && Items(q) == Added(items, extras[..i]) + extras[i..]
  }

  lemma MergingStart(r: Nodes, q: Nodes)
    requires IsRing(r) && IsRing(q) && Disjoint(q, r)
    ensures Merging(r, q, Items(r), Items(q), 0) && Added(Items(r), Items(q)[..0]) == []
  {}

  lemma MergingItems(r: Nodes, q: Nodes, items: seq<Item>, extras: seq<Item>, i: nat)
    requires Merging(r, q, items, extras, i)
    ensures i <= |extras| && IsRing(r) && IsRing(q) && Disjoint(q, r) && |r| > 0 && |q| > 0
    ensures Items(r) == Folded(items, extras[..i]) && Items(q) == Added(items, extras[..i]) + extras[i..]
  {}

  /** What the next extra meets. */
  lemma MergingAt(r: Nodes, q: Nodes, items: seq<Item>, extras: seq<Item>, i: nat, k: nat)
    requires Merging(r, q, items, extras, i) && i < |extras| && k == 1 + |Added(items, extras[..i])|
    requires forall e :: e in extras ==> AtMostOnce(items, e.offset)
    ensures IsRing(r) && IsRing(q) && Disjoint(q, r) && 1 <= k < |q| && q[k].Value() == extras[i]
    ensures Items(r) == Folded(items, extras[..i]) && Items(q) == Added(items, extras[..i]) + extras[i..]
    ensures AtMostOnce(Items(r), extras[i].offset)
    ensures HasOffset(Items(r), extras[i].offset) <==> HasOffset(items, extras[i].offset)
  {
    MergingItems(r, q, items, extras, i);
    hide IsRing, Items, Disjoint, Added, Folded, AtMostOnce, HasOffset, Merging;
    assert Items(q)[k - 1] == extras[i];
    FoldedOffsets(items, extras[..i]);
    assert extras[i] in extras;
    OffsetsDecide(Items(r), items, extras[i].offset);
  }

  lemma MergingNext(r: Nodes, q: Nodes, items: seq<Item>, extras: seq<Item>, i: nat)
    requires IsRing(r) && IsRing(q) && Disjoint(q, r) && i < |extras|
    requires Items(r) == ApplyAll(Folded(items, extras[..i]), extras[i])
    requires var added := Added(items, extras[..i]);
             Items(q)
             == if HasOffset(items, extras[i].offset) then Without(added + extras[i..], |added|)
                else added + extras[i..]
    ensures Merging(r, q, items, extras, i + 1)
    ensures |Added(items, extras[..i + 1])|
         == |Added(items, extras[..i])| + if HasOffset(items, extras[i].offset) then 0 else 1
  {
    FoldedStep(items, extras, i);
    AddedStep(items, extras, i);
  }

  /** The body of the outer loop. */
  method MergeStep(head: CfgListItem, epos: CfgListItem, ghost r: Nodes, ghost q: Nodes,
                   ghost items: seq<Item>, ghost extras: seq<Item>, ghost i: nat, ghost k: nat)
    returns (ghost r': Nodes, ghost q': Nodes)
    requires Merging(r, q, items, extras, i) && i < |extras| && k == 1 + |Added(items, extras[..i])|
    requires |r| > 0 && r[0] == head && k < |q| && q[k] == epos
    requires forall e :: e in extras ==> AtMostOnce(items, e.offset)
    modifies set n | n in r || n in q
    ensures Merging(r', q', items, extras, i + 1) && |r'| > 0 && r'[0] == head
    ensures q' == if HasOffset(items, extras[i].offset) then Without(q, k) else q
    ensures |Added(items, extras[..i + 1])| == k - 1 + if HasOffset(items, extras[i].offset) then 0 else 1
    ensures forall n :: n in r' ==> n in r || n in q
  {
    hide IsRing, Items, Disjoint, HasOffset, AtMostOnce, Added, Folded, Merging;
    MergingAt(r, q, items, extras, i, k);
    assert epos in q;
    r', q' := MergeExtra(head, epos, r, q, k);
    MergingNext(r', q', items, extras, i);
  }

  /** The outer loop: every extra with the offset of an item is taken from the second ring. */
  method MergeMatches(head: CfgListItem, head2: CfgListItem, ghost r0: Nodes, ghost q0: Nodes)
    returns (ghost r: Nodes, ghost q: Nodes)
    requires |r0| > 0 && r0[0] == head && |q0| > 0 && q0[0] == head2 && IsRing(r0) && IsRing(q0) && Disjoint(q0, r0)
    requires forall e :: e in Items(q0) ==> AtMostOnce(Items(r0), e.offset)
    modifies set n | n in r0 || n in q0
    ensures Merging(r, q, old(Items(r0)), old(Items(q0)), |q0| - 1) && r[0] == head && q[0] == head2
    ensures (forall n :: n in r ==> n in r0 || n in q0) && forall n :: n in q ==> n in q0
  {
    hide IsRing, Items, Disjoint, HasOffset, AtMostOnce, Added, Folded, Merging;
    ghost var items, extras := Items(r0), Items(q0);
    ghost var i, k := 0, 1;
    r, q := r0, q0;
    RingStart(q);
    MergingStart(r, q);
    var epos := head2.next;
    RingStep(q, if |q| == 1 then 0 else 1);
    var enext := epos.next;
    while epos != head2
      invariant 0 <= i <= |extras| && Merging(r, q, items, extras, i)
      invariant |r| > 0 && r[0] == head && |q| > 0 && q[0] == head2
      invariant k == 1 + |Added(items, extras[..i])| && |q| == k + |extras| - i
      invariant epos == q[if k == |q| then 0 else k] && (k < |q| ==> enext == After(q, k))
      invariant (forall n :: n in r ==> n in r0 || n in q0) && forall n :: n in q ==> n in q0
      decreases |extras| - i
    {
      r, q := MergeStep(head, epos, r, q, items, extras, i, k);
      if !HasOffset(items, extras[i].offset) { k := k + 1; }
      i := i + 1;
      epos := enext;
      MergingItems(r, q, items, extras, i);
      RingStep(q, if k == |q| then 0 else k);
      enext := epos.next;
    }
    MergingItems(r, q, items, extras, i);
    RingEnd(q, k);
  }

  /** The two rings of the last loop, after i and after i + 1 moves. */
  lemma MoveShape(r0: Nodes, q0: Nodes, i: nat)
    requires 0 < |r0| && i + 1 < |q0|
    ensures var rest := q0[1..];
            r0 + rest[..i] + [rest[i]] == r0 + rest[..i + 1]
            && Without([q0[0]] + rest[i..], 1) == [q0[0]] + rest[i + 1..]
  {}

  /** The last loop: what is left in the second ring goes to the end of the first. */
  method MoveRest(head: CfgListItem, head2: CfgListItem, ghost r0: Nodes, ghost q0: Nodes) returns (ghost r: Nodes)
    requires |r0| > 0 && r0[0] == head && |q0| > 0 && q0[0] == head2 && IsRing(r0) && IsRing(q0) && Disjoint(q0, r0)
    modifies set n | n in r0 || n in q0
    ensures IsRing(r) && r == r0 + q0[1..] && IsRing([head2])
    ensures Items(r) == old(Items(r0)) + old(Items(q0))
  {
    hide IsRing, Items, Disjoint;
    ghost var q, i := q0, 0;
    r := r0;
    RingStart(q);
    var epos := head2.next;
    RingStep(q, if |q| == 1 then 0 else 1);
    var enext := epos.next;
    while epos != head2
      invariant 0 <= i < |q0| && r == r0 + q0[1..][..i] && q == [head2] + q0[1..][i..]
      invariant IsRing(r) && IsRing(q) && Disjoint(q, r)
      invariant epos == q[if |q| == 1 then 0 else 1] && (|q| > 1 ==> enext == After(q, 1))
      invariant forall n :: n in r0 || n in q0 ==> n.Value() == old(n.Value())
      decreases |q|
    {
      MoveShape(r0, q0, i);
      MoveOne(head, epos, r, q);
      r, q := r + [epos], Without(q, 1);
      i := i + 1;
      epos := enext;
      RingStep(q, if |q| == 1 then 0 else 1);
      enext := epos.next;
    }
    RingEnd(q, 1);
    assert q == [head2];
    ItemsAre(r, old(Items(r0)) + old(Items(q0)));
  }

  /** list_del and list_add_tail of the first item. */
  method MoveOne(head: CfgListItem, epos: CfgListItem, ghost r: Nodes, ghost q: Nodes)
    requires |r| > 0 && r[0] == head && |q| > 1 && q[1] == epos && IsRing(r) && IsRing(q) && Disjoint(q, r)
    modifies q`next, q`prev, r`next, r`prev
    ensures IsRing(r + [epos]) && IsRing(Without(q, 1)) && Disjoint(Without(q, 1), r + [epos])
  {
    hide IsRing, Disjoint;
    Apart(r, 0, q, 1);
    Left(q, 1);
    OnceApart(r, q);
    assert forall n :: n in Without(q, 1) ==> n in q && n !in r;
    ListDel(epos, q, 1);
    RingKept(r);
    AddedApart(r, q);
    AddTail(head, epos, r, Without(q, 1));
  }

  /** list_add_tail, seen from another ring. */
  method AddTail(head: CfgListItem, epos: CfgListItem, ghost r: Nodes, ghost rest: Nodes)
    requires |r| > 0 && r[0] == head && IsRing(r) && epos !in r && IsRing(rest) && epos !in rest && Disjoint(rest, r)
    modifies r`next, r`prev, epos`next, epos`prev
    ensures IsRing(r + [epos]) && IsRing(rest)
  {
    hide IsRing, Disjoint;
    OnceApart(r, rest);
    ListAddTail(epos, head, r);
    RingKept(rest);
  }

  lemma AddedApart(r: Nodes, q: Nodes)
    requires Disjoint(q, r) && |q| > 1 && q[1] !in Without(q, 1)
    ensures Disjoint(Without(q, 1), r) && Disjoint(Without(q, 1), r + [q[1]])
  {}

  /** The splice into an empty first ring, after which the second ring is made empty. */
  method SpliceAll(head: CfgListItem, head2: CfgListItem, ghost r0: Nodes, ghost q0: Nodes)
    requires |r0| > 0 && r0[0] == head && |q0| > 0 && q0[0] == head2 && IsRing(r0) && IsRing(q0) && Disjoint(q0, r0)
    modifies r0`next, r0`prev, q0`next, q0`prev
    ensures IsRing(r0 + q0[1..]) && IsRing([head2])
    ensures Items(r0 + q0[1..]) == old(Items(r0)) + old(Items(q0))
  {
    hide IsRing, Items, Disjoint;
    ghost var items := Items(r0) + Items(q0);
    OnceApart(r0, q0);
    HeadApart(r0, q0);
    ListSpliceTail(head2, head, q0, r0);
    EmptySecond(head2, r0 + q0[1..]);
    ItemsAre(r0 + q0[1..], items);
  }

  lemma HeadApart(r: Nodes, q: Nodes)
    requires IsRing(q) && Disjoint(q, r)
    ensures |q| > 0 && q[0] !in r + q[1..]
  {}

  method EmptySecond(head2: CfgListItem, ghost r: Nodes)
    requires IsRing(r) && head2 !in r
    modifies head2`next, head2`prev
    ensures IsRing(r) && IsRing([head2])
  {
    hide IsRing;
    InitListHead(head2);
    RingKept(r);
  }

  lemma MergedNone(items: seq<Item>, extras: seq<Item>)
    requires extras == [] || items == []
    ensures Merged(items, extras) == if extras == [] then items else extras
  {
    if extras != [] { AddedAll(extras); }
    assert extras == [] ==> Folded(items, extras) == items;
  }

  lemma {:induction false} AddedAll(extras: seq<Item>)
    ensures Added([], extras) == extras
  {
    if extras != [] { AddedAll(extras[..|extras| - 1]); }
  }

  /** merge_configs. The second ring's items are overlaid on, or replace, those of the first ring
      with their offsets, in order; the others follow, in order; the second ring ends empty. */
  method MergeConfigs(head: CfgListItem, head2: CfgListItem, ghost r0: Nodes, ghost q0: Nodes) returns (ghost r: Nodes)
    requires |r0| > 0 && r0[0] == head && |q0| > 0 && q0[0] == head2 && IsRing(r0) && IsRing(q0) && Disjoint(q0, r0)
    requires forall e :: e in Items(q0) ==> AtMostOnce(Items(r0), e.offset)
    modifies set n | n in r0 || n in q0
    ensures IsRing(r) && r[0] == head && IsRing([head2])
    ensures forall n :: n in r ==> n in r0 || n in q0
    ensures Items(r) == Merged(old(Items(r0)), old(Items(q0)))
  {
    hide IsRing, Items, Disjoint, AtMostOnce, Merged, Merging;
    ghost var items, extras := Items(r0), Items(q0);
    r := r0;
    var noExtras := ListEmpty(head2, q0);
    if noExtras {
      assert q0 == [head2];
      MergedNone(items, extras);
      return;
    }
    var noItems := ListEmpty(head, r0);
    if noItems {
      SpliceAll(head, head2, r0, q0);
      r := r0 + q0[1..];
      MergedNone(items, extras);
      return;
    }
    ghost var q;
    r, q := MergeMatches(head, head2, r0, q0);
    MergingDone(r, q, items, extras);
    noExtras := ListEmpty(head2, q);
    if noExtras {
      assert q == [head2];
      return;
    }
    r := MoveRest(head, head2, r, q);
  }

  lemma MergingDone(r: Nodes, q: Nodes, items: seq<Item>, extras: seq<Item>)
    requires Merging(r, q, items, extras, |extras|)
    ensures IsRing(r) && IsRing(q) && Disjoint(q, r) && Items(r) + Items(q) == Merged(items, extras)
    ensures |q| == 1 ==> Items(r) == Merged(items, extras)
  {
    assert extras[..|extras|] == extras && extras[|extras|..] == [];
  }
}
