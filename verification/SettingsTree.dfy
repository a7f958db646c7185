/** dict_merge of merge_settings.py on the heap: dicts are objects, the target is changed in place
    and what comes from the source is copied. */
module SettingsTree {
  import opened Settings

  /** A value in a dict: a leaf, or another dict. */
  datatype Node = Text(v: string) | Sub(d: PyDict)

  class PyDict {
    var items: map<Key, Node>
    ghost var repr: set<PyDict>

    /** The dicts below this one form a tree, and repr is all of them. */
    ghost predicate Valid()
      reads this, repr
      decreases repr
    {
      this in repr
      && (forall k :: k in items && items[k].Sub? ==>
            items[k].d in repr && items[k].d.repr < repr && this !in items[k].d.repr && items[k].d.Valid())
      && (forall a, b :: a in items && b in items && a != b && items[a].Sub? && items[b].Sub?
                         ==> items[a].d.repr !! items[b].d.repr)
    }

    ghost function Contents(): (y: Yaml)
      requires Valid()
      reads this, repr
      ensures y.Dict?
      decreases repr
    {
      Dict(map k | k in items :: if items[k].Text? then Leaf(items[k].v) else items[k].d.Contents())
    }
 
    constructor ()
      ensures Valid() && repr == {this} && items == map[] && Contents() == EMPTY
    {
      items := map[];
      repr := {this};
      new;
      assert Contents().m == map[];
    }

    /** self[k] = v, for a value that is not in this tree. */
    method Put(k: Key, v: Node)
      requires Valid() && ValidNode(v) && ReprOf(v) !! repr
      modifies this
      ensures Valid() && repr == old(repr) + old(ReprOf(v))
      ensures items == old(items)[k := v] && Contents() == Dict(old(Contents()).m[k := old(ValueOf(v))])
    {
      hide Contents;
      ghost var was, value := Contents().m, ValueOf(v);
      KeysOf(this);
      forall a | a in items ensures ValidNode(items[a]) && ValueOf(items[a]) == was[a] { ChildOf(this, a); }
      items := items[k := v];
      repr := repr + ReprOf(v);
      ContentsAre(this, was[k := value]);
    }

    /** self.pop(k). */
    method Pop(k: Key)
      requires Valid()
      modifies `items
      ensures Valid() && repr == old(repr)
      ensures items == old(items) - {k} && Contents() == Dict(old(Contents()).m - {k})
    {
      ghost var was := Contents().m;
      items := items - {k};
      assert Contents().m == was - {k};
    }
  }

  ghost predicate ValidNode(n: Node)
    reads if n.Sub? then {n.d} + n.d.repr else {}
  {
    n.Sub? ==> n.d.Valid()
  }

  ghost function ValueOf(n: Node): Yaml
    requires ValidNode(n)
    reads if n.Sub? then {n.d} + n.d.repr else {}
  {
    if n.Text? then Leaf(n.v) else n.d.Contents()
  }

  ghost function ReprOf(n: Node): set<PyDict>
    reads if n.Sub? then {n.d} else {}
  {
    if n.Sub? then n.d.repr else {}
  }

  lemma ChildOf(d: PyDict, k: Key)
    requires d.Valid() && k in d.items
    ensures ValidNode(d.items[k]) && ReprOf(d.items[k]) < d.repr
    ensures k in d.Contents().m && ValueOf(d.items[k]) == d.Contents().m[k]
    ensures d.Contents().m[k].Dict? <==> d.items[k].Sub?
  {}

  lemma KeysOf(d: PyDict)
    requires d.Valid()
    ensures d in d.repr && d.Contents().m.Keys == d.items.Keys
  {}

  /** copy.deepcopy. */
  method DeepCopy(n: Node) returns (r: Node)
    requires ValidNode(n)
    ensures ValidNode(r) && fresh(ReprOf(r)) && ValueOf(r) == old(ValueOf(n))
    decreases ReprOf(n), 1
  {
    if n.Text? { return n; }
    var c := CopyItems(n.d);
    r := Sub(c);
  }

  /** The loop of copy.deepcopy over the items of a dict. */
  method CopyItems(d: PyDict) returns (c: PyDict)
    requires d.Valid()
    ensures c.Valid() && fresh(c.repr) && c.Contents() == old(d.Contents())
    decreases d.repr, 0
  {
    hide PyDict.Valid, PyDict.Contents, Part;
    ghost var value, done := d.Contents(), {};
    c := new PyDict();
    var rest := d.items.Keys;
    KeysOf(d);
    PartEnds(value);
    while rest != {}
      invariant rest !! done && rest + done == d.items.Keys == value.m.Keys
      invariant c.Valid() && fresh(c.repr) && d.Valid() && d.Contents() == value
      invariant c.Contents() == Part(value, done)
      decreases |rest|
    {
      var k :| k in rest;
      ChildOf(d, k);
      PartStep(value, done, k);
      CopyKey(c, k, d.items[k]);
      rest, done := rest - {k}, done + {k};
    }
    assert done == value.m.Keys;
  }

  method CopyKey(c: PyDict, k: Key, v: Node)
    requires c.Valid() && ValidNode(v)
    modifies c
    ensures c.Valid() && fresh(c.repr - old(c.repr)) && c.Contents() == Dict(old(c.Contents()).m[k := old(ValueOf(v))])
    decreases ReprOf(v), 2
  {
    hide PyDict.Valid, PyDict.Contents;
    var copy := DeepCopy(v);
    c.Put(k, copy);
  }

  /** One turn of dict_merge. */
  method MergeKey(target: PyDict, k: Key, v: Node, remove: bool)
    requires target.Valid() && ValidNode(v) && ReprOf(v) !! target.repr
    modifies target.repr
    ensures target.Valid() && fresh(target.repr - old(target.repr))
    ensures target.Contents() == Turn(old(target.Contents()), k, old(ValueOf(v)), remove)
    decreases ReprOf(v), 3
  {
    hide PyDict.Valid, PyDict.Contents;
    if k in target.items { ChildOf(target, k); }
    KeysOf(target);
    if k in target.items && target.items[k].Sub? {
      MergeChild(target, k, v, remove);
    } else if remove && k in target.items {
      target.Pop(k);
    } else {
      var copy := DeepCopy(v);
      target.Put(k, copy);
    }
  }

  /** dict_merge. */
  method DictMerge(target: PyDict, source: Node, remove: bool)
    requires target.Valid() && ValidNode(source) && ReprOf(source) !! target.repr
    modifies target.repr
    ensures target.Valid() && fresh(target.repr - old(target.repr))
    ensures target.Contents() == Merge(old(target.Contents()), old(ValueOf(source)), remove)
    decreases ReprOf(source), 1
  {
    if source.Text? { return; }
    MergeItems(target, source.d, remove);
  }

  /** The loop of dict_merge. */
  method MergeItems(target: PyDict, source: PyDict, remove: bool)
    requires target.Valid() && source.Valid() && source.repr !! target.repr
    modifies target.repr
    ensures target.Valid() && fresh(target.repr - old(target.repr))
    ensures target.Contents() == Merge(old(target.Contents()), old(source.Contents()), remove)
    decreases source.repr, 0
  {
    hide PyDict.Valid, PyDict.Contents, Part, Merge, Turn;
    ghost var t, s, done := target.Contents(), source.Contents(), {};
    var rest := source.items.Keys;
    KeysOf(source);
    MergeEnds(t, s, remove);
    while rest != {}
      invariant rest !! done && rest + done == source.items.Keys == s.m.Keys
      invariant target.Valid() && source.Valid() && source in source.repr && source.repr !! target.repr
      invariant source.Contents() == s && fresh(target.repr - old(target.repr))
      invariant target.Contents() == Merge(t, Part(s, done), remove)
      decreases |rest|
    {
      var k :| k in rest;
      ChildOf(source, k);
      MergeStep(t, s, remove, done, k);
      MergeKey(target, k, source.items[k], remove);
      rest, done := rest - {k}, done + {k};
    }
    assert done == s.m.Keys;
  }

  /** dict_merge(target[k], v, remove). */
  method MergeChild(target: PyDict, k: Key, v: Node, remove: bool)
    requires target.Valid() && k in target.items && target.items[k].Sub?
    requires ValidNode(v) && ReprOf(v) !! target.repr
    modifies target.repr
    ensures target.Valid() && fresh(target.repr - old(target.repr))
    ensures var m := old(target.Contents()).m;
            target.Contents() == Dict(m[k := Merge(m[k], old(ValueOf(v)), remove)])
    decreases ReprOf(v), 2
  {
    hide PyDict.Contents;
    ChildOf(target, k);
    ghost var m, child := target.Contents().m, target.items[k].d;
    ghost var y := Merge(m[k], ValueOf(v), remove);
    KeysOf(target);
    forall a | a in target.items ensures ValidNode(target.items[a]) && ValueOf(target.items[a]) == m[a] {
      ChildOf(target, a);
    }
    DictMerge(target.items[k].d, v, remove);
    Adopt(target, k);
    forall a | a in target.items ensures ValidNode(target.items[a]) && ValueOf(target.items[a]) == m[k := y][a] {
      if a != k && target.items[a].Sub? { assert target.items[a].d.repr !! old(child.repr); }
    }
    ContentsAre(target, m[k := y]);
  }

  /** The tree of a dict takes in what the tree of one of its values has grown to. */
  ghost method Adopt(target: PyDict, k: Key)
    requires k in target.items && target.items[k].Sub? && target in target.repr
    requires forall a :: a in target.items && target.items[a].Sub?
               ==> target.items[a].d.Valid() && target !in target.items[a].d.repr && target.items[a].d in target.repr
    requires forall a :: a in target.items && target.items[a].Sub? && a != k ==> target.items[a].d.repr < target.repr
    requires forall a, b :: a in target.items && b in target.items && a != b
                            && target.items[a].Sub? && target.items[b].Sub?
                            ==> target.items[a].d.repr !! target.items[b].d.repr
    modifies target`repr
    ensures target.Valid() && target.repr == old(target.repr) + target.items[k].d.repr
  {
    target.repr := target.repr + target.items[k].d.repr;
  }

  lemma ContentsAre(d: PyDict, m: map<Key, Yaml>)
    requires d.Valid() && m.Keys == d.items.Keys
    requires forall k :: k in d.items ==> ValidNode(d.items[k]) && ValueOf(d.items[k]) == m[k]
    ensures d.Contents() == Dict(m)
  {
    assert d.Contents().m == m;
  }
}
