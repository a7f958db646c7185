/** COWDictMeta of COW.py on the heap: levels are objects that point to their parents, and mutable
    values are objects that are copied into a level on their first use there. */
module CowLevels {
  import opened Cow
  import opened Options

  /** A mutable value: a flat object that is changed in place. */
  class Cell {
    var contents: seq<int>

    constructor (contents: seq<int>)
      ensures this.contents == contents
    {
      this.contents := contents;
    }
  }

  /** The argument of a set and the result of a get. */
  datatype Stored = Imm(plain: Plain) | Obj(cell: Cell)

  type World = seq<CowDict>

  /** The levels so far, in the order of their creation; no two attributes share an object. */
  ghost predicate IsWorld(w: World)
    reads w
  {
    (forall i :: 0 <= i < |w| ==> w[i].id == i && IsChild(w, w[i]) && Unshared(w[i]))
    && forall i, j :: 0 <= i < j < |w| ==> Cells(w[i]) !! Cells(w[j])
  }

  ghost predicate Unshared(d: CowDict)
    reads d
  {
    forall a, b :: a in d.mut && b in d.mut && d.mut[a] == d.mut[b] ==> a == b
  }

  ghost predicate IsChild(w: World, d: CowDict) {
    d.parent != null ==> d.parent.id < d.id && d.parent.id < |w| && w[d.parent.id] == d.parent
  }

  ghost function Up(d: CowDict): (r: int)
    ensures r >= -1
  {
    if d.parent == null then -1 else d.parent.id
  }

  /** The objects the level's mutable attributes refer to. */
  ghost function Cells(d: CowDict): set<Cell>
    reads d
  {
    set key | key in d.mut :: d.mut[key]
  }

  ghost function Contents(d: CowDict): map<Key, seq<int>>
    reads d, Cells(d)
  {
    map key | key in d.mut :: d.mut[key].contents
  }

  ghost function LevelOf(d: CowDict): Level
    reads d, Cells(d)
  {
    Level(Up(d), d.plain, Contents(d))
  }

  ghost function AllCells(w: World): set<Cell>
    reads w
  {
    set i, c | 0 <= i < |w| && c in Cells(w[i]) :: c
  }

  /** The store of values the levels stand for. */
  ghost function Abs(w: World): (s: Store)
    requires IsWorld(w)
    reads w, AllCells(w)
    ensures |s| == |w| && forall i :: 0 <= i < |w| ==> s[i] == LevelOf(w[i])
  {
    seq(|w|, i requires 0 <= i < |w| reads w, AllCells(w) => LevelOf(w[i]))
  }

  lemma AbsIs(w: World, s: Store)
    requires IsWorld(w) && |s| == |w| && forall i :: 0 <= i < |w| ==> s[i] == LevelOf(w[i])
    ensures Abs(w) == s
  {}

  lemma NewLevel(w: World, c: CowDict)
    requires IsWorld(w) && c.id == |w| && c.plain == map[] && c.mut == map[]
    requires c.parent != null && In(c.parent, w)
    ensures IsWorld(w + [c]) && Abs(w + [c]) == Step(Abs(w), Copy(c.parent.id))
  {
    var w' := w + [c];
    assert forall i :: 0 <= i < |w| ==> w'[i] == w[i] && IsChild(w, w[i]) && Unshared(w[i]);
    assert Cells(c) == {} && IsChild(w', c);
    assert IsWorld(w');
    assert LevelOf(c) == Level(c.parent.id, map[], map[]);
    AbsIs(w', Step(Abs(w), Copy(c.parent.id)));
  }

  ghost predicate In(d: CowDict, w: World) {
    d.id < |w| && w[d.id] == d
  }

  class CowDict {
    ghost const id: nat
    const parent: CowDict?
    var plain: map<Key, Plain>
    var mut: map<Key, Cell>

    constructor (parent: CowDict?, ghost id: nat)
      ensures this.parent == parent && this.id == id && plain == map[] && mut == map[]
    {
      this.parent, this.id := parent, id;
      plain, mut := map[], map[];
    }

    /** cow. */
    method Cow(ghost w: World) returns (c: CowDict)
      requires IsWorld(w) && In(this, w)
      ensures fresh(c) && IsWorld(w + [c]) && Abs(w + [c]) == Step(old(Abs(w)), Copy(id))
    {
      ghost var s := Abs(w);
      c := new CowDict(this, |w|);
      AbsIs(w, s);
      NewLevel(w, c);
    }

    /** getattr(cls, key): the walk up the levels. */
    method GetPlain(key: Key, ghost w: World) returns (r: Option<Plain>)
      requires IsWorld(w) && In(this, w)
      ensures Abs(w) == old(Abs(w)) && r == PlainAt(Abs(w), id, key)
    {
      var c: CowDict? := this;
      while c != null
        invariant c != null ==> In(c, w)
        invariant PlainAt(Abs(w), id, key) == PlainAt(Abs(w), if c == null then -1 else c.id, key)
        decreases if c == null then 0 else c.id + 1
      {
        assert Abs(w)[c.id] == LevelOf(c) && IsChild(w, c);
        if key in c.plain { return Some(c.plain[key]); }
        c := c.parent;
      }
      r := None;
    }

    /** getattr(cls, nkey). */
    method GetAttr(key: Key, ghost w: World) returns (r: Option<Cell>)
      requires IsWorld(w) && In(this, w)
      ensures Abs(w) == old(Abs(w)) && MutAt(Abs(w), id, key) == if r.None? then None else Some(r.value.contents)
      ensures key in mut ==> r == Some(mut[key])
    {
      var c: CowDict? := this;
      while c != null
        invariant c != null ==> In(c, w)
        invariant c != this ==> key !in mut
        invariant MutAt(Abs(w), id, key) == MutAt(Abs(w), if c == null then -1 else c.id, key)
        decreases if c == null then 0 else c.id + 1
      {
        assert Abs(w)[c.id] == LevelOf(c) && IsChild(w, c);
        if key in c.mut { return Some(c.mut[key]); }
        c := c.parent;
      }
      r := None;
    }

    /** setattr with a plain value. */
    method SetPlainAttr(key: Key, value: Plain, ghost w: World)
      requires IsWorld(w) && In(this, w)
      modifies `plain
      ensures IsWorld(w) && Abs(w) == WithPlain(old(Abs(w)), id, key, value)
    {
      ghost var s := Abs(w);
      plain := plain[key := value];
      AbsIs(w, WithPlain(s, id, key, value));
    }

    /** setattr with an object no attribute refers to. */
    method SetMutAttr(key: Key, cell: Cell, ghost w: World)
      requires IsWorld(w) && In(this, w) && forall d :: d in w ==> cell !in Cells(d)
      modifies `mut
      ensures IsWorld(w) && Abs(w) == WithMut(old(Abs(w)), id, key, cell.contents) && key in mut && mut[key] == cell
    {
      ghost var s := Abs(w);
      assert this in w && forall b :: b in mut ==> mut[b] in Cells(this);
      mut := mut[key := cell];
      assert Cells(this) <= old(Cells(this)) + {cell};
      assert Unshared(this);
      assert forall i :: 0 <= i < |w| && i != id ==> Cells(w[i]) == old(Cells(w[i])) && Unshared(w[i]);
      forall i | 0 <= i < |w| ensures WithMut(s, id, key, cell.contents)[i] == LevelOf(w[i]) {
        if i == id { assert Contents(this) == s[id].mut[key := cell.contents]; }
      }
      AbsIs(w, WithMut(s, id, key, cell.contents));
    }

    /** __setitem__. */
    method SetItem(key: Key, value: Stored, ghost w: World)
      requires IsWorld(w) && In(this, w) && (value.Obj? ==> forall d :: d in w ==> value.cell !in Cells(d))
      modifies `plain, `mut
      ensures IsWorld(w)
      ensures Abs(w) == Step(old(Abs(w)), if value.Imm? then SetPlain(id, key, value.plain)
                                          else SetMut(id, key, value.cell.contents))
    {
      match value
      case Imm(p) => SetPlainAttr(key, p, w);
      case Obj(cell) => SetMutAttr(key, cell, w);
    }

    /** __delitem__. */
    method DelItem(key: Key, ghost w: World)
      requires IsWorld(w) && In(this, w)
      modifies `plain, `mut
      ensures IsWorld(w) && Abs(w) == Step(old(Abs(w)), Del(id, key))
    {
      SetItem(key, Imm(EmptyTuple), w);
    }

    /** __getmutable__: None is its AttributeError. */
    method GetMutable(key: Key, readonly: bool, ghost w: World) returns (r: Option<Cell>)
      requires IsWorld(w) && In(this, w)
      modifies `mut
      ensures IsWorld(w) && Abs(w) == if readonly then old(Abs(w)) else CopyDown(old(Abs(w)), id, key)
      ensures MutAt(old(Abs(w)), id, key) == if r.None? then None else Some(r.value.contents)
      ensures !readonly && r.Some?
              ==> key in mut && mut[key] == r.value && (fresh(r.value) || r.value in old(Cells(this)))
    {
      ghost var s := Abs(w);
      r := GetAttr(key, w);
      if key in mut {
        OwnCopy(Abs(w), id, key);
        return Some(mut[key]);
      }
      if r.None? || readonly { return; }
      var copy := new Cell(r.value.contents);
      assert Abs(w) == s;
      r := Some(copy);
      SetMutAttr(key, copy, w);
    }

    /** __getitem__: None is its KeyError. */
    method GetItem(key: Key, readonly: bool, ghost w: World) returns (r: Option<Stored>)
      requires IsWorld(w) && In(this, w)
      modifies `mut
      ensures IsWorld(w) && Abs(w) == Step(old(Abs(w)), Get(id, key, readonly))
      ensures Look(old(Abs(w)), id, key) == ValueOf(r) && r != Some(Imm(EmptyTuple))
      ensures !readonly && r.Some? && r.value.Obj?
              ==> key in mut && mut[key] == r.value.cell && (fresh(r.value.cell) || r.value.cell in old(Cells(this)))
    {
      var p := GetPlain(key, w);
      match p
      case Some(value) => r := if value == EmptyTuple then None else Some(Imm(value));
      case None =>
        var c := GetMutable(key, readonly, w);
        r := if c.None? then None else Some(Obj(c.value));
    }

    /** has_key. */
    method HasKey(key: Key, ghost w: World) returns (r: bool)
      requires IsWorld(w) && In(this, w)
      modifies `mut
      ensures IsWorld(w) && Abs(w) == old(Abs(w)) && (r <==> Look(old(Abs(w)), id, key).Some?)
    {
      var value := GetItem(key, true, w);
      r := value.Some?;
    }

    /** iter("items") over the attributes that dir has listed: with or without readonly it yields what
        is looked up at its start, and no lookup changes meanwhile. */
    method IterItems(names: seq<Name>, readonly: bool, ghost w: World) returns (items: seq<(Key, Stored)>)
      requires IsWorld(w) && In(this, w)
      modifies `mut
      ensures IsWorld(w) && SameLooks(old(Abs(w)), Abs(w))
      ensures AllShown(items) == Yielded(old(Abs(w)), id, names)
    {
      hide IsWorld, Look, Step, Yielded;
      ghost var s := Abs(w);
      items := [];
      assert Yielded(s, id, names[..0]) == [] by { YieldedNone(s, id, names[..0]); }
      for n := 0 to |names|
        invariant IsWorld(w) && SameLooks(s, Abs(w)) && AllShown(items) == Yielded(s, id, names[..n])
      {
        var key := names[n].key;
        YieldedStep(s, id, names, n);
        SameLooksGet(s, Abs(w), Get(id, key, readonly));
        var value := GetItem(key, readonly, w);
        ghost var before := AllShown(items);
        if value.Some? {
          items := items + [(key, value.value)];
          assert AllShown(items) == before + [(key, Shown(value.value))];
        }
      }
      assert names[..|names|] == names;
    }

    /** The object of an own attribute gets new contents. */
    method Assign(key: Key, contents: seq<int>, ghost w: World)
      requires IsWorld(w) && In(this, w) && key in mut
      modifies mut[key]
      ensures IsWorld(w) && Abs(w) == WithMut(old(Abs(w)), id, key, contents)
    {
      ghost var s := Abs(w);
      assert this in w && mut[key] in Cells(this);
      mut[key].contents := contents;
      forall i | 0 <= i < |w| ensures WithMut(s, id, key, contents)[i] == LevelOf(w[i]) {
        if i != id { assert mut[key] !in Cells(w[i]); }
      }
      AbsIs(w, WithMut(s, id, key, contents));
    }

    /** d[key] changed in place by the caller. Only objects of this level are written. */
    method ChangeInPlace(key: Key, contents: seq<int>, ghost w: World)
      requires IsWorld(w) && In(this, w)
      modifies `mut, Cells(this)
      ensures IsWorld(w) && Abs(w) == Step(old(Abs(w)), Mutate(id, key, contents))
    {
      GetThenAssign(Abs(w), id, key, contents);
      var r := GetItem(key, false, w);
      if r.Some? && r.value.Obj? {
        Assign(key, contents, w);
      }
    }
  }

  /** Changing a value in place is getting it without readonly and giving it new contents. */
  lemma GetThenAssign(s: Store, i: nat, key: Key, contents: seq<int>)
    requires i < |s|
    ensures var got := Step(s, Get(i, key, false));
            Step(s, Mutate(i, key, contents))
            == match Look(s, i, key) { case Some(Mutable(_)) => WithMut(got, i, key, contents) case _ => got }
  {
    if Look(s, i, key).Some? && Look(s, i, key).value.Mutable? {
      var c := Look(s, i, key).value.contents;
      assert s[i].mut[key := c][key := contents] == s[i].mut[key := contents];
    }
  }

  ghost function Shown(x: Stored): Value
    reads if x.Obj? then {x.cell} else {}
  {
    match x
    case Imm(value) => Immutable(value)
    case Obj(cell) => Mutable(cell.contents)
  }

  ghost function CellsOf(items: seq<(Key, Stored)>): set<Cell> {
    set i | 0 <= i < |items| && items[i].1.Obj? :: items[i].1.cell
  }

  /** The items of an iteration as values. */
  ghost function AllShown(items: seq<(Key, Stored)>): (r: seq<(Key, Value)>)
    reads CellsOf(items)
    ensures |r| == |items| && forall i :: 0 <= i < |items| ==> r[i] == (items[i].0, Shown(items[i].1))
  {
    seq(|items|, i requires 0 <= i < |items| reads CellsOf(items) => (items[i].0, Shown(items[i].1)))
  }

  /** Every lookup is the same. */
  ghost predicate SameLooks(s: Store, t: Store) {
    |s| == |t| && forall j, key :: 0 <= j < |s| ==> Look(t, j, key) == Look(s, j, key)
  }

  lemma SameLooksGet(s: Store, t: Store, op: Op)
    requires SameLooks(s, t) && op.Get? && op.i < |t|
    ensures SameLooks(s, Step(t, op))
  {
    forall j, key | 0 <= j < |s| ensures Look(Step(t, op), j, key) == Look(s, j, key) { GetNeutral(t, op, j, key); }
  }

  lemma YieldedNone(s: Store, i: nat, names: seq<Name>)
    requires i < |s| && names == []
    ensures Yielded(s, i, names) == []
  {}

  lemma YieldedStep(s: Store, i: nat, names: seq<Name>, n: nat)
    requires i < |s| && n < |names|
    ensures var key := names[n].key;
            Yielded(s, i, names[..n + 1])
            == Yielded(s, i, names[..n]) + if Look(s, i, key).Some? then [(key, Look(s, i, key).value)] else []
  {
    assert names[..n + 1][..n] == names[..n];
  }

  /** What the caller sees of a result. */
  ghost function ValueOf(r: Option<Stored>): Option<Value>
    reads if r.Some? && r.value.Obj? then {r.value.cell} else {}
  {
    match r
    case None => None
    case Some(Imm(value)) => Some(Immutable(value))
    case Some(Obj(cell)) => Some(Mutable(cell.contents))
  }

  /** Copying down what the level already has changes nothing. */
  lemma OwnCopy(s: Store, i: nat, key: Key)
    requires i < |s| && key in s[i].mut
    ensures CopyDown(s, i, key) == s
  {
    assert s[i].mut[key := s[i].mut[key]] == s[i].mut;
  }
}
