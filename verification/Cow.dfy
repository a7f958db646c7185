/** The copy-on-write dictionary of COW.py on values: a tree of levels, each with its own attributes,
    and the eagerly copied dictionaries it stands for. */
module Cow {
  import opened Options

  type Key = string

  /** What is stored as a plain attribute. The deletion marker is the empty tuple. */
  datatype Plain = EmptyTuple | Atom(n: int)

  /** What a dictionary holds: an immutable value, or a mutable one with its contents. */
  datatype Value = Immutable(plain: Plain) | Mutable(contents: seq<int>)

  /** One level: its parent, the attributes under a key, and those under a key + "__mutable__". */
  datatype Level = Level(parent: int, plain: map<Key, Plain>, mut: map<Key, seq<int>>)

  /** The levels in the order of their creation; the first is COWDictBase. */
  type Store = s: seq<Level> | forall i :: 0 <= i < |s| ==> -1 <= s[i].parent < i

  // ----- lookup

  /** getattr(cls, key). */
  function PlainAt(s: Store, i: int, key: Key): (r: Option<Plain>)
    requires -1 <= i < |s|
    decreases i
  {
    if i < 0 then None
    else if key in s[i].plain then Some(s[i].plain[key])
    else PlainAt(s, s[i].parent, key)
  }

  /** getattr(cls, key + "__mutable__"). */
  function MutAt(s: Store, i: int, key: Key): (r: Option<seq<int>>)
    requires -1 <= i < |s|
    decreases i
  {
    if i < 0 then None
    else if key in s[i].mut then Some(s[i].mut[key])
    else MutAt(s, s[i].parent, key)
  }

  /** __getitem__: a plain attribute anywhere on the way up comes before every mutable one. */
  function Look(s: Store, i: nat, key: Key): (r: Option<Value>)
    requires i < |s|
  {
    match PlainAt(s, i, key)
    case Some(EmptyTuple) => None
    case Some(value) => Some(Immutable(value))
    case None =>
      match MutAt(s, i, key)
      case None => None
      case Some(c) => Some(Mutable(c))
  }

  /** The levels a lookup at i passes. */
  function Chain(s: Store, i: int): set<int>
    requires -1 <= i < |s|
    decreases i
  {
    if i < 0 then {} else {i} + Chain(s, s[i].parent)
  }

  /** The keys of dir(cls). */
  function PlainNames(s: Store, i: int): (r: set<Key>)
    requires -1 <= i < |s|
    ensures forall key :: key in r <==> PlainAt(s, i, key).Some?
    decreases i
  {
    if i < 0 then {} else s[i].plain.Keys + PlainNames(s, s[i].parent)
  }

  function MutNames(s: Store, i: int): (r: set<Key>)
    requires -1 <= i < |s|
    ensures forall key :: key in r <==> MutAt(s, i, key).Some?
    decreases i
  {
    if i < 0 then {} else s[i].mut.Keys + MutNames(s, s[i].parent)
  }

  /** The pairs of iteritems. */
  function Items(s: Store, i: nat): set<(Key, Value)>
    requires i < |s|
  {
    set key | key in PlainNames(s, i) + MutNames(s, i) && Look(s, i, key).Some? :: (key, Look(s, i, key).value)
  }

  // ----- operations

  datatype Op =
    | Copy(i: nat)
    | SetPlain(i: nat, key: Key, value: Plain)
    | SetMut(i: nat, key: Key, contents: seq<int>)
    | Del(i: nat, key: Key)
    | Get(i: nat, key: Key, readonly: bool)
    | Mutate(i: nat, key: Key, contents: seq<int>)

  /** setattr on the level's own attributes. */
  function WithPlain(s: Store, i: nat, key: Key, value: Plain): (r: Store)
    requires i < |s|
    ensures |r| == |s|
  {
    s[i := s[i].(plain := s[i].plain[key := value])]
  }

  function WithMut(s: Store, i: nat, key: Key, contents: seq<int>): (r: Store)
    requires i < |s|
    ensures |r| == |s|
  {
    s[i := s[i].(mut := s[i].mut[key := contents])]
  }

  /** __getmutable__ without readonly: the value is copied into the level. */
  function CopyDown(s: Store, i: nat, key: Key): (r: Store)
    requires i < |s|
    ensures |r| == |s|
  {
    match MutAt(s, i, key)
    case None => s
    case Some(c) => WithMut(s, i, key, c)
  }

  /** Mutate is a get without readonly whose value, if it is mutable, is then given new contents. */
  function Step(s: Store, op: Op): (r: Store)
    requires op.i < |s|
    ensures |r| == |s| + if op.Copy? then 1 else 0
  {
    match op
    case Copy(i) => s + [Level(i, map[], map[])]
    case SetPlain(i, key, value) => WithPlain(s, i, key, value)
    case SetMut(i, key, contents) => WithMut(s, i, key, contents)
    case Del(i, key) => WithPlain(s, i, key, EmptyTuple)
    case Get(i, key, readonly) => if readonly || PlainAt(s, i, key).Some? then s else CopyDown(s, i, key)
    case Mutate(i, key, contents) =>
      if PlainAt(s, i, key).Some? || MutAt(s, i, key).None? then s else WithMut(s, i, key, contents)
  }

  // ----- what one write does to every lookup

  /** A level nearer than i on the way up from j has a plain attribute for the key. */
  predicate PlainNearer(s: Store, j: int, i: nat, key: Key)
    requires -1 <= j < |s|
    decreases j
  {
    j >= 0 && j != i && (key in s[j].plain || PlainNearer(s, s[j].parent, i, key))
  }

  predicate MutNearer(s: Store, j: int, i: nat, key: Key)
    requires -1 <= j < |s|
    decreases j
  {
    j >= 0 && j != i && (key in s[j].mut || MutNearer(s, s[j].parent, i, key))
  }

  /** Exactly the levels below i with no nearer plain attribute see a plain write at i. */
  lemma {:induction false} PlainWritten(s: Store, i: nat, key: Key, value: Plain, j: int, key': Key)
    requires i < |s| && -1 <= j < |s|
    ensures PlainAt(WithPlain(s, i, key, value), j, key')
         == if key' == key && i in Chain(s, j) && !PlainNearer(s, j, i, key) then Some(value) else PlainAt(s, j, key')
    ensures MutAt(WithPlain(s, i, key, value), j, key') == MutAt(s, j, key')
    decreases j
  {
    if j >= 0 {
      PlainWritten(s, i, key, value, s[j].parent, key');
      if j == i { ChainBelow(s, s[j].parent); }
    }
  }

  lemma {:induction false} MutWritten(s: Store, i: nat, key: Key, contents: seq<int>, j: int, key': Key)
    requires i < |s| && -1 <= j < |s|
    ensures MutAt(WithMut(s, i, key, contents), j, key')
         == if key' == key && i in Chain(s, j) && !MutNearer(s, j, i, key) then Some(contents) else MutAt(s, j, key')
    ensures PlainAt(WithMut(s, i, key, contents), j, key') == PlainAt(s, j, key')
    decreases j
  {
    if j >= 0 {
      MutWritten(s, i, key, contents, s[j].parent, key');
      if j == i { ChainBelow(s, s[j].parent); }
    }
  }

  lemma {:induction false} ChainBelow(s: Store, j: int)
    requires -1 <= j < |s|
    ensures forall i :: i in Chain(s, j) ==> 0 <= i <= j
    decreases j
  {
    if j >= 0 { ChainBelow(s, s[j].parent); }
  }

  // ----- isolation

  /** An operation at a level changes no lookup at its ancestors and siblings, or at any level whose
      way up does not pass it. */
  lemma Isolation(s: Store, op: Op, j: nat, key': Key)
    requires op.i < |s| && j < |s| && (op.i !in Chain(s, j) || op.Copy?)
    ensures Look(Step(s, op), j, key') == Look(s, j, key')
  {
    match op
    case Copy(i) => Longer(s, Level(i, map[], map[]), j, key');
    case SetPlain(i, key, value) => PlainWritten(s, i, key, value, j, key');
    case SetMut(i, key, contents) => MutWritten(s, i, key, contents, j, key');
    case Del(i, key) => PlainWritten(s, i, key, EmptyTuple, j, key');
    case Get(i, key, readonly) => GetNeutral(s, op, j, key');
    case Mutate(i, key, contents) => MutWritten(s, i, key, contents, j, key');
  }

  lemma {:induction false} Longer(s: Store, level: Level, j: int, key: Key)
    requires -1 <= j < |s| && -1 <= level.parent < |s|
    ensures PlainAt(s + [level], j, key) == PlainAt(s, j, key) && MutAt(s + [level], j, key) == MutAt(s, j, key)
    ensures Chain(s + [level], j) == Chain(s, j)
    decreases j
  {
    if j >= 0 { Longer(s, level, s[j].parent, key); }
  }

  /** A get, with its copy into the level or without, changes no lookup at any level. */
  lemma GetNeutral(s: Store, op: Op, j: nat, key': Key)
    requires op.Get? && op.i < |s| && j < |s|
    ensures Look(Step(s, op), j, key') == Look(s, j, key')
  {
    match MutAt(s, op.i, op.key)
    case None =>
    case Some(c) => {
      MutWritten(s, op.i, op.key, c, j, key');
      SeenThrough(s, j, op.i, op.key);
    }
  }

  lemma {:induction false} SeenThrough(s: Store, j: int, i: nat, key: Key)
    requires i < |s| && -1 <= j < |s|
    ensures i in Chain(s, j) && !MutNearer(s, j, i, key) ==> MutAt(s, j, key) == MutAt(s, i, key)
    decreases j
  {
    if j >= 0 {
      SeenThrough(s, s[j].parent, i, key);
    }
  }

  /** A mutable value that is set is looked up exactly when no plain attribute, a deletion marker or
      a value, is found for its key. */
  lemma SetMutVisible(s: Store, i: nat, key: Key, contents: seq<int>)
    requires i < |s|
    ensures Look(Step(s, SetMut(i, key, contents)), i, key) == Some(Mutable(contents)) <==> PlainAt(s, i, key).None?
  {
    MutWritten(s, i, key, contents, i, key);
  }

  /** A plain value that is set is looked up exactly when it is not the empty tuple, which deletes. */
  lemma SetPlainVisible(s: Store, i: nat, key: Key, value: Plain)
    requires i < |s|
    ensures Look(Step(s, SetPlain(i, key, value)), i, key) == Some(Immutable(value)) <==> value != EmptyTuple
    ensures Step(s, SetPlain(i, key, EmptyTuple)) == Step(s, Del(i, key))
  {
    PlainWritten(s, i, key, value, i, key);
  }

  // ----- the dictionaries it stands for

  type Dict = map<Key, Value>

  /** The same operations on dictionaries that are copied at once and in full. */
  function Eager(e: seq<Dict>, op: Op): (r: seq<Dict>)
    requires op.i < |e|
    ensures |r| == |e| + if op.Copy? then 1 else 0
  {
    match op
    case Copy(i) => e + [e[i]]
    case SetPlain(i, key, value) => e[i := e[i][key := Immutable(value)]]
    case SetMut(i, key, contents) => e[i := e[i][key := Mutable(contents)]]
    case Del(i, key) => e[i := e[i] - {key}]
    case Get(_, _, _) => e
    case Mutate(i, key, contents) =>
      if key in e[i] && e[i][key].Mutable? then e[i := e[i][key := Mutable(contents)]] else e
  }

  function Find(d: Dict, key: Key): Option<Value> {
    if key in d then Some(d[key]) else None
  }

  /** Every level looks like its dictionary. */
  ghost predicate Agrees(s: Store, e: seq<Dict>) {
    |s| == |e| && forall j, key :: 0 <= j < |s| ==> Look(s, j, key) == Find(e[j], key)
  }

  predicate HasCopy(s: Store, i: nat) {
    exists j :: 0 <= j < |s| && s[j].parent == i
  }

  predicate Writes(op: Op) {
    op.SetPlain? || op.SetMut? || op.Del? || op.Mutate?
  }

  /** The value is not the empty tuple, and not a mutable one where a plain attribute is found. */
  predicate Storable(s: Store, op: Op)
    requires op.i < |s|
  {
    (op.SetPlain? ==> op.value != EmptyTuple) && (op.SetMut? ==> PlainAt(s, op.i, op.key).None?)
  }

  /** No write to a level that was copied, and none that would not be looked up. */
  predicate Allowed(s: Store, op: Op) {
    op.i < |s| && (Writes(op) ==> !HasCopy(s, op.i)) && Storable(s, op)
  }

  lemma {:induction false} NotOnTheWay(s: Store, i: nat, j: int)
    requires i < |s| && -1 <= j < |s| && j != i && !HasCopy(s, i)
    ensures i !in Chain(s, j)
    decreases j
  {
    if j >= 0 {
      assert s[j].parent != i;
      NotOnTheWay(s, i, s[j].parent);
    }
  }

  /** One allowed operation keeps every level like its dictionary. */
  lemma StepAgrees(s: Store, e: seq<Dict>, op: Op)
    requires Agrees(s, e) && Allowed(s, op)
    ensures Agrees(Step(s, op), Eager(e, op))
  {
    var s', e' := Step(s, op), Eager(e, op);
    forall j, key | 0 <= j < |s'| ensures Look(s', j, key) == Find(e'[j], key) {
      if op.Copy? {
        if j < |s| { Isolation(s, op, j, key); } else { Longer(s, Level(op.i, map[], map[]), op.i, key); }
        assert Look(s, if j < |s| then j else op.i, key) == Find(e'[j], key);
      } else if op.Get? {
        GetNeutral(s, op, j, key);
      } else {
        assert Look(s, j, key) == Find(e[j], key);
        if j != op.i {
          NotOnTheWay(s, op.i, j);
          Isolation(s, op, j, key);
          OtherDict(e, op, j);
        } else {
          assert Look(s, j, op.key) == Find(e[j], op.key);
          OwnLevel(s, e[j], op, key);
          OwnDict(e, op);
        }
      }
    }
  }

  lemma OtherDict(e: seq<Dict>, op: Op, j: nat)
    requires op.i < |e| && j < |e| && j != op.i && !op.Copy?
    ensures Eager(e, op)[j] == e[j]
  {}

  lemma OwnDict(e: seq<Dict>, op: Op)
    requires op.i < |e| && Writes(op)
    ensures Eager(e, op)[op.i] == Written(e[op.i], op)
  {}

  /** A write on one dictionary. */
  function Written(d: Dict, op: Op): Dict
    requires Writes(op)
  {
    match op
    case SetPlain(_, key, value) => d[key := Immutable(value)]
    case SetMut(_, key, contents) => d[key := Mutable(contents)]
    case Del(_, key) => d - {key}
    case Mutate(_, key, contents) => if key in d && d[key].Mutable? then d[key := Mutable(contents)] else d
  }

  lemma OwnLevel(s: Store, d: Dict, op: Op, key': Key)
    requires op.i < |s| && Writes(op) && Storable(s, op)
    requires Look(s, op.i, op.key) == Find(d, op.key) && Look(s, op.i, key') == Find(d, key')
    ensures Look(Step(s, op), op.i, key') == Find(Written(d, op), key')
  {
    match op
    case SetPlain(i, key, value) => PlainWritten(s, i, key, value, i, key');
    case SetMut(i, key, contents) => MutWritten(s, i, key, contents, i, key');
    case Del(i, key) => PlainWritten(s, i, key, EmptyTuple, i, key');
    case Mutate(i, key, contents) => MutWritten(s, i, key, contents, i, key');
  }

  /** At its own level a write does what it does to the dictionary exactly when it is storable. */
  lemma WriteExact(s: Store, d: Dict, op: Op)
    requires op.i < |s| && Writes(op) && forall key :: Look(s, op.i, key) == Find(d, key)
    ensures (forall key :: Look(Step(s, op), op.i, key) == Find(Written(d, op), key)) <==> Storable(s, op)
  {
    if Storable(s, op) {
      forall key ensures Look(Step(s, op), op.i, key) == Find(Written(d, op), key) { OwnLevel(s, d, op, key); }
    } else {
      if op.SetPlain? {
        PlainWritten(s, op.i, op.key, op.value, op.i, op.key);
      } else {
        MutWritten(s, op.i, op.key, op.contents, op.i, op.key);
      }
      assert Look(Step(s, op), op.i, op.key) != Find(Written(d, op), op.key);
    }
  }

  // ----- whole histories

  const BASE: Store := [Level(-1, map[], map[])]

  function Run(s: Store, ops: seq<Op>): Store
    requires InRange(|s|, ops)
    decreases |ops|
  {
    if ops == [] then s else Run(Step(s, ops[0]), ops[1..])
  }

  function RunEager(e: seq<Dict>, ops: seq<Op>): seq<Dict>
    requires InRange(|e|, ops)
    decreases |ops|
  {
    if ops == [] then e else RunEager(Eager(e, ops[0]), ops[1..])
  }

  /** Every operation is at a level that exists by then. */
  predicate InRange(n: nat, ops: seq<Op>)
    decreases |ops|
  {
    ops == [] || (ops[0].i < n && InRange(n + if ops[0].Copy? then 1 else 0, ops[1..]))
  }

  predicate AllowedRun(s: Store, ops: seq<Op>)
    requires InRange(|s|, ops)
    decreases |ops|
  {
    ops == [] || (Allowed(s, ops[0]) && AllowedRun(Step(s, ops[0]), ops[1..]))
  }

  lemma {:induction false} RunAgrees(s: Store, e: seq<Dict>, ops: seq<Op>)
    requires Agrees(s, e) && InRange(|s|, ops) && AllowedRun(s, ops)
    ensures Agrees(Run(s, ops), RunEager(e, ops))
    decreases |ops|
  {
    if ops != [] {
      StepAgrees(s, e, ops[0]);
      RunAgrees(Step(s, ops[0]), Eager(e, ops[0]), ops[1..]);
    }
  }

  /** Copy-on-write refines eager copying: after any allowed history every level has the keys, the
      values and the items of its dictionary. */
  lemma RefinesEager(ops: seq<Op>, j: nat, key: Key)
    requires InRange(1, ops) && AllowedRun(BASE, ops) && j < |Run(BASE, ops)|
    ensures j < |RunEager([map[]], ops)|
    ensures var d := RunEager([map[]], ops)[j];
            Look(Run(BASE, ops), j, key) == Find(d, key)
            && Items(Run(BASE, ops), j) == set k | k in d :: (k, d[k])
  {
    RunAgrees(BASE, [map[]], ops);
    ItemsOf(Run(BASE, ops), RunEager([map[]], ops), j);
  }

  lemma ItemsOf(s: Store, e: seq<Dict>, j: nat)
    requires Agrees(s, e) && j < |s|
    ensures Items(s, j) == set key | key in e[j] :: (key, e[j][key])
  {
    forall key | key in e[j] ensures key in PlainNames(s, j) + MutNames(s, j) {
      assert Look(s, j, key) == Find(e[j], key);
    }
    assert forall key :: Look(s, j, key) == Find(e[j], key);
  }

  // ----- iteration

  /** The attributes dir(cls) lists. */
  datatype Name = PlainName(key: Key) | MutName(key: Key)

  ghost predicate IsDir(s: Store, i: nat, names: seq<Name>)
    requires i < |s|
  {
    (forall a, b :: 0 <= a < b < |names| ==> names[a] != names[b])
    && forall n :: n in names <==> if n.PlainName? then n.key in PlainNames(s, i) else n.key in MutNames(s, i)
  }

  /** iter: one turn of the loop per attribute name. */
  function Yielded(s: Store, i: nat, names: seq<Name>): seq<(Key, Value)>
    requires i < |s|
  {
    if names == [] then []
    else
      var key := names[|names| - 1].key;
      Yielded(s, i, names[..|names| - 1]) + if Look(s, i, key).Some? then [(key, Look(s, i, key).value)] else []
  }

  lemma {:induction false} YieldCount(s: Store, i: nat, names: seq<Name>, key: Key)
    requires i < |s| && forall a, b :: 0 <= a < b < |names| ==> names[a] != names[b]
    ensures forall v :: multiset(Yielded(s, i, names))[(key, v)]
              == if Look(s, i, key) == Some(v)
                 then (if PlainName(key) in names then 1 else 0) + (if MutName(key) in names then 1 else 0)
                 else 0
  {
    if names != [] {
      var n := |names| - 1;
      YieldCount(s, i, names[..n], key);
      assert names == names[..n] + [names[n]];
    }
  }

  /** Iterating over the items yields those of the dictionary and no others, and yields an item twice
      exactly when its key has attributes of both kinds on the way up. */
  lemma YieldItems(s: Store, i: nat, names: seq<Name>, key: Key, v: Value)
    requires i < |s| && IsDir(s, i, names)
    ensures (key, v) in Yielded(s, i, names) <==> (key, v) in Items(s, i)
    ensures (key, v) in Yielded(s, i, names) <==> Look(s, i, key) == Some(v)
    ensures var count := multiset(Yielded(s, i, names))[(key, v)];
            count <= 2
            && (count == 2 <==> Look(s, i, key) == Some(v) && PlainAt(s, i, key).Some? && MutAt(s, i, key).Some?)
  {
    YieldCount(s, i, names, key);
    assert PlainName(key) in names <==> key in PlainNames(s, i);
    assert MutName(key) in names <==> key in MutNames(s, i);
  }
}
