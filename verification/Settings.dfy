/** dict_merge of merge_settings.py on values: nested settings, and what overriding and removing make
    of every path in them. */
module Settings {
  import opened Options

  type Key = string

  /** What the YAML loader returns; anything but a dict is a leaf. */
  datatype Yaml = Leaf(v: string) | Dict(m: map<Key, Yaml>)

  const EMPTY := Dict(map[])

  // ----- the merge

  /** dict_merge: the target after it. */
  function Merge(t: Yaml, s: Yaml, remove: bool := false): (r: Yaml)
    requires t.Dict?
    ensures r.Dict?
    decreases s
  {
    if s.Leaf? then t
    else Dict(map k | k in t.m.Keys + s.m.Keys && !Popped(t, s, remove, k) :: MergeAt(t, s, remove, k))
  }

  /** The keys that are popped. */
  predicate Popped(t: Yaml, s: Yaml, remove: bool, k: Key)
    requires t.Dict? && s.Dict?
  {
    remove && k in s.m && k in t.m && t.m[k].Leaf?
  }

  /** What is left or put at a key. */
  function MergeAt(t: Yaml, s: Yaml, remove: bool, k: Key): Yaml
    requires t.Dict? && s.Dict? && (k in t.m || k in s.m)
    decreases s, 0
  {
    if k !in s.m then t.m[k]
    else if k in t.m && t.m[k].Dict? then Merge(t.m[k], s.m[k], remove)
    else s.m[k]
  }

  lemma {:induction false} MergeSelf(a: Yaml)
    requires a.Dict?
    ensures Merge(a, a) == a
    decreases a
  {
    forall k | k in a.m ensures MergeAt(a, a, false, k) == a.m[k] {
      if a.m[k].Dict? { MergeSelf(a.m[k]); }
    }
    assert Merge(a, a).m == a.m;
  }

  /** Two overrides one after the other are one override, by their own merge, although a dict in the
      target keeps a leaf out. */
  lemma {:induction false} MergeAssociative(t: Yaml, a: Yaml, b: Yaml)
    requires t.Dict? && a.Dict?
    ensures Merge(Merge(t, a), b) == Merge(t, Merge(a, b))
    decreases b, a
  {
    if b.Dict? {
      var ta, ab := Merge(t, a), Merge(a, b);
      forall k | k in ta.m || k in b.m ensures MergeAt(ta, b, false, k) == MergeAt(t, ab, false, k) {
        if k in b.m && k in a.m && a.m[k].Dict? && k in t.m && t.m[k].Dict? {
          MergeAssociative(t.m[k], a.m[k], b.m[k]);
        }
        AssociativeAt(t, a, b, k);
      }
      SameMerge(ta, b, t, ab);
    }
  }

  lemma SameMerge(t: Yaml, s: Yaml, t': Yaml, s': Yaml)
    requires t.Dict? && s.Dict? && t'.Dict? && s'.Dict? && t.m.Keys + s.m.Keys == t'.m.Keys + s'.m.Keys
    requires forall k :: k in t.m || k in s.m ==> MergeAt(t, s, false, k) == MergeAt(t', s', false, k)
    ensures Merge(t, s) == Merge(t', s')
  {
    assert Merge(t, s).m == Merge(t', s').m;
  }

  lemma AssociativeAt(t: Yaml, a: Yaml, b: Yaml, k: Key)
    requires t.Dict? && a.Dict? && b.Dict? && (k in t.m || k in a.m || k in b.m)
    requires k in b.m && k in a.m && a.m[k].Dict? && k in t.m && t.m[k].Dict?
             ==> Merge(Merge(t.m[k], a.m[k]), b.m[k]) == Merge(t.m[k], Merge(a.m[k], b.m[k]))
    ensures MergeAt(Merge(t, a), b, false, k) == MergeAt(t, Merge(a, b), false, k)
  {
    MergedAt(t, a, k);
    MergedAt(a, b, k);
    hide Merge;
  }

  /** An override keeps and adds keys. */
  lemma MergedAt(t: Yaml, s: Yaml, k: Key)
    requires t.Dict? && s.Dict?
    ensures k in Merge(t, s).m <==> k in t.m || k in s.m
    ensures k in t.m || k in s.m ==> Merge(t, s).m[k] == MergeAt(t, s, false, k)
  {}

  lemma MergeIdempotent(t: Yaml, a: Yaml)
    requires t.Dict?
    ensures Merge(Merge(t, a), a) == Merge(t, a)
  {
    if a.Dict? {
      MergeAssociative(t, a, a);
      MergeSelf(a);
    }
  }

  /** The loop over the override files. */
  function MergeAll(t: Yaml, overrides: seq<Yaml>): (r: Yaml)
    requires t.Dict?
    ensures r.Dict?
  {
    if overrides == [] then t else Merge(MergeAll(t, overrides[..|overrides| - 1]), overrides[|overrides| - 1])
  }

  /** Applying overrides in order, those that are not dicts among them, is applying once what they
      make of an empty target. */
  lemma {:induction false} MergeAllOnce(t: Yaml, overrides: seq<Yaml>)
    requires t.Dict?
    ensures MergeAll(t, overrides) == Merge(t, MergeAll(EMPTY, overrides))
  {
    if overrides == [] {
      assert Merge(t, EMPTY).m == t.m;
    } else {
      var n := |overrides| - 1;
      MergeAllOnce(t, overrides[..n]);
      MergeAssociative(t, MergeAll(EMPTY, overrides[..n]), overrides[n]);
    }
  }

  // ----- paths

  /** What is found along a path of keys. */
  function At(y: Yaml, path: seq<Key>): Option<Yaml> {
    if path == [] then Some(y)
    else if y.Dict? && path[0] in y.m then At(y.m[path[0]], path[1..])
    else None
  }

  /** The merge, path by path: an override wins wherever it says anything, except that a dict takes
      it in; whatever it does not name stays, and nothing else appears. */
  lemma {:induction false} MergePath(t: Yaml, s: Yaml, path: seq<Key>)
    requires t.Dict?
    ensures At(Merge(t, s), path)
         == match At(s, path)
            case None => At(t, path)
            case Some(x) => (match At(t, path)
              case Some(Dict(m)) => Some(Merge(Dict(m), x))
              case _ => Some(x))
    decreases path
  {
    if path != [] && s.Dict? && path[0] in s.m && path[0] in t.m {
      if t.m[path[0]].Dict? {
        MergePath(t.m[path[0]], s.m[path[0]], path[1..]);
      } else {
        LeafEnds(t.m[path[0]], path[1..]);
      }
    }
  }

  lemma LeafEnds(y: Yaml, path: seq<Key>)
    requires y.Leaf?
    ensures At(y, path) == if path == [] then Some(y) else None
  {}

  /** A leaf of the override takes effect exactly where the target has no dict. */
  lemma LeafTakesEffect(t: Yaml, s: Yaml, path: seq<Key>, v: string)
    requires t.Dict? && At(s, path) == Some(Leaf(v))
    ensures At(Merge(t, s), path) == Some(Leaf(v)) <==> (At(t, path).None? || At(t, path).value.Leaf?)
  {
    MergePath(t, s, path);
  }

  // ----- remove mode

  /** A leaf of the target lies on the path, below its start. */
  predicate LeafOn(t: Yaml, path: seq<Key>) {
    path != [] && t.Dict? && path[0] in t.m && (t.m[path[0]].Leaf? || LeafOn(t.m[path[0]], path[1..]))
  }

  /** Removing, path by path: what the source names is popped where a leaf of the target lies on the
      path, is descended into where the target has a dict, and is added where it has nothing. */
  lemma {:induction false} RemovePath(t: Yaml, s: Yaml, path: seq<Key>)
    requires t.Dict?
    ensures At(Merge(t, s, true), path)
         == match At(s, path)
            case None => At(t, path)
            case Some(x) => (match At(t, path)
              case Some(Dict(m)) => Some(Merge(Dict(m), x, true))
              case Some(Leaf(_)) => None
              case None => if LeafOn(t, path) then None else Some(x))
    decreases path
  {
    if path != [] && s.Dict? && path[0] in s.m && path[0] in t.m {
      if t.m[path[0]].Dict? {
        RemovePath(t.m[path[0]], s.m[path[0]], path[1..]);
      } else {
        LeafEnds(t.m[path[0]], path[1..]);
      }
    }
  }

  /** A path that is to be removed is gone afterwards exactly when a leaf of the target lies on it. */
  lemma RemovedExactly(t: Yaml, s: Yaml, path: seq<Key>)
    requires t.Dict? && path != [] && At(s, path).Some?
    ensures At(Merge(t, s, true), path).None? <==> LeafOn(t, path)
  {
    RemovePath(t, s, path);
    LeafOrNot(t, path);
  }

  lemma {:induction false} LeafOrNot(t: Yaml, path: seq<Key>)
    requires t.Dict? && path != []
    ensures At(t, path).Some? && At(t, path).value.Leaf? ==> LeafOn(t, path)
    ensures At(t, path).Some? && At(t, path).value.Dict? ==> !LeafOn(t, path)
    decreases path
  {
    if path[0] in t.m {
      if |path| == 1 {
        assert At(t.m[path[0]], path[1..]) == Some(t.m[path[0]]);
      } else if t.m[path[0]].Dict? {
        LeafOrNot(t.m[path[0]], path[1..]);
      } else {
        LeafEnds(t.m[path[0]], path[1..]);
      }
    }
  }

  /** Removing a key the target does not have adds it, and a dict is not removed by naming it. */
  lemma RemoveAdds(k: Key, v: Yaml)
    ensures Merge(EMPTY, Dict(map[k := v]), true) == Dict(map[k := v])
    ensures Merge(Dict(map[k := EMPTY]), Dict(map[k := Leaf("")]), true) == Dict(map[k := EMPTY])
  {
    assert Merge(EMPTY, Dict(map[k := v]), true).m == map[k := v];
    assert Merge(EMPTY, Leaf(""), true) == EMPTY;
    assert Merge(Dict(map[k := EMPTY]), Dict(map[k := Leaf("")]), true).m == map[k := EMPTY];
  }

  // ----- one key at a time

  /** The part of a dict under some of its keys. */
  function Part(s: Yaml, keys: set<Key>): Yaml
    requires s.Dict?
  {
    Dict(map k | k in s.m && k in keys :: s.m[k])
  }

  /** One turn of the loop of dict_merge. */
  function Turn(t: Yaml, k: Key, v: Yaml, remove: bool): (r: Yaml)
    requires t.Dict?
  {
    if k in t.m && t.m[k].Dict? then Dict(t.m[k := Merge(t.m[k], v, remove)])
    else if remove && k in t.m then Dict(t.m - {k})
    else Dict(t.m[k := v])
  }

  /** The turns over any of the source's keys, in any order, make the merge with that part of it. */
  lemma MergeStep(t: Yaml, s: Yaml, remove: bool, keys: set<Key>, k: Key)
    requires t.Dict? && s.Dict? && k in s.m && k !in keys
    ensures Merge(t, Part(s, keys + {k}), remove) == Turn(Merge(t, Part(s, keys), remove), k, s.m[k], remove)
  {
    var p, q := Part(s, keys), Part(s, keys + {k});
    var before, after := Merge(t, p, remove).m, Merge(t, q, remove).m;
    assert k in t.m ==> before[k] == MergeAt(t, p, remove, k);
    var turn := Turn(Dict(before), k, s.m[k], remove).m;
    assert after.Keys == turn.Keys;
    forall j | j in after ensures after[j] == turn[j] {
      assert after[j] == MergeAt(t, q, remove, j);
      assert j != k ==> before[j] == MergeAt(t, p, remove, j);
    }
    assert after == turn;
  }

  lemma PartEnds(s: Yaml)
    requires s.Dict?
    ensures Part(s, {}) == EMPTY && Part(s, s.m.Keys) == s
  {
    assert Part(s, {}).m == map[] && Part(s, s.m.Keys).m == s.m;
  }

  lemma PartStep(s: Yaml, keys: set<Key>, k: Key)
    requires s.Dict? && k in s.m
    ensures Part(s, keys + {k}) == Dict(Part(s, keys).m[k := s.m[k]])
  {
    assert Part(s, keys + {k}).m == Part(s, keys).m[k := s.m[k]];
  }

  lemma MergeEnds(t: Yaml, s: Yaml, remove: bool)
    requires t.Dict? && s.Dict?
    ensures Merge(t, Part(s, {}), remove) == t
    ensures Merge(t, Part(s, s.m.Keys), remove) == Merge(t, s, remove)
  {
    assert Merge(t, Part(s, {}), remove).m == t.m;
    assert Part(s, s.m.Keys).m == s.m;
  }
}
