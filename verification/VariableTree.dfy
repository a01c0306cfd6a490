/**
 The tree of variables that the resolver works on: one node per variable, with child nodes for the
 items of map and list variables that contain references.
 */
module VariableTree {
  import opened Options
  import opened Expressions

  datatype Tree = Tree(
    expr: Option<Expr>,
    resolved: Option<Value>,
    visited: bool,
    size: int,
    kids: seq<Kid>
  )

  datatype Kid = Kid(key: Key, value: Tree)

  const BLANK := Tree(None, None, false, 0, [])

  /** The position of the first child with the given key, or the number of children. */
  function FindKid(kids: seq<Kid>, key: Key): (i: nat)
    ensures i <= |kids|
    ensures i < |kids| ==> kids[i].key == key
    ensures forall j | 0 <= j < i :: kids[j].key != key
  {
    if kids == [] || kids[0].key == key then 0 else 1 + FindKid(kids[1..], key)
  }

  /** The defined node with the longest common prefix, and how many keys of the path are left over. */
  function Closest(t: Tree, path: Path): (r: (nat, Tree))
    ensures r.0 <= |path|
  {
    if path == [] then (0, t)
    else
      var i := FindKid(t.kids, path[0]);
      if i < |t.kids| then Closest(t.kids[i].value, path[1..]) else (|path|, t)
  }

  predicate Has(t: Tree, path: Path) {
    Closest(t, path).0 == 0
  }

  function At(t: Tree, path: Path): Tree
    requires Has(t, path)
  {
    Closest(t, path).1
  }

  /** The position of the node that `Closest` finds. */
  function Target(t: Tree, path: Path): Path {
    path[..|path| - Closest(t, path).0]
  }

  /** What is left of the path at the node that `Closest` finds. */
  function Rest(t: Tree, path: Path): Path {
    path[|path| - Closest(t, path).0..]
  }

  lemma RestStep(t: Tree, path: Path)
    ensures Target(t, path) + Rest(t, path) == path
    ensures path != [] && FindKid(t.kids, path[0]) < |t.kids| ==>
              Rest(t, path) == Rest(t.kids[FindKid(t.kids, path[0])].value, path[1..])
    ensures path == [] || FindKid(t.kids, path[0]) == |t.kids| ==> Rest(t, path) == path
  {
  }

  lemma {:induction false} TargetIsClosest(t: Tree, path: Path)
    ensures Has(t, Target(t, path)) && At(t, Target(t, path)) == Closest(t, path).1
  {
    if path != [] {
      var i := FindKid(t.kids, path[0]);
      if i < |t.kids| {
        TargetIsClosest(t.kids[i].value, path[1..]);
        assert Target(t, path) == [path[0]] + Target(t.kids[i].value, path[1..]);
      } else {
        assert Target(t, path) == [];
      }
    }
  }

  /** The tree with `node` stored at `path`; nodes missing on the way are created blank. */
  function Write(t: Tree, path: Path, node: Tree): Tree
    decreases |path|
  {
    if path == [] then node
    else
      var i := FindKid(t.kids, path[0]);
      if i < |t.kids| then
        t.(kids := t.kids[i := Kid(path[0], Write(t.kids[i].value, path[1..], node))])
      else
        t.(kids := t.kids + [Kid(path[0], Write(BLANK, path[1..], node))])
  }

  /** The node at `path`, or the blank node that would be created there. */
  function AtOrBlank(t: Tree, path: Path): Tree {
    if Has(t, path) then At(t, path) else BLANK
  }

  predicate HasSelfReference(t: Tree) {
    t.expr.Some? && SelfRefs(t.expr.value) != []
  }

  function SizeOf(e: Expr): int {
    if IsCompound(e) then |e.items| else -1
  }

  /** The value of a node: its resolved value if there is one, else the values of its children. */
  function ToValue(t: Tree): Value
    decreases t, 1
  {
    if t.resolved.Some? then t.resolved.value
    else if t.expr.None? && t.kids == [] then Nil
    else if t.expr.Some? && t.expr.value.ListE? then Tuple(KidValues(t))
    else if t.expr.Some? && !t.expr.value.MapE? then Nil
    else Object(ObjectOf(KidKeys(t), KidValues(t)))
  }

  function KidValues(t: Tree): seq<Value>
    decreases t, 0
  {
    seq(|t.kids|, i requires 0 <= i < |t.kids| => ToValue(t.kids[i].value))
  }

  function KidKeys(t: Tree): seq<Key> {
    seq(|t.kids|, i requires 0 <= i < |t.kids| => t.kids[i].key)
  }

  /** Collapse every map or list below `t`, and `t` itself, whose children are all resolved. */
  function Optimize(t: Tree): Tree
    decreases t, 1
  {
    if t.resolved.Some? || (t.expr.None? && t.kids == []) then t
    else
      var swept := t.(kids := OptimizeKids(t));
      if t.size == |swept.kids| && forall k | k in swept.kids :: k.value.resolved.Some? then
        swept.(resolved := Some(ToValue(swept)), kids := [])
      else swept
  }

  function OptimizeKids(t: Tree): seq<Kid>
    decreases t, 0
  {
    seq(|t.kids|, i requires 0 <= i < |t.kids| => Kid(t.kids[i].key, Optimize(t.kids[i].value)))
  }

  function Unvisited(t: Tree): nat {
    (if t.visited then 0 else 1) + UnvisitedKids(t.kids)
  }

  function UnvisitedKids(kids: seq<Kid>): nat {
    if kids == [] then 0
    else
      assert kids[0].value < kids[0];
      Unvisited(kids[0].value) + UnvisitedKids(kids[1..])
  }

  /** A node that has been entered but has no value yet. */
  predicate Busy(t: Tree, path: Path) {
    Has(t, path) && At(t, path).visited && At(t, path).resolved.None?
  }

  /**
   `b` is a later form of `a`: definitions are unchanged, values once set stay set, and children
   disappear only below a node that has a value.
   */
  ghost predicate Evolves(a: Tree, b: Tree)
    decreases a, 1
  {
    && a.expr == b.expr
    && a.size == b.size
    && (a.resolved.Some? ==> b.resolved.Some?)
    && (SameKids(a, b) || (b.resolved.Some? && b.kids == []))
  }

  ghost predicate SameKids(a: Tree, b: Tree)
    decreases a, 0
  {
    && |a.kids| == |b.kids|
    && forall i | 0 <= i < |a.kids| :: a.kids[i].key == b.kids[i].key && Evolves(a.kids[i].value, b.kids[i].value)
  }

  lemma {:induction false} EvolvesReflexive(a: Tree)
    ensures Evolves(a, a)
  {
    forall i | 0 <= i < |a.kids| ensures Evolves(a.kids[i].value, a.kids[i].value) {
      EvolvesReflexive(a.kids[i].value);
    }
    assert SameKids(a, a);
  }

  lemma {:induction false} EvolvesTransitive(a: Tree, b: Tree, c: Tree)
    requires Evolves(a, b) && Evolves(b, c)
    ensures Evolves(a, c)
  {
    if SameKids(a, b) && SameKids(b, c) {
      forall i | 0 <= i < |a.kids| ensures Evolves(a.kids[i].value, c.kids[i].value) {
        EvolvesTransitive(a.kids[i].value, b.kids[i].value, c.kids[i].value);
      }
      assert SameKids(a, c);
    }
  }

  /** Equal keys are found at equal positions. */
  lemma {:induction false} FindKidByKeys(ks: seq<Kid>, ls: seq<Kid>, key: Key)
    requires |ks| == |ls| && forall i | 0 <= i < |ks| :: ks[i].key == ls[i].key
    ensures FindKid(ks, key) == FindKid(ls, key)
  {
    if ks != [] {
      assert ks[0].key == ls[0].key;
      FindKidByKeys(ks[1..], ls[1..], key);
    }
  }

  lemma {:induction false} FindKidAppend(kids: seq<Kid>, k: Kid, key: Key)
    ensures FindKid(kids, key) < |kids| ==> FindKid(kids + [k], key) == FindKid(kids, key)
    ensures FindKid(kids, key) == |kids| && k.key == key ==> FindKid(kids + [k], key) == |kids|
  {
    if kids != [] {
      FindKidAppend(kids[1..], k, key);
      assert (kids + [k])[1..] == kids[1..] + [k];
    }
  }

  /**
   A lookup in a later tree ends at the same node, or earlier at a node that has a value. Hence what
   has been looked up with a value keeps having one.
   */
  lemma {:induction false} EvolvesClosest(a: Tree, b: Tree, path: Path)
    requires Evolves(a, b)
    ensures
      var (m, s), (n, t) := Closest(a, path), Closest(b, path);
      (m == n && Evolves(s, t)) || (m <= n && t.resolved.Some?)
    ensures Closest(a, path).1.resolved.Some? ==> Closest(b, path).1.resolved.Some?
  {
    if path != [] {
      if SameKids(a, b) {
        FindKidByKeys(a.kids, b.kids, path[0]);
        var i := FindKid(a.kids, path[0]);
        if i < |a.kids| {
          EvolvesClosest(a.kids[i].value, b.kids[i].value, path[1..]);
        }
      } else {
        assert Closest(b, path) == (|path|, b);
      }
    }
  }

  lemma {:induction false} WriteEvolves(t: Tree, q: Path, s: Tree)
    requires Has(t, q) && Evolves(At(t, q), s)
    ensures Evolves(t, Write(t, q, s))
    ensures Has(Write(t, q, s), q) && At(Write(t, q, s), q) == s
    decreases |q|
  {
    if q != [] {
      var i := FindKid(t.kids, q[0]);
      WriteEvolves(t.kids[i].value, q[1..], s);
      var w := Write(t, q, s);
      FindKidByKeys(t.kids, w.kids, q[0]);
      forall j | 0 <= j < |t.kids| ensures Evolves(t.kids[j].value, w.kids[j].value) {
        EvolvesReflexive(t.kids[j].value);
      }
      assert SameKids(t, w);
    }
  }

  lemma {:induction false} UnvisitedUpdate(kids: seq<Kid>, i: nat, k: Kid)
    requires i < |kids|
    ensures UnvisitedKids(kids[i := k]) == UnvisitedKids(kids) - Unvisited(kids[i].value) + Unvisited(k.value)
  {
    if i == 0 {
      assert kids[0 := k][1..] == kids[1..];
    } else {
      UnvisitedUpdate(kids[1..], i - 1, k);
      assert kids[i := k][1..] == kids[1..][i - 1 := k];
    }
  }

  lemma {:induction false} WriteUnvisited(t: Tree, q: Path, s: Tree)
    requires Has(t, q)
    ensures Unvisited(Write(t, q, s)) == Unvisited(t) - Unvisited(At(t, q)) + Unvisited(s)
    decreases |q|
  {
    if q != [] {
      var i := FindKid(t.kids, q[0]);
      WriteUnvisited(t.kids[i].value, q[1..], s);
      UnvisitedUpdate(t.kids, i, Kid(q[0], Write(t.kids[i].value, q[1..], s)));
    }
  }

  /** A node busy after a write is below the written position, or was busy before. */
  lemma {:induction false} WriteBusy(t: Tree, q: Path, s: Tree, r: Path)
    requires Has(t, q) && Busy(Write(t, q, s), r)
    ensures if q <= r then Busy(s, r[|q|..]) else Busy(t, r)
    decreases |q|
  {
    if q != [] && r != [] {
      var i := FindKid(t.kids, q[0]);
      var w := Write(t, q, s);
      FindKidByKeys(t.kids, w.kids, r[0]);
      if r[0] == q[0] {
        WriteBusy(t.kids[i].value, q[1..], s, r[1..]);
        assert q <= r <==> q[1..] <= r[1..];
        if q <= r {
          assert r[1..][|q[1..]|..] == r[|q|..];
        }
      }
    }
  }

  lemma {:induction false} BusyBelow(t: Tree, q: Path, x: Path)
    requires Has(t, q)
    ensures Busy(t, q + x) == Busy(At(t, q), x)
  {
    if q == [] {
      assert q + x == x;
    } else {
      var i := FindKid(t.kids, q[0]);
      BusyBelow(t.kids[i].value, q[1..], x);
      assert (q + x)[1..] == q[1..] + x;
    }
  }

  /** What collapsing keeps: definitions, values, the busy nodes; it visits nothing. */
  lemma {:induction false} OptimizeEvolves(t: Tree)
    ensures Evolves(t, Optimize(t)) && Unvisited(Optimize(t)) <= Unvisited(t) && Optimize(t).visited == t.visited
  {
    if t.resolved.Some? || (t.expr.None? && t.kids == []) {
      EvolvesReflexive(t);
    } else {
      var swept := t.(kids := OptimizeKids(t));
      forall i | 0 <= i < |t.kids|
        ensures Evolves(t.kids[i].value, Optimize(t.kids[i].value))
        ensures Unvisited(Optimize(t.kids[i].value)) <= Unvisited(t.kids[i].value)
      {
        OptimizeEvolves(t.kids[i].value);
      }
      UnvisitedMonotone(t.kids, swept.kids);
      assert SameKids(t, swept);
    }
  }

  lemma {:induction false} UnvisitedMonotone(ks: seq<Kid>, ls: seq<Kid>)
    requires |ks| == |ls| && forall i | 0 <= i < |ks| :: Unvisited(ls[i].value) <= Unvisited(ks[i].value)
    ensures UnvisitedKids(ls) <= UnvisitedKids(ks)
  {
    if ks != [] {
      UnvisitedMonotone(ks[1..], ls[1..]);
    }
  }

  lemma {:induction false} OptimizeBusy(t: Tree, r: Path)
    requires Busy(Optimize(t), r)
    ensures Busy(t, r)
    decreases |r|
  {
    OptimizeEvolves(t);
    if r != [] && !(t.resolved.Some? || (t.expr.None? && t.kids == [])) {
      var swept := t.(kids := OptimizeKids(t));
      if Optimize(t) == swept {
        FindKidByKeys(t.kids, swept.kids, r[0]);
        OptimizeBusy(t.kids[FindKid(t.kids, r[0])].value, r[1..]);
      }
    }
  }

  /** Writing at a position and then below it is one write. */
  lemma {:induction false} WriteBelow(t: Tree, q: Path, s: Tree, x: Path, u: Tree)
    ensures Write(Write(t, q, s), q + x, u) == Write(t, q, Write(s, x, u))
    decreases |q|
  {
    if q == [] {
      assert q + x == x;
    } else {
      var i := FindKid(t.kids, q[0]);
      var w := Write(t, q, s);
      assert (q + x)[1..] == q[1..] + x;
      if i < |t.kids| {
        WriteBelow(t.kids[i].value, q[1..], s, x, u);
        FindKidByKeys(t.kids, w.kids, q[0]);
      } else {
        WriteBelow(BLANK, q[1..], s, x, u);
        FindKidAppend(t.kids, w.kids[i], q[0]);
      }
    }
  }

  lemma {:induction false} WriteHas(t: Tree, q: Path, s: Tree)
    ensures Has(Write(t, q, s), q) && At(Write(t, q, s), q) == s
    decreases |q|
  {
    if q != [] {
      var i := FindKid(t.kids, q[0]);
      var w := Write(t, q, s);
      if i < |t.kids| {
        WriteHas(t.kids[i].value, q[1..], s);
        FindKidByKeys(t.kids, w.kids, q[0]);
      } else {
        WriteHas(BLANK, q[1..], s);
        FindKidAppend(t.kids, w.kids[i], q[0]);
      }
    }
  }

  lemma {:induction false} HasBelow(t: Tree, q: Path, x: Path)
    requires Has(t, q)
    ensures Has(t, q + x) == Has(At(t, q), x)
  {
    if q == [] {
      assert q + x == x;
    } else {
      HasBelow(t.kids[FindKid(t.kids, q[0])].value, q[1..], x);
      assert (q + x)[1..] == q[1..] + x;
    }
  }
}
