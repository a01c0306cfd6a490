/**
 The resolver of self-referencing variables: a depth-first evaluator over the tree of variables that
 marks nodes as visited, stores their values, and collapses maps and lists whose items all have values.
 */
module VariableResolver {
  import opened Options
  import opened Expressions
  import opened VariableTree
  import opened Denotation
  import opened References

  /** `Panic` is the evaluation of the root node, which has no expression. */
  datatype Outcome = Done | Circular | Failed | Panic

  /** The number of calls that traversing an expression makes for items that are neither map nor list. */
  function LeafCount(e: Expr): nat {
    if IsCompound(e) then LeafCountAll(e.items) else 1
  }

  function LeafCountAll(es: seq<Expr>): nat {
    if es == [] then 0 else LeafCount(es[0]) + LeafCountAll(es[1..])
  }

  lemma {:induction false} SelfRefHasLeaf(e: Expr)
    requires SelfRefs(e) != []
    ensures LeafCount(e) > 0
  {
    if IsCompound(e) {
      SelfRefHasLeafAll(e.items);
    }
  }

  lemma {:induction false} SelfRefHasLeafAll(es: seq<Expr>)
    requires AllSelfRefs(es) != []
    ensures LeafCountAll(es) > 0
  {
    if SelfRefs(es[0]) != [] {
      SelfRefHasLeaf(es[0]);
    } else {
      SelfRefHasLeafAll(es[1..]);
    }
  }

  // ---------- The tree that registering definitions builds ----------

  /** The node of a definition, with children below maps and lists that contain references. */
  function Build(e: Expr): Tree
    requires WellFormed(e)
    decreases e, 1
  {
    BuildFirst(e, ChildCount(e))
  }

  function ChildCount(e: Expr): nat {
    if IsCompound(e) && SelfRefs(e) != [] then |e.items| else 0
  }

  /** The node with only its first `n` children. */
  function BuildFirst(e: Expr, n: nat): Tree
    requires WellFormed(e) && (n > 0 ==> IsCompound(e) && n <= |e.items|)
    decreases e, 0
  {
    Tree(Some(e), None, false, SizeOf(e), seq(n, i requires 0 <= i < n => Kid(Keys(e)[i], Build(e.items[i]))))
  }

  ghost predicate Fresh(t: Tree) {
    t.resolved.None? && !t.visited && forall i | 0 <= i < |t.kids| :: Fresh(t.kids[i].value)
  }

  lemma {:induction false} BuildShaped(e: Expr)
    requires WellFormed(e)
    ensures Shaped(Build(e)) && Fresh(Build(e))
  {
    var n := ChildCount(e);
    var t := BuildFirst(e, n);
    if IsCompound(e) {
      KeysWellFormed(e);
    }
    assert |t.kids| == n && forall i | 0 <= i < n :: t.kids[i] == Kid(Keys(e)[i], Build(e.items[i]));
    forall i | 0 <= i < |t.kids| ensures t.kids[i].value.expr == Some(e.items[i]) {
      assert t.kids[i].value == Build(e.items[i]) == BuildFirst(e.items[i], ChildCount(e.items[i]));
    }
    forall i | 0 <= i < |t.kids| ensures Shaped(t.kids[i].value) && Fresh(t.kids[i].value) {
      BuildShaped(e.items[i]);
    }
  }

  lemma {:induction false} FreshSound(c: Context, t0: Tree, t: Tree)
    requires Fresh(t)
    ensures Sound(c, t0, t, t)
  {
    forall i | 0 <= i < |t.kids| ensures Sound(c, t0, t.kids[i].value, t.kids[i].value) {
      FreshSound(c, t0, t.kids[i].value);
    }
  }

  lemma {:induction false} FreshNotBusy(t: Tree, q: Path)
    requires Fresh(t)
    ensures !Busy(t, q)
    decreases |q|
  {
    if q != [] && FindKid(t.kids, q[0]) < |t.kids| {
      FreshNotBusy(t.kids[FindKid(t.kids, q[0])].value, q[1..]);
    }
  }

  /** Registering the next item below a map or list adds its node as the next child. */
  lemma AddStep(t: Tree, path: Path, e: Expr, i: nat)
    requires WellFormed(e) && IsCompound(e) && i < |e.items| && |Keys(e)| == |e.items|
    ensures
      var w := Write(t, path, BuildFirst(e, i));
      var p := path + [Keys(e)[i]];
      !Has(w, p) && Write(w, p, Build(e.items[i])) == Write(t, path, BuildFirst(e, i + 1))
  {
    KeysWellFormed(e);
    var key := Keys(e)[i];
    var node := BuildFirst(e, i);
    WriteHas(t, path, node);
    HasBelow(Write(t, path, node), path, [key]);
    assert FindKid(node.kids, key) == i by {
      assert forall k | 0 <= k < i :: node.kids[k].key == Keys(e)[k] != key;
    }
    WriteBelow(t, path, node, [key], Build(e.items[i]));
    assert Write(node, [key], Build(e.items[i])).kids == BuildFirst(e, i + 1).kids;
  }

  // ---------- What resolution keeps ----------

  /** `t` is a sound later form of the definitions `t0`, in which only nodes on the call stack are unfinished. */
  ghost predicate Consistent(c: Context, t0: Tree, t: Tree, stack: seq<Path>) {
    && Shaped(t0) && t0.expr.None?
    && Evolves(t0, t)
    && Sound(c, t0, t0, t)
    && forall q :: Busy(t, q) ==> q in stack
  }

  /** The stack is a walk in the reference graph, and `path` is a reference of its last definition. */
  ghost predicate LeadsTo(t0: Tree, stack: seq<Path>, path: Path) {
    && Walk(t0, stack)
    && (forall q | q in stack :: Has(t0, q) && At(t0, q).expr.Some?)
    && (if stack == [] then Closest(t0, path).1.expr.Some?
        else path in SelfRefs(At(t0, stack[|stack| - 1]).expr.value))
  }

  /** Each outcome other than success names a defect of the definitions. */
  ghost predicate Explained(c: Context, t0: Tree, r: Outcome) {
    match r
    case Done => true
    case Circular => Cyclic(t0)
    case Failed => exists q :: Stuck(c, t0, q)
    case Panic => HasUndefinedRef(t0)
  }

  /** Looking up an unfinished node finds the node the definitions have there. */
  lemma UnresolvedTarget(c: Context, t0: Tree, t: Tree, stack: seq<Path>, path: Path)
    requires Consistent(c, t0, t, stack) && Closest(t, path).1.resolved.None?
    ensures Target(t, path) == Target(t0, path)
    ensures Has(t, Target(t, path)) && At(t, Target(t, path)) == Closest(t, path).1
    ensures Has(t0, Target(t, path)) && At(t0, Target(t, path)) == Closest(t0, path).1
    ensures At(t0, Target(t, path)).expr == Closest(t, path).1.expr
  {
    EvolvesClosest(t0, t, path);
    TargetIsClosest(t, path);
    TargetIsClosest(t0, path);
  }

  /** Meeting an unfinished node again closes a cycle of references. */
  lemma ClosesCycle(c: Context, t0: Tree, t: Tree, stack: seq<Path>, path: Path)
    requires Consistent(c, t0, t, stack) && LeadsTo(t0, stack, path)
    requires Closest(t, path).1.resolved.None? && Closest(t, path).1.visited
    ensures Cyclic(t0)
  {
    UnresolvedTarget(c, t0, t, stack, path);
    var q := Target(t, path);
    assert Busy(t, q);
    var i :| 0 <= i < |stack| && stack[i] == q;
    CycleOnStack(t0, stack, i, q);
  }

  lemma CycleOnStack(t0: Tree, stack: seq<Path>, i: nat, q: Path)
    requires Walk(t0, stack) && i < |stack| && stack[i] == q && Edge(t0, stack[|stack| - 1], q)
    ensures Cyclic(t0)
  {
    hide Edge;
    var s := stack[i..] + [q];
    forall j | 0 <= j < |s| - 1 ensures Edge(t0, s[j], s[j + 1]) {
      if j < |s| - 2 {
        assert Edge(t0, stack[i + j], stack[i + j + 1]);
      }
    }
    assert Walk(t0, s);
  }

  lemma WalkExtends(t0: Tree, stack: seq<Path>, path: Path)
    requires LeadsTo(t0, stack, path) && Closest(t0, path).1.expr.Some?
    ensures Walk(t0, stack + [Target(t0, path)])
  {
    var s := stack + [Target(t0, path)];
    forall j | 0 <= j < |s| - 1 ensures Edge(t0, s[j], s[j + 1]) {
      if j < |stack| - 1 {
        assert Edge(t0, stack[j], stack[j + 1]);
      }
    }
  }

  /** Marking a node as visited and collapsing what can be collapsed below it. */
  lemma Enter(c: Context, t0: Tree, t: Tree, stack: seq<Path>, q: Path)
    requires Consistent(c, t0, t, stack) && Has(t, q)
    requires !At(t, q).visited && At(t, q).expr.Some?
    ensures
      var t1 := Write(t, q, At(t, q).(visited := true));
      && Has(t1, q)
      && var t2 := Write(t1, q, Optimize(At(t1, q)));
      && Consistent(c, t0, t2, stack + [q])
      && Evolves(t, t2) && Unvisited(t2) < Unvisited(t) && Has(t2, q)
  {
    var v := At(t, q);
    var w := v.(visited := true);
    EvolvesReflexive(v);
    assert Evolves(v, w);
    var t1 := Write(t, q, w);
    WriteEvolves(t, q, w);
    WriteUnvisited(t, q, w);
    var t2 := Write(t1, q, Optimize(w));
    OptimizeEvolves(w);
    WriteEvolves(t1, q, Optimize(w));
    WriteUnvisited(t1, q, Optimize(w));
    EvolvesTransitive(t, t1, t2);
    EvolvesTransitive(t0, t, t2);
    EvolvesTransitive(t0, t, t1);
    EnterSound(c, t0, t, q);
    forall r | Busy(t2, r) ensures r in stack + [q] {
      WriteBusy(t1, q, Optimize(w), r);
      if q <= r {
        OptimizeBusy(w, r[|q|..]);
        assert r == q + r[|q|..];
        if r != q {
          BusyBelow(t, q, r[|q|..]);
          assert Busy(v, r[|q|..]);
        }
      } else {
        WriteBusy(t, q, w, r);
      }
    }
  }

  lemma EnterSound(c: Context, t0: Tree, t: Tree, q: Path)
    requires Shaped(t0) && Evolves(t0, t) && Sound(c, t0, t0, t) && Has(t, q) && At(t, q).expr.Some?
    ensures
      var w := At(t, q).(visited := true);
      var t1 := Write(t, q, w);
      Has(t1, q) && At(t1, q) == w && Sound(c, t0, t0, Write(t1, q, Optimize(w)))
  {
    var v := At(t, q);
    var w := v.(visited := true);
    SoundClosest(c, t0, t0, t, q);
    ShapedClosest(t0, q);
    var a := At(t0, q);
    assert Sound(c, t0, a, w);
    assert Evolves(a, w);
    EvolvesReflexive(v);
    assert Evolves(v, w);
    var t1 := Write(t, q, w);
    WriteSound(c, t0, t0, t, q, w);
    WriteEvolves(t, q, w);
    EvolvesTransitive(t0, t, t1);
    OptimizeSound(c, t0, a, w);
    WriteSound(c, t0, t0, t1, q, Optimize(w));
  }

  /** Storing the meaning of a definition as its value. */
  lemma Settle(c: Context, t0: Tree, t: Tree, stack: seq<Path>, q: Path, v: Value)
    requires Consistent(c, t0, t, stack) && Has(t, q) && Has(t0, q) && HasDen(c, t0, At(t0, q), v)
    ensures
      var t1 := Write(t, q, At(t, q).(resolved := Some(v)));
      && Consistent(c, t0, t1, stack)
      && Evolves(t, t1) && Unvisited(t1) == Unvisited(t)
      && Has(t1, q) && At(t1, q).resolved == Some(v)
  {
    var w := At(t, q).(resolved := Some(v));
    var t1 := Write(t, q, w);
    EvolvesReflexive(At(t, q));
    assert Evolves(At(t, q), w);
    WriteEvolves(t, q, w);
    WriteUnvisited(t, q, w);
    EvolvesTransitive(t0, t, t1);
    SoundClosest(c, t0, t0, t, q);
    assert Sound(c, t0, At(t0, q), w);
    WriteSound(c, t0, t0, t, q, w);
    forall r | Busy(t1, r) ensures r in stack {
      WriteBusy(t, q, w, r);
      if q <= r {
        BusyBelow(t, q, r[|q|..]);
        assert r == q + r[|q|..];
        assert Busy(At(t, q), r[|q|..]);
      }
    }
  }

  /** The node at `q` is the one being resolved. */
  ghost predicate IsOnTop(t0: Tree, stack: seq<Path>, q: Path) {
    && stack != [] && stack[|stack| - 1] == q
    && Walk(t0, stack)
    && forall p | p in stack :: Has(t0, p) && At(t0, p).expr.Some?
  }

  /** The root never gets a value, so it keeps its children. */
  lemma RootKeeps(c: Context, t0: Tree, t: Tree)
    requires Consistent(c, t0, t, [])
    ensures t.resolved.None? && SameKids(t0, t) && KidKeys(t) == KidKeys(t0)
  {
    assert forall v :: !HasDen(c, t0, t0, v);
    assert SameKids(t0, t);
  }

  lemma RootLookup(t0: Tree, i: nat)
    requires Shaped(t0) && t0.expr.None? && i < |t0.kids|
    ensures FindKid(t0.kids, t0.kids[i].key) == i
    ensures Closest(t0, [t0.kids[i].key]) == (0, t0.kids[i].value) && t0.kids[i].value.expr.Some?
  {
    assert KidKeys(t0)[i] == t0.kids[i].key;
    assert forall j | 0 <= j < i :: KidKeys(t0)[j] == t0.kids[j].key != t0.kids[i].key;
  }

  ghost predicate ResolvedOrGone(t: Tree, q: Path) {
    Has(t, q) ==> At(t, q).resolved.Some?
  }

  /** Leaving a finished node: it is no longer on the stack, and its reference now finds a value. */
  lemma Leave(c: Context, t0: Tree, t: Tree, u: Tree, stack: seq<Path>, path: Path)
    requires Closest(t, path).1.resolved.None? && Evolves(t, u)
    requires Consistent(c, t0, u, stack + [Target(t, path)]) && ResolvedOrGone(u, Target(t, path))
    ensures Consistent(c, t0, u, stack) && Closest(u, path).1.resolved.Some?
  {
    hide Shaped, Evolves, Sound;
    EvolvesClosest(t, u, path);
    TargetIsClosest(u, path);
  }

  class Resolver {
    var variables: Tree

    constructor ()
      ensures variables == BLANK
    {
      variables := BLANK;
    }

    /** Register the definition `e` under a path that has none. */
    method Add(path: Path, e: Expr)
      requires WellFormed(e) && !Has(variables, path)
      modifies this
      ensures variables == Write(old(variables), path, Build(e))
      decreases e
    {
      variables := Write(variables, path, AtOrBlank(variables, path).(expr := Some(e), size := SizeOf(e)));
      WriteHas(old(variables), path, BuildFirst(e, 0));
      assert BuildFirst(e, 0).kids == [];
      if IsCompound(e) && HasSelfReference(AtOrBlank(variables, path)) {
        for i := 0 to |e.items|
          invariant variables == Write(old(variables), path, BuildFirst(e, i))
        {
          AddStep(old(variables), path, e, i);
          Add(path + [Keys(e)[i]], e.items[i]);
        }
      }
    }

    /** Make sure that the variable closest to `path` has a value. */
    method ResolveSingle(c: Context, path: Path, ghost t0: Tree, ghost stack: seq<Path>) returns (r: Outcome)
      requires Consistent(c, t0, variables, stack) && LeadsTo(t0, stack, path)
      modifies this
      ensures r.Done? ==>
                && Consistent(c, t0, variables, stack)
                && Evolves(old(variables), variables)
                && Unvisited(variables) <= old(Unvisited(variables))
                && Closest(variables, path).1.resolved.Some?
      ensures Explained(c, t0, r)
      decreases Unvisited(variables), 0
    {
      var (n, v) := Closest(variables, path);
      var q := path[..|path| - n];
      if v.resolved.Some? {
        EvolvesReflexive(variables);
        return Done;
      }
      if v.visited {
        ClosesCycle(c, t0, variables, stack, path);
        return Circular;
      }
      UnresolvedTarget(c, t0, variables, stack, path);
      ghost var before := variables;
      if v.expr.None? {
        assert stack != [] && DanglingAt(t0, stack[|stack| - 1], path);
      } else {
        Enter(c, t0, variables, stack, q);
        WalkExtends(t0, stack, path);
      }
      variables := Write(variables, q, v.(visited := true));
      variables := Write(variables, q, Optimize(AtOrBlank(variables, q)));
      ghost var entered := variables;
      if !HasSelfReference(v) {
        r := ResolveWithoutSelfReference(c, q, v.expr, t0, stack + [q]);
      } else {
        r := ResolveWithSelfReference(c, q, v.expr.value, t0, stack + [q]);
      }
      if r.Done? {
        EvolvesTransitive(before, entered, variables);
        Leave(c, t0, before, variables, stack, path);
      }
    }

    /** Evaluate a definition that refers to no other variable. */
    method ResolveWithoutSelfReference(c: Context, q: Path, expr: Option<Expr>, ghost t0: Tree, ghost stack: seq<Path>)
      returns (r: Outcome)
      requires expr.None? ==> HasUndefinedRef(t0)
      requires expr.Some? ==>
                 && Consistent(c, t0, variables, stack)
                 && Has(variables, q) && Has(t0, q) && At(t0, q).expr == expr && SelfRefs(expr.value) == []
      modifies this
      ensures r.Done? ==>
                && expr.Some?
                && Consistent(c, t0, variables, stack)
                && Evolves(old(variables), variables)
                && Unvisited(variables) <= old(Unvisited(variables))
                && ResolvedOrGone(variables, q)
      ensures Explained(c, t0, r)
    {
      match expr
      case None => return Panic;
      case Some(e) =>
        var value := Eval(c, e, EnvLook(Nil));
        EvalCongruent(c, e, EnvLook(Nil), Look(c, t0, 1));
        match value {
          case None =>
            assert StuckWith(c, t0, e, 0);
            assert Stuck(c, t0, q);
            return Failed;
          case Some(v) =>
            assert Den(c, t0, At(t0, q), 1) == Some(v);
            Settle(c, t0, variables, stack, q, v);
            variables := Write(variables, q, At(variables, q).(resolved := Some(v)));
            return Done;
        }
    }

    /**
     Evaluate a definition that refers to other variables. The traversal evaluates the whole
     definition once for every item inside it that is neither a map nor a list.
     */
    method ResolveWithSelfReference(c: Context, q: Path, e: Expr, ghost t0: Tree, ghost stack: seq<Path>)
      returns (r: Outcome)
      requires Consistent(c, t0, variables, stack)
      requires Has(t0, q) && At(t0, q).expr == Some(e) && SelfRefs(e) != []
      requires IsOnTop(t0, stack, q)
      modifies this
      ensures r.Done? ==>
                && Consistent(c, t0, variables, stack)
                && Evolves(old(variables), variables)
                && Unvisited(variables) <= old(Unvisited(variables))
                && ResolvedOrGone(variables, q)
      ensures Explained(c, t0, r)
      decreases Unvisited(variables), 2
    {
      SelfRefHasLeaf(e);
      EvolvesReflexive(variables);
      for i := 0 to LeafCount(e)
        invariant Consistent(c, t0, variables, stack)
        invariant Evolves(old(variables), variables)
        invariant Unvisited(variables) <= old(Unvisited(variables))
        invariant i > 0 ==> ResolvedOrGone(variables, q)
      {
        ghost var before := variables;
        r := ResolveLeaf(c, q, e, t0, stack);
        if !r.Done? {
          return;
        }
        EvolvesTransitive(old(variables), before, variables);
      }
      return Done;
    }

    /** One call of the traversal: resolve all references, then evaluate with only those in scope. */
    method ResolveLeaf(c: Context, q: Path, e: Expr, ghost t0: Tree, ghost stack: seq<Path>) returns (r: Outcome)
      requires Consistent(c, t0, variables, stack)
      requires Has(t0, q) && At(t0, q).expr == Some(e)
      requires IsOnTop(t0, stack, q)
      modifies this
      ensures r.Done? ==>
                && Consistent(c, t0, variables, stack)
                && Evolves(old(variables), variables)
                && Unvisited(variables) <= old(Unvisited(variables))
                && ResolvedOrGone(variables, q)
      ensures Explained(c, t0, r)
      decreases Unvisited(variables), 1
    {
      var refs := SelfRefs(e);
      EvolvesReflexive(variables);
      for i := 0 to |refs|
        invariant Consistent(c, t0, variables, stack)
        invariant Evolves(old(variables), variables)
        invariant Unvisited(variables) <= old(Unvisited(variables))
        invariant forall j | 0 <= j < i :: Closest(variables, refs[j]).1.resolved.Some?
      {
        ghost var before := variables;
        r := ResolveSingle(c, refs[i], t0, stack);
        if !r.Done? {
          return;
        }
        EvolvesTransitive(old(variables), before, variables);
        forall j | 0 <= j < i ensures Closest(variables, refs[j]).1.resolved.Some? {
          EvolvesClosest(before, variables, refs[j]);
        }
      }
      var filtered := Filter(refs);
      var value := Eval(c, e, EnvLook(ToValue(filtered)));
      ghost var g := EnvironmentMeans(c, t0, variables, filtered, e);
      match value {
        case None =>
          assert StuckWith(c, t0, e, g);
          assert Stuck(c, t0, q);
          return Failed;
        case Some(v) =>
          assert Den(c, t0, At(t0, q), g + 1) == Some(v);
          // A node that disappeared in a collapsed map or list is out of reach of any later lookup.
          if Has(variables, q) {
            Settle(c, t0, variables, stack, q, v);
            EvolvesTransitive(old(variables), variables, Write(variables, q, At(variables, q).(resolved := Some(v))));
            variables := Write(variables, q, At(variables, q).(resolved := Some(v)));
          }
          return Done;
      }
    }

    /** The tree that holds only the referenced variables. */
    method Filter(refs: seq<Path>) returns (filtered: Tree)
      requires forall j | 0 <= j < |refs| :: Closest(variables, refs[j]).1.resolved.Some?
      ensures Mirrors(filtered, variables)
      ensures forall p | p in refs :: Reaches(filtered, p)
    {
      filtered := BLANK;
      for i := 0 to |refs|
        invariant Mirrors(filtered, variables)
        invariant forall j | 0 <= j < i :: Reaches(filtered, refs[j])
      {
        var (n, v) := Closest(variables, refs[i]);
        var q := refs[i][..|refs[i]| - n];
        var node := AtOrBlank(filtered, q).(expr := v.expr, resolved := v.resolved, kids := v.kids);
        TargetIsClosest(variables, refs[i]);
        WriteMirrors(filtered, variables, q, node);
        WriteIsReached(filtered, q, node, refs[i]);
        forall j | 0 <= j < i ensures Reaches(Write(filtered, q, node), refs[j]) {
          WriteReaches(filtered, q, node, refs[j]);
        }
        filtered := Write(filtered, q, node);
      }
    }

    /** Resolve every top-level variable, in order, stopping at the first that cannot be resolved. */
    method ResolveAll(c: Context, ghost t0: Tree) returns (r: Outcome)
      requires Consistent(c, t0, variables, [])
      modifies this
      ensures r.Done? ==>
                && Consistent(c, t0, variables, [])
                && |variables.kids| == |t0.kids|
                && forall i | 0 <= i < |variables.kids| ::
                     && variables.kids[i].key == t0.kids[i].key
                     && variables.kids[i].value.resolved.Some?
      ensures Explained(c, t0, r)
    {
      var keys := KidKeys(variables);
      RootKeeps(c, t0, variables);
      for i := 0 to |keys|
        invariant Consistent(c, t0, variables, [])
        invariant KidKeys(variables) == keys == KidKeys(t0)
        invariant forall j | 0 <= j < i :: Closest(variables, [keys[j]]).1.resolved.Some?
      {
        RootLookup(t0, i);
        ghost var before := variables;
        r := ResolveSingle(c, [keys[i]], t0, []);
        if !r.Done? {
          return;
        }
        RootKeeps(c, t0, variables);
        forall j | 0 <= j < i ensures Closest(variables, [keys[j]]).1.resolved.Some? {
          EvolvesClosest(before, variables, [keys[j]]);
        }
      }
      assert forall i | 0 <= i < |variables.kids| :: variables.kids[i].key == KidKeys(variables)[i] == KidKeys(t0)[i];
      forall i | 0 <= i < |variables.kids|
        ensures variables.kids[i].key == t0.kids[i].key && variables.kids[i].value.resolved.Some?
      {
        assert KidKeys(variables)[i] == KidKeys(t0)[i] == keys[i];
        RootLookup(t0, i);
        FindKidByKeys(t0.kids, variables.kids, keys[i]);
        assert Closest(variables, [keys[i]]) == (0, variables.kids[i].value);
      }
      return Done;
    }
  }
}
