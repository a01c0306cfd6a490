/**
 The `variables` block as a whole. Its definitions are a system of equations: the `var` object is a
 solution when each variable is the value of its definition evaluated with that very object in scope.
 Resolution finds the unique solution, or names the reason why it cannot.
 */
module Variables {
  import opened Options
  import opened Expressions
  import opened VariableTree
  import opened Denotation
  import opened References
  import opened VariableResolver

  ghost predicate ValidBlock(names: seq<string>, exprs: seq<Expr>) {
    && |names| == |exprs|
    && (forall i, j | 0 <= i < j < |names| :: names[i] != names[j])
    && forall e | e in exprs :: WellFormed(e)
  }

  /** The tree of all definitions, before anything is resolved. */
  function Definitions(names: seq<string>, exprs: seq<Expr>): Tree
    requires |names| == |exprs| && forall e | e in exprs :: WellFormed(e)
  {
    Tree(None, None, false, 0, seq(|names|, i requires 0 <= i < |names| => Kid(Name(names[i]), Build(exprs[i]))))
  }

  /** `vars` satisfies every definition as an equation. */
  ghost predicate Solves(c: Context, names: seq<string>, exprs: seq<Expr>, vars: Value)
    requires |names| == |exprs|
  {
    && vars.Object?
    && (forall s :: s in vars.fields <==> s in names)
    && forall i | 0 <= i < |names| :: Eval(c, exprs[i], EnvLook(vars)) == Some(vars.fields[names[i]])
  }

  lemma DefinitionsShaped(names: seq<string>, exprs: seq<Expr>)
    requires ValidBlock(names, exprs)
    ensures Shaped(Definitions(names, exprs)) && Fresh(Definitions(names, exprs))
    ensures forall i | 0 <= i < |names| :: Definitions(names, exprs).kids[i].value.expr == Some(exprs[i])
  {
    var t := Definitions(names, exprs);
    forall i | 0 <= i < |t.kids|
      ensures Shaped(t.kids[i].value) && Fresh(t.kids[i].value) && t.kids[i].value.expr == Some(exprs[i])
    {
      BuildShaped(exprs[i]);
      assert t.kids[i].value == Build(exprs[i]) == BuildFirst(exprs[i], ChildCount(exprs[i]));
    }
    forall i, j | 0 <= i < j < |t.kids| ensures Text(KidKeys(t)[i]) != Text(KidKeys(t)[j]) {
      assert KidKeys(t)[i] == Name(names[i]) && KidKeys(t)[j] == Name(names[j]);
    }
  }

  ghost predicate HasSomeDen(c: Context, t0: Tree, node: Tree) {
    exists f: nat :: Den(c, t0, node, f).Some?
  }

  /** Every top-level definition has a meaning. */
  ghost predicate Defined(c: Context, t0: Tree) {
    forall i | 0 <= i < |t0.kids| :: HasSomeDen(c, t0, t0.kids[i].value)
  }

  /** Then every definition inside a map or list has one too. */
  lemma DefinedBelow(c: Context, t0: Tree, q: Path) returns (f: nat)
    requires Shaped(t0) && t0.expr.None? && Defined(c, t0) && Has(t0, q) && At(t0, q).expr.Some?
    ensures Den(c, t0, At(t0, q), f).Some?
  {
    var i := FindKid(t0.kids, q[0]);
    assert HasSomeDen(c, t0, t0.kids[i].value);
    f :| Den(c, t0, t0.kids[i].value, f).Some?;
    DenClosest(c, t0, t0.kids[i].value, q[1..], f);
  }

  /** With a cycle of references, some variable has no meaning. */
  lemma CyclicIsUndefined(c: Context, t0: Tree)
    requires Shaped(t0) && t0.expr.None? && Cyclic(t0)
    ensures !Defined(c, t0)
  {
    if Defined(c, t0) {
      var s: seq<Path> :| |s| >= 2 && s[0] == s[|s| - 1] && Walk(t0, s);
      assert Edge(t0, s[0], s[1]);
      var f := DefinedBelow(c, t0, s[0]);
      CycleHasNoDen(c, t0, s, 0, f);
    }
  }

  lemma DanglingIsUndefined(c: Context, t0: Tree)
    requires Shaped(t0) && t0.expr.None? && HasUndefinedRef(t0)
    ensures !Defined(c, t0)
  {
    if Defined(c, t0) {
      var q, p :| DanglingAt(t0, q, p);
      var f := DefinedBelow(c, t0, q);
      DanglingHasNoDen(c, t0, q, p, f);
    }
  }

  /** In a solution, indexing the `var` object by the place of a definition evaluates that definition. */
  lemma SolutionBelow(c: Context, names: seq<string>, exprs: seq<Expr>, vars: Value, q: Path)
    requires ValidBlock(names, exprs) && Solves(c, names, exprs, vars)
    requires
      var t0 := Definitions(names, exprs);
      Has(t0, q) && At(t0, q).expr.Some?
    ensures
      var e := At(Definitions(names, exprs), q).expr.value;
      Eval(c, e, EnvLook(vars)).Some? && IndexPath(vars, q) == Eval(c, e, EnvLook(vars))
  {
    DefinitionsShaped(names, exprs);
    var t0 := Definitions(names, exprs);
    var i := FindKid(t0.kids, q[0]);
    assert q[0] == Name(names[i]) && Shaped(t0.kids[i].value);
    hide Eval, Shaped;
    EvalClosest(c, EnvLook(vars), t0.kids[i].value, q[1..]);
    assert Index(vars, q[0]) == Some(vars.fields[names[i]]);
  }

  /** Every solution holds the denotation of each definition at its place. */
  lemma {:induction false} SolutionHoldsDen(
    c: Context, names: seq<string>, exprs: seq<Expr>, vars: Value, q: Path, f: nat)
    requires ValidBlock(names, exprs) && Solves(c, names, exprs, vars)
    requires
      var t0 := Definitions(names, exprs);
      Has(t0, q) && Den(c, t0, At(t0, q), f).Some?
    ensures
      var t0 := Definitions(names, exprs);
      IndexPath(vars, q) == Den(c, t0, At(t0, q), f)
    decreases f, 0
  {
    var t0 := Definitions(names, exprs);
    var e := At(t0, q).expr.value;
    EvalStrict(c, e, Look(c, t0, f));
    forall p | p in SelfRefs(e) ensures EnvLook(vars)(p) == Look(c, t0, f)(p) {
      MeaningNeeds(c, t0, p, f);
      SolutionHoldsMeaning(c, names, exprs, vars, p, f - 1);
    }
    EvalCongruent(c, e, EnvLook(vars), Look(c, t0, f));
    SolutionBelow(c, names, exprs, vars, q);
  }

  lemma {:induction false} SolutionHoldsMeaning(
    c: Context, names: seq<string>, exprs: seq<Expr>, vars: Value, p: Path, f: nat)
    requires ValidBlock(names, exprs) && Solves(c, names, exprs, vars)
    requires Settled(c, Definitions(names, exprs), p, f)
    ensures IndexPath(vars, p) == Meaning(c, Definitions(names, exprs), p, f + 1)
    decreases f, 1
  {
    var t0 := Definitions(names, exprs);
    var q := Target(t0, p);
    TargetIsClosest(t0, p);
    SolutionHoldsDen(c, names, exprs, vars, q, f);
    RestStep(t0, p);
    IndexPathAppend(vars, q, Rest(t0, p));
  }

  /** A definition whose references all have meanings, and whose evaluation fails, rules out any solution. */
  lemma StuckHasNoSolution(c: Context, names: seq<string>, exprs: seq<Expr>, vars: Value, q: Path)
    requires ValidBlock(names, exprs) && Stuck(c, Definitions(names, exprs), q)
    ensures !Solves(c, names, exprs, vars)
  {
    if Solves(c, names, exprs, vars) {
      var t0 := Definitions(names, exprs);
      var e := At(t0, q).expr.value;
      var f: nat :| StuckWith(c, t0, e, f);
      forall p | p in SelfRefs(e) ensures EnvLook(vars)(p) == Look(c, t0, f + 1)(p) {
        SolutionHoldsMeaning(c, names, exprs, vars, p, f);
      }
      EvalCongruent(c, e, EnvLook(vars), Look(c, t0, f + 1));
      SolutionBelow(c, names, exprs, vars, q);
    }
  }

  /** In a solution, a variable has the value of its meaning. */
  lemma SolutionField(c: Context, names: seq<string>, exprs: seq<Expr>, vars: Value, i: nat, f: nat)
    requires ValidBlock(names, exprs) && Solves(c, names, exprs, vars) && i < |names|
    requires Den(c, Definitions(names, exprs), Definitions(names, exprs).kids[i].value, f).Some?
    ensures Some(vars.fields[names[i]]) == Den(c, Definitions(names, exprs), Definitions(names, exprs).kids[i].value, f)
  {
    hide Eval, Den;
    var t0 := Definitions(names, exprs);
    DefinitionsShaped(names, exprs);
    var q := [Name(names[i])];
    RootLookup(t0, i);
    SolutionHoldsDen(c, names, exprs, vars, q, f);
    assert Index(vars, q[0]) == Some(vars.fields[names[i]]);
    assert IndexPath(vars, q) == Some(vars.fields[names[i]]);
  }

  /** When every variable has a meaning there is at most one solution. */
  lemma SolutionUnique(c: Context, names: seq<string>, exprs: seq<Expr>, vars: Value, others: Value)
    requires ValidBlock(names, exprs) && Defined(c, Definitions(names, exprs))
    requires Solves(c, names, exprs, vars) && Solves(c, names, exprs, others)
    ensures vars == others
  {
    hide Eval, Den;
    var t0 := Definitions(names, exprs);
    forall s | s in names ensures vars.fields[s] == others.fields[s] {
      var i :| 0 <= i < |names| && names[i] == s;
      assert HasSomeDen(c, t0, t0.kids[i].value);
      var f: nat :| Den(c, t0, t0.kids[i].value, f).Some?;
      SolutionField(c, names, exprs, vars, i, f);
      SolutionField(c, names, exprs, others, i, f);
    }
    assert vars.fields.Keys == others.fields.Keys;
  }

  /** `vs` are the meanings of the top-level definitions. */
  ghost predicate AreMeanings(c: Context, t0: Tree, vs: seq<Value>) {
    |vs| == |t0.kids| && forall i | 0 <= i < |vs| :: HasDen(c, t0, t0.kids[i].value, vs[i])
  }

  lemma ObjectHoldsMeaning(c: Context, t0: Tree, vs: seq<Value>, p: Path, f: nat)
    requires Shaped(t0) && t0.expr.None? && AreMeanings(c, t0, vs) && Settled(c, t0, p, f)
    ensures IndexPath(Object(ObjectOf(KidKeys(t0), vs)), p) == Meaning(c, t0, p, f + 1)
  {
    var j := FindKid(t0.kids, p[0]);
    var g: nat :| Den(c, t0, t0.kids[j].value, g) == Some(vs[j]);
    ThroughTwoFuels(c, t0, t0.kids[j].value, p[1..], f, g);
    ThroughKid(c, t0, t0, p, f);
    ObjectOfAt(KidKeys(t0), vs, j);
    assert KidKeys(t0)[j] == p[0];
  }

  lemma ThroughTwoFuels(c: Context, t0: Tree, node: Tree, p: Path, f: nat, g: nat)
    requires Shaped(node) && Den(c, t0, node, g).Some? && Den(c, t0, Closest(node, p).1, f).Some?
    ensures Through(c, t0, node, p, f) == IndexPath(Den(c, t0, node, g).value, p)
  {
    DenClosest(c, t0, node, p, g);
    var m := if f < g then g else f;
    DenMonotone(c, t0, Closest(node, p).1, f, m);
    DenMonotone(c, t0, Closest(node, p).1, g, m);
  }

  lemma MeaningSolves(c: Context, t0: Tree, vs: seq<Value>, i: nat)
    requires Shaped(t0) && t0.expr.None? && AreMeanings(c, t0, vs) && i < |vs|
    requires t0.kids[i].value.expr.Some?
    ensures Eval(c, t0.kids[i].value.expr.value, EnvLook(Object(ObjectOf(KidKeys(t0), vs)))) == Some(vs[i])
  {
    hide Shaped, ObjectOf, Eval;
    var e := t0.kids[i].value.expr.value;
    var vars := Object(ObjectOf(KidKeys(t0), vs));
    var f: nat :| Den(c, t0, t0.kids[i].value, f) == Some(vs[i]);
    EvalStrict(c, e, Look(c, t0, f));
    forall p | p in SelfRefs(e) ensures EnvLook(vars)(p) == Look(c, t0, f)(p) {
      MeaningNeeds(c, t0, p, f);
      ObjectHoldsMeaning(c, t0, vs, p, f - 1);
    }
    EvalCongruent(c, e, EnvLook(vars), Look(c, t0, f));
  }

  /** The meanings of all variables, put together, are a solution. */
  lemma MeaningsSolve(c: Context, names: seq<string>, exprs: seq<Expr>, vs: seq<Value>)
    requires ValidBlock(names, exprs) && AreMeanings(c, Definitions(names, exprs), vs)
    ensures Solves(c, names, exprs, Object(ObjectOf(KidKeys(Definitions(names, exprs)), vs)))
  {
    var t0 := Definitions(names, exprs);
    DefinitionsShaped(names, exprs);
    var keys := KidKeys(t0);
    assert forall i | 0 <= i < |names| :: Text(keys[i]) == names[i];
    ObjectOfKeys(keys, vs);
    forall i | 0 <= i < |names|
      ensures Eval(c, exprs[i], EnvLook(Object(ObjectOf(keys, vs)))) == Some(ObjectOf(keys, vs)[names[i]])
    {
      ObjectOfAt(keys, vs, i);
      MeaningSolves(c, t0, vs, i);
    }
  }

  /** Register all definitions, resolve them, and read off the `var` object. */
  method ResolveVariables(c: Context, names: seq<string>, exprs: seq<Expr>) returns (r: Outcome, vars: Value)
    requires ValidBlock(names, exprs)
    ensures r.Done? <==>
              && !Cyclic(Definitions(names, exprs))
              && !HasUndefinedRef(Definitions(names, exprs))
              && exists s :: Solves(c, names, exprs, s)
    ensures r.Done? && names != [] ==>
              Solves(c, names, exprs, vars) && forall s :: Solves(c, names, exprs, s) ==> s == vars
    ensures r.Circular? ==> Cyclic(Definitions(names, exprs))
    ensures r.Panic? ==> HasUndefinedRef(Definitions(names, exprs))
    ensures r.Failed? ==>
              (exists q :: Stuck(c, Definitions(names, exprs), q)) && !exists s :: Solves(c, names, exprs, s)
    ensures !HasUndefinedRef(Definitions(names, exprs)) && (forall q :: !Stuck(c, Definitions(names, exprs), q)) ==>
              if Cyclic(Definitions(names, exprs)) then r.Circular? else r.Done?
  {
    var resolver := new Resolver();
    for i := 0 to |names|
      invariant resolver.variables == Definitions(names[..i], exprs[..i])
      invariant fresh(resolver)
    {
      var t := resolver.variables;
      assert !Has(t, [Name(names[i])]);
      resolver.Add([Name(names[i])], exprs[i]);
      assert FindKid(t.kids, Name(names[i])) == |t.kids|;
      assert resolver.variables.kids == Definitions(names[..i + 1], exprs[..i + 1]).kids;
    }
    assert names[..|names|] == names && exprs[..|exprs|] == exprs;
    ghost var t0 := Definitions(names, exprs);
    DefinitionsShaped(names, exprs);
    EvolvesReflexive(t0);
    FreshSound(c, t0, t0);
    forall q ensures !Busy(t0, q) {
      FreshNotBusy(t0, q);
    }
    r := resolver.ResolveAll(c, t0);
    vars := ToValue(resolver.variables);
    Conclude(c, names, exprs, r, resolver.variables);
  }

  /** A fully resolved tree holds the unique solution, and rules out every defect of the definitions. */
  lemma ResolvedSolves(c: Context, names: seq<string>, exprs: seq<Expr>, t: Tree)
    requires ValidBlock(names, exprs) && Consistent(c, Definitions(names, exprs), t, [])
    requires AllResolved(t)
    ensures !Cyclic(Definitions(names, exprs)) && !HasUndefinedRef(Definitions(names, exprs))
    ensures Solves(c, names, exprs, Object(ObjectOf(KidKeys(t), KidValues(t))))
    ensures forall s :: Solves(c, names, exprs, s) ==> s == Object(ObjectOf(KidKeys(t), KidValues(t)))
  {
    hide Eval, Den;
    var t0 := Definitions(names, exprs);
    DefinitionsShaped(names, exprs);
    RootKeeps(c, t0, t);
    ResolvedAreMeanings(c, t0, t);
    var vars := Object(ObjectOf(KidKeys(t), KidValues(t)));
    MeaningsSolve(c, names, exprs, KidValues(t));
    if Cyclic(t0) {
      CyclicIsUndefined(c, t0);
    }
    if HasUndefinedRef(t0) {
      DanglingIsUndefined(c, t0);
    }
    forall s | Solves(c, names, exprs, s) ensures s == vars {
      SolutionUnique(c, names, exprs, s, vars);
    }
  }

  ghost predicate AllResolved(t: Tree) {
    forall i | 0 <= i < |t.kids| :: t.kids[i].value.resolved.Some?
  }

  lemma ResolvedAreMeanings(c: Context, t0: Tree, t: Tree)
    requires Consistent(c, t0, t, []) && AllResolved(t) && |t.kids| == |t0.kids|
    ensures AreMeanings(c, t0, KidValues(t)) && Defined(c, t0)
  {
    var vs := KidValues(t);
    forall i | 0 <= i < |t0.kids| ensures HasDen(c, t0, t0.kids[i].value, vs[i]) {
      assert Sound(c, t0, t0.kids[i].value, t.kids[i].value);
      assert t.kids[i].value.resolved.Some?;
      assert vs[i] == ToValue(t.kids[i].value);
    }
    forall i | 0 <= i < |t0.kids| ensures HasSomeDen(c, t0, t0.kids[i].value) {
      var f: nat :| Den(c, t0, t0.kids[i].value, f) == Some(vs[i]);
    }
  }

  /** What the outcome of resolution says about the definitions. */
  lemma Conclude(c: Context, names: seq<string>, exprs: seq<Expr>, r: Outcome, t: Tree)
    requires ValidBlock(names, exprs) && Explained(c, Definitions(names, exprs), r)
    requires r.Done? ==> Consistent(c, Definitions(names, exprs), t, []) && AllResolved(t)
    ensures r.Done? <==>
              && !Cyclic(Definitions(names, exprs))
              && !HasUndefinedRef(Definitions(names, exprs))
              && exists s :: Solves(c, names, exprs, s)
    ensures r.Done? && names != [] ==>
              Solves(c, names, exprs, ToValue(t)) && forall s :: Solves(c, names, exprs, s) ==> s == ToValue(t)
    ensures r.Failed? ==> !exists s :: Solves(c, names, exprs, s)
  {
    hide Solves;
    if r.Done? {
      ResolvedSolves(c, names, exprs, t);
      RootKeeps(c, Definitions(names, exprs), t);
    } else if r.Failed? {
      var q :| Stuck(c, Definitions(names, exprs), q);
      forall s ensures !Solves(c, names, exprs, s) {
        StuckHasNoSolution(c, names, exprs, s, q);
      }
    }
  }
}
