/**
 The fragment of the configuration language that variable definitions are written in, and its
 evaluation. The value of the `var` object is passed as a lookup function from reference paths to
 values, so the same evaluator serves a concrete `var` object and the denotation of `Denotation`.
 */
module Expressions {
  import opened Options
  import Numerals

  /** One step of a reference path: an attribute or string index, or a numeric index. */
  datatype Key = Name(name: string) | Num(index: nat)

  type Path = seq<Key>

  /** The key converted to a string, as object attributes are named. */
  function Text(k: Key): string {
    match k
    case Name(s) => s
    case Num(i) => Numerals.Render(i)
  }

  datatype Value =
    | Nil
    | Atom(text: string)
    | Tuple(items: seq<Value>)
    | Object(fields: map<string, Value>)

  datatype Expr =
    | Literal(value: Value)
    | Ref(root: string, path: Path)
    | Op(op: string, args: seq<Expr>)
    | ListE(items: seq<Expr>)
    | MapE(keys: seq<Key>, items: seq<Expr>)

  /** What evaluation takes from its surroundings: other root objects and the meaning of operators. */
  datatype Context = Context(globals: map<string, Value>, apply: (string, seq<Value>) -> Option<Value>)

  type Lookup = Path -> Option<Value>

  const VAR_OBJECT_NAME := "var"

  predicate IsCompound(e: Expr) {
    e.ListE? || e.MapE?
  }

  /** The keys under which a map or list expression holds its items. */
  function Keys(e: Expr): (ks: seq<Key>)
    requires IsCompound(e)
  {
    if e.MapE? then e.keys else seq(|e.items|, i requires 0 <= i => Num(i))
  }

  predicate DistinctTexts(keys: seq<Key>) {
    forall i, j | 0 <= i < j < |keys| :: Text(keys[i]) != Text(keys[j])
  }

  /** Map expressions pair each item with a key, and no two keys read the same as strings. */
  predicate WellFormed(e: Expr) {
    match e
    case Literal(_) => true
    case Ref(_, _) => true
    case Op(_, args) => forall a | a in args :: WellFormed(a)
    case ListE(items) => forall a | a in items :: WellFormed(a)
    case MapE(keys, items) => |keys| == |items| && DistinctTexts(keys) && forall a | a in items :: WellFormed(a)
  }

  lemma KeysWellFormed(e: Expr)
    requires IsCompound(e) && WellFormed(e)
    ensures |Keys(e)| == |e.items| && DistinctTexts(Keys(e))
  {
    if e.ListE? {
      forall i, j | 0 <= i < j < |e.items| ensures Text(Keys(e)[i]) != Text(Keys(e)[j]) {
        if Text(Keys(e)[i]) == Text(Keys(e)[j]) {
          Numerals.RenderInjective(i, j);
        }
      }
    }
  }

  /** The paths of all references to the `var` object inside an expression, in source order. */
  function SelfRefs(e: Expr): seq<Path> {
    match e
    case Literal(_) => []
    case Ref(root, path) => if root == VAR_OBJECT_NAME then [path] else []
    case Op(_, args) => AllSelfRefs(args)
    case ListE(items) => AllSelfRefs(items)
    case MapE(_, items) => AllSelfRefs(items)
  }

  function AllSelfRefs(es: seq<Expr>): seq<Path> {
    if es == [] then [] else SelfRefs(es[0]) + AllSelfRefs(es[1..])
  }

  lemma {:induction false} SelfRefsOfItem(es: seq<Expr>, i: nat)
    requires i < |es|
    ensures forall p | p in SelfRefs(es[i]) :: p in AllSelfRefs(es)
  {
    if i > 0 {
      SelfRefsOfItem(es[1..], i - 1);
    }
  }

  /** Indexing a value by one key: lists take numbers, objects take the key as a string. */
  function Index(v: Value, k: Key): Option<Value> {
    match v
    case Tuple(items) =>
      (match k
       case Num(i) => if i < |items| then Some(items[i]) else None
       case Name(s) =>
         if Numerals.IsCanonical(s) && Numerals.Read(s) < |items| then Some(items[Numerals.Read(s)]) else None)
    case Object(fields) => if Text(k) in fields then Some(fields[Text(k)]) else None
    case Atom(_) => None
    case Nil => None
  }

  function IndexPath(v: Value, path: Path): Option<Value> {
    if path == [] then Some(v)
    else
      match Index(v, path[0])
      case None => None
      case Some(w) => IndexPath(w, path[1..])
  }

  lemma {:induction false} IndexPathAppend(v: Value, p: Path, q: Path)
    ensures IndexPath(v, p + q) == match IndexPath(v, p) { case None => None case Some(w) => IndexPath(w, q) }
  {
    if p == [] {
      assert p + q == q;
    } else {
      assert (p + q)[1..] == p[1..] + q;
      match Index(v, p[0]) {
        case None =>
        case Some(w) => IndexPathAppend(w, p[1..], q);
      }
    }
  }

  /** An object built entry by entry; a later entry replaces an earlier one of the same name. */
  function ObjectOf(keys: seq<Key>, values: seq<Value>): map<string, Value>
    requires |keys| == |values|
  {
    if keys == [] then map[]
    else
      var n := |keys| - 1;
      ObjectOf(keys[..n], values[..n])[Text(keys[n]) := values[n]]
  }

  lemma {:induction false} ObjectOfKeys(keys: seq<Key>, values: seq<Value>)
    requires |keys| == |values|
    ensures forall s :: s in ObjectOf(keys, values) <==> exists i :: 0 <= i < |keys| && Text(keys[i]) == s
  {
    if keys != [] {
      var n := |keys| - 1;
      ObjectOfKeys(keys[..n], values[..n]);
      forall s | s in ObjectOf(keys, values) ensures exists i :: 0 <= i < |keys| && Text(keys[i]) == s {
        if s == Text(keys[n]) {
        } else {
          assert s in ObjectOf(keys[..n], values[..n]);
          var i :| 0 <= i < |keys[..n]| && Text(keys[..n][i]) == s;
          assert Text(keys[i]) == s;
        }
      }
      forall i | 0 <= i < |keys| ensures Text(keys[i]) in ObjectOf(keys, values) {
        if i < n {
          assert keys[..n][i] == keys[i];
        }
      }
    }
  }

  lemma {:induction false} ObjectOfAt(keys: seq<Key>, values: seq<Value>, i: nat)
    requires |keys| == |values| && DistinctTexts(keys) && i < |keys|
    ensures Text(keys[i]) in ObjectOf(keys, values) && ObjectOf(keys, values)[Text(keys[i])] == values[i]
  {
    var n := |keys| - 1;
    if i < n {
      ObjectOfAt(keys[..n], values[..n], i);
    }
  }

  /** The value of a map or list expression from the values of its items. */
  function Pack(e: Expr, values: seq<Value>): Value
    requires IsCompound(e) && |Keys(e)| == |values|
  {
    if e.ListE? then Tuple(values) else Object(ObjectOf(e.keys, values))
  }

  lemma PackIndex(e: Expr, values: seq<Value>, i: nat)
    requires IsCompound(e) && WellFormed(e) && |e.items| == |values| && i < |values|
    ensures |Keys(e)| == |values| && Index(Pack(e, values), Keys(e)[i]) == Some(values[i])
  {
    KeysWellFormed(e);
    if e.MapE? {
      ObjectOfAt(e.keys, values, i);
    }
  }

  /** Evaluation is strict: it fails when any part fails. A map without a key for each item has no value. */
  function Eval(c: Context, e: Expr, look: Lookup): Option<Value> {
    match e
    case Literal(v) => Some(v)
    case Ref(root, path) =>
      if root == VAR_OBJECT_NAME then look(path)
      else if root in c.globals then IndexPath(c.globals[root], path)
      else None
    case Op(op, args) =>
      (match EvalAll(c, args, look)
       case None => None
       case Some(vs) => c.apply(op, vs))
    case ListE(items) =>
      (match EvalAll(c, items, look)
       case None => None
       case Some(vs) => Some(Pack(e, vs)))
    case MapE(keys, items) =>
      (match EvalAll(c, items, look)
       case None => None
       case Some(vs) => if |keys| == |vs| then Some(Pack(e, vs)) else None)
  }

  function EvalAll(c: Context, es: seq<Expr>, look: Lookup): (r: Option<seq<Value>>)
    ensures r.Some? ==> |r.value| == |es|
  {
    if es == [] then Some([])
    else
      match Eval(c, es[0], look)
      case None => None
      case Some(v) =>
        match EvalAll(c, es[1..], look)
        case None => None
        case Some(vs) => Some([v] + vs)
  }

  lemma {:induction false} EvalAllItem(c: Context, es: seq<Expr>, look: Lookup, i: nat)
    requires i < |es| && EvalAll(c, es, look).Some?
    ensures Eval(c, es[i], look) == Some(EvalAll(c, es, look).value[i])
  {
    if i > 0 {
      EvalAllItem(c, es[1..], look, i - 1);
    }
  }

  lemma {:induction false} EvalAllFromItems(c: Context, es: seq<Expr>, look: Lookup, vs: seq<Value>)
    requires |vs| == |es| && forall i | 0 <= i < |es| :: Eval(c, es[i], look) == Some(vs[i])
    ensures EvalAll(c, es, look) == Some(vs)
  {
    if es != [] {
      assert Eval(c, es[0], look) == Some(vs[0]);
      forall i | 0 <= i < |es[1..]| ensures Eval(c, es[1..][i], look) == Some(vs[1..][i]) {
        assert Eval(c, es[i + 1], look) == Some(vs[i + 1]);
      }
      EvalAllFromItems(c, es[1..], look, vs[1..]);
      assert [vs[0]] + vs[1..] == vs;
    }
  }

  /** The value depends only on the references that occur. */
  lemma {:induction false} EvalCongruent(c: Context, e: Expr, f: Lookup, g: Lookup)
    requires forall p | p in SelfRefs(e) :: f(p) == g(p)
    ensures Eval(c, e, f) == Eval(c, e, g)
  {
    match e
    case Literal(_) =>
    case Ref(root, path) =>
      if root == VAR_OBJECT_NAME {
        assert path in SelfRefs(e);
      }
    case Op(_, args) => EvalAllCongruent(c, args, f, g);
    case ListE(items) => EvalAllCongruent(c, items, f, g);
    case MapE(_, items) => EvalAllCongruent(c, items, f, g);
  }

  lemma {:induction false} EvalAllCongruent(c: Context, es: seq<Expr>, f: Lookup, g: Lookup)
    requires forall p | p in AllSelfRefs(es) :: f(p) == g(p)
    ensures EvalAll(c, es, f) == EvalAll(c, es, g)
  {
    if es != [] {
      EvalCongruent(c, es[0], f, g);
      EvalAllCongruent(c, es[1..], f, g);
    }
  }

  /** A value exists only if every reference that occurs has one. */
  lemma {:induction false} EvalStrict(c: Context, e: Expr, f: Lookup)
    requires Eval(c, e, f).Some?
    ensures forall p | p in SelfRefs(e) :: f(p).Some?
  {
    match e
    case Literal(_) =>
    case Ref(_, _) =>
    case Op(_, args) => EvalAllStrict(c, args, f);
    case ListE(items) => EvalAllStrict(c, items, f);
    case MapE(_, items) => EvalAllStrict(c, items, f);
  }

  lemma {:induction false} EvalAllStrict(c: Context, es: seq<Expr>, f: Lookup)
    requires EvalAll(c, es, f).Some?
    ensures forall p | p in AllSelfRefs(es) :: f(p).Some?
  {
    if es != [] {
      EvalStrict(c, es[0], f);
      EvalAllStrict(c, es[1..], f);
    }
  }
}
