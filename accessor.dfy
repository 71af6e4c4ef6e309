/**
 * The generated closure `|p0: usize, p1: usize, ...| __LUT[p0][p1]...`: its
 * parameter list, the index expression built by a forward fold, and what
 * calling it evaluates to.
 */
module Accessor {
  import opened Wrappers
  import opened Params
  import opened Tables

  /** An index expression over the static table: `__LUT` or `e[name]`. */
  datatype Access = LutRef | Index(base: Access, arg: string)

  /** The closure's parameter names, one per macro parameter, in declaration order. */
  function Names(ps: seq<Param>): (names: seq<string>)
    ensures |names| == |ps|
    ensures forall k :: 0 <= k < |ps| ==> names[k] == ps[k].name
  {
    if ps == [] then [] else [ps[0].name] + Names(ps[1..])
  }

  /** `ps.iter().fold(quote!(__LUT), |e, p| quote!(#e[#ident]))`. */
  function AccessFold(acc: Access, ps: seq<Param>): Access
    decreases |ps|
  {
    if ps == [] then acc else AccessFold(Index(acc, ps[0].name), ps[1..])
  }

  function AccessExpr(ps: seq<Param>): Access {
    AccessFold(LutRef, ps)
  }

  /** The closure's arguments in scope: `names[k]` bound to `vals[k]`. */
  function Args(names: seq<string>, vals: seq<nat>): Env
    requires |vals| == |names|
    decreases |names|
  {
    if names == [] then map[] else Args(names[1..], vals[1..])[names[0] := vals[0]]
  }

  /** No two parameters share a name (a closure whose parameter list binds a name twice does not compile). */
  predicate DistinctNames(ps: seq<Param>) {
    forall i, j :: 0 <= i < j < |ps| ==> ps[i].name != ps[j].name
  }

  /** Evaluates an index expression; `None` is the out-of-bounds panic. */
  function Eval<T>(a: Access, table: Table<T>, args: Env): Option<Table<T>> {
    match a
    case LutRef => Some(table)
    case Index(base, x) =>
      match Eval(base, table, args)
      case None => None
      case Some(t) => if x in args then Lookup(t, [args[x]]) else None
  }

  function LookupFrom<T>(o: Option<Table<T>>, idx: seq<nat>): Option<Table<T>> {
    match o
    case None => None
    case Some(t) => Lookup(t, idx)
  }

  lemma LookupStep<T>(o: Option<Table<T>>, i: nat, rest: seq<nat>)
    ensures LookupFrom(LookupFrom(o, [i]), rest) == LookupFrom(o, [i] + rest)
  {
    if o.Some? {
      var t := o.value;
      assert ([i] + rest)[1..] == rest;
      if t.Arr? && i < |t.items| {
        assert [i][1..] == [];
        assert Lookup(t, [i]) == Some(t.items[i]);
      }
    }
  }

  /** The expression `acc[ps[0].name][ps[1].name]...` indexes with the arguments' values in declaration order. */
  lemma {:induction false} AccessFoldEval<T>(acc: Access, ps: seq<Param>, table: Table<T>, args: Env, vals: seq<nat>)
    requires |vals| == |ps|
    requires forall k :: 0 <= k < |ps| ==> ps[k].name in args && args[ps[k].name] == vals[k]
    ensures Eval(AccessFold(acc, ps), table, args) == LookupFrom(Eval(acc, table, args), vals)
    decreases |ps|
  {
    if ps == [] {
      if Eval(acc, table, args).Some? {
        assert vals == [];
      }
    } else {
      AccessFoldEval(Index(acc, ps[0].name), ps[1..], table, args, vals[1..]);
      assert Eval(Index(acc, ps[0].name), table, args) == LookupFrom(Eval(acc, table, args), [vals[0]]);
      LookupStep(Eval(acc, table, args), vals[0], vals[1..]);
      assert [vals[0]] + vals[1..] == vals;
    }
  }

  /** With distinct names, each closure parameter reads back the argument passed in its position. */
  lemma {:induction false} ArgsAt(ps: seq<Param>, vals: seq<nat>)
    requires |vals| == |ps| && DistinctNames(ps)
    ensures forall k :: 0 <= k < |ps| ==> ps[k].name in Args(Names(ps), vals) && Args(Names(ps), vals)[ps[k].name] == vals[k]
    decreases |ps|
  {
    if ps != [] {
      ArgsAt(ps[1..], vals[1..]);
      assert Names(ps)[1..] == Names(ps[1..]);
      forall k | 0 <= k < |ps|
        ensures ps[k].name in Args(Names(ps), vals) && Args(Names(ps), vals)[ps[k].name] == vals[k]
      {
        if k > 0 {
          assert ps[1..][k - 1] == ps[k];
          assert ps[k].name != ps[0].name;
        }
      }
    }
  }

  /** The closure indexes the table with its arguments, in parameter order. */
  lemma AccessorIndexes<T>(ps: seq<Param>, table: Table<T>, vals: seq<nat>)
    requires |vals| == |ps| && DistinctNames(ps)
    ensures Eval(AccessExpr(ps), table, Args(Names(ps), vals)) == Lookup(table, vals)
  {
    ArgsAt(ps, vals);
    AccessFoldEval(LutRef, ps, table, Args(Names(ps), vals), vals);
  }
}
