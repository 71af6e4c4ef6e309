/**
 * The table data and its type: `generate_array` and the two right folds of
 * `lut` (`rev().fold`) that nest one array level per parameter.
 */
module Tables {
  import opened Wrappers
  import opened Params

  /** The `usize` constants in scope at a point of the generated initializer, by name. */
  type Env = map<string, nat>

  /** A nested array literal: a cell, or an array of sub-tables. */
  datatype Table<T> = Leaf(value: T) | Arr(items: seq<Table<T>>)

  /**
   * An initializer expression whose free names are parameter constants, given
   * as its value in each scope.
   */
  type Fragment<T> = Env -> Table<T>

  /** The body block, the payload the fold starts from. */
  function BodyFragment<T>(body: Env -> T): Fragment<T> {
    env => Leaf(body(env))
  }

  /**
   * `generate_array`: one array element per value `lo + k` of the range, in
   * ascending order, each a copy of `payload` in a block that binds the
   * constant `p.name` to that value.
   */
  function GenerateArray<T>(p: Param, payload: Fragment<T>): Fragment<T>
    requires ValidParam(p)
  {
    (env: Env) => Arr(seq(Count(p), (k: int) requires 0 <= k < Count(p) => payload(env[p.name := (p.lo + k) as nat])))
  }

  /** `ps.iter().rev().fold(acc, ...)` building the table data: the last parameter is wrapped first. */
  function TableFold<T>(ps: seq<Param>, acc: Fragment<T>): Fragment<T>
    requires ValidParams(ps)
    decreases |ps|
  {
    if ps == [] then acc
    else TableFold(ps[..|ps| - 1], GenerateArray(ps[|ps| - 1], acc))
  }

  /** The `static __LUT` initializer. */
  function TableData<T>(ps: seq<Param>, body: Env -> T): Fragment<T>
    requires ValidParams(ps)
  {
    TableFold(ps, BodyFragment(body))
  }

  /** The same nesting read from the outside in: the first parameter is the outermost array. */
  function Nest<T>(ps: seq<Param>, acc: Fragment<T>): Fragment<T>
    requires ValidParams(ps)
    decreases |ps|
  {
    if ps == [] then acc
    else GenerateArray(ps[0], Nest(ps[1..], acc))
  }

  /** The constants in scope at a cell: each `ps[k].name` bound to `ps[k].lo + idx[k]`, a later parameter shadowing an earlier one. */
  function Bind(env: Env, ps: seq<Param>, idx: seq<nat>): Env
    requires |idx| == |ps|
    decreases |ps|
  {
    if ps == [] then env
    else Bind(env[ps[0].name := ps[0].lo + idx[0]], ps[1..], idx[1..])
  }

  /** Every index is below the length of its dimension. */
  predicate InBounds(ps: seq<Param>, idx: seq<nat>)
    requires ValidParams(ps) && |idx| == |ps|
  {
    forall k :: 0 <= k < |ps| ==> idx[k] < Count(ps[k])
  }

  /** Chained indexing `t[idx[0]][idx[1]]...`; `None` is the out-of-bounds panic. */
  function Lookup<T>(t: Table<T>, idx: seq<nat>): Option<Table<T>>
    decreases |idx|
  {
    if idx == [] then Some(t)
    else if t.Arr? && idx[0] < |t.items| then Lookup(t.items[idx[0]], idx[1..])
    else None
  }

  /** The element of `p`'s dimension for value `v` is at position `v - lo`, and position `k` holds value `lo + k`. */
  lemma GenerateArrayEnumerates<T>(p: Param, payload: Fragment<T>, env: Env)
    requires ValidParam(p)
    ensures GenerateArray(p, payload)(env).Arr?
    ensures var items := GenerateArray(p, payload)(env).items;
      && |items| == Count(p)
      && (forall k :: 0 <= k < |items| ==> InRange(p, p.lo + k) && items[k] == payload(env[p.name := p.lo + k]))
      && (forall v: nat :: InRange(p, v) ==> v - p.lo < |items| && items[v - p.lo] == payload(env[p.name := v]))
  {
    var items := GenerateArray(p, payload)(env).items;
    forall v: nat | InRange(p, v)
      ensures v - p.lo < |items| && items[v - p.lo] == payload(env[p.name := v])
    {
      var k := v - p.lo;
      assert items[k] == payload(env[p.name := p.lo + k]);
      assert p.lo + k == v;
    }
  }

  lemma {:induction false} NestSnoc<T>(init: seq<Param>, last: Param, acc: Fragment<T>)
    requires ValidParams(init) && ValidParam(last)
    ensures ValidParams(init + [last])
    ensures Nest(init + [last], acc) == Nest(init, GenerateArray(last, acc))
    decreases |init|
  {
    if init != [] {
      assert (init + [last])[1..] == init[1..] + [last];
      NestSnoc(init[1..], last, acc);
    }
  }

  /** The reversed fold of the source nests exactly like the outside-in reading. */
  lemma {:induction false} TableFoldIsNest<T>(ps: seq<Param>, acc: Fragment<T>)
    requires ValidParams(ps)
    ensures TableFold(ps, acc) == Nest(ps, acc)
    decreases |ps|
  {
    if ps != [] {
      var init, last := ps[..|ps| - 1], ps[|ps| - 1];
      assert ps == init + [last];
      TableFoldIsNest(init, GenerateArray(last, acc));
      NestSnoc(init, last, acc);
    }
  }

  lemma {:induction false} NestCell<T>(ps: seq<Param>, body: Env -> T, env: Env, idx: seq<nat>)
    requires ValidParams(ps) && |idx| == |ps|
    ensures Lookup(Nest(ps, BodyFragment(body))(env), idx) ==
      if InBounds(ps, idx) then Some(Leaf(body(Bind(env, ps, idx)))) else None
    decreases |ps|
  {
    if ps != [] {
      var p := ps[0];
      var t := Nest(ps, BodyFragment(body))(env);
      GenerateArrayEnumerates(p, Nest(ps[1..], BodyFragment(body)), env);
      if idx[0] < Count(p) {
        var env' := env[p.name := p.lo + idx[0]];
        assert t.items[idx[0]] == Nest(ps[1..], BodyFragment(body))(env');
        NestCell(ps[1..], body, env', idx[1..]);
        assert InBounds(ps, idx) <==> InBounds(ps[1..], idx[1..]) by {
          if InBounds(ps[1..], idx[1..]) {
            forall k | 0 <= k < |ps| ensures idx[k] < Count(ps[k]) {
              if k > 0 {
                assert idx[1..][k - 1] == idx[k];
              }
            }
          }
        }
      } else {
        assert !InBounds(ps, idx) by {
          assert idx[0] >= Count(ps[0]);
        }
      }
    }
  }

  /**
   * The cell law: indexing the table data with in-bounds indices gives the
   * body evaluated with every parameter bound to its low bound plus its
   * index; any index at or past its dimension's length panics.
   */
  lemma CellLaw<T>(ps: seq<Param>, body: Env -> T, env: Env, idx: seq<nat>)
    requires ValidParams(ps) && |idx| == |ps|
    ensures Lookup(TableData(ps, body)(env), idx) ==
      if InBounds(ps, idx) then Some(Leaf(body(Bind(env, ps, idx)))) else None
  {
    TableFoldIsNest(ps, BodyFragment(body));
    NestCell(ps, body, env, idx);
  }

  /** A Rust array type `[[R; c1]; c0]`, outermost length first. */
  datatype Shape<R> = Elem(ret: R) | ArrayOf(elem: Shape<R>, len: nat)

  /** `ps.iter().rev().fold(return_type, |ty, p| [ty; count])`. */
  function TypeFold<R>(ps: seq<Param>, acc: Shape<R>): Shape<R>
    requires ValidParams(ps)
    decreases |ps|
  {
    if ps == [] then acc
    else TypeFold(ps[..|ps| - 1], ArrayOf(acc, Count(ps[|ps| - 1])))
  }

  /** The declared type of `static __LUT`. */
  function LutType<R>(ps: seq<Param>, ret: R): Shape<R>
    requires ValidParams(ps)
  {
    TypeFold(ps, Elem(ret))
  }

  /** The array lengths of a type, outermost first. */
  function Dims<R>(s: Shape<R>): seq<nat> {
    match s
    case Elem(_) => []
    case ArrayOf(e, n) => [n] + Dims(e)
  }

  /** The table fits the array type: every array has the declared length, and cells sit exactly at the element type. */
  ghost predicate HasType<T, R>(t: Table<T>, s: Shape<R>)
    decreases s
  {
    match s
    case Elem(_) => t.Leaf?
    case ArrayOf(e, n) => t.Arr? && |t.items| == n && forall k :: 0 <= k < n ==> HasType(t.items[k], e)
  }

  lemma {:induction false} TypeFoldDims<R>(ps: seq<Param>, acc: Shape<R>)
    requires ValidParams(ps)
    ensures Dims(TypeFold(ps, acc)) == Counts(ps) + Dims(acc)
    decreases |ps|
  {
    if ps != [] {
      var init, last := ps[..|ps| - 1], ps[|ps| - 1];
      var c := Count(last);
      TypeFoldDims(init, ArrayOf(acc, c));
      assert ps == init + [last];
      CountsSnoc(init, last);
      calc {
        Dims(TypeFold(ps, acc));
        Dims(TypeFold(init, ArrayOf(acc, c)));
        Counts(init) + Dims(ArrayOf(acc, c));
        Counts(init) + ([c] + Dims(acc));
        (Counts(init) + [c]) + Dims(acc);
      }
    }
  }

  /** The declared type has one array level per parameter, the first parameter's the outermost, each as long as its range. */
  lemma LutTypeDims<R>(ps: seq<Param>, ret: R)
    requires ValidParams(ps)
    ensures Dims(LutType(ps, ret)) == Counts(ps)
    ensures |Dims(LutType(ps, ret))| == |ps|
  {
    TypeFoldDims(ps, Elem(ret));
  }

  /** The two reversed folds run in parallel: every step of the data fold has the type of the same step of the type fold. */
  lemma {:induction false} FoldsAgree<T, R>(ps: seq<Param>, acc: Fragment<T>, accTy: Shape<R>, env: Env)
    requires ValidParams(ps)
    requires forall e :: HasType(acc(e), accTy)
    ensures HasType(TableFold(ps, acc)(env), TypeFold(ps, accTy))
    decreases |ps|
  {
    if ps != [] {
      var init, last := ps[..|ps| - 1], ps[|ps| - 1];
      forall e ensures HasType(GenerateArray(last, acc)(e), ArrayOf(accTy, Count(last))) {
        GenerateArrayEnumerates(last, acc, e);
      }
      FoldsAgree(init, GenerateArray(last, acc), ArrayOf(accTy, Count(last)), env);
    }
  }

  /** `static __LUT: lut_type = table_data` is well typed in every scope. */
  lemma TableHasLutType<T, R>(ps: seq<Param>, body: Env -> T, ret: R, env: Env)
    requires ValidParams(ps)
    ensures HasType(TableData(ps, body)(env), LutType(ps, ret))
  {
    FoldsAgree(ps, BodyFragment(body), Elem(ret), env);
  }
}
