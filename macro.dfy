/**
 * The `lut!` procedural macro end to end: parse the invocation, then emit the
 * static table, its type and the accessor closure. `Call` is what invoking the
 * emitted closure evaluates to.
 */
module Macro {
  import opened Wrappers
  import opened Params
  import Parser
  import opened Tables
  import opened Accessor

  /** The macro's output `{ static __LUT: tableType = table; |params: usize| access }`. */
  datatype Expansion<R, T> = Expansion(tableType: Shape<R>, table: Table<T>, params: seq<string>, access: Access)

  /** The `quote!` output of `lut` for a parsed invocation. */
  function Emit<R, T>(l: Parser.Lut<R, Env -> T>): Expansion<R, T>
    requires ValidParams(l.params)
  {
    Expansion(LutType(l.params, l.returnType), TableData(l.params, l.body)(map[]), Names(l.params), AccessExpr(l.params))
  }

  /** Calling the emitted closure with one `usize` per parameter; `None` is the out-of-bounds panic. */
  function Call<R, T>(e: Expansion<R, T>, vals: seq<nat>): Option<T>
    requires |vals| == |e.params|
  {
    match Eval(e.access, e.table, Args(e.params, vals))
    case Some(Leaf(v)) => Some(v)
    case _ => None
  }

  /**
   * The accessor law: the closure returns the body evaluated with every
   * parameter bound to its low bound plus the argument in its position, and
   * panics when any argument is at or past its dimension's length.
   */
  lemma AccessorLaw<R, T>(l: Parser.Lut<R, Env -> T>, vals: seq<nat>)
    requires ValidParams(l.params) && DistinctNames(l.params) && |vals| == |l.params|
    ensures Call(Emit(l), vals) == if InBounds(l.params, vals) then Some(l.body(Bind(map[], l.params, vals))) else None
  {
    AccessorIndexes(l.params, Emit(l).table, vals);
    CellLaw(l.params, l.body, map[], vals);
  }

  /** `lut`: parse the invocation, reporting the first diagnostic, and emit the table and the accessor. */
  method LutMacro<R, T>(toks: seq<Parser.Token<R, Env -> T>>) returns (r: Result<Expansion<R, T>, Error>)
    ensures r.Err? <==> Parser.ParseSpec(toks).Err?
    ensures r.Err? ==> r.error == Parser.ParseSpec(toks).error
    ensures r.Ok? ==> r.value == Emit(Parser.ParseSpec(toks).value)
    ensures r.Ok? ==> HasType(r.value.table, r.value.tableType)
    ensures r.Ok? ==> Dims(r.value.tableType) == Counts(Parser.ParseSpec(toks).value.params)
    ensures r.Ok? && DistinctNames(Parser.ParseSpec(toks).value.params) ==>
      var l := Parser.ParseSpec(toks).value;
      forall vals :: |vals| == |l.params| ==>
        Call(r.value, vals) == if InBounds(l.params, vals) then Some(l.body(Bind(map[], l.params, vals))) else None
  {
    var input := Parser.Parse(toks);
    if input.Err? {
      return Err(input.error);
    }
    var l := input.value;
    r := Ok(Emit(l));
    TableHasLutType(l.params, l.body, l.returnType, map[]);
    LutTypeDims(l.params, l.returnType);
    forall vals | |vals| == |l.params| && DistinctNames(l.params)
      ensures Call(r.value, vals) == if InBounds(l.params, vals) then Some(l.body(Bind(map[], l.params, vals))) else None
    {
      AccessorLaw(l, vals);
    }
  }

  /**
   * Declaration order: declaring `(x, y)` and calling with `(a, b)` reads the
   * same cell as declaring `(y, x)` and calling with `(b, a)`.
   */
  lemma SwapOrder<R, T>(p: Param, q: Param, ret: R, body: Env -> T, a: nat, b: nat)
    requires ValidParam(p) && ValidParam(q) && p.name != q.name
    ensures ValidParams([p, q]) && ValidParams([q, p])
    ensures Call(Emit(Parser.Lut([p, q], ret, body)), [a, b]) == Call(Emit(Parser.Lut([q, p], ret, body)), [b, a])
  {
    AccessorLaw(Parser.Lut([p, q], ret, body), [a, b]);
    AccessorLaw(Parser.Lut([q, p], ret, body), [b, a]);
    assert InBounds([p, q], [a, b]) <==> InBounds([q, p], [b, a]);
    var m: Env := map[];
    assert [p, q][1..] == [q] && [q, p][1..] == [p] && [a, b][1..] == [b] && [b, a][1..] == [a];
    assert [p][1..] == [] && [q][1..] == [] && [a][1..] == [] && [b][1..] == [];
    assert Bind(m, [p, q], [a, b]) == Bind(m[p.name := p.lo + a], [q], [b]);
    assert Bind(m[p.name := p.lo + a], [q], [b]) == m[p.name := p.lo + a][q.name := q.lo + b];
    assert Bind(m, [q, p], [b, a]) == Bind(m[q.name := q.lo + b], [p], [a]);
    assert Bind(m[q.name := q.lo + b], [p], [a]) == m[q.name := q.lo + b][p.name := p.lo + a];
    assert m[p.name := p.lo + a][q.name := q.lo + b] == m[q.name := q.lo + b][p.name := p.lo + a];
  }

  /** With no parameters, the table is the bare body value, its type the return type, and the closure takes no argument. */
  lemma ZeroParameters<R, T>(ret: R, body: Env -> T)
    ensures Parser.ParseSpec(Parser.Render([], false, ret, body)) == Ok(Parser.Lut([], ret, body))
    ensures Emit(Parser.Lut([], ret, body)) == Expansion(Elem(ret), Leaf(body(map[])), [], LutRef)
    ensures Call(Emit(Parser.Lut([], ret, body)), []) == Some(body(map[]))
  {
    Parser.ParseRendered([], false, ret, body);
  }

  /**
   * An exclusive range with equal bounds is accepted and gives a dimension of
   * length 0, so every call of the accessor panics.
   */
  lemma EmptyRangeAlwaysPanics<R, T>(l: Parser.Lut<R, Env -> T>, j: nat, vals: seq<nat>)
    requires ValidParams(l.params) && DistinctNames(l.params) && |vals| == |l.params|
    requires j < |l.params| && l.params[j].exclusiveEnd && l.params[j].lo == l.params[j].hi
    ensures FromPat(ToPat(l.params[j])) == Ok(l.params[j])
    ensures Call(Emit(l), vals) == None
  {
    FromPatToPat(l.params[j]);
    AccessorLaw(l, vals);
  }

  /** The body of the test scenarios, `x as u32 + y as u32`. */
  function SumXY(env: Env): nat {
    (if "x" in env then env["x"] else 0) + (if "y" in env then env["y"] else 0)
  }

  /** `|x @ 0..8, y @ 0..16| -> u32 { x as u32 + y as u32 }` and its inclusive twin `0..=8`, `0..=16`. */
  function Scenario(exclusive: bool): seq<Parser.Token<string, Env -> nat>> {
    Parser.Render([ToPat(Param("x", 0, 8, exclusive)), ToPat(Param("y", 0, 16, exclusive))], false, "u32", SumXY)
  }

  function ScenarioLut(exclusive: bool): Parser.Lut<string, Env -> nat> {
    Parser.Lut([Param("x", 0, 8, exclusive), Param("y", 0, 16, exclusive)], "u32", SumXY)
  }

  /** The scenarios parse to two parameters, `x` then `y`. */
  lemma ScenarioParses(exclusive: bool)
    ensures Parser.ParseSpec(Scenario(exclusive)) == Ok(ScenarioLut(exclusive))
  {
    var px, py := Param("x", 0, 8, exclusive), Param("y", 0, 16, exclusive);
    FromPatToPat(px);
    FromPatToPat(py);
    var pats := [ToPat(px), ToPat(py)];
    forall k | 0 <= k < |pats| ensures FromPat(pats[k]).Ok? {
    }
    var ps := Parser.ValidateAll(pats).value;
    assert ps[0] == px && ps[1] == py;
    assert ps == [px, py];
    Parser.ParseRendered(pats, false, "u32", SumXY);
  }

  /** The scenario tables are 8 by 16 and 9 by 17, and every cell holds `x + y`. */
  lemma ScenarioCells(exclusive: bool, x: nat, y: nat)
    ensures ValidParams(ScenarioLut(exclusive).params)
    ensures Dims(Emit(ScenarioLut(exclusive)).tableType) == (if exclusive then [8, 16] else [9, 17])
    ensures Call(Emit(ScenarioLut(exclusive)), [x, y]) ==
      if x < (if exclusive then 8 else 9) && y < (if exclusive then 16 else 17) then Some(x + y) else None
  {
    var l := ScenarioLut(exclusive);
    var px, py := l.params[0], l.params[1];
    LutTypeDims(l.params, l.returnType);
    AccessorLaw(l, [x, y]);
    var m: Env := map[];
    assert [px, py][1..] == [py] && [x, y][1..] == [y];
    assert [py][1..] == [] && [y][1..] == [];
    assert Bind(m, [px, py], [x, y]) == Bind(m["x" := x], [py], [y]);
    assert Bind(m["x" := x], [py], [y]) == m["x" := x]["y" := y];
  }

  /** The cases the tests check: `lut(3, 10) == 13`, `lut(8, 16) == 24` inclusive, `lut(10, 3)` and `lut(8, 0)` panic. */
  lemma ScenarioTests()
    ensures Call(Emit(ScenarioLut(true)), [3, 10]) == Some(13)
    ensures Call(Emit(ScenarioLut(true)), [10, 3]) == None
    ensures Call(Emit(ScenarioLut(true)), [8, 0]) == None
    ensures Call(Emit(ScenarioLut(false)), [8, 16]) == Some(24)
  {
    ScenarioCells(true, 3, 10);
    ScenarioCells(true, 10, 3);
    ScenarioCells(true, 8, 0);
    ScenarioCells(false, 8, 16);
  }

  /** The disabled `bad_range` test: `x @ 8..0` is rejected with both bounds before anything is emitted. */
  lemma BadRange()
    ensures var pats := [ToPat(Param("x", 8, 0, true)), ToPat(Param("y", 8, 0, true))];
      Parser.ParseSpec(Parser.Render(pats, false, "u32", SumXY)) == Err(InvertedRange(8, 0))
  {
    var pats := [ToPat(Param("x", 8, 0, true)), ToPat(Param("y", 8, 0, true))];
    assert FromPat(pats[0]) == Err(InvertedRange(8, 0));
    Parser.ParseRendered(pats, false, "u32", SumXY);
  }
}
