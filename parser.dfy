/**
 * The input grammar of `lut!`: `| p0, p1, ... | -> Type { body }`.
 * `ParseSpec` is the grammar as a function; `Parse` is the token loop of
 * `Lut::parse`, proved to agree with it.
 */
module Parser {
  import opened Wrappers
  import opened Params

  /**
   * The macro input at the granularity the parser looks at it. The return type
   * (`R`) and the body block (`B`) are opaque fragments.
   */
  datatype Token<R, B> =
    | Bar               // `|`
    | Comma             // `,`
    | Arrow             // `->`
    | PatTok(pat: Pat)  // one pattern, as `syn::Pat` reads it
    | TypeTok(ty: R)    // a type
    | BlockTok(body: B) // a `{ ... }` block
    | OtherTok          // anything else

  /** A parsed invocation: the parameters in source order, the return type and the body. */
  datatype Lut<R, B> = Lut(params: seq<Param>, returnType: R, body: B)

  /** Adds `ps` in front of the parameters of `r`, and `n` to the tokens it consumed. */
  function Prefixed(ps: seq<Param>, n: nat, r: Result<(seq<Param>, nat), Error>): Result<(seq<Param>, nat), Error> {
    match r
    case Err(e) => Err(e)
    case Ok((qs, m)) => Ok((ps + qs, n + m))
  }

  /**
   * The parameter list after the opening `|`: the parameters and the number of
   * tokens before the closing `|`. A pattern is followed either by the closing
   * `|` or by a comma; a comma may be followed by the closing `|`.
   */
  function ParamList<R, B>(ts: seq<Token<R, B>>): (r: Result<(seq<Param>, nat), Error>)
    ensures r.Ok? ==> r.value.1 < |ts| && ts[r.value.1].Bar? && ValidParams(r.value.0)
    decreases |ts|
  {
    if |ts| > 0 && ts[0].Bar? then Ok(([], 0))
    else if |ts| == 0 || !ts[0].PatTok? then Err(Expected(ExpectPattern))
    else
      match FromPat(ts[0].pat)
      case Err(e) => Err(e)
      case Ok(p) =>
        if |ts| > 1 && ts[1].Bar? then Ok(([p], 1))
        else if |ts| == 1 || !ts[1].Comma? then Err(Expected(ExpectComma))
        else Prefixed([p], 2, ParamList(ts[2..]))
  }

  /** What follows the closing `|`: `->`, the return type, the body block, and nothing more. */
  function ParseRest<R, B>(ps: seq<Param>, rest: seq<Token<R, B>>): Result<Lut<R, B>, Error> {
    if |rest| == 0 || !rest[0].Arrow? then Err(Expected(ExpectArrow))
    else if |rest| == 1 || !rest[1].TypeTok? then Err(Expected(ExpectType))
    else if |rest| == 2 || !rest[2].BlockTok? then Err(Expected(ExpectBlock))
    else if |rest| > 3 then Err(TrailingInput)
    else Ok(Lut(ps, rest[1].ty, rest[2].body))
  }

  /** The whole input grammar. */
  function ParseSpec<R, B>(toks: seq<Token<R, B>>): (r: Result<Lut<R, B>, Error>)
    ensures r.Ok? ==> ValidParams(r.value.params)
  {
    if |toks| == 0 || !toks[0].Bar? then Err(Expected(ExpectBar))
    else
      match ParamList(toks[1..])
      case Err(e) => Err(e)
      case Ok((ps, n)) => ParseRest(ps, toks[n + 2..])
  }

  lemma PrefixedEmpty(r: Result<(seq<Param>, nat), Error>)
    ensures Prefixed([], 0, r) == r
  {
    if r.Ok? {
      assert [] + r.value.0 == r.value.0;
    }
  }

  lemma PrefixedAssoc(ps: seq<Param>, n: nat, qs: seq<Param>, m: nat, r: Result<(seq<Param>, nat), Error>)
    ensures Prefixed(ps, n, Prefixed(qs, m, r)) == Prefixed(ps + qs, n + m, r)
  {
    if r.Ok? {
      assert ps + (qs + r.value.0) == (ps + qs) + r.value.0;
    }
  }

  /**
   * `Lut::parse`: read `|`, then loop: stop at `|`, else read a pattern and
   * validate it, stop at `|`, else read a comma. Then `|`, `->`, the type and
   * the block; the invocation must end there.
   */
  method Parse<R, B>(toks: seq<Token<R, B>>) returns (r: Result<Lut<R, B>, Error>)
    ensures r == ParseSpec(toks)
  {
    if |toks| == 0 || !toks[0].Bar? {
      return Err(Expected(ExpectBar));
    }
    var i := 1;
    var inputs: seq<Param> := [];
    PrefixedEmpty(ParamList(toks[1..]));
    while true
      invariant 1 <= i <= |toks|
      invariant ParamList(toks[1..]) == Prefixed(inputs, i - 1, ParamList(toks[i..]))
      decreases |toks| - i
    {
      if i < |toks| && toks[i].Bar? {
        assert ParamList(toks[i..]) == Ok(([], 0));
        assert inputs + [] == inputs;
        break;
      }
      if i == |toks| || !toks[i].PatTok? {
        return Err(Expected(ExpectPattern));
      }
      var value := FromPat(toks[i].pat);
      if value.Err? {
        return Err(value.error);
      }
      ghost var before := inputs;
      inputs := inputs + [value.value];
      i := i + 1;
      if i < |toks| && toks[i].Bar? {
        assert toks[i - 1..][1] == toks[i];
        assert ParamList(toks[i - 1..]) == Ok(([value.value], 1));
        break;
      }
      if i == |toks| || !toks[i].Comma? {
        assert i < |toks| ==> toks[i - 1..][1] == toks[i];
        return Err(Expected(ExpectComma));
      }
      assert toks[i - 1..][2..] == toks[i + 1..];
      PrefixedAssoc(before, i - 2, [value.value], 2, ParamList(toks[i + 1..]));
      i := i + 1;
    }
    // The loop stops only at a `|`, so reading the closing `|` cannot fail.
    assert ParamList(toks[1..]) == Ok((inputs, i - 1));
    var rest := toks[i + 1..];
    if |rest| == 0 || !rest[0].Arrow? {
      return Err(Expected(ExpectArrow));
    }
    if |rest| == 1 || !rest[1].TypeTok? {
      return Err(Expected(ExpectType));
    }
    if |rest| == 2 || !rest[2].BlockTok? {
      return Err(Expected(ExpectBlock));
    }
    if |rest| > 3 {
      return Err(TrailingInput);
    }
    return Ok(Lut(inputs, rest[1].ty, rest[2].body));
  }
  /** The patterns separated by commas, with a comma after the last one when `trailing` holds. */
  function Join<R, B>(pats: seq<Pat>, trailing: bool): seq<Token<R, B>> {
    if pats == [] then []
    else if |pats| == 1 then [PatTok(pats[0])] + (if trailing then [Comma] else [])
    else [PatTok(pats[0]), Comma] + Join(pats[1..], trailing)
  }

  /** The invocation `| pats | -> ty body` as the user writes it. */
  function Render<R, B>(pats: seq<Pat>, trailing: bool, ty: R, body: B): seq<Token<R, B>> {
    [Bar] + Join(pats, trailing) + [Bar, Arrow, TypeTok(ty), BlockTok(body)]
  }

  /** Validates the patterns in order and reports the first one that is rejected. */
  function ValidateAll(pats: seq<Pat>): (r: Result<seq<Param>, Error>)
    ensures r.Ok? <==> forall k :: 0 <= k < |pats| ==> FromPat(pats[k]).Ok?
    ensures r.Ok? ==> |r.value| == |pats| && forall k :: 0 <= k < |pats| ==> FromPat(pats[k]) == Ok(r.value[k])
    ensures r.Err? ==> exists j :: 0 <= j < |pats| && FromPat(pats[j]) == Err(r.error)
                                    && forall k :: 0 <= k < j ==> FromPat(pats[k]).Ok?
  {
    if pats == [] then Ok([])
    else
      match FromPat(pats[0])
      case Err(e) => Err(e)
      case Ok(p) =>
        match ValidateAll(pats[1..])
        case Err(e) => Err(e)
        case Ok(ps) => Ok([p] + ps)
  }

  lemma {:induction false} ParamListJoin<R, B>(pats: seq<Pat>, trailing: bool, rest: seq<Token<R, B>>)
    requires |rest| > 0 && rest[0].Bar?
    ensures ParamList(Join(pats, trailing) + rest) ==
      match ValidateAll(pats)
      case Ok(ps) => Ok((ps, |Join<R, B>(pats, trailing)|))
      case Err(e) => Err(e)
    decreases |pats|
  {
    var ts := Join<R, B>(pats, trailing) + rest;
    if pats == [] {
      assert ts == rest;
    } else if |pats| == 1 {
      if trailing {
        assert ts[2..] == rest;
        assert ParamList(rest) == Ok(([], 0));
      }
      if FromPat(pats[0]).Ok? {
        assert [FromPat(pats[0]).value] + [] == [FromPat(pats[0]).value];
        assert pats[1..] == [];
      }
    } else {
      assert ts[2..] == Join<R, B>(pats[1..], trailing) + rest;
      ParamListJoin(pats[1..], trailing, rest);
    }
  }

  /**
   * Parsing the written form of an invocation gives its parameters in source
   * order, whether or not the list ends with a comma, or the diagnostic of
   * the first rejected pattern.
   */
  lemma ParseRendered<R, B>(pats: seq<Pat>, trailing: bool, ty: R, body: B)
    ensures ParseSpec(Render(pats, trailing, ty, body)) ==
      match ValidateAll(pats)
      case Ok(ps) => Ok(Lut(ps, ty, body))
      case Err(e) => Err(e)
  {
    var toks := Render(pats, trailing, ty, body);
    var tail: seq<Token<R, B>> := [Bar, Arrow, TypeTok(ty), BlockTok(body)];
    assert toks[1..] == Join(pats, trailing) + tail;
    ParamListJoin(pats, trailing, tail);
    assert toks[|Join<R, B>(pats, trailing)| + 2..] == tail[1..];
  }

  /** Reads back the patterns and the trailing comma from tokens `ParamList` accepted. */
  lemma {:induction false} ParamListIsJoin<R, B>(ts: seq<Token<R, B>>) returns (pats: seq<Pat>, trailing: bool)
    requires ParamList(ts).Ok?
    ensures ts[..ParamList(ts).value.1] == Join(pats, trailing)
    ensures ValidateAll(pats) == Ok(ParamList(ts).value.0)
    decreases |ts|
  {
    if ts[0].Bar? {
      pats, trailing := [], false;
    } else if ts[1].Bar? {
      pats, trailing := [ts[0].pat], false;
      assert ts[..1] == [PatTok(ts[0].pat)];
      var p := FromPat(ts[0].pat).value;
      assert ParamList(ts).value.0 == [p];
      assert pats[1..] == [];
      assert [p] + [] == [p];
    } else {
      var q := ts[0].pat;
      var more, t := ParamListIsJoin(ts[2..]);
      var n := ParamList(ts[2..]).value.1;
      assert ts[..n + 2] == [PatTok(q), Comma] + ts[2..][..n];
      var p := FromPat(q).value;
      assert ParamList(ts).value.0 == [p] + ParamList(ts[2..]).value.0;
      if more == [] {
        pats, trailing := [q], true;
        assert ParamList(ts[2..]).value.0 == [];
        assert pats[1..] == more;
        assert [p] + [] == [p];
      } else {
        pats, trailing := [q] + more, t;
        assert pats[1..] == more;
      }
    }
  }

  /** The grammar, both ways: an invocation is accepted exactly when it is the written form of valid patterns. */
  lemma ParseSpecExactly<R, B>(toks: seq<Token<R, B>>, l: Lut<R, B>)
    ensures ParseSpec(toks) == Ok(l) <==>
      exists pats, trailing :: toks == Render(pats, trailing, l.returnType, l.body) && ValidateAll(pats) == Ok(l.params)
  {
    if ParseSpec(toks) == Ok(l) {
      var pats, trailing := ParamListIsJoin(toks[1..]);
      var n := ParamList(toks[1..]).value.1;
      assert toks == [Bar] + toks[1..][..n] + [Bar] + toks[n + 2..];
      assert toks == Render(pats, trailing, l.returnType, l.body);
    }
    if exists pats, trailing :: toks == Render(pats, trailing, l.returnType, l.body) && ValidateAll(pats) == Ok(l.params) {
      var pats, trailing :| toks == Render(pats, trailing, l.returnType, l.body) && ValidateAll(pats) == Ok(l.params);
      ParseRendered(pats, trailing, l.returnType, l.body);
    }
  }
}
