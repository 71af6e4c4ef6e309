/**
 * One macro parameter: the pattern shapes `Param::from_pat` distinguishes, the
 * validated `Param` record it produces, and the element count of its range.
 */
module Params {
  import opened Wrappers

  /** The largest value `base10_parse::<usize>` accepts (a 64-bit target). */
  const USIZE_MAX: nat := 0xFFFF_FFFF_FFFF_FFFF

  /** A range endpoint: an integer literal, already read as its decimal value, or any other expression. */
  datatype Expr = IntLit(value: nat) | NonLit

  /** `..` is half-open, `..=` is closed. */
  datatype Limits = HalfOpen | Closed

  /**
   * The pattern shapes the macro tells apart. The `ref` and `mut` binding modes
   * of an identifier pattern are ignored by the source, so `mut x @ 0..8` is
   * `Ident("x", ...)` here.
   */
  datatype Pat =
    | Ident(name: string, subpat: Option<Pat>)   // `name` or `name @ subpat`
    | Range(lo: Expr, limits: Limits, hi: Expr)  // `lo..hi` or `lo..=hi`
    | OtherPat                                   // a wildcard, literal, tuple, ... pattern

  datatype Bound = Lower | Upper

  /** What the parser expected to find when it reported a structural error. */
  datatype Expectation = ExpectBar | ExpectPattern | ExpectComma | ExpectArrow | ExpectType | ExpectBlock

  /** The diagnostics of the macro, by kind; the message texts and spans are not modelled. */
  datatype Error =
    | NotIdentPattern                 // the parameter is not an identifier pattern
    | MissingRange(ident: string)     // `x` without `@ range`
    | NotRangePattern                 // `x @ p` where `p` is not a range
    | NonLiteralBound(which: Bound)   // a bound that is not an integer literal
    | LiteralOverflow(which: Bound)   // a literal that does not fit in `usize`
    | InvertedRange(lo: nat, hi: nat) // `hi < lo`
    | Expected(what: Expectation)     // the token stream does not follow the grammar
    | TrailingInput                   // tokens left over after the body block

  /** A validated parameter: its name and the bounds of `lo..hi` or `lo..=hi`. */
  datatype Param = Param(name: string, lo: nat, hi: nat, exclusiveEnd: bool)

  /** What every `Param` built by `FromPat` satisfies: both bounds are `usize` values and `lo <= hi`. */
  predicate ValidParam(p: Param) {
    p.lo <= p.hi <= USIZE_MAX
  }

  predicate ValidParams(ps: seq<Param>) {
    forall k :: 0 <= k < |ps| ==> ValidParam(ps[k])
  }

  /** Membership in the Rust range `lo..hi` (exclusive end) or `lo..=hi` (inclusive end). */
  predicate InRange(p: Param, v: nat) {
    p.lo <= v && if p.exclusiveEnd then v < p.hi else v <= p.hi
  }

  /** The number of elements of the parameter's range, which is the length of its table dimension. */
  function Count(p: Param): (n: nat)
    requires ValidParam(p)
    ensures forall v: nat :: InRange(p, v) <==> p.lo <= v < p.lo + n
  {
    if p.exclusiveEnd then p.hi - p.lo else p.hi - p.lo + 1
  }

  /** The dimensions of a table over `ps`, outermost first. */
  function Counts(ps: seq<Param>): (cs: seq<nat>)
    requires ValidParams(ps)
    ensures |cs| == |ps|
    ensures forall k :: 0 <= k < |ps| ==> cs[k] == Count(ps[k])
  {
    if ps == [] then [] else [Count(ps[0])] + Counts(ps[1..])
  }

  lemma CountsSnoc(init: seq<Param>, last: Param)
    requires ValidParams(init) && ValidParam(last)
    ensures ValidParams(init + [last])
    ensures Counts(init + [last]) == Counts(init) + [Count(last)]
  {
    var ps := init + [last];
    assert forall k :: 0 <= k < |init| ==> ps[k] == init[k];
  }

  /** The pattern a user writes for `p`: `name @ lo..hi` or `name @ lo..=hi`. */
  function ToPat(p: Param): Pat {
    Ident(p.name, Some(Range(IntLit(p.lo), if p.exclusiveEnd then HalfOpen else Closed, IntLit(p.hi))))
  }

  /** Classifies one parameter pattern; only an identifier pattern goes on to `FromPatIdent`. */
  function FromPat(pat: Pat): (r: Result<Param, Error>)
    ensures r.Ok? ==> ValidParam(r.value) && ToPat(r.value) == pat
  {
    match pat
    case Ident(name, subpat) => FromPatIdent(name, subpat)
    case _ => Err(NotIdentPattern)
  }

  /**
   * Checks the sub-pattern of `name @ subpat`: it must be a range whose bounds
   * are integer literals that fit in `usize`, checked lower bound first, with
   * the upper bound not below the lower one.
   */
  function FromPatIdent(name: string, subpat: Option<Pat>): (r: Result<Param, Error>)
    ensures r.Ok? ==> ValidParam(r.value) && ToPat(r.value) == Ident(name, subpat)
  {
    match subpat
    case None => Err(MissingRange(name))
    case Some(Range(lo, limits, hi)) =>
      (match lo
       case NonLit => Err(NonLiteralBound(Lower))
       case IntLit(lo) =>
         if lo > USIZE_MAX then Err(LiteralOverflow(Lower))
         else
           match hi
           case NonLit => Err(NonLiteralBound(Upper))
           case IntLit(hi) =>
             if hi > USIZE_MAX then Err(LiteralOverflow(Upper))
             else if hi < lo then Err(InvertedRange(lo, hi))
             else
               var exclusiveEnd := match limits case Closed => false case HalfOpen => true;
               Ok(Param(name, lo, hi, exclusiveEnd)))
    case Some(_) => Err(NotRangePattern)
  }

  /** Every valid parameter is accepted back from the pattern that spells it. */
  lemma FromPatToPat(p: Param)
    requires ValidParam(p)
    ensures FromPat(ToPat(p)) == Ok(p)
  {
  }

  /** `FromPat` accepts exactly the patterns that spell a valid parameter, and gives back that parameter. */
  lemma FromPatExactly(pat: Pat, p: Param)
    ensures FromPat(pat) == Ok(p) <==> ValidParam(p) && pat == ToPat(p)
  {
    if ValidParam(p) && pat == ToPat(p) {
      FromPatToPat(p);
    }
  }

  /** Which diagnostic each rejected shape produces. */
  lemma RejectionCases(pat: Pat)
    ensures !pat.Ident? ==> FromPat(pat) == Err(NotIdentPattern)
    ensures pat.Ident? && pat.subpat.None? ==> FromPat(pat) == Err(MissingRange(pat.name))
    ensures pat.Ident? && pat.subpat.Some? && !pat.subpat.value.Range? ==> FromPat(pat) == Err(NotRangePattern)
    ensures pat.Ident? && pat.subpat.Some? && pat.subpat.value.Range? ==>
      var q := pat.subpat.value;
      && (q.lo.NonLit? ==> FromPat(pat) == Err(NonLiteralBound(Lower)))
      && (q.lo.IntLit? && q.lo.value > USIZE_MAX ==> FromPat(pat) == Err(LiteralOverflow(Lower)))
      && (q.lo.IntLit? && q.lo.value <= USIZE_MAX && q.hi.NonLit? ==> FromPat(pat) == Err(NonLiteralBound(Upper)))
      && (q.lo.IntLit? && q.lo.value <= USIZE_MAX && q.hi.IntLit? && q.hi.value > USIZE_MAX ==>
            FromPat(pat) == Err(LiteralOverflow(Upper)))
      && (q.lo.IntLit? && q.hi.IntLit? && q.lo.value <= USIZE_MAX && q.hi.value <= USIZE_MAX ==>
            FromPat(pat) == if q.hi.value < q.lo.value then Err(InvertedRange(q.lo.value, q.hi.value))
                            else Ok(Param(pat.name, q.lo.value, q.hi.value, q.limits == HalfOpen)))
  {
  }

  /** The range kind: a half-open range excludes its end, a closed one includes it. */
  lemma RangeKind(name: string, lo: nat, limits: Limits, hi: nat)
    requires lo <= hi <= USIZE_MAX
    ensures var r := FromPat(Ident(name, Some(Range(IntLit(lo), limits, IntLit(hi)))));
      && r.Ok?
      && r.value.exclusiveEnd == (limits == HalfOpen)
      && Count(r.value) == if limits == HalfOpen then hi - lo else hi - lo + 1
  {
  }
}
