/** Small shared vocabulary: optional values, results, and the iterator
    combinators (`find`, `all`, `any`) that the routing code is built from. */
module Base {

  datatype Option<+T> = None | Some(value: T)

  datatype Result<+T, +E> = Ok(value: T) | Err(error: E)

  /** Index of the first element satisfying `p`, scanning left to right
      (the position `Iterator::find` stops at). */
  function FirstIndex<T>(xs: seq<T>, p: T -> bool): (r: Option<nat>)
    ensures r.Some? ==> r.value < |xs| && p(xs[r.value])
    ensures r.Some? ==> forall j :: 0 <= j < r.value ==> !p(xs[j])
    ensures r.None? <==> forall j :: 0 <= j < |xs| ==> !p(xs[j])
  {
    if xs == [] then None
    else if p(xs[0]) then Some(0)
    else match FirstIndex(xs[1..], p)
      case None => None
      case Some(i) => Some(i + 1)
  }

  /** `Iterator::find`: the first element satisfying `p`, if any. */
  function Find<T>(xs: seq<T>, p: T -> bool): (r: Option<T>)
    ensures r.None? <==> forall j :: 0 <= j < |xs| ==> !p(xs[j])
    ensures r.Some? ==> exists i :: 0 <= i < |xs| && xs[i] == r.value && p(xs[i])
                                  && forall j :: 0 <= j < i ==> !p(xs[j])
  {
    match FirstIndex(xs, p)
    case None => None
    case Some(i) => Some(xs[i])
  }

  /** `Iterator::all`, evaluated left to right with short-circuit. */
  function All<T>(xs: seq<T>, p: T -> bool): (r: bool)
    ensures r <==> forall j :: 0 <= j < |xs| ==> p(xs[j])
  {
    xs == [] || (p(xs[0]) && All(xs[1..], p))
  }

  /** `Iterator::any`, evaluated left to right with short-circuit. */
  function Any<T>(xs: seq<T>, p: T -> bool): (r: bool)
    ensures r <==> exists j :: 0 <= j < |xs| && p(xs[j])
  {
    xs != [] && (p(xs[0]) || Any(xs[1..], p))
  }

  /** The prefix of `xs` that a short-circuiting `all` actually consults:
      everything up to and including the first element that fails. */
  function ConsultedByAll<T>(xs: seq<T>, p: T -> bool): (c: seq<T>)
    ensures |c| <= |xs| && c == xs[..|c|]
    ensures forall j :: 0 <= j < |c| - 1 ==> p(c[j])
    ensures |c| < |xs| ==> |c| > 0 && !p(c[|c| - 1])
    ensures All(c, p) == All(xs, p)
  {
    match FirstIndex(xs, x => !p(x))
    case None => xs
    case Some(i) => xs[..i + 1]
  }

  /** The prefix of `xs` that a short-circuiting `any` actually consults:
      everything up to and including the first element that holds. */
  function ConsultedByAny<T>(xs: seq<T>, p: T -> bool): (c: seq<T>)
    ensures |c| <= |xs| && c == xs[..|c|]
    ensures forall j :: 0 <= j < |c| - 1 ==> !p(c[j])
    ensures |c| < |xs| ==> |c| > 0 && p(c[|c| - 1])
    ensures Any(c, p) == Any(xs, p)
  {
    match FirstIndex(xs, p)
    case None => xs
    case Some(i) => xs[..i + 1]
  }

  /** `find` only sees the predicate's verdict on the elements: two
      predicates that agree on every element find the same one. */
  lemma {:induction false} FindRespectsVerdicts<T>(xs: seq<T>, p: T -> bool, q: T -> bool)
    requires forall i :: 0 <= i < |xs| ==> p(xs[i]) == q(xs[i])
    ensures FirstIndex(xs, p) == FirstIndex(xs, q)
    ensures Find(xs, p) == Find(xs, q)
  {
    if xs != [] && !p(xs[0]) {
      forall i | 0 <= i < |xs[1..]| ensures p(xs[1..][i]) == q(xs[1..][i]) {
        assert xs[1..][i] == xs[i + 1];
      }
      FindRespectsVerdicts(xs[1..], p, q);
    }
  }

  /** `all` and `any` only see which elements occur, not their order or
      multiplicity. */
  lemma AllAnyRespectElements<T>(xs: seq<T>, ys: seq<T>, p: T -> bool)
    requires multiset(xs) == multiset(ys)
    ensures All(xs, p) == All(ys, p)
    ensures Any(xs, p) == Any(ys, p)
  {
    forall j | 0 <= j < |xs| ensures xs[j] in multiset(ys) {
      assert xs[j] in multiset(xs);
    }
    forall j | 0 <= j < |ys| ensures ys[j] in multiset(xs) {
      assert ys[j] in multiset(ys);
    }
  }

  /** Adding an element can only falsify `all` and only satisfy `any`. */
  lemma AppendMonotone<T>(xs: seq<T>, x: T, p: T -> bool)
    ensures All(xs + [x], p) ==> All(xs, p)
    ensures All(xs + [x], p) == (All(xs, p) && p(x))
    ensures Any(xs, p) ==> Any(xs + [x], p)
    ensures Any(xs + [x], p) == (Any(xs, p) || p(x))
  {
    var ys := xs + [x];
    assert forall j :: 0 <= j < |xs| ==> ys[j] == xs[j];
    assert ys[|xs|] == x;
  }
}
