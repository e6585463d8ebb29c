/** Order-preserving selection with Python's exception semantics: a loop
    (or list comprehension) that visits the elements in order, keeps those
    whose test is true, and lets the first exception escape. Both
    collection variants filter this way, one keyword at a time. */
module Selection {
  import opened Outcomes

  /** `[x for x in xs if test(x)]`, where a test may raise. */
  function Select<T>(xs: seq<T>, test: T -> Result<bool>): (r: Result<seq<T>>)
    ensures r.Ok? <==> forall i | 0 <= i < |xs| :: test(xs[i]).Ok?
    ensures r.Ok? ==> |r.value| <= |xs|
    ensures r.Ok? ==> forall j | 0 <= j < |r.value| :: test(r.value[j]) == Ok(true)
  {
    if |xs| == 0 then Ok([])
    else match test(xs[0])
      case Err(e) => Err(e)
      case Ok(keep) =>
        match Select(xs[1..], test)
        case Err(e) => Err(e)
        case Ok(rest) =>
          assert forall i | 1 <= i < |xs| :: xs[i] == xs[1..][i - 1];
          Ok(if keep then [xs[0]] + rest else rest)
  }

  /** `idx` lists, in increasing order, the positions in `xs` that the
      elements of `r` come from. */
  ghost predicate Embeds<T>(r: seq<T>, xs: seq<T>, idx: seq<int>) {
    && |idx| == |r|
    && (forall j | 0 <= j < |idx| :: 0 <= idx[j] < |xs| && r[j] == xs[idx[j]])
    && (forall j, k | 0 <= j < k < |idx| :: idx[j] < idx[k])
  }

  /** Element `i` is the first whose test raises, and it raises `e`. */
  ghost predicate FailsFirstAt<T>(xs: seq<T>, test: T -> Result<bool>, i: int, e: Error) {
    && 0 <= i < |xs|
    && test(xs[i]) == Err(e)
    && forall j | 0 <= j < i :: test(xs[j]).Ok?
  }

  /** A successful selection is exactly the subsequence of the elements
      whose test is true, in their original order. */
  lemma {:induction false} SelectPositions<T>(xs: seq<T>, test: T -> Result<bool>) returns (idx: seq<int>)
    requires Select(xs, test).Ok?
    ensures Embeds(Select(xs, test).value, xs, idx)
    ensures forall i | 0 <= i < |xs| :: i in idx <==> test(xs[i]) == Ok(true)
  {
    if |xs| == 0 {
      idx := [];
    } else {
      var tail := xs[1..];
      var rest := Select(tail, test).value;
      var tidx := SelectPositions(tail, test);
      var shifted := Shift(rest, xs, tidx);
      if test(xs[0]) == Ok(true) {
        assert Select(xs, test).value == [xs[0]] + rest;
        idx := [0] + shifted;
        assert forall i | 1 <= i < |xs| :: i in idx <==> i in shifted;
      } else {
        assert Select(xs, test).value == rest;
        idx := shifted;
      }
    }
  }

  /** Positions into `xs[1..]` moved one step right are positions into `xs`. */
  lemma Shift<T>(r: seq<T>, xs: seq<T>, tidx: seq<int>) returns (shifted: seq<int>)
    requires |xs| > 0 && Embeds(r, xs[1..], tidx)
    ensures Embeds(r, xs, shifted)
    ensures forall j | 0 <= j < |shifted| :: shifted[j] > 0
    ensures forall i | 1 <= i < |xs| :: i in shifted <==> (i - 1) in tidx
  {
    shifted := seq(|tidx|, j requires 0 <= j < |tidx| => tidx[j] + 1);
    forall i | 1 <= i < |xs|
      ensures i in shifted <==> (i - 1) in tidx
    {
      if i in shifted {
        var j :| 0 <= j < |shifted| && shifted[j] == i;
        assert tidx[j] == i - 1;
      }
      if (i - 1) in tidx {
        var j :| 0 <= j < |tidx| && tidx[j] == i - 1;
        assert shifted[j] == i;
      }
    }
  }

  /** A failed selection reports the exception of the first element whose
      test raises; later elements are never looked at. */
  lemma {:induction false} SelectFirstError<T>(xs: seq<T>, test: T -> Result<bool>) returns (i: int)
    requires Select(xs, test).Err?
    ensures FailsFirstAt(xs, test, i, Select(xs, test).error)
  {
    if test(xs[0]).Err? {
      i := 0;
    } else {
      var tail := xs[1..];
      var k := SelectFirstError(tail, test);
      i := k + 1;
    }
  }

  /** Short-circuit conjunction of two tests, evaluated left to right. */
  function AndThen<T>(t1: T -> Result<bool>, t2: T -> Result<bool>): T -> Result<bool> {
    x =>
      match t1(x)
      case Err(e) => Err(e)
      case Ok(b) => if b then t2(x) else Ok(false)
  }

  /** Narrowing twice is selecting once with the conjunction: when the first
      pass succeeds the two agree exactly (errors included), and when it
      fails the conjunction fails too. */
  lemma {:induction false} SelectThen<T>(xs: seq<T>, t1: T -> Result<bool>, t2: T -> Result<bool>)
    ensures Select(xs, t1).Ok? ==> Select(Select(xs, t1).value, t2) == Select(xs, AndThen(t1, t2))
    ensures Select(xs, t1).Err? ==> Select(xs, AndThen(t1, t2)).Err?
  {
    if |xs| > 0 {
      var tail := xs[1..];
      SelectThen(tail, t1, t2);
      var both := AndThen(t1, t2);
      assert both(xs[0]) == (match t1(xs[0]) case Err(e) => Err(e) case Ok(b) => if b then t2(xs[0]) else Ok(false));
      if Select(xs, t1).Ok? {
        var rest := Select(tail, t1).value;
        if t1(xs[0]) == Ok(true) {
          assert Select(xs, t1).value == [xs[0]] + rest;
          assert ([xs[0]] + rest)[1..] == rest;
        }
      }
    }
  }

  /** Selecting from elements that all pass keeps every one of them. */
  lemma {:induction false} SelectKeepsAll<T>(ys: seq<T>, test: T -> Result<bool>)
    requires forall j | 0 <= j < |ys| :: test(ys[j]) == Ok(true)
    ensures Select(ys, test) == Ok(ys)
  {
    if |ys| > 0 {
      var tail := ys[1..];
      SelectKeepsAll(tail, test);
      assert [ys[0]] + tail == ys;
    }
  }

  /** Selection only depends on what the test says about the elements present. */
  lemma {:induction false} SelectCongruent<T>(xs: seq<T>, t1: T -> Result<bool>, t2: T -> Result<bool>)
    requires forall i | 0 <= i < |xs| :: t1(xs[i]) == t2(xs[i])
    ensures Select(xs, t1) == Select(xs, t2)
  {
    if |xs| > 0 {
      var tail := xs[1..];
      assert forall i | 0 <= i < |tail| :: tail[i] == xs[i + 1];
      SelectCongruent(tail, t1, t2);
    }
  }
}

/** Successive narrowing by keyword arguments. Each keyword is first
    parsed into a test (parsing may raise), then the current result is
    narrowed by that test; the next keyword sees only the survivors. */
module Narrowing {
  import opened Outcomes
  import opened Selection

  /** One parsed keyword: the parse error, or the per-record test. */
  type Step<!T> = Result<T -> Result<bool>>

  /** The `for key, value in kwargs.items()` loop of both `filter` methods. */
  function Chain<T>(xs: seq<T>, steps: seq<Step<T>>): (r: Result<seq<T>>)
    ensures |steps| == 0 ==> r == Ok(xs)
    ensures r.Ok? ==> |r.value| <= |xs|
    decreases |steps|
  {
    if |steps| == 0 then Ok(xs)
    else
      var test :- steps[0];
      var ys :- Select(xs, test);
      Chain(ys, steps[1..])
  }

  /** Every keyword parsed successfully. */
  ghost predicate AllParsed<T>(steps: seq<Step<T>>) {
    forall j | 0 <= j < |steps| :: steps[j].Ok?
  }

  /** The conjunction of a list of tests, short-circuiting left to right. */
  function All<T>(tests: seq<T -> Result<bool>>): T -> Result<bool>
    decreases |tests|
  {
    if |tests| == 0 then x => Ok(true)
    else AndThen(tests[0], All(tests[1..]))
  }

  /** The tests of a list of keywords that all parsed. */
  function Tests<T>(steps: seq<Step<T>>): (tests: seq<T -> Result<bool>>)
    requires AllParsed(steps)
    ensures |tests| == |steps|
    ensures forall j | 0 <= j < |steps| :: steps[j] == Ok(tests[j])
  {
    seq(|steps|, j requires 0 <= j < |steps| => steps[j].value)
  }

  /** The conjunction holds of `x` exactly when every test holds of it. */
  lemma {:induction false} AllTrue<T>(tests: seq<T -> Result<bool>>, x: T)
    ensures All(tests)(x) == Ok(true) <==> forall j | 0 <= j < |tests| :: tests[j](x) == Ok(true)
    decreases |tests|
  {
    if |tests| > 0 {
      AllTrue(tests[1..], x);
      assert forall j | 1 <= j < |tests| :: tests[j] == tests[1..][j - 1];
    }
  }

  /** A chain that succeeds parsed every keyword. */
  lemma {:induction false} ChainParsed<T>(xs: seq<T>, steps: seq<Step<T>>)
    requires Chain(xs, steps).Ok?
    ensures AllParsed(steps)
    decreases |steps|
  {
    if |steps| > 0 {
      var ys := Select(xs, steps[0].value).value;
      ChainParsed(ys, steps[1..]);
      assert forall j | 1 <= j < |steps| :: steps[j] == steps[1..][j - 1];
    }
  }

  /** Narrowing keyword by keyword agrees with testing every record against
      the conjunction of all keywords: the two succeed together and then
      return the same records. */
  lemma {:induction false} ChainIsConjunction<T>(xs: seq<T>, steps: seq<Step<T>>)
    requires AllParsed(steps)
    ensures Chain(xs, steps).Ok? <==> Select(xs, All(Tests(steps))).Ok?
    ensures Chain(xs, steps).Ok? ==> Chain(xs, steps) == Select(xs, All(Tests(steps)))
    decreases |steps|
  {
    var tests := Tests(steps);
    if |steps| == 0 {
      SelectKeepsAll(xs, All(tests));
    } else {
      var t := steps[0].value;
      var rest := steps[1..];
      assert Tests(rest) == tests[1..];
      assert All(tests) == AndThen(t, All(tests[1..]));
      SelectThen(xs, t, All(tests[1..]));
      if Select(xs, t).Ok? {
        ChainIsConjunction(Select(xs, t).value, rest);
      }
    }
  }

  /** A successful chain keeps exactly the records every keyword's test
      accepts, in their original order. */
  lemma ChainSelects<T>(xs: seq<T>, steps: seq<Step<T>>) returns (idx: seq<int>)
    requires Chain(xs, steps).Ok?
    ensures AllParsed(steps)
    ensures Embeds(Chain(xs, steps).value, xs, idx)
    ensures forall i | 0 <= i < |xs| ::
      i in idx <==> forall j | 0 <= j < |steps| :: steps[j].value(xs[i]) == Ok(true)
  {
    ChainParsed(xs, steps);
    var tests := Tests(steps);
    ChainIsConjunction(xs, steps);
    idx := SelectPositions(xs, All(tests));
    forall i | 0 <= i < |xs|
      ensures i in idx <==> forall j | 0 <= j < |steps| :: steps[j].value(xs[i]) == Ok(true)
    {
      AllTrue(tests, xs[i]);
    }
  }

  /** Every record a successful chain returns passes every keyword. */
  lemma ChainSurvivorsPass<T>(xs: seq<T>, steps: seq<Step<T>>)
    requires Chain(xs, steps).Ok?
    ensures AllParsed(steps)
    ensures forall k, j | 0 <= k < |Chain(xs, steps).value| && 0 <= j < |steps| ::
      steps[j].value(Chain(xs, steps).value[k]) == Ok(true)
  {
    ChainParsed(xs, steps);
    var tests := Tests(steps);
    ChainIsConjunction(xs, steps);
    var r := Chain(xs, steps).value;
    forall k | 0 <= k < |r|
      ensures forall j | 0 <= j < |steps| :: steps[j].value(r[k]) == Ok(true)
    {
      AllTrue(tests, r[k]);
    }
  }

  /** Filtering a result again by the same keywords changes nothing. */
  lemma ChainIdempotent<T>(xs: seq<T>, steps: seq<Step<T>>)
    requires Chain(xs, steps).Ok?
    ensures Chain(Chain(xs, steps).value, steps) == Chain(xs, steps)
  {
    var r := Chain(xs, steps).value;
    ChainSurvivorsPass(xs, steps);
    var tests := Tests(steps);
    forall k | 0 <= k < |r|
      ensures All(tests)(r[k]) == Ok(true)
    {
      AllTrue(tests, r[k]);
    }
    SelectKeepsAll(r, All(tests));
    ChainIsConjunction(r, steps);
  }

  /** Filtering by `a` and then by `b` is filtering by `a` followed by `b`
      in one call. */
  lemma {:induction false} ChainAppend<T>(xs: seq<T>, a: seq<Step<T>>, b: seq<Step<T>>)
    ensures Chain(xs, a + b) == (match Chain(xs, a) case Err(e) => Err(e) case Ok(ys) => Chain(ys, b))
    decreases |a|
  {
    if |a| == 0 {
      assert a + b == b;
    } else {
      assert (a + b)[1..] == a[1..] + b;
      assert (a + b)[0] == a[0];
      if a[0].Ok? && Select(xs, a[0].value).Ok? {
        ChainAppend(Select(xs, a[0].value).value, a[1..], b);
      }
    }
  }

  /** An exception no keyword's parse and no test can raise never escapes
      the chain. */
  lemma {:induction false} ChainNeverRaises<T>(xs: seq<T>, steps: seq<Step<T>>, e: Error)
    requires forall j | 0 <= j < |steps| :: steps[j] != Err(e)
    requires forall j, x | 0 <= j < |steps| && steps[j].Ok? :: steps[j].value(x) != Err(e)
    ensures Chain(xs, steps) != Err(e)
    decreases |steps|
  {
    if |steps| > 0 {
      var t := steps[0];
      if t.Ok? {
        if Select(xs, t.value).Err? {
          var i := SelectFirstError(xs, t.value);
        } else {
          assert forall j | 1 <= j < |steps| :: steps[j] == steps[1..][j - 1];
          ChainNeverRaises(Select(xs, t.value).value, steps[1..], e);
        }
      }
    }
  }

  /** Two keyword lists that parse alike and whose tests agree on every
      value narrow every collection alike. */
  lemma {:induction false} ChainCongruent<T>(xs: seq<T>, s1: seq<Step<T>>, s2: seq<Step<T>>)
    requires |s1| == |s2|
    requires forall j | 0 <= j < |s1| :: s1[j].Err? <==> s2[j].Err?
    requires forall j | 0 <= j < |s1| && s1[j].Err? :: s1[j] == s2[j]
    requires forall j, x | 0 <= j < |s1| && s1[j].Ok? && s2[j].Ok? :: s1[j].value(x) == s2[j].value(x)
    ensures Chain(xs, s1) == Chain(xs, s2)
    decreases |s1|
  {
    if |s1| > 0 && s1[0].Ok? {
      SelectCongruent(xs, s1[0].value, s2[0].value);
      var r := Select(xs, s1[0].value);
      if r.Ok? {
        assert forall j | 1 <= j < |s1| :: s1[j] == s1[1..][j - 1] && s2[j] == s2[1..][j - 1];
        ChainCongruent(r.value, s1[1..], s2[1..]);
      }
    }
  }
}
