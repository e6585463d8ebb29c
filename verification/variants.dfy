/** How the two list classes relate. On flat keywords whose operation both
    understand they filter identically, exceptions included; elsewhere
    they part ways, and the lemmas below name inputs where they do. */
module Variants {
  import opened Outcomes
  import opened Strings
  import opened Values
  import opened Narrowing
  import FilterList
  import DictList
  import Query

  /** A keyword name that both classes read as one field and the same
      operation: a bare field that is not itself an operation name, or
      `field__op` with an operation `DictList` has a branch for. */
  predicate SharedKey(key: string) {
    var parts := Split(key);
    && key != ""
    && |parts| <= 2
    && (|parts| == 1 ==> key !in FilterList.ValidOperations)
    && (|parts| == 2 ==> parts[1] in DictList.Operations)
  }

  /** A bare field is a one-element path with the default operation for
      the first class and a field without operation for the second. */
  lemma ParseBare(key: string)
    requires key != "" && |Split(key)| == 1 && key !in FilterList.ValidOperations
    ensures FilterList.GetKeys(key) == Ok([key])
    ensures FilterList.GetOperation(key) == Ok("exact")
    ensures DictList.SplitKey(key) == Ok((key, None))
  {
    SplitCount(key);
    assert Split(key) == [key];
  }

  /** `field__op` with an operation both classes know is the path `[field]`
      and the operation `op` for both. */
  lemma ParseSuffixed(key: string)
    requires |Split(key)| == 2 && Split(key)[1] in DictList.Operations
    ensures FilterList.GetKeys(key) == Ok([Split(key)[0]])
    ensures FilterList.GetOperation(key) == Ok(Split(key)[1])
    ensures DictList.SplitKey(key) == Ok((Split(key)[0], Some(Split(key)[1])))
  {
    var parts := Split(key);
    SplitCount(key);
    assert Join(parts) == parts[0] + Sep + parts[1];
    assert key != "" by {
      assert |key| >= |Sep|;
    }
    assert parts[..1] == [parts[0]];
  }

  /** The two verdicts agree once the parses agree. */
  lemma SameVerdict(x: Value, field: string, op: string, dop: Option<string>, target: Value, rx: Regex)
    requires (op == "exact" && dop.None?) || (dop == Some(op) && op in DictList.Operations)
    ensures FilterList.ItemTest(x, [field], target, op, rx) == DictList.ItemTest(x, field, dop, target, rx)
  {
    if x.VDict? {
      assert FilterList.GetValue([field], x.fields) ==
        (if field in x.fields then Some(x.fields[field]) else None);
    }
  }

  /** On a shared keyword name both classes parse successfully and reach
      the same verdict on every value. */
  lemma SameStep(kw: Query.Kwarg, rx: Regex)
    requires SharedKey(kw.0)
    ensures FilterList.Step(kw, rx).Ok? && DictList.Step(kw, rx).Ok?
    ensures forall x :: FilterList.Step(kw, rx).value(x) == DictList.Step(kw, rx).value(x)
  {
    var key := kw.0;
    var parts := Split(key);
    var field, op, dop;
    if |parts| == 1 {
      ParseBare(key);
      field, op, dop := key, "exact", None;
    } else {
      ParseSuffixed(key);
      field, op, dop := parts[0], parts[1], Some(parts[1]);
    }
    assert FilterList.Step(kw, rx) == Ok(FilterList.Test([field], kw.1, op, rx));
    assert DictList.Step(kw, rx) == Ok(DictList.Test(field, dop, kw.1, rx));
    forall x
      ensures FilterList.Step(kw, rx).value(x) == DictList.Step(kw, rx).value(x)
    {
      SameVerdict(x, field, op, dop, kw.1, rx);
    }
  }

  /** On keywords that are all shared names, the two `filter` methods return
      the same records or raise the same exception. */
  lemma SameFilter(items: seq<Value>, args: seq<Value>, kwargs: seq<Query.Kwarg>, rx: Regex)
    requires forall j | 0 <= j < |kwargs| :: SharedKey(kwargs[j].0)
    ensures FilterList.Filter(items, args, kwargs, rx) == DictList.Filter(items, args, kwargs, rx)
  {
    if |args| == 0 && !Query.BindsSelf(kwargs) && AllDicts(items) {
      var s1 := Query.Steps(kwargs, FilterList.Parse(rx));
      var s2 := Query.Steps(kwargs, DictList.Parse(rx));
      forall j | 0 <= j < |kwargs|
        ensures s1[j].Ok? && s2[j].Ok?
        ensures forall x :: s1[j].value(x) == s2[j].value(x)
      {
        SameStep(kwargs[j], rx);
      }
      ChainCongruent(items, s1, s2);
    }
  }
}
