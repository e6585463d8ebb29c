/** Concrete inputs: the parsing and path examples the repository's tests
    exercise, and inputs on which the two list classes disagree. */
module Scenarios {
  import opened Outcomes
  import opened Strings
  import opened Values
  import opened Selection
  import opened Narrowing
  import FilterList
  import DictList
  import Query

  /** `animal__contains` is the path `animal` with operation `contains`. */
  lemma ParseOperationExample()
    ensures FilterList.GetKeys("animal__contains") == Ok(["animal"])
    ensures FilterList.GetOperation("animal__contains") == Ok("contains")
  {
    UnderscoreFree(["animal"]);
    assert Join(["animal"] + ["contains"]) == "animal__contains";
    FilterList.ParseJoinOperation(["animal"], "contains");
  }

  /** `animal__dog__mammal` is a three-key path with the default operation. */
  lemma ParsePathExample()
    ensures FilterList.GetKeys("animal__dog__mammal") == Ok(["animal", "dog", "mammal"])
    ensures FilterList.GetOperation("animal__dog__mammal") == Ok("exact")
  {
    var keys := ["animal", "dog", "mammal"];
    UnderscoreFree(keys);
    assert Join(keys) == "animal__dog__mammal";
    FilterList.ParseJoinExact(keys);
  }

  /** A misspelt operation, `iexactly`, stays a key of the path. */
  lemma ParseMisspeltExample()
    ensures FilterList.GetKeys("animal__dog__mammal__iexactly") == Ok(["animal", "dog", "mammal", "iexactly"])
    ensures FilterList.GetOperation("animal__dog__mammal__iexactly") == Ok("exact")
  {
    var keys := ["animal", "dog", "mammal", "iexactly"];
    UnderscoreFree(keys);
    assert Join(keys) == "animal__dog__mammal__iexactly";
    FilterList.ParseJoinExact(keys);
  }

  /** The nested dict of the `_get_value` test: a full path reaches the
      leaf, a prefix reaches the sub-dict, a missing key and a path that
      runs past a leaf are both `NotFound`. */
  lemma GetValueExamples()
    ensures
      var dog := map["noises" := VStr("woof")];
      var nested := map["animal" := VDict(map["dog" := VDict(dog)])];
      && FilterList.GetValue(["animal", "dog", "noises"], nested) == Some(VStr("woof"))
      && FilterList.GetValue(["animal", "cat"], nested) == None
      && FilterList.GetValue(["animal", "dog"], nested) == Some(VDict(dog))
      && FilterList.GetValue(["animal", "dog", "noises", "woof"], nested) == None
  {
  }

  /** The record `{'name': 'john'}`. */
  const John: Value := VDict(map["name" := VStr("john")])

  /** A one-keyword filter on a one-record list keeps the record exactly
      when the keyword's verdict on it is true. */
  lemma SingleFilter(steps: seq<Step<Value>>, item: Value, keep: bool)
    requires |steps| == 1 && steps[0].Ok? && steps[0].value(item) == Ok(keep)
    ensures Chain([item], steps) == Ok(if keep then [item] else [])
  {
    var t := steps[0].value;
    assert [item][1..] == [];
    assert Select([item][1..], t) == Ok([]);
    assert [item][0] == item && [item] + [] == [item];
    assert Select([item], t) == Ok(if keep then [item] else []);
    assert steps[1..] == [];
  }

  /** `name__iexact='JOHN'` finds `{'name': 'john'}` in a `FilterList`; a
      `DictList` reads it as field `name` with an unknown operation, falls
      back to equality and finds nothing. */
  lemma IExactDiverges(rx: Regex)
    ensures FilterList.Filter([John], [], [("name__iexact", VStr("JOHN"))], rx) == Ok([John])
    ensures DictList.Filter([John], [], [("name__iexact", VStr("JOHN"))], rx) == Ok([])
  {
    var kw := ("name__iexact", VStr("JOHN"));
    assert !Query.BindsSelf([kw]) by { assert |[kw][0].0| != |"self"|; }
    IExactParsesAsOperation(rx);
    IExactMatchesJohn(rx);
    IExactSplitsAsField(rx);
    SingleFilter(Query.Steps([kw], FilterList.Parse(rx)), John, true);
    SingleFilter(Query.Steps([kw], DictList.Parse(rx)), John, false);
  }

  /** `FilterList` parses `name__iexact` as the path `name` with `iexact`. */
  lemma IExactParsesAsOperation(rx: Regex)
    ensures FilterList.Step(("name__iexact", VStr("JOHN")), rx) == Ok(FilterList.Test(["name"], VStr("JOHN"), "iexact", rx))
  {
    UnderscoreFree(["name"]);
    assert Join(["name"] + ["iexact"]) == "name__iexact";
    FilterList.ParseJoinOperation(["name"], "iexact");
  }

  /** `DictList` splits `name__iexact` into field `name` and operation
      `iexact`, which it compares by equality. */
  lemma IExactSplitsAsField(rx: Regex)
    ensures DictList.Step(("name__iexact", VStr("JOHN")), rx) == Ok(DictList.Test("name", Some("iexact"), VStr("JOHN"), rx))
    ensures DictList.ItemTest(John, "name", Some("iexact"), VStr("JOHN"), rx) == Ok(false)
  {
    assert "iexact" !in DictList.Operations;
    assert "john" != "JOHN";
    UnderscoreFree(["name", "iexact"]);
    DictList.SplitKeyJoin("name", "iexact");
    assert "name" + Sep + "iexact" == "name__iexact";
  }

  /** `iexact` with `JOHN` accepts `{'name': 'john'}`. */
  lemma IExactMatchesJohn(rx: Regex)
    ensures FilterList.ItemTest(John, ["name"], VStr("JOHN"), "iexact", rx) == Ok(true)
  {
    LowerJohn();
  }

  lemma LowerJohn()
    ensures Lower("JOHN") == "john" == Lower("john")
  {
    assert forall i | 0 <= i < 4 :: Lower("JOHN")[i] == "john"[i] == Lower("john")[i];
  }

  /** `name__exact='john'` is the path `name`, `exact` to a `FilterList`,
      which runs into a str and finds nothing; a `DictList` falls back to
      equality on `name` and finds the record. */
  lemma ExactDiverges(rx: Regex)
    ensures FilterList.Filter([John], [], [("name__exact", VStr("john"))], rx) == Ok([])
    ensures DictList.Filter([John], [], [("name__exact", VStr("john"))], rx) == Ok([John])
  {
    var kw := ("name__exact", VStr("john"));
    assert !Query.BindsSelf([kw]) by { assert |[kw][0].0| != |"self"|; }
    ExactVerdicts(rx);
    SingleFilter(Query.Steps([kw], FilterList.Parse(rx)), John, false);
    SingleFilter(Query.Steps([kw], DictList.Parse(rx)), John, true);
  }

  lemma ExactVerdicts(rx: Regex)
    ensures FilterList.Step(("name__exact", VStr("john")), rx) == Ok(FilterList.Test(["name", "exact"], VStr("john"), "exact", rx))
    ensures FilterList.ItemTest(John, ["name", "exact"], VStr("john"), "exact", rx) == Ok(false)
    ensures DictList.Step(("name__exact", VStr("john")), rx) == Ok(DictList.Test("name", Some("exact"), VStr("john"), rx))
    ensures DictList.ItemTest(John, "name", Some("exact"), VStr("john"), rx) == Ok(true)
  {
    UnderscoreFree(["name", "exact"]);
    assert Join(["name", "exact"]) == "name__exact";
    assert "exact" !in FilterList.ValidOperations;
    FilterList.ParseJoinExact(["name", "exact"]);
    DictList.SplitKeyJoin("name", "exact");
  }

  /** Without keywords, `FilterList.get` is a `TypeError`, while
      `DictList.get` returns the only record of a one-record list. */
  lemma GetWithoutKeywords(item: Value, rx: Regex)
    requires item.VDict?
    ensures FilterList.Get([item], [], [], rx) == Err(TypeError)
    ensures DictList.Get([item], [], [], rx) == Ok(item)
  {
  }
}
