/** The older, flat list: `DictList.filter` and `DictList.get`. A keyword
    name is either a bare field or `field__operation`; there is no nesting,
    every verdict requires the field to be present, and any operation not
    in `Operations` (none at all, `iexact`, a misspelling) means equality. */
module DictList {
  import opened Outcomes
  import opened Strings
  import opened Values
  import opened Selection
  import opened Narrowing
  import Query

  /** The operations with a branch of their own. */
  const Operations: seq<string> := ["in", "regex", "contains", "icontains"]

  /** `key, operation = key.split('__')`, done only when the name holds a
      separator; more than one separator fails the two-way unpacking. */
  function SplitKey(key: string): (r: Result<(string, Option<string>)>)
    ensures !HasSep(key) ==> r == Ok((key, None))
    ensures HasSep(key) ==> (r.Ok? <==> |Split(key)| == 2)
    ensures r.Err? ==> r.error == ValueError
    ensures r.Ok? ==> !HasSep(r.value.0)
    ensures r.Ok? && r.value.1.Some? ==>
      r.value.0 + Sep + r.value.1.value == key && !HasSep(r.value.1.value)
    ensures HasSep(key) && r.Ok? ==> r.value == (Split(key)[0], Some(Split(key)[1]))
  {
    if !HasSep(key) then Ok((key, None))
    else
      var parts := Split(key);
      if |parts| != 2 then Err(ValueError)
      else
        assert Join(parts) == parts[0] + Sep + parts[1];
        Ok((parts[0], Some(parts[1])))
  }

  /** A field and an operation joined by the separator split back apart,
      provided the field does not end in `_` and neither holds a separator. */
  lemma SplitKeyJoin(field: string, op: string)
    requires InnerPiece(field) && !HasSep(op)
    ensures SplitKey(field + Sep + op) == Ok((field, Some(op)))
  {
    var key := field + Sep + op;
    assert Join([field, op]) == key;
    SplitJoin([field, op]);
    SplitCount(key);
  }

  /** The verdict on one record: the field must be present, then the
      operation's branch decides; every other operation is equality.
      A non-dict element never gets this far: `filter` copies the list
      first, and the copy's `append` raises `TypeError` on it; the test
      reports that same exception. */
  function ItemTest(item: Value, field: string, op: Option<string>, target: Value, rx: Regex): (r: Result<bool>)
    ensures !item.VDict? ==> r == Err(TypeError)
    ensures item.VDict? && field !in item.fields ==> r == Ok(false)
    ensures item.VDict? && field in item.fields && (op.None? || op.value !in Operations) ==>
      r == Ok(item.fields[field] == target)
    ensures item.VDict? && field in item.fields && op == Some("icontains") ==>
      (r.Ok? <==> target.VStr? && item.fields[field].VStr?)
  {
    if !item.VDict? then Err(TypeError)
    else if field !in item.fields then Ok(false)
    else
      var found := item.fields[field];
      if op == Some("in") then In(found, target)
      else if op == Some("regex") then Search(rx, target, found, false)
      else if op == Some("contains") then In(target, found)
      else if op == Some("icontains") then LowerIn(target, found)
      else Ok(found == target)
  }

  /** `ItemTest` as a function of the record. */
  function Test(field: string, op: Option<string>, target: Value, rx: Regex): Value -> Result<bool> {
    item => ItemTest(item, field, op, target, rx)
  }

  /** One keyword of `filter`: split its name, then test each record. */
  function Step(kw: Query.Kwarg, rx: Regex): Step<Value> {
    var (field, op) :- SplitKey(kw.0);
    Ok(Test(field, op, kw.1, rx))
  }

  /** How this class reads a keyword argument. */
  function Parse(rx: Regex): Query.Parser {
    kw => Step(kw, rx)
  }

  /** `filter(**kwargs)`: the signature admits no positional argument and
      no keyword named `self`, so either is a `TypeError` before the body
      runs; then the shared body of `filter`. */
  function Filter(items: seq<Value>, args: seq<Value>, kwargs: seq<Query.Kwarg>, rx: Regex): (r: Result<seq<Value>>)
    ensures |args| > 0 || Query.BindsSelf(kwargs) || !AllDicts(items) ==> r == Err(TypeError)
    ensures |args| == 0 && !Query.BindsSelf(kwargs) ==> r == Query.Filter(items, kwargs, Parse(rx))
    ensures r.Ok? ==> AllDicts(r.value) && |r.value| <= |items|
  {
    if |args| > 0 || Query.BindsSelf(kwargs) then Err(TypeError)
    else Query.Filter(items, kwargs, Parse(rx))
  }

  /** Every record `filter` returns holds every keyword's field, whatever
      the operation. */
  lemma FilterResultsHaveFields(items: seq<Value>, kwargs: seq<Query.Kwarg>, rx: Regex)
    requires Filter(items, [], kwargs, rx).Ok?
    ensures forall k, j | 0 <= k < |Filter(items, [], kwargs, rx).value| && 0 <= j < |kwargs| ::
      && SplitKey(kwargs[j].0).Ok?
      && Filter(items, [], kwargs, rx).value[k].VDict?
      && SplitKey(kwargs[j].0).value.0 in Filter(items, [], kwargs, rx).value[k].fields
  {
    Query.FilterSurvivorsSatisfy(items, kwargs, Parse(rx));
    var steps := Query.Steps(kwargs, Parse(rx));
    ChainParsed(items, steps);
    forall j | 0 <= j < |kwargs| ensures SplitKey(kwargs[j].0).Ok? {
      assert steps[j].Ok?;
    }
  }

  /** `get(**kwargs)`: a positional argument or a keyword named `self` is
      a `TypeError`; there is no check for an empty keyword list, so `get()`
      on a one-record list returns that record. */
  function Get(items: seq<Value>, args: seq<Value>, kwargs: seq<Query.Kwarg>, rx: Regex): (r: Result<Value>)
    ensures |args| > 0 || Query.BindsSelf(kwargs) ==> r == Err(TypeError)
    ensures |args| == 0 && !Query.BindsSelf(kwargs) ==> r == Query.Get(items, kwargs, Parse(rx))
    ensures |args| == 0 && |kwargs| == 0 && |items| == 1 && items[0].VDict? ==> r == Ok(items[0])
  {
    if |args| > 0 || Query.BindsSelf(kwargs) then Err(TypeError)
    else Query.Get(items, kwargs, Parse(rx))
  }
}
