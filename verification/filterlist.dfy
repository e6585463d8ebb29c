/** The nested-lookup list: `FilterList.filter` and `FilterList.get`. A
    keyword name such as `facts__movie__icontains` is split on `__`; the
    last piece is the operation when it is one of `ValidOperations`, and
    the remaining pieces are a path through nested dicts. */
module FilterList {
  import opened Outcomes
  import opened Strings
  import opened Values
  import opened Selection
  import opened Narrowing
  import Query

  /** The suffixes recognised as operations. `exact` is the default and is
      deliberately not among them, so `name__exact` is a two-key path. */
  const ValidOperations: seq<string> := ["in", "regex", "iregex", "contains", "icontains", "iexact"]

  /** The last `__`-piece of a key string. */
  function LastPiece(keyString: string): string {
    var pieces := Split(keyString);
    pieces[|pieces| - 1]
  }

  /** `_get_keys`: the pieces of the key string, without the last one when
      that is an operation; an empty key string fails the assertion. */
  function GetKeys(keyString: string): (r: Result<seq<string>>)
    ensures r.Err? <==> keyString == ""
    ensures r.Err? ==> r.error == AssertionError
    ensures r.Ok? && LastPiece(keyString) in ValidOperations ==>
      r.value + [LastPiece(keyString)] == Split(keyString)
    ensures r.Ok? && LastPiece(keyString) !in ValidOperations ==> r.value == Split(keyString)
  {
    if keyString == "" then Err(AssertionError)
    else
      var keys := Split(keyString);
      if keys[|keys| - 1] in ValidOperations then Ok(keys[..|keys| - 1]) else Ok(keys)
  }

  /** `_get_operation`: the last piece when it is an operation, else `exact`. */
  function GetOperation(keyString: string): (r: Result<string>)
    ensures r.Err? <==> keyString == ""
    ensures r.Err? ==> r.error == AssertionError
    ensures r.Ok? ==> r.value == "exact" || r.value in ValidOperations
    ensures r.Ok? && LastPiece(keyString) in ValidOperations ==> r.value == LastPiece(keyString)
    ensures r.Ok? && LastPiece(keyString) !in ValidOperations ==> r.value == "exact"
  {
    if keyString == "" then Err(AssertionError)
    else
      var keys := Split(keyString);
      if keys[|keys| - 1] in ValidOperations then Ok(keys[|keys| - 1]) else Ok("exact")
  }

  /** Parsing loses nothing: the key path, followed by the operation unless
      it is the default, joins back into the key string; a default
      operation means the path does not end in an operation name. */
  lemma ParseRoundTrip(keyString: string)
    requires keyString != ""
    ensures GetKeys(keyString).Ok? && GetOperation(keyString).Ok?
    ensures
      var keys, op := GetKeys(keyString).value, GetOperation(keyString).value;
      if op == "exact" then
        |keys| > 0 && keys[|keys| - 1] !in ValidOperations && Join(keys) == keyString
      else
        op in ValidOperations && Join(keys + [op]) == keyString
  {
    var pieces := Split(keyString);
    if pieces[|pieces| - 1] in ValidOperations {
      assert pieces[..|pieces| - 1] + [pieces[|pieces| - 1]] == pieces;
    }
  }

  /** The operation names hold no separator, so a path followed by one of
      them splits back apart at the right place. */
  lemma OperationsAreSinglePieces()
    ensures forall op | op in ValidOperations :: !HasSep(op) && op != ""
  {
    forall op | op in ValidOperations ensures !HasSep(op) {
      forall i | 0 <= i < |op| ensures !SepAt(op, i) {
      }
    }
  }

  /** Conversely, a path followed by an operation parses back into that
      path and that operation. With no path at all, the key string is the
      bare operation name and the path is empty. */
  lemma ParseJoinOperation(keys: seq<string>, op: string)
    requires op in ValidOperations
    requires forall i | 0 <= i < |keys| :: InnerPiece(keys[i])
    ensures GetKeys(Join(keys + [op])) == Ok(keys)
    ensures GetOperation(Join(keys + [op])) == Ok(op)
  {
    OperationsAreSinglePieces();
    var parts := keys + [op];
    assert forall i | 0 <= i < |parts| - 1 :: parts[i] == keys[i];
    SplitJoin(parts);
    JoinNonEmpty(parts);
    assert parts[..|parts| - 1] == keys;
    ParseSplit(Join(parts), parts);
  }

  /** `GetKeys` and `GetOperation` only look at the pieces of the key string. */
  lemma ParseSplit(s: string, pieces: seq<string>)
    requires s != "" && Split(s) == pieces
    ensures pieces[|pieces| - 1] in ValidOperations ==>
      GetKeys(s) == Ok(pieces[..|pieces| - 1]) && GetOperation(s) == Ok(pieces[|pieces| - 1])
    ensures pieces[|pieces| - 1] !in ValidOperations ==>
      GetKeys(s) == Ok(pieces) && GetOperation(s) == Ok("exact")
  {
  }

  /** Two or more pieces, or one non-empty piece, join into a non-empty string. */
  lemma JoinNonEmpty(parts: seq<string>)
    requires |parts| > 1 || (|parts| == 1 && parts[0] != "")
    ensures Join(parts) != ""
  {
    if |parts| > 1 {
      assert Join(parts) == parts[0] + Sep + Join(parts[1..]);
    }
  }

  /** ... and a path whose last key is not an operation name parses back
      into itself with the default operation. */
  lemma ParseJoinExact(keys: seq<string>)
    requires |keys| > 0 && keys != [""]
    requires keys[|keys| - 1] !in ValidOperations && !HasSep(keys[|keys| - 1])
    requires forall i | 0 <= i < |keys| - 1 :: InnerPiece(keys[i])
    ensures GetKeys(Join(keys)) == Ok(keys)
    ensures GetOperation(Join(keys)) == Ok("exact")
  {
    SplitJoin(keys);
    JoinNonEmpty(keys);
    ParseSplit(Join(keys), keys);
  }

  /** `_get_value`: walks the path through nested dicts. `None` stands for
      the `NotFound` exception: a key is missing, or a value before the
      last key is not a dict. An empty path falls off the loop and yields
      Python's `None`. */
  function GetValue(keys: seq<string>, d: Record): (r: Option<Value>)
    ensures |keys| == 0 ==> r == Some(VNone)
    ensures |keys| > 0 && keys[0] !in d ==> r == None
    ensures |keys| == 1 && keys[0] in d ==> r == Some(d[keys[0]])
    decreases |keys|
  {
    if |keys| == 0 then Some(VNone)
    else if keys[0] !in d then None
    else if |keys| == 1 then Some(d[keys[0]])
    else match d[keys[0]]
      case VDict(inner) => GetValue(keys[1..], inner)
      case _ => None
  }

  /** Resolving `p + q` resolves `p` to a sub-dict and then `q` inside it;
      resolving a proper prefix of a path yields the sub-dict it leads to. */
  lemma {:induction false} GetValueAppend(p: seq<string>, q: seq<string>, d: Record)
    requires |p| > 0 && |q| > 0
    ensures GetValue(p + q, d) ==
      (match GetValue(p, d) case Some(VDict(inner)) => GetValue(q, inner) case _ => None)
    decreases |p|
  {
    assert (p + q)[0] == p[0];
    if p[0] in d && |p| > 1 {
      assert (p + q)[1..] == p[1..] + q;
      if d[p[0]].VDict? {
        GetValueAppend(p[1..], q, d[p[0]].fields);
      }
    }
  }

  /** `NotFound` is raised exactly when some step of the walk fails: the
      key is missing from the dict reached so far, or that value is not a dict. */
  lemma {:induction false} GetValueNotFound(keys: seq<string>, d: Record)
    requires |keys| > 0
    ensures GetValue(keys, d) == None <==>
      exists j | 0 <= j < |keys| :: StepFails(keys, d, j)
    decreases |keys|
  {
    if keys[0] !in d {
      assert StepFails(keys, d, 0);
    } else if |keys| > 1 {
      var v := d[keys[0]];
      if v.VDict? {
        GetValueNotFound(keys[1..], v.fields);
        if GetValue(keys, d) == None {
          var j :| 0 <= j < |keys| - 1 && StepFails(keys[1..], v.fields, j);
          StepFailsShift(keys, d, j + 1);
          assert StepFails(keys, d, j + 1);
        } else {
          forall j | 0 <= j < |keys| ensures !StepFails(keys, d, j) {
            if j > 0 {
              StepFailsShift(keys, d, j);
            }
          }
        }
      } else {
        assert keys[..1] == [keys[0]];
        assert StepFails(keys, d, 1);
      }
    } else {
      forall j | 0 <= j < |keys| ensures !StepFails(keys, d, j) {
      }
    }
  }

  /** Step `j` of the walk fails: the value reached after `j` keys is not a
      dict holding `keys[j]`. */
  ghost predicate StepFails(keys: seq<string>, d: Record, j: int)
    requires 0 <= j < |keys|
  {
    if j == 0 then keys[0] !in d
    else match GetValue(keys[..j], d)
      case Some(VDict(inner)) => keys[j] !in inner
      case Some(_) => true
      case None => false
  }

  lemma StepFailsShift(keys: seq<string>, d: Record, j: int)
    requires 0 < j < |keys| && keys[0] in d && d[keys[0]].VDict?
    ensures StepFails(keys, d, j) == StepFails(keys[1..], d[keys[0]].fields, j - 1)
  {
    var inner := d[keys[0]].fields;
    if j > 1 {
      GetValueAppend([keys[0]], keys[1..j], d);
      assert [keys[0]] + keys[1..j] == keys[..j];
      assert keys[1..][..j - 1] == keys[1..j];
    }
  }

  /** One record's verdict for one operation, given the value its path
      resolved to: the `if`/`elif` chain of `_get_filtered_list`. */
  function Matches(op: string, found: Value, target: Value, rx: Regex): (r: Result<bool>)
    ensures op == "exact" ==> r == Ok(found == target)
    ensures op == "iexact" ==> (r.Ok? <==> found.VStr? && target.VStr?)
    ensures op == "iexact" && r.Ok? ==> r.value == (Lower(found.s) == Lower(target.s))
    ensures op == "iexact" && r.Err? ==> r.error == AttributeError
    ensures op == "in" ==> r == In(found, target)
    ensures op == "contains" ==> r == In(target, found)
    ensures op == "icontains" ==> (r.Ok? <==> found.VStr? && target.VStr?)
    ensures op == "icontains" && r.Ok? ==> r.value == IsSubstring(Lower(target.s), Lower(found.s))
    ensures op == "icontains" ==> r == LowerIn(target, found)
    ensures op == "regex" ==> r == Search(rx, target, found, false)
    ensures op == "iregex" ==> r == Search(rx, target, found, true)
    ensures r == Err(InvalidOperation) <==> op != "exact" && op !in ValidOperations
  {
    if op == "exact" then Ok(found == target)
    else if op == "iexact" then
      var f :- LowerOf(found);
      var t :- LowerOf(target);
      Ok(f == t)
    else if op == "in" then In(found, target)
    else if op == "regex" then Search(rx, target, found, false)
    else if op == "iregex" then Search(rx, target, found, true)
    else if op == "contains" then In(target, found)
    else if op == "icontains" then LowerIn(target, found)
    else Err(InvalidOperation)
  }

  /** The verdict on one record: a path that does not resolve excludes the
      record, whatever the operation and target; otherwise `Matches` decides.
      A non-dict element never gets this far: `filter` copies the list
      first, and the copy's `append` raises `TypeError` on it; the test
      reports that same exception. */
  function ItemTest(item: Value, keys: seq<string>, target: Value, op: string, rx: Regex): (r: Result<bool>)
    ensures !item.VDict? ==> r == Err(TypeError)
    ensures item.VDict? && GetValue(keys, item.fields) == None ==> r == Ok(false)
    ensures item.VDict? && GetValue(keys, item.fields).Some? ==>
      r == Matches(op, GetValue(keys, item.fields).value, target, rx)
  {
    if !item.VDict? then Err(TypeError)
    else match GetValue(keys, item.fields)
      case None => Ok(false)
      case Some(found) => Matches(op, found, target, rx)
  }

  /** `ItemTest` as a function of the record. */
  function Test(keys: seq<string>, target: Value, op: string, rx: Regex): Value -> Result<bool> {
    item => ItemTest(item, keys, target, op, rx)
  }

  /** `_get_filtered_list`: the records of `items` whose verdict is true, in
      order; the first exception a verdict raises escapes. */
  function GetFilteredList(items: seq<Value>, keys: seq<string>, target: Value, op: string, rx: Regex): (r: Result<seq<Value>>)
    ensures r.Ok? <==> forall i | 0 <= i < |items| :: ItemTest(items[i], keys, target, op, rx).Ok?
    ensures r.Ok? ==> forall k | 0 <= k < |r.value| :: ItemTest(r.value[k], keys, target, op, rx) == Ok(true)
  {
    Select(items, Test(keys, target, op, rx))
  }

  /** `exact` against `None` tells a present `None` from an absent key:
      it matches exactly when the path resolves, and to `None`. */
  lemma ExactNone(item: Value, keys: seq<string>, rx: Regex)
    requires item.VDict?
    ensures ItemTest(item, keys, VNone, "exact", rx) == Ok(GetValue(keys, item.fields) == Some(VNone))
  {
  }

  /** `iexact` ignores case on both sides: lower-casing the record's value
      or the target first changes no verdict. */
  lemma IExactIgnoresCase(found: string, target: string, rx: Regex)
    ensures Matches("iexact", VStr(Lower(found)), VStr(target), rx) == Matches("iexact", VStr(found), VStr(target), rx)
    ensures Matches("iexact", VStr(found), VStr(Lower(target)), rx) == Matches("iexact", VStr(found), VStr(target), rx)
  {
    LowerIdempotent(found);
    LowerIdempotent(target);
  }

  /** A keyword named just after an operation has an empty path, so every
      record is judged on Python's `None`, present or not. */
  lemma OperationNameAsKey(op: string, target: Value, item: Value, rx: Regex)
    requires op in ValidOperations && item.VDict?
    ensures Step((op, target), rx).Ok?
    ensures Step((op, target), rx).value(item) == Matches(op, VNone, target, rx)
  {
    OperationsAreSinglePieces();
    ParseJoinOperation([], op);
  }

  /** Hence a keyword named `in` with target `[None]` keeps the whole list. */
  lemma InNoneKeepsAll(items: seq<Value>, rx: Regex)
    requires AllDicts(items)
    ensures Filter(items, [], [("in", VList([VNone]))], rx) == Ok(items)
  {
    var kw := ("in", VList([VNone]));
    forall i | 0 <= i < |items| ensures Step(kw, rx).value(items[i]) == Ok(true) {
      OperationNameAsKey("in", kw.1, items[i], rx);
    }
    SelectKeepsAll(items, Step(kw, rx).value);
    assert Query.Steps([kw], Parse(rx))[1..] == [];
  }

  /** One keyword of `filter`: parse its name, then test each record. */
  function Step(kw: Query.Kwarg, rx: Regex): Step<Value> {
    var keys :- GetKeys(kw.0);
    Ok(Test(keys, kw.1, GetOperation(kw.0).value, rx))
  }

  /** How this class reads a keyword argument. */
  function Parse(rx: Regex): Query.Parser {
    kw => Step(kw, rx)
  }

  /** `filter(*args, **kwargs)`: a keyword named `self` fails when the call
      binds its arguments, and positional arguments are a `TypeError`,
      checked before anything else; then the shared body of `filter`. */
  function Filter(items: seq<Value>, args: seq<Value>, kwargs: seq<Query.Kwarg>, rx: Regex): (r: Result<seq<Value>>)
    ensures |args| > 0 || Query.BindsSelf(kwargs) || !AllDicts(items) ==> r == Err(TypeError)
    ensures |args| == 0 && !Query.BindsSelf(kwargs) ==> r == Query.Filter(items, kwargs, Parse(rx))
    ensures r.Ok? ==> AllDicts(r.value) && |r.value| <= |items|
  {
    if Query.BindsSelf(kwargs) || |args| > 0 then Err(TypeError)
    else Query.Filter(items, kwargs, Parse(rx))
  }

  /** Every record `filter` returns resolves every keyword's path: a record
      lacking a key is never returned, even when the target is `None`. */
  lemma FilterResultsResolve(items: seq<Value>, kwargs: seq<Query.Kwarg>, rx: Regex)
    requires Filter(items, [], kwargs, rx).Ok?
    ensures forall k, j | 0 <= k < |Filter(items, [], kwargs, rx).value| && 0 <= j < |kwargs| ::
      && kwargs[j].0 != ""
      && Filter(items, [], kwargs, rx).value[k].VDict?
      && GetValue(GetKeys(kwargs[j].0).value, Filter(items, [], kwargs, rx).value[k].fields).Some?
  {
    Query.FilterSurvivorsSatisfy(items, kwargs, Parse(rx));
    var steps := Query.Steps(kwargs, Parse(rx));
    ChainParsed(items, steps);
    forall j | 0 <= j < |kwargs| ensures kwargs[j].0 != "" {
      assert steps[j].Ok?;
    }
  }

  /** The final `else` of `_get_filtered_list` is dead: the parsed
      operation is always one the chain handles. */
  lemma FilterNeverInvalidOperation(items: seq<Value>, args: seq<Value>, kwargs: seq<Query.Kwarg>, rx: Regex)
    ensures Filter(items, args, kwargs, rx) != Err(InvalidOperation)
  {
    if |args| == 0 && !Query.BindsSelf(kwargs) && AllDicts(items) {
      var steps := Query.Steps(kwargs, Parse(rx));
      forall j, x | 0 <= j < |steps| && steps[j].Ok?
        ensures steps[j].value(x) != Err(InvalidOperation)
      {
        var kw := kwargs[j];
        var op := GetOperation(kw.0).value;
        assert steps[j].value(x) == ItemTest(x, GetKeys(kw.0).value, kw.1, op, rx);
      }
      ChainNeverRaises(items, steps, InvalidOperation);
    }
  }

  /** `get(*args, **kwargs)`: a keyword named `self`, positional arguments
      or no keywords are a `TypeError`, checked before `filter` runs; then
      the shared body of `get`. */
  function Get(items: seq<Value>, args: seq<Value>, kwargs: seq<Query.Kwarg>, rx: Regex): (r: Result<Value>)
    ensures |args| > 0 || |kwargs| == 0 || Query.BindsSelf(kwargs) ==> r == Err(TypeError)
    ensures |args| == 0 && |kwargs| > 0 && !Query.BindsSelf(kwargs) ==> r == Query.Get(items, kwargs, Parse(rx))
  {
    if Query.BindsSelf(kwargs) || |args| > 0 then Err(TypeError)
    else if |kwargs| == 0 then Err(TypeError)
    else Query.Get(items, kwargs, Parse(rx))
  }
}
