/** What `filter` and `get` do the same way in both list classes, given how
    a class turns one keyword argument into a per-record test: copy the
    list, narrow the copy keyword by keyword, wrap the survivors in a new
    list; `get` then demands exactly one survivor. */
module Query {
  import opened Outcomes
  import opened Values
  import opened Selection
  import opened Narrowing
  import Collection

  /** A keyword argument: the keyword's name and the value passed with it.
      A call's `**kwargs` is a sequence of them in call order. */
  type Kwarg = (string, Value)

  /** A keyword named `self` collides with the first parameter of `filter`
      and `get`: Python binds the call's arguments before the body runs and
      raises `TypeError` ("got multiple values for argument 'self'"). */
  predicate BindsSelf(kwargs: seq<Kwarg>) {
    exists j | 0 <= j < |kwargs| :: kwargs[j].0 == "self"
  }

  /** How a list class reads one keyword argument. */
  type Parser = Kwarg -> Step<Value>

  /** The keywords of one call, each parsed. */
  function Steps(kwargs: seq<Kwarg>, parse: Parser): (steps: seq<Step<Value>>)
    ensures |steps| == |kwargs|
    ensures forall j | 0 <= j < |kwargs| :: steps[j] == parse(kwargs[j])
  {
    seq(|kwargs|, j requires 0 <= j < |kwargs| => parse(kwargs[j]))
  }

  /** The body of `filter`. `copy(self)` rebuilds the list through the
      class's own `append`, which rejects a non-dict element with a
      `TypeError`, so a list whose invariant was broken fails before any
      keyword is read. The survivors are wrapped in a new list, which
      checks the invariant again. */
  function Filter(items: seq<Value>, kwargs: seq<Kwarg>, parse: Parser): (r: Result<seq<Value>>)
    ensures !AllDicts(items) ==> r == Err(TypeError)
    ensures AllDicts(items) ==> r == Chain(items, Steps(kwargs, parse))
    ensures AllDicts(items) && |kwargs| == 0 ==> r == Ok(items)
    ensures r.Ok? ==> AllDicts(r.value) && |r.value| <= |items|
  {
    if !AllDicts(items) then Err(TypeError)
    else
      var filtered :- Chain(items, Steps(kwargs, parse));
      assert AllDicts(filtered) by {
        var idx := ChainSelects(items, Steps(kwargs, parse));
      }
      Collection.New([VList(filtered)])
  }

  /** The record satisfies keyword `kw`: its name parses and the verdict on
      the record is true. */
  ghost predicate Satisfies(item: Value, kw: Kwarg, parse: Parser) {
    parse(kw).Ok? && parse(kw).value(item) == Ok(true)
  }

  /** A successful `filter` keeps exactly the records that satisfy every
      keyword, in their original order. */
  lemma FilterSelects(items: seq<Value>, kwargs: seq<Kwarg>, parse: Parser) returns (idx: seq<int>)
    requires Filter(items, kwargs, parse).Ok?
    ensures Embeds(Filter(items, kwargs, parse).value, items, idx)
    ensures forall i | 0 <= i < |items| ::
      i in idx <==> forall j | 0 <= j < |kwargs| :: Satisfies(items[i], kwargs[j], parse)
  {
    var steps := Steps(kwargs, parse);
    idx := ChainSelects(items, steps);
  }

  /** Every record a successful `filter` returns satisfies every keyword. */
  lemma FilterSurvivorsSatisfy(items: seq<Value>, kwargs: seq<Kwarg>, parse: Parser)
    requires Filter(items, kwargs, parse).Ok?
    ensures forall k, j | 0 <= k < |Filter(items, kwargs, parse).value| && 0 <= j < |kwargs| ::
      Satisfies(Filter(items, kwargs, parse).value[k], kwargs[j], parse)
  {
    ChainSurvivorsPass(items, Steps(kwargs, parse));
  }

  /** `filter` is idempotent: filtering its result by the same keywords
      returns that result again. */
  lemma FilterIdempotent(items: seq<Value>, kwargs: seq<Kwarg>, parse: Parser)
    requires Filter(items, kwargs, parse).Ok?
    ensures Filter(Filter(items, kwargs, parse).value, kwargs, parse) == Filter(items, kwargs, parse)
  {
    ChainIdempotent(items, Steps(kwargs, parse));
  }

  /** Filtering by `a` and then filtering the result by `b` equals one
      filter by the keywords of `a` followed by those of `b`, exceptions
      included. */
  lemma FilterChaining(items: seq<Value>, a: seq<Kwarg>, b: seq<Kwarg>, parse: Parser)
    ensures Filter(items, a + b, parse) ==
      (match Filter(items, a, parse) case Err(e) => Err(e) case Ok(ys) => Filter(ys, b, parse))
  {
    if AllDicts(items) {
      assert Steps(a + b, parse) == Steps(a, parse) + Steps(b, parse);
      ChainAppend(items, Steps(a, parse), Steps(b, parse));
    }
  }

  /** The body of `get` after its argument checks: `filter` must find
      exactly one record. */
  function Get(items: seq<Value>, kwargs: seq<Kwarg>, parse: Parser): (r: Result<Value>)
    ensures match Filter(items, kwargs, parse)
      case Err(e) => r == Err(e)
      case Ok(found) =>
        && (|found| == 0 ==> r == Err(NotFound))
        && (|found| > 1 ==> r == Err(MultipleFound))
        && (|found| == 1 ==> r == Ok(found[0]))
  {
    var found :- Filter(items, kwargs, parse);
    if |found| == 0 then Err(NotFound)
    else if |found| != 1 then Err(MultipleFound)
    else Ok(found[0])
  }

  /** A successful `get` returns the one record of the list that satisfies
      every keyword; every other position fails some keyword. */
  lemma GetUnique(items: seq<Value>, kwargs: seq<Kwarg>, parse: Parser) returns (i: int)
    requires Get(items, kwargs, parse).Ok?
    ensures 0 <= i < |items| && items[i] == Get(items, kwargs, parse).value
    ensures forall j | 0 <= j < |kwargs| :: Satisfies(items[i], kwargs[j], parse)
    ensures forall i' | 0 <= i' < |items| && i' != i ::
      exists j | 0 <= j < |kwargs| :: !Satisfies(items[i'], kwargs[j], parse)
  {
    var idx := FilterSelects(items, kwargs, parse);
    i := idx[0];
    assert i in idx;
    forall i' | 0 <= i' < |items| && i' != i
      ensures exists j | 0 <= j < |kwargs| :: !Satisfies(items[i'], kwargs[j], parse)
    {
      assert i' !in idx;
    }
  }
}
