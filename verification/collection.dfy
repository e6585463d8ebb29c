/** The element invariant both list classes keep at their mutation
    boundary: the constructor, `append` and `__setitem__` (the code is the
    same in the two classes). A collection is an immutable sequence; each
    mutation returns the new contents. */
module Collection {
  import opened Outcomes
  import opened Values

  /** What `list(v)` accepts: the iterable values of this model. */
  predicate Iterable(v: Value) {
    v.VStr? || v.VList? || v.VDict?
  }

  /** `list(v)` would hold something other than a dict: a list element that
      is not a dict, a one-character string of a non-empty str, or a key of
      a non-empty dict. */
  predicate HasNonDictElement(v: Value)
    requires Iterable(v)
  {
    match v
    case VList(xs) => !AllDicts(xs)
    case VStr(s) => |s| > 0
    case VDict(m) => |m| > 0
  }

  /** `list(v)` for an iterable whose elements are all dicts. */
  function DictElements(v: Value): (xs: seq<Value>)
    requires Iterable(v) && !HasNonDictElement(v)
    ensures AllDicts(xs)
    ensures v.VList? ==> xs == v.elems
    ensures !v.VList? ==> xs == []
  {
    if v.VList? then v.elems else []
  }

  /** `FilterList(*args)` / `DictList(*args)`: `list(*args)` followed by the
      all-dicts check. */
  function New(args: seq<Value>): (r: Result<seq<Value>>)
    ensures r.Ok? ==> AllDicts(r.value)
    ensures |args| == 0 ==> r == Ok([])
    ensures |args| > 1 ==> r == Err(TypeError)
    ensures |args| == 1 && args[0].VList? ==>
      r == (if AllDicts(args[0].elems) then Ok(args[0].elems) else Err(InvalidList))
    ensures r == Err(InvalidList) <==> |args| == 1 && Iterable(args[0]) && HasNonDictElement(args[0])
    ensures |args| == 1 && !Iterable(args[0]) ==> r == Err(TypeError)
    ensures |args| == 1 && Iterable(args[0]) && !HasNonDictElement(args[0]) ==> r == Ok(DictElements(args[0]))
  {
    if |args| == 0 then Ok([])
    else if |args| > 1 || !Iterable(args[0]) then Err(TypeError)
    else if HasNonDictElement(args[0]) then Err(InvalidList)
    else Ok(DictElements(args[0]))
  }

  /** `append(value)`: only a dict may be appended. */
  function Append(xs: seq<Value>, v: Value): (r: Result<seq<Value>>)
    ensures r.Ok? <==> v.VDict?
    ensures r.Err? ==> r.error == TypeError
    ensures r.Ok? ==> |r.value| == |xs| + 1 && r.value[..|xs|] == xs && r.value[|xs|] == v
    ensures AllDicts(xs) && r.Ok? ==> AllDicts(r.value)
  {
    if v.VDict? then Ok(xs + [v]) else Err(TypeError)
  }

  /** The subscript of `self[key] = value`: an index or a slice without a step. */
  datatype Subscript = Index(i: int) | Slice(lo: Option<int>, hi: Option<int>)

  /** One end of a slice, made non-negative and clamped to `[0, n]`;
      a negative bound counts from the end. */
  function SliceBound(n: nat, bound: Option<int>, default: nat): (b: nat)
    requires default <= n
    ensures b <= n
    ensures bound.Some? && 0 <= bound.value <= n ==> b == bound.value
    ensures bound.Some? && -(n as int) <= bound.value < 0 ==> b == bound.value + n
    ensures bound.Some? && bound.value > n ==> b == n
    ensures bound.Some? && bound.value < -(n as int) ==> b == 0
    ensures bound.None? ==> b == default
  {
    match bound
    case None => default
    case Some(k) =>
      if k < 0 then (if k + n < 0 then 0 else k + n)
      else if k > n then n
      else k
  }

  /** The range `[lo, hi)` a slice assignment replaces: the start defaults
      to 0 and the stop to `n`; a stop before the start makes the empty
      range at the start, where the new elements are inserted. */
  function SliceRange(n: nat, lo: Option<int>, hi: Option<int>): (r: (nat, nat))
    ensures r.0 <= r.1 <= n
    ensures r.0 == SliceBound(n, lo, 0)
    ensures SliceBound(n, hi, n) >= r.0 ==> r.1 == SliceBound(n, hi, n)
    ensures SliceBound(n, hi, n) < r.0 ==> r.1 == r.0
  {
    var a := SliceBound(n, lo, 0);
    var b := SliceBound(n, hi, n);
    if b < a then (a, a) else (a, b)
  }

  /** An index inside a list of length `n`, counting from the end when negative. */
  predicate InRange(n: nat, i: int) {
    -(n as int) <= i < n
  }

  /** `__setitem__` with the check applied to what is actually stored: an
      index receives one dict; a slice receives the elements of an iterable,
      and each of them must be a dict. */
  function SetItem(xs: seq<Value>, key: Subscript, v: Value): (r: Result<seq<Value>>)
    ensures key.Index? ==> (r.Ok? <==> v.VDict? && InRange(|xs|, key.i))
    ensures key.Index? && !v.VDict? ==> r == Err(TypeError)
    ensures key.Index? && v.VDict? && !InRange(|xs|, key.i) ==> r == Err(IndexError)
    ensures key.Index? && r.Ok? ==>
      var k := if key.i < 0 then key.i + |xs| else key.i;
      && |r.value| == |xs| && r.value[k] == v
      && forall j | 0 <= j < |xs| && j != k :: r.value[j] == xs[j]
    ensures key.Slice? ==> (r.Ok? <==> Iterable(v) && !HasNonDictElement(v))
    ensures key.Slice? && r.Ok? ==>
      var (a, b) := SliceRange(|xs|, key.lo, key.hi);
      r.value == xs[..a] + DictElements(v) + xs[b..]
    ensures r.Err? ==> r.error in {TypeError, IndexError}
    ensures AllDicts(xs) && r.Ok? ==> AllDicts(r.value)
  {
    match key
    case Index(i) =>
      if !v.VDict? then Err(TypeError)
      else if !InRange(|xs|, i) then Err(IndexError)
      else Ok(xs[(if i < 0 then i + |xs| else i) := v])
    case Slice(lo, hi) =>
      if !Iterable(v) || HasNonDictElement(v) then Err(TypeError)
      else
        var (a, b) := SliceRange(|xs|, lo, hi);
        Ok(xs[..a] + DictElements(v) + xs[b..])
  }

  /** The keys of a dict in some iteration order (the map does not record
      the insertion order Python would use). */
  ghost function KeyOrder(keys: set<string>): (ks: seq<string>)
    ensures |ks| == |keys|
    ensures forall k :: k in ks <==> k in keys
    decreases keys
  {
    if keys == {} then []
    else
      var k :| k in keys;
      [k] + KeyOrder(keys - {k})
  }

  /** `__setitem__` as the classes write it: the dict check is applied to
      the assigned value itself. For a slice, the list then stores the
      ELEMENTS of that dict, which are its keys. */
  ghost function SetItemAsWritten(xs: seq<Value>, key: Subscript, v: Value): (r: Result<seq<Value>>)
    ensures r.Ok? <==> v.VDict? && (key.Index? ==> InRange(|xs|, key.i))
    ensures !v.VDict? ==> r == Err(TypeError)
    ensures key.Index? && v.VDict? && !InRange(|xs|, key.i) ==> r == Err(IndexError)
    ensures key.Index? && r.Ok? ==>
      var k := if key.i < 0 then key.i + |xs| else key.i;
      && |r.value| == |xs| && r.value[k] == v
      && forall j | 0 <= j < |xs| && j != k :: r.value[j] == xs[j]
    ensures key.Slice? && r.Ok? ==>
      var (a, b) := SliceRange(|xs|, key.lo, key.hi);
      && |r.value| == a + |v.fields| + (|xs| - b)
      && r.value[..a] == xs[..a] && r.value[a + |v.fields|..] == xs[b..]
      && forall j | a <= j < a + |v.fields| :: r.value[j].VStr? && r.value[j].s in v.fields
    ensures key.Slice? && r.Ok? ==>
      var (a, b) := SliceRange(|xs|, key.lo, key.hi);
      forall k | k in v.fields :: VStr(k) in r.value[a..a + |v.fields|]
  {
    if !v.VDict? then Err(TypeError)
    else match key
      case Index(i) =>
        if !InRange(|xs|, i) then Err(IndexError)
        else Ok(xs[(if i < 0 then i + |xs| else i) := v])
      case Slice(lo, hi) =>
        var (a, b) := SliceRange(|xs|, lo, hi);
        var ks := KeyOrder(v.fields.Keys);
        var stored := seq(|ks|, j requires 0 <= j < |ks| => VStr(ks[j]));
        assert forall k | k in v.fields :: VStr(k) in stored by {
          forall k | k in v.fields ensures VStr(k) in stored {
            var j :| 0 <= j < |ks| && ks[j] == k;
            assert stored[j] == VStr(k);
          }
        }
        Ok(xs[..a] + stored + xs[b..])
  }

  /** The as-written slice path breaks the invariant: assigning a non-empty
      dict to a slice stores its keys, which are strings, not dicts. */
  lemma SliceAssignmentStoresKeys(xs: seq<Value>, lo: Option<int>, hi: Option<int>, m: Record)
    requires |m| > 0
    ensures SetItemAsWritten(xs, Slice(lo, hi), VDict(m)).Ok?
    ensures !AllDicts(SetItemAsWritten(xs, Slice(lo, hi), VDict(m)).value)
  {
    var r := SetItemAsWritten(xs, Slice(lo, hi), VDict(m)).value;
    var (a, b) := SliceRange(|xs|, lo, hi);
    assert !r[a].VDict?;
  }

  /** ... and it refuses a list of dicts, which would keep the invariant. */
  lemma SliceAssignmentRejectsDictList(xs: seq<Value>, lo: Option<int>, hi: Option<int>, ds: seq<Value>)
    requires AllDicts(ds)
    ensures SetItemAsWritten(xs, Slice(lo, hi), VList(ds)) == Err(TypeError)
    ensures SetItem(xs, Slice(lo, hi), VList(ds)).Ok?
  {
  }
}
