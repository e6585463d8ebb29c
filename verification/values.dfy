/** Python values as the two collection classes see them, and the pieces
    of Python's runtime semantics their predicates use: `==`, `in`,
    `str.lower()` and `re.search`. */
module Values {
  import opened Outcomes
  import opened Strings

  /** A Python value. Numbers are integers only and `bool` stays distinct
      from `int`; dicts are keyed by strings, as keyword lookups are. */
  datatype Value =
    | VNone
    | VBool(b: bool)
    | VInt(i: int)
    | VStr(s: string)
    | VList(elems: seq<Value>)
    | VDict(fields: map<string, Value>)

  /** A record: the dict every collection element must be. */
  type Record = map<string, Value>

  /** The element invariant of both collection classes: every element is a dict. */
  predicate AllDicts(xs: seq<Value>) {
    forall i | 0 <= i < |xs| :: xs[i].VDict?
  }

  /** Python's `x in c`: substring test on a str, element test on a list,
      key test on a dict. Membership in anything else, a non-str left
      operand of a str test and an unhashable key raise `TypeError`. */
  function In(x: Value, c: Value): (r: Result<bool>)
    ensures r.Err? ==> r.error == TypeError
    ensures c.VList? ==> r == Ok(x in c.elems)
    ensures c.VStr? && x.VStr? ==> r == Ok(IsSubstring(x.s, c.s))
    ensures c.VDict? && r.Ok? ==> r.value == (x.VStr? && x.s in c.fields)
    ensures r.Ok? <==> (c.VStr? && x.VStr?) || c.VList? || (c.VDict? && !x.VList? && !x.VDict?)
  {
    match c
    case VStr(s) => if x.VStr? then Ok(IsSubstring(x.s, s)) else Err(TypeError)
    case VList(xs) => Ok(x in xs)
    case VDict(m) =>
      if x.VList? || x.VDict? then Err(TypeError)
      else Ok(x.VStr? && x.s in m)
    case _ => Err(TypeError)
  }

  /** Python's `v.lower()`: only a str has the method. */
  function LowerOf(v: Value): (r: Result<string>)
    ensures r.Ok? <==> v.VStr?
    ensures r.Err? ==> r.error == AttributeError
    ensures r.Ok? ==> r.value == Lower(v.s)
  {
    if v.VStr? then Ok(Lower(v.s)) else Err(AttributeError)
  }

  /** `x.lower() in c.lower()`: the case-insensitive substring test. `x`
      is lowered first, so a non-str `x` raises before `c` is looked at. */
  function LowerIn(x: Value, c: Value): (r: Result<bool>)
    ensures r.Ok? <==> x.VStr? && c.VStr?
    ensures r.Err? ==> r.error == AttributeError
    ensures r.Ok? ==> r.value == IsSubstring(Lower(x.s), Lower(c.s))
  {
    var lx :- LowerOf(x);
    var lc :- LowerOf(c);
    In(VStr(lx), VStr(lc))
  }

  /** The regular-expression engine, which this model leaves uninterpreted:
      whether a pattern compiles (with or without IGNORECASE) and whether
      a compiled pattern finds a match in a text. */
  datatype Regex = Regex(
    compiles: (string, bool) -> bool,
    finds: (string, string, bool) -> bool)

  /** `re.search(pattern, text, flags)` used as a truth value: the pattern
      is compiled first (a non-str pattern is a `TypeError`, a bad one a
      `PatternError`), then a non-str text is a `TypeError`; a match object
      is always true. */
  function Search(rx: Regex, pattern: Value, text: Value, ignoreCase: bool): (r: Result<bool>)
    ensures r.Ok? <==> pattern.VStr? && text.VStr? && rx.compiles(pattern.s, ignoreCase)
    ensures r.Ok? ==> r.value == rx.finds(pattern.s, text.s, ignoreCase)
    ensures r == Err(PatternError) <==> pattern.VStr? && !rx.compiles(pattern.s, ignoreCase)
    ensures r.Err? && r.error != PatternError ==> r.error == TypeError
  {
    if !pattern.VStr? then Err(TypeError)
    else if !rx.compiles(pattern.s, ignoreCase) then Err(PatternError)
    else if !text.VStr? then Err(TypeError)
    else Ok(rx.finds(pattern.s, text.s, ignoreCase))
  }
}
