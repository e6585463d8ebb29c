# dictlist: filtering lists of dictionaries

A Dafny model of the two list classes of the `dictlist` package. Both are
Python lists that accept only dictionaries as elements and add a
Django-style query interface:

- `FilterList` (`filterlist/filterlist.py`) reads a keyword name such as
  `facts__movie__icontains` as a path of keys into nested dictionaries,
  optionally followed by one of the operations `in`, `regex`, `iregex`,
  `contains`, `icontains`, `iexact` (default: `exact`). `filter` narrows
  the list keyword by keyword and returns a new list; `get` demands exactly
  one match.
- `DictList` (`dictlist/dictlist.py`) is the older, flat variant: a keyword
  name is a field, optionally followed by one operation, split at the one
  separator it may hold. The field must be present in a record; an
  operation it has no branch for falls back to equality with the field.

The modules follow the program's structure:

| module | file | contents |
|---|---|---|
| `Outcomes` | `outcomes.dfy` | the exceptions the code can raise, `Option`, `Result` |
| `Strings` | `strings.dfy` | `str.split('__')`, `'__'.join`, ASCII `str.lower()`, substring test |
| `Values` | `values.dfy` | Python values, `x in c`, `.lower()`, `re.search` |
| `Selection`, `Narrowing` | `selection.dfy` | order-preserving selection where a test may raise; the keyword-by-keyword loop of `filter` |
| `Collection` | `collection.dfy` | the all-dictionaries invariant: construction, `append`, `__setitem__` |
| `Query` | `query.dfy` | the body of `filter` and `get` that both classes share, given a keyword parser |
| `FilterList` | `filterlist.dfy` | key parsing, path resolution, the operations, `filter`, `get` |
| `DictList` | `dictlist.dfy` | key splitting, the operations, `filter`, `get` |
| `Variants` | `variants.dfy` | where the two classes agree |
| `Scenarios` | `scenarios.dfy` | concrete inputs from the repository's tests, and inputs on which the classes differ |

Python's exceptions are values: every operation returns a `Result`, and a
raised exception is `Err(e)`, so the error paths of the code are part of
every contract. A keyword argument is a pair of its name and its value (`Query.Kwarg`),
and `**kwargs` is a sequence of them in call order. The regular-expression
engine is a parameter (`Values.Regex`: whether a pattern compiles, and
whether it finds a match); nothing is assumed about it.

Two behaviours of the code worth stating plainly:

- `x in c` raises `TypeError` when `c` is neither a string, a list nor a
  dictionary (for example `found_value in 5`), when a string is searched
  for a non-string, and when a list or dictionary is looked up as a
  dictionary key; the exception escapes `filter`.
- An unrecognised operation suffix is not an error in either class:
  `FilterList` treats it as one more key of the path, `DictList` compares
  the field for equality. The `raise` for an invalid operation in
  `_get_filtered_list` can never run (`FilterList.FilterNeverInvalidOperation`).

`filter` and `get` share their shape in the two classes; the module
`Query` holds that shape once, parameterised by how a class reads one
keyword argument (`FilterList.Parse`, `DictList.Parse`). `filter` starts
with `copy(self)`, which rebuilds the list through the class's own
`append`; on a list that holds a non-dictionary (reachable through the
slice assignment in the findings below, or through `insert` and `extend`)
that `append` raises `TypeError`, and the model returns that error.

## Model

| member | source | states |
|---|---|---|
| Strings.Split | filterlist/filterlist.py:82 | `str.split('__')`: at least one piece, the pieces joined by `__` give back the string, no piece holds the separator, and no piece before the last ends in `_` (splitting is leftmost) |
| Strings.SplitJoin | filterlist/filterlist.py:82 | splitting the join of pieces that could come from a split returns exactly those pieces: split and join are inverse |
| Strings.SplitCount | dictlist/dictlist.py:55-56 | a name splits into more than one piece exactly when it contains `__` |
| Strings.Lower | filterlist/filterlist.py:114 | `str.lower()` keeps the length and lower-cases each character independently |
| Strings.LowerIdempotent | filterlist/filterlist.py:114 | lower-casing twice is lower-casing once |
| Values.In | filterlist/filterlist.py:117-119 | `x in c`: list membership, substring on two strings, key lookup on a dictionary (true exactly for a string key present in it); `TypeError` exactly when `c` is of another type, a string is searched for a non-string, or a list or dictionary is looked up as a key |
| Values.LowerOf | filterlist/filterlist.py:113-115 | `.lower()` succeeds exactly on strings, giving the lower-cased string, and raises `AttributeError` otherwise |
| Values.LowerIn | filterlist/filterlist.py:133-135 | `x.lower() in c.lower()`: defined exactly when both are strings, then case-insensitive substring |
| Values.Search | filterlist/filterlist.py:121-127 | `re.search(pattern, text)` succeeds exactly when both are strings and the pattern compiles, with the engine's answer; a non-compiling string pattern is a pattern error, and every other failure a `TypeError` |
| Selection.Select | filterlist/filterlist.py:102-140 | the loop that keeps records whose verdict is true: succeeds exactly when no verdict raises, never grows the list, keeps only records whose verdict is true |
| Selection.SelectPositions | filterlist/filterlist.py:102-140 | a successful selection is the subsequence, in the original order, of exactly the records whose verdict is true |
| Selection.SelectFirstError | filterlist/filterlist.py:102-140 | a failed selection raises the exception of the first record whose verdict raises |
| Selection.SelectThen | filterlist/filterlist.py:68-71 | narrowing twice and narrowing once by the short-circuit conjunction of both tests: when the first pass succeeds the two agree exactly, exceptions included; when it fails the conjunction fails too, possibly with another record's exception |
| Selection.SelectKeepsAll | filterlist/filterlist.py:102-140 | records that all pass are all kept |
| Selection.SelectCongruent | filterlist/filterlist.py:102-140 | the result depends only on the verdicts on the records present |
| Narrowing.Chain | filterlist/filterlist.py:67-71 | the keyword loop of `filter`: no keywords give back the list, and narrowing never grows it |
| Narrowing.AllTrue | filterlist/filterlist.py:68-71 | the conjunction of the keywords' tests holds exactly when every test holds |
| Narrowing.ChainParsed | filterlist/filterlist.py:68-70 | a successful filter parsed every keyword |
| Narrowing.ChainIsConjunction | filterlist/filterlist.py:67-71 | narrowing keyword by keyword and one selection by the conjunction of all keywords succeed together, and then return the same records; when they fail, the exceptions may come from different records |
| Narrowing.ChainSelects | filterlist/filterlist.py:67-71 | a successful filter returns, in order, exactly the records every keyword accepts |
| Narrowing.ChainSurvivorsPass | filterlist/filterlist.py:67-71 | every returned record passes every keyword |
| Narrowing.ChainIdempotent | filterlist/filterlist.py:67-71 | filtering a result again by the same keywords changes nothing |
| Narrowing.ChainAppend | filterlist/filterlist.py:67-71 | filtering by `a` then `b` is filtering by `a` followed by `b`, errors included |
| Narrowing.ChainNeverRaises | filterlist/filterlist.py:67-71 | an exception that no keyword's parse and no test raises never escapes `filter` |
| Narrowing.ChainCongruent | filterlist/filterlist.py:67-71 | keyword lists that parse alike and test alike filter alike |
| Collection.DictElements | filterlist/filterlist.py:19-22 | `list(v)` for an accepted argument: a list keeps its elements, all dictionaries; an accepted string or dictionary argument is empty and gives no elements |
| Collection.New | filterlist/filterlist.py:19-22 | the constructor: no argument gives an empty list, two or more a `TypeError`, and so does one argument that is not iterable (`FilterList(5)`, `FilterList(None)`); `InvalidList` exactly when the argument holds a non-dictionary; otherwise the elements of `list(v)`, so a list is copied and an empty string or dictionary gives an empty list; a success holds only dictionaries |
| Collection.Append | filterlist/filterlist.py:31-34 | `append` succeeds exactly for a dictionary, then adds it at the end and keeps the rest; otherwise `TypeError`; keeps the invariant |
| Collection.SliceBound | filterlist/filterlist.py:29 | a slice bound: a missing one takes its default, one in `[0, n]` is kept, one in `[-n, 0)` counts from the end, one above `n` becomes `n` and one below `-n` becomes 0 |
| Collection.SliceRange | filterlist/filterlist.py:29 | the range a slice assignment replaces: the start is the start bound (default 0), the stop the stop bound (default `n`) unless that lies before the start, in which case the range is empty at the start |
| Collection.SetItem | filterlist/filterlist.py:26-29 | the corrected check (see Findings): `self[i] = item` succeeds exactly for a dictionary and an index in range (`TypeError`, `IndexError` otherwise) and replaces that one element, as the code does; a slice assignment takes an iterable of dictionaries, unlike the code; the invariant is kept |
| Collection.KeyOrder | filterlist/filterlist.py:29 | iterating a dictionary yields each of its keys once |
| Collection.SetItemAsWritten | filterlist/filterlist.py:26-29 | the check as written: success exactly for a dictionary (and an in-range index), whatever the subscript is; `TypeError` for a non-dictionary, `IndexError` for an index out of range; an index assignment replaces that one element; a slice keeps the elements before and after the range and puts the dictionary's keys in between: each key once, and nothing else |
| Collection.SliceAssignmentStoresKeys | filterlist/filterlist.py:26-29 | as written, assigning a non-empty dictionary to a slice succeeds and leaves a non-dictionary in the list |
| Collection.SliceAssignmentRejectsDictList | dictlist/dictlist.py:24-27 | as written, assigning a list of dictionaries to a slice is a `TypeError`, while the corrected check accepts it |
| Query.Filter | filterlist/filterlist.py:67-73 | the body of `filter`: a list holding a non-dictionary is a `TypeError` (from the copy); otherwise the keyword-by-keyword narrowing, so no keywords give back the list; a result holds only dictionaries and is no longer than the list |
| Query.FilterSelects | filterlist/filterlist.py:67-73 | a successful filter returns, in order, exactly the records that satisfy every keyword |
| Query.FilterSurvivorsSatisfy | filterlist/filterlist.py:67-73 | every record a successful filter returns satisfies every keyword |
| Query.FilterIdempotent | filterlist/filterlist.py:67-73 | filtering the result again by the same keywords gives the same result |
| Query.FilterChaining | filterlist/filterlist.py:67-73 | filtering by the keywords `a` and then filtering the result by `b` equals one filter by `a` followed by `b`, exceptions included; as a Python call, `filter(**a, **b)` further needs `a` and `b` to share no name |
| Query.Get | filterlist/filterlist.py:45-52 | the body of `get`: a `filter` error propagates; no match is not-found, more than one the multiple-match error, exactly one is returned |
| Query.GetUnique | filterlist/filterlist.py:45-52 | a successful `get` returns the one record of the list that satisfies every keyword; every other record fails some keyword |
| FilterList.GetKeys | filterlist/filterlist.py:75-85 | `_get_keys`: `AssertionError` exactly on the empty name; otherwise all the `__`-pieces when the last is no operation name, and all but the last when it is |
| FilterList.GetOperation | filterlist/filterlist.py:87-96 | `_get_operation`: `AssertionError` exactly on the empty name; otherwise the last `__`-piece when it is an operation name, and `exact` when it is not |
| FilterList.ParseRoundTrip | filterlist/filterlist.py:75-96 | the keys, followed by the operation unless it is `exact`, join back into the name; an `exact` operation means the last key is no operation name |
| FilterList.ParseJoinOperation | filterlist/filterlist.py:75-96 | a path of valid pieces joined with an operation parses back into that path and that operation |
| FilterList.ParseJoinExact | filterlist/filterlist.py:75-96 | a path whose last key is no operation name parses back into itself with operation `exact` |
| FilterList.GetValue | filterlist/filterlist.py:142-159 | `_get_value`: the empty path gives `None`, a missing first key is not found, a one-key path gives that key's value |
| FilterList.GetValueAppend | filterlist/filterlist.py:150-159 | resolving `p + q` is resolving `p`, then `q` inside the dictionary found, and not found when `p` ends on a non-dictionary |
| FilterList.GetValueNotFound | filterlist/filterlist.py:150-159 | a path is not found exactly when some key is missing, or some key before the last holds a non-dictionary |
| FilterList.StepFailsShift | filterlist/filterlist.py:150-159 | descending one level shifts where a path fails by one key |
| FilterList.Matches | filterlist/filterlist.py:109-138 | each operation's verdict: `exact` is equality; `iexact` and `icontains` need two strings (`AttributeError` from `.lower()` otherwise) and compare lower-cased; `in` and `contains` are membership in each direction; `regex` and `iregex` search with and without case; the invalid-operation error exactly for a name outside the operations |
| FilterList.ItemTest | filterlist/filterlist.py:103-107 | a record whose path is not found is skipped whatever the operation; otherwise the operation decides; a non-dictionary is the `TypeError` the copy in `filter` raises |
| FilterList.GetFilteredList | filterlist/filterlist.py:98-140 | `_get_filtered_list` succeeds exactly when no verdict raises, and returns only records with a true verdict |
| FilterList.ExactNone | filterlist/filterlist.py:104-111 | filtering `exact` for `None` keeps a record exactly when its path resolves to `None`: an absent key does not match |
| FilterList.IExactIgnoresCase | filterlist/filterlist.py:113-115 | lower-casing the record's value or the target first changes no `iexact` verdict |
| FilterList.OperationNameAsKey | filterlist/filterlist.py:81-85 | a name that is only an operation gives the empty path, whose value is `None` for every record |
| FilterList.InNoneKeepsAll | filterlist/filterlist.py:142-159 | `filter(**{'in': [None]})` keeps every record of a valid list, because the empty path resolves to `None` |
| FilterList.Filter | filterlist/filterlist.py:54-73 | `filter`: positional arguments and a keyword named `self` (which collides with the method's first parameter) are a `TypeError`, checked first; then the shared body (`Query.Filter`) with this class's keyword parser; a list holding a non-dictionary is a `TypeError`; a result holds only dictionaries and is no longer than the list |
| FilterList.FilterResultsResolve | filterlist/filterlist.py:103-107 | every returned record resolves every keyword's path |
| FilterList.FilterNeverInvalidOperation | filterlist/filterlist.py:137-138 | no input makes `filter` raise the invalid-operation error |
| FilterList.Get | filterlist/filterlist.py:36-52 | `get`: `TypeError` on positional arguments, on no keywords or on a keyword named `self` (which collides with the method's first parameter), checked before `filter` runs; otherwise the shared body (`Query.Get`) with this class's keyword parser |
| DictList.SplitKey | dictlist/dictlist.py:54-56 | a name without `__` is a bare field; one with `__` must split into exactly two pieces (`ValueError` otherwise), which are the two pieces of the leftmost cut `str.split('__')` makes, and join back into the name |
| DictList.SplitKeyJoin | dictlist/dictlist.py:54-56 | a field and an operation joined by `__` split back into that field and operation |
| DictList.ItemTest | dictlist/dictlist.py:58-71 | a record without the field is dropped; an operation without a branch, or none, compares the field for equality; `icontains` needs two strings; a non-dictionary is the `TypeError` the copy in `filter` raises |
| DictList.Filter | dictlist/dictlist.py:44-73 | `filter(**kwargs)`: a positional argument or a keyword named `self` (the method's first parameter) is a `TypeError`; then the shared body (`Query.Filter`) with this class's keyword parser; a list holding a non-dictionary is a `TypeError`; a result holds only dictionaries and is no longer than the list |
| DictList.FilterResultsHaveFields | dictlist/dictlist.py:58-71 | every returned record holds every keyword's field, whatever the operation |
| DictList.Get | dictlist/dictlist.py:34-42 | `get(**kwargs)`: a positional argument or a keyword named `self` (the method's first parameter) is a `TypeError`; otherwise the shared body (`Query.Get`), with no check for an empty keyword list, so `get()` on a one-record list returns that record |
| Variants.ParseBare | dictlist/dictlist.py:54-56 | a bare field that is no operation name is the one-key path with `exact` in one class and the field without operation in the other |
| Variants.ParseSuffixed | dictlist/dictlist.py:54-56 | `field__op` with an operation both classes know parses to the same field and operation in both |
| Variants.SameVerdict | dictlist/dictlist.py:58-71 | once the parses agree, both classes give the same verdict on every value |
| Variants.SameStep | filterlist/filterlist.py:68-71 | on a shared name both classes parse successfully and give the same verdict on every record |
| Variants.SameFilter | dictlist/dictlist.py:44-73 | on keyword names that are all shared, both `filter` methods return the same records or raise the same exception |
| Scenarios.ParseOperationExample | tests/test_filterlist.py:229-242 | `animal__contains` is the path `animal` with `contains` |
| Scenarios.ParsePathExample | tests/test_filterlist.py:233-245 | `animal__dog__mammal` is a three-key path with `exact` |
| Scenarios.ParseMisspeltExample | tests/test_filterlist.py:236-237 | the misspelt `iexactly` stays a key of the path |
| Scenarios.GetValueExamples | tests/test_filterlist.py:194-216 | the nested-dictionary lookups of the tests: full path, partial path, missing key, path through a string |
| Scenarios.SingleFilter | filterlist/filterlist.py:67-71 | one keyword over one record keeps it exactly when its verdict is true |
| Scenarios.IExactDiverges | tests/test_filterlist.py:184-186 | `name__iexact='JOHN'` finds `{'name': 'john'}` in a `FilterList` but nothing in a `DictList` |
| Scenarios.IExactParsesAsOperation | tests/test_filterlist.py:184-186 | `FilterList` reads `name__iexact` as path `name` with `iexact` |
| Scenarios.IExactSplitsAsField | dictlist/dictlist.py:54-71 | `DictList` reads `name__iexact` as field `name` with an operation it has no branch for, so compares `john` with `JOHN` |
| Scenarios.IExactMatchesJohn | tests/test_filterlist.py:184-186 | `iexact` with `JOHN` accepts `{'name': 'john'}` |
| Scenarios.LowerJohn | filterlist/filterlist.py:114 | `JOHN` and `john` lower-case alike |
| Scenarios.ExactDiverges | filterlist/filterlist.py:83-96 | `name__exact='john'` finds nothing in a `FilterList` (`exact` is no operation name there, so it is a key) but finds the record in a `DictList` |
| Scenarios.ExactVerdicts | dictlist/dictlist.py:54-71 | the two readings of `name__exact` and their verdicts on `{'name': 'john'}` |
| Scenarios.GetWithoutKeywords | tests/test_filterlist.py:92-95 | `get()` without keywords is a `TypeError` in a `FilterList`, but returns the only record of a one-record `DictList` |

## Left out

- The regular-expression engine: `Values.Regex` is a parameter, so no
  property depends on how `re` compiles or matches a pattern.
- `str.lower()` is modelled on ASCII letters only; Unicode case mappings
  that change length (`'İ'.lower()`) are not.
- Numbers are Python integers and booleans without the numeric tower:
  `True == 1` and `1 == 1.0` hold in Python but the model's equality tells
  them apart; floats, tuples, sets and other container types are not values
  of the model.
- Dictionary keys are strings. Non-string keys inside record values (for
  example `{'codes': {1: 'x'}}` filtered by `codes__contains=1`, which is
  true in Python) are not modelled: a dictionary value's keys would have
  to range over all hashable values.
- Extra arguments: keyword arguments to the constructor, and extra
  positional or keyword arguments to `append` and `__setitem__`, are passed
  on to `list`, which rejects them with a `TypeError`. The model's
  constructor takes only positional arguments (two or more are modelled as
  that `TypeError`); `Append` and `SetItem` take none beyond the element.
- Dictionary iteration order is not modelled: `map` is unordered, so
  `Collection.KeyOrder` picks some order of the keys, and `**kwargs` is a
  sequence given in call order.
- Exception messages are not modelled, including the multiple-match message
  of both `get` methods, which reports `len(self)` where the number of
  matches is evidently meant.
- The class hierarchy of the exceptions: the multiple-match error and the
  invalid-operation error are both the package's base exception in the
  code (`MultipleFound` and `InvalidOperation` in the model), and
  `NotFound` and `InvalidList` derive from it; catching the base class is
  not modelled.
- Extended slices with a step (`xs[::2] = ...`): they go through the
  overridden `__setitem__` and its dictionary check like any slice, but
  the length rule of an extended-slice assignment is not modelled;
  `Subscript` has no step.
- `del`, `insert`, `extend`, `+=`, `*=` and other inherited list methods
  that bypass the dictionary check; what
  `filter` and `get` then do on such a list (the `TypeError` of the copy)
  is modelled.
- Duplicate keyword names: a Python call cannot pass the same keyword
  twice (`filter(**a, **b)` with a shared name is a `TypeError` at the
  call), while the model's keyword sequence may hold a name twice, which
  then narrows twice.
- `copy` and aliasing: the returned list shares its dictionaries with the
  original; values are immutable in the model, so sharing cannot be seen.
- `python -O`, which removes the `assert` in `_get_keys` and
  `_get_operation`; the model keeps the assertion.
- `setup.py` and packaging.
- Strings.Lower: does not model Unicode case folding, only ASCII letters,
  because the rest of the Unicode tables are out of scope.
- Values.Search: states nothing about what a pattern matches, because the
  regular-expression engine is a parameter.

## Findings

| source | as written | input that shows it | evidently intended | confidence | as-written member | corrected member |
|---|---|---|---|---|---|---|
| filterlist/filterlist.py:26-29 (also dictlist/dictlist.py:24-27) | `__setitem__` checks that the assigned value is a dictionary even when the subscript is a slice, whose value is a sequence of elements | `fl[0:0] = {'k': 1}` is accepted and inserts the string `'k'` into the list; `fl[0:1] = [{'k': 1}]` raises `TypeError` | a slice assignment accepts an iterable of dictionaries and rejects anything else, so every element stays a dictionary | high, not executed | Collection.SliceAssignmentStoresKeys | Collection.SetItem |
