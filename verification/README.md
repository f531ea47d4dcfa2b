# Params: the test parameter map of avocado-vt

Every avocado-vt test receives a `Params` object (virttest/utils_params.py):
a dictionary from parameter names to string values, assembled from the
configuration files. On top of plain lookup it offers five operations,
and this project models all of them as pure Dafny functions over
`map<string, string>`:

- `params[key]`: mandatory lookup, failing with `ParamNotFound` (a test-skip
  error) instead of a plain `KeyError` (`UtilsParams.Get`);
- `objects(key)`: the whitespace-separated names in a value, without
  duplicates, in order of first occurrence (`UtilsParams.Objects`);
- `object_params(obj_name)`: the view of the parameters as seen by one
  object, where `key_<obj_name>` overrides `key` (`UtilsParams.ObjectParams`);
- `object_counts(count_key, base_name)`: the numbered series
  `base1 .. baseN` with N read from `count_key`, 1 by default
  (`UtilsParams.ObjectCounts`);
- `copy_from_keys(keys)`: the bindings of an allow-list of keys whose
  values are non-empty (`UtilsParams.CopyFromKeys`).

Modules:

- `wrappers.dfy` — `Option` and `Result`, for `dict.get` and for raised errors.
- `strings.dfy` — Python 2 `str.split()`, `str.endswith`, `str.split(sep)[0]`
  and `" ".join`, with the facts the operations rely on.
- `decimal.dfy` — `int(s)` on an optionally signed decimal numeral and `str(n)`.
- `distinct.dfy` — first-occurrence deduplication and the uniqueness of
  first-occurrence order.
- `params.dfy` — the parameter map and its five operations.
- `cases.dfy` (module `Examples`) — the documented override rule, in general and on example
  maps, and example inputs for the other operations.

Every operation takes the map as a value and returns a new value, so
"the receiver is left unchanged" holds by construction for
`object_params`, `object_counts` and `copy_from_keys`.

The source iterates over the dictionary's keys in `object_params`, and a
Python 2 dictionary has no defined order. The model makes that order an
input: `ObjectParams` takes `order`, any list of the map's keys without
repetition. It matters only when two suffixed keys strip to the same name
(with `obj_name = "x"`, both `a_x` and `a_x_x` strip to `a`). Then the key
visited last wins, and `ObjectParams` states exactly that. When no such
collision exists, the order is proved irrelevant.

Choices the code dictates:

- `UserDict` is unordered, so the model uses `map` and claims no key order
  for derived maps.
- A missing member of a numbered series is paired with `None`
  (`cpy.get(key)`), so the model uses `Option.None`.
- A count that is not a number makes `int()` raise `ValueError`; the model
  calls this error `ParamError.FormatError`.

`key.split(suffix)[0]` keeps what precedes the FIRST occurrence of the
suffix, and the model follows that. It is not the same as removing a
trailing suffix when the suffix occurs twice: with `obj_name = "x"`, the
key `a_x_b_x` is renamed to `a` (see `UtilsParams.StrippedNameRule`).

## Model

| member | source | states |
|---|---|---|
| UtilsParams.Get | virttest/utils_params.py:20-27 | a present key yields its bound value; an absent key fails with `ParamNotFound` carrying that key, never with any other error |
| UtilsParams.GetThroughObjectParams | virttest/utils_params.py:20-27 | through an object's view, a uniquely overridden name yields the object-specific value, and a name that is neither a parameter nor a stripped name still fails with `ParamNotFound` |
| UtilsParams.Lookup | virttest/utils_params.py:77 | `get(key)` is `None` exactly when the key is absent, and otherwise the bound value |
| UtilsParams.GetOr | virttest/utils_params.py:36 | `get(key, default)` is the bound value when the key is present and the default otherwise |
| UtilsParams.Objects | virttest/utils_params.py:36-40 | the result has no duplicates, holds exactly the whitespace-separated words of the key's value (none empty, none holding whitespace), lists them in order of first occurrence, and is empty for an absent key |
| UtilsParams.ObjectsIsSortedDistinctWords | virttest/utils_params.py:38-40 | any duplicate-free list of the words sorted by first occurrence (what the dictionary-then-`sort(key=lst.index)` produces, whatever order the dictionary yields) equals the result of `Objects` |
| UtilsParams.ObjectsOfJoinedNames | virttest/utils_params.py:36-38 | a value made of distinct names separated by single spaces lists exactly those names, in that order |
| Strings.Split | virttest/utils_params.py:36 | `split()` yields non-empty, whitespace-free words whose concatenation is the input with its whitespace removed |
| Strings.SplitJoin | virttest/utils_params.py:36 | splitting words joined by single spaces gives the words back |
| Strings.SplitAtSpace | virttest/utils_params.py:36 | `split()` cuts at every whitespace character: the words of `a + c + b`, for a whitespace `c`, are the words of `a` followed by the words of `b` |
| Strings.SplitWord | virttest/utils_params.py:36 | a non-empty run without whitespace is a single word, so words are maximal runs |
| Distinct.Dedup | virttest/utils_params.py:38-40 | the deduplicated list has no duplicates, the same elements as the input, and keeps first-occurrence order |
| Distinct.FirstIndex | virttest/utils_params.py:40 | `lst.index(x)` is a position holding `x`, and no earlier position holds `x` |
| Distinct.FirstOccurrenceOrderUnique | virttest/utils_params.py:38-40 | two duplicate-free lists with the same elements, both in first-occurrence order of the same list, are equal |
| Examples.ObjectsRepeatedName | virttest/utils_params.py:36-40 | a value `"a b a"` with distinct words lists `[a, b]` |
| Examples.ObjectsDropRepeatedName | virttest/utils_params.py:36-40 | `"nic1 nic2 nic1"` lists `["nic1", "nic2"]` |
| Strings.BeforeFirstOccurrence | virttest/utils_params.py:63 | `split(sep)[0]` is a prefix with no occurrence of `sep` starting inside it, followed by `sep` unless `sep` does not occur at all, and containing no `sep` |
| Strings.Before | virttest/utils_params.py:63 | `key.split(suffix)[0]` is a prefix of the key; `Strings.BeforeFirstOccurrence` states which one |
| Strings.EndsWithMeans | virttest/utils_params.py:62 | `s.endswith(sfx)` holds exactly when `s` is some prefix followed by `sfx` |
| UtilsParams.SuffixedMeans | virttest/utils_params.py:62 | `key.endswith("_" + obj_name)` holds exactly when the key is longer than the object name, ends with it, and has `_` just before it |
| UtilsParams.StrippedNameMeans | virttest/utils_params.py:63 | the new name `key.split("_" + obj_name)[0]` is the prefix of the key that ends where the suffix first occurs, or the whole key when it does not occur |
| UtilsParams.StrippedNameRule | virttest/utils_params.py:57-63 | a key ending with `"_" + obj_name` is renamed to a strictly shorter name that, followed by the suffix, is a prefix of the key and does not contain the suffix |
| UtilsParams.StrippedNameNotSuffixed | virttest/utils_params.py:62-64 | a stripped name never ends with (nor contains) the suffix, so the loop never rewrites a suffixed key |
| UtilsParams.LastSource | virttest/utils_params.py:61-64 | finds the last key in the iteration order that is renamed to a given name, or reports that none is |
| UtilsParams.Rewrite | virttest/utils_params.py:61-64 | after visiting keys in order, the copy has the original keys plus the stripped names; suffixed keys and keys that are no stripped name keep their values; each stripped name holds the value of its last source visited |
| UtilsParams.ObjectParams | virttest/utils_params.py:57-65 | the view's keys are exactly the original keys plus the stripped names; suffixed keys keep their own values; keys that are no stripped name keep their values; each stripped name holds the value of a key renamed to it, precisely the last one in iteration order, and of its only source when it has one |
| UtilsParams.ObjectParamsIsOverriddenView | virttest/utils_params.py:49-52 | without collisions, the view equals the documented one written without a loop: suffixed values overwrite their suffixless versions, other keys are unchanged |
| UtilsParams.ObjectParamsOrderIndependent | virttest/utils_params.py:61-64 | without collisions, any two iteration orders give the same view, so repeated calls give equal results |
| UtilsParams.ViewValueOfSource | virttest/utils_params.py:62-64 | without collisions, a stripped name takes its source key's value whatever the order |
| Examples.StripAppendedSuffix | virttest/utils_params.py:62-63 | a name followed by the suffix, where the suffix does not start inside the name, is a suffixed key renamed back to that name, and the name itself is not suffixed |
| Examples.OverrideOfGeneralValue | virttest/utils_params.py:49-52 | with `base`, `base_<obj>` and an unrelated key, the view binds `base` to the object-specific value, keeps `base_<obj>`, and leaves the unrelated key alone, in every iteration order |
| Examples.NicModelOverride | virttest/utils_params.py:49-52 | `nic_model_mynic` overrides `nic_model` for object `mynic`, and `mac` is untouched |
| UtilsParams.ObjectCounts | virttest/utils_params.py:72-77 | an absent count key gives exactly one pair; a count `Decimal.ParseInt` rejects fails with a format error, and with an unbounded range nothing else fails; otherwise there are max(0, count) pairs, the i-th keyed `base_name + str(i)` in ascending order, valued by the map's value for that key or `None`, with no two keys equal |
| UtilsParams.Series | virttest/utils_params.py:74-76 | the first n members of the series are n pairs, the i-th keyed `base_name + str(i)` and valued by the snapshot's value for that key or `None` |
| UtilsParams.SeriesKeysDistinct | virttest/utils_params.py:74-76 | no key occurs twice in a series |
| Examples.NicSeriesWithGap | virttest/utils_params.py:67-77 | with `nic_count = "3"` and no `nic2`, the series is `nic1`, `nic2`, `nic3` with `nic2` paired with `None` |
| UtilsParams.SeriesKeyInjective | virttest/utils_params.py:76 | different numbers give different series keys |
| UtilsParams.SeriesKey | virttest/utils_params.py:76 | `"%s%s" % (base_name, number)` is the base name followed by the decimal digits of the number, as `str` writes them |
| UtilsParams.Count | virttest/utils_params.py:72-75 | an absent count key counts 1; reading the count fails with a format error exactly when the value is not an optionally signed decimal numeral, and otherwise yields the number `int()` reads from it |
| UtilsParams.CountOfWrittenNumber | virttest/utils_params.py:72-75 | a count stored as `str(n)` is read back as `n` |
| Decimal.ParseInt | virttest/utils_params.py:75 | the model of `int()` accepts exactly an optional sign followed by decimal digits; a leading `-` gives a non-positive number, otherwise a non-negative one; the number itself is fixed by `Decimal.ParseIntToDecimal` with the leading-zero and sign lemmas |
| Decimal.NatToDecimal | virttest/utils_params.py:76 | `str(n)` is a run of digits without a leading zero unless it is `"0"` |
| Decimal.ParseIntToDecimal | virttest/utils_params.py:75-76 | `int(str(n)) == n` for every integer |
| Decimal.ParseIntLeadingZero | virttest/utils_params.py:75 | `int("0" + s) == int(s)` for a run of digits `s`: leading zeros are accepted and ignored |
| Decimal.ParseIntPlus | virttest/utils_params.py:75 | `int("+" + s) == int(s)` for a run of digits `s` |
| Decimal.ParseIntMinus | virttest/utils_params.py:75 | `int("-" + s) == -int(s)` for a run of digits `s`, so `"-0"` is 0 |
| Decimal.NatToDecimalInjective | virttest/utils_params.py:76 | different numbers are written differently |
| UtilsParams.CopyFromKeys | virttest/utils_params.py:86-91 | the copy's keys are exactly the listed keys present with a non-empty value, each bound to the receiver's value |
| UtilsParams.Truthy | virttest/utils_params.py:89 | `if self.get(key):` on a string value holds exactly when the key is present and its value is non-empty |
| UtilsParams.CopyFromKeysIdempotent | virttest/utils_params.py:86-91 | copying the same keys again from the copy gives the copy |
| UtilsParams.CopyFromKeysSameElements | virttest/utils_params.py:88-90 | only the set of listed keys matters, not their order or repetition |
| Examples.CopySkipsEmptyValue | virttest/utils_params.py:88-90 | copying `a`, `b`, `c` from `{a: "1", b: "", c: "3"}` gives `{a: "1", c: "3"}` |

## Left out

- The class-wide `Lock` held while `object_params` copies the map (virttest/utils_params.py:18, 58-60): this is concurrency. The snapshot is a plain value copy here.
- `ParamNotFound`'s base class `TestSkipError` from avocado (virttest/utils_params.py:4, 9) is a foreign library. The error is a constructor of `ParamError`, and its message text is not modelled.
- The `UserDict` machinery (subclassing, the type `copy()` returns) and dictionary iteration order. The map is a `map<string, string>`, and the iteration order of `object_params` is an input.
- UtilsParams.ObjectParams: when two suffixed keys strip to the same name, the winner is the last one in the given `order`. Which order a real Python 2 dictionary produces is not modelled.
- UtilsParams.ObjectCounts: the bound of Python 2's `xrange` is not modelled. There `int(count) + 1` must fit in a C long, and a larger count (such as `"9223372036854775807"` on a 64-bit platform) or one so negative that `int(count) + 1` is below the smallest C long, makes iteration raise `OverflowError`; the model uses an unbounded range and returns the series.
- UtilsParams.ObjectCounts: the generator is modelled as the finite list it yields. Laziness, and when the snapshot is taken relative to the caller's iteration, are not modelled.
- Decimal.ParseInt: Python 2's `int()` also skips whitespace before and after the numeral and between the sign and its digits (`int("+ 3")` is 3), which the model rejects, so `UtilsParams.ObjectCounts` reports a format error for a count such as `" 3"` or `"+ 3"`; and counts that are not strings (such as the default `1`, an integer) are not modelled. All values are strings, and the absent-count default is taken as the number 1 directly.
- Strings.Split: only the six ASCII whitespace characters of Python 2 byte strings separate words. The wider whitespace set of `unicode` values is not modelled.
- UtilsParams.CopyFromKeys: truthiness is modelled for string values only (non-empty string), since every value is a string here.
- Strings.Before requires a non-empty separator. Python raises `ValueError` for an empty one, but the suffix `"_" + obj_name` is never empty.
