/**
 * The parameter map handed to every test (`Params` in virttest/utils_params.py):
 * a string-to-string map with a mandatory lookup and four derived views.
 * Every operation takes the map as a value and returns a new value, so the
 * receiver is never changed by any of them.
 */
module UtilsParams {
  import opened Wrappers
  import opened Strings
  import opened Decimal
  import opened Distinct

  /** The backing dictionary: parameter name to parameter value. */
  type Params = map<string, string>

  /** The errors the parameter map raises. */
  datatype ParamError =
    | ParamNotFound(key: string)   // a mandatory parameter is absent (a test-skip error)
    | FormatError(text: string)    // `int()` rejected the text of a count

  /** `params[key]`: the bound value, or `ParamNotFound` naming the key. */
  function Get(p: Params, key: string): (r: Result<string, ParamError>)
    ensures r.Success? <==> key in p
    ensures r.Success? ==> r.value == p[key]
    ensures r.Failure? ==> r.error == ParamNotFound(key)
  {
    if key in p then Success(p[key]) else Failure(ParamNotFound(key))
  }

  /** `params.get(key)`: absence is data, not an error. */
  function Lookup(p: Params, key: string): (r: Option<string>)
    ensures r.Some? <==> key in p
    ensures r.Some? ==> r.value == p[key]
  {
    if key in p then Some(p[key]) else None
  }

  /** `params.get(key, default)`. */
  function GetOr(p: Params, key: string, default: string): (r: string)
    ensures key in p ==> r == p[key]
    ensures key !in p ==> r == default
  {
    if key in p then p[key] else default
  }

  // ---------------------------------------------------------------------------
  // objects

  /** The whitespace-separated words of the value of `key` ("" when absent). */
  function Words(p: Params, key: string): seq<string> {
    Split(GetOr(p, key, ""))
  }

  /**
   * `params.objects(key)`: the distinct words of the value of `key`, in the
   * order of their first occurrence; an absent key lists nothing.
   */
  function Objects(p: Params, key: string): (r: seq<string>)
    ensures NoDuplicates(r)
    ensures SameElements(r, Words(p, key))
    ensures InFirstOccurrenceOrder(r, Words(p, key))
    ensures forall i :: 0 <= i < |r| ==> r[i] != "" && NoSpace(r[i])
    ensures key !in p ==> r == []
  {
    Dedup(Words(p, key))
  }

  /**
   * The source deduplicates through a dictionary and then sorts by
   * `lst.index`; whatever order the dictionary yields, the sorted list is a
   * duplicate-free arrangement of the words ordered by first occurrence, and
   * every such list is the result of `Objects`.
   */
  lemma ObjectsIsSortedDistinctWords(p: Params, key: string, sorted: seq<string>)
    requires NoDuplicates(sorted)
    requires SameElements(sorted, Words(p, key))
    requires InFirstOccurrenceOrder(sorted, Words(p, key))
    ensures sorted == Objects(p, key)
  {
    var r := Objects(p, key);
    forall i | 0 <= i < |sorted|
      ensures sorted[i] in r
    {
      assert sorted[i] in Words(p, key);
      var j :| 0 <= j < |Words(p, key)| && Words(p, key)[j] == sorted[i];
    }
    forall i | 0 <= i < |r|
      ensures r[i] in sorted
    {
      assert r[i] in Words(p, key);
      var j :| 0 <= j < |Words(p, key)| && Words(p, key)[j] == r[i];
    }
    FirstOccurrenceOrderUnique(sorted, r, Words(p, key));
  }

  /** Listing object names separated by single spaces gives them back. */
  lemma ObjectsOfJoinedNames(p: Params, key: string, names: seq<string>)
    requires key in p && p[key] == Join(names)
    requires AreWords(names) && NoDuplicates(names)
    ensures Objects(p, key) == names
  {
    SplitJoin(names);
    var w := Words(p, key);
    assert w == names;
    forall i, j | 0 <= i < j < |names|
      ensures FirstIndex(w, names[i]) < FirstIndex(w, names[j])
    {
      assert FirstIndex(w, names[i]) == i;
      assert FirstIndex(w, names[j]) == j;
    }
    ObjectsIsSortedDistinctWords(p, key, names);
  }

  // ---------------------------------------------------------------------------
  // object_params

  /** The suffix that marks a parameter as specific to one object. */
  function Suffix(objName: string): (sfx: string)
    ensures |sfx| == |objName| + 1 && sfx[0] == '_'
  {
    "_" + objName
  }

  /** True when key `k` is specific to object `objName`. */
  predicate Suffixed(k: string, objName: string) {
    EndsWith(k, Suffix(objName))
  }

  /** `k.endswith("_" + objName)`: `k` ends with the object's name, with `_` just before it. */
  lemma SuffixedMeans(k: string, objName: string)
    ensures Suffixed(k, objName) <==>
      |k| > |objName| && k[|k| - |objName| - 1] == '_' && k[|k| - |objName|..] == objName
  {
    if |k| > |objName| {
      assert k[|k| - |objName| - 1..] == [k[|k| - |objName| - 1]] + k[|k| - |objName|..];
    }
  }

  /** The name a suffixed key is renamed to: what precedes the first occurrence of the suffix. */
  function StrippedName(k: string, objName: string): string {
    Before(k, Suffix(objName))
  }

  /**
   * `key.split("_" + objName)[0]` is the prefix of the key before the first
   * occurrence of the suffix, or the whole key when the suffix does not occur.
   */
  lemma StrippedNameMeans(k: string, objName: string)
    ensures StrippedName(k, objName) <= k
    ensures StrippedName(k, objName) == k || OccursAt(k, Suffix(objName), |StrippedName(k, objName)|)
    ensures forall i: nat :: i < |StrippedName(k, objName)| ==> !OccursAt(k, Suffix(objName), i)
  {
    BeforeFirstOccurrence(k, Suffix(objName));
  }

  /** True when `k` is a suffixed key that is renamed to `n`. */
  predicate IsSource(k: string, objName: string, n: string) {
    Suffixed(k, objName) && StrippedName(k, objName) == n
  }

  /** The names the suffixed keys among `keys` are renamed to. */
  function Renamed(keys: seq<string>, objName: string): set<string> {
    set k | k in keys && Suffixed(k, objName) :: StrippedName(k, objName)
  }

  /** The names the suffixed keys of `p` are renamed to. */
  function StrippedNames(p: Params, objName: string): set<string> {
    set k | k in p && Suffixed(k, objName) :: StrippedName(k, objName)
  }

  /**
   * The position in `order` of the last suffixed key renamed to `n`, or -1
   * when there is none: the key whose value the loop writes last.
   */
  function LastSource(order: seq<string>, objName: string, n: string): (j: int)
    ensures -1 <= j < |order|
    ensures j >= 0 ==> IsSource(order[j], objName, n)
    ensures forall i :: j < i < |order| ==> !IsSource(order[i], objName, n)
    decreases |order|
  {
    if |order| == 0 then -1
    else if IsSource(order[|order| - 1], objName, n) then |order| - 1
    else LastSource(order[..|order| - 1], objName, n)
  }

  /** A stripped name is never suffixed itself, so the loop never rewrites a suffixed key. */
  lemma StrippedNameNotSuffixed(k: string, objName: string)
    ensures !Suffixed(StrippedName(k, objName), objName)
    ensures !Contains(StrippedName(k, objName), Suffix(objName))
  {
    var n := StrippedName(k, objName);
    BeforeFirstOccurrence(k, Suffix(objName));
    if Suffixed(n, objName) {
      EndsWithContains(n, Suffix(objName));
    }
  }

  /**
   * The rename rule: a suffixed key is its stripped name, then the suffix,
   * then whatever followed the first occurrence of the suffix.
   */
  lemma StrippedNameRule(k: string, objName: string)
    requires Suffixed(k, objName)
    ensures var n := StrippedName(k, objName);
      && n + Suffix(objName) <= k
      && n != k
      && !Contains(n, Suffix(objName))
  {
    var sfx := Suffix(objName);
    var n := StrippedName(k, objName);
    BeforeFirstOccurrence(k, sfx);
    EndsWithContains(k, sfx);
    assert n != k;
    assert OccursAt(k, sfx, |n|);
    assert k[|n|..|n| + |sfx|] == sfx;
    assert k[..|n|] == n;
    assert k[..|n| + |sfx|] == k[..|n|] + k[|n|..|n| + |sfx|];
  }

  /**
   * `r` is the copy after the loop has visited the keys in `order`: the
   * original keys plus the stripped names, suffixed and untouched keys with
   * their own values, and each stripped name with the value of its last
   * source in `order`.
   */
  ghost predicate RewriteSpec(p: Params, objName: string, order: seq<string>, r: Params) {
    && (forall i :: 0 <= i < |order| ==> order[i] in p)
    && r.Keys == p.Keys + Renamed(order, objName)
    && (forall k :: k in p && Suffixed(k, objName) ==> r[k] == p[k])
    && (forall k :: k in p && k !in Renamed(order, objName) ==> r[k] == p[k])
    && (forall n :: n in Renamed(order, objName) ==>
         LastSource(order, objName, n) >= 0 && r[n] == p[order[LastSource(order, objName, n)]])
  }

  /** Rewrites the copy for the keys in `order`, one after another, as the loop does. */
  function Rewrite(p: Params, objName: string, order: seq<string>): (r: Params)
    requires forall i :: 0 <= i < |order| ==> order[i] in p
    ensures RewriteSpec(p, objName, order, r)
    decreases |order|
  {
    if |order| == 0 then p
    else
      var front := order[..|order| - 1];
      var k := order[|order| - 1];
      assert order == front + [k];
      var d := Rewrite(p, objName, front);
      assert k in d;
      if Suffixed(k, objName) then
        StrippedNameNotSuffixed(k, objName);
        var r := d[StrippedName(k, objName) := d[k]];
        RewriteStepSuffixed(p, objName, front, k, d, r);
        r
      else
        RewriteStepPlain(p, objName, front, k, d);
        d
  }

  lemma RenamedSnoc(front: seq<string>, k: string, objName: string)
    ensures Suffixed(k, objName) ==>
      Renamed(front + [k], objName) == Renamed(front, objName) + {StrippedName(k, objName)}
    ensures !Suffixed(k, objName) ==> Renamed(front + [k], objName) == Renamed(front, objName)
  {
  }

  /** The last source of a name after one more key is visited. */
  lemma LastSourceSnoc(front: seq<string>, k: string, objName: string, n: string)
    ensures LastSource(front + [k], objName, n)
         == if IsSource(k, objName, n) then |front| else LastSource(front, objName, n)
  {
    assert (front + [k])[..|front|] == front;
  }

  /** Visiting a key without the suffix changes nothing. */
  lemma RewriteStepPlain(p: Params, objName: string, front: seq<string>, k: string, d: Params)
    requires k in p && !Suffixed(k, objName)
    requires RewriteSpec(p, objName, front, d)
    ensures RewriteSpec(p, objName, front + [k], d)
  {
    var order := front + [k];
    RenamedSnoc(front, k, objName);
    forall n | n in Renamed(order, objName)
      ensures LastSource(order, objName, n) == LastSource(front, objName, n)
    {
      LastSourceSnoc(front, k, objName, n);
    }
  }

  /** Visiting a suffixed key binds its stripped name to its value. */
  lemma RewriteStepSuffixed(p: Params, objName: string, front: seq<string>, k: string, d: Params, r: Params)
    requires k in p && Suffixed(k, objName)
    requires RewriteSpec(p, objName, front, d)
    requires !Suffixed(StrippedName(k, objName), objName)
    requires r == d[StrippedName(k, objName) := d[k]]
    ensures RewriteSpec(p, objName, front + [k], r)
  {
    RenamedSnoc(front, k, objName);
    RewriteStepKeepsOthers(p, objName, front, k, d, r);
    RewriteStepWinner(p, objName, front, k, d, r);
  }

  /** After visiting a suffixed key, keys other than its stripped name keep their values. */
  lemma RewriteStepKeepsOthers(p: Params, objName: string, front: seq<string>, k: string, d: Params, r: Params)
    requires k in p && Suffixed(k, objName)
    requires RewriteSpec(p, objName, front, d)
    requires r == d[StrippedName(k, objName) := d[k]]
    ensures r.Keys == p.Keys + Renamed(front + [k], objName)
    ensures forall k' :: k' in p && Suffixed(k', objName) ==> r[k'] == p[k']
    ensures forall k' :: k' in p && k' !in Renamed(front + [k], objName) ==> r[k'] == p[k']
  {
    StrippedNameNotSuffixed(k, objName);
    RenamedSnoc(front, k, objName);
  }

  /** After visiting a suffixed key, every renamed name holds the value of its last source. */
  lemma RewriteStepWinner(p: Params, objName: string, front: seq<string>, k: string, d: Params, r: Params)
    requires k in p && Suffixed(k, objName)
    requires RewriteSpec(p, objName, front, d)
    requires r == d[StrippedName(k, objName) := d[k]]
    ensures forall n :: n in Renamed(front + [k], objName) ==>
      LastSource(front + [k], objName, n) >= 0 && r[n] == p[(front + [k])[LastSource(front + [k], objName, n)]]
  {
    var order := front + [k];
    var n0 := StrippedName(k, objName);
    RenamedSnoc(front, k, objName);
    forall n | n in Renamed(order, objName)
      ensures LastSource(order, objName, n) >= 0 && r[n] == p[order[LastSource(order, objName, n)]]
    {
      LastSourceSnoc(front, k, objName, n);
      if n == n0 {
        assert r[n] == d[k] == p[k];
      } else {
        assert n in Renamed(front, objName);
        assert order[LastSource(front, objName, n)] == front[LastSource(front, objName, n)];
      }
    }
  }

  /** `order` lists the keys of `p`, each once: the iteration order of the dictionary. */
  predicate IsKeyOrder(order: seq<string>, p: Params) {
    && NoDuplicates(order)
    && (forall i :: 0 <= i < |order| ==> order[i] in p)
    && (forall k :: k in p ==> k in order)
  }

  /** True when `k` is suffixed and no other key of `p` is renamed to the same name. */
  predicate UniqueSource(p: Params, objName: string, k: string) {
    && Suffixed(k, objName)
    && forall k' :: k' in p && IsSource(k', objName, StrippedName(k, objName)) ==> k' == k
  }

  /**
   * `params.object_params(obj_name)`: a copy in which each key ending with
   * `"_" + obj_name` also provides its value under its stripped name,
   * overriding the general value. The dictionary's iteration order is the
   * input `order`; it decides only which value a stripped name gets when
   * several keys are renamed to it (the last one visited wins).
   */
  function ObjectParams(p: Params, objName: string, order: seq<string>): (r: Params)
    requires IsKeyOrder(order, p)
    ensures r.Keys == p.Keys + StrippedNames(p, objName)
    ensures forall k :: k in p && Suffixed(k, objName) ==> r[k] == p[k]
    ensures forall k :: k in p && k !in StrippedNames(p, objName) ==> r[k] == p[k]
    ensures forall n :: n in StrippedNames(p, objName) ==>
      exists k :: k in p && IsSource(k, objName, n) && r[n] == p[k]
    ensures forall n :: n in StrippedNames(p, objName) ==>
      LastSource(order, objName, n) >= 0 && r[n] == p[order[LastSource(order, objName, n)]]
    ensures forall k :: k in p && UniqueSource(p, objName, k) ==> r[StrippedName(k, objName)] == p[k]
  {
    assert Renamed(order, objName) == StrippedNames(p, objName);
    var r := Rewrite(p, objName, order);
    forall n | n in StrippedNames(p, objName)
      ensures exists k :: k in p && IsSource(k, objName, n) && r[n] == p[k]
    {
      var k := order[LastSource(order, objName, n)];
      assert k in p && IsSource(k, objName, n) && r[n] == p[k];
    }
    forall k | k in p && UniqueSource(p, objName, k)
      ensures r[StrippedName(k, objName)] == p[k]
    {
      var n := StrippedName(k, objName);
      assert n in StrippedNames(p, objName);
      assert IsSource(order[LastSource(order, objName, n)], objName, n);
    }
    r
  }

  /** The value of a key renamed to `n` (any one of them, when there are several). */
  ghost function SourceValue(p: Params, objName: string, n: string): string
    requires n in StrippedNames(p, objName)
  {
    var k :| k in p && IsSource(k, objName, n); p[k]
  }

  /**
   * The documented view, written without any loop: every key keeps its
   * value, except that each stripped name takes the value of a key renamed
   * to it.
   */
  ghost function OverriddenView(p: Params, objName: string): Params {
    map n | n in p.Keys + StrippedNames(p, objName) ::
      if n in StrippedNames(p, objName) then SourceValue(p, objName, n) else p[n]
  }

  /** True when no two suffixed keys of `p` are renamed to the same name. */
  predicate NoCollisions(p: Params, objName: string) {
    forall k :: k in p && Suffixed(k, objName) ==> UniqueSource(p, objName, k)
  }

  /** Without collisions, the loop computes the documented view. */
  lemma ObjectParamsIsOverriddenView(p: Params, objName: string, order: seq<string>)
    requires IsKeyOrder(order, p)
    requires NoCollisions(p, objName)
    ensures ObjectParams(p, objName, order) == OverriddenView(p, objName)
  {
    var r, v := ObjectParams(p, objName, order), OverriddenView(p, objName);
    ViewKeys(p, objName, order);
    forall n | n in r
      ensures r[n] == v[n]
    {
      ViewAgrees(p, objName, order, n);
    }
  }

  lemma ViewKeys(p: Params, objName: string, order: seq<string>)
    requires IsKeyOrder(order, p)
    ensures ObjectParams(p, objName, order).Keys == OverriddenView(p, objName).Keys
    ensures ObjectParams(p, objName, order).Keys == p.Keys + StrippedNames(p, objName)
  {
  }

  lemma ViewAgrees(p: Params, objName: string, order: seq<string>, n: string)
    requires IsKeyOrder(order, p)
    requires NoCollisions(p, objName)
    requires n in p.Keys + StrippedNames(p, objName)
    ensures ObjectParams(p, objName, order)[n] == OverriddenView(p, objName)[n]
  {
    if n in StrippedNames(p, objName) {
      var k :| k in p && IsSource(k, objName, n) && SourceValue(p, objName, n) == p[k];
      ViewValueOfSource(p, objName, order, k);
    }
  }

  /**
   * When no two keys are renamed to the same name, the dictionary's
   * iteration order does not matter: repeated calls give equal views.
   */
  lemma ObjectParamsOrderIndependent(p: Params, objName: string, o1: seq<string>, o2: seq<string>)
    requires IsKeyOrder(o1, p) && IsKeyOrder(o2, p)
    requires NoCollisions(p, objName)
    ensures ObjectParams(p, objName, o1) == ObjectParams(p, objName, o2)
  {
    ObjectParamsIsOverriddenView(p, objName, o1);
    ObjectParamsIsOverriddenView(p, objName, o2);
  }

  /** Without competing sources, a stripped name gets its source's value in any order. */
  lemma ViewValueOfSource(p: Params, objName: string, order: seq<string>, k: string)
    requires IsKeyOrder(order, p)
    requires NoCollisions(p, objName)
    requires k in p && Suffixed(k, objName)
    ensures ObjectParams(p, objName, order)[StrippedName(k, objName)] == p[k]
  {
    assert UniqueSource(p, objName, k);
  }

  /**
   * What a test sees through the view: a uniquely overridden name yields
   * the object-specific value, and a name that is neither a parameter nor
   * a stripped name is still a missing mandatory parameter.
   */
  lemma GetThroughObjectParams(p: Params, objName: string, order: seq<string>, k: string, absent: string)
    requires IsKeyOrder(order, p)
    requires k in p && UniqueSource(p, objName, k)
    requires absent !in p && absent !in StrippedNames(p, objName)
    ensures Get(ObjectParams(p, objName, order), StrippedName(k, objName)) == Success(p[k])
    ensures Get(ObjectParams(p, objName, order), absent) == Failure(ParamNotFound(absent))
  {
  }

  // ---------------------------------------------------------------------------
  // object_counts

  /** `"%s%s" % (base_name, number)`. */
  function SeriesKey(baseName: string, number: nat): (r: string)
    ensures |r| > |baseName| && r[..|baseName|] == baseName
    ensures IsDigits(r[|baseName|..]) && r[|baseName|..] == NatToDecimal(number)
  {
    baseName + NatToDecimal(number)
  }

  lemma SeriesKeyInjective(baseName: string, a: nat, b: nat)
    requires a != b
    ensures SeriesKey(baseName, a) != SeriesKey(baseName, b)
  {
    NatToDecimalInjective(a, b);
    assert SeriesKey(baseName, a)[|baseName|..] == NatToDecimal(a);
    assert SeriesKey(baseName, b)[|baseName|..] == NatToDecimal(b);
  }

  /** The count the series runs to: `int(params.get(count_key, 1))`. */
  function Count(p: Params, countKey: string): (r: Result<int, ParamError>)
    ensures countKey !in p ==> r == Success(1)
    ensures r.Failure? <==> countKey in p && ParseInt(p[countKey]).None?
    ensures r.Failure? ==> r.error == FormatError(p[countKey])
    ensures r.Success? && countKey in p ==> r.value == ParseInt(p[countKey]).value
  {
    if countKey !in p then Success(1)
    else match ParseInt(p[countKey])
      case Some(n) => Success(n)
      case None => Failure(FormatError(p[countKey]))
  }

  /** A count written out by `str` is read back as that number. */
  lemma CountOfWrittenNumber(p: Params, countKey: string, n: int)
    ensures Count(p[countKey := IntToDecimal(n)], countKey) == Success(n)
  {
    ParseIntToDecimal(n);
  }

  /**
   * The first n members of the series: `(base_name + str(i), cpy.get(...))`
   * for i = 1..n, in ascending order.
   */
  function Series(p: Params, baseName: string, n: nat): (r: seq<(string, Option<string>)>)
    ensures |r| == n
    ensures forall i :: 0 <= i < |r| ==>
      r[i].0 == SeriesKey(baseName, i + 1) && r[i].1 == Lookup(p, r[i].0)
  {
    if n == 0 then []
    else
      var key := SeriesKey(baseName, n);
      Series(p, baseName, n - 1) + [(key, Lookup(p, key))]
  }

  /** No key occurs twice in a series. */
  lemma SeriesKeysDistinct(p: Params, baseName: string, n: nat)
    ensures forall i, j :: 0 <= i < j < |Series(p, baseName, n)| ==>
      Series(p, baseName, n)[i].0 != Series(p, baseName, n)[j].0
  {
    var s := Series(p, baseName, n);
    forall i, j | 0 <= i < j < |s|
      ensures s[i].0 != s[j].0
    {
      SeriesKeyInjective(baseName, i + 1, j + 1);
    }
  }

  /**
   * `params.object_counts(count_key, base_name)`: the pairs
   * `(base_name + str(i), params.get(base_name + str(i)))` for i = 1..count,
   * read from a snapshot of the map; a count below 1 yields nothing.
   */
  function ObjectCounts(p: Params, countKey: string, baseName: string)
    : (r: Result<seq<(string, Option<string>)>, ParamError>)
    ensures countKey !in p ==> r.Success? && |r.value| == 1
    ensures r.Failure? <==> countKey in p && ParseInt(p[countKey]).None?
    ensures r.Failure? ==> r.error == FormatError(p[countKey])
    ensures r.Success? && countKey in p ==>
      |r.value| == if ParseInt(p[countKey]).value > 0 then ParseInt(p[countKey]).value else 0
    ensures r.Success? ==> forall i :: 0 <= i < |r.value| ==>
      r.value[i].0 == SeriesKey(baseName, i + 1) && r.value[i].1 == Lookup(p, r.value[i].0)
    ensures r.Success? ==> forall i, j :: 0 <= i < j < |r.value| ==> r.value[i].0 != r.value[j].0
  {
    match Count(p, countKey)
    case Failure(e) => Failure(e)
    case Success(count) =>
      var n := if count > 0 then count else 0;
      SeriesKeysDistinct(p, baseName, n);
      Success(Series(p, baseName, n))
  }

  // ---------------------------------------------------------------------------
  // copy_from_keys

  /** Python truthiness of `params.get(key)` on string values: present and non-empty. */
  predicate Truthy(v: Option<string>)
    ensures Truthy(v) ==> v.Some?
    ensures v.Some? ==> (Truthy(v) <==> |v.value| > 0)
  {
    v.Some? && v.value != ""
  }

  /**
   * `params.copy_from_keys(keys)`: the bindings of the listed keys whose
   * values are non-empty; absent and empty-valued keys are left out.
   */
  function CopyFromKeys(p: Params, keys: seq<string>): (r: Params)
    ensures r.Keys == set k | k in keys && k in p && p[k] != ""
    ensures forall k :: k in r ==> r[k] == p[k]
    decreases |keys|
  {
    if |keys| == 0 then map[]
    else
      var front := keys[..|keys| - 1];
      var k := keys[|keys| - 1];
      var d := CopyFromKeys(p, front);
      assert keys == front + [k];
      if Truthy(Lookup(p, k)) then d[k := p[k]] else d
  }

  /** Copying the same keys from a copy changes nothing more. */
  lemma CopyFromKeysIdempotent(p: Params, keys: seq<string>)
    ensures CopyFromKeys(CopyFromKeys(p, keys), keys) == CopyFromKeys(p, keys)
  {
    var c := CopyFromKeys(p, keys);
    var cc := CopyFromKeys(c, keys);
    assert cc.Keys == c.Keys;
  }

  /** Only the set of listed keys matters, not their order or repetition. */
  lemma CopyFromKeysSameElements(p: Params, keys1: seq<string>, keys2: seq<string>)
    requires SameElements(keys1, keys2)
    ensures CopyFromKeys(p, keys1) == CopyFromKeys(p, keys2)
  {
    var c1, c2 := CopyFromKeys(p, keys1), CopyFromKeys(p, keys2);
    forall k | k in c1
      ensures k in c2
    {
      var i :| 0 <= i < |keys1| && keys1[i] == k;
    }
    forall k | k in c2
      ensures k in c1
    {
      var i :| 0 <= i < |keys2| && keys2[i] == k;
    }
    assert c1.Keys == c2.Keys;
  }
}
