/**
 * The override rule of `object_params` as its doc comment states it, in
 * general and on an example map, and example inputs for deduplication of
 * object names, the numbered series and the filtering copy.
 */
module Examples {
  import opened Strings
  import opened Distinct
  import opened UtilsParams
  import opened Decimal
  import opened Wrappers

  /**
   * Appending the suffix to a name that the suffix does not start inside of
   * gives a key whose stripped name is that name again.
   */
  lemma StripAppendedSuffix(base: string, objName: string)
    requires forall i: nat :: i < |base| ==> !OccursAt(base + Suffix(objName), Suffix(objName), i)
    ensures Suffixed(base + Suffix(objName), objName)
    ensures StrippedName(base + Suffix(objName), objName) == base
    ensures !Suffixed(base, objName)
  {
    var sfx := Suffix(objName);
    var k := base + sfx;
    assert k[|base|..] == sfx;
    var n := StrippedName(k, objName);
    BeforeFirstOccurrence(k, sfx);
    assert OccursAt(k, sfx, |base|) by {
      assert k[|base|..|base| + |sfx|] == sfx;
    }
    assert |n| == |base|;
    assert n == k[..|base|] == base;
    if Suffixed(base, objName) {
      var i := |base| - |sfx|;
      assert k[i..i + |sfx|] == base[i..];
      assert OccursAt(k, sfx, i);
    }
  }

  /**
   * The override rule on a three-key map: with a general value under `base`, a value
   * specific to the object under `base + "_" + objName`, and an unrelated
   * key, the object's view binds `base` to the specific value, keeps the
   * suffixed key, and leaves the unrelated key alone — whatever the
   * dictionary's iteration order.
   */
  lemma OverrideOfGeneralValue(base: string, objName: string, other: string,
                               general: string, specific: string, v: string, order: seq<string>)
    requires forall i: nat :: i < |base| ==> !OccursAt(base + Suffix(objName), Suffix(objName), i)
    requires other != base && other != base + Suffix(objName) && !Suffixed(other, objName)
    requires IsKeyOrder(order, map[base := general, base + Suffix(objName) := specific, other := v])
    ensures ObjectParams(map[base := general, base + Suffix(objName) := specific, other := v], objName, order)
         == map[base := specific, base + Suffix(objName) := specific, other := v]
  {
    var k := base + Suffix(objName);
    var p := map[base := general, k := specific, other := v];
    StripAppendedSuffix(base, objName);
    assert p.Keys == {base, k, other};
    OverrideView(base, objName, other, order, p);
    ThreeBindings(ObjectParams(p, objName, order), base, k, other, specific, v);
  }

  /** The bindings of the view, one by one. */
  lemma OverrideView(base: string, objName: string, other: string, order: seq<string>, p: Params)
    requires forall i: nat :: i < |base| ==> !OccursAt(base + Suffix(objName), Suffix(objName), i)
    requires other != base && other != base + Suffix(objName) && !Suffixed(other, objName)
    requires p.Keys == {base, base + Suffix(objName), other}
    requires IsKeyOrder(order, p)
    ensures var r := ObjectParams(p, objName, order);
      && r.Keys == {base, base + Suffix(objName), other}
      && r[base] == p[base + Suffix(objName)]
      && r[base + Suffix(objName)] == p[base + Suffix(objName)]
      && r[other] == p[other]
  {
    OverrideSources(base, objName, other, p);
    StripAppendedSuffix(base, objName);
  }

  lemma ThreeBindings(r: Params, a: string, b: string, c: string, x: string, y: string)
    requires r.Keys == {a, b, c} && r[a] == x && r[b] == x && r[c] == y
    requires c != a && c != b
    ensures r == map[a := x, b := x, c := y]
  {
  }

  /**
   * An example: for object `mynic`, `nic_model_mynic` overrides
   * `nic_model`, and `mac` is untouched.
   */
  lemma NicModelOverride(order: seq<string>)
    requires IsKeyOrder(order, map["nic_model" := "e1000", "nic_model_mynic" := "virtio", "mac" := "00:11"])
    ensures ObjectParams(map["nic_model" := "e1000", "nic_model_mynic" := "virtio", "mac" := "00:11"], "mynic", order)
         == map["nic_model" := "virtio", "nic_model_mynic" := "virtio", "mac" := "00:11"]
  {
    assert Suffix("mynic") == "_mynic";
    assert "nic_model" + Suffix("mynic") == "nic_model_mynic";
    NicModelSuffixStartsLate();
    assert !Suffixed("mac", "mynic");
    OverrideOfGeneralValue("nic_model", "mynic", "mac", "e1000", "virtio", "00:11", order);
  }

  /** `_mynic` starts nowhere inside `nic_model` in `nic_model_mynic`. */
  lemma NicModelSuffixStartsLate()
    ensures forall i: nat :: i < 9 ==> !OccursAt("nic_model_mynic", "_mynic", i)
  {
    var k := "nic_model_mynic";
    forall i: nat | i < 9
      ensures !OccursAt(k, "_mynic", i)
    {
      if i == 3 {
        assert k[3..9][2] == 'o';
      } else {
        assert k[i..i + 6][0] == k[i];
      }
    }
  }

  /** In the three-key map only the suffixed key is renamed, and it alone is renamed to `base`. */
  lemma OverrideSources(base: string, objName: string, other: string, p: Params)
    requires forall i: nat :: i < |base| ==> !OccursAt(base + Suffix(objName), Suffix(objName), i)
    requires other != base && other != base + Suffix(objName) && !Suffixed(other, objName)
    requires p.Keys == {base, base + Suffix(objName), other}
    ensures StrippedNames(p, objName) == {base}
    ensures UniqueSource(p, objName, base + Suffix(objName))
  {
    StripAppendedSuffix(base, objName);
    var k := base + Suffix(objName);
    forall k' | k' in p && Suffixed(k', objName)
      ensures k' == k
    {
    }
  }

  /** A name listed again after another one is dropped the second time. */
  lemma DedupRepeat<T>(a: T, b: T)
    requires a != b
    ensures Dedup([a, b, a]) == [a, b]
  {
    DedupTwo(a, b);
    DedupSnoc([a, b], a);
    assert [a, b] + [a] == [a, b, a];
  }

  lemma DedupTwo<T>(a: T, b: T)
    requires a != b
    ensures Dedup([a, b]) == [a, b]
  {
    DedupOne(a);
    DedupSnoc([a], b);
    assert [a] + [b] == [a, b];
  }

  lemma DedupOne<T>(a: T)
    ensures Dedup([a]) == [a]
  {
    DedupSnoc([], a);
    assert [] + [a] == [a];
  }

  /** The value `"a b a"` lists the objects `a` and `b`, once each, in that order. */
  lemma ObjectsRepeatedName(p: Params, key: string, a: string, b: string)
    requires AreWords([a, b, a]) && a != b
    requires key in p && p[key] == Join([a, b, a])
    ensures Objects(p, key) == [a, b]
  {
    SplitJoin([a, b, a]);
    DedupRepeat(a, b);
  }

  /** `"nic1 nic2 nic1"` lists the objects `nic1` and `nic2`, once each. */
  lemma ObjectsDropRepeatedName()
    ensures Objects(map["nics" := "nic1 nic2 nic1"], "nics") == ["nic1", "nic2"]
  {
    JoinNics();
    assert "nic1"[3] != "nic2"[3];
    ObjectsRepeatedName(map["nics" := "nic1 nic2 nic1"], "nics", "nic1", "nic2");
  }

  lemma JoinNics()
    ensures Join(["nic1", "nic2", "nic1"]) == "nic1 nic2 nic1"
  {
    var words := ["nic1", "nic2", "nic1"];
    assert Join(words[2..]) == "nic1";
    assert Join(words[1..]) == "nic2 nic1";
  }

  /** The empty value of `b` keeps it out of the copy. */
  lemma CopySkipsEmptyValue()
    ensures CopyFromKeys(map["a" := "1", "b" := "", "c" := "3"], ["a", "b", "c"]) == map["a" := "1", "c" := "3"]
  {
    var r := CopyFromKeys(map["a" := "1", "b" := "", "c" := "3"], ["a", "b", "c"]);
    assert r.Keys == {"a", "c"};
  }

  /**
   * A series of three nics where the second is not configured: the pairs
   * run from `nic1` to `nic3`, and `nic2` is paired with `None`.
   */
  lemma NicSeriesWithGap()
    ensures ObjectCounts(map["nic_count" := "3", "nic1" := "e1000", "nic3" := "virtio"], "nic_count", "nic")
      == Success([("nic1", Some("e1000")), ("nic2", None), ("nic3", Some("virtio"))])
  {
    var p := map["nic_count" := "3", "nic1" := "e1000", "nic3" := "virtio"];
    assert NatToDecimal(1) == "1" && NatToDecimal(2) == "2" && NatToDecimal(3) == "3";
    ParseIntToDecimal(3);
    assert ParseInt(p["nic_count"]) == Some(3);
    var r := ObjectCounts(p, "nic_count", "nic");
    assert r.Success? && |r.value| == 3;
    assert SeriesKey("nic", 1) == "nic1" && SeriesKey("nic", 2) == "nic2" && SeriesKey("nic", 3) == "nic3";
    assert Lookup(p, "nic1") == Some("e1000") && Lookup(p, "nic3") == Some("virtio");
    assert r.value[0] == ("nic1", Some("e1000"));
    assert r.value[1] == ("nic2", None) by { assert "nic2" !in p; }
    assert r.value[2] == ("nic3", Some("virtio"));
    assert r.value == [("nic1", Some("e1000")), ("nic2", None), ("nic3", Some("virtio"))];
  }
}
