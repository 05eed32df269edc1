/** What deduplicating one schema's enumeration does, stated on values: keep
  * the first occurrence of every value under ordinal case-insensitive
  * comparison, keep the display name that sits at the same index, and
  * leave the schema alone unless something was removed. */
module EnumDeduplication {
  import opened Wrappers

  /** One member of a schema's `Enumeration`. Members that are not strings
    * are only ever tested for being strings, so their JSON text stands in
    * for them. */
  datatype EnumValue = EnumString(text: string) | EnumNonString(json: string)

  /** One entry of `EnumerationNames`; entries may be null. */
  type Name = Option<string>

  /** The two lists of a schema that the deduplication rewrites; `None` is a
    * null list. */
  datatype EnumState = EnumState(values: Option<seq<EnumValue>>, names: Option<seq<Name>>)

  /** Upper-casing of one character, restricted to ASCII letters. */
  function UpperAscii(c: char): char {
    if 'a' <= c <= 'z' then (c as int - 32) as char else c
  }

  function Fold(s: string): string {
    seq(|s|, i requires 0 <= i < |s| => UpperAscii(s[i]))
  }

  /** `StringComparer.OrdinalIgnoreCase.Equals`. */
  predicate SameIgnoringCase(a: string, b: string) {
    Fold(a) == Fold(b)
  }

  predicate AllStrings(vals: seq<EnumValue>) {
    forall i :: 0 <= i < |vals| ==> vals[i].EnumString?
  }

  /** The guard of the rewrite: a non-null enumeration with more than one
    * member, every member a string. */
  predicate Eligible(e: EnumState) {
    e.values.Some? && |e.values.value| > 1 && AllStrings(e.values.value)
  }

  /** The members of an all-string enumeration as strings. */
  function Texts(vals: seq<EnumValue>): (ts: seq<string>)
    requires AllStrings(vals)
    ensures |ts| == |vals|
  {
    seq(|vals|, i requires 0 <= i < |vals| => vals[i].text)
  }

  function Strings(ts: seq<string>): (vals: seq<EnumValue>)
    ensures |vals| == |ts| && AllStrings(vals)
  {
    seq(|ts|, i requires 0 <= i < |ts| => EnumString(ts[i]))
  }

  /** Two positions hold values equal up to case. */
  predicate HasDuplicate(ts: seq<string>) {
    exists i, j :: 0 <= i < j < |ts| && SameIgnoringCase(ts[i], ts[j])
  }

  /** No earlier position holds a value equal to `ts[i]` up to case. */
  predicate IsFirst(ts: seq<string>, i: int)
    requires 0 <= i < |ts|
  {
    forall j :: 0 <= j < i ==> !SameIgnoringCase(ts[j], ts[i])
  }

  /** The indices, in increasing order, of the first occurrences among the
    * first `n` values. */
  function Survivors(ts: seq<string>, n: nat): (keep: seq<nat>)
    requires n <= |ts|
    ensures |keep| <= n
    ensures forall k :: 0 <= k < |keep| ==> keep[k] < n
  {
    if n == 0 then []
    else Survivors(ts, n - 1) + (if IsFirst(ts, n - 1) then [n - 1] else [])
  }

  predicate Increasing(keep: seq<nat>) {
    forall a, b :: 0 <= a < b < |keep| ==> keep[a] < keep[b]
  }

  function Pick(ts: seq<string>, keep: seq<nat>): seq<string>
    requires forall k :: 0 <= k < |keep| ==> keep[k] < |ts|
  {
    seq(|keep|, k requires 0 <= k < |keep| => ts[keep[k]])
  }

  /** The names at the kept indices, skipping every index the names list is
    * too short to have. */
  function PickNames(names: seq<Name>, keep: seq<nat>): seq<Name> {
    if |keep| == 0 then []
    else
      var last := keep[|keep| - 1];
      PickNames(names, keep[..|keep| - 1]) + (if last < |names| then [names[last]] else [])
  }

  /** The state of a schema's two lists after the deduplication. */
  function Deduplicated(e: EnumState): (r: EnumState)
    ensures r.values.Some? <==> e.values.Some?
    ensures r.names.Some? <==> e.names.Some?
  {
    if Eligible(e) then
      var ts := Texts(e.values.value);
      var keep := Survivors(ts, |ts|);
      if |keep| != |ts| then
        EnumState(Some(Strings(Pick(ts, keep))),
                  if e.names.Some? then Some(PickNames(e.names.value, keep)) else None)
      else e
    else e
  }

  // ---------------------------------------------------------------------
  // The comparer

  lemma SameIgnoringCaseIsEquivalence()
    ensures forall a :: SameIgnoringCase(a, a)
    ensures forall a, b :: SameIgnoringCase(a, b) ==> SameIgnoringCase(b, a)
    ensures forall a, b, c :: SameIgnoringCase(a, b) && SameIgnoringCase(b, c) ==> SameIgnoringCase(a, c)
  {
  }

  // ---------------------------------------------------------------------
  // The surviving indices

  /** An index survives exactly when it is the first occurrence of its value. */
  lemma {:induction false} SurvivorsExact(ts: seq<string>, n: nat)
    requires n <= |ts|
    ensures forall i :: i in Survivors(ts, n) <==> 0 <= i < n && IsFirst(ts, i)
  {
    if n > 0 {
      SurvivorsExact(ts, n - 1);
    }
  }

  /** Survivors come in their original order. */
  lemma {:induction false} SurvivorsIncreasing(ts: seq<string>, n: nat)
    requires n <= |ts|
    ensures Increasing(Survivors(ts, n))
  {
    if n > 0 {
      SurvivorsIncreasing(ts, n - 1);
    }
  }

  /** The position of the first value equal, up to case, to `ts[j]`,
    * searching from `i`. */
  function FirstAt(ts: seq<string>, j: nat, i: nat): (r: nat)
    requires i <= j < |ts|
    ensures i <= r <= j && SameIgnoringCase(ts[r], ts[j])
    ensures forall m :: i <= m < r ==> !SameIgnoringCase(ts[m], ts[j])
    decreases j - i
  {
    if SameIgnoringCase(ts[i], ts[j]) then i else FirstAt(ts, j, i + 1)
  }

  /** Every value is equal, up to case, to a first occurrence at or before it. */
  lemma FirstAtIsFirst(ts: seq<string>, j: nat)
    requires j < |ts|
    ensures IsFirst(ts, FirstAt(ts, j, 0))
  {
    var r := FirstAt(ts, j, 0);
    SameIgnoringCaseIsEquivalence();
    forall m | 0 <= m < r ensures !SameIgnoringCase(ts[m], ts[r]) {
      assert !SameIgnoringCase(ts[m], ts[j]);
    }
  }

  /** One more value either joins the survivors, with its name if the names
    * list reaches it, or is dropped. */
  lemma SurvivorsStep(ts: seq<string>, names: seq<Name>, i: nat)
    requires i < |ts|
    ensures Pick(ts, Survivors(ts, i + 1)) ==
            Pick(ts, Survivors(ts, i)) + (if IsFirst(ts, i) then [ts[i]] else [])
    ensures PickNames(names, Survivors(ts, i + 1)) ==
            PickNames(names, Survivors(ts, i)) + (if IsFirst(ts, i) && i < |names| then [names[i]] else [])
  {
    var keep := Survivors(ts, i);
    if IsFirst(ts, i) {
      assert Survivors(ts, i + 1) == keep + [i];
      assert (keep + [i])[..|keep|] == keep;
    } else {
      assert Survivors(ts, i + 1) == keep;
    }
  }

  /** All values survive exactly when each one is a first occurrence. */
  lemma {:induction false} SurvivorsCount(ts: seq<string>, n: nat)
    requires n <= |ts|
    ensures |Survivors(ts, n)| == n <==> forall i :: 0 <= i < n ==> IsFirst(ts, i)
  {
    if n > 0 {
      SurvivorsCount(ts, n - 1);
    }
  }

  /** When nothing is removed the survivors are every index. */
  lemma {:induction false} SurvivorsAll(ts: seq<string>, n: nat)
    requires n <= |ts|
    requires |Survivors(ts, n)| == n
    ensures forall k :: 0 <= k < n ==> Survivors(ts, n)[k] == k
  {
    if n > 0 {
      SurvivorsAll(ts, n - 1);
    }
  }

  lemma FirstEverywhereIffNoDuplicate(ts: seq<string>)
    ensures (forall i :: 0 <= i < |ts| ==> IsFirst(ts, i)) <==> !HasDuplicate(ts)
  {
    if HasDuplicate(ts) {
      var i, j :| 0 <= i < j < |ts| && SameIgnoringCase(ts[i], ts[j]);
      assert !IsFirst(ts, j);
    }
  }

  /** The deduplication removes something exactly when two values are equal
    * up to case. */
  lemma SomethingRemovedIff(ts: seq<string>)
    ensures |Survivors(ts, |ts|)| != |ts| <==> HasDuplicate(ts)
  {
    SurvivorsCount(ts, |ts|);
    FirstEverywhereIffNoDuplicate(ts);
  }

  /** The kept values are pairwise distinct up to case. */
  lemma PickedAreDistinct(ts: seq<string>)
    ensures !HasDuplicate(Pick(ts, Survivors(ts, |ts|)))
  {
    var keep := Survivors(ts, |ts|);
    var out := Pick(ts, keep);
    SurvivorsIncreasing(ts, |ts|);
    SurvivorsExact(ts, |ts|);
    forall a, b | 0 <= a < b < |out| ensures !SameIgnoringCase(out[a], out[b]) {
      assert keep[b] in keep && keep[a] < keep[b];
      assert IsFirst(ts, keep[b]);
    }
  }

  // ---------------------------------------------------------------------
  // The names

  /** The kept names are the names at a prefix of the kept indices: those
    * indices the names list reaches. */
  lemma {:induction false} PickNamesPrefix(names: seq<Name>, keep: seq<nat>)
    requires Increasing(keep)
    ensures |PickNames(names, keep)| <= |keep|
    ensures forall k :: 0 <= k < |keep| ==> (k < |PickNames(names, keep)| <==> keep[k] < |names|)
    ensures forall k :: 0 <= k < |PickNames(names, keep)| ==> PickNames(names, keep)[k] == names[keep[k]]
  {
    if |keep| > 0 {
      var init := keep[..|keep| - 1];
      assert Increasing(init);
      PickNamesPrefix(names, init);
    }
  }

  // ---------------------------------------------------------------------
  // The rewrite of one schema

  lemma TextsOfStrings(ts: seq<string>)
    ensures Texts(Strings(ts)) == ts
  {
  }

  lemma StringsAppend(ts: seq<string>, t: string)
    ensures Strings(ts + [t]) == Strings(ts) + [EnumString(t)]
  {
  }

  /** The lists change exactly when the guard holds and two values are equal
    * up to case; in every other case (null, at most one member, a
    * non-string member, no duplicate) both lists are left as they were. */
  lemma DeduplicatedChangesIff(e: EnumState)
    ensures Deduplicated(e) != e <==> Eligible(e) && HasDuplicate(Texts(e.values.value))
  {
    if Eligible(e) {
      SomethingRemovedIff(Texts(e.values.value));
    }
  }

  /** The new enumeration keeps, in their original order and casing, exactly
    * the first occurrence of each value, and loses no value up to case. */
  lemma DeduplicatedKeepsFirstOccurrences(e: EnumState)
    requires Eligible(e)
    ensures var ts := Texts(e.values.value);
            var keep := Survivors(ts, |ts|);
            var r := Deduplicated(e);
            r.values.Some? && AllStrings(r.values.value) &&
            Texts(r.values.value) == Pick(ts, keep) &&
            Increasing(keep) &&
            (forall i :: i in keep <==> 0 <= i < |ts| && IsFirst(ts, i)) &&
            (forall j :: 0 <= j < |ts| ==>
               exists k :: 0 <= k < |keep| && SameIgnoringCase(Pick(ts, keep)[k], ts[j]))
  {
    var ts := Texts(e.values.value);
    var keep := Survivors(ts, |ts|);
    var out := Pick(ts, keep);
    SurvivorsIncreasing(ts, |ts|);
    SurvivorsExact(ts, |ts|);
    if |keep| == |ts| {
      SurvivorsAll(ts, |ts|);
      assert out == ts;
    } else {
      TextsOfStrings(out);
    }
    forall j | 0 <= j < |ts|
      ensures exists k :: 0 <= k < |keep| && SameIgnoringCase(out[k], ts[j])
    {
      var i := FirstAt(ts, j, 0);
      FirstAtIsFirst(ts, j);
      assert i in keep;
      var k :| 0 <= k < |keep| && keep[k] == i;
      assert out[k] == ts[i];
    }
  }

  /** After the rewrite no two values of an eligible enumeration are equal up
    * to case. */
  lemma DeduplicatedNoDuplicates(e: EnumState)
    requires Eligible(e)
    ensures AllStrings(Deduplicated(e).values.value)
    ensures !HasDuplicate(Texts(Deduplicated(e).values.value))
  {
    var ts := Texts(e.values.value);
    DeduplicatedKeepsFirstOccurrences(e);
    PickedAreDistinct(ts);
  }

  /** When values were removed, the names list becomes the names at the kept
    * indices that it reaches (a null list stays null), so it never ends up
    * longer than the values list, and each name stays beside its value. */
  lemma DeduplicatedNames(e: EnumState)
    requires Eligible(e) && HasDuplicate(Texts(e.values.value))
    ensures var ts := Texts(e.values.value);
            var keep := Survivors(ts, |ts|);
            var r := Deduplicated(e);
            (e.names.None? ==> r.names.None?) &&
            (e.names.Some? ==>
               r.names == Some(PickNames(e.names.value, keep)) &&
               |r.names.value| <= |r.values.value| &&
               forall k :: 0 <= k < |r.names.value| ==>
                 keep[k] < |e.names.value| && r.names.value[k] == e.names.value[keep[k]])
  {
    var ts := Texts(e.values.value);
    SomethingRemovedIff(ts);
    SurvivorsIncreasing(ts, |ts|);
    if e.names.Some? {
      PickNamesPrefix(e.names.value, Survivors(ts, |ts|));
    }
  }

  /** Rewriting a second time changes nothing. */
  lemma DeduplicatedIdempotent(e: EnumState)
    ensures Deduplicated(Deduplicated(e)) == Deduplicated(e)
  {
    var r := Deduplicated(e);
    if r != e {
      DeduplicatedChangesIff(e);
      DeduplicatedNoDuplicates(e);
      DeduplicatedChangesIff(r);
    }
  }

  // ---------------------------------------------------------------------
  // A worked example

  /** Two spellings of one word, letter by letter. */
  lemma SameWord(a: string, b: string, upper: string)
    requires |a| == |b| == |upper|
    requires forall i :: 0 <= i < |a| ==> UpperAscii(a[i]) == upper[i] == UpperAscii(b[i])
    ensures SameIgnoringCase(a, b)
  {
    assert Fold(a) == upper == Fold(b);
  }

  /** Which of the example's values are equal up to case. */
  lemma StatusPairs(ts: seq<string>)
    requires ts == ["Active", "active", "INACTIVE", "inactive"]
    ensures SameIgnoringCase(ts[0], ts[1]) && SameIgnoringCase(ts[2], ts[3])
    ensures |ts[0]| == |ts[1]| == 6 && |ts[2]| == |ts[3]| == 8
  {
    SameWord(ts[0], ts[1], "ACTIVE");
    SameWord(ts[2], ts[3], "INACTIVE");
  }

  /** The first occurrences of the example's values. */
  lemma StatusSurvivors(ts: seq<string>)
    requires ts == ["Active", "active", "INACTIVE", "inactive"]
    ensures Survivors(ts, |ts|) == [0, 2]
  {
    StatusPairs(ts);
    assert |Fold(ts[0])| != |Fold(ts[2])| && |Fold(ts[1])| != |Fold(ts[2])|;
    assert IsFirst(ts, 0) && !IsFirst(ts, 1);
    assert IsFirst(ts, 2) && !IsFirst(ts, 3);
    assert Survivors(ts, 2) == [0];
  }

  /** `["Active", "active", "INACTIVE", "inactive"]` named `["A", "a", "I",
    * "i"]` becomes `["Active", "INACTIVE"]` named `["A", "I"]`. */
  lemma ExampleStatuses(e: EnumState)
    requires e == EnumState(Some([EnumString("Active"), EnumString("active"),
                                  EnumString("INACTIVE"), EnumString("inactive")]),
                            Some([Some("A"), Some("a"), Some("I"), Some("i")]))
    ensures Deduplicated(e) == EnumState(Some([EnumString("Active"), EnumString("INACTIVE")]),
                                         Some([Some("A"), Some("I")]))
  {
    assert Eligible(e);
    var ts := Texts(e.values.value);
    assert ts == ["Active", "active", "INACTIVE", "inactive"];
    StatusSurvivors(ts);
    assert [0, 2][..1] == [0];
    assert PickNames(e.names.value, [0, 2]) == [Some("A"), Some("I")];
    assert Strings(Pick(ts, [0, 2])) == [EnumString("Active"), EnumString("INACTIVE")];
  }
}
