/**
 * The list logic of src/components/ScenesSelector.jsx: `toggle`,
 * `toggleAll`, `allSelected`, the captions of the two buttons and the
 * enabling of the generate button. The component hands every new list to
 * `setSelected`; here each operation returns it.
 */
module ScenesSelector {
  import opened Catalogue
  import opened Strings

  // ---------------------------------------------------------------------
  // toggle

  /** `selected.filter((k) => k !== key)`. */
  function Without(selected: seq<string>, key: string): (r: seq<string>)
    ensures key !in r
    ensures |r| <= |selected|
  {
    if selected == [] then []
    else (if selected[0] == key then [] else [selected[0]]) + Without(selected[1..], key)
  }

  /** Filtering keeps the order: it distributes over concatenation. */
  lemma {:induction false} WithoutConcat(a: seq<string>, b: seq<string>, key: string)
    ensures Without(a + b, key) == Without(a, key) + Without(b, key)
  {
    if a == [] {
      assert a + b == b;
    } else {
      assert (a + b)[0] == a[0];
      assert (a + b)[1..] == a[1..] + b;
      WithoutConcat(a[1..], b, key);
    }
  }

  /** Filtering out a key that is there makes the list shorter. */
  lemma {:induction false} WithoutShrinks(selected: seq<string>, key: string)
    requires key in selected
    ensures |Without(selected, key)| < |selected|
  {
    if selected[0] != key {
      WithoutShrinks(selected[1..], key);
    }
  }

  /** Filtering out a key that is not there changes nothing. */
  lemma {:induction false} WithoutAbsent(selected: seq<string>, key: string)
    requires key !in selected
    ensures Without(selected, key) == selected
  {
    if selected != [] {
      WithoutAbsent(selected[1..], key);
    }
  }

  /** Filtering keeps exactly the other keys. */
  lemma {:induction false} WithoutMembers(selected: seq<string>, key: string, x: string)
    ensures x in Without(selected, key) <==> x in selected && x != key
  {
    if selected != [] {
      WithoutMembers(selected[1..], key, x);
      assert selected == [selected[0]] + selected[1..];
    }
  }

  /** Filtering removes every copy of the key and keeps the count of every other key. */
  lemma {:induction false} WithoutCounts(selected: seq<string>, key: string)
    ensures multiset(Without(selected, key)) == multiset(selected)[key := 0]
  {
    if selected != [] {
      WithoutCounts(selected[1..], key);
      assert selected == [selected[0]] + selected[1..];
    }
  }

  /** `toggle(key)`: drop every copy of a selected key, or append an unselected one. */
  function Toggle(selected: seq<string>, key: string): (r: seq<string>)
    ensures key in r <==> key !in selected
    ensures |r| != |selected|
  {
    if key in selected then
      WithoutShrinks(selected, key);
      Without(selected, key)
    else selected + [key]
  }

  /** Toggling flips the key's membership and no other key's. */
  lemma ToggleFlipsMembership(selected: seq<string>, key: string, other: string)
    ensures key in Toggle(selected, key) <==> key !in selected
    ensures other != key ==> (other in Toggle(selected, key) <==> other in selected)
  {
    WithoutMembers(selected, key, other);
  }

  /**
   * Toggling a selected key deletes all its copies and keeps every other
   * key in its original order.
   */
  lemma {:induction false} TogglePresent(a: seq<string>, key: string, b: seq<string>)
    ensures Toggle(a + [key] + b, key) == Without(a, key) + Without(b, key)
  {
    var s := a + [key] + b;
    assert key in s by { assert s[|a|] == key; }
    WithoutConcat(a + [key], b, key);
    WithoutConcat(a, [key], key);
    WithoutOnlyKey(key);
  }

  lemma WithoutOnlyKey(key: string)
    ensures Without([key], key) == []
  {
    assert [key][1..] == [];
  }

  /** Toggling a selected key keeps the count of every other key. */
  lemma TogglePresentCounts(selected: seq<string>, key: string)
    requires key in selected
    ensures multiset(Toggle(selected, key)) == multiset(selected)[key := 0]
  {
    WithoutCounts(selected, key);
  }

  /** Toggling an unselected key appends it and leaves the rest as it was. */
  lemma ToggleAbsent(selected: seq<string>, key: string)
    requires key !in selected
    ensures Toggle(selected, key) == selected + [key]
    ensures Toggle(selected, key)[..|selected|] == selected
  {
  }

  /** Toggling an unselected key twice gives back the original list. */
  lemma ToggleAbsentTwice(selected: seq<string>, key: string)
    requires key !in selected
    ensures Toggle(Toggle(selected, key), key) == selected
  {
    var once := selected + [key];
    assert key in once by { assert once[|selected|] == key; }
    WithoutConcat(selected, [key], key);
    WithoutAbsent(selected, key);
    WithoutOnlyKey(key);
  }

  /** A key in front of a list without it, and without repeats, gives a list without repeats. */
  lemma DistinctCons(x: string, rest: seq<string>)
    requires Distinct(rest) && x !in rest
    ensures Distinct([x] + rest)
  {
    var s := [x] + rest;
    forall i, j | 0 <= i < j < |s| ensures s[i] != s[j] {
      assert s[j] == rest[j - 1];
      if i > 0 { assert s[i] == rest[i - 1]; }
    }
  }

  /** The tail of a list without repeats has none, and lacks the head. */
  lemma DistinctTail(s: seq<string>)
    requires Distinct(s) && s != []
    ensures Distinct(s[1..]) && s[0] !in s[1..]
  {
    var rest := s[1..];
    forall i, j | 0 <= i < j < |rest| ensures rest[i] != rest[j] {
      assert rest[i] == s[i + 1] && rest[j] == s[j + 1];
    }
    forall i | 0 <= i < |rest| ensures rest[i] != s[0] {
      assert rest[i] == s[i + 1];
    }
  }

  lemma {:induction false} WithoutKeepsDistinct(selected: seq<string>, key: string)
    requires Distinct(selected)
    ensures Distinct(Without(selected, key))
  {
    if selected != [] {
      var rest := selected[1..];
      DistinctTail(selected);
      WithoutKeepsDistinct(rest, key);
      WithoutMembers(rest, key, selected[0]);
      if selected[0] != key {
        DistinctCons(selected[0], Without(rest, key));
      } else {
        assert Without(selected, key) == [] + Without(rest, key);
      }
    }
  }

  /** A selection without repeated keys stays without them after a toggle. */
  lemma ToggleKeepsDistinct(selected: seq<string>, key: string)
    requires Distinct(selected)
    ensures Distinct(Toggle(selected, key))
  {
    if key in selected {
      WithoutKeepsDistinct(selected, key);
    }
  }

  // ---------------------------------------------------------------------
  // allSelected and toggleAll

  /** `allSelected`: the lengths agree (not a check of which keys are selected). */
  predicate AllSelected(selected: seq<string>, scenes: seq<Scene>)
  {
    |selected| == |scenes|
  }

  /** `toggleAll`: clear the selection when all are selected, else select every scene in catalogue order. */
  function ToggleAll(selected: seq<string>, scenes: seq<Scene>): (r: seq<string>)
    ensures forall x :: x in r ==> x in Keys(scenes)
    ensures !AllSelected(selected, scenes) ==> AllSelected(r, scenes)
  {
    if AllSelected(selected, scenes) then [] else Keys(scenes)
  }

  /** Caption of the select-all button. */
  function SelectAllCaption(selected: seq<string>, scenes: seq<Scene>): (r: string)
    ensures r == "Clear all" ==> ToggleAll(selected, scenes) == []
    ensures r == "Select all" ==> ToggleAll(selected, scenes) == Keys(scenes)
    ensures r == "Clear all" || r == "Select all"
  {
    if AllSelected(selected, scenes) then "Clear all" else "Select all"
  }

  /**
   * `toggleAll` either clears the selection or selects every scene key in
   * catalogue order, after which `allSelected` holds; a second `toggleAll`
   * then clears it.
   */
  lemma ToggleAllResult(selected: seq<string>, scenes: seq<Scene>)
    ensures AllSelected(selected, scenes) ==> ToggleAll(selected, scenes) == []
    ensures !AllSelected(selected, scenes) ==>
      && |ToggleAll(selected, scenes)| == |scenes|
      && (forall i :: 0 <= i < |scenes| ==> ToggleAll(selected, scenes)[i] == scenes[i].key)
      && AllSelected(ToggleAll(selected, scenes), scenes)
      && ToggleAll(ToggleAll(selected, scenes), scenes) == []
  {
  }

  /** The length test is fooled by a repeated key: two copies of "a" pass for "a" and "b". */
  lemma AllSelectedCountsOnly()
    ensures var scenes := [Scene("a", "", ""), Scene("b", "", "")];
      AllSelected(["a", "a"], scenes) && "b" !in ["a", "a"]
  {
  }

  /**
   * A selection the selector's own operations can produce: no repeated key,
   * and only keys of the catalogue.
   */
  predicate WellFormed(selected: seq<string>, scenes: seq<Scene>)
  {
    Distinct(selected) && forall k :: k in selected ==> k in Keys(scenes)
  }

  /** Toggling a catalogue key keeps a selection well-formed. */
  lemma ToggleKeepsWellFormed(selected: seq<string>, scenes: seq<Scene>, key: string)
    requires WellFormed(selected, scenes) && key in Keys(scenes)
    ensures WellFormed(Toggle(selected, key), scenes)
  {
    ToggleKeepsDistinct(selected, key);
    forall k | k in Toggle(selected, key) ensures k in Keys(scenes) {
      ToggleFlipsMembership(selected, key, k);
    }
  }

  /** `toggleAll` keeps a selection well-formed when the catalogue keys are distinct. */
  lemma ToggleAllKeepsWellFormed(selected: seq<string>, scenes: seq<Scene>)
    requires Distinct(Keys(scenes))
    ensures WellFormed(ToggleAll(selected, scenes), scenes)
  {
  }

  lemma {:induction false} DistinctCardinality(s: seq<string>)
    requires Distinct(s)
    ensures |set x | x in s| == |s|
  {
    if s != [] {
      var rest := s[1..];
      assert Distinct(rest) by {
        forall i, j | 0 <= i < j < |rest| ensures rest[i] != rest[j] {
          assert rest[i] == s[i + 1] && rest[j] == s[j + 1];
        }
      }
      DistinctCardinality(rest);
      assert s[0] !in rest by {
        forall i | 0 <= i < |rest| ensures rest[i] != s[0] {
          assert rest[i] == s[i + 1];
        }
      }
      assert (set x | x in s) == (set x | x in rest) + {s[0]} by {
        assert s == [s[0]] + rest;
      }
    }
  }

  /** A set inside another of the same size is that set. */
  lemma SubsetOfSameSize(small: set<string>, big: set<string>)
    requires small <= big && |small| == |big|
    ensures small == big
  {
    assert |big - small| == |big| - |small|;
  }

  /** The catalogue keys form a set as large as the catalogue, holding every scene key. */
  lemma {:induction false} KeySet(scenes: seq<Scene>)
    requires Distinct(Keys(scenes))
    ensures |set x | x in Keys(scenes)| == |scenes|
  {
    DistinctCardinality(Keys(scenes));
  }

  /** Every catalogue key selected, in a well-formed selection: the same set of keys. */
  lemma {:induction false} SameKeys(selected: seq<string>, scenes: seq<Scene>)
    requires WellFormed(selected, scenes)
    requires forall i :: 0 <= i < |scenes| ==> scenes[i].key in selected
    ensures (set x | x in selected) == (set x | x in Keys(scenes))
  {
    var keys := Keys(scenes);
    forall x | x in keys ensures x in selected {
      var i :| 0 <= i < |keys| && keys[i] == x;
      assert scenes[i].key in selected;
    }
  }

  /** Equal lengths force every catalogue key into a well-formed selection. */
  lemma {:induction false} FullLengthSelectsAll(selected: seq<string>, scenes: seq<Scene>, i: int)
    requires WellFormed(selected, scenes) && Distinct(Keys(scenes))
    requires AllSelected(selected, scenes) && 0 <= i < |scenes|
    ensures scenes[i].key in selected
  {
    var chosen := set x | x in selected;
    var all := set x | x in Keys(scenes);
    DistinctCardinality(selected);
    KeySet(scenes);
    assert chosen <= all;
    SubsetOfSameSize(chosen, all);
    assert Keys(scenes)[i] in all;
  }

  /** A well-formed selection holding every catalogue key has the catalogue's length. */
  lemma {:induction false} AllKeysFillLength(selected: seq<string>, scenes: seq<Scene>)
    requires WellFormed(selected, scenes) && Distinct(Keys(scenes))
    requires forall i :: 0 <= i < |scenes| ==> scenes[i].key in selected
    ensures AllSelected(selected, scenes)
  {
    SameKeys(selected, scenes);
    DistinctCardinality(selected);
    KeySet(scenes);
  }

  /**
   * On a well-formed selection over a catalogue with distinct keys, the
   * length test means what the caption says: every scene is selected.
   */
  lemma {:induction false} AllSelectedMeansEveryScene(selected: seq<string>, scenes: seq<Scene>)
    requires WellFormed(selected, scenes) && Distinct(Keys(scenes))
    ensures AllSelected(selected, scenes) <==> forall i :: 0 <= i < |scenes| ==> scenes[i].key in selected
  {
    if AllSelected(selected, scenes) {
      forall i | 0 <= i < |scenes| ensures scenes[i].key in selected {
        FullLengthSelectsAll(selected, scenes, i);
      }
    }
    if forall i :: 0 <= i < |scenes| ==> scenes[i].key in selected {
      AllKeysFillLength(selected, scenes);
    }
  }

  // ---------------------------------------------------------------------
  // The generate button

  /** `progress`: scenes done out of scenes requested. */
  datatype Progress = Progress(done: nat, total: nat)

  datatype Button = Button(enabled: bool, caption: string)

  function Digit(d: nat): (c: char)
    requires d < 10
    ensures '0' <= c <= '9' && c as int - '0' as int == d
  {
    "0123456789"[d]
  }

  /** `${n}` for a whole number: its decimal digits, most significant first. */
  function Decimal(n: nat): (r: string)
    ensures r != []
    ensures forall i :: 0 <= i < |r| ==> '0' <= r[i] <= '9'
  {
    if n < 10 then [Digit(n)] else Decimal(n / 10) + [Digit(n % 10)]
  }

  /** The value of a string of decimal digits. */
  function DecimalValue(s: string): nat
    requires forall i :: 0 <= i < |s| ==> '0' <= s[i] <= '9'
  {
    if s == [] then 0 else DecimalValue(s[..|s| - 1]) * 10 + (s[|s| - 1] as int - '0' as int)
  }

  /** Reading back the decimal rendering gives the number. */
  lemma {:induction false} DecimalRoundTrip(n: nat)
    ensures DecimalValue(Decimal(n)) == n
  {
    if n >= 10 {
      var r := Decimal(n);
      assert r[..|r| - 1] == Decimal(n / 10);
      DecimalRoundTrip(n / 10);
    }
  }

  /** "Generating done/total" while generating, "Generate selected scenes" otherwise. */
  function GenerateCaption(isGenerating: bool, progress: Progress): string
  {
    if isGenerating then "Generating " + Decimal(progress.done) + "/" + Decimal(progress.total)
    else "Generate selected scenes"
  }

  /** The generate button: enabled exactly when generation is allowed. */
  function GenerateButton(canGenerate: bool, isGenerating: bool, progress: Progress): (b: Button)
    ensures b.enabled <==> canGenerate
  {
    Button(canGenerate, GenerateCaption(isGenerating, progress))
  }

  /** While generating, the caption tells exactly how many scenes are done out of how many. */
  lemma CaptionShowsProgress(p: Progress, q: Progress)
    requires GenerateCaption(true, p) == GenerateCaption(true, q)
    ensures p == q
  {
    var prefix := "Generating ";
    var a := Decimal(p.done) + ['/'] + Decimal(p.total);
    var b := Decimal(q.done) + ['/'] + Decimal(q.total);
    assert GenerateCaption(true, p) == prefix + a;
    assert GenerateCaption(true, q) == prefix + b;
    assert a == (prefix + a)[|prefix|..];
    assert b == (prefix + b)[|prefix|..];
    SplitJoined(Decimal(p.done), Decimal(p.total), Decimal(q.done), Decimal(q.total), '/');
    DecimalRoundTrip(p.done);
    DecimalRoundTrip(q.done);
    DecimalRoundTrip(p.total);
    DecimalRoundTrip(q.total);
  }
}
