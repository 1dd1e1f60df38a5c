/**
 * The scene catalogue as the two scene components receive it: an ordered
 * list of `{ key, label, hint }` records.
 */
module Catalogue {

  // `title` is the record's `label` field (`label` is a Dafny keyword).
  datatype Scene = Scene(key: string, title: string, hint: string)

  /** `scenes.map((s) => s.key)`: the scene keys in catalogue order. */
  function Keys(scenes: seq<Scene>): (r: seq<string>)
    ensures |r| == |scenes|
    ensures forall i :: 0 <= i < |scenes| ==> r[i] == scenes[i].key
  {
    if scenes == [] then [] else [scenes[0].key] + Keys(scenes[1..])
  }

  /** No value occurs twice. */
  predicate Distinct<T(==)>(s: seq<T>)
  {
    forall i, j :: 0 <= i < j < |s| ==> s[i] != s[j]
  }
}
