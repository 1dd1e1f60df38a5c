/**
 * The decisions of src/components/ResultsGrid.jsx: whether the results
 * section shows at all, which scene cards appear and in which order, and
 * what each card offers. The component renders them; here they are values.
 */
module ResultsGrid {
  import opened Wrappers
  import opened Catalogue

  /**
   * One entry of the `results` prop, `{ dataUrl, loading, error }`; "" stands
   * for a missing or empty string. A `null` entry behaves like a missing key
   * in every decision below, so the map leaves it out.
   */
  datatype Entry = Entry(dataUrl: string, loading: bool, error: string)

  /** `r?.dataUrl || r?.loading || r?.error`. */
  predicate Active(e: Entry)
  {
    e.dataUrl != "" || e.loading || e.error != ""
  }

  /** `hasResults`: some entry is active. */
  predicate HasResults(results: map<string, Entry>)
  {
    exists key :: key in results && Active(results[key])
  }

  /** Looking through the keys is the same as `Object.values(results).some(...)`. */
  lemma HasResultsOverValues(results: map<string, Entry>)
    ensures HasResults(results) <==> exists e :: e in results.Values && Active(e)
  {
  }

  /** The picture area of a card: the image, or a placeholder text. */
  datatype Visual = Picture(src: string, alt: string) | Placeholder(text: string)

  /** A download link: the URL and the file name it saves under. */
  datatype Download = Download(href: string, fileName: string)

  /**
   * One rendered card. `regenerateKey` is what its regenerate button passes
   * to `onRegenerate`.
   */
  datatype Card = Card(
    key: string,
    title: string,
    hint: string,
    spinner: bool,
    errorText: Option<string>,
    visual: Visual,
    regenerateKey: string,
    download: Option<Download>)

  const LoadingText := "Brewing luxury..."

  const EmptyText := "No image yet"

  /** The card of scene `s` for its entry `e`. */
  function CardFor(s: Scene, e: Entry): Card
  {
    Card(
      s.key,
      s.title,
      s.hint,
      e.loading,
      if e.error != "" then Some(e.error) else None,
      if e.dataUrl != "" then Picture(e.dataUrl, s.title)
      else Placeholder(if e.loading then LoadingText else EmptyText),
      s.key,
      if e.dataUrl != "" then Some(Download(e.dataUrl, s.key + ".jpg")) else None)
  }

  /** `scenes.map(...)` with the scenes that have no entry rendered as nothing. */
  function Cards(scenes: seq<Scene>, results: map<string, Entry>): seq<Card>
  {
    if scenes == [] then []
    else
      (if scenes[0].key in results then [CardFor(scenes[0], results[scenes[0].key])] else [])
      + Cards(scenes[1..], results)
  }

  /** The grid: nothing at all without an active entry, else the cards. */
  function Grid(scenes: seq<Scene>, results: map<string, Entry>): Option<seq<Card>>
  {
    if HasResults(results) then Some(Cards(scenes, results)) else None
  }

  /** Nothing is rendered exactly when no entry has an image, is loading or has an error. */
  lemma NothingShownWhenIdle(scenes: seq<Scene>, results: map<string, Entry>)
    ensures Grid(scenes, results).None?
        <==> forall key :: key in results ==> results[key].dataUrl == "" && !results[key].loading && results[key].error == ""
  {
  }

  /** Cards follow the catalogue: the cards of a concatenation are the concatenated cards. */
  lemma {:induction false} CardsConcat(a: seq<Scene>, b: seq<Scene>, results: map<string, Entry>)
    ensures Cards(a + b, results) == Cards(a, results) + Cards(b, results)
  {
    if a == [] {
      assert a + b == b;
    } else {
      assert (a + b)[0] == a[0];
      assert (a + b)[1..] == a[1..] + b;
      CardsConcat(a[1..], b, results);
    }
  }

  /** A single scene gives its card when it has an entry, and nothing otherwise. */
  lemma CardsOfOne(s: Scene, results: map<string, Entry>)
    ensures Cards([s], results) == if s.key in results then [CardFor(s, results[s.key])] else []
  {
    assert [s][1..] == [];
  }

  /** Card `c` is the card of scene i, which has an entry. */
  predicate CardOfScene(scenes: seq<Scene>, results: map<string, Entry>, i: int, c: Card)
  {
    0 <= i < |scenes| && scenes[i].key in results && c == CardFor(scenes[i], results[scenes[i].key])
  }

  /**
   * A card is shown exactly for each catalogue scene whose key has an entry.
   */
  lemma {:induction false} CardsAreCatalogueEntries(scenes: seq<Scene>, results: map<string, Entry>, c: Card)
    ensures c in Cards(scenes, results) <==> exists i :: CardOfScene(scenes, results, i, c)
  {
    if scenes != [] {
      var tail := scenes[1..];
      var head := if scenes[0].key in results then [CardFor(scenes[0], results[scenes[0].key])] else [];
      assert Cards(scenes, results) == head + Cards(tail, results);
      CardsAreCatalogueEntries(tail, results, c);
      if c in Cards(tail, results) {
        var i :| CardOfScene(tail, results, i, c);
        assert CardOfScene(scenes, results, i + 1, c);
      }
      if c in head {
        assert CardOfScene(scenes, results, 0, c);
      }
      if exists i :: CardOfScene(scenes, results, i, c) {
        var i :| CardOfScene(scenes, results, i, c);
        if i > 0 {
          assert CardOfScene(tail, results, i - 1, c);
        }
      }
    }
  }

  /** Only catalogue keys with an entry get a card; entries under other keys never show. */
  lemma OnlyCatalogueKeysShow(scenes: seq<Scene>, results: map<string, Entry>, c: Card)
    requires c in Cards(scenes, results)
    ensures c.key in results && c.key in Keys(scenes)
  {
    CardsAreCatalogueEntries(scenes, results, c);
    var i :| CardOfScene(scenes, results, i, c);
    assert Keys(scenes)[i] == c.key;
  }

  /** When every scene has an entry, there is one card per scene, in catalogue order. */
  lemma {:induction false} CardsCoverCatalogue(scenes: seq<Scene>, results: map<string, Entry>)
    requires forall i :: 0 <= i < |scenes| ==> scenes[i].key in results
    ensures |Cards(scenes, results)| == |scenes|
    ensures forall i :: 0 <= i < |scenes| ==> Cards(scenes, results)[i] == CardFor(scenes[i], results[scenes[i].key])
  {
    if scenes != [] {
      CardsCoverCatalogue(scenes[1..], results);
      assert scenes[0].key in results;
      forall i | 1 <= i < |scenes| ensures Cards(scenes, results)[i] == CardFor(scenes[i], results[scenes[i].key]) {
        assert scenes[1..][i - 1] == scenes[i];
      }
    }
  }

  /**
   * What a card offers, read against its entry: regenerate for its own key,
   * a spinner exactly while loading, the error text exactly when there is
   * one, and either the image with a download under "<key>.jpg" or the
   * placeholder, which reads "Brewing luxury..." while loading.
   */
  predicate Presents(c: Card, e: Entry)
  {
    && c.regenerateKey == c.key
    && c.spinner == e.loading
    && (c.errorText.Some? <==> e.error != "")
    && (c.errorText.Some? ==> c.errorText.value == e.error)
    && (c.download.Some? <==> e.dataUrl != "")
    && (c.visual.Picture? <==> c.download.Some?)
    && (c.download.Some? ==>
          c.download.value == Download(e.dataUrl, c.key + ".jpg") && c.visual.src == e.dataUrl)
    && (c.visual.Placeholder? ==>
          c.visual.text == (if e.loading then LoadingText else EmptyText))
  }

  /** Every card on the grid presents the entry of its own scene key. */
  lemma {:induction false} EveryCardPresentsItsEntry(scenes: seq<Scene>, results: map<string, Entry>)
    ensures forall c :: c in Cards(scenes, results) ==> c.key in results && Presents(c, results[c.key])
  {
    if scenes != [] {
      EveryCardPresentsItsEntry(scenes[1..], results);
    }
  }
}
