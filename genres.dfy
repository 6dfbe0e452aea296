/** The fixed genre catalog, one bubble per entry, and the lookups the component makes in it. */
module Genres {
  import opened Common

  datatype Genre = Genre(key: string, title: string, color: string)  // `title` is the source's `label`

  const GENRES: seq<Genre> := [
    Genre("house", "House", "#ffb347"),
    Genre("trance", "Trance", "#3ddcff"),
    Genre("hard_techno", "Hard Techno", "#ff477e"),
    Genre("hard_house", "Hard House", "#ff7a3d"),
    Genre("industrial_hard_techno", "Industrial Hard Techno", "#9aa0ff"),
    Genre("hardstyle", "Hardstyle", "#ffd166"),
    Genre("hardcore", "Hardcore", "#ff006e"),
    Genre("drum_bass", "Drum & Bass", "#00d4a6"),
    Genre("afro", "Afro", "#ff5e00"),
    Genre("hard_bounce", "Hard Bounce", "#7cfc00"),
    Genre("shranz", "Shranz", "#b084ff"),
    Genre("pop", "Pop", "#ff66cc"),
    Genre("groove", "Groove", "#34d399"),
    Genre("driving_techno", "Driving Techno", "#00bcd4"),
    Genre("turku", "Turku", "#a3e635")
  ]

  /** Fill colour of a body whose catalog entry is missing or has no colour. */
  const FALLBACK_COLOR: string := "#888"

  function KeySet(catalog: seq<Genre>): set<string>
  {
    set i | 0 <= i < |catalog| :: catalog[i].key
  }

  predicate DistinctKeys(catalog: seq<Genre>)
  {
    forall i, j :: 0 <= i < j < |catalog| ==> catalog[i].key != catalog[j].key
  }

  /** `catalog.find(g => g.key === key)`: the first entry with that key. */
  function Find(catalog: seq<Genre>, key: string): (r: Option<Genre>)
    ensures r.None? <==> key !in KeySet(catalog)
    ensures r.Some? ==> exists i :: 0 <= i < |catalog| && catalog[i] == r.value && r.value.key == key
                          && forall j :: 0 <= j < i ==> catalog[j].key != key
  {
    if catalog == [] then None
    else if catalog[0].key == key then Some(catalog[0])
    else
      var r := Find(catalog[1..], key);
      assert KeySet(catalog) == {catalog[0].key} + KeySet(catalog[1..]) by {
        forall k | k in KeySet(catalog) ensures k in {catalog[0].key} + KeySet(catalog[1..]) {
          var i :| 0 <= i < |catalog| && catalog[i].key == k;
          if i > 0 { assert catalog[1..][i - 1] == catalog[i]; }
        }
        forall k | k in KeySet(catalog[1..]) ensures k in KeySet(catalog) {
          var i :| 0 <= i < |catalog[1..]| && catalog[1..][i].key == k;
          assert catalog[i + 1] == catalog[1..][i];
        }
      }
      if r.Some? then
        assert exists i :: 0 <= i < |catalog| && catalog[i] == r.value && r.value.key == key
                 && forall j :: 0 <= j < i ==> catalog[j].key != key by {
          var i :| 0 <= i < |catalog[1..]| && catalog[1..][i] == r.value && r.value.key == key
                   && forall j :: 0 <= j < i ==> catalog[1..][j].key != key;
          assert catalog[i + 1] == r.value;
          forall j | 0 <= j < i + 1 ensures catalog[j].key != key {
            if j > 0 { assert catalog[j] == catalog[1..][j - 1]; }
          }
        }
        r
      else r
  }

  /** `GENRES.find(g => g.key === key)?.color || "#888"`. */
  function ColorOf(catalog: seq<Genre>, key: string): string
  {
    match Find(catalog, key)
    case Some(g) => if g.color != "" then g.color else FALLBACK_COLOR
    case None => FALLBACK_COLOR
  }

  /** `genre?.label ?? key`: the text written on a bubble. */
  function LabelOf(catalog: seq<Genre>, key: string): string
  {
    match Find(catalog, key)
    case Some(g) => g.title
    case None => key
  }

  /** One more entry of the catalog adds its key to the keys seen so far. */
  lemma KeySetPrefix(catalog: seq<Genre>, i: nat)
    requires i < |catalog|
    ensures KeySet(catalog[..i + 1]) == KeySet(catalog[..i]) + {catalog[i].key}
  {
    var pre, next := catalog[..i], catalog[..i + 1];
    forall k | k in KeySet(next) ensures k in KeySet(pre) + {catalog[i].key} {
      var j :| 0 <= j < i + 1 && next[j].key == k;
      if j < i { assert pre[j] == next[j]; }
    }
    forall k | k in KeySet(pre) ensures k in KeySet(next) {
      var j :| 0 <= j < i && pre[j].key == k;
      assert next[j] == pre[j];
    }
  }

  /** With distinct keys, there are as many keys as entries. */
  lemma {:induction false} KeyCount(catalog: seq<Genre>)
    requires DistinctKeys(catalog)
    ensures |KeySet(catalog)| == |catalog|
    decreases |catalog|
  {
    if catalog != [] {
      var n := |catalog| - 1;
      KeyCount(catalog[..n]);
      KeySetPrefix(catalog, n);
      assert catalog[..n + 1] == catalog;
      assert catalog[n].key !in KeySet(catalog[..n]);
    }
  }

  /** With distinct keys, a key's entry is found where it stands, so its colour and label are the entry's. */
  lemma FindDistinct(catalog: seq<Genre>, i: nat)
    requires DistinctKeys(catalog) && i < |catalog|
    ensures Find(catalog, catalog[i].key) == Some(catalog[i])
    ensures catalog[i].color != "" ==> ColorOf(catalog, catalog[i].key) == catalog[i].color
    ensures LabelOf(catalog, catalog[i].key) == catalog[i].title
  {
    var key := catalog[i].key;
    assert key in KeySet(catalog);
    var r := Find(catalog, key);
    var j :| 0 <= j < |catalog| && catalog[j] == r.value && r.value.key == key
             && forall j' :: 0 <= j' < j ==> catalog[j'].key != key;
    assert j == i;
  }

  /** The shipped catalog has fifteen genres, no key twice and a colour for each. */
  lemma GenresWellFormed()
    ensures |GENRES| == 15
    ensures DistinctKeys(GENRES)
    ensures forall i :: 0 <= i < |GENRES| ==> GENRES[i].color != ""
  {
    forall i, j | 0 <= i < j < |GENRES| ensures GENRES[i].key != GENRES[j].key {
      assert Signature(GENRES[i].key) != Signature(GENRES[j].key);
    }
  }

  /** Length, first and last character of a key: these alone tell the shipped keys apart. */
  function Signature(key: string): (int, char, char)
  {
    if key == [] then (0, ' ', ' ') else (|key|, key[0], key[|key| - 1])
  }
}
