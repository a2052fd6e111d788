/** The tagged word catalog (class AppDict of Src/AppDict.cs): an ordered list of
    categories, each a part-of-speech key with its ordered word list.  The order is the
    dictionary's enumeration order and decides which entry a lookup finds first. */
module AppDict {
  import opened Basics
  import opened Words

  datatype Category = Category(key: string, words: seq<Word>)

  type Catalog = seq<Category>

  /** The raw dictionary as supplied by configuration: part of speech -> word strings. */
  type RawDict = seq<(string, seq<string>)>

  predicate RawKeysDistinct(raw: RawDict) {
    forall i, j | 0 <= i < |raw| && 0 <= j < |raw| && i != j :: raw[i].0 != raw[j].0
  }

  function Keys(d: Catalog): (ks: seq<string>)
    ensures |ks| == |d|
    ensures forall i | 0 <= i < |d| :: ks[i] == d[i].key
  {
    if |d| == 0 then [] else [d[0].key] + Keys(d[1..])
  }

  predicate KeysDistinct(d: Catalog) {
    forall i, j | 0 <= i < |d| && 0 <= j < |d| && i != j :: d[i].key != d[j].key
  }

  /** Every entry carries the key of the category that holds it. */
  predicate Tagged(d: Catalog) {
    forall i, j | 0 <= i < |d| && 0 <= j < |d[i].words| :: d[i].words[j].partOfSpeech == d[i].key
  }

  /** `w` is stored somewhere in the catalog. */
  predicate InCatalog(d: Catalog, w: Word) {
    exists i, j :: 0 <= i < |d| && 0 <= j < |d[i].words| && d[i].words[j] == w
  }

  /** No two entries of the catalog share a value, whatever their categories. */
  predicate UniqueValues(d: Catalog) {
    forall i1, j1, i2, j2 |
      && 0 <= i1 < |d| && 0 <= j1 < |d[i1].words|
      && 0 <= i2 < |d| && 0 <= j2 < |d[i2].words|
      && d[i1].words[j1].value == d[i2].words[j2].value
      :: i1 == i2 && j1 == j2
  }

  /** The word list stored under `key` (the indexer's get); None when the key is absent.
      LookupSpec states what it finds. */
  function Lookup(d: Catalog, key: string): Option<seq<Word>> {
    if |d| == 0 then None
    else if d[0].key == key then Some(d[0].words)
    else Lookup(d[1..], key)
  }

  /** Lookup finds nothing exactly when no category carries the key, and otherwise
      the list of a category that carries it. */
  lemma {:induction false} LookupSpec(d: Catalog, key: string)
    ensures Lookup(d, key).None? <==> forall i | 0 <= i < |d| :: d[i].key != key
    ensures Lookup(d, key).Some? ==>
      exists i :: 0 <= i < |d| && d[i].key == key && d[i].words == Lookup(d, key).value
  {
    if |d| > 0 && d[0].key != key {
      var r := Lookup(d[1..], key);
      LookupSpec(d[1..], key);
      if r.Some? {
        var i :| 0 <= i < |d[1..]| && d[1..][i].key == key && d[1..][i].words == r.value;
        assert d[i + 1] == d[1..][i];
      } else {
        forall i | 0 <= i < |d| ensures d[i].key != key {
          if i > 0 {
            assert d[i] == d[1..][i - 1];
          }
        }
      }
    }
  }

  /** With distinct keys, the list found under category i's key is category i's list. */
  lemma LookupAt(d: Catalog, i: nat)
    requires KeysDistinct(d) && i < |d|
    ensures Lookup(d, d[i].key) == Some(d[i].words)
  {
    LookupSpec(d, d[i].key);
    var j :| 0 <= j < |d| && d[j].key == d[i].key && d[j].words == Lookup(d, d[i].key).value;
  }

  /** The indexer's set: replaces the list stored under an existing key in place, or
      appends a new category at the end. */
  function Put(d: Catalog, key: string, words: seq<Word>): (r: Catalog)
    ensures key !in Keys(d) ==> r == d + [Category(key, words)]
    ensures key in Keys(d) ==> Keys(r) == Keys(d)
    ensures key in Keys(d) ==>
      && r[IndexOf(Keys(d), key)] == Category(key, words)
      && forall k | 0 <= k < |d| && k != IndexOf(Keys(d), key) :: r[k] == d[k]
  {
    var i := IndexOf(Keys(d), key);
    if i < 0 then d + [Category(key, words)]
    else
      var r := d[i := Category(key, words)];
      assert forall k | 0 <= k < |r| :: Keys(r)[k] == Keys(d)[k];
      r
  }

  /** Past a first category with another key, Put works on the rest and keeps that category. */
  lemma PutUnfold(d: Catalog, key: string, words: seq<Word>)
    requires |d| > 0 && d[0].key != key
    ensures Put(d, key, words) == [d[0]] + Put(d[1..], key, words)
  {
    var ks := Keys(d);
    assert ks[1..] == Keys(d[1..]);
    var j := IndexOf(Keys(d[1..]), key);
    assert IndexOf(ks, key) == if j < 0 then -1 else j + 1;
    if j < 0 {
      assert d == [d[0]] + d[1..];
    } else {
      UpdateBehindHead(d, j, Category(key, words));
    }
  }

  /** Replacing entry j + 1 keeps the head and replaces entry j of the tail. */
  lemma UpdateBehindHead(d: Catalog, j: nat, c: Category)
    requires j + 1 < |d|
    ensures d[j + 1 := c] == [d[0]] + d[1..][j := c]
  {
    var a := d[j + 1 := c];
    var b := [d[0]] + d[1..][j := c];
    forall k | 0 <= k < |a| ensures a[k] == b[k] {
      if k > 0 {
        assert b[k] == d[1..][j := c][k - 1];
      }
    }
  }

  /** After Put, the key finds the new list and every other key finds what it found before. */
  lemma {:induction false} PutLookup(d: Catalog, key: string, words: seq<Word>, other: string)
    ensures Lookup(Put(d, key, words), key) == Some(words)
    ensures other != key ==> Lookup(Put(d, key, words), other) == Lookup(d, other)
    decreases |d|
  {
    var r := Put(d, key, words);
    if |d| > 0 && d[0].key == key {
      assert r == d[0 := Category(key, words)];
      assert r[1..] == d[1..];
    } else if |d| > 0 {
      PutUnfold(d, key, words);
      PutLookup(d[1..], key, words, other);
      assert r[1..] == Put(d[1..], key, words);
    } else {
      assert r == [Category(key, words)];
    }
  }

  /** Wraps every raw string into a Word tagged with its category, keeping the category
      order and the order within each list. */
  method ConsolidateRawDict(raw: RawDict) returns (d: Catalog)
    requires RawKeysDistinct(raw)
    ensures |d| == |raw|
    ensures forall i | 0 <= i < |d| :: d[i].key == raw[i].0 && |d[i].words| == |raw[i].1|
    ensures forall i, j | 0 <= i < |d| && 0 <= j < |d[i].words| :: d[i].words[j] == Word(raw[i].1[j], raw[i].0)
    ensures KeysDistinct(d) && Tagged(d)
  {
    d := [];
    for i := 0 to |raw|
      invariant |d| == i
      invariant forall k | 0 <= k < i :: d[k].key == raw[k].0 && |d[k].words| == |raw[k].1|
      invariant forall k, j | 0 <= k < i && 0 <= j < |d[k].words| :: d[k].words[j] == Word(raw[k].1[j], raw[k].0)
    {
      var key := raw[i].0;
      var values := raw[i].1;
      var words := seq(|values|, j requires 0 <= j < |values| => Word(values[j], key));
      assert key !in Keys(d);
      d := Put(d, key, words);
    }
  }

  /** `d[i].words[j]` is the first entry with value `v`: categories are scanned in order,
      then each category's list in order. */
  predicate FirstMatch(d: Catalog, v: string, i: int, j: int)
    requires 0 <= i < |d| && 0 <= j < |d[i].words|
  {
    && d[i].words[j].value == v
    && (forall i', j' | 0 <= i' < i && 0 <= j' < |d[i'].words| :: d[i'].words[j'].value != v)
    && (forall j' | 0 <= j' < j :: d[i].words[j'].value != v)
  }

  /** First entry of a single list whose value is `v`. */
  function FindInList(ws: seq<Word>, v: string): (r: Option<nat>)
    ensures r.None? <==> forall j | 0 <= j < |ws| :: ws[j].value != v
    ensures r.Some? ==> r.value < |ws| && ws[r.value].value == v
                        && forall j | 0 <= j < r.value :: ws[j].value != v
  {
    if |ws| == 0 then None
    else if ws[0].value == v then Some(0)
    else match FindInList(ws[1..], v)
      case None => None
      case Some(k) => Some(k + 1)
  }

  /** An entry with value `v` and none before it is the one FindInList finds. */
  lemma FindInListAt(ws: seq<Word>, v: string, j: nat)
    requires j < |ws| && ws[j].value == v
    requires forall k | 0 <= k < j :: ws[k].value != v
    ensures FindInList(ws, v) == Some(j)
  {
    var r := FindInList(ws, v);
    assert r.Some?;
    assert !(r.value < j);
  }

  /** The first entry whose value is `v` (AppDict.FindWord); None where the source
      returns null. */
  function FindWord(d: Catalog, v: string): (r: Option<Word>)
    ensures r.None? <==> forall i, j | 0 <= i < |d| && 0 <= j < |d[i].words| :: d[i].words[j].value != v
    ensures r.Some? ==> exists i, j :: 0 <= i < |d| && 0 <= j < |d[i].words|
                                     && d[i].words[j] == r.value && FirstMatch(d, v, i, j)
  {
    if |d| == 0 then None
    else match FindInList(d[0].words, v)
      case Some(j) =>
        assert FirstMatch(d, v, 0, j);
        Some(d[0].words[j])
      case None =>
        var r := FindWord(d[1..], v);
        FindWordTailNone(d, v, r);
        FindWordTailSome(d, v, r);
        r
  }

  /** No match in the first list and none in the rest: no match at all. */
  lemma FindWordTailNone(d: Catalog, v: string, r: Option<Word>)
    requires |d| > 0 && forall j | 0 <= j < |d[0].words| :: d[0].words[j].value != v
    requires r.None? <==> forall i, j | 0 <= i < |d[1..]| && 0 <= j < |d[1..][i].words| :: d[1..][i].words[j].value != v
    ensures r.None? ==> forall i, j | 0 <= i < |d| && 0 <= j < |d[i].words| :: d[i].words[j].value != v
  {
    if r.None? {
      forall i, j | 0 <= i < |d| && 0 <= j < |d[i].words| ensures d[i].words[j].value != v {
        if i > 0 { assert d[i] == d[1..][i - 1]; }
      }
    }
  }

  /** No match in the first list: the first match of the rest, shifted by one category. */
  lemma FindWordTailSome(d: Catalog, v: string, r: Option<Word>)
    requires |d| > 0 && forall j | 0 <= j < |d[0].words| :: d[0].words[j].value != v
    requires r.Some? ==> exists i, j :: 0 <= i < |d[1..]| && 0 <= j < |d[1..][i].words|
                                       && d[1..][i].words[j] == r.value && FirstMatch(d[1..], v, i, j)
    ensures r.Some? ==> exists i, j :: 0 <= i < |d| && 0 <= j < |d[i].words|
                                     && d[i].words[j] == r.value && FirstMatch(d, v, i, j)
  {
    if r.Some? {
      var i, j :| 0 <= i < |d[1..]| && 0 <= j < |d[1..][i].words|
                 && d[1..][i].words[j] == r.value && FirstMatch(d[1..], v, i, j);
      assert d[i + 1] == d[1..][i];
      forall i', j' | 0 <= i' < i + 1 && 0 <= j' < |d[i'].words| ensures d[i'].words[j'].value != v {
        if i' > 0 { assert d[i'] == d[1..][i' - 1]; }
      }
      assert FirstMatch(d, v, i + 1, j);
    }
  }

  /** A found word carries the searched value and sits in the list stored under its own
      part of speech. */
  lemma FoundInOwnCategory(d: Catalog, v: string)
    requires KeysDistinct(d) && Tagged(d)
    requires FindWord(d, v).Some?
    ensures FindWord(d, v).value.value == v
    ensures Lookup(d, FindWord(d, v).value.partOfSpeech).Some?
    ensures FindWord(d, v).value in Lookup(d, FindWord(d, v).value.partOfSpeech).value
  {
    var w := FindWord(d, v).value;
    var i, j :| 0 <= i < |d| && 0 <= j < |d[i].words| && d[i].words[j] == w && FirstMatch(d, v, i, j);
    LookupAt(d, i);
  }

  /** When values are unique, looking up a stored word's value finds exactly that word. */
  lemma FindStoredWord(d: Catalog, w: Word)
    requires UniqueValues(d) && InCatalog(d, w)
    ensures FindWord(d, w.value) == Some(w)
  {
    var i, j :| 0 <= i < |d| && 0 <= j < |d[i].words| && d[i].words[j] == w;
    var r := FindWord(d, w.value);
    assert r.Some?;
    var i2, j2 :| 0 <= i2 < |d| && 0 <= j2 < |d[i2].words| && d[i2].words[j2] == r.value && FirstMatch(d, w.value, i2, j2);
  }
}
