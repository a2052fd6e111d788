/** The mapper (class Mapper of Src/Mapper.cs): turns every plaintext character, shifted
    by the next password addend, into the next word of a grammatical word sequence, and
    turns such a sequence back into characters.  The word that follows depends on the
    previous word's part of speech, on how many words came before and on the shifted
    character index. */
module Mappers {
  import opened Basics
  import opened Text
  import opened Words
  import opened AppDict
  import opened Configs
  import opened Passwords
  import opened Messages

  // ----- the order in which Rewind sorts the dictionary keys -----

  /** Ordinal lexicographic order on strings: `a` sorts no later than `b`. */
  predicate LexLeq(a: string, b: string)
    decreases |a|
  {
    |a| == 0 || (|b| > 0 && (a[0] < b[0] || (a[0] == b[0] && LexLeq(a[1..], b[1..]))))
  }

  lemma {:induction false} LexRefl(a: string)
    ensures LexLeq(a, a)
    decreases |a|
  {
    if |a| > 0 {
      LexRefl(a[1..]);
    }
  }

  lemma {:induction false} LexTotal(a: string, b: string)
    ensures LexLeq(a, b) || LexLeq(b, a)
    decreases |a|
  {
    if |a| > 0 && |b| > 0 && a[0] == b[0] {
      LexTotal(a[1..], b[1..]);
    }
  }

  lemma {:induction false} LexTrans(a: string, b: string, c: string)
    requires LexLeq(a, b) && LexLeq(b, c)
    ensures LexLeq(a, c)
    decreases |a|
  {
    if |a| > 0 && a[0] == b[0] && b[0] == c[0] {
      LexTrans(a[1..], b[1..], c[1..]);
    }
  }

  lemma {:induction false} LexAntisymmetric(a: string, b: string)
    requires LexLeq(a, b) && LexLeq(b, a)
    ensures a == b
    decreases |a|
  {
    if |a| > 0 {
      LexAntisymmetric(a[1..], b[1..]);
      assert a == [a[0]] + a[1..] && b == [b[0]] + b[1..];
    }
  }

  /** The key a sort puts first (keys.Sort() followed by keys.First()). */
  function MinKey(ks: seq<string>): (m: string)
    requires |ks| > 0
    ensures m in ks
    ensures forall k | 0 <= k < |ks| :: LexLeq(m, ks[k])
  {
    if |ks| == 1 then
      LexRefl(ks[0]);
      ks[0]
    else
      var m := MinKey(ks[1..]);
      assert forall k | 1 <= k < |ks| :: LexLeq(m, ks[k]) by {
        forall k | 1 <= k < |ks| ensures LexLeq(m, ks[k]) {
          assert ks[k] == ks[1..][k - 1];
        }
      }
      if LexLeq(ks[0], m) then
        assert forall k | 0 <= k < |ks| :: LexLeq(ks[0], ks[k]) by {
          forall k | 0 <= k < |ks| ensures LexLeq(ks[0], ks[k]) {
            if k == 0 {
              LexRefl(ks[0]);
            } else {
              LexTrans(ks[0], m, ks[k]);
            }
          }
        }
        ks[0]
      else
        LexTotal(ks[0], m);
        m
  }

  /** Among distinct keys exactly one sorts before all others: the one MinKey picks. */
  lemma MinKeyUnique(ks: seq<string>, m: string)
    requires m in ks && forall k | 0 <= k < |ks| :: LexLeq(m, ks[k])
    ensures MinKey(ks) == m
  {
    var i :| 0 <= i < |ks| && ks[i] == m;
    LexAntisymmetric(m, MinKey(ks));
  }

  // ----- Rewind -----

  /** The word the sequence starts from: the first word of the category whose key sorts
      first; fails on an empty dictionary or an empty first category. */
  function StartWord(d: Catalog): (r: Result<Word>)
    ensures r.Failure? ==> r.error == StateError
    ensures r.Success? ==> exists i :: 0 <= i < |d| && |d[i].words| > 0 && r.value == d[i].words[0]
                                       && forall k | 0 <= k < |d| :: LexLeq(d[i].key, d[k].key)
    ensures |d| > 0 && (forall i | 0 <= i < |d| :: |d[i].words| > 0) ==> r.Success?
  {
    if |d| == 0 then Failure(StateError)
    else
      var key := MinKey(Keys(d));
      LookupSpec(d, key);
      match Lookup(d, key)
      case None => Failure(StateError)
      case Some(ws) => if |ws| == 0 then Failure(StateError) else Success(ws[0])
  }

  // ----- NextWordTypes -----

  /** The follower list rotated left by `shift`. */
  function Rotated(f: seq<string>, shift: nat): (r: seq<string>)
    requires shift < |f|
    ensures |r| == |f|
  {
    f[shift..] + f[..shift]
  }

  /** Element i of a rotation is element i + shift of the list, wrapping around once. */
  lemma RotatedAt(f: seq<string>, shift: nat, i: nat)
    requires shift < |f| && i < |f|
    ensures Rotated(f, shift)[i] == if i + shift < |f| then f[i + shift] else f[i + shift - |f|]
  {
  }

  /** A rotation keeps every follower exactly once. */
  lemma RotatedPermutes(f: seq<string>, shift: nat)
    requires shift < |f|
    ensures multiset(Rotated(f, shift)) == multiset(f)
    ensures Distinct(f) ==> Distinct(Rotated(f, shift))
  {
    var r := Rotated(f, shift);
    assert f == f[..shift] + f[shift..];
    if Distinct(f) {
      forall i, j | 0 <= i < |r| && 0 <= j < |r| && i != j ensures r[i] != r[j] {
        RotatedAt(f, shift, i);
        RotatedAt(f, shift, j);
      }
    }
  }

  /** The parts of speech the next word may take: the current word's follower list,
      rotated by the word count.  Fails where the original code throws: no current word,
      a part of speech without rules, an empty follower list. */
  function NextTypes(rules: Rules, current: Option<Word>, count: nat): (r: Result<seq<string>>)
    ensures r.Failure? ==> r.error == StateError
    ensures r.Failure? <==> current.None? || FollowersOf(rules, current.value.partOfSpeech).None?
                            || |FollowersOf(rules, current.value.partOfSpeech).value| == 0
  {
    if current.None? then Failure(StateError)
    else match FollowersOf(rules, current.value.partOfSpeech)
      case None => Failure(StateError)
      case Some(f) => if |f| == 0 then Failure(StateError) else Success(Rotated(f, count % |f|))
  }

  /** The next types are the follower list of the current part of speech, each exactly
      once, starting at the follower the word count selects. */
  lemma NextTypesFollow(rules: Rules, current: Option<Word>, count: nat)
    requires NextTypes(rules, current, count).Success?
    ensures var f := FollowersOf(rules, current.value.partOfSpeech).value;
            var t := NextTypes(rules, current, count).value;
            && multiset(t) == multiset(f)
            && t[0] == f[count % |f|]
            && (Distinct(f) ==> Distinct(t))
  {
    var f := FollowersOf(rules, current.value.partOfSpeech).value;
    RotatedPermutes(f, count % |f|);
  }

  // ----- GetNextWord and GetNextIndex -----

  /** The word returned when the index lies beyond every candidate. */
  const Placeholder := Word("null", "null")

  /** The dictionary lists of `types`, one after the other; None when a type is missing. */
  function Candidates(d: Catalog, types: seq<string>): (r: Option<seq<Word>>)
    ensures r.Some? <==> forall k | 0 <= k < |types| :: Lookup(d, types[k]).Some?
  {
    if |types| == 0 then Some([])
    else
      var rest := Candidates(d, types[1..]);
      assert rest.Some? <==> forall k | 1 <= k < |types| :: Lookup(d, types[k]).Some? by {
        forall k | 1 <= k < |types| ensures types[k] == types[1..][k - 1] {
        }
      }
      match Lookup(d, types[0])
      case None => None
      case Some(ws) => if rest.None? then None else Some(ws + rest.value)
  }

  /** The candidate at position `index`, counting the first candidate as `base`; the
      placeholder when there is none; fails on a type missing from the dictionary before
      the index is reached. */
  function WordAt(d: Catalog, types: seq<string>, index: int, base: int): (r: Result<Word>)
    ensures r.Failure? ==> r.error == StateError
    decreases |types|
  {
    if |types| == 0 then Success(Placeholder)
    else match Lookup(d, types[0])
      case None => Failure(StateError)
      case Some(ws) =>
        if base <= index < base + |ws| then Success(ws[index - base])
        else WordAt(d, types[1..], index, base + |ws|)
  }

  /** The position (counting from `base`) of the first candidate whose value is `v`, or
      -1; fails on a type missing from the dictionary before the value is found. */
  function IndexIn(d: Catalog, types: seq<string>, v: string, base: int): (r: Result<int>)
    ensures r.Failure? ==> r.error == StateError
    ensures r.Success? ==> r.value == -1 || r.value >= base
    decreases |types|
  {
    if |types| == 0 then Success(-1)
    else match Lookup(d, types[0])
      case None => Failure(StateError)
      case Some(ws) =>
        match FindInList(ws, v)
        case Some(j) => Success(base + j)
        case None => IndexIn(d, types[1..], v, base + |ws|)
  }

  /** IndexIn at the head of the part-of-speech list: a match in its word list, or the
      search goes on in the rest with the base moved past that list. */
  lemma IndexInHead(d: Catalog, types: seq<string>, v: string, base: int, ws: seq<Word>)
    requires |types| > 0 && Lookup(d, types[0]) == Some(ws)
    ensures FindInList(ws, v).Some? ==> IndexIn(d, types, v, base) == Success(base + FindInList(ws, v).value)
    ensures FindInList(ws, v).None? ==> IndexIn(d, types, v, base) == IndexIn(d, types[1..], v, base + |ws|)
  {
  }

  /** WordAt reads the flat candidate list. */
  lemma {:induction false} WordAtCandidates(d: Catalog, types: seq<string>, index: int, base: int)
    requires Candidates(d, types).Some?
    ensures var cs := Candidates(d, types).value;
            WordAt(d, types, index, base)
            == Success(if base <= index < base + |cs| then cs[index - base] else Placeholder)
    decreases |types|
  {
    if |types| > 0 {
      var ws := Lookup(d, types[0]).value;
      WordAtCandidates(d, types[1..], index, base + |ws|);
    }
  }

  /** Position (counting from `base`) of the first word with value `v` in `cs`, or -1. */
  function Position(cs: seq<Word>, v: string, base: int): int {
    match FindInList(cs, v)
    case None => -1
    case Some(j) => base + j
  }

  /** IndexIn searches the flat candidate list. */
  lemma {:induction false} IndexInCandidates(d: Catalog, types: seq<string>, v: string, base: int)
    requires Candidates(d, types).Some?
    ensures IndexIn(d, types, v, base) == Success(Position(Candidates(d, types).value, v, base))
    decreases |types|
  {
    if |types| > 0 {
      var ws := Lookup(d, types[0]).value;
      var rest := Candidates(d, types[1..]).value;
      assert Candidates(d, types).value == ws + rest;
      IndexInHead(d, types, v, base, ws);
      PositionAppend(ws, rest, v, base);
      if FindInList(ws, v).None? {
        IndexInCandidates(d, types[1..], v, base + |ws|);
      }
    }
  }

  /** The first match in a concatenation is in the first part, or else in the second. */
  lemma PositionAppend(a: seq<Word>, b: seq<Word>, v: string, base: int)
    ensures Position(a + b, v, base)
            == if FindInList(a, v).Some? then Position(a, v, base) else Position(b, v, base + |a|)
  {
    var r := FindInList(a + b, v);
    if FindInList(a, v).None? {
      forall j | 0 <= j < |a| ensures (a + b)[j].value != v {
      }
      if FindInList(b, v).Some? {
        var j := FindInList(b, v).value;
        assert (a + b)[|a| + j] == b[j];
        assert r.Some?;
        forall k | 0 <= k < |a| + j ensures (a + b)[k].value != v {
          if k >= |a| {
            assert (a + b)[k] == b[k - |a|];
          }
        }
      } else {
        forall k | 0 <= k < |a + b| ensures (a + b)[k].value != v {
          if k >= |a| {
            assert (a + b)[k] == b[k - |a|];
          }
        }
      }
    } else {
      var j := FindInList(a, v).value;
      assert (a + b)[j] == a[j];
    }
  }

  /** Candidates of a concatenation of type lists is the concatenation of their candidates. */
  lemma {:induction false} CandidatesAppend(d: Catalog, a: seq<string>, b: seq<string>)
    requires Candidates(d, a).Some? && Candidates(d, b).Some?
    ensures Candidates(d, a + b) == Some(Candidates(d, a).value + Candidates(d, b).value)
    decreases |a|
  {
    if |a| == 0 {
      assert a + b == b;
      assert [] + Candidates(d, b).value == Candidates(d, b).value;
    } else {
      assert (a + b)[1..] == a[1..] + b;
      CandidatesAppend(d, a[1..], b);
      AppendAssoc(Lookup(d, a[0]).value, Candidates(d, a[1..]).value, Candidates(d, b).value);
    }
  }

  /** Rotating the types keeps the number of candidates. */
  lemma CandidatesRotated(d: Catalog, f: seq<string>, shift: nat)
    requires shift < |f| && Candidates(d, f).Some?
    ensures Candidates(d, Rotated(f, shift)).Some?
    ensures |Candidates(d, Rotated(f, shift)).value| == |Candidates(d, f).value|
  {
    var lo := f[..shift];
    var hi := f[shift..];
    assert f == lo + hi;
    assert forall k | 0 <= k < |lo| :: lo[k] == f[k];
    assert forall k | 0 <= k < |hi| :: hi[k] == f[shift + k];
    CandidatesAppend(d, lo, hi);
    CandidatesAppend(d, hi, lo);
  }

  /** Every candidate is a dictionary entry of one of the types, carrying that type. */
  lemma {:induction false} CandidatesFromCatalog(d: Catalog, types: seq<string>)
    requires Tagged(d) && Candidates(d, types).Some?
    ensures var cs := Candidates(d, types).value;
            forall k | 0 <= k < |cs| :: InCatalog(d, cs[k]) && cs[k].partOfSpeech in types
    decreases |types|
  {
    if |types| > 0 {
      var ws := Lookup(d, types[0]).value;
      var rest := Candidates(d, types[1..]).value;
      CandidatesFromCatalog(d, types[1..]);
      LookupSpec(d, types[0]);
      var i :| 0 <= i < |d| && d[i].key == types[0] && d[i].words == ws;
      var cs := ws + rest;
      forall k | 0 <= k < |cs| ensures InCatalog(d, cs[k]) && cs[k].partOfSpeech in types {
        if k < |ws| {
          assert cs[k] == d[i].words[k];
        } else {
          assert cs[k] == rest[k - |ws|];
          assert rest[k - |ws|].partOfSpeech in types[1..];
        }
      }
    }
  }

  /** Dictionary entries of different parts of speech differ in value when values are unique. */
  lemma DifferentTypesDifferentValues(d: Catalog, w1: Word, w2: Word)
    requires UniqueValues(d) && InCatalog(d, w1) && InCatalog(d, w2) && w1.partOfSpeech != w2.partOfSpeech
    ensures w1.value != w2.value
  {
  }

  /** A candidate taken from the first type's list and one from the later types' lists
      differ in value. */
  lemma FirstAndLaterDiffer(d: Catalog, types: seq<string>, k1: nat, k2: nat)
    requires Tagged(d) && UniqueValues(d) && Distinct(types) && Candidates(d, types).Some?
    requires |types| > 0 && k1 < |Lookup(d, types[0]).value| <= k2 < |Candidates(d, types).value|
    ensures Candidates(d, types).value[k1].value != Candidates(d, types).value[k2].value
  {
    var ws := Lookup(d, types[0]).value;
    var rest := Candidates(d, types[1..]).value;
    var cs := Candidates(d, types).value;
    assert cs == ws + rest;
    CandidatesFromCatalog(d, types);
    CandidatesFromCatalog(d, types[1..]);
    assert cs[k2] == rest[k2 - |ws|];
    LookupSpec(d, types[0]);
    var i :| 0 <= i < |d| && d[i].key == types[0] && d[i].words == ws;
    assert cs[k1] == d[i].words[k1];
    var m :| 0 <= m < |types[1..]| && types[1..][m] == cs[k2].partOfSpeech;
    assert types[m + 1] == types[1..][m];
    DifferentTypesDifferentValues(d, cs[k1], cs[k2]);
  }

  /** Candidates of distinct types carry distinct values when dictionary values are unique. */
  lemma {:induction false} CandidatesDistinct(d: Catalog, types: seq<string>)
    requires Tagged(d) && UniqueValues(d) && Distinct(types) && Candidates(d, types).Some?
    ensures var cs := Candidates(d, types).value;
            forall k1, k2 | 0 <= k1 < |cs| && 0 <= k2 < |cs| && k1 != k2 :: cs[k1].value != cs[k2].value
    decreases |types|
  {
    if |types| > 0 {
      var ws := Lookup(d, types[0]).value;
      var rest := Candidates(d, types[1..]).value;
      var cs := Candidates(d, types).value;
      assert cs == ws + rest;
      assert Distinct(types[1..]);
      CandidatesDistinct(d, types[1..]);
      LookupSpec(d, types[0]);
      var i :| 0 <= i < |d| && d[i].key == types[0] && d[i].words == ws;
      forall k1, k2 | 0 <= k1 < |cs| && 0 <= k2 < |cs| && k1 != k2 ensures cs[k1].value != cs[k2].value {
        if k1 < |ws| && k2 < |ws| {
          assert cs[k1] == d[i].words[k1] && cs[k2] == d[i].words[k2];
        } else if k1 >= |ws| && k2 >= |ws| {
          assert cs[k1] == rest[k1 - |ws|] && cs[k2] == rest[k2 - |ws|];
        } else if k1 < |ws| {
          FirstAndLaterDiffer(d, types, k1, k2);
        } else {
          FirstAndLaterDiffer(d, types, k2, k1);
        }
      }
    }
  }

  // ----- one step of the word sequence -----

  /** The next word (GetNextWord, after the word count has advanced to `count`): the
      candidate at `index` among the next types, or the placeholder. */
  function NextWord(d: Catalog, rules: Rules, current: Option<Word>, count: nat, index: int): (r: Result<Word>)
    ensures r.Failure? ==> r.error == StateError
  {
    match NextTypes(rules, current, count)
    case Failure(e) => Failure(e)
    case Success(types) => WordAt(d, types, index, 0)
  }

  /** The index of a word (GetNextIndex, after the word count has advanced to `count`): the
      position of the first candidate with `w`'s value among the next types, or -1. */
  function NextIndex(d: Catalog, rules: Rules, current: Option<Word>, count: nat, w: Word): (r: Result<int>)
    ensures r.Failure? ==> r.error == StateError
    ensures r.Success? ==> r.value >= -1
  {
    match NextTypes(rules, current, count)
    case Failure(e) => Failure(e)
    case Success(types) => IndexIn(d, types, w.value, 0)
  }

  /** From the same state, GetNextIndex recovers the index GetNextWord was given, provided
      the index lies inside the candidate list and no earlier candidate shares the chosen
      word's value. */
  lemma NextIndexInvertsNextWord(d: Catalog, rules: Rules, current: Option<Word>, count: nat, index: int)
    requires NextTypes(rules, current, count).Success?
    requires Candidates(d, NextTypes(rules, current, count).value).Some?
    requires var cs := Candidates(d, NextTypes(rules, current, count).value).value;
             0 <= index < |cs| && forall j | 0 <= j < index :: cs[j].value != cs[index].value
    ensures NextWord(d, rules, current, count, index).Success?
    ensures NextIndex(d, rules, current, count, NextWord(d, rules, current, count, index).value) == Success(index)
  {
    var types := NextTypes(rules, current, count).value;
    var cs := Candidates(d, types).value;
    WordAtCandidates(d, types, index, 0);
    IndexInCandidates(d, types, cs[index].value, 0);
  }

  /** Every part of speech has enough distinct follower categories in the dictionary for
      the sum of two alphabet indices (n is the alphabet size). */
  predicate FollowersReady(d: Catalog, f: seq<string>, n: nat) {
    && |f| > 0 && Distinct(f)
    && Candidates(d, f).Some? && |Candidates(d, f).value| >= 2 * n - 1
  }

  /** The configuration conditions under which encryption stays inside the dictionary and
      decryption inverts it: entries tagged with their category, values unique across the
      dictionary, a start word, rules for every category and ready follower lists. */
  predicate Ready(d: Catalog, rules: Rules, n: nat) {
    && Tagged(d) && UniqueValues(d)
    && StartWord(d).Success?
    && (forall i | 0 <= i < |d| :: FollowersOf(rules, d[i].key).Some?)
    && (forall i | 0 <= i < |rules| :: FollowersReady(d, rules[i].1, n))
  }

  /** `next` may follow `prev`: its category is among the followers of prev's category. */
  predicate Follows(rules: Rules, prev: Word, next: Word) {
    FollowersOf(rules, prev.partOfSpeech).Some? && next.partOfSpeech in FollowersOf(rules, prev.partOfSpeech).value
  }

  /** A non-empty follower list whose categories offer enough candidates for the sum of
      two alphabet indices (n is the alphabet size). */
  predicate FollowersFit(d: Catalog, f: seq<string>, n: nat) {
    |f| > 0 && Candidates(d, f).Some? && |Candidates(d, f).value| >= 2 * n - 1
  }

  /** The capacity conditions under which every encryption step picks a dictionary word:
      entries tagged with their category, a start word, rules for every category and
      follower lists with enough candidates.  Values may repeat across categories. */
  predicate Capacious(d: Catalog, rules: Rules, n: nat) {
    && Tagged(d)
    && StartWord(d).Success?
    && (forall i | 0 <= i < |d| :: FollowersOf(rules, d[i].key).Some?)
    && (forall i | 0 <= i < |rules| :: FollowersFit(d, rules[i].1, n))
  }

  /** A ready configuration has the capacity. */
  lemma ReadyCapacious(d: Catalog, rules: Rules, n: nat)
    requires Ready(d, rules, n)
    ensures Capacious(d, rules, n)
  {
    forall i | 0 <= i < |rules| ensures FollowersFit(d, rules[i].1, n) {
      assert FollowersReady(d, rules[i].1, n);
    }
  }

  /** With the capacity, a dictionary word's category has a fitting follower list. */
  lemma CapaciousFollowers(d: Catalog, rules: Rules, n: nat, current: Word)
    requires Capacious(d, rules, n) && InCatalog(d, current)
    ensures FollowersOf(rules, current.partOfSpeech).Some?
    ensures FollowersFit(d, FollowersOf(rules, current.partOfSpeech).value, n)
  {
    var i, j :| 0 <= i < |d| && 0 <= j < |d[i].words| && d[i].words[j] == current;
    assert FollowersOf(rules, d[i].key).Some?;
    var f := FollowersOf(rules, current.partOfSpeech).value;
    var q :| 0 <= q < |rules| && rules[q].0 == current.partOfSpeech && rules[q].1 == f;
    assert FollowersFit(d, rules[q].1, n);
  }

  /** With the capacity, a dictionary word's next types are followers of its category
      with at least 2n - 1 candidates. */
  lemma CapaciousTypes(d: Catalog, rules: Rules, n: nat, current: Word, count: nat)
    requires Capacious(d, rules, n) && InCatalog(d, current)
    ensures NextTypes(rules, Some(current), count).Success?
    ensures var types := NextTypes(rules, Some(current), count).value;
            && (forall k | 0 <= k < |types| :: types[k] in FollowersOf(rules, current.partOfSpeech).value)
            && Candidates(d, types).Some? && |Candidates(d, types).value| >= 2 * n - 1
  {
    CapaciousFollowers(d, rules, n, current);
    var f := FollowersOf(rules, current.partOfSpeech).value;
    var shift := count % |f|;
    var types := Rotated(f, shift);
    assert NextTypes(rules, Some(current), count) == Success(types);
    CandidatesRotated(d, f, shift);
    RotatedPermutes(f, shift);
    forall k | 0 <= k < |types| ensures types[k] in f {
      assert types[k] in multiset(types);
    }
  }

  /** With the capacity, every index below 2n - 1 selects, from a dictionary word, a
      dictionary word allowed to follow it. */
  lemma StepFollows(d: Catalog, rules: Rules, n: nat, current: Word, count: nat, index: int)
    requires Capacious(d, rules, n) && InCatalog(d, current) && 0 <= index < 2 * n - 1
    ensures NextWord(d, rules, Some(current), count, index).Success?
    ensures InCatalog(d, NextWord(d, rules, Some(current), count, index).value)
    ensures Follows(rules, current, NextWord(d, rules, Some(current), count, index).value)
  {
    CapaciousTypes(d, rules, n, current, count);
    var types := NextTypes(rules, Some(current), count).value;
    WordAtCandidates(d, types, index, 0);
    CandidatesFromCatalog(d, types);
    var w := Candidates(d, types).value[index];
    assert NextWord(d, rules, Some(current), count, index) == Success(w);
    var m :| 0 <= m < |types| && types[m] == w.partOfSpeech;
  }

  /** Under a ready configuration, a dictionary word's category has a ready follower list. */
  lemma ReadyFollowers(d: Catalog, rules: Rules, n: nat, current: Word)
    requires Ready(d, rules, n) && InCatalog(d, current)
    ensures FollowersOf(rules, current.partOfSpeech).Some?
    ensures FollowersReady(d, FollowersOf(rules, current.partOfSpeech).value, n)
  {
    var i, j :| 0 <= i < |d| && 0 <= j < |d[i].words| && d[i].words[j] == current;
    assert FollowersOf(rules, d[i].key).Some?;
    var f := FollowersOf(rules, current.partOfSpeech).value;
    var q :| 0 <= q < |rules| && rules[q].0 == current.partOfSpeech && rules[q].1 == f;
    assert FollowersReady(d, rules[q].1, n);
  }

  /** A rotation of a ready follower list is ready too, and holds only followers. */
  lemma RotatedReady(d: Catalog, f: seq<string>, n: nat, shift: nat)
    requires FollowersReady(d, f, n) && shift < |f|
    ensures Distinct(Rotated(f, shift))
    ensures forall k | 0 <= k < |f| :: Rotated(f, shift)[k] in f
    ensures Candidates(d, Rotated(f, shift)).Some? && |Candidates(d, Rotated(f, shift)).value| >= 2 * n - 1
  {
    var types := Rotated(f, shift);
    CandidatesRotated(d, f, shift);
    RotatedPermutes(f, shift);
    forall k | 0 <= k < |types| ensures types[k] in f {
      assert types[k] in multiset(types);
    }
  }

  /** Under a ready configuration, a dictionary word's next types are its category's
      distinct followers, rotated, with at least 2n - 1 candidates. */
  lemma ReadyTypes(d: Catalog, rules: Rules, n: nat, current: Word, count: nat)
    requires Ready(d, rules, n) && InCatalog(d, current)
    ensures NextTypes(rules, Some(current), count).Success?
    ensures var types := NextTypes(rules, Some(current), count).value;
            && Distinct(types)
            && (forall k | 0 <= k < |types| :: types[k] in FollowersOf(rules, current.partOfSpeech).value)
            && Candidates(d, types).Some? && |Candidates(d, types).value| >= 2 * n - 1
  {
    ReadyFollowers(d, rules, n, current);
    var f := FollowersOf(rules, current.partOfSpeech).value;
    var shift := count % |f|;
    assert NextTypes(rules, Some(current), count) == Success(Rotated(f, shift));
    RotatedReady(d, f, n, shift);
  }

  /** With distinct types and unique dictionary values, the word chosen at an index in
      range is a candidate of one of the types and GetNextIndex gives the index back. */
  lemma TypesStep(d: Catalog, rules: Rules, current: Option<Word>, count: nat, index: int, types: seq<string>)
    requires Tagged(d) && UniqueValues(d)
    requires NextTypes(rules, current, count) == Success(types)
    requires Distinct(types) && Candidates(d, types).Some?
    requires 0 <= index < |Candidates(d, types).value|
    ensures NextWord(d, rules, current, count, index) == Success(Candidates(d, types).value[index])
    ensures InCatalog(d, Candidates(d, types).value[index])
    ensures Candidates(d, types).value[index].partOfSpeech in types
    ensures NextIndex(d, rules, current, count, Candidates(d, types).value[index]) == Success(index)
  {
    var cs := Candidates(d, types).value;
    CandidatesDistinct(d, types);
    NextIndexInvertsNextWord(d, rules, current, count, index);
    WordAtCandidates(d, types, index, 0);
    CandidatesFromCatalog(d, types);
  }

  /** Under a ready configuration and from a dictionary word, every index below 2n - 1
      selects a dictionary word that may follow the current one, and GetNextIndex gives the
      index back. */
  lemma StepInverse(d: Catalog, rules: Rules, n: nat, current: Word, count: nat, index: int)
    requires Ready(d, rules, n) && InCatalog(d, current) && 0 <= index < 2 * n - 1
    ensures NextWord(d, rules, Some(current), count, index).Success?
    ensures var w := NextWord(d, rules, Some(current), count, index).value;
            && InCatalog(d, w)
            && Follows(rules, current, w)
            && NextIndex(d, rules, Some(current), count, w) == Success(index)
  {
    ReadyTypes(d, rules, n, current, count);
    var types := NextTypes(rules, Some(current), count).value;
    TypesStep(d, rules, Some(current), count, index, types);
    var w := Candidates(d, types).value[index];
    var m :| 0 <= m < |types| && types[m] == w.partOfSpeech;
  }

  // ----- the Encrypt and Decrypt loops -----

  /** The words emitted for `msg` by a sequence at `current` after `count` words, given the
      password addends drawn for it: each character's alphabet index (-1 when absent) plus
      its addend selects the next word. */
  function EncodeWords(d: Catalog, rules: Rules, alphabet: seq<char>, addends: seq<int>,
                       count: nat, current: Word, msg: string): (r: Result<seq<Word>>)
    requires |addends| == |msg|
    ensures r.Success? ==> |r.value| == |msg|
    ensures r.Failure? ==> r.error == StateError
    decreases |msg|
  {
    if |msg| == 0 then Success([])
    else
      var charIndex := IndexOf(alphabet, msg[0]);
      match NextWord(d, rules, Some(current), count + 1, addends[0] + charIndex)
      case Failure(e) => Failure(e)
      case Success(w) => Prefixed([w], EncodeWords(d, rules, alphabet, addends[1..], count + 1, w, msg[1..]))
  }

  /** The characters recovered from `ws` by a sequence at `current` after `count` words,
      given the password addends drawn for them: each word's index minus its addend is an
      alphabet index, or the ciphertext is malformed. */
  function DecodeWords(d: Catalog, rules: Rules, alphabet: seq<char>, addends: seq<int>,
                       count: nat, current: Word, ws: seq<Word>): (r: Result<string>)
    requires |addends| == |ws|
    ensures r.Success? ==> |r.value| == |ws|
    ensures r.Success? ==> forall k | 0 <= k < |r.value| :: r.value[k] in alphabet
    ensures r.Failure? ==> r.error == StateError || r.error == MalformedCiphertext
    decreases |ws|
  {
    if |ws| == 0 then Success("")
    else match NextIndex(d, rules, Some(current), count + 1, ws[0])
      case Failure(e) => Failure(e)
      case Success(index) =>
        var diff := index - addends[0];
        if 0 <= diff < |alphabet| then
          var rest := DecodeWords(d, rules, alphabet, addends[1..], count + 1, ws[0], ws[1..]);
          assert rest.Success? ==> forall k | 0 <= k < |[alphabet[diff]] + rest.value| ::
                                     ([alphabet[diff]] + rest.value)[k] in alphabet by {
            if rest.Success? {
              forall k | 0 <= k < |[alphabet[diff]] + rest.value|
                ensures ([alphabet[diff]] + rest.value)[k] in alphabet
              {
                if k > 0 {
                  assert ([alphabet[diff]] + rest.value)[k] == rest.value[k - 1];
                }
              }
            }
          }
          Prefixed([alphabet[diff]], rest)
        else Failure(MalformedCiphertext)
  }

  /** What StepInverse establishes, for every dictionary word and index below 2n - 1. */
  ghost predicate Invertible(d: Catalog, rules: Rules, n: nat) {
    forall current: Word, count: nat, index: int
      | InCatalog(d, current) && 0 <= index < 2 * n - 1 && NextWord(d, rules, Some(current), count, index).Success? ::
      && InCatalog(d, NextWord(d, rules, Some(current), count, index).value)
      && Follows(rules, current, NextWord(d, rules, Some(current), count, index).value)
      && NextIndex(d, rules, Some(current), count, NextWord(d, rules, Some(current), count, index).value) == Success(index)
  }

  /** What StepInverse establishes about success. */
  ghost predicate Total(d: Catalog, rules: Rules, n: nat) {
    forall current: Word, count: nat, index: int | InCatalog(d, current) && 0 <= index < 2 * n - 1 ::
      NextWord(d, rules, Some(current), count, index).Success?
  }

  lemma ReadyInvertible(d: Catalog, rules: Rules, n: nat)
    requires Ready(d, rules, n)
    ensures Total(d, rules, n) && Invertible(d, rules, n)
  {
    forall current: Word, count: nat, index: int | InCatalog(d, current) && 0 <= index < 2 * n - 1
      ensures NextWord(d, rules, Some(current), count, index).Success?
      ensures var w := NextWord(d, rules, Some(current), count, index).value;
              InCatalog(d, w) && Follows(rules, current, w)
              && NextIndex(d, rules, Some(current), count, w) == Success(index)
    {
      StepInverse(d, rules, n, current, count, index);
    }
  }

  /** Invertible and Total at one point: the word drawn there, and what it satisfies. */
  lemma InvertibleAt(d: Catalog, rules: Rules, n: nat, current: Word, count: nat, index: int) returns (w: Word)
    requires Total(d, rules, n) && Invertible(d, rules, n)
    requires InCatalog(d, current) && 0 <= index < 2 * n - 1
    ensures NextWord(d, rules, Some(current), count, index) == Success(w)
    ensures InCatalog(d, w) && Follows(rules, current, w)
    ensures NextIndex(d, rules, Some(current), count, w) == Success(index)
  {
    w := NextWord(d, rules, Some(current), count, index).value;
  }

  /** The first character's index plus the first addend stays below 2n - 1. */
  lemma FirstIndexFits(alphabet: seq<char>, addends: seq<int>, msg: string)
    requires |addends| == |msg| > 0 && AddendsFit(addends, |alphabet|)
    requires forall k | 0 <= k < |msg| :: msg[k] in alphabet
    ensures 0 <= IndexOf(alphabet, msg[0]) < |alphabet|
    ensures 0 <= addends[0] + IndexOf(alphabet, msg[0]) < 2 * |alphabet| - 1
    ensures AddendsFit(addends[1..], |alphabet|)
    ensures forall k | 0 <= k < |msg[1..]| :: msg[1..][k] in alphabet
  {
    assert msg[0] in alphabet;
    assert 0 <= addends[0] < |alphabet|;
    forall k | 0 <= k < |addends[1..]| ensures 0 <= addends[1..][k] < |alphabet| {
      assert addends[1..][k] == addends[k + 1];
    }
    forall k | 0 <= k < |msg[1..]| ensures msg[1..][k] in alphabet {
      assert msg[1..][k] == msg[k + 1];
    }
  }

  /** One step of EncodeWords. */
  lemma EncodeStep(d: Catalog, rules: Rules, alphabet: seq<char>, addends: seq<int>,
                   count: nat, current: Word, msg: string, index: int, w: Word)
    requires |addends| == |msg| > 0 && index == addends[0] + IndexOf(alphabet, msg[0])
    requires NextWord(d, rules, Some(current), count + 1, index) == Success(w)
    ensures EncodeWords(d, rules, alphabet, addends, count, current, msg)
            == Prefixed([w], EncodeWords(d, rules, alphabet, addends[1..], count + 1, w, msg[1..]))
  {
  }

  /** One step of DecodeWords. */
  lemma DecodeStep(d: Catalog, rules: Rules, alphabet: seq<char>, addends: seq<int>,
                   count: nat, current: Word, ws: seq<Word>, index: int, charIndex: int)
    requires |addends| == |ws| > 0
    requires NextIndex(d, rules, Some(current), count + 1, ws[0]) == Success(index)
    requires index == addends[0] + charIndex && 0 <= charIndex < |alphabet|
    ensures DecodeWords(d, rules, alphabet, addends, count, current, ws)
            == Prefixed([alphabet[charIndex]], DecodeWords(d, rules, alphabet, addends[1..], count + 1, ws[0], ws[1..]))
  {
    assert index - addends[0] == charIndex;
  }

  /** Every addend is an alphabet index. */
  predicate AddendsFit(addends: seq<int>, n: nat) {
    forall k | 0 <= k < |addends| :: 0 <= addends[k] < n
  }

  /** Characters over the alphabet decode back from the words they encode to, when both
      sides draw the same addends. */
  lemma {:induction false} DecodeEncode(d: Catalog, rules: Rules, alphabet: seq<char>, addends: seq<int>,
                                        count: nat, current: Word, msg: string)
    requires Total(d, rules, |alphabet|) && Invertible(d, rules, |alphabet|) && InCatalog(d, current)
    requires |addends| == |msg| && AddendsFit(addends, |alphabet|)
    requires forall k | 0 <= k < |msg| :: msg[k] in alphabet
    ensures EncodeWords(d, rules, alphabet, addends, count, current, msg).Success?
    ensures DecodeWords(d, rules, alphabet, addends, count, current,
                        EncodeWords(d, rules, alphabet, addends, count, current, msg).value) == Success(msg)
    decreases |msg|
  {
    if |msg| > 0 {
      FirstIndexFits(alphabet, addends, msg);
      var charIndex := IndexOf(alphabet, msg[0]);
      var index := addends[0] + charIndex;
      var w := InvertibleAt(d, rules, |alphabet|, current, count + 1, index);
      DecodeEncode(d, rules, alphabet, addends[1..], count + 1, w, msg[1..]);
      var rest := EncodeWords(d, rules, alphabet, addends[1..], count + 1, w, msg[1..]).value;
      var ws := [w] + rest;
      EncodeStep(d, rules, alphabet, addends, count, current, msg, index, w);
      assert ws[0] == w && ws[1..] == rest;
      DecodeStep(d, rules, alphabet, addends, count, current, ws, index, charIndex);
      assert alphabet[charIndex] == msg[0];
      assert msg == [msg[0]] + msg[1..];
    }
  }

  /** Characters over the alphabet encode to dictionary words, each one allowed to follow
      the word before it (the first one the word the sequence continues from). */
  lemma {:induction false} EncodeFollowsRules(d: Catalog, rules: Rules, alphabet: seq<char>, addends: seq<int>,
                                              count: nat, current: Word, msg: string)
    requires Capacious(d, rules, |alphabet|) && InCatalog(d, current)
    requires |addends| == |msg| && AddendsFit(addends, |alphabet|)
    requires forall k | 0 <= k < |msg| :: msg[k] in alphabet
    ensures EncodeWords(d, rules, alphabet, addends, count, current, msg).Success?
    ensures var ws := EncodeWords(d, rules, alphabet, addends, count, current, msg).value;
            && (forall k | 0 <= k < |ws| :: InCatalog(d, ws[k]))
            && (|ws| > 0 ==> Follows(rules, current, ws[0]))
            && (forall k | 0 < k < |ws| :: Follows(rules, ws[k - 1], ws[k]))
    decreases |msg|
  {
    if |msg| > 0 {
      FirstIndexFits(alphabet, addends, msg);
      var index := addends[0] + IndexOf(alphabet, msg[0]);
      StepFollows(d, rules, |alphabet|, current, count + 1, index);
      var w := NextWord(d, rules, Some(current), count + 1, index).value;
      EncodeFollowsRules(d, rules, alphabet, addends[1..], count + 1, w, msg[1..]);
      var rest := EncodeWords(d, rules, alphabet, addends[1..], count + 1, w, msg[1..]).value;
      var ws := [w] + rest;
      EncodeStep(d, rules, alphabet, addends, count, current, msg, index, w);
      forall k | 0 < k < |ws| ensures InCatalog(d, ws[k]) {
        assert ws[k] == rest[k - 1];
      }
      forall k | 0 < k < |ws| ensures Follows(rules, ws[k - 1], ws[k]) {
        assert ws[k] == rest[k - 1];
        if k > 1 {
          assert ws[k - 1] == rest[k - 2];
        }
      }
    }
  }

  // ----- Encrypt and Decrypt -----

  /** The rendering configuration of the Message objects the mapper builds. */
  function MessageLayout(cfg: Config): Layout {
    Layout(cfg.periodPartsOfSpeech, ParseConnectorRules(cfg.connectors))
  }

  /** The words Encrypt emits: after a rewind to the start word and a fresh password,
      one word per plaintext character.  Fails when the rewind or the password fails. */
  function EncryptWords(d: Catalog, cfg: Config, msg: string, password: string): (r: Result<seq<Word>>)
    ensures r.Success? ==> |r.value| == |msg|
    ensures r.Failure? ==> r.error == StateError || r.error == InvalidPassword
    ensures StartWord(d).Failure? ==> r == Failure(StateError)
    ensures StartWord(d).Success? && !ValidPhrase(password, cfg.allowedChars) ==> r == Failure(InvalidPassword)
  {
    match StartWord(d)
    case Failure(e) => Failure(e)
    case Success(w0) =>
      if !ValidPhrase(password, cfg.allowedChars) then Failure(InvalidPassword)
      else
        EncodeWords(d, cfg.partsOfSpeechRules, cfg.allowedChars,
                    Addends(FreshState(password, cfg.allowedChars), |msg|), 0, w0, msg)
  }

  /** The text Encrypt returns: the emitted words rendered as a message. */
  function EncryptText(d: Catalog, cfg: Config, msg: string, password: string): Result<string>
    requires RulesShaped(ParseConnectorRules(cfg.connectors))
  {
    match EncryptWords(d, cfg, msg, password)
    case Failure(e) => Failure(e)
    case Success(ws) => Success(Render(MessageLayout(cfg), ws))
  }

  /** The text Decrypt returns: after a rewind and a fresh password, the cover text is
      parsed into words and every word decoded back into a character. */
  function DecryptText(d: Catalog, cfg: Config, text: string, password: string): (r: Result<string>)
    requires RulesNamed(ParseConnectorRules(cfg.connectors))
    ensures r.Success? ==> forall k | 0 <= k < |r.value| :: r.value[k] in cfg.allowedChars
    ensures StartWord(d).Failure? ==> r == Failure(StateError)
    ensures StartWord(d).Success? && !ValidPhrase(password, cfg.allowedChars) ==> r == Failure(InvalidPassword)
  {
    match StartWord(d)
    case Failure(e) => Failure(e)
    case Success(w0) =>
      if !ValidPhrase(password, cfg.allowedChars) then Failure(InvalidPassword)
      else match ParseText(MessageLayout(cfg), d, text)
        case Failure(e) => Failure(e)
        case Success(ws) =>
          DecodeWords(d, cfg.partsOfSpeechRules, cfg.allowedChars,
                      Addends(FreshState(password, cfg.allowedChars), |ws|), 0, w0, ws)
  }

  /** Every catalog word survives rendering: a lower-case initial, no space or period, and
      not spelled like a connector. */
  predicate CatalogRenderable(layout: Layout, d: Catalog)
    requires RulesShaped(layout.connectorRules)
  {
    forall i, j | 0 <= i < |d| && 0 <= j < |d[i].words| ::
      && LowerInitial(d[i].words[j].value) && ' ' !in d[i].words[j].value && '.' !in d[i].words[j].value
      && !IsConnector(layout.connectorRules, d[i].words[j].value)
  }

  /** Catalog words are renderable once values are unique. */
  lemma CatalogWordsRenderable(layout: Layout, d: Catalog, ws: seq<Word>)
    requires RulesShaped(layout.connectorRules) && CatalogRenderable(layout, d) && UniqueValues(d)
    requires forall k | 0 <= k < |ws| :: InCatalog(d, ws[k])
    ensures forall k | 0 <= k < |ws| :: Renderable(layout, d, ws[k])
  {
    forall k | 0 <= k < |ws| ensures Renderable(layout, d, ws[k]) {
      FindStoredWord(d, ws[k]);
    }
  }

  /** The start word is a catalog word. */
  lemma StartInCatalog(d: Catalog)
    requires StartWord(d).Success?
    ensures InCatalog(d, StartWord(d).value)
  {
    var i :| 0 <= i < |d| && |d[i].words| > 0 && StartWord(d).value == d[i].words[0]
             && forall k | 0 <= k < |d| :: LexLeq(d[i].key, d[k].key);
    assert d[i].words[0] == StartWord(d).value;
  }

  /** The addends a fresh password draws fit the alphabet. */
  lemma FreshAddendsFit(password: string, alphabet: seq<char>, n: nat)
    requires ValidPhrase(password, alphabet)
    ensures |Addends(FreshState(password, alphabet), n)| == n
    ensures AddendsFit(Addends(FreshState(password, alphabet), n), |alphabet|)
  {
    AddendsInRange(FreshState(password, alphabet), n);
  }

  /** Every emitted word is a catalog word allowed to follow the word before it, the first
      one following the start word. */
  lemma EncryptFollowsGrammar(d: Catalog, cfg: Config, msg: string, password: string)
    requires Capacious(d, cfg.partsOfSpeechRules, |cfg.allowedChars|)
    requires ValidPhrase(password, cfg.allowedChars)
    requires forall k | 0 <= k < |msg| :: msg[k] in cfg.allowedChars
    ensures EncryptWords(d, cfg, msg, password).Success?
    ensures var ws := EncryptWords(d, cfg, msg, password).value;
            && |ws| == |msg|
            && (forall k | 0 <= k < |ws| :: InCatalog(d, ws[k]))
            && (|ws| > 0 ==> Follows(cfg.partsOfSpeechRules, StartWord(d).value, ws[0]))
            && (forall k | 0 < k < |ws| :: Follows(cfg.partsOfSpeechRules, ws[k - 1], ws[k]))
  {
    var rules := cfg.partsOfSpeechRules;
    var alphabet := cfg.allowedChars;
    StartInCatalog(d);
    FreshAddendsFit(password, alphabet, |msg|);
    EncodeFollowsRules(d, rules, alphabet, Addends(FreshState(password, alphabet), |msg|), 0, StartWord(d).value, msg);
  }

  /** The headline property: decrypting the encryption of a non-empty plaintext over the
      alphabet with the same valid password gives the plaintext back. */
  lemma DecryptEncrypt(d: Catalog, cfg: Config, msg: string, password: string)
    requires RulesShaped(ParseConnectorRules(cfg.connectors)) && ConnectorsRenderable(ParseConnectorRules(cfg.connectors))
    requires Ready(d, cfg.partsOfSpeechRules, |cfg.allowedChars|) && CatalogRenderable(MessageLayout(cfg), d)
    requires ValidPhrase(password, cfg.allowedChars)
    requires |msg| >= 1 && forall k | 0 <= k < |msg| :: msg[k] in cfg.allowedChars
    ensures EncryptText(d, cfg, msg, password).Success?
    ensures DecryptText(d, cfg, EncryptText(d, cfg, msg, password).value, password) == Success(msg)
  {
    var rules := cfg.partsOfSpeechRules;
    var alphabet := cfg.allowedChars;
    var layout := MessageLayout(cfg);
    var addends := Addends(FreshState(password, alphabet), |msg|);
    var w0 := StartWord(d).value;
    ReadyCapacious(d, rules, |alphabet|);
    EncryptFollowsGrammar(d, cfg, msg, password);
    var ws := EncryptWords(d, cfg, msg, password).value;
    assert ws == EncodeWords(d, rules, alphabet, addends, 0, w0, msg).value;
    CatalogWordsRenderable(layout, d, ws);
    RenderThenParse(layout, d, ws);
    StartInCatalog(d);
    ReadyInvertible(d, rules, |alphabet|);
    FreshAddendsFit(password, alphabet, |msg|);
    DecodeEncode(d, rules, alphabet, addends, 0, w0, msg);
  }

  /** The empty plaintext encrypts to the empty text, which does not decrypt: its only
      token is empty. */
  lemma EmptyPlaintext(d: Catalog, cfg: Config, password: string)
    requires RulesShaped(ParseConnectorRules(cfg.connectors))
    requires StartWord(d).Success? && ValidPhrase(password, cfg.allowedChars)
    ensures EncryptText(d, cfg, "", password) == Success("")
    ensures DecryptText(d, cfg, "", password) == Failure(EmptyToken)
  {
    EmptyRenderDoesNotParse(MessageLayout(cfg), d);
  }

  // ----- one loop iteration of Encrypt and Decrypt -----

  /** EncodeWords from position `i` of the plaintext, one character unfolded. */
  lemma EncodeAdvance(d: Catalog, rules: Rules, alphabet: seq<char>, addends: seq<int>,
                      count: nat, current: Word, msg: string, i: nat)
    requires |addends| == |msg| && i < |msg|
    ensures EncodeWords(d, rules, alphabet, addends[i..], count, current, msg[i..])
            == match NextWord(d, rules, Some(current), count + 1, addends[i] + IndexOf(alphabet, msg[i]))
               case Failure(e) => Failure(e)
               case Success(w) => Prefixed([w], EncodeWords(d, rules, alphabet, addends[i + 1..], count + 1, w, msg[i + 1..]))
  {
    assert addends[i..][0] == addends[i] && addends[i..][1..] == addends[i + 1..];
    assert msg[i..][0] == msg[i] && msg[i..][1..] == msg[i + 1..];
  }

  /** DecodeWords from position `i` of the word list, one word unfolded. */
  lemma DecodeAdvance(d: Catalog, rules: Rules, alphabet: seq<char>, addends: seq<int>,
                      count: nat, current: Word, ws: seq<Word>, i: nat)
    requires |addends| == |ws| && i < |ws|
    ensures DecodeWords(d, rules, alphabet, addends[i..], count, current, ws[i..])
            == match NextIndex(d, rules, Some(current), count + 1, ws[i])
               case Failure(e) => Failure(e)
               case Success(index) =>
                 if 0 <= index - addends[i] < |alphabet| then
                   Prefixed([alphabet[index - addends[i]]],
                            DecodeWords(d, rules, alphabet, addends[i + 1..], count + 1, ws[i], ws[i + 1..]))
                 else Failure(MalformedCiphertext)
  {
    assert addends[i..][0] == addends[i] && addends[i..][1..] == addends[i + 1..];
    assert ws[i..][0] == ws[i] && ws[i..][1..] == ws[i + 1..];
  }

  /** The Encrypt loop invariant across one character: `spec` is the whole word sequence,
      `before` the words emitted so far and `next` the word the step draws. */
  lemma EncryptLoopStep(d: Catalog, rules: Rules, alphabet: seq<char>, addends: seq<int>, msg: string,
                        i: nat, current: Word, before: seq<Word>, spec: Result<seq<Word>>, sum: int, next: Result<Word>)
    requires |addends| == |msg| && i < |msg|
    requires spec == Prefixed(before, EncodeWords(d, rules, alphabet, addends[i..], i, current, msg[i..]))
    requires sum == addends[i] + IndexOf(alphabet, msg[i])
    requires next == NextWord(d, rules, Some(current), i + 1, sum)
    ensures next.Failure? ==> spec == Failure(next.error)
    ensures next.Success? ==>
              spec == Prefixed(before + [next.value],
                               EncodeWords(d, rules, alphabet, addends[i + 1..], i + 1, next.value, msg[i + 1..]))
  {
    EncodeAdvance(d, rules, alphabet, addends, i, current, msg, i);
    if next.Success? {
      PrefixedTwice(before, [next.value], EncodeWords(d, rules, alphabet, addends[i + 1..], i + 1, next.value, msg[i + 1..]));
    }
  }

  /** The Decrypt loop invariant across one word: `spec` is the whole recovered text,
      `before` the characters recovered so far and `index` the word's position. */
  lemma DecryptLoopStep(d: Catalog, rules: Rules, alphabet: seq<char>, addends: seq<int>, ws: seq<Word>,
                        i: nat, current: Word, before: string, spec: Result<string>, index: Result<int>, diff: int)
    requires |addends| == |ws| && i < |ws|
    requires spec == Prefixed(before, DecodeWords(d, rules, alphabet, addends[i..], i, current, ws[i..]))
    requires index == NextIndex(d, rules, Some(current), i + 1, ws[i])
    requires index.Success? ==> diff == index.value - addends[i]
    ensures index.Failure? ==> spec == Failure(index.error)
    ensures index.Success? && !(0 <= diff < |alphabet|) ==> spec == Failure(MalformedCiphertext)
    ensures index.Success? && 0 <= diff < |alphabet| ==>
              spec == Prefixed(before + [alphabet[diff]],
                               DecodeWords(d, rules, alphabet, addends[i + 1..], i + 1, ws[i], ws[i + 1..]))
  {
    DecodeAdvance(d, rules, alphabet, addends, i, current, ws, i);
    if index.Success? && 0 <= diff < |alphabet| {
      PrefixedTwice(before, [alphabet[diff]], DecodeWords(d, rules, alphabet, addends[i + 1..], i + 1, ws[i], ws[i + 1..]));
    }
  }

  /** The search loop of GetNextIndex: the position of the first candidate with value `v`
      counted across the word lists of `followers` in order, or -1. */
  method IndexAmong(d: Catalog, followers: seq<string>, v: string) returns (r: Result<int>)
    ensures r == IndexIn(d, followers, v, 0)
  {
    var grandIndexCount := 0;
    for i := 0 to |followers|
      invariant IndexIn(d, followers, v, 0) == IndexIn(d, followers[i..], v, grandIndexCount)
    {
      assert followers[i..][0] == followers[i];
      var lookup := Lookup(d, followers[i]);
      if lookup.None? {
        return Failure(StateError);
      }
      var wordsInDictionary := lookup.value;
      var j := ScanForValue(wordsInDictionary, v);
      IndexInHead(d, followers[i..], v, grandIndexCount, wordsInDictionary);
      if j < |wordsInDictionary| {
        return Success(grandIndexCount + j);
      }
      grandIndexCount := grandIndexCount + |wordsInDictionary|;
      assert followers[i..][1..] == followers[i + 1..];
    }
    return Success(-1);
  }

  /** The inner loop of GetNextIndex: the position of the first word of `ws` whose value
      is `v`, or |ws| when there is none. */
  method ScanForValue(ws: seq<Word>, v: string) returns (j: nat)
    ensures j <= |ws|
    ensures FindInList(ws, v) == if j < |ws| then Some(j) else None
  {
    j := 0;
    while j < |ws|
      invariant j <= |ws|
      invariant forall k | 0 <= k < j :: ws[k].value != v
    {
      if ws[j].value == v {
        FindInListAt(ws, v, j);
        return;
      }
      j := j + 1;
    }
  }

  // ----- the Mapper object -----

  /** A Mapper object: the catalog and configuration it was built from, and the position
      in the word sequence (the last word and the number of words so far). */
  class Mapper {
    const dict: Catalog
    var wordCount: nat
    var currentWord: Option<Word>
    const config: Config

    /** Builds the catalog from the configured dictionary; no current word yet. */
    constructor (config: Config)
      requires RawKeysDistinct(config.dictionary)
      ensures this.config == config
      ensures |dict| == |config.dictionary|
      ensures forall i | 0 <= i < |dict| :: dict[i].key == config.dictionary[i].0
                                           && |dict[i].words| == |config.dictionary[i].1|
      ensures forall i, j | 0 <= i < |dict| && 0 <= j < |dict[i].words| ::
                dict[i].words[j] == Word(config.dictionary[i].1[j], config.dictionary[i].0)
      ensures KeysDistinct(dict) && Tagged(dict)
      ensures wordCount == 0 && currentWord == None
    {
      var consolidated := ConsolidateRawDict(config.dictionary);
      this.config := config;
      dict := consolidated;
      wordCount := 0;
      currentWord := None;
    }

    /** Restarts the sequence before its first term: the current word becomes the start
        word and the count returns to zero.  Reports false, changing nothing, where the
        source throws (an empty dictionary or an empty first word list). */
    method Rewind() returns (ok: bool)
      modifies this`currentWord, this`wordCount
      ensures ok <==> StartWord(dict).Success?
      ensures ok ==> currentWord == Some(StartWord(dict).value) && wordCount == 0
      ensures !ok ==> currentWord == old(currentWord) && wordCount == old(wordCount)
    {
      if |dict| == 0 {
        return false;
      }
      var key := MinKey(Keys(dict));
      var words := Lookup(dict, key);
      if words.None? || |words.value| == 0 {
        return false;
      }
      currentWord := Some(words.value[0]);
      wordCount := 0;
      return true;
    }

    /** The parts of speech the next word may take, built by the source's rotation loop. */
    method NextWordTypes() returns (r: Result<seq<string>>)
      ensures r == NextTypes(config.partsOfSpeechRules, currentWord, wordCount)
    {
      if currentWord.None? {
        return Failure(StateError);
      }
      var lookup := FollowersOf(config.partsOfSpeechRules, currentWord.value.partOfSpeech);
      if lookup.None? {
        return Failure(StateError);
      }
      var followers := lookup.value;
      if |followers| == 0 {
        return Failure(StateError);
      }
      var shift := wordCount % |followers|;
      var types := [];
      for i := 0 to |followers|
        invariant types == Rotated(followers, shift)[..i]
      {
        var j := i + shift;
        while j >= |followers|
          invariant j == i + shift || (j == i + shift - |followers| && 0 <= j < |followers|)
        {
          j := j - |followers|;
        }
        RotatedAt(followers, shift, i);
        types := types + [followers[j]];
      }
      assert types == Rotated(followers, shift);
      return Success(types);
    }

    /** Advances the count, then returns the candidate at `index` among the next types'
        word lists, or the placeholder word when the index lies beyond them. */
    method GetNextWord(index: int) returns (r: Result<Word>)
      modifies this`wordCount
      ensures wordCount == old(wordCount) + 1
      ensures r == NextWord(dict, config.partsOfSpeechRules, currentWord, wordCount, index)
    {
      wordCount := wordCount + 1;
      var next := NextWordTypes();
      if next.Failure? {
        return Failure(next.error);
      }
      var followers := next.value;
      var grandIndexCount := 0;
      for i := 0 to |followers|
        invariant WordAt(dict, followers, index, 0) == WordAt(dict, followers[i..], index, grandIndexCount)
      {
        var lookup := Lookup(dict, followers[i]);
        if lookup.None? {
          return Failure(StateError);
        }
        var wordsInDictionary := lookup.value;
        ghost var base := grandIndexCount;
        for j := 0 to |wordsInDictionary|
          invariant grandIndexCount == base + j && !(base <= index < base + j)
        {
          if index == grandIndexCount {
            return Success(wordsInDictionary[j]);
          }
          grandIndexCount := grandIndexCount + 1;
        }
        assert followers[i..][1..] == followers[i + 1..];
      }
      return Success(Placeholder);
    }

    /** Advances the count, then returns the position of the first candidate with the
        word's value among the next types' word lists, or -1. */
    method GetNextIndex(word: Word) returns (r: Result<int>)
      modifies this`wordCount
      ensures wordCount == old(wordCount) + 1
      ensures r == NextIndex(dict, config.partsOfSpeechRules, currentWord, wordCount, word)
    {
      wordCount := wordCount + 1;
      var next := NextWordTypes();
      if next.Failure? {
        return Failure(next.error);
      }
      r := IndexAmong(dict, next.value, word.value);
    }

    /** The tail of one Encrypt turn: the word at `mapSum` becomes the next word, is
        appended to the message and becomes current; the loop invariant moves one
        character on. */
    method EmitWord(outMessage: Message, inMessage: string, i: nat, mapSum: int,
                    ghost addends: seq<int>, ghost spec: Result<seq<Word>>)
      returns (next: Result<Word>)
      requires |addends| == |inMessage| && i < |inMessage|
      requires currentWord.Some? && wordCount == i
      requires mapSum == addends[i] + IndexOf(config.allowedChars, inMessage[i])
      requires spec == Prefixed(outMessage.words, EncodeWords(dict, config.partsOfSpeechRules, config.allowedChars,
                                                               addends[i..], i, currentWord.value, inMessage[i..]))
      modifies this`currentWord, this`wordCount, outMessage
      ensures next.Failure? ==> spec == Failure(next.error)
      ensures next.Success? ==>
                && currentWord.Some? && wordCount == i + 1
                && spec == Prefixed(outMessage.words, EncodeWords(dict, config.partsOfSpeechRules, config.allowedChars,
                                                                   addends[i + 1..], i + 1, currentWord.value, inMessage[i + 1..]))
    {
      ghost var cur := currentWord.value;
      ghost var before := outMessage.words;
      next := GetNextWord(mapSum);
      if next.Success? {
        var appended := outMessage.Plus(next.value);
        currentWord := Some(next.value);
      }
      EncryptLoopStep(dict, config.partsOfSpeechRules, config.allowedChars, addends, inMessage, i, cur, before, spec, mapSum, next);
    }

    /** One turn of the Encrypt loop: the next addend plus the character's alphabet index
        selects the next word. */
    method EncryptStep(p: Password, outMessage: Message, inMessage: string, i: nat,
                       ghost addends: seq<int>, ghost spec: Result<seq<Word>>)
      returns (next: Result<Word>)
      requires p.Valid() && p.allowedChars == config.allowedChars
      requires |addends| == |inMessage| && i < |inMessage|
      requires currentWord.Some? && wordCount == i
      requires Drawn(addends, i, p.State())
      requires spec == Prefixed(outMessage.words, EncodeWords(dict, config.partsOfSpeechRules, config.allowedChars,
                                                               addends[i..], i, currentWord.value, inMessage[i..]))
      modifies this`currentWord, this`wordCount, p`mutateCount, p`addendPosition, p.phrase, outMessage
      ensures p.Valid()
      ensures next.Failure? ==> spec == Failure(next.error)
      ensures next.Success? ==>
                && currentWord.Some? && wordCount == i + 1
                && Drawn(addends, i + 1, p.State())
                && spec == Prefixed(outMessage.words, EncodeWords(dict, config.partsOfSpeechRules, config.allowedChars,
                                                                   addends[i + 1..], i + 1, currentWord.value, inMessage[i + 1..]))
    {
      var charIndex := IndexOf(config.allowedChars, inMessage[i]);
      var addend := DrawAddend(p, addends, i);
      var mapSum := addend + charIndex;
      next := EmitWord(outMessage, inMessage, i, mapSum, addends, spec);
    }

    /** Rewinds, then emits one word per character of `inMessage`, chosen by the next
        password addend plus the character's alphabet index, and renders the words. */
    method Encrypt(inMessage: string, password: string) returns (r: Result<string>)
      requires RulesShaped(ParseConnectorRules(config.connectors))
      modifies this`currentWord, this`wordCount
      ensures r == EncryptText(dict, config, inMessage, password)
      ensures r.Success? ==> wordCount == |inMessage|
    {
      var ok := Rewind();
      if !ok {
        return Failure(StateError);
      }
      var outMessage := new Message(config.periodPartsOfSpeech, config.connectors);
      var created := Password.Create(password, config.allowedChars);
      if created.Failure? {
        return Failure(created.error);
      }
      var p := created.value;
      ghost var rules := config.partsOfSpeechRules;
      ghost var alphabet := config.allowedChars;
      ghost var addends := Addends(p.State(), |inMessage|);
      ghost var spec := EncodeWords(dict, rules, alphabet, addends, 0, currentWord.value, inMessage);
      assert addends[0..] == addends && inMessage[0..] == inMessage;
      PrefixedEmpty(spec);
      for i := 0 to |inMessage|
        invariant fresh(p) && fresh(p.phrase) && fresh(outMessage)
        invariant p.Valid() && p.allowedChars == alphabet
        invariant outMessage.Format() == MessageLayout(config)
        invariant currentWord.Some? && wordCount == i
        invariant Drawn(addends, i, p.State())
        invariant spec == Prefixed(outMessage.words,
                                   EncodeWords(dict, rules, alphabet, addends[i..], i, currentWord.value, inMessage[i..]))
      {
        var nextWord := EncryptStep(p, outMessage, inMessage, i, addends, spec);
        if nextWord.Failure? {
          return Failure(nextWord.error);
        }
      }
      assert inMessage[|inMessage|..] == [];
      assert outMessage.words + [] == outMessage.words;
      var text := outMessage.ToString();
      return Success(text);
    }

    /** One turn of the Decrypt loop: the word's index minus the next addend gives the
        recovered character, which must be an alphabet index; the word becomes current. */
    method DecryptStep(p: Password, message: Message, i: nat, ghost original: string,
                       ghost addends: seq<int>, ghost spec: Result<string>)
      returns (ch: Result<char>)
      requires p.Valid() && p.allowedChars == config.allowedChars
      requires |addends| == |message.words| && i < |message.words|
      requires currentWord.Some? && wordCount == i
      requires Drawn(addends, i, p.State())
      requires spec == Prefixed(original, DecodeWords(dict, config.partsOfSpeechRules, config.allowedChars,
                                                      addends[i..], i, currentWord.value, message.words[i..]))
      modifies this`currentWord, this`wordCount, p`mutateCount, p`addendPosition, p.phrase
      ensures ch.Failure? ==> spec == Failure(ch.error)
      ensures ch.Success? ==>
                && p.Valid() && currentWord.Some? && wordCount == i + 1
                && Drawn(addends, i + 1, p.State())
                && spec == Prefixed(original + [ch.value],
                                    DecodeWords(dict, config.partsOfSpeechRules, config.allowedChars,
                                                addends[i + 1..], i + 1, currentWord.value, message.words[i + 1..]))
    {
      ghost var cur := currentWord.value;
      var nextIndex := GetNextIndex(message.words[i]);
      if nextIndex.Failure? {
        DecryptLoopStep(dict, config.partsOfSpeechRules, config.allowedChars, addends, message.words, i, cur, original, spec,
                        nextIndex, 0);
        return Failure(nextIndex.error);
      }
      var addend := DrawAddend(p, addends, i);
      ch := RecoverCharacter(message, i, nextIndex.value, addend, cur, original, addends, spec);
    }

    /** The tail of one Decrypt turn: the word's index minus its addend must be an alphabet
        index, whose character is recovered; the word becomes current. */
    method RecoverCharacter(message: Message, i: nat, index: int, addend: int, ghost cur: Word,
                            ghost original: string, ghost addends: seq<int>, ghost spec: Result<string>)
      returns (ch: Result<char>)
      requires |addends| == |message.words| && i < |message.words| && addend == addends[i]
      requires NextIndex(dict, config.partsOfSpeechRules, Some(cur), i + 1, message.words[i]) == Success(index)
      requires spec == Prefixed(original, DecodeWords(dict, config.partsOfSpeechRules, config.allowedChars,
                                                      addends[i..], i, cur, message.words[i..]))
      modifies this`currentWord
      ensures ch.Failure? ==> spec == Failure(ch.error)
      ensures ch.Success? ==>
                && currentWord == Some(message.words[i])
                && spec == Prefixed(original + [ch.value],
                                    DecodeWords(dict, config.partsOfSpeechRules, config.allowedChars,
                                                addends[i + 1..], i + 1, message.words[i], message.words[i + 1..]))
    {
      var mapDiff := index - addend;
      DecryptLoopStep(dict, config.partsOfSpeechRules, config.allowedChars, addends, message.words, i, cur, original, spec,
                      Success(index), mapDiff);
      if !(0 <= mapDiff < |config.allowedChars|) {
        return Failure(MalformedCiphertext);
      }
      currentWord := Some(message.words[i]);
      ch := Success(config.allowedChars[mapDiff]);
    }

    /** Rewinds, parses the cover text into words and recovers one character per word: the
        word's index minus the next password addend, which must be an alphabet index. */
    method Decrypt(encryptedString: string, password: string) returns (r: Result<string>)
      requires RulesNamed(ParseConnectorRules(config.connectors))
      modifies this`currentWord, this`wordCount
      ensures r == DecryptText(dict, config, encryptedString, password)
      ensures r.Success? ==> wordCount == |r.value|
    {
      var ok := Rewind();
      if !ok {
        return Failure(StateError);
      }
      var created := Password.Create(password, config.allowedChars);
      if created.Failure? {
        return Failure(created.error);
      }
      var p := created.value;
      var parsed := Message.Parse(encryptedString, dict, config.periodPartsOfSpeech, config.connectors);
      if parsed.Failure? {
        return Failure(parsed.error);
      }
      var message := parsed.value;
      ghost var addends := Addends(p.State(), |message.words|);
      assert addends[0..] == addends;
      r := DecryptWords(p, message, addends);
    }

    /** The Decrypt loop: one recovered character per word of the parsed message. */
    method DecryptWords(p: Password, message: Message, ghost addends: seq<int>) returns (r: Result<string>)
      requires p.Valid() && p.allowedChars == config.allowedChars
      requires currentWord.Some? && wordCount == 0
      requires |addends| == |message.words| && Drawn(addends, 0, p.State())
      modifies this`currentWord, this`wordCount, p`mutateCount, p`addendPosition, p.phrase
      ensures r == DecodeWords(dict, config.partsOfSpeechRules, config.allowedChars, addends, 0,
                               old(currentWord).value, message.words)
      ensures r.Success? ==> wordCount == |r.value| == |message.words|
    {
      ghost var ws := message.words;
      ghost var spec := DecodeWords(dict, config.partsOfSpeechRules, config.allowedChars, addends, 0, currentWord.value, ws);
      assert ws[0..] == ws;
      PrefixedEmpty(spec);
      var original := "";
      for i := 0 to |message.words|
        invariant p.Valid() && p.allowedChars == config.allowedChars
        invariant currentWord.Some? && wordCount == i == |original|
        invariant Drawn(addends, i, p.State())
        invariant spec == Prefixed(original, DecodeWords(dict, config.partsOfSpeechRules, config.allowedChars,
                                                         addends[i..], i, currentWord.value, ws[i..]))
      {
        var ch := DecryptStep(p, message, i, original, addends, spec);
        if ch.Failure? {
          return Failure(ch.error);
        }
        original := original + [ch.value];
      }
      assert ws[|ws|..] == [];
      assert original + [] == original;
      return Success(original);
    }
  }

  /** Encrypt rewinds first, so two calls with the same arguments give the same text. */
  method EncryptTwice(m: Mapper, inMessage: string, password: string) returns (first: Result<string>, second: Result<string>)
    requires RulesShaped(ParseConnectorRules(m.config.connectors))
    modifies m`currentWord, m`wordCount
    ensures first == second
  {
    first := m.Encrypt(inMessage, password);
    second := m.Encrypt(inMessage, password);
  }
}
