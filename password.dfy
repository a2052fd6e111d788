/** The password keystream (class Password of Src/Password.cs): a phrase held in a mutable
    character buffer that hands out one addend per call and then rolls like an odometer. */
module Passwords {
  import opened Basics

  /** Shortest phrase a Password accepts. */
  const MinPhraseLength := 3

  /** Every character of `phrase` belongs to `alphabet`. */
  predicate AllowedPhrase(phrase: seq<char>, alphabet: seq<char>) {
    forall k | 0 <= k < |phrase| :: phrase[k] in alphabet
  }

  /** The conditions under which the Password constructor does not throw. */
  predicate ValidPhrase(phrase: seq<char>, alphabet: seq<char>) {
    |phrase| >= MinPhraseLength && AllowedPhrase(phrase, alphabet)
  }

  /** The three cyclic starting positions of a mutation. */
  function MutatePositions(len: int): seq<int> {
    [len - 1, 2, 0]
  }

  /** Smallest alphabet index among the characters of `s`, starting the search at `start`. */
  function MinIndex(alphabet: seq<char>, s: seq<char>, start: int): int {
    if |s| == 0 then start
    else Min(MinIndex(alphabet, s[..|s| - 1], start), IndexOf(alphabet, s[|s| - 1]))
  }

  /** The step added at every mutated position: the smallest alphabet index in the phrase,
      raised to 1 so that every mutation changes a character. */
  function LowestCharCode(phrase: seq<char>, alphabet: seq<char>): int {
    Max(1, MinIndex(alphabet, phrase, |alphabet|))
  }

  /** Everything a Password's behaviour depends on. */
  datatype KeyState = KeyState(
    alphabet: seq<char>,
    lowest: int,
    phrase: seq<char>,
    addendPosition: nat,
    mutateCount: nat)

  predicate KeyValid(ks: KeyState) {
    && |ks.phrase| >= MinPhraseLength
    && AllowedPhrase(ks.phrase, ks.alphabet)
    && ks.addendPosition < |ks.phrase|
    && ks.lowest >= 1
  }

  /** The state of a Password just built from `phrase`. */
  function FreshState(phrase: seq<char>, alphabet: seq<char>): (ks: KeyState)
    ensures ValidPhrase(phrase, alphabet) ==> KeyValid(ks)
  {
    KeyState(alphabet, LowestCharCode(phrase, alphabet), phrase, 0, 0)
  }

  /** The character an alphabet character becomes when `lowest` is added to its index,
      modulo the alphabet size. */
  function Rolled(alphabet: seq<char>, lowest: int, c: char): char
    requires c in alphabet && lowest >= 0
  {
    alphabet[(IndexOf(alphabet, c) + lowest) % |alphabet|]
  }

  /** Adding `lowest` to the index of `c` runs past the end of the alphabet (a carry). */
  predicate Wraps(alphabet: seq<char>, lowest: int, c: char) {
    IndexOf(alphabet, c) + lowest >= |alphabet|
  }

  /** One mutation walk: advance `s[i]` by `lowest`; when that wraps around and `i > 0`,
      carry into position `i - 1`, and so on leftward. */
  function Roll(alphabet: seq<char>, lowest: int, s: seq<char>, i: nat): (r: seq<char>)
    requires i < |s| && AllowedPhrase(s, alphabet) && lowest >= 0
    ensures |r| == |s| && AllowedPhrase(r, alphabet)
    decreases i
  {
    var t := s[i := Rolled(alphabet, lowest, s[i])];
    if Wraps(alphabet, lowest, s[i]) && i > 0 then Roll(alphabet, lowest, t, i - 1) else t
  }

  /** Roll touched exactly the positions `k..i`: each of them was advanced by `lowest`,
      every position right of `k` wrapped around (and so carried), and the walk stopped at
      `k` because `k` did not wrap or was the leftmost position. */
  predicate RollShape(alphabet: seq<char>, lowest: int, s: seq<char>, i: nat, r: seq<char>, k: nat)
    requires i < |s| == |r| && AllowedPhrase(s, alphabet) && lowest >= 0
  {
    && k <= i
    && (forall q | 0 <= q < |s| && (q < k || i < q) :: r[q] == s[q])
    && (forall q | k <= q <= i :: r[q] == Rolled(alphabet, lowest, s[q]))
    && (forall q | k < q <= i :: Wraps(alphabet, lowest, s[q]))
    && (k == 0 || !Wraps(alphabet, lowest, s[k]))
  }

  lemma {:induction false} RollCharacterised(alphabet: seq<char>, lowest: int, s: seq<char>, i: nat)
    returns (k: nat)
    requires i < |s| && AllowedPhrase(s, alphabet) && lowest >= 0
    ensures RollShape(alphabet, lowest, s, i, Roll(alphabet, lowest, s, i), k)
    decreases i
  {
    var t := s[i := Rolled(alphabet, lowest, s[i])];
    if Wraps(alphabet, lowest, s[i]) && i > 0 {
      k := RollCharacterised(alphabet, lowest, t, i - 1);
      CarryShape(alphabet, lowest, s, i, Roll(alphabet, lowest, t, i - 1), k);
    } else {
      k := i;
    }
  }

  /** A carry out of position `i` extends the shape of the walk that continues at `i - 1`. */
  lemma CarryShape(alphabet: seq<char>, lowest: int, s: seq<char>, i: nat, r: seq<char>, k: nat)
    requires 0 < i < |s| == |r| && AllowedPhrase(s, alphabet) && lowest >= 0
    requires Wraps(alphabet, lowest, s[i])
    requires AllowedPhrase(s[i := Rolled(alphabet, lowest, s[i])], alphabet)
    requires RollShape(alphabet, lowest, s[i := Rolled(alphabet, lowest, s[i])], i - 1, r, k)
    ensures RollShape(alphabet, lowest, s, i, r, k)
  {
    var t := s[i := Rolled(alphabet, lowest, s[i])];
    forall q | k <= q <= i ensures r[q] == Rolled(alphabet, lowest, s[q]) {
      if q < i { assert t[q] == s[q]; }
    }
    forall q | k < q <= i ensures Wraps(alphabet, lowest, s[q]) {
      if q < i { assert t[q] == s[q]; }
    }
  }

  /** Adding a non-negative shift k*t that lands in [0, t) computes the remainder. */
  lemma ModOfShift(val: int, k: int, t: int, v: int)
    requires t > 0 && v == val + k * t && 0 <= v < t
    ensures v == val % t
  {
    var m := val / t + k;
    assert v - val % t == m * t;
  }

  /** With at least two distinct characters, the starting position of a roll always changes. */
  lemma RollChangesStart(alphabet: seq<char>, lowest: int, s: seq<char>, i: nat)
    requires i < |s| && AllowedPhrase(s, alphabet) && Distinct(alphabet)
    requires 1 <= lowest < |alphabet|
    ensures Roll(alphabet, lowest, s, i)[i] != s[i]
  {
    var r := Roll(alphabet, lowest, s, i);
    var k := RollCharacterised(alphabet, lowest, s, i);
    var idx := IndexOf(alphabet, s[i]);
    var n := (idx + lowest) % |alphabet|;
    assert r[i] == alphabet[n];
    if idx + lowest < |alphabet| {
      ModOfShift(idx + lowest, 0, |alphabet|, idx + lowest);
    } else {
      ModOfShift(idx + lowest, -1, |alphabet|, idx + lowest - |alphabet|);
    }
    assert n != idx;
  }

  /** One NextAddend call: the addend read before mutating, and the state afterwards. */
  function KeyStep(ks: KeyState): (step: (int, KeyState))
    requires KeyValid(ks)
    ensures KeyValid(step.1)
    ensures 0 <= step.0 < |ks.alphabet|
    ensures step.1.alphabet == ks.alphabet && step.1.lowest == ks.lowest
    ensures |step.1.phrase| == |ks.phrase|
  {
    var addend := IndexOf(ks.alphabet, ks.phrase[ks.addendPosition]);
    var pos := MutatePositions(|ks.phrase|)[ks.mutateCount % 3];
    var phrase := Roll(ks.alphabet, ks.lowest, ks.phrase, pos);
    (addend, ks.(phrase := phrase,
                 addendPosition := (ks.addendPosition + 1) % |ks.phrase|,
                 mutateCount := ks.mutateCount + 1))
  }

  /** The next `n` addends. */
  function Addends(ks: KeyState, n: nat): (a: seq<int>)
    requires KeyValid(ks)
    ensures |a| == n
    decreases n
  {
    if n == 0 then [] else [KeyStep(ks).0] + Addends(KeyStep(ks).1, n - 1)
  }

  /** The state after `n` NextAddend calls: the mutation count has grown by n and the addend
      position has moved n places on, cyclically; alphabet, step and phrase length stay. */
  function After(ks: KeyState, n: nat): (r: KeyState)
    requires KeyValid(ks)
    ensures KeyValid(r)
    ensures r.mutateCount == ks.mutateCount + n
    ensures r.addendPosition == (ks.addendPosition + n) % |ks.phrase|
    ensures r.alphabet == ks.alphabet && r.lowest == ks.lowest && |r.phrase| == |ks.phrase|
    decreases n
  {
    if n == 0 then
      ModOfShift(ks.addendPosition, 0, |ks.phrase|, ks.addendPosition);
      ks
    else
      var next := KeyStep(ks).1;
      KeyStepAdvances(ks);
      var r := After(next, n - 1);
      PositionAdvance(ks.addendPosition, next.addendPosition, r.addendPosition, n, |ks.phrase|);
      r
  }

  /** One cyclic step followed by `n - 1` more is `n` cyclic steps. */
  lemma PositionAdvance(p0: nat, p1: int, pn: int, n: nat, len: nat)
    requires p0 < len && n > 0
    requires p1 == (p0 + 1) % len && pn == (p1 + (n - 1)) % len
    ensures pn == (p0 + n) % len
  {
    CyclicAdvance(p0, n - 1, len);
    assert p0 + 1 + (n - 1) == p0 + n;
  }

  /** One call counts one mutation and moves the addend position one place on, cyclically. */
  lemma KeyStepAdvances(ks: KeyState)
    requires KeyValid(ks)
    ensures KeyStep(ks).1.mutateCount == ks.mutateCount + 1
    ensures KeyStep(ks).1.addendPosition == (ks.addendPosition + 1) % |ks.phrase|
  {
  }

  /** Adding one period leaves the remainder unchanged. */
  lemma ModAddPeriod(x: int, len: int)
    requires len > 0
    ensures (x + len) % len == x % len
  {
    var q := x / len;
    var r := x % len;
    assert x == q * len + r;
    assert x + len + (-q - 1) * len == r by {
      assert (-q - 1) * len == -(q * len) - len;
    }
    ModOfShift(x + len, -q - 1, len, r);
  }

  /** Moving one place and then m more, cyclically, is moving m + 1 places. */
  lemma CyclicAdvance(p: nat, m: nat, len: nat)
    requires p < len
    ensures ((p + 1) % len + m) % len == (p + 1 + m) % len
  {
    if p + 1 < len {
      ModOfShift(p + 1, 0, len, p + 1);
    } else {
      ModOfShift(p + 1, -1, len, 0);
      ModAddPeriod(m, len);
    }
  }

  /** `ks` is the state from which the addends after the first `i` of `addends` are drawn. */
  predicate Drawn(addends: seq<int>, i: nat, ks: KeyState) {
    i <= |addends| && KeyValid(ks) && addends[i..] == Addends(ks, |addends| - i)
  }

  /** Drawing one addend from a state whose remaining addends are a suffix of `addends`
      returns the next element of `addends` and leaves the rest for the state after. */
  lemma AddendsUnfold(addends: seq<int>, i: nat, ks: KeyState)
    requires Drawn(addends, i, ks) && i < |addends|
    ensures addends[i] == KeyStep(ks).0
    ensures Drawn(addends, i + 1, KeyStep(ks).1)
  {
    assert addends[i + 1..] == addends[i..][1..];
  }

  /** Every addend is an index into the alphabet. */
  lemma {:induction false} AddendsInRange(ks: KeyState, n: nat)
    requires KeyValid(ks)
    ensures forall k | 0 <= k < n :: 0 <= Addends(ks, n)[k] < |ks.alphabet|
    decreases n
  {
    if n > 0 {
      var step := KeyStep(ks);
      var rest := Addends(step.1, n - 1);
      AddendsInRange(step.1, n - 1);
      ConsInRange(step.0, rest, |ks.alphabet|);
    }
  }

  lemma ConsInRange(x: int, rest: seq<int>, bound: int)
    requires 0 <= x < bound
    requires forall k | 0 <= k < |rest| :: 0 <= rest[k] < bound
    ensures forall k | 0 <= k < |[x] + rest| :: 0 <= ([x] + rest)[k] < bound
  {
    forall k | 1 <= k < |[x] + rest| ensures 0 <= ([x] + rest)[k] < bound {
      assert ([x] + rest)[k] == rest[k - 1];
    }
  }

  /** The step fixed at construction lies in [1, |alphabet|) once the alphabet has two
      characters, and is the smallest phrase index raised to 1. */
  lemma {:induction false} LowestCharCodeBounds(phrase: seq<char>, alphabet: seq<char>)
    requires ValidPhrase(phrase, alphabet)
    ensures 1 <= LowestCharCode(phrase, alphabet)
    ensures |alphabet| >= 2 ==> LowestCharCode(phrase, alphabet) < |alphabet|
    ensures forall k | 0 <= k < |phrase| :: LowestCharCode(phrase, alphabet) <= Max(1, IndexOf(alphabet, phrase[k]))
    ensures LowestCharCode(phrase, alphabet) == 1
            || exists k :: 0 <= k < |phrase| && IndexOf(alphabet, phrase[k]) == LowestCharCode(phrase, alphabet)
  {
    MinIndexLeast(alphabet, phrase, |alphabet|);
    MinIndexAttained(alphabet, phrase, |alphabet|);
  }

  /** The minimum is no larger than the index of any phrase character. */
  lemma {:induction false} MinIndexLeast(alphabet: seq<char>, s: seq<char>, start: int)
    ensures forall k | 0 <= k < |s| :: MinIndex(alphabet, s, start) <= IndexOf(alphabet, s[k])
    decreases |s|
  {
    if |s| > 0 {
      var init := s[..|s| - 1];
      var before := MinIndex(alphabet, init, start);
      MinIndexLeast(alphabet, init, start);
      forall k | 0 <= k < |init| ensures before <= IndexOf(alphabet, s[k]) {
        assert s[k] == init[k];
      }
    }
  }

  /** The minimum over a non-empty phrase of alphabet characters is the index of one of
      them, so it lies in [0, |alphabet|). */
  lemma {:induction false} MinIndexAttained(alphabet: seq<char>, s: seq<char>, start: int)
    requires AllowedPhrase(s, alphabet) && |s| > 0 && start >= |alphabet|
    ensures 0 <= MinIndex(alphabet, s, start) < |alphabet|
    ensures exists k :: 0 <= k < |s| && IndexOf(alphabet, s[k]) == MinIndex(alphabet, s, start)
    decreases |s|
  {
    var init := s[..|s| - 1];
    var lastIndex := IndexOf(alphabet, s[|s| - 1]);
    var before := MinIndex(alphabet, init, start);
    assert MinIndex(alphabet, s, start) == Min(before, lastIndex);
    assert 0 <= lastIndex < |alphabet|;
    if |init| > 0 {
      assert AllowedPhrase(init, alphabet);
      MinIndexAttained(alphabet, init, start);
      if before < lastIndex {
        var k :| 0 <= k < |init| && IndexOf(alphabet, init[k]) == before;
        assert s[k] == init[k];
      }
    }
  }

  /** A Password object: the phrase buffer and counters of Src/Password.cs. */
  class Password {
    const phrase: array<char>
    var mutateCount: nat
    const mutatePositions: seq<int>
    var addendPosition: nat
    const lowestCharCode: int
    const allowedChars: seq<char>

    ghost function State(): KeyState
      reads this, phrase
    {
      KeyState(allowedChars, lowestCharCode, phrase[..], addendPosition, mutateCount)
    }

    ghost predicate Valid()
      reads this, phrase
    {
      KeyValid(State()) && mutatePositions == MutatePositions(phrase.Length)
    }

    /** Builds the Password once the phrase has been validated (see Create). */
    constructor (phrase: string, allowedChars: seq<char>)
      requires ValidPhrase(phrase, allowedChars)
      ensures Valid() && fresh(this.phrase)
      ensures State() == FreshState(phrase, allowedChars)
    {
      var lowest := CalcLowestCharCode(phrase, allowedChars);
      addendPosition := 0;
      this.phrase := new char[|phrase|](k requires 0 <= k < |phrase| => phrase[k]);
      this.allowedChars := allowedChars;
      mutateCount := 0;
      mutatePositions := [|phrase| - 1, 2, 0];
      lowestCharCode := lowest;
      new;
      assert this.phrase[..] == phrase;
    }

    /** The Password constructor with its validation: fails when the phrase is shorter than
        three characters or holds a character outside the alphabet. */
    static method Create(phrase: string, allowedChars: seq<char>) returns (r: Result<Password>)
      ensures r.Failure? <==> !ValidPhrase(phrase, allowedChars)
      ensures r.Failure? ==> r.error == InvalidPassword
      ensures r.Success? ==> fresh(r.value) && fresh(r.value.phrase) && r.value.Valid()
                             && r.value.State() == FreshState(phrase, allowedChars)
    {
      if |phrase| < MinPhraseLength {
        return Failure(InvalidPassword);
      }
      var allowed := VerifyCharsAllowed(phrase, allowedChars);
      if !allowed {
        return Failure(InvalidPassword);
      }
      var p := new Password(phrase, allowedChars);
      return Success(p);
    }

    /** Checks that every character of `s` is in the alphabet (the source throws otherwise). */
    static method VerifyCharsAllowed(s: string, allowedChars: seq<char>) returns (ok: bool)
      ensures ok <==> AllowedPhrase(s, allowedChars)
    {
      for k := 0 to |s|
        invariant AllowedPhrase(s[..k], allowedChars)
      {
        if IndexOf(allowedChars, s[k]) == -1 {
          return false;
        }
      }
      assert s[..|s|] == s;
      return true;
    }

    /** The smallest alphabet index of the phrase's characters, raised to 1. */
    static method CalcLowestCharCode(phrase: string, allowedChars: seq<char>) returns (lowest: int)
      ensures lowest == LowestCharCode(phrase, allowedChars)
    {
      lowest := |allowedChars|;
      for k := 0 to |phrase|
        invariant lowest == MinIndex(allowedChars, phrase[..k], |allowedChars|)
      {
        var ind := IndexOf(allowedChars, phrase[k]);
        assert phrase[..k + 1][..k] == phrase[..k];
        if lowest > ind {
          lowest := ind;
        }
      }
      assert phrase[..|phrase|] == phrase;
      if lowest < 1 {
        lowest := 1;
      }
    }

    /** Brings `val` into [0, totalIndices) by repeatedly adding or subtracting
        `totalIndices`; reports whether any correction was needed. */
    static method PrincipaliseIndex(val: int, totalIndices: int) returns (v: int, neededFix: bool)
      requires totalIndices > 0
      ensures 0 <= v < totalIndices
      ensures v == val % totalIndices
      ensures neededFix <==> (val < 0 || val >= totalIndices)
    {
      v := val;
      neededFix := false;
      ghost var k := 0;
      while v < 0
        invariant v == val + k * totalIndices
        invariant val <= v < totalIndices || v == val
        invariant neededFix <==> v != val
        decreases -v
      {
        v := v + totalIndices;
        k := k + 1;
        neededFix := true;
      }
      ghost var afterFirst := v;
      while v >= totalIndices
        invariant v == val + k * totalIndices
        invariant 0 <= v <= afterFirst
        invariant neededFix <==> (val < 0 || v != afterFirst)
        decreases v
      {
        v := v - totalIndices;
        k := k - 1;
        neededFix := true;
      }
      ModOfShift(val, k, totalIndices, v);
    }

    /** One turn of the Mutate loop: advances the character at `i` by the lowest character
        code, cyclically, and reports whether it wrapped around. */
    method RollPosition(i: int) returns (moveLeft: bool)
      requires 0 <= i < phrase.Length && AllowedPhrase(phrase[..], allowedChars) && lowestCharCode >= 1
      modifies phrase
      ensures phrase[..] == old(phrase[..])[i := Rolled(allowedChars, lowestCharCode, old(phrase[i]))]
      ensures moveLeft == Wraps(allowedChars, lowestCharCode, old(phrase[i]))
    {
      ghost var before := phrase[..];
      var charIndex := IndexOf(allowedChars, phrase[i]);
      charIndex := charIndex + lowestCharCode;
      charIndex, moveLeft := PrincipaliseIndex(charIndex, |allowedChars|);
      ghost var rolled := Rolled(allowedChars, lowestCharCode, before[i]);
      assert allowedChars[charIndex] == rolled;
      phrase[i] := allowedChars[charIndex];
      assert phrase[..] == before[i := rolled];
    }

    /** One roll of the phrase, starting at the next cyclic mutate position. */
    method Mutate()
      requires Valid()
      modifies this`mutateCount, phrase
      ensures Valid()
      ensures phrase[..] == Roll(allowedChars, lowestCharCode, old(phrase[..]),
                                 mutatePositions[old(mutateCount) % 3])
      ensures mutateCount == old(mutateCount) + 1
    {
      var pos := mutatePositions[mutateCount % 3];
      ghost var target := Roll(allowedChars, lowestCharCode, phrase[..], pos);
      var i := pos;
      var going := true;
      while going
        invariant 0 <= i < phrase.Length
        invariant AllowedPhrase(phrase[..], allowedChars)
        invariant going ==> Roll(allowedChars, lowestCharCode, phrase[..], i) == target
        invariant !going ==> phrase[..] == target
        invariant mutateCount == old(mutateCount)
        decreases if going then i + 1 else 0
      {
        var moveLeft := RollPosition(i);
        if moveLeft && i > 0 {
          i := i - 1;
        } else {
          going := false;
        }
      }
      mutateCount := mutateCount + 1;
    }

    /** Returns the alphabet index of the character at the addend position, then rolls
        the phrase and advances the addend position cyclically. */
    method NextAddend() returns (r: int)
      requires Valid()
      modifies this`mutateCount, this`addendPosition, phrase
      ensures Valid()
      ensures r == KeyStep(old(State())).0 && State() == KeyStep(old(State())).1
      ensures 0 <= r < |allowedChars|
      ensures r == IndexOf(allowedChars, old(phrase[addendPosition]))
    {
      r := IndexOf(allowedChars, phrase[addendPosition]);
      Mutate();
      addendPosition := (addendPosition + 1) % phrase.Length;
    }
  }

  /** Two Passwords built from the same phrase hand out the same addends. */
  method ReproducibleKeystream(phrase: string, allowedChars: seq<char>, n: nat)
    returns (first: seq<int>, second: seq<int>)
    requires ValidPhrase(phrase, allowedChars)
    ensures first == second == Addends(FreshState(phrase, allowedChars), n)
  {
    var p1 := new Password(phrase, allowedChars);
    var p2 := new Password(phrase, allowedChars);
    first := DrawAddends(p1, n);
    second := DrawAddends(p2, n);
  }

  /** Calls NextAddend `n` times and collects the results. */
  method DrawAddends(p: Password, n: nat) returns (s: seq<int>)
    requires p.Valid()
    modifies p`mutateCount, p`addendPosition, p.phrase
    ensures p.Valid()
    ensures s == Addends(old(p.State()), n)
    ensures p.State() == After(old(p.State()), n)
    decreases n
  {
    if n == 0 {
      s := [];
    } else {
      var a := p.NextAddend();
      var rest := DrawAddends(p, n - 1);
      s := [a] + rest;
    }
  }

  /** NextAddend seen against the addend sequence it draws from: with the first `i`
      addends of `addends` already drawn, it returns the next one. */
  method DrawAddend(p: Password, ghost addends: seq<int>, ghost i: nat) returns (addend: int)
    requires p.Valid() && i < |addends|
    requires Drawn(addends, i, p.State())
    modifies p`mutateCount, p`addendPosition, p.phrase
    ensures p.Valid() && addend == addends[i] && Drawn(addends, i + 1, p.State())
  {
    ghost var ks := p.State();
    AddendsUnfold(addends, i, ks);
    addend := p.NextAddend();
  }
}
