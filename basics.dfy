/** Failure-carrying results, the engine's error taxonomy and a few sequence helpers
    shared by every other module. */
module Basics {

  datatype Option<+T> = None | Some(value: T)

  /** The failures the engine reports.  Each stands for an exception the original code
      lets escape. */
  datatype Error =
    | InvalidPassword          // phrase too short or holding a character outside the alphabet
    | StateError               // a lookup the mapper cannot complete: no current word, a part
                               // of speech missing from the rules or the dictionary, an empty
                               // follower list, an empty dictionary or first word list
    | EmptyToken               // a ciphertext token with no characters
    | UnknownWord(token: string)  // ciphertext token absent from the dictionary
    | MalformedCiphertext      // recovered character index outside the alphabet

  datatype Result<+R> = Success(value: R) | Failure(error: Error)

  function Max(a: int, b: int): int { if a < b then b else a }
  function Min(a: int, b: int): int { if a < b then a else b }

  lemma AppendAssoc<T>(a: seq<T>, b: seq<T>, c: seq<T>)
    ensures (a + b) + c == a + (b + c)
  {
  }

  /** Prepends `pre` to a successful sequence result; a failure passes through. */
  function Prefixed<T>(pre: seq<T>, r: Result<seq<T>>): (p: Result<seq<T>>)
    ensures p.Failure? <==> r.Failure?
    ensures p.Failure? ==> p.error == r.error
    ensures p.Success? ==> p.value == pre + r.value
  {
    match r
    case Success(v) => Success(pre + v)
    case Failure(e) => Failure(e)
  }

  lemma PrefixedEmpty<T>(r: Result<seq<T>>)
    ensures Prefixed([], r) == r
  {
    if r.Success? {
      assert [] + r.value == r.value;
    }
  }

  lemma PrefixedTwice<T>(a: seq<T>, b: seq<T>, r: Result<seq<T>>)
    ensures Prefixed(a, Prefixed(b, r)) == Prefixed(a + b, r)
  {
    if r.Success? {
      AppendAssoc(a, b, r.value);
    }
  }

  /** Position of the first occurrence of `x` in `s`, or -1 (the behaviour of
      List<T>.IndexOf). */
  function IndexOf<T(==)>(s: seq<T>, x: T): (r: int)
    ensures r == -1 <==> x !in s
    ensures r != -1 ==> 0 <= r < |s| && s[r] == x && x !in s[..r]
  {
    if |s| == 0 then -1
    else if s[0] == x then 0
    else
      var k := IndexOf(s[1..], x);
      assert s[1..][..if k < 0 then 0 else k] == s[1..if k < 0 then 1 else k + 1];
      if k == -1 then -1 else k + 1
  }

  /** No element occurs twice. */
  predicate Distinct<T(==)>(s: seq<T>) {
    forall i, j | 0 <= i < |s| && 0 <= j < |s| && i != j :: s[i] != s[j]
  }

  lemma IndexOfAfterPrefix<T>(x: seq<T>, y: seq<T>, e: T)
    requires e !in x && e in y
    ensures IndexOf(x + y, e) == |x| + IndexOf(y, e)
  {
    var s := x + y;
    var q := IndexOf(y, e);
    assert s[|x| + q] == e;
  }

  /** A sequence is its prefix, the element at `i` and its suffix. */
  lemma SplitAround<T>(s: seq<T>, i: int)
    requires 0 <= i < |s|
    ensures s == s[..i] + [s[i]] + s[i + 1..]
  {
    assert s == s[..i] + s[i..];
    assert s[i..] == [s[i]] + s[i + 1..];
  }
}
