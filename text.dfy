/** Character- and string-level helpers: ASCII case mapping, splitting on a separator,
    removing a character and counting a character. */
module Text {
  import opened Basics

  /** Upper-case mapping, restricted to ASCII letters. */
  function ToUpper(c: char): (u: char)
    ensures 'a' <= c <= 'z' ==> 'A' <= u <= 'Z'
    ensures !('a' <= c <= 'z') ==> u == c
    ensures ToLower(c) == c ==> ToLower(u) == c
  {
    if 'a' <= c <= 'z' then (c as int - 32) as char else c
  }

  /** Lower-case mapping, restricted to ASCII letters. */
  function ToLower(c: char): (l: char)
    ensures 'A' <= c <= 'Z' ==> 'a' <= l <= 'z'
    ensures !('A' <= c <= 'Z') ==> l == c
  {
    if 'A' <= c <= 'Z' then (c as int + 32) as char else c
  }

  /** `s` with its first character upper-cased (the empty string stays empty). */
  function UpperFirst(s: string): (r: string)
    ensures |r| == |s|
    ensures |s| > 0 ==> r[0] == ToUpper(s[0]) && r[1..] == s[1..]
  {
    if |s| == 0 then s else [ToUpper(s[0])] + s[1..]
  }

  /** `s` with its first character lower-cased (the empty string stays empty). */
  function LowerFirst(s: string): (r: string)
    ensures |r| == |s|
    ensures |s| > 0 ==> r[0] == ToLower(s[0]) && r[1..] == s[1..]
  {
    if |s| == 0 then s else [ToLower(s[0])] + s[1..]
  }

  /** Raising the first letter brings in no character that is not an upper-case letter. */
  lemma UpperFirstAvoids(s: string, ch: char)
    requires ch !in s && !('A' <= ch <= 'Z')
    ensures ch !in UpperFirst(s)
  {
    if |s| > 0 {
      assert UpperFirst(s) == [ToUpper(s[0])] + s[1..];
    }
  }

  /** A string whose first character is unchanged by lower-casing. */
  predicate LowerInitial(s: string) {
    |s| > 0 && ToLower(s[0]) == s[0]
  }

  /** Lower-casing the first character undoes upper-casing it on a lower-initial string. */
  lemma LowerFirstUndoesUpperFirst(s: string, tail: string)
    requires LowerInitial(s)
    ensures LowerFirst(UpperFirst(s) + tail) == s + tail
  {
    var u := UpperFirst(s) + tail;
    var l := LowerFirst(u);
    forall k | 0 <= k < |l| ensures l[k] == (s + tail)[k] {
      if k == 0 {
        assert u[0] == ToUpper(s[0]);
      } else {
        assert l[k] == l[1..][k - 1] == u[1..][k - 1] == u[k];
        if k < |s| {
          assert u[k] == UpperFirst(s)[k] == UpperFirst(s)[1..][k - 1] == s[k];
        }
      }
    }
  }

  /** Number of occurrences of `c` in `s`. */
  function CountChar(s: string, c: char): (n: nat)
    ensures n <= |s|
    ensures n == 0 <==> c !in s
  {
    if |s| == 0 then 0 else (if s[0] == c then 1 else 0) + CountChar(s[1..], c)
  }

  lemma {:induction false} CountCharAppend(a: string, b: string, c: char)
    ensures CountChar(a + b, c) == CountChar(a, c) + CountChar(b, c)
  {
    if |a| > 0 {
      assert (a + b)[1..] == a[1..] + b;
      CountCharAppend(a[1..], b, c);
    } else {
      assert a + b == b;
    }
  }

  /** `s` with every occurrence of `c` removed (string.Replace with an empty replacement). */
  function RemoveAll(s: string, c: char): (r: string)
    ensures c !in r
    ensures |r| + CountChar(s, c) == |s|
    ensures c !in s ==> r == s
  {
    if |s| == 0 then s
    else if s[0] == c then RemoveAll(s[1..], c)
    else
      assert s == [s[0]] + s[1..];
      [s[0]] + RemoveAll(s[1..], c)
  }

  lemma {:induction false} RemoveAllAppend(a: string, b: string, c: char)
    ensures RemoveAll(a + b, c) == RemoveAll(a, c) + RemoveAll(b, c)
  {
    if |a| > 0 {
      assert (a + b)[1..] == a[1..] + b;
      RemoveAllAppend(a[1..], b, c);
    } else {
      assert a + b == b;
    }
  }

  /** The pieces of `s` between occurrences of `sep`, empty pieces kept
      (string.Split with a one-character separator). */
  function Split(s: string, sep: char): (parts: seq<string>)
    ensures |parts| >= 1
    ensures forall k | 0 <= k < |parts| :: sep !in parts[k]
    decreases |s|
  {
    if sep !in s then [s]
    else
      var i := IndexOf(s, sep);
      [s[..i]] + Split(s[i + 1..], sep)
  }

  /** The pieces joined back with `sep` between them; the inverse of Split. */
  function Join(parts: seq<string>, sep: char): (s: string)
    requires |parts| >= 1
  {
    if |parts| == 1 then parts[0] else parts[0] + [sep] + Join(parts[1..], sep)
  }

  /** A piece free of the separator, followed by the separator, splits off as one part. */
  lemma SplitCons(a: string, sep: char, b: string)
    requires sep !in a
    ensures Split(a + [sep] + b, sep) == [a] + Split(b, sep)
  {
    var s := a + [sep] + b;
    IndexOfAfterPrefix(a, [sep] + b, sep);
    assert s[..|a|] == a;
    assert s[|a| + 1..] == b;
  }

  lemma {:induction false} JoinSplit(s: string, sep: char)
    ensures Join(Split(s, sep), sep) == s
    decreases |s|
  {
    if sep in s {
      var i := IndexOf(s, sep);
      var rest := Split(s[i + 1..], sep);
      var parts := Split(s, sep);
      assert parts == [s[..i]] + rest;
      assert parts[1..] == rest;
      JoinSplit(s[i + 1..], sep);
      assert Join(parts, sep) == s[..i] + [sep] + s[i + 1..];
      SplitAround(s, i);
    }
  }

  lemma {:induction false} SplitJoin(parts: seq<string>, sep: char)
    requires |parts| >= 1
    requires forall k | 0 <= k < |parts| :: sep !in parts[k]
    ensures Split(Join(parts, sep), sep) == parts
  {
    if |parts| > 1 {
      var rest := Join(parts[1..], sep);
      SplitJoin(parts[1..], sep);
      assert Join(parts, sep) == parts[0] + [sep] + rest;
      SplitCons(parts[0], sep, rest);
      assert parts == [parts[0]] + parts[1..];
    }
  }
}
