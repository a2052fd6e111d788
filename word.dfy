/** A dictionary word tagged with its part of speech (record Word of Src/Word.cs).
    Equality is the record's: both fields are compared. */
module Words {
  import opened Text

  datatype Word = Word(value: string, partOfSpeech: string) {

    /** The word's text, with its first letter upper-cased when `beginCapital` is set. */
    function ToString(beginCapital: bool): (s: string)
      ensures |s| == |value|
      ensures forall k | 0 < k < |s| :: s[k] == value[k]
      ensures |s| > 0 ==> s[0] == if beginCapital then ToUpper(value[0]) else value[0]
      ensures !beginCapital ==> s == value
    {
      if |value| == 0 then value
      else if beginCapital then UpperFirst(value)
      else value
    }
  }

  /** Lower-casing the first character of a capitalised rendering gives back the value. */
  lemma ToStringLowersBack(w: Word, beginCapital: bool, tail: string)
    requires LowerInitial(w.value)
    ensures LowerFirst(w.ToString(beginCapital) + tail) == w.value + tail
  {
    if beginCapital {
      LowerFirstUndoesUpperFirst(w.value, tail);
    } else {
      assert (w.value + tail)[1..] == w.value[1..] + tail;
      assert w.value == [w.value[0]] + w.value[1..];
    }
  }

  /** Rendering a word brings in no character that is not an upper-case letter. */
  lemma ToStringAvoids(w: Word, beginCapital: bool, ch: char)
    requires ch !in w.value && !('A' <= ch <= 'Z')
    ensures ch !in w.ToString(beginCapital)
  {
    if |w.value| > 0 && beginCapital {
      UpperFirstAvoids(w.value, ch);
    }
  }
}
