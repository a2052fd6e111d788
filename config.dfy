/** The already-parsed configuration the engine runs on (the getters of
    Src/IConfigProvider.cs).  Every collection is an ordered sequence: the order in which
    the original dictionaries enumerate their entries decides which entry a lookup finds. */
module Configs {
  import opened Basics
  import opened AppDict

  /** Part of speech -> the parts of speech allowed to follow it. */
  type Rules = seq<(string, seq<string>)>

  datatype Config = Config(
    allowedChars: seq<char>,          // the alphabet of plaintext and password characters
    dictionary: RawDict,              // part of speech -> word strings
    partsOfSpeechRules: Rules,        // part of speech -> allowed followers
    periodPartsOfSpeech: seq<string>, // parts of speech a period may follow
    connectors: seq<string>)          // connector lines "previous connector next"

  /** The follower list stored under `key` (the dictionary indexer); None when absent. */
  function FollowersOf(rules: Rules, key: string): (r: Option<seq<string>>)
    ensures r.None? <==> forall i | 0 <= i < |rules| :: rules[i].0 != key
    ensures r.Some? ==> exists i :: 0 <= i < |rules| && rules[i].0 == key && rules[i].1 == r.value
  {
    if |rules| == 0 then None
    else if rules[0].0 == key then Some(rules[0].1)
    else
      var r := FollowersOf(rules[1..], key);
      assert r.Some? ==> exists i :: 1 <= i < |rules| && rules[i].0 == key && rules[i].1 == r.value by {
        if r.Some? {
          var i :| 0 <= i < |rules[1..]| && rules[1..][i].0 == key && rules[1..][i].1 == r.value;
          assert rules[i + 1] == rules[1..][i];
        }
      }
      r
  }
}
