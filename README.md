# deceptive-enigma transcoding core, modelled in Dafny

deceptive-enigma hides a message in a sentence of ordinary words. A **password** is a
phrase over an allowed alphabet that rolls like an odometer. Each roll hands out one
*addend*. To **encrypt**, the **mapper** adds the next addend to the alphabet index of
each plaintext character. The sum picks the next word of a grammatical word sequence:

- the candidate words are the dictionary lists of the part-of-speech categories allowed to
  follow the previous word;
- those categories are rotated by the number of words emitted so far.

The **message** renders the words as prose. It capitalises the start of each sentence,
inserts configured connector words between some category pairs and places a period every
few words. **Decryption** reverses every step: it parses the prose back into dictionary
words, finds each word's index among the same candidates and subtracts the same addend.

Layout, one module per file:

| file | module | models |
|---|---|---|
| `basics.dfy` | `Basics` | `Option`, `Result`, the error kinds, `IndexOf` (`List<T>.IndexOf`) |
| `text.dfy` | `Text` | ASCII case mapping, `string.Split` on one character, `string.Replace` by the empty string, character counting |
| `word.dfy` | `Words` | record `Word` and `Word.ToString(bool)` |
| `app_dict.dfy` | `AppDict` | `AppDict`: an ordered list of categories; indexer get and set, `ConsolidateRawDict`, `FindWord` |
| `config.dfy` | `Configs` | the configuration getters, as a datatype |
| `password.dfy` | `Passwords` | class `Password` over a mutable `array<char>`, with its key-stream specification |
| `message.dfy` | `Messages` | class `Message`: its word list, rendering, parsing and connector rules |
| `mapper.dfy` | `Mappers` | class `Mapper`, the word-sequence specification and the round-trip theorem |

Each imperative method is proved against a pure specification function:

- `Password.NextAddend` against `KeyStep`;
- `Mapper.GetNextWord` against `NextWord`;
- `Mapper.Encrypt` against `EncryptText`;
- `Message.ToString` against `Render`.

The properties are then proved about those functions. The headline result is
`Mappers.DecryptEncrypt`: decryption with the same valid password recovers any non-empty
plaintext over the alphabet, provided the dictionary and grammar satisfy `Ready` and
`CatalogRenderable`:

- **`Ready`** — every entry carries its category, values are unique, a start word exists,
  and every category has rules with enough distinct follower candidates for the sum of two
  alphabet indices.
- **`CatalogRenderable`** — words are lower-case-initial, hold no space or period, and are
  not connectors.

That encryption only ever emits dictionary words that follow one another by the rules
(`Mappers.EncryptFollowsGrammar`) needs less than `Ready`. It is proved under
**`Capacious`**: entries carry their category, a start word exists, every category has a
rule, and every follower list offers at least 2n-1 candidates for an alphabet of size n.
Values may repeat. `Ready` implies `Capacious` (`Mappers.ReadyCapacious`).

The source reports some failures only by logging or by a placeholder value. The model
follows the code:

- A plaintext character outside the alphabet is only logged (Src/Mapper.cs:84). Its index
  -1 is used as is.
- An index beyond the candidates yields the placeholder word `Word("null", "null")`
  (Src/Mapper.cs:163).
- Decryption does not check that a word is a legal follower. A word that is not among the
  candidates gets index -1, and the recovered index then falls outside the alphabet
  (`MalformedCiphertext`).

Every exception the code lets escape becomes a `Failure` carrying one `Error`:

| source situation | `Error` |
|---|---|
| the `Password` constructor throws | `InvalidPassword` |
| a missing key, no current word, an empty follower list (a division by zero), or an empty dictionary or first category in `Rewind` | `StateError` |
| `wordString[0]` on an empty token | `EmptyToken` |
| an unknown ciphertext word | `UnknownWord` |
| `input_chars[map_diff]` out of range | `MalformedCiphertext` |

## Model

| member | source | states |
|---|---|---|
| Words.Word.ToString | Src/Word.cs:5-11 | same length as the value; every character after the first unchanged; first character upper-cased exactly when `beginCapital`; with the flag unset the value itself (an empty value comes back as is) |
| Words.ToStringLowersBack | Src/Word.cs:5-11 | lower-casing the first character of a rendering gives back a lower-initial value, whatever the flag |
| Words.ToStringAvoids | Src/Word.cs:5-11 | rendering brings in no character that is not an upper-case letter |
| AppDict.LookupSpec | Src/AppDict.cs:5 | the indexer get finds nothing exactly when no category has the key, otherwise the list of a category that has it |
| AppDict.LookupAt | Src/AppDict.cs:5 | with distinct keys, the list stored under category i's key is category i's list |
| AppDict.Put | Src/AppDict.cs:17-19 | the indexer set appends a new key as a new last category; for an existing key it keeps the key sequence, stores the new list in that key's category and leaves every other category as it was |
| AppDict.PutLookup | Src/AppDict.cs:17-19 | after a set, the key finds the new list and every other key finds what it found before |
| AppDict.ConsolidateRawDict | Src/AppDict.cs:14-21 | one category per raw key, in order, with the same key; its list has the raw list's length and entry j is `Word(raw value j, key)`; keys distinct; every entry tagged with its category |
| AppDict.FindInList | Src/AppDict.cs:28-32 | None exactly when no entry has the value; otherwise the first index whose entry has it |
| AppDict.FindInListAt | Src/AppDict.cs:28-32 | an entry with the value and none before it is the one found |
| AppDict.FindWord | Src/AppDict.cs:24-35 | None (the source's null) exactly when no entry anywhere has the value; otherwise the first match, scanning categories in order and then each list in order |
| AppDict.FoundInOwnCategory | Src/AppDict.cs:24-35 | a found word has the searched value and is an element of the list stored under its own part of speech |
| AppDict.FindStoredWord | Src/AppDict.cs:24-35 | with unique values, searching a stored word's value finds exactly that word |
| Configs.FollowersOf | Src/Mapper.cs:128 | the rules indexer: None exactly when no rule has the key, otherwise the followers of a rule that has it |
| Basics.IndexOf | Src/Mapper.cs:83 | -1 exactly when absent; otherwise the position of the first occurrence |
| Passwords.FreshState | Src/Password.cs:53-69 | a valid phrase yields a valid key state: length at least 3, characters in the alphabet, addend position inside the phrase, step at least 1 |
| Passwords.Password.constructor | Src/Password.cs:53-69 | the new password's state is the fresh state of the phrase: a copy of the phrase, position 0, zero mutations, the lowest character code |
| Passwords.Password.Create | Src/Password.cs:53-69 | fails with InvalidPassword exactly when the phrase is shorter than 3 or holds a character outside the alphabet; otherwise a fresh password in the fresh state |
| Passwords.Password.VerifyCharsAllowed | Src/Password.cs:163-173 | true exactly when every phrase character is in the alphabet |
| Passwords.Password.CalcLowestCharCode | Src/Password.cs:121-134 | the step equals `LowestCharCode`: the smallest alphabet index among the phrase characters, raised to 1 |
| Passwords.LowestCharCodeBounds | Src/Password.cs:121-134 | the step is at least 1, below the alphabet size once that is at least 2, no larger than any phrase character's index (raised to 1), and either 1 or attained by a phrase character |
| Passwords.MinIndexLeast | Src/Password.cs:123-131 | the running minimum is no larger than any character's index |
| Passwords.MinIndexAttained | Src/Password.cs:123-131 | the minimum over a non-empty phrase is the index of one of its characters |
| Passwords.Password.PrincipaliseIndex | Src/Password.cs:142-156 | the result lies in [0, total) and is the input modulo total; the fix flag is set exactly when the input was outside [0, total) |
| Passwords.Password.RollPosition | Src/Password.cs:108-111 | only position i changes; it becomes the character `lowest` places further on, cyclically; the wrap flag is set exactly when the index plus `lowest` runs past the alphabet |
| Passwords.Roll | Src/Password.cs:101-115 | a roll keeps the phrase length and keeps every character in the alphabet |
| Passwords.RollCharacterised | Src/Password.cs:101-115 | a roll from i advances exactly the positions k..i and leaves the others alone; every position right of k wrapped; it stopped at k because k did not wrap or k is 0 |
| Passwords.RollChangesStart | Src/Password.cs:101-115 | with a duplicate-free alphabet and 1 <= step < alphabet size, the starting position always changes |
| Passwords.Password.Mutate | Src/Password.cs:101-115 | the phrase becomes its roll from `mutatePositions[mutateCount % 3]` = [len-1, 2, 0]; `mutateCount` grows by one; validity is kept |
| Passwords.KeyStep | Src/Password.cs:82-92 | one draw keeps the state valid, keeps alphabet, step and phrase length, and returns an addend in [0, alphabet size) |
| Passwords.Password.NextAddend | Src/Password.cs:82-92 | returns the alphabet index of the character at the addend position before mutating (so in [0, alphabet size)); the new state is `KeyStep` of the old one, with the mutation count +1 and the position +1 modulo the length |
| Passwords.AddendsInRange | Src/Password.cs:82-92 | every addend of a valid state is an alphabet index |
| Passwords.AddendsUnfold | Src/Password.cs:82-92 | drawing from a state whose remaining addends are a suffix of a sequence returns that suffix's head and leaves its tail |
| Passwords.After | Src/Password.cs:82-92 | n calls keep the state valid, add n to the mutation count, move the addend position n places on modulo the phrase length, and keep alphabet, step and phrase length |
| Passwords.DrawAddends | Src/Password.cs:82-92 | n calls of NextAddend return `Addends(old state, n)`, keep the password valid and leave it in state `After(old state, n)` |
| Passwords.DrawAddend | Src/Password.cs:82-92 | NextAddend returns the next element of the addend sequence being drawn and moves the drawn prefix on by one |
| Passwords.ReproducibleKeystream | Src/Password.cs:53-92 | two passwords built from the same phrase and alphabet hand out the same n addends, namely those of the fresh state |
| Messages.Message.constructor | Src/Message.cs:15-18 | an empty message with the given period categories and the parsed connector rules |
| Messages.ParseConnectorRules | Src/Message.cs:87-90 | one rule per configured line; joining a rule's fields with single spaces gives the line back; no field holds a space |
| Text.JoinSplit | Src/Message.cs:87-90 | joining the pieces of a split with the separator gives the string back |
| Text.SplitJoin | Src/Message.cs:24 | splitting a join of separator-free pieces gives the pieces back |
| Messages.DoPeriod | Src/Message.cs:93-96 | true exactly when the category is period-eligible and at least 3 words have passed |
| Messages.MatchConnector | Src/Message.cs:98-106 | either "" or the connector field of one of the rules |
| Messages.MatchConnectorFirstRule | Src/Message.cs:98-106 | when rule k is the first whose first and last fields match the previous and current category, the connector is rule k's middle field |
| Messages.MatchConnectorNoRule | Src/Message.cs:98-106 | when no rule matches, the connector is "" |
| Messages.IsConnector | Src/Message.cs:108-115 | true exactly when some rule's middle field equals the word |
| Messages.ConnectorText | Src/Message.cs:65-70 | nothing when there is no connector; otherwise the connector plus a space, its first letter raised when a sentence starts |
| Messages.Separator | Src/Message.cs:72-76 | the text after a word starts with a period or a space; after the last word it is exactly "." |
| Messages.Message.PieceText | Src/Message.cs:61-77 | computes the period decision and the text one word contributes, as `Piece` defines them |
| Messages.Message.RenderPiece | Src/Message.cs:59-82 | one loop pass: the text so far plus the rendering of the rest from the new loop state is still the whole rendering |
| Messages.Message.ToString | Src/Message.cs:50-85 | returns `Render` of the words under the message's layout |
| Messages.RenderEndsWithPeriod | Src/Message.cs:72-76 | a rendering of at least one word is non-empty and ends with "." with no trailing space |
| Messages.RenderStartsSentence | Src/Message.cs:50-77 | the first character of a rendering is unchanged by upper-casing: the first token is capitalised |
| Messages.PiecePeriods | Src/Message.cs:72-77 | a word's text holds exactly one period when it is the last word or a period is placed, none otherwise |
| Messages.PeriodsSpaced | Src/Message.cs:62-81 | a rendering of N words from a cursor s words past the last period holds at least one period, and 3 × (periods − 1) ≤ max(0, N − 2 + min(s, 3)) |
| Messages.PeriodBound | Src/Message.cs:72-81 | N >= 1 words render with between 1 and ceil(N/3) periods |
| Messages.Clean | Src/Message.cs:30-34 | a cleaned token holds no period; a token without periods is only lower-cased at its first character |
| Text.RemoveAll | Src/Message.cs:34 | removes every occurrence and nothing else: the length drops by the count; a string without the character is unchanged |
| Messages.ParseTokens | Src/Message.cs:26-41 | a successful parse yields at most one word per token, each a dictionary word |
| Messages.ParseStep | Src/Message.cs:26-41 | one token: empty fails with EmptyToken; a connector is dropped; otherwise the word found, or UnknownWord naming the token |
| Messages.Message.Parse | Src/Message.cs:20-42 | fails exactly when `ParseText` fails, with the same error; otherwise a fresh message whose words are `ParseText`'s |
| Messages.Message.Plus | Src/Message.cs:44-48 | appends the word at the end, changes nothing else, returns the same message |
| Messages.RenderThenParse | Src/Message.cs:20-85 | parsing the rendering of renderable words gives the same words back, in order |
| Messages.EmptyRenderDoesNotParse | Src/Message.cs:20-31 | no words render to "", and parsing "" fails with EmptyToken |
| Mappers.Mapper.constructor | Src/Mapper.cs:45-52 | the catalog is the consolidated configured dictionary; no current word, count zero |
| Mappers.LexTotal | Src/Mapper.cs:61 | the key order is total |
| Mappers.LexTrans | Src/Mapper.cs:61 | the key order is transitive |
| Mappers.LexAntisymmetric | Src/Mapper.cs:61 | the key order is antisymmetric |
| Mappers.MinKey | Src/Mapper.cs:60-63 | the key a sort puts first: one of the keys, sorting no later than any key |
| Mappers.MinKeyUnique | Src/Mapper.cs:60-63 | any key sorting no later than all keys is the one picked |
| Mappers.StartWord | Src/Mapper.cs:58-65 | entry 0 of the category whose key sorts first; it exists whenever the dictionary and all categories are non-empty; fails with StateError otherwise |
| Mappers.Mapper.Rewind | Src/Mapper.cs:58-65 | current word becomes `StartWord`, count 0; reports failure, changing nothing, exactly when there is no start word |
| Mappers.RotatedAt | Src/Mapper.cs:132-138 | element i of the next types is `followers[(i + shift) mod n]` |
| Mappers.RotatedPermutes | Src/Mapper.cs:125-140 | the rotation holds every follower exactly once and keeps them distinct |
| Mappers.NextTypes | Src/Mapper.cs:125-140 | fails with StateError exactly when there is no current word, no rule for its category or an empty follower list |
| Mappers.NextTypesFollow | Src/Mapper.cs:125-140 | the next types are a permutation of the followers, starting at the follower the word count selects |
| Mappers.Mapper.NextWordTypes | Src/Mapper.cs:125-140 | the rotation loop computes `NextTypes` of the current word and count |
| Mappers.WordAtCandidates | Src/Mapper.cs:147-164 | the word chosen at an index is that entry of the concatenated candidate lists, or the placeholder beyond them |
| Mappers.IndexInCandidates | Src/Mapper.cs:172-191 | the index found is the position of the first candidate with the value, or -1 |
| Mappers.CandidatesFromCatalog | Src/Mapper.cs:152-161 | every candidate is a dictionary word of one of the next types |
| Mappers.CandidatesDistinct | Src/Mapper.cs:152-161 | with unique values and distinct types, candidates have pairwise distinct values |
| Mappers.NextWord | Src/Mapper.cs:147-164 | fails only with StateError |
| Mappers.Mapper.GetNextWord | Src/Mapper.cs:147-164 | the count grows by one first; the result is `NextWord` at the new count |
| Mappers.NextIndex | Src/Mapper.cs:172-191 | fails only with StateError; otherwise -1 or a position |
| Mappers.Mapper.GetNextIndex | Src/Mapper.cs:172-191 | the count grows by one first; the result is `NextIndex` at the new count |
| Mappers.IndexAmong | Src/Mapper.cs:176-190 | the nested search loop computes the flat first-match position, or -1 |
| Mappers.ScanForValue | Src/Mapper.cs:182-188 | the inner loop stops at the first entry with the value, as `FindInList` |
| Mappers.NextIndexInvertsNextWord | Src/Mapper.cs:147-191 | from equal states, GetNextIndex gives back the index GetNextWord was given, when the index is in range and no earlier candidate shares the word's value |
| Mappers.ReadyTypes | Src/Mapper.cs:125-140 | under `Ready`, a dictionary word's next types are distinct followers of its category with at least 2n-1 candidates |
| Mappers.StepInverse | Src/Mapper.cs:147-191 | under `Ready`, every index below 2n-1 selects a dictionary word that may follow the current one, and GetNextIndex gives the index back |
| Mappers.EncodeWords | Src/Mapper.cs:81-91 | one word per character, or a StateError |
| Mappers.DecodeWords | Src/Mapper.cs:109-116 | one character per word, each in the alphabet; fails with StateError or MalformedCiphertext |
| Mappers.DecodeEncode | Src/Mapper.cs:74-118 | decoding the words that characters over the alphabet encode to, with the same addends, gives the characters back |
| Mappers.ReadyCapacious | Src/Mapper.cs:125-164 | a ready configuration has the capacity `Capacious` asks for |
| Mappers.CapaciousFollowers | Src/Mapper.cs:128 | under `Capacious`, a dictionary word's category has a rule, and its follower list has at least 2n-1 candidates |
| Mappers.CapaciousTypes | Src/Mapper.cs:125-140 | under `Capacious`, a dictionary word's next types exist, are followers of its category and have at least 2n-1 candidates |
| Mappers.StepFollows | Src/Mapper.cs:147-164 | under `Capacious`, every index below 2n-1 selects, from a dictionary word, a dictionary word allowed to follow it |
| Mappers.EncodeFollowsRules | Src/Mapper.cs:81-91 | under `Capacious`, encoded words are dictionary words, each allowed to follow the word before it |
| Mappers.EncryptWords | Src/Mapper.cs:74-94 | one word per character; StateError without a start word, InvalidPassword for an invalid phrase |
| Mappers.DecryptText | Src/Mapper.cs:103-118 | recovered characters are alphabet characters; StateError without a start word, InvalidPassword for an invalid phrase |
| Mappers.Mapper.Encrypt | Src/Mapper.cs:74-94 | rewinds, then returns `EncryptText`: the rendering of one word per character chosen by addend + index; on success the word count is the plaintext length |
| Mappers.Mapper.EncryptStep | Src/Mapper.cs:83-90 | one loop turn draws the next addend and moves the loop invariant one character on |
| Mappers.Mapper.EmitWord | Src/Mapper.cs:87-90 | the chosen word is appended and becomes current; the loop invariant moves on |
| Mappers.EncryptLoopStep | Src/Mapper.cs:83-90 | the words emitted so far plus the encoding of the rest stay the whole encoding across one turn |
| Mappers.Mapper.Decrypt | Src/Mapper.cs:103-118 | rewinds, then returns `DecryptText`: parse, then one character per word; on success the word count is the recovered text's length |
| Mappers.Mapper.DecryptWords | Src/Mapper.cs:108-116 | the loop returns `DecodeWords` of the parsed words from the start word; on success the word count is the number of words and of recovered characters |
| Mappers.Mapper.DecryptStep | Src/Mapper.cs:111-115 | one loop turn moves the loop invariant one word on, or fails as the specification does |
| Mappers.Mapper.RecoverCharacter | Src/Mapper.cs:112-115 | index minus addend must be an alphabet index (MalformedCiphertext otherwise); the word becomes current |
| Mappers.DecryptLoopStep | Src/Mapper.cs:111-115 | the characters recovered so far plus the decoding of the rest stay the whole decoding across one turn |
| Mappers.EncryptTwice | Src/Mapper.cs:74-94 | two Encrypt calls with the same arguments return the same result |
| Mappers.EncryptFollowsGrammar | Src/Mapper.cs:74-94 | under `Capacious` with a valid password, encryption emits one word per character; each is a dictionary word allowed to follow the previous word, the first following the start word |
| Mappers.DecryptEncrypt | Src/Mapper.cs:74-118 | under `Ready` and `CatalogRenderable`, decrypting the encryption of a non-empty plaintext over the alphabet with the same valid password gives the plaintext |
| Mappers.EmptyPlaintext | Src/Mapper.cs:74-118 | the empty plaintext encrypts to "", which does not decrypt (EmptyToken) |

## Left out

- Src/ConfigProvider.cs, Src/IConfigProvider.cs and Src/MainWindow.axaml.cs are not part of this model. YAML loading, file I/O and the UI are outside the transcoding core. The configuration's outputs are the `Config` datatype.
- Console output (Src/Mapper.cs:84, 92, 113, 162) is left out; it is logging only.
- `Password.ToString` (Src/Password.cs:71-74) is left out; it only formats text for display. The mutation count is a field of the class.
- `int` overflow is not modelled. Counters and indices are unbounded integers, so the mutation count and word count never wrap.
- Culture-sensitive `char.ToUpper`/`char.ToLower` are modelled as ASCII-only case mapping.
- `List<string>.Sort()` in `Rewind` uses the culture comparer; it is modelled as ordinal lexicographic order (`LexLeq`).
- Dictionary enumeration order is modelled as the order of the configured sequences: the catalog, the follower rules and the raw dictionary are ordered sequences.
- AppDict.ConsolidateRawDict: requires distinct raw keys. A .NET dictionary guarantees them, and the model's sequence representation does not.
- AppDict.ConsolidateRawDict: modelled from an empty catalog, which is how the AppDict constructor calls it; repeated consolidation into a filled dictionary is not modelled.
- Mappers.Mapper.Rewind: a failed rewind, and every later failed step of Encrypt/Decrypt, is reported as a result. What the source leaves behind after an exception (a partly advanced word count or password) is not modelled.
- Mappers.DecryptEncrypt: stated for non-empty plaintexts only. The empty plaintext encrypts to "", and parsing "" fails on its one empty token; `Mappers.EmptyPlaintext` shows this.
- Mappers.DecryptEncrypt: the capacity and uniqueness conditions (`Ready`, `CatalogRenderable`) are hypotheses on the configuration; the source checks none of them.
- Messages.MatchConnector, Messages.Message.ToString and Mappers.Mapper.Encrypt: require every connector line to have at least three space-separated fields (`RulesShaped`). The source reads field 2 only of a rule whose field 0 matches the previous category (Src/Message.cs:102), so it renders some texts with shorter lines; that partial acceptance is not modelled.
- Messages.IsConnector, Messages.ParseTokens, Messages.ParseText, Messages.Message.Parse, Mappers.DecryptText and Mappers.Mapper.Decrypt: require every connector line to have at least two fields (`RulesNamed`). The source reads field 1 only of the rules before the first match (Src/Message.cs:112), so a one-field line after it would go unnoticed; that is not modelled.
- Mappers.Mapper.Encrypt and Mappers.Mapper.Decrypt: on success the word count is stated; the final current word (the last word emitted or parsed) is not.
- The pinned ciphertext literals and the "reseeded mid-phrase diverges" expectation of the tests are not modelled. They depend on resource files and are empirical inequalities, not universal properties.
