/** The cover text (class Message of Src/Message.cs): a list of words rendered as prose,
    with a capital at the start of every sentence, connector words between certain pairs
    of parts of speech and a period after a period-eligible word once at least three
    words have passed; parsing strips those markers again. */
module Messages {
  import opened Basics
  import opened Text
  import opened Words
  import opened AppDict

  /** Words that must pass since the last period before another one may be placed. */
  const PeriodThreshold := 3

  /** A connector rule "previous connector next", split at single spaces. */
  type Rule = seq<string>

  /** Every rule has the three fields the renderer reads. */
  predicate RulesShaped(rules: seq<Rule>) {
    forall k | 0 <= k < |rules| :: |rules[k]| >= 3
  }

  /** Every rule has the connector field the parser reads. */
  predicate RulesNamed(rules: seq<Rule>) {
    forall k | 0 <= k < |rules| :: |rules[k]| >= 2
  }

  /** Splits each configured connector line at single spaces; joining the fields back
      gives the line. */
  function ParseConnectorRules(raw: seq<string>): (rules: seq<Rule>)
    ensures |rules| == |raw|
    ensures forall k | 0 <= k < |rules| :: |rules[k]| >= 1 && Join(rules[k], ' ') == raw[k]
    ensures forall k, f | 0 <= k < |rules| && 0 <= f < |rules[k]| :: ' ' !in rules[k][f]
  {
    var rules := seq(|raw|, k requires 0 <= k < |raw| => Split(raw[k], ' '));
    assert forall k | 0 <= k < |rules| :: Join(rules[k], ' ') == raw[k] by {
      forall k | 0 <= k < |rules| ensures Join(rules[k], ' ') == raw[k] {
        JoinSplit(raw[k], ' ');
      }
    }
    rules
  }

  /** A period goes after a word of a period-eligible part of speech once enough words
      have passed since the last one. */
  function DoPeriod(periodTypes: seq<string>, pos: string, count: int): (b: bool)
    ensures b <==> pos in periodTypes && count >= PeriodThreshold
  {
    IndexOf(periodTypes, pos) != -1 && count >= PeriodThreshold
  }

  /** Rule `r` fires between a word of part of speech `prev` and one of `curr`. */
  predicate Fires(r: Rule, prev: string, curr: string)
    requires |r| >= 3
  {
    r[0] == prev && r[2] == curr
  }

  /** The connector of the first rule that fires between `prev` and `curr`, or "". */
  function MatchConnector(rules: seq<Rule>, prev: string, curr: string): (c: string)
    requires RulesShaped(rules)
    ensures c == "" || exists k :: 0 <= k < |rules| && rules[k][1] == c
  {
    if |rules| == 0 then ""
    else if Fires(rules[0], prev, curr) then rules[0][1]
    else
      var c := MatchConnector(rules[1..], prev, curr);
      assert c == "" || exists k :: 0 <= k < |rules| && rules[k][1] == c by {
        if c != "" {
          var k :| 0 <= k < |rules[1..]| && rules[1..][k][1] == c;
          assert rules[k + 1] == rules[1..][k];
        }
      }
      c
  }

  /** MatchConnector gives the connector of the first rule that fires. */
  lemma {:induction false} MatchConnectorFirstRule(rules: seq<Rule>, prev: string, curr: string, k: nat)
    requires RulesShaped(rules) && k < |rules| && Fires(rules[k], prev, curr)
    requires forall j | 0 <= j < k :: !Fires(rules[j], prev, curr)
    ensures MatchConnector(rules, prev, curr) == rules[k][1]
  {
    if k > 0 {
      assert !Fires(rules[0], prev, curr);
      assert rules[1..][k - 1] == rules[k];
      forall j | 0 <= j < k - 1 ensures !Fires(rules[1..][j], prev, curr) {
        assert rules[1..][j] == rules[j + 1];
      }
      MatchConnectorFirstRule(rules[1..], prev, curr, k - 1);
    }
  }

  /** MatchConnector gives "" when no rule fires. */
  lemma {:induction false} MatchConnectorNoRule(rules: seq<Rule>, prev: string, curr: string)
    requires RulesShaped(rules)
    requires forall k | 0 <= k < |rules| :: !Fires(rules[k], prev, curr)
    ensures MatchConnector(rules, prev, curr) == ""
  {
    if |rules| > 0 {
      assert !Fires(rules[0], prev, curr);
      forall k | 0 <= k < |rules[1..]| ensures !Fires(rules[1..][k], prev, curr) {
        assert rules[1..][k] == rules[k + 1];
      }
      MatchConnectorNoRule(rules[1..], prev, curr);
    }
  }

  /** `w` is the connector field of some rule. */
  function IsConnector(rules: seq<Rule>, w: string): (b: bool)
    requires RulesNamed(rules)
    ensures b <==> exists k :: 0 <= k < |rules| && rules[k][1] == w
  {
    if |rules| == 0 then false
    else if rules[0][1] == w then true
    else
      var b := IsConnector(rules[1..], w);
      assert b ==> exists k :: 0 <= k < |rules| && rules[k][1] == w by {
        if b {
          var k :| 0 <= k < |rules[1..]| && rules[1..][k][1] == w;
          assert rules[k + 1] == rules[1..][k];
        }
      }
      assert (exists k :: 0 <= k < |rules| && rules[k][1] == w) ==> b by {
        if exists k :: 0 <= k < |rules| && rules[k][1] == w {
          var k :| 0 <= k < |rules| && rules[k][1] == w;
          assert rules[1..][k - 1] == rules[k];
        }
      }
      b
  }

  /** What the renderer reads besides the words: the period-eligible parts of speech and
      the connector rules. */
  datatype Layout = Layout(periodTypes: seq<string>, connectorRules: seq<Rule>)

  /** The running state of the rendering loop: the previous word's part of speech, the
      words since the last period and whether the next token starts a sentence. */
  datatype Cursor = Cursor(prevType: string, sinceReset: nat, capitaliseNext: bool)

  /** Rendering starts a sentence and has no previous word. */
  const Start := Cursor("", 0, true)

  /** The connector and its trailing space, with the first letter raised at the start of a
      sentence; nothing when there is no connector. */
  function ConnectorText(conn: string, capitalise: bool): (t: string)
    ensures conn == "" ==> t == ""
    ensures conn != "" ==> t == (if capitalise then UpperFirst(conn) else conn) + " "
  {
    if conn == "" then ""
    else if capitalise then UpperFirst(conn + " ")
    else conn + " "
  }

  /** What follows a word: "." after the last one, ". " when a period is placed, " " otherwise. */
  function Separator(last: bool, doingPeriod: bool): (s: string)
    ensures |s| >= 1 && s[0] in ". "
    ensures last ==> s == "."
  {
    if last then "." else if doingPeriod then ". " else " "
  }

  /** One iteration of the rendering loop: the text emitted for `w` and the next cursor. */
  function Piece(layout: Layout, w: Word, c: Cursor, last: bool): (p: (string, Cursor))
    requires RulesShaped(layout.connectorRules)
  {
    var doing := DoPeriod(layout.periodTypes, w.partOfSpeech, c.sinceReset);
    var conn := MatchConnector(layout.connectorRules, c.prevType, w.partOfSpeech);
    var text := ConnectorText(conn, c.capitaliseNext)
                + w.ToString(c.capitaliseNext && conn == "")
                + Separator(last, doing);
    var since := (if !last && doing then 0 else c.sinceReset) + 1;
    (text, Cursor(w.partOfSpeech, since, doing))
  }

  /** The text of `ws` rendered from cursor `c`. */
  function RenderFrom(layout: Layout, ws: seq<Word>, c: Cursor): string
    requires RulesShaped(layout.connectorRules)
    decreases |ws|
  {
    if |ws| == 0 then ""
    else
      var p := Piece(layout, ws[0], c, |ws| == 1);
      p.0 + RenderFrom(layout, ws[1..], p.1)
  }

  /** The prose form of a word list (Message.ToString). */
  function Render(layout: Layout, ws: seq<Word>): string
    requires RulesShaped(layout.connectorRules)
  {
    RenderFrom(layout, ws, Start)
  }

  /** A ciphertext token as looked up: first letter lowered, every period removed. */
  function Clean(token: string): (r: string)
    ensures '.' !in r
    ensures '.' !in token && |token| > 0 ==> r == LowerFirst(token)
  {
    RemoveAll(LowerFirst(token), '.')
  }

  /** The words of a split text: an empty token fails, a connector is dropped, any other
      token must name a dictionary word. */
  function ParseTokens(layout: Layout, d: Catalog, tokens: seq<string>): (r: Result<seq<Word>>)
    requires RulesNamed(layout.connectorRules)
    ensures r.Success? ==> |r.value| <= |tokens|
    ensures r.Success? ==> forall k | 0 <= k < |r.value| :: InCatalog(d, r.value[k])
    decreases |tokens|
  {
    if |tokens| == 0 then Success([])
    else
      var token := tokens[0];
      if |token| == 0 then Failure(EmptyToken)
      else
        var clean := Clean(token);
        if IsConnector(layout.connectorRules, clean) then ParseTokens(layout, d, tokens[1..])
        else match FindWord(d, clean)
          case None => Failure(UnknownWord(token))
          case Some(w) => Prefixed([w], ParseTokens(layout, d, tokens[1..]))
  }

  /** ParseTokens on the tokens from position `i` on, one token unfolded. */
  lemma ParseStep(layout: Layout, d: Catalog, tokens: seq<string>, i: nat)
    requires RulesNamed(layout.connectorRules) && i < |tokens|
    ensures ParseTokens(layout, d, tokens[i..])
            == if |tokens[i]| == 0 then Failure(EmptyToken)
               else if IsConnector(layout.connectorRules, Clean(tokens[i])) then ParseTokens(layout, d, tokens[i + 1..])
               else match FindWord(d, Clean(tokens[i]))
                 case None => Failure(UnknownWord(tokens[i]))
                 case Some(w) => Prefixed([w], ParseTokens(layout, d, tokens[i + 1..]))
  {
    assert tokens[i..][1..] == tokens[i + 1..];
  }

  /** The words of a cover text (the parsing constructor of Message). */
  function ParseText(layout: Layout, d: Catalog, text: string): Result<seq<Word>>
    requires RulesNamed(layout.connectorRules)
  {
    ParseTokens(layout, d, Split(text, ' '))
  }

  // ----- properties of rendering -----

  /** Connector fields that survive rendering: no space or period, lower-case initial. */
  predicate ConnectorsRenderable(rules: seq<Rule>)
    requires RulesShaped(rules)
  {
    forall k | 0 <= k < |rules| ::
      rules[k][1] == "" || (LowerInitial(rules[k][1]) && ' ' !in rules[k][1] && '.' !in rules[k][1])
  }

  /** A word that survives rendering and parsing: non-empty with a lower-case initial, no
      space or period, not a connector, and the first dictionary entry with its value. */
  predicate Renderable(layout: Layout, d: Catalog, w: Word)
    requires RulesShaped(layout.connectorRules)
  {
    && LowerInitial(w.value) && ' ' !in w.value && '.' !in w.value
    && !IsConnector(layout.connectorRules, w.value)
    && FindWord(d, w.value) == Some(w)
  }

  /** A rendered text is never empty and ends with a period, with no space after it. */
  lemma {:induction false} RenderEndsWithPeriod(layout: Layout, ws: seq<Word>, c: Cursor)
    requires RulesShaped(layout.connectorRules) && |ws| >= 1
    ensures |RenderFrom(layout, ws, c)| >= 1
    ensures RenderFrom(layout, ws, c)[|RenderFrom(layout, ws, c)| - 1] == '.'
    decreases |ws|
  {
    var p := Piece(layout, ws[0], c, |ws| == 1);
    if |ws| > 1 {
      RenderEndsWithPeriod(layout, ws[1..], p.1);
    }
  }

  /** The first character of a rendered text is upper case (or no letter at all), since
      rendering starts a sentence. */
  lemma RenderStartsSentence(layout: Layout, ws: seq<Word>)
    requires RulesShaped(layout.connectorRules) && |ws| >= 1
    ensures |Render(layout, ws)| >= 1
    ensures ToUpper(Render(layout, ws)[0]) == Render(layout, ws)[0]
  {
    var w := ws[0];
    var conn := MatchConnector(layout.connectorRules, "", w.partOfSpeech);
    var doing := DoPeriod(layout.periodTypes, w.partOfSpeech, 0);
    var text := ConnectorText(conn, true) + w.ToString(conn == "") + Separator(|ws| == 1, doing);
    var r := Render(layout, ws);
    assert r == text + RenderFrom(layout, ws[1..], Piece(layout, w, Start, |ws| == 1).1);
    if conn != "" {
      assert r[0] == ToUpper(conn[0]);
    } else if |w.value| > 0 {
      assert r[0] == ToUpper(w.value[0]);
    } else {
      assert r[0] == Separator(|ws| == 1, doing)[0];
    }
  }

  /** The periods of one piece: one after the last word or where a period is placed. */
  lemma PiecePeriods(layout: Layout, w: Word, c: Cursor, last: bool)
    requires RulesShaped(layout.connectorRules)
    requires '.' !in w.value
    requires forall k | 0 <= k < |layout.connectorRules| :: '.' !in layout.connectorRules[k][1]
    ensures CountChar(Piece(layout, w, c, last).0, '.')
            == if last || DoPeriod(layout.periodTypes, w.partOfSpeech, c.sinceReset) then 1 else 0
  {
    var doing := DoPeriod(layout.periodTypes, w.partOfSpeech, c.sinceReset);
    var conn := MatchConnector(layout.connectorRules, c.prevType, w.partOfSpeech);
    var ct := ConnectorText(conn, c.capitaliseNext);
    var wt := w.ToString(c.capitaliseNext && conn == "");
    var sep := Separator(last, doing);
    CountCharAppend(ct + wt, sep, '.');
    CountCharAppend(ct, wt, '.');
    ToStringAvoids(w, c.capitaliseNext && conn == "", '.');
    if conn != "" {
      UpperFirstAvoids(conn, '.');
      CountCharAppend(if c.capitaliseNext then UpperFirst(conn) else conn, " ", '.');
    }
    assert CountChar(sep, '.') == if last || doing then 1 else 0;
  }

  /** The periods of a rendering: those of its first piece, then those of the rest,
      rendered from the cursor that piece leaves. */
  lemma PeriodsStep(layout: Layout, ws: seq<Word>, c: Cursor)
    requires RulesShaped(layout.connectorRules) && |ws| >= 1 && '.' !in ws[0].value
    requires forall k | 0 <= k < |layout.connectorRules| :: '.' !in layout.connectorRules[k][1]
    ensures var doing := DoPeriod(layout.periodTypes, ws[0].partOfSpeech, c.sinceReset);
            var next := Piece(layout, ws[0], c, |ws| == 1).1;
            && next.sinceReset == (if |ws| != 1 && doing then 0 else c.sinceReset) + 1
            && CountChar(RenderFrom(layout, ws, c), '.')
               == (if |ws| == 1 || doing then 1 else 0) + CountChar(RenderFrom(layout, ws[1..], next), '.')
  {
    var p := Piece(layout, ws[0], c, |ws| == 1);
    var rest := RenderFrom(layout, ws[1..], p.1);
    assert RenderFrom(layout, ws, c) == p.0 + rest;
    PiecePeriods(layout, ws[0], c, |ws| == 1);
    CountCharAppend(p.0, rest, '.');
  }

  /** Periods in the text rendered from cursor `c`: at least the final one, and no more than
      a gap of three words between periods allows, counting the `c.sinceReset` words that
      have already passed. */
  lemma {:induction false} PeriodsSpaced(layout: Layout, ws: seq<Word>, c: Cursor)
    requires RulesShaped(layout.connectorRules) && |ws| >= 1
    requires forall k | 0 <= k < |ws| :: '.' !in ws[k].value
    requires forall k | 0 <= k < |layout.connectorRules| :: '.' !in layout.connectorRules[k][1]
    ensures CountChar(RenderFrom(layout, ws, c), '.') >= 1
    ensures 3 * (CountChar(RenderFrom(layout, ws, c), '.') - 1)
            <= Max(0, |ws| - 2 + Min(c.sinceReset, PeriodThreshold))
    decreases |ws|
  {
    PeriodsStep(layout, ws, c);
    var doing := DoPeriod(layout.periodTypes, ws[0].partOfSpeech, c.sinceReset);
    var next := Piece(layout, ws[0], c, |ws| == 1).1;
    var later := CountChar(RenderFrom(layout, ws[1..], next), '.');
    if |ws| > 1 {
      forall k | 0 <= k < |ws[1..]| ensures '.' !in ws[1..][k].value {
        assert ws[1..][k] == ws[k + 1];
      }
      PeriodsSpaced(layout, ws[1..], next);
    }
    SpacingBound(|ws|, c.sinceReset, next.sinceReset, doing, later);
  }

  /** The counting step behind PeriodsSpaced: one more word, with or without a period. */
  lemma SpacingBound(n: int, since: int, since': int, doing: bool, later: int)
    requires n >= 1 && since >= 0 && later >= 0
    requires doing ==> since >= PeriodThreshold
    requires since' == (if n != 1 && doing then 0 else since) + 1
    requires n > 1 ==> later >= 1 && 3 * (later - 1) <= Max(0, n - 3 + Min(since', PeriodThreshold))
    requires n == 1 ==> later == 0
    ensures var total := (if n == 1 || doing then 1 else 0) + later;
            total >= 1 && 3 * (total - 1) <= Max(0, n - 2 + Min(since, PeriodThreshold))
  {
  }

  /** A rendering of N >= 1 words holds at most ceil(N/3) periods. */
  lemma PeriodBound(layout: Layout, ws: seq<Word>)
    requires RulesShaped(layout.connectorRules) && |ws| >= 1
    requires forall k | 0 <= k < |ws| :: '.' !in ws[k].value
    requires forall k | 0 <= k < |layout.connectorRules| :: '.' !in layout.connectorRules[k][1]
    ensures 1 <= CountChar(Render(layout, ws), '.') <= (|ws| + 2) / 3
  {
    PeriodsSpaced(layout, ws, Start);
  }

  /** The tokens a piece splits into: its connector, if any, then the word token. */
  function Tokens(conn: string, capitalise: bool, wordToken: string): seq<string> {
    (if conn == "" then [] else [if capitalise then UpperFirst(conn) else conn]) + [wordToken]
  }

  /** A connector token, capitalised or not, is dropped by the parser. */
  lemma ConnectorTokenDropped(layout: Layout, d: Catalog, conn: string, capitalise: bool, rest: seq<string>)
    requires RulesShaped(layout.connectorRules)
    requires IsConnector(layout.connectorRules, conn)
    requires LowerInitial(conn) && '.' !in conn
    ensures ParseTokens(layout, d, [if capitalise then UpperFirst(conn) else conn] + rest)
            == ParseTokens(layout, d, rest)
  {
    var token := if capitalise then UpperFirst(conn) else conn;
    UpperFirstAvoids(conn, '.');
    if capitalise {
      LowerFirstUndoesUpperFirst(conn, "");
      assert UpperFirst(conn) + "" == UpperFirst(conn) && conn + "" == conn;
    } else {
      assert conn == [conn[0]] + conn[1..];
    }
    assert Clean(token) == conn;
    assert ([token] + rest)[1..] == rest;
  }

  /** A word token, with or without a trailing period, parses back to the word. */
  lemma WordTokenParsed(layout: Layout, d: Catalog, w: Word, capitalise: bool, dot: string, rest: seq<string>)
    requires RulesShaped(layout.connectorRules) && Renderable(layout, d, w)
    requires dot == "" || dot == "."
    ensures ParseTokens(layout, d, [w.ToString(capitalise) + dot] + rest)
            == Prefixed([w], ParseTokens(layout, d, rest))
  {
    var token := w.ToString(capitalise) + dot;
    ToStringLowersBack(w, capitalise, dot);
    RemoveAllAppend(w.value, dot, '.');
    assert RemoveAll(dot, '.') == [];
    assert Clean(token) == w.value;
    assert ([token] + rest)[1..] == rest;
  }

  /** The tokens of a piece parse to its word. */
  lemma TokensParsed(layout: Layout, d: Catalog, conn: string, capitalise: bool, w: Word, wordCap: bool,
                     dot: string, rest: seq<string>)
    requires RulesShaped(layout.connectorRules) && Renderable(layout, d, w)
    requires conn == "" || (IsConnector(layout.connectorRules, conn) && LowerInitial(conn) && '.' !in conn)
    requires dot == "" || dot == "."
    ensures ParseTokens(layout, d, Tokens(conn, capitalise, w.ToString(wordCap) + dot) + rest)
            == Prefixed([w], ParseTokens(layout, d, rest))
  {
    var wordToken := w.ToString(wordCap) + dot;
    WordTokenParsed(layout, d, w, wordCap, dot, rest);
    if conn != "" {
      var token := if capitalise then UpperFirst(conn) else conn;
      assert Tokens(conn, capitalise, wordToken) == [token] + [wordToken];
      AppendAssoc([token], [wordToken], rest);
      ConnectorTokenDropped(layout, d, conn, capitalise, [wordToken] + rest);
    } else {
      assert Tokens(conn, capitalise, wordToken) == [wordToken];
    }
  }

  /** A token free of spaces, followed by a space, splits off as one token. */
  lemma SplitToken(token: string, rest: string)
    requires ' ' !in token
    ensures Split(token + " " + rest, ' ') == [token] + Split(rest, ' ')
  {
    assert token + " " + rest == token + [' '] + rest;
    SplitCons(token, ' ', rest);
  }

  /** The text of a piece splits into its tokens, followed by the tokens of the rest of
      the text when the word is not the last. */
  lemma SplitPieceText(conn: string, capitalise: bool, wordToken: string, last: bool, rest: string)
    requires conn == "" || ' ' !in conn
    requires ' ' !in wordToken
    ensures !last ==> Split(ConnectorText(conn, capitalise) + (wordToken + " ") + rest, ' ')
                      == Tokens(conn, capitalise, wordToken) + Split(rest, ' ')
    ensures last ==> Split(ConnectorText(conn, capitalise) + wordToken, ' ') == Tokens(conn, capitalise, wordToken)
  {
    var tail: seq<string> := if last then [] else Split(rest, ' ');
    var afterConn := if last then wordToken else wordToken + " " + rest;
    var text := if last then ConnectorText(conn, capitalise) + wordToken
                else ConnectorText(conn, capitalise) + (wordToken + " ") + rest;
    if last {
      assert Split(wordToken, ' ') == [wordToken];
    } else {
      SplitToken(wordToken, rest);
      AppendAssoc(ConnectorText(conn, capitalise), wordToken + " ", rest);
    }
    assert Split(afterConn, ' ') == [wordToken] + tail;
    assert text == ConnectorText(conn, capitalise) + afterConn;
    if conn != "" {
      var token := if capitalise then UpperFirst(conn) else conn;
      UpperFirstAvoids(conn, ' ');
      SplitToken(token, afterConn);
      assert text == token + " " + afterConn;
      assert Split(text, ' ') == [token] + ([wordToken] + tail);
      assert Tokens(conn, capitalise, wordToken) == [token] + [wordToken];
      AppendAssoc([token], [wordToken], tail);
    } else {
      assert text == afterConn;
      assert Tokens(conn, capitalise, wordToken) == [wordToken];
    }
    assert Split(text, ' ') == Tokens(conn, capitalise, wordToken) + tail;
    if last {
      assert Tokens(conn, capitalise, wordToken) + tail == Tokens(conn, capitalise, wordToken);
    }
  }

  /** A connector the renderer emits is a connector field, so the parser recognises it,
      and under ConnectorsRenderable it is free of spaces and periods. */
  lemma MatchedConnectorRenderable(rules: seq<Rule>, prev: string, curr: string)
    requires RulesShaped(rules) && ConnectorsRenderable(rules)
    ensures var conn := MatchConnector(rules, prev, curr);
            conn == "" || (IsConnector(rules, conn) && LowerInitial(conn) && ' ' !in conn && '.' !in conn)
  {
    var conn := MatchConnector(rules, prev, curr);
    if conn != "" {
      var k :| 0 <= k < |rules| && rules[k][1] == conn;
    }
  }

  /** The token a rendered word becomes: its rendering, with the period it carries. */
  function WordToken(w: Word, capitalise: bool, dotted: bool): string {
    w.ToString(capitalise) + (if dotted then "." else "")
  }

  /** The text of a piece is its connector text, then the word token, then a space
      unless it is the last piece. */
  lemma PieceShape(layout: Layout, w: Word, c: Cursor, last: bool)
    requires RulesShaped(layout.connectorRules)
    ensures var conn := MatchConnector(layout.connectorRules, c.prevType, w.partOfSpeech);
            var doing := DoPeriod(layout.periodTypes, w.partOfSpeech, c.sinceReset);
            var ct := ConnectorText(conn, c.capitaliseNext);
            var wordToken := WordToken(w, c.capitaliseNext && conn == "", last || doing);
            Piece(layout, w, c, last).0 == if last then ct + wordToken else ct + (wordToken + " ")
  {
    var conn := MatchConnector(layout.connectorRules, c.prevType, w.partOfSpeech);
    var doing := DoPeriod(layout.periodTypes, w.partOfSpeech, c.sinceReset);
    var ct := ConnectorText(conn, c.capitaliseNext);
    var wt := w.ToString(c.capitaliseNext && conn == "");
    assert Piece(layout, w, c, last).0 == ct + wt + Separator(last, doing);
    SeparatedShape(ct, wt, last, doing);
  }

  /** Connector text, word and separator regrouped around the word token. */
  lemma SeparatedShape(ct: string, wt: string, last: bool, doing: bool)
    ensures var dot := if last || doing then "." else "";
            ct + wt + Separator(last, doing) == if last then ct + (wt + dot) else ct + ((wt + dot) + " ")
  {
    var dot := if last || doing then "." else "";
    if last {
      AppendAssoc(ct, wt, dot);
    } else {
      assert Separator(last, doing) == dot + " ";
      AppendAssoc(ct, wt, dot + " ");
      AppendAssoc(wt, dot, " ");
    }
  }

  /** The rendered text splits into the tokens of its first piece, then the tokens of the
      rest of the text. */
  lemma RenderSplit(layout: Layout, ws: seq<Word>, c: Cursor)
    requires RulesShaped(layout.connectorRules) && ConnectorsRenderable(layout.connectorRules)
    requires |ws| >= 1 && ' ' !in ws[0].value
    ensures var w := ws[0];
            var conn := MatchConnector(layout.connectorRules, c.prevType, w.partOfSpeech);
            var doing := DoPeriod(layout.periodTypes, w.partOfSpeech, c.sinceReset);
            var tokens := Tokens(conn, c.capitaliseNext, WordToken(w, c.capitaliseNext && conn == "", |ws| == 1 || doing));
            Split(RenderFrom(layout, ws, c), ' ')
            == if |ws| == 1 then tokens
               else tokens + Split(RenderFrom(layout, ws[1..], Piece(layout, w, c, false).1), ' ')
  {
    var w := ws[0];
    var last := |ws| == 1;
    var conn := MatchConnector(layout.connectorRules, c.prevType, w.partOfSpeech);
    var doing := DoPeriod(layout.periodTypes, w.partOfSpeech, c.sinceReset);
    var wordCap := c.capitaliseNext && conn == "";
    var wordToken := WordToken(w, wordCap, last || doing);
    var p := Piece(layout, w, c, last);
    var rest := RenderFrom(layout, ws[1..], p.1);
    MatchedConnectorRenderable(layout.connectorRules, c.prevType, w.partOfSpeech);
    ToStringAvoids(w, wordCap, ' ');
    assert ' ' !in wordToken;
    PieceShape(layout, w, c, last);
    SplitPieceText(conn, c.capitaliseNext, wordToken, last, rest);
    assert RenderFrom(layout, ws, c) == p.0 + rest;
    if last {
      assert rest == "";
      assert p.0 + rest == p.0;
    }
  }

  /** A single renderable word renders to a text that parses back to it. */
  lemma RenderParseLast(layout: Layout, d: Catalog, w: Word, c: Cursor)
    requires RulesShaped(layout.connectorRules) && ConnectorsRenderable(layout.connectorRules)
    requires Renderable(layout, d, w)
    ensures ParseText(layout, d, RenderFrom(layout, [w], c)) == Success([w])
  {
    var conn := MatchConnector(layout.connectorRules, c.prevType, w.partOfSpeech);
    var wordCap := c.capitaliseNext && conn == "";
    var tokens := Tokens(conn, c.capitaliseNext, WordToken(w, wordCap, true));
    MatchedConnectorRenderable(layout.connectorRules, c.prevType, w.partOfSpeech);
    RenderSplit(layout, [w], c);
    TokensParsed(layout, d, conn, c.capitaliseNext, w, wordCap, ".", []);
    assert tokens + [] == tokens;
    assert ParseTokens(layout, d, []) == Success([]);
    assert Split(RenderFrom(layout, [w], c), ' ') == tokens;
    assert [w] + [] == [w];
  }

  /** The first piece's tokens parse to the first word, ahead of whatever the rest of
      the text parses to. */
  lemma RenderParseCons(layout: Layout, d: Catalog, w: Word, tail: seq<Word>, c: Cursor)
    requires RulesShaped(layout.connectorRules) && ConnectorsRenderable(layout.connectorRules)
    requires |tail| >= 1 && Renderable(layout, d, w)
    ensures ParseText(layout, d, RenderFrom(layout, [w] + tail, c))
            == Prefixed([w], ParseText(layout, d, RenderFrom(layout, tail, Piece(layout, w, c, false).1)))
  {
    var ws := [w] + tail;
    assert ws[0] == w && ws[1..] == tail;
    var conn := MatchConnector(layout.connectorRules, c.prevType, w.partOfSpeech);
    var doing := DoPeriod(layout.periodTypes, w.partOfSpeech, c.sinceReset);
    var wordCap := c.capitaliseNext && conn == "";
    var dot := if doing then "." else "";
    var next := Piece(layout, w, c, false).1;
    MatchedConnectorRenderable(layout.connectorRules, c.prevType, w.partOfSpeech);
    RenderSplit(layout, ws, c);
    TokensParsed(layout, d, conn, c.capitaliseNext, w, wordCap, dot, Split(RenderFrom(layout, tail, next), ' '));
  }

  /** Appending the text of piece i to the text rendered so far leaves the rest of the
      words to render from the cursor that piece produces. */
  lemma RenderStep(layout: Layout, ws: seq<Word>, i: nat, last: bool, c: Cursor, next: Cursor,
                   done: string, text: string, doing: bool, all: string)
    requires RulesShaped(layout.connectorRules) && i < |ws| && last == (i == |ws| - 1)
    requires text == Piece(layout, ws[i], c, last).0
    requires doing == DoPeriod(layout.periodTypes, ws[i].partOfSpeech, c.sinceReset)
    requires next == Cursor(ws[i].partOfSpeech, (if !last && doing then 0 else c.sinceReset) + 1, doing)
    requires done + RenderFrom(layout, ws[i..], c) == all
    ensures (done + text) + RenderFrom(layout, ws[i + 1..], next) == all
  {
    var p := Piece(layout, ws[i], c, last);
    assert p.1 == next;
    assert ws[i..][0] == ws[i];
    assert ws[i..][1..] == ws[i + 1..];
    assert RenderFrom(layout, ws[i..], c) == p.0 + RenderFrom(layout, ws[i + 1..], next);
    AppendAssoc(done, text, RenderFrom(layout, ws[i + 1..], next));
  }

  /** Parsing a rendered text gives back the rendered words, in order. */
  lemma {:induction false} RenderParse(layout: Layout, d: Catalog, ws: seq<Word>, c: Cursor)
    requires RulesShaped(layout.connectorRules) && ConnectorsRenderable(layout.connectorRules)
    requires |ws| >= 1
    requires forall k | 0 <= k < |ws| :: Renderable(layout, d, ws[k])
    ensures ParseText(layout, d, RenderFrom(layout, ws, c)) == Success(ws)
    decreases |ws|
  {
    var w := ws[0];
    assert Renderable(layout, d, w);
    if |ws| == 1 {
      assert ws == [w];
      RenderParseLast(layout, d, w, c);
    } else {
      var tail := ws[1..];
      assert ws == [w] + tail;
      forall k | 0 <= k < |tail| ensures Renderable(layout, d, tail[k]) {
        assert tail[k] == ws[k + 1];
      }
      RenderParse(layout, d, tail, Piece(layout, w, c, false).1);
      RenderParseCons(layout, d, w, tail, c);
    }
  }

  /** Render then parse is the identity on non-empty lists of renderable words. */
  lemma RenderThenParse(layout: Layout, d: Catalog, ws: seq<Word>)
    requires RulesShaped(layout.connectorRules) && ConnectorsRenderable(layout.connectorRules)
    requires |ws| >= 1
    requires forall k | 0 <= k < |ws| :: Renderable(layout, d, ws[k])
    ensures ParseText(layout, d, Render(layout, ws)) == Success(ws)
  {
    RenderParse(layout, d, ws, Start);
  }

  /** An empty word list renders as the empty text, which does not parse: its only
      token is empty. */
  lemma EmptyRenderDoesNotParse(layout: Layout, d: Catalog)
    requires RulesShaped(layout.connectorRules)
    ensures Render(layout, []) == ""
    ensures ParseText(layout, d, Render(layout, [])) == Failure(EmptyToken)
  {
    assert Split("", ' ') == [""];
  }

  /** A Message object: a growing list of words plus the rendering configuration it was
      built with. */
  class Message {
    var words: seq<Word>
    const periodTypes: seq<string>
    const connectorRules: seq<Rule>

    /** The rendering configuration the message was built with. */
    function Format(): Layout {
      Layout(periodTypes, connectorRules)
    }

    /** An empty message over the given period-eligible parts of speech and connector lines. */
    constructor (periodPartsOfSpeech: seq<string>, connectors: seq<string>)
      ensures words == []
      ensures periodTypes == periodPartsOfSpeech
      ensures connectorRules == ParseConnectorRules(connectors)
    {
      words := [];
      periodTypes := periodPartsOfSpeech;
      connectorRules := ParseConnectorRules(connectors);
    }

    /** The parsing constructor: builds the message whose words the text names, or fails
        on an empty token or a word missing from the dictionary. */
    static method Parse(text: string, d: Catalog, periodPartsOfSpeech: seq<string>, connectors: seq<string>)
      returns (r: Result<Message>)
      requires RulesNamed(ParseConnectorRules(connectors))
      ensures r.Failure? <==> ParseText(Layout(periodPartsOfSpeech, ParseConnectorRules(connectors)), d, text).Failure?
      ensures r.Failure? ==> r.error == ParseText(Layout(periodPartsOfSpeech, ParseConnectorRules(connectors)), d, text).error
      ensures r.Success? ==> fresh(r.value)
                             && r.value.periodTypes == periodPartsOfSpeech
                             && r.value.connectorRules == ParseConnectorRules(connectors)
                             && r.value.words == ParseText(r.value.Format(), d, text).value
    {
      var m := new Message(periodPartsOfSpeech, connectors);
      var tokens := Split(text, ' ');
      ghost var layout := m.Format();
      assert tokens[0..] == tokens;
      PrefixedEmpty(ParseTokens(layout, d, tokens));
      for i := 0 to |tokens|
        invariant ParseTokens(layout, d, tokens) == Prefixed(m.words, ParseTokens(layout, d, tokens[i..]))
      {
        ParseStep(layout, d, tokens, i);
        var token := tokens[i];
        if |token| == 0 {
          return Failure(EmptyToken);
        }
        var clean := Clean(token);
        if IsConnector(m.connectorRules, clean) {
          continue;
        }
        var found := FindWord(d, clean);
        if found.None? {
          return Failure(UnknownWord(token));
        }
        PrefixedTwice(m.words, [found.value], ParseTokens(layout, d, tokens[i + 1..]));
        m.words := m.words + [found.value];
      }
      assert tokens[|tokens|..] == [];
      assert m.words + [] == m.words;
      return Success(m);
    }

    /** The + operator: appends `w` and hands back the same message. */
    method Plus(w: Word) returns (m: Message)
      modifies this
      ensures m == this
      ensures words == old(words) + [w]
    {
      words := words + [w];
      m := this;
    }

    /** The prose form of the message. */
    method ToString() returns (str: string)
      requires RulesShaped(connectorRules)
      ensures str == Render(Format(), words)
    {
      str := "";
      var prevWordType := "";
      var capitaliseNext := true;
      var wordCount: nat := 0;
      ghost var all := Render(Format(), words);
      for i := 0 to |words|
        invariant str + RenderFrom(Format(), words[i..], Cursor(prevWordType, wordCount, capitaliseNext)) == all
      {
        var text;
        text, prevWordType, wordCount, capitaliseNext :=
          RenderPiece(i, prevWordType, wordCount, capitaliseNext, str, all);
        str := str + text;
      }
      assert words[|words|..] == [];
    }

    /** One pass of the rendering loop: the text of word i and the loop state after it
        (its part of speech, the word count, reset after a period, and whether a sentence
        starts next). The text rendered so far plus what word i on renders to stays the
        whole rendering. */
    method RenderPiece(i: nat, prevWordType: string, wordCount: nat, capitaliseNext: bool,
                       ghost done: string, ghost all: string)
      returns (text: string, prevWordType': string, wordCount': nat, capitaliseNext': bool)
      requires RulesShaped(connectorRules) && i < |words|
      requires done + RenderFrom(Format(), words[i..], Cursor(prevWordType, wordCount, capitaliseNext)) == all
      ensures (done + text) + RenderFrom(Format(), words[i + 1..], Cursor(prevWordType', wordCount', capitaliseNext'))
              == all
    {
      var last := i >= |words| - 1;
      ghost var c := Cursor(prevWordType, wordCount, capitaliseNext);
      var doingPeriod;
      text, doingPeriod := PieceText(words[i], prevWordType, wordCount, capitaliseNext, last);
      wordCount' := wordCount;
      if !last && doingPeriod {
        wordCount' := 0;
      }
      capitaliseNext' := doingPeriod;
      prevWordType' := words[i].partOfSpeech;
      wordCount' := wordCount' + 1;
      RenderStep(Format(), words, i, last, c, Cursor(prevWordType', wordCount', capitaliseNext'),
                 done, text, doingPeriod, all);
    }

    /** The text one word contributes to the prose: its connector, the word (capitalised
        when a sentence starts without a connector) and the separator after it. */
    method PieceText(w: Word, prevWordType: string, wordCount: nat, capitaliseNext: bool, last: bool)
      returns (text: string, doingPeriod: bool)
      requires RulesShaped(connectorRules)
      ensures doingPeriod == DoPeriod(periodTypes, w.partOfSpeech, wordCount)
      ensures text == Piece(Format(), w, Cursor(prevWordType, wordCount, capitaliseNext), last).0
    {
      var space := " ";
      doingPeriod := DoPeriod(periodTypes, w.partOfSpeech, wordCount);
      var connector := MatchConnector(connectorRules, prevWordType, w.partOfSpeech);
      ghost var conn := connector;
      if connector != "" {
        connector := connector + space;
        if capitaliseNext {
          connector := [ToUpper(connector[0])] + connector[1..];
        }
      }
      assert connector == ConnectorText(conn, capitaliseNext);
      if last {
        space := ".";
      } else if doingPeriod {
        space := ". ";
      }
      assert space == Separator(last, doingPeriod);
      assert (connector == "") == (conn == "");
      text := connector + w.ToString(capitaliseNext && connector == "") + space;
    }
  }
}
