/** Picking from a user's facts the ones that bear on a question, as many as fit. */
module RelevantContext {
  import opened MapIteration
  import opened Text
  import opened WorldModelRepository
  import opened WorldModel

  const MAX_CONTEXT_SIZE: nat := 2000
  const HEADER := "Relevant facts from previous research:\n"
  const PUNCTUATION := ".,?!;:\"'()[]{}"

  // ---------------------------------------------------------------- keywords

  predicate IsStopWord(w: string) {
    w in {
      "the", "a", "an", "is", "are", "was", "were", "be", "been", "being", "have", "has", "had", "do",
      "does", "did", "will", "would", "could", "should", "may", "might", "must", "shall", "about",
      "above", "after", "again", "all", "also", "and", "any", "because", "before", "between", "but",
      "by", "can", "for", "from", "how", "if", "in", "into", "it", "its", "just", "me", "more", "most",
      "no", "not", "of", "on", "or", "other", "out", "over", "own", "same", "so", "some", "such", "than",
      "that", "their", "them", "then", "there", "these", "they", "this", "those", "through", "to", "too",
      "under", "up", "very", "what", "when", "where", "which", "while", "who", "whom", "why", "with",
      "you", "your", "tell"
    }
  }

  predicate IsKeyword(w: string) {
    w != "" && !IsStopWord(w)
  }

  function KeywordsIn(words: seq<string>): seq<string> {
    if words == [] then []
    else
      var init, w := KeywordsIn(words[..|words| - 1]), Trim(words[|words| - 1], PUNCTUATION);
      if IsKeyword(w) then init + [w] else init
  }

  function Keywords(question: string): seq<string> {
    KeywordsIn(Fields(ToLower(question)))
  }

  method ExtractKeywords(question: string) returns (keywords: seq<string>)
    ensures keywords == Keywords(question)
  {
    hide IsKeyword, Trim, Fields, ToLower;
    var words := Fields(ToLower(question));
    keywords := [];
    for i := 0 to |words|
      invariant keywords == KeywordsIn(words[..i])
    {
      assert words[..i + 1][..i] == words[..i];
      var word := Trim(words[i], PUNCTUATION);
      if IsKeyword(word) {
        keywords := keywords + [word];
      }
    }
    assert words[..|words|] == words;
  }

  lemma {:induction false} KeywordIsTrimmedWord(words: seq<string>, k: string) returns (word: string)
    requires k in KeywordsIn(words)
    ensures word in words && k == Trim(word, PUNCTUATION) && IsKeyword(k)
  {
    hide Trim, IsKeyword;
    var init, last := words[..|words| - 1], words[|words| - 1];
    if k in KeywordsIn(init) {
      word := KeywordIsTrimmedWord(init, k);
    } else {
      word := last;
    }
  }

  /** A word that is a keyword once its outer punctuation is gone. */
  predicate YieldsKeyword(word: string) {
    Trim(word, PUNCTUATION) != "" && !IsStopWord(Trim(word, PUNCTUATION))
  }

  lemma {:induction false} TrimmedWordIsKeyword(words: seq<string>, word: string)
    requires word in words && YieldsKeyword(word)
    ensures Trim(word, PUNCTUATION) in KeywordsIn(words)
  {
    hide Trim, IsStopWord;
    var init, last := words[..|words| - 1], words[|words| - 1];
    assert words == init + [last];
    if word in init {
      TrimmedWordIsKeyword(init, word);
    }
  }

  /** The keywords of a question are exactly its lowered words, trimmed of punctuation, that are neither
      empty nor stop words. */
  lemma KeywordIff(question: string, k: string)
    ensures k in Keywords(question) <==>
            exists w :: w in Fields(ToLower(question)) && k == Trim(w, PUNCTUATION) && YieldsKeyword(w)
  {
    hide Trim, IsStopWord, Fields;
    var words := Fields(ToLower(question));
    if k in Keywords(question) {
      var w := KeywordIsTrimmedWord(words, k);
    }
    forall w | w in words && k == Trim(w, PUNCTUATION) && YieldsKeyword(w) ensures k in Keywords(question) {
      TrimmedWordIsKeyword(words, w);
    }
  }

  /** Keywords keep the order of their words, and a word that comes again is a keyword again: the keywords
      of two passages are those of the first and then those of the second, and one word gives one or none. */
  lemma {:induction false} KeywordsInOrder(words: seq<string>, more: seq<string>, w: string)
    ensures KeywordsIn(words + more) == KeywordsIn(words) + KeywordsIn(more)
    ensures KeywordsIn([w]) == if YieldsKeyword(w) then [Trim(w, PUNCTUATION)] else []
  {
    hide Trim, IsStopWord;
    assert [w][..0] == [];
    if more == [] {
      assert words + more == words;
    } else {
      KeywordsInOrder(words, more[..|more| - 1], w);
      assert (words + more)[..|words + more| - 1] == words + more[..|more| - 1];
    }
  }

  /** A keyword is in lower case, without white space or outer punctuation, and no stop word. So the
      search's own lowering of it changes nothing. */
  lemma KeywordShape(question: string, k: string)
    requires k in Keywords(question)
    ensures k != "" && !IsStopWord(k) && ToLower(k) == k
    ensures k[0] !in PUNCTUATION && k[|k| - 1] !in PUNCTUATION
    ensures forall c :: c in k ==> !IsSpace(c)
  {
    hide IsStopWord, Trim, FieldsFrom, IsSpace, KeywordsIn, ToLower;
    var lowered := ToLower(question);
    var word := KeywordIsTrimmedWord(Fields(lowered), k);
    TrimMeaning(word, PUNCTUATION);
    FieldsAreWords(lowered, "");
    assert IsWord(word);
    forall c | c in k ensures c in lowered {
      FieldsChars(lowered, "", word, c);
    }
    LoweredIsStable(question, k);
  }

  // ---------------------------------------------------------------- the context

  /** A fact of the user's that mentions a keyword of at least three bytes. */
  ghost predicate Relevant(facts: Facts, id: nat, userID: int, keywords: seq<string>) {
    exists k :: k in keywords && Bytes(k) >= 3 && Matches(facts, id, userID, k)
  }

  /** Every fact of the user's in which such a keyword stands bears on the question, in any mixture of
      letter case, and no other fact does. */
  lemma RelevantIff(facts: Facts, id: nat, userID: int, question: string)
    ensures Relevant(facts, id, userID, Keywords(question)) <==>
            && id in facts && facts[id].userID == userID
            && exists w, i :: BearsOn(facts[id].content, question, w, i)
  {
    hide Trim, IsStopWord, Fields, Bytes, Matches, Keywords;
    if Relevant(facts, id, userID, Keywords(question)) {
      var k :| k in Keywords(question) && Bytes(k) >= 3 && Matches(facts, id, userID, k);
      KeywordIff(question, k);
      MatchesIff(facts, id, userID, k);
      var w :| w in Fields(ToLower(question)) && k == Trim(w, PUNCTUATION) && YieldsKeyword(w);
      var i :| StandsIn(facts[id].content, k, i);
      assert BearsOn(facts[id].content, question, w, i);
    }
    if id in facts && facts[id].userID == userID {
      forall w, i | BearsOn(facts[id].content, question, w, i)
        ensures Relevant(facts, id, userID, Keywords(question))
      {
        KeywordIff(question, Trim(w, PUNCTUATION));
        MatchesIff(facts, id, userID, Trim(w, PUNCTUATION));
      }
    }
  }

  /** The word w of the question, trimmed, is a keyword of at least three bytes that stands in the content
      from place i on. */
  ghost predicate BearsOn(content: string, question: string, w: string, i: int) {
    && w in Fields(ToLower(question)) && YieldsKeyword(w) && Bytes(Trim(w, PUNCTUATION)) >= 3
    && StandsIn(content, Trim(w, PUNCTUATION), i)
  }

  function Line(f: Fact): string {
    "- " + f.content + (if f.sourceURL != "" then " (source: " + f.sourceURL + ")" else "") + "\n"
  }

  predicate Fits(sofar: string, line: string) {
    Bytes(sofar) + Bytes(line) <= MAX_CONTEXT_SIZE
  }

  /** Lines are appended until one does not fit. */
  function Fill(sofar: string, lines: seq<string>): string
    decreases |lines|
  {
    if lines == [] || !Fits(sofar, lines[0]) then sofar else Fill(sofar + lines[0], lines[1..])
  }

  function LineOf(facts: Facts, id: nat): string {
    if id in facts then Line(facts[id]) else ""
  }

  ghost function LinesOf(facts: Facts, ids: seq<nat>): (lines: seq<string>)
    ensures |lines| == |ids|
    ensures forall i :: 0 <= i < |ids| ==> lines[i] == LineOf(facts, ids[i])
  {
    seq(|ids|, i requires 0 <= i < |ids| => LineOf(facts, ids[i]))
  }

  ghost predicate AreRelevant(facts: Facts, userID: int, keywords: seq<string>, ids: seq<nat>) {
    Distinct(ids) && forall id :: id in ids <==> Relevant(facts, id, userID, keywords)
  }

  /** What may come back: the relevant facts can be taken in any order. */
  ghost predicate IsContext(facts: Facts, userID: int, question: string, context: string) {
    exists ids :: AreRelevant(facts, userID, Keywords(question), ids) && context == ContextOf(facts, ids)
  }

  ghost function ContextOf(facts: Facts, ids: seq<nat>): string {
    if ids == [] then "" else Fill(HEADER, LinesOf(facts, ids))
  }

  method GetRelevantContext(repo: Repository, userID: int, question: string) returns (context: string)
    requires repo.Valid()
    ensures IsContext(repo.store.facts, userID, question, context)
  {
    hide Keywords, Fill, Relevant, HEADER;
    if question == "" {
      NoKeywords();
      NothingRelevant(repo.store.facts, userID);
      return "";
    }
    var keywords := ExtractKeywords(question);
    if |keywords| == 0 {
      NothingRelevant(repo.store.facts, userID);
      return "";
    }
    var factSet := FindFacts(repo, userID, keywords);
    var ids := InSomeOrder(factSet);
    forall id ensures id in ids <==> Relevant(repo.store.facts, id, userID, keywords) {
      assert id in ids <==> id in Elements(ids);
    }
    assert AreRelevant(repo.store.facts, userID, Keywords(question), ids);
    if |ids| == 0 {
      return "";
    }
    context := WriteFacts(repo.facts, ids);
  }

  /** The facts found for any keyword that is long enough, each once. */
  method FindFacts(repo: Repository, userID: int, keywords: seq<string>) returns (factSet: set<nat>)
    requires repo.Valid()
    ensures forall id :: id in factSet <==> Relevant(repo.store.facts, id, userID, keywords)
    ensures forall id :: id in factSet ==> id in repo.facts
  {
    factSet := {};
    hide Bytes;
    for i := 0 to |keywords|
      invariant forall id :: id in factSet <==> Relevant(repo.store.facts, id, userID, keywords[..i])
    {
      RelevantSnoc(repo.store.facts, userID, keywords, i);
      if Bytes(keywords[i]) < 3 {
        continue;
      }
      var found := repo.SearchFacts(userID, keywords[i]);
      factSet := factSet + set id | id in found;
    }
    assert keywords[..|keywords|] == keywords;
  }

  lemma RelevantSnoc(facts: Facts, userID: int, keywords: seq<string>, i: nat)
    requires i < |keywords|
    ensures forall id :: Relevant(facts, id, userID, keywords[..i + 1]) <==>
              || Relevant(facts, id, userID, keywords[..i])
              || (Bytes(keywords[i]) >= 3 && Matches(facts, id, userID, keywords[i]))
  {
    hide Matches, Bytes;
    assert keywords[..i + 1] == keywords[..i] + [keywords[i]];
    assert forall k :: k in keywords[..i + 1] <==> k in keywords[..i] || k == keywords[i];
  }

  method WriteFacts(facts: Facts, ids: seq<nat>) returns (context: string)
    requires forall id :: id in ids ==> id in facts
    ensures context == Fill(HEADER, LinesOf(facts, ids))
  {
    hide HEADER, Fits;
    context := HEADER;
    ghost var lines := LinesOf(facts, ids);
    for i := 0 to |ids|
      invariant Fill(context, lines[i..]) == Fill(HEADER, lines)
    {
      var line := Line(facts[ids[i]]);
      assert lines[i..][0] == line && lines[i..][1..] == lines[i + 1..];
      if !Fits(context, line) {
        return;
      }
      context := context + line;
    }
  }

  lemma NoKeywords()
    ensures Keywords("") == []
  {
    assert ToLower("") == "";
  }

  lemma NothingRelevant(facts: Facts, userID: int)
    ensures AreRelevant(facts, userID, [], []) && ContextOf(facts, []) == ""
  {
  }

  // ---------------------------------------------------------------- what the context holds

  lemma {:induction false} FillStops(sofar: string, lines: seq<string>) returns (n: nat)
    ensures n <= |lines| && Fill(sofar, lines) == sofar + Join(lines[..n], "")
    ensures Bytes(sofar) <= MAX_CONTEXT_SIZE ==> Bytes(Fill(sofar, lines)) <= MAX_CONTEXT_SIZE
    ensures n < |lines| ==> !Fits(Fill(sofar, lines), lines[n])
    decreases |lines|
  {
    hide Bytes, Join;
    if lines == [] || !Fits(sofar, lines[0]) {
      n := 0;
      NothingJoined(lines[..n], sofar);
    } else {
      BytesConcat(sofar, lines[0]);
      var k := FillStops(sofar + lines[0], lines[1..]);
      n := k + 1;
      JoinedFirst(lines[0], lines[1..][..k]);
      assert lines[..n] == [lines[0]] + lines[1..][..k];
      assert sofar + lines[0] + Join(lines[1..][..k], "") == sofar + (lines[0] + Join(lines[1..][..k], ""));
    }
  }

  lemma NothingJoined(lines: seq<string>, sofar: string)
    requires lines == []
    ensures sofar + Join(lines, "") == sofar
  {
  }

  lemma JoinedFirst(line: string, lines: seq<string>)
    ensures Join([line] + lines, "") == line + Join(lines, "")
  {
    if lines == [] {
      assert line + "" == line;
    } else {
      JoinCons(line, lines, "");
      assert "" + Join(lines, "") == Join(lines, "");
    }
  }

  lemma HeaderSize()
    ensures Bytes(HEADER) <= MAX_CONTEXT_SIZE
  {
    BytesAtMost(HEADER);
  }

  lemma {:induction false} BytesAtMost(s: string)
    ensures Bytes(s) <= 4 * |s|
  {
    if s != "" {
      BytesAtMost(s[..|s| - 1]);
    }
  }

  /** The context lists facts of the user's that mention a keyword, none twice, within the size; it is
      empty exactly when there are none; and a fact is left out only once some fact did not fit. */
  lemma ContextShape(facts: Facts, userID: int, question: string, context: string) returns (listed: seq<nat>)
    requires IsContext(facts, userID, question, context)
    ensures Distinct(listed) && forall id :: id in listed ==> Relevant(facts, id, userID, Keywords(question))
    ensures context == "" <==> forall id :: !Relevant(facts, id, userID, Keywords(question))
    ensures context != "" ==> context == HEADER + Join(LinesOf(facts, listed), "")
    ensures Bytes(context) <= 2000
    ensures forall id :: Relevant(facts, id, userID, Keywords(question)) && id !in listed ==>
              exists other :: Relevant(facts, other, userID, Keywords(question)) && other !in listed &&
                              Bytes(context) + Bytes(LineOf(facts, other)) > 2000
  {
    hide Relevant, Keywords, Fill, Bytes, Join, LineOf;
    var ids :| AreRelevant(facts, userID, Keywords(question), ids) && context == ContextOf(facts, ids);
    HeaderSize();
    if ids == [] {
      listed := [];
      NoBytes();
    } else {
      assert ids[0] in ids;
      var n := FillStops(HEADER, LinesOf(facts, ids));
      listed := ids[..n];
      assert LinesOf(facts, ids)[..n] == LinesOf(facts, listed);
      if n < |ids| {
        assert ids[n] in ids && ids[n] !in listed;
        assert !Fits(context, LineOf(facts, ids[n]));
      } else {
        assert listed == ids;
      }
    }
  }

  lemma NoBytes()
    ensures Bytes("") == 0
  {
  }

  lemma {:induction false} JoinHolds(lines: seq<string>, k: nat) returns (before: string, after: string)
    requires k < |lines|
    ensures Join(lines, "") == before + lines[k] + after
  {
    assert lines == [lines[0]] + lines[1..];
    JoinedFirst(lines[0], lines[1..]);
    if k == 0 {
      before, after := "", Join(lines[1..], "");
    } else {
      var b, a := JoinHolds(lines[1..], k - 1);
      before, after := lines[0] + b, a;
      assert lines[0] + (b + lines[k] + a) == lines[0] + b + lines[k] + a;
    }
  }

  /** A listed fact's line stands in the context: a dash, its content and, if it has one, its source. */
  lemma ContextShows(facts: Facts, listed: seq<nat>, context: string, k: nat) returns (before: string, after: string)
    requires context == HEADER + Join(LinesOf(facts, listed), "") && k < |listed| && listed[k] in facts
    ensures var f := facts[listed[k]];
            context == before + ("- " + f.content +
                                 (if f.sourceURL == "" then "\n" else " (source: " + f.sourceURL + ")\n")) + after
  {
    hide Join, HEADER;
    var b, a := JoinHolds(LinesOf(facts, listed), k);
    before, after := HEADER + b, a;
    var f := facts[listed[k]];
    var shown := "- " + f.content + (if f.sourceURL == "" then "\n" else " (source: " + f.sourceURL + ")\n");
    assert Line(f) == shown by {
      assert "- " + f.content + "" + "\n" == "- " + f.content + "\n";
      assert "- " + f.content + (" (source: " + f.sourceURL + ")") + "\n" ==
             "- " + f.content + (" (source: " + f.sourceURL + ")\n");
    }
    assert HEADER + (b + shown + a) == HEADER + b + shown + a;
  }
}
