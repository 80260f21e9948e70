/**
 * The CLI helpers: what the controller does with the text the chat model
 * returns, the prompts it sends, and how a vector-search result is unwrapped.
 * The chat model and the vector store are oracles; a reply is a `Completion`.
 */
module Helpers {
  import opened Wrappers
  import opened Text

  /**
   * What one chat-completion call yields: it threw, or it returned a response
   * whose `choices[0]?.message?.content` is present or not.
   */
  datatype Completion = Threw | Replied(content: Option<string>)

  /**
   * The variable parts of the three prompts. The fixed wording around them
   * (the rules lists) is not modelled.
   */
  datatype Prompt =
    | FirstQuestionPrompt(userQuery: string)
    | NextQuestionPrompt(previousQuestion: string, previousAnswer: string)
    | RefinePrompt(queryList: string, question: string, answer: string)

  const FirstQuestionDefault: string := "What specific type of comedy movies do you enjoy?"
  const NextQuestionDefault: string := "Do you prefer lighthearted comedy or satire?"
  const Bullet: char := '\U{2022}'

  /** The class `["'`\-\•\d\.]` stripped from the front of a refined query. */
  predicate IsQueryArtifact(c: char) {
    c == '"' || c == '\'' || c == '`' || c == '-' || c == Bullet || ('0' <= c <= '9') || c == '.'
  }

  /** The class `[-\d\.\•]` stripped from the front of a follow-up question. */
  predicate IsBulletArtifact(c: char) {
    c == '-' || ('0' <= c <= '9') || c == '.' || c == Bullet
  }

  /** Replacing the pattern `^[class]+` by "": drops the longest leading run of class characters. */
  function StripLeading(s: string, inClass: char -> bool): (r: string)
    ensures |r| <= |s|
    ensures r == [] || !inClass(r[0])
  {
    if s != [] && inClass(s[0]) then StripLeading(s[1..], inClass) else s
  }

  /** What is kept is the end of `s`. */
  lemma {:induction false} StripLeadingKeepsEnd(s: string, inClass: char -> bool)
    ensures StripLeading(s, inClass) == s[|s| - |StripLeading(s, inClass)|..]
    decreases |s|
  {
    if s != [] && inClass(s[0]) {
      StripLeadingKeepsEnd(s[1..], inClass);
    }
  }

  lemma StripLeadingIsSuffix(s: string, inClass: char -> bool)
    ensures IsSuffix(StripLeading(s, inClass), s)
  {
    StripLeadingKeepsEnd(s, inClass);
    SliceIsSuffix(s, |s| - |StripLeading(s, inClass)|);
  }

  /** What is removed is a run of class characters. */
  lemma {:induction false} StripLeadingRemovesClass(s: string, inClass: char -> bool, i: nat)
    requires i < |s| - |StripLeading(s, inClass)|
    ensures inClass(s[i])
    decreases i
  {
    if i > 0 {
      StripLeadingRemovesClass(s[1..], inClass, i - 1);
    }
  }

  /** What is removed is a run of class characters at the front; what is kept is the rest. */
  lemma StripLeadingShape(s: string, inClass: char -> bool)
    ensures IsSuffix(StripLeading(s, inClass), s)
    ensures forall i :: 0 <= i < |s| - |StripLeading(s, inClass)| ==> inClass(s[i])
  {
    StripLeadingIsSuffix(s, inClass);
    forall i | 0 <= i < |s| - |StripLeading(s, inClass)| {
      StripLeadingRemovesClass(s, inClass, i);
    }
  }

  /** The longest leading run is the only run whose removal leaves a string not starting in the class. */
  lemma {:induction false} StripLeadingUnique(s: string, inClass: char -> bool, r: string)
    requires IsSuffix(r, s)
    requires forall i :: 0 <= i < |s| - |r| ==> inClass(s[i])
    requires r == [] || !inClass(r[0])
    ensures StripLeading(s, inClass) == r
    decreases |s|
  {
    if |r| < |s| {
      assert inClass(s[0]);
      assert IsSuffix(r, s[1..]);
      StripLeadingUnique(s[1..], inClass, r);
    } else {
      OccursWhole(r, s);
    }
  }

  // The pattern `^[-\d\.\•]+\s*` replaced by "": a leading run of bullet
  // characters and the whitespace that follows it; no match leaves `s` as it is.
  function StripBullet(s: string): (r: string)
    ensures |r| <= |s|
    ensures s == [] || !IsBulletArtifact(s[0]) ==> r == s
    ensures s != [] && IsBulletArtifact(s[0]) ==> r == [] || !IsSpace(r[0])
  {
    if s != [] && IsBulletArtifact(s[0]) then
      TrimStart(StripLeading(s, IsBulletArtifact))
    else s
  }

  /** The bullet prefix is removed from the front only: the rest is a suffix of `s`. */
  lemma StripBulletIsSuffix(s: string)
    ensures IsSuffix(StripBullet(s), s)
  {
    if s != [] && IsBulletArtifact(s[0]) {
      var u := StripLeading(s, IsBulletArtifact);
      StripLeadingIsSuffix(s, IsBulletArtifact);
      TrimStartIsSuffix(u);
      OccursTransitive(TrimStart(u), u, |u| - |TrimStart(u)|, s, |s| - |u|);
    }
  }

  /** After the longest bullet run, which starts at the front, what is removed is whitespace only. */
  lemma StripBulletRemovesSpace(s: string, k: nat)
    requires k == |s| - |StripLeading(s, IsBulletArtifact)|
    requires s != [] && IsBulletArtifact(s[0])
    ensures k <= |s| - |StripBullet(s)|
    ensures SpaceBetween(s, k, |s| - |StripBullet(s)|)
  {
    var u := StripLeading(s, IsBulletArtifact);
    assert StripBullet(s) == TrimStart(u);
    StripLeadingKeepsEnd(s, IsBulletArtifact);
    TrimStartShape(u);
    forall j | k <= j < |s| - |TrimStart(u)| ensures IsSpace(s[j]) {
      assert s[j] == u[j - k];
    }
  }

  /**
   * What the pattern removes: the first `k` characters, all bullet characters, with
   * no bullet character right after them (the run is the longest one), and then
   * whitespace only. What is kept is the rest of `s`.
   */
  lemma StripBulletShape(s: string)
    ensures IsSuffix(StripBullet(s), s)
    ensures s != [] && IsBulletArtifact(s[0]) ==>
              var k := |s| - |StripLeading(s, IsBulletArtifact)|;
              && 0 < k <= |s| - |StripBullet(s)|
              && (forall i :: 0 <= i < k ==> IsBulletArtifact(s[i]))
              && (k == |s| || !IsBulletArtifact(s[k]))
              && SpaceBetween(s, k, |s| - |StripBullet(s)|)
  {
    StripBulletIsSuffix(s);
    if s != [] && IsBulletArtifact(s[0]) {
      var u := StripLeading(s, IsBulletArtifact);
      var k := |s| - |u|;
      assert u == StripLeading(s[1..], IsBulletArtifact);
      StripLeadingShape(s, IsBulletArtifact);
      if k < |s| {
        StripLeadingKeepsEnd(s, IsBulletArtifact);
        assert u[0] == s[k];
      }
      StripBulletRemovesSpace(s, k);
    }
  }

  /** `content?.trim() || answer`: the text a refined query is cut from. */
  function RefineSource(content: Option<string>, answer: string): (src: string)
    ensures content.Some? && Trim(content.value) != [] ==> src == Trim(content.value)
    ensures content.None? || Trim(content.value) == [] ==> src == answer
  {
    if content.Some? && Trim(content.value) != [] then Trim(content.value) else answer
  }

  /** What `generateRefinedQuery` returns for the model's reply and the user's answer. */
  function RefinedQuery(reply: Completion, answer: string): (r: string)
    ensures reply.Threw? ==> r == answer
    ensures reply.Replied? ==> Trimmed(r)
  {
    match reply
    case Threw => answer
    case Replied(content) => Trim(StripLeading(RefineSource(content, answer), IsQueryArtifact))
  }

  /**
   * Stripping the leading artifact run and trimming leaves a piece of the trimmed
   * text: artifact characters are never whitespace, so nothing outside it survives.
   */
  lemma StripThenTrimIsSubstring(s: string)
    ensures Trimmed(Trim(StripLeading(s, IsQueryArtifact)))
    ensures IsSubstring(Trim(StripLeading(s, IsQueryArtifact)), Trim(s))
  {
    var r := Trim(StripLeading(s, IsQueryArtifact));
    if r == [] {
      assert OccursAt(r, Trim(s), 0);
    } else {
      var j := StripThenTrimOccurs(s);
      var i := InsideTrim(s, r, j);
      assert OccursAt(r, Trim(s), i);
    }
  }

  /** Where the stripped and trimmed text sits in `s`. */
  lemma StripThenTrimOccurs(s: string) returns (j: int)
    ensures OccursAt(Trim(StripLeading(s, IsQueryArtifact)), s, j)
  {
    var u := StripLeading(s, IsQueryArtifact);
    var k := |u| - |TrimStart(u)|;
    TrimOccurs(u);
    StripLeadingIsSuffix(s, IsQueryArtifact);
    OccursTransitive(Trim(u), u, k, s, |s| - |u|);
    j := |s| - |u| + k;
  }

  /** A piece of `s` with no whitespace at its ends is a piece of `Trim(s)`. */
  lemma InsideTrim(s: string, r: string, j: int) returns (i: int)
    requires OccursAt(r, s, j) && r != [] && Trimmed(r)
    ensures OccursAt(r, Trim(s), i)
  {
    var a := |s| - |TrimStart(s)|;
    TrimPadded(s);
    NonSpaceInside(s, a, Trim(s), j, r);
    i := j - a;
  }

  /** A piece `r` of `s` without whitespace at its ends lies within the trimmed `t` of `s`. */
  lemma NonSpaceInside(s: string, a: int, t: string, j: int, r: string)
    requires PaddedAt(s, a, t)
    requires OccursAt(r, s, j) && r != [] && Trimmed(r)
    ensures OccursAt(r, t, j - a)
  {
    assert r[0] == s[j] && r[|r| - 1] == s[j + |r| - 1];
    assert a <= j;
    assert j + |r| <= a + |t|;
    forall i | 0 <= i < |r| ensures r[i] == t[j - a + i] {
      assert t[j - a + i] == s[a + (j - a + i)];
    }
  }

  /**
   * The success path of `generateRefinedQuery`: the result has no surrounding
   * whitespace and is a piece of the trimmed reply, or of the trimmed answer when
   * the reply is missing or blank. It may be "" (it is not re-checked).
   */
  lemma RefinedQueryShape(content: Option<string>, answer: string)
    ensures var r := RefinedQuery(Replied(content), answer);
      Trimmed(r) &&
      (content.Some? && Trim(content.value) != [] ==> IsSubstring(r, Trim(content.value))) &&
      (content.None? || Trim(content.value) == [] ==> IsSubstring(r, Trim(answer)))
  {
    var src := RefineSource(content, answer);
    StripThenTrimIsSubstring(src);
    if content.Some? && Trim(content.value) != [] {
      TrimIdempotent(content.value);
    }
  }

  /** A reply that does not start with an artifact comes back as the trimmed reply itself. */
  lemma RefinedQueryKeepsCleanReply(text: string, answer: string)
    requires Trim(text) != [] && !IsQueryArtifact(Trim(text)[0])
    ensures RefinedQuery(Replied(Some(text)), answer) == Trim(text)
  {
    TrimIdempotent(text);
  }

  /** A reply made only of artifacts gives the empty query: the result is not re-checked. */
  lemma RefinedQueryMayBeEmpty(answer: string)
    ensures RefinedQuery(Replied(Some("1.")), answer) == ""
  {
    var s := "1.";
    assert !IsSpace(s[0]) && !IsSpace(s[1]);
    assert TrimStart(s) == s;
    assert TrimEnd(s) == s;
    assert StripLeading(s, IsQueryArtifact) == StripLeading(s[1..], IsQueryArtifact);
    assert s[1..][1..] == [];
  }

  /** The post-processing shared by both follow-up questions, with its fallback. */
  function FollowUpQuestion(reply: Completion, fallback: string): (r: string)
    ensures reply.Threw? || reply.content.None? ==> r == fallback
    ensures reply.Replied? && reply.content.Some? && StripBullet(Trim(reply.content.value)) == [] ==> r == fallback
    ensures r != fallback ==> reply.Replied? && reply.content.Some? && r != []
    ensures fallback != [] ==> r != []
  {
    match reply
    case Threw => fallback
    case Replied(None) => fallback
    case Replied(Some(text)) =>
      var q := StripBullet(Trim(text));
      if q == [] then fallback else q
  }

  /** Stripping the bullet prefix of a trimmed text leaves a trimmed tail of it. */
  lemma StripBulletKeepsTrimmed(t: string)
    requires Trimmed(t)
    ensures IsSuffix(StripBullet(t), t)
    ensures Trimmed(StripBullet(t))
  {
    var q := StripBullet(t);
    StripBulletIsSuffix(t);
    if q != [] {
      assert q[|q| - 1] == t[|t| - |q| + (|q| - 1)];
      assert !IsSpace(q[0]) by {
        if !IsBulletArtifact(t[0]) {
          assert q == t;
        }
      }
    }
  }

  /** A question taken from the reply is a non-empty tail of the trimmed reply, with no whitespace around it. */
  lemma FollowUpQuestionShape(reply: Completion, fallback: string)
    ensures var r := FollowUpQuestion(reply, fallback);
      r != fallback ==> r != [] && Trimmed(r) && IsSuffix(r, Trim(reply.content.value))
  {
    if reply.Replied? && reply.content.Some? {
      StripBulletKeepsTrimmed(Trim(reply.content.value));
    }
  }

  /** `generateFirstFollowUpQuestion`: never empty, and the fixed default on failure. */
  function FirstFollowUpQuestion(reply: Completion): (r: string)
    ensures r != []
    ensures reply.Threw? || reply.content.None? ==> r == FirstQuestionDefault
  {
    FollowUpQuestion(reply, FirstQuestionDefault)
  }

  /** `generateNextFollowUpQuestion`: the same rule with its own default. */
  function NextFollowUpQuestion(reply: Completion): (r: string)
    ensures r != []
    ensures reply.Threw? || reply.content.None? ==> r == NextQuestionDefault
  {
    FollowUpQuestion(reply, NextQuestionDefault)
  }

  /** A reply that is blank, or bullet characters only once trimmed, gives the default. */
  lemma FollowUpArtifactReplyFallsBack(text: string, fallback: string)
    requires forall i :: 0 <= i < |Trim(text)| ==> IsBulletArtifact(Trim(text)[i])
    ensures FollowUpQuestion(Replied(Some(text)), fallback) == fallback
  {
    StripLeadingShape(Trim(text), IsBulletArtifact);
  }

  /** A reply that does not start with a bullet character comes back trimmed and otherwise intact. */
  lemma FollowUpKeepsCleanReply(text: string, fallback: string)
    requires Trim(text) != [] && !IsBulletArtifact(Trim(text)[0])
    ensures FollowUpQuestion(Replied(Some(text)), fallback) == Trim(text)
  {
  }

  /** `previousQueries.map((q) => `• ${q}`).join("\n")`. */
  function BulletList(queries: seq<string>): (r: string)
    ensures queries == [] ==> r == ""
    ensures queries != [] ==>
              OccursAt([Bullet, ' '] + queries[0], r, 0) && IsSuffix([Bullet, ' '] + queries[|queries| - 1], r)
  {
    JoinEnds(Bullets(queries), "\n");
    Join(Bullets(queries), "\n")
  }

  function Bullets(queries: seq<string>): (b: seq<string>)
    ensures |b| == |queries|
    ensures forall i :: 0 <= i < |queries| ==> b[i] == [Bullet, ' '] + queries[i]
  {
    seq(|queries|, i requires 0 <= i < |queries| => [Bullet, ' '] + queries[i])
  }

  /** The list shows every query, in order, as a `• q` line; lines after the first follow a newline. */
  lemma BulletListInOrder(queries: seq<string>, i: nat)
    requires i < |queries|
    ensures var o := Offset(Bullets(queries), "\n", i);
      OccursAt([Bullet, ' '] + queries[i], BulletList(queries), o) &&
      (i > 0 ==> OccursAt("\n", BulletList(queries), o - 1))
  {
    JoinAt(Bullets(queries), "\n", i);
  }

  /** Adding a query adds one line at the end. */
  lemma BulletListAppend(queries: seq<string>, q: string)
    requires queries != []
    ensures BulletList(queries + [q]) == BulletList(queries) + "\n" + [Bullet, ' '] + q
  {
    assert Bullets(queries + [q]) == Bullets(queries) + [[Bullet, ' '] + q];
    JoinAppend(Bullets(queries), [Bullet, ' '] + q, "\n");
  }

  /** The prompt `generateRefinedQuery` sends, reduced to its variable parts. */
  function RefinementPrompt(previousQueries: seq<string>, question: string, answer: string): (p: Prompt)
    ensures p.RefinePrompt? && p.question == question && p.answer == answer
    ensures p.queryList == BulletList(previousQueries)
  {
    RefinePrompt(BulletList(previousQueries), question, answer)
  }

  /** One movie as the vector store returns its metadata. */
  datatype Candidate = Candidate(title: string, year: string, genre: string)

  /** The part of a vector-store query result that the controller reads. */
  datatype SearchResult = SearchResult(metadatas: Option<seq<seq<Candidate>>>)

  /** `results.metadatas?.[0] || []` in `getMovieRecommendations`. */
  function Recommendations(result: SearchResult): (movies: seq<Candidate>)
    ensures result.metadatas.Some? && |result.metadatas.value| > 0 ==> movies == result.metadatas.value[0]
    ensures result.metadatas.None? || result.metadatas.value == [] ==> movies == []
  {
    match result.metadatas
    case Some(lists) => if |lists| > 0 then lists[0] else []
    case None => []
  }

  /**
   * The controller finds movies exactly when the store answered with a non-empty first
   * list, and every movie it shows is one of that list.
   */
  lemma RecommendationsFromStore(result: SearchResult)
    ensures Recommendations(result) != [] <==>
              result.metadatas.Some? && |result.metadatas.value| > 0 && result.metadatas.value[0] != []
    ensures forall c :: c in Recommendations(result) ==>
              result.metadatas.Some? && |result.metadatas.value| > 0 && c in result.metadatas.value[0]
  {
  }

  /** `movies.map((movie) => movie.title)`. */
  function Titles(movies: seq<Candidate>): (titles: seq<string>)
    ensures |titles| == |movies|
    ensures forall i :: 0 <= i < |movies| ==> titles[i] == movies[i].title
  {
    seq(|movies|, i requires 0 <= i < |movies| => movies[i].title)
  }
}
