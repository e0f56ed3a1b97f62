/** The question table (QuestionTable.tsx): the row filter driven by the
    search box and the two drop-downs, and the topic badges of a row. */
module QuestionTable {
  import opened Seqs
  import opened Text
  import opened Types

  /** `text.toLowerCase().includes(search.toLowerCase())`. */
  predicate MatchesText(text: string, search: string) {
    Contains(ToLower(text), ToLower(search))
  }

  /** The search box matches the title or any one of the topics. */
  predicate MatchesSearch(q: Question, search: string) {
    MatchesText(q.title, search)
    || exists k :: 0 <= k < |q.topics| && MatchesText(q.topics[k], search)
  }

  /** The difficulty drop-down: `"all"` or the difficulty's own name. */
  predicate MatchesDifficulty(q: Question, difficultyFilter: string) {
    difficultyFilter == "all" || DifficultyName(q.difficulty) == difficultyFilter
  }

  /** The status drop-down: `"all"`, `"completed"` or `"pending"`. */
  predicate MatchesCompleted(q: Question, completedFilter: string) {
    completedFilter == "all"
    || (completedFilter == "completed" && q.completed)
    || (completedFilter == "pending" && !q.completed)
  }

  /** The callback given to `questions.filter`. */
  function RowFilter(search: string, difficultyFilter: string, completedFilter: string): Question -> bool {
    (q: Question) =>
      MatchesSearch(q, search) && MatchesDifficulty(q, difficultyFilter) && MatchesCompleted(q, completedFilter)
  }

  /** `filteredQuestions`. */
  function FilteredQuestions(questions: seq<Question>, search: string,
                             difficultyFilter: string, completedFilter: string): seq<Question> {
    Filter(questions, RowFilter(search, difficultyFilter, completedFilter))
  }

  /** The table shows, in their order, exactly the questions passing all three
      tests: each shown row passes them, and each question passing them is
      shown as many times as it occurs in the input. */
  lemma FilteredSpec(questions: seq<Question>, search: string, difficultyFilter: string, completedFilter: string)
    ensures var r := FilteredQuestions(questions, search, difficultyFilter, completedFilter);
            IsSubseq(r, questions)
            && (forall q :: q in r <==>
                  q in questions && MatchesSearch(q, search)
                  && MatchesDifficulty(q, difficultyFilter) && MatchesCompleted(q, completedFilter))
            && (forall q :: multiset(r)[q] ==
                  if MatchesSearch(q, search) && MatchesDifficulty(q, difficultyFilter)
                     && MatchesCompleted(q, completedFilter)
                  then multiset(questions)[q] else 0)
  {
    var p := RowFilter(search, difficultyFilter, completedFilter);
    FilterIsSubseq(questions, p);
    forall q ensures q in Filter(questions, p) <==> q in questions && p(q) {
      FilterMembership(questions, p, q);
    }
    forall q ensures multiset(Filter(questions, p))[q] == if p(q) then multiset(questions)[q] else 0 {
      FilterCount(questions, p, q);
    }
  }

  /** The empty search matches every question. */
  lemma EmptySearchMatches(q: Question)
    ensures MatchesSearch(q, "")
  {
    ContainsEmpty(ToLower(q.title));
  }

  /** With the initial state of the controls (empty search, both drop-downs
      on "all") the table shows every question in its order. */
  lemma InitialFilterShowsAll(questions: seq<Question>)
    ensures FilteredQuestions(questions, "", "all", "all") == questions
  {
    var p := RowFilter("", "all", "all");
    forall i | 0 <= i < |questions| ensures p(questions[i]) {
      EmptySearchMatches(questions[i]);
    }
    FilterKeepsAll(questions, p);
  }

  /** The search is case-insensitive: an upper-case search finds what its
      lower-case form finds. */
  lemma SearchIgnoresCase(q: Question, search: string)
    ensures MatchesSearch(q, search) <==> MatchesSearch(q, ToLower(search))
  {
    ToLowerIdempotent(search);
  }

  /** A difficulty other than "all" shows only questions of that difficulty,
      and a value that names no difficulty shows nothing. */
  lemma DifficultyFilterSpec(questions: seq<Question>, search: string, difficultyFilter: string, completedFilter: string)
    requires difficultyFilter != "all"
    ensures var r := FilteredQuestions(questions, search, difficultyFilter, completedFilter);
            (forall i :: 0 <= i < |r| ==> DifficultyName(r[i].difficulty) == difficultyFilter)
            && (difficultyFilter !in {"Easy", "Medium", "Hard"} ==> r == [])
  {
    var p := RowFilter(search, difficultyFilter, completedFilter);
    if difficultyFilter !in {"Easy", "Medium", "Hard"} {
      forall i | 0 <= i < |questions| ensures !p(questions[i]) {
        assert DifficultyName(questions[i].difficulty) in {"Easy", "Medium", "Hard"};
      }
      FilterKeepsNone(questions, p);
    }
  }

  /** "completed" shows only completed questions, "pending" only the others,
      and a value other than the three the drop-down offers shows nothing. */
  lemma CompletedFilterSpec(questions: seq<Question>, search: string, difficultyFilter: string, completedFilter: string)
    ensures var r := FilteredQuestions(questions, search, difficultyFilter, completedFilter);
            (completedFilter == "completed" ==> forall i :: 0 <= i < |r| ==> r[i].completed)
            && (completedFilter == "pending" ==> forall i :: 0 <= i < |r| ==> !r[i].completed)
            && (completedFilter !in {"all", "completed", "pending"} ==> r == [])
  {
    var p := RowFilter(search, difficultyFilter, completedFilter);
    if completedFilter !in {"all", "completed", "pending"} {
      FilterKeepsNone(questions, p);
    }
  }

  /** Narrowing a drop-down from "all" only hides rows: the filtered table is a
      subsequence of the one with the status drop-down on "all". */
  lemma CompletedFilterNarrows(questions: seq<Question>, search: string, difficultyFilter: string, completedFilter: string)
    ensures IsSubseq(FilteredQuestions(questions, search, difficultyFilter, completedFilter),
                     FilteredQuestions(questions, search, difficultyFilter, "all"))
  {
    FilterRefines(questions, RowFilter(search, difficultyFilter, completedFilter), RowFilter(search, difficultyFilter, "all"));
  }

  /** A stricter filter keeps a subsequence of what a looser one keeps. */
  lemma {:induction false} FilterRefines<T>(s: seq<T>, p: T -> bool, p': T -> bool)
    requires forall x :: p(x) ==> p'(x)
    ensures IsSubseq(Filter(s, p), Filter(s, p'))
  {
    if s == [] {
      assert IsSubseq<T>([], []);
    } else {
      var init, x := s[..|s| - 1], s[|s| - 1];
      FilterRefines(init, p, p');
      assert Filter(s, p) == Filter(init, p) + (if p(x) then [x] else []);
      assert Filter(s, p') == Filter(init, p') + (if p'(x) then [x] else []);
      if p(x) {
        SubseqAppendBoth(Filter(init, p), Filter(init, p'), x);
      } else if p'(x) {
        assert Filter(s, p) == Filter(init, p);
        SubseqExtend(Filter(init, p), Filter(init, p'), x);
      } else {
        assert Filter(s, p) == Filter(init, p) && Filter(s, p') == Filter(init, p');
      }
    }
  }

  // ---------------------------------------------------------------------------
  // Topic badges
  // ---------------------------------------------------------------------------

  /** At most three topics get a badge of their own. */
  const MaxTopicBadges := 3

  /** `topics.slice(0, 3)`, then a "+n" badge when more topics were hidden. */
  function TopicBadges(topics: seq<string>): seq<string> {
    var shown := if |topics| <= MaxTopicBadges then topics else topics[..MaxTopicBadges];
    shown + (if |topics| > MaxTopicBadges then ["+" + NatToString(|topics| - MaxTopicBadges)] else [])
  }

  /** The first topics are shown as they are, in order; a "+n" badge appears
      exactly when more than three topics exist, and n is the number of topics
      left without a badge, so every topic is either shown or counted. */
  lemma TopicBadgesSpec(topics: seq<string>)
    ensures var b := TopicBadges(topics);
            (|topics| <= MaxTopicBadges ==> b == topics)
            && (|topics| > MaxTopicBadges ==>
                  |b| == MaxTopicBadges + 1
                  && b[..MaxTopicBadges] == topics[..MaxTopicBadges]
                  && b[MaxTopicBadges][0] == '+'
                  && DecimalValue(b[MaxTopicBadges][1..]) == |topics| - MaxTopicBadges
                  && MaxTopicBadges + DecimalValue(b[MaxTopicBadges][1..]) == |topics|)
  {
    if |topics| > MaxTopicBadges {
      var more := "+" + NatToString(|topics| - MaxTopicBadges);
      assert more[1..] == NatToString(|topics| - MaxTopicBadges);
      NatToStringRoundTrip(|topics| - MaxTopicBadges);
    }
  }
}
