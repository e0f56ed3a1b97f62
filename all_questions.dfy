/** The "All Questions" page (AllQuestions.tsx): it fetches every stored
    question, keeps the first question of each normalised title, and shows
    three counters above the table. */
module AllQuestions {
  import opened Seqs
  import opened Types
  import opened CompanyStats
  import opened StoreQuestions

  /** The `forEach` of `loadQuestions` that fills `uniqueMap`, read back with
      `Array.from(uniqueMap.values())`. It applies the store's own rule, so the
      page and `getAllUniqueQuestions` agree on every list. */
  method LoadQuestions(allQuestions: seq<Question>) returns (questions: seq<Question>)
    ensures questions == UniqueTitles(allQuestions)
  {
    var order: seq<string> := [];
    var uniqueMap: map<string, Question> := map[];
    for i := 0 to |allQuestions|
      invariant order == Map(UniqueTitles(allQuestions[..i]), TitleKey)
      invariant ReadsBack(order, uniqueMap, UniqueTitles(allQuestions[..i]))
    {
      var q := allQuestions[i];
      DedupStep(allQuestions, i);
      var key := TitleKey(q);
      if key !in uniqueMap {
        ReadsBackInsert(order, uniqueMap, UniqueTitles(allQuestions[..i]), key, q);
        uniqueMap := uniqueMap[key := q];
        order := order + [key];
      }
    }
    assert allQuestions[..|allQuestions|] == allQuestions;
    questions := seq(|order|, j requires 0 <= j < |order| => uniqueMap[order[j]]);
  }

  /** A list that is already free of duplicate titles, such as the one
      `getAllUniqueQuestions` returns, is shown unchanged. */
  lemma DedupOfUniqueUnchanged(allQuestions: seq<Question>)
    ensures UniqueTitles(UniqueTitles(allQuestions)) == UniqueTitles(allQuestions)
  {
    UniqueByIdempotent(allQuestions, TitleKey);
  }

  /** The three counters: unique questions, completed, remaining. */
  datatype PageCounts = PageCounts(total: nat, completed: nat, remaining: int)

  /** `questions.length`, the completed filter's length, and their difference. */
  function Counts(questions: seq<Question>): (c: PageCounts)
    ensures c.total == |questions|
    ensures c.completed <= c.total
    ensures c.remaining >= 0 && c.completed + c.remaining == c.total
  {
    var total := |questions|;
    var completed := CompletedCount(questions);
    PageCounts(total, completed, total - completed)
  }

  /** The counters over the deduplicated list: at most one question per
      fetched question, none exactly when nothing was fetched, and nothing
      remaining when every fetched question is completed. */
  lemma PageCountsSpec(allQuestions: seq<Question>)
    ensures var c := Counts(UniqueTitles(allQuestions));
            c.total <= |allQuestions|
            && (c.total == 0 <==> allQuestions == [])
            && ((forall i :: 0 <= i < |allQuestions| ==> allQuestions[i].completed) ==> c.remaining == 0)
            && ((forall i :: 0 <= i < |allQuestions| ==> !allQuestions[i].completed) ==> c.completed == 0)
  {
    DedupSize(allQuestions);
    DedupCompletion(allQuestions);
    CompletedCountAll(UniqueTitles(allQuestions));
  }

  /** Deduplication keeps at least one question of a non-empty list and never adds one. */
  lemma DedupSize(allQuestions: seq<Question>)
    ensures |UniqueTitles(allQuestions)| <= |allQuestions|
    ensures |UniqueTitles(allQuestions)| == 0 <==> allQuestions == []
  {
    var u := UniqueTitles(allQuestions);
    UniqueBySubseq(allQuestions, TitleKey);
    SubseqProperties(u, allQuestions);
    if allQuestions != [] {
      UniqueByCovers(allQuestions, TitleKey);
      assert TitleKey(allQuestions[0]) in Map(u, TitleKey);
    }
  }

  /** Every kept question is one of the fetched ones, with its completion flag. */
  lemma DedupCompletion(allQuestions: seq<Question>)
    ensures (forall i :: 0 <= i < |allQuestions| ==> allQuestions[i].completed) ==>
              forall j :: 0 <= j < |UniqueTitles(allQuestions)| ==> UniqueTitles(allQuestions)[j].completed
    ensures (forall i :: 0 <= i < |allQuestions| ==> !allQuestions[i].completed) ==>
              forall j :: 0 <= j < |UniqueTitles(allQuestions)| ==> !UniqueTitles(allQuestions)[j].completed
  {
    var u := UniqueTitles(allQuestions);
    UniqueBySubseq(allQuestions, TitleKey);
    SubseqProperties(u, allQuestions);
    forall j | 0 <= j < |u| ensures exists i :: 0 <= i < |allQuestions| && allQuestions[i] == u[j] {
      assert u[j] in allQuestions;
    }
  }
}
