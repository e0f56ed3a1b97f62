/** The tracker's store (storage.ts): the question list and the daily
    progress log, the two values the browser keeps under its two storage
    keys, held here as the two fields of one object. Every operation reads
    the fields, computes, and writes them back; "today" is a parameter. */
module Storage {
  import opened Seqs
  import opened Types
  import opened CompanyStats
  import opened StoreQuestions
  import opened StoreProgress

  class Store {
    /** What `getStoredQuestions` reads and `saveQuestions` writes. */
    var questions: seq<Question>
    /** What `getDailyProgress` reads and `addToProgress` / `removeFromProgress` write. */
    var progress: seq<DailyProgress>

    /** A browser with nothing stored: both keys read back as empty lists. */
    constructor ()
      ensures questions == [] && progress == []
    {
      questions := [];
      progress := [];
    }

    /** `addQuestionsForCompany`: the batch, tagged with the company and
        fresh ids, is appended to the stored questions. */
    method AddQuestionsForCompany(companyName: string, newQuestions: seq<Draft>, newId: IdSource)
      modifies this
      ensures questions == old(questions) + Tagged(companyName, newQuestions, newId)
      ensures progress == old(progress)
    {
      var existing := questions;
      var questionsWithIds := Tagged(companyName, newQuestions, newId);
      questions := existing + questionsWithIds;
    }

    /** `getCompanyData`: the `forEach` that groups the questions by company
        in a `Map`, then one statistics record per entry, in insertion order. */
    method GetCompanyData() returns (result: seq<CompanyData>)
      ensures result == CompanyGroups(questions)
    {
      var qs := questions;
      var order: seq<string> := [];
      var companyMap: map<string, seq<Question>> := map[];
      for i := 0 to |qs|
        invariant order == CompanyNames(qs[..i])
        invariant Grouped(order, companyMap, qs[..i])
      {
        var q := qs[i];
        GroupMapStep(qs, i, order, companyMap);
        var existing := if q.company in companyMap then companyMap[q.company] else [];
        if q.company !in companyMap {
          order := order + [q.company];
        }
        companyMap := companyMap[q.company := existing + [q]];
      }
      assert qs[..|qs|] == qs;
      result := seq(|order|, j requires 0 <= j < |order| => Stats(order[j], companyMap[order[j]]));
      assert result == CompanyGroups(qs);
    }

    /** `getAllUniqueQuestions`: the `forEach` that keeps the first question
        of each normalised title in a `Map`, read back in insertion order. */
    method GetAllUniqueQuestions() returns (result: seq<Question>)
      ensures result == UniqueTitles(questions)
    {
      var qs := questions;
      var order: seq<string> := [];
      var uniqueMap: map<string, Question> := map[];
      for i := 0 to |qs|
        invariant order == Map(UniqueTitles(qs[..i]), TitleKey)
        invariant ReadsBack(order, uniqueMap, UniqueTitles(qs[..i]))
      {
        var q := qs[i];
        DedupStep(qs, i);
        var key := TitleKey(q);
        if key !in uniqueMap {
          ReadsBackInsert(order, uniqueMap, UniqueTitles(qs[..i]), key, q);
          uniqueMap := uniqueMap[key := q];
          order := order + [key];
        }
      }
      assert qs[..|qs|] == qs;
      result := seq(|order|, j requires 0 <= j < |order| => uniqueMap[order[j]]);
    }

    /** `toggleQuestionComplete`: flip the first question with the id and
        record the change in today's progress; an unknown id does nothing. */
    method ToggleQuestionComplete(questionId: string, today: int)
      modifies this
      ensures questions == ToggledQuestions(old(questions), questionId)
      ensures progress == ToggledProgress(old(questions), old(progress), today, questionId)
      ensures Consistent(old(progress)) ==> Consistent(progress)
    {
      var found := FindById(questions, questionId);
      if found.Some? {
        var k := found.value;
        var question := questions[k].(completed := !questions[k].completed);
        questions := questions[k := question];
        if question.completed {
          AddToProgress(questionId, today);
        } else {
          RemoveFromProgress(questionId, today);
        }
      }
    }

    /** `addToProgress`. */
    method AddToProgress(questionId: string, today: int)
      modifies this
      ensures progress == Added(old(progress), today, questionId)
      ensures questions == old(questions)
      ensures Consistent(old(progress)) ==> Consistent(progress)
    {
      AddedSpec(progress, today, questionId);
      var todayProgress := FindDate(progress, today);
      if todayProgress.Some? {
        var k := todayProgress.value;
        var entry := progress[k];
        if questionId !in entry.questions {
          var ids := entry.questions + [questionId];
          progress := progress[k := entry.(questions := ids, count := |ids|)];
        }
      } else {
        progress := progress + [DailyProgress(today, 1, [questionId])];
      }
    }

    /** `removeFromProgress`. */
    method RemoveFromProgress(questionId: string, today: int)
      modifies this
      ensures progress == Removed(old(progress), today, questionId)
      ensures questions == old(questions)
      ensures Consistent(old(progress)) ==> Consistent(progress)
    {
      RemovedSpec(progress, today, questionId);
      var todayProgress := FindDate(progress, today);
      if todayProgress.Some? {
        var k := todayProgress.value;
        var entry := progress[k];
        var ids := Filter(entry.questions, IdIsNot(questionId));
        progress := progress[k := entry.(questions := ids, count := |ids|)];
      }
    }

    /** `getStreak`: sort the active dates newest first, give up unless the
        newest is today or yesterday, then count one-day steps back. */
    method GetStreak(today: int) returns (streak: nat)
      ensures streak == Streak(progress, today)
    {
      if |progress| == 0 {
        return 0;
      }
      var sortedDates := SortDesc(ActiveDates(progress));
      if |sortedDates| == 0 {
        return 0;
      }
      var yesterday := today - 1;
      if sortedDates[0] != today && sortedDates[0] != yesterday {
        return 0;
      }
      streak := 1;
      for i := 1 to |sortedDates|
        invariant streak == i
        invariant RunFrom(sortedDates, i) == RunFrom(sortedDates, 1)
      {
        var diffDays := sortedDates[i - 1] - sortedDates[i];
        if diffDays == 1 {
          streak := streak + 1;
        } else {
          break;
        }
      }
    }

    /** `deleteCompany`: keep the questions of every other company. */
    method DeleteCompany(companyName: string)
      modifies this
      ensures questions == WithoutCompany(old(questions), companyName)
      ensures progress == old(progress)
    {
      var filtered := WithoutCompany(questions, companyName);
      questions := filtered;
    }

    /** `clearAllData`: both keys removed, so both lists read back empty. */
    method ClearAllData()
      modifies this
      ensures questions == [] && progress == []
    {
      questions := [];
      progress := [];
    }
  }

  /** The map of `getCompanyData` after the questions `qs`: its keys are the
      companies met so far, each holding the questions tagged with it. */
  ghost predicate Grouped(order: seq<string>, m: map<string, seq<Question>>, qs: seq<Question>) {
    m.Keys == (set n | n in order)
    && forall n :: n in m ==> m[n] == ByCompany(qs, n)
  }

  /** One more question extends its company's list, creating it (and
      recording the company) when the company is new. */
  lemma GroupMapStep(qs: seq<Question>, i: nat, order: seq<string>, m: map<string, seq<Question>>)
    requires i < |qs| && order == CompanyNames(qs[..i]) && Grouped(order, m, qs[..i])
    ensures var q := qs[i];
            var existing := if q.company in m then m[q.company] else [];
            var order' := if q.company in m then order else order + [q.company];
            order' == CompanyNames(qs[..i + 1]) && Grouped(order', m[q.company := existing + [q]], qs[..i + 1])
  {
    var q := qs[i];
    GroupStep(qs, i);
    assert (q.company in m) == (q.company in order);
    var existing := if q.company in m then m[q.company] else [];
    if q.company !in m {
      AbsentCompanyEmpty(qs[..i], q.company);
    }
    assert existing == ByCompany(qs[..i], q.company);
    var order' := if q.company in m then order else order + [q.company];
    var m' := m[q.company := existing + [q]];
    assert m'.Keys == (set n | n in order');
    forall n | n in m' ensures m'[n] == ByCompany(qs[..i + 1], n) {
      if n != q.company {
        assert m'[n] == m[n];
      }
    }
  }

  /** One more question extends its company's list and leaves the others. */
  lemma GroupStep(qs: seq<Question>, i: nat)
    requires i < |qs|
    ensures CompanyNames(qs[..i + 1]) ==
              if qs[i].company in CompanyNames(qs[..i]) then CompanyNames(qs[..i])
              else CompanyNames(qs[..i]) + [qs[i].company]
    ensures forall n :: ByCompany(qs[..i + 1], n) ==
              ByCompany(qs[..i], n) + (if qs[i].company == n then [qs[i]] else [])
  {
    assert qs[..i + 1] == qs[..i] + [qs[i]];
    UniqueByStep(qs[..i], qs[i], CompanyOf);
    forall n ensures ByCompany(qs[..i + 1], n) == ByCompany(qs[..i], n) + (if qs[i].company == n then [qs[i]] else []) {
      FilterConcat(qs[..i], [qs[i]], CompanyIs(n));
    }
  }
}
