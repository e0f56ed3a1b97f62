/** The per-company statistics record and the completion percentage. The
    record is built the same way by `getCompanyData` in storage.ts (one per
    group) and by the company page (CompanyQuestions.tsx) from the questions
    it fetched; the percentage is the formula the company page, the company
    card and the dashboard share. */
module CompanyStats {
  import opened Seqs
  import opened Types

  predicate IsCompleted(q: Question) {
    q.completed
  }

  /** `questions.filter(q => q.completed).length`. */
  function CompletedCount(qs: seq<Question>): nat {
    |Filter(qs, IsCompleted)|
  }

  /** `questions.filter(q => q.difficulty === d).length`. */
  function DifficultyCount(qs: seq<Question>, d: Difficulty): nat {
    |Filter(qs, (q: Question) => q.difficulty == d)|
  }

  /** The `CompanyData` object literal built from a company's questions. */
  function Stats(name: string, qs: seq<Question>): CompanyData {
    CompanyData(
      name, qs, |qs|, CompletedCount(qs),
      DifficultyCount(qs, Easy), DifficultyCount(qs, Medium), DifficultyCount(qs, Hard))
  }

  /** The aggregates a `CompanyData` must always satisfy. */
  predicate WellFormed(c: CompanyData) {
    c.totalQuestions == |c.questions|
    && c.easyCount + c.mediumCount + c.hardCount == c.totalQuestions
    && c.completedQuestions <= c.totalQuestions
  }

  /** Every question falls in exactly one difficulty class. */
  lemma {:induction false} DifficultyPartition(qs: seq<Question>)
    ensures DifficultyCount(qs, Easy) + DifficultyCount(qs, Medium) + DifficultyCount(qs, Hard) == |qs|
  {
    if qs != [] {
      DifficultyPartition(qs[..|qs| - 1]);
    }
  }

  /** The record built from any list of questions is well formed: its total is
      the list's length, the three difficulty counts add up to it, and the
      completed count does not exceed it. */
  lemma StatsWellFormed(name: string, qs: seq<Question>)
    ensures var c := Stats(name, qs);
            WellFormed(c) && c.name == name && c.questions == qs && c.totalQuestions == |qs|
  {
    DifficultyPartition(qs);
  }

  /** The completed count is the number of positions holding a completed question. */
  lemma {:induction false} CompletedCountAll(qs: seq<Question>)
    ensures (forall i :: 0 <= i < |qs| ==> qs[i].completed) ==> CompletedCount(qs) == |qs|
    ensures (forall i :: 0 <= i < |qs| ==> !qs[i].completed) ==> CompletedCount(qs) == 0
  {
    if forall i :: 0 <= i < |qs| ==> qs[i].completed {
      FilterKeepsAll(qs, IsCompleted);
    }
    if forall i :: 0 <= i < |qs| ==> !qs[i].completed {
      FilterKeepsNone(qs, IsCompleted);
    }
  }

  /** `total > 0 ? Math.round((completed / total) * 100) : 0`, with the
      rounding done on exact ratios: the nearest integer, halves rounded up. */
  function CompletionPercentage(completed: nat, total: nat): (r: int)
    ensures total == 0 ==> r == 0
    ensures total > 0 ==> 2 * total * r <= 200 * completed + total < 2 * total * r + 2 * total
  {
    if total > 0 then (200 * completed + total) / (2 * total) else 0
  }

  /** For a real company record the percentage is a percentage: between 0 and
      100, 0 when nothing is completed and 100 when everything is. */
  lemma PercentageBounds(completed: nat, total: nat)
    requires completed <= total
    ensures 0 <= CompletionPercentage(completed, total) <= 100
    ensures completed == 0 ==> CompletionPercentage(completed, total) == 0
    ensures 0 < total == completed ==> CompletionPercentage(completed, total) == 100
  {
    var r := CompletionPercentage(completed, total);
    if total > 0 {
      var k := 2 * total;
      MulStrict(k, -1, r);
      MulStrict(k, r, 101);
      MulStrict(k, r, 1);
      MulStrict(k, 99, r);
      assert k * (r + 1) == k * r + k;
      MulStrict(k, r, r + 1);
    }
  }

  /** Multiplying by a positive factor keeps strict order, both ways. */
  lemma MulStrict(k: int, a: int, b: int)
    requires k > 0
    ensures k * a < k * b <==> a < b
  {
    if a < b {
      assert k * b - k * a == k * (b - a);
    } else {
      assert k * a - k * b == k * (a - b);
    }
  }

  /** Completing more questions never lowers the percentage. */
  lemma PercentageMonotone(c1: nat, c2: nat, total: nat)
    requires c1 <= c2
    ensures CompletionPercentage(c1, total) <= CompletionPercentage(c2, total)
  {
    if total > 0 {
      var k := 2 * total;
      var r1, r2 := CompletionPercentage(c1, total), CompletionPercentage(c2, total);
      assert k * (r2 + 1) == k * r2 + k;
      MulStrict(k, r1, r2 + 1);
    }
  }

  /** The percentage of a company record, 0 for a company with no questions. */
  lemma StatsPercentage(name: string, qs: seq<Question>)
    ensures var c := Stats(name, qs);
            0 <= CompletionPercentage(c.completedQuestions, c.totalQuestions) <= 100
    ensures qs == [] ==> CompletionPercentage(Stats(name, qs).completedQuestions, Stats(name, qs).totalQuestions) == 0
    ensures qs != [] && (forall i :: 0 <= i < |qs| ==> qs[i].completed) ==>
              CompletionPercentage(Stats(name, qs).completedQuestions, Stats(name, qs).totalQuestions) == 100
  {
    CompletedCountAll(qs);
    PercentageBounds(CompletedCount(qs), |qs|);
  }
}
