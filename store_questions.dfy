/** The question list of the store, as values: what `addQuestionsForCompany`,
    `getCompanyData`, `getAllUniqueQuestions`, the toggle and `deleteCompany`
    in storage.ts compute from it, and what they promise. */
module StoreQuestions {
  import opened Seqs
  import opened Text
  import opened Types
  import opened CompanyStats

  // ---------------------------------------------------------------------------
  // Batch append
  // ---------------------------------------------------------------------------

  /** Where new ids come from: the id given to the draft at a position of a
      batch uploaded for a company. It stands for the template
      `${company}-${title}-${Date.now()}-${index}`, clock included. */
  type IdSource = (string, nat, Draft) -> string

  /** `newQuestions.map((q, index) => ({ ...q, id, company }))`. */
  function Tagged(company: string, drafts: seq<Draft>, newId: IdSource): (r: seq<Question>)
    ensures |r| == |drafts|
    ensures forall i :: 0 <= i < |r| ==> r[i].company == company
    ensures forall i :: 0 <= i < |r| ==> Untag(r[i]) == drafts[i]
    ensures forall i :: 0 <= i < |r| ==> r[i].id == newId(company, i, drafts[i])
  {
    var r := seq(|drafts|, i requires 0 <= i < |drafts| => Tag(drafts[i], newId(company, i, drafts[i]), company));
    assert forall i :: 0 <= i < |r| ==> Untag(r[i]) == drafts[i] && r[i].company == company
                                        && r[i].id == newId(company, i, drafts[i]) by {
      forall i | 0 <= i < |r|
        ensures Untag(r[i]) == drafts[i] && r[i].company == company && r[i].id == newId(company, i, drafts[i])
      {
        assert r[i] == Tag(drafts[i], newId(company, i, drafts[i]), company);
        UntagTag(drafts[i], newId(company, i, drafts[i]), company);
      }
    }
    r
  }

  function CompanyOf(q: Question): string {
    q.company
  }

  /** The test `q.company === name`. */
  function CompanyIs(name: string): Question -> bool {
    (q: Question) => q.company == name
  }

  /** The questions tagged with a company, in store order. */
  function ByCompany(qs: seq<Question>, name: string): seq<Question> {
    Filter(qs, CompanyIs(name))
  }

  /** A company's questions are exactly the store's questions with its tag, in store order. */
  lemma ByCompanySpec(qs: seq<Question>, name: string)
    ensures IsSubseq(ByCompany(qs, name), qs)
    ensures forall q :: q in ByCompany(qs, name) <==> q in qs && q.company == name
  {
    FilterIsSubseq(qs, CompanyIs(name));
    forall q ensures q in ByCompany(qs, name) <==> q in qs && q.company == name {
      FilterMembership(qs, CompanyIs(name), q);
    }
  }

  /** Appending a batch keeps the old questions as they were, adds exactly the
      batch, and gives the batch's company exactly the tagged batch on top of
      what it had, while every other company keeps its questions. */
  lemma AddBatchSpec(existing: seq<Question>, company: string, drafts: seq<Draft>, newId: IdSource)
    ensures var r := existing + Tagged(company, drafts, newId);
            |r| == |existing| + |drafts| && r[..|existing|] == existing
            && ByCompany(r, company) == ByCompany(existing, company) + Tagged(company, drafts, newId)
            && forall other :: other != company ==> ByCompany(r, other) == ByCompany(existing, other)
  {
    var batch := Tagged(company, drafts, newId);
    FilterConcat(existing, batch, CompanyIs(company));
    FilterKeepsAll(batch, CompanyIs(company));
    forall other | other != company
      ensures ByCompany(existing + batch, other) == ByCompany(existing, other)
    {
      FilterConcat(existing, batch, CompanyIs(other));
      FilterKeepsNone(batch, CompanyIs(other));
    }
  }

  // ---------------------------------------------------------------------------
  // Grouping by company
  // ---------------------------------------------------------------------------

  /** The keys of the `companyMap` after the `forEach`: the companies, in the
      order of their first question. */
  function CompanyNames(qs: seq<Question>): seq<string> {
    Map(UniqueBy(qs, CompanyOf), CompanyOf)
  }

  /** `getCompanyData`: one record per company, built from its questions. */
  function CompanyGroups(qs: seq<Question>): seq<CompanyData> {
    Map(CompanyNames(qs), (name: string) => Stats(name, ByCompany(qs, name)))
  }

  /** A company that no question carries has no questions. */
  lemma AbsentCompanyEmpty(qs: seq<Question>, name: string)
    requires name !in CompanyNames(qs)
    ensures ByCompany(qs, name) == []
  {
    UniqueByCovers(qs, CompanyOf);
    FilterKeepsNone(qs, CompanyIs(name));
  }

  /** There is one group per company a question carries and no other, the
      groups come in the order of each company's first question, each holds
      exactly its company's questions in store order, and each is a well
      formed, non-empty record. */
  lemma CompanyGroupsSpec(qs: seq<Question>) returns (firsts: seq<nat>)
    ensures var g := CompanyGroups(qs);
            |firsts| == |g|
            && (forall j :: 0 <= j < |g| ==>
                  IsFirstWithKey(qs, CompanyOf, firsts[j]) && g[j].name == qs[firsts[j]].company)
            && (forall j, j' :: 0 <= j < j' < |g| ==> firsts[j] < firsts[j'])
            && (forall i :: 0 <= i < |qs| ==> qs[i].company in CompanyNames(qs))
            && (forall j :: 0 <= j < |g| ==>
                  g[j].questions == ByCompany(qs, g[j].name) && g[j].questions != [] && WellFormed(g[j]))
  {
    var g := CompanyGroups(qs);
    firsts := UniqueByIndices(qs, CompanyOf);
    UniqueByCovers(qs, CompanyOf);
    forall j | 0 <= j < |g|
      ensures g[j].questions == ByCompany(qs, g[j].name) && g[j].questions != [] && WellFormed(g[j])
    {
      StatsWellFormed(g[j].name, ByCompany(qs, g[j].name));
      var q := qs[firsts[j]];
      FilterMembership(qs, CompanyIs(g[j].name), q);
    }
  }

  /** The company names are pairwise distinct. */
  lemma CompanyNamesDistinct(qs: seq<Question>)
    ensures forall j, j' :: 0 <= j < j' < |CompanyNames(qs)| ==> CompanyNames(qs)[j] != CompanyNames(qs)[j']
  {
    UniqueByDistinct(qs, CompanyOf);
  }

  /** The sum of the question counts of the given companies. */
  function CountOver(names: seq<string>, qs: seq<Question>): nat {
    if names == [] then 0
    else CountOver(names[..|names| - 1], qs) + |ByCompany(qs, names[|names| - 1])|
  }

  /** Adding a question adds one to the count of a list of distinct names
      exactly when the list holds its company. */
  lemma {:induction false} CountOverSnoc(names: seq<string>, qs: seq<Question>, q: Question)
    requires forall j, j' :: 0 <= j < j' < |names| ==> names[j] != names[j']
    ensures CountOver(names, qs + [q]) == CountOver(names, qs) + (if q.company in names then 1 else 0)
  {
    if names != [] {
      var init, last := names[..|names| - 1], names[|names| - 1];
      CountOverSnoc(init, qs, q);
      FilterConcat(qs, [q], CompanyIs(last));
      assert q.company in names <==> q.company in init || q.company == last by {
        assert names == init + [last];
      }
    }
  }

  /** The companies' question counts add up to the number of questions. */
  lemma {:induction false} CountOverAll(qs: seq<Question>)
    ensures CountOver(CompanyNames(qs), qs) == |qs|
  {
    if qs != [] {
      var p, q := qs[..|qs| - 1], qs[|qs| - 1];
      assert qs == p + [q];
      CountOverAll(p);
      UniqueByStep(p, q, CompanyOf);
      UniqueByDistinct(p, CompanyOf);
      var names := CompanyNames(p);
      CountOverSnoc(names, p, q);
      if q.company !in names {
        assert CompanyNames(qs) == names + [q.company];
        assert (names + [q.company])[..|names|] == names;
        AbsentCompanyEmpty(p, q.company);
        FilterConcat(p, [q], CompanyIs(q.company));
      }
    }
  }

  /** The sum of the totals of a list of records. */
  function SumTotals(groups: seq<CompanyData>): nat {
    if groups == [] then 0 else SumTotals(groups[..|groups| - 1]) + groups[|groups| - 1].totalQuestions
  }

  lemma {:induction false} SumTotalsCountOver(names: seq<string>, qs: seq<Question>)
    ensures SumTotals(Map(names, (name: string) => Stats(name, ByCompany(qs, name)))) == CountOver(names, qs)
  {
    if names != [] {
      var init := names[..|names| - 1];
      SumTotalsCountOver(init, qs);
      var f := (name: string) => Stats(name, ByCompany(qs, name));
      assert Map(names, f)[..|names| - 1] == Map(init, f);
    }
  }

  /** Every question is counted in exactly one group: the totals add up to
      the number of stored questions. */
  lemma CompanyTotalsSum(qs: seq<Question>)
    ensures SumTotals(CompanyGroups(qs)) == |qs|
  {
    SumTotalsCountOver(CompanyNames(qs), qs);
    CountOverAll(qs);
  }

  // ---------------------------------------------------------------------------
  // Deduplication by normalised title
  // ---------------------------------------------------------------------------

  /** `q.title.toLowerCase().trim()`. */
  function TitleKey(q: Question): string {
    Trim(ToLower(q.title))
  }

  /** `getAllUniqueQuestions`: the first question of each normalised title. */
  function UniqueTitles(qs: seq<Question>): seq<Question> {
    UniqueBy(qs, TitleKey)
  }

  /** The unique view is an order-preserving subsequence of the store, no two
      of its questions share a normalised title, every stored title is
      represented, and the question kept for a title is the first one stored
      with it; `firsts` lists where the kept questions sit in the store. */
  lemma UniqueTitlesSpec(qs: seq<Question>) returns (firsts: seq<nat>)
    ensures var u := UniqueTitles(qs);
            IsSubseq(u, qs) && |u| <= |qs|
            && (forall i, j :: 0 <= i < j < |u| ==> TitleKey(u[i]) != TitleKey(u[j]))
            && (forall i :: 0 <= i < |qs| ==> TitleKey(qs[i]) in Map(u, TitleKey))
            && |firsts| == |u|
            && (forall j :: 0 <= j < |u| ==> IsFirstWithKey(qs, TitleKey, firsts[j]) && u[j] == qs[firsts[j]])
            && (forall i :: IsFirstWithKey(qs, TitleKey, i) ==> i in firsts)
  {
    UniqueBySpec(qs, TitleKey);
    SubseqProperties(UniqueTitles(qs), qs);
    firsts := UniqueByIndices(qs, TitleKey);
  }

  /** One more question is kept exactly when its normalised title is new. */
  lemma DedupStep(qs: seq<Question>, i: nat)
    requires i < |qs|
    ensures UniqueTitles(qs[..i + 1]) ==
              if TitleKey(qs[i]) in Map(UniqueTitles(qs[..i]), TitleKey) then UniqueTitles(qs[..i])
              else UniqueTitles(qs[..i]) + [qs[i]]
    ensures Map(UniqueTitles(qs[..i + 1]), TitleKey) ==
              if TitleKey(qs[i]) in Map(UniqueTitles(qs[..i]), TitleKey) then Map(UniqueTitles(qs[..i]), TitleKey)
              else Map(UniqueTitles(qs[..i]), TitleKey) + [TitleKey(qs[i])]
  {
    assert qs[..i + 1] == qs[..i] + [qs[i]];
    UniqueByStep(qs[..i], qs[i], TitleKey);
  }

  // ---------------------------------------------------------------------------
  // Completion toggle (the question side)
  // ---------------------------------------------------------------------------

  /** `questions.find(q => q.id === id)`, as the position found. */
  function FindById(qs: seq<Question>, id: string): (r: Option<nat>)
    ensures r.None? <==> forall i :: 0 <= i < |qs| ==> qs[i].id != id
    ensures r.Some? ==> r.value < |qs| && qs[r.value].id == id
                        && forall i :: 0 <= i < r.value ==> qs[i].id != id
  {
    if qs == [] then None
    else if qs[0].id == id then Some(0)
    else match FindById(qs[1..], id)
      case None => None
      case Some(k) => Some(k + 1)
  }

  /** The question list after the toggle: the first question with the id has
      its `completed` flipped, and nothing happens for an unknown id. */
  function ToggledQuestions(qs: seq<Question>, id: string): (r: seq<Question>)
    ensures |r| == |qs|
  {
    match FindById(qs, id)
    case None => qs
    case Some(k) => qs[k := qs[k].(completed := !qs[k].completed)]
  }

  /** An unknown id leaves the list alone; a known one flips exactly the
      `completed` flag of the first question carrying it. */
  lemma ToggledQuestionsSpec(qs: seq<Question>, id: string)
    ensures FindById(qs, id).None? ==> ToggledQuestions(qs, id) == qs
    ensures FindById(qs, id).Some? ==>
              var k := FindById(qs, id).value;
              var r := ToggledQuestions(qs, id);
              r[k].completed == !qs[k].completed
              && r[k] == qs[k].(completed := r[k].completed)
              && forall i :: 0 <= i < |qs| && i != k ==> r[i] == qs[i]
  {
  }

  /** Toggling never changes which question an id finds. */
  lemma ToggleKeepsIds(qs: seq<Question>, id: string, other: string)
    ensures FindById(ToggledQuestions(qs, id), other) == FindById(qs, other)
  {
    var r := ToggledQuestions(qs, id);
    assert forall i :: 0 <= i < |qs| ==> r[i].id == qs[i].id;
    FindByIdSameIds(qs, r, other);
  }

  lemma {:induction false} FindByIdSameIds(a: seq<Question>, b: seq<Question>, id: string)
    requires |a| == |b| && forall i :: 0 <= i < |a| ==> a[i].id == b[i].id
    ensures FindById(a, id) == FindById(b, id)
  {
    if a != [] {
      FindByIdSameIds(a[1..], b[1..], id);
    }
  }

  /** Toggling the same id twice gives back the same list. */
  lemma ToggleTwiceQuestions(qs: seq<Question>, id: string)
    ensures ToggledQuestions(ToggledQuestions(qs, id), id) == qs
  {
    ToggleKeepsIds(qs, id, id);
  }

  // ---------------------------------------------------------------------------
  // Company deletion
  // ---------------------------------------------------------------------------

  /** The test `q.company !== name`. */
  function CompanyIsNot(name: string): Question -> bool {
    (q: Question) => q.company != name
  }

  /** `questions.filter(q => q.company !== companyName)`. */
  function WithoutCompany(qs: seq<Question>, name: string): seq<Question> {
    Filter(qs, CompanyIsNot(name))
  }

  /** Deleting a company removes exactly its questions and keeps the others in order. */
  lemma WithoutCompanySpec(qs: seq<Question>, name: string)
    ensures IsSubseq(WithoutCompany(qs, name), qs)
    ensures forall q :: q in WithoutCompany(qs, name) <==> q in qs && q.company != name
    ensures |WithoutCompany(qs, name)| + |ByCompany(qs, name)| == |qs|
  {
    FilterIsSubseq(qs, CompanyIsNot(name));
    forall q ensures q in WithoutCompany(qs, name) <==> q in qs && q.company != name {
      FilterMembership(qs, CompanyIsNot(name), q);
    }
    FilterComplement(qs, name);
  }

  lemma {:induction false} FilterComplement(qs: seq<Question>, name: string)
    ensures |WithoutCompany(qs, name)| + |ByCompany(qs, name)| == |qs|
  {
    if qs != [] {
      FilterComplement(qs[..|qs| - 1], name);
    }
  }

  /** After deletion the company has no questions. */
  lemma WithoutCompanyEmptiesIt(qs: seq<Question>, name: string)
    ensures ByCompany(WithoutCompany(qs, name), name) == []
  {
    var w := WithoutCompany(qs, name);
    forall i | 0 <= i < |w| ensures !CompanyIs(name)(w[i]) {
      assert CompanyIsNot(name)(w[i]);
    }
    FilterKeepsNone(w, CompanyIs(name));
  }

  /** Deleting again changes nothing. */
  lemma WithoutCompanyIdempotent(qs: seq<Question>, name: string)
    ensures WithoutCompany(WithoutCompany(qs, name), name) == WithoutCompany(qs, name)
  {
    FilterKeepsAll(WithoutCompany(qs, name), CompanyIsNot(name));
  }

  /** Every other company keeps exactly its questions. */
  lemma {:induction false} WithoutCompanyKeepsOthers(qs: seq<Question>, name: string, other: string)
    requires other != name
    ensures ByCompany(WithoutCompany(qs, name), other) == ByCompany(qs, other)
  {
    if qs != [] {
      var p, q := qs[..|qs| - 1], qs[|qs| - 1];
      assert qs == p + [q];
      WithoutCompanyKeepsOthers(p, name, other);
      var w := WithoutCompany(p, name);
      FilterConcat(p, [q], CompanyIs(other));
      FilterConcat(p, [q], CompanyIsNot(name));
      if q.company == name {
        assert WithoutCompany(qs, name) == w;
        assert Filter([q], CompanyIs(other)) == [];
      } else {
        assert WithoutCompany(qs, name) == w + [q];
        FilterConcat(w, [q], CompanyIs(other));
      }
    }
  }

  /** After deletion the company has no questions, every other company keeps
      exactly its questions, and deleting again changes nothing. */
  lemma WithoutCompanyEffect(qs: seq<Question>, name: string)
    ensures ByCompany(WithoutCompany(qs, name), name) == []
    ensures forall other :: other != name ==> ByCompany(WithoutCompany(qs, name), other) == ByCompany(qs, other)
    ensures WithoutCompany(WithoutCompany(qs, name), name) == WithoutCompany(qs, name)
  {
    WithoutCompanyEmptiesIt(qs, name);
    WithoutCompanyIdempotent(qs, name);
    forall other | other != name
      ensures ByCompany(WithoutCompany(qs, name), other) == ByCompany(qs, other)
    {
      WithoutCompanyKeepsOthers(qs, name, other);
    }
  }
}
