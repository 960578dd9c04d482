/** The repository and service tests' fixtures, replayed against the model. */
module TaskScenarios {
  import opened Wrappers
  import opened TaskModel
  import Strings
  import Seqs
  import Repo = TaskRepository
  import Service = TaskService

  /** The two rows the repository tests start from. */
  const Boot := Task(Some(1), Some("Spring Boot を学ぶ"), Some("TODO アプリを作る"), DONE)
  const Security := Task(Some(2), Some("Spring Security を学ぶ"), Some("ログイン機能を作る"), TODO)
  const Seed := Repo.Store([Boot, Security], 3)

  lemma SecurityLacksBoot()
    ensures !Strings.Contains("Spring Security を学ぶ", "Spring Boot")
  {
    var s, term := "Spring Security を学ぶ", "Spring Boot";
    forall i | 0 <= i && i + |term| <= |s|
      ensures !Strings.OccursAt(s, term, i)
    {
      assert s[i..i + |term|][7] == s[i + 7] != 'B' == term[7];
    }
    Strings.ContainsIffOccurs(s, term);
  }

  lemma SeedAll()
    ensures Repo.Valid(Seed)
    ensures Service.Find(Seed, SearchCriterion(None, Some([]))).result == [Boot, Security]
  {
    Repo.SelectUnfiltered(Seed, SearchCriterion(None, Some([])));
  }

  /** Filtering a two-row table, given which of the rows the criterion admits. */
  lemma TwoRowSelect(a: Task, b: Task, n: int, c: SearchCriterion)
    requires Repo.LikeSafe(c)
    ensures Repo.Select(Repo.Store([a, b], n), c) ==
      (if Repo.Matches(c, a) then [a] else []) + (if Repo.Matches(c, b) then [b] else [])
  {
    var p := Repo.Matching(c);
    Seqs.FilterCons(a, [b], p);
    Seqs.FilterCons(b, [], p);
    assert [b] == [b] + [];
    assert [a, b] == [a] + [b];
  }

  const BySummary := SearchCriterion(Some("Spring Boot"), Some([]))
  const ByTodo := SearchCriterion(None, Some([TODO]))
  const ByTodoOrDone := SearchCriterion(None, Some([TODO, DONE]))
  const BySummaryAndDone := SearchCriterion(Some("Spring"), Some([DONE]))

  lemma BySummaryMatches()
    ensures Repo.LikeSafe(BySummary)
    ensures Repo.Matches(BySummary, Boot) && !Repo.Matches(BySummary, Security)
  {
    BySummarySafe();
    assert Strings.IsPrefix("Spring Boot", "Spring Boot を学ぶ");
    SecurityLacksBoot();
  }

  lemma BySummarySafe()
    ensures Repo.LikeSafe(BySummary)
  {
    var s := "Spring Boot";
    assert s == "Spring" + " Boot";
    assert forall i :: 0 <= i < 6 ==> s[i] == "Spring"[i];
  }

  lemma BySummaryAndDoneMatches()
    ensures Repo.LikeSafe(BySummaryAndDone)
    ensures Repo.Matches(BySummaryAndDone, Boot) && !Repo.Matches(BySummaryAndDone, Security)
  {
    assert Strings.IsPrefix("Spring", "Spring Boot を学ぶ");
  }

  /** The repository test searching by summary alone. */
  lemma SeedBySummary()
    ensures Service.Find(Seed, BySummary).result == [Boot]
  {
    BySummaryMatches();
    TwoRowSelect(Boot, Security, 3, BySummary);
  }

  /** The repository test searching by one status. */
  lemma SeedByTodo()
    ensures Service.Find(Seed, ByTodo).result == [Security]
  {
    TwoRowSelect(Boot, Security, 3, ByTodo);
  }

  /** The repository test searching by two statuses, which combine with OR. */
  lemma SeedByTodoOrDone()
    ensures Service.Find(Seed, ByTodoOrDone).result == [Boot, Security]
  {
    TwoRowSelect(Boot, Security, 3, ByTodoOrDone);
  }

  /** The repository test searching by summary and status together. */
  lemma SeedBySummaryAndDone()
    ensures Service.Find(Seed, BySummaryAndDone).result == [Boot]
  {
    BySummaryAndDoneMatches();
    TwoRowSelect(Boot, Security, 3, BySummaryAndDone);
  }

  /** The repository tests looking up an existing and a missing id, and deleting row 1. */
  lemma SeedLookup()
    ensures Service.FindById(Seed, 1).result == Some(Boot)
    ensures Service.FindById(Seed, 999).result.None?
  {
    SeedAll();
    Repo.SelectByIdExact(Seed, 1, Boot);
  }

  /** Deleting id 1 from the fixture: id 1 is no longer found, and an unfiltered search
      returns the one remaining row, id 2. */
  lemma SeedDelete()
    ensures Service.FindById(Seed, 1).result.Some?
    ensures Service.Delete(Seed, 1).rows == [Security]
    ensures Service.FindById(Service.Delete(Seed, 1), 1).result.None?
    ensures Service.Find(Service.Delete(Seed, 1), SearchCriterion(None, Some([]))).result == [Security]
    ensures Security.id == Some(2)
  {
    SeedLookup();
    Repo.DeleteRemovesRow(Seed, 1, 0);
    Repo.SelectUnfiltered(Service.Delete(Seed, 1), SearchCriterion(None, Some([])));
  }
}
