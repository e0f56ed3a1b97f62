/** The records the tracker stores and derives: a question, a question before
    it is tagged with an id and a company, a company's aggregate, and one
    day's completion log entry. Dates are day numbers counted from
    1970-01-01 (UTC), the day `toISOString().split('T')[0]` names. */
module Types {

  /** A value that may be missing: an absent field reads as `undefined`. */
  datatype Option<T> = None | Some(value: T)

  /** The closed difficulty enumeration. */
  datatype Difficulty = Easy | Medium | Hard

  /** The string a difficulty is compared against in the filters. */
  function DifficultyName(d: Difficulty): string {
    match d
    case Easy => "Easy"
    case Medium => "Medium"
    case Hard => "Hard"
  }

  /** A numeric CSV field: `Zero` when the column or the value is absent,
      otherwise the value `parseFloat(text) || 0`, left uninterpreted. */
  datatype Numeric = Zero | FromText(text: string)

  /** A parsed CSV row: a question without `id` and `company`. */
  datatype Draft = Draft(
    difficulty: Difficulty,
    title: string,
    frequency: Numeric,
    acceptanceRate: Numeric,
    link: string,
    topics: seq<string>,
    completed: bool)

  datatype Question = Question(
    id: string,
    difficulty: Difficulty,
    title: string,
    frequency: Numeric,
    acceptanceRate: Numeric,
    link: string,
    topics: seq<string>,
    completed: bool,
    company: string)

  /** `{ ...draft, id, company }`. */
  function Tag(d: Draft, id: string, company: string): Question {
    Question(id, d.difficulty, d.title, d.frequency, d.acceptanceRate, d.link,
             d.topics, d.completed, company)
  }

  /** The draft a question was made from. */
  function Untag(q: Question): Draft {
    Draft(q.difficulty, q.title, q.frequency, q.acceptanceRate, q.link, q.topics, q.completed)
  }

  /** Tagging a draft and reading the draft back gives the draft. */
  lemma UntagTag(d: Draft, id: string, company: string)
    ensures Untag(Tag(d, id, company)) == d
    ensures Tag(d, id, company).id == id && Tag(d, id, company).company == company
  {
  }

  datatype CompanyData = CompanyData(
    name: string,
    questions: seq<Question>,
    totalQuestions: nat,
    completedQuestions: nat,
    easyCount: nat,
    mediumCount: nat,
    hardCount: nat)

  /** The ids completed on `date`, and `count`, which the store keeps equal to their number. */
  datatype DailyProgress = DailyProgress(date: int, count: int, questions: seq<string>)
}
