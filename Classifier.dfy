/** `classify` of extension/content.js: the kind of an item, read from
    keywords in its title. */
module Classifier {
  import opened Strings

  /** The kinds `classify` can return. */
  const Kinds: set<string> := {"exam", "quiz", "lab", "project", "assignment"}

  /** An alternation of at most three literals is the disjunction of their tests. */
  lemma MentionsUpToThree(t: string, keywords: seq<string>)
    requires |keywords| <= 3
    ensures Mentions(t, keywords) <==>
      (|keywords| > 0 && Contains(t, keywords[0])) || (|keywords| > 1 && Contains(t, keywords[1]))
      || (|keywords| > 2 && Contains(t, keywords[2]))
  {
  }

  const ExamWords: seq<string> := ["midterm", "final", "exam"]
  const QuizWords: seq<string> := ["quiz", "test"]

  /** `classify(title)`: the first rule whose keywords occur in the lower-cased
      title decides: exam words, then quiz words, then "lab", then "project",
      and "assignment" when none does. */
  function Classify(title: string): (k: string)
    ensures k in Kinds
    ensures k == "exam" <==> Mentions(Lower(title), ExamWords)
    ensures k == "quiz" <==> !Mentions(Lower(title), ExamWords) && Mentions(Lower(title), QuizWords)
    ensures k == "lab" <==>
      !Mentions(Lower(title), ExamWords) && !Mentions(Lower(title), QuizWords) && Contains(Lower(title), "lab")
    ensures k == "project" <==>
      !Mentions(Lower(title), ExamWords) && !Mentions(Lower(title), QuizWords) && !Contains(Lower(title), "lab")
      && Contains(Lower(title), "project")
    ensures k == "assignment" <==>
      !Mentions(Lower(title), ExamWords) && !Mentions(Lower(title), QuizWords) && !Contains(Lower(title), "lab")
      && !Contains(Lower(title), "project")
  {
    var t := Lower(title);
    MentionsUpToThree(t, ExamWords);
    MentionsUpToThree(t, QuizWords);
    if Contains(t, "midterm") || Contains(t, "final") || Contains(t, "exam") then "exam"
    else if Contains(t, "quiz") || Contains(t, "test") then "quiz"
    else if Contains(t, "lab") then "lab"
    else if Contains(t, "project") then "project"
    else "assignment"
  }

  /** A rule table and the first-match reading of it: the reference
      definition `classify` is an instance of. */
  function FirstRule(rules: seq<(seq<string>, string)>, t: string, otherwise: string): string
    decreases |rules|
  {
    if rules == [] then otherwise
    else if Mentions(t, rules[0].0) then rules[0].1
    else FirstRule(rules[1..], t, otherwise)
  }

  const Rules: seq<(seq<string>, string)> :=
    [(ExamWords, "exam"), (QuizWords, "quiz"), (["lab"], "lab"), (["project"], "project")]

  /** `classify` is the first-match reading of the rule table. */
  lemma ClassifyByRules(title: string)
    ensures Classify(title) == FirstRule(Rules, Lower(title), "assignment")
  {
    var t := Lower(title);
    MentionsUpToThree(t, ["lab"]);
    MentionsUpToThree(t, ["project"]);
    var r1, r2, r3 := Rules[1..], Rules[2..], Rules[3..];
    assert r1[1..] == r2 && r2[1..] == r3 && r3[1..] == [];
    assert FirstRule(r3, t, "assignment") == if Contains(t, "project") then "project" else "assignment";
    assert FirstRule(r2, t, "assignment") == if Contains(t, "lab") then "lab" else FirstRule(r3, t, "assignment");
    assert FirstRule(r1, t, "assignment") ==
      if Mentions(t, QuizWords) then "quiz" else FirstRule(r2, t, "assignment");
  }

  /** The test is case-insensitive: the title's ASCII case does not matter. */
  lemma ClassifyIgnoresCase(title: string)
    ensures Classify(Lower(title)) == Classify(title)
  {
    LowerIdempotent(title);
  }

  /** A title that mentions both a lab and a quiz, and no exam, is a quiz. */
  lemma LabQuizIsQuiz(title: string)
    requires !Mentions(Lower(title), ExamWords)
    requires Contains(Lower(title), "lab") && Contains(Lower(title), "quiz")
    ensures Classify(title) == "quiz"
  {
    assert Contains(Lower(title), QuizWords[0]);
  }
}
