/** The fixture table returned when the user has no stored table yet. */
module ExampleData {
  import opened Tables
  import opened Classifier

  /** 2023-06-10, 1990-01-01 and 2023-03-31 as day numbers. */
  const Logged: Day := 19518
  const Placeholder: Day := 7305
  const SparkFinished: Day := 19447

  /** `EXAMPLE_DATA`; its date column is the older `current_date`, here the log date. */
  const Example: Table := [
    Row("marai-sandor-egy-polgar-vallomasai", "Egy polgar vallomasai", "", "Marai Sandor",
        "shelf", "Helikon", 1934, 512, 62, Some(Placeholder), "classic", "hungarian", "", "hu",
        true, false, Logged, None),
    Row("alfred-mill-personal-finance-101", "Personal Finance 101",
        "From saving and investing to taxes and loans, an essential primer on personal finance",
        "Alfred Mill", "coding/bigdata/scala/LearningSpark", "Adams Media", 2020, 252, 100,
        Some(Placeholder), "finance", "investing", "taxes", "en", true, false, Logged, None),
    Row("jules-s-damji-learning-spark", "Learning Spark", "Lightning-Fast Data Analytics",
        "Jules S. Damji", "knowledge101", "O'Reilly", 2020, 399, 399, Some(SparkFinished),
        "bigdata", "spark", "data engineering", "en", true, false, Logged, None)
  ]

  /** Every fixture row carries a finish date (the "unfinished" ones carry
      1990-01-01), so the classifier marks all three finished. */
  lemma ExampleAllFinished()
    ensures |Classified(Example)| == 3
    ensures forall i :: 0 <= i < 3 ==> Classified(Example)[i].state == Some(Finished)
  {
  }
}
