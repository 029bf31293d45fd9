/**
 Which scraped tweets are daily reports, and which OCR routine reads each
 report's image. The scraper itself, image download and the OCR routines
 are outside the model; a tweet is its text (possibly missing) and its
 timestamp.
 */
module Selection {
  import opened Options
  import opened Text
  import opened Calendar
  import opened Seqs

  datatype Tweet = Tweet(text: Option<string>, time: DateTime)

  /** The text that marks the Ministry's daily report tweets. */
  const Marker: string := "Dzienny raport o"

  /**
   A tweet is kept when its text contains the marker. A missing text counts
   as not containing it (`na=False`); the marker has no regular-expression
   metacharacters, so pandas' pattern search is a plain substring search.
   */
  predicate IsReport(t: Tweet)
  {
    t.text.Some? && Contains(t.text.value, Marker)
  }

  /** The report table: the kept tweets, in scraping order. */
  function FilterReports(tweets: seq<Tweet>): seq<Tweet>
  {
    Filter(tweets, IsReport)
  }

  /**
   The report table holds exactly the tweets whose text contains the marker:
   each as often as in the scraped list, and in the scraped order (filtering
   distributes over concatenation).
   */
  lemma FilterReportsSpec(tweets: seq<Tweet>, more: seq<Tweet>, t: Tweet)
    ensures t in FilterReports(tweets) <==> t in tweets && t.text.Some? && Contains(t.text.value, Marker)
    ensures multiset(FilterReports(tweets))[t] == if IsReport(t) then multiset(tweets)[t] else 0
    ensures FilterReports(tweets + more) == FilterReports(tweets) + FilterReports(more)
    ensures FilterReports(FilterReports(tweets)) == FilterReports(tweets)
  {
    FilterMembership(tweets, IsReport);
    FilterCount(tweets, IsReport, t);
    FilterAppend(tweets, more, IsReport);
    FilterIdempotent(tweets, IsReport);
  }

  /** The moment the Ministry changed its image layout. */
  const Cutover: DateTime := DateTime(Date(2020, 4, 16), 9, 0, 34)

  datatype OcrRoutine = NewFormat | OldFormat

  /** The OCR routine for a tweet: the new-layout one unless the tweet predates the cut-over. */
  function RoutineFor(t: Tweet): OcrRoutine
  {
    if Before(t.time, Cutover) then OldFormat else NewFormat
  }

  /** The new-layout routine is used exactly for tweets posted at or after the cut-over instant. */
  lemma RoutineForCutover(t: Tweet)
    ensures RoutineFor(t) == NewFormat <==> t.time == Cutover || Before(Cutover, t.time)
    ensures RoutineFor(t) == OldFormat <==> Before(t.time, Cutover)
  {
    BeforeIsStrictTotalOrder(t.time, Cutover, t.time);
  }

  /** The routine choice is monotone in time: once the new layout applies, it applies to every later tweet. */
  lemma RoutineMonotone(a: Tweet, b: Tweet)
    requires RoutineFor(a) == NewFormat
    requires !Before(b.time, a.time)
    ensures RoutineFor(b) == NewFormat
  {
    BeforeIsStrictTotalOrder(b.time, a.time, Cutover);
    BeforeIsStrictTotalOrder(a.time, b.time, Cutover);
  }

  /** The numbers OCR reads off a report's image, by the routine its timestamp selects. */
  function OcrNumbers(t: Tweet, newOcr: Tweet -> seq<string>, oldOcr: Tweet -> seq<string>): seq<string>
  {
    match RoutineFor(t)
    case NewFormat => newOcr(t)
    case OldFormat => oldOcr(t)
  }

  /** The new-layout reading is used exactly at or after the cut-over, the old-layout one before it. */
  lemma OcrNumbersByCutover(t: Tweet, newOcr: Tweet -> seq<string>, oldOcr: Tweet -> seq<string>)
    ensures Before(t.time, Cutover) ==> OcrNumbers(t, newOcr, oldOcr) == oldOcr(t)
    ensures t.time == Cutover || Before(Cutover, t.time) ==> OcrNumbers(t, newOcr, oldOcr) == newOcr(t)
  {
    RoutineForCutover(t);
  }
}
