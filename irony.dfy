/** The news fetcher (IronyScout): cleans each GDELT article into a flat story
    record tagged with the caller's theme. The HTTP request itself is the
    `Response` it is given; `float(...)` on `avgtone` is abstracted to
    whether the value converts. */
module Irony {
  import opened Builtins

  /** What `float(value)` makes of a JSON `avgtone` value. */
  datatype ToneValue = Converts(number: real) | Unconvertible

  /** One element of the GDELT `articles` list, with the keys the fetcher reads. */
  datatype Article = Article(
    title: Field<string>,
    avgtone: Field<ToneValue>,
    sourceName: Field<string>,
    url: Field<string>,
    seendate: Field<string>)

  /** The cleaned record: keys Theme, Headline, Tone_Score, Source, URL and
      Date, always all present; None stands for a JSON null (or, for URL, a
      missing key) copied through. */
  datatype Story = Story(
    theme: string,
    headline: Option<string>,
    toneScore: real,
    source: Option<string>,
    url: Option<string>,
    date: string)

  const DateLength := 8

  /** `Tone_Score`: the converted `avgtone`; 0 when the key is missing (the
      default 0 converts to 0), when it is null (the `except` branch) or when
      it does not convert. */
  function ToneScore(avgtone: Field<ToneValue>): (tone: real)
    ensures avgtone.Present? && avgtone.value.Converts? ==> tone == avgtone.value.number
    ensures !(avgtone.Present? && avgtone.value.Converts?) ==> tone == 0.0
  {
    match avgtone
    case Absent => 0.0
    case Null => 0.0
    case Present(Unconvertible) => 0.0
    case Present(Converts(x)) => x
  }

  /** `Date`: `art.get("seendate", "")[:8]`; a null `seendate` cannot be
      sliced and raises TypeError, which nothing in the fetcher catches. */
  function SeenDate(seendate: Field<string>): (date: Result<string>)
    ensures date.Failure? <==> seendate.Null?
    ensures seendate.Absent? ==> date == Success("")
    ensures seendate.Present? ==>
              |date.value| == Min(DateLength, |seendate.value|) &&
              date.value == seendate.value[..|date.value|]
  {
    match Get(seendate, "")
    case None => Failure("TypeError")
    case Some(s) => Success(Take(s, DateLength))
  }

  /** The cleaned record of one article, or the exception its date raises:
      it raises exactly when `seendate` is null; otherwise a missing title
      reads "No Title" and a missing source name "Unknown", a null one is
      copied through as None, the URL is `art.get("url")` (None when missing
      or null), and the date is at most the first 8 characters of `seendate`. */
  function CleanArticle(theme: string, article: Article): (story: Result<Story>)
    ensures story.Failure? <==> article.seendate.Null?
    ensures story.Success? ==> story.value.theme == theme && story.value.toneScore == ToneScore(article.avgtone)
    ensures story.Success? && article.title.Absent? ==> story.value.headline == Some("No Title")
    ensures story.Success? && article.title.Null? ==> story.value.headline == None
    ensures story.Success? && article.title.Present? ==> story.value.headline == Some(article.title.value)
    ensures story.Success? && article.sourceName.Absent? ==> story.value.source == Some("Unknown")
    ensures story.Success? && article.sourceName.Null? ==> story.value.source == None
    ensures story.Success? && article.sourceName.Present? ==> story.value.source == Some(article.sourceName.value)
    ensures story.Success? && article.url.Present? ==> story.value.url == Some(article.url.value)
    ensures story.Success? && !article.url.Present? ==> story.value.url == None
    ensures story.Success? ==> |story.value.date| <= DateLength
    ensures story.Success? && article.seendate.Absent? ==> story.value.date == ""
    ensures story.Success? && article.seendate.Present? ==>
              |story.value.date| == Min(DateLength, |article.seendate.value|) &&
              story.value.date == article.seendate.value[..|story.value.date|]
  {
    match SeenDate(article.seendate)
    case Failure(e) => Failure(e)
    case Success(date) =>
      Success(Story(
        theme := theme,
        headline := Get(article.title, "No Title"),
        toneScore := ToneScore(article.avgtone),
        source := Get(article.sourceName, "Unknown"),
        url := Lookup(article.url),
        date := date))
  }

  /** The cleaning loop over `articles`: it raises exactly when some article
      has a null `seendate`; otherwise one story per article, in order, each
      tagged with `theme`. */
  function CleanArticles(theme: string, articles: seq<Article>): (stories: Result<seq<Story>>)
    ensures stories.Failure? <==> exists i :: 0 <= i < |articles| && articles[i].seendate.Null?
    ensures stories.Success? ==>
              |stories.value| == |articles| &&
              forall i :: 0 <= i < |articles| ==>
                CleanArticle(theme, articles[i]) == Success(stories.value[i]) &&
                stories.value[i].theme == theme
    decreases |articles|
  {
    if articles == [] then Success([])
    else
      match CleanArticle(theme, articles[0])
      case Failure(e) => Failure(e)
      case Success(story) =>
        match CleanArticles(theme, articles[1..])
        case Failure(e) => Failure(e)
        case Success(rest) => Success([story] + rest)
  }

  /** What `fetch_irony` returns or raises for a response: a failed request
      or an undecodable body (both inside the `try`) give no stories; a null
      `articles` raises; otherwise the cleaning loop. */
  function StoriesOf(theme: string, response: Response<Article>): Result<seq<Story>>
  {
    match response
    case RequestFailed => Success([])
    case Undecodable => Success([])
    case Decoded(Absent) => Success([])
    case Decoded(Null) => Failure("TypeError")
    case Decoded(Present(articles)) => CleanArticles(theme, articles)
  }

  /** The cleaning loop's invariant: the stories cleaned so far, then those
      of the remaining articles; it holds at the start ... */
  lemma CleanedStart(theme: string, articles: seq<Article>)
    ensures CleanArticles(theme, articles) == Continued([], CleanArticles(theme, articles[0..]))
  {
    assert articles[0..] == articles;
    if CleanArticles(theme, articles).Success? {
      assert [] + CleanArticles(theme, articles).value == CleanArticles(theme, articles).value;
    }
  }

  /** ... is kept by an article that cleans into `story` ... */
  lemma CleanedStep(theme: string, articles: seq<Article>, i: nat, done: seq<Story>, story: Story)
    requires i < |articles| && CleanArticle(theme, articles[i]) == Success(story)
    ensures Continued(done, CleanArticles(theme, articles[i..])) ==
              Continued(done + [story], CleanArticles(theme, articles[i + 1..]))
  {
    assert articles[i..][0] == articles[i] && articles[i..][1..] == articles[i + 1..];
    if CleanArticles(theme, articles[i + 1..]).Success? {
      var rest := CleanArticles(theme, articles[i + 1..]).value;
      assert done + ([story] + rest) == done + [story] + rest;
    }
  }

  /** ... stops at an article whose date raises ... */
  lemma CleanedFailure(theme: string, articles: seq<Article>, i: nat, done: seq<Story>)
    requires i < |articles| && CleanArticle(theme, articles[i]).Failure?
    ensures Continued(done, CleanArticles(theme, articles[i..])) == Failure(CleanArticle(theme, articles[i]).error)
  {
    assert articles[i..][0] == articles[i];
  }

  /** ... and after the last article yields every story. */
  lemma CleanedEnd(theme: string, articles: seq<Article>, done: seq<Story>)
    ensures Continued(done, CleanArticles(theme, articles[|articles|..])) == Success(done)
  {
    assert articles[|articles|..] == [];
    assert done + [] == done;
  }

  /** What `fetch_irony` does with each response: a failed request, an
      undecodable body or a missing `articles` give no stories; a null
      `articles` raises; otherwise it raises exactly when some article has
      a null `seendate`, and else gives one story per article, in order,
      each tagged with the theme. */
  lemma StoriesOfOutcome(theme: string, response: Response<Article>)
    ensures response.RequestFailed? || response.Undecodable? || response == Decoded(Absent) ==>
              StoriesOf(theme, response) == Success([])
    ensures response == Decoded(Null) ==> StoriesOf(theme, response).Failure?
    ensures response.Decoded? && response.records.Present? ==>
              (StoriesOf(theme, response).Failure? <==>
                 exists i :: 0 <= i < |response.records.value| && response.records.value[i].seendate.Null?)
    ensures response.Decoded? && response.records.Present? && StoriesOf(theme, response).Success? ==>
              |StoriesOf(theme, response).value| == |response.records.value| &&
              forall i :: 0 <= i < |response.records.value| ==>
                CleanArticle(theme, response.records.value[i]) == Success(StoriesOf(theme, response).value[i]) &&
                StoriesOf(theme, response).value[i].theme == theme
  {
  }

  /** `fetch_irony` after the request. */
  method FetchIrony(response: Response<Article>, theme: string) returns (stories: Result<seq<Story>>)
    ensures stories == StoriesOf(theme, response)
  {
    match response
    case RequestFailed =>
      return Success([]);
    case Undecodable =>
      return Success([]);
    case Decoded(records) =>
      if records.Absent? {
        return Success([]);
      } else if records.Null? {
        return Failure("TypeError");
      }
      var articles := records.value;
      var cleanResults: seq<Story> := [];
      CleanedStart(theme, articles);
      var i := 0;
      while i < |articles|
        invariant 0 <= i <= |articles|
        invariant CleanArticles(theme, articles) == Continued(cleanResults, CleanArticles(theme, articles[i..]))
      {
        var article := articles[i];
        var tone := ToneScore(article.avgtone);
        var date := SeenDate(article.seendate);
        if date.Failure? {
          CleanedFailure(theme, articles, i, cleanResults);
          return Failure(date.error);
        }
        var story := Story(
          theme := theme,
          headline := Get(article.title, "No Title"),
          toneScore := tone,
          source := Get(article.sourceName, "Unknown"),
          url := Lookup(article.url),
          date := date.value);
        CleanedStep(theme, articles, i, cleanResults, story);
        cleanResults := cleanResults + [story];
        i := i + 1;
      }
      CleanedEnd(theme, articles, cleanResults);
      return Success(cleanResults);
  }
}
