/** The ingestion job: runs every science query and every news query,
    normalises each fetched record into a storage item with a
    content-derived id, and saves the whole batch. SHA-256 is the `digest`
    parameter and `datetime.utcnow()` the `clock` parameter: the item built
    k-th in the batch is stamped `clock(k)`, and the save step reads
    `clock(n + k)` for the k-th item of an n-item batch. */
module Ingest {
  import opened Builtins
  import Science
  import Irony
  import Storage

  // ---------------------------------------------------------------------
  // Item ids
  // ---------------------------------------------------------------------

  /** `part.strip().lower()` */
  function Canonical(part: string): string
  {
    Lower(Strip(part))
  }

  /** The parts that enter the id payload: the truthy ones, canonicalised,
      in order. */
  function KeptParts(parts: seq<Option<string>>): seq<string>
  {
    if parts == [] then []
    else (if Truthy(parts[0]) then [Canonical(parts[0].value)] else []) + KeptParts(parts[1..])
  }

  const Separator := "||"

  /** The string `_make_item_id` hashes. */
  function IdPayload(parts: seq<Option<string>>): string
  {
    Join(Separator, KeptParts(parts))
  }

  /** `_make_item_id`: the digest of the payload. */
  function MakeItemId(digest: string -> string, parts: seq<Option<string>>): string
  {
    digest(IdPayload(parts))
  }

  /** What `_make_item_id` hashes: when every part is truthy, the parts,
      stripped and lower-cased, joined by "||"; when none is, the empty
      string. */
  lemma MakeItemIdPayload(digest: string -> string, parts: seq<Option<string>>)
    ensures (forall i :: 0 <= i < |parts| ==> Truthy(parts[i])) ==>
              MakeItemId(digest, parts) ==
                digest(Join(Separator, seq(|parts|, i requires 0 <= i < |parts| && Truthy(parts[i]) =>
                                             Canonical(parts[i].value))))
    ensures (forall i :: 0 <= i < |parts| ==> !Truthy(parts[i])) ==> MakeItemId(digest, parts) == digest("")
  {
    if forall i :: 0 <= i < |parts| ==> Truthy(parts[i]) {
      KeptPartsAllTruthy(parts);
      var segments := seq(|parts|, i requires 0 <= i < |parts| && Truthy(parts[i]) => Canonical(parts[i].value));
      assert KeptParts(parts) == segments;
      assert IdPayload(parts) == Join(Separator, segments);
    }
    if forall i :: 0 <= i < |parts| ==> !Truthy(parts[i]) {
      KeptPartsNoneTruthy(parts);
    }
  }

  lemma {:induction false} KeptPartsNoneTruthy(parts: seq<Option<string>>)
    requires forall i :: 0 <= i < |parts| ==> !Truthy(parts[i])
    ensures KeptParts(parts) == []
  {
    if parts != [] {
      assert forall i :: 0 <= i < |parts[1..]| ==> parts[1..][i] == parts[i + 1];
      KeptPartsNoneTruthy(parts[1..]);
    }
  }

  lemma {:induction false} KeptPartsAppend(a: seq<Option<string>>, b: seq<Option<string>>)
    ensures KeptParts(a + b) == KeptParts(a) + KeptParts(b)
  {
    if a != [] {
      assert (a + b)[0] == a[0] && (a + b)[1..] == a[1..] + b;
      KeptPartsAppend(a[1..], b);
    } else {
      assert a + b == b;
    }
  }

  /** When every part is truthy, each one becomes one canonical segment. */
  lemma {:induction false} KeptPartsAllTruthy(parts: seq<Option<string>>)
    requires forall i :: 0 <= i < |parts| ==> Truthy(parts[i])
    ensures |KeptParts(parts)| == |parts|
    ensures forall i :: 0 <= i < |parts| ==> parts[i].Some? && KeptParts(parts)[i] == Canonical(parts[i].value)
  {
    if parts != [] {
      KeptPartsAllTruthy(parts[1..]);
      var kept := KeptParts(parts);
      assert kept == [Canonical(parts[0].value)] + KeptParts(parts[1..]);
      forall i | 1 <= i < |parts| ensures kept[i] == Canonical(parts[i].value) {
        assert kept[i] == KeptParts(parts[1..])[i - 1];
        assert parts[1..][i - 1] == parts[i];
      }
    }
  }

  /** A None or empty part contributes nothing: inserting one anywhere
      leaves the id unchanged, so `[a, None, b]` and `[a, b]` collide. */
  lemma IdSkipsFalsyParts(digest: string -> string, a: seq<Option<string>>, x: Option<string>, b: seq<Option<string>>)
    requires !Truthy(x)
    ensures MakeItemId(digest, a + [x] + b) == MakeItemId(digest, a + b)
  {
    KeptPartsAppend(a + [x], b);
    KeptPartsAppend(a, [x]);
    KeptPartsAppend(a, b);
    assert [x][1..] == [];
    assert KeptParts([x]) == [];
    assert KeptParts(a) + [] == KeptParts(a);
  }

  /** Two part lists agreeing on which parts are truthy and on the
      canonical form of each truthy part get the same id. */
  lemma {:induction false} IdDependsOnlyOnCanonical(digest: string -> string, p: seq<Option<string>>, q: seq<Option<string>>)
    requires |p| == |q|
    requires forall i :: 0 <= i < |p| ==>
               Truthy(p[i]) == Truthy(q[i]) && (Truthy(p[i]) ==> Canonical(p[i].value) == Canonical(q[i].value))
    ensures KeptParts(p) == KeptParts(q)
    ensures MakeItemId(digest, p) == MakeItemId(digest, q)
  {
    if p != [] {
      IdDependsOnlyOnCanonical(digest, p[1..], q[1..]);
    }
  }

  /** Surrounding whitespace and letter case do not reach the canonical form. */
  lemma CanonicalIgnoresCaseAndPadding(lead: string, s: string, trail: string, t: string)
    requires IsBlank(lead) && IsBlank(trail)
    requires Lower(s) == Lower(t)
    ensures Canonical(lead + s + trail) == Canonical(t)
  {
    StripPadded(lead, s, trail);
    LowerStrip(s);
    LowerStrip(t);
  }

  /** Hence part lists that differ only in letter case and surrounding
      whitespace get the same id: each truthy part of `q` is a part of `p`,
      up to case, padded with blanks. Padding can make an empty part truthy,
      so the two lists must agree on which parts are truthy. */
  lemma IdIgnoresCaseAndPadding(digest: string -> string, p: seq<Option<string>>, q: seq<Option<string>>,
                                lead: seq<string>, mid: seq<string>, trail: seq<string>)
    requires |p| == |q| == |lead| == |mid| == |trail|
    requires forall i :: 0 <= i < |p| ==> IsBlank(lead[i]) && IsBlank(trail[i])
    requires forall i :: 0 <= i < |p| ==> Truthy(q[i]) == Truthy(p[i])
    requires forall i :: 0 <= i < |p| ==>
               Truthy(p[i]) && Truthy(q[i]) ==>
                 q[i].value == lead[i] + mid[i] + trail[i] && Lower(mid[i]) == Lower(p[i].value)
    ensures MakeItemId(digest, q) == MakeItemId(digest, p)
  {
    forall i | 0 <= i < |p| && Truthy(q[i]) ensures Canonical(q[i].value) == Canonical(p[i].value) {
      CanonicalIgnoresCaseAndPadding(lead[i], mid[i], trail[i], p[i].value);
    }
    IdDependsOnlyOnCanonical(digest, q, p);
  }

  /** For instance, " A " and "a" give the same id. */
  lemma PaddedCapitalSameId(digest: string -> string)
    ensures MakeItemId(digest, [Some(" A ")]) == MakeItemId(digest, [Some("a")])
  {
    assert Lower("A") == Lower("a") by {
      assert LowerChar('A') == 'a';
    }
    assert " A " == " " + "A" + " ";
    IdIgnoresCaseAndPadding(digest, [Some("a")], [Some(" A ")], [" "], ["A"], [" "]);
  }

  /** A whitespace-only part is truthy, so it is kept as an empty segment,
      while an empty part is dropped. */
  lemma BlankPartKept()
    ensures IdPayload([Some("a"), Some(" "), Some("b")]) == "a||||b"
    ensures IdPayload([Some("a"), Some(""), Some("b")]) == "a||b"
  {
    assert Strip(" ") == "" by {
      assert TrimLeft(" ") == TrimLeft(" "[1..]);
      assert " "[1..] == "";
    }
    assert Canonical("a") == "a" && Canonical("b") == "b";
    assert KeptParts([Some("b")]) == ["b"];
    assert KeptParts([Some(" "), Some("b")]) == ["", "b"];
    assert KeptParts([Some(""), Some("b")]) == ["b"];
  }

  /** Nothing keeps the separator out of the parts: one part containing it
      and the two parts around it give the same payload. */
  lemma SeparatorCollision()
    ensures IdPayload([Some("a||b")]) == IdPayload([Some("a"), Some("b")])
  {
    assert Canonical("a||b") == "a||b";
    assert Canonical("a") == "a" && Canonical("b") == "b";
    assert KeptParts([Some("b")]) == ["b"];
  }

  // ---------------------------------------------------------------------
  // Normalisation
  // ---------------------------------------------------------------------

  /** `_normalize_science_item`. The cleaned paper always carries the keys
      Headline, Journal and URL, so their `.get` defaults never apply. */
  function NormalizeScience(topic: string, paper: Science.Paper, now: string, digest: string -> string): (item: Storage.Item)
    ensures item.id == MakeItemId(digest, [Some(topic), paper.headline, Some(paper.url), paper.date])
    ensures item.itemType == "science" && item.topic == topic && item.tone.None?
    ensures item.headline == paper.headline && item.source == paper.journal
    ensures item.publishedDate == paper.date && item.summary == Some(paper.abstractSnippet)
    ensures item.url == Some(paper.url) && item.createdAt == Some(now)
  {
    Storage.Item(
      id := MakeItemId(digest, [Some(topic), paper.headline, Some(paper.url), paper.date]),
      itemType := "science",
      topic := topic,
      headline := paper.headline,
      source := paper.journal,
      publishedDate := paper.date,
      summary := Some(paper.abstractSnippet),
      url := Some(paper.url),
      tone := None,
      createdAt := Some(now))
  }

  /** `_normalize_irony_item`. The cleaned story always carries the keys
      Headline, Source and Tone_Score, so their `.get` defaults never apply. */
  function NormalizeIrony(theme: string, story: Irony.Story, now: string, digest: string -> string): (item: Storage.Item)
    ensures item.id == MakeItemId(digest, [Some(theme), story.headline, story.url, Some(story.date)])
    ensures item.itemType == "society" && item.topic == theme && item.summary.None?
    ensures item.headline == story.headline && item.source == story.source
    ensures item.publishedDate == Some(story.date) && item.tone == Some(story.toneScore)
    ensures item.url == story.url && item.createdAt == Some(now)
  {
    Storage.Item(
      id := MakeItemId(digest, [Some(theme), story.headline, story.url, Some(story.date)]),
      itemType := "society",
      topic := theme,
      headline := story.headline,
      source := story.source,
      publishedDate := Some(story.date),
      summary := None,
      url := story.url,
      tone := Some(story.toneScore),
      createdAt := Some(now))
  }

  /** From an OpenAlex work to its item: a missing title reads "No Title",
      a missing location or source reads "Unknown Source", and the item can
      be stored exactly when neither the title nor the source's display
      name is JSON null. */
  lemma ScienceItemOfWork(topic: string, work: Science.Work, now: string, digest: string -> string)
    ensures var item := NormalizeScience(topic, Science.CleanWork(work), now, digest);
            && item.itemType == "science"
            && (work.title.Absent? ==> item.headline == Some("No Title"))
            && (work.title.Present? ==> item.headline == Some(work.title.value))
            && (!work.primaryLocation.Present? ==> item.source == Some("Unknown Source"))
            && (Storage.Insertable(item) <==>
                  !work.title.Null? && Science.JournalName(work.primaryLocation).Some?)
            && item.url.Some? && item.url.value != ""
  {
  }

  /** From a GDELT article to its item: a missing title reads "No Title",
      a missing source name "Unknown", the tone is the converted `avgtone`,
      and the item can be stored exactly when neither the title nor the
      source name is JSON null. */
  lemma SocietyItemOfArticle(theme: string, article: Irony.Article, now: string, digest: string -> string)
    requires Irony.CleanArticle(theme, article).Success?
    ensures var item := NormalizeIrony(theme, Irony.CleanArticle(theme, article).value, now, digest);
            && item.itemType == "society"
            && (article.title.Absent? ==> item.headline == Some("No Title"))
            && (article.sourceName.Absent? ==> item.source == Some("Unknown"))
            && item.tone == Some(Irony.ToneScore(article.avgtone))
            && (Storage.Insertable(item) <==> !article.title.Null? && !article.sourceName.Null?)
  {
  }

  /** Both kinds hash (topic, headline, URL, date) in that order, so a paper
      and a story that agree on those get the same id, and whichever is
      saved second is ignored. */
  lemma SameIdAcrossKinds(topic: string, paper: Science.Paper, story: Irony.Story,
                          now: string, later: string, digest: string -> string)
    requires story.headline == paper.headline && story.url == Some(paper.url)
    requires paper.date == Some(story.date)
    ensures NormalizeScience(topic, paper, now, digest).id == NormalizeIrony(topic, story, later, digest).id
  {
  }

  // ---------------------------------------------------------------------
  // Assembly
  // ---------------------------------------------------------------------

  /** The science queries: (topic, OpenAlex search), in dict order. */
  const ScienceQueries: seq<(string, string)> := [
    ("Mechanics of Consciousness", "mitochondria AND sleep"),
    ("Ecological Intelligence", "plant signaling"),
    ("Quantum Bridges", "quantum biology")]

  /** The news queries: (theme, GDELT search), in dict order. */
  const IronyQueries: seq<(string, string)> := [
    ("The Tech Trap", "\"Artificial Intelligence\" (risk OR error)"),
    ("The Expensive Failure", "budget (waste OR cost OR delay)"),
    ("The Green Dilemma", "environment (problem OR crisis)")]

  /** Pairs each record with the label of the query that fetched it. */
  function Tagged<T>(tag: string, records: seq<T>): seq<(string, T)>
  {
    seq(|records|, i requires 0 <= i < |records| => (tag, records[i]))
  }

  /** Running each (label, query) in order: the first fetch that raises
      ends the run with its exception; otherwise all records, each tagged
      with its label, query after query. */
  function Gathered<T>(fetch: ((string, string)) -> Result<seq<T>>, queries: seq<(string, string)>): Result<seq<(string, T)>>
  {
    if queries == [] then Success([])
    else
      match fetch(queries[0])
      case Failure(e) => Failure(e)
      case Success(records) =>
        match Gathered(fetch, queries[1..])
        case Failure(e) => Failure(e)
        case Success(rest) => Success(Tagged(queries[0].0, records) + rest)
  }

  /** The run succeeds exactly when every fetch does ... */
  lemma {:induction false} GatheredSucceeds<T>(fetch: ((string, string)) -> Result<seq<T>>, queries: seq<(string, string)>)
    ensures Gathered(fetch, queries).Success? <==>
              forall i :: 0 <= i < |queries| ==> fetch(queries[i]).Success?
  {
    if queries != [] {
      GatheredSucceeds(fetch, queries[1..]);
      assert forall i :: 1 <= i < |queries| ==> queries[1..][i - 1] == queries[i];
    }
  }

  /** ... raises the exception of the first fetch that raises ... */
  lemma {:induction false} GatheredFirstFailure<T>(fetch: ((string, string)) -> Result<seq<T>>, queries: seq<(string, string)>)
    requires Gathered(fetch, queries).Failure?
    ensures exists i :: 0 <= i < |queries| && fetch(queries[i]).Failure? &&
              Gathered(fetch, queries).error == fetch(queries[i]).error &&
              forall j :: 0 <= j < i ==> fetch(queries[j]).Success?
  {
    if fetch(queries[0]).Failure? {
      assert Gathered(fetch, queries).error == fetch(queries[0]).error;
    } else {
      GatheredFirstFailure(fetch, queries[1..]);
      var tail := queries[1..];
      var i :| 0 <= i < |tail| && fetch(tail[i]).Failure? &&
               Gathered(fetch, tail).error == fetch(tail[i]).error &&
               forall j :: 0 <= j < i ==> fetch(tail[j]).Success?;
      assert tail[i] == queries[i + 1];
      forall j | 0 <= j < i + 1 ensures fetch(queries[j]).Success? {
        if j > 0 {
          assert tail[j - 1] == queries[j];
        }
      }
    }
  }

  /** ... and on success holds exactly the fetched records, each under its
      own query's label. */
  lemma {:induction false} GatheredRecords<T>(fetch: ((string, string)) -> Result<seq<T>>, queries: seq<(string, string)>,
                                             r: (string, T))
    requires Gathered(fetch, queries).Success?
    ensures r in Gathered(fetch, queries).value <==>
              exists i :: 0 <= i < |queries| && fetch(queries[i]).Success? &&
                r.0 == queries[i].0 && r.1 in fetch(queries[i]).value
  {
    if queries != [] {
      var tail := queries[1..];
      var records := fetch(queries[0]).value;
      var head := Tagged(queries[0].0, records);
      var rest := Gathered(fetch, tail).value;
      GatheredRecords(fetch, tail, r);
      assert Gathered(fetch, queries).value == head + rest;
      if r in head {
        var k :| 0 <= k < |head| && head[k] == r;
        assert r.1 == records[k];
      } else if r in rest {
        var i :| 0 <= i < |tail| && fetch(tail[i]).Success? && r.0 == tail[i].0 && r.1 in fetch(tail[i]).value;
        assert tail[i] == queries[i + 1];
      }
      if exists i :: 0 <= i < |queries| && fetch(queries[i]).Success? && r.0 == queries[i].0 && r.1 in fetch(queries[i]).value {
        var i :| 0 <= i < |queries| && fetch(queries[i]).Success? && r.0 == queries[i].0 && r.1 in fetch(queries[i]).value;
        if i == 0 {
          var k :| 0 <= k < |records| && records[k] == r.1;
          assert head[k] == r;
        } else {
          assert tail[i - 1] == queries[i];
        }
      }
    }
  }

  /** `fetch_papers(query, days_back)` as seen by the run. */
  function SciencePapers(scienceApi: (string, int) -> Response<Science.Work>, daysBack: int): ((string, string)) -> Result<seq<Science.Paper>>
  {
    (q: (string, string)) => Science.PapersOf(scienceApi(q.1, daysBack))
  }

  /** `fetch_irony(query, theme)` as seen by the run. */
  function IronyStories(ironyApi: string -> Response<Irony.Article>): ((string, string)) -> Result<seq<Irony.Story>>
  {
    (q: (string, string)) => Irony.StoriesOf(q.0, ironyApi(q.1))
  }

  /** The science items: record k is normalised at time `clock(k)`. */
  function ScienceItems(records: seq<(string, Science.Paper)>, clock: nat -> string, digest: string -> string): seq<Storage.Item>
  {
    seq(|records|, k requires 0 <= k < |records| => NormalizeScience(records[k].0, records[k].1, clock(k), digest))
  }

  /** The society items, normalised after `start` earlier items. */
  function SocietyItems(records: seq<(string, Irony.Story)>, start: nat, clock: nat -> string, digest: string -> string): seq<Storage.Item>
  {
    seq(|records|, k requires 0 <= k < |records| => NormalizeIrony(records[k].0, records[k].1, clock(start + k), digest))
  }

  /** The batch built from the gathered records: the science items, then
      the society items, the clock read once per item in that order. */
  function Batch(papers: seq<(string, Science.Paper)>, stories: seq<(string, Irony.Story)>,
                 clock: nat -> string, digest: string -> string): seq<Storage.Item>
  {
    ScienceItems(papers, clock, digest) + SocietyItems(stories, |papers|, clock, digest)
  }

  /** The batch `ingest` hands to `save_items`, or the exception that stops it. */
  function IngestItems(scienceApi: (string, int) -> Response<Science.Work>, ironyApi: string -> Response<Irony.Article>,
                       daysBack: int, clock: nat -> string, digest: string -> string): Result<seq<Storage.Item>>
  {
    match Gathered(SciencePapers(scienceApi, daysBack), ScienceQueries)
    case Failure(e) => Failure(e)
    case Success(papers) =>
      match Gathered(IronyStories(ironyApi), IronyQueries)
      case Failure(e) => Failure(e)
      case Success(stories) => Success(Batch(papers, stories, clock, digest))
  }

  /** The batch holds one item per gathered record: every science item,
      in query order, then every society item; each tagged with its own
      query's topic or theme. */
  lemma BatchLayout(papers: seq<(string, Science.Paper)>, stories: seq<(string, Irony.Story)>,
                    clock: nat -> string, digest: string -> string)
    ensures var items := Batch(papers, stories, clock, digest);
            && |items| == |papers| + |stories|
            && (forall k :: 0 <= k < |papers| ==>
                  items[k].itemType == "science" && items[k].topic == papers[k].0 &&
                  items[k] == NormalizeScience(papers[k].0, papers[k].1, clock(k), digest))
            && (forall k :: |papers| <= k < |items| ==>
                  items[k].itemType == "society" && items[k].topic == stories[k - |papers|].0 &&
                  items[k] == NormalizeIrony(stories[k - |papers|].0, stories[k - |papers|].1, clock(k), digest))
  {
    var science := ScienceItems(papers, clock, digest);
    var society := SocietyItems(stories, |papers|, clock, digest);
    var items := science + society;
    assert Batch(papers, stories, clock, digest) == items;
    forall k | 0 <= k < |papers|
      ensures items[k] == NormalizeScience(papers[k].0, papers[k].1, clock(k), digest)
    {
      assert items[k] == science[k];
    }
    forall k | |papers| <= k < |items|
      ensures items[k] == NormalizeIrony(stories[k - |papers|].0, stories[k - |papers|].1, clock(k), digest)
    {
      assert items[k] == society[k - |papers|];
    }
  }

  /** A batch carries only the labels its records carry. */
  lemma BatchTopics(papers: seq<(string, Science.Paper)>, stories: seq<(string, Irony.Story)>,
                    scienceTopics: set<string>, ironyThemes: set<string>,
                    clock: nat -> string, digest: string -> string)
    requires forall r :: r in papers ==> r.0 in scienceTopics
    requires forall r :: r in stories ==> r.0 in ironyThemes
    ensures forall item :: item in Batch(papers, stories, clock, digest) ==>
              (item.itemType == "science" && item.topic in scienceTopics) ||
              (item.itemType == "society" && item.topic in ironyThemes)
  {
    var items := Batch(papers, stories, clock, digest);
    BatchLayout(papers, stories, clock, digest);
    forall item | item in items
      ensures (item.itemType == "science" && item.topic in scienceTopics) ||
              (item.itemType == "society" && item.topic in ironyThemes)
    {
      var k :| 0 <= k < |items| && items[k] == item;
      if k < |papers| {
        assert papers[k] in papers;
      } else {
        assert stories[k - |papers|] in stories;
      }
    }
  }

  /** The labels of gathered records are labels of the query table. */
  lemma GatheredLabels<T>(fetch: ((string, string)) -> Result<seq<T>>, queries: seq<(string, string)>)
    requires Gathered(fetch, queries).Success?
    ensures forall r :: r in Gathered(fetch, queries).value ==> r.0 in set q | q in queries :: q.0
  {
    forall r | r in Gathered(fetch, queries).value ensures r.0 in set q | q in queries :: q.0 {
      GatheredRecords(fetch, queries, r);
    }
  }

  /** Every item `ingest` saves is tagged with a topic of the science table
      or, for a society item, a theme of the news table. */
  lemma IngestTopics(scienceApi: (string, int) -> Response<Science.Work>, ironyApi: string -> Response<Irony.Article>,
                     daysBack: int, clock: nat -> string, digest: string -> string)
    requires IngestItems(scienceApi, ironyApi, daysBack, clock, digest).Success?
    ensures forall item :: item in IngestItems(scienceApi, ironyApi, daysBack, clock, digest).value ==>
              (item.itemType == "science" && item.topic in set q | q in ScienceQueries :: q.0) ||
              (item.itemType == "society" && item.topic in set q | q in IronyQueries :: q.0)
  {
    var fetchPapers := SciencePapers(scienceApi, daysBack);
    var fetchStories := IronyStories(ironyApi);
    GatheredLabels(fetchPapers, ScienceQueries);
    GatheredLabels(fetchStories, IronyQueries);
    BatchTopics(Gathered(fetchPapers, ScienceQueries).value, Gathered(fetchStories, IronyQueries).value,
                set q | q in ScienceQueries :: q.0, set q | q in IronyQueries :: q.0, clock, digest);
  }

  /** `(offset + i)`-th reading of the clock: what `save_items` sees after
      `offset` readings by the normalisers. */
  function Shifted(clock: nat -> string, offset: nat): nat -> string
  {
    (i: nat) => clock(offset + i)
  }

  /** The gathering loop's invariant holds before the first query ... */
  lemma ContinuedStart<T>(fetch: ((string, string)) -> Result<seq<T>>, queries: seq<(string, string)>)
    ensures Gathered(fetch, queries) == Continued([], Gathered(fetch, queries[0..]))
  {
    assert queries[0..] == queries;
    if Gathered(fetch, queries).Success? {
      assert [] + Gathered(fetch, queries).value == Gathered(fetch, queries).value;
    }
  }

  /** ... is kept by a query whose fetch returns `records` ... */
  lemma ContinuedStep<T>(fetch: ((string, string)) -> Result<seq<T>>, queries: seq<(string, string)>, q: nat,
                         done: seq<(string, T)>, records: seq<T>)
    requires q < |queries| && fetch(queries[q]) == Success(records)
    ensures Continued(done, Gathered(fetch, queries[q..])) ==
              Continued(done + Tagged(queries[q].0, records), Gathered(fetch, queries[q + 1..]))
  {
    assert queries[q..][0] == queries[q] && queries[q..][1..] == queries[q + 1..];
    if Gathered(fetch, queries[q + 1..]).Success? {
      var rest := Gathered(fetch, queries[q + 1..]).value;
      assert done + (Tagged(queries[q].0, records) + rest) == done + Tagged(queries[q].0, records) + rest;
    }
  }

  /** ... ends the run with the exception of a query whose fetch raises ... */
  lemma ContinuedFailure<T>(fetch: ((string, string)) -> Result<seq<T>>, queries: seq<(string, string)>, q: nat,
                            done: seq<(string, T)>)
    requires q < |queries| && fetch(queries[q]).Failure?
    ensures Continued(done, Gathered(fetch, queries[q..])) == Failure(fetch(queries[q]).error)
  {
    assert queries[q..][0] == queries[q];
  }

  /** ... and after the last query yields everything gathered. */
  lemma ContinuedEnd<T>(queries: seq<(string, string)>, fetch: ((string, string)) -> Result<seq<T>>, done: seq<(string, T)>)
    ensures Continued(done, Gathered(fetch, queries[|queries|..])) == Success(done)
  {
    assert queries[|queries|..] == [];
    assert done + [] == done;
  }

  lemma TaggedNext<T>(tag: string, records: seq<T>, k: nat)
    requires k < |records|
    ensures Tagged(tag, records[..k + 1]) == Tagged(tag, records[..k]) + [(tag, records[k])]
  {
  }

  lemma ScienceItemsNext(papers: seq<(string, Science.Paper)>, x: (string, Science.Paper),
                         clock: nat -> string, digest: string -> string)
    ensures ScienceItems(papers + [x], clock, digest) ==
              ScienceItems(papers, clock, digest) + [NormalizeScience(x.0, x.1, clock(|papers|), digest)]
  {
  }

  lemma SocietyItemsNext(stories: seq<(string, Irony.Story)>, x: (string, Irony.Story), start: nat,
                         clock: nat -> string, digest: string -> string)
    ensures SocietyItems(stories + [x], start, clock, digest) ==
              SocietyItems(stories, start, clock, digest) + [NormalizeIrony(x.0, x.1, clock(start + |stories|), digest)]
  {
  }

  /** `items.extend(...)` with the items of one query's papers. */
  method ExtendScience(collected: seq<Storage.Item>, topic: string, fetched: seq<Science.Paper>,
                       clock: nat -> string, digest: string -> string, ghost done: seq<(string, Science.Paper)>)
    returns (extended: seq<Storage.Item>)
    requires collected == ScienceItems(done, clock, digest)
    ensures extended == ScienceItems(done + Tagged(topic, fetched), clock, digest)
  {
    extended := collected;
    ghost var papers := done;
    var k := 0;
    while k < |fetched|
      invariant 0 <= k <= |fetched|
      invariant papers == done + Tagged(topic, fetched[..k])
      invariant extended == ScienceItems(papers, clock, digest)
    {
      TaggedNext(topic, fetched, k);
      ScienceItemsNext(papers, (topic, fetched[k]), clock, digest);
      extended := extended + [NormalizeScience(topic, fetched[k], clock(|extended|), digest)];
      papers := papers + [(topic, fetched[k])];
      k := k + 1;
    }
    assert fetched[..k] == fetched;
  }

  /** `items.extend(...)` with the items of one query's stories. */
  method ExtendSociety(collected: seq<Storage.Item>, theme: string, fetched: seq<Irony.Story>, start: nat,
                       clock: nat -> string, digest: string -> string, ghost done: seq<(string, Irony.Story)>)
    returns (extended: seq<Storage.Item>)
    requires collected == SocietyItems(done, start, clock, digest)
    ensures extended == SocietyItems(done + Tagged(theme, fetched), start, clock, digest)
  {
    extended := collected;
    ghost var stories := done;
    var k := 0;
    while k < |fetched|
      invariant 0 <= k <= |fetched|
      invariant stories == done + Tagged(theme, fetched[..k])
      invariant extended == SocietyItems(stories, start, clock, digest)
    {
      TaggedNext(theme, fetched, k);
      SocietyItemsNext(stories, (theme, fetched[k]), start, clock, digest);
      extended := extended + [NormalizeIrony(theme, fetched[k], clock(start + |extended|), digest)];
      stories := stories + [(theme, fetched[k])];
      k := k + 1;
    }
    assert fetched[..k] == fetched;
  }

  /** The science loop of `ingest`: for each (topic, query), fetch the
      papers and append one normalised item per paper; the k-th item reads
      the clock as `clock(k)`. */
  method CollectScience(queries: seq<(string, string)>, scienceApi: (string, int) -> Response<Science.Work>,
                        daysBack: int, clock: nat -> string, digest: string -> string)
    returns (items: Result<seq<Storage.Item>>)
    ensures Gathered(SciencePapers(scienceApi, daysBack), queries).Failure? ==>
              items == Failure(Gathered(SciencePapers(scienceApi, daysBack), queries).error)
    ensures Gathered(SciencePapers(scienceApi, daysBack), queries).Success? ==>
              items == Success(ScienceItems(Gathered(SciencePapers(scienceApi, daysBack), queries).value, clock, digest))
  {
    var fetchPapers := SciencePapers(scienceApi, daysBack);
    var collected: seq<Storage.Item> := [];
    ghost var papers: seq<(string, Science.Paper)> := [];
    ContinuedStart(fetchPapers, queries);
    var q := 0;
    while q < |queries|
      invariant 0 <= q <= |queries|
      invariant Gathered(fetchPapers, queries) == Continued(papers, Gathered(fetchPapers, queries[q..]))
      invariant collected == ScienceItems(papers, clock, digest)
    {
      var (topic, query) := queries[q];
      var fetched := Science.FetchPapers(scienceApi(query, daysBack));
      assert fetched == fetchPapers(queries[q]);
      if fetched.Failure? {
        ContinuedFailure(fetchPapers, queries, q, papers);
        return Failure(fetched.error);
      }
      ContinuedStep(fetchPapers, queries, q, papers, fetched.value);
      collected := ExtendScience(collected, topic, fetched.value, clock, digest, papers);
      papers := papers + Tagged(topic, fetched.value);
      q := q + 1;
    }
    ContinuedEnd(queries, fetchPapers, papers);
    return Success(collected);
  }

  /** The news loop of `ingest`: for each (theme, query), fetch the stories
      and append one normalised item per story; the k-th item reads the
      clock as `clock(start + k)`, after `start` science items. */
  method CollectSociety(queries: seq<(string, string)>, ironyApi: string -> Response<Irony.Article>,
                        start: nat, clock: nat -> string, digest: string -> string)
    returns (items: Result<seq<Storage.Item>>)
    ensures Gathered(IronyStories(ironyApi), queries).Failure? ==>
              items == Failure(Gathered(IronyStories(ironyApi), queries).error)
    ensures Gathered(IronyStories(ironyApi), queries).Success? ==>
              items == Success(SocietyItems(Gathered(IronyStories(ironyApi), queries).value, start, clock, digest))
  {
    var fetchStories := IronyStories(ironyApi);
    var collected: seq<Storage.Item> := [];
    ghost var stories: seq<(string, Irony.Story)> := [];
    ContinuedStart(fetchStories, queries);
    var q := 0;
    while q < |queries|
      invariant 0 <= q <= |queries|
      invariant Gathered(fetchStories, queries) == Continued(stories, Gathered(fetchStories, queries[q..]))
      invariant collected == SocietyItems(stories, start, clock, digest)
    {
      var (theme, query) := queries[q];
      var fetched := Irony.FetchIrony(ironyApi(query), theme);
      assert fetched == fetchStories(queries[q]);
      if fetched.Failure? {
        ContinuedFailure(fetchStories, queries, q, stories);
        return Failure(fetched.error);
      }
      ContinuedStep(fetchStories, queries, q, stories, fetched.value);
      collected := ExtendSociety(collected, theme, fetched.value, start, clock, digest, stories);
      stories := stories + Tagged(theme, fetched.value);
      q := q + 1;
    }
    ContinuedEnd(queries, fetchStories, stories);
    return Success(collected);
  }

  /** `ingest` after `init_db`: both query loops extend the batch, then
      `save_items` stores it; an exception from any fetch leaves the table
      untouched. */
  method Ingest(store: Storage.Store, scienceApi: (string, int) -> Response<Science.Work>,
                ironyApi: string -> Response<Irony.Article>, daysBack: int,
                clock: nat -> string, digest: string -> string) returns (r: Result<nat>)
    requires store.Valid()
    modifies store
    ensures store.Valid()
    ensures IngestItems(scienceApi, ironyApi, daysBack, clock, digest).Failure? ==>
              r == Failure(IngestItems(scienceApi, ironyApi, daysBack, clock, digest).error) &&
              store.rows == old(store.rows) && store.order == old(store.order)
    ensures IngestItems(scienceApi, ironyApi, daysBack, clock, digest).Success? ==>
              var items := IngestItems(scienceApi, ironyApi, daysBack, clock, digest).value;
              var now := Shifted(clock, |items|);
              && store.rows == Storage.Saved(old(store.rows), items, now)
              && store.order == old(store.order) + Storage.NewIds(old(store.rows), items, now)
              && r == Success(|Storage.NewIds(old(store.rows), items, now)|)
  {
    var science := CollectScience(ScienceQueries, scienceApi, daysBack, clock, digest);
    if science.Failure? {
      return Failure(science.error);
    }
    var society := CollectSociety(IronyQueries, ironyApi, |science.value|, clock, digest);
    if society.Failure? {
      return Failure(society.error);
    }
    var items := science.value + society.value;
    var inserted := store.SaveItems(items, Shifted(clock, |items|));
    return Success(inserted);
  }
}
