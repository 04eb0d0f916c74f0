/** The literature fetcher (ScienceScout): rebuilds an OpenAlex abstract from
    its inverted index and cleans each returned work into a flat paper
    record. The HTTP request itself is the `Response` it is given. */
module Science {
  import opened Builtins

  /** `abstract_inverted_index`: word -> positions, in the JSON object's key order. */
  type InvertedIndex = seq<(string, seq<int>)>

  /** One (position, word) pair of `word_list`. */
  type Placement = (int, string)

  datatype Concept = Concept(displayName: Field<string>)
  datatype Source = Source(displayName: Field<string>)
  datatype Location = Location(source: Field<Source>, landingPageUrl: Field<string>)
  datatype OpenAccess = OpenAccess(oaUrl: Field<string>)

  /** One element of the OpenAlex `results` list, with the keys the fetcher reads. */
  datatype Work = Work(
    title: Field<string>,
    publicationDate: Field<string>,
    primaryLocation: Field<Location>,
    openAccess: Field<OpenAccess>,
    abstractInvertedIndex: Field<InvertedIndex>,
    concepts: Field<seq<Concept>>)

  /** The cleaned record: keys Headline, Journal, Date, Abstract_Snippet,
      URL and Key_Topics, always all present; None stands for a JSON null
      copied through. */
  datatype Paper = Paper(
    headline: Option<string>,
    journal: Option<string>,
    date: Option<string>,
    abstractSnippet: string,
    url: string,
    keyTopics: seq<Option<string>>)

  const NoAbstract := "No abstract available."
  const SnippetLength := 300
  const MaxTopics := 3
  const NoLocation := Location(Absent, Absent)
  const NoSource := Source(Absent)
  const NoOpenAccess := OpenAccess(Absent)

  // ---------------------------------------------------------------------
  // Abstract reconstruction
  // ---------------------------------------------------------------------

  /** The pairs one index entry contributes, in its list order. */
  function Placed(entry: (string, seq<int>)): seq<Placement>
  {
    seq(|entry.1|, j requires 0 <= j < |entry.1| => (entry.1[j], entry.0))
  }

  /** `word_list` after the nested loops: entries in key order, each entry's
      positions in list order. */
  function Expand(index: InvertedIndex): seq<Placement>
  {
    if index == [] then [] else Expand(index[..|index| - 1]) + Placed(index[|index| - 1])
  }

  /** The number of positions listed over all entries. */
  function TotalPositions(index: InvertedIndex): nat
  {
    if index == [] then 0 else TotalPositions(index[..|index| - 1]) + |index[|index| - 1].1|
  }

  /** The number of positions listed for `word` (over every entry keyed by it). */
  function PositionsOf(index: InvertedIndex, word: string): nat
  {
    if index == [] then 0
    else PositionsOf(index[..|index| - 1], word)
         + (if index[|index| - 1].0 == word then |index[|index| - 1].1| else 0)
  }

  /** Places `x` after every pair whose position is not greater than its own. */
  function InsertByPos(x: Placement, s: seq<Placement>): seq<Placement>
  {
    if s == [] then [x]
    else if x.0 < s[0].0 then [x] + s
    else [s[0]] + InsertByPos(x, s[1..])
  }

  /** `sorted(word_list, key=lambda x: x[0])`: a stable sort by position. */
  function SortByPos(s: seq<Placement>): seq<Placement>
  {
    if s == [] then [] else InsertByPos(s[|s| - 1], SortByPos(s[..|s| - 1]))
  }

  function Words(s: seq<Placement>): seq<string>
  {
    seq(|s|, i requires 0 <= i < |s| => s[i].1)
  }

  /** The words of a non-empty index in reading order. */
  function AbstractWords(index: InvertedIndex): seq<string>
  {
    Words(SortByPos(Expand(index)))
  }

  /** What `reconstruct_abstract` returns. */
  function AbstractText(index: Option<InvertedIndex>): string
  {
    if index.None? || index.value == [] then NoAbstract
    else Join(" ", AbstractWords(index.value))
  }

  /** `reconstruct_abstract`: a missing or empty index gives the placeholder;
      otherwise the nested loops collect every (position, word) pair, which
      are stably sorted by position and joined with single spaces. */
  method ReconstructAbstract(index: Option<InvertedIndex>) returns (text: string)
    ensures index.None? || index.value == [] ==> text == NoAbstract
    ensures index.Some? && index.value != [] ==> text == Join(" ", Words(SortByPos(Expand(index.value))))
    ensures text == AbstractText(index)
  {
    if index.None? || index.value == [] {
      return NoAbstract;
    }
    var entries := index.value;
    var wordList: seq<Placement> := [];
    var i := 0;
    while i < |entries|
      invariant 0 <= i <= |entries|
      invariant wordList == Expand(entries[..i])
    {
      var (word, positions) := entries[i];
      var j := 0;
      while j < |positions|
        invariant 0 <= j <= |positions|
        invariant wordList == Expand(entries[..i]) + Placed(entries[i])[..j]
      {
        wordList := wordList + [(positions[j], word)];
        j := j + 1;
      }
      assert Placed(entries[i])[..j] == Placed(entries[i]);
      assert entries[..i + 1][..i] == entries[..i];
      i := i + 1;
    }
    assert entries[..i] == entries;
    var sortedWords := SortByPos(wordList);
    text := Join(" ", Words(sortedWords));
  }

  // ---- properties of the stable sort ----

  predicate SortedByPos(s: seq<Placement>)
  {
    forall i, j :: 0 <= i < j < |s| ==> s[i].0 <= s[j].0
  }

  /** The pairs of `s` at position `p`, in their order in `s`. */
  function AtPos(s: seq<Placement>, p: int): seq<Placement>
  {
    if s == [] then []
    else (if s[0].0 == p then [s[0]] else []) + AtPos(s[1..], p)
  }

  lemma {:induction false} AtPosAppend(a: seq<Placement>, b: seq<Placement>, p: int)
    ensures AtPos(a + b, p) == AtPos(a, p) + AtPos(b, p)
  {
    if a == [] {
      assert a + b == b;
    } else {
      var head := if a[0].0 == p then [a[0]] else [];
      assert (a + b)[0] == a[0] && (a + b)[1..] == a[1..] + b;
      assert AtPos(a + b, p) == head + AtPos(a[1..] + b, p);
      AtPosAppend(a[1..], b, p);
      assert AtPos(a, p) == head + AtPos(a[1..], p);
    }
  }

  lemma {:induction false} AtPosAbove(s: seq<Placement>, p: int)
    requires forall i :: 0 <= i < |s| ==> s[i].0 > p
    ensures AtPos(s, p) == []
  {
    if s != [] {
      AtPosAbove(s[1..], p);
    }
  }

  lemma {:induction false} InsertByPosPermutes(x: Placement, s: seq<Placement>)
    ensures multiset(InsertByPos(x, s)) == multiset(s) + multiset{x}
  {
    if s != [] && x.0 >= s[0].0 {
      InsertByPosPermutes(x, s[1..]);
      assert s == [s[0]] + s[1..];
    }
  }

  lemma {:induction false} InsertByPosSorted(x: Placement, s: seq<Placement>)
    requires SortedByPos(s)
    ensures SortedByPos(InsertByPos(x, s))
  {
    if s != [] && x.0 >= s[0].0 {
      var rest := InsertByPos(x, s[1..]);
      InsertByPosSorted(x, s[1..]);
      InsertByPosPermutes(x, s[1..]);
      forall k | 0 <= k < |rest| ensures s[0].0 <= rest[k].0 {
        assert rest[k] in multiset(rest);
        assert rest[k] == x || rest[k] in multiset(s[1..]);
      }
    }
  }

  lemma AtPosCons(x: Placement, s: seq<Placement>, p: int)
    ensures AtPos([x] + s, p) == (if x.0 == p then [x] else []) + AtPos(s, p)
  {
    assert ([x] + s)[0] == x && ([x] + s)[1..] == s;
  }

  /** Inserting into a sorted sequence appends `x` to the run of its own position. */
  lemma {:induction false} InsertByPosStable(x: Placement, s: seq<Placement>, p: int)
    requires SortedByPos(s)
    ensures AtPos(InsertByPos(x, s), p) == AtPos(s, p) + (if x.0 == p then [x] else [])
    decreases |s|, 1
  {
    var mine: seq<Placement> := if x.0 == p then [x] else [];
    if s == [] {
      AtPosCons(x, [], p);
      assert [x] + [] == [x];
    } else if x.0 < s[0].0 {
      assert InsertByPos(x, s) == [x] + s;
      AtPosCons(x, s, p);
      if x.0 == p {
        AtPosAbove(s, p);
        assert mine + [] == [] + mine;
      } else {
        assert [] + AtPos(s, p) == AtPos(s, p) + [];
      }
    } else {
      InsertByPosStableLater(x, s, p);
    }
  }

  /** The case where `x` goes after the head of `s`. */
  lemma {:induction false} InsertByPosStableLater(x: Placement, s: seq<Placement>, p: int)
    requires SortedByPos(s) && s != [] && x.0 >= s[0].0
    ensures AtPos(InsertByPos(x, s), p) == AtPos(s, p) + (if x.0 == p then [x] else [])
    decreases |s|, 0
  {
    var mine: seq<Placement> := if x.0 == p then [x] else [];
    var head: seq<Placement> := if s[0].0 == p then [s[0]] else [];
    var u := InsertByPos(x, s[1..]);
    assert InsertByPos(x, s) == [s[0]] + u;
    assert s == [s[0]] + s[1..];
    assert SortedByPos(s[1..]);
    InsertByPosStable(x, s[1..], p);
    AtPosCons(s[0], u, p);
    AtPosCons(s[0], s[1..], p);
    assert head + (AtPos(s[1..], p) + mine) == (head + AtPos(s[1..], p)) + mine;
  }

  lemma {:induction false} SortByPosPermutes(s: seq<Placement>)
    ensures multiset(SortByPos(s)) == multiset(s)
  {
    if s != [] {
      var n := |s| - 1;
      var prefix := SortByPos(s[..n]);
      SortByPosPermutes(s[..n]);
      InsertByPosPermutes(s[n], prefix);
      assert SortByPos(s) == InsertByPos(s[n], prefix);
      assert s == s[..n] + [s[n]];
      assert multiset(s) == multiset(s[..n]) + multiset{s[n]};
    }
  }

  lemma {:induction false} SortByPosSorted(s: seq<Placement>)
    ensures SortedByPos(SortByPos(s))
  {
    if s != [] {
      var n := |s| - 1;
      SortByPosSorted(s[..n]);
      InsertByPosSorted(s[n], SortByPos(s[..n]));
    }
  }

  /** Stability: the pairs at each position keep their order in `word_list`. */
  lemma {:induction false} SortByPosStable(s: seq<Placement>, p: int)
    ensures AtPos(SortByPos(s), p) == AtPos(s, p)
  {
    if s != [] {
      var n := |s| - 1;
      var prefix := SortByPos(s[..n]);
      var last: seq<Placement> := if s[n].0 == p then [s[n]] else [];
      SortByPosStable(s[..n], p);
      SortByPosSorted(s[..n]);
      InsertByPosStable(s[n], prefix, p);
      assert SortByPos(s) == InsertByPos(s[n], prefix);
      assert AtPos(SortByPos(s), p) == AtPos(s[..n], p) + last;
      assert AtPos([s[n]], p) == last + AtPos([s[n]][1..], p);
      assert AtPos([s[n]], p) == last;
      assert s == s[..n] + [s[n]];
      AtPosAppend(s[..n], [s[n]], p);
    }
  }

  // ---- word multiplicity ----

  /** `n` copies of `word`. */
  function Repeat(word: string, n: nat): seq<string>
  {
    if n == 0 then [] else Repeat(word, n - 1) + [word]
  }

  lemma {:induction false} RepeatCount(word: string, n: nat, w: string)
    ensures multiset(Repeat(word, n))[w] == if word == w then n else 0
  {
    if n > 0 {
      RepeatCount(word, n - 1, w);
    }
  }

  lemma {:induction false} PlacedWords(entry: (string, seq<int>))
    ensures Words(Placed(entry)) == Repeat(entry.0, |entry.1|)
    decreases |entry.1|
  {
    var n := |entry.1|;
    if n > 0 {
      var shorter := (entry.0, entry.1[..n - 1]);
      PlacedWords(shorter);
      assert Words(Placed(entry)) == Words(Placed(shorter)) + [entry.0];
    }
  }

  lemma WordsAppend(a: seq<Placement>, b: seq<Placement>)
    ensures Words(a + b) == Words(a) + Words(b)
  {
  }

  lemma {:induction false} InsertByPosWords(x: Placement, s: seq<Placement>)
    ensures multiset(Words(InsertByPos(x, s))) == multiset(Words(s)) + multiset{x.1}
  {
    if s == [] {
    } else if x.0 < s[0].0 {
      WordsAppend([x], s);
    } else {
      InsertByPosWords(x, s[1..]);
      WordsAppend([s[0]], InsertByPos(x, s[1..]));
      WordsAppend([s[0]], s[1..]);
      assert s == [s[0]] + s[1..];
    }
  }

  lemma {:induction false} SortByPosWords(s: seq<Placement>)
    ensures multiset(Words(SortByPos(s))) == multiset(Words(s))
  {
    if s != [] {
      var n := |s| - 1;
      SortByPosWords(s[..n]);
      InsertByPosWords(s[n], SortByPos(s[..n]));
      assert s == s[..n] + [s[n]];
      WordsAppend(s[..n], [s[n]]);
    }
  }

  lemma {:induction false} ExpandWords(index: InvertedIndex, w: string)
    ensures |Expand(index)| == TotalPositions(index)
    ensures multiset(Words(Expand(index)))[w] == PositionsOf(index, w)
  {
    if index != [] {
      var n := |index| - 1;
      ExpandWords(index[..n], w);
      WordsAppend(Expand(index[..n]), Placed(index[n]));
      PlacedWords(index[n]);
      RepeatCount(index[n].0, |index[n].1|, w);
    }
  }

  /** The reconstructed abstract has one word per listed position: as many
      words as positions in all, and each word as often as its positions. */
  lemma AbstractWordCount(index: InvertedIndex, w: string)
    ensures |AbstractWords(index)| == TotalPositions(index)
    ensures multiset(AbstractWords(index))[w] == PositionsOf(index, w)
  {
    ExpandWords(index, w);
    SortByPosPermutes(Expand(index));
    SortByPosWords(Expand(index));
    assert |SortByPos(Expand(index))| == |multiset(SortByPos(Expand(index)))|;
  }

  lemma PlacedMembership(entry: (string, seq<int>), p: int, w: string)
    ensures (p, w) in Placed(entry) <==> entry.0 == w && p in entry.1
  {
    if entry.0 == w && p in entry.1 {
      var j :| 0 <= j < |entry.1| && entry.1[j] == p;
      assert Placed(entry)[j] == (p, w);
    }
  }

  /** Whether some entry among the first `n` lists position `p` for word `w`. */
  predicate ListedBefore(index: InvertedIndex, n: nat, p: int, w: string)
    requires n <= |index|
  {
    exists k :: 0 <= k < n && index[k].0 == w && p in index[k].1
  }

  lemma ListedPrefix(index: InvertedIndex, p: int, w: string)
    requires index != []
    ensures ListedBefore(index, |index|, p, w) <==>
              ListedBefore(index[..|index| - 1], |index| - 1, p, w) ||
              (index[|index| - 1].0 == w && p in index[|index| - 1].1)
  {
    var n := |index| - 1;
    if ListedBefore(index[..n], n, p, w) {
      var k :| 0 <= k < n && index[..n][k].0 == w && p in index[..n][k].1;
      assert index[k] == index[..n][k];
    }
    if ListedBefore(index, |index|, p, w) {
      var k :| 0 <= k < |index| && index[k].0 == w && p in index[k].1;
      if k < n {
        assert index[..n][k] == index[k];
      }
    }
  }

  /** A pair is collected exactly when some entry lists that position for that word. */
  lemma {:induction false} ExpandMembership(index: InvertedIndex, p: int, w: string)
    ensures (p, w) in Expand(index) <==> exists k :: 0 <= k < |index| && index[k].0 == w && p in index[k].1
  {
    if index != [] {
      var n := |index| - 1;
      ExpandMembership(index[..n], p, w);
      PlacedMembership(index[n], p, w);
      ListedPrefix(index, p, w);
      assert Expand(index) == Expand(index[..n]) + Placed(index[n]);
    }
  }

  /** The words of the abstract are read off the position-sorted pairs: the
      positions never decrease, the pairs are exactly the collected ones, and
      pairs sharing a position keep key order, then list order. */
  lemma AbstractOrder(index: InvertedIndex, p: int)
    ensures AbstractWords(index) == Words(SortByPos(Expand(index)))
    ensures SortedByPos(SortByPos(Expand(index)))
    ensures multiset(SortByPos(Expand(index))) == multiset(Expand(index))
    ensures AtPos(SortByPos(Expand(index)), p) == AtPos(Expand(index), p)
  {
    SortByPosSorted(Expand(index));
    SortByPosPermutes(Expand(index));
    SortByPosStable(Expand(index), p);
  }

  /** `{"the": [0, 2], "fox": [1]}` reads "the fox the". */
  lemma TheFoxThe()
    ensures AbstractText(Some([("the", [0, 2]), ("fox", [1])])) == "the fox the"
  {
    var index: InvertedIndex := [("the", [0, 2]), ("fox", [1])];
    assert index[..1] == [("the", [0, 2])];
    assert Placed(("the", [0, 2])) == [(0, "the"), (2, "the")];
    assert Placed(("fox", [1])) == [(1, "fox")];
    assert Expand(index[..1]) == [(0, "the"), (2, "the")];
    var pairs := [(0, "the"), (2, "the"), (1, "fox")];
    assert Expand(index) == pairs;
    assert pairs[..2] == [(0, "the"), (2, "the")] && pairs[2] == (1, "fox");
    assert pairs[..2][..1] == [(0, "the")];
    assert SortByPos([(0, "the")]) == [(0, "the")];
    assert SortByPos(pairs[..2]) == [(0, "the"), (2, "the")];
    assert InsertByPos((1, "fox"), [(2, "the")]) == [(1, "fox"), (2, "the")];
    assert InsertByPos((1, "fox"), [(0, "the"), (2, "the")]) == [(0, "the"), (1, "fox"), (2, "the")];
    assert SortByPos(pairs) == [(0, "the"), (1, "fox"), (2, "the")];
    assert AbstractWords(index) == ["the", "fox", "the"];
  }

  // ---------------------------------------------------------------------
  // Cleaning one work
  // ---------------------------------------------------------------------

  /** The journal name: "Unknown Source" whenever `primary_location` or its
      `source` is missing or null; a null `display_name` is copied as None. */
  function JournalName(primaryLocation: Field<Location>): (journal: Option<string>)
    ensures !(primaryLocation.Present? && primaryLocation.value.source.Present?) ==>
              journal == Some("Unknown Source")
    ensures primaryLocation.Present? && primaryLocation.value.source.Present? ==>
              journal == Get(primaryLocation.value.source.value.displayName, "Unknown Source")
    ensures journal.None? <==>
              primaryLocation.Present? && primaryLocation.value.source.Present? &&
              primaryLocation.value.source.value.displayName.Null?
  {
    var location := ObjectOr(primaryLocation, NoLocation);
    var source := ObjectOr(location.source, NoSource);
    Get(source.displayName, "Unknown Source")
  }

  /** `open_access.oa_url` read through a missing or null `open_access`. */
  function OaUrl(work: Work): Option<string>
  {
    Lookup(ObjectOr(work.openAccess, NoOpenAccess).oaUrl)
  }

  /** `primary_location.landing_page_url` read through a missing or null location. */
  function LandingPageUrl(work: Work): Option<string>
  {
    Lookup(ObjectOr(work.primaryLocation, NoLocation).landingPageUrl)
  }

  /** The URL falls back from a non-empty `oa_url` to a non-empty
      `landing_page_url` to "No URL"; it is never empty. */
  function PaperUrl(work: Work): (url: string)
    ensures url != ""
    ensures Truthy(OaUrl(work)) ==> url == OaUrl(work).value
    ensures !Truthy(OaUrl(work)) && Truthy(LandingPageUrl(work)) ==> url == LandingPageUrl(work).value
    ensures !Truthy(OaUrl(work)) && !Truthy(LandingPageUrl(work)) ==> url == "No URL"
  {
    Or(OaUrl(work), Or(LandingPageUrl(work), "No URL"))
  }

  /** The display names of concepts, in order (None where a name is missing or null). */
  function DisplayNames(concepts: seq<Concept>): seq<Option<string>>
  {
    seq(|concepts|, i requires 0 <= i < |concepts| => Lookup(concepts[i].displayName))
  }

  /** `Key_Topics`: the display names of the first three concepts, in order. */
  function KeyTopics(concepts: Field<seq<Concept>>): (topics: seq<Option<string>>)
    ensures |topics| <= MaxTopics
    ensures concepts.Present? ==>
              |topics| == Min(MaxTopics, |concepts.value|) &&
              (forall i :: 0 <= i < |topics| ==> topics[i] == Lookup(concepts.value[i].displayName))
    ensures !concepts.Present? ==> topics == []
  {
    DisplayNames(Take(ObjectOr(concepts, []), MaxTopics))
  }

  /** `Abstract_Snippet`: the abstract itself up to 300 characters; beyond
      that its first 300 characters followed by "...". */
  function Snippet(text: string): (snippet: string)
    ensures |text| <= SnippetLength ==> snippet == text
    ensures |text| > SnippetLength ==>
              |snippet| == SnippetLength + 3 && snippet[..SnippetLength] == text[..SnippetLength] &&
              snippet[SnippetLength..] == "..."
  {
    if |text| > SnippetLength then text[..SnippetLength] + "..." else text
  }

  /** The cleaned record of `work`, given its reconstructed abstract: a
      missing title reads "No Title" and a missing date "Unknown Date", a
      null one is copied through as None; the other keys follow their own
      rules. */
  function CleanRecord(work: Work, abstractText: string): (paper: Paper)
    ensures work.title.Absent? ==> paper.headline == Some("No Title")
    ensures work.title.Null? ==> paper.headline == None
    ensures work.title.Present? ==> paper.headline == Some(work.title.value)
    ensures work.publicationDate.Absent? ==> paper.date == Some("Unknown Date")
    ensures work.publicationDate.Null? ==> paper.date == None
    ensures work.publicationDate.Present? ==> paper.date == Some(work.publicationDate.value)
    ensures paper.journal == JournalName(work.primaryLocation)
    ensures paper.abstractSnippet == Snippet(abstractText)
    ensures paper.url == PaperUrl(work) && paper.url != ""
    ensures paper.keyTopics == KeyTopics(work.concepts)
  {
    Paper(
      headline := Get(work.title, "No Title"),
      journal := JournalName(work.primaryLocation),
      date := Get(work.publicationDate, "Unknown Date"),
      abstractSnippet := Snippet(abstractText),
      url := PaperUrl(work),
      keyTopics := KeyTopics(work.concepts))
  }

  function CleanWork(work: Work): Paper
  {
    CleanRecord(work, AbstractText(Lookup(work.abstractInvertedIndex)))
  }

  /** What `fetch_papers` returns or raises for a response: a failed request
      gives no papers; an undecodable body or a null `results` raises (both
      happen outside the `try`); otherwise one cleaned paper per work. */
  function PapersOf(response: Response<Work>): Result<seq<Paper>>
  {
    match response
    case RequestFailed => Success([])
    case Undecodable => Failure("JSONDecodeError")
    case Decoded(Absent) => Success([])
    case Decoded(Null) => Failure("TypeError")
    case Decoded(Present(works)) =>
      Success(seq(|works|, i requires 0 <= i < |works| => CleanWork(works[i])))
  }

  /** `fetch_papers` after the request: exactly one cleaned paper per work,
      in the order of the response. */
  method FetchPapers(response: Response<Work>) returns (papers: Result<seq<Paper>>)
    ensures response.RequestFailed? || response == Decoded(Absent) ==> papers == Success([])
    ensures response.Undecodable? || response == Decoded(Null) ==> papers.Failure?
    ensures response.Decoded? && response.records.Present? ==>
              papers.Success? && |papers.value| == |response.records.value| &&
              forall i :: 0 <= i < |papers.value| ==> papers.value[i] == CleanWork(response.records.value[i])
    ensures papers == PapersOf(response)
  {
    match response
    case RequestFailed =>
      return Success([]);
    case Undecodable =>
      return Failure("JSONDecodeError");
    case Decoded(results) =>
      if results.Absent? {
        return Success([]);
      } else if results.Null? {
        return Failure("TypeError");
      }
      var works := results.value;
      var cleanResults: seq<Paper> := [];
      var i := 0;
      while i < |works|
        invariant 0 <= i <= |works|
        invariant |cleanResults| == i
        invariant forall k :: 0 <= k < i ==> cleanResults[k] == CleanWork(works[k])
      {
        var work := works[i];
        var abstractText := ReconstructAbstract(Lookup(work.abstractInvertedIndex));
        var paper := CleanRecord(work, abstractText);
        assert paper == CleanWork(works[i]);
        cleanResults := cleanResults + [paper];
        i := i + 1;
      }
      assert cleanResults == seq(|works|, k requires 0 <= k < |works| => CleanWork(works[k]));
      return Success(cleanResults);
  }
}
