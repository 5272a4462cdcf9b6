/**
 * Article entries, the record stored for each article, and the threshold
 * filter applied to the vector store's answer to a search.
 */
module Articles {
  import opened Wrappers
  import opened Text

  /**
   * The topics an entry carries: a list when the entry is built for
   * storage, the stored comma-joined text when it is built from a search
   * match (the source uses the same field for both).
   */
  datatype Topics = TopicList(items: seq<string>) | TopicText(text: string)

  /** An article; an entry built without a distance has distance 0. */
  datatype ArticleEntry = ArticleEntry(title: string, url: string, summary: string, topics: Topics, distance: real := 0.0)

  /** The metadata record stored beside each document. */
  datatype Metadata = Metadata(title: string, url: string, topics: string, summary: string)

  type Embedding = seq<real>

  /** What one call to the collection's `add` receives. */
  datatype StoredRecord = StoredRecord(id: string, embedding: Embedding, document: string, metadata: Metadata)

  /** The nearest matches the collection returns for one query embedding, as two parallel lists. */
  datatype QueryAnswer = QueryAnswer(metadatas: seq<Metadata>, distances: seq<real>)

  const TopicSeparator := ", "

  /** What iterating over the topics yields: the list items, or the characters of a string. */
  function TopicItems(topics: Topics): seq<string> {
    match topics
    case TopicList(items) => items
    case TopicText(text) => seq(|text|, k requires 0 <= k < |text| => [text[k]])
  }

  /** Python's rendering of the topics inside an f-string. */
  function TopicsRepr(topics: Topics): string {
    match topics
    case TopicText(text) => text
    case TopicList(items) => "[" + Join(seq(|items|, k requires 0 <= k < |items| => "'" + items[k] + "'"), ", ") + "]"
  }

  /** The labelled fields of an entry, in the order they are rendered. */
  function FieldLines(e: ArticleEntry, showDistance: real -> string): seq<string> {
    ["Title: " + e.title, "Summary: " + e.summary, "Topics: " + TopicsRepr(e.topics),
     "URL: " + e.url, "Distance: " + showDistance(e.distance)]
  }

  /**
   * `as_str`: the labelled fields Title, Summary, Topics, URL and Distance,
   * separated by line breaks; `showDistance` is Python's rendering of the
   * distance.
   */
  function AsStr(e: ArticleEntry, showDistance: real -> string): string {
    Join(FieldLines(e, showDistance), "\n")
  }

  /**
   * Splitting `AsStr` at line breaks gives the labelled fields Title,
   * Summary, Topics, URL and Distance, in that order, when no field
   * contains a line break.
   */
  lemma AsStrLines(e: ArticleEntry, showDistance: real -> string)
    requires '\n' !in e.title && '\n' !in e.summary && '\n' !in TopicsRepr(e.topics)
    requires '\n' !in e.url && '\n' !in showDistance(e.distance)
    ensures Split(AsStr(e, showDistance), "\n") ==
      ["Title: " + e.title, "Summary: " + e.summary, "Topics: " + TopicsRepr(e.topics),
       "URL: " + e.url, "Distance: " + showDistance(e.distance)]
  {
    var lines := FieldLines(e, showDistance);
    assert forall i :: 0 <= i < |lines| ==> '\n' !in lines[i];
    SplitJoin(lines, "\n");
  }

  /** The text that is embedded and stored as the document of an article. */
  function Document(title: string, summary: string, topics: string): (doc: string)
    ensures |doc| == |title| + |summary| + |topics| + 12
    ensures doc[..|title|] == title && doc[|title|..|title| + 2] == ". "
    ensures doc[|title| + 2..|title| + 2 + |summary|] == summary
    ensures doc[|doc| - |topics| - 10..] == ". Topics: " + topics
  {
    title + ". " + summary + ". Topics: " + topics
  }

  /** The topics of an article as they are stored: joined by ", ". */
  function JoinedTopics(a: ArticleEntry): string {
    Join(TopicItems(a.topics), TopicSeparator)
  }

  /**
   * A stored record is consistent when it is keyed by its url, its document
   * is built from its own metadata, and its embedding is that document's.
   */
  ghost predicate Consistent(rec: StoredRecord, embed: string -> Option<Embedding>) {
    rec.id == rec.metadata.url &&
    rec.document == Document(rec.metadata.title, rec.metadata.summary, rec.metadata.topics) &&
    embed(rec.document) == Some(rec.embedding)
  }

  /**
   * `add_article_to_db`: the record handed to the collection, or None when
   * embedding the document raised (then nothing is added).
   */
  function AddArticleToDb(a: ArticleEntry, embed: string -> Option<Embedding>): (r: Option<StoredRecord>)
    ensures r.None? <==> embed(Document(a.title, a.summary, JoinedTopics(a))).None?
    ensures r.Some? ==> Consistent(r.value, embed)
    ensures r.Some? ==> r.value.metadata == Metadata(a.title, a.url, JoinedTopics(a), a.summary)
  {
    var document := Document(a.title, a.summary, JoinedTopics(a));
    match embed(document)
    case None => None
    case Some(emb) =>
      Some(StoredRecord(a.url, emb, document, Metadata(a.title, a.url, JoinedTopics(a), a.summary)))
  }

  /**
   * The stored topics text gives back the article's topic list when the
   * list is not empty and no topic contains a comma.
   */
  lemma StoredTopicsRoundTrip(a: ArticleEntry, embed: string -> Option<Embedding>)
    requires a.topics.TopicList? && a.topics.items != []
    requires forall i :: 0 <= i < |a.topics.items| ==> ',' !in a.topics.items[i]
    requires AddArticleToDb(a, embed).Some?
    ensures Split(AddArticleToDb(a, embed).value.metadata.topics, TopicSeparator) == a.topics.items
  {
    SplitJoin(a.topics.items, TopicSeparator);
  }

  function Min(x: int, y: int): int {
    if x <= y then x else y
  }

  /** Python's `zip`: pairs up the two lists and stops at the shorter one. */
  function Zip<A, B>(xs: seq<A>, ys: seq<B>): (r: seq<(A, B)>)
    ensures |r| == Min(|xs|, |ys|)
    ensures forall k :: 0 <= k < |r| ==> r[k] == (xs[k], ys[k])
  {
    if xs == [] || ys == [] then [] else [(xs[0], ys[0])] + Zip(xs[1..], ys[1..])
  }

  /** The entry built from one match of the store: its metadata copied, its distance attached. */
  function FromMatch(meta: Metadata, dist: real): ArticleEntry {
    ArticleEntry(meta.title, meta.url, meta.summary, TopicText(meta.topics), dist)
  }

  /** The candidates as entries, without filtering. */
  function Entries(candidates: seq<(Metadata, real)>): seq<ArticleEntry> {
    seq(|candidates|, k requires 0 <= k < |candidates| => FromMatch(candidates[k].0, candidates[k].1))
  }

  /** The entries of the candidates whose distance is at most `threshold`, in candidate order. */
  function WithinThreshold(candidates: seq<(Metadata, real)>, threshold: real): (r: seq<ArticleEntry>)
    ensures |r| <= |candidates|
    ensures forall k :: 0 <= k < |r| ==> r[k].distance <= threshold
  {
    if candidates == [] then []
    else
      var (meta, dist) := candidates[|candidates| - 1];
      WithinThreshold(candidates[..|candidates| - 1], threshold) +
        if dist <= threshold then [FromMatch(meta, dist)] else []
  }

  /**
   * An entry is in the result exactly when some candidate within the
   * threshold produces it: nothing is invented and nothing is dropped.
   */
  lemma {:induction false} WithinThresholdMembers(candidates: seq<(Metadata, real)>, threshold: real, e: ArticleEntry)
    ensures e in WithinThreshold(candidates, threshold) <==>
      exists i :: 0 <= i < |candidates| && candidates[i].1 <= threshold && e == FromMatch(candidates[i].0, candidates[i].1)
    decreases |candidates|
  {
    if candidates != [] {
      var n := |candidates| - 1;
      var init := candidates[..n];
      WithinThresholdMembers(init, threshold, e);
      if e in WithinThreshold(candidates, threshold) && e !in WithinThreshold(init, threshold) {
        assert candidates[n].1 <= threshold && e == FromMatch(candidates[n].0, candidates[n].1);
      }
      if exists i :: 0 <= i < |candidates| && candidates[i].1 <= threshold && e == FromMatch(candidates[i].0, candidates[i].1) {
        var i :| 0 <= i < |candidates| && candidates[i].1 <= threshold && e == FromMatch(candidates[i].0, candidates[i].1);
        if i < n {
          assert init[i] == candidates[i];
        }
      }
    }
  }

  /** Filtering a concatenation filters each part: the result is decided candidate by candidate. */
  lemma {:induction false} WithinThresholdAppend(xs: seq<(Metadata, real)>, ys: seq<(Metadata, real)>, threshold: real)
    ensures WithinThreshold(xs + ys, threshold) == WithinThreshold(xs, threshold) + WithinThreshold(ys, threshold)
    decreases |ys|
  {
    if ys == [] {
      assert xs + ys == xs;
    } else {
      var n := |ys| - 1;
      assert (xs + ys)[..|xs + ys| - 1] == xs + ys[..n];
      assert (xs + ys)[|xs + ys| - 1] == ys[n];
      WithinThresholdAppend(xs, ys[..n], threshold);
    }
  }

  /** `xs` is `ys` with some elements left out, the rest kept in order. */
  ghost predicate Subsequence<T>(xs: seq<T>, ys: seq<T>)
    decreases |ys|
  {
    if xs == [] then true
    else if ys == [] then false
    else
      (xs[|xs| - 1] == ys[|ys| - 1] && Subsequence(xs[..|xs| - 1], ys[..|ys| - 1])) ||
      Subsequence(xs, ys[..|ys| - 1])
  }

  ghost predicate SortedByDistance(entries: seq<ArticleEntry>) {
    forall i, j :: 0 <= i < j < |entries| ==> entries[i].distance <= entries[j].distance
  }

  /** The result keeps the store's relative order of the candidates. */
  lemma {:induction false} WithinThresholdSubsequence(candidates: seq<(Metadata, real)>, threshold: real)
    ensures Subsequence(WithinThreshold(candidates, threshold), Entries(candidates))
    decreases |candidates|
  {
    if candidates != [] {
      var n := |candidates| - 1;
      var kept := WithinThreshold(candidates[..n], threshold);
      assert Entries(candidates)[..n] == Entries(candidates[..n]);
      WithinThresholdSubsequence(candidates[..n], threshold);
      if candidates[n].1 <= threshold {
        var r := WithinThreshold(candidates, threshold);
        assert r == kept + [Entries(candidates)[n]];
        assert r[..|r| - 1] == kept;
      } else {
        assert WithinThreshold(candidates, threshold) == kept;
      }
    }
  }

  lemma {:induction false} SubsequenceMembers<T>(xs: seq<T>, ys: seq<T>, x: T)
    requires Subsequence(xs, ys) && x in xs
    ensures x in ys
    decreases |ys|
  {
    var m := |ys| - 1;
    if xs[|xs| - 1] == ys[m] && Subsequence(xs[..|xs| - 1], ys[..m]) {
      if x != ys[m] {
        assert xs == xs[..|xs| - 1] + [xs[|xs| - 1]];
        SubsequenceMembers(xs[..|xs| - 1], ys[..m], x);
      }
    } else {
      SubsequenceMembers(xs, ys[..m], x);
    }
  }

  /** Leaving elements out of a list sorted by distance keeps it sorted. */
  lemma {:induction false} SortedSubsequence(xs: seq<ArticleEntry>, ys: seq<ArticleEntry>)
    requires Subsequence(xs, ys) && SortedByDistance(ys)
    ensures SortedByDistance(xs)
    decreases |ys|
  {
    if xs != [] {
      var n, m := |xs| - 1, |ys| - 1;
      if xs[n] == ys[m] && Subsequence(xs[..n], ys[..m]) {
        SortedSubsequence(xs[..n], ys[..m]);
        forall i | 0 <= i < n
          ensures xs[i].distance <= xs[n].distance
        {
          SubsequenceMembers(xs[..n], ys[..m], xs[i]);
        }
      } else {
        SortedSubsequence(xs, ys[..m]);
      }
    }
  }

  /** When the store's distances come in non-decreasing order, so do the result's. */
  lemma WithinThresholdSorted(candidates: seq<(Metadata, real)>, threshold: real)
    requires forall i, j :: 0 <= i < j < |candidates| ==> candidates[i].1 <= candidates[j].1
    ensures SortedByDistance(WithinThreshold(candidates, threshold))
  {
    WithinThresholdSubsequence(candidates, threshold);
    SortedSubsequence(WithinThreshold(candidates, threshold), Entries(candidates));
  }

  /**
   * The outcome of `semantic_search`: None when embedding the query or
   * querying the store raised, otherwise the filtered matches.
   */
  function SearchResults(query: string, maxResults: int, threshold: real,
                         store: (string, int) -> Option<QueryAnswer>): Option<seq<ArticleEntry>>
  {
    match store(query, maxResults)
    case None => None
    case Some(answer) => Some(WithinThreshold(Zip(answer.metadatas, answer.distances), threshold))
  }

  /**
   * `semantic_search`: asks the store for `maxResults` matches of the query
   * and keeps, in order, those whose distance is at most `threshold`.
   */
  method SemanticSearch(query: string, maxResults: int, threshold: real,
                        store: (string, int) -> Option<QueryAnswer>) returns (r: Option<seq<ArticleEntry>>)
    ensures r == SearchResults(query, maxResults, threshold, store)
    ensures r.None? <==> store(query, maxResults).None?
    ensures r.Some? ==> |r.value| <= |store(query, maxResults).value.metadatas|
    ensures r.Some? ==> |r.value| <= |store(query, maxResults).value.distances|
    ensures r.Some? ==> forall k :: 0 <= k < |r.value| ==> r.value[k].distance <= threshold
  {
    var results := store(query, maxResults);
    if results.None? {
      return None;
    }
    var metadata := results.value.metadatas;
    var distance := results.value.distances;
    var pairs := Zip(metadata, distance);
    var articles := [];
    for i := 0 to |pairs|
      invariant articles == WithinThreshold(pairs[..i], threshold)
    {
      assert pairs[..i + 1][..i] == pairs[..i];
      var (meta, dist) := pairs[i];
      if dist <= threshold {
        articles := articles + [FromMatch(meta, dist)];
      }
    }
    assert pairs[..|pairs|] == pairs;
    return Some(articles);
  }

  /**
   * Storing an article and later finding its record within the threshold
   * gives back an entry with the article's title, url and summary, its
   * topics as the stored joined text, and the match's distance.
   */
  lemma StoredArticleFound(a: ArticleEntry, embed: string -> Option<Embedding>,
                           candidates: seq<(Metadata, real)>, i: nat, threshold: real)
    requires AddArticleToDb(a, embed).Some?
    requires i < |candidates| && candidates[i].0 == AddArticleToDb(a, embed).value.metadata
    requires candidates[i].1 <= threshold
    ensures ArticleEntry(a.title, a.url, a.summary, TopicText(JoinedTopics(a)), candidates[i].1)
              in WithinThreshold(candidates, threshold)
  {
    WithinThresholdMembers(candidates, threshold,
      ArticleEntry(a.title, a.url, a.summary, TopicText(JoinedTopics(a)), candidates[i].1));
  }
}
