/**
 * The command-line driver: parse every URL it is given, each on its own,
 * then hand over to the interactive search loop.
 */
module Program {
  import opened Wrappers
  import opened Interactive

  /** The two fields of the summarizer's answer that are reported for a URL. */
  datatype Summary = Summary(title: string, summary: string)

  /** What parsing one URL reported. */
  datatype UrlOutcome = Parsed(url: string, title: string, summary: string) | Failed(url: string)

  /**
   * `parse_all`: summarizes every URL in list order; a URL whose
   * summarization raises is reported as failed and the loop goes on with
   * the next one. `summarize(i, url)` stands for the answer of the whole
   * summarization chain on its `i`-th call (None when it raises); it is
   * indexed by the call so that the same URL listed twice may fail once
   * and succeed the other time.
   */
  method ParseAll(urls: seq<string>, summarize: (nat, string) -> Option<Summary>) returns (outcomes: seq<UrlOutcome>)
    ensures |outcomes| == |urls|
    ensures forall i :: 0 <= i < |urls| ==>
      outcomes[i].url == urls[i] &&
      (outcomes[i].Parsed? <==> summarize(i, urls[i]).Some?) &&
      (outcomes[i].Parsed? ==>
        outcomes[i].title == summarize(i, urls[i]).value.title &&
        outcomes[i].summary == summarize(i, urls[i]).value.summary)
  {
    outcomes := [];
    for i := 0 to |urls|
      invariant |outcomes| == i
      invariant forall k :: 0 <= k < i ==>
        outcomes[k].url == urls[k] &&
        (outcomes[k].Parsed? <==> summarize(k, urls[k]).Some?) &&
        (outcomes[k].Parsed? ==>
          outcomes[k].title == summarize(k, urls[k]).value.title &&
          outcomes[k].summary == summarize(k, urls[k]).value.summary)
    {
      var url := urls[i];
      var result := summarize(i, url);
      if result.Some? {
        outcomes := outcomes + [Parsed(url, result.value.title, result.value.summary)];
      } else {
        outcomes := outcomes + [Failed(url)];
      }
    }
  }

  /**
   * The command-line flags: `--parse`, `--search`, and `--urls` (None when
   * the flag is absent, possibly empty when it is given without values).
   */
  datatype Args = Args(parse: bool, search: bool, urls: Option<seq<string>>)

  /** What the program does for its flags. */
  datatype Mode = Help | NoUrls | ParseThenSearch(urls: seq<string>) | SearchOnly

  /**
   * The URLs to parse: those given with `--urls` when there are any,
   * otherwise the `urls` list of the data file (empty when it has none).
   */
  function UrlSource(args: Args, dataUrls: Option<seq<string>>): (urls: seq<string>)
    ensures args.urls.Some? && args.urls.value != [] ==> urls == args.urls.value
    ensures (args.urls.None? || args.urls.value == []) ==> urls == dataUrls.GetOr([])
  {
    if args.urls.Some? && args.urls.value != [] then args.urls.value else dataUrls.GetOr([])
  }

  /** How `main` chooses what to do. */
  function SelectMode(args: Args, dataUrls: Option<seq<string>>): (m: Mode)
    ensures m == Help <==> !args.parse && !args.search
    ensures m == SearchOnly <==> !args.parse && args.search
    ensures m == NoUrls <==> args.parse && UrlSource(args, dataUrls) == []
    ensures m.ParseThenSearch? <==> args.parse && UrlSource(args, dataUrls) != []
    ensures m.ParseThenSearch? ==> m.urls == UrlSource(args, dataUrls)
  {
    if !args.parse && !args.search then Help
    else if args.parse then
      var urls := UrlSource(args, dataUrls);
      if urls == [] then NoUrls else ParseThenSearch(urls)
    else SearchOnly
  }

  /**
   * The exit status once the search loop has stopped: 0 after `/exit`;
   * 1 when it stopped on an exception, at end of input or from a search.
   */
  function ExitStatus(events: seq<Event>): int {
    if events != [] && events[|events| - 1].Quit? then 0 else 1
  }

  /** What one run of the program did. */
  datatype Outcome = Outcome(status: int, parsed: seq<UrlOutcome>, events: seq<Event>)

  /**
   * `main`: help and status 0 without `--parse` or `--search`; status 1
   * before any parsing when `--parse` has no URLs; otherwise the URLs are
   * parsed (with `--parse`) and the search loop runs on `lines`.
   */
  method RunCli(args: Args, dataUrls: Option<seq<string>>, lines: seq<string>,
                summarize: (nat, string) -> Option<Summary>, env: Env) returns (run: Outcome)
    ensures SelectMode(args, dataUrls) == Help ==> run == Outcome(0, [], [])
    ensures SelectMode(args, dataUrls) == NoUrls ==> run == Outcome(1, [], [])
    ensures SelectMode(args, dataUrls) == SearchOnly ==> run.parsed == []
    ensures SelectMode(args, dataUrls).ParseThenSearch? ==>
      var urls := SelectMode(args, dataUrls).urls;
      |run.parsed| == |urls| &&
      forall i :: 0 <= i < |urls| ==>
        run.parsed[i].url == urls[i] && (run.parsed[i].Parsed? <==> summarize(i, urls[i]).Some?)
    ensures SelectMode(args, dataUrls).ParseThenSearch? || SelectMode(args, dataUrls) == SearchOnly ==>
      run.events == Run(Dispatch(lines, env), InitialSettings, env).events &&
      run.status == ExitStatus(run.events)
  {
    if !args.parse && !args.search {
      return Outcome(0, [], []);
    }
    var parsed := [];
    if args.parse {
      var urls;
      if args.urls.Some? && args.urls.value != [] {
        urls := args.urls.value;
      } else {
        urls := dataUrls.GetOr([]);
      }
      if urls == [] {
        return Outcome(1, [], []);
      }
      parsed := ParseAll(urls, summarize);
    }
    var events, _ := InteractiveSearch(lines, env);
    return Outcome(ExitStatus(events), parsed, events);
  }
}
