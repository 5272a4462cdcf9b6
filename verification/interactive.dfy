/**
 * The interactive search loop: each input line is stripped and is either
 * `/exit`, a `/max-results N` or `/thresh X` command that adjusts one
 * setting, or a query that runs one search with the current settings.
 */
module Interactive {
  import opened Wrappers
  import opened Text
  import opened Articles

  datatype Settings = Settings(maxResults: int, threshold: real)

  /** The settings before the first line is read. */
  const InitialSettings := Settings(3, 0.5)

  const ExitCommand := "/exit"
  const MaxResultsPrefix := "/max-results "
  const ThresholdPrefix := "/thresh "

  /**
   * What the loop relies on but does not define: Python's `int()` and
   * `float()` on one word (None when they raise), and the embedding of a
   * query followed by the store's query for that many matches (None when
   * either raises).
   */
  datatype Env = Env(parseInt: string -> Option<int>, parseFloat: string -> Option<real>,
                     store: (string, int) -> Option<QueryAnswer>)

  /** What a line asks for, once stripped. */
  datatype Command =
    | Exit
    | SetMaxResults(count: Option<int>)    // None: the argument did not parse
    | SetThreshold(limit: Option<real>)    // None: the argument did not parse
    | Query(text: string)

  /**
   * A stripped line that starts with a command word and a space has a
   * second word: the `except` for a missing argument never fires.
   */
  lemma CommandArgumentExists(query: string, keyword: string)
    requires keyword != [] && NoSpace(keyword)
    requires StartsWith(query, keyword + " ") && !IsSpace(query[|query| - 1])
    ensures |Words(query)| >= 2 && Words(query)[0] == keyword
  {
    var rest := query[|keyword|..];
    assert query == keyword + rest;
    assert rest[0] == ' ' && rest[|rest| - 1] == query[|query| - 1];
    WordsAfterKeyword(keyword, rest);
  }

  /** Facts about the command words that the dispatch relies on. */
  lemma CommandWords(query: string)
    ensures MaxResultsPrefix == "/max-results" + " " && NoSpace("/max-results")
    ensures ThresholdPrefix == "/thresh" + " " && NoSpace("/thresh")
    ensures query == ExitCommand ==> !StartsWith(query, MaxResultsPrefix) && !StartsWith(query, ThresholdPrefix)
    ensures StartsWith(query, MaxResultsPrefix) ==> !StartsWith(query, ThresholdPrefix)
  {
    if StartsWith(query, MaxResultsPrefix) {
      assert query[1] == 'm';
    }
    if query == ExitCommand {
      assert query[1] == 'e';
    }
  }

  /** How the loop dispatches one input line. */
  function Classify(line: string, env: Env): (c: Command)
    ensures c.Exit? <==> Strip(line) == ExitCommand
    ensures c.SetMaxResults? <==> StartsWith(Strip(line), MaxResultsPrefix)
    ensures c.SetThreshold? <==> StartsWith(Strip(line), ThresholdPrefix)
    ensures c.SetMaxResults? ==>
      |Words(Strip(line))| >= 2 && Words(Strip(line))[0] == "/max-results" &&
      c.count == env.parseInt(Words(Strip(line))[1])
    ensures c.SetThreshold? ==>
      |Words(Strip(line))| >= 2 && Words(Strip(line))[0] == "/thresh" &&
      c.limit == env.parseFloat(Words(Strip(line))[1])
    ensures c.Query? ==> c.text == Strip(line)
  {
    var query := Strip(line);
    CommandWords(query);
    if query == ExitCommand then Exit
    else if StartsWith(query, MaxResultsPrefix) then
      CommandArgumentExists(query, "/max-results");
      SetMaxResults(env.parseInt(Words(query)[1]))
    else if StartsWith(query, ThresholdPrefix) then
      CommandArgumentExists(query, "/thresh");
      SetThreshold(env.parseFloat(Words(query)[1]))
    else Query(query)
  }

  /**
   * A command word with its trailing space and nothing after it loses the
   * space to stripping, no longer matches the command, and runs as a query.
   */
  lemma BareCommandsAreQueries(env: Env)
    ensures Classify("/max-results ", env) == Query("/max-results")
    ensures Classify("/thresh ", env) == Query("/thresh")
  {
    CommandWords([]);
    StripDropsTrailingSpace("/max-results");
    StripDropsTrailingSpace("/thresh");
  }

  lemma StripDropsTrailingSpace(word: string)
    requires word != [] && NoSpace(word)
    ensures Strip(word + " ") == word
  {
    var s := word + " ";
    assert LeadingSpaces(s) == 0;
    assert s[0..] == s && s[..|s| - 1] == word;
    assert TrailingSpaces(word) == 0;
  }

  /** What the loop does with one line. */
  datatype Event =
    | Quit                                                       // "/exit": the loop ends
    | Tuned(applied: bool)                                       // a command; false when its argument did not parse
    | Searched(query: string, settings: Settings, results: seq<ArticleEntry>)
    | Raised(query: string, settings: Settings)                  // the search raised, which ends the loop

  predicate Ends(e: Event) {
    e.Quit? || e.Raised?
  }

  /** The event for one command and the settings after it. */
  function Step(s: Settings, c: Command, env: Env): (Event, Settings) {
    match c
    case Exit => (Quit, s)
    case SetMaxResults(v) => (Tuned(v.Some?), s.(maxResults := v.GetOr(s.maxResults)))
    case SetThreshold(v) => (Tuned(v.Some?), s.(threshold := v.GetOr(s.threshold)))
    case Query(q) =>
      match SearchResults(q, s.maxResults, s.threshold, env.store)
      case None => (Raised(q, s), s)
      case Some(results) => (Searched(q, s, results), s)
  }

  /** One event per line read, and the settings when the loop stops. */
  datatype Transcript = Transcript(events: seq<Event>, settings: Settings)

  /** `f` applied to every element of `xs`, in order. */
  function Map<A, B>(xs: seq<A>, f: A -> B): (ys: seq<B>)
    ensures |ys| == |xs| && forall j :: 0 <= j < |xs| ==> ys[j] == f(xs[j])
  {
    seq(|xs|, j requires 0 <= j < |xs| => f(xs[j]))
  }

  /** The commands the lines ask for, line by line. */
  function Dispatch(lines: seq<string>, env: Env): seq<Command> {
    Map(lines, line => Classify(line, env))
  }

  /**
   * The loop run on the commands of the input lines from settings `s`: it
   * takes commands until one ends it or none are left (the latter is end
   * of input).
   */
  function Run(commands: seq<Command>, s: Settings, env: Env): (t: Transcript)
    ensures |t.events| <= |commands|
    decreases |commands|
  {
    if commands == [] then Transcript([], s)
    else
      var (e, next) := Step(s, commands[0], env);
      if Ends(e) then Transcript([e], s)
      else
        var rest := Run(commands[1..], next, env);
        Transcript([e] + rest.events, rest.settings)
  }

  /**
   * One pass of the loop's body: strips the line read and dispatches it
   * against the current settings, returning what it did and the settings
   * for the next line.
   */
  method HandleLine(line: string, current: Settings, env: Env) returns (event: Event, next: Settings)
    ensures (event, next) == Step(current, Classify(line, env), env)
  {
    var maxResults, distanceThreshold := current.maxResults, current.threshold;
    var query := Strip(line);
    CommandWords(query);
    if query == ExitCommand {
      event := Quit;
    } else if StartsWith(query, MaxResultsPrefix) {
      var words := Words(query);
      if |words| >= 2 && env.parseInt(words[1]).Some? {
        maxResults := env.parseInt(words[1]).value;
        event := Tuned(true);
      } else {
        event := Tuned(false);
      }
    } else if StartsWith(query, ThresholdPrefix) {
      var words := Words(query);
      if |words| >= 2 && env.parseFloat(words[1]).Some? {
        distanceThreshold := env.parseFloat(words[1]).value;
        event := Tuned(true);
      } else {
        event := Tuned(false);
      }
    } else {
      var results := SemanticSearch(query, maxResults, distanceThreshold, env.store);
      if results.None? {
        event := Raised(query, current);
      } else {
        event := Searched(query, current, results.value);
      }
    }
    next := Settings(maxResults, distanceThreshold);
  }

  /**
   * `interactive_search` fed with `lines`: the events it produces and the
   * settings it holds when it stops.
   */
  method InteractiveSearch(lines: seq<string>, env: Env) returns (events: seq<Event>, settings: Settings)
    ensures Transcript(events, settings) == Run(Dispatch(lines, env), InitialSettings, env)
  {
    var maxResults := 3;
    var distanceThreshold := 0.5;
    events := [];
    var i := 0;
    while i < |lines|
      invariant 0 <= i <= |lines|
      invariant Run(Dispatch(lines, env), InitialSettings, env) ==
        var rest := Run(Dispatch(lines, env)[i..], Settings(maxResults, distanceThreshold), env);
        Transcript(events + rest.events, rest.settings)
    {
      ghost var commands := Dispatch(lines, env);
      ghost var before := events;
      assert commands[i..][0] == Classify(lines[i], env) && commands[i..][1..] == commands[i + 1..];
      var event, next := HandleLine(lines[i], Settings(maxResults, distanceThreshold), env);
      ghost var rest := Run(commands[i + 1..], next, env);
      assert Run(commands[i..], Settings(maxResults, distanceThreshold), env) ==
        if Ends(event) then Transcript([event], Settings(maxResults, distanceThreshold))
        else Transcript([event] + rest.events, rest.settings);
      events := events + [event];
      i := i + 1;
      if Ends(event) {
        break;
      }
      maxResults, distanceThreshold := next.maxResults, next.threshold;
      assert (before + [event]) + rest.events == before + ([event] + rest.events);
    }
    settings := Settings(maxResults, distanceThreshold);
  }

  /** The event a line produces answers its command, and a search event carries that search's outcome. */
  predicate Answers(e: Event, c: Command, env: Env) {
    match c
    case Exit => e == Quit
    case SetMaxResults(v) => e == Tuned(v.Some?)
    case SetThreshold(v) => e == Tuned(v.Some?)
    case Query(q) =>
      (e.Searched? && e.query == q && SearchResults(q, e.settings.maxResults, e.settings.threshold, env.store) == Some(e.results)) ||
      (e.Raised? && e.query == q && SearchResults(q, e.settings.maxResults, e.settings.threshold, env.store).None?)
  }

  /**
   * The j-th event answers the j-th command: commands never search, every
   * query searches exactly once. Only the last event can end the loop, and
   * the loop takes every command unless an event ends it.
   */
  lemma {:induction false} RunEvents(commands: seq<Command>, s: Settings, env: Env)
    ensures var t := Run(commands, s, env);
      forall j :: 0 <= j < |t.events| ==> Answers(t.events[j], commands[j], env)
    ensures var t := Run(commands, s, env);
      forall j :: 0 <= j < |t.events| - 1 ==> !Ends(t.events[j])
    ensures var t := Run(commands, s, env);
      |t.events| < |commands| ==> t.events != [] && Ends(t.events[|t.events| - 1])
    decreases |commands|
  {
    if commands != [] {
      var (e, next) := Step(s, commands[0], env);
      if !Ends(e) {
        RunEvents(commands[1..], next, env);
        var t, rest := Run(commands, s, env), Run(commands[1..], next, env);
        assert t.events == [e] + rest.events;
        forall j | 0 < j < |t.events|
          ensures t.events[j] == rest.events[j - 1] && commands[j] == commands[1..][j - 1]
        {
        }
      }
    }
  }

  /** Once an event ends the loop, no later line is read: lines after it change nothing. */
  lemma {:induction false} RunStopsAtEnd(commands: seq<Command>, more: seq<Command>, s: Settings, env: Env)
    requires Run(commands, s, env).events != []
    requires Ends(Run(commands, s, env).events[|Run(commands, s, env).events| - 1])
    ensures Run(commands + more, s, env) == Run(commands, s, env)
    decreases |commands|
  {
    var (e, next) := Step(s, commands[0], env);
    assert (commands + more)[0] == commands[0];
    if !Ends(e) {
      assert (commands + more)[1..] == commands[1..] + more;
      RunStopsAtEnd(commands[1..], more, next, env);
    }
  }

  lemma DispatchAppend(lines: seq<string>, more: seq<string>, env: Env)
    ensures Dispatch(lines + more, env) == Dispatch(lines, env) + Dispatch(more, env)
  {
    var all, front, back := Dispatch(lines + more, env), Dispatch(lines, env), Dispatch(more, env);
    assert forall j :: 0 <= j < |all| ==> all[j] == (front + back)[j];
  }

  /** Lines after the one that ends the session are never read. */
  lemma SessionIgnoresLaterLines(lines: seq<string>, more: seq<string>, s: Settings, env: Env)
    requires Run(Dispatch(lines, env), s, env).events != []
    requires Ends(Run(Dispatch(lines, env), s, env).events[|Run(Dispatch(lines, env), s, env).events| - 1])
    ensures Run(Dispatch(lines + more, env), s, env) == Run(Dispatch(lines, env), s, env)
  {
    DispatchAppend(lines, more, env);
    RunStopsAtEnd(Dispatch(lines, env), Dispatch(more, env), s, env);
  }

  /** The count a command asks for: the parsed argument of a `/max-results` line. */
  function MaxResultsRequest(c: Command): Option<int> {
    match c
    case SetMaxResults(v) => v
    case _ => None
  }

  /** The threshold a command asks for: the parsed argument of a `/thresh` line. */
  function ThresholdRequest(c: Command): Option<real> {
    match c
    case SetThreshold(v) => v
    case _ => None
  }

  /** The last value present in `xs`, if any. */
  function LastSome<T>(xs: seq<Option<T>>): Option<T> {
    if xs == [] then None
    else if xs[|xs| - 1].Some? then xs[|xs| - 1]
    else LastSome(xs[..|xs| - 1])
  }

  lemma {:induction false} LastSomeCons<T>(x: Option<T>, xs: seq<Option<T>>, default: T)
    ensures LastSome([x] + xs).GetOr(default) == LastSome(xs).GetOr(x.GetOr(default))
    decreases |xs|
  {
    if xs != [] {
      var n := |xs| - 1;
      assert ([x] + xs)[..n + 1] == [x] + xs[..n];
      LastSomeCons(x, xs[..n], default);
    }
  }

  /**
   * The settings after `commands` taken from `s`, by a definition
   * independent of the loop: each setting is the argument of the last
   * command that set it with an argument that parsed, or its value in `s`
   * if there is none.
   */
  function SettingsAfter(commands: seq<Command>, s: Settings): Settings {
    Settings(
      LastSome(seq(|commands|, j requires 0 <= j < |commands| => MaxResultsRequest(commands[j]))).GetOr(s.maxResults),
      LastSome(seq(|commands|, j requires 0 <= j < |commands| => ThresholdRequest(commands[j]))).GetOr(s.threshold))
  }

  lemma SettingsAfterCons(c: Command, commands: seq<Command>, s: Settings, env: Env)
    ensures SettingsAfter([c] + commands, s) == SettingsAfter(commands, Step(s, c, env).1)
  {
    var all := [c] + commands;
    var maxes := seq(|commands|, j requires 0 <= j < |commands| => MaxResultsRequest(commands[j]));
    var threshes := seq(|commands|, j requires 0 <= j < |commands| => ThresholdRequest(commands[j]));
    assert seq(|all|, j requires 0 <= j < |all| => MaxResultsRequest(all[j])) == [MaxResultsRequest(c)] + maxes;
    assert seq(|all|, j requires 0 <= j < |all| => ThresholdRequest(all[j])) == [ThresholdRequest(c)] + threshes;
    LastSomeCons(MaxResultsRequest(c), maxes, s.maxResults);
    LastSomeCons(ThresholdRequest(c), threshes, s.threshold);
  }

  /**
   * Every search runs with the settings the commands before it establish:
   * a setting changes only on a command whose argument parsed, and then to
   * that argument.
   */
  lemma {:induction false} RunSearchSettings(commands: seq<Command>, s: Settings, env: Env, j: nat)
    requires j < |Run(commands, s, env).events|
    requires Run(commands, s, env).events[j].Searched? || Run(commands, s, env).events[j].Raised?
    ensures Run(commands, s, env).events[j].settings == SettingsAfter(commands[..j], s)
    decreases |commands|
  {
    var (e, next) := Step(s, commands[0], env);
    if j == 0 {
      assert commands[..0] == [];
    } else {
      var rest := Run(commands[1..], next, env);
      assert Run(commands, s, env).events[j] == rest.events[j - 1];
      RunSearchSettings(commands[1..], next, env, j - 1);
      assert commands[..j] == [commands[0]] + commands[1..][..j - 1];
      SettingsAfterCons(commands[0], commands[1..][..j - 1], s, env);
    }
  }

  /** The settings the loop holds when it stops are those the commands it took establish. */
  lemma {:induction false} RunFinalSettings(commands: seq<Command>, s: Settings, env: Env)
    ensures Run(commands, s, env).settings == SettingsAfter(commands[..|Run(commands, s, env).events|], s)
    decreases |commands|
  {
    if commands == [] {
      assert commands[..0] == [];
    } else {
      var (e, next) := Step(s, commands[0], env);
      if Ends(e) {
        assert commands[..1] == [commands[0]] + [];
        SettingsAfterCons(commands[0], [], s, env);
        assert SettingsAfter([], next) == next;
      } else {
        var rest := Run(commands[1..], next, env);
        RunFinalSettings(commands[1..], next, env);
        var n := |rest.events|;
        assert commands[..n + 1] == [commands[0]] + commands[1..][..n];
        SettingsAfterCons(commands[0], commands[1..][..n], s, env);
      }
    }
  }
}
