/** `parse_apache_log`: reads the access log line by line and keeps one
    entry per click on a tracked link or on a download reached from a
    tracked page. */
module LogParser {
  import opened Strings
  import opened Query
  import opened Schema

  /** The nine groups of the Extended Common Log Format pattern. */
  datatype LogFields = LogFields(
    host: string, ident: string, user: string, date: string, request: string,
    status: string, size: string, referer: string, agent: string)

  /** `[kind, host, agent, date, ref]`; the date is the bracketed field as written. */
  datatype Entry = Entry(kind: Kind, host: string, agent: string, date: string, ref: string)

  // ---------------------------------------------------------------------
  // The pattern
  //   ([^ ]*) ([^ ]*) ([^ ]*) \[([^]]*)\] "([^"]*)" ([^ ]*) ([^ ]*) "([^"]*)" "([^"]*)"
  // matched at the start of the line only. It is nine steps, each a group
  // of characters other than a stop character followed by a literal that
  // begins with that stop character; so each group runs up to the first
  // stop character, and the match, when there is one, is unique.

  /** `([^stop]*)lit` */
  datatype Step = Step(stop: char, lit: string)

  const Pattern: seq<Step> := [
    Step(' ', " "), Step(' ', " "), Step(' ', " ["), Step(']', "] \""), Step('"', "\" "),
    Step(' ', " "), Step(' ', " \""), Step('"', "\" \""), Step('"', "\"")]

  predicate Deterministic(steps: seq<Step>)
  {
    forall k :: 0 <= k < |steps| ==> steps[k].lit != [] && steps[k].lit[0] == steps[k].stop
  }

  /** One step on `s`: the group and the rest of the line. */
  function Take(s: string, st: Step): Option<(string, string)>
  {
    var n := IndexOf(s, st.stop);
    if st.lit <= s[n..] then Some((s[..n], s[n + |st.lit|..])) else None
  }

  /** The groups of `steps` matched at the start of `s`. */
  function Groups(s: string, steps: seq<Step>): (r: Option<seq<string>>)
    ensures r.Some? ==> |r.value| == |steps|
    decreases |steps|
  {
    if steps == [] then Some([])
    else match Take(s, steps[0])
      case None => None
      case Some(t) =>
        match Groups(t.1, steps[1..])
        case None => None
        case Some(gs) => Some([t.0] + gs)
  }

  /** The text the steps match when their groups are `gs`. */
  function Render(gs: seq<string>, steps: seq<Step>): string
    requires |gs| == |steps|
    decreases |steps|
  {
    if steps == [] then "" else gs[0] + steps[0].lit + Render(gs[1..], steps[1..])
  }

  predicate Fits(gs: seq<string>, steps: seq<Step>)
  {
    |gs| == |steps| && forall k :: 0 <= k < |gs| ==> steps[k].stop !in gs[k]
  }

  lemma TakeExact(field: string, st: Step, rest: string)
    requires st.stop !in field && st.lit != [] && st.lit[0] == st.stop
    ensures Take(field + st.lit + rest, st) == Some((field, rest))
  {
    var s := field + st.lit + rest;
    var n := IndexOf(s, st.stop);
    assert forall j :: 0 <= j < |field| ==> s[j] == field[j];
    assert s[|field|] == st.stop;
    assert n == |field|;
    assert s[..n] == field;
    assert s[n..] == st.lit + rest;
    assert s[n + |st.lit|..] == rest;
  }

  /** Any text that begins with fitting groups matches them, whatever follows. */
  lemma {:induction false} GroupsComplete(gs: seq<string>, steps: seq<Step>, rest: string)
    requires Deterministic(steps) && Fits(gs, steps)
    ensures Groups(Render(gs, steps) + rest, steps) == Some(gs)
    decreases |steps|
  {
    if steps != [] {
      var tail := Render(gs[1..], steps[1..]) + rest;
      assert Render(gs, steps) + rest == gs[0] + steps[0].lit + tail;
      TakeExact(gs[0], steps[0], tail);
      GroupsComplete(gs[1..], steps[1..], rest);
      assert gs == [gs[0]] + gs[1..];
    }
  }

  /** A match gives fitting groups, and the text begins with what they render. */
  lemma TakeSound(s: string, st: Step)
    requires Take(s, st).Some?
    ensures st.stop !in Take(s, st).value.0
    ensures s == Take(s, st).value.0 + st.lit + Take(s, st).value.1
  {
    var n := IndexOf(s, st.stop);
    var field, rest := s[..n], s[n + |st.lit|..];
    assert st.lit <= s[n..];
    assert Take(s, st) == Some((field, rest));
    assert s[n..] == st.lit + rest;
    assert s == field + s[n..];
  }

  lemma {:induction false} GroupsSound(s: string, steps: seq<Step>) returns (rest: string)
    requires Groups(s, steps).Some?
    ensures Fits(Groups(s, steps).value, steps)
    ensures s == Render(Groups(s, steps).value, steps) + rest
    decreases |steps|
  {
    if steps == [] {
      rest := s;
    } else {
      var st := steps[0];
      var t := GroupsCons(s, steps);
      TakeSound(s, st);
      var gs' := Groups(t.1, steps[1..]).value;
      rest := GroupsSound(t.1, steps[1..]);
      var gs := [t.0] + gs';
      FitsCons(t.0, gs', steps);
      assert gs[1..] == gs';
      var tail := Render(gs', steps[1..]);
      assert Render(gs, steps) == t.0 + st.lit + tail;
      Regroup(t.0, st.lit, tail, rest);
    }
  }

  /** Regrouping a concatenation, kept out of `GroupsSound`'s own proof. */
  lemma Regroup(a: string, b: string, c: string, d: string)
    ensures a + b + (c + d) == (a + b + c) + d
  {
  }

  /** The groups of a match: the first step's field, then the rest's groups. */
  lemma GroupsCons(s: string, steps: seq<Step>) returns (t: (string, string))
    requires steps != [] && Groups(s, steps).Some?
    ensures Take(s, steps[0]) == Some(t)
    ensures Groups(t.1, steps[1..]).Some?
    ensures Groups(s, steps).value == [t.0] + Groups(t.1, steps[1..]).value
  {
    t := Take(s, steps[0]).value;
  }

  lemma FitsCons(g: string, gs: seq<string>, steps: seq<Step>)
    requires steps != [] && steps[0].stop !in g && Fits(gs, steps[1..])
    ensures Fits([g] + gs, steps)
  {
    var all := [g] + gs;
    forall k | 0 <= k < |all| ensures steps[k].stop !in all[k] {
      if k > 0 {
        assert all[k] == gs[k - 1] && steps[k] == steps[1..][k - 1];
      }
    }
  }

  function FieldsOf(gs: seq<string>): LogFields
    requires |gs| == 9
  {
    LogFields(gs[0], gs[1], gs[2], gs[3], gs[4], gs[5], gs[6], gs[7], gs[8])
  }

  function GroupsOf(f: LogFields): seq<string>
  {
    [f.host, f.ident, f.user, f.date, f.request, f.status, f.size, f.referer, f.agent]
  }

  /** `pattern.match(line)` */
  function MatchLogLine(line: string): Option<LogFields>
  {
    match Groups(line, Pattern)
    case None => None
    case Some(gs) => Some(FieldsOf(gs))
  }

  /** Each field is free of the character that ends its group. */
  predicate WellFormed(f: LogFields)
  {
    && ' ' !in f.host && ' ' !in f.ident && ' ' !in f.user && ']' !in f.date
    && '"' !in f.request && ' ' !in f.status && ' ' !in f.size
    && '"' !in f.referer && '"' !in f.agent
  }

  /** `host ident user [date] "request" status size "referer" "agent"` */
  function LineOf(f: LogFields): string
  {
    Render(GroupsOf(f), Pattern)
  }

  lemma WellFormedFits(f: LogFields)
    ensures WellFormed(f) <==> Fits(GroupsOf(f), Pattern)
  {
    var gs := GroupsOf(f);
    if Fits(gs, Pattern) {
      assert Pattern[0].stop !in gs[0] && Pattern[1].stop !in gs[1] && Pattern[2].stop !in gs[2];
      assert Pattern[3].stop !in gs[3] && Pattern[4].stop !in gs[4] && Pattern[5].stop !in gs[5];
      assert Pattern[6].stop !in gs[6] && Pattern[7].stop !in gs[7] && Pattern[8].stop !in gs[8];
    }
  }

  /** Any line that begins with a well-formed record matches it, whatever follows. */
  lemma MatchComplete(f: LogFields, rest: string)
    requires WellFormed(f)
    ensures MatchLogLine(LineOf(f) + rest) == Some(f)
  {
    var gs := GroupsOf(f);
    WellFormedFits(f);
    PatternDeterministic();
    GroupsComplete(gs, Pattern, rest);
    assert FieldsOf(gs) == f;
  }

  lemma PatternDeterministic()
    ensures Deterministic(Pattern)
  {
  }

  /** A match gives well-formed groups, and the line begins with their record. */
  lemma MatchSound(line: string)
    requires MatchLogLine(line).Some?
    ensures WellFormed(MatchLogLine(line).value)
    ensures exists rest :: line == LineOf(MatchLogLine(line).value) + rest
  {
    var gs := Groups(line, Pattern).value;
    var rest := GroupsSound(line, Pattern);
    var f := FieldsOf(gs);
    assert MatchLogLine(line) == Some(f);
    GroupsOfFields(gs);
    WellFormedFits(f);
    assert LineOf(f) == Render(gs, Pattern);
    assert line == LineOf(f) + rest;
  }

  lemma GroupsOfFields(gs: seq<string>)
    requires |gs| == 9
    ensures GroupsOf(FieldsOf(gs)) == gs
  {
  }

  /** A line fails to match exactly when it does not begin with any well-formed record. */
  lemma MatchFailsIff(line: string)
    ensures MatchLogLine(line).None? <==>
            forall f: LogFields, rest: string :: WellFormed(f) ==> line != LineOf(f) + rest
  {
    if MatchLogLine(line).Some? {
      MatchSound(line);
    } else {
      forall f: LogFields, rest: string | WellFormed(f) ensures line != LineOf(f) + rest {
        MatchComplete(f, rest);
      }
    }
  }

  // ---------------------------------------------------------------------
  // One line

  datatype Verdict =
    | Unmatched          // no match: a warning, and on to the next line
    | NoEntry            // matched, but not a tracked click
    | Emit(entry: Entry)
    | SplitFailure       // `request.split()[1]` raises IndexError

  /** The body of the loop in `parse_apache_log` for one line. */
  function Classify(line: string, parameter: string): Verdict
  {
    match MatchLogLine(line)
    case None => Unmatched
    case Some(f) => Judge(f, parameter)
  }

  /** The verdict on a matched line. */
  function Judge(f: LogFields, parameter: string): Verdict
  {
    if f.status == "200" && Contains(f.request, parameter) then
      var ts := Tokens(f.request);
      if |ts| < 2 then SplitFailure
      else
        var q := QueryOf(ts[1]);
        if HasKey(q, parameter) then Emit(Entry(Link, f.host, f.agent, f.date, Joined(q, parameter)))
        else NoEntry
    else if f.status == "200" && Contains(f.request, "download") && Contains(f.referer, parameter) then
      var q := QueryOf(f.referer);
      if HasKey(q, parameter) then Emit(Entry(Download, f.host, f.agent, f.date, Joined(q, parameter)))
      else NoEntry
    else NoEntry
  }

  /** A link entry: status "200", the parameter in the request line, and the
      parameter a key of the query of the request's second token. */
  lemma LinkEntryIff(line: string, parameter: string, e: Entry)
    ensures Classify(line, parameter) == Emit(e) && e.kind == Link <==>
      exists f :: MatchLogLine(line) == Some(f)
        && f.status == "200" && Contains(f.request, parameter)
        && |Tokens(f.request)| >= 2
        && HasKey(QueryOf(Tokens(f.request)[1]), parameter)
        && e == Entry(Link, f.host, f.agent, f.date, Joined(QueryOf(Tokens(f.request)[1]), parameter))
  {
  }

  /** A download entry: status "200", the parameter NOT in the request line,
      "download" in it, and the parameter a key of the referer's query; the
      ref comes from the referer. The source's extra test that the parameter
      occurs in the referer never changes the outcome. */
  lemma DownloadEntryIff(line: string, parameter: string, e: Entry)
    ensures Classify(line, parameter) == Emit(e) && e.kind == Download <==>
      exists f :: MatchLogLine(line) == Some(f)
        && f.status == "200" && !Contains(f.request, parameter)
        && Contains(f.request, "download")
        && HasKey(QueryOf(f.referer), parameter)
        && e == Entry(Download, f.host, f.agent, f.date, Joined(QueryOf(f.referer), parameter))
  {
    if MatchLogLine(line).Some? {
      var f := MatchLogLine(line).value;
      assert Classify(line, parameter) == Judge(f, parameter);
      JudgeDownload(f, parameter, e);
    }
  }

  lemma JudgeDownload(f: LogFields, parameter: string, e: Entry)
    ensures Judge(f, parameter) == Emit(e) && e.kind == Download <==>
      && f.status == "200" && !Contains(f.request, parameter)
      && Contains(f.request, "download")
      && HasKey(QueryOf(f.referer), parameter)
      && e == Entry(Download, f.host, f.agent, f.date, Joined(QueryOf(f.referer), parameter))
  {
    var q := QueryOf(f.referer);
    if HasKey(q, parameter) {
      HasKeyContained(q, parameter);
      QueryOfContained(f.referer);
      ContainsTransitive(f.referer, q, parameter);
    }
  }

  /** Any status other than "200" produces nothing. */
  lemma OnlyStatus200(line: string, parameter: string)
    requires MatchLogLine(line).Some? && MatchLogLine(line).value.status != "200"
    ensures Classify(line, parameter) == NoEntry
  {
  }

  /** The parameter in the request line without being a key of its query:
      nothing, and the download branch is not tried. */
  lemma RequestWithoutKey(line: string, parameter: string)
    requires MatchLogLine(line).Some?
    requires var f := MatchLogLine(line).value;
      f.status == "200" && Contains(f.request, parameter)
      && |Tokens(f.request)| >= 2 && !HasKey(QueryOf(Tokens(f.request)[1]), parameter)
    ensures Classify(line, parameter) == NoEntry
  {
  }

  /** The run stops on a matched "200" line whose request holds the parameter
      but has fewer than two whitespace-separated tokens. */
  lemma SplitFailureIff(line: string, parameter: string)
    ensures Classify(line, parameter) == SplitFailure <==>
      exists f :: MatchLogLine(line) == Some(f)
        && f.status == "200" && Contains(f.request, parameter) && |Tokens(f.request)| < 2
  {
  }

  /** Host is the first group, agent the ninth, the date the bracketed group unchanged. */
  lemma EntryFields(line: string, parameter: string)
    requires Classify(line, parameter).Emit?
    ensures MatchLogLine(line).Some?
    ensures var f, e := MatchLogLine(line).value, Classify(line, parameter).entry;
      e.host == f.host && e.agent == f.agent && e.date == f.date
  {
  }

  // ---------------------------------------------------------------------
  // The whole log

  datatype ParseResult =
    | Parsed(entries: seq<Entry>, warnings: seq<nat>)  // warnings: indices of unmatched lines
    | Crashed(line: nat)                               // the uncaught IndexError, by line index

  /** The verdict on every line, in order. */
  function Verdicts(lines: seq<string>, parameter: string): (vs: seq<Verdict>)
    ensures |vs| == |lines|
  {
    seq(|lines|, i requires 0 <= i < |lines| => Classify(lines[i], parameter))
  }

  /** The loop of `parse_apache_log` over the lines' verdicts: collect the
      entries, note the unmatched lines, stop at the first split failure. */
  function Run(vs: seq<Verdict>): (r: ParseResult)
    ensures r.Crashed? ==> r.line < |vs|
    ensures r.Parsed? ==> forall k :: 0 <= k < |r.warnings| ==> r.warnings[k] < |vs|
    decreases |vs|
  {
    if vs == [] then Parsed([], [])
    else
      var last := |vs| - 1;
      match Run(vs[..last])
      case Crashed(k) => Crashed(k)
      case Parsed(es, ws) =>
        match vs[last]
        case Unmatched => Parsed(es, ws + [last])
        case NoEntry => Parsed(es, ws)
        case Emit(e) => Parsed(es + [e], ws)
        case SplitFailure => Crashed(last)
  }

  /** What `parse_apache_log` returns for the given lines. */
  function ParseLog(lines: seq<string>, parameter: string): ParseResult
  {
    Run(Verdicts(lines, parameter))
  }

  method ParseApacheLog(lines: seq<string>, parameter: string) returns (result: ParseResult)
    ensures result == ParseLog(lines, parameter)
  {
    ghost var vs := Verdicts(lines, parameter);
    var entries: seq<Entry> := [];
    var warnings: seq<nat> := [];
    var i := 0;
    while i < |lines|
      invariant 0 <= i <= |lines|
      invariant Run(vs[..i]) == Parsed(entries, warnings)
    {
      var v := Classify(lines[i], parameter);
      assert v == vs[i];
      RunStep(vs, i);
      if v.SplitFailure? {
        RunCrashedStays(vs, i + 1);
        return Crashed(i);
      } else if v.Unmatched? {
        warnings := warnings + [i];
      } else if v.Emit? {
        entries := entries + [v.entry];
      }
      i := i + 1;
    }
    assert vs[..|lines|] == vs;
    return Parsed(entries, warnings);
  }

  lemma RunStep(vs: seq<Verdict>, i: nat)
    requires i < |vs|
    ensures Run(vs[..i + 1]) == match Run(vs[..i])
      case Crashed(k) => Crashed(k)
      case Parsed(es, ws) =>
        match vs[i]
        case Unmatched => Parsed(es, ws + [i])
        case NoEntry => Parsed(es, ws)
        case Emit(e) => Parsed(es + [e], ws)
        case SplitFailure => Crashed(i)
  {
    assert vs[..i + 1][..i] == vs[..i];
  }

  /** Lines after a crash are never read. */
  lemma {:induction false} RunCrashedStays(vs: seq<Verdict>, n: nat)
    requires n <= |vs| && Run(vs[..n]).Crashed?
    ensures Run(vs) == Run(vs[..n])
    decreases |vs|
  {
    if n < |vs| {
      var last := |vs| - 1;
      assert vs[..last][..n] == vs[..n];
      RunCrashedStays(vs[..last], n);
    } else {
      assert vs[..n] == vs;
    }
  }

  predicate Increasing(s: seq<nat>)
  {
    forall i, j :: 0 <= i < j < |s| ==> s[i] < s[j]
  }

  lemma {:induction false} RunCrashedIff(vs: seq<Verdict>, k: nat)
    ensures Run(vs) == Crashed(k) <==>
      k < |vs| && vs[k] == SplitFailure && forall j :: 0 <= j < k ==> vs[j] != SplitFailure
    decreases |vs|
  {
    if vs != [] {
      var last := |vs| - 1;
      var init := vs[..last];
      assert forall j :: 0 <= j < last ==> init[j] == vs[j];
      RunCrashedIff(init, k);
      if Run(init).Crashed? {
        RunCrashedIff(init, Run(init).line);
      }
      if Run(init).Parsed? && k == last {
        forall j | 0 <= j < last ensures vs[j] != SplitFailure {
          if vs[j] == SplitFailure {
            RunFirstFailure(init, j);
          }
        }
      }
    }
  }

  lemma {:induction false} RunFirstFailure(vs: seq<Verdict>, j: nat)
    requires j < |vs| && vs[j] == SplitFailure
    ensures Run(vs).Crashed? && Run(vs).line <= j
    decreases |vs|
  {
    var last := |vs| - 1;
    if j < last {
      assert vs[..last][j] == vs[j];
      RunFirstFailure(vs[..last], j);
    } else {
      assert vs[..last][..|vs[..last]|] == vs[..last];
    }
  }

  /** The entries come from the emitting verdicts, in order, one each. */
  lemma {:induction false} RunSources(vs: seq<Verdict>) returns (src: seq<nat>)
    requires Run(vs).Parsed?
    ensures var es := Run(vs).entries;
      && |src| == |es| && Increasing(src)
      && (forall k :: 0 <= k < |src| ==> src[k] < |vs| && vs[src[k]] == Emit(es[k]))
      && (forall i :: 0 <= i < |vs| && vs[i].Emit? ==> i in src)
    decreases |vs|
  {
    if vs == [] {
      src := [];
    } else {
      var last := |vs| - 1;
      var init := vs[..last];
      assert forall j :: 0 <= j < last ==> init[j] == vs[j];
      var r := Run(init);
      src := RunSources(init);
      if vs[last].Emit? {
        assert Run(vs).entries == r.entries + [vs[last].entry];
        src := src + [last];
      } else {
        assert Run(vs).entries == r.entries;
      }
    }
  }

  /** The warnings are the unmatched verdicts' indices, in order. */
  lemma {:induction false} RunWarnings(vs: seq<Verdict>)
    requires Run(vs).Parsed?
    ensures Increasing(Run(vs).warnings)
    ensures forall i :: i in Run(vs).warnings <==> 0 <= i < |vs| && vs[i] == Unmatched
    decreases |vs|
  {
    if vs != [] {
      var last := |vs| - 1;
      var init := vs[..last];
      assert forall j :: 0 <= j < last ==> init[j] == vs[j];
      var r := Run(init);
      RunWarnings(init);
      if vs[last] == Unmatched {
        assert Run(vs).warnings == r.warnings + [last];
      } else {
        assert Run(vs).warnings == r.warnings;
      }
    }
  }

  /** The run stops at the first line whose request cannot be split, and only there. */
  lemma CrashedIff(lines: seq<string>, parameter: string, k: nat)
    ensures ParseLog(lines, parameter) == Crashed(k) <==>
      k < |lines| && Classify(lines[k], parameter) == SplitFailure
      && forall j :: 0 <= j < k ==> Classify(lines[j], parameter) != SplitFailure
  {
    var vs := Verdicts(lines, parameter);
    assert forall j :: 0 <= j < |lines| ==> vs[j] == Classify(lines[j], parameter);
    RunCrashedIff(vs, k);
  }

  /** When the run completes, the entries are the emitted lines' entries in
      line order, at most one per line, and the warnings are exactly the
      indices of the lines that do not match the pattern, in order. */
  lemma ParsedShape(lines: seq<string>, parameter: string) returns (src: seq<nat>)
    requires ParseLog(lines, parameter).Parsed?
    ensures var r := ParseLog(lines, parameter);
      && |src| == |r.entries| && Increasing(src)
      && (forall k :: 0 <= k < |src| ==> src[k] < |lines| && Classify(lines[src[k]], parameter) == Emit(r.entries[k]))
      && (forall i :: 0 <= i < |lines| && Classify(lines[i], parameter).Emit? ==> i in src)
      && Increasing(r.warnings)
      && (forall i :: i in r.warnings <==> 0 <= i < |lines| && Classify(lines[i], parameter) == Unmatched)
  {
    var vs := Verdicts(lines, parameter);
    src := RunSources(vs);
    RunWarnings(vs);
  }
}
