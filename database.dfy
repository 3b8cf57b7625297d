/** The loaders `populate_Employee`, `populate_Link` and `populate_Payload`:
    each reads its input one line (or one log entry) at a time, inserts one
    row per line inside a transaction that sees its own earlier inserts, and
    commits only after the last line. The first line that cannot be split,
    whose date does not parse, or whose insert breaks a key or foreign-key
    constraint ends the run (an uncaught exception, or `sys.exit(1)` after a
    MySQL error); either way nothing from that input is committed. */
module Database {
  import opened Strings
  import opened Schema
  import opened Timestamp
  import opened LogParser

  datatype Failure =
    | NoSecondField      // `line.split(',')[1]` raises IndexError
    | DuplicateKey       // IntegrityError: the primary key is already present
    | DanglingReference  // IntegrityError: the foreign key has no parent row
    | NoDateToken        // `entries[3].split()[0]` raises IndexError
    | BadDate            // `strptime` raises ValueError

  /** What loading an input does to one table: its rows after the commit,
      or the failure and the index of the line that caused it. */
  datatype Load<T> = Done(rows: seq<T>) | Stopped(failure: Failure, line: nat)

  datatype Outcome = Committed | Failed(failure: Failure, line: nat)

  function OutcomeOf<T>(l: Load<T>): Outcome
  {
    match l
    case Done(_) => Committed
    case Stopped(f, k) => Failed(f, k)
  }

  // ---------------------------------------------------------------------
  // Splitting a CSV line

  /** `(line.split(',')[0], line.split(',')[1].rstrip())`; `None` for the IndexError. */
  function CommaFields(line: string): Option<(string, string)>
  {
    var parts := Split(line, {','});
    if |parts| < 2 then None else Some((parts[0], RStrip(parts[1])))
  }

  /** A roster line `email,role`: every row gets the client of the run. */
  function RosterLine(client: string, line: string): Option<EmployeeRow>
  {
    match CommaFields(line)
    case None => None
    case Some(f) => Some(EmployeeRow(client, f.0, f.1))
  }

  /** A mapping line `email,ref`. */
  function MappingLine(line: string): Option<LinkRow>
  {
    match CommaFields(line)
    case None => None
    case Some(f) => Some(LinkRow(f.1, f.0))
  }

  /** Splitting fails exactly on a line without a comma. */
  lemma CommaFieldsNone(line: string)
    ensures CommaFields(line).None? <==> ',' !in line
  {
    SplitSingle(line, {','});
    if ',' !in line {
      assert Free(line, {','});
    } else {
      var i :| 0 <= i < |line| && line[i] == ',';
      assert !Free(line, {','});
    }
  }

  /** The first field is taken as written, the second right-stripped, and
      whatever follows a second comma is ignored. */
  lemma CommaFieldsOf(first: string, second: string, tail: string)
    requires ',' !in first && ',' !in second
    requires tail == [] || tail[0] == ','
    ensures CommaFields(first + [','] + second + tail) == Some((first, RStrip(second)))
  {
    var parts := Split(first + [','] + second + tail, {','});
    SplitTwo(first, second, tail);
    assert |parts| >= 2 && parts[0] == first && parts[1] == second;
  }

  lemma SplitTwo(first: string, second: string, tail: string)
    requires ',' !in first && ',' !in second
    requires tail == [] || tail[0] == ','
    ensures var parts := Split(first + [','] + second + tail, {','});
      |parts| >= 2 && parts[0] == first && parts[1] == second
  {
    assert Free(first, {','}) && Free(second, {','});
    var rest := if tail == [] then [] else Split(tail[1..], {','});
    assert Split(second + tail, {','}) == [second] + rest by {
      if tail == [] {
        SplitFree(second, {','});
        assert second + tail == second;
      } else {
        SplitPrefix(second, tail[1..], ',', {','});
        assert second + tail == second + [','] + tail[1..];
      }
    }
    SplitPrefix(first, second + tail, ',', {','});
    assert first + [','] + second + tail == first + [','] + (second + tail);
  }

  // ---------------------------------------------------------------------
  // populate_Employee

  /** Inserting the roster lines from index `i` on into a table holding `es`. */
  function LoadEmployees(es: seq<EmployeeRow>, client: string, lines: seq<string>, i: nat): Load<EmployeeRow>
    requires i <= |lines|
    decreases |lines| - i
  {
    if i == |lines| then Done(es)
    else match RosterLine(client, lines[i])
      case None => Stopped(NoSecondField, i)
      case Some(e) =>
        if HasEmployeeKey(es, e.email, e.client) then Stopped(DuplicateKey, i)
        else LoadEmployees(es + [e], client, lines, i + 1)
  }

  lemma AppendEmployee(es: seq<EmployeeRow>, e: EmployeeRow)
    requires EmployeeKeysUnique(es) && !HasEmployeeKey(es, e.email, e.client)
    ensures EmployeeKeysUnique(es + [e])
  {
    var r := es + [e];
    forall i, j | 0 <= i < j < |r| ensures r[i].email != r[j].email || r[i].client != r[j].client {
      if j == |es| {
        assert r[i] in es;
      }
    }
  }

  /** A load that completes appends one row per line, in line order, each the
      line's fields. */
  lemma {:induction false} EmployeesDone(es: seq<EmployeeRow>, client: string, lines: seq<string>, i: nat)
    requires i <= |lines|
    requires LoadEmployees(es, client, lines, i).Done?
    ensures var rs := LoadEmployees(es, client, lines, i).rows;
      && |rs| == |es| + |lines| - i && rs[..|es|] == es
      && forall k :: i <= k < |lines| ==> RosterLine(client, lines[k]) == Some(rs[|es| + k - i])
    decreases |lines| - i
  {
    if i < |lines| {
      var e := RosterLine(client, lines[i]).value;
      EmployeesDone(es + [e], client, lines, i + 1);
      var rs := LoadEmployees(es, client, lines, i).rows;
      assert rs[..|es| + 1] == es + [e];
      assert rs[..|es|] == (es + [e])[..|es|];
    }
  }

  /** The key (email, client) stays unique. */
  lemma {:induction false} EmployeesDoneUnique(es: seq<EmployeeRow>, client: string, lines: seq<string>, i: nat)
    requires i <= |lines| && EmployeeKeysUnique(es)
    requires LoadEmployees(es, client, lines, i).Done?
    ensures EmployeeKeysUnique(LoadEmployees(es, client, lines, i).rows)
    decreases |lines| - i
  {
    if i < |lines| {
      var e := RosterLine(client, lines[i]).value;
      AppendEmployee(es, e);
      EmployeesDoneUnique(es + [e], client, lines, i + 1);
    }
  }

  /** A load that stops does so at a line it reaches after every earlier line
      split; the failure is a line without a comma or a duplicate key. */
  lemma {:induction false} EmployeesStopped(es: seq<EmployeeRow>, client: string, lines: seq<string>, i: nat)
    requires i <= |lines|
    requires LoadEmployees(es, client, lines, i).Stopped?
    ensures var k, f := LoadEmployees(es, client, lines, i).line, LoadEmployees(es, client, lines, i).failure;
      && i <= k < |lines|
      && (forall j :: i <= j < k ==> RosterLine(client, lines[j]).Some?)
      && (f == NoSecondField || f == DuplicateKey)
      && (f == NoSecondField <==> ',' !in lines[k])
    decreases |lines| - i
  {
    CommaFieldsNone(lines[i]);
    if RosterLine(client, lines[i]).Some? {
      var e := RosterLine(client, lines[i]).value;
      if !HasEmployeeKey(es, e.email, e.client) {
        EmployeesStopped(es + [e], client, lines, i + 1);
      }
    }
  }

  /** A duplicate key is already in the table or on an earlier line of the
      same input. */
  lemma {:induction false} EmployeesDuplicate(es: seq<EmployeeRow>, client: string, lines: seq<string>, i: nat)
    requires i <= |lines|
    requires LoadEmployees(es, client, lines, i).Stopped?
    requires LoadEmployees(es, client, lines, i).failure == DuplicateKey
    ensures var k := LoadEmployees(es, client, lines, i).line;
      && i <= k < |lines| && RosterLine(client, lines[k]).Some?
      && var e := RosterLine(client, lines[k]).value;
      (HasEmployeeKey(es, e.email, e.client)
       || exists j :: i <= j < k && RosterLine(client, lines[j]).Some? && RosterLine(client, lines[j]).value.email == e.email)
    decreases |lines| - i
  {
    var k := LoadEmployees(es, client, lines, i).line;
    var e := RosterLine(client, lines[i]).value;
    if !HasEmployeeKey(es, e.email, e.client) {
      EmployeesDuplicate(es + [e], client, lines, i + 1);
      var dup := RosterLine(client, lines[k]).value;
      if HasEmployeeKey(es + [e], dup.email, dup.client) && !HasEmployeeKey(es, dup.email, dup.client) {
        var w :| w in es + [e] && w.email == dup.email && w.client == dup.client;
        assert w !in es;
        assert w == e;
      }
    }
  }

  // ---------------------------------------------------------------------
  // populate_Link

  /** Inserting the mapping lines from index `i` on into a table holding
      `ls`, against the employees `es`. The foreign key is checked first. */
  function LoadLinks(ls: seq<LinkRow>, es: seq<EmployeeRow>, lines: seq<string>, i: nat): Load<LinkRow>
    requires i <= |lines|
    decreases |lines| - i
  {
    if i == |lines| then Done(ls)
    else match MappingLine(lines[i])
      case None => Stopped(NoSecondField, i)
      case Some(l) =>
        if !HasEmployeeEmail(es, l.email) then Stopped(DanglingReference, i)
        else if HasLinkRef(ls, l.ref) then Stopped(DuplicateKey, i)
        else LoadLinks(ls + [l], es, lines, i + 1)
  }

  lemma AppendLink(ls: seq<LinkRow>, l: LinkRow)
    requires LinkRefsUnique(ls) && !HasLinkRef(ls, l.ref)
    ensures LinkRefsUnique(ls + [l])
  {
    var r := ls + [l];
    forall i, j | 0 <= i < j < |r| ensures r[i].ref != r[j].ref {
      if j == |ls| {
        assert r[i] in ls;
      }
    }
  }

  /** A load that completes appends one row per line, in line order, each
      `(ref, email)` of its line. */
  lemma {:induction false} LinksDone(ls: seq<LinkRow>, es: seq<EmployeeRow>, lines: seq<string>, i: nat)
    requires i <= |lines|
    requires LoadLinks(ls, es, lines, i).Done?
    ensures var rs := LoadLinks(ls, es, lines, i).rows;
      && |rs| == |ls| + |lines| - i && rs[..|ls|] == ls
      && forall k :: i <= k < |lines| ==> MappingLine(lines[k]) == Some(rs[|ls| + k - i])
    decreases |lines| - i
  {
    if i < |lines| {
      var l := MappingLine(lines[i]).value;
      LinksDone(ls + [l], es, lines, i + 1);
      var rs := LoadLinks(ls, es, lines, i).rows;
      assert rs[..|ls| + 1] == ls + [l];
      assert rs[..|ls|] == (ls + [l])[..|ls|];
    }
  }

  /** Every email of a completed load is an employee's and the refs stay unique. */
  lemma {:induction false} LinksDoneValid(ls: seq<LinkRow>, es: seq<EmployeeRow>, lines: seq<string>, i: nat)
    requires i <= |lines| && LinkRefsUnique(ls) && LinksResolve(ls, es)
    requires LoadLinks(ls, es, lines, i).Done?
    ensures var rs := LoadLinks(ls, es, lines, i).rows;
      LinkRefsUnique(rs) && LinksResolve(rs, es)
    decreases |lines| - i
  {
    if i < |lines| {
      var l := MappingLine(lines[i]).value;
      AppendLink(ls, l);
      LinksDoneValid(ls + [l], es, lines, i + 1);
    }
  }

  /** A load that stops does so at a line it reaches after every earlier line
      split and resolved; the line has no comma, or its email is no
      employee's, or its ref is a duplicate. */
  lemma {:induction false} LinksStopped(ls: seq<LinkRow>, es: seq<EmployeeRow>, lines: seq<string>, i: nat)
    requires i <= |lines|
    requires LoadLinks(ls, es, lines, i).Stopped?
    ensures var k, f := LoadLinks(ls, es, lines, i).line, LoadLinks(ls, es, lines, i).failure;
      && i <= k < |lines|
      && (forall j :: i <= j < k ==>
            MappingLine(lines[j]).Some? && HasEmployeeEmail(es, MappingLine(lines[j]).value.email))
      && (f == NoSecondField <==> ',' !in lines[k])
      && (f == DanglingReference <==>
            MappingLine(lines[k]).Some? && !HasEmployeeEmail(es, MappingLine(lines[k]).value.email))
      && (f == NoSecondField || f == DanglingReference || f == DuplicateKey)
    decreases |lines| - i
  {
    CommaFieldsNone(lines[i]);
    if MappingLine(lines[i]).Some? {
      var l := MappingLine(lines[i]).value;
      if HasEmployeeEmail(es, l.email) && !HasLinkRef(ls, l.ref) {
        LinksStopped(ls + [l], es, lines, i + 1);
      }
    }
  }

  /** A duplicate ref is already in the table or on an earlier line of the
      same input. */
  lemma {:induction false} LinksDuplicate(ls: seq<LinkRow>, es: seq<EmployeeRow>, lines: seq<string>, i: nat)
    requires i <= |lines|
    requires LoadLinks(ls, es, lines, i).Stopped?
    requires LoadLinks(ls, es, lines, i).failure == DuplicateKey
    ensures var k := LoadLinks(ls, es, lines, i).line;
      && i <= k < |lines| && MappingLine(lines[k]).Some?
      && var l := MappingLine(lines[k]).value;
      (HasLinkRef(ls, l.ref)
       || exists j :: i <= j < k && MappingLine(lines[j]).Some? && MappingLine(lines[j]).value.ref == l.ref)
    decreases |lines| - i
  {
    var k := LoadLinks(ls, es, lines, i).line;
    var l := MappingLine(lines[i]).value;
    if HasEmployeeEmail(es, l.email) && !HasLinkRef(ls, l.ref) {
      LinksDuplicate(ls + [l], es, lines, i + 1);
      var dup := MappingLine(lines[k]).value;
      if HasLinkRef(ls + [l], dup.ref) && !HasLinkRef(ls, dup.ref) {
        var w :| w in ls + [l] && w.ref == dup.ref;
        assert w !in ls;
        assert w == l;
      }
    }
  }

  // ---------------------------------------------------------------------
  // populate_Payload

  /** The row an entry becomes, given its parsed date and its id. */
  function PayloadOf(e: Entry, id: int, seconds: int): PayloadRow
  {
    PayloadRow(id, e.kind, e.host, e.agent, seconds, e.ref)
  }

  /** The date of every entry, parsed from the text before the first blank of
      its bracketed field; the one description of the entries' dates. */
  function DatesOf(entries: seq<Entry>): (ds: seq<LogDate>)
  {
    seq(|entries|, k requires 0 <= k < |entries| => ParseLogDate(entries[k].date))
  }

  /** `dates` are the entries' dates. The trigger keeps the date parse out of
      any proof that does not itself parse a date. */
  predicate DatesMatch(entries: seq<Entry>, dates: seq<LogDate>)
  {
    |dates| == |entries| &&
    forall k {:trigger ParseLogDate(entries[k].date)} :: 0 <= k < |entries| ==> dates[k] == DatesOf(entries)[k]
  }

  /** `datetime.strptime(entry.date.split()[0], ...)` for the `i`-th entry. */
  method ParseDateAt(entries: seq<Entry>, ghost dates: seq<LogDate>, i: nat) returns (date: LogDate)
    requires DatesMatch(entries, dates) && i < |entries|
    ensures date == dates[i]
  {
    date := ParseLogDate(entries[i].date);
  }

  /** Inserting the entries from index `i` on into a table holding `ps`,
      against the links `ls`, the next auto-increment id being `id`;
      `dates[k]` is the parsed date of `entries[k]`, and it is checked before
      the insert is attempted. */
  function LoadPayloads(ps: seq<PayloadRow>, ls: seq<LinkRow>, entries: seq<Entry>, dates: seq<LogDate>, i: nat, id: int): Load<PayloadRow>
    requires i <= |entries| == |dates|
    decreases |entries| - i
  {
    if i == |entries| then Done(ps)
    else match dates[i]
      case NoToken => Stopped(NoDateToken, i)
      case Malformed => Stopped(BadDate, i)
      case Parsed(t) =>
        if !HasLinkRef(ls, entries[i].ref) then Stopped(DanglingReference, i)
        else LoadPayloads(ps + [PayloadOf(entries[i], id, t)], ls, entries, dates, i + 1, id + 1)
  }

  /** A load that completes appends one row per entry, in entry order, with
      ids `id`, `id + 1`, ..., the entry's kind, host, agent and ref, and the
      seconds of its date. */
  lemma {:induction false} PayloadsDone(ps: seq<PayloadRow>, ls: seq<LinkRow>, entries: seq<Entry>, dates: seq<LogDate>, i: nat, id: int)
    requires i <= |entries| == |dates|
    requires LoadPayloads(ps, ls, entries, dates, i, id).Done?
    ensures var rs := LoadPayloads(ps, ls, entries, dates, i, id).rows;
      && |rs| == |ps| + |entries| - i && rs[..|ps|] == ps
      && forall k :: i <= k < |entries| ==>
           dates[k].Parsed? && HasLinkRef(ls, entries[k].ref)
           && rs[|ps| + k - i] == PayloadOf(entries[k], id + k - i, dates[k].seconds)
    decreases |entries| - i
  {
    if i < |entries| {
      var row := PayloadOf(entries[i], id, dates[i].seconds);
      PayloadsDone(ps + [row], ls, entries, dates, i + 1, id + 1);
      var rs := LoadPayloads(ps, ls, entries, dates, i, id).rows;
      assert rs[..|ps| + 1] == ps + [row];
      assert rs[..|ps|] == (ps + [row])[..|ps|];
    }
  }

  /** A load completes exactly when every entry's date parses and every
      entry's ref is a link's ref; otherwise it stops at the first entry
      that fails, with the reason. */
  lemma {:induction false} PayloadsIff(ps: seq<PayloadRow>, ls: seq<LinkRow>, entries: seq<Entry>, dates: seq<LogDate>, i: nat, id: int)
    requires i <= |entries| == |dates|
    ensures LoadPayloads(ps, ls, entries, dates, i, id).Done? <==>
      forall k :: i <= k < |entries| ==> dates[k].Parsed? && HasLinkRef(ls, entries[k].ref)
    ensures LoadPayloads(ps, ls, entries, dates, i, id).Stopped? ==>
      var k, f := LoadPayloads(ps, ls, entries, dates, i, id).line, LoadPayloads(ps, ls, entries, dates, i, id).failure;
      && i <= k < |entries|
      && (forall j :: i <= j < k ==> dates[j].Parsed? && HasLinkRef(ls, entries[j].ref))
      && (f == NoDateToken <==> dates[k].NoToken?)
      && (f == BadDate <==> dates[k].Malformed?)
      && (f == DanglingReference <==> dates[k].Parsed? && !HasLinkRef(ls, entries[k].ref))
    decreases |entries| - i
  {
    if i < |entries| && dates[i].Parsed? && HasLinkRef(ls, entries[i].ref) {
      var row := PayloadOf(entries[i], id, dates[i].seconds);
      PayloadsIff(ps + [row], ls, entries, dates, i + 1, id + 1);
    }
  }

  // ---------------------------------------------------------------------
  // The store

  /** The three tables and the Payload auto-increment counter. */
  class Store {
    var employees: seq<EmployeeRow>
    var links: seq<LinkRow>
    var payloads: seq<PayloadRow>
    var nextId: int

    /** The schema's constraints hold, and every id is below the counter. */
    predicate Valid()
      reads this
    {
      && Integrity(Relations(employees, links, payloads))
      && nextId >= 1
      && forall p | p in payloads :: 1 <= p.id < nextId
    }

    /** A freshly created database: empty tables, AUTO_INCREMENT at 1. */
    constructor ()
      ensures Valid()
      ensures employees == [] && links == [] && payloads == [] && nextId == 1
    {
      employees, links, payloads, nextId := [], [], [], 1;
    }

    /** `populate_Employee(conn, client, file)` */
    method PopulateEmployee(client: string, lines: seq<string>) returns (outcome: Outcome)
      requires Valid()
      modifies this
      ensures Valid()
      ensures outcome == OutcomeOf(LoadEmployees(old(employees), client, lines, 0))
      ensures employees == match LoadEmployees(old(employees), client, lines, 0)
                           case Done(rs) => rs
                           case Stopped(_, _) => old(employees)
      ensures links == old(links) && payloads == old(payloads) && nextId == old(nextId)
    {
      var pending := employees;
      var i := 0;
      while i < |lines|
        invariant 0 <= i <= |lines|
        invariant LoadEmployees(employees, client, lines, 0) == LoadEmployees(pending, client, lines, i)
        invariant EmployeeKeysUnique(pending)
        invariant |employees| <= |pending| && pending[..|employees|] == employees
        invariant unchanged(this)
      {
        var row := RosterLine(client, lines[i]);
        if row.None? {
          return Failed(NoSecondField, i);
        }
        var e := row.value;
        if HasEmployeeKey(pending, e.email, e.client) {
          return Failed(DuplicateKey, i);
        }
        AppendEmployee(pending, e);
        pending := pending + [e];
        i := i + 1;
      }
      EmployeesGrow(links, employees, pending);
      employees := pending;
      return Committed;
    }

    /** `populate_Link(conn, file)` */
    method PopulateLink(lines: seq<string>) returns (outcome: Outcome)
      requires Valid()
      modifies this
      ensures Valid()
      ensures outcome == OutcomeOf(LoadLinks(old(links), old(employees), lines, 0))
      ensures links == match LoadLinks(old(links), old(employees), lines, 0)
                       case Done(rs) => rs
                       case Stopped(_, _) => old(links)
      ensures employees == old(employees) && payloads == old(payloads) && nextId == old(nextId)
    {
      var pending := links;
      var i := 0;
      while i < |lines|
        invariant 0 <= i <= |lines|
        invariant LoadLinks(links, employees, lines, 0) == LoadLinks(pending, employees, lines, i)
        invariant LinkRefsUnique(pending) && LinksResolve(pending, employees)
        invariant |links| <= |pending| && pending[..|links|] == links
        invariant unchanged(this)
      {
        var row := MappingLine(lines[i]);
        if row.None? {
          return Failed(NoSecondField, i);
        }
        var l := row.value;
        if !HasEmployeeEmail(employees, l.email) {
          return Failed(DanglingReference, i);
        }
        if HasLinkRef(pending, l.ref) {
          return Failed(DuplicateKey, i);
        }
        AppendLink(pending, l);
        pending := pending + [l];
        i := i + 1;
      }
      LinksGrow(payloads, links, pending);
      links := pending;
      return Committed;
    }

    /** `populate_Payload(conn, results)` */
    method PopulatePayload(entries: seq<Entry>) returns (outcome: Outcome)
      requires Valid()
      modifies this
      ensures Valid()
      ensures outcome == OutcomeOf(LoadPayloads(old(payloads), old(links), entries, DatesOf(entries), 0, old(nextId)))
      ensures match LoadPayloads(old(payloads), old(links), entries, DatesOf(entries), 0, old(nextId))
              case Done(rs) => payloads == rs && nextId == old(nextId) + |entries|
              case Stopped(_, _) => payloads == old(payloads) && nextId == old(nextId)
      ensures employees == old(employees) && links == old(links)
    {
      var load := InsertPayloads(payloads, links, entries, DatesOf(entries), nextId);
      match load {
        case Stopped(failure, line) =>
          return Failed(failure, line);
        case Done(rows) =>
          payloads, nextId := rows, nextId + |entries|;
          return Committed;
      }
    }
  }

  /** The loop of `populate_Payload`: one INSERT per entry into the open
      transaction, the date parsed first, the auto-increment id advancing by
      one per row. */
  method InsertPayloads(ps: seq<PayloadRow>, ls: seq<LinkRow>, entries: seq<Entry>, ghost dates: seq<LogDate>, id: int)
    returns (load: Load<PayloadRow>)
    requires DatesMatch(entries, dates)
    requires id >= 1 && PayloadsResolve(ps, ls) && IdsIncreasing(ps)
    requires forall p | p in ps :: 1 <= p.id < id
    ensures load == LoadPayloads(ps, ls, entries, dates, 0, id)
    ensures load.Done? ==>
      && PayloadsResolve(load.rows, ls) && IdsIncreasing(load.rows)
      && forall p | p in load.rows :: 1 <= p.id < id + |entries|
  {
    var pending := ps;
    var next := id;
    var i := 0;
    while i < |entries|
      invariant 0 <= i <= |entries|
      invariant next == id + i
      invariant LoadPayloads(ps, ls, entries, dates, 0, id) == LoadPayloads(pending, ls, entries, dates, i, next)
      invariant PayloadsResolve(pending, ls) && IdsIncreasing(pending)
      invariant forall p | p in pending :: 1 <= p.id < next
    {
      var date := ParseDateAt(entries, dates, i);
      if date.NoToken? {
        return Stopped(NoDateToken, i);
      }
      if date.Malformed? {
        return Stopped(BadDate, i);
      }
      if !HasLinkRef(ls, entries[i].ref) {
        return Stopped(DanglingReference, i);
      }
      var row := PayloadOf(entries[i], next, date.seconds);
      AppendPayload(pending, row, ls, next);
      pending := pending + [row];
      next := next + 1;
      i := i + 1;
    }
    return Done(pending);
  }

  lemma EmployeesGrow(ls: seq<LinkRow>, es: seq<EmployeeRow>, es': seq<EmployeeRow>)
    requires LinksResolve(ls, es) && |es| <= |es'| && es'[..|es|] == es
    ensures LinksResolve(ls, es')
  {
    forall l | l in ls ensures HasEmployeeEmail(es', l.email) {
      var e :| e in es && e.email == l.email;
      assert e in es';
    }
  }

  lemma LinksGrow(ps: seq<PayloadRow>, ls: seq<LinkRow>, ls': seq<LinkRow>)
    requires PayloadsResolve(ps, ls) && |ls| <= |ls'| && ls'[..|ls|] == ls
    ensures PayloadsResolve(ps, ls')
  {
    forall p | p in ps ensures HasLinkRef(ls', p.ref) {
      var l :| l in ls && l.ref == p.ref;
      assert l in ls';
    }
  }

  lemma AppendPayload(ps: seq<PayloadRow>, row: PayloadRow, ls: seq<LinkRow>, id: int)
    requires PayloadsResolve(ps, ls) && IdsIncreasing(ps) && (forall p | p in ps :: 1 <= p.id < id)
    requires HasLinkRef(ls, row.ref) && row.id == id && id >= 1
    ensures PayloadsResolve(ps + [row], ls) && IdsIncreasing(ps + [row])
    ensures forall p | p in ps + [row] :: 1 <= p.id < id + 1
  {
    var r := ps + [row];
    forall i, j | 0 <= i < j < |r| ensures r[i].id < r[j].id {
      if j == |ps| {
        assert r[i] in ps;
      }
    }
  }
}
