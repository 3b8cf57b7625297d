/** The seven statistics worksheets. Each builder runs a `SELECT DISTINCT`
    (or a single aggregate) over the relations, then appends one row per key
    with the per-key counts, and hands the rows to `write_worksheet`. The SQL
    queries are the pure functions below; each builder is a method that
    follows the source's code, with its loop where the source has one. */
module Statistic {
  import opened Grouping
  import opened Schema

  /** A worksheet cell: text, a count, or a time of day (seconds). */
  datatype Cell = Text(text: string) | Count(n: int) | Clock(seconds: int)

  type Row = seq<Cell>

  /** An Excel table spanning rows `top..bottom` and columns `left..right`;
      the first row holds the headers. */
  datatype Table = Table(name: string, headers: seq<string>, data: seq<Row>,
                         top: int, left: int, bottom: int, right: int)

  datatype Sheet = Skipped(warning: string) | Written(table: Table)

  /** `write_worksheet`: no rows, no sheet (and a warning); otherwise one
      table anchored at the top-left corner. */
  function WriteWorksheet(name: string, headers: seq<string>, data: seq<Row>): (s: Sheet)
    ensures s.Skipped? <==> data == []
    ensures s.Written? ==>
      && s.table.name == name && s.table.headers == headers && s.table.data == data
      && s.table.top == 0 && s.table.left == 0
      && s.table.bottom - s.table.top + 1 == 1 + |data|
      && s.table.right - s.table.left + 1 == |headers|
  {
    if data == [] then Skipped("'" + name + "' could not be created")
    else Written(Table(name, headers, data, 0, 0, |data|, |headers| - 1))
  }

  /** The count in column `c` of a row, 0 if there is none. */
  function CountAt(r: Row, c: nat): int
  {
    if c < |r| && r[c].Count? then r[c].n else 0
  }

  /** The sum of column `c` over all rows. */
  function ColumnSum(rows: seq<Row>, c: nat): int
  {
    if rows == [] then 0 else CountAt(rows[0], c) + ColumnSum(rows[1..], c)
  }

  // ---------------------------------------------------------------------
  // Columns and counts (the SQL aggregates)

  function RefsOf(ps: seq<PayloadRow>): (ks: seq<string>)
    ensures |ks| == |ps|
  {
    if ps == [] then [] else [ps[0].ref] + RefsOf(ps[1..])
  }

  function HostsOf(ps: seq<PayloadRow>): (ks: seq<string>)
    ensures |ks| == |ps|
  {
    if ps == [] then [] else [ps[0].host] + HostsOf(ps[1..])
  }

  function RolesOf(es: seq<EmployeeRow>): (ks: seq<string>)
    ensures |ks| == |es|
  {
    if es == [] then [] else [es[0].role] + RolesOf(es[1..])
  }

  /** `COUNT(CASE WHEN Payload.type = k THEN 1 END)` */
  function CountKind(ps: seq<PayloadRow>, k: Kind): nat
  {
    if ps == [] then 0 else (if ps[0].kind == k then 1 else 0) + CountKind(ps[1..], k)
  }

  /** The same, `WHERE Payload.ref = ref`. */
  function CountRefKind(ps: seq<PayloadRow>, ref: string, k: Kind): nat
  {
    if ps == [] then 0
    else (if ps[0].ref == ref && ps[0].kind == k then 1 else 0) + CountRefKind(ps[1..], ref, k)
  }

  /** The same, `WHERE Payload.date <= t`. */
  function CountUpTo(ps: seq<PayloadRow>, t: int, k: Kind): nat
  {
    if ps == [] then 0
    else (if ps[0].date <= t && ps[0].kind == k then 1 else 0) + CountUpTo(ps[1..], t, k)
  }

  /** Every payload is of one of the two kinds. */
  lemma {:induction false} KindsTotal(ps: seq<PayloadRow>)
    ensures CountKind(ps, Download) + CountKind(ps, Link) == |ps|
  {
    if ps != [] {
      KindsTotal(ps[1..]);
    }
  }

  /** Per ref, downloads plus links are all the payloads with that ref. */
  lemma {:induction false} RefKindsTotal(ps: seq<PayloadRow>, ref: string)
    ensures CountRefKind(ps, ref, Download) + CountRefKind(ps, ref, Link) == Occ(RefsOf(ps), ref)
  {
    if ps != [] {
      RefKindsTotal(ps[1..], ref);
      assert RefsOf(ps)[1..] == RefsOf(ps[1..]);
    }
  }

  /** A later cut-off counts at least as many payloads. */
  lemma {:induction false} CountUpToMonotone(ps: seq<PayloadRow>, t1: int, t2: int, k: Kind)
    requires t1 <= t2
    ensures CountUpTo(ps, t1, k) <= CountUpTo(ps, t2, k)
  {
    if ps != [] {
      CountUpToMonotone(ps[1..], t1, t2, k);
    }
  }

  lemma {:induction false} RefsOfMembers(ps: seq<PayloadRow>)
    ensures forall r :: r in RefsOf(ps) <==> exists p | p in ps :: p.ref == r
  {
    if ps != [] {
      RefsOfMembers(ps[1..]);
      assert RefsOf(ps) == [ps[0].ref] + RefsOf(ps[1..]);
      assert forall p | p in ps :: p == ps[0] || p in ps[1..];
    }
  }

  lemma {:induction false} HostsOfMembers(ps: seq<PayloadRow>)
    ensures forall h :: h in HostsOf(ps) <==> exists p | p in ps :: p.host == h
  {
    if ps != [] {
      HostsOfMembers(ps[1..]);
      assert HostsOf(ps) == [ps[0].host] + HostsOf(ps[1..]);
      assert forall p | p in ps :: p == ps[0] || p in ps[1..];
    }
  }

  lemma {:induction false} RolesOfMembers(es: seq<EmployeeRow>)
    ensures forall r :: r in RolesOf(es) <==> exists e | e in es :: e.role == r
  {
    if es != [] {
      RolesOfMembers(es[1..]);
      assert RolesOf(es) == [es[0].role] + RolesOf(es[1..]);
      assert forall e | e in es :: e == es[0] || e in es[1..];
    }
  }

  lemma ColumnSumPair(a: Row, b: Row, c: nat)
    ensures ColumnSum([a, b], c) == CountAt(a, c) + CountAt(b, c)
  {
    assert [a, b][1..] == [b];
    assert [b][1..] == [];
    assert ColumnSum([b], c) == CountAt(b, c) + ColumnSum([], c);
  }

  /** Summing a count column that holds, for each key, its occurrences in
      `column`. */
  lemma {:induction false} ColumnSumOfCounts(rows: seq<Row>, c: nat, column: seq<string>, keys: seq<string>)
    requires |rows| == |keys|
    requires forall i :: 0 <= i < |rows| ==> CountAt(rows[i], c) == Occ(column, keys[i])
    ensures ColumnSum(rows, c) == SumOcc(column, keys)
  {
    if rows != [] {
      ColumnSumOfCounts(rows[1..], c, column, keys[1..]);
    }
  }

  /** The text in the first column of a row. */
  function KeyOf(r: Row): string
  {
    if r != [] && r[0].Text? then r[0].text else ""
  }

  /** The first column of a table. */
  function Keys(t: seq<Row>): (ks: seq<string>)
    ensures |ks| == |t|
    ensures forall i :: 0 <= i < |t| ==> ks[i] == KeyOf(t[i])
  {
    seq(|t|, i requires 0 <= i < |t| => KeyOf(t[i]))
  }

  // ---------------------------------------------------------------------
  // Click Types Per User

  const ClickTypesHeaders: seq<string> := ["Reference", "Download File", "Clicked Link", "Total"]

  function ClickTypesRow(ps: seq<PayloadRow>, ref: string): Row
  {
    var d, l := CountRefKind(ps, ref, Download), CountRefKind(ps, ref, Link);
    [Text(ref), Count(d), Count(l), Count(d + l)]
  }

  function ClickTypesTable(ps: seq<PayloadRow>): seq<Row>
  {
    var refs := DistinctSorted(RefsOf(ps));
    seq(|refs|, i requires 0 <= i < |refs| => ClickTypesRow(ps, refs[i]))
  }

  /** `generate_click_types_per_user` */
  method GenerateClickTypesPerUser(db: Relations) returns (sheet: Sheet)
    ensures sheet == WriteWorksheet("Click Types Per User", ClickTypesHeaders, ClickTypesTable(db.payloads))
  {
    var refs := DistinctSorted(RefsOf(db.payloads));
    var data: seq<Row> := [];
    var i := 0;
    while i < |refs|
      invariant 0 <= i <= |refs|
      invariant |data| == i
      invariant forall j :: 0 <= j < i ==> data[j] == ClickTypesRow(db.payloads, refs[j])
    {
      var download := CountRefKind(db.payloads, refs[i], Download);
      var link := CountRefKind(db.payloads, refs[i], Link);
      data := data + [[Text(refs[i]), Count(download), Count(link), Count(download + link)]];
      i := i + 1;
    }
    sheet := WriteWorksheet("Click Types Per User", ClickTypesHeaders, data);
  }

  /** One row per distinct ref, in ascending order of ref. */
  lemma ClickTypesKeys(ps: seq<PayloadRow>)
    ensures StrictlySorted(Keys(ClickTypesTable(ps)))
    ensures forall r :: r in Keys(ClickTypesTable(ps)) <==> exists p | p in ps :: p.ref == r
  {
    var refs := DistinctSorted(RefsOf(ps));
    assert Keys(ClickTypesTable(ps)) == refs;
    RefsOfMembers(ps);
  }

  /** Each row holds its ref's downloads and links, and as total the
      number of payloads carrying that ref. */
  lemma ClickTypesCounts(ps: seq<PayloadRow>)
    ensures forall i :: 0 <= i < |ClickTypesTable(ps)| ==>
      var r, k := ClickTypesTable(ps)[i], Keys(ClickTypesTable(ps))[i];
      r == [Text(k), Count(CountRefKind(ps, k, Download)), Count(CountRefKind(ps, k, Link)), Count(Occ(RefsOf(ps), k))]
  {
    var t := ClickTypesTable(ps);
    forall i | 0 <= i < |t|
      ensures t[i] == [Text(KeyOf(t[i])), Count(CountRefKind(ps, KeyOf(t[i]), Download)),
                       Count(CountRefKind(ps, KeyOf(t[i]), Link)), Count(Occ(RefsOf(ps), KeyOf(t[i])))]
    {
      RefKindsTotal(ps, KeyOf(t[i]));
    }
  }

  /** The totals add up to the number of payloads. */
  lemma ClickTypesTotal(ps: seq<PayloadRow>)
    ensures ColumnSum(ClickTypesTable(ps), 3) == |ps|
  {
    var t := ClickTypesTable(ps);
    var refs := DistinctSorted(RefsOf(ps));
    forall i | 0 <= i < |t| ensures CountAt(t[i], 3) == Occ(RefsOf(ps), refs[i]) {
      RefKindsTotal(ps, refs[i]);
    }
    ColumnSumOfCounts(t, 3, RefsOf(ps), refs);
    SortedIsDistinct(refs);
    SumOccCoversColumn(RefsOf(ps), refs);
  }

  // ---------------------------------------------------------------------
  // Clicks Over Time

  const OverTimeHeaders: seq<string> := ["Time", "Click on Download", "Click on Link"]

  /** One minute. */
  const Step: int := 60

  /** `MIN(Payload.date)` */
  function MinDate(ps: seq<PayloadRow>): (m: int)
    requires ps != []
    ensures forall p | p in ps :: m <= p.date
    ensures exists p | p in ps :: p.date == m
  {
    if |ps| == 1 then ps[0].date
    else
      var m := MinDate(ps[1..]);
      assert forall p | p in ps :: p == ps[0] || p in ps[1..];
      if ps[0].date <= m then ps[0].date else m
  }

  /** `MAX(Payload.date)` */
  function MaxDate(ps: seq<PayloadRow>): (m: int)
    requires ps != []
    ensures forall p | p in ps :: p.date <= m
    ensures exists p | p in ps :: p.date == m
  {
    if |ps| == 1 then ps[0].date
    else
      var m := MaxDate(ps[1..]);
      assert forall p | p in ps :: p == ps[0] || p in ps[1..];
      if ps[0].date >= m then ps[0].date else m
  }

  /** `lo, lo + 60, ...` while below `hi`. */
  function Ticks(lo: int, hi: int): seq<int>
    decreases hi - lo
  {
    if lo < hi then [lo] + Ticks(lo + Step, hi) else []
  }

  function OverTimeRow(ps: seq<PayloadRow>, t: int): Row
  {
    [Clock(t), Count(CountUpTo(ps, t, Download)), Count(CountUpTo(ps, t, Link))]
  }

  /** One row per tick. */
  function OverTimeRows(ps: seq<PayloadRow>, ts: seq<int>): (rows: seq<Row>)
    ensures |rows| == |ts|
    ensures forall i :: 0 <= i < |ts| ==> rows[i] == OverTimeRow(ps, ts[i])
  {
    seq(|ts|, i requires 0 <= i < |ts| => OverTimeRow(ps, ts[i]))
  }

  /** The rows for the ticks; none at all without payloads (MIN and MAX are NULL). */
  function OverTimeTable(ps: seq<PayloadRow>): seq<Row>
  {
    if ps == [] then [] else OverTimeRows(ps, Ticks(MinDate(ps), MaxDate(ps)))
  }

  /** `generate_clicks_over_time` */
  method GenerateClicksOverTime(db: Relations) returns (sheet: Sheet)
    ensures sheet == WriteWorksheet("Clicks Over Time", OverTimeHeaders, OverTimeTable(db.payloads))
  {
    var ps := db.payloads;
    var data: seq<Row> := [];
    if ps != [] {
      var lo, hi := MinDate(ps), MaxDate(ps);
      var date := lo;
      while date < hi
        invariant date == lo + Step * |data|
        invariant data == [] || date - Step < hi
        invariant forall j :: 0 <= j < |data| ==> data[j] == OverTimeRow(ps, lo + Step * j)
        decreases hi - date
      {
        data := data + [[Clock(date), Count(CountUpTo(ps, date, Download)), Count(CountUpTo(ps, date, Link))]];
        date := date + Step;
      }
      TicksCount(lo, hi, |data|);
      TicksSpec(lo, hi);
      assert data == OverTimeRows(ps, Ticks(lo, hi));
    }
    sheet := WriteWorksheet("Clicks Over Time", OverTimeHeaders, data);
  }

  /** `n` ticks exactly when the `n`-th step is the first to reach `hi`. */
  lemma {:induction false} TicksCount(lo: int, hi: int, n: nat)
    requires lo + Step * n >= hi
    requires n == 0 || lo + Step * (n - 1) < hi
    ensures |Ticks(lo, hi)| == n
    decreases n
  {
    if n > 0 {
      TicksCount(lo + Step, hi, n - 1);
    }
  }

  /** The ticks are `lo + 60 i`, all below `hi`, and they reach within one
      minute of `hi`. */
  lemma {:induction false} TicksSpec(lo: int, hi: int)
    ensures forall i :: 0 <= i < |Ticks(lo, hi)| ==> Ticks(lo, hi)[i] == lo + Step * i && Ticks(lo, hi)[i] < hi
    ensures lo + Step * |Ticks(lo, hi)| >= hi
    ensures |Ticks(lo, hi)| == 0 <==> hi <= lo
    decreases hi - lo
  {
    if lo < hi {
      TicksSpec(lo + Step, hi);
      var ts := Ticks(lo, hi);
      assert ts == [lo] + Ticks(lo + Step, hi);
      forall i | 0 <= i < |ts| ensures ts[i] == lo + Step * i && ts[i] < hi {
        if i > 0 {
          assert ts[i] == Ticks(lo + Step, hi)[i - 1];
        }
      }
    }
  }

  /** The rows step through the campaign a minute at a time from the first
      click and stop before the last; each holds the downloads and links
      clicked up to its time (`OverTimeRow`). */
  lemma OverTimeTableSpec(ps: seq<PayloadRow>, lo: int, hi: int)
    requires ps != [] && lo == MinDate(ps) && hi == MaxDate(ps)
    ensures forall i :: 0 <= i < |OverTimeTable(ps)| ==> OverTimeTable(ps)[i] == OverTimeRow(ps, lo + Step * i) && lo + Step * i < hi
  {
    RowsAtTicks(ps, lo, hi);
  }

  lemma RowsAtTicks(ps: seq<PayloadRow>, lo: int, hi: int)
    ensures var t := OverTimeRows(ps, Ticks(lo, hi));
      forall i :: 0 <= i < |t| ==> t[i] == OverTimeRow(ps, lo + Step * i) && lo + Step * i < hi
  {
    var ts := Ticks(lo, hi);
    TicksSpec(lo, hi);
    var t := OverTimeRows(ps, ts);
    forall i | 0 <= i < |t| ensures t[i] == OverTimeRow(ps, lo + Step * i) && lo + Step * i < hi {
      assert ts[i] == lo + Step * i && ts[i] < hi;
    }
  }

  /** The rows reach the last click to within a minute; there are none
      when all clicks share one date. */
  lemma OverTimeExtent(ps: seq<PayloadRow>, lo: int, hi: int)
    requires ps != [] && lo == MinDate(ps) && hi == MaxDate(ps)
    ensures lo + Step * |OverTimeTable(ps)| >= hi
    ensures OverTimeTable(ps) == [] <==> lo == hi
  {
    TicksSpec(lo, hi);
    assert |OverTimeTable(ps)| == |Ticks(lo, hi)|;
    assert ps[0] in ps;
  }

  /** The counts are cumulative: they never decrease from one row to the next. */
  lemma OverTimeMonotone(ps: seq<PayloadRow>)
    ensures var t := OverTimeTable(ps);
      forall i, j :: 0 <= i <= j < |t| ==> |t[i]| == |t[j]| == 3 && t[i][1].n <= t[j][1].n && t[i][2].n <= t[j][2].n
  {
    if ps != [] {
      var lo, hi := MinDate(ps), MaxDate(ps);
      var ts := Ticks(lo, hi);
      TicksSpec(lo, hi);
      var t: seq<Row> := OverTimeRows(ps, ts);
      assert t == OverTimeTable(ps);
      forall i, j | 0 <= i <= j < |t| ensures t[i][1].n <= t[j][1].n && t[i][2].n <= t[j][2].n {
        assert ts[i] <= ts[j];
        CountUpToMonotone(ps, ts[i], ts[j], Download);
        CountUpToMonotone(ps, ts[i], ts[j], Link);
      }
    }
  }

  /** Download and link counts up to `t` together never exceed the payloads,
      and fall short of them while some payload is later than `t`. */
  lemma {:induction false} CountUpToBound(ps: seq<PayloadRow>, t: int)
    ensures CountUpTo(ps, t, Download) + CountUpTo(ps, t, Link) <= |ps|
    ensures (exists p | p in ps :: p.date > t) ==> CountUpTo(ps, t, Download) + CountUpTo(ps, t, Link) < |ps|
    decreases |ps|
  {
    if ps != [] {
      CountUpToBound(ps[1..], t);
      if exists p | p in ps :: p.date > t {
        if ps[0].date <= t {
          var p :| p in ps && p.date > t;
          assert p in ps[1..];
        }
      }
    }
  }

  /** Since the walk stops before the latest date, no row counts every
      payload: the clicks of the last moment never appear. */
  lemma OverTimeNeverComplete(ps: seq<PayloadRow>)
    ensures forall i :: 0 <= i < |OverTimeTable(ps)| ==>
      CountAt(OverTimeTable(ps)[i], 1) + CountAt(OverTimeTable(ps)[i], 2) < |ps|
  {
    if ps != [] {
      var lo, hi := MinDate(ps), MaxDate(ps);
      RowsShort(ps, lo, hi);
      assert OverTimeTable(ps) == OverTimeRows(ps, Ticks(lo, hi));
    }
  }

  lemma RowsShort(ps: seq<PayloadRow>, lo: int, hi: int)
    requires ps != [] && hi == MaxDate(ps)
    ensures var t := OverTimeRows(ps, Ticks(lo, hi));
      forall i :: 0 <= i < |t| ==> CountAt(t[i], 1) + CountAt(t[i], 2) < |ps|
  {
    var t := OverTimeRows(ps, Ticks(lo, hi));
    RowsAtTicks(ps, lo, hi);
    var last :| last in ps && last.date == hi;
    forall i | 0 <= i < |t| ensures CountAt(t[i], 1) + CountAt(t[i], 2) < |ps| {
      var at := lo + Step * i;
      assert t[i] == OverTimeRow(ps, at) && at < hi;
      assert last.date > at;
      CountUpToBound(ps, at);
    }
  }

  // ---------------------------------------------------------------------
  // Email Distribution

  const DistributionHeaders: seq<string> := ["Department", "# of Employee"]

  function DistributionRow(es: seq<EmployeeRow>, role: string): Row
  {
    [Text(role), Count(Occ(RolesOf(es), role))]
  }

  function DistributionTable(es: seq<EmployeeRow>): seq<Row>
  {
    var roles := DistinctSorted(RolesOf(es));
    seq(|roles|, i requires 0 <= i < |roles| => DistributionRow(es, roles[i]))
  }

  /** `generate_email_distribution` */
  method GenerateEmailDistribution(db: Relations) returns (sheet: Sheet)
    ensures sheet == WriteWorksheet("Email Distribution", DistributionHeaders, DistributionTable(db.employees))
  {
    var roles := DistinctSorted(RolesOf(db.employees));
    var data: seq<Row> := [];
    var i := 0;
    while i < |roles|
      invariant 0 <= i <= |roles|
      invariant |data| == i
      invariant forall j :: 0 <= j < i ==> data[j] == DistributionRow(db.employees, roles[j])
    {
      var count := Occ(RolesOf(db.employees), roles[i]);
      data := data + [[Text(roles[i]), Count(count)]];
      i := i + 1;
    }
    sheet := WriteWorksheet("Email Distribution", DistributionHeaders, data);
  }

  /** One row per distinct role, in ascending order, with the number of
      employees holding it. */
  lemma DistributionSpec(es: seq<EmployeeRow>)
    ensures StrictlySorted(Keys(DistributionTable(es)))
    ensures forall r :: r in Keys(DistributionTable(es)) <==> exists e | e in es :: e.role == r
    ensures forall i :: 0 <= i < |DistributionTable(es)| ==>
      DistributionTable(es)[i] == [Text(Keys(DistributionTable(es))[i]), Count(Occ(RolesOf(es), Keys(DistributionTable(es))[i]))]
  {
    var roles := DistinctSorted(RolesOf(es));
    assert Keys(DistributionTable(es)) == roles;
    RolesOfMembers(es);
  }

  /** The counts add up to the number of employees. */
  lemma DistributionTotal(es: seq<EmployeeRow>)
    ensures ColumnSum(DistributionTable(es), 1) == |es|
  {
    var roles := DistinctSorted(RolesOf(es));
    ColumnSumOfCounts(DistributionTable(es), 1, RolesOf(es), roles);
    SortedIsDistinct(roles);
    SumOccCoversColumn(RolesOf(es), roles);
  }

  // ---------------------------------------------------------------------
  // Clicks Per Payload Type

  const PayloadTypeHeaders: seq<string> := ["Type", "# of Click"]

  function PayloadTypeTable(ps: seq<PayloadRow>): seq<Row>
  {
    [[Text("Download"), Count(CountKind(ps, Download))], [Text("Link"), Count(CountKind(ps, Link))]]
  }

  /** `generate_clicks_per_payload_type`: the sheet is always written. */
  method GenerateClicksPerPayloadType(db: Relations) returns (sheet: Sheet)
    ensures sheet.Written?
    ensures sheet == WriteWorksheet("Clicks Per Payload Type", PayloadTypeHeaders, PayloadTypeTable(db.payloads))
  {
    var download := CountKind(db.payloads, Download);
    var link := CountKind(db.payloads, Link);
    var data := [[Text("Download"), Count(download)], [Text("Link"), Count(link)]];
    sheet := WriteWorksheet("Clicks Per Payload Type", PayloadTypeHeaders, data);
  }

  /** Exactly two rows, downloads then links, adding up to the number of payloads. */
  lemma PayloadTypeTableSpec(ps: seq<PayloadRow>)
    ensures var t := PayloadTypeTable(ps);
      && |t| == 2 && t[0][0] == Text("Download") && t[1][0] == Text("Link")
      && ColumnSum(t, 1) == |ps|
  {
    KindsTotal(ps);
    var t := PayloadTypeTable(ps);
    ColumnSumPair(t[0], t[1], 1);
    assert t == [t[0], t[1]];
  }

  // ---------------------------------------------------------------------
  // Click Originating IP

  const OriginHeaders: seq<string> := ["Source IP", "#"]

  function OriginRow(ps: seq<PayloadRow>, host: string): Row
  {
    [Text(host), Count(Occ(HostsOf(ps), host))]
  }

  function OriginTable(ps: seq<PayloadRow>): seq<Row>
  {
    var hosts := Dedup(HostsOf(ps));
    seq(|hosts|, i requires 0 <= i < |hosts| => OriginRow(ps, hosts[i]))
  }

  /** `generate_click_originating_ip` */
  method GenerateClickOriginatingIp(db: Relations) returns (sheet: Sheet)
    ensures sheet == WriteWorksheet("Click Originating IP", OriginHeaders, OriginTable(db.payloads))
  {
    var hosts := Dedup(HostsOf(db.payloads));
    var data: seq<Row> := [];
    var i := 0;
    while i < |hosts|
      invariant 0 <= i <= |hosts|
      invariant |data| == i
      invariant forall j :: 0 <= j < i ==> data[j] == OriginRow(db.payloads, hosts[j])
    {
      var count := Occ(HostsOf(db.payloads), hosts[i]);
      data := data + [[Text(hosts[i]), Count(count)]];
      i := i + 1;
    }
    sheet := WriteWorksheet("Click Originating IP", OriginHeaders, data);
  }

  /** One row per distinct host (in no promised order) with its number of
      payloads. */
  lemma OriginSpec(ps: seq<PayloadRow>)
    ensures Distinct(Keys(OriginTable(ps)))
    ensures forall h :: h in Keys(OriginTable(ps)) <==> exists p | p in ps :: p.host == h
    ensures forall i :: 0 <= i < |OriginTable(ps)| ==>
      OriginTable(ps)[i] == [Text(Keys(OriginTable(ps))[i]), Count(Occ(HostsOf(ps), Keys(OriginTable(ps))[i]))]
  {
    var hosts := Dedup(HostsOf(ps));
    assert Keys(OriginTable(ps)) == hosts;
    HostsOfMembers(ps);
  }

  /** The counts add up to the number of payloads. */
  lemma OriginTotal(ps: seq<PayloadRow>)
    ensures ColumnSum(OriginTable(ps), 1) == |ps|
  {
    var hosts := Dedup(HostsOf(ps));
    ColumnSumOfCounts(OriginTable(ps), 1, HostsOf(ps), hosts);
    SumOccCoversColumn(HostsOf(ps), hosts);
  }

  // ---------------------------------------------------------------------
  // Users Who Did / Did Not Click

  const ClickedHeaders: seq<string> := [" ", "Success Rate"]

  predicate HasPayloadRef(ps: seq<PayloadRow>, ref: string)
  {
    exists p | p in ps :: p.ref == ref
  }

  /** `COUNT(Link.email) ... WHERE [NOT] EXISTS (... Link.ref = Payload.ref)` */
  function CountClicked(ls: seq<LinkRow>, ps: seq<PayloadRow>, clicked: bool): nat
  {
    if ls == [] then 0
    else (if HasPayloadRef(ps, ls[0].ref) == clicked then 1 else 0) + CountClicked(ls[1..], ps, clicked)
  }

  function ClickedTable(db: Relations): seq<Row>
  {
    [[Text("Users Clicked"), Count(CountClicked(db.links, db.payloads, true))],
     [Text("Users Not Clicked"), Count(CountClicked(db.links, db.payloads, false))]]
  }

  /** `generate_users_who_did_and_did_not_click`: the sheet is always written. */
  method GenerateUsersWhoDidAndDidNotClick(db: Relations) returns (sheet: Sheet)
    ensures sheet.Written?
    ensures sheet == WriteWorksheet("User Who Did (Not) Click", ClickedHeaders, ClickedTable(db))
  {
    var clicked := CountClicked(db.links, db.payloads, true);
    var notClicked := CountClicked(db.links, db.payloads, false);
    var data := [[Text("Users Clicked"), Count(clicked)], [Text("Users Not Clicked"), Count(notClicked)]];
    sheet := WriteWorksheet("User Who Did (Not) Click", ClickedHeaders, data);
  }

  lemma {:induction false} ClickedSplit(ls: seq<LinkRow>, ps: seq<PayloadRow>)
    ensures CountClicked(ls, ps, true) + CountClicked(ls, ps, false) == |ls|
  {
    if ls != [] {
      ClickedSplit(ls[1..], ps);
    }
  }

  /** Two rows whose counts add up to the number of Link rows (not of
      employees): every tracking link either was clicked or was not. */
  lemma ClickedTableSpec(db: Relations)
    ensures var t := ClickedTable(db);
      && |t| == 2 && t[0][0] == Text("Users Clicked") && t[1][0] == Text("Users Not Clicked")
      && ColumnSum(t, 1) == |db.links|
  {
    ClickedSplit(db.links, db.payloads);
    var t := ClickedTable(db);
    ColumnSumPair(t[0], t[1], 1);
    assert t == [t[0], t[1]];
  }

  // ---------------------------------------------------------------------
  // Clicks Per Department

  const DepartmentHeaders: seq<string> := ["Department", "Clicked on Download", "Clicked on Email Link", "Total"]

  /** `ref IN (SELECT Link.ref ... WHERE Link.email IN (SELECT Employee.email ... WHERE role = r))` */
  predicate InDepartment(db: Relations, role: string, ref: string)
  {
    exists l | l in db.links :: l.ref == ref && exists e | e in db.employees :: e.email == l.email && e.role == role
  }

  /** `COUNT(Payload.idP) ... WHERE ref IN (...) AND Payload.type = k` */
  function CountDepartment(db: Relations, ps: seq<PayloadRow>, role: string, k: Kind): nat
  {
    if ps == [] then 0
    else
      var here := if InDepartment(db, role, ps[0].ref) && ps[0].kind == k then 1 else 0;
      here + CountDepartment(db, ps[1..], role, k)
  }

  function DepartmentRow(db: Relations, role: string): Row
  {
    var d, l := CountDepartment(db, db.payloads, role, Download), CountDepartment(db, db.payloads, role, Link);
    [Text(role), Count(d), Count(l), Count(d + l)]
  }

  function DepartmentTable(db: Relations): seq<Row>
  {
    var roles := DistinctSorted(RolesOf(db.employees));
    seq(|roles|, i requires 0 <= i < |roles| => DepartmentRow(db, roles[i]))
  }

  /** `generate_clicks_per_department` */
  method GenerateClicksPerDepartment(db: Relations) returns (sheet: Sheet)
    ensures sheet == WriteWorksheet("Clicks Per Department", DepartmentHeaders, DepartmentTable(db))
  {
    var roles := DistinctSorted(RolesOf(db.employees));
    var data: seq<Row> := [];
    var i := 0;
    while i < |roles|
      invariant 0 <= i <= |roles|
      invariant |data| == i
      invariant forall j :: 0 <= j < i ==> data[j] == DepartmentRow(db, roles[j])
    {
      var download := CountDepartment(db, db.payloads, roles[i], Download);
      var link := CountDepartment(db, db.payloads, roles[i], Link);
      data := data + [[Text(roles[i]), Count(download), Count(link), Count(download + link)]];
      i := i + 1;
    }
    sheet := WriteWorksheet("Clicks Per Department", DepartmentHeaders, data);
  }

  /** One row per distinct role, in ascending order, with the downloads and
      links of payloads whose ref is a link of an employee with that role,
      and their sum. */
  lemma DepartmentSpec(db: Relations)
    ensures StrictlySorted(Keys(DepartmentTable(db)))
    ensures forall r :: r in Keys(DepartmentTable(db)) <==> exists e | e in db.employees :: e.role == r
    ensures forall i :: 0 <= i < |DepartmentTable(db)| ==>
      var k := Keys(DepartmentTable(db))[i];
      var d, l := CountDepartment(db, db.payloads, k, Download), CountDepartment(db, db.payloads, k, Link);
      DepartmentTable(db)[i] == [Text(k), Count(d), Count(l), Count(d + l)]
  {
    var roles := DistinctSorted(RolesOf(db.employees));
    assert Keys(DepartmentTable(db)) == roles;
    RolesOfMembers(db.employees);
  }

  /** A department's downloads and links together never exceed the number
      of payloads counted. */
  lemma {:induction false} DepartmentKindsBound(db: Relations, ps: seq<PayloadRow>, role: string)
    ensures CountDepartment(db, ps, role, Download) + CountDepartment(db, ps, role, Link) <= |ps|
    decreases |ps|
  {
    if ps != [] {
      DepartmentKindsBound(db, ps[1..], role);
    }
  }
}
