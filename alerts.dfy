/** The general page's alert: today's readings per project, the projects above five
    percent errors, the alert message, and the one-hour cooldown kept in the session. */
module Alerts {
  import opened Seqs
  import opened Readings

  datatype Option<T> = None | Some(value: T)

  // ---------------------------------------------------------------------------------
  // errores_diario_todos

  /** One row of `errores_diario_todos`: the (untrimmed) alias, the day and its counts. */
  datatype DailyRow = DailyRow(proyecto: string, fecha: int, counts: Counts)

  /** The readings dated (UTC) on the current day. */
  function OnDay(rs: seq<Reading>, today: int): (s: seq<Reading>)
    ensures forall r :: r in s <==> r in rs && Day(r.at) == today
  {
    Where(rs, (r: Reading) => Day(r.at) == today)
  }

  function DailyRows(ps: seq<string>, cs: seq<Counts>, today: int): (rows: seq<DailyRow>)
    requires |ps| == |cs|
    ensures |rows| == |ps|
    ensures forall i :: 0 <= i < |rows| ==> rows[i] == DailyRow(ps[i], today, cs[i])
  {
    if ps == [] then []
    else
      var rest := DailyRows(ps[1..], cs[1..], today);
      [DailyRow(ps[0], today, cs[0])] + rest
  }

  /** The aliases seen today, each once. */
  function DayAliases(rs: seq<Reading>, today: int): seq<string> {
    Dedup(KeysOf(OnDay(rs, today), AliasOf))
  }

  /** `GROUP BY R.alias, fecha` over today's readings, before `ORDER BY`. */
  function DailyGroups(rs: seq<Reading>, today: int): (rows: seq<DailyRow>)
    ensures |rows| == |DayAliases(rs, today)|
    ensures forall i, j :: 0 <= i < j < |rows| ==> rows[i].proyecto != rows[j].proyecto
  {
    var ps := DayAliases(rs, today);
    DailyRows(ps, GroupTallies(OnDay(rs, today), AliasOf, ps), today)
  }

  function Lecturas(row: DailyRow): int { row.counts.lecturas }

  function Proyecto(row: DailyRow): string { row.proyecto }

  /** `errores_diario_todos()`: the groups by descending `lecturas` (all share `fecha`;
      equal counts in no particular order). */
  function DailyAll(rs: seq<Reading>, today: int): (rows: seq<DailyRow>)
    ensures SortedDesc(rows, Lecturas)
    ensures multiset(rows) == multiset(DailyGroups(rs, today))
    ensures forall i, j :: 0 <= i < j < |rows| ==> rows[i].proyecto != rows[j].proyecto
  {
    var groups := DailyGroups(rs, today);
    var rows := SortDesc(groups, Lecturas);
    KeysDistinctPermuted(groups, rows, Proyecto);
    rows
  }

  /** Each group row aggregates exactly the readings of its alias today: it has readings,
      and correct plus erroneous readings make up all of them. */
  lemma DailyGroupsRow(rs: seq<Reading>, today: int, i: nat)
    requires i < |DailyGroups(rs, today)|
    ensures var row := DailyGroups(rs, today)[i];
      row.fecha == today
      && row.counts == Tally(Select(OnDay(rs, today), AliasOf, row.proyecto))
      && row.counts.lecturas > 0
      && row.counts.correctas + row.counts.errores == row.counts.lecturas
  {
    var sel := OnDay(rs, today);
    var ps := DayAliases(rs, today);
    GroupTalliesAt(sel, AliasOf, ps, i);
    var j :| 0 <= j < |KeysOf(sel, AliasOf)| && KeysOf(sel, AliasOf)[j] == ps[i];
    assert sel[j] in Select(sel, AliasOf, ps[i]);
  }

  lemma DailyGroupsMember(rs: seq<Reading>, today: int, row: DailyRow)
    requires row in DailyGroups(rs, today)
    ensures row.fecha == today
    ensures row.counts == Tally(Select(OnDay(rs, today), AliasOf, row.proyecto))
    ensures row.counts.lecturas > 0
    ensures row.counts.correctas + row.counts.errores == row.counts.lecturas
  {
    var groups := DailyGroups(rs, today);
    var i :| 0 <= i < |groups| && groups[i] == row;
    DailyGroupsRow(rs, today, i);
  }

  /** Every row of the table aggregates the readings of its alias today. */
  lemma DailyAllSound(rs: seq<Reading>, today: int, row: DailyRow)
    requires row in DailyAll(rs, today)
    ensures row.fecha == today
    ensures row.counts == Tally(Select(OnDay(rs, today), AliasOf, row.proyecto))
    ensures row.counts.lecturas > 0
    ensures row.counts.correctas + row.counts.errores == row.counts.lecturas
  {
    assert row in multiset(DailyGroups(rs, today));
    DailyGroupsMember(rs, today, row);
  }

  /** Every alias seen today has a row. */
  lemma DailyAllComplete(rs: seq<Reading>, today: int, r: Reading)
    requires r in rs && Day(r.at) == today
    ensures exists x :: x in DailyAll(rs, today) && x.proyecto == r.alias
  {
    var groups := DailyGroups(rs, today);
    var ps := DayAliases(rs, today);
    var sel := OnDay(rs, today);
    KeyOccurs(sel, AliasOf, r.alias);
    DedupSameValues(KeysOf(sel, AliasOf), r.alias);
    var i :| 0 <= i < |ps| && ps[i] == r.alias;
    var cs := GroupTallies(sel, AliasOf, ps);
    assert groups[i] == DailyRow(ps[i], today, cs[i]);
    assert groups[i] in multiset(DailyAll(rs, today));
  }

  // ---------------------------------------------------------------------------------
  // The five percent threshold

  /** `porcentaje_error > 5`. */
  predicate Violates(row: DailyRow) {
    row.counts.lecturas > 0 && ErrorPercent(row.counts) > 5.0
  }

  /** The threshold is strict and amounts to `errores * 100 > 5 * lecturas`. */
  lemma ViolatesExactly(row: DailyRow)
    requires row.counts.lecturas > 0
    ensures Violates(row) <==> row.counts.errores * 100 > 5 * row.counts.lecturas
  {
    PercentAbove(row.counts, 5);
  }

  /** Five errors in a hundred readings are not above the threshold; six are. */
  lemma ThresholdBoundary(p: string, today: int)
    ensures !Violates(DailyRow(p, today, Counts(100, 95, 5, 5, 0, 0)))
    ensures Violates(DailyRow(p, today, Counts(100, 94, 6, 6, 0, 0)))
  {
    ViolatesExactly(DailyRow(p, today, Counts(100, 95, 5, 5, 0, 0)));
    ViolatesExactly(DailyRow(p, today, Counts(100, 94, 6, 6, 0, 0)));
  }

  /** `proyectos_con_errores_altos`: the rows above the threshold, in table order. */
  function Violations(rows: seq<DailyRow>): (vs: seq<DailyRow>)
    ensures forall x :: x in vs <==> x in rows && Violates(x)
    ensures |vs| <= |rows|
  {
    if rows == [] then []
    else
      var rest := Violations(rows[1..]);
      assert forall x :: x in rows <==> x == rows[0] || x in rows[1..] by {
        assert rows == [rows[0]] + rows[1..];
      }
      if Violates(rows[0]) then [rows[0]] + rest else rest
  }

  /** Filtering keeps the table's order: the violations of a concatenation are those of
      each part, in turn. */
  lemma {:induction false} ViolationsAppend(a: seq<DailyRow>, b: seq<DailyRow>)
    ensures Violations(a + b) == Violations(a) + Violations(b)
  {
    if a == [] {
      assert a + b == b;
    } else {
      assert (a + b)[1..] == a[1..] + b;
      ViolationsAppend(a[1..], b);
    }
  }

  // ---------------------------------------------------------------------------------
  // The message

  const Header: string := "Se han detectado los siguientes proyectos con más del 5% de errores:\n\n"

  /** `porcentaje_error` of a row (a row always has readings; 0 stands in otherwise). */
  function Pct(row: DailyRow): real {
    if row.counts.lecturas > 0 then ErrorPercent(row.counts) else 0.0
  }

  /** The line of one project. `render` is the text Python gives the percentage. */
  function Line(row: DailyRow, render: real -> string): string {
    "Proyecto: " + row.proyecto + ", Porcentaje de Error: " + render(Pct(row)) + "%\n"
  }

  /** The lines of the projects, in order. */
  function Lines(vs: seq<DailyRow>, render: real -> string): string
    decreases |vs|
  {
    if vs == [] then []
    else Lines(vs[..|vs| - 1], render) + Line(vs[|vs| - 1], render)
  }

  /** Extending a prefix by one project appends that project's line to the message. */
  lemma LinesPrefix(h: string, vs: seq<DailyRow>, i: nat, render: real -> string)
    requires i < |vs|
    ensures h + Lines(vs[..i + 1], render) == h + Lines(vs[..i], render) + Line(vs[i], render)
  {
    assert vs[..i + 1][..i] == vs[..i];
  }

  /** The lines of a concatenation are the lines of each part, in turn. */
  lemma {:induction false} LinesAppend(a: seq<DailyRow>, b: seq<DailyRow>, render: real -> string)
    ensures Lines(a + b, render) == Lines(a, render) + Lines(b, render)
    decreases |b|
  {
    if b == [] {
      assert a + b == a;
    } else {
      var b' := b[..|b| - 1];
      var ab := a + b;
      assert ab[..|ab| - 1] == a + b';
      assert ab[|ab| - 1] == b[|b| - 1];
      assert Lines(ab, render) == Lines(a + b', render) + Line(b[|b| - 1], render);
      LinesAppend(a, b', render);
    }
  }

  /** The number of line breaks in `s`. */
  function Breaks(s: string): nat {
    if s == [] then 0
    else
      var rest := Breaks(s[1..]);
      (if s[0] == '\n' then 1 else 0) + rest
  }

  lemma {:induction false} BreaksAppend(s: string, t: string)
    ensures Breaks(s + t) == Breaks(s) + Breaks(t)
  {
    if s != [] {
      assert (s + t)[1..] == s[1..] + t;
      BreaksAppend(s[1..], t);
    } else {
      assert s + t == t;
    }
  }

  lemma {:induction false} NoBreaks(s: string)
    requires '\n' !in s
    ensures Breaks(s) == 0
  {
    if s != [] {
      assert s[1..] <= s[1..] && forall i :: 0 <= i < |s[1..]| ==> s[1..][i] == s[i + 1];
      NoBreaks(s[1..]);
    }
  }

  /** Neither the alias nor the percentage text contains a line break. */
  predicate SingleLine(v: DailyRow, render: real -> string) {
    '\n' !in v.proyecto && '\n' !in render(Pct(v))
  }

  lemma LabelBreaks()
    ensures Breaks("Proyecto: ") == 0
  {
    NoBreaks("Proyecto: ");
  }

  lemma PercentLabelBreaks()
    ensures Breaks(", Porcentaje de Error: ") == 0
  {
    NoBreaks(", Porcentaje de Error: ");
  }

  lemma EndBreaks()
    ensures Breaks("%\n") == 1
  {
    assert "%\n"[1..] == "\n";
  }

  /** A project's line ends in its only line break. */
  lemma LineBreaks(v: DailyRow, render: real -> string)
    requires SingleLine(v, render)
    ensures Breaks(Line(v, render)) == 1
  {
    var pct := render(Pct(v));
    var a, b := "Proyecto: ", ", Porcentaje de Error: ";
    LabelBreaks();
    PercentLabelBreaks();
    EndBreaks();
    NoBreaks(v.proyecto);
    NoBreaks(pct);
    BreaksAppend(a, v.proyecto);
    BreaksAppend(a + v.proyecto, b);
    BreaksAppend(a + v.proyecto + b, pct);
    BreaksAppend(a + v.proyecto + b + pct, "%\n");
  }

  /** Each project takes exactly one line of the message. */
  lemma {:induction false} OneLinePerProject(vs: seq<DailyRow>, render: real -> string)
    requires forall i :: 0 <= i < |vs| ==> SingleLine(vs[i], render)
    ensures Breaks(Lines(vs, render)) == |vs|
    decreases |vs|
  {
    if vs != [] {
      var init := vs[..|vs| - 1];
      OneLinePerProject(init, render);
      LineBreaks(vs[|vs| - 1], render);
      BreaksAppend(Lines(init, render), Line(vs[|vs| - 1], render));
    }
  }

  /** `mensaje_alerta`: the header, then one line per violating project, built up in a
      loop. */
  method BuildMessage(vs: seq<DailyRow>, render: real -> string) returns (msg: string)
    ensures msg == Header + Lines(vs, render)
  {
    msg := Header;
    var i := 0;
    while i < |vs|
      invariant 0 <= i <= |vs|
      invariant msg == Header + Lines(vs[..i], render)
    {
      LinesPrefix(Header, vs, i, render);
      msg := msg + Line(vs[i], render);
      i := i + 1;
    }
    assert vs[..i] == vs;
  }

  // ---------------------------------------------------------------------------------
  // The cooldown

  /** `alert_status`: whether an alert was sent and when (seconds). */
  datatype Status = Status(sent: bool, timestamp: Option<int>)

  /** The record a new session starts with. */
  const Initial: Status := Status(false, None)

  /** One hour, in seconds. */
  const Cooldown: int := 3600

  /** An alert goes out when some project violates the threshold and either none was
      sent yet or the last one is at least an hour old. */
  predicate ShouldAlert(st: Status, violations: bool, now: int) {
    violations && (st.timestamp.None? || now - st.timestamp.value >= Cooldown)
  }

  /** The record after one run of the page. */
  function Next(st: Status, violations: bool, now: int): (st': Status)
    ensures ShouldAlert(st, violations, now) ==> st' == Status(true, Some(now))
    ensures !ShouldAlert(st, violations, now) ==> st' == st
  {
    if ShouldAlert(st, violations, now) then Status(true, Some(now)) else st
  }

  /** Without violations nothing is sent and the record stays as it was. */
  lemma QuietWithoutViolations(st: Status, now: int)
    ensures !ShouldAlert(st, false, now) && Next(st, false, now) == st
  {
  }

  /** The cooldown: less than an hour after the last alert, including a clock that went
      backwards, no alert goes out; from exactly one hour on, it does. */
  lemma CooldownWindow(ts: int, now: int)
    ensures now - ts < 3600 ==> !ShouldAlert(Status(true, Some(ts)), true, now)
    ensures now - ts >= 3600 ==> ShouldAlert(Status(true, Some(ts)), true, now)
    ensures ShouldAlert(Status(true, Some(ts)), true, ts + 3600)
    ensures !ShouldAlert(Status(true, Some(ts)), true, ts + 3599)
    ensures !ShouldAlert(Status(true, Some(ts)), true, ts - 1)
  {
  }

  /** One run of the page: whether violations were found and the current time. */
  datatype Run = Run(violations: bool, now: int)

  /** The record after a sequence of runs, and the times at which alerts went out. */
  function Replay(st: Status, runs: seq<Run>): (r: (Status, seq<int>))
    decreases |runs|
  {
    if runs == [] then (st, [])
    else
      var fired := ShouldAlert(st, runs[0].violations, runs[0].now);
      var rest := Replay(Next(st, runs[0].violations, runs[0].now), runs[1..]);
      (rest.0, (if fired then [runs[0].now] else []) + rest.1)
  }

  /** Over any sequence of runs, alerts are at least an hour apart (also from the one
      the starting record remembers), the record remembers the last alert, and `sent`
      becomes true once the first alert goes out. */
  lemma {:induction false} AlertsSpaced(st: Status, runs: seq<Run>)
    requires st.timestamp.None? ==> !st.sent
    ensures var (fin, fires) := Replay(st, runs);
      (forall k :: 0 <= k < |fires| - 1 ==> fires[k + 1] - fires[k] >= Cooldown)
      && (st.timestamp.Some? && fires != [] ==> fires[0] - st.timestamp.value >= Cooldown)
      && fin.timestamp == (if fires == [] then st.timestamp else Some(fires[|fires| - 1]))
      && (fin.sent <==> st.sent || fires != [])
    decreases |runs|
  {
    if runs != [] {
      var st1 := Next(st, runs[0].violations, runs[0].now);
      AlertsSpaced(st1, runs[1..]);
      var rest := Replay(st1, runs[1..]);
      var fires := Replay(st, runs).1;
      if ShouldAlert(st, runs[0].violations, runs[0].now) {
        assert fires == [runs[0].now] + rest.1;
        forall k | 0 <= k < |fires| - 1 ensures fires[k + 1] - fires[k] >= Cooldown {
          if k > 0 {
            assert fires[k] == rest.1[k - 1] && fires[k + 1] == rest.1[k];
          }
        }
      } else {
        assert fires == rest.1;
      }
    }
  }

  /** A run with violations is silenced only by an alert less than an hour before it. */
  lemma SilencedOnlyByRecentAlert(st: Status, run: Run)
    requires run.violations && !ShouldAlert(st, run.violations, run.now)
    ensures st.timestamp.Some? && run.now - st.timestamp.value < Cooldown
  {
  }

  // ---------------------------------------------------------------------------------
  // The session and one run of the page

  /** The session's `alert_status` dictionary. */
  class AlertStatus {
    var sent: bool
    var timestamp: Option<int>

    constructor()
      ensures sent == false && timestamp == None
    {
      sent := false;
      timestamp := None;
    }

    function State(): Status
      reads this
    {
      Status(sent, timestamp)
    }
  }

  /** `st.session_state`: holds the alert record once a run has asked for it. */
  class Session {
    var alertStatus: Option<AlertStatus>

    constructor()
      ensures alertStatus == None
    {
      alertStatus := None;
    }

    /** `get_alert_sent_status()`: the session's record, created as `{sent: False,
        timestamp: None}` the first time and returned untouched afterwards. */
    method GetAlertSentStatus() returns (s: AlertStatus)
      modifies this
      ensures alertStatus == Some(s)
      ensures old(alertStatus).Some? ==> s == old(alertStatus.value) && s.State() == old(s.State())
      ensures old(alertStatus).None? ==> fresh(s) && s.State() == Initial
    {
      if alertStatus.None? {
        s := new AlertStatus();
        alertStatus := Some(s);
      } else {
        s := alertStatus.value;
      }
    }
  }

  /** What the Telegram request does: it is answered with 200, answered with another
      status (logged, not raised), or it raises (no connection), which ends the run. */
  datatype Delivery = Delivered | Rejected(code: int) | Raised

  /** One run of the page (lines 87-110): find the violations in today's table and, when
      the cooldown allows, send the message and record the time. The record is updated
      whatever the answer to the request, unless the request raises. */
  method EvaluateAlerts(session: Session, table: seq<DailyRow>, now: int, render: real -> string, delivery: Delivery)
    returns (message: Option<string>)
    modifies session, if session.alertStatus.Some? then {session.alertStatus.value} else {}
    ensures session.alertStatus.Some?
    ensures old(session.alertStatus).Some? ==> session.alertStatus == old(session.alertStatus)
    ensures old(session.alertStatus).None? ==> fresh(session.alertStatus.value)
    ensures var before := if old(session.alertStatus).Some? then old(session.alertStatus.value.State()) else Initial;
      var vs := Violations(table);
      (message.Some? <==> ShouldAlert(before, vs != [], now))
      && (message.Some? ==> message.value == Header + Lines(vs, render))
      && (delivery != Raised ==> session.alertStatus.value.State() == Next(before, vs != [], now))
      && (delivery == Raised ==> session.alertStatus.value.State() == before)
  {
    var status := session.GetAlertSentStatus();
    var vs := Violations(table);
    if ShouldAlert(status.State(), vs != [], now) {
      var msg := BuildMessage(vs, render);
      message := Some(msg);
      if delivery != Raised {
        status.sent := true;
        status.timestamp := Some(now);
      }
    } else {
      message := None;
    }
  }
}
