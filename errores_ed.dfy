/** The error explorer page for one project: readings per hour and per day with their
    error breakdown, the histogram of reading types of the day, the list of error types
    offered for selection, and the time series of one error type bucketed by day or by
    month in Mexico City time (UTC minus six hours). All of it is aggregation over the
    log; nothing is updated. */
module ErroresEd {
  import opened Text
  import opened Seqs
  import opened Readings
  import opened Calendar

  /** The readings of the page's queries: `TRIM(R.alias)` equal to the selected project
      and the UTC date of the reading equal to the current day. */
  predicate OfProjectOn(r: Reading, proyecto: string, today: int) {
    Trim(r.alias) == proyecto && Day(r.at) == today
  }

  function ProjectDay(rs: seq<Reading>, proyecto: string, today: int): (s: seq<Reading>)
    ensures forall r :: r in s <==> r in rs && OfProjectOn(r, proyecto, today)
  {
    Where(rs, (r: Reading) => OfProjectOn(r, proyecto, today))
  }

  // ---------------------------------------------------------------------------------
  // errores_hora: one row per (fecha, hora), ordered by fecha, hora.

  function HourKey(r: Reading): int { HourOf(r.at) }

  datatype HourRow = HourRow(fecha: int, hora: nat, counts: Counts)

  /** The hours `h`, ..., 23 in increasing order. */
  function HoursFrom(h: nat): (hs: seq<int>)
    requires h <= 24
    ensures |hs| == 24 - h
    ensures forall i :: 0 <= i < |hs| ==> hs[i] == h + i
    decreases 24 - h
  {
    if h == 24 then []
    else
      var rest := HoursFrom(h + 1);
      [h] + rest
  }

  /** The rows have a row at hour `h`. */
  predicate HasHour(rows: seq<HourRow>, h: int) {
    exists i :: 0 <= i < |rows| && rows[i].hora == h
  }

  /** The counters of the readings `sel` at each hour of the day, indexed by the hour. */
  function HourTallies(sel: seq<Reading>): (cs: seq<Counts>)
    ensures |cs| == 24
  {
    GroupTallies(sel, HourKey, HoursFrom(0))
  }

  lemma HourTallyAt(sel: seq<Reading>, h: nat)
    requires h < 24
    ensures HourTallies(sel)[h] == Tally(Select(sel, HourKey, h))
    ensures Partitioned(HourTallies(sel)[h])
  {
    GroupTalliesAt(sel, HourKey, HoursFrom(0), h);
  }

  /** The rows of the hours `h`, ..., 23 whose counters are not empty, in order. */
  function NonEmptyHours(cs: seq<Counts>, today: int, h: nat): (rows: seq<HourRow>)
    requires |cs| == 24 && h <= 24
    ensures forall i :: 0 <= i < |rows| ==>
              h <= rows[i].hora < 24 && rows[i].fecha == today
              && rows[i].counts == cs[rows[i].hora] && rows[i].counts.lecturas > 0
    ensures forall i, j :: 0 <= i < j < |rows| ==> rows[i].hora < rows[j].hora
    decreases 24 - h
  {
    if h == 24 then []
    else
      var rest := NonEmptyHours(cs, today, h + 1);
      if cs[h].lecturas == 0 then rest
      else
        var rows := [HourRow(today, h, cs[h])] + rest;
        assert forall i :: 0 < i < |rows| ==> rows[i] == rest[i - 1];
        rows
  }

  /** Every hour from `h` on whose counters are not empty has its row. */
  lemma {:induction false} NonEmptyHoursCover(cs: seq<Counts>, today: int, h: nat, k: nat)
    requires |cs| == 24 && h <= k < 24 && cs[k].lecturas > 0
    ensures HasHour(NonEmptyHours(cs, today, h), k)
    decreases 24 - h
  {
    var rows := NonEmptyHours(cs, today, h);
    var rest := NonEmptyHours(cs, today, h + 1);
    if k == h {
      assert rows[0].hora == h;
    } else {
      NonEmptyHoursCover(cs, today, h + 1, k);
      var i :| 0 <= i < |rest| && rest[i].hora == k;
      if cs[h].lecturas == 0 {
        assert rows[i] == rest[i];
      } else {
        assert rows[i + 1] == rest[i];
      }
    }
  }

  function HourCounts(rows: seq<HourRow>): (cs: seq<Counts>)
    ensures |cs| == |rows|
  {
    if rows == [] then []
    else
      var rest := HourCounts(rows[1..]);
      [rows[0].counts] + rest
  }

  /** An empty hour contributes nothing: its counters are all zero. */
  lemma EmptyIsZero(c: Counts)
    requires Partitioned(c) && c.lecturas == 0
    ensures c == Zero()
  {
  }

  /** Leaving out the empty hours does not change the sums. */
  lemma {:induction false} NonEmptyHoursSum(cs: seq<Counts>, today: int, h: nat)
    requires |cs| == 24 && h <= 24
    requires forall k :: 0 <= k < 24 ==> Partitioned(cs[k])
    ensures SumCounts(HourCounts(NonEmptyHours(cs, today, h))) == SumCounts(cs[h..])
    decreases 24 - h
  {
    if h < 24 {
      NonEmptyHoursSum(cs, today, h + 1);
      var rest := NonEmptyHours(cs, today, h + 1);
      assert cs[h..][0] == cs[h] && cs[h..][1..] == cs[h + 1..];
      if cs[h].lecturas == 0 {
        EmptyIsZero(cs[h]);
        PlusZero(SumCounts(cs[h + 1..]));
      } else {
        var rows := [HourRow(today, h, cs[h])] + rest;
        assert rows[1..] == rest;
      }
    }
  }

  /** `errores_hora(proyecto)`: for the selected project and the current day, one row per
      hour that has readings, in increasing order of the hour. */
  function HourlyReport(rs: seq<Reading>, proyecto: string, today: int): (rows: seq<HourRow>)
    ensures forall i, j :: 0 <= i < j < |rows| ==> rows[i].hora < rows[j].hora
    ensures forall i :: 0 <= i < |rows| ==>
              rows[i].fecha == today && rows[i].hora < 24 && rows[i].counts.lecturas > 0
  {
    NonEmptyHours(HourTallies(ProjectDay(rs, proyecto, today)), today, 0)
  }

  /** Each hourly row holds the counters of exactly the project's readings of the day at
      that hour, so the row invariants hold. */
  lemma HourlyRowCounts(rs: seq<Reading>, proyecto: string, today: int, i: nat)
    requires i < |HourlyReport(rs, proyecto, today)|
    ensures HourlyReport(rs, proyecto, today)[i].counts
         == Tally(Select(ProjectDay(rs, proyecto, today), HourKey, HourlyReport(rs, proyecto, today)[i].hora))
    ensures Partitioned(HourlyReport(rs, proyecto, today)[i].counts)
  {
    HourTallyAt(ProjectDay(rs, proyecto, today), HourlyReport(rs, proyecto, today)[i].hora);
  }

  /** Each hourly row's `porcentaje_error` lies between 0 and 100. */
  lemma HourlyPercentBounds(rs: seq<Reading>, proyecto: string, today: int, i: nat)
    requires i < |HourlyReport(rs, proyecto, today)|
    ensures 0.0 <= ErrorPercent(HourlyReport(rs, proyecto, today)[i].counts) <= 100.0
  {
    HourlyRowCounts(rs, proyecto, today, i);
    PercentBounds(HourlyReport(rs, proyecto, today)[i].counts);
  }

  /** Every reading of the project and day is in the row of its hour. */
  lemma HourlyCovers(rs: seq<Reading>, proyecto: string, today: int, r: Reading)
    requires r in ProjectDay(rs, proyecto, today)
    ensures HasHour(HourlyReport(rs, proyecto, today), HourOf(r.at))
  {
    var sel := ProjectDay(rs, proyecto, today);
    HourTallyAt(sel, HourOf(r.at));
    assert r in Select(sel, HourKey, HourOf(r.at));
    NonEmptyHoursCover(HourTallies(sel), today, 0, HourOf(r.at));
  }

  /** The hourly rows of a project and day add up to the tally of all its readings of the day. */
  lemma HourlyAddsUp(rs: seq<Reading>, proyecto: string, today: int)
    ensures SumCounts(HourCounts(HourlyReport(rs, proyecto, today))) == Tally(ProjectDay(rs, proyecto, today))
  {
    var sel := ProjectDay(rs, proyecto, today);
    var cs := HourTallies(sel);
    forall k | 0 <= k < 24 ensures Partitioned(cs[k]) {
      HourTallyAt(sel, k);
    }
    NonEmptyHoursSum(cs, today, 0);
    assert cs[0..] == cs;
    var hs := HoursFrom(0);
    forall r | r in sel ensures HourKey(r) in hs {
      assert hs[HourOf(r.at)] == HourOf(r.at);
    }
    TallyPartition(sel, HourKey, hs);
  }

  // ---------------------------------------------------------------------------------
  // errores_diario: one row per fecha; the day is fixed, so at most one row.

  datatype DayRow = DayRow(fecha: int, counts: Counts)

  /** `errores_diario(proyecto)`: at most one row, present exactly when the project has
      readings on the current day. */
  function DailyReport(rs: seq<Reading>, proyecto: string, today: int): (rows: seq<DayRow>)
    ensures |rows| <= 1
    ensures rows == [] <==> ProjectDay(rs, proyecto, today) == []
    ensures forall i :: 0 <= i < |rows| ==>
              rows[i].fecha == today && rows[i].counts.lecturas > 0 && Partitioned(rows[i].counts)
  {
    var sel := ProjectDay(rs, proyecto, today);
    if sel == [] then [] else [DayRow(today, Tally(sel))]
  }

  /** The daily row and the hourly rows come from the same project and day filter: the
      daily row exists exactly when there are hourly rows, and its counters are the sums
      of theirs. */
  lemma DailyIsSumOfHourly(rs: seq<Reading>, proyecto: string, today: int)
    ensures DailyReport(rs, proyecto, today) == [] <==> HourlyReport(rs, proyecto, today) == []
    ensures DailyReport(rs, proyecto, today) != [] ==>
              DailyReport(rs, proyecto, today)[0].counts == SumCounts(HourCounts(HourlyReport(rs, proyecto, today)))
  {
    var sel := ProjectDay(rs, proyecto, today);
    HourlyAddsUp(rs, proyecto, today);
    if sel != [] {
      assert sel[0] in sel;
      HourlyCovers(rs, proyecto, today, sel[0]);
    }
  }

  // ---------------------------------------------------------------------------------
  // tipo_errores_ed: COUNT per raw reading type of the project's readings of the day.

  datatype TypeCount = TypeCount(tipo: string, cantidad: nat)

  /** Pairs each type with its count. */
  function TypeRows(ks: seq<string>, ns: seq<nat>): (rows: seq<TypeCount>)
    requires |ks| == |ns|
    ensures |rows| == |ks|
    ensures forall i :: 0 <= i < |ks| ==> rows[i] == TypeCount(ks[i], ns[i])
  {
    if ks == [] then []
    else
      var rest := TypeRows(ks[1..], ns[1..]);
      [TypeCount(ks[0], ns[0])] + rest
  }

  function Cantidades(rows: seq<TypeCount>): (ns: seq<nat>)
    ensures |ns| == |rows|
    ensures forall i :: 0 <= i < |rows| ==> ns[i] == rows[i].cantidad
  {
    if rows == [] then []
    else
      var rest := Cantidades(rows[1..]);
      [rows[0].cantidad] + rest
  }

  /** The distinct reading types of the project's readings of the day. */
  function DayTypes(rs: seq<Reading>, proyecto: string, today: int): seq<string> {
    Dedup(KeysOf(ProjectDay(rs, proyecto, today), KindOf))
  }

  /** `tipo_errores_ed(proyecto)`: one row per distinct reading type of the project's
      readings of the day, with how many of those readings have that type. */
  function TypeHistogram(rs: seq<Reading>, proyecto: string, today: int): (rows: seq<TypeCount>)
    ensures forall i, j :: 0 <= i < j < |rows| ==> rows[i].tipo != rows[j].tipo
    ensures forall i :: 0 <= i < |rows| ==>
              rows[i].cantidad == |Select(ProjectDay(rs, proyecto, today), KindOf, rows[i].tipo)|
  {
    var ks := DayTypes(rs, proyecto, today);
    TypeRows(ks, GroupSizes(ProjectDay(rs, proyecto, today), KindOf, ks))
  }

  /** Only types that occur are listed: every count is positive. */
  lemma HistogramPositive(rs: seq<Reading>, proyecto: string, today: int, i: nat)
    requires i < |TypeHistogram(rs, proyecto, today)|
    ensures TypeHistogram(rs, proyecto, today)[i].cantidad > 0
  {
    var sel := ProjectDay(rs, proyecto, today);
    var ks := DayTypes(rs, proyecto, today);
    var j :| 0 <= j < |KeysOf(sel, KindOf)| && KeysOf(sel, KindOf)[j] == ks[i];
    assert sel[j] in Select(sel, KindOf, ks[i]);
  }

  /** Every type that occurs among the project's readings of the day is listed. */
  lemma HistogramComplete(rs: seq<Reading>, proyecto: string, today: int, r: Reading)
    requires r in ProjectDay(rs, proyecto, today)
    ensures exists i :: 0 <= i < |TypeHistogram(rs, proyecto, today)|
                        && TypeHistogram(rs, proyecto, today)[i].tipo == r.kind
  {
    var sel := ProjectDay(rs, proyecto, today);
    var ks := DayTypes(rs, proyecto, today);
    var j :| 0 <= j < |sel| && sel[j] == r;
    assert KeysOf(sel, KindOf)[j] == r.kind;
    var i :| 0 <= i < |ks| && ks[i] == r.kind;
    assert TypeHistogram(rs, proyecto, today)[i].tipo == r.kind;
  }

  lemma CantidadesOfRows(ks: seq<string>, ns: seq<nat>)
    requires |ks| == |ns|
    ensures Cantidades(TypeRows(ks, ns)) == ns
  {
  }

  /** The histogram accounts for every reading of the project and day exactly once: the
      counts add up to the day's total readings (`lecturas` of the daily row). */
  lemma HistogramAddsUp(rs: seq<Reading>, proyecto: string, today: int)
    ensures SumNat(Cantidades(TypeHistogram(rs, proyecto, today)))
         == |ProjectDay(rs, proyecto, today)|
         == Tally(ProjectDay(rs, proyecto, today)).lecturas
  {
    var sel := ProjectDay(rs, proyecto, today);
    var ks := DayTypes(rs, proyecto, today);
    CantidadesOfRows(ks, GroupSizes(sel, KindOf, ks));
    forall r | r in sel ensures KindOf(r) in ks {
      var j :| 0 <= j < |sel| && sel[j] == r;
      assert KeysOf(sel, KindOf)[j] == r.kind;
    }
    GroupSizesPartition(sel, KindOf, ks);
  }

  // ---------------------------------------------------------------------------------
  // The selection lists.

  /** `list_errores_ed`: the reading types of the whole log, stripped of surrounding
      white space, each once. */
  function ErrorTypeOptions(rs: seq<Reading>): (opts: seq<string>)
    ensures Distinct(opts)
  {
    StrippedDistinct(Dedup(KeysOf(rs, KindOf)))
  }

  /** The error list offers exactly the stripped types that occur in the log. */
  lemma ErrorTypeOptionsExact(rs: seq<Reading>, e: string)
    ensures e in ErrorTypeOptions(rs) <==> exists r :: r in rs && Trim(r.kind) == e
  {
    var keys := KeysOf(rs, KindOf);
    var kinds := Dedup(keys);
    StrippedDistinctValues(kinds, e);
    if e in ErrorTypeOptions(rs) {
      var l :| l in kinds && Trim(l) == e;
      DedupSameValues(keys, l);
      KeyOccurs(rs, KindOf, l);
    }
    if exists r :: r in rs && Trim(r.kind) == e {
      var r :| r in rs && Trim(r.kind) == e;
      KeyOccurs(rs, KindOf, KindOf(r));
      DedupSameValues(keys, KindOf(r));
      assert r.kind in kinds;
    }
  }

  /** `list_proyectos_ed` as written: the distinct aliases, untrimmed, although every
      query of the page compares the trimmed alias with the selected project. */
  function ProjectOptionsAsWritten(rs: seq<Reading>): (opts: seq<string>)
    ensures Distinct(opts)
    ensures forall p :: p in opts <==> exists r :: r in rs && r.alias == p
  {
    var keys := KeysOf(rs, AliasOf);
    assert forall p :: p in keys <==> exists r :: r in rs && r.alias == p by {
      forall p ensures p in keys <==> exists r :: r in rs && r.alias == p {
        KeyOccurs(rs, AliasOf, p);
      }
    }
    Dedup(keys)
  }

  /** A device whose alias carries surrounding white space is offered as a project whose
      page then finds none of its readings, not even those of the current day. */
  lemma PaddedAliasFindsNothing(today: int)
    ensures var r := Reading(" Centro", Open, today * SecondsPerDay);
      " Centro" in ProjectOptionsAsWritten([r])
      && Day(r.at) == today
      && ProjectDay([r], " Centro", today) == []
  {
    var r := Reading(" Centro", Open, today * SecondsPerDay);
    assert r in [r];
    PaddedAliasMissed(r, today);
  }

  /** The trimmed filter does not match a padded alias. */
  lemma PaddedAliasMissed(r: Reading, today: int)
    requires r.alias == " Centro"
    ensures ProjectDay([r], " Centro", today) == []
  {
    var a := " Centro";
    assert IsSpace(a[0]);
    TrimSpec(a);
    assert Trim(a) != a;
    var sel := ProjectDay([r], a, today);
    assert forall x :: x !in sel;
  }

  /** The project list the page evidently intends: the trimmed aliases, each once, so
      that every offered project matches its readings. */
  function ProjectOptions(rs: seq<Reading>): (opts: seq<string>)
    ensures Distinct(opts)
  {
    StrippedDistinct(KeysOf(rs, AliasOf))
  }

  /** Every offered project has readings, and a project with readings on the current
      day finds them: the reading is in `ProjectDay` for its offered name. */
  lemma ProjectOptionsMatch(rs: seq<Reading>, p: string, r: Reading, today: int)
    ensures p in ProjectOptions(rs) ==> exists q :: q in rs && Trim(q.alias) == p
    ensures r in rs && Day(r.at) == today ==>
              Trim(r.alias) in ProjectOptions(rs) && r in ProjectDay(rs, Trim(r.alias), today)
  {
    var keys := KeysOf(rs, AliasOf);
    var opts := ProjectOptions(rs);
    if p in opts {
      var i :| 0 <= i < |opts| && opts[i] == p;
      var j :| 0 <= j < |keys| && p == Trim(keys[j]);
      assert rs[j] in rs && Trim(rs[j].alias) == p;
    }
    if r in rs && Day(r.at) == today {
      var k :| 0 <= k < |rs| && rs[k] == r;
      assert keys[k] == r.alias;
    }
  }

  // ---------------------------------------------------------------------------------
  // proyectos_errores: the count of one error type per day or per month.

  /** The readings are timestamped in UTC; buckets are taken six hours earlier. */
  const MexicoOffset: int := 6 * SecondsPerHour

  /** Only readings from 2024-01-01 (UTC date) on are counted. */
  const SeriesStart: int := DaysFromCivil(Date(2024, 1, 1))

  /** The calendar date six hours before `t`. */
  function ShiftedDate(t: int): (d: Date)
    ensures Valid(d)
  {
    CivilFromDays(Day(t - MexicoOffset))
  }

  /** The shift moves the first six UTC hours of a day to the previous date and leaves
      the rest on the same date. */
  lemma ShiftedDay(t: int)
    ensures Day(t - MexicoOffset) == if HourOf(t) < 6 then Day(t) - 1 else Day(t)
  {
  }

  /** `intervalo_tiempo == 'Mensual'` selects `%Y-%m`; any other value `%Y-%m-%d`. */
  function BucketFormat(intervalo: string): (fmt: string)
    ensures fmt == MonthFormat <==> intervalo == "Mensual"
    ensures fmt == DayFormat <==> intervalo != "Mensual"
  {
    if intervalo == "Mensual" then MonthFormat else DayFormat
  }

  /** The bucket (`fecha`) of a reading at time `t`. */
  function BucketKey(intervalo: string, t: int): string {
    Format(BucketFormat(intervalo), ShiftedDate(t))
  }

  /** The monthly bucket of a reading is its daily bucket without the day: months group
      whole days. */
  lemma MonthlyKeyIsPrefix(t: int, intervalo: string)
    requires intervalo != "Mensual"
    ensures BucketKey(intervalo, t) == BucketKey("Mensual", t) + "-" + ZeroPad(ShiftedDate(t).day, 2)
    ensures BucketKey("Mensual", t) == YearText(ShiftedDate(t).year) + "-" + ZeroPad(ShiftedDate(t).month, 2)
  {
    BucketFormats(ShiftedDate(t));
  }

  /** Within the years 0 to 9999, two readings share a daily bucket exactly when their
      shifted dates agree. */
  lemma DailyBucketsAreDates(t: int, u: int, intervalo: string)
    requires intervalo != "Mensual"
    requires 0 <= ShiftedDate(t).year <= 9999 && 0 <= ShiftedDate(u).year <= 9999
    ensures BucketKey(intervalo, t) == BucketKey(intervalo, u) <==> Day(t - MexicoOffset) == Day(u - MexicoOffset)
  {
    if BucketKey(intervalo, t) == BucketKey(intervalo, u) {
      DayKeyInjective(ShiftedDate(t), ShiftedDate(u));
      CivilRoundTrip(Day(t - MexicoOffset), ShiftedDate(t));
      CivilRoundTrip(Day(u - MexicoOffset), ShiftedDate(u));
    }
  }

  /** The readings the series counts: of the project and error type (both compared
      trimmed) and dated 2024-01-01 or later. */
  predicate InSeries(r: Reading, proyecto: string, error: string) {
    Day(r.at) >= SeriesStart && Trim(r.alias) == proyecto && Trim(r.kind) == error
  }

  function SeriesSelection(rs: seq<Reading>, proyecto: string, error: string): (s: seq<Reading>)
    ensures forall r :: r in s <==> r in rs && InSeries(r, proyecto, error)
  {
    Where(rs, (r: Reading) => InSeries(r, proyecto, error))
  }

  function SeriesKeyOf(intervalo: string): Reading -> string {
    (r: Reading) => BucketKey(intervalo, r.at)
  }

  datatype SeriesRow = SeriesRow(fecha: string, errores: nat)

  function SeriesRows(ks: seq<string>, ns: seq<nat>): (rows: seq<SeriesRow>)
    requires |ks| == |ns|
    ensures |rows| == |ks|
    ensures forall i :: 0 <= i < |rows| ==> rows[i] == SeriesRow(ks[i], ns[i])
  {
    if ks == [] then []
    else
      var rest := SeriesRows(ks[1..], ns[1..]);
      [SeriesRow(ks[0], ns[0])] + rest
  }

  /** `ORDER BY fecha ASC` on distinct buckets: strictly increasing text order. */
  predicate Ascending(rows: seq<SeriesRow>) {
    forall i, j :: 0 <= i < j < |rows| ==> LexLess(rows[i].fecha, rows[j].fecha)
  }

  function InsertRow(x: SeriesRow, s: seq<SeriesRow>): (r: seq<SeriesRow>)
    requires Ascending(s)
    requires forall j :: 0 <= j < |s| ==> s[j].fecha != x.fecha
    ensures Ascending(r)
    ensures multiset(r) == multiset(s) + multiset{x}
    ensures |r| == |s| + 1
    ensures r[0] == x || (s != [] && r[0] == s[0])
  {
    if s == [] then [x]
    else if LexLess(x.fecha, s[0].fecha) then
      BeforeAll(x.fecha, s);
      AscendingCons(x, s);
      [x] + s
    else
      LexLessTotal(x.fecha, s[0].fecha);
      var t := InsertRow(x, s[1..]);
      BeforeAll(s[0].fecha, t);
      AscendingCons(s[0], t);
      assert multiset(s) == multiset{s[0]} + multiset(s[1..]) by { assert s == [s[0]] + s[1..]; }
      [s[0]] + t
  }

  /** A row before all of ascending rows extends them ascendingly. */
  lemma AscendingCons(h: SeriesRow, t: seq<SeriesRow>)
    requires Ascending(t)
    requires forall j :: 0 <= j < |t| ==> LexLess(h.fecha, t[j].fecha)
    ensures Ascending([h] + t)
  {
    var r := [h] + t;
    forall i, j | 0 <= i < j < |r| ensures LexLess(r[i].fecha, r[j].fecha) {
      assert r[j] == t[j - 1];
      if i > 0 {
        assert r[i] == t[i - 1];
      }
    }
  }

  /** A bucket before the first of ascending rows is before all of them. */
  lemma BeforeAll(f: string, s: seq<SeriesRow>)
    requires Ascending(s) && s != [] && LexLess(f, s[0].fecha)
    ensures forall j :: 0 <= j < |s| ==> LexLess(f, s[j].fecha)
  {
    forall j | 0 < j < |s| ensures LexLess(f, s[j].fecha) {
      LexLessTrans(f, s[0].fecha, s[j].fecha);
    }
  }

  /** Sorting rows with distinct buckets into ascending bucket order. */
  function SortByFecha(rows: seq<SeriesRow>): (r: seq<SeriesRow>)
    requires forall i, j :: 0 <= i < j < |rows| ==> rows[i].fecha != rows[j].fecha
    ensures Ascending(r)
    ensures multiset(r) == multiset(rows)
  {
    if rows == [] then []
    else
      var t := SortByFecha(rows[1..]);
      OthersDiffer(rows, t);
      assert multiset(rows) == multiset{rows[0]} + multiset(rows[1..]) by { assert rows == [rows[0]] + rows[1..]; }
      InsertRow(rows[0], t)
  }

  /** A reordering of the rows after the first holds no row with the first one's bucket. */
  lemma OthersDiffer(rows: seq<SeriesRow>, t: seq<SeriesRow>)
    requires rows != []
    requires forall i, j :: 0 <= i < j < |rows| ==> rows[i].fecha != rows[j].fecha
    requires multiset(t) == multiset(rows[1..])
    ensures forall j :: 0 <= j < |t| ==> t[j].fecha != rows[0].fecha
  {
    forall j | 0 <= j < |t| ensures t[j].fecha != rows[0].fecha {
      assert t[j] in multiset(rows[1..]);
      var k :| 0 <= k < |rows[1..]| && rows[1..][k] == t[j];
      assert rows[k + 1] == t[j];
    }
  }

  /** The rows of `proyectos_errores` before `ORDER BY`: one per bucket holding a
      counted reading, in order of first occurrence. */
  function SeriesGroups(rs: seq<Reading>, proyecto: string, error: string, intervalo: string): (rows: seq<SeriesRow>)
    ensures forall i, j :: 0 <= i < j < |rows| ==> rows[i].fecha != rows[j].fecha
  {
    var sel := SeriesSelection(rs, proyecto, error);
    var ks := Dedup(KeysOf(sel, SeriesKeyOf(intervalo)));
    SeriesRows(ks, GroupSizes(sel, SeriesKeyOf(intervalo), ks))
  }

  /** A bucket is listed exactly when it holds a counted reading, with the number of
      counted readings in it. */
  lemma SeriesGroupsRows(rs: seq<Reading>, proyecto: string, error: string, intervalo: string, row: SeriesRow)
    ensures var sel := SeriesSelection(rs, proyecto, error);
      row in SeriesGroups(rs, proyecto, error, intervalo) <==>
        (exists r :: r in sel && BucketKey(intervalo, r.at) == row.fecha)
        && row.errores == |Select(sel, SeriesKeyOf(intervalo), row.fecha)|
  {
    var sel := SeriesSelection(rs, proyecto, error);
    var key := SeriesKeyOf(intervalo);
    var keys := KeysOf(sel, key);
    var ks := Dedup(keys);
    var rows := SeriesGroups(rs, proyecto, error, intervalo);
    assert forall r :: key(r) == BucketKey(intervalo, r.at);
    KeyOccurs(sel, key, row.fecha);
    DedupSameValues(keys, row.fecha);
    if row in rows {
      var i :| 0 <= i < |rows| && rows[i] == row;
      assert row.fecha == ks[i];
    }
    if row.fecha in ks && row.errores == |Select(sel, key, row.fecha)| {
      var i :| 0 <= i < |ks| && ks[i] == row.fecha;
      assert rows[i] == row;
    }
  }

  /** `proyectos_errores(proyecto, error, intervalo_tiempo)`: the bucket counts in
      ascending bucket order. */
  function ErrorSeries(rs: seq<Reading>, proyecto: string, error: string, intervalo: string): (rows: seq<SeriesRow>)
    ensures Ascending(rows)
    ensures multiset(rows) == multiset(SeriesGroups(rs, proyecto, error, intervalo))
  {
    SortByFecha(SeriesGroups(rs, proyecto, error, intervalo))
  }

  /** Every row of the series counts the readings of its bucket, and there is a row for
      exactly the buckets that hold counted readings. */
  lemma ErrorSeriesRows(rs: seq<Reading>, proyecto: string, error: string, intervalo: string, row: SeriesRow)
    ensures var sel := SeriesSelection(rs, proyecto, error);
      row in ErrorSeries(rs, proyecto, error, intervalo) <==>
        (exists r :: r in sel && BucketKey(intervalo, r.at) == row.fecha)
        && row.errores == |Select(sel, SeriesKeyOf(intervalo), row.fecha)|
  {
    var rows := ErrorSeries(rs, proyecto, error, intervalo);
    var groups := SeriesGroups(rs, proyecto, error, intervalo);
    assert row in rows <==> row in multiset(rows);
    assert row in groups <==> row in multiset(groups);
    SeriesGroupsRows(rs, proyecto, error, intervalo, row);
  }

  /** No bucket is listed twice. */
  lemma ErrorSeriesDistinct(rs: seq<Reading>, proyecto: string, error: string, intervalo: string)
    ensures var rows := ErrorSeries(rs, proyecto, error, intervalo);
      forall i, j :: 0 <= i < j < |rows| ==> rows[i].fecha != rows[j].fecha
  {
    var rows := ErrorSeries(rs, proyecto, error, intervalo);
    forall i, j | 0 <= i < j < |rows| ensures rows[i].fecha != rows[j].fecha {
      LexLessIrreflexive(rows[i].fecha);
    }
  }
}
