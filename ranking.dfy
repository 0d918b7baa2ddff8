/** The service console: today's readings of one service counted per project and
    reading type, the list of reading types, the project-by-type pivot table, and the
    ranking of projects by their readings of the "open" kinds. */
module Ranking {
  import opened Text
  import opened Seqs
  import opened Readings

  // ---------------------------------------------------------------------------------
  // servicio_consola

  /** The two reading logs: `log_sek` (access control) and `log`. */
  datatype Table = LogSek | Log

  const AccessControl: string := "CONTROL DE ACCESOS"

  /** The log a service reads: the access-control service reads `log_sek`, every other
      service name reads `log`. */
  function TableFor(servicio: string): (t: Table)
    ensures t == LogSek <==> servicio == AccessControl
    ensures t == Log <==> servicio != AccessControl
  {
    if servicio == AccessControl then LogSek else Log
  }

  /** The comparison is exact: the parking service and a differently written access
      control service both read `log`. */
  lemma OnlyExactNameReadsLogSek()
    ensures TableFor("ESTACIONAMIENTO DIGITAL") == Log
    ensures TableFor("Control de Accesos") == Log
    ensures TableFor("CONTROL DE ACCESOS") == LogSek
  {
    assert "Control de Accesos"[0] != AccessControl[1];
  }

  function Chosen(logSek: seq<Reading>, log: seq<Reading>, servicio: string): seq<Reading> {
    if TableFor(servicio) == LogSek then logSek else log
  }

  /** The readings of the service dated (UTC) on the current day. */
  function ConsoleReadings(logSek: seq<Reading>, log: seq<Reading>, servicio: string, today: int): (s: seq<Reading>)
    ensures forall r :: r in s <==> r in Chosen(logSek, log, servicio) && Day(r.at) == today
  {
    Where(Chosen(logSek, log, servicio), (r: Reading) => Day(r.at) == today)
  }

  /** The group of a reading: its trimmed alias and trimmed type. */
  function PairOf(r: Reading): (string, string) { (Trim(r.alias), Trim(r.kind)) }

  datatype ConsoleRow = ConsoleRow(proyecto: string, tipo: string, cantidad: nat)

  function PairOfRow(row: ConsoleRow): (string, string) { (row.proyecto, row.tipo) }

  function ConsoleRows(ps: seq<(string, string)>, ns: seq<nat>): (rows: seq<ConsoleRow>)
    requires |ps| == |ns|
    ensures |rows| == |ps|
    ensures forall i :: 0 <= i < |rows| ==> rows[i] == ConsoleRow(ps[i].0, ps[i].1, ns[i])
  {
    if ps == [] then []
    else
      var rest := ConsoleRows(ps[1..], ns[1..]);
      [ConsoleRow(ps[0].0, ps[0].1, ns[0])] + rest
  }

  /** No (proyecto, tipo_lectura) pair occurs twice. */
  predicate UniquePairs(rows: seq<ConsoleRow>) {
    forall i, j :: 0 <= i < j < |rows| ==> PairOfRow(rows[i]) != PairOfRow(rows[j])
  }

  /** The inner `GROUP BY TRIM(R.alias), TRIM(LS.function_)` with `COUNT(*)`; the outer
      `GROUP BY proyecto, tipo_lectura` then sums a single row per pair. */
  function ConsoleGroups(rs: seq<Reading>): (rows: seq<ConsoleRow>)
    ensures UniquePairs(rows)
  {
    var ps := Dedup(KeysOf(rs, PairOf));
    ConsoleRows(ps, GroupSizes(rs, PairOf, ps))
  }

  lemma ConsoleGroupsSound(rs: seq<Reading>, row: ConsoleRow)
    requires row in ConsoleGroups(rs)
    ensures PairOfRow(row) in KeysOf(rs, PairOf)
    ensures row.cantidad == |Select(rs, PairOf, PairOfRow(row))|
  {
    var keys := KeysOf(rs, PairOf);
    var ps := Dedup(keys);
    var ns := GroupSizes(rs, PairOf, ps);
    var rows := ConsoleRows(ps, ns);
    assert rows == ConsoleGroups(rs);
    var i :| 0 <= i < |rows| && rows[i] == row;
    assert row == ConsoleRow(ps[i].0, ps[i].1, ns[i]);
    assert PairOfRow(row) == ps[i] && ps[i] in keys;
  }

  lemma ConsoleGroupsComplete(rs: seq<Reading>, row: ConsoleRow)
    requires PairOfRow(row) in KeysOf(rs, PairOf)
    requires row.cantidad == |Select(rs, PairOf, PairOfRow(row))|
    ensures row in ConsoleGroups(rs)
  {
    var keys := KeysOf(rs, PairOf);
    var ps := Dedup(keys);
    var ns := GroupSizes(rs, PairOf, ps);
    DedupSameValues(keys, PairOfRow(row));
    var i :| 0 <= i < |ps| && ps[i] == PairOfRow(row);
    assert ns[i] == row.cantidad;
    assert ConsoleRows(ps, ns)[i] == ConsoleRow(ps[i].0, ps[i].1, ns[i]) == row;
  }

  /** A row for exactly the pairs that occur, counting their readings. */
  lemma ConsoleGroupsRows(rs: seq<Reading>, row: ConsoleRow)
    ensures row in ConsoleGroups(rs) <==>
      (exists r :: r in rs && PairOf(r) == PairOfRow(row))
      && row.cantidad == |Select(rs, PairOf, PairOfRow(row))|
  {
    KeyOccurs(rs, PairOf, PairOfRow(row));
    if row in ConsoleGroups(rs) {
      ConsoleGroupsSound(rs, row);
    }
    if PairOfRow(row) in KeysOf(rs, PairOf) && row.cantidad == |Select(rs, PairOf, PairOfRow(row))| {
      ConsoleGroupsComplete(rs, row);
    }
  }

  function Cantidad(row: ConsoleRow): int { row.cantidad }

  /** `servicio_consola(servicio)`: the per-pair counts of the service's readings of the
      day, `ORDER BY cantidad DESC` (rows with equal counts in no particular order). */
  function ServicioConsola(logSek: seq<Reading>, log: seq<Reading>, servicio: string, today: int): (rows: seq<ConsoleRow>)
    ensures SortedDesc(rows, Cantidad)
    ensures multiset(rows) == multiset(ConsoleGroups(ConsoleReadings(logSek, log, servicio, today)))
  {
    SortDesc(ConsoleGroups(ConsoleReadings(logSek, log, servicio, today)), Cantidad)
  }

  /** The console holds a row for exactly the (trimmed project, trimmed type) pairs among
      the service's readings of the day, with the number of those readings. */
  lemma ServicioConsolaRows(logSek: seq<Reading>, log: seq<Reading>, servicio: string, today: int, row: ConsoleRow)
    ensures var rs := ConsoleReadings(logSek, log, servicio, today);
      row in ServicioConsola(logSek, log, servicio, today) <==>
        (exists r :: r in rs && PairOf(r) == PairOfRow(row))
        && row.cantidad == |Select(rs, PairOf, PairOfRow(row))|
  {
    var rs := ConsoleReadings(logSek, log, servicio, today);
    assert row in ServicioConsola(logSek, log, servicio, today) <==> row in multiset(ConsoleGroups(rs));
    ConsoleGroupsRows(rs, row);
  }

  // ---------------------------------------------------------------------------------
  // types_function

  function TiposOf(rows: seq<ConsoleRow>): (ts: seq<string>)
    ensures |ts| == |rows|
    ensures forall i :: 0 <= i < |rows| ==> ts[i] == rows[i].tipo
  {
    if rows == [] then []
    else
      var rest := TiposOf(rows[1..]);
      [rows[0].tipo] + rest
  }

  /** `types_function`: the reading types of the console, stripped, each once. */
  function TypesFunction(rows: seq<ConsoleRow>): (ts: seq<string>)
    ensures Distinct(ts)
  {
    StrippedDistinct(Dedup(TiposOf(rows)))
  }

  lemma TipoOccurs(rows: seq<ConsoleRow>, t: string)
    ensures t in TiposOf(rows) <==> exists row :: row in rows && row.tipo == t
  {
    var tipos := TiposOf(rows);
    if t in tipos {
      var i :| 0 <= i < |tipos| && tipos[i] == t;
      assert rows[i] in rows;
    }
    if exists row :: row in rows && row.tipo == t {
      var row :| row in rows && row.tipo == t;
      var i :| 0 <= i < |rows| && rows[i] == row;
      assert tipos[i] == t;
    }
  }

  /** A type is listed exactly when some console row has it, stripped. */
  lemma TypesFunctionExact(rows: seq<ConsoleRow>, e: string)
    ensures e in TypesFunction(rows) <==> exists row :: row in rows && Trim(row.tipo) == e
  {
    var tipos := TiposOf(rows);
    StrippedDistinctValues(Dedup(tipos), e);
    if e in TypesFunction(rows) {
      var l :| l in Dedup(tipos) && Trim(l) == e;
      DedupSameValues(tipos, l);
      TipoOccurs(rows, l);
    }
    if exists row :: row in rows && Trim(row.tipo) == e {
      var row :| row in rows && Trim(row.tipo) == e;
      TipoOccurs(rows, row.tipo);
      DedupSameValues(tipos, row.tipo);
    }
  }

  // ---------------------------------------------------------------------------------
  // pivot_table

  function ProyectosOf(rows: seq<ConsoleRow>): (ps: seq<string>)
    ensures |ps| == |rows|
    ensures forall i :: 0 <= i < |rows| ==> ps[i] == rows[i].proyecto
  {
    if rows == [] then []
    else
      var rest := ProyectosOf(rows[1..]);
      [rows[0].proyecto] + rest
  }

  /** The `cantidad` of the row for (p, c), or the fill value 0 when there is none. */
  function Lookup(rows: seq<ConsoleRow>, p: string, c: string): nat {
    if rows == [] then 0
    else if rows[0].proyecto == p && rows[0].tipo == c then rows[0].cantidad
    else Lookup(rows[1..], p, c)
  }

  /** With unique pairs the cell of a pair is the count of its row (the mean of one
      value), and it is 0 for a pair without a row. */
  lemma {:induction false} LookupCell(rows: seq<ConsoleRow>, p: string, c: string)
    requires UniquePairs(rows)
    ensures forall row :: row in rows && PairOfRow(row) == (p, c) ==> Lookup(rows, p, c) == row.cantidad
    ensures (forall row :: row in rows ==> PairOfRow(row) != (p, c)) ==> Lookup(rows, p, c) == 0
  {
    if rows != [] {
      assert UniquePairs(rows[1..]) by {
        forall i, j | 0 <= i < j < |rows[1..]| ensures PairOfRow(rows[1..][i]) != PairOfRow(rows[1..][j]) {
          assert rows[1..][i] == rows[i + 1] && rows[1..][j] == rows[j + 1];
        }
      }
      LookupCell(rows[1..], p, c);
      if PairOfRow(rows[0]) == (p, c) {
        forall row | row in rows && PairOfRow(row) == (p, c) ensures row == rows[0] {
          var k :| 0 <= k < |rows| && rows[k] == row;
          if k > 0 {
            assert PairOfRow(rows[0]) != PairOfRow(rows[k]);
          }
        }
      } else {
        forall row | row in rows && PairOfRow(row) == (p, c) ensures row in rows[1..] {
          var k :| 0 <= k < |rows| && rows[k] == row;
          assert k > 0 && rows[1..][k - 1] == row;
        }
      }
    }
  }

  /** A row of the table: the project and one value per column. */
  datatype Row = Row(proyecto: string, values: seq<int>)

  function PivotRow(rows: seq<ConsoleRow>, p: string, cols: seq<string>): (r: Row)
    ensures r.proyecto == p && |r.values| == |cols|
    ensures forall j :: 0 <= j < |cols| ==> r.values[j] == Lookup(rows, p, cols[j])
    decreases |cols|
  {
    if cols == [] then Row(p, [])
    else
      var rest := PivotRow(rows, p, cols[1..]);
      Row(p, [Lookup(rows, p, cols[0]) as int] + rest.values)
  }

  function PivotRows(rows: seq<ConsoleRow>, ps: seq<string>, cols: seq<string>): (rs: seq<Row>)
    ensures |rs| == |ps|
    ensures forall i :: 0 <= i < |ps| ==> rs[i] == PivotRow(rows, ps[i], cols)
  {
    if ps == [] then []
    else
      var rest := PivotRows(rows, ps[1..], cols);
      [PivotRow(rows, ps[0], cols)] + rest
  }

  /** The pivot's columns: the distinct `tipo_lectura` values. */
  function PivotColumns(rows: seq<ConsoleRow>): (cols: seq<string>)
    ensures Distinct(cols)
    ensures forall c :: c in cols <==> exists row :: row in rows && row.tipo == c
  {
    var tipos := TiposOf(rows);
    assert forall c :: c in Dedup(tipos) <==> exists row :: row in rows && row.tipo == c by {
      forall c ensures c in Dedup(tipos) <==> exists row :: row in rows && row.tipo == c {
        DedupSameValues(tipos, c);
        TipoOccurs(rows, c);
      }
    }
    Dedup(tipos)
  }

  /** The pivot's index after `reset_index()`: the distinct projects. */
  function PivotProjects(rows: seq<ConsoleRow>): (ps: seq<string>)
    ensures Distinct(ps)
    ensures forall p :: p in ps <==> exists row :: row in rows && row.proyecto == p
  {
    var proyectos := ProyectosOf(rows);
    assert forall p :: p in Dedup(proyectos) <==> exists row :: row in rows && row.proyecto == p by {
      forall p ensures p in Dedup(proyectos) <==> exists row :: row in rows && row.proyecto == p {
        DedupSameValues(proyectos, p);
        ProyectoOccurs(rows, p);
      }
    }
    Dedup(proyectos)
  }

  lemma ProyectoOccurs(rows: seq<ConsoleRow>, p: string)
    ensures p in ProyectosOf(rows) <==> exists row :: row in rows && row.proyecto == p
  {
    var ps := ProyectosOf(rows);
    if p in ps {
      var i :| 0 <= i < |ps| && ps[i] == p;
      assert rows[i] in rows;
    }
    if exists row :: row in rows && row.proyecto == p {
      var row :| row in rows && row.proyecto == p;
      var i :| 0 <= i < |rows| && rows[i] == row;
      assert ps[i] == p;
    }
  }

  /** `pivot_table(values='cantidad', index='proyecto', columns='tipo_lectura',
      fill_value=0)`: one row per distinct project and one column per distinct type;
      the cell of a pair that has a console row holds its count, every other cell is 0. */
  lemma PivotShape(console: seq<ConsoleRow>, i: nat, j: nat)
    requires UniquePairs(console)
    requires i < |PivotProjects(console)| && j < |PivotColumns(console)|
    ensures var ps, cols := PivotProjects(console), PivotColumns(console);
      var cell := PivotRows(console, ps, cols)[i].values[j];
      (forall row :: row in console && PairOfRow(row) == (ps[i], cols[j]) ==> cell == row.cantidad)
      && ((forall row :: row in console ==> PairOfRow(row) != (ps[i], cols[j])) ==> cell == 0)
  {
    var ps, cols := PivotProjects(console), PivotColumns(console);
    LookupCell(console, ps[i], cols[j]);
  }

  /** Every project and every type of the console has its row and its column. */
  lemma PivotCovers(console: seq<ConsoleRow>, row: ConsoleRow)
    requires row in console
    ensures row.proyecto in PivotProjects(console) && row.tipo in PivotColumns(console)
  {
    var k :| 0 <= k < |console| && console[k] == row;
    assert ProyectosOf(console)[k] == row.proyecto;
    assert TiposOf(console)[k] == row.tipo;
  }

  /** Sorting the console rows keeps the pairs unique. */
  lemma UniquePairsPermuted(a: seq<ConsoleRow>, b: seq<ConsoleRow>)
    requires UniquePairs(a)
    requires multiset(a) == multiset(b)
    ensures UniquePairs(b)
  {
    KeysDistinctPermuted(a, b, PairOfRow);
  }

  /** Every cell of the service's pivot table counts the readings of the day with that
      trimmed project and trimmed type. */
  lemma CellCount(logSek: seq<Reading>, log: seq<Reading>, servicio: string, today: int, p: string, c: string)
    ensures Lookup(ServicioConsola(logSek, log, servicio, today), p, c)
      == |Select(ConsoleReadings(logSek, log, servicio, today), PairOf, (p, c))|
  {
    var rs := ConsoleReadings(logSek, log, servicio, today);
    var console := ServicioConsola(logSek, log, servicio, today);
    UniquePairsPermuted(ConsoleGroups(rs), console);
    LookupCell(console, p, c);
    var n := |Select(rs, PairOf, (p, c))|;
    ServicioConsolaRows(logSek, log, servicio, today, ConsoleRow(p, c, n));
    if !exists r :: r in rs && PairOf(r) == (p, c) {
      forall row | row in console ensures PairOfRow(row) != (p, c) {
        ServicioConsolaRows(logSek, log, servicio, today, row);
      }
      SelectNone(rs, PairOf, (p, c));
    }
  }

  /** The (project, column) pairs of the positions `idx`. */
  function OpenPairs(p: string, cols: seq<string>, idx: seq<nat>): (ks: seq<(string, string)>)
    requires forall a :: 0 <= a < |idx| ==> idx[a] < |cols|
    ensures |ks| == |idx|
    ensures forall a :: 0 <= a < |idx| ==> ks[a] == (p, cols[idx[a]])
  {
    if idx == [] then []
    else
      var rest := OpenPairs(p, cols, idx[1..]);
      [(p, cols[idx[0]])] + rest
  }

  /** A sum over columns whose cells count groups is the sum of those group sizes. */
  lemma {:induction false} OpenSumGroups(rs: seq<Reading>, p: string, cols: seq<string>, values: seq<int>, idx: seq<nat>)
    requires forall a :: 0 <= a < |idx| ==> idx[a] < |cols| && idx[a] < |values|
    requires forall a :: 0 <= a < |idx| ==> values[idx[a]] == |Select(rs, PairOf, (p, cols[idx[a]]))|
    ensures OpenSum(values, idx) == SumNat(GroupSizes(rs, PairOf, OpenPairs(p, cols, idx)))
  {
    if idx != [] {
      OpenSumGroups(rs, p, cols, values, idx[1..]);
      var ks := OpenPairs(p, cols, idx);
      assert ks[1..] == OpenPairs(p, cols, idx[1..]);
      assert GroupSizes(rs, PairOf, ks)[1..] == GroupSizes(rs, PairOf, ks[1..]);
    }
  }

  /** A reading of the day is counted in the open total of project `p`. */
  function OpenOf(p: string): Reading -> bool {
    (r: Reading) => Trim(r.alias) == p && Contains(Trim(r.kind), "open")
  }

  /** A reading whose pair is one of project `p`'s open columns is of `p` and has an
      open type. */
  lemma OpenPairIsOpen(p: string, cols: seq<string>, r: Reading)
    requires InKeys(PairOf, OpenPairs(p, cols, OpenColumns(cols)))(r)
    ensures OpenOf(p)(r)
  {
    var idx := OpenColumns(cols);
    var ks := OpenPairs(p, cols, idx);
    var a :| 0 <= a < |ks| && ks[a] == PairOf(r);
    assert idx[a] in idx;
    assert Contains(cols[idx[a]], "open");
    assert (Trim(r.alias), Trim(r.kind)) == PairOf(r) == (p, cols[idx[a]]);
  }

  /** A reading of the day of project `p` with an open type has one of `p`'s open
      columns as its pair. */
  lemma OpenHasPair(logSek: seq<Reading>, log: seq<Reading>, servicio: string, today: int, p: string, r: Reading)
    requires r in ConsoleReadings(logSek, log, servicio, today)
    requires OpenOf(p)(r)
    ensures var cols := PivotColumns(ServicioConsola(logSek, log, servicio, today));
      InKeys(PairOf, OpenPairs(p, cols, OpenColumns(cols)))(r)
  {
    var rs := ConsoleReadings(logSek, log, servicio, today);
    var console := ServicioConsola(logSek, log, servicio, today);
    var cols := PivotColumns(console);
    var row := ConsoleRow(p, Trim(r.kind), |Select(rs, PairOf, PairOf(r))|);
    ServicioConsolaRows(logSek, log, servicio, today, row);
    PivotCovers(console, row);
    OpenPosition(p, cols, r);
  }

  lemma OpenPosition(p: string, cols: seq<string>, r: Reading)
    requires Trim(r.kind) in cols
    requires OpenOf(p)(r)
    ensures InKeys(PairOf, OpenPairs(p, cols, OpenColumns(cols)))(r)
  {
    var idx := OpenColumns(cols);
    var ks := OpenPairs(p, cols, idx);
    var k :| 0 <= k < |cols| && cols[k] == Trim(r.kind);
    assert k in idx;
    var a :| 0 <= a < |idx| && idx[a] == k;
    assert ks[a] == PairOf(r);
  }

  /** The open total of a project in the service's pivot table is the number of that
      project's readings of the day whose trimmed type contains `open`. */
  lemma OpenTotalCounts(logSek: seq<Reading>, log: seq<Reading>, servicio: string, today: int, i: nat)
    requires i < |PivotProjects(ServicioConsola(logSek, log, servicio, today))|
    ensures var console := ServicioConsola(logSek, log, servicio, today);
      var cols := PivotColumns(console);
      var ps := PivotProjects(console);
      OpenSum(PivotRows(console, ps, cols)[i].values, OpenColumns(cols))
        == |Where(ConsoleReadings(logSek, log, servicio, today), OpenOf(ps[i]))|
  {
    var rs := ConsoleReadings(logSek, log, servicio, today);
    var console := ServicioConsola(logSek, log, servicio, today);
    var cols := PivotColumns(console);
    var ps := PivotProjects(console);
    var p := ps[i];
    var values := PivotRows(console, ps, cols)[i].values;
    var idx := OpenColumns(cols);
    forall a | 0 <= a < |idx| ensures values[idx[a]] == |Select(rs, PairOf, (p, cols[idx[a]]))| {
      CellCount(logSek, log, servicio, today, p, cols[idx[a]]);
    }
    OpenSumGroups(rs, p, cols, values, idx);
    var ks := OpenPairs(p, cols, idx);
    assert Distinct(ks) by {
      forall a, b | 0 <= a < b < |ks| ensures ks[a] != ks[b] {
        assert idx[a] < idx[b];
      }
    }
    GroupSizesSum(rs, PairOf, ks);
    forall r | r in rs ensures InKeys(PairOf, ks)(r) == OpenOf(p)(r) {
      if InKeys(PairOf, ks)(r) {
        OpenPairIsOpen(p, cols, r);
      }
      if OpenOf(p)(r) {
        OpenHasPair(logSek, log, servicio, today, p, r);
      }
    }
    WhereSame(rs, InKeys(PairOf, ks), OpenOf(p));
  }

  // ---------------------------------------------------------------------------------
  // top_n_proyectos_con_lectura_open

  /** The column `top_n_proyectos_con_lectura_open` adds. */
  const TotalColumn: string := "total_open_lectura"

  /** The positions `j..` of `cols` whose name contains `open`, in increasing order. */
  function OpenFrom(cols: seq<string>, j: nat): (idx: seq<nat>)
    requires j <= |cols|
    ensures forall k :: k in idx <==> j <= k < |cols| && Contains(cols[k], "open")
    ensures forall a, b :: 0 <= a < b < |idx| ==> idx[a] < idx[b]
    ensures forall a :: 0 <= a < |idx| ==> j <= idx[a] < |cols|
    decreases |cols| - j
  {
    if j == |cols| then []
    else
      var rest := OpenFrom(cols, j + 1);
      if Contains(cols[j], "open") then [j] + rest else rest
  }

  /** `open_columns`: the columns whose name contains `open` (case-sensitive). */
  function OpenColumns(cols: seq<string>): (idx: seq<nat>)
    ensures forall k :: k in idx <==> 0 <= k < |cols| && Contains(cols[k], "open")
    ensures forall a, b :: 0 <= a < b < |idx| ==> idx[a] < idx[b]
    ensures forall a :: 0 <= a < |idx| ==> idx[a] < |cols|
  {
    OpenFrom(cols, 0)
  }

  /** The sum of the values at positions `idx`. */
  function OpenSum(values: seq<int>, idx: seq<nat>): int
    requires forall a :: 0 <= a < |idx| ==> idx[a] < |values|
  {
    if idx == [] then 0
    else
      var rest := OpenSum(values, idx[1..]);
      values[idx[0]] + rest
  }

  /** The columns after the assignment: unchanged if the total column exists (it is
      overwritten), otherwise with the total column appended. */
  function WithTotalColumn(cols: seq<string>): (r: seq<string>)
    ensures TotalColumn in r
    ensures cols <= r
    ensures |r| == |cols| + (if TotalColumn in cols then 0 else 1)
  {
    if TotalColumn in cols then cols else cols + [TotalColumn]
  }

  /** The position the total is written to. */
  function TotalIndex(cols: seq<string>): (t: nat)
    ensures t <= |cols|
    ensures t < |cols| ==> cols[t] == TotalColumn
    ensures t == |cols| ==> TotalColumn !in cols
    decreases |cols|
  {
    if cols == [] then 0
    else if cols[0] == TotalColumn then 0
    else 1 + TotalIndex(cols[1..])
  }

  /** The values of a row with `v` written at position `t` (appended when `t` is the
      length). */
  function SetCell(values: seq<int>, t: nat, v: int): (r: seq<int>)
    requires t <= |values|
    ensures |r| == if t < |values| then |values| else |values| + 1
    ensures r[t] == v
    ensures forall j :: 0 <= j < |values| && j != t ==> r[j] == values[j]
  {
    if t < |values| then values[t := v] else values + [v]
  }

  function WithTotals(rows: seq<Row>, idx: seq<nat>, t: nat, width: nat): (r: seq<Row>)
    requires t <= width
    requires forall i :: 0 <= i < |rows| ==> |rows[i].values| == width
    requires forall a :: 0 <= a < |idx| ==> idx[a] < width
    ensures |r| == |rows|
    ensures forall i :: 0 <= i < |rows| ==>
      r[i] == Row(rows[i].proyecto, SetCell(rows[i].values, t, OpenSum(rows[i].values, idx)))
  {
    if rows == [] then []
    else
      var rest := WithTotals(rows[1..], idx, t, width);
      [Row(rows[0].proyecto, SetCell(rows[0].values, t, OpenSum(rows[0].values, idx)))] + rest
  }

  /** The sort key: the value in the total column (0 for a malformed row). */
  function TotalKey(t: nat): Row -> int {
    (r: Row) => if t < |r.values| then r.values[t] else 0
  }

  /** The ranking: the rows by total, descending (equal totals in no particular order),
      then `head(n)`. */
  function TopRows(rows: seq<Row>, t: nat, n: int): (top: seq<Row>)
    ensures |top| == HeadLength(|rows|, n)
  {
    Head(SortDesc(rows, TotalKey(t)), n)
  }

  /** The ranking keeps rows whole, orders them by total, and keeps no row whose total
      is below that of a row it drops. */
  lemma TopRowsRank(rows: seq<Row>, t: nat, n: int)
    ensures var top := TopRows(rows, t, n);
      SortedDesc(top, TotalKey(t))
      && multiset(top) <= multiset(rows)
      && forall x, y :: x in top && y in multiset(rows) - multiset(top) ==> TotalKey(t)(x) >= TotalKey(t)(y)
  {
    var s := SortDesc(rows, TotalKey(t));
    var k := HeadLength(|rows|, n);
    PrefixDominates(s, TotalKey(t), k);
    DroppedRankLower(s, TotalKey(t), k);
  }

  /** `n_top`: the number of projects shown. */
  const TopCount: int := 20

  /** With `n_top = 20` the ranking shows twenty projects, or all of them when there are
      fewer. */
  lemma TopTwenty(rows: seq<Row>, t: nat)
    ensures |TopRows(rows, t, TopCount)| == if |rows| < 20 then |rows| else 20
  {
  }

  /** A pandas data frame with the project column and one value column per name in
      `columns`; `rows[i].values[j]` is the value of column `columns[j]`. */
  class Frame {
    var columns: seq<string>
    var rows: seq<Row>

    ghost predicate Valid()
      reads this
    {
      forall i :: 0 <= i < |rows| ==> |rows[i].values| == |columns|
    }

    /** The reset pivot table of the console rows. */
    constructor Pivot(console: seq<ConsoleRow>)
      ensures Valid()
      ensures columns == PivotColumns(console)
      ensures rows == PivotRows(console, PivotProjects(console), columns)
    {
      columns := PivotColumns(console);
      rows := PivotRows(console, PivotProjects(console), PivotColumns(console));
    }

    /** `df['total_open_lectura'] = df[open_columns].sum(axis=1)`: every row gets the sum
        of its values in the columns whose name contains `open`, in the total column
        (overwritten if present, appended otherwise); nothing else changes. */
    method AddOpenTotals()
      modifies this
      requires Valid()
      ensures Valid()
      ensures columns == WithTotalColumn(old(columns))
      ensures TotalIndex(columns) == TotalIndex(old(columns))
      ensures |rows| == |old(rows)|
      ensures forall i :: 0 <= i < |rows| ==> rows[i].proyecto == old(rows[i].proyecto)
      ensures forall i, j :: 0 <= i < |rows| && 0 <= j < |old(columns)| && j != TotalIndex(old(columns)) ==>
                rows[i].values[j] == old(rows[i].values[j])
      ensures forall i :: 0 <= i < |rows| ==>
                rows[i].values[TotalIndex(columns)] == OpenSum(old(rows[i].values), OpenColumns(old(columns)))
    {
      var t := TotalIndex(columns);
      rows := WithTotals(rows, OpenColumns(columns), t, |columns|);
      if t == |columns| {
        assert TotalIndex(columns + [TotalColumn]) == t by {
          TotalIndexAppend(columns);
        }
      }
      columns := WithTotalColumn(columns);
    }
  }

  lemma {:induction false} TotalIndexAppend(cols: seq<string>)
    requires TotalColumn !in cols
    ensures TotalIndex(cols + [TotalColumn]) == |cols|
  {
    if cols != [] {
      assert (cols + [TotalColumn])[1..] == cols[1..] + [TotalColumn];
      TotalIndexAppend(cols[1..]);
    }
  }

  /** `top_n_proyectos_con_lectura_open(df, n)`: adds the total column to `df` in place
      and returns the `n` rows with the largest totals. */
  method TopOpenProjects(df: Frame, n: int) returns (top: seq<Row>)
    modifies df
    requires df.Valid()
    ensures df.Valid()
    ensures df.columns == WithTotalColumn(old(df.columns))
    ensures TotalIndex(df.columns) == TotalIndex(old(df.columns))
    ensures |df.rows| == |old(df.rows)|
    ensures forall i :: 0 <= i < |df.rows| ==> df.rows[i].proyecto == old(df.rows[i].proyecto)
    ensures forall i, j :: 0 <= i < |df.rows| && 0 <= j < |old(df.columns)| && j != TotalIndex(old(df.columns)) ==>
              df.rows[i].values[j] == old(df.rows[i].values[j])
    ensures forall i :: 0 <= i < |df.rows| ==>
              df.rows[i].values[TotalIndex(df.columns)] == OpenSum(old(df.rows[i].values), OpenColumns(old(df.columns)))
    ensures top == TopRows(df.rows, TotalIndex(df.columns), n)
  {
    df.AddOpenTotals();
    top := TopRows(df.rows, TotalIndex(df.columns), n);
  }
}
