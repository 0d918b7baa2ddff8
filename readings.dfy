/** The reading log and the aggregate every error query computes over it.

    A reading is one row of the access log (`log` or `log_sek`) joined with the device
    table `raspis`: the device's project alias, the reading type `function_` and the
    timestamp. The queries count readings per group with `COUNT(function_)` and
    `SUM(CASE WHEN ... THEN 1 ELSE 0 END)`; `Tally` is that aggregate as a fold. */
module Readings {
  import opened Seqs

  /** A log row: project alias, reading type (never null) and time in seconds since the
      Unix epoch, UTC. */
  datatype Reading = Reading(alias: string, kind: string, at: int)

  /** The reading type of a successful operation. */
  const Open: string := "open"
  /** The reading type counted as `desconexion`. */
  const Disconnect: string := "open_error_500"
  /** The reading type counted as `errores_de_presencia`. */
  const PresenceError: string := "open_error_501"

  const SecondsPerHour: int := 3600
  const SecondsPerDay: int := 86400

  /** `EXTRACT(DATE FROM ts)`: the UTC calendar day, as days since 1970-01-01. */
  function Day(t: int): int {
    t / SecondsPerDay
  }

  /** `EXTRACT(HOUR FROM ts)`: the UTC hour of the day. */
  function HourOf(t: int): (h: nat)
    ensures h < 24
  {
    (t % SecondsPerDay) / SecondsPerHour
  }

  /** The counters of one output row of the error queries:
      `lecturas` = COUNT(function_), `correctas` = readings equal to 'open',
      `errores` = readings different from 'open', `desconexion` = 'open_error_500',
      `presencia` = 'open_error_501', `otros` = any other type. */
  datatype Counts = Counts(lecturas: nat, correctas: nat, errores: nat,
                           desconexion: nat, presencia: nat, otros: nat)

  function Zero(): Counts { Counts(0, 0, 0, 0, 0, 0) }

  /** What a single reading of type `kind` adds to each counter. */
  function One(kind: string): (c: Counts)
    ensures c.lecturas == 1 && Partitioned(c)
  {
    if kind == Open then Counts(1, 1, 0, 0, 0, 0)
    else if kind == Disconnect then Counts(1, 0, 1, 1, 0, 0)
    else if kind == PresenceError then Counts(1, 0, 1, 0, 1, 0)
    else Counts(1, 0, 1, 0, 0, 1)
  }

  /** The `CASE WHEN` columns of one reading: it is correct exactly when its type is
      'open', an error otherwise, and each error is a disconnect ('open_error_500'), a
      presence error ('open_error_501') or other, by its exact type. */
  lemma OneClassifies(kind: string)
    ensures One(kind).correctas == (if kind == Open then 1 else 0)
    ensures One(kind).errores == (if kind != Open then 1 else 0)
    ensures One(kind).desconexion == (if kind == Disconnect then 1 else 0)
    ensures One(kind).presencia == (if kind == PresenceError then 1 else 0)
    ensures One(kind).otros == (if kind !in {Open, Disconnect, PresenceError} then 1 else 0)
  {
  }

  function Plus(a: Counts, b: Counts): Counts {
    Counts(a.lecturas + b.lecturas, a.correctas + b.correctas, a.errores + b.errores,
           a.desconexion + b.desconexion, a.presencia + b.presencia, a.otros + b.otros)
  }

  /** The row invariants of every error query: correct and erroneous readings partition
      the readings, and the three error kinds partition the errors. */
  ghost predicate Partitioned(c: Counts) {
    c.correctas + c.errores == c.lecturas && c.desconexion + c.presencia + c.otros == c.errores
  }

  /** `porcentaje_error`: `lecturas_error * 100 / lecturas`, computed in real arithmetic
      as `/` does in BigQuery. Rows exist only for groups with readings. */
  function ErrorPercent(c: Counts): real
    requires c.lecturas > 0
  {
    (c.errores * 100) as real / c.lecturas as real
  }

  /** The percentage of a consistent aggregate lies between 0 and 100. */
  lemma PercentBounds(c: Counts)
    requires c.lecturas > 0 && Partitioned(c)
    ensures 0.0 <= ErrorPercent(c) <= 100.0
  {
    PercentAbove(c, 100);
  }

  /** Comparing the percentage with a whole threshold `k` is comparing integers:
      `errores * 100 > k * lecturas`. */
  lemma PercentAbove(c: Counts, k: nat)
    requires c.lecturas > 0
    ensures ErrorPercent(c) > k as real <==> c.errores * 100 > k * c.lecturas
  {
    var p := ErrorPercent(c);
    assert p * c.lecturas as real == (c.errores * 100) as real;
  }

  /** The aggregate of a group of readings. Every reading is counted once, as correct
      or as an error, and every error once, as a disconnect, a presence error or other. */
  function Tally(rs: seq<Reading>): (c: Counts)
    ensures c.lecturas == |rs|
    ensures Partitioned(c)
  {
    if rs == [] then Zero()
    else
      var rest := Tally(rs[1..]);
      Plus(One(rs[0].kind), rest)
  }

  lemma PlusZero(a: Counts)
    ensures Plus(Zero(), a) == a && Plus(a, Zero()) == a
  {
  }

  lemma PlusAssoc(a: Counts, b: Counts, c: Counts)
    ensures Plus(Plus(a, b), c) == Plus(a, Plus(b, c))
  {
  }

  lemma PlusSwap(a: Counts, b: Counts, c: Counts)
    ensures Plus(a, Plus(b, c)) == Plus(b, Plus(a, c))
  {
  }

  /** Aggregating two groups together is adding their aggregates. */
  lemma {:induction false} TallyAppend(a: seq<Reading>, b: seq<Reading>)
    ensures Tally(a + b) == Plus(Tally(a), Tally(b))
  {
    if a == [] {
      assert a + b == b;
      PlusZero(Tally(b));
    } else {
      assert (a + b)[0] == a[0];
      assert (a + b)[1..] == a[1..] + b;
      TallyAppend(a[1..], b);
      PlusAssoc(One(a[0].kind), Tally(a[1..]), Tally(b));
    }
  }

  /** The sum of a column of counters. */
  function SumCounts(cs: seq<Counts>): Counts {
    if cs == [] then Zero()
    else
      var rest := SumCounts(cs[1..]);
      Plus(cs[0], rest)
  }

  /** A `WHERE` clause: the readings satisfying `p`, in log order. */
  function Where(rs: seq<Reading>, p: Reading -> bool): (s: seq<Reading>)
    ensures |s| <= |rs|
    ensures forall r :: r in s <==> r in rs && p(r)
  {
    if rs == [] then []
    else
      assert forall r :: r in rs <==> r == rs[0] || r in rs[1..] by {
        assert rs == [rs[0]] + rs[1..];
      }
      (if p(rs[0]) then [rs[0]] else []) + Where(rs[1..], p)
  }

  /** One group of a `GROUP BY key`: the readings whose key is `k`. */
  function Select<K(==)>(rs: seq<Reading>, key: Reading -> K, k: K): (s: seq<Reading>)
    ensures |s| <= |rs|
    ensures forall r :: r in s <==> r in rs && key(r) == k
  {
    if rs == [] then []
    else
      assert forall r :: r in rs <==> r == rs[0] || r in rs[1..] by {
        assert rs == [rs[0]] + rs[1..];
      }
      (if key(rs[0]) == k then [rs[0]] else []) + Select(rs[1..], key, k)
  }

  /** `WHERE` keeps every copy of a reading that passes and drops every copy of one that
      does not: a `COUNT` over it counts duplicates. */
  lemma {:induction false} WhereCounts(rs: seq<Reading>, p: Reading -> bool)
    ensures forall r :: multiset(Where(rs, p))[r] == if p(r) then multiset(rs)[r] else 0
  {
    if rs != [] {
      WhereCounts(rs[1..], p);
      assert rs == [rs[0]] + rs[1..];
    }
  }

  /** A group holds every copy of the readings with its key, and nothing else. */
  lemma {:induction false} SelectCounts<K>(rs: seq<Reading>, key: Reading -> K, k: K)
    ensures forall r :: multiset(Select(rs, key, k))[r] == if key(r) == k then multiset(rs)[r] else 0
  {
    if rs != [] {
      SelectCounts(rs[1..], key, k);
      assert rs == [rs[0]] + rs[1..];
    }
  }

  /** The key of every reading, in log order (the input of a `GROUP BY key`). */
  function KeysOf<K>(rs: seq<Reading>, key: Reading -> K): (ks: seq<K>)
    ensures |ks| == |rs|
    ensures forall i :: 0 <= i < |rs| ==> ks[i] == key(rs[i])
  {
    if rs == [] then [] else [key(rs[0])] + KeysOf(rs[1..], key)
  }

  /** A key is among the keys exactly when some reading has it. */
  lemma KeyOccurs<K>(rs: seq<Reading>, key: Reading -> K, k: K)
    ensures k in KeysOf(rs, key) <==> exists r :: r in rs && key(r) == k
  {
    var ks := KeysOf(rs, key);
    if k in ks {
      var i :| 0 <= i < |ks| && ks[i] == k;
      assert rs[i] in rs;
    }
    if exists r :: r in rs && key(r) == k {
      var r :| r in rs && key(r) == k;
      var i :| 0 <= i < |rs| && rs[i] == r;
      assert ks[i] == k;
    }
  }

  /** The aggregates of the groups named by `ks`, one per key. */
  function GroupTallies<K(==)>(rs: seq<Reading>, key: Reading -> K, ks: seq<K>): (cs: seq<Counts>)
    ensures |cs| == |ks|
  {
    if ks == [] then []
    else
      var rest := GroupTallies(rs, key, ks[1..]);
      [Tally(Select(rs, key, ks[0]))] + rest
  }

  /** The aggregate at position `i` is the aggregate of the group of `ks[i]`. */
  lemma {:induction false} GroupTalliesAt<K>(rs: seq<Reading>, key: Reading -> K, ks: seq<K>, i: nat)
    requires i < |ks|
    ensures GroupTallies(rs, key, ks)[i] == Tally(Select(rs, key, ks[i]))
  {
    var cs := GroupTallies(rs, key, ks);
    var rest := GroupTallies(rs, key, ks[1..]);
    assert cs == [Tally(Select(rs, key, ks[0]))] + rest;
    if i > 0 {
      GroupTalliesAt(rs, key, ks[1..], i - 1);
      assert cs[i] == rest[i - 1];
    }
  }

  /** Unfolds `GroupTallies` and `SumCounts` once. */
  lemma GroupSumCons<K>(rs: seq<Reading>, key: Reading -> K, ks: seq<K>)
    requires ks != []
    ensures SumCounts(GroupTallies(rs, key, ks))
         == Plus(Tally(Select(rs, key, ks[0])), SumCounts(GroupTallies(rs, key, ks[1..])))
  {
    var g := GroupTallies(rs, key, ks);
    assert g[0] == Tally(Select(rs, key, ks[0]));
    assert g[1..] == GroupTallies(rs, key, ks[1..]);
  }

  lemma {:induction false} NoGroupsOfNothing<K>(key: Reading -> K, ks: seq<K>)
    ensures SumCounts(GroupTallies([], key, ks)) == Zero()
  {
    if ks != [] {
      NoGroupsOfNothing(key, ks[1..]);
      GroupSumCons([], key, ks);
      assert Tally(Select([], key, ks[0])) == Zero();
      PlusZero(Zero());
    }
  }

  /** A reading whose key is not among `ks` contributes to none of their groups. */
  lemma {:induction false} GroupsSkipOutsider<K>(rs: seq<Reading>, key: Reading -> K, ks: seq<K>)
    requires rs != [] && key(rs[0]) !in ks
    ensures GroupTallies(rs, key, ks) == GroupTallies(rs[1..], key, ks)
  {
    if ks != [] {
      GroupsSkipOutsider(rs, key, ks[1..]);
      assert Select(rs, key, ks[0]) == Select(rs[1..], key, ks[0]);
      var rest := GroupTallies(rs, key, ks[1..]);
      assert GroupTallies(rs, key, ks) == [Tally(Select(rs, key, ks[0]))] + rest;
      assert GroupTallies(rs[1..], key, ks) == [Tally(Select(rs[1..], key, ks[0]))] + rest;
    }
  }

  /** The first reading contributes exactly once to the groups of distinct keys containing its key. */
  lemma {:induction false} GroupsPeel<K>(rs: seq<Reading>, key: Reading -> K, ks: seq<K>)
    requires rs != [] && Distinct(ks) && key(rs[0]) in ks
    ensures SumCounts(GroupTallies(rs, key, ks))
         == Plus(One(rs[0].kind), SumCounts(GroupTallies(rs[1..], key, ks)))
    decreases |ks|, 1
  {
    GroupSumCons(rs, key, ks);
    GroupSumCons(rs[1..], key, ks);
    if key(rs[0]) == ks[0] {
      PeelInFirstGroup(rs, key, ks);
    } else {
      PeelInLaterGroup(rs, key, ks);
    }
  }

  lemma {:induction false} PeelInLaterGroup<K>(rs: seq<Reading>, key: Reading -> K, ks: seq<K>)
    requires rs != [] && ks != [] && Distinct(ks) && key(rs[0]) in ks[1..]
    ensures Plus(Tally(Select(rs, key, ks[0])), SumCounts(GroupTallies(rs, key, ks[1..])))
         == Plus(One(rs[0].kind), Plus(Tally(Select(rs[1..], key, ks[0])), SumCounts(GroupTallies(rs[1..], key, ks[1..]))))
    decreases |ks|, 0
  {
    assert Distinct(ks[1..]);
    GroupsPeel(rs, key, ks[1..]);
    assert key(rs[0]) != ks[0];
    assert Select(rs, key, ks[0]) == Select(rs[1..], key, ks[0]);
    PlusSwap(Tally(Select(rs[1..], key, ks[0])), One(rs[0].kind),
             SumCounts(GroupTallies(rs[1..], key, ks[1..])));
  }

  lemma PeelInFirstGroup<K>(rs: seq<Reading>, key: Reading -> K, ks: seq<K>)
    requires rs != [] && ks != [] && Distinct(ks) && key(rs[0]) == ks[0]
    ensures Plus(Tally(Select(rs, key, ks[0])), SumCounts(GroupTallies(rs, key, ks[1..])))
         == Plus(One(rs[0].kind), Plus(Tally(Select(rs[1..], key, ks[0])), SumCounts(GroupTallies(rs[1..], key, ks[1..]))))
  {
    var k := ks[0];
    forall j | 0 <= j < |ks[1..]| ensures ks[1..][j] != k {
      assert ks[1..][j] == ks[j + 1];
    }
    GroupsSkipOutsider(rs, key, ks[1..]);
    assert Select(rs, key, k) == [rs[0]] + Select(rs[1..], key, k);
    var here := Tally(Select(rs[1..], key, k));
    assert Tally(Select(rs, key, k)) == Plus(One(rs[0].kind), here);
    PlusAssoc(One(rs[0].kind), here, SumCounts(GroupTallies(rs[1..], key, ks[1..])));
  }

  /** GROUP BY loses and duplicates nothing: over distinct keys covering every reading,
      the group aggregates add up to the aggregate of all readings. */
  lemma {:induction false} TallyPartition<K>(rs: seq<Reading>, key: Reading -> K, ks: seq<K>)
    requires Distinct(ks)
    requires forall r :: r in rs ==> key(r) in ks
    ensures SumCounts(GroupTallies(rs, key, ks)) == Tally(rs)
  {
    if rs == [] {
      NoGroupsOfNothing(key, ks);
    } else {
      TallyPartition(rs[1..], key, ks);
      GroupsPeel(rs, key, ks);
    }
  }

  /** Key functions of the `GROUP BY` clauses over the log. */
  function KindOf(r: Reading): string { r.kind }
  function AliasOf(r: Reading): string { r.alias }

  /** `COUNT(function_)` of each group named by `ks`. */
  function GroupSizes<K(==)>(rs: seq<Reading>, key: Reading -> K, ks: seq<K>): (ns: seq<nat>)
    ensures |ns| == |ks|
    ensures forall i :: 0 <= i < |ks| ==> ns[i] == |Select(rs, key, ks[i])|
  {
    if ks == [] then []
    else
      var rest := GroupSizes(rs, key, ks[1..]);
      [|Select(rs, key, ks[0])|] + rest
  }

  function SumNat(ns: seq<nat>): nat {
    if ns == [] then 0
    else
      var rest := SumNat(ns[1..]);
      ns[0] + rest
  }

  lemma {:induction false} SizesAreLecturas<K>(rs: seq<Reading>, key: Reading -> K, ks: seq<K>)
    ensures SumNat(GroupSizes(rs, key, ks)) == SumCounts(GroupTallies(rs, key, ks)).lecturas
  {
    if ks != [] {
      SizesAreLecturas(rs, key, ks[1..]);
      GroupSumCons(rs, key, ks);
      var ns := GroupSizes(rs, key, ks);
      assert ns[1..] == GroupSizes(rs, key, ks[1..]);
    }
  }

  /** Counting per group loses and duplicates no reading: over distinct keys covering
      every reading, the group counts add up to the number of readings. */
  lemma GroupSizesPartition<K>(rs: seq<Reading>, key: Reading -> K, ks: seq<K>)
    requires Distinct(ks)
    requires forall r :: r in rs ==> key(r) in ks
    ensures SumNat(GroupSizes(rs, key, ks)) == |rs|
  {
    TallyPartition(rs, key, ks);
    SizesAreLecturas(rs, key, ks);
  }

  /** Two filters that agree on every reading select the same readings. */
  lemma {:induction false} WhereSame(rs: seq<Reading>, p: Reading -> bool, q: Reading -> bool)
    requires forall r :: r in rs ==> p(r) == q(r)
    ensures Where(rs, p) == Where(rs, q)
  {
    if rs != [] {
      assert rs[0] in rs;
      assert forall r :: r in rs[1..] ==> r in rs;
      WhereSame(rs[1..], p, q);
    }
  }

  /** A group none of whose readings a filter drops is the same before and after it. */
  lemma {:induction false} SelectWithin<K>(rs: seq<Reading>, p: Reading -> bool, key: Reading -> K, k: K)
    requires forall r :: r in rs && key(r) == k ==> p(r)
    ensures Select(Where(rs, p), key, k) == Select(rs, key, k)
  {
    if rs != [] {
      assert rs[0] in rs;
      assert forall r :: r in rs[1..] ==> r in rs;
      SelectWithin(rs[1..], p, key, k);
      var w := Where(rs[1..], p);
      var wp := Where(rs, p);
      if p(rs[0]) {
        assert wp == [rs[0]] + w;
        assert wp[0] == rs[0] && wp[1..] == w;
        assert Select(wp, key, k) == (if key(rs[0]) == k then [rs[0]] else []) + Select(w, key, k);
      } else {
        assert wp == w && key(rs[0]) != k;
      }
    }
  }

  /** A group with no reading is empty. */
  lemma {:induction false} SelectNone<K>(rs: seq<Reading>, key: Reading -> K, k: K)
    requires forall r :: r in rs ==> key(r) != k
    ensures Select(rs, key, k) == []
  {
    if rs != [] {
      assert rs[0] in rs;
      assert forall r :: r in rs[1..] ==> r in rs;
      SelectNone(rs[1..], key, k);
    }
  }

  /** The filter "the key is one of `ks`". */
  function InKeys<K(==)>(key: Reading -> K, ks: seq<K>): Reading -> bool {
    (r: Reading) => key(r) in ks
  }

  /** Adding up the groups of some distinct keys counts each reading with one of those
      keys exactly once. */
  lemma GroupSizesSum<K>(rs: seq<Reading>, key: Reading -> K, ks: seq<K>)
    requires Distinct(ks)
    ensures SumNat(GroupSizes(rs, key, ks)) == |Where(rs, InKeys(key, ks))|
  {
    var w := Where(rs, InKeys(key, ks));
    GroupSizesPartition(w, key, ks);
    forall a | 0 <= a < |ks| ensures |Select(w, key, ks[a])| == |Select(rs, key, ks[a])| {
      SelectWithin(rs, InKeys(key, ks), key, ks[a]);
    }
    assert GroupSizes(w, key, ks) == GroupSizes(rs, key, ks);
  }
}
