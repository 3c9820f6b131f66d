/**
 * The chart page's client-side transform: poll records are grouped into an
 * insertion-ordered object `dadosAgrupados` (formatted date -> candidate -> value)
 * and then flattened into the dense chart series `{data, A, B}`.
 *
 * Two browser facilities are parameters: `formatarData` (the date shown on the axis,
 * computed with the Date constructor and Intl.DateTimeFormat) and `parseFloat`
 * (None stands for NaN).
 */
module PollAggregation {
  import opened Wrappers
  import opened ResultNormalization

  /** One poll record as returned by `GET /pesquisas`. */
  datatype Pesquisa = Pesquisa(
    id: int,
    idPesquisa: string,
    candidato: string,
    resultado: string,
    dataPesquisa: string,
    createdAt: string)

  /** A JavaScript number produced by `parseFloat`: None is NaN. */
  type Num = Option<real>

  /** One own property of `dadosAgrupados`: a formatted date and its candidate -> value object. */
  datatype Bucket = Bucket(data: string, valores: map<string, Num>)

  /** `dadosAgrupados`, as its own properties in insertion order. */
  type Grouped = seq<Bucket>

  /** One point of `seriesData`; `data` is the formatted date. */
  datatype SeriesPoint = SeriesPoint(data: string, a: real, b: real)

  /** The bucket key of a record. */
  function DateKey(p: Pesquisa, formatarData: string -> string): string {
    formatarData(p.dataPesquisa)
  }

  /** The number stored for a record. */
  function Valor(p: Pesquisa, parseFloat: string -> Num): Num {
    parseFloat(Normalize(p.resultado))
  }

  /** The dates of `d`, in property order (`Object.keys`). */
  function Keys(d: Grouped): seq<string> {
    seq(|d|, i requires 0 <= i < |d| => d[i].data)
  }

  /** Where property `k` sits among the keys `ks`; `|ks|` when it is absent. */
  function IndexOf(ks: seq<string>, k: string): (i: nat)
    ensures i <= |ks|
    ensures i < |ks| ==> ks[i] == k
    ensures i == |ks| <==> k !in ks
    ensures forall j :: 0 <= j < i ==> ks[j] != k
  {
    if ks == [] then 0
    else if ks[0] == k then 0
    else 1 + IndexOf(ks[1..], k)
  }

  ghost predicate Distinct(ks: seq<string>) {
    forall i, j :: 0 <= i < j < |ks| ==> ks[i] != ks[j]
  }

  /**
   * The body of the `forEach` for one record: create the date's bucket when the date
   * has not been seen (`if (!dadosAgrupados[dataFormatted]) ... = {}`), then set the
   * candidate's entry in it.
   */
  function Assign(d: Grouped, data: string, candidato: string, valor: Num): Grouped {
    var i := IndexOf(Keys(d), data);
    var d1 := if i == |d| then d + [Bucket(data, map[])] else d;
    d1[i := d1[i].(valores := d1[i].valores[candidato := valor])]
  }

  /** `dadosAgrupados` after the `forEach` has visited every record of `ps`, in order. */
  function Grouping(ps: seq<Pesquisa>, formatarData: string -> string, parseFloat: string -> Num): Grouped
    decreases |ps|
  {
    if ps == [] then []
    else
      var p := ps[|ps| - 1];
      Assign(Grouping(ps[..|ps| - 1], formatarData, parseFloat),
             DateKey(p, formatarData), p.candidato, Valor(p, parseFloat))
  }

  /** The grouping loop, updating `dadosAgrupados` one record at a time. */
  method GroupByDate(pesquisas: seq<Pesquisa>, formatarData: string -> string, parseFloat: string -> Num)
    returns (dadosAgrupados: Grouped)
    ensures dadosAgrupados == Grouping(pesquisas, formatarData, parseFloat)
  {
    dadosAgrupados := [];
    var n := 0;
    while n < |pesquisas|
      invariant n <= |pesquisas|
      invariant dadosAgrupados == Grouping(pesquisas[..n], formatarData, parseFloat)
    {
      var pesquisa := pesquisas[n];
      var dataFormatted := formatarData(pesquisa.dataPesquisa);
      var resultado := parseFloat(Normalize(pesquisa.resultado));
      var i := IndexOf(Keys(dadosAgrupados), dataFormatted);
      if i == |dadosAgrupados| {
        dadosAgrupados := dadosAgrupados + [Bucket(dataFormatted, map[])];
      }
      dadosAgrupados := dadosAgrupados[i := dadosAgrupados[i].(valores := dadosAgrupados[i].valores[pesquisa.candidato := resultado])];
      assert pesquisas[..n + 1][..n] == pesquisas[..n];
      n := n + 1;
    }
    assert pesquisas[..n] == pesquisas;
  }

  /** `x || 0` on a property read: undefined, NaN and 0 all give 0. */
  function OrZero(v: Option<Num>): (r: real)
    ensures r != 0.0 ==> v == Some(Some(r))
    ensures r == 0.0 <==> v.None? || v.value.None? || v.value.value == 0.0
  {
    match v
    case Some(Some(x)) => x
    case _ => 0.0
  }

  /** `Object.keys(dadosAgrupados).map(...)`: one dense point per date. */
  function SeriesData(d: Grouped): seq<SeriesPoint> {
    seq(|d|, i requires 0 <= i < |d| =>
      SeriesPoint(d[i].data, OrZero(Get(d[i].valores, "A")), OrZero(Get(d[i].valores, "B"))))
  }

  /** The chart series drawn for the records `ps`. */
  function PollSeries(ps: seq<Pesquisa>, formatarData: string -> string, parseFloat: string -> Num): seq<SeriesPoint> {
    SeriesData(Grouping(ps, formatarData, parseFloat))
  }

  // ---------------------------------------------------------------------------
  // Specification predicates over the input records
  // ---------------------------------------------------------------------------

  /** Some record of `ps` has date key `k`. */
  ghost predicate Seen(ps: seq<Pesquisa>, f: string -> string, k: string) {
    exists j :: 0 <= j < |ps| && DateKey(ps[j], f) == k
  }

  /** Date `k1` occurs in `ps` before the first occurrence of date `k2`. */
  ghost predicate SeenBefore(ps: seq<Pesquisa>, f: string -> string, k1: string, k2: string) {
    exists j :: 0 <= j < |ps| && DateKey(ps[j], f) == k1 && forall j' :: 0 <= j' <= j ==> DateKey(ps[j'], f) != k2
  }

  /** Record `j` of `ps` is for date `k` and candidate `c`. */
  ghost predicate Wrote(ps: seq<Pesquisa>, f: string -> string, k: string, c: string, j: int) {
    0 <= j < |ps| && DateKey(ps[j], f) == k && ps[j].candidato == c
  }

  /** Record `j` is the last record of `ps` for date `k` and candidate `c`. */
  ghost predicate LastWrite(ps: seq<Pesquisa>, f: string -> string, k: string, c: string, j: int) {
    Wrote(ps, f, k, c, j) && forall j' :: j < j' < |ps| ==> !Wrote(ps, f, k, c, j')
  }

  // ---------------------------------------------------------------------------
  // One step of the loop
  // ---------------------------------------------------------------------------

  lemma AssignKeys(d: Grouped, data: string, candidato: string, valor: Num)
    ensures Keys(Assign(d, data, candidato, valor)) == if data in Keys(d) then Keys(d) else Keys(d) + [data]
  {
    var d' := Assign(d, data, candidato, valor);
    if data in Keys(d) {
      assert Keys(d') == Keys(d);
    } else {
      assert Keys(d') == Keys(d) + [data];
    }
  }

  /**
   * A date's bucket is created once, on first sight; afterwards a record only adds or
   * overwrites its own candidate's entry, and no bucket or entry ever disappears.
   */
  lemma AssignKeepsEntries(d: Grouped, data: string, candidato: string, valor: Num)
    requires Distinct(Keys(d))
    ensures var d' := Assign(d, data, candidato, valor);
      && Distinct(Keys(d'))
      && |d'| == |d| + (if data in Keys(d) then 0 else 1)
      && (forall i :: 0 <= i < |d| && d[i].data != data ==> d'[i] == d[i])
      && (forall i :: 0 <= i < |d| && d[i].data == data ==> d'[i].valores == d[i].valores[candidato := valor])
      && (data !in Keys(d) ==> d'[|d|] == Bucket(data, map[candidato := valor]))
  {
    AssignKeys(d, data, candidato, valor);
    var j := IndexOf(Keys(d), data);
    forall i | 0 <= i < |d| && d[i].data == data
      ensures Assign(d, data, candidato, valor)[i].valores == d[i].valores[candidato := valor]
    {
      assert Keys(d)[i] == data;
    }
  }

  // ---------------------------------------------------------------------------
  // Properties of the grouping
  // ---------------------------------------------------------------------------

  lemma SeenSnoc(ps: seq<Pesquisa>, f: string -> string, k: string)
    requires ps != []
    ensures Seen(ps, f, k) <==> Seen(ps[..|ps| - 1], f, k) || DateKey(ps[|ps| - 1], f) == k
  {
    var q := ps[..|ps| - 1];
    if Seen(ps, f, k) && DateKey(ps[|ps| - 1], f) != k {
      var j :| 0 <= j < |ps| && DateKey(ps[j], f) == k;
      assert q[j] == ps[j];
    }
    if Seen(q, f, k) {
      var j :| 0 <= j < |q| && DateKey(q[j], f) == k;
      assert ps[j] == q[j];
    }
  }

  /** An order already witnessed in a prefix survives one more record. */
  lemma SeenBeforeSnoc(ps: seq<Pesquisa>, f: string -> string, k1: string, k2: string)
    requires ps != [] && SeenBefore(ps[..|ps| - 1], f, k1, k2)
    ensures SeenBefore(ps, f, k1, k2)
  {
    var q := ps[..|ps| - 1];
    var j :| 0 <= j < |q| && DateKey(q[j], f) == k1 && forall j' :: 0 <= j' <= j ==> DateKey(q[j'], f) != k2;
    assert ps[j] == q[j];
    assert forall j' :: 0 <= j' <= j ==> ps[j'] == q[j'];
  }

  /** A date seen in a prefix comes before one the prefix never saw. */
  lemma SeenBeforeUnseen(ps: seq<Pesquisa>, f: string -> string, k1: string, k2: string)
    requires ps != [] && Seen(ps[..|ps| - 1], f, k1) && !Seen(ps[..|ps| - 1], f, k2)
    ensures SeenBefore(ps, f, k1, k2)
  {
    var q := ps[..|ps| - 1];
    var j :| 0 <= j < |q| && DateKey(q[j], f) == k1;
    assert ps[j] == q[j];
    forall j' | 0 <= j' <= j ensures DateKey(ps[j'], f) != k2 {
      assert ps[j'] == q[j'];
    }
  }

  /**
   * `dadosAgrupados` has one property per distinct date of the input, and the
   * properties are ordered by each date's first appearance.
   */
  lemma {:induction false} GroupingKeysFirstSeen(ps: seq<Pesquisa>, f: string -> string, pf: string -> Num)
    ensures Distinct(Keys(Grouping(ps, f, pf)))
    ensures forall k :: k in Keys(Grouping(ps, f, pf)) <==> Seen(ps, f, k)
    ensures forall i, i' :: 0 <= i < i' < |Grouping(ps, f, pf)| ==>
      SeenBefore(ps, f, Grouping(ps, f, pf)[i].data, Grouping(ps, f, pf)[i'].data)
  {
    if ps != [] {
      var q := ps[..|ps| - 1];
      var p := ps[|ps| - 1];
      var k := DateKey(p, f);
      var d := Grouping(q, f, pf);
      var d' := Grouping(ps, f, pf);
      GroupingKeysFirstSeen(q, f, pf);
      AssignKeys(d, k, p.candidato, Valor(p, pf));
      AssignKeepsEntries(d, k, p.candidato, Valor(p, pf));
      forall k' ensures k' in Keys(d') <==> Seen(ps, f, k') {
        SeenSnoc(ps, f, k');
      }
      forall i, i' | 0 <= i < i' < |d'|
        ensures SeenBefore(ps, f, d'[i].data, d'[i'].data)
      {
        assert Keys(d')[i] == d'[i].data && Keys(d')[i'] == d'[i'].data;
        assert Keys(d)[i] == d'[i].data;
        if i' < |d| {
          assert Keys(d)[i'] == d'[i'].data;
          SeenBeforeSnoc(ps, f, d'[i].data, d'[i'].data);
        } else {
          assert k !in Keys(d) && d'[i'].data == k;
          SeenBeforeUnseen(ps, f, d'[i].data, k);
        }
      }
    }
  }

  lemma WroteSnoc(ps: seq<Pesquisa>, f: string -> string, k: string, c: string, j: int)
    requires ps != []
    ensures var q, p := ps[..|ps| - 1], ps[|ps| - 1];
      Wrote(ps, f, k, c, j) <==> Wrote(q, f, k, c, j) || (j == |ps| - 1 && DateKey(p, f) == k && p.candidato == c)
  {
    if 0 <= j < |ps| - 1 {
      assert ps[..|ps| - 1][j] == ps[j];
    }
  }

  /**
   * Within a date's bucket, a candidate has an entry exactly when some record was for
   * that date and candidate, and the value kept is that of the last such record.
   */
  lemma {:induction false} GroupingLastWriteWins(ps: seq<Pesquisa>, f: string -> string, pf: string -> Num)
    ensures forall i, c :: 0 <= i < |Grouping(ps, f, pf)| ==>
      (c in Grouping(ps, f, pf)[i].valores <==> exists j :: Wrote(ps, f, Grouping(ps, f, pf)[i].data, c, j))
    ensures forall i, c, j :: 0 <= i < |Grouping(ps, f, pf)| && LastWrite(ps, f, Grouping(ps, f, pf)[i].data, c, j) ==>
      c in Grouping(ps, f, pf)[i].valores && Grouping(ps, f, pf)[i].valores[c] == Valor(ps[j], pf)
    decreases |ps|, 1
  {
    var d' := Grouping(ps, f, pf);
    forall i, c | 0 <= i < |d'|
      ensures c in d'[i].valores <==> exists j :: Wrote(ps, f, d'[i].data, c, j)
      ensures forall j :: LastWrite(ps, f, d'[i].data, c, j) ==> c in d'[i].valores && d'[i].valores[c] == Valor(ps[j], pf)
    {
      LastWriteWinsBucket(ps, f, pf, i, c);
    }
  }

  /** One bucket and one candidate of `GroupingLastWriteWins`, from the same facts about all records but the last. */
  lemma {:induction false} LastWriteWinsBucket(ps: seq<Pesquisa>, f: string -> string, pf: string -> Num, i: int, c: string)
    requires 0 <= i < |Grouping(ps, f, pf)|
    ensures c in Grouping(ps, f, pf)[i].valores <==> exists j :: Wrote(ps, f, Grouping(ps, f, pf)[i].data, c, j)
    ensures forall j :: LastWrite(ps, f, Grouping(ps, f, pf)[i].data, c, j) ==>
      c in Grouping(ps, f, pf)[i].valores && Grouping(ps, f, pf)[i].valores[c] == Valor(ps[j], pf)
    decreases |ps|, 0
  {
    var n := |ps| - 1;
    var q := ps[..n];
    var p := ps[n];
    var k := DateKey(p, f);
    var d := Grouping(q, f, pf);
    var d' := Grouping(ps, f, pf);
    GroupingLastWriteWins(q, f, pf);
    GroupingKeysFirstSeen(q, f, pf);
    AssignKeepsEntries(d, k, p.candidato, Valor(p, pf));
    var di := d'[i].data;
    forall j ensures Wrote(ps, f, di, c, j) <==> Wrote(q, f, di, c, j) || (j == n && k == di && p.candidato == c) {
      WroteSnoc(ps, f, di, c, j);
    }
    if i == |d| {
      // the bucket created by this record: nothing earlier was for this date
      assert k !in Keys(d) && di == k;
      assert !Seen(q, f, k);
      assert forall j :: !Wrote(q, f, k, c, j);
      assert d'[i].valores == map[p.candidato := Valor(p, pf)];
      if c == p.candidato {
        assert Wrote(ps, f, di, c, n);
      }
      forall j | LastWrite(ps, f, di, c, j)
        ensures c in d'[i].valores && d'[i].valores[c] == Valor(ps[j], pf)
      {
        assert j == n;
      }
    } else if di == k {
      assert d[i].data == k;
      assert d'[i].valores == d[i].valores[p.candidato := Valor(p, pf)];
      if c == p.candidato {
        assert Wrote(ps, f, di, c, n);
        forall j | LastWrite(ps, f, di, c, j)
          ensures c in d'[i].valores && d'[i].valores[c] == Valor(ps[j], pf)
        {
          assert j == n;
        }
      } else {
        forall j | LastWrite(ps, f, di, c, j)
          ensures c in d'[i].valores && d'[i].valores[c] == Valor(ps[j], pf)
        {
          assert LastWrite(q, f, di, c, j);
          assert ps[j] == q[j];
        }
      }
    } else {
      assert d'[i] == d[i];
      forall j | LastWrite(ps, f, di, c, j)
        ensures c in d'[i].valores && d'[i].valores[c] == Valor(ps[j], pf)
      {
        assert LastWrite(q, f, di, c, j);
        assert ps[j] == q[j];
      }
    }
  }

  /** Every record for a date and candidate is followed by a last such record. */
  lemma {:induction false} LastWriteExists(ps: seq<Pesquisa>, f: string -> string, k: string, c: string, j: int)
    requires Wrote(ps, f, k, c, j)
    ensures exists j' :: LastWrite(ps, f, k, c, j')
    decreases |ps| - j
  {
    if !LastWrite(ps, f, k, c, j) {
      var j' :| j < j' < |ps| && Wrote(ps, f, k, c, j');
      LastWriteExists(ps, f, k, c, j');
    }
  }

  /** One more record keeps the earlier dates in place and every earlier entry present. */
  lemma AssignExtends(d: Grouped, data: string, candidato: string, valor: Num)
    requires Distinct(Keys(d))
    ensures var d' := Assign(d, data, candidato, valor);
      && |d| <= |d'|
      && forall i :: 0 <= i < |d| ==> d'[i].data == d[i].data && d[i].valores.Keys <= d'[i].valores.Keys
  {
    AssignKeys(d, data, candidato, valor);
    AssignKeepsEntries(d, data, candidato, valor);
  }

  /**
   * Every prefix of the input has already fixed the order of the dates it has seen, and
   * its buckets' entries are all still present after the remaining records.
   */
  lemma {:induction false} GroupingGrows(ps: seq<Pesquisa>, m: nat, f: string -> string, pf: string -> Num)
    requires m <= |ps|
    ensures var d0, d := Grouping(ps[..m], f, pf), Grouping(ps, f, pf);
      && |d0| <= |d|
      && forall i :: 0 <= i < |d0| ==> d[i].data == d0[i].data && d0[i].valores.Keys <= d[i].valores.Keys
  {
    if m == |ps| {
      assert ps[..m] == ps;
    } else {
      var q := ps[..|ps| - 1];
      var p := ps[|ps| - 1];
      assert q[..m] == ps[..m];
      GroupingGrows(q, m, f, pf);
      GroupingKeysFirstSeen(q, f, pf);
      var d0, dq, d := Grouping(ps[..m], f, pf), Grouping(q, f, pf), Grouping(ps, f, pf);
      AssignExtends(dq, DateKey(p, f), p.candidato, Valor(p, pf));
      assert d == Assign(dq, DateKey(p, f), p.candidato, Valor(p, pf));
    }
  }

  /**
   * The chart series: one point per distinct date, ordered by first appearance; each
   * point's `A` (`B`) is the value of the last record for that date and candidate "A"
   * ("B"), with NaN and a missing candidate shown as 0.
   */
  lemma SeriesFromLastWrites(ps: seq<Pesquisa>, f: string -> string, pf: string -> Num)
    ensures var s := PollSeries(ps, f, pf);
      && (forall k :: Seen(ps, f, k) <==> exists i :: 0 <= i < |s| && s[i].data == k)
      && (forall i, i' :: 0 <= i < i' < |s| ==> SeenBefore(ps, f, s[i].data, s[i'].data))
      && (forall i, j :: 0 <= i < |s| && LastWrite(ps, f, s[i].data, "A", j) ==> s[i].a == OrZero(Some(Valor(ps[j], pf))))
      && (forall i, j :: 0 <= i < |s| && LastWrite(ps, f, s[i].data, "B", j) ==> s[i].b == OrZero(Some(Valor(ps[j], pf))))
      && (forall i :: 0 <= i < |s| && (forall j :: !Wrote(ps, f, s[i].data, "A", j)) ==> s[i].a == 0.0)
      && (forall i :: 0 <= i < |s| && (forall j :: !Wrote(ps, f, s[i].data, "B", j)) ==> s[i].b == 0.0)
  {
    var d := Grouping(ps, f, pf);
    var s := PollSeries(ps, f, pf);
    GroupingKeysFirstSeen(ps, f, pf);
    GroupingLastWriteWins(ps, f, pf);
    forall k ensures Seen(ps, f, k) <==> exists i :: 0 <= i < |s| && s[i].data == k {
      if Seen(ps, f, k) {
        var i := IndexOf(Keys(d), k);
        assert s[i].data == k;
      }
      if exists i :: 0 <= i < |s| && s[i].data == k {
        var i :| 0 <= i < |s| && s[i].data == k;
        assert Keys(d)[i] == k;
      }
    }
  }

  /** The candidate labels that have a line on the chart. */
  predicate Tracked(candidato: string) {
    candidato == "A" || candidato == "B"
  }

  /** Two records that the chart cannot tell apart: same date, and same candidate and value when either is tracked. */
  ghost predicate SameForChart(p: Pesquisa, p': Pesquisa, f: string -> string, pf: string -> Num) {
    && DateKey(p, f) == DateKey(p', f)
    && (Tracked(p.candidato) || Tracked(p'.candidato) ==> p.candidato == p'.candidato && Valor(p, pf) == Valor(p', pf))
  }

  /** Two groupings with the same dates in the same order and the same "A" and "B" entries. */
  ghost predicate Agree(d: Grouped, d': Grouped) {
    && Keys(d) == Keys(d')
    && forall i :: 0 <= i < |d| ==>
         Get(d[i].valores, "A") == Get(d'[i].valores, "A") && Get(d[i].valores, "B") == Get(d'[i].valores, "B")
  }

  lemma AgreeAssign(d: Grouped, d': Grouped, k: string, c: string, v: Num, c': string, v': Num)
    requires Agree(d, d')
    requires Tracked(c) || Tracked(c') ==> c == c' && v == v'
    ensures Agree(Assign(d, k, c, v), Assign(d', k, c', v'))
  {
    AssignKeys(d, k, c, v);
    AssignKeys(d', k, c', v');
    var e, e' := Assign(d, k, c, v), Assign(d', k, c', v');
    var i := IndexOf(Keys(d), k);
    forall j | 0 <= j < |e|
      ensures Get(e[j].valores, "A") == Get(e'[j].valores, "A") && Get(e[j].valores, "B") == Get(e'[j].valores, "B")
    {
      if j != i {
        assert e[j] == d[j] && e'[j] == d'[j];
      }
    }
  }

  lemma {:induction false} GroupingAgree(ps: seq<Pesquisa>, ps': seq<Pesquisa>, f: string -> string, pf: string -> Num)
    requires |ps| == |ps'|
    requires forall j :: 0 <= j < |ps| ==> SameForChart(ps[j], ps'[j], f, pf)
    ensures Agree(Grouping(ps, f, pf), Grouping(ps', f, pf))
  {
    if ps != [] {
      var n := |ps| - 1;
      assert forall j :: 0 <= j < n ==> ps[..n][j] == ps[j] && ps'[..n][j] == ps'[j];
      GroupingAgree(ps[..n], ps'[..n], f, pf);
      assert SameForChart(ps[n], ps'[n], f, pf);
      AgreeAssign(Grouping(ps[..n], f, pf), Grouping(ps'[..n], f, pf),
                  DateKey(ps[n], f), ps[n].candidato, Valor(ps[n], pf),
                  ps'[n].candidato, Valor(ps'[n], pf));
    }
  }

  /**
   * Records for candidates other than "A" and "B" never change a point's values: two
   * inputs that differ only in such records (their candidate or their text) draw the
   * same chart. (They still create their date's point.)
   */
  lemma SeriesIgnoresOtherCandidates(ps: seq<Pesquisa>, ps': seq<Pesquisa>, f: string -> string, pf: string -> Num)
    requires |ps| == |ps'|
    requires forall j :: 0 <= j < |ps| ==> SameForChart(ps[j], ps'[j], f, pf)
    ensures PollSeries(ps, f, pf) == PollSeries(ps', f, pf)
  {
    GroupingAgree(ps, ps', f, pf);
    var d, d' := Grouping(ps, f, pf), Grouping(ps', f, pf);
    assert |d| == |Keys(d)| == |Keys(d')| == |d'|;
    forall i | 0 <= i < |d| ensures SeriesData(d)[i] == SeriesData(d')[i] {
      assert Keys(d)[i] == Keys(d')[i];
    }
  }

  /** The series is empty exactly when there are no records. */
  lemma SeriesEmptyIff(ps: seq<Pesquisa>, f: string -> string, pf: string -> Num)
    ensures PollSeries(ps, f, pf) == [] <==> ps == []
  {
    if ps != [] {
      GroupingKeysFirstSeen(ps, f, pf);
      assert Seen(ps, f, DateKey(ps[0], f));
      assert DateKey(ps[0], f) in Keys(Grouping(ps, f, pf));
    }
  }

  /**
   * Two records of one day, for candidates "A" and "B", give a single point holding both
   * values (with `NormalizeDecimal`: "10,0%" and "20,5%" give A = 10.0 and B = 20.5).
   */
  lemma SeriesOneDay(f: string -> string, pf: string -> Num, dia: string, textoA: string, textoB: string, a: real, b: real)
    requires pf(Normalize(textoA)) == Some(a) && pf(Normalize(textoB)) == Some(b)
    ensures PollSeries([Pesquisa(1, "p1", "A", textoA, dia, ""), Pesquisa(2, "p1", "B", textoB, dia, "")], f, pf)
         == [SeriesPoint(f(dia), a, b)]
  {
    var r1 := Pesquisa(1, "p1", "A", textoA, dia, "");
    var r2 := Pesquisa(2, "p1", "B", textoB, dia, "");
    assert [r1, r2][..1] == [r1];
    assert [r1][..0] == [];
    assert Valor(r1, pf) == Some(a) && Valor(r2, pf) == Some(b);
    assert Keys([]) == [];
    assert Grouping([], f, pf) == [];
    assert DateKey(r1, f) == f(dia) && DateKey(r2, f) == f(dia);
    var d1 := Grouping([r1], f, pf);
    assert d1 == Assign([], f(dia), "A", Some(a));
    assert Keys(d1) == [f(dia)];
    assert d1 == [Bucket(f(dia), map["A" := Some(a)])];
    var d2 := Grouping([r1, r2], f, pf);
    assert d2 == [Bucket(f(dia), map["A" := Some(a), "B" := Some(b)])];
  }
}
