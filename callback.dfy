/**
  The body of `aggiorna_analisi` in stats_clienti_web.py as it runs: the
  filter, the bucket column, the group-by with its counts, the derived
  columns, the `TOTALE` row and the euro formatting, each step a loop over
  the table proved to compute the function of the Report module that
  states its result.
*/
module Callback {
  import opened Wrappers
  import opened Text
  import opened Fascia
  import opened Report

  /** `dati = df.copy()` and, unless `'all'` is selected,
      `dati = dati[dati['data'] == selected_date]`. */
  method SelectRecords(recs: seq<Record>, selected: Option<string>) returns (dati: seq<Record>)
    ensures dati == Filtered(recs, selected)
  {
    if selected == Some(AllDates) {
      return recs;
    }
    dati := [];
    var i := 0;
    while i < |recs|
      invariant 0 <= i <= |recs|
      invariant dati == Filtered(recs[..i], selected)
    {
      assert recs[..i + 1][..i] == recs[..i];
      if selected.Some? && recs[i].data == Str(selected.value) {
        dati := dati + [recs[i]];
      }
      i := i + 1;
    }
    assert recs[..|recs|] == recs;
  }

  /** `dati['orario'].fillna("00:00")`, then `dati['fascia']` by
      `fascia_30min`, and the test of the aggregation lambdas on each
      `descrizione`. */
  method Classify(dati: seq<Record>) returns (es: seq<Entry>)
    ensures es == Entries(dati)
  {
    es := [];
    var i := 0;
    while i < |dati|
      invariant 0 <= i <= |dati|
      invariant es == Entries(dati[..i])
    {
      var e := Entry(Label(dati[i]), IsChild(dati[i]));
      EntriesOneMore(dati, i);
      es := es + [e];
      i := i + 1;
    }
    assert dati[..|dati|] == dati;
  }

  /** Classifying one record more appends its entry. */
  lemma EntriesOneMore(d: seq<Record>, i: nat)
    requires i < |d|
    ensures Entries(d[..i + 1]) == Entries(d[..i]) + [Entry(Label(d[i]), IsChild(d[i]))]
  {
    var longer, shorter := Entries(d[..i + 1]), Entries(d[..i]) + [Entry(Label(d[i]), IsChild(d[i]))];
    assert |longer| == |shorter|;
    forall k | 0 <= k < |longer| ensures longer[k] == shorter[k] {
      if k < i {
        assert d[..i + 1][k] == d[..i][k];
      }
    }
  }

  /** A bucket that no entry falls in has no adults and no children. */
  lemma {:induction false} CountOfNewKey(es: seq<Entry>, k: string)
    requires k !in Keys(es)
    ensures Count(es, k, false) == 0 && Count(es, k, true) == 0
  {
    if |es| > 0 {
      var front := es[..|es| - 1];
      assert Keys(es) == Insert(Keys(front), es[|es| - 1].fascia);
      CountOfNewKey(front, k);
    }
  }

  /** One entry more: the counts of its bucket and kind go up by one, every
      other count stays. */
  lemma CountStep(es: seq<Entry>, i: nat, k: string, child: bool)
    requires i < |es|
    ensures Count(es[..i + 1], k, child)
      == Count(es[..i], k, child) + (if es[i].fascia == k && es[i].bambino == child then 1 else 0)
  {
    assert es[..i + 1][..i] == es[..i];
  }

  /** What the tally of `CountByFascia` holds after the first `i` entries:
      the sorted keys of those entries, and for each of them its adults and
      children. */
  ghost predicate Tallied(es: seq<Entry>, i: nat, keys: seq<string>, counts: map<string, (nat, nat)>)
    requires i <= |es|
  {
    && keys == Keys(es[..i])
    && (forall k :: k in counts <==> k in keys)
    && (forall k :: k in counts ==> counts[k] == (Count(es[..i], k, false), Count(es[..i], k, true)))
  }

  /** Tallying entry `i`: its bucket joins the keys, and its count of its
      kind goes up by one. */
  lemma TallyStep(es: seq<Entry>, i: nat, keys: seq<string>, counts: map<string, (nat, nat)>, next: (nat, nat))
    requires i < |es| && Tallied(es, i, keys, counts)
    requires var counted := if es[i].fascia in counts then counts[es[i].fascia] else (0, 0);
      next == if es[i].bambino then (counted.0, counted.1 + 1) else (counted.0 + 1, counted.1)
    ensures Tallied(es, i + 1, Insert(keys, es[i].fascia), counts[es[i].fascia := next])
  {
    var f := es[i].fascia;
    NextCount(es, i, keys, counts, next);
    TallyKeys(es, i, keys, counts, counts[f := next]);
    TallyCounts(es, i, counts, counts[f := next]);
  }

  /** The new counts of entry `i`'s bucket are those of the longer prefix. */
  lemma NextCount(es: seq<Entry>, i: nat, keys: seq<string>, counts: map<string, (nat, nat)>, next: (nat, nat))
    requires i < |es| && Tallied(es, i, keys, counts)
    requires var counted := if es[i].fascia in counts then counts[es[i].fascia] else (0, 0);
      next == if es[i].bambino then (counted.0, counted.1 + 1) else (counted.0 + 1, counted.1)
    ensures next == (Count(es[..i + 1], es[i].fascia, false), Count(es[..i + 1], es[i].fascia, true))
  {
    var f := es[i].fascia;
    if f !in counts {
      CountOfNewKey(es[..i], f);
    }
    CountStep(es, i, f, false);
    CountStep(es, i, f, true);
  }

  /** Tallying entry `i`: the keys gain its bucket. */
  lemma TallyKeys(es: seq<Entry>, i: nat, keys: seq<string>, counts: map<string, (nat, nat)>, updated: map<string, (nat, nat)>)
    requires i < |es|
    requires keys == Keys(es[..i]) && forall k :: k in counts <==> k in keys
    requires updated.Keys == counts.Keys + {es[i].fascia}
    ensures Insert(keys, es[i].fascia) == Keys(es[..i + 1])
    ensures forall k :: k in updated <==> k in Insert(keys, es[i].fascia)
  {
    assert es[..i + 1][..i] == es[..i];
  }

  /** Tallying entry `i`: with the counts of its bucket brought up to date,
      every count is that of the longer prefix. */
  lemma TallyCounts(es: seq<Entry>, i: nat, counts: map<string, (nat, nat)>, updated: map<string, (nat, nat)>)
    requires i < |es|
    requires forall k :: k in counts ==> counts[k] == (Count(es[..i], k, false), Count(es[..i], k, true))
    requires updated == counts[es[i].fascia := (Count(es[..i + 1], es[i].fascia, false), Count(es[..i + 1], es[i].fascia, true))]
    ensures forall k :: k in updated ==> updated[k] == (Count(es[..i + 1], k, false), Count(es[..i + 1], k, true))
  {
    forall k | k in counts && k != es[i].fascia
      ensures counts[k] == (Count(es[..i + 1], k, false), Count(es[..i + 1], k, true))
    {
      CountStep(es, i, k, false);
      CountStep(es, i, k, true);
    }
  }

  /** `dati.groupby('fascia')` with the two aggregations: one pass over the
      entries fills the sorted group keys and a map from each bucket to its
      adults and children. */
  method CountByFascia(es: seq<Entry>) returns (keys: seq<string>, counts: map<string, (nat, nat)>)
    ensures keys == Keys(es)
    ensures forall k :: k in counts <==> k in keys
    ensures forall k :: k in counts ==> counts[k] == (Count(es, k, false), Count(es, k, true))
  {
    keys := [];
    counts := map[];
    var i := 0;
    while i < |es|
      invariant 0 <= i <= |es|
      invariant Tallied(es, i, keys, counts)
    {
      var e := es[i];
      var counted := if e.fascia in counts then counts[e.fascia] else (0, 0);
      var next := if e.bambino then (counted.0, counted.1 + 1) else (counted.0 + 1, counted.1);
      TallyStep(es, i, keys, counts, next);
      counts := counts[e.fascia := next];
      keys := Insert(keys, e.fascia);
      i := i + 1;
    }
    assert es[..|es|] == es;
  }

  /** The aggregated table, `reset_index()` turning the keys into the
      `Fascia Oraria` column, with the derived columns `Totale`, `Incasso
      Adulti`, `Incasso Bambini` and `Incasso Totale`. */
  method GroupByFascia(es: seq<Entry>) returns (rows: seq<Row>)
    ensures rows == BucketRows(es)
  {
    var keys, counts := CountByFascia(es);
    rows := [];
    var j := 0;
    while j < |keys|
      invariant 0 <= j <= |keys|
      invariant rows == RowsFor(es, keys[..j])
    {
      var fascia := keys[j];
      var adulti := counts[fascia].0;
      var bambini := counts[fascia].1;
      var incassoAdulti := adulti * AdultPrice;
      var incassoBambini := bambini * ChildPrice;
      rows := rows + [Row(fascia, adulti, bambini, adulti + bambini,
                          incassoAdulti, incassoBambini, incassoAdulti + incassoBambini)];
      j := j + 1;
    }
    assert keys[..|keys|] == keys;
  }

  /** `tot_row`, the six column sums, and
      `fasce = pd.concat([fasce, pd.DataFrame([tot_row])])`. */
  method AppendTotal(rows: seq<Row>) returns (fasce: seq<Row>, tot: Row)
    ensures tot == TotalRow(rows)
    ensures fasce == rows + [tot]
  {
    var adulti, bambini, totale := 0, 0, 0;
    var incassoAdulti, incassoBambini, incassoTotale := 0, 0, 0;
    var i := 0;
    while i < |rows|
      invariant 0 <= i <= |rows|
      invariant adulti == ColumnSum(rows[..i], Adulti) && bambini == ColumnSum(rows[..i], Bambini)
      invariant totale == ColumnSum(rows[..i], Totale)
      invariant incassoAdulti == ColumnSum(rows[..i], IncassoAdulti)
      invariant incassoBambini == ColumnSum(rows[..i], IncassoBambini)
      invariant incassoTotale == ColumnSum(rows[..i], IncassoTotale)
    {
      assert rows[..i + 1][..i] == rows[..i];
      var r := rows[i];
      adulti, bambini, totale := adulti + r.adulti, bambini + r.bambini, totale + r.totale;
      incassoAdulti := incassoAdulti + r.incassoAdulti;
      incassoBambini := incassoBambini + r.incassoBambini;
      incassoTotale := incassoTotale + r.incassoTotale;
      i := i + 1;
    }
    assert rows[..|rows|] == rows;
    tot := Row(TotalLabel, adulti, bambini, totale, incassoAdulti, incassoBambini, incassoTotale);
    fasce := rows + [tot];
  }

  /** `fasce[col].apply(lambda x: f"{x} €")` for the three revenue columns. */
  method FormatRevenue(fasce: seq<Row>) returns (out: seq<TableRow>)
    ensures out == RenderAll(fasce)
  {
    out := [];
    var i := 0;
    while i < |fasce|
      invariant 0 <= i <= |fasce|
      invariant out == RenderAll(fasce[..i])
    {
      var shown := Render(fasce[i]);
      RenderOneMore(fasce, i);
      out := out + [shown];
      i := i + 1;
    }
    assert fasce[..|fasce|] == fasce;
  }

  /** Rendering one row more appends its rendering. */
  lemma RenderOneMore(rows: seq<Row>, i: nat)
    requires i < |rows|
    ensures RenderAll(rows[..i + 1]) == RenderAll(rows[..i]) + [Render(rows[i])]
  {
    var longer, shorter := RenderAll(rows[..i + 1]), RenderAll(rows[..i]) + [Render(rows[i])];
    assert |longer| == |shorter|;
    forall k | 0 <= k < |longer| ensures longer[k] == shorter[k] {
      if k < i {
        assert rows[..i + 1][k] == rows[..i][k];
      }
    }
  }

  /** `aggiorna_analisi(n_clicks, selected_date)` over the fetched records:
      returns what the Report module says the callback shows. */
  method AggiornaAnalisi(nClicks: int, selected: Option<string>, recs: seq<Record>) returns (out: Outputs)
    requires CallbackRuns(nClicks, selected, recs)
    ensures out == Analysis(nClicks, selected, recs)
  {
    if nClicks == 0 {
      return Outputs(NoFigure, [], "");
    }
    var dati := SelectRecords(recs, selected);
    if |dati| == 0 {
      return Outputs(NoFigure, [], NoDataMessage);
    }
    var es := Classify(dati);
    var rows := GroupByFascia(es);
    var fasce, tot := AppendTotal(rows);
    var table := FormatRevenue(fasce);
    var analisiText := Summary(tot);
    var fig := Chart(table, selected);
    out := Outputs(fig, table, analisiText);
  }
}
