/**
  What the report promises: every record is counted once, in one bucket
  and one category; each row keeps the arithmetic of lines 109-112; the
  `TOTALE` row sums the bucket rows and counts every kept record; bucket
  labels are unique and ascending with the total row alone at the end;
  the summary and the chart are read off that table.
*/
module ReportProperties {
  import opened Wrappers
  import opened Text
  import opened PyInt
  import opened Fascia
  import opened Report

  // ---------------------------------------------------------------------
  // The date filter
  // ---------------------------------------------------------------------

  /** The filter keeps each record of the selected date as many times as it
      occurs, identical visits included, and no other record. */
  lemma {:induction false} FilteredKeepsDuplicates(recs: seq<Record>, selected: Option<string>)
    ensures forall r ::
              multiset(Filtered(recs, selected))[r] == if Keep(r, selected) then multiset(recs)[r] else 0
  {
    if |recs| > 0 {
      var last := recs[|recs| - 1];
      var front := recs[..|recs| - 1];
      assert recs == front + [last];
      FilteredKeepsDuplicates(front, selected);
      assert multiset(recs) == multiset(front) + multiset{last};
    }
  }

  /** No record gives nothing, and a single record stays exactly when it
      matches. */
  lemma FilteredOne(r: Record, selected: Option<string>)
    ensures Filtered([], selected) == []
    ensures Filtered([r], selected) == if Keep(r, selected) then [r] else []
  {
    assert [r][..0] == [];
  }

  /** The filter goes record by record and keeps their order: filtering two
      stretches one after the other is filtering them together, so with
      `FilteredOne` the kept records are the matching ones in input order. */
  lemma {:induction false} FilteredInOrder(a: seq<Record>, b: seq<Record>, selected: Option<string>)
    ensures Filtered(a + b, selected) == Filtered(a, selected) + Filtered(b, selected)
  {
    if |b| == 0 {
      assert a + b == a;
    } else {
      var last := b[|b| - 1];
      var front := b[..|b| - 1];
      var tail := if Keep(last, selected) then [last] else [];
      assert (a + b)[..|a + b| - 1] == a + front;
      assert (a + b)[|a + b| - 1] == last;
      assert Filtered(a + b, selected) == Filtered(a + front, selected) + tail;
      assert Filtered(b, selected) == Filtered(front, selected) + tail;
      FilteredInOrder(a, front, selected);
    }
  }

  // ---------------------------------------------------------------------
  // Counting
  // ---------------------------------------------------------------------

  /** Each record of a bucket counts once, as an adult or as a child. */
  lemma {:induction false} BucketCountsPartition(es: seq<Entry>, b: string)
    ensures Count(es, b, false) + Count(es, b, true) == CountLabel(es, b)
  {
    if |es| > 0 {
      BucketCountsPartition(es[..|es| - 1], b);
    }
  }

  /** Each record counts once, as an adult or as a child. */
  lemma {:induction false} KindsPartition(es: seq<Entry>)
    ensures CountKind(es, false) + CountKind(es, true) == |es|
  {
    if |es| > 0 {
      KindsPartition(es[..|es| - 1]);
    }
  }

  /** A bucket has a record exactly when some record falls in it. */
  lemma {:induction false} CountLabelPositive(es: seq<Entry>, b: string)
    ensures CountLabel(es, b) > 0 <==> exists i :: 0 <= i < |es| && es[i].fascia == b
  {
    if |es| > 0 {
      var front := es[..|es| - 1];
      CountLabelPositive(front, b);
      assert forall i :: 0 <= i < |front| ==> front[i] == es[i];
      if CountLabel(front, b) > 0 {
        var i :| 0 <= i < |front| && front[i].fascia == b;
        assert es[i].fascia == b;
      }
    }
  }

  /** Adding a bucket that is not yet among `ks` adds that bucket's count. */
  lemma {:induction false} CountInAppendKey(es: seq<Entry>, ks: seq<string>, k: string, child: bool)
    requires k !in ks
    ensures CountIn(es, ks + [k], child) == CountIn(es, ks, child) + Count(es, k, child)
  {
    if |es| > 0 {
      CountInAppendKey(es[..|es| - 1], ks, k, child);
    }
  }

  /** No bucket, no record. */
  lemma {:induction false} CountInNone(es: seq<Entry>, child: bool)
    ensures CountIn(es, [], child) == 0
  {
    if |es| > 0 {
      CountInNone(es[..|es| - 1], child);
    }
  }

  /** Buckets that cover every record count every record of the kind. */
  lemma {:induction false} CountInCovering(es: seq<Entry>, ks: seq<string>, child: bool)
    requires forall i :: 0 <= i < |es| ==> es[i].fascia in ks
    ensures CountIn(es, ks, child) == CountKind(es, child)
  {
    if |es| > 0 {
      var front := es[..|es| - 1];
      assert forall i :: 0 <= i < |front| ==> front[i] == es[i];
      CountInCovering(front, ks, child);
    }
  }

  /** The counting columns of the rows for distinct buckets `ks` sum to the
      records in those buckets. */
  lemma {:induction false} ColumnSumRowsFor(es: seq<Entry>, ks: seq<string>)
    requires Sorted(ks)
    ensures ColumnSum(RowsFor(es, ks), Adulti) == CountIn(es, ks, false)
    ensures ColumnSum(RowsFor(es, ks), Bambini) == CountIn(es, ks, true)
  {
    if |ks| > 0 {
      var front := ks[..|ks| - 1];
      var k := ks[|ks| - 1];
      assert ks == front + [k];
      assert Sorted(front);
      assert k !in front by {
        forall i | 0 <= i < |front| ensures front[i] != k {
          assert Less(ks[i], k);
          LessIrreflexive(k);
        }
      }
      ColumnSumRowsFor(es, front);
      CountInAppendKey(es, front, k, false);
      CountInAppendKey(es, front, k, true);
      var rows := RowsFor(es, ks);
      assert rows[..|rows| - 1] == RowsFor(es, front);
      assert rows[|rows| - 1] == BucketRow(k, Count(es, k, false), Count(es, k, true));
      assert ColumnSum(rows, Adulti) == ColumnSum(RowsFor(es, front), Adulti) + Count(es, k, false);
      assert ColumnSum(rows, Bambini) == ColumnSum(RowsFor(es, front), Bambini) + Count(es, k, true);
    } else {
      CountInNone(es, false);
      CountInNone(es, true);
    }
  }

  // ---------------------------------------------------------------------
  // Rows and the total row
  // ---------------------------------------------------------------------

  /** Every bucket row keeps the arithmetic of lines 109-112. */
  lemma BucketRowConsistent(b: string, adults: int, children: int)
    ensures Consistent(BucketRow(b, adults, children))
  {
  }

  /** Summing consistent rows gives a consistent row: the total row obeys
      the same arithmetic as the bucket rows. */
  lemma {:induction false} TotalRowConsistent(rows: seq<Row>)
    requires forall i :: 0 <= i < |rows| ==> Consistent(rows[i])
    ensures Consistent(TotalRow(rows))
    ensures forall c :: Field(TotalRow(rows), c) == ColumnSum(rows, c)
  {
    if |rows| > 0 {
      var front := rows[..|rows| - 1];
      assert forall i :: 0 <= i < |front| ==> front[i] == rows[i];
      TotalRowConsistent(front);
      assert Consistent(TotalRow(front));
    }
  }

  /** A record counts under `Bambini` exactly when `"bamb"` occurs somewhere
      in its lower-cased description, and under `Adulti` otherwise. */
  lemma ChildExactlyWhenBamb(r: Record)
    ensures IsChild(r) <==> exists i: nat :: OccursAt(Lower(r.descrizione), "bamb", i)
  {
    ContainsOccurs(Lower(r.descrizione), "bamb");
  }

  /** Every entry of the kept records carries a bucket label. */
  lemma EntriesAreLabelled(d: seq<Record>)
    ensures forall i :: 0 <= i < |d| ==> IsLabel(Entries(d)[i].fascia)
  {
    forall i | 0 <= i < |d| ensures IsLabel(Entries(d)[i].fascia) {
      LabelShape(FillNa(d[i].orario));
    }
  }

  /** The bucket rows' labels are strictly ascending, and every record
      falls in one of them. */
  lemma BucketRowsCover(es: seq<Entry>)
    ensures var rows := BucketRows(es);
      && (forall i, j :: 0 <= i < j < |rows| ==> Less(rows[i].fascia, rows[j].fascia))
      && (forall k :: 0 <= k < |es| ==> exists i :: 0 <= i < |rows| && rows[i].fascia == es[k].fascia)
  {
    var ks := Keys(es);
    KeysMembers(es);
    var rows := BucketRows(es);
    forall k | 0 <= k < |es| ensures exists i :: 0 <= i < |rows| && rows[i].fascia == es[k].fascia {
      assert es[k].fascia in ks;
      var i :| 0 <= i < |ks| && ks[i] == es[k].fascia;
      assert rows[i].fascia == es[k].fascia;
    }
  }

  /** Each bucket row is a bucket some record falls in; it counts that
      bucket's adults and children, at least one record in all, and keeps
      the row arithmetic. */
  lemma BucketRowsCount(es: seq<Entry>)
    ensures var rows := BucketRows(es);
      forall i :: 0 <= i < |rows| ==>
        && (exists k :: 0 <= k < |es| && es[k].fascia == rows[i].fascia)
        && Consistent(rows[i])
        && rows[i].adulti == Count(es, rows[i].fascia, false)
        && rows[i].bambini == Count(es, rows[i].fascia, true)
        && rows[i].totale == CountLabel(es, rows[i].fascia) > 0
  {
    var ks := Keys(es);
    KeysMembers(es);
    var rows := BucketRows(es);
    forall i | 0 <= i < |rows|
      ensures (exists k :: 0 <= k < |es| && es[k].fascia == rows[i].fascia)
      ensures rows[i].totale == CountLabel(es, rows[i].fascia) > 0
    {
      assert ks[i] in ks;
      BucketCountsPartition(es, ks[i]);
      CountLabelPositive(es, ks[i]);
    }
  }

  /** The total row's adults and children are every record of each kind. */
  lemma TotalRowKinds(es: seq<Entry>)
    ensures var t := TotalRow(BucketRows(es));
      t.adulti == CountKind(es, false) && t.bambini == CountKind(es, true)
  {
    var ks := Keys(es);
    KeysMembers(es);
    ColumnSumRowsFor(es, ks);
    assert forall i :: 0 <= i < |es| ==> es[i].fascia in ks;
    CountInCovering(es, ks, false);
    CountInCovering(es, ks, true);
  }

  /** The total row is labelled `TOTALE` and keeps the row arithmetic. */
  lemma TotalRowArithmetic(es: seq<Entry>)
    ensures var t := TotalRow(BucketRows(es));
      t.fascia == TotalLabel && Consistent(t)
  {
    var rows := BucketRows(es);
    assert forall i :: 0 <= i < |rows| ==> Consistent(rows[i]);
    TotalRowConsistent(rows);
  }

  /** The total row's `Totale` is the number of kept records. */
  lemma TotalRowCustomers(es: seq<Entry>)
    ensures var t := TotalRow(BucketRows(es));
      && t.adulti == CountKind(es, false)
      && t.bambini == CountKind(es, true)
      && t.totale == |es|
  {
    TotalRowKinds(es);
    TotalRowArithmetic(es);
    KindsPartition(es);
  }

  /** The total row counts every kept record: its adults and children are
      the records of each kind, its `Totale` the number of records, and it
      keeps the row arithmetic. */
  lemma TotalRowCounts(es: seq<Entry>)
    ensures var t := TotalRow(BucketRows(es));
      && t.fascia == TotalLabel && Consistent(t)
      && t.adulti == CountKind(es, false)
      && t.bambini == CountKind(es, true)
      && t.totale == |es|
  {
    TotalRowCustomers(es);
    TotalRowArithmetic(es);
  }

  // ---------------------------------------------------------------------
  // Rendering
  // ---------------------------------------------------------------------

  /** A revenue cell is the number followed by `" €"`, and the number reads
      back as the value. */
  lemma EuroReadsBack(v: int)
    ensures var s := Euro(v);
      |s| >= 2 && s[|s| - 2..] == " \U{20AC}" && ParseInt(s[..|s| - 2]) == Some(v)
  {
    var s := Euro(v);
    assert s[..|s| - 2] == IntToString(v);
    ParseIntToString(v);
  }

  /** No bucket label is `"TOTALE"`. */
  lemma TotalIsNotALabel()
    ensures !IsLabel(TotalLabel)
  {
    assert TotalLabel[3] == 'A';
  }

  // ---------------------------------------------------------------------
  // The callback
  // ---------------------------------------------------------------------

  /** Before the first click every output is empty; after it, the table is
      empty exactly when no record is kept, and then the no-data message is
      shown with no figure (never a lone `TOTALE` row). */
  lemma AnalysisEmptyCases(nClicks: int, selected: Option<string>, recs: seq<Record>)
    requires CallbackRuns(nClicks, selected, recs)
    ensures var out := Analysis(nClicks, selected, recs);
      && (nClicks == 0 ==> out == Outputs(NoFigure, [], ""))
      && (nClicks != 0 ==> (out.table == [] <==> Filtered(recs, selected) == []))
      && (nClicks != 0 && Filtered(recs, selected) == [] ==> out == Outputs(NoFigure, [], NoDataMessage))
      && (out.table != [] ==> |out.table| >= 2)
  {
    var dati := Filtered(recs, selected);
    if nClicks != 0 && |dati| > 0 {
      var es := Entries(dati);
      KeysMembers(es);
      assert es[0].fascia in Keys(es);
    }
  }

  /** The table after a click that keeps some records: the rendered bucket
      rows, with labels strictly ascending, each a `%02d` hour followed by
      `:00` or `:30` and so none of them `TOTALE`, then one `TOTALE` row that
      renders the sums of the bucket rows and counts every kept record; on
      every row `Totale = Adulti + Bambini` and the revenue cells read
      `3·Adulti €`, `2·Bambini €` and their sum. */
  lemma AnalysisTable(nClicks: int, selected: Option<string>, recs: seq<Record>)
    requires CallbackRuns(nClicks, selected, recs)
    requires nClicks != 0 && Filtered(recs, selected) != []
    ensures var es := Entries(Filtered(recs, selected));
      var rows := Analysis(nClicks, selected, recs).table;
      var last := |rows| - 1;
      && |rows| >= 2
      && AllButLast(rows) == RenderAll(BucketRows(es))
      && rows[last] == Render(TotalRow(BucketRows(es)))
      && rows[last].fascia == TotalLabel
      && (forall i :: 0 <= i < last ==> rows[i].fascia != TotalLabel && IsLabel(rows[i].fascia))
      && (forall i, j :: 0 <= i < j < last ==> Less(rows[i].fascia, rows[j].fascia))
      && rows[last].adulti == CountKind(es, false)
      && rows[last].bambini == CountKind(es, true)
      && rows[last].totale == |es|
      && (forall i :: 0 <= i < |rows| ==> ShowsArithmetic(rows[i]))
  {
    var dati := Filtered(recs, selected);
    var es := Entries(dati);
    assert Analysis(nClicks, selected, recs).table == RenderAll(Table(es));
    TableShape(es);
    TableTotals(es);
    TableOrder(es);
    TableLabels(dati);
    TableArithmetic(es);
  }

  // ---------------------------------------------------------------------
  // The rendered table
  // ---------------------------------------------------------------------

  /** The rendered table is the rendered bucket rows, at least one, then
      the rendered total row. */
  lemma TableShape(es: seq<Entry>)
    requires |es| > 0
    ensures var rows := RenderAll(Table(es));
      && |rows| >= 2
      && AllButLast(rows) == RenderAll(BucketRows(es))
      && rows[|rows| - 1] == Render(TotalRow(BucketRows(es)))
  {
    KeysMembers(es);
    assert es[0].fascia in Keys(es);
    var rows := RenderAll(Table(es));
    assert AllButLast(rows) == RenderAll(BucketRows(es));
  }

  /** The last rendered row is `TOTALE` and counts every kept record. */
  lemma TableTotals(es: seq<Entry>)
    requires |es| > 0
    ensures var rows := RenderAll(Table(es));
      && rows[|rows| - 1].fascia == TotalLabel
      && rows[|rows| - 1].adulti == CountKind(es, false)
      && rows[|rows| - 1].bambini == CountKind(es, true)
      && rows[|rows| - 1].totale == |es|
  {
    TableShape(es);
    TotalRowCounts(es);
  }

  /** A displayed row keeps the arithmetic of lines 109-112: `Totale` is
      `Adulti + Bambini` and the revenue cells show `3·Adulti`, `2·Bambini`
      and their sum in euro. */
  predicate ShowsArithmetic(r: TableRow)
  {
    && r.totale == r.adulti + r.bambini
    && r.incassoAdulti == Euro(AdultPrice * r.adulti)
    && r.incassoBambini == Euro(ChildPrice * r.bambini)
    && r.incassoTotale == Euro(AdultPrice * r.adulti + ChildPrice * r.bambini)
  }

  /** The rendered bucket rows keep the labels strictly ascending. */
  lemma TableOrder(es: seq<Entry>)
    requires |es| > 0
    ensures var rows := RenderAll(Table(es));
      forall i, j :: 0 <= i < j < |rows| - 1 ==> Less(rows[i].fascia, rows[j].fascia)
  {
    TableShape(es);
    BucketRowsCover(es);
  }

  /** Every rendered bucket row is labelled with a bucket label, so none of
      them is `TOTALE`. */
  lemma TableLabels(d: seq<Record>)
    requires |d| > 0
    ensures var rows := RenderAll(Table(Entries(d)));
      forall i :: 0 <= i < |rows| - 1 ==> rows[i].fascia != TotalLabel && IsLabel(rows[i].fascia)
  {
    var es := Entries(d);
    var buckets := BucketRows(es);
    TableShape(es);
    BucketRowsCount(es);
    EntriesAreLabelled(d);
    TotalIsNotALabel();
    forall i | 0 <= i < |buckets| ensures IsLabel(buckets[i].fascia) {
      var k :| 0 <= k < |es| && es[k].fascia == buckets[i].fascia;
    }
  }

  /** Every rendered row, the total included, keeps the row arithmetic with
      the revenue cells rendered in euro. */
  lemma TableArithmetic(es: seq<Entry>)
    ensures var rows := RenderAll(Table(es));
      forall i :: 0 <= i < |rows| ==> ShowsArithmetic(rows[i])
  {
    TableConsistent(es);
    RenderAllArithmetic(Table(es));
  }

  /** Every row of the table, the total included, keeps the row arithmetic. */
  lemma TableConsistent(es: seq<Entry>)
    ensures forall i :: 0 <= i < |Table(es)| ==> Consistent(Table(es)[i])
  {
    RowsForConsistent(es, Keys(es));
    WithTotalConsistent(BucketRows(es));
  }

  /** Every bucket row keeps the row arithmetic. */
  lemma RowsForConsistent(es: seq<Entry>, ks: seq<string>)
    ensures forall i :: 0 <= i < |RowsFor(es, ks)| ==> Consistent(RowsFor(es, ks)[i])
  {
  }

  /** Appending the total row to consistent rows keeps them consistent. */
  lemma WithTotalConsistent(rows: seq<Row>)
    requires forall i :: 0 <= i < |rows| ==> Consistent(rows[i])
    ensures forall i :: 0 <= i < |WithTotal(rows)| ==> Consistent(WithTotal(rows)[i])
  {
    TotalRowConsistent(rows);
  }

  /** Rendering consistent rows shows their arithmetic. */
  lemma RenderAllArithmetic(rows: seq<Row>)
    requires forall i :: 0 <= i < |rows| ==> Consistent(rows[i])
    ensures forall i :: 0 <= i < |RenderAll(rows)| ==> ShowsArithmetic(RenderAll(rows)[i])
  {
    forall i | 0 <= i < |rows| ensures ShowsArithmetic(RenderAll(rows)[i]) {
      RenderKeepsArithmetic(rows[i]);
    }
  }

  /** Rendering a consistent row shows its arithmetic. */
  lemma RenderKeepsArithmetic(r: Row)
    requires Consistent(r)
    ensures ShowsArithmetic(Render(r))
  {
  }

  /** The summary reports the values of the table's last row: its adults,
      children and customers, and its total revenue cell. */
  lemma AnalysisSummary(nClicks: int, selected: Option<string>, recs: seq<Record>)
    requires CallbackRuns(nClicks, selected, recs)
    requires nClicks != 0 && Filtered(recs, selected) != []
    ensures var out := Analysis(nClicks, selected, recs);
      var t := out.table[|out.table| - 1];
      out.summary == "Totali: Adulti=" + IntToString(t.adulti) + ", Bambini=" + IntToString(t.bambini)
        + ", Clienti=" + IntToString(t.totale) + ", Incasso=" + t.incassoTotale
  {
    var out := Analysis(nClicks, selected, recs);
    var t := TotalRow(BucketRows(Entries(Filtered(recs, selected))));
    AnalysisTable(nClicks, selected, recs);
    assert out.summary == Summary(t);
    SummaryOfRendered(t);
  }

  /** The summary of a row reads its rendered total revenue cell. */
  lemma SummaryOfRendered(t: Row)
    ensures Summary(t) == "Totali: Adulti=" + IntToString(t.adulti) + ", Bambini=" + IntToString(t.bambini)
      + ", Clienti=" + IntToString(t.totale) + ", Incasso=" + Render(t).incassoTotale
  {
    var s := "Totali: Adulti=" + IntToString(t.adulti) + ", Bambini=" + IntToString(t.bambini)
      + ", Clienti=" + IntToString(t.totale) + ", Incasso=";
    assert Summary(t) == s + (IntToString(t.incassoTotale) + " \U{20AC}");
  }

  /** The chart shows every table row but the last: the bucket labels and
      their adults and children, none of them the total. */
  lemma AnalysisChart(nClicks: int, selected: Option<string>, recs: seq<Record>)
    requires CallbackRuns(nClicks, selected, recs)
    requires nClicks != 0 && Filtered(recs, selected) != []
    ensures var out := Analysis(nClicks, selected, recs);
      var n := |out.table| - 1;
      && out.figure.BarChart?
      && |out.figure.x| == |out.figure.adulti| == |out.figure.bambini| == n
      && n == |Keys(Entries(Filtered(recs, selected)))|
      && (forall i :: 0 <= i < n ==>
            && out.figure.x[i] == out.table[i].fascia != TotalLabel
            && out.figure.adulti[i] == out.table[i].adulti
            && out.figure.bambini[i] == out.table[i].bambini)
  {
    var out := Analysis(nClicks, selected, recs);
    AnalysisTable(nClicks, selected, recs);
    assert out.figure == Chart(out.table, selected);
    ChartOfRows(out.table, selected);
  }

  /** A chart drawn from a table shows every row but the last one. */
  lemma ChartOfRows(rows: seq<TableRow>, selected: Option<string>)
    requires |rows| >= 1
    ensures var f := Chart(rows, selected);
      && f.BarChart?
      && |f.x| == |f.adulti| == |f.bambini| == |rows| - 1
      && (forall i :: 0 <= i < |rows| - 1 ==>
            f.x[i] == rows[i].fascia && f.adulti[i] == rows[i].adulti && f.bambini[i] == rows[i].bambini)
      && f.title == "Clienti per Fascia Oraria (" + SelectionText(selected) + ")"
  {
  }
}
