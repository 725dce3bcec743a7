/**
  What one press of "Analizza" computes, in stats_clienti_web.py
  (`aggiorna_analisi`): the records kept for the selected date, their
  half-hour buckets, the adults and children per bucket with the derived
  counts and revenues, the `TOTALE` row, the rendered table, the one-line
  summary and the chart series; and the options of the date dropdown.
  These functions state the result; the Callback module computes it step
  by step.
*/
module Report {
  import opened Wrappers
  import opened Text
  import opened PyInt
  import opened Fascia

  /** One fetched document, as a row of the table: its `data`, `orario`
      and `descrizione` fields. */
  datatype Record = Record(data: Cell, orario: Cell, descrizione: string)

  const AdultPrice := 3
  const ChildPrice := 2
  const TotalLabel := "TOTALE"
  const AllDates := "all"
  const NoDataMessage := "Nessun dato disponibile per la selezione."

  // ---------------------------------------------------------------------
  // Steps 1 to 3: filter, bucket, classify
  // ---------------------------------------------------------------------

  /** Whether `dati[dati['data'] == selected_date]` keeps `r`; `'all'` keeps
      every record and a cleared dropdown (`None`) equals no date. */
  predicate Keep(r: Record, selected: Option<string>)
  {
    selected == Some(AllDates) || (selected.Some? && r.data == Str(selected.value))
  }

  /** The records the analysis works on, in their original order, each as
      often as it occurs (stated by `FilteredKeepsDuplicates` and
      `FilteredInOrder`). */
  function Filtered(recs: seq<Record>, selected: Option<string>): (kept: seq<Record>)
    ensures forall r :: r in kept <==> r in recs && Keep(r, selected)
    ensures |kept| <= |recs|
    ensures selected == Some(AllDates) ==> kept == recs
    ensures selected.None? ==> kept == []
  {
    if |recs| == 0 then []
    else
      var last := recs[|recs| - 1];
      var front := recs[..|recs| - 1];
      assert recs == front + [last];
      Filtered(front, selected) + (if Keep(last, selected) then [last] else [])
  }

  /** The bucket of a record: column `fascia`. */
  function Label(r: Record): string
  {
    Fascia30Min(FillNa(r.orario))
  }

  /** A record counts under `Bambini` when its lower-cased description
      contains `"bamb"`, and under `Adulti` otherwise. */
  predicate IsChild(r: Record)
  {
    Contains(Lower(r.descrizione), "bamb")
  }

  /** A kept record as the group-by sees it: its `fascia` column and its
      category. */
  datatype Entry = Entry(fascia: string, bambino: bool)

  /** Columns `fascia` (line 98) and the per-record test of lines 102-103. */
  function Entries(d: seq<Record>): (es: seq<Entry>)
    ensures |es| == |d|
    ensures forall i :: 0 <= i < |d| ==> es[i] == Entry(Label(d[i]), IsChild(d[i]))
  {
    seq(|d|, i requires 0 <= i < |d| => Entry(Label(d[i]), IsChild(d[i])))
  }

  // ---------------------------------------------------------------------
  // Step 4: group by bucket
  // ---------------------------------------------------------------------

  /** Entries in bucket `bucket` that are children (`child`) or adults. */
  function Count(es: seq<Entry>, bucket: string, child: bool): nat
  {
    if |es| == 0 then 0
    else
      var last := es[|es| - 1];
      Count(es[..|es| - 1], bucket, child) + (if last.fascia == bucket && last.bambino == child then 1 else 0)
  }

  /** Entries in bucket `bucket`. */
  function CountLabel(es: seq<Entry>, bucket: string): nat
  {
    if |es| == 0 then 0
    else CountLabel(es[..|es| - 1], bucket) + (if es[|es| - 1].fascia == bucket then 1 else 0)
  }

  /** Entries that are children (`child`) or adults. */
  function CountKind(es: seq<Entry>, child: bool): nat
  {
    if |es| == 0 then 0
    else CountKind(es[..|es| - 1], child) + (if es[|es| - 1].bambino == child then 1 else 0)
  }

  /** Entries whose bucket is one of `labels` and whose kind is `child`. */
  function CountIn(es: seq<Entry>, labels: seq<string>, child: bool): nat
  {
    if |es| == 0 then 0
    else
      var last := es[|es| - 1];
      CountIn(es[..|es| - 1], labels, child) + (if last.fascia in labels && last.bambino == child then 1 else 0)
  }

  /** The group keys of `groupby('fascia')`: the buckets, ascending (their
      members are stated by `KeysMembers`). */
  function Keys(es: seq<Entry>): (ks: seq<string>)
    ensures Sorted(ks)
  {
    if |es| == 0 then [] else Insert(Keys(es[..|es| - 1]), es[|es| - 1].fascia)
  }

  /** The group keys are exactly the buckets some entry falls in. */
  lemma {:induction false} KeysMembers(es: seq<Entry>)
    ensures forall b :: b in Keys(es) <==> exists i :: 0 <= i < |es| && es[i].fascia == b
  {
    if |es| > 0 {
      var front := es[..|es| - 1];
      KeysMembers(front);
      assert forall i :: 0 <= i < |es| - 1 ==> front[i] == es[i];
    }
  }

  /** A row of `fasce`, before the revenue columns are rendered as text. */
  datatype Row = Row(fascia: string, adulti: int, bambini: int, totale: int,
                     incassoAdulti: int, incassoBambini: int, incassoTotale: int)

  /** What lines 109-112 make true of each row, and what the `TOTALE` row
      keeps. */
  predicate Consistent(r: Row)
  {
    && r.totale == r.adulti + r.bambini
    && r.incassoAdulti == AdultPrice * r.adulti
    && r.incassoBambini == ChildPrice * r.bambini
    && r.incassoTotale == r.incassoAdulti + r.incassoBambini
  }

  /** A bucket row: the two counts and the columns derived from them. */
  function BucketRow(bucket: string, adults: int, children: int): Row
  {
    var incassoAdulti := adults * AdultPrice;
    var incassoBambini := children * ChildPrice;
    Row(bucket, adults, children, adults + children,
        incassoAdulti, incassoBambini, incassoAdulti + incassoBambini)
  }

  /** The rows for the buckets `ks`. */
  function RowsFor(es: seq<Entry>, ks: seq<string>): seq<Row>
  {
    seq(|ks|, i requires 0 <= i < |ks| => BucketRow(ks[i], Count(es, ks[i], false), Count(es, ks[i], true)))
  }

  /** The aggregated table before its total row. */
  function BucketRows(es: seq<Entry>): seq<Row>
  {
    RowsFor(es, Keys(es))
  }

  // ---------------------------------------------------------------------
  // Step 5: total row, rendering, summary, chart
  // ---------------------------------------------------------------------

  datatype Column = Adulti | Bambini | Totale | IncassoAdulti | IncassoBambini | IncassoTotale

  function Field(r: Row, c: Column): int
  {
    match c
    case Adulti => r.adulti
    case Bambini => r.bambini
    case Totale => r.totale
    case IncassoAdulti => r.incassoAdulti
    case IncassoBambini => r.incassoBambini
    case IncassoTotale => r.incassoTotale
  }

  /** `fasce[c].sum()`. */
  function ColumnSum(rows: seq<Row>, c: Column): int
  {
    if |rows| == 0 then 0 else ColumnSum(rows[..|rows| - 1], c) + Field(rows[|rows| - 1], c)
  }

  /** `tot_row`. */
  function TotalRow(rows: seq<Row>): Row
  {
    Row(TotalLabel, ColumnSum(rows, Adulti), ColumnSum(rows, Bambini), ColumnSum(rows, Totale),
        ColumnSum(rows, IncassoAdulti), ColumnSum(rows, IncassoBambini), ColumnSum(rows, IncassoTotale))
  }

  /** Rows followed by their total row. */
  function WithTotal(rows: seq<Row>): seq<Row>
  {
    rows + [TotalRow(rows)]
  }

  /** The table: the bucket rows, then the total row. */
  function Table(es: seq<Entry>): seq<Row>
  {
    WithTotal(BucketRows(es))
  }

  /** `f"{x} €"`. */
  function Euro(v: int): string
  {
    IntToString(v) + " \U{20AC}"
  }

  /** A row as the DataTable shows it: the revenue columns as text. */
  datatype TableRow = TableRow(fascia: string, adulti: int, bambini: int, totale: int,
                               incassoAdulti: string, incassoBambini: string, incassoTotale: string)

  function Render(r: Row): TableRow
  {
    TableRow(r.fascia, r.adulti, r.bambini, r.totale,
             Euro(r.incassoAdulti), Euro(r.incassoBambini), Euro(r.incassoTotale))
  }

  function RenderAll(rows: seq<Row>): (out: seq<TableRow>)
    ensures |out| == |rows|
    ensures forall i :: 0 <= i < |rows| ==> out[i] == Render(rows[i])
  {
    seq(|rows|, i requires 0 <= i < |rows| => Render(rows[i]))
  }

  /** `analisi_text`, read off the total row. */
  function Summary(t: Row): string
  {
    "Totali: Adulti=" + IntToString(t.adulti) + ", Bambini=" + IntToString(t.bambini)
      + ", Clienti=" + IntToString(t.totale) + ", Incasso=" + IntToString(t.incassoTotale) + " \U{20AC}"
  }

  /** Python's `s[:-1]`. */
  function AllButLast<T>(s: seq<T>): (r: seq<T>)
    ensures |r| == if |s| == 0 then 0 else |s| - 1
    ensures forall i :: 0 <= i < |r| ==> r[i] == s[i]
  {
    if |s| == 0 then [] else s[..|s| - 1]
  }

  /** The part of the figure the model keeps: the x values and the two
      stacked series, and the title. */
  datatype Figure = NoFigure | BarChart(x: seq<string>, adulti: seq<int>, bambini: seq<int>, title: string)

  /** `f'...({selected_date})'`. */
  function SelectionText(selected: Option<string>): string
  {
    match selected
    case Some(s) => s
    case None => "None"
  }

  function Chart(rows: seq<TableRow>, selected: Option<string>): Figure
  {
    var shown := AllButLast(rows);
    BarChart(seq(|shown|, i requires 0 <= i < |shown| => shown[i].fascia),
             seq(|shown|, i requires 0 <= i < |shown| => shown[i].adulti),
             seq(|shown|, i requires 0 <= i < |shown| => shown[i].bambini),
             "Clienti per Fascia Oraria (" + SelectionText(selected) + ")")
  }

  /** The callback's three outputs: figure, table data, summary text. */
  datatype Outputs = Outputs(figure: Figure, table: seq<TableRow>, summary: string)

  predicate HasDateColumn(recs: seq<Record>)
  {
    exists i :: 0 <= i < |recs| && !recs[i].data.Absent?
  }

  predicate HasTimeColumn(recs: seq<Record>)
  {
    exists i :: 0 <= i < |recs| && !recs[i].orario.Absent?
  }

  /** The callback gets past its column lookups: `dati['data']` at line 84
      and `dati['orario']` at line 90 raise `KeyError` when no document has
      that field. */
  predicate CallbackRuns(nClicks: int, selected: Option<string>, recs: seq<Record>)
  {
    && (nClicks != 0 && selected != Some(AllDates) ==> HasDateColumn(recs))
    && (nClicks != 0 && |Filtered(recs, selected)| > 0 ==> HasTimeColumn(recs))
  }

  /** The body of `aggiorna_analisi(n_clicks, selected_date)` over the
      fetched records. */
  function Analysis(nClicks: int, selected: Option<string>, recs: seq<Record>): Outputs
    requires CallbackRuns(nClicks, selected, recs)
  {
    if nClicks == 0 then Outputs(NoFigure, [], "")
    else
      var dati := Filtered(recs, selected);
      if |dati| == 0 then Outputs(NoFigure, [], NoDataMessage)
      else
        var es := Entries(dati);
        var fasce := RenderAll(Table(es));
        Outputs(Chart(fasce, selected), fasce, Summary(TotalRow(BucketRows(es))))
  }

  // ---------------------------------------------------------------------
  // The date dropdown (line 29)
  // ---------------------------------------------------------------------

  /** `sorted(df['data'].dropna().unique())`. */
  function Dates(recs: seq<Record>): (ds: seq<string>)
    ensures Sorted(ds)
    ensures forall s :: s in ds <==> exists i :: 0 <= i < |recs| && recs[i].data == Str(s)
  {
    if |recs| == 0 then []
    else
      var front := recs[..|recs| - 1];
      var ds := Dates(front);
      assert forall i :: 0 <= i < |recs| - 1 ==> front[i] == recs[i];
      match recs[|recs| - 1].data
      case Str(s) => Insert(ds, s)
      case _ => ds
  }

  datatype DropdownOption = DropdownOption(caption: string, value: string)

  /** The dropdown's options: each date once, ascending, as its own label,
      then `'all'` labelled "Tutti i dati". Sorting raises `TypeError` when
      strings and other values are mixed, and `df['data']` raises `KeyError`
      when no document has a date. */
  function DropdownOptions(recs: seq<Record>): (opts: seq<DropdownOption>)
    requires HasDateColumn(recs)
    requires forall i :: 0 <= i < |recs| ==> !recs[i].data.NonStr?
    ensures |opts| >= 1 && opts[|opts| - 1] == DropdownOption("Tutti i dati", AllDates)
    ensures forall i :: 0 <= i < |opts| - 1 ==> opts[i].caption == opts[i].value
    ensures forall i, j :: 0 <= i < j < |opts| - 1 ==> Less(opts[i].value, opts[j].value)
    ensures forall s :: (exists i :: 0 <= i < |opts| - 1 && opts[i].value == s) <==>
      (exists k :: 0 <= k < |recs| && recs[k].data == Str(s))
  {
    var ds := Dates(recs);
    var opts := seq(|ds|, i requires 0 <= i < |ds| => DropdownOption(ds[i], ds[i]))
      + [DropdownOption("Tutti i dati", AllDates)];
    forall s ensures (exists i :: 0 <= i < |opts| - 1 && opts[i].value == s) <==> s in ds {
      if s in ds {
        var i :| 0 <= i < |ds| && ds[i] == s;
        assert opts[i].value == s;
      }
    }
    opts
  }
}
