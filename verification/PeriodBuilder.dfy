/** Building a period-comparison payload from the rows of its periods. */
module PeriodBuilder {
  import opened Sorting
  import opened Texts
  import opened JsonText
  import opened Periods
  import opened PeriodArtifact
  import opened PeriodVerifier

  /** The rendered tables of a report other than its trend, as lists of records. */
  datatype Tables = Tables(
    summary: seq<map<string, Json>>, counts: seq<map<string, Json>>, themes: seq<map<string, Json>>)

  function ObjectList(records: seq<map<string, Json>>): (v: Json)
    ensures Records(v)
  {
    Arr(seq(|records|, i requires 0 <= i < |records| => Obj(records[i])))
  }

  function IntList(ns: seq<nat>): Json { Arr(seq(|ns|, i requires 0 <= i < |ns| => Int(ns[i]))) }

  /** A column that holds a double holds doubles throughout. */
  function CompletionColumn(rows: seq<TrendRow>): (column: seq<Json>)
    ensures |column| == |rows|
  {
    var doubles := exists i :: 0 <= i < |rows| && rows[i].completion.Float?;
    seq(|rows|, i requires 0 <= i < |rows| =>
      if doubles && !rows[i].completion.Float? then Float(ZERO_TEXT) else rows[i].completion)
  }

  function TrendRecord(row: TrendRow, completion: Json): map<string, Json> {
    map[
      "period" := Str(row.period),
      "period_path" := Str(row.path),
      "exception_count" := Int(row.exceptions),
      "unique_exception_count" := Int(row.unique),
      "new_count" := Int(row.added),
      "recurring_count" := Int(row.recurring),
      "resolved_since_previous_count" := Int(row.resolved),
      "high_or_critical_count" := Int(row.highOrCritical),
      "reviewed_count" := Int(row.reviewed),
      "review_completion_percent" := completion,
      "accepted_risk_count" := Int(row.acceptedRisk),
      "escalated_count" := Int(row.escalated)]
  }

  function TrendRecords(rows: seq<TrendRow>): seq<map<string, Json>> {
    var completion := CompletionColumn(rows);
    seq(|rows|, i requires 0 <= i < |rows| => TrendRecord(rows[i], completion[i]))
  }

  function Column(rows: seq<TrendRow>, f: TrendRow -> nat): Json {
    IntList(seq(|rows|, i requires 0 <= i < |rows| => f(rows[i])))
  }

  function ChartData(rows: seq<TrendRow>): Json {
    Obj(map[
      "labels" := StrList(seq(|rows|, i requires 0 <= i < |rows| => rows[i].period)),
      "new" := Column(rows, (r: TrendRow) => r.added),
      "recurring" := Column(rows, (r: TrendRow) => r.recurring),
      "resolved" := Column(rows, (r: TrendRow) => r.resolved),
      "high_or_critical" := Column(rows, (r: TrendRow) => r.highOrCritical),
      "review_completion_percent" := Arr(CompletionColumn(rows)),
      "accepted_risk" := Column(rows, (r: TrendRow) => r.acceptedRisk),
      "escalated" := Column(rows, (r: TrendRow) => r.escalated)])
  }

  function TrendPart(rows: seq<TrendRow>, tables: Tables): Json {
    Obj(map[
      "periods" := ObjectList(TrendRecords(rows)),
      "chart_data" := ChartData(rows),
      "top_recurring_themes" := ObjectList(tables.themes)])
  }

  function RowRecord(row: Row, category: string, period: string): Json {
    Obj(row.columns["comparison_category" := Str(category)]["comparison_period" := Str(period)]["comparison_key" := Str(row.key)])
  }

  function RowRecords(rows: seq<Row>, category: string, period: string): (v: Json)
    ensures Records(v)
  {
    Arr(seq(|rows|, i requires 0 <= i < |rows| => RowRecord(rows[i], category, period)))
  }

  /** The representative rows of one exception list. */
  function ExceptionList(rows: seq<Row>, keys: set<string>, category: string, period: string): (v: Json)
    ensures Records(v)
  {
    RowRecords(Representatives(rows, keys), category, period)
  }

  /** The part of the payload that does not depend on the exception lists. */
  function ReportPart(financial: Json, folders: seq<Folder>, paths: seq<string>, rows: seq<TrendRow>, tables: Tables): map<string, Json> {
    map[
      "schema_version" := Int(SCHEMA_VERSION),
      "artifact_type" := Str(ARTIFACT_TYPE),
      "financial_input_policy" := financial,
      "comparison_policy" := ComparisonPolicy(financial),
      "input_periods" := Arr(InputManifest(folders)),
      "integrity_boundary" := Str(INTEGRITY_BOUNDARY),
      "periods" := StrList(paths),
      "summary" := ObjectList(tables.summary),
      "period_counts" := ObjectList(tables.counts),
      "trend" := TrendPart(rows, tables)]
  }

  /** The five exception lists. */
  function ListPart(current: seq<Row>, prior: seq<Row>, c: Comparison): map<string, Json> {
    map[
      "new_exceptions" := ExceptionList(current, c.added, "new", "current"),
      "recurring_exceptions" := ExceptionList(current, c.recurring, "recurring", "current"),
      "resolved_exceptions" := ExceptionList(prior, c.resolved, "resolved", "prior"),
      "escalated_exceptions" := ExceptionList(current, c.escalated, "escalated", "current"),
      "accepted_risk_items" := ExceptionList(current, c.acceptedRisk, "accepted_risk", "current")]
  }

  function BuildPayload(financial: Json, folders: seq<Folder>, paths: seq<string>, percent: Percent, frames: seq<Frame>, tables: Tables): map<string, Json>
    requires |frames| >= 2
  {
    ReportPart(financial, folders, paths, Trend(percent, frames), tables) + ListPart(Current(frames), Prior(frames), Compare(frames))
  }

  ghost predicate ReportFields(p: map<string, Json>, financial: Json, folders: seq<Folder>) {
    && "artifact_digest" !in p
    && Get(p, "schema_version") == Int(SCHEMA_VERSION)
    && Get(p, "artifact_type") == Str(ARTIFACT_TYPE)
    && Get(p, "financial_input_policy") == financial
    && Get(p, "comparison_policy") == ComparisonPolicy(financial)
    && Get(p, "integrity_boundary") == Str(INTEGRITY_BOUNDARY)
    && Get(p, "input_periods") == Arr(InputManifest(folders))
    && Get(p, "trend").Obj? && Records(ListOf(p, "period_counts")) && Records(ListOf(TrendOf(p), "periods"))
  }

  ghost predicate ListFields(p: map<string, Json>, current: seq<Row>, prior: seq<Row>, c: Comparison) {
    && ListOf(p, LISTS[0]) == ExceptionList(current, c.added, "new", "current")
    && ListOf(p, LISTS[1]) == ExceptionList(current, c.recurring, "recurring", "current")
    && ListOf(p, LISTS[2]) == ExceptionList(prior, c.resolved, "resolved", "prior")
    && ListOf(p, LISTS[3]) == ExceptionList(current, c.escalated, "escalated", "current")
    && ListOf(p, LISTS[4]) == ExceptionList(current, c.acceptedRisk, "accepted_risk", "current")
  }

  lemma TrendPartShape(rows: seq<TrendRow>, tables: Tables)
    ensures TrendPart(rows, tables).Obj? && Records(GetOr(TrendPart(rows, tables).fields, "periods", Arr([])))
  {
    hide ChartData, TrendRecords, Records;
  }

  lemma ListPartFields(current: seq<Row>, prior: seq<Row>, c: Comparison)
    ensures ListFields(ListPart(current, prior, c), current, prior, c)
  {
    hide ExceptionList, Records;
  }

  lemma ReportPartFields(financial: Json, folders: seq<Folder>, paths: seq<string>, rows: seq<TrendRow>, tables: Tables)
    ensures ReportFields(ReportPart(financial, folders, paths, rows, tables), financial, folders)
  {
    hide ComparisonPolicy, ExceptionList, InputManifest, ObjectList, StrList, Records, ChartData, TrendRecords, IsFloatText;
    TrendPartShape(rows, tables);
  }

  lemma ListKeys(current: seq<Row>, prior: seq<Row>, c: Comparison)
    ensures ListPart(current, prior, c).Keys
         == {"new_exceptions", "recurring_exceptions", "resolved_exceptions", "escalated_exceptions", "accepted_risk_items"}
  {
    hide ExceptionList;
  }

  lemma ReportKept(report: map<string, Json>, lists: map<string, Json>, financial: Json, folders: seq<Folder>)
    requires ReportFields(report, financial, folders)
    requires lists.Keys
          == {"new_exceptions", "recurring_exceptions", "resolved_exceptions", "escalated_exceptions", "accepted_risk_items"}
    ensures ReportFields(report + lists, financial, folders)
  {
    hide ComparisonPolicy, InputManifest, Records;
  }

  lemma ListsKept(report: map<string, Json>, lists: map<string, Json>, current: seq<Row>, prior: seq<Row>, c: Comparison)
    requires ListFields(lists, current, prior, c) && forall i :: 0 <= i < |LISTS| ==> LISTS[i] in lists
    ensures ListFields(report + lists, current, prior, c)
  {
    hide ExceptionList;
  }

  lemma BuiltFields(financial: Json, folders: seq<Folder>, paths: seq<string>, percent: Percent, frames: seq<Frame>, tables: Tables)
    requires |frames| >= 2
    ensures var p := BuildPayload(financial, folders, paths, percent, frames, tables);
      ReportFields(p, financial, folders) && ListFields(p, Current(frames), Prior(frames), Compare(frames))
  {
    hide ReportFields, ListFields, ReportPart, ListPart, Current, Prior, Compare;
    var current, prior, c := Current(frames), Prior(frames), Compare(frames);
    var rows := Trend(percent, frames);
    var report, lists := ReportPart(financial, folders, paths, rows, tables), ListPart(current, prior, c);
    ReportPartFields(financial, folders, paths, rows, tables);
    ListPartFields(current, prior, c);
    ListKeys(current, prior, c);
    ReportKept(report, lists, financial, folders);
    ListsKept(report, lists, current, prior, c);
  }

  lemma ListsDecidable(p: map<string, Json>, financial: Json, folders: seq<Folder>, current: seq<Row>, prior: seq<Row>, c: Comparison)
    requires ReportFields(p, financial, folders) && ListFields(p, current, prior, c)
    ensures Decidable(p)
  {
    hide Records, ExceptionList, TrendOf, ListOf;
    assert Records(ListOf(p, LISTS[0])) && Records(ListOf(p, LISTS[1])) && Records(ListOf(p, LISTS[2]));
    assert Records(ListOf(p, LISTS[3])) && Records(ListOf(p, LISTS[4])) && |LISTS| == 5;
    forall i | 0 <= i < |LISTS| ensures Records(ListOf(p, LISTS[i])) {
      assert i == 0 || i == 1 || i == 2 || i == 3 || i == 4;
    }
  }

  // ----- what the built tables show

  /** Row i of the digested trend, column by column. */
  lemma TrendRecordMeans(rows: seq<TrendRow>, i: nat)
    requires i < |rows|
    ensures |TrendRecords(rows)| == |rows|
    ensures var f, row := TrendRecords(rows)[i], rows[i];
      && f.Keys == {"period", "period_path", "exception_count", "unique_exception_count", "new_count", "recurring_count",
                    "resolved_since_previous_count", "high_or_critical_count", "reviewed_count", "review_completion_percent",
                    "accepted_risk_count", "escalated_count"}
      && f["period"] == Str(row.period) && f["period_path"] == Str(row.path)
      && f["exception_count"] == Int(row.exceptions) && f["unique_exception_count"] == Int(row.unique)
      && f["new_count"] == Int(row.added) && f["recurring_count"] == Int(row.recurring)
      && f["resolved_since_previous_count"] == Int(row.resolved)
      && f["high_or_critical_count"] == Int(row.highOrCritical) && f["reviewed_count"] == Int(row.reviewed)
      && f["accepted_risk_count"] == Int(row.acceptedRisk) && f["escalated_count"] == Int(row.escalated)
      && f["review_completion_percent"]
        == if row.completion.Float? || forall j :: 0 <= j < |rows| ==> !rows[j].completion.Float? then row.completion
           else Float(ZERO_TEXT)
  {
    hide TrendRecord, IsFloatText;
    RecordColumns(rows[i], CompletionColumn(rows)[i]);
  }

  lemma RecordColumns(row: TrendRow, completion: Json)
    ensures var f := TrendRecord(row, completion);
      && f.Keys == {"period", "period_path", "exception_count", "unique_exception_count", "new_count", "recurring_count",
                    "resolved_since_previous_count", "high_or_critical_count", "reviewed_count", "review_completion_percent",
                    "accepted_risk_count", "escalated_count"}
      && f["period"] == Str(row.period) && f["period_path"] == Str(row.path)
      && f["exception_count"] == Int(row.exceptions) && f["unique_exception_count"] == Int(row.unique)
      && f["new_count"] == Int(row.added) && f["recurring_count"] == Int(row.recurring)
      && f["resolved_since_previous_count"] == Int(row.resolved)
      && f["high_or_critical_count"] == Int(row.highOrCritical) && f["reviewed_count"] == Int(row.reviewed)
      && f["accepted_risk_count"] == Int(row.acceptedRisk) && f["escalated_count"] == Int(row.escalated)
      && f["review_completion_percent"] == completion
  {
    hide IsFloatText;
  }

  /** The tables a payload holds outside its exception lists. */
  lemma BuiltTables(financial: Json, folders: seq<Folder>, paths: seq<string>, percent: Percent, frames: seq<Frame>, tables: Tables)
    requires |frames| >= 2
    ensures var p, rows := BuildPayload(financial, folders, paths, percent, frames, tables), Trend(percent, frames);
      && HoldsRecords(Get(p, "summary"), tables.summary) && HoldsRecords(Get(p, "period_counts"), tables.counts)
      && Get(p, "periods").Arr? && |Get(p, "periods").items| == |paths|
      && (forall i :: 0 <= i < |paths| ==> Get(p, "periods").items[i] == Str(paths[i]))
      && Get(p, "trend").Obj?
      && var trend := Get(p, "trend").fields;
        && trend.Keys == {"periods", "chart_data", "top_recurring_themes"}
        && HoldsRecords(Get(trend, "periods"), TrendRecords(rows)) && Get(trend, "chart_data") == ChartData(rows)
        && HoldsRecords(Get(trend, "top_recurring_themes"), tables.themes)
  {
    hide ReportPart, ListPart, Trend, TrendPart, HoldsRecords, ChartData, TrendRecords, IsFloatText;
    var rows := Trend(percent, frames);
    var report, lists := ReportPart(financial, folders, paths, rows, tables), ListPart(Current(frames), Prior(frames), Compare(frames));
    ListKeys(Current(frames), Prior(frames), Compare(frames));
    ReportTables(financial, folders, paths, rows, tables);
    TrendTables(rows, tables);
    assert forall k :: k in {"summary", "period_counts", "periods", "trend"} ==> Get(report + lists, k) == Get(report, k);
  }

  lemma ReportTables(financial: Json, folders: seq<Folder>, paths: seq<string>, rows: seq<TrendRow>, tables: Tables)
    ensures var p := ReportPart(financial, folders, paths, rows, tables);
      && HoldsRecords(Get(p, "summary"), tables.summary) && HoldsRecords(Get(p, "period_counts"), tables.counts)
      && Get(p, "periods").Arr? && |Get(p, "periods").items| == |paths|
      && (forall i :: 0 <= i < |paths| ==> Get(p, "periods").items[i] == Str(paths[i]))
      && Get(p, "trend") == TrendPart(rows, tables)
  {
    hide ComparisonPolicy, InputManifest, TrendPart, IsFloatText;
  }

  lemma TrendTables(rows: seq<TrendRow>, tables: Tables)
    ensures var t := TrendPart(rows, tables);
      && t.Obj? && t.fields.Keys == {"periods", "chart_data", "top_recurring_themes"}
      && HoldsRecords(Get(t.fields, "periods"), TrendRecords(rows)) && Get(t.fields, "chart_data") == ChartData(rows)
      && HoldsRecords(Get(t.fields, "top_recurring_themes"), tables.themes)
  {
    hide ChartData, TrendRecords, IsFloatText;
  }

  predicate HoldsRecords(v: Json, records: seq<map<string, Json>>) {
    v.Arr? && |v.items| == |records| && forall i :: 0 <= i < |records| ==> v.items[i] == Obj(records[i])
  }

  /** The chart repeats the columns of the trend. */
  lemma ChartMeans(rows: seq<TrendRow>, i: nat)
    requires i < |rows|
    ensures var chart, f := ChartData(rows).fields, TrendRecords(rows)[i];
      && ShowsAt(chart, "labels", i, |rows|, Get(f, "period"))
      && ShowsAt(chart, "new", i, |rows|, Get(f, "new_count"))
      && ShowsAt(chart, "recurring", i, |rows|, Get(f, "recurring_count"))
      && ShowsAt(chart, "resolved", i, |rows|, Get(f, "resolved_since_previous_count"))
      && ShowsAt(chart, "high_or_critical", i, |rows|, Get(f, "high_or_critical_count"))
      && ShowsAt(chart, "review_completion_percent", i, |rows|, Get(f, "review_completion_percent"))
      && ShowsAt(chart, "accepted_risk", i, |rows|, Get(f, "accepted_risk_count"))
      && ShowsAt(chart, "escalated", i, |rows|, Get(f, "escalated_count"))
  {
    hide CompletionColumn, TrendRecord, IsFloatText;
    RecordColumns(rows[i], CompletionColumn(rows)[i]);
  }

  predicate ShowsAt(chart: map<string, Json>, key: string, i: nat, n: nat, v: Json) {
    var list := Get(chart, key);
    list.Arr? && |list.items| == n && i < n && list.items[i] == v
  }

  /** A listed exception: the first row of its key, with its category, period and key written over. */
  lemma ListedRow(rows: seq<Row>, keys: set<string>, category: string, period: string, i: nat)
    requires i < |ExceptionList(rows, keys, category, period).items|
    ensures var record := ExceptionList(rows, keys, category, period).items[i];
      && record.Obj?
      && {"comparison_category", "comparison_period", "comparison_key"} <= record.fields.Keys
      && record.fields["comparison_category"] == Str(category) && record.fields["comparison_period"] == Str(period)
      && exists j: nat ::
        && IsFirst(rows, j) && rows[j].key in keys
        && record.fields["comparison_key"] == Str(rows[j].key)
        && record.fields - {"comparison_category", "comparison_period", "comparison_key"}
          == rows[j].columns - {"comparison_category", "comparison_period", "comparison_key"}
  {
    hide Representatives, FirstIndex;
    RepresentativesFirst(rows, keys);
    var reps := Representatives(rows, keys);
    var j := FirstIndex(rows, reps[i].key);
    assert reps[i].key in Keys(reps);
    OverwrittenOnly(rows[j], category, period);
    assert IsFirst(rows, j);
  }

  predicate IsFirst(rows: seq<Row>, j: nat) { j < |rows| && forall i :: 0 <= i < j ==> rows[i].key != rows[j].key }

  lemma OverwrittenOnly(row: Row, category: string, period: string)
    ensures var record := RowRecord(row, category, period);
      && record.Obj? && {"comparison_category", "comparison_period", "comparison_key"} <= record.fields.Keys
      && record.fields["comparison_category"] == Str(category) && record.fields["comparison_period"] == Str(period)
      && record.fields["comparison_key"] == Str(row.key)
      && record.fields - {"comparison_category", "comparison_period", "comparison_key"}
        == row.columns - {"comparison_category", "comparison_period", "comparison_key"}
  {
  }

  // ----- finite inputs build finite payloads

  ghost predicate FiniteRows(rows: seq<Row>) { forall i :: 0 <= i < |rows| ==> AllFinite(Obj(rows[i].columns)) }

  ghost predicate FiniteFrames(frames: seq<Frame>) { forall i :: 0 <= i < |frames| ==> FiniteRows(frames[i].rows) }

  ghost predicate FiniteTables(tables: Tables) {
    AllFinite(ObjectList(tables.summary)) && AllFinite(ObjectList(tables.counts)) && AllFinite(ObjectList(tables.themes))
  }

  lemma FiniteWithText(m: map<string, Json>, key: string, s: string)
    requires AllFinite(Obj(m))
    ensures AllFinite(Obj(m[key := Str(s)]))
  {
    DroppedFinite(m, key);
    StoredFinite(m, key, s);
  }

  lemma ExceptionListFinite(rows: seq<Row>, keys: set<string>, category: string, period: string)
    requires FiniteRows(rows)
    ensures AllFinite(ExceptionList(rows, keys, category, period))
  {
    hide Representatives, FirstIndex;
    RepresentativesFirst(rows, keys);
    var reps := Representatives(rows, keys);
    forall i | 0 <= i < |reps| ensures AllFinite(RowRecord(reps[i], category, period)) {
      assert reps[i] == rows[FirstIndex(rows, reps[i].key)];
      var m := reps[i].columns;
      FiniteWithText(m, "comparison_category", category);
      FiniteWithText(m["comparison_category" := Str(category)], "comparison_period", period);
      FiniteWithText(m["comparison_category" := Str(category)]["comparison_period" := Str(period)], "comparison_key", reps[i].key);
    }
    assert ExceptionList(rows, keys, category, period) == RowRecords(reps, category, period);
  }

  lemma {:induction false} ConcatenatedFinite(frames: seq<Frame>)
    requires FiniteFrames(frames)
    ensures FiniteRows(Concatenated(frames))
  {
    if frames != [] { ConcatenatedFinite(frames[..|frames| - 1]); }
  }

  lemma TextsFinite(texts: seq<string>)
    ensures AllFinite(StrList(texts))
  {
  }

  lemma NumbersFinite(ns: seq<nat>)
    ensures AllFinite(IntList(ns))
  {
  }

  predicate FiniteTrend(rows: seq<TrendRow>) { forall i :: 0 <= i < |rows| ==> AllFinite(rows[i].completion) }

  lemma TrendFinite(percent: Percent, frames: seq<Frame>)
    ensures FiniteTrend(Trend(percent, frames))
  {
    hide Trend;
    forall i | 0 <= i < |frames| ensures AllFinite(Trend(percent, frames)[i].completion) { TrendAt(percent, frames, i); }
  }

  lemma TrendRecordFinite(row: TrendRow, completion: Json)
    requires AllFinite(completion)
    ensures AllFinite(Obj(TrendRecord(row, completion)))
  {
    hide IsFloatText, IsFiniteFloat;
  }

  lemma TrendRecordsFinite(rows: seq<TrendRow>)
    requires FiniteTrend(rows)
    ensures AllFinite(ObjectList(TrendRecords(rows))) && AllFinite(Arr(CompletionColumn(rows)))
  {
    hide TrendRecord;
    var completion := CompletionColumn(rows);
    forall i | 0 <= i < |rows| ensures AllFinite(completion[i]) && AllFinite(Obj(TrendRecords(rows)[i])) {
      TrendRecordFinite(rows[i], completion[i]);
    }
  }

  lemma ChartFinite(rows: seq<TrendRow>)
    requires AllFinite(Arr(CompletionColumn(rows)))
    ensures AllFinite(ChartData(rows))
  {
    hide CompletionColumn, AllFinite, StrList, IntList;
    var chart := ChartData(rows).fields;
    forall k | k in chart && k != "review_completion_percent" ensures AllFinite(chart[k]) {
      if k == "labels" {
        TextsFinite(seq(|rows|, i requires 0 <= i < |rows| => rows[i].period));
      } else {
        var ns: seq<nat> :| chart[k] == IntList(ns);
        NumbersFinite(ns);
      }
    }
    FiniteFields(chart);
  }

  lemma TrendPartFinite(rows: seq<TrendRow>, tables: Tables)
    requires FiniteTrend(rows) && FiniteTables(tables)
    ensures AllFinite(TrendPart(rows, tables))
  {
    hide AllFinite, ChartData, TrendRecords, ObjectList;
    TrendRecordsFinite(rows);
    ChartFinite(rows);
    FiniteFields(TrendPart(rows, tables).fields);
  }

  lemma FilesFinite(folder: Folder, names: seq<string>)
    ensures forall f :: f in FilesOf(folder, names) ==> AllFinite(f)
  {
    if names != [] { FilesFinite(folder, names[..|names| - 1]); }
  }

  lemma ManifestFinite(folders: seq<Folder>)
    ensures AllFinite(Arr(InputManifest(folders)))
  {
    hide FilesOf, FileNames, PeriodLabel;
    forall i | 0 <= i < |folders| ensures AllFinite(PeriodRecord(i, folders[i])) { FilesFinite(folders[i], FileNames()); }
  }

  lemma PolicyFinite(financial: Json)
    ensures AllFinite(ComparisonPolicy(financial))
  {
    hide IsFloatText, IsFiniteFloat;
  }

  lemma ReportPartFinite(financial: Json, folders: seq<Folder>, paths: seq<string>, rows: seq<TrendRow>, tables: Tables)
    requires ValidFinancial(financial) && FiniteTrend(rows) && FiniteTables(tables)
    ensures AllFinite(Obj(ReportPart(financial, folders, paths, rows, tables)))
  {
    hide AllFinite, ObjectList, TrendPart, InputManifest, StrList, ComparisonPolicy;
    PolicyFinite(financial);
    ManifestFinite(folders);
    TextsFinite(paths);
    TrendPartFinite(rows, tables);
    FiniteValues();
    FiniteString(ARTIFACT_TYPE);
    FiniteString(INTEGRITY_BOUNDARY);
    FiniteString(financial.s);
    FiniteFields(ReportPart(financial, folders, paths, rows, tables));
  }

  lemma ListPartFinite(current: seq<Row>, prior: seq<Row>, c: Comparison)
    requires FiniteRows(current) && FiniteRows(prior)
    ensures AllFinite(Obj(ListPart(current, prior, c)))
  {
    hide AllFinite, ExceptionList, FiniteRows;
    ExceptionListFinite(current, c.added, "new", "current");
    ExceptionListFinite(current, c.recurring, "recurring", "current");
    ExceptionListFinite(prior, c.resolved, "resolved", "prior");
    ExceptionListFinite(current, c.escalated, "escalated", "current");
    ExceptionListFinite(current, c.acceptedRisk, "accepted_risk", "current");
    FiniteFields(ListPart(current, prior, c));
  }

  lemma BuiltFinite(financial: Json, folders: seq<Folder>, paths: seq<string>, percent: Percent, frames: seq<Frame>, tables: Tables)
    requires |frames| >= 2 && ValidFinancial(financial) && FiniteFrames(frames) && FiniteTables(tables)
    ensures AllFinite(Obj(BuildPayload(financial, folders, paths, percent, frames, tables)))
  {
    hide AllFinite, ReportPart, ListPart, Trend, FiniteTrend, Compare;
    TrendFinite(percent, frames);
    ConcatenatedFinite(frames[..|frames| - 1]);
    var report := ReportPart(financial, folders, paths, Trend(percent, frames), tables);
    var lists := ListPart(Current(frames), Prior(frames), Compare(frames));
    ReportPartFinite(financial, folders, paths, Trend(percent, frames), tables);
    ListPartFinite(Current(frames), Prior(frames), Compare(frames));
    FiniteFields(report);
    FiniteFields(lists);
    FiniteFields(report + lists);
  }

  // ----- built artifacts

  /** A comparison of finite rows and tables can always be finalized, and whatever is finalized verifies,
      also against its own input folders. */
  lemma BuiltArtifactVerifies(sha256: string -> string, financial: Json, folders: seq<Folder>, paths: seq<string>, percent: Percent, frames: seq<Frame>, tables: Tables)
    requires |frames| >= 2 && ValidFinancial(financial)
    ensures var p := BuildPayload(financial, folders, paths, percent, frames, tables);
      && (FiniteFrames(frames) && FiniteTables(tables) ==> Digestible(p))
      && (Digestible(p) ==> Verified(sha256, Finalized(sha256, p)))
      && (Digestible(p) ==> Get(Finalized(sha256, p), "input_periods") == Arr(InputManifest(folders)))
  {
    hide BuildPayload, ListFields, InputManifest, ValidInputPeriods, Decidable, Verified, DecisionDigest, Digest, Compare,
      AllFinite, FiniteFrames, FiniteTables, PolicyMatches, ComparisonPolicy;
    var p := BuildPayload(financial, folders, paths, percent, frames, tables);
    BuiltFields(financial, folders, paths, percent, frames, tables);
    ListsDecidable(p, financial, folders, Current(frames), Prior(frames), Compare(frames));
    ManifestValid(folders);
    PolicyMatchesItself(financial);
    if FiniteFrames(frames) && FiniteTables(tables) {
      BuiltFinite(financial, folders, paths, percent, frames, tables);
      DroppedFinite(p, "decision_digest");
    }
    if Digestible(p) { FinalizedVerifiesIff(sha256, p); }
  }

  /** The decision of p lists exactly the sorted key sets of c. */
  ghost predicate DecidesKeys(p: map<string, Json>, c: Comparison)
    requires Decidable(p)
  {
    && ComparisonKeys(ListOf(p, LISTS[0])) == StrList(SortedKeys(c.added))
    && ComparisonKeys(ListOf(p, LISTS[1])) == StrList(SortedKeys(c.recurring))
    && ComparisonKeys(ListOf(p, LISTS[2])) == StrList(SortedKeys(c.resolved))
    && ComparisonKeys(ListOf(p, LISTS[3])) == StrList(SortedKeys(c.escalated))
    && ComparisonKeys(ListOf(p, LISTS[4])) == StrList(SortedKeys(c.acceptedRisk))
  }

  /** The decision records exactly the sorted key sets of the comparison. */
  lemma BuiltDecisionKeys(financial: Json, folders: seq<Folder>, paths: seq<string>, percent: Percent, frames: seq<Frame>, tables: Tables)
    requires |frames| >= 2
    ensures var p := BuildPayload(financial, folders, paths, percent, frames, tables);
      Decidable(p) && DecidesKeys(p, Compare(frames))
  {
    hide BuildPayload, ReportFields, ExceptionList, ComparisonKeys, StrList, SortedKeys, Records, Decidable;
    var p, c := BuildPayload(financial, folders, paths, percent, frames, tables), Compare(frames);
    var current, prior := Current(frames), Prior(frames);
    BuiltFields(financial, folders, paths, percent, frames, tables);
    ListsDecidable(p, financial, folders, current, prior, c);
    ListedKeys(current, c.added, "new", "current");
    ListedKeys(current, c.recurring, "recurring", "current");
    ListedKeys(prior, c.resolved, "resolved", "prior");
    ListedKeys(current, c.escalated, "escalated", "current");
    ListedKeys(current, c.acceptedRisk, "accepted_risk", "current");
  }

  lemma ListedKeys(rows: seq<Row>, keys: set<string>, category: string, period: string)
    requires keys <= Keys(rows)
    ensures ComparisonKeys(ExceptionList(rows, keys, category, period)) == StrList(SortedKeys(keys))
  {
    var reps := Representatives(rows, keys);
    RepresentativesFirst(rows, keys);
    KeyTextsOf(reps, category, period);
    assert forall k :: k in KeyList(reps) <==> k in keys by { KeyListMembers(reps); }
    SortedKeysOfAnyOrder(KeyList(reps), keys);
  }

  lemma KeyListMembers(rows: seq<Row>)
    ensures forall k :: k in KeyList(rows) <==> k in Keys(rows)
  {
    forall k | k in Keys(rows) ensures k in KeyList(rows) {
      var r :| r in rows && r.key == k;
      var i :| 0 <= i < |rows| && rows[i] == r;
      assert KeyList(rows)[i] == k;
    }
  }

  lemma KeyTextsOf(rows: seq<Row>, category: string, period: string)
    ensures KeyTexts(RowRecords(rows, category, period)) == KeyList(rows)
  {
    forall i | 0 <= i < |rows| ensures KeyText(RowRecord(rows[i], category, period)) == rows[i].key {}
  }
}
