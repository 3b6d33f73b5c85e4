/** The period-comparison artifact: a digest of its decision, a digest of the whole, and their verifier. */
module PeriodArtifact {
  import opened Sorting
  import opened Texts
  import opened JsonText

  const SCHEMA_VERSION := 2
  const ARTIFACT_TYPE := "reconforge-period-comparison"
  const INTEGRITY_BOUNDARY :=
    "Local content digests only; this artifact is not a signature, audit opinion, compliance certification, or proof of source-system authenticity."
  const CANDIDATES := [
    "management_pack_stock_gl_all_exceptions.csv",
    "management_pack_workorders_all_exceptions.csv",
    "stock_gl_all_exceptions.csv",
    "workorders_all_exceptions.csv",
    "review_state.json"]

  // ----- input manifest

  type Sha256 = s: string | IsSha256(s) witness seq(64, _ => '0')

  datatype FileInfo = FileInfo(bytes: nat, sha256: Sha256)

  /** The regular files of a period folder. */
  type Folder = map<string, FileInfo>

  function FileNames(): seq<string> { Sorted(TextLe, CANDIDATES) }

  function FileRecord(name: string, info: FileInfo): Json {
    Obj(map["name" := Str(name), "bytes" := Int(info.bytes), "sha256" := Str(info.sha256)])
  }

  function FilesOf(folder: Folder, names: seq<string>): seq<Json> {
    if names == [] then []
    else
      var front, last := FilesOf(folder, names[..|names| - 1]), names[|names| - 1];
      if last in folder then front + [FileRecord(last, folder[last])] else front
  }

  function PeriodLabel(i: nat): string { "period_" + IntText(i + 1) }

  function PeriodRecord(i: nat, folder: Folder): Json {
    Obj(map["period" := Str(PeriodLabel(i)), "files" := Arr(FilesOf(folder, FileNames()))])
  }

  function InputManifest(folders: seq<Folder>): seq<Json> {
    seq(|folders|, i requires 0 <= i < |folders| => PeriodRecord(i, folders[i]))
  }

  method PeriodFiles(folder: Folder) returns (files: seq<Json>)
    ensures files == FilesOf(folder, FileNames())
  {
    hide FileRecord, FileNames;
    var names := FileNames();
    files := [];
    for n := 0 to |names|
      invariant files == FilesOf(folder, names[..n])
    {
      assert names[..n + 1][..n] == names[..n];
      var name := names[n];
      if name in folder { files := files + [FileRecord(name, folder[name])]; }
    }
    assert names[..|names|] == names;
  }

  method PeriodInputManifest(folders: seq<Folder>) returns (manifests: seq<Json>)
    ensures manifests == InputManifest(folders)
  {
    hide FilesOf, FileNames, PeriodLabel;
    manifests := [];
    for index := 0 to |folders|
      invariant |manifests| == index
      invariant forall i :: 0 <= i < index ==> manifests[i] == PeriodRecord(i, folders[i])
    {
      var files := PeriodFiles(folders[index]);
      manifests := manifests + [Obj(map["period" := Str(PeriodLabel(index)), "files" := Arr(files)])];
    }
  }

  // ----- validation of a stored manifest

  predicate AllObjects(items: seq<Json>) { forall x :: x in items ==> x.Obj? }

  predicate Allowed(name: string) { name in CANDIDATES }

  predicate FileRecordOk(fields: map<string, Json>) {
    var name, bytes, digest := Get(fields, "name"), Get(fields, "bytes"), Get(fields, "sha256");
    && name.Str? && Allowed(name.s)
    && bytes.Int? && bytes.n >= 0
    && digest.Str? && IsSha256(digest.s)
  }

  function NameOf(item: Json): string {
    if item.Obj? && Get(item.fields, "name").Str? then item.fields["name"].s else ""
  }

  function NamesOf(files: seq<Json>): seq<string> { seq(|files|, i requires 0 <= i < |files| => NameOf(files[i])) }

  function Members(names: seq<string>): set<string> { set n | n in names }

  ghost predicate FilesOk(files: Json) {
    && files.Arr? && AllObjects(files.items)
    && (forall i :: 0 <= i < |files.items| ==> FileRecordOk(files.items[i].fields))
    && NamesOf(files.items) == SortedKeys(Members(NamesOf(files.items)))
  }

  ghost predicate PeriodOk(i: nat, period: Json) {
    && period.Obj?
    && Get(period.fields, "period") == Str(PeriodLabel(i))
    && FilesOk(Get(period.fields, "files"))
  }

  ghost predicate ValidInputPeriods(value: Json) {
    && value.Arr?
    && forall i :: 0 <= i < |value.items| ==> PeriodOk(i, value.items[i])
  }

  method ValidateFiles(files: Json) returns (ok: bool)
    ensures ok <==> FilesOk(files)
  {
    if !files.Arr? || !AllObjects(files.items) { return false; }
    var names: seq<string> := [];
    for n := 0 to |files.items|
      invariant names == NamesOf(files.items[..n])
      invariant forall i :: 0 <= i < n ==> FileRecordOk(files.items[i].fields)
    {
      var item := files.items[n];
      if !FileRecordOk(item.fields) { return false; }
      names := names + [NameOf(item)];
    }
    assert files.items[..|files.items|] == files.items;
    ok := names == SortedKeys(Members(names));
  }

  method ValidateInputPeriods(value: Json) returns (ok: bool)
    ensures ok <==> ValidInputPeriods(value)
  {
    hide FilesOk, PeriodLabel;
    if !value.Arr? { return false; }
    ObjectsNeeded(value.items);
    if !AllObjects(value.items) { return false; }
    for index := 0 to |value.items|
      invariant forall i :: 0 <= i < index ==> PeriodOk(i, value.items[i])
    {
      var period := value.items[index].fields;
      var labelled := Get(period, "period") == Str(PeriodLabel(index));
      var filesOk := ValidateFiles(Get(period, "files"));
      assert labelled && filesOk <==> PeriodOk(index, value.items[index]);
      if !labelled || !filesOk { return false; }
    }
    return true;
  }

  lemma ObjectsNeeded(items: seq<Json>)
    ensures (forall i :: 0 <= i < |items| ==> PeriodOk(i, items[i])) ==> AllObjects(items)
  {
    if forall i :: 0 <= i < |items| ==> PeriodOk(i, items[i]) {
      forall x | x in items ensures x.Obj? {
        var i :| 0 <= i < |items| && items[i] == x;
        assert PeriodOk(i, items[i]);
      }
    }
  }

  lemma CandidatesDistinct()
    ensures Distinct(CANDIDATES)
  {
    var c := CANDIDATES;
    assert c[0][16] == 's' && c[1][16] == 'w';
    assert |c[0]| == 43 && |c[1]| == 45 && |c[2]| == 27 && |c[3]| == 29 && |c[4]| == 17;
  }

  lemma {:induction false} SubsequenceNames(folder: Folder, names: seq<string>)
    requires Ordered(TextLe, names) && Distinct(names)
    ensures var list := NamesOf(FilesOf(folder, names));
      && Ordered(TextLe, list) && Distinct(list)
      && forall k :: k in list ==> k in names
  {
    if names != [] {
      var n := |names| - 1;
      var front := FilesOf(folder, names[..n]);
      SubsequenceNames(folder, names[..n]);
      if names[n] in folder {
        assert NameOf(FileRecord(names[n], folder[names[n]])) == names[n];
        assert NamesOf(FilesOf(folder, names)) == NamesOf(front) + [names[n]];
        AppendLast(NamesOf(front), names);
      }
    }
  }

  lemma AppendLast(list: seq<string>, names: seq<string>)
    requires Ordered(TextLe, names) && Distinct(names) && names != []
    requires Ordered(TextLe, list) && Distinct(list) && forall k :: k in list ==> k in names[..|names| - 1]
    ensures Ordered(TextLe, list + [names[|names| - 1]]) && Distinct(list + [names[|names| - 1]])
    ensures forall k :: k in list + [names[|names| - 1]] ==> k in names
  {
    var n := |names| - 1;
    forall i | 0 <= i < |list| ensures TextLe(list[i], names[n]) && list[i] != names[n] {
      assert list[i] in list;
      var j :| 0 <= j < n && names[j] == list[i];
    }
  }

  lemma {:induction false} FileRecordsOk(folder: Folder, names: seq<string>, i: nat)
    requires (forall k :: k in names ==> k in CANDIDATES) && i < |FilesOf(folder, names)|
    ensures var files := FilesOf(folder, names);
      files[i].Obj? && FileRecordOk(files[i].fields)
  {
    var n := |names| - 1;
    if i < |FilesOf(folder, names[..n])| { FileRecordsOk(folder, names[..n], i); }
  }

  lemma NamesOrdered()
    ensures Ordered(TextLe, FileNames()) && Distinct(FileNames())
    ensures forall k :: k in FileNames() ==> k in CANDIDATES
  {
    CandidatesDistinct();
    SortedKeysOfAnyOrder(CANDIDATES, Members(CANDIDATES));
  }

  lemma FolderFilesOk(folder: Folder)
    ensures FilesOk(Arr(FilesOf(folder, FileNames())))
  {
    hide FileRecordOk, FilesOf, FileNames;
    NamesOrdered();
    var files := FilesOf(folder, FileNames());
    SubsequenceNames(folder, FileNames());
    SortedKeysUnique(NamesOf(files), Members(NamesOf(files)));
    forall j | 0 <= j < |files| ensures files[j].Obj? && FileRecordOk(files[j].fields) {
      FileRecordsOk(folder, FileNames(), j);
    }
  }

  /** The manifest of any period folders passes its own validation. */
  lemma ManifestValid(folders: seq<Folder>)
    ensures ValidInputPeriods(Arr(InputManifest(folders)))
  {
    hide FilesOk, FilesOf, FileNames, PeriodLabel;
    forall i | 0 <= i < |folders| ensures PeriodOk(i, PeriodRecord(i, folders[i])) {
      FolderFilesOk(folders[i]);
    }
  }

  // ----- what a manifest says

  /** The five file names a period folder is searched for. */
  predicate Candidate(name: string) {
    || name == "management_pack_stock_gl_all_exceptions.csv" || name == "management_pack_workorders_all_exceptions.csv"
    || name == "stock_gl_all_exceptions.csv" || name == "workorders_all_exceptions.csv" || name == "review_state.json"
  }

  lemma CandidateIff(name: string)
    ensures Candidate(name) <==> name in CANDIDATES
    ensures Candidate(name) <==> name in FileNames()
  {
    hide Sorted;
    var c := CANDIDATES;
    assert c[0] == "management_pack_stock_gl_all_exceptions.csv" && c[1] == "management_pack_workorders_all_exceptions.csv";
    assert c[2] == "stock_gl_all_exceptions.csv" && c[3] == "workorders_all_exceptions.csv" && c[4] == "review_state.json";
    assert name in c <==> name == c[0] || name == c[1] || name == c[2] || name == c[3] || name == c[4];
    SortedMembers(c);
  }

  ghost predicate SameFile(f: Folder, g: Folder, name: string) {
    (name in f <==> name in g) && (name in f ==> f[name].bytes == g[name].bytes && f[name].sha256 == g[name].sha256)
  }

  /** No candidate file differs between two folders. */
  ghost predicate SameFiles(f: Folder, g: Folder) { forall name :: Candidate(name) ==> SameFile(f, g, name) }

  lemma SameFilesIff(f: Folder, g: Folder)
    ensures FilesOf(f, FileNames()) == FilesOf(g, FileNames()) <==> SameFiles(f, g)
  {
    hide FilesOf, FileNames, Candidate, SameFile;
    NamesOrdered();
    FilesIff(f, g, FileNames());
    forall name ensures Candidate(name) <==> name in FileNames() { CandidateIff(name); }
  }

  lemma {:induction false} FilesIff(f: Folder, g: Folder, names: seq<string>)
    requires Ordered(TextLe, names) && Distinct(names)
    ensures FilesOf(f, names) == FilesOf(g, names) <==> forall k :: k in names ==> SameFile(f, g, k)
  {
    hide SameFile;
    if names != [] {
      hide FilesOf;
      var front, last := names[..|names| - 1], names[|names| - 1];
      FilesIff(f, g, front);
      LastFile(f, g, names);
      assert names == front + [last];
    }
  }

  lemma LastFile(f: Folder, g: Folder, names: seq<string>)
    requires Ordered(TextLe, names) && Distinct(names) && names != []
    ensures var front, last := names[..|names| - 1], names[|names| - 1];
      FilesOf(f, names) == FilesOf(g, names) <==> FilesOf(f, front) == FilesOf(g, front) && SameFile(f, g, last)
  {
    hide FileRecord, NameOf, IsFloatText;
    var front, last := names[..|names| - 1], names[|names| - 1];
    var x, y := FilesOf(f, front), FilesOf(g, front);
    NotListed(f, names);
    NotListed(g, names);
    if last in f && last in g {
      LastEqual(x, FileRecord(last, f[last]), y, FileRecord(last, g[last]));
      RecordIff(last, f[last], g[last]);
    } else if last in f {
      RecordName(last, f[last]);
      OnlyOne(y, x, FileRecord(last, f[last]), last);
    } else if last in g {
      RecordName(last, g[last]);
      OnlyOne(x, y, FileRecord(last, g[last]), last);
    }
  }

  lemma RecordIff(name: string, a: FileInfo, b: FileInfo)
    ensures FileRecord(name, a) == FileRecord(name, b) <==> a.bytes == b.bytes && a.sha256 == b.sha256
  {
    assert FileRecord(name, a).fields["bytes"] == Int(a.bytes) && FileRecord(name, b).fields["bytes"] == Int(b.bytes);
    assert FileRecord(name, a).fields["sha256"] == Str(a.sha256) && FileRecord(name, b).fields["sha256"] == Str(b.sha256);
  }

  lemma LastEqual<T>(x: seq<T>, a: T, y: seq<T>, b: T)
    ensures x + [a] == y + [b] <==> x == y && a == b
  {
    if x + [a] == y + [b] {
      assert |x| == |y| && (x + [a])[|x|] == (y + [b])[|y|];
      assert x == (x + [a])[..|x|] && y == (y + [b])[..|y|];
    }
  }

  lemma RecordName(name: string, info: FileInfo)
    ensures NameOf(FileRecord(name, info)) == name
  {
  }

  lemma OnlyOne(x: seq<Json>, y: seq<Json>, record: Json, name: string)
    requires NameOf(record) == name && forall e :: e in x ==> NameOf(e) != name
    ensures x != y + [record]
  {
    assert record in y + [record];
  }

  /** The last name is not among the files listed under the earlier names. */
  lemma NotListed(folder: Folder, names: seq<string>)
    requires Ordered(TextLe, names) && Distinct(names) && names != []
    ensures forall x :: x in FilesOf(folder, names[..|names| - 1]) ==> NameOf(x) != names[|names| - 1]
  {
    var front := names[..|names| - 1];
    var files := FilesOf(folder, front);
    SubsequenceNames(folder, front);
    forall x | x in files ensures NameOf(x) != names[|names| - 1] {
      var i :| 0 <= i < |files| && files[i] == x;
      assert NamesOf(files)[i] in front;
    }
  }

  /** Two lists of folders have one manifest exactly when no candidate file was added, dropped, resized or changed. */
  lemma ManifestFixesFiles(f: seq<Folder>, g: seq<Folder>)
    ensures InputManifest(f) == InputManifest(g) <==>
      |f| == |g| && forall i :: 0 <= i < |f| ==> SameFiles(f[i], g[i])
  {
    hide FilesOf, FileNames, PeriodLabel, SameFiles;
    assert |InputManifest(f)| == |f| && |InputManifest(g)| == |g|;
    if |f| == |g| {
      forall i | 0 <= i < |f| ensures PeriodRecord(i, f[i]) == PeriodRecord(i, g[i]) <==> SameFiles(f[i], g[i]) {
        RecordFiles(i, f[i], g[i]);
        SameFilesIff(f[i], g[i]);
      }
      assert forall i :: 0 <= i < |f| ==> InputManifest(f)[i] == PeriodRecord(i, f[i]) && InputManifest(g)[i] == PeriodRecord(i, g[i]);
      assert InputManifest(f) == InputManifest(g) <==> forall i :: 0 <= i < |f| ==> InputManifest(f)[i] == InputManifest(g)[i];
    }
  }

  lemma RecordFiles(i: nat, f: Folder, g: Folder)
    ensures PeriodRecord(i, f) == PeriodRecord(i, g) <==> FilesOf(f, FileNames()) == FilesOf(g, FileNames())
  {
    hide FilesOf, FileNames, PeriodLabel;
    assert PeriodRecord(i, f).fields["files"] == Arr(FilesOf(f, FileNames()));
    assert PeriodRecord(i, g).fields["files"] == Arr(FilesOf(g, FileNames()));
  }

  predicate LowerHex64(s: string) { |s| == 64 && forall i :: 0 <= i < 64 ==> '0' <= s[i] <= '9' || 'a' <= s[i] <= 'f' }

  /** One well-formed file fingerprint. */
  ghost predicate FileRecorded(item: Json) {
    && item.Obj? && {"name", "bytes", "sha256"} <= item.fields.Keys
    && item.fields["name"].Str? && Candidate(item.fields["name"].s)
    && item.fields["bytes"].Int? && item.fields["bytes"].n >= 0
    && item.fields["sha256"].Str? && LowerHex64(item.fields["sha256"].s)
  }

  /** Period i of a manifest: its label, and fingerprints in strictly ascending order of names. */
  ghost predicate PeriodRecorded(i: nat, period: Json) {
    && period.Obj? && {"period", "files"} <= period.fields.Keys
    && period.fields["period"] == Str("period_" + IntText(i + 1))
    && FilesRecorded(period.fields["files"])
  }

  ghost predicate FilesRecorded(list: Json) {
    && list.Arr?
    && (forall j :: 0 <= j < |list.items| ==> FileRecorded(list.items[j]))
    && forall j, k :: 0 <= j < k < |list.items| ==>
         var a, b := list.items[j].fields["name"].s, list.items[k].fields["name"].s;
         TextLe(a, b) && a != b
  }

  lemma HexIff(s: string)
    ensures IsSha256(s) <==> LowerHex64(s)
  {
    assert forall c: char :: IsHex(c) <==> '0' <= c <= '9' || 'a' <= c <= 'f';
  }

  lemma AllowedIff(name: string)
    ensures Allowed(name) <==> Candidate(name)
  {
    hide Candidate;
    CandidateIff(name);
  }

  lemma FileIff(item: Json)
    ensures FileRecorded(item) <==> item.Obj? && FileRecordOk(item.fields)
  {
    hide Candidate, IsSha256, IsFloatText, LowerHex64, Allowed;
    if item.Obj? {
      if Get(item.fields, "name").Str? { AllowedIff(Get(item.fields, "name").s); }
      if Get(item.fields, "sha256").Str? { HexIff(Get(item.fields, "sha256").s); }
    }
  }

  lemma NamesIff(files: seq<Json>)
    ensures NamesOf(files) == SortedKeys(Members(NamesOf(files)))
       <==> forall j, k :: 0 <= j < k < |files| ==> TextLe(NameOf(files[j]), NameOf(files[k])) && NameOf(files[j]) != NameOf(files[k])
  {
    var names := NamesOf(files);
    assert forall j :: 0 <= j < |files| ==> names[j] == NameOf(files[j]);
    if Ordered(TextLe, names) && Distinct(names) { SortedKeysUnique(names, Members(names)); }
  }

  lemma FilesRecordedIff(list: Json)
    ensures FilesOk(list) <==> FilesRecorded(list)
  {
    hide FileRecorded, FileRecordOk, TextLe, NameOf, IsFloatText;
    if list.Arr? {
      var files := list.items;
      NamesIff(files);
      forall j | 0 <= j < |files|
        ensures FileRecorded(files[j]) <==> files[j].Obj? && FileRecordOk(files[j].fields)
        ensures FileRecorded(files[j]) ==>
          && {"name", "bytes", "sha256"} <= files[j].fields.Keys && files[j].fields["name"].Str?
          && NameOf(files[j]) == files[j].fields["name"].s
      {
        FileIff(files[j]);
        RecordedName(files[j]);
      }
      assert AllObjects(files) <==> forall j :: 0 <= j < |files| ==> files[j].Obj?;
    }
  }

  lemma PeriodIff(i: nat, period: Json)
    ensures PeriodOk(i, period) <==> PeriodRecorded(i, period)
  {
    hide FilesOk, FilesRecorded, IsFloatText;
    if period.Obj? { FilesRecordedIff(Get(period.fields, "files")); }
    assert !FilesRecorded(Null) by { NullFiles(); }
  }

  lemma NullFiles()
    ensures !FilesRecorded(Null)
  {
  }

  lemma RecordedName(item: Json)
    ensures FileRecorded(item) ==>
      && item.Obj? && {"name", "bytes", "sha256"} <= item.fields.Keys && item.fields["name"].Str?
      && NameOf(item) == item.fields["name"].s
  {
    hide Candidate, LowerHex64, IsFloatText;
  }

  /** The validation of stored input periods accepts exactly these values. */
  lemma InputPeriodsMean(value: Json)
    ensures ValidInputPeriods(value) <==>
      value.Arr? && forall i :: 0 <= i < |value.items| ==> PeriodRecorded(i, value.items[i])
  {
    hide PeriodOk, PeriodRecorded;
    if value.Arr? {
      forall i | 0 <= i < |value.items| ensures PeriodOk(i, value.items[i]) <==> PeriodRecorded(i, value.items[i]) {
        PeriodIff(i, value.items[i]);
      }
    }
  }

  // ----- the decision

  function GetOr(m: map<string, Json>, key: string, default: Json): Json { if key in m then m[key] else default }

  /** Python's str() of a looked-up key. */
  function TextOf(v: Json): string {
    match v
    case Str(s) => s
    case Null => "None"
    case Bool(b) => if b then "True" else "False"
    case Int(n) => IntText(n)
    case Float(text) =>
      if text == "NaN" then "nan" else if text == "Infinity" then "inf" else if text == "-Infinity" then "-inf" else text
    case _ => Encode(false, v)
  }

  function KeyText(record: Json): string
    requires record.Obj?
  {
    TextOf(GetOr(record.fields, "comparison_key", Str("")))
  }

  /** The text of a looked-up key, kind by kind; a missing key reads as the empty text. */
  lemma KeyTextMeans(record: Json)
    requires record.Obj?
    ensures "comparison_key" !in record.fields ==> KeyText(record) == ""
    ensures "comparison_key" in record.fields ==>
      var key, text := record.fields["comparison_key"], KeyText(record);
      && (key.Str? ==> text == key.s)
      && (key == Null ==> text == "None") && (key == Bool(true) ==> text == "True") && (key == Bool(false) ==> text == "False")
      && (key.Int? ==> text == IntText(key.n))
      && (key.Float? ==>
           text == if key.text == "NaN" then "nan" else if key.text == "Infinity" then "inf"
                   else if key.text == "-Infinity" then "-inf" else key.text)
      && (key.Arr? || key.Obj? ==> text == Encode(false, key))
  {
  }

  predicate Records(v: Json) { v.Arr? && AllObjects(v.items) }

  function KeyTexts(v: Json): seq<string>
    requires Records(v)
  {
    seq(|v.items|, i requires 0 <= i < |v.items| => KeyText(v.items[i]))
  }

  function StrList(s: seq<string>): Json { Arr(seq(|s|, i requires 0 <= i < |s| => Str(s[i]))) }

  /** The sorted comparison keys of an exception list. */
  function ComparisonKeys(v: Json): Json
    requires Records(v)
  {
    StrList(Sorted(TextLe, KeyTexts(v)))
  }

  function WithoutPeriodPath(v: Json): Json
    requires Records(v)
  {
    Arr(seq(|v.items|, i requires 0 <= i < |v.items| => Body(v.items[i].fields, "period_path")))
  }

  const LISTS := ["new_exceptions", "recurring_exceptions", "resolved_exceptions", "escalated_exceptions", "accepted_risk_items"]

  function ListOf(p: map<string, Json>, key: string): Json { GetOr(p, key, Arr([])) }

  function TrendOf(p: map<string, Json>): map<string, Json> {
    if Get(p, "trend").Obj? then p["trend"].fields else map[]
  }

  /** The payload parts that the decision reads have the shapes it needs. */
  predicate Decidable(p: map<string, Json>) {
    && Get(p, "trend").Obj?
    && Records(ListOf(p, "period_counts"))
    && Records(ListOf(TrendOf(p), "periods"))
    && forall i :: 0 <= i < |LISTS| ==> Records(ListOf(p, LISTS[i]))
  }

  function DecisionPayload(p: map<string, Json>): Json
    requires Decidable(p)
  {
    var trend := TrendOf(p);
    Obj(map[
      "schema_version" := Int(SCHEMA_VERSION),
      "financial_input_policy" := Get(p, "financial_input_policy"),
      "comparison_policy" := Get(p, "comparison_policy"),
      "input_periods" := Get(p, "input_periods"),
      "summary" := Get(p, "summary"),
      "period_counts" := WithoutPeriodPath(ListOf(p, "period_counts")),
      "trend" := Obj(map[
        "periods" := WithoutPeriodPath(ListOf(trend, "periods")),
        "chart_data" := Get(trend, "chart_data"),
        "top_recurring_themes" := Get(trend, "top_recurring_themes")]),
      "new_exception_keys" := ComparisonKeys(ListOf(p, LISTS[0])),
      "recurring_exception_keys" := ComparisonKeys(ListOf(p, LISTS[1])),
      "resolved_exception_keys" := ComparisonKeys(ListOf(p, LISTS[2])),
      "escalated_exception_keys" := ComparisonKeys(ListOf(p, LISTS[3])),
      "accepted_risk_keys" := ComparisonKeys(ListOf(p, LISTS[4]))])
  }

  function DecisionDigest(sha256: string -> string, p: map<string, Json>): string
    requires Decidable(p)
  {
    Digest(sha256, false, DecisionPayload(p))
  }

  /** The payload has a decision exactly when its trend is an object and what is listed under these keys,
      if anything, is a list of objects. */
  lemma DecidableMeans(p: map<string, Json>)
    ensures Decidable(p) <==>
      && "trend" in p && p["trend"].Obj?
      && ListsObjects(p, "period_counts") && ListsObjects(p["trend"].fields, "periods")
      && ListsObjects(p, "new_exceptions") && ListsObjects(p, "recurring_exceptions") && ListsObjects(p, "resolved_exceptions")
      && ListsObjects(p, "escalated_exceptions") && ListsObjects(p, "accepted_risk_items")
  {
    hide AllObjects;
    forall m: map<string, Json>, key ensures Records(ListOf(m, key)) <==> ListsObjects(m, key) { ListsObjectsIff(m, key); }
    assert LISTS[0] == "new_exceptions" && LISTS[1] == "recurring_exceptions" && LISTS[2] == "resolved_exceptions";
    assert LISTS[3] == "escalated_exceptions" && LISTS[4] == "accepted_risk_items" && |LISTS| == 5;
    hide Records, ListsObjects, ListOf;
    assert (forall i :: 0 <= i < 5 ==> Records(ListOf(p, LISTS[i]))) <==>
      Records(ListOf(p, LISTS[0])) && Records(ListOf(p, LISTS[1])) && Records(ListOf(p, LISTS[2]))
      && Records(ListOf(p, LISTS[3])) && Records(ListOf(p, LISTS[4]));
  }

  predicate ListsObjects(m: map<string, Json>, key: string) {
    key in m ==> m[key].Arr? && forall i :: 0 <= i < |m[key].items| ==> m[key].items[i].Obj?
  }

  lemma ListsObjectsIff(m: map<string, Json>, key: string)
    ensures Records(ListOf(m, key)) <==> ListsObjects(m, key)
  {
  }

  /** Tables that differ in their period_path column only. */
  ghost predicate SameTable(a: Json, b: Json)
    requires Records(a) && Records(b)
  {
    && |a.items| == |b.items|
    && forall i :: 0 <= i < |a.items| ==> a.items[i].fields - {"period_path"} == b.items[i].fields - {"period_path"}
  }

  /** Exception lists with the same keys, each as often, in any order and with any other columns. */
  ghost predicate SameKeys(a: Json, b: Json)
    requires Records(a) && Records(b)
  {
    multiset(KeyTexts(a)) == multiset(KeyTexts(b))
  }

  ghost predicate SameDecision(p: map<string, Json>, q: map<string, Json>)
    requires Decidable(p) && Decidable(q)
  {
    && Get(p, "financial_input_policy") == Get(q, "financial_input_policy")
    && Get(p, "comparison_policy") == Get(q, "comparison_policy")
    && Get(p, "input_periods") == Get(q, "input_periods")
    && Get(p, "summary") == Get(q, "summary")
    && Get(TrendOf(p), "chart_data") == Get(TrendOf(q), "chart_data")
    && Get(TrendOf(p), "top_recurring_themes") == Get(TrendOf(q), "top_recurring_themes")
    && SameTable(ListOf(p, "period_counts"), ListOf(q, "period_counts"))
    && SameTable(ListOf(TrendOf(p), "periods"), ListOf(TrendOf(q), "periods"))
    && forall i :: 0 <= i < |LISTS| ==> SameKeys(ListOf(p, LISTS[i]), ListOf(q, LISTS[i]))
  }

  lemma TableIffSame(a: Json, b: Json)
    requires Records(a) && Records(b)
    ensures WithoutPeriodPath(a) == WithoutPeriodPath(b) <==> SameTable(a, b)
  {
    var x, y := WithoutPeriodPath(a).items, WithoutPeriodPath(b).items;
    if x == y {
      forall i | 0 <= i < |a.items| ensures a.items[i].fields - {"period_path"} == b.items[i].fields - {"period_path"} {
        assert x[i] == y[i];
      }
    }
  }

  lemma KeysIffSame(a: Json, b: Json)
    requires Records(a) && Records(b)
    ensures ComparisonKeys(a) == ComparisonKeys(b) <==> SameKeys(a, b)
  {
    TextOrder();
    var s, t := KeyTexts(a), KeyTexts(b);
    SortedSorts(TextLe, s);
    SortedSorts(TextLe, t);
    if SameKeys(a, b) { SortedOfPermutation(TextLe, s, t); }
    if ComparisonKeys(a) == ComparisonKeys(b) { StrListInjective(Sorted(TextLe, s), Sorted(TextLe, t)); }
  }

  lemma StrListInjective(s: seq<string>, t: seq<string>)
    requires StrList(s) == StrList(t)
    ensures s == t
  {
    assert |StrList(s).items| == |s| && |StrList(t).items| == |t|;
    forall i | 0 <= i < |s| ensures s[i] == t[i] {
      assert StrList(s).items[i] == Str(s[i]) && StrList(t).items[i] == Str(t[i]);
    }
  }

  /** The digested decision, part by part. */
  lemma DecisionParts(p: map<string, Json>)
    requires Decidable(p)
    ensures var d := DecisionPayload(p).fields;
      && Get(d, "financial_input_policy") == Get(p, "financial_input_policy")
      && Get(d, "comparison_policy") == Get(p, "comparison_policy")
      && Get(d, "input_periods") == Get(p, "input_periods")
      && Get(d, "summary") == Get(p, "summary")
      && Get(d, "period_counts") == WithoutPeriodPath(ListOf(p, "period_counts"))
  {
    hide WithoutPeriodPath, ComparisonKeys, TrendOf, Records, ListOf, IsFloatText;
  }

  lemma DecisionTrendParts(p: map<string, Json>)
    requires Decidable(p)
    ensures var d := DecisionPayload(p).fields;
      && Get(d, "trend").Obj?
      && Get(d["trend"].fields, "periods") == WithoutPeriodPath(ListOf(TrendOf(p), "periods"))
      && Get(d["trend"].fields, "chart_data") == Get(TrendOf(p), "chart_data")
      && Get(d["trend"].fields, "top_recurring_themes") == Get(TrendOf(p), "top_recurring_themes")
  {
    hide WithoutPeriodPath, ComparisonKeys, TrendOf, Records, ListOf;
  }

  lemma DecisionKeyParts(p: map<string, Json>)
    requires Decidable(p)
    ensures KeyFields(DecisionPayload(p), p)
  {
    hide WithoutPeriodPath, ComparisonKeys, TrendOf, Records, ListOf;
  }

  ghost predicate KeyFields(d: Json, p: map<string, Json>)
    requires Decidable(p)
  {
    && d.Obj?
    && Get(d.fields, "new_exception_keys") == ComparisonKeys(ListOf(p, LISTS[0]))
    && Get(d.fields, "recurring_exception_keys") == ComparisonKeys(ListOf(p, LISTS[1]))
    && Get(d.fields, "resolved_exception_keys") == ComparisonKeys(ListOf(p, LISTS[2]))
    && Get(d.fields, "escalated_exception_keys") == ComparisonKeys(ListOf(p, LISTS[3]))
    && Get(d.fields, "accepted_risk_keys") == ComparisonKeys(ListOf(p, LISTS[4]))
  }

  /** The decision is finite when the payload is, its digests aside. */
  lemma DecisionFinite(p: map<string, Json>)
    requires Decidable(p)
    requires forall k :: k in p && k !in {"decision_digest", "artifact_digest"} ==> AllFinite(p[k])
    ensures AllFinite(DecisionPayload(p))
  {
    hide WithoutPeriodPath, ComparisonKeys, AllFinite, Records;
    var trend := TrendOf(p);
    FiniteFields(trend);
    FiniteValues();
    WithoutPathFinite(ListOf(p, "period_counts"));
    WithoutPathFinite(ListOf(trend, "periods"));
    forall i | 0 <= i < |LISTS| ensures AllFinite(ComparisonKeys(ListOf(p, LISTS[i]))) { KeysFinite(ListOf(p, LISTS[i])); }
    var t := DecisionPayload(p).fields["trend"];
    FiniteFields(t.fields);
    FiniteFields(DecisionPayload(p).fields);
  }

  lemma FiniteFields(m: map<string, Json>)
    ensures AllFinite(Obj(m)) <==> forall k :: k in m ==> AllFinite(m[k])
  {
  }

  lemma FiniteValues()
    ensures AllFinite(Null) && AllFinite(Arr([])) && forall n :: AllFinite(Int(n))
  {
  }

  lemma KeysFinite(v: Json)
    requires Records(v)
    ensures AllFinite(ComparisonKeys(v))
  {
  }

  lemma WithoutPathFinite(v: Json)
    requires Records(v) && AllFinite(v)
    ensures AllFinite(WithoutPeriodPath(v))
  {
    forall x | x in WithoutPeriodPath(v).items ensures AllFinite(x) {
      var i :| 0 <= i < |v.items| && x == Body(v.items[i].fields, "period_path");
      assert v.items[i] in v.items;
      FiniteFields(v.items[i].fields);
      FiniteFields(v.items[i].fields - {"period_path"});
    }
  }

  /** Folder paths, row order and non-key columns are exactly what the decision forgets. */
  lemma DecisionIffSame(p: map<string, Json>, q: map<string, Json>)
    requires Decidable(p) && Decidable(q)
    ensures DecisionPayload(p) == DecisionPayload(q) <==> SameDecision(p, q)
  {
    hide WithoutPeriodPath, ComparisonKeys, TrendOf, Records, SameTable, SameKeys;
    TableIffSame(ListOf(p, "period_counts"), ListOf(q, "period_counts"));
    TableIffSame(ListOf(TrendOf(p), "periods"), ListOf(TrendOf(q), "periods"));
    forall i | 0 <= i < |LISTS|
      ensures ComparisonKeys(ListOf(p, LISTS[i])) == ComparisonKeys(ListOf(q, LISTS[i]))
         <==> SameKeys(ListOf(p, LISTS[i]), ListOf(q, LISTS[i]))
    {
      KeysIffSame(ListOf(p, LISTS[i]), ListOf(q, LISTS[i]));
    }
    if DecisionPayload(p) == DecisionPayload(q) {
      hide DecisionPayload;
      DecisionParts(p);
      DecisionParts(q);
      DecisionTrendParts(p);
      DecisionTrendParts(q);
      DecisionKeyParts(p);
      DecisionKeyParts(q);
    }
  }

  /** One decision digest means one decision, or a collision; one decision always means one digest. */
  lemma DigestOfDecision(sha256: string -> string, p: map<string, Json>, q: map<string, Json>)
    requires Decidable(p) && Decidable(q)
    ensures SameDecision(p, q) ==> DecisionDigest(sha256, p) == DecisionDigest(sha256, q)
    ensures DecisionDigest(sha256, p) == DecisionDigest(sha256, q) ==>
      SameDecision(p, q) || Collision(sha256, Encode(false, DecisionPayload(p)), Encode(false, DecisionPayload(q)))
  {
    hide DecisionPayload, SameDecision, Encode;
    DecisionIffSame(p, q);
    if DecisionDigest(sha256, p) == DecisionDigest(sha256, q) {
      DigestFixesValue(sha256, false, DecisionPayload(p), DecisionPayload(q));
    }
  }
}
