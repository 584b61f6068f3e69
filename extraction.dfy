/** The row loop of `get_garage_data`: from the rows of the garage table,
    each given as the texts of its cells, to the garages dictionary. */
module Extraction {
  import opened Errors
  import opened PyStr
  import opened PyInt
  import opened Snapshot

  /** One table row, as the texts of its cells. */
  type Row = seq<string>

  /** The marker the percentage follows in the third cell. */
  const Marker: string := "percent: "

  /** A stored percentage text: it parses to an integer between 0 and 100. */
  predicate ValidPct(pct: string)
  {
    ParseInt(pct).Some? && 0 <= ParseInt(pct).value <= 100
  }

  /** What the row loop guarantees of the dictionary it returns. */
  predicate ValidSnapshot(s: Snapshot)
  {
    DistinctKeys(s) && forall i :: 0 <= i < |s| ==> ValidPct(s[i].pct)
  }

  /** The rows the loop reads: `rows[5:-1]`, every row from index 5 up to
      but not including the last. */
  function GarageRows(rows: seq<Row>): (r: seq<Row>)
    ensures |r| == if |rows| <= 6 then 0 else |rows| - 6
    ensures forall i :: 0 <= i < |r| ==> r[i] == rows[i + 5]
  {
    if |rows| <= 6 then [] else rows[5..|rows| - 1]
  }

  /** The key of a row: its first cell stripped of surrounding whitespace,
      with every "Garage " deleted, upper-cased. */
  function CleanName(cell: string): string
  {
    Upper(Replace(Strip(cell), "Garage ", ""))
  }

  /** The percentage text cut out of the third cell (lines 44-50). */
  function ExtractPercentage(cell: string): string
  {
    Cut(Strip(cell))
  }

  /** Lines 45-50 on the stripped cell text `t`: the slice from just after
      "percent:" through the next comma, with commas and spaces removed. */
  function Cut(t: string): string
  {
    var start: nat := Find(t, Marker) + |"percent:"|;
    var end: nat := Find(SliceFrom(t, start - 1), ",") + start;
    Replace(Replace(Slice(t, start, end), ",", ""), " ", "")
  }

  /** Lines 52-56: a value below 0 is stored as "0", one above 100 as "100",
      one in range as the extracted text itself; text that is not an integer
      raises ValueError. */
  function Clamp(pct: string): Result<string>
  {
    match ParseInt(pct)
    case None => Err(ValueError)
    case Some(v) =>
      if v < 0 then Ok("0") else if v > 100 then Ok("100") else Ok(pct)
  }

  /** Lines 41-56 for one row: its key and its clamped percentage text. A row
      with fewer than three cells raises IndexError. */
  function ParseRow(row: Row): Result<Entry>
  {
    if |row| < 3 then Err(IndexError)
    else
      match Clamp(ExtractPercentage(row[2]))
      case Err(e) => Err(e)
      case Ok(pct) => Ok(Entry(CleanName(row[0]), pct))
  }

  /** The clamp fails exactly on text that is not an integer, stores a
      percentage in [0, 100] that is the parsed value moved into that range,
      and keeps an in-range text as it was extracted. */
  lemma ClampSpec(pct: string)
    ensures Clamp(pct).Err? <==> ParseInt(pct).None?
    ensures Clamp(pct).Err? ==> Clamp(pct).error == ValueError
    ensures Clamp(pct).Ok? ==> ValidPct(Clamp(pct).value)
    ensures Clamp(pct).Ok? ==>
      var v := ParseInt(pct).value;
      ParseInt(Clamp(pct).value).value == if v < 0 then 0 else if v > 100 then 100 else v
    ensures Clamp(pct).Ok? && 0 <= ParseInt(pct).value <= 100 ==> Clamp(pct).value == pct
    ensures Clamp(pct).Ok? && ParseInt(pct).value < 0 ==> Clamp(pct).value == "0"
    ensures Clamp(pct).Ok? && ParseInt(pct).value > 100 ==> Clamp(pct).value == "100"
  {
    ParseBounds();
  }

  /** A row fails with IndexError when it has fewer than three cells and with
      ValueError when its percentage is not an integer; otherwise it gives
      the cleaned name and the clamped percentage, which is valid. */
  lemma ParseRowSpec(row: Row)
    ensures ParseRow(row).Err? <==> |row| < 3 || ParseInt(ExtractPercentage(row[2])).None?
    ensures ParseRow(row).Err? ==> ParseRow(row).error == (if |row| < 3 then IndexError else ValueError)
    ensures ParseRow(row).Ok? ==>
      ParseRow(row).value == Entry(CleanName(row[0]), Clamp(ExtractPercentage(row[2])).value)
      && ValidPct(ParseRow(row).value.pct)
  {
    if |row| >= 3 {
      ClampSpec(ExtractPercentage(row[2]));
    }
  }

  /** The key is upper-case: no ASCII lower-case letter remains. */
  lemma CleanNameUpper(cell: string)
    ensures forall k :: 0 <= k < |CleanName(cell)| ==> !('a' <= CleanName(cell)[k] <= 'z')
  {
    UpperSpec(Replace(Strip(cell), "Garage ", ""));
  }

  /** The row parser applied to every row, in order. */
  function ParseEach(rows: seq<Row>): (rs: seq<Result<Entry>>)
    ensures |rs| == |rows|
    ensures forall i :: 0 <= i < |rows| ==> rs[i] == ParseRow(rows[i])
  {
    seq(|rows|, i requires 0 <= i < |rows| => ParseRow(rows[i]))
  }

  /** The loop's early exit: every value when every result is Ok, otherwise
      the error of the first result that failed. */
  function Collect<T>(rs: seq<Result<T>>): (r: Result<seq<T>>)
    ensures r.Ok? ==> |r.value| == |rs|
  {
    if rs == [] then Ok([])
    else
      match Collect(rs[..|rs| - 1])
      case Err(e) => Err(e)
      case Ok(vs) =>
        match rs[|rs| - 1]
        case Err(e) => Err(e)
        case Ok(v) => Ok(vs + [v])
  }

  /** `data[e.name] = e.pct` for each entry in order. */
  function StoreAll(data: Snapshot, es: seq<Entry>): Snapshot
  {
    if es == [] then data
    else Put(StoreAll(data, es[..|es| - 1]), es[|es| - 1].name, es[|es| - 1].pct)
  }

  /** `get_garage_data` on a table given as its rows. */
  function GarageData(rows: seq<Row>): Result<Snapshot>
  {
    match Collect(ParseEach(GarageRows(rows)))
    case Err(e) => Err(e)
    case Ok(es) => Ok(StoreAll([], es))
  }

  /** `get_garage_data`, lines 36-59, as the loop that fills the dictionary. */
  method GetGarageData(rows: seq<Row>) returns (r: Result<Snapshot>)
    ensures r == GarageData(rows)
    ensures r.Ok? ==> ValidSnapshot(r.value)
  {
    var garageRows := GarageRows(rows);
    var data: Snapshot := [];
    ghost var results := ParseEach(garageRows);
    ghost var entries: seq<Entry> := [];
    for i := 0 to |garageRows|
      invariant Collect(results[..i]) == Ok(entries)
      invariant data == StoreAll([], entries)
      invariant ValidSnapshot(data)
    {
      var row := garageRows[i];
      if |row| < 3 {
        RowFails(results, i, row);
        return Err(IndexError);
      }
      var name := CleanName(row[0]);
      var percentage := ExtractPercentage(row[2]);
      var parsed := ParseInt(percentage);
      if parsed.None? {
        RowFails(results, i, row);
        return Err(ValueError);
      }
      if parsed.value < 0 {
        percentage := "0";
      } else if parsed.value > 100 {
        percentage := "100";
      }
      RowStored(results, i, row, entries, data, percentage);
      data := Put(data, name, percentage);
      entries := entries + [Entry(name, percentage)];
    }
    assert results[..|results|] == results;
    return Ok(data);
  }

  /** The loop body on a failing row: the loop's early return is the
      error of the whole fold. */
  lemma RowFails(results: seq<Result<Entry>>, i: nat, row: Row)
    requires i < |results| && results[i] == ParseRow(row)
    requires Collect(results[..i]).Ok?
    requires |row| < 3 || ParseInt(ExtractPercentage(row[2])).None?
    ensures Collect(results) == Err(if |row| < 3 then IndexError else ValueError)
  {
    assert results[..i + 1][..i] == results[..i];
    CollectFailure(results, i + 1);
  }

  /** The loop body on a row that parses: it extends the fold by the row's
      entry and keeps the dictionary valid. */
  lemma RowStored(results: seq<Result<Entry>>, i: nat, row: Row, entries: seq<Entry>,
                  data: Snapshot, pct: string)
    requires i < |results| && results[i] == ParseRow(row)
    requires Collect(results[..i]) == Ok(entries)
    requires data == StoreAll([], entries) && ValidSnapshot(data)
    requires |row| >= 3 && ParseInt(ExtractPercentage(row[2])).Some?
    requires var v := ParseInt(ExtractPercentage(row[2])).value;
      pct == if v < 0 then "0" else if v > 100 then "100" else ExtractPercentage(row[2])
    ensures Collect(results[..i + 1]) == Ok(entries + [Entry(CleanName(row[0]), pct)])
    ensures Put(data, CleanName(row[0]), pct) == StoreAll([], entries + [Entry(CleanName(row[0]), pct)])
    ensures ValidSnapshot(Put(data, CleanName(row[0]), pct))
  {
    var e := Entry(CleanName(row[0]), pct);
    RowParsed(row, pct);
    CollectNext(results, i, entries, e);
    StoreNext(entries, data, e);
    PutValid(data, e.name, pct);
  }

  lemma CollectNext<T>(rs: seq<Result<T>>, i: nat, vs: seq<T>, v: T)
    requires i < |rs| && Collect(rs[..i]) == Ok(vs) && rs[i] == Ok(v)
    ensures Collect(rs[..i + 1]) == Ok(vs + [v])
  {
    assert rs[..i + 1][..i] == rs[..i];
  }

  lemma StoreNext(entries: seq<Entry>, data: Snapshot, e: Entry)
    requires data == StoreAll([], entries)
    ensures Put(data, e.name, e.pct) == StoreAll([], entries + [e])
  {
    assert (entries + [e])[..|entries|] == entries;
  }

  /** A row that parses gives its cleaned name and its clamped percentage. */
  lemma RowParsed(row: Row, pct: string)
    requires |row| >= 3 && ParseInt(ExtractPercentage(row[2])).Some?
    requires var v := ParseInt(ExtractPercentage(row[2])).value;
      pct == if v < 0 then "0" else if v > 100 then "100" else ExtractPercentage(row[2])
    ensures ParseRow(row) == Ok(Entry(CleanName(row[0]), pct)) && ValidPct(pct)
  {
    ClampSpec(ExtractPercentage(row[2]));
  }

  /** Storing a valid percentage keeps the dictionary valid. */
  lemma PutValid(data: Snapshot, k: string, pct: string)
    requires ValidSnapshot(data) && ValidPct(pct)
    ensures ValidSnapshot(Put(data, k, pct))
  {
    var r := Put(data, k, pct);
    forall i | 0 <= i < |r| ensures ValidPct(r[i].pct) {
      if i < |data| && data[i].name != k {
        assert r[i] == data[i];
      } else {
        assert r[i].name == k by { assert Keys(r)[i] == r[i].name; }
        assert r[i] == Entry(k, pct) by {
          if i < |data| {
            assert data[i].name == k;
            assert IndexOf(data, k) == i;
          }
        }
      }
    }
  }

  /** An error among the first `n` results is the error of them all. */
  lemma {:induction false} CollectFailure<T>(rs: seq<Result<T>>, n: nat)
    requires n <= |rs| && Collect(rs[..n]).Err?
    ensures Collect(rs) == Collect(rs[..n])
    decreases |rs| - n
  {
    if n < |rs| {
      var m := |rs| - 1;
      assert rs[..m][..n] == rs[..n];
      CollectFailure(rs[..m], n);
    } else {
      assert rs[..n] == rs;
    }
  }

  // ----- Properties of the row loop -----

  /** The loop succeeds exactly when every row does, with value i the value
      of result i; otherwise it fails with the error of the first failing row. */
  lemma {:induction false} CollectSpec<T>(rs: seq<Result<T>>)
    ensures Collect(rs).Ok? <==> forall i :: 0 <= i < |rs| ==> rs[i].Ok?
    ensures Collect(rs).Ok? ==> forall i :: 0 <= i < |rs| ==> rs[i] == Ok(Collect(rs).value[i])
    ensures Collect(rs).Err? ==>
      exists i :: 0 <= i < |rs| && rs[i] == Err(Collect(rs).error)
        && forall j :: 0 <= j < i ==> rs[j].Ok?
  {
    if rs != [] {
      var m := |rs| - 1;
      var init := rs[..m];
      CollectSpec(init);
      assert forall i :: 0 <= i < m ==> init[i] == rs[i];
      if Collect(init).Err? {
        var i :| 0 <= i < |init| && init[i] == Err(Collect(rs).error)
          && forall j :: 0 <= j < i ==> init[j].Ok?;
        assert rs[i] == Err(Collect(rs).error);
      }
    }
  }

  /** Storing entries keeps every stored percentage valid and every key distinct. */
  lemma {:induction false} StoreAllValid(data: Snapshot, es: seq<Entry>)
    requires ValidSnapshot(data)
    requires forall i :: 0 <= i < |es| ==> ValidPct(es[i].pct)
    ensures ValidSnapshot(StoreAll(data, es))
  {
    if es != [] {
      var init := es[..|es| - 1];
      StoreAllValid(data, init);
      PutValid(StoreAll(data, init), es[|es| - 1].name, es[|es| - 1].pct);
    }
  }

  /** Keys already present keep their positions; new names follow them. */
  lemma {:induction false} StoreAllKeepsOrder(data: Snapshot, es: seq<Entry>)
    ensures |data| <= |StoreAll(data, es)|
    ensures Keys(StoreAll(data, es))[..|data|] == Keys(data)
  {
    if es != [] {
      var init := es[..|es| - 1];
      StoreAllKeepsOrder(data, init);
    }
  }

  /** A name is a key exactly when it was a key before or names some entry. */
  lemma {:induction false} StoreAllKeys(data: Snapshot, es: seq<Entry>, k: string)
    ensures k in Keys(StoreAll(data, es)) <==>
      k in Keys(data) || exists i :: 0 <= i < |es| && es[i].name == k
  {
    if es != [] {
      var init := es[..|es| - 1];
      var e := es[|es| - 1];
      StoreAllKeys(data, init, k);
      PutKeys(StoreAll(data, init), e.name, e.pct, k);
      assert forall i :: 0 <= i < |init| ==> init[i] == es[i];
    }
  }

  lemma PutKeys(d: Snapshot, name: string, pct: string, k: string)
    ensures k in Keys(Put(d, name, pct)) <==> k in Keys(d) || k == name
  {
  }

  /** A later entry with a name already stored overwrites it: the value under
      `k` is that of the last entry named `k`. */
  lemma {:induction false} StoreAllLastWins(data: Snapshot, es: seq<Entry>, i: nat)
    requires i < |es|
    requires forall j :: i < j < |es| ==> es[j].name != es[i].name
    ensures Get(StoreAll(data, es), es[i].name) == Some(es[i].pct)
  {
    var init := es[..|es| - 1];
    var e := es[|es| - 1];
    PutGet(StoreAll(data, init), e.name, e.pct, es[i].name);
    if i < |es| - 1 {
      StoreAllLastWins(data, init, i);
    }
  }

  /** A name no entry carries reads as it did before. */
  lemma {:induction false} StoreAllUntouched(data: Snapshot, es: seq<Entry>, k: string)
    requires forall j :: 0 <= j < |es| ==> es[j].name != k
    ensures Get(StoreAll(data, es), k) == Get(data, k)
  {
    if es != [] {
      var init := es[..|es| - 1];
      var e := es[|es| - 1];
      PutGet(StoreAll(data, init), e.name, e.pct, k);
      StoreAllUntouched(data, init, k);
    }
  }

  /** Storing two runs of entries is storing the first, then the second. */
  lemma {:induction false} StoreAllAppend(data: Snapshot, a: seq<Entry>, b: seq<Entry>)
    ensures StoreAll(data, a + b) == StoreAll(StoreAll(data, a), b)
  {
    if b == [] {
      assert a + b == a;
    } else {
      var init := b[..|b| - 1];
      assert (a + b)[..|a + b| - 1] == a + init;
      StoreAllAppend(data, a, init);
    }
  }

  /** A key keeps its position in a dictionary that only grows at the end. */
  lemma IndexOfPrefix(s: Snapshot, t: Snapshot, k: string)
    requires |s| <= |t| && Keys(t)[..|s|] == Keys(s) && k in Keys(s)
    ensures k in Keys(t) && IndexOf(t, k) == IndexOf(s, k)
  {
    var i := IndexOf(s, k);
    assert Keys(t)[i] == Keys(s)[i];
  }

  /** Keys come in the order in which their names first occur: a name whose
      first entry is `j` comes after the name of any earlier entry `i`. */
  lemma StoreAllFirstOrder(es: seq<Entry>, i: nat, j: nat)
    requires i < j < |es|
    requires forall m :: 0 <= m < j ==> es[m].name != es[j].name
    ensures es[i].name in Keys(StoreAll([], es)) && es[j].name in Keys(StoreAll([], es))
    ensures IndexOf(StoreAll([], es), es[i].name) < IndexOf(StoreAll([], es), es[j].name)
  {
    var pre, rest := es[..j + 1], es[j + 1..];
    SplitAfter(es, j);
    FirstInsert(es[..j], es[j], i);
    StoreAllAppend([], pre, rest);
    KeepsIndex(StoreAll([], pre), rest, es[i].name);
    KeepsIndex(StoreAll([], pre), rest, es[j].name);
  }

  lemma SplitAfter<T>(s: seq<T>, j: nat)
    requires j < |s|
    ensures s[..j + 1] == s[..j] + [s[j]] && s == s[..j + 1] + s[j + 1..]
  {
  }

  /** Storing more entries leaves every present key at its position. */
  lemma KeepsIndex(data: Snapshot, es: seq<Entry>, k: string)
    requires k in Keys(data)
    ensures k in Keys(StoreAll(data, es)) && IndexOf(StoreAll(data, es), k) == IndexOf(data, k)
  {
    StoreAllKeepsOrder(data, es);
    IndexOfPrefix(data, StoreAll(data, es), k);
  }

  /** A name new to the entries so far is appended after every key present. */
  lemma FirstInsert(pre: seq<Entry>, e: Entry, i: nat)
    requires i < |pre|
    requires forall m :: 0 <= m < |pre| ==> pre[m].name != e.name
    ensures var mid := StoreAll([], pre + [e]);
      pre[i].name in Keys(mid) && e.name in Keys(mid)
      && IndexOf(mid, pre[i].name) < IndexOf(mid, e.name)
  {
    var before := StoreAll([], pre);
    StoreAllKeys([], pre, e.name);
    StoreAllKeys([], pre, pre[i].name);
    StoreNext(pre, before, e);
    AppendNewKey(before, e, pre[i].name);
  }

  /** Putting a new key appends it after every key present. */
  lemma AppendNewKey(before: Snapshot, e: Entry, k: string)
    requires e.name !in Keys(before) && k in Keys(before)
    ensures var mid := Put(before, e.name, e.pct);
      k in Keys(mid) && e.name in Keys(mid) && IndexOf(mid, k) < IndexOf(mid, e.name)
  {
    var mid := before + [e];
    assert Keys(mid)[..|before|] == Keys(before);
    IndexOfPrefix(before, mid, k);
    assert Keys(mid)[|before|] == e.name;
  }

  /** A table the loop accepts: the entries of its rows, stored in order. */
  lemma GarageDataFold(rows: seq<Row>)
    requires GarageData(rows).Ok?
    ensures Collect(ParseEach(GarageRows(rows))).Ok?
    ensures GarageData(rows).value == StoreAll([], Collect(ParseEach(GarageRows(rows))).value)
  {
  }

  /** The entry of row `m` when every row parses. */
  lemma EntryOfRow(gr: seq<Row>, m: nat)
    requires Collect(ParseEach(gr)).Ok? && m < |gr|
    ensures |Collect(ParseEach(gr)).value| == |gr| && |gr[m]| >= 3
    ensures Clamp(ExtractPercentage(gr[m][2])).Ok?
    ensures Collect(ParseEach(gr)).value[m]
      == Entry(CleanName(gr[m][0]), Clamp(ExtractPercentage(gr[m][2])).value)
  {
    var rs := ParseEach(gr);
    CollectSpec(rs);
    assert rs[m] == ParseRow(gr[m]);
    ParseRowSpec(gr[m]);
  }

  /** When every row parses: each has three cells and entry `m` is named by row `m`. */
  lemma EntryNames(gr: seq<Row>)
    requires Collect(ParseEach(gr)).Ok?
    ensures forall m :: 0 <= m < |gr| ==> |gr[m]| >= 3
    ensures |Collect(ParseEach(gr)).value| == |gr|
    ensures forall m :: 0 <= m < |gr| ==> Collect(ParseEach(gr)).value[m].name == CleanName(gr[m][0])
  {
    forall m | 0 <= m < |gr|
      ensures |gr[m]| >= 3 && Collect(ParseEach(gr)).value[m].name == CleanName(gr[m][0])
    {
      EntryOfRow(gr, m);
    }
  }

  /** For a table the loop accepts: every garage row has three cells, and a
      name is a key exactly when the cleaned first cell of some garage row
      is that name. */
  lemma GarageDataKeys(rows: seq<Row>, k: string)
    requires GarageData(rows).Ok?
    ensures forall m :: 0 <= m < |GarageRows(rows)| ==> |GarageRows(rows)[m]| >= 3
    ensures k in Keys(GarageData(rows).value) <==>
      exists m :: 0 <= m < |GarageRows(rows)| && |GarageRows(rows)[m]| >= 3
        && CleanName(GarageRows(rows)[m][0]) == k
  {
    var gr := GarageRows(rows);
    GarageDataFold(rows);
    EntryNames(gr);
    var es := Collect(ParseEach(gr)).value;
    StoreAllKeys([], es, k);
  }

  /** For a table the loop accepts: the value under a name is the clamped
      percentage of the last garage row with that name. */
  lemma GarageDataLastRow(rows: seq<Row>, m: nat)
    requires GarageData(rows).Ok? && m < |GarageRows(rows)| && |GarageRows(rows)[m]| >= 3
    requires forall n :: m < n < |GarageRows(rows)| && |GarageRows(rows)[n]| >= 3 ==>
      CleanName(GarageRows(rows)[n][0]) != CleanName(GarageRows(rows)[m][0])
    ensures Clamp(ExtractPercentage(GarageRows(rows)[m][2])).Ok?
    ensures Get(GarageData(rows).value, CleanName(GarageRows(rows)[m][0]))
      == Some(Clamp(ExtractPercentage(GarageRows(rows)[m][2])).value)
  {
    var gr := GarageRows(rows);
    GarageDataFold(rows);
    EntryNames(gr);
    EntryOfRow(gr, m);
    StoreAllLastWins([], Collect(ParseEach(gr)).value, m);
  }

  /** For a table the loop accepts: a name first seen at garage row `n`
      comes after the name of any earlier garage row `m`. */
  lemma GarageDataFirstOrder(rows: seq<Row>, m: nat, n: nat)
    requires GarageData(rows).Ok? && m < n < |GarageRows(rows)|
    requires |GarageRows(rows)[m]| >= 3 && |GarageRows(rows)[n]| >= 3
    requires forall l :: 0 <= l < n && |GarageRows(rows)[l]| >= 3 ==>
      CleanName(GarageRows(rows)[l][0]) != CleanName(GarageRows(rows)[n][0])
    ensures var data := GarageData(rows).value;
      var a, b := CleanName(GarageRows(rows)[m][0]), CleanName(GarageRows(rows)[n][0]);
      a in Keys(data) && b in Keys(data) && IndexOf(data, a) < IndexOf(data, b)
  {
    var gr := GarageRows(rows);
    GarageDataFold(rows);
    EntryNames(gr);
    var es := Collect(ParseEach(gr)).value;
    forall l | 0 <= l < n ensures es[l].name != es[n].name {
      assert |gr[l]| >= 3;
    }
    StoreAllFirstOrder(es, m, n);
  }

  /** Whatever the table, a dictionary the loop returns has distinct keys
      and only percentages in [0, 100]. */
  lemma GarageDataValid(rows: seq<Row>)
    ensures GarageData(rows).Ok? ==> ValidSnapshot(GarageData(rows).value)
  {
    var results := ParseEach(GarageRows(rows));
    CollectSpec(results);
    if Collect(results).Ok? {
      var es := Collect(results).value;
      forall i | 0 <= i < |es| ensures ValidPct(es[i].pct) {
        ParseRowSpec(GarageRows(rows)[i]);
      }
      StoreAllValid([], es);
    }
  }

  /** The row loop raises only IndexError (a short row) and ValueError (a
      percentage that is not an integer), never KeyError. */
  lemma GarageDataErrors(rows: seq<Row>)
    ensures GarageData(rows).Err? ==>
      GarageData(rows).error == IndexError || GarageData(rows).error == ValueError
  {
    var results := ParseEach(GarageRows(rows));
    CollectSpec(results);
    if Collect(results).Err? {
      var i :| 0 <= i < |results| && results[i] == Err(Collect(results).error)
        && forall j :: 0 <= j < i ==> results[j].Ok?;
      ParseRowSpec(GarageRows(rows)[i]);
    }
  }

  // ----- Properties of the percentage extraction -----

  /** When the marker is found and a comma follows it, the stored text is
      what lies between "percent:" and that first comma, without spaces: the
      slice that ends one character late only adds the comma, which is removed. */
  lemma CutBetweenMarkerAndComma(t: string, f: nat, c: nat)
    requires Find(t, Marker) == f
    requires f + 8 <= c < |t| && t[c] == ','
    requires ',' !in t[f + 8..c]
    ensures Cut(t) == Remove(t[f + 8..c], ' ')
  {
    CommaAfterMarker(t, f, c);
    CutAt(t, f, c - f - 7);
    var body := t[f + 8..c];
    SliceThroughComma(t, f + 8, c);
    DropTrailingComma(body);
    ReplaceCharIsRemove(body, ' ');
  }

  /** Cut with the two searches' results named. */
  lemma CutAt(t: string, f: nat, e: int)
    requires Find(t, Marker) == f && Find(SliceFrom(t, f + 7), ",") == e
    ensures Cut(t) == Replace(Replace(Slice(t, f + 8, e + f + 8), ",", ""), " ", "")
  {
    assert |"percent:"| == 8;
  }

  lemma SliceThroughComma(t: string, a: nat, c: nat)
    requires a <= c < |t| && t[c] == ','
    ensures Slice(t, a, c + 1) == t[a..c] + [',']
  {
  }

  /** The search for the comma starts at the colon of "percent:", so it finds
      the first comma after the marker at its offset from that colon. */
  lemma CommaAfterMarker(t: string, f: nat, c: nat)
    requires Find(t, Marker) == f
    requires f + 8 <= c < |t| && t[c] == ','
    requires ',' !in t[f + 8..c]
    ensures Find(SliceFrom(t, f + 7), ",") == c - f - 7
  {
    FindSpec(t, Marker);
    assert t[f + 7] == t[f..f + 9][7] == ':';
    var tail := SliceFrom(t, f + 7);
    assert tail[..c - f - 7] == [':'] + t[f + 8..c];
    assert tail[c - f - 7] == ',';
    FindChar(tail, ',');
  }

  /** Removing commas from a comma-free text followed by one comma leaves the text. */
  lemma DropTrailingComma(body: string)
    requires ',' !in body
    ensures Replace(body + [','], ",", "") == body
  {
    ReplaceCharIsRemove(body + [','], ',');
    RemoveAppend(body, [','], ',');
    RemoveSpec(body, ',');
    assert Remove([','], ',') == [];
  }

  /** When no comma follows the marker, the slice is empty and `int()` fails. */
  lemma CutWithoutComma(t: string)
    requires ',' !in SliceFrom(t, Find(t, Marker) + 7)
    ensures Cut(t) == ""
    ensures ParseInt(Cut(t)) == None
  {
    FindChar(SliceFrom(t, Find(t, Marker) + 7), ',');
  }

  /** The key of a table cell " Garage A " is "A". */
  lemma CleanNameExample()
    ensures CleanName(" Garage A ") == "A"
  {
    StripExample();
    ReplacePrefix("Garage ", "", "A");
    assert "Garage A" == "Garage " + "A";
    assert Replace("A", "Garage ", "") == "A";
    assert Upper("A") == "A";
  }

  lemma StripExample()
    ensures Strip(" Garage A ") == "Garage A"
  {
    var s := " Garage A ";
    assert s[1..] == "Garage A ";
    assert StripStart(s) == 1;
    assert s[..9] == " Garage A";
    assert StripEnd(s) == 9;
  }
}
