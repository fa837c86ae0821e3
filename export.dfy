/** `export_triggers_to_csv`: the sorted trigger details become rows of the
    CSV file, after a fixed header. A row is the list handed to
    `writer.writerow`; its cells are text or an integer count. */
module Export {
  import opened Remote
  import opened Sorting

  datatype Cell = Text(text: string) | Number(value: int)
  type Row = seq<Cell>

  const Header: Row := [Text("Host"), Text("Trigger"), Text("Severidade"), Text("Quantidade de incidentes")]

  /** The six severity codes of the monitoring system and their labels. */
  const PriorityMap: map<string, string> := map[
    "0" := "Not classified",
    "1" := "Information",
    "2" := "Warning",
    "3" := "Average",
    "4" := "High",
    "5" := "Disaster"
  ]

  /** `priority_map.get(priority, 'Unknown')`. */
  function SeverityLabel(priority: string): string {
    if priority in PriorityMap then PriorityMap[priority] else "Unknown"
  }

  /** The first host's name, or "N/A" when the trigger has no host. */
  function HostName(hosts: seq<Host>): string {
    if |hosts| > 0 then hosts[0].name else "N/A"
  }

  /** The row written for one trigger: host, description, severity, count. */
  function RowOf(counts: map<string, int>, t: TriggerDetail): Row {
    [Text(HostName(t.hosts)), Text(t.description), Text(SeverityLabel(t.priority)), Number(Count(counts, t))]
  }

  /** One row per record, in the records' order. */
  function RowsOf(counts: map<string, int>, s: seq<TriggerDetail>): (rows: seq<Row>)
    ensures |rows| == |s|
  {
    seq(|s|, i requires 0 <= i < |s| => RowOf(counts, s[i]))
  }

  /** The whole file: the header, then the rows of the records sorted by
      descending count. */
  function Report(counts: map<string, int>, triggers: seq<TriggerDetail>): (rows: seq<Row>)
    ensures |rows| == |triggers| + 1 && rows[0] == Header
  {
    SortDescPermutation(counts, triggers);
    assert |multiset(SortDesc(counts, triggers))| == |multiset(triggers)|;
    [Header] + RowsOf(counts, SortDesc(counts, triggers))
  }

  /** Severity labels: "0" to "5" name the six levels; any other code is "Unknown". */
  lemma SeverityLabelCases(priority: string)
    ensures priority == "0" ==> SeverityLabel(priority) == "Not classified"
    ensures priority == "1" ==> SeverityLabel(priority) == "Information"
    ensures priority == "2" ==> SeverityLabel(priority) == "Warning"
    ensures priority == "3" ==> SeverityLabel(priority) == "Average"
    ensures priority == "4" ==> SeverityLabel(priority) == "High"
    ensures priority == "5" ==> SeverityLabel(priority) == "Disaster"
    ensures SeverityLabel(priority) == "Unknown" <==> priority !in {"0", "1", "2", "3", "4", "5"}
  {
  }

  /** The report is the header and the rows of any stable descending sort of
      the records: the specification sort is not a choice among several. */
  lemma ReportOfStableSort(counts: map<string, int>, triggers: seq<TriggerDetail>, sorted: seq<TriggerDetail>)
    requires IsStableSortDesc(counts, triggers, sorted)
    ensures Report(counts, triggers) == [Header] + RowsOf(counts, sorted)
  {
    StableSortIsSortDesc(counts, triggers, sorted);
  }

  /** Each body row carries the count it was sorted by (0 for an id missing
      from the count map), the first host's name or "N/A", and the severity label. */
  lemma ReportRowFields(counts: map<string, int>, triggers: seq<TriggerDetail>, i: nat)
    requires 1 <= i < |Report(counts, triggers)|
    ensures var t := SortDesc(counts, triggers)[i - 1];
            var row := Report(counts, triggers)[i];
            && t in triggers
            && |row| == 4
            && row[0] == Text(if t.hosts == [] then "N/A" else t.hosts[0].name)
            && row[1] == Text(t.description)
            && row[2] == Text(SeverityLabel(t.priority))
            && row[3] == Number(if t.triggerid in counts then counts[t.triggerid] else 0)
  {
    var s := SortDesc(counts, triggers);
    assert |s| == |triggers| && s[i - 1] in triggers by {
      SortDescPermutation(counts, triggers);
      assert |multiset(s)| == |multiset(triggers)|;
      assert s[i - 1] in multiset(s);
    }
    assert Report(counts, triggers)[i] == RowOf(counts, s[i - 1]);
  }

  /** The count column of the body never increases from one row to the next. */
  lemma ReportCountsNonIncreasing(counts: map<string, int>, triggers: seq<TriggerDetail>, i: nat, j: nat)
    requires 1 <= i < j < |Report(counts, triggers)|
    ensures Report(counts, triggers)[i][3].Number? && Report(counts, triggers)[j][3].Number?
    ensures Report(counts, triggers)[i][3].value >= Report(counts, triggers)[j][3].value
  {
    SortDescSorted(counts, triggers);
  }

  lemma RowsOfAppend(counts: map<string, int>, a: seq<TriggerDetail>, b: seq<TriggerDetail>)
    ensures RowsOf(counts, a + b) == RowsOf(counts, a) + RowsOf(counts, b)
  {
    var l, r := RowsOf(counts, a + b), RowsOf(counts, a) + RowsOf(counts, b);
    forall i | 0 <= i < |l|
      ensures l[i] == r[i]
    {
      if i >= |a| {
        assert (a + b)[i] == b[i - |a|];
      }
    }
  }

  lemma MultisetWithout(a: seq<TriggerDetail>, b: seq<TriggerDetail>, k: nat)
    requires multiset(a) == multiset(b) && a != [] && k < |b| && b[k] == a[0]
    ensures multiset(a[1..]) == multiset(b[..k] + b[k + 1..])
  {
    var x, rest := a[0], b[..k] + b[k + 1..];
    assert b == b[..k] + [x] + b[k + 1..];
    assert a == [x] + a[1..];
    assert multiset(a) == multiset{x} + multiset(a[1..]);
    assert multiset(b) == multiset{x} + multiset(rest);
    forall y
      ensures multiset(a[1..])[y] == multiset(rest)[y]
    {
      assert multiset(a)[y] == multiset{x}[y] + multiset(a[1..])[y];
      assert multiset(b)[y] == multiset{x}[y] + multiset(rest)[y];
    }
  }

  /** Taking the record at `k` out of `b` takes its row out of the rows of `b`. */
  lemma RowsOfWithout(counts: map<string, int>, b: seq<TriggerDetail>, k: nat)
    requires k < |b|
    ensures multiset(RowsOf(counts, b)) ==
            multiset{RowOf(counts, b[k])} + multiset(RowsOf(counts, b[..k] + b[k + 1..]))
  {
    assert b == b[..k] + ([b[k]] + b[k + 1..]);
    RowsOfAppend(counts, b[..k], [b[k]] + b[k + 1..]);
    RowsOfAppend(counts, [b[k]], b[k + 1..]);
    RowsOfAppend(counts, b[..k], b[k + 1..]);
    assert RowsOf(counts, [b[k]]) == [RowOf(counts, b[k])];
  }

  lemma RowsOfCons(counts: map<string, int>, a: seq<TriggerDetail>)
    requires a != []
    ensures multiset(RowsOf(counts, a)) == multiset{RowOf(counts, a[0])} + multiset(RowsOf(counts, a[1..]))
  {
    assert RowsOf(counts, a) == [RowOf(counts, a[0])] + RowsOf(counts, a[1..]);
  }

  /** Rows of two lists that are permutations of each other are permutations of each other. */
  lemma {:induction false} RowsOfPermutation(counts: map<string, int>, a: seq<TriggerDetail>, b: seq<TriggerDetail>)
    requires multiset(a) == multiset(b)
    ensures multiset(RowsOf(counts, a)) == multiset(RowsOf(counts, b))
    decreases |a|
  {
    if a == [] {
      assert b == [];
    } else {
      var x := a[0];
      assert x in multiset(a);
      assert x in b;
      var k :| 0 <= k < |b| && b[k] == x;
      var rest := b[..k] + b[k + 1..];
      var rowsA, rowsB := multiset(RowsOf(counts, a)), multiset(RowsOf(counts, b));
      var tailA, tailB := multiset(RowsOf(counts, a[1..])), multiset(RowsOf(counts, rest));
      var row := multiset{RowOf(counts, x)};
      assert tailA == tailB by {
        MultisetWithout(a, b, k);
        RowsOfPermutation(counts, a[1..], rest);
      }
      assert rowsA == row + tailA by {
        RowsOfCons(counts, a);
      }
      assert rowsB == row + tailB by {
        RowsOfWithout(counts, b, k);
      }
    }
  }

  /** The body holds exactly one row per input record: it is a permutation of
      the rows of the records in input order. */
  lemma ReportBodyIsPermutation(counts: map<string, int>, triggers: seq<TriggerDetail>)
    ensures multiset(Report(counts, triggers)[1..]) == multiset(RowsOf(counts, triggers))
  {
    SortDescPermutation(counts, triggers);
    RowsOfPermutation(counts, SortDesc(counts, triggers), triggers);
    assert Report(counts, triggers)[1..] == RowsOf(counts, SortDesc(counts, triggers));
  }

  /** With counts 101: 5, 102: 5, 103: 1 and details in the order 103, 101,
      102, the rows come out as 101, 102, 103: the two records with count 5
      keep their input order and both precede the one with count 1. */
  lemma TieKeepsInputOrder(d101: TriggerDetail, d102: TriggerDetail, d103: TriggerDetail)
    requires d101.triggerid == "101" && d102.triggerid == "102" && d103.triggerid == "103"
    ensures Report(map["101" := 5, "102" := 5, "103" := 1], [d103, d101, d102]) ==
            [Header] + RowsOf(map["101" := 5, "102" := 5, "103" := 1], [d101, d102, d103])
  {
    var counts := map["101" := 5, "102" := 5, "103" := 1];
    var input, output := [d103, d101, d102], [d101, d102, d103];
    assert Count(counts, d101) == 5 && Count(counts, d102) == 5 && Count(counts, d103) == 1;
    forall c
      ensures WithCount(counts, output, c) == WithCount(counts, input, c)
    {
      var w1 := if c == 5 then [d101] else [];
      var w2 := if c == 5 then [d102] else [];
      var w3 := if c == 1 then [d103] else [];
      assert WithCount(counts, [d103], c) == w3 + WithCount(counts, [], c);
      assert WithCount(counts, [d102], c) == w2 + WithCount(counts, [], c);
      assert WithCount(counts, [d102, d103], c) == w2 + WithCount(counts, [d103], c);
      assert WithCount(counts, [d101, d102], c) == w1 + WithCount(counts, [d102], c);
      assert WithCount(counts, output, c) == w1 + WithCount(counts, [d102, d103], c);
      assert WithCount(counts, input, c) == w3 + WithCount(counts, [d101, d102], c);
      if c == 5 || c == 1 {
      }
    }
    ReportOfStableSort(counts, input, output);
  }

  /** What the written report guarantees: a header, then one row per record
      (a permutation of the rows in input order), counts never increasing. */
  lemma ReportProperties(counts: map<string, int>, triggers: seq<TriggerDetail>)
    ensures var rows: seq<Row> := Report(counts, triggers);
            multiset(rows[1..]) == multiset(RowsOf(counts, triggers)) &&
            forall i, j :: 1 <= i < j < |rows| ==>
              rows[i][3].Number? && rows[j][3].Number? && rows[i][3].value >= rows[j][3].value
  {
    var rows: seq<Row> := Report(counts, triggers);
    ReportBodyIsPermutation(counts, triggers);
    forall i, j | 1 <= i < j < |rows|
      ensures rows[i][3].Number? && rows[j][3].Number? && rows[i][3].value >= rows[j][3].value
    {
      ReportCountsNonIncreasing(counts, triggers, i, j);
    }
  }

  /** The export as the program runs it: sort, write the header, then one row
      per sorted record. */
  method ExportTriggers(counts: map<string, int>, triggers: seq<TriggerDetail>) returns (rows: seq<Row>)
    ensures rows == Report(counts, triggers)
    ensures |rows| == |triggers| + 1 && rows[0] == Header
    ensures multiset(rows[1..]) == multiset(RowsOf(counts, triggers))
    ensures forall i, j :: 1 <= i < j < |rows| ==>
              rows[i][3].Number? && rows[j][3].Number? && rows[i][3].value >= rows[j][3].value
  {
    var sorted := SortByCount(counts, triggers);
    rows := [Header];
    for i := 0 to |sorted|
      invariant rows == [Header] + RowsOf(counts, sorted[..i])
    {
      assert RowsOf(counts, sorted[..i + 1]) == RowsOf(counts, sorted[..i]) + [RowOf(counts, sorted[i])];
      rows := rows + [RowOf(counts, sorted[i])];
    }
    assert rows == Report(counts, triggers) by {
      assert sorted[..|sorted|] == sorted;
    }
    ReportProperties(counts, triggers);
  }
}
