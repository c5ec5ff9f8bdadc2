/** The write side of the single-file iteration: the registry operations on
    the global table list, schema creation, and `insert`, which reads the
    table's CSV document, overwrites or appends one row and saves it. */
module SkeletStore {
  import opened CppStream
  import opened CppNumbers
  import opened SkeletRegistry

  /** A `<table>.csv` file as the CSV library presents it: the header line
      and the data rows (the header is not counted as a row). */
  datatype CsvDoc = CsvDoc(header: string, rows: seq<seq<string>>)

  /** How the key scan of `insert` ended.  MissingKeyCell and
      UnreadableKey are the exceptions thrown by reading cell 0 of a row
      without cells and by std::stoi; they end the process before the
      document is saved. */
  datatype Scan = Overwrote(row: nat) | AppendedRow | MissingKeyCell(row: nat) | UnreadableKey(row: nat) {
    predicate Aborted() {
      MissingKeyCell? || UnreadableKey?
    }
  }

  datatype InsertStatus = TableMissing | TableLocked | DocumentMissing | Scanned(scan: Scan)

  /** The key an insert into rows looks for: the row count plus one. */
  function NewKey(rows: seq<seq<string>>): nat {
    |rows| + 1
  }

  /** The key cell of row reads as a number. */
  predicate KeyReadable(row: seq<string>) {
    |row| > 0 && Stoi(row[0]).Some?
  }

  /** `stoi(key) == lineCount + 1`, where the int is converted to size_t
      for the comparison. */
  predicate KeyMatches(row: seq<string>, lineCount: nat)
    requires KeyReadable(row)
  {
    Stoi(row[0]).value % SizeModulus == lineCount + 1
  }

  /** Where the key scan over rows stops: the first row whose key cell is
      missing, unreadable or equal to the new key; |rows| when none is. */
  function StopRow(rows: seq<seq<string>>, lineCount: nat): (k: nat)
    ensures k <= |rows|
  {
    if rows == [] then 0
    else if !KeyReadable(rows[0]) || KeyMatches(rows[0], lineCount) then 0
    else 1 + StopRow(rows[1..], lineCount)
  }

  /** The scan passes over every row before the stop row and not over the
      stop row itself. */
  lemma {:induction false} StopRowStops(rows: seq<seq<string>>, lineCount: nat)
    ensures forall i :: 0 <= i < StopRow(rows, lineCount) ==> KeyReadable(rows[i]) && !KeyMatches(rows[i], lineCount)
    ensures var k := StopRow(rows, lineCount);
      k < |rows| ==> !KeyReadable(rows[k]) || KeyMatches(rows[k], lineCount)
    decreases |rows|
  {
    if rows != [] && KeyReadable(rows[0]) && !KeyMatches(rows[0], lineCount) {
      var tail := rows[1..];
      StopRowStops(tail, lineCount);
      var k := StopRow(rows, lineCount);
      assert k == 1 + StopRow(tail, lineCount);
      forall i | 1 <= i < k ensures KeyReadable(rows[i]) && !KeyMatches(rows[i], lineCount) {
        assert rows[i] == tail[i - 1];
      }
      if k < |rows| {
        assert rows[k] == tail[k - 1];
      }
    }
  }

  /** The CSV library's SetCell(j, ·, v) on one row, under the model's
      grid abstraction: a row too short to have cell j is padded with
      empty cells first. */
  function SetCell(row: seq<string>, j: nat, v: string): (r: seq<string>)
    ensures |r| == if j < |row| then |row| else j + 1
    ensures r[j] == v
    ensures forall k :: 0 <= k < |row| && k != j ==> r[k] == row[k]
  {
    if j < |row| then row[j := v] else row + seq(j - |row|, _ => "") + [v]
  }

  /** row with its cells 0..|vals|-1 replaced by vals. */
  function Overwritten(row: seq<string>, vals: seq<string>): (r: seq<string>)
    ensures |r| == if |vals| <= |row| then |row| else |vals|
    ensures forall k :: 0 <= k < |vals| ==> r[k] == vals[k]
    ensures forall k :: |vals| <= k < |row| ==> r[k] == row[k]
  {
    if |vals| <= |row| then vals + row[|vals|..] else vals
  }

  /** The rows of the document after `insert` with the value list values,
      together with how the scan ended. */
  function InsertRows(rows: seq<seq<string>>, values: string): (seq<seq<string>>, Scan) {
    var k := StopRow(rows, |rows|);
    var vals := Fields(values, ',');
    if k == |rows| then (rows + [[NatText(NewKey(rows))] + vals], AppendedRow)
    else if |rows[k]| == 0 then (rows, MissingKeyCell(k))
    else if Stoi(rows[k][0]).None? then (rows, UnreadableKey(k))
    else (rows[k := Overwritten(rows[k], vals)], Overwrote(k))
  }

  /** `insert` appends a row exactly when every row's key reads as a
      number other than row count + 1; the new row holds that key and the
      comma-split values, and the old rows stay. */
  lemma InsertAppends(rows: seq<seq<string>>, values: string)
    ensures var (after, scan) := InsertRows(rows, values);
      && (scan.AppendedRow? <==>
            forall i :: 0 <= i < |rows| ==> KeyReadable(rows[i]) && !KeyMatches(rows[i], |rows|))
      && (scan.AppendedRow? ==>
            |after| == |rows| + 1 && after[..|rows|] == rows
            && after[|rows|] == [NatText(|rows| + 1)] + Fields(values, ','))
  {
    StopRowStops(rows, |rows|);
    var k := StopRow(rows, |rows|);
    if k < |rows| {
      assert !(KeyReadable(rows[k]) && !KeyMatches(rows[k], |rows|));
    }
  }

  /** When `insert` overwrites, it is the first row keyed row count + 1,
      only that row changes, and only in its first cells, which receive
      the values; the row count stays. */
  lemma InsertOverwrites(rows: seq<seq<string>>, values: string)
    ensures var (after, scan) := InsertRows(rows, values);
      scan.Overwrote? ==>
        && scan.row < |rows| && KeyReadable(rows[scan.row]) && KeyMatches(rows[scan.row], |rows|)
        && (forall i :: 0 <= i < scan.row ==> KeyReadable(rows[i]) && !KeyMatches(rows[i], |rows|))
        && |after| == |rows|
        && (forall i :: 0 <= i < |rows| && i != scan.row ==> after[i] == rows[i])
        && (forall j :: 0 <= j < |Fields(values, ',')| ==> after[scan.row][j] == Fields(values, ',')[j])
        && (forall j :: |Fields(values, ',')| <= j < |rows[scan.row]| ==> after[scan.row][j] == rows[scan.row][j])
  {
    StopRowStops(rows, |rows|);
  }

  /** A row without a key cell or with an unreadable one, met before any
      row keyed row count + 1, aborts `insert` with the rows unchanged. */
  lemma InsertAborts(rows: seq<seq<string>>, values: string)
    ensures var (after, scan) := InsertRows(rows, values);
      && (scan.Aborted() ==> after == rows && scan.row < |rows| && !KeyReadable(rows[scan.row]))
      && (scan.Aborted() <==> StopRow(rows, |rows|) < |rows| && !KeyReadable(rows[StopRow(rows, |rows|)]))
  {
    StopRowStops(rows, |rows|);
  }

  /** The scan stops at row i when every earlier row was passed over and
      row i is not. */
  lemma {:induction false} StopRowAt(rows: seq<seq<string>>, lineCount: nat, i: nat)
    requires i <= |rows|
    requires forall k :: 0 <= k < i ==> KeyReadable(rows[k]) && !KeyMatches(rows[k], lineCount)
    requires i < |rows| ==> !KeyReadable(rows[i]) || KeyMatches(rows[i], lineCount)
    ensures StopRow(rows, lineCount) == i
    decreases i
  {
    if i > 0 {
      var tail := rows[1..];
      forall k | 0 <= k < i - 1 ensures KeyReadable(tail[k]) && !KeyMatches(tail[k], lineCount) {
        assert tail[k] == rows[k + 1];
      }
      if i - 1 < |tail| {
        assert tail[i - 1] == rows[i];
      }
      StopRowAt(tail, lineCount, i - 1);
    }
  }

  /** Overwriting one more cell is one more SetCell. */
  lemma OverwrittenStep(row: seq<string>, vals: seq<string>, j: nat)
    requires j < |vals|
    ensures Overwritten(row, vals[..j + 1]) == SetCell(Overwritten(row, vals[..j]), j, vals[j])
  {
    var a, b := Overwritten(row, vals[..j + 1]), SetCell(Overwritten(row, vals[..j]), j, vals[j]);
    assert |a| == |b|;
    forall k | 0 <= k < |a| ensures a[k] == b[k] {
      if k < j {
        assert a[k] == vals[..j + 1][k] == vals[k];
      }
    }
  }

  /** The SetCell loop of `insert` over the matching row. */
  method OverwriteRow(row: seq<string>, vals: seq<string>) returns (r: seq<string>)
    ensures r == Overwritten(row, vals)
  {
    r := row;
    var j := 0;
    assert vals[..0] == [];
    while j < |vals|
      invariant 0 <= j <= |vals|
      invariant r == Overwritten(row, vals[..j])
    {
      OverwrittenStep(row, vals, j);
      r := SetCell(r, j, vals[j]);
      j := j + 1;
    }
    assert vals[..j] == vals;
  }

  /** The row-updating part of `insert` on the rows of the document: split the
      values at commas, scan for the new key, then overwrite the matching
      row cell by cell or append a new row. */
  method ApplyInsert(rows: seq<seq<string>>, values: string) returns (after: seq<seq<string>>, scan: Scan)
    ensures (after, scan) == InsertRows(rows, values)
  {
    var lineCount := |rows|;
    var newValues := ReadFields(values, ',');
    var i := ScanKeys(rows, lineCount);
    if i == lineCount {
      newValues := [NatText(lineCount + 1)] + newValues;
      after, scan := rows + [newValues], AppendedRow;
    } else if |rows[i]| == 0 {
      after, scan := rows, MissingKeyCell(i);
    } else if Stoi(rows[i][0]).None? {
      after, scan := rows, UnreadableKey(i);
    } else {
      var row := OverwriteRow(rows[i], newValues);
      after, scan := rows[i := row], Overwrote(i);
    }
  }

  /** The loop over the rows of `insert`: it passes over every row whose
      key cell reads as a number other than the new key, and stops at the
      first other row (where the cell read throws, or the row is
      overwritten). */
  method ScanKeys(rows: seq<seq<string>>, lineCount: nat) returns (i: nat)
    ensures i == StopRow(rows, lineCount)
  {
    i := 0;
    while i < |rows|
      invariant 0 <= i <= |rows|
      invariant forall k :: 0 <= k < i ==> KeyReadable(rows[k]) && !KeyMatches(rows[k], lineCount)
    {
      if !KeyReadable(rows[i]) || KeyMatches(rows[i], lineCount) {
        StopRowAt(rows, lineCount, i);
        return;
      }
      i := i + 1;
    }
    StopRowAt(rows, lineCount, i);
  }

  /** The header line createFiles writes to a new `<table>.csv`. */
  method HeaderLine(columns: seq<string>) returns (line: string)
    ensures line == "PrimaryKey," + Join(columns, ',')
  {
    line := "PrimaryKey,";
    var i := 0;
    while i < |columns|
      invariant 0 <= i <= |columns|
      invariant line == "PrimaryKey," + Join(columns[..i], ',') + (if 0 < i < |columns| then "," else "")
    {
      assert columns[..i + 1] == columns[..i] + [columns[i]];
      JoinSnoc(columns[..i], columns[i]);
      line := line + columns[i];
      if i < |columns| - 1 {
        line := line + ",";
      }
      i := i + 1;
    }
    assert columns[..i] == columns;
  }

  lemma {:induction false} JoinSnoc(xs: seq<string>, x: string)
    ensures Join(xs + [x], ',') == if xs == [] then x else Join(xs, ',') + [','] + x
    decreases |xs|
  {
    if |xs| > 1 {
      assert (xs + [x])[1..] == xs[1..] + [x];
      JoinSnoc(xs[1..], x);
    } else if |xs| == 1 {
      assert (xs + [x])[1..] == [x];
    }
  }

  /** Reading the header of a fresh table back gives "PrimaryKey" followed
      by the table's columns, as long as no column name holds a comma and
      the last one is not empty. */
  lemma HeaderFields(columns: seq<string>)
    requires forall k :: 0 <= k < |columns| ==> ',' !in columns[k]
    requires columns != [] ==> columns[|columns| - 1] != ""
    ensures Fields("PrimaryKey," + Join(columns, ','), ',') == ["PrimaryKey"] + columns
  {
    var key := "PrimaryKey";
    assert key + [','] == "PrimaryKey,";
    assert ',' !in key;
    FieldsCons(key, ',', Join(columns, ','));
    FieldsOfJoin(columns, ',');
  }

  /** The files one table of the schema gets, and its registry node. */
  function LockFileName(table: string): string { table + "_lock.txt" }
  function KeyFileName(table: string): string { table + "_primary_key.txt" }
  function DataFileName(table: string): string { table + ".csv" }
  function ColumnsFileName(table: string): string { table + "_columns.txt" }

  /** Nodes createFiles puts in front of the registry, newest first. */
  function CreatedNodes(structure: seq<(string, seq<string>)>): seq<TableNode>
    decreases |structure|
  {
    if structure == [] then []
    else
      var (name, _) := structure[|structure| - 1];
      [TableNode(name, ColumnsFileName(name), DataFileName(name), false)]
        + CreatedNodes(structure[..|structure| - 1])
  }

  /** CSV files createFiles writes, later tables overwriting earlier ones. */
  function CreatedDocs(structure: seq<(string, seq<string>)>): map<string, CsvDoc>
    decreases |structure|
  {
    if structure == [] then map[]
    else
      var (name, columns) := structure[|structure| - 1];
      CreatedDocs(structure[..|structure| - 1])[DataFileName(name) := CsvDoc("PrimaryKey," + Join(columns, ','), [])]
  }

  /** Lock and key files createFiles writes, in the order it writes them. */
  function CreatedTexts(structure: seq<(string, seq<string>)>): map<string, string>
    decreases |structure|
  {
    if structure == [] then map[]
    else
      var (name, _) := structure[|structure| - 1];
      CreatedTexts(structure[..|structure| - 1])
        [LockFileName(name) := "Status: unlocked\n"][KeyFileName(name) := "Primary Key: 1"]
  }

  /** One more table of the schema adds its node and its files. */
  lemma CreatedStep(structure: seq<(string, seq<string>)>, n: nat)
    requires n < |structure|
    ensures var (name, columns) := structure[n];
      && CreatedNodes(structure[..n + 1])
           == [TableNode(name, ColumnsFileName(name), DataFileName(name), false)] + CreatedNodes(structure[..n])
      && CreatedDocs(structure[..n + 1])
           == CreatedDocs(structure[..n])[DataFileName(name) := CsvDoc("PrimaryKey," + Join(columns, ','), [])]
      && CreatedTexts(structure[..n + 1])
           == CreatedTexts(structure[..n])[LockFileName(name) := "Status: unlocked\n"][KeyFileName(name) := "Primary Key: 1"]
  {
    assert structure[..n + 1][..n] == structure[..n];
  }

  /** Writing a file over a merged directory is writing it over the
      written part. */
  lemma MergeUpdate<V>(m: map<string, V>, c: map<string, V>, k: string, v: V)
    ensures (m + c)[k := v] == m + c[k := v]
  {
  }

  /** A lock file name and a key file name never coincide. */
  lemma LockIsNotKeyFile(a: string, b: string)
    ensures LockFileName(a) != KeyFileName(b)
  {
    var l, k := LockFileName(a), KeyFileName(b);
    assert l[|l| - 9] == '_';
    assert k[|k| - 9] == 'y';
  }

  /** Equal file names built with the same suffix come from equal tables. */
  lemma SuffixCancels(a: string, b: string, suffix: string)
    requires a + suffix == b + suffix
    ensures a == b
  {
    assert a == (a + suffix)[..|a|];
    assert b == (b + suffix)[..|b|];
  }

  /** With distinct table names (JSON object keys), every table of the
      schema ends up with its own header-only CSV file, an unlocked lock
      file and a key file starting at 1. */
  lemma {:induction false} CreatedFilesOfTable(structure: seq<(string, seq<string>)>, i: nat)
    requires forall a, b :: 0 <= a < b < |structure| ==> structure[a].0 != structure[b].0
    requires i < |structure|
    ensures DataFileName(structure[i].0) in CreatedDocs(structure)
    ensures CreatedDocs(structure)[DataFileName(structure[i].0)]
              == CsvDoc("PrimaryKey," + Join(structure[i].1, ','), [])
    ensures LockFileName(structure[i].0) in CreatedTexts(structure)
    ensures CreatedTexts(structure)[LockFileName(structure[i].0)] == "Status: unlocked\n"
    ensures KeyFileName(structure[i].0) in CreatedTexts(structure)
    ensures CreatedTexts(structure)[KeyFileName(structure[i].0)] == "Primary Key: 1"
    decreases |structure|
  {
    var last := |structure| - 1;
    var name := structure[i].0;
    LockIsNotKeyFile(name, name);
    if i < last {
      var other := structure[last].0;
      var prefix := structure[..last];
      assert prefix[i] == structure[i];
      CreatedFilesOfTable(prefix, i);
      if DataFileName(name) == DataFileName(other) {
        SuffixCancels(name, other, ".csv");
      }
      if LockFileName(name) == LockFileName(other) {
        SuffixCancels(name, other, "_lock.txt");
      }
      if KeyFileName(name) == KeyFileName(other) {
        SuffixCancels(name, other, "_primary_key.txt");
      }
      LockIsNotKeyFile(name, other);
      LockIsNotKeyFile(other, name);
    }
  }

  class Database {
    /** The registry list, head first. */
    var tableHead: seq<TableNode>
    /** Files read and written through the CSV library, by name. */
    var csvFiles: map<string, CsvDoc>
    /** Plain text files (lock and key files), by name. */
    var textFiles: map<string, string>

    constructor ()
      ensures tableHead == [] && csvFiles == map[] && textFiles == map[]
    {
      tableHead := [];
      csvFiles := map[];
      textFiles := map[];
    }

    /** isLocked: the flag of the first node with the name, false when the
        table is not registered. */
    method IsLocked(name: string) returns (b: bool)
      ensures b == LockedIn(tableHead, name)
      ensures !Registered(tableHead, name) ==> !b
    {
      var i := 0;
      while i < |tableHead|
        invariant 0 <= i <= |tableHead|
        invariant forall j :: 0 <= j < i ==> tableHead[j].name != name
      {
        if tableHead[i].name == name {
          return tableHead[i].isLocked;
        }
        i := i + 1;
      }
      return false;
    }

    /** locker: inverts the lock flag of the first node with the name. */
    method Locker(name: string)
      modifies this
      ensures tableHead == Toggled(old(tableHead), name)
      ensures csvFiles == old(csvFiles) && textFiles == old(textFiles)
    {
      var i := 0;
      while i < |tableHead|
        invariant 0 <= i <= |tableHead|
        invariant tableHead == old(tableHead)
        invariant forall j :: 0 <= j < i ==> tableHead[j].name != name
      {
        if tableHead[i].name == name {
          tableHead := tableHead[i := tableHead[i].(isLocked := !tableHead[i].isLocked)];
          return;
        }
        i := i + 1;
      }
    }

    /** isTableExist: some node carries the name. */
    method IsTableExist(name: string) returns (b: bool)
      ensures b <==> Registered(tableHead, name)
    {
      var i := 0;
      while i < |tableHead|
        invariant 0 <= i <= |tableHead|
        invariant forall j :: 0 <= j < i ==> tableHead[j].name != name
      {
        if tableHead[i].name == name {
          return true;
        }
        i := i + 1;
      }
      return false;
    }

    /** addTable: a new unlocked node becomes the head of the list. */
    method AddTable(name: string, columnsFile: string, dataFile: string)
      modifies this
      ensures tableHead == Prepended(old(tableHead), name, columnsFile, dataFile)
      ensures Registered(tableHead, name) && !LockedIn(tableHead, name)
      ensures csvFiles == old(csvFiles) && textFiles == old(textFiles)
    {
      tableHead := [TableNode(name, columnsFile, dataFile, false)] + tableHead;
      assert tableHead[0].name == name;
    }

    /** insert(tableName, values): refused for an unknown or locked table;
        otherwise the table is locked, its document is read, the rows are
        updated as InsertRows says, the document is saved and the table is
        unlocked again.  A missing document or an unreadable key cell
        throws, which ends the process with the table still locked and
        nothing saved. */
    method Insert(name: string, values: string) returns (status: InsertStatus)
      modifies this
      ensures !Registered(old(tableHead), name) ==>
                status == TableMissing && tableHead == old(tableHead)
                && csvFiles == old(csvFiles) && textFiles == old(textFiles)
      ensures Registered(old(tableHead), name) && LockedIn(old(tableHead), name) ==>
                status == TableLocked && tableHead == old(tableHead)
                && csvFiles == old(csvFiles) && textFiles == old(textFiles)
      ensures Registered(old(tableHead), name) && !LockedIn(old(tableHead), name)
              && DataFileName(name) !in old(csvFiles) ==>
                status == DocumentMissing && tableHead == Toggled(old(tableHead), name)
                && LockedIn(tableHead, name)
                && csvFiles == old(csvFiles) && textFiles == old(textFiles)
      ensures Registered(old(tableHead), name) && !LockedIn(old(tableHead), name)
              && DataFileName(name) in old(csvFiles) ==>
                var doc := old(csvFiles)[DataFileName(name)];
                var (rows, scan) := InsertRows(doc.rows, values);
                && status == Scanned(scan)
                && textFiles == old(textFiles)
                && (scan.Aborted() ==>
                      tableHead == Toggled(old(tableHead), name) && LockedIn(tableHead, name)
                      && csvFiles == old(csvFiles))
                && (!scan.Aborted() ==>
                      tableHead == old(tableHead) && !LockedIn(tableHead, name)
                      && csvFiles == old(csvFiles)[DataFileName(name) := doc.(rows := rows)])
    {
      var present := IsTableExist(name);
      if !present {
        return TableMissing;
      }
      var locked := IsLocked(name);
      if locked {
        return TableLocked;
      }
      ToggledChangesOnlyFirstMatch(tableHead, name);
      Locker(name);
      var dataFile := name + ".csv";
      if dataFile !in csvFiles {
        return DocumentMissing;
      }
      var doc := csvFiles[dataFile];
      var rows, scan := ApplyInsert(doc.rows, values);
      if scan.Aborted() {
        return Scanned(scan);
      }
      csvFiles := csvFiles[dataFile := doc.(rows := rows)];
      ToggledTwice(old(tableHead), name);
      Locker(name);
      return Scanned(scan);
    }

    /** createFiles over the tables of a schema, in the order the JSON
        library lists them: each table gets a lock file, a CSV file holding
        only the header, a key file, and a registry node in front of the
        list.  Files of the same names are overwritten. */
    method CreateFiles(structure: seq<(string, seq<string>)>)
      modifies this
      ensures tableHead == CreatedNodes(structure) + old(tableHead)
      ensures csvFiles == old(csvFiles) + CreatedDocs(structure)
      ensures textFiles == old(textFiles) + CreatedTexts(structure)
    {
      var n := 0;
      while n < |structure|
        invariant 0 <= n <= |structure|
        invariant tableHead == CreatedNodes(structure[..n]) + old(tableHead)
        invariant csvFiles == old(csvFiles) + CreatedDocs(structure[..n])
        invariant textFiles == old(textFiles) + CreatedTexts(structure[..n])
      {
        var (name, columns) := structure[n];
        CreatedStep(structure, n);
        MergeUpdate(old(textFiles), CreatedTexts(structure[..n]), LockFileName(name), "Status: unlocked\n");
        MergeUpdate(old(textFiles), CreatedTexts(structure[..n])[LockFileName(name) := "Status: unlocked\n"],
                    KeyFileName(name), "Primary Key: 1");
        MergeUpdate(old(csvFiles), CreatedDocs(structure[..n]), DataFileName(name),
                    CsvDoc("PrimaryKey," + Join(columns, ','), []));
        CreateTable(name, columns);
        n := n + 1;
      }
      assert structure[..n] == structure;
    }

    /** The body of createFiles for one table: the lock file, the CSV file
        with the header line, the key file, and the registry node. */
    method CreateTable(name: string, columns: seq<string>)
      modifies this
      ensures textFiles == old(textFiles)[LockFileName(name) := "Status: unlocked\n"][KeyFileName(name) := "Primary Key: 1"]
      ensures csvFiles == old(csvFiles)[DataFileName(name) := CsvDoc("PrimaryKey," + Join(columns, ','), [])]
      ensures tableHead == [TableNode(name, ColumnsFileName(name), DataFileName(name), false)] + old(tableHead)
    {
      textFiles := textFiles[name + "_lock.txt" := "Status: unlocked\n"];
      var header := HeaderLine(columns);
      csvFiles := csvFiles[name + ".csv" := CsvDoc(header, [])];
      textFiles := textFiles[name + "_primary_key.txt" := "Primary Key: 1"];
      AddTable(name, name + "_columns.txt", name + ".csv");
    }
  }
}
