/** The query side of the single-file iteration: header lookups, field
    extraction, the one-clause WHERE test, column projection and the
    parsing done by `select`.  A file is its text; what `select` and
    `printColumns` print is returned instead. */
module SkeletQuery {
  import opened CppStream
  import opened CppNumbers

  /** (size_t)-1, the "not found" answer of findColumnIndex. */
  const SizeMax: int := SizeModulus - 1

  /** The qualifiers a WHERE clause names its two tables by. */
  const FirstTable: string := "таблица1"
  const SecondTable: string := "таблица2"

  /** Position of the first element of xs equal to x, or |xs|. */
  function FirstIndex(xs: seq<string>, x: string): (i: nat)
    ensures i <= |xs|
    ensures i < |xs| ==> xs[i] == x
    ensures forall j :: 0 <= j < i ==> xs[j] != x
  {
    if xs == [] then 0 else if xs[0] == x then 0 else 1 + FirstIndex(xs[1..], x)
  }

  /** findColumnIndex: the position of the first comma-separated header
      field equal to the name, or SizeMax when no field is. */
  function FindColumnIndex(header: string, columnName: string): (r: int)
    ensures columnName !in Fields(header, ',') ==> r == SizeMax
    ensures columnName in Fields(header, ',') ==>
              0 <= r < |Fields(header, ',')| && Fields(header, ',')[r] == columnName
              && columnName !in Fields(header, ',')[..r]
  {
    var fields := Fields(header, ',');
    var i := FirstIndex(fields, columnName);
    if i < |fields| then i else SizeMax
  }

  /** n successive std::getline calls on a stream; the second component is
      the target string after the last of them. */
  function ReadFieldTimes(st: IStream, d: char, n: nat, value: string): (r: (IStream, string))
    ensures st.Valid() ==> r.0.Valid()
    ensures st.Valid() && 0 < n <= |st.PendingFields(d)| ==> r.1 == st.PendingFields(d)[n - 1]
    ensures st.Valid() && n <= |st.PendingFields(d)| ==> r.0.PendingFields(d) == st.PendingFields(d)[n..]
    ensures st.Valid() && n > |st.PendingFields(d)| ==> r.0.PendingFields(d) == []
    decreases n
  {
    if n == 0 then (st, value)
    else
      var next := Getline(st, d, value);
      ReadFieldTimes(next.0, d, n - 1, next.1)
  }

  /** getColumnValue: the field of line under the named header column, or
      "" when the header has no such column. */
  function GetColumnValue(line: string, columnName: string, headerLine: string): (v: string)
    ensures columnName !in Fields(headerLine, ',') ==> v == ""
    ensures var i := FindColumnIndex(headerLine, columnName);
              i != SizeMax && i < |Fields(line, ',')| ==> v == Fields(line, ',')[i]
  {
    var index := FindColumnIndex(headerLine, columnName);
    if index != SizeMax then
      assert Open(line).PendingFields(',') == Fields(line, ',');
      ReadFieldTimes(Open(line), ',', index + 1, "").1
    else ""
  }

  /** The right-hand side of a condition with one pair of enclosing single
      quotes removed; a lone quote becomes empty. */
  function StripQuotes(s: string): (r: string)
    ensures |s| >= 2 && s[0] == '\'' && s[|s| - 1] == '\'' ==> r == s[1..|s| - 1]
    ensures (s == [] || s[0] != '\'' || s[|s| - 1] != '\'') ==> r == s
    ensures s == "'" ==> r == ""
  {
    if |s| > 0 && s[0] == '\'' && s[|s| - 1] == '\'' then (if |s| >= 2 then s[1..|s| - 1] else "") else s
  }

  /** The two sides of a condition once whitespace is erased: the text
      before the first '=' and the unquoted text after it; None without
      '='. */
  function ConditionSides(where: string): Option<(string, string)> {
    var w := RemoveSpaces(where);
    var e := IndexOf(w, '=');
    if e == |w| then None else Some((w[..e], StripQuotes(w[e + 1..])))
  }

  /** The values a left-hand side `<qualifier>.<column>` selects from the
      two lines: the first for FirstTable, the second for SecondTable,
      "" for the other. */
  function QualifiedValues(left: string, line1: string, line2: string, headerLine1: string, headerLine2: string): (string, string) {
    var dot := IndexOf(left, '.');
    if dot == |left| then ("", "")
    else if left[..dot] == FirstTable then (GetColumnValue(line1, left[dot + 1..], headerLine1), "")
    else if left[..dot] == SecondTable then ("", GetColumnValue(line2, left[dot + 1..], headerLine2))
    else ("", "")
  }

  /** checkWhereCondition: erase whitespace; without '=' the condition is
      false; otherwise it holds when the unquoted right-hand side equals
      one of the values the qualified column selects. */
  function CheckWhereCondition(line1: string, line2: string, where: string, headerLine1: string, headerLine2: string): (b: bool)
    ensures ConditionSides(where).None? ==> !b
    ensures b && ConditionSides(where).value.1 != "" ==>
              var (left, literal) := ConditionSides(where).value;
              var dot := IndexOf(left, '.');
              && dot < |left|
              && ((left[..dot] == FirstTable && literal == GetColumnValue(line1, left[dot + 1..], headerLine1))
                  || (left[..dot] == SecondTable && literal == GetColumnValue(line2, left[dot + 1..], headerLine2)))
  {
    match ConditionSides(where)
    case None => false
    case Some((left, literal)) =>
      var (v1, v2) := QualifiedValues(left, line1, line2, headerLine1, headerLine2);
      literal == v1 || literal == v2
  }

  /** A condition with no whitespace and no '=' on its left splits at
      that '='. */
  lemma ConditionSidesOf(left: string, right: string)
    requires forall k :: 0 <= k < |left| ==> !IsSpace(left[k]) && left[k] != '='
    requires forall k :: 0 <= k < |right| ==> !IsSpace(right[k])
    ensures ConditionSides(left + "=" + right) == Some((left, StripQuotes(right)))
  {
    var where := left + "=" + right;
    assert forall k :: 0 <= k < |where| ==> !IsSpace(where[k]);
    RemoveSpacesErases(where);
    assert RemoveSpaces(where) == where;
    assert '=' !in left;
    IndexOfJoined(left, '=', right);
    assert where[..|left|] == left;
    assert where[|left| + 1..] == right;
  }

  /** The qualifier of `<qualifier>.<column>` when the qualifier holds no
      dot. */
  lemma QualifierOf(qualifier: string, column: string)
    requires '.' !in qualifier
    ensures var left := qualifier + "." + column;
      var dot := IndexOf(left, '.');
      dot == |qualifier| && left[..dot] == qualifier && left[dot + 1..] == column
  {
    IndexOfJoined(qualifier, '.', column);
    var left := qualifier + "." + column;
    assert left[..|qualifier|] == qualifier;
    assert left[|qualifier| + 1..] == column;
  }

  /** `таблица1.<column>='<literal>'` holds exactly when the literal is the
      first line's value in that column. */
  lemma WhereOnFirstTable(column: string, literal: string, line1: string, line2: string, headerLine1: string, headerLine2: string)
    requires literal != ""
    requires forall k :: 0 <= k < |column| ==> !IsSpace(column[k]) && column[k] != '='
    requires forall k :: 0 <= k < |literal| ==> !IsSpace(literal[k]) && literal[k] != '\''
    ensures CheckWhereCondition(line1, line2, FirstTable + "." + column + "='" + literal + "'", headerLine1, headerLine2)
            <==> literal == GetColumnValue(line1, column, headerLine1)
  {
    var left := FirstTable + "." + column;
    var right := "'" + literal + "'";
    assert left + "=" + right == FirstTable + "." + column + "='" + literal + "'";
    assert forall k :: 0 <= k < |left| ==> !IsSpace(left[k]) && left[k] != '=' by {
      forall k | 0 <= k < |left| ensures !IsSpace(left[k]) && left[k] != '=' {
        if k < |FirstTable| {
          assert left[k] == FirstTable[k];
        } else if k > |FirstTable| {
          assert left[k] == column[k - |FirstTable| - 1];
        }
      }
    }
    ConditionSidesOf(left, right);
    assert StripQuotes(right) == literal;
    QualifierOf(FirstTable, column);
  }

  /** The quirk of the comparison: a condition whose qualifier names
      neither table compares the literal with "", so an empty literal
      (`x.c=''`) holds for every pair of lines and any other fails. */
  lemma WhereOnUnknownTable(left: string, literal: string, line1: string, line2: string, headerLine1: string, headerLine2: string)
    requires forall k :: 0 <= k < |left| ==> !IsSpace(left[k]) && left[k] != '='
    requires forall k :: 0 <= k < |literal| ==> !IsSpace(literal[k])
    requires var dot := IndexOf(left, '.'); dot == |left| || (left[..dot] != FirstTable && left[..dot] != SecondTable)
    ensures CheckWhereCondition(line1, line2, left + "=" + literal, headerLine1, headerLine2)
            <==> StripQuotes(literal) == ""
  {
    ConditionSidesOf(left, literal);
  }

  /** The cleaning printColumns applies to a printed value: one pair of
      enclosing double quotes goes (a lone quote becomes empty), then every
      blank. */
  function CleanValue(v: string): string {
    if v == [] then []
    else
      var u := if v[0] == '"' && v[|v| - 1] == '"' then (if |v| >= 2 then v[1..|v| - 1] else "") else v;
      RemoveChar(u, ' ')
  }

  /** A printed value holds no blank; a value without enclosing quotes and
      blanks prints as it is stored, a quoted one without its quotes. */
  lemma CleanValueOf(v: string)
    ensures ' ' !in CleanValue(v)
    ensures (v == [] || v[0] != '"' || v[|v| - 1] != '"') && ' ' !in v ==> CleanValue(v) == v
    ensures |v| >= 2 && v[0] == '"' && v[|v| - 1] == '"' && ' ' !in v ==> CleanValue(v) == v[1..|v| - 1]
  {
    if v != [] {
      var u := if v[0] == '"' && v[|v| - 1] == '"' then (if |v| >= 2 then v[1..|v| - 1] else "") else v;
      RemoveCharErases(u, ' ');
      if |v| >= 2 && v[0] == '"' && v[|v| - 1] == '"' && ' ' !in v {
        assert ' ' !in v[1..|v| - 1];
      }
    }
  }

  /** The header positions printColumns prints, found by reading the header
      field by field and looking each field up among the requested names:
      strictly increasing positions, exactly those whose field was
      requested. */
  method SelectIndexes(headerLine: string, requested: seq<string>) returns (sel: seq<nat>)
    ensures forall k :: 0 <= k < |sel| ==> sel[k] < |Fields(headerLine, ',')| && Fields(headerLine, ',')[sel[k]] in requested
    ensures Ascending(sel)
    ensures forall i :: 0 <= i < |Fields(headerLine, ',')| && Fields(headerLine, ',')[i] in requested ==> i in sel
  {
    ghost var fields := Fields(headerLine, ',');
    var st := Open(headerLine);
    var column := "";
    var index: nat := 0;
    sel := [];
    st, column := GetlineStep(st, ',', column, fields, 0);
    while !st.fail
      invariant HeaderScan(st, column, fields, requested, sel, index)
      decreases |fields| - index
    {
      st, column, sel, index := SelectStep(st, column, fields, requested, sel, index);
    }
  }

  /** The state of the header scan at the field at position index: the
      stream has read it, and sel holds the requested positions before
      it. */
  ghost predicate HeaderScan(st: IStream, column: string, fields: seq<string>, requested: seq<string>, sel: seq<nat>, index: nat) {
    && index <= |fields|
    && Consumed(st, ',', fields, index + 1)
    && (st.fail <==> index >= |fields|)
    && (!st.fail ==> column == fields[index])
    && SelectedSoFar(fields, requested, sel, index)
  }

  /** One round of the header scan: keep the position when its field is
      requested, then read the next field. */
  method SelectStep(st: IStream, column: string, ghost fields: seq<string>, requested: seq<string>, sel: seq<nat>, index: nat)
    returns (st': IStream, column': string, sel': seq<nat>, index': nat)
    requires !st.fail && HeaderScan(st, column, fields, requested, sel, index)
    ensures index' == index + 1
    ensures HeaderScan(st', column', fields, requested, sel', index')
  {
    var found := IsRequested(column, requested);
    SelectKeeps(fields, requested, sel, index, found);
    sel' := if found then sel + [index] else sel;
    index' := index + 1;
    st', column' := GetlineStep(st, ',', column, fields, index');
  }

  /** sel holds, in ascending order, exactly the positions below index
      whose header field was requested. */
  ghost predicate SelectedSoFar(fields: seq<string>, requested: seq<string>, sel: seq<nat>, index: nat) {
    && (forall k :: 0 <= k < |sel| ==> sel[k] < index && sel[k] < |fields| && fields[sel[k]] in requested)
    && Ascending(sel)
    && (forall i :: 0 <= i < index && i < |fields| && fields[i] in requested ==> i in sel)
  }

  /** One round of the header scan keeps SelectedSoFar. */
  lemma SelectKeeps(fields: seq<string>, requested: seq<string>, sel: seq<nat>, index: nat, found: bool)
    requires index < |fields| && (found <==> fields[index] in requested)
    requires SelectedSoFar(fields, requested, sel, index)
    ensures SelectedSoFar(fields, requested, if found then sel + [index] else sel, index + 1)
  {
    if found {
      var sel' := sel + [index];
      assert forall k :: 0 <= k < |sel| ==> sel'[k] == sel[k];
    }
  }

  /** The inner loop of printColumns' header scan: whether the header
      field is among the requested names. */
  method IsRequested(column: string, requested: seq<string>) returns (found: bool)
    ensures found <==> column in requested
  {
    var c := 0;
    found := false;
    while c < |requested| && !found
      invariant 0 <= c <= |requested|
      invariant found ==> column in requested
      invariant !found ==> forall j :: 0 <= j < c ==> requested[j] != column
    {
      if column == requested[c] {
        found := true;
      }
      c := c + 1;
    }
  }

  /** The skipping loop of printColumns: getline into value while the
      counter is below the target position, counting each call. */
  method SkipFields(st: IStream, value: string, index: nat, target: nat, ghost fields: seq<string>, ghost read: nat)
    returns (st': IStream, value': string, index': nat)
    requires index <= target
    requires Consumed(st, ',', fields, read)
    ensures index' == target
    ensures Consumed(st', ',', fields, read + (target - index))
  {
    st', value', index' := st, value, index;
    ghost var count := read;
    while index' < target
      invariant index <= index' <= target
      invariant count == read + (index' - index)
      invariant Consumed(st', ',', fields, count)
    {
      st', value' := GetlineStep(st', ',', value', fields, count);
      index' := index' + 1;
      count := count + 1;
    }
  }

  /** The skipping loop followed by the getline that reads the value: on
      a stream that has read `read` fields, the value is the field at
      pos = read + (target - index). */
  method ReadAt(st: IStream, value: string, index: nat, target: nat, ghost fields: seq<string>, ghost read: nat, ghost pos: nat)
    returns (st': IStream, value': string, index': nat)
    requires index <= target && pos == read + (target - index)
    requires Consumed(st, ',', fields, read)
    ensures index' == target
    ensures Consumed(st', ',', fields, pos + 1)
    ensures pos < |fields| ==> value' == fields[pos]
  {
    st', value', index' := SkipFields(st, value, index, target, fields, read);
    st', value' := GetlineStep(st', ',', value', fields, pos);
  }

  /** ReadAt followed by cleaning the value in place and printing it: out
      grows by the cleaned value, at by the position it was read from, and
      the cleaned value is what the next column's reads start from. */
  method ShowAt(st: IStream, value: string, index: nat, target: nat, ghost fields: seq<string>, ghost read: nat, ghost pos: nat,
                out: seq<string>, ghost at: seq<nat>)
    returns (st': IStream, value': string, index': nat, out': seq<string>, ghost at': seq<nat>)
    requires index <= target && pos == read + (target - index)
    requires Consumed(st, ',', fields, read)
    requires |out| == |at| && Shows(out, fields, at)
    ensures index' == target
    ensures Consumed(st', ',', fields, pos + 1)
    ensures |out'| == |at'| == |out| + 1 && at' == at + [pos]
    ensures Shows(out', fields, at')
    ensures value' == out'[|out|]
  {
    st', value', index' := ReadAt(st, value, index, target, fields, read, pos);
    ShowsAppend(out, fields, at, value', pos);
    value' := CleanValue(value');
    out', at' := out + [value'], at + [pos];
  }

  /** The values printColumns prints for one data line, as the loop is
      written: it skips fields until its counter reaches the next selected
      position and reads one more field, but does not count the field it
      reads, so the k-th selected column (from 0) shows the field k places
      to the right of it. */
  method ProjectLineAsWritten(line: string, sel: seq<nat>) returns (out: seq<string>)
    requires Ascending(sel)
    ensures |out| == |sel|
    ensures forall k :: 0 <= k < |sel| && sel[k] + k < |Fields(line, ',')| ==>
              out[k] == CleanValue(Fields(line, ',')[sel[k] + k])
  {
    ghost var fields := Fields(line, ',');
    var st := Open(line);
    var value := "";
    var index := 0;
    out := [];
    var n := 0;
    ghost var read := 0;
    ghost var at: seq<nat> := [];
    while n < |sel|
      invariant n <= |sel|
      invariant AsWrittenSoFar(st, fields, sel, n, index, read, out, at)
    {
      st, value, index, read, out, at := AsWrittenStep(st, value, index, fields, sel, n, read, out, at);
      n := n + 1;
    }
  }

  /** The state of printColumns' loop as written after n selected columns:
      it has read n fields beyond its counter, and the k-th value shown
      came from position sel[k] + k. */
  ghost predicate AsWrittenSoFar(st: IStream, fields: seq<string>, sel: seq<nat>, n: nat, index: nat, read: nat,
                                 out: seq<string>, at: seq<nat>)
  {
    && n <= |sel| && |out| == n && |at| == n
    && index == (if n == 0 then 0 else sel[n - 1])
    && read == index + n
    && Consumed(st, ',', fields, read)
    && (forall k :: 0 <= k < n ==> at[k] == sel[k] + k)
    && Shows(out, fields, at)
  }

  /** One selected column of the loop as written. */
  method AsWrittenStep(st: IStream, value: string, index: nat, ghost fields: seq<string>, sel: seq<nat>, n: nat,
                       ghost read: nat, out: seq<string>, ghost at: seq<nat>)
    returns (st': IStream, value': string, index': nat, ghost read': nat, out': seq<string>, ghost at': seq<nat>)
    requires Ascending(sel) && n < |sel|
    requires AsWrittenSoFar(st, fields, sel, n, index, read, out, at)
    ensures AsWrittenSoFar(st', fields, sel, n + 1, index', read', out', at')
  {
    ghost var pos := sel[n] + n;
    assert index <= sel[n] by {
      if n > 0 {
        assert sel[n - 1] < sel[n];
      }
    }
    st', value', index', out', at' := ShowAt(st, value, index, sel[n], fields, read, pos, out, at);
    read' := pos + 1;
    forall k | 0 <= k < n + 1 ensures at'[k] == sel[k] + k {
      if k < n {
        assert at'[k] == at[k];
      }
    }
  }

  /** Strictly ascending positions. */
  predicate Ascending(sel: seq<nat>) {
    forall i, j :: 0 <= i < j < |sel| ==> sel[i] < sel[j]
  }

  /** out holds, for each position at[k] the line has, the cleaned field
      there. */
  ghost predicate Shows(out: seq<string>, fields: seq<string>, at: seq<nat>)
    requires |out| == |at|
  {
    forall k :: 0 <= k < |out| && at[k] < |fields| ==> out[k] == CleanValue(fields[at[k]])
  }

  lemma ShowsAppend(out: seq<string>, fields: seq<string>, at: seq<nat>, v: string, p: nat)
    requires |out| == |at| && Shows(out, fields, at)
    requires p < |fields| ==> v == fields[p]
    ensures Shows(out + [CleanValue(v)], fields, at + [p])
  {
    var out', at' := out + [CleanValue(v)], at + [p];
    forall k | 0 <= k < |out'| && at'[k] < |fields| ensures out'[k] == CleanValue(fields[at'[k]]) {
      if k < |out| {
        assert out'[k] == out[k] && at'[k] == at[k];
      }
    }
  }

  /** The values printColumns evidently means to print for one data line:
      the loop above with the field it reads counted, so that each
      selected column shows its own field. */
  method ProjectLine(line: string, sel: seq<nat>) returns (out: seq<string>)
    requires Ascending(sel)
    ensures |out| == |sel|
    ensures forall k :: 0 <= k < |sel| && sel[k] < |Fields(line, ',')| ==>
              out[k] == CleanValue(Fields(line, ',')[sel[k]])
  {
    ghost var fields := Fields(line, ',');
    var st := Open(line);
    var value := "";
    var index := 0;
    out := [];
    var n := 0;
    ghost var at: seq<nat> := [];
    while n < |sel|
      invariant n <= |sel|
      invariant ProjectedSoFar(st, fields, sel, n, index, out, at)
    {
      st, value, index, out, at := ProjectStep(st, value, index, fields, sel, n, out, at);
      n := n + 1;
    }
  }

  /** The state of the corrected loop after n selected columns: its
      counter is one past the last position read, and the k-th value shown
      came from position sel[k]. */
  ghost predicate ProjectedSoFar(st: IStream, fields: seq<string>, sel: seq<nat>, n: nat, index: nat,
                                 out: seq<string>, at: seq<nat>)
  {
    && n <= |sel| && |out| == n && |at| == n
    && index == (if n == 0 then 0 else sel[n - 1] + 1)
    && Consumed(st, ',', fields, index)
    && (forall k :: 0 <= k < n ==> at[k] == sel[k])
    && Shows(out, fields, at)
  }

  /** One selected column of the corrected loop. */
  method ProjectStep(st: IStream, value: string, index: nat, ghost fields: seq<string>, sel: seq<nat>, n: nat,
                     out: seq<string>, ghost at: seq<nat>)
    returns (st': IStream, value': string, index': nat, out': seq<string>, ghost at': seq<nat>)
    requires Ascending(sel) && n < |sel|
    requires ProjectedSoFar(st, fields, sel, n, index, out, at)
    ensures ProjectedSoFar(st', fields, sel, n + 1, index', out', at')
  {
    assert index <= sel[n] by {
      if n > 0 {
        assert sel[n - 1] < sel[n];
      }
    }
    var reached;
    st', value', reached, out', at' := ShowAt(st, value, index, sel[n], fields, index, sel[n], out, at);
    index' := reached + 1;
    forall k | 0 <= k < n + 1 ensures at'[k] == sel[k] {
      if k < n {
        assert at'[k] == at[k];
      }
    }
  }

  /** A field that prints as it is stored: no comma, blank or quote. */
  predicate PlainField(v: string) {
    ',' !in v && ' ' !in v && '"' !in v
  }

  /** The header "PrimaryKey,a,b,c" selects positions 1 and 2 for the
      request "a b".  On a row key,x,y,z of plain fields the loop as written
      then prints x,z; counting the field read prints x,y.  (With the row
      "1,x,y,z" the first prints "x,z" under the header "a,b".) */
  method ProjectLineCounterexample(key: string, x: string, y: string, z: string)
    returns (sel: seq<nat>, asWritten: seq<string>, intended: seq<string>)
    requires PlainField(key) && PlainField(x) && PlainField(y) && PlainField(z) && z != ""
    ensures sel == [1, 2]
    ensures asWritten == [x, z]
    ensures intended == [x, y]
  {
    sel := SelectAB();
    var line := key + "," + x + "," + y + "," + z;
    RowOfFourFields(key, x, y, z);
    PlainFieldPrints(x);
    PlainFieldPrints(y);
    PlainFieldPrints(z);
    asWritten := ProjectLineAsWritten(line, sel);
    assert asWritten[0] == CleanValue(x) && asWritten[1] == CleanValue(z);
    intended := ProjectLine(line, sel);
    assert intended[0] == CleanValue(x) && intended[1] == CleanValue(y);
  }

  /** The selection printColumns makes for the request "a b" under the
      header "PrimaryKey,a,b,c". */
  method SelectAB() returns (sel: seq<nat>)
    ensures sel == [1, 2]
  {
    var headerLine := "PrimaryKey" + "," + "a" + "," + "b" + "," + "c";
    RowOfFourFields("PrimaryKey", "a", "b", "c");
    sel := SelectIndexes(headerLine, ["a", "b"]);
    SelectionOfAB(sel);
  }

  /** The only selection of the header fields PrimaryKey, a, b, c that is
      ascending, holds only requested fields and every one of them, for
      the request a b, is positions 1 and 2. */
  lemma SelectionOfAB(sel: seq<nat>)
    requires forall k :: 0 <= k < |sel| ==> sel[k] < 4 && ["PrimaryKey", "a", "b", "c"][sel[k]] in ["a", "b"]
    requires Ascending(sel)
    requires 1 in sel && 2 in sel
    ensures sel == [1, 2]
  {
    var fields := ["PrimaryKey", "a", "b", "c"];
    assert fields[0] !in ["a", "b"] && fields[3] !in ["a", "b"];
    assert forall k :: 0 <= k < |sel| ==> 1 <= sel[k] <= 2;
    var i :| 0 <= i < |sel| && sel[i] == 1;
    var j :| 0 <= j < |sel| && sel[j] == 2;
    AscendingFloor(sel, |sel| - 1);
    assert |sel| == 2;
    assert sel[0] < sel[1];
  }

  /** Strictly ascending positions that start at 1 or later: the k-th is at
      least k + 1. */
  lemma AscendingFloor(sel: seq<nat>, k: nat)
    requires Ascending(sel) && k < |sel|
    requires forall m :: 0 <= m < |sel| ==> 1 <= sel[m]
    ensures sel[k] >= k + 1
  {
    if k > 0 {
      AscendingFloor(sel, k - 1);
      assert sel[k - 1] < sel[k];
    }
  }

  /** A plain field prints as it is stored. */
  lemma PlainFieldPrints(v: string)
    requires PlainField(v)
    ensures CleanValue(v) == v
  {
    CleanValueOf(v);
    if v != [] {
      assert v[0] in v;
    }
  }

  /** The fields of a row of four comma-free fields. */
  lemma RowOfFourFields(key: string, x: string, y: string, z: string)
    requires ',' !in key && ',' !in x && ',' !in y && ',' !in z && z != ""
    ensures Fields(key + "," + x + "," + y + "," + z, ',') == [key, x, y, z]
  {
    FieldsOfJoin([key, x, y, z], ',');
    var c := [','];
    assert Join([key, x, y, z], ',') == key + c + (x + c + (y + c + z)) by {
      assert Join([z], ',') == z;
      assert Join([y, z], ',') == y + c + z;
      assert Join([x, y, z], ',') == x + c + (y + c + z);
    }
    var t := key + c + x + c;
    AppendAssoc(key + c, x + c, y + c + z);
    AppendAssoc(key + c, x, c);
    AppendAssoc(t, y + c, z);
    AppendAssoc(t, y, c);
  }


  /** Among strictly increasing positions holding exactly the requested
      fields, a position whose field no earlier position repeats is that
      field's first occurrence in the header. */
  lemma SelectedIsFirstMatch(fields: seq<string>, requested: seq<string>, sel: seq<nat>, j: nat)
    requires forall k :: 0 <= k < |sel| ==> sel[k] < |fields| && fields[sel[k]] in requested
    requires Ascending(sel)
    requires forall i :: 0 <= i < |fields| && fields[i] in requested ==> i in sel
    requires j < |sel|
    requires forall m :: 0 <= m < j ==> fields[sel[m]] != fields[sel[j]]
    ensures FirstIndex(fields, fields[sel[j]]) == sel[j]
  {
    var x := fields[sel[j]];
    var f := FirstIndex(fields, x);
    assert f <= sel[j] && f < |fields| && fields[f] == x;
    assert fields[f] in requested;
    assert f in sel;
    var m :| 0 <= m < |sel| && sel[m] == f;
    if m < j {
      assert false;
    } else if j < m {
      assert false;
    }
  }

  /** printColumns on the text of a CSV file: the header names it prints
      and then, for each data line, the values it prints (each printed line
      is these strings joined with commas).  With asWritten the rows come
      from the data loop as written, where the k-th printed column shows
      the field k places to the right of its own; otherwise from the
      corrected loop, where each column shows its own field.  sel is the
      selection it prints: the requested header fields, each once, in
      header order. */
  method PrintColumns(fileText: string, requested: seq<string>, asWritten: bool)
    returns (sel: seq<nat>, header: seq<string>, rows: seq<seq<string>>)
    ensures var lines := Fields(fileText, '\n');
      var headerLine := if lines == [] then "" else lines[0];
      && (forall k :: 0 <= k < |sel| ==> sel[k] < |Fields(headerLine, ',')| && Fields(headerLine, ',')[sel[k]] in requested)
      && Ascending(sel)
      && (forall i :: 0 <= i < |Fields(headerLine, ',')| && Fields(headerLine, ',')[i] in requested ==> i in sel)
      && |header| == |sel|
      && (forall j :: 0 <= j < |sel| ==> header[j] == Fields(headerLine, ',')[sel[j]])
      && PrintedHeader(headerLine, requested, header)
      && |rows| == (if lines == [] then 0 else |lines| - 1)
      && (forall r :: 0 <= r < |rows| ==> Projects(lines[r + 1], sel, rows[r], asWritten))
      && PrintedRows(lines, headerLine, header, rows, asWritten)
  {
    ghost var lines := Fields(fileText, '\n');
    var file := Open(fileText);
    var headerLine := "";
    file, headerLine := Getline(file, '\n', headerLine).0, Getline(file, '\n', headerLine).1;
    assert lines == [] ==> fileText == [];
    sel := SelectIndexes(headerLine, requested);
    header := ProjectHeader(headerLine, sel);
    HeaderOfSelection(headerLine, requested, sel, header);
    rows := ProjectRows(fileText, sel, asWritten);
    RowsByName(lines, headerLine, header, sel, rows, asWritten);
  }

  /** The printed header names requested columns only, and every header
      field that is requested among them. */
  ghost predicate PrintedHeader(headerLine: string, requested: seq<string>, header: seq<string>) {
    && (forall k :: 0 <= k < |header| ==> header[k] in requested)
    && (forall i :: 0 <= i < |Fields(headerLine, ',')| && Fields(headerLine, ',')[i] in requested
          ==> Fields(headerLine, ',')[i] in header)
  }

  /** Each printed row has one value per printed name, and the k-th
      printed name, when no earlier printed name repeats it, shows the
      cleaned field of the line at the name's first header position, moved
      Offset(asWritten, k) places right (when the line has that field). */
  ghost predicate PrintedRows(lines: seq<string>, headerLine: string, header: seq<string>, rows: seq<seq<string>>,
                              asWritten: bool)
    requires rows == [] || |rows| < |lines|
  {
    && (forall r :: 0 <= r < |rows| ==> |rows[r]| == |header|)
    && (forall r, k :: 0 <= r < |rows| && 0 <= k < |header| && k < |rows[r]|
          && (forall j :: 0 <= j < k ==> header[j] != header[k])
          && FindColumnIndex(headerLine, header[k]) + Offset(asWritten, k) < |Fields(lines[r + 1], ',')|
          ==> rows[r][k] == CleanValue(Fields(lines[r + 1], ',')[FindColumnIndex(headerLine, header[k]) + Offset(asWritten, k)]))
  }

  /** How far right of its own field the k-th selected column reads: k
      places in the loop as written, none in the corrected one. */
  function Offset(asWritten: bool, k: nat): nat {
    if asWritten then k else 0
  }

  /** The header of the selected positions is the printed header, and a
      name not repeated before it sits at the first header position with
      that name. */
  lemma HeaderOfSelection(headerLine: string, requested: seq<string>, sel: seq<nat>, header: seq<string>)
    requires forall k :: 0 <= k < |sel| ==> sel[k] < |Fields(headerLine, ',')| && Fields(headerLine, ',')[sel[k]] in requested
    requires Ascending(sel)
    requires forall i :: 0 <= i < |Fields(headerLine, ',')| && Fields(headerLine, ',')[i] in requested ==> i in sel
    requires |header| == |sel|
    requires forall j :: 0 <= j < |sel| ==> header[j] == Fields(headerLine, ',')[sel[j]]
    ensures PrintedHeader(headerLine, requested, header)
    ensures forall j :: 0 <= j < |header| && (forall m :: 0 <= m < j ==> header[m] != header[j])
              ==> FindColumnIndex(headerLine, header[j]) == sel[j]
  {
    var fields := Fields(headerLine, ',');
    SelectedCovers(fields, requested, sel, header);
    SelectedFirstMatches(fields, requested, sel, header);
  }

  /** Every requested header field is among the names at the selected
      positions. */
  lemma SelectedCovers(fields: seq<string>, requested: seq<string>, sel: seq<nat>, header: seq<string>)
    requires forall i :: 0 <= i < |fields| && fields[i] in requested ==> i in sel
    requires |header| == |sel|
    requires forall j :: 0 <= j < |sel| ==> sel[j] < |fields| && header[j] == fields[sel[j]]
    ensures forall i :: 0 <= i < |fields| && fields[i] in requested ==> fields[i] in header
  {
    forall i | 0 <= i < |fields| && fields[i] in requested ensures fields[i] in header {
      var j :| 0 <= j < |sel| && sel[j] == i;
      assert header[j] == fields[i];
    }
  }

  /** A name at a selected position that no earlier selected name repeats
      is that name's first position in the header. */
  lemma SelectedFirstMatches(fields: seq<string>, requested: seq<string>, sel: seq<nat>, header: seq<string>)
    requires forall k :: 0 <= k < |sel| ==> sel[k] < |fields| && fields[sel[k]] in requested
    requires Ascending(sel)
    requires forall i :: 0 <= i < |fields| && fields[i] in requested ==> i in sel
    requires |header| == |sel|
    requires forall j :: 0 <= j < |sel| ==> header[j] == fields[sel[j]]
    ensures forall j :: 0 <= j < |header| && (forall m :: 0 <= m < j ==> header[m] != header[j])
              ==> FirstIndex(fields, header[j]) == sel[j]
  {
    forall j | 0 <= j < |header| && (forall m :: 0 <= m < j ==> header[m] != header[j])
      ensures FirstIndex(fields, header[j]) == sel[j]
    {
      SelectedIsFirstMatch(fields, requested, sel, j);
    }
  }

  /** A projected row read by header name: a name that no earlier printed
      name repeats shows the field at the name's first header position,
      moved as far right as the loop reads. */
  lemma RowsByName(lines: seq<string>, headerLine: string, header: seq<string>, sel: seq<nat>, rows: seq<seq<string>>,
                   asWritten: bool)
    requires |header| == |sel|
    requires forall j :: 0 <= j < |header| && (forall m :: 0 <= m < j ==> header[m] != header[j])
               ==> FindColumnIndex(headerLine, header[j]) == sel[j]
    requires rows == [] || |rows| < |lines|
    requires forall r :: 0 <= r < |rows| ==> Projects(lines[r + 1], sel, rows[r], asWritten)
    ensures PrintedRows(lines, headerLine, header, rows, asWritten)
  {
    forall r | 0 <= r < |rows| ensures |rows[r]| == |header| {
      assert Projects(lines[r + 1], sel, rows[r], asWritten);
    }
  }

  /** values are what the data loop prints for line: one value per
      selected position, the cleaned field Offset(asWritten, j) places
      right of the j-th selected position when the line has it. */
  predicate Projects(line: string, sel: seq<nat>, values: seq<string>, asWritten: bool) {
    && |values| == |sel|
    && forall j :: 0 <= j < |sel| && sel[j] + Offset(asWritten, j) < |Fields(line, ',')| ==>
         values[j] == CleanValue(Fields(line, ',')[sel[j] + Offset(asWritten, j)])
  }

  /** The header loop of printColumns: the header fields at the selected
      positions, in order. */
  method ProjectHeader(headerLine: string, sel: seq<nat>) returns (header: seq<string>)
    requires forall k :: 0 <= k < |sel| ==> sel[k] < |Fields(headerLine, ',')|
    ensures |header| == |sel|
    ensures forall j :: 0 <= j < |sel| ==> header[j] == Fields(headerLine, ',')[sel[j]]
  {
    var headerFields := ReadFields(headerLine, ',');
    header := [];
    var k := 0;
    while k < |sel|
      invariant 0 <= k <= |sel| && |header| == k
      invariant forall j :: 0 <= j < k ==> header[j] == headerFields[sel[j]]
    {
      header := header + [headerFields[sel[k]]];
      k := k + 1;
    }
  }

  /** The data loop of printColumns, as written or corrected: one
      projected row per line after the header. */
  method ProjectRows(fileText: string, sel: seq<nat>, asWritten: bool) returns (rows: seq<seq<string>>)
    requires Ascending(sel)
    ensures var lines := Fields(fileText, '\n');
      && |rows| == (if lines == [] then 0 else |lines| - 1)
      && forall r :: 0 <= r < |rows| ==> Projects(lines[r + 1], sel, rows[r], asWritten)
  {
    ghost var lines := Fields(fileText, '\n');
    rows := [];
    var reader := Open(fileText);
    var line := "";
    reader, line := GetlineStep(reader, '\n', line, lines, 0);
    reader, line := GetlineStep(reader, '\n', line, lines, 1);
    while !reader.fail
      invariant RowScan(reader, line, lines, sel, rows, asWritten)
      decreases |lines| - |rows|
    {
      reader, line, rows := RowStep(reader, line, lines, sel, rows, asWritten);
    }
  }

  /** The state of the data loop after |rows| data lines: the stream has
      read the header and one more line than there are rows, and each row
      projects its line. */
  ghost predicate RowScan(reader: IStream, line: string, lines: seq<string>, sel: seq<nat>, rows: seq<seq<string>>,
                          asWritten: bool) {
    && Consumed(reader, '\n', lines, |rows| + 2)
    && (reader.fail <==> |rows| + 1 >= |lines|)
    && (!reader.fail ==> line == lines[|rows| + 1])
    && |rows| <= (if lines == [] then 0 else |lines| - 1)
    && forall r :: 0 <= r < |rows| ==> Projects(lines[r + 1], sel, rows[r], asWritten)
  }

  /** One round of the data loop: project the line read, then read the
      next one. */
  method RowStep(reader: IStream, line: string, ghost lines: seq<string>, sel: seq<nat>, rows: seq<seq<string>>,
                 asWritten: bool)
    returns (reader': IStream, line': string, rows': seq<seq<string>>)
    requires Ascending(sel)
    requires !reader.fail && RowScan(reader, line, lines, sel, rows, asWritten)
    ensures |rows'| == |rows| + 1
    ensures RowScan(reader', line', lines, sel, rows', asWritten)
  {
    var values;
    if asWritten {
      values := ProjectLineAsWritten(line, sel);
    } else {
      values := ProjectLine(line, sel);
    }
    RowsAppend(lines, sel, rows, values, asWritten);
    rows' := rows + [values];
    reader', line' := GetlineStep(reader, '\n', line, lines, |rows'| + 1);
  }

  lemma RowsAppend(lines: seq<string>, sel: seq<nat>, rows: seq<seq<string>>, values: seq<string>, asWritten: bool)
    requires |rows| + 1 < |lines|
    requires forall r :: 0 <= r < |rows| ==> Projects(lines[r + 1], sel, rows[r], asWritten)
    requires Projects(lines[|rows| + 1], sel, values, asWritten)
    ensures forall r :: 0 <= r < |rows| + 1 ==> Projects(lines[r + 1], sel, (rows + [values])[r], asWritten)
  {
  }

  /** A string with its leading and trailing blanks trimmed, by the two
      loops `select` runs on the table name, the column list and each
      column name. */
  method TrimBlanks(s: string) returns (t: string)
    ensures exists i, j :: 0 <= i <= j <= |s| && t == s[i..j]
              && (forall k :: 0 <= k < i ==> s[k] == ' ') && (forall k :: j <= k < |s| ==> s[k] == ' ')
    ensures t == [] || (t[0] != ' ' && t[|t| - 1] != ' ')
  {
    var i, j := 0, |s|;
    while i < j && s[i] == ' '
      invariant 0 <= i <= j == |s|
      invariant forall k :: 0 <= k < i ==> s[k] == ' '
    {
      i := i + 1;
    }
    while i < j && s[j - 1] == ' '
      invariant i <= j <= |s|
      invariant forall k :: j <= k < |s| ==> s[k] == ' '
    {
      j := j - 1;
    }
    t := s[i..j];
  }

  /** The query `select` parses: the column names, the table name and the
      text after "WHERE" (which `select` does not evaluate). */
  datatype SelectQuery = SelectQuery(columns: seq<string>, table: string, where: string)

  /** "WHERE" starts at position i of the query. */
  predicate WhereAt(query: string, i: nat) {
    i + 5 <= |query| && query[i..i + 5] == "WHERE"
  }

  /** Position of the first "WHERE" from `from` on that starts before
      |query| - 5, or |query| when there is none: the search loop of
      `select`, which does not look at the last five positions. */
  function WherePosition(query: string, from: nat): (p: nat)
    requires |query| >= 5
    ensures p == |query| || (from <= p < |query| - 5 && WhereAt(query, p))
    ensures forall i :: from <= i < |query| - 5 && i < p ==> !WhereAt(query, i)
    decreases |query| - from
  {
    if from >= |query| - 5 then |query|
    else if WhereAt(query, from) then from
    else WherePosition(query, from + 1)
  }

  /** What follows the first word of a query, once `>>` has read that word. */
  function AfterFirstWord(query: string): string {
    var t := SkipSpace(query);
    if t == [] then [] else t[WordEnd(t)..]
  }

  /** What `select` reads from a query, stated on the text: the first word
      is skipped; the column list is everything up to the first 'F' after
      it (the letter, not the keyword), split at whitespace; the table name
      is the second word after that 'F'; the condition is what follows the
      first "WHERE" and one more character. */
  function SelectSpec(query: string): SelectQuery
    requires |query| >= 5
  {
    SelectQuery(SelectedColumns(query), SelectedTable(query), WhereText(query))
  }

  /** The text between the first word and the first 'F' after it. */
  function ColumnText(query: string): string {
    var r1 := AfterFirstWord(query);
    r1[..IndexOf(r1, 'F')]
  }

  /** The words of the column text. */
  function SelectedColumns(query: string): seq<string> {
    Tokens(ColumnText(query))
  }

  /** The words after the first 'F' that follows the first word. */
  function WordsAfterColumns(query: string): seq<string> {
    var r1 := AfterFirstWord(query);
    var f := IndexOf(r1, 'F');
    Tokens(if f < |r1| then r1[f + 1..] else [])
  }

  /** The second of some words, or "" when there are fewer. */
  function SecondWord(words: seq<string>): string {
    if |words| >= 2 then words[1] else ""
  }

  /** The second word after the first 'F', or "" when there is none. */
  function SelectedTable(query: string): string {
    SecondWord(WordsAfterColumns(query))
  }

  /** What follows the first "WHERE" and one more character, or "". */
  function WhereText(query: string): string
    requires |query| >= 5
  {
    var w := WherePosition(query, 0);
    if w < |query| then query[w + 6..] else ""
  }

  /** `ss >> temp` on a fresh stream leaves exactly the text after the
      first word, with the stream good while any of it is left. */
  lemma FirstWordSkipped(query: string)
    ensures var s1 := Extract(Open(query), "").0;
      && s1.Valid()
      && (s1.Good() ==> s1.rest == AfterFirstWord(query))
      && (!s1.Good() ==> AfterFirstWord(query) == [])
  {
  }

  /** getline up to d on a valid stream whose unread text is rest (empty
      once the stream is no longer good), with an empty target: the target
      receives the text before the first d, and the words still to be read
      are those after it. */
  lemma GetlineUpTo(st: IStream, d: char, rest: string)
    requires st.Valid()
    requires st.Good() ==> st.rest == rest
    requires !st.Good() ==> rest == []
    ensures var i := IndexOf(rest, d);
      && Getline(st, d, "").0.Valid()
      && Getline(st, d, "").1 == rest[..i]
      && Getline(st, d, "").0.PendingWords() == Tokens(if i < |rest| then rest[i + 1..] else [])
  {
    if st.Good() && st.rest == [] {
      assert IndexOf(st.rest, d) == 0;
    }
  }

  /** Blanks around a text do not change its words. */
  lemma TokensOfTrimmed(s: string, i: nat, j: nat)
    requires i <= j <= |s|
    requires forall k :: 0 <= k < i ==> s[k] == ' '
    requires forall k :: j <= k < |s| ==> s[k] == ' '
    ensures Tokens(s[i..j]) == Tokens(s)
  {
    TokensDropLeadingSpace(s, i);
    assert s[i..] == s[i..j] + s[j..];
    TokensDropTrailingSpace(s[i..j], s[j..]);
  }

  /** Trimming blanks does not change the words of a text. */
  lemma TrimmedTokens(s: string, t: string)
    requires exists i, j :: 0 <= i <= j <= |s| && t == s[i..j]
               && (forall k :: 0 <= k < i ==> s[k] == ' ') && (forall k :: j <= k < |s| ==> s[k] == ' ')
    ensures Tokens(t) == Tokens(s)
  {
    var i, j :| 0 <= i <= j <= |s| && t == s[i..j]
      && (forall k :: 0 <= k < i ==> s[k] == ' ') && (forall k :: j <= k < |s| ==> s[k] == ' ');
    TokensOfTrimmed(s, i, j);
  }

  lemma {:induction false} TokensDropLeadingSpace(s: string, i: nat)
    requires i <= |s|
    requires forall k :: 0 <= k < i ==> IsSpace(s[k])
    ensures Tokens(s[i..]) == Tokens(s)
    decreases i
  {
    if i > 0 {
      assert s[1..][i - 1..] == s[i..];
      TokensDropLeadingSpace(s[1..], i - 1);
    }
  }

  lemma {:induction false} TokensDropTrailingSpace(x: string, y: string)
    requires forall k :: 0 <= k < |y| ==> IsSpace(y[k])
    ensures Tokens(x + y) == Tokens(x)
    decreases |x|
  {
    if x == [] {
      assert x + y == y;
      TokensDropLeadingSpace(y, |y|);
      assert y[|y|..] == [];
    } else if IsSpace(x[0]) {
      assert (x + y)[1..] == x[1..] + y;
      TokensDropTrailingSpace(x[1..], y);
    } else {
      var e := WordEnd(x);
      WordEndAppend(x, y);
      assert (x + y)[..e] == x[..e];
      assert (x + y)[e..] == x[e..] + y;
      TokensDropTrailingSpace(x[e..], y);
    }
  }

  lemma {:induction false} WordEndAppend(x: string, y: string)
    requires forall k :: 0 <= k < |y| ==> IsSpace(y[k])
    ensures WordEnd(x + y) == WordEnd(x)
    decreases |x|
  {
    if x == [] {
      assert x + y == y;
    } else if !IsSpace(x[0]) {
      assert (x + y)[1..] == x[1..] + y;
      WordEndAppend(x[1..], y);
    }
  }

  /** The WHERE search loop of `select`. */
  method FindWhere(query: string) returns (wherePos: nat)
    requires |query| >= 5
    ensures wherePos == WherePosition(query, 0)
  {
    wherePos := |query|;
    var i := 0;
    while i < |query| - 5
      invariant 0 <= i <= |query| - 5
      invariant WherePosition(query, i) == WherePosition(query, 0)
    {
      if query[i..i + 5] == "WHERE" {
        wherePos := i;
        return;
      }
      i := i + 1;
    }
  }

  /** The column-list loop of `select`: each word `>>` reads, trimmed of
      blanks, is kept when not empty. */
  method SplitColumns(columns: string) returns (names: seq<string>)
    ensures names == Tokens(columns)
  {
    ghost var words := Tokens(columns);
    TokensAreWords(columns);
    names := [];
    var colStream := Open(columns);
    var col := "";
    colStream, col := ExtractStep(colStream, col, words, 0);
    while !colStream.fail
      invariant |names| <= |words|
      invariant WordsConsumed(colStream, words, |names| + 1)
      invariant colStream.fail <==> |names| >= |words|
      invariant !colStream.fail ==> col == words[|names|]
      invariant names == words[..|names|]
      decreases |words| - |names|
    {
      var trimmed := TrimBlanks(col);
      TrimmedWord(col, trimmed);
      col := trimmed;
      if col != [] {
        assert words[..|names| + 1] == words[..|names|] + [words[|names|]];
        names := names + [col];
      }
      colStream, col := ExtractStep(colStream, col, words, |names|);
    }
  }

  /** Trimming a word leaves it as it is. */
  lemma TrimmedWord(word: string, t: string)
    requires word != []
    requires forall k :: 0 <= k < |word| ==> !IsSpace(word[k])
    requires exists i, j :: 0 <= i <= j <= |word| && t == word[i..j]
               && (forall k :: 0 <= k < i ==> word[k] == ' ') && (forall k :: j <= k < |word| ==> word[k] == ' ')
    ensures t == word
  {
    var i, j :| 0 <= i <= j <= |word| && t == word[i..j]
      && (forall k :: 0 <= k < i ==> word[k] == ' ') && (forall k :: j <= k < |word| ==> word[k] == ' ');
    assert !IsSpace(word[0]) && !IsSpace(word[|word| - 1]);
    assert i == 0 && j == |word|;
  }

  /** The stream reads of `select`: `>>` skips the first word, getline up
      to 'F' reads the column list, and two more `>>` read the keyword
      rest and the table name. */
  method ReadSelectParts(query: string) returns (columns: string, tableName: string)
    ensures columns == ColumnText(query)
    ensures tableName == SelectedTable(query)
  {
    SelectPartsRead(query);
    var ss := Open(query);
    var temp := "";
    ss, temp := Extract(ss, temp).0, Extract(ss, temp).1;
    columns := "";
    ss, columns := Getline(ss, 'F', columns).0, Getline(ss, 'F', columns).1;
    ss, temp := Extract(ss, temp).0, Extract(ss, temp).1;
    tableName := "";
    ss, tableName := Extract(ss, tableName).0, Extract(ss, tableName).1;
  }

  /** The whole chain of reads on a fresh stream: the column text, then
      the table name. */
  lemma SelectPartsRead(query: string)
    ensures var s1 := Extract(Open(query), "");
      var s2 := Getline(s1.0, 'F', "");
      && s2.1 == ColumnText(query)
      && Extract(Extract(s2.0, s1.1).0, "").1 == SelectedTable(query)
  {
    ColumnsRead(query);
    TableNameRead(query);
  }

  /** Two `>>` in a row: the second reads the second pending word, and
      leaves its target as it was when there is none. */
  lemma SecondWordRead(st: IStream, v1: string, v2: string)
    requires st.Valid()
    ensures var w := st.PendingWords();
      Extract(Extract(st, v1).0, v2).1 == if |w| >= 2 then w[1] else v2
  {
  }

  /** The first `>>` and the getline up to 'F' on a fresh stream read the
      column text. */
  lemma ColumnsRead(query: string)
    ensures Getline(Extract(Open(query), "").0, 'F', "").1 == ColumnText(query)
  {
    FirstWordSkipped(query);
    GetlineUpTo(Extract(Open(query), "").0, 'F', AfterFirstWord(query));
  }

  /** After the column text, the words after the 'F' are left to read. */
  lemma WordsLeftAfterColumns(query: string)
    ensures var s2 := Getline(Extract(Open(query), "").0, 'F', "");
      s2.0.Valid() && s2.0.PendingWords() == WordsAfterColumns(query)
  {
    FirstWordSkipped(query);
    GetlineUpTo(Extract(Open(query), "").0, 'F', AfterFirstWord(query));
  }

  /** The two `>>` after the column text read the table name. */
  lemma TableNameRead(query: string)
    ensures var s1 := Extract(Open(query), "");
      Extract(Extract(Getline(s1.0, 'F', "").0, s1.1).0, "").1 == SelectedTable(query)
  {
    WordsLeftAfterColumns(query);
    var s1 := Extract(Open(query), "");
    SecondWordRead(Getline(s1.0, 'F', "").0, s1.1, "");
  }

  /** The table name is a word: no whitespace in it. */
  lemma SelectedTableIsWord(query: string)
    ensures forall k :: 0 <= k < |SelectedTable(query)| ==> !IsSpace(SelectedTable(query)[k])
  {
    var r1 := AfterFirstWord(query);
    var f := IndexOf(r1, 'F');
    var rest := if f < |r1| then r1[f + 1..] else [];
    var words := WordsAfterColumns(query);
    assert words == Tokens(rest);
    TokensAreWords(rest);
    if |words| >= 2 {
      assert SelectedTable(query) == words[1];
    } else {
      assert SelectedTable(query) == "";
    }
  }

  /** "SELECT" followed by blank-led text: the first word is skipped and
      all of that text is left. */
  lemma AfterSelect(rest: string)
    requires rest == [] || IsSpace(rest[0])
    ensures AfterFirstWord("SELECT" + rest) == rest
  {
    var w := "SELECT";
    forall k | 0 <= k < |w| ensures !IsSpace(w[k]) {
      assert 'A' <= w[k] <= 'Z';
    }
    var q := w + rest;
    assert q[0] == 'S';
    assert SkipSpace(q) == q;
    WordEndOfWord(w, rest);
    assert q[|w|..] == rest;
  }

  /** The text after "SELECT" in `SELECT <cols> FROM <table><tail>`, where
      the columns are written with single blanks between them. */
  function AfterSelectWord(cols: seq<string>, table: string, tail: string): string {
    " " + Join(cols, ' ') + " FROM " + table + tail
  }

  /** In that text the first 'F' is the one of "FROM" when no column name
      holds an 'F'. */
  lemma FromIsFirstF(cols: seq<string>, table: string, tail: string)
    requires forall i :: 0 <= i < |cols| ==> 'F' !in cols[i]
    ensures var r1, n := AfterSelectWord(cols, table, tail), |Join(cols, ' ')|;
      && IndexOf(r1, 'F') == n + 2
      && r1[..n + 2] == " " + Join(cols, ' ') + " "
      && r1[n + 3..] == "ROM" + (" " + table + tail)
  {
    var j := Join(cols, ' ');
    var r1 := AfterSelectWord(cols, table, tail);
    var n := |j|;
    JoinAvoids(cols, ' ', 'F');
    forall k | 0 <= k < n + 2 ensures r1[k] != 'F' {
      if 1 <= k <= n {
        assert r1[k] == j[k - 1];
      }
    }
    assert r1[n + 2] == 'F';
    IndexOfIs(r1, 'F', n + 2);
    assert r1[..n + 2] == " " + j + " ";
    assert r1[n + 3..] == "ROM" + (" " + table + tail);
  }

  /** `SELECT <cols> FROM <table>...` selects those columns when no column
      name holds an 'F'. */
  lemma SelectedColumnsOf(cols: seq<string>, table: string, tail: string)
    requires forall i :: 0 <= i < |cols| ==> IsWord(cols[i]) && 'F' !in cols[i]
    ensures SelectedColumns("SELECT" + AfterSelectWord(cols, table, tail)) == cols
  {
    var j := Join(cols, ' ');
    var r1 := AfterSelectWord(cols, table, tail);
    AfterSelect(r1);
    FromIsFirstF(cols, table, tail);
    var c := " " + j + " ";
    assert ColumnText("SELECT" + r1) == c;
    TokensDropLeadingSpace(c, 1);
    assert c[1..] == j + " ";
    TokensDropTrailingSpace(j, " ");
    TokensOfJoin(cols);
  }

  /** ... and reads the table name as the word after "FROM", whatever
      blank-led text follows it. */
  lemma SelectedTableOf(cols: seq<string>, table: string, tail: string)
    requires forall i :: 0 <= i < |cols| ==> 'F' !in cols[i]
    requires IsWord(table)
    requires tail == [] || IsSpace(tail[0])
    ensures SelectedTable("SELECT" + AfterSelectWord(cols, table, tail)) == table
  {
    var r1 := AfterSelectWord(cols, table, tail);
    AfterSelect(r1);
    FromIsFirstF(cols, table, tail);
    RomThen(" " + table + tail);
    BlankWordThen(table, tail);
  }

  /** "ROM" followed by blank-led text is read as a word first. */
  lemma RomThen(u: string)
    requires u == [] || IsSpace(u[0])
    ensures Tokens("ROM" + u) == ["ROM"] + Tokens(u)
  {
    var rom := "ROM";
    forall k | 0 <= k < |rom| ensures !IsSpace(rom[k]) {
      assert 'A' <= rom[k] <= 'Z';
    }
    TokensOfWordThen(rom, u);
  }

  /** A blank, a word and blank-led text: the word is read first. */
  lemma BlankWordThen(w: string, tail: string)
    requires IsWord(w)
    requires tail == [] || IsSpace(tail[0])
    ensures Tokens(" " + w + tail) == [w] + Tokens(tail)
  {
    AppendAssoc(" ", w, tail);
    BlankDropped(w + tail);
    TokensOfWordThen(w, tail);
  }

  /** A leading blank does not change the words. */
  lemma BlankDropped(s: string)
    ensures Tokens(" " + s) == Tokens(s)
  {
    assert (" " + s)[1..] == s;
  }

  /** The condition is what follows the first "WHERE " when nothing
      before it holds a 'W'. */
  lemma WhereTextOf(p: string, cond: string)
    requires 'W' !in p
    ensures WhereText(p + "WHERE " + cond) == cond
  {
    var q := p + "WHERE " + cond;
    var w := WherePosition(q, 0);
    assert WhereAt(q, |p|) by {
      assert q[|p|..|p| + 5] == "WHERE";
    }
    WhereFound(q);
    PrefixAvoids(p, "WHERE " + cond, 'W');
    assert q[|p| + 6..] == cond;
  }

  /** A query without any 'W' has no condition. */
  lemma NoWhereText(q: string)
    requires |q| >= 5 && 'W' !in q
    ensures WhereText(q) == ""
  {
    WhereFound(q);
  }

  /** A character missing from a prefix is at none of its positions. */
  lemma PrefixAvoids(p: string, r: string, c: char)
    requires c !in p
    ensures forall k :: 0 <= k < |p| ==> (p + r)[k] != c
  {
    forall k | 0 <= k < |p| ensures (p + r)[k] != c {
      assert (p + r)[k] == p[k];
    }
  }

  /** The search stops only on a 'W'. */
  lemma WhereFound(q: string)
    requires |q| >= 5
    ensures var w := WherePosition(q, 0); w < |q| ==> q[w] == 'W'
  {
    var w := WherePosition(q, 0);
    if w < |q| {
      assert q[w..w + 5][0] == q[w];
    }
  }

  /** A well-formed `SELECT <cols> FROM <table> WHERE <cond>` parses into
      its columns, its table and its condition, when no column name holds
      an 'F' and neither the column names nor the table name hold a 'W'. */
  lemma WellFormedSelect(cols: seq<string>, table: string, cond: string)
    requires forall i :: 0 <= i < |cols| ==> IsWord(cols[i]) && 'F' !in cols[i] && 'W' !in cols[i]
    requires IsWord(table) && 'W' !in table
    ensures var query := "SELECT" + AfterSelectWord(cols, table, " WHERE " + cond);
      |query| >= 5 && SelectSpec(query) == SelectQuery(cols, table, cond)
  {
    var tail := " WHERE " + cond;
    SelectedColumnsOf(cols, table, tail);
    SelectedTableOf(cols, table, tail);
    WherePartOf(cols, table, cond);
  }

  /** In such a query everything before "WHERE " is free of 'W'. */
  lemma WherePartOf(cols: seq<string>, table: string, cond: string)
    requires forall i :: 0 <= i < |cols| ==> 'W' !in cols[i]
    requires 'W' !in table
    ensures WhereText("SELECT" + AfterSelectWord(cols, table, " WHERE " + cond)) == cond
  {
    var j := Join(cols, ' ');
    var p := "SELECT " + j + " FROM " + table + " ";
    JoinAvoids(cols, ' ', 'W');
    assert 'W' !in p;
    assert "SELECT" + AfterSelectWord(cols, table, " WHERE " + cond) == p + "WHERE " + cond;
    WhereTextOf(p, cond);
  }

  /** The quirk of reading the column list up to the first 'F': a first
      column whose name starts with 'F' ends the list before it, and the
      table name read is "FROM". */
  lemma ColumnStartingWithF(w: string, table: string)
    requires IsWord(w) && IsWord(table)
    ensures var query := "SELECT F" + w + " FROM " + table;
      SelectedColumns(query) == [] && SelectedTable(query) == "FROM"
  {
    var r1 := " F" + (w + (" " + ("FROM" + (" " + table))));
    LeadingFSplit(w, table);
    AfterSelect(r1);
    IndexOfIs(r1, 'F', 1);
    assert r1[..1] == " ";
    assert Tokens(" ") == [];
    FromThen(" " + table);
    BlankDropped("FROM" + (" " + table));
    TokensOfWordThen(w, " " + ("FROM" + (" " + table)));
  }

  /** The shape of that query around its first 'F'. */
  lemma LeadingFSplit(w: string, table: string)
    ensures var r1 := " F" + (w + (" " + ("FROM" + (" " + table))));
      && "SELECT F" + w + " FROM " + table == "SELECT" + r1
      && r1[1] == 'F' && r1[2..] == w + (" " + ("FROM" + (" " + table)))
  {
  }

  /** "FROM" followed by blank-led text is read as a word first. */
  lemma FromThen(u: string)
    requires u == [] || IsSpace(u[0])
    ensures Tokens("FROM" + u) == ["FROM"] + Tokens(u)
  {
    var from := "FROM";
    forall k | 0 <= k < |from| ensures !IsSpace(from[k]) {
      assert 'A' <= from[k] <= 'Z';
    }
    TokensOfWordThen(from, u);
  }

  /** select's parsing of the query: the stream reads, the WHERE search,
      the trimming of the table name and column list, and the splitting of
      the column list. */
  method ParseSelect(query: string) returns (q: SelectQuery)
    requires |query| >= 5
    ensures q == SelectSpec(query)
  {
    var columns, tableName := ReadSelectParts(query);
    var wherePos := FindWhere(query);
    var whereToken := if wherePos < |query| then query[wherePos + 6..] else "";
    var table := TrimTableName(query, tableName);
    var names := ColumnNames(columns);
    q := SelectQuery(names, table, whereToken);
  }

  /** The trimming of the table name, which leaves the word read as it
      is. */
  method TrimTableName(query: string, tableName: string) returns (t: string)
    requires tableName == SelectedTable(query)
    ensures t == tableName
  {
    t := TrimBlanks(tableName);
    if tableName != [] {
      SelectedTableIsWord(query);
      TrimmedWord(tableName, t);
    }
  }

  /** The trimming and splitting of the column list: its words. */
  method ColumnNames(columns: string) returns (names: seq<string>)
    ensures names == Tokens(columns)
  {
    var trimmed := TrimBlanks(columns);
    TrimmedTokens(columns, trimmed);
    names := SplitColumns(trimmed);
  }

  /** What select asks for: the table is missing, the whole table is
      printed (no column named), or the named columns are. */
  datatype SelectPlan = MissingTable(table: string) | WholeTable(table: string) | ChosenColumns(table: string, columns: seq<string>)

  /** select: parse the query, check that `<table>.csv` exists, then print
      the chosen columns or the whole table. */
  method Select(query: string, existingFiles: set<string>) returns (plan: SelectPlan)
    requires |query| >= 5
    ensures var q := SelectSpec(query);
      && (q.table + ".csv" !in existingFiles <==> plan == MissingTable(q.table))
      && (q.table + ".csv" in existingFiles && q.columns == [] <==> plan == WholeTable(q.table))
      && (q.table + ".csv" in existingFiles && q.columns != [] <==> plan == ChosenColumns(q.table, q.columns))
  {
    var q := ParseSelect(query);
    if q.table + ".csv" !in existingFiles {
      return MissingTable(q.table);
    }
    if q.columns != [] {
      return ChosenColumns(q.table, q.columns);
    }
    return WholeTable(q.table);
  }
}
