/** The text side of `insert` in the paged iteration: the table-list
    search, the reading of `INSERT INTO <table> VALUES (...)` word by word,
    and the loop that turns the value list into the text of a CSV row. */
module PagedCommand {
  import opened CppStream

  /** What reading the command gives: a refusal (the two messages the
      source prints) or the table name and the glued value text. */
  datatype Command = Malformed | UnknownTable | Parsed(table: string, values: string)

  /** The value text is wrapped in parentheses.  `front()` of an empty
      string reads its terminating '\0', so the test fails for an empty
      text before `back()` is reached. */
  predicate Parenthesized(values: string) {
    |values| > 0 && values[0] == '(' && values[|values| - 1] == ')'
  }

  /** What `insert` makes of a command, stated on its words w: the first
      word is skipped unchecked; the second must be INTO (with a single
      word, the failed second extraction leaves the first in place); the
      third names the table, empty when missing; the fourth must be
      VALUES; all later words, glued together, form the value text. */
  function InsertCommand(command: string, tables: seq<string>): Command {
    var w := Tokens(command);
    var second := if |w| >= 2 then w[1] else if |w| == 1 then w[0] else "";
    if second != "INTO" then Malformed
    else
      var table := if |w| >= 3 then w[2] else "";
      if table !in tables then UnknownTable
      else if |w| < 4 || w[3] != "VALUES" then Malformed
      else
        var values := Concat(w[4..]);
        if !Parenthesized(values) then Malformed else Parsed(table, values)
  }

  /** A command is accepted exactly when it has at least four words, the
      second is INTO, the third a listed table, the fourth VALUES and the
      rest glue to a parenthesized text; the first word is never looked
      at. */
  lemma InsertCommandAccepts(command: string, tables: seq<string>)
    ensures var w := Tokens(command);
      && (InsertCommand(command, tables).Parsed? <==>
            |w| >= 4 && w[1] == "INTO" && w[2] in tables && w[3] == "VALUES" && Parenthesized(Concat(w[4..])))
      && (InsertCommand(command, tables).Parsed? ==>
            InsertCommand(command, tables) == Parsed(w[2], Concat(w[4..])))
  {
  }

  /** TableExist: some node of the list carries the name. */
  method TableExist(tableName: string, tables: seq<string>) returns (found: bool)
    ensures found <==> tableName in tables
  {
    var i := 0;
    while i < |tables|
      invariant 0 <= i <= |tables|
      invariant forall j :: 0 <= j < i ==> tables[j] != tableName
    {
      if tables[i] == tableName {
        return true;
      }
      i := i + 1;
    }
    return false;
  }

  lemma {:induction false} ConcatSnoc(ws: seq<string>, w: string)
    ensures Concat(ws + [w]) == Concat(ws) + w
    decreases |ws|
  {
    if ws == [] {
      assert ws + [w] == [w];
    } else {
      assert (ws + [w])[1..] == ws[1..] + [w];
      ConcatSnoc(ws[1..], w);
    }
  }

  /** The command-reading part of `insert`: two words, the check
      for INTO, the table name and its search, the check for VALUES, the
      loop gluing the remaining words, and the parenthesis check. */
  method ParseInsert(command: string, tables: seq<string>) returns (c: Command)
    ensures c == InsertCommand(command, tables)
  {
    ghost var words := Tokens(command);
    var iss := Open(command);
    var slovo := "";
    iss, slovo := ExtractStep(iss, slovo, words, 0);
    iss, slovo := ExtractStep(iss, slovo, words, 1);
    if slovo != "INTO" {
      return Malformed;
    }
    var tableName := "";
    iss, tableName := ExtractStep(iss, tableName, words, 2);
    var known := TableExist(tableName, tables);
    if !known {
      return UnknownTable;
    }
    iss, slovo := ExtractStep(iss, slovo, words, 3);
    if slovo != "VALUES" {
      return Malformed;
    }
    var values := GlueWords(iss, slovo, words);
    var front := if |values| > 0 then values[0] else '\0';
    var back := if |values| > 0 then values[|values| - 1] else '\0';
    if front != '(' || back != ')' {
      return Malformed;
    }
    return Parsed(tableName, values);
  }

  /** `while (iss >> slovo) values += slovo;` after the fourth word. */
  method GlueWords(iss: IStream, slovo: string, ghost words: seq<string>) returns (values: string)
    requires |words| >= 4 && WordsConsumed(iss, words, 4)
    ensures values == Concat(words[4..])
  {
    var st, word := iss, slovo;
    values := "";
    ghost var count := 4;
    st, word := ExtractStep(st, word, words, count);
    while !st.fail
      invariant 4 <= count <= |words|
      invariant WordsConsumed(st, words, count + 1)
      invariant st.fail <==> count >= |words|
      invariant !st.fail ==> word == words[count]
      invariant values == Concat(words[4..count])
      decreases |words| - count
    {
      assert words[4..count + 1] == words[4..count] + [words[count]];
      ConcatSnoc(words[4..count], words[count]);
      values := values + word;
      count := count + 1;
      st, word := ExtractStep(st, word, words, count);
    }
    assert words[4..count] == words[4..];
  }

  /** The text the row-writing loop of `insert` puts after the
      key and its comma, for the value text s: for each quote, the
      characters up to the next quote (or the end), then a comma when the
      character after that closing quote exists and is not ')', and a line
      break otherwise; characters outside quotes are dropped. */
  function Emitted(s: string): string
    decreases |s|, 1
  {
    var q := IndexOf(s, '\'');
    if q == |s| then "" else Run(s[q + 1..])
  }

  /** What is emitted from just after an opening quote: the run up to the
      closing quote, its separator, and what follows the closing quote. */
  function Run(t: string): string
    decreases |t|, 0
  {
    var c := IndexOf(t, '\'');
    var sep := if c + 1 < |t| && t[c + 1] != ')' then "," else "\n";
    t[..c] + sep + (if c < |t| then Emitted(t[c + 1..]) else "")
  }

  /** The separator written after a quoted run whose closing quote is at
      position j of s (or j == |s| when it is missing). */
  function Separator(s: string, j: nat): string {
    if j + 1 < |s| && s[j + 1] != ')' then "," else "\n"
  }

  /** Text outside quotes contributes nothing. */
  lemma EmittedSkips(s: string)
    requires s != [] && s[0] != '\''
    ensures Emitted(s) == Emitted(s[1..])
  {
    var t := s[1..];
    var q := IndexOf(s, '\'');
    assert q == 1 + IndexOf(t, '\'');
    if q == |s| {
      assert Emitted(s) == "" == Emitted(t);
    } else {
      assert s[q + 1..] == t[q..];
      assert Emitted(s) == Run(s[q + 1..]);
      assert Emitted(t) == Run(t[q..]);
    }
  }

  /** A quoted run starting at i and closed at j (or unclosed, j == |s|)
      emits its characters and its separator, then what follows j. */
  lemma EmittedRun(s: string, i: nat, j: nat)
    requires i < j <= |s| && s[i] == '\''
    requires j < |s| ==> s[j] == '\''
    requires forall k :: i < k < j ==> s[k] != '\''
    ensures Emitted(s[i..]) == s[i + 1..j] + Separator(s, j) + (if j < |s| then Emitted(s[j + 1..]) else "")
  {
    var u := s[i..];
    assert IndexOf(u, '\'') == 0;
    var t := u[1..];
    assert t == s[i + 1..];
    var c := j - i - 1;
    forall k | 0 <= k < c ensures t[k] != '\'' {
      assert t[k] == s[i + 1 + k];
    }
    IndexOfIs(t, '\'', c);
    assert t[..c] == s[i + 1..j];
    if j < |s| {
      assert t[c + 1..] == s[j + 1..];
    }
  }

  /** What the loop has still to emit from position i on. */
  function Pending(s: string, i: nat): string {
    if i <= |s| then Emitted(s[i..]) else ""
  }

  /** A quote at i closed at j (or never) leaves the run, its separator
      and what is pending after j. */
  lemma PendingRun(s: string, i: nat, j: nat)
    requires i < j <= |s| && s[i] == '\''
    requires j < |s| ==> s[j] == '\''
    requires forall k :: i < k < j ==> s[k] != '\''
    ensures Pending(s, i) == s[i + 1..j] + Separator(s, j) + Pending(s, j + 1)
  {
    EmittedRun(s, i, j);
  }

  /** Writing a run and its separator keeps what is written and what is
      pending equal to the whole. */
  lemma EmitRunKeeps(s: string, out: string, i: nat, j: nat, run: string, sep: string)
    requires i < j <= |s| && s[i] == '\''
    requires j < |s| ==> s[j] == '\''
    requires forall k :: i < k < j ==> s[k] != '\''
    requires run == s[i + 1..j] && sep == Separator(s, j)
    requires EmitsSoFar(s, out, i)
    ensures EmitsSoFar(s, out + run + sep, j + 1)
  {
    PendingRun(s, i, j);
    AppendAssoc(out, run + sep, Pending(s, j + 1));
    AppendAssoc(out, run, sep);
  }

  /** A character outside quotes is skipped. */
  lemma PendingSkip(s: string, out: string, i: nat)
    requires i < |s| && s[i] != '\''
    requires EmitsSoFar(s, out, i)
    ensures EmitsSoFar(s, out, i + 1)
  {
    EmittedSkips(s[i..]);
    assert s[i..][1..] == s[i + 1..];
  }

  /** What is written so far and what is pending from i make up the whole
      row text. */
  predicate EmitsSoFar(s: string, out: string, i: nat) {
    out + Pending(s, i) == Emitted(s)
  }

  /** The writing loop of `insert`, collecting what it sends to the file
      after `key,`. */
  method EmitRow(values: string) returns (out: string)
    ensures out == Emitted(values)
  {
    out := "";
    var i := 0;
    EmitsFromStart(values);
    while i < |values|
      invariant 0 <= i <= |values| + 1
      invariant EmitsSoFar(values, out, i)
      decreases |values| + 1 - i
    {
      out, i := EmitAt(values, out, i);
    }
    EmitsToEnd(values, out, i);
  }

  /** One round of the writing loop at position i: a quote starts a run,
      any other character is passed over; the result is the next
      position. */
  method EmitAt(values: string, out: string, i: nat) returns (out': string, i': nat)
    requires i < |values|
    requires EmitsSoFar(values, out, i)
    ensures i < i' <= |values| + 1
    ensures EmitsSoFar(values, out', i')
  {
    if values[i] == '\'' {
      out', i' := WriteRun(values, out, i);
    } else {
      PendingSkip(values, out, i);
      out', i' := out, i + 1;
    }
  }

  /** Nothing is written before the loop starts. */
  lemma EmitsFromStart(s: string)
    ensures EmitsSoFar(s, "", 0)
  {
    assert s[0..] == s;
  }

  /** Once the loop has passed the end, all of the row text is written. */
  lemma EmitsToEnd(s: string, out: string, i: nat)
    requires i >= |s| && EmitsSoFar(s, out, i)
    ensures out == Emitted(s)
  {
    if i == |s| {
      assert s[i..] == [];
      assert IndexOf(s[i..], '\'') == 0;
    }
  }

  /** The quoted-run branch of the writing loop: copy the run after the
      quote at i, then write its separator; the result is the position
      after the closing quote (or past the end). */
  method WriteRun(values: string, out: string, i: nat) returns (out': string, next: nat)
    requires i < |values| && values[i] == '\''
    requires EmitsSoFar(values, out, i)
    ensures i + 1 < next <= |values| + 1
    ensures EmitsSoFar(values, out', next)
  {
    var run, j := CopyRun(values, i);
    var sep := if j + 1 < |values| && values[j + 1] != ')' then "," else "\n";
    EmitRunKeeps(values, out, i, j, run, sep);
    out' := out + run + sep;
    next := j + 1;
  }

  /** The inner loop of the writing loop: the characters after the quote
      at i, up to the next quote or the end. */
  method CopyRun(values: string, i: nat) returns (run: string, j: nat)
    requires i < |values| && values[i] == '\''
    ensures i < j <= |values| && (j < |values| ==> values[j] == '\'')
    ensures forall k :: i < k < j ==> values[k] != '\''
    ensures run == values[i + 1..j]
  {
    run := "";
    j := i + 1;
    while j < |values| && values[j] != '\''
      invariant i < j <= |values|
      invariant forall k :: i < k < j ==> values[k] != '\''
      invariant run == values[i + 1..j]
    {
      assert values[i + 1..j + 1] == values[i + 1..j] + [values[j]];
      run := run + [values[j]];
      j := j + 1;
    }
  }

  /** The row text never holds a quote: they are all dropped. */
  lemma {:induction false} EmittedHasNoQuote(s: string)
    ensures '\'' !in Emitted(s)
    decreases |s|, 1
  {
    var q := IndexOf(s, '\'');
    if q < |s| {
      RunHasNoQuote(s[q + 1..]);
    }
  }

  /** Nor does what is emitted after an opening quote. */
  lemma {:induction false} RunHasNoQuote(t: string)
    ensures '\'' !in Run(t)
    decreases |t|, 0
  {
    var c := IndexOf(t, '\'');
    IndexOfFirst(t, '\'');
    var sep := if c + 1 < |t| && t[c + 1] != ')' then "," else "\n";
    assert '\'' !in t[..c] + sep;
    if c < |t| {
      EmittedHasNoQuote(t[c + 1..]);
    }
  }

  /** v between single quotes. */
  function Quote(v: string): string {
    "'" + v + "'"
  }

  /** Where the quotes and the value lie in Quote(v) + r. */
  lemma QuoteParts(v: string, r: string)
    requires '\'' !in v && r != []
    ensures var u, j := Quote(v) + r, |v| + 1;
      j + 1 < |u| && u[0] == '\'' && u[j] == '\'' && u[j + 1] == r[0] &&
      (forall k :: 0 < k < j ==> u[k] != '\'') &&
      u[1..j] == v && u[j + 1..] == r
  {
    var u, j := Quote(v) + r, |v| + 1;
    forall k | 0 < k < j ensures u[k] != '\'' {
      assert u[k] == v[k - 1];
    }
    assert u[1..j] == v;
    assert u[j + 1..] == r;
  }

  /** vals written as a list of single-quoted values separated by commas. */
  function QuotedList(vals: seq<string>): string
    decreases |vals|
  {
    if vals == [] then ""
    else Quote(vals[0]) + (if |vals| == 1 then "" else "," + QuotedList(vals[1..]))
  }

  /** The value text of `VALUES ('v1','v2',...)`. */
  function ValuesText(vals: seq<string>): string {
    "(" + QuotedList(vals) + ")"
  }

  /** A well-formed, non-empty list of quote-free values is written as the
      values separated by commas, ending the line. */
  lemma EmittedList(vals: seq<string>)
    requires vals != []
    requires forall i :: 0 <= i < |vals| ==> '\'' !in vals[i]
    ensures Emitted(ValuesText(vals)) == Join(vals, ',') + "\n"
  {
    EmittedListAfter("(", vals);
    assert ValuesText(vals) == "(" + QuotedList(vals) + ")";
  }

  /** An empty list `()` writes no value and no line break: the key and
      its comma are left without a line end. */
  lemma EmittedNoValues()
    ensures Emitted(ValuesText([])) == ""
  {
    assert ValuesText([]) == "()";
    assert IndexOf("()", '\'') == 2;
  }

  lemma {:induction false} EmittedListAfter(p: string, vals: seq<string>)
    requires '\'' !in p
    requires vals != []
    requires forall i :: 0 <= i < |vals| ==> '\'' !in vals[i]
    ensures Emitted(p + QuotedList(vals) + ")") == Join(vals, ',') + "\n"
    decreases |vals|
  {
    var v, x := vals[0], if |vals| == 1 then "" else "," + QuotedList(vals[1..]);
    var r := x + ")";
    var u := Quote(v) + r;
    var j := |v| + 1;
    QuoteParts(v, r);
    assert u[0..] == u;
    EmittedRun(u, 0, j);
    assert Emitted(u) == v + Separator(u, j) + Emitted(r);
    if |vals| == 1 {
      assert Separator(u, j) == "\n";
      assert IndexOf(r, '\'') == 1;
      assert Emitted(r) == "";
      assert Emitted(u) == Join(vals, ',') + "\n";
    } else {
      assert Separator(u, j) == ",";
      EmittedListAfter(",", vals[1..]);
      assert Emitted(r) == Join(vals[1..], ',') + "\n";
      AppendAssoc(v + ",", Join(vals[1..], ','), "\n");
      assert Emitted(u) == Join(vals, ',') + "\n";
    }
    EmittedPrefix(p, u);
    AppendAssoc(Quote(v), x, ")");
    AppendAssoc(p, Quote(v) + x, ")");
    assert p + QuotedList(vals) + ")" == p + u;
  }

  /** A quote-free prefix contributes nothing. */
  lemma {:induction false} EmittedPrefix(p: string, s: string)
    requires '\'' !in p
    ensures Emitted(p + s) == Emitted(s)
    decreases |p|
  {
    if p == [] {
      assert p + s == s;
    } else {
      assert (p + s)[0] == p[0] && p[0] in p;
      EmittedSkips(p + s);
      assert (p + s)[1..] == p[1..] + s;
      assert forall x :: x in p[1..] ==> x in p;
      EmittedPrefix(p[1..], s);
    }
  }

  /** The three keywords of the command are words: no whitespace in them. */
  lemma KeywordsAreWords()
    ensures IsWord("INSERT") && IsWord("INTO") && IsWord("VALUES")
  {
    var a, b, c := "INSERT", "INTO", "VALUES";
    forall k | 0 <= k < |a| ensures !IsSpace(a[k]) {
      assert 'A' <= a[k] <= 'Z';
    }
    forall k | 0 <= k < |b| ensures !IsSpace(b[k]) {
      assert 'A' <= b[k] <= 'Z';
    }
    forall k | 0 <= k < |c| ensures !IsSpace(c[k]) {
      assert 'A' <= c[k] <= 'Z';
    }
  }

  /** No whitespace anywhere in v. */
  predicate NoSpace(v: string) {
    forall k :: 0 <= k < |v| ==> !IsSpace(v[k])
  }

  lemma NoSpaceAppend(a: string, b: string)
    requires NoSpace(a) && NoSpace(b)
    ensures NoSpace(a + b)
  {
    forall k | 0 <= k < |a + b| ensures !IsSpace((a + b)[k]) {
      if k < |a| {
        assert (a + b)[k] == a[k];
      } else {
        assert (a + b)[k] == b[k - |a|];
      }
    }
  }

  /** A list of whitespace-free values is written without whitespace. */
  lemma {:induction false} QuotedListNoSpace(vals: seq<string>)
    requires forall i :: 0 <= i < |vals| ==> NoSpace(vals[i])
    ensures NoSpace(QuotedList(vals))
    decreases |vals|
  {
    if vals != [] {
      NoSpaceAppend("'", vals[0]);
      NoSpaceAppend("'" + vals[0], "'");
      if |vals| > 1 {
        QuotedListNoSpace(vals[1..]);
        NoSpaceAppend(",", QuotedList(vals[1..]));
        NoSpaceAppend(Quote(vals[0]), "," + QuotedList(vals[1..]));
      } else {
        assert Quote(vals[0]) + "" == Quote(vals[0]);
      }
    }
  }

  /** The command `INSERT INTO t VALUES ('v1',...,'vn')`, written with
      single spaces and whitespace-free values, names a listed table t and
      is read as t with the value text unchanged (EmittedList then gives
      the row it writes). */
  lemma WellFormedInsert(table: string, vals: seq<string>, tables: seq<string>)
    requires IsWord(table) && table in tables
    requires forall i :: 0 <= i < |vals| ==> NoSpace(vals[i])
    ensures var values := ValuesText(vals);
      InsertCommand(Join(["INSERT", "INTO", table, "VALUES", values], ' '), tables) == Parsed(table, values)
  {
    var values := ValuesText(vals);
    QuotedListNoSpace(vals);
    NoSpaceAppend("(", QuotedList(vals));
    NoSpaceAppend("(" + QuotedList(vals), ")");
    KeywordsAreWords();
    var ws := ["INSERT", "INTO", table, "VALUES", values];
    assert IsWord(values);
    forall i | 0 <= i < |ws| ensures IsWord(ws[i]) {
      if i == 0 {
        assert ws[i] == "INSERT";
      } else if i == 1 {
        assert ws[i] == "INTO";
      } else if i == 3 {
        assert ws[i] == "VALUES";
      }
    }
    TokensOfJoin(ws);
    var command := Join(ws, ' ');
    var w := Tokens(command);
    assert w == ws;
    assert w[4..] == [values];
    assert Concat([values]) == values + Concat([]);
    assert |w| >= 4 && w[1] == "INTO" && w[2] in tables && w[3] == "VALUES" && Parenthesized(Concat(w[4..]));
    InsertCommandAccepts(command, tables);
    assert InsertCommand(command, tables) == Parsed(table, values);
  }
}
