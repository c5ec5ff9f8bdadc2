/** The file side of `insert` in the paged iteration: the lock file holding
    the text `locked` or `unlocked`, the primary-key counter file, and the
    numbered pages `1.csv`, `2.csv`, ... of a table.  The directory of a
    schema is a map from file to text; a file that cannot be opened for
    reading is a file absent from the map, and the opening of a file for
    writing that fails is a parameter (Faults). */
module PagedStorage {
  import opened CppStream
  import opened CppNumbers
  import opened PagedCommand

  /** The files of one table: `<t>_lock.txt`, `<t>_pk_sequence.txt` and the
      page `<number>.csv`. */
  datatype FilePath = LockFile(table: string) | KeyFile(table: string) | PageFile(table: string, number: int)

  type Files = map<FilePath, string>

  /** Which openings of a file for writing fail, in the order `insert`
      makes them: the lock, the key counter, the copy of the header into a
      new page, the page append, and the final unlock. */
  datatype Faults = Faults(lockWrite: bool, keyWrite: bool, headerWrite: bool, pageWrite: bool, unlockWrite: bool)

  /** How `insert` ends.  PageMissing is the exception the CSV library
      throws when the page to count rows in does not exist; it ends the
      process. */
  datatype Outcome =
    | BadCommand
    | NoSuchTable
    | TableLocked
    | KeyUnreadable
    | KeyUnwritable
    | PageMissing
    | PageUnwritable
    | Inserted(key: int, page: int)

  // ---------------------------------------------------------------------
  // The lock file

  /** What `file >> current` leaves in an empty `current`: the first
      whitespace-separated word, or "" when there is none. */
  function FirstWord(text: string): string {
    var w := Tokens(text);
    if w == [] then "" else w[0]
  }

  /** isloker: the table is locked when its lock file exists and its first
      word is `locked`. */
  predicate LockedIn(files: Files, t: string) {
    LockFile(t) in files && FirstWord(files[LockFile(t)]) == "locked"
  }

  /** What loker writes over a lock file holding text. */
  function ToggledText(text: string): string {
    if FirstWord(text) == "locked" then "unlocked" else "locked"
  }

  /** loker: a missing lock file, or one that cannot be opened for writing,
      is left alone; otherwise it is overwritten with the toggled text. */
  function LokerEffect(files: Files, t: string, writeFails: bool): Files {
    if LockFile(t) !in files || writeFails then files
    else files[LockFile(t) := ToggledText(files[LockFile(t)])]
  }

  lemma WordsOfState()
    ensures FirstWord("locked") == "locked" && FirstWord("unlocked") == "unlocked"
  {
    var a, b := "locked", "unlocked";
    forall k | 0 <= k < |a| ensures !IsSpace(a[k]) {
      assert 'a' <= a[k] <= 'z';
    }
    forall k | 0 <= k < |b| ensures !IsSpace(b[k]) {
      assert 'a' <= b[k] <= 'z';
    }
    TokensOfJoin([a]);
    TokensOfJoin([b]);
  }

  /** The toggle inverts the lock state, whatever the file held. */
  lemma ToggleInverts(text: string)
    ensures FirstWord(ToggledText(text)) == "locked" <==> FirstWord(text) != "locked"
  {
    WordsOfState();
  }

  /** Toggling twice restores the lock state, and the text itself when it
      was one of the two words loker writes. */
  lemma ToggleTwice(text: string)
    ensures (FirstWord(ToggledText(ToggledText(text))) == "locked") == (FirstWord(text) == "locked")
    ensures text == "locked" || text == "unlocked" ==> ToggledText(ToggledText(text)) == text
  {
    WordsOfState();
  }

  /** loker flips isloker for the table when its lock file exists and can be
      written, and changes no other file. */
  lemma LokerFlips(files: Files, t: string)
    requires LockFile(t) in files
    ensures LockedIn(LokerEffect(files, t, false), t) <==> !LockedIn(files, t)
    ensures forall p :: p != LockFile(t) ==>
      (p in LokerEffect(files, t, false) <==> p in files) &&
      (p in files ==> LokerEffect(files, t, false)[p] == files[p])
  {
    ToggleInverts(files[LockFile(t)]);
  }

  /** Two calls of loker restore the lock state, and the whole directory
      when the lock file held `locked` or `unlocked`. */
  lemma LokerTwice(files: Files, t: string)
    ensures LockedIn(LokerEffect(LokerEffect(files, t, false), t, false), t) == LockedIn(files, t)
    ensures LockFile(t) in files && (files[LockFile(t)] == "locked" || files[LockFile(t)] == "unlocked") ==>
      LokerEffect(LokerEffect(files, t, false), t, false) == files
  {
    if LockFile(t) in files {
      var text := files[LockFile(t)];
      ToggleTwice(text);
      var f1 := files[LockFile(t) := ToggledText(text)];
      assert LokerEffect(files, t, false) == f1;
      assert LokerEffect(f1, t, false) == files[LockFile(t) := ToggledText(ToggledText(text))];
      if text == "locked" || text == "unlocked" {
        assert files[LockFile(t) := text] == files;
      }
    }
  }

  // ---------------------------------------------------------------------
  // Pages

  /** findCsvFileCount's result: pages 1..k of the table exist and page
      k + 1 does not. */
  predicate IsPageCount(files: Files, t: string, k: int) {
    k >= 0 && (forall i :: 1 <= i <= k ==> PageFile(t, i) in files) && PageFile(t, k + 1) !in files
  }

  /** At most one k is the page count. */
  lemma PageCountUnique(files: Files, t: string, k1: int, k2: int)
    requires IsPageCount(files, t, k1) && IsPageCount(files, t, k2)
    ensures k1 == k2
  {
    assert PageFile(t, k1 + 1) !in files && PageFile(t, k2 + 1) !in files;
  }

  /** The pages of t numbered n or more. */
  function PagesFrom(files: Files, t: string, n: int): set<FilePath> {
    set p | p in files && p.PageFile? && p.table == t && p.number >= n
  }

  /** The last of the consecutive pages from n on (n - 1 when page n is
      missing). */
  function LastPageFrom(files: Files, t: string, n: int): int
    decreases |PagesFrom(files, t, n)|
  {
    if PageFile(t, n) in files then
      assert PagesFrom(files, t, n) == PagesFrom(files, t, n + 1) + {PageFile(t, n)};
      LastPageFrom(files, t, n + 1)
    else n - 1
  }

  /** The number of consecutive pages from 1.csv on. */
  function PageCount(files: Files, t: string): int {
    LastPageFrom(files, t, 1)
  }

  lemma {:induction false} LastPageFromCounts(files: Files, t: string, n: int)
    requires n >= 1 && forall i :: 1 <= i < n ==> PageFile(t, i) in files
    ensures IsPageCount(files, t, LastPageFrom(files, t, n))
    decreases |PagesFrom(files, t, n)|
  {
    if PageFile(t, n) in files {
      assert PagesFrom(files, t, n) == PagesFrom(files, t, n + 1) + {PageFile(t, n)};
      LastPageFromCounts(files, t, n + 1);
    }
  }

  /** PageCount is the one count findCsvFileCount promises. */
  lemma PageCountCounts(files: Files, t: string)
    ensures IsPageCount(files, t, PageCount(files, t))
    ensures forall k :: IsPageCount(files, t, k) ==> k == PageCount(files, t)
  {
    LastPageFromCounts(files, t, 1);
    forall k | IsPageCount(files, t, k) ensures k == PageCount(files, t) {
      PageCountUnique(files, t, k, PageCount(files, t));
    }
  }

  /** The page count only looks at the table's pages. */
  lemma PageCountSamePages(f: Files, g: Files, t: string)
    requires forall n :: PageFile(t, n) in f <==> PageFile(t, n) in g
    ensures PageCount(f, t) == PageCount(g, t)
  {
    PageCountCounts(f, t);
    PageCountCounts(g, t);
    assert IsPageCount(g, t, PageCount(f, t));
  }

  /** The data rows the CSV library counts in a page: its lines, less the
      header line. */
  function RowCount(text: string): nat {
    var lines := Fields(text, '\n');
    if lines == [] then 0 else |lines| - 1
  }

  /** createNewCsvFile's choice: the next page when page k already holds
      TableSize rows or more (the int is converted to size_t for the
      comparison), page k otherwise. */
  function ChosenPage(files: Files, t: string, k: int, tableSize: int): int
    requires PageFile(t, k) in files
  {
    if RowCount(files[PageFile(t, k)]) >= tableSize % SizeModulus then k + 1 else k
  }

  /** copyNameColonk into a page n that does not exist yet: it receives the
      first word of page 1 and a line break, unless page 1 cannot be read
      or page n cannot be written. */
  function WithPage(files: Files, t: string, n: int, writeFails: bool): Files {
    if PageFile(t, n) in files || PageFile(t, 1) !in files || writeFails then files
    else files[PageFile(t, n) := FirstWord(files[PageFile(t, 1)]) + "\n"]
  }

  /** The page chosen is page k or the next one, and the next one exactly
      when page k is full; a page created for it starts with page 1's
      header word, and nothing else changes. */
  lemma ChosenPageRule(files: Files, t: string, k: int, tableSize: int)
    requires 0 <= tableSize <= IntMax && PageFile(t, k) in files
    ensures ChosenPage(files, t, k, tableSize) == k + 1 <==> RowCount(files[PageFile(t, k)]) >= tableSize
    ensures ChosenPage(files, t, k, tableSize) == k <==> RowCount(files[PageFile(t, k)]) < tableSize
  {
    assert tableSize % SizeModulus == tableSize;
  }

  /** A negative TableSize compares as a huge size_t: the page never counts
      as full. */
  lemma NegativeSizeNeverFull(files: Files, t: string, k: int, tableSize: int)
    requires -SizeModulus < tableSize < 0 && PageFile(t, k) in files
    requires RowCount(files[PageFile(t, k)]) < SizeModulus + tableSize
    ensures ChosenPage(files, t, k, tableSize) == k
  {
    assert tableSize % SizeModulus == SizeModulus + tableSize;
  }

  lemma WithPageCopiesHeader(files: Files, t: string, n: int)
    requires PageFile(t, n) !in files && PageFile(t, 1) in files
    ensures WithPage(files, t, n, false) == files[PageFile(t, n) := FirstWord(files[PageFile(t, 1)]) + "\n"]
    ensures forall p :: p in files ==> p in WithPage(files, t, n, false) && WithPage(files, t, n, false)[p] == files[p]
  {
  }

  // ---------------------------------------------------------------------
  // The key counter and the row

  /** `fileIn >> currentPK` on the key file's text: when only whitespace is
      left the extraction does not touch currentPK, which keeps the
      indeterminate value it was declared with; otherwise the number read
      (0 when there is none, clamped to int). */
  function ReadKey(text: string, indeterminate: int): int {
    if SkipSpace(text) == [] then indeterminate else StreamInt(text)
  }

  /** `currentPK++`, wrapping at the bounds of int. */
  function NextKey(text: string, indeterminate: int): int {
    Wrap32(ReadKey(text, indeterminate) + 1)
  }

  /** The key written back is the key read next time. */
  lemma KeyReadBack(key: int, indeterminate: int)
    requires IntMin <= key <= IntMax
    ensures ReadKey(IntText(key), indeterminate) == key
    ensures NextKey(IntText(key), indeterminate) == Wrap32(key + 1)
  {
    var s := IntText(key);
    assert !IsSpace(s[0]);
    StreamIntOfText(key);
  }

  /** The line appended to the page: the key, a comma, and the quoted
      values as the writing loop emits them. */
  function RowText(key: int, values: string): string {
    IntText(key) + "," + Emitted(values)
  }

  /** Append text to a file, creating it when it is absent (`ios::app`). */
  function Appended(files: Files, p: FilePath, text: string): Files {
    files[p := (if p in files then files[p] else "") + text]
  }

  // ---------------------------------------------------------------------
  // insert

  /** What `insert` does to the directory, given TableSize, the failing
      openings, and the value currentPK has before it is read. */
  function InsertEffect(files: Files, command: string, tables: seq<string>, tableSize: int,
                        faults: Faults, indeterminate: int): (Outcome, Files)
  {
    match InsertCommand(command, tables)
    case Malformed => (BadCommand, files)
    case UnknownTable => (NoSuchTable, files)
    case Parsed(t, values) => InsertInto(files, t, values, tableSize, faults, indeterminate)
  }

  /** From the lock check on, for the table t and the value text read from
      the command. */
  function InsertInto(files: Files, t: string, values: string, tableSize: int,
                      faults: Faults, indeterminate: int): (Outcome, Files)
  {
    if LockedIn(files, t) then (TableLocked, files)
    else KeyEffect(LokerEffect(files, t, faults.lockWrite), t, values, tableSize, faults, indeterminate)
  }

  /** From the reading of the key counter on, with the table locked. */
  function KeyEffect(files: Files, t: string, values: string, tableSize: int,
                     faults: Faults, indeterminate: int): (Outcome, Files)
  {
    if KeyFile(t) !in files then (KeyUnreadable, files)
    else if faults.keyWrite then (KeyUnwritable, files)
    else
      var key := NextKey(files[KeyFile(t)], indeterminate);
      PageEffect(files[KeyFile(t) := IntText(key)], t, key, values, tableSize, faults)
  }

  /** From the page count on, with the new key written. */
  function PageEffect(files: Files, t: string, key: int, values: string, tableSize: int,
                      faults: Faults): (Outcome, Files)
  {
    var k := PageCount(files, t);
    if PageFile(t, k) !in files then (PageMissing, files)
    else
      var n := ChosenPage(files, t, k, tableSize);
      var withPage := WithPage(files, t, n, faults.headerWrite);
      if faults.pageWrite then (PageUnwritable, withPage)
      else
        var written := Appended(withPage, PageFile(t, n), RowText(key, values));
        (Inserted(key, n), LokerEffect(written, t, faults.unlockWrite))
  }

  /** The files of tables other than t are as they were. */
  ghost predicate OthersUntouched(before: Files, after: Files, t: string) {
    forall p: FilePath :: p.table != t ==> (p in after <==> p in before) && (p in before ==> after[p] == before[p])
  }

  /** Every page of t other than page n is as it was. */
  ghost predicate OtherPagesKept(before: Files, after: Files, t: string, n: int) {
    forall m :: m != n ==>
      && (PageFile(t, m) in after <==> PageFile(t, m) in before)
      && (PageFile(t, m) in before ==> after[PageFile(t, m)] == before[PageFile(t, m)])
  }

  /** The pages of t are the same in f and g. */
  ghost predicate SamePages(f: Files, g: Files, t: string) {
    forall n :: (PageFile(t, n) in f <==> PageFile(t, n) in g) &&
      (PageFile(t, n) in f ==> f[PageFile(t, n)] == g[PageFile(t, n)])
  }

  /** What page n holds before the row is appended to it: its text, the
      header copied into it when it is new, or nothing. */
  function PageBefore(files: Files, t: string, n: int, headerFails: bool): string {
    var w := WithPage(files, t, n, headerFails);
    if PageFile(t, n) in w then w[PageFile(t, n)] else ""
  }

  /** The page count, the page chosen and what it held depend on the pages
      of t alone. */
  lemma SamePagesSameChoice(f: Files, g: Files, t: string, tableSize: int, headerFails: bool)
    requires SamePages(f, g, t)
    ensures PageCount(f, t) == PageCount(g, t)
    ensures var k := PageCount(f, t);
      PageFile(t, k) in f ==> ChosenPage(f, t, k, tableSize) == ChosenPage(g, t, k, tableSize)
    ensures forall n :: PageBefore(f, t, n, headerFails) == PageBefore(g, t, n, headerFails)
  {
    PageCountSamePages(f, g, t);
    assert PageFile(t, 1) in f <==> PageFile(t, 1) in g;
  }

  /** The last stage: the page to count rows in must exist and the page
      chosen be writable; the row is then appended to the page chosen and
      the lock toggled back. */
  lemma PageEffectRule(files: Files, t: string, key: int, values: string, tableSize: int, faults: Faults)
    ensures var r := PageEffect(files, t, key, values, tableSize, faults);
      var k := PageCount(files, t);
      && (r.0 == PageMissing <==> PageFile(t, k) !in files)
      && (r.0 == PageUnwritable <==> PageFile(t, k) in files && faults.pageWrite)
      && (r.0.Inserted? <==> PageFile(t, k) in files && !faults.pageWrite)
      && (r.0.Inserted? ==>
            r.0 == Inserted(key, ChosenPage(files, t, k, tableSize)) &&
            PageFile(t, r.0.page) in r.1 &&
            r.1[PageFile(t, r.0.page)] == PageBefore(files, t, r.0.page, faults.headerWrite) + RowText(key, values))
  {
    var k := PageCount(files, t);
    if PageFile(t, k) in files && !faults.pageWrite {
      var n := ChosenPage(files, t, k, tableSize);
      var f3 := WithPage(files, t, n, faults.headerWrite);
      var f4 := Appended(f3, PageFile(t, n), RowText(key, values));
      assert f4[PageFile(t, n)] == PageBefore(files, t, n, faults.headerWrite) + RowText(key, values);
      assert LokerEffect(f4, t, faults.unlockWrite)[PageFile(t, n)] == f4[PageFile(t, n)];
    }
  }

  /** The last stage touches the lock file only to unlock after a success,
      never the key file, and no file of another table. */
  lemma PageEffectFrames(files: Files, t: string, key: int, values: string, tableSize: int, faults: Faults)
    ensures var r := PageEffect(files, t, key, values, tableSize, faults);
      && (r.0.Inserted? ==> LockedIn(r.1, t) == LockedIn(LokerEffect(files, t, faults.unlockWrite), t))
      && (r.0.Inserted? && LockFile(t) in files && !faults.unlockWrite ==>
            r.1[LockFile(t)] == ToggledText(files[LockFile(t)]))
      && (!r.0.Inserted? ==> (LockFile(t) in r.1 <==> LockFile(t) in files) && LockedIn(r.1, t) == LockedIn(files, t))
      && (KeyFile(t) in r.1 <==> KeyFile(t) in files)
      && (KeyFile(t) in files ==> r.1[KeyFile(t)] == files[KeyFile(t)])
      && OthersUntouched(files, r.1, t)
      && (r.0 == PageMissing ==> r.1 == files)
      && (r.0.Inserted? ==> OtherPagesKept(files, r.1, t, r.0.page))
      && (r.0 == PageUnwritable && PageFile(t, PageCount(files, t)) in files ==>
            OtherPagesKept(files, r.1, t, ChosenPage(files, t, PageCount(files, t), tableSize)))
  {
    var k := PageCount(files, t);
    if PageFile(t, k) in files {
      var n := ChosenPage(files, t, k, tableSize);
      var f3 := WithPage(files, t, n, faults.headerWrite);
      assert f3 == files || f3 == files[PageFile(t, n) := FirstWord(files[PageFile(t, 1)]) + "\n"];
      if !faults.pageWrite {
        var f4 := Appended(f3, PageFile(t, n), RowText(key, values));
        assert LockFile(t) in f4 <==> LockFile(t) in files;
        assert LockFile(t) in files ==> f4[LockFile(t)] == files[LockFile(t)];
      }
    }
  }

  /** The middle stage: the key file must exist and be writable; the
      counter read plus one is written back and becomes the key. */
  lemma KeyEffectRule(files: Files, t: string, values: string, tableSize: int, faults: Faults, indeterminate: int)
    ensures var r := KeyEffect(files, t, values, tableSize, faults, indeterminate);
      && (r.0 == KeyUnreadable <==> KeyFile(t) !in files)
      && (r.0 == KeyUnwritable <==> KeyFile(t) in files && faults.keyWrite)
      && (r.0 in {KeyUnreadable, KeyUnwritable} ==> r.1 == files)
      && (KeyFile(t) in files && !faults.keyWrite ==>
            var key := NextKey(files[KeyFile(t)], indeterminate);
            r == PageEffect(files[KeyFile(t) := IntText(key)], t, key, values, tableSize, faults))
  {
    if KeyFile(t) in files && !faults.keyWrite {
      var key := NextKey(files[KeyFile(t)], indeterminate);
      PageEffectRule(files[KeyFile(t) := IntText(key)], t, key, values, tableSize, faults);
    }
  }

  /** insert refuses a malformed command, an unknown table and a locked
      table before it touches any file, and only those; a command that is
      read goes on with its table and value text. */
  lemma InsertRefusals(files: Files, command: string, tables: seq<string>, tableSize: int,
                       faults: Faults, indeterminate: int)
    ensures var r := InsertEffect(files, command, tables, tableSize, faults, indeterminate);
      var c := InsertCommand(command, tables);
      && (r.0 == BadCommand <==> c.Malformed?)
      && (r.0 == NoSuchTable <==> c.UnknownTable?)
      && (r.0 == TableLocked <==> c.Parsed? && LockedIn(files, c.table))
      && (r.0 in {BadCommand, NoSuchTable, TableLocked} ==> r.1 == files)
      && (c.Parsed? ==> r == InsertInto(files, c.table, c.values, tableSize, faults, indeterminate))
  {
    var c := InsertCommand(command, tables);
    if c.Parsed? && !LockedIn(files, c.table) {
      var f1 := LokerEffect(files, c.table, faults.lockWrite);
      KeyEffectRule(f1, c.table, c.values, tableSize, faults, indeterminate);
      if KeyFile(c.table) in f1 && !faults.keyWrite {
        var key := NextKey(f1[KeyFile(c.table)], indeterminate);
        PageEffectRule(f1[KeyFile(c.table) := IntText(key)], c.table, key, c.values, tableSize, faults);
      }
    }
  }

  /** The files an insert that gets past the lock check works on, as the
      three stages see them. */
  lemma InsertStages(files: Files, t: string, values: string, tableSize: int,
                     faults: Faults, indeterminate: int)
    requires !LockedIn(files, t)
    ensures var f1 := LokerEffect(files, t, faults.lockWrite);
      && InsertInto(files, t, values, tableSize, faults, indeterminate) ==
           KeyEffect(f1, t, values, tableSize, faults, indeterminate)
      && (KeyFile(t) in f1 <==> KeyFile(t) in files)
      && (KeyFile(t) in files ==> f1[KeyFile(t)] == files[KeyFile(t)])
      && SamePages(files, f1, t)
      && OthersUntouched(files, f1, t)
  {
  }

  /** Past the lock check, insert fails only on the key file, the page to
      count rows in and the page to append to.  Once past the key file the
      counter holds one more than it held (wrapping at the bounds of int),
      and a successful insert reports that new counter as its key. */
  lemma InsertKey(files: Files, t: string, values: string, tableSize: int,
                  faults: Faults, indeterminate: int)
    requires !LockedIn(files, t)
    ensures var r := InsertInto(files, t, values, tableSize, faults, indeterminate);
      && (r.0 == KeyUnreadable <==> KeyFile(t) !in files)
      && (r.0 == KeyUnwritable <==> KeyFile(t) in files && faults.keyWrite)
      && (r.0 == PageMissing || r.0 == PageUnwritable || r.0.Inserted? ==>
            KeyFile(t) in files && KeyFile(t) in r.1 &&
            r.1[KeyFile(t)] == IntText(NextKey(files[KeyFile(t)], indeterminate)))
      && (r.0.Inserted? ==> r.0.key == NextKey(files[KeyFile(t)], indeterminate))
  {
    InsertStages(files, t, values, tableSize, faults, indeterminate);
    var f1 := LokerEffect(files, t, faults.lockWrite);
    KeyEffectRule(f1, t, values, tableSize, faults, indeterminate);
    if KeyFile(t) in f1 && !faults.keyWrite {
      var key := NextKey(f1[KeyFile(t)], indeterminate);
      var f2 := f1[KeyFile(t) := IntText(key)];
      PageEffectRule(f2, t, key, values, tableSize, faults);
      PageEffectFrames(f2, t, key, values, tableSize, faults);
    }
  }

  /** A successful insert appends the row to the last page when it holds
      fewer than TableSize rows and to the page after it otherwise; a new
      page starts with page 1's header word. */
  lemma InsertPage(files: Files, t: string, values: string, tableSize: int,
                  faults: Faults, indeterminate: int)
    requires !LockedIn(files, t)
    ensures var r := InsertInto(files, t, values, tableSize, faults, indeterminate);
      var k := PageCount(files, t);
      && (r.0 == PageMissing <==> KeyFile(t) in files && !faults.keyWrite && PageFile(t, k) !in files)
      && (r.0.Inserted? ==>
            PageFile(t, k) in files &&
            r.0.page == ChosenPage(files, t, k, tableSize) &&
            PageFile(t, r.0.page) in r.1 &&
            r.1[PageFile(t, r.0.page)] == PageBefore(files, t, r.0.page, faults.headerWrite) + RowText(r.0.key, values))
  {
    InsertStages(files, t, values, tableSize, faults, indeterminate);
    var f1 := LokerEffect(files, t, faults.lockWrite);
    KeyEffectRule(f1, t, values, tableSize, faults, indeterminate);
    if KeyFile(t) in f1 && !faults.keyWrite {
      var key := NextKey(f1[KeyFile(t)], indeterminate);
      var f2 := f1[KeyFile(t) := IntText(key)];
      assert SamePages(files, f2, t);
      SamePagesSameChoice(files, f2, t, tableSize, faults.headerWrite);
      PageEffectRule(f2, t, key, values, tableSize, faults);
    }
  }

  /** The lock file after the first two stages: locked when it exists and
      can be written, untouched otherwise. */
  lemma LockAfterLoker(files: Files, t: string, writeFails: bool)
    requires !LockedIn(files, t)
    ensures var f1 := LokerEffect(files, t, writeFails);
      && (LockFile(t) in files && !writeFails ==> f1[LockFile(t)] == "locked")
      && (LockFile(t) !in files || writeFails ==> f1 == files)
  {
    if LockFile(t) in files && !writeFails {
      WordsOfState();
      assert ToggledText(files[LockFile(t)]) == "locked";
    }
  }

  /** An insert that succeeds with both lock writes working leaves the
      table unlocked, its lock file holding `unlocked`. */
  lemma InsertUnlocks(files: Files, t: string, values: string, tableSize: int,
                      faults: Faults, indeterminate: int)
    requires !LockedIn(files, t) && !faults.lockWrite && !faults.unlockWrite
    requires InsertInto(files, t, values, tableSize, faults, indeterminate).0.Inserted?
    ensures var after := InsertInto(files, t, values, tableSize, faults, indeterminate).1;
      !LockedIn(after, t) && (LockFile(t) in files ==> after[LockFile(t)] == "unlocked")
  {
    InsertStages(files, t, values, tableSize, faults, indeterminate);
    LockAfterLoker(files, t, false);
    var f1 := LokerEffect(files, t, false);
    KeyEffectRule(f1, t, values, tableSize, faults, indeterminate);
    var key := NextKey(f1[KeyFile(t)], indeterminate);
    var f2 := f1[KeyFile(t) := IntText(key)];
    PageEffectFrames(f2, t, key, values, tableSize, faults);
    WordsOfState();
    if LockFile(t) in files {
      assert f2[LockFile(t)] == "locked";
    } else {
      assert LockFile(t) !in f2;
    }
  }

  /** An insert that fails after locking leaves the table locked. */
  lemma InsertFailureStaysLocked(files: Files, t: string, values: string, tableSize: int,
                                 faults: Faults, indeterminate: int)
    requires !LockedIn(files, t) && LockFile(t) in files && !faults.lockWrite
    requires !InsertInto(files, t, values, tableSize, faults, indeterminate).0.Inserted?
    ensures LockedIn(InsertInto(files, t, values, tableSize, faults, indeterminate).1, t)
  {
    InsertStages(files, t, values, tableSize, faults, indeterminate);
    LockAfterLoker(files, t, false);
    var f1 := LokerEffect(files, t, false);
    WordsOfState();
    assert LockedIn(f1, t);
    KeyEffectRule(f1, t, values, tableSize, faults, indeterminate);
    if KeyFile(t) in f1 && !faults.keyWrite {
      var key := NextKey(f1[KeyFile(t)], indeterminate);
      var f2 := f1[KeyFile(t) := IntText(key)];
      assert LockedIn(f2, t);
      PageEffectFrames(f2, t, key, values, tableSize, faults);
    }
  }

  /** A table without a lock file gets none from insert: it is never
      locked. */
  lemma InsertWithoutLockFile(files: Files, t: string, values: string, tableSize: int,
                              faults: Faults, indeterminate: int)
    requires LockFile(t) !in files
    ensures LockFile(t) !in InsertInto(files, t, values, tableSize, faults, indeterminate).1
  {
    InsertOthersAndLock(files, t, values, tableSize, faults, indeterminate);
  }

  /** No insert changes a file of another table. */
  lemma InsertOthersUntouched(files: Files, t: string, values: string, tableSize: int,
                              faults: Faults, indeterminate: int)
    ensures OthersUntouched(files, InsertInto(files, t, values, tableSize, faults, indeterminate).1, t)
  {
    InsertOthersAndLock(files, t, values, tableSize, faults, indeterminate);
  }

  lemma InsertOthersAndLock(files: Files, t: string, values: string, tableSize: int,
                            faults: Faults, indeterminate: int)
    ensures var after := InsertInto(files, t, values, tableSize, faults, indeterminate).1;
      OthersUntouched(files, after, t) && (LockFile(t) !in files ==> LockFile(t) !in after)
  {
    if !LockedIn(files, t) {
      InsertStages(files, t, values, tableSize, faults, indeterminate);
      var f1 := LokerEffect(files, t, faults.lockWrite);
      KeyEffectRule(f1, t, values, tableSize, faults, indeterminate);
      if KeyFile(t) in f1 && !faults.keyWrite {
        var key := NextKey(f1[KeyFile(t)], indeterminate);
        var f2 := f1[KeyFile(t) := IntText(key)];
        PageEffectFrames(f2, t, key, values, tableSize, faults);
        assert OthersUntouched(files, f2, t);
      }
    }
  }

  /** The key a successful insert reports is the one it wrote to the key
      file, one above what the file held. */
  lemma InsertedKey(files: Files, t: string, values: string, tableSize: int,
                    faults: Faults, indeterminate: int)
    requires InsertInto(files, t, values, tableSize, faults, indeterminate).0.Inserted?
    ensures var r := InsertInto(files, t, values, tableSize, faults, indeterminate);
      && KeyFile(t) in files && r.0.key == NextKey(files[KeyFile(t)], indeterminate)
      && KeyFile(t) in r.1 && r.1[KeyFile(t)] == IntText(r.0.key)
  {
    assert !LockedIn(files, t);
    InsertKey(files, t, values, tableSize, faults, indeterminate);
  }

  /** Each insert into a table that follows a successful one reports the
      next key: the counter goes up by exactly one per insert. */
  lemma InsertKeysAdvance(files: Files, t: string, values1: string, values2: string, tableSize: int,
                          faults1: Faults, faults2: Faults, indeterminate: int)
    requires InsertInto(files, t, values1, tableSize, faults1, indeterminate).0.Inserted?
    requires var after := InsertInto(files, t, values1, tableSize, faults1, indeterminate).1;
      InsertInto(after, t, values2, tableSize, faults2, indeterminate).0.Inserted?
    ensures var r1 := InsertInto(files, t, values1, tableSize, faults1, indeterminate);
      InsertInto(r1.1, t, values2, tableSize, faults2, indeterminate).0.key == Wrap32(r1.0.key + 1)
  {
    var r1 := InsertInto(files, t, values1, tableSize, faults1, indeterminate);
    InsertedKey(files, t, values1, tableSize, faults1, indeterminate);
    InsertedKey(r1.1, t, values2, tableSize, faults2, indeterminate);
    KeyReadBack(r1.0.key, indeterminate);
  }


  // ---------------------------------------------------------------------
  // The schema directory

  /** The files of a schema directory, as `insert` and its helpers read and
      write them. */
  class Storage {
    var files: Files

    constructor (initial: Files)
      ensures files == initial
    {
      files := initial;
    }

    /** isloker: read the first word of the lock file, if there is one. */
    method IsLoker(t: string) returns (locked: bool)
      ensures locked == LockedIn(files, t)
    {
      var lockFile := LockFile(t);
      if lockFile !in files {
        return false;
      }
      var current := "";
      var read := Extract(Open(files[lockFile]), current);
      current := read.1;
      return current == "locked";
    }

    /** loker: read the lock file's first word and write the other state
      over it. */
    method Loker(t: string, writeFails: bool)
      modifies this
      ensures files == LokerEffect(old(files), t, writeFails)
    {
      var lockFile := LockFile(t);
      if lockFile !in files {
        return;
      }
      var current := "";
      var read := Extract(Open(files[lockFile]), current);
      current := read.1;
      if writeFails {
        return;
      }
      files := files[lockFile := if current == "locked" then "unlocked" else "locked"];
    }

    /** findCsvFileCount: count the pages 1.csv, 2.csv, ... until one is
        missing. */
    method FindCsvFileCount(t: string) returns (csvCount: int)
      ensures IsPageCount(files, t, csvCount)
    {
      csvCount := 0;
      var csvNumber := 1;
      while true
        invariant csvCount >= 0 && csvNumber == csvCount + 1
        invariant forall i :: 1 <= i <= csvCount ==> PageFile(t, i) in files
        decreases |PagesFrom(files, t, csvNumber)|
      {
        if PageFile(t, csvNumber) !in files {
          break;
        }
        assert PagesFrom(files, t, csvNumber) == PagesFrom(files, t, csvNumber + 1) + {PageFile(t, csvNumber)};
        csvCount := csvCount + 1;
        csvNumber := csvNumber + 1;
      }
    }

    /** createNewCsvFile: count the rows of page csvNumber (None when the
        page is missing and the CSV library throws), move to the next page
        when it is full, and give a page that does not exist page 1's
        header word. */
    method CreateNewCsvFile(t: string, csvNumber: int, tableSize: int, headerFails: bool) returns (number: Option<int>)
      modifies this
      ensures PageFile(t, csvNumber) !in old(files) ==> number.None? && files == old(files)
      ensures PageFile(t, csvNumber) in old(files) ==>
        number == Some(ChosenPage(old(files), t, csvNumber, tableSize)) &&
        files == WithPage(old(files), t, number.value, headerFails)
    {
      var maxRowsPerFile := tableSize;
      var csvFile := PageFile(t, csvNumber);
      if csvFile !in files {
        return None;
      }
      var n := csvNumber;
      if RowCount(files[csvFile]) >= maxRowsPerFile % SizeModulus {
        n := n + 1;
        csvFile := PageFile(t, n);
      }
      if csvFile !in files {
        var csvFirst := PageFile(t, 1);
        if csvFirst in files && !headerFails {
          var columns := "";
          var read := Extract(Open(files[csvFirst]), columns);
          columns := read.1;
          files := files[csvFile := columns + "\n"];
        }
      }
      return Some(n);
    }

    /** insert: read the command, check and take the lock, advance the key
        counter, choose the page, append the row and release the lock. */
    method Insert(command: string, tables: seq<string>, tableSize: int, faults: Faults, indeterminate: int)
      returns (outcome: Outcome)
      modifies this
      ensures (outcome, files) == InsertEffect(old(files), command, tables, tableSize, faults, indeterminate)
    {
      var c := ParseInsert(command, tables);
      if c.Malformed? {
        return BadCommand;
      } else if c.UnknownTable? {
        return NoSuchTable;
      }
      var tableName, values := c.table, c.values;
      var locked := IsLoker(tableName);
      if locked {
        return TableLocked;
      }
      Loker(tableName, faults.lockWrite);
      ghost var f1 := files;
      var pkFile := KeyFile(tableName);
      if pkFile !in files {
        return KeyUnreadable;
      }
      var currentPK := indeterminate;
      currentPK := ReadKey(files[pkFile], currentPK);
      if faults.keyWrite {
        return KeyUnwritable;
      }
      currentPK := Wrap32(currentPK + 1);
      files := files[pkFile := IntText(currentPK)];
      assert currentPK == NextKey(f1[pkFile], indeterminate);
      ghost var f2 := files;
      var csvNumber := FindCsvFileCount(tableName);
      PageCountCounts(files, tableName);
      var page := CreateNewCsvFile(tableName, csvNumber, tableSize, faults.headerWrite);
      if page.None? {
        return PageMissing;
      }
      csvNumber := page.value;
      var csvSecond := PageFile(tableName, csvNumber);
      if faults.pageWrite {
        return PageUnwritable;
      }
      var row := EmitRow(values);
      var prior := if csvSecond in files then files[csvSecond] else "";
      files := files[csvSecond := prior + (IntText(currentPK) + "," + row)];
      Loker(tableName, faults.unlockWrite);
      return Inserted(currentPK, csvNumber);
    }
  }
}
