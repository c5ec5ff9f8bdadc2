/** Character-level semantics of the two C++ input-stream operations the
    table store parses all of its text with: std::getline with a delimiter
    and operator>> into a std::string, over an istringstream or ifstream
    holding a text.  The flags follow libstdc++: a failed extraction leaves
    the target string unchanged when the stream was already exhausted. */
module CppStream {

  /** The characters the "C" locale's isspace accepts. */
  predicate IsSpace(c: char) {
    c == ' ' || c == '\t' || c == '\n' || c == '\U{B}' || c == '\U{C}' || c == '\r'
  }

  /** Index of the first occurrence of d in s, or |s| when there is none
      (std::string::find with npos mapped to the length). */
  function IndexOf(s: string, d: char): (i: nat)
    ensures i <= |s|
    ensures i < |s| ==> s[i] == d
  {
    if s == [] then 0 else if s[0] == d then 0 else 1 + IndexOf(s[1..], d)
  }

  /** No d comes before the one IndexOf finds. */
  lemma {:induction false} IndexOfFirst(s: string, d: char)
    ensures forall j :: 0 <= j < IndexOf(s, d) ==> s[j] != d
    decreases |s|
  {
    if s != [] && s[0] != d {
      IndexOfFirst(s[1..], d);
      forall j | 1 <= j < IndexOf(s, d) ensures s[j] != d {
        assert s[j] == s[1..][j - 1];
      }
    }
  }

  /** A position with d there (or the end) and no d before it is the one
      IndexOf finds. */
  lemma IndexOfIs(s: string, d: char, i: nat)
    requires i <= |s| && (i < |s| ==> s[i] == d)
    requires forall j :: 0 <= j < i ==> s[j] != d
    ensures IndexOf(s, d) == i
  {
    IndexOfFirst(s, d);
  }

  /** s with every occurrence of c erased (the erase/remove idiom). */
  function RemoveChar(s: string, c: char): string {
    if s == [] then [] else (if s[0] == c then [] else [s[0]]) + RemoveChar(s[1..], c)
  }

  /** Erasing c leaves no c, never lengthens, and changes nothing when
      there is no c. */
  lemma {:induction false} RemoveCharErases(s: string, c: char)
    ensures c !in RemoveChar(s, c)
    ensures |RemoveChar(s, c)| <= |s|
    ensures c !in s ==> RemoveChar(s, c) == s
    decreases |s|
  {
    if s != [] {
      RemoveCharErases(s[1..], c);
      var head := if s[0] == c then [] else [s[0]];
      assert RemoveChar(s, c) == head + RemoveChar(s[1..], c);
      assert c !in head;
      if c !in s {
        assert s == [s[0]] + s[1..];
      }
    }
  }

  /** s with every isspace character erased (the erase/remove_if idiom). */
  function RemoveSpaces(s: string): string {
    if s == [] then [] else (if IsSpace(s[0]) then [] else [s[0]]) + RemoveSpaces(s[1..])
  }

  /** Erasing whitespace leaves none, never lengthens, and changes nothing
      when there is none. */
  lemma {:induction false} RemoveSpacesErases(s: string)
    ensures forall k :: 0 <= k < |RemoveSpaces(s)| ==> !IsSpace(RemoveSpaces(s)[k])
    ensures |RemoveSpaces(s)| <= |s|
    ensures (forall k :: 0 <= k < |s| ==> !IsSpace(s[k])) ==> RemoveSpaces(s) == s
    decreases |s|
  {
    if s != [] {
      RemoveSpacesErases(s[1..]);
      var head := if IsSpace(s[0]) then [] else [s[0]];
      var r := RemoveSpaces(s);
      var tail := RemoveSpaces(s[1..]);
      assert r == head + tail;
      forall k | 0 <= k < |r| ensures !IsSpace(r[k]) {
        if k >= |head| {
          assert r[k] == tail[k - |head|];
        }
      }
      if forall k :: 0 <= k < |s| ==> !IsSpace(s[k]) {
        assert forall k :: 0 <= k < |s[1..]| ==> !IsSpace(s[1..][k]);
        assert s == [s[0]] + s[1..];
      }
    }
  }

  /** The fields that `while (getline(stream, field, d))` reads from s, in
      order: s cut at every d, except that no empty field is read after a
      final d (nor from an empty s). */
  function Fields(s: string, d: char): (r: seq<string>)
    ensures r == [] <==> s == []
    decreases |s|
  {
    if s == [] then []
    else
      var i := IndexOf(s, d);
      if i == |s| then [s] else [s[..i]] + Fields(s[i + 1..], d)
  }

  /** No field read holds the delimiter. */
  lemma {:induction false} FieldsHaveNoDelimiter(s: string, d: char)
    ensures forall k :: 0 <= k < |Fields(s, d)| ==> d !in Fields(s, d)[k]
    decreases |s|
  {
    if s != [] {
      var i := IndexOf(s, d);
      IndexOfFirst(s, d);
      if i < |s| {
        FieldsHaveNoDelimiter(s[i + 1..], d);
        var r := Fields(s, d);
        assert r == [s[..i]] + Fields(s[i + 1..], d);
        forall k | 0 <= k < |r| ensures d !in r[k] {
          if k > 0 {
            assert r[k] == Fields(s[i + 1..], d)[k - 1];
          }
        }
      }
    }
  }

  /** The fields xs written one after another with d between them. */
  function Join(xs: seq<string>, d: char): string
    decreases |xs|
  {
    if xs == [] then "" else if |xs| == 1 then xs[0] else xs[0] + [d] + Join(xs[1..], d)
  }

  /** Appending is associative (stated for the solver's benefit). */
  lemma AppendAssoc(a: string, b: string, c: string)
    ensures a + (b + c) == a + b + c
  {
  }

  /** The first d of x + [d] + y is the one after x when x has none. */
  lemma IndexOfJoined(x: string, d: char, y: string)
    requires d !in x
    ensures IndexOf(x + [d] + y, d) == |x|
  {
    var s := x + [d] + y;
    assert s[|x|] == d;
    forall j | 0 <= j < |x| ensures s[j] != d {
      assert s[j] == x[j];
    }
    IndexOfFirst(s, d);
  }

  /** A line that starts with a field free of the delimiter yields that
      field first and then the fields of the remainder. */
  lemma FieldsCons(x: string, d: char, y: string)
    requires d !in x
    ensures Fields(x + [d] + y, d) == [x] + Fields(y, d)
  {
    var s := x + [d] + y;
    IndexOfJoined(x, d, y);
    assert s[..|x|] == x;
    assert s[|x| + 1..] == y;
  }

  /** Reading back the fields of a joined line gives the fields again, as
      long as no field holds the delimiter and the last one is not empty. */
  lemma {:induction false} FieldsOfJoin(xs: seq<string>, d: char)
    requires forall k :: 0 <= k < |xs| ==> d !in xs[k]
    requires xs != [] ==> xs[|xs| - 1] != ""
    ensures Fields(Join(xs, d), d) == xs
    decreases |xs|
  {
    if |xs| > 1 {
      FieldsCons(xs[0], d, Join(xs[1..], d));
      FieldsOfJoin(xs[1..], d);
    } else if |xs| == 1 {
      assert IndexOf(xs[0], d) == |xs[0]|;
    }
  }

  /** s without its leading isspace characters. */
  function SkipSpace(s: string): (t: string)
    ensures |t| <= |s|
    ensures t != [] ==> !IsSpace(t[0])
  {
    if s != [] && IsSpace(s[0]) then SkipSpace(s[1..]) else s
  }

  /** What SkipSpace drops is whitespace, and it keeps the rest as it is. */
  lemma {:induction false} SkipSpaceSkips(s: string)
    ensures SkipSpace(s) == s[|s| - |SkipSpace(s)|..]
    ensures forall k :: 0 <= k < |s| - |SkipSpace(s)| ==> IsSpace(s[k])
    decreases |s|
  {
    if s != [] && IsSpace(s[0]) {
      SkipSpaceSkips(s[1..]);
      var t := SkipSpace(s);
      forall k | 1 <= k < |s| - |t| ensures IsSpace(s[k]) {
        assert s[k] == s[1..][k - 1];
      }
    }
  }

  /** Length of the leading run of non-space characters of s. */
  function WordEnd(s: string): (i: nat)
    ensures i <= |s|
    ensures i < |s| ==> IsSpace(s[i])
  {
    if s == [] || IsSpace(s[0]) then 0 else 1 + WordEnd(s[1..])
  }

  /** A word holds no whitespace. */
  lemma {:induction false} WordEndSpans(s: string)
    ensures forall k :: 0 <= k < WordEnd(s) ==> !IsSpace(s[k])
    decreases |s|
  {
    if s != [] && !IsSpace(s[0]) {
      WordEndSpans(s[1..]);
      forall k | 1 <= k < WordEnd(s) ensures !IsSpace(s[k]) {
        assert s[k] == s[1..][k - 1];
      }
    }
  }

  /** The whitespace-separated words of s, as successive operator>>
      extractions into a string read them. */
  function Tokens(s: string): seq<string>
    decreases |s|
  {
    if s == [] then []
    else if IsSpace(s[0]) then Tokens(s[1..])
    else
      var e := WordEnd(s);
      [s[..e]] + Tokens(s[e..])
  }

  /** Leading whitespace does not change the words read. */
  lemma {:induction false} TokensSkipSpace(s: string)
    ensures Tokens(SkipSpace(s)) == Tokens(s)
    decreases |s|
  {
    if s != [] && IsSpace(s[0]) {
      TokensSkipSpace(s[1..]);
    }
  }

  /** Every word read is non-empty and holds no whitespace. */
  lemma {:induction false} TokensAreWords(s: string)
    ensures forall k :: 0 <= k < |Tokens(s)| ==> Tokens(s)[k] != []
    ensures forall k, j :: 0 <= k < |Tokens(s)| && 0 <= j < |Tokens(s)[k]| ==> !IsSpace(Tokens(s)[k][j])
    decreases |s|
  {
    if s != [] && IsSpace(s[0]) {
      TokensAreWords(s[1..]);
    } else if s != [] {
      var e := WordEnd(s);
      WordEndSpans(s);
      var rest := Tokens(s[e..]);
      TokensAreWords(s[e..]);
      var r := Tokens(s);
      assert r == [s[..e]] + rest;
      forall k | 0 <= k < |r| ensures r[k] != [] {
        if k > 0 {
          assert r[k] == rest[k - 1];
        }
      }
      forall k, j | 0 <= k < |r| && 0 <= j < |r[k]| ensures !IsSpace(r[k][j]) {
        if k == 0 {
          assert r[k][j] == s[j];
        } else {
          assert r[k] == rest[k - 1];
        }
      }
    }
  }

  /** A word as operator>> reads one: non-empty, without whitespace. */
  predicate IsWord(w: string) {
    w != [] && forall k :: 0 <= k < |w| ==> !IsSpace(w[k])
  }

  /** A word followed by whitespace (or by nothing) ends where the word
      ends. */
  lemma {:induction false} WordEndOfWord(w: string, t: string)
    requires forall k :: 0 <= k < |w| ==> !IsSpace(w[k])
    requires t == [] || IsSpace(t[0])
    ensures WordEnd(w + t) == |w|
    decreases |w|
  {
    if w == [] {
      assert w + t == t;
    } else {
      assert (w + t)[1..] == w[1..] + t;
      WordEndOfWord(w[1..], t);
    }
  }

  /** Words written with single blanks between them read back as those
      words. */
  lemma {:induction false} TokensOfJoin(ws: seq<string>)
    requires forall i :: 0 <= i < |ws| ==> IsWord(ws[i])
    ensures Tokens(Join(ws, ' ')) == ws
    decreases |ws|
  {
    if |ws| == 1 {
      assert ws[0] + [] == ws[0];
      TokensOfWordThen(ws[0], []);
    } else if |ws| > 1 {
      var j := Join(ws[1..], ' ');
      AppendAssoc(ws[0], [' '], j);
      TokensOfWordThen(ws[0], [' '] + j);
      assert ([' '] + j)[1..] == j;
      TokensOfJoin(ws[1..]);
      assert ws == [ws[0]] + ws[1..];
    }
  }

  /** A word followed by whitespace (or by nothing) is read first. */
  lemma TokensOfWordThen(w: string, t: string)
    requires IsWord(w)
    requires t == [] || IsSpace(t[0])
    ensures Tokens(w + t) == [w] + Tokens(t)
  {
    WordEndOfWord(w, t);
    assert (w + t)[0] == w[0];
    assert (w + t)[..|w|] == w;
    assert (w + t)[|w|..] == t;
  }

  /** A character that is neither the delimiter nor in any of the strings
      is not in their join. */
  lemma {:induction false} JoinAvoids(xs: seq<string>, d: char, c: char)
    requires c != d
    requires forall i :: 0 <= i < |xs| ==> c !in xs[i]
    ensures c !in Join(xs, d)
    decreases |xs|
  {
    if |xs| > 1 {
      JoinAvoids(xs[1..], d, c);
      assert Join(xs, d) == xs[0] + [d] + Join(xs[1..], d);
    }
  }

  /** The strings of ws written one after another (string +=). */
  function Concat(ws: seq<string>): string
    decreases |ws|
  {
    if ws == [] then "" else ws[0] + Concat(ws[1..])
  }

  /** Words glued together keep no whitespace at all. */
  lemma {:induction false} ConcatOfTokensHasNoSpace(ws: seq<string>)
    requires forall k, j :: 0 <= k < |ws| && 0 <= j < |ws[k]| ==> !IsSpace(ws[k][j])
    ensures forall j :: 0 <= j < |Concat(ws)| ==> !IsSpace(Concat(ws)[j])
    decreases |ws|
  {
    if ws != [] {
      ConcatOfTokensHasNoSpace(ws[1..]);
      var c := Concat(ws);
      assert c == ws[0] + Concat(ws[1..]);
      forall j | 0 <= j < |c| ensures !IsSpace(c[j]) {
        if j < |ws[0]| {
          assert c[j] == ws[0][j];
        } else {
          assert c[j] == Concat(ws[1..])[j - |ws[0]|];
        }
      }
    }
  }

  /** State of an input stream: the characters not yet consumed and the
      eofbit and failbit flags. */
  datatype IStream = IStream(rest: string, eof: bool, fail: bool) {
    /** Holds of every state reached from Open: eofbit is only set once the
        text is exhausted. */
    predicate Valid() {
      eof ==> rest == []
    }

    /** stream.good(): the sentry lets an extraction proceed. */
    predicate Good() {
      !eof && !fail
    }

    /** The fields `while (getline(stream, field, d))` would still read. */
    function PendingFields(d: char): seq<string> {
      if fail then [] else Fields(rest, d)
    }

    /** The words `while (stream >> word)` would still read. */
    function PendingWords(): seq<string> {
      if fail then [] else Tokens(rest)
    }
  }

  /** A stream freshly opened on the text s. */
  function Open(s: string): IStream {
    IStream(s, false, false)
  }

  /** std::getline(stream, value, d), where value is the target string's
      content before the call; the result is the new stream state and the
      new content of the target.  The call succeeds exactly when the
      returned stream has no failbit. */
  function Getline(st: IStream, d: char, value: string): (r: (IStream, string))
    ensures st.Valid() ==> r.0.Valid()
    ensures st.Valid() ==> (r.0.fail <==> st.PendingFields(d) == [])
    ensures st.Valid() && st.PendingFields(d) != [] ==>
              r.1 == st.PendingFields(d)[0] && r.0.PendingFields(d) == st.PendingFields(d)[1..]
    ensures st.PendingFields(d) == [] ==> r.0.PendingFields(d) == []
  {
    if !st.Good() then (st.(fail := true), value)
    else if st.rest == [] then (IStream([], true, true), "")
    else
      var i := IndexOf(st.rest, d);
      if i == |st.rest| then (IStream([], true, false), st.rest)
      else (IStream(st.rest[i + 1..], false, false), st.rest[..i])
  }

  /** stream >> value for a std::string value: skips whitespace, then reads
      one word; on failure value is left as it was. */
  function Extract(st: IStream, value: string): (r: (IStream, string))
    ensures st.Valid() ==> r.0.Valid()
    ensures st.Valid() ==> (r.0.fail <==> st.PendingWords() == [])
    ensures st.Valid() && st.PendingWords() != [] ==>
              r.1 == st.PendingWords()[0] && r.0.PendingWords() == st.PendingWords()[1..]
    ensures st.PendingWords() == [] ==> r.1 == value && r.0.PendingWords() == []
  {
    if !st.Good() then (st.(fail := true), value)
    else
      TokensSkipSpace(st.rest);
      var t := SkipSpace(st.rest);
      if t == [] then (IStream([], true, true), value)
      else
        var e := WordEnd(t);
        (IStream(t[e..], e == |t|, false), t[..e])
  }

  /** The stream has read the first count of the given fields, or all of
      them once count exceeds their number. */
  predicate Consumed(st: IStream, d: char, fields: seq<string>, count: nat) {
    st.Valid() && st.PendingFields(d) == (if count <= |fields| then fields[count..] else [])
  }

  /** One std::getline(stream, value, d) statement, on a stream that has
      read count of the fields: it reads the next field, and fails once
      none is left. */
  method GetlineStep(st: IStream, d: char, value: string, ghost fields: seq<string>, ghost count: nat)
    returns (next: IStream, field: string)
    requires Consumed(st, d, fields, count)
    ensures Consumed(next, d, fields, count + 1)
    ensures next.fail <==> count >= |fields|
    ensures count < |fields| ==> field == fields[count]
  {
    next, field := Getline(st, d, value).0, Getline(st, d, value).1;
  }

  /** The stream has read the first count of the given words, or all of
      them once count exceeds their number. */
  predicate WordsConsumed(st: IStream, words: seq<string>, count: nat) {
    st.Valid() && st.PendingWords() == (if count <= |words| then words[count..] else [])
  }

  /** One `stream >> value` statement, on a stream that has read count of
      the words: it reads the next word, and fails once none is left. */
  method ExtractStep(st: IStream, value: string, ghost words: seq<string>, ghost count: nat)
    returns (next: IStream, word: string)
    requires WordsConsumed(st, words, count)
    ensures WordsConsumed(next, words, count + 1)
    ensures next.fail <==> count >= |words|
    ensures count < |words| ==> word == words[count]
    ensures count >= |words| ==> word == value
  {
    next, word := Extract(st, value).0, Extract(st, value).1;
  }

  /** `while (getline(stream, field, d)) fields.push_back(field);` over a
      stream opened on s. */
  method ReadFields(s: string, d: char) returns (fields: seq<string>)
    ensures fields == Fields(s, d)
  {
    ghost var all := Fields(s, d);
    var st := Open(s);
    var value := "";
    fields := [];
    st, value := GetlineStep(st, d, value, all, 0);
    while !st.fail
      invariant |fields| <= |all|
      invariant Consumed(st, d, all, |fields| + 1)
      invariant st.fail <==> |fields| >= |all|
      invariant !st.fail ==> value == all[|fields|]
      invariant fields == all[..|fields|]
      decreases |all| - |fields|
    {
      assert all[..|fields| + 1] == all[..|fields|] + [all[|fields|]];
      fields := fields + [value];
      st, value := GetlineStep(st, d, value, all, |fields|);
    }
  }
}
