/**
 * The CSV dialect of the settings dialog: `saveData` parses pasted text into sentence
 * records (app.js:124-174) and the settings button renders the deck back to text
 * (app.js:318-326).
 */
module Csv {
  import opened Text
  import opened Wrappers

  /** One flashcard: a Japanese prompt and the English sentence to recall. */
  datatype Record = Record(id: int, japanese: string, english: string)

  /** After the first `n` characters of `s` a scan is inside a quoted section: an
      odd number of quotes precede position `n`. */
  predicate InQuote(s: string, n: nat)
    requires n <= |s|
  {
    n > 0 && (InQuote(s, n - 1) != (s[n - 1] == '"'))
  }

  /** `s` holds an even number of quotes. */
  predicate Balanced(s: string)
  {
    !InQuote(s, |s|)
  }

  /** The quote state depends only on the prefix read. */
  lemma {:induction false} InQuotePrefix(s: string, t: string, n: nat)
    requires n <= |s| && n <= |t| && s[..n] == t[..n]
    ensures InQuote(s, n) == InQuote(t, n)
  {
    if n > 0 {
      assert s[n - 1] == s[..n][n - 1] == t[..n][n - 1] == t[n - 1];
      assert s[..n - 1] == s[..n][..n - 1] == t[..n][..n - 1] == t[..n - 1];
      InQuotePrefix(s, t, n - 1);
    }
  }

  /** Reading `b` after `a` flips the quote state of `b` when `a` is unbalanced. */
  lemma {:induction false} InQuoteAppend(a: string, b: string, k: nat)
    requires k <= |b|
    ensures InQuote(a + b, |a| + k) == (InQuote(a, |a|) != InQuote(b, k))
  {
    if k == 0 {
      assert (a + b)[..|a|] == a == a[..|a|];
      InQuotePrefix(a + b, a, |a|);
    } else {
      InQuoteAppend(a, b, k - 1);
      assert (a + b)[|a| + k - 1] == b[k - 1];
    }
  }

  /** A string without quotes never enters a quoted section. */
  lemma {:induction false} InQuoteNone(s: string, n: nat)
    requires n <= |s| && '"' !in s
    ensures !InQuote(s, n)
  {
    if n > 0 {
      assert s[n - 1] in s;
      InQuoteNone(s, n - 1);
    }
  }

  /** Position `i` of `line` is a comma that ends a field: an even number of quotes
      precede it, so the scan is outside a quoted section there. */
  predicate IsSplitComma(line: string, i: int)
    requires 0 <= i < |line|
  {
    line[i] == ',' && !InQuote(line, i)
  }

  /** The raw fields of the first `n` characters of a line, quotes kept: the pieces
      between split commas. */
  function Fields(line: string, n: nat): (fields: seq<string>)
    requires n <= |line|
    ensures |fields| >= 1
  {
    if n == 0 then [[]] else Extend(Fields(line, n - 1), line[n - 1], IsSplitComma(line, n - 1))
  }

  /** The raw fields of a whole line. */
  function RawFields(line: string): seq<string>
  {
    Fields(line, |line|)
  }

  /** Raw fields depend only on the prefix scanned. */
  lemma {:induction false} FieldsPrefix(s: string, t: string, n: nat)
    requires n <= |s| && n <= |t| && s[..n] == t[..n]
    ensures Fields(s, n) == Fields(t, n)
  {
    if n > 0 {
      assert s[n - 1] == s[..n][n - 1] == t[..n][n - 1] == t[n - 1];
      assert s[..n - 1] == s[..n][..n - 1] == t[..n][..n - 1] == t[..n - 1];
      FieldsPrefix(s, t, n - 1);
      InQuotePrefix(s, t, n - 1);
    }
  }

  /** The character scan of `saveData` (app.js:128-144): an `inQuote` flag toggled by
      every quote, fields cut at commas seen while the flag is off. */
  method ScanLine(line: string) returns (parts: seq<string>)
    ensures parts == RawFields(line)
  {
    parts := [];
    var current: string := [];
    var inQuote := false;
    for i := 0 to |line|
      invariant parts + [current] == Fields(line, i)
      invariant inQuote == InQuote(line, i)
    {
      var ch := line[i];
      FieldsStep(line, i, parts, current);
      assert IsSplitComma(line, i) <==> ch == ',' && !inQuote;
      if ch == '"' {
        inQuote := !inQuote;
        current := current + [ch];
      } else if ch == ',' && !inQuote {
        parts := parts + [current];
        current := [];
      } else {
        current := current + [ch];
      }
    }
    parts := parts + [current];
  }

  /** One character more of the scan, with the fields split into the finished ones
      and the one being read. */
  lemma FieldsStep(line: string, i: nat, parts: seq<string>, current: string)
    requires i < |line| && parts + [current] == Fields(line, i)
    ensures IsSplitComma(line, i) ==> Fields(line, i + 1) == parts + [current] + [[]]
    ensures !IsSplitComma(line, i) ==> Fields(line, i + 1) == parts + [current + [line[i]]]
  {
    assert (parts + [current])[..|parts|] == parts;
  }

  /** The raw fields joined back with commas give the scanned prefix: the scan loses
      nothing, and every quote stays in its field. */
  lemma {:induction false} JoinFields(line: string, n: nat)
    requires n <= |line|
    ensures Join(Fields(line, n), ',') == line[..n]
  {
    if n > 0 {
      JoinFields(line, n - 1);
      JoinExtend(Fields(line, n - 1), line[n - 1], IsSplitComma(line, n - 1), ',');
      assert line[..n] == line[..n - 1] + [line[n - 1]];
    }
  }

  /** A line is its raw fields joined with commas. */
  lemma JoinRawFields(line: string)
    ensures Join(RawFields(line), ',') == line
  {
    JoinFields(line, |line|);
    assert line[..|line|] == line;
  }

  /** Some position before `n` is a split comma. */
  predicate HasSplitComma(line: string, n: nat)
    requires n <= |line|
  {
    n > 0 && (HasSplitComma(line, n - 1) || IsSplitComma(line, n - 1))
  }

  /** `HasSplitComma` means what it says. */
  lemma {:induction false} HasSplitCommaExists(line: string, n: nat)
    requires n <= |line|
    ensures HasSplitComma(line, n) <==> exists i :: 0 <= i < n && IsSplitComma(line, i)
  {
    if n > 0 {
      HasSplitCommaExists(line, n - 1);
      if IsSplitComma(line, n - 1) {
        assert 0 <= n - 1 < n && IsSplitComma(line, n - 1);
      } else if exists i :: 0 <= i < n && IsSplitComma(line, i) {
        var i :| 0 <= i < n && IsSplitComma(line, i);
        assert 0 <= i < n - 1 && IsSplitComma(line, i);
      }
    }
  }

  /** A prefix has two or more raw fields exactly when it holds a split comma. */
  lemma {:induction false} FieldsSplit(line: string, n: nat)
    requires n <= |line|
    ensures |Fields(line, n)| >= 2 <==> HasSplitComma(line, n)
  {
    if n > 0 {
      FieldsSplit(line, n - 1);
    }
  }

  /** On a line without quotes the scan is a plain `split(',')`. */
  lemma {:induction false} FieldsWithoutQuotes(line: string, n: nat)
    requires n <= |line| && '"' !in line
    ensures Fields(line, n) == Split(line[..n], ',')
  {
    if n > 0 {
      FieldsWithoutQuotes(line, n - 1);
      InQuoteNone(line, n - 1);
      assert line[..n][..n - 1] == line[..n - 1];
    }
  }

  /** Whole-line form of `FieldsWithoutQuotes`. */
  lemma RawFieldsWithoutQuotes(line: string)
    requires '"' !in line
    ensures RawFields(line) == Split(line, ',')
  {
    FieldsWithoutQuotes(line, |line|);
    assert line[..|line|] == line;
  }

  /** A comma after a balanced prefix separates two independent scans. */
  lemma {:induction false} FieldsAppend(a: string, b: string, k: nat)
    requires Balanced(a) && k <= |b|
    ensures Fields(a + [','] + b, |a| + 1 + k) == RawFields(a) + Fields(b, k)
  {
    if k == 0 {
      FieldsAtComma(a, b);
    } else {
      FieldsAppend(a, b, k - 1);
      FieldsAppendStep(a, b, k);
    }
  }

  /** One character of `b` more, given the fields up to the one before. */
  lemma FieldsAppendStep(a: string, b: string, k: nat)
    requires Balanced(a) && 0 < k <= |b|
    requires Fields(a + [','] + b, |a| + k) == RawFields(a) + Fields(b, k - 1)
    ensures Fields(a + [','] + b, |a| + 1 + k) == RawFields(a) + Fields(b, k)
  {
    var ab := a + [','] + b;
    var n := |a| + k;
    var c := b[k - 1];
    var cut := IsSplitComma(b, k - 1);
    assert ab[n] == c;
    assert IsSplitComma(ab, n) == cut by {
      InQuoteAfterComma(a, b, k - 1);
    }
    assert Fields(ab, n + 1) == Extend(RawFields(a) + Fields(b, k - 1), c, cut);
    ExtendAfter(RawFields(a), Fields(b, k - 1), c, cut);
  }

  lemma FieldsAtComma(a: string, b: string)
    requires Balanced(a)
    ensures Fields(a + [','] + b, |a| + 1) == RawFields(a) + [[]]
  {
    var ab := a + [','] + b;
    assert ab[..|a|] == a == a[..|a|];
    assert Fields(ab, |a|) == RawFields(a) by {
      FieldsPrefix(ab, a, |a|);
    }
    assert IsSplitComma(ab, |a|) by {
      InQuotePrefix(ab, a, |a|);
    }
  }

  /** Past a comma that follows a balanced prefix, the quote state is that of the
      text after the comma alone. */
  lemma InQuoteAfterComma(a: string, b: string, k: nat)
    requires Balanced(a) && k <= |b|
    ensures InQuote(a + [','] + b, |a| + 1 + k) == InQuote(b, k)
  {
    var a' := a + [','];
    assert |a'| + k == |a| + 1 + k;
    InQuoteAppend(a', b, k);
    InQuoteAppend(a, [','], 1);
  }

  /** Whole-line form of `FieldsAppend`. */
  lemma RawFieldsAppend(a: string, b: string)
    requires Balanced(a)
    ensures RawFields(a + [','] + b) == RawFields(a) + RawFields(b)
  {
    FieldsAppend(a, b, |b|);
  }

  /** A prefix without split commas is a single raw field. */
  lemma {:induction false} FieldsSingle(s: string, n: nat)
    requires n <= |s|
    requires forall i :: 0 <= i < |s| ==> !IsSplitComma(s, i)
    ensures Fields(s, n) == [s[..n]]
  {
    if n > 0 {
      FieldsSingle(s, n - 1);
      assert !IsSplitComma(s, n - 1);
      assert s[..n - 1] + [s[n - 1]] == s[..n];
    }
  }

  /** `s.replace(/""/g, '"')`: each pair of quotes, matched left to right, becomes one. */
  function CollapseQuotes(s: string): (r: string)
    ensures |r| <= |s|
  {
    if |s| >= 2 && s[0] == '"' && s[1] == '"' then ['"'] + CollapseQuotes(s[2..])
    else if s == [] then []
    else [s[0]] + CollapseQuotes(s[1..])
  }

  /** `text.replace(/"/g, '""')`: every quote doubled, so the result is balanced. */
  function DoubleQuotes(s: string): (r: string)
    ensures |r| >= |s| && Balanced(r)
  {
    if s == [] then []
    else
      var piece := if s[0] == '"' then ['"', '"'] else [s[0]];
      var rest := DoubleQuotes(s[1..]);
      InQuoteAppend(piece, rest, |rest|);
      piece + rest
  }

  /** Doubling brings in no character the text does not hold. */
  lemma {:induction false} DoubleQuotesChars(s: string, ch: char)
    requires ch in DoubleQuotes(s)
    ensures ch in s
  {
    var piece := if s[0] == '"' then ['"', '"'] else [s[0]];
    var rest := DoubleQuotes(s[1..]);
    assert DoubleQuotes(s) == piece + rest;
    if ch in rest {
      DoubleQuotesChars(s[1..], ch);
      assert s == [s[0]] + s[1..];
    }
  }

  /** Collapsing undoes doubling. */
  lemma {:induction false} CollapseDoubleQuotes(s: string)
    ensures CollapseQuotes(DoubleQuotes(s)) == s
  {
    if s != [] {
      CollapseDoubleQuotes(s[1..]);
      var d := DoubleQuotes(s[1..]);
      if s[0] == '"' {
        assert (['"', '"'] + d)[2..] == d;
      } else {
        assert ([s[0]] + d)[1..] == d;
      }
      assert [s[0]] + s[1..] == s;
    }
  }

  /** In a doubled string every character other than a quote is outside the quoted
      sections. */
  lemma {:induction false} DoubledOutside(s: string, i: nat)
    requires i < |DoubleQuotes(s)| && DoubleQuotes(s)[i] != '"'
    ensures !InQuote(DoubleQuotes(s), i)
  {
    var d := DoubleQuotes(s[1..]);
    var r := DoubleQuotes(s);
    if s[0] == '"' {
      assert r == ['"', '"'] + d;
      DoubledOutside(s[1..], i - 2);
      InQuoteAppend(['"', '"'], d, i - 2);
    } else if i > 0 {
      assert r == [s[0]] + d;
      DoubledOutside(s[1..], i - 1);
      InQuoteAppend([s[0]], d, i - 1);
    }
  }

  /** The field cleaning of `saveData` (app.js:146-152): trim, then a field that starts
      and ends with a quote loses that outer pair and has `""` collapsed to `"`.
      A lone `"` starts and ends with a quote and becomes empty. */
  function Clean(part: string): string
  {
    var p := Trim(part);
    if |p| >= 1 && p[0] == '"' && p[|p| - 1] == '"' then
      if |p| == 1 then [] else CollapseQuotes(p[1..|p| - 1])
    else p
  }

  /** `parts.map(Clean)`. */
  function CleanAll(parts: seq<string>): (r: seq<string>)
    ensures |r| == |parts|
  {
    seq(|parts|, k requires 0 <= k < |parts| => Clean(parts[k]))
  }

  /** The record built from the line at position `index` of the trimmed input
      (app.js:154-161), or `None` when the line has fewer than two fields. */
  function ParseLine(line: string, index: nat): (r: Option<Record>)
    ensures r.Some? ==> r.value.id == index + 1
  {
    var parts := CleanAll(RawFields(line));
    if |parts| >= 2 then Some(Record(index + 1, parts[0], Join(parts[1..], ',')))
    else None
  }

  /** A line is accepted exactly when it has a comma outside quotes. */
  lemma ParseLineAccepts(line: string, index: nat)
    ensures ParseLine(line, index).Some? <==> exists i :: 0 <= i < |line| && IsSplitComma(line, i)
  {
    FieldsSplit(line, |line|);
    HasSplitCommaExists(line, |line|);
  }

  /** The outcome of every line, in order: the `map` of app.js:126-161. */
  function ParsedLines(lines: seq<string>): (opts: seq<Option<Record>>)
    ensures |opts| == |lines|
    ensures Numbered(opts)
  {
    seq(|lines|, k requires 0 <= k < |lines| => ParseLine(lines[k], k))
  }

  /** Outcomes whose records carry their position plus one as id. */
  predicate Numbered(opts: seq<Option<Record>>)
  {
    forall k :: 0 <= k < |opts| && opts[k].Some? ==> opts[k].value.id == k + 1
  }

  /** The records among the outcomes, in order: the `filter` of app.js:162. */
  function Accepted(opts: seq<Option<Record>>): (rs: seq<Record>)
    ensures |rs| <= |opts|
  {
    if opts == [] then []
    else
      var rs := Accepted(opts[..|opts| - 1]);
      match opts[|opts| - 1]
      case Some(r) => rs + [r]
      case None => rs
  }

  /** Every record of `rs` is the outcome at its id minus one. */
  predicate FromOutcomes(opts: seq<Option<Record>>, rs: seq<Record>)
  {
    forall j :: 0 <= j < |rs| ==> 1 <= rs[j].id <= |opts| && opts[rs[j].id - 1] == Some(rs[j])
  }

  /** The ids of `rs` strictly increase. */
  predicate IdsIncrease(rs: seq<Record>)
  {
    forall j, k :: 0 <= j < k < |rs| ==> rs[j].id < rs[k].id
  }

  /** Records drawn from a prefix of the outcomes are drawn from the outcomes. */
  lemma FromOutcomesPrefix(opts: seq<Option<Record>>, n: nat, rs: seq<Record>)
    requires n <= |opts| && FromOutcomes(opts[..n], rs)
    ensures FromOutcomes(opts, rs)
  {
    forall j | 0 <= j < |rs|
      ensures 1 <= rs[j].id <= |opts| && opts[rs[j].id - 1] == Some(rs[j])
    {
      assert opts[..n][rs[j].id - 1] == opts[rs[j].id - 1];
    }
  }

  /** Every accepted record comes from the outcome at its id minus one. */
  lemma {:induction false} AcceptedSound(opts: seq<Option<Record>>)
    requires Numbered(opts)
    ensures FromOutcomes(opts, Accepted(opts))
  {
    if opts != [] {
      var n := |opts|;
      var init := opts[..n - 1];
      NumberedPrefix(opts, n - 1);
      AcceptedSound(init);
      var rs := Accepted(init);
      FromOutcomesPrefix(opts, n - 1, rs);
      if opts[n - 1].Some? {
        var r := opts[n - 1].value;
        assert r.id == n;
        assert Accepted(opts) == rs + [r];
      }
    }
  }

  /** A prefix of numbered outcomes is numbered. */
  lemma NumberedPrefix(opts: seq<Option<Record>>, n: nat)
    requires n <= |opts| && Numbered(opts)
    ensures Numbered(opts[..n])
  {
    assert forall k :: 0 <= k < n ==> opts[..n][k] == opts[k];
  }

  /** Since ids are positions plus one, accepted records keep the order of their
      lines: ids strictly increase (with gaps where lines were rejected). */
  lemma {:induction false} AcceptedIncrease(opts: seq<Option<Record>>)
    requires Numbered(opts)
    ensures IdsIncrease(Accepted(opts))
  {
    if opts != [] {
      var n := |opts|;
      var init := opts[..n - 1];
      NumberedPrefix(opts, n - 1);
      AcceptedIncrease(init);
      AcceptedSound(init);
      var rs := Accepted(init);
      if opts[n - 1].Some? {
        var r := opts[n - 1].value;
        assert Accepted(opts) == rs + [r];
        assert forall j :: 0 <= j < |rs| ==> rs[j].id <= n - 1;
      }
    }
  }

  /** Every record among the outcomes is kept. */
  lemma {:induction false} AcceptedComplete(opts: seq<Option<Record>>, k: nat)
    requires k < |opts| && opts[k].Some?
    ensures exists j :: 0 <= j < |Accepted(opts)| && Accepted(opts)[j] == opts[k].value
  {
    var n := |opts|;
    var init := opts[..n - 1];
    var rs := Accepted(init);
    if k == n - 1 {
      assert Accepted(opts) == rs + [opts[k].value];
      assert Accepted(opts)[|rs|] == opts[k].value;
    } else {
      assert init[k] == opts[k];
      AcceptedComplete(init, k);
      var j :| 0 <= j < |rs| && rs[j] == opts[k].value;
      assert Accepted(opts)[j] == rs[j];
    }
  }

  /** When every outcome is a record, nothing is dropped. */
  lemma {:induction false} AcceptedAll(opts: seq<Option<Record>>)
    requires forall k :: 0 <= k < |opts| ==> opts[k].Some?
    ensures |Accepted(opts)| == |opts|
    ensures forall k :: 0 <= k < |opts| ==> Accepted(opts)[k] == opts[k].value
  {
    if opts != [] {
      var n := |opts|;
      var init := opts[..n - 1];
      assert forall k :: 0 <= k < n - 1 ==> init[k] == opts[k];
      AcceptedAll(init);
      assert Accepted(opts) == Accepted(init) + [opts[n - 1].value];
    }
  }

  /** The records of the numbered lines, in order, rejected lines left out. */
  function ParseLines(lines: seq<string>): seq<Record>
  {
    Accepted(ParsedLines(lines))
  }

  /** One line more: its record, if any, follows the records of the lines before. */
  lemma ParseLinesStep(lines: seq<string>, i: nat)
    requires i < |lines|
    ensures ParseLines(lines[..i + 1]) ==
      match ParseLine(lines[i], i)
      case Some(r) => ParseLines(lines[..i]) + [r]
      case None => ParseLines(lines[..i])
  {
    var opts := ParsedLines(lines[..i + 1]);
    assert opts[..i] == ParsedLines(lines[..i]);
    assert opts[i] == ParseLine(lines[i], i);
  }

  /** The lines `saveData` reads: the trimmed text split at newlines (app.js:125). */
  function Lines(text: string): seq<string>
  {
    Split(Trim(text), '\n')
  }

  /** All records the text holds. */
  function ParseText(text: string): seq<Record>
  {
    ParseLines(Lines(text))
  }

  /** `toCSV` (app.js:319-324): a value holding a comma, a quote or a newline is
      quoted with its quotes doubled; any other value is written as it is. */
  predicate NeedsQuotes(text: string)
  {
    ',' in text || '"' in text || '\n' in text
  }

  function ToCsv(text: string): string
  {
    if NeedsQuotes(text) then ['"'] + DoubleQuotes(text) + ['"'] else text
  }

  /** One exported line (app.js:325). */
  function CsvLine(r: Record): string
  {
    ToCsv(r.japanese) + [','] + ToCsv(r.english)
  }

  /** The exported lines, one per record. */
  function CsvLines(rs: seq<Record>): (lines: seq<string>)
    ensures |lines| == |rs|
  {
    seq(|rs|, k requires 0 <= k < |rs| => CsvLine(rs[k]))
  }

  /** The text shown in the settings dialog (app.js:318-326). */
  function Export(rs: seq<Record>): string
  {
    Join(CsvLines(rs), '\n')
  }

  /** A value survives export and import: it has no newline (lines are split at
      newlines before any quote is looked at) and, unless it gets quoted, no
      whitespace at either end (fields are trimmed). */
  predicate Exportable(text: string)
  {
    '\n' !in text &&
    (NeedsQuotes(text) || text == [] || (!IsWs(text[0]) && !IsWs(text[|text| - 1])))
  }

  /** An encoded value is balanced and has no comma outside quotes. */
  lemma ToCsvFieldShape(x: string)
    ensures Balanced(ToCsv(x))
    ensures forall i :: 0 <= i < |ToCsv(x)| ==> !IsSplitComma(ToCsv(x), i)
  {
    if NeedsQuotes(x) {
      var d := DoubleQuotes(x);
      var q := ['"'] + d + ['"'];
      InQuoteAppend(['"'] + d, ['"'], 1);
      InQuoteAppend(['"'], d, |d|);
      forall i | 0 <= i < |q| && q[i] == ','
        ensures InQuote(q, i)
      {
        QuotedCommaInside(x, i);
      }
    } else {
      InQuoteNone(x, |x|);
      forall i | 0 <= i < |x|
        ensures !IsSplitComma(x, i)
      {
        assert x[i] in x;
      }
    }
  }

  /** A comma of a quoted value lies inside the quotes. */
  lemma QuotedCommaInside(x: string, i: nat)
    requires i < |['"'] + DoubleQuotes(x) + ['"']| && (['"'] + DoubleQuotes(x) + ['"'])[i] == ','
    ensures InQuote(['"'] + DoubleQuotes(x) + ['"'], i)
  {
    var d := DoubleQuotes(x);
    var q := ['"'] + d + ['"'];
    assert 1 <= i <= |d|;
    assert d[i - 1] == ',';
    DoubledOutside(x, i - 1);
    assert q[..i] == (['"'] + d)[..i];
    InQuotePrefix(q, ['"'] + d, i);
    InQuoteAppend(['"'], d, i - 1);
  }

  /** Cleaning an encoded value gives the value back. */
  lemma CleanToCsv(x: string)
    requires Exportable(x)
    ensures Clean(ToCsv(x)) == x
  {
    if NeedsQuotes(x) {
      CleanQuoted(x);
    } else {
      TrimUnchanged(x);
      CleanUnquoted(x);
    }
  }

  /** Cleaning a quoted value strips the quotes and undoes the doubling. */
  lemma CleanQuoted(x: string)
    ensures Clean(['"'] + DoubleQuotes(x) + ['"']) == x
  {
    CleanWithinQuotes(DoubleQuotes(x));
    CollapseDoubleQuotes(x);
  }

  /** Cleaning a value in quotes collapses the doubled quotes between them. */
  lemma CleanWithinQuotes(d: string)
    ensures Clean(['"'] + d + ['"']) == CollapseQuotes(d)
  {
    var q := ['"'] + d + ['"'];
    assert Trim(q) == q by {
      TrimUnchanged(q);
    }
    assert q[1..|q| - 1] == d;
  }

  /** Cleaning leaves a trimmed value without quotes alone. */
  lemma CleanUnquoted(x: string)
    requires Trim(x) == x && '"' !in x
    ensures Clean(x) == x
  {
    if |x| >= 1 {
      assert x[0] in x;
    }
  }

  /** An encoded value scans as a single raw field. */
  lemma ToCsvSingleField(x: string)
    ensures RawFields(ToCsv(x)) == [ToCsv(x)]
  {
    var a := ToCsv(x);
    ToCsvFieldShape(x);
    FieldsSingle(a, |a|);
    assert a[..|a|] == a;
  }

  /** An exported line scans as exactly the two encoded values. */
  lemma CsvLineFields(r: Record)
    ensures RawFields(CsvLine(r)) == [ToCsv(r.japanese), ToCsv(r.english)]
  {
    ToCsvFieldShape(r.japanese);
    RawFieldsAppend(ToCsv(r.japanese), ToCsv(r.english));
    ToCsvSingleField(r.japanese);
    ToCsvSingleField(r.english);
  }

  /** A line whose cleaned fields are exactly two values is accepted with them. */
  lemma ParseTwoFields(line: string, index: nat, x: string, y: string)
    requires CleanAll(RawFields(line)) == [x, y]
    ensures ParseLine(line, index) == Some(Record(index + 1, x, y))
  {
    assert [x, y][1..] == [y];
  }

  /** An exported line parses back into the record's two values. */
  lemma ParseCsvLine(r: Record, index: nat)
    requires Exportable(r.japanese) && Exportable(r.english)
    ensures ParseLine(CsvLine(r), index) == Some(Record(index + 1, r.japanese, r.english))
  {
    var a := ToCsv(r.japanese);
    var b := ToCsv(r.english);
    assert CleanAll(RawFields(CsvLine(r))) == [r.japanese, r.english] by {
      CsvLineFields(r);
      CleanToCsv(r.japanese);
      CleanToCsv(r.english);
      assert CleanAll([a, b]) == [Clean(a), Clean(b)];
    }
    ParseTwoFields(CsvLine(r), index, r.japanese, r.english);
  }

  /** An encoded exportable value is empty or starts and ends with something other
      than whitespace. */
  lemma ToCsvEnds(x: string)
    requires Exportable(x)
    ensures var a := ToCsv(x);
      a == [] || (!IsWs(a[0]) && !IsWs(a[|a| - 1]))
  {
  }

  /** An exported line never starts or ends with whitespace. */
  lemma CsvLineEnds(r: Record)
    requires Exportable(r.japanese) && Exportable(r.english)
    ensures !IsWs(CsvLine(r)[0]) && !IsWs(CsvLine(r)[|CsvLine(r)| - 1])
  {
    var a := ToCsv(r.japanese);
    var b := ToCsv(r.english);
    var line := a + [','] + b;
    assert !IsWs(line[0]) by {
      ToCsvEnds(r.japanese);
      assert line[0] == if a == [] then ',' else a[0];
    }
    assert !IsWs(line[|line| - 1]) by {
      ToCsvEnds(r.english);
      assert line[|line| - 1] == if b == [] then ',' else b[|b| - 1];
    }
  }

  /** Encoding brings in no newline. */
  lemma ToCsvNoNewline(x: string)
    requires '\n' !in x
    ensures '\n' !in ToCsv(x)
  {
    if '\n' in DoubleQuotes(x) {
      DoubleQuotesChars(x, '\n');
    }
  }

  /** An exported line holds no newline. */
  lemma CsvLineNoNewline(r: Record)
    requires Exportable(r.japanese) && Exportable(r.english)
    ensures '\n' !in CsvLine(r)
  {
    ToCsvNoNewline(r.japanese);
    ToCsvNoNewline(r.english);
  }

  /** An exported line holds at least the comma. */
  lemma CsvLineNonempty(r: Record)
    ensures |CsvLine(r)| > |ToCsv(r.japanese)|
  {
  }

  /** The exported text of a nonempty deck is its own trim. */
  lemma ExportTrimmed(rs: seq<Record>)
    requires |rs| >= 1
    requires forall k :: 0 <= k < |rs| ==> Exportable(rs[k].japanese) && Exportable(rs[k].english)
    ensures Trim(Export(rs)) == Export(rs)
  {
    var lines := CsvLines(rs);
    var first := lines[0];
    var last := lines[|lines| - 1];
    assert first != [] && !IsWs(first[0]) by {
      CsvLineNonempty(rs[0]);
      CsvLineEnds(rs[0]);
    }
    assert last != [] && !IsWs(last[|last| - 1]) by {
      assert last == CsvLine(rs[|rs| - 1]);
      CsvLineNonempty(rs[|rs| - 1]);
      CsvLineEnds(rs[|rs| - 1]);
    }
    JoinTrimmed(lines, '\n');
  }

  /** The lines read back from an exported nonempty deck are the exported lines. */
  lemma ExportLines(rs: seq<Record>)
    requires |rs| >= 1
    requires forall k :: 0 <= k < |rs| ==> Exportable(rs[k].japanese) && Exportable(rs[k].english)
    ensures Lines(Export(rs)) == CsvLines(rs)
  {
    var lines := CsvLines(rs);
    ExportTrimmed(rs);
    forall p | p in lines
      ensures '\n' !in p
    {
      var k :| 0 <= k < |lines| && lines[k] == p;
      CsvLineNoNewline(rs[k]);
    }
    SplitJoin(lines, '\n');
  }

  /** Every exported line is accepted with its record's values and its position. */
  lemma ParsedCsvLines(rs: seq<Record>)
    requires forall k :: 0 <= k < |rs| ==> Exportable(rs[k].japanese) && Exportable(rs[k].english)
    ensures forall k :: 0 <= k < |rs| ==>
      ParsedLines(CsvLines(rs))[k] == Some(Record(k + 1, rs[k].japanese, rs[k].english))
  {
    forall k | 0 <= k < |rs|
      ensures ParsedLines(CsvLines(rs))[k] == Some(Record(k + 1, rs[k].japanese, rs[k].english))
    {
      ParseCsvLine(rs[k], k);
    }
  }

  /** Round trip: importing the exported text of a deck whose values are exportable
      gives back every (japanese, english) pair in order, numbered from 1. */
  lemma ExportParseRoundTrip(rs: seq<Record>)
    requires forall k :: 0 <= k < |rs| ==> Exportable(rs[k].japanese) && Exportable(rs[k].english)
    ensures |ParseText(Export(rs))| == |rs|
    ensures forall k :: 0 <= k < |rs| ==>
      ParseText(Export(rs))[k] == Record(k + 1, rs[k].japanese, rs[k].english)
  {
    if rs == [] {
      assert Lines([]) == [[]];
      assert RawFields([]) == [[]];
      assert ParsedLines([[]]) == [None];
    } else {
      ExportLines(rs);
      ParsedCsvLines(rs);
      AcceptedAll(ParsedLines(CsvLines(rs)));
    }
  }

  // A text holding a newline does not come back: the export quotes it, but the
  // import cuts the text into lines before it looks at quotes.

  lemma NewlineExport()
    ensures Export([Record(1, "a", "\n")]) == "a,\"\n\""
  {
    assert !NeedsQuotes("a");
    assert NeedsQuotes("\n");
    assert DoubleQuotes("\n") == "\n";
  }

  lemma NewlineLines()
    ensures Lines("a,\"\n\"") == ["a,\"", "\""]
  {
    var text := "a,\"\n\"";
    TrimUnchanged(text);
    assert text == Join(["a,\"", "\""], '\n');
    SplitJoin(["a,\"", "\""], '\n');
  }

  lemma NewlineFirstLine()
    ensures ParseLine("a,\"", 0) == Some(Record(1, "a", ""))
  {
    assert "a,\"" == "a" + [','] + "\"";
    assert Balanced("a");
    RawFieldsAppend("a", "\"");
    RawFieldsWithoutQuotes("a");
    assert Split("a", ',') == ["a"] by {
      assert Split("a", ',') == Extend([[]], 'a', false);
      assert [] + ['a'] == "a";
    }
    QuoteFields();
    assert Clean("a") == "a";
    assert Clean("\"") == "";
    ParseTwoFields("a,\"", 0, "a", "");
  }

  lemma NewlineSecondLine()
    ensures ParseLine("\"", 1) == None
  {
    QuoteFields();
  }

  /** A lone quote is one field. */
  lemma QuoteFields()
    ensures RawFields("\"") == ["\""]
  {
    var q := "\"";
    assert !IsSplitComma(q, 0);
    assert Fields(q, 1) == Extend([[]], '"', false);
    assert Extend([[]], '"', false) == [[] + ['"']];
    assert [] + ['"'] == q;
  }

  /** The two lines of that export: the first gives a record with an empty second
      text, the second has no comma and is dropped. */
  lemma NewlineParse()
    ensures ParseLines(["a,\"", "\""]) == [Record(1, "a", "")]
  {
    var lines := ["a,\"", "\""];
    NewlineFirstLine();
    NewlineSecondLine();
    ParseLinesStep(lines, 0);
    ParseLinesStep(lines, 1);
    assert lines[..0] == [] && lines[..2] == lines;
    assert ParseLines([]) == [];
  }

  /** Exporting a record whose English text is a single newline and saving the
      export gives back a record with an empty English text. */
  lemma NewlineLost()
    ensures ParseText(Export([Record(1, "a", "\n")])) == [Record(1, "a", "")]
  {
    NewlineExport();
    NewlineLines();
    NewlineParse();
  }

}
