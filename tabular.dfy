/**
 The tab-delimited reader that loadFrom(InputStream) hands its input to:
 the text is cut into lines, each line into fields at TAB, the first line
 names the columns, and every later line becomes a row whose fields are
 reached by column name.
 */
module Tabular {
  import opened Wrappers

  /** A data row: its (header name, field value) pairs in column order. */
  type Row = seq<(string, string)>

  /** The column names and the data rows of one tab-delimited text. */
  datatype Table = Table(headers: seq<string>, rows: seq<Row>)

  /** Glues the pieces back together with `sep` between neighbours. */
  function Join(parts: seq<string>, sep: char): string
    decreases |parts|
  {
    if |parts| == 0 then ""
    else if |parts| == 1 then parts[0]
    else parts[0] + [sep] + Join(parts[1..], sep)
  }

  /** Every line of `lines` followed by a newline. */
  function Unlines(lines: seq<string>): string
  {
    Join(lines + [""], '\n')
  }

  /** The pieces of `s` between occurrences of `sep`: none of them holds `sep`
      and joining them with `sep` gives `s` back. */
  function Split(s: string, sep: char): (parts: seq<string>)
    ensures |parts| >= 1
    ensures forall i :: 0 <= i < |parts| ==> sep !in parts[i]
    ensures Join(parts, sep) == s
    decreases |s|
  {
    if |s| == 0 then [""]
    else
      var rest := Split(s[1..], sep);
      if s[0] == sep then
        assert ([""] + rest)[1..] == rest;
        [""] + rest
      else
        var first := [s[0]] + rest[0];
        assert ([first] + rest[1..])[1..] == rest[1..];
        [first] + rest[1..]
  }

  /** The lines of `text`. A newline ends a line, so a final newline does not
      start an empty one; empty text has no lines. */
  function Lines(text: string): (lines: seq<string>)
    ensures forall i :: 0 <= i < |lines| ==> '\n' !in lines[i]
  {
    var parts := Split(text, '\n');
    if parts[|parts| - 1] == "" then parts[..|parts| - 1] else parts
  }

  /** Lines loses nothing but a final newline: writing the lines back out,
      each followed by a newline, gives the text, completed by a newline when
      it lacks a final one. */
  lemma LinesUnlinesText(text: string)
    ensures Unlines(Lines(text)) == if text == [] || text[|text| - 1] == '\n' then text else text + "\n"
  {
    var parts := Split(text, '\n');
    LinesOfSplit(text, parts);
    UnlinesOfParts(parts, text);
  }

  /** The same, stated over the pieces that Split gives. */
  lemma UnlinesOfParts(parts: seq<string>, text: string)
    requires |parts| >= 1 && Join(parts, '\n') == text
    requires forall i :: 0 <= i < |parts| ==> '\n' !in parts[i]
    ensures var lines := if parts[|parts| - 1] == "" then parts[..|parts| - 1] else parts;
            Unlines(lines) == if text == [] || text[|text| - 1] == '\n' then text else text + "\n"
  {
    var init := parts[..|parts| - 1];
    var last := parts[|parts| - 1];
    assert parts == init + [last];
    if last == "" {
      EmptyLastPart(init, text);
    } else {
      assert '\n' !in last;
      FilledLastPart(init, last, text);
    }
  }

  /** Lines keeps the pieces between newlines, less an empty last one. */
  lemma LinesOfSplit(text: string, parts: seq<string>)
    requires Split(text, '\n') == parts
    ensures Lines(text) == if parts[|parts| - 1] == "" then parts[..|parts| - 1] else parts
  {
  }

  lemma EmptyLastPart(init: seq<string>, text: string)
    requires Join(init + [""], '\n') == text
    ensures Unlines(init) == text
    ensures text == [] || text[|text| - 1] == '\n'
  {
    if init != [] {
      JoinSnoc(init, "", '\n');
    } else {
      assert init + [""] == [""];
    }
  }

  lemma FilledLastPart(init: seq<string>, last: string, text: string)
    requires last != "" && '\n' !in last
    requires Join(init + [last], '\n') == text
    ensures Unlines(init + [last]) == text + "\n"
    ensures text != [] && text[|text| - 1] != '\n'
  {
    JoinSnoc(init + [last], "", '\n');
    if init != [] {
      JoinSnoc(init, last, '\n');
      assert text == Join(init, '\n') + ['\n'] + last;
    } else {
      assert init + [last] == [last];
      assert text == last;
    }
    assert text[|text| - 1] == last[|last| - 1];
  }

  /** The fields of one line, cut at TAB. */
  function Fields(line: string): (fields: seq<string>)
    ensures |fields| >= 1
    ensures forall i :: 0 <= i < |fields| ==> '\t' !in fields[i]
    ensures Join(fields, '\t') == line
  {
    Split(line, '\t')
  }

  /** Pairs column names with field values; a short row leaves the trailing
      columns out, a long row loses its extra fields. */
  function Zip(headers: seq<string>, fields: seq<string>): (row: Row)
    ensures |row| == if |headers| <= |fields| then |headers| else |fields|
    ensures forall i :: 0 <= i < |row| ==> row[i] == (headers[i], fields[i])
    decreases |headers|
  {
    if headers == [] || fields == [] then []
    else [(headers[0], fields[0])] + Zip(headers[1..], fields[1..])
  }

  /** The value of the first column of `row` whose header is exactly `name`. */
  function Lookup(row: Row, name: string): (v: Option<string>)
    ensures v.None? <==> forall i :: 0 <= i < |row| ==> row[i].0 != name
    ensures v.Some? ==> exists i :: 0 <= i < |row| && row[i] == (name, v.value)
                                    && forall j :: 0 <= j < i ==> row[j].0 != name
    decreases |row|
  {
    if row == [] then None
    else if row[0].0 == name then Some(row[0].1)
    else
      var v := Lookup(row[1..], name);
      assert forall i :: 1 <= i < |row| ==> row[i] == row[1..][i - 1];
      v
  }

  /** The position of the first `x` in `s`, or |s| when there is none. */
  function FirstIndex<T(==)>(s: seq<T>, x: T): (i: nat)
    ensures i <= |s|
    ensures i < |s| ==> s[i] == x
    ensures forall j :: 0 <= j < i ==> s[j] != x
    decreases |s|
  {
    if s == [] then 0
    else if s[0] == x then 0
    else 1 + FirstIndex(s[1..], x)
  }

  /** How many times `c` occurs in `s`. */
  function Count(s: string, c: char): nat
    decreases |s|
  {
    if s == [] then 0 else (if s[0] == c then 1 else 0) + Count(s[1..], c)
  }

  /** The number of lines of `text`: one per newline, plus one for an
      unterminated last line. */
  function LineCount(text: string): nat
  {
    Count(text, '\n') + if text == [] || text[|text| - 1] == '\n' then 0 else 1
  }

  /** The first line gives the column names; every later line is one row. */
  function TableOf(lines: seq<string>): Table
  {
    if lines == [] then Table([], [])
    else
      var headers := Fields(lines[0]);
      Table(headers, seq(|lines| - 1, i requires 0 <= i < |lines| - 1 => Zip(headers, Fields(lines[i + 1]))))
  }

  /** Reads a whole tab-delimited text. */
  function ReadTable(text: string): Table
  {
    TableOf(Lines(text))
  }

  lemma {:induction false} JoinSnoc(parts: seq<string>, x: string, sep: char)
    requires |parts| >= 1
    ensures Join(parts + [x], sep) == Join(parts, sep) + [sep] + x
    decreases |parts|
  {
    if |parts| == 1 {
      assert (parts + [x])[1..] == [x];
    } else {
      assert (parts + [x])[1..] == parts[1..] + [x];
      JoinSnoc(parts[1..], x, sep);
    }
  }

  /** A piece without `sep` splits into itself. */
  lemma {:induction false} SplitNoSep(a: string, sep: char)
    requires sep !in a
    ensures Split(a, sep) == [a]
    decreases |a|
  {
    if a != [] {
      SplitNoSep(a[1..], sep);
      assert [a[0]] + a[1..] == a;
    }
  }

  /** Splitting stops at the first `sep`. */
  lemma {:induction false} SplitAfter(a: string, x: string, sep: char)
    requires sep !in a
    ensures Split(a + [sep] + x, sep) == [a] + Split(x, sep)
    decreases |a|
  {
    var s := a + [sep] + x;
    if a == [] {
      assert s[1..] == x;
    } else {
      assert s[1..] == a[1..] + [sep] + x;
      SplitAfter(a[1..], x, sep);
      assert [a[0]] + a[1..] == a;
    }
  }

  /** Split undoes Join whenever no piece holds the separator. */
  lemma {:induction false} SplitJoin(parts: seq<string>, sep: char)
    requires |parts| >= 1
    requires forall i :: 0 <= i < |parts| ==> sep !in parts[i]
    ensures Split(Join(parts, sep), sep) == parts
    decreases |parts|
  {
    if |parts| == 1 {
      SplitNoSep(parts[0], sep);
    } else {
      SplitJoin(parts[1..], sep);
      SplitAfter(parts[0], Join(parts[1..], sep), sep);
      assert [parts[0]] + parts[1..] == parts;
    }
  }

  /** Lines undoes Unlines: newline-terminated lines read back as themselves. */
  lemma LinesUnlines(lines: seq<string>)
    requires forall i :: 0 <= i < |lines| ==> '\n' !in lines[i]
    ensures Lines(Unlines(lines)) == lines
  {
    var parts := lines + [""];
    SplitJoin(parts, '\n');
    LinesOfSplit(Unlines(lines), parts);
    assert parts[..|parts| - 1] == lines;
  }

  /** Lines undoes Join with newlines when the last line is not empty. */
  lemma LinesJoin(lines: seq<string>)
    requires |lines| >= 1 && lines[|lines| - 1] != ""
    requires forall i :: 0 <= i < |lines| ==> '\n' !in lines[i]
    ensures Lines(Join(lines, '\n')) == lines
  {
    SplitJoin(lines, '\n');
    LinesOfSplit(Join(lines, '\n'), lines);
  }

  /** The fields of a line built by joining TAB-free fields are those fields. */
  lemma FieldsJoin(fields: seq<string>)
    requires |fields| >= 1
    requires forall i :: 0 <= i < |fields| ==> '\t' !in fields[i]
    ensures Fields(Join(fields, '\t')) == fields
  {
    SplitJoin(fields, '\t');
  }

  /** Looking a column up in a zipped row finds the field under the first
      column of that name, and nothing when the row is too short for it. */
  lemma {:induction false} LookupZip(headers: seq<string>, fields: seq<string>, name: string)
    ensures Lookup(Zip(headers, fields), name) ==
              var i := FirstIndex(headers, name);
              if i < |headers| && i < |fields| then Some(fields[i]) else None
    decreases |headers|
  {
    if headers != [] && fields != [] && headers[0] != name {
      LookupZip(headers[1..], fields[1..], name);
      var row := Zip(headers, fields);
      assert row[1..] == Zip(headers[1..], fields[1..]);
    }
  }

  /** An entry under another header does not change what a lookup finds. */
  lemma {:induction false} LookupInsert(row: Row, k: nat, e: (string, string), name: string)
    requires k <= |row|
    requires e.0 != name
    ensures Lookup(row[..k] + [e] + row[k..], name) == Lookup(row, name)
    decreases k
  {
    var r := row[..k] + [e] + row[k..];
    if k == 0 {
      assert r[1..] == row;
    } else {
      assert r[0] == row[0];
      assert r[1..] == row[1..][..k - 1] + [e] + row[1..][k - 1..];
      LookupInsert(row[1..], k - 1, e, name);
    }
  }

  /** Inserting a column into the header and the fields inserts one entry into the row. */
  lemma ZipInsert(headers: seq<string>, fields: seq<string>, k: nat, h: string, v: string)
    requires k <= |headers| && k <= |fields|
    ensures Zip(headers[..k] + [h] + headers[k..], fields[..k] + [v] + fields[k..])
            == Zip(headers, fields)[..k] + [(h, v)] + Zip(headers, fields)[k..]
  {
    var hs := headers[..k] + [h] + headers[k..];
    var fs := fields[..k] + [v] + fields[k..];
    var lhs := Zip(hs, fs);
    var rhs := Zip(headers, fields)[..k] + [(h, v)] + Zip(headers, fields)[k..];
    assert |lhs| == |rhs|;
    forall i | 0 <= i < |lhs| ensures lhs[i] == rhs[i] {
      if i < k {
      } else if i == k {
      } else {
        assert hs[i] == headers[i - 1] && fs[i] == fields[i - 1];
      }
    }
  }

  /** Splitting at `sep` gives one piece more than there are separators. */
  lemma {:induction false} SplitCount(s: string, sep: char)
    ensures |Split(s, sep)| == Count(s, sep) + 1
    decreases |s|
  {
    if s != [] {
      SplitCount(s[1..], sep);
    }
  }

  /** Lines finds exactly LineCount lines: one per newline, and one more for
      an unterminated last line. */
  lemma LinesCount(text: string)
    ensures |Lines(text)| == LineCount(text)
  {
    var parts := Split(text, '\n');
    SplitCount(text, '\n');
    LinesOfSplit(text, parts);
    var init := parts[..|parts| - 1];
    var last := parts[|parts| - 1];
    assert parts == init + [last];
    if last == "" {
      EmptyLastPart(init, text);
    } else {
      assert '\n' !in last;
      FilledLastPart(init, last, text);
    }
  }
}
