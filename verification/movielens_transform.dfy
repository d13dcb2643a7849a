/**
 The reformatting of a delimiter-separated MovieLens `.dat` file into a
 comma-separated file with a fixed header (`_transform_csv` in
 cf_experiments_loop/transformations/movielens.py). The output starts with the
 column names joined by commas and a newline; then, for each input line (the
 first one left out when `skipFirst` is set), the line is split on the
 separator, fields containing a comma are wrapped in double quotes when the
 separator is not a comma, and the fields are joined with commas. Each line
 keeps its own terminator, which ends up inside its last field.
 */
module MovielensTransform {
  import opened Text
  import opened Lines
  import opened Results
  import opened CsvReader

  /**
   Python's `str.split` raises `ValueError` for an empty separator. It is raised
   while the output file already holds the header, and `written` is that text.
   */
  datatype TransformError = EmptySeparator(written: string)

  /** The quoting rule of one field: a field with a comma is wrapped in double quotes, embedded quotes are not escaped. */
  function QuoteField(f: string): (q: string)
    ensures ',' !in f ==> q == f
    ensures ',' in f ==> |q| == |f| + 2 && q[0] == '"' && q[|q| - 1] == '"' && q[1..|q| - 1] == f
  {
    if ',' in f then ['"'] + f + ['"'] else f
  }

  /**
   The list comprehension that quotes the fields of a split line: as many
   fields come out as go in, each field with a comma is wrapped in double
   quotes, and every other field is left exactly as it was.
   */
  function QuoteFields(fields: seq<string>): (quoted: seq<string>)
    ensures |quoted| == |fields|
    ensures forall i :: 0 <= i < |fields| && ',' in fields[i] ==> quoted[i] == ['"'] + fields[i] + ['"']
    ensures forall i :: 0 <= i < |fields| && ',' !in fields[i] ==> quoted[i] == fields[i]
  {
    if fields == [] then [] else [QuoteField(fields[0])] + QuoteFields(fields[1..])
  }

  /**
   The text written for one input line: split on `sep`, quote the fields unless
   the separator is a comma, and join with commas. When the separator is a
   comma, the line is written unchanged.
   */
  function TransformLine(line: string, sep: string): (out: string)
    requires sep != []
    ensures sep == "," ==> out == line
  {
    var fields := Split(line, sep);
    JoinSplit(line, sep);
    if sep != "," then Join(QuoteFields(fields), ",") else Join(fields, ",")
  }

  /** A field read after its quoted form continues the current field with the field's own text. */
  lemma ReadQuotedField(f: string, rest: string, field: string)
    requires '"' !in f
    ensures ReadFields(QuoteField(f) + rest, false, field) == ReadFields(rest, false, field + f)
  {
    if ',' in f {
      var s := ['"'] + f + ['"'] + rest;
      assert s[0] == '"';
      assert s[1..] == f + (['"'] + rest);
      ReadVerbatim(f, ['"'] + rest, true, field);
      assert (['"'] + rest)[1..] == rest;
    } else {
      ReadVerbatim(f, rest, false, field);
    }
  }

  /** A quoted field without embedded quotes reads back as that one field. */
  lemma QuotedFieldReadsBack(f: string)
    requires '"' !in f
    ensures ReadRecord(QuoteField(f)) == [f]
  {
    ReadQuotedField(f, [], []);
    assert QuoteField(f) + [] == QuoteField(f);
    assert [] + f == f;
  }

  /**
   Joining quoted fields with commas and reading the result back recovers the
   fields, as long as none of them holds a double quote.
   */
  lemma {:induction false} ReadJoinedFields(fields: seq<string>)
    requires |fields| >= 1
    requires forall i :: 0 <= i < |fields| ==> '"' !in fields[i]
    ensures ReadRecord(Join(QuoteFields(fields), ",")) == fields
    decreases |fields|
  {
    var quoted := QuoteFields(fields);
    if |fields| == 1 {
      QuotedFieldReadsBack(fields[0]);
    } else {
      var rest := fields[1..];
      forall i | 0 <= i < |rest| ensures '"' !in rest[i] {
        assert rest[i] == fields[i + 1];
      }
      ReadJoinedFields(rest);
      var tail := Join(QuoteFields(rest), ",");
      QuotedJoinCons(fields);
      ReadQuotedField(fields[0], [','] + tail, []);
      assert ([','] + tail)[1..] == tail;
      assert [] + fields[0] == fields[0];
      assert fields == [fields[0]] + rest;
    }
  }

  /** Quoted fields joined with commas: the first field's quoted form, a comma, then the rest. */
  lemma QuotedJoinCons(fields: seq<string>)
    requires |fields| >= 2
    ensures Join(QuoteFields(fields), ",") == QuoteField(fields[0]) + ([','] + Join(QuoteFields(fields[1..]), ","))
  {
    var quoted := QuoteFields(fields);
    assert quoted == [QuoteField(fields[0])] + QuoteFields(fields[1..]);
    assert quoted[1..] == QuoteFields(fields[1..]);
  }

  /**
   The written line is a well-formed comma-separated record of the fields the
   split produced: a quote-aware reader gets back exactly those fields, as many
   as there were and in the same order, provided the line holds no double quote.
   */
  lemma TransformLineReadsBack(line: string, sep: string)
    requires sep != []
    requires '"' !in line
    ensures ReadRecord(TransformLine(line, sep)) == Split(line, sep)
  {
    var fields := Split(line, sep);
    JoinSplit(line, sep);
    forall i | 0 <= i < |fields| ensures '"' !in fields[i] {
      if '"' in fields[i] {
        JoinKeepsChars(fields, sep, i, '"');
      }
    }
    ReadJoinedFields(fields);
    if sep == "," {
      SplitCharParts(line, ',');
      assert QuoteFields(fields) == fields;
    }
  }

  /**
   Embedded double quotes are not escaped, so a line holding one need not read
   back as its fields: `a"b,c::d` splits into `a"b,c` and `d`, the first field
   is quoted as it holds a comma, and the written `"a"b,c",d` reads as the
   fields `ab` and `c,d`.
   */
  lemma EmbeddedQuoteBreaksReadBack()
    ensures Split("a\"b,c::d", "::") == ["a\"b,c", "d"]
    ensures TransformLine("a\"b,c::d", "::") == "\"a\"b,c\",d"
    ensures ReadRecord(TransformLine("a\"b,c::d", "::")) == ["ab", "c,d"]
  {
    SplitExample();
    QuoteExample();
    JoinCons("\"a\"b,c\"", ["d"], ",");
    ReadExample();
  }

  /** `a"b,c::d` splits on `::` into `a"b,c` and `d`. */
  lemma SplitExample()
    ensures Split("a\"b,c::d", "::") == ["a\"b,c", "d"]
  {
    var t := "a\"b,c::";
    forall j | 0 <= j < 5 ensures !OccursAt(t, "::", j) {
      assert t[j] != ':';
      OccursAtHead(t, "::", j);
    }
    assert OccursAt(t, "::", 5) by { assert t[5..7] == "::"; }
    FindLeftmost(t, "::", 5);
    assert "a\"b,c" + "::" == t;
    JoinCons("a\"b,c", ["d"], "::");
    assert Join(["a\"b,c", "d"], "::") == "a\"b,c::d";
    SplitJoin(["a\"b,c", "d"], "::");
  }

  /** Of `a"b,c` and `d`, only the first field holds a comma and is quoted. */
  lemma QuoteExample()
    ensures QuoteFields(["a\"b,c", "d"]) == ["\"a\"b,c\"", "d"]
  {
    var f := "a\"b,c";
    assert f[3] == ',';
    assert ['"'] + f + ['"'] == "\"a\"b,c\"";
    assert QuoteFields(["a\"b,c", "d"])[0] == "\"a\"b,c\"";
  }

  /**
   The quote before `a` opens a quoted section that the next quote closes, the
   comma after `b` ends the first field, and the quote after `c` opens a quoted
   section that swallows the second comma.
   */
  lemma ReadExample()
    ensures ReadRecord("\"a\"b,c\",d") == ["ab", "c,d"]
  {
    var out := "\"a\"b,c\",d";
    var second := out[5..];
    assert second == "c\",d";
    ReadSecondField();
    assert ReadFields(out[4..], false, "ab") == ["ab", "c,d"] by {
      assert out[4..][1..] == second && out[4..][0] == ',';
    }
    assert ReadFields(out[3..], false, "a") == ["ab", "c,d"] by {
      assert out[3..][1..] == out[4..] && out[3..][0] == 'b';
      assert "a" + ['b'] == "ab";
    }
    assert ReadFields(out[2..], true, "a") == ["ab", "c,d"] by {
      assert out[2..][1..] == out[3..] && out[2..][0] == '"';
    }
    assert ReadFields(out[1..], true, "") == ["ab", "c,d"] by {
      assert out[1..][1..] == out[2..] && out[1..][0] == 'a';
      assert "" + ['a'] == "a";
    }
    assert ReadFields(out, false, "") == ["ab", "c,d"] by {
      assert out[0] == '"';
    }
  }

  /** The second field of the written example, `c",d`, reads as the one field `c,d`. */
  lemma ReadSecondField()
    ensures ReadFields("c\",d", false, "") == ["c,d"]
  {
    var second := "c\",d";
    assert second[4..] == [];
    assert ReadFields(second[3..], true, "c,") == ["c,d"] by {
      assert second[3..][1..] == second[4..] && second[3..][0] == 'd';
      assert "c," + ['d'] == "c,d";
    }
    assert ReadFields(second[2..], true, "c") == ["c,d"] by {
      assert second[2..][1..] == second[3..] && second[2..][0] == ',';
      assert "c" + [','] == "c,";
    }
    assert ReadFields(second[1..], false, "c") == ["c,d"] by {
      assert second[1..][1..] == second[2..] && second[1..][0] == '"';
    }
    assert ReadFields(second, false, "") == ["c,d"] by {
      assert second[0] == 'c';
      assert "" + ['c'] == "c";
    }
  }

  /** Quoting only adds double quotes: every other character keeps its count. */
  lemma {:induction false} QuoteFieldsCount(fields: seq<string>, c: char)
    requires c != '"'
    ensures multiset(Concat(QuoteFields(fields)))[c] == multiset(Concat(fields))[c]
    decreases |fields|
  {
    if fields != [] {
      QuoteFieldsCount(fields[1..], c);
      assert QuoteFields(fields)[1..] == QuoteFields(fields[1..]);
    }
  }

  /**
   No character other than the separator's, commas and double quotes is added
   or removed by reformatting a line; in particular, for a separator without a
   newline, the line keeps exactly its newline characters.
   */
  lemma TransformLineKeepsChars(line: string, sep: string, c: char)
    requires sep != []
    requires c != ',' && c != '"' && c !in sep
    ensures multiset(TransformLine(line, sep))[c] == multiset(line)[c]
  {
    var fields := Split(line, sep);
    JoinSplit(line, sep);
    JoinCount(fields, sep, c);
    if sep != "," {
      JoinCount(QuoteFields(fields), ",", c);
      QuoteFieldsCount(fields, c);
    }
  }

  /** The field a line ends with once split: it carries the line's terminator. */
  function LastField(line: string, sep: string): string
    requires sep != []
  {
    Split(line, sep)[|Split(line, sep)| - 1]
  }

  /** The last of the parts a terminated line splits into is terminated. */
  lemma {:induction false} SplitLastTerminated(line: string, sep: string)
    requires sep != [] && '\n' !in sep && Terminated(line)
    ensures Terminated(Split(line, sep)[|Split(line, sep)| - 1])
    decreases |line|
  {
    var k := Find(line, sep);
    if k >= 0 {
      SplitUnfold(line, sep);
      var rest := line[k + |sep|..];
      RestTerminated(line, sep, k);
      SplitLastTerminated(rest, sep);
      LastOfCons(line[..k], Split(rest, sep), Split(line, sep));
    } else {
      FindFirst(line, sep);
      SplitWhole(line, sep);
    }
  }

  /** A separator without newlines stops before a line's terminator, so what follows it is terminated. */
  lemma RestTerminated(line: string, sep: string, k: int)
    requires sep != [] && '\n' !in sep && Terminated(line)
    requires OccursAt(line, sep, k)
    ensures k + |sep| < |line| && Terminated(line[k + |sep|..])
  {
    assert line[k + |sep| - 1] == sep[|sep| - 1];
    var rest := line[k + |sep|..];
    assert rest[|rest| - 1] == line[|line| - 1];
  }

  /** The last element of a sequence with one element put in front. */
  lemma LastOfCons(x: string, tail: seq<string>, all: seq<string>)
    requires |tail| >= 1 && all == [x] + tail
    ensures all[|all| - 1] == tail[|tail| - 1]
  {
  }

  /** Joined parts end as their last part ends. */
  lemma JoinedEnd(parts: seq<string>, sep: string, suffix: string)
    requires |parts| >= 1
    requires EndsWith(parts[|parts| - 1], suffix)
    ensures EndsWith(Join(parts, sep), suffix)
  {
    JoinEndsWithLast(parts, sep);
    var j := Join(parts, sep);
    var last := parts[|parts| - 1];
    assert j[|j| - |last|..] == last;
    assert j[|j| - |suffix|..] == last[|last| - |suffix|..];
  }

  /**
   No line terminator is added or removed: a terminated line is written as a
   terminated line when its last field is not quoted. When the last field has
   a comma and gets quoted, the closing quote lands after the newline, so the
   terminator ends up inside the quoted field.
   */
  lemma TransformLineTerminator(line: string, sep: string)
    requires sep != [] && '\n' !in sep
    ensures Terminated(line) && (sep == "," || ',' !in LastField(line, sep)) ==>
      Terminated(TransformLine(line, sep))
    ensures Terminated(line) && sep != "," && ',' in LastField(line, sep) ==>
      EndsWith(TransformLine(line, sep), "\n\"")
  {
    if Terminated(line) && sep != "," {
      QuotedLineEnd(line, sep);
    }
  }

  /** How a terminated line ends once written with quoting, as its last field decides. */
  lemma QuotedLineEnd(line: string, sep: string)
    requires sep != [] && '\n' !in sep && sep != "," && Terminated(line)
    ensures ',' !in LastField(line, sep) ==> Terminated(TransformLine(line, sep))
    ensures ',' in LastField(line, sep) ==> EndsWith(TransformLine(line, sep), "\n\"")
  {
    var parts := Split(line, sep);
    assert TransformLine(line, sep) == Join(QuoteFields(parts), ",");
    LastFieldIsLastPart(line, sep);
    SplitLastTerminated(line, sep);
    QuotedJoinEnd(parts);
  }

  /** The last field is the last of the parts the split yields. */
  lemma LastFieldIsLastPart(line: string, sep: string)
    requires sep != []
    ensures LastField(line, sep) == Split(line, sep)[|Split(line, sep)| - 1]
  {
  }

  /** How fields joined after quoting end, given that the last field is terminated. */
  lemma QuotedJoinEnd(parts: seq<string>)
    requires |parts| >= 1 && Terminated(parts[|parts| - 1])
    ensures ',' !in parts[|parts| - 1] ==> Terminated(Join(QuoteFields(parts), ","))
    ensures ',' in parts[|parts| - 1] ==> EndsWith(Join(QuoteFields(parts), ","), "\n\"")
  {
    if ',' in parts[|parts| - 1] {
      QuotedLastJoinEnd(parts);
    } else {
      PlainLastJoinEnd(parts);
    }
  }

  /** A last field with a comma is quoted, so the joined line ends with the newline and the closing quote. */
  lemma QuotedLastJoinEnd(parts: seq<string>)
    requires |parts| >= 1 && Terminated(parts[|parts| - 1]) && ',' in parts[|parts| - 1]
    ensures EndsWith(Join(QuoteFields(parts), ","), "\n\"")
  {
    var written := QuoteFields(parts);
    var i := |parts| - 1;
    QuotedLastEnd(parts[i], written[i]);
    JoinedEnd(written, ",", "\n\"");
  }

  /** A last field without a comma is kept, so the joined line ends with its newline. */
  lemma PlainLastJoinEnd(parts: seq<string>)
    requires |parts| >= 1 && Terminated(parts[|parts| - 1]) && ',' !in parts[|parts| - 1]
    ensures Terminated(Join(QuoteFields(parts), ","))
  {
    var written := QuoteFields(parts);
    assert written[|written| - 1] == parts[|parts| - 1];
    JoinedTerminated(written, ",");
  }

  /** Joined parts whose last part is terminated are terminated. */
  lemma JoinedTerminated(parts: seq<string>, sep: string)
    requires |parts| >= 1 && Terminated(parts[|parts| - 1])
    ensures Terminated(Join(parts, sep))
  {
    TerminatedEndsWith(parts[|parts| - 1]);
    JoinedEnd(parts, sep, "\n");
    TerminatedEndsWith(Join(parts, sep));
  }

  /** A line is terminated exactly when it ends with a newline. */
  lemma TerminatedEndsWith(l: string)
    ensures Terminated(l) <==> EndsWith(l, "\n")
  {
    if l != [] {
      assert l[|l| - 1..] == [l[|l| - 1]];
    }
  }

  /** A terminated field with a comma, once quoted, ends with the newline and then the closing quote. */
  lemma QuotedLastEnd(f: string, w: string)
    requires Terminated(f) && w == ['"'] + f + ['"']
    ensures EndsWith(w, "\n\"")
  {
    assert w[|w| - 2] == f[|f| - 1];
    assert w[|w| - 2..] == "\n\"";
  }

  /** The header line: the column names joined with commas, then a newline. */
  function Header(names: seq<string>): (h: string)
    ensures Terminated(h) && h[..|h| - 1] == Join(names, ",")
    ensures (forall i :: 0 <= i < |names| ==> '\n' !in names[i]) ==> IsLine(h)
  {
    var j := Join(names, ",");
    assert (forall i :: 0 <= i < |names| ==> '\n' !in names[i]) ==> '\n' !in j by {
      if forall i :: 0 <= i < |names| ==> '\n' !in names[i] {
        JoinFree(names, ",", '\n');
      }
    }
    assert (j + "\n")[..|j|] == j;
    j + "\n"
  }

  /** The lines that are reformatted: all of them, or all but the first when `skipFirst` is set. */
  function DataLines(lines: seq<string>, skipFirst: bool): (data: seq<string>)
    ensures |data| <= |lines| && data == lines[|lines| - |data|..]
    ensures |lines| - |data| == (if skipFirst && lines != [] then 1 else 0)
  {
    if skipFirst && lines != [] then lines[1..] else lines
  }

  /** Every data line contributes exactly one written line, in the original order. */
  function TransformLines(lines: seq<string>, sep: string): (written: seq<string>)
    requires sep != []
    ensures |written| == |lines|
    ensures forall i :: 0 <= i < |lines| ==> written[i] == TransformLine(lines[i], sep)
  {
    if lines == [] then [] else [TransformLine(lines[0], sep)] + TransformLines(lines[1..], sep)
  }

  /**
   The text `_transform_csv` writes for a sequence of input lines. The output
   always starts with the header; the only error is the empty separator, raised
   at the first data line, when the file holds just the header. With a comma as
   separator the data lines are copied unchanged.
   */
  function TransformCsv(names: seq<string>, lines: seq<string>, skipFirst: bool, sep: string)
    : (r: Result<string, TransformError>)
    ensures r.Failure? <==> sep == [] && DataLines(lines, skipFirst) != []
    ensures r.Failure? ==> r.error.written == Header(names)
    ensures r.Success? ==> Header(names) <= r.value
    ensures r.Success? && sep == "," ==> r.value == Header(names) + Concat(DataLines(lines, skipFirst))
  {
    var data := DataLines(lines, skipFirst);
    if data == [] then Success(Header(names))
    else if sep == [] then Failure(EmptySeparator(Header(names)))
    else
      var written := TransformLines(data, sep);
      assert sep == "," ==> written == data;
      Success(Header(names) + Concat(written))
  }

  /**
   The output grows line by line: appending one more input line appends
   exactly its reformatted text to the output and changes nothing before it.
   */
  lemma TransformCsvAppend(names: seq<string>, lines: seq<string>, line: string, sep: string)
    requires sep != []
    ensures TransformCsv(names, lines, false, sep).Success?
    ensures TransformCsv(names, lines + [line], false, sep)
      == Success(TransformCsv(names, lines, false, sep).value + TransformLine(line, sep))
  {
    var before := TransformLines(lines, sep);
    var t := TransformLine(line, sep);
    assert TransformLines(lines + [line], sep) == before + [t];
    ConcatSnoc(before, t);
    if lines == [] {
      assert before + [t] == [t];
      assert Concat([t]) == t + Concat([]);
      assert Header(names) + t == Header(names) + Concat([t]);
    } else {
      assert Header(names) + Concat(before + [t]) == Header(names) + Concat(before) + t;
    }
  }

  /** Skipping the first line drops exactly that line, whatever it holds, and nothing else. */
  lemma TransformCsvSkipFirst(names: seq<string>, first: string, lines: seq<string>, sep: string)
    ensures TransformCsv(names, [first] + lines, true, sep) == TransformCsv(names, lines, false, sep)
  {
    assert ([first] + lines)[1..] == lines;
  }

  /** Without data lines the output is the header alone, whatever the separator. */
  lemma TransformCsvNoData(names: seq<string>, sep: string)
    ensures TransformCsv(names, [], false, sep) == Success(Header(names))
    ensures TransformCsv(names, [], true, sep) == Success(Header(names))
  {
  }

  /**
   Counting any character that is not a comma, a double quote or part of the
   separator, the output holds what the header holds plus what the data lines
   hold; for a separator without newlines there is one newline more in the
   output than in the data lines, the header's.
   */
  lemma TransformCsvKeepsChars(names: seq<string>, lines: seq<string>, skipFirst: bool, sep: string, c: char)
    requires sep != []
    requires c != ',' && c != '"' && c !in sep
    ensures TransformCsv(names, lines, skipFirst, sep).Success?
    ensures multiset(TransformCsv(names, lines, skipFirst, sep).value)[c]
      == multiset(Header(names))[c] + multiset(Concat(DataLines(lines, skipFirst)))[c]
  {
    TransformLinesCount(DataLines(lines, skipFirst), sep, c);
  }

  /** The reformatted lines, glued together, hold as many of `c` as the input lines. */
  lemma {:induction false} TransformLinesCount(lines: seq<string>, sep: string, c: char)
    requires sep != []
    requires c != ',' && c != '"' && c !in sep
    ensures multiset(Concat(TransformLines(lines, sep)))[c] == multiset(Concat(lines))[c]
    decreases |lines|
  {
    if lines != [] {
      TransformLinesCount(lines[1..], sep, c);
      TransformLineKeepsChars(lines[0], sep, c);
      assert TransformLines(lines, sep)[1..] == TransformLines(lines[1..], sep);
    }
  }

  /**
   `_transform_csv` on the content of an input file: the content is read line
   by line and each line reformatted as above. For a non-empty separator it
   never fails, and the output always starts with the header. Without
   `skipFirst`, an empty separator fails exactly when the file holds anything
   besides carriage returns.
   */
  function TransformFile(names: seq<string>, content: string, skipFirst: bool, sep: string)
    : (r: Result<string, TransformError>)
    ensures r.Failure? ==> sep == [] && DropCr(content) != []
    ensures !skipFirst ==> (r.Failure? <==> sep == [] && DropCr(content) != [])
    ensures r.Success? ==> Header(names) <= r.value
    ensures sep != [] ==> r.Success?
  {
    var lines := ReadLines(content);
    assert lines != [] <==> DropCr(content) != [] by {
      if lines != [] {
        assert Concat(lines) == lines[0] + Concat(lines[1..]);
      }
    }
    TransformCsv(names, lines, skipFirst, sep)
  }

  /**
   With a comma as separator the file body is copied under the new header, as
   GFile reads it, without carriage returns; with `skipFirst`, everything after
   the first newline is copied (nothing when there is none).
   */
  lemma CommaSeparatedFileCopied(names: seq<string>, content: string)
    ensures TransformFile(names, content, false, ",") == Success(Header(names) + DropCr(content))
    ensures Find(DropCr(content), "\n") < 0 ==> TransformFile(names, content, true, ",") == Success(Header(names))
    ensures Find(DropCr(content), "\n") >= 0 ==>
      TransformFile(names, content, true, ",")
        == Success(Header(names) + DropCr(content)[Find(DropCr(content), "\n") + 1..])
  {
    var text := DropCr(content);
    CutLinesFirst(text);
    var lines := ReadLines(content);
    assert lines == CutLines(text);
    var k := Find(text, "\n");
    if text != [] && k >= 0 {
      assert lines[1..] == CutLines(text[k + 1..]);
      assert Concat(lines[1..]) == text[k + 1..];
    }
  }
}
