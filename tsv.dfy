/**
 * `read_tsv` (utils.py): the lines of a tab-separated file, with blank and
 * `#`-comment lines skipped and every other line split into a fixed number
 * of fields. The file is given as its sequence of lines.
 */
module Tsv {
  import opened Wrappers
  import opened Text
  import opened Grouping

  /** The exception raised when a row has the wrong number of fields. */
  datatype ParseError = ParseError(path: string, expected: int, found: nat)

  /** A line that, once stripped, is empty or starts with `#` yields no row. */
  predicate IsSkipped(line: string) {
    var s := Strip(line);
    s == [] || s[0] == '#'
  }

  /** The fields of a line: the stripped line split at tabs. */
  function Fields(line: string): seq<string> {
    Split(Strip(line), '\t')
  }

  /** A line that is skipped or has exactly `columns` fields. */
  predicate Acceptable(line: string, columns: int) {
    IsSkipped(line) || |Fields(line)| == columns
  }

  /** The stripped lines that yield a row. */
  function Kept(lines: seq<string>): (ks: seq<string>)
    ensures |ks| <= |lines|
  {
    if lines == [] then []
    else if IsSkipped(Last(lines)) then Kept(Init(lines))
    else Kept(Init(lines)) + [Strip(Last(lines))]
  }

  /** What `read_tsv` produces: all rows, or the error for the first line with a wrong field count. */
  function ReadTsvSpec(path: string, lines: seq<string>, columns: int): Result<seq<seq<string>>, ParseError> {
    if lines == [] then Ok([])
    else
      var rows :- ReadTsvSpec(path, Init(lines), columns);
      var line := Last(lines);
      if IsSkipped(line) then Ok(rows)
      else if |Fields(line)| != columns then Err(ParseError(path, columns, |Fields(line)|))
      else Ok(rows + [Fields(line)])
  }

  /** `read_tsv(path, columns)` over the lines of the file at `path`. */
  method ReadTsv(path: string, lines: seq<string>, columns: int) returns (r: Result<seq<seq<string>>, ParseError>)
    ensures r == ReadTsvSpec(path, lines, columns)
  {
    var rows := [];
    for i := 0 to |lines|
      invariant ReadTsvSpec(path, lines[..i], columns) == Ok(rows)
    {
      ReadTsvSnoc(path, lines[..i], lines[i], columns);
      assert lines[..i + 1] == lines[..i] + [lines[i]];
      var line := Strip(lines[i]);
      if line == [] || line[0] == '#' {
        assert IsSkipped(lines[i]);
        continue;
      }
      StripIdempotent(lines[i]);
      var fields := Split(Strip(line), '\t');
      assert fields == Fields(lines[i]);
      if |fields| != columns {
        ReadTsvErrExtends(path, lines, i + 1, columns);
        return Err(ParseError(path, columns, |fields|));
      }
      rows := rows + [fields];
    }
    assert lines[..|lines|] == lines;
    return Ok(rows);
  }

  /** One more line: an earlier error stands, otherwise the line is skipped, rejected or appended. */
  lemma ReadTsvSnoc(path: string, lines: seq<string>, line: string, columns: int)
    ensures ReadTsvSpec(path, lines + [line], columns)
         == var prev := ReadTsvSpec(path, lines, columns);
            if prev.Err? || IsSkipped(line) then prev
            else if |Fields(line)| != columns then Err(ParseError(path, columns, |Fields(line)|))
            else Ok(prev.value + [Fields(line)])
  {
    assert Init(lines + [line]) == lines && Last(lines + [line]) == line;
  }

  /** An error on a prefix of the file is the error of the whole file. */
  lemma {:induction false} ReadTsvErrExtends(path: string, lines: seq<string>, n: nat, columns: int)
    requires n <= |lines| && ReadTsvSpec(path, lines[..n], columns).Err?
    ensures ReadTsvSpec(path, lines, columns) == ReadTsvSpec(path, lines[..n], columns)
    decreases |lines| - n
  {
    if n < |lines| {
      var init := Init(lines);
      assert init[..n] == lines[..n];
      ReadTsvErrExtends(path, init, n, columns);
      ReadTsvSnoc(path, init, Last(lines), columns);
      assert lines == init + [Last(lines)];
    } else {
      assert lines[..n] == lines;
    }
  }

  /** The file parses exactly when every line is skipped or has `columns` fields. */
  lemma {:induction false} ReadTsvOk(path: string, lines: seq<string>, columns: int)
    ensures ReadTsvSpec(path, lines, columns).Ok? <==> forall i :: 0 <= i < |lines| ==> Acceptable(lines[i], columns)
  {
    if lines != [] {
      var init := Init(lines);
      ReadTsvOk(path, init, columns);
      assert lines == init + [Last(lines)];
      ReadTsvSnoc(path, init, Last(lines), columns);
      assert forall i :: 0 <= i < |init| ==> init[i] == lines[i];
    }
  }

  /**
   * Each row has `columns` fields, and the rows are the kept lines split at
   * tabs: joining a row with tabs gives back its stripped line, which is
   * neither empty nor a comment.
   */
  lemma {:induction false} ReadTsvRows(path: string, lines: seq<string>, columns: int)
    requires ReadTsvSpec(path, lines, columns).Ok?
    ensures var rows := ReadTsvSpec(path, lines, columns).value;
      && |rows| == |Kept(lines)|
      && forall k :: 0 <= k < |rows| ==>
           && |rows[k]| == columns
           && Join(rows[k], '\t') == Kept(lines)[k]
           && Kept(lines)[k] != [] && Kept(lines)[k][0] != '#'
  {
    if lines != [] {
      var init, line := Init(lines), Last(lines);
      ReadTsvRows(path, init, columns);
      if !IsSkipped(line) {
        var rows' := ReadTsvSpec(path, init, columns).value;
        var rows := rows' + [Fields(line)];
        assert ReadTsvSpec(path, lines, columns).value == rows;
        var kept := Kept(lines);
        assert kept == Kept(init) + [Strip(line)];
        JoinSplit(Strip(line), '\t');
        forall k | 0 <= k < |rows|
          ensures |rows[k]| == columns && Join(rows[k], '\t') == kept[k] && kept[k] != [] && kept[k][0] != '#'
        {
          if k < |rows'| {
            assert rows[k] == rows'[k] && kept[k] == Kept(init)[k];
          }
        }
      }
    }
  }

  /**
   * A `ParseError` names the expected count and the count found on the first
   * line that is neither skipped nor of the right width.
   */
  lemma {:induction false} ReadTsvFirstError(path: string, lines: seq<string>, columns: int)
    requires ReadTsvSpec(path, lines, columns).Err?
    ensures var e := ReadTsvSpec(path, lines, columns).error;
      exists i :: 0 <= i < |lines|
        && !Acceptable(lines[i], columns)
        && e == ParseError(path, columns, |Fields(lines[i])|)
        && forall j :: 0 <= j < i ==> Acceptable(lines[j], columns)
  {
    var e := ReadTsvSpec(path, lines, columns).error;
    var init := Init(lines);
    assert forall j :: 0 <= j < |lines| - 1 ==> init[j] == lines[j];
    if ReadTsvSpec(path, init, columns).Err? {
      ReadTsvFirstError(path, init, columns);
      var i :| 0 <= i < |init| && !Acceptable(init[i], columns)
        && ReadTsvSpec(path, init, columns).error == ParseError(path, columns, |Fields(init[i])|)
        && forall j :: 0 <= j < i ==> Acceptable(init[j], columns);
      assert lines[i] == init[i];
    } else {
      ReadTsvOk(path, init, columns);
      assert !Acceptable(lines[|lines| - 1], columns);
    }
  }

  /** Example: a comment, a blank line and one well-formed row, each with its line terminator. */
  lemma ReadTsvExample()
    ensures ReadTsvSpec("groups.tsv", ["#c\n", "\n", "a\tb\n"], 2) == Ok([["a", "b"]])
  {
    var p, l0, l1, l2 := "groups.tsv", "#c\n", "\n", "a\tb\n";
    CommentLineSkipped();
    BlankLineSkipped();
    RowLineFields();
    ReadTsvSnoc(p, [], l0, 2);
    assert [] + [l0] == [l0];
    assert ReadTsvSpec(p, [l0], 2) == Ok([]);
    ReadTsvSnoc(p, [l0], l1, 2);
    assert [l0] + [l1] == [l0, l1];
    assert ReadTsvSpec(p, [l0, l1], 2) == Ok([]);
    ReadTsvSnoc(p, [l0, l1], l2, 2);
    assert [l0, l1] + [l2] == [l0, l1, l2];
    assert [] + [Fields(l2)] == [Fields(l2)];
  }

  lemma CommentLineSkipped()
    ensures IsSkipped("#c\n")
  {
    assert RStrip("#c\n") == "#c" by {
      assert "#c\n"[..2] == "#c";
    }
  }

  lemma BlankLineSkipped()
    ensures IsSkipped("\n")
  {
    assert RStrip("\n") == [] by {
      assert "\n"[..0] == [];
    }
  }

  lemma RowLineStripped()
    ensures Strip("a\tb\n") == "a\tb"
  {
    assert "a\tb\n"[..3] == "a\tb";
  }

  lemma RowLineFields()
    ensures !IsSkipped("a\tb\n") && Fields("a\tb\n") == ["a", "b"]
  {
    RowLineStripped();
    assert Split([], '\t') == [[]];
    var empty: seq<string> := [[]];
    assert ['b'] + [] == "b" && empty[1..] == [];
    assert "b"[1..] == [] && Split("b", '\t') == ["b"];
    assert "\tb"[1..] == "b" && Split("\tb", '\t') == [[], "b"];
    assert ['a'] + [] == "a" && [[], "b"][1..] == ["b"];
    assert "a\tb"[1..] == "\tb" && Split("a\tb", '\t') == ["a", "b"];
  }
}
