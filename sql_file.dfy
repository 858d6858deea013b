/**
 * `generate_sql`: the text of the seed file, six header lines followed by one
 * INSERT row per entity, rows separated by ",\n" and the last closed by ";".
 */
module SqlFile {
  import opened Wrappers
  import opened Text
  import opened EntryParser
  import opened SqlScript

  /** The character of a decimal digit. */
  function DigitChar(d: nat): (c: char)
    requires d < 10
    ensures IsDigit(c)
  {
    (48 + d) as char
  }

  /** `str(n)` for a count: its decimal digits, most significant first. */
  function Decimal(n: nat): (r: string)
    ensures |r| >= 1
  {
    if n < 10 then [DigitChar(n)] else Decimal(n / 10) + [DigitChar(n % 10)]
  }

  predicate AllDigits(s: string) {
    forall k :: 0 <= k < |s| ==> IsDigit(s[k])
  }

  /** The number a string of decimal digits denotes. */
  function DigitsValue(s: string): nat
    requires AllDigits(s)
  {
    if s == [] then 0 else DigitsValue(s[..|s| - 1]) * 10 + (s[|s| - 1] as int - 48)
  }

  /** The digits of a count read back as the count, and only zero starts with "0". */
  lemma {:induction false} DecimalRoundTrip(n: nat)
    ensures AllDigits(Decimal(n)) && DigitsValue(Decimal(n)) == n
    ensures Decimal(n)[0] == '0' <==> n == 0
  {
    var r := Decimal(n);
    if n < 10 {
      assert r[..0] == [];
    } else {
      DecimalRoundTrip(n / 10);
      var p := Decimal(n / 10);
      assert r == p + [DigitChar(n % 10)];
      assert r[..|r| - 1] == p;
      assert r[0] == p[0];
    }
  }

  /** The third header line: `-- <count> entities`. */
  function CountLine(n: nat): string {
    "-- " + Decimal(n) + " entities"
  }

  /** The count a line of the form `-- <digits> entities` states; nothing for any other line. */
  function ReadCount(line: string): Option<nat> {
    if |line| >= 13 && line[..3] == "-- " && line[|line| - 9..] == " entities" && AllDigits(line[3..|line| - 9])
    then Some(DigitsValue(line[3..|line| - 9]))
    else None
  }

  /** The count line states the number of entities. */
  lemma CountReadsBack(n: nat)
    ensures ReadCount(CountLine(n)) == Some(n)
  {
    var line := CountLine(n);
    var d := Decimal(n);
    DecimalRoundTrip(n);
    assert line[..3] == "-- ";
    assert line[|line| - 9..] == " entities";
    assert line[3..|line| - 9] == d;
  }

  /** The fixed header lines, written in short pieces. */
  const TITLE := "-- UFLPA Entity List " + "(January 15, 2025)"
  const GENERATOR := "-- Generated by " + "scripts/seed_uflpa.py"
  const INSERT := "INSERT INTO companies " + "(brand, aliases, " + "product_categories, " +
    "countries_of_origin, " + "risk_level, sources, " + "reason, last_updated)"

  /** The six lines before the rows. */
  function Header(n: nat): (r: seq<string>)
    ensures |r| == 6 && ReadCount(r[2]) == Some(n)
  {
    CountReadsBack(n);
    [TITLE, GENERATOR, CountLine(n), "", INSERT, "VALUES"]
  }

  /** The rows of the INSERT statement, one per entity, in order. */
  function Rows(es: seq<Entity>): (r: seq<string>)
    ensures |r| == |es|
  {
    if es == [] then [] else Rows(es[..|es| - 1]) + [Row(es[|es| - 1])]
  }

  lemma {:induction false} RowsAt(es: seq<Entity>)
    ensures forall i :: 0 <= i < |es| ==> Rows(es)[i] == Row(es[i])
  {
    if es != [] {
      RowsAt(es[..|es| - 1]);
    }
  }

  /** The seed file. */
  function SqlText(es: seq<Entity>): string {
    Join(Header(|es|) + [Join(Rows(es), ",\n") + ";"], "\n")
  }

  /** The rows as lines: every row but the last ends in ",", the last in ";". */
  function Terminated(rows: seq<string>): (r: seq<string>)
    ensures |r| == if rows == [] then 1 else |rows|
  {
    if |rows| <= 1 then [(if rows == [] then [] else rows[0]) + ";"]
    else [rows[0] + ","] + Terminated(rows[1..])
  }

  lemma {:induction false} TerminatedAt(rows: seq<string>)
    ensures rows == [] ==> Terminated(rows) == [";"]
    ensures forall i :: 0 <= i < |rows| ==>
      Terminated(rows)[i] == rows[i] + (if i == |rows| - 1 then ";" else ",")
  {
    if |rows| > 1 {
      var t := Terminated(rows);
      TerminatedAt(rows[1..]);
      forall i | 1 <= i < |rows| ensures t[i] == rows[i] + (if i == |rows| - 1 then ";" else ",") {
        assert t[i] == Terminated(rows[1..])[i - 1];
        assert rows[1..][i - 1] == rows[i];
      }
    } else if rows == [] {
      var empty: string := [];
      assert empty + ";" == ";";
    }
  }

  /** Joining rows with ",\n" and closing with ";" gives the terminated rows, one per line. */
  lemma {:induction false} JoinRows(rows: seq<string>)
    ensures Join(rows, ",\n") + ";" == Join(Terminated(rows), "\n")
  {
    if |rows| > 1 {
      var rest := Terminated(rows[1..]);
      JoinRows(rows[1..]);
      assert Join(rows, ",\n") + ";" == rows[0] + "," + "\n" + (Join(rows[1..], ",\n") + ";");
      assert Terminated(rows)[1..] == rest;
    } else if rows == [] {
      assert Join(rows, ",\n") + ";" == ";";
    }
  }

  /** A last line that is itself a join of lines joins into the same text as those lines. */
  lemma {:induction false} JoinAppend(a: seq<string>, b: seq<string>, sep: string)
    requires |b| >= 1
    ensures Join(a + [Join(b, sep)], sep) == Join(a + b, sep)
  {
    if a == [] {
      assert a + [Join(b, sep)] == [Join(b, sep)];
      assert a + b == b;
    } else {
      JoinAppend(a[1..], b, sep);
      assert (a + [Join(b, sep)])[1..] == a[1..] + [Join(b, sep)];
      assert (a + b)[1..] == a[1..] + b;
    }
  }

  /** The lines of the seed file. */
  function FileLines(es: seq<Entity>): seq<string> {
    Header(|es|) + Terminated(Rows(es))
  }

  lemma SqlTextLines(es: seq<Entity>)
    ensures SqlText(es) == Join(FileLines(es), "\n")
  {
    JoinRows(Rows(es));
    JoinAppend(Header(|es|), Terminated(Rows(es)), "\n");
  }

  /** Joined pieces without `c`, and a separator without it, have none. */
  lemma {:induction false} FreeJoin(parts: seq<string>, sep: string, c: char)
    requires Free(sep, c) && forall k :: 0 <= k < |parts| ==> Free(parts[k], c)
    ensures Free(Join(parts, sep), c)
  {
    if |parts| > 1 {
      FreeJoin(parts[1..], sep, c);
      FreeAppend(parts[0], sep, c);
      FreeAppend(parts[0] + sep, Join(parts[1..], sep), c);
    }
  }

  lemma {:induction false} QuotedAt(items: seq<string>)
    ensures forall k :: 0 <= k < |items| ==> Quoted(items)[k] == "\"" + items[k] + "\""
  {
    if items != [] {
      QuotedAt(items[1..]);
    }
  }

  /** Quoting and escaping add no newline. */
  lemma LiteralSingleLine(v: string)
    requires Free(v, '\n')
    ensures Free(Literal(v), '\n')
  {
    EscapeKeepsOut(v, '\n');
    FreeAppend([QUOTE], EscapeSql(v), '\n');
    FreeAppend([QUOTE] + EscapeSql(v), [QUOTE], '\n');
  }

  lemma ArraySingleLine(aliases: seq<string>)
    requires forall k :: 0 <= k < |aliases| ==> '\n' !in aliases[k]
    ensures Free(ArrayValue(aliases), '\n')
  {
    var q := Quoted(aliases);
    QuotedAt(aliases);
    forall k | 0 <= k < |q| ensures Free(q[k], '\n') {
      FreeAppend("\"", aliases[k], '\n');
      FreeAppend("\"" + aliases[k], "\"", '\n');
    }
    FreeJoin(q, ",", '\n');
    FreeAppend("{", Join(q, ","), '\n');
    FreeAppend("{" + Join(q, ","), "}", '\n');
  }

  lemma ReasonSingleLine()
    ensures Free(REASON, '\n')
  {
    assert Free(REASON_1, '\n') && Free(REASON_2, '\n');
    assert Free(REASON_3, '\n') && Free(REASON_4, '\n');
    FreeAppend(REASON_1, REASON_2, '\n');
    FreeAppend(REASON_1 + REASON_2, REASON_3, '\n');
    FreeAppend(REASON_1 + REASON_2 + REASON_3, REASON_4, '\n');
  }

  /** A row of an entity whose brand and aliases are single lines is a single line. */
  lemma RowSingleLine(e: Entity)
    requires SingleLine(e)
    ensures Free(Row(e), '\n')
  {
    var vs := Fields(e);
    ArraySingleLine(e.aliases);
    ReasonSingleLine();
    assert Free(CATEGORIES, '\n') && Free(ORIGINS, '\n') && Free(RISK, '\n');
    assert Free(SOURCES, '\n') && Free(LAST_UPDATED, '\n');
    CellsWriteFields(e);
    var cells := Cells(e);
    forall k | 0 <= k < 8 ensures Free(cells[k], '\n') {
      LiteralSingleLine(vs[k]);
    }
    FreeJoin(cells, ", ", '\n');
    FreeAppend("  (", Join(cells, ", "), '\n');
    FreeAppend("  (" + Join(cells, ", "), ")", '\n');
  }

  lemma TitlesSingleLine()
    ensures Free(TITLE, '\n') && Free(GENERATOR, '\n')
  {
    FreeAppend("-- UFLPA Entity List ", "(January 15, 2025)", '\n');
    FreeAppend("-- Generated by ", "scripts/seed_uflpa.py", '\n');
  }

  lemma InsertSingleLine()
    ensures Free(INSERT, '\n')
  {
    var i1 := "INSERT INTO companies " + "(brand, aliases, ";
    var i2 := i1 + "product_categories, ";
    var i3 := i2 + "countries_of_origin, ";
    var i4 := i3 + "risk_level, sources, ";
    FreeAppend("INSERT INTO companies ", "(brand, aliases, ", '\n');
    FreeAppend(i1, "product_categories, ", '\n');
    FreeAppend(i2, "countries_of_origin, ", '\n');
    FreeAppend(i3, "risk_level, sources, ", '\n');
    FreeAppend(i4, "reason, last_updated)", '\n');
  }

  lemma CountSingleLine(n: nat)
    ensures Free(CountLine(n), '\n')
  {
    DecimalRoundTrip(n);
    FreeAppend("-- ", Decimal(n), '\n');
    FreeAppend("-- " + Decimal(n), " entities", '\n');
  }

  lemma HeaderSingleLine(n: nat)
    ensures forall k :: 0 <= k < 6 ==> Free(Header(n)[k], '\n')
  {
    TitlesSingleLine();
    InsertSingleLine();
    CountSingleLine(n);
  }

  /** Line `6 + i` of the seed file is the row of entity `i` and its ending. */
  lemma FileLineAt(es: seq<Entity>, i: nat)
    requires i < |es|
    ensures FileLines(es)[6 + i] == Row(es[i]) + (if i == |es| - 1 then ";" else ",")
  {
    var rows := Rows(es);
    RowsAt(es);
    TerminatedAt(rows);
    LineAfter(Header(|es|), Terminated(rows), i);
  }

  lemma LineAfter(h: seq<string>, t: seq<string>, i: nat)
    requires |h| == 6 && i < |t|
    ensures (h + t)[6 + i] == t[i]
  {
  }

  /** Every line of the seed file is free of newlines when the entities are single lines. */
  lemma LinesSingleLine(es: seq<Entity>)
    requires forall i :: 0 <= i < |es| ==> SingleLine(es[i])
    ensures forall k :: 0 <= k < |FileLines(es)| ==> '\n' !in FileLines(es)[k]
  {
    forall k | 0 <= k < |FileLines(es)| ensures '\n' !in FileLines(es)[k] {
      if k < 6 {
        HeaderLineSingle(es, k);
      } else if es == [] {
        TerminatedAt(Rows(es));
        LineAfter(Header(|es|), Terminated(Rows(es)), 0);
      } else {
        RowLineSingle(es, k - 6);
      }
    }
  }

  lemma HeaderLineSingle(es: seq<Entity>, k: nat)
    requires k < 6
    ensures '\n' !in FileLines(es)[k]
  {
    HeaderSingleLine(|es|);
    LineBefore(Header(|es|), Terminated(Rows(es)), k);
    FreeNotIn(Header(|es|)[k], '\n');
  }

  lemma RowLineSingle(es: seq<Entity>, i: nat)
    requires i < |es| && SingleLine(es[i])
    ensures '\n' !in FileLines(es)[6 + i]
  {
    var e := es[i];
    FileLineAt(es, i);
    RowSingleLine(e);
    FreeAppend(Row(e), if i == |es| - 1 then ";" else ",", '\n');
    FreeNotIn(Row(e) + (if i == |es| - 1 then ";" else ","), '\n');
  }

  lemma LineBefore(h: seq<string>, t: seq<string>, k: nat)
    requires k < |h|
    ensures (h + t)[k] == h[k]
  {
  }

  lemma FreeNotIn(s: string, c: char)
    requires Free(s, c)
    ensures c !in s
  {
  }

  /** A row line: the row of the entity followed by "," or, on the last row, ";". */
  predicate RowLine(line: string, e: Entity, last: bool) {
    && |line| >= 1
    && line[|line| - 1] == (if last then ';' else ',')
    && ReadRow(line[..|line| - 1]) == Some(Fields(e))
  }

  /** Splitting the seed file at newlines gives back its lines. */
  lemma SplitLines(es: seq<Entity>)
    requires forall i :: 0 <= i < |es| ==> SingleLine(es[i])
    ensures Split(SqlText(es), '\n') == FileLines(es)
  {
    SqlTextLines(es);
    LinesSingleLine(es);
    SplitJoin(FileLines(es), '\n');
  }

  /** A row followed by its ending is a row line of its entity. */
  lemma RowLineOfRow(line: string, e: Entity, last: bool)
    requires line == Row(e) + (if last then ";" else ",")
    ensures RowLine(line, e, last)
  {
    assert line[..|line| - 1] == Row(e);
    RowReadsBack(e);
  }

  /** The line after the header for each entity. */
  lemma RowLines(es: seq<Entity>)
    ensures forall i :: 0 <= i < |es| ==> RowLine(FileLines(es)[6 + i], es[i], i == |es| - 1)
  {
    forall i | 0 <= i < |es| ensures RowLine(FileLines(es)[6 + i], es[i], i == |es| - 1) {
      FileLineAt(es, i);
      RowLineOfRow(FileLines(es)[6 + i], es[i], i == |es| - 1);
    }
  }

  /**
   * The lines of the seed file: the header with the count of entities on its
   * third line, then one line per entity in order, each reading back as that
   * entity's values; with no entities the only line after the header is ";".
   */
  lemma ScriptLines(es: seq<Entity>)
    requires forall i :: 0 <= i < |es| ==> SingleLine(es[i])
    ensures var lines := Split(SqlText(es), '\n');
      && |lines| == 6 + (if es == [] then 1 else |es|)
      && lines[..6] == Header(|es|)
      && ReadCount(lines[2]) == Some(|es|)
      && (es == [] ==> lines[6] == ";")
      && forall i :: 0 <= i < |es| ==> RowLine(lines[6 + i], es[i], i == |es| - 1)
  {
    var lines := FileLines(es);
    SplitLines(es);
    CountReadsBack(|es|);
    TerminatedAt(Rows(es));
    RowLines(es);
    assert lines[..6] == Header(|es|);
  }

  /**
   * `generate_sql`: the header lines, then every entity's row, joined by ",\n"
   * and closed by ";", all joined by newlines.
   */
  method GenerateSql(entities: seq<Entity>) returns (sql: string)
    ensures sql == SqlText(entities)
  {
    var lines := [TITLE, GENERATOR, "-- " + Decimal(|entities|) + " entities", "", INSERT, "VALUES"];
    assert lines == Header(|entities|);
    var rows: seq<string> := [];
    var i := 0;
    while i < |entities|
      invariant 0 <= i <= |entities|
      invariant rows == Rows(entities[..i])
    {
      RowsStep(entities, i);
      rows := rows + [Row(entities[i])];
      i := i + 1;
    }
    assert entities[..i] == entities;
    lines := lines + [Join(rows, ",\n") + ";"];
    sql := Join(lines, "\n");
  }

  /** The rows of one more entity are the rows so far and its row. */
  lemma RowsStep(es: seq<Entity>, i: nat)
    requires i < |es|
    ensures Rows(es[..i + 1]) == Rows(es[..i]) + [Row(es[i])]
  {
    assert es[..i + 1][..i] == es[..i];
  }
}
