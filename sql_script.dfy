/**
 * `escape_sql` and `generate_sql`: the parsed entities become one SQL script, a
 * commented header followed by a single INSERT statement with one row per
 * entity.
 */
module SqlScript {
  import opened Wrappers
  import opened Text
  import opened EntryParser

  const QUOTE: char := '\''

  /** One character as `escape_sql` writes it. */
  function EscapeChar(c: char): string {
    if c == QUOTE then [QUOTE, QUOTE] else [c]
  }

  /** `s.replace("'", "''")`: every single quote is doubled, nothing else changes. */
  function EscapeSql(s: string): string {
    if s == [] then [] else EscapeChar(s[0]) + EscapeSql(s[1..])
  }

  /** The escaped text is longer by exactly the number of quotes. */
  lemma {:induction false} EscapeLength(s: string)
    ensures |EscapeSql(s)| == |s| + multiset(s)[QUOTE]
  {
    if s != [] {
      EscapeLength(s[1..]);
      assert s == [s[0]] + s[1..];
    }
  }

  /** Escaping works piece by piece. */
  lemma {:induction false} EscapeAppend(a: string, b: string)
    ensures EscapeSql(a + b) == EscapeSql(a) + EscapeSql(b)
  {
    if a != [] {
      assert (a + b)[0] == a[0];
      assert (a + b)[1..] == a[1..] + b;
      EscapeAppend(a[1..], b);
      calc {
        EscapeSql(a + b);
        EscapeChar(a[0]) + EscapeSql(a[1..] + b);
        EscapeChar(a[0]) + (EscapeSql(a[1..]) + EscapeSql(b));
        (EscapeChar(a[0]) + EscapeSql(a[1..])) + EscapeSql(b);
      }
    } else {
      assert a + b == b;
    }
  }

  /** No character of `s` is `c`. */
  predicate Free(s: string, c: char) {
    forall k :: 0 <= k < |s| ==> s[k] != c
  }

  lemma FreeAppend(a: string, b: string, c: char)
    requires Free(a, c) && Free(b, c)
    ensures Free(a + b, c)
  {
    forall k | 0 <= k < |a + b| ensures (a + b)[k] != c {
      if k < |a| {
        assert (a + b)[k] == a[k];
      } else {
        assert (a + b)[k] == b[k - |a|];
      }
    }
  }

  /** A text without single quotes is its own escape. */
  lemma {:induction false} EscapeWithoutQuote(s: string)
    requires Free(s, QUOTE)
    ensures EscapeSql(s) == s
  {
    if s != [] {
      assert Free(s[1..], QUOTE) by {
        forall k | 0 <= k < |s[1..]| ensures s[1..][k] != QUOTE {
          assert s[1..][k] == s[k + 1];
        }
      }
      EscapeWithoutQuote(s[1..]);
    }
  }

  /** Escaping adds no character other than the quote. */
  lemma {:induction false} EscapeKeepsOut(s: string, c: char)
    requires c != QUOTE
    ensures c in EscapeSql(s) <==> c in s
  {
    if s != [] {
      EscapeKeepsOut(s[1..], c);
      assert s == [s[0]] + s[1..];
    }
  }

  /**
   * How SQL reads the body of a quoted literal: up to the first single quote that
   * is not doubled, each doubled quote standing for one. The result is the value
   * and the text after the closing quote; nothing when the literal is not closed.
   */
  function ReadLiteral(t: string): (r: Option<(string, string)>)
    ensures r.Some? ==> |r.value.1| < |t|
    decreases |t|
  {
    if t == [] then None
    else if t[0] == QUOTE then
      if |t| >= 2 && t[1] == QUOTE then
        match ReadLiteral(t[2..])
        case None => None
        case Some((v, rest)) => Some(([QUOTE] + v, rest))
      else Some(([], t[1..]))
    else
      match ReadLiteral(t[1..])
      case None => None
      case Some((v, rest)) => Some(([t[0]] + v, rest))
  }

  /**
   * The round trip of `escape_sql`: an escaped text followed by a closing quote
   * reads back as the original text, and reading stops at that quote.
   */
  lemma {:induction false} ReadEscaped(s: string, rest: string)
    requires rest == [] || rest[0] != QUOTE
    ensures ReadLiteral(EscapeSql(s) + [QUOTE] + rest) == Some((s, rest))
  {
    if s == [] {
      assert EscapeSql(s) + [QUOTE] + rest == [QUOTE] + rest;
    } else {
      ReadEscaped(s[1..], rest);
      var u := EscapeSql(s[1..]) + [QUOTE] + rest;
      assert s == [s[0]] + s[1..];
      if s[0] == QUOTE {
        assert EscapeSql(s) + [QUOTE] + rest == [QUOTE, QUOTE] + u;
        ReadDoubled(u);
      } else {
        assert EscapeSql(s) + [QUOTE] + rest == [s[0]] + u;
        ReadPlain(s[0], u);
      }
    }
  }

  /** A doubled quote reads as one quote of the value. */
  lemma ReadDoubled(u: string)
    ensures ReadLiteral([QUOTE, QUOTE] + u) ==
      match ReadLiteral(u)
      case None => None
      case Some((v, rest)) => Some(([QUOTE] + v, rest))
  {
    assert ([QUOTE, QUOTE] + u)[2..] == u;
  }

  /** Any other character reads as itself. */
  lemma ReadPlain(c: char, u: string)
    requires c != QUOTE
    ensures ReadLiteral([c] + u) ==
      match ReadLiteral(u)
      case None => None
      case Some((v, rest)) => Some(([c] + v, rest))
  {
    assert ([c] + u)[1..] == u;
  }

  /** A text between single quotes. */
  function Quote(s: string): string {
    [QUOTE] + s + [QUOTE]
  }

  /** A value written as a SQL string literal. */
  function Literal(v: string): string {
    Quote(EscapeSql(v))
  }

  /** `cells` are the values `vs` written as literals, one for one. */
  predicate WritesValues(cells: seq<string>, vs: seq<string>) {
    |cells| == |vs| && forall k :: 0 <= k < |cells| ==> cells[k] == Literal(vs[k])
  }

  /**
   * How SQL reads the values of a row: string literals separated by ", " up to
   * the closing ")". Nothing when the text has another shape.
   */
  function ReadTuple(t: string): (r: Option<seq<string>>)
    decreases |t|
  {
    if t == [] || t[0] != QUOTE then None
    else
      match ReadLiteral(t[1..])
      case None => None
      case Some((v, rest)) =>
        if |rest| == 1 && rest[0] == ')' then Some([v])
        else if |rest| >= 2 && rest[0] == ',' && rest[1] == ' ' then
          match ReadTuple(rest[2..])
          case None => None
          case Some(vs) => Some([v] + vs)
        else None
  }

  /** Past the opening quote of a literal come its body, the closing quote and the rest. */
  lemma QuotedTail(body: string, tail: string)
    ensures ([QUOTE] + body + [QUOTE] + tail)[0] == QUOTE
    ensures ([QUOTE] + body + [QUOTE] + tail)[1..] == body + [QUOTE] + tail
  {
  }

  /** A row whose first literal reads as `v` continues with whatever follows that literal. */
  lemma ReadTupleFirst(t: string, v: string, tail: string)
    requires t != [] && t[0] == QUOTE && ReadLiteral(t[1..]) == Some((v, tail))
    requires (|tail| == 1 && tail[0] == ')') || (|tail| >= 2 && tail[0] == ',' && tail[1] == ' ')
    ensures ReadTuple(t) ==
      if |tail| == 1 then Some([v])
      else match ReadTuple(tail[2..]) case None => None case Some(vs) => Some([v] + vs)
  {
  }

  /** A literal followed by ")" or ", " is read as one value, then the rest of the row. */
  lemma ReadLiteralThen(v: string, tail: string)
    requires (|tail| == 1 && tail[0] == ')') || (|tail| >= 2 && tail[0] == ',' && tail[1] == ' ')
    ensures ReadTuple(Literal(v) + tail) ==
      if |tail| == 1 then Some([v])
      else match ReadTuple(tail[2..]) case None => None case Some(vs) => Some([v] + vs)
  {
    QuotedTail(EscapeSql(v), tail);
    ReadEscaped(v, tail);
    ReadTupleFirst(Literal(v) + tail, v, tail);
  }

  /**
   * Any non-empty list of values, written as literals separated by ", " and closed
   * by ")", reads back as itself.
   */
  lemma {:induction false} TupleRoundTrip(cells: seq<string>, vs: seq<string>)
    requires |vs| >= 1 && WritesValues(cells, vs)
    ensures ReadTuple(Join(cells, ", ") + ")") == Some(vs)
  {
    if |vs| == 1 {
      ReadLiteralThen(vs[0], ")");
      assert [vs[0]] == vs;
    } else {
      var rest := Join(cells[1..], ", ") + ")";
      var tail := ", " + rest;
      assert Join(cells, ", ") + ")" == Literal(vs[0]) + tail;
      ReadLiteralThen(vs[0], tail);
      assert tail[2..] == rest;
      assert WritesValues(cells[1..], vs[1..]) by {
        forall k | 0 <= k < |cells| - 1 ensures cells[1..][k] == Literal(vs[1..][k]) {
          assert cells[1..][k] == cells[k + 1];
        }
      }
      TupleRoundTrip(cells[1..], vs[1..]);
      assert [vs[0]] + vs[1..] == vs;
    }
  }

  /** A generated row: two spaces, "(" and its values. */
  function ReadRow(line: string): Option<seq<string>> {
    if |line| >= 3 && line[0] == ' ' && line[1] == ' ' && line[2] == '(' then ReadTuple(line[3..]) else None
  }

  /** The fixed reason of every row, written in pieces short enough to inspect character by character. */
  const REASON_1 := "Listed on UFLPA Entity List. "
  const REASON_2 := "Subject to rebuttable "
  const REASON_3 := "presumption of forced labor "
  const REASON_4 := "under 19 U.S.C. \U{00A7} 1307."
  const REASON := REASON_1 + REASON_2 + REASON_3 + REASON_4

  /** Each item in double quotes, as the elements of a PostgreSQL array literal. */
  function Quoted(items: seq<string>): (r: seq<string>)
    ensures |r| == |items|
  {
    if items == [] then [] else ["\"" + items[0] + "\""] + Quoted(items[1..])
  }

  function EscapeAll(items: seq<string>): (r: seq<string>)
    ensures |r| == |items|
  {
    if items == [] then [] else [EscapeSql(items[0])] + EscapeAll(items[1..])
  }

  /** The array of aliases the database stores: `{"a","b"}`. */
  function ArrayValue(aliases: seq<string>): string {
    "{" + Join(Quoted(aliases), ",") + "}"
  }

  /** The alias column as the row writes it: each alias escaped inside its double quotes. */
  function AliasField(aliases: seq<string>): string {
    "{" + Join(Quoted(EscapeAll(aliases)), ",") + "}"
  }

  /** The fixed values of every row. */
  const CATEGORIES := "{\"general\"}"
  const ORIGINS := "{\"CN\"}"
  const RISK := "high"
  const SOURCES := "{\"UFLPA\"}"
  const LAST_UPDATED := "2025-01-15"

  /**
   * The eight quoted cells of a row, as the row's format string spells them, given
   * the brand, alias and reason text put into it.
   */
  function RowCells(brand: string, aliases: string, reason: string): seq<string> {
    [Quote(brand), Quote(aliases), Quote(CATEGORIES), Quote(ORIGINS),
     Quote(RISK), Quote(SOURCES), Quote(reason), Quote(LAST_UPDATED)]
  }

  /** The values of a row in column order, given its brand, alias array and reason. */
  function RowFields(brand: string, aliases: string, reason: string): (r: seq<string>)
    ensures |r| == 8
  {
    [brand, aliases, CATEGORIES, ORIGINS, RISK, SOURCES, reason, LAST_UPDATED]
  }

  /** The cells of an entity's row: brand and reason escaped, each alias escaped in the array. */
  function Cells(e: Entity): seq<string> {
    RowCells(EscapeSql(e.brand), AliasField(e.aliases), EscapeSql(REASON))
  }

  /** One row of the INSERT statement. */
  function Row(e: Entity): string {
    "  (" + Join(Cells(e), ", ") + ")"
  }

  /** The values a row stores, in column order. */
  function Fields(e: Entity): (r: seq<string>)
    ensures |r| == 8
  {
    RowFields(e.brand, ArrayValue(e.aliases), REASON)
  }

  /** Escaping the joined list equals joining the escaped items. */
  lemma {:induction false} EscapeJoinQuoted(items: seq<string>)
    ensures EscapeSql(Join(Quoted(items), ",")) == Join(Quoted(EscapeAll(items)), ",")
  {
    if items != [] {
      var q := "\"" + items[0] + "\"";
      EscapeAppend("\"", items[0]);
      EscapeAppend("\"" + items[0], "\"");
      EscapeWithoutQuote("\"");
      assert EscapeSql(q) == "\"" + EscapeSql(items[0]) + "\"";
      if |items| > 1 {
        EscapeJoinQuoted(items[1..]);
        assert Quoted(items)[1..] == Quoted(items[1..]);
        assert Quoted(EscapeAll(items))[1..] == Quoted(EscapeAll(items)[1..]);
        assert EscapeAll(items)[1..] == EscapeAll(items[1..]);
        var j := Join(Quoted(items[1..]), ",");
        EscapeAppend(q + ",", j);
        EscapeAppend(q, ",");
        EscapeWithoutQuote(",");
      }
    }
  }

  /** The alias column is the escaped array value, so SQL stores the aliases unescaped. */
  lemma AliasFieldEscapes(aliases: seq<string>)
    ensures AliasField(aliases) == EscapeSql(ArrayValue(aliases))
  {
    var j := Join(Quoted(aliases), ",");
    EscapeJoinQuoted(aliases);
    EscapeAppend("{" + j, "}");
    EscapeAppend("{", j);
    EscapeWithoutQuote("{");
    EscapeWithoutQuote("}");
  }

  /** The fixed values hold no single quote. */
  lemma ConstantsFree()
    ensures Free(CATEGORIES, QUOTE) && Free(ORIGINS, QUOTE) && Free(RISK, QUOTE)
    ensures Free(SOURCES, QUOTE) && Free(LAST_UPDATED, QUOTE)
  {
  }

  /** A cell that quotes a value without single quotes writes that value. */
  lemma QuotedCell(cells: seq<string>, vs: seq<string>, k: nat, c: string)
    requires k < |cells| && k < |vs| && cells[k] == Quote(c) && vs[k] == c && Free(c, QUOTE)
    ensures cells[k] == Literal(vs[k])
  {
    EscapeWithoutQuote(c);
  }

  /** Eight cells that each write their value. */
  lemma WritesEight(cells: seq<string>, vs: seq<string>)
    requires |cells| == 8 && |vs| == 8
    requires cells[0] == Literal(vs[0]) && cells[1] == Literal(vs[1])
    requires cells[2] == Literal(vs[2]) && cells[3] == Literal(vs[3])
    requires cells[4] == Literal(vs[4]) && cells[5] == Literal(vs[5])
    requires cells[6] == Literal(vs[6]) && cells[7] == Literal(vs[7])
    ensures WritesValues(cells, vs)
  {
  }

  /** The fixed cells need no escaping. */
  lemma FixedCells(b: string, a: string, r: string, vb: string, va: string, vr: string)
    ensures var cells, vs := RowCells(b, a, r), RowFields(vb, va, vr);
      && cells[2] == Literal(vs[2]) && cells[3] == Literal(vs[3]) && cells[4] == Literal(vs[4])
      && cells[5] == Literal(vs[5]) && cells[7] == Literal(vs[7])
  {
    var cells, vs := RowCells(b, a, r), RowFields(vb, va, vr);
    ConstantsFree();
    assert cells[2] == Quote(CATEGORIES) && vs[2] == CATEGORIES;
    assert cells[3] == Quote(ORIGINS) && vs[3] == ORIGINS;
    assert cells[4] == Quote(RISK) && vs[4] == RISK;
    assert cells[5] == Quote(SOURCES) && vs[5] == SOURCES;
    assert cells[7] == Quote(LAST_UPDATED) && vs[7] == LAST_UPDATED;
    QuotedCell(cells, vs, 2, CATEGORIES);
    QuotedCell(cells, vs, 3, ORIGINS);
    QuotedCell(cells, vs, 4, RISK);
    QuotedCell(cells, vs, 5, SOURCES);
    QuotedCell(cells, vs, 7, LAST_UPDATED);
  }

  /** Cells holding the escaped brand, alias array and reason write the row's values. */
  lemma RowCellsWrite(vb: string, va: string, vr: string, a: string)
    requires a == EscapeSql(va)
    ensures WritesValues(RowCells(EscapeSql(vb), a, EscapeSql(vr)), RowFields(vb, va, vr))
  {
    var cells, vs := RowCells(EscapeSql(vb), a, EscapeSql(vr)), RowFields(vb, va, vr);
    FixedCells(EscapeSql(vb), a, EscapeSql(vr), vb, va, vr);
    assert cells[0] == Literal(vs[0]) && cells[1] == Literal(vs[1]) && cells[6] == Literal(vs[6]);
    WritesEight(cells, vs);
  }

  /** The cells of a row are the literals of its values. */
  lemma CellsWriteFields(e: Entity)
    ensures WritesValues(Cells(e), Fields(e))
  {
    AliasFieldEscapes(e.aliases);
    RowCellsWrite(e.brand, ArrayValue(e.aliases), REASON, AliasField(e.aliases));
  }

  /**
   * Every row reads back, column by column, as the entity's brand, its aliases as
   * an array, the fixed category "general", origin "CN", risk "high", source
   * "UFLPA", the fixed reason and the date 2025-01-15.
   */
  lemma RowReadsBack(e: Entity)
    ensures ReadRow(Row(e)) == Some(Fields(e))
  {
    CellsWriteFields(e);
    TupleRoundTrip(Cells(e), Fields(e));
    var t := Join(Cells(e), ", ") + ")";
    assert Row(e) == "  (" + t;
    assert Row(e)[3..] == t;
  }
}
