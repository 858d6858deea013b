/**
 * `main` without its I/O: the extracted text of the notice goes in, the text of
 * the seed file comes out, or nothing when no entity was found.
 */
module Seed {
  import opened Wrappers
  import opened EntitySection
  import opened RawEntries
  import opened EntryParser
  import AliasPattern
  import opened Dedup
  import opened SqlFile
  import opened Text

  /** The unique entities `main` collects from the extracted text. */
  function Unique(fullText: string, clean: string -> string): seq<Entity> {
    KeepFirst(Parsed(AllRawEntries(GetEntityListText(fullText), clean), ParseEntry))
  }

  /** The unique entities have brands that differ once lower-cased, and none of them spans two lines. */
  lemma UniqueAreDistinct(fullText: string, clean: string -> string)
    ensures var r := Unique(fullText, clean);
      && (forall i, j :: 0 <= i < j < |r| ==> Key(r[i]) != Key(r[j]))
      && (forall i :: 0 <= i < |r| ==> SingleLine(r[i]))
  {
    var raws := AllRawEntries(GetEntityListText(fullText), clean);
    assert Unique(fullText, clean) == KeepFirst(Parsed(raws, ParseEntry));
    KeysDistinct(Parsed(raws, ParseEntry));
    KeptAreSingleLine(raws);
  }

  /** What `main` writes: nothing when no entity was found, otherwise the SQL of the unique entities. */
  function SeedOutput(fullText: string, clean: string -> string): Option<string> {
    var es := Unique(fullText, clean);
    if es == [] then None else Some(SqlText(es))
  }

  /**
   * `main` after the download and the text extraction: the entity section, its
   * raw entries, the unique entities, and the SQL when there is at least one.
   */
  method SeedSql(fullText: string, clean: string -> string) returns (sql: Option<string>)
    ensures sql == SeedOutput(fullText, clean)
  {
    var entityText := GetEntityListText(fullText);
    var raws := SplitIntoRawEntries(entityText, clean);
    var entities := UniqueEntities(raws);
    if entities == [] {
      return None;
    }
    var text := GenerateSql(entities);
    sql := Some(text);
  }

  /** Every kept entity came out of `parse_entry`, so none spans two lines. */
  lemma KeptAreSingleLine(raws: seq<RawEntry>)
    ensures var es := KeepFirst(Parsed(raws, ParseEntry));
      forall i :: 0 <= i < |es| ==> SingleLine(es[i])
  {
    var ps := Parsed(raws, ParseEntry);
    var es := KeepFirst(ps);
    ParsedAreParses(raws, ParseEntry);
    FirstOccurrencesKept(ps);
    forall i | 0 <= i < |es| ensures SingleLine(es[i]) {
      assert es[i] in es;
      var j :| 0 <= j < |ps| && ps[j] == es[i] && FirstOfKey(ps, j);
      assert ps[j] in ps;
      var k :| 0 <= k < |raws| && ParseEntry(raws[k].text) == Some(es[i]);
      ParsedIsSingleLine(raws[k].text, AliasPattern.AsWritten);
    }
  }

  /** The seed file of a non-empty list of single-line entities, line by line. */
  predicate FileShape(sql: string, es: seq<Entity>) {
    var lines := Split(sql, '\n');
    && |lines| == 6 + |es|
    && ReadCount(lines[2]) == Some(|es|)
    && forall i :: 0 <= i < |es| ==> RowLine(lines[6 + i], es[i], i == |es| - 1)
  }

  lemma FileOfEntities(es: seq<Entity>)
    requires es != [] && forall i :: 0 <= i < |es| ==> SingleLine(es[i])
    ensures FileShape(SqlText(es), es)
  {
    ScriptLines(es);
  }

  /**
   * The seed file, when there is one, holds the six header lines with the number
   * of unique entities on the third, then one row line per entity that reads back
   * as that entity's values; the entities have distinct lower-cased brands.
   * There is no file exactly when no entity was found.
   */
  lemma SeedFileShape(fullText: string, clean: string -> string)
    ensures var es := Unique(fullText, clean);
      var out := SeedOutput(fullText, clean);
      && (out.None? <==> es == [])
      && (out.Some? ==> FileShape(out.value, es))
      && forall i, j :: 0 <= i < j < |es| ==> Key(es[i]) != Key(es[j])
  {
    var raws := AllRawEntries(GetEntityListText(fullText), clean);
    var es := Unique(fullText, clean);
    assert es == KeepFirst(Parsed(raws, ParseEntry));
    KeysDistinct(Parsed(raws, ParseEntry));
    KeptAreSingleLine(raws);
    if es != [] {
      FileOfEntities(es);
    }
  }
}
