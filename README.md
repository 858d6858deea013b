# UFLPA seed script, modelled in Dafny

`scripts/seed_uflpa.py` turns the extracted text of the Federal Register notice
that publishes the UFLPA Entity List into the SQL seed file for the `companies`
table. This project models the text pipeline of that script and proves what
each stage guarantees:

- `get_entity_list_text` (module `EntitySection`) keeps the text from the last
  "Appendix 1" on;
- `split_into_raw_entries` (module `RawEntries`) cuts the section into raw
  entries: one per non-empty bullet chunk, then the entries of the consolidated
  list, which a line-by-line state machine with a pending `current` entry
  gathers;
- `parse_entry` (module `EntryParser`, with the alias regex in `AliasPattern`)
  normalises whitespace, separates the brand from a parenthesised alias list,
  drops short names and requires a company keyword;
- the de-duplication loop of `main` (module `Dedup`) keeps the first entity of
  each lower-cased brand;
- `escape_sql` and `generate_sql` (modules `SqlScript` and `SqlFile`) write the
  header and one fixed-shape row per entity;
- module `Seed` chains these as `main` does, minus the download, the PDF
  extraction and the file write.

The Python string and regex primitives the script relies on are written out in
module `Text`: `str.strip`/`lstrip`/`rstrip`, `re.sub(r'\s+', ' ', s)`,
`str.split`/`str.join`, `str.lower`, and literal and case-insensitive searches.
The regexes are modelled concretely, position by position. The alias pattern
includes its backtracking over the optional `:` and `\s*`; the separator regex
of the alias list, the heading and continuation regexes of the list part, and
the keyword searches are modelled too.

The loops of the source are methods with `while` loops:

- `RawEntries.CollectBullets` (the loop over the bullet pieces) and
  `RawEntries.CollectListed` (the loop over the lines of the list part);
- `Dedup.UniqueEntities` (the de-duplication loop of `main`);
- `SqlFile.GenerateSql` (the loop over the entities).

`RawEntries.SplitIntoRawEntries` and `Seed.SeedSql` are methods without a loop
of their own: they call the loop methods in the order the script does. Each
method is proved equal to a function. The properties of the source are proved
about those functions as lemmas.

A generated file is checked by reading it back. `SqlScript.ReadLiteral` and
`SqlScript.ReadTuple` read a row the way SQL reads string literals. Every row
is proved to read back as the entity's values, so `escape_sql` is proved to be
undone by the reader. `SqlFile.ReadCount` reads the count line.

## Model

| member | source | states |
|---|---|---|
| Text.LowerStr | scripts/seed_uflpa.py:198 | `lower()` keeps the length, turns every upper-case letter into a lower-case one and keeps every other character, so no upper-case letter remains |
| Text.SameLower | scripts/seed_uflpa.py:198-199 | two brands give the same key exactly when they have the same length and agree character by character once lower-cased |
| Text.LowerStrIdempotent | scripts/seed_uflpa.py:198 | lower-casing a lower-cased text changes nothing |
| Text.Strip | scripts/seed_uflpa.py:130 | the result is a slice of the input that starts and ends outside the stripped class |
| Text.StripRemovesClass | scripts/seed_uflpa.py:130 | everything `strip` removes, at both ends, belongs to the stripped class |
| Text.LStripRemovesClass | scripts/seed_uflpa.py:130 | what `lstrip` removes belongs to the class |
| Text.RStripRemovesClass | scripts/seed_uflpa.py:134-136 | what `rstrip` removes belongs to the class |
| Text.RStrip | scripts/seed_uflpa.py:134-136 | `rstrip` yields a prefix that does not end in the class |
| Text.LStrip | scripts/seed_uflpa.py:130 | `lstrip` yields a suffix that does not start in the class |
| Text.NormalizeSpace | scripts/seed_uflpa.py:68 | `re.sub(r'\s+', ' ', s).strip()` has no whitespace runs, no whitespace at either end, and the same non-whitespace characters in order |
| Text.Collapse | scripts/seed_uflpa.py:120 | `re.sub(r'\s+', ' ', s)` leaves no run of whitespace and keeps whether the text starts with whitespace |
| Text.CollapseVisible | scripts/seed_uflpa.py:120 | collapsing whitespace keeps every non-whitespace character, in order |
| Text.CollapseIsSqueeze | scripts/seed_uflpa.py:120 | `re.sub(r'\s+', ' ', s)` equals the reference that turns every whitespace character into a space and drops it when the next one is whitespace too: each run becomes exactly one space, so words stay separated |
| Text.NormalizeSpaceNormalized | scripts/seed_uflpa.py:120 | collapse then strip is normalized and keeps the visible characters |
| Text.NormalizeFixpoint | scripts/seed_uflpa.py:138 | normalizing an already normalized brand changes nothing |
| Text.CollapseFixpoint | scripts/seed_uflpa.py:138 | collapsing a text without whitespace runs changes nothing |
| Text.StripPrefixOfNormalized | scripts/seed_uflpa.py:134 | stripping a prefix of a normalized text gives a normalized prefix |
| Text.Split | scripts/seed_uflpa.py:65 | `str.split(c)` gives at least one piece, and no piece holds `c` |
| Text.JoinSplit | scripts/seed_uflpa.py:65 | joining the pieces of a split with the separator gives the text back |
| Text.SplitJoin | scripts/seed_uflpa.py:178 | splitting a join of pieces free of the separator gives the pieces back |
| Text.SplitAfterPiece | scripts/seed_uflpa.py:65-66 | text before the first separator becomes the first piece, and the rest splits on its own |
| Text.SplitWithout | scripts/seed_uflpa.py:65 | a text without the separator splits into itself alone |
| EntitySection.RFindFrom | scripts/seed_uflpa.py:36 | the found index is an occurrence and no later index up to the bound is one; nothing found means no occurrence up to the bound |
| EntitySection.RFind | scripts/seed_uflpa.py:36-37 | `rfind` returns the last occurrence, and -1 exactly when the marker is absent |
| EntitySection.OccursInSuffix | scripts/seed_uflpa.py:41 | an occurrence in `s[i:]` is an occurrence in `s` shifted by `i`, and back |
| EntitySection.GetEntityListText | scripts/seed_uflpa.py:35-41 | without "Appendix 1" the text is returned whole; otherwise the result is a suffix that starts with the marker and has no later copy of it |
| AliasPattern.WordEnd | scripts/seed_uflpa.py:10 | `\w+` consumes the maximal run of word characters |
| AliasPattern.SpaceEnd | scripts/seed_uflpa.py:10 | `\s*` consumes the maximal run of whitespace |
| AliasPattern.CloseParen | scripts/seed_uflpa.py:10 | `[^)]+\)` stops at the first `)` after the keyword; none found means no `)` remains |
| AliasPattern.Keyword | scripts/seed_uflpa.py:10 | at `j` (just after the `(`), "also known as" and "formerly known as" (case ignored) always match and end right after the keyword with nothing optional; otherwise a match is "including ", a maximal non-empty run of word characters, then " aliase" as written or " alias" as intended, with the optional ending "s" or "es" |
| AliasPattern.CaptureStart | scripts/seed_uflpa.py:10 | the captured alias list starts after the keyword and before the closing `)` |
| AliasPattern.MatchAt | scripts/seed_uflpa.py:9-12 | a match at `i` starts with `(` and captures a non-empty run without `)` that ends just before a `)` |
| AliasPattern.NoMatchExtends | scripts/seed_uflpa.py:125 | no match at `i` and none after `i` up to `k` means no match from `i` up to `k` |
| AliasPattern.SearchFrom | scripts/seed_uflpa.py:125 | the leftmost start index, from `i` on, at which the pattern matches; nothing when no index matches |
| AliasPattern.Search | scripts/seed_uflpa.py:125 | `ALIAS_PATTERN.search` returns the match at the leftmost index that matches, and nothing when no index does |
| AliasPattern.SearchFindsFirst | scripts/seed_uflpa.py:125 | a match with no match before it is the one the search returns |
| AliasPattern.NoMatchWithoutParen | scripts/seed_uflpa.py:10 | no match starts at a character other than `(` |
| AliasPattern.NoMatchBeforeParen | scripts/seed_uflpa.py:125 | no match starts before the first `(` |
| AliasPattern.KeywordOfOpening | scripts/seed_uflpa.py:10 | after "(including one alias: " the written keyword alternative fails and the intended one ends before the ":" |
| AliasPattern.NoMatchAtOpening | scripts/seed_uflpa.py:9-12 | as written, the pattern does not match at the `(` of "(including one alias: " |
| AliasPattern.CloseAfterOpening | scripts/seed_uflpa.py:10 | the closing `)` found after that opening is the one right after the name |
| AliasPattern.CaptureAfterOpening | scripts/seed_uflpa.py:10 | after `: ` the capture starts at the name |
| AliasPattern.MatchOfOpening | scripts/seed_uflpa.py:9-12 | with the intended wording, "(including one alias: NAME)" matches and captures exactly NAME |
| AliasPattern.SingularAliasMissed | scripts/seed_uflpa.py:9-12 | with the pattern as written, a text whose only parenthesis opens "(including one alias: " has no match |
| AliasPattern.SingularAliasFound | scripts/seed_uflpa.py:9-12 | with `alias(?:es)?`, the same text matches at that parenthesis and captures exactly the name |
| AliasPattern.SeparatorAt | scripts/seed_uflpa.py:128 | a separator match starts at `;`, `,` or whitespace and consumes at least one character |
| AliasPattern.SplitFrom | scripts/seed_uflpa.py:128 | the pieces of `re.split` from a position are at least one, and each is a slice of the text |
| AliasPattern.SplitAliases | scripts/seed_uflpa.py:128 | `re.split` of the alias list gives at least one piece, each a slice of the list |
| EntryParser.CleanAlias | scripts/seed_uflpa.py:130 | `p.strip().strip(";,").strip()` is a slice of `p` with no whitespace at either end |
| EntryParser.KeepAliases | scripts/seed_uflpa.py:129-133 | the comprehension keeps at most one alias per piece |
| EntryParser.KeepAliasesAppend | scripts/seed_uflpa.py:129-133 | the comprehension works piece by piece: the aliases of two runs of pieces are the aliases of each, in order |
| EntryParser.KeepAliasesOne | scripts/seed_uflpa.py:131-132 | one piece contributes its cleaned form exactly when it is longer than 3 once stripped, and nothing otherwise |
| EntryParser.LongPiecesKept | scripts/seed_uflpa.py:129-133 | the cleaned form of every piece longer than 3 once stripped is among the aliases |
| EntryParser.Trim | scripts/seed_uflpa.py:134-136 | strip, rstrip of the given characters, then strip gives a normalized text |
| EntryParser.HasBrandKeyword | scripts/seed_uflpa.py:144-147 | a brand qualifies when it contains one of the company words, case ignored |
| EntryParser.Aliases | scripts/seed_uflpa.py:124-133 | aliases exist only when the alias pattern, in the given wording, matched |
| EntryParser.Brand | scripts/seed_uflpa.py:134-138 | the brand, before or without the alias list, is normalized |
| EntryParser.ParseWith | scripts/seed_uflpa.py:119-149 | a result exists exactly when the normalized input has at least 5 characters and its brand has at least 5 characters and a company word (case ignored); the brand is normalized, and brand and aliases are those of the normalized input |
| EntryParser.ParseEntry | scripts/seed_uflpa.py:9-12 | `parse_entry` as the script runs it: `ParseWith` with the alias pattern as written |
| EntryParser.TrimPrefix | scripts/seed_uflpa.py:134 | trimming a prefix of a normalized text keeps a prefix no longer than it |
| EntryParser.BrandPrefix | scripts/seed_uflpa.py:134-138 | the brand is a prefix of the normalized text and, when the pattern matched, ends before the match |
| EntryParser.BrandIsPrefix | scripts/seed_uflpa.py:134-138 | a parsed brand is a prefix of the normalized input and ends before the alias match |
| EntryParser.KeptAliasesFromLongPieces | scripts/seed_uflpa.py:129-133 | each kept alias is the cleaned form of a piece whose stripped length is greater than 3 |
| EntryParser.KeptAliasesWithin | scripts/seed_uflpa.py:129-133 | kept aliases are slices of any text all the pieces are slices of |
| EntryParser.AliasesFromMatch | scripts/seed_uflpa.py:124-133 | aliases exist only when the pattern matched; each lies in the captured list and comes from a piece longer than 3 once stripped |
| EntryParser.KeptAliasesTrimmedSlices | scripts/seed_uflpa.py:127-133 | the aliases of a captured slice are slices of the text with no whitespace at their ends |
| EntryParser.AliasesTrimmedSlices | scripts/seed_uflpa.py:124-133 | every alias is a slice of the normalized input with no whitespace at its ends |
| EntryParser.NormalizedHasNoNewline | scripts/seed_uflpa.py:120 | a normalized text holds no newline |
| EntryParser.ParsedIsSingleLine | scripts/seed_uflpa.py:120-149 | neither the brand nor any alias of a parsed entry holds a newline |
| RawEntries.CutFrom | scripts/seed_uflpa.py:70 | the prefix before the first section word at or after `i`, and a section word starts right after it |
| RawEntries.CutAtSectionWord | scripts/seed_uflpa.py:70 | `re.split(...)[0]` is the prefix before the first of "This update also", "UFLPA Section", "Appendix" |
| RawEntries.ChunkIsClean | scripts/seed_uflpa.py:68-70 | a chunk is normalized and holds none of the section words |
| RawEntries.Chunks | scripts/seed_uflpa.py:66-70 | one chunk per piece |
| RawEntries.NonEmpty | scripts/seed_uflpa.py:71-72 | at most one entry per chunk |
| RawEntries.NonEmptyAppend | scripts/seed_uflpa.py:66-72 | the entries of two runs of chunks are the entries of each, in order |
| RawEntries.BulletsAppend | scripts/seed_uflpa.py:66-72 | the bullet entries of two runs of pieces are those of each, in order |
| RawEntries.BulletOfOnePiece | scripts/seed_uflpa.py:68-72 | one piece yields one entry exactly when its chunk is non-empty |
| RawEntries.NonEmptyIsClean | scripts/seed_uflpa.py:68-72 | every bullet entry is tagged bullet, non-empty, normalized and free of section words |
| RawEntries.NonEmptyMembers | scripts/seed_uflpa.py:71-72 | the entries are exactly the non-empty chunks |
| RawEntries.BulletsAreChunks | scripts/seed_uflpa.py:65-72 | every non-empty chunk gives an entry, and every entry is some piece's non-empty chunk |
| RawEntries.PreambleIgnored | scripts/seed_uflpa.py:65-66 | text before the first bullet changes no bullet entry |
| RawEntries.NoBulletNoEntries | scripts/seed_uflpa.py:65-66 | a text without a bullet has no bullet entry |
| RawEntries.FindListFrom | scripts/seed_uflpa.py:76-79 | the leftmost list heading from `i` on; none found means there is none |
| RawEntries.FindList | scripts/seed_uflpa.py:76-80 | `re.search` of the list heading gives its leftmost position, and nothing exactly when there is none |
| RawEntries.IsHeaderLine | scripts/seed_uflpa.py:88-91 | a heading line starts with one of the seven heading phrases or with "Section " and a digit, case ignored |
| RawEntries.IsNewEntryLine | scripts/seed_uflpa.py:96-100 | an opening line starts with an upper-case letter, contains a company word (case kept) and does not start with "The " or "These " |
| RawEntries.IsContinuation | scripts/seed_uflpa.py:105-107 | a continuation line starts with "(", a lower-case letter, "Ltd.", "Co.," or "and ", or is a capitalised word followed later by ";" |
| RawEntries.ListEntries | scripts/seed_uflpa.py:85-115 | one list entry per opening line, holding it and the continuation lines after it joined by single spaces; `CollectListed` and `EntriesAreGatheredLines` prove the state machine yields exactly these |
| RawEntries.NonBlank | scripts/seed_uflpa.py:83 | every kept line is non-empty and stripped: it neither starts nor ends with whitespace |
| RawEntries.NonBlankFromInput | scripts/seed_uflpa.py:83 | every kept line is some input line, stripped |
| RawEntries.NonBlankKeepsLines | scripts/seed_uflpa.py:83 | every input line that is not blank once stripped is kept, stripped |
| RawEntries.Run | scripts/seed_uflpa.py:104-109 | the run of continuation lines is no longer than the lines |
| RawEntries.RunIsMaximal | scripts/seed_uflpa.py:104-109 | every line of the run continues the entry and the line after it does not |
| RawEntries.BreakFlushes | scripts/seed_uflpa.py:88-93 | a heading or a line that neither opens nor continues flushes the pending entry and resets it |
| RawEntries.NewEntryStarts | scripts/seed_uflpa.py:96-103 | an opening line flushes the pending entry and becomes the new one |
| RawEntries.ContinuationAppends | scripts/seed_uflpa.py:104-109 | a continuation line is appended to the pending entry after a single space |
| RawEntries.StrayLineDropped | scripts/seed_uflpa.py:104 | a line that does not open an entry is dropped when none is pending |
| RawEntries.NothingAfterLast | scripts/seed_uflpa.py:114-115 | at the end the pending entry is flushed, so no gathered text is lost |
| RawEntries.OneEntryPerOpener | scripts/seed_uflpa.py:85-115 | the list part yields exactly one entry per opening line |
| RawEntries.OpenersYieldEntries | scripts/seed_uflpa.py:85-115 | each opening line yields the entry of it and its continuation lines |
| RawEntries.EntriesFromOpeners | scripts/seed_uflpa.py:85-115 | every list entry is the gathered lines of some opening line |
| RawEntries.EntriesAreGatheredLines | scripts/seed_uflpa.py:85-115 | the list entries are exactly, both ways, the opening lines joined with their continuation lines by single spaces |
| RawEntries.CollectBullets | scripts/seed_uflpa.py:65-72 | the loop over the pieces after the first bullet returns the bullet entries |
| RawEntries.Feed | scripts/seed_uflpa.py:86-112 | one step of the state machine keeps emitted plus still-pending entries unchanged |
| RawEntries.CollectListed | scripts/seed_uflpa.py:85-115 | the line loop returns the list entries of the lines |
| RawEntries.SplitIntoRawEntries | scripts/seed_uflpa.py:50-117 | the bullet entries, then the list entries of the cleaned lines from the heading on, if there is a heading |
| Dedup.Parsed | scripts/seed_uflpa.py:195-197 | at most one entity per raw entry; `ParsedAreParses` states that they are exactly the successful parses, and `ParsedStep` that each raw entry adds its parse at the end |
| Dedup.KeepFirst | scripts/seed_uflpa.py:193-201 | de-duplication keeps at most every entity |
| Dedup.ParsedAreParses | scripts/seed_uflpa.py:195-197 | the entities are exactly the successful parses; None parses are dropped |
| Dedup.KeysKept | scripts/seed_uflpa.py:198-201 | every lower-cased brand of the input is kept, and only those |
| Dedup.KeysDistinct | scripts/seed_uflpa.py:198-201 | the kept brands are pairwise distinct once lower-cased |
| Dedup.KeptAreFirst | scripts/seed_uflpa.py:199-201 | every kept entity is the first of its key |
| Dedup.FirstAreKept | scripts/seed_uflpa.py:199-201 | the first entity of every key is kept |
| Dedup.FirstOccurrencesKept | scripts/seed_uflpa.py:199-201 | the kept entities are exactly the first occurrences of their keys |
| Dedup.KeepFirstInOrder | scripts/seed_uflpa.py:201 | the kept entities are a subsequence of the input: order preserved |
| Dedup.ParsedStep | scripts/seed_uflpa.py:196-197 | one more raw entry adds its parse, if any, at the end |
| Dedup.KeepFirstStep | scripts/seed_uflpa.py:198-201 | one more entity is appended exactly when its key is unseen, and its key joins the seen set |
| Dedup.Admit | scripts/seed_uflpa.py:198-201 | one step keeps `entities` and `seen` equal to the kept entities and the keys seen so far |
| Dedup.UniqueEntities | scripts/seed_uflpa.py:193-201 | the loop returns the first entity of each key among the parsed entries |
| SqlScript.EscapeSql | scripts/seed_uflpa.py:151-152 | `s.replace("'", "''")`: every single quote doubled and nothing else changed; its meaning is stated by `EscapeLength`, `EscapeAppend`, `EscapeWithoutQuote`, `EscapeKeepsOut` and `ReadEscaped` |
| SqlScript.EscapeLength | scripts/seed_uflpa.py:151-152 | the escaped text is longer by exactly the number of quotes |
| SqlScript.EscapeAppend | scripts/seed_uflpa.py:152 | escaping distributes over concatenation |
| SqlScript.EscapeWithoutQuote | scripts/seed_uflpa.py:152 | a text without a quote is unchanged |
| SqlScript.EscapeKeepsOut | scripts/seed_uflpa.py:152 | any other character occurs in the escaped text exactly when it occurs in the input |
| SqlScript.ReadEscaped | scripts/seed_uflpa.py:151-152 | reading the escaped text back, up to a lone closing quote, gives the input back and stops at that quote |
| SqlScript.TupleRoundTrip | scripts/seed_uflpa.py:171-173 | literals separated by ", " and closed by ")" read back as their values |
| SqlScript.EscapeJoinQuoted | scripts/seed_uflpa.py:167 | escaping the alias array equals escaping each alias inside its double quotes |
| SqlScript.AliasFieldEscapes | scripts/seed_uflpa.py:167 | the alias cell is the escaped array literal of the aliases |
| SqlScript.FixedCells | scripts/seed_uflpa.py:172-173 | the category, origin "CN", risk "high", source "UFLPA" and date "2025-01-15" cells are those values written as literals |
| SqlScript.RowCellsWrite | scripts/seed_uflpa.py:166-173 | all eight cells of a row are its values written as literals |
| SqlScript.CellsWriteFields | scripts/seed_uflpa.py:165-173 | an entity's cells write its brand, alias array, fixed values and reason |
| SqlScript.Row | scripts/seed_uflpa.py:165-175 | the row of one entity; `RowReadsBack` proves it reads back as the entity's eight values |
| SqlScript.RowReadsBack | scripts/seed_uflpa.py:165-175 | every row reads back as brand, aliases array, `{"general"}`, `{"CN"}`, `high`, `{"UFLPA"}`, the reason and `2025-01-15` |
| SqlFile.Decimal | scripts/seed_uflpa.py:158 | `str(n)` has at least one digit |
| SqlFile.Header | scripts/seed_uflpa.py:155-162 | the six header lines; the third reads back as the number of entities |
| SqlFile.DecimalRoundTrip | scripts/seed_uflpa.py:158 | the digits of the count read back as the count, and only zero starts with "0" |
| SqlFile.CountReadsBack | scripts/seed_uflpa.py:158 | the third header line states the number of entities |
| SqlFile.Rows | scripts/seed_uflpa.py:164-175 | one row per entity |
| SqlFile.RowsAt | scripts/seed_uflpa.py:165-175 | row `i` is the row of entity `i` |
| SqlFile.Terminated | scripts/seed_uflpa.py:177 | one line per row, or the single line ";" when there is none |
| SqlFile.TerminatedAt | scripts/seed_uflpa.py:177 | every row but the last ends in ",", the last in ";" |
| SqlFile.JoinRows | scripts/seed_uflpa.py:177 | rows joined by ",\n" and closed by ";" are the terminated rows, one per line |
| SqlFile.JoinAppend | scripts/seed_uflpa.py:177-178 | the last line, itself a join, splices into the joined lines |
| SqlFile.SqlTextLines | scripts/seed_uflpa.py:177-178 | the file is the header lines and the terminated rows joined by newlines |
| SqlFile.SqlText | scripts/seed_uflpa.py:154-178 | the file text; `SqlTextLines`, `SplitLines` and `ScriptLines` prove its line structure |
| SqlFile.RowSingleLine | scripts/seed_uflpa.py:165-175 | the row of a single-line entity has no newline |
| SqlFile.HeaderSingleLine | scripts/seed_uflpa.py:155-162 | no header line holds a newline |
| SqlFile.LinesSingleLine | scripts/seed_uflpa.py:155-177 | no line of the file holds a newline when no entity does |
| SqlFile.SplitLines | scripts/seed_uflpa.py:178 | splitting the file at newlines gives back its lines |
| SqlFile.RowLines | scripts/seed_uflpa.py:165-177 | line `6 + i` is entity `i`'s row, reading back as its values, ending in "," or, on the last, ";" |
| SqlFile.ScriptLines | scripts/seed_uflpa.py:154-178 | the file has six header lines with the count on the third, then one row line per entity in order (or ";" alone) |
| SqlFile.GenerateSql | scripts/seed_uflpa.py:154-178 | the loop over the entities returns the text of the header and the joined rows |
| Seed.SeedSql | scripts/seed_uflpa.py:187-209 | `main` without I/O: the SQL of the unique parsed entities of the entity section, or nothing when there is none |
| Seed.Unique | scripts/seed_uflpa.py:193-201 | the unique entities `main` collects: the first parse of each lower-cased brand among the raw entries of the entity section |
| Seed.UniqueAreDistinct | scripts/seed_uflpa.py:193-201 | the unique entities have pairwise distinct lower-cased brands and none spans two lines |
| Seed.KeptAreSingleLine | scripts/seed_uflpa.py:193-201 | every kept entity came from `parse_entry` and so holds no newline |
| Seed.FileOfEntities | scripts/seed_uflpa.py:209 | the file of a non-empty list of entities has the count line and one readable row per entity |
| Seed.SeedFileShape | scripts/seed_uflpa.py:187-209 | a file is written exactly when an entity was found; it has one row per unique entity, in order, and the brands are distinct once lower-cased |

## Left out

- `download_pdf`: network I/O.
- `extract_full_text`: a foreign call into `pypdf`. The model starts from the extracted text.
- `scripts/debug_pdf.py`: I/O and floating-point diagnostics. debug_pdf.py is not part of this model.
- The console output of every function and the file write in `main`. `Seed.SeedSql` returns the text that would be written, or nothing where `main` prints "No entities found." and returns.
- `clean_text`: a parameter `clean: string -> string`. Its regexes depend on PDF extraction artefacts, and the proofs hold for any cleaning function.
- The `seen` set at line 61 of `split_into_raw_entries`: it is never read.
- Text.Lower: `lower()`, `isupper()`, `islower()`, `\w`, `\d` and the IGNORECASE matching are modelled for ASCII letters and digits only. Unicode case folds such as the long s or the Kelvin sign are not modelled.
- Dedup.Parsed: it is stated for any parser. `Dedup.UniqueEntities` uses `ParseEntry`.
- AliasPattern.Search: the regex engine is modelled by the leftmost match position, tried index by index, with the backtracking of this one pattern written out. No general regex semantics is modelled.

## Findings

| source | as written | input that shows it | evidently intended | confidence | as-written member | corrected member |
|---|---|---|---|---|---|---|
| scripts/seed_uflpa.py:9-12 | the keyword alternative is `including \w+ aliases?`. It needs "aliase", so it accepts "aliase" and "aliases" but not "alias" | "X Trading Co. (including one alias: Y Trading Co.)": no match, so the alias is lost and the brand keeps the whole parenthesis | `including \w+ alias(?:es)?`, which accepts both "alias" and "aliases" | high; not executed | AliasPattern.SingularAliasMissed | AliasPattern.SingularAliasFound |

The model of the script keeps the pattern as written: `EntryParser.ParseEntry`
is `EntryParser.ParseWith` with `AliasPattern.AsWritten`, and `Seed.SeedSql`
runs it. The corrected parser is `EntryParser.ParseWith` with
`AliasPattern.Intended`; every lemma of `EntryParser` holds for both wordings.
