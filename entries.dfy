/**
 * `split_into_raw_entries`: the entity list text is cut into raw entry chunks,
 * first one per bullet, then one per company in the consolidated list, where a
 * line-by-line accumulator glues continuation lines onto the company they follow.
 */
module RawEntries {
  import opened Wrappers
  import opened Text
  import AliasPattern

  /** Where a chunk was found: after a bullet, or in the consolidated list. */
  datatype Kind = Bullet | Listed

  /** A raw chunk and where it came from (the `("bullet", …)` and `("list", …)` pairs). */
  datatype RawEntry = RawEntry(kind: Kind, text: string)

  const BULLET: char := '\U{2022}'

  // ---------------------------------------------------------------------------
  // Bullet part
  // ---------------------------------------------------------------------------

  const UPDATE_NOTE := "This update also"
  const SECTION_HEADING := "UFLPA Section"
  const APPENDIX := "Appendix"

  /** One of the words that `re.split` cuts a bullet chunk at begins at index `i`. */
  predicate SectionWordAt(s: string, i: nat) {
    OccursAt(s, UPDATE_NOTE, i) || OccursAt(s, SECTION_HEADING, i) || OccursAt(s, APPENDIX, i)
  }

  /** The text before the first section word at or after `i`. */
  function CutFrom(s: string, i: nat): (r: string)
    requires i <= |s|
    ensures i <= |r| <= |s| && r == s[..|r|]
    ensures forall j: nat :: i <= j < |r| ==> !SectionWordAt(s, j)
    ensures |r| < |s| ==> SectionWordAt(s, |r|)
    decreases |s| - i
  {
    if i == |s| then s
    else if SectionWordAt(s, i) then s[..i]
    else CutFrom(s, i + 1)
  }

  /** The first piece `re.split` returns: the text before the first section word. */
  function CutAtSectionWord(s: string): (r: string)
    ensures |r| <= |s| && r == s[..|r|]
    ensures forall j: nat :: j < |r| ==> !SectionWordAt(s, j)
    ensures |r| < |s| ==> SectionWordAt(s, |r|)
  {
    CutFrom(s, 0)
  }

  /** What is kept of the text after one bullet: whitespace collapsed, cut at the first section word, stripped. */
  function Chunk(part: string): string {
    Strip(CutAtSectionWord(NormalizeSpace(part)), Whitespace)
  }

  /** A chunk is normalized and holds none of the words it was cut at. */
  lemma ChunkIsClean(part: string)
    ensures Normalized(Chunk(part))
    ensures forall j: nat :: !SectionWordAt(Chunk(part), j)
  {
    var n := NormalizeSpace(part);
    var c := CutAtSectionWord(n);
    var r := Strip(c, Whitespace);
    StripPrefixOfNormalized(c, n);
    assert |r| <= |c|;
    forall j: nat ensures !SectionWordAt(r, j) {
      if SectionWordAt(r, j) {
        SectionWordInPrefix(r, n, j);
        assert false;
      }
    }
  }

  /** A section word inside a prefix is one of the whole text, before the prefix ends. */
  lemma SectionWordInPrefix(r: string, n: string, j: nat)
    requires IsPrefix(r, n) && SectionWordAt(r, j)
    ensures SectionWordAt(n, j) && j < |r|
  {
    assert r == n[..|r|];
    forall w | w in {UPDATE_NOTE, SECTION_HEADING, APPENDIX} && OccursAt(r, w, j)
      ensures OccursAt(n, w, j)
    {
      assert r[j..j + |w|] == n[j..j + |w|];
    }
  }

  /** The chunk of every piece, in order. */
  function Chunks(parts: seq<string>): (r: seq<string>)
    ensures |r| == |parts|
  {
    seq(|parts|, k requires 0 <= k < |parts| => Chunk(parts[k]))
  }

  /** The bullet entry of a chunk, none for an empty one. */
  function BulletOf(chunk: string): seq<RawEntry> {
    if chunk != [] then [RawEntry(Bullet, chunk)] else []
  }

  /** A bullet entry for each non-empty chunk, in order. */
  function NonEmpty(chunks: seq<string>): (r: seq<RawEntry>)
    ensures |r| <= |chunks|
  {
    if chunks == [] then [] else BulletOf(chunks[0]) + NonEmpty(chunks[1..])
  }

  /** One bullet entry for each piece whose chunk is not empty, in order. */
  function Bullets(parts: seq<string>): seq<RawEntry> {
    NonEmpty(Chunks(parts))
  }

  /** The bullet entries of a text: the pieces after the first bullet. */
  function BulletEntries(text: string): seq<RawEntry> {
    Bullets(Split(text, BULLET)[1..])
  }

  lemma {:induction false} NonEmptyAppend(cs: seq<string>, ds: seq<string>)
    ensures NonEmpty(cs + ds) == NonEmpty(cs) + NonEmpty(ds)
  {
    if cs == [] {
      assert cs + ds == ds;
    } else {
      var h := BulletOf(cs[0]);
      calc {
        NonEmpty(cs + ds);
        { assert (cs + ds)[1..] == cs[1..] + ds && (cs + ds)[0] == cs[0]; }
        h + NonEmpty(cs[1..] + ds);
        { NonEmptyAppend(cs[1..], ds); }
        h + (NonEmpty(cs[1..]) + NonEmpty(ds));
        (h + NonEmpty(cs[1..])) + NonEmpty(ds);
      }
    }
  }

  /** Bullet entries keep the order of the pieces they come from. */
  lemma BulletsAppend(a: seq<string>, b: seq<string>)
    ensures Bullets(a + b) == Bullets(a) + Bullets(b)
  {
    var ca, cb := Chunks(a), Chunks(b);
    forall k | 0 <= k < |a| + |b| ensures Chunks(a + b)[k] == (ca + cb)[k] {
      if k < |a| {
        assert (a + b)[k] == a[k];
      } else {
        assert (a + b)[k] == b[k - |a|];
      }
    }
    assert Chunks(a + b) == ca + cb;
    NonEmptyAppend(ca, cb);
  }

  /** A single piece yields its chunk when that is not empty, and nothing otherwise. */
  lemma BulletOfOnePiece(p: string)
    ensures Bullets([p]) == if Chunk(p) != [] then [RawEntry(Bullet, Chunk(p))] else []
  {
    assert Chunks([p]) == [Chunk(p)];
    assert NonEmpty([Chunk(p)]) == BulletOf(Chunk(p)) + NonEmpty([]);
  }

  /** Every bullet entry is a non-empty normalized chunk free of the words it was cut at. */
  lemma {:induction false} NonEmptyIsClean(parts: seq<string>)
    ensures forall e :: e in Bullets(parts) ==>
      e.kind == Bullet && e.text != [] && Normalized(e.text) && forall j: nat :: !SectionWordAt(e.text, j)
  {
    BulletsAreChunks(parts);
    forall e | e in Bullets(parts)
      ensures e.kind == Bullet && e.text != [] && Normalized(e.text) && forall j: nat :: !SectionWordAt(e.text, j)
    {
      var k :| 0 <= k < |parts| && Chunk(parts[k]) != [] && e == RawEntry(Bullet, Chunk(parts[k]));
      ChunkIsClean(parts[k]);
    }
  }

  /**
   * Every piece with a non-empty chunk yields that chunk as a bullet entry, and
   * every bullet entry is the chunk of one of the pieces.
   */
  lemma BulletsAreChunks(parts: seq<string>)
    ensures forall k :: 0 <= k < |parts| && Chunk(parts[k]) != [] ==>
      RawEntry(Bullet, Chunk(parts[k])) in Bullets(parts)
    ensures forall e :: e in Bullets(parts) ==>
      exists k :: 0 <= k < |parts| && Chunk(parts[k]) != [] && e == RawEntry(Bullet, Chunk(parts[k]))
  {
    var cs := Chunks(parts);
    NonEmptyMembers(cs);
    assert forall k :: 0 <= k < |parts| ==> cs[k] == Chunk(parts[k]);
  }

  lemma {:induction false} NonEmptyMembers(cs: seq<string>)
    ensures forall k :: 0 <= k < |cs| && cs[k] != [] ==> RawEntry(Bullet, cs[k]) in NonEmpty(cs)
    ensures forall e :: e in NonEmpty(cs) ==> exists k :: 0 <= k < |cs| && cs[k] != [] && e == RawEntry(Bullet, cs[k])
  {
    if cs != [] {
      NonEmptyMembers(cs[1..]);
      forall k | 0 <= k < |cs| && cs[k] != [] ensures RawEntry(Bullet, cs[k]) in NonEmpty(cs) {
        if k > 0 {
          assert cs[k] == cs[1..][k - 1];
        }
      }
      forall e | e in NonEmpty(cs)
        ensures exists k :: 0 <= k < |cs| && cs[k] != [] && e == RawEntry(Bullet, cs[k])
      {
        if e !in NonEmpty(cs[1..]) {
          assert cs[0] != [] && e == RawEntry(Bullet, cs[0]);
        } else {
          var k :| 0 <= k < |cs[1..]| && cs[1..][k] != [] && e == RawEntry(Bullet, cs[1..][k]);
          assert cs[k + 1] == cs[1..][k];
        }
      }
    }
  }

  /** Whatever precedes the first bullet has no effect on the bullet entries. */
  lemma PreambleIgnored(pre: string, rest: string)
    requires BULLET !in pre
    ensures BulletEntries(pre + [BULLET] + rest) == BulletEntries([BULLET] + rest)
  {
    SplitAfterPiece(pre, BULLET, rest);
    SplitAfterPiece([], BULLET, rest);
    assert [] + [BULLET] + rest == [BULLET] + rest;
  }

  /** A text without a bullet has no bullet entries. */
  lemma NoBulletNoEntries(text: string)
    requires BULLET !in text
    ensures BulletEntries(text) == []
  {
    SplitWithout(text, BULLET);
  }

  // ---------------------------------------------------------------------------
  // Consolidated list: where it starts and how its lines look
  // ---------------------------------------------------------------------------

  const LIST_HEADING := "UFLPA Section 2(d)(2)(B)(i)"
  const LIST_TITLE := "A List of Entities"

  /** The heading, at least one whitespace character, then the list title, begin at `i`. */
  predicate ListHeadingAt(s: string, i: nat) {
    && OccursAt(s, LIST_HEADING, i)
    && var j := i + |LIST_HEADING|;
       var e := AliasPattern.SpaceEnd(s, j);
       j < e && OccursAt(s, LIST_TITLE, e)
  }

  /** The leftmost list heading at or after `i`. */
  function FindListFrom(s: string, i: nat): (r: Option<nat>)
    requires i <= |s|
    ensures r.Some? ==> i <= r.value <= |s| && ListHeadingAt(s, r.value)
    ensures r.Some? ==> forall j: nat :: i <= j < r.value ==> !ListHeadingAt(s, j)
    ensures r.None? ==> forall j: nat :: i <= j ==> !ListHeadingAt(s, j)
    decreases |s| - i
  {
    if ListHeadingAt(s, i) then Some(i)
    else if i == |s| then None
    else FindListFrom(s, i + 1)
  }

  /** `re.search` for the heading of the consolidated list. */
  function FindList(s: string): (r: Option<nat>)
    ensures r.Some? ==> r.value <= |s| && ListHeadingAt(s, r.value)
    ensures r.Some? ==> forall j: nat :: j < r.value ==> !ListHeadingAt(s, j)
    ensures r.None? <==> forall j: nat :: !ListHeadingAt(s, j)
  {
    FindListFrom(s, 0)
  }

  /** The stripped non-blank lines of `ls`. */
  function NonBlank(ls: seq<string>): (r: seq<string>)
    ensures |r| <= |ls|
    ensures forall k :: 0 <= k < |r| ==> r[k] != []
    ensures forall k :: 0 <= k < |r| ==> !In(r[k][0], Whitespace) && !In(r[k][|r[k]| - 1], Whitespace)
  {
    if ls == [] then []
    else KeptLine(ls[0]) + NonBlank(ls[1..])
  }

  /** What one line contributes: itself stripped, unless that leaves nothing. */
  function KeptLine(l: string): (r: seq<string>)
    ensures |r| <= 1
    ensures forall k :: 0 <= k < |r| ==> r[k] != [] && !In(r[k][0], Whitespace) && !In(r[k][|r[k]| - 1], Whitespace)
  {
    if Strip(l, Whitespace) != [] then [Strip(l, Whitespace)] else []
  }

  lemma NonBlankCons(ls: seq<string>)
    requires ls != []
    ensures NonBlank(ls) == KeptLine(ls[0]) + NonBlank(ls[1..])
  {
  }

  /** Each line `NonBlank` keeps is some input line, stripped. */
  lemma {:induction false} NonBlankFromInput(ls: seq<string>)
    ensures forall x :: x in NonBlank(ls) ==> exists i :: 0 <= i < |ls| && x == Strip(ls[i], Whitespace)
  {
    if ls != [] {
      NonBlankFromInput(ls[1..]);
      var rest := NonBlank(ls[1..]);
      NonBlankCons(ls);
      forall x | x in NonBlank(ls)
        ensures exists i :: 0 <= i < |ls| && x == Strip(ls[i], Whitespace)
      {
        if x !in rest {
          assert x in KeptLine(ls[0]);
          assert 0 <= 0 < |ls| && x == Strip(ls[0], Whitespace);
        } else {
          var i :| 0 <= i < |ls[1..]| && x == Strip(ls[1..][i], Whitespace);
          TailIndex(ls, i + 1);
        }
      }
    }
  }

  /** Every input line that is not blank once stripped is kept by `NonBlank`. */
  lemma {:induction false} NonBlankKeepsLines(ls: seq<string>)
    ensures forall i :: 0 <= i < |ls| && Strip(ls[i], Whitespace) != [] ==> Strip(ls[i], Whitespace) in NonBlank(ls)
  {
    if ls != [] {
      NonBlankKeepsLines(ls[1..]);
      var rest := NonBlank(ls[1..]);
      NonBlankCons(ls);
      forall i | 0 <= i < |ls| && Strip(ls[i], Whitespace) != []
        ensures Strip(ls[i], Whitespace) in NonBlank(ls)
      {
        if i == 0 {
          assert KeptLine(ls[0]) == [Strip(ls[0], Whitespace)];
        } else {
          TailIndex(ls, i);
          assert Strip(ls[i], Whitespace) in rest;
        }
      }
    }
  }

  function Lines(text: string): seq<string> {
    NonBlank(Split(text, '\n'))
  }

  /** Prefixes that mark a heading line, matched at its start with case ignored. */
  const HEADER_PREFIXES: seq<string> := [
    "UFLPA Section", "Entities identified", "The FLETF", "above may",
    "continue to", "information about", "that meet"]

  /** A heading line: a known prefix, or "Section " and a digit, with case ignored. */
  predicate IsHeaderLine(line: string) {
    || (exists k :: 0 <= k < |HEADER_PREFIXES| && OccursAtCI(line, HEADER_PREFIXES[k], 0))
    || (OccursAtCI(line, "Section ", 0) && |line| > 8 && IsDigit(line[8]))
  }

  /** The company words whose presence, case included, makes a line a new entry. */
  const COMPANY_WORDS: seq<string> := [
    "Co.", "Ltd.", "Inc.", "Corp.", "Group", "Center", "Park", "Holdings",
    "Technology", "Industry", "Trading", "Corporation", "Mine", "Mining",
    "Textile", "Silicon", "Energy", "Semiconductor", "Foods", "Logistics", "XPCC"]

  /** A capitalised line naming a company that is not a sentence about them. */
  predicate IsNewEntryLine(line: string) {
    && |line| > 0 && IsUpper(line[0])
    && (exists k :: 0 <= k < |COMPANY_WORDS| && Contains(line, COMPANY_WORDS[k]))
    && !StartsWith(line, "The ") && !StartsWith(line, "These ")
  }

  /**
   * A line that carries on the entry above it: an opening parenthesis, a lower-case
   * start, a split-off "Ltd."/"Co.,"/"and ", or a capitalised word with a ";" later
   * on the line.
   */
  predicate IsContinuation(line: string) {
    || StartsWith(line, "(")
    || (|line| > 0 && IsLower(line[0]))
    || StartsWith(line, "Ltd.") || StartsWith(line, "Co.,") || StartsWith(line, "and ")
    || (&& |line| >= 2 && IsUpper(line[0]) && IsLower(line[1])
        && exists j :: 2 <= j < |line| && line[j] == ';' && forall m :: 2 <= m < j ==> line[m] != '\n')
  }

  /** A line that starts a new entry. */
  predicate Opens(line: string) {
    !IsHeaderLine(line) && IsNewEntryLine(line)
  }

  /** A line that is appended to a pending entry. */
  predicate Extends(line: string) {
    !IsHeaderLine(line) && !IsNewEntryLine(line) && IsContinuation(line)
  }

  /** How many leading lines of `ls` extend a pending entry. */
  function Run(ls: seq<string>): (r: nat)
    ensures r <= |ls|
  {
    if ls == [] || !Extends(ls[0]) then 0 else 1 + Run(ls[1..])
  }

  /** The run is the longest prefix of continuation lines. */
  lemma {:induction false} RunIsMaximal(ls: seq<string>)
    ensures forall k :: 0 <= k < Run(ls) ==> Extends(ls[k])
    ensures Run(ls) == |ls| || !Extends(ls[Run(ls)])
  {
    if ls != [] && Extends(ls[0]) {
      RunIsMaximal(ls[1..]);
      forall k | 0 < k < Run(ls) ensures Extends(ls[k]) {
        assert ls[k] == ls[1..][k - 1];
      }
    }
  }

  // ---------------------------------------------------------------------------
  // Consolidated list: the entries, defined by position
  // ---------------------------------------------------------------------------

  /**
   * The list entries of `ls`: one per opening line, holding that line and the
   * run of continuation lines after it, joined by single spaces.
   */
  function ListEntries(ls: seq<string>): seq<RawEntry> {
    if ls == [] then []
    else (if Opens(ls[0]) then [RawEntry(Listed, Join(ls[..1 + Run(ls[1..])], " "))] else []) + ListEntries(ls[1..])
  }

  /** What remains to be emitted when `current` is pending and lines `ls` are still to come. */
  function Pending(current: Option<string>, ls: seq<string>): seq<RawEntry> {
    match current
    case None => ListEntries(ls)
    case Some(c) => [RawEntry(Listed, Join([c] + ls[..Run(ls)], " "))] + ListEntries(ls)
  }

  /** The entry a flush emits: the pending text, if any. */
  function Flushed(current: Option<string>): seq<RawEntry> {
    match current
    case None => []
    case Some(c) => [RawEntry(Listed, c)]
  }

  /** The list part of a text: the entries of the cleaned lines after the heading, if any. */
  function ListPart(text: string, clean: string -> string): seq<RawEntry> {
    match FindList(text)
    case None => []
    case Some(i) => ListEntries(Lines(clean(text[i..])))
  }

  /** Everything the splitter returns for `text`: bullet entries, then list entries. */
  function AllRawEntries(text: string, clean: string -> string): seq<RawEntry> {
    BulletEntries(text) + ListPart(text, clean)
  }

  lemma JoinFront(a: string, xs: seq<string>, sep: string)
    ensures Join([a] + xs, sep) == if xs == [] then a else a + sep + Join(xs, sep)
  {
    assert ([a] + xs)[1..] == xs;
  }

  /** Appending a line to the pending text with a space joins it one step earlier. */
  lemma JoinMerge(c: string, l: string, xs: seq<string>)
    ensures Join([c] + ([l] + xs), " ") == Join([c + " " + l] + xs, " ")
  {
    JoinFront(c, [l] + xs, " ");
    JoinFront(l, xs, " ");
    JoinFront(c + " " + l, xs, " ");
  }

  /** A heading, or a line that neither opens nor continues, flushes the pending entry. */
  lemma BreakFlushes(current: Option<string>, l: string, rest: seq<string>)
    requires IsHeaderLine(l) || (!IsNewEntryLine(l) && !IsContinuation(l))
    ensures Pending(current, [l] + rest) == Flushed(current) + Pending(None, rest)
  {
    var ls := [l] + rest;
    assert ls[0] == l && ls[1..] == rest;
    assert !Opens(l) && !Extends(l);
    assert ListEntries(ls) == ListEntries(rest);
    assert Run(ls) == 0;
    match current {
      case None =>
      case Some(c) =>
        assert [c] + ls[..0] == [c];
    }
  }

  /** A new company line flushes the pending entry and becomes the pending text. */
  lemma NewEntryStarts(current: Option<string>, l: string, rest: seq<string>)
    requires !IsHeaderLine(l) && IsNewEntryLine(l)
    ensures Pending(current, [l] + rest) == Flushed(current) + Pending(Some(l), rest)
  {
    var ls := [l] + rest;
    assert ls[1..] == rest;
    assert ls[..1 + Run(rest)] == [l] + rest[..Run(rest)];
    assert ls[..0] == [];
  }

  /** A continuation line is appended to the pending text after a single space. */
  lemma ContinuationAppends(c: string, l: string, rest: seq<string>)
    requires !IsHeaderLine(l) && !IsNewEntryLine(l) && IsContinuation(l)
    ensures Pending(Some(c), [l] + rest) == Pending(Some(c + " " + l), rest)
  {
    var ls := [l] + rest;
    var x := rest[..Run(rest)];
    assert ls[1..] == rest;
    assert Extends(ls[0]) && !Opens(ls[0]);
    assert Run(ls) == 1 + Run(rest);
    assert ls[..Run(ls)] == [l] + x;
    assert ListEntries(ls) == ListEntries(rest);
    JoinMerge(c, l, x);
  }

  /** A line that neither opens nor continues is dropped when nothing is pending. */
  lemma StrayLineDropped(l: string, rest: seq<string>)
    requires !IsHeaderLine(l) && !IsNewEntryLine(l)
    ensures Pending(None, [l] + rest) == Pending(None, rest)
  {
    assert ([l] + rest)[1..] == rest;
  }

  /** The number of opening lines. */
  function CountOpens(ls: seq<string>): nat {
    if ls == [] then 0 else (if Opens(ls[0]) then 1 else 0) + CountOpens(ls[1..])
  }

  /** Exactly one list entry per opening line. */
  lemma {:induction false} OneEntryPerOpener(ls: seq<string>)
    ensures |ListEntries(ls)| == CountOpens(ls)
  {
    if ls != [] {
      OneEntryPerOpener(ls[1..]);
    }
  }

  /** The lines an opener at `k` gathers: itself and the continuation run after it. */
  function Gathered(ls: seq<string>, k: nat): seq<string>
    requires k < |ls|
  {
    ls[k..k + 1 + Run(ls[k + 1..])]
  }

  /** Past the first line, the gathered lines are those of the tail. */
  lemma GatheredShift(ls: seq<string>, k: nat)
    requires 1 <= k < |ls|
    ensures ls[k] == ls[1..][k - 1] && Gathered(ls, k) == Gathered(ls[1..], k - 1)
  {
    assert ls[k + 1..] == ls[1..][k..];
  }

  /** The entry an opener at `k` yields. */
  function EntryAt(ls: seq<string>, k: nat): RawEntry
    requires k < |ls|
  {
    RawEntry(Listed, Join(Gathered(ls, k), " "))
  }

  /** Every opening line yields the entry of itself and its continuation lines. */
  lemma {:induction false} OpenersYieldEntries(ls: seq<string>)
    ensures forall k :: 0 <= k < |ls| && Opens(ls[k]) ==> EntryAt(ls, k) in ListEntries(ls)
  {
    if ls != [] {
      var tail := ls[1..];
      OpenersYieldEntries(tail);
      assert Gathered(ls, 0) == ls[..1 + Run(tail)];
      forall k | 0 <= k < |ls| && Opens(ls[k]) ensures EntryAt(ls, k) in ListEntries(ls) {
        if k > 0 {
          GatheredShift(ls, k);
          assert EntryAt(ls, k) == EntryAt(tail, k - 1);
        }
      }
    }
  }

  /** Every list entry is the entry of an opening line. */
  lemma {:induction false} EntriesFromOpeners(ls: seq<string>)
    ensures forall e :: e in ListEntries(ls) ==> exists k :: 0 <= k < |ls| && Opens(ls[k]) && e == EntryAt(ls, k)
  {
    if ls != [] {
      var tail := ls[1..];
      EntriesFromOpeners(tail);
      assert Gathered(ls, 0) == ls[..1 + Run(tail)];
      forall e | e in ListEntries(ls) ensures exists k :: 0 <= k < |ls| && Opens(ls[k]) && e == EntryAt(ls, k) {
        if e !in ListEntries(tail) {
          assert Opens(ls[0]) && e == EntryAt(ls, 0);
        } else {
          var k :| 0 <= k < |tail| && Opens(tail[k]) && e == EntryAt(tail, k);
          GatheredShift(ls, k + 1);
          assert Opens(ls[k + 1]) && e == EntryAt(ls, k + 1);
        }
      }
    }
  }

  /**
   * Every opening line yields the entry of itself and its continuation lines, and
   * every list entry is such an entry.
   */
  lemma EntriesAreGatheredLines(ls: seq<string>)
    ensures forall k :: 0 <= k < |ls| && Opens(ls[k]) ==>
      RawEntry(Listed, Join(Gathered(ls, k), " ")) in ListEntries(ls)
    ensures forall e :: e in ListEntries(ls) ==>
      exists k :: 0 <= k < |ls| && Opens(ls[k]) && e == RawEntry(Listed, Join(Gathered(ls, k), " "))
  {
    OpenersYieldEntries(ls);
    EntriesFromOpeners(ls);
  }

  // ---------------------------------------------------------------------------
  // The splitter
  // ---------------------------------------------------------------------------

  /** Emitting the flushed entry moves it from what is pending to what is done. */
  lemma FlushKeepsTotal(done: seq<RawEntry>, flushed: seq<RawEntry>, pending: seq<RawEntry>)
    ensures (done + flushed) + pending == done + (flushed + pending)
  {
  }

  /** One more piece adds its chunk, when that is not empty, at the end. */
  lemma BulletsStep(pieces: seq<string>, j: nat)
    requires j < |pieces|
    ensures Bullets(pieces[..j + 1]) == Bullets(pieces[..j]) + BulletOf(Chunk(pieces[j]))
  {
    assert pieces[..j + 1] == pieces[..j] + [pieces[j]];
    BulletsAppend(pieces[..j], [pieces[j]]);
    BulletOfOnePiece(pieces[j]);
  }

  /** The first part of `split_into_raw_entries`: one entry per non-empty bullet chunk. */
  method CollectBullets(text: string) returns (entries: seq<RawEntry>)
    ensures entries == BulletEntries(text)
  {
    entries := [];
    var parts := Split(text, BULLET);
    var pieces := parts[1..];
    var j := 0;
    while j < |pieces|
      invariant 0 <= j <= |pieces|
      invariant entries == Bullets(pieces[..j])
    {
      var part := NormalizeSpace(pieces[j]);
      part := Strip(CutAtSectionWord(part), Whitespace);
      BulletsStep(pieces, j);
      assert part == Chunk(pieces[j]);
      if part != [] {
        entries := entries + [RawEntry(Bullet, part)];
      }
      j := j + 1;
    }
    assert pieces[..j] == pieces;
  }

  /**
   * One turn of the accumulator loop in the second part of `split_into_raw_entries`.
   * A heading, or a line that neither opens nor continues, flushes `current`; a new
   * company line flushes it and takes its place; a continuation line is appended to
   * it after a space; any other line is skipped. Whatever lines `rest` follow, the
   * entries still to come are the same as before the turn.
   */
  method Feed(entries: seq<RawEntry>, current: Option<string>, line: string, ghost ls: seq<string>)
    returns (entries': seq<RawEntry>, current': Option<string>)
    requires ls != [] && ls[0] == line
    ensures entries' + Pending(current', ls[1..]) == entries + Pending(current, ls)
  {
    ghost var rest := ls[1..];
    assert ls == [line] + rest;
    entries', current' := entries, current;
    if IsHeaderLine(line) {
      if current.Some? {
        entries' := entries + [RawEntry(Listed, current.value)];
        current' := None;
      }
      assert entries' == entries + Flushed(current);
      BreakFlushes(current, line, rest);
      FlushKeepsTotal(entries, Flushed(current), Pending(None, rest));
    } else if IsNewEntryLine(line) {
      if current.Some? {
        entries' := entries + [RawEntry(Listed, current.value)];
      }
      current' := Some(line);
      assert entries' == entries + Flushed(current);
      NewEntryStarts(current, line, rest);
      FlushKeepsTotal(entries, Flushed(current), Pending(Some(line), rest));
    } else if current.Some? {
      if IsContinuation(line) {
        current' := Some(current.value + " " + line);
        ContinuationAppends(current.value, line, rest);
      } else {
        entries' := entries + [RawEntry(Listed, current.value)];
        current' := None;
        BreakFlushes(current, line, rest);
        FlushKeepsTotal(entries, Flushed(current), Pending(None, rest));
      }
    } else {
      StrayLineDropped(line, rest);
    }
  }

  /** After the last line, what is pending is the entry a flush emits. */
  lemma NothingAfterLast(current: Option<string>)
    ensures Pending(current, []) == Flushed(current)
  {
    var none: seq<string> := [];
    assert none[..Run(none)] == [];
  }

  /**
   * The second part of `split_into_raw_entries`: the line accumulator, fed one line
   * at a time, with the pending entry flushed at the end.
   */
  method CollectListed(lines: seq<string>) returns (entries: seq<RawEntry>)
    ensures entries == ListEntries(lines)
  {
    entries := [];
    var current: Option<string> := None;
    var j := 0;
    while j < |lines|
      invariant 0 <= j <= |lines|
      invariant entries + Pending(current, lines[j..]) == ListEntries(lines)
    {
      entries, current := Feed(entries, current, lines[j], lines[j..]);
      assert lines[j..][1..] == lines[j + 1..];
      j := j + 1;
    }
    assert lines[j..] == [];
    NothingAfterLast(current);
    if current.Some? {
      entries := entries + [RawEntry(Listed, current.value)];
    }
  }

  /**
   * `split_into_raw_entries`, with `clean_text` as the parameter `clean`: the bullet
   * entries, then, when the list heading is present, the entries of the cleaned
   * lines from the heading on.
   */
  method SplitIntoRawEntries(text: string, clean: string -> string) returns (entries: seq<RawEntry>)
    ensures entries == AllRawEntries(text, clean)
  {
    entries := CollectBullets(text);
    var found := FindList(text);
    if found.Some? {
      var listText := clean(text[found.value..]);
      var lines := Lines(listText);
      var listed := CollectListed(lines);
      entries := entries + listed;
    }
  }
}
