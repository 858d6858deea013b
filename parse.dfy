/**
 * `parse_entry`: one raw chunk of the notice becomes an entity, a brand with its
 * aliases, or nothing when the chunk is too short or names no company.
 */
module EntryParser {
  import opened Wrappers
  import opened Text
  import opened AliasPattern

  datatype Entity = Entity(brand: string, aliases: seq<string>)

  /** The company words of the final check, searched for with case ignored. */
  const BRAND_KEYWORDS: seq<string> := [
    "Co.", "Ltd.", "Inc.", "Corp.", "Group", "Center", "Park", "Holdings",
    "Technology", "Industry", "Trading", "Corporation", "Mine", "Mining",
    "Textile", "Silicon", "Energy", "Semiconductor", "Foods", "Logistics", "XPCC",
    "Ninestar", "Camel"]

  predicate HasBrandKeyword(s: string) {
    exists k :: 0 <= k < |BRAND_KEYWORDS| && ContainsCI(s, BRAND_KEYWORDS[k])
  }

  /** The characters `rstrip` takes off a brand that precedes an alias list. */
  const BEFORE_ALIASES := OneOf({'.', ',', ';', '('})
  /** The characters `rstrip` takes off a brand without an alias list. */
  const BRAND_END := OneOf({'.', ',', ';'})
  /** The characters `strip` takes off each alias. */
  const ALIAS_EDGE := OneOf({';', ','})

  /** `p.strip().strip(";,").strip()`: a slice of `p` with no whitespace at either end. */
  function CleanAlias(p: string): (r: string)
    ensures Contains(p, r)
    ensures r == [] || (!IsSpace(r[0]) && !IsSpace(r[|r| - 1]))
  {
    var a := Strip(p, Whitespace);
    var b := Strip(a, ALIAS_EDGE);
    var c := Strip(b, Whitespace);
    ContainsTransitive(p, a, b);
    ContainsTransitive(p, b, c);
    c
  }

  /** A piece the comprehension keeps: longer than three characters once stripped. */
  predicate LongPiece(p: string) {
    |Strip(p, Whitespace)| > 3
  }

  /** `[clean(p) for p in parts if p.strip() and len(p.strip()) > 3]` */
  function KeepAliases(parts: seq<string>): (r: seq<string>)
    ensures |r| <= |parts|
  {
    if parts == [] then []
    else KeptPiece(parts[0]) + KeepAliases(parts[1..])
  }

  /** What one piece contributes to the alias list. */
  function KeptPiece(p: string): seq<string> {
    if LongPiece(p) then [CleanAlias(p)] else []
  }

  /** The comprehension works piece by piece: the aliases of two runs of pieces are those of each, in order. */
  lemma {:induction false} KeepAliasesAppend(a: seq<string>, b: seq<string>)
    ensures KeepAliases(a + b) == KeepAliases(a) + KeepAliases(b)
    decreases |a|
  {
    if |a| == 0 {
      assert a + b == b;
      assert KeepAliases(a) == [];
    } else {
      var t := a[1..];
      KeepAliasesAppend(t, b);
      TailOfAppend(a, b);
      KeepAliasesCons(a + b);
      KeepAliasesCons(a);
      AppendAssoc(KeptPiece(a[0]), KeepAliases(t), KeepAliases(b));
    }
  }

  lemma KeepAliasesCons(parts: seq<string>)
    requires parts != []
    ensures KeepAliases(parts) == KeptPiece(parts[0]) + KeepAliases(parts[1..])
  {
  }

  /** One piece gives its cleaned form when it is long, and nothing otherwise. */
  lemma KeepAliasesOne(p: string)
    ensures KeepAliases([p]) == if LongPiece(p) then [CleanAlias(p)] else []
  {
    assert [p][1..] == [];
  }

  /** Every long piece gives its cleaned form as an alias. */
  lemma {:induction false} LongPiecesKept(parts: seq<string>)
    ensures forall k :: 0 <= k < |parts| && LongPiece(parts[k]) ==> CleanAlias(parts[k]) in KeepAliases(parts)
  {
    if parts != [] {
      LongPiecesKept(parts[1..]);
      forall k | 1 <= k < |parts| && LongPiece(parts[k]) ensures CleanAlias(parts[k]) in KeepAliases(parts) {
        assert parts[k] == parts[1..][k - 1];
      }
    }
  }

  /** `stem.strip().rstrip(chars).strip()` and the whitespace clean-up that follows it. */
  function Trim(stem: string, tail: CharClass): (r: string)
    ensures Normalized(r)
  {
    NormalizeSpace(Strip(RStrip(Strip(stem, Whitespace), tail), Whitespace))
  }

  /** The aliases of a normalized chunk: the long-enough pieces of the captured list, if any. */
  function Aliases(text: string, w: Wording): (r: seq<string>)
    ensures r != [] ==> Search(text, w).Some?
  {
    match Search(text, w)
    case None => []
    case Some(m) => KeepAliases(SplitAliases(text[m.lo..m.hi]))
  }

  /** The brand of a normalized chunk: what precedes the alias list, or the whole chunk. */
  function Brand(text: string, w: Wording): (r: string)
    ensures Normalized(r)
  {
    match Search(text, w)
    case None => Trim(text, BRAND_END)
    case Some(m) => Trim(text[..m.start], BEFORE_ALIASES)
  }

  /**
   * The entity a raw chunk describes. After whitespace is collapsed, a chunk
   * shorter than five characters is nothing. If an alias list follows the name,
   * the brand is what precedes it and the aliases are its long-enough pieces;
   * otherwise the brand is the whole chunk. A brand shorter than five characters,
   * or without a company word, is nothing. The alias list is found with the
   * given wording of the alias pattern.
   */
  function ParseWith(raw: string, w: Wording): (r: Option<Entity>)
    ensures |NormalizeSpace(raw)| < 5 ==> r.None?
    ensures r.Some? ==> |r.value.brand| >= 5 && Normalized(r.value.brand)
    ensures r.Some? ==> HasBrandKeyword(r.value.brand)
    ensures var brand := Brand(NormalizeSpace(raw), w);
      r.Some? <==> |NormalizeSpace(raw)| >= 5 && |brand| >= 5 && HasBrandKeyword(brand)
    ensures r.Some? ==> r.value.brand == Brand(NormalizeSpace(raw), w) && r.value.aliases == Aliases(NormalizeSpace(raw), w)
  {
    var text := NormalizeSpace(raw);
    if text == [] || |text| < 5 then None
    else
      var brand := Brand(text, w);
      if brand == [] || |brand| < 5 then None
      else if !HasBrandKeyword(brand) then None
      else Some(Entity(brand, Aliases(text, w)))
  }

  /** `parse_entry` as the script runs it, with `ALIAS_PATTERN` as written. */
  function ParseEntry(raw: string): Option<Entity> {
    ParseWith(raw, AsWritten)
  }

  /** Trimming a prefix of a normalized text leaves a (possibly shorter) prefix of it. */
  lemma TrimPrefix(t: string, n: string, tail: CharClass)
    requires Normalized(n) && IsPrefix(t, n)
    ensures IsPrefix(Trim(t, tail), n) && |Trim(t, tail)| <= |t|
  {
    var c := Strip(RStrip(Strip(t, Whitespace), tail), Whitespace);
    TrimSteps(t, n, tail);
    NormalizeFixpoint(c);
  }

  /** The three strips inside `Trim` keep a prefix of a normalized text normalized, and never lengthen it. */
  lemma TrimSteps(t: string, n: string, tail: CharClass)
    requires Normalized(n) && IsPrefix(t, n)
    ensures var c := Strip(RStrip(Strip(t, Whitespace), tail), Whitespace);
      IsPrefix(c, n) && Normalized(c) && |c| <= |t|
  {
    var a := Strip(t, Whitespace);
    StripPrefixOfNormalized(t, n);
    var b := RStrip(a, tail);
    PrefixTransitive(b, a, n);
    StripPrefixOfNormalized(b, n);
  }

  lemma PrefixTransitive(a: string, b: string, c: string)
    requires IsPrefix(a, b) && IsPrefix(b, c)
    ensures IsPrefix(a, c)
  {
    assert c[..|a|] == c[..|b|][..|a|];
  }

  /** The brand of a normalized text is a prefix of it, ending before the alias list if there is one. */
  lemma BrandPrefix(text: string, w: Wording)
    requires Normalized(text)
    ensures IsPrefix(Brand(text, w), text)
    ensures Search(text, w).Some? ==> |Brand(text, w)| <= Search(text, w).value.start
  {
    match Search(text, w)
    case None => TrimPrefix(text, text, BRAND_END);
    case Some(m) => TrimPrefix(text[..m.start], text, BEFORE_ALIASES);
  }

  /**
   * The brand is a prefix of the whitespace-normalized chunk; when an alias list
   * was found, the brand ends before the "(" that opens it.
   */
  lemma BrandIsPrefix(raw: string, w: Wording)
    requires ParseWith(raw, w).Some?
    ensures IsPrefix(ParseWith(raw, w).value.brand, NormalizeSpace(raw))
    ensures Search(NormalizeSpace(raw), w).Some? ==>
      |ParseWith(raw, w).value.brand| <= Search(NormalizeSpace(raw), w).value.start
  {
    BrandPrefix(NormalizeSpace(raw), w);
  }

  /** Each kept alias is cleaned from a piece whose stripped length exceeds three. */
  lemma {:induction false} KeptAliasesFromLongPieces(parts: seq<string>)
    ensures forall a :: a in KeepAliases(parts) ==>
      exists k :: 0 <= k < |parts| && |Strip(parts[k], Whitespace)| > 3 && a == CleanAlias(parts[k])
  {
    if parts != [] {
      KeptAliasesFromLongPieces(parts[1..]);
      forall a | a in KeepAliases(parts)
        ensures exists k :: 0 <= k < |parts| && |Strip(parts[k], Whitespace)| > 3 && a == CleanAlias(parts[k])
      {
        if a !in KeepAliases(parts[1..]) {
          assert |Strip(parts[0], Whitespace)| > 3 && a == CleanAlias(parts[0]);
        } else {
          var k :| 0 <= k < |parts[1..]| && |Strip(parts[1..][k], Whitespace)| > 3 && a == CleanAlias(parts[1..][k]);
          assert parts[k + 1] == parts[1..][k];
        }
      }
    }
  }

  /** Kept aliases are slices of the text the pieces came from. */
  lemma {:induction false} KeptAliasesWithin(parts: seq<string>, g: string)
    requires forall k :: 0 <= k < |parts| ==> Contains(g, parts[k])
    ensures forall a :: a in KeepAliases(parts) ==> Contains(g, a)
  {
    KeptAliasesFromLongPieces(parts);
    forall a | a in KeepAliases(parts) ensures Contains(g, a) {
      var k :| 0 <= k < |parts| && |Strip(parts[k], Whitespace)| > 3 && a == CleanAlias(parts[k]);
      ContainsTransitive(g, parts[k], a);
    }
  }

  /** No whitespace at either end of `a`. */
  predicate Trimmed(a: string) {
    a == [] || (!IsSpace(a[0]) && !IsSpace(a[|a| - 1]))
  }

  /**
   * Aliases exist only when the alias pattern matched; each comes from a piece of
   * the captured list longer than three characters once stripped, and is a slice
   * of that list.
   */
  lemma AliasesFromMatch(text: string, w: Wording)
    ensures Search(text, w).Some? ==>
      var m := Search(text, w).value;
      var pieces := SplitAliases(text[m.lo..m.hi]);
      forall a :: a in Aliases(text, w) ==>
        && Contains(text[m.lo..m.hi], a)
        && (exists k :: 0 <= k < |pieces| && |Strip(pieces[k], Whitespace)| > 3 && a == CleanAlias(pieces[k]))
  {
    match Search(text, w)
    case None =>
    case Some(m) =>
      var pieces := SplitAliases(text[m.lo..m.hi]);
      KeptAliasesFromLongPieces(pieces);
      KeptAliasesWithin(pieces, text[m.lo..m.hi]);
  }

  /** The aliases kept from the list `text[lo..hi]` are slices of `text` with no whitespace at either end. */
  lemma KeptAliasesTrimmedSlices(text: string, lo: nat, hi: nat)
    requires lo <= hi <= |text|
    ensures forall a :: a in KeepAliases(SplitAliases(text[lo..hi])) ==> Contains(text, a) && Trimmed(a)
  {
    var g := text[lo..hi];
    var pieces := SplitAliases(g);
    KeptAliasesFromLongPieces(pieces);
    KeptAliasesWithin(pieces, g);
    assert Contains(text, g) by { assert OccursAt(text, g, lo); }
    forall a | a in KeepAliases(pieces) ensures Contains(text, a) && Trimmed(a) {
      ContainsTransitive(text, g, a);
      var k :| 0 <= k < |pieces| && |Strip(pieces[k], Whitespace)| > 3 && a == CleanAlias(pieces[k]);
    }
  }

  /** Every alias is a slice of the normalized chunk with no whitespace at either end. */
  lemma AliasesTrimmedSlices(text: string, w: Wording)
    ensures forall a :: a in Aliases(text, w) ==> Contains(text, a) && Trimmed(a)
  {
    match Search(text, w)
    case None =>
    case Some(m) => KeptAliasesTrimmedSlices(text, m.lo, m.hi);
  }

  /** A slice of a text without newlines has none either. */
  lemma NoNewlineInSlice(s: string, a: string)
    requires Contains(s, a) && '\n' !in s
    ensures '\n' !in a
  {
    var i: nat :| i <= |s| && OccursAt(s, a, i);
    forall k | 0 <= k < |a| ensures a[k] != '\n' {
      assert a[k] == s[i + k];
    }
  }

  /** A normalized text holds no newline: its only whitespace is the plain space. */
  lemma NormalizedHasNoNewline(s: string)
    requires Normalized(s)
    ensures '\n' !in s
  {
    forall k | 0 <= k < |s| ensures s[k] != '\n' {
      assert IsSpace('\n');
    }
  }

  /** Nothing a parsed entity holds spans two lines. */
  predicate SingleLine(e: Entity) {
    '\n' !in e.brand && forall k :: 0 <= k < |e.aliases| ==> '\n' !in e.aliases[k]
  }

  lemma ParsedIsSingleLine(raw: string, w: Wording)
    requires ParseWith(raw, w).Some?
    ensures SingleLine(ParseWith(raw, w).value)
  {
    var e := ParseWith(raw, w).value;
    var text := NormalizeSpace(raw);
    NormalizedHasNoNewline(e.brand);
    NormalizedHasNoNewline(text);
    AliasesTrimmedSlices(text, w);
    forall k | 0 <= k < |e.aliases| ensures '\n' !in e.aliases[k] {
      assert e.aliases[k] in e.aliases;
      NoNewlineInSlice(text, e.aliases[k]);
    }
  }
}
