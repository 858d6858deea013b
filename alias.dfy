/**
 * The two regular expressions `parse_entry` applies to alias lists:
 * `ALIAS_PATTERN`, which `re.search` looks for with case ignored, and the
 * separator pattern `;\s*(?:and\s+)?|,\s*and\s+|\s+and\s+` given to `re.split`.
 * Both are written out as the backtracking matcher of Python's `re` module
 * resolves them, position by position.
 */
module AliasPattern {
  import opened Wrappers
  import opened Text

  /** How the plural tail of "including N aliases" is spelt in the pattern. */
  datatype Wording =
    | AsWritten  // `aliases?`: "aliase", then an optional "s"
    | Intended   // `alias(?:es)?`: "alias", then an optional "es"

  /** One match: the index of its "(", and the bounds of the captured alias list. */
  datatype AliasMatch = AliasMatch(start: nat, lo: nat, hi: nat)

  const ALSO_KNOWN_AS := "also known as"
  const FORMERLY_KNOWN_AS := "formerly known as"
  const INCLUDING := "including "

  /** The end of the run of `\w` characters that starts at `i`. */
  function WordEnd(s: string, i: nat): (e: nat)
    requires i <= |s|
    ensures i <= e <= |s|
    ensures forall k :: i <= k < e ==> IsWordChar(s[k])
    ensures e == |s| || !IsWordChar(s[e])
    decreases |s| - i
  {
    if i < |s| && IsWordChar(s[i]) then WordEnd(s, i + 1) else i
  }

  /** The end of the run of whitespace that starts at `i`. */
  function SpaceEnd(s: string, i: nat): (e: nat)
    requires i <= |s|
    ensures i <= e <= |s|
    ensures forall k :: i <= k < e ==> IsSpace(s[k])
    ensures e == |s| || !IsSpace(s[e])
    decreases |s| - i
  {
    if i < |s| && IsSpace(s[i]) then SpaceEnd(s, i + 1) else i
  }

  /** The first ")" at or after `i`. */
  function CloseParen(s: string, i: nat): (r: Option<nat>)
    requires i <= |s|
    ensures r.Some? ==> i <= r.value < |s| && s[r.value] == ')'
    ensures r.Some? ==> forall k :: i <= k < r.value ==> s[k] != ')'
    ensures r.None? ==> forall k :: i <= k < |s| ==> s[k] != ')'
    decreases |s| - i
  {
    if i == |s| then None
    else if s[i] == ')' then Some(i)
    else CloseParen(s, i + 1)
  }

  /**
   * The fixed words of the pattern read from `j`, just after the "(": where they
   * end, and the optional letters the pattern allows after them.
   */
  function Keyword(s: string, j: nat, w: Wording): (r: Option<(nat, string)>)
    requires j <= |s|
    ensures r.Some? ==> j < r.value.0 <= |s|
    ensures OccursAtCI(s, ALSO_KNOWN_AS, j) || OccursAtCI(s, FORMERLY_KNOWN_AS, j) ==> r.Some?
    ensures r.Some? ==>
      || (OccursAtCI(s, ALSO_KNOWN_AS, j) && r.value == (j + |ALSO_KNOWN_AS|, ""))
      || (OccursAtCI(s, FORMERLY_KNOWN_AS, j) && r.value == (j + |FORMERLY_KNOWN_AS|, ""))
      || IncludingAt(s, j, w, r.value.0 - |AliasWord(w)|)
    ensures r.Some? && !OccursAtCI(s, ALSO_KNOWN_AS, j) && !OccursAtCI(s, FORMERLY_KNOWN_AS, j) ==>
      r.value.1 == AliasEnding(w)
  {
    if OccursAtCI(s, ALSO_KNOWN_AS, j) then Some((j + |ALSO_KNOWN_AS|, ""))
    else if OccursAtCI(s, FORMERLY_KNOWN_AS, j) then Some((j + |FORMERLY_KNOWN_AS|, ""))
    else if OccursAtCI(s, INCLUDING, j) then
      var e := WordEnd(s, j + |INCLUDING|);
      var tail := AliasWord(w);
      if e > j + |INCLUDING| && OccursAtCI(s, tail, e) then
        Some((e + |tail|, AliasEnding(w)))
      else None
    else None
  }

  /** The fixed letters after the counted word: " aliase" as written, " alias" as intended. */
  function AliasWord(w: Wording): string {
    if w == AsWritten then " aliase" else " alias"
  }

  /** The optional letters after them: "s" as written, "es" as intended. */
  function AliasEnding(w: Wording): string {
    if w == AsWritten then "s" else "es"
  }

  /**
   * `including \w+` followed by the alias word at `e`, with case ignored: "including ",
   * a non-empty maximal run of word characters ending at `e`, then the alias word.
   */
  predicate IncludingAt(s: string, j: nat, w: Wording, e: int) {
    && OccursAtCI(s, INCLUDING, j)
    && j + |INCLUDING| < e <= |s|
    && WordEnd(s, j + |INCLUDING|) == e
    && OccursAtCI(s, AliasWord(w), e)
  }

  /**
   * Where the capture `([^)]+)` starts, the fixed words having ended at `k` and the
   * first ")" after them being at `q`. Greedily come the optional letters `opt`, an
   * optional ":" and whitespace; when they already reach the ")", the matcher
   * backtracks and the last of them is given back to the capture.
   */
  function CaptureStart(s: string, k: nat, opt: string, q: nat): (r: Option<nat>)
    requires k <= q < |s| && s[q] == ')'
    ensures r.Some? ==> k <= r.value < q
  {
    var optLen := if |opt| > 0 && k + |opt| <= q && OccursAtCI(s, opt, k) then |opt| else 0;
    var p1 := k + optLen;
    var colon := if p1 < q && s[p1] == ':' then 1 else 0;
    var p2 := p1 + colon;
    var p3 := SpaceEnd(s, p2);
    assert !IsSpace(s[q]);
    var giveBack := if p3 > p2 then 1 else if colon == 1 then 1 else optLen;
    if p3 < q then Some(p3)
    else if giveBack > 0 then Some(q - giveBack)
    else None
  }

  /**
   * `ALIAS_PATTERN.match(s, i)`: "(", the fixed words, then the capture, which
   * runs up to the first ")".
   */
  function MatchAt(s: string, i: nat, w: Wording): (r: Option<AliasMatch>)
    requires i < |s|
    ensures r.Some? ==> r.value.start == i && s[i] == '('
    ensures r.Some? ==> i < r.value.lo < r.value.hi < |s| && s[r.value.hi] == ')'
    ensures r.Some? ==> forall k :: r.value.lo <= k < r.value.hi ==> s[k] != ')'
  {
    if s[i] != '(' then None
    else
      match Keyword(s, i + 1, w)
      case None => None
      case Some((k, opt)) =>
        match CloseParen(s, k)
        case None => None
        case Some(q) =>
          match CaptureStart(s, k, opt, q)
          case None => None
          case Some(lo) => Some(AliasMatch(i, lo, q))
  }

  /** No match at `i`, and none from `i + 1` up to `k`: none from `i` up to `k`. */
  lemma NoMatchExtends(s: string, w: Wording, i: nat, k: nat)
    requires i < k <= |s| && MatchAt(s, i, w).None?
    requires forall j :: i + 1 <= j < k ==> MatchAt(s, j, w).None?
    ensures forall j :: i <= j < k ==> MatchAt(s, j, w).None?
  {
    forall j | i <= j < k ensures MatchAt(s, j, w).None? {
      if j != i {
        assert i + 1 <= j;
      }
    }
  }

  /** The leftmost index from `i` on where the pattern matches. */
  function SearchFrom(s: string, w: Wording, i: nat): (r: Option<nat>)
    requires i <= |s|
    ensures r.Some? ==> i <= r.value < |s| && MatchAt(s, r.value, w).Some?
    ensures r.Some? ==> forall j :: i <= j < r.value ==> MatchAt(s, j, w).None?
    ensures r.None? ==> forall j :: i <= j < |s| ==> MatchAt(s, j, w).None?
    decreases |s| - i
  {
    if i == |s| then None
    else if MatchAt(s, i, w).Some? then Some(i)
    else
      var r := SearchFrom(s, w, i + 1);
      NoMatchExtends(s, w, i, if r.Some? then r.value else |s|);
      r
  }

  /** `ALIAS_PATTERN.search(s)`: the match at the leftmost index where the pattern matches. */
  function Search(s: string, w: Wording): (r: Option<AliasMatch>)
    ensures r.Some? ==> r.value.start < r.value.lo < r.value.hi < |s|
    ensures r.Some? ==> MatchAt(s, r.value.start, w) == r
    ensures r.Some? ==> forall j :: 0 <= j < r.value.start ==> MatchAt(s, j, w).None?
    ensures r.None? ==> forall j :: 0 <= j < |s| ==> MatchAt(s, j, w).None?
  {
    match SearchFrom(s, w, 0)
    case None => None
    case Some(j) => MatchAt(s, j, w)
  }

  /** `and` followed by whitespace, at `e`. */
  predicate AndThenSpace(s: string, e: nat) {
    OccursAt(s, "and", e) && e + 3 < |s| && IsSpace(s[e + 3])
  }

  /** Where a match of the separator pattern that starts at `i` ends, if one does. */
  function SeparatorAt(s: string, i: nat): (r: Option<nat>)
    requires i < |s|
    ensures r.Some? ==> i < r.value <= |s|
    ensures r.Some? ==> s[i] == ';' || s[i] == ',' || IsSpace(s[i])
  {
    if s[i] == ';' then
      var e := SpaceEnd(s, i + 1);
      if AndThenSpace(s, e) then Some(SpaceEnd(s, e + 3)) else Some(e)
    else if s[i] == ',' then
      var e := SpaceEnd(s, i + 1);
      if AndThenSpace(s, e) then Some(SpaceEnd(s, e + 3)) else None
    else if IsSpace(s[i]) then
      var e := SpaceEnd(s, i);
      if AndThenSpace(s, e) then Some(SpaceEnd(s, e + 3)) else None
    else None
  }

  /** `re.split` from `i` on, the current piece having begun at `pos`. */
  function SplitFrom(s: string, pos: nat, i: nat): (parts: seq<string>)
    requires pos <= i <= |s|
    ensures |parts| >= 1
    ensures forall k :: 0 <= k < |parts| ==> Contains(s, parts[k])
    decreases |s| - i
  {
    if i == |s| then
      assert OccursAt(s, s[pos..], pos);
      [s[pos..]]
    else
      match SeparatorAt(s, i)
      case Some(e) =>
        assert OccursAt(s, s[pos..i], pos);
        [s[pos..i]] + SplitFrom(s, e, e)
      case None => SplitFrom(s, pos, i + 1)
  }

  /** `re.split(r';\s*(?:and\s+)?|,\s*and\s+|\s+and\s+', s)`: every piece is a slice of `s`. */
  function SplitAliases(s: string): (parts: seq<string>)
    ensures |parts| >= 1
    ensures forall k :: 0 <= k < |parts| ==> Contains(s, parts[k])
  {
    SplitFrom(s, 0, 0)
  }

  // The singular case: "(including one alias: NAME)".

  /** How an entry with a single alias introduces it: "(including one alias: NAME)". */
  const OPENING := "(including one alias: "

  /** A match at `i` with none before it is what the search returns. */
  lemma SearchFindsFirst(s: string, i: nat, w: Wording)
    requires i < |s| && MatchAt(s, i, w).Some?
    requires forall j :: 0 <= j < i ==> MatchAt(s, j, w).None?
    ensures Search(s, w) == MatchAt(s, i, w)
  {
  }

  lemma NoMatchWithoutParen(s: string, j: nat, w: Wording)
    requires j < |s| && s[j] != '('
    ensures MatchAt(s, j, w).None?
  {
  }

  /** What occurs verbatim also occurs ignoring case. */
  lemma OccursCIOfExact(s: string, p: string, j: nat)
    requires OccursAt(s, p, j)
    ensures OccursAtCI(s, p, j)
  {
    forall k | 0 <= k < |p| ensures s[j + k] == p[k] {
      OccursAtChar(s, p, j, k);
    }
    AgreeCIOfExact(s, p, j, 0);
  }

  /** One character that differs even ignoring case rules out an occurrence. */
  lemma NotOccursCI(s: string, p: string, j: nat, k: nat)
    requires k < |p| && j + k < |s| && Lower(s[j + k]) != Lower(p[k])
    ensures !OccursAtCI(s, p, j)
  {
    if j + |p| <= |s| {
      AgreeCIMismatch(s, p, j, 0, k);
    }
  }

  /** The opening is "(", "including ", "one", " alias" and ": ". */
  lemma OpeningParts()
    ensures |OPENING| == 22 && OPENING[0] == '('
    ensures OccursAt(OPENING, INCLUDING, 1) && OccursAt(OPENING, " alias", 14)
    ensures OPENING[11] == 'o' && OPENING[12] == 'n' && OPENING[13] == 'e'
    ensures OPENING[14] == ' ' && OPENING[20] == ':' && OPENING[21] == ' '
    ensures forall k :: 1 <= k < |OPENING| ==> OPENING[k] != '('
    ensures forall k :: 0 <= k < |OPENING| ==> OPENING[k] != ')'
  {
    assert OPENING[1..11] == INCLUDING;
    assert OPENING[14..20] == " alias";
  }

  /** The characters of the opening where it occurs. */
  lemma OpeningChars(s: string, i: nat)
    requires OccursAt(s, OPENING, i)
    ensures i + 22 <= |s| && s[i] == '('
    ensures OccursAt(s, INCLUDING, i + 1) && OccursAt(s, " alias", i + 14)
    ensures IsWordChar(s[i + 11]) && IsWordChar(s[i + 12]) && IsWordChar(s[i + 13])
    ensures s[i + 14] == ' ' && s[i + 20] == ':' && s[i + 21] == ' '
    ensures forall k :: i < k < i + 22 ==> s[k] != '('
    ensures forall k :: i <= k < i + 22 ==> s[k] != ')'
  {
    OpeningParts();
    OccursWithin(s, OPENING, i, INCLUDING, 1);
    OccursWithin(s, OPENING, i, " alias", 14);
    forall k | 0 <= k < 22 ensures s[i + k] == OPENING[k] {
      OccursAtChar(s, OPENING, i, k);
    }
    assert s[i + 11] == 'o' && s[i + 12] == 'n' && s[i + 13] == 'e';
  }

  /** The fixed words read after the "(" of the opening. */
  lemma KeywordOfOpening(s: string, i: nat, w: Wording)
    requires OccursAt(s, OPENING, i)
    ensures Keyword(s, i + 1, w) == if w == AsWritten then None else Some((i + 20, "es"))
  {
    OpeningChars(s, i);
    OccursAtChar(s, INCLUDING, i + 1, 0);
    NotOccursCI(s, ALSO_KNOWN_AS, i + 1, 0);
    NotOccursCI(s, FORMERLY_KNOWN_AS, i + 1, 0);
    OccursCIOfExact(s, INCLUDING, i + 1);
    assert !IsWordChar(s[i + 14]);
    assert WordEnd(s, i + 14) == i + 14;
    assert WordEnd(s, i + 13) == i + 14;
    assert WordEnd(s, i + 12) == i + 14;
    var e := WordEnd(s, i + 11);
    assert e == i + 14;
    if w == AsWritten {
      NotOccursCI(s, " aliase", e, 6);
    } else {
      OccursCIOfExact(s, " alias", e);
    }
  }

  /** The first ")" after the fixed words is the one after the name. */
  lemma CloseAfterOpening(s: string, i: nat, name: string)
    requires OccursAt(s, OPENING, i) && OccursAt(s, name, i + 22) && ')' !in name
    requires i + 22 + |name| < |s| && s[i + 22 + |name|] == ')'
    ensures CloseParen(s, i + 20) == Some(i + 22 + |name|)
  {
    var q := i + 22 + |name|;
    OpeningChars(s, i);
    assert s[i + 20] != ')' && s[i + 21] != ')';
    forall k | i + 22 <= k < q ensures s[k] != ')' {
      OccursAtChar(s, name, i + 22, k - i - 22);
    }
    CloseParenSkips(s, i + 20, q);
  }

  /** `CloseParen` passes over characters that are not ")". */
  lemma {:induction false} CloseParenSkips(s: string, i: nat, q: nat)
    requires i <= q <= |s| && forall k :: i <= k < q ==> s[k] != ')'
    ensures CloseParen(s, i) == CloseParen(s, q)
    decreases q - i
  {
    if i < q {
      CloseParenSkips(s, i + 1, q);
    }
  }

  /** After "alias" come ": " and the name: the capture starts at the name. */
  lemma CaptureAfterOpening(s: string, i: nat, name: string, q: nat)
    requires OccursAt(s, OPENING, i) && OccursAt(s, name, i + 22) && name != [] && !IsSpace(name[0])
    requires q == i + 22 + |name| && q < |s| && s[q] == ')'
    ensures CaptureStart(s, i + 20, "es", q) == Some(i + 22)
  {
    OpeningChars(s, i);
    NotOccursCI(s, "es", i + 20, 0);
    OccursAtChar(s, name, i + 22, 0);
    assert SpaceEnd(s, i + 22) == i + 22;
    assert SpaceEnd(s, i + 21) == i + 22;
  }

  /** A match is put together from its fixed words, its ")" and where its capture starts. */
  lemma MatchFromParts(s: string, i: nat, w: Wording, k: nat, opt: string, q: nat, lo: nat)
    requires i < |s| && s[i] == '('
    requires Keyword(s, i + 1, w) == Some((k, opt))
    requires k <= |s| && CloseParen(s, k) == Some(q)
    requires q < |s| && s[q] == ')' && CaptureStart(s, k, opt, q) == Some(lo)
    ensures MatchAt(s, i, w) == Some(AliasMatch(i, lo, q))
  {
  }

  /** With the intended wording, the opening followed by a name and ")" matches, capturing the name. */
  lemma MatchOfOpening(s: string, i: nat, name: string)
    requires OccursAt(s, OPENING, i) && OccursAt(s, name, i + 22)
    requires name != [] && !IsSpace(name[0]) && ')' !in name
    requires i + 22 + |name| < |s| && s[i + 22 + |name|] == ')'
    ensures MatchAt(s, i, Intended) == Some(AliasMatch(i, i + 22, i + 22 + |name|))
  {
    var q := i + 22 + |name|;
    OpeningChars(s, i);
    KeywordOfOpening(s, i, Intended);
    CloseAfterOpening(s, i, name);
    CaptureAfterOpening(s, i, name, q);
    MatchFromParts(s, i, Intended, i + 20, "es", q, i + 22);
  }

  /** No match starts before the first "(". */
  lemma NoMatchBeforeParen(s: string, i: nat, w: Wording)
    requires i <= |s| && forall j :: 0 <= j < i ==> s[j] != '('
    ensures forall j :: 0 <= j < i ==> MatchAt(s, j, w).None?
  {
    forall j | 0 <= j < i ensures MatchAt(s, j, w).None? {
      NoMatchWithoutParen(s, j, w);
    }
  }

  /**
   * As written, the pattern does not find a list introduced in the singular:
   * after "including one" it wants "aliase", and the text has "alias:". With no
   * other "(" in the text, there is no match at all.
   */
  lemma SingularAliasMissed(s: string, i: nat)
    requires OccursAt(s, OPENING, i)
    requires forall j :: 0 <= j < |s| && j != i ==> s[j] != '('
    ensures Search(s, AsWritten).None?
  {
    forall j | 0 <= j < |s| ensures MatchAt(s, j, AsWritten).None? {
      if j == i {
        NoMatchAtOpening(s, i);
      } else {
        NoMatchWithoutParen(s, j, AsWritten);
      }
    }
  }

  /** As written, the pattern does not match at the opening itself. */
  lemma NoMatchAtOpening(s: string, i: nat)
    requires OccursAt(s, OPENING, i)
    ensures i < |s| && MatchAt(s, i, AsWritten).None?
  {
    OpeningChars(s, i);
    KeywordOfOpening(s, i, AsWritten);
  }

  /**
   * With the intended wording, the opening followed by a name and ")" is found,
   * the capture being exactly the name, when no "(" comes before it.
   */
  lemma SingularAliasFound(s: string, i: nat, name: string)
    requires OccursAt(s, OPENING, i) && OccursAt(s, name, i + 22)
    requires name != [] && !IsSpace(name[0]) && ')' !in name
    requires i + 22 + |name| < |s| && s[i + 22 + |name|] == ')'
    requires forall j :: 0 <= j < i ==> s[j] != '('
    ensures Search(s, Intended) == Some(AliasMatch(i, i + 22, i + 22 + |name|))
  {
    MatchOfOpening(s, i, name);
    NoMatchBeforeParen(s, i, Intended);
    SearchFindsFirst(s, i, Intended);
  }
}
