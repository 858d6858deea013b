/**
 * `get_entity_list_text`: the entity list of the notice begins at its last
 * "Appendix 1" heading, so everything before that heading is dropped.
 */
module EntitySection {
  import opened Wrappers
  import opened Text

  const MARKER := "Appendix 1"

  /** `s.rfind(p, 0, i + |p|)`: the last index no greater than `i` at which `p` occurs. */
  function RFindFrom(s: string, p: string, i: nat): (r: Option<nat>)
    ensures r.Some? ==> r.value <= i && OccursAt(s, p, r.value)
    ensures r.Some? ==> forall j: nat :: r.value < j <= i ==> !OccursAt(s, p, j)
    ensures r.None? ==> forall j: nat :: j <= i ==> !OccursAt(s, p, j)
    decreases i
  {
    if OccursAt(s, p, i) then Some(i)
    else if i == 0 then None
    else RFindFrom(s, p, i - 1)
  }

  /** `s.rfind(p)`, with `None` for Python's -1. */
  function RFind(s: string, p: string): (r: Option<nat>)
    ensures r.Some? ==> OccursAt(s, p, r.value)
    ensures r.Some? ==> forall j: nat :: r.value < j ==> !OccursAt(s, p, j)
    ensures r.None? <==> !Contains(s, p)
  {
    RFindFrom(s, p, |s|)
  }

  /** An occurrence inside a suffix is an occurrence in the whole string, shifted. */
  lemma OccursInSuffix(s: string, p: string, i: nat, j: nat)
    requires i <= |s|
    ensures OccursAt(s[i..], p, j) <==> OccursAt(s, p, i + j)
  {
    if j + |p| <= |s| - i {
      assert s[i..][j..j + |p|] == s[i + j..i + j + |p|];
    }
  }

  /**
   * The text from the last "Appendix 1" on; the whole text when the heading is
   * missing. The result starts with the heading and holds no later copy of it.
   */
  function GetEntityListText(fullText: string): (r: string)
    ensures !Contains(fullText, MARKER) ==> r == fullText
    ensures Contains(fullText, MARKER) ==>
      |r| <= |fullText| && r == fullText[|fullText| - |r|..] && StartsWith(r, MARKER)
    ensures Contains(fullText, MARKER) ==> forall j: nat :: 0 < j ==> !OccursAt(r, MARKER, j)
  {
    match RFind(fullText, MARKER)
    case None => fullText
    case Some(idx) =>
      var r := fullText[idx..];
      OccursInSuffix(fullText, MARKER, idx, 0);
      assert forall j: nat :: 0 < j ==> !OccursAt(r, MARKER, j) by {
        forall j: nat | 0 < j ensures !OccursAt(r, MARKER, j) {
          OccursInSuffix(fullText, MARKER, idx, j);
        }
      }
      r
  }
}
