/**
 * The pieces of Python's string handling that the seeding script relies on:
 * whitespace as `str.isspace` and the regex class `\s` see it, `str.strip` and
 * `str.rstrip` (with and without a character set), `re.sub(r'\s+', ' ', s)`,
 * `str.split(sep)`, `sep.join(parts)`, `str.lower` and substring search.
 * Letter case is ASCII only.
 */
module Text {

  /** Python's whitespace: `str.isspace()`, and `\s` in a pattern over `str`. */
  predicate IsSpace(c: char) {
    c == ' ' || ('\t' <= c <= '\r') || ('\U{001C}' <= c <= '\U{001F}')
    || c == '\U{0085}' || c == '\U{00A0}' || c == '\U{1680}'
    || ('\U{2000}' <= c <= '\U{200A}') || c == '\U{2028}' || c == '\U{2029}'
    || c == '\U{202F}' || c == '\U{205F}' || c == '\U{3000}'
  }

  predicate IsUpper(c: char) { 'A' <= c <= 'Z' }
  predicate IsLower(c: char) { 'a' <= c <= 'z' }
  predicate IsDigit(c: char) { '0' <= c <= '9' }

  /** The regex class `\w`. */
  predicate IsWordChar(c: char) { IsUpper(c) || IsLower(c) || IsDigit(c) || c == '_' }

  function Lower(c: char): char {
    if IsUpper(c) then (c as int + 32) as char else c
  }

  /** `s.lower()` */
  function LowerStr(s: string): (r: string)
    ensures |r| == |s|
    ensures forall k :: 0 <= k < |r| ==> !IsUpper(r[k])
    ensures forall k :: 0 <= k < |s| && IsUpper(s[k]) ==> IsLower(r[k])
    ensures forall k :: 0 <= k < |s| && !IsUpper(s[k]) ==> r[k] == s[k]
  {
    seq(|s|, k requires 0 <= k < |s| => Lower(s[k]))
  }

  /** Two texts have the same lower-case form exactly when they agree letter by letter with case ignored. */
  lemma SameLower(a: string, b: string)
    ensures LowerStr(a) == LowerStr(b) <==> |a| == |b| && forall k :: 0 <= k < |a| ==> Lower(a[k]) == Lower(b[k])
  {
    if |a| == |b| && forall k :: 0 <= k < |a| ==> Lower(a[k]) == Lower(b[k]) {
      assert forall k :: 0 <= k < |a| ==> LowerStr(a)[k] == LowerStr(b)[k];
    }
  }

  /** Lower-casing twice is lower-casing once. */
  lemma LowerStrIdempotent(s: string)
    ensures LowerStr(LowerStr(s)) == LowerStr(s)
  {
    var r := LowerStr(s);
    assert forall k :: 0 <= k < |r| ==> LowerStr(r)[k] == r[k];
  }

  predicate IsPrefix(a: string, s: string) {
    |a| <= |s| && s[..|a|] == a
  }

  /** `p` occurs in `s` starting at index `i`. */
  predicate OccursAt(s: string, p: string, i: nat) {
    i + |p| <= |s| && s[i..i + |p|] == p
  }

  /** From index `k` of `p` on, `p` agrees with `s` at offset `i` once both are lower-cased. */
  predicate AgreeCIFrom(s: string, p: string, i: nat, k: nat)
    requires i + |p| <= |s| && k <= |p|
    decreases |p| - k
  {
    k == |p| || (Lower(s[i + k]) == Lower(p[k]) && AgreeCIFrom(s, p, i, k + 1))
  }

  /** Where `p` occurs verbatim, it agrees ignoring case. */
  lemma {:induction false} AgreeCIOfExact(s: string, p: string, i: nat, k: nat)
    requires i + |p| <= |s| && k <= |p|
    requires forall j :: k <= j < |p| ==> s[i + j] == p[j]
    ensures AgreeCIFrom(s, p, i, k)
    decreases |p| - k
  {
    if k < |p| {
      AgreeCIOfExact(s, p, i, k + 1);
    }
  }

  /** One position where the lower-cased characters differ rules out agreement. */
  lemma {:induction false} AgreeCIMismatch(s: string, p: string, i: nat, k: nat, m: nat)
    requires i + |p| <= |s| && k <= m < |p| && Lower(s[i + m]) != Lower(p[m])
    ensures !AgreeCIFrom(s, p, i, k)
    decreases m - k
  {
    if k < m {
      AgreeCIMismatch(s, p, i, k + 1, m);
    }
  }

  /** `p` occurs in `s` at index `i` when case is ignored (`re.IGNORECASE`). */
  predicate OccursAtCI(s: string, p: string, i: nat) {
    i + |p| <= |s| && AgreeCIFrom(s, p, i, 0)
  }

  /** The characters of an occurrence are those of the pattern. */
  lemma OccursAtChar(s: string, p: string, i: nat, k: nat)
    requires OccursAt(s, p, i) && k < |p|
    ensures s[i + k] == p[k]
  {
    assert s[i..i + |p|][k] == s[i + k];
  }

  /** An occurrence of a part of `p` inside an occurrence of `p`. */
  lemma OccursWithin(s: string, p: string, i: nat, q: string, j: nat)
    requires OccursAt(s, p, i) && OccursAt(p, q, j)
    ensures OccursAt(s, q, i + j)
  {
    forall k | 0 <= k < |q| ensures s[i + j + k] == q[k] {
      assert p[j..j + |q|][k] == p[j + k];
      assert s[i..i + |p|][j + k] == s[i + j + k];
    }
    assert s[i + j..i + j + |q|] == q;
  }

  /** `s.startswith(p)` */
  predicate StartsWith(s: string, p: string) {
    OccursAt(s, p, 0)
  }

  /** `p in s`, and `re.search` of a literal pattern. */
  predicate Contains(s: string, p: string) {
    exists i: nat :: i <= |s| && OccursAt(s, p, i)
  }

  /** `re.search(p, s, re.IGNORECASE)` for a literal pattern `p`. */
  predicate ContainsCI(s: string, p: string) {
    exists i: nat :: i <= |s| && OccursAtCI(s, p, i)
  }

  lemma ContainsTransitive(s: string, t: string, a: string)
    requires Contains(s, t) && Contains(t, a)
    ensures Contains(s, a)
  {
    var i: nat :| i <= |s| && OccursAt(s, t, i);
    var j: nat :| j <= |t| && OccursAt(t, a, j);
    assert t == s[i..i + |t|];
    forall k | 0 <= k < |a| ensures s[i + j + k] == a[k] {
      assert a[k] == t[j + k];
    }
    assert s[i + j..i + j + |a|] == a;
    assert OccursAt(s, a, i + j);
  }

  /** What `strip` removes: whitespace, or the characters of an explicit argument. */
  datatype CharClass = Whitespace | OneOf(chars: set<char>)

  predicate In(c: char, k: CharClass) {
    match k
    case Whitespace => IsSpace(c)
    case OneOf(cs) => c in cs
  }

  /** Every character of `t` belongs to the class. */
  predicate AllIn(t: string, k: CharClass) {
    forall i :: 0 <= i < |t| ==> In(t[i], k)
  }

  /** `s.lstrip()` or `s.lstrip(chars)` */
  function LStrip(s: string, k: CharClass): (r: string)
    ensures |r| <= |s| && r == s[|s| - |r|..]
    ensures r == [] || !In(r[0], k)
  {
    if s != [] && In(s[0], k) then LStrip(s[1..], k) else s
  }

  /** `lstrip` removes only characters of the class. */
  lemma {:induction false} LStripRemovesClass(s: string, k: CharClass)
    ensures AllIn(s[..|s| - |LStrip(s, k)|], k)
  {
    if s != [] && In(s[0], k) {
      var t := s[1..];
      LStripRemovesClass(t, k);
      var n := |s| - |LStrip(s, k)|;
      assert LStrip(s, k) == LStrip(t, k);
      forall i | 0 <= i < n ensures In(s[..n][i], k) {
        if i > 0 {
          assert s[..n][i] == t[..n - 1][i - 1];
        }
      }
    }
  }

  /** `s.rstrip()` or `s.rstrip(chars)` */
  function RStrip(s: string, k: CharClass): (r: string)
    ensures IsPrefix(r, s)
    ensures r == [] || !In(r[|r| - 1], k)
  {
    if s != [] && In(s[|s| - 1], k) then RStrip(s[..|s| - 1], k) else s
  }

  /** `rstrip` removes only characters of the class. */
  lemma {:induction false} RStripRemovesClass(s: string, k: CharClass)
    ensures AllIn(s[|RStrip(s, k)|..], k)
  {
    if s != [] && In(s[|s| - 1], k) {
      var t := s[..|s| - 1];
      RStripRemovesClass(t, k);
      assert s[|RStrip(s, k)|..] == t[|RStrip(t, k)|..] + [s[|s| - 1]];
    }
  }

  /** Sequence facts the solver finds slowly when the elements are strings. */
  lemma AppendAssoc<T>(x: seq<T>, y: seq<T>, z: seq<T>)
    ensures x + (y + z) == (x + y) + z
  {
  }

  lemma TailOfAppend<T>(a: seq<T>, b: seq<T>)
    requires a != []
    ensures (a + b)[0] == a[0] && (a + b)[1..] == a[1..] + b
  {
  }

  lemma TailIndex<T>(s: seq<T>, i: int)
    requires 1 <= i < |s|
    ensures s[1..][i - 1] == s[i]
  {
  }

  /** A prefix of a suffix of `s` occurs in `s` where the suffix starts. */
  lemma PrefixOfSuffix(s: string, l: string, r: string)
    requires |l| <= |s| && l == s[|s| - |l|..] && IsPrefix(r, l)
    ensures OccursAt(s, r, |s| - |l|) && Contains(s, r)
  {
    var i: nat := |s| - |l|;
    assert s[i..i + |r|] == l[..|r|];
    assert OccursAt(s, r, i);
  }

  /** `s.strip()` or `s.strip(chars)`: the slice left once both ends lose every character of the class. */
  function Strip(s: string, k: CharClass): (r: string)
    ensures r == [] || (!In(r[0], k) && !In(r[|r| - 1], k))
    ensures OccursAt(s, r, |s| - |LStrip(s, k)|)
    ensures Contains(s, r)
  {
    var l := LStrip(s, k);
    var r := RStrip(l, k);
    PrefixOfSuffix(s, l, r);
    r
  }

  lemma DropDrop(s: string, a: nat, b: nat)
    requires a + b <= |s|
    ensures s[a..][b..] == s[a + b..]
  {
  }

  /** The end `strip` removes is the end `rstrip` removes after `lstrip`. */
  lemma StripRemovesTail(s: string, k: CharClass)
    ensures AllIn(s[|s| - |LStrip(s, k)| + |Strip(s, k)|..], k)
  {
    var l := LStrip(s, k);
    var r := RStrip(l, k);
    assert r == Strip(s, k);
    DropDrop(s, |s| - |l|, |r|);
    RStripRemovesClass(l, k);
  }

  /** `strip` removes only characters of the class, from both ends. */
  lemma StripRemovesClass(s: string, k: CharClass)
    ensures AllIn(s[..|s| - |LStrip(s, k)|], k)
    ensures AllIn(s[|s| - |LStrip(s, k)| + |Strip(s, k)|..], k)
  {
    LStripRemovesClass(s, k);
    StripRemovesTail(s, k);
  }

  /** A string with no leading whitespace is left alone by `lstrip`. */
  lemma LStripNoop(s: string)
    requires s == [] || !IsSpace(s[0])
    ensures LStrip(s, Whitespace) == s
  {
  }

  /** Every whitespace character is a plain space and no two of them are adjacent. */
  predicate NoRuns(s: string) {
    && (forall i :: 0 <= i < |s| && IsSpace(s[i]) ==> s[i] == ' ')
    && (forall i, j :: 0 <= i < |s| && 0 <= j < |s| && j == i + 1 && IsSpace(s[i]) ==> !IsSpace(s[j]))
  }

  /** What `re.sub(r'\s+', ' ', s).strip()` produces: no runs, no whitespace at either end. */
  predicate Normalized(s: string) {
    NoRuns(s) && (s == [] || (!IsSpace(s[0]) && !IsSpace(s[|s| - 1])))
  }

  /** The characters of `s` that are not whitespace, in order. */
  function Visible(s: string): (r: string)
    ensures |r| <= |s|
  {
    if s == [] then [] else (if IsSpace(s[0]) then [] else [s[0]]) + Visible(s[1..])
  }

  lemma {:induction false} VisibleOfSpaces(s: string)
    requires AllIn(s, Whitespace)
    ensures Visible(s) == []
  {
    if s != [] {
      VisibleOfSpaces(s[1..]);
    }
  }

  lemma {:induction false} VisibleLStrip(s: string)
    ensures Visible(LStrip(s, Whitespace)) == Visible(s)
  {
    if s != [] && IsSpace(s[0]) {
      VisibleLStrip(s[1..]);
    }
  }

  /**
   * `re.sub(r'\s+', ' ', s)`: each maximal run of whitespace becomes one space, everything
   * else is kept in order.
   */
  function Collapse(s: string): (r: string)
    ensures |r| <= |s|
    ensures s != [] ==> r != [] && (IsSpace(r[0]) <==> IsSpace(s[0]))
    ensures NoRuns(r)
  {
    if s == [] then []
    else if IsSpace(s[0]) then " " + Collapse(LStrip(s[1..], Whitespace))
    else [s[0]] + Collapse(s[1..])
  }

  /**
   * A reference for `re.sub(r'\s+', ' ', s)` read one character at a time: a
   * whitespace character directly followed by whitespace is dropped, every other
   * whitespace character becomes a space, and every other character is kept.
   */
  function Squeeze(s: string): string {
    if s == [] then []
    else if IsSpace(s[0]) && |s| > 1 && IsSpace(s[1]) then Squeeze(s[1..])
    else [if IsSpace(s[0]) then ' ' else s[0]] + Squeeze(s[1..])
  }

  /** Collapsing each run at once is the same as squeezing character by character. */
  lemma {:induction false} CollapseIsSqueeze(s: string)
    ensures Collapse(s) == Squeeze(s)
  {
    if s != [] {
      CollapseIsSqueeze(s[1..]);
      if IsSpace(s[0]) && |s| > 1 {
        if IsSpace(s[1]) {
          assert s[1..][1..] == s[2..];
          assert LStrip(s[1..], Whitespace) == LStrip(s[2..], Whitespace);
        } else {
          LStripNoop(s[1..]);
        }
      }
    }
  }

  /** Collapsing keeps every visible character, in order. */
  lemma {:induction false} CollapseVisible(s: string)
    ensures Visible(Collapse(s)) == Visible(s)
  {
    if s != [] {
      if IsSpace(s[0]) {
        var t := LStrip(s[1..], Whitespace);
        var c := Collapse(t);
        CollapseVisible(t);
        VisibleLStrip(s[1..]);
        assert (" " + c)[1..] == c;
      } else {
        var c := Collapse(s[1..]);
        CollapseVisible(s[1..]);
        assert ([s[0]] + c)[1..] == c;
      }
    }
  }

  /** A piece of a string without runs has none either. */
  lemma NoRunsSlice(s: string, t: string, i: nat)
    requires OccursAt(s, t, i) && NoRuns(s)
    ensures NoRuns(t)
  {
    forall k | 0 <= k < |t| && IsSpace(t[k]) ensures t[k] == ' ' {
      assert t[k] == s[i + k];
    }
    forall k, m | 0 <= k < |t| && 0 <= m < |t| && m == k + 1 && IsSpace(t[k]) ensures !IsSpace(t[m]) {
      assert t[k] == s[i + k] && t[m] == s[i + m];
    }
  }

  /** `re.sub(r'\s+', ' ', s).strip()` */
  function NormalizeSpace(s: string): (r: string)
    ensures Normalized(r)
    ensures Visible(r) == Visible(s)
  {
    NormalizeSpaceNormalized(s);
    Strip(Collapse(s), Whitespace)
  }

  /** Stripping keeps a string free of runs: what is left is a slice of it. */
  lemma StripNoRuns(c: string)
    requires NoRuns(c)
    ensures NoRuns(Strip(c, Whitespace))
  {
    var r := Strip(c, Whitespace);
    var off := |c| - |LStrip(c, Whitespace)|;
    NoRunsSlice(c, r, off);
  }

  lemma NormalizeSpaceNormalized(s: string)
    ensures Normalized(Strip(Collapse(s), Whitespace))
    ensures Visible(Strip(Collapse(s), Whitespace)) == Visible(s)
  {
    var c := Collapse(s);
    var r := Strip(c, Whitespace);
    StripNoRuns(c);
    assert r == [] || (!IsSpace(r[0]) && !IsSpace(r[|r| - 1]));
    VisibleStrip(c);
    CollapseVisible(s);
  }

  lemma VisibleStrip(s: string)
    ensures Visible(Strip(s, Whitespace)) == Visible(s)
  {
    var l := LStrip(s, Whitespace);
    VisibleLStrip(s);
    VisibleRStrip(l);
  }

  lemma {:induction false} VisibleAppend(a: string, b: string)
    ensures Visible(a + b) == Visible(a) + Visible(b)
  {
    if a != [] {
      var h := if IsSpace(a[0]) then [] else [a[0]];
      calc {
        Visible(a + b);
        { assert (a + b)[0] == a[0] && (a + b)[1..] == a[1..] + b; }
        h + Visible(a[1..] + b);
        { VisibleAppend(a[1..], b); }
        h + (Visible(a[1..]) + Visible(b));
        (h + Visible(a[1..])) + Visible(b);
      }
    } else {
      assert a + b == b;
    }
  }

  lemma VisibleRStrip(s: string)
    ensures Visible(RStrip(s, Whitespace)) == Visible(s)
  {
    var r := RStrip(s, Whitespace);
    assert s == r + s[|r|..];
    RStripRemovesClass(s, Whitespace);
    VisibleAppend(r, s[|r|..]);
    VisibleOfSpaces(s[|r|..]);
  }

  lemma NoRunsTail(s: string)
    requires s != [] && NoRuns(s)
    ensures NoRuns(s[1..])
  {
    var t := s[1..];
    forall k | 0 <= k < |t| && IsSpace(t[k]) ensures t[k] == ' ' {
      assert t[k] == s[k + 1];
    }
    forall k, m | 0 <= k < |t| && 0 <= m < |t| && m == k + 1 && IsSpace(t[k]) ensures !IsSpace(t[m]) {
      assert t[k] == s[k + 1] && t[m] == s[m + 1];
    }
  }

  /** A string without runs that starts with whitespace starts with one plain space. */
  lemma SpaceHead(s: string)
    requires s != [] && NoRuns(s) && IsSpace(s[0])
    ensures s[0] == ' ' && (|s| == 1 || !IsSpace(s[1]))
  {
  }

  /** A string without runs is its own collapse. */
  lemma {:induction false} CollapseFixpoint(s: string)
    requires NoRuns(s)
    ensures Collapse(s) == s
  {
    if s != [] {
      var t := s[1..];
      NoRunsTail(s);
      CollapseFixpoint(t);
      if IsSpace(s[0]) {
        SpaceHead(s);
        LStripNoop(t);
      }
      assert s == [s[0]] + t;
    }
  }

  /** Normalizing is idempotent. */
  lemma NormalizeFixpoint(s: string)
    requires Normalized(s)
    ensures NormalizeSpace(s) == s
  {
    CollapseFixpoint(s);
    LStripNoop(s);
  }

  /** Stripping a prefix of a normalized string leaves a normalized prefix of it. */
  lemma StripPrefixOfNormalized(t: string, n: string)
    requires Normalized(n) && IsPrefix(t, n)
    ensures IsPrefix(Strip(t, Whitespace), n) && Normalized(Strip(t, Whitespace))
  {
    assert t == [] || t[0] == n[0];
    LStripNoop(t);
    var r := Strip(t, Whitespace);
    assert r == RStrip(t, Whitespace);
    assert IsPrefix(r, t);
    assert n[..|r|] == t[..|r|] == r;
    NoRunsSlice(n, r, 0);
    assert r == [] || (!IsSpace(r[0]) && !IsSpace(r[|r| - 1]));
  }

  /** `s.split(c)` for a one-character separator. */
  function Split(s: string, c: char): (parts: seq<string>)
    ensures |parts| >= 1
    ensures forall k :: 0 <= k < |parts| ==> c !in parts[k]
  {
    if s == [] then [[]]
    else
      var rest := Split(s[1..], c);
      if s[0] == c then [[]] + rest else [[s[0]] + rest[0]] + rest[1..]
  }

  /** `sep.join(parts)` */
  function Join(parts: seq<string>, sep: string): string {
    if |parts| == 0 then []
    else if |parts| == 1 then parts[0]
    else parts[0] + sep + Join(parts[1..], sep)
  }

  /** Joining the pieces of a split with the separator gives back the string. */
  lemma {:induction false} JoinSplit(s: string, c: char)
    ensures Join(Split(s, c), [c]) == s
  {
    if s != [] {
      var rest := Split(s[1..], c);
      JoinSplit(s[1..], c);
      if s[0] == c {
        assert Join(Split(s, c), [c]) == [] + [c] + Join(rest, [c]);
      } else if |rest| == 1 {
        assert Join(Split(s, c), [c]) == [s[0]] + rest[0];
      } else {
        var parts := Split(s, c);
        assert parts[1..] == rest[1..];
        assert Join(parts, [c]) == [s[0]] + rest[0] + [c] + Join(rest[1..], [c]);
      }
    }
  }

  /** A piece without the separator is the first part of a split. */
  lemma {:induction false} SplitAfterPiece(a: string, c: char, b: string)
    requires c !in a
    ensures Split(a + [c] + b, c) == [a] + Split(b, c)
  {
    if a == [] {
      assert ([c] + b)[1..] == b;
    } else {
      assert (a + [c] + b)[1..] == a[1..] + [c] + b;
      SplitAfterPiece(a[1..], c, b);
      assert [a[0]] + a[1..] == a;
    }
  }

  lemma {:induction false} SplitWithout(a: string, c: char)
    requires c !in a
    ensures Split(a, c) == [a]
  {
    if a != [] {
      SplitWithout(a[1..], c);
      assert [a[0]] + a[1..] == a;
    }
  }

  /** Splitting a join of separator-free pieces gives the pieces back. */
  lemma {:induction false} SplitJoin(parts: seq<string>, c: char)
    requires |parts| >= 1
    requires forall k :: 0 <= k < |parts| ==> c !in parts[k]
    ensures Split(Join(parts, [c]), c) == parts
  {
    if |parts| == 1 {
      SplitWithout(parts[0], c);
    } else {
      SplitJoin(parts[1..], c);
      SplitAfterPiece(parts[0], c, Join(parts[1..], [c]));
      assert parts[0] + [c] + Join(parts[1..], [c]) == Join(parts, [c]);
      assert [parts[0]] + parts[1..] == parts;
    }
  }
}
