/**
 * The de-duplication loop of `main`: every raw entry is parsed, failures are
 * dropped, and of the entities whose brands agree once lower-cased only the first
 * is kept.
 */
module Dedup {
  import opened Wrappers
  import opened Text
  import opened EntryParser
  import opened RawEntries

  /** The key two entities are compared by: the brand, lower-cased. */
  function Key(e: Entity): string {
    LowerStr(e.brand)
  }

  function Keys(es: seq<Entity>): set<string> {
    set e | e in es :: Key(e)
  }

  /**
   * The entities the raw entries parse to under `parse`, in order; entries that
   * do not parse are dropped. The loop below uses `ParseEntry`; the facts about
   * this list hold for any parser.
   */
  function Parsed(raws: seq<RawEntry>, parse: string -> Option<Entity>): (r: seq<Entity>)
    ensures |r| <= |raws|
  {
    if raws == [] then []
    else
      var last := raws[|raws| - 1];
      Parsed(raws[..|raws| - 1], parse) + match parse(last.text) { case None => [] case Some(e) => [e] }
  }

  /** Of the entities, those whose key no earlier entity has, in order. */
  function KeepFirst(es: seq<Entity>): (r: seq<Entity>)
    ensures |r| <= |es|
  {
    if es == [] then []
    else
      var init := es[..|es| - 1];
      var e := es[|es| - 1];
      KeepFirst(init) + if Key(e) in Keys(init) then [] else [e]
  }

  /** Every entity that parsed is a parse result of one of the raw entries, and vice versa. */
  lemma {:induction false} ParsedAreParses(raws: seq<RawEntry>, parse: string -> Option<Entity>)
    ensures forall e :: e in Parsed(raws, parse) ==> exists k :: 0 <= k < |raws| && parse(raws[k].text) == Some(e)
    ensures forall k :: 0 <= k < |raws| && parse(raws[k].text).Some? ==>
      parse(raws[k].text).value in Parsed(raws, parse)
  {
    if raws != [] {
      var init := raws[..|raws| - 1];
      ParsedAreParses(init, parse);
      forall e | e in Parsed(raws, parse)
        ensures exists k :: 0 <= k < |raws| && parse(raws[k].text) == Some(e)
      {
        if e in Parsed(init, parse) {
          var k :| 0 <= k < |init| && parse(init[k].text) == Some(e);
          assert raws[k] == init[k];
        } else {
          assert parse(raws[|raws| - 1].text) == Some(e);
        }
      }
      forall k | 0 <= k < |raws| && parse(raws[k].text).Some?
        ensures parse(raws[k].text).value in Parsed(raws, parse)
      {
        if k < |init| {
          assert raws[k] == init[k];
        }
      }
    }
  }

  /** De-duplication loses no key. */
  lemma {:induction false} KeysKept(es: seq<Entity>)
    ensures Keys(KeepFirst(es)) == Keys(es)
  {
    if es != [] {
      var init := es[..|es| - 1];
      var e := es[|es| - 1];
      KeysKept(init);
      assert es == init + [e];
      assert Keys(es) == Keys(init) + {Key(e)};
      if Key(e) in Keys(init) {
        assert KeepFirst(es) == KeepFirst(init);
      } else {
        assert KeepFirst(es) == KeepFirst(init) + [e];
        assert Keys(KeepFirst(init) + [e]) == Keys(KeepFirst(init)) + {Key(e)};
      }
    }
  }

  /** The kept entities have pairwise distinct keys. */
  lemma {:induction false} KeysDistinct(es: seq<Entity>)
    ensures var r := KeepFirst(es);
      forall i, j :: 0 <= i < j < |r| ==> Key(r[i]) != Key(r[j])
  {
    if es != [] {
      var init := es[..|es| - 1];
      var e := es[|es| - 1];
      KeysDistinct(init);
      KeysKept(init);
      var p := KeepFirst(init);
      if Key(e) !in Keys(init) {
        var r := p + [e];
        forall i, j | 0 <= i < j < |r| ensures Key(r[i]) != Key(r[j]) {
          if j == |p| {
            assert r[i] == p[i] && p[i] in p;
            assert Key(r[i]) in Keys(p);
          } else {
            assert r[i] == p[i] && r[j] == p[j];
          }
        }
      }
    }
  }

  /** The entity at `i` is the first with its key. */
  predicate FirstOfKey(es: seq<Entity>, i: nat)
    requires i < |es|
  {
    forall j :: 0 <= j < i ==> Key(es[j]) != Key(es[i])
  }

  /** Every kept entity is the first of its key. */
  lemma {:induction false} KeptAreFirst(es: seq<Entity>)
    ensures forall e :: e in KeepFirst(es) ==> exists i :: 0 <= i < |es| && es[i] == e && FirstOfKey(es, i)
  {
    if es != [] {
      var init := es[..|es| - 1];
      var n := |es| - 1;
      var e := es[n];
      KeptAreFirst(init);
      forall x | x in KeepFirst(es) ensures exists i :: 0 <= i < |es| && es[i] == x && FirstOfKey(es, i) {
        if x in KeepFirst(init) {
          var i :| 0 <= i < |init| && init[i] == x && FirstOfKey(init, i);
          assert es[i] == x;
          assert forall j :: 0 <= j < i ==> es[j] == init[j];
        } else {
          assert x == e && Key(e) !in Keys(init);
          forall j | 0 <= j < n ensures Key(es[j]) != Key(e) {
            assert es[j] == init[j] && init[j] in init;
          }
        }
      }
    }
  }

  /** Every first occurrence of a key is kept. */
  lemma {:induction false} FirstAreKept(es: seq<Entity>)
    ensures forall i :: 0 <= i < |es| && FirstOfKey(es, i) ==> es[i] in KeepFirst(es)
  {
    if es != [] {
      var init := es[..|es| - 1];
      var n := |es| - 1;
      var e := es[n];
      FirstAreKept(init);
      assert es == init + [e];
      KeepFirstStep(init, e);
      forall i | 0 <= i < |es| && FirstOfKey(es, i) ensures es[i] in KeepFirst(es) {
        if i < n {
          assert es[i] == init[i];
          assert forall j :: 0 <= j < i ==> es[j] == init[j];
          assert FirstOfKey(init, i);
        } else {
          forall y | y in init ensures Key(y) != Key(e) {
            var j :| 0 <= j < |init| && init[j] == y;
            assert es[j] == y;
          }
        }
      }
    }
  }

  /**
   * An entity is kept exactly when it is the first of its key: every kept entity
   * is such a first occurrence, and every first occurrence is kept.
   */
  lemma FirstOccurrencesKept(es: seq<Entity>)
    ensures forall e :: e in KeepFirst(es) ==> exists i :: 0 <= i < |es| && es[i] == e && FirstOfKey(es, i)
    ensures forall i :: 0 <= i < |es| && FirstOfKey(es, i) ==> es[i] in KeepFirst(es)
  {
    KeptAreFirst(es);
    FirstAreKept(es);
  }

  /** `a` is `b` with some entities left out, the rest in their order. */
  predicate Subsequence(a: seq<Entity>, b: seq<Entity>)
    decreases |b|
  {
    || a == []
    || (&& b != []
        && (|| (a[|a| - 1] == b[|b| - 1] && Subsequence(a[..|a| - 1], b[..|b| - 1]))
            || Subsequence(a, b[..|b| - 1])))
  }

  /** De-duplication keeps the input order. */
  lemma {:induction false} KeepFirstInOrder(es: seq<Entity>)
    ensures Subsequence(KeepFirst(es), es)
  {
    if es != [] {
      var init := es[..|es| - 1];
      var e := es[|es| - 1];
      var p := KeepFirst(init);
      KeepFirstInOrder(init);
      if Key(e) in Keys(init) {
        assert KeepFirst(es) == p;
      } else {
        var r := p + [e];
        assert KeepFirst(es) == r;
        assert r[..|r| - 1] == p;
      }
    }
  }

  /** One more raw entry adds its parse result, if any, at the end. */
  lemma ParsedStep(raws: seq<RawEntry>, parse: string -> Option<Entity>, i: nat)
    requires i < |raws|
    ensures Parsed(raws[..i + 1], parse) ==
      Parsed(raws[..i], parse) + match parse(raws[i].text) { case None => [] case Some(e) => [e] }
  {
    assert raws[..i + 1][..i] == raws[..i];
  }

  /** One more entity is kept exactly when its key is new. */
  lemma KeepFirstStep(es: seq<Entity>, e: Entity)
    ensures KeepFirst(es + [e]) == KeepFirst(es) + if Key(e) in Keys(es) then [] else [e]
    ensures Keys(es + [e]) == Keys(es) + {Key(e)}
  {
    assert (es + [e])[..|es|] == es;
  }

  /** One more raw entry adds its parse result, if any, to the parsed entities. */
  lemma ParsedGrows(raws: seq<RawEntry>, parse: string -> Option<Entity>, i: nat, entity: Option<Entity>)
    requires i < |raws| && entity == parse(raws[i].text)
    ensures entity.None? ==> Parsed(raws[..i + 1], parse) == Parsed(raws[..i], parse)
    ensures entity.Some? ==> Parsed(raws[..i + 1], parse) == Parsed(raws[..i], parse) + [entity.value]
  {
    ParsedStep(raws, parse, i);
    if entity.None? {
      assert Parsed(raws[..i], parse) + [] == Parsed(raws[..i], parse);
    }
  }

  /** The body of the loop for an entry that parsed: keep the entity if its key is new. */
  method Admit(entities: seq<Entity>, seen: set<string>, entity: Entity, ghost parsed: seq<Entity>)
    returns (entities': seq<Entity>, seen': set<string>)
    requires entities == KeepFirst(parsed) && seen == Keys(parsed)
    ensures entities' == KeepFirst(parsed + [entity]) && seen' == Keys(parsed + [entity])
  {
    KeepFirstStep(parsed, entity);
    var key := LowerStr(entity.brand);
    entities', seen' := entities, seen;
    if key !in seen {
      seen' := seen + {key};
      entities' := entities + [entity];
    }
  }

  /**
   * The loop of `main` that collects unique entities: each raw entry is parsed,
   * and an entity is appended when its lower-cased brand has not been seen.
   */
  method UniqueEntities(raws: seq<RawEntry>) returns (entities: seq<Entity>)
    ensures entities == KeepFirst(Parsed(raws, ParseEntry))
  {
    entities := [];
    var seen: set<string> := {};
    var i := 0;
    while i < |raws|
      invariant 0 <= i <= |raws|
      invariant entities == KeepFirst(Parsed(raws[..i], ParseEntry))
      invariant seen == Keys(Parsed(raws[..i], ParseEntry))
    {
      var entity := ParseEntry(raws[i].text);
      ParsedGrows(raws, ParseEntry, i, entity);
      if entity.Some? {
        entities, seen := Admit(entities, seen, entity.value, Parsed(raws[..i], ParseEntry));
      }
      i := i + 1;
    }
    assert raws[..i] == raws;
  }
}
