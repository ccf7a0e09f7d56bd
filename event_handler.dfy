/**
 * The listener registry of the distribution build (`utils/EventHandler`).
 * It remembers (element, event type, listener) mappings so that every
 * listener it registered can be removed again, and it refuses to register
 * a second listener for an (element, type) pair it already maps.
 */
module EventHandler {

  /** What a DOM target offers for listening: the standard API, the legacy
      `attachEvent`/`detachEvent` pair, or neither. */
  datatype Api = Standard | LegacyAttach | NoApi

  /** A DOM target, identified by `id`, with the listening API it offers. */
  datatype Target = Target(id: nat, api: Api)

  /** One registered listener: the `{element, type, listener}` record. */
  datatype Mapping<L> = Mapping(element: Target, kind: string, listener: L)

  predicate Maps<L>(m: Mapping<L>, element: Target, kind: string) {
    m.element == element && m.kind == kind
  }

  /** No (element, type) pair is mapped twice. */
  ghost predicate UniquePairs<L>(ms: seq<Mapping<L>>) {
    forall i, j :: 0 <= i < j < |ms| ==> !Maps(ms[i], ms[j].element, ms[j].kind)
  }

  /** The (element, type) pairs mapped by `ms`. */
  ghost function Pairs<L>(ms: seq<Mapping<L>>): set<(Target, string)> {
    set i | 0 <= i < |ms| :: (ms[i].element, ms[i].kind)
  }

  /** `ms` without the mappings of one (element, type) pair, order kept. */
  function Without<L>(ms: seq<Mapping<L>>, element: Target, kind: string): (r: seq<Mapping<L>>)
    ensures |r| <= |ms|
  {
    if ms == [] then []
    else (if Maps(ms[0], element, kind) then [] else [ms[0]]) + Without(ms[1..], element, kind)
  }

  lemma {:induction false} WithoutPairs<L>(ms: seq<Mapping<L>>, element: Target, kind: string)
    ensures Pairs(Without(ms, element, kind)) == Pairs(ms) - {(element, kind)}
  {
    if ms != [] {
      WithoutPairs(ms[1..], element, kind);
      PairsFirst(ms);
      var head: seq<Mapping<L>> := if Maps(ms[0], element, kind) then [] else [ms[0]];
      PairsConcat(head, Without(ms[1..], element, kind));
    }
  }

  /** The pairs of a non-empty list: those of its first mapping and of the rest. */
  lemma PairsFirst<L>(ms: seq<Mapping<L>>)
    requires ms != []
    ensures Pairs(ms) == {(ms[0].element, ms[0].kind)} + Pairs(ms[1..])
  {
    forall p | p in Pairs(ms) ensures p in {(ms[0].element, ms[0].kind)} + Pairs(ms[1..]) {
      var i :| 0 <= i < |ms| && p == (ms[i].element, ms[i].kind);
      if i > 0 { assert p == (ms[1..][i - 1].element, ms[1..][i - 1].kind); }
    }
    forall p | p in Pairs(ms[1..]) ensures p in Pairs(ms) {
      var i :| 0 <= i < |ms[1..]| && p == (ms[1..][i].element, ms[1..][i].kind);
      assert p == (ms[i + 1].element, ms[i + 1].kind);
    }
  }

  /** The pairs of two lists joined: those of either. */
  lemma PairsConcat<L>(head: seq<Mapping<L>>, rest: seq<Mapping<L>>)
    ensures Pairs(head + rest) == Pairs(head) + Pairs(rest)
  {
    forall p | p in Pairs(head + rest) ensures p in Pairs(head) + Pairs(rest) {
      var i :| 0 <= i < |head + rest| && p == ((head + rest)[i].element, (head + rest)[i].kind);
      if i < |head| { assert (head + rest)[i] == head[i]; }
      else { assert (head + rest)[i] == rest[i - |head|]; }
    }
    forall p | p in Pairs(head) + Pairs(rest) ensures p in Pairs(head + rest) {
      if p in Pairs(head) {
        var i :| 0 <= i < |head| && p == (head[i].element, head[i].kind);
        assert (head + rest)[i] == head[i];
      } else {
        var i :| 0 <= i < |rest| && p == (rest[i].element, rest[i].kind);
        assert (head + rest)[i + |head|] == rest[i];
      }
    }
  }

  /** Removing a pair that was just appended restores the earlier mappings. */
  lemma {:induction false} AddRemoveRoundTrip<L>(ms: seq<Mapping<L>>, m: Mapping<L>)
    requires (m.element, m.kind) !in Pairs(ms)
    ensures Without(ms + [m], m.element, m.kind) == ms
  {
    if ms == [] {
      assert Without([m], m.element, m.kind) == [] + Without([m][1..], m.element, m.kind);
    } else {
      assert (ms[1..] + [m]) == (ms + [m])[1..];
      assert (m.element, m.kind) !in Pairs(ms[1..]) by {
        forall i | 0 <= i < |ms[1..]| ensures (ms[1..][i].element, ms[1..][i].kind) in Pairs(ms) {
          assert ms[1..][i] == ms[i + 1];
        }
      }
      assert !Maps(ms[0], m.element, m.kind) by {
        assert (ms[0].element, ms[0].kind) in Pairs(ms);
      }
      AddRemoveRoundTrip(ms[1..], m);
      assert ms == [ms[0]] + ms[1..];
    }
  }

  class Registry<L> {
    /** `_eventMappings`, in registration order. */
    var mappings: seq<Mapping<L>>
    /**
     * `_disposed`. `dispose` also sets `_eventMappings` to `null`, so once
     * this is true the list is gone: `mappings` is then empty, and every
     * query that reads `_eventMappings.length` throws a `TypeError`.
     */
    var disposed: bool

    ghost predicate Valid()
      reads this
    {
      UniquePairs(mappings) &&
      (forall j :: 0 <= j < |mappings| ==> mappings[j].element.api != NoApi) &&
      (disposed ==> mappings == [])
    }

    constructor ()
      ensures Valid() && mappings == [] && !disposed
    {
      mappings := [];
      disposed := false;
    }

    /** `hasEventListener`: scans the mappings from the most recent one;
        throws (`threw`) once the registry is disposed. */
    method Has(element: Target, kind: string) returns (found: bool, threw: bool)
      ensures threw <==> disposed
      ensures !threw ==> (found <==> (element, kind) in Pairs(mappings))
    {
      if disposed {
        return false, true;
      }
      threw := false;
      var i := |mappings|;
      while i > 0
        invariant 0 <= i <= |mappings|
        invariant forall j :: i <= j < |mappings| ==> !Maps(mappings[j], element, kind)
      {
        i := i - 1;
        if Maps(mappings[i], element, kind) {
          assert (mappings[i].element, mappings[i].kind) in Pairs(mappings);
          return true, false;
        }
      }
      found := false;
    }

    /** `addEventListener`: registers `listener` unless the pair is already
        mapped or the target offers no listening API; throws, through
        `hasEventListener`, once the registry is disposed. */
    method Add(element: Target, kind: string, listener: L) returns (added: bool, threw: bool)
      requires Valid()
      modifies this
      ensures Valid() && disposed == old(disposed)
      ensures threw <==> old(disposed)
      ensures threw ==> !added && mappings == old(mappings)
      ensures !threw ==> (added <==> (element, kind) !in Pairs(old(mappings)) && element.api != NoApi)
      ensures !threw ==>
                mappings == if added then old(mappings) + [Mapping(element, kind, listener)] else old(mappings)
    {
      var present;
      present, threw := Has(element, kind);
      if threw || present || element.api == NoApi {
        return false, threw;
      }
      forall i | 0 <= i < |mappings| ensures !Maps(mappings[i], element, kind) {
        assert (mappings[i].element, mappings[i].kind) in Pairs(mappings);
      }
      mappings := mappings + [Mapping(element, kind, listener)];
      added := true;
    }

    /** `removeEventListener`: drops the mapping of the pair, if there is one
        and the target offers a way to detach it; throws once the registry
        is disposed. */
    method Remove(element: Target, kind: string) returns (removed: bool, threw: bool)
      requires Valid()
      modifies this
      ensures Valid() && disposed == old(disposed)
      ensures threw <==> old(disposed)
      ensures threw ==> !removed
      ensures !threw ==> (removed <==> (element, kind) in Pairs(old(mappings)) && element.api != NoApi)
      ensures mappings == if removed then Without(old(mappings), element, kind) else old(mappings)
    {
      if disposed {
        return false, true;
      }
      threw := false;
      var i := |mappings|;
      while i > 0
        invariant 0 <= i <= |mappings|
        invariant forall j :: i <= j < |mappings| ==> !Maps(mappings[j], element, kind)
      {
        i := i - 1;
        if Maps(mappings[i], element, kind) {
          assert (element, kind) in Pairs(mappings) by {
            assert (mappings[i].element, mappings[i].kind) in Pairs(mappings);
          }
          if element.api == NoApi {
            return false, false;
          }
          WithoutSingle(mappings, i);
          mappings := mappings[..i] + mappings[i + 1..];
          SpliceUnique(old(mappings), i);
          return true, false;
        }
      }
      removed := false;
    }

    /**
     * `dispose`: removes every mapping, newest first, exactly once, then
     * drops the list. The library raises `_disposed` before its loop; the loop
     * never reads it, so raising the flag afterwards changes nothing.
     */
    method Dispose()
      requires Valid()
      modifies this
      ensures Valid() && disposed
      ensures mappings == []
      ensures old(disposed) ==> mappings == old(mappings)
    {
      if disposed {
        return;
      }
      while |mappings| > 0
        invariant Valid() && !disposed
        decreases |mappings|
      {
        var last := mappings[|mappings| - 1];
        ghost var before := mappings;
        assert (last.element, last.kind) in Pairs(before);
        var removed, threw := Remove(last.element, last.kind);
        AddRemoveRoundTrip(before[..|before| - 1], last);
        assert before == before[..|before| - 1] + [last];
      }
      disposed := true;
    }
  }

  /** With unique pairs, removing the pair at index `i` is the splice at `i`. */
  lemma {:induction false} WithoutSingle<L>(ms: seq<Mapping<L>>, i: nat)
    requires UniquePairs(ms) && i < |ms|
    ensures Without(ms, ms[i].element, ms[i].kind) == ms[..i] + ms[i + 1..]
  {
    if i == 0 {
      WithoutAbsent(ms[1..], ms[0].element, ms[0].kind);
    } else {
      assert UniquePairs(ms[1..]);
      WithoutSingle(ms[1..], i - 1);
      assert !Maps(ms[0], ms[i].element, ms[i].kind);
      assert ms[1..][i - 1] == ms[i];
      assert ms[..i] == [ms[0]] + ms[1..][..i - 1];
      assert ms[i + 1..] == ms[1..][i..];
    }
  }

  lemma {:induction false} WithoutAbsent<L>(ms: seq<Mapping<L>>, element: Target, kind: string)
    requires forall j :: 0 <= j < |ms| ==> !Maps(ms[j], element, kind)
    ensures Without(ms, element, kind) == ms
  {
    if ms != [] {
      WithoutAbsent(ms[1..], element, kind);
      assert ms == [ms[0]] + ms[1..];
    }
  }

  lemma SpliceUnique<L>(ms: seq<Mapping<L>>, i: nat)
    requires UniquePairs(ms) && i < |ms|
    ensures UniquePairs(ms[..i] + ms[i + 1..])
  {
    var r := ms[..i] + ms[i + 1..];
    forall a, b | 0 <= a < b < |r| ensures !Maps(r[a], r[b].element, r[b].kind) {
      var a' := if a < i then a else a + 1;
      var b' := if b < i then b else b + 1;
      assert r[a] == ms[a'] && r[b] == ms[b'];
    }
  }
}
