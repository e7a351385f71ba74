/** pkg/syncset/syncsetbylabelselector.go: an association list that stands in for a map keyed by label
    selectors, and the SelectorSyncSets rendered from it. */
module SyncSet {
  import opened Prelude
  import opened Text

  datatype Requirement = Requirement(key: string, operator: string, values: Option<seq<string>>)

  /** Equality of these values is `reflect.DeepEqual`: a nil map or list (`None`) differs from an empty one. */
  datatype LabelSelector = LabelSelector(
    matchLabels: Option<map<string, string>>,
    matchExpressions: Option<seq<Requirement>>)

  datatype Resource = Resource(raw: string)

  datatype Entry = Entry(key: LabelSelector, values: seq<Resource>)

  datatype Addition = Addition(key: LabelSelector, obj: Resource)

  // ---------------------------------------------------------------- the map that is represented

  /** The objects added under a key, in order. */
  function Under(added: seq<Addition>, key: LabelSelector): seq<Resource> {
    if added == [] then []
    else
      var n := |added| - 1;
      Under(added[..n], key) + (if added[n].key == key then [added[n].obj] else [])
  }

  /** The distinct keys in the order in which they were first used. */
  function FirstSeen(added: seq<Addition>): seq<LabelSelector> {
    if added == [] then []
    else
      var n := |added| - 1;
      var keys := FirstSeen(added[..n]);
      if added[n].key in keys then keys else keys + [added[n].key]
  }

  function EntriesOf(added: seq<Addition>): seq<Entry> {
    var keys := FirstSeen(added);
    seq(|keys|, i requires 0 <= i < |keys| => Entry(keys[i], Under(added, keys[i])))
  }

  function MapOf(added: seq<Addition>): map<LabelSelector, seq<Resource>> {
    map k | k in FirstSeen(added) :: Under(added, k)
  }

  lemma {:induction false} FirstSeenKeys(added: seq<Addition>)
    ensures Distinct(FirstSeen(added))
    ensures forall k :: k in FirstSeen(added) <==> exists i :: 0 <= i < |added| && added[i].key == k
  {
    if added != [] {
      var n := |added| - 1;
      var before := added[..n];
      FirstSeenKeys(before);
      assert forall i :: 0 <= i < n ==> added[i] == before[i];
      forall k ensures k in FirstSeen(added) <==> exists i :: 0 <= i < |added| && added[i].key == k {
        if k in FirstSeen(before) {
          var i :| 0 <= i < n && before[i].key == k;
          assert added[i].key == k;
        } else if k == added[n].key {
          assert added[n].key == k;
        }
      }
    }
  }

  lemma {:induction false} UnderKey(added: seq<Addition>, key: LabelSelector, obj: Resource)
    ensures obj in Under(added, key) <==> Addition(key, obj) in added
    ensures Under(added, key) != [] <==> key in FirstSeen(added)
  {
    if added != [] {
      var n := |added| - 1;
      UnderKey(added[..n], key, obj);
      assert added == added[..n] + [added[n]];
    }
  }

  lemma UnderAdd(added: seq<Addition>, a: Addition, key: LabelSelector)
    ensures Under(added + [a], key) == if a.key == key then Under(added, key) + [a.obj] else Under(added, key)
  {
  }

  lemma FirstSeenAdd(added: seq<Addition>, a: Addition)
    ensures FirstSeen(added + [a]) == if a.key in FirstSeen(added) then FirstSeen(added) else FirstSeen(added) + [a.key]
  {
  }

  /** Insertion order: what is added later comes later under its key, and new keys come after old ones. */
  lemma {:induction false} InsertionOrder(first: seq<Addition>, later: seq<Addition>, key: LabelSelector)
    ensures Under(first + later, key) == Under(first, key) + Under(later, key)
    ensures FirstSeen(first) <= FirstSeen(first + later)
    decreases |later|
  {
    if later == [] {
      assert first + later == first;
    } else {
      var n := |later| - 1;
      var all := first + later;
      InsertionOrder(first, later[..n], key);
      assert all[..|all| - 1] == first + later[..n] && all[|all| - 1] == later[n];
    }
  }

  lemma SingleAddition(a: Addition, key: LabelSelector)
    ensures Under([a], key) == if a.key == key then [a.obj] else []
    ensures FirstSeen([a]) == [a.key]
  {
    assert [a][..0] == [];
  }

  /** One more addition changes the represented map at its key only. */
  lemma MapAdd(added: seq<Addition>, a: Addition)
    ensures MapOf(added + [a]) == MapOf(added)[a.key := Under(added, a.key) + [a.obj]]
  {
    FirstSeenAdd(added, a);
    var after, expected := MapOf(added + [a]), MapOf(added)[a.key := Under(added, a.key) + [a.obj]];
    hide Under, FirstSeen;
    assert after.Keys == expected.Keys;
    forall k | k in after ensures after[k] == expected[k] { UnderAdd(added, a, k); }
  }

  /** One more addition under a known key extends that key's entry. */
  lemma EntriesExtended(added: seq<Addition>, a: Addition, i: nat)
    requires i < |FirstSeen(added)| && FirstSeen(added)[i] == a.key
    ensures var entries := EntriesOf(added);
            EntriesOf(added + [a]) == entries[i := entries[i].(values := entries[i].values + [a.obj])]
  {
    FirstSeenAdd(added, a);
    FirstSeenKeys(added);
    hide Under, FirstSeen;
    var keys, entries := FirstSeen(added), EntriesOf(added);
    var after := entries[i := entries[i].(values := entries[i].values + [a.obj])];
    forall j | 0 <= j < |keys| ensures EntriesOf(added + [a])[j] == after[j] {
      UnderAdd(added, a, keys[j]);
      assert j != i ==> keys[j] != a.key;
    }
  }

  /** One more addition under a new key adds an entry. */
  lemma EntriesGrown(added: seq<Addition>, a: Addition)
    requires a.key !in FirstSeen(added)
    ensures EntriesOf(added + [a]) == EntriesOf(added) + [Entry(a.key, [a.obj])]
  {
    FirstSeenAdd(added, a);
    UnderAdd(added, a, a.key);
    UnderKey(added, a.key, a.obj);
    hide Under, FirstSeen;
    var keys, more := FirstSeen(added), added + [a];
    assert Under(more, a.key) == [a.obj];
    forall j | 0 <= j < |keys| ensures EntriesOf(more)[j] == EntriesOf(added)[j] {
      assert keys[j] in keys;
      UnderAdd(added, a, keys[j]);
    }
    assert EntriesOf(more)[|keys|] == Entry(a.key, [a.obj]);
  }

  // ---------------------------------------------------------------- the list

  class SyncSetResources {
    var entries: seq<Entry>
    ghost var added: seq<Addition>  // everything added so far

    ghost predicate Valid()
      reads this
    {
      entries == EntriesOf(added)
    }

    constructor ()
      ensures Valid() && added == []
    {
      entries, added := [], [];
    }

    /** The returned position plays the part of the pointer into the list. */
    method Get(key: LabelSelector) returns (position: Option<nat>)
      requires Valid()
      ensures position.None? <==> key !in MapOf(added)
      ensures position.Some? ==> position.value < |entries| && entries[position.value] == Entry(key, MapOf(added)[key])
    {
      for i := 0 to |entries|
        invariant forall j :: 0 <= j < i ==> entries[j].key != key
      {
        if entries[i].key == key { return Some(i); }
      }
      forall i | 0 <= i < |FirstSeen(added)| ensures FirstSeen(added)[i] != key {
        assert entries[i].key == FirstSeen(added)[i];
      }
      position := None;
    }

    /** Appends to the entry of the key, or adds an entry; nothing else moves. */
    method Add(key: LabelSelector, obj: Resource)
      requires Valid()
      modifies this
      ensures Valid() && added == old(added) + [Addition(key, obj)]
      ensures MapOf(added) ==
              old(MapOf(added))[key := (if key in old(MapOf(added)) then old(MapOf(added))[key] else []) + [obj]]
      ensures |entries| == |old(entries)| + (if key in old(MapOf(added)) then 0 else 1)
      ensures forall i :: 0 <= i < |old(entries)| && old(entries)[i].key != key ==> entries[i] == old(entries)[i]
    {
      var existing := Get(key);
      ghost var a := Addition(key, obj);
      MapAdd(added, a);
      UnderKey(added, key, obj);
      if existing.Some? {
        var i := existing.value;
        EntriesExtended(added, a, i);
        entries := entries[i := entries[i].(values := entries[i].values + [obj])];
      } else {
        EntriesGrown(added, a);
        entries := entries + [Entry(key, [obj])];
      }
      added := added + [a];
    }

    /** RenderSelectorSyncSets, up to the encoding of each set. */
    method RenderSelectorSyncSets(labels: map<string, string>) returns (sets: seq<SelectorSyncSet>)
      requires Valid()
      ensures sets == Rendered(added, labels)
    {
      sets := [];
      for i := 0 to |entries|
        invariant |sets| == i
        invariant forall j :: 0 <= j < i ==>
                    sets[j] == SelectorSyncSet(NAME + Print(j), labels, entries[j].values, entries[j].key)
      {
        sets := sets + [SelectorSyncSet(NAME + Print(i), labels, entries[i].values, entries[i].key)];
      }
    }
  }

  // ---------------------------------------------------------------- conservation

  function PairsOf(key: LabelSelector, values: seq<Resource>): seq<Addition> {
    seq(|values|, i requires 0 <= i < |values| => Addition(key, values[i]))
  }

  function Pairs(entries: seq<Entry>): seq<Addition> {
    if entries == [] then [] else PairsOf(entries[0].key, entries[0].values) + Pairs(entries[1..])
  }

  lemma {:induction false} PairsConcat(a: seq<Entry>, b: seq<Entry>)
    ensures Pairs(a + b) == Pairs(a) + Pairs(b)
  {
    if a == [] {
      assert a + b == b;
    } else {
      hide PairsOf;
      var ab, first := a + b, PairsOf(a[0].key, a[0].values);
      assert ab[0] == a[0] && ab[1..] == a[1..] + b;
      assert Pairs(ab) == first + Pairs(ab[1..]);
      PairsConcat(a[1..], b);
      Associate(first, Pairs(a[1..]), Pairs(b));
    }
  }

  lemma Associate<T>(a: seq<T>, b: seq<T>, c: seq<T>)
    ensures a + (b + c) == (a + b) + c
  {
  }

  lemma PairsSingle(e: Entry, obj: Resource)
    ensures Pairs([e]) == PairsOf(e.key, e.values)
    ensures PairsOf(e.key, e.values + [obj]) == PairsOf(e.key, e.values) + [Addition(e.key, obj)]
  {
  }

  lemma PairsAppend(entries: seq<Entry>, i: nat, obj: Resource)
    requires i < |entries|
    ensures multiset(Pairs(entries[i := entries[i].(values := entries[i].values + [obj])])) ==
            multiset(Pairs(entries)) + multiset{Addition(entries[i].key, obj)}
  {
    var e := entries[i];
    var e' := e.(values := e.values + [obj]);
    var front, back := entries[..i], entries[i + 1..];
    PairsSingle(e, obj);
    PairsSingle(e', obj);
    PairsConcat(front, [e] + back);
    PairsConcat([e], back);
    PairsConcat(front, [e'] + back);
    PairsConcat([e'], back);
    assert entries == front + ([e] + back);
    assert entries[i := e'] == front + ([e'] + back);
  }

  /** The stored pairs are exactly the added pairs, with multiplicity. */
  lemma {:induction false} Conserved(added: seq<Addition>)
    ensures multiset(Pairs(EntriesOf(added))) == multiset(added)
  {
    if added != [] {
      var n := |added| - 1;
      var before, a := added[..n], added[n];
      Conserved(before);
      assert added == before + [a];
      var entries, keys := EntriesOf(before), FirstSeen(before);
      if a.key in keys {
        var i :| 0 <= i < |keys| && keys[i] == a.key;
        EntriesExtended(before, a, i);
        PairsAppend(entries, i, a.obj);
      } else {
        var e := Entry(a.key, [a.obj]);
        EntriesGrown(before, a);
        PairsConcat(entries, [e]);
        PairsSingle(e, a.obj);
        assert PairsOf(a.key, [a.obj]) == [a];
      }
    }
  }

  // ---------------------------------------------------------------- rendering

  const NAME: string := "managed-cluster-validating-webhooks-"

  datatype SelectorSyncSet = SelectorSyncSet(
    name: string,
    labels: map<string, string>,
    resources: seq<Resource>,
    selector: LabelSelector)

  function Rendered(added: seq<Addition>, labels: map<string, string>): seq<SelectorSyncSet> {
    var entries := EntriesOf(added);
    seq(|entries|, i requires 0 <= i < |entries| =>
      SelectorSyncSet(NAME + Print(i), labels, entries[i].values, entries[i].key))
  }

  /** Every added object is in some set that carries its own selector. */
  predicate Covers(sets: seq<SelectorSyncSet>, added: seq<Addition>) {
    forall a :: a in added ==> exists i :: 0 <= i < |sets| && sets[i].selector == a.key && a.obj in sets[i].resources
  }

  lemma RenderedCovers(added: seq<Addition>, labels: map<string, string>)
    ensures Covers(Rendered(added, labels), added)
  {
    FirstSeenKeys(added);
    var sets, keys := Rendered(added, labels), FirstSeen(added);
    forall a | a in added
      ensures exists i :: 0 <= i < |sets| && sets[i].selector == a.key && a.obj in sets[i].resources
    {
      UnderKey(added, a.key, a.obj);
      assert a == Addition(a.key, a.obj);
      var i :| 0 <= i < |keys| && keys[i] == a.key;
      assert sets[i].selector == a.key && a.obj in sets[i].resources;
    }
  }

  /** Rendering partitions the additions by selector: selectors and names are pairwise distinct, and
      each set holds precisely the objects added under its selector, in order. */
  lemma RenderedPartition(added: seq<Addition>, labels: map<string, string>)
    ensures var sets := Rendered(added, labels);
            && (forall i, j :: 0 <= i < j < |sets| ==> sets[i].selector != sets[j].selector && sets[i].name != sets[j].name)
            && (forall i :: 0 <= i < |sets| ==> sets[i].resources == Under(added, sets[i].selector) != [])
            && (forall i :: 0 <= i < |sets| ==>
                  sets[i].labels == labels && sets[i].name == "managed-cluster-validating-webhooks-" + Print(i))
            && (set i | 0 <= i < |sets| :: sets[i].selector) == (set a | a in added :: a.key)
  {
    var sets, keys := Rendered(added, labels), FirstSeen(added);
    FirstSeenKeys(added);
    forall i, j | 0 <= i < j < |sets| ensures sets[i].selector != sets[j].selector && sets[i].name != sets[j].name {
      assert keys[i] != keys[j];
      if sets[i].name == sets[j].name {
        assert Print(i) == sets[i].name[|NAME|..] && Print(j) == sets[j].name[|NAME|..];
        PrintInjective(i, j);
      }
    }
    forall i | 0 <= i < |sets| ensures Under(added, sets[i].selector) != [] {
      UnderKey(added, keys[i], Resource(""));
    }
    var left, right := set i | 0 <= i < |sets| :: sets[i].selector, set a | a in added :: a.key;
    forall k ensures k in left <==> k in right {
      if k in right {
        var a :| a in added && a.key == k;
        var j :| 0 <= j < |added| && added[j] == a;
        assert added[j].key == k;
        assert k in keys;
        var i :| 0 <= i < |keys| && keys[i] == k;
        assert sets[i].selector == k;
      }
      if k in left {
        assert k in keys;
        var i :| 0 <= i < |added| && added[i].key == k;
        assert added[i] in added;
      }
    }
  }

  /** The set of sets is minimal: no list of sets that covers the additions, each object under its own
      selector, is shorter than the rendered one. */
  lemma RenderedMinimal(added: seq<Addition>, labels: map<string, string>, other: seq<SelectorSyncSet>)
    requires Covers(other, added)
    ensures |Rendered(added, labels)| <= |other|
  {
    var keys := FirstSeen(added);
    FirstSeenKeys(added);
    DistinctSize(keys);
    var selectors := seq(|other|, i requires 0 <= i < |other| => other[i].selector);
    ElementsBound(selectors);
    forall k | k in keys ensures k in selectors {
      var j :| 0 <= j < |added| && added[j].key == k;
      assert added[j] in added;
      var i :| 0 <= i < |other| && other[i].selector == added[j].key && added[j].obj in other[i].resources;
      assert selectors[i] == k;
    }
    SubsetSize(Elements(keys), Elements(selectors));
  }
}
