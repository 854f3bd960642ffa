/**
 * The reconciliation step of create_properties: each incoming property takes
 * over the first existing property with the same name and type, if any; the
 * incoming one is then freed. Old properties nobody took over are freed at
 * the end, and the component's list becomes the new list.
 */
module ComponentMerge {
  import opened Common
  import opened Component

  /** The match test of the merge: same name and same type. */
  predicate SameKey(a: ComponentProperty, b: ComponentProperty) {
    a.name == b.name && a.ptype == b.ptype
  }

  /** The first existing property with the same name and type as p. */
  function FindMatch(existing: seq<ComponentProperty>, p: ComponentProperty): (r: Option<nat>)
    ensures r.Some? ==> r.value < |existing| && SameKey(existing[r.value], p)
    ensures r.Some? ==> forall j | 0 <= j < r.value :: !SameKey(existing[j], p)
    ensures r.None? ==> forall j | 0 <= j < |existing| :: !SameKey(existing[j], p)
    decreases |existing|
  {
    if |existing| == 0 then None
    else if SameKey(existing[0], p) then Some(0)
    else match FindMatch(existing[1..], p)
      case None => None
      case Some(k) => Some(k + 1)
  }

  function RemoveAt<T>(s: seq<T>, k: nat): (r: seq<T>)
    requires k < |s|
    ensures |r| == |s| - 1
    ensures forall i | 0 <= i < |r| :: r[i] == (if i < k then s[i] else s[i + 1])
    ensures multiset(r) + multiset{s[k]} == multiset(s)
  {
    assert s == s[..k] + [s[k]] + s[k + 1..];
    s[..k] + s[k + 1..]
  }

  /**
   * The outcome of the merge loop: the new list, the incoming properties freed
   * because an existing one was taken over, and the existing properties left over.
   */
  datatype MergeResult = MergeResult(
    props: seq<ComponentProperty>,
    discarded: seq<ComponentProperty>,
    remaining: seq<ComponentProperty>)

  function Merge(incoming: seq<ComponentProperty>, existing: seq<ComponentProperty>): MergeResult
    decreases |incoming|
  {
    if |incoming| == 0 then MergeResult([], [], existing)
    else match FindMatch(existing, incoming[0])
      case Some(k) =>
        var r := Merge(incoming[1..], RemoveAt(existing, k));
        MergeResult([existing[k]] + r.props, [incoming[0]] + r.discarded, r.remaining)
      case None =>
        var r := Merge(incoming[1..], existing);
        MergeResult([incoming[0]] + r.props, r.discarded, r.remaining)
  }

  /**
   * Shape of the merge: one entry per incoming property with its name and
   * type, each either that incoming property or an existing one; an incoming property
   * with no existing counterpart is kept; leftovers are existing properties.
   */
  lemma {:induction false} MergeShape(incoming: seq<ComponentProperty>, existing: seq<ComponentProperty>)
    ensures var r := Merge(incoming, existing);
            && |r.props| == |incoming|
            && (forall i | 0 <= i < |incoming| :: SameKey(r.props[i], incoming[i]))
            && (forall i | 0 <= i < |incoming| :: r.props[i] == incoming[i] || r.props[i] in existing)
            && (forall i | 0 <= i < |incoming| :: (forall q | q in existing :: !SameKey(q, incoming[i])) ==> r.props[i] == incoming[i])
            && (forall q | q in r.remaining :: q in existing)
    decreases |incoming|
  {
    if |incoming| > 0 {
      var head, tail := incoming[0], incoming[1..];
      var r := Merge(incoming, existing);
      match FindMatch(existing, head)
      case Some(k) =>
        var rest := RemoveAt(existing, k);
        var r' := Merge(tail, rest);
        MergeShape(tail, rest);
        assert r.props == [existing[k]] + r'.props && r.remaining == r'.remaining;
        assert forall j | 0 <= j < |rest| :: rest[j] in existing by {
          forall j | 0 <= j < |rest| ensures rest[j] in existing {
            if j < k { assert rest[j] == existing[j]; } else { assert rest[j] == existing[j + 1]; }
          }
        }
        forall i | 1 <= i < |incoming|
          ensures SameKey(r.props[i], incoming[i])
          ensures r.props[i] == incoming[i] || r.props[i] in existing
          ensures (forall q | q in existing :: !SameKey(q, incoming[i])) ==> r.props[i] == incoming[i]
        {
          assert incoming[i] == tail[i - 1] && r.props[i] == r'.props[i - 1];
        }
      case None =>
        var r' := Merge(tail, existing);
        MergeShape(tail, existing);
        assert r.props == [head] + r'.props && r.remaining == r'.remaining;
        forall i | 1 <= i < |incoming|
          ensures SameKey(r.props[i], incoming[i])
          ensures r.props[i] == incoming[i] || r.props[i] in existing
          ensures (forall q | q in existing :: !SameKey(q, incoming[i])) ==> r.props[i] == incoming[i]
        {
          assert incoming[i] == tail[i - 1] && r.props[i] == r'.props[i - 1];
        }
    }
  }

  /** What the merge puts in place of p: the first existing property with its key, or p itself. */
  function Counterpart(existing: seq<ComponentProperty>, p: ComponentProperty): ComponentProperty {
    match FindMatch(existing, p)
    case Some(k) => existing[k]
    case None => p
  }

  /** Unlinking a node of another key does not change what a lookup finds. */
  lemma FindMatchRemoveAt(s: seq<ComponentProperty>, k: nat, x: ComponentProperty)
    requires k < |s| && !SameKey(s[k], x)
    ensures Counterpart(RemoveAt(s, k), x) == Counterpart(s, x)
    ensures FindMatch(RemoveAt(s, k), x).Some? == FindMatch(s, x).Some?
  {
    var r := RemoveAt(s, k);
    match FindMatch(s, x)
    case Some(m) =>
      var m' := if m < k then m else m - 1;
      assert r[m'] == s[m];
      assert forall j | 0 <= j < m' :: r[j] == s[j] || r[j] == s[j + 1];
      var f := FindMatch(r, x);
      assert f.Some? && f.value == m';
    case None =>
      assert forall j | 0 <= j < |r| :: r[j] == s[j] || r[j] == s[j + 1];
  }

  /**
   * The take-over rule: an incoming property whose key no earlier incoming
   * property had is replaced by the first existing property with that name
   * and type, stored value and all; without one it is kept.
   */
  lemma {:induction false} MergeTakesOver(incoming: seq<ComponentProperty>, existing: seq<ComponentProperty>)
    ensures |Merge(incoming, existing).props| == |incoming|
    ensures forall i | 0 <= i < |incoming| && (forall j | 0 <= j < i :: !SameKey(incoming[j], incoming[i])) ::
              Merge(incoming, existing).props[i] == Counterpart(existing, incoming[i])
    decreases |incoming|
  {
    if |incoming| > 0 {
      var head, tail := incoming[0], incoming[1..];
      var r := Merge(incoming, existing);
      var pool := match FindMatch(existing, head)
        case Some(k) => RemoveAt(existing, k)
        case None => existing;
      var r' := Merge(tail, pool);
      assert r.props == [Counterpart(existing, head)] + r'.props;
      MergeTakesOver(tail, pool);
      forall i | 1 <= i < |incoming| && (forall j | 0 <= j < i :: !SameKey(incoming[j], incoming[i]))
        ensures r.props[i] == Counterpart(existing, incoming[i])
      {
        assert incoming[i] == tail[i - 1] && r.props[i] == r'.props[i - 1];
        assert forall j | 0 <= j < i - 1 :: tail[j] == incoming[j + 1];
        assert !SameKey(head, incoming[i]);
        match FindMatch(existing, head)
        case Some(k) => FindMatchRemoveAt(existing, k, incoming[i]);
        case None =>
      }
    }
  }

  /** The incoming properties that find an existing counterpart, in order. */
  function WithCounterpart(incoming: seq<ComponentProperty>, existing: seq<ComponentProperty>): seq<ComponentProperty>
    decreases |incoming|
  {
    if |incoming| == 0 then []
    else (if FindMatch(existing, incoming[0]).Some? then [incoming[0]] else []) + WithCounterpart(incoming[1..], existing)
  }

  lemma {:induction false} WithCounterpartRemoveAt(ps: seq<ComponentProperty>, s: seq<ComponentProperty>, k: nat)
    requires k < |s| && forall i | 0 <= i < |ps| :: !SameKey(s[k], ps[i])
    ensures WithCounterpart(ps, RemoveAt(s, k)) == WithCounterpart(ps, s)
    decreases |ps|
  {
    if |ps| > 0 {
      FindMatchRemoveAt(s, k, ps[0]);
      assert forall i | 0 <= i < |ps| - 1 :: ps[1..][i] == ps[i + 1];
      WithCounterpartRemoveAt(ps[1..], s, k);
    }
  }

  /**
   * With distinct incoming keys, the incoming properties freed by the merge
   * are exactly those that found an existing counterpart, in order.
   */
  lemma {:induction false} MergeDiscardsMatched(incoming: seq<ComponentProperty>, existing: seq<ComponentProperty>)
    requires DistinctKeys(incoming)
    ensures Merge(incoming, existing).discarded == WithCounterpart(incoming, existing)
    decreases |incoming|
  {
    if |incoming| > 0 {
      var head, tail := incoming[0], incoming[1..];
      assert DistinctKeys(tail) by {
        assert forall i | 0 <= i < |tail| :: tail[i] == incoming[i + 1];
      }
      match FindMatch(existing, head)
      case Some(k) =>
        MergeDiscardsMatched(tail, RemoveAt(existing, k));
        assert forall i | 0 <= i < |tail| :: !SameKey(existing[k], tail[i]) by {
          assert forall i | 0 <= i < |tail| :: tail[i] == incoming[i + 1];
        }
        WithCounterpartRemoveAt(tail, existing, k);
      case None =>
        MergeDiscardsMatched(tail, existing);
    }
  }

  /** Multiset bookkeeping of one merge step that takes over an existing node. */
  lemma MatchStepBalance<T>(head: T, taken: T, props: seq<T>, discarded: seq<T>, remaining: seq<T>,
                            tail: seq<T>, rest: seq<T>, existing: seq<T>)
    requires multiset(props) + multiset(discarded) + multiset(remaining) == multiset(tail) + multiset(rest)
    requires multiset(rest) + multiset{taken} == multiset(existing)
    ensures multiset([taken] + props) + multiset([head] + discarded) + multiset(remaining)
            == multiset([head] + tail) + multiset(existing)
  {
    var lhs := multiset([taken] + props) + multiset([head] + discarded) + multiset(remaining);
    var rhs := multiset([head] + tail) + multiset(existing);
    assert multiset([taken] + props) == multiset{taken} + multiset(props);
    assert multiset([head] + discarded) == multiset{head} + multiset(discarded);
    assert multiset([head] + tail) == multiset{head} + multiset(tail);
    forall x ensures lhs[x] == rhs[x] {
      assert (multiset(props) + multiset(discarded) + multiset(remaining))[x] == (multiset(tail) + multiset(rest))[x];
      assert (multiset(rest) + multiset{taken})[x] == multiset(existing)[x];
    }
  }

  /** Multiset bookkeeping of one merge step that keeps the incoming node. */
  lemma KeepStepBalance<T>(head: T, props: seq<T>, discarded: seq<T>, remaining: seq<T>,
                           tail: seq<T>, existing: seq<T>)
    requires multiset(props) + multiset(discarded) + multiset(remaining) == multiset(tail) + multiset(existing)
    ensures multiset([head] + props) + multiset(discarded) + multiset(remaining)
            == multiset([head] + tail) + multiset(existing)
  {
    var lhs := multiset([head] + props) + multiset(discarded) + multiset(remaining);
    var rhs := multiset([head] + tail) + multiset(existing);
    assert multiset([head] + props) == multiset{head} + multiset(props);
    assert multiset([head] + tail) == multiset{head} + multiset(tail);
    forall x ensures lhs[x] == rhs[x] {
      assert (multiset(props) + multiset(discarded) + multiset(remaining))[x] == (multiset(tail) + multiset(existing))[x];
    }
  }

  /** Nothing is lost and nothing is freed twice: every node ends up in exactly one of the three lists. */
  lemma {:induction false} MergeConserves(incoming: seq<ComponentProperty>, existing: seq<ComponentProperty>)
    ensures var r := Merge(incoming, existing);
            multiset(r.props) + multiset(r.discarded) + multiset(r.remaining) == multiset(incoming) + multiset(existing)
    decreases |incoming|
  {
    if |incoming| > 0 {
      var head, tail := incoming[0], incoming[1..];
      assert incoming == [head] + tail;
      match FindMatch(existing, head)
      case Some(k) =>
        var rest := RemoveAt(existing, k);
        var r' := Merge(tail, rest);
        MergeConserves(tail, rest);
        MatchStepBalance(head, existing[k], r'.props, r'.discarded, r'.remaining, tail, rest, existing);
      case None =>
        var r' := Merge(tail, existing);
        MergeConserves(tail, existing);
        KeepStepBalance(head, r'.props, r'.discarded, r'.remaining, tail, existing);
    }
  }

  ghost predicate DistinctKeys(ps: seq<ComponentProperty>) {
    forall i, j | 0 <= i < j < |ps| :: !SameKey(ps[i], ps[j])
  }

  lemma RemoveAtKeepsDistinct(existing: seq<ComponentProperty>, k: nat)
    requires k < |existing| && DistinctKeys(existing)
    ensures DistinctKeys(RemoveAt(existing, k))
    ensures forall q | q in RemoveAt(existing, k) :: !SameKey(q, existing[k])
  {
    var r := RemoveAt(existing, k);
    assert forall i | 0 <= i < |r| :: r[i] == (if i < k then existing[i] else existing[i + 1]);
  }

  /**
   * With distinct keys on the existing list, no leftover shares a name and type
   * with any incoming property: exactly the unmatched existing properties are freed.
   */
  lemma {:induction false} LeftoversUnmatched(incoming: seq<ComponentProperty>, existing: seq<ComponentProperty>)
    requires DistinctKeys(existing)
    ensures forall q, i | q in Merge(incoming, existing).remaining && 0 <= i < |incoming| :: !SameKey(q, incoming[i])
    decreases |incoming|
  {
    if |incoming| > 0 {
      var r := Merge(incoming, existing);
      assert forall i | 1 <= i < |incoming| :: incoming[1..][i - 1] == incoming[i];
      match FindMatch(existing, incoming[0])
      case Some(k) =>
        var existing' := RemoveAt(existing, k);
        RemoveAtKeepsDistinct(existing, k);
        LeftoversUnmatched(incoming[1..], existing');
        MergeShape(incoming[1..], existing');
        assert forall q | q in r.remaining :: !SameKey(q, incoming[0]);
      case None =>
        LeftoversUnmatched(incoming[1..], existing);
        MergeShape(incoming[1..], existing);
    }
  }

  /**
   * create_properties: without an args dictionary the component is left as
   * it is. Otherwise the accepted arguments become incoming properties at
   * addresses next, next+1, ..., they are merged with the existing list, and the
   * result is (component with the new list, properties freed, next address).
   */
  function CreateProperties(comp: PythonComponent, args: Option<seq<(PyKey, PyValue)>>, next: nat)
    : (r: (PythonComponent, seq<ComponentProperty>, nat))
    ensures args.None? ==> r == (comp, [], next)
    ensures args.Some? ==>
              && r.0 == comp.(properties := r.0.properties)
              && |r.0.properties| == |Accepted(args.value)|
              && r.2 == next + |Accepted(args.value)|
  {
    match args
    case None => (comp, [], next)
    case Some(a) =>
      var acc := Accepted(a);
      var incoming := FreshProperties(acc, next);
      var m := Merge(incoming, comp.properties);
      MergeShape(incoming, comp.properties);
      (comp.(properties := m.props), m.discarded + m.remaining, next + |acc|)
  }

  /**
   * The property list after create_properties: entry i has the name and type
   * of the i-th accepted argument; when an existing property had that name
   * and type (and no earlier argument claimed it), entry i is that existing
   * property with its stored value, else the fresh one. With distinct keys,
   * the freed nodes are the fresh properties that were taken over, then the
   * existing properties no argument claimed; every node of the existing and
   * fresh lists is either in the new list or freed, exactly once.
   */
  lemma CreatePropertiesReconciles(comp: PythonComponent, args: seq<(PyKey, PyValue)>, next: nat)
    ensures var acc := Accepted(args);
            var incoming := FreshProperties(acc, next);
            var r := CreateProperties(comp, Some(args), next);
            var props := r.0.properties;
            var leftovers := Merge(incoming, comp.properties).remaining;
            && |props| == |acc|
            && (forall i | 0 <= i < |acc| :: props[i].name == acc[i].name && props[i].ptype == acc[i].ptype)
            && (forall i | 0 <= i < |acc| && (forall j | 0 <= j < i :: !SameKey(incoming[j], incoming[i])) ::
                  props[i] == Counterpart(comp.properties, incoming[i]))
            && (DistinctKeys(incoming) ==> r.1 == WithCounterpart(incoming, comp.properties) + leftovers)
            && (forall q | q in leftovers :: q in comp.properties)
            && (DistinctKeys(comp.properties) ==>
                  forall q, i | q in leftovers && 0 <= i < |acc| :: !SameKey(q, incoming[i]))
            && multiset(props) + multiset(r.1) == multiset(incoming) + multiset(comp.properties)
  {
    var acc := Accepted(args);
    var incoming := FreshProperties(acc, next);
    MergeShape(incoming, comp.properties);
    MergeTakesOver(incoming, comp.properties);
    MergeConserves(incoming, comp.properties);
    if DistinctKeys(incoming) {
      MergeDiscardsMatched(incoming, comp.properties);
    }
    if DistinctKeys(comp.properties) {
      LeftoversUnmatched(incoming, comp.properties);
    }
  }

  /**
   * An int property "a" whose stored value is 42 survives reloading a class
   * that now declares a = 5: the old node stays, and the fresh node is freed.
   */
  lemma StoredValueSurvives()
    ensures var stored := ComponentProperty(0, "a", IntProp, IntData(42), NoPtr, None);
            var r := CreateProperties(PythonComponent(7, "m", "C", [stored]), Some([(StrKey("a"), PyInt(5))]), 1);
            && r.0.properties == [stored]
            && r.1 == [ComponentProperty(1, "a", IntProp, IntData(5), NoPtr, None)]
  {
    assert CString("a"[1..]) == [];
    assert StrNCopy("a", ArgNameSize) == "a";
    var args := [(StrKey("a"), PyInt(5))];
    assert Accepted(args[1..]) == [];
    assert Accepted(args) == [Arg("a", IntProp, IntData(5), NoPtr)];
  }
}
