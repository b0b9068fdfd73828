/** The queue side of FlashMessage, stated on values: what `add` does to the
    namespace, what `clear` removes, what the two queries answer, what
    `do_redirect` decides, and how `set_css_class_map` merges. */
module Queue {
  import opened Text
  import opened FlashTypes

  /** The namespace as a map; an absent namespace reads as an empty one. */
  function Current(ns: Option<Buckets>): (b: Buckets)
    ensures ns.None? ==> b == map[]
  {
    if ns.Some? then ns.value else map[]
  }

  /** The messages pending under `k`; an absent bucket reads as an empty one. */
  function Pending(ns: Option<Buckets>, k: char): (q: seq<Msg>)
    ensures ns.Some? && k in ns.value ==> q == ns.value[k]
    ensures ns.None? || k !in ns.value ==> q == []
  {
    if ns.Some? && k in ns.value then ns.value[k] else []
  }

  /** The namespace after `add` queues `m` under `k`: the bucket is created if
      absent and `m` goes at its end; every other bucket is kept. An absent
      namespace is created. */
  function Enqueue(ns: Option<Buckets>, k: char, m: Msg): (b: Buckets)
    ensures b.Keys == Current(ns).Keys + {k}
    ensures b[k] == Pending(ns, k) + [m]
    ensures forall j :: j in b && j != k ==> b[j] == Current(ns)[j]
  {
    Current(ns)[k := Pending(ns, k) + [m]]
  }

  /** A `clear` argument that unsets the whole namespace: null, an empty
      array, or a falsy name. These are exactly the arguments for which
      `display` falls back to all four types. */
  function ClearsAll(sel: Selector): (r: bool)
    ensures r ==> VisitOrder(sel) == TypeOrder
  {
    sel.AllTypes? || sel == TypeList([]) || (sel.OneType? && IsFalsy(sel.name))
  }

  /** The buckets a narrower `clear` unsets: the one-character names given. */
  function Named(sel: Selector): (ks: set<char>)
    ensures sel.OneType? ==> forall c :: c in ks <==> sel.name == [c]
    ensures sel.TypeList? ==> forall c :: c in ks <==> [c] in sel.types
  {
    match sel
    case AllTypes => {}
    case TypeList(names) => KeysNamed(names)
    case OneType(name) => if KeyOf(name).Some? then {KeyOf(name).value} else {}
  }

  /** The namespace after `clear(sel)`: gone for a clear-all argument,
      otherwise the named buckets are removed and the rest kept; unsetting
      inside an absent namespace leaves it absent. */
  function Cleared(ns: Option<Buckets>, sel: Selector): (r: Option<Buckets>)
    ensures ClearsAll(sel) || ns.None? ==> r.None?
    ensures !ClearsAll(sel) && ns.Some? ==>
      r.Some? && r.value.Keys == ns.value.Keys - Named(sel) &&
      forall k :: k in r.value ==> r.value[k] == ns.value[k]
  {
    if ClearsAll(sel) then None
    else match ns
      case None => None
      case Some(b) => Some(b - Named(sel))
  }

  /** `has_errors`: whether the error bucket holds a message. */
  function HasErrors(ns: Option<Buckets>): (r: bool)
    ensures r <==> ns.Some? && Error in ns.value && ns.value[Error] != []
  {
    Pending(ns, Error) != []
  }

  /** The first non-empty bucket along `order`, or None when all are empty. */
  function FirstNonEmpty(ns: Option<Buckets>, order: seq<char>): (r: Option<seq<Msg>>)
    ensures r.None? <==> forall i :: 0 <= i < |order| ==> Pending(ns, order[i]) == []
    ensures r.Some? ==> r.value != []
    ensures r.Some? ==>
      exists i :: 0 <= i < |order| && r.value == Pending(ns, order[i]) &&
                  forall j :: 0 <= j < i ==> Pending(ns, order[j]) == []
  {
    if order == [] then None
    else if Pending(ns, order[0]) != [] then Some(Pending(ns, order[0]))
    else
      var r := FirstNonEmpty(ns, order[1..]);
      assert forall i :: 1 <= i < |order| ==> order[i] == order[1..][i - 1];
      r
  }

  /** `has_messages($type)`: for a given name, its bucket when non-empty
      (the name is looked up as is, without normalisation); for null, the first
      non-empty bucket in canonical order; otherwise false (None). */
  function HasMessages(ns: Option<Buckets>, name: Option<string>): (r: Option<seq<Msg>>)
    ensures r.Some? ==> r.value != []
    ensures name.Some? ==>
      (r.Some? <==> |name.value| == 1 && Pending(ns, name.value[0]) != []) &&
      (r.Some? ==> r.value == Pending(ns, name.value[0]))
    ensures name.None? ==> r == FirstNonEmpty(ns, TypeOrder)
  {
    match name
    case Some(t) =>
      var k := KeyOf(t);
      if k.Some? && Pending(ns, k.value) != [] then Some(Pending(ns, k.value)) else None
    case None => FirstNonEmpty(ns, TypeOrder)
  }

  /** PHP truthiness of the pending redirect URL (null, "" and "0" are falsy). */
  predicate Truthy(url: Option<string>) {
    url.Some? && !IsFalsy(url.value)
  }

  /** `do_redirect`: redirect to the pending URL when it is truthy, otherwise die. */
  function Finalize(url: Option<string>): (h: Halt)
    ensures h.Redirect? <==> Truthy(url)
    ensures h.Redirect? ==> url == Some(h.url)
  {
    if Truthy(url) then Redirect(url.value) else Die
  }

  /** The entry keys of a class-map array. */
  function PairKeys(pairs: seq<(string, string)>): set<string> {
    set i | 0 <= i < |pairs| :: pairs[i].0
  }

  /** The class map after assigning each pair in order. */
  function Merged(m: map<string, string>, pairs: seq<(string, string)>): (r: map<string, string>)
    ensures r.Keys == m.Keys + PairKeys(pairs)
  {
    if pairs == [] then m
    else
      var init := pairs[..|pairs| - 1];
      var last := pairs[|pairs| - 1];
      assert PairKeys(pairs) == PairKeys(init) + {last.0} by {
        assert forall i :: 0 <= i < |init| ==> init[i] == pairs[i];
      }
      Merged(m, init)[last.0 := last.1]
  }

  /** The class map after `set_css_class_map(arg)`. */
  function ClassMapAfter(m: map<string, string>, arg: ClassMapArg): (r: map<string, string>)
    ensures m.Keys <= r.Keys
    ensures arg.OneClass? && arg.cssClass.None? ==> r == m
    ensures arg.OneClass? && arg.cssClass.Some? ==>
      r.Keys == m.Keys + {arg.msgType} && r[arg.msgType] == arg.cssClass.value &&
      forall k :: k in m && k != arg.msgType ==> r[k] == m[k]
  {
    match arg
    case OneClass(t, c) =>
      if c.None? then m
      else
        assert [(t, c.value)][..0] == [];
        assert Merged(m, [(t, c.value)]) == m[t := c.value];
        Merged(m, [(t, c.value)])
    case ClassPairs(pairs) => Merged(m, pairs)
  }

  // ---------------------------------------------------------------------
  // Properties of the queue operations

  /** `add` creates a missing bucket empty and then appends to it; that is
      `Enqueue`. */
  lemma CreateThenAppend(ns: Option<Buckets>, k: char, m: Msg)
    ensures var created := if k !in Current(ns) then Current(ns)[k := []] else Current(ns);
      created[k := created[k] + [m]] == Enqueue(ns, k, m)
  {
    var created := if k !in Current(ns) then Current(ns)[k := []] else Current(ns);
    var queued := Enqueue(ns, k, m);
    assert created[k := created[k] + [m]].Keys == queued.Keys;
    forall j | j in queued
      ensures created[k := created[k] + [m]][j] == queued[j]
    {
      if j != k {
        assert queued[j] == Current(ns)[j];
      }
    }
  }

  /** Clearing one type key (as `display` does after rendering it) removes
      just that bucket; only the falsy name "0" would clear everything. */
  lemma ClearOneKey(b: Buckets, t: char)
    requires t != '0'
    ensures Cleared(Some(b), OneType([t])) == Some(b - {t})
  {
    assert [t] != "0" && [t] != "" && KeyOf([t]) == Some(t);
  }

  /** A narrower `clear` is the removal of the buckets its names address. */
  lemma ClearedIsRemoval(ns: Option<Buckets>, sel: Selector, names: seq<string>)
    requires !ClearsAll(sel)
    requires names == if sel.OneType? then [sel.name] else sel.types
    ensures Cleared(ns, sel) == if ns.Some? then Some(ns.value - KeysNamed(names)) else None
  {
    assert KeysNamed(names) == Named(sel);
  }

  /** Assigning one more pair of the array. */
  lemma MergedStep(m: map<string, string>, pairs: seq<(string, string)>, i: nat)
    requires i < |pairs|
    ensures Merged(m, pairs[..i + 1]) == Merged(m, pairs[..i])[pairs[i].0 := pairs[i].1]
  {
    assert pairs[..i + 1][..i] == pairs[..i];
  }

  /** Unsetting one more name of the array. */
  lemma KeysNamedStep(names: seq<string>, i: nat)
    requires i < |names|
    ensures KeysNamed(names[..i + 1]) == KeysNamed(names[..i]) + (if |names[i]| == 1 then {names[i][0]} else {})
  {
    assert names[..i + 1][..i] == names[..i];
  }

  /** The namespace after unsetting one more name of the array. */
  lemma RemovalStep(b: Buckets, names: seq<string>, i: nat)
    requires i < |names|
    ensures |names[i]| == 1 ==> b - KeysNamed(names[..i + 1]) == (b - KeysNamed(names[..i])) - {names[i][0]}
    ensures |names[i]| != 1 ==> b - KeysNamed(names[..i + 1]) == b - KeysNamed(names[..i])
  {
    KeysNamedStep(names, i);
  }

  /** A class assigned by the array is the one the last pair for that key
      gives; a key no pair names keeps its class. */
  lemma {:induction false} MergedLookup(m: map<string, string>, pairs: seq<(string, string)>, k: string)
    ensures k !in PairKeys(pairs) && k in m ==> Merged(m, pairs)[k] == m[k]
    ensures forall i :: 0 <= i < |pairs| && pairs[i].0 == k && (forall j :: i < j < |pairs| ==> pairs[j].0 != k) ==>
      Merged(m, pairs)[k] == pairs[i].1
  {
    if pairs != [] {
      var init := pairs[..|pairs| - 1];
      MergedLookup(m, init, k);
      assert forall i :: 0 <= i < |init| ==> init[i] == pairs[i];
      assert k !in PairKeys(pairs) ==> k !in PairKeys(init) by {
        if k in PairKeys(init) {
          var i :| 0 <= i < |init| && init[i].0 == k;
          assert pairs[i].0 == k;
        }
      }
    }
  }

  /** `set_css_class_map` never removes a class, so a valid style stays valid. */
  lemma ClassMapAfterKeepsValid(s: Style, arg: ClassMapArg)
    requires StyleValid(s)
    ensures StyleValid(s.(classMap := ClassMapAfter(s.classMap, arg)))
  {
  }

  /** `add` only ever creates one of the four type buckets. */
  lemma EnqueueKeepsWellKeyed(ns: Option<Buckets>, msgType: string, m: Msg)
    requires WellKeyed(ns)
    ensures WellKeyed(Some(Enqueue(ns, AddKey(msgType), m)))
  {
  }

  /** Clearing only removes buckets. */
  lemma ClearedKeepsWellKeyed(ns: Option<Buckets>, sel: Selector)
    requires WellKeyed(ns)
    ensures WellKeyed(Cleared(ns, sel))
  {
  }

  /** `has_errors` agrees with `has_messages('e')`. */
  lemma HasErrorsIsHasMessagesE(ns: Option<Buckets>)
    ensures HasErrors(ns) <==> HasMessages(ns, Some("e")).Some?
  {
    assert KeyOf("e") == Some('e');
  }

  /** After queueing an error, `has_errors` holds, and `has_messages()` finds
      a bucket whatever type was queued. */
  lemma EnqueueThenQueries(ns: Option<Buckets>, k: char, m: Msg)
    requires IsTypeKey(k)
    ensures k == Error ==> HasErrors(Some(Enqueue(ns, k, m)))
    ensures HasMessages(Some(Enqueue(ns, k, m)), None).Some?
    ensures HasMessages(Some(Enqueue(ns, k, m)), Some([k])) == Some(Pending(ns, k) + [m])
  {
    var b := Some(Enqueue(ns, k, m));
    assert Pending(b, k) != [];
    assert k in TypeOrder;
  }

  /** After a clear-all, neither query finds anything. */
  lemma ClearAllLeavesNothing(ns: Option<Buckets>, sel: Selector, name: Option<string>)
    requires ClearsAll(sel)
    ensures !HasErrors(Cleared(ns, sel))
    ensures HasMessages(Cleared(ns, sel), name).None?
  {
  }

  /** A freshly created namespace holds nothing. */
  lemma FreshNamespaceIsEmpty(name: Option<string>)
    ensures !HasErrors(Some(map[]))
    ensures HasMessages(Some(map[]), name).None?
  {
  }
}
