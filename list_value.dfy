/**
 * The list value container of a configuration node: an ordered sequence of
 * child nodes, addressed by index.  Each child is a record of the node's key,
 * its attachment flag and its raw value; the container is a class whose field
 * `values` is the backing list that the operations replace or edit.
 */
module ListValue {
  import opened Options

  /** A node key: a list index, the marker of a node that waits for a list
    * slot, or a mapping key (a node that belongs to some other parent). */
  datatype Key = Index(i: int) | Unallocated | Named(name: string)

  /** A child node as the list holds it; `value == None` is the null value. */
  datatype Child<V> = Child(key: Key, attached: bool, value: Option<V>)

  /** The argument of `set`: a collection value, or any other value (possibly null). */
  datatype SetValue<V> = Elements(items: seq<Option<V>>) | Single(item: Option<V>)

  /** Whether a key is likely to address a list: an integer index or the unallocated
    * marker, that is, anything but a mapping key. */
  predicate LikelyListKey(key: Key): (r: bool)
    ensures r <==> !key.Named?
  {
    key.Index? || key.Unallocated?
  }

  /** The elements `set` iterates over: a collection as it is, anything else as a singleton. */
  function Items<V>(input: SetValue<V>): seq<Option<V>>
  {
    match input
    case Elements(items) => items
    case Single(item) => [item]
  }

  /** The non-null elements of `items`, in order. */
  function Present<V>(items: seq<Option<V>>): (r: seq<V>)
    ensures |r| <= |items|
    ensures forall i :: 0 <= i < |r| ==> Some(r[i]) in items
    ensures forall j :: 0 <= j < |items| && items[j].Some? ==> items[j].value in r
  {
    if |items| == 0 then []
    else
      var init, last := items[..|items| - 1], items[|items| - 1];
      assert items == init + [last];
      Present(init) + (if last.Some? then [last.value] else [])
  }

  /** The children that `set` builds from `items`, one element at a time. */
  function Built<V>(items: seq<Option<V>>): (r: seq<Child<V>>)
    ensures |r| == |Present(items)|
    ensures forall i :: 0 <= i < |r| ==> r[i] == Child(Index(i), true, Some(Present(items)[i]))
  {
    if |items| == 0 then []
    else
      var init, last := items[..|items| - 1], items[|items| - 1];
      var b := Built(init);
      if last.Some? then b + [Child(Index(|b|), true, last)] else b
  }

  /** The raw (unwrapped) values of the children, in order. */
  function Raws<V>(cs: seq<Child<V>>): seq<Option<V>>
  {
    seq(|cs|, i requires 0 <= i < |cs| => cs[i].value)
  }

  /** A child after `detachNodes`: no longer attached, and its value cleared. */
  function Detached<V>(c: Child<V>): Child<V>
  {
    c.(attached := false, value := None)
  }

  /** The list after removing the child at `index`, with every later sibling's key
    * rewritten to `index`, as the renumbering loop does it. */
  function RemovedAt<V>(cs: seq<Child<V>>, index: nat): (r: seq<Child<V>>)
    requires index < |cs|
    ensures |r| == |cs| - 1
    ensures Raws(r) == Raws(cs[..index] + cs[index + 1..])
    ensures forall j :: 0 <= j < index ==> r[j] == cs[j]
    ensures forall j :: index <= j < |r| ==> r[j] == cs[j + 1].(key := Index(index))
  {
    cs[..index] + seq(|cs| - index - 1, j requires 0 <= j < |cs| - index - 1 => cs[index + 1 + j].(key := Index(index)))
  }

  /** The removal with the renumbering the loop's comment describes: every later
    * sibling's key becomes its new position. */
  function RemovedAtRenumbered<V>(cs: seq<Child<V>>, index: nat): (r: seq<Child<V>>)
    requires index < |cs|
    ensures |r| == |cs| - 1
    ensures Raws(r) == Raws(cs[..index] + cs[index + 1..])
    ensures forall j :: 0 <= j < index ==> r[j] == cs[j]
    ensures forall j :: index <= j < |r| ==> r[j] == cs[j + 1].(key := Index(j))
  {
    cs[..index] + seq(|cs| - index - 1, j requires 0 <= j < |cs| - index - 1 => cs[index + 1 + j].(key := Index(index + j)))
  }

  /** Every child's key is its position in the list. */
  ghost predicate DenseKeys<V>(cs: seq<Child<V>>)
  {
    forall j :: 0 <= j < |cs| ==> cs[j].key == Index(j)
  }

  /** What a put may ask for: a list key (any other key fails Java's cast to `int`), and
    * for a non-null value outside `[0, size)` exactly the index `size` (`List.add`
    * throws for any other). */
  ghost predicate PutAllowed<V>(cs: seq<Child<V>>, key: Key, value: Option<Child<V>>)
  {
    LikelyListKey(key) &&
    (key.Index? && value.Some? && !(0 <= key.i < |cs|) ==> key.i == |cs|)
  }

  /** The effect of `putChildInternal(key, value, onlyIfAbsent)`: the list goes from
    * `before` to `after`, and `ret` is returned. */
  ghost predicate PutEffect<V>(before: seq<Child<V>>, key: Key, value: Option<Child<V>>, onlyIfAbsent: bool,
                               after: seq<Child<V>>, ret: Option<Child<V>>)
  {
    match key
    case Unallocated =>
      ret == None &&
      after == (if value.Some? then before + [value.value.(key := Index(|before|))] else before)
    case Index(i) =>
      if value.None? then
        if 0 <= i < |before| then ret == Some(before[i]) && after == RemovedAt(before, i)
        else ret == None && after == before
      else if 0 <= i < |before| then
        ret == Some(before[i]) && after == (if onlyIfAbsent then before else before[i := value.value])
      else
        ret == None && after == before + [value.value]
    case Named(_) => false
  }

  /** `detachNodes`: every node of `children` loses its attachment and its value.
    * The nodes are returned as they are afterwards. */
  method DetachNodes<V>(children: seq<Child<V>>) returns (detached: seq<Child<V>>)
    ensures |detached| == |children|
    ensures forall i :: 0 <= i < |children| ==> detached[i] == children[i].(attached := false, value := None)
  {
    detached := children;
    for i := 0 to |children|
      invariant |detached| == |children|
      invariant forall j :: 0 <= j < i ==> detached[j] == Detached(children[j])
      invariant forall j :: i <= j < |children| ==> detached[j] == children[j]
    {
      detached := detached[i := Detached(detached[i])];
    }
  }

  class ListConfigValue<V(==)> {
    /** The backing list of child nodes. */
    var values: seq<Child<V>>

    /** A list container with no children. */
    constructor ()
      ensures values == []
    {
      values := [];
    }

    /** A list container started from one value: a non-null value becomes the
      * attached child at index 0. */
    constructor WithStart(startValue: Option<V>)
      ensures values == if startValue.Some? then [Child(Index(0), true, startValue)] else []
    {
      if startValue.Some? {
        values := [Child(Index(0), true, startValue)];
      } else {
        values := [];
      }
    }

    /** `get`: the raw value of each child, in order. */
    method Get() returns (raw: seq<Option<V>>)
      ensures |raw| == |values|
      ensures forall i :: 0 <= i < |values| ==> raw[i] == values[i].value
    {
      raw := [];
      for i := 0 to |values|
        invariant |raw| == i
        invariant forall j :: 0 <= j < i ==> raw[j] == values[j].value
      {
        raw := raw + [values[i].value];
      }
    }

    /** `set`: rebuild the list from the non-null elements of `input`, and detach
      * every child the list held before. */
    method Set(input: SetValue<V>) returns (detached: seq<Child<V>>)
      modifies this
      ensures values == Built(Items(input))
      ensures |detached| == |old(values)|
      ensures forall i :: 0 <= i < |detached| ==> detached[i] == Detached(old(values)[i])
    {
      var items := Items(input);
      var newValue: seq<Child<V>> := [];
      var count := 0;
      for k := 0 to |items|
        invariant newValue == Built(items[..k])
        invariant count == |newValue|
      {
        assert items[..k + 1][..k] == items[..k];
        var o := items[k];
        if o.None? {
          continue;
        }
        newValue := newValue + [Child(Index(count), true, o)];
        count := count + 1;
      }
      assert items[..|items|] == items;
      var oldValues := values;
      values := newValue;
      detached := DetachNodes(oldValues);
    }

    /** `putChild`. */
    method PutChild(key: Key, value: Option<Child<V>>) returns (ret: Option<Child<V>>)
      requires PutAllowed(values, key, value)
      modifies this
      ensures PutEffect(old(values), key, value, false, values, ret)
    {
      ret := PutChildInternal(key, value, false);
    }

    /** `putChildIfAbsent`. */
    method PutChildIfAbsent(key: Key, value: Option<Child<V>>) returns (ret: Option<Child<V>>)
      requires PutAllowed(values, key, value)
      modifies this
      ensures PutEffect(old(values), key, value, true, values, ret)
    {
      ret := PutChildInternal(key, value, true);
    }

    /** `putChildInternal` on an object key: the unallocated marker appends a non-null
      * node and gives it the index it landed at; an index goes to `PutChildAt`. */
    method PutChildInternal(key: Key, value: Option<Child<V>>, onlyIfAbsent: bool) returns (ret: Option<Child<V>>)
      requires PutAllowed(values, key, value)
      modifies this
      ensures PutEffect(old(values), key, value, onlyIfAbsent, values, ret)
    {
      if key.Unallocated? {
        if value.Some? {
          // the new node is the last element, so its last index is the old length
          values := values + [value.value.(key := Index(|values|))];
        }
        ret := None;
      } else {
        ret := PutChildAt(key.i, value, onlyIfAbsent);
      }
    }

    /** `putChildInternal` on an int index: a null value removes an existing child and
      * rewrites the keys of its later siblings; a non-null value replaces an existing
      * child (unless only-if-absent) or is inserted at `index`. */
    method PutChildAt(index: int, value: Option<Child<V>>, onlyIfAbsent: bool) returns (ret: Option<Child<V>>)
      requires PutAllowed(values, Index(index), value)
      modifies this
      ensures PutEffect(old(values), Index(index), value, onlyIfAbsent, values, ret)
    {
      ret := None;
      if value.None? {
        if 0 <= index < |values| {
          ret := Some(values[index]);
          var rest := values[..index] + values[index + 1..];
          ghost var removed := rest;
          for i := index to |rest|
            invariant |rest| == |removed|
            invariant forall j :: 0 <= j < index ==> rest[j] == removed[j]
            invariant forall j :: index <= j < i ==> rest[j] == removed[j].(key := Index(index))
            invariant forall j :: i <= j < |rest| ==> rest[j] == removed[j]
          {
            rest := rest[i := rest[i].(key := Index(index))];
          }
          values := rest;
        }
      } else {
        if 0 <= index < |values| {
          if onlyIfAbsent {
            return Some(values[index]);
          } else {
            ret := Some(values[index]);
            values := values[index := value.value];
          }
        } else {
          values := values[..index] + [value.value] + values[index..];
        }
      }
    }

    /** `child`: the child at a parsed key, or null for a key that does not parse
      * as an integer, a negative one, or one past the end. */
    method ChildAt(parsed: Option<int>) returns (c: Option<Child<V>>)
      ensures c.Some? <==> parsed.Some? && 0 <= parsed.value < |values|
      ensures c.Some? ==> c.value == values[parsed.value]
    {
      if parsed.None? || parsed.value < 0 {
        return None;
      }
      if parsed.value >= |values| {
        return None;
      }
      return Some(values[parsed.value]);
    }

    /** `iterateChildren`: a snapshot of the children that later writes do not change. */
    method IterateChildren() returns (snapshot: seq<Child<V>>)
      ensures snapshot == values
    {
      snapshot := values;
    }

    /** `copy`: a new container whose children are copies of these, in order;
      * `copyNode` is the node's own recursive copy. */
    method Copy(copyNode: Child<V> -> Child<V>) returns (copy: ListConfigValue<V>)
      ensures fresh(copy)
      ensures |copy.values| == |values|
      ensures forall i :: 0 <= i < |values| ==> copy.values[i] == copyNode(values[i])
    {
      copy := new ListConfigValue();
      var copyValues: seq<Child<V>> := [];
      for i := 0 to |values|
        invariant |copyValues| == i
        invariant forall j :: 0 <= j < i ==> copyValues[j] == copyNode(values[j])
      {
        copyValues := copyValues + [copyNode(values[i])];
      }
      copy.values := copyValues;
    }

    /** `isEmpty`. */
    method IsEmpty() returns (empty: bool)
      ensures empty <==> |values| == 0
    {
      empty := values == [];
    }

    /** `clear`: the list becomes empty and every child it held is detached. */
    method Clear() returns (detached: seq<Child<V>>)
      modifies this
      ensures values == []
      ensures |detached| == |old(values)|
      ensures forall i :: 0 <= i < |detached| ==> detached[i] == Detached(old(values)[i])
    {
      var oldValues := values;
      values := [];
      detached := DetachNodes(oldValues);
    }

    /** `equals`: two list containers are equal when their child lists are. */
    method Equals(other: ListConfigValue<V>) returns (eq: bool)
      ensures eq <==> values == other.values
    {
      if this == other {
        return true;
      }
      eq := values == other.values;
    }
  }

  /** The keys `set` gives are list keys: each child's key is its position. */
  lemma BuiltKeysAreListKeys<V>(items: seq<Option<V>>)
    ensures forall i :: 0 <= i < |Built(items)| ==> LikelyListKey(Built(items)[i].key) && Built(items)[i].key == Index(i)
  {
  }

  /** A node appended under the unallocated marker gets a list key, the old length,
    * and the append returns null. */
  lemma UnallocatedAppendKey<V>(cs: seq<Child<V>>, n: Child<V>, ret: Option<Child<V>>, after: seq<Child<V>>)
    requires PutEffect(cs, Unallocated, Some(n), false, after, ret)
    ensures LikelyListKey(after[|after| - 1].key) && after[|after| - 1].key == Index(|cs|)
    ensures ret == None && |after| == |cs| + 1
  {
  }

  /** Reading back what `set` wrote and setting it again rebuilds the same children:
    * `set(get())` changes nothing. */
  lemma {:induction false} SetGetRoundTrip<V>(items: seq<Option<V>>)
    ensures Built(Raws(Built(items))) == Built(items)
  {
    var b := Built(items);
    var ps := Present(items);
    assert Raws(b) == seq(|ps|, i requires 0 <= i < |ps| => Some(ps[i]));
    PresentOfSomes(ps);
  }

  /** The non-null elements of a list of non-null values are those values. */
  lemma {:induction false} PresentOfSomes<V>(vs: seq<V>)
    ensures Present(seq(|vs|, i requires 0 <= i < |vs| => Some(vs[i]))) == vs
  {
    if |vs| > 0 {
      var init := vs[..|vs| - 1];
      PresentOfSomes(init);
      var s := seq(|vs|, i requires 0 <= i < |vs| => Some(vs[i]));
      assert s[..|s| - 1] == seq(|init|, i requires 0 <= i < |init| => Some(init[i]));
      assert vs == init + [vs[|vs| - 1]];
    }
  }

  /** Dropping nulls commutes with concatenation: the non-null elements of `a + b` are
    * those of `a` followed by those of `b`.  With `PresentOfOne` this determines
    * `Present` completely, order and multiplicity included. */
  lemma {:induction false} PresentAppend<V>(a: seq<Option<V>>, b: seq<Option<V>>)
    ensures Present(a + b) == Present(a) + Present(b)
  {
    if |b| == 0 {
      assert a + b == a;
    } else {
      var init, last := b[..|b| - 1], b[|b| - 1];
      PresentAppend(a, init);
      assert (a + b)[..|a + b| - 1] == a + init;
      assert (a + b)[|a + b| - 1] == last;
    }
  }

  /** A null contributes nothing; a non-null element contributes itself. */
  lemma PresentOfOne<V>(o: Option<V>)
    ensures Present([o]) == if o.Some? then [o.value] else []
  {
    assert [o][..0] == [];
  }

  /** A non-collection value is set as a one-element collection: a null makes the
    * list empty, anything else the single attached child at index 0, the same
    * children the start-value constructor builds. */
  lemma SingleValueSet<V>(v: Option<V>)
    ensures Built(Items(Single(v))) == if v.Some? then [Child(Index(0), true, v)] else []
  {
    assert [v][..0] == [];
  }

  /** Removal keeps the others in order, returns the removed child, and — as the
    * renumbering loop is written — every later sibling ends up with the key `index`. */
  lemma RemovalEffect<V>(cs: seq<Child<V>>, index: nat, after: seq<Child<V>>, ret: Option<Child<V>>)
    requires index < |cs|
    requires PutEffect(cs, Index(index), None, false, after, ret)
    ensures ret == Some(cs[index])
    ensures |after| == |cs| - 1
    ensures Raws(after) == Raws(cs[..index]) + Raws(cs[index + 1..])
    ensures forall j :: index <= j < |after| ==> after[j].key == Index(index)
  {
    assert Raws(cs[..index] + cs[index + 1..]) == Raws(cs[..index]) + Raws(cs[index + 1..]);
  }

  /** On a list whose keys are its positions, removing a child with at least two
    * later siblings gives two children the same key, so the keys are no longer
    * the positions. */
  lemma RemovalBreaksDenseKeys<V>(cs: seq<Child<V>>, index: nat)
    requires DenseKeys(cs) && index + 2 < |cs|
    ensures RemovedAt(cs, index)[index].key == RemovedAt(cs, index)[index + 1].key
    ensures !DenseKeys(RemovedAt(cs, index))
  {
    var r := RemovedAt(cs, index);
    assert r[index + 1].key == Index(index) != Index(index + 1);
  }

  /** With the renumbering the comment intends, removal keeps every key equal to its position. */
  lemma RemovalKeepsDenseKeys<V>(cs: seq<Child<V>>, index: nat)
    requires DenseKeys(cs) && index < |cs|
    ensures DenseKeys(RemovedAtRenumbered(cs, index))
  {
  }

  /** Put-if-absent at an occupied index returns the occupant and changes nothing;
    * a plain put there returns it and changes only that slot. */
  lemma PutAtOccupiedIndex<V>(cs: seq<Child<V>>, i: int, n: Child<V>, absentAfter: seq<Child<V>>, absentRet: Option<Child<V>>,
                              putAfter: seq<Child<V>>, putRet: Option<Child<V>>)
    requires 0 <= i < |cs|
    requires PutEffect(cs, Index(i), Some(n), true, absentAfter, absentRet)
    requires PutEffect(cs, Index(i), Some(n), false, putAfter, putRet)
    ensures absentRet == Some(cs[i]) && absentAfter == cs
    ensures putRet == Some(cs[i]) && |putAfter| == |cs| && putAfter[i] == n
    ensures forall j :: 0 <= j < |cs| && j != i ==> putAfter[j] == cs[j]
  {
  }
}
