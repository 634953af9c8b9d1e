/**
 * The state an attributed configuration node adds to a commented node: a tag
 * name that is never empty, and an insertion-ordered table of string
 * attributes.  The node is a class whose fields the operations reassign; the
 * table is a sequence of (name, value) pairs with distinct names, in the order a
 * `LinkedHashMap` iterates them.
 */
module Attributed {
  import opened Options

  /** An attribute table in insertion order. */
  type Table = seq<(string, string)>

  /** The outcome of a call that may throw `IllegalArgumentException`. */
  datatype Status = Ok | IllegalArgument(message: string)

  const TagNameMessage := "Tag name cannot be null/empty"
  const AttributeNameMessage := "Attribute name cannot be null/empty"

  /** Some entry has this name. */
  ghost predicate HasName(t: Table, name: string)
  {
    exists i :: 0 <= i < |t| && t[i].0 == name
  }

  /** No name occurs twice, as in a map. */
  ghost predicate UniqueNames(t: Table)
  {
    forall i, j :: 0 <= i < j < |t| ==> t[i].0 != t[j].0
  }

  /** No name is the empty string. */
  ghost predicate NonEmptyNames(t: Table)
  {
    forall i :: 0 <= i < |t| ==> t[i].0 != ""
  }

  /** `Map.get`: the value stored under `name`, or null. */
  function Lookup(t: Table, name: string): (r: Option<string>)
    ensures r.Some? <==> HasName(t, name)
    ensures r.Some? ==> (name, r.value) in t
  {
    if |t| == 0 then None
    else if t[0].0 == name then Some(t[0].1)
    else
      HasNameTail(t, name);
      Lookup(t[1..], name)
  }

  /** `Map.put` on a linked map: an existing name keeps its place and takes the new
    * value; a new name goes at the end. */
  function Put(t: Table, name: string, value: string): (r: Table)
    ensures Lookup(r, name) == Some(value)
    ensures forall n :: n != name ==> Lookup(r, n) == Lookup(t, n)
    ensures |r| == if HasName(t, name) then |t| else |t| + 1
    ensures forall i :: 0 <= i < |t| ==> r[i].0 == t[i].0
    ensures !HasName(t, name) ==> r == t + [(name, value)]
  {
    if |t| == 0 then [(name, value)]
    else if t[0].0 == name then
      var r := [(name, value)] + t[1..];
      assert r[1..] == t[1..];
      assert HasName(t, name);
      r
    else
      var rest := Put(t[1..], name, value);
      var r := [t[0]] + rest;
      assert r[1..] == rest;
      HasNameTail(t, name);
      assert t == [t[0]] + t[1..];
      r
  }

  /** A name other than the first entry's is in the table exactly when it is in the tail. */
  lemma HasNameTail(t: Table, name: string)
    requires |t| > 0 && t[0].0 != name
    ensures HasName(t, name) <==> HasName(t[1..], name)
  {
    if HasName(t, name) {
      var i :| 0 <= i < |t| && t[i].0 == name;
      assert t[1..][i - 1].0 == name;
    }
    if HasName(t[1..], name) {
      var i :| 0 <= i < |t[1..]| && t[1..][i].0 == name;
      assert t[i + 1].0 == name;
    }
  }

  /** `Map.remove`: drop the entry for `name`, keeping the others in order. */
  function Remove(t: Table, name: string): (r: Table)
    ensures Lookup(r, name) == None
    ensures forall n :: n != name ==> Lookup(r, n) == Lookup(t, n)
    ensures forall i :: 0 <= i < |r| ==> r[i] in t && r[i].0 != name
  {
    if |t| == 0 then []
    else if t[0].0 == name then Remove(t[1..], name)
    else [t[0]] + Remove(t[1..], name)
  }

  /** Removing a name the table does not hold changes nothing. */
  lemma {:induction false} RemoveAbsent(t: Table, name: string)
    requires !HasName(t, name)
    ensures Remove(t, name) == t
  {
    if |t| > 0 {
      assert t[0].0 != name;
      HasNameTail(t, name);
      RemoveAbsent(t[1..], name);
      assert [t[0]] + t[1..] == t;
    }
  }

  /** `LinkedHashMap.remove` keeps insertion order: in a table with distinct names,
    * removing a present name splices out exactly its entry and leaves the others
    * in their order. */
  lemma {:induction false} RemoveInOrder(t: Table, name: string)
    requires UniqueNames(t) && HasName(t, name)
    ensures exists k :: 0 <= k < |t| && t[k].0 == name && Remove(t, name) == t[..k] + t[k + 1..]
  {
    UniqueTail(t);
    if t[0].0 == name {
      RemoveAbsent(t[1..], name);
      assert t[..0] + t[1..] == t[1..];
    } else {
      HasNameTail(t, name);
      RemoveInOrder(t[1..], name);
      RemoveConsStep(t, name, Remove(t[1..], name));
    }
  }

  /** The tail of a table with distinct names has distinct names, none of them the head's. */
  lemma UniqueTail(t: Table)
    requires |t| > 0
    ensures UniqueNames(t) ==> UniqueNames(t[1..]) && !HasName(t[1..], t[0].0)
  {
    if UniqueNames(t) {
      forall i, j | 0 <= i < j < |t[1..]| ensures t[1..][i].0 != t[1..][j].0 {
        assert t[1..][i] == t[i + 1] && t[1..][j] == t[j + 1];
      }
      forall i | 0 <= i < |t[1..]| ensures t[1..][i].0 != t[0].0 {
        assert t[1..][i] == t[i + 1];
      }
    }
  }

  /** Removing from behind a head with another name keeps the head in front. */
  lemma RemoveConsStep(t: Table, name: string, rest: Table)
    requires |t| > 0 && t[0].0 != name
    requires exists k :: 0 <= k < |t[1..]| && t[1..][k].0 == name && rest == t[1..][..k] + t[1..][k + 1..]
    ensures exists k :: 0 <= k < |t| && t[k].0 == name && [t[0]] + rest == t[..k] + t[k + 1..]
  {
    var k :| 0 <= k < |t[1..]| && t[1..][k].0 == name && rest == t[1..][..k] + t[1..][k + 1..];
    assert t[k + 1].0 == name;
    assert [t[0]] + rest == t[..k + 1] + t[k + 2..];
  }

  /** `Map.putAll`: put every entry of `m`, in `m`'s order. */
  function PutAll(t: Table, m: Table): (r: Table)
    ensures UniqueNames(m) ==> forall n :: Lookup(r, n) == if Lookup(m, n).Some? then Lookup(m, n) else Lookup(t, n)
  {
    if |m| == 0 then t
    else
      var init, last := m[..|m| - 1], m[|m| - 1];
      assert m == init + [last];
      LookupSnoc(init, last, UniqueNames(m));
      Put(PutAll(t, init), last.0, last.1)
  }

  /** Looking a name up in a table with one more entry at the end. */
  lemma {:induction false} LookupSnoc(s: Table, e: (string, string), unique: bool)
    requires unique ==> UniqueNames(s + [e])
    ensures unique ==> UniqueNames(s)
    ensures forall n :: Lookup(s + [e], n) == if Lookup(s, n).Some? then Lookup(s, n) else if n == e.0 then Some(e.1) else None
    ensures unique ==> Lookup(s, e.0) == None
  {
    if |s| == 0 {
      assert s + [e] == [e];
    } else {
      assert (s + [e])[1..] == s[1..] + [e];
      assert unique ==> UniqueNames(s[1..] + [e]) by {
        if unique {
          forall i, j | 0 <= i < j < |s[1..] + [e]| ensures (s[1..] + [e])[i].0 != (s[1..] + [e])[j].0 {
            assert (s[1..] + [e])[i] == (s + [e])[i + 1];
            assert (s[1..] + [e])[j] == (s + [e])[j + 1];
          }
        }
      }
      LookupSnoc(s[1..], e, unique);
      if unique {
        assert (s + [e])[0] == s[0];
        assert (s + [e])[|s|] == e;
        assert s[0].0 != e.0;
        forall i, j | 0 <= i < j < |s| ensures s[i].0 != s[j].0 {
          assert (s + [e])[i] == s[i] && (s + [e])[j] == s[j];
        }
      }
    }
  }

  /** The table as a map: the view under which `equals` compares tables. */
  function AsMap(t: Table): (m: map<string, string>)
    ensures forall n :: n in m <==> Lookup(t, n).Some?
    ensures forall n :: n in m ==> Lookup(t, n) == Some(m[n])
  {
    if |t| == 0 then map[] else AsMap(t[1..])[t[0].0 := t[0].1]
  }

  class AttributedNode {
    var tagName: string
    var attributes: Table
    /** Whether the node is attached to its tree; `attachIfNecessary` sets it. */
    var attached: bool

    /** The tag name is never empty, and the table is a map whose names are not empty. */
    ghost predicate Valid()
      reads this
    {
      tagName != "" && UniqueNames(attributes) && NonEmptyNames(attributes)
    }

    /** The fields a constructor sets once its tag-name check has passed. */
    constructor Init(tagName: string, attached: bool)
      requires tagName != ""
      ensures Valid()
      ensures this.tagName == tagName && this.attributes == [] && this.attached == attached
    {
      this.tagName := tagName;
      this.attributes := [];
      this.attached := attached;
    }

    /** The check that `tagName(String)` makes before storing a name. */
    static function TagNameCheck(name: string): (s: Status)
      ensures s.Ok? <==> name != ""
      ensures !s.Ok? ==> s == IllegalArgument(TagNameMessage)
    {
      if name == "" then IllegalArgument(TagNameMessage) else Ok
    }

    /** The constructor from a path, parent and options: it throws, and no node exists,
      * when the tag name is empty.  `attached` is the attachment the superclass
      * constructor gives the new node. */
    static method New(tagName: string, attached: bool) returns (node: AttributedNode?, status: Status)
      ensures status == TagNameCheck(tagName)
      ensures status.Ok? ==> node != null && fresh(node) && node.Valid()
      ensures status.Ok? ==> node.tagName == tagName && node.attributes == [] && node.attached == attached
      ensures !status.Ok? ==> node == null
    {
      status := TagNameCheck(tagName);
      if !status.Ok? {
        return null, status;
      }
      node := new AttributedNode.Init(tagName, attached);
    }

    /** The copy constructor: the same tag-name check; the attributes are not copied.
      * What the superclass copy constructor makes of the attachment is given as
      * `attached`. */
    static method NewCopy(tagName: string, attached: bool) returns (node: AttributedNode?, status: Status)
      ensures status == TagNameCheck(tagName)
      ensures status.Ok? ==> node != null && fresh(node) && node.Valid()
      ensures status.Ok? ==> node.tagName == tagName && node.attributes == [] && node.attached == attached
      ensures !status.Ok? ==> node == null
    {
      status := TagNameCheck(tagName);
      if !status.Ok? {
        return null, status;
      }
      node := new AttributedNode.Init(tagName, attached);
    }

    /** `tagName()`: never empty. */
    function TagName(): (r: string)
      reads this
      requires Valid()
      ensures r != ""
    {
      tagName
    }

    /** `tagName(String)`: an empty name throws and keeps the old one. */
    method SetTagName(name: string) returns (status: Status)
      requires Valid()
      modifies this
      ensures Valid()
      ensures status == TagNameCheck(name)
      ensures tagName == if status.Ok? then name else old(tagName)
      ensures attributes == old(attributes) && attached == old(attached)
    {
      status := TagNameCheck(name);
      if status.Ok? {
        tagName := name;
      }
    }

    /** `addAttribute`: an empty name throws with no change; otherwise the node gets
      * attached and the table maps `name` to `value`. */
    method AddAttribute(name: string, value: string) returns (status: Status)
      requires Valid()
      modifies this
      ensures Valid()
      ensures status.Ok? <==> name != ""
      ensures !status.Ok? ==> status == IllegalArgument(AttributeNameMessage)
      ensures !status.Ok? ==> attributes == old(attributes) && attached == old(attached)
      ensures status.Ok? ==> attributes == Put(old(attributes), name, value) && attached
      ensures tagName == old(tagName)
    {
      if name == "" {
        return IllegalArgument(AttributeNameMessage);
      }
      attached := true;
      PutKeepsMap(attributes, name, value);
      attributes := Put(attributes, name, value);
      status := Ok;
    }

    /** `removeAttribute`. */
    method RemoveAttribute(name: string)
      requires Valid()
      modifies this
      ensures Valid()
      ensures attributes == Remove(old(attributes), name)
      ensures tagName == old(tagName) && attached == old(attached)
    {
      RemoveKeepsMap(attributes, name);
      attributes := Remove(attributes, name);
    }

    /** `attributes(Map)`: every name is checked before the table is cleared, so an
      * empty name throws with no change; otherwise the table becomes `m`, and the
      * node is attached if `m` is not empty. */
    method SetAttributes(m: Table) returns (status: Status)
      requires Valid() && UniqueNames(m)
      modifies this
      ensures Valid()
      ensures status.Ok? <==> NonEmptyNames(m)
      ensures !status.Ok? ==> status == IllegalArgument(AttributeNameMessage)
      ensures !status.Ok? ==> attributes == old(attributes) && attached == old(attached)
      ensures status.Ok? ==> attributes == m && attached == (old(attached) || |m| > 0)
      ensures tagName == old(tagName)
    {
      for i := 0 to |m|
        invariant forall j :: 0 <= j < i ==> m[j].0 != ""
      {
        if m[i].0 == "" {
          return IllegalArgument(AttributeNameMessage);
        }
      }
      attributes := [];
      if |m| > 0 {
        attached := true;
        PutAllIntoEmpty(m);
        attributes := PutAll(attributes, m);
      }
      status := Ok;
    }

    /** `attributes()`: a copy of the table, in insertion order. */
    function Attributes(): (r: Table)
      reads this
      requires Valid()
      ensures UniqueNames(r) && NonEmptyNames(r)
      ensures forall n :: Lookup(r, n) == Attribute(n)
    {
      attributes
    }

    /** `hasAttributes`: some name has a value. */
    function HasAttributes(): (r: bool)
      reads this
      requires Valid()
      ensures r <==> exists n :: Attribute(n).Some?
    {
      assert |attributes| > 0 ==> Attribute(attributes[0].0).Some?;
      |attributes| > 0
    }

    /** `attribute(name)`: the value stored under `name`, or null; never a value for
      * the empty name. */
    function Attribute(name: string): (r: Option<string>)
      reads this
      requires Valid()
      ensures r.Some? <==> HasName(attributes, name)
      ensures r.Some? ==> name != "" && (name, r.value) in attributes
    {
      Lookup(attributes, name)
    }

    /** `empty`: the node is empty when its superclass part is and it has no attributes. */
    function Empty(superEmpty: bool): (r: bool)
      reads this
      requires Valid()
      ensures r <==> superEmpty && !HasAttributes()
      ensures r ==> forall n :: Attribute(n) == None
    {
      superEmpty && |attributes| == 0
    }

    /** The attribute half of `mergeFrom`: take the other node's tag name, and add or
      * overwrite each of its attributes, keeping those it does not mention.  `other`
      * may be this node. */
    method MergeFrom(other: AttributedNode)
      requires Valid() && other.Valid()
      modifies this
      ensures Valid()
      ensures tagName == old(other.tagName)
      ensures attributes == PutAll(old(attributes), old(other.attributes))
      ensures attached == (old(attached) || |old(other.attributes)| > 0)
    {
      var tag := other.tagName;
      var src := other.attributes;
      assert NonEmptyNames(src);
      ghost var start := attributes;
      var s := SetTagName(tag);
      for i := 0 to |src|
        invariant Valid()
        invariant tagName == tag
        invariant attributes == PutAll(start, src[..i])
        invariant attached == (old(attached) || i > 0)
      {
        PutAllStep(start, src, i);
        s := AddAttribute(src[i].0, src[i].1);
      }
      assert src[..|src|] == src;
    }

    /** `copy`: a new node with the same tag name and the same attribute table; its
      * attachment, set by the superclass copy, is given as `copyAttached`. */
    method Copy(copyAttached: bool) returns (c: AttributedNode)
      requires Valid()
      ensures fresh(c) && c.Valid()
      ensures c.tagName == tagName && c.attributes == attributes && c.attached == copyAttached
    {
      var node, status := NewCopy(tagName, copyAttached);
      c := node;
      PutAllIntoEmpty(attributes);
      c.attributes := PutAll(c.attributes, attributes);
    }

    /** `equals`: the same node, or equal superclass parts, tag names and attribute
      * maps (in any order).  `superEquals` is the superclass's verdict. */
    method Equals(other: AttributedNode, superEquals: bool) returns (eq: bool)
      ensures eq <==> this == other ||
                      (superEquals && tagName == other.tagName && AsMap(attributes) == AsMap(other.attributes))
    {
      if this == other {
        return true;
      }
      if !superEquals {
        return false;
      }
      eq := tagName == other.tagName && AsMap(attributes) == AsMap(other.attributes);
    }
  }

  /** A put keeps the names distinct and non-empty. */
  lemma PutKeepsMap(t: Table, name: string, value: string)
    requires UniqueNames(t) && NonEmptyNames(t) && name != ""
    ensures UniqueNames(Put(t, name, value)) && NonEmptyNames(Put(t, name, value))
  {
    var r := Put(t, name, value);
    forall i, j | 0 <= i < j < |r| ensures r[i].0 != r[j].0 {
      if j < |t| {
        assert r[i].0 == t[i].0 && r[j].0 == t[j].0;
      } else {
        assert !HasName(t, name) && r == t + [(name, value)];
        assert r[i].0 == t[i].0;
      }
    }
    forall i | 0 <= i < |r| ensures r[i].0 != "" {
      if i < |t| {
        assert r[i].0 == t[i].0;
      } else {
        assert r == t + [(name, value)];
      }
    }
  }

  /** Putting one more entry of `m` is one more put. */
  lemma PutAllStep(t: Table, m: Table, i: nat)
    requires i < |m|
    ensures PutAll(t, m[..i + 1]) == Put(PutAll(t, m[..i]), m[i].0, m[i].1)
  {
    assert m[..i + 1][..i] == m[..i];
  }

  /** A removal keeps the names distinct and non-empty. */
  lemma {:induction false} RemoveKeepsMap(t: Table, name: string)
    requires UniqueNames(t) && NonEmptyNames(t)
    ensures UniqueNames(Remove(t, name)) && NonEmptyNames(Remove(t, name))
  {
    if |t| > 0 && t[0].0 != name {
      RemoveKeepsMap(t[1..], name);
      var rest := Remove(t[1..], name);
      assert forall i :: 0 <= i < |rest| ==> rest[i] in t[1..];
    } else if |t| > 0 {
      RemoveKeepsMap(t[1..], name);
    }
  }

  /** Putting every entry of a map into an empty table yields that map, in its order. */
  lemma {:induction false} PutAllIntoEmpty(m: Table)
    requires UniqueNames(m)
    ensures PutAll([], m) == m
  {
    if |m| > 0 {
      var init, last := m[..|m| - 1], m[|m| - 1];
      assert m == init + [last];
      LookupSnoc(init, last, true);
      PutAllIntoEmpty(init);
      assert !HasName(init, last.0);
    }
  }

  /** `addAttribute` changes only the entry for its name, and it cannot be undone by
    * `removeAttribute` of another name. */
  lemma AddThenRemoveOther(t: Table, name: string, value: string, other: string)
    requires other != name
    ensures Lookup(Remove(Put(t, name, value), other), name) == Some(value)
    ensures Lookup(Remove(Put(t, name, value), other), other) == None
  {
  }

  /** Two tables that store the same value under every name are equal as maps,
    * whatever their insertion order. */
  lemma EqualsIgnoresOrder(t1: Table, t2: Table)
    requires forall n :: Lookup(t1, n) == Lookup(t2, n)
    ensures AsMap(t1) == AsMap(t2)
  {
  }
}
