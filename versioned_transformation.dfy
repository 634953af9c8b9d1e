/**
 * The versioned transformation: a chain of schema migrations, each registered
 * under the version it upgrades to, gated by a version number stored in the
 * tree.  The tree is an abstract state with its version field made explicit; a
 * transformation is a function from the tree to the tree it leaves behind and
 * the error it threw, if any.
 */
module Versioned {
  import opened Options

  /** The version a tree without a version number is taken to have. */
  const VersionUnknown := -1

  /** One element of a node path: a mapping key or a list index. */
  datatype PathKey = Name(name: string) | Position(index: int)

  /** A configuration tree: the integer at the version path (None when absent or not
    * an integer) and the rest of the tree. */
  datatype Config<S> = Config(version: Option<int>, body: S)

  /** What a transformation leaves: the tree as it is afterwards (a failing
    * transformation may have changed part of it) and the error it threw, if any. */
  datatype StepResult<S, E> = StepResult(config: Config<S>, error: Option<E>)

  type Transformation<!S, E> = Config<S> -> StepResult<S, E>

  /** A registered migration: the version it upgrades to, and the transformation. */
  type Entry<!S, E> = (int, Transformation<S, E>)

  /** The outcome of `apply`: the tree with its version written, or the first error
    * with the later ones attached as suppressed and the tree as the steps left it. */
  datatype Outcome<S, E> = Applied(config: Config<S>) | Failed(config: Config<S>, primary: E, suppressed: seq<E>)

  /** The state of the loop in `apply`: the tree, `currentVersion`, and the errors
    * caught so far, in the order they were thrown. */
  datatype Progress<S, E> = Progress(config: Config<S>, current: int, errors: seq<E>)

  /** The version `apply` starts from: the stored one, or `VersionUnknown`. */
  function StartVersion<S>(c: Config<S>): int
  {
    match c.version
    case Some(v) => v
    case None => VersionUnknown
  }

  /** The keys are strictly ascending, as a navigable map iterates them. */
  ghost predicate Ascending<S, E>(entries: seq<Entry<S, E>>)
  {
    forall i, j :: 0 <= i < j < |entries| ==> entries[i].0 < entries[j].0
  }

  /** The registered versions, in order. */
  function Keys<S, E>(entries: seq<Entry<S, E>>): seq<int>
  {
    seq(|entries|, i requires 0 <= i < |entries| => entries[i].0)
  }

  function Init<S, E>(c: Config<S>): Progress<S, E>
  {
    Progress(c, StartVersion(c), [])
  }

  /** Run one transformation: record its error, if any, and advance `currentVersion`
    * to its key whether or not it failed. */
  function Perform<S, E>(p: Progress<S, E>, e: Entry<S, E>): Progress<S, E>
  {
    var res := e.1(p.config);
    Progress(res.config, e.0, p.errors + (if res.error.Some? then [res.error.value] else []))
  }

  /** One iteration of the loop in `apply`: skip an entry whose key is at most
    * `currentVersion`, run the others. */
  function Gate<S, E>(p: Progress<S, E>, e: Entry<S, E>): Progress<S, E>
  {
    if e.0 <= p.current then p else Perform(p, e)
  }

  /** The loop of `apply` over `entries`. */
  function Run<S, E>(entries: seq<Entry<S, E>>, p: Progress<S, E>): Progress<S, E>
  {
    if |entries| == 0 then p
    else Gate(Run(entries[..|entries| - 1], p), entries[|entries| - 1])
  }

  /** Every entry of `entries` performed, one after the other, none skipped. */
  function RunAll<S, E>(entries: seq<Entry<S, E>>, p: Progress<S, E>): (q: Progress<S, E>)
    ensures q.current == if |entries| == 0 then p.current else entries[|entries| - 1].0
  {
    if |entries| == 0 then p
    else Perform(RunAll(entries[..|entries| - 1], p), entries[|entries| - 1])
  }

  /** The entries whose key is above `start`, in order. */
  function Pending<S, E>(entries: seq<Entry<S, E>>, start: int): (r: seq<Entry<S, E>>)
    ensures |r| <= |entries|
    ensures forall i :: 0 <= i < |r| ==> r[i].0 > start && r[i].0 in Keys(entries)
    ensures forall k :: k in Keys(entries) && k > start ==> k in Keys(r)
    ensures forall i :: 0 <= i < |r| ==> r[i] in entries
  {
    if |entries| == 0 then []
    else
      var init, last := entries[..|entries| - 1], entries[|entries| - 1];
      var rest := Pending(init, start);
      assert Keys(entries) == Keys(init) + [last.0];
      if last.0 > start then
        assert Keys(rest + [last]) == Keys(rest) + [last.0];
        rest + [last]
      else rest
  }

  /** Selecting the pending entries commutes with concatenation; with
    * `PendingOfOne` this says `Pending` keeps exactly the entries above `start`,
    * each with its own transformation, in their registered order. */
  lemma {:induction false} PendingAppend<S, E>(a: seq<Entry<S, E>>, b: seq<Entry<S, E>>, start: int)
    ensures Pending(a + b, start) == Pending(a, start) + Pending(b, start)
  {
    if |b| == 0 {
      assert a + b == a;
    } else {
      PendingAppend(a, b[..|b| - 1], start);
      assert (a + b)[..|a + b| - 1] == a + b[..|b| - 1];
      assert (a + b)[|a + b| - 1] == b[|b| - 1];
    }
  }

  /** One entry is pending exactly when its key is above `start`. */
  lemma PendingOfOne<S, E>(e: Entry<S, E>, start: int)
    ensures Pending([e], start) == if e.0 > start then [e] else []
  {
    assert [e][..0] == [];
  }

  /** The end of `apply`: throw the first error with the later ones suppressed, and
    * write `currentVersion` to the version path only when nothing failed. */
  function Finish<S, E>(p: Progress<S, E>): Outcome<S, E>
  {
    if |p.errors| == 0 then Applied(p.config.(version := Some(p.current)))
    else Failed(p.config, p.errors[0], p.errors[1..])
  }

  /** What `apply` does to the tree `c`. */
  function ApplySpec<S, E>(entries: seq<Entry<S, E>>, c: Config<S>): Outcome<S, E>
  {
    Finish(Run(entries, Init(c)))
  }

  /** The errors of `thrown` and its suppressed ones, in order. */
  function Errors<E>(thrown: Option<E>, suppressed: seq<E>): seq<E>
  {
    if thrown.None? then [] else [thrown.value] + suppressed
  }

  class VersionedTransformation<S, E> {
    const versionPath: seq<PathKey>
    const versionTransformations: seq<Entry<S, E>>

    /** The registered versions are those of a navigable map: unique and ascending. */
    ghost predicate Valid()
    {
      Ascending(versionTransformations)
    }

    constructor (versionPath: seq<PathKey>, versionTransformations: seq<Entry<S, E>>)
      requires Ascending(versionTransformations)
      ensures Valid()
      ensures this.versionPath == versionPath && this.versionTransformations == versionTransformations
    {
      this.versionPath := versionPath;
      this.versionTransformations := versionTransformations;
    }

    /** `apply`: run, in ascending order, every transformation whose version is above
      * the tree's, collecting the errors, then write the reached version only if
      * none failed. */
    method Apply(node: Config<S>) returns (r: Outcome<S, E>)
      ensures r == ApplySpec(versionTransformations, node)
    {
      var thrown: Option<E> := None;
      var suppressed: seq<E> := [];
      var config := node;
      var currentVersion := StartVersion(node);
      var entries := versionTransformations;
      for i := 0 to |entries|
        invariant Run(entries[..i], Init(node)) == Progress(config, currentVersion, Errors(thrown, suppressed))
        invariant thrown.None? ==> suppressed == []
      {
        assert entries[..i + 1][..i] == entries[..i];
        var (key, transformation) := entries[i];
        if key <= currentVersion {
          continue;
        }
        var res := transformation(config);
        config := res.config;
        if res.error.Some? {
          if thrown.None? {
            thrown := res.error;
          } else {
            suppressed := suppressed + [res.error.value];
          }
        }
        currentVersion := key;
      }
      assert entries[..|entries|] == entries;
      if thrown.Some? {
        return Failed(config, thrown.value, suppressed);
      }
      return Applied(config.(version := Some(currentVersion)));
    }

    /** `versionKey`: the path the version is stored at. */
    function VersionKey(): (path: seq<PathKey>)
      ensures path == versionPath
    {
      versionPath
    }

    /** `latestVersion`: the largest registered version; `lastKey` throws on an empty
      * map, here None. */
    function LatestVersion(): (latest: Option<int>)
      requires Valid()
      ensures latest.Some? <==> |versionTransformations| > 0
      ensures latest.Some? ==> latest.value in Keys(versionTransformations)
      ensures latest.Some? ==> forall k :: k in Keys(versionTransformations) ==> k <= latest.value
    {
      var entries := versionTransformations;
      if |entries| == 0 then None
      else
        assert forall k :: k in Keys(entries) ==> k <= entries[|entries| - 1].0 by {
          forall k | k in Keys(entries) ensures k <= entries[|entries| - 1].0 {
            var i :| 0 <= i < |entries| && Keys(entries)[i] == k;
          }
        }
        assert Keys(entries)[|entries| - 1] == entries[|entries| - 1].0;
        Some(entries[|entries| - 1].0)
    }
  }

  /** On ascending entries the gate skips exactly the entries at or below the start
    * version: the loop is the same as running every pending entry unconditionally,
    * in order, failed or not. */
  lemma {:induction false} GateRunsPending<S, E>(entries: seq<Entry<S, E>>, c: Config<S>)
    requires Ascending(entries)
    ensures Run(entries, Init(c)) == RunAll(Pending(entries, StartVersion(c)), Init(c))
  {
    if |entries| > 0 {
      var start := StartVersion(c);
      var init, last := entries[..|entries| - 1], entries[|entries| - 1];
      assert Ascending(init);
      GateRunsPending(init, c);
      var ps := Pending(init, start);
      var q := RunAll(ps, Init(c));
      assert q.current >= start;
      if last.0 > start {
        assert q.current < last.0 by {
          if |ps| > 0 {
            var k := ps[|ps| - 1].0;
            assert k in Keys(init);
            var i :| 0 <= i < |init| && Keys(init)[i] == k;
            assert entries[i].0 == k;
          }
        }
        var ps' := ps + [last];
        assert ps'[..|ps'| - 1] == ps;
      }
    }
  }

  /** No entry is pending above a version that is at least every key. */
  lemma {:induction false} NothingPendingAboveAllKeys<S, E>(entries: seq<Entry<S, E>>, v: int)
    requires forall k :: k in Keys(entries) ==> k <= v
    ensures Pending(entries, v) == []
  {
    if |entries| > 0 {
      var init := entries[..|entries| - 1];
      assert Keys(entries) == Keys(init) + [entries[|entries| - 1].0];
      assert Keys(entries)[|entries| - 1] in Keys(entries);
      forall k | k in Keys(init) ensures k <= v {
        assert k in Keys(entries);
      }
      NothingPendingAboveAllKeys(init, v);
    }
  }

  /** What `apply` returns, entry by entry: it fails exactly when some pending
    * transformation threw, with the first error primary and the later ones suppressed
    * in order; otherwise the version becomes the last pending key, or stays the start
    * version when nothing was pending. */
  lemma ApplyOutcome<S, E>(entries: seq<Entry<S, E>>, c: Config<S>)
    requires Ascending(entries)
    ensures var ps := Pending(entries, StartVersion(c));
            var q := RunAll(ps, Init(c));
            && (ApplySpec(entries, c).Failed? <==> |q.errors| > 0)
            && (ApplySpec(entries, c).Failed? ==>
                  ApplySpec(entries, c) == Failed(q.config, q.errors[0], q.errors[1..]))
            && (ApplySpec(entries, c).Applied? ==>
                  ApplySpec(entries, c).config ==
                    q.config.(version := Some(Reached(entries, StartVersion(c)))))
  {
    GateRunsPending(entries, c);
  }

  /** The version `apply` reaches: the last pending key, or the start version when
    * nothing is pending. */
  function Reached<S, E>(entries: seq<Entry<S, E>>, start: int): int
  {
    var ps := Pending(entries, start);
    if |ps| == 0 then start else ps[|ps| - 1].0
  }

  /** The reached version is at least every registered version. */
  lemma ReachedIsAtLeastEveryKey<S, E>(entries: seq<Entry<S, E>>, start: int)
    requires Ascending(entries)
    ensures forall k :: k in Keys(entries) ==> k <= Reached(entries, start)
  {
    var ps := Pending(entries, start);
    if |entries| > 0 {
      var last := entries[|entries| - 1];
      LastPendingIsLastEntry(entries, start);
      forall k | k in Keys(entries) ensures k <= Reached(entries, start) {
        var i :| 0 <= i < |entries| && Keys(entries)[i] == k;
        assert k <= last.0;
        if |ps| == 0 {
          assert !(k in Keys(ps));
        }
      }
    }
  }

  /** When some entry is pending, the last pending entry is the last entry. */
  lemma LastPendingIsLastEntry<S, E>(entries: seq<Entry<S, E>>, start: int)
    requires Ascending(entries) && |entries| > 0
    ensures |Pending(entries, start)| > 0 ==> Pending(entries, start)[|Pending(entries, start)| - 1].0 == entries[|entries| - 1].0
  {
    var init, last := entries[..|entries| - 1], entries[|entries| - 1];
    if last.0 <= start {
      assert |Pending(init, start)| == 0;
    }
  }

  /** After a successful `apply`, applying again runs no transformation and writes
    * the same version: the result is the same tree. */
  lemma {:induction false} ApplyIdempotent<S, E>(entries: seq<Entry<S, E>>, c: Config<S>)
    requires Ascending(entries)
    requires ApplySpec(entries, c).Applied?
    ensures Pending(entries, StartVersion(ApplySpec(entries, c).config)) == []
    ensures ApplySpec(entries, ApplySpec(entries, c).config) == ApplySpec(entries, c)
  {
    var start := StartVersion(c);
    GateRunsPending(entries, c);
    var c' := ApplySpec(entries, c).config;
    var v := Reached(entries, start);
    assert c'.version == Some(v);
    ReachedIsAtLeastEveryKey(entries, start);
    NothingPendingAboveAllKeys(entries, v);
    GateRunsPending(entries, c');
  }

  /** The pending entries of ascending entries are ascending. */
  lemma {:induction false} PendingAscending<S, E>(entries: seq<Entry<S, E>>, start: int)
    requires Ascending(entries)
    ensures Ascending(Pending(entries, start))
  {
    if |entries| > 0 {
      var init, last := entries[..|entries| - 1], entries[|entries| - 1];
      assert Ascending(init);
      PendingAscending(init, start);
      var ps := Pending(init, start);
      forall i | 0 <= i < |ps| ensures ps[i].0 < last.0 {
        var j :| 0 <= j < |init| && Keys(init)[j] == ps[i].0;
        assert entries[j].0 == ps[i].0;
      }
    }
  }

  /** The transformation never changes the version field. */
  ghost predicate KeepsVersion<S(!new), E>(t: Transformation<S, E>)
  {
    forall x :: t(x).config.version == x.version
  }

  /** When no transformation touches the version field, a failed `apply` leaves the
    * version as it was: the reached version is not written back. */
  lemma {:induction false} FailureKeepsVersion<S(!new), E>(entries: seq<Entry<S, E>>, c: Config<S>)
    requires forall i :: 0 <= i < |entries| ==> KeepsVersion(entries[i].1)
    requires ApplySpec(entries, c).Failed?
    ensures ApplySpec(entries, c).config.version == c.version
  {
    RunKeepsVersion(entries, Init(c));
  }

  /** The loop keeps the version field when no transformation touches it. */
  lemma {:induction false} RunKeepsVersion<S(!new), E>(entries: seq<Entry<S, E>>, p: Progress<S, E>)
    requires forall i :: 0 <= i < |entries| ==> KeepsVersion(entries[i].1)
    ensures Run(entries, p).config.version == p.config.version
  {
    if |entries| > 0 {
      var init := entries[..|entries| - 1];
      assert forall i :: 0 <= i < |init| ==> init[i] == entries[i];
      RunKeepsVersion(init, p);
      var q := Run(init, p);
      assert KeepsVersion(entries[|entries| - 1].1);
    }
  }

  /** Two migrations from an unversioned tree, where the one to version 1 throws
    * after changing the tree and the one to version 2 succeeds: the call fails with
    * the version-1 error, version 2's change is in the tree, and no version is
    * written. */
  lemma PartialFailureExample()
    ensures ApplySpec([(1, Upgrade1), (2, Upgrade2)], Config(None, 5)) == Failed(Config(None, 60), "v1 failed", [])
  {
    var entries: seq<Entry<int, string>> := [(1, Upgrade1), (2, Upgrade2)];
    var p0: Progress<int, string> := Init(Config(None, 5));
    assert entries[..1] == [(1, Upgrade1)] && entries[..1][..0] == [];
    assert p0.current == -1;
    var p1 := Run(entries[..1], p0);
    assert |entries[..1]| == 1 && entries[..1][0] == (1, Upgrade1);
    assert Run(entries[..1][..0], p0) == p0;
    assert p1 == Gate(p0, (1, Upgrade1));
    assert Upgrade1(p0.config) == StepResult(Config(None, 6), Some("v1 failed"));
    assert p1 == Progress(Config(None, 6), 1, ["v1 failed"]);
    assert Run(entries, p0) == Gate(p1, (2, Upgrade2));
  }

  /** The example's migration to version 1: it changes the tree, then throws. */
  function Upgrade1(c: Config<int>): StepResult<int, string>
  {
    StepResult(c.(body := c.body + 1), Some("v1 failed"))
  }

  /** The example's migration to version 2: it succeeds. */
  function Upgrade2(c: Config<int>): StepResult<int, string>
  {
    StepResult(c.(body := c.body * 10), None)
  }
}
