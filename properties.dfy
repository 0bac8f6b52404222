/** What the traversal guarantees: the result list has no repeats and never
    holds the start file, the visited set grows exactly by what is appended,
    the start file plus a returned list is the least dependency-closed set
    holding the start file, and a list is returned exactly when the start
    file lies in a `ClosedSet`, a set whose every object can be read and has
    each needed name resolved inside the set; so any unresolvable name in the
    closure means no list. */
module Properties {
  import opened Wrappers
  import opened CStr
  import opened Elf
  import opened Traversal

  /** No path occurs twice. */
  predicate Distinct(s: seq<Path>)
  {
    forall i, j | 0 <= i < j < |s| :: s[i] != s[j]
  }

  /** The paths in a list, as a set. */
  function Elems(s: seq<Path>): set<Path>
  {
    set q | q in s
  }

  /** What was appended to the result list between `a` and `b`. */
  function Added(a: Progress, b: Progress): seq<Path>
    requires |a.libPaths| <= |b.libPaths|
  {
    b.libPaths[|a.libPaths|..]
  }

  /** `b` is `a` after appending distinct paths, none of them seen in `a`,
      and inserting exactly those paths into the visited set. */
  ghost predicate Extends(a: Progress, b: Progress)
  {
    && a.libPaths <= b.libPaths
    && Distinct(Added(a, b))
    && (forall q | q in Added(a, b) :: q !in a.seen)
    && b.seen == a.seen + Elems(Added(a, b))
  }

  /** The accumulators agree: no repeats in the list, and the list is within the set. */
  ghost predicate Consistent(p: Progress)
  {
    Distinct(p.libPaths) && forall q | q in p.libPaths :: q in p.seen
  }

  /** Appending and inserting one unseen path. */
  lemma ExtendsByOne(a: Progress, c: Path)
    requires c !in a.seen
    ensures Extends(a, Progress(a.seen + {c}, a.libPaths + [c]))
  {
    var b := Progress(a.seen + {c}, a.libPaths + [c]);
    assert Added(a, b) == [c];
  }

  /** Appended parts compose. */
  lemma AddedConcat(a: Progress, b: Progress, c: Progress)
    requires a.libPaths <= b.libPaths <= c.libPaths
    ensures Added(a, c) == Added(a, b) + Added(b, c)
  {
  }

  lemma ExtendsTrans(a: Progress, b: Progress, c: Progress)
    requires Extends(a, b) && Extends(b, c)
    ensures Extends(a, c)
  {
    AddedConcat(a, b, c);
    var ab, bc := Added(a, b), Added(b, c);
    forall i, j | 0 <= i < j < |ab + bc| ensures (ab + bc)[i] != (ab + bc)[j] {
      if j >= |ab| && i < |ab| {
        assert ab[i] in b.seen;
        assert bc[j - |ab|] in bc;
      }
    }
  }

  /** Appending one unseen path, then extending twice more. */
  lemma ExtendsThrough(a: Progress, c: Path, b: Progress, d: Progress)
    requires c !in a.seen
    requires Extends(Progress(a.seen + {c}, a.libPaths + [c]), b) && Extends(b, d)
    ensures Extends(a, d)
  {
    var a1 := Progress(a.seen + {c}, a.libPaths + [c]);
    ExtendsByOne(a, c);
    ExtendsTrans(a, a1, b);
    ExtendsTrans(a, b, d);
  }

  /** Extending keeps the accumulators consistent. */
  lemma ExtendsConsistent(a: Progress, b: Progress)
    requires Consistent(a) && Extends(a, b)
    ensures Consistent(b)
  {
    var added := Added(a, b);
    assert b.libPaths == a.libPaths + added;
    forall i, j | 0 <= i < j < |b.libPaths| ensures b.libPaths[i] != b.libPaths[j] {
      if i < |a.libPaths| <= j {
        assert b.libPaths[i] in a.seen;
        assert b.libPaths[j] in added;
      }
    }
  }

  /** `name` resolves, through the first acceptable directory of `dirs`, to `q`. */
  ghost predicate ResolvedTo(host: Host, dirs: seq<Path>, name: seq<byte>, is64: bool, q: Path)
  {
    var k := FirstAcceptable(host, dirs, name, is64);
    k.Some? && host.join(dirs[k.value], name) == q
  }

  /** `name` resolves, and to a path in `s`. */
  ghost predicate ResolvesInto(host: Host, dirs: seq<Path>, name: seq<byte>, is64: bool, s: set<Path>)
  {
    var k := FirstAcceptable(host, dirs, name, is64);
    k.Some? && host.join(dirs[k.value], name) in s
  }

  /** The object at `p` can be inspected and every needed name of it resolves into `s`. */
  ghost predicate Closed(host: Host, p: Path, s: set<Path>)
  {
    var v := Inspect(host, p);
    v.Done? && forall i | 0 <= i < |v.value.needed| :: ResolvesInto(host, v.value.searchDirs, v.value.needed[i], v.value.is64, s)
  }

  /** `q` is what one of the needed names of the object at `p` resolves to. */
  ghost predicate DependsOn(host: Host, p: Path, q: Path)
  {
    var v := Inspect(host, p);
    v.Done? && exists i | 0 <= i < |v.value.needed| :: ResolvedTo(host, v.value.searchDirs, v.value.needed[i], v.value.is64, q)
  }

  /** `q` is what one of `needed` resolves to. */
  ghost predicate ChildOfNames(host: Host, dirs: seq<Path>, needed: seq<seq<byte>>, is64: bool, q: Path)
  {
    exists i | 0 <= i < |needed| :: ResolvedTo(host, dirs, needed[i], is64, q)
  }

  /** Some path before position `t` of `s` depends on `s[t]`. */
  ghost predicate ParentEarlier(host: Host, s: seq<Path>, t: nat)
    requires t < |s|
  {
    exists u | 0 <= u < t :: DependsOn(host, s[u], s[t])
  }

  lemma ClosedMono(host: Host, p: Path, s: set<Path>, s': set<Path>)
    requires Closed(host, p, s) && s <= s'
    ensures Closed(host, p, s')
  {
  }

  lemma ParentEarlierShift(host: Host, pre: seq<Path>, s: seq<Path>, t: nat)
    requires t < |s| && ParentEarlier(host, s, t)
    ensures ParentEarlier(host, pre + s, |pre| + t)
  {
    var u :| 0 <= u < t && DependsOn(host, s[u], s[t]);
    assert (pre + s)[|pre| + u] == s[u];
  }

  /** A successful `collect_libs(path)` extends the accumulators: the list
      grows by distinct paths that were not seen before, and the visited set
      grows by exactly those paths. */
  lemma {:induction false} CollectExtends(host: Host, path: Path, acc: Progress)
    ensures var r := Collect(host, path, acc); r.Done? ==> Extends(acc, r.value)
    decreases |host.fs.Keys - acc.seen|, 1, 0, 0
  {
    match Inspect(host, path)
    case Done(v) => ResolveAllExtends(host, v.is64, v.needed, v.searchDirs, acc);
    case Fail =>
    case Panic =>
  }

  /** The resolution loop extends the accumulators, as in `CollectExtends`. */
  lemma {:induction false} ResolveAllExtends(host: Host, is64: bool, needed: seq<seq<byte>>, dirs: seq<Path>, acc: Progress)
    ensures var r := ResolveAll(host, is64, needed, dirs, acc); r.Done? ==> Extends(acc, r.value)
    decreases |host.fs.Keys - acc.seen|, 0, |needed|, 1
  {
    if needed == [] {
      assert Added(acc, acc) == [];
    } else {
      match FirstAcceptable(host, dirs, needed[0], is64)
      case None =>
      case Some(k) =>
        var c := host.join(dirs[k], needed[0]);
        if c in acc.seen {
          ResolveAllExtends(host, is64, needed[1..], dirs, acc);
          assert ResolveAll(host, is64, needed, dirs, acc) == ResolveAll(host, is64, needed[1..], dirs, acc);
        } else {
          ResolveAllExtendsNew(host, is64, needed, dirs, acc, k);
        }
    }
  }

  /** The step of `ResolveAllExtends` for a new candidate: it is appended and traversed first. */
  lemma {:induction false} ResolveAllExtendsNew(host: Host, is64: bool, needed: seq<seq<byte>>, dirs: seq<Path>, acc: Progress, k: nat)
    requires needed != [] && FirstAcceptable(host, dirs, needed[0], is64) == Some(k)
    requires host.join(dirs[k], needed[0]) !in acc.seen
    ensures var r := ResolveAll(host, is64, needed, dirs, acc); r.Done? ==> Extends(acc, r.value)
    decreases |host.fs.Keys - acc.seen|, 0, |needed|, 0
  {
    var c := host.join(dirs[k], needed[0]);
    var acc1 := Progress(acc.seen + {c}, acc.libPaths + [c]);
    FewerUnseen(host.fs.Keys, acc.seen, acc1.seen, c);
    CollectExtends(host, c, acc1);
    match Collect(host, c, acc1)
    case Done(acc2) =>
      FewerUnseen(host.fs.Keys, acc.seen, acc2.seen, c);
      ResolveAllExtends(host, is64, needed[1..], dirs, acc2);
      var r := ResolveAll(host, is64, needed[1..], dirs, acc2);
      assert ResolveAll(host, is64, needed, dirs, acc) == r;
      if r.Done? {
        ExtendsThrough(acc, c, acc2, r.value);
      }
    case Fail =>
    case Panic =>
  }

  /** After a successful `collect_libs(path)`, the object at `path` and every
      object it added to the visited set have all their needed names resolved
      into the visited set. */
  lemma {:induction false} CollectClosed(host: Host, path: Path, acc: Progress)
    ensures var r := Collect(host, path, acc);
      r.Done? ==> Closed(host, path, r.value.seen) && forall q | q in r.value.seen - acc.seen :: Closed(host, q, r.value.seen)
    decreases |host.fs.Keys - acc.seen|, 1, 0
  {
    match Inspect(host, path)
    case Done(v) => ResolveAllClosed(host, v.is64, v.needed, v.searchDirs, acc);
    case Fail =>
    case Panic =>
  }

  /** After a successful resolution loop over `needed`, every name resolves
      into the visited set and every object added to it is closed. */
  lemma {:induction false} ResolveAllClosed(host: Host, is64: bool, needed: seq<seq<byte>>, dirs: seq<Path>, acc: Progress)
    ensures var r := ResolveAll(host, is64, needed, dirs, acc);
      r.Done? ==>
        && (forall i | 0 <= i < |needed| :: ResolvesInto(host, dirs, needed[i], is64, r.value.seen))
        && (forall q | q in r.value.seen - acc.seen :: Closed(host, q, r.value.seen))
    decreases |host.fs.Keys - acc.seen|, 0, |needed|
  {
    if needed != [] {
      match FirstAcceptable(host, dirs, needed[0], is64)
      case None =>
      case Some(k) =>
        var c := host.join(dirs[k], needed[0]);
        if c in acc.seen {
          ResolveAllClosed(host, is64, needed[1..], dirs, acc);
          var r := ResolveAll(host, is64, needed[1..], dirs, acc);
          if r.Done? {
            RestResolve(host, is64, needed, dirs, r.value.seen);
          }
        } else {
          var acc1 := Progress(acc.seen + {c}, acc.libPaths + [c]);
          FewerUnseen(host.fs.Keys, acc.seen, acc1.seen, c);
          CollectClosed(host, c, acc1);
          match Collect(host, c, acc1)
          case Done(acc2) =>
            FewerUnseen(host.fs.Keys, acc.seen, acc2.seen, c);
            ResolveAllClosed(host, is64, needed[1..], dirs, acc2);
            var r := ResolveAll(host, is64, needed[1..], dirs, acc2);
            if r.Done? {
              RestResolve(host, is64, needed, dirs, r.value.seen);
              forall q | q in r.value.seen - acc.seen ensures Closed(host, q, r.value.seen) {
                if q !in r.value.seen - acc2.seen {
                  ClosedMono(host, q, acc2.seen, r.value.seen);
                }
              }
            }
          case Fail =>
          case Panic =>
        }
    }
  }

  /** The first name resolving into `s` and the rest resolving into `s` make all of them resolve into `s`. */
  lemma RestResolve(host: Host, is64: bool, needed: seq<seq<byte>>, dirs: seq<Path>, s: set<Path>)
    requires needed != []
    requires ResolvesInto(host, dirs, needed[0], is64, s)
    requires forall i | 0 <= i < |needed[1..]| :: ResolvesInto(host, dirs, needed[1..][i], is64, s)
    ensures forall i | 0 <= i < |needed| :: ResolvesInto(host, dirs, needed[i], is64, s)
  {
    forall i | 0 <= i < |needed| ensures ResolvesInto(host, dirs, needed[i], is64, s) {
      if i > 0 { assert needed[i] == needed[1..][i - 1]; }
    }
  }

  /** Every path a successful `collect_libs(path)` appends is a dependency of
      `path` or of a path appended before it. */
  lemma {:induction false} CollectParents(host: Host, path: Path, acc: Progress)
    ensures var r := Collect(host, path, acc);
      r.Done? ==>
        forall t | 0 <= t < |Added(acc, r.value)| ::
          DependsOn(host, path, Added(acc, r.value)[t]) || ParentEarlier(host, Added(acc, r.value), t)
    decreases |host.fs.Keys - acc.seen|, 1, 0, 0
  {
    match Inspect(host, path)
    case Done(v) =>
      ResolveAllParents(host, v.is64, v.needed, v.searchDirs, acc);
    case Fail =>
    case Panic =>
  }

  /** Every path a successful resolution loop appends is what one of `needed`
      resolves to, or a dependency of a path appended before it. */
  lemma {:induction false} ResolveAllParents(host: Host, is64: bool, needed: seq<seq<byte>>, dirs: seq<Path>, acc: Progress)
    ensures var r := ResolveAll(host, is64, needed, dirs, acc);
      r.Done? ==>
        forall t | 0 <= t < |Added(acc, r.value)| ::
          ChildOfNames(host, dirs, needed, is64, Added(acc, r.value)[t]) || ParentEarlier(host, Added(acc, r.value), t)
    decreases |host.fs.Keys - acc.seen|, 0, |needed|, 1
  {
    if needed == [] {
      assert Added(acc, acc) == [];
    } else {
      match FirstAcceptable(host, dirs, needed[0], is64)
      case None =>
      case Some(k) =>
        var c := host.join(dirs[k], needed[0]);
        if c in acc.seen {
          ResolveAllParents(host, is64, needed[1..], dirs, acc);
          var r := ResolveAll(host, is64, needed[1..], dirs, acc);
          assert ResolveAll(host, is64, needed, dirs, acc) == r;
          if r.Done? {
            var a := Added(acc, r.value);
            assert a == Added(acc, ResolveAll(host, is64, needed[1..], dirs, acc).value);
            forall t | 0 <= t < |a| ensures ChildOfNames(host, dirs, needed[1..], is64, a[t]) || ParentEarlier(host, a, t) {
              assert a[t] == Added(acc, ResolveAll(host, is64, needed[1..], dirs, acc).value)[t];
            }
            ParentsSkip(host, dirs, needed, is64, a);
          }
        } else {
          ResolveAllParentsNew(host, is64, needed, dirs, acc, k);
        }
    }
  }

  /** `ResolveAllParents` when the first name resolves, through `dirs[k]`, to a path not seen yet. */
  lemma {:induction false} ResolveAllParentsNew(host: Host, is64: bool, needed: seq<seq<byte>>, dirs: seq<Path>, acc: Progress, k: nat)
    requires needed != [] && FirstAcceptable(host, dirs, needed[0], is64) == Some(k)
    requires host.join(dirs[k], needed[0]) !in acc.seen
    ensures var r := ResolveAll(host, is64, needed, dirs, acc);
      r.Done? ==>
        forall t | 0 <= t < |Added(acc, r.value)| ::
          ChildOfNames(host, dirs, needed, is64, Added(acc, r.value)[t]) || ParentEarlier(host, Added(acc, r.value), t)
    decreases |host.fs.Keys - acc.seen|, 0, |needed|, 0
  {
    var c := host.join(dirs[k], needed[0]);
    var acc1 := Progress(acc.seen + {c}, acc.libPaths + [c]);
    FewerUnseen(host.fs.Keys, acc.seen, acc1.seen, c);
    CollectParents(host, c, acc1);
    match Collect(host, c, acc1)
    case Done(acc2) =>
      FewerUnseen(host.fs.Keys, acc.seen, acc2.seen, c);
      ResolveAllParents(host, is64, needed[1..], dirs, acc2);
      var r := ResolveAll(host, is64, needed[1..], dirs, acc2);
      assert ResolveAll(host, is64, needed, dirs, acc) == r;
      if r.Done? {
        assert ResolvedTo(host, dirs, needed[0], is64, c);
        var a2 := Added(acc2, r.value);
        assert a2 == Added(acc2, ResolveAll(host, is64, needed[1..], dirs, acc2).value);
        forall t | 0 <= t < |a2| ensures ChildOfNames(host, dirs, needed[1..], is64, a2[t]) || ParentEarlier(host, a2, t) {
          assert a2[t] == Added(acc2, ResolveAll(host, is64, needed[1..], dirs, acc2).value)[t];
        }
        ParentsStep(host, is64, needed, dirs, acc, c, acc1, acc2, r.value);
      }
    case Fail =>
    case Panic =>
  }

  /** What one of `needed[1..]` resolves to is what one of `needed` resolves to. */
  lemma ChildOfRest(host: Host, dirs: seq<Path>, needed: seq<seq<byte>>, is64: bool, q: Path)
    requires needed != [] && ChildOfNames(host, dirs, needed[1..], is64, q)
    ensures ChildOfNames(host, dirs, needed, is64, q)
  {
    var i :| 0 <= i < |needed[1..]| && ResolvedTo(host, dirs, needed[1..][i], is64, q);
    assert needed[1..][i] == needed[i + 1];
  }

  /** The step of `ResolveAllParents` for a candidate already seen: nothing is appended for the first name. */
  lemma ParentsSkip(host: Host, dirs: seq<Path>, needed: seq<seq<byte>>, is64: bool, added: seq<Path>)
    requires needed != []
    requires forall t | 0 <= t < |added| :: ChildOfNames(host, dirs, needed[1..], is64, added[t]) || ParentEarlier(host, added, t)
    ensures forall t | 0 <= t < |added| :: ChildOfNames(host, dirs, needed, is64, added[t]) || ParentEarlier(host, added, t)
  {
    forall t | 0 <= t < |added| && ChildOfNames(host, dirs, needed[1..], is64, added[t])
      ensures ChildOfNames(host, dirs, needed, is64, added[t])
    {
      ChildOfRest(host, dirs, needed, is64, added[t]);
    }
  }

  /** The inductive step of `ResolveAllParents` for a new candidate `c`. */
  lemma ParentsStep(host: Host, is64: bool, needed: seq<seq<byte>>, dirs: seq<Path>,
                    acc: Progress, c: Path, acc1: Progress, acc2: Progress, r: Progress)
    requires needed != [] && ResolvedTo(host, dirs, needed[0], is64, c)
    requires acc1.libPaths == acc.libPaths + [c] && acc1.libPaths <= acc2.libPaths <= r.libPaths
    requires forall t | 0 <= t < |Added(acc1, acc2)| ::
               DependsOn(host, c, Added(acc1, acc2)[t]) || ParentEarlier(host, Added(acc1, acc2), t)
    requires forall t | 0 <= t < |Added(acc2, r)| ::
               ChildOfNames(host, dirs, needed[1..], is64, Added(acc2, r)[t]) || ParentEarlier(host, Added(acc2, r), t)
    ensures forall t | 0 <= t < |Added(acc, r)| ::
              ChildOfNames(host, dirs, needed, is64, Added(acc, r)[t]) || ParentEarlier(host, Added(acc, r), t)
  {
    var a1, a2 := Added(acc1, acc2), Added(acc2, r);
    var all := Added(acc, r);
    assert all == [c] + a1 + a2;
    forall t | 0 <= t < |all| ensures ChildOfNames(host, dirs, needed, is64, all[t]) || ParentEarlier(host, all, t) {
      if t == 0 {
        assert ResolvedTo(host, dirs, needed[0], is64, all[0]);
      } else if t < 1 + |a1| {
        FirstBlock(host, c, a1, a2, t);
      } else {
        SecondBlock(host, dirs, needed, is64, [c] + a1, a2, t - 1 - |a1|);
      }
    }
  }

  /** Inside `[c] + a1 + a2`, a path of `a1` has its parent earlier: `c` or a path of `a1`. */
  lemma FirstBlock(host: Host, c: Path, a1: seq<Path>, a2: seq<Path>, t: nat)
    requires 1 <= t < 1 + |a1|
    requires DependsOn(host, c, a1[t - 1]) || ParentEarlier(host, a1, t - 1)
    ensures ParentEarlier(host, [c] + a1 + a2, t)
  {
    var all := [c] + a1 + a2;
    assert all[t] == a1[t - 1];
    if DependsOn(host, c, a1[t - 1]) {
      assert all[0] == c;
      ParentAt(host, all, 0, t);
    } else {
      ParentShifted(host, c, a1, a2, t);
    }
  }

  /** A parent of `a1[t - 1]` inside `a1` sits one place later inside `[c] + a1 + a2`. */
  lemma ParentShifted(host: Host, c: Path, a1: seq<Path>, a2: seq<Path>, t: nat)
    requires 1 <= t < 1 + |a1| && ParentEarlier(host, a1, t - 1)
    ensures ParentEarlier(host, [c] + a1 + a2, t)
  {
    var all := [c] + a1 + a2;
    var u :| 0 <= u < t - 1 && DependsOn(host, a1[u], a1[t - 1]);
    assert all[u + 1] == a1[u] && all[t] == a1[t - 1];
    ParentAt(host, all, u + 1, t);
  }

  /** A witness for `ParentEarlier`. */
  lemma ParentAt(host: Host, s: seq<Path>, u: nat, t: nat)
    requires u < t < |s| && DependsOn(host, s[u], s[t])
    ensures ParentEarlier(host, s, t)
  {
  }

  /** Inside `pre + a2`, a path of `a2` that the rest of the names resolve to,
      or that has its parent earlier in `a2`, keeps that property. */
  lemma SecondBlock(host: Host, dirs: seq<Path>, needed: seq<seq<byte>>, is64: bool, pre: seq<Path>, a2: seq<Path>, t: nat)
    requires needed != [] && t < |a2|
    requires ChildOfNames(host, dirs, needed[1..], is64, a2[t]) || ParentEarlier(host, a2, t)
    ensures ChildOfNames(host, dirs, needed, is64, (pre + a2)[|pre| + t]) || ParentEarlier(host, pre + a2, |pre| + t)
  {
    assert (pre + a2)[|pre| + t] == a2[t];
    if ChildOfNames(host, dirs, needed[1..], is64, a2[t]) {
      ChildOfRest(host, dirs, needed, is64, a2[t]);
    } else {
      ParentEarlierShift(host, pre, a2, t);
    }
  }

  /** No path that `s` holds has a dependency outside `s`. */
  ghost predicate ClosedUnderDeps(host: Host, s: set<Path>)
  {
    forall p, q | p in s && DependsOn(host, p, q) :: q in s
  }

  /** What `get_libs_full_paths` returns, when it returns a list: no path
      twice, never the start file, and every object of the start file plus
      the list can be inspected and has each needed name resolved, through its
      own search directories, to the start file or a listed path. So a name
      that cannot be resolved anywhere in that closure means no list at all. */
  lemma LibsFullPathsSound(host: Host, start: Path)
    ensures var r := LibsFullPaths(host, start);
      r.Done? ==>
        && Distinct(r.value)
        && start !in r.value
        && Closed(host, start, {start} + Elems(r.value))
        && forall q | q in r.value :: Closed(host, q, {start} + Elems(r.value))
  {
    var acc := Progress({start}, []);
    CollectExtends(host, start, acc);
    CollectClosed(host, start, acc);
    var c := Collect(host, start, acc);
    if c.Done? {
      assert Added(acc, c.value) == c.value.libPaths;
      assert c.value.seen == {start} + Elems(c.value.libPaths);
    }
  }

  /** The list `get_libs_full_paths` returns holds nothing beyond the
      dependency closure of the start file: any set that holds the start file
      and the dependencies of each of its members holds every listed path. */
  lemma LibsFullPathsMinimal(host: Host, start: Path, s: set<Path>)
    requires start in s && ClosedUnderDeps(host, s)
    ensures var r := LibsFullPaths(host, start); r.Done? ==> Elems(r.value) <= s
  {
    var acc := Progress({start}, []);
    CollectParents(host, start, acc);
    var c := Collect(host, start, acc);
    if c.Done? {
      var list := c.value.libPaths;
      assert Added(acc, c.value) == list;
      forall t | 0 <= t < |list| ensures list[t] in s {
        ListedInClosedSet(host, start, list, s, t);
      }
    }
  }

  /** Induction on the position in the list for `LibsFullPathsMinimal`. */
  lemma {:induction false} ListedInClosedSet(host: Host, start: Path, list: seq<Path>, s: set<Path>, t: nat)
    requires start in s && ClosedUnderDeps(host, s) && t < |list|
    requires forall t' | 0 <= t' < |list| :: DependsOn(host, start, list[t']) || ParentEarlier(host, list, t')
    ensures list[t] in s
    decreases t
  {
    if !DependsOn(host, start, list[t]) {
      var u :| 0 <= u < t && DependsOn(host, list[u], list[t]);
      ListedInClosedSet(host, start, list, s, u);
    }
  }

  /** With `LibsFullPathsSound`: the start file plus the list is the least
      set that holds the start file and is closed under dependencies. */
  lemma LibsFullPathsLeastClosed(host: Host, start: Path)
    ensures var r := LibsFullPaths(host, start);
      r.Done? ==>
        && ClosedUnderDeps(host, {start} + Elems(r.value))
        && forall s | start in s && ClosedUnderDeps(host, s) :: {start} + Elems(r.value) <= s
  {
    var r := LibsFullPaths(host, start);
    if r.Done? {
      var all := {start} + Elems(r.value);
      LibsFullPathsSound(host, start);
      forall p, q | p in all && DependsOn(host, p, q) ensures q in all {
        ClosedHasDeps(host, p, q, all);
      }
      forall s | start in s && ClosedUnderDeps(host, s) ensures all <= s {
        LibsFullPathsMinimal(host, start, s);
      }
    }
  }

  /** Every dependency of an object whose names all resolve into `s` is in `s`. */
  lemma ClosedHasDeps(host: Host, p: Path, q: Path, s: set<Path>)
    requires Closed(host, p, s) && DependsOn(host, p, q)
    ensures q in s
  {
    var v := Inspect(host, p).value;
    var i :| 0 <= i < |v.needed| && ResolvedTo(host, v.searchDirs, v.needed[i], v.is64, q);
    assert ResolvesInto(host, v.searchDirs, v.needed[i], v.is64, s);
  }

  /** Every object of `t` can be inspected and has each needed name resolved
      into `t`. Stronger than `ClosedUnderDeps`: a name that resolves nowhere
      gives no dependency, but keeps its object out of every `ClosedSet`. */
  ghost predicate ClosedSet(host: Host, t: set<Path>)
  {
    forall p | p in t :: Closed(host, p, t)
  }

  /** Starting from a path of a closed set, `collect_libs` always returns
      `Some`, whatever it has seen already. */
  lemma {:induction false} CollectDone(host: Host, t: set<Path>, path: Path, acc: Progress)
    requires ClosedSet(host, t) && path in t
    ensures Collect(host, path, acc).Done?
    decreases |host.fs.Keys - acc.seen|, 1, 0
  {
    assert Closed(host, path, t);
    var v := Inspect(host, path).value;
    ResolveAllDone(host, t, v.is64, v.needed, v.searchDirs, acc);
  }

  /** Names that all resolve into a closed set are all found, and so is
      everything their objects need. */
  lemma {:induction false} ResolveAllDone(host: Host, t: set<Path>, is64: bool, needed: seq<seq<byte>>, dirs: seq<Path>, acc: Progress)
    requires ClosedSet(host, t)
    requires forall i | 0 <= i < |needed| :: ResolvesInto(host, dirs, needed[i], is64, t)
    ensures ResolveAll(host, is64, needed, dirs, acc).Done?
    decreases |host.fs.Keys - acc.seen|, 0, |needed|
  {
    if needed != [] {
      assert ResolvesInto(host, dirs, needed[0], is64, t);
      var k := FirstAcceptable(host, dirs, needed[0], is64).value;
      var c := host.join(dirs[k], needed[0]);
      forall i | 0 <= i < |needed[1..]| ensures ResolvesInto(host, dirs, needed[1..][i], is64, t) {
        assert needed[1..][i] == needed[i + 1];
      }
      if c in acc.seen {
        ResolveAllDone(host, t, is64, needed[1..], dirs, acc);
      } else {
        var acc1 := Progress(acc.seen + {c}, acc.libPaths + [c]);
        FewerUnseen(host.fs.Keys, acc.seen, acc1.seen, c);
        CollectDone(host, t, c, acc1);
        var acc2 := Collect(host, c, acc1).value;
        FewerUnseen(host.fs.Keys, acc.seen, acc2.seen, c);
        ResolveAllDone(host, t, is64, needed[1..], dirs, acc2);
        assert ResolveAll(host, is64, needed, dirs, acc) == ResolveAll(host, is64, needed[1..], dirs, acc2);
      }
    }
  }

  /** A list is returned whenever the start file lies in a set whose every
      object can be inspected and has each needed name resolved inside it. */
  lemma LibsFullPathsComplete(host: Host, start: Path, t: set<Path>)
    requires start in t && ClosedSet(host, t)
    ensures LibsFullPaths(host, start).Done?
  {
    CollectDone(host, t, start, Progress({start}, []));
  }

  /** `get_libs_full_paths` returns a list exactly when some closed set holds
      the start file; otherwise some library of its closure is not found, or
      reading an object panics. */
  lemma LibsFullPathsSucceeds(host: Host, start: Path)
    ensures LibsFullPaths(host, start).Done? <==> exists t :: start in t && ClosedSet(host, t)
  {
    var r := LibsFullPaths(host, start);
    if r.Done? {
      LibsFullPathsSound(host, start);
      assert start in {start} + Elems(r.value) && ClosedSet(host, {start} + Elems(r.value));
    }
    if exists t :: start in t && ClosedSet(host, t) {
      var t :| start in t && ClosedSet(host, t);
      LibsFullPathsComplete(host, start, t);
    }
  }

  /** A needed name of the start file without an acceptable candidate in any
      of its search directories means no list is returned. */
  lemma UnresolvableNameGivesNoList(host: Host, start: Path, i: nat)
    requires Inspect(host, start).Done? && i < |Inspect(host, start).value.needed|
    requires var v := Inspect(host, start).value; FirstAcceptable(host, v.searchDirs, v.needed[i], v.is64).None?
    ensures !LibsFullPaths(host, start).Done?
  {
    LibsFullPathsSound(host, start);
  }

  /** An object without DT_NEEDED entries yields the empty list, with the
      visited set still just the start file, unless reading it panics; it
      never yields `None`. */
  lemma NoNeededGivesEmptyList(host: Host, start: Path)
    requires start in host.fs && host.fs[start].ElfObject?
    requires var elf := host.fs[start].elf; elf.dynstr.Some? && elf.dynamic.Some? && CountNeeded(elf.dynamic.value) == 0
    ensures var elf := host.fs[start].elf;
      LibsFullPaths(host, start) == if ScanEntries(elf.dynamic.value, elf.dynstr.value).Done? then Done([]) else Panic
    ensures var elf := host.fs[start].elf;
      ScanEntries(elf.dynamic.value, elf.dynstr.value).Done? ==> Collect(host, start, Progress({start}, [])) == Done(Progress({start}, []))
  {
  }

  /** First match wins across concatenated lists of directories: the second
      list is consulted only when no directory of the first one gives an
      acceptable candidate. */
  lemma FirstAcceptableConcat(host: Host, d1: seq<Path>, d2: seq<Path>, name: seq<byte>, is64: bool)
    ensures FirstAcceptable(host, d1 + d2, name, is64) ==
      match FirstAcceptable(host, d1, name, is64)
      case Some(k) => Some(k)
      case None =>
        match FirstAcceptable(host, d2, name, is64)
        case Some(k) => Some(|d1| + k)
        case None => None
  {
    var d := d1 + d2;
    assert forall j | 0 <= j < |d1| :: d[j] == d1[j];
    assert forall j | |d1| <= j < |d| :: d[j] == d2[j - |d1|];
    match FirstAcceptable(host, d1, name, is64)
    case Some(k) =>
      assert Acceptable(host, d[k], name, is64);
      assert forall j | 0 <= j < k :: !Acceptable(host, d[j], name, is64);
    case None =>
      assert forall j | 0 <= j < |d1| :: !Acceptable(host, d[j], name, is64);
      match FirstAcceptable(host, d2, name, is64)
      case Some(k) =>
        assert Acceptable(host, d[|d1| + k], name, is64);
        assert forall j | |d1| <= j < |d1| + k :: !Acceptable(host, d[j], name, is64);
      case None =>
        assert forall j | |d1| <= j < |d| :: !Acceptable(host, d[j], name, is64);
  }

  /** Search-directory priority: a name that some fixed directory gives an
      acceptable candidate for resolves through a fixed directory, and one
      that some LD_LIBRARY_PATH directory does resolves through a fixed or an
      LD_LIBRARY_PATH directory; the DT_RPATH/DT_RUNPATH directories come last. */
  lemma SearchPriority(host: Host, path: Path, name: seq<byte>)
    requires Inspect(host, path).Done?
    ensures var v := Inspect(host, path).value;
      var k := FirstAcceptable(host, v.searchDirs, name, v.is64);
      && ((exists j | 0 <= j < |FixedDirs| :: Acceptable(host, FixedDirs[j], name, v.is64)) ==> k.Some? && k.value < |FixedDirs|)
      && ((exists j | 0 <= j < |EnvDirs(host)| :: Acceptable(host, EnvDirs(host)[j], name, v.is64)) ==> k.Some? && k.value < |FixedDirs| + |EnvDirs(host)|)
  {
    var v := Inspect(host, path).value;
    var pre := FixedDirs + EnvDirs(host);
    var rest := v.searchDirs[|pre|..];
    assert v.searchDirs == pre + rest;
    FirstAcceptableConcat(host, pre, rest, name, v.is64);
    FirstAcceptableConcat(host, FixedDirs, EnvDirs(host), name, v.is64);
    if exists j | 0 <= j < |FixedDirs| :: Acceptable(host, FixedDirs[j], name, v.is64) {
      var j :| 0 <= j < |FixedDirs| && Acceptable(host, FixedDirs[j], name, v.is64);
      assert FirstAcceptable(host, FixedDirs, name, v.is64).Some?;
    }
    if exists j | 0 <= j < |EnvDirs(host)| :: Acceptable(host, EnvDirs(host)[j], name, v.is64) {
      var j :| 0 <= j < |EnvDirs(host)| && Acceptable(host, EnvDirs(host)[j], name, v.is64);
      assert FirstAcceptable(host, EnvDirs(host), name, v.is64).Some?;
    }
  }

  /** A candidate that exists but fails `verify_arch` (the other class, a
      directory, a file that does not parse) is treated exactly as if it were
      absent from the file system. */
  lemma MismatchLikeAbsent(host: Host, c: Path, dirs: seq<Path>, name: seq<byte>, is64: bool)
    requires c in host.fs && !VerifyArch(host, c, is64)
    ensures FirstAcceptable(host, dirs, name, is64) == FirstAcceptable(host.(fs := host.fs - {c}), dirs, name, is64)
  {
    MismatchLikeAbsentFrom(host, c, dirs, name, is64, 0);
  }

  lemma {:induction false} MismatchLikeAbsentFrom(host: Host, c: Path, dirs: seq<Path>, name: seq<byte>, is64: bool, j: nat)
    requires c in host.fs && !VerifyArch(host, c, is64) && j <= |dirs|
    ensures FirstAcceptableFrom(host, dirs, name, is64, j) == FirstAcceptableFrom(host.(fs := host.fs - {c}), dirs, name, is64, j)
    decreases |dirs| - j
  {
    if j < |dirs| {
      var without := host.(fs := host.fs - {c});
      assert Acceptable(host, dirs[j], name, is64) == Acceptable(without, dirs[j], name, is64);
      MismatchLikeAbsentFrom(host, c, dirs, name, is64, j + 1);
    }
  }
}
