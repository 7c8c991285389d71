/**
 The reverse file tree (`ReverseFileTree`): a trie keyed by path components
 read basename first. Inserting a path walks or creates one node per
 component and records the original string at the last node. A lookup walks
 a query's components as far as they match, answers with the deepest
 recorded paths on the way and, when enough components matched, extends the
 answer along a chain of only-children.
 */
module FileTree {
  import opened Wrappers
  import opened Components

  /** A trie node: the paths whose components end here, and one child per next component. */
  datatype Node = Node(fullPaths: seq<string>, children: map<string, Node>)

  datatype ReverseFileTree = ReverseFileTree(root: Node)

  const EmptyNode := Node([], map[])

  // ----- Reading the trie --------------------------------------------------

  /** The node reached from `n` by following `comps`, if every step exists. */
  function Descend(n: Node, comps: seq<string>): Option<Node>
  {
    if |comps| == 0 then Some(n)
    else if comps[0] in n.children then Descend(n.children[comps[0]], comps[1..])
    else None
  }

  /** There is a node at the end of `comps`. */
  predicate Has(n: Node, comps: seq<string>)
  {
    Descend(n, comps).Some?
  }

  /** The paths recorded at the end of `comps`; none when there is no such node. */
  function PathsAt(n: Node, comps: seq<string>): seq<string>
  {
    match Descend(n, comps)
    case Some(m) => m.fullPaths
    case None => []
  }

  /** `s` is recorded somewhere in the trie below `n`. */
  ghost predicate Stored(n: Node, s: string)
  {
    exists q :: s in PathsAt(n, q)
  }

  lemma {:induction false} DescendAppend(n: Node, p: seq<string>, q: seq<string>)
    ensures Descend(n, p + q) == (match Descend(n, p) case Some(m) => Descend(m, q) case None => None)
    decreases |p|
  {
    if |p| == 0 {
      assert p + q == q;
    } else {
      assert (p + q)[0] == p[0];
      assert (p + q)[1..] == p[1..] + q;
      if p[0] in n.children {
        DescendAppend(n.children[p[0]], p[1..], q);
      } else {
        assert Descend(n, p) == None;
        assert Descend(n, p + q) == None;
      }
    }
  }

  lemma DescendChild(n: Node, k: string, q: seq<string>)
    requires k in n.children
    ensures Descend(n, [k] + q) == Descend(n.children[k], q)
    ensures PathsAt(n, [k] + q) == PathsAt(n.children[k], q)
  {
    assert ([k] + q)[0] == k;
    assert ([k] + q)[1..] == q;
  }

  lemma {:induction false} EmptyNodePaths(q: seq<string>)
    ensures Descend(EmptyNode, q) == (if |q| == 0 then Some(EmptyNode) else None)
    ensures PathsAt(EmptyNode, q) == []
  {
  }

  /** What is recorded below a node reached by `p` is recorded below `n`. */
  lemma StoredBelow(n: Node, p: seq<string>, m: Node, s: string)
    requires Descend(n, p) == Some(m)
    requires Stored(m, s)
    ensures Stored(n, s)
  {
    var q :| s in PathsAt(m, q);
    DescendAppend(n, p, q);
    assert s in PathsAt(n, p + q);
  }

  // ----- new and insert ----------------------------------------------------

  /** `ReverseFileTree::new()`: the root is the only node, and nothing is recorded anywhere. */
  function New(): (t: ReverseFileTree)
    ensures forall q :: Has(t.root, q) <==> q == []
    ensures forall q :: PathsAt(t.root, q) == []
  {
    EmptyNodePathsAll();
    ReverseFileTree(EmptyNode)
  }

  lemma EmptyNodePathsAll()
    ensures forall q :: Descend(EmptyNode, q) == (if |q| == 0 then Some(EmptyNode) else None)
  {
    forall q
      ensures Descend(EmptyNode, q) == (if |q| == 0 then Some(EmptyNode) else None)
    {
      EmptyNodePaths(q);
    }
  }

  /** The insertion walk from `n`: create missing children along `comps`, then record `path` at the end. */
  function InsertAt(n: Node, comps: seq<string>, path: string): Node
    decreases |comps|
  {
    if |comps| == 0 then n.(fullPaths := n.fullPaths + [path])
    else
      var child := if comps[0] in n.children then n.children[comps[0]] else EmptyNode;
      n.(children := n.children[comps[0] := InsertAt(child, comps[1..], path)])
  }

  /** `ReverseFileTree::insert(path)`. */
  function Insert(t: ReverseFileTree, path: string): ReverseFileTree
  {
    ReverseFileTree(InsertAt(t.root, ReverseComponents(path), path))
  }

  /**
   Insertion appends `path` after whatever was recorded at the end of `comps`
   and records nothing anywhere else.
   */
  lemma {:induction false} InsertPaths(n: Node, comps: seq<string>, path: string, q: seq<string>)
    ensures PathsAt(InsertAt(n, comps, path), q) == PathsAt(n, q) + (if q == comps then [path] else [])
    decreases |comps|
  {
    var r := InsertAt(n, comps, path);
    if |comps| == 0 {
      if |q| > 0 {
        assert r.children == n.children;
      }
    } else if |q| > 0 {
      var c := comps[0];
      var child := if c in n.children then n.children[c] else EmptyNode;
      if q[0] == c {
        InsertPaths(child, comps[1..], path, q[1..]);
        assert q == comps <==> q[1..] == comps[1..] by {
          if q[1..] == comps[1..] {
            assert q == [q[0]] + q[1..];
            assert comps == [comps[0]] + comps[1..];
          }
        }
        if c !in n.children {
          EmptyNodePaths(q[1..]);
        }
      }
    }
  }

  /** Insertion keeps every node and adds exactly the nodes along `comps`. */
  lemma {:induction false} InsertHas(n: Node, comps: seq<string>, path: string, q: seq<string>)
    ensures Has(InsertAt(n, comps, path), q) <==> Has(n, q) || q <= comps
    decreases |comps|
  {
    var r := InsertAt(n, comps, path);
    if |comps| == 0 {
      if |q| > 0 {
        assert r.children == n.children;
      }
    } else if |q| > 0 {
      var c := comps[0];
      var child := if c in n.children then n.children[c] else EmptyNode;
      if q[0] == c {
        InsertHas(child, comps[1..], path, q[1..]);
        assert q <= comps <==> q[1..] <= comps[1..];
        if c !in n.children {
          EmptyNodePaths(q[1..]);
        }
      }
    }
  }

  /** A node that is not on the insertion path, or lies below its end, is left exactly as it was. */
  lemma {:induction false} InsertOffPath(n: Node, comps: seq<string>, path: string, q: seq<string>)
    requires !(q <= comps)
    ensures Descend(InsertAt(n, comps, path), q) == Descend(n, q)
    decreases |comps|
  {
    var r := InsertAt(n, comps, path);
    if |comps| == 0 {
      assert r.children == n.children;
    } else {
      var c := comps[0];
      var child := if c in n.children then n.children[c] else EmptyNode;
      if q[0] == c {
        assert !(q[1..] <= comps[1..]);
        InsertOffPath(child, comps[1..], path, q[1..]);
        if c !in n.children {
          EmptyNodePaths(q[1..]);
        }
      }
    }
  }

  // ----- from_iter ---------------------------------------------------------

  /** `ReverseFileTree::from_iter(paths)`: insert every path, in order, into a new tree. */
  function FromIter(paths: seq<string>): ReverseFileTree
  {
    if |paths| == 0 then New() else Insert(FromIter(paths[..|paths| - 1]), paths[|paths| - 1])
  }

  /** The paths, in input order, whose components are exactly `q`. */
  function WithComponents(paths: seq<string>, q: seq<string>): seq<string>
  {
    if |paths| == 0 then []
    else
      var last := paths[|paths| - 1];
      WithComponents(paths[..|paths| - 1], q) + (if ReverseComponents(last) == q then [last] else [])
  }

  lemma {:induction false} WithComponentsMembers(paths: seq<string>, q: seq<string>, s: string)
    ensures s in WithComponents(paths, q) <==> s in paths && ReverseComponents(s) == q
  {
    if |paths| > 0 {
      var init := paths[..|paths| - 1];
      WithComponentsMembers(init, q, s);
      assert paths == init + [paths[|paths| - 1]];
    }
  }

  /**
   The built tree records at each component sequence exactly the input paths
   with those components, in input order, duplicates included.
   */
  lemma {:induction false} FromIterPaths(paths: seq<string>, q: seq<string>)
    ensures PathsAt(FromIter(paths).root, q) == WithComponents(paths, q)
  {
    if |paths| > 0 {
      var init := paths[..|paths| - 1];
      var last := paths[|paths| - 1];
      FromIterPaths(init, q);
      InsertPaths(FromIter(init).root, ReverseComponents(last), last, q);
    }
  }

  /** A string is recorded in the built tree if and only if it was one of the inputs. */
  lemma FromIterStored(paths: seq<string>, s: string)
    ensures Stored(FromIter(paths).root, s) <==> s in paths
  {
    var root := FromIter(paths).root;
    if Stored(root, s) {
      var q :| s in PathsAt(root, q);
      FromIterPaths(paths, q);
      WithComponentsMembers(paths, q, s);
    }
    if s in paths {
      var q := ReverseComponents(s);
      FromIterPaths(paths, q);
      WithComponentsMembers(paths, q, s);
      assert s in PathsAt(root, q);
    }
  }

  /**
   The built tree has a node exactly at the root and at every prefix of an
   input's components: no other node is ever created.
   */
  lemma {:induction false} FromIterHas(paths: seq<string>, q: seq<string>)
    ensures Has(FromIter(paths).root, q) <==> q == [] || exists p :: p in paths && q <= ReverseComponents(p)
  {
    if |paths| == 0 {
      EmptyNodePaths(q);
    } else {
      var init := paths[..|paths| - 1];
      var last := paths[|paths| - 1];
      FromIterHas(init, q);
      InsertHas(FromIter(init).root, ReverseComponents(last), last, q);
      assert paths == init + [last];
      assert forall p :: p in paths <==> p in init || p == last;
    }
  }

  /** The loop of `from_iter`, building the tree one insertion at a time. */
  method BuildTree(paths: seq<string>) returns (t: ReverseFileTree)
    ensures t == FromIter(paths)
  {
    t := New();
    var i := 0;
    while i < |paths|
      invariant 0 <= i <= |paths|
      invariant t == FromIter(paths[..i])
    {
      assert paths[..i + 1][..i] == paths[..i];
      t := Insert(t, paths[i]);
      i := i + 1;
    }
    assert paths[..|paths|] == paths;
  }

  // ----- lookup ------------------------------------------------------------

  /** The state after the matching walk: where it stopped, how many components matched, what it remembers. */
  datatype Walk = Walk(node: Node, matched: nat, last: seq<string>)

  /**
   The matching walk of `lookup` from `n`: descend while the next component
   is a child, replacing `last` by each non-empty `fullPaths` met.
   */
  function WalkFrom(n: Node, comps: seq<string>, last: seq<string>): (w: Walk)
    ensures w.matched <= |comps|
  {
    if |comps| == 0 || comps[0] !in n.children then Walk(n, 0, last)
    else
      var child := n.children[comps[0]];
      var w := WalkFrom(child, comps[1..], if |child.fullPaths| > 0 then child.fullPaths else last);
      w.(matched := w.matched + 1)
  }

  /** `min_matches.map_or(1, |n| n + 1)`: how many components must match before forced completion. */
  function Threshold(minMatches: Option<nat>): (k: nat)
    ensures k >= 1
  {
    match minMatches
    case None => 1
    case Some(m) => m + 1
  }

  lemma SingletonUnique<K>(s: set<K>)
    requires |s| == 1
    ensures forall a, b :: a in s && b in s ==> a == b
  {
    var x :| x in s;
    assert |s - {x}| == 0;
  }

  /** The one element of a one-element set. */
  function OnlyKey<K>(s: set<K>): (k: K)
    requires |s| == 1
    ensures s == {k}
  {
    SingletonUnique(s);
    var k :| k in s; k
  }

  /**
   Forced completion from `n`: while the node has exactly one child, move to
   it and stop at the first one with recorded paths, which are the answer.
   A node with no child or several children ends it with nothing.
   */
  function Complete(n: Node): seq<string>
  {
    if |n.children| != 1 then []
    else
      var child := n.children[OnlyKey(n.children.Keys)];
      if |child.fullPaths| > 0 then child.fullPaths else Complete(child)
  }

  /** `lookup(path, min_matches)`. */
  function Lookup(t: ReverseFileTree, path: string, minMatches: Option<nat>): seq<string>
  {
    var w := WalkFrom(t.root, ReverseComponents(path), []);
    if w.matched >= Threshold(minMatches) then w.last + Complete(w.node) else w.last
  }

  // ----- What the walk computes ---------------------------------------------

  /**
   Reference for the remembered paths: the `fullPaths` of the deepest
   non-empty node among those at the prefixes of `q` of length 1 to `|q|`
   (the root is never a candidate), or nothing.
   */
  function DeepestPaths(n: Node, q: seq<string>): seq<string>
  {
    if |q| == 0 then []
    else if PathsAt(n, q) != [] then PathsAt(n, q)
    else DeepestPaths(n, q[..|q| - 1])
  }

  lemma {:induction false} DeepestCons(n: Node, k: string, q: seq<string>)
    requires k in n.children
    ensures DeepestPaths(n, [k] + q)
      == (var d := DeepestPaths(n.children[k], q); if d != [] then d else n.children[k].fullPaths)
    decreases |q|
  {
    var child := n.children[k];
    assert ([k] + q)[1..] == q;
    if |q| > 0 && PathsAt(child, q) == [] {
      assert ([k] + q)[..|q|] == [k] + q[..|q| - 1];
      DeepestCons(n, k, q[..|q| - 1]);
    } else if |q| == 0 {
      assert ([k] + q)[..0] == [];
      DescendChild(n, k, q);
    }
  }

  /**
   The walk stops at the node of the longest matching prefix of `comps`, one
   whose next component is not a child, and remembers the deepest recorded
   paths on that prefix (or the initial `last` when there are none).
   */
  lemma {:induction false} WalkSpec(n: Node, comps: seq<string>, last: seq<string>)
    ensures WalkFrom(n, comps, last).matched <= |comps|
    ensures Descend(n, comps[..WalkFrom(n, comps, last).matched]) == Some(WalkFrom(n, comps, last).node)
    ensures WalkFrom(n, comps, last).matched < |comps|
      ==> comps[WalkFrom(n, comps, last).matched] !in WalkFrom(n, comps, last).node.children
    ensures WalkFrom(n, comps, last).last
      == (var d := DeepestPaths(n, comps[..WalkFrom(n, comps, last).matched]); if d != [] then d else last)
  {
    var w := WalkFrom(n, comps, last);
    if |comps| == 0 || comps[0] !in n.children {
      assert comps[..0] == [];
    } else {
      var child := n.children[comps[0]];
      var last' := if |child.fullPaths| > 0 then child.fullPaths else last;
      var rest := comps[1..];
      WalkSpec(child, rest, last');
      var w' := WalkFrom(child, rest, last');
      assert comps[..w.matched] == [comps[0]] + rest[..w'.matched];
      DeepestCons(n, comps[0], rest[..w'.matched]);
    }
  }

  // ----- Forced completion ---------------------------------------------------

  /**
   `q` is a run of only-children from `n`: every node it passes through has
   exactly one child, the next component, and every node strictly between `n`
   and the end of `q` has no recorded paths.
   */
  predicate OnChain(n: Node, q: seq<string>)
  {
    |q| == 0 ||
    (n.children.Keys == {q[0]} &&
     (|q| == 1 || (|n.children[q[0]].fullPaths| == 0 && OnChain(n.children[q[0]], q[1..]))))
  }

  /** Completion answers the recorded paths of a node at the end of a run of only-children. */
  lemma {:induction false} CompleteSound(n: Node)
    requires Complete(n) != []
    ensures exists q :: |q| > 0 && OnChain(n, q) && Complete(n) == PathsAt(n, q)
  {
    var k := OnlyKey(n.children.Keys);
    var child := n.children[k];
    if |child.fullPaths| > 0 {
      DescendChild(n, k, []);
      assert [k] + [] == [k];
      assert OnChain(n, [k]) && Complete(n) == PathsAt(n, [k]);
    } else {
      CompleteSound(child);
      var q :| |q| > 0 && OnChain(child, q) && Complete(child) == PathsAt(child, q);
      assert ([k] + q)[1..] == q;
      DescendChild(n, k, q);
      assert OnChain(n, [k] + q) && Complete(n) == PathsAt(n, [k] + q);
    }
  }

  /** The first non-empty node on a run of only-children is what completion answers. */
  lemma {:induction false} CompleteFinds(n: Node, q: seq<string>)
    requires |q| > 0 && OnChain(n, q) && PathsAt(n, q) != []
    ensures Complete(n) == PathsAt(n, q)
  {
    var k := OnlyKey(n.children.Keys);
    assert k == q[0];
    var child := n.children[k];
    if |q| == 1 {
      DescendChild(n, k, []);
      assert q == [k] + [];
    } else {
      CompleteFinds(child, q[1..]);
      DescendChild(n, k, q[1..]);
      assert q == [k] + q[1..];
    }
  }

  /**
   Completion adds the paths of at most one node: it answers something
   exactly when some run of only-children reaches a node with recorded paths
   before any branching or dead end, and then it answers that node's paths.
   */
  lemma CompleteCharacterization(n: Node)
    ensures Complete(n) != [] <==> exists q :: |q| > 0 && OnChain(n, q) && PathsAt(n, q) != []
    ensures forall q :: |q| > 0 && OnChain(n, q) && PathsAt(n, q) != [] ==> Complete(n) == PathsAt(n, q)
  {
    if Complete(n) != [] {
      CompleteSound(n);
    }
    forall q | |q| > 0 && OnChain(n, q) && PathsAt(n, q) != []
      ensures Complete(n) == PathsAt(n, q)
    {
      CompleteFinds(n, q);
    }
  }

  // ----- What lookup answers --------------------------------------------------

  /** The walk matches the longest prefix of the query's components that leads to a node. */
  lemma WalkMatchesLongestPrefix(n: Node, comps: seq<string>)
    ensures Has(n, comps[..WalkFrom(n, comps, []).matched])
    ensures var k := WalkFrom(n, comps, []).matched; k < |comps| ==> !Has(n, comps[..k + 1])
  {
    WalkSpec(n, comps, []);
    var k := WalkFrom(n, comps, []).matched;
    if k < |comps| {
      assert comps[..k + 1] == comps[..k] + [comps[k]];
      DescendAppend(n, comps[..k], [comps[k]]);
    }
  }

  /**
   `lookup` answers the deepest recorded paths on the longest matching prefix
   of the query's components, extended by forced completion from the end of
   that prefix if and only if the prefix is at least the threshold long.
   */
  lemma LookupSpec(t: ReverseFileTree, path: string, minMatches: Option<nat>)
    ensures var c := ReverseComponents(path);
      var k := WalkFrom(t.root, c, []).matched;
      && Has(t.root, c[..k])
      && Lookup(t, path, minMatches)
        == DeepestPaths(t.root, c[..k])
           + (if k >= Threshold(minMatches) then Complete(Descend(t.root, c[..k]).value) else [])
  {
    var c := ReverseComponents(path);
    WalkSpec(t.root, c, []);
  }

  /** Below the threshold there is no completion: the answer is the deepest recorded paths walked over. */
  lemma BelowThreshold(t: ReverseFileTree, path: string, minMatches: Option<nat>)
    requires WalkFrom(t.root, ReverseComponents(path), []).matched < Threshold(minMatches)
    ensures var c := ReverseComponents(path);
      Lookup(t, path, minMatches) == DeepestPaths(t.root, c[..WalkFrom(t.root, c, []).matched])
  {
    LookupSpec(t, path, minMatches);
  }

  /** A query with no components, or whose basename is not a child of the root, finds nothing. */
  lemma NoFirstMatch(t: ReverseFileTree, path: string, minMatches: Option<nat>)
    requires var c := ReverseComponents(path); |c| == 0 || c[0] !in t.root.children
    ensures Lookup(t, path, minMatches) == []
  {
  }

  /**
   When the query's whole component sequence leads to a node with recorded
   paths, the answer starts with exactly those paths, whatever `min_matches`.
   */
  lemma ExactMatch(t: ReverseFileTree, path: string, minMatches: Option<nat>)
    requires |ReverseComponents(path)| > 0
    requires PathsAt(t.root, ReverseComponents(path)) != []
    ensures var found := PathsAt(t.root, ReverseComponents(path));
      |found| <= |Lookup(t, path, minMatches)| && Lookup(t, path, minMatches)[..|found|] == found
  {
    var c := ReverseComponents(path);
    WalkSpec(t.root, c, []);
    var w := WalkFrom(t.root, c, []);
    WalkReachesAll(t.root, c);
    assert c[..w.matched] == c;
    var found := PathsAt(t.root, c);
    assert w.last == found;
    var tail := if w.matched >= Threshold(minMatches) then Complete(w.node) else [];
    assert Lookup(t, path, minMatches) == found + tail;
    assert (found + tail)[..|found|] == found;
  }

  /** A walk along components that all lead to nodes matches every one of them. */
  lemma WalkReachesAll(n: Node, c: seq<string>)
    requires Has(n, c)
    ensures WalkFrom(n, c, []).matched == |c|
  {
    WalkSpec(n, c, []);
    var w := WalkFrom(n, c, []);
    if w.matched < |c| {
      assert c == c[..w.matched] + c[w.matched..];
      DescendAppend(n, c[..w.matched], c[w.matched..]);
      assert false;
    }
  }

  lemma CompleteStored(n: Node, s: string)
    requires s in Complete(n)
    ensures Stored(n, s)
  {
    CompleteSound(n);
  }

  /** Everything `lookup` answers is recorded in the tree. */
  lemma LookupSound(t: ReverseFileTree, path: string, minMatches: Option<nat>, s: string)
    requires s in Lookup(t, path, minMatches)
    ensures Stored(t.root, s)
  {
    var c := ReverseComponents(path);
    var w := WalkFrom(t.root, c, []);
    WalkSpec(t.root, c, []);
    var prefix := c[..w.matched];
    if s in w.last {
      DeepestStored(t.root, prefix, s);
    } else {
      assert s in Complete(w.node);
      CompleteStored(w.node, s);
      StoredBelow(t.root, prefix, w.node, s);
    }
  }

  lemma {:induction false} DeepestStored(n: Node, q: seq<string>, s: string)
    requires s in DeepestPaths(n, q)
    ensures Stored(n, s)
    decreases |q|
  {
    if PathsAt(n, q) == [] {
      DeepestStored(n, q[..|q| - 1], s);
    }
  }

  /**
   `lookup` never reads the paths recorded at the root itself: whatever it
   answers is recorded at a node one or more components below the root.
   */
  lemma LookupSkipsRoot(t: ReverseFileTree, path: string, minMatches: Option<nat>, s: string)
    ensures s in Lookup(t, path, minMatches) ==> exists q :: |q| > 0 && s in PathsAt(t.root, q)
  {
    if s in Lookup(t, path, minMatches) {
      var c := ReverseComponents(path);
      var w := WalkFrom(t.root, c, []);
      WalkSpec(t.root, c, []);
      var prefix := c[..w.matched];
      if s in w.last {
        DeepestBelowRoot(t.root, prefix, s);
      } else {
        CompleteBelow(t.root, prefix, w.node, s);
      }
    }
  }

  lemma CompleteBelow(n: Node, p: seq<string>, m: Node, s: string)
    requires Descend(n, p) == Some(m) && s in Complete(m)
    ensures exists r :: |r| > 0 && s in PathsAt(n, r)
  {
    CompleteSound(m);
    var q :| |q| > 0 && OnChain(m, q) && Complete(m) == PathsAt(m, q);
    DescendAppend(n, p, q);
    assert |p + q| > 0 && s in PathsAt(n, p + q);
  }

  lemma {:induction false} DeepestBelowRoot(n: Node, q: seq<string>, s: string)
    requires s in DeepestPaths(n, q)
    ensures exists r :: |r| > 0 && s in PathsAt(n, r)
    decreases |q|
  {
    if PathsAt(n, q) == [] {
      DeepestBelowRoot(n, q[..|q| - 1], s);
    }
  }

  /** Every path `lookup` answers from a built tree was one of the inputs. */
  lemma LookupReturnsInserted(paths: seq<string>, path: string, minMatches: Option<nat>)
    ensures forall s :: s in Lookup(FromIter(paths), path, minMatches) ==> s in paths
  {
    forall s | s in Lookup(FromIter(paths), path, minMatches) ensures s in paths {
      LookupSound(FromIter(paths), path, minMatches, s);
      FromIterStored(paths, s);
    }
  }

  /**
   An inserted path with at least one component is found again by looking it
   up, whatever `min_matches`, and so is every other input with the same
   components: ambiguous inputs are answered together.
   */
  lemma LookupFindsInserted(paths: seq<string>, p: string, minMatches: Option<nat>)
    requires p in paths
    requires |ReverseComponents(p)| > 0
    ensures p in Lookup(FromIter(paths), p, minMatches)
    ensures forall s :: s in paths && ReverseComponents(s) == ReverseComponents(p) ==>
      s in Lookup(FromIter(paths), p, minMatches)
  {
    var t := FromIter(paths);
    var c := ReverseComponents(p);
    FromIterPaths(paths, c);
    forall s | s in paths && ReverseComponents(s) == c
      ensures s in PathsAt(t.root, c)
    {
      WithComponentsMembers(paths, c, s);
    }
    ExactMatch(t, p, minMatches);
    var found := PathsAt(t.root, c);
    var r := Lookup(t, p, minMatches);
    assert forall s :: s in found ==> s in r by {
      forall s | s in found ensures s in r {
        var i :| 0 <= i < |found| && found[i] == s;
        assert r[i] == s;
      }
    }
  }

  /** The `for` loop of `lookup`: walk while the next component is a child, with an early exit. */
  method MatchWalk(root: Node, comps: seq<string>) returns (node: Node, matching: nat, last: seq<string>)
    ensures Walk(node, matching, last) == WalkFrom(root, comps, [])
  {
    ghost var w := WalkFrom(root, comps, []);
    matching := 0;
    node := root;
    last := [];
    while matching < |comps| && comps[matching] in node.children
      invariant matching <= |comps|
      invariant WalkFrom(node, comps[matching..], last).node == w.node
      invariant WalkFrom(node, comps[matching..], last).last == w.last
      invariant WalkFrom(node, comps[matching..], last).matched + matching == w.matched
      decreases |comps| - matching
    {
      assert comps[matching..][1..] == comps[matching + 1..];
      node := node.children[comps[matching]];
      if |node.fullPaths| > 0 {
        last := node.fullPaths;
      }
      matching := matching + 1;
    }
  }

  /** The `while` loop of `lookup`: follow only-children until a node with recorded paths. */
  method ForcedCompletion(start: Node) returns (found: seq<string>)
    ensures found == Complete(start)
  {
    var node := start;
    while |node.children| == 1
      invariant Complete(node) == Complete(start)
      decreases node
    {
      var key :| key in node.children;
      SingletonUnique(node.children.Keys);
      assert key == OnlyKey(node.children.Keys);
      node := node.children[key];
      if |node.fullPaths| > 0 {
        return node.fullPaths;
      }
    }
    return [];
  }

  /** `lookup` as the source writes it: the matching walk, then forced completion above the threshold. */
  method LookupLoop(t: ReverseFileTree, path: string, minMatches: Option<nat>) returns (results: seq<string>)
    ensures results == Lookup(t, path, minMatches)
  {
    var node, matching, last := MatchWalk(t.root, ReverseComponents(path));
    results := last;
    if matching >= Threshold(minMatches) {
      var extra := ForcedCompletion(node);
      results := results + extra;
    }
  }
}
