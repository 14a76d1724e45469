/** Label tries: domains filed by their labels from the top level inward, each node
    holding the smallest route index filed there. */
module Trie {
  import opened Wrappers
  import opened Text

  datatype Node = Node(best: Option<nat>, children: map<Bytes, Node>)

  const EMPTY: Node := Node(None, map[])

  /** The labels of a domain, top level first. */
  function Path(d: Bytes): (r: seq<Bytes>)
    ensures r != []
  {
    Reverse(Split(d, DOT))
  }

  /** What is filed under exactly this path. */
  function Get(t: Node, path: seq<Bytes>): Option<nat> {
    if path == [] then t.best
    else if path[0] in t.children then Get(t.children[path[0]], path[1..])
    else None
  }

  function Lesser(a: Option<nat>, i: nat): nat {
    if a.Some? && a.value < i then a.value else i
  }

  function Insert(t: Node, path: seq<Bytes>, i: nat): Node
    decreases |path|
  {
    if path == [] then t.(best := Some(Lesser(t.best, i)))
    else
      var child := if path[0] in t.children then t.children[path[0]] else EMPTY;
      t.(children := t.children[path[0] := Insert(child, path[1..], i)])
  }

  /** Filing changes the one path, to the smaller index. */
  lemma {:induction false} GetInsert(t: Node, path: seq<Bytes>, i: nat, q: seq<Bytes>)
    ensures Get(Insert(t, path, i), q) == if q == path then Some(Lesser(Get(t, path), i)) else Get(t, q)
    decreases |path|
  {
    if path != [] && q != [] && q[0] == path[0] {
      var child := if path[0] in t.children then t.children[path[0]] else EMPTY;
      GetInsert(child, path[1..], i, q[1..]);
      EmptyGet(path[1..]);
      EmptyGet(q[1..]);
      assert path == [path[0]] + path[1..] && q == [q[0]] + q[1..];
    }
  }

  lemma {:induction false} EmptyGet(path: seq<Bytes>)
    ensures Get(EMPTY, path) == None
  {
  }

  /** All paths with something filed. */
  function Paths(t: Node): set<seq<Bytes>> {
    (if t.best.Some? then {[]} else {}) +
    set k, p | k in t.children && p in Paths(t.children[k]) :: [k] + p
  }

  lemma {:induction false} PathsAreFiled(t: Node, path: seq<Bytes>)
    ensures path in Paths(t) <==> Get(t, path).Some?
    decreases |path|
  {
    if path != [] {
      var k, rest := path[0], path[1..];
      assert path == [k] + rest;
      if k in t.children {
        PathsAreFiled(t.children[k], rest);
        if rest in Paths(t.children[k]) { assert [k] + rest in Paths(t); }
      }
      if path in Paths(t) {
        var k', p :| k' in t.children && p in Paths(t.children[k']) && [k'] + p == path;
        assert p == rest && k' == k;
      }
    }
  }

  // ----- walking

  /** Least over the non-empty prefixes of the path, up to length `n`. */
  ghost predicate LeastTo(t: Node, path: seq<Bytes>, n: nat, r: Option<nat>)
    requires n <= |path|
  {
    && (r.Some? ==> exists i :: 0 < i <= n && Get(t, path[..i]) == r)
    && forall i :: 0 < i <= n && Get(t, path[..i]).Some? ==> r.Some? && r.value <= Get(t, path[..i]).value
  }

  lemma {:induction false} GetConcat(t: Node, p: seq<Bytes>, q: seq<Bytes>, node: Node)
    requires Reaches(t, p, node)
    ensures Get(t, p + q) == Get(node, q)
    decreases |p|
  {
    if p == [] {
      assert p + q == q;
    } else {
      GetConcat(t.children[p[0]], p[1..], q, node);
      assert (p + q)[1..] == p[1..] + q;
    }
  }

  /** Following the labels leads to the node. */
  predicate Reaches(t: Node, path: seq<Bytes>, node: Node) {
    if path == [] then t == node
    else path[0] in t.children && Reaches(t.children[path[0]], path[1..], node)
  }

  lemma {:induction false} ReachesSnoc(t: Node, path: seq<Bytes>, node: Node, k: Bytes)
    requires Reaches(t, path, node) && k in node.children
    ensures Reaches(t, path + [k], node.children[k])
    decreases |path|
  {
    if path != [] {
      ReachesSnoc(t.children[path[0]], path[1..], node, k);
      assert (path + [k])[1..] == path[1..] + [k];
    }
  }

  lemma NothingBeyond(t: Node, path: seq<Bytes>, n: nat, node: Node, i: nat)
    requires n < i <= |path| && Reaches(t, path[..n], node) && path[n] !in node.children
    ensures Get(t, path[..i]).None?
  {
    assert path[..i] == path[..n] + path[n..i];
    GetConcat(t, path[..n], path[n..i], node);
  }

  lemma NextNode(t: Node, path: seq<Bytes>, n: nat, node: Node)
    requires n < |path| && Reaches(t, path[..n], node) && path[n] in node.children
    ensures Reaches(t, path[..n + 1], node.children[path[n]]) && Get(t, path[..n + 1]) == node.children[path[n]].best
  {
    assert path[..n + 1] == path[..n] + [path[n]];
    ReachesSnoc(t, path[..n], node, path[n]);
    GetConcat(t, path[..n + 1], [], node.children[path[n]]);
    assert path[..n + 1] + [] == path[..n + 1];
  }

  /** `IndexedSuffix::best` */
  method Best(t: Node, domain: Bytes) returns (r: Option<nat>)
    ensures domain == [] ==> r == None
    ensures domain != [] ==> LeastTo(t, Path(domain), |Path(domain)|, r)
  {
    r := None;
    if domain == [] { return; }
    var path, node := Path(domain), t;
    for n := 0 to |path|
      invariant Reaches(t, path[..n], node) && LeastTo(t, path, n, r)
    {
      if path[n] !in node.children {
        forall i | n < i <= |path| ensures Get(t, path[..i]).None? { NothingBeyond(t, path, n, node, i); }
        return;
      }
      NextNode(t, path, n, node);
      node := node.children[path[n]];
      if node.best.Some? { r := Some(Lesser(r, node.best.value)); }
    }
  }

  // ----- domains

  lemma ReversedPrefix<T>(a: seq<T>, b: seq<T>)
    requires Reverse(b) <= Reverse(a)
    ensures |b| <= |a| && a == a[..|a| - |b|] + b
  {
    forall j | 0 <= j < |b| ensures a[|a| - |b| + j] == b[j] {
      assert Reverse(a)[|b| - 1 - j] == Reverse(b)[|b| - 1 - j];
    }
  }

  lemma UnderHasPrefix(name: Bytes, d: Bytes)
    requires UnderDomain(name, d)
    ensures Path(d) <= Path(name)
  {
    if name != d {
      var p := name[..|name| - |d| - 1];
      assert name == p + [DOT] + d;
      SplitConcat(p, d, DOT);
      assert Reverse(Split(p, DOT) + Split(d, DOT)) == Path(d) + Path(p);
    }
  }

  lemma PrefixIsUnder(name: Bytes, d: Bytes)
    requires Path(d) <= Path(name)
    ensures UnderDomain(name, d)
  {
    var a, b := Split(name, DOT), Split(d, DOT);
    JoinSplit(name, DOT);
    JoinSplit(d, DOT);
    ReversedPrefix(a, b);
    var front := a[..|a| - |b|];
    if front != [] {
      JoinConcat(front, b, DOT);
      assert name == Join(front, DOT) + [DOT] + d;
      assert name[|name| - |d| - 1..] == [DOT] + d;
    }
  }

  /** Subdomains are the paths that continue a path. */
  lemma UnderIsPrefix(name: Bytes, d: Bytes)
    ensures UnderDomain(name, d) <==> Path(d) <= Path(name)
  {
    if UnderDomain(name, d) { UnderHasPrefix(name, d); }
    if Path(d) <= Path(name) { PrefixIsUnder(name, d); }
  }

  /** A path names the domain it was made from. */
  lemma PathNames(d: Bytes)
    ensures Join(Reverse(Path(d)), DOT) == d
  {
    assert Reverse(Path(d)) == Split(d, DOT);
    JoinSplit(d, DOT);
  }
}
