/** The linked structures of include/my_trie.h and the three operations it defines on them. */
module Trie {
  import opened Words
  import opened AhoCorasick

  class TrieNode {
    var leaf: Uint16       // depth from the root if a word ends here, 0 otherwise
    var c: Byte            // label on the edge into this node
    var next: TrieNode?    // next sibling
    var links: TrieNode?   // first child
    var fail: TrieNode?    // failure link
  }

  /** A prepared trie.  `node` names every node by its path, and `labels` gives, for every path,
      the labels of its children in the order of the sibling list.  Only the root is ever compared
      by address, so only the root has to differ from all other nodes. */
  class Trie {
    const root: TrieNode
    ghost const keys: set<Path>
    ghost var node: map<Path, TrieNode>
    ghost var labels: map<Path, seq<Byte>>

    ghost predicate Valid()
      reads this, node.Values
    {
      && KeySet(keys)
      && node.Keys == Domain(keys) == labels.Keys
      && [] in node && node[[]] == root
      && (forall p :: p in node && node[p] == root ==> p == [])
      && (forall p {:trigger ChildrenOk(p)} :: p in node ==> ChildrenOk(p))
      && (forall p {:trigger LeafOk(p)} :: p in node ==> LeafOk(p))
      && (forall p {:trigger FailOk(p)} :: p in node && p != [] ==> FailOk(p))
    }

    /** The children of `p` hang off `links` as a list with one node for each one-character
        extension of `p`, labelled with that character. */
    ghost predicate ChildrenOk(p: Path)
      requires p in node && p in labels
      reads this, node.Values
    {
      var ls := labels[p];
      && (forall i, j :: 0 <= i < j < |ls| ==> ls[i] != ls[j])
      && (forall c: Byte :: c in ls <==> p + [c] in node)
      && node[p].links == Sibling(p, 0)
      && (forall i :: 0 <= i < |ls| ==> Sibling(p, i) != null && Sibling(p, i).c == ls[i]
                                        && Sibling(p, i).next == Sibling(p, i + 1))
    }

    /** The `i`-th child of `p`, or null past the last one. */
    ghost function Sibling(p: Path, i: nat): (s: TrieNode?)
      requires p in labels
      reads this
    {
      SiblingIn(node, labels, p, i)
    }

    ghost predicate LeafOk(p: Path)
      requires p in node
      reads this, node.Values
    {
      node[p].leaf == if p in keys then |p| else 0
    }

    /** The node a matcher has to be at after `text`. */
    ghost function NodeAfter(text: Path): (n: TrieNode)
      requires [] in node
      reads this
    {
      node[Longest(node.Keys, text)]
    }

    ghost predicate FailOk(p: Path)
      requires p in node && p != []
      reads this, node.Values
    {
      [] in node && node[p].fail == NodeAfter(p[1..])
    }

    /** Every set of keys of admissible length has a prepared trie, so `Valid` excludes none.
        This stands in for the insertion and preparation routines, which the header only declares. */
    constructor ForKeys(keys: set<Path>)
      requires KeySet(keys)
      ensures Valid() && this.keys == keys
      ensures forall p :: p in node ==> fresh(node[p])
      ensures forall p :: p in node <==> p == [] || exists k :: k in keys && p <= k
    {
      var d := Domain(keys);
      var m := AllocateNodes(d);
      var ls := map p | p in d :: LabelsBelow(d, p, 256);
      WireTrie(keys, m, ls);
      this.keys := keys;
      this.root := m[[]];
      this.node := m;
      this.labels := ls;
      new;
      WiredIsValid(d);
      forall p ensures p in node <==> p == [] || exists k :: k in keys && p <= k {
        NodesArePrefixesOfKeys(keys, p);
      }
    }

    lemma WiredIsValid(d: set<Path>)
      requires KeySet(keys) && d == Domain(keys) == node.Keys == labels.Keys && root == node[[]]
      requires forall p, q :: p in node && q in node && node[p] == node[q] ==> p == q
      requires forall p {:trigger labels[p]} :: p in d ==> labels[p] == LabelsBelow(d, p, 256)
      requires forall p {:trigger node[p].leaf} :: p in d ==> node[p].leaf == if p in keys then |p| else 0
      requires forall p {:trigger node[p].links} :: p in d ==> node[p].links == SiblingIn(node, labels, p, 0)
      requires forall p {:trigger node[p].c} :: p in d && p != [] ==> node[p].c == p[|p| - 1]
      requires forall p {:trigger node[p].next} :: p in d ==> node[p].next == NextSibling(node, labels, p)
      requires forall p {:trigger node[p].fail} :: p in d && p != [] ==> node[p].fail == node[Fail(d, p)]
      ensures Valid()
    {
      DomainIsPrefixClosed(keys);
      forall p | p in d ensures ChildrenOk(p) {
        WiredChildren(d, p);
      }
      forall p | p in d ensures LeafOk(p) {
        assert node[p].leaf == if p in keys then |p| else 0;
      }
      forall p | p in d && p != [] ensures FailOk(p) {
        assert node[p].fail == node[Fail(d, p)];
      }
    }

    lemma WiredChildren(d: set<Path>, p: Path)
      requires PrefixClosed(d) && node.Keys == d == labels.Keys && p in d
      requires labels[p] == LabelsBelow(d, p, 256)
      requires node[p].links == Sibling(p, 0)
      requires forall q {:trigger node[q].c} :: q in d && q != [] ==> node[q].c == q[|q| - 1]
      requires forall q {:trigger node[q].next} :: q in d ==> node[q].next == NextSibling(node, labels, q)
      ensures ChildrenOk(p)
    {
      LabelsBelowAreChildren(d, p, 256);
      forall i | 0 <= i < |labels[p]|
        ensures Sibling(p, i) != null && Sibling(p, i).c == labels[p][i]
        ensures Sibling(p, i).next == Sibling(p, i + 1)
      {
        var q := p + [labels[p][i]];
        assert q in d && q[..|p|] == p;
        assert IndexIn(labels[p], q[|p|]) == i;
      }
    }
  }

  method WireTrie(keys: set<Path>, m: map<Path, TrieNode>, ls: map<Path, seq<Byte>>)
    requires KeySet(keys) && [] in m && m.Keys == ls.Keys
    requires forall p, q :: p in m && q in m && m[p] == m[q] ==> p == q
    modifies m.Values
    ensures forall p {:trigger m[p].leaf} :: p in m ==> m[p].leaf == if p in keys then |p| else 0
    ensures forall p {:trigger m[p].links} :: p in m ==> m[p].links == SiblingIn(m, ls, p, 0)
    ensures forall p {:trigger m[p].c} :: p in m && p != [] ==> m[p].c == p[|p| - 1]
    ensures forall p {:trigger m[p].next} :: p in m ==> m[p].next == NextSibling(m, ls, p)
    ensures forall p {:trigger m[p].fail} :: p in m && p != [] ==> m[p].fail == m[Fail(m.Keys, p)]
  {
    var leaf: map<Path, Uint16> := map p | p in m :: if p in keys then KeyLength(keys, p) else 0;
    var edge: map<Path, Byte> := map p | p in m :: if p == [] then 0 else p[|p| - 1];
    var next := map p | p in m :: NextSibling(m, ls, p);
    var links := map p | p in m :: SiblingIn(m, ls, p, 0);
    var fail := map p | p in m :: if p == [] then null else m[Fail(m.Keys, p)];
    WireNodes(m, leaf, edge, next, links, fail);
  }

  /** Give every node of `m` the five fields prescribed for its path. */
  method WireNodes(m: map<Path, TrieNode>, leaf: map<Path, Uint16>, edge: map<Path, Byte>,
                   next: map<Path, TrieNode?>, links: map<Path, TrieNode?>, fail: map<Path, TrieNode?>)
    requires m.Keys == leaf.Keys == edge.Keys == next.Keys == links.Keys == fail.Keys
    requires forall p, q :: p in m && q in m && m[p] == m[q] ==> p == q
    modifies m.Values
    ensures forall p {:trigger m[p].leaf} :: p in m ==> m[p].leaf == leaf[p]
    ensures forall p {:trigger m[p].c} :: p in m ==> m[p].c == edge[p]
    ensures forall p {:trigger m[p].next} :: p in m ==> m[p].next == next[p]
    ensures forall p {:trigger m[p].links} :: p in m ==> m[p].links == links[p]
    ensures forall p {:trigger m[p].fail} :: p in m ==> m[p].fail == fail[p]
  {
    forall p | p in m {
      m[p].leaf := leaf[p];
    }
    forall p | p in m {
      m[p].c := edge[p];
    }
    forall p | p in m {
      m[p].next := next[p];
    }
    forall p | p in m {
      m[p].links := links[p];
    }
    forall p | p in m {
      m[p].fail := fail[p];
    }
  }

  function KeyLength(keys: set<Path>, p: Path): Uint16
    requires KeySet(keys) && p in keys
  {
    |p|
  }

  /** The `i`-th child of `p` in a node map with sibling orders `ls`, or null past the last one. */
  function SiblingIn(m: map<Path, TrieNode>, ls: map<Path, seq<Byte>>, p: Path, i: nat): (s: TrieNode?)
    requires p in ls
    ensures s == null || s in m.Values
  {
    if i < |ls[p]| && p + [ls[p][i]] in m then m[p + [ls[p][i]]] else null
  }

  /** The sibling that follows node `p` in the list it belongs to. */
  function NextSibling(m: map<Path, TrieNode>, ls: map<Path, seq<Byte>>, p: Path): (s: TrieNode?) {
    if p == [] || p[..|p| - 1] !in ls then null
    else
      var parent := p[..|p| - 1];
      SiblingIn(m, ls, parent, IndexIn(ls[parent], p[|p| - 1]) + 1)
  }

  function IndexIn(s: seq<Byte>, c: Byte): (i: nat)
    ensures i <= |s| && (c in s ==> i < |s| && s[i] == c)
  {
    if s == [] || s[0] == c then 0 else 1 + IndexIn(s[1..], c)
  }

  /** The labels below `n` that extend `p`, in ascending order. */
  function LabelsBelow(d: set<Path>, p: Path, n: nat): seq<Byte>
    requires n <= 256
  {
    if n == 0 then [] else LabelsBelow(d, p, n - 1) + if p + [n - 1] in d then [n - 1] else []
  }

  lemma LabelsBelowAreChildren(d: set<Path>, p: Path, n: nat)
    requires n <= 256
    ensures var ls := LabelsBelow(d, p, n);
      && (forall i, j :: 0 <= i < j < |ls| ==> ls[i] != ls[j])
      && (forall c: Byte :: c in ls <==> c < n && p + [c] in d)
  {
  }

  method AllocateNodes(d: set<Path>) returns (m: map<Path, TrieNode>)
    ensures m.Keys == d && (forall p :: p in m ==> fresh(m[p]))
    ensures forall p, q :: p in m && q in m && m[p] == m[q] ==> p == q
  {
    m := map[];
    var rest := d;
    while rest != {}
      invariant m.Keys == d - rest && rest <= d && forall p :: p in m ==> fresh(m[p])
      invariant forall p, q :: p in m && q in m && m[p] == m[q] ==> p == q
    {
      var p :| p in rest;
      var n := new TrieNode;
      m := m[p := n];
      rest := rest - {p};
    }
  }

  /** `trie_goto`: the child of `node` labelled `c`; without one, the root stays where it is and
      any other node answers NULL.  The ghost parameters count the calls. */
  method TrieGoto(ghost trie: Trie, ghost p: Path, root: TrieNode, node: TrieNode, c: Byte, ghost before: nat)
    returns (r: TrieNode?, ghost calls: nat)
    requires trie.Valid() && root == trie.root && p in trie.node && node == trie.node[p]
    ensures p + [c] in trie.node ==> r == trie.node[p + [c]]
    ensures p + [c] !in trie.node ==> r == if p == [] then root else null
    ensures calls == before + 1
  {
    calls := before + 1;
    assert trie.ChildrenOk(p);
    var next := node.links;
    ghost var i := 0;
    while next != null
      invariant i <= |trie.labels[p]| && next == trie.Sibling(p, i)
      invariant c !in trie.labels[p][..i]
      decreases |trie.labels[p]| - i
    {
      if next.c == c {
        return next, calls;
      }
      next := next.next;
      i := i + 1;
    }
    if root == node {
      return root, calls;
    }
    return null, calls;
  }

  /** `trie_search`: is `key` in the trie?  `reached` is the node the walk stops at when it
      gets through the whole key. */
  method TrieSearch(trie: Trie, key: Path) returns (found: bool, ghost reached: TrieNode?)
    requires trie.Valid()
    ensures found <==> key in trie.keys
    ensures found ==> key in trie.node && reached == trie.node[key]
  {
    DomainIsPrefixClosed(trie.keys);
    var node := trie.root;
    var k := 0;
    while k < |key|
      invariant 0 <= k <= |key| && key[..k] in trie.node && node == trie.node[key[..k]]
    {
      ghost var p := key[..k];
      ghost var i := 0;
      assert trie.ChildrenOk(p);
      if node.links == null {
        if key in trie.keys { KeyContinues(trie, key, k); }
        return false, null;
      }
      node := node.links;
      var c := key[k];
      while c != node.c
        invariant i < |trie.labels[p]| && node == trie.Sibling(p, i)
        invariant c !in trie.labels[p][..i]
        decreases |trie.labels[p]| - i
      {
        assert trie.Sibling(p, i).next == trie.Sibling(p, i + 1);
        if node.next == null {
          if key in trie.keys { KeyContinues(trie, key, k); }
          return false, null;
        }
        node := node.next;
        i := i + 1;
      }
      assert key[..k + 1] == p + [c];
      k := k + 1;
    }
    assert key[..k] == key;
    assert trie.LeafOk(key);
    found := node.leaf > 0;
    reached := node;
  }

  lemma KeyContinues(trie: Trie, key: Path, k: nat)
    requires trie.Valid() && k < |key| && key in trie.keys
    ensures key[..k] in trie.node && key[k] in trie.labels[key[..k]]
  {
    KeysAreNodes(trie.keys, key);
    DomainIsPrefixClosed(trie.keys);
    assert key[..k] + [key[k]] == key[..k + 1];
    assert trie.ChildrenOk(key[..k]);
  }

  /** A matcher over a prepared trie.  The ghost fields record what it was fed, the path of the node it
      is in, and how many calls of `TrieGoto` it has made since it was created. */
  class AcTrieState {
    const trie: Trie
    var node: TrieNode?
    ghost var text: Path
    ghost var path: Path
    ghost var calls: nat

    /** What holds between calls, for every text: the state is the node of the longest suffix of
        the text that is a node, and there were at most two `TrieGoto` calls per character. */
    ghost predicate Valid()
      reads this, trie, trie.node.Values
    {
      && trie.Valid()
      && path == Longest(trie.node.Keys, text) && node == trie.node[path]
      && calls == RunGotoCalls(trie.node.Keys, text)
      && calls <= 2 * |text|
    }

    constructor (trie: Trie)
      requires trie.Valid()
      ensures Valid() && text == [] == path && calls == 0 && this.trie == trie && node == trie.root
    {
      this.trie := trie;
      this.node := trie.root;
      this.text := [];
      this.path := [];
      this.calls := 0;
    }

    /** `ac_trie_next`.  Whatever was fed before, the matcher is then at the node that spells the longest
        suffix of the whole text that is a prefix of some key, or at the root if there is none, and it
        returns the depth of that node if it is a key. */
    method Next(c: Byte) returns (matched: nat, ghost gotoCalls: nat)
      requires Valid()
      modifies this
      ensures Valid() && text == old(text) + [c] && calls == old(calls) + gotoCalls
      ensures path in trie.node && node == trie.node[path]
      ensures |path| <= |text| && text[|text| - |path|..] == path
      ensures path == [] || exists k :: k in trie.keys && path <= k
      ensures forall q: Path, k :: k in trie.keys && q <= k && |q| <= |text| && text[|text| - |q|..] == q
                                   ==> |q| <= |path|
      ensures matched == (if path in trie.keys then |path| else 0) == Reported(trie.keys, text)
    {
      matched, gotoCalls := Advance(c);
      RunStep(trie.keys, text, c);
      Record(c, gotoCalls);
      StandsAtLongestSuffix();
    }

    /** What the state means for the keys. */
    lemma StandsAtLongestSuffix()
      requires Valid()
      ensures |path| <= |text| && text[|text| - |path|..] == path
      ensures path == [] || exists k :: k in trie.keys && path <= k
      ensures forall q: Path, k :: k in trie.keys && q <= k && |q| <= |text| && text[|text| - |q|..] == q
                                   ==> |q| <= |path|
    {
      DomainIsPrefixClosed(trie.keys);
      RunIsLongestNode(trie.node.Keys, text);
      RunIsLongestSuffix(trie.keys, text);
    }

    /** The body of `ac_trie_next`: follow failure links until some node has a child for `c`. */
    method Advance(c: Byte) returns (matched: nat, ghost gotoCalls: nat)
      requires trie.Valid() && node == trie.NodeAfter(text)
      modifies `node
      ensures trie.Valid() && node == trie.NodeAfter(text + [c])
      ensures matched == Reported(trie.keys, text + [c])
      ensures gotoCalls == GotoCalls(trie.node.Keys, Longest(trie.node.Keys, text), c)
    {
      ghost var d := trie.node.Keys;
      ghost var before := Longest(d, text);
      ghost var p := before;
      var root := trie.root;
      var n := node;
      node, gotoCalls := TrieGoto(trie, p, root, n, c, 0);
      while node == null
        invariant trie.Valid()
        invariant p in d && n == trie.node[p]
        invariant p + [c] in d ==> node == trie.node[p + [c]]
        invariant p + [c] !in d ==> node == if p == [] then root else null
        invariant Delta(d, p, c) == Delta(d, before, c)
        invariant gotoCalls - 1 + GotoCalls(d, p, c) == GotoCalls(d, before, c)
        decreases |p|
      {
        assert trie.FailOk(p);
        n := n.fail;
        p := Fail(d, p);
        node, gotoCalls := TrieGoto(trie, p, root, n, c, gotoCalls);
        Untouched(trie);
      }
      assert Longest(d, text + [c]) == Delta(d, before, c) by {
        RunStep(trie.keys, text, c);
      }
      assert trie.LeafOk(Delta(d, before, c));
      matched := node.leaf;
    }

    /** Enter one more character, and what it cost, in the books. */
    ghost method Record(c: Byte, gotoCalls: nat)
      requires trie.Valid() && node == trie.NodeAfter(text + [c])
      requires calls + gotoCalls == RunGotoCalls(trie.node.Keys, text + [c])
      modifies `text, `path, `calls
      ensures Valid() && text == old(text) + [c] && calls == old(calls) + gotoCalls
    {
      GotoCallsAreLinear(trie.node.Keys, text + [c]);
      text, calls := text + [c], calls + gotoCalls;
      path := Longest(trie.node.Keys, text);
      Untouched(trie);
    }
  }

  /** A matcher writes to itself only. */
  twostate lemma Untouched(trie: Trie)
    requires old(trie.Valid()) && unchanged(trie) && unchanged(trie.node.Values)
    ensures trie.Valid()
  {
  }

  /** Feeding a key to a fresh matcher ends at the node a search for it reaches, and the last call
      reports the whole length of the key. */
  lemma FedKeyMatchesSearch(state: AcTrieState)
    requires state.Valid() && state.text in state.trie.keys
    ensures state.text in state.trie.node && state.node == state.trie.node[state.text]
    ensures Reported(state.trie.keys, state.text) == |state.text|
  {
    DomainIsPrefixClosed(state.trie.keys);
    KeysAreNodes(state.trie.keys, state.text);
    RunIsLongestNode(state.trie.node.Keys, state.text);
  }
}
