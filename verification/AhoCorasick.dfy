/** The mathematics behind the matcher of include/my_trie.h, over paths instead of pointers.

    A trie node is named by the characters on its path from the root, so the node set of a trie
    is a prefix-closed set of strings.  `Longest` says which node the matcher has to be in after a
    text; `Delta` is what one call of the matcher does, following failure links. */
module AhoCorasick {
  import opened Words

  type Path = seq<Byte>

  /** Keys are non-empty, and short enough for the 16-bit field that records their length. */
  ghost predicate KeySet(keys: set<Path>) {
    forall k :: k in keys ==> 0 < |k| < 0x1_0000
  }

  /** The nodes of the trie of `keys`: the root and every prefix of a key. */
  function Domain(keys: set<Path>): set<Path> {
    {[]} + set k: Path, i: nat | k in keys && i <= |k| :: k[..i]
  }

  /** Which strings are nodes, said of the keys: the empty one and those that some key begins with. */
  lemma NodesArePrefixesOfKeys(keys: set<Path>, p: Path)
    ensures p in Domain(keys) <==> p == [] || exists k :: k in keys && p <= k
  {
    if k :| k in keys && p <= k {
      assert p == k[..|p|];
    }
  }

  ghost predicate PrefixClosed(d: set<Path>) {
    [] in d && forall p, i: nat {:trigger p in d, p[..i]} :: p in d && i <= |p| ==> p[..i] in d
  }

  lemma DomainIsPrefixClosed(keys: set<Path>)
    ensures PrefixClosed(Domain(keys))
  {
    var d := Domain(keys);
    forall p, i: nat | p in d && i <= |p| ensures p[..i] in d {
      if p != [] {
        var k: Path, j: nat :| k in keys && j <= |k| && p == k[..j];
        assert p[..i] == k[..i];
      }
    }
  }

  ghost predicate IsSuffix(p: Path, t: Path) {
    |p| <= |t| && t[|t| - |p|..] == p
  }

  /** The declarative meaning of the matcher's state: the longest suffix of the text fed so far
      that is a node. */
  ghost predicate IsLongestSuffix(d: set<Path>, t: Path, p: Path) {
    p in d && IsSuffix(p, t) && forall q :: q in d && IsSuffix(q, t) ==> |q| <= |p|
  }

  function Longest(d: set<Path>, t: Path): (p: Path)
    requires [] in d
    ensures p in d
  {
    if t in d then t else assert t != []; Longest(d, t[1..])
  }

  lemma SuffixTail(p: Path, t: Path)
    requires IsSuffix(p, t)
    ensures p == t || (t != [] && IsSuffix(p, t[1..]))
  {
    if |p| < |t| {
      assert t[1..][|t| - 1 - |p|..] == t[|t| - |p|..];
    } else {
      assert t[0..] == t;
    }
  }

  /** `Longest` meets its declarative meaning, and nothing else does. */
  lemma {:induction false} LongestCharacterized(d: set<Path>, t: Path, p: Path)
    requires [] in d
    ensures IsLongestSuffix(d, t, p) <==> p == Longest(d, t)
  {
    var l := Longest(d, t);
    if t in d {
      assert t[0..] == t;
    } else {
      LongestCharacterized(d, t[1..], l);
      assert t[|t| - |l|..] == t[1..][|t| - 1 - |l|..];
      forall q | q in d && IsSuffix(q, t) ensures |q| <= |l| {
        SuffixTail(q, t);
      }
    }
    assert IsLongestSuffix(d, t, l);
    if IsLongestSuffix(d, t, p) {
      assert |p| == |l|;
    }
  }

  lemma LongestIsLongest(d: set<Path>, t: Path)
    requires [] in d
    ensures IsLongestSuffix(d, t, Longest(d, t))
  {
    LongestCharacterized(d, t, Longest(d, t));
  }

  /** The failure link of a non-root node: its longest proper suffix that is a node. */
  function Fail(d: set<Path>, p: Path): (f: Path)
    requires [] in d && p != []
    ensures f in d && |f| < |p|
  {
    LongestIsLongest(d, p[1..]);
    Longest(d, p[1..])
  }

  /** Where the matcher goes from node `p` on character `c`. */
  ghost function Delta(d: set<Path>, p: Path, c: Byte): (q: Path)
    requires [] in d
    ensures q in d
    decreases |p|
  {
    if p + [c] in d then p + [c]
    else if p == [] then []
    else Delta(d, Fail(d, p), c)
  }

  /** How many failure links it follows on the way. */
  ghost function FailMoves(d: set<Path>, p: Path, c: Byte): nat
    requires [] in d
    decreases |p|
  {
    if p + [c] in d || p == [] then 0 else 1 + FailMoves(d, Fail(d, p), c)
  }

  /** How many times it looks for a child on the way: once at `p`, and once after each link. */
  ghost function GotoCalls(d: set<Path>, p: Path, c: Byte): nat
    requires [] in d
    decreases |p|
  {
    if p + [c] in d || p == [] then 1 else 1 + GotoCalls(d, Fail(d, p), c)
  }

  /** The state of the matcher after a whole text, one `Delta` at a time from the root. */
  ghost function Run(d: set<Path>, text: Path): Path
    requires [] in d
  {
    if text == [] then [] else Delta(d, Run(d, text[..|text| - 1]), text[|text| - 1])
  }

  /** Failure links followed while feeding a whole text. */
  ghost function RunMoves(d: set<Path>, text: Path): nat
    requires [] in d
  {
    if text == [] then 0
    else var front := text[..|text| - 1]; RunMoves(d, front) + FailMoves(d, Run(d, front), text[|text| - 1])
  }

  /** Lookups made while feeding a whole text. */
  ghost function RunGotoCalls(d: set<Path>, text: Path): nat
    requires [] in d
  {
    if text == [] then 0
    else var front := text[..|text| - 1]; RunGotoCalls(d, front) + GotoCalls(d, Run(d, front), text[|text| - 1])
  }

  /** One step keeps the meaning of the state, whatever was fed before. */
  lemma {:induction false} DeltaTracksLongest(d: set<Path>, t: Path, c: Byte)
    requires PrefixClosed(d)
    ensures Delta(d, Longest(d, t), c) == Longest(d, t + [c])
  {
    if t in d && t == [] {
      assert [c][1..] == [];
      assert [] + [c] == [c];
    } else {
      assert (t + [c])[1..] == t[1..] + [c];
      assert (t + [c])[..|t|] == t;
      DeltaTracksLongest(d, t[1..], c);
    }
  }

  /** After any text the matcher is at the longest suffix of the whole text that is a node. */
  lemma {:induction false} RunIsLongestNode(d: set<Path>, text: Path)
    requires PrefixClosed(d)
    ensures Run(d, text) == Longest(d, text)
    ensures IsLongestSuffix(d, text, Run(d, text))
  {
    if text != [] {
      var front := text[..|text| - 1];
      assert text == front + [text[|text| - 1]];
      RunIsLongestNode(d, front);
      DeltaTracksLongest(d, front, text[|text| - 1]);
    }
    LongestIsLongest(d, text);
  }

  /** Main result, said of the keys alone: after any text whatsoever the matcher is at a suffix of the
      whole text that is empty or a prefix of some key, and no longer suffix is a prefix of a key. */
  lemma {:induction false} RunIsLongestSuffix(keys: set<Path>, text: Path)
    ensures var p := Run(Domain(keys), text);
      && |p| <= |text| && text[|text| - |p|..] == p
      && (p == [] || exists k :: k in keys && p <= k)
      && forall q: Path, k :: k in keys && q <= k && |q| <= |text| && text[|text| - |q|..] == q ==> |q| <= |p|
  {
    var p := Run(Domain(keys), text);
    DomainIsPrefixClosed(keys);
    RunIsLongestNode(Domain(keys), text);
    NodesArePrefixesOfKeys(keys, p);
    forall q: Path, k | k in keys && q <= k && |q| <= |text| && text[|text| - |q|..] == q ensures |q| <= |p| {
      NodesArePrefixesOfKeys(keys, q);
      assert IsSuffix(q, text);
    }
  }

  /** The node after following `m` failure links, or the root if there are fewer. */
  ghost function FailTimes(d: set<Path>, p: Path, m: nat): (q: Path)
    requires [] in d
    decreases m
  {
    if m == 0 || p == [] then p else FailTimes(d, Fail(d, p), m - 1)
  }

  /** The failure links followed are as few as can be: they lead to the root or to a node with a child
      for the character, and no fewer do.  The child, or else the root, is where the step ends. */
  lemma {:induction false} FailMovesIsLeast(d: set<Path>, p: Path, c: Byte)
    requires [] in d
    ensures var m := FailMoves(d, p, c); var q := FailTimes(d, p, m);
      && (q == [] || q + [c] in d)
      && Delta(d, p, c) == (if q + [c] in d then q + [c] else [])
      && forall j: nat :: j < m ==> FailTimes(d, p, j) != [] && FailTimes(d, p, j) + [c] !in d
    decreases |p|
  {
    if p + [c] !in d && p != [] {
      var f, m := Fail(d, p), FailMoves(d, p, c);
      FailMovesIsLeast(d, f, c);
      forall j: nat | j < m ensures FailTimes(d, p, j) != [] && FailTimes(d, p, j) + [c] !in d {
        if j > 0 {
          assert FailTimes(d, p, j) == FailTimes(d, f, j - 1);
        }
      }
    }
  }

  /** Each failure move is paid for by a strictly smaller depth. */
  lemma {:induction false} MovesPaidByDepth(d: set<Path>, p: Path, c: Byte)
    requires [] in d
    ensures FailMoves(d, p, c) + |Delta(d, p, c)| <= |p| + 1
    decreases |p|
  {
    if p + [c] !in d && p != [] {
      MovesPaidByDepth(d, Fail(d, p), c);
    }
  }

  /** Amortised cost: n characters take at most n failure moves, less the depth reached. */
  lemma {:induction false} AmortisedMoves(d: set<Path>, text: Path)
    requires [] in d
    ensures RunMoves(d, text) + |Run(d, text)| <= |text|
  {
    if text != [] {
      var front := text[..|text| - 1];
      AmortisedMoves(d, front);
      MovesPaidByDepth(d, Run(d, front), text[|text| - 1]);
    }
  }

  lemma {:induction false} OneCallPerMove(d: set<Path>, p: Path, c: Byte)
    requires [] in d
    ensures GotoCalls(d, p, c) == 1 + FailMoves(d, p, c)
    decreases |p|
  {
    if p + [c] !in d && p != [] {
      OneCallPerMove(d, Fail(d, p), c);
    }
  }

  lemma {:induction false} CallsAreCharactersAndMoves(d: set<Path>, text: Path)
    requires [] in d
    ensures RunGotoCalls(d, text) == |text| + RunMoves(d, text)
  {
    if text != [] {
      var front := text[..|text| - 1];
      CallsAreCharactersAndMoves(d, front);
      OneCallPerMove(d, Run(d, front), text[|text| - 1]);
    }
  }

  /** So n characters take at most 2n lookups, although a single one can take many. */
  lemma GotoCallsAreLinear(d: set<Path>, text: Path)
    requires [] in d
    ensures RunGotoCalls(d, text) + |Run(d, text)| <= 2 * |text|
  {
    CallsAreCharactersAndMoves(d, text);
    AmortisedMoves(d, text);
  }

  /** What one more character adds to a run. */
  lemma RunStep(keys: set<Path>, text: Path, c: Byte)
    ensures var d, now := Domain(keys), text + [c];
      && Longest(d, now) == Delta(d, Longest(d, text), c)
      && RunGotoCalls(d, now) == RunGotoCalls(d, text) + GotoCalls(d, Longest(d, text), c)
  {
    var d, now := Domain(keys), text + [c];
    DomainIsPrefixClosed(keys);
    assert now[..|now| - 1] == text;
    RunIsLongestNode(d, text);
    RunIsLongestNode(d, now);
  }

  // ----- match reporting

  ghost predicate SomeKeyEnds(keys: set<Path>, text: Path) {
    exists k :: k in keys && IsSuffix(k, text)
  }

  /** What a call returns after `text`: the depth of the state if a word ends there, else 0. */
  ghost function Reported(keys: set<Path>, text: Path): nat {
    var p := Longest(Domain(keys), text);
    if p in keys then |p| else 0
  }

  lemma KeysAreNodes(keys: set<Path>, k: Path)
    requires k in keys
    ensures k in Domain(keys)
  {
    assert k == k[..|k|];
  }

  /** A non-zero report is the length of a key ending here, and of the longest one. */
  lemma ReportIsLongestKey(keys: set<Path>, text: Path)
    requires KeySet(keys) && Reported(keys, text) != 0
    ensures var n := Reported(keys, text);
      && n <= |text| && text[|text| - n..] in keys
      && forall k :: k in keys && IsSuffix(k, text) ==> |k| <= n
  {
    LongestIsLongest(Domain(keys), text);
    forall k | k in keys ensures k in Domain(keys) { KeysAreNodes(keys, k); }
  }

  /** Whatever begins a key and ends in a key is itself a key. */
  ghost predicate PrefixesEndingInKeysAreKeys(keys: set<Path>) {
    forall p, w :: w in keys && p <= w && SomeKeyEnds(keys, p) ==> p in keys
  }

  lemma NodesEndingInKeysAreKeys(keys: set<Path>, p: Path)
    requires KeySet(keys) && PrefixesEndingInKeysAreKeys(keys) && p in Domain(keys) && SomeKeyEnds(keys, p)
    ensures p in keys
  {
    NodesArePrefixesOfKeys(keys, p);
  }

  /** The matcher looks only at the node it is in, so it can miss a key.  It reports at every
      position where some key ends, for all texts, exactly when this holds of the key set. */
  lemma ReportsEveryPositionIff(keys: set<Path>)
    requires KeySet(keys)
    ensures (forall text :: (Reported(keys, text) != 0) == SomeKeyEnds(keys, text))
            <==> PrefixesEndingInKeysAreKeys(keys)
  {
    var d := Domain(keys);
    if PrefixesEndingInKeysAreKeys(keys) {
      forall text ensures (Reported(keys, text) != 0) == SomeKeyEnds(keys, text) {
        ReportAgreesAt(keys, text);
      }
    }
    if forall text :: (Reported(keys, text) != 0) == SomeKeyEnds(keys, text) {
      forall p, w | w in keys && p <= w && SomeKeyEnds(keys, p) ensures p in keys {
        NodesArePrefixesOfKeys(keys, p);
        assert Longest(d, p) == p;
        assert Reported(keys, p) != 0;
      }
    }
  }

  lemma ReportAgreesAt(keys: set<Path>, text: Path)
    requires KeySet(keys) && PrefixesEndingInKeysAreKeys(keys)
    ensures (Reported(keys, text) != 0) == SomeKeyEnds(keys, text)
  {
    var p := Longest(Domain(keys), text);
    LongestIsLongest(Domain(keys), text);
    if k :| k in keys && IsSuffix(k, text) {
      KeysAreNodes(keys, k);
      SuffixOfSuffix(k, p, text);
      assert SomeKeyEnds(keys, p);
      NodesEndingInKeysAreKeys(keys, p);
    }
  }

  lemma SuffixOfSuffix(k: Path, p: Path, t: Path)
    requires IsSuffix(k, t) && IsSuffix(p, t) && |k| <= |p|
    ensures IsSuffix(k, p)
  {
    assert t[|t| - |p|..][|p| - |k|..] == t[|t| - |k|..];
  }

  ghost predicate OccursAt(k: Path, w: Path, i: nat) {
    i + |k| <= |w| && w[i..i + |k|] == k
  }

  /** No key occurs inside another key away from its start. */
  ghost predicate NoInnerKeys(keys: set<Path>) {
    forall k, w, i: nat :: k in keys && w in keys && OccursAt(k, w, i) ==> i == 0
  }

  /** A condition a caller can check on the keys alone under which no match is missed. */
  lemma NoInnerKeysSuffices(keys: set<Path>, text: Path)
    requires KeySet(keys) && NoInnerKeys(keys)
    ensures (Reported(keys, text) != 0) == SomeKeyEnds(keys, text)
  {
    forall p, w | w in keys && p <= w && SomeKeyEnds(keys, p) ensures p in keys {
      var k :| k in keys && IsSuffix(k, p);
      var i := |p| - |k|;
      assert w[i..i + |k|] == p[i..] == k;
      assert OccursAt(k, w, i);
      assert p == k;
    }
    ReportAgreesAt(keys, text);
  }

  /** The header's promise ("returns length of matched word") fails for the keys "abcd" and "bc":
      after "abc" the word "bc" has matched, and 0 is returned. */
  lemma MissedMatch(a: Byte, b: Byte, c: Byte, d: Byte)
    requires a != b && b != c && a != c
    ensures var keys := {[a, b, c, d], [b, c]};
      SomeKeyEnds(keys, [a, b, c]) && Reported(keys, [a, b, c]) == 0
  {
    var keys := {[a, b, c, d], [b, c]};
    assert [a, b, c] <= [a, b, c, d];
    NodesArePrefixesOfKeys(keys, [a, b, c]);
    assert [a, b, c][1..] == [b, c];
    assert IsSuffix([b, c], [a, b, c]);
  }
}
