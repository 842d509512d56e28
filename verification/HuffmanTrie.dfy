/**
 The bit trie of src/http2.cpp, kept as a flat vector of nodes, and its agreement with the lookup decoder.
 */
module HuffmanTrie {
  import opened Common
  import opened Bits
  import opened Huffman
  import opened HuffmanCorrect
  import opened HuffmanRuns

  /** `symbol` is -1 in inner nodes; a child index of 0 means there is no child. */
  datatype Node = Node(symbol: int, zero: nat, one: nat) {
    function Child(b: bool): nat {
      if b then one else zero
    }

    function WithChild(b: bool, k: nat): Node {
      if b then this.(one := k) else this.(zero := k)
    }
  }

  predicate LinkOk(nodes: seq<Node>, paths: seq<seq<bool>>, i: nat, b: bool)
    requires |nodes| == |paths| && i < |nodes|
  {
    var c := nodes[i].Child(b);
    c != 0 ==> c < |nodes| && paths[c] == paths[i] + [b]
  }

  predicate ParentOk(nodes: seq<Node>, paths: seq<seq<bool>>, parent: seq<nat>, j: nat)
    requires |nodes| == |paths| == |parent| && j < |nodes|
  {
    && paths[j] != [] && parent[j] < j
    && paths[j] == paths[parent[j]] + [Last(paths[j])]
    && nodes[parent[j]].Child(Last(paths[j])) == j
  }

  /** Node `i` is reached along `paths[i]`, and the node above it is `parent[i]`. */
  ghost predicate Tree(nodes: seq<Node>, paths: seq<seq<bool>>, parent: seq<nat>) {
    && 1 <= |nodes| == |paths| == |parent| && paths[0] == []
    && (forall i, b | 0 <= i < |nodes| :: LinkOk(nodes, paths, i, b))
    && (forall j | 0 < j < |nodes| :: ParentOk(nodes, paths, parent, j))
  }

  function Last(p: seq<bool>): bool {
    p != [] && p[|p| - 1]
  }

  /** A path leads to at most one node. */
  lemma {:induction false} PathsDistinct(nodes: seq<Node>, paths: seq<seq<bool>>, parent: seq<nat>, i: nat, j: nat)
    requires Tree(nodes, paths, parent) && i < |nodes| && j < |nodes| && paths[i] == paths[j]
    ensures i == j
  {
    if i != 0 {
      assert ParentOk(nodes, paths, parent, i);
    }
    if j != 0 {
      assert ParentOk(nodes, paths, parent, j);
    }
    if i != 0 && j != 0 {
      assert paths[parent[i]] == paths[i][..|paths[i]| - 1] == paths[parent[j]];
      PathsDistinct(nodes, paths, parent, parent[i], parent[j]);
    }
  }

  /** A later symbol below n has the same code, and so takes its place. */
  ghost predicate Repeated(t: Table, s: nat, n: nat)
    requires WellFormed(t) && s < n <= 257
  {
    exists later :: s < later < n && CodeBits(t[later]) == CodeBits(t[s])
  }

  /** Nodes carry only symbols that end there, and every symbol whose code is not repeated sits where its code ends. */
  ghost predicate Labelled(nodes: seq<Node>, paths: seq<seq<bool>>, t: Table, n: nat, at: seq<nat>)
    requires WellFormed(t) && n <= 257
  {
    && |nodes| == |paths| && |at| == n
    && (forall i | 0 <= i < |nodes| && nodes[i].symbol != -1 ::
          0 <= nodes[i].symbol < n && paths[i] == CodeBits(t[nodes[i].symbol]))
    && (forall s | 0 <= s < n :: at[s] < |nodes| && paths[at[s]] == CodeBits(t[s]))
    && (forall s | 0 <= s < n && !Repeated(t, s, n) :: nodes[at[s]].symbol == s)
  }

  ghost predicate TrieFor(nodes: seq<Node>, t: Table)
    requires WellFormed(t)
  {
    exists paths, parent, at :: Tree(nodes, paths, parent) && Labelled(nodes, paths, t, 257, at)
  }

  /** Bit `k` of a code, as the builder extracts it. */
  lemma {:induction false} CodeBitAt(code: nat, bits: nat, k: nat)
    requires k < bits
    ensures ToBits(code, bits)[k] == (code / Pow2(bits - 1 - k) % 2 == 1)
  {
    if k < bits - 1 {
      CodeBitAt(code / 2, bits - 1, k);
      HalfThenShift(code, bits - 2 - k);
    }
  }

  lemma HalfThenShift(v: nat, m: nat)
    ensures v / 2 / Pow2(m) == v / (2 * Pow2(m))
  {
    var w := Pow2(m);
    var h, l := v / 2 / w, v / 2 % w;
    assert v == 2 * (w * h + l) + v % 2;
    DivMod(h, 2 * w, 2 * l + v % 2);
    assert h * (2 * w) == 2 * (w * h);
  }

  /** One missing link added: a fresh node below `cur`. */
  lemma GrowTree(nodes: seq<Node>, paths: seq<seq<bool>>, parent: seq<nat>, cur: nat, b: bool)
    requires Tree(nodes, paths, parent) && cur < |nodes| && nodes[cur].Child(b) == 0
    ensures Tree(nodes[cur := nodes[cur].WithChild(b, |nodes|)] + [Node(-1, 0, 0)],
                 paths + [paths[cur] + [b]], parent + [cur])
  {
    var n := |nodes|;
    var nodes' := nodes[cur := nodes[cur].WithChild(b, n)] + [Node(-1, 0, 0)];
    var paths', parent' := paths + [paths[cur] + [b]], parent + [cur];
    forall i, c | 0 <= i < n + 1
      ensures LinkOk(nodes', paths', i, c)
    {
      if i < n {
        assert LinkOk(nodes, paths, i, c);
      }
    }
    forall j | 0 < j < n + 1
      ensures ParentOk(nodes', paths', parent', j)
    {
      if j < n {
        assert ParentOk(nodes, paths, parent, j);
      }
    }
  }

  ghost predicate Growing(nodes: seq<Node>, paths: seq<seq<bool>>, parent: seq<nat>, t: Table, n: nat, at: seq<nat>)
    requires WellFormed(t) && n <= 257
  {
    Tree(nodes, paths, parent) && Labelled(nodes, paths, t, n, at)
  }

  method BuildTrie(t: Table) returns (nodes: seq<Node>)
    requires WellFormed(t)
    ensures TrieFor(nodes, t)
    ensures |nodes| <= 1 + 257 * 32  // node indices fit their sixteen bits
  {
    hide CodeBits, Growing;
    nodes := [Node(-1, 0, 0)];
    ghost var paths: seq<seq<bool>> := [[]];
    ghost var parent: seq<nat> := [0];
    ghost var at: seq<nat> := [];
    OnlyRoot(t);
    for sym := 0 to 257
      invariant |nodes| == |paths| && Growing(nodes, paths, parent, t, sym, at)
      invariant 1 <= |nodes| <= 1 + sym * 32 && paths[0] == []
    {
      var c := t[sym];
      var cur: nat, bit := 0, c.bits;
      while bit > 0
        invariant 0 <= bit <= c.bits && cur < |nodes| == |paths|
        invariant Growing(nodes, paths, parent, t, sym, at) && paths[0] == []
        invariant paths[cur] == CodeBits(c)[..c.bits - bit]
        invariant |nodes| <= 1 + sym * 32 + (c.bits - bit)
      {
        bit := bit - 1;
        var b := c.code / Pow2(bit) % 2 == 1;
        ghost var k := c.bits - 1 - bit;
        assert CodeBits(c)[k] == b by { CodeBitsAt(c, k); }
        if nodes[cur].Child(b) == 0 {
          Grow(nodes, paths, parent, t, sym, at, cur, b);
          nodes, paths, parent :=
            nodes[cur := nodes[cur].WithChild(b, |nodes|)] + [Node(-1, 0, 0)],
            paths + [paths[cur] + [b]],
            parent + [cur];
        }
        ChildPath(nodes, paths, parent, t, sym, at, cur, b);
        cur := nodes[cur].Child(b);
        assert CodeBits(c)[..k] + [b] == CodeBits(c)[..k + 1];
      }
      assert CodeBits(c)[..c.bits] == CodeBits(c);
      Place(nodes, paths, parent, t, sym, at, cur);
      nodes := nodes[cur := nodes[cur].(symbol := sym)];
      at := at + [cur];
    }
    assert TrieFor(nodes, t) by { Grown(nodes, paths, parent, t, at); }
  }

  lemma OnlyRoot(t: Table)
    requires WellFormed(t)
    ensures Growing([Node(-1, 0, 0)], [[]], [0], t, 0, [])
  {
  }

  lemma Grown(nodes: seq<Node>, paths: seq<seq<bool>>, parent: seq<nat>, t: Table, at: seq<nat>)
    requires WellFormed(t) && Growing(nodes, paths, parent, t, 257, at)
    ensures TrieFor(nodes, t)
  {
  }

  lemma Grow(nodes: seq<Node>, paths: seq<seq<bool>>, parent: seq<nat>, t: Table, n: nat, at: seq<nat>, cur: nat, b: bool)
    requires WellFormed(t) && n <= 257 && Growing(nodes, paths, parent, t, n, at)
    requires cur < |nodes| == |paths| && nodes[cur].Child(b) == 0
    ensures var nodes' := nodes[cur := nodes[cur].WithChild(b, |nodes|)] + [Node(-1, 0, 0)];
            Growing(nodes', paths + [paths[cur] + [b]], parent + [cur], t, n, at) && nodes'[cur].Child(b) == |nodes|
  {
    hide Tree, CodeBits, Repeated;
    GrowTree(nodes, paths, parent, cur, b);
  }

  lemma ChildPath(nodes: seq<Node>, paths: seq<seq<bool>>, parent: seq<nat>, t: Table, n: nat, at: seq<nat>, cur: nat, b: bool)
    requires WellFormed(t) && n <= 257 && Growing(nodes, paths, parent, t, n, at)
    requires cur < |nodes| == |paths| && nodes[cur].Child(b) != 0
    ensures nodes[cur].Child(b) < |nodes| && paths[nodes[cur].Child(b)] == paths[cur] + [b]
  {
    hide Labelled;
    assert LinkOk(nodes, paths, cur, b);
  }

  lemma Place(nodes: seq<Node>, paths: seq<seq<bool>>, parent: seq<nat>, t: Table, n: nat, at: seq<nat>, cur: nat)
    requires WellFormed(t) && n < 257 && Growing(nodes, paths, parent, t, n, at)
    requires cur < |nodes| == |paths| && paths[cur] == CodeBits(t[n])
    ensures Growing(nodes[cur := nodes[cur].(symbol := n)], paths, parent, t, n + 1, at + [cur])
  {
    hide Tree, Labelled, CodeBits;
    Label(nodes, paths, t, n, at, cur);
    LabelKeepsTree(nodes, paths, parent, cur, n);
  }

  lemma CodeBitsAt(c: Code, k: nat)
    requires k < c.bits
    ensures CodeBits(c)[k] == (c.code / Pow2(c.bits - 1 - k) % 2 == 1)
  {
    CodeBitAt(c.code, c.bits, k);
  }

  lemma LabelKeepsTree(nodes: seq<Node>, paths: seq<seq<bool>>, parent: seq<nat>, cur: nat, s: int)
    requires Tree(nodes, paths, parent) && cur < |nodes|
    ensures Tree(nodes[cur := nodes[cur].(symbol := s)], paths, parent)
  {
    var nodes' := nodes[cur := nodes[cur].(symbol := s)];
    forall i, b | 0 <= i < |nodes|
      ensures LinkOk(nodes', paths, i, b)
    {
      assert LinkOk(nodes, paths, i, b);
    }
    forall j | 0 < j < |nodes|
      ensures ParentOk(nodes', paths, parent, j)
    {
      assert ParentOk(nodes, paths, parent, j);
    }
  }

  /** Writing a symbol at the end of its code displaces only a symbol with the same code. */
  lemma Label(nodes: seq<Node>, paths: seq<seq<bool>>, t: Table, n: nat, at: seq<nat>, cur: nat)
    requires WellFormed(t) && n < 257 && cur < |nodes|
    requires Labelled(nodes, paths, t, n, at) && paths[cur] == CodeBits(t[n])
    ensures Labelled(nodes[cur := nodes[cur].(symbol := n)], paths, t, n + 1, at + [cur])
  {
    hide CodeBits, Repeated;
    var nodes' := nodes[cur := nodes[cur].(symbol := n)];
    forall s | 0 <= s < n && !Repeated(t, s, n + 1)
      ensures nodes'[at[s]].symbol == s
    {
      NotRepeated(t, s, n);
      assert at[s] != cur;
    }
  }

  lemma NotRepeated(t: Table, s: nat, n: nat)
    requires WellFormed(t) && s < n < 257 && !Repeated(t, s, n + 1)
    ensures !Repeated(t, s, n) && CodeBits(t[n]) != CodeBits(t[s])
  {
    hide CodeBits;
  }

  // ----- Decoding along the trie -----

  function Emit(symbol: int, r: Option<(seq<int>, nat)>): Option<(seq<int>, nat)> {
    if r.None? then None else Some(([symbol] + r.value.0, r.value.1))
  }

  /** Walk bit by bit from node `cur`, emitting a symbol and restarting whenever one is reached. */
  function Walk(nodes: seq<Node>, cur: nat, bits: seq<bool>): Option<(seq<int>, nat)>
    requires cur < |nodes|
    decreases |bits|
  {
    if bits == [] then Some(([], cur))
    else
      var c := nodes[cur].Child(bits[0]);
      if c == 0 || c >= |nodes| then None
      else if nodes[c].symbol >= 0 then Emit(nodes[c].symbol, Walk(nodes, 0, bits[1..]))
      else Walk(nodes, c, bits[1..])
  }

  /** The node above the end of a path, and the bit that leads on from there. */
  lemma {:induction false} Above(nodes: seq<Node>, paths: seq<seq<bool>>, parent: seq<nat>, j: nat, k: nat) returns (i: nat)
    requires Tree(nodes, paths, parent) && j < |nodes| && k < |paths[j]|
    ensures i < |nodes| && paths[i] == paths[j][..k]
    ensures 0 != nodes[i].Child(paths[j][k]) < |nodes|
    ensures paths[nodes[i].Child(paths[j][k])] == paths[j][..k + 1]
    decreases j
  {
    assert j != 0 && ParentOk(nodes, paths, parent, j);
    i := parent[j];
    assert LinkOk(nodes, paths, i, Last(paths[j]));
    if k == |paths[j]| - 1 {
      assert paths[j][..k + 1] == paths[j];
    } else {
      assert paths[i] == paths[j][..|paths[j]| - 1];
      i := Above(nodes, paths, parent, parent[j], k);
      assert paths[parent[j]][..k] == paths[j][..k] && paths[parent[j]][..k + 1] == paths[j][..k + 1];
    }
  }

  /** The node that a string of bits leads to. */
  function Follow(nodes: seq<Node>, cur: nat, bits: seq<bool>): (r: Option<nat>)
    requires cur < |nodes|
    ensures r.Some? ==> r.value < |nodes|
    decreases |bits|
  {
    if bits == [] then Some(cur)
    else
      var c := nodes[cur].Child(bits[0]);
      if c == 0 || c >= |nodes| then None else Follow(nodes, c, bits[1..])
  }

  lemma {:induction false} FollowPath(nodes: seq<Node>, paths: seq<seq<bool>>, parent: seq<nat>, j: nat, cur: nat, k: nat)
    requires Tree(nodes, paths, parent) && j < |nodes| && cur < |nodes| && k <= |paths[j]| && paths[cur] == paths[j][..k]
    ensures Follow(nodes, cur, paths[j][k..]) == Some(j)
    decreases |paths[j]| - k
  {
    var p := paths[j];
    if k == |p| {
      assert p[..k] == p && p[k..] == [];
      PathsDistinct(nodes, paths, parent, cur, j);
    } else {
      var i := Above(nodes, paths, parent, j, k);
      PathsDistinct(nodes, paths, parent, i, cur);
      hide Tree;
      assert p[k..][0] == p[k] && p[k..][1..] == p[k + 1..];
      FollowPath(nodes, paths, parent, j, nodes[cur].Child(p[k]), k + 1);
    }
  }

  /** The bits of every code lead to a node, which carries its symbol unless a later symbol has the same code. */
  lemma {:induction false} CodeLeadsToSymbol(nodes: seq<Node>, t: Table, s: nat)
    requires WellFormed(t) && TrieFor(nodes, t) && s < 257
    ensures 0 < |nodes|
    ensures var r := Follow(nodes, 0, CodeBits(t[s]));
            r.Some? && (!Repeated(t, s, 257) ==> nodes[r.value].symbol == s)
  {
    hide CodeBits, Tree, Repeated;
    var paths, parent, at :| Tree(nodes, paths, parent) && Labelled(nodes, paths, t, 257, at);
    Root(nodes, paths, parent);
    var p := paths[at[s]];
    assert p[..0] == [] && p[0..] == p;
    FollowPath(nodes, paths, parent, at[s], 0, 0);
  }

  /** From part-way down a code, the walk emits that code's symbol and carries on from the root. */
  lemma {:induction false} WalkCode(nodes: seq<Node>, paths: seq<seq<bool>>, parent: seq<nat>, t: Table, at: seq<nat>,
                                    s: nat, cur: nat, k: nat, rest: seq<bool>)
    requires WellFormed(t) && ShortPrefixFree(t) && Tree(nodes, paths, parent) && Labelled(nodes, paths, t, 257, at)
    requires s < 257 && cur < |nodes| && k < t[s].bits <= MAX_PENDING && paths[cur] == CodeBits(t[s])[..k]
    ensures Walk(nodes, cur, CodeBits(t[s])[k..] + rest) == Emit(s, Walk(nodes, 0, rest))
    decreases t[s].bits - k
  {
    hide CodeBits, Tree, ShortPrefixFree, Repeated;
    var c := CodeBits(t[s]);
    var w := c[k..] + rest;
    ShortNotRepeated(t, s);
    assert paths[at[s]] == c;
    var i := Above(nodes, paths, parent, at[s], k);
    PathsDistinct(nodes, paths, parent, i, cur);
    var d := nodes[cur].Child(c[k]);
    assert w[0] == c[k] && w[1..] == c[k + 1..] + rest;
    if k + 1 == t[s].bits {
      assert c[..k + 1] == c;
      PathsDistinct(nodes, paths, parent, d, at[s]);
      assert c[k + 1..] + rest == rest;
    } else {
      assert nodes[d].symbol < 0 by { InnerNode(nodes, paths, t, at, s, d, k + 1); }
      WalkCode(nodes, paths, parent, t, at, s, d, k + 1, rest);
    }
  }

  lemma ShortNotRepeated(t: Table, s: nat)
    requires WellFormed(t) && ShortPrefixFree(t) && s < 257 && t[s].bits <= MAX_PENDING
    ensures !Repeated(t, s, 257)
  {
    hide CodeBits;
    forall later | s < later < 257
      ensures CodeBits(t[later]) != CodeBits(t[s])
    {
      assert !(CodeBits(t[s]) <= CodeBits(t[later]));
    }
  }

  /** No symbol sits strictly inside a code. */
  lemma InnerNode(nodes: seq<Node>, paths: seq<seq<bool>>, t: Table, at: seq<nat>, s: nat, d: nat, k: nat)
    requires WellFormed(t) && ShortPrefixFree(t) && Labelled(nodes, paths, t, 257, at)
    requires s < 257 && d < |nodes| && k < t[s].bits <= MAX_PENDING && paths[d] == CodeBits(t[s])[..k]
    ensures nodes[d].symbol < 0
  {
    hide CodeBits;
  }

  lemma Root(nodes: seq<Node>, paths: seq<seq<bool>>, parent: seq<nat>)
    requires Tree(nodes, paths, parent)
    ensures 0 < |nodes| == |paths| && paths[0] == [] && Walk(nodes, 0, []) == Some(([], 0))
  {
  }

  /** The trie reads back the concatenated short codes of any string and ends at the root. */
  lemma {:induction false} WalkCodes(nodes: seq<Node>, t: Table, s: bytes)
    requires WellFormed(t) && ShortPrefixFree(t) && TrieFor(nodes, t)
    requires forall i | 0 <= i < |s| :: t[s[i]].bits <= MAX_PENDING
    ensures 0 < |nodes| && Walk(nodes, 0, Codes(t, s)) == Some((s, 0))
  {
    hide CodeBits, ShortPrefixFree, Tree, Labelled, Walk;
    var paths, parent, at :| Tree(nodes, paths, parent) && Labelled(nodes, paths, t, 257, at);
    Root(nodes, paths, parent);
    if s != [] {
      var c := CodeBits(t[s[0]]);
      assert c[0..] == c && c[..0] == [];
      WalkCode(nodes, paths, parent, t, at, s[0], 0, 0, Codes(t, s[1..]));
      WalkCodes(nodes, t, s[1..]);
      assert [s[0]] + s[1..] == s;
    }
  }

  /** The lookup decoder refines the trie: what it returns is what the trie reads off the bits it consumed. */
  lemma LookupRefinesTrie(nodes: seq<Node>, t: Table, data: bytes) returns (k: nat, u: nat)
    requires WellFormed(t) && ShortPrefixFree(t) && TrieFor(nodes, t)
    ensures Usable(LookupOf(t)) && 0 < |nodes|
    ensures var r := Decode(LookupOf(t), data);
            r.Some? ==> k <= |data| && u <= 7 && u <= 8 * k
                        && BitsOf(data)[8 * k - u..8 * k] == Ones(u)
                        && Walk(nodes, 0, BitsOf(data)[..8 * k - u]) == Some((r.value, 0))
  {
    hide Walk, TrieFor, ShortPrefixFree, Decode, LookupOf, Ones, Usable, Codes;
    k, u := DecodeSound(t, data);
    WalkCodes(nodes, t, []);
    var r := Decode(LookupOf(t), data);
    if r.Some? {
      var c := Codes(t, r.value);
      var b := BitsOf(data)[..8 * k];
      assert |b| == |c| + u;
      assert c == b[..8 * k - u] == BitsOf(data)[..8 * k - u];
      assert BitsOf(data)[8 * k - u..8 * k] == b[8 * k - u..] == Ones(u);
      WalkCodes(nodes, t, r.value);
    }
  }
}
