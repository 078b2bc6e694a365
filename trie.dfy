/** The prefix-tree dictionary: `CharNode` (one node, its lower-cased child map and its
    end-of-word flag) and `Trie` (insert, search and delete with pruning).

    The trie's abstract state is a ghost map `byPath` from each node's path (the
    lower-cased letters on the way down from the root) to the node itself. Nodes are
    distinct objects, so the map also pins down the shape of the tree. */
module Tries {
  import opened Common

  class CharNode {
    var children: map<char, CharNode>
    var isEnd: bool

    /** A fresh node has no children and is not the end of a word. */
    constructor ()
      ensures children == map[] && !isEnd
    {
      children := map[];
      isEnd := false;
    }

    function ChildNodesCount(): nat
      reads this
    {
      |children|
    }

    /** The child under the lower-cased key, or null. */
    function FindChild(c: char): CharNode?
      reads this
    {
      if Lower(c) in children then children[Lower(c)] else null
    }

    /** Adds a fresh child under the lower-cased key; the key must be absent (the
        dictionary insertion throws on a duplicate key). */
    method CreateChild(c: char) returns (child: CharNode)
      requires Lower(c) !in children
      modifies this
      ensures fresh(child) && child.children == map[] && !child.isEnd
      ensures children == old(children)[Lower(c) := child] && isEnd == old(isEnd)
    {
      child := new CharNode();
      children := children[Lower(c) := child];
    }

    method SetIsEndOfWord(isLast: bool)
      modifies this
      ensures isEnd == isLast && children == old(children)
    {
      isEnd := isLast;
    }

    /** Drops the child under the lower-cased key, and with it its whole subtree; a
        missing key is a no-op. */
    method RemoveChildNode(c: char)
      modifies this
      ensures children == old(children) - {Lower(c)} && isEnd == old(isEnd)
    {
      children := children - {Lower(c)};
    }

    /** The number of nodes strictly below this one, given the trie this node sits in
        at path `p`. */
    method GetTotalChildNodesCount(ghost byPath: map<string, CharNode>, ghost p: string)
      returns (count: nat)
      requires Closed(byPath) && p in byPath && byPath[p] == this
      ensures count == |Below(byPath, p)|
      decreases |Below(byPath, p)|
    {
      count := |children|;
      var todo := children.Keys;
      ghost var done: set<char> := {};
      while todo != {}
        invariant todo !! done && todo + done == children.Keys
        invariant count == |todo| + |BelowVia(byPath, p, done)|
        decreases |todo|
      {
        var k :| k in todo;
        BelowStep(byPath, p, k, done);
        var sub := children[k].GetTotalChildNodesCount(byPath, p + [k]);
        count := count + sub;
        todo := todo - {k};
        done := done + {k};
      }
      BelowViaAll(byPath, p);
    }
  }

  /** The shape invariant of a trie given by its path map: every path's parent is a
      path, a node's child keys are exactly the letters that extend its path, and the
      child under a key is the node of the extended path. */
  ghost predicate Closed(byPath: map<string, CharNode>)
    reads byPath.Values`children
  {
    forall p: string, c: char {:trigger p + [c]} ::
      (p + [c] in byPath ==> p in byPath)
      && (p in byPath ==> (c in byPath[p].children <==> p + [c] in byPath))
      && (p in byPath && c in byPath[p].children ==> byPath[p].children[c] == byPath[p + [c]])
  }

  /** The paths strictly below `p`. */
  ghost function Below(byPath: map<string, CharNode>, p: string): set<string>
  {
    set q | q in byPath && |p| < |q| && q[..|p|] == p
  }

  /** The paths strictly below `p` whose first letter after `p` is in `keys`. */
  ghost function BelowVia(byPath: map<string, CharNode>, p: string, keys: set<char>): set<string>
  {
    set q | q in byPath && |p| < |q| && q[..|p|] == p && q[|p|] in keys
  }

  /** Every prefix of a path is a path. */
  lemma {:induction false} PrefixIn(byPath: map<string, CharNode>, q: string, j: nat)
    requires Closed(byPath) && j <= |q|
    ensures q in byPath ==> q[..j] in byPath
    decreases |q| - j
  {
    if j < |q| {
      PrefixIn(byPath, q, j + 1);
      SnocPrefix(q, j);
    } else {
      assert q[..j] == q;
    }
  }

  /** The subtree below child `k` of `p` lies strictly below `p`, and so does `p + [k]`. */
  lemma BelowChild(byPath: map<string, CharNode>, p: string, k: char)
    requires Closed(byPath) && p in byPath && k in byPath[p].children
    ensures p + [k] in byPath
    ensures |Below(byPath, p + [k])| < |Below(byPath, p)|
  {
    var pk := p + [k];
    var B := Below(byPath, pk);
    forall q | q in B
      ensures q in Below(byPath, p)
    {
      assert q[..|p|] == q[..|pk|][..|p|];
    }
    assert pk[..|p|] == p;
    assert pk in Below(byPath, p) && pk !in B;
    assert B + {pk} <= Below(byPath, p);
    SubsetCard(B + {pk}, Below(byPath, p));
  }

  /** The paths below `p` through the keys `done` and `k` are those through `done`,
      `p + [k]` itself and the paths below `p + [k]`, three disjoint parts. */
  lemma BelowViaSplit(byPath: map<string, CharNode>, p: string, k: char, done: set<char>)
    requires k !in done && p + [k] in byPath
    ensures BelowVia(byPath, p, done + {k}) == BelowVia(byPath, p, done) + {p + [k]} + Below(byPath, p + [k])
    ensures BelowVia(byPath, p, done) !! Below(byPath, p + [k]) && p + [k] !in BelowVia(byPath, p, done)
    ensures p + [k] !in Below(byPath, p + [k])
  {
    var pk := p + [k];
    var A := BelowVia(byPath, p, done);
    var B := Below(byPath, pk);
    forall q | q in B
      ensures q in BelowVia(byPath, p, done + {k}) && q[|p|] == k
    {
      assert q[..|p|] == q[..|pk|][..|p|];
      assert q[|p|] == q[..|pk|][|p|];
    }
    assert pk[..|p|] == p;
    var C := BelowVia(byPath, p, done + {k});
    forall q | q in C
      ensures q in A || q == pk || q in B
    {
      if q[|p|] == k && |q| > |pk| {
        assert q[..|pk|] == q[..|p|] + [q[|p|]];
      } else if q[|p|] == k {
        assert q == q[..|p|] + [q[|p|]];
      }
    }
  }

  /** Adding child `k` of `p` to the keys already counted adds `p + [k]` and the
      subtree below it, and that subtree lies strictly below `p`. */
  lemma BelowStep(byPath: map<string, CharNode>, p: string, k: char, done: set<char>)
    requires Closed(byPath) && p in byPath && k in byPath[p].children && k !in done
    ensures p + [k] in byPath
    ensures |Below(byPath, p + [k])| < |Below(byPath, p)|
    ensures |BelowVia(byPath, p, done + {k})| == |BelowVia(byPath, p, done)| + 1 + |Below(byPath, p + [k])|
  {
    BelowChild(byPath, p, k);
    BelowViaSplit(byPath, p, k, done);
  }

  /** Counting through every child key counts every path below `p`. */
  lemma BelowViaAll(byPath: map<string, CharNode>, p: string)
    requires Closed(byPath) && p in byPath
    ensures BelowVia(byPath, p, byPath[p].children.Keys) == Below(byPath, p)
  {
    forall q | q in Below(byPath, p)
      ensures q[|p|] in byPath[p].children
    {
      PrefixIn(byPath, q, |p| + 1);
      assert q[..|p| + 1] == p + [q[|p|]];
    }
  }

  /** The paths strictly below the root are all paths but the empty one. */
  lemma BelowRoot(byPath: map<string, CharNode>)
    requires "" in byPath
    ensures Below(byPath, "") == byPath.Keys - {""}
    ensures |Below(byPath, "")| == |byPath| - 1
  {
    assert Below(byPath, "") == byPath.Keys - {""};
  }

  /** A map with at most one key cannot hold two different keys. */
  lemma AtMostOneKey<K, V>(m: map<K, V>, a: K, b: K)
    ensures |m| <= 1 && a in m && b in m ==> a == b
  {
    if a != b && a in m && b in m {
      SubsetCard({a, b}, m.Keys);
    }
  }

  /** `r` is a prefix of `q`. */
  ghost predicate IsPrefix(r: string, q: string)
  {
    |r| <= |q| && q[..|r|] == r
  }

  /** The prefixes of `q + [d]` are those of `q` and `q + [d]` itself. */
  lemma PrefixOfSnoc(r: string, q: string, d: char)
    ensures IsPrefix(r, q + [d]) <==> IsPrefix(r, q) || r == q + [d]
  {
    if |r| <= |q| {
      assert (q + [d])[..|r|] == q[..|r|];
    }
  }

  /** The prefixes of `w` longer than `k`. */
  ghost function Chain(w: string, k: nat): set<string>
  {
    set d | k < d <= |w| :: w[..d]
  }

  /** Taking one more letter extends a prefix by that letter. */
  lemma SnocPrefix(s: string, i: nat)
    requires i < |s|
    ensures s[..i + 1] == s[..i] + [s[i]]
  {
  }

  /** A string ending in `d` that is a prefix of `w` is the prefix one shorter,
      extended by the letter of `w` at that position. */
  lemma SnocOfPrefix(q: string, d: char, w: string, e: nat)
    requires e <= |w| && q + [d] == w[..e]
    ensures 0 < e && q == w[..e - 1] && d == w[e - 1]
  {
    assert q == (q + [d])[..e - 1];
  }

  /** Appending one letter is injective. */
  lemma SnocInjective(q: string, d: char, p: string, c: char)
    requires q + [d] == p + [c]
    ensures q == p && d == c
  {
    assert q == (q + [d])[..|q|];
    assert p == (p + [c])[..|p|];
  }

  /** The prefixes of `s` of length at most `i`. */
  ghost function PrefixesUpTo(s: string, i: nat): set<string>
    requires i <= |s|
  {
    set k | 0 <= k <= i :: s[..k]
  }

  /** All prefixes of `s`, from the empty string to `s` itself. */
  ghost function Prefixes(s: string): set<string>
  {
    PrefixesUpTo(s, |s|)
  }

  /** A string has exactly one prefix per length. */
  lemma {:induction false} PrefixesCount(s: string, i: nat)
    requires i <= |s|
    ensures |PrefixesUpTo(s, i)| == i + 1
  {
    if i > 0 {
      PrefixesCount(s, i - 1);
      assert PrefixesUpTo(s, i) == PrefixesUpTo(s, i - 1) + {s[..i]};
      assert s[..i] !in PrefixesUpTo(s, i - 1);
    } else {
      assert PrefixesUpTo(s, 0) == {s[..0]};
    }
  }

  class Trie {
    const root: CharNode
    ghost var byPath: map<string, CharNode>
    ghost var nodes: set<CharNode>
    ghost var pathOf: map<CharNode, string>
    /** The stored words: the paths whose node is marked end-of-word. */
    ghost var words: set<string>

    /** The path map covers the footprint, is closed, maps the empty path to the root,
        and no node sits at two paths (`pathOf` inverts `byPath`). */
    ghost predicate Valid()
      reads this, nodes
    {
      (forall p | p in byPath :: byPath[p] in nodes && byPath[p] in pathOf && pathOf[byPath[p]] == p)
      && "" in byPath && byPath[""] == root && root in nodes
      && !root.isEnd && Closed(byPath)
      && words <= byPath.Keys && (forall p | p in byPath :: byPath[p].isEnd <==> p in words)
    }

    /** Path `p` is a key node: it has more than one child or ends a word. */
    ghost predicate IsKey(p: string)
      reads this, nodes
      requires Valid()
    {
      p in byPath && (|byPath[p].children| > 1 || byPath[p].isEnd)
    }

    /** The depth of the last key node strictly above depth `i` on the path of `w`
        (the root, depth 0, when there is none). */
    ghost function LastKeyDepth(w: string, i: nat): nat
      reads this, nodes
      requires Valid() && i <= |w|
    {
      if i == 0 then 0
      else if IsKey(w[..i - 1]) then i - 1
      else LastKeyDepth(w, i - 1)
    }

    /** The nodes that deleting `w` prunes: when the node of `w` has no children,
        the chain from just below the last key node down to `w`; otherwise none. */
    ghost function PrunedPaths(w: string): set<string>
      reads this, nodes
      requires Valid() && w in byPath && w != ""
    {
      if |byPath[w].children| > 0 then {} else Chain(w, LastKeyDepth(w, |w|))
    }

    constructor ()
      ensures Valid() && fresh(nodes)
      ensures byPath.Keys == {""} && words == {}
    {
      var r := new CharNode();
      root := r;
      byPath := map["" := r];
      nodes := {r};
      pathOf := map[r := ""];
      words := {};
    }

    /** Walks the lower-cased path of `word`, creating the missing nodes, and marks
        the last one as the end of a word; the empty word is ignored. */
    method Insert(word: string)
      requires Valid()
      modifies this, nodes
      ensures Valid() && fresh(nodes - old(nodes))
      ensures words == if word == "" then old(words) else old(words) + {LowerStr(word)}
      ensures byPath.Keys == if word == "" then old(byPath.Keys) else old(byPath.Keys) + Prefixes(LowerStr(word))
      ensures forall p | p in old(byPath) :: p in byPath && byPath[p] == old(byPath[p])
    {
      if word == "" {
        return;
      }
      ghost var lw := LowerStr(word);
      ghost var words0, map0 := words, byPath;
      var cur := root;
      for i := 0 to |word|
        invariant Valid() && fresh(nodes - old(nodes))
        invariant lw[..i] in byPath && byPath[lw[..i]] == cur
        invariant Grown(map0, byPath, lw, i)
        invariant words == words0
      {
        SnocPrefix(lw, i);
        ghost var before := byPath;
        cur := FindOrCreateChild(cur, word[i], lw[..i]);
        GrownStep(map0, before, byPath, lw, i);
      }
      assert lw[..|word|] == lw;
      MarkEnd(cur, lw, true);
    }

    /** Sets the end-of-word flag of the node at the non-empty path `p`, keeping the
        ghost word set in step. */
    method MarkEnd(cur: CharNode, ghost p: string, isLast: bool)
      requires Valid() && p in byPath && byPath[p] == cur && p != ""
      modifies this, cur
      ensures Valid() && byPath == old(byPath) && nodes == old(nodes)
      ensures words == if isLast then old(words) + {p} else old(words) - {p}
      ensures forall q | q in byPath :: byPath[q].children == old(byPath[q].children)
    {
      cur.SetIsEndOfWord(isLast);
      words := if isLast then words + {p} else words - {p};
    }

    /** One step of the insertion walk: the child of `cur` under `c`, created when
        missing (the body of the insertion loop). */
    method FindOrCreateChild(cur: CharNode, c: char, ghost p: string) returns (child: CharNode)
      requires Valid() && p in byPath && byPath[p] == cur
      modifies this, cur
      ensures Valid() && fresh(nodes - old(nodes)) && words == old(words)
      ensures byPath == old(byPath)[p + [Lower(c)] := child]
      ensures byPath.Keys == old(byPath.Keys) + {p + [Lower(c)]}
      ensures p + [Lower(c)] in old(byPath) ==> child == old(byPath[p + [Lower(c)]]) && nodes == old(nodes)
    {
      var found := cur.FindChild(c);
      if found != null {
        child := found;
      } else {
        child := AddChild(cur, c, p);
      }
    }

    /** Attaches a fresh leaf under the missing key `c` of the node at path `p`. */
    method AddChild(cur: CharNode, c: char, ghost p: string) returns (child: CharNode)
      requires Valid() && p in byPath && byPath[p] == cur && Lower(c) !in cur.children
      modifies this, cur
      ensures Valid() && fresh(child) && nodes == old(nodes) + {child} && words == old(words)
      ensures p + [Lower(c)] !in old(byPath) && byPath == old(byPath)[p + [Lower(c)] := child]
    {
      child := cur.CreateChild(c);
      ghost var pc := p + [Lower(c)];
      assert pc !in byPath;
      byPath, nodes, pathOf := byPath[pc := child], nodes + {child}, pathOf[child := pc];
      assert Closed(byPath) by {
        forall q: string, d: char
          ensures (q + [d] in byPath ==> q in byPath)
            && (q in byPath ==> (d in byPath[q].children <==> q + [d] in byPath))
            && (q in byPath && d in byPath[q].children ==> byPath[q].children[d] == byPath[q + [d]])
        {
          if q + [d] == pc {
            SnocInjective(q, d, p, Lower(c));
          } else if q == pc {
            assert q + [d] !in old(byPath);
          } else if q in old(byPath) {
            assert q + [d] in old(byPath) ==> q in old(byPath);
          }
        }
      }
      assert forall q | q in byPath :: byPath[q] in nodes && byPath[q] in pathOf && pathOf[byPath[q]] == q;
      assert forall q | q in byPath :: byPath[q].isEnd <==> q in words;
    }

    /** `m` is `m0` plus the prefixes of `w` up to length `i`, with the nodes of `m0`
        unchanged. */
    static ghost predicate Grown(m0: map<string, CharNode>, m: map<string, CharNode>, w: string, i: nat)
      requires i <= |w|
    {
      m.Keys == m0.Keys + PrefixesUpTo(w, i)
      && forall p | p in m0 :: p in m && m[p] == m0[p]
    }

    static lemma GrownStep(m0: map<string, CharNode>, m1: map<string, CharNode>, m2: map<string, CharNode>,
                           w: string, i: nat)
      requires i < |w| && Grown(m0, m1, w, i)
      requires w[..i + 1] in m2 && m2 == m1[w[..i + 1] := m2[w[..i + 1]]]
      requires w[..i + 1] in m1 ==> m2[w[..i + 1]] == m1[w[..i + 1]]
      ensures Grown(m0, m2, w, i + 1)
    {
      assert PrefixesUpTo(w, i + 1) == PrefixesUpTo(w, i) + {w[..i + 1]};
    }

    /** Walks the path of `word` through `FindChild`; found when the whole path exists
        and its last node ends a word. */
    method Search(word: string) returns (found: bool)
      requires Valid()
      ensures found <==> LowerStr(word) in words
    {
      if word == "" {
        return false;
      }
      ghost var lw := LowerStr(word);
      var cur := root;
      for i := 0 to |word|
        invariant lw[..i] in byPath && byPath[lw[..i]] == cur
      {
        SnocPrefix(lw, i);
        var next := cur.FindChild(word[i]);
        if next == null {
          PrefixIn(byPath, lw, i + 1);
          return false;
        }
        cur := next;
      }
      assert lw[..|word|] == lw;
      found := cur.isEnd;
    }

    /** Unmarks the end of `word` and, when its last node has no children, removes
        the child of the last key node on its path. False for the empty word and for
        a path that breaks. */
    method Delete(word: string) returns (deleted: bool)
      requires Valid()
      modifies this, nodes
      ensures Valid() && nodes == old(nodes)
      ensures deleted <==> word != "" && LowerStr(word) in old(byPath)
      ensures words == old(words) - {LowerStr(word)}
      ensures !deleted ==> byPath == old(byPath)
      ensures deleted ==> byPath.Keys == old(byPath.Keys) - old(PrunedPaths(LowerStr(word)))
    {
      if word == "" {
        return false;
      }
      ghost var lw := LowerStr(word);
      var cur := root;
      var charNodes := [root];
      var idxLastKeyNode := 0;
      for i := 0 to |word|
        modifies {}
        invariant lw[..i] in byPath && byPath[lw[..i]] == cur
        invariant |charNodes| == i + 1
        invariant forall d | 0 <= d <= i :: lw[..d] in byPath && charNodes[d] == byPath[lw[..d]]
        invariant idxLastKeyNode == LastKeyDepth(lw, i)
      {
        SnocPrefix(lw, i);
        if cur.ChildNodesCount() > 1 || cur.isEnd {
          idxLastKeyNode := |charNodes| - 1;
        }
        assert lw[..i + 1][..i] == lw[..i];
        var next := cur.FindChild(word[i]);
        if next == null {
          PrefixIn(byPath, lw, i + 1);
          return false;
        }
        cur := next;
        charNodes := charNodes + [cur];
      }
      assert lw[..|word|] == lw;
      LastKeyDepthBounds(lw, |word|);
      UnmarkAndPrune(cur, charNodes[idxLastKeyNode], word[idxLastKeyNode], lw, idxLastKeyNode);
      deleted := true;
    }

    /** The end of a successful delete: unmarks the node of `w` and, when it has no
        children, removes the child under `c` of the last key node on the path, at
        depth `k`. */
    method UnmarkAndPrune(cur: CharNode, keyNode: CharNode, c: char, ghost w: string, ghost k: nat)
      requires Valid() && w in byPath && byPath[w] == cur && w != ""
      requires k == LastKeyDepth(w, |w|) && k < |w| && w[..k] in byPath && byPath[w[..k]] == keyNode
      requires Lower(c) == w[k]
      modifies this, nodes
      ensures Valid() && nodes == old(nodes) && words == old(words) - {w}
      ensures byPath.Keys == old(byPath.Keys) - old(PrunedPaths(w))
    {
      LastKeyDepthBounds(w, |w|);
      SnocPrefix(w, k);
      MarkEnd(cur, w, false);
      if cur.ChildNodesCount() == 0 {
        forall d | k < d < |w|
          ensures w[..d] in byPath && |byPath[w[..d]].children| <= 1 && w[..d] !in words
        {
          PrefixIn(byPath, w, d);
        }
        SubtreeIsChain(w, k);
        forall q | q in Chain(w, k)
          ensures q !in words
        {
          var e :| k < e <= |w| && q == w[..e];
          assert e == |w| ==> q == w;
        }
        RemoveSubtree(keyNode, c, w[..k]);
      }
    }

    /** Removes the child under `c` of the node at path `p`, and with it the subtree
        below; no stored word may lie in that subtree. */
    method RemoveSubtree(node: CharNode, c: char, ghost p: string)
      requires Valid() && p in byPath && byPath[p] == node && p + [Lower(c)] in byPath
      requires forall q | q in words :: !IsPrefix(p + [Lower(c)], q)
      modifies this, node
      ensures Valid() && nodes == old(nodes) && words == old(words)
      ensures byPath == map q | q in old(byPath) && !IsPrefix(p + [Lower(c)], q) :: old(byPath)[q]
    {
      node.RemoveChildNode(c);
      ghost var r := p + [Lower(c)];
      byPath := map q | q in byPath && !IsPrefix(r, q) :: byPath[q];
      assert Closed(byPath) by {
        forall q: string, d: char
          ensures (q + [d] in byPath ==> q in byPath)
            && (q in byPath ==> (d in byPath[q].children <==> q + [d] in byPath))
            && (q in byPath && d in byPath[q].children ==> byPath[q].children[d] == byPath[q + [d]])
        {
          PrefixOfSnoc(r, q, d);
          if r == q + [d] {
            SnocInjective(q, d, p, Lower(c));
          }
        }
      }
    }

    /** When every node strictly between depth `k` and `w` has at most one child and
        `w`'s node has none, the paths below the child of depth `k` on the path of `w`
        are exactly the prefixes of `w` longer than `k`. */
    lemma SubtreeIsChain(w: string, k: nat)
      requires Valid() && w in byPath && k < |w| && byPath[w].children == map[]
      requires forall d | k < d < |w| :: w[..d] in byPath && |byPath[w[..d]].children| <= 1
      ensures forall q | q in byPath :: IsPrefix(w[..k + 1], q) <==> q in Chain(w, k)
    {
      forall q | q in byPath && IsPrefix(w[..k + 1], q)
        ensures q in Chain(w, k)
      {
        OnChain(w, k, q);
      }
      forall q | q in Chain(w, k)
        ensures IsPrefix(w[..k + 1], q)
      {
        var e :| k < e <= |w| && q == w[..e];
        assert q[..k + 1] == w[..k + 1];
      }
    }

    lemma {:induction false} OnChain(w: string, k: nat, q: string)
      requires Valid() && w in byPath && k < |w| && byPath[w].children == map[]
      requires forall d | k < d < |w| :: w[..d] in byPath && |byPath[w[..d]].children| <= 1
      requires q in byPath && IsPrefix(w[..k + 1], q)
      ensures |q| <= |w| && q == w[..|q|]
      decreases |q|
    {
      if |q| > k + 1 {
        var q', d := q[..|q| - 1], q[|q| - 1];
        SnocPrefix(q, |q| - 1);
        assert q == q' + [d];
        assert q'[..k + 1] == q[..k + 1];
        OnChain(w, k, q');
        assert w[..|w|] == w;
        assert |q'| < |w|;
        SnocPrefix(w, |q'|);
        assert w[..|q'| + 1] in byPath by {
          assert |q'| + 1 == |w| ==> w[..|q'| + 1] == w;
        }
        AtMostOneKey(byPath[q'].children, d, w[|q'|]);
      }
    }

    /** The last key depth lies above `i`, and no node strictly between it and `i`
        is a key node. */
    lemma {:induction false} LastKeyDepthBounds(w: string, i: nat)
      requires Valid() && 0 < i <= |w|
      ensures LastKeyDepth(w, i) < i
      ensures forall d | LastKeyDepth(w, i) < d < i :: !IsKey(w[..d])
    {
      if i > 1 && !IsKey(w[..i - 1]) {
        LastKeyDepthBounds(w, i - 1);
      }
    }

  }

  /** Builds a trie holding the lower-cased form of every non-empty word. */
  method CreateFromListOfWords(words: seq<string>) returns (trie: Trie)
    ensures fresh(trie) && fresh(trie.nodes) && trie.Valid()
    ensures trie.words == set w | w in words && w != "" :: LowerStr(w)
  {
    trie := new Trie();
    for i := 0 to |words|
      invariant fresh(trie) && fresh(trie.nodes) && trie.Valid()
      invariant trie.words == set w | w in words[..i] && w != "" :: LowerStr(w)
    {
      LowerStrIsLower(words[i]);
      assert words[..i + 1] == words[..i] + [words[i]];
      trie.Insert(LowerStr(words[i]));
    }
    assert words[..|words|] == words;
  }
}
