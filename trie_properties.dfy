/** What the dictionary does to the tries its tests build: the node counts after
    inserting and deleting, and which words stay searchable. The general lemmas
    describe a trie by the set of its paths; the scenarios at the end replay the
    documented cases. */
module TrieProperties {
  import opened Common
  import opened Tries

  /** A path is one of the prefixes of `w` exactly when it is a prefix of `w`. */
  lemma InPrefixes(q: string, w: string)
    ensures q in Prefixes(w) <==> IsPrefix(q, w)
  {
    if IsPrefix(q, w) {
      assert q == w[..|q|];
    }
  }

  /** A one-letter extension of `p` is a prefix of `w` when `p` is, and the letter is
      the one `w` has next. */
  lemma SnocIsPrefix(p: string, d: char, w: string)
    ensures IsPrefix(p + [d], w) <==> IsPrefix(p, w) && |p| < |w| && w[|p|] == d
  {
    if IsPrefix(p + [d], w) {
      assert w[..|p|] == w[..|p| + 1][..|p|];
    }
    if IsPrefix(p, w) && |p| < |w| && w[|p|] == d {
      SnocPrefix(w, |p|);
    }
  }

  /** The prefixes of a prefix of `w` are prefixes of `w`. */
  lemma PrefixesOfPrefix(s: string, w: string)
    requires IsPrefix(s, w)
    ensures Prefixes(s) <= Prefixes(w)
  {
    forall q | q in Prefixes(s)
      ensures q in Prefixes(w)
    {
      InPrefixes(q, s);
      InPrefixes(q, w);
    }
  }

  /** The node of a valid trie at `p` has exactly the child keys `ks` when the
      one-letter extensions of `p` among the trie's paths are exactly those letters. */
  lemma ChildKeys(t: Trie, p: string, ks: set<char>)
    requires t.Valid() && p in t.byPath
    requires forall d: char :: p + [d] in t.byPath <==> d in ks
    ensures t.byPath[p].children.Keys == ks
  {
  }

  /** In a trie whose paths are the prefixes of one string `w`, the node at depth `i`
      above the end has the single child key `w[i]`, and the node of `w` has none. */
  lemma ChainChildren(t: Trie, w: string, i: nat)
    requires t.Valid() && t.byPath.Keys == Prefixes(w) && i <= |w|
    ensures w[..i] in t.byPath
    ensures t.byPath[w[..i]].children.Keys == if i < |w| then {w[i]} else {}
  {
    InPrefixes(w[..i], w);
    forall d: char
      ensures w[..i] + [d] in t.byPath <==> d in (if i < |w| then {w[i]} else {})
    {
      InPrefixes(w[..i] + [d], w);
      SnocIsPrefix(w[..i], d, w);
    }
    ChildKeys(t, w[..i], if i < |w| then {w[i]} else {});
  }

  /** A valid trie holds two different letters below `p` when both extensions are
      paths: its node there is a key node. */
  lemma TwoChildren(t: Trie, p: string, a: char, b: char)
    requires t.Valid() && p in t.byPath && p + [a] in t.byPath && p + [b] in t.byPath && a != b
    ensures t.IsKey(p)
  {
    SubsetCard({a, b}, t.byPath[p].children.Keys);
  }

  /** When no node strictly between depths `k` and `i` on the path of `w` is a key node,
      the last key depth below `i` is the one below `k + 1`. */
  lemma {:induction false} LastKeyDepthSkip(t: Trie, w: string, k: nat, i: nat)
    requires t.Valid() && k < i <= |w|
    requires forall d | k < d < i :: !t.IsKey(w[..d])
    ensures t.LastKeyDepth(w, i) == t.LastKeyDepth(w, k + 1)
    decreases i
  {
    if i > k + 1 {
      LastKeyDepthSkip(t, w, k, i - 1);
    }
  }

  /** In the trie of a single word `w`, deleting `w` prunes every node but the root. */
  lemma SoleWordPruned(t: Trie, w: string)
    requires t.Valid() && w != "" && t.byPath.Keys == Prefixes(w) && t.words == {w}
    ensures w in t.byPath && t.PrunedPaths(w) == Prefixes(w) - {""}
  {
    ChainChildren(t, w, |w|);
    assert w[..|w|] == w;
    forall d | 0 < d < |w|
      ensures !t.IsKey(w[..d])
    {
      ChainChildren(t, w, d);
    }
    LastKeyDepthSkip(t, w, 0, |w|);
    forall q | q in Prefixes(w) - {""}
      ensures q in Chain(w, 0)
    {
      InPrefixes(q, w);
      assert q == w[..|q|];
    }
  }

  /** Deleting a word that is a strict prefix of a path prunes nothing. */
  lemma PrefixOfPathPruned(t: Trie, w: string, v: string)
    requires t.Valid() && w != "" && w in t.byPath && v in t.byPath && IsPrefix(w, v) && |w| < |v|
    ensures t.PrunedPaths(w) == {}
  {
    PrefixIn(t.byPath, v, |w| + 1);
    SnocPrefix(v, |w|);
    assert w + [v[|w|]] in t.byPath;
  }

  /** In the trie of a word `v` and its strict prefix `w`, deleting `v` prunes the nodes
      below the end of `w`. */
  lemma LongerWordPruned(t: Trie, w: string, v: string)
    requires t.Valid() && t.byPath.Keys == Prefixes(v) && t.words == {w, v}
    requires IsPrefix(w, v) && 0 < |w| < |v|
    ensures v in t.byPath && t.PrunedPaths(v) == Chain(v, |w|)
  {
    ChainChildren(t, v, |v|);
    assert v[..|v|] == v;
    forall d | |w| < d < |v|
      ensures !t.IsKey(v[..d])
    {
      ChainChildren(t, v, d);
    }
    LastKeyDepthSkip(t, v, |w|, |v|);
    assert v[..|w|] == w;
  }

  /** Two words of the same length that differ only in their last letter. */
  ghost predicate Siblings(u: string, v: string)
  {
    |u| == |v| > 0 && u[..|u| - 1] == v[..|v| - 1] && u[|u| - 1] != v[|v| - 1]
  }

  /** In the trie of two sibling words, deleting one prunes only its own last node. */
  lemma SiblingPruned(t: Trie, u: string, v: string)
    requires t.Valid() && t.byPath.Keys == Prefixes(u) + Prefixes(v) && Siblings(u, v)
    ensures u in t.byPath && t.PrunedPaths(u) == {u}
  {
    var n := |u|;
    InPrefixes(u, u);
    forall d: char
      ensures u + [d] !in t.byPath
    {
      InPrefixes(u + [d], u);
      InPrefixes(u + [d], v);
    }
    ChildKeys(t, u, {});
    SnocPrefix(u, n - 1);
    SnocPrefix(v, n - 1);
    InPrefixes(v, v);
    InPrefixes(u[..n - 1], u);
    TwoChildren(t, u[..n - 1], u[n - 1], v[n - 1]);
    assert u[..n] == u;
  }

  /** The paths of two sibling words are those of one plus the other word. */
  lemma SiblingPaths(u: string, v: string)
    requires Siblings(u, v)
    ensures Prefixes(u) + Prefixes(v) == Prefixes(v) + {u} && u !in Prefixes(v)
  {
    var n := |u|;
    SnocPrefix(u, n - 1);
    PrefixesOfPrefix(u[..n - 1], v);
    forall q | q in Prefixes(u)
      ensures q in Prefixes(v) + {u}
    {
      InPrefixes(q, u);
      if |q| < n {
        assert q == u[..n - 1][..|q|];
        InPrefixes(q, u[..n - 1]);
      } else {
        assert u[..n] == u;
      }
    }
    InPrefixes(u, v);
    InPrefixes(u, u);
    assert u[n - 1] != v[..n][n - 1];
  }

  /** Counting every node below the root of a trie gives all its paths but one. */
  method CountAll(t: Trie) returns (count: nat)
    requires t.Valid()
    ensures count == |t.byPath| - 1
  {
    count := t.root.GetTotalChildNodesCount(t.byPath, "");
    BelowRoot(t.byPath);
  }

  /** Inserting a word after one of its prefixes adds no path the longer word does
      not have. */
  lemma PrefixesUnion(a: string, b: string)
    requires IsPrefix(a, b)
    ensures {""} + Prefixes(a) + Prefixes(b) == Prefixes(b)
    ensures |Prefixes(b)| == |b| + 1
  {
    PrefixesOfPrefix(a, b);
    InPrefixes("", b);
    PrefixesCount(b, |b|);
  }

  /** Cutting the chain below depth `k` off the prefixes of `v` leaves the prefixes
      up to length `k`. */
  lemma PrefixesMinusChain(v: string, k: nat)
    requires k <= |v|
    ensures Prefixes(v) - Chain(v, k) == PrefixesUpTo(v, k)
  {
    forall q | q in Prefixes(v) - Chain(v, k)
      ensures q in PrefixesUpTo(v, k)
    {
      var e :| 0 <= e <= |v| && q == v[..e];
      assert e <= k;
    }
  }

  /** The words of the scenarios below are already in lower case. */
  lemma LowerWords()
    ensures LowerStr("car") == "car" && LowerStr("can") == "can"
    ensures LowerStr("cartoon") == "cartoon" && LowerStr("cat") == "cat"
  {
    LowerStrOfLower("car");
    LowerStrOfLower("can");
    LowerStrOfLower("cartoon");
    LowerStrOfLower("cat");
  }

  lemma LowerOtherWords()
    ensures LowerStr("up") == "up" && LowerStr("upload") == "upload"
    ensures LowerStr("hello") == "hello" && LowerStr("goodbye") == "goodbye"
    ensures LowerStr("plane") == "plane"
  {
    LowerStrOfLower("up");
    LowerStrOfLower("upload");
    LowerStrOfLower("hello");
    LowerStrOfLower("goodbye");
    LowerStrOfLower("plane");
  }

  /** How the scenario words relate to each other. */
  lemma WordShapes()
    ensures IsPrefix("up", "upload") && IsPrefix("car", "cartoon") && Siblings("car", "can")
    ensures "" in Prefixes("cat") && "" in Prefixes("upload") && "" in Prefixes("car")
    ensures "" in Prefixes("cartoon")
    ensures "car" in Prefixes("cartoon") && "cartoon" in Prefixes("cartoon")
    ensures "plane" !in Prefixes("car")
  {
    assert "upload"[..2] == "up" && "cartoon"[..3] == "car";
    assert "car"[..2] == "ca" == "can"[..2];
    InPrefixes("", "cat");
    InPrefixes("", "upload");
    InPrefixes("", "car");
    InPrefixes("", "cartoon");
    InPrefixes("car", "cartoon");
    InPrefixes("cartoon", "cartoon");
    InPrefixes("plane", "car");
  }

  /** Inserting the empty word creates no node. */
  method InsertEmpty() returns (count: nat)
    ensures count == 0
  {
    var t := new Trie();
    t.Insert("");
    count := CountAll(t);
  }

  /** "cat" alone takes three nodes below the root, and is then found. */
  method InsertCat() returns (count: nat, found: bool)
    ensures count == 3 && found
  {
    var t := new Trie();
    t.Insert("cat");
    LowerWords();
    WordShapes();
    PrefixesUnion("", "cat");
    assert t.byPath.Keys == Prefixes("cat");
    count := CountAll(t);
    found := t.Search("cat");
  }

  /** "up" then "upload" share the nodes of "up": six nodes in all. */
  method InsertUpUpload() returns (count: nat)
    ensures count == 6
  {
    var t := new Trie();
    t.Insert("up");
    t.Insert("upload");
    LowerOtherWords();
    WordShapes();
    PrefixesUnion("up", "upload");
    assert t.byPath.Keys == Prefixes("upload");
    count := CountAll(t);
  }

  /** A word absent from the trie is not found. */
  method SearchMissing() returns (found: bool)
    ensures !found
  {
    var t := new Trie();
    t.Insert("hello");
    LowerOtherWords();
    found := t.Search("goodbye");
  }

  /** A fresh trie holding "car". */
  method BuildCar() returns (t: Trie)
    ensures fresh(t) && fresh(t.nodes) && t.Valid()
    ensures t.byPath.Keys == Prefixes("car") && t.words == {"car"}
  {
    t := new Trie();
    t.Insert("car");
    LowerWords();
    WordShapes();
    PrefixesUnion("", "car");
  }

  /** A fresh trie holding "car" and "can". */
  method BuildCarCan() returns (t: Trie)
    ensures fresh(t) && fresh(t.nodes) && t.Valid()
    ensures t.byPath.Keys == Prefixes("car") + Prefixes("can") && t.words == {"car", "can"}
  {
    t := BuildCar();
    t.Insert("can");
    LowerWords();
  }

  /** A fresh trie holding "car" and "cartoon". */
  method BuildCarCartoon() returns (t: Trie)
    ensures fresh(t) && fresh(t.nodes) && t.Valid()
    ensures t.byPath.Keys == Prefixes("cartoon") && t.words == {"car", "cartoon"}
  {
    t := BuildCar();
    t.Insert("cartoon");
    LowerWords();
    WordShapes();
    PrefixesUnion("car", "cartoon");
  }

  /** Deleting the only word removes every node. */
  method DeleteOnlyWord() returns (deleted: bool, count: nat, found: bool)
    ensures deleted && count == 0 && !found
  {
    var t := BuildCar();
    WordShapes();
    SoleWordPruned(t, "car");
    LowerWords();
    deleted := t.Delete("car");
    assert t.byPath.Keys == {""};
    count := CountAll(t);
    found := t.Search("car");
  }

  /** With "car" and "can", deleting "car" prunes only its last letter. */
  method DeleteBesideSibling() returns (deleted: bool, count: nat, foundCar: bool, foundCan: bool)
    ensures deleted && count == 3 && !foundCar && foundCan
  {
    var t := BuildCarCan();
    WordShapes();
    SiblingPruned(t, "car", "can");
    SiblingPaths("car", "can");
    PrefixesCount("can", 3);
    LowerWords();
    deleted := t.Delete("car");
    assert t.byPath.Keys == Prefixes("can");
    count := CountAll(t);
    foundCar := t.Search("car");
    foundCan := t.Search("can");
  }

  /** With "car" and "cartoon", deleting "cartoon" prunes back to the end of "car". */
  method DeleteLongerWord() returns (deleted: bool, count: nat, foundCar: bool, foundCartoon: bool)
    ensures deleted && count == 3 && foundCar && !foundCartoon
  {
    var t := BuildCarCartoon();
    WordShapes();
    LongerWordPruned(t, "car", "cartoon");
    PrefixesMinusChain("cartoon", 3);
    PrefixesCount("cartoon", 3);
    LowerWords();
    deleted := t.Delete("cartoon");
    count := CountAll(t);
    foundCar := t.Search("car");
    foundCartoon := t.Search("cartoon");
  }

  /** With "car" and "cartoon", deleting "car" only unmarks it: no node goes. */
  method DeleteShorterWord() returns (deleted: bool, count: nat, foundCar: bool, foundCartoon: bool)
    ensures deleted && count == 7 && !foundCar && foundCartoon
  {
    var t := BuildCarCartoon();
    WordShapes();
    PrefixOfPathPruned(t, "car", "cartoon");
    PrefixesCount("cartoon", 7);
    LowerWords();
    deleted := t.Delete("car");
    assert t.byPath.Keys == Prefixes("cartoon");
    count := CountAll(t);
    foundCar := t.Search("car");
    foundCartoon := t.Search("cartoon");
  }

  /** Deleting the empty word, or a word whose path breaks, reports false. */
  method DeleteMissing() returns (deletedEmpty: bool, deletedPlane: bool)
    ensures !deletedEmpty && !deletedPlane
  {
    var t := BuildCar();
    LowerOtherWords();
    WordShapes();
    deletedEmpty := t.Delete("");
    deletedPlane := t.Delete("plane");
  }

  /** Child lookups ignore case: a letter and its lower-case form find the same child. */
  lemma FindChildIgnoresCase(n: CharNode, c: char)
    ensures n.FindChild(c) == n.FindChild(Lower(c))
  {
    assert Lower(Lower(c)) == Lower(c);
  }

  /** A child created under an upper-case letter is found under its lower-case form,
      and the node then has one child. */
  method CreateThenFind() returns (same: bool, count: nat)
    ensures same && count == 1
  {
    var n := new CharNode();
    var child := n.CreateChild('C');
    var found := n.FindChild('c');
    same := found == child;
    count := n.ChildNodesCount();
  }

  /** Every non-empty word of the list a trie is built from is found in it. */
  method SearchAfterCreate(ws: seq<string>, w: string) returns (found: bool)
    requires w in ws && w != ""
    ensures found
  {
    var t := CreateFromListOfWords(ws);
    found := t.Search(w);
    LowerStrIsLower(w);
  }

  /** Deleting one word of a trie built from a list leaves it unfound and keeps every
      other non-empty word of the list. */
  method DeleteKeepsOthers(ws: seq<string>, w: string, v: string) returns (deleted: bool, foundW: bool, foundV: bool)
    requires w in ws && w != "" && v in ws && v != "" && LowerStr(v) != LowerStr(w)
    ensures deleted && !foundW && foundV
  {
    var t := CreateFromListOfWords(ws);
    assert LowerStr(w) in t.words;
    deleted := t.Delete(w);
    foundW := t.Search(w);
    foundV := t.Search(v);
  }
}
