/** Array helpers behind the reel panel: removing the last occurrence of an item
    from an array passed by reference, and choosing, letter by letter, the last
    not-yet-chosen column whose character matches a word. */
module CharExtensions {
  import opened Common

  /** `Array.LastIndexOf`: the index of the last occurrence of `x` in `s`, or -1. */
  function LastIndexOf<T(==)>(s: seq<T>, x: T): (i: int)
    ensures -1 <= i < |s|
    ensures i == -1 <==> x !in s
    ensures i >= 0 ==> s[i] == x && forall k | i < k < |s| :: s[k] != x
  {
    if |s| == 0 then -1
    else if s[|s| - 1] == x then |s| - 1
    else
      assert s == s[..|s| - 1] + [s[|s| - 1]];
      LastIndexOf(s[..|s| - 1], x)
  }

  /** `s` with position `i` taken out, the others kept in order. */
  function RemoveAt<T>(s: seq<T>, i: nat): (r: seq<T>)
    requires i < |s|
    ensures |r| == |s| - 1
    ensures forall k | 0 <= k < |r| :: r[k] == if k < i then s[k] else s[k + 1]
  {
    s[..i] + s[i + 1..]
  }

  /** Taking out one occurrence of `s[i]` removes exactly that value from the multiset. */
  lemma RemoveAtMultiset<T>(s: seq<T>, i: nat)
    requires i < |s|
    ensures multiset(RemoveAt(s, i)) == multiset(s) - multiset{s[i]}
  {
    assert s == s[..i] + [s[i]] + s[i + 1..];
  }

  /** `RemoveLastFoundItem(ref array, item)`: when `item` is absent the result is -1
      and nothing changes; otherwise the cells after its last occurrence are shifted
      one place left in the old array, the reference is replaced by a new array one
      shorter holding the old contents without that occurrence, and the index of the
      occurrence is returned. */
  method RemoveLastFoundItem<T(==)>(a: array<T>, item: T) returns (index: int, resized: array<T>)
    modifies a
    ensures index == LastIndexOf(old(a[..]), item)
    ensures index == -1 ==> resized == a && a[..] == old(a[..])
    ensures index >= 0 ==> fresh(resized) && resized[..] == RemoveAt(old(a[..]), index)
    ensures index >= 0 ==> a[..] == RemoveAt(old(a[..]), index) + [old(a[a.Length - 1])]
  {
    ghost var start := a[..];
    var lastIndex := LastIndexOf(a[..], item);
    if lastIndex > -1 {
      for i := lastIndex to a.Length - 1
        invariant forall k | 0 <= k < lastIndex :: a[k] == start[k]
        invariant forall k | lastIndex <= k < i :: a[k] == start[k + 1]
        invariant forall k | i <= k < a.Length :: a[k] == start[k]
      {
        a[i] := a[i + 1];
      }
      resized := new T[a.Length - 1](k requires 0 <= k < a.Length - 1 reads a => a[k]);
      assert a[..] == RemoveAt(start, lastIndex) + [start[a.Length - 1]] by {
        assert forall k | 0 <= k < a.Length :: a[..][k] == (RemoveAt(start, lastIndex) + [start[a.Length - 1]])[k];
      }
      return lastIndex, resized;
    }
    return lastIndex, a;
  }

  /** Removing 'd' from ['a', 'b', 'c'] finds nothing and keeps three cells; removing
      'a' returns index 0 and leaves ['b', 'c']. */
  method RemoveFromAbc() returns (missing: int, missingLength: int, found: int, rest: seq<char>)
    ensures missing == -1 && missingLength == 3
    ensures found == 0 && rest == ['b', 'c']
  {
    var a := new char[3];
    a[0], a[1], a[2] := 'a', 'b', 'c';
    assert a[..] == ['a', 'b', 'c'];
    var b;
    missing, b := RemoveLastFoundItem(a, 'd');
    missingLength := b.Length;
    var c := new char[3];
    c[0], c[1], c[2] := 'a', 'b', 'c';
    assert c[..] == ['a', 'b', 'c'];
    var d;
    found, d := RemoveLastFoundItem(c, 'a');
    rest := d[..];
  }

  /** The greatest index below `hi` whose character equals `letter` ignoring case and
      that is not in `chosen`, or -1 when there is none. */
  function LastFreeMatch(a: seq<char>, chosen: seq<int>, letter: char, hi: nat): (i: int)
    requires hi <= |a|
    ensures -1 <= i < hi
    ensures i >= 0 ==> Lower(a[i]) == Lower(letter) && i !in chosen
    ensures forall k | i < k < hi :: Lower(a[k]) != Lower(letter) || k in chosen
  {
    if hi == 0 then -1
    else if Lower(a[hi - 1]) == Lower(letter) && hi - 1 !in chosen then hi - 1
    else LastFreeMatch(a, chosen, letter, hi - 1)
  }

  /** The columns chosen for `word`: letter by letter, the last free matching column
      is appended; a letter with no free matching column adds nothing. Every chosen
      index is in bounds, no index is chosen twice, and each holds a letter of the
      word (ignoring case). */
  function LastIndexes(a: seq<char>, word: string): (r: seq<int>)
    ensures |r| <= |word|
    ensures forall i | 0 <= i < |r| :: 0 <= r[i] < |a|
    ensures forall i, j | 0 <= i < j < |r| :: r[i] != r[j]
  {
    if word == [] then []
    else
      var prev := LastIndexes(a, word[..|word| - 1]);
      var i := LastFreeMatch(a, prev, word[|word| - 1], |a|);
      if i == -1 then prev else prev + [i]
  }

  /** Every chosen column holds, ignoring case, a letter of the word. */
  lemma {:induction false} ChosenHoldLetters(a: seq<char>, word: string)
    ensures forall i | 0 <= i < |LastIndexes(a, word)| ::
      exists k | 0 <= k < |word| :: Lower(a[LastIndexes(a, word)[i]]) == Lower(word[k])
  {
    if word != [] {
      var w0 := word[..|word| - 1];
      ChosenHoldLetters(a, w0);
      var r, prev := LastIndexes(a, word), LastIndexes(a, w0);
      forall i | 0 <= i < |r|
        ensures exists k | 0 <= k < |word| :: Lower(a[r[i]]) == Lower(word[k])
      {
        if i < |prev| {
          var k :| 0 <= k < |w0| && Lower(a[prev[i]]) == Lower(w0[k]);
          assert r[i] == prev[i] && word[k] == w0[k];
        } else {
          var last := |word| - 1;
          assert Lower(a[r[i]]) == Lower(word[last]);
        }
      }
      assert r == LastIndexes(a, word);
    } else {
      assert LastIndexes(a, word) == [];
    }
  }

  /** Pairwise-distinct indices below `n` number at most `n`. */
  lemma {:induction false} DistinctBounded(r: seq<int>, n: nat)
    requires forall i | 0 <= i < |r| :: 0 <= r[i] < n
    requires forall i, j | 0 <= i < j < |r| :: r[i] != r[j]
    ensures |r| <= n
    decreases |r|
  {
    if r != [] {
      var last := r[|r| - 1];
      var rest := r[..|r| - 1];
      var shifted := seq(|rest|, i requires 0 <= i < |rest| => if rest[i] == n - 1 then last else rest[i]);
      DistinctBounded(shifted, n - 1);
    }
  }

  /** No more columns are chosen than the array has. */
  lemma LastIndexesBounded(a: seq<char>, word: string)
    ensures |LastIndexes(a, word)| <= |a|
  {
    DistinctBounded(LastIndexes(a, word), |a|);
  }

  /** `GetLastCharIndexesOfWord`: for each letter of the word, the array is scanned
      from its end for a matching character whose index was not yet chosen. */
  method GetLastCharIndexesOfWord(a: array<char>, word: string) returns (colIndexes: seq<int>)
    ensures colIndexes == LastIndexes(a[..], word)
  {
    colIndexes := [];
    for n := 0 to |word|
      invariant colIndexes == LastIndexes(a[..], word[..n])
    {
      var letter := word[n];
      ghost var prev := colIndexes;
      assert word[..n + 1][..n] == word[..n];
      var arrayIdx := a.Length - 1;
      while arrayIdx >= 0
        invariant -1 <= arrayIdx < a.Length && colIndexes == prev
        invariant LastFreeMatch(a[..], prev, letter, a.Length) == LastFreeMatch(a[..], prev, letter, arrayIdx + 1)
      {
        if Lower(a[arrayIdx]) == Lower(letter) && arrayIdx !in colIndexes {
          colIndexes := colIndexes + [arrayIdx];
          break;
        }
        arrayIdx := arrayIdx - 1;
      }
    }
    assert word[..|word|] == word;
  }

  /** The positions of `s` whose character lower-cases to `lc`. */
  function MatchSet(s: string, lc: char): set<int>
  {
    set i | 0 <= i < |s| && Lower(s[i]) == lc
  }

  /** The positions matching `lc` are as many as the occurrences of `lc` in the
      lower-cased string. */
  lemma {:induction false} MatchSetCount(s: string, lc: char)
    ensures |MatchSet(s, lc)| == multiset(LowerStr(s))[lc]
  {
    if s != [] {
      var s0 := s[..|s| - 1];
      MatchSetCount(s0, lc);
      assert LowerStr(s) == LowerStr(s0) + [Lower(s[|s| - 1])];
      if Lower(s[|s| - 1]) == lc {
        assert MatchSet(s, lc) == MatchSet(s0, lc) + {|s| - 1};
      } else {
        assert MatchSet(s, lc) == MatchSet(s0, lc);
      }
    }
  }

  /** Lower-casing commutes with taking out one position. */
  lemma LowerRemoveAt(s: string, i: nat)
    requires i < |s|
    ensures LowerStr(RemoveAt(s, i)) == RemoveAt(LowerStr(s), i)
  {
  }

  /** A word whose letters the array holds (as a multiset) still fits once both are
      lower-cased. */
  lemma {:induction false} LowerMonotone(s: string, t: string)
    requires multiset(s) <= multiset(t)
    ensures multiset(LowerStr(s)) <= multiset(LowerStr(t))
    decreases |s|
  {
    if s != [] {
      var x, s0 := s[|s| - 1], s[..|s| - 1];
      assert s == s0 + [x];
      assert x in multiset(t);
      var i := LastIndexOf(t, x);
      RemoveAtMultiset(t, i);
      LowerMonotone(s0, RemoveAt(t, i));
      assert LowerStr(s) == LowerStr(s0) + [Lower(x)];
      LowerRemoveAt(t, i);
      RemoveAtMultiset(LowerStr(t), i);
    }
  }

  /** The values `f` takes on the positions `p`. */
  function Image(p: set<int>, f: seq<int>): set<int>
    requires forall k | k in p :: 0 <= k < |f|
  {
    set k | k in p :: f[k]
  }

  /** The image of a set of positions below `n` is no larger than the set. */
  lemma {:induction false} ImageCard(p: set<int>, f: seq<int>, n: nat)
    requires n <= |f| && forall k | k in p :: 0 <= k < n
    ensures |Image(p, f)| <= |p|
  {
    if n > 0 {
      var q := p - {n - 1};
      ImageCard(q, f, n - 1);
      if n - 1 in p {
        SubsetCard(Image(p, f), Image(q, f) + {f[n - 1]});
        assert p == q + {n - 1};
      } else {
        assert p == q;
      }
    } else {
      assert forall k :: k !in p;
      assert p == {};
    }
  }

  /** If every position matching `lc` is already among the columns chosen for `w0`,
      and the i-th chosen column holds the i-th letter, then the array holds `lc` no
      more often than `w0` does. */
  lemma NoFreeMatchCount(a: string, w0: string, prev: seq<int>, lc: char)
    requires |prev| == |w0|
    requires forall i | 0 <= i < |prev| :: 0 <= prev[i] < |a| && Lower(a[prev[i]]) == Lower(w0[i])
    requires forall k | 0 <= k < |a| :: Lower(a[k]) != lc || k in prev
    ensures multiset(LowerStr(a))[lc] <= multiset(LowerStr(w0))[lc]
  {
    var matches, used := MatchSet(a, lc), MatchSet(w0, lc);
    var image := Image(used, prev);
    forall j | j in matches
      ensures j in image
    {
      var k :| 0 <= k < |prev| && prev[k] == j;
      assert k in used;
    }
    SubsetCard(matches, image);
    ImageCard(used, prev, |prev|);
    MatchSetCount(a, lc);
    MatchSetCount(w0, lc);
  }

  /** Lower-casing a string with one more character. */
  lemma LowerSnoc(w: string, c: char)
    ensures LowerStr(w + [c]) == LowerStr(w) + [Lower(c)]
  {
  }

  /** One more letter that finds a free column keeps the chosen columns aligned with
      the letters. */
  lemma AlignedStep(a: string, w0: string, c: char)
    requires |LastIndexes(a, w0)| == |w0|
    requires forall i | 0 <= i < |w0| :: Lower(a[LastIndexes(a, w0)[i]]) == Lower(w0[i])
    requires LastFreeMatch(a, LastIndexes(a, w0), c, |a|) != -1
    ensures |LastIndexes(a, w0 + [c])| == |w0| + 1
    ensures forall i | 0 <= i <= |w0| :: Lower(a[LastIndexes(a, w0 + [c])[i]]) == Lower((w0 + [c])[i])
  {
    var word := w0 + [c];
    assert word[..|w0|] == w0;
    var r, prev := LastIndexes(a, word), LastIndexes(a, w0);
    assert r == prev + [r[|w0|]];
    forall j | 0 <= j < |w0|
      ensures Lower(a[r[j]]) == Lower(word[j])
    {
      assert r[j] == prev[j] && word[j] == w0[j];
    }
  }

  /** When the array holds every letter of the word as often as the word does
      (ignoring case), every letter gets a column, and the i-th chosen column holds
      the i-th letter. */
  lemma {:induction false} AllLettersFound(a: string, word: string)
    requires multiset(LowerStr(word)) <= multiset(LowerStr(a))
    ensures |LastIndexes(a, word)| == |word|
    ensures forall i | 0 <= i < |word| :: Lower(a[LastIndexes(a, word)[i]]) == Lower(word[i])
  {
    if word != [] {
      var n := |word|;
      var w0, c := word[..n - 1], word[n - 1];
      assert word == w0 + [c];
      LowerSnoc(w0, c);
      AllLettersFound(a, w0);
      var prev := LastIndexes(a, w0);
      var i := LastFreeMatch(a, prev, c, |a|);
      if i == -1 {
        NoFreeMatchCount(a, w0, prev, Lower(c));
        assert false;
      }
      AlignedStep(a, w0, c);
    }
  }

  /** An array holding a word's letters exactly is one holding them ignoring case. */
  lemma ExactLettersFound(a: string, word: string)
    requires multiset(word) <= multiset(a)
    ensures |LastIndexes(a, word)| == |word|
    ensures forall i | 0 <= i < |word| :: Lower(a[LastIndexes(a, word)[i]]) == Lower(word[i])
  {
    LowerMonotone(word, a);
    AllLettersFound(a, word);
  }

  lemma FirstC()
    ensures LastFreeMatch("avaca", [], 'c', 5) == 3
  {
  }

  lemma SecondA()
    ensures LastFreeMatch("avaca", [3], 'a', 5) == 4
  {
  }

  lemma ThirdV()
    ensures LastFreeMatch("avaca", [3, 4], 'v', 5) == 1
  {
    assert LastFreeMatch("avaca", [3, 4], 'v', 2) == 1;
    assert LastFreeMatch("avaca", [3, 4], 'v', 3) == 1;
    assert LastFreeMatch("avaca", [3, 4], 'v', 4) == 1;
  }

  lemma FourthA()
    ensures LastFreeMatch("avaca", [3, 4, 1], 'a', 5) == 2
  {
    assert "avaca"[2] == 'a' && 2 !in [3, 4, 1];
    assert LastFreeMatch("avaca", [3, 4, 1], 'a', 3) == 2;
    assert LastFreeMatch("avaca", [3, 4, 1], 'a', 4) == 2;
  }

  /** Array "avaca" and word "cava" give the columns 3, 4, 1, 2. */
  lemma AvacaCava()
    ensures LastIndexes("avaca", "cava") == [3, 4, 1, 2]
  {
    FirstC();
    SecondA();
    ThirdV();
    FourthA();
    assert "cava"[..3] == "cav" && "cav"[..2] == "ca" && "ca"[..1] == "c" && "c"[..0] == "";
    assert LastIndexes("avaca", "c") == [3];
    assert LastIndexes("avaca", "ca") == [3, 4];
    assert LastIndexes("avaca", "cav") == [3, 4, 1];
  }
}
