/** The trie of custom/TrieDataStructure.java (class `TrieNode` over `Node`),
    whose `insert`/`search`/`traverse` solutions/word-search-ii.java repeats
    word for word. Nodes live in an arena: node k is row k of `links`, a row
    holds the 26 child slots of a node (`Null` for a missing child) and
    `eow[k]` is its end-of-word flag; node 0 is the root. */
module TrieModel {

  const Null := -1

  /** Lower-case letters only: `ch - 'a'` is a slot of `links` for no other character. */
  predicate Lower(w: string)
  {
    forall i :: 0 <= i < |w| ==> 'a' <= w[i] <= 'z'
  }

  /** A pattern of `searchWildCard`: letters and '.'. */
  predicate Pattern(w: string)
  {
    forall i :: 0 <= i < |w| ==> w[i] == '.' || 'a' <= w[i] <= 'z'
  }

  function Slot(c: char): (s: int)
    requires 'a' <= c <= 'z'
    ensures 0 <= s < 26 && ('a' as int + s) as char == c
  {
    c as int - 'a' as int
  }

  function Letter(s: int): (c: char)
    requires 0 <= s < 26
    ensures 'a' <= c <= 'z' && Slot(c) == s
  {
    ('a' as int + s) as char
  }

  /** The 26 empty slots of a fresh `Node`. */
  function EmptyRow(): (r: seq<int>)
    ensures |r| == 26 && forall s :: 0 <= s < 26 ==> r[s] == Null
  {
    seq(26, s => Null)
  }

  /** Every row has 26 slots, and a child always sits after its parent. */
  ghost predicate Rows(links: seq<seq<int>>)
  {
    forall n :: 0 <= n < |links| ==>
      |links[n]| == 26 && forall s :: 0 <= s < 26 ==> links[n][s] == Null || n < links[n][s] < |links|
  }

  /** The arena is a tree rooted at 0: every other node has one parent
      `parentOf[m]`, through slot `slotOf[m]`, and `spelling[m]` is the word
      spelled on the way down to it. */
  ghost predicate Tree(links: seq<seq<int>>, parentOf: seq<int>, slotOf: seq<int>, spelling: seq<string>)
  {
    && Rows(links) && |links| >= 1
    && |parentOf| == |links| && |slotOf| == |links| && |spelling| == |links|
    && spelling[0] == []
    && (forall m :: 1 <= m < |links| ==>
          && 0 <= parentOf[m] < m && 0 <= slotOf[m] < 26
          && links[parentOf[m]][slotOf[m]] == m
          && spelling[m] == spelling[parentOf[m]] + [Letter(slotOf[m])])
    && (forall n, s :: 0 <= n < |links| && 0 <= s < 26 && links[n][s] != Null ==>
          parentOf[links[n][s]] == n && slotOf[links[n][s]] == s)
  }

  /** The node `traverse` reaches from n along w, or `Null`. */
  ghost function Reach(links: seq<seq<int>>, n: int, w: string): (r: int)
    requires Rows(links) && 0 <= n < |links| && Lower(w)
    ensures r == Null || n <= r < |links|
    decreases |w|
  {
    if w == [] then n
    else
      var k := links[n][Slot(w[0])];
      if k == Null then Null else Reach(links, k, w[1..])
  }

  /** The words whose end-of-word flag is set. */
  ghost function WordsOf(links: seq<seq<int>>, eow: seq<bool>, spelling: seq<string>): set<string>
    requires |eow| == |links| && |spelling| == |links|
  {
    set m | 0 <= m < |links| && eow[m] :: spelling[m]
  }

  /** What `search` answers for w. */
  ghost predicate Found(links: seq<seq<int>>, eow: seq<bool>, w: string)
    requires Rows(links) && |links| >= 1 && |eow| == |links| && Lower(w)
  {
    var n := Reach(links, 0, w);
    n != Null && eow[n]
  }

  lemma {:induction false} LabelsLower(links: seq<seq<int>>, parentOf: seq<int>, slotOf: seq<int>, spelling: seq<string>, m: int)
    requires Tree(links, parentOf, slotOf, spelling) && 0 <= m < |links|
    ensures Lower(spelling[m])
    decreases m
  {
    if m > 0 {
      LabelsLower(links, parentOf, slotOf, spelling, parentOf[m]);
    }
  }

  /** Walking u and then v is walking u + v. */
  lemma {:induction false} ReachAppend(links: seq<seq<int>>, n: int, u: string, v: string)
    requires Rows(links) && 0 <= n < |links| && Lower(u) && Lower(v)
    ensures Lower(u + v)
    ensures Reach(links, n, u + v) ==
              var k := Reach(links, n, u); if k == Null then Null else Reach(links, k, v)
    decreases |u|
  {
    assert Lower(u + v) by {
      forall i | 0 <= i < |u + v| ensures 'a' <= (u + v)[i] <= 'z' {
        if i >= |u| { assert (u + v)[i] == v[i - |u|]; }
      }
    }
    if u != [] {
      assert (u + v)[0] == u[0] && (u + v)[1..] == u[1..] + v;
      var k := links[n][Slot(u[0])];
      assert Reach(links, n, u + v) == if k == Null then Null else Reach(links, k, u[1..] + v);
      assert Reach(links, n, u) == if k == Null then Null else Reach(links, k, u[1..]);
      if k != Null {
        ReachAppend(links, k, u[1..], v);
      }
    } else {
      assert u + v == v;
    }
  }

  /** Every node is reached by its spelling. */
  lemma {:induction false} ReachLabel(links: seq<seq<int>>, parentOf: seq<int>, slotOf: seq<int>, spelling: seq<string>, m: int)
    requires Tree(links, parentOf, slotOf, spelling) && 0 <= m < |links|
    ensures Lower(spelling[m]) && Reach(links, 0, spelling[m]) == m
    decreases m
  {
    LabelsLower(links, parentOf, slotOf, spelling, m);
    if m > 0 {
      var p := parentOf[m];
      ReachLabel(links, parentOf, slotOf, spelling, p);
      var c := [Letter(slotOf[m])];
      ReachAppend(links, 0, spelling[p], c);
      assert Reach(links, p, c) == Reach(links, m, []);
    }
  }

  /** Whatever `traverse` reaches carries the word walked as its spelling. */
  lemma {:induction false} LabelOfReach(links: seq<seq<int>>, parentOf: seq<int>, slotOf: seq<int>, spelling: seq<string>, n: int, w: string)
    requires Tree(links, parentOf, slotOf, spelling) && 0 <= n < |links| && Lower(w)
    requires Reach(links, n, w) != Null
    ensures spelling[Reach(links, n, w)] == spelling[n] + w
    decreases |w|
  {
    if w != [] {
      var k := links[n][Slot(w[0])];
      LabelOfReach(links, parentOf, slotOf, spelling, k, w[1..]);
      assert spelling[k] == spelling[n] + [w[0]];
      assert w == [w[0]] + w[1..];
    }
  }

  /** `search(w)` holds exactly for the words whose flag is set. */
  lemma FoundIffWord(links: seq<seq<int>>, eow: seq<bool>, parentOf: seq<int>, slotOf: seq<int>, spelling: seq<string>, w: string)
    requires Tree(links, parentOf, slotOf, spelling) && |eow| == |links| && Lower(w)
    ensures Found(links, eow, w) <==> w in WordsOf(links, eow, spelling)
  {
    if Found(links, eow, w) {
      var n := Reach(links, 0, w);
      LabelOfReach(links, parentOf, slotOf, spelling, 0, w);
      assert spelling[n] == w;
      assert 0 <= n < |links| && eow[n];
    }
    if w in WordsOf(links, eow, spelling) {
      var m :| 0 <= m < |links| && eow[m] && spelling[m] == w;
      ReachLabel(links, parentOf, slotOf, spelling, m);
      assert Reach(links, 0, w) == m;
    }
  }

  /** Two nodes never carry the same spelling. */
  lemma LabelsDistinct(links: seq<seq<int>>, parentOf: seq<int>, slotOf: seq<int>, spelling: seq<string>, m1: int, m2: int)
    requires Tree(links, parentOf, slotOf, spelling) && 0 <= m1 < |links| && 0 <= m2 < |links|
    requires spelling[m1] == spelling[m2]
    ensures m1 == m2
  {
    ReachLabel(links, parentOf, slotOf, spelling, m1);
    ReachLabel(links, parentOf, slotOf, spelling, m2);
  }

  /** If a word is reached, so is each of its prefixes. */
  lemma {:induction false} PrefixReached(links: seq<seq<int>>, n: int, w: string, k: int)
    requires Rows(links) && 0 <= n < |links| && Lower(w) && 0 <= k <= |w|
    requires Reach(links, n, w) != Null
    ensures Lower(w[..k]) && Reach(links, n, w[..k]) != Null
    decreases |w|
  {
    assert Lower(w[..k]) by {
      forall i | 0 <= i < k ensures 'a' <= w[..k][i] <= 'z' { assert w[..k][i] == w[i]; }
    }
    if k > 0 {
      var c := links[n][Slot(w[0])];
      PrefixReached(links, c, w[1..], k - 1);
      assert w[..k][0] == w[0] && w[..k][1..] == w[1..][..k - 1];
    }
  }

  /** After `Insert(w)`, `contains(p)` for every prefix p of w. */
  lemma InsertedPrefixesContained(links: seq<seq<int>>, eow: seq<bool>, parentOf: seq<int>, slotOf: seq<int>, spelling: seq<string>, w: string, k: int)
    requires Tree(links, parentOf, slotOf, spelling) && |eow| == |links| && Lower(w) && 0 <= k <= |w|
    requires w in WordsOf(links, eow, spelling)
    ensures Lower(w[..k]) && Reach(links, 0, w[..k]) != Null
  {
    FoundIffWord(links, eow, parentOf, slotOf, spelling, w);
    PrefixReached(links, 0, w, k);
  }

  /** A node spelling a proper prefix of an inserted word has a child under
      the word's next letter. */
  lemma NextOnWord(links: seq<seq<int>>, eow: seq<bool>, parentOf: seq<int>, slotOf: seq<int>, spelling: seq<string>, node: int, w: string)
    requires Tree(links, parentOf, slotOf, spelling) && |eow| == |links| && 0 <= node < |links|
    requires Lower(w) && spelling[node] < w
    ensures w in WordsOf(links, eow, spelling) ==> links[node][Slot(w[|spelling[node]|])] != Null
  {
    if w in WordsOf(links, eow, spelling) {
      var k := |spelling[node]|;
      InsertedPrefixesContained(links, eow, parentOf, slotOf, spelling, w, k + 1);
      ReachLabel(links, parentOf, slotOf, spelling, node);
      assert w[..k + 1] == spelling[node] + [w[k]];
      ReachAppend(links, 0, spelling[node], [w[k]]);
    }
  }

  /** The node spelling an inserted word carries the end-of-word flag. */
  lemma EndOfWord(links: seq<seq<int>>, eow: seq<bool>, parentOf: seq<int>, slotOf: seq<int>, spelling: seq<string>, node: int)
    requires Tree(links, parentOf, slotOf, spelling) && |eow| == |links| && 0 <= node < |links|
    ensures spelling[node] in WordsOf(links, eow, spelling) ==> eow[node]
  {
    if spelling[node] in WordsOf(links, eow, spelling) {
      var m :| 0 <= m < |links| && eow[m] && spelling[m] == spelling[node];
      LabelsDistinct(links, parentOf, slotOf, spelling, m, node);
    }
  }

  /** Hanging a new last node under slot s of `node` keeps the tree. */
  lemma AddChild(links: seq<seq<int>>, parentOf: seq<int>, slotOf: seq<int>, spelling: seq<string>, node: int, s: int)
    requires Tree(links, parentOf, slotOf, spelling)
    requires 0 <= node < |links| && 0 <= s < 26 && links[node][s] == Null
    ensures Tree(links[node := links[node][s := |links|]] + [EmptyRow()], parentOf + [node], slotOf + [s],
                 spelling + [spelling[node] + [Letter(s)]])
  {
    var k := |links|;
    var links' := links[node := links[node][s := k]] + [EmptyRow()];
    var parentOf' := parentOf + [node];
    var slotOf' := slotOf + [s];
    AddChildRows(links, node, s);
    forall n, t | 0 <= n < |links'| && 0 <= t < 26 && links'[n][t] != Null
      ensures parentOf'[links'[n][t]] == n && slotOf'[links'[n][t]] == t
    {
      if n != node || t != s {
        assert links'[n][t] == links[n][t];
      }
    }
    forall m | 1 <= m < k
      ensures links'[parentOf'[m]][slotOf'[m]] == m
    {
      assert links[parentOf[m]][slotOf[m]] == m;
    }
  }

  lemma AddChildRows(links: seq<seq<int>>, node: int, s: int)
    requires Rows(links) && 0 <= node < |links| && 0 <= s < 26
    ensures Rows(links[node := links[node][s := |links|]] + [EmptyRow()])
  {
  }

  /** A new node with its flag clear adds no word. */
  lemma AddChildWords(links: seq<seq<int>>, eow: seq<bool>, spelling: seq<string>, links': seq<seq<int>>, w: string)
    requires |eow| == |links| && |spelling| == |links| && |links'| == |links| + 1
    ensures WordsOf(links', eow + [false], spelling + [w]) == WordsOf(links, eow, spelling)
  {
    var eow' := eow + [false];
    var spelling' := spelling + [w];
    forall x | x in WordsOf(links', eow', spelling')
      ensures x in WordsOf(links, eow, spelling)
    {
      var m :| 0 <= m < |links'| && eow'[m] && spelling'[m] == x;
      assert m < |links|;
    }
    forall x | x in WordsOf(links, eow, spelling)
      ensures x in WordsOf(links', eow', spelling')
    {
      var m :| 0 <= m < |links| && eow[m] && spelling[m] == x;
      assert eow'[m] && spelling'[m] == x;
    }
  }

  /** Setting the flag of `node` adds its spelling to the words. */
  lemma MarkWord(links: seq<seq<int>>, eow: seq<bool>, spelling: seq<string>, node: int)
    requires |eow| == |links| && |spelling| == |links| && 0 <= node < |links|
    ensures WordsOf(links, eow[node := true], spelling) == WordsOf(links, eow, spelling) + {spelling[node]}
  {
  }

  /** What `searchWildCard(n, w)` answers. On '.' it tries the first child
      slot only: the for-each over `links` returns after its first element. */
  ghost function Wild(links: seq<seq<int>>, eow: seq<bool>, n: int, w: string): bool
    requires Rows(links) && |eow| == |links| && 0 <= n < |links| && Pattern(w)
    decreases |w|
  {
    if w == [] then eow[n]
    else if w[0] == '.' then links[n][0] != Null && Wild(links, eow, links[n][0], w[1..])
    else
      var k := links[n][Slot(w[0])];
      k != Null && Wild(links, eow, k, w[1..])
  }

  /** A pattern without '.' is matched exactly as `search` matches it. */
  lemma {:induction false} WildWithoutDots(links: seq<seq<int>>, eow: seq<bool>, n: int, w: string)
    requires Rows(links) && |eow| == |links| && 0 <= n < |links| && Lower(w)
    ensures Pattern(w)
    ensures Wild(links, eow, n, w) <==> (var r := Reach(links, n, w); r != Null && eow[r])
    decreases |w|
  {
    if w != [] {
      var k := links[n][Slot(w[0])];
      if k != Null {
        WildWithoutDots(links, eow, k, w[1..]);
      }
    }
  }

  /** The stack entries of `printTrie` for the children of n in slots below
      i, in push order, each paired with its word. */
  function Children(links: seq<seq<int>>, n: int, word: string, i: int): (r: seq<(int, string)>)
    requires 0 <= n < |links| && |links[n]| == 26 && 0 <= i <= 26
    ensures |r| <= i
  {
    if i == 0 then []
    else
      var pushed := Children(links, n, word, i - 1);
      if links[n][i - 1] != Null then pushed + [(links[n][i - 1], word + [Letter(i - 1)])] else pushed
  }

  /** The nodes on a stack. */
  function Nodes(st: seq<(int, string)>): set<int>
  {
    set k | 0 <= k < |st| :: st[k].0
  }

  /** Stack entries that are children of n in slots below i, once each,
      paired with their words. */
  ghost predicate ChildEntries(r: seq<(int, string)>, parentOf: seq<int>, slotOf: seq<int>, spelling: seq<string>, n: int, i: int)
    requires |slotOf| == |parentOf| && |spelling| == |parentOf|
  {
    && (forall k :: 0 <= k < |r| ==>
          && 0 < r[k].0 < |parentOf| && parentOf[r[k].0] == n && slotOf[r[k].0] < i
          && r[k].1 == spelling[r[k].0])
    && (forall k1, k2 :: 0 <= k1 < k2 < |r| ==> r[k1].0 != r[k2].0)
  }

  /** The pushed entries are children of n in slots below i, once each,
      with their words. */
  lemma {:induction false} ChildrenSound(links: seq<seq<int>>, parentOf: seq<int>, slotOf: seq<int>, spelling: seq<string>, n: int, i: int)
    requires Tree(links, parentOf, slotOf, spelling) && 0 <= n < |links| && 0 <= i <= 26
    ensures ChildEntries(Children(links, n, spelling[n], i), parentOf, slotOf, spelling, n, i)
  {
    if i > 0 {
      ChildrenSound(links, parentOf, slotOf, spelling, n, i - 1);
      var m := links[n][i - 1];
      var pushed := Children(links, n, spelling[n], i - 1);
      if m != Null {
        assert 0 < m < |links| && parentOf[m] == n && slotOf[m] == i - 1;
        assert spelling[m] == spelling[n] + [Letter(i - 1)];
        PushChild(pushed, Children(links, n, spelling[n], i), parentOf, slotOf, spelling, n, i, m);
      } else {
        assert Children(links, n, spelling[n], i) == pushed;
      }
    }
  }

  /** Pushing the child in slot i - 1 after the children in lower slots. */
  lemma PushChild(pushed: seq<(int, string)>, r: seq<(int, string)>, parentOf: seq<int>, slotOf: seq<int>,
                  spelling: seq<string>, n: int, i: int, m: int)
    requires |slotOf| == |parentOf| && |spelling| == |parentOf|
    requires ChildEntries(pushed, parentOf, slotOf, spelling, n, i - 1)
    requires 0 < m < |parentOf| && parentOf[m] == n && slotOf[m] == i - 1
    requires r == pushed + [(m, spelling[m])]
    ensures ChildEntries(r, parentOf, slotOf, spelling, n, i)
  {
    forall k1, k2 | 0 <= k1 < k2 < |r| ensures r[k1].0 != r[k2].0 {
      if k2 == |pushed| {
        assert slotOf[r[k1].0] < i - 1;
      }
    }
  }

  /** Every child of n in a slot below i is pushed. */
  lemma {:induction false} ChildrenComplete(links: seq<seq<int>>, parentOf: seq<int>, slotOf: seq<int>, spelling: seq<string>, n: int, i: int)
    requires Tree(links, parentOf, slotOf, spelling) && 0 <= n < |links| && 0 <= i <= 26
    ensures forall m :: 0 < m < |links| && parentOf[m] == n && slotOf[m] < i ==> m in Nodes(Children(links, n, spelling[n], i))
  {
    if i > 0 {
      ChildrenComplete(links, parentOf, slotOf, spelling, n, i - 1);
      var pushed := Children(links, n, spelling[n], i - 1);
      var r := Children(links, n, spelling[n], i);
      assert Nodes(pushed) <= Nodes(r) by {
        forall x | x in Nodes(pushed) ensures x in Nodes(r) {
          var k :| 0 <= k < |pushed| && pushed[k].0 == x;
          assert r[k] == pushed[k];
        }
      }
      forall m | 0 < m < |links| && parentOf[m] == n && slotOf[m] == i - 1
        ensures m in Nodes(r)
      {
        assert links[n][i - 1] == m;
        assert r[|r| - 1].0 == m;
      }
    }
  }

  /** x begins some word of `words`. */
  ghost predicate Begins(x: string, words: set<string>)
  {
    exists w :: w in words && x <= w
  }

  /** Every node other than the root lies on the way to some word of `words`:
      nodes are only ever created by `Insert`. */
  ghost predicate Covered(spelling: seq<string>, words: set<string>)
  {
    forall m :: 1 <= m < |spelling| ==> Begins(spelling[m], words)
  }

  lemma CoveredAdd(spelling: seq<string>, words: set<string>, x: string, w: string)
    requires Covered(spelling, words) && w in words && x <= w
    ensures Covered(spelling + [x], words)
  {
    var spelling' := spelling + [x];
    forall m | 1 <= m < |spelling'| ensures Begins(spelling'[m], words) {
      if m < |spelling| {
        assert spelling'[m] == spelling[m];
      }
    }
  }

  lemma CoveredGrow(spelling: seq<string>, words: set<string>, more: set<string>)
    requires Covered(spelling, words) && words <= more
    ensures Covered(spelling, more)
  {
    forall m | 1 <= m < |spelling| ensures Begins(spelling[m], more) {
      assert Begins(spelling[m], words);
      var w :| w in words && spelling[m] <= w;
      assert w in more;
    }
  }

  /** `contains(p)` holds exactly for the empty prefix and the prefixes of
      inserted words. */
  lemma ContainsIffPrefix(links: seq<seq<int>>, eow: seq<bool>, parentOf: seq<int>, slotOf: seq<int>, spelling: seq<string>, p: string)
    requires Tree(links, parentOf, slotOf, spelling) && |eow| == |links| && Lower(p)
    requires Covered(spelling, WordsOf(links, eow, spelling))
    ensures Reach(links, 0, p) != Null <==> (p == [] || exists w :: w in WordsOf(links, eow, spelling) && p <= w)
  {
    var words := WordsOf(links, eow, spelling);
    var m := Reach(links, 0, p);
    if m != Null {
      LabelOfReach(links, parentOf, slotOf, spelling, 0, p);
      assert spelling[m] == p;
      if m != 0 {
        assert Begins(spelling[m], words);
      }
    }
    if p != [] && exists w :: w in words && p <= w {
      var w :| w in words && p <= w;
      assert Lower(w) by {
        var k :| 0 <= k < |links| && eow[k] && spelling[k] == w;
        LabelsLower(links, parentOf, slotOf, spelling, k);
      }
      InsertedPrefixesContained(links, eow, parentOf, slotOf, spelling, w, |p|);
      assert w[..|p|] == p;
    }
  }

  /** The trie of `TrieNode`: `root` is node 0 of the arena. */
  class TrieNode {
    var links: seq<seq<int>>
    var eow: seq<bool>
    ghost var parentOf: seq<int>
    ghost var slotOf: seq<int>
    ghost var spelling: seq<string>

    ghost predicate Valid()
      reads this
    {
      && Tree(links, parentOf, slotOf, spelling) && |eow| == |links|
      && Covered(spelling, WordsOf(links, eow, spelling))
    }

    /** The words inserted so far. */
    ghost function Words(): set<string>
      reads this
      requires Valid()
    {
      WordsOf(links, eow, spelling)
    }

    constructor ()
      ensures Valid() && Words() == {}
    {
      links := [EmptyRow()];
      eow := [false];
      parentOf := [Null];
      slotOf := [0];
      spelling := [[]];
    }

    /** Walks w from the root, creating the missing nodes, and flags the last one. */
    method Insert(word: string)
      requires Valid() && Lower(word)
      modifies this
      ensures Valid() && Words() == old(Words()) + {word}
    {
      var node := 0;
      var i := 0;
      ghost var words := WordsOf(links, eow, spelling) + {word};
      CoveredGrow(spelling, WordsOf(links, eow, spelling), words);
      while i < |word|
        invariant 0 <= i <= |word|
        invariant Tree(links, parentOf, slotOf, spelling) && |eow| == |links|
        invariant 0 <= node < |links| && spelling[node] == word[..i]
        invariant WordsOf(links, eow, spelling) == old(Words())
        invariant Covered(spelling, words)
      {
        var s := Slot(word[i]);
        assert word[..i + 1] == word[..i] + [Letter(s)];
        if links[node][s] == Null {
          CoveredAdd(spelling, words, word[..i + 1], word);
          AddNode(node, s);
        }
        node := links[node][s];
        i := i + 1;
      }
      assert word[..i] == word;
      MarkWord(links, eow, spelling, node);
      eow := eow[node := true];
    }

    /** `node.put(c, new Node())`: a fresh node with no children and its flag
        clear hangs under slot s of `node`. */
    method AddNode(node: int, s: int)
      requires Tree(links, parentOf, slotOf, spelling) && |eow| == |links|
      requires 0 <= node < |links| && 0 <= s < 26 && links[node][s] == Null
      modifies this
      ensures links == old(links[node := links[node][s := |links|]] + [EmptyRow()])
      ensures eow == old(eow) + [false]
      ensures parentOf == old(parentOf) + [node] && slotOf == old(slotOf) + [s]
      ensures spelling == old(spelling + [spelling[node] + [Letter(s)]])
      ensures Tree(links, parentOf, slotOf, spelling) && |eow| == |links|
      ensures WordsOf(links, eow, spelling) == old(WordsOf(links, eow, spelling))
    {
      AddChild(links, parentOf, slotOf, spelling, node, s);
      var links' := links[node := links[node][s := |links|]] + [EmptyRow()];
      AddChildWords(links, eow, spelling, links', spelling[node] + [Letter(s)]);
      spelling := spelling + [spelling[node] + [Letter(s)]];
      links := links';
      eow := eow + [false];
      parentOf := parentOf + [node];
      slotOf := slotOf + [s];
    }

    /** The node `word` leads to from the root, or `Null`. */
    method Traverse(word: string) returns (n: int)
      requires Valid() && Lower(word)
      ensures n == Reach(links, 0, word)
      ensures n != Null ==> 0 <= n < |links| && spelling[n] == word
    {
      n := 0;
      var i := 0;
      while i < |word|
        invariant 0 <= i <= |word| && 0 <= n < |links|
        invariant Reach(links, 0, word) == Reach(links, n, word[i..])
      {
        var k := links[n][Slot(word[i])];
        if k == Null {
          return Null;
        }
        n := k;
        i := i + 1;
      }
      if n != Null {
        LabelOfReach(links, parentOf, slotOf, spelling, 0, word);
      }
    }

    method Search(word: string) returns (b: bool)
      requires Valid() && Lower(word)
      ensures b <==> word in Words()
    {
      var n := Traverse(word);
      b := n != Null && eow[n];
      FoundIffWord(links, eow, parentOf, slotOf, spelling, word);
    }

    method Contains(prefix: string) returns (b: bool)
      requires Valid() && Lower(prefix)
      ensures b <==> (prefix == [] || exists w :: w in Words() && prefix <= w)
    {
      var n := Traverse(prefix);
      b := n != Null;
      ContainsIffPrefix(links, eow, parentOf, slotOf, spelling, prefix);
      assert Words() == WordsOf(links, eow, spelling);
    }

    /** `searchWildCard(root, word)`. */
    method WildCardSearch(word: string) returns (b: bool)
      requires Valid() && Pattern(word)
      ensures b == Wild(links, eow, 0, word)
    {
      b := SearchWildCard(0, word);
    }

    /** Follows the letters of `word` from `temp`; on '.' it answers for the
        child in slot 0 alone. */
    method SearchWildCard(temp: int, word: string) returns (b: bool)
      requires Valid() && 0 <= temp < |links| && Pattern(word)
      ensures b == Wild(links, eow, temp, word)
      decreases |word|
    {
      var t := temp;
      var i := 0;
      while i < |word|
        invariant 0 <= i <= |word| && 0 <= t < |links|
        invariant Wild(links, eow, temp, word) == Wild(links, eow, t, word[i..])
      {
        var c := word[i];
        assert word[i..][1..] == word[i + 1..];
        if c == '.' {
          var first := links[t][0];
          if first != Null {
            b := SearchWildCard(first, word[i + 1..]);
            return;
          }
          return false;
        } else if links[t][Slot(c)] != Null {
          t := links[t][Slot(c)];
        } else {
          return false;
        }
        i := i + 1;
      }
      b := eow[t];
    }

    /** `wildCardSearch` with '.' trying every child. */
    method WildCardSearchFixed(word: string) returns (b: bool)
      requires Valid() && Pattern(word)
      ensures b <==> exists w :: w in Words() && Matches(w, word)
    {
      b := SearchWildCardFixed(0, word);
      WildAnyIffMatchingWord(links, eow, parentOf, slotOf, spelling, word);
      assert Words() == WordsOf(links, eow, spelling);
    }

    method SearchWildCardFixed(temp: int, word: string) returns (b: bool)
      requires Valid() && 0 <= temp < |links| && Pattern(word)
      ensures b == WildAny(links, eow, temp, word)
      decreases |word|, 0
    {
      var t := temp;
      var i := 0;
      while i < |word|
        invariant 0 <= i <= |word| && 0 <= t < |links|
        invariant WildAny(links, eow, temp, word) == WildAny(links, eow, t, word[i..])
      {
        var c := word[i];
        assert word[i..][1..] == word[i + 1..];
        if c == '.' {
          b := AnyChildMatches(t, word[i + 1..]);
          return;
        } else if links[t][Slot(c)] != Null {
          t := links[t][Slot(c)];
        } else {
          return false;
        }
        i := i + 1;
      }
      b := eow[t];
    }

    /** The corrected loop over the children for a '.': true exactly when
        the rest of the pattern matches below some child of t. */
    method AnyChildMatches(t: int, rest: string) returns (b: bool)
      requires Valid() && 0 <= t < |links| && Pattern(rest)
      ensures b == exists s :: 0 <= s < 26 && links[t][s] != Null && WildAny(links, eow, links[t][s], rest)
      decreases |rest|, 1
    {
      var s := 0;
      while s < 26
        invariant 0 <= s <= 26
        invariant forall s' :: 0 <= s' < s && links[t][s'] != Null ==> !WildAny(links, eow, links[t][s'], rest)
      {
        if links[t][s] != Null {
          b := SearchWildCardFixed(links[t][s], rest);
          if b {
            return;
          }
        }
        s := s + 1;
      }
      return false;
    }

    /** Pops nodes off a stack of (node, word) pairs, counting the flagged
        ones and pushing their children: returns the number of words. */
    method PrintTrie() returns (count: int)
      requires Valid()
      ensures count == |Words()|
    {
      var st: seq<(int, string)> := [(0, [])];
      ghost var visited: set<int> := {};
      count := 0;
      NodesOne((0, []));
      while st != []
        invariant Dfs(links, eow, parentOf, slotOf, spelling, st, visited, count)
        decreases Below(|links|) - visited
      {
        var top := st[|st| - 1];
        ghost var before := st;
        st := st[..|st| - 1];
        var n := top.0;
        var word := top.1;
        if eow[n] {
          count := count + 1;
        }
        var i := 0;
        ghost var base := st;
        while i < 26
          invariant 0 <= i <= 26
          invariant st == base + Children(links, n, word, i)
        {
          if links[n][i] != Null {
            st := st + [(links[n][i], word + [Letter(i)])];
          }
          i := i + 1;
        }
        PopStep(links, eow, parentOf, slotOf, spelling, before, visited, if eow[n] then count - 1 else count);
        visited := visited + {n};
      }
      DfsDone(links, eow, parentOf, slotOf, spelling, visited, count);
    }
  }

  /** What `searchWildCard` evidently means: '.' stands for any letter. */
  ghost function WildAny(links: seq<seq<int>>, eow: seq<bool>, n: int, w: string): bool
    requires Rows(links) && |eow| == |links| && 0 <= n < |links| && Pattern(w)
    decreases |w|
  {
    if w == [] then eow[n]
    else if w[0] == '.' then
      exists s :: 0 <= s < 26 && links[n][s] != Null && WildAny(links, eow, links[n][s], w[1..])
    else
      var k := links[n][Slot(w[0])];
      k != Null && WildAny(links, eow, k, w[1..])
  }

  /** w is spelled as the pattern p, each '.' standing for any one letter. */
  predicate Matches(w: string, p: string)
  {
    |w| == |p| && forall i :: 0 <= i < |p| ==> p[i] == '.' || p[i] == w[i]
  }

  /** Walking w from n ends on a flagged node. */
  ghost predicate Accepts(links: seq<seq<int>>, eow: seq<bool>, n: int, w: string)
    requires Rows(links) && |eow| == |links| && 0 <= n < |links|
  {
    Lower(w) && var r := Reach(links, n, w); r != Null && eow[r]
  }

  lemma {:induction false} WildAnyAccepts(links: seq<seq<int>>, eow: seq<bool>, n: int, p: string)
    requires Rows(links) && |eow| == |links| && 0 <= n < |links| && Pattern(p)
    ensures WildAny(links, eow, n, p) <==> exists w :: Matches(w, p) && Accepts(links, eow, n, w)
  {
    if WildAny(links, eow, n, p) {
      var w := WildWitness(links, eow, n, p);
    }
    if exists w :: Matches(w, p) && Accepts(links, eow, n, w) {
      var w :| Matches(w, p) && Accepts(links, eow, n, w);
      AcceptsWildAny(links, eow, n, p, w);
    }
  }

  /** A word the corrected search accepts for p. */
  lemma {:induction false} WildWitness(links: seq<seq<int>>, eow: seq<bool>, n: int, p: string) returns (w: string)
    requires Rows(links) && |eow| == |links| && 0 <= n < |links| && Pattern(p)
    requires WildAny(links, eow, n, p)
    ensures Matches(w, p) && Accepts(links, eow, n, w)
    decreases |p|
  {
    if p == [] {
      w := [];
    } else {
      var s: int;
      if p[0] == '.' {
        s :| 0 <= s < 26 && links[n][s] != Null && WildAny(links, eow, links[n][s], p[1..]);
      } else {
        s := Slot(p[0]);
      }
      var k := links[n][s];
      var w' := WildWitness(links, eow, k, p[1..]);
      w := [Letter(s)] + w';
      assert w[1..] == w';
      assert Matches(w, p);
      assert Accepts(links, eow, n, w);
    }
  }

  /** Every word matching p that leads to a flagged node is found. */
  lemma {:induction false} AcceptsWildAny(links: seq<seq<int>>, eow: seq<bool>, n: int, p: string, w: string)
    requires Rows(links) && |eow| == |links| && 0 <= n < |links| && Pattern(p)
    requires Matches(w, p) && Accepts(links, eow, n, w)
    ensures WildAny(links, eow, n, p)
    decreases |p|
  {
    if p != [] {
      var k := links[n][Slot(w[0])];
      assert k != Null;
      assert Matches(w[1..], p[1..]) && Accepts(links, eow, k, w[1..]);
      AcceptsWildAny(links, eow, k, p[1..], w[1..]);
    }
  }

  /** The corrected search finds exactly the patterns some inserted word matches. */
  lemma WildAnyIffMatchingWord(links: seq<seq<int>>, eow: seq<bool>, parentOf: seq<int>, slotOf: seq<int>, spelling: seq<string>, p: string)
    requires Tree(links, parentOf, slotOf, spelling) && |eow| == |links| && Pattern(p)
    ensures WildAny(links, eow, 0, p) <==> exists w :: w in WordsOf(links, eow, spelling) && Matches(w, p)
  {
    WildAnyAccepts(links, eow, 0, p);
    forall w | Matches(w, p) && Accepts(links, eow, 0, w)
      ensures w in WordsOf(links, eow, spelling)
    {
      FoundIffWord(links, eow, parentOf, slotOf, spelling, w);
    }
    forall w | w in WordsOf(links, eow, spelling) && Matches(w, p)
      ensures Accepts(links, eow, 0, w)
    {
      var m :| 0 <= m < |links| && eow[m] && spelling[m] == w;
      LabelsLower(links, parentOf, slotOf, spelling, m);
      FoundIffWord(links, eow, parentOf, slotOf, spelling, w);
    }
  }

  /** Whatever the search as written finds, the corrected one finds too. */
  lemma {:induction false} WildSound(links: seq<seq<int>>, eow: seq<bool>, n: int, p: string)
    requires Rows(links) && |eow| == |links| && 0 <= n < |links| && Pattern(p)
    requires Wild(links, eow, n, p)
    ensures WildAny(links, eow, n, p)
    decreases |p|
  {
    if p != [] {
      var k := if p[0] == '.' then links[n][0] else links[n][Slot(p[0])];
      WildSound(links, eow, k, p[1..]);
    }
  }

  /** No node hangs under slot 'a' of the root when no word starts with 'a'. */
  lemma NoChildA(links: seq<seq<int>>, eow: seq<bool>, parentOf: seq<int>, slotOf: seq<int>, spelling: seq<string>)
    requires Tree(links, parentOf, slotOf, spelling) && |eow| == |links|
    requires Covered(spelling, WordsOf(links, eow, spelling))
    requires forall w :: w in WordsOf(links, eow, spelling) ==> w == [] || w[0] != 'a'
    ensures links[0][0] == Null
  {
    var k := links[0][0];
    if k != Null {
      assert false;
    }
  }

  /** The trie `TrieDataStructure.main` builds. */
  method DemoTrie() returns (t: TrieNode)
    ensures fresh(t) && t.Valid() && t.Words() == {"bad", "dad", "mad"}
  {
    t := new TrieNode();
    t.Insert("bad");
    t.Insert("dad");
    t.Insert("mad");
  }

  /** The demonstration of `TrieDataStructure.main`: with "bad", "dad" and
      "mad" inserted, ".ad" is not found as written, though every inserted
      word matches it. */
  method DemoWildCard() returns (exact: bool, dotted: bool, dottedFixed: bool)
    ensures exact && !dotted && dottedFixed
  {
    var t := DemoTrie();
    exact := t.WildCardSearch("bad");
    WildWithoutDots(t.links, t.eow, 0, "bad");
    FoundIffWord(t.links, t.eow, t.parentOf, t.slotOf, t.spelling, "bad");
    dotted := t.WildCardSearch(".ad");
    NoChildA(t.links, t.eow, t.parentOf, t.slotOf, t.spelling);
    dottedFixed := t.WildCardSearchFixed(".ad");
    assert Matches("bad", ".ad");
  }

  /** The integers 0 to n - 1. */
  function Below(n: int): (r: set<int>)
    ensures forall m :: m in r <==> 0 <= m < n
    decreases n
  {
    if n <= 0 then {} else Below(n - 1) + {n - 1}
  }

  /** The words of the flagged nodes among `visited`. */
  ghost function Flagged(eow: seq<bool>, spelling: seq<string>, visited: set<int>): set<string>
    requires |spelling| == |eow|
  {
    set m | m in visited && 0 <= m < |eow| && eow[m] :: spelling[m]
  }

  /** Stack entries name nodes outside `visited`, each with its word. */
  ghost predicate Entries(st: seq<(int, string)>, spelling: seq<string>, visited: set<int>)
  {
    forall k :: 0 <= k < |st| ==> 0 <= st[k].0 < |spelling| && st[k].1 == spelling[st[k].0] && st[k].0 !in visited
  }

  /** No node is on the stack twice. */
  ghost predicate NodesOnce(st: seq<(int, string)>)
  {
    forall k1, k2 :: 0 <= k1 < k2 < |st| ==> st[k1].0 != st[k2].0
  }

  /** A node whose parent has been visited is visited or stacked. */
  ghost predicate Closed(parentOf: seq<int>, visited: set<int>, stacked: set<int>)
  {
    forall m :: 1 <= m < |parentOf| && parentOf[m] in visited ==> m in visited || m in stacked
  }

  /** A visited or stacked node other than the root has a visited parent. */
  ghost predicate Rooted(parentOf: seq<int>, visited: set<int>, stacked: set<int>)
  {
    forall m :: 1 <= m < |parentOf| && (m in visited || m in stacked) ==> parentOf[m] in visited
  }

  /** The state of `printTrie` at the head of its loop: the stack holds
      unvisited nodes with their words, once each; a node is visited or
      stacked exactly when its parent has been visited (the root when it is
      stacked at first); `count` counts the words of the visited nodes. */
  ghost predicate Dfs(links: seq<seq<int>>, eow: seq<bool>, parentOf: seq<int>, slotOf: seq<int>, spelling: seq<string>,
                      st: seq<(int, string)>, visited: set<int>, count: int)
  {
    && Tree(links, parentOf, slotOf, spelling) && |eow| == |links|
    && Entries(st, spelling, visited) && NodesOnce(st)
    && (forall m :: m in visited ==> 0 <= m < |links|)
    && (0 in visited || 0 in Nodes(st))
    && Closed(parentOf, visited, Nodes(st))
    && Rooted(parentOf, visited, Nodes(st))
    && count == |Flagged(eow, spelling, visited)|
  }

  lemma NodesAppend(a: seq<(int, string)>, b: seq<(int, string)>)
    ensures Nodes(a + b) == Nodes(a) + Nodes(b)
  {
    forall x | x in Nodes(a + b) ensures x in Nodes(a) + Nodes(b) {
      var k :| 0 <= k < |a + b| && (a + b)[k].0 == x;
      if k >= |a| {
        assert b[k - |a|].0 == x;
      }
    }
    forall x | x in Nodes(a) + Nodes(b) ensures x in Nodes(a + b) {
      if x in Nodes(a) {
        var k :| 0 <= k < |a| && a[k].0 == x;
        assert (a + b)[k].0 == x;
      } else {
        var k :| 0 <= k < |b| && b[k].0 == x;
        assert (a + b)[|a| + k].0 == x;
      }
    }
  }

  lemma NodesOne(e: (int, string))
    ensures Nodes([e]) == {e.0}
  {
    assert [e][0].0 == e.0;
  }

  /** Visiting an unvisited node n adds its word when it is flagged. */
  lemma FlaggedStep(links: seq<seq<int>>, eow: seq<bool>, parentOf: seq<int>, slotOf: seq<int>, spelling: seq<string>, visited: set<int>, n: int)
    requires Tree(links, parentOf, slotOf, spelling) && |eow| == |links|
    requires forall m :: m in visited ==> 0 <= m < |links|
    requires 0 <= n < |links| && n !in visited
    ensures |Flagged(eow, spelling, visited + {n})| == |Flagged(eow, spelling, visited)| + if eow[n] then 1 else 0
  {
    var before := Flagged(eow, spelling, visited);
    if eow[n] {
      assert Flagged(eow, spelling, visited + {n}) == before + {spelling[n]};
      if spelling[n] in before {
        var m :| m in visited && 0 <= m < |eow| && eow[m] && spelling[m] == spelling[n];
        LabelsDistinct(links, parentOf, slotOf, spelling, m, n);
      }
    } else {
      assert Flagged(eow, spelling, visited + {n}) == before;
    }
  }

  /** The children of n are the nodes whose parent is n. */
  lemma KidsNodes(links: seq<seq<int>>, parentOf: seq<int>, slotOf: seq<int>, spelling: seq<string>, n: int)
    requires Tree(links, parentOf, slotOf, spelling) && 0 <= n < |links|
    ensures var kids := Children(links, n, spelling[n], 26);
            && ChildEntries(kids, parentOf, slotOf, spelling, n, 26)
            && forall m :: 1 <= m < |links| ==> (m in Nodes(kids) <==> parentOf[m] == n)
  {
    var kids := Children(links, n, spelling[n], 26);
    ChildrenSound(links, parentOf, slotOf, spelling, n, 26);
    ChildrenComplete(links, parentOf, slotOf, spelling, n, 26);
    forall m | m in Nodes(kids) ensures parentOf[m] == n {
      var k :| 0 <= k < |kids| && kids[k].0 == m;
    }
  }

  /** Visiting n and stacking its children keeps `Closed`. */
  lemma PopClosed(parentOf: seq<int>, visited: set<int>, rest: set<int>, kids: set<int>, n: int)
    requires Closed(parentOf, visited, rest + {n})
    requires forall m :: 1 <= m < |parentOf| && parentOf[m] == n ==> m in kids
    ensures Closed(parentOf, visited + {n}, rest + kids)
  {
  }

  /** The root stays visited or stacked. */
  lemma PopRoot(visited: set<int>, rest: set<int>, kids: set<int>, n: int)
    requires 0 in visited || 0 in rest + {n}
    ensures 0 in visited + {n} || 0 in rest + kids
  {
  }

  /** Visiting n and stacking its children keeps `Rooted`. */
  lemma PopRooted(parentOf: seq<int>, visited: set<int>, rest: set<int>, kids: set<int>, n: int)
    requires Rooted(parentOf, visited, rest + {n})
    requires forall m :: 1 <= m < |parentOf| && m in kids ==> parentOf[m] == n
    ensures Rooted(parentOf, visited + {n}, rest + kids)
  {
  }

  /** The children of an unvisited node are neither visited nor stacked. */
  lemma KidsFresh(parentOf: seq<int>, visited: set<int>, stacked: set<int>, kids: set<int>, n: int)
    requires Rooted(parentOf, visited, stacked) && n !in visited
    requires forall m :: m in kids ==> 1 <= m < |parentOf| && parentOf[m] == n
    ensures forall m :: m in kids ==> m !in visited && m !in stacked
  {
  }

  /** Popping the top entry and pushing the children of its node keeps the
      entries fresh and distinct. */
  lemma PopEntries(spelling: seq<string>, visited: set<int>, base: seq<(int, string)>, n: int, kids: seq<(int, string)>)
    requires Entries(base, spelling, visited) && NodesOnce(base) && n !in Nodes(base)
    requires Entries(kids, spelling, visited) && NodesOnce(kids)
    requires forall m :: m in Nodes(kids) ==> m !in Nodes(base) && m != n
    ensures Entries(base + kids, spelling, visited + {n}) && NodesOnce(base + kids)
  {
    var st' := base + kids;
    forall k | 0 <= k < |st'| ensures 0 <= st'[k].0 < |spelling| && st'[k].1 == spelling[st'[k].0] && st'[k].0 !in visited + {n} {
      if k < |base| {
        assert st'[k] == base[k] && base[k].0 in Nodes(base);
      } else {
        assert st'[k] == kids[k - |base|] && kids[k - |base|].0 in Nodes(kids);
      }
    }
    forall k1, k2 | 0 <= k1 < k2 < |st'| ensures st'[k1].0 != st'[k2].0 {
      if k1 < |base| <= k2 {
        assert st'[k1].0 in Nodes(base);
        assert st'[k2] == kids[k2 - |base|] && kids[k2 - |base|].0 in Nodes(kids);
      } else if |base| <= k1 {
        assert st'[k1] == kids[k1 - |base|] && st'[k2] == kids[k2 - |base|];
      }
    }
  }

  /** Popping the top entry leaves fresh, distinct entries without its node. */
  lemma StackPop(st: seq<(int, string)>, spelling: seq<string>, visited: set<int>)
    requires Entries(st, spelling, visited) && NodesOnce(st) && st != []
    ensures var base := st[..|st| - 1];
            && st == base + [st[|st| - 1]] && Nodes(st) == Nodes(base) + Nodes([st[|st| - 1]])
            && Entries(base, spelling, visited) && NodesOnce(base) && st[|st| - 1].0 !in Nodes(base)
            && 0 <= st[|st| - 1].0 < |spelling| && st[|st| - 1].1 == spelling[st[|st| - 1].0] && st[|st| - 1].0 !in visited
  {
    var base := st[..|st| - 1];
    assert st == base + [st[|st| - 1]];
    NodesAppend(base, [st[|st| - 1]]);
  }

  lemma BelowShrinks(size: int, visited: set<int>, n: int)
    requires 0 <= n < size && n !in visited
    ensures Below(size) - (visited + {n}) < Below(size) - visited
  {
    assert n in Below(size) - visited;
  }

  /** One turn of the loop of `printTrie` keeps `Dfs`. */
  lemma PopStep(links: seq<seq<int>>, eow: seq<bool>, parentOf: seq<int>, slotOf: seq<int>, spelling: seq<string>,
                st: seq<(int, string)>, visited: set<int>, count: int)
    requires Dfs(links, eow, parentOf, slotOf, spelling, st, visited, count) && st != []
    ensures var n := st[|st| - 1].0;
            var st' := st[..|st| - 1] + Children(links, n, st[|st| - 1].1, 26);
            && n !in visited && Below(|links|) - (visited + {n}) < Below(|links|) - visited
            && Dfs(links, eow, parentOf, slotOf, spelling, st', visited + {n}, count + if eow[n] then 1 else 0)
  {
    var n := st[|st| - 1].0;
    var base := st[..|st| - 1];
    var kids := Children(links, n, st[|st| - 1].1, 26);
    PopStack(links, parentOf, slotOf, spelling, st, visited);
    BelowShrinks(|links|, visited, n);
    PopClosed(parentOf, visited, Nodes(base), Nodes(kids), n);
    PopRooted(parentOf, visited, Nodes(base), Nodes(kids), n);
    PopRoot(visited, Nodes(base), Nodes(kids), n);
    FlaggedStep(links, eow, parentOf, slotOf, spelling, visited, n);
  }

  /** The stack part of one turn: the top node is replaced by its children,
      which are fresh, and the entries stay well formed. */
  lemma PopStack(links: seq<seq<int>>, parentOf: seq<int>, slotOf: seq<int>, spelling: seq<string>,
                 st: seq<(int, string)>, visited: set<int>)
    requires Tree(links, parentOf, slotOf, spelling) && Entries(st, spelling, visited) && NodesOnce(st) && st != []
    requires Rooted(parentOf, visited, Nodes(st))
    ensures var n := st[|st| - 1].0;
            var base := st[..|st| - 1];
            var kids := Children(links, n, st[|st| - 1].1, 26);
            && 0 <= n < |links| && n !in visited && Nodes(st) == Nodes(base) + {n}
            && Entries(base + kids, spelling, visited + {n}) && NodesOnce(base + kids)
            && Nodes(base + kids) == Nodes(base) + Nodes(kids)
            && forall m :: 1 <= m < |links| ==> (m in Nodes(kids) <==> parentOf[m] == n)
  {
    var top := st[|st| - 1];
    var n := top.0;
    var base := st[..|st| - 1];
    var kids := Children(links, n, spelling[n], 26);
    StackPop(st, spelling, visited);
    NodesOne(top);
    NodesAppend(base, kids);
    KidsNodes(links, parentOf, slotOf, spelling, n);
    KidsFresh(parentOf, visited, Nodes(st), Nodes(kids), n);
    PopEntries(spelling, visited, base, n, kids);
  }

  /** When the stack is empty every node has been visited, and the count is
      the number of words. */
  lemma DfsDone(links: seq<seq<int>>, eow: seq<bool>, parentOf: seq<int>, slotOf: seq<int>, spelling: seq<string>,
                visited: set<int>, count: int)
    requires Dfs(links, eow, parentOf, slotOf, spelling, [], visited, count)
    ensures count == |WordsOf(links, eow, spelling)|
  {
    assert Nodes([]) == {};
    AllVisited(links, eow, parentOf, slotOf, spelling, visited, count, |links|);
    assert Flagged(eow, spelling, visited) == WordsOf(links, eow, spelling);
  }

  lemma {:induction false} AllVisited(links: seq<seq<int>>, eow: seq<bool>, parentOf: seq<int>, slotOf: seq<int>, spelling: seq<string>,
                                      visited: set<int>, count: int, k: int)
    requires Dfs(links, eow, parentOf, slotOf, spelling, [], visited, count) && 0 <= k <= |links|
    ensures forall m :: 0 <= m < k ==> m in visited
  {
    assert Nodes([]) == {};
    if k > 0 {
      AllVisited(links, eow, parentOf, slotOf, spelling, visited, count, k - 1);
      if k - 1 >= 1 {
        assert parentOf[k - 1] < k - 1;
      }
    }
  }
}
