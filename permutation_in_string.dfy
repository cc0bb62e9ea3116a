/** problems/sliding-window/permutation-in-string/solution.java: does s2
    contain a permutation of s1? Both strings are lower-case letters; each
    window is tallied into a fresh 26-entry count array and compared with
    the tally of s1. */
module PermutationInString {

  predicate Lower(s: string)
  {
    forall k :: 0 <= k < |s| ==> 'a' <= s[k] <= 'z'
  }

  /** The letter with alphabet position c. */
  function Letter(c: int): char
    requires 0 <= c < 26
  {
    ('a' as int + c) as char
  }

  /** The 26 letter counts of s, as the count arrays hold them. */
  function Counts(s: string): (h: seq<int>)
    ensures |h| == 26
  {
    seq(26, c requires 0 <= c < 26 => multiset(s)[Letter(c)])
  }

  /** One string is a rearrangement of the other. */
  predicate Perm(a: string, b: string)
  {
    multiset(a) == multiset(b)
  }

  /** For lower-case strings, equal count arrays mean exactly a permutation. */
  lemma CountsPerm(a: string, b: string)
    requires Lower(a) && Lower(b)
    ensures Counts(a) == Counts(b) <==> Perm(a, b)
  {
    if Counts(a) == Counts(b) {
      forall x ensures multiset(a)[x] == multiset(b)[x] {
        if 'a' <= x <= 'z' {
          var c := x as int - 'a' as int;
          assert Letter(c) == x;
          assert Counts(a)[c] == Counts(b)[c];
        } else {
          assert x !in a && x !in b;
        }
      }
    }
  }

  /** Appending a letter bumps exactly its count. */
  lemma CountsPush(w: string, x: char)
    requires 'a' <= x <= 'z'
    ensures Counts(w + [x]) == Counts(w)[x as int - 'a' as int := Counts(w)[x as int - 'a' as int] + 1]
  {
    assert multiset(w + [x]) == multiset(w) + multiset{x};
    assert Letter(x as int - 'a' as int) == x;
  }

  /** One of the tally loops: a fresh count array for s[lo..hi]. The
      source writes this loop twice, for s1 and for each window of s2. */
  method Tally(s: string, lo: int, hi: int) returns (h: array<int>)
    requires 0 <= lo <= hi <= |s| && Lower(s)
    ensures fresh(h) && h[..] == Counts(s[lo..hi])
  {
    h := new int[26](_ => 0);
    assert h[..] == Counts(s[lo..lo]);
    for k := lo to hi
      invariant h[..] == Counts(s[lo..k])
    {
      CountsPush(s[lo..k], s[k]);
      assert s[lo..k + 1] == s[lo..k] + [s[k]];
      h[s[k] as int - 'a' as int] := h[s[k] as int - 'a' as int] + 1;
    }
  }

  /** `match`: the two count arrays agree everywhere. */
  method Match(h1: array<int>, h2: array<int>) returns (b: bool)
    requires h1.Length == 26 && h2.Length == 26
    ensures b <==> h1[..] == h2[..]
  {
    for c := 0 to 26
      invariant h1[..c] == h2[..c]
    {
      if h1[c] != h2[c] {
        assert h1[..][c] != h2[..][c];
        return false;
      }
      assert h1[..c + 1] == h1[..c] + [h1[c]] && h2[..c + 1] == h2[..c] + [h2[c]];
    }
    assert h1[..26] == h1[..] && h2[..26] == h2[..];
    return true;
  }

  /** A window of s2 of length |s1| starting at t is a permutation of s1:
      what a correct check searches for. */
  predicate Occurs(s1: string, s2: string, t: int)
  {
    0 <= t && t + |s1| <= |s2| && Perm(s2[t..t + |s1|], s1)
  }

  ghost predicate Contains(s1: string, s2: string)
  {
    exists t :: Occurs(s1, s2, t)
  }

  /** One past the end of the t-th window the loop as written examines: it
      starts with i = j = 0, so the first window is the single letter
      s2[0], and only from t = 1 on is the window |s1| letters long. */
  function WindowEnd(n: int, t: int): int
  {
    if t == 0 then 1 else t + n
  }

  /** The t-th window as written is examined and is a permutation of s1. */
  predicate Hit(s1: string, s2: string, t: int)
  {
    0 <= t && WindowEnd(|s1|, t) <= |s2| && Perm(s2[t..WindowEnd(|s1|, t)], s1)
  }

  /** What `checkInclusion` as written answers. */
  ghost predicate Written(s1: string, s2: string)
  {
    |s1| <= |s2| && exists t :: Hit(s1, s2, t)
  }

  /** `checkInclusion` as written. */
  method CheckInclusion(s1: string, s2: string) returns (ok: bool)
    requires |s1| > |s2| || (Lower(s1) && Lower(s2))
    ensures ok <==> Written(s1, s2)
  {
    if |s1| > |s2| {
      return false;
    }
    var h1 := Tally(s1, 0, |s1|);
    assert s1[0..|s1|] == s1;
    var i, j := 0, 0;
    while j < |s2|
      invariant 0 <= i && j == WindowEnd(|s1|, i) - 1
      invariant h1.Length == 26 && h1[..] == Counts(s1)
      invariant forall t :: 0 <= t < i ==> !Hit(s1, s2, t)
      decreases |s2| - i
    {
      var h2 := Tally(s2, i, j + 1);
      var same := Match(h1, h2);
      CountsPerm(s2[i..j + 1], s1);
      if same {
        assert Hit(s1, s2, i);
        return true;
      } else {
        i := i + 1;
        j := i + |s1| - 1;
      }
    }
    forall t | t >= i ensures !Hit(s1, s2, t) {
      assert WindowEnd(|s1|, t) > |s2|;
    }
    return false;
  }

  /** The windows examined as written are never wrong: a true answer
      always comes from a window of length |s1|. */
  lemma WrittenSound(s1: string, s2: string)
    requires Written(s1, s2)
    ensures Contains(s1, s2)
  {
    var t :| Hit(s1, s2, t);
    var w := s2[t..WindowEnd(|s1|, t)];
    assert |multiset(w)| == |w| && |multiset(s1)| == |s1|;
    assert Occurs(s1, s2, t);
  }

  /** The window of length |s1| at 0 is never examined as written: with
      s1 = s2 = "ab" the answer is false although s2 is itself a
      permutation of s1. */
  lemma WrittenMisses()
    ensures Contains("ab", "ab") && !Written("ab", "ab")
  {
    var s := "ab";
    assert s[0..2] == s;
    assert Occurs(s, s, 0);
    forall t ensures !Hit(s, s, t) {
      if 0 <= t && WindowEnd(2, t) <= 2 {
        assert t == 0 && |multiset(s[0..1])| == 1 && |multiset(s)| == 2;
      }
    }
  }

  /** The window of length |s1| at t has the counts of s1 exactly when it
      is a permutation of s1. */
  lemma WindowCounts(s1: string, s2: string, t: int)
    requires Lower(s1) && Lower(s2) && 0 <= t && t + |s1| <= |s2|
    ensures Counts(s2[t..t + |s1|]) == Counts(s1) <==> Occurs(s1, s2, t)
  {
    CountsPerm(s2[t..t + |s1|], s1);
  }

  /** The evidently intended check: the same loop with the first window
      s2[0..|s1|], that is j starting at |s1| - 1. */
  method CheckInclusionFixed(s1: string, s2: string) returns (ok: bool)
    requires |s1| > |s2| || (Lower(s1) && Lower(s2))
    ensures ok <==> Contains(s1, s2)
  {
    if |s1| > |s2| {
      return false;
    }
    var h1 := Tally(s1, 0, |s1|);
    assert s1[0..|s1|] == s1;
    var i, j := 0, |s1| - 1;
    while j < |s2|
      invariant 0 <= i && j == i + |s1| - 1
      invariant h1.Length == 26 && h1[..] == Counts(s1)
      invariant forall t :: 0 <= t < i ==> !Occurs(s1, s2, t)
      decreases |s2| - i
    {
      var h2 := Tally(s2, i, j + 1);
      var same := Match(h1, h2);
      WindowCounts(s1, s2, i);
      if same {
        return true;
      } else {
        i := i + 1;
        j := i + |s1| - 1;
      }
    }
    forall t | t >= i ensures !Occurs(s1, s2, t) {
    }
    return false;
  }
}
