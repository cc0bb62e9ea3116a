/** problems/stack/valid-parentheses-string/solution.java: check a string of
    '(', ')' and '*' with one stack of indices of unmatched '(' and one of
    indices of '*'. Every character other than '(' and '*' acts as ')'. */
module ValidParens {

  function Count(s: string, c: char): (n: nat)
    ensures n <= |s|
  {
    if |s| == 0 then 0 else Count(s[..|s| - 1], c) + (if s[|s| - 1] == c then 1 else 0)
  }

  /** The characters that act as ')'. */
  function Closes(s: string): (n: nat)
    ensures n <= |s|
  {
    if |s| == 0 then 0 else Closes(s[..|s| - 1]) + (if s[|s| - 1] != '(' && s[|s| - 1] != '*' then 1 else 0)
  }

  /** Opening brackets and stars minus closing ones: the number of closers
      that could still be matched. */
  function Slack(s: string): int
  {
    Count(s, '(') + Count(s, '*') - Closes(s)
  }

  /** No prefix has more closers than openers and stars together. */
  predicate PrefixesOk(s: string)
  {
    forall j :: 0 <= j <= |s| ==> Slack(s[..j]) >= 0
  }

  /** Without stars: balanced brackets. */
  predicate Balanced(s: string)
  {
    PrefixesOk(s) && Slack(s) == 0
  }

  /** s can be balanced, with `open` brackets already open, reading each '*'
      as '(', as ')' or as nothing and every character other than '(' and
      '*' as ')'. */
  predicate CanBalance(s: string, open: nat)
    decreases |s|
  {
    if s == [] then open == 0
    else if s[0] == '(' then CanBalance(s[1..], open + 1)
    else if s[0] == '*' then CanBalance(s[1..], open + 1) || CanBalance(s[1..], open) || (open > 0 && CanBalance(s[1..], open - 1))
    else open > 0 && CanBalance(s[1..], open - 1)
  }

  /** The fewest brackets that can be left open after s when every '*'
      closes one if it can and every closer closes one if there is one. */
  function Low(s: string): nat
  {
    if |s| == 0 then 0
    else
      var l := Low(s[..|s| - 1]);
      if s[|s| - 1] == '(' then l + 1 else if l > 0 then l - 1 else 0
  }

  /** The rest t can be balanced from some number of open brackets between lo and hi. */
  ghost predicate Within(t: string, lo: int, hi: int)
  {
    exists o: nat :: lo <= o <= hi && CanBalance(t, o)
  }

  /** Reading one character moves the range of open brackets. */
  lemma Shift(t: string, lo: nat, hi: int)
    requires t != [] && lo <= hi
    ensures t[0] == '(' ==> (Within(t, lo, hi) <==> Within(t[1..], lo + 1, hi + 1))
    ensures t[0] == '*' ==> (Within(t, lo, hi) <==> Within(t[1..], if lo > 0 then lo - 1 else 0, hi + 1))
    ensures t[0] != '(' && t[0] != '*' ==> (Within(t, lo, hi) <==> Within(t[1..], if lo > 0 then lo - 1 else 0, hi - 1))
  {
    var r := t[1..];
    var lo' := if lo > 0 then lo - 1 else 0;
    if Within(t, lo, hi) {
      var o: nat :| lo <= o <= hi && CanBalance(t, o);
      if t[0] == '(' {
        assert lo + 1 <= o + 1 <= hi + 1 && CanBalance(r, o + 1);
      } else if t[0] == '*' {
        if CanBalance(r, o + 1) {
          assert lo' <= o + 1 <= hi + 1;
        } else if CanBalance(r, o) {
          assert lo' <= o <= hi + 1;
        } else {
          assert lo' <= o - 1 <= hi + 1 && CanBalance(r, o - 1);
        }
      } else {
        assert lo' <= o - 1 <= hi - 1 && CanBalance(r, o - 1);
      }
    }
    if t[0] == '(' && Within(r, lo + 1, hi + 1) {
      var o: nat :| lo + 1 <= o <= hi + 1 && CanBalance(r, o);
      assert lo <= o - 1 <= hi && CanBalance(t, o - 1);
    }
    if t[0] == '*' && Within(r, lo', hi + 1) {
      var o: nat :| lo' <= o <= hi + 1 && CanBalance(r, o);
      if o > hi {
        assert lo <= o - 1 <= hi && CanBalance(t, o - 1);
      } else if o >= lo {
        assert CanBalance(t, o);
      } else {
        assert lo <= o + 1 <= hi && CanBalance(t, o + 1);
      }
    }
    if t[0] != '(' && t[0] != '*' && Within(r, lo', hi - 1) {
      var o: nat :| lo' <= o <= hi - 1 && CanBalance(r, o);
      assert lo <= o + 1 <= hi && CanBalance(t, o + 1);
    }
  }

  /** Scanning s[..i]: s can be balanced exactly when no prefix so far has
      too many closers and the rest can be balanced from some count between
      `Low` and the slack of the prefix. */
  lemma {:induction false} Range(s: string, i: int)
    requires 0 <= i <= |s|
    ensures CanBalance(s, 0) <==> PrefixesOk(s[..i]) && Within(s[i..], Low(s[..i]), Slack(s[..i]))
  {
    if i == 0 {
      assert s[..0] == [] && s[0..] == s;
      assert PrefixesOk(s[..0]) by {
        forall j | 0 <= j <= 0 ensures Slack(s[..0][..j]) >= 0 { assert s[..0][..j] == []; }
      }
      if CanBalance(s, 0) {
        assert Within(s, 0, 0);
      }
    } else {
      Range(s, i - 1);
      SlackStep(s, i - 1);
      assert s[i - 1..][1..] == s[i..];
      if PrefixesOk(s[..i - 1]) {
        LowBelowSlack(s, i - 1);
        Shift(s[i - 1..], Low(s[..i - 1]), Slack(s[..i - 1]));
        if Slack(s[..i]) >= 0 {
          PrefixesGrow(s, i - 1);
        } else {
          assert s[..i][..i] == s[..i];
          PrefixesBreak(s[..i], i);
        }
      } else {
        PrefixesShrink(s, i - 1);
      }
    }
  }

  /** On an acceptable prefix the fewest open brackets is at most the slack. */
  lemma {:induction false} LowBelowSlack(s: string, i: int)
    requires 0 <= i <= |s| && PrefixesOk(s[..i])
    ensures Low(s[..i]) <= Slack(s[..i])
  {
    if i > 0 {
      PrefixesShrink(s, i - 1);
      LowBelowSlack(s, i - 1);
      SlackStep(s, i - 1);
      assert s[..i][..i] == s[..i];
    }
  }

  /** A prefix of an acceptable prefix is acceptable. */
  lemma PrefixesShrink(s: string, i: int)
    requires 0 <= i < |s|
    ensures PrefixesOk(s[..i + 1]) ==> PrefixesOk(s[..i])
  {
    if PrefixesOk(s[..i + 1]) {
      forall j | 0 <= j <= i ensures Slack(s[..i][..j]) >= 0 {
        assert s[..i][..j] == s[..i + 1][..j];
      }
    }
  }

  /** s can be balanced exactly when no prefix has too many closers and the
      fewest brackets left open at the end is zero. */
  lemma Balances(s: string)
    ensures CanBalance(s, 0) <==> PrefixesOk(s) && Low(s) == 0
  {
    Range(s, |s|);
    assert s[..|s|] == s && s[|s|..] == [];
    if PrefixesOk(s) {
      LowBelowSlack(s, |s|);
      if Low(s) == 0 {
        assert CanBalance([], 0);
      }
    }
  }

  /** Every entry is an index of character c in s[..i], strictly increasing. */
  predicate Indices(st: seq<int>, s: string, i: int, c: char)
  {
    && (forall t :: 0 <= t < |st| ==> 0 <= st[t] < i <= |s| && s[st[t]] == c)
    && (forall p, q :: 0 <= p < q < |st| ==> st[p] < st[q])
  }

  /** Strictly increasing. */
  predicate Increasing(st: seq<int>)
  {
    forall p, q :: 0 <= p < q < |st| ==> st[p] < st[q]
  }

  /** No index on both stacks. */
  predicate Apart(leftpar: seq<int>, stars: seq<int>)
  {
    forall p, q :: 0 <= p < |leftpar| && 0 <= q < |stars| ==> leftpar[p] != stars[q]
  }

  /** The fewest of the '(' at the indices of `leftpar` left open when each
      '*' at the indices of `stars` may close one earlier '(': read in index
      order, a '(' opens one more and a '*' closes one if any is open. */
  function Unclosed(leftpar: seq<int>, stars: seq<int>): nat
    decreases |leftpar| + |stars|
  {
    if leftpar == [] then 0
    else if stars == [] then |leftpar|
    else if leftpar[|leftpar| - 1] > stars[|stars| - 1] then Unclosed(leftpar[..|leftpar| - 1], stars) + 1
    else
      var u := Unclosed(leftpar, stars[..|stars| - 1]);
      if u > 0 then u - 1 else 0
  }

  /** Pushing a '(' after every index on the stacks leaves one more open. */
  lemma PushOpen(leftpar: seq<int>, stars: seq<int>, x: int)
    requires forall t :: 0 <= t < |stars| ==> stars[t] < x
    ensures Unclosed(leftpar + [x], stars) == Unclosed(leftpar, stars) + 1
  {
    assert (leftpar + [x])[..|leftpar|] == leftpar;
  }

  /** Pushing a '*' after every index on the stacks closes one if any is open. */
  lemma PushStar(leftpar: seq<int>, stars: seq<int>, x: int)
    requires forall t :: 0 <= t < |leftpar| ==> leftpar[t] < x
    ensures Unclosed(leftpar, stars + [x]) == var u := Unclosed(leftpar, stars); if u > 0 then u - 1 else 0
  {
    assert (stars + [x])[..|stars|] == stars;
  }

  /** Popping the top '(' leaves one fewer open, or none. */
  lemma {:induction false} PopOpen(leftpar: seq<int>, stars: seq<int>)
    requires leftpar != [] && Increasing(leftpar)
    ensures Unclosed(leftpar[..|leftpar| - 1], stars) == var u := Unclosed(leftpar, stars); if u > 0 then u - 1 else 0
    decreases |stars|
  {
    var rest := leftpar[..|leftpar| - 1];
    if stars != [] && leftpar[|leftpar| - 1] <= stars[|stars| - 1] {
      var fewer := stars[..|stars| - 1];
      PopOpen(leftpar, fewer);
      if rest != [] {
        assert rest[|rest| - 1] < leftpar[|leftpar| - 1];
      }
    }
  }

  /** At most k '(' stay open exactly when, after setting aside the top k,
      the stacks pair off from the top with every '(' before its '*'. */
  lemma {:induction false} Fits(leftpar: seq<int>, stars: seq<int>, k: nat)
    requires Increasing(leftpar) && Increasing(stars) && Apart(leftpar, stars)
    ensures Unclosed(leftpar, stars) <= k <==> FitsFrom(leftpar, stars, k)
    decreases |leftpar| + |stars|
  {
    if leftpar == [] || stars == [] {
    } else if leftpar[|leftpar| - 1] > stars[|stars| - 1] {
      if k > 0 {
        Fits(leftpar[..|leftpar| - 1], stars, k - 1);
        FitsDropOpen(leftpar, stars, k);
      } else {
        assert Top(leftpar, 0) > Top(stars, 0);
      }
    } else {
      Fits(leftpar, stars[..|stars| - 1], k + 1);
      FitsDropStar(leftpar, stars, k);
    }
  }

  /** Every '(' from the k-th on the first stack (counting from the top) sits
      below a distinct '*' popped with it, in order, so it can be closed. */
  ghost predicate FitsFrom(leftpar: seq<int>, stars: seq<int>, k: nat)
  {
    |leftpar| - k <= |stars| && forall t :: 0 <= t < |leftpar| - k ==> Top(leftpar, t + k) < Top(stars, t)
  }

  /** A '(' above every '*' is the topmost one that cannot be closed. */
  lemma FitsDropOpen(leftpar: seq<int>, stars: seq<int>, k: nat)
    requires leftpar != [] && k > 0
    ensures FitsFrom(leftpar, stars, k) <==> FitsFrom(leftpar[..|leftpar| - 1], stars, k - 1)
  {
    var rest := leftpar[..|leftpar| - 1];
    forall x | 0 <= x < |rest| ensures Top(rest, x) == Top(leftpar, x + 1) { }
  }

  /** A '*' above every '(' closes the topmost unclosed one, if any. */
  lemma FitsDropStar(leftpar: seq<int>, stars: seq<int>, k: nat)
    requires Increasing(leftpar) && leftpar != [] && stars != []
    requires leftpar[|leftpar| - 1] < stars[|stars| - 1]
    ensures FitsFrom(leftpar, stars, k) <==> FitsFrom(leftpar, stars[..|stars| - 1], k + 1)
  {
    var fewer := stars[..|stars| - 1];
    forall x | 0 <= x < |fewer| ensures Top(fewer, x) == Top(stars, x + 1) { }
    if |leftpar| - k > 0 {
      assert Top(leftpar, k) <= Top(leftpar, 0) < Top(stars, 0);
    }
    if FitsFrom(leftpar, stars, k) {
      forall t | 0 <= t < |leftpar| - (k + 1) ensures Top(leftpar, t + k + 1) < Top(fewer, t) {
        assert Top(leftpar, (t + 1) + k) < Top(stars, t + 1);
      }
    }
    if FitsFrom(leftpar, fewer, k + 1) {
      forall t | 0 <= t < |leftpar| - k ensures Top(leftpar, t + k) < Top(stars, t) {
        if t > 0 {
          assert Top(leftpar, (t - 1) + k + 1) < Top(fewer, t - 1);
        }
      }
    }
  }

  /** Both stacks together hold the slack of the prefix scanned so far, the
      first stack at least the slack without stars. */
  predicate Scanned(s: string, i: int, leftpar: seq<int>, stars: seq<int>)
  {
    && 0 <= i <= |s|
    && Indices(leftpar, s, i, '(') && Indices(stars, s, i, '*')
    && |leftpar| + |stars| == Slack(s[..i])
    && |leftpar| >= Count(s[..i], '(') - Closes(s[..i])
    && |stars| <= Count(s[..i], '*')
    && PrefixesOk(s[..i])
    && Low(s[..i]) == Unclosed(leftpar, stars)
  }

  /** Slack of one more character. */
  lemma SlackStep(s: string, i: int)
    requires 0 <= i < |s|
    ensures Slack(s[..i + 1]) == Slack(s[..i]) + (if s[i] == '(' || s[i] == '*' then 1 else -1)
    ensures Count(s[..i + 1], '(') == Count(s[..i], '(') + (if s[i] == '(' then 1 else 0)
    ensures Count(s[..i + 1], '*') == Count(s[..i], '*') + (if s[i] == '*' then 1 else 0)
    ensures Closes(s[..i + 1]) == Closes(s[..i]) + (if s[i] != '(' && s[i] != '*' then 1 else 0)
    ensures Low(s[..i + 1]) == if s[i] == '(' then Low(s[..i]) + 1 else if Low(s[..i]) > 0 then Low(s[..i]) - 1 else 0
  {
    assert s[..i + 1][..i] == s[..i];
  }

  /** The prefix condition grows by one character when the new slack is
      not negative. */
  lemma PrefixesGrow(s: string, i: int)
    requires 0 <= i < |s| && PrefixesOk(s[..i]) && Slack(s[..i + 1]) >= 0
    ensures PrefixesOk(s[..i + 1])
  {
    var p := s[..i + 1];
    forall j | 0 <= j <= |p| ensures Slack(p[..j]) >= 0 {
      assert p[..j] == s[..j];
      if j <= i {
        assert s[..i][..j] == s[..j];
      }
    }
  }

  /** A prefix with negative slack breaks the condition for the whole string. */
  lemma PrefixesBreak(s: string, j: int)
    requires 0 <= j <= |s| && Slack(s[..j]) < 0
    ensures !PrefixesOk(s)
  {
  }

  /** One character of the scan: a '(' or '*' is pushed, anything else pops
      one stack, the first if it can. */
  lemma Scan(s: string, i: int, leftpar: seq<int>, stars: seq<int>)
    requires Scanned(s, i, leftpar, stars) && i < |s|
    ensures s[i] == '(' ==> Scanned(s, i + 1, leftpar + [i], stars)
    ensures s[i] == '*' ==> Scanned(s, i + 1, leftpar, stars + [i])
    ensures s[i] != '(' && s[i] != '*' && |leftpar| > 0 ==> Scanned(s, i + 1, leftpar[..|leftpar| - 1], stars)
    ensures s[i] != '(' && s[i] != '*' && |leftpar| == 0 && |stars| > 0 ==> Scanned(s, i + 1, leftpar, stars[..|stars| - 1])
    ensures s[i] != '(' && s[i] != '*' && |leftpar| == 0 && |stars| == 0 ==> !PrefixesOk(s)
  {
    SlackStep(s, i);
    if s[i] == '(' {
      ScanOpen(s, i, leftpar, stars);
    } else if s[i] == '*' {
      ScanStar(s, i, leftpar, stars);
    } else if |leftpar| > 0 {
      ScanClose(s, i, leftpar, stars);
    } else if |stars| > 0 {
      ScanCloseStar(s, i, leftpar, stars);
    } else {
      PrefixesBreak(s, i + 1);
    }
  }

  lemma ScanOpen(s: string, i: int, leftpar: seq<int>, stars: seq<int>)
    requires Scanned(s, i, leftpar, stars) && i < |s| && s[i] == '('
    ensures Scanned(s, i + 1, leftpar + [i], stars)
  {
    SlackStep(s, i);
    PrefixesGrow(s, i);
    PushOpen(leftpar, stars, i);
    IndicesPush(leftpar, s, i, '(');
    IndicesGrow(stars, s, i, '*');
  }

  lemma ScanStar(s: string, i: int, leftpar: seq<int>, stars: seq<int>)
    requires Scanned(s, i, leftpar, stars) && i < |s| && s[i] == '*'
    ensures Scanned(s, i + 1, leftpar, stars + [i])
  {
    SlackStep(s, i);
    PrefixesGrow(s, i);
    PushStar(leftpar, stars, i);
    IndicesGrow(leftpar, s, i, '(');
    IndicesPush(stars, s, i, '*');
  }

  lemma ScanClose(s: string, i: int, leftpar: seq<int>, stars: seq<int>)
    requires Scanned(s, i, leftpar, stars) && i < |s| && s[i] != '(' && s[i] != '*' && |leftpar| > 0
    ensures Scanned(s, i + 1, leftpar[..|leftpar| - 1], stars)
  {
    SlackStep(s, i);
    PrefixesGrow(s, i);
    PopOpen(leftpar, stars);
    IndicesPop(leftpar, s, i, '(');
    IndicesGrow(stars, s, i, '*');
  }

  lemma ScanCloseStar(s: string, i: int, leftpar: seq<int>, stars: seq<int>)
    requires Scanned(s, i, leftpar, stars) && i < |s| && s[i] != '(' && s[i] != '*'
    requires |leftpar| == 0 && |stars| > 0
    ensures Scanned(s, i + 1, leftpar, stars[..|stars| - 1])
  {
    SlackStep(s, i);
    PrefixesGrow(s, i);
    IndicesGrow(leftpar, s, i, '(');
    IndicesPop(stars, s, i, '*');
  }

  lemma IndicesGrow(st: seq<int>, s: string, i: int, c: char)
    requires Indices(st, s, i, c) && 0 <= i < |s|
    ensures Indices(st, s, i + 1, c)
  {
  }

  lemma IndicesPush(st: seq<int>, s: string, i: int, c: char)
    requires Indices(st, s, i, c) && 0 <= i < |s| && s[i] == c
    ensures Indices(st + [i], s, i + 1, c)
  {
    var t := st + [i];
    forall k | 0 <= k < |t| ensures 0 <= t[k] < i + 1 <= |s| && s[t[k]] == c {
      if k < |st| {
        assert t[k] == st[k];
      }
    }
  }

  lemma IndicesPop(st: seq<int>, s: string, i: int, c: char)
    requires Indices(st, s, i, c) && 0 <= i < |s| && st != []
    ensures Indices(st[..|st| - 1], s, i + 1, c)
  {
  }

  /** After the scan, the pairing test of the second loop succeeds exactly
      when s can be balanced. */
  lemma Concluded(s: string, leftpar: seq<int>, stars: seq<int>)
    requires Scanned(s, |s|, leftpar, stars)
    ensures |leftpar| <= |stars| && PairsOk(leftpar, stars) <==> CanBalance(s, 0)
  {
    assert s[..|s|] == s;
    Balances(s);
    Fits(leftpar, stars, 0);
    assert Apart(leftpar, stars) by {
      forall p, q | 0 <= p < |leftpar| && 0 <= q < |stars| ensures leftpar[p] != stars[q] {
        assert s[leftpar[p]] == '(' && s[stars[q]] == '*';
      }
    }
    if |leftpar| <= |stars| && PairsOk(leftpar, stars) {
      forall t | 0 <= t < |leftpar| ensures Top(leftpar, t) < Top(stars, t) {
        assert Top(leftpar, t) != Top(stars, t);
      }
    }
  }

  /** The pairing loop matches the stacks from the top: the k-th '(' from
      the top with the k-th '*' from the top. */
  predicate PairsOk(leftpar: seq<int>, stars: seq<int>)
  {
    forall t :: 0 <= t < |leftpar| && t < |stars| ==> Top(leftpar, t) <= Top(stars, t)
  }

  /** The entry t places below the top of a stack. */
  function Top(st: seq<int>, t: int): int
    requires 0 <= t < |st|
  {
    st[|st| - 1 - t]
  }

  /** The second loop and the return of `checkValidString`: pop one of each
      while both stacks are non-empty, failing on a '(' after its '*'; then
      succeed iff no '(' is left. */
  method Pair(leftpar0: seq<int>, stars0: seq<int>) returns (ok: bool)
    ensures ok <==> |leftpar0| <= |stars0| && PairsOk(leftpar0, stars0)
  {
    var leftpar, stars := leftpar0, stars0;
    ghost var t := 0;
    while |leftpar| > 0 && |stars| > 0
      invariant 0 <= t <= |leftpar0| && t <= |stars0|
      invariant |leftpar| == |leftpar0| - t && |stars| == |stars0| - t
      invariant leftpar == leftpar0[..|leftpar|] && stars == stars0[..|stars|]
      invariant forall u :: 0 <= u < t ==> Top(leftpar0, u) <= Top(stars0, u)
      decreases |leftpar|
    {
      var l := leftpar[|leftpar| - 1];
      var st := stars[|stars| - 1];
      assert l == Top(leftpar0, t) && st == Top(stars0, t);
      leftpar, stars := leftpar[..|leftpar| - 1], stars[..|stars| - 1];
      if l > st {
        return false;
      }
      t := t + 1;
    }
    return |leftpar| == 0;
  }

  /** `checkValidString`. A false from the scan means some prefix has more
      closers than openers and stars; a true result needs every prefix to
      be fine and at most as many '(' as closers and stars. Without stars
      the result is exactly whether the brackets balance. */
  method CheckValidString(s: string) returns (ok: bool)
    ensures ok ==> PrefixesOk(s) && Count(s, '(') <= Closes(s) + Count(s, '*')
    ensures PrefixesOk(s) && Count(s, '*') == 0 ==> (ok <==> Slack(s) == 0)
    ensures !PrefixesOk(s) ==> !ok
    ensures Count(s, '*') == 0 ==> (ok <==> Balanced(s))
    ensures ok <==> CanBalance(s, 0)
  {
    var leftpar: seq<int> := [];
    var stars: seq<int> := [];
    for i := 0 to |s|
      invariant Scanned(s, i, leftpar, stars)
    {
      Scan(s, i, leftpar, stars);
      if s[i] == '(' {
        leftpar := leftpar + [i];
      } else if s[i] == '*' {
        stars := stars + [i];
      } else {
        if |leftpar| > 0 {
          leftpar := leftpar[..|leftpar| - 1];
        } else if |stars| > 0 {
          stars := stars[..|stars| - 1];
        } else {
          Balances(s);
          return false;
        }
      }
    }
    assert s[..|s|] == s;
    Concluded(s, leftpar, stars);
    ok := Pair(leftpar, stars);
  }

  /** The examples of the problem: "()", "(*)" and "(*))" are accepted,
      ")(" is not. */
  method Demo() returns (a: bool, b: bool, c: bool, d: bool)
    ensures a && b && c && !d
  {
    a := CheckValidString("()");
    b := CheckValidString("(*)");
    c := CheckValidString("(*))");
    d := CheckValidString(")(");
    DemoFacts();
  }

  lemma DemoFacts()
    ensures Balanced("()") && Count("()", '*') == 0
    ensures !PrefixesOk(")(")
    ensures CanBalance("(*)", 0) && CanBalance("(*))", 0)
  {
    var u := "(*)";
    assert u[1..] == "*)" && u[1..][1..] == ")" && ")"[1..] == [];
    assert CanBalance(")", 1);
    var v := "(*))";
    assert v[1..] == "*))" && v[1..][1..] == "))" && "))"[1..] == ")";
    assert CanBalance("))", 2);
    var s := "()";
    assert s[..0] == "" && s[..1] == "(" && s[..2] == s;
    assert Slack(s[..1]) == 1;
    var t := ")(";
    assert t[..1] == ")";
    assert Slack(t[..1]) == -1;
  }
}
