/** problems/arrays-hashing/buy-sell-stocks-2/solution.java: the best
    profit from any number of buy/sell trades, one share held at a time,
    collected greedily as the sum of every day-to-day rise. */
module MaxProfit {

  function Rise(s: seq<int>, k: int): (r: int)
    requires 1 <= k < |s|
    ensures r >= 0 && r >= s[k] - s[k - 1]
  {
    if s[k] > s[k - 1] then s[k] - s[k - 1] else 0
  }

  /** The sum of the rises on days i+1..j. */
  function Gains(s: seq<int>, i: int, j: int): int
    requires 0 <= i <= j < |s|
    decreases j - i
  {
    if i == j then 0 else Gains(s, i, j - 1) + Rise(s, j)
  }

  lemma {:induction false} GainsNonNeg(s: seq<int>, i: int, j: int)
    requires 0 <= i <= j < |s|
    ensures Gains(s, i, j) >= 0
    decreases j - i
  {
    if i < j {
      GainsNonNeg(s, i, j - 1);
    }
  }

  /** Buying on day i and selling on day j earns no more than the rises
      in between. */
  lemma {:induction false} GainsTrade(s: seq<int>, i: int, j: int)
    requires 0 <= i <= j < |s|
    ensures Gains(s, i, j) >= s[j] - s[i]
    decreases j - i
  {
    if i < j {
      GainsTrade(s, i, j - 1);
    }
  }

  lemma {:induction false} GainsSplit(s: seq<int>, i: int, j: int, k: int)
    requires 0 <= i <= j <= k < |s|
    ensures Gains(s, i, k) == Gains(s, i, j) + Gains(s, j, k)
    decreases k - j
  {
    if j < k {
      GainsSplit(s, i, j, k - 1);
    }
  }

  /** A trading plan: buy on day .0 and sell on day .1 of each trade, the
      first trade no earlier than day from, each trade after the last. */
  predicate Plan(s: seq<int>, trades: seq<(int, int)>, from: int)
    decreases |trades|
  {
    |trades| == 0 ||
    (from <= trades[0].0 && 0 <= trades[0].0 <= trades[0].1 < |s| && Plan(s, trades[1..], trades[0].1))
  }

  function Profit(s: seq<int>, trades: seq<(int, int)>, from: int): int
    requires Plan(s, trades, from)
    decreases |trades|
  {
    if |trades| == 0 then 0
    else s[trades[0].1] - s[trades[0].0] + Profit(s, trades[1..], trades[0].1)
  }

  /** No plan of trades made on days from..|s|-1 earns more than the sum
      of the rises from day from on. */
  lemma {:induction false} PlanBound(s: seq<int>, trades: seq<(int, int)>, from: int)
    requires 0 <= from < |s| && Plan(s, trades, from)
    ensures Profit(s, trades, from) <= Gains(s, from, |s| - 1)
    decreases |trades|
  {
    GainsNonNeg(s, from, |s| - 1);
    if |trades| > 0 {
      var b, e := trades[0].0, trades[0].1;
      assert Profit(s, trades, from) == s[e] - s[b] + Profit(s, trades[1..], e);
      PlanBound(s, trades[1..], e);
      GainsTrade(s, b, e);
      GainsNonNeg(s, from, b);
      GainsSplit(s, from, b, e);
      GainsSplit(s, from, e, |s| - 1);
    }
  }

  /** Buy before every rise and sell right after it. */
  function Greedy(s: seq<int>, i: int, j: int): seq<(int, int)>
    requires 0 <= i <= j < |s|
    decreases j - i
  {
    if i == j then []
    else (if s[i + 1] > s[i] then [(i, i + 1)] else []) + Greedy(s, i + 1, j)
  }

  /** The greedy plan is a plan and earns exactly the sum of the rises, so
      that sum is the best profit there is. */
  lemma {:induction false} GreedyAchieves(s: seq<int>, i: int, j: int)
    requires 0 <= i <= j < |s|
    ensures Plan(s, Greedy(s, i, j), i)
    ensures Profit(s, Greedy(s, i, j), i) == Gains(s, i, j)
    decreases j - i
  {
    if i < j {
      GreedyAchieves(s, i + 1, j);
      GainsSplit(s, i, i + 1, j);
      var g := Greedy(s, i, j);
      if s[i + 1] > s[i] {
        assert g[0] == (i, i + 1) && g[1..] == Greedy(s, i + 1, j);
      } else {
        assert g == Greedy(s, i + 1, j);
        PlanFrom(s, g, i + 1, i);
        ProfitFrom(s, g, i + 1, i);
      }
    }
  }

  /** An earlier start day keeps a plan a plan. */
  lemma PlanFrom(s: seq<int>, trades: seq<(int, int)>, from: int, earlier: int)
    requires earlier <= from && Plan(s, trades, from)
    ensures Plan(s, trades, earlier)
  {
  }

  /** The start day does not change what a plan earns. */
  lemma ProfitFrom(s: seq<int>, trades: seq<(int, int)>, from: int, earlier: int)
    requires earlier <= from && Plan(s, trades, from)
    ensures Plan(s, trades, earlier) && Profit(s, trades, earlier) == Profit(s, trades, from)
  {
  }

  /** `maxProfit`: the sum of all rises. Needs at least one price (the
      source reads prices[0] first). */
  method MaxProfit(prices: array<int>) returns (ans: int)
    requires prices.Length >= 1
    ensures ans == Gains(prices[..], 0, prices.Length - 1)
    ensures ans >= 0
  {
    ans := 0;
    var buy := prices[0];
    for i := 1 to prices.Length
      invariant buy == prices[i - 1]
      invariant ans == Gains(prices[..], 0, i - 1)
    {
      var profit := prices[i] - buy;
      if profit > 0 {
        ans := ans + profit;
        buy := prices[i];
      } else {
        buy := if buy <= prices[i] then buy else prices[i];
      }
    }
    GainsNonNeg(prices[..], 0, prices.Length - 1);
  }
}
