/** solutions/product-of-array-except-self.java: every output slot is the
    product of all the other inputs, built from a running product from the
    left and one from the right, without division. */
module ProductExceptSelf {

  function Product(s: seq<int>): int
  {
    if |s| == 0 then 1 else Product(s[..|s| - 1]) * s[|s| - 1]
  }

  /** The input without its i-th element. */
  function Without(s: seq<int>, i: int): (r: seq<int>)
    requires 0 <= i < |s|
    ensures |r| == |s| - 1
  {
    s[..i] + s[i + 1..]
  }

  lemma {:induction false} ProductAppend(a: seq<int>, b: seq<int>)
    ensures Product(a + b) == Product(a) * Product(b)
    decreases |b|
  {
    if |b| == 0 {
      assert a + b == a;
    } else {
      assert (a + b)[..|a + b| - 1] == a + b[..|b| - 1];
      ProductAppend(a, b[..|b| - 1]);
    }
  }

  /** Multiplying the slot for i back by the i-th input gives the product
      of the whole input. */
  lemma WithoutTimesSelf(s: seq<int>, i: int)
    requires 0 <= i < |s|
    ensures Product(Without(s, i)) * s[i] == Product(s)
  {
    var a, b, x := Product(s[..i]), Product(s[i + 1..]), s[i];
    ProductAppend(s[..i], s[i + 1..]);
    Split(s, i);
    ProductAppend(s[..i + 1], s[i + 1..]);
    MulSwap(a, b, x);
  }

  lemma Split(s: seq<int>, i: int)
    requires 0 <= i < |s|
    ensures s[..i + 1] + s[i + 1..] == s
    ensures Product(s[..i + 1]) == Product(s[..i]) * s[i]
  {
    assert s[..i + 1][..i] == s[..i];
  }

  lemma MulSwap(a: int, b: int, x: int)
    ensures (a * b) * x == (a * x) * b
  {
  }

  /** Two slots differ by the ratio of their own inputs. */
  lemma SwapSlots(s: seq<int>, i: int, j: int)
    requires 0 <= i < |s| && 0 <= j < |s|
    ensures Product(Without(s, i)) * s[i] == Product(Without(s, j)) * s[j]
  {
    WithoutTimesSelf(s, i);
    WithoutTimesSelf(s, j);
  }

  /** The product of a suffix in terms of the next one. */
  lemma ProductCons(s: seq<int>, i: int)
    requires 0 <= i < |s|
    ensures Product(s[i..]) == Product(s[i + 1..]) * s[i]
  {
    ProductAppend([s[i]], s[i + 1..]);
    assert [s[i]] + s[i + 1..] == s[i..];
    assert [s[i]][..0] == [];
  }

  /** `productExceptSelf`: a fresh array of the same length whose i-th slot
      is the product of every input but the i-th; `nums` is only read. */
  method ProductExceptSelf(nums: array<int>) returns (output: array<int>)
    ensures fresh(output) && output.Length == nums.Length
    ensures forall i :: 0 <= i < nums.Length ==> output[i] == Product(Without(nums[..], i))
  {
    output := new int[nums.Length];
    LeftPass(nums, output);
    RightPass(nums, output);
  }

  /** The first loop: slot i gets the product of the inputs before i. */
  method LeftPass(nums: array<int>, output: array<int>)
    requires output.Length == nums.Length && output != nums
    modifies output
    ensures forall k :: 0 <= k < nums.Length ==> output[k] == Product(nums[..k])
  {
    var left := 1;
    for i := 0 to nums.Length
      invariant left == Product(nums[..if i == 0 then 0 else i - 1])
      invariant forall k :: 0 <= k < i ==> output[k] == Product(nums[..k])
    {
      if i != 0 {
        assert nums[..i][..i - 1] == nums[..i - 1];
        left := left * nums[i - 1];
      }
      output[i] := left;
    }
  }

  /** The second loop: slot i is multiplied by the product of the inputs
      after i. */
  method RightPass(nums: array<int>, output: array<int>)
    requires output.Length == nums.Length && output != nums
    requires forall k :: 0 <= k < nums.Length ==> output[k] == Product(nums[..k])
    modifies output
    ensures forall k :: 0 <= k < nums.Length ==> output[k] == Product(Without(nums[..], k))
  {
    var n := nums.Length;
    ghost var s := nums[..];
    var right := 1;
    var i := n - 1;
    assert s[n..] == [];
    while i >= 0
      invariant -1 <= i < n
      invariant right == Product(s[if i + 1 == n then n else i + 2..])
      invariant forall k :: 0 <= k <= i ==> output[k] == Product(s[..k])
      invariant forall k :: i < k < n ==> output[k] == Product(Without(s, k))
    {
      if i + 1 != n {
        ProductCons(s, i + 1);
        right := right * nums[i + 1];
      }
      ProductAppend(s[..i], s[i + 1..]);
      output[i] := output[i] * right;
      i := i - 1;
    }
  }
}
