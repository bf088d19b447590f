/**
 * `sum_of_airdropped_tokens` of merkle_drop/deploy.py: the total value of a list of airdrop
 * items, the amount of tokens the drop contract has to be funded with.
 */
module Deploy {
  import opened MerkleHash
  import opened Airdrop

  /** The total of the items' values, added up from the front. */
  function SumValues(items: seq<Item>): int {
    if |items| == 0 then 0 else SumValues(items[..|items| - 1]) + items[|items| - 1].value
  }

  /** `sum_of_airdropped_tokens`: the `for` loop adding each item's value to `sum`. */
  method SumOfAirdroppedTokens(items: seq<Item>) returns (sum: int)
    ensures sum == SumValues(items)
  {
    sum := 0;
    for k := 0 to |items|
      invariant sum == SumValues(items[..k])
    {
      assert items[..k + 1][..k] == items[..k];
      sum := sum + items[k].value;
    }
    assert items[..|items|] == items;
  }

  /** Nothing to sum: the total of no items is 0. */
  lemma SumOfNothing(items: seq<Item>)
    requires |items| == 0
    ensures SumValues(items) == 0
  {
  }

  /** Totals add up over a concatenation. */
  lemma {:induction false} SumConcat(s: seq<Item>, t: seq<Item>)
    ensures SumValues(s + t) == SumValues(s) + SumValues(t)
    decreases |t|
  {
    if |t| > 0 {
      var t' := t[..|t| - 1];
      assert (s + t)[..|s + t| - 1] == s + t';
      SumConcat(s, t');
    } else {
      assert s + t == s;
    }
  }

  /** Taking item `j` out of a list takes its value off the total. */
  lemma RemoveOne(b: seq<Item>, j: nat)
    requires j < |b|
    ensures SumValues(b) == SumValues(b[..j] + b[j + 1..]) + b[j].value
  {
    var x, before, after := b[j], b[..j], b[j + 1..];
    SplitAt(b, j);
    SumConcat(before + [x], after);
    SumConcat(before, [x]);
    SumConcat(before, after);
    SumSingle(x);
  }

  lemma SplitAt(b: seq<Item>, j: nat)
    requires j < |b|
    ensures b == (b[..j] + [b[j]]) + b[j + 1..]
  {
  }

  lemma SumSingle(x: Item)
    ensures SumValues([x]) == x.value
  {
    assert [x][..0] == [];
  }

  /** Taking item `j` out of a list takes one copy of it off the multiset. */
  lemma RemoveOneMultiset(b: seq<Item>, j: nat)
    requires j < |b|
    ensures multiset(b[..j] + b[j + 1..]) == multiset(b) - multiset{b[j]}
  {
    SplitAt(b, j);
  }

  /** The total is also the first value plus the total of the rest: the order in which the
      loop adds them up does not matter. */
  lemma SumFront(items: seq<Item>)
    requires |items| > 0
    ensures SumValues(items) == items[0].value + SumValues(items[1..])
  {
    SplitAt(items, 0);
    assert items[..0] + [items[0]] == [items[0]];
    SumConcat([items[0]], items[1..]);
    SumSingle(items[0]);
  }

  /** The total does not depend on the order of the items. */
  lemma {:induction false} SumPermutation(a: seq<Item>, b: seq<Item>)
    requires multiset(a) == multiset(b)
    ensures SumValues(a) == SumValues(b)
    decreases |a|
  {
    if |a| > 0 {
      var n := |a| - 1;
      var x := a[n];
      assert a == a[..n] + [x];
      assert multiset(a[..n]) == multiset(a) - multiset{x};
      assert x in multiset(b);
      var j :| 0 <= j < |b| && b[j] == x;
      RemoveOne(b, j);
      RemoveOneMultiset(b, j);
      SumPermutation(a[..n], b[..j] + b[j + 1..]);
    } else {
      assert |b| == |multiset(b)| == 0;
    }
  }

  /** `b"\xNN" * 20`: a 20-byte address of one repeated byte. */
  function RepeatedAddress(n: byte): (a: Address)
    ensures |a| == 20
  {
    seq(20, _ => n)
  }

  /** The five claimants of the test data, 1 to 5 million tokens each. */
  function TreeData(): seq<Item> {
    [Item(RepeatedAddress(0xaa), 1_000_000), Item(RepeatedAddress(0xbb), 2_000_000),
     Item(RepeatedAddress(0xcc), 3_000_000), Item(RepeatedAddress(0xdd), 4_000_000),
     Item(RepeatedAddress(0xee), 5_000_000)]
  }

  /** The three claimants of 33 tokens each of the rounding test data. */
  function TreeDataSmallValues(): seq<Item> {
    [Item(RepeatedAddress(0xaa), 33), Item(RepeatedAddress(0xbb), 33), Item(RepeatedAddress(0xcc), 33)]
  }

  /** The premint amounts the contract tests fund the drop with are the sums of the test data. */
  method PremintAmounts() returns (value: int, smallValue: int)
    ensures value == 15_000_000 && smallValue == 99
  {
    var data, small := TreeData(), TreeDataSmallValues();
    SumFront(data); SumFront(data[1..]); SumFront(data[2..]); SumFront(data[3..]); SumFront(data[4..]);
    SumFront(small); SumFront(small[1..]); SumFront(small[2..]);
    value := SumOfAirdroppedTokens(data);
    smallValue := SumOfAirdroppedTokens(small);
  }
}
