/**
 * The airdrop data of src/merkle_drop/airdrop.py and merkle_drop/airdrop.py: a Python
 * `Dict[bytes, int]` from canonical addresses to token values, read by `get_item` and
 * `get_balance` and listed by `to_items`.
 *
 * A Python dict remembers insertion order and `to_items` lists its entries in that order, so
 * the dict is modelled as the sequence of its entries, in insertion order, with no key twice.
 */
module Airdrop {
  import opened Wrappers
  import opened MerkleHash

  /** A canonical (20-byte) address, as `bytes`. */
  type Address = seq<byte>

  /** `Item(address, value)`: one claimant and the tokens they may claim. */
  datatype Item = Item(address: Address, value: int)

  /** The exception of `airdrop_data[address]` for a missing key. */
  datatype KeyError = KeyError(key: Address)

  type Entry = (Address, int)

  predicate DistinctKeys(entries: seq<Entry>) {
    forall i, j :: 0 <= i < j < |entries| ==> entries[i].0 != entries[j].0
  }

  /** `AirdropData = Dict[bytes, int]`: the entries in insertion order. */
  type AirdropData = d: seq<Entry> | DistinctKeys(d)

  predicate HasKey(d: seq<Entry>, a: Address) {
    exists i :: 0 <= i < |d| && d[i].0 == a
  }

  /** The dict lookup: the value stored under `a`, if any. */
  function Lookup(d: seq<Entry>, a: Address): (r: Option<int>)
    ensures r.Some? <==> HasKey(d, a)
    ensures r.Some? ==> exists i :: 0 <= i < |d| && d[i] == (a, r.value)
  {
    if |d| == 0 then None
    else if d[0].0 == a then Some(d[0].1)
    else
      var r := Lookup(d[1..], a);
      assert HasKey(d, a) ==> HasKey(d[1..], a) by {
        if HasKey(d, a) {
          var i :| 0 <= i < |d| && d[i].0 == a;
          assert d[1..][i - 1] == d[i];
        }
      }
      assert r.Some? ==> exists i :: 0 <= i < |d| && d[i] == (a, r.value) by {
        if r.Some? {
          var i :| 0 <= i < |d[1..]| && d[1..][i] == (a, r.value);
          assert d[i + 1] == d[1..][i];
        }
      }
      r
  }

  /** With distinct keys, looking up the key of entry `i` finds entry `i`'s value. */
  lemma {:induction false} LookupAt(d: AirdropData, i: nat)
    requires i < |d|
    ensures Lookup(d, d[i].0) == Some(d[i].1)
  {
    if i > 0 {
      var tail: AirdropData := d[1..];
      assert tail[i - 1] == d[i];
      LookupAt(tail, i - 1);
    }
  }

  /** `get_item`: the item of `address`, or the KeyError of a missing one. */
  function GetItem(address: Address, d: AirdropData): (r: Result<Item, KeyError>)
    ensures r.Ok? <==> HasKey(d, address)
    ensures r.Ok? ==> r.value.address == address && Lookup(d, address) == Some(r.value.value)
    ensures r.Err? ==> r.error == KeyError(address)
  {
    match Lookup(d, address)
    case Some(v) => Ok(Item(address, v))
    case None => Err(KeyError(address))
  }

  /** `get_balance`: `airdrop_data.get(address, 0)`. */
  function GetBalance(address: Address, d: AirdropData): (r: int)
    ensures HasKey(d, address) ==> Lookup(d, address) == Some(r)
    ensures !HasKey(d, address) ==> r == 0
  {
    match Lookup(d, address)
    case Some(v) => v
    case None => 0
  }

  /** The balance of every listed claimant is their entry's value. */
  lemma GetBalanceListed(d: AirdropData, i: nat)
    requires i < |d|
    ensures GetBalance(d[i].0, d) == d[i].1
  {
    LookupAt(d, i);
  }

  /** `to_items`: one item per entry, in the dict's order. */
  function ToItems(d: AirdropData): (items: seq<Item>)
    ensures |items| == |d|
    ensures forall k :: 0 <= k < |d| ==> items[k].address == d[k].0 && items[k].value == d[k].1
  {
    seq(|d|, i requires 0 <= i < |d| => Item(d[i].0, d[i].1))
  }

  /** `to_items` lists every entry exactly once: as many items as entries, each holding the
      value the dict stores for its address, no address twice, and every key present. */
  lemma ToItemsMatchesDict(d: AirdropData)
    ensures |ToItems(d)| == |d|
    ensures forall k :: 0 <= k < |ToItems(d)| ==> Lookup(d, ToItems(d)[k].address) == Some(ToItems(d)[k].value)
    ensures forall k, l :: 0 <= k < l < |ToItems(d)| ==> ToItems(d)[k].address != ToItems(d)[l].address
    ensures forall a :: HasKey(d, a) ==> exists k :: 0 <= k < |ToItems(d)| && ToItems(d)[k].address == a
  {
    var items := ToItems(d);
    forall k | 0 <= k < |items|
      ensures Lookup(d, items[k].address) == Some(items[k].value)
    {
      LookupAt(d, k);
    }
    forall a | HasKey(d, a)
      ensures exists k :: 0 <= k < |items| && items[k].address == a
    {
      var i :| 0 <= i < |d| && d[i].0 == a;
      assert items[i].address == a;
    }
  }

  /** `get_item` of a key returns one of the items `to_items` lists. */
  lemma GetItemListed(address: Address, d: AirdropData)
    requires HasKey(d, address)
    ensures GetItem(address, d).Ok? && GetItem(address, d).value in ToItems(d)
  {
    var i :| 0 <= i < |d| && d[i].0 == address;
    LookupAt(d, i);
    assert ToItems(d)[i] == GetItem(address, d).value;
  }
}
