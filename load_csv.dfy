/**
 * merkle_drop/load_csv.py: the check `validate_address_value_pairs` runs over the rows of an
 * airdrop CSV file, and the dict `load_airdrop_file` builds from the rows once they pass.
 *
 * Reading the file is not modelled: the rows arrive as the lists of strings `csv.reader`
 * yields. The eth_utils helpers `is_address` and `to_canonical_address` are parameters.
 * `str.isdigit` is modelled on ASCII digits.
 */
module LoadCsv {
  import opened Wrappers
  import opened MerkleHash
  import opened Airdrop

  /** One line of the file, split into its fields. */
  type Row = seq<string>

  /** The `ValueError`s the validator raises, with what each message reports. */
  datatype ValueError =
    | WrongArity(reported: nat)        // "Expected two values per line, but got ..."
    | NotAnAddress(address: string)    // "Expected checksummed hex address, but got ..."
    | NotDecimal(value: string)        // "Expected decimal number as value, but got ..."
    | DuplicateAddress(address: string) // "Got address ... multiple times"

  // ---------------------------------------------------------------------------
  // Decimal values: `value.isdigit()` and `int(value)`

  predicate IsDigit(c: char) {
    '0' <= c <= '9'
  }

  /** `value.isdigit()`: a non-empty string of decimal digits, so no sign, point or prefix. */
  predicate IsDecimal(s: string) {
    |s| > 0 && forall i :: 0 <= i < |s| ==> IsDigit(s[i])
  }

  function DigitValue(c: char): nat
    requires IsDigit(c)
  {
    c as int - '0' as int
  }

  function Pow10(n: nat): (p: nat)
    ensures p >= 1
  {
    if n == 0 then 1 else 10 * Pow10(n - 1)
  }

  /** `int(value)` on a string of digits: a number below 10^n for n digits, and at least
      10^(n-1) unless the string has a leading zero. */
  function DecimalValue(s: string): (v: nat)
    requires IsDecimal(s)
    ensures v < Pow10(|s|)
    ensures s[0] != '0' ==> Pow10(|s| - 1) <= v
  {
    if |s| == 1 then DigitValue(s[0])
    else
      var prefix := s[..|s| - 1];
      var u, d := DecimalValue(prefix), DigitValue(s[|s| - 1]);
      assert prefix[0] == s[0];
      assert u * 10 + d < Pow10(|s|) by {
        assert u + 1 <= Pow10(|prefix|);
        assert (u + 1) * 10 <= Pow10(|prefix|) * 10;
      }
      u * 10 + d
  }

  /** `str(n)`: the digits of a natural number. */
  function ToDecimal(n: nat): (s: string)
    ensures IsDecimal(s)
  {
    var d := ['0' + (n % 10) as char];
    if n < 10 then d else ToDecimal(n / 10) + d
  }

  /** Every natural number written in decimal passes the check and reads back as itself:
      the values have no upper bound. */
  lemma {:induction false} DecimalRoundTrip(n: nat)
    ensures DecimalValue(ToDecimal(n)) == n
  {
    if n >= 10 {
      var s := ToDecimal(n);
      DecimalRoundTrip(n / 10);
      assert s[..|s| - 1] == ToDecimal(n / 10);
    }
  }

  /** The values the tests expect to be refused. */
  lemma NonDecimalValues()
    ensures !IsDecimal("") && !IsDecimal("-3") && !IsDecimal("1.2") && !IsDecimal("0xaa")
  {
    assert !IsDigit("-3"[0]) && !IsDigit("1.2"[1]) && !IsDigit("0xaa"[1]);
  }

  // ---------------------------------------------------------------------------
  // validate_address_value_pairs

  /** A row the per-row checks accept. */
  predicate WellFormed(isAddress: string -> bool, row: Row) {
    |row| == 2 && isAddress(row[0]) && IsDecimal(row[1])
  }

  /** Which count the wrong-arity message reports: `AsWritten`, the number of lines of the file,
      as line 24 of load_csv.py formats it; `Corrected`, the number of values on the refused line. */
  datatype ArityMessage = AsWritten | Corrected

  /** The arity error as the message is written: it reports the number of lines. */
  function ArityErrorAsWritten(rows: seq<Row>): ValueError {
    WrongArity(|rows|)
  }

  /** The corrected arity error, reporting the number of values found on the line. */
  function ArityError(row: Row): ValueError {
    WrongArity(|row|)
  }

  /** The arity error of `row`, one of the lines `rows`, under either message. */
  function ArityReport(m: ArityMessage, rows: seq<Row>, row: Row): ValueError {
    match m
    case AsWritten => ArityErrorAsWritten(rows)
    case Corrected => ArityError(row)
  }

  /** The first per-row check a row of the lines `rows` fails, in the order the loop body
      makes them. */
  function RowFault(isAddress: string -> bool, m: ArityMessage, rows: seq<Row>, row: Row): (e: Option<ValueError>)
    ensures e.None? <==> WellFormed(isAddress, row)
    ensures |row| != 2 && m == AsWritten ==> e == Some(WrongArity(|rows|))
    ensures |row| != 2 && m == Corrected ==> e == Some(WrongArity(|row|))
    ensures |row| == 2 && !isAddress(row[0]) ==> e == Some(NotAnAddress(row[0]))
    ensures WellFormed(isAddress, row) || e.value.WrongArity? == (|row| != 2)
  {
    if |row| != 2 then Some(ArityReport(m, rows, row))
    else if !isAddress(row[0]) then Some(NotAnAddress(row[0]))
    else if !IsDecimal(row[1]) then Some(NotDecimal(row[1]))
    else None
  }

  /** Row `j` is a two-field row whose address has canonical form `c`. */
  predicate HasCanonical(canonical: string -> Address, row: Row, c: Address) {
    |row| == 2 && canonical(row[0]) == c
  }

  /** Why row `k` is refused once the rows before it passed: a failed row check, or an
      address whose canonical form an earlier row already has. */
  ghost function FaultAt(isAddress: string -> bool, canonical: string -> Address, m: ArityMessage, rows: seq<Row>, k: nat)
    : Option<ValueError>
    requires k < |rows|
  {
    match RowFault(isAddress, m, rows, rows[k])
    case Some(e) => Some(e)
    case None =>
      if exists j :: 0 <= j < k && HasCanonical(canonical, rows[j], canonical(rows[k][0]))
      then Some(DuplicateAddress(rows[k][0]))
      else None
  }

  /** The first `n` rows pass. */
  ghost predicate CleanUpTo(isAddress: string -> bool, canonical: string -> Address, m: ArityMessage, rows: seq<Row>, n: nat) {
    n <= |rows| && forall k :: 0 <= k < n ==> FaultAt(isAddress, canonical, m, rows, k).None?
  }

  /** Every row is well formed and no two rows name the same canonical address. */
  ghost predicate ValidRows(isAddress: string -> bool, canonical: string -> Address, rows: seq<Row>) {
    (forall k :: 0 <= k < |rows| ==> WellFormed(isAddress, rows[k])) &&
    (forall j, k :: 0 <= j < k < |rows| ==> canonical(rows[j][0]) != canonical(rows[k][0]))
  }

  /** Passing every row's check is the same as every row being well formed with no canonical
      address repeated. */
  lemma CleanIffValid(isAddress: string -> bool, canonical: string -> Address, m: ArityMessage, rows: seq<Row>)
    ensures CleanUpTo(isAddress, canonical, m, rows, |rows|) <==> ValidRows(isAddress, canonical, rows)
  {
    if CleanUpTo(isAddress, canonical, m, rows, |rows|) {
      forall k | 0 <= k < |rows|
        ensures WellFormed(isAddress, rows[k])
      {
        assert FaultAt(isAddress, canonical, m, rows, k).None?;
      }
      forall j, k | 0 <= j < k < |rows|
        ensures canonical(rows[j][0]) != canonical(rows[k][0])
      {
        assert FaultAt(isAddress, canonical, m, rows, k).None?;
        assert !HasCanonical(canonical, rows[j], canonical(rows[k][0]));
      }
    }
    if ValidRows(isAddress, canonical, rows) {
      forall k | 0 <= k < |rows|
        ensures FaultAt(isAddress, canonical, m, rows, k).None?
      {
        assert WellFormed(isAddress, rows[k]);
        forall j | 0 <= j < k
          ensures !HasCanonical(canonical, rows[j], canonical(rows[k][0]))
        {
          assert canonical(rows[j][0]) != canonical(rows[k][0]);
        }
      }
    }
  }

  /** The canonical addresses of the first `k` rows, when those rows all have two fields. */
  ghost predicate SeenExactly(canonical: string -> Address, rows: seq<Row>, k: nat, seen: set<Address>)
    requires k <= |rows|
  {
    forall c :: c in seen <==> exists j :: 0 <= j < k && HasCanonical(canonical, rows[j], c)
  }

  /** `validate_address_value_pairs`: the loop over the rows with the set of canonical addresses
      seen so far. It accepts exactly the valid lists of rows; otherwise it raises the error of
      the first row that fails. */
  method ValidateAddressValuePairs(isAddress: string -> bool, canonical: string -> Address, m: ArityMessage, rows: seq<Row>)
    returns (r: Result<(), ValueError>)
    ensures r.Ok? <==> ValidRows(isAddress, canonical, rows)
    ensures r.Err? ==> exists k :: 0 <= k < |rows| && CleanUpTo(isAddress, canonical, m, rows, k) &&
                                   FaultAt(isAddress, canonical, m, rows, k) == Some(r.error)
  {
    CleanIffValid(isAddress, canonical, m, rows);
    var addresses: set<Address> := {};
    for k := 0 to |rows|
      invariant CleanUpTo(isAddress, canonical, m, rows, k)
      invariant SeenExactly(canonical, rows, k, addresses)
    {
      var row := rows[k];
      if |row| != 2 {
        var e := ArityReport(m, rows, row);
        assert FaultAt(isAddress, canonical, m, rows, k) == Some(e);
        return Err(e);
      }
      var address, value := row[0], row[1];
      if !isAddress(address) {
        assert FaultAt(isAddress, canonical, m, rows, k) == Some(NotAnAddress(address));
        return Err(NotAnAddress(address));
      }
      if !IsDecimal(value) {
        assert FaultAt(isAddress, canonical, m, rows, k) == Some(NotDecimal(value));
        return Err(NotDecimal(value));
      }
      var c := canonical(address);
      if c in addresses {
        assert FaultAt(isAddress, canonical, m, rows, k) == Some(DuplicateAddress(address));
        return Err(DuplicateAddress(address));
      }
      assert FaultAt(isAddress, canonical, m, rows, k).None?;
      addresses := addresses + {c};
      assert SeenExactly(canonical, rows, k + 1, addresses) by {
        forall c' | c' in addresses
          ensures exists j :: 0 <= j < k + 1 && HasCanonical(canonical, rows[j], c')
        {
          if c' == c {
            assert HasCanonical(canonical, rows[k], c');
          }
        }
      }
    }
    r := Ok(());
  }

  /** An outcome allowed by the validator's contract is determined by the rows: when row `k0`
      is the first that fails, the error raised is that row's. */
  lemma RefusedAtFirstFault(isAddress: string -> bool, canonical: string -> Address, m: ArityMessage, rows: seq<Row>, k0: nat,
                            r: Result<(), ValueError>)
    requires k0 < |rows| && CleanUpTo(isAddress, canonical, m, rows, k0) && FaultAt(isAddress, canonical, m, rows, k0).Some?
    requires r.Ok? <==> ValidRows(isAddress, canonical, rows)
    requires r.Err? ==> exists k :: 0 <= k < |rows| && CleanUpTo(isAddress, canonical, m, rows, k) &&
                                    FaultAt(isAddress, canonical, m, rows, k) == Some(r.error)
    ensures r == Err(FaultAt(isAddress, canonical, m, rows, k0).value)
  {
    CleanIffValid(isAddress, canonical, m, rows);
    var k :| 0 <= k < |rows| && CleanUpTo(isAddress, canonical, m, rows, k) &&
             FaultAt(isAddress, canonical, m, rows, k) == Some(r.error);
    assert !(k < k0) && !(k0 < k);
  }

  // ---------------------------------------------------------------------------
  // The dict of load_airdrop_file

  /** The position of `key` among the entries. */
  function KeyIndex(d: seq<Entry>, key: Address): (i: nat)
    requires HasKey(d, key)
    ensures i < |d| && d[i].0 == key
  {
    if d[0].0 == key then 0
    else
      assert HasKey(d[1..], key) by {
        var i :| 0 <= i < |d| && d[i].0 == key;
        assert d[1..][i - 1] == d[i];
      }
      1 + KeyIndex(d[1..], key)
  }

  /** `d[key] = value` on an insertion-ordered dict: an existing key keeps its place and takes
      the new value, a new one goes to the end. */
  function SetItem(d: AirdropData, key: Address, value: int): (r: AirdropData)
    ensures HasKey(d, key) ==> |r| == |d|
    ensures HasKey(d, key) ==>
              forall j :: 0 <= j < |d| ==> r[j] == (if d[j].0 == key then (key, value) else d[j])
    ensures !HasKey(d, key) ==> r == d + [(key, value)]
  {
    if HasKey(d, key) then
      var i := KeyIndex(d, key);
      var r := d[i := (key, value)];
      assert forall j :: 0 <= j < |d| ==> r[j].0 == d[j].0;
      r
    else
      var r := d + [(key, value)];
      assert forall j :: 0 <= j < |d| ==> r[j] == d[j];
      r
  }

  /** Inserting adds `key` to the keys and no other. */
  lemma SetItemKeys(d: AirdropData, key: Address, value: int)
    ensures forall a :: HasKey(SetItem(d, key, value), a) <==> HasKey(d, a) || a == key
  {
    var r := SetItem(d, key, value);
    forall a
      ensures HasKey(r, a) <==> HasKey(d, a) || a == key
    {
      if HasKey(r, a) {
        var j :| 0 <= j < |r| && r[j].0 == a;
        if j < |d| && a != key {
          assert d[j].0 == a;
        }
      }
      if HasKey(d, a) {
        var j :| 0 <= j < |d| && d[j].0 == a;
        assert r[j].0 == a;
      }
      if a == key {
        if HasKey(d, key) {
          var i := KeyIndex(d, key);
          assert r[i].0 == key;
        } else {
          assert r[|d|].0 == key;
        }
      }
    }
  }

  /** After `d[key] = value`, `key` maps to `value` and every other key to what it mapped to. */
  lemma SetItemLookup(d: AirdropData, key: Address, value: int, a: Address)
    ensures Lookup(SetItem(d, key, value), a) == if a == key then Some(value) else Lookup(d, a)
  {
    var r := SetItem(d, key, value);
    SetItemKeys(d, key, value);
    if a == key {
      if HasKey(d, key) {
        var i := KeyIndex(d, key);
        assert r[i] == (key, value);
        LookupAt(r, i);
      } else {
        assert r[|d|] == (key, value);
        LookupAt(r, |d|);
      }
    } else if HasKey(d, a) {
      var j :| 0 <= j < |d| && d[j].0 == a;
      assert r[j] == d[j];
      LookupAt(r, j);
      LookupAt(d, j);
    }
  }

  /** The dict comprehension `{to_canonical_address(address): int(value) for address, value in
      rows}`: each row in turn stored under its canonical address. */
  function BuildData(canonical: string -> Address, rows: seq<Row>): (d: AirdropData)
    requires forall k :: 0 <= k < |rows| ==> |rows[k]| == 2 && IsDecimal(rows[k][1])
    ensures forall a :: HasKey(d, a) <==> exists k :: 0 <= k < |rows| && canonical(rows[k][0]) == a
  {
    if |rows| == 0 then []
    else
      var n := |rows| - 1;
      var before := BuildData(canonical, rows[..n]);
      var d := SetItem(before, canonical(rows[n][0]), DecimalValue(rows[n][1]));
      SetItemKeys(before, canonical(rows[n][0]), DecimalValue(rows[n][1]));
      assert forall k :: 0 <= k < n ==> rows[..n][k] == rows[k];
      d
  }

  /** For rows that passed validation the dict has one entry per row, in row order, from the
      row's canonical address to the integer value of its second field. */
  lemma {:induction false} BuildDataOfValidRows(isAddress: string -> bool, canonical: string -> Address, rows: seq<Row>)
    requires ValidRows(isAddress, canonical, rows)
    ensures |BuildData(canonical, rows)| == |rows|
    ensures forall k :: 0 <= k < |rows| ==>
      BuildData(canonical, rows)[k] == (canonical(rows[k][0]), DecimalValue(rows[k][1]))
  {
    if |rows| > 0 {
      var n := |rows| - 1;
      var prefix := rows[..n];
      assert ValidRows(isAddress, canonical, prefix) by {
        assert forall k :: 0 <= k < n ==> prefix[k] == rows[k];
      }
      BuildDataOfValidRows(isAddress, canonical, prefix);
      var before := BuildData(canonical, prefix);
      assert !HasKey(before, canonical(rows[n][0])) by {
        assert forall k :: 0 <= k < n ==> prefix[k] == rows[k];
      }
    }
  }

  /** `load_airdrop_file` after the file is read: validate the rows, then build the dict. */
  method LoadAirdropRows(isAddress: string -> bool, canonical: string -> Address, rows: seq<Row>)
    returns (r: Result<AirdropData, ValueError>)
    ensures r.Ok? <==> ValidRows(isAddress, canonical, rows)
    ensures r.Ok? ==> |r.value| == |rows| && forall k :: 0 <= k < |rows| ==>
      r.value[k] == (canonical(rows[k][0]), DecimalValue(rows[k][1]))
    ensures r.Err? ==> exists k :: 0 <= k < |rows| && CleanUpTo(isAddress, canonical, AsWritten, rows, k) &&
                                   FaultAt(isAddress, canonical, AsWritten, rows, k) == Some(r.error)
  {
    var checked := ValidateAddressValuePairs(isAddress, canonical, AsWritten, rows);
    if checked.Err? {
      return Err(checked.error);
    }
    BuildDataOfValidRows(isAddress, canonical, rows);
    r := Ok(BuildData(canonical, rows));
  }

  /** Each claimant's balance in the loaded data is the value on their row. */
  lemma LoadedBalance(isAddress: string -> bool, canonical: string -> Address, rows: seq<Row>, k: nat)
    requires ValidRows(isAddress, canonical, rows) && k < |rows|
    ensures GetBalance(canonical(rows[k][0]), BuildData(canonical, rows)) == DecimalValue(rows[k][1])
  {
    BuildDataOfValidRows(isAddress, canonical, rows);
    GetBalanceListed(BuildData(canonical, rows), k);
  }

  // ---------------------------------------------------------------------------
  // The wrong count in the arity message

  /** A line with three values: the message as written reports 1, the number of lines, where
      the line has 3 values; the corrected message reports 3. */
  lemma ArityMessageMiscounts(address: string)
    ensures ArityErrorAsWritten([[address, "0", "a third entry"]]) == WrongArity(1)
    ensures ArityError([address, "0", "a third entry"]) == WrongArity(3)
  {
  }

  /** With the corrected message a refused line's reported count is its own number of values,
      never 2. */
  lemma ArityErrorReportsRow(isAddress: string -> bool, canonical: string -> Address, rows: seq<Row>, k: nat)
    requires k < |rows| && |rows[k]| != 2
    ensures FaultAt(isAddress, canonical, Corrected, rows, k) == Some(WrongArity(|rows[k]|))
    ensures FaultAt(isAddress, canonical, Corrected, rows, k).value.reported != 2
  {
  }

  /** The validator as written refuses a short second line with "got 2", the very count it
      expects, and a three-value line with "got 1"; the corrected one reports 1 and 3. */
  method ArityMessageExamples(isAddress: string -> bool, canonical: string -> Address, a: string, b: string)
    returns (twoLines: Result<(), ValueError>, twoLinesCorrected: Result<(), ValueError>,
             threeValues: Result<(), ValueError>, threeValuesCorrected: Result<(), ValueError>)
    requires isAddress(a)
    ensures twoLines == Err(WrongArity(2)) && twoLinesCorrected == Err(WrongArity(1))
    ensures threeValues == Err(WrongArity(1)) && threeValuesCorrected == Err(WrongArity(3))
  {
    assert IsDecimal("0") by {
      assert IsDigit("0"[0]);
    }
    var rows := [[a, "0"], [b]];
    assert CleanUpTo(isAddress, canonical, AsWritten, rows, 1) && CleanUpTo(isAddress, canonical, Corrected, rows, 1);
    twoLines := ValidateAddressValuePairs(isAddress, canonical, AsWritten, rows);
    RefusedAtFirstFault(isAddress, canonical, AsWritten, rows, 1, twoLines);
    twoLinesCorrected := ValidateAddressValuePairs(isAddress, canonical, Corrected, rows);
    RefusedAtFirstFault(isAddress, canonical, Corrected, rows, 1, twoLinesCorrected);
    var long := [[a, "0", "a third entry"]];
    threeValues := ValidateAddressValuePairs(isAddress, canonical, AsWritten, long);
    RefusedAtFirstFault(isAddress, canonical, AsWritten, long, 0, threeValues);
    threeValuesCorrected := ValidateAddressValuePairs(isAddress, canonical, Corrected, long);
    RefusedAtFirstFault(isAddress, canonical, Corrected, long, 0, threeValuesCorrected);
  }

  // ---------------------------------------------------------------------------
  // The validation examples of the command line tests

  /** The lists the command line tests expect to pass, for an address `a` that `is_address`
      accepts: none, one row, and one row with the value 2^256 - 1. */
  method AcceptedExamples(isAddress: string -> bool, canonical: string -> Address, a: string)
    returns (empty: Result<(), ValueError>, one: Result<(), ValueError>, huge: Result<(), ValueError>)
    requires isAddress(a)
    ensures empty.Ok? && one.Ok? && huge.Ok?
  {
    empty := ValidateAddressValuePairs(isAddress, canonical, AsWritten, []);
    assert IsDecimal("0") by {
      assert IsDigit("0"[0]);
    }
    one := ValidateAddressValuePairs(isAddress, canonical, AsWritten, [[a, "0"]]);
    var big := ToDecimal(Pow2To256Minus1());
    huge := ValidateAddressValuePairs(isAddress, canonical, AsWritten, [[a, big]]);
  }

  /** Lines with one and with three values are refused; as written, each message reports the
      one line of the file. */
  method ArityExamples(isAddress: string -> bool, canonical: string -> Address, a: string)
    returns (short: Result<(), ValueError>, long: Result<(), ValueError>)
    ensures short == Err(WrongArity(1)) && long == Err(WrongArity(1))
  {
    short := ValidateAddressValuePairs(isAddress, canonical, AsWritten, [[a]]);
    RefusedAtFirstFault(isAddress, canonical, AsWritten, [[a]], 0, short);
    long := ValidateAddressValuePairs(isAddress, canonical, AsWritten, [[a, "0", "a third entry"]]);
    RefusedAtFirstFault(isAddress, canonical, AsWritten, [[a, "0", "a third entry"]], 0, long);
  }

  /** The same address on two lines is refused at the second. */
  method DuplicateExample(isAddress: string -> bool, canonical: string -> Address, a: string)
    returns (twice: Result<(), ValueError>)
    requires isAddress(a)
    ensures twice == Err(DuplicateAddress(a))
  {
    var rows := [[a, "0"], [a, "0"]];
    assert IsDecimal("0") by {
      assert IsDigit("0"[0]);
    }
    assert HasCanonical(canonical, rows[0], canonical(a));
    twice := ValidateAddressValuePairs(isAddress, canonical, AsWritten, rows);
    RefusedAtFirstFault(isAddress, canonical, AsWritten, rows, 1, twice);
  }

  /** A hexadecimal value and an address in the value column are refused. */
  method ValueExamples(isAddress: string -> bool, canonical: string -> Address, a: string)
    returns (hex: Result<(), ValueError>, swapped: Result<(), ValueError>)
    requires isAddress(a) && !isAddress("0")
    ensures hex == Err(NotDecimal("0xaa")) && swapped == Err(NotAnAddress("0"))
  {
    NonDecimalValues();
    hex := ValidateAddressValuePairs(isAddress, canonical, AsWritten, [[a, "0xaa"]]);
    RefusedAtFirstFault(isAddress, canonical, AsWritten, [[a, "0xaa"]], 0, hex);
    swapped := ValidateAddressValuePairs(isAddress, canonical, AsWritten, [["0", a]]);
    RefusedAtFirstFault(isAddress, canonical, AsWritten, [["0", a]], 0, swapped);
  }

  /** 2^256 - 1, the largest value of the valid examples. */
  function Pow2To256Minus1(): nat {
    0x1_0000_0000_0000_0000_0000_0000_0000_0000_0000_0000_0000_0000_0000_0000_0000_0000 - 1
  }
}
