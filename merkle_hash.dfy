/**
 * The hashing helper `sha(*args)` of merkle_drop/merkle_tree.py: its arguments are sorted
 * with Python's `<`, each one is turned into bytes (an integer as 4 bytes big-endian, a byte
 * string as itself) and the bytes are fed, in sorted order, to one SHA-256 hasher.
 *
 * SHA-256 itself is not modelled: every member takes the digest function as a parameter
 * `h: Hasher`, a total function from byte strings to digests; `Sha256Shaped` says that its
 * digests are 32 bytes long, where that matters.
 */
module MerkleHash {
  import opened Wrappers

  newtype byte = b: int | 0 <= b < 256

  type Digest = seq<byte>

  const DigestLength: nat := 32

  /** The hash function behind `hashlib.sha256()`: message in, digest out. */
  type Hasher = seq<byte> -> seq<byte>

  /** SHA-256 digests are 32 bytes long. */
  ghost predicate Sha256Shaped(h: Hasher) {
    forall m :: |h(m)| == DigestLength
  }

  /** The Python exceptions the Merkle code can raise. */
  datatype Error =
    | TypeError      // `args.sort()` on a mix of integers and byte strings
    | OverflowError  // `int.to_bytes(4, "big")` on a value outside [0, 2^32)
    | IndexError     // `current_nodes[0]` on an empty level

  /** An argument of `sha`: the code passes tree values (integers) and node hashes (bytes). */
  datatype Arg = IntArg(n: int) | BytesArg(b: seq<byte>)

  // ---------------------------------------------------------------------------
  // Integer encoding: `arg.to_bytes(4, byteorder="big")`

  const IntBound: int := 0x1_0000_0000

  predicate FitsFourBytes(n: int) {
    0 <= n < IntBound
  }

  function ToBytes4(n: int): (r: seq<byte>)
    requires FitsFourBytes(n)
    ensures |r| == 4
  {
    var q1 := n / 0x100;
    var q2 := q1 / 0x100;
    [(q2 / 0x100) as byte, (q2 % 0x100) as byte, (q1 % 0x100) as byte, (n % 0x100) as byte]
  }

  /** Reads four bytes as a big-endian number: the inverse of `ToBytes4`. */
  function FromBytes4(b: seq<byte>): (n: int)
    requires |b| == 4
    ensures FitsFourBytes(n)
  {
    ((b[0] as int * 0x100 + b[1] as int) * 0x100 + b[2] as int) * 0x100 + b[3] as int
  }

  lemma ToBytes4RoundTrip(n: int)
    requires FitsFourBytes(n)
    ensures FromBytes4(ToBytes4(n)) == n
  {
    var q1 := n / 0x100;
    var q2 := q1 / 0x100;
    assert q2 / 0x100 * 0x100 + q2 % 0x100 == q2;
    assert q2 * 0x100 + q1 % 0x100 == q1;
    assert q1 * 0x100 + n % 0x100 == n;
  }

  /** Distinct integers in range have distinct encodings. */
  lemma ToBytes4Injective(m: int, n: int)
    requires FitsFourBytes(m) && FitsFourBytes(n) && ToBytes4(m) == ToBytes4(n)
    ensures m == n
  {
    ToBytes4RoundTrip(m);
    ToBytes4RoundTrip(n);
  }

  // ---------------------------------------------------------------------------
  // Python's ordering of byte strings: lexicographic, a proper prefix comes first

  predicate LexLeq(a: seq<byte>, b: seq<byte>) {
    |a| == 0 || (|b| > 0 && (a[0] < b[0] || (a[0] == b[0] && LexLeq(a[1..], b[1..]))))
  }

  lemma {:induction false} LexTotal(a: seq<byte>, b: seq<byte>)
    ensures LexLeq(a, b) || LexLeq(b, a)
  {
    if |a| > 0 && |b| > 0 && a[0] == b[0] {
      LexTotal(a[1..], b[1..]);
    }
  }

  lemma {:induction false} LexAntisymmetric(a: seq<byte>, b: seq<byte>)
    requires LexLeq(a, b) && LexLeq(b, a)
    ensures a == b
  {
    if |a| > 0 && |b| > 0 {
      LexAntisymmetric(a[1..], b[1..]);
      assert a == [a[0]] + a[1..] && b == [b[0]] + b[1..];
    }
  }

  lemma {:induction false} LexTransitive(a: seq<byte>, b: seq<byte>, c: seq<byte>)
    requires LexLeq(a, b) && LexLeq(b, c)
    ensures LexLeq(a, c)
  {
    if |a| > 0 && a[0] == b[0] && b[0] == c[0] {
      LexTransitive(a[1..], b[1..], c[1..]);
    }
  }

  // ---------------------------------------------------------------------------
  // `args.sort()`

  /** Python can only order the arguments when they are all integers or all byte strings. */
  predicate Orderable(args: seq<Arg>) {
    forall i, j :: 0 <= i < |args| && 0 <= j < |args| ==> args[i].IntArg? == args[j].IntArg?
  }

  predicate ArgLeq(a: Arg, b: Arg) {
    match (a, b)
    case (IntArg(x), IntArg(y)) => x <= y
    case (BytesArg(x), BytesArg(y)) => LexLeq(x, y)
    case _ => false
  }

  predicate SortedArgs(s: seq<Arg>) {
    forall i, j :: 0 <= i < j < |s| ==> ArgLeq(s[i], s[j])
  }

  function Insert(x: Arg, s: seq<Arg>): (r: seq<Arg>)
    ensures multiset(r) == multiset(s) + multiset{x}
  {
    if |s| == 0 then [x]
    else if ArgLeq(x, s[0]) then [x] + s
    else assert s == [s[0]] + s[1..]; [s[0]] + Insert(x, s[1..])
  }

  /** Insertion sort; on an orderable list it agrees with Python's `list.sort`. */
  function SortArgs(s: seq<Arg>): (r: seq<Arg>)
    ensures multiset(r) == multiset(s)
  {
    if |s| == 0 then []
    else assert s == [s[0]] + s[1..]; Insert(s[0], SortArgs(s[1..]))
  }

  lemma ArgLeqTotal(a: Arg, b: Arg)
    requires a.IntArg? == b.IntArg?
    ensures ArgLeq(a, b) || ArgLeq(b, a)
  {
    if a.BytesArg? {
      LexTotal(a.b, b.b);
    }
  }

  lemma ArgLeqTransitive(a: Arg, b: Arg, c: Arg)
    requires ArgLeq(a, b) && ArgLeq(b, c)
    ensures ArgLeq(a, c)
  {
    if a.BytesArg? {
      LexTransitive(a.b, b.b, c.b);
    }
  }

  lemma {:induction false} InsertSorted(x: Arg, s: seq<Arg>)
    requires SortedArgs(s)
    requires forall i :: 0 <= i < |s| ==> s[i].IntArg? == x.IntArg?
    ensures SortedArgs(Insert(x, s))
  {
    if |s| > 0 {
      if ArgLeq(x, s[0]) {
        forall j | 0 <= j < |s| ensures ArgLeq(x, s[j]) {
          if j > 0 { ArgLeqTransitive(x, s[0], s[j]); }
        }
        ConsSorted(x, s);
      } else {
        ArgLeqTotal(x, s[0]);
        InsertSorted(x, s[1..]);
        InsertAbove(s[0], x, s[1..]);
        ConsSorted(s[0], Insert(x, s[1..]));
      }
    }
  }

  /** A sorted list stays sorted with a lower bound of all its elements in front. */
  lemma ConsSorted(y: Arg, t: seq<Arg>)
    requires SortedArgs(t) && forall j :: 0 <= j < |t| ==> ArgLeq(y, t[j])
    ensures SortedArgs([y] + t)
  {
    var r := [y] + t;
    forall i, j | 0 <= i < j < |r| ensures ArgLeq(r[i], r[j]) {
      assert r[j] == t[j - 1];
      if i > 0 { assert r[i] == t[i - 1]; }
    }
  }

  /** A lower bound of a sorted list and of `x` is a lower bound of `x` inserted into it. */
  lemma InsertAbove(y: Arg, x: Arg, s: seq<Arg>)
    requires ArgLeq(y, x) && forall k :: 0 <= k < |s| ==> ArgLeq(y, s[k])
    ensures forall j :: 0 <= j < |Insert(x, s)| ==> ArgLeq(y, Insert(x, s)[j])
  {
    var t := Insert(x, s);
    forall j | 0 <= j < |t| ensures ArgLeq(y, t[j]) {
      assert t[j] in multiset(s) + multiset{x} by { assert t[j] in multiset(t); }
      if t[j] != x {
        assert t[j] in s;
      }
    }
  }

  /** The sorted arguments are in ascending order (and, by `SortArgs`'s contract, a permutation). */
  lemma {:induction false} SortArgsSorted(s: seq<Arg>)
    requires Orderable(s)
    ensures SortedArgs(SortArgs(s))
  {
    if |s| > 0 {
      SortArgsSorted(s[1..]);
      var r := SortArgs(s[1..]);
      forall i | 0 <= i < |r| ensures r[i].IntArg? == s[0].IntArg? {
        assert r[i] in multiset(s[1..]);
      }
      InsertSorted(s[0], r);
    }
  }

  // ---------------------------------------------------------------------------
  // Feeding the hasher: `for arg in args: m.update(to_bytes(arg))`

  /** `to_bytes(arg)`: an integer as its 4 big-endian bytes, which read back as the integer,
      or an OverflowError outside [0, 2^32); a byte string as itself. */
  function Encode(a: Arg): (r: Result<seq<byte>, Error>)
    ensures r.Ok? <==> (a.IntArg? ==> FitsFourBytes(a.n))
    ensures r.Err? ==> r.error == OverflowError
    ensures a.IntArg? && r.Ok? ==> |r.value| == 4 && FromBytes4(r.value) == a.n
    ensures a.BytesArg? ==> r == Ok(a.b)
  {
    match a
    case IntArg(n) =>
      if FitsFourBytes(n) then ToBytes4RoundTrip(n); Ok(ToBytes4(n)) else Err(OverflowError)
    case BytesArg(b) => Ok(b)
  }

  /** The bytes fed to the hasher for `args` in order, or the error of the first bad argument. */
  function Feed(args: seq<Arg>): Result<seq<byte>, Error> {
    if |args| == 0 then Ok([])
    else
      match Feed(args[..|args| - 1])
      case Err(e) => Err(e)
      case Ok(m) =>
        match Encode(args[|args| - 1])
        case Err(e) => Err(e)
        case Ok(b) => Ok(m + b)
  }

  lemma FeedSnoc(s: seq<Arg>, x: Arg)
    ensures Feed(s + [x]) == match Feed(s)
                             case Err(e) => Err(e)
                             case Ok(m) => (match Encode(x) case Err(e) => Err(e) case Ok(b) => Ok(m + b))
  {
    assert (s + [x])[..|s|] == s;
  }

  lemma {:induction false} FeedErrorSticks(args: seq<Arg>, k: nat)
    requires k <= |args| && Feed(args[..k]).Err?
    ensures Feed(args) == Feed(args[..k])
    decreases |args| - k
  {
    if k < |args| {
      assert args[..k + 1] == args[..k] + [args[k]];
      FeedSnoc(args[..k], args[k]);
      FeedErrorSticks(args, k + 1);
    } else {
      assert args[..k] == args;
    }
  }

  /** What `sha(*args)` returns, or the exception it raises. */
  function ShaSpec(h: Hasher, args: seq<Arg>): Result<Digest, Error> {
    if !Orderable(args) then Err(TypeError)
    else
      match Feed(SortArgs(args))
      case Err(e) => Err(e)
      case Ok(m) => Ok(h(m))
  }

  /** merkle_tree.py `sha`: sort, then feed the encodings to the hasher one by one. */
  method Sha(h: Hasher, args: seq<Arg>) returns (r: Result<Digest, Error>)
    ensures r == ShaSpec(h, args)
  {
    if !Orderable(args) {
      return Err(TypeError);
    }
    var sorted := SortArgs(args);
    var fed: seq<byte> := [];
    for i := 0 to |sorted|
      invariant Feed(sorted[..i]) == Ok(fed)
    {
      assert sorted[..i + 1] == sorted[..i] + [sorted[i]];
      FeedSnoc(sorted[..i], sorted[i]);
      var chunk := Encode(sorted[i]);
      if chunk.Err? {
        FeedErrorSticks(sorted, i + 1);
        return Err(chunk.error);
      }
      fed := fed + chunk.value;
    }
    assert sorted[..|sorted|] == sorted;
    return Ok(h(fed));
  }

  // ---------------------------------------------------------------------------
  // The two ways the Merkle code calls `sha`

  /** The digest of one encodable value: `sha(value)`. */
  predicate Encodable(v: Arg) {
    Encode(v).Ok?
  }

  function LeafHash(h: Hasher, v: Arg): Digest
    requires Encodable(v)
  {
    h(Encode(v).value)
  }

  /** `sha(value)` is the digest of the value's encoding, or OverflowError for an integer
      outside [0, 2^32). */
  lemma ShaOfValue(h: Hasher, v: Arg)
    ensures ShaSpec(h, [v]) == if Encodable(v) then Ok(LeafHash(h, v)) else Err(OverflowError)
  {
    assert Orderable([v]);
    SortSingle(v);
    FeedSingle(v);
  }

  lemma SortSingle(x: Arg)
    ensures SortArgs([x]) == [x]
  {
    assert [x][1..] == [];
  }

  lemma FeedSingle(x: Arg)
    ensures Feed([x]) == Encode(x)
  {
    assert [x][..0] == [];
    match Encode(x)
    case Ok(b) => assert [] + b == b;
    case Err(e) =>
  }

  /** The parent hash of two digests: the hash of `min(a, b) + max(a, b)` under the byte-string order. */
  function PairHash(h: Hasher, a: Digest, b: Digest): Digest {
    h(if LexLeq(a, b) then a + b else b + a)
  }

  /** A parent hash is a digest like any other: 32 bytes under SHA-256. */
  lemma PairHashLength(h: Hasher, a: Digest, b: Digest)
    requires Sha256Shaped(h)
    ensures |PairHash(h, a, b)| == DigestLength
  {
  }

  lemma SortPair(x: Arg, y: Arg)
    ensures SortArgs([x, y]) == if ArgLeq(x, y) then [x, y] else [y, x]
  {
    assert [x, y][1..] == [y];
    assert SortArgs([y]) == Insert(y, SortArgs([])) == [y];
  }

  /** `sha(hash1, hash2)` on two byte strings never fails and equals `PairHash`. */
  lemma ShaOfPair(h: Hasher, a: Digest, b: Digest)
    ensures ShaSpec(h, [BytesArg(a), BytesArg(b)]) == Ok(PairHash(h, a, b))
  {
    var x, y := BytesArg(a), BytesArg(b);
    assert Orderable([x, y]);
    SortPair(x, y);
    if LexLeq(a, b) {
      FeedBytesPair(a, b);
    } else {
      FeedBytesPair(b, a);
    }
  }

  lemma FeedBytesPair(a: seq<byte>, b: seq<byte>)
    ensures Feed([BytesArg(a), BytesArg(b)]) == Ok(a + b)
  {
    assert [BytesArg(a), BytesArg(b)][..1] == [BytesArg(a)];
    FeedSingle(BytesArg(a));
  }

  /** The parent hash does not depend on which child is on the left. */
  lemma PairHashSymmetric(h: Hasher, a: Digest, b: Digest)
    ensures PairHash(h, a, b) == PairHash(h, b, a)
  {
    LexTotal(a, b);
    if LexLeq(a, b) && LexLeq(b, a) {
      LexAntisymmetric(a, b);
    }
  }

  /** `sha(x, y) == sha(y, x)` for any two arguments, including the TypeError of a mixed pair. */
  lemma ShaSymmetric(h: Hasher, x: Arg, y: Arg)
    ensures ShaSpec(h, [x, y]) == ShaSpec(h, [y, x])
  {
    OrderablePair(x, y);
    OrderablePair(y, x);
    if x.IntArg? == y.IntArg? {
      ArgLeqTotal(x, y);
      SortPair(x, y);
      SortPair(y, x);
      if ArgLeq(x, y) && ArgLeq(y, x) {
        ArgLeqAntisymmetric(x, y);
      }
    }
  }

  /** Two arguments can be sorted exactly when they are both integers or both byte strings. */
  lemma OrderablePair(x: Arg, y: Arg)
    ensures Orderable([x, y]) <==> x.IntArg? == y.IntArg?
  {
    if x.IntArg? != y.IntArg? {
      assert [x, y][0].IntArg? != [x, y][1].IntArg?;
    }
  }

  lemma ArgLeqAntisymmetric(a: Arg, b: Arg)
    requires ArgLeq(a, b) && ArgLeq(b, a)
    ensures a == b
  {
    if a.BytesArg? {
      LexAntisymmetric(a.b, b.b);
    }
  }
}
