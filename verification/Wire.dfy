/** The byte stream of a message: little-endian words, counted arrays, and the bounds a reader keeps.

    Encoders are functions to bytes; parsers take the unread bytes and return a value with the
    bytes that follow it. `Writer` and `Reader` are the classes both sides use, proved against them.
  */
module Wire {
  import opened Limits
  import opened Options

  type Byte = b: nat | b < 256
  type U32 = n: nat | n < 0x1_0000_0000
  type U64 = n: nat | n < 0x1_0000_0000_0000_0000
  type I32 = i: int | -0x8000_0000 <= i < 0x8000_0000

  type Bytes = seq<Byte>
  type Parsed<T> = Option<(T, Bytes)>

  // ---------------------------------------------------------------------------
  // Words
  // ---------------------------------------------------------------------------

  function Pow256(n: nat): (p: nat)
    ensures p > 0
  {
    if n == 0 then 1 else 256 * Pow256(n - 1)
  }

  /** The `i`-th byte of a value, counted from the lowest. */
  function ByteOf(v: nat, i: nat): Byte {
    if i == 0 then v % 256 else ByteOf(v / 256, i - 1)
  }

  /** The least significant `n` bytes, lowest first. */
  function Le(v: nat, n: nat): (bs: Bytes)
    ensures |bs| == n
  {
    seq(n, i requires 0 <= i < n => ByteOf(v, i))
  }

  lemma LeSplit(v: nat, n: nat)
    requires n > 0
    ensures Le(v, n) == [v % 256] + Le(v / 256, n - 1)
  {
  }

  function Value(bs: Bytes): (v: nat)
    ensures v < Pow256(|bs|)
  {
    if bs == [] then 0 else bs[0] + 256 * Value(bs[1..])
  }

  lemma {:induction false} ValueOfLe(v: nat, n: nat)
    requires v < Pow256(n)
    ensures Value(Le(v, n)) == v
    decreases n
  {
    if n > 0 {
      ValueOfLe(v / 256, n - 1);
      LeSplit(v, n);
      assert Le(v, n)[1..] == Le(v / 256, n - 1);
    }
  }

  lemma Powers()
    ensures Pow256(4) == 0x1_0000_0000 && Pow256(8) == 0x1_0000_0000_0000_0000
  {
    assert Pow256(1) == 256;
    assert Pow256(2) == 0x1_0000;
    assert Pow256(3) == 0x100_0000;
    assert Pow256(5) == 0x100_0000_0000;
    assert Pow256(6) == 0x1_0000_0000_0000;
    assert Pow256(7) == 0x100_0000_0000_0000;
  }

  function ParseWord(n: nat, input: Bytes): Parsed<nat> {
    if |input| < n then None else Some((Value(input[..n]), input[n..]))
  }

  lemma WordRoundTrip(v: nat, n: nat, rest: Bytes)
    requires v < Pow256(n)
    ensures ParseWord(n, Le(v, n) + rest) == Some((v, rest))
  {
    ValueOfLe(v, n);
    assert (Le(v, n) + rest)[..n] == Le(v, n) && (Le(v, n) + rest)[n..] == rest;
  }

  function EncodeU32(v: U32): Bytes {
    Le(v, 4)
  }

  function EncodeU64(v: U64): Bytes {
    Le(v, 8)
  }

  /** Two's complement. */
  function ToWord(v: I32): U32 {
    if v >= 0 then v else v + 0x1_0000_0000
  }

  lemma TwosComplement(v: I32)
    ensures ToWord(v) == (v as int) % 0x1_0000_0000
  {
  }

  function FromWord(w: U32): I32 {
    if w < 0x8000_0000 then w else w - 0x1_0000_0000
  }

  function EncodeI32(v: I32): Bytes {
    EncodeU32(ToWord(v))
  }

  function ParseU32(input: Bytes): Parsed<U32> {
    Powers();
    ParseWord(4, input)
  }

  function ParseU64(input: Bytes): Parsed<U64> {
    Powers();
    ParseWord(8, input)
  }

  function ParseI32(input: Bytes): Parsed<I32> {
    match ParseU32(input)
    case None => None
    case Some((w, rest)) => Some((FromWord(w), rest))
  }

  lemma U32RoundTrip(v: U32, rest: Bytes)
    ensures ParseU32(EncodeU32(v) + rest) == Some((v, rest))
  {
    Powers();
    WordRoundTrip(v, 4, rest);
  }

  lemma U64RoundTrip(v: U64, rest: Bytes)
    ensures ParseU64(EncodeU64(v) + rest) == Some((v, rest))
  {
    Powers();
    WordRoundTrip(v, 8, rest);
  }

  lemma I32RoundTrip(v: I32, rest: Bytes)
    ensures ParseI32(EncodeI32(v) + rest) == Some((v, rest))
  {
    U32RoundTrip(ToWord(v), rest);
  }

  /** The first of two fields is followed by the second and then by the rest. */
  lemma Peel(a: Bytes, b: Bytes, rest: Bytes)
    ensures a + b + rest == a + (b + rest)
  {
  }

  // ---------------------------------------------------------------------------
  // Counted arrays
  // ---------------------------------------------------------------------------

  function EncodeAll<T>(encode: T -> Bytes, xs: seq<T>): Bytes {
    if xs == [] then [] else encode(xs[0]) + EncodeAll(encode, xs[1..])
  }

  /** An array travels as its length and its elements. */
  function EncodeArray<T>(encode: T -> Bytes, xs: seq<T>): Bytes
    requires |xs| <= MAX_ARRAY_ELEMENTS
  {
    EncodeU32(|xs|) + EncodeAll(encode, xs)
  }

  function ParseAll<T>(parse: Bytes -> Parsed<T>, n: nat, input: Bytes): Parsed<seq<T>> {
    if n == 0 then Some(([], input))
    else
      match parse(input)
      case None => None
      case Some((x, rest)) =>
        match ParseAll(parse, n - 1, rest)
        case None => None
        case Some((xs, rest')) => Some(([x] + xs, rest'))
  }

  /** A count is refused when it is too large, or when that many elements of at least `least` bytes
      cannot fit in what is left. */
  function ParseArray<T>(parse: Bytes -> Parsed<T>, least: nat, input: Bytes): Parsed<seq<T>> {
    match ParseU32(input)
    case None => None
    case Some((n, rest)) =>
      if n > MAX_ARRAY_ELEMENTS || n > |rest| / (if least == 0 then 1 else least) then None
      else ParseAll(parse, n, rest)
  }

  /** An array whose count is only bounded, not compared with what is left. */
  function ParseBoundedArray<T>(parse: Bytes -> Parsed<T>, input: Bytes): Parsed<seq<T>> {
    match ParseU32(input)
    case None => None
    case Some((n, rest)) => if n > MAX_ARRAY_ELEMENTS then None else ParseAll(parse, n, rest)
  }

  /** Reading back what was written gives the value and leaves exactly the rest. */
  ghost predicate Inverse<T(!new)>(encode: T -> Bytes, parse: Bytes -> Parsed<T>, xs: set<T>) {
    forall x, rest :: x in xs ==> parse(encode(x) + rest) == Some((x, rest))
  }

  function Elements<T>(xs: seq<T>): set<T> {
    set i | 0 <= i < |xs| :: xs[i]
  }

  lemma FewerElements<T>(xs: seq<T>)
    requires xs != []
    ensures xs[0] in Elements(xs) && Elements(xs[1..]) <= Elements(xs)
  {
    var tail := xs[1..];
    forall i | 0 <= i < |tail| ensures tail[i] in Elements(xs) { assert tail[i] == xs[i + 1]; }
  }

  lemma {:induction false} AllRoundTrip<T(!new)>(encode: T -> Bytes, parse: Bytes -> Parsed<T>, xs: seq<T>, rest: Bytes)
    requires Inverse(encode, parse, Elements(xs))
    ensures ParseAll(parse, |xs|, EncodeAll(encode, xs) + rest) == Some((xs, rest))
    decreases |xs|
  {
    if xs == [] {
      assert EncodeAll(encode, xs) + rest == rest;
    } else {
      var tail := xs[1..];
      FewerElements(xs);
      hide Elements;
      AllRoundTrip(encode, parse, tail, rest);
      assert EncodeAll(encode, xs) + rest == encode(xs[0]) + (EncodeAll(encode, tail) + rest);
      assert [xs[0]] + tail == xs;
    }
  }

  /** Encoded elements are long enough for the reader's bound. */
  lemma {:induction false} AllLong<T>(encode: T -> Bytes, xs: seq<T>, least: nat)
    requires forall i | 0 <= i < |xs| :: |encode(xs[i])| >= least
    ensures |EncodeAll(encode, xs)| >= |xs| * least
    decreases |xs|
  {
    if xs != [] {
      forall i | 0 <= i < |xs[1..]| ensures |encode(xs[1..][i])| >= least { assert xs[1..][i] == xs[i + 1]; }
      AllLong(encode, xs[1..], least);
      assert |xs| * least == least + |xs[1..]| * least;
    }
  }

  lemma BoundHolds(n: nat, least: nat, size: nat)
    requires size >= n * least && least > 0
    ensures n <= size / least
  {
    var q := size / least;
    assert size < (q + 1) * least;
  }

  /** The count guard never refuses what an encoder wrote. */
  lemma ArrayRoundTrip<T(!new)>(encode: T -> Bytes, parse: Bytes -> Parsed<T>, least: nat, xs: seq<T>, rest: Bytes)
    requires |xs| <= MAX_ARRAY_ELEMENTS && least > 0 && Inverse(encode, parse, Elements(xs))
    requires forall i | 0 <= i < |xs| :: |encode(xs[i])| >= least
    ensures ParseArray(parse, least, EncodeArray(encode, xs) + rest) == Some((xs, rest))
  {
    var body := EncodeAll(encode, xs) + rest;
    assert EncodeArray(encode, xs) + rest == EncodeU32(|xs|) + body;
    U32RoundTrip(|xs|, body);
    AllLong(encode, xs, least);
    BoundHolds(|xs|, least, |body|);
    AllRoundTrip(encode, parse, xs, rest);
  }

  lemma BoundedArrayRoundTrip<T(!new)>(encode: T -> Bytes, parse: Bytes -> Parsed<T>, xs: seq<T>, rest: Bytes)
    requires |xs| <= MAX_ARRAY_ELEMENTS && Inverse(encode, parse, Elements(xs))
    ensures ParseBoundedArray(parse, EncodeArray(encode, xs) + rest) == Some((xs, rest))
  {
    var body := EncodeAll(encode, xs) + rest;
    assert EncodeArray(encode, xs) + rest == EncodeU32(|xs|) + body;
    U32RoundTrip(|xs|, body);
    AllRoundTrip(encode, parse, xs, rest);
  }

  lemma U32sRoundTrip(xs: seq<U32>, rest: Bytes)
    requires |xs| <= MAX_ARRAY_ELEMENTS
    ensures ParseBoundedArray(ParseU32, EncodeArray(EncodeU32, xs) + rest) == Some((xs, rest))
  {
    forall x: U32, more | x in Elements(xs) ensures ParseU32(EncodeU32(x) + more) == Some((x, more)) {
      U32RoundTrip(x, more);
    }
    BoundedArrayRoundTrip(EncodeU32, ParseU32, xs, rest);
  }

  lemma U64sRoundTrip(xs: seq<U64>, rest: Bytes)
    requires |xs| <= MAX_ARRAY_ELEMENTS
    ensures ParseBoundedArray(ParseU64, EncodeArray(EncodeU64, xs) + rest) == Some((xs, rest))
  {
    forall x: U64, more | x in Elements(xs) ensures ParseU64(EncodeU64(x) + more) == Some((x, more)) {
      U64RoundTrip(x, more);
    }
    BoundedArrayRoundTrip(EncodeU64, ParseU64, xs, rest);
  }

  lemma I32sRoundTrip(xs: seq<I32>, rest: Bytes)
    requires |xs| <= MAX_ARRAY_ELEMENTS
    ensures ParseBoundedArray(ParseI32, EncodeArray(EncodeI32, xs) + rest) == Some((xs, rest))
  {
    forall x: I32, more | x in Elements(xs) ensures ParseI32(EncodeI32(x) + more) == Some((x, more)) {
      I32RoundTrip(x, more);
    }
    BoundedArrayRoundTrip(EncodeI32, ParseI32, xs, rest);
  }

  // ---------------------------------------------------------------------------
  // What is read was written
  // ---------------------------------------------------------------------------

  /** Byte `i` of a word is its digit of weight 256 to the `i`. */
  lemma {:induction false} LittleEndian(v: nat, n: nat, i: nat)
    requires i < n
    ensures Le(v, n)[i] == v / Pow256(i) % 256
    decreases i
  {
    if i > 0 {
      LittleEndian(v / 256, n, i - 1);
      DivDiv(v, Pow256(i - 1));
    }
  }

  lemma DivDiv(v: nat, p: nat)
    requires p > 0
    ensures v / 256 / p == v / (256 * p)
  {
    var a, r := v / 256, v % 256;
    var q, t := a / p, a % p;
    assert v == 256 * (q * p + t) + r == (256 * p) * q + (256 * t + r);
    assert 256 * t + r < 256 * p;
    QuotientIs(v, 256 * p, q, 256 * t + r);
  }

  lemma QuotientIs(v: nat, m: nat, q: nat, r: nat)
    requires r < m && v == m * q + r
    ensures v / m == q
  {
    var a, b := v / m, v % m;
    var d := a - q;
    assert v == m * a + b;
    assert m * a == m * q + m * d;
    if d >= 1 {
      Times(m, d);
    }
  }

  lemma Times(m: nat, d: nat)
    requires d >= 1
    ensures m * d >= m
  {
  }

  lemma {:induction false} LeOfValue(bs: Bytes)
    ensures Le(Value(bs), |bs|) == bs
    decreases |bs|
  {
    if bs != [] {
      LeOfValue(bs[1..]);
      LeSplit(Value(bs), |bs|);
      assert Value(bs) % 256 == bs[0] && Value(bs) / 256 == Value(bs[1..]);
    }
  }

  lemma ParsedWord(n: nat, input: Bytes)
    requires ParseWord(n, input).Some?
    ensures var (v, rest) := ParseWord(n, input).value; v < Pow256(n) && input == Le(v, n) + rest
  {
    LeOfValue(input[..n]);
    hide Le, Value, Pow256;
    assert |input[..n]| == n && input[..n] + input[n..] == input;
  }

  lemma ParsedU32(input: Bytes)
    requires ParseU32(input).Some?
    ensures var (v, rest) := ParseU32(input).value; input == EncodeU32(v) + rest
  {
    ParsedWord(4, input);
  }

  lemma ParsedU64(input: Bytes)
    requires ParseU64(input).Some?
    ensures var (v, rest) := ParseU64(input).value; input == EncodeU64(v) + rest
  {
    ParsedWord(8, input);
  }

  lemma ParsedI32(input: Bytes)
    requires ParseI32(input).Some?
    ensures var (v, rest) := ParseI32(input).value; input == EncodeI32(v) + rest
  {
    ParsedU32(input);
  }

  /** Whatever is read is in order, and was encoded so. */
  ghost predicate Canonical<T(!new)>(encode: T -> Bytes, ok: T -> bool, parse: Bytes -> Parsed<T>) {
    forall input :: parse(input).Some? ==>
      ok(parse(input).value.0) && input == encode(parse(input).value.0) + parse(input).value.1
  }

  predicate AllOk<T>(ok: T -> bool, xs: seq<T>) {
    forall i | 0 <= i < |xs| :: ok(xs[i])
  }

  lemma {:induction false} AllCanonical<T(!new)>(encode: T -> Bytes, ok: T -> bool, parse: Bytes -> Parsed<T>, n: nat,
                                                input: Bytes)
    requires Canonical(encode, ok, parse) && ParseAll(parse, n, input).Some?
    ensures var (xs, rest) := ParseAll(parse, n, input).value;
            |xs| == n && AllOk(ok, xs) && input == EncodeAll(encode, xs) + rest
    decreases n
  {
    if n > 0 {
      var (x, after) := parse(input).value;
      AllCanonical(encode, ok, parse, n - 1, after);
      var (xs, rest) := ParseAll(parse, n - 1, after).value;
      assert ([x] + xs)[1..] == xs;
      assert encode(x) + (EncodeAll(encode, xs) + rest) == encode(x) + EncodeAll(encode, xs) + rest;
    }
  }

  lemma BoundedArrayCanonical<T(!new)>(encode: T -> Bytes, ok: T -> bool, parse: Bytes -> Parsed<T>, input: Bytes)
    requires Canonical(encode, ok, parse) && ParseBoundedArray(parse, input).Some?
    ensures var (xs, rest) := ParseBoundedArray(parse, input).value;
            |xs| <= MAX_ARRAY_ELEMENTS && AllOk(ok, xs) && input == EncodeArray(encode, xs) + rest
  {
    ParsedU32(input);
    var (n, after) := ParseU32(input).value;
    AllCanonical(encode, ok, parse, n, after);
    var (xs, rest) := ParseAll(parse, n, after).value;
    assert EncodeU32(n) + (EncodeAll(encode, xs) + rest) == EncodeU32(n) + EncodeAll(encode, xs) + rest;
  }

  lemma ArrayCanonical<T(!new)>(encode: T -> Bytes, ok: T -> bool, parse: Bytes -> Parsed<T>, least: nat, input: Bytes)
    requires Canonical(encode, ok, parse) && ParseArray(parse, least, input).Some?
    ensures var (xs, rest) := ParseArray(parse, least, input).value;
            |xs| <= MAX_ARRAY_ELEMENTS && AllOk(ok, xs) && input == EncodeArray(encode, xs) + rest
  {
    assert ParseBoundedArray(parse, input) == ParseArray(parse, least, input);
    BoundedArrayCanonical(encode, ok, parse, input);
  }

  /** Elements of one size stand side by side. */
  lemma {:induction false} ElementAt<T>(encode: T -> Bytes, xs: seq<T>, size: nat, j: nat)
    requires (forall i | 0 <= i < |xs| :: |encode(xs[i])| == size) && j < |xs|
    ensures |EncodeAll(encode, xs)| == |xs| * size && (j + 1) * size <= |xs| * size
    ensures EncodeAll(encode, xs)[j * size..(j + 1) * size] == encode(xs[j])
    decreases |xs|
  {
    var tail := xs[1..];
    forall i | 0 <= i < |tail| ensures |encode(tail[i])| == size { assert tail[i] == xs[i + 1]; }
    AllSized(encode, tail, size);
    var body := EncodeAll(encode, tail);
    Distribute(|tail|, size);
    Distribute(j, size);
    if j > 0 {
      ElementAt(encode, tail, size, j - 1);
      Distribute(j - 1, size);
      SliceAfter(encode(xs[0]), body, (j - 1) * size, j * size);
    } else {
      assert (encode(xs[0]) + body)[..size] == encode(xs[0]);
    }
  }

  lemma Distribute(n: nat, size: nat)
    ensures (n + 1) * size == n * size + size
  {
  }

  lemma SliceAfter(a: Bytes, b: Bytes, from: nat, to: nat)
    requires from <= to <= |b|
    ensures (a + b)[|a| + from..|a| + to] == b[from..to]
  {
  }

  lemma {:induction false} AllSized<T>(encode: T -> Bytes, xs: seq<T>, size: nat)
    requires forall i | 0 <= i < |xs| :: |encode(xs[i])| == size
    ensures |EncodeAll(encode, xs)| == |xs| * size
    decreases |xs|
  {
    if xs != [] {
      var tail := xs[1..];
      forall i | 0 <= i < |tail| ensures |encode(tail[i])| == size { assert tail[i] == xs[i + 1]; }
      AllSized(encode, tail, size);
      assert |xs| * size == size + |tail| * size;
    }
  }

  // ---------------------------------------------------------------------------
  // Where the words are
  // ---------------------------------------------------------------------------

  /** The word of `size` bytes at a position. */
  predicate WordAt(bs: Bytes, at: nat, size: nat, v: nat) {
    at + size <= |bs| && forall i | 0 <= i < size :: bs[at + i] == v / Pow256(i) % 256
  }

  lemma WordIs(bs: Bytes, at: nat, size: nat, v: nat)
    requires at + size <= |bs| && bs[at..at + size] == Le(v, size)
    ensures WordAt(bs, at, size, v)
  {
    forall i: nat | i < size ensures bs[at + i] == v / Pow256(i) % 256 {
      LittleEndian(v, size, i);
      assert bs[at + i] == bs[at..at + size][i];
    }
  }

  /** A word keeps its place behind what comes before. */
  lemma WordMoves(a: Bytes, b: Bytes, rest: Bytes, at: nat, size: nat, v: nat)
    requires WordAt(b, at, size, v)
    ensures WordAt(a + b + rest, |a| + at, size, v)
  {
    forall i: nat | i < size ensures (a + b + rest)[|a| + at + i] == v / Pow256(i) % 256 {
      assert (a + b + rest)[|a| + at + i] == b[at + i];
    }
  }

  /** A counted array of elements of one size: the count, and field `f` of element `j`. */
  lemma FieldAt<T>(encode: T -> Bytes, xs: seq<T>, size: nat, j: nat, f: nat, width: nat, v: nat)
    requires |xs| <= MAX_ARRAY_ELEMENTS && j < |xs| && (forall i | 0 <= i < |xs| :: |encode(xs[i])| == size)
    requires WordAt(encode(xs[j]), f, width, v)
    ensures WordAt(EncodeArray(encode, xs), 4 + j * size + f, width, v)
  {
    ElementAt(encode, xs, size, j);
    var body := EncodeAll(encode, xs);
    Distribute(j, size);
    assert body == body[..j * size] + encode(xs[j]) + body[(j + 1) * size..];
    hide WordAt, Le, EncodeAll;
    WordMoves(body[..j * size], encode(xs[j]), body[(j + 1) * size..], f, width, v);
    WordMoves(EncodeU32(|xs|), body, [], j * size + f, width, v);
    assert EncodeU32(|xs|) + body + [] == EncodeArray(encode, xs);
  }

  lemma FieldLies<T>(encode: T -> Bytes, a: Bytes, xs: seq<T>, rest: Bytes, size: nat, j: nat, f: nat, width: nat, v: nat)
    requires |xs| <= MAX_ARRAY_ELEMENTS && j < |xs| && (forall i | 0 <= i < |xs| :: |encode(xs[i])| == size)
    requires WordAt(encode(xs[j]), f, width, v)
    ensures WordAt(a + EncodeArray(encode, xs) + rest, |a| + 4 + j * size + f, width, v)
  {
    FieldAt(encode, xs, size, j, f, width, v);
    WordMoves(a, EncodeArray(encode, xs), rest, 4 + j * size + f, width, v);
  }

  lemma CountLies<T>(encode: T -> Bytes, a: Bytes, xs: seq<T>, rest: Bytes, size: nat)
    requires |xs| <= MAX_ARRAY_ELEMENTS && forall i | 0 <= i < |xs| :: |encode(xs[i])| == size
    ensures |EncodeArray(encode, xs)| == 4 + |xs| * size
    ensures WordAt(a + EncodeArray(encode, xs) + rest, |a|, 4, |xs|)
  {
    CountAt(encode, xs, size);
    WordMoves(a, EncodeArray(encode, xs), rest, 0, 4, |xs|);
  }

  lemma CountAt<T>(encode: T -> Bytes, xs: seq<T>, size: nat)
    requires |xs| <= MAX_ARRAY_ELEMENTS && forall i | 0 <= i < |xs| :: |encode(xs[i])| == size
    ensures |EncodeArray(encode, xs)| == 4 + |xs| * size && WordAt(EncodeArray(encode, xs), 0, 4, |xs|)
  {
    AllSized(encode, xs, size);
    hide WordAt;
    assert EncodeArray(encode, xs)[0..4] == Le(|xs|, 4);
    WordIs(EncodeArray(encode, xs), 0, 4, |xs|);
  }

  // ---------------------------------------------------------------------------
  // The writer and the reader
  // ---------------------------------------------------------------------------

  class Writer {
    var data: Bytes

    constructor ()
      ensures data == []
    {
      data := [];
    }

    method Word(v: nat, n: nat)
      modifies this
      ensures data == old(data) + Le(v, n)
    {
      var left, k := v, 0;
      while k < n
        invariant k <= n
        invariant data + Le(left, n - k) == old(data) + Le(v, n)
      {
        LeSplit(left, n - k);
        assert data + Le(left, n - k) == (data + [left % 256]) + Le(left / 256, n - k - 1);
        data := data + [left % 256];
        left := left / 256;
        k := k + 1;
      }
      assert data + [] == data;
    }

    method U32(v: U32)
      modifies this
      ensures data == old(data) + EncodeU32(v)
    {
      Word(v, 4);
    }

    method U64(v: U64)
      modifies this
      ensures data == old(data) + EncodeU64(v)
    {
      Word(v, 8);
    }

    method I32(v: I32)
      modifies this
      ensures data == old(data) + EncodeI32(v)
    {
      Word(ToWord(v), 4);
    }

    method Append(other: Writer)
      modifies this
      ensures data == old(data) + old(other.data)
    {
      data := data + other.data;
    }
  }

  /** A read past the end fails the reader, and a failed reader only yields zeros. */
  class Reader {
    const data: Bytes
    var pos: nat
    var failed: bool

    constructor (data: Bytes)
      ensures this.data == data && Valid() && !failed && Rest() == data
    {
      this.data := data;
      pos, failed := 0, false;
    }

    predicate Valid()
      reads this
    {
      pos <= |data|
    }

    function Rest(): Bytes
      requires Valid()
      reads this
    {
      data[pos..]
    }

    function Remaining(): nat
      requires Valid()
      reads this
    {
      if failed then 0 else |data| - pos
    }

    method Word(n: nat) returns (v: nat)
      requires Valid()
      modifies this
      ensures Valid()
      ensures failed <==> old(failed) || ParseWord(n, old(Rest())).None?
      ensures !failed ==> ParseWord(n, old(Rest())) == Some((v, Rest()))
      ensures failed ==> v == 0 && pos == old(pos)
      ensures v < Pow256(n)
    {
      if failed || pos + n > |data| {
        failed := true;
        return 0;
      }
      ghost var input := Rest();
      v := 0;
      var k := n;
      while k > 0
        invariant 0 <= k <= n && pos == old(pos) && pos + n <= |data| && !failed
        invariant v == Value(data[pos + k..pos + n])
      {
        k := k - 1;
        assert data[pos + k..pos + n][1..] == data[pos + k + 1..pos + n];
        v := data[pos + k] + 256 * v;
      }
      assert k == 0 && data[pos + k..pos + n] == data[pos..pos + n] == input[..n];
      pos := pos + n;
      assert input[n..] == data[pos..];
    }

    method U32() returns (v: U32)
      requires Valid()
      modifies this
      ensures Valid()
      ensures failed <==> old(failed) || ParseU32(old(Rest())).None?
      ensures !failed ==> ParseU32(old(Rest())) == Some((v, Rest()))
      ensures failed ==> v == 0 && pos == old(pos)
    {
      Powers();
      v := Word(4);
    }

    method U64() returns (v: U64)
      requires Valid()
      modifies this
      ensures Valid()
      ensures failed <==> old(failed) || ParseU64(old(Rest())).None?
      ensures !failed ==> ParseU64(old(Rest())) == Some((v, Rest()))
      ensures failed ==> v == 0 && pos == old(pos)
    {
      Powers();
      v := Word(8);
    }

    method I32() returns (v: I32)
      requires Valid()
      modifies this
      ensures Valid()
      ensures failed <==> old(failed) || ParseI32(old(Rest())).None?
      ensures !failed ==> ParseI32(old(Rest())) == Some((v, Rest()))
      ensures failed ==> v == 0 && pos == old(pos)
    {
      var w := U32();
      v := FromWord(w);
    }
  }
}
