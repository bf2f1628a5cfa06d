/** Bytes, fixed-width integers and the length-prefixed frames ("trains") that travel on a data
    connection, together with the pure counterpart of `recvn`.

    A C `char` is a `byte` here, so file names, paths and digests are byte sequences as well. */
module Wire {
  type byte = x: int | 0 <= x < 256
  type Bytes = seq<byte>

  datatype Option<+T> = None | Some(value: T)

  const DATA_SIZE := 4096
  const LARGE_FILE_THRESHOLD := 104857600

  function Min(a: int, b: int): int {
    if a < b then a else b
  }

  lemma Assoc<T>(a: seq<T>, b: seq<T>, c: seq<T>)
    ensures a + b + c == a + (b + c)
  {
  }

  // ----- integers in memory order -----

  function Pow256(k: nat): (p: nat)
    ensures p >= 1
  {
    if k == 0 then 1 else 256 * Pow256(k - 1)
  }

  function LittleEndian(n: nat, width: nat): (b: Bytes)
    ensures |b| == width
  {
    if width == 0 then [] else [n % 256] + LittleEndian(n / 256, width - 1)
  }

  function Unsigned(b: Bytes): nat {
    if b == [] then 0 else b[0] + 256 * Unsigned(b[1..])
  }

  /** Two's complement reading of the bytes, as `int` and `off_t` variables are read back. */
  function Signed(b: Bytes): int {
    var v := Unsigned(b);
    if 2 * v >= Pow256(|b|) then v - Pow256(|b|) else v
  }

  lemma {:induction false} UnsignedInvertsLittleEndian(n: nat, width: nat)
    requires n < Pow256(width)
    ensures Unsigned(LittleEndian(n, width)) == n
  {
    if width > 0 {
      UnsignedInvertsLittleEndian(n / 256, width - 1);
      assert LittleEndian(n, width)[1..] == LittleEndian(n / 256, width - 1);
    }
  }

  /** Lengths below 2^31 survive a four-byte header, sizes below 2^63 an eight-byte `off_t`. */
  lemma SignedInvertsLittleEndian(n: nat, width: nat)
    requires 2 * n < Pow256(width)
    ensures Signed(LittleEndian(n, width)) == n
  {
    UnsignedInvertsLittleEndian(n, width);
  }

  lemma PowersOf256()
    ensures Pow256(4) == 0x1_0000_0000
    ensures Pow256(8) == 0x1_0000_0000_0000_0000
  {
    assert Pow256(2) == 65536;
    assert Pow256(4) == 256 * (256 * Pow256(2));
    assert Pow256(6) == 256 * (256 * Pow256(4));
    assert Pow256(8) == 256 * (256 * Pow256(6));
  }

  /** A size that fits an `off_t`. */
  predicate IsOffT(n: int) {
    0 <= n < 0x8000_0000_0000_0000
  }

  function OffT(n: nat): Bytes {
    LittleEndian(n, 8)
  }

  function IntHeader(n: nat): (b: Bytes)
    ensures |b| == 4
  {
    LittleEndian(n, 4)
  }

  /** The `off_t` that received bytes are copied into: zero before, so missing bytes count as zero. */
  function ReadOffT(b: Bytes): int {
    Signed((b + [0, 0, 0, 0, 0, 0, 0, 0])[..8])
  }

  lemma OffTRoundTrip(n: nat)
    requires IsOffT(n)
    ensures ReadOffT(OffT(n)) == n
  {
    PowersOf256();
    SignedInvertsLittleEndian(n, 8);
    assert (OffT(n) + [0, 0, 0, 0, 0, 0, 0, 0])[..8] == OffT(n);
  }

  lemma IntHeaderRoundTrip(n: nat)
    requires n < 0x8000_0000
    ensures Signed(IntHeader(n)) == n
  {
    PowersOf256();
    SignedInvertsLittleEndian(n, 4);
  }

  lemma {:induction false} UnsignedIsBounded(b: Bytes)
    ensures Unsigned(b) < Pow256(|b|)
  {
    if b != [] {
      UnsignedIsBounded(b[1..]);
    }
  }

  lemma HeaderFitsInt(b: Bytes)
    requires |b| == 4
    ensures FitsInt(Signed(b))
  {
    UnsignedIsBounded(b);
    PowersOf256();
  }

  // ----- counts -----

  /** What is left of a byte count in an `int`, the return type of `recvn`. */
  function ToInt(n: int): (r: int)
    ensures n >= 0 ==> r <= n
  {
    var v := n % 0x1_0000_0000;
    if v < 0x8000_0000 then v else v - 0x1_0000_0000
  }

  predicate FitsInt(n: int) {
    n < 0x8000_0000
  }

  /** A count is kept up to 2^31 - 1 and changed beyond. */
  lemma ToIntKeepsIff(n: nat)
    ensures ToInt(n) == n <==> FitsInt(n)
  {
  }

  /** What a changed count leaves open is a multiple of 2^32, and of that nothing is left. */
  lemma ToIntOfRest(n: nat)
    ensures ToInt(n - ToInt(n)) == 0
    ensures !FitsInt(n) ==> n - ToInt(n) >= 0x1_0000_0000
  {
    var q, v := n / 0x1_0000_0000, n % 0x1_0000_0000;
    assert n == 0x1_0000_0000 * q + v;
    if v < 0x8000_0000 {
      assert n - ToInt(n) == 0x1_0000_0000 * q;
    } else {
      assert n - ToInt(n) == 0x1_0000_0000 * (q + 1);
    }
  }

  // ----- C strings -----

  function CStr(b: Bytes): (s: Bytes)
    ensures 0 !in s
    ensures |s| <= |b| && s == b[..|s|]
    ensures |s| < |b| ==> b[|s|] == 0
  {
    if b == [] || b[0] == 0 then [] else [b[0]] + CStr(b[1..])
  }

  lemma CStrIsUnique(b: Bytes, n: nat)
    requires n <= |b| && 0 !in b[..n]
    requires n < |b| ==> b[n] == 0
    ensures CStr(b) == b[..n]
  {
    var s := CStr(b);
    assert forall i | 0 <= i < n :: b[i] == b[..n][i] != 0;
    assert forall i | 0 <= i < |s| :: b[i] == s[i] != 0;
  }

  lemma CStrOfTerminated(s: Bytes, tail: Bytes)
    requires 0 !in s
    ensures CStr(s + [0] + tail) == s
    ensures CStr(s) == s
  {
    assert (s + [0] + tail)[..|s|] == s;
    CStrIsUnique(s + [0] + tail, |s|);
    assert s[..|s|] == s;
    CStrIsUnique(s, |s|);
  }

  // ----- frames -----

  function Train(data: Bytes): (w: Bytes)
    ensures |w| == 4 + |data|
  {
    IntHeader(|data|) + data
  }

  const END_MARK: Bytes := IntHeader(0)

  /** The frames of the small-file loops: chunks of at most DATA_SIZE bytes. */
  function EncodeChunks(s: Bytes): Bytes {
    if s == [] then []
    else
      var n := Min(DATA_SIZE, |s|);
      Train(s[..n]) + EncodeChunks(s[n..])
  }

  lemma NoChunks()
    ensures EncodeChunks([]) == []
  {
  }

  lemma EncodeChunksStep(s: Bytes, n: nat)
    requires s != [] && n == Min(DATA_SIZE, |s|)
    ensures EncodeChunks(s) == Train(s[..n]) + EncodeChunks(s[n..])
  {
  }

  // ----- receiving -----

  /** What `recvn(n)` yields on a connection that will deliver exactly `w`: the first `n` bytes and
      the rest, or None, which is its return value 0 (also the answer to a request for n <= 0). */
  function RecvN(w: Bytes, n: int): (r: Option<(Bytes, Bytes)>) {
    if 0 < n <= |w| then Some((w[..n], w[n..])) else None
  }

  function RecvHeader(w: Bytes): (r: Option<(int, Bytes)>) {
    if |w| < 4 then None else Some((Signed(w[..4]), w[4..]))
  }

  function RecvTrain(w: Bytes): (r: Option<(Bytes, Bytes)>) {
    match RecvHeader(w)
    case None => None
    case Some((n, rest)) => RecvN(rest, n)
  }

  /** A frame sent is the frame received, and nothing after it is touched. */
  lemma RecvTrainInvertsTrain(data: Bytes, tail: Bytes)
    requires 0 < |data| < 0x8000_0000
    ensures RecvTrain(Train(data) + tail) == Some((data, tail))
  {
    var w := Train(data) + tail;
    assert w[..4] == IntHeader(|data|);
    IntHeaderRoundTrip(|data|);
    assert w[4..] == data + tail;
    assert (data + tail)[..|data|] == data;
    assert (data + tail)[|data|..] == tail;
  }

  lemma RecvEndMark(tail: Bytes)
    ensures RecvHeader(END_MARK + tail) == Some((0, tail))
  {
    IntHeaderRoundTrip(0);
    assert (END_MARK + tail)[..4] == END_MARK;
    assert (END_MARK + tail)[4..] == tail;
  }

  /** Cutting the stream either loses the frame altogether or leaves it whole. */
  lemma RecvTrainOfPrefix(data: Bytes, tail: Bytes, w: Bytes)
    requires 0 < |data| < 0x8000_0000
    requires w <= Train(data) + tail
    ensures |w| < 4 + |data| ==> RecvTrain(w) == None
    ensures |w| >= 4 + |data| ==>
              w[4 + |data|..] <= tail && RecvTrain(w) == Some((data, w[4 + |data|..]))
  {
    var full := Train(data) + tail;
    if |w| >= 4 {
      assert w[..4] == full[..4] == IntHeader(|data|);
      IntHeaderRoundTrip(|data|);
      if |w| >= 4 + |data| {
        var t := w[4 + |data|..];
        assert w == Train(data) + t;
        assert t == full[4 + |data|..|w|];
        RecvTrainInvertsTrain(data, t);
      }
    }
  }
}
