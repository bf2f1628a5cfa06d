/** The chunked SHA-256 loop over a file descriptor and the hexadecimal form of its result.
    SHA-256 itself is a parameter: any function from byte strings to 32 bytes. */
module Digest {
  import opened Wire

  const BUF_SIZE := 4096
  const SHA256_STR_LEN := 64

  type Digest32 = d: Bytes | |d| == 32 witness seq(32, _ => 0)
  type Hash = Bytes -> Digest32

  function HexDigit(n: int): byte
    requires 0 <= n < 16
  {
    if n < 10 then 48 + n else 87 + n
  }

  function Hex(d: Bytes): (s: Bytes)
    ensures |s| == 2 * |d|
    ensures forall i | 0 <= i < |s| :: s[i] >= 48
  {
    if d == [] then [] else [HexDigit(d[0] / 16), HexDigit(d[0] % 16)] + Hex(d[1..])
  }

  lemma {:induction false} HexIsInjective(d: Bytes, e: Bytes)
    requires Hex(d) == Hex(e)
    ensures d == e
  {
    assert |d| == |e|;
    if d != [] {
      var s, t := Hex(d), Hex(e);
      assert s[0] == t[0] && s[1] == t[1];
      assert d[0] == 16 * (d[0] / 16) + d[0] % 16;
      assert e[0] == 16 * (e[0] / 16) + e[0] % 16;
      assert d[0] == e[0];
      assert s[2..] == Hex(d[1..]) && t[2..] == Hex(e[1..]);
      HexIsInjective(d[1..], e[1..]);
      assert d == [d[0]] + d[1..] && e == [e[0]] + e[1..];
    }
  }

  /** "0123456789abcdef" */
  const DIGITS: Bytes := [48, 49, 50, 51, 52, 53, 54, 55, 56, 57, 97, 98, 99, 100, 101, 102]

  lemma DigitIs(n: int)
    requires 0 <= n < 16
    ensures HexDigit(n) == DIGITS[n]
  {
  }

  /** Two digits per byte, the upper four bits first. */
  lemma {:induction false} HexDigits(d: Bytes, i: nat)
    requires i < |d|
    ensures Hex(d)[2 * i] == DIGITS[d[i] / 16] && Hex(d)[2 * i + 1] == DIGITS[d[i] % 16]
  {
    hide HexDigit;
    DigitIs(d[i] / 16);
    DigitIs(d[i] % 16);
    if i > 0 {
      HexDigits(d[1..], i - 1);
      assert Hex(d)[2 * i] == Hex(d[1..])[2 * (i - 1)];
    }
  }

  lemma {:induction false} HexConcat(d: Bytes, e: Bytes)
    ensures Hex(d + e) == Hex(d) + Hex(e)
  {
    hide HexDigit;
    if d == [] {
      assert d + e == e;
    } else {
      HexConcat(d[1..], e);
      var first := [HexDigit(d[0] / 16), HexDigit(d[0] % 16)];
      assert (d + e)[1..] == d[1..] + e && (d + e)[0] == d[0];
      Assoc(first, Hex(d[1..]), Hex(e));
    }
  }

  /** The 64-character string the programs exchange and store. */
  function Sha(h: Hash, x: Bytes): (s: Bytes)
    ensures |s| == SHA256_STR_LEN
    ensures forall i | 0 <= i < |s| :: s[i] >= 48
    ensures 0 !in s
  {
    Hex(h(x))
  }

  predicate Collision(h: Hash, x: Bytes, y: Bytes) {
    x != y && h(x) == h(y)
  }

  lemma SameShaMeansSameContentOrCollision(h: Hash, x: Bytes, y: Bytes)
    ensures Sha(h, x) == Sha(h, y) <==> x == y || Collision(h, x, y)
  {
    if Sha(h, x) == Sha(h, y) {
      HexIsInjective(h(x), h(y));
    }
  }

  /** A descriptor open on a regular file: `read` returns the bytes asked for, or those left. */
  class OpenFile {
    const content: Bytes
    var pos: nat

    constructor (content: Bytes)
      ensures this.content == content && pos == 0
    {
      this.content := content;
      pos := 0;
    }

    method Lseek(offset: nat)
      modifies this
      ensures pos == offset
    {
      pos := offset;
    }

    method Read(n: nat) returns (chunk: Bytes)
      modifies this
      ensures old(pos) <= |content| ==>
                chunk == content[old(pos)..old(pos) + Min(n, |content| - old(pos))]
      ensures old(pos) > |content| ==> chunk == []
      ensures pos == old(pos) + |chunk|
    {
      if pos > |content| {
        return [];
      }
      chunk := content[pos..pos + Min(n, |content| - pos)];
      pos := pos + |chunk|;
    }
  }

  method HexString(digest: Bytes) returns (sha256_str: Bytes)
    ensures sha256_str == Hex(digest)
  {
    sha256_str := [];
    for i := 0 to |digest|
      invariant sha256_str == Hex(digest[..i])
    {
      sha256_str := sha256_str + [HexDigit(digest[i] / 16), HexDigit(digest[i] % 16)];
      HexConcat(digest[..i], [digest[i]]);
      assert digest[..i + 1] == digest[..i] + [digest[i]];
      assert Hex([digest[i]]) == [HexDigit(digest[i] / 16), HexDigit(digest[i] % 16)] + Hex([]);
    }
    assert digest[..|digest|] == digest;
  }

  /** Bytes counted by the loop after `n` rounds on a file of `size` bytes. */
  function HashLoopTotal(size: nat, offset: nat, length: int, n: nat): (total: int)
    ensures 0 <= total
  {
    if n == 0 then 0
    else
      var total := HashLoopTotal(size, offset, length, n - 1);
      if total >= length then total
      else
        var left := if offset + total <= size then size - (offset + total) else 0;
        total + Min(Min(length - total, BUF_SIZE), left)
  }

  ghost predicate HashLoopEnds(size: nat, offset: nat, length: int) {
    exists n: nat :: HashLoopTotal(size, offset, length, n) >= length
  }

  lemma {:induction false} HashLoopStaysInFile(size: nat, offset: nat, length: int, n: nat)
    ensures HashLoopTotal(size, offset, length, n) <= if offset <= size then size - offset else 0
  {
    if n > 0 {
      HashLoopStaysInFile(size, offset, length, n - 1);
    }
  }

  lemma {:induction false} HashLoopAdvances(size: nat, offset: nat, length: int, n: nat)
    requires offset + length <= size
    ensures HashLoopTotal(size, offset, length, n) >= Min(n, length)
  {
    if n > 0 {
      HashLoopStaysInFile(size, offset, length, n - 1);
      HashLoopAdvances(size, offset, length, n - 1);
    }
  }

  /** The loop comes to an end exactly when the slice lies within the file: past the end, `read`
      returns 0 for ever and the loop never tests for it. */
  lemma HashLoopTerminatesIff(size: nat, offset: nat, length: int)
    ensures HashLoopEnds(size, offset, length) <==> length <= 0 || offset + length <= size
  {
    if length <= 0 {
      assert HashLoopTotal(size, offset, length, 0) >= length;
    } else if offset + length <= size {
      HashLoopAdvances(size, offset, length, length);
      assert HashLoopTotal(size, offset, length, length) >= length;
    } else {
      forall n: nat
        ensures HashLoopTotal(size, offset, length, n) < length
      {
        HashLoopStaysInFile(size, offset, length, n);
      }
    }
  }

  /** Both hash loops. Whatever the position of the descriptor was, the result is the hash of the
      slice in one shot and the descriptor ends right behind the slice. A slice that goes beyond the
      file is never completed. */
  method CalculateFileSha256(h: Hash, fd: OpenFile, offset: nat, length: int)
    returns (ended: bool, sha256_str: Bytes)
    modifies fd
    ensures ended <==> HashLoopEnds(|fd.content|, offset, length)
    ensures ended <==> length <= 0 || offset + length <= |fd.content|
    ensures ended && length <= 0 ==> sha256_str == Sha(h, []) && fd.pos == offset
    ensures ended && length > 0 ==>
              sha256_str == Sha(h, fd.content[offset..offset + length]) && fd.pos == offset + length
  {
    HashLoopTerminatesIff(|fd.content|, offset, length);
    fd.Lseek(offset);
    var absorbed: Bytes := [];
    var total := 0;
    while total < length
      invariant 0 <= total && (total <= length || total == 0)
      invariant fd.pos == offset + total
      invariant total > 0 ==> offset + total <= |fd.content|
      invariant absorbed == if total == 0 then [] else fd.content[offset..offset + total]
    {
      var toRead := if length - total > BUF_SIZE then BUF_SIZE else length - total;
      var buf := fd.Read(toRead);
      if buf == [] {
        return false, [];     // read yields 0 from now on, and the loop does not test for it
      }
      absorbed := absorbed + buf;
      total := total + |buf|;
    }
    sha256_str := HexString(h(absorbed));
    return true, sha256_str;
  }
}
