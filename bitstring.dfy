/**
 * The bit packer and unpacker of the Huffman coder (`writeBitString` and
 * `readBitString`), without the file calls.  A string of '0'/'1' characters
 * is given `padding - 1` zeros and an end-of-padding one in front, so that
 * its length becomes a multiple of 8, and is packed into Java bytes, most
 * significant bit first.  Unpacking expands every byte back into 8 binary
 * digits and drops everything up to and including the first one.
 */
module BitString {
  import opened Wrappers

  /** A Java `byte`: a signed 8-bit value. */
  type JByte = b: int | -128 <= b < 128

  /** The mask `b & 0xFF`: a byte read back as a value 0..255. */
  function Unsigned(b: JByte): (v: int)
    ensures 0 <= v < 256
  {
    if b < 0 then b + 256 else b
  }

  /** The narrowing cast `(byte) v` of a value 0..255; the mask undoes it. */
  function ToJByte(v: int): (b: JByte)
    requires 0 <= v < 256
    ensures Unsigned(b) == v
  {
    if v < 128 then v else v - 256
  }

  predicate IsBit(c: char) {
    c == '0' || c == '1'
  }

  predicate IsBitString(s: string) {
    forall i :: 0 <= i < |s| ==> IsBit(s[i])
  }

  /** `1 << k` */
  function Pow2(k: nat): (p: nat)
    ensures p >= 1
  {
    if k == 0 then 1 else 2 * Pow2(k - 1)
  }

  /** The number whose binary digits, most significant first, are `bits`. */
  function ValueOf(bits: string): (v: nat)
    ensures v < Pow2(|bits|)
  {
    if bits == [] then 0
    else (if bits[0] == '1' then Pow2(|bits| - 1) else 0) + ValueOf(bits[1..])
  }

  /** Appending a digit doubles the value and adds the digit. */
  lemma {:induction false} ValueOfSnoc(bits: string, c: char)
    ensures ValueOf(bits + [c]) == 2 * ValueOf(bits) + (if c == '1' then 1 else 0)
  {
    if bits != [] {
      assert (bits + [c])[1..] == bits[1..] + [c];
      ValueOfSnoc(bits[1..], c);
    }
  }

  /**
   * The lowest k binary digits of v, most significant first.  For a value
   * 0..255 and k = 8 this is what `String.format("%8s",
   * Integer.toBinaryString(v)).replace(' ', '0')` produces.
   */
  function Digits(v: nat, k: nat): (s: string)
    ensures |s| == k && IsBitString(s)
  {
    if k == 0 then [] else Digits(v / 2, k - 1) + [if v % 2 == 1 then '1' else '0']
  }

  /** Reading a bit string as a number and writing the number back gives the bit string. */
  lemma {:induction false} DigitsOfValue(bits: string)
    requires IsBitString(bits)
    ensures Digits(ValueOf(bits), |bits|) == bits
  {
    if bits != [] {
      var init := bits[..|bits| - 1];
      assert IsBitString(init) by {
        forall i | 0 <= i < |init| ensures IsBit(init[i]) {
          assert init[i] == bits[i];
        }
      }
      DigitsOfValue(init);
      var b := if bits[|bits| - 1] == '1' then 1 else 0;
      ValueOfSnoc(init, bits[|bits| - 1]);
      assert init + [bits[|bits| - 1]] == bits;
      assert ValueOf(bits) == 2 * ValueOf(init) + b;
      assert ValueOf(bits) / 2 == ValueOf(init);
      assert init + [bits[|bits| - 1]] == bits;
    }
  }

  /** The number of padding bits in front of a bit string of length n. */
  function Padding(n: nat): (p: nat)
    ensures 1 <= p <= 8 && (n + p) % 8 == 0
    ensures n + p == 8 * (n / 8 + 1)
  {
    8 - n % 8
  }

  function Zeros(k: nat): (s: string)
    ensures |s| == k
  {
    if k == 0 then [] else Zeros(k - 1) + "0"
  }

  /** The padding written in front of a bit string of length n. */
  function PadFor(n: nat): (pad: string)
    ensures |pad| == Padding(n)
  {
    Zeros(Padding(n) - 1) + "1"
  }

  /** The padding is `Padding(n) - 1` zeros and then a one. */
  lemma {:induction false} PadForShape(n: nat)
    ensures IsBitString(PadFor(n))
    ensures forall i :: 0 <= i < |PadFor(n)| - 1 ==> PadFor(n)[i] == '0'
    ensures PadFor(n)[|PadFor(n)| - 1] == '1'
  {
    var k := Padding(n) - 1;
    var z := Zeros(k);
    assert forall m: nat, i :: m <= k && 0 <= i < m ==> Zeros(m)[i] == '0' by {
      forall m: nat, i | m <= k && 0 <= i < m ensures Zeros(m)[i] == '0' {
        ZeroAt(m, i);
      }
    }
  }

  lemma {:induction false} ZeroAt(m: nat, i: nat)
    requires i < m
    ensures Zeros(m)[i] == '0'
  {
    if i < m - 1 {
      ZeroAt(m - 1, i);
    }
  }

  /** Bytes of a bit string whose length is a multiple of 8: each holds eight bits, most significant first. */
  function PackBytes(bits: string): (bytes: seq<JByte>)
    ensures |bytes| == |bits| / 8
  {
    if |bits| < 8 then []
    else PackBytes(bits[..|bits| - 8]) + [ToJByte(ValueOf(bits[|bits| - 8..]))]
  }

  /** Completing byte `j` with its last bit at index `k` appends it to the packed prefix and starts an empty chunk. */
  lemma ByteStep(bits: string, start: nat, currentByte: int)
    requires start + 8 <= |bits|
    requires currentByte == Chunk(bits, start + 8, 8)
    ensures 0 <= currentByte < 256
    ensures PackBytes(bits[..start + 8]) == PackBytes(bits[..start]) + [ToJByte(currentByte)]
    ensures Chunk(bits, start + 8, 0) == 0
  {
    var done := bits[..start + 8];
    assert bits[start..start + 8] + Zeros(0) == bits[start..start + 8];
    assert done[..|done| - 8] == bits[..start];
    assert done[|done| - 8..] == bits[start..start + 8];
    EmptyChunk(bits, start + 8);
  }

  /** A byte with none of its bits set yet is zero. */
  lemma EmptyChunk(bits: string, k: nat)
    requires k <= |bits|
    ensures Chunk(bits, k, 0) == 0
  {
    ValueOfZeros(8);
    assert bits[k..k] + Zeros(8) == Zeros(8);
  }

  /** A prefix of bits extended by one more bit is still a bit string. */
  lemma BitPrefix(bits: string, k: nat)
    requires k < |bits| && IsBitString(bits[..k]) && IsBit(bits[k])
    ensures IsBitString(bits[..k + 1])
  {
    assert bits[..k + 1] == bits[..k] + [bits[k]];
  }

  lemma PaddedIsBitString(bitString: string)
    requires IsBitString(bitString)
    ensures IsBitString(PadFor(|bitString|) + bitString)
  {
    var pad := PadFor(|bitString|);
    PadForShape(|bitString|);
    forall i | 0 <= i < |pad + bitString| ensures IsBit((pad + bitString)[i]) {
      if i >= |pad| {
        assert (pad + bitString)[i] == bitString[i - |pad|];
      }
    }
  }

  /**
   * What `writeBitString` writes: nothing when the string holds a character
   * other than '0' and '1', otherwise the padded string packed into bytes.
   */
  function Packed(bitString: string): Option<seq<JByte>>
  {
    if IsBitString(bitString) then
      Some(PackBytes(PadFor(|bitString|) + bitString))
    else None
  }

  /** Every byte expanded to its 8 binary digits, most significant first. */
  function Expand(bytes: seq<JByte>): (bits: string)
    ensures |bits| == 8 * |bytes|
  {
    if bytes == [] then [] else Expand(bytes[..|bytes| - 1]) + Digits(Unsigned(bytes[|bytes| - 1]), 8)
  }

  /** One past the first '1' among the first 8 bits from index i on, or 8 when there is none. */
  function PaddingEnd(bits: string, i: nat): (e: nat)
    requires 8 <= |bits| && i <= 8
    ensures i <= e <= 8
    decreases 8 - i
  {
    if i == 8 then 8 else if bits[i] == '1' then i + 1 else PaddingEnd(bits, i + 1)
  }

  /**
   * What `readBitString` returns: the expanded bits after the end of the
   * padding.  An empty file gives "": the `charAt(0)` on the empty string
   * throws, and the handler returns "".
   */
  function Unpacked(bytes: seq<JByte>): string
  {
    if bytes == [] then [] else var bits := Expand(bytes); bits[PaddingEnd(bits, 0)..]
  }

  lemma ZerosTail(m: nat)
    requires m > 0
    ensures Zeros(m)[1..] == Zeros(m - 1)
  {
    forall i | 0 <= i < m - 1 ensures Zeros(m)[1..][i] == Zeros(m - 1)[i] {
      ZeroAt(m, i + 1);
      ZeroAt(m - 1, i);
    }
  }

  lemma {:induction false} ValueOfZeros(m: nat)
    ensures ValueOf(Zeros(m)) == 0
  {
    if m > 0 {
      ZerosTail(m);
      ValueOfZeros(m - 1);
    }
  }

  /** Setting the next bit of a partly filled byte adds `1 << m` when the bit is a one. */
  lemma {:induction false} SetNextBit(chunk: string, c: char, m: nat)
    ensures ValueOf(chunk + [c] + Zeros(m))
         == ValueOf(chunk + Zeros(m + 1)) + (if c == '1' then Pow2(m) else 0)
  {
    if chunk == [] {
      ValueOfZeros(m);
      ValueOfZeros(m + 1);
      assert chunk + [c] + Zeros(m) == [c] + Zeros(m);
      assert chunk + Zeros(m + 1) == Zeros(m + 1);
      assert ([c] + Zeros(m))[1..] == Zeros(m);
      ZerosTail(m + 1);
    } else {
      assert (chunk + [c] + Zeros(m))[1..] == chunk[1..] + [c] + Zeros(m);
      assert (chunk + Zeros(m + 1))[1..] == chunk[1..] + Zeros(m + 1);
      SetNextBit(chunk[1..], c, m);
    }
  }

  /**
   * The value of the byte being assembled when its last `b` bits are the `b` bits before index `k`:
   * those bits in the high positions, zeros below.
   */
  ghost function Chunk(bits: string, k: nat, b: nat): nat
    requires b <= 8 && b <= k <= |bits|
  {
    ValueOf(bits[k - b..k] + Zeros(8 - b))
  }

  /** One pass of the packing loop over bit k, at position byteIndex of the current byte. */
  lemma BitStep(bits: string, k: nat, byteIndex: nat, currentByte: int)
    requires byteIndex < 8 && byteIndex <= k < |bits|
    requires currentByte == Chunk(bits, k, byteIndex)
    ensures currentByte + (if bits[k] == '1' then Pow2(7 - byteIndex) else 0) == Chunk(bits, k + 1, byteIndex + 1)
  {
    SetNextBit(bits[k - byteIndex..k], bits[k], 7 - byteIndex);
    assert bits[k - byteIndex..k + 1] == bits[k - byteIndex..k] + [bits[k]];
  }

  /** The padding loop of writeBitString: zeros, then the `1` that marks the end of the padding. */
  method MakePad(length: nat) returns (pad: string)
    ensures pad == PadFor(length)
  {
    var padding := 8 - length % 8;
    pad := "";
    for i := 0 to padding - 1
      invariant pad == Zeros(i)
    {
      pad := pad + "0";
    }
    pad := pad + "1";
    PadForShape(length);
  }

  /** writeBitString without the file write: `None` when it gives up on an invalid character. */
  method WriteBitString(bitString: string) returns (written: Option<seq<JByte>>)
    ensures written == Packed(bitString)
    ensures written.Some? <==> IsBitString(bitString)
    ensures written.Some? ==> |written.value| == |bitString| / 8 + 1
  {
    var pad := MakePad(|bitString|);
    written := PackBits(pad + bitString, |bitString| / 8 + 1);
    if IsBitString(bitString) {
      PaddedIsBitString(bitString);
    } else if IsBitString(pad + bitString) {
      BitsAfterPad(bitString);
    }
  }

  /**
   * The loop of writeBitString over the padded string: every 8 characters become one byte of
   * `bytes`, most significant bit first; `None` at the first character that is not a bit.
   */
  method PackBits(bits: string, byteCount: nat) returns (written: Option<seq<JByte>>)
    requires |bits| == 8 * byteCount
    ensures written == if IsBitString(bits) then Some(PackBytes(bits)) else None
    ensures written.Some? ==> |written.value| == byteCount
  {
    var bytes := new JByte[byteCount];
    var bytesIndex: nat, byteIndex: nat, currentByte := 0, 0, 0;
    ghost var out: seq<JByte>, start: nat := [], 0;
    EmptyChunk(bits, 0);

    for k := 0 to |bits|
      invariant Packing(bits, k, byteIndex, currentByte, start, out)
      invariant start == 8 * bytesIndex && |out| == bytesIndex
      invariant bytesIndex <= bytes.Length && bytes[..bytesIndex] == out
    {
      var c := bits[k];
      if c != '1' && c != '0' {
        // the source reports "Invalid characters in bitstring" and writes nothing
        return None;
      }
      byteIndex, currentByte, bytesIndex, start, out := Feed(bytes, bits, k, byteIndex, currentByte, bytesIndex, start, out);
    }
    WholeBytes(bytes.Length, bytesIndex, byteIndex);
    assert bits[..start] == bits;
    assert bytes[..] == bytes[..bytesIndex];
    return Some(bytes[..]);
  }

  /** One bit of the packing loop: sets it in the current byte, and stores the byte once it has 8 bits. */
  method Feed(bytes: array<JByte>, bits: string, k: nat, byteIndex: nat, currentByte: int, bytesIndex: nat,
              ghost start: nat, ghost out: seq<JByte>)
    returns (byteIndex': nat, currentByte': int, bytesIndex': nat, ghost start': nat, ghost out': seq<JByte>)
    requires Packing(bits, k, byteIndex, currentByte, start, out) && k < |bits| && IsBit(bits[k])
    requires |bits| == 8 * bytes.Length && start == 8 * bytesIndex && |out| == bytesIndex
    requires bytesIndex <= bytes.Length && bytes[..bytesIndex] == out
    modifies bytes
    ensures Packing(bits, k + 1, byteIndex', currentByte', start', out')
    ensures start' == 8 * bytesIndex' && |out'| == bytesIndex'
    ensures bytesIndex' <= bytes.Length && bytes[..bytesIndex'] == out'
  {
    byteIndex', currentByte', bytesIndex', start', out' := byteIndex, currentByte, bytesIndex, start, out;
    if bits[k] == '1' {
      currentByte' := currentByte + Pow2(7 - byteIndex);
    }
    PackingStep(bits, k, byteIndex, currentByte, currentByte', start, out);
    byteIndex' := byteIndex + 1;
    if byteIndex' == 8 {
      StoreByte(bytes, bytesIndex, ToJByte(currentByte'), out);
      out' := out + [ToJByte(currentByte')];
      start' := start + 8;
      bytesIndex' := bytesIndex + 1;
      currentByte' := 0;
      byteIndex' := 0;
    }
  }


  /** `bytes[i] = b` on a buffer whose first `i` bytes are `done`. */
  method StoreByte(bytes: array<JByte>, i: nat, b: JByte, ghost done: seq<JByte>)
    requires i < bytes.Length && bytes[..i] == done
    modifies bytes
    ensures bytes[..i + 1] == done + [b]
  {
    bytes[i] := b;
    assert bytes[..i + 1] == bytes[..i] + [b];
  }

  /**
   * The state of the packing loop of writeBitString before bit `k`: the bits so far are all bits, the
   * whole bytes before `start` are packed into `out`, and `currentByte` holds the `byteIndex` bits after them.
   */
  ghost predicate Packing(bits: string, k: nat, byteIndex: nat, currentByte: int, start: nat, out: seq<JByte>) {
    byteIndex < 8 && k == start + byteIndex && k <= |bits| && IsBitString(bits[..k])
    && currentByte == Chunk(bits, k, byteIndex) && out == PackBytes(bits[..start])
  }

  /** One pass of the packing loop over a valid bit keeps `Packing`, emitting a byte after its eighth bit. */
  lemma PackingStep(bits: string, k: nat, byteIndex: nat, currentByte: int, next: int, start: nat, out: seq<JByte>)
    requires Packing(bits, k, byteIndex, currentByte, start, out) && k < |bits| && IsBit(bits[k])
    requires next == currentByte + (if bits[k] == '1' then Pow2(7 - byteIndex) else 0)
    ensures byteIndex + 1 < 8 ==> Packing(bits, k + 1, byteIndex + 1, next, start, out)
    ensures byteIndex + 1 == 8 ==> 0 <= next < 256 && Packing(bits, k + 1, 0, 0, start + 8, out + [ToJByte(next)])
  {
    BitPrefix(bits, k);
    BitStep(bits, k, byteIndex, currentByte);
    if byteIndex + 1 == 8 {
      ByteStep(bits, start, next);
    }
  }

  /** A count of whole bytes plus fewer than 8 bits that is a multiple of 8 has no bits left over. */
  lemma WholeBytes(n: int, q: int, r: int)
    requires 8 * n == 8 * q + r && 0 <= r < 8
    ensures r == 0 && q == n
  {
  }

  /** When every character of `PadFor(|s|) + s` is a bit, so is every character of `s`. */
  lemma BitsAfterPad(s: string)
    requires IsBitString(PadFor(|s|) + s)
    ensures IsBitString(s)
  {
    var pad := PadFor(|s|);
    forall i | 0 <= i < |s| ensures IsBit(s[i]) {
      assert s[i] == (pad + s)[|pad| + i];
    }
  }

  /** readBitString without the file read: the bytes of the file are the parameter. */
  method ReadBitString(bytes: seq<JByte>) returns (bitString: string)
    ensures bitString == Unpacked(bytes)
  {
    bitString := "";
    for k := 0 to |bytes|
      invariant bitString == Expand(bytes[..k])
    {
      assert bytes[..k + 1][..k] == bytes[..k];
      bitString := bitString + Digits(Unsigned(bytes[k]), 8);
    }
    assert bytes[..|bytes|] == bytes;
    if |bitString| == 0 {
      // `charAt(0)` throws on the empty string; the handler returns ""
      return "";
    }
    for i := 0 to 8
      invariant PaddingEnd(bitString, i) == PaddingEnd(bitString, 0)
    {
      if bitString[i] == '1' {
        return bitString[i + 1..];
      }
    }
    return bitString[8..];
  }

  lemma SplitLastByte(bits: string)
    requires |bits| >= 8 && IsBitString(bits)
    ensures IsBitString(bits[..|bits| - 8]) && IsBitString(bits[|bits| - 8..])
    ensures bits[..|bits| - 8] + bits[|bits| - 8..] == bits
  {
    var init, last := bits[..|bits| - 8], bits[|bits| - 8..];
    forall i | 0 <= i < |init| ensures IsBit(init[i]) {
      assert init[i] == bits[i];
    }
    forall i | 0 <= i < |last| ensures IsBit(last[i]) {
      assert last[i] == bits[|bits| - 8 + i];
    }
  }

  lemma {:induction false} ExpandPackBytes(bits: string)
    requires |bits| % 8 == 0 && IsBitString(bits)
    ensures Expand(PackBytes(bits)) == bits
    decreases |bits|
  {
    if bits != [] {
      var init, last := bits[..|bits| - 8], bits[|bits| - 8..];
      SplitLastByte(bits);
      ExpandPackBytes(init);
      DigitsOfValue(last);
      var p := PackBytes(bits);
      assert p[..|p| - 1] == PackBytes(init);
      assert Unsigned(p[|p| - 1]) == ValueOf(last);
    }
  }

  lemma {:induction false} PaddingEndAt(bits: string, i: nat, p: nat)
    requires 8 <= |bits| && 1 <= p <= 8 && i < p
    requires forall j :: i <= j < p - 1 ==> bits[j] == '0'
    requires bits[p - 1] == '1'
    ensures PaddingEnd(bits, i) == p
    decreases p - i
  {
    if i < p - 1 {
      PaddingEndAt(bits, i + 1, p);
    }
  }

  /** The padded string: a bit string of whole bytes, zeros then a one, then the original. */
  lemma PaddedShape(bitString: string)
    requires IsBitString(bitString)
    ensures var bits := PadFor(|bitString|) + bitString;
      IsBitString(bits) && |bits| % 8 == 0 && |bits| >= 8
      && (forall j :: 0 <= j < |PadFor(|bitString|)| - 1 ==> bits[j] == '0')
      && bits[|PadFor(|bitString|)| - 1] == '1'
      && bits[|PadFor(|bitString|)|..] == bitString
  {
    PaddedIsBitString(bitString);
    PadForShape(|bitString|);
  }

  /** Unpacking what was packed gives back the bit string, for every length. */
  lemma {:induction false} UnpackPacked(bitString: string)
    requires IsBitString(bitString)
    ensures Packed(bitString).Some?
    ensures Unpacked(Packed(bitString).value) == bitString
  {
    var pad := PadFor(|bitString|);
    var bits := pad + bitString;
    PaddedShape(bitString);
    ExpandPackBytes(bits);
    PaddingEndAt(bits, 0, |pad|);
  }
}
