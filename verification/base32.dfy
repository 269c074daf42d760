/**
 * Base32 with the alphabet of section 6 of RFC 4648, padding omitted as
 * section 3.2 of RFC 4648 allows (Go's
 * `base32.StdEncoding.WithPadding(base32.NoPadding)`).
 *
 * Two encoders are defined independently and proved equal:
 *  - `Encode` works block by block, the way Go's encoder does: every 5-byte
 *    block is loaded into two 32-bit words and cut into eight 5-bit indexes
 *    by shifting and masking; a final partial block is encoded as if filled
 *    with zero bytes and only the symbols that carry input bits are kept.
 *  - `EncodeBits` is the description of section 6 of RFC 4648: the input is
 *    a stream of bits, most significant bit of each byte first, cut into
 *    5-bit groups, the last group filled with zero bits.
 * The canonical decoder `Decode` inverts both.
 */
module Base32 {
  import opened Wrappers

  type Byte = bv8

  /** The value of one base32 symbol: five bits. */
  type Quintet = bv5

  /** Section 6 of RFC 4648: the symbol for value v is at index v. */
  const Alphabet: string := "ABCDEFGHIJKLMNOPQRSTUVWXYZ234567"

  /** The padding symbol, which this encoding never emits. */
  const PadChar: char := '='

  /** The alphabet is the letters A to Z for 0 to 25 followed by the digits 2 to 7 for 26 to 31. */
  lemma AlphabetShape()
    ensures |Alphabet| == 32
    ensures forall i | 0 <= i < 32 ::
      Alphabet[i] == if i < 26 then ('A' as int + i) as char else ('2' as int + i - 26) as char
  {
  }

  /** The characters of the alphabet, as ranges. */
  predicate IsSymbolChar(c: char) {
    'A' <= c <= 'Z' || '2' <= c <= '7'
  }

  /** The symbol for a 5-bit value. */
  function Symbol(v: Quintet): (c: char)
    ensures IsSymbolChar(c)
  {
    AlphabetShape();
    Alphabet[v as int]
  }

  /** Every character of `s` is one of the 32 symbols. */
  predicate InAlphabet(s: string) {
    forall i | 0 <= i < |s| :: IsSymbolChar(s[i])
  }

  /** The ranges are exactly the characters of the alphabet string. */
  lemma InAlphabetIff(c: char)
    ensures c in Alphabet <==> IsSymbolChar(c)
  {
    if IsSymbolChar(c) {
      var v := SymbolValue(c).value;
      assert Alphabet[v as int] == Symbol(v) == c;
    }
    if c in Alphabet {
      var i :| 0 <= i < |Alphabet| && Alphabet[i] == c;
      QuintetOfSmall(i);
      assert Symbol(i as Quintet) == c;
    }
  }

  lemma QuintetOfSmall(k: int)
    requires 0 <= k < 32
    ensures (k as Quintet) as int == k
  {
  }

  /** The decoding table: the value a symbol stands for, or None for a character outside the alphabet. */
  function SymbolValue(c: char): (r: Option<Quintet>)
    ensures r.Some? <==> IsSymbolChar(c)
    ensures r.Some? ==> Symbol(r.value) == c
  {
    AlphabetShape();
    if 'A' <= c <= 'Z' then
      var k := c as int - 'A' as int;
      QuintetOfSmall(k);
      Some(k as Quintet)
    else if '2' <= c <= '7' then
      var k := c as int - '2' as int + 26;
      QuintetOfSmall(k);
      Some(k as Quintet)
    else None
  }

  /** The decoding table inverts the alphabet: every 5-bit value is read back from its symbol. */
  lemma SymbolValueOfSymbol(v: Quintet)
    ensures SymbolValue(Symbol(v)) == Some(v)
  {
    AlphabetShape();
    assert (v as int) as Quintet == v;
  }

  /** Number of symbols for n input bytes without padding: the 5-bit groups covering 8n bits. */
  function EncodedLen(n: nat): (r: nat)
    ensures 8 * n <= 5 * r < 8 * n + 5
  {
    (8 * n + 4) / 5
  }

  // ---------------------------------------------------------------------
  // Bits

  /** The eight bits of a byte, most significant first. */
  function ByteBits(b: Byte): seq<bool> {
    [b & 0x80 != 0, b & 0x40 != 0, b & 0x20 != 0, b & 0x10 != 0,
     b & 0x08 != 0, b & 0x04 != 0, b & 0x02 != 0, b & 0x01 != 0]
  }

  function BitsByte(g: seq<bool>): Byte
    requires |g| == 8
  {
    (if g[0] then 0x80 else 0) | (if g[1] then 0x40 else 0) |
    (if g[2] then 0x20 else 0) | (if g[3] then 0x10 else 0) |
    (if g[4] then 0x08 else 0) | (if g[5] then 0x04 else 0) |
    (if g[6] then 0x02 else 0) | (if g[7] then 0x01 else 0)
  }

  lemma ByteBitsInverse(b: Byte)
    ensures BitsByte(ByteBits(b)) == b
  {
  }

  lemma BitsByteInverse(g: seq<bool>)
    requires |g| == 8
    ensures ByteBits(BitsByte(g)) == g
  {
  }

  /** The five bits of a symbol value, most significant first. */
  function QuintetBits(v: Quintet): seq<bool> {
    [v & 0x10 != 0, v & 0x08 != 0, v & 0x04 != 0, v & 0x02 != 0, v & 0x01 != 0]
  }

  function BitsQuintet(g: seq<bool>): Quintet
    requires |g| == 5
  {
    (if g[0] then 0x10 else 0) | (if g[1] then 0x08 else 0) |
    (if g[2] then 0x04 else 0) | (if g[3] then 0x02 else 0) |
    (if g[4] then 0x01 else 0)
  }

  lemma QuintetBitsInverse(v: Quintet)
    ensures BitsQuintet(QuintetBits(v)) == v
  {
  }

  lemma BitsQuintetInverse(g: seq<bool>)
    requires |g| == 5
    ensures QuintetBits(BitsQuintet(g)) == g
  {
  }

  /** No bit is set. */
  predicate AllFalse(g: seq<bool>) {
    forall i | 0 <= i < |g| :: !g[i]
  }

  /** `n` zero bits. */
  function Zeros(n: nat): seq<bool> {
    seq(n, _ => false)
  }

  /** The bit stream of a byte string. */
  function BytesToBits(bs: seq<Byte>): (r: seq<bool>)
    ensures |r| == 8 * |bs|
  {
    if bs == [] then [] else ByteBits(bs[0]) + BytesToBits(bs[1..])
  }

  /** A stream of whole bytes read back as bytes, eight bits per byte. */
  function BitsToBytes(bits: seq<bool>): (r: seq<Byte>)
    requires |bits| % 8 == 0
    ensures 8 * |r| == |bits|
    decreases |bits|
  {
    if bits == [] then [] else [BitsByte(bits[..8])] + BitsToBytes(bits[8..])
  }

  lemma {:induction false} BytesToBitsAppend(a: seq<Byte>, b: seq<Byte>)
    ensures BytesToBits(a + b) == BytesToBits(a) + BytesToBits(b)
  {
    if a == [] {
      assert a + b == b;
    } else {
      assert (a + b)[1..] == a[1..] + b;
      BytesToBitsAppend(a[1..], b);
    }
  }

  lemma {:induction false} ZeroBytesBits(k: nat)
    ensures BytesToBits(seq(k, _ => 0 as Byte)) == Zeros(8 * k)
  {
    if k > 0 {
      var z := seq(k, _ => 0 as Byte);
      assert z[1..] == seq(k - 1, _ => 0 as Byte);
      ZeroBytesBits(k - 1);
    }
  }

  /** Reading a bit stream back as bytes recovers the bytes. */
  lemma {:induction false} BitsToBytesOfBytes(bs: seq<Byte>)
    ensures BitsToBytes(BytesToBits(bs)) == bs
  {
    if bs != [] {
      var bits := BytesToBits(bs);
      assert bits[..8] == ByteBits(bs[0]);
      assert bits[8..] == BytesToBits(bs[1..]);
      ByteBitsInverse(bs[0]);
      BitsToBytesOfBytes(bs[1..]);
    }
  }

  /** A bit stream of whole bytes is the stream of the bytes it is read as. */
  lemma {:induction false} BytesToBitsOfBits(bits: seq<bool>)
    requires |bits| % 8 == 0
    ensures BytesToBits(BitsToBytes(bits)) == bits
    decreases |bits|
  {
    if bits != [] {
      BitsByteInverse(bits[..8]);
      BytesToBitsOfBits(bits[8..]);
      assert bits == bits[..8] + bits[8..];
    }
  }

  // ---------------------------------------------------------------------
  // Reference encoder: section 6 of RFC 4648 as a bit stream

  /**
   * The symbols of a bit stream: one per 5-bit group, each group read as an
   * index into the alphabet, the final group filled with zero bits. No
   * padding symbols are produced.
   */
  function EncodeBits(bits: seq<bool>): (r: string)
    ensures |r| == (|bits| + 4) / 5
    ensures InAlphabet(r)
    decreases |bits|
  {
    if |bits| == 0 then []
    else if |bits| < 5 then [Symbol(BitsQuintet(bits + Zeros(5 - |bits|)))]
    else [Symbol(BitsQuintet(bits[..5]))] + EncodeBits(bits[5..])
  }

  /** A stream cut at a group boundary encodes as the two halves' encodings. */
  lemma {:induction false} EncodeBitsAppend(a: seq<bool>, b: seq<bool>)
    requires |a| % 5 == 0
    ensures EncodeBits(a + b) == EncodeBits(a) + EncodeBits(b)
    decreases |a|
  {
    if a == [] {
      assert a + b == b;
    } else {
      assert (a + b)[..5] == a[..5];
      assert (a + b)[5..] == a[5..] + b;
      EncodeBitsAppend(a[5..], b);
    }
  }

  /** Appending zero bits only adds symbols: the encoding of the stream is a prefix. */
  lemma {:induction false} EncodeBitsZeroFill(bits: seq<bool>, m: nat)
    ensures |EncodeBits(bits)| <= |EncodeBits(bits + Zeros(m))|
    ensures EncodeBits(bits) == EncodeBits(bits + Zeros(m))[..|EncodeBits(bits)|]
    decreases |bits|
  {
    var ext := bits + Zeros(m);
    if bits == [] {
    } else if |bits| >= 5 {
      assert ext[..5] == bits[..5];
      assert ext[5..] == bits[5..] + Zeros(m);
      EncodeBitsZeroFill(bits[5..], m);
    } else if |ext| >= 5 {
      assert ext[..5] == bits + Zeros(5 - |bits|);
    } else {
      assert ext + Zeros(5 - |ext|) == bits + Zeros(5 - |bits|);
    }
  }

  // ---------------------------------------------------------------------
  // Block encoder

  /** The 5-bit index in the low bits of a 32-bit word. */
  function Low5(w: bv32): Quintet {
    (w & 0x1F) as Quintet
  }

  /** The first four bytes of a block as one big-endian 32-bit word. */
  function Hi(b0: Byte, b1: Byte, b2: Byte, b3: Byte): bv32 {
    ((b0 as bv32) << 24) | ((b1 as bv32) << 16) | ((b2 as bv32) << 8) | (b3 as bv32)
  }

  /** The word `hi` shifted up by a byte, with the fifth byte below it. */
  function Lo(hi: bv32, b4: Byte): bv32 {
    (hi << 8) | (b4 as bv32)
  }

  /**
   * The eight symbols of one 5-byte block: the first four bytes form the word
   * `hi`, `hi` shifted left by a byte with the fifth byte below forms `lo`,
   * and each symbol index is five bits of one of them.
   */
  function EncodeBlock(b0: Byte, b1: Byte, b2: Byte, b3: Byte, b4: Byte): (r: string)
    ensures |r| == 8
    ensures InAlphabet(r)
  {
    var hi := Hi(b0, b1, b2, b3);
    var lo := Lo(hi, b4);
    [Symbol(Low5(hi >> 27)), Symbol(Low5(hi >> 22)), Symbol(Low5(hi >> 17)), Symbol(Low5(hi >> 12)),
     Symbol(Low5(hi >> 7)), Symbol(Low5(hi >> 2)), Symbol(Low5(lo >> 5)), Symbol(Low5(lo))]
  }

  /** The block encoder of Go's `EncodeToString` with padding switched off. */
  function Encode(src: seq<Byte>): (r: string)
    ensures |r| == EncodedLen(|src|)
    ensures InAlphabet(r)
    ensures PadChar !in r
    decreases |src|
  {
    if |src| == 0 then []
    else if |src| >= 5 then EncodeBlock(src[0], src[1], src[2], src[3], src[4]) + Encode(src[5..])
    else
      var b := src + seq(5 - |src|, _ => 0 as Byte);
      EncodeBlock(b[0], b[1], b[2], b[3], b[4])[..EncodedLen(|src|)]
  }

  /** The bit stream of a 5-byte block is its bytes' bits in order. */
  lemma BlockBits(b0: Byte, b1: Byte, b2: Byte, b3: Byte, b4: Byte)
    ensures BytesToBits([b0, b1, b2, b3, b4]) == ByteBits(b0) + (ByteBits(b1) + (ByteBits(b2) + (ByteBits(b3) + ByteBits(b4))))
  {
    assert BytesToBits([b4]) == ByteBits(b4) by {
      assert [b4][1..] == [];
      assert ByteBits(b4) + [] == ByteBits(b4);
    }
    assert BytesToBits([b3, b4]) == ByteBits(b3) + BytesToBits([b4]) by {
      assert [b3, b4][1..] == [b4];
    }
    assert BytesToBits([b2, b3, b4]) == ByteBits(b2) + BytesToBits([b3, b4]) by {
      assert [b2, b3, b4][1..] == [b3, b4];
    }
    assert BytesToBits([b1, b2, b3, b4]) == ByteBits(b1) + BytesToBits([b2, b3, b4]) by {
      assert [b1, b2, b3, b4][1..] == [b2, b3, b4];
    }
    assert BytesToBits([b0, b1, b2, b3, b4]) == ByteBits(b0) + BytesToBits([b1, b2, b3, b4]) by {
      assert [b0, b1, b2, b3, b4][1..] == [b1, b2, b3, b4];
    }
  }

  /** Symbol `k` of a whole-group stream encodes bits `5k` to `5k+4`. */
  lemma {:induction false} EncodeBitsIndex(bits: seq<bool>, k: nat)
    requires |bits| % 5 == 0 && k < |bits| / 5
    ensures EncodeBits(bits)[k] == Symbol(BitsQuintet(bits[5 * k..5 * k + 5]))
    decreases k
  {
    if k == 0 {
      assert bits[0..5] == bits[..5];
    } else {
      var tail := bits[5..];
      GroupsShift(|bits|, k);
      assert EncodeBits(bits) == [Symbol(BitsQuintet(bits[..5]))] + EncodeBits(tail);
      EncodeBitsIndex(tail, k - 1);
      assert tail[5 * (k - 1)..5 * (k - 1) + 5] == bits[5 * k..5 * k + 5];
    }
  }

  /** Index arithmetic for dropping the first group of a whole-group stream. */
  lemma GroupsShift(n: nat, k: nat)
    requires n % 5 == 0 && 0 < k < n / 5
    ensures n >= 5 && (n - 5) % 5 == 0 && k - 1 < (n - 5) / 5
    ensures 5 * (k - 1) + 5 == 5 * k && 5 * k + 5 <= n
  {
  }

  // Each shift-and-mask index of a block is five consecutive bits of its
  // bytes, most significant first: symbol k takes bits 5k to 5k+4 of the
  // block's forty.  One lemma per symbol keeps each bit-vector proof small.

  lemma BlockIndex0(b0: Byte, b1: Byte, b2: Byte, b3: Byte, b4: Byte)
    ensures EncodeBlock(b0, b1, b2, b3, b4)[0] == Symbol(BitsQuintet([ByteBits(b0)[0], ByteBits(b0)[1], ByteBits(b0)[2], ByteBits(b0)[3], ByteBits(b0)[4]]))
  {
  }

  lemma BlockIndex1(b0: Byte, b1: Byte, b2: Byte, b3: Byte, b4: Byte)
    ensures EncodeBlock(b0, b1, b2, b3, b4)[1] == Symbol(BitsQuintet([ByteBits(b0)[5], ByteBits(b0)[6], ByteBits(b0)[7], ByteBits(b1)[0], ByteBits(b1)[1]]))
  {
  }

  lemma BlockIndex2(b0: Byte, b1: Byte, b2: Byte, b3: Byte, b4: Byte)
    ensures EncodeBlock(b0, b1, b2, b3, b4)[2] == Symbol(BitsQuintet([ByteBits(b1)[2], ByteBits(b1)[3], ByteBits(b1)[4], ByteBits(b1)[5], ByteBits(b1)[6]]))
  {
  }

  lemma BlockIndex3(b0: Byte, b1: Byte, b2: Byte, b3: Byte, b4: Byte)
    ensures EncodeBlock(b0, b1, b2, b3, b4)[3] == Symbol(BitsQuintet([ByteBits(b1)[7], ByteBits(b2)[0], ByteBits(b2)[1], ByteBits(b2)[2], ByteBits(b2)[3]]))
  {
  }

  lemma BlockIndex4(b0: Byte, b1: Byte, b2: Byte, b3: Byte, b4: Byte)
    ensures EncodeBlock(b0, b1, b2, b3, b4)[4] == Symbol(BitsQuintet([ByteBits(b2)[4], ByteBits(b2)[5], ByteBits(b2)[6], ByteBits(b2)[7], ByteBits(b3)[0]]))
  {
  }

  lemma BlockIndex5(b0: Byte, b1: Byte, b2: Byte, b3: Byte, b4: Byte)
    ensures EncodeBlock(b0, b1, b2, b3, b4)[5] == Symbol(BitsQuintet([ByteBits(b3)[1], ByteBits(b3)[2], ByteBits(b3)[3], ByteBits(b3)[4], ByteBits(b3)[5]]))
  {
  }

  lemma BlockIndex6(b0: Byte, b1: Byte, b2: Byte, b3: Byte, b4: Byte)
    ensures EncodeBlock(b0, b1, b2, b3, b4)[6] == Symbol(BitsQuintet([ByteBits(b3)[6], ByteBits(b3)[7], ByteBits(b4)[0], ByteBits(b4)[1], ByteBits(b4)[2]]))
  {
  }

  lemma BlockIndex7(b0: Byte, b1: Byte, b2: Byte, b3: Byte, b4: Byte)
    ensures EncodeBlock(b0, b1, b2, b3, b4)[7] == Symbol(BitsQuintet([ByteBits(b4)[3], ByteBits(b4)[4], ByteBits(b4)[5], ByteBits(b4)[6], ByteBits(b4)[7]]))
  {
  }

  /** The eight 5-bit groups of forty bits given as five 8-bit runs. */
  lemma FortyBitsGroups(x0: seq<bool>, x1: seq<bool>, x2: seq<bool>, x3: seq<bool>, x4: seq<bool>)
    requires |x0| == 8 && |x1| == 8 && |x2| == 8 && |x3| == 8 && |x4| == 8
    ensures var t := x0 + (x1 + (x2 + (x3 + x4)));
      && t[0..5] == [x0[0], x0[1], x0[2], x0[3], x0[4]]
      && t[5..10] == [x0[5], x0[6], x0[7], x1[0], x1[1]]
      && t[10..15] == [x1[2], x1[3], x1[4], x1[5], x1[6]]
      && t[15..20] == [x1[7], x2[0], x2[1], x2[2], x2[3]]
      && t[20..25] == [x2[4], x2[5], x2[6], x2[7], x3[0]]
      && t[25..30] == [x3[1], x3[2], x3[3], x3[4], x3[5]]
      && t[30..35] == [x3[6], x3[7], x4[0], x4[1], x4[2]]
      && t[35..40] == [x4[3], x4[4], x4[5], x4[6], x4[7]]
  {
    var t := x0 + (x1 + (x2 + (x3 + x4)));
    assert t[8..] == x1 + (x2 + (x3 + x4));
    assert t[16..] == x2 + (x3 + x4);
    assert t[24..] == x3 + x4;
    assert t[32..] == x4;
  }

  lemma BlockSymbol0(b0: Byte, b1: Byte, b2: Byte, b3: Byte, b4: Byte)
    ensures EncodeBlock(b0, b1, b2, b3, b4)[0] == EncodeBits(BytesToBits([b0, b1, b2, b3, b4]))[0]
  {
    BlockBits(b0, b1, b2, b3, b4);
    FortyBitsGroups(ByteBits(b0), ByteBits(b1), ByteBits(b2), ByteBits(b3), ByteBits(b4));
    EncodeBitsIndex(BytesToBits([b0, b1, b2, b3, b4]), 0);
    BlockIndex0(b0, b1, b2, b3, b4);
  }

  lemma BlockSymbol1(b0: Byte, b1: Byte, b2: Byte, b3: Byte, b4: Byte)
    ensures EncodeBlock(b0, b1, b2, b3, b4)[1] == EncodeBits(BytesToBits([b0, b1, b2, b3, b4]))[1]
  {
    BlockBits(b0, b1, b2, b3, b4);
    FortyBitsGroups(ByteBits(b0), ByteBits(b1), ByteBits(b2), ByteBits(b3), ByteBits(b4));
    EncodeBitsIndex(BytesToBits([b0, b1, b2, b3, b4]), 1);
    BlockIndex1(b0, b1, b2, b3, b4);
  }

  lemma BlockSymbol2(b0: Byte, b1: Byte, b2: Byte, b3: Byte, b4: Byte)
    ensures EncodeBlock(b0, b1, b2, b3, b4)[2] == EncodeBits(BytesToBits([b0, b1, b2, b3, b4]))[2]
  {
    BlockBits(b0, b1, b2, b3, b4);
    FortyBitsGroups(ByteBits(b0), ByteBits(b1), ByteBits(b2), ByteBits(b3), ByteBits(b4));
    EncodeBitsIndex(BytesToBits([b0, b1, b2, b3, b4]), 2);
    BlockIndex2(b0, b1, b2, b3, b4);
  }

  lemma BlockSymbol3(b0: Byte, b1: Byte, b2: Byte, b3: Byte, b4: Byte)
    ensures EncodeBlock(b0, b1, b2, b3, b4)[3] == EncodeBits(BytesToBits([b0, b1, b2, b3, b4]))[3]
  {
    BlockBits(b0, b1, b2, b3, b4);
    FortyBitsGroups(ByteBits(b0), ByteBits(b1), ByteBits(b2), ByteBits(b3), ByteBits(b4));
    EncodeBitsIndex(BytesToBits([b0, b1, b2, b3, b4]), 3);
    BlockIndex3(b0, b1, b2, b3, b4);
  }

  lemma BlockSymbol4(b0: Byte, b1: Byte, b2: Byte, b3: Byte, b4: Byte)
    ensures EncodeBlock(b0, b1, b2, b3, b4)[4] == EncodeBits(BytesToBits([b0, b1, b2, b3, b4]))[4]
  {
    BlockBits(b0, b1, b2, b3, b4);
    FortyBitsGroups(ByteBits(b0), ByteBits(b1), ByteBits(b2), ByteBits(b3), ByteBits(b4));
    EncodeBitsIndex(BytesToBits([b0, b1, b2, b3, b4]), 4);
    BlockIndex4(b0, b1, b2, b3, b4);
  }

  lemma BlockSymbol5(b0: Byte, b1: Byte, b2: Byte, b3: Byte, b4: Byte)
    ensures EncodeBlock(b0, b1, b2, b3, b4)[5] == EncodeBits(BytesToBits([b0, b1, b2, b3, b4]))[5]
  {
    BlockBits(b0, b1, b2, b3, b4);
    FortyBitsGroups(ByteBits(b0), ByteBits(b1), ByteBits(b2), ByteBits(b3), ByteBits(b4));
    EncodeBitsIndex(BytesToBits([b0, b1, b2, b3, b4]), 5);
    BlockIndex5(b0, b1, b2, b3, b4);
  }

  lemma BlockSymbol6(b0: Byte, b1: Byte, b2: Byte, b3: Byte, b4: Byte)
    ensures EncodeBlock(b0, b1, b2, b3, b4)[6] == EncodeBits(BytesToBits([b0, b1, b2, b3, b4]))[6]
  {
    BlockBits(b0, b1, b2, b3, b4);
    FortyBitsGroups(ByteBits(b0), ByteBits(b1), ByteBits(b2), ByteBits(b3), ByteBits(b4));
    EncodeBitsIndex(BytesToBits([b0, b1, b2, b3, b4]), 6);
    BlockIndex6(b0, b1, b2, b3, b4);
  }

  lemma BlockSymbol7(b0: Byte, b1: Byte, b2: Byte, b3: Byte, b4: Byte)
    ensures EncodeBlock(b0, b1, b2, b3, b4)[7] == EncodeBits(BytesToBits([b0, b1, b2, b3, b4]))[7]
  {
    BlockBits(b0, b1, b2, b3, b4);
    FortyBitsGroups(ByteBits(b0), ByteBits(b1), ByteBits(b2), ByteBits(b3), ByteBits(b4));
    EncodeBitsIndex(BytesToBits([b0, b1, b2, b3, b4]), 7);
    BlockIndex7(b0, b1, b2, b3, b4);
  }

  /** Shifting and masking a block's words picks out exactly its 5-bit groups. */
  lemma BlockMatchesBitStream(b0: Byte, b1: Byte, b2: Byte, b3: Byte, b4: Byte)
    ensures EncodeBlock(b0, b1, b2, b3, b4) == EncodeBits(BytesToBits([b0, b1, b2, b3, b4]))
  {
    BlockSymbol0(b0, b1, b2, b3, b4);
    BlockSymbol1(b0, b1, b2, b3, b4);
    BlockSymbol2(b0, b1, b2, b3, b4);
    BlockSymbol3(b0, b1, b2, b3, b4);
    BlockSymbol4(b0, b1, b2, b3, b4);
    BlockSymbol5(b0, b1, b2, b3, b4);
    BlockSymbol6(b0, b1, b2, b3, b4);
    BlockSymbol7(b0, b1, b2, b3, b4);
  }

  /** The same, for a block given as a sequence. */
  lemma BlockSeqMatchesBitStream(c: seq<Byte>)
    requires |c| == 5
    ensures EncodeBlock(c[0], c[1], c[2], c[3], c[4]) == EncodeBits(BytesToBits(c))
  {
    BlockMatchesBitStream(c[0], c[1], c[2], c[3], c[4]);
    BlockLiteral(c);
  }

  lemma BlockLiteral(c: seq<Byte>)
    requires |c| == 5
    ensures BytesToBits(c) == BytesToBits([c[0], c[1], c[2], c[3], c[4]])
  {
    assert c == [c[0], c[1], c[2], c[3], c[4]];
  }

  lemma ZeroFilledBits(src: seq<Byte>, k: nat)
    ensures BytesToBits(src + seq(k, _ => 0 as Byte)) == BytesToBits(src) + Zeros(8 * k)
  {
    BytesToBitsAppend(src, seq(k, _ => 0 as Byte));
    ZeroBytesBits(k);
  }

  /** A partial block filled with zero bytes encodes as its bit stream followed by zero bits. */
  lemma ZeroFilledBlock(src: seq<Byte>)
    requires 0 < |src| < 5
    ensures var b := src + seq(5 - |src|, _ => 0 as Byte);
      EncodeBlock(b[0], b[1], b[2], b[3], b[4]) == EncodeBits(BytesToBits(src) + Zeros(8 * (5 - |src|)))
  {
    BlockSeqMatchesBitStream(src + seq(5 - |src|, _ => 0 as Byte));
    ZeroFilledBits(src, 5 - |src|);
  }

  /** A final partial block: the zero-filled block's symbols, cut to EncodedLen, are the stream's symbols. */
  lemma FinalBlockMatchesBitStream(src: seq<Byte>)
    requires 0 < |src| < 5
    ensures var b := src + seq(5 - |src|, _ => 0 as Byte);
      EncodeBlock(b[0], b[1], b[2], b[3], b[4])[..EncodedLen(|src|)] == EncodeBits(BytesToBits(src))
  {
    var bits := BytesToBits(src);
    var b := src + seq(5 - |src|, _ => 0 as Byte);
    var block := EncodeBlock(b[0], b[1], b[2], b[3], b[4]);
    var full := EncodeBits(bits + Zeros(8 * (5 - |src|)));
    assert block == full by {
      ZeroFilledBlock(src);
    }
    assert |EncodeBits(bits)| == EncodedLen(|src|);
    EncodeBitsZeroFill(bits, 8 * (5 - |src|));
  }

  /** The block encoder and the bit-stream description of section 6 of RFC 4648 agree on every input. */
  lemma {:induction false} EncodeMatchesBitStream(src: seq<Byte>)
    ensures Encode(src) == EncodeBits(BytesToBits(src))
    decreases |src|
  {
    if |src| == 0 {
    } else if |src| >= 5 {
      var block := src[..5];
      assert src == block + src[5..];
      BytesToBitsAppend(block, src[5..]);
      BlockSeqMatchesBitStream(block);
      EncodeBitsAppend(BytesToBits(block), BytesToBits(src[5..]));
      EncodeMatchesBitStream(src[5..]);
    } else {
      FinalBlockMatchesBitStream(src);
    }
  }

  /** A stream of zero bits encodes as the zero symbol `A`, once per group. */
  lemma {:induction false} EncodeBitsOfZeros(m: nat)
    ensures EncodeBits(Zeros(m)) == seq((m + 4) / 5, _ => 'A')
    decreases m
  {
    assert BitsQuintet(Zeros(5)) == 0;
    if 0 < m < 5 {
      assert Zeros(m) + Zeros(5 - m) == Zeros(5);
    } else if m >= 5 {
      assert Zeros(m)[..5] == Zeros(5);
      assert Zeros(m)[5..] == Zeros(m - 5);
      EncodeBitsOfZeros(m - 5);
    }
  }

  /** An all-zero byte string encodes as `A` repeated. */
  lemma EncodeZeroBytes(n: nat)
    ensures Encode(seq(n, _ => 0 as Byte)) == seq(EncodedLen(n), _ => 'A')
  {
    EncodeMatchesBitStream(seq(n, _ => 0 as Byte));
    ZeroBytesBits(n);
    EncodeBitsOfZeros(8 * n);
  }

  // ---------------------------------------------------------------------
  // Decoder

  datatype DecodeError =
    | InvalidLength            // the trailing bits would form a whole symbol
    | InvalidSymbol(offset: nat)
    | NonZeroTrailingBits      // not the canonical encoding of any byte string

  /** The bit stream of a symbol string, or the offset of its first character outside the alphabet. */
  function SymbolsBits(s: string): (r: Result<seq<bool>, nat>)
    ensures r.Success? <==> InAlphabet(s)
    ensures r.Success? ==> |r.value| == 5 * |s|
    ensures r.Failure? ==> r.error < |s| && !IsSymbolChar(s[r.error]) && InAlphabet(s[..r.error])
  {
    if s == [] then Success([])
    else match SymbolValue(s[0])
      case None => Failure(0)
      case Some(v) =>
        match SymbolsBits(s[1..])
        case Failure(offset) => Failure(offset + 1)
        case Success(rest) => Success(QuintetBits(v) + rest)
  }

  /**
   * The bytes of the bit stream of `m` symbols: whole bytes are kept and the
   * fewer than five trailing bits must be zero fill.
   */
  function StreamBytes(bits: seq<bool>, m: nat): (r: Result<seq<Byte>, DecodeError>)
    requires |bits| == 5 * m && |bits| % 8 < 5
    ensures r.Success? || r == Failure(NonZeroTrailingBits)
    ensures r.Success? ==> EncodedLen(|r.value|) == m
  {
    var n := |bits| / 8;
    if !AllFalse(bits[8 * n..]) then Failure(NonZeroTrailingBits)
    else
      DecodedLength(m);
      Success(BitsToBytes(bits[..8 * n]))
  }

  /**
   * Canonical decoding of unpadded base32: the length must leave fewer than
   * five trailing bits, every character must be a symbol, and the trailing
   * bits must be zero (section 3.5 of RFC 4648).
   */
  function Decode(s: string): (r: Result<seq<Byte>, DecodeError>)
    ensures r == Failure(InvalidLength) <==> 5 * |s| % 8 >= 5
    ensures r.Success? ==> InAlphabet(s) && |s| == EncodedLen(|r.value|)
    ensures r.Failure? && r.error.InvalidSymbol? ==> r.error.offset < |s| && !IsSymbolChar(s[r.error.offset])
  {
    if 5 * |s| % 8 >= 5 then Failure(InvalidLength)
    else match SymbolsBits(s)
      case Failure(offset) => Failure(InvalidSymbol(offset))
      case Success(bits) => StreamBytes(bits, |s|)
  }

  /** A symbol count that leaves fewer than five trailing bits is the encoded length of the whole bytes it holds. */
  lemma DecodedLength(m: nat)
    requires 5 * m % 8 < 5
    ensures EncodedLen(5 * m / 8) == m
  {
    var n := 5 * m / 8;
    assert 5 * m == 8 * n + 5 * m % 8;
  }

  /** The number of zero bits that fill a stream of `n` bits to a whole group. */
  function FillLen(n: nat): (k: nat)
    ensures k < 5 && (n + k) % 5 == 0
  {
    5 * ((n + 4) / 5) - n
  }

  /** A short final group decodes to its bits followed by the zero fill. */
  lemma SymbolsOfShortBits(bits: seq<bool>)
    requires 0 < |bits| < 5
    ensures SymbolsBits(EncodeBits(bits)) == Success(bits + Zeros(FillLen(|bits|)))
  {
    var g := bits + Zeros(5 - |bits|);
    assert EncodeBits(bits) == [Symbol(BitsQuintet(g))] + [];
    assert SymbolsBits([]) == Success([]);
    SymbolsOfGroup(g, []);
    assert FillLen(|bits|) == 5 - |bits|;
    assert g + [] == g;
  }

  /** Decoding the symbols of a stream gives back the stream, zero-filled to a whole group. */
  lemma {:induction false} SymbolsOfEncodeBits(bits: seq<bool>)
    ensures SymbolsBits(EncodeBits(bits)) == Success(bits + Zeros(FillLen(|bits|)))
    decreases |bits|
  {
    if bits == [] {
    } else if |bits| < 5 {
      SymbolsOfShortBits(bits);
    } else {
      var g := bits[..5];
      var rest := bits[5..];
      assert EncodeBits(bits) == [Symbol(BitsQuintet(g))] + EncodeBits(rest);
      SymbolsOfEncodeBits(rest);
      SymbolsOfGroup(g, EncodeBits(rest));
      FillLenShift(|bits|);
      assert bits + Zeros(FillLen(|bits|)) == g + (rest + Zeros(FillLen(|rest|)));
    }
  }

  /** A whole group's symbol decodes to the group's five bits in front of the rest. */
  lemma SymbolsOfGroup(g: seq<bool>, t: string)
    requires |g| == 5 && SymbolsBits(t).Success?
    ensures SymbolsBits([Symbol(BitsQuintet(g))] + t) == Success(g + SymbolsBits(t).value)
  {
    var s := [Symbol(BitsQuintet(g))] + t;
    SymbolValueOfSymbol(BitsQuintet(g));
    BitsQuintetInverse(g);
    assert s[0] == Symbol(BitsQuintet(g));
    assert s[1..] == t;
  }

  /** Dropping a whole group leaves the zero fill unchanged. */
  lemma FillLenShift(n: nat)
    requires n >= 5
    ensures FillLen(n) == FillLen(n - 5)
  {
  }

  /** The bits of a non-empty symbol string are its first symbol's five bits followed by the rest's. */
  lemma SymbolsBitsCons(s: string)
    requires s != [] && SymbolsBits(s).Success?
    ensures SymbolValue(s[0]).Some? && SymbolsBits(s[1..]).Success?
    ensures SymbolsBits(s).value == QuintetBits(SymbolValue(s[0]).value) + SymbolsBits(s[1..]).value
    ensures Symbol(SymbolValue(s[0]).value) == s[0]
  {
  }

  /** A single symbol whose low bits past `L` are zero re-encodes from its first `L` bits. */
  lemma EncodeBitsOfLastSymbol(s: string, bits: seq<bool>, L: nat)
    requires |s| == 1 && SymbolsBits(s) == Success(bits)
    requires 0 < L < 5
    requires bits[L..] == Zeros(5 - L)
    ensures EncodeBits(bits[..L]) == s
  {
    SymbolsBitsCons(s);
    var v := SymbolValue(s[0]).value;
    assert s[1..] == [];
    assert bits == QuintetBits(v);
    QuintetBitsInverse(v);
    assert bits[..L] + Zeros(5 - L) == bits;
    assert s == [s[0]];
  }

  /** Re-encoding the first L decoded bits gives the symbols back when the bits past L are zero fill. */
  lemma {:induction false} EncodeBitsOfSymbols(s: string, bits: seq<bool>, L: nat)
    requires SymbolsBits(s) == Success(bits)
    requires L <= 5 * |s| < L + 5
    requires bits[L..] == Zeros(5 * |s| - L)
    ensures EncodeBits(bits[..L]) == s
    decreases |s|
  {
    if s == [] {
    } else if L < 5 {
      EncodeBitsOfLastSymbol(s, bits, L);
    } else {
      SymbolsBitsCons(s);
      var v := SymbolValue(s[0]).value;
      var rest := SymbolsBits(s[1..]).value;
      FirstSymbolSplit(s, bits, L);
      EncodeBitsOfSymbols(s[1..], rest, L - 5);
      EncodeBitsCons(bits[..L], v, s[1..]);
      assert s == [s[0]] + s[1..];
    }
  }

  /** Cutting the first symbol's five bits off a prefix of at least five bits of a symbol string's stream. */
  lemma FirstSymbolSplit(s: string, bits: seq<bool>, L: nat)
    requires s != [] && SymbolsBits(s) == Success(bits)
    requires 5 <= L <= 5 * |s| < L + 5
    requires bits[L..] == Zeros(5 * |s| - L)
    ensures SymbolValue(s[0]).Some? && SymbolsBits(s[1..]).Success?
    ensures var rest := SymbolsBits(s[1..]).value;
      && L - 5 <= 5 * |s[1..]| < L
      && rest[L - 5..] == Zeros(5 * |s[1..]| - (L - 5))
      && bits[..L][..5] == QuintetBits(SymbolValue(s[0]).value)
      && bits[..L][5..] == rest[..L - 5]
  {
    SymbolsBitsCons(s);
    var rest := SymbolsBits(s[1..]).value;
    var q := QuintetBits(SymbolValue(s[0]).value);
    assert |q| == 5 && |rest| == 5 * |s[1..]| && |s[1..]| == |s| - 1;
    assert bits == q + rest;
    SplitAfterGroup(q, rest, L);
  }

  /** Slicing a stream that starts with a five-bit group at a cut `L` past that group. */
  lemma SplitAfterGroup(q: seq<bool>, rest: seq<bool>, L: nat)
    requires |q| == 5 && 5 <= L <= 5 + |rest|
    ensures (q + rest)[..L][..5] == q
    ensures (q + rest)[..L][5..] == rest[..L - 5]
    ensures rest[L - 5..] == (q + rest)[L..]
  {
  }

  /** A stream that starts with the bits of `v` encodes as `v`'s symbol followed by the rest's symbols. */
  lemma EncodeBitsCons(pre: seq<bool>, v: Quintet, t: string)
    requires |pre| >= 5 && pre[..5] == QuintetBits(v) && EncodeBits(pre[5..]) == t
    ensures EncodeBits(pre) == [Symbol(v)] + t
  {
    QuintetBitsInverse(v);
  }

  /** An encoded length leaves fewer than five trailing bits, and they follow exactly `n` whole bytes. */
  lemma EncodedLenTrailing(n: nat)
    ensures 5 * EncodedLen(n) % 8 < 5
    ensures 5 * EncodedLen(n) / 8 == n
  {
    var r := EncodedLen(n);
    assert 8 * n <= 5 * r < 8 * n + 5;
  }

  lemma AllFalseZeros(g: seq<bool>)
    ensures AllFalse(g) <==> g == Zeros(|g|)
  {
  }

  /** Whole bytes followed by zero fill are read back as those bytes. */
  lemma StreamBytesOfZeroFilled(bits: seq<bool>, k: nat, m: nat)
    requires |bits| % 8 == 0 && |bits| + k == 5 * m && k < 5
    ensures (|bits| + k) % 8 < 5
    ensures StreamBytes(bits + Zeros(k), m) == Success(BitsToBytes(bits))
  {
    var t := bits + Zeros(k);
    ShortFillBytes(|bits|, k);
    assert t[..8 * (|t| / 8)] == bits;
    assert t[8 * (|t| / 8)..] == Zeros(k);
    AllFalseZeros(Zeros(k));
  }

  /** Fewer than five fill bits after whole bytes do not make another byte. */
  lemma ShortFillBytes(b: nat, k: nat)
    requires b % 8 == 0 && k < 5
    ensures 8 * ((b + k) / 8) == b && (b + k) % 8 < 5
  {
  }

  /** What an accepted stream is read back as: its whole bytes, with nothing but zero bits after them. */
  lemma StreamBytesAccepted(bits: seq<bool>, m: nat)
    requires |bits| == 5 * m && |bits| % 8 < 5
    requires StreamBytes(bits, m).Success?
    ensures 8 * (|bits| / 8) <= |bits| < 8 * (|bits| / 8) + 5 && (8 * (|bits| / 8)) % 8 == 0
    ensures bits[8 * (|bits| / 8)..] == Zeros(|bits| - 8 * (|bits| / 8))
    ensures StreamBytes(bits, m).value == BitsToBytes(bits[..8 * (|bits| / 8)])
  {
    WholeBytesLength(|bits| / 8);
    AllFalseZeros(bits[8 * (|bits| / 8)..]);
  }

  lemma WholeBytesLength(n: nat)
    ensures (8 * n) % 8 == 0
  {
  }

  /** A string of valid length and symbols decodes to what its bit stream is read back as. */
  lemma DecodeOfSymbols(s: string, bits: seq<bool>)
    requires 5 * |s| % 8 < 5 && SymbolsBits(s) == Success(bits)
    ensures |bits| == 5 * |s|
    ensures Decode(s) == StreamBytes(bits, |s|)
  {
  }

  /** Filling whole bytes to whole groups leaves fewer than five bits past the last whole byte. */
  lemma FilledByteStream(b: nat)
    requires b % 8 == 0
    ensures b + FillLen(b) == 5 * ((b + 4) / 5)
    ensures 5 * ((b + 4) / 5) % 8 < 5
  {
    EncodedLenTrailing(b / 8);
  }

  /** The symbols of a stream of whole bytes decode back to those bytes. */
  lemma DecodeEncodeBits(bits: seq<bool>)
    requires |bits| % 8 == 0
    ensures Decode(EncodeBits(bits)) == Success(BitsToBytes(bits))
  {
    SymbolsOfEncodeBits(bits);
    FilledByteStream(|bits|);
    DecodeZeroFilled(EncodeBits(bits), bits, FillLen(|bits|));
  }

  /** A symbol string whose bit stream is whole bytes and zero fill decodes to those bytes. */
  lemma DecodeZeroFilled(s: string, bits: seq<bool>, k: nat)
    requires |bits| % 8 == 0 && |bits| + k == 5 * |s| && k < 5
    requires 5 * |s| % 8 < 5 && SymbolsBits(s) == Success(bits + Zeros(k))
    ensures Decode(s) == Success(BitsToBytes(bits))
  {
    DecodeOfSymbols(s, bits + Zeros(k));
    StreamBytesOfZeroFilled(bits, k, |s|);
  }

  /** Round trip: decoding an encoding returns the input bytes. */
  lemma DecodeEncode(src: seq<Byte>)
    ensures Decode(Encode(src)) == Success(src)
  {
    EncodeMatchesBitStream(src);
    DecodeEncodeBits(BytesToBits(src));
    BitsToBytesOfBytes(src);
  }

  /** Round trip: every string the decoder accepts is the encoding of what it decodes to. */
  lemma EncodeDecode(s: string)
    requires Decode(s).Success?
    ensures Encode(Decode(s).value) == s
  {
    var bits := SymbolsBits(s).value;
    DecodeOfSymbols(s, bits);
    StreamBytesAccepted(bits, |s|);
    ReencodeWholeBytes(s, bits, 8 * (|bits| / 8));
    EncodeMatchesBitStream(Decode(s).value);
  }

  /** Whole bytes of a symbol string's bit stream followed only by zero fill encode back to the symbols. */
  lemma ReencodeWholeBytes(s: string, bits: seq<bool>, L: nat)
    requires SymbolsBits(s) == Success(bits)
    requires L % 8 == 0 && L <= 5 * |s| < L + 5
    requires bits[L..] == Zeros(5 * |s| - L)
    ensures EncodeBits(BytesToBits(BitsToBytes(bits[..L]))) == s
  {
    var w := bits[..L];
    BytesToBitsOfBits(w);
    EncodeBitsOfSymbols(s, bits, L);
    assert EncodeBits(w) == s;
  }

  /** Distinct byte strings have distinct encodings. */
  lemma EncodeInjective(a: seq<Byte>, b: seq<Byte>)
    requires Encode(a) == Encode(b)
    ensures a == b
  {
    DecodeEncode(a);
    DecodeEncode(b);
  }

  // The example encodings of section 10 of RFC 4648, with the padding removed.

  lemma VectorEmpty()
    ensures Encode([]) == ""
  {
  }

  lemma VectorF()
    ensures Encode([0x66]) == "MY"
  {
  }

  lemma VectorFo()
    ensures Encode([0x66, 0x6f]) == "MZXQ"
  {
  }

  lemma VectorFoo()
    ensures Encode([0x66, 0x6f, 0x6f]) == "MZXW6"
  {
  }

  lemma VectorFoob()
    ensures Encode([0x66, 0x6f, 0x6f, 0x62]) == "MZXW6YQ"
  {
  }

  lemma VectorFooba()
    ensures Encode([0x66, 0x6f, 0x6f, 0x62, 0x61]) == "MZXW6YTB"
  {
  }

  lemma VectorFoobar()
    ensures Encode([0x66, 0x6f, 0x6f, 0x62, 0x61, 0x72]) == "MZXW6YTBOI"
  {
    assert [0x66, 0x6f, 0x6f, 0x62, 0x61, 0x72][5..] == [0x72 as Byte];
  }
}
