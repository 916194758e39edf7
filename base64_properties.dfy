/**
 * What the encoder produces and how the decoder reads it back: every block of an
 * encoding is the encoding of its group, the output is made of accepted characters
 * with '=' only where section 4 of RFC 4648 puts it, `base64_decoded_size` of an
 * encoding is the length of the input, and decoding an encoding restores the input.
 */
module Base64Properties {
  import opened Wrappers
  import opened Base64

  /** Block m of the encoding of the first n groups is the encoding of group m. */
  lemma {:induction false} EncodePrefixBlock(b: seq<byte>, n: nat, m: nat)
    requires n <= Blocks(|b|) && m < n
    ensures 3 * m < |b|
    ensures EncodePrefix(b, n)[4 * m..4 * m + 4] == EncodeBlock(b, 3 * m)
  {
    var p := EncodePrefix(b, n - 1);
    assert EncodePrefix(b, n) == p + EncodeBlock(b, 3 * (n - 1));
    if m < n - 1 {
      EncodePrefixBlock(b, n - 1, m);
      assert EncodePrefix(b, n)[4 * m..4 * m + 4] == p[4 * m..4 * m + 4];
    } else {
      assert EncodePrefix(b, n)[4 * m..4 * m + 4] == EncodeBlock(b, 3 * (n - 1));
    }
  }

  /** Character k of an encoding is character k % 4 of the block of group k / 4. */
  lemma Base64Char(b: seq<byte>, k: nat)
    requires k < |Base64Of(b)|
    ensures 3 * (k / 4) < |b|
    ensures Base64Of(b)[k] == EncodeBlock(b, 3 * (k / 4))[k % 4]
  {
    var m, r := k / 4, k % 4;
    assert k == 4 * m + r && r < 4;
    EncodePrefixBlock(b, Blocks(|b|), m);
    assert Base64Of(b)[k] == Base64Of(b)[4 * m..4 * m + 4][r];
  }

  /**
   * A block holds four accepted characters; the first two are never '='; the third
   * is '=' exactly when the group has one byte, the fourth exactly when it has fewer
   * than three.
   */
  lemma EncodeBlockShape(b: seq<byte>, i: nat)
    requires i < |b|
    ensures forall r :: 0 <= r < 4 ==> IsValidChar(EncodeBlock(b, i)[r])
    ensures EncodeBlock(b, i)[0] != '=' && EncodeBlock(b, i)[1] != '='
    ensures EncodeBlock(b, i)[2] == '=' <==> i + 1 >= |b|
    ensures EncodeBlock(b, i)[3] == '=' <==> i + 2 >= |b|
  {
    var v := Packed(b, i);
    InvOfDigit(v / 0x40000 % 64);
    InvOfDigit(v / 0x1000 % 64);
    InvOfDigit(v / 0x40 % 64);
    InvOfDigit(v % 64);
  }

  /** Every encoding passes the checks of the decoder, including the leading-slot check. */
  lemma EncodingIsDecodable(b: seq<byte>)
    ensures Decodable(Base64Of(b))
  {
    var s := Base64Of(b);
    forall k | 0 <= k < |s|
      ensures IsValidChar(s[k]) && NoLeadingPad(s, k)
    {
      EncodingChar(b, k);
    }
  }

  /** Character k of an encoding is accepted, and is not '=' in the first two slots of its block. */
  lemma EncodingChar(b: seq<byte>, k: nat)
    requires k < |Base64Of(b)|
    ensures IsValidChar(Base64Of(b)[k]) && NoLeadingPad(Base64Of(b), k)
  {
    var m, r := k / 4, k % 4;
    Base64Char(b, k);
    EncodeBlockShape(b, 3 * m);
    assert Base64Of(b)[k] == EncodeBlock(b, 3 * m)[r];
  }

  /** '=' appears only in the last block of an encoding. */
  lemma PaddingOnlyAtEnd(b: seq<byte>, k: nat)
    requires k + 4 < |Base64Of(b)|
    ensures Base64Of(b)[k] != '='
  {
    Base64Char(b, k);
    EncodeBlockShape(b, 3 * (k / 4));
    assert 3 * (k / 4) + 3 < |b| by {
      assert k / 4 + 1 < Blocks(|b|);
    }
  }

  /** An encoding ends in two '=' when |b| % 3 == 1, one when |b| % 3 == 2, and none otherwise. */
  lemma EncodingPadding(b: seq<byte>)
    requires |b| > 0
    ensures TrailingPads(Base64Of(b)) == (3 - |b| % 3) % 3
  {
    var s := Base64Of(b);
    var n := Blocks(|b|);
    LastBlock(b);
    EncodeBlockShape(b, 3 * (n - 1));
    var blk := EncodeBlock(b, 3 * (n - 1));
    assert s[|s| - 3] == blk[1] && s[|s| - 2] == blk[2] && s[|s| - 1] == blk[3];
    var t := (3 - |b| % 3) % 3;
    if |b| % 3 == 0 {
      assert t == 0;
    } else if |b| % 3 == 1 {
      assert t == 2;
    } else {
      assert t == 1;
    }
    EndsInPads(s, t);
  }

  /** A string whose last t characters (t at most 2) are the only '=' among its last three ends in t pads. */
  lemma EndsInPads(s: string, t: nat)
    requires |s| >= 3 && t <= 2
    requires s[|s| - 3] != '='
    requires s[|s| - 2] == '=' <==> t == 2
    requires s[|s| - 1] == '=' <==> t >= 1
    ensures TrailingPads(s) == t
  {
    TrailingPadsIs(s, t);
  }

  /** The last group holds the last one, two or three bytes. */
  lemma LastGroup(len: nat)
    requires len > 0
    ensures 3 * (Blocks(len) - 1) < len <= 3 * Blocks(len)
    ensures len % 3 == 0 <==> len == 3 * Blocks(len)
    ensures len % 3 == 1 <==> len == 3 * Blocks(len) - 2
  {
  }

  /** The last block of an encoding encodes the last one, two or three bytes. */
  lemma LastBlock(b: seq<byte>)
    requires |b| > 0
    ensures 3 * (Blocks(|b|) - 1) < |b| <= 3 * Blocks(|b|)
    ensures |b| % 3 == 0 <==> |b| == 3 * Blocks(|b|)
    ensures |b| % 3 == 1 <==> |b| == 3 * Blocks(|b|) - 2
    ensures Base64Of(b)[4 * (Blocks(|b|) - 1)..] == EncodeBlock(b, 3 * (Blocks(|b|) - 1))
  {
    var n := Blocks(|b|);
    LastGroup(|b|);
    EncodePrefixBlock(b, n, n - 1);
    assert |Base64Of(b)| == 4 * (n - 1) + 4;
  }

  /** `base64_decoded_size` of an encoding is the length of the encoded bytes. */
  lemma EncodingDecodedSize(b: seq<byte>)
    requires EncodedSize(|b|) < SizeModulus
    ensures DecodedSizeOf(Base64Of(b)) == |b|
  {
    var s := Base64Of(b);
    if |b| == 0 {
      TrailingPadsIs(s, 0);
    } else {
      EncodingPadding(b);
      EncodingIsDecodable(b);
      DecodedSizeNoWrap(s);
    }
  }

  /** The four sextets of a 24-bit value put back together give the value. */
  lemma Regroup(v: int)
    requires 0 <= v < 0x100_0000
    ensures ((v / 0x40000 % 64 * 64 + v / 0x1000 % 64) * 64 + v / 0x40 % 64) * 64 + v % 64 == v
  {
  }

  /** The value the decoder assembles from a block is built from the sextets of its characters. */
  lemma UnpackDigits(s: string, m: nat, x0: int, x1: int, x2: int, x3: int)
    requires Decodable(s) && m < |s| / 4
    requires 0 <= x0 < 64 && 0 <= x1 < 64 && 0 <= x2 < 64 && 0 <= x3 < 64
    requires s[4 * m] == Digit(x0) && s[4 * m + 1] == Digit(x1)
    requires s[4 * m + 2] == '=' || s[4 * m + 2] == Digit(x2)
    requires s[4 * m + 3] == '=' || s[4 * m + 3] == Digit(x3)
    ensures Unpack(s, m) ==
      ((x0 * 64 + x1) * 64 + (if s[4 * m + 2] == '=' then 0 else x2)) * 64 + (if s[4 * m + 3] == '=' then 0 else x3)
  {
    InvOfDigit(x0);
    InvOfDigit(x1);
    InvOfDigit(x2);
    InvOfDigit(x3);
  }

  /** The sextets of a packed group, with the ones past the end of the input read as zero, rebuild it. */
  lemma RegroupPadded(v: int, has1: bool, has2: bool)
    requires 0 <= v < 0x100_0000
    requires !has1 ==> v % 0x10000 == 0
    requires !has2 ==> v % 0x100 == 0
    ensures ((v / 0x40000 % 64 * 64 + v / 0x1000 % 64) * 64 + (if has1 then v / 0x40 % 64 else 0)) * 64
      + (if has2 then v % 64 else 0) == v
  {
    Regroup(v);
    if !has1 {
      var q := v / 0x10000;
      assert v == q * 0x10000;
      assert v / 0x40 == q * 0x400;
    }
    if !has2 {
      var q := v / 0x100;
      assert v == q * 0x100;
    }
  }

  /** A packed group is a 24-bit value whose missing bytes are zero. */
  lemma PackedZeros(b: seq<byte>, i: nat)
    requires i < |b|
    ensures 0 <= Packed(b, i) < 0x100_0000
    ensures i + 1 >= |b| ==> Packed(b, i) % 0x10000 == 0
    ensures i + 2 >= |b| ==> Packed(b, i) % 0x100 == 0
  {
    var hi := b[i] as int * 256 + (if i + 1 < |b| then b[i + 1] as int else 0);
    assert Packed(b, i) == hi * 256 + (if i + 2 < |b| then b[i + 2] as int else 0);
    if i + 1 >= |b| {
      assert Packed(b, i) == b[i] as int * 0x10000;
    }
  }

  /** The characters of block m of an encoding, written in terms of the packed group. */
  lemma EncodedBlockChars(b: seq<byte>, m: nat)
    requires m < Blocks(|b|)
    ensures 3 * m < |b| && |Base64Of(b)| == 4 * Blocks(|b|)
    ensures Base64Of(b)[4 * m] == Digit(Packed(b, 3 * m) / 0x40000 % 64)
    ensures Base64Of(b)[4 * m + 1] == Digit(Packed(b, 3 * m) / 0x1000 % 64)
    ensures Base64Of(b)[4 * m + 2] == if 3 * m + 1 < |b| then Digit(Packed(b, 3 * m) / 0x40 % 64) else '='
    ensures Base64Of(b)[4 * m + 3] == if 3 * m + 2 < |b| then Digit(Packed(b, 3 * m) % 64) else '='
  {
    var s := Base64Of(b);
    EncodePrefixBlock(b, Blocks(|b|), m);
    var blk := EncodeBlock(b, 3 * m);
    assert s[4 * m..4 * m + 4] == blk;
    assert s[4 * m] == blk[0] && s[4 * m + 1] == blk[1] && s[4 * m + 2] == blk[2] && s[4 * m + 3] == blk[3];
  }

  /** The decoder assembles, from block m of an encoding, the value the encoder packed from group m. */
  lemma UnpackOfEncoding(b: seq<byte>, m: nat)
    requires m < Blocks(|b|)
    ensures 3 * m < |b| && Decodable(Base64Of(b)) && m < |Base64Of(b)| / 4
    ensures Unpack(Base64Of(b), m) == Packed(b, 3 * m)
  {
    var s := Base64Of(b);
    EncodingIsDecodable(b);
    EncodedBlockChars(b, m);
    var i := 3 * m;
    var v := Packed(b, i);
    InvOfDigit(v / 0x40 % 64);
    InvOfDigit(v % 64);
    UnpackDigits(s, m, v / 0x40000 % 64, v / 0x1000 % 64, v / 0x40 % 64, v % 64);
    PackedZeros(b, i);
    RegroupPadded(v, i + 1 < |b|, i + 2 < |b|);
  }

  /** The bytes of a packed value, most significant first, are the bytes of the group. */
  lemma PackedBytes(b: seq<byte>, i: nat)
    requires i < |b|
    ensures Packed(b, i) / 0x10000 % 256 == b[i]
    ensures i + 1 < |b| ==> Packed(b, i) / 0x100 % 256 == b[i + 1]
    ensures i + 2 < |b| ==> Packed(b, i) % 256 == b[i + 2]
  {
  }

  /** Decoding block m of an encoding stores the bytes of group m, and only those. */
  lemma WriteBlockOfEncoding(buf: seq<byte>, b: seq<byte>, m: nat)
    requires m < Blocks(|b|)
    ensures Decodable(Base64Of(b)) && m < |Base64Of(b)| / 4
    ensures forall t :: 0 <= t < |buf| ==>
      WriteBlock(buf, Base64Of(b), m)[t] == if 3 * m <= t < 3 * m + 3 && t < |b| then b[t] else buf[t]
  {
    var s := Base64Of(b);
    UnpackOfEncoding(b, m);
    PackedBytes(b, 3 * m);
    EncodePrefixBlock(b, Blocks(|b|), m);
    EncodeBlockShape(b, 3 * m);
    var blk := EncodeBlock(b, 3 * m);
    assert s[4 * m..4 * m + 4] == blk;
    assert s[4 * m + 2] == blk[2] && s[4 * m + 3] == blk[3];
  }

  /** After n blocks of an encoding, the buffer holds the first 3n input bytes and is otherwise untouched. */
  lemma {:induction false} DecodeWritesOfEncoding(buf: seq<byte>, b: seq<byte>, n: nat)
    requires n <= Blocks(|b|)
    ensures Decodable(Base64Of(b)) && n <= |Base64Of(b)| / 4
    ensures forall t :: 0 <= t < |buf| ==>
      DecodeWrites(buf, Base64Of(b), n)[t] == if t < 3 * n && t < |b| then b[t] else buf[t]
  {
    EncodingIsDecodable(b);
    if n > 0 {
      DecodeWritesOfEncoding(buf, b, n - 1);
      WriteBlockOfEncoding(DecodeWrites(buf, Base64Of(b), n - 1), b, n - 1);
    }
  }

  /**
   * Round trip: decoding the encoding of b into a buffer of at least |b| bytes writes b
   * at its start and leaves the rest of the buffer as it was.
   */
  lemma RoundTrip(b: seq<byte>, buf: seq<byte>)
    requires |buf| >= |b|
    ensures Decodable(Base64Of(b))
    ensures DecodeWrites(buf, Base64Of(b), |Base64Of(b)| / 4)[..|b|] == b
    ensures DecodeWrites(buf, Base64Of(b), |Base64Of(b)| / 4)[|b|..] == buf[|b|..]
  {
    var n := Blocks(|b|);
    EncodingIsDecodable(b);
    assert |Base64Of(b)| / 4 == n;
    DecodeWritesOfEncoding(buf, b, n);
    Overwritten(DecodeWrites(buf, Base64Of(b), n), b, buf, n);
  }

  /** A buffer whose first 3n bytes, where b has them, are b's and the rest buf's, starts with b when 3n covers b. */
  lemma Overwritten(r: seq<byte>, b: seq<byte>, buf: seq<byte>, n: nat)
    requires |r| == |buf| >= |b| && 3 * n >= |b|
    requires forall t :: 0 <= t < |buf| ==> r[t] == if t < 3 * n && t < |b| then b[t] else buf[t]
    ensures r[..|b|] == b && r[|b|..] == buf[|b|..]
  {
    assert forall t :: 0 <= t < |b| ==> r[..|b|][t] == b[t];
    assert forall t :: 0 <= t < |buf| - |b| ==> r[|b|..][t] == buf[|b|..][t];
  }

  /**
   * The two C entry points in sequence: `base64_encode` the bytes, size a buffer with
   * `base64_decoded_size`, `base64_decode` into it. The decoder accepts and the buffer
   * holds the original bytes; an empty input has no encoding (NULL).
   */
  method EncodeThenDecode(b: seq<byte>) returns (decoded: Option<seq<byte>>)
    requires EncodedSize(|b|) < SizeModulus
    ensures |b| == 0 ==> decoded.None?
    ensures |b| > 0 ==> decoded == Some(b)
  {
    var encoded := Encode(Some(b));
    if encoded.None? {
      return None;
    }
    EncodingDecodedSize(b);
    EncodingIsDecodable(b);
    var size := DecodedSize(encoded);
    var out := new byte[size];
    ghost var initial := out[..];
    var ok := Decode(encoded, out);
    RoundTrip(b, initial);
    assert ok;
    assert out[..] == out[..|b|];
    return Some(out[..]);
  }
}
