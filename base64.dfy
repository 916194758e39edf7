/**
 * The base64 codec of base64.c: the standard alphabet with '=' padding of
 * section 4 of RFC 4648, as the C code implements it.
 *
 * The C code works on `unsigned char` buffers and NUL-terminated strings. Here a
 * byte is an int in [0, 256), a C string is the sequence of characters before its
 * terminator (so it holds no NUL, which the string arguments require), and a pointer
 * that may be NULL is an Option. Shifts and masks on the
 * non-negative packed values are written as division and remainder by powers of two:
 * `(v >> 18) & 0x3F` is `v / 0x40000 % 64`, and `(v << 6) | x` with 0 <= x < 64 is
 * `v * 64 + x`.
 */
module Base64 {
  import opened Wrappers

  /** An `unsigned char`. */
  type byte = x: int | 0 <= x < 256

  /** 2^64: `size_t` arithmetic is modulo this number. */
  const SizeModulus: int := 0x1_0000_0000_0000_0000

  /** `base64_chars`: upper case, lower case, digits, then '+' and '/'. */
  const Alphabet: string :=
    "ABCDEFGHIJKLMNOPQRSTUVWXYZ" + "abcdefghijklmnopqrstuvwxyz" + "0123456789" + "+/"

  /**
   * `base64_invs`: entry `c - 43` is the sextet value of character `c`, or -1 for a
   * character between '+' (43) and 'z' (122) that is not in the alphabet.
   */
  const Invs: seq<int> :=
    [62, -1, -1, -1, 63, 52, 53, 54, 55, 56, 57, 58] +
    [59, 60, 61, -1, -1, -1, -1, -1, -1, -1, 0, 1, 2, 3, 4, 5] +
    [6, 7, 8, 9, 10, 11, 12, 13, 14, 15, 16, 17, 18, 19, 20] +
    [21, 22, 23, 24, 25, -1, -1, -1, -1, -1, -1, 26, 27, 28] +
    [29, 30, 31, 32, 33, 34, 35, 36, 37, 38, 39, 40, 41, 42] +
    [43, 44, 45, 46, 47, 48, 49, 50, 51]

  /**
   * `base64_chars[x]`, computed from the layout of the table: 26 upper case letters,
   * 26 lower case letters, 10 digits, then '+' and '/'. `DigitIsAlphabet` proves it
   * agrees with `Alphabet` at every index.
   */
  function Digit(x: int): char
    requires 0 <= x < 64
  {
    if x < 26 then ('A' as int + x) as char
    else if x < 52 then ('a' as int + (x - 26)) as char
    else if x < 62 then ('0' as int + (x - 52)) as char
    else if x == 62 then '+' else '/'
  }

  /** `Digit` reads the literal table `base64_chars`. */
  lemma DigitIsAlphabet()
    ensures |Alphabet| == 64
    ensures forall x :: 0 <= x < 64 ==> Digit(x) == Alphabet[x]
  {
    forall x | 0 <= x < 64
      ensures Digit(x) == Alphabet[x]
    {
      if x < 26 {
        assert Alphabet[..26] == "ABCDEFGHIJKLMNOPQRSTUVWXYZ";
      } else if x < 52 {
        assert Alphabet[26..52] == "abcdefghijklmnopqrstuvwxyz";
        assert Alphabet[x] == Alphabet[26..52][x - 26];
      } else {
        assert Alphabet[52..] == "0123456789+/";
        assert Alphabet[x] == Alphabet[52..][x - 52];
      }
    }
  }

  /**
   * `base64_is_validchar`: a digit, a letter, '+', '/' or '='. An accepted character lies
   * between '+' (43) and 'z' (122), the range `base64_invs` covers as `c - 43`.
   */
  function IsValidChar(c: char): (ok: bool)
    ensures ok ==> '+' <= c <= 'z'
  {
    ('0' <= c <= '9') || ('A' <= c <= 'Z') || ('a' <= c <= 'z') || c == '+' || c == '/' || c == '='
  }

  /**
   * `base64_invs[c - 43]` for an accepted character, computed from the layout of the
   * table: the sextet value of an alphabet character and -1 for '='. `InvIsTable`
   * proves it agrees with `Invs`.
   */
  function Inv(c: char): int
    requires IsValidChar(c)
  {
    if 'A' <= c <= 'Z' then c as int - 'A' as int
    else if 'a' <= c <= 'z' then c as int - 'a' as int + 26
    else if '0' <= c <= '9' then c as int - '0' as int + 52
    else if c == '+' then 62
    else if c == '/' then 63
    else -1
  }

  /** Every accepted character indexes inside `base64_invs` as `c - 43`, and `Inv` reads that entry. */
  lemma InvIsTable(c: char)
    requires IsValidChar(c)
    ensures 0 <= c as int - 43 < |Invs|
    ensures Inv(c) == Invs[c as int - 43]
  {
    assert |Invs| == 80;
    var i := c as int - 43;
    if 'A' <= c <= 'Z' {
      assert Invs[22..48] == seq(26, k => k);
      assert Invs[i] == Invs[22..48][i - 22];
    } else if 'a' <= c <= 'z' {
      assert Invs[54..80] == seq(26, k => k + 26);
      assert Invs[i] == Invs[54..80][i - 54];
    } else if '0' <= c <= '9' {
      assert Invs[5..15] == seq(10, k => k + 52);
      assert Invs[i] == Invs[5..15][i - 5];
    }
  }

  /** The accepted characters are exactly the alphabet and '='. */
  lemma ValidCharsAreAlphabet(c: char)
    ensures IsValidChar(c) <==> c in Alphabet || c == '='
  {
    DigitIsAlphabet();
    if IsValidChar(c) && c != '=' {
      assert Alphabet[Inv(c)] == c;
    }
    if c in Alphabet {
      var x :| 0 <= x < 64 && Alphabet[x] == c;
      assert Digit(x) == c;
    }
  }

  /** Decoding table and alphabet are inverse: a sextet survives `Digit` then `Inv`. */
  lemma InvOfDigit(x: int)
    requires 0 <= x < 64
    ensures IsValidChar(Digit(x)) && Digit(x) != '='
    ensures Inv(Digit(x)) == x
  {
  }

  /** ... and an accepted character other than '=' survives `Inv` then `Digit`. */
  lemma DigitOfInv(c: char)
    requires IsValidChar(c) && c != '='
    ensures 0 <= Inv(c) < 64 && Digit(Inv(c)) == c
  {
  }

  /** On the literal tables: `base64_invs[base64_chars[k] - 43] == k` for every sextet k. */
  lemma InvsOfAlphabet()
    ensures |Alphabet| == 64
    ensures forall k :: 0 <= k < 64 ==> 0 <= Alphabet[k] as int - 43 < |Invs| && Invs[Alphabet[k] as int - 43] == k
  {
    DigitIsAlphabet();
    forall k | 0 <= k < 64
      ensures 0 <= Alphabet[k] as int - 43 < |Invs| && Invs[Alphabet[k] as int - 43] == k
    {
      InvOfDigit(k);
      InvIsTable(Digit(k));
    }
  }

  // ---------------------------------------------------------------------------
  // Sizes
  // ---------------------------------------------------------------------------

  /**
   * `base64_encoded_size`: four characters per started group of three bytes. The C code
   * computes this in `size_t`, so it is exact only while the result is below
   * `SizeModulus`, which is what `Encode` requires.
   */
  function EncodedSize(n: nat): (size: nat)
    ensures size == 4 * Blocks(n)
  {
    var r := if n % 3 != 0 then n + (3 - n % 3) else n;
    r / 3 * 4
  }

  /** The encoded size is the smallest multiple of 4 whose groups of three cover n bytes; it is 0 only for n = 0. */
  lemma EncodedSizeCovers(n: nat)
    ensures EncodedSize(n) % 4 == 0
    ensures 3 * (EncodedSize(n) / 4) - 2 <= n <= 3 * (EncodedSize(n) / 4)
    ensures n == 0 <==> EncodedSize(n) == 0
  {
  }

  /** The number of '=' characters that end `s`. */
  function TrailingPads(s: string): (t: nat)
    ensures t <= |s|
  {
    if |s| > 0 && s[|s| - 1] == '=' then 1 + TrailingPads(s[..|s| - 1]) else 0
  }

  /** `TrailingPads(s)` is t exactly when the last t characters are '=' and the one before them is not. */
  lemma {:induction false} TrailingPadsIs(s: string, t: nat)
    ensures TrailingPads(s) == t <==>
      t <= |s| && (forall k :: |s| - t <= k < |s| ==> s[k] == '=') && (t < |s| ==> s[|s| - 1 - t] != '=')
  {
    if |s| > 0 && s[|s| - 1] == '=' {
      var p := s[..|s| - 1];
      if t > 0 {
        TrailingPadsIs(p, t - 1);
        assert forall k :: 0 <= k < |p| ==> p[k] == s[k];
      } else {
        assert s[|s| - 1 - t] == '=';
      }
    }
  }

  /**
   * The value `base64_decoded_size` computes for a non-NULL string: three bytes per
   * four characters, less one for every trailing '='. The subtraction is on `size_t`,
   * so a string of more '=' than that (such as "====") wraps around to a huge size.
   */
  function DecodedSizeOf(s: string): (n: nat)
    ensures n < SizeModulus
    ensures |s| < SizeModulus && TrailingPads(s) <= |s| / 4 * 3 ==> n == |s| / 4 * 3 - TrailingPads(s)
    ensures |s| < SizeModulus && TrailingPads(s) > |s| / 4 * 3 ==> n == SizeModulus - (TrailingPads(s) - |s| / 4 * 3)
  {
    (|s| / 4 * 3 - TrailingPads(s)) % SizeModulus
  }

  /** A `size_t` decrement of a wrapped value is the wrapped decrement. */
  lemma WrapDecrement(x: int)
    ensures (x % SizeModulus - 1) % SizeModulus == (x - 1) % SizeModulus
  {
  }

  /** `base64_decoded_size`: a backward scan that decrements the size for each trailing '='. */
  method DecodedSize(input: Option<string>) returns (size: nat)
    requires input.Some? ==> '\0' !in input.value
    ensures input.None? ==> size == 0
    ensures input.Some? ==> size == DecodedSizeOf(input.value)
  {
    if input.None? {
      return 0;
    }
    var s := input.value;
    var len := |s|;
    ghost var full := len / 4 * 3;
    size := (len / 4 * 3) % SizeModulus;
    var i := len;
    while i > 0
      invariant 0 <= i <= len
      invariant forall k :: i <= k < len ==> s[k] == '='
      invariant size == (full - (len - i)) % SizeModulus
    {
      i := i - 1;
      if s[i] == '=' {
        WrapDecrement(full - (len - i - 1));
        size := (size - 1) % SizeModulus;
      } else {
        TrailingPadsIs(s, len - i - 1);
        return;
      }
    }
    TrailingPadsIs(s, len);
  }

  // ---------------------------------------------------------------------------
  // Encoding
  // ---------------------------------------------------------------------------

  /** The number of four-character blocks the encoding of `n` bytes has. */
  function Blocks(n: nat): nat
  {
    (n + 2) / 3
  }

  /** A group that starts before the end of the input is one of the `Blocks(len)` blocks. */
  lemma NextBlockFits(len: nat, k: nat)
    requires 3 * k < len
    ensures k + 1 <= Blocks(len)
  {
  }

  /** Once the groups reach the end of the input, all `Blocks(len)` of them are done. */
  lemma LastBlockDone(len: nat, k: nat)
    requires len <= 3 * k && k <= Blocks(len)
    ensures k == Blocks(len)
  {
  }

  /** The 24-bit value `v` the encoder packs from the bytes at i, i+1, i+2 (a missing byte packs as 0). */
  function Packed(b: seq<byte>, i: nat): nat
    requires i < |b|
  {
    (b[i] as int * 256 + (if i + 1 < |b| then b[i + 1] as int else 0)) * 256
      + (if i + 2 < |b| then b[i + 2] as int else 0)
  }

  /** The four characters the encoder writes for the group starting at byte i. */
  function EncodeBlock(b: seq<byte>, i: nat): string
    requires i < |b|
  {
    var v := Packed(b, i);
    [ Digit(v / 0x40000 % 64),
      Digit(v / 0x1000 % 64),
      if i + 1 < |b| then Digit(v / 0x40 % 64) else '=',
      if i + 2 < |b| then Digit(v % 64) else '=' ]
  }

  /** The encoding of the first n groups of b. */
  function EncodePrefix(b: seq<byte>, n: nat): (s: string)
    requires n <= Blocks(|b|)
    ensures |s| == 4 * n
  {
    if n == 0 then [] else EncodePrefix(b, n - 1) + EncodeBlock(b, 3 * (n - 1))
  }

  /** The characters `base64_encode` writes before the terminator. */
  function Base64Of(b: seq<byte>): (s: string)
    ensures |s| == 4 * Blocks(|b|)
  {
    EncodePrefix(b, Blocks(|b|))
  }

  /**
   * One pass of the loop of `base64_encode`: pack the group at byte i into `v` and
   * store its four characters at j. Nothing else in `out` changes.
   */
  method EncodeGroup(b: seq<byte>, i: nat, out: array<char>, j: nat)
    requires i < |b| && j + 4 <= out.Length
    modifies out
    ensures out[..j] == old(out[..j]) && out[j + 4..] == old(out[j + 4..])
    ensures out[j..j + 4] == EncodeBlock(b, i)
  {
    var len := |b|;
    var v: int := b[i];
    v := if i + 1 < len then v * 256 + b[i + 1] else v * 256;
    v := if i + 2 < len then v * 256 + b[i + 2] else v * 256;
    assert v == Packed(b, i);
    out[j] := Digit(v / 0x40000 % 64);
    out[j + 1] := Digit(v / 0x1000 % 64);
    if i + 1 < len {
      out[j + 2] := Digit(v / 0x40 % 64);
    } else {
      out[j + 2] := '=';
    }
    if i + 2 < len {
      out[j + 3] := Digit(v % 64);
    } else {
      out[j + 3] := '=';
    }
  }

  /**
   * `base64_encode`: NULL for a NULL or empty input; otherwise a fresh buffer of
   * `base64_encoded_size(len)` characters filled group by group.
   */
  method Encode(input: Option<seq<byte>>) returns (encoded: Option<string>)
    requires input.Some? ==> EncodedSize(|input.value|) < SizeModulus
    ensures input.None? || |input.value| == 0 ==> encoded.None?
    ensures input.Some? && |input.value| > 0 ==> encoded == Some(Base64Of(input.value))
  {
    if input.None? || |input.value| == 0 {
      return None;
    }
    var b := input.value;
    var len := |b|;
    var elen := EncodedSize(len);
    // malloc(elen + 1) with out[elen] = '\0': the terminator ends the string below.
    var out := new char[elen];
    var i, j := 0, 0;
    ghost var k := 0;
    while i < len
      invariant i == 3 * k && j == 4 * k && k <= Blocks(len)
      invariant out[..j] == EncodePrefix(b, k)
    {
      NextBlockFits(len, k);
      EncodeGroup(b, i, out, j);
      assert out[..j + 4] == out[..j] + out[j..j + 4];
      i, j, k := i + 3, j + 4, k + 1;
    }
    LastBlockDone(len, k);
    assert out[..] == out[..j];
    encoded := Some(out[..]);
  }

  // ---------------------------------------------------------------------------
  // Decoding
  // ---------------------------------------------------------------------------

  /** Every character passes `base64_is_validchar`. */
  predicate AllValid(s: string)
  {
    forall k :: 0 <= k < |s| ==> IsValidChar(s[k])
  }

  /** No block has '=' in its first or second slot (the decoder would look up -1 there). */
  predicate LeadingPadFree(s: string)
  {
    forall k :: 0 <= k < |s| ==> NoLeadingPad(s, k)
  }

  /** The character at k is not '=' when k is the first or second slot of its block. */
  predicate NoLeadingPad(s: string, k: nat)
    requires k < |s|
  {
    k % 4 < 2 ==> s[k] != '='
  }

  /** The strings the decoder turns into bytes without looking up a -1 entry. */
  predicate Decodable(s: string)
  {
    |s| % 4 == 0 && AllValid(s) && LeadingPadFree(s)
  }

  /** The checks `base64_decode` makes before it writes anything (NULL pointers aside). */
  predicate Accepts(s: string, outLen: nat)
  {
    outLen >= DecodedSizeOf(s) && |s| % 4 == 0 && AllValid(s)
  }

  /** The 24-bit value the decoder assembles from block m; an '=' in slot 3 or 4 contributes zero bits. */
  function Unpack(s: string, m: nat): int
    requires Decodable(s) && m < |s| / 4
  {
    var c0, c1, c2, c3 := s[4 * m], s[4 * m + 1], s[4 * m + 2], s[4 * m + 3];
    ((Inv(c0) * 64 + Inv(c1)) * 64 + (if c2 == '=' then 0 else Inv(c2))) * 64
      + (if c3 == '=' then 0 else Inv(c3))
  }

  /**
   * A store of x at index j of the output buffer. `Decode` proves that each store it
   * makes is inside the buffer, so for it the guard never drops a write.
   */
  function Put(buf: seq<byte>, j: nat, x: byte): seq<byte>
  {
    if j < |buf| then buf[j := x] else buf
  }

  /** The stores the decoder makes for block m: byte 3m always, 3m+1 and 3m+2 unless their slot holds '='. */
  function WriteBlock(buf: seq<byte>, s: string, m: nat): seq<byte>
    requires Decodable(s) && m < |s| / 4
  {
    var v := Unpack(s, m);
    var b1 := Put(buf, 3 * m, v / 0x10000 % 256);
    var b2 := if s[4 * m + 2] != '=' then Put(b1, 3 * m + 1, v / 0x100 % 256) else b1;
    if s[4 * m + 3] != '=' then Put(b2, 3 * m + 2, v % 256) else b2
  }

  /** The output buffer after the decoder has processed the first n blocks of s. */
  function DecodeWrites(buf: seq<byte>, s: string, n: nat): (r: seq<byte>)
    requires Decodable(s) && n <= |s| / 4
    ensures |r| == |buf|
  {
    if n == 0 then buf else WriteBlock(DecodeWrites(buf, s, n - 1), s, n - 1)
  }

  /** At most two '=' end a string whose blocks have no '=' in their first two slots. */
  lemma TrailingPadsOfDecodable(s: string)
    requires Decodable(s) && |s| >= 4
    ensures TrailingPads(s) <= 2
    ensures s[|s| - 2] != '=' ==> TrailingPads(s) <= 1
    ensures s[|s| - 1] != '=' ==> TrailingPads(s) == 0
  {
    assert (|s| - 3) % 4 == 1;
    assert NoLeadingPad(s, |s| - 3);
    if s[|s| - 1] != '=' {
      TrailingPadsIs(s, 0);
    } else if s[|s| - 2] != '=' {
      TrailingPadsIs(s, 1);
    } else {
      TrailingPadsIs(s, 2);
    }
  }

  /** For a decodable string of realistic length the `size_t` subtraction does not wrap. */
  lemma DecodedSizeNoWrap(s: string)
    requires Decodable(s) && |s| < SizeModulus
    ensures DecodedSizeOf(s) == |s| / 4 * 3 - TrailingPads(s)
  {
    if |s| >= 4 {
      TrailingPadsOfDecodable(s);
    }
  }

  /** Every store the decoder makes for block m lands inside a buffer of outLen bytes. */
  predicate StoresFit(s: string, outLen: nat, m: nat)
    requires m < |s| / 4
  {
    && 3 * m < outLen
    && (s[4 * m + 2] != '=' ==> 3 * m + 1 < outLen)
    && (s[4 * m + 3] != '=' ==> 3 * m + 2 < outLen)
  }

  /** Every block's stores fit a buffer of outLen bytes. */
  predicate AllStoresFit(s: string, outLen: nat) {
    forall m :: 0 <= m < |s| / 4 ==> StoresFit(s, outLen, m)
  }

  /** A buffer of `base64_decoded_size` bytes holds every store the decoder makes. */
  lemma StoresInBounds(s: string, outLen: nat)
    requires Decodable(s)
    requires outLen >= |s| / 4 * 3 - TrailingPads(s)
    ensures AllStoresFit(s, outLen)
  {
    forall m | 0 <= m < |s| / 4
      ensures StoresFit(s, outLen, m)
    {
      TrailingPadsOfDecodable(s);
      if m + 1 < |s| / 4 {
        assert 3 * m + 3 <= |s| / 4 * 3 - 3;
      } else {
        assert 4 * m + 4 == |s|;
      }
    }
  }

  /**
   * The validation loop of `base64_decode`: every character passes `base64_is_validchar`.
   * The C loop stops there; this one also rejects '=' in the first or second slot of a
   * block (see `LeadingPadSlipsThrough` for what the C code does with such a string).
   */
  method ValidateChars(s: string) returns (valid: bool)
    ensures valid <==> AllValid(s) && LeadingPadFree(s)
  {
    var i := 0;
    while i < |s|
      invariant 0 <= i <= |s|
      invariant forall k :: 0 <= k < i ==> IsValidChar(s[k])
      invariant forall k :: 0 <= k < i ==> NoLeadingPad(s, k)
    {
      if !IsValidChar(s[i]) || (i % 4 < 2 && s[i] == '=') {
        assert !NoLeadingPad(s, i) || !IsValidChar(s[i]);
        return false;
      }
      i := i + 1;
    }
    return true;
  }

  /**
   * The first half of a pass of the decoding loop: shift the four sextets at i = 4m into `v`.
   * `Base64Properties.UnpackOfEncoding` shows that this value is the one the encoder packed.
   */
  method BlockValue(s: string, i: nat, ghost m: nat) returns (v: int)
    requires Decodable(s) && m < |s| / 4 && i == 4 * m
    ensures v == Unpack(s, m)
  {
    v := Inv(s[i]);
    v := v * 64 + Inv(s[i + 1]);
    v := if s[i + 2] == '=' then v * 64 else v * 64 + Inv(s[i + 2]);
    v := if s[i + 3] == '=' then v * 64 else v * 64 + Inv(s[i + 3]);
  }

  /**
   * One pass of the decoding loop of `base64_decode`: assemble `v` from the four
   * characters at i = 4m and store its bytes at j = 3m, skipping a byte whose slot
   * holds '='. After the pass the buffer holds the stores of blocks 0..m.
   */
  method DecodeGroup(s: string, i: nat, out: array<byte>, j: nat, ghost m: nat, ghost buf: seq<byte>)
    requires Decodable(s) && m < |s| / 4 && i == 4 * m && j == 3 * m
    requires StoresFit(s, out.Length, m) && out[..] == DecodeWrites(buf, s, m)
    modifies out
    ensures out[..] == DecodeWrites(buf, s, m + 1)
  {
    var v := BlockValue(s, i, m);
    out[j] := v / 0x10000 % 256;
    if s[i + 2] != '=' {
      out[j + 1] := v / 0x100 % 256;
    }
    if s[i + 3] != '=' {
      out[j + 2] := v % 256;
    }
    assert out[..] == WriteBlock(old(out[..]), s, m);
  }

  /** The decoding loop of `base64_decode`, once the checks have passed. */
  method DecodeGroups(s: string, out: array<byte>)
    requires Decodable(s) && AllStoresFit(s, out.Length)
    modifies out
    ensures out[..] == DecodeWrites(old(out[..]), s, |s| / 4)
  {
    ghost var buf := out[..];
    ghost var blocks := |s| / 4;
    assert 4 * blocks == |s|;
    var i, j := 0, 0;
    ghost var m := 0;
    while i < |s|
      invariant i == 4 * m && j == 3 * m && m <= blocks
      invariant out[..] == DecodeWrites(buf, s, m)
    {
      DecodeGroup(s, i, out, j, m, buf);
      i, j, m := i + 4, j + 3, m + 1;
    }
    assert m == blocks;
  }

  /**
   * `base64_decode`. It answers 0 (false) and writes nothing when a pointer is NULL, when
   * `out_len` (here `out.Length`) is below `base64_decoded_size(in)`, when the length is
   * not a multiple of 4, or when a character fails `base64_is_validchar`; with the
   * correction of `ValidateChars`, also when a block has '=' in its first or second slot.
   * Otherwise it decodes every block into `out` and answers 1 (true).
   */
  method Decode(input: Option<string>, out: array?<byte>) returns (ok: bool)
    requires input.Some? ==> |input.value| < SizeModulus && '\0' !in input.value
    modifies out
    ensures ok <==> input.Some? && out != null && Accepts(input.value, out.Length) && LeadingPadFree(input.value)
    ensures ok ==> out[..] == DecodeWrites(old(out[..]), input.value, |input.value| / 4)
    ensures !ok && out != null ==> out[..] == old(out[..])
  {
    if input.None? || out == null {
      return false;
    }
    var s := input.value;
    var len := |s|;
    var need := DecodedSize(input);
    if out.Length < need || len % 4 != 0 {
      return false;
    }
    var valid := ValidateChars(s);
    if !valid {
      return false;
    }
    DecodedSizeNoWrap(s);
    StoresInBounds(s, out.Length);
    DecodeGroups(s, out);
    return true;
  }

  /**
   * What the C checks let through: "A===" passes all of them with `out_len` 0 (its
   * decoded size is 3 - 3 = 0), yet the decoding loop would store its first byte at
   * `out[0]`, outside the buffer, after shifting the -1 entry of '='.
   */
  lemma LeadingPadSlipsThrough()
    ensures Accepts("A===", 0) && !LeadingPadFree("A===")
    ensures DecodedSizeOf("A===") == 0 && Inv("A==="[1]) == -1
  {
    TrailingPadsIs("A===", 3);
    assert !NoLeadingPad("A===", 1);
  }
}
