// An entry of the test suite of RFC 1321 (section A.5), followed turn by turn:
// it pins the tables, the order of the words and every byte order at once.
module Md5Vector {
  import opened Md5Word
  import opened Md5Spec
  import opened Md5Sum

  // "abcdefghijklmnopqrstuvwxyz"
  const TEXT: seq<byte> :=
    [0x61, 0x62, 0x63, 0x64, 0x65, 0x66, 0x67, 0x68, 0x69, 0x6a, 0x6b, 0x6c, 0x6d, 0x6e, 0x6f, 0x70] +
    [0x71, 0x72, 0x73, 0x74, 0x75, 0x76, 0x77, 0x78, 0x79, 0x7a]

  const DIGEST: seq<byte> := [
    0xc3, 0xfc, 0xd3, 0xd7, 0x61, 0x92, 0xe4, 0x00, 0x7d, 0xfb, 0x49, 0x6c, 0xca, 0x67, 0xe1, 0x3b]

  // The words of its one block: the letters, the end byte, 208 bits.
  const WORDS: seq<word> := [
    0x64636261, 0x68676665, 0x6c6b6a69, 0x706f6e6d, 0x74737271, 0x78777675, 0x00807a79, 0x00000000,
    0x00000000, 0x00000000, 0x00000000, 0x00000000, 0x00000000, 0x00000000, 0x000000d0, 0x00000000]

  // The rotating registers of the block's rounds before turn i.
  ghost predicate At(x: seq<word>, i: nat, a: word, b: word, c: word, d: word)
    requires |x| == 16 && i <= 64
  {
    Rotated(Rounds([IV.a, IV.b, IV.c, IV.d], x, i), i, a, b, c, d)
  }

  // One turn, given its word, its constant and its shift.
  lemma Turn(x: seq<word>, i: nat, a: word, b: word, c: word, d: word, w: word, t: word, s: word, b2: word)
    requires |x| == 16 && i < 64 && At(x, i, a, b, c, d)
    requires x[WordIndex(i)] == w && RoundT(i) == t && Shift(i) == s && s < 32
    requires Mix(b, a, Aux(i, b, c, d), w, t, s) == b2
    ensures At(x, i + 1, d, b2, b, c)
  {
    hide RoundStep, Rotated, Mix, Aux, Shift, WordIndex, RoundT;
    TByRound(i);
    RotatedStep(Rounds([IV.a, IV.b, IV.c, IV.d], x, i), x, i, a, b, c, d);
  }

  lemma Turns0(x: seq<word>)
    requires x == WORDS && At(x, 0, 0x67452301, 0xefcdab89, 0x98badcfe, 0x10325476)
    ensures At(x, 4, 0xd6d117a6, 0x4503b812, 0x227d8cf1, 0xaab1aaaa)
  {
    hide At;
    Turn(x, 0, 0x67452301, 0xefcdab89, 0x98badcfe, 0x10325476, 0x64636261, 0xd76aa478, 7, 0xd6d117a6);
    Turn(x, 1, 0x10325476, 0xd6d117a6, 0xefcdab89, 0x98badcfe, 0x68676665, 0xe8c7b756, 12, 0xaab1aaaa);
    Turn(x, 2, 0x98badcfe, 0xaab1aaaa, 0xd6d117a6, 0xefcdab89, 0x6c6b6a69, 0x242070db, 17, 0x227d8cf1);
    Turn(x, 3, 0xefcdab89, 0x227d8cf1, 0xaab1aaaa, 0xd6d117a6, 0x706f6e6d, 0xc1bdceee, 22, 0x4503b812);
  }

  lemma Turns4(x: seq<word>)
    requires x == WORDS && At(x, 4, 0xd6d117a6, 0x4503b812, 0x227d8cf1, 0xaab1aaaa)
    ensures At(x, 8, 0xfe15f787, 0xda9bbb0d, 0xb71122fc, 0xa811b278)
  {
    hide At;
    Turn(x, 4, 0xd6d117a6, 0x4503b812, 0x227d8cf1, 0xaab1aaaa, 0x74737271, 0xf57c0faf, 7, 0xfe15f787);
    Turn(x, 5, 0xaab1aaaa, 0xfe15f787, 0x4503b812, 0x227d8cf1, 0x78777675, 0x4787c62a, 12, 0xa811b278);
    Turn(x, 6, 0x227d8cf1, 0xa811b278, 0xfe15f787, 0x4503b812, 0x00807a79, 0xa8304613, 17, 0xb71122fc);
    Turn(x, 7, 0x4503b812, 0xb71122fc, 0xa811b278, 0xfe15f787, 0x00000000, 0xfd469501, 22, 0xda9bbb0d);
  }

  lemma Turns8(x: seq<word>)
    requires x == WORDS && At(x, 8, 0xfe15f787, 0xda9bbb0d, 0xb71122fc, 0xa811b278)
    ensures At(x, 12, 0xae752899, 0x56cfa5cb, 0x7d4bd80b, 0x2bbe757f)
  {
    hide At;
    Turn(x, 8, 0xfe15f787, 0xda9bbb0d, 0xb71122fc, 0xa811b278, 0x00000000, 0x698098d8, 7, 0xae752899);
    Turn(x, 9, 0xa811b278, 0xae752899, 0xda9bbb0d, 0xb71122fc, 0x00000000, 0x8b44f7af, 12, 0x2bbe757f);
    Turn(x, 10, 0xb71122fc, 0x2bbe757f, 0xae752899, 0xda9bbb0d, 0x00000000, 0xffff5bb1, 17, 0x7d4bd80b);
    Turn(x, 11, 0xda9bbb0d, 0x7d4bd80b, 0x2bbe757f, 0xae752899, 0x00000000, 0x895cd7be, 22, 0x56cfa5cb);
  }

  lemma Turns12(x: seq<word>)
    requires x == WORDS && At(x, 12, 0xae752899, 0x56cfa5cb, 0x7d4bd80b, 0x2bbe757f)
    ensures At(x, 16, 0x1754a316, 0x608d6b7e, 0x00df74d5, 0x85567d90)
  {
    hide At;
    Turn(x, 12, 0xae752899, 0x56cfa5cb, 0x7d4bd80b, 0x2bbe757f, 0x00000000, 0x6b901122, 7, 0x1754a316);
    Turn(x, 13, 0x2bbe757f, 0x1754a316, 0x56cfa5cb, 0x7d4bd80b, 0x00000000, 0xfd987193, 12, 0x85567d90);
    Turn(x, 14, 0x7d4bd80b, 0x85567d90, 0x1754a316, 0x56cfa5cb, 0x000000d0, 0xa679438e, 17, 0x00df74d5);
    Turn(x, 15, 0x56cfa5cb, 0x00df74d5, 0x85567d90, 0x1754a316, 0x00000000, 0x49b40821, 22, 0x608d6b7e);
  }

  lemma Turns16(x: seq<word>)
    requires x == WORDS && At(x, 16, 0x1754a316, 0x608d6b7e, 0x00df74d5, 0x85567d90)
    ensures At(x, 20, 0x2d8071cc, 0x4c2145b3, 0xedfe7e4b, 0x5dcee119)
  {
    hide At;
    Turn(x, 16, 0x1754a316, 0x608d6b7e, 0x00df74d5, 0x85567d90, 0x68676665, 0xf61e2562, 5, 0x2d8071cc);
    Turn(x, 17, 0x85567d90, 0x2d8071cc, 0x608d6b7e, 0x00df74d5, 0x00807a79, 0xc040b340, 9, 0x5dcee119);
    Turn(x, 18, 0x00df74d5, 0x5dcee119, 0x2d8071cc, 0x608d6b7e, 0x00000000, 0x265e5a51, 14, 0xedfe7e4b);
    Turn(x, 19, 0x608d6b7e, 0xedfe7e4b, 0x5dcee119, 0x2d8071cc, 0x64636261, 0xe9b6c7aa, 20, 0x4c2145b3);
  }

  lemma Turns20(x: seq<word>)
    requires x == WORDS && At(x, 20, 0x2d8071cc, 0x4c2145b3, 0xedfe7e4b, 0x5dcee119)
    ensures At(x, 24, 0x570c43e0, 0xc9f162d4, 0xc28ab49d, 0x977efd2a)
  {
    hide At;
    Turn(x, 20, 0x2d8071cc, 0x4c2145b3, 0xedfe7e4b, 0x5dcee119, 0x78777675, 0xd62f105d, 5, 0x570c43e0);
    Turn(x, 21, 0x5dcee119, 0x570c43e0, 0x4c2145b3, 0xedfe7e4b, 0x00000000, 0x02441453, 9, 0x977efd2a);
    Turn(x, 22, 0xedfe7e4b, 0x977efd2a, 0x570c43e0, 0x4c2145b3, 0x00000000, 0xd8a1e681, 14, 0xc28ab49d);
    Turn(x, 23, 0x4c2145b3, 0xc28ab49d, 0x977efd2a, 0x570c43e0, 0x74737271, 0xe7d3fbc8, 20, 0xc9f162d4);
  }

  lemma Turns24(x: seq<word>)
    requires x == WORDS && At(x, 24, 0x570c43e0, 0xc9f162d4, 0xc28ab49d, 0x977efd2a)
    ensures At(x, 28, 0x25bfae3b, 0xe6d3b398, 0xf8c8365f, 0x89980104)
  {
    hide At;
    Turn(x, 24, 0x570c43e0, 0xc9f162d4, 0xc28ab49d, 0x977efd2a, 0x00000000, 0x21e1cde6, 5, 0x25bfae3b);
    Turn(x, 25, 0x977efd2a, 0x25bfae3b, 0xc9f162d4, 0xc28ab49d, 0x000000d0, 0xc33707d6, 9, 0x89980104);
    Turn(x, 26, 0xc28ab49d, 0x89980104, 0x25bfae3b, 0xc9f162d4, 0x706f6e6d, 0xf4d50d87, 14, 0xf8c8365f);
    Turn(x, 27, 0xc9f162d4, 0xf8c8365f, 0x89980104, 0x25bfae3b, 0x00000000, 0x455a14ed, 20, 0xe6d3b398);
  }

  lemma Turns28(x: seq<word>)
    requires x == WORDS && At(x, 28, 0x25bfae3b, 0xe6d3b398, 0xf8c8365f, 0x89980104)
    ensures At(x, 32, 0xf54d8710, 0xaeb35766, 0x2e69afc7, 0x927b72e2)
  {
    hide At;
    Turn(x, 28, 0x25bfae3b, 0xe6d3b398, 0xf8c8365f, 0x89980104, 0x00000000, 0xa9e3e905, 5, 0xf54d8710);
    Turn(x, 29, 0x89980104, 0xf54d8710, 0xe6d3b398, 0xf8c8365f, 0x6c6b6a69, 0xfcefa3f8, 9, 0x927b72e2);
    Turn(x, 30, 0xf8c8365f, 0x927b72e2, 0xf54d8710, 0xe6d3b398, 0x00000000, 0x676f02d9, 14, 0x2e69afc7);
    Turn(x, 31, 0xe6d3b398, 0x2e69afc7, 0x927b72e2, 0xf54d8710, 0x00000000, 0x8d2a4c8a, 20, 0xaeb35766);
  }

  lemma Turns32(x: seq<word>)
    requires x == WORDS && At(x, 32, 0xf54d8710, 0xaeb35766, 0x2e69afc7, 0x927b72e2)
    ensures At(x, 36, 0xb4bf680e, 0x06a5e211, 0x2361ed0a, 0x4c8ffa80)
  {
    hide At;
    Turn(x, 32, 0xf54d8710, 0xaeb35766, 0x2e69afc7, 0x927b72e2, 0x78777675, 0xfffa3942, 4, 0xb4bf680e);
    Turn(x, 33, 0x927b72e2, 0xb4bf680e, 0xaeb35766, 0x2e69afc7, 0x00000000, 0x8771f681, 11, 0x4c8ffa80);
    Turn(x, 34, 0x2e69afc7, 0x4c8ffa80, 0xb4bf680e, 0xaeb35766, 0x00000000, 0x6d9d6122, 16, 0x2361ed0a);
    Turn(x, 35, 0xaeb35766, 0x2361ed0a, 0x4c8ffa80, 0xb4bf680e, 0x000000d0, 0xfde5380c, 23, 0x06a5e211);
  }

  lemma Turns36(x: seq<word>)
    requires x == WORDS && At(x, 36, 0xb4bf680e, 0x06a5e211, 0x2361ed0a, 0x4c8ffa80)
    ensures At(x, 40, 0xb9c0c733, 0x8d41bf99, 0x23a9451b, 0xf1e6dc7a)
  {
    hide At;
    Turn(x, 36, 0xb4bf680e, 0x06a5e211, 0x2361ed0a, 0x4c8ffa80, 0x68676665, 0xa4beea44, 4, 0xb9c0c733);
    Turn(x, 37, 0x4c8ffa80, 0xb9c0c733, 0x06a5e211, 0x2361ed0a, 0x74737271, 0x4bdecfa9, 11, 0xf1e6dc7a);
    Turn(x, 38, 0x2361ed0a, 0xf1e6dc7a, 0xb9c0c733, 0x06a5e211, 0x00000000, 0xf6bb4b60, 16, 0x23a9451b);
    Turn(x, 39, 0x06a5e211, 0x23a9451b, 0xf1e6dc7a, 0xb9c0c733, 0x00000000, 0xbebfbc70, 23, 0x8d41bf99);
  }

  lemma Turns40(x: seq<word>)
    requires x == WORDS && At(x, 40, 0xb9c0c733, 0x8d41bf99, 0x23a9451b, 0xf1e6dc7a)
    ensures At(x, 44, 0xa3e88ead, 0x90a35af5, 0x66f6468d, 0x02c0b11c)
  {
    hide At;
    Turn(x, 40, 0xb9c0c733, 0x8d41bf99, 0x23a9451b, 0xf1e6dc7a, 0x00000000, 0x289b7ec6, 4, 0xa3e88ead);
    Turn(x, 41, 0xf1e6dc7a, 0xa3e88ead, 0x8d41bf99, 0x23a9451b, 0x64636261, 0xeaa127fa, 11, 0x02c0b11c);
    Turn(x, 42, 0x23a9451b, 0x02c0b11c, 0xa3e88ead, 0x8d41bf99, 0x706f6e6d, 0xd4ef3085, 16, 0x66f6468d);
    Turn(x, 43, 0x8d41bf99, 0x66f6468d, 0x02c0b11c, 0xa3e88ead, 0x00807a79, 0x04881d05, 23, 0x90a35af5);
  }

  lemma Turns44(x: seq<word>)
    requires x == WORDS && At(x, 44, 0xa3e88ead, 0x90a35af5, 0x66f6468d, 0x02c0b11c)
    ensures At(x, 48, 0xb5d41f9c, 0x71d10367, 0x703d54d8, 0xa04b4904)
  {
    hide At;
    Turn(x, 44, 0xa3e88ead, 0x90a35af5, 0x66f6468d, 0x02c0b11c, 0x00000000, 0xd9d4d039, 4, 0xb5d41f9c);
    Turn(x, 45, 0x02c0b11c, 0xb5d41f9c, 0x90a35af5, 0x66f6468d, 0x00000000, 0xe6db99e5, 11, 0xa04b4904);
    Turn(x, 46, 0x66f6468d, 0xa04b4904, 0xb5d41f9c, 0x90a35af5, 0x00000000, 0x1fa27cf8, 16, 0x703d54d8);
    Turn(x, 47, 0x90a35af5, 0x703d54d8, 0xa04b4904, 0xb5d41f9c, 0x6c6b6a69, 0xc4ac5665, 23, 0x71d10367);
  }

  lemma Turns48(x: seq<word>)
    requires x == WORDS && At(x, 48, 0xb5d41f9c, 0x71d10367, 0x703d54d8, 0xa04b4904)
    ensures At(x, 52, 0xfc32dd6e, 0x33edb197, 0xb35602cb, 0x65456b34)
  {
    hide At;
    Turn(x, 48, 0xb5d41f9c, 0x71d10367, 0x703d54d8, 0xa04b4904, 0x64636261, 0xf4292244, 6, 0xfc32dd6e);
    Turn(x, 49, 0xa04b4904, 0xfc32dd6e, 0x71d10367, 0x703d54d8, 0x00000000, 0x432aff97, 10, 0x65456b34);
    Turn(x, 50, 0x703d54d8, 0x65456b34, 0xfc32dd6e, 0x71d10367, 0x000000d0, 0xab9423a7, 15, 0xb35602cb);
    Turn(x, 51, 0x71d10367, 0xb35602cb, 0x65456b34, 0xfc32dd6e, 0x78777675, 0xfc93a039, 21, 0x33edb197);
  }

  lemma Turns52(x: seq<word>)
    requires x == WORDS && At(x, 52, 0xfc32dd6e, 0x33edb197, 0xb35602cb, 0x65456b34)
    ensures At(x, 56, 0xc1e942f1, 0x83877d1b, 0x23a68048, 0xd9bb987c)
  {
    hide At;
    Turn(x, 52, 0xfc32dd6e, 0x33edb197, 0xb35602cb, 0x65456b34, 0x00000000, 0x655b59c3, 6, 0xc1e942f1);
    Turn(x, 53, 0x65456b34, 0xc1e942f1, 0x33edb197, 0xb35602cb, 0x706f6e6d, 0x8f0ccc92, 10, 0xd9bb987c);
    Turn(x, 54, 0xb35602cb, 0xd9bb987c, 0xc1e942f1, 0x33edb197, 0x00000000, 0xffeff47d, 15, 0x23a68048);
    Turn(x, 55, 0x33edb197, 0x23a68048, 0xd9bb987c, 0xc1e942f1, 0x68676665, 0x85845dd1, 21, 0x83877d1b);
  }

  lemma Turns56(x: seq<word>)
    requires x == WORDS && At(x, 56, 0xc1e942f1, 0x83877d1b, 0x23a68048, 0xd9bb987c)
    ensures At(x, 60, 0x0077c208, 0x5e6bc930, 0xa3e2247f, 0x847fc2e7)
  {
    hide At;
    Turn(x, 56, 0xc1e942f1, 0x83877d1b, 0x23a68048, 0xd9bb987c, 0x00000000, 0x6fa87e4f, 6, 0x0077c208);
    Turn(x, 57, 0xd9bb987c, 0x0077c208, 0x83877d1b, 0x23a68048, 0x00000000, 0xfe2ce6e0, 10, 0x847fc2e7);
    Turn(x, 58, 0x23a68048, 0x847fc2e7, 0x0077c208, 0x83877d1b, 0x00807a79, 0xa3014314, 15, 0xa3e2247f);
    Turn(x, 59, 0x83877d1b, 0xa3e2247f, 0x847fc2e7, 0x0077c208, 0x00000000, 0x4e0811a1, 21, 0x5e6bc930);
  }

  lemma Turns60(x: seq<word>)
    requires x == WORDS && At(x, 60, 0x0077c208, 0x5e6bc930, 0xa3e2247f, 0x847fc2e7)
    ensures At(x, 64, 0x708ed9c2, 0x1116e6d8, 0xd38f1e7f, 0x2baf1354)
  {
    hide At;
    Turn(x, 60, 0x0077c208, 0x5e6bc930, 0xa3e2247f, 0x847fc2e7, 0x74737271, 0xf7537e82, 6, 0x708ed9c2);
    Turn(x, 61, 0x847fc2e7, 0x708ed9c2, 0x5e6bc930, 0xa3e2247f, 0x00000000, 0xbd3af235, 10, 0x2baf1354);
    Turn(x, 62, 0xa3e2247f, 0x2baf1354, 0x708ed9c2, 0x5e6bc930, 0x6c6b6a69, 0x2ad7d2bb, 15, 0xd38f1e7f);
    Turn(x, 63, 0x5e6bc930, 0xd38f1e7f, 0x2baf1354, 0x708ed9c2, 0x00000000, 0xeb86d391, 21, 0x1116e6d8);
  }

  lemma AllTurns(x: seq<word>)
    requires x == WORDS
    ensures At(x, 64, 0x708ed9c2, 0x1116e6d8, 0xd38f1e7f, 0x2baf1354)
  {
    RotatedStart([IV.a, IV.b, IV.c, IV.d]);
    assert At(x, 0, 0x67452301, 0xefcdab89, 0x98badcfe, 0x10325476);
    hide At;
    Turns0(x); Turns4(x); Turns8(x); Turns12(x);
    Turns16(x); Turns20(x); Turns24(x); Turns28(x);
    Turns32(x); Turns36(x); Turns40(x); Turns44(x);
    Turns48(x); Turns52(x); Turns56(x); Turns60(x);
  }

  // The one block of the padded text.
  function Block(): seq<byte> { TEXT + [0x80] + Zeros(29) + LENGTH }

  const LENGTH: seq<byte> := [0xd0, 0, 0, 0, 0, 0, 0, 0]

  lemma LengthOfText()
    ensures LengthBytes(26) == LENGTH
  {
    hide LengthDigit, Pow256;
    assert 8 * 26 % TWO64 == 208;
    forall k | 0 <= k < 8 ensures LengthField(208)[k] == LENGTH[k] {
      DigitOf208(k);
    }
  }

  lemma DigitOf208(k: nat)
    requires k < 8
    ensures LengthDigit(208, k) == if k == 0 then 208 else 0
  {
    PowersOf256();
  }

  lemma PaddedText()
    ensures Pad(TEXT) == Block() && |Block()| == 64
  {
    hide LengthBytes;
    LengthOfText();
    assert |TEXT| == 26 && ZeroCount(26) == 29;
  }

  lemma LoadLiteral(b: seq<byte>, k: nat, b0: byte, b1: byte, b2: byte, b3: byte)
    requires |b| == 64 && k < 16
    requires b[4 * k] == b0 && b[4 * k + 1] == b1 && b[4 * k + 2] == b2 && b[4 * k + 3] == b3
    ensures BlockWords(b)[k] == (b0 as word) | (b1 as word << 8) | (b2 as word << 16) | (b3 as word << 24)
  {
  }

  lemma LettersLoad1(b: seq<byte>)
    requires b == Block() && |b| == 64
    ensures forall k :: 0 <= k < 3 ==> BlockWords(b)[k] == WORDS[k]
  {
    hide BlockWords, Zeros;
    LoadLiteral(b, 0, 0x61, 0x62, 0x63, 0x64);
    LoadLiteral(b, 1, 0x65, 0x66, 0x67, 0x68);
    LoadLiteral(b, 2, 0x69, 0x6a, 0x6b, 0x6c);
  }

  lemma LettersLoad2(b: seq<byte>)
    requires b == Block() && |b| == 64
    ensures forall k :: 3 <= k < 6 ==> BlockWords(b)[k] == WORDS[k]
  {
    hide BlockWords, Zeros;
    LoadLiteral(b, 3, 0x6d, 0x6e, 0x6f, 0x70);
    LoadLiteral(b, 4, 0x71, 0x72, 0x73, 0x74);
    LoadLiteral(b, 5, 0x75, 0x76, 0x77, 0x78);
  }

  lemma RestLoads(b: seq<byte>)
    requires b == Block() && |b| == 64
    ensures forall k :: 6 <= k < 16 ==> BlockWords(b)[k] == WORDS[k]
  {
    hide BlockWords;
    LoadLiteral(b, 6, 0x79, 0x7a, 0x80, 0x00);
    forall k | 7 <= k < 16 ensures BlockWords(b)[k] == WORDS[k] {
      LoadLiteral(b, k, if k == 14 then 0xd0 else 0, 0, 0, 0);
    }
  }

  lemma BlockCompresses(b: seq<byte>)
    requires |b| == 64 && BlockWords(b) == WORDS
    ensures Compress(IV, b) == Hash(0xd7d3fcc3, 0x00e49261, 0x6c49fb7d, 0x3be167ca)
  {
    hide Rounds, BlockWords, Operation, Rotated, Plus;
    var r, x := [IV.a, IV.b, IV.c, IV.d], BlockWords(b);
    AllTurns(x);
    RotatedEnd(Rounds(r, x, 64), 0x708ed9c2, 0x1116e6d8, 0xd38f1e7f, 0x2baf1354);
    SumsAre();
  }

  lemma SumsAre()
    ensures Plus(0x67452301, 0x708ed9c2) == 0xd7d3fcc3 && Plus(0xefcdab89, 0x1116e6d8) == 0x00e49261
    ensures Plus(0x98badcfe, 0xd38f1e7f) == 0x6c49fb7d && Plus(0x10325476, 0x2baf1354) == 0x3be167ca
  {
  }

  lemma DigestLoads(h: Hash)
    requires h == Hash(0xd7d3fcc3, 0x00e49261, 0x6c49fb7d, 0x3be167ca)
    ensures Output(h) == DIGEST
  {
    hide Output;
    RegistersLoad(h);
    OutputLoadsBack(h, DIGEST);
  }

  lemma RegistersLoad(h: Hash)
    requires h == Hash(0xd7d3fcc3, 0x00e49261, 0x6c49fb7d, 0x3be167ca)
    ensures forall i :: 0 <= i < 4 ==> LoadWord(DIGEST, 4 * i) == Register(h, i)
  {
    assert LoadWord(DIGEST, 0) == h.a && LoadWord(DIGEST, 4) == h.b;
    assert LoadWord(DIGEST, 8) == h.c && LoadWord(DIGEST, 12) == h.d;
    forall i | 0 <= i < 4 ensures LoadWord(DIGEST, 4 * i) == Register(h, i) {
      if i == 0 {} else if i == 1 {} else if i == 2 {} else {}
    }
  }

  // MD5 of the text is the digest the RFC prints.
  lemma Md5OfText()
    ensures Md5(TEXT) == DIGEST
  {
    hide Pad, Compress, BlockWords, Output, Block;
    var b := Block();
    PaddedText();
    LettersLoad1(b);
    LettersLoad2(b);
    RestLoads(b);
    assert BlockWords(b) == WORDS;
    BlockCompresses(b);
    assert b[..0] == [] && b[0..] == b && Blocks(IV, []) == IV;
    DigestLoads(Compress(IV, b));
  }
}
