// The 32-bit words and the four registers of MD5.
module Md5Word {
  type byte = bv8
  type word = bv32

  datatype Hash = Hash(a: word, b: word, c: word, d: word)

  function RotL(x: word, s: word): word
    requires s < 32
  {
    (x << s) | (x >> (32 - s))
  }

  // Rotating by one doubles and brings the top bit round.
  lemma RotatesOne(x: word)
    ensures RotL(x, 0) == x && RotL(x, 1) == x + x + (x >> 31)
  {
  }

  function Plus(x: word, y: word): word { x + y }

  function AddTo(h: Hash, a: word, b: word, c: word, d: word): Hash {
    Hash(Plus(h.a, a), Plus(h.b, b), Plus(h.c, c), Plus(h.d, d))
  }

  // The old registers are added, each to its own.
  lemma AddsOwnRegisters(h: Hash, a: word, b: word, c: word, d: word)
    ensures var n := AddTo(h, a, b, c, d);
            n.a == Plus(h.a, a) && n.b == Plus(h.b, b) && n.c == Plus(h.c, c) && n.d == Plus(h.d, d)
  {
    hide Plus;
  }
}
