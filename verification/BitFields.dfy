/**
 Bit fields of 32-bit words: the shifts, `|` and `&` that pack and unpack quantised values
 (csrc/layers/quantization/marlin_utils.cpp). A word is a number below 2^32; `|` and `&` are defined
 bit by bit.
 */
module BitFields {
  import opened DivMod

  function Pow2(n: nat): (p: nat)
    ensures p > 0
  {
    if n == 0 then 1 else 2 * Pow2(n - 1)
  }

  lemma {:induction false} Pow2Add(a: nat, b: nat)
    ensures Pow2(a + b) == Pow2(a) * Pow2(b)
  {
    if a > 0 {
      Pow2Add(a - 1, b);
    }
  }

  const WORD_SIZE: nat := 0x1_0000_0000

  lemma WordSizeIs()
    ensures Pow2(4) == 16 && Pow2(8) == 256 && Pow2(32) == WORD_SIZE
  {
    assert Pow2(4) == 16;
    Pow2Add(4, 4);
    Pow2Add(8, 8);
    Pow2Add(16, 16);
  }

  // ---- operations on words ----

  function Or(a: nat, b: nat): nat {
    if a == 0 then b else (if a % 2 == 1 || b % 2 == 1 then 1 else 0) + 2 * Or(a / 2, b / 2)
  }

  function And(a: nat, b: nat): nat {
    if a == 0 then 0 else (if a % 2 == 1 && b % 2 == 1 then 1 else 0) + 2 * And(a / 2, b / 2)
  }

  function ShiftLeft(a: nat, s: nat): nat {
    Times(a, Pow2(s)) % WORD_SIZE
  }

  function ShiftRight(a: nat, s: nat): nat {
    Quotient(a, Pow2(s))
  }

  /** `(1u << bits) - 1u` */
  function Mask(bits: nat): nat {
    Pow2(bits) - 1
  }

  lemma {:induction false} AndMask(a: nat, bits: nat)
    ensures And(a, Mask(bits)) == a % Pow2(bits)
    decreases bits
  {
    if a > 0 && bits > 0 {
      AndMask(a / 2, bits - 1);
      HalfOfRest(a, Pow2(bits - 1));
      assert Mask(bits) == 2 * Mask(bits - 1) + 1;
    }
    if bits == 0 {
      AndZero(a);
    }
  }

  lemma {:induction false} AndZero(a: nat)
    ensures And(a, 0) == 0
  {
    if a > 0 {
      AndZero(a / 2);
    }
  }

  lemma HalfOfRest(a: nat, p: nat)
    requires p > 0
    ensures a % (2 * p) == a % 2 + 2 * ((a / 2) % p)
  {
    DivModIdentity(a / 2, p);
    DivModUnique(a, 2 * p, a / 2 / p, a % 2 + 2 * ((a / 2) % p));
  }

  /** Setting bits above those of `a` adds them. */
  lemma {:induction false} OrAbove(a: nat, v: nat, s: nat)
    requires a < Pow2(s)
    ensures Or(a, Times(v, Pow2(s))) == a + Times(v, Pow2(s))
    decreases s
  {
    if a > 0 {
      assert Times(v, Pow2(s)) == 2 * Times(v, Pow2(s - 1)) by { MulAssoc(v, Pow2(s - 1), 2); }
      OrAbove(a / 2, v, s - 1);
    }
  }

  lemma ShiftAgain(a: nat, s: nat, t: nat)
    ensures ShiftRight(ShiftRight(a, s), t) == ShiftRight(a, s + t)
  {
    var p, q := Pow2(s), Pow2(t);
    Pow2Add(s, t);
    QuotientTwice(a, p, q);
  }

  lemma QuotientTwice(a: nat, p: nat, q: nat)
    requires p > 0 && q > 0
    ensures p * q > 0 && Quotient(Quotient(a, p), q) == Quotient(a, p * q)
  {
    var u: nat := a / p;
    DivModIdentity(a, p);
    DivModIdentity(u, q);
    MulDistributes(u / q * q, u % q, p);
    MulAssoc(u / q, q, p);
    MulLe(u % q + 1, q, p);
    MulDistributes(u % q, 1, p);
    DivModUnique(a, p * q, u / q, (u % q) * p + a % p);
  }

  // ---- fields ----

  predicate Width(bits: nat) {
    bits == 4 || bits == 8
  }

  function PerWord(bits: nat): (n: nat)
    requires Width(bits)
    ensures n > 0 && n * bits == 32 && n == if bits == 4 then 8 else 4
  {
    32 / bits
  }

  /** How many words `n` values fill, and the word a value is in. */
  function WordsFor(n: nat, bits: nat): (w: nat)
    requires Width(bits)
    ensures w == if bits == 4 then n / 8 else n / 4
  {
    n / PerWord(bits)
  }

  /** The position of a value in its word. */
  function PosIn(n: nat, bits: nat): (i: nat)
    requires Width(bits)
    ensures i < PerWord(bits) && i == if bits == 4 then n % 8 else n % 4
  {
    n % PerWord(bits)
  }

  lemma InItsWord(n: nat, bits: nat)
    requires Width(bits)
    ensures n == Times(WordsFor(n, bits), PerWord(bits)) + PosIn(n, bits)
  {
  }

  lemma WholeWordRows(n: nat, bits: nat)
    requires Width(bits) && (n % 16 == 0 || n % 64 == 0)
    ensures PosIn(n, bits) == 0 && n % PerWord(bits) == 0
  {
    var d := if n % 16 == 0 then 16 else 64;
    DivModIdentity(n, d);
    DivModUnique(n, 8, n / d * (d / 8), 0);
    DivModUnique(n, 4, n / d * (d / 4), 0);
  }

  lemma WordBelow(x: nat, size: nat, bits: nat)
    requires Width(bits) && x < size && PosIn(size, bits) == 0
    ensures WordsFor(x, bits) < WordsFor(size, bits)
  {
  }

  function Field(word: nat, bits: nat, i: nat): nat {
    And(ShiftRight(word, bits * i), Mask(bits))
  }

  /** Where field `i` begins. */
  function Place(bits: nat, i: nat): (p: nat)
    ensures p > 0
  {
    Pow2(bits * i)
  }

  lemma NextPlace(bits: nat, i: nat)
    ensures Place(bits, i + 1) == Times(Pow2(bits), Place(bits, i))
  {
    assert bits * (i + 1) == bits + bits * i;
    Pow2Add(bits, bits * i);
  }

  lemma PlaceSplits(bits: nat, i: nat, k: nat)
    ensures Place(bits, i + k) == Times(Place(bits, i), Place(bits, k))
  {
    assert bits * (i + k) == bits * i + bits * k;
    Pow2Add(bits * i, bits * k);
  }

  function Digit(word: nat, place: nat, base: nat): (d: nat)
    requires place > 0 && base > 0
    ensures d < base
  {
    Quotient(word, place) % base
  }

  lemma FieldIs(word: nat, bits: nat, i: nat)
    ensures Field(word, bits, i) == Digit(word, Place(bits, i), Pow2(bits)) < Pow2(bits)
  {
    AndMask(ShiftRight(word, bits * i), bits);
  }

  ghost predicate Fits(vals: seq<nat>, bits: nat) {
    forall i :: 0 <= i < |vals| ==> vals[i] < Pow2(bits)
  }

  /** The word with these fields, the first in the lowest bits. */
  function Assemble(vals: seq<nat>, bits: nat): nat {
    if vals == [] then 0
    else
      var n := |vals| - 1;
      Assemble(vals[..n], bits) + Times(vals[n], Place(bits, n))
  }

  lemma BelowNext(low: nat, v: nat, base: nat, place: nat)
    requires low < place && v < base
    ensures low + Times(v, place) < Times(base, place)
  {
    MulLe(v + 1, base, place);
  }

  lemma {:induction false} AssembleBelow(vals: seq<nat>, bits: nat)
    requires Fits(vals, bits)
    ensures Assemble(vals, bits) < Place(bits, |vals|)
  {
    if vals != [] {
      var n := |vals| - 1;
      AssembleBelow(vals[..n], bits);
      NextPlace(bits, n);
      BelowNext(Assemble(vals[..n], bits), vals[n], Pow2(bits), Place(bits, n));
    }
  }

  lemma PlaceInWord(bits: nat, i: nat)
    requires bits * i <= 32
    ensures Place(bits, i) <= WORD_SIZE
  {
    Pow2Add(bits * i, 32 - bits * i);
    MulLe(1, Pow2(32 - bits * i), Pow2(bits * i));
    WordSizeIs();
  }

  lemma ShiftInWord(value: nat, s: nat)
    requires Times(value, Pow2(s)) < WORD_SIZE
    ensures ShiftLeft(value, s) == Times(value, Pow2(s))
  {
  }

  lemma AssembleSnoc(vals: seq<nat>, bits: nat, value: nat)
    ensures Assemble(vals + [value], bits) == Assemble(vals, bits) + Times(value, Place(bits, |vals|))
  {
    assert (vals + [value])[..|vals|] == vals;
  }

  lemma SnocInWord(vals: seq<nat>, bits: nat, value: nat)
    requires Width(bits) && Fits(vals, bits) && value < Pow2(bits) && |vals| < PerWord(bits)
    ensures Assemble(vals + [value], bits) < WORD_SIZE && Fits(vals + [value], bits)
  {
    assert Fits(vals + [value], bits);
    AssembleBelow(vals + [value], bits);
    PlaceInWord(bits, |vals| + 1);
  }

  /** One more field above those that are there. */
  lemma PutField(vals: seq<nat>, bits: nat, value: nat)
    requires Width(bits) && Fits(vals, bits) && value < Pow2(bits) && |vals| < PerWord(bits)
    ensures Or(Assemble(vals, bits), ShiftLeft(value, bits * |vals|)) == Assemble(vals + [value], bits)
    ensures Assemble(vals + [value], bits) < WORD_SIZE && Fits(vals + [value], bits)
  {
    SnocInWord(vals, bits, value);
    AssembleSnoc(vals, bits, value);
    AssembleBelow(vals, bits);
    var s := bits * |vals|;
    assert Place(bits, |vals|) == Pow2(s);
    ShiftInWord(value, s);
    OrAbove(Assemble(vals, bits), value, s);
  }

  lemma DigitAbove(low: nat, v: nat, place: nat, base: nat)
    requires low < place && v < base
    ensures Digit(low + Times(v, place), place, base) == v
  {
    DivModUnique(low + v * place, place, v, low);
    DivModUnique(v, base, 0, v);
  }

  /** Adding above a digit does not change it. */
  lemma DigitBelow(low: nat, v: nat, place: nat, base: nat, rest: nat)
    requires place > 0 && base > 0
    ensures Digit(low + Times(v, Times(Times(base, place), rest)), place, base) == Digit(low, place, base)
  {
    var q: nat, u: nat := low / place, v * rest;
    assert v * ((base * place) * rest) == (u * base) * place by {
      MulAssoc(base, place, rest);
      MulAssoc(v, base, place * rest);
      MulAssoc(v * base, rest, place);
      MulAssoc(v, base, rest);
      MulAssoc(v, rest, base);
    }
    DivModIdentity(low, place);
    MulDistributes(q, u * base, place);
    DivModUnique(low + (u * base) * place, place, q + u * base, low % place);
    DivModIdentity(q, base);
    MulDistributes(q / base, u, base);
    DivModUnique(q + u * base, base, q / base + u, q % base);
  }

  /** Reading a field gives back what was put there. */
  lemma {:induction false} FieldOfAssembled(vals: seq<nat>, bits: nat, i: nat)
    requires Fits(vals, bits) && i < |vals|
    ensures Field(Assemble(vals, bits), bits, i) == vals[i]
  {
    var n := |vals| - 1;
    var low := Assemble(vals[..n], bits);
    FieldIs(Assemble(vals, bits), bits, i);
    if i == n {
      AssembleBelow(vals[..n], bits);
      DigitAbove(low, vals[n], Place(bits, n), Pow2(bits));
    } else {
      FieldOfAssembled(vals[..n], bits, i);
      FieldIs(low, bits, i);
      NextPlace(bits, i);
      PlaceSplits(bits, i + 1, n - i - 1);
      DigitBelow(low, vals[n], Place(bits, i), Pow2(bits), Place(bits, n - i - 1));
    }
  }

  function Fields(word: nat, bits: nat, n: nat): (vals: seq<nat>)
    ensures |vals| == n
  {
    seq(n, i requires 0 <= i < n => Field(word, bits, i))
  }

  lemma {:induction false} AssembledFieldsMod(word: nat, bits: nat, n: nat)
    ensures Assemble(Fields(word, bits, n), bits) == word % Place(bits, n)
  {
    if n > 0 {
      assert Fields(word, bits, n)[..n - 1] == Fields(word, bits, n - 1);
      AssembledFieldsMod(word, bits, n - 1);
      FieldIs(word, bits, n - 1);
      NextPlace(bits, n - 1);
      RestOfRest(word, Place(bits, n - 1), Pow2(bits));
    }
  }

  lemma RestOfRest(a: nat, place: nat, base: nat)
    requires place > 0 && base > 0
    ensures Times(base, place) > 0 && a % Times(base, place) == a % place + Times(Digit(a, place, base), place)
  {
    var q: nat := a / place;
    DivModIdentity(a, place);
    DivModIdentity(q, base);
    MulAssoc(q / base, base, place);
    MulDistributes(q / base * base, q % base, place);
    BelowNext(a % place, q % base, base, place);
    DivModUnique(a, base * place, q / base, a % place + (q % base) * place);
  }

  /** Taking a word apart and packing the fields again gives the word. */
  lemma AssembledFields(word: nat, bits: nat)
    requires Width(bits) && word < WORD_SIZE
    ensures Assemble(Fields(word, bits, PerWord(bits)), bits) == word
    ensures Fits(Fields(word, bits, PerWord(bits)), bits)
  {
    assert Place(bits, PerWord(bits)) == WORD_SIZE by {
      assert bits * PerWord(bits) == 32;
      WordSizeIs();
    }
    AssembledFieldsMod(word, bits, PerWord(bits));
    FieldsFit(word, bits, PerWord(bits));
  }

  lemma FieldsFit(word: nat, bits: nat, n: nat)
    ensures Fits(Fields(word, bits, n), bits)
  {
    forall i: nat | i < n
      ensures Field(word, bits, i) < Pow2(bits)
    {
      FieldIs(word, bits, i);
    }
  }
}
