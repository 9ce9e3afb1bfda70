/**
 LEB128 numbers (DWARF 5, section 7.6) in the opcode streams of the dynamic linker.  Words
 are numbers below 2^64; shifts and the bitwise or of words are written out on them.
 */
module Leb128 {
  import opened Common

  // ------------------------------------------------------------------ the numbers that byte strings stand for

  predicate More(b: Byte) { b >= 128 }

  function Digit(b: Byte): nat { b % 128 }

  /** How many bytes a number at the start of `data` takes: up to the first one without the top bit. */
  function Taken(data: seq<Byte>): (k: nat)
    ensures k <= |data| && (data != [] ==> 0 < k)
  {
    if data == [] then 0 else if More(data[0]) then 1 + Taken(data[1..]) else 1
  }

  /** The unsigned number at the start of `data`, to base 128, least significant digit first. */
  function Unsigned(data: seq<Byte>): nat {
    if data == [] then 0
    else Digit(data[0]) + if More(data[0]) then 128 * Unsigned(data[1..]) else 0
  }

  /** The signed number at the start of `data`: its last digit counts from -64 to 63. */
  function Signed(data: seq<Byte>): int {
    if data == [] then 0
    else if |data| == 1 || !More(data[0]) then SignedDigit(data[0])
    else Digit(data[0]) + 128 * Signed(data[1..])
  }

  function SignedDigit(b: Byte): int { if Digit(b) < 64 then Digit(b) else Digit(b) - 128 }

  // ------------------------------------------------------------------ encodings

  /** The unsigned encoding: seven bits a byte, the low ones first, the top bit set on all but the last. */
  function Uleb(n: nat): (s: seq<Byte>)
    ensures s != []
  {
    if n < 128 then [n] else [n % 128 + 128] + Uleb(n / 128)
  }

  /** The signed encoding: as the unsigned one, but the last digit carries the sign. */
  function Sleb(n: int): (s: seq<Byte>)
    ensures s != []
    decreases if n < 0 then -n else n
  {
    if -64 <= n < 64 then [n % 128] else [n % 128 + 128] + Sleb(n / 128)
  }

  /** The encoding of a number, whatever follows it, stands for the number. */
  lemma {:induction false} UnsignedOfUleb(n: nat, tail: seq<Byte>)
    ensures Unsigned(Uleb(n) + tail) == n && Taken(Uleb(n) + tail) == |Uleb(n)|
  {
    if n >= 128 {
      UnsignedOfUleb(n / 128, tail);
      assert (Uleb(n) + tail)[1..] == Uleb(n / 128) + tail;
    }
  }

  lemma {:induction false} SignedOfSleb(n: int, tail: seq<Byte>)
    ensures Signed(Sleb(n) + tail) == n && Taken(Sleb(n) + tail) == |Sleb(n)|
    decreases if n < 0 then -n else n
  {
    if -64 <= n < 64 {
      assert (Sleb(n) + tail)[0] == n % 128;
    } else {
      var q, r := n / 128, n % 128;
      SignedOfSleb(q, tail);
      SignedCons(r, Sleb(q) + tail);
      assert Sleb(n) + tail == [r + 128] + (Sleb(q) + tail);
    }
  }

  lemma {:induction false} SignedCons(r: nat, rest: seq<Byte>)
    requires r < 128 && rest != []
    ensures Signed([r + 128] + rest) == r + 128 * Signed(rest) && Taken([r + 128] + rest) == 1 + Taken(rest)
  {
    assert ([r + 128] + rest)[1..] == rest;
  }

  /** The examples of section 7.6 of the standard. */
  lemma {:induction false} Examples()
    ensures Unsigned([0x02]) == 2 && Unsigned([0x7F]) == 127 && Unsigned([0x80, 0x01]) == 128
    ensures Unsigned([0x81, 0x01]) == 129 && Unsigned([0xB9, 0x64]) == 12857
    ensures Signed([0x02]) == 2 && Signed([0x7E]) == -2 && Signed([0xFF, 0x00]) == 127
    ensures Signed([0x81, 0x7F]) == -127 && Signed([0x80, 0x01]) == 128 && Signed([0x80, 0x7F]) == -128
    ensures Taken([0xB9, 0x64, 0xFF]) == 2 && Taken([0x7F, 0x80]) == 1
  {
    assert forall a: Byte, b: Byte :: [a, b][1..] == [b];
    assert [0xB9, 0x64, 0xFF][1..] == [0x64, 0xFF];
  }

  /** x times two to the power of `s`. */
  function Scaled(x: int, s: nat): (r: int)
    ensures 0 <= x ==> x <= r
  {
    if s == 0 then x else 2 * Scaled(x, s - 1)
  }

  lemma {:induction false} ScaledAdds(x: int, y: int, s: nat)
    ensures Scaled(x + y, s) == Scaled(x, s) + Scaled(y, s)
  {
    if s > 0 {
      ScaledAdds(x, y, s - 1);
    }
  }

  lemma {:induction false} ScaledMonotone(x: int, y: int, s: nat)
    requires x <= y
    ensures Scaled(x, s) <= Scaled(y, s)
  {
    if s > 0 {
      ScaledMonotone(x, y, s - 1);
    }
  }

  /** Seven places are one digit. */
  lemma {:induction false} ScaledDigit(x: int, s: nat)
    ensures Scaled(x, s + 7) == Scaled(128 * x, s)
  {
    if s == 0 {
      SevenDoublings(x, 0);
    } else {
      ScaledDigit(x, s - 1);
    }
  }

  /** The powers at the word size. */
  lemma {:induction false} PowersAt64(x: int)
    ensures Scaled(x, 63) == 0x8000_0000_0000_0000 * x
  {
    SevenDoublings(x, 0);
    SevenDoublings(x, 7);
    SevenDoublings(x, 14);
    SevenDoublings(x, 21);
    SevenDoublings(x, 28);
    SevenDoublings(x, 35);
    SevenDoublings(x, 42);
    SevenDoublings(x, 49);
    SevenDoublings(x, 56);
  }

  lemma {:induction false} SevenDoublings(x: int, s: nat)
    ensures Scaled(x, s + 7) == 128 * Scaled(x, s)
  {
    assert Scaled(x, s + 1) == 2 * Scaled(x, s);
    assert Scaled(x, s + 2) == 2 * Scaled(x, s + 1);
    assert Scaled(x, s + 3) == 2 * Scaled(x, s + 2);
    assert Scaled(x, s + 4) == 2 * Scaled(x, s + 3);
    assert Scaled(x, s + 5) == 2 * Scaled(x, s + 4);
    assert Scaled(x, s + 6) == 2 * Scaled(x, s + 5);
  }

  /** A number of `k` digits has an encoding of at most `k` bytes. */
  lemma {:induction false} UlebLength(n: nat, k: nat)
    requires 1 <= k && n < Scaled(1, 7 * k)
    ensures |Uleb(n)| <= k
  {
    SevenDoublings(1, 7 * (k - 1));
    if n >= 128 && k > 1 {
      UlebLength(n / 128, k - 1);
    }
  }

  lemma {:induction false} SlebLength(n: int, k: nat)
    requires 1 <= k && -Scaled(1, 7 * k) <= 2 * n < Scaled(1, 7 * k)
    ensures |Sleb(n)| <= k
    decreases k
  {
    SevenDoublings(1, 7 * (k - 1));
    if !(-64 <= n < 64) && k > 1 {
      SlebLength(n / 128, k - 1);
    }
  }

  // ------------------------------------------------------------------ words

  /** The bitwise or. */
  function Or(a: nat, b: nat): nat {
    if a == 0 then b else if b == 0 then a
    else 2 * Or(a / 2, b / 2) + if a % 2 == 1 || b % 2 == 1 then 1 else 0
  }

  /** Bit `k` of a number. */
  predicate Bit(n: nat, k: nat) {
    if k == 0 then n % 2 == 1 else Bit(n / 2, k - 1)
  }

  lemma {:induction false} OrHalves(a: nat, b: nat)
    ensures Or(a, b) / 2 == Or(a / 2, b / 2)
    ensures Or(a, b) % 2 == 1 <==> a % 2 == 1 || b % 2 == 1
  {
  }

  lemma {:induction false} OrBits(a: nat, b: nat, k: nat)
    ensures Bit(Or(a, b), k) <==> Bit(a, k) || Bit(b, k)
    decreases k
  {
    OrHalves(a, b);
    if k > 0 {
      OrBits(a / 2, b / 2, k - 1);
    }
  }

  /** x << shift on words; the machine takes shift amounts modulo 64. */
  function Shl(x: nat, shift: nat): (r: nat)
    ensures r < 0x1_0000_0000_0000_0000
  {
    Scaled(x, shift % 64) % 0x1_0000_0000_0000_0000
  }

  /** Or with a word whose low bits are clear is addition. */
  lemma {:induction false} OrAdds(a: nat, c: nat, s: nat)
    requires a < Scaled(1, s)
    ensures Or(a, Scaled(c, s)) == a + Scaled(c, s)
    decreases s
  {
    if s > 0 {
      OrAdds(a / 2, c, s - 1);
    }
  }

  // ------------------------------------------------------------------ bits of shifted words

  lemma {:induction false} ScaledBit(x: nat, s: nat, b: nat)
    ensures Bit(Scaled(x, s), b) <==> s <= b && Bit(x, b - s)
  {
    if s > 0 {
      assert Scaled(x, s) / 2 == Scaled(x, s - 1) && Scaled(x, s) % 2 == 0;
      if b > 0 {
        ScaledBit(x, s - 1, b - 1);
      }
    }
  }

  /** What is added above bit `w` does not show below. */
  lemma {:induction false} LowBit(q: nat, r: nat, w: nat, b: nat)
    requires b < w
    ensures Bit(Scaled(q, w) + r, b) <==> Bit(r, b)
  {
    var half := Scaled(q, w - 1);
    assert (Scaled(q, w) + r) / 2 == half + r / 2 && (Scaled(q, w) + r) % 2 == r % 2;
    if b > 0 {
      LowBit(q, r / 2, w - 1, b - 1);
    }
  }

  lemma {:induction false} SmallBits(x: nat, w: nat, b: nat)
    requires x < Scaled(1, w) && w <= b
    ensures !Bit(x, b)
  {
    if w == 0 {
      NoBits(b);
    } else {
      SmallBits(x / 2, w - 1, b - 1);
    }
  }

  lemma {:induction false} NoBits(b: nat)
    ensures !Bit(0, b)
  {
    if b > 0 {
      NoBits(b - 1);
    }
  }

  /** Digit number `i` of a byte string sets bit `b` of the word: its place is 7i, modulo 64. */
  predicate SetBy(data: seq<Byte>, i: nat, b: nat)
    requires i < |data|
  {
    var place := 7 * i % 64;
    place <= b < place + 7 && Bit(Digit(data[i]), b - place)
  }

  lemma {:induction false} DigitBit(data: seq<Byte>, i: nat, b: nat)
    requires i < |data| && b < 64
    ensures Bit(Shl(Digit(data[i]), 7 * i), b) <==> SetBy(data, i, b)
  {
    var d, place := Digit(data[i]), 7 * i % 64;
    var v := Scaled(d, place);
    var q, r := v / 0x1_0000_0000_0000_0000, v % 0x1_0000_0000_0000_0000;
    PowersAt64(q);
    LowBit(q, r, 64, b);
    ScaledBit(d, place, b);
    if place + 7 <= b {
      assert Scaled(1, 7) == 128;
      SmallBits(d, 7, b - place);
    }
  }

  /** The bits below 64 of `word` are those that the first `n` digits set. */
  ghost predicate SetByDigits(data: seq<Byte>, n: nat, word: nat)
    requires n <= |data|
  {
    forall b :: 0 <= b < 64 ==> BitSetByDigits(data, n, word, b)
  }

  ghost predicate BitSetByDigits(data: seq<Byte>, n: nat, word: nat, b: nat)
    requires n <= |data|
  {
    Bit(word, b) <==> exists i :: 0 <= i < n && SetBy(data, i, b)
  }

  lemma {:induction false} DigitsStart(data: seq<Byte>)
    ensures SetByDigits(data, 0, 0)
  {
    forall b | 0 <= b < 64
      ensures BitSetByDigits(data, 0, 0, b)
    {
      NoBits(b);
    }
  }

  lemma {:induction false} DigitsNext(data: seq<Byte>, n: nat, word: nat)
    requires n < |data| && SetByDigits(data, n, word)
    ensures SetByDigits(data, n + 1, Or(word, Shl(Digit(data[n]), 7 * n)))
  {
    var added, next := Shl(Digit(data[n]), 7 * n), n + 1;
    forall b | 0 <= b < 64
      ensures BitSetByDigits(data, next, Or(word, added), b)
    {
      assert BitSetByDigits(data, n, word, b);
      OrBits(word, added, b);
      DigitBit(data, n, b);
    }
  }

  // ------------------------------------------------------------------ the decoders

  /** `result` holds the first `j` digits of a number, and `rest` is what follows them. */
  ghost predicate Pending(number: int, result: nat, rest: int, j: nat) {
    result < Scaled(1, 7 * j) && number == result + Scaled(rest, 7 * j)
  }

  /** Reading a digit that others follow. */
  lemma {:induction false} PendingNext(number: int, result: nat, d: nat, rest: int, j: nat)
    requires d < 128 && j <= 8 && Pending(number, result, d + 128 * rest, j)
    ensures Pending(number, Or(result, Shl(d, 7 * j)), rest, j + 1)
  {
    var s := 7 * j;
    DigitPlaced(result, d, j);
    ScaledAdds(d, 128 * rest, s);
    ScaledDigit(rest, s);
  }

  /** A digit below the word size goes above the digits that are there. */
  lemma {:induction false} DigitPlaced(result: nat, d: nat, j: nat)
    requires d < 128 && j <= 8 && result < Scaled(1, 7 * j)
    ensures Or(result, Shl(d, 7 * j)) == result + Scaled(d, 7 * j) < Scaled(1, 7 * (j + 1)) < 0x1_0000_0000_0000_0000
  {
    var s := 7 * j;
    ScaledDigit(1, s);
    ScaledMonotone(d, 127, s);
    ScaledAdds(127, 1, s);
    UpTo63(s + 7);
    ShlSmall(d, s);
    OrAdds(result, d, s);
  }

  lemma {:induction false} ShlSmall(x: nat, s: nat)
    requires s < 64 && Scaled(x, s) < 0x1_0000_0000_0000_0000
    ensures Shl(x, s) == Scaled(x, s)
  {
    assert s % 64 == s;
    ModIs(Scaled(x, s), 0, Scaled(x, s));
  }

  lemma {:induction false} ModIs(v: int, q: int, r: nat)
    requires v == q * 0x1_0000_0000_0000_0000 + r && r < 0x1_0000_0000_0000_0000
    ensures v % 0x1_0000_0000_0000_0000 == r
  {
  }

  lemma {:induction false} UpTo63(s: nat)
    requires s <= 63
    ensures Scaled(1, s) <= 0x8000_0000_0000_0000
    decreases 63 - s
  {
    if s == 63 {
      PowersAt64(1);
    } else {
      UpTo63(s + 1);
    }
  }

  /** The last digit completes the number; at the word size only its lowest bit is left. */
  lemma {:induction false} LastDigit(number: int, result: nat, d: nat, j: nat)
    requires d < 128 && j <= 9 && Pending(number, result, d, j)
    ensures Or(result, Shl(d, 7 * j)) == number % 0x1_0000_0000_0000_0000
  {
    if j <= 8 {
      DigitPlaced(result, d, j);
      ModIs(number, 0, number);
    } else {
      assert 7 * j == 63;
      TopDigit(result, d);
    }
  }

  lemma {:induction false} TopDigit(result: nat, d: nat)
    requires result < Scaled(1, 63)
    ensures Or(result, Shl(d, 63)) == (result + Scaled(d, 63)) % 0x1_0000_0000_0000_0000
  {
    PowersAt64(1);
    PowersAt64(d);
    PowersAt64(d % 2);
    var top := Scaled(d % 2, 63);
    ModIs(Scaled(d, 63), d / 2, top);
    OrAdds(result, d % 2, 63);
    ModIs(result + Scaled(d, 63), d / 2, result + top);
  }

  /** What the signed decoder makes of the word after the last byte: it fills the bits above with the sign. */
  function Finish(result: nat, byte: Byte, shift: nat): nat {
    if shift < 64 && byte % 128 >= 64 then Or(result, Negated(Shl(1, shift))) else result
  }

  /** Two's complement negation of a word. */
  function Negated(x: nat): (r: nat)
    requires x < 0x1_0000_0000_0000_0000
  {
    if x == 0 then 0 else 0x1_0000_0000_0000_0000 - x
  }

  /** The word with all bits from `s` on has clear bits below. */
  lemma {:induction false} HighBits(s: nat) returns (c: nat)
    requires s <= 63
    ensures Scaled(c, s) == 0x1_0000_0000_0000_0000 - Scaled(1, s)
    decreases 63 - s
  {
    if s == 63 {
      PowersAt64(1);
      c := 1;
    } else {
      var above := HighBits(s + 1);
      c := 2 * above + 1;
      DoubleScaled(above, s);
      DoubleScaled(1, s);
      ScaledAdds(2 * above, 1, s);
      ScaledAdds(1, 1, s);
    }
  }

  lemma {:induction false} DoubleScaled(x: int, s: nat)
    ensures Scaled(2 * x, s) == Scaled(x, s + 1)
  {
    if s > 0 {
      DoubleScaled(x, s - 1);
    }
  }

  /** The sign fill completes a signed number. */
  lemma {:induction false} LastSignedDigit(number: int, result: nat, b: Byte, j: nat)
    requires j <= 9 && Pending(number, result, SignedDigit(b), j)
    ensures Finish(Or(result, Shl(Digit(b), 7 * j)), b, 7 * j + 7) == number % 0x1_0000_0000_0000_0000
  {
    if j == 9 {
      TopSignedDigit(number, result, b);
    } else if Digit(b) >= 64 {
      DigitPlaced(result, Digit(b), j);
      SignFilled(result, Digit(b), j);
    } else {
      DigitPlaced(result, Digit(b), j);
      ModIs(number, 0, number);
    }
  }

  lemma {:induction false} TopSignedDigit(number: int, result: nat, b: Byte)
    requires Pending(number, result, SignedDigit(b), 9)
    ensures Finish(Or(result, Shl(Digit(b), 63)), b, 70) == number % 0x1_0000_0000_0000_0000
  {
    TopDigit(result, Digit(b));
    SameAtTop(result, Digit(b));
  }

  /** At the word size the sign of the last digit makes no difference. */
  lemma {:induction false} SameAtTop(result: nat, d: nat)
    ensures (result + Scaled(d, 63)) % 0x1_0000_0000_0000_0000 ==
            (result + Scaled(d - 128, 63)) % 0x1_0000_0000_0000_0000
  {
    PowersAt64(d);
    PowersAt64(d - 128);
    var v := result + Scaled(d, 63);
    var q, r := v / 0x1_0000_0000_0000_0000, v % 0x1_0000_0000_0000_0000;
    ModIs(v - 64 * 0x1_0000_0000_0000_0000, q - 64, r);
  }

  /** The negated power of two, as the decoder computes it, has clear bits below. */
  lemma {:induction false} NegatedPower(s: nat) returns (c: nat)
    requires s <= 63
    ensures Shl(1, s) == Scaled(1, s) <= 0x8000_0000_0000_0000 && Negated(Shl(1, s)) == Scaled(c, s)
    ensures Scaled(c, s) == 0x1_0000_0000_0000_0000 - Scaled(1, s)
  {
    UpTo63(s);
    ShlSmall(1, s);
    c := HighBits(s);
  }

  lemma {:induction false} SignFilled(result: nat, d: nat, j: nat)
    requires 64 <= d < 128 && j <= 8 && result < Scaled(1, 7 * j)
    ensures Or(result + Scaled(d, 7 * j), Negated(Shl(1, 7 * j + 7))) ==
            (result + Scaled(d - 128, 7 * j)) % 0x1_0000_0000_0000_0000
  {
    var s, r := 7 * j + 7, result + Scaled(d, 7 * j);
    DigitPlaced(result, d, j);
    var c := NegatedPower(s);
    OrAdds(r, c, s);
    BelowTop(d, j);
    ModIs(r - Scaled(1, s), -1, r + Scaled(c, s));
  }

  lemma {:induction false} BelowTop(d: nat, j: nat)
    ensures Scaled(d - 128, 7 * j) == Scaled(d, 7 * j) - Scaled(1, 7 * j + 7)
  {
    ScaledAdds(d - 128, 128, 7 * j);
    ScaledDigit(1, 7 * j);
  }

  lemma {:induction false} PendingStart(number: int)
    ensures Pending(number, 0, number, 0)
  {
  }

  /**
     Decodes an unsigned number at the cursor.  The cursor moves exactly behind the number,
     and the word is the number modulo 2^64, for numbers of up to ten bytes.
   */
  method DecodeUleb128(data: seq<Byte>, cursor: nat) returns (result: nat, next: nat)
    requires cursor <= |data|
    ensures next == cursor + Taken(data[cursor..])
    ensures Taken(data[cursor..]) <= 10 ==> result == Unsigned(data[cursor..]) % 0x1_0000_0000_0000_0000
    ensures SetByDigits(data[cursor..], Taken(data[cursor..]), result)
  {
    result, next := 0, cursor;
    var shift: nat := 0;
    ghost var rest := data[cursor..];
    ghost var all, number, taken, j := rest, Unsigned(rest), Taken(rest), 0;
    PendingStart(number);
    DigitsStart(all);
    while next < |data|
      invariant next <= |data| && rest == data[next..] && shift == 7 * j
      invariant next == cursor + j && taken == j + Taken(rest) && SetByDigits(all, j, result)
      invariant taken <= 10 && rest != [] ==> Pending(number, result, Unsigned(rest), j)
      invariant taken <= 10 && rest == [] ==> result == number % 0x1_0000_0000_0000_0000
    {
      var byte := data[next];
      next := next + 1;
      if taken <= 10 {
        UnsignedStep(number, result, rest, j);
      }
      DigitsNext(all, j, result);
      result := Or(result, Shl(byte % 128, shift));
      if byte < 128 {
        break;
      }
      shift := shift + 7;
      rest, j := rest[1..], j + 1;
    }
  }

  lemma {:induction false} UnsignedStep(number: int, result: nat, rest: seq<Byte>, j: nat)
    requires rest != [] && j + Taken(rest) <= 10 && Pending(number, result, Unsigned(rest), j)
    ensures var r := Or(result, Shl(Digit(rest[0]), 7 * j));
            if More(rest[0]) && |rest| > 1 then Pending(number, r, Unsigned(rest[1..]), j + 1)
            else r == number % 0x1_0000_0000_0000_0000
  {
    if More(rest[0]) && |rest| > 1 {
      assert rest[1..] != [];
      PendingNext(number, result, Digit(rest[0]), Unsigned(rest[1..]), j);
    } else {
      if |rest| == 1 {
        assert rest[1..] == [] && Unsigned(rest[1..]) == 0;
      }
      assert Unsigned(rest) == Digit(rest[0]);
      LastDigit(number, result, Digit(rest[0]), j);
    }
  }

  /** Decodes a signed number at the cursor, in two's complement; as for unsigned numbers. */
  method DecodeSleb128(data: seq<Byte>, cursor: nat) returns (result: nat, next: nat)
    requires cursor <= |data|
    ensures next == cursor + Taken(data[cursor..])
    ensures Taken(data[cursor..]) <= 10 ==> result == Signed(data[cursor..]) % 0x1_0000_0000_0000_0000
    ensures 10 <= Taken(data[cursor..]) ==> SetByDigits(data[cursor..], Taken(data[cursor..]), result)
  {
    result, next := 0, cursor;
    var shift: nat, byte: Byte := 0, 0;
    ghost var rest := data[cursor..];
    ghost var all, number, taken, j := rest, Signed(rest), Taken(rest), 0;
    PendingStart(number);
    DigitsStart(all);
    while next < |data|
      invariant next <= |data| && rest == data[next..] && shift == 7 * j
      invariant next == cursor + j && taken == j + Taken(rest) && SetByDigits(all, j, result)
      invariant taken <= 10 && rest != [] ==> Pending(number, result, Signed(rest), j)
      invariant taken <= 10 && rest == [] ==> Finish(result, byte, shift) == number % 0x1_0000_0000_0000_0000
    {
      byte := data[next];
      next := next + 1;
      if taken <= 10 {
        SignedStep(number, result, rest, j);
      }
      DigitsNext(all, j, result);
      result := Or(result, Shl(byte % 128, shift));
      shift := shift + 7;
      if byte < 128 {
        break;
      }
      rest, j := rest[1..], j + 1;
    }
    result := Finish(result, byte, shift);
  }

  lemma {:induction false} SignedStep(number: int, result: nat, rest: seq<Byte>, j: nat)
    requires rest != [] && j + Taken(rest) <= 10 && Pending(number, result, Signed(rest), j)
    ensures var r := Or(result, Shl(Digit(rest[0]), 7 * j));
            if More(rest[0]) && |rest| > 1 then Pending(number, r, Signed(rest[1..]), j + 1)
            else Finish(r, rest[0], 7 * j + 7) == number % 0x1_0000_0000_0000_0000
  {
    if More(rest[0]) && |rest| > 1 {
      assert rest[1..] != [];
      PendingNext(number, result, Digit(rest[0]), Signed(rest[1..]), j);
    } else {
      LastSignedDigit(number, result, rest[0], j);
    }
  }

  /** Every 64-bit number, encoded anywhere in a buffer, is decoded, and the cursor moves just past it. */
  method RoundTripUnsigned(before: seq<Byte>, n: nat, after: seq<Byte>) returns (result: nat, next: nat)
    requires n < 0x1_0000_0000_0000_0000
    ensures result == n && next == |before| + |Uleb(n)|
  {
    var data := before + (Uleb(n) + after);
    assert data[|before|..] == Uleb(n) + after;
    result, next := DecodeUleb128(data, |before|);
    UnsignedOfUleb(n, after);
    TenBytes();
    UlebLength(n, 10);
  }

  lemma {:induction false} TenBytes()
    ensures Scaled(1, 7 * 10) >= 2 * 0x1_0000_0000_0000_0000
  {
    PowersAt64(1);
    SevenDoublings(1, 63);
  }

  method RoundTripSigned(before: seq<Byte>, n: int, after: seq<Byte>) returns (result: nat, next: nat)
    requires -0x8000_0000_0000_0000 <= n < 0x8000_0000_0000_0000
    ensures result == n % 0x1_0000_0000_0000_0000 && next == |before| + |Sleb(n)|
  {
    var data := before + (Sleb(n) + after);
    assert data[|before|..] == Sleb(n) + after;
    result, next := DecodeSleb128(data, |before|);
    SignedOfSleb(n, after);
    TenBytes();
    SlebLength(n, 10);
  }
}
