// The two UTF-8 state machines of the runtime (RFC 3629, section 3): `put_` assembles a code
// point from the bytes the program outputs and hands it to the host; `get_` splits the host's
// input characters into bytes. All the values involved are non-negative and below 2^21, so
// JavaScript's 32-bit bitwise operators are exact on them and are written here as arithmetic:
// `a | b` is `Or(a, b)`, a mask test `x & m` is a bit field `Bits`, `<< k` multiplies by 2^k,
// `>> k` divides by 2^k, and `x ^ marker`, right after a guard has found the marker bits set in
// `x`, subtracts the marker.

module Utf8 {
  import opened Wrappers

  // ----- bits -----

  function Pow2(k: nat): (p: nat)
    ensures p > 0
  {
    if k == 0 then 1 else 2 * Pow2(k - 1)
  }

  /** Bitwise or of two non-negative integers. */
  function Or(a: nat, b: nat): nat
    decreases a
  {
    if a == 0 then b
    else if b == 0 then a
    else 2 * Or(a / 2, b / 2) + (if a % 2 == 1 || b % 2 == 1 then 1 else 0)
  }

  /** `x & ((span - 1) * unit)`, shifted down by `unit`: the bit field of `x` that starts at bit
      log2(unit) and holds `span` values. */
  function Bits(x: nat, unit: nat, span: nat): nat
    requires unit > 0 && span > 0
  {
    x / unit % span
  }

  lemma Pow2Values()
    ensures Pow2(3) == 8 && Pow2(4) == 0x10 && Pow2(5) == 0x20 && Pow2(6) == 64 && Pow2(7) == 0x80 && Pow2(11) == 0x800 && Pow2(12) == 0x1000
    ensures Pow2(16) == 0x1_0000 && Pow2(18) == 0x4_0000 && Pow2(21) == 0x20_0000
  {
  }

  /** Or-ing a value into the zero low bits of another adds it. */
  lemma {:induction false} OrAdd(m: nat, b: nat, k: nat)
    requires b < Pow2(k)
    ensures Or(m * Pow2(k), b) == m * Pow2(k) + b
    decreases k
  {
    if k > 0 {
      var a := m * Pow2(k);
      assert a == 2 * (m * Pow2(k - 1));
      if a != 0 && b != 0 {
        OrAdd(m, b / 2, k - 1);
      }
    }
  }

  lemma OrAdd6(m: nat, b: nat)
    requires b < 0x40
    ensures Or(m * 0x40, b) == m * 0x40 + b
  {
    Pow2Values();
    OrAdd(m, b, 6);
  }

  lemma OrAdd12(m: nat, b: nat)
    requires b < 0x1000
    ensures Or(m * 0x1000, b) == m * 0x1000 + b
  {
    Pow2Values();
    OrAdd(m, b, 12);
  }

  lemma OrAdd18(m: nat, b: nat)
    requires b < 0x4_0000
    ensures Or(m * 0x4_0000, b) == m * 0x4_0000 + b
  {
    Pow2Values();
    OrAdd(m, b, 18);
  }

  /** An or is below a power of two exactly when both operands are. */
  lemma {:induction false} OrBelow(a: nat, b: nat, k: nat)
    ensures Or(a, b) < Pow2(k) <==> a < Pow2(k) && b < Pow2(k)
    decreases a
  {
    if a != 0 && b != 0 {
      OrBelow(a / 2, b / 2, if k == 0 then 0 else k - 1);
    }
  }

  lemma {:induction false} OrCommutes(a: nat, b: nat)
    ensures Or(a, b) == Or(b, a)
    decreases a + b
  {
    if a != 0 && b != 0 {
      OrCommutes(a / 2, b / 2);
    }
  }

  /** Or-ing a marker into a value below its lowest set bit adds it. */
  lemma OrMarker(x: nat, marker: nat)
    requires (marker == 0xF0 && x < 8) || (marker == 0xE0 && x < 0x10) ||
             (marker == 0xC0 && x < 0x20) || (marker == 0x80 && x < 0x40)
    ensures Or(x, marker) == marker + x
  {
    Pow2Values();
    OrCommutes(x, marker);
    if marker == 0xF0 {
      OrAdd(0x1E, x, 3);
    } else if marker == 0xE0 {
      OrAdd(0xE, x, 4);
    } else if marker == 0xC0 {
      OrAdd(6, x, 5);
    } else {
      OrAdd(2, x, 6);
    }
  }

  // ----- the standard encoding -----

  /** The encoding of a code point by the byte patterns of RFC 3629 section 3, with the four-byte
      pattern applied to every 21-bit value. */
  function Encode(cp: nat): (bs: seq<nat>)
    requires cp < 0x20_0000
    ensures 1 <= |bs| <= 4
    ensures forall i :: 0 <= i < |bs| ==> bs[i] <= 0xFF
  {
    if cp < 0x80 then [cp]
    else if cp < 0x800 then [0xC0 + cp / 0x40, 0x80 + cp % 0x40]
    else if cp < 0x1_0000 then [0xE0 + cp / 0x1000, 0x80 + cp / 0x40 % 0x40, 0x80 + cp % 0x40]
    else [0xF0 + cp / 0x4_0000, 0x80 + cp / 0x1000 % 0x40, 0x80 + cp / 0x40 % 0x40, 0x80 + cp % 0x40]
  }

  // ----- put_ -----

  /** What one call of `put_` does: whether the number is accepted, the new `putCode` and
      `putState`, and the character handed to `putChar`, if any. */
  datatype PutOutcome = PutOutcome(ok: bool, code: nat, state: nat, emitted: Option<nat>)

  /** `put_(number)`. */
  function PutStep(code: nat, state: nat, number: nat): PutOutcome {
    if number > 0xFF then PutOutcome(false, code, state, None)
    else PutByte(code, state, number)
  }

  /** `put_` on a number that passed the range test. States: 0 idle, 1 one continuation byte
      owed, 2 two owed, 4 three owed (after a four-byte lead), 3 two owed after that. A rejected
      byte may already have written `putCode`. */
  function PutByte(code: nat, state: nat, b: nat): PutOutcome
    requires b <= 0xFF
  {
    if state == 0 then
      if Bits(b, 0x80, 2) == 0 then PutOutcome(true, b, 0, Some(b))
      else if Bits(b, 0x20, 8) == 6 then
        var c := (b - 0xC0) * 0x40;
        if Bits(c, 0x80, 0x10) == 0 then PutOutcome(false, c, 0, None) else PutOutcome(true, c, 1, None)
      else if Bits(b, 0x10, 0x10) == 0xE then PutOutcome(true, (b - 0xE0) * 0x1000, 2, None)
      else if Bits(b, 8, 0x20) == 0x1E then PutOutcome(true, (b - 0xF0) * 0x4_0000, 4, None)
      else PutOutcome(false, code, 0, None)
    else if Bits(b, 0x40, 4) == 2 then
      if state == 1 then
        var c := Or(code, b - 0x80);
        PutOutcome(true, c, 0, Some(c))
      else if state == 2 then
        var c := Or(code, (b - 0x80) * 0x40);
        if Bits(c, 0x800, 0x20) == 0 then PutOutcome(false, c, state, None) else PutOutcome(true, c, 1, None)
      else if state == 3 then
        PutOutcome(true, Or(code, (b - 0x80) * 0x40), 1, None)
      else
        var c := Or(code, (b - 0x80) * 0x1000);
        if Bits(c, 0x1_0000, 0x20) == 0 then PutOutcome(false, c, state, None) else PutOutcome(true, c, 3, None)
    else PutOutcome(false, code, state, None)
  }

  /** The states `put_` can be in between calls: a known state; while a byte is owed, a code
      below 2^21, and below 2^16 while the second byte of a three-byte sequence is owed. */
  predicate PutInv(code: nat, state: nat) {
    state <= 4 && (state != 0 ==> code < 0x20_0000) && (state == 2 ==> code < 0x1_0000)
  }

  lemma PutStart()
    ensures PutInv(0, 0)
  {
  }

  /** Every call keeps `put_` in the states above. */
  lemma PutKeeps(code: nat, state: nat, number: nat)
    requires PutInv(code, state)
    ensures var o := PutStep(code, state, number); PutInv(o.code, o.state)
  {
    Pow2Values();
    if number <= 0xFF && state != 0 && 0x80 <= number < 0xC0 {
      var p := number - 0x80;
      OrBelow(code, p, 21);
      OrBelow(code, p * 0x40, 21);
      OrBelow(code, p * 0x40, 16);
      OrBelow(code, p * 0x1000, 21);
    }
  }

  /** A number is rejected, with the state kept and nothing emitted, exactly in the cases the
      byte grammar forbids: a number above 0xFF; a continuation byte or 0xF8..0xFF when idle; a
      byte other than `10xxxxxx` when one is owed; the overlong leads 0xC0 and 0xC1; and, on the
      second byte of a three- or four-byte sequence, a code that would fit in fewer bytes. A
      character is emitted exactly when the state returns to idle, and it is the assembled code. */
  lemma PutRejects(code: nat, state: nat, number: nat)
    requires PutInv(code, state)
    ensures var o := PutStep(code, state, number);
      (!o.ok <==>
        0xFF < number ||
        (state == 0 && (0x80 <= number < 0xC2 || 0xF8 <= number)) ||
        (state != 0 && !(0x80 <= number < 0xC0)) ||
        (state == 2 && code < 0x800 && number < 0xA0) ||
        (state == 4 && code < 0x1_0000 && number < 0x90)) &&
      (!o.ok ==> o.state == state && o.emitted == None) &&
      (o.emitted.Some? <==> o.ok && o.state == 0) &&
      (o.emitted.Some? ==> o.emitted.value == o.code)
  {
    if number <= 0xFF {
      if state == 0 {
        PutIdle(code, number);
      } else {
        PutOwed(code, state, number);
      }
    }
  }

  lemma PutIdle(code: nat, b: nat)
    requires b <= 0xFF
    ensures var o := PutByte(code, 0, b);
      (!o.ok <==> 0x80 <= b < 0xC2 || 0xF8 <= b) &&
      (!o.ok ==> o.state == 0 && o.emitted == None) &&
      (o.emitted.Some? <==> o.ok && o.state == 0) &&
      (o.emitted.Some? ==> o.emitted.value == o.code)
  {
    if b < 0x80 {
      IdleAscii(code, b);
    } else if b < 0xC0 {
      IdleContinuation(code, b);
    } else if b < 0xE0 {
      IdleLead2(code, b);
    } else if b < 0xF0 {
      IdleLead3(code, b);
    } else if b < 0xF8 {
      IdleLead4(code, b);
    } else {
      IdleInvalid(code, b);
    }
  }

  // `put_` from the idle state, by the range of the byte.

  lemma IdleAscii(code: nat, b: nat)
    requires b < 0x80
    ensures PutByte(code, 0, b) == PutOutcome(true, b, 0, Some(b))
  {
    assert Bits(b, 0x80, 2) == 0;
  }

  lemma IdleContinuation(code: nat, b: nat)
    requires 0x80 <= b < 0xC0
    ensures PutByte(code, 0, b) == PutOutcome(false, code, 0, None)
  {
    assert b / 0x80 == 1 && b / 0x20 == 4 + (b - 0x80) / 0x20 && b / 0x10 < 0xC && b / 8 < 0x18;
  }

  lemma IdleLead2(code: nat, b: nat)
    requires 0xC0 <= b < 0xE0
    ensures PutByte(code, 0, b) == PutOutcome(0xC2 <= b, (b - 0xC0) * 0x40, if 0xC2 <= b then 1 else 0, None)
  {
    assert b / 0x80 == 1 && b / 0x20 == 6;
    assert Bits((b - 0xC0) * 0x40, 0x80, 0x10) == (b - 0xC0) / 2;
  }

  lemma IdleLead3(code: nat, b: nat)
    requires 0xE0 <= b < 0xF0
    ensures PutByte(code, 0, b) == PutOutcome(true, (b - 0xE0) * 0x1000, 2, None)
  {
    assert b / 0x80 == 1 && b / 0x20 == 7 && b / 0x10 == 0xE;
  }

  lemma IdleLead4(code: nat, b: nat)
    requires 0xF0 <= b < 0xF8
    ensures PutByte(code, 0, b) == PutOutcome(true, (b - 0xF0) * 0x4_0000, 4, None)
  {
    assert b / 0x80 == 1 && b / 0x20 == 7 && b / 0x10 == 0xF && b / 8 == 0x1E;
  }

  lemma IdleInvalid(code: nat, b: nat)
    requires 0xF8 <= b <= 0xFF
    ensures PutByte(code, 0, b) == PutOutcome(false, code, 0, None)
  {
    assert b / 0x80 == 1 && b / 0x20 == 7 && b / 0x10 == 0xF && b / 8 == 0x1F;
  }

  lemma PutOwed(code: nat, state: nat, b: nat)
    requires PutInv(code, state) && state != 0 && b <= 0xFF
    ensures var o := PutByte(code, state, b);
      (!o.ok <==>
        !(0x80 <= b < 0xC0) ||
        (state == 2 && code < 0x800 && b < 0xA0) ||
        (state == 4 && code < 0x1_0000 && b < 0x90)) &&
      (!o.ok ==> o.state == state && o.emitted == None) &&
      (o.emitted.Some? <==> o.ok && o.state == 0) &&
      (o.emitted.Some? ==> o.emitted.value == o.code)
  {
    if 0x80 <= b < 0xC0 {
      if state == 2 {
        Overlong3(code, b);
      } else if state == 4 {
        Overlong4(code, b);
      }
    }
  }

  /** The second byte of a three-byte sequence completes a code below 0x800 exactly when the
      lead contributed nothing and the byte's payload is below 0x20. */
  lemma Overlong3(code: nat, b: nat)
    requires code < 0x1_0000 && 0x80 <= b < 0xC0
    ensures Bits(Or(code, (b - 0x80) * 0x40), 0x800, 0x20) == 0 <==> code < 0x800 && b < 0xA0
  {
    Pow2Values();
    OrBelow(code, (b - 0x80) * 0x40, 16);
    OrBelow(code, (b - 0x80) * 0x40, 11);
  }

  /** The second byte of a four-byte sequence completes a code below 0x10000 exactly when the
      lead contributed nothing and the byte's payload is below 0x10. */
  lemma Overlong4(code: nat, b: nat)
    requires code < 0x20_0000 && 0x80 <= b < 0xC0
    ensures Bits(Or(code, (b - 0x80) * 0x1000), 0x1_0000, 0x20) == 0 <==> code < 0x1_0000 && b < 0x90
  {
    Pow2Values();
    OrBelow(code, (b - 0x80) * 0x1000, 21);
    OrBelow(code, (b - 0x80) * 0x1000, 16);
  }

  /** Feeding numbers one call after the other, stopping at the first rejected one; `emitted`
      holds the characters handed to the host. */
  datatype PutRun = PutRun(ok: bool, code: nat, state: nat, emitted: seq<nat>)

  function PutAll(code: nat, state: nat, bs: seq<nat>): PutRun {
    PutFrom(code, state, bs, 0)
  }

  /** The run from position `i` of `bs` on. */
  function PutFrom(code: nat, state: nat, bs: seq<nat>, i: nat): PutRun
    requires i <= |bs|
    decreases |bs| - i
  {
    if i == |bs| then PutRun(true, code, state, [])
    else
      var o := PutStep(code, state, bs[i]);
      if !o.ok then PutRun(false, o.code, o.state, [])
      else
        var rest := PutFrom(o.code, o.state, bs, i + 1);
        PutRun(rest.ok, rest.code, rest.state,
               (if o.emitted.Some? then [o.emitted.value] else []) + rest.emitted)
  }

  /** Feeding the standard encoding of a code point from the idle state emits exactly that code
      point and returns to idle: `put_` accepts every well-formed sequence, surrogates and code
      points above 0x10FFFF included. Above 0x10FFFF the model prints the code point where the
      source's `String.fromCodePoint` raises a RangeError. */
  lemma PutEncode(code: nat, cp: nat)
    requires cp < 0x20_0000
    ensures PutAll(code, 0, Encode(cp)) == PutRun(true, cp, 0, [cp])
  {
    Digits(cp);
    if cp < 0x80 {
      assert PutFrom(cp, 0, Encode(cp), 1) == PutRun(true, cp, 0, []);
    } else if cp < 0x800 {
      PutEncode2(code, cp);
    } else if cp < 0x1_0000 {
      PutEncode3(code, cp);
    } else {
      PutEncode4(code, cp);
    }
  }

  lemma PutEncode2(code: nat, cp: nat)
    requires 0x80 <= cp < 0x800 && cp == cp / 0x40 * 0x40 + cp % 0x40
    ensures PutAll(code, 0, Encode(cp)) == PutRun(true, cp, 0, [cp])
  {
    var bs := Encode(cp);
    PutLead2(code, cp / 0x40);
    PutSilent(code, 0, bs, 0, cp / 0x40 * 0x40, 1);
    PutLast(cp / 0x40, bs, 1);
  }

  lemma PutEncode3(code: nat, cp: nat)
    requires 0x800 <= cp < 0x1_0000
    requires cp == cp / 0x40 * 0x40 + cp % 0x40 && cp / 0x40 == cp / 0x1000 * 0x40 + cp / 0x40 % 0x40
    ensures PutAll(code, 0, Encode(cp)) == PutRun(true, cp, 0, [cp])
  {
    var bs := Encode(cp);
    PutLead3(code, cp / 0x1000);
    PutSilent(code, 0, bs, 0, cp / 0x1000 * 0x1000, 2);
    PutSecond3(cp / 0x1000, cp / 0x40 % 0x40);
    PutSilent(cp / 0x1000 * 0x1000, 2, bs, 1, cp / 0x40 * 0x40, 1);
    PutLast(cp / 0x40, bs, 2);
  }

  lemma PutEncode4(code: nat, cp: nat)
    requires 0x1_0000 <= cp < 0x20_0000
    requires cp == cp / 0x40 * 0x40 + cp % 0x40 && cp / 0x40 == cp / 0x1000 * 0x40 + cp / 0x40 % 0x40
    requires cp / 0x1000 == cp / 0x4_0000 * 0x40 + cp / 0x1000 % 0x40
    ensures PutAll(code, 0, Encode(cp)) == PutRun(true, cp, 0, [cp])
  {
    var bs := Encode(cp);
    PutLead4(code, cp / 0x4_0000);
    PutSilent(code, 0, bs, 0, cp / 0x4_0000 * 0x4_0000, 4);
    PutSecond4(cp / 0x4_0000, cp / 0x1000 % 0x40);
    PutSilent(cp / 0x4_0000 * 0x4_0000, 4, bs, 1, cp / 0x1000 * 0x1000, 3);
    PutThird4(cp / 0x1000, cp / 0x40 % 0x40);
    PutSilent(cp / 0x1000 * 0x1000, 3, bs, 2, cp / 0x40 * 0x40, 1);
    PutLast(cp / 0x40, bs, 3);
  }

  /** A code point's six-bit groups. */
  lemma Digits(cp: nat)
    ensures cp == cp / 0x40 * 0x40 + cp % 0x40
    ensures cp / 0x40 == cp / 0x1000 * 0x40 + cp / 0x40 % 0x40
    ensures cp / 0x1000 == cp / 0x4_0000 * 0x40 + cp / 0x1000 % 0x40
  {
  }

  // The steps of a well-formed sequence, each byte given as its marker plus its payload.

  lemma PutLead2(code: nat, m: nat)
    requires 2 <= m < 0x20
    ensures PutStep(code, 0, 0xC0 + m) == PutOutcome(true, m * 0x40, 1, None)
  {
  }

  lemma PutLead3(code: nat, m: nat)
    requires m < 0x10
    ensures PutStep(code, 0, 0xE0 + m) == PutOutcome(true, m * 0x1000, 2, None)
  {
  }

  lemma PutLead4(code: nat, m: nat)
    requires m < 8
    ensures PutStep(code, 0, 0xF0 + m) == PutOutcome(true, m * 0x4_0000, 4, None)
  {
  }

  /** The second byte of a three-byte sequence, when the code is not overlong. */
  lemma PutSecond3(m: nat, p: nat)
    requires m < 0x10 && p < 0x40 && 0x20 <= m * 0x40 + p
    ensures PutStep(m * 0x1000, 2, 0x80 + p) == PutOutcome(true, (m * 0x40 + p) * 0x40, 1, None)
  {
    OrAdd12(m, p * 0x40);
    SecondOwed(m * 0x1000, 2, 0x80 + p, (m * 0x40 + p) * 0x40, 0x40, 0x800);
  }

  /** The second byte of a four-byte sequence, when the code is not overlong. */
  lemma PutSecond4(m: nat, p: nat)
    requires m < 8 && p < 0x40 && 0x10 <= m * 0x40 + p
    ensures PutStep(m * 0x4_0000, 4, 0x80 + p) == PutOutcome(true, (m * 0x40 + p) * 0x1000, 3, None)
  {
    OrAdd18(m, p * 0x1000);
    SecondOwed(m * 0x4_0000, 4, 0x80 + p, (m * 0x40 + p) * 0x1000, 0x1000, 0x1_0000);
  }

  /** A continuation byte in state 2 or 4 whose assembled code `c` has its top bits set. */
  lemma SecondOwed(code: nat, state: nat, b: nat, c: nat, unit: nat, low: nat)
    requires (state == 2 && unit == 0x40 && low == 0x800) || (state == 4 && unit == 0x1000 && low == 0x1_0000)
    requires 0x80 <= b < 0xC0 && Or(code, (b - 0x80) * unit) == c && low <= c < low * 0x20
    ensures PutStep(code, state, b) == PutOutcome(true, c, state - 1, None)
  {
    assert Bits(b, 0x40, 4) == 2 by {
      assert b / 0x40 == 2;
    }
    if state == 2 {
      assert Bits(c, 0x800, 0x20) != 0 by {
        assert 1 <= c / 0x800 < 0x20;
      }
    } else {
      assert Bits(c, 0x1_0000, 0x20) != 0 by {
        assert 1 <= c / 0x1_0000 < 0x20;
      }
    }
  }

  /** The third byte of a four-byte sequence. */
  lemma PutThird4(m: nat, p: nat)
    requires p < 0x40
    ensures PutStep(m * 0x1000, 3, 0x80 + p) == PutOutcome(true, (m * 0x40 + p) * 0x40, 1, None)
  {
    OrAdd12(m, p * 0x40);
  }

  /** An accepted byte that completes no character passes the rest of the run on unchanged. */
  lemma PutSilent(code: nat, state: nat, bs: seq<nat>, i: nat, code': nat, state': nat)
    requires i < |bs| && PutStep(code, state, bs[i]) == PutOutcome(true, code', state', None)
    ensures PutFrom(code, state, bs, i) == PutFrom(code', state', bs, i + 1)
  {
  }

  /** The last continuation byte completes the run. */
  lemma PutLast(m: nat, bs: seq<nat>, i: nat)
    requires i + 1 == |bs| && 0x80 <= bs[i] < 0xC0
    ensures var cp := m * 0x40 + (bs[i] - 0x80);
      PutFrom(m * 0x40, 1, bs, i) == PutRun(true, cp, 0, [cp])
  {
    PutFinal(m, bs[i] - 0x80);
    assert PutFrom(m * 0x40 + (bs[i] - 0x80), 0, bs, i + 1) == PutRun(true, m * 0x40 + (bs[i] - 0x80), 0, []);
  }

  /** The last byte of a sequence. */
  lemma PutFinal(m: nat, p: nat)
    requires p < 0x40
    ensures PutStep(m * 0x40, 1, 0x80 + p) == PutOutcome(true, m * 0x40 + p, 0, Some(m * 0x40 + p))
  {
    OrAdd6(m, p);
  }

  // ----- the converse: put_ accepts only the standard encodings -----

  /** A run that was accepted to the end, finished idle and emitted exactly `cps`. */
  predicate Emits(r: PutRun, cps: seq<nat>) {
    r.ok && r.state == 0 && r.emitted == cps
  }

  /** A single character's worth of bytes that `put_` accepts from the idle state is the standard
      encoding of the character emitted: overlong forms are refused, so the encoding of each code
      point is the only one accepted. */
  lemma PutCanonical(code: nat, bs: seq<nat>, cp: nat)
    requires Emits(PutAll(code, 0, bs), [cp])
    ensures cp < 0x20_0000 && bs == Encode(cp)
  {
    assert bs != [];
    var b := bs[0];
    PutRejects(code, 0, b);
    if b < 0x80 {
      PutLoud(code, 0, bs, 0, b, cp);
      PutQuiet(b, 0, bs, 1);
    } else if b < 0xE0 {
      Canonical2(code, bs, cp);
    } else if b < 0xF0 {
      Canonical3(code, bs, cp);
    } else {
      Canonical4(code, bs, cp);
    }
  }

  lemma Canonical2(code: nat, bs: seq<nat>, cp: nat)
    requires |bs| > 0 && 0xC2 <= bs[0] < 0xE0 && Emits(PutFrom(code, 0, bs, 0), [cp])
    ensures cp < 0x20_0000 && bs == Encode(cp)
  {
    var m := bs[0] - 0xC0;
    PutLead2(code, m);
    PutSilent(code, 0, bs, 0, m * 0x40, 1);
    var p := PutLastOf(m, bs, 1, cp);
    EncodeOf2(m, p);
  }

  lemma Canonical3(code: nat, bs: seq<nat>, cp: nat)
    requires |bs| > 0 && 0xE0 <= bs[0] < 0xF0 && Emits(PutFrom(code, 0, bs, 0), [cp])
    ensures cp < 0x20_0000 && bs == Encode(cp)
  {
    var m := bs[0] - 0xE0;
    PutLead3(code, m);
    PutSilent(code, 0, bs, 0, m * 0x1000, 2);
    var p := PutSecond3Of(m, bs, 1, cp);
    var q := PutLastOf(m * 0x40 + p, bs, 2, cp);
    EncodeOf3(m, p, q);
  }

  lemma Canonical4(code: nat, bs: seq<nat>, cp: nat)
    requires |bs| > 0 && 0xF0 <= bs[0] < 0xF8 && Emits(PutFrom(code, 0, bs, 0), [cp])
    ensures cp < 0x20_0000 && bs == Encode(cp)
  {
    var m := bs[0] - 0xF0;
    PutLead4(code, m);
    PutSilent(code, 0, bs, 0, m * 0x4_0000, 4);
    var p := PutSecond4Of(m, bs, 1, cp);
    var q := PutThird4Of(m * 0x40 + p, bs, 2, cp);
    var r := PutLastOf((m * 0x40 + p) * 0x40 + q, bs, 3, cp);
    EncodeOf4(m, p, q, r);
  }

  /** The second byte of an accepted three-byte sequence: a continuation byte whose payload
      `p` makes the code not overlong. */
  lemma PutSecond3Of(m: nat, bs: seq<nat>, i: nat, cp: nat) returns (p: nat)
    requires i <= |bs| && m < 0x10 && Emits(PutFrom(m * 0x1000, 2, bs, i), [cp])
    ensures i < |bs| && bs[i] == 0x80 + p && p < 0x40 && 0x20 <= m * 0x40 + p
    ensures Emits(PutFrom((m * 0x40 + p) * 0x40, 1, bs, i + 1), [cp])
  {
    PutNext(m * 0x1000, 2, bs, i);
    p := bs[i] - 0x80;
    PutRejects(m * 0x1000, 2, bs[i]);
    PutSecond3(m, p);
    PutSilent(m * 0x1000, 2, bs, i, (m * 0x40 + p) * 0x40, 1);
  }

  lemma PutSecond4Of(m: nat, bs: seq<nat>, i: nat, cp: nat) returns (p: nat)
    requires i <= |bs| && m < 8 && Emits(PutFrom(m * 0x4_0000, 4, bs, i), [cp])
    ensures i < |bs| && bs[i] == 0x80 + p && p < 0x40 && 0x10 <= m * 0x40 + p
    ensures Emits(PutFrom((m * 0x40 + p) * 0x1000, 3, bs, i + 1), [cp])
  {
    PutNext(m * 0x4_0000, 4, bs, i);
    p := bs[i] - 0x80;
    PutRejects(m * 0x4_0000, 4, bs[i]);
    PutSecond4(m, p);
    PutSilent(m * 0x4_0000, 4, bs, i, (m * 0x40 + p) * 0x1000, 3);
  }

  lemma PutThird4Of(m: nat, bs: seq<nat>, i: nat, cp: nat) returns (p: nat)
    requires i <= |bs| && m < 0x200 && Emits(PutFrom(m * 0x1000, 3, bs, i), [cp])
    ensures i < |bs| && bs[i] == 0x80 + p && p < 0x40
    ensures Emits(PutFrom((m * 0x40 + p) * 0x40, 1, bs, i + 1), [cp])
  {
    PutNext(m * 0x1000, 3, bs, i);
    p := bs[i] - 0x80;
    PutThird4(m, p);
    PutSilent(m * 0x1000, 3, bs, i, (m * 0x40 + p) * 0x40, 1);
  }

  /** The last byte of an accepted sequence: a continuation byte that completes `cp`, after
      which nothing is left. */
  lemma PutLastOf(m: nat, bs: seq<nat>, i: nat, cp: nat) returns (p: nat)
    requires i <= |bs| && m < 0x8000 && Emits(PutFrom(m * 0x40, 1, bs, i), [cp])
    ensures i + 1 == |bs| && bs[i] == 0x80 + p && p < 0x40 && cp == m * 0x40 + p
  {
    PutNext(m * 0x40, 1, bs, i);
    p := bs[i] - 0x80;
    PutFinal(m, p);
    PutLoud(m * 0x40, 1, bs, i, m * 0x40 + p, cp);
    PutQuiet(m * 0x40 + p, 0, bs, i + 1);
  }

  /** A byte that completes a character in a run that emits only `cp`: the character is `cp`
      and the rest of the run emits nothing. */
  lemma PutLoud(code: nat, state: nat, bs: seq<nat>, i: nat, e: nat, cp: nat)
    requires i < |bs| && PutStep(code, state, bs[i]) == PutOutcome(true, e, 0, Some(e))
    requires Emits(PutFrom(code, state, bs, i), [cp])
    ensures e == cp && Emits(PutFrom(e, 0, bs, i + 1), [])
  {
    var rest := PutFrom(e, 0, bs, i + 1);
    assert [e] + rest.emitted == [cp];
    assert |[e] + rest.emitted| == 1 && ([e] + rest.emitted)[0] == e;
  }

  /** While a byte is owed, a run that goes on being accepted and ends idle has a next byte, and it
      is a continuation byte. */
  lemma PutNext(code: nat, state: nat, bs: seq<nat>, i: nat)
    requires i <= |bs| && PutInv(code, state) && state != 0
    requires PutFrom(code, state, bs, i).ok && PutFrom(code, state, bs, i).state == 0
    ensures i < |bs| && 0x80 <= bs[i] < 0xC0
  {
    assert i < |bs|;
    PutRejects(code, state, bs[i]);
  }

  /** A run that ends idle without emitting anything consumed nothing. */
  lemma {:induction false} PutQuiet(code: nat, state: nat, bs: seq<nat>, i: nat)
    requires i <= |bs| && PutInv(code, state) && Emits(PutFrom(code, state, bs, i), [])
    ensures i == |bs| && state == 0
    decreases |bs| - i
  {
    if i < |bs| {
      var o := PutStep(code, state, bs[i]);
      PutRejects(code, state, bs[i]);
      PutKeeps(code, state, bs[i]);
      PutQuiet(o.code, o.state, bs, i + 1);
    }
  }

  lemma EncodeOf2(m: nat, p: nat)
    requires 2 <= m < 0x20 && p < 0x40
    ensures Encode(m * 0x40 + p) == [0xC0 + m, 0x80 + p]
  {
  }

  lemma EncodeOf3(m: nat, p: nat, q: nat)
    requires m < 0x10 && p < 0x40 && q < 0x40 && 0x20 <= m * 0x40 + p
    ensures Encode((m * 0x40 + p) * 0x40 + q) == [0xE0 + m, 0x80 + p, 0x80 + q]
  {
  }

  lemma EncodeOf4(m: nat, p: nat, q: nat, r: nat)
    requires m < 8 && p < 0x40 && q < 0x40 && r < 0x40 && 0x10 <= m * 0x40 + p
    ensures Encode(((m * 0x40 + p) * 0x40 + q) * 0x40 + r) == [0xF0 + m, 0x80 + p, 0x80 + q, 0x80 + r]
  {
    var x := m * 0x40 + p;
    var y := x * 0x40 + q;
    var cp := y * 0x40 + r;
    Shift(y, r);
    Shift(x, q);
    Shift(m, p);
    Nested(cp);
    assert cp / 0x40 == y;
    assert cp / 0x1000 == x;
    assert cp / 0x4_0000 == m;
  }

  lemma Nested(cp: nat)
    ensures cp / 0x1000 == cp / 0x40 / 0x40 && cp / 0x4_0000 == cp / 0x1000 / 0x40
  {
  }

  /** Taking off the low six bits. */
  lemma Shift(a: nat, d: nat)
    requires d < 0x40
    ensures (a * 0x40 + d) / 0x40 == a && (a * 0x40 + d) % 0x40 == d
  {
  }

  /** Two of the code points `put_` accepts although RFC 3629 excludes them: a surrogate, and a
      code point above 0x10FFFF behind the lead byte 0xF5. The model prints both; for the second
      the source's `String.fromCodePoint` raises a RangeError instead. */
  lemma PutAcceptsOutsideUnicode()
    ensures PutAll(0, 0, [0xED, 0xA0, 0x80]) == PutRun(true, 0xD800, 0, [0xD800])
    ensures PutAll(0, 0, [0xF5, 0x80, 0x80, 0x80]) == PutRun(true, 0x14_0000, 0, [0x14_0000])
  {
    assert Encode(0xD800) == [0xED, 0xA0, 0x80];
    PutEncode(0, 0xD800);
    assert Encode(0x14_0000) == [0xF5, 0x80, 0x80, 0x80];
    PutEncode(0, 0x14_0000);
  }

  // ----- get_ -----

  /** What one call of `get_` does: the byte returned (`None` for NaN, at the end of the
      input), and the new `getCode` and `getState`. */
  datatype GetOutcome = GetOutcome(value: Option<nat>, code: nat, state: nat)

  /** `get_()`, where `next` is the code point of the character the host's `getChar` returns if
      it is called, `None` for the empty string. States: 0 idle, and otherwise the number of
      continuation bytes still owed. */
  function GetStep(code: nat, state: nat, next: Option<nat>): GetOutcome {
    if state == 0 then
      if next.None? then GetOutcome(None, code, 0) else GetLead(next.value)
    else if state == 1 then GetOutcome(Some(Or(code, 0x80)), code, 0)
    else if state == 2 then GetOutcome(Some(Or(code / 0x40, 0x80)), code, 1)
    else GetOutcome(Some(Or(code / 0x1000, 0x80)), code, 2)
  }

  /** The first byte of a character read from the host. */
  function GetLead(c: nat): GetOutcome {
    if Bits(c, 0x1_0000, 0x20) != 0 then GetOutcome(Some(Or(c / 0x4_0000 % 8, 0xF0)), c, 3)
    else if Bits(c, 0x800, 0x20) != 0 then GetOutcome(Some(Or(c / 0x1000 % 0x10, 0xE0)), c, 2)
    else if Bits(c, 0x80, 0x10) != 0 then GetOutcome(Some(Or(c / 0x40 % 0x20, 0xC0)), c, 1)
    else GetOutcome(Some(c), c, 0)
  }

  /** The host is asked for a character only when `get_` is idle; at the end of the input the
      result is NaN and nothing changes. */
  lemma GetReadsOnlyIdle(code: nat, state: nat, next: Option<nat>)
    ensures state != 0 ==> GetStep(code, state, next) == GetStep(code, state, None)
    ensures state == 0 && next.None? ==> GetStep(code, state, next) == GetOutcome(None, code, 0)
    ensures state == 0 && next.Some? ==> GetStep(code, state, next) == GetLead(next.value)
  {
  }

  /** A character's first byte is the lead byte of its standard encoding, and `get_` then owes
      as many bytes as that encoding has left: a character with bits in 0x1F0000, 0xF800 or 0x780
      yields the 0xF0, 0xE0 or 0xC0 lead and state 3, 2 or 1; one below 0x80 is returned as it is,
      with the state staying idle. */
  lemma GetLeadEncodes(c: nat)
    requires c < 0x20_0000
    ensures var o := GetLead(c);
      o.value == Some(Encode(c)[0]) && o.code == c && o.state == |Encode(c)| - 1
  {
    if c >= 0x1_0000 {
      GetLead4(c);
    } else if c >= 0x800 {
      GetLead3(c);
    } else if c >= 0x80 {
      GetLead2(c);
    }
  }

  lemma GetLead4(c: nat)
    requires 0x1_0000 <= c < 0x20_0000
    ensures GetLead(c) == GetOutcome(Some(0xF0 + c / 0x4_0000), c, 3)
  {
    var m := c / 0x4_0000;
    assert 1 <= c / 0x1_0000 < 0x20;
    assert Bits(c, 0x1_0000, 0x20) != 0;
    assert m < 8 && m % 8 == m;
    OrMarker(m, 0xF0);
    assert Or(c / 0x4_0000 % 8, 0xF0) == 0xF0 + m;
  }

  lemma GetLead3(c: nat)
    requires 0x800 <= c < 0x1_0000
    ensures GetLead(c) == GetOutcome(Some(0xE0 + c / 0x1000), c, 2)
  {
    var m := c / 0x1000;
    assert c / 0x1_0000 == 0;
    assert 1 <= c / 0x800 < 0x20;
    assert Bits(c, 0x1_0000, 0x20) == 0 && Bits(c, 0x800, 0x20) != 0;
    assert m < 0x10 && m % 0x10 == m;
    OrMarker(m, 0xE0);
    assert Or(c / 0x1000 % 0x10, 0xE0) == 0xE0 + m;
  }

  lemma GetLead2(c: nat)
    requires 0x80 <= c < 0x800
    ensures GetLead(c) == GetOutcome(Some(0xC0 + c / 0x40), c, 1)
  {
    var m := c / 0x40;
    assert c / 0x1_0000 == 0 && c / 0x800 == 0;
    assert 1 <= c / 0x80 < 0x10;
    assert Bits(c, 0x1_0000, 0x20) == 0 && Bits(c, 0x800, 0x20) == 0 && Bits(c, 0x80, 0x10) != 0;
    assert m < 0x20 && m % 0x20 == m;
    OrMarker(m, 0xC0);
    assert Or(c / 0x40 % 0x20, 0xC0) == 0xC0 + m;
  }

  /** Once a lead byte is out, the calls count the owed bytes down, 3, 2, 1, 0, keeping the
      character. */
  lemma GetCountsDown(code: nat, state: nat, next: Option<nat>)
    requires 1 <= state <= 3
    ensures var o := GetStep(code, state, next);
      o.value.Some? && o.state == state - 1 && o.code == code
  {
  }

  /** The bytes `get_` yields for one character of the input. */
  function GetChar(c: nat): seq<nat> {
    var o := GetLead(c);
    [o.value.value] + GetOwed(o.code, o.state)
  }

  /** The bytes still owed from state `state`. */
  function GetOwed(code: nat, state: nat): seq<nat>
    decreases state
  {
    if state == 0 || 3 < state then []
    else
      var o := GetStep(code, state, None);
      [o.value.value] + GetOwed(o.code, o.state)
  }

  lemma {:induction false} GetOwedLength(code: nat, state: nat)
    requires state <= 3
    ensures |GetOwed(code, state)| == state
    decreases state
  {
    if state != 0 {
      GetCountsDown(code, state, None);
      GetOwedLength(code, state - 1);
    }
  }

  /** `get_` yields as many bytes for a character as its standard encoding has, starting with
      the same lead byte; below 0x80 the two agree. */
  lemma GetCharShape(c: nat)
    requires c < 0x20_0000
    ensures |GetChar(c)| == |Encode(c)| && GetChar(c)[0] == Encode(c)[0]
    ensures c < 0x80 ==> GetChar(c) == Encode(c)
  {
    GetLeadEncodes(c);
    GetOwedLength(c, |Encode(c)| - 1);
  }

  /** The continuation bytes are not masked to six bits: for U+00E9 `get_` yields 0xC3 and then
      0xE9 instead of 0xA9, and `put_` refuses that second byte. */
  lemma GetUnmasked()
    ensures GetChar(0xE9) == [0xC3, 0xE9]
    ensures Encode(0xE9) == [0xC3, 0xA9]
    ensures !PutAll(0, 0, GetChar(0xE9)).ok
  {
    var c := 0xE9;
    GetChar2(c);
    OrKeeps(c);
    assert 0xC0 + c / 0x40 == 0xC3;
    PutRefusesE9();
  }

  /** A two-byte character: the lead byte, then the whole character or-ed with 0x80. */
  lemma GetChar2(c: nat)
    requires 0x80 <= c < 0x800
    ensures GetChar(c) == [0xC0 + c / 0x40, Or(c, 0x80)]
  {
    GetLead2(c);
    assert GetOwed(c, 1) == [Or(c, 0x80)];
  }

  lemma PutRefusesE9()
    ensures !PutAll(0, 0, [0xC3, 0xE9]).ok
  {
    var bs := [0xC3, 0xE9];
    PutRejects(0, 0, 0xC3);
    PutLead2(0, 3);
    PutRejects(0xC0, 1, 0xE9);
    assert PutFrom(0, 0, bs, 0) == PutFrom(0xC0, 1, bs, 1);
  }

  lemma OrKeeps(x: nat)
    requires x == 0xE9
    ensures Or(x, 0x80) == x
  {
    assert Or(3, 2) == 3;
    assert Or(7, 4) == 7;
    assert Or(0xE, 8) == 0xE;
    assert Or(0x1D, 0x10) == 0x1D;
    assert Or(0x3A, 0x20) == 0x3A;
    assert Or(0x74, 0x40) == 0x74;
  }

  /** Or-ing a bit into a value that already has it as its top bit changes nothing. */
  lemma {:induction false} OrHigh(y: nat, k: nat)
    requires y < Pow2(k)
    ensures Or(Pow2(k) + y, Pow2(k)) == Pow2(k) + y
  {
    if k > 0 {
      var p := Pow2(k - 1);
      assert (2 * p + y) / 2 == p + y / 2 && (2 * p + y) % 2 == y % 2 && (2 * p) / 2 == p;
      OrHigh(y / 2, k - 1);
    }
  }

  /** Or-ing never lowers a value. */
  lemma {:induction false} OrAtLeast(a: nat, b: nat)
    ensures Or(a, b) >= a
    decreases a
  {
    if a != 0 && b != 0 {
      OrAtLeast(a / 2, b / 2);
    }
  }

  /** U+0080 to U+00BF come out right although the continuation byte is not masked: it already
      carries 0x80 as its top bit. `put_` prints such a character back. */
  lemma GetLatin1(c: nat)
    requires 0x80 <= c < 0xC0
    ensures GetChar(c) == Encode(c) == [0xC2, c]
    ensures PutAll(0, 0, GetChar(c)) == PutRun(true, c, 0, [c])
  {
    GetChar2(c);
    Pow2Values();
    OrHigh(c - 0x80, 7);
    assert c / 0x40 == 2 && c % 0x40 == c - 0x80;
    assert Encode(c) == [0xC2, c];
    PutEncode(0, c);
  }

  /** The last byte `get_` yields for a character of two bytes or more is the whole character
      or-ed with 0x80. */
  lemma GetCharLast(c: nat)
    requires 0x80 <= c < 0x20_0000
    ensures |GetChar(c)| >= 2 && GetChar(c)[|GetChar(c)| - 1] == Or(c, 0x80)
  {
    GetLeadEncodes(c);
    GetOwedLast(c, GetLead(c).state);
  }

  lemma {:induction false} GetOwedLast(code: nat, state: nat)
    requires 1 <= state <= 3
    ensures GetOwed(code, state) != [] && GetOwed(code, state)[|GetOwed(code, state)| - 1] == Or(code, 0x80)
    decreases state
  {
    GetCountsDown(code, state, None);
    if state > 1 {
      GetOwedLast(code, state - 1);
    }
  }

  /** A number above 0xFF further on stops the run, whatever comes before it. */
  lemma {:induction false} PutStopsAt(code: nat, state: nat, bs: seq<nat>, i: nat, j: nat)
    requires PutInv(code, state) && i <= j < |bs| && bs[j] > 0xFF
    ensures !PutFrom(code, state, bs, i).ok
    decreases j - i
  {
    var o := PutStep(code, state, bs[i]);
    if o.ok && i < j {
      PutKeeps(code, state, bs[i]);
      PutStopsAt(o.code, o.state, bs, i + 1, j);
    }
  }

  /** Every character from U+00C0 up comes out as bytes that `put_` refuses: its last byte is
      0xC0 or more, which is neither a continuation byte nor, above 0xFF, a byte at all. */
  lemma GetRefused(c: nat)
    requires 0xC0 <= c < 0x20_0000
    ensures !PutAll(0, 0, GetChar(c)).ok
  {
    var bs := GetChar(c);
    GetCharLast(c);
    OrAtLeast(c, 0x80);
    if c < 0x100 {
      GetChar2(c);
      assert c / 0x40 == 3;
      PutRejects(0, 0, 0xC3);
      PutLead2(0, 3);
      PutRejects(0xC0, 1, bs[1]);
      assert PutFrom(0, 0, bs, 0) == PutFrom(0xC0, 1, bs, 1);
    } else {
      PutStopsAt(0, 0, bs, 0, |bs| - 1);
    }
  }

  // ----- the codec state -----

  /** The closure state of `put_` and `get_`, with the host's side of it: the characters its
      `getChar` will return, and those handed to its `putChar`. */
  class Codec {
    var putCode: nat
    var putState: nat
    var getCode: nat
    var getState: nat
    /** The code points `getChar` returns, in order; once they are used up it returns the empty
        string. */
    var input: seq<nat>
    /** The code points passed to `putChar`, in order. */
    var output: seq<nat>

    ghost predicate Valid()
      reads this
    {
      PutInv(putCode, putState) && getState <= 3
    }

    constructor (input: seq<nat>)
      ensures Valid()
      ensures putCode == 0 && putState == 0 && getCode == 0 && getState == 0
      ensures this.input == input && output == []
    {
      putCode, putState, getCode, getState := 0, 0, 0, 0;
      this.input := input;
      output := [];
    }

    /** `put_(number)`. */
    method Put(number: nat) returns (ok: bool)
      requires Valid()
      modifies this
      ensures Valid()
      ensures var o := PutStep(old(putCode), old(putState), number);
        ok == o.ok && putCode == o.code && putState == o.state &&
        output == old(output) + (if o.emitted.Some? then [o.emitted.value] else [])
      ensures getCode == old(getCode) && getState == old(getState) && input == old(input)
    {
      PutKeeps(putCode, putState, number);
      if number > 0xFF {
        return false;
      }
      if putState == 0 {
        if Bits(number, 0x80, 2) == 0 {
          putCode := number;
        } else if Bits(number, 0x20, 8) == 6 {
          putCode := (number - 0xC0) * 0x40;
          if Bits(putCode, 0x80, 0x10) == 0 {
            return false;
          }
          putState := 1;
        } else if Bits(number, 0x10, 0x10) == 0xE {
          putCode := (number - 0xE0) * 0x1000;
          putState := 2;
        } else if Bits(number, 8, 0x20) == 0x1E {
          putCode := (number - 0xF0) * 0x4_0000;
          putState := 4;
        } else {
          return false;
        }
      } else if Bits(number, 0x40, 4) == 2 {
        if putState == 1 {
          putCode := Or(putCode, number - 0x80);
          putState := 0;
        } else if putState == 2 {
          putCode := Or(putCode, (number - 0x80) * 0x40);
          if Bits(putCode, 0x800, 0x20) == 0 {
            return false;
          }
          putState := 1;
        } else if putState == 3 {
          putCode := Or(putCode, (number - 0x80) * 0x40);
          putState := 1;
        } else {
          putCode := Or(putCode, (number - 0x80) * 0x1000);
          if Bits(putCode, 0x1_0000, 0x20) == 0 {
            return false;
          }
          putState := 3;
        }
      } else {
        return false;
      }
      if putState == 0 {
        output := output + [putCode];
      }
      return true;
    }

    /** `get_()`. */
    method Get() returns (r: Option<nat>)
      requires Valid()
      modifies this
      ensures Valid()
      ensures var next := if old(getState) == 0 && old(input) != [] then Some(old(input)[0]) else None;
        var o := GetStep(old(getCode), old(getState), next);
        r == o.value && getCode == o.code && getState == o.state
      ensures input == if old(getState) == 0 && old(input) != [] then old(input)[1..] else old(input)
      ensures putCode == old(putCode) && putState == old(putState) && output == old(output)
    {
      if getState == 0 {
        if input == [] {
          return None;
        }
        getCode := input[0];
        input := input[1..];
        if Bits(getCode, 0x1_0000, 0x20) != 0 {
          getState := 3;
          return Some(Or(getCode / 0x4_0000 % 8, 0xF0));
        } else if Bits(getCode, 0x800, 0x20) != 0 {
          getState := 2;
          return Some(Or(getCode / 0x1000 % 0x10, 0xE0));
        } else if Bits(getCode, 0x80, 0x10) != 0 {
          getState := 1;
          return Some(Or(getCode / 0x40 % 0x20, 0xC0));
        } else {
          return Some(getCode);
        }
      } else if getState == 1 {
        getState := 0;
        return Some(Or(getCode, 0x80));
      } else if getState == 2 {
        getState := 1;
        return Some(Or(getCode / 0x40, 0x80));
      } else {
        getState := 2;
        return Some(Or(getCode / 0x1000, 0x80));
      }
    }

    /** The codec part of `unload`: both machines back to idle. */
    method Reset()
      modifies this
      ensures Valid()
      ensures putCode == 0 && putState == 0 && getCode == 0 && getState == 0
      ensures input == old(input) && output == old(output)
    {
      putCode, putState, getCode, getState := 0, 0, 0, 0;
    }
  }
}
