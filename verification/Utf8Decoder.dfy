/**
  The streaming UTF-8 decoder: a table-driven automaton that reads one byte
  at a time, accumulates the code point in a `long`, and on acceptance
  hands the code point to a consumer as UTF-16 code units (one unit, or a
  surrogate pair); on rejection it hands over U+FFFD and starts afresh.

  Consumers are modelled by returning the code units they would receive, in
  order. The automaton states are -1 (reject), 0 (accept) and 1..7
  (inside a multi-byte sequence).

  The reference definitions next to the automaton follow section 4 of
  RFC 3629 (which byte sequences are well formed), section 3 of RFC 3629
  (how a scalar value is spread over those bytes) and section 2.1 of
  RFC 2781 (how a supplementary scalar value becomes a surrogate pair).
 */
module Utf8Decoder {
  import opened JavaArith

  const Accept: int := 0
  const Reject: int := -1
  /** U+FFFD REPLACEMENT CHARACTER. */
  const Replacement: int := 0xFFFD

  /** The unsigned value of one input byte, `input & 0xFF`. */
  type Byte = b: int | 0 <= b < 0x100

  /** The automaton's states: the table has rows 0..7, and -1 is REJECT. */
  type State = s: int | -1 <= s <= 7

  /** A Java `char`: one UTF-16 code unit. */
  type CodeUnit = u: int | 0 <= u < 0x1_0000

  // ---------------------------------------------------------------------
  // Facts about the bitwise operations of `JavaArith`.

  lemma HalfMod(x: nat, n: nat)
    requires n > 0
    ensures x % (2 * n) == 2 * ((x / 2) % n) + x % 2
  {
    var h := x / 2;
    var k, j := h / n, h % n;
    assert h == n * k + j;
    assert x == (2 * n) * k + (2 * j + x % 2);
    ModUnique(x, 2 * n, k, 2 * j + x % 2);
  }

  /** Masking with 2^k - 1 keeps the k low bits. */
  lemma {:induction false} AndLowMask(x: nat, m: nat)
    requires m == 0x01 || m == 0x03 || m == 0x07 || m == 0x0f || m == 0x1f || m == 0x3f || m == 0x7f
    ensures BitAnd(x, m) == x % (m + 1)
    decreases m
  {
    if x > 0 && m > 1 {
      var h := (m + 1) / 2;
      assert m / 2 + 1 == h && m % 2 == 1;
      AndLowMask(x / 2, m / 2);
      HalfMod(x, h);
      assert BitAnd(x, m) == 2 * BitAnd(x / 2, m / 2) + x % 2;
    }
  }

  /** OR-ing bits below 2^k into a multiple of 2^k adds them. */
  lemma {:induction false} OrIntoZeroBits(a: nat, b: nat, n: nat)
    requires n == 1 || n == 2 || n == 4 || n == 8 || n == 16 || n == 32 || n == 64
    requires b < n
    ensures BitOr(n * a, b) == n * a + b
    decreases n
  {
    if n > 1 && a > 0 && b > 0 {
      var h := n / 2;
      var y := h * a;
      assert n * a == 2 * y;
      assert y > 0;
      assert (2 * y) / 2 == y && (2 * y) % 2 == 0;
      OrIntoZeroBits(a, b / 2, h);
      assert BitOr(2 * y, b) == 2 * BitOr(y, b / 2) + b % 2;
    } else if n * a == 0 {
      assert BitOr(0, b) == b;
    }
  }

  /** The remainder is the unique `r` in `[0, m)` with `x == k * m + r`. */
  lemma ModUnique(x: int, m: int, k: int, r: int)
    requires m > 0 && 0 <= r < m && x == k * m + r
    ensures x % m == r
  {
    var k': int, r': int := x / m, x % m;
    assert x == k' * m + r';
    var d: int := k - k';
    assert d * m == k * m - k' * m;
    assert d * m == r' - r;
    if d > 0 {
      MulAtLeast(d, m);
    } else if d < 0 {
      MulAtLeast(-d, m);
    }
  }

  lemma MulAtLeast(d: int, m: int)
    requires d >= 1 && m > 0
    ensures d * m >= m
  {
    assert d * m == (d - 1) * m + m;
  }

  // ---------------------------------------------------------------------
  // The automaton.

  /** `input & 0xFF` for a byte read from a Java `byte[]`. */
  function Unsigned(b: JavaByte): (u: Byte)
    ensures (u - b) % 0x100 == 0
  {
    if b < 0 then b + 0x100 else b
  }

  /** The continuation rows 1..7 of the table accept one byte range each:
      the range and the state it leads to. */
  function ContinuationRow(s: State): (row: (Byte, Byte, State))
    requires 1 <= s <= 7
    ensures 0x80 <= row.0 <= row.1 <= 0xBF
  {
    match s
    case 1 => (0x80, 0xBF, 0)
    case 2 => (0x80, 0xBF, 1)
    case 3 => (0xA0, 0xBF, 1)
    case 4 => (0x80, 0x9F, 1)
    case 5 => (0x90, 0xBF, 2)
    case 6 => (0x80, 0xBF, 2)
    case 7 => (0x80, 0x8F, 2)
  }

  /** `table[state][b]`, row by row. */
  function Transition(s: State, b: Byte): (next: State)
    requires s != Reject
    ensures s != Accept ==> next == Reject || (0x80 <= b <= 0xBF && next < s)
  {
    if s == Accept then
      if b <= 0x7F then Accept
      else if b <= 0xC1 then Reject
      else if b <= 0xDF then 1
      else if b == 0xE0 then 3
      else if b <= 0xEC then 2
      else if b == 0xED then 4
      else if b <= 0xEF then 2
      else if b == 0xF0 then 5
      else if b <= 0xF3 then 6
      else if b == 0xF4 then 7
      else Reject
    else
      var (lo, hi, to) := ContinuationRow(s);
      if lo <= b <= hi then to else Reject
  }

  /** `masks[0]`, used inside a sequence, and `masks[1]`, used on a lead
      byte, both indexed by `next & 7`. */
  const Masks: seq<seq<nat>> := [
    [0x3f, 0x3f, 0x3f, 0x3f, 0x3f, 0x3f, 0x3f, 0x3f],
    [0x7f, 0x1f, 0x0f, 0x0f, 0x0f, 0x07, 0x07, 0x07]
  ]

  /** `s & 7` in two's complement: REJECT (-1) selects column 7. */
  function Low3(s: State): (i: nat)
    ensures i < 8
    ensures s >= 0 ==> i == s
  {
    if s < 0 then s + 8 else s
  }

  /** `(codep << 6) | bits` on a `long`: the shift drops bits beyond the
      64th, the OR acts on the two's-complement bit pattern. */
  function ShiftIn(codep: Int64, bits: nat): Int64 {
    var shifted := (codep % 0x1_0000_0000_0000_0000) * 64 % 0x1_0000_0000_0000_0000;
    WrapLong(BitOr(shifted, bits))
  }

  /** Decoder fields. `prevState` is written by the consuming `decode`. */
  datatype Decoder = Decoder(state: State, codep: Int64, prevState: State)

  /** A newly constructed decoder. */
  const Fresh: Decoder := Decoder(Accept, 0, Accept)

  /** `decode(int)`: one table step, accumulating the payload bits of the
      byte into `codep`; the new state is also the return value. A decoder
      in REJECT would index row -1 of the table, which Java rejects. */
  function DecodeRaw(d: Decoder, b: Byte): (r: Decoder)
    requires d.state != Reject
    ensures r.state == Transition(d.state, b)
    ensures r.prevState == d.prevState
    ensures d.state == Accept && d.codep == 0 && r.state != Reject ==> r.codep == b % LeadModulus(r.state)
    ensures d.state != Accept && 0 <= d.codep < 0x1_0000_0000 ==> r.codep == d.codep * 64 + b % 64
  {
    var next := Transition(d.state, b);
    var ptr := if d.state == Accept then 1 else 0;
    var mask := Masks[ptr][Low3(next)];
    var r := Decoder(next, ShiftIn(d.codep, BitAnd(b, mask)), d.prevState);
    ShiftInFacts(d, b, next, mask);
    r
  }

  lemma ShiftInFacts(d: Decoder, b: Byte, next: State, mask: nat)
    requires d.state != Reject
    requires next == Transition(d.state, b)
    requires mask == Masks[if d.state == Accept then 1 else 0][Low3(next)]
    ensures d.state == Accept && d.codep == 0 && next != Reject ==> ShiftIn(d.codep, BitAnd(b, mask)) == b % LeadModulus(next)
    ensures d.state != Accept && 0 <= d.codep < 0x1_0000_0000 ==> ShiftIn(d.codep, BitAnd(b, mask)) == d.codep * 64 + b % 64
  {
    AndLowMask(b, mask);
    if d.state == Accept && d.codep == 0 && next != Reject {
      ShiftInSmall(0, BitAnd(b, mask));
    }
    if d.state != Accept && 0 <= d.codep < 0x1_0000_0000 {
      assert mask == 0x3f;
      ShiftInSmall(d.codep, b % 64);
    }
  }

  /** On a small non-negative `codep` the shift and OR are plain
      arithmetic; on zero, OR-ing any byte-sized value just yields it. */
  lemma ShiftInSmall(codep: Int64, bits: nat)
    requires 0 <= codep < 0x1_0000_0000
    requires bits < 64 || (codep == 0 && bits < 0x100)
    ensures ShiftIn(codep, bits) == codep * 64 + bits
  {
    assert codep % 0x1_0000_0000_0000_0000 == codep;
    assert codep * 64 < 0x1_0000_0000_0000_0000;
    var shifted := codep * 64 % 0x1_0000_0000_0000_0000;
    assert shifted == codep * 64;
    if codep == 0 {
      assert shifted == 0;
      assert BitOr(shifted, bits) == bits;
    } else {
      OrIntoZeroBits(codep, bits, 64);
      assert BitOr(shifted, bits) == codep * 64 + bits;
    }
  }

  /** One more than the lead-byte mask for the state a lead byte leads to:
      7 payload bits of a one-byte sequence, 5 of a two-byte lead, 4 of a
      three-byte lead, 3 of a four-byte lead. */
  function LeadModulus(s: State): nat
    requires s != Reject
  {
    if s == Accept then 0x80
    else if s == 1 then 0x20
    else if s <= 4 then 0x10
    else 0x08
  }

  /** A Java `(char)` cast of a `long`: the low 16 bits. */
  function ToChar(x: int): CodeUnit {
    x % 0x1_0000
  }

  /** What the consuming `decode` emits for an accepted code point: the
      code point itself when it fits in one unit, else a high unit
      `0xD7C0 + ((codep >> 10) & 0xFFFF)` and a low unit
      `0xDC00 + (codep & 0x3FF)`. Arithmetic shift right is floor
      division, and masking with 2^k - 1 is the Euclidean remainder. */
  function EmitCodePoint(codep: Int64): seq<CodeUnit> {
    if codep <= 0xFFFF then [ToChar(codep)]
    else [ToChar(0xD7C0 + (codep / 0x400) % 0x1_0000), ToChar(0xDC00 + codep % 0x400)]
  }

  /** `decode(int, Consumer)`: one step, then either emit the accepted code
      point and clear `codep`, or emit U+FFFD and reset, or (inside a
      sequence) emit nothing. On rejection the byte that caused it is not
      decoded again, whatever `prevState` holds. */
  function DecodeStep(d: Decoder, b: Byte): (r: (Decoder, seq<CodeUnit>))
    requires d.state != Reject
    ensures r.0.state != Reject
    ensures r.0.prevState == r.0.state
    ensures Transition(d.state, b) == Reject ==> r == (Fresh, [Replacement])
    ensures Transition(d.state, b) == Accept ==> r == (Fresh, EmitCodePoint(DecodeRaw(d, b).codep))
    ensures Transition(d.state, b) !in {Accept, Reject} ==>
              r == (Decoder(Transition(d.state, b), DecodeRaw(d, b).codep, Transition(d.state, b)), [])
  {
    var raw := DecodeRaw(d, b);
    if raw.state == Accept then
      (raw.(codep := 0, prevState := Accept), EmitCodePoint(raw.codep))
    else if raw.state == Reject then
      var reset := raw.(state := Accept, codep := 0);
      if reset.prevState != Accept then
        (reset.(prevState := Accept), [Replacement])
      else
        (reset.(prevState := reset.state), [Replacement])
    else
      (raw.(prevState := raw.state), [])
  }

  /** `DecodeStep` made total: the decoder never rests in REJECT (see
      `StepKeepsValid`), and there this extension does nothing. */
  function Step(d: Decoder, b: Byte): (r: (Decoder, seq<CodeUnit>))
    ensures d.state != Reject ==> r == DecodeStep(d, b)
  {
    if d.state == Reject then (d, []) else DecodeStep(d, b)
  }

  /** Runs a byte-at-a-time step over a sequence, threading the decoder and
      concatenating what each byte emits. */
  function Feed(step: (Decoder, Byte) -> (Decoder, seq<CodeUnit>), d: Decoder, bs: seq<Byte>): (r: (Decoder, seq<CodeUnit>))
    decreases |bs|
  {
    if |bs| == 0 then (d, [])
    else
      var first := step(d, bs[0]);
      var rest := Feed(step, first.0, bs[1..]);
      (rest.0, first.1 + rest.1)
  }

  /** Feeding `a` and then `b` is feeding `a + b`. */
  lemma {:induction false} FeedAppend(step: (Decoder, Byte) -> (Decoder, seq<CodeUnit>), d: Decoder, a: seq<Byte>, b: seq<Byte>)
    ensures Feed(step, d, a + b).0 == Feed(step, Feed(step, d, a).0, b).0
    ensures Feed(step, d, a + b).1 == Feed(step, d, a).1 + Feed(step, Feed(step, d, a).0, b).1
    decreases |a|
  {
    if |a| == 0 {
      assert a + b == b;
    } else {
      var first := step(d, a[0]);
      assert (a + b)[0] == a[0];
      assert (a + b)[1..] == a[1..] + b;
      FeedAppend(step, first.0, a[1..], b);
      var left := Feed(step, first.0, a[1..]);
      var right := Feed(step, left.0, b);
      assert first.1 + (left.1 + right.1) == (first.1 + left.1) + right.1;
    }
  }

  /** Feeding one more byte is one more step after the prefix. */
  lemma FeedSnoc(step: (Decoder, Byte) -> (Decoder, seq<CodeUnit>), d: Decoder, bs: seq<Byte>, x: Byte)
    ensures Feed(step, d, bs + [x]).0 == step(Feed(step, d, bs).0, x).0
    ensures Feed(step, d, bs + [x]).1 == Feed(step, d, bs).1 + step(Feed(step, d, bs).0, x).1
  {
    FeedAppend(step, d, bs, [x]);
    var p := Feed(step, d, bs).0;
    assert Feed(step, p, [x]) == (step(p, x).0, step(p, x).1 + []) by {
      assert [x][1..] == [];
    }
    assert step(p, x).1 + [] == step(p, x).1;
  }

  /** `decodeWithRecovery` as a function: every byte through the consuming
      `decode`, the emitted units concatenated. */
  function DecodeBytes(d: Decoder, bs: seq<Byte>): (r: (Decoder, seq<CodeUnit>))
    requires d.state != Reject
    ensures r.0.state != Reject
  {
    FeedStaysLive(d, bs);
    Feed(Step, d, bs)
  }

  lemma {:induction false} FeedStaysLive(d: Decoder, bs: seq<Byte>)
    requires d.state != Reject
    ensures Feed(Step, d, bs).0.state != Reject
    decreases |bs|
  {
    if |bs| > 0 {
      FeedStaysLive(Step(d, bs[0]).0, bs[1..]);
    }
  }

  /** `decodeWithRecovery(byte[], Consumer)`: the loop over a Java byte
      array, each signed byte widened and masked. */
  method DecodeWithRecovery(d: Decoder, input: seq<JavaByte>) returns (d': Decoder, output: seq<CodeUnit>)
    requires d.state != Reject
    ensures d'.state != Reject
    ensures (d', output) == DecodeBytes(d, UnsignedAll(input))
  {
    d', output := d, [];
    var i := 0;
    while i < |input|
      invariant 0 <= i <= |input|
      invariant d'.state != Reject
      invariant (d', output) == DecodeBytes(d, UnsignedAll(input[..i]))
    {
      var b := Unsigned(input[i]);
      var next, out := DecodeStep(d', b).0, DecodeStep(d', b).1;
      assert UnsignedAll(input[..i + 1]) == UnsignedAll(input[..i]) + [b] by {
        assert input[..i + 1] == input[..i] + [input[i]];
        UnsignedAllAppend(input[..i], [input[i]]);
      }
      FeedSnoc(Step, d, UnsignedAll(input[..i]), b);
      d', output := next, output + out;
      i := i + 1;
    }
    assert input[..i] == input;
  }

  function UnsignedAll(bs: seq<JavaByte>): (us: seq<Byte>)
    ensures |us| == |bs|
    ensures forall i :: 0 <= i < |bs| ==> us[i] == Unsigned(bs[i])
  {
    seq(|bs|, i requires 0 <= i < |bs| => Unsigned(bs[i]))
  }

  lemma UnsignedAllAppend(a: seq<JavaByte>, b: seq<JavaByte>)
    ensures UnsignedAll(a + b) == UnsignedAll(a) + UnsignedAll(b)
  {
  }

  /** Streaming: one decoder fed `a` and then `b` ends where, and has
      emitted what, a decoder fed `a + b` at once does. */
  lemma DecodeBytesAppend(d: Decoder, a: seq<Byte>, b: seq<Byte>)
    requires d.state != Reject
    ensures DecodeBytes(d, a + b).0 == DecodeBytes(DecodeBytes(d, a).0, b).0
    ensures DecodeBytes(d, a + b).1 == DecodeBytes(d, a).1 + DecodeBytes(DecodeBytes(d, a).0, b).1
  {
    FeedAppend(Step, d, a, b);
  }

  /** Decoding one more byte is one more consuming `decode` after the
      prefix. */
  lemma DecodeBytesSnoc(d: Decoder, bs: seq<Byte>, x: Byte)
    requires d.state != Reject
    ensures DecodeBytes(d, bs + [x]).0 == DecodeStep(DecodeBytes(d, bs).0, x).0
    ensures DecodeBytes(d, bs + [x]).1 == DecodeBytes(d, bs).1 + DecodeStep(DecodeBytes(d, bs).0, x).1
  {
    FeedSnoc(Step, d, bs, x);
  }

  /** A byte that continues a sequence: the payload moves into `codep`
      and nothing is emitted. */
  lemma SnocPending(d: Decoder, bs: seq<Byte>, x: Byte, m: Decoder, out: seq<CodeUnit>)
    requires d.state != Reject && DecodeBytes(d, bs) == (m, out)
    requires m.state != Accept && 0 <= m.codep < 0x1_0000_0000
    requires Transition(m.state, x) != Accept && Transition(m.state, x) != Reject
    ensures DecodeBytes(d, bs + [x]) == (Decoder(Transition(m.state, x), m.codep * 64 + x % 64, Transition(m.state, x)), out)
  {
    DecodeBytesSnoc(d, bs, x);
    assert out + [] == out;
  }

  /** A byte that completes a sequence: the accumulated code point is
      emitted and the decoder starts afresh. */
  lemma SnocComplete(d: Decoder, bs: seq<Byte>, x: Byte, m: Decoder, out: seq<CodeUnit>)
    requires d.state != Reject && DecodeBytes(d, bs) == (m, out)
    requires m.state != Accept && 0 <= m.codep < 0x1_0000_0000
    requires Transition(m.state, x) == Accept
    ensures DecodeBytes(d, bs + [x]) == (Fresh, out + EmitCodePoint(m.codep * 64 + x % 64))
  {
    DecodeBytesSnoc(d, bs, x);
  }

  /** A lead byte on a fresh decoder: a one-byte sequence is emitted at
      once, a longer one is started with the lead's payload bits. */
  lemma SnocLead(d: Decoder, bs: seq<Byte>, x: Byte, out: seq<CodeUnit>)
    requires d.state != Reject && DecodeBytes(d, bs) == (Fresh, out)
    requires Transition(Accept, x) != Reject
    ensures Transition(Accept, x) == Accept ==> DecodeBytes(d, bs + [x]) == (Fresh, out + EmitCodePoint(x))
    ensures Transition(Accept, x) != Accept ==>
              DecodeBytes(d, bs + [x]) == (Decoder(Transition(Accept, x), x % LeadModulus(Transition(Accept, x)), Transition(Accept, x)), out)
  {
    DecodeBytesSnoc(d, bs, x);
    var next := Transition(Accept, x);
    if next == Accept {
      var y: int := x;
      assert y < 0x80;
      ModUnique(y, 0x80, 0, y);
      assert DecodeRaw(Fresh, x).codep == y;
    } else {
      assert out + [] == out;
    }
  }

  // ---------------------------------------------------------------------
  // The decoder's own invariant.

  /** What holds of the decoder between calls of the consuming `decode`:
      never REJECT, `prevState` mirrors the state, and `codep` holds no
      more payload bits than the bytes read so far of the current sequence
      carry (none at a character boundary). */
  ghost predicate Valid(d: Decoder) {
    && d.state != Reject
    && d.prevState == d.state
    && 0 <= d.codep < CodepBound(d.state)
  }

  /** 2^(payload bits read so far) for a state: 0 bits at a boundary, 3 after
      a four-byte lead, 9 after two bytes of it, 15 after three. */
  function CodepBound(s: State): nat {
    if s == 1 then 0x8000
    else if 2 <= s <= 4 then 0x200
    else if s >= 5 then 8
    else 1
  }

  lemma StepKeepsValid(d: Decoder, b: Byte)
    requires Valid(d)
    ensures Valid(DecodeStep(d, b).0)
  {
    var next := Transition(d.state, b);
    if next != Accept && next != Reject {
      var raw := DecodeRaw(d, b);
      if d.state == Accept {
        AndLowMask(b, Masks[1][Low3(next)]);
        ShiftInSmall(0, BitAnd(b, Masks[1][Low3(next)]));
      } else {
        assert raw.codep == d.codep * 64 + b % 64;
      }
    }
  }

  lemma FreshIsValid()
    ensures Valid(Fresh)
  {
  }

  /** The invariant holds after any input: `decodeWithRecovery` never
      leaves the decoder in REJECT or with stray bits in `codep`. */
  lemma {:induction false} DecodeBytesKeepsValid(d: Decoder, bs: seq<Byte>)
    requires Valid(d)
    ensures Valid(DecodeBytes(d, bs).0)
    decreases |bs|
  {
    if |bs| > 0 {
      StepKeepsValid(d, bs[0]);
      var next := DecodeStep(d, bs[0]).0;
      DecodeBytesKeepsValid(next, bs[1..]);
      assert bs == [bs[0]] + bs[1..];
      DecodeBytesAppend(d, [bs[0]], bs[1..]);
      assert DecodeBytes(d, [bs[0]]).0 == next by {
        DecodeBytesSnoc(d, [], bs[0]);
        assert [] + [bs[0]] == [bs[0]];
      }
    }
  }

  /** An ASCII byte at a character boundary is emitted as itself. */
  lemma AsciiEmitsItself(d: Decoder, b: Byte)
    requires Valid(d) && d.state == Accept && b <= 0x7F
    ensures DecodeStep(d, b) == (Fresh, [b])
  {
    assert d.codep == 0;
    assert Transition(Accept, b) == Accept;
    var x: int := b;
    ModUnique(x, 0x80, 0, x);
    assert DecodeRaw(d, b).codep == x;
    ModUnique(x, 0x1_0000, 0, x);
    assert EmitCodePoint(x) == [ToChar(x)] == [b];
  }

  lemma DecodeNothing(d: Decoder)
    requires d.state != Reject
    ensures DecodeBytes(d, []) == (d, [])
  {
  }

  /** A byte that breaks off a sequence yields one U+FFFD and is itself
      dropped: C3 opens a two-byte sequence, 41 is not a tail, and the
      'A' it stands for never comes out. */
  lemma BrokenSequenceDropsByte()
    ensures DecodeBytes(Fresh, [0xC3, 0x41]) == (Fresh, [Replacement])
  {
    DecodeNothing(Fresh);
    assert Transition(Accept, 0xC3) == 1;
    SnocLead(Fresh, [], 0xC3, []);
    assert [] + [0xC3] == [0xC3];
    var m := DecodeBytes(Fresh, [0xC3]).0;
    assert m.state == 1;
    assert Transition(m.state, 0x41) == Reject;
    assert DecodeBytes(Fresh, [0xC3]).1 == [];
    var last := DecodeStep(m, 0x41);
    assert last == (Fresh, [Replacement]);
    DecodeBytesSnoc(Fresh, [0xC3], 0x41);
    assert [0xC3] + [0x41] == [0xC3, 0x41];
    var r := DecodeBytes(Fresh, [0xC3, 0x41]);
    assert r.0 == Fresh;
    assert r.1 == [] + [Replacement] == [Replacement];
  }
}
