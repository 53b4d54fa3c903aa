/**
  Reference definitions for the decoder, written from the standards rather
  than from the table: the well-formed byte sequences of section 4 of
  RFC 3629, the scalar value a sequence carries (section 3 of RFC 3629),
  and the UTF-16 form of a scalar value (section 2.1 of RFC 2781). The
  lemmas tie the automaton and the consuming decoder to them.
 */
module Utf8Spec {
  import opened Utf8Decoder

  // ---------------------------------------------------------------------
  // Section 4 of RFC 3629: the UTF8-char and UTF8-octets rules.

  /** UTF8-tail = %x80-BF */
  predicate IsTail(b: Byte) {
    0x80 <= b <= 0xBF
  }

  /** UTF8-char = UTF8-1 / UTF8-2 / UTF8-3 / UTF8-4, each alternative of
      the grammar written out. */
  predicate Utf8Char(c: seq<Byte>) {
    || (|c| == 1 && c[0] <= 0x7F)
    || (|c| == 2 && 0xC2 <= c[0] <= 0xDF && IsTail(c[1]))
    || (|c| == 3 && IsTail(c[2]) &&
        (|| (c[0] == 0xE0 && 0xA0 <= c[1] <= 0xBF)
         || (0xE1 <= c[0] <= 0xEC && IsTail(c[1]))
         || (c[0] == 0xED && 0x80 <= c[1] <= 0x9F)
         || (0xEE <= c[0] <= 0xEF && IsTail(c[1]))))
    || (|c| == 4 && IsTail(c[2]) && IsTail(c[3]) &&
        (|| (c[0] == 0xF0 && 0x90 <= c[1] <= 0xBF)
         || (0xF1 <= c[0] <= 0xF3 && IsTail(c[1]))
         || (c[0] == 0xF4 && 0x80 <= c[1] <= 0x8F)))
  }

  /** The length of the character a lead byte opens; 0 for a byte that
      opens none (a tail, C0, C1, F5..FF). */
  function CharLen(lead: Byte): (n: nat)
    ensures n <= 4
  {
    if lead <= 0x7F then 1
    else if lead < 0xC2 then 0
    else if lead <= 0xDF then 2
    else if lead <= 0xEF then 3
    else if lead <= 0xF4 then 4
    else 0
  }

  /** The lead byte alone fixes the length of a character, so UTF-8 is
      parsed greedily. */
  lemma CharLenOfChar(c: seq<Byte>)
    requires Utf8Char(c)
    ensures |c| == CharLen(c[0])
  {
  }

  /** UTF8-octets = *( UTF8-char ): the input splits into characters, each
      as long as its lead byte says. */
  predicate WellFormed(bs: seq<Byte>)
    decreases |bs|
  {
    |bs| == 0 ||
    (var n := CharLen(bs[0]);
     0 < n <= |bs| && Utf8Char(bs[..n]) && WellFormed(bs[n..]))
  }

  // ---------------------------------------------------------------------
  // The bare automaton.

  /** `table` iterated from state `s`: once REJECT is reached it stays. */
  function Run(s: State, bs: seq<Byte>): State
    decreases |bs|
  {
    if |bs| == 0 then s
    else if s == Reject then Reject
    else Run(Transition(s, bs[0]), bs[1..])
  }

  lemma {:induction false} RunAppend(s: State, a: seq<Byte>, b: seq<Byte>)
    ensures Run(s, a + b) == Run(Run(s, a), b)
    decreases |a|
  {
    if |a| == 0 {
      assert a + b == b;
    } else if s == Reject {
      RunRejectStays(b);
      RunRejectStays(a + b);
    } else {
      assert (a + b)[1..] == a[1..] + b;
      RunAppend(Transition(s, a[0]), a[1..], b);
    }
  }

  lemma RunRejectStays(bs: seq<Byte>)
    ensures Run(Reject, bs) == Reject
  {
  }

  lemma TakeSnoc(c: seq<Byte>, k: nat)
    requires 1 <= k <= |c|
    ensures c[..k] == c[..k - 1] + [c[k - 1]]
  {
  }

  /** One table step, as `Run` over a single byte. */
  lemma RunOne(s: State, b: Byte)
    ensures Run(s, [b]) == (if s == Reject then Reject else Transition(s, b))
  {
    assert [b][1..] == [];
  }

  /** Where the automaton is after the bytes `c0 .. c(k-1)`, written out. */
  function After(c: seq<Byte>, k: nat): State
    requires k <= |c|
    decreases k
  {
    if k == 0 then Accept
    else
      var s := After(c, k - 1);
      if s == Reject then Reject else Transition(s, c[k - 1])
  }

  lemma {:induction false} RunIsAfter(c: seq<Byte>, k: nat)
    requires k <= |c|
    ensures Run(Accept, c[..k]) == After(c, k)
    decreases k
  {
    if k > 0 {
      RunIsAfter(c, k - 1);
      TakeSnoc(c, k);
      RunAppend(Accept, c[..k - 1], [c[k - 1]]);
      RunOne(After(c, k - 1), c[k - 1]);
    }
  }

  /** A byte that opens no character is rejected at once. */
  lemma BadLeadRejects(b: Byte)
    requires CharLen(b) == 0
    ensures Transition(Accept, b) == Reject
  {
  }

  /** A window exactly as long as its lead byte says ends in ACCEPT when it
      is a character and in REJECT when it is not. */
  lemma WindowRun(c: seq<Byte>)
    requires 1 <= |c| && |c| == CharLen(c[0])
    ensures Run(Accept, c) == (if Utf8Char(c) then Accept else Reject)
  {
    RunIsAfter(c, |c|);
    assert c[..|c|] == c;
    if |c| == 2 {
      Window2(c);
    } else if |c| == 3 {
      Window3(c);
    } else if |c| == 4 {
      Window4(c);
    }
  }

  lemma Window2(c: seq<Byte>)
    requires |c| == 2 && CharLen(c[0]) == 2
    ensures After(c, 2) == (if Utf8Char(c) then Accept else Reject)
  {
    assert After(c, 1) == 1;
  }

  lemma Window3(c: seq<Byte>)
    requires |c| == 3 && CharLen(c[0]) == 3
    ensures After(c, 3) == (if Utf8Char(c) then Accept else Reject)
  {
    var s1 := After(c, 1);
    assert 2 <= s1 <= 4;
    var s2 := After(c, 2);
    assert s2 == Transition(s1, c[1]);
    assert s2 == 1 || s2 == Reject;
  }

  lemma Window4(c: seq<Byte>)
    requires |c| == 4 && CharLen(c[0]) == 4
    ensures After(c, 4) == (if Utf8Char(c) then Accept else Reject)
  {
    var s1 := After(c, 1);
    assert 5 <= s1 <= 7;
    var s2 := After(c, 2);
    assert s2 == Transition(s1, c[1]);
    assert s2 == 2 || s2 == Reject;
    var s3 := After(c, 3);
    assert s3 == (if s2 == Reject then Reject else Transition(2, c[2]));
  }

  /** A window shorter than its lead byte says never ends in ACCEPT. */
  lemma ShortWindow(c: seq<Byte>)
    requires 1 <= |c| < CharLen(c[0])
    ensures Run(Accept, c) != Accept
  {
    RunIsAfter(c, |c|);
    assert c[..|c|] == c;
  }

  /** The table accepts exactly the well-formed inputs: from ACCEPT, a byte
      sequence ends in ACCEPT, never having passed through REJECT, if and
      only if it is a concatenation of UTF-8 characters. */
  lemma {:induction false} AcceptsExactlyWellFormed(bs: seq<Byte>)
    ensures Run(Accept, bs) == Accept <==> WellFormed(bs)
    decreases |bs|
  {
    if |bs| > 0 {
      var n := CharLen(bs[0]);
      if n == 0 {
        BadLeadRejects(bs[0]);
        RunRejectStays(bs[1..]);
      } else if n > |bs| {
        ShortWindow(bs);
      } else {
        var c, rest := bs[..n], bs[n..];
        assert bs == c + rest;
        RunAppend(Accept, c, rest);
        WindowRun(c);
        if Utf8Char(c) {
          AcceptsExactlyWellFormed(rest);
        } else {
          RunRejectStays(rest);
        }
      }
    }
  }

  // ---------------------------------------------------------------------
  // Section 3 of RFC 3629: scalar values and their encoding.

  /** A Unicode scalar value: a code point that is not a surrogate. */
  predicate IsScalar(cp: int) {
    0 <= cp <= 0x10FFFF && !(0xD800 <= cp <= 0xDFFF)
  }

  /** The value a character carries: the payload bits of the lead byte
      (below its length marker) followed by the six low bits of each tail. */
  function ScalarOf(c: seq<Byte>): (cp: int)
    requires Utf8Char(c)
  {
    var b0: int := c[0];
    if |c| == 1 then b0
    else
      var t1: int := c[1] - 0x80;
      if |c| == 2 then (b0 - 0xC0) * 0x40 + t1
      else
        var t2: int := c[2] - 0x80;
        if |c| == 3 then ((b0 - 0xE0) * 0x40 + t1) * 0x40 + t2
        else
          var t3: int := c[3] - 0x80;
          (((b0 - 0xF0) * 0x40 + t1) * 0x40 + t2) * 0x40 + t3
  }

  /** The encoding of a scalar value: the shortest form, the bits spread
      from the right over the tails and the lead. */
  function EncodeChar(cp: int): (c: seq<Byte>)
    requires IsScalar(cp)
    ensures 1 <= |c| <= 4
  {
    if cp < 0x80 then [cp]
    else if cp < 0x800 then [0xC0 + cp / 0x40, 0x80 + cp % 0x40]
    else if cp < 0x10000 then [0xE0 + cp / 0x1000, 0x80 + cp / 0x40 % 0x40, 0x80 + cp % 0x40]
    else [0xF0 + cp / 0x40000, 0x80 + cp / 0x1000 % 0x40, 0x80 + cp / 0x40 % 0x40, 0x80 + cp % 0x40]
  }

  /** Every scalar value encodes to a character that carries it back. */
  lemma EncodeThenScalar(cp: int)
    requires IsScalar(cp)
    ensures Utf8Char(EncodeChar(cp))
    ensures ScalarOf(EncodeChar(cp)) == cp
  {
    var c := EncodeChar(cp);
    if cp < 0x80 {
    } else if cp < 0x800 {
      assert cp == cp / 0x40 * 0x40 + cp % 0x40;
    } else if cp < 0x10000 {
      var q := cp / 0x40;
      assert cp == q * 0x40 + cp % 0x40;
      assert q == q / 0x40 * 0x40 + q % 0x40;
      assert cp / 0x1000 == q / 0x40;
    } else {
      var q := cp / 0x40;
      var q2 := q / 0x40;
      assert cp == q * 0x40 + cp % 0x40;
      assert q == q2 * 0x40 + q % 0x40;
      assert q2 == q2 / 0x40 * 0x40 + q2 % 0x40;
      assert cp / 0x1000 == q2;
      assert cp / 0x40000 == q2 / 0x40;
    }
  }

  /** Every character carries a scalar value whose encoding is that
      character: the two functions are inverse bijections. */
  lemma ScalarThenEncode(c: seq<Byte>)
    requires Utf8Char(c)
    ensures IsScalar(ScalarOf(c))
    ensures EncodeChar(ScalarOf(c)) == c
  {
    if |c| == 2 {
      ScalarThenEncode2(c);
    } else if |c| == 3 {
      ScalarThenEncode3(c);
    } else if |c| == 4 {
      ScalarThenEncode4(c);
    }
  }

  lemma ScalarThenEncode2(c: seq<Byte>)
    requires Utf8Char(c) && |c| == 2
    ensures IsScalar(ScalarOf(c))
    ensures EncodeChar(ScalarOf(c)) == c
  {
    var b0: int, t1: int := c[0], c[1] - 0x80;
    SixBits(b0 - 0xC0, t1);
  }

  lemma ScalarThenEncode3(c: seq<Byte>)
    requires Utf8Char(c) && |c| == 3
    ensures IsScalar(ScalarOf(c))
    ensures EncodeChar(ScalarOf(c)) == c
  {
    var b0: int, t1: int, t2: int := c[0], c[1] - 0x80, c[2] - 0x80;
    var hi: int := (b0 - 0xE0) * 0x40 + t1;
    var cp := ScalarOf(c);
    assert cp == hi * 0x40 + t2;
    SixBits(hi, t2);
    SixBits(b0 - 0xE0, t1);
    assert cp / 0x1000 == b0 - 0xE0;
  }

  lemma ScalarThenEncode4(c: seq<Byte>)
    requires Utf8Char(c) && |c| == 4
    ensures IsScalar(ScalarOf(c))
    ensures EncodeChar(ScalarOf(c)) == c
  {
    var b0: int, t1: int, t2: int, t3: int := c[0], c[1] - 0x80, c[2] - 0x80, c[3] - 0x80;
    var hi: int := (b0 - 0xF0) * 0x40 + t1;
    var mid: int := hi * 0x40 + t2;
    var cp := ScalarOf(c);
    assert cp == mid * 0x40 + t3;
    SixBits(mid, t3);
    SixBits(hi, t2);
    SixBits(b0 - 0xF0, t1);
    assert cp / 0x1000 == hi;
    assert cp / 0x40000 == b0 - 0xF0;
  }

  /** Appending six bits below `q` and reading them back. */
  lemma SixBits(q: int, r: int)
    requires 0 <= r < 0x40
    ensures (q * 0x40 + r) / 0x40 == q
    ensures (q * 0x40 + r) % 0x40 == r
  {
  }

  // ---------------------------------------------------------------------
  // Section 2.1 of RFC 2781: UTF-16.

  predicate IsHighSurrogate(u: int) {
    0xD800 <= u <= 0xDBFF
  }

  predicate IsLowSurrogate(u: int) {
    0xDC00 <= u <= 0xDFFF
  }

  /** A scalar value below 0x10000 is one code unit; any other is
      `0x10000` plus twenty bits, the high ten after 0xD800 and the low ten
      after 0xDC00. */
  function Utf16(cp: int): (u: seq<CodeUnit>)
    requires IsScalar(cp)
  {
    if cp < 0x1_0000 then [cp]
    else
      var v := cp - 0x1_0000;
      [0xD800 + v / 0x400, 0xDC00 + v % 0x400]
  }

  /** Section 2.2 of RFC 2781: one unit stands for itself, a surrogate
      pair for the twenty bits it carries plus 0x10000. */
  function FromUtf16(u: seq<CodeUnit>): int
    requires |u| == 1 || |u| == 2
  {
    var hi: int := u[0];
    if |u| == 1 then hi
    else
      var lo: int := u[1];
      0x1_0000 + (hi - 0xD800) * 0x400 + (lo - 0xDC00)
  }

  /** A scalar value becomes one non-surrogate unit or a high-low
      surrogate pair, and reading those units back yields the value. */
  lemma Utf16RoundTrip(cp: int)
    requires IsScalar(cp)
    ensures cp < 0x1_0000 ==> Utf16(cp) == [cp] && !IsHighSurrogate(cp) && !IsLowSurrogate(cp)
    ensures cp >= 0x1_0000 ==> |Utf16(cp)| == 2 && IsHighSurrogate(Utf16(cp)[0]) && IsLowSurrogate(Utf16(cp)[1])
    ensures FromUtf16(Utf16(cp)) == cp
  {
  }

  /** What the consuming `decode` emits for an accepted scalar value is its
      UTF-16 form: `0xD7C0 + (cp >> 10)` is `0xD800` plus the high ten bits
      of `cp - 0x10000`, and `0xDC00 + (cp & 0x3FF)` the low unit. */
  lemma EmitIsUtf16(cp: int)
    requires IsScalar(cp)
    ensures EmitCodePoint(cp) == Utf16(cp)
  {
    if cp >= 0x1_0000 {
      var v := cp - 0x1_0000;
      assert cp / 0x400 == v / 0x400 + 0x40;
      assert cp % 0x400 == v % 0x400;
    }
  }

  // ---------------------------------------------------------------------
  // The decoder on one character.

  /** 2^(payload bits of the lead byte) for a character of `n` bytes. */
  function LeadBits(n: nat): nat {
    if n == 1 then 0x80 else if n == 2 then 0x20 else if n == 3 then 0x10 else 0x08
  }

  /** The payload bits of the first `k` bytes of a character, as a number. */
  function Partial(c: seq<Byte>, k: nat): (v: nat)
    requires 1 <= k <= |c|
    decreases k
  {
    if k == 1 then c[0] % LeadBits(|c|)
    else Partial(c, k - 1) * 0x40 + c[k - 1] % 0x40
  }

  lemma {:induction false} PartialBound(c: seq<Byte>, k: nat)
    requires 1 <= k <= |c| && k <= 3
    ensures Partial(c, k) < 0x8_0000
    decreases k
  {
    if k > 1 {
      PartialBound(c, k - 1);
    }
  }

  /** All payload bits of a character are its scalar value. */
  lemma PartialIsScalar(c: seq<Byte>)
    requires Utf8Char(c)
    ensures Partial(c, |c|) == ScalarOf(c)
  {
    if |c| >= 2 {
      assert Partial(c, 1) == c[0] - (if |c| == 2 then 0xC0 else if |c| == 3 then 0xE0 else 0xF0);
      assert Partial(c, 2) == Partial(c, 1) * 0x40 + (c[1] - 0x80);
    }
    if |c| >= 3 {
      assert Partial(c, 3) == Partial(c, 2) * 0x40 + (c[2] - 0x80);
    }
  }

  /** A lead byte selects the mask for the length it announces. */
  lemma LeadMask(c: seq<Byte>)
    requires Utf8Char(c)
    ensures Transition(Accept, c[0]) != Reject
    ensures LeadModulus(Transition(Accept, c[0])) == LeadBits(|c|)
  {
  }

  lemma {:induction false} RejectStaysAfter(c: seq<Byte>, k: nat, j: nat)
    requires k <= j <= |c|
    ensures After(c, k) == Reject ==> After(c, j) == Reject
    decreases j
  {
    if j > k {
      RejectStaysAfter(c, k, j - 1);
    }
  }

  /** Inside a character the automaton is pending; it accepts at the end. */
  lemma CharStates(c: seq<Byte>, k: nat)
    requires Utf8Char(c) && 1 <= k <= |c|
    ensures k < |c| ==> After(c, k) != Accept && After(c, k) != Reject
    ensures k == |c| ==> After(c, k) == Accept
  {
    CharLenOfChar(c);
    WindowRun(c);
    RunIsAfter(c, |c|);
    assert c[..|c|] == c;
    RejectStaysAfter(c, k, |c|);
    if k < |c| {
      assert IsTail(c[k]);
      assert After(c, k + 1) == (if After(c, k) == Reject then Reject else Transition(After(c, k), c[k]));
      RejectStaysAfter(c, k + 1, |c|);
    }
  }

  /** The decoder after the first `k` bytes of a character: pending,
      holding the payload bits so far, nothing emitted. */
  function Midway(c: seq<Byte>, k: nat): Decoder
    requires 1 <= k <= |c| && k <= 3
  {
    PartialBound(c, k);
    Decoder(After(c, k), Partial(c, k), After(c, k))
  }

  /** The first `k` bytes of a character through the consuming `decode`:
      nothing emitted and the payload bits so far in `codep` while the
      character is incomplete; the UTF-16 units of the accumulated value
      and a fresh decoder once it is complete. */
  lemma {:induction false} DecodePrefix(c: seq<Byte>, k: nat)
    requires Utf8Char(c) && 1 <= k <= |c|
    ensures k < |c| ==> DecodeBytes(Fresh, c[..k]) == (Midway(c, k), [])
    ensures k == |c| ==> DecodeBytes(Fresh, c[..k]) == (Fresh, EmitCodePoint(Partial(c, k)))
    decreases k
  {
    CharStates(c, k);
    if k == 1 {
      LeadMask(c);
      DecodeFirst(c);
    } else {
      DecodePrefix(c, k - 1);
      CharStates(c, k - 1);
      DecodeNext(c, k);
    }
  }

  lemma DecodeFirst(c: seq<Byte>)
    requires 1 <= |c| <= 4
    requires Transition(Accept, c[0]) != Reject
    requires LeadModulus(Transition(Accept, c[0])) == LeadBits(|c|)
    requires After(c, 1) == Accept <==> |c| == 1
    ensures 1 < |c| ==> DecodeBytes(Fresh, c[..1]) == (Midway(c, 1), [])
    ensures 1 == |c| ==> DecodeBytes(Fresh, c[..1]) == (Fresh, EmitCodePoint(Partial(c, 1)))
  {
    assert After(c, 1) == Transition(Accept, c[0]);
    assert c[..1] == [] + [c[0]];
    assert DecodeBytes(Fresh, []) == (Fresh, []);
    if |c| == 1 {
      assert c[0] <= 0x7F && LeadBits(|c|) == 0x80;
      SmallMod(c[0], 0x80);
      DecodeAscii(c[0]);
    } else {
      SnocLead(Fresh, [], c[0], []);
    }
  }

  lemma SmallMod(x: int, m: int)
    requires 0 <= x < m
    ensures x % m == x
  {
  }

  lemma DecodeAscii(x: Byte)
    requires x <= 0x7F
    ensures DecodeBytes(Fresh, [] + [x]) == (Fresh, EmitCodePoint(x))
  {
    assert DecodeBytes(Fresh, []) == (Fresh, []);
    SnocLead(Fresh, [], x, []);
    assert [] + EmitCodePoint(x) == EmitCodePoint(x);
  }

  lemma DecodeNext(c: seq<Byte>, k: nat)
    requires 2 <= k <= |c| <= 4
    requires After(c, k - 1) != Accept && After(c, k - 1) != Reject && After(c, k) != Reject
    requires After(c, k) == Accept <==> k == |c|
    requires DecodeBytes(Fresh, c[..k - 1]) == (Midway(c, k - 1), [])
    ensures k < |c| ==> DecodeBytes(Fresh, c[..k]) == (Midway(c, k), [])
    ensures k == |c| ==> DecodeBytes(Fresh, c[..k]) == (Fresh, EmitCodePoint(Partial(c, k)))
  {
    PartialBound(c, k - 1);
    var m := Midway(c, k - 1);
    TakeSnoc(c, k);
    assert After(c, k) == Transition(m.state, c[k - 1]);
    assert Partial(c, k) == m.codep * 64 + c[k - 1] % 64;
    if k < |c| {
      PartialBound(c, k);
      NextPending(c[..k - 1], c[k - 1], m, Midway(c, k));
    } else {
      NextComplete(c[..k - 1], c[k - 1], m, Partial(c, k));
    }
  }

  lemma NextPending(bs: seq<Byte>, x: Byte, m: Decoder, m': Decoder)
    requires DecodeBytes(Fresh, bs) == (m, [])
    requires m.state != Accept && 0 <= m.codep < 0x1_0000_0000
    requires Transition(m.state, x) != Accept && Transition(m.state, x) != Reject
    requires m' == Decoder(Transition(m.state, x), m.codep * 64 + x % 64, Transition(m.state, x))
    ensures DecodeBytes(Fresh, bs + [x]) == (m', [])
  {
    SnocPending(Fresh, bs, x, m, []);
  }

  lemma NextComplete(bs: seq<Byte>, x: Byte, m: Decoder, v: int)
    requires DecodeBytes(Fresh, bs) == (m, [])
    requires m.state != Accept && 0 <= m.codep < 0x1_0000_0000
    requires Transition(m.state, x) == Accept
    requires v == m.codep * 64 + x % 64
    ensures DecodeBytes(Fresh, bs + [x]) == (Fresh, EmitCodePoint(v))
  {
    SnocComplete(Fresh, bs, x, m, []);
    var e := EmitCodePoint(v);
    assert [] + e == e;
  }

  /** One character from a fresh decoder: exactly its UTF-16 units come
      out and the decoder is fresh again. */
  lemma DecodeChar(c: seq<Byte>)
    requires Utf8Char(c)
    ensures IsScalar(ScalarOf(c))
    ensures DecodeBytes(Fresh, c) == (Fresh, Utf16(ScalarOf(c)))
  {
    DecodePrefix(c, |c|);
    assert c[..|c|] == c;
    PartialIsScalar(c);
    ScalarThenEncode(c);
    EmitIsUtf16(ScalarOf(c));
  }

  /** Decoding the encoding of a scalar value yields its UTF-16 form. */
  lemma DecodeEncoded(cp: int)
    requires IsScalar(cp)
    ensures DecodeBytes(Fresh, EncodeChar(cp)) == (Fresh, Utf16(cp))
  {
    EncodeThenScalar(cp);
    DecodeChar(EncodeChar(cp));
  }

  /** An input cut inside a character has emitted nothing for it, and the
      decoder is left pending. */
  lemma TruncatedIsPending(c: seq<Byte>, k: nat)
    requires Utf8Char(c) && 1 <= k < |c|
    ensures DecodeBytes(Fresh, c[..k]).1 == []
    ensures DecodeBytes(Fresh, c[..k]).0.state != Accept
  {
    DecodePrefix(c, k);
    CharStates(c, k);
  }

  /** The UTF-16 units a well-formed input stands for, character by
      character. */
  function Utf16Of(bs: seq<Byte>): seq<CodeUnit>
    requires WellFormed(bs)
    decreases |bs|
  {
    if |bs| == 0 then []
    else
      var n := CharLen(bs[0]);
      ScalarThenEncode(bs[..n]);
      Utf16(ScalarOf(bs[..n])) + Utf16Of(bs[n..])
  }

  /** A well-formed input through a fresh decoder yields exactly its
      characters' UTF-16 units, and leaves the decoder fresh. */
  lemma {:induction false} DecodeWellFormed(bs: seq<Byte>)
    requires WellFormed(bs)
    ensures DecodeBytes(Fresh, bs) == (Fresh, Utf16Of(bs))
    decreases |bs|
  {
    if |bs| == 0 {
      assert DecodeBytes(Fresh, bs) == (Fresh, []);
    } else {
      var n := CharLen(bs[0]);
      var c, rest := bs[..n], bs[n..];
      assert bs == c + rest;
      DecodeBytesAppend(Fresh, c, rest);
      DecodeChar(c);
      DecodeWellFormed(rest);
    }
  }

  /** A well-formed input followed by a cut-off character: the whole
      characters come out, the partial one is held back. */
  lemma DecodeWithTruncatedTail(bs: seq<Byte>, c: seq<Byte>, k: nat)
    requires WellFormed(bs) && Utf8Char(c) && 1 <= k < |c|
    ensures DecodeBytes(Fresh, bs + c[..k]).1 == Utf16Of(bs)
    ensures DecodeBytes(Fresh, bs + c[..k]).0.state != Accept
  {
    DecodeWellFormed(bs);
    DecodeBytesAppend(Fresh, bs, c[..k]);
    TruncatedIsPending(c, k);
    assert Utf16Of(bs) + [] == Utf16Of(bs);
  }

  // ---------------------------------------------------------------------
  // The non-consuming `decode(int)`.

  /** `decode(int)` called once per byte; it stops at REJECT, for which
      the table has no row. */
  function RawRun(d: Decoder, bs: seq<Byte>): Decoder
    decreases |bs|
  {
    if |bs| == 0 || d.state == Reject then d
    else RawRun(DecodeRaw(d, bs[0]), bs[1..])
  }

  lemma {:induction false} RawRunSnoc(d: Decoder, bs: seq<Byte>, x: Byte)
    ensures RawRun(d, bs + [x]) == (var p := RawRun(d, bs); if p.state == Reject then p else DecodeRaw(p, x))
    decreases |bs|
  {
    if |bs| == 0 {
      assert bs + [x] == [x];
    } else if d.state != Reject {
      assert (bs + [x])[1..] == bs[1..] + [x];
      RawRunSnoc(DecodeRaw(d, bs[0]), bs[1..], x);
    }
  }

  /** The raw steps over the first `k` bytes of a character: the state is
      `After(c, k)` and `codep` holds the payload bits read so far. */
  lemma {:induction false} RawPrefix(c: seq<Byte>, k: nat)
    requires Utf8Char(c) && 1 <= k <= |c|
    ensures RawRun(Fresh, c[..k]).state == After(c, k)
    ensures RawRun(Fresh, c[..k]).codep == Partial(c, k)
    decreases k
  {
    CharStates(c, k);
    TakeSnoc(c, k);
    if k == 1 {
      LeadMask(c);
      RawFirst(c);
    } else {
      RawPrefix(c, k - 1);
      CharStates(c, k - 1);
      PartialBound(c, k - 1);
      RawNext(c[..k - 1], c[k - 1], RawRun(Fresh, c[..k - 1]));
      assert Partial(c, k) == Partial(c, k - 1) * 64 + c[k - 1] % 64;
      assert After(c, k) == Transition(After(c, k - 1), c[k - 1]);
    }
  }

  lemma RawFirst(c: seq<Byte>)
    requires 1 <= |c| <= 4
    requires Transition(Accept, c[0]) != Reject
    requires LeadModulus(Transition(Accept, c[0])) == LeadBits(|c|)
    ensures RawRun(Fresh, c[..1]).state == After(c, 1)
    ensures RawRun(Fresh, c[..1]).codep == Partial(c, 1)
  {
    assert c[..1] == [] + [c[0]];
    RawRunSnoc(Fresh, [], c[0]);
    assert RawRun(Fresh, []) == Fresh;
  }

  lemma RawNext(bs: seq<Byte>, x: Byte, p: Decoder)
    requires RawRun(Fresh, bs) == p
    requires p.state != Accept && p.state != Reject && 0 <= p.codep < 0x1_0000_0000
    ensures RawRun(Fresh, bs + [x]).state == Transition(p.state, x)
    ensures RawRun(Fresh, bs + [x]).codep == p.codep * 64 + x % 64
  {
    RawRunSnoc(Fresh, bs, x);
  }

  /** When `decode(int)` accepts a character, `codep` is the scalar value
      the character encodes: at most 0x10FFFF and never a surrogate. */
  lemma CodepAtAcceptance(c: seq<Byte>)
    requires Utf8Char(c)
    ensures RawRun(Fresh, c).state == Accept
    ensures RawRun(Fresh, c).codep == ScalarOf(c)
    ensures IsScalar(RawRun(Fresh, c).codep)
  {
    RawPrefix(c, |c|);
    assert c[..|c|] == c;
    CharStates(c, |c|);
    PartialIsScalar(c);
    ScalarThenEncode(c);
  }
}
