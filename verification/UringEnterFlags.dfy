/**
  The flags argument of `io_uring_enter(2)`: four single-bit masks, equal
  to the kernel's IORING_ENTER_GETEVENTS (1), IORING_ENTER_SQ_WAKEUP (2),
  IORING_ENTER_SQ_WAIT (4) and IORING_ENTER_EXT_ARG (8). A set of flags is
  passed as the bitwise OR of their masks; because the masks occupy
  distinct bits, that OR can be read back into the set it came from.
 */
module UringEnterFlags {
  import opened JavaArith

  datatype EnterFlag = GetEvents | SqWakeup | SqWait | ExtArg

  /** Every flag, in declaration order. */
  const AllFlags: seq<EnterFlag> := [GetEvents, SqWakeup, SqWait, ExtArg]

  /** `1 << k`. */
  function ShiftOne(k: nat): (p: nat)
    ensures p >= 1
  {
    if k == 0 then 1 else 2 * ShiftOne(k - 1)
  }

  /** A positive value with exactly one bit set: clearing its lowest set
      bit, `m & (m - 1)`, leaves nothing. */
  predicate SingleBit(m: nat) {
    m > 0 && BitAnd(m, m - 1) == 0
  }

  /** `mask()`: the value the constant was built with, which is the
      kernel's value of the same flag. */
  function Mask(f: EnterFlag): (m: Int32)
    ensures m > 0 && SingleBit(m)
    ensures f == GetEvents ==> m == 1
    ensures f == SqWakeup ==> m == 2
    ensures f == SqWait ==> m == 4
    ensures f == ExtArg ==> m == 8
  {
    match f
    case GetEvents => ShiftOne(0)
    case SqWakeup => ShiftOne(1)
    case SqWait => ShiftOne(2)
    case ExtArg => ShiftOne(3)
  }

  /** No two flags share a bit. */
  lemma MasksDisjoint(f: EnterFlag, g: EnterFlag)
    ensures f != g <==> BitAnd(Mask(f), Mask(g)) == 0
  {
  }

  /** The mask of `f` if it is chosen, else nothing. */
  function Contribution(s: set<EnterFlag>, f: EnterFlag): nat {
    if f in s then Mask(f) else 0
  }

  /** The bitwise OR of the masks of the chosen flags. */
  function Combine(s: set<EnterFlag>): nat {
    BitOr(BitOr(BitOr(Contribution(s, GetEvents), Contribution(s, SqWakeup)),
                Contribution(s, SqWait)),
          Contribution(s, ExtArg))
  }

  /** The flags whose bit is set in `m`, found by `m & mask() != 0`. */
  function Decode(m: nat): (s: set<EnterFlag>)
    ensures forall f :: f in s <==> BitAnd(m, Mask(f)) != 0
  {
    set f | f in AllFlags && BitAnd(m, Mask(f)) != 0
  }

  /** Four disjoint single bits OR together into their sum. */
  lemma OrOfBits(a: nat, b: nat, c: nat, d: nat)
    requires a in {0, 1} && b in {0, 2} && c in {0, 4} && d in {0, 8}
    ensures BitOr(BitOr(BitOr(a, b), c), d) == a + b + c + d
  {
  }

  lemma AndOne(x: nat)
    ensures BitAnd(x, 1) == x % 2
  {
  }

  lemma AndDouble(x: nat, n: nat)
    requires n > 0
    ensures BitAnd(x, 2 * n) == 2 * BitAnd(x / 2, n)
  {
    assert (2 * n) / 2 == n && (2 * n) % 2 == 0;
  }

  /** `m & (1 << k)` keeps bit `k` of `m`, for the four low bits. */
  lemma LowBits(m: nat)
    requires m < 16
    ensures BitAnd(m, 1) == m % 2
    ensures BitAnd(m, 2) == 2 * ((m / 2) % 2)
    ensures BitAnd(m, 4) == 4 * ((m / 4) % 2)
    ensures BitAnd(m, 8) == 8 * (m / 8)
  {
    AndOne(m);
    AndDouble(m, 1);
    AndOne(m / 2);
    AndDouble(m, 2);
    AndDouble(m / 2, 1);
    AndOne(m / 4);
    assert m / 2 / 2 == m / 4;
    AndDouble(m, 4);
    AndDouble(m / 2, 2);
    AndDouble(m / 4, 1);
    AndOne(m / 8);
    assert m / 4 / 2 == m / 8;
  }

  /** Which bits are set in a sum of distinct single bits. */
  lemma BitsOfSum(a: nat, b: nat, c: nat, d: nat)
    requires a in {0, 1} && b in {0, 2} && c in {0, 4} && d in {0, 8}
    ensures BitAnd(a + b + c + d, 1) != 0 <==> a != 0
    ensures BitAnd(a + b + c + d, 2) != 0 <==> b != 0
    ensures BitAnd(a + b + c + d, 4) != 0 <==> c != 0
    ensures BitAnd(a + b + c + d, 8) != 0 <==> d != 0
  {
    LowBits(a + b + c + d);
  }

  /** The combined mask is the sum of the chosen masks, below 16. */
  lemma CombineIsSum(s: set<EnterFlag>)
    ensures Combine(s) == Contribution(s, GetEvents) + Contribution(s, SqWakeup)
                          + Contribution(s, SqWait) + Contribution(s, ExtArg)
    ensures Combine(s) < 16
  {
    OrOfBits(Contribution(s, GetEvents), Contribution(s, SqWakeup),
             Contribution(s, SqWait), Contribution(s, ExtArg));
  }

  /** OR-ing a set of flags loses nothing: decoding gives the set back. */
  lemma DecodeCombine(s: set<EnterFlag>)
    ensures Decode(Combine(s)) == s
  {
    var r := Decode(Combine(s));
    CombinedHas(s, GetEvents);
    CombinedHas(s, SqWakeup);
    CombinedHas(s, SqWait);
    CombinedHas(s, ExtArg);
    SameFlags(r, s);
  }

  /** A flag's bit is set in the combined mask exactly when it was chosen. */
  lemma CombinedHas(s: set<EnterFlag>, f: EnterFlag)
    ensures BitAnd(Combine(s), Mask(f)) != 0 <==> f in s
  {
    var a, b, c, d := Contribution(s, GetEvents), Contribution(s, SqWakeup),
                      Contribution(s, SqWait), Contribution(s, ExtArg);
    CombineIsSum(s);
    BitsOfSum(a, b, c, d);
  }

  /** Two sets of flags that agree on every flag are equal. */
  lemma SameFlags(r: set<EnterFlag>, s: set<EnterFlag>)
    requires GetEvents in r <==> GetEvents in s
    requires SqWakeup in r <==> SqWakeup in s
    requires SqWait in r <==> SqWait in s
    requires ExtArg in r <==> ExtArg in s
    ensures r == s
  {
    forall f: EnterFlag
      ensures f in r <==> f in s
    {
      match f
      case GetEvents =>
      case SqWakeup =>
      case SqWait =>
      case ExtArg =>
    }
  }

  /** Every value below 16 is the OR of exactly one set of flags. */
  lemma CombineDecode(m: nat)
    requires m < 16
    ensures Combine(Decode(m)) == m
  {
    var s := Decode(m);
    CombineIsSum(s);
    DecodedContribution(m, GetEvents);
    DecodedContribution(m, SqWakeup);
    DecodedContribution(m, SqWait);
    DecodedContribution(m, ExtArg);
    LowBits(m);
    SumOfBits(m);
  }

  /** A decoded flag contributes exactly the bit of `m` it was found by. */
  lemma DecodedContribution(m: nat, f: EnterFlag)
    requires m < 16
    ensures Contribution(Decode(m), f) == BitAnd(m, Mask(f))
  {
    LowBits(m);
  }

  lemma SumOfBits(m: nat)
    requires m < 16
    ensures m == m % 2 + 2 * ((m / 2) % 2) + 4 * ((m / 4) % 2) + 8 * (m / 8)
  {
  }
}
