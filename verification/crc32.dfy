/** The table-driven, reflected CRC-32 of IEEE 802.3 clause 3.2.9
    (polynomial 0xEDB88320, initial register 0xFFFFFFFF, final inversion),
    as computed by host/src/shared/crc32.ts.

    JavaScript's `^`, `&` and `>>>` only ever look at the low 32 bits of
    their operands, so the register is modelled exactly as a `bv32`; every
    table entry and every checksum is therefore an unsigned 32-bit value by
    construction. */
module Crc32 {

  /** The reflected IEEE 802.3 generator polynomial. */
  const Polynomial: bv32 := 0xEDB8_8320

  /** Initial value of the register, also the final xor mask. */
  const Init: bv32 := 0xFFFF_FFFF

  /** One round of the table construction: shift right, and fold in the
      polynomial when the bit shifted out was set. */
  function Round(v: bv32): bv32 {
    if v & 1 != 0 then Polynomial ^ (v >> 1) else v >> 1
  }

  /** `n` rounds of `Round`. */
  function Rounds(v: bv32, n: nat): bv32
    decreases n
  {
    if n == 0 then v else Rounds(Round(v), n - 1)
  }

  /** Table entry for index `i`: the index put through eight rounds. */
  function Entry(i: nat): bv32
    requires i < 256
  {
    Rounds(i as bv32, 8)
  }

  /** The 256-entry lookup table. */
  function Table(): seq<bv32> {
    seq(256, i requires 0 <= i < 256 => Entry(i))
  }

  /** Table index selected by register `c` and input byte `b`. */
  function Index(c: bv32, b: bv8): (i: nat)
    ensures i < 256
  {
    ((c ^ (b as bv32)) & 0xFF) as nat
  }

  /** One byte of the CRC loop. */
  function Step(c: bv32, b: bv8): bv32 {
    (c >> 8) ^ Table()[Index(c, b)]
  }

  /** The register after folding `data` into `c`, first byte first. */
  function Fold(c: bv32, data: seq<bv8>): bv32
    decreases |data|
  {
    if |data| == 0 then c else Fold(Step(c, data[0]), data[1..])
  }

  /** The checksum of `data`; the empty input yields 0. */
  function Checksum(data: seq<bv8>): (c: bv32)
    ensures |data| == 0 ==> c == 0
  {
    Fold(Init, data) ^ Init
  }

  /** The bit-at-a-time register update of IEEE 802.3, without a table: the
      byte is xored into the low end of the register, which is then shifted
      out through eight rounds of the polynomial. */
  function BitwiseStep(c: bv32, b: bv8): bv32 {
    Rounds(c ^ (b as bv32), 8)
  }

  /** The register after `data` folded in bit by bit, first byte first. */
  function BitwiseFold(c: bv32, data: seq<bv8>): bv32
    decreases |data|
  {
    if |data| == 0 then c else BitwiseFold(BitwiseStep(c, data[0]), data[1..])
  }

  /** Shifting right distributes over xor. */
  lemma ShiftXor(a: bv32, b: bv32)
    ensures (a ^ b) >> 1 == (a >> 1) ^ (b >> 1)
  {
  }

  /** The low bit of `a ^ b` is clear exactly when those of `a` and `b` agree. */
  lemma LowBitXor(a: bv32, b: bv32)
    ensures ((a ^ b) & 1 == 0) == ((a & 1 == 0) == (b & 1 == 0))
  {
  }

  /** A round of a register whose low bit is clear is a plain shift. */
  lemma RoundOfEven(v: bv32)
    requires v & 1 == 0
    ensures Round(v) == v >> 1
  {
  }

  /** A round of a register whose low bit is set folds in the polynomial. */
  lemma RoundOfOdd(v: bv32)
    requires v & 1 != 0
    ensures Round(v) == Polynomial ^ (v >> 1)
  {
  }

  /** Xor is associative and commutative, and a value cancels itself. */
  lemma XorRearrange(p: bv32, x: bv32, y: bv32)
    ensures (p ^ x) ^ (p ^ y) == x ^ y
    ensures p ^ (x ^ y) == (p ^ x) ^ y && p ^ (x ^ y) == x ^ (p ^ y)
  {
  }

  /** A round is linear over xor: it shifts, and the polynomial is folded in
      according to the low bit, which xor distributes over. */
  lemma RoundLinear(a: bv32, b: bv32)
    ensures Round(a ^ b) == Round(a) ^ Round(b)
  {
    ShiftXor(a, b);
    LowBitXor(a, b);
    XorRearrange(Polynomial, a >> 1, b >> 1);
    if a & 1 != 0 {
      RoundOfOdd(a);
      if b & 1 != 0 {
        RoundOfOdd(b);
        RoundOfEven(a ^ b);
      } else {
        RoundOfEven(b);
        RoundOfOdd(a ^ b);
      }
    } else {
      RoundOfEven(a);
      if b & 1 != 0 {
        RoundOfOdd(b);
        RoundOfOdd(a ^ b);
      } else {
        RoundOfEven(b);
        RoundOfEven(a ^ b);
      }
    }
  }

  /** Xor as a function value. */
  function Xor(a: bv32, b: bv32): bv32 {
    a ^ b
  }

  /** `n` applications of `f`, the shape `Rounds` has for `Round`. */
  function Iterate<T>(f: T -> T, v: T, n: nat): T
    decreases n
  {
    if n == 0 then v else Iterate(f, f(v), n - 1)
  }

  /** A map that distributes over `op` still does after `n` applications. */
  lemma {:induction false} IterateLinear<T>(f: T -> T, op: (T, T) -> T, a: T, b: T, n: nat)
    requires forall x, y :: f(op(x, y)) == op(f(x), f(y))
    ensures Iterate(f, op(a, b), n) == op(Iterate(f, a, n), Iterate(f, b, n))
    decreases n
  {
    if n > 0 {
      IterateLinear(f, op, f(a), f(b), n - 1);
    }
  }

  /** `Rounds` is the iteration of `Round`. */
  lemma {:induction false} IterateIsRounds(v: bv32, n: nat)
    ensures Iterate(Round, v, n) == Rounds(v, n)
    decreases n
  {
    if n > 0 {
      IterateIsRounds(Round(v), n - 1);
    }
  }

  /** Linearity carries over to any number of rounds. */
  lemma RoundsLinear(a: bv32, b: bv32, n: nat)
    ensures Rounds(a ^ b, n) == Rounds(a, n) ^ Rounds(b, n)
  {
    forall x, y ensures Round(Xor(x, y)) == Xor(Round(x), Round(y)) {
      RoundLinear(x, y);
    }
    IterateLinear(Round, Xor, a, b, n);
    IterateIsRounds(a ^ b, n);
    IterateIsRounds(a, n);
    IterateIsRounds(b, n);
  }

  /** Rounds compose: `m + n` rounds are `m` rounds followed by `n`. */
  lemma {:induction false} RoundsAdd(v: bv32, m: nat, n: nat)
    ensures Rounds(v, m + n) == Rounds(Rounds(v, m), n)
    decreases m
  {
    if m > 0 {
      RoundsAdd(Round(v), m - 1, n);
    }
  }

  /** Two rounds of a register whose two low bits are clear only shift it. */
  lemma TwoRoundsOfHighBits(x: bv32)
    requires x & 3 == 0
    ensures Rounds(x, 2) == x >> 2
  {
    assert x & 1 == 0 && (x >> 1) & 1 == 0 && (x >> 1) >> 1 == x >> 2;
    RoundOfEven(x);
    RoundOfEven(x >> 1);
  }

  /** Four rounds of a register whose low nibble is clear only shift it. */
  lemma FourRoundsOfHighBits(x: bv32)
    requires x & 0xF == 0
    ensures Rounds(x, 4) == x >> 4
  {
    assert x & 3 == 0 && (x >> 2) & 3 == 0 && (x >> 2) >> 2 == x >> 4;
    RoundsAdd(x, 2, 2);
    TwoRoundsOfHighBits(x);
    TwoRoundsOfHighBits(x >> 2);
  }

  /** Eight rounds of a register whose low byte is clear only shift it. */
  lemma RoundsOfHighBits(x: bv32)
    requires x & 0xFF == 0
    ensures Rounds(x, 8) == x >> 8
  {
    assert x & 0xF == 0 && (x >> 4) & 0xF == 0 && (x >> 4) >> 4 == x >> 8;
    RoundsAdd(x, 4, 4);
    FourRoundsOfHighBits(x);
    FourRoundsOfHighBits(x >> 4);
  }

  /** A register `v` that differs from `c` only in its low byte splits into
      `hi`, which is `c` with its low byte cleared, and the low byte `lo`. */
  lemma SplitRegister(c: bv32, v: bv32, hi: bv32, lo: bv32)
    requires v & 0xFFFF_FF00 == c & 0xFFFF_FF00
    requires hi == c & 0xFFFF_FF00 && lo == v & 0xFF
    ensures v == hi ^ lo
    ensures hi & 0xFF == 0
    ensures hi >> 8 == c >> 8
  {
  }

  /** A register value survives the trip through a natural number. */
  lemma NatRoundTrip(x: bv32)
    ensures (x as nat) as bv32 == x
  {
  }

  /** The table index a step uses, read back as a register value, is `lo`,
      the low byte of the register with the input byte xored in. */
  lemma IndexOfStep(c: bv32, b: bv8, lo: bv32)
    requires lo == (c ^ (b as bv32)) & 0xFF
    ensures Index(c, b) as bv32 == lo
  {
    NatRoundTrip(lo);
    assert Index(c, b) == lo as nat;
  }

  /** The table entry a step looks up is the eight rounds of `lo`. */
  lemma TableEntryOfStep(c: bv32, b: bv8, lo: bv32)
    requires lo == (c ^ (b as bv32)) & 0xFF
    ensures Table()[Index(c, b)] == Rounds(lo, 8)
  {
    IndexOfStep(c, b, lo);
    var i := Index(c, b);
    assert Table()[i] == Entry(i);
  }

  /** Rounds of a split register: when the high part only shifts, the whole
      rounds to that shift xored with the rounds of the low part. */
  lemma RoundsOfSplit(c: bv32, v: bv32, hi: bv32, lo: bv32, n: nat)
    requires v == hi ^ lo
    requires Rounds(hi, n) == hi >> 8
    requires hi >> 8 == c >> 8
    ensures (c >> 8) ^ Rounds(lo, n) == Rounds(v, n)
  {
    RoundsLinear(hi, lo, n);
  }

  /** Assembles a step from its table entry and the split bitwise rounds. */
  lemma StepFromParts(c: bv32, b: bv8, v: bv32, lo: bv32)
    requires v == c ^ (b as bv32)
    requires Table()[Index(c, b)] == Rounds(lo, 8)
    requires (c >> 8) ^ Rounds(lo, 8) == Rounds(v, 8)
    ensures Step(c, b) == BitwiseStep(c, b)
  {
  }

  /** The table lookup does the work of eight bitwise rounds: the high bits
      of the register only shift, and the table holds the rounds of the low
      byte. */
  lemma StepIsBitwise(c: bv32, b: bv8)
    ensures Step(c, b) == BitwiseStep(c, b)
  {
    var v := c ^ (b as bv32);
    var hi := c & 0xFFFF_FF00;
    var lo := v & 0xFF;
    SplitRegister(c, v, hi, lo);
    RoundsOfHighBits(hi);
    RoundsOfSplit(c, v, hi, lo, 8);
    TableEntryOfStep(c, b, lo);
    StepFromParts(c, b, v, lo);
  }

  /** The table-driven fold and the bitwise fold agree on every input. */
  lemma {:induction false} FoldIsBitwise(c: bv32, data: seq<bv8>)
    ensures Fold(c, data) == BitwiseFold(c, data)
    decreases |data|
  {
    if |data| > 0 {
      StepIsBitwise(c, data[0]);
      FoldIsBitwise(Step(c, data[0]), data[1..]);
    }
  }

  /** The table-driven checksum is the bit-at-a-time CRC of IEEE 802.3:
      the register starts at all ones, each byte is shifted through eight
      rounds, and the result is inverted. */
  lemma ChecksumIsBitwise(data: seq<bv8>)
    ensures Checksum(data) == BitwiseFold(Init, data) ^ Init
  {
    FoldIsBitwise(Init, data);
  }

  /** The checksum as the non-negative number the source returns. */
  function ChecksumValue(data: seq<bv8>): (n: nat)
    ensures n < 0x1_0000_0000
  {
    Checksum(data) as nat
  }

  /** Builds the lookup table the way the source's initialiser does:
      256 entries, each produced by an inner loop of eight rounds. */
  method BuildTable() returns (table: seq<bv32>)
    ensures |table| == 256
    ensures forall i :: 0 <= i < 256 ==> table[i] == Entry(i)
  {
    table := [];
    var i := 0;
    while i < 256
      invariant 0 <= i <= 256
      invariant |table| == i
      invariant forall j :: 0 <= j < i ==> table[j] == Entry(j)
    {
      var value: bv32 := i as bv32;
      var bit := 0;
      while bit < 8
        invariant 0 <= bit <= 8
        invariant Rounds(value, 8 - bit) == Entry(i)
      {
        assert Rounds(value, 8 - bit) == Rounds(Round(value), 8 - bit - 1);
        value := if value & 1 != 0 then Polynomial ^ (value >> 1) else value >> 1;
        bit := bit + 1;
      }
      table := table + [value];
      i := i + 1;
    }
  }

  /** Computes the checksum with the source's single loop over the bytes. */
  method Compute(data: seq<bv8>) returns (crc: bv32)
    ensures crc == Checksum(data)
  {
    var c := Init;
    var k := 0;
    while k < |data|
      invariant 0 <= k <= |data|
      invariant Fold(c, data[k..]) == Fold(Init, data)
    {
      assert data[k..][1..] == data[k + 1..];
      c := Step(c, data[k]);
      k := k + 1;
    }
    crc := c ^ Init;
  }

  /** Streaming: folding `a + b` is folding `b` from the register left by `a`. */
  lemma {:induction false} FoldAppend(c: bv32, a: seq<bv8>, b: seq<bv8>)
    ensures Fold(c, a + b) == Fold(Fold(c, a), b)
    decreases |a|
  {
    if |a| == 0 {
      assert a + b == b;
    } else {
      assert (a + b)[0] == a[0];
      assert (a + b)[1..] == a[1..] + b;
      FoldAppend(Step(c, a[0]), a[1..], b);
    }
  }

  /** The fold is a left fold of `Step`: appending one byte applies one step. */
  lemma FoldSnoc(c: bv32, a: seq<bv8>, b: bv8)
    ensures Fold(c, a + [b]) == Step(Fold(c, a), b)
  {
    FoldAppend(c, a, [b]);
  }

  /** The four table entries the known vector touches; its five lookups use
      entry 230 twice. */
  lemma KnownEntries()
    ensures Entry(254) == 0x5A05_DF1B && Entry(230) == 0x4969_474D
    ensures Entry(110) == 0xAA0A_4C5F && Entry(55) == 0xB8BD_A50F
  {
  }

  /** The known vector of the source's test suite. */
  lemma KnownVector()
    ensures Checksum([1, 2, 3, 4, 5]) == 0x470B_99F4
  {
    KnownEntries();
    var data: seq<bv8> := [1, 2, 3, 4, 5];
    assert Step(0xFFFF_FFFF, 1) == 0x5AFA_20E4;
    assert Step(0x5AFA_20E4, 2) == 0x4933_BD6D;
    assert Step(0x4933_BD6D, 3) == 0xAA43_7FE2;
    assert Step(0xAA43_7FE2, 4) == 0x49C3_0432;
    assert Step(0x49C3_0432, 5) == 0xB8F4_660B;
    assert Fold(0xB8F4_660B, data[5..]) == 0xB8F4_660B;
    assert Fold(0x49C3_0432, data[4..]) == 0xB8F4_660B;
    assert Fold(0xAA43_7FE2, data[3..]) == 0xB8F4_660B;
    assert Fold(0x4933_BD6D, data[2..]) == 0xB8F4_660B;
    assert Fold(0x5AFA_20E4, data[1..]) == 0xB8F4_660B;
    assert Fold(Init, data) == 0xB8F4_660B;
  }
}
