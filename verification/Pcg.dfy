/** The bundled pseudo random generator: PCG-XSH-RR, 64 bits of state, 32 bits of output. */
module Pcg {
  import opened Bits
  import opened Lcg

  const MULTIPLIER: nat := 6364136223846793005
  const TWO_64: nat := 0x1_0000_0000_0000_0000
  const TWO_32: nat := 0x1_0000_0000

  type Word64 = x: int | 0 <= x < 0x1_0000_0000_0000_0000
  type Word32 = x: int | 0 <= x < 0x1_0000_0000
  type Byte = x: int | 0 <= x < 0x100

  /** One step of the state, in 64-bit unsigned arithmetic. */
  function Step(state: Word64, inc: Word64): Word64 {
    (6364136223846793005 * state + inc) % TWO_64
  }

  /** 64-bit unsigned addition. */
  function Plus(a: Word64, b: Word64): (c: Word64)
    ensures c == (a + b) % TWO_64
  {
    if a + b < TWO_64 then a + b else a + b - TWO_64
  }

  /** The state after n words have been drawn. */
  ghost function StateAt(state: Word64, inc: Word64, n: nat): Word64 {
    if n == 0 then state else Step(StateAt(state, inc, n - 1), inc)
  }

  /** The 32 bits of the state that carry the output, exclusive-ored with the 18 places above. */
  function Xorshifted(s: Word64): nat {
    Low(Shr(Xor(Shr(s, 18), s), 27), 32)
  }

  /** The output permutation: the top five bits of the state rotate the xorshifted word. */
  function Output(s: Word64): nat {
    RotateRight(Xorshifted(s), 32, Shr(s, 59))
  }

  /** What is left of a word once its j low bytes have been shifted out. */
  function Slack(w: nat, j: nat): nat {
    if j == 0 then w else Slack(w, j - 1) / 0x100
  }

  function ByteOf(w: nat, j: nat): (b: Byte)
    ensures j < 4 ==>
      b == (if j == 0 then w else if j == 1 then w / 0x100 else if j == 2 then w / 0x1_0000 else w / 0x100_0000) % 0x100
  {
    assert j == 2 ==> Slack(w, 2) == Slack(w, 1) / 0x100;
    assert j == 3 ==> Slack(w, 3) == Slack(w, 2) / 0x100 && Slack(w, 2) == Slack(w, 1) / 0x100;
    Slack(w, j) % 0x100
  }

  function FromBytes(b0: Byte, b1: Byte, b2: Byte, b3: Byte): Word32 {
    b0 + 0x100 * b1 + 0x1_0000 * b2 + 0x100_0000 * b3
  }

  /** Byte number i of the little-endian byte stream that starts in the given state. */
  ghost function StreamByte(state: Word64, inc: Word64, i: nat): Byte {
    ByteOf(Output(StateAt(state, inc, i / 4)), i % 4)
  }

  /** The four-byte store of one drawn word. */
  method PutWord(buf: array<Byte>, at: nat, word: Word32)
    requires at + 4 <= buf.Length
    modifies buf
    ensures forall j :: 0 <= j < 4 ==> buf[at + j] == ByteOf(word, j)
    ensures forall i :: 0 <= i < buf.Length && !(at <= i < at + 4) ==> buf[i] == old(buf[i])
  {
    buf[at] := ByteOf(word, 0);
    buf[at + 1] := ByteOf(word, 1);
    buf[at + 2] := ByteOf(word, 2);
    buf[at + 3] := ByteOf(word, 3);
  }

  /** The byte-wise store of what is left, shifting one word down. */
  method PutSlack(buf: array<Byte>, at: nat, len: nat, word: Word32)
    requires at <= len < at + 4 && len <= buf.Length
    modifies buf
    ensures forall j :: 0 <= j < len - at ==> buf[at + j] == ByteOf(word, j)
    ensures forall i :: 0 <= i < buf.Length && !(at <= i < len) ==> buf[i] == old(buf[i])
  {
    var written, slack := at, word;
    while 0 < len - written
      invariant at <= written <= len
      invariant slack == Slack(word, written - at)
      invariant forall j :: 0 <= j < written - at ==> buf[at + j] == ByteOf(word, j)
      invariant forall i :: 0 <= i < buf.Length && !(at <= i < written) ==> buf[i] == old(buf[i])
    {
      buf[written] := slack % 0x100;
      slack := slack / 0x100;
      written := written + 1;
    }
  }

  /** Word number k of the stream supplies bytes 4k..4k+3. */
  lemma StreamWord(state: Word64, inc: Word64, k: nat, word: Word32)
    requires word == Output(StateAt(state, inc, k))
    ensures forall i :: 4 * k <= i < 4 * k + 4 ==> StreamByte(state, inc, i) == ByteOf(word, i - 4 * k)
  {
    forall i | 4 * k <= i < 4 * k + 4 ensures StreamByte(state, inc, i) == ByteOf(word, i - 4 * k) {
      ModUnique(i, 4, k, i - 4 * k);
    }
  }

  lemma StepFromZero(inc: Word64)
    ensures Step(0, inc) == inc
  {
    assert 6364136223846793005 * 0 == 0;
  }

  /** (stream << 1) | 1, truncated to 64 bits. */
  function Selector(stream: Word64): (inc: Word64)
    ensures inc == (2 * stream + 1) % TWO_64 && inc % 2 == 1
  {
    (if stream < 0x8000_0000_0000_0000 then 2 * stream else 2 * (stream - 0x8000_0000_0000_0000)) + 1
  }

  class Generator {
    var state: Word64
    var inc: Word64

    /** The stream selector must always be odd. */
    predicate Valid()
      reads this
    {
      inc % 2 == 1
    }

    constructor ()
      ensures Valid() && state == 0x853c49e6748fea9b && inc == 0xda3e39cb94b95bdb
    {
      state, inc := 0x853c49e6748fea9b, 0xda3e39cb94b95bdb;
    }

    /** The output for the state, by the shifts of the code. */
    method Permuted() returns (r: Word32)
      ensures r == Output(state)
    {
      OutputByShifts(state);
      var xorshifted := Low(Shr(Xor(Shr(state, 18), state), 27), 32);
      var rot := Shr(state, 59);
      r := Or(Shr(xorshifted, rot), Low(Shl(xorshifted, if rot == 0 then 0 else 32 - rot), 32));   // (-rot) & 31
    }

    method Next() returns (r: Word32)
      modifies this`state
      ensures r == Output(old(state))
      ensures state == Step(old(state), inc) == (6364136223846793005 * old(state) + inc) % TWO_64
    {
      r := Permuted();
      state := Step(state, inc);
    }

    method Seed(seed: Word64, stream: Word64)
      modifies this
      ensures Valid() && inc == (2 * stream + 1) % TWO_64
      ensures state == (6364136223846793005 * ((inc + seed) % TWO_64) + inc) % TWO_64
    {
      state := 0;
      inc := Selector(stream);
      var _ := Next();
      StepFromZero(inc);
      state := Plus(state, seed);
      var _ := Next();
    }

    /** The clock stands for the timer readings that replace a zero seed. */
    method Init(seed: Word64, clock: Word64)
      modifies this
      ensures Valid() && inc == 15
      ensures state == (6364136223846793005 * ((15 + if seed == 0 then clock else seed) % TWO_64) + 15) % TWO_64
    {
      var safeSeed := seed;
      if seed == 0 {
        safeSeed := clock;
      }
      Seed(safeSeed, 7);
    }

    /** Writes a prefix of the byte stream.  The word that serves the last one to three bytes is
        drawn even when there are none left to write.  The bytes are counted with a signed number. */
    method Fill(buf: array<Byte>, len: nat)
      requires len <= buf.Length && len < TWO_32 / 2
      modifies this`state, buf
      ensures forall i :: 0 <= i < len ==> buf[i] == StreamByte(old(state), inc, i)
      ensures forall i :: len <= i < buf.Length ==> buf[i] == old(buf[i])
      ensures state == StateAt(old(state), inc, len / 4 + 1)
    {
      ghost var start := state;
      var written, drawn := FillWords(buf, len);
      ModUnique(len, 4, drawn, len - written);
      var slack := Next();
      PutSlack(buf, written, len, slack);
      StreamWord(start, inc, drawn, slack);
    }

    /** The whole words, of four bytes each. */
    method FillWords(buf: array<Byte>, len: nat) returns (written: nat, ghost drawn: nat)
      requires len <= buf.Length
      modifies this`state, buf
      ensures written == 4 * drawn <= len < written + 4 && state == StateAt(old(state), inc, drawn)
      ensures forall i :: 0 <= i < written ==> buf[i] == StreamByte(old(state), inc, i)
      ensures forall i :: len <= i < buf.Length ==> buf[i] == old(buf[i])
    {
      ghost var start := state;
      written, drawn := 0, 0;
      while 4 <= len - written
        invariant written == 4 * drawn <= len
        invariant state == StateAt(start, inc, drawn)
        invariant forall i :: 0 <= i < written ==> buf[i] == StreamByte(start, inc, i)
        invariant forall i :: len <= i < buf.Length ==> buf[i] == old(buf[i])
      {
        var word := Next();
        PutWord(buf, written, word);
        StreamWord(start, inc, drawn, word);
        written, drawn := written + 4, drawn + 1;
      }
    }

    /** A 32-bit draw fills four bytes, so it also discards the following word. */
    method RandomU32() returns (r: Word32)
      modifies this`state
      ensures r == Output(old(state))
      ensures state == StateAt(old(state), inc, 2)
    {
      var buf := new Byte[4];
      Fill(buf, 4);
      RotationBounds(old(state));
      StreamWord(old(state), inc, 0, Output(old(state)));
      r := FromBytes(buf[0], buf[1], buf[2], buf[3]);
      Recombine(Output(old(state)));
    }
  }

  lemma Recombine(w: Word32)
    ensures w == FromBytes(ByteOf(w, 0), ByteOf(w, 1), ByteOf(w, 2), ByteOf(w, 3))
  {
    assert Slack(w, 2) == Slack(w, 1) / 0x100 && Slack(w, 3) == Slack(w, 2) / 0x100;
  }

  lemma RotationBounds(s: Word64)
    ensures Xorshifted(s) < Pow2(32) && Shr(s, 59) < 32
    ensures 0 <= Output(s) < TWO_32
  {
    SplitJoin(Shr(Xor(Shr(s, 18), s), 27), 32);
    PowerValues();
    ShrBound(s, 5, 59);
    RightBound(Xorshifted(s), 32, Shr(s, 59));
  }

  lemma OutputByShifts(s: Word64)
    ensures var x, rot := Low(Shr(Xor(Shr(s, 18), s), 27), 32), Shr(s, 59);
      rot < 32 && Or(Shr(x, rot), Low(Shl(x, if rot == 0 then 0 else 32 - rot), 32)) == Output(s) < TWO_32
  {
    RotationBounds(s);
    RotationIdiom(Xorshifted(s), 32, Shr(s, 59), if Shr(s, 59) == 0 then 0 else 32 - Shr(s, 59));
  }

  /** The output, digit by digit: digit i is digit k + 27 of the state, exclusive-ored with the digit 18 places
      above, where k is i plus the number in the top five digits, counted around the word. */
  lemma OutputDigits(s: Word64, i: nat)
    requires i < 32
    ensures var k := (i + s / 0x0800_0000_0000_0000) % 32;
      Bit(Output(s), i) <==> Bit(s, k + 27) != Bit(s, k + 45)
  {
    var rot := Shr(s, 59);
    TopDigits(s);
    RotationBounds(s);
    AroundWord(i, rot);
    RotatedDigits(s, i, if i + rot < 32 then i + rot else i + rot - 32);
  }

  lemma AroundWord(i: nat, rot: nat)
    requires i < 32 && rot < 32
    ensures (i + rot) % 32 == if i + rot < 32 then i + rot else i + rot - 32
  {
  }

  lemma RotatedDigits(s: Word64, i: nat, k: nat)
    requires i < 32 && Shr(s, 59) < 32 && k == if i + Shr(s, 59) < 32 then i + Shr(s, 59) else i + Shr(s, 59) - 32
    ensures Bit(Output(s), i) <==> Bit(s, k + 27) != Bit(s, k + 45)
  {
    RotationBounds(s);
    BitOfRotation(Xorshifted(s), 32, Shr(s, 59), i);
    XorshiftedDigits(s, k);
  }

  lemma XorshiftedDigits(s: Word64, k: nat)
    requires k < 32
    ensures Bit(Xorshifted(s), k) <==> Bit(s, k + 27) != Bit(s, k + 45)
  {
    BitOfLow(Shr(Xor(Shr(s, 18), s), 27), 32, k);
    BitOfShr(Xor(Shr(s, 18), s), 27, k);
    BitOfXor(Shr(s, 18), s, 27 + k);
    BitOfShr(s, 18, 27 + k);
  }

  lemma TopDigits(s: Word64)
    ensures Shr(s, 59) == s / 0x0800_0000_0000_0000
  {
    PowerValues();
    SplitJoin(s, 59);
    ShlIsProduct(Shr(s, 59), 59);
    ModUnique(s, Pow2(59), Shr(s, 59), Low(s, 59));
  }

  lemma PowerValues()
    ensures Pow2(5) == 32 && Pow2(27) == 0x800_0000 && Pow2(32) == TWO_32
    ensures Pow2(59) == 0x0800_0000_0000_0000 && Pow2(64) == TWO_64
  {
    Pow2Plus8(0); Pow2Plus8(8); Pow2Plus8(16); Pow2Plus8(24);
    Pow2Plus8(32); Pow2Plus8(40); Pow2Plus8(48); Pow2Plus8(56);
  }

  // ----- the state sequence

  lemma {:induction false} StateIsIter(state: Word64, inc: Word64, n: nat)
    ensures Iter(MULTIPLIER, inc, TWO_64, state, n) == StateAt(state, inc, n)
  {
    if n != 0 {
      StateIsIter(state, inc, n - 1);
    }
  }

  /** From any state of any valid stream, every 64-bit state is met exactly once in 2^64 steps. */
  lemma EveryStateOnce(state: Word64, inc: Word64, target: Word64) returns (n: nat)
    requires inc % 2 == 1
    ensures n < TWO_64
    ensures forall i: nat :: i < TWO_64 ==> (StateAt(state, inc, i) == target <==> i == n)
  {
    PowerValues();
    n := FullPeriod(MULTIPLIER, inc, 64, state, target);
    StateIsIter(state, inc, n);
    forall i: nat | i < TWO_64 ensures StateAt(state, inc, i) == target <==> i == n {
      StateIsIter(state, inc, i);
    }
  }

  /** The generator is back where it was exactly after a multiple of 2^64 words. */
  lemma PeriodIsExact(state: Word64, inc: Word64, n: nat)
    requires inc % 2 == 1
    ensures StateAt(state, inc, n) == state <==> n % TWO_64 == 0
  {
    PowerValues();
    ReturnsExactlyAtPeriod(MULTIPLIER, inc, 64, state, n);
    StateIsIter(state, inc, n);
  }

  /** A 32-bit draw takes two words, which halves the period: n draws return to the start exactly
      when n is a multiple of 2^63. */
  lemma DrawPeriod(state: Word64, inc: Word64, n: nat)
    requires inc % 2 == 1
    ensures StateAt(state, inc, 2 * n) == state <==> n % 0x8000_0000_0000_0000 == 0
  {
    PeriodIsExact(state, inc, 2 * n);
    DoubledModulus(2 * n, 0x8000_0000_0000_0000);
  }

  lemma {:induction false} StateFromNext(state: Word64, inc: Word64, n: nat)
    ensures StateAt(Step(state, inc), inc, n) == StateAt(state, inc, n + 1)
  {
    if n == 0 {
      assert StateAt(state, inc, 0) == state;
    } else {
      StateFromNext(state, inc, n - 1);
    }
  }

  /** Every state comes from exactly one state. */
  lemma OneStateBefore(inc: Word64, target: Word64) returns (p: Word64)
    requires inc % 2 == 1
    ensures forall q: Word64 :: Step(q, inc) == target <==> q == p
  {
    p := StateAt(target, inc, TWO_64 - 1);
    PeriodIsExact(target, inc, TWO_64);
    forall q: Word64 ensures Step(q, inc) == target ==> q == p {
      StateFromNext(q, inc, TWO_64 - 1);
      PeriodIsExact(q, inc, TWO_64);
    }
  }

  /** For each stream, seeds and states after seeding correspond one to one: different seeds start in different
      places of the sequence, and every place can be reached. */
  lemma SeedsAndStates(stream: Word64, target: Word64) returns (seed: Word64)
    ensures var inc := Selector(stream); forall s: Word64 :: Step(Plus(inc, s), inc) == target <==> s == seed
  {
    var inc := Selector(stream);
    var p := OneStateBefore(inc, target);
    seed := if inc <= p then p - inc else p - inc + TWO_64;
    forall s: Word64 ensures Step(Plus(inc, s), inc) == target <==> s == seed {
      assert Plus(inc, s) == p <==> s == seed;
    }
  }

  // ----- the output permutation

  /** Which of the 2^32 blocks a state is in: five top bits and 27 low bits. */
  predicate InBlock(s: Word64, top: nat, low: nat) {
    Shr(s, 59) == top && Low(s, 27) == low
  }

  /** The state of the block whose xorshifted word is x. */
  function StateFor(top: nat, low: nat, x: nat): nat {
    Shl(UndoXorshift(Shl(top, 32) + x, 18), 27) + low
  }

  /** Dropping the low 27 bits of the state leaves 37 bits u that undergo u ^ (u >> 18). */
  lemma XorshiftOnHighBits(s: Word64)
    ensures Shr(Xor(Shr(s, 18), s), 27) == Xorshift(Shr(s, 27), 18)
  {
    XorSymmetric(Shr(s, 18), s);
    XorshiftShr(s, 18, 27);
  }

  /** The top five bits are too high to be changed. */
  lemma XorshiftKeepsTop(u: nat)
    requires u < Pow2(37)
    ensures Shr(Xorshift(u, 18), 32) == Shr(u, 32)
  {
    var t := Shr(u, 32);
    XorshiftShr(u, 18, 32);
    ShrBound(u, 5, 32);
    PowerValues();
    assert Pow2(18) == 0x4_0000;
    ShrZero(t, 18);
    XorSymmetric(t, 0);
  }

  lemma StateForIsInBlock(top: nat, low: nat, x: nat)
    requires top < 32 && low < Pow2(27) && x < TWO_32
    ensures var s := StateFor(top, low, x);
            s < TWO_64 && InBlock(s, top, low) && Xorshifted(s) == x
  {
    var v := Shl(top, 32) + x;
    var u, s := UndoXorshift(v, 18), StateFor(top, low, x);
    PowerValues();
    JoinSplit(top, x, 32);
    ShrBound(v, 5, 32);
    UndoBound(v, 18, 37);
    XorshiftOfUndo(v, 18);
    XorshiftKeepsTop(u);
    JoinSplit(u, low, 27);
    ShrBound(s, 37, 27);
    XorshiftOnHighBits(s);
    ShrAdd(s, 27, 32);
  }

  lemma XorshiftedDetermines(s: Word64, t: Word64)
    requires Shr(s, 59) == Shr(t, 59) && Low(s, 27) == Low(t, 27) && Xorshifted(s) == Xorshifted(t)
    ensures s == t
  {
    HighBits(s);
    HighBits(t);
    XorshiftInjective(Shr(s, 27), Shr(t, 27), 18);
    SplitJoin(s, 27);
    SplitJoin(t, 27);
  }

  lemma HighBits(s: Word64)
    ensures Xorshift(Shr(s, 27), 18) == Shl(Shr(s, 59), 32) + Xorshifted(s)
  {
    var u := Shr(s, 27);
    PowerValues();
    ShrBound(s, 37, 27);
    XorshiftOnHighBits(s);
    XorshiftKeepsTop(u);
    ShrAdd(s, 27, 32);
    SplitJoin(Xorshift(u, 18), 32);
  }

  /** Within a block the output function is a bijection onto the 32-bit words. */
  lemma OutputIsBijectiveOnBlocks(top: nat, low: nat, w: Word32, s: Word64)
    requires top < 32 && low < Pow2(27)
    ensures InBlock(s, top, low) && Output(s) == w <==> s == StateFor(top, low, RotateLeft(w, 32, top))
  {
    var x := RotateLeft(w, 32, top);
    PowerValues();
    LeftBound(w, 32, top);
    StateForIsInBlock(top, low, x);
    RotationBounds(s);
    RotationInverts(Xorshifted(s), w, 32, top);
    if InBlock(s, top, low) && Xorshifted(s) == x {
      XorshiftedDetermines(s, StateFor(top, low, x));
    }
  }

  /** Over one full period every 32-bit word is output exactly once by each of the 2^32 blocks of
      states, hence exactly 2^32 times, whatever the seed and the stream. */
  lemma OutputsAreEquidistributed(state: Word64, inc: Word64, top: nat, low: nat, w: Word32) returns (n: nat)
    requires inc % 2 == 1 && top < 32 && low < Pow2(27)
    ensures n < TWO_64
    ensures forall i: nat :: i < TWO_64 ==>
              (InBlock(StateAt(state, inc, i), top, low) && Output(StateAt(state, inc, i)) == w <==> i == n)
  {
    var x := RotateLeft(w, 32, top);
    PowerValues();
    LeftBound(w, 32, top);
    StateForIsInBlock(top, low, x);
    n := EveryStateOnce(state, inc, StateFor(top, low, x));
    forall i: nat | i < TWO_64
      ensures InBlock(StateAt(state, inc, i), top, low) && Output(StateAt(state, inc, i)) == w <==> i == n
    {
      OutputIsBijectiveOnBlocks(top, low, w, StateAt(state, inc, i));
    }
  }
}
