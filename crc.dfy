/** The transfer CRC of multi-frame transfers: CRC-16/CCITT-FALSE (polynomial 0x1021,
    initial value 0xFFFF, bits processed most significant first, no final XOR). */
module Crc {

  /** The value of a fresh accumulator */
  const Initial: bv16 := 0xFFFF

  /** The generator polynomial x^16 + x^12 + x^5 + 1, without its leading term */
  const Polynomial: bv16 := 0x1021

  /** One bit of polynomial division: shift left, and subtract (XOR) the polynomial when the
      bit shifted out was set; `0 - carry` is all ones exactly when the carry is 1 */
  function Step(crc: bv16): bv16 {
    var carry := crc >> 15;
    (crc << 1) ^ (Polynomial & (0 - carry))
  }

  /** Feeds one byte to the accumulator */
  function Add(crc: bv16, byte: bv8): (next: bv16)
    ensures Unstep(Unstep(Unstep(Unstep(Unstep(Unstep(Unstep(Unstep(next)))))))) ^ ((byte as bv16) << 8) == crc
  {
    var c := crc ^ ((byte as bv16) << 8);
    var s1 := Step(c); var s2 := Step(s1); var s3 := Step(s2); var s4 := Step(s3);
    var s5 := Step(s4); var s6 := Step(s5); var s7 := Step(s6); var s8 := Step(s7);
    UnstepStep(c); UnstepStep(s1); UnstepStep(s2); UnstepStep(s3);
    UnstepStep(s4); UnstepStep(s5); UnstepStep(s6); UnstepStep(s7);
    s8
  }

  /** The accumulator after feeding bytes one at a time, first byte first, as the transmitter
      does while its iterator runs */
  function Feed(crc: bv16, bytes: seq<bv8>): bv16
    decreases |bytes|
  {
    if bytes == [] then crc else Feed(Add(crc, bytes[0]), bytes[1..])
  }

  /** Feeding one more byte after a block */
  lemma {:induction false} FeedSnoc(crc: bv16, bytes: seq<bv8>, b: bv8)
    ensures Feed(crc, bytes + [b]) == Add(Feed(crc, bytes), b)
    decreases |bytes|
  {
    if bytes == [] {
      assert bytes + [b] == [b];
    } else {
      assert (bytes + [b])[1..] == bytes[1..] + [b];
      FeedSnoc(Add(crc, bytes[0]), bytes[1..], b);
    }
  }

  /** The CRC of a block: the accumulator of a fresh TransferCrc after every byte of the block
      has been fed to it, in order */
  function CrcOf(bytes: seq<bv8>): (crc: bv16)
    ensures crc == Feed(Initial, bytes)
    decreases |bytes|
  {
    if bytes == [] then Initial
    else
      var init, last := bytes[..|bytes| - 1], bytes[|bytes| - 1];
      assert init + [last] == bytes;
      FeedSnoc(Initial, init, last);
      Add(CrcOf(init), last)
  }

  /** The two bytes a CRC value is sent as, most significant byte first */
  function CrcBytes(crc: bv16): (bytes: seq<bv8>)
    ensures |bytes| == 2 && ((bytes[0] as bv16) << 8) | (bytes[1] as bv16) == crc
  {
    [(crc >> 8) as bv8, (crc & 0xff) as bv8]
  }

  /** The standard check value of CRC-16/CCITT-FALSE: the CRC of the ASCII digits "123456789" */
  lemma CheckValue()
    ensures CrcOf([0x31, 0x32, 0x33, 0x34, 0x35, 0x36, 0x37, 0x38, 0x39]) == 0x29B1
  {
    var digits: seq<bv8> := [0x31, 0x32, 0x33, 0x34, 0x35, 0x36, 0x37, 0x38, 0x39];
    var partial: seq<bv16> := [0xC782, 0x3DBA, 0x5BCE, 0x5349, 0x4560, 0x2EF4, 0x7718, 0xA12B, 0x29B1];
    assert CrcOf(digits[..0]) == Initial;
    for i := 0 to 9
      invariant CrcOf(digits[..i]) == if i == 0 then Initial else partial[i - 1]
    {
      assert digits[..i + 1][..i] == digits[..i];
    }
    assert digits[..9] == digits;
  }

  /** Feeding a value's own high byte leaves only its low byte, shifted up */
  lemma AddOwnHighByte(crc: bv16)
    ensures Add(crc, (crc >> 8) as bv8) == crc << 8
  {
  }

  /** ... and feeding the low byte after that clears the accumulator */
  lemma AddOwnLowByte(crc: bv16)
    ensures Add(crc << 8, (crc & 0xff) as bv8) == 0
  {
  }

  /** The CRC of a block extended by one byte */
  lemma CrcOfSnoc(bytes: seq<bv8>, b: bv8)
    ensures CrcOf(bytes + [b]) == Add(CrcOf(bytes), b)
  {
    assert (bytes + [b])[..|bytes|] == bytes;
  }

  /** A receiver that runs the CRC over a block followed by its CRC bytes gets zero */
  lemma ResidueIsZero(bytes: seq<bv8>)
    ensures CrcOf(bytes + CrcBytes(CrcOf(bytes))) == 0
  {
    var crc := CrcOf(bytes);
    var high, low := (crc >> 8) as bv8, (crc & 0xff) as bv8;
    CrcOfSnoc(bytes, high);
    AddOwnHighByte(crc);
    CrcOfSnoc(bytes + [high], low);
    AddOwnLowByte(crc);
    assert bytes + CrcBytes(crc) == bytes + [high] + [low];
  }

  /** k steps in a row */
  function Steps(c: bv16, k: nat): bv16
    decreases k
  {
    if k == 0 then c else Step(Steps(c, k - 1))
  }

  lemma EightSteps(c: bv16, b: bv8)
    ensures Add(c, b) == Steps(c ^ ((b as bv16) << 8), 8)
  {
  }

  /** Step is undone by reading the carry back from the lowest bit (the polynomial's
      lowest bit is set, and the shift leaves that bit clear) */
  function Unstep(crc: bv16): bv16 {
    var carry := crc & 1;
    ((crc ^ (Polynomial & (0 - carry))) >> 1) | (carry << 15)
  }

  lemma UnstepStep(c: bv16)
    ensures Unstep(Step(c)) == c
  {
  }

  lemma StepInjective(a: bv16, b: bv16)
    requires a != b
    ensures Step(a) != Step(b)
  {
    UnstepStep(a);
    UnstepStep(b);
  }

  lemma {:induction false} StepsInjective(a: bv16, b: bv16, k: nat)
    requires a != b
    ensures Steps(a, k) != Steps(b, k)
    decreases k
  {
    if k > 0 {
      StepsInjective(a, b, k - 1);
      StepInjective(Steps(a, k - 1), Steps(b, k - 1));
    }
  }

  /** For a fixed byte, different accumulators stay different */
  lemma AddInjective(c1: bv16, c2: bv16, b: bv8)
    requires c1 != c2
    ensures Add(c1, b) != Add(c2, b)
  {
    EightSteps(c1, b);
    EightSteps(c2, b);
    StepsInjective(c1 ^ ((b as bv16) << 8), c2 ^ ((b as bv16) << 8), 8);
  }

  /** For a fixed accumulator, different bytes give different results */
  lemma AddInjectiveInByte(c: bv16, b1: bv8, b2: bv8)
    requires b1 != b2
    ensures Add(c, b1) != Add(c, b2)
  {
    EightSteps(c, b1);
    EightSteps(c, b2);
    StepsInjective(c ^ ((b1 as bv16) << 8), c ^ ((b2 as bv16) << 8), 8);
  }

  /** Changing any one byte of a block changes its CRC */
  lemma {:induction false} DetectsOneByteChange(s: seq<bv8>, t: seq<bv8>, k: nat)
    requires |s| == |t| && k < |s| && s[k] != t[k]
    requires forall j :: 0 <= j < |s| && j != k ==> s[j] == t[j]
    ensures CrcOf(s) != CrcOf(t)
    decreases |s|
  {
    var n := |s| - 1;
    var s', t' := s[..n], t[..n];
    if k == n {
      assert s' == t';
      AddInjectiveInByte(CrcOf(s'), s[n], t[n]);
    } else {
      DetectsOneByteChange(s', t', k);
      AddInjective(CrcOf(s'), CrcOf(t'), s[n]);
    }
  }
}
