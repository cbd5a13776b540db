/** SipHash with a buffered context (openbsd/siphash.c): any split of a message into
    updates gives the hash of the whole message. */
module SipHash {
  const WRAP := 0x1_0000_0000

  type Octets = seq<bv8>

  datatype State = State(v0: bv64, v1: bv64, v2: bv64, v3: bv64)

  // ---- The hash as a function of the whole message ----

  function Round(s: State): State {
    var a0 := s.v0 + s.v1;
    var a2 := s.v2 + s.v3;
    var a1 := s.v1.RotateLeft(13) ^ a0;
    var a3 := s.v3.RotateLeft(16) ^ a2;
    var c0 := a0.RotateLeft(32) + a3;
    var c2 := a2 + a1;
    var c1 := a1.RotateLeft(17) ^ c2;
    var c3 := a3.RotateLeft(21) ^ c0;
    State(c0, c1, c2.RotateLeft(32), c3)
  }

  function Rounds(s: State, n: nat): State {
    if n == 0 then s else Round(Rounds(s, n - 1))
  }

  /** Eight octets, the least significant first. */
  function Word(b: Octets): bv64
    requires |b| == 8
  {
    b[0] as bv64 | (b[1] as bv64 << 8) | (b[2] as bv64 << 16) | (b[3] as bv64 << 24)
    | (b[4] as bv64 << 32) | (b[5] as bv64 << 40) | (b[6] as bv64 << 48) | (b[7] as bv64 << 56)
  }

  function MixIn(s: State, m: bv64): State {
    s.(v3 := s.v3 ^ m)
  }

  function MixOut(s: State, m: bv64): State {
    s.(v0 := s.v0 ^ m)
  }

  /** SipHash_CRounds with the word m. */
  function Compress(s: State, rc: nat, m: bv64): State {
    MixOut(Rounds(MixIn(s, m), rc), m)
  }

  function Start(k0: bv64, k1: bv64): State {
    State(0x736f6d6570736575 ^ k0, 0x646f72616e646f6d ^ k1, 0x6c7967656e657261 ^ k0, 0x7465646279746573 ^ k1)
  }

  /** The state after all whole blocks of eight octets. */
  ghost function Blocks(s: State, rc: nat, m: Octets): State
    decreases |m|
  {
    if |m| < 8 then s else Blocks(Compress(s, rc, Word(m[..8])), rc, m[8..])
  }

  ghost function Whole(m: Octets): Octets {
    m[..|m| - |m| % 8]
  }

  function LengthOctet(n: nat): bv8 {
    (n % 256) as bv8
  }

  /** The last block: what is left of the message, zero octets, and the length octet. */
  ghost function LastBlock(m: Octets): (b: Octets)
    ensures |b| == 8
  {
    Tail(m) + seq(7 - |m| % 8, i => 0) + [LengthOctet(|m|)]
  }

  ghost function Tail(m: Octets): (t: Octets)
    ensures |t| == |m| % 8
  {
    m[|m| - |m| % 8..]
  }

  function MixEnd(s: State): State {
    s.(v2 := s.v2 ^ 0xff)
  }

  function Fold(s: State): bv64 {
    (s.v0 ^ s.v1) ^ (s.v2 ^ s.v3)
  }

  function Finish(s: State, rf: nat): bv64 {
    Fold(Rounds(MixEnd(s), rf))
  }

  /** The one-shot definition. */
  ghost function Hash(k0: bv64, k1: bv64, rc: nat, rf: nat, m: Octets): bv64 {
    Finish(Compress(Blocks(Start(k0, k1), rc, m), rc, Word(LastBlock(m))), rf)
  }

  lemma {:induction false} BlocksConcat(s: State, rc: nat, a: Octets, b: Octets)
    requires |a| % 8 == 0
    ensures Blocks(s, rc, a + b) == Blocks(Blocks(s, rc, a), rc, b)
    decreases |a|
  {
    hide Compress, Word;
    if |a| == 0 {
      assert a + b == b;
    } else {
      assert (a + b)[..8] == a[..8] && (a + b)[8..] == a[8..] + b;
      BlocksConcat(Compress(s, rc, Word(a[..8])), rc, a[8..], b);
    }
  }

  /** One more whole block. */
  lemma OneBlock(s: State, rc: nat, a: Octets, w: Octets)
    requires |a| % 8 == 0 && |w| == 8
    ensures Blocks(s, rc, a + w) == Compress(Blocks(s, rc, a), rc, Word(w))
  {
    hide Compress, Word;
    BlocksConcat(s, rc, a, w);
    assert w[..8] == w && w[8..] == [];
  }

  lemma NoBlock(s: State, rc: nat, t: Octets)
    requires |t| < 8
    ensures Blocks(s, rc, t) == s
  {
  }

  /** Octets that do not fill a block leave the state alone. */
  lemma PartBlock(s: State, rc: nat, a: Octets, t: Octets)
    requires |a| % 8 == 0 && |t| < 8
    ensures Blocks(s, rc, a + t) == Blocks(s, rc, a) && Tail(a + t) == t
  {
    hide Blocks;
    BlocksConcat(s, rc, a, t);
    NoBlock(Blocks(s, rc, a), rc, t);
    assert (a + t)[|a|..] == t;
  }

  // ---- A published value ----

  /** Rounds in a row. */
  lemma TwoRounds(a: State, b: State, c: State)
    requires Round(a) == b && Round(b) == c
    ensures Rounds(a, 2) == c
  {
    hide Round;
    assert Rounds(a, 1) == Round(Rounds(a, 0));
  }

  lemma FourRounds(a: State, c: State, e: State)
    requires Rounds(a, 2) == c && Rounds(c, 2) == e
    ensures Rounds(a, 4) == e
  {
    hide Round;
    assert Rounds(a, 3) == Round(c) && Rounds(c, 1) == Round(c);
  }

  lemma FirstBlock()
    ensures Compress(State(0x7469686173716475, 0x6b617f6d656e6665, 0x6b7f62616d677361, 0x7b6b696e727e6c7b),
                     2, 0x0706050403020100)
            == State(0x4a017198de0a59e0, 0x0d52f6f62a4f59a4, 0x634cb3577b01fd3d, 0xa5224d6f55c7d9c8)
  {
    TwoRounds(State(0x7469686173716475, 0x6b617f6d656e6665, 0x6b7f62616d677361, 0x7c6d6c6a717c6d7b),
              State(0x64668a929363847f, 0x4ed232083d9aa8dc, 0xf2f74892d8141a2e, 0x9290f9810552f4a8),
              State(0x4d07749cdd0858e0, 0x0d52f6f62a4f59a4, 0x634cb3577b01fd3d, 0xa5224d6f55c7d9c8));
  }

  lemma SecondBlock()
    ensures Compress(State(0x4a017198de0a59e0, 0x0d52f6f62a4f59a4, 0x634cb3577b01fd3d, 0xa5224d6f55c7d9c8),
                     2, 0x0f0e0d0c0b0a0908)
            == State(0x3c85b3ab6f55be51, 0x414fc3fb98efe374, 0xccf13ea527b9f4bd, 0x5293f5da84008f82)
  {
    TwoRounds(State(0x4a017198de0a59e0, 0x0d52f6f62a4f59a4, 0x634cb3577b01fd3d, 0xaa2c40635ecdd0c0),
              State(0x557560fb6063d060, 0x4c8e675bd961133e, 0xbd3d002b1703a181, 0xfb9441179a4a7315),
              State(0x338bbea7645fb759, 0x414fc3fb98efe374, 0xccf13ea527b9f4bd, 0x5293f5da84008f82));
  }

  lemma LastRounds()
    ensures Finish(State(0x3c85b3ab6f55be51, 0x414fc3fb98efe374, 0xccf13ea527b9f4bd, 0x5293f5da84008f82), 4)
            == 0xa129ca6149be45e5
  {
    var a, c := State(0x3c85b3ab6f55be51, 0x414fc3fb98efe374, 0xccf13ea527b9f442, 0x5293f5da84008f82),
      State(0xb6c3fbdecc2ae4b4, 0x1638c86adc6b3cf0, 0x28b8b6ab62553d46, 0xc9465e86ec43eb95);
    var e := State(0xf6bcd53893fecff1, 0x54b9964c7ea0d937, 0x1b38329c099bb55a, 0x1814bb89ad7be679);
    TwoRounds(a, State(0xf2a55244a20e48fe, 0xac5ad16ccc3ca6e4, 0x9fe5adb0a52f393a, 0xfd41d55e88f30308), c);
    TwoRounds(c, State(0x58101b167209a5e6, 0xf8792ae75b66e7dd, 0x1da14c3ec7f0b4f7, 0x7624ba8a41bc4ad9), e);
    FourRounds(a, c, e);
  }

  /** SipHash-2-4 of the octets 0 to 14 under the key of the octets 0 to 15. */
  lemma KnownAnswer(m: Octets)
    requires m == [0, 1, 2, 3, 4, 5, 6, 7, 8, 9, 10, 11, 12, 13, 14]
    ensures Hash(0x0706050403020100, 0x0f0e0d0c0b0a0908, 2, 4, m) == 0xa129ca6149be45e5
  {
    hide Compress, Round, Finish, Word;
    var k0: bv64, k1: bv64 := 0x0706050403020100, 0x0f0e0d0c0b0a0908;
    KnownWords(m);
    FirstBlock();
    SecondBlock();
    LastRounds();
    assert Start(k0, k1) == State(0x7469686173716475, 0x6b617f6d656e6665, 0x6b7f62616d677361, 0x7b6b696e727e6c7b);
    assert Blocks(Start(k0, k1), 2, m) == Compress(Start(k0, k1), 2, Word(m[..8])) by {
      assert |m[8..]| < 8;
    }
  }

  lemma KnownWords(m: Octets)
    requires m == [0, 1, 2, 3, 4, 5, 6, 7, 8, 9, 10, 11, 12, 13, 14]
    ensures Word(m[..8]) == 0x0706050403020100 && Word(LastBlock(m)) == 0x0f0e0d0c0b0a0908
  {
    assert LastBlock(m) == m[8..] + [LengthOctet(15)];
  }

  lemma EmptyBlock()
    ensures Compress(State(0x7469686173716475, 0x6b617f6d656e6665, 0x6b7f62616d677361, 0x7b6b696e727e6c7b),
                     2, 0x0000000000000000)
            == State(0x75126fd44af190b6, 0x084235164f06142b, 0x37b04f9f8026831d, 0x1b4678cde8253231)
  {
    TwoRounds(State(0x7469686173716475, 0x6b617f6d656e6665, 0x6b7f62616d677361, 0x7b6b696e727e6c7b),
              State(0x6864848c93698c85, 0x41d43f143c94a7dc, 0xf3f94792d7121732, 0x5e52f75805987c12),
              State(0x75126fd44af190b6, 0x084235164f06142b, 0x37b04f9f8026831d, 0x1b4678cde8253231));
  }

  lemma EmptyRounds()
    ensures Finish(State(0x75126fd44af190b6, 0x084235164f06142b, 0x37b04f9f8026831d, 0x1b4678cde8253231), 4)
            == 0x726fdb47dd0e0e31
  {
    var a, c := State(0x75126fd44af190b6, 0x084235164f06142b, 0x37b04f9f802683e2, 0x1b4678cde8253231),
      State(0x3abfd9623238d0a7, 0xb9354b5807b0cd1e, 0xae109fa2ba56082a, 0x58dcf8f2cf5b8028);
    var e := State(0xe738d0dfdc9b2453, 0x214ac5771e0c4cd2, 0xe2ea71f68a57ef6d, 0x56f7bf1995ce89dd);
    TwoRounds(a, State(0xc432c529d7cf523f, 0x54f98392486c0c10, 0xc3be7bfc8eed3577, 0xcd398a7c7d6a155b), c);
    TwoRounds(c, State(0x3808f593fd8ef548, 0x2913fc753c3d6609, 0xa9fbd335618bbce1, 0xc1c9c6a9ec5136a2), e);
    FourRounds(a, c, e);
  }

  /** SipHash-2-4 of no octets: the only block is padding and the length octet. */
  lemma KnownEmpty()
    ensures Hash(0x0706050403020100, 0x0f0e0d0c0b0a0908, 2, 4, []) == 0x726fdb47dd0e0e31
  {
    hide Compress, Round, Finish, Word;
    var k0: bv64, k1: bv64 := 0x0706050403020100, 0x0f0e0d0c0b0a0908;
    EmptyWord();
    EmptyBlock();
    EmptyRounds();
    assert Start(k0, k1) == State(0x7469686173716475, 0x6b617f6d656e6665, 0x6b7f62616d677361, 0x7b6b696e727e6c7b);
  }

  lemma EmptyWord()
    ensures Word(LastBlock([])) == 0
  {
    assert LastBlock([]) == [0, 0, 0, 0, 0, 0, 0, 0];
  }

  lemma ThirdBlock()
    ensures Compress(State(0x3c85b3ab6f55be51, 0x414fc3fb98efe374, 0xccf13ea527b9f4bd, 0x5293f5da84008f82),
                     2, 0x1400000013121110)
            == State(0xee742d7da4b2425f, 0x4e53c5838b74fbf1, 0x6886b1aa5b2696de, 0xcb13397a21af316a)
  {
    TwoRounds(State(0x3c85b3ab6f55be51, 0x414fc3fb98efe374, 0xccf13ea527b9f4bd, 0x4693f5da97129e92),
              State(0xeea545329e344d83, 0x905ad16ce12eb66f, 0xb2f7bd3b992f393a, 0x83014ee825a88677),
              State(0xfa742d7db7a0534f, 0x4e53c5838b74fbf1, 0x6886b1aa5b2696de, 0xcb13397a21af316a));
  }

  lemma LongerRounds()
    ensures Finish(State(0xee742d7da4b2425f, 0x4e53c5838b74fbf1, 0x6886b1aa5b2696de, 0xcb13397a21af316a), 4)
            == 0xbed65cf21aa2ee98
  {
    var a, c := State(0xee742d7da4b2425f, 0x4e53c5838b74fbf1, 0x6886b1aa5b269621, 0xcb13397a21af316a),
      State(0xb74cdf3bea52b717, 0xf08a14726905c915, 0x58f12a6e084f9ac2, 0x4c4a901488978267);
    var e := State(0x693e826c4042f053, 0x7abfd8e1e422e97a, 0xb4118221fb34fe77, 0x1946845e45f609c6);
    TwoRounds(a, State(0x3b0b08db8a86ff99, 0x7cce3326031a57ca, 0x2c2edf2578116d94, 0x6a62bf3a1987a3e0), c);
    TwoRounds(c, State(0x8887b241ba574511, 0xf789ade5071a91d7, 0x7b615b668a947911, 0xca25e24b9631e0f7), e);
    FourRounds(a, c, e);
  }

  /** SipHash-2-4 of the octets 0 to 19: two whole blocks and half of one. */
  lemma KnownLonger(m: Octets)
    requires m == [0, 1, 2, 3, 4, 5, 6, 7, 8, 9, 10, 11, 12, 13, 14, 15, 16, 17, 18, 19]
    ensures Hash(0x0706050403020100, 0x0f0e0d0c0b0a0908, 2, 4, m) == 0xbed65cf21aa2ee98
  {
    hide Compress, Round, Finish, Word, Blocks;
    var k0: bv64, k1: bv64 := 0x0706050403020100, 0x0f0e0d0c0b0a0908;
    LongerWords(m);
    FirstBlock();
    SecondBlock();
    ThirdBlock();
    LongerRounds();
    var s := Start(k0, k1);
    assert s == State(0x7469686173716475, 0x6b617f6d656e6665, 0x6b7f62616d677361, 0x7b6b696e727e6c7b);
    BlocksNext(s, 2, m);
    BlocksNext(Compress(s, 2, Word(m[..8])), 2, m[8..]);
    NoBlock(Compress(Compress(s, 2, Word(m[..8])), 2, Word(m[8..][..8])), 2, m[8..][8..]);
  }

  lemma BlocksNext(s: State, rc: nat, m: Octets)
    requires |m| >= 8
    ensures Blocks(s, rc, m) == Blocks(Compress(s, rc, Word(m[..8])), rc, m[8..])
  {
  }

  lemma LongerWords(m: Octets)
    requires m == [0, 1, 2, 3, 4, 5, 6, 7, 8, 9, 10, 11, 12, 13, 14, 15, 16, 17, 18, 19]
    ensures Word(m[..8]) == 0x0706050403020100 && Word(m[8..][..8]) == 0x0f0e0d0c0b0a0908
    ensures Word(LastBlock(m)) == 0x1400000013121110
  {
    hide Word;
    assert m[..8] == [0, 1, 2, 3, 4, 5, 6, 7] && m[8..][..8] == [8, 9, 10, 11, 12, 13, 14, 15];
    assert LastBlock(m) == [16, 17, 18, 19, 0, 0, 0, 20];
    LongerConstants();
  }

  lemma LongerConstants()
    ensures Word([0, 1, 2, 3, 4, 5, 6, 7]) == 0x0706050403020100
    ensures Word([8, 9, 10, 11, 12, 13, 14, 15]) == 0x0f0e0d0c0b0a0908
    ensures Word([16, 17, 18, 19, 0, 0, 0, 20]) == 0x1400000013121110
  {
  }

  // ---- Words as numbers ----

  /** The number that octets write, the least significant first. */
  ghost function Num(b: Octets): nat {
    if |b| == 0 then 0 else b[0] as nat + 256 * Num(b[1..])
  }

  /** A number moved up by n octets. */
  ghost function Shifted(n: nat, x: nat): nat {
    if n == 0 then x else 256 * Shifted(n - 1, x)
  }

  /** A word from its upper octets down. */
  ghost function Upwards(b: Octets): bv64 {
    if |b| == 0 then 0 else Joined8(Upwards(b[1..]), b[0])
  }

  function Joined8(hi: bv64, lo: bv8): bv64 {
    (hi << 8) | lo as bv64
  }

  lemma ShiftNum(hi: bv64, lo: bv8)
    requires hi < 0x0100_0000_0000_0000
    ensures ((hi << 8) | lo as bv64) as nat == 256 * (hi as nat) + lo as nat
  {
  }

  lemma Joined8Num(hi: bv64, lo: bv8)
    requires hi < 0x0100_0000_0000_0000
    ensures Joined8(hi, lo) as nat == 256 * (hi as nat) + lo as nat
  {
    ShiftNum(hi, lo);
  }

  lemma SmallWord(hi: bv64)
    requires hi as nat < 0x0100_0000_0000_0000
    ensures hi < 0x0100_0000_0000_0000
  {
  }

  lemma {:induction false} NumBelow(b: Octets)
    ensures Num(b) < Shifted(|b|, 1)
    decreases |b|
  {
    if |b| > 0 {
      NumBelow(b[1..]);
    }
  }

  lemma {:induction false} ShiftedUp(n: nat, k: nat)
    requires n <= k
    ensures Shifted(n, 1) <= Shifted(k, 1)
    decreases k
  {
    if n < k {
      ShiftedUp(n, k - 1);
    }
  }

  lemma {:induction false} UpwardsNum(b: Octets)
    requires |b| <= 8
    ensures Upwards(b) as nat == Num(b)
    decreases |b|
  {
    hide Joined8;
    if |b| > 0 {
      UpwardsNum(b[1..]);
      NumBelow(b[1..]);
      ShiftedUp(|b| - 1, 7);
      SevenUp(1);
      SmallWord(Upwards(b[1..]));
      Joined8Num(Upwards(b[1..]), b[0]);
    }
  }

  lemma SevenUp(x: nat)
    ensures Shifted(7, x) == 0x0100_0000_0000_0000 * x
  {
    assert Shifted(1, x) == 0x0100 * x;
    assert Shifted(2, x) == 0x01_0000 * x;
    assert Shifted(3, x) == 0x0100_0000 * x;
    assert Shifted(4, x) == 0x01_0000_0000 * x;
    assert Shifted(5, x) == 0x0100_0000_0000 * x;
    assert Shifted(6, x) == 0x01_0000_0000_0000 * x;
  }

  lemma WordJoined(a: bv8, b: bv8, c: bv8, d: bv8, e: bv8, f: bv8, g: bv8, h: bv8)
    ensures Word([a, b, c, d, e, f, g, h])
            == Joined8(Joined8(Joined8(Joined8(Joined8(Joined8(Joined8(Joined8(0, h), g), f), e), d), c), b), a)
  {
  }

  lemma WordNum(b: Octets)
    requires |b| == 8
    ensures Word(b) as nat == Num(b)
  {
    hide Word, Joined8, Num;
    WordJoined(b[0], b[1], b[2], b[3], b[4], b[5], b[6], b[7]);
    assert b == [b[0], b[1], b[2], b[3], b[4], b[5], b[6], b[7]];
    UpwardsWhole(b);
    UpwardsNum(b);
  }

  lemma UpwardsWhole(b: Octets)
    requires |b| == 8
    ensures Upwards(b) == Joined8(Joined8(Joined8(Joined8(Joined8(Joined8(Joined8(Joined8(0,
                            b[7]), b[6]), b[5]), b[4]), b[3]), b[2]), b[1]), b[0])
  {
    hide Joined8;
    assert Upwards(b[8..]) == 0;
    forall i | 0 <= i < 8
      ensures Upwards(b[i..]) == Joined8(Upwards(b[i + 1..]), b[i])
    {
      assert b[i..][0] == b[i] && b[i..][1..] == b[i + 1..];
    }
    assert b[0..] == b;
  }

  /** Octets, zeros and a last octet. */
  lemma {:induction false} PaddedNum(t: Octets, k: nat, x: bv8)
    ensures Num(t + seq(k, i => 0) + [x]) == Num(t) + Shifted(|t| + k, x as nat)
    decreases |t|, k
  {
    var z: Octets := seq(k, i => 0);
    var b := t + z + [x];
    if |t| > 0 {
      assert b[0] == t[0] && b[1..] == t[1..] + z + [x];
      PaddedNum(t[1..], k, x);
    } else if k > 0 {
      assert b[0] == 0 && b[1..] == t + seq(k - 1, i => 0) + [x];
      PaddedNum(t, k - 1, x);
    } else {
      assert b == [x] && b[1..] == [];
    }
  }

  lemma BitNum(v: bv8)
    requires v < 128
    ensures (v << 1) as nat == 2 * (v as nat) && ((v << 1) | 1) as nat == 2 * (v as nat) + 1
  {
  }

  /** Every number below 256 is that of an octet. */
  lemma {:induction false} OctetOf(x: nat) returns (v: bv8)
    requires x < 256
    ensures v as nat == x
    decreases x
  {
    v := 0;
    if x > 0 {
      var u := OctetOf(x / 2);
      BitNum(u);
      v := if x % 2 == 0 then u << 1 else (u << 1) | 1;
    }
  }

  lemma OctetBack(v: bv8)
    ensures (v as nat) as bv8 == v
  {
  }

  lemma OctetNum(x: nat)
    requires x < 256
    ensures (x as bv8) as nat == x
  {
    var v := OctetOf(x);
    OctetBack(v);
  }

  /** The last word: the octets of the unfinished block, and the length modulo 256 as the
      top octet. */
  lemma LastWord(m: Octets)
    ensures Word(LastBlock(m)) as nat
            == Num(m[|m| - |m| % 8..]) + 0x0100_0000_0000_0000 * (|m| % 256)
  {
    hide Word, Num, Shifted;
    var t, k := m[|m| - |m| % 8..], 7 - |m| % 8;
    WordNum(LastBlock(m));
    PaddedNum(t, k, LengthOctet(|m|));
    OctetNum(|m| % 256);
    SevenUp(|m| % 256);
  }

  // ---- The context ----

  class Context {
    var v: State
    const buf: array<bv8>
    var bytes: nat
    ghost const key: State
    const rc: nat
    ghost var msg: Octets

    /** After the updates with msg: whole blocks are absorbed, the rest waits at the
        front of the buffer, behind it are stale octets, and the count has wrapped. */
    ghost predicate Valid()
      reads this, buf
    {
      bytes == |msg| % WRAP && Absorbed(msg)
    }

    ghost predicate Absorbed(m: Octets)
      reads this, buf
    {
      buf.Length == 8 && v == Blocks(key, rc, m) && buf[..|m| % 8] == Tail(m)
    }

    /** SipHash_Init. */
    constructor (k0: bv64, k1: bv64, rounds: nat)
      ensures Valid() && msg == [] && key == Start(k0, k1) && rc == rounds && fresh(buf)
    {
      v, key := Start(k0, k1), Start(k0, k1);
      buf := new bv8[8](i => 0);
      bytes, rc, msg := 0, rounds, [];
    }

    /** SipHash_Rounds. */
    method DoRounds(rounds: nat)
      modifies this`v
      ensures v == Rounds(old(v), rounds)
    {
      hide Round;
      var n := rounds;
      while n > 0
        invariant 0 <= n <= rounds && v == Rounds(old(v), rounds - n)
      {
        v := Round(v);
        n := n - 1;
      }
    }

    /** SipHash_CRounds. */
    method DoCompress()
      requires buf.Length == 8
      modifies this`v
      ensures v == Compress(old(v), rc, Word(buf[..]))
    {
      hide Rounds, Word, MixIn, MixOut;
      var m := Word(buf[..]);
      v := MixIn(v, m);
      DoRounds(rc);
      v := MixOut(v, m);
    }

    /** memcpy into the buffer. */
    method Fill(at: nat, b: Octets)
      requires buf.Length == 8 && at + |b| <= 8
      modifies buf
      ensures buf[..at] == old(buf[..at]) && buf[at..at + |b|] == b
    {
      var i := 0;
      while i < |b|
        invariant 0 <= i <= |b|
        invariant forall k :: 0 <= k < at ==> buf[k] == old(buf[k])
        invariant forall k :: at <= k < at + i ==> buf[k] == b[k - at]
      {
        buf[at + i] := b[i];
        i := i + 1;
      }
    }

    /** Fills up the block that waits in the buffer and absorbs it. */
    method TopUp(part: Octets, ghost whole: Octets, ghost tail: Octets)
      requires buf.Length == 8 && |tail| + |part| == 8 && buf[..|tail|] == tail
      requires |whole| % 8 == 0 && v == Blocks(key, rc, whole)
      modifies this`v, buf
      ensures v == Blocks(key, rc, whole + (tail + part))
    {
      hide Blocks, Compress, Word;
      Fill(8 - |part|, part);
      assert buf[..] == buf[..|tail|] + buf[|tail|..8];
      DoCompress();
      OneBlock(key, rc, whole, buf[..]);
    }

    /** Absorbs whole blocks straight from the source. */
    method AbsorbBlocks(src: Octets, start: nat, ghost whole: Octets) returns (ptr: nat)
      requires buf.Length == 8 && start <= |src| && |whole| % 8 == 0 && v == Blocks(key, rc, whole)
      modifies this`v, buf
      ensures start <= ptr <= |src| && |src| - ptr < 8 && (ptr - start) % 8 == 0
      ensures v == Blocks(key, rc, whole + src[start..ptr])
      ensures ptr == start ==> buf[..] == old(buf[..])
    {
      hide Blocks, Compress, Word;
      ptr := start;
      assert whole + src[start..ptr] == whole;
      while |src| - ptr >= 8
        invariant start <= ptr <= |src| && (ptr - start) % 8 == 0
        invariant v == Blocks(key, rc, whole + src[start..ptr])
        invariant ptr == start ==> buf[..] == old(buf[..])
      {
        Fill(0, src[ptr..ptr + 8]);
        assert buf[..] == buf[0..0 + 8] == src[ptr..ptr + 8];
        DoCompress();
        OneBlock(key, rc, whole + src[start..ptr], buf[..]);
        assert whole + src[start..ptr + 8] == whole + src[start..ptr] + src[ptr..ptr + 8];
        ptr := ptr + 8;
      }
    }

    /** From a block boundary on: whole blocks are absorbed, the rest is kept. */
    method AbsorbRest(src: Octets, start: nat, ghost whole: Octets)
      requires buf.Length == 8 && start <= |src| && |whole| % 8 == 0 && v == Blocks(key, rc, whole)
      modifies this`v, buf
      ensures Absorbed(whole + src[start..])
    {
      hide Blocks;
      var end := AbsorbBlocks(src, start, whole);
      assert whole + src[start..] == whole + src[start..end] + src[end..];
      PartBlock(key, rc, whole + src[start..end], src[end..]);
      if |src| - end > 0 {
        Fill(0, src[end..]);
        assert buf[..|src| - end] == buf[0..0 + (|src| - end)];
      }
    }

    /** The octets in the buffer before an update, whose length is counted modulo 2^32. */
    method Advance(len: nat, ghost n: nat) returns (used: nat)
      requires bytes == n % WRAP
      modifies this`bytes
      ensures used == n % 8 < 8 && bytes == (n + len) % WRAP
    {
      CountWraps(n, len);
      used := bytes % 8;
      bytes := (bytes + len) % WRAP;
    }

    /** SipHash_Update. */
    method Update(src: Octets)
      requires Valid()
      modifies this, buf
      ensures Valid() && msg == old(msg) + src
    {
      hide Blocks, Absorbed, Whole, Tail;
      if |src| == 0 {
        assert msg + src == msg;
        return;
      }
      ghost var whole, tail := Whole(msg), Tail(msg);
      Waiting();
      var used := Advance(|src|, |msg|);
      Rejoin(whole, tail, src, if used > 0 && |src| >= 8 - used then 8 - used else 0);
      msg := msg + src;
      if used > 0 {
        var left := 8 - used;
        if |src| >= left {
          TopUp(src[..left], whole, tail);
          AbsorbRest(src, left, whole + (tail + src[..left]));
        } else {
          Keep(src, used, whole, tail);
        }
      } else {
        AbsorbRest(src, 0, whole);
      }
    }

    lemma Waiting()
      requires Absorbed(msg)
      ensures v == Blocks(key, rc, Whole(msg)) && buf[..|msg| % 8] == Tail(msg) && msg == Whole(msg) + Tail(msg)
      ensures |Whole(msg)| % 8 == 0 && |Tail(msg)| == |msg| % 8 && buf.Length == 8
    {
      hide Blocks, Compress, Word;
      assert msg == Whole(msg) + Tail(msg);
      PartBlock(key, rc, Whole(msg), Tail(msg));
    }

    /** The source does not fill the block that waits. */
    method Keep(src: Octets, used: nat, ghost whole: Octets, ghost tail: Octets)
      requires buf.Length == 8 && |tail| + |src| < 8 && buf[..|tail|] == tail && |tail| == used
      requires |whole| % 8 == 0 && v == Blocks(key, rc, whole)
      modifies buf
      ensures Absorbed(whole + (tail + src))
    {
      hide Blocks;
      Fill(used, src);
      assert buf[..used + |src|] == buf[..used] + buf[used..used + |src|];
      PartBlock(key, rc, whole, tail + src);
    }

    /** SipHash_End. The context is cleared. */
    method End(rf: nat) returns (r: bv64)
      requires Valid()
      modifies this, buf
      ensures r == Finish(Compress(Blocks(key, rc, old(msg)), rc, Word(LastBlock(old(msg)))), rf)
    {
      hide Blocks, Compress, Word, Rounds, MixEnd, Fold;
      var used := bytes % 8;
      var left := 8 - used;
      CountWraps(|msg|, 0);
      assert LengthOctet(bytes) == LengthOctet(|msg|);
      Fill(used, seq(left - 1, i => 0));
      assert buf[..7] == buf[..used] + buf[used..7];
      ghost var front := buf[..7];
      buf[7] := LengthOctet(bytes);
      assert buf[..] == front + [LengthOctet(|msg|)] == LastBlock(msg);
      DoCompress();
      v := MixEnd(v);
      DoRounds(rf);
      r := Fold(v);
      v := State(0, 0, 0, 0);
      bytes := 0;
    }
  }

  lemma {:induction false} CountWraps(n: nat, len: nat)
    ensures (n % WRAP + len) % WRAP == (n + len) % WRAP
    ensures n % WRAP % 8 == n % 8 && n % WRAP % 256 == n % 256
    decreases n
  {
    if n >= WRAP {
      CountWraps(n - WRAP, len);
      OneWrap(n - WRAP);
      OneWrap(n - WRAP + len);
    }
  }

  lemma OneWrap(n: nat)
    ensures (n + WRAP) % WRAP == n % WRAP && (n + WRAP) % 8 == n % 8 && (n + WRAP) % 256 == n % 256
  {
  }

  lemma Rejoin(w: Octets, t: Octets, s: Octets, k: nat)
    requires k <= |s|
    ensures w + (t + s[..k]) + s[k..] == w + t + s && w + (t + s) == w + t + s
    ensures |t| == 0 ==> w + s[0..] == w + t + s
  {
    assert s == s[..k] + s[k..] && s[0..] == s;
  }

  ghost function Joined(parts: seq<Octets>): Octets {
    if |parts| == 0 then [] else Joined(parts[..|parts| - 1]) + parts[|parts| - 1]
  }

  /** However a message is cut into updates, the result is the hash of the message. */
  method HashParts(k0: bv64, k1: bv64, rc: nat, rf: nat, parts: seq<Octets>) returns (r: bv64)
    ensures r == Hash(k0, k1, rc, rf, Joined(parts))
  {
    hide Blocks, Compress, Word, Rounds, Start;
    var ctx := new Context(k0, k1, rc);
    var i := 0;
    while i < |parts|
      invariant 0 <= i <= |parts| && ctx.Valid() && fresh(ctx) && fresh(ctx.buf)
      invariant ctx.msg == Joined(parts[..i])
    {
      ctx.Update(parts[i]);
      assert parts[..i + 1][..i] == parts[..i];
      i := i + 1;
    }
    assert parts[..i] == parts;
    r := ctx.End(rf);
  }
}
