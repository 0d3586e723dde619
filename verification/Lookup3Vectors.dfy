/** Known answers of lookup3 (driver5 in lookup3.c), which fix the hash from outside. */
module Lookup3Vectors {
  import opened Lookup3

  /** "Four score and seven years ago" */
  const FOUR_SCORE: seq<Byte> := [
    70, 111, 117, 114, 32, 115, 99, 111, 114, 101, 32, 97, 110, 100, 32,
    115, 101, 118, 101, 110, 32, 121, 101, 97, 114, 115, 32, 97, 103, 111]

  lemma Packed32()
    ensures Pack(70, 111, 117, 114) == 0x72756f46
    ensures Pack(32, 115, 99, 111) == 0x6f637320
    ensures Pack(114, 101, 32, 97) == 0x61206572
    ensures Pack(110, 100, 32, 115) == 0x7320646e
    ensures Pack(101, 118, 101, 110) == 0x6e657665
    ensures Pack(32, 121, 101, 97) == 0x61657920
    ensures Pack(114, 115, 32, 97) == 0x61207372
    ensures Pack(103, 111, 0, 0) == 0x00006f67
  {}

  lemma Word0()
    ensures WordAt(FOUR_SCORE, 0) == Pack(70, 111, 117, 114)
  {}

  lemma Word1()
    ensures WordAt(FOUR_SCORE, 4) == Pack(32, 115, 99, 111)
  {}

  lemma Word2()
    ensures WordAt(FOUR_SCORE, 8) == Pack(114, 101, 32, 97)
  {}

  lemma Word3()
    ensures WordAt(FOUR_SCORE, 12) == Pack(110, 100, 32, 115)
  {}

  lemma Word4()
    ensures WordAt(FOUR_SCORE, 16) == Pack(101, 118, 101, 110)
  {}

  lemma Word5()
    ensures WordAt(FOUR_SCORE, 20) == Pack(32, 121, 101, 97)
  {}

  lemma Word6()
    ensures WordAt(FOUR_SCORE, 24) == Pack(114, 115, 32, 97)
  {}

  lemma Word7()
    ensures WordAt(FOUR_SCORE, 28) == Pack(103, 111, 0, 0)
  {}

  /** The little-endian words of the key; the last one is padded with zeros. */
  lemma Words()
    ensures WordAt(FOUR_SCORE, 0) == 0x72756f46
    ensures WordAt(FOUR_SCORE, 4) == 0x6f637320
    ensures WordAt(FOUR_SCORE, 8) == 0x61206572
    ensures WordAt(FOUR_SCORE, 12) == 0x7320646e
    ensures WordAt(FOUR_SCORE, 16) == 0x6e657665
    ensures WordAt(FOUR_SCORE, 20) == 0x61657920
    ensures WordAt(FOUR_SCORE, 24) == 0x61207372
    ensures WordAt(FOUR_SCORE, 28) == 0x00006f67
  {
    Packed32();
    Word0(); Word1(); Word2(); Word3(); Word4(); Word5(); Word6(); Word7();
  }

  /** The three blocks of the key, from the states before, between and after them. */
  lemma FourScore(pc: Word, pb: Word, seed: Word, s0: State, m0: State, s1: State, m1: State,
                  s2: State, result: State)
    requires seed == Plus(Plus(0xdeadbeef, 30), pc)
    requires s0 == State(Plus(seed, 0x72756f46), Plus(seed, 0x6f637320), Plus(Plus(seed, pb), 0x61206572))
    requires Mix(s0) == m0
    requires s1 == State(Plus(m0.a, 0x7320646e), Plus(m0.b, 0x6e657665), Plus(m0.c, 0x61657920)) && Mix(s1) == m1
    requires s2 == State(Plus(m1.a, 0x61207372), Plus(m1.b, 0x00006f67), m1.c) && Final(s2) == result
    ensures HashOf(FOUR_SCORE, pc, pb) == result
  {
    LengthIs30();
    Words();
    var start := State(seed, seed, Plus(seed, pb));
    assert AddBlock(start, FOUR_SCORE) == s0;
    FirstBlock(start, s0, m0);
    SecondBlock(m0, s1, m1);
    LastBlock(m1, s2, result);
  }

  lemma FirstBlock(s: State, added: State, mixed: State)
    requires AddBlock(s, FOUR_SCORE) == added && Mix(added) == mixed
    ensures Digest(s, FOUR_SCORE) == Digest(mixed, FOUR_SCORE[12..])
  {
    BlockDigested(s, FOUR_SCORE, added);
  }

  lemma SecondBlock(s: State, added: State, mixed: State)
    requires added == State(Plus(s.a, 0x7320646e), Plus(s.b, 0x6e657665), Plus(s.c, 0x61657920)) && Mix(added) == mixed
    ensures Digest(s, FOUR_SCORE[12..]) == Digest(mixed, FOUR_SCORE[24..])
  {
    Words();
    var key := FOUR_SCORE[12..];
    WordShifted(FOUR_SCORE, 12, 0); WordShifted(FOUR_SCORE, 12, 4); WordShifted(FOUR_SCORE, 12, 8);
    assert AddBlock(s, key) == added;
    BlockDigested(s, key, added);
    assert key[12..] == FOUR_SCORE[24..];
  }

  lemma LastBlock(s: State, added: State, result: State)
    requires added == State(Plus(s.a, 0x61207372), Plus(s.b, 0x00006f67), s.c) && Final(added) == result
    ensures Digest(s, FOUR_SCORE[24..]) == result
  {
    Words();
    var key := FOUR_SCORE[24..];
    WordShifted(FOUR_SCORE, 24, 0); WordShifted(FOUR_SCORE, 24, 4); WordShifted(FOUR_SCORE, 24, 8);
    NothingLeft();
    PlusZero(s.c);
    assert AddBlock(s, key) == added;
    RestDigested(s, key, added);
  }

  lemma NothingLeft()
    ensures WordAt(FOUR_SCORE, 32) == Pack(0, 0, 0, 0)
  {}

  lemma LengthIs30()
    ensures |FOUR_SCORE| == 30 && Len32(30) == 30
  {
    assert Len32(3) == 3;
    assert Len32(6) == 6;
    assert Len32(9) == 9;
    assert Len32(12) == 12;
    assert Len32(15) == 15;
    assert Len32(18) == 18;
    assert Len32(21) == 21;
    assert Len32(24) == 24;
    assert Len32(27) == 27;
    assert Len32(30) == 30;
  }

  /** Without a key the hash is the seed: the first three answers. */
  lemma EmptyKeys()
    ensures HashOf([], 0, 0).c == 0xdeadbeef && HashOf([], 0, 0).b == 0xdeadbeef
    ensures HashOf([], 0, 0xdeadbeef).c == 0xbd5b7dde && HashOf([], 0, 0xdeadbeef).b == 0xdeadbeef
    ensures HashOf([], 0xdeadbeef, 0xdeadbeef).c == 0x9c093ccd && HashOf([], 0xdeadbeef, 0xdeadbeef).b == 0xbd5b7dde
  {}

  lemma Seeds00Mix0()
    ensures Mix(State(0x51232e53, 0x4e11322d, 0x3fce247f)) == State(0xf859ad7a, 0x04bc57ae, 0x40dddd7e)
  {
    assert Stir(State(0x51232e53, 0x4e11322d, 0x3fce247f), 4) == State(0x4e11322d, 0x8ddf56ac, 0xedb74e27);
    assert Stir(State(0x4e11322d, 0x8ddf56ac, 0xedb74e27), 6) == State(0x8ddf56ac, 0x7b96a4d3, 0x0d8a6dfd);
    assert Stir(State(0x8ddf56ac, 0x7b96a4d3, 0x0d8a6dfd), 8) == State(0x7b96a4d3, 0x892112d0, 0x0a3915a2);
    assert Stir(State(0x7b96a4d3, 0x892112d0, 0x0a3915a2), 16) == State(0x892112d0, 0x935a2872, 0x64ff8508);
    assert Stir(State(0x892112d0, 0x935a2872, 0x64ff8508), 19) == State(0x935a2872, 0xf859ad7a, 0x0c62aa34);
    assert Stir(State(0x935a2872, 0xf859ad7a, 0x0c62aa34), 4) == State(0xf859ad7a, 0x04bc57ae, 0x40dddd7e);
  }

  lemma Seeds00Mix1()
    ensures Mix(State(0x6b7a11e8, 0x7321ce13, 0xa243569e)) == State(0x336aded2, 0x059f2642, 0xbd02ebd5)
  {
    assert Stir(State(0x6b7a11e8, 0x7321ce13, 0xa243569e), 4) == State(0x7321ce13, 0x156524b1, 0xed03d2a0);
    assert Stir(State(0x7321ce13, 0x156524b1, 0xed03d2a0), 6) == State(0x156524b1, 0x0268f751, 0xc6e95348);
    assert Stir(State(0x156524b1, 0x0268f751, 0xc6e95348), 8) == State(0x0268f751, 0xc9524a99, 0xa72899af);
    assert Stir(State(0x0268f751, 0xc9524a99, 0xa72899af), 16) == State(0xc9524a99, 0x707ae448, 0xc2effa8a);
    assert Stir(State(0xc9524a99, 0x707ae448, 0xc2effa8a), 19) == State(0x707ae448, 0x336aded2, 0xd2344770);
    assert Stir(State(0x707ae448, 0x336aded2, 0xd2344770), 4) == State(0x336aded2, 0x059f2642, 0xbd02ebd5);
  }

  lemma Seeds00Final()
    ensures Final(State(0x948b5244, 0x059f95a9, 0xbd02ebd5)) == State(0x9a837816, 0xce7226e6, 0x17770551)
  {
    assert Settle(State(0x948b5244, 0x059f95a9, 0xbd02ebd5), 14) == State(0x059f95a9, 0xd3333d15, 0x948b5244);
    assert Settle(State(0x059f95a9, 0xd3333d15, 0x948b5244), 11) == State(0xd3333d15, 0xadcfc0b8, 0x059f95a9);
    assert Settle(State(0xd3333d15, 0xadcfc0b8, 0x059f95a9), 25) == State(0xadcfc0b8, 0x36f4b590, 0xd3333d15);
    assert Settle(State(0xadcfc0b8, 0x36f4b590, 0xd3333d15), 16) == State(0x36f4b590, 0x30375191, 0xadcfc0b8);
    assert Settle(State(0x36f4b590, 0x30375191, 0xadcfc0b8), 4) == State(0x30375191, 0x9a837816, 0x36f4b590);
    assert Settle(State(0x30375191, 0x9a837816, 0x36f4b590), 14) == State(0x9a837816, 0xce7226e6, 0x30375191);
    assert Settle(State(0x9a837816, 0xce7226e6, 0x30375191), 24) == State(0xce7226e6, 0x17770551, 0x9a837816);
  }

  lemma Seeds00()
    ensures HashOf(FOUR_SCORE, 0, 0).c == 0x17770551 && HashOf(FOUR_SCORE, 0, 0).b == 0xce7226e6
  {
    Seeds00Mix0(); Seeds00Mix1(); Seeds00Final();
    FourScore(0, 0, 0xdeadbf0d,
              State(0x51232e53, 0x4e11322d, 0x3fce247f), State(0xf859ad7a, 0x04bc57ae, 0x40dddd7e),
              State(0x6b7a11e8, 0x7321ce13, 0xa243569e), State(0x336aded2, 0x059f2642, 0xbd02ebd5),
              State(0x948b5244, 0x059f95a9, 0xbd02ebd5), State(0x9a837816, 0xce7226e6, 0x17770551));
  }

  lemma Seeds01Mix0()
    ensures Mix(State(0x51232e53, 0x4e11322d, 0x3fce2480)) == State(0x5880bf0f, 0x0507c285, 0x2e1afadd)
  {
    assert Stir(State(0x51232e53, 0x4e11322d, 0x3fce2480), 4) == State(0x4e11322d, 0x8ddf56ad, 0xedb741d0);
    assert Stir(State(0x4e11322d, 0x8ddf56ad, 0xedb741d0), 6) == State(0x8ddf56ad, 0x7b96987d, 0x0d898466);
    assert Stir(State(0x8ddf56ad, 0x7b96987d, 0x0d898466), 8) == State(0x7b96987d, 0x89201ce3, 0x09d1b44a);
    assert Stir(State(0x7b96987d, 0x89201ce3, 0x09d1b44a), 16) == State(0x89201ce3, 0x92f1d12d, 0xc58eede2);
    assert Stir(State(0x89201ce3, 0x92f1d12d, 0xc58eede2), 19) == State(0x92f1d12d, 0x5880bf0f, 0xac870376);
    assert Stir(State(0x92f1d12d, 0x5880bf0f, 0xac870376), 4) == State(0x5880bf0f, 0x0507c285, 0x2e1afadd);
  }

  lemma Seeds01Mix1()
    ensures Mix(State(0xcba1237d, 0x736d38ea, 0x8f8073fd)) == State(0xf0a95c6c, 0x6ea72b3e, 0x327297d5)
  {
    assert Stir(State(0xcba1237d, 0x736d38ea, 0x8f8073fd), 4) == State(0x736d38ea, 0x02edace7, 0xc4279058);
    assert Stir(State(0x736d38ea, 0x02edace7, 0xc4279058), 6) == State(0x02edace7, 0xc7153d3f, 0xa6a1bea3);
    assert Stir(State(0x02edace7, 0xc7153d3f, 0xa6a1bea3), 8) == State(0xc7153d3f, 0x6db6fbe2, 0xfdf54de2);
    assert Stir(State(0xc7153d3f, 0x6db6fbe2, 0xfdf54de2), 16) == State(0x6db6fbe2, 0x6bac49c4, 0x84fd12a8);
    assert Stir(State(0x6db6fbe2, 0x6bac49c4, 0x84fd12a8), 19) == State(0x6bac49c4, 0xf0a95c6c, 0x7dfdced2);
    assert Stir(State(0x6bac49c4, 0xf0a95c6c, 0x7dfdced2), 4) == State(0xf0a95c6c, 0x6ea72b3e, 0x327297d5);
  }

  lemma Seeds01Final()
    ensures Final(State(0x51c9cfde, 0x6ea79aa5, 0x327297d5)) == State(0x6cd40950, 0xbd371de4, 0xe3607cae)
  {
    assert Settle(State(0x51c9cfde, 0x6ea79aa5, 0x327297d5), 14) == State(0x6ea79aa5, 0x762bb1c7, 0x51c9cfde);
    assert Settle(State(0x6ea79aa5, 0x762bb1c7, 0x51c9cfde), 11) == State(0x762bb1c7, 0xca544268, 0x6ea79aa5);
    assert Settle(State(0x762bb1c7, 0xca544268, 0x6ea79aa5), 25) == State(0xca544268, 0xd35f3049, 0x762bb1c7);
    assert Settle(State(0xca544268, 0xd35f3049, 0x762bb1c7), 16) == State(0xd35f3049, 0x752aae2f, 0xca544268);
    assert Settle(State(0xd35f3049, 0x752aae2f, 0xca544268), 4) == State(0x752aae2f, 0x6cd40950, 0xd35f3049);
    assert Settle(State(0x752aae2f, 0x6cd40950, 0xd35f3049), 14) == State(0x6cd40950, 0xbd371de4, 0x752aae2f);
    assert Settle(State(0x6cd40950, 0xbd371de4, 0x752aae2f), 24) == State(0xbd371de4, 0xe3607cae, 0x6cd40950);
  }

  lemma Seeds01()
    ensures HashOf(FOUR_SCORE, 0, 1).c == 0xe3607cae && HashOf(FOUR_SCORE, 0, 1).b == 0xbd371de4
  {
    Seeds01Mix0(); Seeds01Mix1(); Seeds01Final();
    FourScore(0, 1, 0xdeadbf0d,
              State(0x51232e53, 0x4e11322d, 0x3fce2480), State(0x5880bf0f, 0x0507c285, 0x2e1afadd),
              State(0xcba1237d, 0x736d38ea, 0x8f8073fd), State(0xf0a95c6c, 0x6ea72b3e, 0x327297d5),
              State(0x51c9cfde, 0x6ea79aa5, 0x327297d5), State(0x6cd40950, 0xbd371de4, 0xe3607cae));
  }

  lemma Seeds10Mix0()
    ensures Mix(State(0x51232e54, 0x4e11322e, 0x3fce2480)) == State(0x9fb9ade6, 0x89211ba9, 0x3ffff143)
  {
    assert Stir(State(0x51232e54, 0x4e11322e, 0x3fce2480), 4) == State(0x4e11322e, 0x8ddf56ae, 0xedb741d7);
    assert Stir(State(0x4e11322e, 0x8ddf56ae, 0xedb741d7), 6) == State(0x8ddf56ae, 0x7b969885, 0x0d8985ac);
    assert Stir(State(0x8ddf56ae, 0x7b969885, 0x0d8985ac), 8) == State(0x7b969885, 0x89201e31, 0x09d07d0f);
    assert Stir(State(0x7b969885, 0x89201e31, 0x09d07d0f), 16) == State(0x89201e31, 0x92f09b40, 0x0cc912a6);
    assert Stir(State(0x89201e31, 0x92f09b40, 0x0cc912a6), 19) == State(0x92f09b40, 0x9fb9ade6, 0xe9676dc3);
    assert Stir(State(0x92f09b40, 0x9fb9ade6, 0xe9676dc3), 4) == State(0x9fb9ade6, 0x89211ba9, 0x3ffff143);
  }

  lemma Seeds10Mix1()
    ensures Mix(State(0x12da1254, 0xf786920e, 0xa1656a63)) == State(0xd68042ad, 0x488e0a5d, 0xab16e7b2)
  {
    assert Stir(State(0x12da1254, 0xf786920e, 0xa1656a63), 4) == State(0xf786920e, 0x98ebfc71, 0x672201cb);
    assert Stir(State(0xf786920e, 0x98ebfc71, 0x672201cb), 6) == State(0x98ebfc71, 0x000dfe3c, 0x58e4e29a);
    assert Stir(State(0x98ebfc71, 0x000dfe3c, 0x58e4e29a), 8) == State(0x000dfe3c, 0x58f2e0d6, 0xa4e5838f);
    assert Stir(State(0x000dfe3c, 0x58f2e0d6, 0xa4e5838f), 16) == State(0x58f2e0d6, 0xfdd86465, 0xd8a7de48);
    assert Stir(State(0x58f2e0d6, 0xfdd86465, 0xd8a7de48), 19) == State(0xfdd86465, 0xd68042ad, 0x720dc7b0);
    assert Stir(State(0xfdd86465, 0xd68042ad, 0x720dc7b0), 4) == State(0xd68042ad, 0x488e0a5d, 0xab16e7b2);
  }

  lemma Seeds10Final()
    ensures Final(State(0x37a0b61f, 0x488e79c4, 0xab16e7b2)) == State(0x1336f927, 0x6cbea4b3, 0xcd628161)
  {
    assert Settle(State(0x37a0b61f, 0x488e79c4, 0xab16e7b2), 14) == State(0x488e79c4, 0x45278c53, 0x37a0b61f);
    assert Settle(State(0x488e79c4, 0x45278c53, 0x37a0b61f), 11) == State(0x45278c53, 0x3624a023, 0x488e79c4);
    assert Settle(State(0x45278c53, 0x3624a023, 0x488e79c4), 25) == State(0x3624a023, 0x383e90a7, 0x45278c53);
    assert Settle(State(0x3624a023, 0x383e90a7, 0x45278c53), 16) == State(0x383e90a7, 0xec71e4b6, 0x3624a023);
    assert Settle(State(0x383e90a7, 0xec71e4b6, 0x3624a023), 4) == State(0xec71e4b6, 0x1336f927, 0x383e90a7);
    assert Settle(State(0xec71e4b6, 0x1336f927, 0x383e90a7), 14) == State(0x1336f927, 0x6cbea4b3, 0xec71e4b6);
    assert Settle(State(0x1336f927, 0x6cbea4b3, 0xec71e4b6), 24) == State(0x6cbea4b3, 0xcd628161, 0x1336f927);
  }

  lemma Seeds10()
    ensures HashOf(FOUR_SCORE, 1, 0).c == 0xcd628161 && HashOf(FOUR_SCORE, 1, 0).b == 0x6cbea4b3
  {
    Seeds10Mix0(); Seeds10Mix1(); Seeds10Final();
    FourScore(1, 0, 0xdeadbf0e,
              State(0x51232e54, 0x4e11322e, 0x3fce2480), State(0x9fb9ade6, 0x89211ba9, 0x3ffff143),
              State(0x12da1254, 0xf786920e, 0xa1656a63), State(0xd68042ad, 0x488e0a5d, 0xab16e7b2),
              State(0x37a0b61f, 0x488e79c4, 0xab16e7b2), State(0x1336f927, 0x6cbea4b3, 0xcd628161));
  }

  /** The answers on the text, for both words and the seeds 0 and 1. */
  lemma KnownAnswers()
    ensures HashOf(FOUR_SCORE, 0, 0).c == 0x17770551 && HashOf(FOUR_SCORE, 0, 0).b == 0xce7226e6
    ensures HashOf(FOUR_SCORE, 0, 1).c == 0xe3607cae && HashOf(FOUR_SCORE, 0, 1).b == 0xbd371de4
    ensures HashOf(FOUR_SCORE, 1, 0).c == 0xcd628161 && HashOf(FOUR_SCORE, 1, 0).b == 0x6cbea4b3
  {
    Seeds00();
    Seeds01();
    Seeds10();
  }
}
