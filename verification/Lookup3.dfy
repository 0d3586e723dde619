/** Bob Jenkins' lookup3 hash (lookup3.c) on 32-bit words, little-endian. */
module Lookup3 {

  type Word = bv32
  type Byte = bv8

  datatype State = State(a: Word, b: Word, c: Word)

  // ---- mix and final ----

  function Rot(x: Word, k: nat): Word
    requires 0 < k < 32
  {
    (x << k) | (x >> (32 - k))
  }

  // Named word operations, so that equations about them can be used as rewrite steps.

  function Plus(x: Word, y: Word): Word {
    x + y
  }

  function Minus(x: Word, y: Word): Word {
    x - y
  }

  function Xor(x: Word, y: Word): Word {
    x ^ y
  }

  function And(x: Word, y: Word): Word {
    x & y
  }

  function Shl(x: Word, k: nat): Word
    requires k < 32
  {
    x << k
  }

  /** One line of mix: a -= c; a ^= r; c += b, where r is a rotation of c. The
      words are passed on in the roles they have in the next line. */
  function StirWith(s: State, r: Word): State {
    State(s.b, Plus(s.c, s.b), Xor(Minus(s.a, s.c), r))
  }

  /** The word c from before a line, recovered from the words after it. */
  function Before(t: State): Word {
    Minus(t.b, t.a)
  }

  function UnstirWith(t: State, r: Word): State {
    State(Plus(Xor(t.c, r), Before(t)), t.a, Before(t))
  }

  function Stir(s: State, k: nat): State
    requires 0 < k < 32
  {
    StirWith(s, Rot(s.c, k))
  }

  function Unstir(t: State, k: nat): State
    requires 0 < k < 32
  {
    UnstirWith(t, Rot(Before(t), k))
  }

  /** Six lines bring every word back to its own role. */
  function Mix(s: State): State {
    Stir(Stir(Stir(Stir(Stir(Stir(s, 4), 6), 8), 16), 19), 4)
  }

  function Unmix(s: State): State {
    Unstir(Unstir(Unstir(Unstir(Unstir(Unstir(s, 4), 19), 16), 8), 6), 4)
  }

  /** One line of final: c ^= b; c -= rot(b, k), with the roles of the next line. */
  function Settle(s: State, k: nat): State
    requires 0 < k < 32
  {
    State(s.b, Minus(Xor(s.c, s.b), Rot(s.b, k)), s.a)
  }

  /** Seven lines end one role further on. */
  function Final(s: State): State {
    var t := Settle(Settle(Settle(Settle(Settle(Settle(Settle(s, 14), 11), 25), 16), 4), 14), 24);
    State(t.c, t.a, t.b)
  }

  lemma XorCancels(x: Word, r: Word)
    ensures Xor(Xor(x, r), r) == x
  {}

  lemma MinusCancels(x: Word, y: Word)
    ensures Minus(Plus(x, y), y) == x
  {
    assert Minus(x + y, y) == x;
  }

  lemma PlusCancels(x: Word, y: Word)
    ensures Plus(Minus(x, y), y) == x
  {
    assert Plus(x - y, y) == x;
  }

  lemma StirWithUndone(s: State, r: Word)
    ensures Before(StirWith(s, r)) == s.c && UnstirWith(StirWith(s, r), r) == s
    ensures UnstirWith(s, r).c == Before(s) && StirWith(UnstirWith(s, r), r) == s
  {
    MinusCancels(s.c, s.b);
    XorCancels(Minus(s.a, s.c), r);
    PlusCancels(s.a, s.c);
    PlusCancels(s.b, s.a);
    MinusCancels(Xor(s.c, r), Before(s));
    XorCancels(s.c, r);
  }

  lemma StirUndone(s: State, k: nat)
    requires 0 < k < 32
    ensures Unstir(Stir(s, k), k) == s && Stir(Unstir(s, k), k) == s
  {
    StirWithUndone(s, Rot(s.c, k));
    StirWithUndone(s, Rot(Before(s), k));
  }

  /** mix is reversible, in both directions: it is a bijection on triples. */
  lemma MixIsBijective(s: State)
    ensures Unmix(Mix(s)) == s && Mix(Unmix(s)) == s
  {
    var s1 := Stir(s, 4); var s2 := Stir(s1, 6); var s3 := Stir(s2, 8); var s4 := Stir(s3, 16); var s5 := Stir(s4, 19);
    StirUndone(s, 4); StirUndone(s1, 6); StirUndone(s2, 8);
    StirUndone(s3, 16); StirUndone(s4, 19); StirUndone(s5, 4);
    var t1 := Unstir(s, 4); var t2 := Unstir(t1, 19); var t3 := Unstir(t2, 16);
    var t4 := Unstir(t3, 8); var t5 := Unstir(t4, 6);
    StirUndone(t1, 19); StirUndone(t2, 16); StirUndone(t3, 8); StirUndone(t4, 6); StirUndone(t5, 4);
  }

  /** The mix macro, word by word. */
  method MixState(s: State) returns (t: State)
    ensures t == Mix(s)
  {
    var a, b, c := s.a, s.b, s.c;
    a := Minus(a, c); a := Xor(a, Rot(c, 4)); c := Plus(c, b);
    b := Minus(b, a); b := Xor(b, Rot(a, 6)); a := Plus(a, c);
    c := Minus(c, b); c := Xor(c, Rot(b, 8)); b := Plus(b, a);
    a := Minus(a, c); a := Xor(a, Rot(c, 16)); c := Plus(c, b);
    b := Minus(b, a); b := Xor(b, Rot(a, 19)); a := Plus(a, c);
    c := Minus(c, b); c := Xor(c, Rot(b, 4)); b := Plus(b, a);
    t := State(a, b, c);
  }

  /** The final macro, word by word. */
  method FinalState(s: State) returns (t: State)
    ensures t == Final(s)
  {
    var a, b, c := s.a, s.b, s.c;
    c := Xor(c, b); c := Minus(c, Rot(b, 14));
    a := Xor(a, c); a := Minus(a, Rot(c, 11));
    b := Xor(b, a); b := Minus(b, Rot(a, 25));
    c := Xor(c, b); c := Minus(c, Rot(b, 16));
    a := Xor(a, c); a := Minus(a, Rot(c, 4));
    b := Xor(b, a); b := Minus(b, Rot(a, 14));
    c := Xor(c, b); c := Minus(c, Rot(b, 24));
    t := State(a, b, c);
  }

  // ---- the hash of a byte string ----

  /** The cast of a length to uint32_t: counting modulo 2^32. */
  function Len32(n: nat): Word {
    if n == 0 then 0 else Plus(Len32(n - 1), 1)
  }

  function Seed(length: Word, initval: Word): Word {
    Plus(Plus(0xdeadbeef, length), initval)
  }

  /** Four bytes as one little-endian word. */
  function Pack(b0: Byte, b1: Byte, b2: Byte, b3: Byte): Word {
    (b0 as Word) + ((b1 as Word) << 8) + ((b2 as Word) << 16) + ((b3 as Word) << 24)
  }

  /** Bytes past the end count as zero. */
  function ByteAt(key: seq<Byte>, i: nat): Byte {
    if i < |key| then key[i] else 0
  }

  function WordAt(key: seq<Byte>, i: nat): Word {
    Pack(ByteAt(key, i), ByteAt(key, i + 1), ByteAt(key, i + 2), ByteAt(key, i + 3))
  }

  /** Adds the first twelve bytes to the state. */
  function AddBlock(s: State, key: seq<Byte>): State {
    State(Plus(s.a, WordAt(key, 0)), Plus(s.b, WordAt(key, 4)), Plus(s.c, WordAt(key, 8)))
  }

  /** What hashing a byte string means: blocks of twelve bytes are mixed in, the last one, zero-padded, is finalised. */
  function Digest(s: State, key: seq<Byte>): State
    decreases |key|
  {
    if |key| > 12 then Digest(Mix(AddBlock(s, key)), key[12..])
    else if |key| == 0 then s
    else Final(AddBlock(s, key))
  }

  /** The state after the first `k` blocks of twelve bytes have been mixed in. */
  function MixBlocks(s: State, key: seq<Byte>, k: nat): State
    requires 12 * k <= |key|
  {
    if k == 0 then s else Mix(AddBlock(MixBlocks(s, key, k - 1), key[12 * (k - 1)..]))
  }

  /** The last one to twelve bytes are always finalised: a key of n bytes has (n - 1) / 12
      blocks mixed in before them, also where it is a multiple of twelve. */
  lemma DigestIs(s: State, key: seq<Byte>)
    requires key != []
    ensures var k := (|key| - 1) / 12; Digest(s, key) == Final(AddBlock(MixBlocks(s, key, k), key[12 * k..]))
  {
    DigestFrom(s, key, (|key| - 1) / 12);
  }

  lemma {:induction false} DigestFrom(s: State, key: seq<Byte>, k: nat)
    requires 12 * k < |key|
    ensures Digest(s, key) == Digest(MixBlocks(s, key, k), key[12 * k..])
  {
    if k == 0 {
      assert key[0..] == key;
    } else {
      DigestFrom(s, key, k - 1);
      var rest := key[12 * (k - 1)..];
      assert rest[12..] == key[12 * k..];
      BlockDigested(MixBlocks(s, key, k - 1), rest, AddBlock(MixBlocks(s, key, k - 1), rest));
    }
  }

  // ---- reading memory ----

  function Read32(mem: seq<Byte>, at: nat): Word
    requires at + 4 <= |mem|
  {
    Pack(mem[at], mem[at + 1], mem[at + 2], mem[at + 3])
  }

  function Read16(mem: seq<Byte>, at: nat): Word
    requires at + 2 <= |mem|
  {
    Pack(mem[at], mem[at + 1], 0, 0)
  }

  function Read8(mem: seq<Byte>, at: nat): Word
    requires at < |mem|
  {
    mem[at] as Word
  }

  /** A masked word is the word of the bytes that the mask leaves. */
  lemma Masks(b0: Byte, b1: Byte, b2: Byte, b3: Byte)
    ensures And(Pack(b0, b1, b2, b3), 0xffffff) == Pack(b0, b1, b2, 0)
    ensures And(Pack(b0, b1, b2, b3), 0xffff) == Pack(b0, b1, 0, 0)
    ensures And(Pack(b0, b1, b2, b3), 0xff) == Pack(b0, 0, 0, 0)
  {
    assert And((b0 as Word) + ((b1 as Word) << 8) + ((b2 as Word) << 16) + ((b3 as Word) << 24), 0xffffff)
           == Pack(b0, b1, b2, 0);
    assert And((b0 as Word) + ((b1 as Word) << 8) + ((b2 as Word) << 16) + ((b3 as Word) << 24), 0xffff)
           == Pack(b0, b1, 0, 0);
    assert And((b0 as Word) + ((b1 as Word) << 8) + ((b2 as Word) << 16) + ((b3 as Word) << 24), 0xff)
           == Pack(b0, 0, 0, 0);
  }

  /** Two half-words, or a half-word and a byte, make the word of their bytes. */
  lemma Halves(b0: Byte, b1: Byte, b2: Byte, b3: Byte)
    ensures Plus(Pack(b0, b1, 0, 0), Shl(Pack(b2, b3, 0, 0), 16)) == Pack(b0, b1, b2, b3)
    ensures Plus(Shl(b2 as Word, 16), Pack(b0, b1, 0, 0)) == Pack(b0, b1, b2, 0)
  {
    assert Pack(b0, b1, 0, 0) == (b0 as Word) + ((b1 as Word) << 8);
    assert Pack(b2, b3, 0, 0) == (b2 as Word) + ((b3 as Word) << 8);
    assert Shl((b2 as Word) + ((b3 as Word) << 8), 16) == ((b2 as Word) << 16) + ((b3 as Word) << 24);
    assert Plus((b0 as Word) + ((b1 as Word) << 8), ((b2 as Word) << 16) + ((b3 as Word) << 24))
           == Pack(b0, b1, b2, b3);
    assert Plus((b2 as Word) << 16, (b0 as Word) + ((b1 as Word) << 8)) == Pack(b0, b1, b2, 0);
  }

  /** Bytes added from the highest down make the word of these bytes. */
  lemma FourBytes(b0: Byte, b1: Byte, b2: Byte, b3: Byte)
    ensures Plus(Plus(Plus(Shl(b3 as Word, 24), Shl(b2 as Word, 16)), Shl(b1 as Word, 8)), b0 as Word)
            == Pack(b0, b1, b2, b3)
  {
    assert Plus((b3 as Word) << 24, (b2 as Word) << 16) == ((b3 as Word) << 24) + ((b2 as Word) << 16);
    assert Plus(((b3 as Word) << 24) + ((b2 as Word) << 16), (b1 as Word) << 8)
           == ((b3 as Word) << 24) + ((b2 as Word) << 16) + ((b1 as Word) << 8);
    assert Plus(((b3 as Word) << 24) + ((b2 as Word) << 16) + ((b1 as Word) << 8), b0 as Word) == Pack(b0, b1, b2, b3);
  }

  lemma ThreeBytes(b0: Byte, b1: Byte, b2: Byte)
    ensures Plus(Plus(Shl(b2 as Word, 16), Shl(b1 as Word, 8)), b0 as Word) == Pack(b0, b1, b2, 0)
  {
    assert Plus((b2 as Word) << 16, (b1 as Word) << 8) == ((b2 as Word) << 16) + ((b1 as Word) << 8);
    assert Plus(((b2 as Word) << 16) + ((b1 as Word) << 8), b0 as Word) == Pack(b0, b1, b2, 0);
  }

  lemma TwoBytes(b0: Byte, b1: Byte)
    ensures Plus(Shl(b1 as Word, 8), b0 as Word) == Pack(b0, b1, 0, 0)
    ensures b0 as Word == Pack(b0, 0, 0, 0)
  {
    assert Plus((b1 as Word) << 8, b0 as Word) == Pack(b0, b1, 0, 0);
  }

  lemma PlusAssoc(x: Word, y: Word, z: Word)
    ensures Plus(Plus(x, y), z) == Plus(x, Plus(y, z))
  {
    assert Plus(x + y, z) == x + y + z && Plus(x, y + z) == x + y + z;
  }

  lemma PlusZero(x: Word)
    ensures Plus(x, 0) == x && Plus(x, Pack(0, 0, 0, 0)) == x
  {
    assert Pack(0, 0, 0, 0) == 0;
  }

  // ---- hashlittle ----

  /** How the key is read: by aligned words, by aligned half-words, or byte by byte. */
  datatype Access = Words | HalfWords | Bytes

  /** The word of the first `n` of the four bytes at `at`. */
  function PartWord(mem: seq<Byte>, at: nat, n: nat): Word
    requires n <= 4 && at + n <= |mem|
  {
    Pack(if n > 0 then mem[at] else 0, if n > 1 then mem[at + 1] else 0,
         if n > 2 then mem[at + 2] else 0, if n > 3 then mem[at + 3] else 0)
  }

  /** Word access reads all four bytes of a word it needs, beyond the key if need be. */
  predicate Readable(access: Access, mem: seq<Byte>, at: nat, n: nat) {
    at + n <= |mem| && (access.Words? && n > 0 ==> at + 4 <= |mem|)
  }

  /** Adds `n` key bytes to a word: the three reading strategies agree. */
  method Take(access: Access, x: Word, mem: seq<Byte>, at: nat, n: nat) returns (y: Word)
    requires n <= 4 && Readable(access, mem, at, n)
    ensures y == Plus(x, PartWord(mem, at, n))
  {
    y := x;
    if n == 0 {
      PlusZero(x);
    } else {
      match access {
        case Words => y := TakeWord(x, mem, at, n);
        case HalfWords => y := TakeHalfWords(x, mem, at, n);
        case Bytes => y := TakeBytes(x, mem, at, n);
      }
    }
  }

  method TakeWord(x: Word, mem: seq<Byte>, at: nat, n: nat) returns (y: Word)
    requires 1 <= n <= 4 && at + 4 <= |mem|
    ensures y == Plus(x, PartWord(mem, at, n))
  {
    var k := Read32(mem, at);
    Masks(mem[at], mem[at + 1], mem[at + 2], mem[at + 3]);
    if n == 4 {
      y := Plus(x, k);
    } else if n == 3 {
      y := Plus(x, And(k, 0xffffff));
    } else if n == 2 {
      y := Plus(x, And(k, 0xffff));
    } else {
      y := Plus(x, And(k, 0xff));
    }
  }

  method TakeHalfWords(x: Word, mem: seq<Byte>, at: nat, n: nat) returns (y: Word)
    requires 1 <= n <= 4 && at + n <= |mem|
    ensures y == Plus(x, PartWord(mem, at, n))
  {
    if n == 4 {
      y := Plus(x, Plus(Read16(mem, at), Shl(Read16(mem, at + 2), 16)));
      Halves(mem[at], mem[at + 1], mem[at + 2], mem[at + 3]);
    } else if n == 3 {
      y := Plus(x, Shl(Read8(mem, at + 2), 16));
      y := Plus(y, Read16(mem, at));
      PlusAssoc(x, Shl(Read8(mem, at + 2), 16), Read16(mem, at));
      Halves(mem[at], mem[at + 1], mem[at + 2], 0);
    } else if n == 2 {
      y := Plus(x, Read16(mem, at));
    } else {
      y := Plus(x, Read8(mem, at));
      TwoBytes(mem[at], 0);
    }
  }

  method TakeBytes(x: Word, mem: seq<Byte>, at: nat, n: nat) returns (y: Word)
    requires 1 <= n <= 4 && at + n <= |mem|
    ensures y == Plus(x, PartWord(mem, at, n))
  {
    if n == 4 {
      y := AddBytes4(x, mem[at], mem[at + 1], mem[at + 2], mem[at + 3]);
    } else if n == 3 {
      y := AddBytes3(x, mem[at], mem[at + 1], mem[at + 2]);
    } else if n == 2 {
      y := AddBytes2(x, mem[at], mem[at + 1]);
    } else {
      TwoBytes(mem[at], 0);
      y := Plus(x, Read8(mem, at));
    }
  }

  method AddBytes4(x: Word, b0: Byte, b1: Byte, b2: Byte, b3: Byte) returns (y: Word)
    ensures y == Plus(x, Pack(b0, b1, b2, b3))
  {
    AddDown4(x, b0, b1, b2, b3);
    y := Plus(x, Shl(b3 as Word, 24));
    y := Plus(y, Shl(b2 as Word, 16));
    y := Plus(y, Shl(b1 as Word, 8));
    y := Plus(y, b0 as Word);
  }

  method AddBytes3(x: Word, b0: Byte, b1: Byte, b2: Byte) returns (y: Word)
    ensures y == Plus(x, Pack(b0, b1, b2, 0))
  {
    AddDown3(x, b0, b1, b2);
    y := Plus(x, Shl(b2 as Word, 16));
    y := Plus(y, Shl(b1 as Word, 8));
    y := Plus(y, b0 as Word);
  }

  method AddBytes2(x: Word, b0: Byte, b1: Byte) returns (y: Word)
    ensures y == Plus(x, Pack(b0, b1, 0, 0))
  {
    AddDown2(x, b0, b1);
    y := Plus(x, Shl(b1 as Word, 8));
    y := Plus(y, b0 as Word);
  }

  lemma AddDown4(x: Word, b0: Byte, b1: Byte, b2: Byte, b3: Byte)
    ensures Plus(Plus(Plus(Plus(x, Shl(b3 as Word, 24)), Shl(b2 as Word, 16)), Shl(b1 as Word, 8)), b0 as Word)
            == Plus(x, Pack(b0, b1, b2, b3))
  {
    Regroup4(x, Shl(b3 as Word, 24), Shl(b2 as Word, 16), Shl(b1 as Word, 8), b0 as Word);
    FourBytes(b0, b1, b2, b3);
  }

  lemma AddDown3(x: Word, b0: Byte, b1: Byte, b2: Byte)
    ensures Plus(Plus(Plus(x, Shl(b2 as Word, 16)), Shl(b1 as Word, 8)), b0 as Word) == Plus(x, Pack(b0, b1, b2, 0))
  {
    Regroup3(x, Shl(b2 as Word, 16), Shl(b1 as Word, 8), b0 as Word);
    ThreeBytes(b0, b1, b2);
  }

  lemma AddDown2(x: Word, b0: Byte, b1: Byte)
    ensures Plus(Plus(x, Shl(b1 as Word, 8)), b0 as Word) == Plus(x, Pack(b0, b1, 0, 0))
  {
    PlusAssoc(x, Shl(b1 as Word, 8), b0 as Word);
    TwoBytes(b0, b1);
  }

  lemma Regroup3(x: Word, q: Word, r: Word, t: Word)
    ensures Plus(Plus(Plus(x, q), r), t) == Plus(x, Plus(Plus(q, r), t))
  {
    PlusAssoc(x, q, r);
    PlusAssoc(x, Plus(q, r), t);
  }

  lemma Regroup4(x: Word, p: Word, q: Word, r: Word, t: Word)
    ensures Plus(Plus(Plus(Plus(x, p), q), r), t) == Plus(x, Plus(Plus(Plus(p, q), r), t))
  {
    Regroup3(x, p, q, r);
    PlusAssoc(x, Plus(Plus(p, q), r), t);
  }

  function Clamp(n: int): nat {
    if n < 0 then 0 else if n > 4 then 4 else n
  }

  lemma BlockWords(s: State, mem: seq<Byte>, at: nat, length: nat)
    requires at + length <= |mem|
    ensures AddBlock(s, mem[at..at + length]) ==
      State(Plus(s.a, PartWord(mem, at, Clamp(length))),
            Plus(s.b, PartWord(mem, at + Clamp(length), Clamp(length - 4))),
            Plus(s.c, PartWord(mem, at + Clamp(length) + Clamp(length - 4), Clamp(length - 8))))
  {}

  /** The memory that hashing `length` bytes may touch. */
  predicate Mapped(access: Access, mem: seq<Byte>, length: nat) {
    length <= |mem| && (access.Words? ==> (length + 3) / 4 * 4 <= |mem|)
  }

  /** Adds the next block, or the last part of one, to the state. */
  method TakeBlock(access: Access, s: State, mem: seq<Byte>, at: nat, length: nat) returns (t: State)
    requires at % 4 == 0 && Mapped(access, mem, at + length)
    ensures t == AddBlock(s, mem[at..at + length])
  {
    var a := Take(access, s.a, mem, at, Clamp(length));
    var b := Take(access, s.b, mem, at + Clamp(length), Clamp(length - 4));
    var c := Take(access, s.c, mem, at + Clamp(length) + Clamp(length - 4), Clamp(length - 8));
    BlockWords(s, mem, at, length);
    t := State(a, b, c);
  }

  /** Takes a whole block into the digest of what is left, */
  method DigestBlock(access: Access, s: State, mem: seq<Byte>, at: nat, length: nat) returns (next: State)
    requires at + 12 < length && at % 4 == 0 && Mapped(access, mem, length)
    ensures Digest(s, mem[at..length]) == Digest(next, mem[at + 12..length])
  {
    var t := TakeBlock(access, s, mem, at, length - at);
    BlockDigested(s, mem[at..length], t);
    assert mem[at..length][12..] == mem[at + 12..length];
    next := MixState(t);
  }

  /** and the last part, if there is one. */
  method DigestRest(access: Access, s: State, mem: seq<Byte>, at: nat, length: nat) returns (last: State)
    requires at <= length <= at + 12 && at % 4 == 0 && Mapped(access, mem, length)
    ensures last == Digest(s, mem[at..length])
  {
    if at == length {
      return s;
    }
    var t := TakeBlock(access, s, mem, at, length - at);
    RestDigested(s, mem[at..length], t);
    last := FinalState(t);
  }

  /** The body shared by hashlittle and hashlittle2: whatever the access, the
      digest of the first `length` bytes and of nothing else. */
  method HashBytes(access: Access, s0: State, mem: seq<Byte>, length: nat) returns (s: State)
    requires Mapped(access, mem, length)
    ensures s == Digest(s0, mem[..length])
  {
    s := s0;
    var at := 0;
    assert mem[..length] == mem[0..length];
    while length - at > 12
      invariant at <= length && at % 4 == 0
      invariant Digest(s0, mem[..length]) == Digest(s, mem[at..length])
    {
      s := DigestBlock(access, s, mem, at, length);
      at := at + 12;
    }
    s := DigestRest(access, s, mem, at, length);
  }

  lemma BlockDigested(s: State, key: seq<Byte>, t: State)
    requires |key| > 12 && t == AddBlock(s, key)
    ensures Digest(s, key) == Digest(Mix(t), key[12..])
  {}

  lemma RestDigested(s: State, key: seq<Byte>, t: State)
    requires 0 < |key| <= 12 && t == AddBlock(s, key)
    ensures Digest(s, key) == Final(t)
  {}

  /** The strategy that the address of the key allows. */
  function AccessFor(address: nat): Access {
    if address % 4 == 0 then Words else if address % 2 == 0 then HalfWords else Bytes
  }

  /** The hash of a byte string, with a second seed. */
  function HashOf(key: seq<Byte>, pc: Word, pb: Word): State {
    var seed := Seed(Len32(|key|), pc);
    Digest(State(seed, seed, Plus(seed, pb)), key)
  }

  method HashLittle(address: nat, mem: seq<Byte>, length: nat, initval: Word) returns (hash: Word)
    requires Mapped(AccessFor(address), mem, length)
    ensures hash == HashOf(mem[..length], initval, 0).c
  {
    var seed := Seed(Len32(length), initval);
    var s := HashBytes(AccessFor(address), State(seed, seed, seed), mem, length);
    PlusZero(seed);
    return s.c;
  }

  method HashLittle2(address: nat, mem: seq<Byte>, length: nat, pc: Word, pb: Word) returns (c: Word, b: Word)
    requires Mapped(AccessFor(address), mem, length)
    ensures c == HashOf(mem[..length], pc, pb).c && b == HashOf(mem[..length], pc, pb).b
  {
    var seed := Seed(Len32(length), pc);
    var s := HashBytes(AccessFor(address), State(seed, seed, Plus(seed, pb)), mem, length);
    return s.c, s.b;
  }

  // ---- hashword ----

  /** `k` holds the words of the bytes `key`. */
  ghost predicate Packed(k: seq<Word>, key: seq<Byte>) {
    |key| == 4 * |k| && forall i :: 0 <= i < |k| ==> k[i] == Read32(key, 4 * i)
  }

  /** Adds the word `j` places after `at`, if the key has one. */
  method AddWord(x: Word, k: seq<Word>, at: nat, j: nat, ghost key: seq<Byte>) returns (y: Word)
    requires Packed(k, key) && at <= |k|
    ensures y == Plus(x, WordAt(key[4 * at..], 4 * j))
  {
    WordShifted(key, 4 * at, 4 * j);
    if at + j < |k| {
      assert k[at + j] == WordAt(key, 4 * (at + j));
      y := Plus(x, k[at + j]);
    } else {
      assert WordAt(key, 4 * at + 4 * j) == Pack(0, 0, 0, 0);
      PlusZero(x);
      y := x;
    }
  }

  /** Adds the next three words, or the last ones, to the state. */
  method AddWords(s: State, k: seq<Word>, at: nat, ghost key: seq<Byte>) returns (t: State)
    requires Packed(k, key) && at <= |k|
    ensures t == AddBlock(s, key[4 * at..])
  {
    var c := AddWord(s.c, k, at, 2, key);
    var b := AddWord(s.b, k, at, 1, key);
    var a := AddWord(s.a, k, at, 0, key);
    t := State(a, b, c);
  }

  lemma WordShifted(key: seq<Byte>, at: nat, i: nat)
    requires at <= |key|
    ensures WordAt(key[at..], i) == WordAt(key, at + i)
  {}

  /** hashword on the words of a key gives the hash of its bytes. */
  method HashWord(k: seq<Word>, initval: Word, ghost key: seq<Byte>) returns (hash: Word)
    requires Packed(k, key)
    ensures hash == HashOf(key, initval, 0).c
  {
    var seed := Seed(Shl(Len32(|k|), 2), initval);
    LengthInBytes(|k|);
    PlusZero(seed);
    var s := State(seed, seed, seed);
    ghost var s0 := s;
    var at, left: nat := 0, |k|;
    while left > 3
      invariant at + left == |k| && at >= 0
      invariant Digest(s0, key) == Digest(s, key[4 * at..])
    {
      var t := AddWords(s, k, at, key);
      BlockDigested(s, key[4 * at..], t);
      assert key[4 * at..][12..] == key[4 * (at + 3)..];
      s := MixState(t);
      at, left := at + 3, left - 3;
    }
    if left > 0 {
      var t := AddWords(s, k, at, key);
      RestDigested(s, key[4 * at..], t);
      s := FinalState(t);
    }
    return s.c;
  }

  /** Shifting the number of words gives the number of bytes, modulo 2^32. */
  lemma {:induction false} LengthInBytes(n: nat)
    ensures Shl(Len32(n), 2) == Len32(4 * n)
  {
    if n > 0 {
      LengthInBytes(n - 1);
      FourMore(Len32(n - 1));
      assert Len32(4 * n) == Plus(Len32(4 * n - 1), 1);
      assert Len32(4 * n - 1) == Plus(Len32(4 * n - 2), 1);
      assert Len32(4 * n - 2) == Plus(Len32(4 * n - 3), 1);
      assert Len32(4 * n - 3) == Plus(Len32(4 * (n - 1)), 1);
    }
  }

  lemma FourMore(m: Word)
    ensures Shl(Plus(m, 1), 2) == Plus(Plus(Plus(Plus(Shl(m, 2), 1), 1), 1), 1)
  {
    ShiftNext(m);
    FourSteps(Shl(m, 2));
  }

  lemma ShiftNext(m: Word)
    ensures Shl(Plus(m, 1), 2) == Plus(Shl(m, 2), 4)
  {
    ShiftedSum(m);
    SumOfShifted(m);
    Distribute(m);
  }

  lemma Distribute(m: Word)
    ensures (m + 1) << 2 == (m << 2) + 4
  {}

  lemma ShiftedSum(m: Word)
    ensures Shl(Plus(m, 1), 2) == (m + 1) << 2
  {
    assert Shl(m + 1, 2) == (m + 1) << 2;
  }

  lemma SumOfShifted(m: Word)
    ensures Plus(Shl(m, 2), 4) == (m << 2) + 4
  {
    assert Plus(m << 2, 4) == (m << 2) + 4;
  }

  lemma FourSteps(q: Word)
    ensures Plus(Plus(Plus(Plus(q, 1), 1), 1), 1) == Plus(q, 4)
  {
    assert Plus(q + 1, 1) == q + 2;
    assert Plus(q + 2, 1) == q + 3;
    assert Plus(q + 3, 1) == q + 4;
  }
}
