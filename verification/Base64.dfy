/** Base64 (base64.hpp), section 4 of RFC 4648. Bytes are integers below 256;
    masks and shifts are written as remainders and divisions. */
module Base64 {

  type Byte = x: int | 0 <= x < 256
  type Sextet = x: int | 0 <= x < 64

  const UPPER := "ABCDEFGHIJKLMNOPQRSTUVWXYZ"
  const LOWER := "abcdefghijklmnopqrstuvwxyz"
  const DIGITS := "0123456789"

  const CHARS: string := UPPER + LOWER + DIGITS + "+/"

  predicate IsBase64(c: char) {
    '0' <= c <= '9' || 'A' <= c <= 'Z' || 'a' <= c <= 'z' || c == '+' || c == '/'
  }

  /** The character of a 6-bit value, from the character codes. */
  function CharOf(v: Sextet): char {
    if v < 26 then 'A' + v as char
    else if v < 52 then 'a' + (v - 26) as char
    else if v < 62 then '0' + (v - 52) as char
    else if v == 62 then '+' else '/'
  }

  lemma TableIs(v: Sextet)
    ensures |CHARS| == 64 && CHARS[v] == CharOf(v)
  {
    assert v < 26 ==> CHARS[v] == UPPER[v];
    assert 26 <= v < 52 ==> CHARS[v] == LOWER[v - 26];
    assert 52 <= v < 62 ==> CHARS[v] == DIGITS[v - 52];
  }

  /** The 6-bit value of a character, or -1. */
  function ValueOf(c: char): (v: int)
    ensures -1 <= v < 64
    ensures v >= 0 <==> IsBase64(c)
    ensures v >= 0 ==> CharOf(v) == c
  {
    if 'A' <= c <= 'Z' then c as int - 'A' as int
    else if 'a' <= c <= 'z' then c as int - 'a' as int + 26
    else if '0' <= c <= '9' then c as int - '0' as int + 52
    else if c == '+' then 62 else if c == '/' then 63 else -1
  }

  lemma ValueOfChar(v: Sextet)
    ensures ValueOf(CharOf(v)) == v && IsBase64(CharOf(v)) && CharOf(v) != '='
  {}

  /** base64_chars_find: the first position of a character in the table. */
  method Find(c: char) returns (v: int)
    ensures v == ValueOf(c)
  {
    TableIs(0);
    for i := 0 to |CHARS|
      invariant forall j :: 0 <= j < i ==> CHARS[j] != c
    {
      TableIs(i);
      ValueOfChar(i);
      if c == CHARS[i] {
        return i;
      }
    }
    if IsBase64(c) {
      TableIs(ValueOf(c));
    }
    return -1;
  }

  // ---- encoding ----

  /** The four 6-bit values of three bytes. */
  function Split(b0: Byte, b1: Byte, b2: Byte): seq<Sextet> {
    [b0 / 4, b0 % 4 * 16 + b1 / 16, b1 % 16 * 4 + b2 / 64, b2 % 64]
  }

  function Chars(values: seq<Sextet>): string {
    seq(|values|, i requires 0 <= i < |values| => CharOf(values[i]))
  }

  /** Groups of three bytes as four characters; a last group of one or two is padded with '='. */
  function Encode(bytes: seq<Byte>): string {
    if |bytes| == 0 then ""
    else if |bytes| == 1 then Chars(Split(bytes[0], 0, 0)[..2]) + "=="
    else if |bytes| == 2 then Chars(Split(bytes[0], bytes[1], 0)[..3]) + "="
    else Chars(Split(bytes[0], bytes[1], bytes[2])) + Encode(bytes[3..])
  }

  /** Appends the first `count` of the characters of three bytes. */
  method AppendChars(ret: string, buffer: seq<Byte>, count: nat) returns (r: string)
    requires |buffer| == 3 && count <= 4
    ensures r == ret + Chars(Split(buffer[0], buffer[1], buffer[2])[..count])
  {
    var values := Split(buffer[0], buffer[1], buffer[2]);
    r := ret;
    for i := 0 to count
      invariant r == ret + Chars(values[..i])
    {
      TableIs(values[i]);
      r := r + [CHARS[values[i]]];
    }
  }

  method EncodeBytes(bytes: seq<Byte>) returns (ret: string)
    ensures ret == Encode(bytes)
  {
    ret := "";
    var i: nat, buffer: seq<Byte> := 0, [0, 0, 0];
    ghost var rest := bytes;
    for n := 0 to |bytes|
      invariant Buffered(buffer, i, rest) && rest[i..] == bytes[n..]
      invariant Encode(bytes) == ret + Encode(rest)
    {
      assert rest[i..][0] == bytes[n] && rest[i..][1..] == bytes[n + 1..];
      ret, buffer, i, rest := PushByte(ret, buffer, i, bytes[n], rest);
    }
    ret := EncodeRest(ret, buffer, i, rest);
  }

  /** The first `count` bytes of `rest` wait in the buffer. */
  ghost predicate Buffered(buffer: seq<Byte>, count: nat, rest: seq<Byte>) {
    |buffer| == 3 && count < 3 && count <= |rest| && forall k :: 0 <= k < count ==> buffer[k] == rest[k]
  }

  /** Takes one more byte; a full buffer yields four characters and is emptied. */
  method PushByte(ret: string, buffer: seq<Byte>, count: nat, b: Byte, ghost rest: seq<Byte>)
      returns (r: string, next: seq<Byte>, i: nat, ghost left: seq<Byte>)
    requires Buffered(buffer, count, rest) && count < |rest| && rest[count] == b
    ensures Buffered(next, i, left) && left[i..] == rest[count..][1..]
    ensures ret + Encode(rest) == r + Encode(left)
  {
    r, next, i, left := ret, buffer[count := b], count + 1, rest;
    if i == 3 {
      r := AppendChars(ret, next, 4);
      GroupEncoded(rest, next);
      Concatenate(ret, Chars(Split(next[0], next[1], next[2])[..4]), Encode(rest[3..]));
      i, left := 0, rest[3..];
    }
  }

  lemma Concatenate<T>(a: seq<T>, b: seq<T>, c: seq<T>)
    ensures a + (b + c) == (a + b) + c
  {}

  /** The last one or two bytes: zeros fill the buffer, '=' fills the characters. */
  method EncodeRest(ret0: string, buffer0: seq<Byte>, count: nat, ghost rest: seq<Byte>) returns (ret: string)
    requires |buffer0| == 3 && count < 3 && |rest| == count
    requires forall k :: 0 <= k < count ==> buffer0[k] == rest[k]
    ensures ret == ret0 + Encode(rest)
  {
    ret := ret0;
    if count != 0 {
      var i, buffer := count, buffer0;
      for j := count to 3
        invariant |buffer| == 3 && forall k :: 0 <= k < count ==> buffer[k] == rest[k]
        invariant forall k :: count <= k < j ==> buffer[k] == 0
      {
        buffer := buffer[j := 0];
      }
      ret := AppendChars(ret, buffer, count + 1);
      while i < 3
        invariant count <= i <= 3
        invariant ret0 + Encode(rest) == ret + Padding(3 - i)
      {
        assert ret + "=" + Padding(3 - i - 1) == ret + Padding(3 - i);
        ret := ret + "=";
        i := i + 1;
      }
    }
  }

  function Padding(n: nat): string {
    seq(n, _ => '=')
  }

  lemma GroupEncoded(bytes: seq<Byte>, buffer: seq<Byte>)
    requires |bytes| >= 3 && |buffer| == 3 && forall k :: 0 <= k < 3 ==> buffer[k] == bytes[k]
    ensures Encode(bytes) == Chars(Split(buffer[0], buffer[1], buffer[2])[..4]) + Encode(bytes[3..])
  {
    assert Split(buffer[0], buffer[1], buffer[2])[..4] == Split(buffer[0], buffer[1], buffer[2]);
  }

  // ---- decoding ----

  /** The three bytes of four values; a character that is not in the table reads as 255. */
  function Join(v0: Byte, v1: Byte, v2: Byte, v3: Byte): seq<Byte> {
    [(v0 * 4 + v1 / 16 % 4) % 256, v1 % 16 * 16 + v2 / 4 % 16, (v2 % 4 * 64 + v3) % 256]
  }

  /** The value stored for a character: -1 becomes 255. */
  function Stored(c: char): Byte {
    ValueOf(c) % 256
  }

  /** The number of leading characters that belong to the alphabet. */
  function ValidLength(s: string): (n: nat)
    ensures n <= |s| && (n < |s| ==> !IsBase64(s[n]))
    ensures forall i :: 0 <= i < n ==> IsBase64(s[i])
  {
    if s == "" || !IsBase64(s[0]) then 0 else 1 + ValidLength(s[1..])
  }

  /** Groups of four characters as three bytes; a last group of i characters gives i - 1 bytes. */
  function DecodeChars(p: string): seq<Byte> {
    if |p| >= 4 then Join(Stored(p[0]), Stored(p[1]), Stored(p[2]), Stored(p[3])) + DecodeChars(p[4..])
    else if |p| == 3 then Join(Stored(p[0]), Stored(p[1]), Stored(p[2]), 255)[..2]
    else if |p| == 2 then Join(Stored(p[0]), Stored(p[1]), 255, 255)[..1]
    else []
  }

  /** Decoding stops at the first character outside the alphabet. */
  function Decode(s: string): seq<Byte> {
    DecodeChars(s[..ValidLength(s)])
  }

  /** Looks up four characters and appends the first `count` of their bytes. */
  method AppendBytes(ret: seq<Byte>, buffer: seq<char>, count: nat) returns (r: seq<Byte>)
    requires |buffer| == 4 && count <= 3
    ensures r == ret + Join(Stored(buffer[0]), Stored(buffer[1]), Stored(buffer[2]), Stored(buffer[3]))[..count]
  {
    var values: seq<Byte> := [0, 0, 0, 0];
    for i := 0 to 4
      invariant |values| == 4 && forall k :: 0 <= k < i ==> values[k] == Stored(buffer[k])
    {
      var v := Find(buffer[i]);
      values := values[i := v % 256];
    }
    var bytes := Join(values[0], values[1], values[2], values[3]);
    r := ret;
    for i := 0 to count
      invariant r == ret + bytes[..i]
    {
      r := r + [bytes[i]];
    }
  }

  /** The first `count` characters of `rest` wait in the buffer. */
  ghost predicate Waiting(buffer: seq<char>, count: nat, rest: string) {
    |buffer| == 4 && count < 4 && count <= |rest| && forall k :: 0 <= k < count ==> buffer[k] == rest[k]
  }

  method DecodeString(s: string) returns (ret: seq<Byte>)
    ensures ret == Decode(s)
  {
    ret := [];
    ghost var rest := s[..ValidLength(s)];
    var i: nat, n: nat, buffer: seq<char> := 0, 0, ['A', 'A', 'A', 'A'];
    while n < |s| && s[n] != '=' && IsBase64(s[n])
      invariant n <= ValidLength(s) && Waiting(buffer, i, rest)
      invariant rest[i..] == s[n..ValidLength(s)]
      invariant Decode(s) == ret + DecodeChars(rest)
      decreases |s| - n
    {
      assert rest[i..][0] == s[n] && rest[i..][1..] == s[n + 1..ValidLength(s)];
      ret, buffer, i, rest := Push(ret, buffer, i, s[n], rest);
      n := n + 1;
    }
    ret := DecodeRest(ret, buffer, i, rest);
  }

  /** Takes one more character; a full buffer yields three bytes and is emptied. */
  method Push(ret: seq<Byte>, buffer: seq<char>, count: nat, c: char, ghost rest: string)
      returns (r: seq<Byte>, next: seq<char>, i: nat, ghost left: string)
    requires Waiting(buffer, count, rest) && count < |rest| && rest[count] == c
    ensures Waiting(next, i, left) && left[i..] == rest[count..][1..]
    ensures ret + DecodeChars(rest) == r + DecodeChars(left)
  {
    r, next, i, left := ret, buffer[count := c], count + 1, rest;
    if i == 4 {
      r := AppendBytes(ret, next, 3);
      GroupDecoded(rest, next);
      Concatenate(ret, Join(Stored(next[0]), Stored(next[1]), Stored(next[2]), Stored(next[3]))[..3],
                  DecodeChars(rest[4..]));
      i, left := 0, rest[4..];
    }
  }

  lemma GroupDecoded(p: string, buffer: seq<char>)
    requires |p| >= 4 && |buffer| == 4 && forall k :: 0 <= k < 4 ==> buffer[k] == p[k]
    ensures DecodeChars(p) ==
      Join(Stored(buffer[0]), Stored(buffer[1]), Stored(buffer[2]), Stored(buffer[3]))[..3] + DecodeChars(p[4..])
  {}

  /** The last one to three characters; NUL, which is not in the table, fills the buffer. */
  method DecodeRest(ret0: seq<Byte>, buffer0: seq<char>, count: nat, ghost rest: string) returns (ret: seq<Byte>)
    requires |buffer0| == 4 && count < 4 && |rest| == count
    requires forall k :: 0 <= k < count ==> buffer0[k] == rest[k]
    ensures ret == ret0 + DecodeChars(rest)
  {
    ret := ret0;
    if count != 0 {
      var buffer := buffer0;
      for j := count to 4
        invariant |buffer| == 4 && forall k :: 0 <= k < count ==> buffer[k] == rest[k]
        invariant forall k :: count <= k < j ==> buffer[k] == '\0'
      {
        buffer := buffer[j := '\0'];
      }
      assert Stored('\0') == 255;
      ret := AppendBytes(ret, buffer, count - 1);
    }
  }

  // ---- round trip ----

  lemma FirstByte(b0: Byte, b1: Byte)
    ensures (b0 / 4 * 4 + (b0 % 4 * 16 + b1 / 16) / 16 % 4) % 256 == b0
  {}

  lemma SecondByte(b0: Byte, b1: Byte, b2: Byte)
    ensures (b0 % 4 * 16 + b1 / 16) % 16 * 16 + (b1 % 16 * 4 + b2 / 64) / 4 % 16 == b1
  {}

  lemma ThirdByte(b1: Byte, b2: Byte)
    ensures ((b1 % 16 * 4 + b2 / 64) % 4 * 64 + b2 % 64) % 256 == b2
  {}

  lemma JoinSplit(b0: Byte, b1: Byte, b2: Byte)
    ensures var v := Split(b0, b1, b2); Join(v[0], v[1], v[2], v[3]) == [b0, b1, b2]
  {
    FirstByte(b0, b1);
    SecondByte(b0, b1, b2);
    ThirdByte(b1, b2);
  }

  /** Two values determine the first byte, */
  lemma JoinOne(b0: Byte, b1: Byte, x: Byte, y: Byte)
    ensures var v := Split(b0, b1, 0); Join(v[0], v[1], x, y)[..1] == [b0]
  {
    FirstByte(b0, b1);
  }

  /** and three the second, whatever follows. */
  lemma JoinTwo(b0: Byte, b1: Byte, x: Byte)
    ensures var v := Split(b0, b1, 0); Join(v[0], v[1], v[2], x)[..2] == [b0, b1]
  {
    FirstByte(b0, b1);
    SecondByte(b0, b1, 0);
  }

  function PadLength(bytes: seq<Byte>): nat {
    (3 - |bytes| % 3) % 3
  }

  lemma StoredChars(values: seq<Sextet>, i: nat)
    requires i < |values|
    ensures Stored(Chars(values)[i]) == values[i]
  {
    ValueOfChar(values[i]);
  }

  lemma DecodeGroup(b0: Byte, b1: Byte, b2: Byte, more: string)
    ensures DecodeChars(Chars(Split(b0, b1, b2)) + more) == [b0, b1, b2] + DecodeChars(more)
  {
    var v := Split(b0, b1, b2);
    StoredChars(v, 0); StoredChars(v, 1); StoredChars(v, 2); StoredChars(v, 3);
    JoinSplit(b0, b1, b2);
    assert (Chars(v) + more)[4..] == more;
  }

  lemma DecodeTwo(b0: Byte, b1: Byte)
    ensures DecodeChars(Chars(Split(b0, b1, 0)[..3])) == [b0, b1]
  {
    var v := Split(b0, b1, 0)[..3];
    StoredChars(v, 0); StoredChars(v, 1); StoredChars(v, 2);
    JoinTwo(b0, b1, 255);
  }

  lemma DecodeOne(b0: Byte)
    ensures DecodeChars(Chars(Split(b0, 0, 0)[..2])) == [b0]
  {
    var v := Split(b0, 0, 0)[..2];
    StoredChars(v, 0); StoredChars(v, 1);
    JoinOne(b0, 0, 255, 255);
  }

  /** The encoding without its padding. */
  function Body(bytes: seq<Byte>): string {
    if |bytes| == 0 then ""
    else if |bytes| == 1 then Chars(Split(bytes[0], 0, 0)[..2])
    else if |bytes| == 2 then Chars(Split(bytes[0], bytes[1], 0)[..3])
    else Chars(Split(bytes[0], bytes[1], bytes[2])) + Body(bytes[3..])
  }

  lemma {:induction false} BodyIs(bytes: seq<Byte>)
    ensures Encode(bytes) == Body(bytes) + Padding(PadLength(bytes))
  {
    if |bytes| >= 3 {
      BodyIs(bytes[3..]);
      assert PadLength(bytes) == PadLength(bytes[3..]);
    }
  }

  /** Three more bytes need four more characters and the same padding. */
  lemma ThreeMore(n: nat)
    ensures (3 - (n + 3) % 3) % 3 == (3 - n % 3) % 3 && (n + 3 + 2) / 3 == (n + 2) / 3 + 1
  {}

  lemma BodyStep(bytes: seq<Byte>)
    requires |bytes| >= 3
    ensures |Body(bytes)| == 4 + |Body(bytes[3..])|
  {}

  lemma {:induction false} BodyLength(bytes: seq<Byte>)
    ensures |Body(bytes)| + PadLength(bytes) == 4 * ((|bytes| + 2) / 3)
  {
    if |bytes| >= 3 {
      BodyLength(bytes[3..]);
      BodyStep(bytes);
      ThreeMore(|bytes| - 3);
    }
  }

  lemma {:induction false} BodyAlphabet(bytes: seq<Byte>)
    ensures forall i :: 0 <= i < |Body(bytes)| ==> IsBase64(Body(bytes)[i])
  {
    if |bytes| >= 3 {
      BodyAlphabet(bytes[3..]);
    }
  }

  /** The encoding has four characters for every three bytes begun: characters of
      the alphabet, then one or two '=' exactly when the last group lacks one or two bytes. */
  lemma EncodingShape(bytes: seq<Byte>)
    ensures |Encode(bytes)| == 4 * ((|bytes| + 2) / 3)
    ensures ValidLength(Encode(bytes)) == |Encode(bytes)| - PadLength(bytes)
    ensures Encode(bytes)[ValidLength(Encode(bytes))..] == Padding(PadLength(bytes))
    ensures Encode(bytes)[..ValidLength(Encode(bytes))] == Body(bytes)
  {
    BodyIs(bytes);
    BodyLength(bytes);
    BodyAlphabet(bytes);
    var e, m := Encode(bytes), |Body(bytes)|;
    assert forall i :: 0 <= i < m ==> e[i] == Body(bytes)[i];
    assert m < |e| ==> e[m] == Padding(PadLength(bytes))[0];
  }

  lemma {:induction false} DecodeBody(bytes: seq<Byte>)
    ensures DecodeChars(Body(bytes)) == bytes
  {
    if |bytes| == 1 {
      DecodeOne(bytes[0]);
    } else if |bytes| == 2 {
      DecodeTwo(bytes[0], bytes[1]);
    } else if |bytes| >= 3 {
      DecodeBody(bytes[3..]);
      DecodeGroup(bytes[0], bytes[1], bytes[2], Body(bytes[3..]));
    }
  }

  /** Decoding undoes encoding, for every byte sequence; so encoding is injective. */
  lemma RoundTrip(bytes: seq<Byte>)
    ensures Decode(Encode(bytes)) == bytes
  {
    EncodingShape(bytes);
    DecodeBody(bytes);
  }

  lemma EncodeIsInjective(x: seq<Byte>, y: seq<Byte>)
    requires Encode(x) == Encode(y)
    ensures x == y
  {
    RoundTrip(x);
    RoundTrip(y);
  }

  // ---- the bits, group by group ----

  /** The value of a character of an encoding; padding stands for zero bits. */
  function Bits(c: char): int {
    if c == '=' then 0 else ValueOf(c)
  }

  /** The number of four 6-bit digits, and of three bytes, the first one highest. */
  function Number64(v0: int, v1: int, v2: int, v3: int): int {
    v0 * 262144 + v1 * 4096 + v2 * 64 + v3
  }

  function Number256(b0: int, b1: int, b2: int): int {
    b0 * 65536 + b1 * 256 + b2
  }

  function ByteOr0(bytes: seq<Byte>, i: nat): Byte {
    if i < |bytes| then bytes[i] else 0
  }

  /** The number of a group of four characters. */
  function NumberOf(g: string): int
    requires |g| == 4
  {
    Number64(Bits(g[0]), Bits(g[1]), Bits(g[2]), Bits(g[3]))
  }

  lemma SplitIsNumber(b0: Byte, b1: Byte, b2: Byte)
    ensures var v := Split(b0, b1, b2); Number64(v[0], v[1], v[2], v[3]) == Number256(b0, b1, b2)
  {}

  /** A group of n bytes: as many characters as it needs, and padding. */
  function Padded(v: seq<Sextet>, n: nat): string
    requires |v| == 4
  {
    [CharOf(v[0]), CharOf(v[1]), if n >= 2 then CharOf(v[2]) else '=', if n >= 3 then CharOf(v[3]) else '=']
  }

  lemma PaddedNumber(v: seq<Sextet>, n: nat)
    requires |v| == 4 && (n < 2 ==> v[2] == 0) && (n < 3 ==> v[3] == 0)
    ensures NumberOf(Padded(v, n)) == Number64(v[0], v[1], v[2], v[3])
  {
    ValueOfChar(v[0]); ValueOfChar(v[1]); ValueOfChar(v[2]); ValueOfChar(v[3]);
  }

  lemma FirstChars(bytes: seq<Byte>, v: seq<Sextet>)
    requires bytes != [] && v == Split(ByteOr0(bytes, 0), ByteOr0(bytes, 1), ByteOr0(bytes, 2))
    ensures |Encode(bytes)| >= 4 && Encode(bytes)[..4] == Padded(v, |bytes|)
  {}

  /** Section 4 of RFC 4648: the first four characters are the 24-bit number made of the first
      three bytes, with zeros for bytes that are missing; and so, */
  lemma FirstGroup(bytes: seq<Byte>, g: string)
    requires bytes != [] && |Encode(bytes)| >= 4 && g == Encode(bytes)[..4]
    ensures NumberOf(g) == Number256(ByteOr0(bytes, 0), ByteOr0(bytes, 1), ByteOr0(bytes, 2))
  {
    var b0, b1, b2 := ByteOr0(bytes, 0), ByteOr0(bytes, 1), ByteOr0(bytes, 2);
    FirstChars(bytes, Split(b0, b1, b2));
    PaddedNumber(Split(b0, b1, b2), |bytes|);
    SplitIsNumber(b0, b1, b2);
  }

  /** since groups are encoded each on its own, is every other group. */
  lemma {:induction false} EncodeFrom(bytes: seq<Byte>, k: nat)
    requires 3 * k <= |bytes|
    ensures 4 * k <= |Encode(bytes)| && Encode(bytes)[4 * k..] == Encode(bytes[3 * k..])
    decreases k
  {
    if k == 0 {
      assert bytes[0..] == bytes;
    } else {
      GroupEncoded(bytes, bytes[..3]);
      EncodeFrom(bytes[3..], k - 1);
      assert bytes[3..][3 * (k - 1)..] == bytes[3 * k..];
    }
  }

  lemma EncodeOne(b0: Byte, v0: Sextet, v1: Sextet)
    requires b0 == v0 * 4 + v1 / 16 && v1 % 16 == 0
    ensures Encode([b0]) == [CharOf(v0), CharOf(v1), '=', '=']
  {}

  lemma EncodeTwo(b0: Byte, b1: Byte, v0: Sextet, v1: Sextet, v2: Sextet)
    requires Split(b0, b1, 0) == [v0, v1, v2, 0]
    ensures Encode([b0, b1]) == [CharOf(v0), CharOf(v1), CharOf(v2), '=']
  {}

  lemma EncodeThree(b0: Byte, b1: Byte, b2: Byte, v0: Sextet, v1: Sextet, v2: Sextet, v3: Sextet)
    requires Split(b0, b1, b2) == [v0, v1, v2, v3]
    ensures Encode([b0, b1, b2]) == [CharOf(v0), CharOf(v1), CharOf(v2), CharOf(v3)]
  {
    assert [b0, b1, b2][3..] == [];
  }

  lemma EncodesF()
    ensures Encode([102]) == "Zg=="
  {
    EncodeOne(102, 25, 32);
  }

  lemma EncodesFo()
    ensures Encode([102, 111]) == "Zm8="
  {
    EncodeTwo(102, 111, 25, 38, 60);
  }

  lemma EncodesFoo()
    ensures Encode([102, 111, 111]) == "Zm9v"
  {
    EncodeThree(102, 111, 111, 25, 38, 61, 47);
  }

  lemma EncodesHigh()
    ensures Encode([251, 255]) == "+/8="
  {
    EncodeTwo(251, 255, 62, 63, 60);
  }

  /** Vectors of section 10 of RFC 4648, and one with the last two characters of the alphabet. */
  lemma KnownEncodings()
    ensures Encode([]) == "" && Encode([102]) == "Zg==" && Encode([102, 111]) == "Zm8="
    ensures Encode([102, 111, 111]) == "Zm9v" && Encode([251, 255]) == "+/8="
  {
    EncodesF();
    EncodesFo();
    EncodesFoo();
    EncodesHigh();
  }

  // ---- decoding anything ----

  /** Whatever follows the first character outside the alphabet is ignored, and n characters
      give the whole bytes among their 6 n bits. */
  lemma DecodedLength(s: string)
    ensures Decode(s) == Decode(s[..ValidLength(s)])
    ensures |Decode(s)| == ValidLength(s) * 3 / 4
  {
    var p := s[..ValidLength(s)];
    AllValid(p);
    assert p[..|p|] == p;
    CharsLength(p);
  }

  lemma {:induction false} AllValid(p: string)
    requires forall i :: 0 <= i < |p| ==> IsBase64(p[i])
    ensures ValidLength(p) == |p|
  {
  }

  lemma {:induction false} CharsLength(p: string)
    ensures |DecodeChars(p)| == |p| * 3 / 4
  {
    if |p| >= 4 { CharsLength(p[4..]); }
  }

  lemma StoredValue(c: char)
    requires IsBase64(c)
    ensures Stored(c) == ValueOf(c) && 0 <= ValueOf(c) < 64
  {}

  lemma JoinBytes(v0: Byte, v1: Byte, v2: Byte, v3: Byte)
    ensures v0 < 64 && v1 < 64 ==> Join(v0, v1, v2, v3)[0] == v0 * 4 + v1 / 16
    ensures v2 < 64 ==> Join(v0, v1, v2, v3)[1] == v1 % 16 * 16 + v2 / 4
    ensures v3 < 64 ==> Join(v0, v1, v2, v3)[2] == v2 % 4 * 64 + v3
  {}

  /** The byte that two neighbouring values make at place r of a group. */
  function ByteOf(r: nat, v: int, next: int): int {
    if r == 0 then v * 4 + next / 16 else if r == 1 then v % 16 * 16 + next / 4 else v % 4 * 64 + next
  }

  /** The first group, with 255 for characters that are missing. */
  lemma HeadIsJoin(p: string, v2: Byte, v3: Byte)
    requires |p| >= 2 && v2 == (if |p| > 2 then Stored(p[2]) else 255) && v3 == if |p| > 3 then Stored(p[3]) else 255
    ensures |DecodeChars(p)| >= if |p| == 2 then 1 else if |p| == 3 then 2 else 3
    ensures forall r :: 0 <= r < 3 && r + 1 < |p| ==>
      DecodeChars(p)[r] == Join(Stored(p[0]), Stored(p[1]), v2, v3)[r]
  {}

  lemma DecodedHead(p: string, r: nat)
    requires (forall i :: 0 <= i < |p| ==> IsBase64(p[i])) && r < 3 && r + 1 < |p|
    ensures r < |DecodeChars(p)| && DecodeChars(p)[r] == ByteOf(r, ValueOf(p[r]), ValueOf(p[r + 1]))
  {
    var v2: Byte := if |p| > 2 then Stored(p[2]) else 255;
    var v3: Byte := if |p| > 3 then Stored(p[3]) else 255;
    HeadIsJoin(p, v2, v3);
    JoinedAt(Stored(p[0]), Stored(p[1]), v2, v3, r);
    StoredValue(p[r]);
    StoredValue(p[r + 1]);
  }

  lemma JoinedAt(v0: Byte, v1: Byte, v2: Byte, v3: Byte, r: nat)
    requires r < 3
    ensures var v := [v0, v1, v2, v3];
      v[r] < 64 && v[r + 1] < 64 ==> Join(v0, v1, v2, v3)[r] == ByteOf(r, v[r], v[r + 1])
  {
    JoinBytes(v0, v1, v2, v3);
  }

  /** Any characters of the alphabet: byte r of group q comes from the two values that hold its
      bits, and from nothing else. */
  lemma {:induction false} DecodedByte(p: string, q: nat, r: nat)
    requires (forall i :: 0 <= i < |p| ==> IsBase64(p[i])) && r < 3 && 4 * q + r + 1 < |p|
    ensures 3 * q + r < |DecodeChars(p)|
    ensures DecodeChars(p)[3 * q + r] == ByteOf(r, ValueOf(p[4 * q + r]), ValueOf(p[4 * q + r + 1]))
    decreases q
  {
    if q == 0 {
      DecodedHead(p, r);
    } else {
      DecodedByte(p[4..], q - 1, r);
      GroupDecoded(p, p[..4]);
    }
  }
}
