/** SHA-1 written out by hand, as in FIPS 180-4: padding (section 5.1.1),
    the message schedule and the 80-round compression (section 6.1.2) with
    the round functions and constants of sections 4.1.1 and 4.2.1, and the
    initial hash value of section 5.3.1.

    Bytes are naturals below 256 and the 32-bit registers are `bv32`, so the
    `& 0xFFFFFFFF` reductions of the original are the wrap-around of `bv32`
    arithmetic, and Python's `~b & d` (on a non-negative `d` below 2^32) is
    `!b & d`. */
module Sha1 {
  import opened Bytes

  /** Five 32-bit words: the chaining value `h0..h4` or the working
      variables `a..e`. */
  datatype State = State(a: bv32, b: bv32, c: bv32, d: bv32, e: bv32)

  /** Messages whose bit length `struct.pack('>Q', …)` can encode. */
  predicate Encodable(message: seq<byte>) {
    8 * |message| < Pow256(8)
  }

  // ---------------------------------------------------------------------
  // left_rotate
  // ---------------------------------------------------------------------

  /** `left_rotate(n, b)`: the bits shifted out at the top come back in at
      the bottom. */
  function LeftRotate(n: bv32, b: nat): bv32
    requires 0 < b < 32
  {
    (n << b) | (n >> (32 - b))
  }

  /** `left_rotate` is the 32-bit cyclic left rotation of section 3.2 of
      FIPS 180-4 for the three amounts `sha1` rotates by. */
  lemma {:induction false} LeftRotateIsRotation(n: bv32)
    ensures LeftRotate(n, 1) == n.RotateLeft(1)
    ensures LeftRotate(n, 5) == n.RotateLeft(5)
    ensures LeftRotate(n, 30) == n.RotateLeft(30)
  {
  }

  // ---------------------------------------------------------------------
  // sha1_padding
  // ---------------------------------------------------------------------

  predicate Multiple64(n: nat) {
    n % 64 == 0
  }

  /** How many 0x00 bytes follow 0x80: the least `z` with
      `len + 1 + z + 8` a multiple of 64. */
  function ZeroCount(len: nat): (z: nat)
    ensures z < 64 && (len + 9 + z) % 64 == 0
    ensures forall n: nat :: len + 9 <= n < len + 9 + z ==> !Multiple64(n)
  {
    (55 - len) % 64
  }

  function Zeros(n: nat): (zs: seq<byte>)
    ensures |zs| == n && forall i :: 0 <= i < n ==> zs[i] == 0
  {
    seq(n, _ => 0)
  }

  /** The padded message of section 5.1.1 in closed form: the message, the
      byte 0x80, `ZeroCount` zero bytes and the 64-bit big-endian bit
      length. */
  function Padded(message: seq<byte>): seq<byte>
    requires Encodable(message)
  {
    message + [0x80] + Zeros(ZeroCount(|message|)) + BytesBE(8 * |message|, 8)
  }

  /** The padded message starts with the message and 0x80, continues with
      zero bytes and ends with the 8-byte big-endian bit length; its length
      is the least multiple of 64 that is at least `|message| + 9`. */
  lemma PaddedShape(message: seq<byte>)
    requires Encodable(message)
    ensures var padded := Padded(message);
      && |padded| % 64 == 0
      && |message| + 9 <= |padded| < |message| + 9 + 64
      && padded[..|message|] == message
      && padded[|message|] == 0x80
      && (forall i :: |message| < i < |padded| - 8 ==> padded[i] == 0)
      && ValueBE(padded[|padded| - 8..]) == 8 * |message|
  {
    var padded := Padded(message);
    assert padded[|padded| - 8..] == BytesBE(8 * |message|, 8);
    ValueOfBytes(8 * |message|, 8);
  }

  /** `sha1_padding`: appends 0x80, then zero bytes one at a time until the
      length is 8 short of a multiple of 64, then the bit length. */
  method Sha1Padding(message: seq<byte>) returns (padded: seq<byte>)
    requires Encodable(message)
    ensures padded == Padded(message)
    ensures |padded| % 64 == 0 && |message| + 9 <= |padded| < |message| + 9 + 64
  {
    var ml := |message| * 8;
    padded := message + [0x80];
    while (|padded| + 8) % 64 != 0
      invariant |message| + 1 <= |padded| <= |message| + 1 + ZeroCount(|message|)
      invariant padded == message + [0x80] + Zeros(|padded| - |message| - 1)
      decreases |message| + 1 + ZeroCount(|message|) - |padded|
    {
      padded := padded + [0];
    }
    assert |padded| == |message| + 1 + ZeroCount(|message|);
    padded := padded + BytesBE(ml, 8);
  }

  // ---------------------------------------------------------------------
  // Message schedule
  // ---------------------------------------------------------------------

  /** `struct.unpack('>16I', chunk)`: sixteen big-endian words. */
  function Unpack(chunk: seq<byte>): (w: seq<bv32>)
    requires |chunk| == 64
    ensures |w| == 16
  {
    seq(16, i requires 0 <= i < 16 => Word(chunk[4 * i..4 * i + 4]))
  }

  /** One big-endian 32-bit word. */
  function Word(bs: seq<byte>): bv32
    requires |bs| == 4
  {
    assert Pow256(4) == 0x1_0000_0000;
    ValueBE(bs) as bv32
  }

  /** Reading back the four big-endian bytes of a word gives the word. */
  lemma WordOfBytes(w: bv32)
    ensures Word(BytesBE(w as nat, 4)) == w
  {
    assert Pow256(4) == 0x1_0000_0000;
    ValueOfBytes(w as nat, 4);
  }

  /** The first `n` words of the message schedule grown from `w16`. */
  function Schedule(w16: seq<bv32>, n: nat): (w: seq<bv32>)
    requires |w16| == 16 && 16 <= n <= 80
    ensures |w| == n
  {
    if n == 16 then w16
    else
      var w := Schedule(w16, n - 1);
      w + [Expand(w, n - 1)]
  }

  /** The schedule starts with the sixteen message words, and every word
      from index 16 on is the rotate-by-one of the exclusive or of the words
      3, 8, 14 and 16 places back. */
  lemma {:induction false} ScheduleWords(w16: seq<bv32>, n: nat)
    requires |w16| == 16 && 16 <= n <= 80
    ensures Schedule(w16, n)[..16] == w16
    ensures forall j :: 16 <= j < n ==> Schedule(w16, n)[j] == Expand(Schedule(w16, n), j)
    decreases n
  {
    if n > 16 {
      var w := Schedule(w16, n - 1);
      var x := Expand(w, n - 1);
      ScheduleWords(w16, n - 1);
      ExpandStable(w, x);
      assert (w + [x])[..16] == w[..16];
    }
  }

  /** Schedule word `j` from the words before it: the rotate-by-one of the
      exclusive or of the words 3, 8, 14 and 16 places back. */
  function Expand(w: seq<bv32>, j: nat): bv32
    requires 16 <= j <= |w|
  {
    LeftRotate(w[j - 3] ^ w[j - 8] ^ w[j - 14] ^ w[j - 16], 1)
  }

  /** Appending a word does not change the words expanded before it. */
  lemma ExpandStable(w: seq<bv32>, x: bv32)
    ensures forall j :: 16 <= j <= |w| ==> Expand(w + [x], j) == Expand(w, j)
  {
  }

  // ---------------------------------------------------------------------
  // Rounds
  // ---------------------------------------------------------------------

  /** The round function as the source writes it, with `|`. */
  function RoundFunction(j: nat, b: bv32, c: bv32, d: bv32): bv32
    requires j < 80
  {
    if j <= 19 then (b & c) | (!b & d)
    else if j <= 39 then b ^ c ^ d
    else if j <= 59 then (b & c) | (b & d) | (c & d)
    else b ^ c ^ d
  }

  function RoundConstant(j: nat): bv32
    requires j < 80
  {
    if j <= 19 then 0x5A827999
    else if j <= 39 then 0x6ED9EBA1
    else if j <= 59 then 0x8F1BBCDC
    else 0xCA62C1D6
  }

  /** The number of rounds, which is also the length of the schedule. */
  const RoundCount: nat := 80

  /** Ch, Parity and Maj of section 4.1.1 of FIPS 180-4, written with
      exclusive or as the standard does. */
  function FipsF(t: nat, x: bv32, y: bv32, z: bv32): bv32
    requires t < 80
  {
    if t < 20 then (x & y) ^ (!x & z)
    else if t < 40 || t >= 60 then x ^ y ^ z
    else (x & y) ^ (x & z) ^ (y & z)
  }

  /** The constants K_t of section 4.2.1 of FIPS 180-4. */
  function FipsK(t: nat): bv32
    requires t < 80
  {
    if t < 20 then 0x5a827999
    else if t < 40 then 0x6ed9eba1
    else if t < 60 then 0x8f1bbcdc
    else 0xca62c1d6
  }

  /** The source's `|` forms of Ch and Maj agree with the standard's
      exclusive-or forms, and its constants are the standard's. */
  lemma RoundFunctionIsFips(j: nat, b: bv32, c: bv32, d: bv32)
    requires j < 80
    ensures RoundFunction(j, b, c, d) == FipsF(j, b, c, d)
    ensures RoundConstant(j) == FipsK(j)
  {
    if j <= 19 {
      ChIsFips(b, c, d);
    } else if 40 <= j <= 59 {
      MajIsFips(b, c, d);
    }
  }

  lemma ChIsFips(b: bv32, c: bv32, d: bv32)
    ensures (b & c) | (!b & d) == (b & c) ^ (!b & d)
  {
  }

  lemma MajIsFips(b: bv32, c: bv32, d: bv32)
    ensures (b & c) | (b & d) | (c & d) == (b & c) ^ (b & d) ^ (c & d)
  {
  }

  /** `temp` of one round: the rotated `a` plus `f`, `e`, `k` and the
      schedule word, modulo 2^32. */
  function Temp(a: bv32, f: bv32, e: bv32, k: bv32, wj: bv32): bv32 {
    LeftRotate(a, 5) + f + e + k + wj
  }

  /** Unfolds `Temp` at one call site of `RunRounds`; stating it separately
      keeps the bit-vector sum out of the loop's proof context. */
  lemma TempIs(a: bv32, f: bv32, e: bv32, k: bv32, wj: bv32)
    ensures Temp(a, f, e, k, wj) == LeftRotate(a, 5) + f + e + k + wj
  {
  }

  /** One round with round function value `f`, constant `k` and schedule
      word `wj`. */
  function Round(st: State, f: bv32, k: bv32, wj: bv32): State {
    State(Temp(st.a, f, st.e, k, wj), st.a, LeftRotate(st.b, 30), st.c, st.d)
  }

  /** The working variables after the first `n` rounds. */
  function Rounds(st: State, w: seq<bv32>, n: nat): State
    requires |w| == 80 && n <= 80
  {
    if n == 0 then st
    else
      var prev := Rounds(st, w, n - 1);
      Round(prev, RoundFunction(n - 1, prev.b, prev.c, prev.d), RoundConstant(n - 1), w[n - 1])
  }

  /** Addition modulo 2^32 (`(x + y) & 0xFFFFFFFF`). It is named so that
      `Compress` and the loop of `CompressChunk` build the same term. */
  function Add(x: bv32, y: bv32): bv32 {
    x + y
  }

  /** One 64-byte block: schedule, 80 rounds, and the word-wise sum modulo
      2^32 into the chaining value. */
  function Compress(h: State, chunk: seq<byte>): State
    requires |chunk| == 64
  {
    var s := Rounds(h, Schedule(Unpack(chunk), RoundCount), RoundCount);
    State(Add(h.a, s.a), Add(h.b, s.b), Add(h.c, s.c), Add(h.d, s.d), Add(h.e, s.e))
  }

  /** The chaining value after the first `n` 64-byte blocks of `bs`, in
      order. */
  function ProcessBlocks(h: State, bs: seq<byte>, n: nat): State
    requires 64 * n <= |bs|
  {
    if n == 0 then h else Compress(ProcessBlocks(h, bs, n - 1), Block(bs, n - 1))
  }

  /** Block `i` of `bs`: the 64 bytes from byte `64 * i` on. */
  function Block(bs: seq<byte>, i: nat): (block: seq<byte>)
    requires 64 * i + 64 <= |bs|
    ensures |block| == 64
  {
    bs[64 * i..64 * i + 64]
  }

  /** Folding in one more block compresses it into the chaining value of
      the blocks before it. */
  lemma ProcessBlocksStep(h: State, bs: seq<byte>, k: nat)
    requires 64 * k + 64 <= |bs|
    ensures ProcessBlocks(h, bs, k + 1) == Compress(ProcessBlocks(h, bs, k), Block(bs, k))
  {
  }

  /** H(0) of section 5.3.1 of FIPS 180-4. */
  const InitialHash := State(0x67452301, 0xEFCDAB89, 0x98BADCFE, 0x10325476, 0xC3D2E1F0)

  /** `struct.pack('>5I', h0, h1, h2, h3, h4)`. */
  function Pack(h: State): seq<byte> {
    BytesBE(h.a as nat, 4) + BytesBE(h.b as nat, 4) + BytesBE(h.c as nat, 4)
      + BytesBE(h.d as nat, 4) + BytesBE(h.e as nat, 4)
  }

  /** The digest is 20 bytes and reads back, four bytes at a time, as the
      five chaining words. */
  lemma PackDecodes(h: State)
    ensures |Pack(h)| == 20
    ensures Word(Pack(h)[0..4]) == h.a && Word(Pack(h)[4..8]) == h.b
    ensures Word(Pack(h)[8..12]) == h.c && Word(Pack(h)[12..16]) == h.d
    ensures Word(Pack(h)[16..20]) == h.e
  {
    PackSlices(h);
    WordOfBytes(h.a);
    WordOfBytes(h.b);
    WordOfBytes(h.c);
    WordOfBytes(h.d);
    WordOfBytes(h.e);
  }

  /** Five four-byte pieces are the five four-byte slices of their
      concatenation. */
  lemma Slices(a: seq<byte>, b: seq<byte>, c: seq<byte>, d: seq<byte>, e: seq<byte>)
    requires |a| == |b| == |c| == |d| == |e| == 4
    ensures |a + b + c + d + e| == 20
    ensures (a + b + c + d + e)[0..4] == a && (a + b + c + d + e)[4..8] == b
    ensures (a + b + c + d + e)[8..12] == c && (a + b + c + d + e)[12..16] == d
    ensures (a + b + c + d + e)[16..20] == e
  {
    var p := a + b + c + d + e;
    assert p[0..4] == a;
    assert p[4..8] == b;
    assert p[8..12] == c;
    assert p[12..16] == d;
    assert p[16..20] == e;
  }

  /** Each four-byte slice of the digest is one chaining word's bytes. */
  lemma PackSlices(h: State)
    ensures |Pack(h)| == 20
    ensures Pack(h)[0..4] == BytesBE(h.a as nat, 4) && Pack(h)[4..8] == BytesBE(h.b as nat, 4)
    ensures Pack(h)[8..12] == BytesBE(h.c as nat, 4) && Pack(h)[12..16] == BytesBE(h.d as nat, 4)
    ensures Pack(h)[16..20] == BytesBE(h.e as nat, 4)
  {
    var a, b, c, d, e := BytesBE(h.a as nat, 4), BytesBE(h.b as nat, 4), BytesBE(h.c as nat, 4),
      BytesBE(h.d as nat, 4), BytesBE(h.e as nat, 4);
    assert Pack(h) == a + b + c + d + e;
    Slices(a, b, c, d, e);
  }

  /** SHA-1 of a message, as a function. */
  function Digest(message: seq<byte>): seq<byte>
    requires Encodable(message)
  {
    Pack(ProcessBlocks(InitialHash, Padded(message), |Padded(message)| / 64))
  }

  // ---------------------------------------------------------------------
  // sha1
  // ---------------------------------------------------------------------

  /** The schedule loop for one chunk: sixteen unpacked words grown to
      eighty. */
  method ScheduleChunk(chunk: seq<byte>) returns (words: seq<bv32>)
    requires |chunk| == 64
    ensures |words| == 80 && words == Schedule(Unpack(chunk), RoundCount)
  {
    words := Unpack(chunk);
    var j := 16;
    while j < 80
      invariant 16 <= j <= 80
      invariant words == Schedule(Unpack(chunk), j)
    {
      var x := LeftRotate(words[j - 3] ^ words[j - 8] ^ words[j - 14] ^ words[j - 16], 1);
      assert x == Expand(words, j);
      words := words + [x];
      j := j + 1;
    }
  }

  /** The 80 rounds for one chunk from the chaining value `h`; returns the
      working variables `a..e` after round 79. */
  method RunRounds(h: State, words: seq<bv32>) returns (a: bv32, b: bv32, c: bv32, d: bv32, e: bv32)
    requires |words| == 80
    ensures State(a, b, c, d, e) == Rounds(h, words, RoundCount)
  {
    a, b, c, d, e := h.a, h.b, h.c, h.d, h.e;
    var j := 0;
    while j < 80
      invariant 0 <= j <= 80
      invariant State(a, b, c, d, e) == Rounds(h, words, j)
    {
      var f := RoundFunction(j, b, c, d);
      var k := RoundConstant(j);
      var wj := words[j];
      var temp := LeftRotate(a, 5) + f + e + k + wj;
      TempIs(a, f, e, k, wj);
      assert Rounds(h, words, j + 1) == Round(State(a, b, c, d, e), f, k, words[j]);
      assert Round(State(a, b, c, d, e), f, k, words[j]) == State(temp, a, LeftRotate(b, 30), c, d);
      e, d, c, b, a := d, c, LeftRotate(b, 30), a, temp;
      j := j + 1;
    }
  }

  /** The body of the chunk loop: schedule the chunk, run the 80 rounds
      from `h`, and add the result into `h` modulo 2^32. */
  method CompressChunk(h: State, chunk: seq<byte>) returns (next: State)
    requires |chunk| == 64
    ensures next == Compress(h, chunk)
  {
    var words := ScheduleChunk(chunk);
    var a, b, c, d, e := RunRounds(h, words);
    next := State(Add(h.a, a), Add(h.b, b), Add(h.c, c), Add(h.d, d), Add(h.e, e));
  }

  /** `sha1(message)`: pads the message, folds its blocks into `h0..h4`
      and packs them big-endian. */
  method Sha1(message: seq<byte>) returns (digest: seq<byte>)
    requires Encodable(message)
    ensures digest == Digest(message)
    ensures |digest| == 20
  {
    var padded := Sha1Padding(message);
    var h := HashBlocks(padded, |padded| / 64);
    digest := Pack(h);
    PackDecodes(h);
  }

  /** The chunk loop of `sha1`: folds the `blocks` 64-byte chunks of
      `padded` into `h0..h4`, starting from H(0); chunk `k` starts at byte
      `64 * k`. */
  method HashBlocks(padded: seq<byte>, blocks: nat) returns (h: State)
    requires |padded| == 64 * blocks
    ensures h == ProcessBlocks(InitialHash, padded, blocks)
  {
    h := State(0x67452301, 0xEFCDAB89, 0x98BADCFE, 0x10325476, 0xC3D2E1F0);
    for k := 0 to blocks
      invariant h == ProcessBlocks(InitialHash, padded, k)
    {
      h := CompressChunk(h, Block(padded, k));
      ProcessBlocksStep(InitialHash, padded, k);
    }
  }
}
