/** The launcher's hasher: a buffer, a running state and a length, fed piece by piece. */
module Sha1Stream {
  import opened Options
  import opened Sha1

  /** Choice and majority as the launcher writes them, with ors for exclusive ors. */
  function LauncherCh(x: bv32, y: bv32, z: bv32): bv32 { (x & y) | (!x & z) }

  function LauncherMaj(x: bv32, y: bv32, z: bv32): bv32 { (x & y) | (x & z) | (y & z) }

  lemma ChBits(x: bv32, y: bv32, z: bv32)
    ensures (x & y) | (!x & z) == (x & y) ^ (!x & z)
  {
  }

  lemma MajBits(x: bv32, y: bv32, z: bv32)
    ensures (x & y) | (x & z) | (y & z) == (x & y) ^ (x & z) ^ (y & z)
  {
  }

  lemma ChAsOr(x: bv32, y: bv32, z: bv32)
    ensures LauncherCh(x, y, z) == Ch(x, y, z)
  {
    ChBits(x, y, z);
  }

  lemma MajAsOr(x: bv32, y: bv32, z: bv32)
    ensures LauncherMaj(x, y, z) == Maj(x, y, z)
  {
    MajBits(x, y, z);
  }

  lemma CompressAllNext(h: Words, m: seq<byte>, block: Block)
    requires |m| % 64 == 0
    ensures CompressAll(h, m + block) == Compress(CompressAll(h, m), block)
  {
    assert (m + block)[..|m + block| - 64] == m && (m + block)[|m + block| - 64..] == block;
  }

  lemma WNext(block: Block, t: nat)
    ensures t < 16 ==> W(block, t) == Word(block[t * 4..(t + 1) * 4])
    ensures t >= 16 ==> W(block, t) == Rotl(Xor4(W(block, t - 3), W(block, t - 8), W(block, t - 14), W(block, t - 16)), 1)
  {
  }

  method Schedule(block: Block) returns (w: array<bv32>)
    ensures fresh(w) && w.Length == 80 && forall j :: 0 <= j < 80 ==> w[j] == W(block, j)
  {
    hide W, Word, Rotl, Xor4;
    w := new bv32[80];
    for i := 0 to 16
      invariant forall j :: 0 <= j < i ==> w[j] == W(block, j)
    {
      WNext(block, i);
      w[i] := Word(block[i * 4..(i + 1) * 4]);
    }
    for i := 16 to 80
      invariant forall j :: 0 <= j < i ==> w[j] == W(block, j)
    {
      WNext(block, i);
      w[i] := Rotl(Xor4(w[i - 3], w[i - 8], w[i - 14], w[i - 16]), 1);
    }
  }

  function LauncherF(i: nat, b: bv32, c: bv32, d: bv32): bv32 {
    if i <= 19 then LauncherCh(b, c, d)
    else if i <= 39 then Parity(b, c, d)
    else if i <= 59 then LauncherMaj(b, c, d)
    else Parity(b, c, d)
  }

  lemma LauncherFIsF(i: nat, b: bv32, c: bv32, d: bv32)
    ensures LauncherF(i, b, c, d) == F(i, b, c, d)
  {
    hide Ch, Maj, Parity, LauncherCh, LauncherMaj;
    ChAsOr(b, c, d);
    MajAsOr(b, c, d);
  }

  lemma RoundsNext(v: Vars, block: Block, i: nat)
    ensures Rounds(v, block, i + 1) == Round(Rounds(v, block, i), i, W(block, i))
  {
  }

  lemma RoundsNone(v: Vars, block: Block)
    ensures Rounds(v, block, 0) == v
  {
  }

  method RunRounds(start: Vars, block: Block, w: array<bv32>) returns (v: Vars)
    requires w.Length == 80 && forall j :: 0 <= j < 80 ==> w[j] == W(block, j)
    ensures v == Rounds(start, block, 80)
  {
    hide W, Rounds, F, LauncherF, Add, Rotl;
    var a, b, c, d, e := start.a, start.b, start.c, start.d, start.e;
    RoundsNone(start, block);
    for i := 0 to 80
      invariant Vars(a, b, c, d, e) == Rounds(start, block, i)
    {
      RoundsNext(start, block, i);
      LauncherFIsF(i, b, c, d);
      var f, k := LauncherF(i, b, c, d), if i <= 19 then 0x5A827999 else if i <= 39 then 0x6ED9EBA1 else if i <= 59 then 0x8F1BBCDC else 0xCA62C1D6;
      var temp := Add(Add(Add(Add(Rotl(a, 5), f), e), k), w[i]);
      e := d;
      d := c;
      c := Rotl(b, 30);
      b := a;
      a := temp;
    }
    v := Vars(a, b, c, d, e);
  }

  /** Below the target, one more zero byte is still within the padding. */
  lemma PadStep(n: nat, rest: nat, zeros: nat)
    requires rest == n % 64 && zeros <= PadZeros(n)
    ensures (rest + 1 + zeros) % 64 == 56 <==> zeros == PadZeros(n)
  {
    var z := PadZeros(n);
    var q := (55 - n) / 64;
    assert 55 - n == 64 * q + z;
    var p := n / 64;
    assert n == 64 * p + rest;
    assert rest + 1 + z == 56 - 64 * (q + p);
  }

  lemma BitLengthWraps(n: nat)
    ensures n % TWO_TO_64 * 8 % TWO_TO_64 == 8 * n % TWO_TO_64
  {
    var q := n / TWO_TO_64;
    assert 8 * n == 8 * q * TWO_TO_64 + n % TWO_TO_64 * 8;
  }

  lemma PaddedSplit(done: seq<byte>, rest: seq<byte>, zeros: seq<byte>, bits: seq<byte>)
    ensures done + (rest + [0x80] + zeros + bits) == done + rest + [0x80] + zeros + bits
  {
  }

  lemma MultipleRest(all: nat, done: nat)
    requires all % 64 == 0 && done % 64 == 0 && done <= all
    ensures (all - done) % 64 == 0
  {
  }

  lemma LengthWraps(a: nat, b: nat)
    ensures (a % TWO_TO_64 + b) % TWO_TO_64 == (a + b) % TWO_TO_64
  {
    var q := a / TWO_TO_64;
    assert a + b == q * TWO_TO_64 + (a % TWO_TO_64 + b);
  }

  class Sha1Hasher {
    var state: array<bv32>
    var buffer: seq<byte>
    var length: nat  // a 64 bit counter
    ghost var message: seq<byte>

    constructor ()
      ensures Valid() && message == [] && fresh(state)
    {
      state := new bv32[5](i requires 0 <= i < 5 => IV[i]);
      buffer, length, message := [], 0, [];
      new;
      assert state[..] == IV;
    }

    /** The part of the message that has gone through the compression function. */
    ghost function Processed(): seq<byte>
      requires |buffer| <= |message|
      reads this
    {
      message[..|message| - |buffer|]
    }

    /** All but the last, incomplete block has been compressed; that block waits in the buffer. */
    ghost predicate Streaming()
      reads this, state
    {
      && state.Length == 5 && |buffer| <= |message| && message == Processed() + buffer
      && |Processed()| % 64 == 0 && state[..] == CompressAll(IV, Processed())
    }

    ghost predicate Valid()
      reads this, state
    {
      Streaming() && |buffer| < 64 && length == |message| % TWO_TO_64
    }

    method ProcessBlock(block: Block)
      requires state.Length == 5
      modifies state
      ensures state[..] == Compress(old(state[..]), block)
    {
      hide W, Rounds, Add;
      var w := Schedule(block);
      var v := RunRounds(Vars(state[0], state[1], state[2], state[3], state[4]), block, w);
      state[0] := Add(state[0], v.a);
      state[1] := Add(state[1], v.b);
      state[2] := Add(state[2], v.c);
      state[3] := Add(state[3], v.d);
      state[4] := Add(state[4], v.e);
    }

    method Update(data: seq<byte>)
      requires Valid()
      modifies this`buffer, this`length, this`message, state
      ensures Valid() && message == old(message) + data
    {
      hide CompressAll, IV;
      ghost var done := Processed();
      assert Streaming();
      buffer := buffer + data;
      length := (length + |data|) % TWO_TO_64;
      message := message + data;
      LengthWraps(|old(message)|, |data|);
      assert message == done + buffer;
      assert Processed() == done;
      while |buffer| >= 64
        invariant Streaming() && message == old(message) + data && length == |message| % TWO_TO_64
        decreases |buffer|
      {
        DrainBlock();
      }
    }

    /** Compresses the first 64 buffered bytes and drops them. */
    method DrainBlock()
      requires Streaming() && |buffer| >= 64
      modifies this`buffer, state
      ensures Streaming() && |buffer| == |old(buffer)| - 64
    {
      var block: Block := buffer[..64];
      CompressAllNext(IV, Processed(), block);
      ghost var done := Processed();
      ProcessBlock(block);
      buffer := buffer[64..];
      assert Processed() == done + block;
    }

    /** The last one or two blocks. */
    method DrainAll()
      requires Streaming() && |buffer| % 64 == 0
      modifies this`buffer, state
      ensures state.Length == 5 && state[..] == CompressAll(IV, message)
    {
      hide CompressAll, IV;
      while buffer != []
        invariant Streaming() && |buffer| % 64 == 0
        decreases |buffer|
      {
        DrainBlock();
      }
      assert Processed() == message;
    }

    /** Padding: the end mark, zeros up to 56 modulo 64, the bit length as a big-endian 64 bit number. */
    method Pad()
      requires Valid()
      modifies this`buffer
      ensures buffer == old(buffer) + [0x80] + Zeros(PadZeros(|message|)) + BigEndian(8 * |message| % TWO_TO_64, 8)
    {
      hide BigEndian, CompressAll, IV, PadZeros;
      var bitLength := length * 8 % TWO_TO_64;
      BitLengthWraps(|message|);
      ghost var rest := |buffer|;
      assert rest == |message| % 64 by { assert |message| == |Processed()| + rest; }
      buffer := buffer + [0x80];
      ghost var zeros := 0;
      PadStep(|message|, rest, 0);
      while |buffer| % 64 != 56
        invariant buffer == old(buffer) + [0x80] + Zeros(zeros) && zeros <= PadZeros(|message|)
        decreases PadZeros(|message|) - zeros
      {
        PadStep(|message|, rest, zeros);
        buffer := buffer + [0];
        zeros := zeros + 1;
      }
      PadStep(|message|, rest, zeros);
      buffer := buffer + BigEndian(bitLength, 8);
    }

    /** The digest as lower-case hexadecimal; the hasher is used up. */
    method Finalize() returns (digest: string)
      requires Valid()
      modifies this`buffer, this`message, state
      ensures digest == Hex(Digest(old(message)))
    {
      hide BigEndian, CompressAll, IV, Hex, Zeros, PadZeros, HexWord;
      ghost var m := message;
      ghost var done := Processed();
      ghost var rest := buffer;
      Pad();
      PaddedSplit(done, rest, Zeros(PadZeros(|m|)), BigEndian(8 * |m| % TWO_TO_64, 8));
      message := done + buffer;
      assert message == Padded(m);
      MultipleRest(|message|, |done|);
      assert Processed() == done;
      DrainAll();
      digest := PrintState();
    }

    method PrintState() returns (digest: string)
      requires state.Length == 5
      ensures digest == Hex(state[..])
    {
      hide HexWord, Hex;
      digest := "";
      HexFromStart(state[..]);
      for i := 0 to 5
        invariant digest + HexFrom(state[..], i) == Hex(state[..])
      {
        Regroup(digest, HexWord(state[i]), HexFrom(state[..], i + 1));
        digest := digest + HexWord(state[i]);
      }
      assert digest + "" == digest;
    }
  }

  /** What is printed from the i-th word on. */
  ghost function HexFrom(h: Words, i: nat): string
    requires i <= 5
    decreases 5 - i
  {
    if i == 5 then "" else HexWord(h[i]) + HexFrom(h, i + 1)
  }

  lemma HexFromStart(h: Words)
    ensures "" + HexFrom(h, 0) == Hex(h)
  {
    hide HexWord;
    assert HexFrom(h, 4) == HexWord(h[4]) + "" == HexWord(h[4]);
    assert HexFrom(h, 2) == HexWord(h[2]) + (HexWord(h[3]) + HexFrom(h, 4));
    assert HexFrom(h, 0) == HexWord(h[0]) + (HexWord(h[1]) + HexFrom(h, 2));
    assert "" + HexFrom(h, 0) == HexFrom(h, 0);
  }

  lemma Regroup(a: string, b: string, c: string)
    ensures (a + b) + c == a + (b + c)
  {
  }

  const READ_SIZE: nat := 8192

  /** What reading a file delivers: its bytes, up to an error if there is one. */
  datatype Reading = Reading(content: seq<byte>, failed: bool)

  /** Hashes a file, however the system cuts it into reads of 1 to 8192 bytes. */
  method Sha1File(file: Reading) returns (digest: Option<string>)
    ensures digest == if file.failed then None else Some(Hex(Digest(file.content)))
  {
    hide CompressAll, IV, Digest, Hex, Sha1Hasher.Streaming;
    var hasher := new Sha1Hasher();
    var rest := file.content;
    while rest != []
      invariant hasher.Valid() && fresh(hasher) && fresh(hasher.state) && file.content == hasher.message + rest
      decreases |rest|
    {
      var n: nat :| 1 <= n <= |rest| && n <= READ_SIZE;
      hasher.Update(rest[..n]);
      rest := rest[n..];
    }
    assert hasher.message == file.content;
    if file.failed { return None; }
    var printed := hasher.Finalize();
    digest := Some(printed);
  }

  /** The destination is a file and, if a digest is expected, can be read to its end and has that digest. */
  ghost predicate Skips(file: Option<Reading>, expected: Option<string>) {
    file.Some? && (expected.Some? ==> !file.value.failed && Hex(Digest(file.value.content)) == expected.value)
  }

  method ShouldSkip(file: Option<Reading>, expected: Option<string>) returns (skip: bool)
    ensures skip <==> Skips(file, expected)
  {
    if file.None? {
      return false;
    }
    match expected
    case Some(digest) =>
      var actual := Sha1File(file.value);
      match actual {
        case Some(printed) => skip := printed == digest;
        case None => skip := false;
      }
    case None =>
      skip := true;
  }

  /** With the digest of a published file expected, a download is skipped exactly when the file in place
      can be read and has the published digest, not just the same print. */
  lemma SkippedMatches(file: Option<Reading>, published: seq<byte>)
    ensures Skips(file, Some(Hex(Digest(published)))) <==>
      file.Some? && !file.value.failed && Digest(file.value.content) == Digest(published)
  {
    hide Hex, Digest;
    if Skips(file, Some(Hex(Digest(published)))) {
      HexInjective(Digest(file.value.content), Digest(published));
    }
  }
}
