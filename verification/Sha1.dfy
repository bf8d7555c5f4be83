/** The streaming SHA-1 object: a byte buffer, a split bit counter and padding, proved against the standard. */
module Sha1 {
  import opened BigEndianBytes
  import opened Sha1Standard
  import Sha1EmptyMessage

  function HashOf(h: seq<bv32>): Hash
    requires |h| == 5
  {
    Hash(h[0], h[1], h[2], h[3], h[4])
  }

  // ----- The word operations of the implementation are those of the standard -----

  /** The implementation combines the shifted halves with exclusive or. */
  function LeftRotate(x: bv32, n: nat): bv32
    requires 0 < n < 32
  {
    (x << n) ^ (x >> (32 - n))
  }

  lemma RotatesAgree(x: bv32)
    ensures LeftRotate(x, 1) == RotL1(x)
    ensures LeftRotate(x, 5) == RotL5(x)
    ensures LeftRotate(x, 30) == RotL30(x)
  {
  }

  /** The implementation uses inclusive or in the choice and majority functions. */
  function Mix(t: nat, b: bv32, c: bv32, d: bv32): bv32 {
    if t < 20 then (b & c) | (!b & d)
    else if t < 40 then b ^ c ^ d
    else if t < 60 then (b & c) | (b & d) | (c & d)
    else b ^ c ^ d
  }

  lemma MixAgrees(t: nat, b: bv32, c: bv32, d: bv32)
    ensures Mix(t, b, c, d) == F(t, b, c, d)
  {
    assert (b & c) | (!b & d) == (b & c) ^ (!b & d);
    assert (b & c) | (b & d) | (c & d) == (b & c) ^ (b & d) ^ (c & d);
  }

  /** The new value of a in one round, as the implementation computes it. */
  function Temp(t: nat, a: bv32, b: bv32, c: bv32, d: bv32, e: bv32, w: bv32): bv32 {
    Sum5(LeftRotate(a, 5), Mix(t, b, c, d), e, K(t), w)
  }

  lemma RoundAgrees(h: Hash, t: nat, w: bv32)
    ensures Hash(Temp(t, h.a, h.b, h.c, h.d, h.e, w), h.a, LeftRotate(h.b, 30), h.c, h.d) == Round(h, t, w)
  {
    hide F, Mix, K, LeftRotate, RotL1, RotL5, RotL30, Sum5;
    MixAgrees(t, h.b, h.c, h.d);
    RotatesAgree(h.a);
    RotatesAgree(h.b);
  }

  // ----- One block -----

  /** The word the implementation stores at position i of its schedule. */
  method ScheduleWord(block: array<bv8>, w: array<bv32>, i: nat)
    requires block.Length == 64 && i < w.Length
    modifies w
    ensures w[..i] == old(w[..i]) && w[i] == NextWord(block[..], w[..i])
  {
    hide BigEndian, RotL1, LeftRotate, Xor4;
    ghost var before := w[..i];
    if i < 16 {
      w[i] := BigEndian(block[i * 4], block[i * 4 + 1], block[i * 4 + 2], block[i * 4 + 3]);
    } else {
      var x := Xor4(w[i - 3], w[i - 8], w[i - 14], w[i - 16]);
      RotatesAgree(x);
      w[i] := LeftRotate(x, 1);
    }
    assert w[..i] == before;
  }

  method FillSchedule(block: array<bv8>, w: array<bv32>)
    requires block.Length == 64 && w.Length == 80
    modifies w
    ensures w[..] == Schedule(block[..], 80)
  {
    hide NextWord;
    var i := 0;
    while i < 80
      invariant 0 <= i <= 80 && w[..i] == Schedule(block[..], i)
    {
      ScheduleWord(block, w, i);
      assert w[..i + 1] == w[..i] + [w[i]];
      i := i + 1;
    }
    assert w[..80] == w[..];
  }

  /** `process_block_impl` is one compression step of the standard. */
  method ProcessBlock(h: array<bv32>, block: array<bv8>)
    requires h.Length == 5 && block.Length == 64
    modifies h
    ensures HashOf(h[..]) == Compress(HashOf(old(h[..])), block[..])
  {
    hide Schedule, Round, Temp, LeftRotate, Sum;
    var w := new bv32[80];
    FillSchedule(block, w);
    ghost var begin := HashOf(h[..]);
    var a, b, c, d, e := h[0], h[1], h[2], h[3], h[4];
    var i := 0;
    while i < 80
      invariant 0 <= i <= 80 && w[..] == Schedule(block[..], 80)
      invariant HashOf(h[..]) == begin
      invariant Hash(a, b, c, d, e) == Rounds(begin, w[..], i)
    {
      RoundAgrees(Hash(a, b, c, d, e), i, w[i]);
      a, b, c, d, e := Temp(i, a, b, c, d, e, w[i]), a, LeftRotate(b, 30), c, d;
      i := i + 1;
    }
    h[0], h[1], h[2], h[3], h[4] := Sum(h[0], a), Sum(h[1], b), Sum(h[2], c), Sum(h[3], d), Sum(h[4], e);
  }

  // ----- The stream -----

  /** The data fed so far: whole blocks are absorbed, the rest is in the buffer. */
  ghost predicate Streamed(start: Hash, fed: seq<bv8>, h: Hash, buffered: seq<bv8>) {
    && |buffered| == |fed| % 64
    && buffered == fed[|fed| - |buffered|..]
    && h == Absorb(start, fed[..|fed| - |buffered|])
  }

  lemma StreamMore(start: Hash, fed: seq<bv8>, h: Hash, buffered: seq<bv8>, byte: bv8)
    requires Streamed(start, fed, h, buffered)
    ensures |buffered| < 63 ==> Streamed(start, fed + [byte], h, buffered + [byte])
    ensures |buffered| == 63 ==> Streamed(start, fed + [byte], Compress(h, buffered + [byte]), [])
  {
    hide Compress;
    var longer := fed + [byte];
    var q := |fed| - |buffered|;
    assert longer[..q] == fed[..q];
    assert longer[q..] == buffered + [byte];
    if |buffered| == 63 {
      assert |longer| % 64 == 0;
      assert longer[..|longer| - 64] == fed[..q];
      assert longer[|longer| - 64..] == buffered + [byte];
      assert longer[..|longer|] == longer;
    }
  }

  lemma NoZeros(prefix: seq<bv8>)
    ensures prefix == prefix + ZeroBytes(0)
  {
  }

  lemma GapReached(n: nat, first: nat, z: nat)
    requires first == (n + 1) % 64
    requires z == if first > 56 then 120 - first else 56 - first
    ensures z == Gap(n)
  {
  }

  class Stream {
    const h: array<bv32>
    const block: array<bv8>
    var index: nat
    var low: nat
    var high: nat
    ghost var start: Hash
    ghost var fed: seq<bv8>

    ghost predicate Valid()
      reads this, h, block
    {
      && h.Length == 5 && block.Length == 64 && index < 64
      && Streamed(start, fed, HashOf(h[..]), block[..index])
    }

    /** The split counter holds eight times the number of message bytes. */
    ghost predicate Counted(n: nat)
      reads this
    {
      low % 8 == 0 && low <= 0xFFFF_FFF8 && high <= 0xFFFF_FFFF && high * 0x1_0000_0000 + low == 8 * n
    }

    /** All members zero, before `reset` has run. */
    constructor ()
      ensures Valid() && fresh(h) && fresh(block) && fed == [] && start == Hash(0, 0, 0, 0, 0) && Counted(0)
    {
      h := new bv32[5](_ => 0);
      block := new bv8[64](_ => 0);
      index, low, high := 0, 0, 0;
      start, fed := Hash(0, 0, 0, 0, 0), [];
    }

    method Reset()
      requires Valid()
      modifies this, h
      ensures Valid() && fed == [] && start == INITIAL && Counted(0)
    {
      h[0], h[1], h[2], h[3], h[4] := 0x67452301, 0xEFCDAB89, 0x98BADCFE, 0x10325476, 0xC3D2E1F0;
      index, low, high := 0, 0, 0;
      start, fed := INITIAL, [];
    }

    method ProcessByteImpl(byte: bv8)
      requires Valid()
      modifies this`index, this`fed, h, block
      ensures Valid() && fed == old(fed) + [byte]
    {
      hide Streamed, Compress;
      BufferSize();
      StreamMore(start, fed, HashOf(h[..]), block[..index], byte);
      ghost var buffered := block[..index];
      block[index] := byte;
      index := index + 1;
      assert block[..index] == buffered + [byte];
      fed := fed + [byte];
      if index == 64 {
        index := 0;
        assert block[..] == block[..64];
        ProcessBlock(h, block);
        assert block[..0] == [];
      }
    }

    lemma BufferSize()
      requires Valid()
      ensures index == |fed| % 64 && |block[..index]| == index
    {
    }

    /** Feeds a message byte and counts it; fails where the library reports too many bytes. */
    method ProcessByte(byte: bv8, ghost n: nat) returns (ok: bool)
      requires Valid() && Counted(n)
      modifies this, h, block
      ensures Valid() && fed == old(fed) + [byte] && start == old(start)
      ensures ok <==> n + 1 < 0x2000_0000_0000_0000
      ensures ok ==> Counted(n + 1)
    {
      hide Streamed;
      ProcessByteImpl(byte);
      if low < 0xFFFF_FFF8 {
        low := low + 8;
        ok := true;
      } else {
        low := 0;
        if high <= 0xFFFF_FFFE {
          high := high + 1;
          ok := true;
        } else {
          ok := false;
        }
      }
    }

    /** Feeds a whole message from a fresh counter. */
    method ProcessBytes(bytes: seq<bv8>) returns (ok: bool)
      requires Valid() && Counted(0)
      modifies this, h, block
      ensures Valid() && start == old(start)
      ensures ok <==> |bytes| < 0x2000_0000_0000_0000
      ensures ok ==> Counted(|bytes|) && fed == old(fed) + bytes
    {
      hide Streamed, Valid, Counted;
      var i := 0;
      assert fed == old(fed) + bytes[..0];
      while i < |bytes|
        invariant 0 <= i <= |bytes| && i < 0x2000_0000_0000_0000
        invariant Valid() && start == old(start) && Counted(i) && fed == old(fed) + bytes[..i]
      {
        ok := ProcessByte(bytes[i], i);
        if !ok {
          return;
        }
        assert bytes[..i + 1] == bytes[..i] + [bytes[i]];
        i := i + 1;
      }
      assert bytes[..i] == bytes;
      ok := true;
    }

    method FeedZero(ghost prefix: seq<bv8>, ghost z: nat)
      requires Valid() && fed == prefix + ZeroBytes(z)
      modifies this`index, this`fed, h, block
      ensures Valid() && fed == prefix + ZeroBytes(z + 1)
      ensures index == if old(index) == 63 then 0 else old(index) + 1
    {
      hide Streamed, Valid;
      BufferSize();
      ProcessByteImpl(0);
      BufferSize();
    }

    /** Appends zero bytes up to position 56 of a block, through the end of this one if need be. */
    method FeedGap(ghost message: seq<bv8>)
      requires Valid() && fed == message + [0x80]
      modifies this`index, this`fed, h, block
      ensures Valid() && fed == message + [0x80] + ZeroBytes(Gap(|message|))
    {
      hide *;
      BufferSize();
      ghost var prefix := message + [0x80];
      ghost var first: nat, z: nat := index, 0;
      NoZeros(prefix);
      if index > 56 {
        while index != 0
          invariant Valid() && fed == prefix + ZeroBytes(z) && index < 64
          invariant if index == 0 then z == 64 - first else z == index - first
          decreases 64 - z
        {
          FeedZero(prefix, z);
          z := z + 1;
        }
      }
      while index < 56
        invariant Valid() && fed == prefix + ZeroBytes(z)
        invariant 0 <= index <= 56 && z + first == index + (if first > 56 then 64 else 0)
        decreases 56 - index
      {
        FeedZero(prefix, z);
        z := z + 1;
      }
      GapReached(|message|, first, z);
    }

    /** Four bytes of a counter half, most significant first. */
    method FeedWord(w: nat)
      requires Valid()
      modifies this`index, this`fed, h, block
      ensures Valid() && fed == old(fed) + WordBytes(w)
    {
      hide Streamed, Valid;
      ProcessByteImpl((w / 0x100_0000 % 0x100) as bv8);
      ProcessByteImpl((w / 0x1_0000 % 0x100) as bv8);
      ProcessByteImpl((w / 0x100 % 0x100) as bv8);
      ProcessByteImpl((w % 0x100) as bv8);
    }

    /** The digest of everything fed, from whatever hash value the stream started with. */
    method GetDigest(ghost message: seq<bv8>) returns (digest: Hash)
      requires Valid() && fed == message && Counted(|message|)
      modifies this`index, this`fed, h, block
      ensures Valid() && fed == Padded(message)
      ensures digest == DigestFrom(start, message)
    {
      hide Streamed, Valid, ZeroBytes, Gap, WordBytes, Absorb;
      ghost var bits := 8 * |message|;
      ProcessByteImpl(0x80);
      FeedGap(message);
      FeedWord(high);
      FeedWord(low);
      CounterHalves(|message|);
      assert fed == message + ([0x80] + ZeroBytes(Gap(|message|)) + (WordBytes(high) + WordBytes(low)));
      assert fed == Padded(message);
      digest := Output();
    }

    /** With no byte buffered, the hash words are those of everything fed. */
    method Output() returns (digest: Hash)
      requires Valid() && |fed| % 64 == 0
      ensures digest == Absorb(start, fed)
    {
      assert fed[..|fed|] == fed;
      digest := Hash(h[0], h[1], h[2], h[3], h[4]);
    }

    lemma CounterHalves(n: nat)
      requires Counted(n)
      ensures 8 * n / 0x1_0000_0000 == high && 8 * n % 0x1_0000_0000 == low
    {
    }
  }

  const ALL_ZERO: Hash := Hash(0, 0, 0, 0, 0)

  /** The hash value a new object starts from: `reset` runs only for a non-empty string. */
  function StartOf(s: seq<bv8>): Hash {
    if s == [] then ALL_ZERO else INITIAL
  }

  /** Construction from a string and one request for the digest: the standard's, except for no bytes. */
  method HashString(s: seq<bv8>) returns (ok: bool, digest: Hash)
    ensures ok <==> |s| < 0x2000_0000_0000_0000
    ensures ok ==> digest == DigestFrom(StartOf(s), s)
    ensures ok ==> (digest == Digest(s) <==> s != [])
  {
    hide DigestFrom;
    Sha1EmptyMessage.EmptyMessageDiffers();
    var stream := new Stream();
    ok, digest := true, ALL_ZERO;
    if s != [] {
      stream.Reset();
      ok := stream.ProcessBytes(s);
      if !ok {
        return;
      }
    }
    digest := stream.GetDigest(s);
  }
}
