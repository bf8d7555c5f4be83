/** Words of four bytes, most significant first, and the numbers they write. */
module BigEndianBytes {

  function BigEndian(b0: bv8, b1: bv8, b2: bv8, b3: bv8): bv32 {
    ((b0 as bv32) << 24) | ((b1 as bv32) << 16) | ((b2 as bv32) << 8) | (b3 as bv32)
  }

  // ----- Four bytes, most significant first, are the number they write -----

  function AppendByte(x: bv32, b: bv8): bv32 {
    (x << 8) | (b as bv32)
  }

  lemma ShiftIsTimes(x: bv32)
    requires x <= 0xFF_FFFF
    ensures (x << 8) as nat == x as nat * 0x100
    ensures (x << 8) & 0xFF == 0
  {
  }

  lemma OrIsPlus(x: bv32, b: bv8)
    requires x & 0xFF == 0
    ensures (x | (b as bv32)) as nat == x as nat + b as nat
  {
  }

  lemma AppendIsHorner(x: bv32, b: bv8)
    requires x <= 0xFF_FFFF
    ensures AppendByte(x, b) as nat == x as nat * 0x100 + b as nat
  {
    ShiftIsTimes(x);
    OrIsPlus(x << 8, b);
  }

  lemma ByteWidens(b: bv8)
    ensures (b as bv32) as nat == b as nat
  {
  }

  lemma FourAppended(b0: bv8, b1: bv8, b2: bv8, b3: bv8)
    ensures var x := AppendByte(b0 as bv32, b1);
      var y := AppendByte(x, b2);
      b0 as bv32 <= 0xFF_FFFF && x <= 0xFF_FFFF && y <= 0xFF_FFFF && AppendByte(y, b3) == BigEndian(b0, b1, b2, b3)
  {
  }

  /** The word of four bytes is the number they write, most significant first. */
  lemma BigEndianIsNumber(b0: bv8, b1: bv8, b2: bv8, b3: bv8)
    ensures BigEndian(b0, b1, b2, b3) as nat == b0 as nat * 0x100_0000 + b1 as nat * 0x1_0000 + b2 as nat * 0x100 + b3 as nat
  {
    hide BigEndian, AppendByte;
    FourAppended(b0, b1, b2, b3);
    ByteWidens(b0);
    var x := AppendByte(b0 as bv32, b1);
    AppendIsHorner(b0 as bv32, b1);
    AppendIsHorner(x, b2);
    AppendIsHorner(AppendByte(x, b2), b3);
  }

  // ----- A number as four bytes -----

  function WordBytes(w: nat): (b: seq<bv8>)
    ensures |b| == 4
  {
    [(w / 0x100_0000 % 0x100) as bv8, (w / 0x1_0000 % 0x100) as bv8, (w / 0x100 % 0x100) as bv8, (w % 0x100) as bv8]
  }

  lemma Digits(w: nat)
    requires w < 0x1_0000_0000
    ensures w == (w / 0x100_0000 % 0x100) * 0x100_0000 + (w / 0x1_0000 % 0x100) * 0x1_0000 + (w / 0x100 % 0x100) * 0x100 + w % 0x100
  {
    assert w / 0x100_0000 % 0x100 == w / 0x100_0000;
    assert w / 0x1_0000 == w / 0x100_0000 * 0x100 + w / 0x1_0000 % 0x100;
    assert w / 0x100 == w / 0x1_0000 * 0x100 + w / 0x100 % 0x100;
  }

  lemma ByteSurvives(b: bv8)
    ensures (b as nat) as bv8 == b
  {
  }

  lemma ByteNext(b: bv8)
    requires b as nat < 0xFF
    ensures b < 0xFF && (b + 1) as nat == b as nat + 1
  {
  }

  lemma {:induction false} ByteOf(x: nat) returns (b: bv8)
    requires x < 0x100
    ensures b as nat == x
  {
    b := 0;
    if x > 0 {
      var c := ByteOf(x - 1);
      ByteNext(c);
      b := c + 1;
    }
  }

  lemma ByteReads(x: nat)
    requires x < 0x100
    ensures (x as bv8) as nat == x
  {
    var b := ByteOf(x);
    ByteSurvives(b);
  }

  lemma WordBytesAt(w: nat)
    ensures WordBytes(w)[0] as nat == w / 0x100_0000 % 0x100
    ensures WordBytes(w)[1] as nat == w / 0x1_0000 % 0x100
    ensures WordBytes(w)[2] as nat == w / 0x100 % 0x100
    ensures WordBytes(w)[3] as nat == w % 0x100
  {
    ByteReads(w / 0x100_0000 % 0x100);
    ByteReads(w / 0x1_0000 % 0x100);
    ByteReads(w / 0x100 % 0x100);
    ByteReads(w % 0x100);
  }

  /** The number that four bytes write, most significant first. */
  function FourBytes(b: seq<bv8>): nat
    requires |b| == 4
  {
    b[0] as nat * 0x100_0000 + b[1] as nat * 0x1_0000 + b[2] as nat * 0x100 + b[3] as nat
  }

  lemma WordBytesRead(w: nat)
    requires w < 0x1_0000_0000
    ensures var b := WordBytes(w);
      w == FourBytes(b) == b[0] as nat * 0x100_0000 + b[1] as nat * 0x1_0000 + b[2] as nat * 0x100 + b[3] as nat
  {
    hide WordBytes;
    WordBytesAt(w);
    Digits(w);
  }
}
