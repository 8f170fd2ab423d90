/** CRC-32: the nibble-table form of the file system, the generated 256-entry form of the boot
    loader, and the bit-serial division both implement. */
module Crc {
  import opened Words

  /** The generator polynomial of section 3.2.9 of IEEE 802.3, highest power first, and the same
      polynomial with its bits reversed. */
  const POLYNOMIAL: Word := 0x04c1_1db7
  const REVERSED: Word := 0xedb8_8320

  const NIBBLE: nat := 4
  const BYTE: nat := 8
  const WIDTH: nat := 32

  predicate Odd(c: Word) {
    c & 1 == 1
  }

  function Half(c: Word): Word {
    c >> 1
  }

  function High(c: Word): Word {
    c >> 4
  }

  function Low(c: Word): Word {
    c & 0xf
  }

  /** One step of the division: the remainder shifted by one power, lowest bit first. */
  function Bit(c: Word, poly: Word): Word {
    if Odd(c) then Xor(poly, Half(c)) else Half(c)
  }

  function Bits(c: Word, poly: Word, n: nat): Word
    decreases n
  {
    if n == 0 then c else Bits(Bit(c, poly), poly, n - 1)
  }

  /** One byte fed to the division. */
  function Feed(crc: Word, b: Byte): Word {
    Bits(Xor(crc, b as Word), REVERSED, BYTE)
  }

  /** The checksum of a byte sequence, from a start value. */
  function Crc(crc: Word, data: seq<Byte>): Word
    decreases |data|
  {
    if data == [] then crc else Crc(Feed(crc, data[0]), data[1..])
  }

  lemma {:induction false} CrcAppend(crc: Word, a: seq<Byte>, b: seq<Byte>)
    ensures Crc(crc, a + b) == Crc(Crc(crc, a), b)
    decreases |a|
  {
    if a == [] {
      assert a + b == b;
    } else {
      assert (a + b)[1..] == a[1..] + b;
      CrcAppend(Feed(crc, a[0]), a[1..], b);
    }
  }

  lemma {:induction false} BitsTwice(c: Word, poly: Word, m: nat, n: nat)
    ensures Bits(c, poly, m + n) == Bits(Bits(c, poly, m), poly, n)
    decreases m
  {
    if m > 0 {
      BitsTwice(Bit(c, poly), poly, m - 1, n);
    }
  }

  lemma XorHalf(a: Word, b: Word)
    ensures Half(Xor(a, b)) == Xor(Half(a), Half(b))
    ensures Odd(Xor(a, b)) <==> Odd(a) != Odd(b)
  {
  }

  lemma XorHigh(a: Word, b: Word)
    ensures High(Xor(a, b)) == Xor(High(a), High(b))
  {
  }

  lemma BitXor(a: Word, b: Word, poly: Word)
    ensures Bit(Xor(a, b), poly) == Xor(Bit(a, poly), Bit(b, poly))
  {
    XorHalf(a, b);
    var x, y := Half(a), Half(b);
    XorAssociates(poly, x, y);
    XorAssociates(x, poly, y);
    XorCommutes(x, poly);
    XorAssociates(x, poly, Xor(poly, y));
    XorAssociates(poly, x, Xor(poly, y));
    XorAssociates(poly, poly, y);
    XorSelf(poly);
    XorSelf(y);
  }

  /** Division is linear. */
  lemma {:induction false} BitsXor(a: Word, b: Word, poly: Word, n: nat)
    ensures Bits(Xor(a, b), poly, n) == Xor(Bits(a, poly, n), Bits(b, poly, n))
    decreases n
  {
    if n > 0 {
      BitXor(a, b, poly);
      BitsXor(Bit(a, poly), Bit(b, poly), poly, n - 1);
    }
  }

  // ---- the nibble table ----

  const RTABLE: seq<Word> := [
    0x00000000, 0x1db71064, 0x3b6e20c8, 0x26d930ac, 0x76dc4190, 0x6b6b51f4, 0x4db26158, 0x5005713c,
    0xedb88320, 0xf00f9344, 0xd6d6a3e8, 0xcb61b38c, 0x9b64c2b0, 0x86d3d2d4, 0xa00ae278, 0xbdbdf21c]

  lemma LowIsBounded(x: Word)
    ensures Low(x) as nat < 16 && (x & 0xff) as nat < 256
  {
    var y := (x & 0xf) as Byte;
    assert x & 0xf == y as Word;
  }

  /** The table entry picked by the low four bits. */
  function Entry(x: Word): Word {
    LowIsBounded(x);
    RTABLE[Low(x) as nat]
  }

  function FourBits(x: Word): Word {
    Bit(Bit(Bit(Bit(x, REVERSED), REVERSED), REVERSED), REVERSED)
  }

  lemma FirstEntries(k: Word)
    requires k < 4
    ensures RTABLE[k as nat] == FourBits(k)
  {
    if
    case k == 0 => assert k as nat == 0;
    case k == 1 => assert k as nat == 1;
    case k == 2 => assert k as nat == 2;
    case k == 3 => assert k as nat == 3;
  }

  lemma NextEntries(k: Word)
    requires 4 <= k < 8
    ensures k as nat < 16 && RTABLE[k as nat] == FourBits(k)
  {
    if
    case k == 4 => assert k as nat == 4;
    case k == 5 => assert k as nat == 5;
    case k == 6 => assert k as nat == 6;
    case k == 7 => assert k as nat == 7;
  }

  lemma HighEntries(k: Word)
    requires 8 <= k < 16
    ensures k as nat < 16 && RTABLE[k as nat] == FourBits(k)
  {
    if
    case k == 8 => assert k as nat == 8;
    case k == 9 => assert k as nat == 9;
    case k == 10 => assert k as nat == 10;
    case k == 11 => assert k as nat == 11;
    case k == 12 => assert k as nat == 12;
    case k == 13 => assert k as nat == 13;
    case k == 14 => assert k as nat == 14;
    case k == 15 => assert k as nat == 15;
  }

  /** Four zero bits at the bottom are only shifted out. */
  lemma HighFour(x: Word)
    requires Low(x) == 0
    ensures FourBits(x) == High(x)
  {
    assert !Odd(x) && !Odd(Half(x)) && !Odd(Half(Half(x))) && !Odd(Half(Half(Half(x))));
    assert Half(Half(Half(Half(x)))) == High(x);
  }

  lemma FourXor(a: Word, b: Word)
    ensures FourBits(Xor(a, b)) == Xor(FourBits(a), FourBits(b))
  {
    BitsXor(a, b, REVERSED, NIBBLE);
    FourSteps(a);
    FourSteps(b);
    FourSteps(Xor(a, b));
  }

  lemma FourSteps(x: Word)
    ensures Bits(x, REVERSED, NIBBLE) == FourBits(x)
  {
    assert Bits(x, REVERSED, 4) == Bits(Bit(Bit(x, REVERSED), REVERSED), REVERSED, 2);
  }

  lemma EightSteps(x: Word)
    ensures Bits(x, REVERSED, BYTE) == FourBits(FourBits(x))
  {
    BitsTwice(x, REVERSED, NIBBLE, NIBBLE);
    FourSteps(x);
    FourSteps(FourBits(x));
  }

  lemma LowAndHigh(x: Word)
    ensures Xor(x & 0xffff_fff0, Low(x)) == x && Low(x & 0xffff_fff0) == 0 && High(x & 0xffff_fff0) == High(x)
    ensures Low(x) < 16
  {
  }

  /** A look-up in the nibble table is four steps of the division at once. */
  lemma NibbleStep(x: Word)
    ensures FourBits(x) == Xor(High(x), Entry(x))
  {
    LowAndHigh(x);
    FourXor(x & 0xffff_fff0, Low(x));
    HighFour(x & 0xffff_fff0);
    TableIsDivision(Low(x));
  }

  /** Each table entry is the division of its index. */
  lemma TableIsDivision(k: Word)
    requires k < 16
    ensures k as nat < 16 && RTABLE[k as nat] == FourBits(k)
  {
    if k < 4 {
      FirstEntries(k);
    } else if k < 8 {
      NextEntries(k);
    } else {
      HighEntries(k);
    }
  }

  function NibbleByte(crc: Word, d: Word): Word {
    var c := Xor(High(crc), Entry(Xor(crc, d)));
    Xor(High(c), Entry(Xor(c, High(d))))
  }

  lemma HighHigh(b: Byte)
    ensures High(High(b as Word)) == 0
  {
  }

  lemma NibbleByteStep(crc: Word, b: Byte)
    ensures NibbleByte(crc, b as Word) == Bits(Xor(crc, b as Word), REVERSED, BYTE)
  {
    var d := b as Word;
    var x := Xor(crc, d);
    var t := Entry(x);
    var c := Xor(High(crc), t);
    var y := Xor(c, High(d));
    NibbleStep(x);
    XorHigh(crc, d);
    XorAssociates(High(crc), t, High(d));
    XorAssociates(High(crc), High(d), t);
    XorCommutes(t, High(d));
    assert FourBits(x) == y;
    NibbleStep(y);
    XorHigh(c, High(d));
    HighHigh(b);
    XorSelf(High(c));
    EightSteps(x);
  }

  /** The file system's checksum: two look-ups in the nibble table for every byte. */
  method LfsCrc(crc: Word, buffer: seq<Byte>) returns (r: Word)
    ensures r == Crc(crc, buffer)
  {
    r := crc;
    for i := 0 to |buffer|
      invariant Crc(r, buffer[i..]) == Crc(crc, buffer)
    {
      var d := buffer[i] as Word;
      NibbleByteStep(r, buffer[i]);
      assert buffer[i..][1..] == buffer[i + 1..];
      r := Xor(High(r), Entry(Xor(r, d)));
      r := Xor(High(r), Entry(Xor(r, High(d))));
    }
    assert buffer[|buffer|..] == [];
  }

  // ---- the generated table ----

  function Top(c: Word): Word {
    c >> 8
  }

  function Bottom(c: Word): Word {
    c & 0xff
  }

  lemma HighByte(x: Word)
    ensures Low(x & 0xffff_ff00) == 0 && Low(High(x & 0xffff_ff00)) == 0
  {
  }

  lemma TopByte(x: Word)
    ensures High(High(x & 0xffff_ff00)) == Top(x)
  {
  }

  lemma TopAndBottom(x: Word)
    ensures Xor(x & 0xffff_ff00, Bottom(x)) == x
  {
  }

  /** Eight steps are a shift and a look-up in a table of the division of every byte. */
  lemma ByteTableStep(x: Word)
    ensures Bits(x, REVERSED, BYTE) == Xor(Top(x), Bits(Bottom(x), REVERSED, BYTE))
  {
    var h := x & 0xffff_ff00;
    HighByte(x);
    TopByte(x);
    TopAndBottom(x);
    BitsXor(h, Bottom(x), REVERSED, BYTE);
    EightSteps(h);
    HighFour(h);
    HighFour(High(h));
  }

  /** The state of a loop that reverses the bits of a word: the bits left, the place of the next
      one, and the bits placed so far. */
  datatype Reversing = Reversing(poly: Word, place: Word, placed: Word)

  function PlaceBit(s: Reversing): Reversing {
    Reversing(Half(s.poly), Half(s.place), if Odd(s.poly) then Or(s.placed, s.place) else s.placed)
  }

  function Reversed(s: Reversing, n: nat): Word
    decreases n
  {
    if n == 0 then s.placed else Reversed(PlaceBit(s), n - 1)
  }

  function Place(k: nat): Word
    requires k < 32
  {
    1 << k
  }

  lemma NextPlace(k: nat)
    requires 0 < k < 32
    ensures Half(Place(k)) == Place(k - 1)
  {
  }

  /** Bit `k` of a word. */
  predicate BitAt(w: Word, k: nat) {
    if k == 0 then Odd(w) else BitAt(Half(w), k - 1)
  }

  function Or(a: Word, b: Word): Word {
    a | b
  }

  lemma HalfOr(a: Word, b: Word)
    ensures Half(Or(a, b)) == Or(Half(a), Half(b)) && Odd(Or(a, b)) == (Odd(a) || Odd(b))
    ensures Or(a, 0) == a && Half(1) == 0 && Odd(1)
  {
  }

  lemma OddPlace(m: nat)
    requires 0 < m < 32
    ensures !Odd(Place(m))
  {
  }

  /** Setting a bit sets that bit alone. */
  lemma {:induction false} BitSet(w: Word, m: nat, k: nat)
    requires m < 32
    ensures BitAt(Or(w, Place(m)), k) == (BitAt(w, k) || k == m)
    decreases k
  {
    hide Odd, Half, Or, Place;
    HalfOr(w, Place(m));
    if m == 0 {
      NoShift();
      HalfOr(Half(w), 0);
    } else {
      OddPlace(m);
      NextPlace(m);
      if k > 0 {
        BitSet(Half(w), m - 1, k - 1);
      }
    }
  }

  lemma NoShift()
    ensures Place(0) == 1
  {
  }

  lemma {:induction false} ReversedBits(s: Reversing, n: nat, k: nat)
    requires n <= 32 && (n > 0 ==> s.place == Place(n - 1))
    ensures BitAt(Reversed(s, n), k) == (BitAt(s.placed, k) || (k < n && BitAt(s.poly, n - 1 - k)))
    decreases n
  {
    hide Odd, Half, Or, Place;
    if n > 0 {
      BitSet(s.placed, n - 1, k);
      if n > 1 {
        NextPlace(n - 1);
      }
      ReversedBits(PlaceBit(s), n - 1, k);
    }
  }

  lemma {:induction false} NoBits(k: nat)
    ensures !BitAt(0, k)
  {
    HalfOfNone();
    if k > 0 {
      NoBits(k - 1);
    }
  }

  lemma HalfOfNone()
    ensures Half(0) == 0 && !Odd(0)
  {
  }

  /** Bit `k` of a reversal is bit `width - 1 - k` of the word. */
  lemma ReversalBits(poly: Word, width: nat, k: nat)
    requires width <= 32
    ensures BitAt(BitReversal(poly, width), k) == (k < width && BitAt(poly, width - 1 - k))
  {
    hide Place;
    NoBits(k);
    if width > 0 {
      ReversedBits(Reversing(poly, Place(width - 1), 0), width, k);
    }
  }

  /** The lowest `width` bits of a word in reverse order. */
  function BitReversal(poly: Word, width: nat): Word
    requires width <= 32
  {
    if width == 0 then 0 else Reversed(Reversing(poly, Place(width - 1), 0), width)
  }

  lemma AllReversed(poly: Word, width: nat)
    requires width <= 32
    ensures forall k: nat :: BitAt(BitReversal(poly, width), k) == (k < width && BitAt(poly, width - 1 - k))
  {
    hide BitAt, BitReversal;
    forall k: nat ensures BitAt(BitReversal(poly, width), k) == (k < width && BitAt(poly, width - 1 - k)) {
      ReversalBits(poly, width, k);
    }
  }

  method BitRev(poly: Word, width: nat) returns (r: Word)
    requires width <= 32
    ensures r == BitReversal(poly, width)
    ensures forall k: nat :: BitAt(r, k) == (k < width && BitAt(poly, width - 1 - k))
  {
    hide BitAt, Odd, Half, Or;
    r := 0;
    AllReversed(poly, width);
    if width == 0 {
      return;
    }
    var p := poly;
    ghost var place := Place(width - 1);
    for i := 0 to width
      invariant i < width ==> place == Place(width - 1 - i)
      invariant Reversed(Reversing(p, place, r), width - i) == BitReversal(poly, width)
    {
      if i + 1 < width {
        NextPlace(width - 1 - i);
      }
      place := Half(place);
      if Odd(p) {
        r := Or(r, Place(width - 1 - i));
      }
      p := Half(p);
    }
  }

  function PlaceEight(s: Reversing): Reversing {
    PlaceBit(PlaceBit(PlaceBit(PlaceBit(PlaceBit(PlaceBit(PlaceBit(PlaceBit(s))))))))
  }

  lemma EightPlaced(s: Reversing, n: nat)
    requires n >= 8
    ensures Reversed(s, n) == Reversed(PlaceEight(s), n - 8)
  {
    var t := PlaceBit(PlaceBit(PlaceBit(PlaceBit(s))));
    assert Reversed(s, n) == Reversed(PlaceBit(PlaceBit(s)), n - 2) == Reversed(t, n - 4);
    assert Reversed(t, n - 4) == Reversed(PlaceBit(PlaceBit(t)), n - 6);
  }

  /** The generated table is the one of the reversed polynomial. */
  lemma PolynomialReversed()
    ensures BitReversal(POLYNOMIAL, WIDTH) == REVERSED
  {
    var n := WIDTH;
    EightPlaced(Reversing(0x04c11db7, 0x80000000, 0x00000000), n);
    EightPlaced(Reversing(0x0004c11d, 0x00800000, 0xed000000), n - 8);
    EightPlaced(Reversing(0x000004c1, 0x00008000, 0xedb80000), n - 16);
    EightPlaced(Reversing(0x00000004, 0x00000080, 0xedb88300), n - 24);
  }

  /** The table the boot loader looks up in: the division of every byte, by index. */
  ghost predicate IsEntry(c: Word, i: nat, poly: Word) {
    forall w: Word {:trigger Bits(w, poly, BYTE)} | w as nat == i :: c == Bits(w, poly, BYTE)
  }

  ghost predicate Generated(tab: array<Word>, poly: Word)
    reads tab
  {
    tab.Length == 256 && forall i | 0 <= i < 256 :: IsEntry(tab[i], i, poly)
  }

  method TableEntry(poly: Word, i: Word) returns (c: Word)
    ensures c == Bits(i, poly, BYTE)
  {
    c := i;
    for j := 0 to BYTE
      invariant Bits(c, poly, BYTE - j) == Bits(i, poly, BYTE)
    {
      if Odd(c) {
        c := Xor(poly, Half(c));
      } else {
        c := Half(c);
      }
    }
  }

  method Crc32Init(tab: array<Word>, poly: Word)
    requires tab.Length == 256
    modifies tab
    ensures Generated(tab, BitReversal(poly, WIDTH))
  {
    hide BitAt, BitReversal, Bits, IsEntry;
    var p := BitRev(poly, WIDTH);
    for i := 0 to 256
      invariant forall k | 0 <= k < i :: IsEntry(tab[k], k, p)
    {
      var c := TableEntry(p, i as Word);
      EntryAt(c, i, p);
      tab[i] := c;
    }
  }

  lemma EntryAt(c: Word, i: nat, poly: Word)
    requires i < 256 && c == Bits(i as Word, poly, BYTE)
    ensures IsEntry(c, i, poly)
  {
    forall w: Word | w as nat == i ensures c == Bits(w, poly, BYTE) {
      WordOfNat(w);
    }
  }

  lemma WordOfNat(w: Word)
    ensures (w as nat) as Word == w
  {
  }

  lemma IndexIsBottom(x: Word)
    ensures Bottom(x) as nat < 256
  {
    LowIsBounded(x);
  }

  /** The boot loader's checksum: one look-up in the generated table for every byte. */
  method Crc32(tab: array<Word>, init: Word, buf: seq<Byte>) returns (crc: Word)
    requires Generated(tab, REVERSED)
    ensures crc == Crc(init, buf)
  {
    crc := init;
    for i := 0 to |buf|
      invariant Crc(crc, buf[i..]) == Crc(init, buf)
    {
      var x := Xor(crc, buf[i] as Word);
      ByteTableStep(x);
      IndexIsBottom(x);
      TopOfXor(crc, buf[i]);
      assert buf[i..][1..] == buf[i + 1..];
      crc := Xor(Top(crc), tab[Bottom(x) as nat]);
    }
    assert buf[|buf|..] == [];
  }

  lemma TopOfXor(c: Word, b: Byte)
    ensures Top(Xor(c, b as Word)) == Top(c)
  {
  }

  /** The whole-image checksum: complemented start and complemented result. */
  method RtFotaCrc(tab: array<Word>, buf: seq<Byte>) returns (crc: Word)
    requires Generated(tab, REVERSED)
    ensures crc == FotaCrc(buf)
  {
    crc := Crc32(tab, 0xffff_ffff, buf);
    crc := Xor(crc, 0xffff_ffff);
  }

  function FotaCrc(buf: seq<Byte>): Word {
    Xor(Crc(0xffff_ffff, buf), 0xffff_ffff)
  }

  // ---- the residue ----

  function OwnByte(c: Word): Byte {
    (c & 0xff) as Byte
  }

  lemma WithoutOwnByte(c: Word)
    ensures Xor(c, OwnByte(c) as Word) == c & 0xffff_ff00
  {
  }

  /** Feeding a checksum its own low byte only shifts it. */
  lemma FeedOwnByte(c: Word)
    ensures Feed(c, OwnByte(c)) == Top(c)
  {
    var h := c & 0xffff_ff00;
    WithoutOwnByte(c);
    HighByte(c);
    TopByte(c);
    EightSteps(h);
    HighFour(h);
    HighFour(High(h));
  }

  lemma LeBytes(c: Word)
    ensures Le(c) == [OwnByte(c), OwnByte(Top(c)), OwnByte(Top(Top(c))), OwnByte(Top(Top(Top(c))))]
  {
  }

  lemma FourTops(c: Word)
    ensures Top(Top(Top(Top(c)))) == 0
  {
  }

  lemma CrcOfFour(crc: Word, a: Byte, b: Byte, c: Byte, d: Byte)
    ensures Crc(crc, [a, b, c, d]) == Feed(Feed(Feed(Feed(crc, a), b), c), d)
  {
    hide Feed;
    assert [a, b, c, d][1..] == [b, c, d] && [b, c, d][1..] == [c, d];
    assert [c, d][1..] == [d] && [d][1..] == [];
    assert Crc(crc, [a, b, c, d]) == Crc(Feed(crc, a), [b, c, d]);
    assert Crc(Feed(crc, a), [b, c, d]) == Crc(Feed(Feed(crc, a), b), [c, d]);
    var r := Feed(Feed(crc, a), b);
    assert Crc(r, [c, d]) == Crc(Feed(r, c), [d]);
    assert Crc(Feed(r, c), [d]) == Crc(Feed(Feed(r, c), d), []);
  }

  /** A checksum followed by itself, stored little-endian, checks to zero. */
  lemma Residue(crc: Word)
    ensures Crc(crc, Le(crc)) == 0
  {
    LeBytes(crc);
    var c1 := Top(crc);
    var c2 := Top(c1);
    var c3 := Top(c2);
    CrcOfFour(crc, OwnByte(crc), OwnByte(c1), OwnByte(c2), OwnByte(c3));
    FeedOwnByte(crc);
    FeedOwnByte(c1);
    FeedOwnByte(c2);
    FeedOwnByte(c3);
    FourTops(crc);
  }
}
