/** The global state: three words that every metadata pair stores a share of, so that the XOR of all
    shares tells of a pending move and of orphans. */
module Gstate {
  import opened Words
  import opened Tags
  import opened TagWords

  datatype Gstate = Gstate(tag: Word, pair0: Word, pair1: Word)

  const ZERO: Gstate := Gstate(0, 0, 0)

  function Plus(a: Gstate, b: Gstate): Gstate {
    Gstate(Xor(a.tag, b.tag), Xor(a.pair0, b.pair0), Xor(a.pair1, b.pair1))
  }

  /** Without the ten bits that count orphans, which are not stored. */
  function Stored(g: Gstate): Gstate {
    g.(tag := WithoutCount(g.tag))
  }

  function And(a: Word, b: Word): Word {
    a & b
  }

  function WithoutCount(w: Word): Word {
    And(w, 0xffff_fc00)
  }

  // ---- laws ----

  lemma PlusCommutes(a: Gstate, b: Gstate)
    ensures Plus(a, b) == Plus(b, a)
  {
    hide Xor;
    XorCommutes(a.tag, b.tag);
    XorCommutes(a.pair0, b.pair0);
    XorCommutes(a.pair1, b.pair1);
  }

  lemma PlusAssociates(a: Gstate, b: Gstate, c: Gstate)
    ensures Plus(Plus(a, b), c) == Plus(a, Plus(b, c))
  {
    hide Xor;
    XorAssociates(a.tag, b.tag, c.tag);
    XorAssociates(a.pair0, b.pair0, c.pair0);
    XorAssociates(a.pair1, b.pair1, c.pair1);
  }

  lemma PlusSelf(a: Gstate)
    ensures Plus(a, a) == ZERO && Plus(a, ZERO) == a && Plus(ZERO, a) == a
  {
    hide Xor;
    XorSelf(a.tag);
    XorSelf(a.pair0);
    XorSelf(a.pair1);
  }

  lemma PlusCancels(a: Gstate, b: Gstate)
    ensures Plus(Plus(a, b), b) == a && Plus(Plus(b, a), b) == a && Plus(b, Plus(b, a)) == a
  {
    hide Plus;
    PlusAssociates(a, b, b);
    PlusSelf(b);
    PlusSelf(a);
    PlusCommutes(a, b);
    PlusCommutes(b, Plus(b, a));
  }

  lemma WithoutCountXor(a: Word, b: Word)
    ensures WithoutCount(Xor(a, b)) == Xor(WithoutCount(a), WithoutCount(b))
  {
    hide And, Xor;
    AndXor(a, b, 0xffff_fc00);
  }

  lemma AndXor(a: Word, b: Word, m: Word)
    ensures And(Xor(a, b), m) == Xor(And(a, m), And(b, m))
  {
  }

  lemma WithoutCountTwice(a: Word)
    ensures WithoutCount(WithoutCount(a)) == WithoutCount(a)
  {
  }

  lemma StoredPlus(a: Gstate, b: Gstate)
    ensures Stored(Plus(a, b)) == Plus(Stored(a), Stored(b)) && Stored(Stored(a)) == Stored(a) && Stored(ZERO) == ZERO
  {
    hide Xor, WithoutCount;
    WithoutCountXor(a.tag, b.tag);
    WithoutCountTwice(a.tag);
    NoCount();
  }

  lemma NoCount()
    ensures WithoutCount(0) == 0
  {
  }

  // ---- the shares of all pairs ----

  function Total(shares: seq<Gstate>): Gstate {
    if shares == [] then ZERO else Plus(shares[0], Total(shares[1..]))
  }

  lemma {:induction false} TotalAppend(a: seq<Gstate>, b: seq<Gstate>)
    ensures Total(a + b) == Plus(Total(a), Total(b))
  {
    hide Plus;
    if a == [] {
      assert a + b == b;
      PlusSelf(Total(b));
    } else {
      assert (a + b)[1..] == a[1..] + b;
      TotalAppend(a[1..], b);
      PlusAssociates(a[0], Total(a[1..]), Total(b));
    }
  }

  /** Adding to one share adds to the total. */
  lemma {:induction false} TotalUpdate(shares: seq<Gstate>, i: nat, d: Gstate)
    requires i < |shares|
    ensures Total(shares[i := Plus(d, shares[i])]) == Plus(d, Total(shares))
  {
    hide Plus;
    if i == 0 {
      assert shares[0 := Plus(d, shares[0])][1..] == shares[1..];
      PlusAssociates(d, shares[0], Total(shares[1..]));
    } else {
      var rest := shares[1..];
      assert shares[i := Plus(d, shares[i])][1..] == rest[i - 1 := Plus(d, rest[i - 1])];
      TotalUpdate(rest, i - 1, d);
      PlusAssociates(shares[0], d, Total(rest));
      PlusCommutes(shares[0], d);
      PlusAssociates(d, shares[0], Total(rest));
    }
  }

  // ---- what the global state says ----

  predicate Moving(g: Gstate) {
    Type1(Decode(g.tag).type3) != 0
  }

  function MoveId(g: Gstate): nat {
    Decode(g.tag).id
  }

  predicate SharesBlock(a0: Word, a1: Word, b0: Word, b1: Word) {
    a0 == b0 || a1 == b1 || a0 == b1 || a1 == b0
  }

  /** A move of an entry of this pair is pending. */
  predicate HasMoveHere(g: Gstate, pair: (Word, Word)) {
    Moving(g) && SharesBlock(g.pair0, g.pair1, pair.0, pair.1)
  }

  function IdOf(id: bv10): nat {
    id as nat
  }

  /** Announces a move, or that there is none; the orphan flag and count stay. */
  function PrepMove(g: Gstate, move: bool, id: bv10, pair: (Word, Word)): Gstate {
    Gstate(MoveTag(g.tag, move, id), if move then pair.0 else 0, if move then pair.1 else 0)
  }

  function MoveTag(w: Word, move: bool, id: bv10): Word {
    (w & 0x8000_03ff) | (if move then MkTag(0x4ff, id, 0) else 0)
  }

  lemma MoveTagFields(w: Word, move: bool, id: bv10)
    ensures TypeField(MoveTag(w, move, id)) == if move then 0x4ff else 0
    ensures IdField(MoveTag(w, move, id)) == if move then id else 0
  {
  }

  /** The orphan count and flag stay, and a withdrawn move leaves no id. */
  lemma MoveTagKeeps(w: Word, move: bool, id: bv10)
    ensures SizeField(MoveTag(w, move, id)) == SizeField(w) && Valid(MoveTag(w, move, id)) == Valid(w)
  {
  }

  lemma PrepMoveSays(g: Gstate, move: bool, id: bv10, pair: (Word, Word))
    ensures var p := PrepMove(g, move, id, pair);
            && Moving(p) == move && (move ==> MoveId(p) == IdOf(id) && p.pair0 == pair.0 && p.pair1 == pair.1)
            && (!move ==> p.pair0 == 0 && p.pair1 == 0)
  {
    hide TypeField, IdField, SizeField, MoveTag;
    MoveTagFields(g.tag, move, id);
    DeleteType();
  }

  lemma DeleteType()
    ensures (0x4ff as bv11) as int == DELETE && (0 as bv11) as int == 0
  {
  }

  /** What is stored is enough to tell of a move. */
  lemma StoredFields(w: Word)
    ensures TypeField(WithoutCount(w)) == TypeField(w) && IdField(WithoutCount(w)) == IdField(w)
  {
  }

  lemma StoredSays(a: Gstate, b: Gstate)
    requires Stored(a) == Stored(b)
    ensures Moving(a) == Moving(b) && MoveId(a) == MoveId(b)
    ensures forall pair :: HasMoveHere(a, pair) == HasMoveHere(b, pair)
  {
    hide TypeField, IdField, SizeField, WithoutCount;
    StoredFields(a.tag);
    StoredFields(b.tag);
  }

  /** The global state a mount makes of the shares it finds: an orphan flag counts as one orphan. */
  function Mounted(total: Gstate): Gstate {
    total.(tag := if Valid(total.tag) then total.tag else total.tag + 1)
  }

  lemma MountedKeeps(total: Gstate)
    requires Stored(total) == total
    ensures Stored(Mounted(total)) == total
  {
    hide WithoutCount, Valid;
    CountOne(total.tag);
  }

  /** A mount counts one orphan if the shares say that there may be some, and none otherwise. */
  lemma MountedCounts(total: Gstate)
    requires Stored(total) == total
    ensures SizeField(Mounted(total).tag) == if Valid(total.tag) then 0 else 1
  {
    hide SizeField, WithoutCount;
    CountOfStored(total.tag);
  }

  lemma CountOfStored(w: Word)
    requires WithoutCount(w) == w
    ensures SizeField(w) == 0 && SizeField(w + 1) == 1
  {
  }

  lemma CountOne(w: Word)
    requires WithoutCount(w) == w
    ensures WithoutCount(w + 1) == w
  {
  }
}
