/** The bytes of a block: small numbers where addresses are taken apart, erased bytes, and bytes written
    over part of a block. */
module Blocks {
  type Octet = x: int | 0 <= x < 0x100

  const ERASED: Octet := 0xff

  /** Erased bytes. */
  function Fill(n: nat): (s: seq<Octet>)
    ensures |s| == n
  {
    seq(n, _ => ERASED)
  }

  lemma FillIsErased(n: nat)
    ensures forall i | 0 <= i < n :: Fill(n)[i] == 0xff
  {
  }

  /** Bytes written over part of a block. */
  function Overlay<T>(s: seq<T>, off: nat, data: seq<T>): (r: seq<T>)
    requires off + |data| <= |s|
    ensures |r| == |s|
  {
    s[..off] + data + s[off + |data|..]
  }

  lemma OverlayTwice<T>(s: seq<T>, lo: nat, a: seq<T>, b: seq<T>)
    requires lo + |a| + |b| <= |s|
    ensures Overlay(Overlay(s, lo, a), lo + |a|, b) == Overlay(s, lo, a + b)
  {
  }

  lemma OverlayKeeps<T>(s: seq<T>, off: nat, data: seq<T>)
    requires off + |data| <= |s|
    ensures Overlay(s, off, data)[..off] == s[..off] && Overlay(s, off, data)[off + |data|..] == s[off + |data|..]
  {
  }
}
