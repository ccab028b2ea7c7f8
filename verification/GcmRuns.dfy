/**
 Whole AES-GCM operations, with associated data and payload handed over in any pieces: the
 result is that of one piece, decryption undoes encryption and accepts exactly the tags it
 makes, and in range encryption is GCM-AE of section 7.1 of NIST SP 800-38D.
 */
module GcmRuns {
  import opened Prelude
  import opened Blocks
  import opened GaloisField
  import opened GcmSpec
  import opened GcmStream

  /** Sizes that the 32-bit byte counts hold, and tags that can be made. */
  predicate Counted(a: Bytes, p: Bytes, t: nat) {
    |a| < 0x1_0000_0000 && |p| < 0x1_0000_0000 && t <= 16
  }

  /** Cipher text and tag as the implementation makes them, a function of the whole strings. */
  function Sealed(e: Cipher, nonce: Bytes, a: Bytes, p: Bytes, t: nat): (r: (Bytes, Bytes))
    requires t <= 16
    ensures |r.0| == |p| && |r.1| == t
  {
    hide Inc, InitialCounter, FinalTag;
    var j0 := InitialCounter(e(ZERO_BLOCK), nonce);
    var c := Ctr(e, Inc(j0), p);
    (c, FinalTag(e, j0, a, |a|, c)[..t])
  }

  /** Sizes for which the implementation follows the standard: no length field or counter overflows. */
  predicate InRange(e: Cipher, nonce: Bytes, a: Bytes, p: Bytes, t: nat) {
    && |nonce| < 0x2000_0000 && |a| < 0x2000_0000 && |p| < 0x2000_0000 && t <= 16
    && Low32(InitialCounter(e(ZERO_BLOCK), nonce)) + BlockCount(p) <= 0xffff_ffff
  }

  /** Hands over associated data in pieces, piece `i` at address `addrs(i)`. */
  method FeedAad(gcm: Gcm, aads: seq<Bytes>, addrs: nat -> nat)
    requires gcm.Valid() && !gcm.started && gcm.aad == [] && gcm.aadBytes == 0 && |Concat(aads)| < 0x1_0000_0000
    modifies gcm
    ensures gcm.Valid() && !gcm.started && gcm.aad == Concat(aads) && gcm.aadBytes == |gcm.aad| && gcm.text == []
    ensures gcm.j0 == old(gcm.j0) && gcm.tagLen == old(gcm.tagLen)
  {
    hide Gcm.KeyValid, Gcm.CryptInv, Gcm.HashInv, Store;
    for i := 0 to |aads|
      invariant gcm.Valid() && !gcm.started && gcm.aad == Concat(aads[..i]) && gcm.aadBytes == |gcm.aad|
      invariant gcm.j0 == old(gcm.j0) && gcm.tagLen == old(gcm.tagLen)
    {
      ConcatMore(aads, i);
      ConcatBound(aads, i + 1);
      var res := gcm.UpdateAad(aads[i], addrs(i));
    }
    assert aads[..|aads|] == aads;
  }

  /** Hands over payload in pieces. */
  method FeedPayload(gcm: Gcm, parts: seq<Bytes>) returns (out: Bytes)
    requires gcm.Valid() && gcm.text == [] && |Concat(parts)| < 0x1_0000_0000
    modifies gcm
    ensures gcm.Valid() && gcm.text == Concat(parts) && out == Ctr(gcm.e, Inc(gcm.j0), gcm.text)
    ensures gcm.j0 == old(gcm.j0) && gcm.tagLen == old(gcm.tagLen) && gcm.aad == old(gcm.aad)
    ensures gcm.aadBytes == old(gcm.aadBytes)
  {
    hide Gcm.Valid, Inc;
    out := [];
    assert Ctr(gcm.e, Inc(gcm.j0), []) == [];
    hide Ctr;
    for i := 0 to |parts|
      invariant gcm.Valid() && gcm.text == Concat(parts[..i]) && out == Ctr(gcm.e, Inc(gcm.j0), gcm.text)
      invariant gcm.j0 == old(gcm.j0) && gcm.tagLen == old(gcm.tagLen) && gcm.aad == old(gcm.aad)
      invariant gcm.aadBytes == old(gcm.aadBytes)
    {
      ConcatMore(parts, i);
      ConcatBound(parts, i + 1);
      var dst := gcm.UpdatePayload(parts[i]);
      out := out + dst;
    }
    assert parts[..|parts|] == parts;
  }

  /** Any splitting of associated data and payload gives the result for the whole, in range that of GCM-AE. */
  method Encrypt(e: Cipher, tableBased: bool, nonce: Bytes, aads: seq<Bytes>, addrs: nat -> nat,
                 parts: seq<Bytes>, last: Bytes, t: nat)
    returns (c: Bytes, tag: Bytes)
    requires Counted(Concat(aads), Concat(parts) + last, t)
    ensures (c, tag) == Sealed(e, nonce, Concat(aads), Concat(parts) + last, t)
    ensures InRange(e, nonce, Concat(aads), Concat(parts) + last, t) ==>
              (c, tag) == GcmAe(e, nonce, Concat(aads), Concat(parts) + last, t)
  {
    hide Gcm.Valid, Gcm.KeyValid, Inc, Low32, InitialCounter, FinalTag, GcmAe, Concat;
    var gcm := new Gcm(e, tableBased, false);
    var res := gcm.Init(nonce, t);
    FeedAad(gcm, aads, addrs);
    var first := FeedPayload(gcm, parts);
    ghost var j0, p := gcm.j0, Concat(parts) + last;
    var dst;
    res, dst, tag := gcm.EncFinal(last, t);
    c := first + dst;
    Continued(e, Inc(j0), Concat(parts), last);
    SealedIsGcmAe(e, nonce, Concat(aads), p, t);
  }

  /** The counter mode of the whole, from its beginning and the rest. */
  lemma Continued(e: Cipher, icb: Elem, s: Bytes, last: Bytes)
    ensures Ctr(e, icb, s) + Ctr(e, icb, s + last)[|s|..] == Ctr(e, icb, s + last)
  {
    hide Ctr, KeyBlock;
    CtrPrefix(e, icb, s + last, |s|);
    assert (s + last)[..|s|] == s;
    TakeDrop(Ctr(e, icb, s + last), |s|);
  }

  lemma TakeDrop(s: Bytes, n: nat)
    requires n <= |s|
    ensures s[..n] + s[n..] == s
  {
  }

  lemma SealedIsGcmAe(e: Cipher, nonce: Bytes, a: Bytes, p: Bytes, t: nat)
    requires t <= 16
    ensures InRange(e, nonce, a, p, t) ==> Sealed(e, nonce, a, p, t) == GcmAe(e, nonce, a, p, t)
  {
    hide Inc, Low32, InitialCounter, FinalTag, GcmAe;
    if InRange(e, nonce, a, p, t) {
      CodeIsGcmAe(e, nonce, a, p, t);
    }
  }

  /**
   Any splitting of a cipher text gives back its plain text, and the tag is accepted exactly
   when it is the one made for that plain text, in range by GCM-AE.
   */
  method Decrypt(e: Cipher, tableBased: bool, nonce: Bytes, aads: seq<Bytes>, addrs: nat -> nat,
                 parts: seq<Bytes>, last: Bytes, tag: Bytes)
    returns (res: Status, p: Bytes)
    requires Counted(Concat(aads), Concat(parts) + last, |tag|)
    ensures |p| == |Concat(parts) + last|
    ensures Sealed(e, nonce, Concat(aads), p, |tag|).0 == Concat(parts) + last
    ensures res == if Sealed(e, nonce, Concat(aads), p, |tag|).1 == tag then Success else MacInvalid
    ensures InRange(e, nonce, Concat(aads), p, |tag|) ==>
              && GcmAe(e, nonce, Concat(aads), p, |tag|).0 == Concat(parts) + last
              && res == if GcmAe(e, nonce, Concat(aads), p, |tag|).1 == tag then Success else MacInvalid
  {
    hide Gcm.Valid, Gcm.KeyValid, Inc, Low32, InitialCounter, FinalTag, GcmAe, Concat;
    var gcm := new Gcm(e, tableBased, true);
    res := gcm.Init(nonce, |tag|);
    FeedAad(gcm, aads, addrs);
    var first := FeedPayload(gcm, parts);
    ghost var j0, c := gcm.j0, Concat(parts) + last;
    var dst;
    res, dst := gcm.DecFinal(last, tag);
    p := first + dst;
    Continued(e, Inc(j0), Concat(parts), last);
    CtrTwice(e, Inc(j0), c);
    SealedIsGcmAe(e, nonce, Concat(aads), p, |tag|);
  }

  /** Splitting one way to encrypt and another way to decrypt: for every nonce, and all sizes that are counted. */
  method RoundTrip(e: Cipher, tableBased: bool, tableBased': bool, nonce: Bytes, t: nat,
                   aads: seq<Bytes>, addrs: nat -> nat, parts: seq<Bytes>, last: Bytes,
                   aads': seq<Bytes>, addrs': nat -> nat, cut: Bytes -> (seq<Bytes>, Bytes))
    returns (res: Status, p: Bytes)
    requires Counted(Concat(aads), Concat(parts) + last, t)
    requires Concat(aads') == Concat(aads) && forall c :: Concat(cut(c).0) + cut(c).1 == c
    ensures res == Success && p == Concat(parts) + last
  {
    hide Concat, GcmAe, Sealed, InRange;
    var c, tag := Encrypt(e, tableBased, nonce, aads, addrs, parts, last, t);
    res, p := Decrypt(e, tableBased', nonce, aads', addrs', cut(c).0, cut(c).1, tag);
    SameCipherText(e, nonce, Concat(aads), p, Concat(parts) + last, t);
  }

  /** Equal cipher texts come from equal plain texts. */
  lemma SameCipherText(e: Cipher, nonce: Bytes, a: Bytes, p: Bytes, p': Bytes, t: nat)
    requires t <= 16 && Sealed(e, nonce, a, p, t).0 == Sealed(e, nonce, a, p', t).0
    ensures p == p'
  {
    hide Inc, InitialCounter, FinalTag;
    var icb := Inc(InitialCounter(e(ZERO_BLOCK), nonce));
    CtrTwice(e, icb, p);
    CtrTwice(e, icb, p');
  }
}
