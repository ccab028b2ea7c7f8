/**
 The streaming AES-GCM of core/crypto/aes-gcm.c and core/crypto/aes-gcm-sw.c: a state that
 takes associated data and then payload in pieces of any size, with one partial block of
 hash input and one block of key stream kept between calls.
 */
module GcmStream {
  import opened Prelude
  import opened Blocks
  import opened GaloisField
  import opened GHash
  import opened GcmSpec

  // ---------------------------------------------------------------- pieces of a string

  lemma PieceInside(s: Bytes, p: Bytes)
    requires |s| % 16 + |p| < 16
    ensures Full(s + p) == Full(s) && Rest(s + p) == Rest(s) + p && |s + p| % 16 == |s| % 16 + |p|
  {
    ModAdd(|s|, |p|);
  }

  lemma ModAdd(a: nat, b: nat)
    ensures a % 16 + b < 16 ==> (a + b) % 16 == a % 16 + b && (a + b) / 16 == a / 16
    ensures a % 16 + b == 16 ==> (a + b) % 16 == 0 && (a + b) / 16 == a / 16 + 1
  {
  }

  lemma PieceCompletes(s: Bytes, p: Bytes)
    requires |s| % 16 + |p| == 16
    ensures Full(s + p) == Full(s) + (Rest(s) + p) && |s + p| % 16 == 0 && Rest(s + p) == []
  {
    ModAdd(|s|, |p|);
    assert s == Full(s) + Rest(s);
  }

  lemma WholeBlocks(s: Bytes)
    requires |s| % 16 == 0
    ensures Full(s) == s && Rest(s) == []
  {
  }

  /** A block with part of it replaced. */
  function Replaced(b: Block, pos: nat, p: Bytes): (r: Block)
    requires pos + |p| <= 16
  {
    b[..pos] + p + b[pos + |p|..]
  }

  /** Counter mode on one more piece that stays within a block. */
  lemma CtrPiece(e: Cipher, icb: Elem, s: Bytes, p: Bytes)
    requires |s| % 16 + |p| <= 16
    ensures var pos := |s| % 16;
            Ctr(e, icb, s + p) == Ctr(e, icb, s) + XorBytes(p, KeyBlock(e, icb, |s| / 16)[pos..pos + |p|])
  {
    hide XorByte, KeyBlock;
    var pos := |s| % 16;
    var r := Ctr(e, icb, s) + XorBytes(p, KeyBlock(e, icb, |s| / 16)[pos..pos + |p|]);
    forall i | 0 <= i < |s + p| ensures Ctr(e, icb, s + p)[i] == r[i] {
      if i >= |s| {
        PieceIndex(|s|, i - |s|);
      }
    }
  }

  lemma PieceIndex(n: nat, j: nat)
    requires n % 16 + j < 16
    ensures (n + j) / 16 == n / 16 && (n + j) % 16 == n % 16 + j
  {
  }

  datatype Status = Success | BadParameters | ShortBuffer | MacInvalid

  /** struct internal_aes_gcm_state with its key. */
  class Gcm {
    const e: Cipher
    const h: Block
    const tables: Tables?
    const decrypting: bool
    var ctr: Elem
    var hashState: Block
    var bufTag: Block
    var bufHash: Block
    var bufCryp: Block
    var tagLen: nat
    var aadBytes: nat
    var payloadBytes: nat
    var bufPos: nat
    ghost var j0: Elem
    ghost var aad: Bytes
    ghost var text: Bytes
    ghost var started: bool

    /** The hash key: tables when the build is table based, else the subkey itself. */
    ghost predicate KeyValid()
      reads if tables == null then {} else {tables.hh, tables.hl}
    {
      h == e(ZERO_BLOCK) && (tables != null ==> tables.Holds(h))
    }

    /** The hash has taken in the whole blocks of `s`; the rest is in the buffer. */
    ghost predicate HashInv(s: Bytes)
      reads this`hashState, this`bufHash, this`bufPos
    {
      hashState == Ghash(h, Full(s)) && bufPos == |s| % 16 && bufHash[..bufPos] == Rest(s)
    }

    /** internal_aes_gcm_set_key() */
    constructor (cipher: Cipher, tableBased: bool, decrypt: bool)
      ensures e == cipher && decrypting == decrypt && KeyValid()
      ensures tables != null ==> fresh(tables) && fresh(tables.hh) && fresh(tables.hl)
    {
      e, decrypting := cipher, decrypt;
      h := cipher(ZERO_BLOCK);
      var t: Tables? := null;
      if tableBased {
        t := new Tables();
        t.GenTbl(cipher(ZERO_BLOCK));
      }
      tables := t;
      ctr, hashState, bufTag, bufHash, bufCryp := ZERO, ZERO_BLOCK, ZERO_BLOCK, ZERO_BLOCK, ZERO_BLOCK;
      tagLen, aadBytes, payloadBytes, bufPos := 0, 0, 0, 0;
    }

    // -------------------------------------------------------------- hashing

    /** ghash_update_block(): the two multiplications take their operands in opposite order. */
    method GhashUpdateBlock(data: Block, ghost s: Bytes)
      requires KeyValid() && |s| % 16 == 0 && hashState == Ghash(h, s)
      modifies this`hashState
      ensures hashState == Ghash(h, s + data)
    {
      hide Mul, Ghash, Tables.Holds;
      var y := XorBytes(hashState, data);
      if tables != null {
        hashState := tables.MultTbl(h, y);
      } else {
        hashState := Gfmul(h, y);
        MulCommutes(h, y);
      }
      GhashBlock(h, s, data);
    }

    /** internal_aes_gcm_ghash_update() */
    method GhashUpdate(head: Option<Block>, data: Bytes, num: nat, ghost s: Bytes)
      requires KeyValid() && |s| % 16 == 0 && hashState == Ghash(h, s) && 16 * num <= |data|
      modifies this`hashState
      ensures hashState == Ghash(h, s + (if head.Some? then head.value else []) + data[..16 * num])
    {
      hide Mul, Ghash, Tables.Holds;
      ghost var base := s;
      if head.Some? {
        GhashUpdateBlock(head.value, s);
        base := s + head.value;
      }
      assert base == s + (if head.Some? then head.value else []);
      var n := 0;
      assert base + data[..0] == base;
      while n < num
        invariant n <= num && hashState == Ghash(h, base + data[..16 * n])
      {
        var block := data[16 * n..16 * n + 16];
        GhashUpdateBlock(block, base + data[..16 * n]);
        assert base + data[..16 * n] + block == base + data[..16 * (n + 1)];
        n := n + 1;
      }
    }

    /** ghash_update_pad_zero() */
    method GhashUpdatePadZero(data: Bytes, ghost s: Bytes)
      requires KeyValid() && |s| % 16 == 0 && hashState == Ghash(h, s)
      modifies this`hashState
      ensures |s + Pad(data)| % 16 == 0 && hashState == Ghash(h, s + Pad(data))
    {
      hide KeyValid, Ghash, Pad;
      var n := |data| / 16;
      if n != 0 {
        GhashUpdate(None, data, n, s);
      }
      assert data[..16 * n] == Full(data);
      assert s + [] + Full(data) == s + Full(data);
      assert n == 0 ==> s + Full(data) == s;
      PadFull(data);
      WholePlus(|s|, |Full(data)|);
      WholePlus(|s|, |Pad(data)|);
      if |data| - n * 16 != 0 {
        var block := data[n * 16..] + Zeros(16 - |data| % 16);
        GhashUpdate(Some(block), [], 0, s + Full(data));
        assert s + Full(data) + block + [][..0] == s + Pad(data);
      }
    }

    /** ghash_update_lengths() */
    method GhashUpdateLengths(l1: nat, l2: nat, ghost s: Bytes)
      requires KeyValid() && |s| % 16 == 0 && hashState == Ghash(h, s)
      modifies this`hashState
      ensures hashState == Ghash(h, s + (LenField(l1) + LenField(l2)))
    {
      hide Mul, Ghash, Tables.Holds, LenField;
      var lens := LenField(l1) + LenField(l2);
      GhashUpdate(Some(lens), [], 0, s);
      assert s + lens + [][..0] == s + lens;
    }

    // -------------------------------------------------------------- state

    ghost function CipherText(): (c: Bytes)
      reads this`text, this`j0
      ensures |c| == |text|
    {
      CipherOf(text)
    }

    ghost function CipherOf(s: Bytes): (c: Bytes)
      reads this`j0
      ensures |c| == |s|
    {
      if decrypting then s else Ctr(e, Inc(j0), s)
    }

    /** The key stream: encryption keeps the next block ready, decryption makes it when needed. */
    ghost predicate CryptInv()
      reads this`text, this`j0, this`ctr, this`bufCryp
    {
      var k, pos := |text| / 16, |text| % 16;
      if decrypting then
        ctr == IncN(k, Inc(j0)) && (pos > 0 ==> bufCryp[pos..] == KeyBlock(e, Inc(j0), k)[pos..])
      else
        ctr == IncN(k + 1, Inc(j0)) && bufCryp[pos..] == KeyBlock(e, Inc(j0), k)[pos..]
    }

    /** Bookkeeping between calls. */
    ghost predicate Counts()
      reads this`bufTag, this`j0, this`tagLen, this`aadBytes, this`payloadBytes, this`text, this`started
    {
      && bufTag == e(Store(j0)) && tagLen <= 16
      && aadBytes < 0x1_0000_0000 && payloadBytes == |text| < 0x1_0000_0000
      && (!started ==> text == [])
    }

    ghost predicate Valid()
      reads this, if tables == null then {} else {tables.hh, tables.hl}
    {
      KeyValid() && Counts() && CryptInv() && HashInv(Hashed())
    }

    /** The input of the hash so far. */
    ghost function Hashed(): Bytes
      reads this`started, this`aad, this`text, this`j0
    {
      if started then Pad(aad) + CipherText() else aad
    }

    /** The first counter block, from the nonce. */
    method InitCounter(nonce: Bytes)
      requires KeyValid() && ctr == ZERO && hashState == ZERO_BLOCK
      modifies this`ctr, this`hashState
      ensures ctr == InitialCounter(h, nonce) && hashState == ZERO_BLOCK
    {
      hide Mul, Tables.Holds, LenField, Load, Inc, GetBe64;
      if |nonce| == 12 {
        ctr := Load(nonce + Zeros(4));
        ctr := Inc(ctr);
      } else {
        assert Ghash(h, []) == ZERO_BLOCK;
        GhashUpdatePadZero(nonce, []);
        GhashUpdateLengths(0, |nonce|, [] + Pad(nonce));
        assert Pad([]) == [];
        ctr := Load(hashState);
        hashState := ZERO_BLOCK;
      }
    }

    /** memset(state, 0, sizeof(*state)) */
    method Clear()
      modifies this
      ensures ctr == ZERO && hashState == ZERO_BLOCK && bufPos == 0 && aadBytes == 0 && payloadBytes == 0
      ensures !started && aad == [] && text == []
    {
      ctr, hashState, bufTag, bufHash, bufCryp := ZERO, ZERO_BLOCK, ZERO_BLOCK, ZERO_BLOCK, ZERO_BLOCK;
      tagLen, aadBytes, payloadBytes, bufPos := 0, 0, 0, 0;
      aad, text, started := [], [], false;
    }

    /** The tag mask, and the first block of key stream when encrypting. */
    method StartCounter()
      requires ctr == j0 && text == []
      modifies this`ctr, this`bufTag, this`bufCryp
      ensures bufTag == e(Store(j0)) && CryptInv()
    {
      hide CryptInv, Inc, Store;
      bufTag := e(Store(ctr));
      ctr := Inc(ctr);
      if !decrypting {
        bufCryp := e(Store(ctr));
        ctr := Inc(ctr);
      }
      FreshCrypt();
    }

    lemma FreshCrypt()
      requires text == []
      requires if decrypting then ctr == Inc(j0) else ctr == Inc(Inc(j0)) && bufCryp == e(Store(Inc(j0)))
      ensures CryptInv()
    {
      hide Inc, Store;
      KeyBlockFirst(e, Inc(j0));
      assert IncN(0, Inc(j0)) == Inc(j0);
      assert IncN(1, Inc(j0)) == Inc(IncN(0, Inc(j0)));
    }

    lemma FreshHash()
      requires hashState == ZERO_BLOCK && bufPos == 0
      ensures HashInv([])
    {
    }

    method Setup(nonce: Bytes, tagSize: nat)
      requires KeyValid() && tagSize <= 16
      modifies this
      ensures Valid()
      ensures !started && aad == [] && aadBytes == 0 && text == [] && tagLen == tagSize
      ensures j0 == InitialCounter(h, nonce)
    {
      hide KeyValid, CryptInv, HashInv, Inc, Store, InitialCounter, Pad, CipherText;
      Clear();
      tagLen := tagSize;
      InitCounter(nonce);
      j0 := ctr;
      StartCounter();
      FreshHash();
    }

    /** __gcm_init() after the key has been set. */
    method Init(nonce: Bytes, tagSize: nat) returns (res: Status)
      requires KeyValid()
      modifies this
      ensures res == if tagSize > 16 then BadParameters else Success
      ensures res == Success ==> Valid() && !started && aad == [] && text == [] && tagLen == tagSize
      ensures res == Success ==> aadBytes == 0
      ensures res == Success ==> j0 == InitialCounter(h, nonce)
    {
      hide Valid, KeyValid, InitialCounter;
      if tagSize > 16 {
        return BadParameters;
      }
      Setup(nonce, tagSize);
      return Success;
    }

    // -------------------------------------------------------------- associated data

    /** Copies `p` into the hash buffer; `s` is what has been hashed or buffered before. */
    method Buffer(p: Bytes, ghost s: Bytes)
      requires HashInv(s) && bufPos + |p| <= 16
      modifies this`bufHash, this`bufPos
      ensures bufPos == old(bufPos) + |p|
      ensures bufPos < 16 ==> HashInv(s + p)
      ensures bufPos == 16 ==> bufHash == Rest(s) + p && |s + p| % 16 == 0 && Full(s + p) == Full(s) + bufHash
    {
      bufHash := Replaced(bufHash, bufPos, p);
      bufPos := bufPos + |p|;
      if bufPos < 16 {
        PieceInside(s, p);
        assert bufHash[..bufPos] == Rest(s) + p;
      } else {
        PieceCompletes(s, p);
        assert bufHash == Rest(s) + p;
      }
    }

    /** The blocks hashed at the end of one turn of the loop: the head, if any, and whole blocks of data. */
    method HashBlocks(head: Option<Block>, data: Bytes, num: nat, ghost s: Bytes, ghost t: Bytes)
      requires KeyValid() && bufPos == 0 && |s| % 16 == 0 && hashState == Ghash(h, s) && 16 * num <= |data|
      requires t == s + (if head.Some? then head.value else []) + data[..16 * num]
      modifies this`hashState
      ensures HashInv(t)
    {
      hide Ghash, KeyValid;
      GhashUpdate(head, data, num, s);
      WholeBlocks(t);
    }

    /** A buffer that has been filled is hashed before its content changes. */
    method TakeHead(p: Bytes, ghost s: Bytes) returns (full: bool, head: Option<Block>)
      requires HashInv(s) && bufPos + |p| <= 16
      modifies this`bufHash, this`bufPos
      ensures full <==> old(bufPos) + |p| == 16
      ensures !full ==> HashInv(s + p)
      ensures full ==> bufPos == 0 && head.Some? && |s + p| % 16 == 0 && s + p == Full(s) + head.value
      ensures hashState == Ghash(h, Full(s))
    {
      hide Ghash;
      Buffer(p, s);
      full, head := bufPos == 16, None;
      if full {
        bufPos := 0;
        head := Some(bufHash);
        WholeBlocks(s + p);
      }
    }

    /** One turn of the loop of __gcm_update_aad(), which ends early when the buffer does not fill. */
    method AadTurn(data: Bytes, addr: nat, from: nat, ghost s: Bytes, head0: Option<Block>)
      returns (full: bool, j: nat, head: Option<Block>)
      requires KeyValid() && from < |data| && HashInv(s + data[..from])
      requires head0.Some? ==> bufPos != 0 || (addr + from) % 16 != 0 || |data| - from < 16
      modifies this`hashState, this`bufHash, this`bufPos
      ensures from < j <= |data| && HashInv(s + data[..j]) && (!full ==> j == |data|)
      ensures full && head.Some? ==> bufPos != 0 || (addr + j) % 16 != 0 || |data| - j < 16
    {
      hide KeyValid, Ghash, Full, Rest;
      var l := |data| - from;
      ghost var at := s + data[..from];
      ghost var base := at;
      j, head, full := from, head0, true;
      if bufPos != 0 || (addr + j) % 16 != 0 || l < 16 {
        var n := if 16 - bufPos < l then 16 - bufPos else l;
        full, head := TakeHead(data[j..j + n], at);
        assert at + data[j..j + n] == s + data[..j + n];
        j := j + n;
        if !full {
          return;
        }
        base := Full(at);
      } else {
        WholeBlocks(at);
        assert at == at + [];
      }
      var n := if (addr + j) % 16 == 0 then (|data| - j) / 16 else 0;
      assert s + data[..j] + data[j..][..16 * n] == s + data[..j + 16 * n];
      HashBlocks(head, data[j..], n, base, s + data[..j + 16 * n]);
      AlignedAfter(addr + j, n);
      j := j + 16 * n;
    }

    /** The loop of __gcm_update_aad(). */
    method HashAad(data: Bytes, addr: nat, ghost s: Bytes)
      requires KeyValid() && HashInv(s)
      modifies this`hashState, this`bufHash, this`bufPos
      ensures HashInv(s + data)
    {
      hide KeyValid, HashInv;
      var full, j, head: Option<Block> := true, 0, None;
      assert s + data[..0] == s;
      while full && j < |data|
        invariant j <= |data| && HashInv(s + data[..j]) && (!full ==> j == |data|)
        invariant full && head.Some? ==> bufPos != 0 || (addr + j) % 16 != 0 || |data| - j < 16
        decreases |data| - j
      {
        full, j, head := AadTurn(data, addr, j, s, head);
      }
      assert data[..j] == data;
    }

    method AddAad(data: Bytes, addr: nat)
      requires Valid() && !started && aadBytes + |data| < 0x1_0000_0000
      modifies this`aadBytes, this`aad, this`hashState, this`bufHash, this`bufPos
      ensures Valid() && aad == old(aad) + data && aadBytes == old(aadBytes) + |data|
    {
      hide KeyValid, HashInv, CryptInv, Store, Pad, CipherText;
      aadBytes := aadBytes + |data|;
      ghost var s := aad;
      aad := aad + data;
      HashAad(data, addr, s);
    }

    /**
     __gcm_update_aad(), with `addr` the address of the data, which decides when it is buffered.
     After an empty payload update what came before is hashed with its padding.
     */
    method UpdateAad(data: Bytes, addr: nat) returns (res: Status)
      requires Valid() && aadBytes + |data| < 0x1_0000_0000
      modifies this`aadBytes, this`aad, this`started, this`hashState, this`bufHash, this`bufPos
      ensures Valid()
      ensures res == if payloadBytes > 0 then BadParameters else Success
      ensures res == Success ==> !started && aadBytes == old(aadBytes) + |data|
      ensures res == Success ==> aad == (if old(started) then Pad(old(aad)) else old(aad)) + data
      ensures res != Success ==> aad == old(aad) && aadBytes == old(aadBytes) && started == old(started)
    {
      hide Valid, Pad;
      if payloadBytes != 0 {
        return BadParameters;
      }
      Reopen();
      AddAad(data, addr);
      return Success;
    }

    /** Without any payload, padded associated data is associated data. */
    ghost method Reopen()
      requires Valid() && payloadBytes == 0
      modifies this`aad, this`started
      ensures Valid() && !started && aad == if old(started) then Pad(old(aad)) else old(aad)
    {
      hide KeyValid, HashInv, CryptInv, Store, Pad, CipherText;
      if started {
        PaddedState();
        aad, started := Pad(aad), false;
      }
    }

    /** Nothing but padded associated data has been hashed. */
    lemma PaddedState()
      requires Valid() && started && payloadBytes == 0
      ensures HashInv(Pad(aad))
    {
      hide KeyValid, HashInv, CryptInv, Store, Pad;
      assert CipherText() == [] && Pad(aad) + [] == Pad(aad);
    }

    // -------------------------------------------------------------- payload

    /** The end of the associated data: what is left in the buffer is padded and hashed. */
    method FinishAad()
      requires Valid()
      modifies this`hashState, this`bufHash, this`bufPos, this`started
      ensures Valid() && started
    {
      hide KeyValid, CryptInv, Ghash, Store;
      PadFull(Hashed());
      if payloadBytes == 0 && bufPos != 0 {
        FlushBuffer(aad);
        bufPos := 0;
        WholeBlocks(Pad(aad));
      }
      if !started {
        assert Pad(aad) + CipherText() == Pad(aad);
      }
      started := true;
    }

    /** Pads the buffer with zeros and hashes it. */
    method FlushBuffer(ghost s: Bytes)
      requires KeyValid() && HashInv(s) && bufPos != 0
      modifies this`hashState, this`bufHash
      ensures hashState == Ghash(h, Pad(s))
    {
      hide Ghash, KeyValid;
      bufHash := Replaced(bufHash, bufPos, Zeros(16 - bufPos));
      assert bufHash == Rest(s) + Zeros(16 - |s| % 16);
      PadFull(s);
      GhashUpdate(Some(bufHash), [], 0, Full(s));
      assert Full(s) + bufHash + [][..0] == Pad(s);
    }

    /** Between the pieces of a payload. */
    ghost predicate Streaming()
      reads this, if tables == null then {} else {tables.hh, tables.hl}
    {
      KeyValid() && started && CryptInv() && HashInv(Pad(aad) + CipherText())
    }

    /** The key stream applied to a piece that stays within a block. */
    method CryptPiece(p: Bytes) returns (out: Bytes)
      requires CryptInv() && bufPos == |text| % 16 && 0 < |p| <= 16 - bufPos
      modifies this`bufCryp
      ensures out == XorBytes(p, KeyBlock(e, Inc(j0), |text| / 16)[bufPos..bufPos + |p|])
      ensures bufCryp[bufPos + |p|..] == KeyBlock(e, Inc(j0), |text| / 16)[bufPos + |p|..]
    {
      hide Inc, Store;
      ghost var key := KeyBlock(e, Inc(j0), |text| / 16);
      if bufPos == 0 && decrypting {
        bufCryp := e(Store(ctr));
      }
      assert bufCryp[bufPos..] == key[bufPos..];
      assert bufCryp[bufPos..bufPos + |p|] == bufCryp[bufPos..][..|p|];
      XorEither(bufCryp[bufPos..bufPos + |p|], p);
      out := XorBytes(bufCryp[bufPos..bufPos + |p|], p);
      assert bufCryp[bufPos + |p|..] == bufCryp[bufPos..][|p|..];
      bufCryp := Replaced(bufCryp, bufPos, out);
    }

    /** The counter moves on when a block is complete. */
    method NextKey(ghost k: nat)
      requires ctr == IncN(if decrypting then k else k + 1, Inc(j0))
      modifies this`ctr, this`bufCryp
      ensures ctr == IncN(if decrypting then k + 1 else k + 2, Inc(j0))
      ensures bufCryp == if decrypting then old(bufCryp) else KeyBlock(e, Inc(j0), k + 1)
    {
      hide Inc, Store;
      if !decrypting {
        bufCryp := e(Store(ctr));
      }
      ctr := Inc(ctr);
    }

    /** The hash takes in a piece of cipher text that stays within a block. */
    method HashPiece(c: Bytes, ghost s: Bytes) returns (full: bool)
      requires KeyValid() && HashInv(s) && bufPos + |c| <= 16
      modifies this`hashState, this`bufHash, this`bufPos
      ensures HashInv(s + c) && (full <==> old(bufPos) + |c| == 16)
    {
      hide KeyValid, Ghash;
      Buffer(c, s);
      full := bufPos == 16;
      if full {
        GhashUpdate(Some(bufHash), [], 0, Full(s));
        assert Full(s) + bufHash + [][..0] == Full(s + c);
        WholeBlocks(s + c);
        bufPos := 0;
      }
    }

    lemma Parts()
      requires Streaming()
      ensures KeyValid() && started && CryptInv() && HashInv(Pad(aad) + CipherOf(text))
      ensures HashInv(Pad(aad) + CipherText())
    {
    }

    lemma Rejoin(c: Bytes, piece: Bytes)
      requires KeyValid() && started && CryptInv() && HashInv(Pad(aad) + c + piece) && CipherText() == c + piece
      ensures Streaming()
    {
      hide KeyValid, CryptInv, HashInv, Pad;
      assert Pad(aad) + c + piece == Pad(aad) + (c + piece);
    }

    lemma TextGrows(p: Bytes, was: Bytes, out: Bytes)
      requires |was| % 16 + |p| <= 16 && text == was + p
      requires out == XorBytes(p, KeyBlock(e, Inc(j0), |was| / 16)[|was| % 16..|was| % 16 + |p|])
      ensures Ctr(e, Inc(j0), text) == Ctr(e, Inc(j0), was) + out
      ensures CipherText() == CipherOf(was) + (if decrypting then p else out)
    {
      CtrPiece(e, Inc(j0), was, p);
    }

    lemma BufferPosition()
      requires HashInv(Pad(aad) + CipherText())
      ensures bufPos == |text| % 16
    {
      WholePlus(|Pad(aad)|, |text|);
    }

    lemma KeyAhead()
      requires CryptInv()
      ensures ctr == IncN(if decrypting then |text| / 16 else |text| / 16 + 1, Inc(j0))
    {
    }

    /** The rest of the key block, or the next one once it is used up. */
    ghost predicate KeyMoved(was: Bytes, p: Bytes)
      requires |was| % 16 + |p| <= 16
      reads this
    {
      var k, pos := |was| / 16, |was| % 16 + |p|;
      if pos == 16 then
        && ctr == IncN(if decrypting then k + 1 else k + 2, Inc(j0))
        && (!decrypting ==> bufCryp == KeyBlock(e, Inc(j0), k + 1))
      else
        && ctr == IncN(if decrypting then k else k + 1, Inc(j0))
        && bufCryp[pos..] == KeyBlock(e, Inc(j0), k)[pos..]
    }

    /** The key stream has moved on as far as the text. */
    lemma CryptKept(was: Bytes, p: Bytes)
      requires text == was + p && 0 < |p| <= 16 - |was| % 16
      requires KeyMoved(was, p)
      ensures CryptInv()
    {
      hide KeyBlock, Inc, IncN;
      ModAdd(|was|, |p|);
    }

    /** One turn of the loop of __gcm_update_payload() on part of a block. */
    method Partial(p: Bytes) returns (out: Bytes)
      requires Streaming() && 0 < |p| <= 16 - bufPos
      modifies this`ctr, this`hashState, this`bufHash, this`bufCryp, this`bufPos, this`text
      ensures Streaming() && text == old(text) + p
      ensures Ctr(e, Inc(j0), text) == Ctr(e, Inc(j0), old(text)) + out
    {
      hide KeyValid, Inc, Ghash, KeyBlock, CryptInv, HashInv, CipherOf, IncN, Pad, Ctr, XorBytes, Streaming, CipherText;
      Parts();
      ghost var was, c := text, CipherOf(text);
      BufferPosition();
      KeyAhead();
      out := CryptAndHash(p, Pad(aad) + c);
      text := text + p;
      CryptKept(was, p);
      TextGrows(p, was, out);
      Rejoin(c, if decrypting then p else out);
    }

    /** Key stream, hash and, at the end of a block, the next key. */
    method CryptAndHash(p: Bytes, ghost s: Bytes) returns (out: Bytes)
      requires KeyValid() && CryptInv() && HashInv(s) && bufPos == |text| % 16 && 0 < |p| <= 16 - bufPos
      requires ctr == IncN(if decrypting then |text| / 16 else |text| / 16 + 1, Inc(j0))
      modifies this`ctr, this`hashState, this`bufHash, this`bufCryp, this`bufPos
      ensures out == XorBytes(p, KeyBlock(e, Inc(j0), |text| / 16)[|text| % 16..|text| % 16 + |p|])
      ensures KeyValid() && HashInv(s + if decrypting then p else out)
      ensures KeyMoved(text, p)
    {
      hide KeyValid, Inc, Ghash, KeyBlock, CryptInv, HashInv, IncN, XorBytes;
      out := CryptPiece(p);
      var full := HashPiece(if decrypting then p else out, s);
      if full {
        NextKey(|text| / 16);
      }
    }

    /** One block more in the hash. */
    method HashBlock(c: Block, ghost s: Bytes)
      requires KeyValid() && HashInv(s) && bufPos == 0
      modifies this`hashState
      ensures HashInv(s + c)
    {
      hide KeyValid, Ghash;
      WholeBlocks(s);
      GhashUpdate(Some(c), [], 0, s);
      assert s + c + [][..0] == s + c;
      WholePlus(|s|, 16);
      WholeBlocks(s + c);
    }

    lemma WholeKey()
      requires CryptInv() && |text| % 16 == 0
      ensures if decrypting then e(Store(ctr)) == KeyBlock(e, Inc(j0), |text| / 16)
              else bufCryp == KeyBlock(e, Inc(j0), |text| / 16)
    {
      hide Inc, Store;
    }

    /** encrypt_block() */
    method EncryptBlock(b: Block) returns (out: Block)
      requires Streaming() && bufPos == 0 && !decrypting
      modifies this`ctr, this`hashState, this`bufCryp, this`text
      ensures Streaming() && text == old(text) + b
      ensures Ctr(e, Inc(j0), text) == Ctr(e, Inc(j0), old(text)) + out
    {
      hide KeyValid, Inc, Ghash, KeyBlock, CryptInv, HashInv, CipherOf, IncN, Pad, Ctr, XorBytes, Streaming, CipherText;
      Parts();
      ghost var was, c := text, CipherOf(text);
      BufferPosition();
      KeyAhead();
      WholeKey();
      XorEither(bufCryp, b);
      bufCryp := XorBytes(bufCryp, b);
      HashBlock(bufCryp, Pad(aad) + c);
      out := bufCryp;
      NextKey(|was| / 16);
      text := text + b;
      CryptKept(was, b);
      TextGrows(b, was, out);
      Rejoin(c, out);
    }

    /** decrypt_block() */
    method DecryptBlock(b: Block) returns (out: Block)
      requires Streaming() && bufPos == 0 && decrypting
      modifies this`ctr, this`hashState, this`bufCryp, this`text
      ensures Streaming() && text == old(text) + b
      ensures Ctr(e, Inc(j0), text) == Ctr(e, Inc(j0), old(text)) + out
    {
      hide KeyValid, Inc, Ghash, KeyBlock, CryptInv, HashInv, CipherOf, IncN, Pad, Ctr, XorBytes, Streaming, CipherText;
      Parts();
      ghost var was, c := text, CipherOf(text);
      BufferPosition();
      KeyAhead();
      WholeKey();
      bufCryp := e(Store(ctr));
      NextKey(|was| / 16);
      XorEither(bufCryp, b);
      bufCryp := XorBytes(bufCryp, b);
      HashBlock(b, Pad(aad) + c);
      out := bufCryp;
      text := text + b;
      CryptKept(was, b);
      assert KeyBlock(e, Inc(j0), |was| / 16)[0..16] == KeyBlock(e, Inc(j0), |was| / 16);
      TextGrows(b, was, out);
      Rejoin(c, b);
    }

    /** internal_aes_gcm_update_payload_blocks() */
    method UpdateBlocks(src: Bytes, num: nat) returns (dst: Bytes)
      requires Streaming() && bufPos == 0 && 16 * num <= |src|
      modifies this`ctr, this`hashState, this`bufCryp, this`text
      ensures Streaming() && text == old(text) + src[..16 * num]
      ensures Ctr(e, Inc(j0), text) == Ctr(e, Inc(j0), old(text)) + dst
    {
      hide Streaming, Ctr, Inc;
      dst := [];
      for n := 0 to num
        invariant Streaming() && text == old(text) + src[..16 * n]
        invariant Ctr(e, Inc(j0), text) == Ctr(e, Inc(j0), old(text)) + dst
      {
        var block, out := src[16 * n..16 * n + 16], ZERO_BLOCK;
        if decrypting {
          out := DecryptBlock(block);
        } else {
          out := EncryptBlock(block);
        }
        assert src[..16 * n] + block == src[..16 * (n + 1)];
        dst := dst + out;
      }
    }

    /** One turn of the loop of __gcm_update_payload(). */
    method Turn(src: Bytes) returns (out: Bytes, n: nat)
      requires Streaming() && src != []
      modifies this`ctr, this`hashState, this`bufHash, this`bufCryp, this`bufPos, this`text
      ensures Streaming() && 0 < n <= |src| && text == old(text) + src[..n]
      ensures Ctr(e, Inc(j0), text) == Ctr(e, Inc(j0), old(text)) + out
    {
      PositionInBlock();
      hide Streaming, Ctr, Inc;
      var l := |src|;
      if bufPos != 0 || l < 16 {
        n := if 16 - bufPos < l then 16 - bufPos else l;
        out := Partial(src[..n]);
      } else {
        var num := l / 16;
        n := 16 * num;
        out := UpdateBlocks(src, num);
      }
    }

    /** The loop of __gcm_update_payload(). */
    method Stream(src: Bytes) returns (dst: Bytes)
      requires Streaming()
      modifies this`ctr, this`hashState, this`bufHash, this`bufCryp, this`bufPos, this`text
      ensures Streaming() && text == old(text) + src
      ensures Ctr(e, Inc(j0), text) == Ctr(e, Inc(j0), old(text)) + dst
    {
      hide Streaming, Ctr, Inc;
      dst := [];
      var s := src;
      while s != []
        invariant Streaming() && text + s == old(text) + src
        invariant Ctr(e, Inc(j0), text) == Ctr(e, Inc(j0), old(text)) + dst
        decreases |s|
      {
        var out, n := Turn(s);
        dst := dst + out;
        s := s[n..];
      }
    }

    lemma PositionInBlock()
      requires Streaming()
      ensures bufPos < 16
    {
    }

    /** __gcm_update_payload() */
    method UpdatePayload(src: Bytes) returns (dst: Bytes)
      requires Valid() && |text| + |src| < 0x1_0000_0000
      modifies this`ctr, this`hashState, this`bufHash, this`bufCryp, this`bufPos, this`text
      modifies this`started, this`payloadBytes
      ensures Valid() && started && text == old(text) + src
      ensures Ctr(e, Inc(j0), text) == Ctr(e, Inc(j0), old(text)) + dst
    {
      hide KeyValid, CryptInv, HashInv, Ctr, Inc, Store;
      FinishAad();
      payloadBytes := payloadBytes + |src|;
      dst := Stream(src);
    }

    // -------------------------------------------------------------- final

    /** The hash of everything, with the lengths. */
    method FinishHash()
      requires Valid() && started
      modifies this`hashState, this`bufHash
      ensures hashState == Ghash(h, Framed(aad, CipherText(), LenField(aadBytes) + LenField(|text|)))
    {
      hide KeyValid, Ghash, LenField, CipherOf, CryptInv, Store, Pad;
      ghost var s := Pad(aad) + CipherText();
      WholePlus(|Pad(aad)|, |text|);
      PadAppend(Pad(aad), CipherText());
      PadFull(s);
      if bufPos != 0 {
        FlushBuffer(s);
      }
      GhashUpdateLengths(aadBytes, payloadBytes, Pad(s));
    }

    /** operation_final() */
    method OperationFinal(src: Bytes) returns (dst: Bytes)
      requires Valid() && |text| + |src| < 0x1_0000_0000
      modifies this
      ensures text == old(text) + src && j0 == old(j0) && aad == old(aad) && tagLen == old(tagLen)
      ensures aadBytes == old(aadBytes)
      ensures Ctr(e, Inc(j0), text) == Ctr(e, Inc(j0), old(text)) + dst
      ensures tagLen <= 16 && bufTag[..tagLen] == FinalTag(e, j0, aad, aadBytes, CipherText())[..tagLen]
    {
      hide KeyValid, Ghash, LenField, CipherOf, CryptInv, HashInv, Store, Ctr, Inc, Framed;
      dst := UpdatePayload(src);
      FinishHash();
      assert h == e(ZERO_BLOCK) by {
        KeyIsZeroBlock();
      }
      bufTag := Replaced(bufTag, 0, XorBytes(bufTag[..tagLen], hashState[..tagLen]));
    }

    lemma KeyIsZeroBlock()
      requires KeyValid()
      ensures h == e(ZERO_BLOCK)
    {
    }

    /** __gcm_enc_final() with a tag buffer of `size` bytes. */
    method EncFinal(src: Bytes, size: nat) returns (res: Status, dst: Bytes, tag: Bytes)
      requires Valid() && !decrypting && |text| + |src| < 0x1_0000_0000
      modifies this
      ensures res == if size < tagLen then ShortBuffer else Success
      ensures tagLen == old(tagLen) <= 16
      ensures res == Success ==>
                && dst == Ctr(e, Inc(old(j0)), old(text) + src)[|old(text)|..]
                && tag == FinalTag(e, old(j0), old(aad), old(aadBytes), Ctr(e, Inc(old(j0)), old(text) + src))[..tagLen]
    {
      dst, tag := [], [];
      if size < tagLen {
        return ShortBuffer, dst, tag;
      }
      hide KeyValid, CryptInv, HashInv, Ctr, Inc, FinalTag;
      dst := OperationFinal(src);
      tag := bufTag[..tagLen];
      res := Success;
    }

    /** __gcm_dec_final() */
    method DecFinal(src: Bytes, tag: Bytes) returns (res: Status, dst: Bytes)
      requires Valid() && decrypting && |text| + |src| < 0x1_0000_0000
      modifies this
      ensures tagLen == old(tagLen) <= 16
      ensures |tag| == tagLen ==> dst == Ctr(e, Inc(old(j0)), old(text) + src)[|old(text)|..]
      ensures res == if |tag| == tagLen
                        && tag == FinalTag(e, old(j0), old(aad), old(aadBytes), old(text) + src)[..tagLen]
                     then Success else MacInvalid
    {
      dst := [];
      if |tag| != tagLen {
        return MacInvalid, dst;
      }
      hide KeyValid, CryptInv, HashInv, Ctr, Inc, FinalTag;
      dst := OperationFinal(src);
      res := if bufTag[..tagLen] != tag then MacInvalid else Success;
    }
  }

  lemma PadAppend(a: Bytes, c: Bytes)
    requires |a| % 16 == 0
    ensures Pad(a + c) == a + Pad(c)
  {
    WholePlus(|a|, |c|);
  }

  predicate AllZero(s: Bytes) {
    forall i :: 0 <= i < |s| ==> s[i] == 0
  }

  /**
   Associated data `a`, then an empty payload update, then more data `d`: what is hashed is that
   of `a + d` exactly when `a` was whole blocks, or `d` is empty, or zeros that the padding of
   `a` only moves.
   */
  lemma PaddedBetween(a: Bytes, d: Bytes)
    ensures Pad(Pad(a) + d) == Pad(a + d)
       <==> |a| % 16 == 0 || d == [] || (AllZero(d) && BlockCount(a + d) == BlockCount(a) + BlockCount(d))
  {
    hide Pad;
    if |a| % 16 == 0 {
      PadFull(a);
    } else if d == [] {
      PadFull(Pad(a));
      assert Pad(a) + d == Pad(a) && a + d == a;
    } else {
      PadAppend(Pad(a), d);
      PadBlocks(a);
      PadBlocks(Pad(a) + d);
      PadBlocks(a + d);
      PadBlocks(d);
      if |Pad(Pad(a) + d)| == |Pad(a + d)| {
        if AllZero(d) {
          ZerosMoved(a, d);
        } else if Pad(Pad(a) + d) == Pad(a + d) {
          var i :| 0 <= i < |d| && d[i] != 0;
          NoneFirst(a, d, i);
        }
      }
    }
  }

  /** One byte, an empty payload update, one more byte: two blocks are hashed and not one. */
  lemma PaddedApart()
    ensures Pad(Pad([1]) + [1]) != Pad([1] + [1])
    ensures |Pad(Pad([1]) + [1])| == 32 && |Pad([1] + [1])| == 16
  {
    PadBlocks(Pad([1]) + [1]);
    PadBlocks([1] + [1]);
  }

  lemma PadBlocks(s: Bytes)
    ensures |Pad(s)| == 16 * BlockCount(s)
  {
  }

  lemma ZerosMoved(a: Bytes, d: Bytes)
    requires |a| % 16 != 0 && AllZero(d) && |Pad(a) + Pad(d)| == |Pad(a + d)|
    ensures Pad(a) + Pad(d) == Pad(a + d)
  {
  }

  /** No byte of moved data can be the first that is not zero. */
  lemma {:induction false} NoneFirst(a: Bytes, d: Bytes, i: nat)
    requires |a| % 16 != 0 && Pad(a) + Pad(d) == Pad(a + d) && i < |d|
    ensures d[i] == 0
  {
    var k, x := 16 - |a| % 16, Pad(a + d);
    assert d[i] == x[|a| + i];
    if i >= k {
      NoneFirst(a, d, i - k);
      assert x[|a| + i] == Pad(d)[i - k];
    }
  }

  lemma WholePlus(a: nat, b: nat)
    requires a % 16 == 0
    ensures (a + b) % 16 == b % 16
  {
    var (q, r) := (a / 16 + b / 16, b % 16);
    assert a + b == 16 * q + r;
  }

  lemma AlignedAfter(a: nat, n: nat)
    ensures (a + 16 * n) % 16 == a % 16
  {
  }
}
