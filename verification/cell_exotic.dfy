/** The forms of exotic cells, as they are written; the finalizer accepts exactly these. */
module ExoticCells {
  import opened Cells
  import opened CellHash

  /** The Merkle proof of a tree. */
  function ProofOf(sha: Sha, c: Cell): Cell {
    Cell(true, false, c.mask.Virtualize(), BytesToBits([3] + HashAt(sha, c, 0) + DepthBytes(DepthAt(c, 0))), [c])
  }

  /** The Merkle update between two trees: both hashes, then both depths. */
  function UpdateOf(sha: Sha, a: Cell, b: Cell): Cell {
    Cell(true, false, a.mask.Or(b.mask).Virtualize(),
         BytesToBits([4] + HashAt(sha, a, 0) + HashAt(sha, b, 0) + DepthBytes(DepthAt(a, 0)) + DepthBytes(DepthAt(b, 0))), [a, b])
  }

  /** The reference to a library cell. */
  function LibraryOf(hash: Digest): Cell { Cell(true, false, NO_LEVELS, BytesToBits([2] + hash), []) }

  /** A pruned branch: its mask, and a hash and a depth of two bytes for each of its levels. */
  predicate PrunedForm(c: Cell) {
    && c.refs == [] && c.mask != NO_LEVELS && |c.bits| == 16 + 272 * c.mask.Level()
    && c.bits[..16] == ByteToBits(1) + ByteToBits(c.mask.ToByte())
  }

  function Unflagged(c: Cell): Cell { c.(storeHashes := false) }

  ghost predicate ExoticForm(sha: Sha, c: Cell) {
    || PrunedForm(c)
    || (|c.refs| == 0 && |c.bits| == 264 && exists hash: Digest :: Unflagged(c) == LibraryOf(hash))
    || (|c.refs| == 1 && Unflagged(c) == ProofOf(sha, c.refs[0]))
    || (|c.refs| == 2 && Unflagged(c) == UpdateOf(sha, c.refs[0], c.refs[1]))
  }

  /** Bits of a whole number of bytes are the bits of their own bytes. */
  lemma {:induction false} WholeBytes(bits: seq<bool>)
    requires |bits| % 8 == 0
    ensures BytesToBits(Pack(bits)) == bits
  {
    BitsOfPack(bits);
    assert bits + [] == bits;
  }

  lemma {:induction false} SameBits(bits: seq<bool>, data: seq<byte>)
    requires |bits| % 8 == 0
    ensures Pack(bits) == data <==> bits == BytesToBits(data)
  {
    WholeBytes(bits);
    PackOfBits(data);
  }

  lemma {:induction false} DepthWritten(depth: nat, hi: byte, lo: byte)
    requires depth <= MAX_DEPTH
    ensures BytesDepth(hi, lo) == depth <==> [hi, lo] == DepthBytes(depth)
  {
  }

  /** A Merkle proof is accepted exactly when it is the proof of its child. */
  lemma {:induction false} ProofIff(sha: Sha, c: Cell)
    requires |c.refs| == 1 && DepthAt(c.refs[0], 0) <= MAX_DEPTH && c.exotic
    ensures |c.bits| == 280 && c.Data()[0] == 3 && ProofOk(sha, c) <==> Unflagged(c) == ProofOf(sha, c.refs[0])
  {
    hide HashAt, DepthAt, Pack, BytesToBits, BytesDepth, DepthBytes;
    var child := c.refs[0];
    var data := [3] + HashAt(sha, child, 0) + DepthBytes(DepthAt(child, 0));
    assert MaskUnion(c.refs) == child.mask by { assert c.refs[..0] == []; }
    if |c.bits| == 280 {
      SameBits(c.bits, data);
      var own := c.Data();
      DepthWritten(DepthAt(child, 0), own[33], own[34]);
      assert own == [own[0]] + own[1..33] + [own[33], own[34]];
      assert data[1..33] == HashAt(sha, child, 0) && data[33..] == DepthBytes(DepthAt(child, 0));
      assert data[33..] == [data[33], data[34]];
    }
    assert c.refs == [child];
  }

  lemma {:induction false} UpdateIff(sha: Sha, c: Cell)
    requires |c.refs| == 2 && DepthAt(c.refs[0], 0) <= MAX_DEPTH && DepthAt(c.refs[1], 0) <= MAX_DEPTH && c.exotic
    ensures |c.bits| == 552 && c.Data()[0] == 4 && UpdateOk(sha, c) <==> Unflagged(c) == UpdateOf(sha, c.refs[0], c.refs[1])
  {
    hide HashAt, DepthAt, Pack, BytesToBits, BytesDepth, DepthBytes;
    var a, b := c.refs[0], c.refs[1];
    var data := [4] + HashAt(sha, a, 0) + HashAt(sha, b, 0) + DepthBytes(DepthAt(a, 0)) + DepthBytes(DepthAt(b, 0));
    assert MaskUnion(c.refs) == a.mask.Or(b.mask) by {
      assert c.refs[..1] == [a] && [a][..0] == [];
      assert MaskUnion([a]) == a.mask;
    }
    if |c.bits| == 552 {
      SameBits(c.bits, data);
      var own := c.Data();
      DepthWritten(DepthAt(a, 0), own[65], own[66]);
      DepthWritten(DepthAt(b, 0), own[67], own[68]);
      assert own == [own[0]] + own[1..33] + own[33..65] + [own[65], own[66]] + [own[67], own[68]];
      assert data[1..33] == HashAt(sha, a, 0) && data[33..65] == HashAt(sha, b, 0);
      assert data[65..67] == DepthBytes(DepthAt(a, 0)) && data[67..69] == DepthBytes(DepthAt(b, 0));
      assert data[65..67] == [data[65], data[66]] && data[67..69] == [data[67], data[68]];
    }
    assert c.refs == [a, b];
  }

  lemma {:induction false} LibraryIff(c: Cell)
    requires |c.refs| == 0 && c.exotic
    ensures |c.bits| == 264 && c.Data()[0] == 2 && LibraryOk(c) <==>
      |c.bits| == 264 && exists hash: Digest :: Unflagged(c) == LibraryOf(hash)
  {
    hide Pack, BytesToBits;
    if |c.bits| == 264 {
      var own := c.Data();
      if own[0] == 2 {
        var hash: Digest := own[1..];
        SameBits(c.bits, [2] + hash);
        assert own == [own[0]] + own[1..];
        assert LibraryOk(c) ==> Unflagged(c) == LibraryOf(hash);
      }
      forall hash: Digest | Unflagged(c) == LibraryOf(hash)
        ensures own[0] == 2 && LibraryOk(c)
      {
        SameBits(c.bits, [2] + hash);
      }
    }
  }

  lemma {:induction false} PrunedIff(c: Cell)
    requires c.exotic
    ensures |c.bits| >= 16 && c.Data()[0] == 1 && PrunedOk(c) <==> PrunedForm(c)
  {
    hide Pack, BytesToBits, ByteToBits;
    if |c.bits| == 16 + c.mask.Level() * 272 && c.mask.Level() > 0 {
      var own := c.Data();
      WholeBytes(c.bits);
      FirstBytes(own);
      ByteOfBitsOfByte(own[0]);
      ByteOfBitsOfByte(own[1]);
      ByteOfBitsOfByte(1);
      ByteOfBitsOfByte(c.mask.ToByte());
      assert c.bits[..8] == ByteToBits(own[0]) && c.bits[8..16] == ByteToBits(own[1]);
      assert c.bits[..16] == c.bits[..8] + c.bits[8..16];
    }
  }

  lemma {:induction false} FirstBytes(data: seq<byte>)
    requires |data| >= 2
    ensures BytesToBits(data)[..8] == ByteToBits(data[0]) && BytesToBits(data)[8..16] == ByteToBits(data[1])
  {
    hide ByteToBits;
    assert data[1..] == [data[1]] + data[2..];
    assert BytesToBits(data) == ByteToBits(data[0]) + (ByteToBits(data[1]) + BytesToBits(data[1..][1..]));
  }

  /** The finalizer accepts an exotic cell exactly when it has one of the four forms. */
  lemma {:induction false} ExoticIff(sha: Sha, c: Cell)
    requires c.exotic && forall i :: 0 <= i < |c.refs| ==> DepthAt(c.refs[i], 0) <= MAX_DEPTH
    ensures WellFormed(sha, c) <==> ExoticForm(sha, c)
  {
    hide HashAt, DepthAt, Pack, PrunedOk, ProofOk, UpdateOk, LibraryOk, PrunedForm, ProofOf, UpdateOf, LibraryOf;
    PrunedIff(c);
    FormSizes(sha, c);
    if |c.refs| == 0 { LibraryIff(c); }
    if |c.refs| == 1 { ProofIff(sha, c); }
    if |c.refs| == 2 { UpdateIff(sha, c); }
  }

  lemma {:induction false} FormSizes(sha: Sha, c: Cell)
    ensures PrunedOk(c) ==> c.refs == [] && |c.bits| >= 16
    ensures ProofOk(sha, c) ==> |c.refs| == 1 && |c.bits| == 280
    ensures UpdateOk(sha, c) ==> |c.refs| == 2 && |c.bits| == 552
    ensures LibraryOk(c) ==> |c.refs| == 0 && |c.bits| == 264
  {
    hide HashAt, DepthAt, Pack;
  }
}
