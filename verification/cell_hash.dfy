/** Cell validation and the per-level representation hashes and depths. */
module CellHash {
  import opened Cells

  const HASH_BITS: nat := 256
  const DEPTH_BITS: nat := 16

  function ZeroBytes(n: nat): (s: seq<byte>)
    ensures |s| == n
  {
    seq(n, _ => 0)
  }

  type Digest = s: seq<byte> | |s| == 32 witness ZeroBytes(32)
  type Sha = seq<byte> -> Digest

  const ZERO_DIGEST: Digest := ZeroBytes(32)

  datatype Error = InvalidCell | DepthOverflow

  // ---------------------------------------------------------------- what a cell answers

  function DepthBytes(depth: nat): (s: seq<byte>)
    ensures |s| == 2
  {
    [depth / 256 % 256, depth % 256]
  }

  function BytesDepth(hi: byte, lo: byte): nat { 256 * hi + lo }

  /** First descriptor byte as it is hashed: the store-hashes flag never takes part. */
  function HashedD1(c: Cell, m: LevelMask): byte {
    32 * m.ToByte() + 8 * BitValue(c.exotic) + |c.refs| % 8
  }

  /** Levels of the children count one Merkle cell more than those of a Merkle parent. */
  function LevelOffset(c: Cell): nat { if c.Type().IsMerkle() then 1 else 0 }

  /** Hash number `i` in the data of a pruned branch. */
  function StoredHash(c: Cell, i: nat): Digest {
    if |c.Data()| >= 2 + 32 * i + 32 then c.Data()[2 + 32 * i..2 + 32 * i + 32] else ZERO_DIGEST
  }

  /** Depth number `i` in the data of a pruned branch; the depths follow all the hashes. */
  function StoredDepth(c: Cell, i: nat): nat {
    var at := 2 + 32 * c.mask.Level() + 2 * i;
    if |c.Data()| >= at + 2 then BytesDepth(c.Data()[at], c.Data()[at + 1]) else 0
  }

  /** One more than the largest depth in the list; zero for the empty list. */
  function Tallest(depths: seq<nat>): nat {
    if depths == [] then 0
    else
      var d := depths[|depths| - 1] + 1;
      var t := Tallest(depths[..|depths| - 1]);
      if d > t then d else t
  }

  function DepthsBytes(depths: seq<nat>): seq<byte> {
    if depths == [] then [] else DepthsBytes(depths[..|depths| - 1]) + DepthBytes(depths[|depths| - 1])
  }

  function HashesBytes(hashes: seq<Digest>): seq<byte> {
    if hashes == [] then [] else HashesBytes(hashes[..|hashes| - 1]) + hashes[|hashes| - 1]
  }

  /** The depth a cell answers with at `level`. */
  function DepthAt(c: Cell, level: nat): nat
    decreases c, 1
  {
    if c.Type().PrunedBranch? then
      if c.mask.HashIndex(level) == c.mask.Level() then 0
      else StoredDepth(c, c.mask.HashIndex(level))
    else
      Tallest(ChildDepths(c, c.mask.Significant(level) + LevelOffset(c)))
  }

  /** The depths the children answer with at `level`. */
  function ChildDepths(c: Cell, level: nat): (s: seq<nat>)
    ensures |s| == |c.refs|
    decreases c, 0
  {
    seq(|c.refs|, i requires 0 <= i < |c.refs| => DepthAt(c.refs[i], level))
  }

  /** What is hashed for a computed level: descriptor, data or lower hash, child depths, child hashes. */
  function Preimage(sha: Sha, c: Cell, level: nat): seq<byte>
    decreases c, 1, 2 * level
  {
    var at := level + LevelOffset(c);
    var mask := if c.Type().PrunedBranch? then c.mask else FromLevel(level);
    [HashedD1(c, mask), c.D2()]
    + (if level == 0 then c.Data() else HashAt(sha, c, level - 1))
    + DepthsBytes(ChildDepths(c, at))
    + HashesBytes(ChildHashes(sha, c, at))
  }

  /** The hash a cell answers with at `level`. */
  function HashAt(sha: Sha, c: Cell, level: nat): Digest
    decreases c, 1, 2 * level + 1
  {
    if c.Type().PrunedBranch? then
      if c.mask.HashIndex(level) == c.mask.Level() then sha(Preimage(sha, c, 0))
      else StoredHash(c, c.mask.HashIndex(level))
    else
      sha(Preimage(sha, c, c.mask.Significant(level)))
  }

  /** The hashes the children answer with at `level`. */
  function ChildHashes(sha: Sha, c: Cell, level: nat): (s: seq<Digest>)
    ensures |s| == |c.refs|
    decreases c, 0
  {
    seq(|c.refs|, i requires 0 <= i < |c.refs| => HashAt(sha, c.refs[i], level))
  }

  /** Representation hash: the answer at the highest level. */
  function ReprHash(sha: Sha, c: Cell): Digest { HashAt(sha, c, MAX_LEVEL) }

  function ReprDepth(c: Cell): nat { DepthAt(c, MAX_LEVEL) }

  // ---------------------------------------------------------------- what a cell must be

  function ExoticType(b: byte): Option<CellType> {
    match b
    case 1 => Some(PrunedBranch)
    case 2 => Some(LibraryReference)
    case 3 => Some(MerkleProof)
    case 4 => Some(MerkleUpdate)
    case _ => None
  }

  /** The hash and the depth written in the data of `c` are those of `child` at level zero. */
  predicate Attests(sha: Sha, c: Cell, hashAt: nat, depthAt: nat, child: Cell)
    requires hashAt + 32 <= |c.Data()| && depthAt + 2 <= |c.Data()|
  {
    && c.Data()[hashAt..hashAt + 32] == HashAt(sha, child, 0)
    && BytesDepth(c.Data()[depthAt], c.Data()[depthAt + 1]) == DepthAt(child, 0)
  }

  predicate PrunedOk(c: Cell) {
    && c.mask.Level() != 0
    && |c.bits| == 16 + c.mask.Level() * (HASH_BITS + DEPTH_BITS)
    && c.refs == []
    && c.Data()[1] == c.mask.ToByte()
  }

  predicate ProofOk(sha: Sha, c: Cell) {
    && |c.bits| == 8 + HASH_BITS + DEPTH_BITS
    && |c.refs| == 1
    && Attests(sha, c, 1, 33, c.refs[0])
    && c.mask == c.ChildrenMask().Virtualize()
  }

  predicate UpdateOk(sha: Sha, c: Cell) {
    && |c.bits| == 8 + 2 * (HASH_BITS + DEPTH_BITS)
    && |c.refs| == 2
    && Attests(sha, c, 1, 65, c.refs[0])
    && Attests(sha, c, 33, 67, c.refs[1])
    && c.mask == c.ChildrenMask().Virtualize()
  }

  predicate LibraryOk(c: Cell) {
    |c.bits| == 8 + HASH_BITS && c.refs == [] && c.mask == NO_LEVELS
  }

  /** The checks a cell must pass before its hashes are computed. */
  predicate WellFormed(sha: Sha, c: Cell) {
    if !c.exotic then c.mask == c.ChildrenMask()
    else if c.Data() == [] then false
    else
      match ExoticType(c.Data()[0])
      case Some(PrunedBranch) => PrunedOk(c)
      case Some(MerkleProof) => ProofOk(sha, c)
      case Some(MerkleUpdate) => UpdateOk(sha, c)
      case Some(LibraryReference) => LibraryOk(c)
      case _ => false
  }

  /** Levels whose hash is computed: all the present ones, but only level zero for pruned branches. */
  predicate Computed(c: Cell, level: nat) {
    level == 0 || (!c.Type().PrunedBranch? && c.mask.Contains(level))
  }

  predicate AllShallow(depths: seq<nat>) {
    forall i :: 0 <= i < |depths| ==> depths[i] < MAX_DEPTH
  }

  /** No child is so deep that its parent's depth would leave 16 bits. */
  predicate ShallowAt(c: Cell, level: nat) { AllShallow(ChildDepths(c, level + LevelOffset(c))) }

  predicate Shallow(c: Cell) {
    forall level :: 0 <= level <= 3 && Computed(c, level) ==> ShallowAt(c, level)
  }

  /** The cell is accepted by the finalizer. */
  predicate Finalizable(sha: Sha, c: Cell) {
    WellFormed(sha, c) && Shallow(c)
  }

  /** The cell and everything below it was accepted by the finalizer. */
  predicate Valid(sha: Sha, c: Cell) {
    c.Fits() && Finalizable(sha, c) && forall i :: 0 <= i < |c.refs| ==> Valid(sha, c.refs[i])
  }

  /** In an accepted cell the type byte and the descriptor name the same type. */
  lemma {:induction false} TypeByte(sha: Sha, c: Cell)
    requires WellFormed(sha, c) && c.exotic
    ensures c.Data() != [] && ExoticType(c.Data()[0]) == Some(c.Type())
  {
  }

  /** Number of hashes stored for an accepted cell. */
  function HashCount(c: Cell): nat {
    if c.Type().PrunedBranch? then 1 else c.mask.Level() + 1
  }

  /** Number of computed levels below `level`: the index at which the next hash is stored. */
  function StoredBelow(c: Cell, level: nat): nat
    requires level <= 4
  {
    if level == 0 then 0
    else if c.Type().PrunedBranch? then 1
    else c.mask.HashIndex(level - 1) + 1
  }

  /** Looking up the stored list by hash index gives the answers at all levels below `bound`. */
  predicate Answers(sha: Sha, c: Cell, hashes: seq<(Digest, nat)>, bound: nat) {
    forall level :: 0 <= level < bound ==>
      c.mask.HashIndex(level) < |hashes| && hashes[c.mask.HashIndex(level)] == (HashAt(sha, c, level), DepthAt(c, level))
  }

  /** The validation half of hash computation: the checks and their order are the finalizer's. */
  method CheckCell(sha: Sha, c: Cell) returns (r: Result<CellType, Error>)
    requires c.Fits()
    ensures r == if WellFormed(sha, c) then Ok(c.Type()) else Err(InvalidCell)
  {
    var data := c.Data();
    var cellType := Ordinary;
    var computedMask := c.ChildrenMask();
    if c.exotic {
      if data == [] { return Err(InvalidCell); }
      match ExoticType(data[0]) {
        case Some(PrunedBranch) =>
          if c.mask.Level() == 0 { return Err(InvalidCell); }
          var expected := 8 + 8 + c.mask.Level() * (HASH_BITS + DEPTH_BITS);
          if |c.bits| != expected || c.refs != [] { return Err(InvalidCell); }
          if c.mask.ToByte() != data[1] { return Err(InvalidCell); }
          cellType, computedMask := PrunedBranch, c.mask;
        case Some(MerkleProof) =>
          if |c.bits| != 8 + HASH_BITS + DEPTH_BITS || |c.refs| != 1 { return Err(InvalidCell); }
          if !Attests(sha, c, 1, 33, c.refs[0]) { return Err(InvalidCell); }
          cellType, computedMask := MerkleProof, c.ChildrenMask().Virtualize();
        case Some(MerkleUpdate) =>
          if |c.bits| != 8 + 2 * (HASH_BITS + DEPTH_BITS) || |c.refs| != 2 { return Err(InvalidCell); }
          if !Attests(sha, c, 1, 65, c.refs[0]) || !Attests(sha, c, 33, 67, c.refs[1]) {
            return Err(InvalidCell);
          }
          cellType, computedMask := MerkleUpdate, c.ChildrenMask().Virtualize();
        case Some(LibraryReference) =>
          if |c.bits| != 8 + HASH_BITS || c.refs != [] { return Err(InvalidCell); }
          cellType, computedMask := LibraryReference, NO_LEVELS;
        case _ =>
          return Err(InvalidCell);
      }
    }
    if computedMask != c.mask { return Err(InvalidCell); }
    return Ok(cellType);
  }

  lemma {:induction false} ComputedAnswer(sha: Sha, c: Cell, level: nat)
    requires level <= 3 && Computed(c, level)
    ensures !c.Type().PrunedBranch? ==>
      HashAt(sha, c, level) == sha(Preimage(sha, c, level))
      && DepthAt(c, level) == Tallest(ChildDepths(c, level + LevelOffset(c)))
    ensures c.Type().PrunedBranch? ==> ReprHash(sha, c) == sha(Preimage(sha, c, 0)) && ReprDepth(c) == 0
  {
    hide Pack, Tallest, ChildDepths, ChildHashes, Preimage, HashedD1, DepthsBytes, HashesBytes;
    assert c.mask.Contains(level) ==> c.mask.Significant(level) == level;
  }

  /** A level that is not computed answers with the hash of the level below it. */
  lemma {:induction false} SkippedLevel(sha: Sha, c: Cell, hashes: seq<(Digest, nat)>, level: nat)
    requires 0 < level <= 3 && !c.mask.Contains(level) && !c.Type().PrunedBranch?
    requires Answers(sha, c, hashes, level)
    ensures c.mask.HashIndex(level) == c.mask.HashIndex(level - 1)
    ensures HashAt(sha, c, level) == HashAt(sha, c, level - 1) && DepthAt(c, level) == DepthAt(c, level - 1)
    ensures Answers(sha, c, hashes, level + 1)
  {
    assert c.mask.Significant(level) == c.mask.Significant(level - 1);
  }

  lemma {:induction false} StoredNext(c: Cell, level: nat)
    requires level <= 3
    ensures StoredBelow(c, level + 1) == StoredBelow(c, level) + (if Computed(c, level) then 1 else 0)
  {
  }

  lemma {:induction false} NextLevel(sha: Sha, c: Cell, hashes: seq<(Digest, nat)>, level: nat)
    requires level <= 3 && c.mask.Contains(level) && !c.Type().PrunedBranch?
    requires Answers(sha, c, hashes, level) && |hashes| == StoredBelow(c, level)
    ensures Answers(sha, c, hashes + [(HashAt(sha, c, level), DepthAt(c, level))], level + 1)
  {
  }

  /** Feeds the hasher with the answers of the children, depths first, and finds the depth of the parent. */
  method FeedChildren(start: seq<byte>, depths: seq<nat>, hashes: seq<Digest>)
    returns (ok: bool, hasher: seq<byte>, depth: nat)
    ensures ok <==> AllShallow(depths)
    ensures ok ==> hasher == start + DepthsBytes(depths) + HashesBytes(hashes) && depth == Tallest(depths)
  {
    hasher, depth := start, 0;
    for i := 0 to |depths|
      invariant depth == Tallest(depths[..i])
      invariant hasher == start + DepthsBytes(depths[..i])
      invariant forall j :: 0 <= j < i ==> depths[j] < MAX_DEPTH
    {
      if depths[i] + 1 > MAX_DEPTH { return false, hasher, depth; }
      depth := if depths[i] + 1 > depth then depths[i] + 1 else depth;
      hasher := hasher + DepthBytes(depths[i]);
      assert depths[..i + 1][..i] == depths[..i];
    }
    assert depths[..|depths|] == depths;
    for i := 0 to |hashes|
      invariant hasher == start + DepthsBytes(depths) + HashesBytes(hashes[..i])
    {
      hasher := hasher + hashes[i];
      assert hashes[..i + 1][..i] == hashes[..i];
    }
    assert hashes[..|hashes|] == hashes;
    ok := true;
  }

  /** Hash and depth of one computed level; `previous` is the hash of the computed level below. */
  method HashLevel(sha: Sha, c: Cell, level: nat, previous: Digest) returns (r: Option<(Digest, nat)>)
    requires level <= 3 && Computed(c, level)
    requires level > 0 ==> previous == HashAt(sha, c, level - 1)
    ensures r.Some? <==> ShallowAt(c, level)
    ensures r.Some? && !c.Type().PrunedBranch? ==> r.value == (HashAt(sha, c, level), DepthAt(c, level))
    ensures r.Some? && c.Type().PrunedBranch? ==> r.value == (ReprHash(sha, c), ReprDepth(c))
  {
    hide Pack, HashAt, DepthAt, DepthsBytes, HashesBytes, HashedD1, AllShallow;
    var at := level + LevelOffset(c);
    var mask := if c.Type().PrunedBranch? then c.mask else FromLevel(level);
    var start := [HashedD1(c, mask), c.D2()] + if level == 0 then c.Data() else previous;
    var depths := ChildDepths(c, at);
    var ok, hasher, depth := FeedChildren(start, depths, ChildHashes(sha, c, at));
    assert ok <==> ShallowAt(c, level);
    if !ok { return None; }
    assert hasher == Preimage(sha, c, level);
    ComputedAnswer(sha, c, level);
    return Some((sha(hasher), depth));
  }

  /** The hash half: one entry per computed level, lowest first. */
  method HashLevels(sha: Sha, c: Cell) returns (r: Result<seq<(Digest, nat)>, Error>)
    ensures r.Ok? <==> Shallow(c)
    ensures r.Err? ==> r.error == DepthOverflow
    ensures r.Ok? ==> |r.value| == HashCount(c)
    ensures r.Ok? && !c.Type().PrunedBranch? ==> Answers(sha, c, r.value, 4)
    ensures r.Ok? && c.Type().PrunedBranch? ==> r.value == [(ReprHash(sha, c), ReprDepth(c))]
  {
    hide Pack, HashAt, DepthAt, Preimage, AllShallow;
    var pruned := c.Type().PrunedBranch?;
    var hashes: seq<(Digest, nat)> := [];
    for level := 0 to 4
      invariant |hashes| == StoredBelow(c, level)
      invariant forall k :: 0 <= k < level && Computed(c, k) ==> ShallowAt(c, k)
      invariant !pruned ==> Answers(sha, c, hashes, level)
      invariant pruned && level > 0 ==> hashes == [(ReprHash(sha, c), ReprDepth(c))]
    {
      StoredNext(c, level);
      if level != 0 && (pruned || !c.mask.Contains(level)) {
        if !pruned { SkippedLevel(sha, c, hashes, level); }
        continue;
      }
      var previous := if level == 0 then ZERO_DIGEST else hashes[|hashes| - 1].0;
      var next := HashLevel(sha, c, level, previous);
      if next.None? { return Err(DepthOverflow); }
      if !pruned { NextLevel(sha, c, hashes, level); }
      hashes := hashes + [next.value];
    }
    return Ok(hashes);
  }

  // ---------------------------------------------------------------- what the hashes are made of

  lemma {:induction false} SliceMiddle(a: seq<byte>, b: seq<byte>, c: seq<byte>, lo: nat, hi: nat)
    requires lo <= hi <= |b|
    ensures (a + b + c)[|a| + lo..|a| + hi] == b[lo..hi]
  {
  }

  lemma {:induction false} HashesBytesAt(hashes: seq<Digest>, i: nat)
    requires i < |hashes|
    ensures |HashesBytes(hashes)| == 32 * |hashes|
    ensures HashesBytes(hashes)[32 * i..32 * i + 32] == hashes[i]
  {
    var n := |hashes| - 1;
    if n > 0 { HashesBytesAt(hashes[..n], if i < n then i else 0); }
  }

  lemma {:induction false} DepthsBytesAt(depths: seq<nat>, i: nat)
    requires i < |depths| && depths[i] <= MAX_DEPTH
    ensures |DepthsBytes(depths)| == 2 * |depths|
    ensures BytesDepth(DepthsBytes(depths)[2 * i], DepthsBytes(depths)[2 * i + 1]) == depths[i]
  {
    var n := |depths| - 1;
    DepthsBytesLength(depths[..n]);
    if i < n { DepthsBytesAt(depths[..n], i); }
  }

  lemma {:induction false} DepthsBytesLength(depths: seq<nat>)
    ensures |DepthsBytes(depths)| == 2 * |depths|
  {
    if depths != [] { DepthsBytesLength(depths[..|depths| - 1]); }
  }

  lemma {:induction false} HashesBytesLength(hashes: seq<Digest>)
    ensures |HashesBytes(hashes)| == 32 * |hashes|
  {
    if hashes != [] { HashesBytesLength(hashes[..|hashes| - 1]); }
  }

  /** Levels of the children of a cell that is a Merkle proof or update, by its type byte, count one more. */
  function ChildLevelOf(c: Cell, level: nat): nat {
    if c.exotic && c.Data() != [] && (c.Data()[0] == 3 || c.Data()[0] == 4) then level + 1 else level
  }

  /** Two bytes of depth for every child, then 32 bytes of hash for every child, as the children answer. */
  ghost predicate ChildrenFed(sha: Sha, c: Cell, level: nat, tail: seq<byte>) {
    && |tail| == 34 * |c.refs|
    && forall k :: 0 <= k < |c.refs| ==> ChildFed(sha, c.refs[k], ChildLevelOf(c, level), tail, k, |c.refs|)
  }

  predicate ChildFed(sha: Sha, child: Cell, level: nat, tail: seq<byte>, k: nat, n: nat)
    requires k < n && |tail| == 34 * n
  {
    && tail[2 * k] as int * 256 + tail[2 * k + 1] as int == DepthAt(child, level)
    && tail[2 * n + 32 * k..2 * n + 32 * k + 32] == HashAt(sha, child, level)
  }

  /** The digest of two descriptor bytes, a prefix, and what the children answer at a level. */
  ghost predicate DigestOf(sha: Sha, c: Cell, d1: int, prefix: seq<byte>, level: nat, digest: Digest) {
    exists tail: seq<byte>, a: byte, b: byte ::
      && a == d1 && b == |c.bits| / 8 + (|c.bits| + 7) / 8
      && ChildrenFed(sha, c, level, tail) && digest == sha([a, b] + prefix + tail)
  }

  /** One more than the greatest depth of the children at a level, or zero without children. */
  ghost predicate OneAbove(c: Cell, level: nat, depth: nat) {
    && (forall k :: 0 <= k < |c.refs| ==> DepthAt(c.refs[k], ChildLevelOf(c, level)) < depth)
    && (depth > 0 ==> exists k :: 0 <= k < |c.refs| && DepthAt(c.refs[k], ChildLevelOf(c, level)) + 1 == depth)
  }

  /** First descriptor byte hashed for a level: references, the exotic flag, and a mask of all levels up to this one. */
  function LevelD1(c: Cell, level: nat): int {
    |c.refs| + (if c.exotic then 8 else 0) + (if level == 0 then 0 else if level == 1 then 32 else if level == 2 then 96 else 224)
  }

  /** The lowest digest is of the data, every other one of the digest below it. */
  ghost predicate ChainedAt(sha: Sha, c: Cell, hashes: seq<(Digest, nat)>, level: nat) {
    var i := c.mask.HashIndex(level);
    && i < |hashes| && (i == 0 <==> level == 0)
    && DigestOf(sha, c, LevelD1(c, level), if i == 0 then c.Data() else hashes[i - 1].0, level, hashes[i].0)
    && OneAbove(c, level, hashes[i].1)
  }

  lemma {:induction false} AttestedOffset(sha: Sha, c: Cell, level: nat)
    requires WellFormed(sha, c)
    ensures ChildLevelOf(c, level) == level + LevelOffset(c)
  {
    hide Pack, HashAt, DepthAt;
    if c.exotic { TypeByte(sha, c); }
  }

  lemma {:induction false} TallestIs(depths: seq<nat>)
    ensures forall k :: 0 <= k < |depths| ==> depths[k] < Tallest(depths)
    ensures Tallest(depths) > 0 ==> exists k :: 0 <= k < |depths| && depths[k] + 1 == Tallest(depths)
  {
    if depths != [] {
      var n := |depths| - 1;
      TallestIs(depths[..n]);
      assert forall k :: 0 <= k < n ==> depths[..n][k] == depths[k];
      if depths[n] + 1 > Tallest(depths[..n]) { assert depths[n] + 1 == Tallest(depths); }
    }
  }

  /** What is fed for the children, byte by byte. */
  lemma {:induction false} FedBytes(sha: Sha, c: Cell, level: nat)
    requires WellFormed(sha, c) && AllShallow(ChildDepths(c, level + LevelOffset(c)))
    ensures var at := level + LevelOffset(c);
      ChildrenFed(sha, c, level, DepthsBytes(ChildDepths(c, at)) + HashesBytes(ChildHashes(sha, c, at)))
    ensures OneAbove(c, level, Tallest(ChildDepths(c, level + LevelOffset(c))))
  {
    hide Pack, HashAt, DepthAt, DepthsBytes, HashesBytes, WellFormed, Tallest, Cell.Data, Cell.Type;
    var at, n := level + LevelOffset(c), |c.refs|;
    var depths, hashes := ChildDepths(c, at), ChildHashes(sha, c, at);
    AttestedOffset(sha, c, level);
    DepthsBytesLength(depths);
    HashesBytesLength(hashes);
    TallestIs(depths);
    var tail := DepthsBytes(depths) + HashesBytes(hashes);
    forall k | 0 <= k < n
      ensures ChildFed(sha, c.refs[k], at, tail, k, n)
    {
      DepthsBytesAt(depths, k);
      HashesBytesAt(hashes, k);
      assert tail[2 * n + 32 * k..2 * n + 32 * k + 32] == HashesBytes(hashes)[32 * k..32 * k + 32];
    }
    assert forall k :: 0 <= k < n ==> depths[k] == DepthAt(c.refs[k], ChildLevelOf(c, level));
  }

  lemma {:induction false} D2Is(c: Cell)
    requires c.Fits()
    ensures c.D2() == |c.bits| / 8 + (|c.bits| + 7) / 8
  {
  }

  lemma {:induction false} PreimageDigest(sha: Sha, c: Cell, level: nat)
    requires c.Fits() && WellFormed(sha, c) && level <= 3 && ShallowAt(c, level)
    ensures !c.Type().PrunedBranch? ==>
      DigestOf(sha, c, LevelD1(c, level), if level == 0 then c.Data() else HashAt(sha, c, level - 1), level, sha(Preimage(sha, c, level)))
    ensures c.Type().PrunedBranch? ==>
      DigestOf(sha, c, 8 + 32 * c.mask.ToByte(), if level == 0 then c.Data() else HashAt(sha, c, level - 1), level, sha(Preimage(sha, c, level)))
  {
    hide Pack, HashAt, DepthAt, DepthsBytes, HashesBytes, WellFormed, ChildrenFed, Cell.Data, AllShallow, ChildDepths, ChildHashes;
    FedBytes(sha, c, level);
    var at := level + LevelOffset(c);
    var depths, hashes := DepthsBytes(ChildDepths(c, at)), HashesBytes(ChildHashes(sha, c, at));
    var tail := depths + hashes;
    var mask := if c.Type().PrunedBranch? then c.mask else FromLevel(level);
    var prefix := if level == 0 then c.Data() else HashAt(sha, c, level - 1);
    assert Preimage(sha, c, level) == [HashedD1(c, mask), c.D2()] + prefix + depths + hashes;
    assert Preimage(sha, c, level) == [HashedD1(c, mask), c.D2()] + prefix + tail;
    D2Is(c);
  }

  lemma {:induction false} Chained(sha: Sha, c: Cell, hashes: seq<(Digest, nat)>, level: nat)
    requires c.Fits() && Finalizable(sha, c) && !c.Type().PrunedBranch? && Answers(sha, c, hashes, 4)
    requires level <= 3 && c.mask.Contains(level)
    ensures ChainedAt(sha, c, hashes, level)
  {
    hide Pack, HashAt, DepthAt, WellFormed, DigestOf, OneAbove, Preimage, AllShallow, Tallest;
    assert Computed(c, level) && ShallowAt(c, level);
    ComputedAnswer(sha, c, level);
    PreimageDigest(sha, c, level);
    FedBytes(sha, c, level);
    if level > 0 { assert c.mask.HashIndex(level - 1) == c.mask.HashIndex(level) - 1; }
  }

  /** Validates a cell and computes its hashes and depths. */
  method ComputeHashes(sha: Sha, c: Cell) returns (r: Result<seq<(Digest, nat)>, Error>)
    requires c.Fits()
    ensures r.Ok? <==> Finalizable(sha, c)
    ensures r.Err? ==> r.error == if WellFormed(sha, c) then DepthOverflow else InvalidCell
    ensures r.Ok? ==> |r.value| == HashCount(c)
    ensures r.Ok? && !c.Type().PrunedBranch? ==> Answers(sha, c, r.value, 4)
    ensures r.Ok? && !c.Type().PrunedBranch? ==>
      forall level: nat :: level <= 3 && c.mask.Contains(level) ==> ChainedAt(sha, c, r.value, level)
    ensures r.Ok? && c.Type().PrunedBranch? ==>
      && r.value == [(ReprHash(sha, c), 0)]
      && DigestOf(sha, c, 8 + 32 * c.mask.ToByte(), c.Data(), 0, r.value[0].0)
  {
    hide Pack, HashAt, DepthAt, WellFormed, DigestOf, Shallow, ChainedAt, Preimage;
    var checked := CheckCell(sha, c);
    if checked.Err? { return Err(checked.error); }
    r := HashLevels(sha, c);
    if r.Ok? {
      if c.Type().PrunedBranch? {
        LowestShallow(c);
        ComputedAnswer(sha, c, 0);
        PreimageDigest(sha, c, 0);
      } else {
        forall level: nat | level <= 3 && c.mask.Contains(level)
          ensures ChainedAt(sha, c, r.value, level)
        {
          Chained(sha, c, r.value, level);
        }
      }
    }
  }

  lemma {:induction false} LowestShallow(c: Cell)
    requires Shallow(c)
    ensures ShallowAt(c, 0)
  {
    hide AllShallow;
    assert Computed(c, 0);
  }
}
