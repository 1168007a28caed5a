/** The proof check of internal/mtccert/verify.go: what VerifyMTCCert makes of an
    embedded proof, a serial number and a leaf hash, with Go's conversions from
    uint64 to int64. */
module CertVerify {
  import opened Wrappers
  import opened BitArith
  import opened Hashing
  import opened Merkle
  import opened MerkleProofs
  import opened NodeProofs
  import opened NodeTable
  import opened MtcFormat
  import IssuanceLog
  import LogRuns

  const TWO_TO_THE_63 := 0x8000_0000_0000_0000
  const TWO_TO_THE_64 := 0x1_0000_0000_0000_0000

  /** x as an int64, wrapped around. */
  function Wrap64(x: int): (w: int)
    ensures -TWO_TO_THE_63 <= w < TWO_TO_THE_63
  {
    var low := x % TWO_TO_THE_64;
    if low < TWO_TO_THE_63 then low else low - TWO_TO_THE_64
  }

  type int64 = x: int | -0x8000_0000_0000_0000 <= x < 0x8000_0000_0000_0000

  /** int64(proof.End) - int64(proof.Start) */
  function SubtreeSize(p: Proof): int64 {
    Wrap64(Wrap64(p.end) - Wrap64(p.start))
  }

  /** serial - int64(proof.Start) */
  function RelativeIndex(p: Proof, serial: int64): int64 {
    Wrap64(serial - Wrap64(p.start))
  }

  /** The serial number read as a uint64. */
  function Unsigned(serial: int64): (u: nat)
    ensures serial >= 0 ==> u == serial
    ensures serial < 0 ==> u == serial + 0x1_0000_0000_0000_0000
  {
    serial % TWO_TO_THE_64
  }

  /** RootFromInclusionProof on sizes below 1 as well, where splitPoint panics as
      soon as there is a proof hash to place. */
  function RootOrPanic(index: int, size: int, leafHash: Hash, proof: seq<Hash>): Option<Hash> {
    if size >= 1 then Some(RootFromInclusionProof(index, size, leafHash, proof))
    else if |proof| == 0 then Some(leafHash)
    else None
  }

  datatype Outcome = Panics | Checked(root: Hash, proofValid: bool)

  function AsHashes(hashes: seq<Bytes>): seq<Hash>
    requires AllHashes(hashes)
  {
    seq(|hashes|, i requires 0 <= i < |hashes| => hashes[i])
  }

  function CheckedProof(p: Proof, serial: int64, leafHash: Hash): Outcome
    requires AllHashes(p.inclusionProof)
  {
    var size, index := SubtreeSize(p), RelativeIndex(p, serial);
    var root := RootOrPanic(index, size, leafHash, AsHashes(p.inclusionProof));
    if root.None? then Panics else Checked(root.value, size > 0 && 0 <= index < size)
  }

  lemma WrapIs(x: int, turns: int)
    requires -TWO_TO_THE_63 <= x - turns * TWO_TO_THE_64 < TWO_TO_THE_63
    ensures Wrap64(x) == x - turns * TWO_TO_THE_64
  {
    var w := x - turns * TWO_TO_THE_64;
    if w >= 0 {
      DivModUnique(x, TWO_TO_THE_64, turns, w);
    } else {
      DivModUnique(x, TWO_TO_THE_64, turns - 1, w + TWO_TO_THE_64);
    }
  }

  /** How often int64(x) turns around for a uint64 x. */
  function Turns(x: uint64): int {
    if x < TWO_TO_THE_63 then 0 else 1
  }

  /** Whether the signed size is positive, from the two unsigned ends alone. */
  lemma SizePositiveExactly(p: Proof)
    requires p.start < p.end
    ensures SubtreeSize(p) >= 1 <==> p.end - p.start < TWO_TO_THE_63
    ensures SubtreeSize(p) >= 1 ==> SubtreeSize(p) == p.end - p.start
  {
    hide Wrap64;
    var size := p.end - p.start;
    WrapIs(p.start, Turns(p.start));
    WrapIs(p.end, Turns(p.end));
    WrapIs(Wrap64(p.end) - Wrap64(p.start), Turns(p.start) - Turns(p.end) + Turns(size));
  }

  lemma IndexInRangeExactly(p: Proof, serial: int64)
    requires p.start < p.end && p.end - p.start < TWO_TO_THE_63
    ensures 0 <= RelativeIndex(p, serial) < p.end - p.start <==> p.start <= Unsigned(serial) < p.end
    ensures p.start <= Unsigned(serial) < p.end ==> RelativeIndex(p, serial) == Unsigned(serial) - p.start
  {
    hide Wrap64, Unsigned;
    var negative := if serial < 0 then 1 else 0;
    UnsignedIs(serial, negative);
    WrapIs(p.start, Turns(p.start));
    var offset := Unsigned(serial) - p.start;
    var turns := if offset < -TWO_TO_THE_63 then -1 else if offset < TWO_TO_THE_63 then 0 else 1;
    WrapIs(serial - Wrap64(p.start), Turns(p.start) - negative + turns);
  }

  lemma UnsignedIs(serial: int64, negative: int)
    requires negative == if serial < 0 then 1 else 0
    ensures Unsigned(serial) == serial + negative * TWO_TO_THE_64
  {
    DivModUnique(serial, TWO_TO_THE_64, -negative, serial + negative * TWO_TO_THE_64);
  }

  /** The check on any bytes that the codec accepts: it panics exactly when the
      range has 2^63 or more entries and there is a hash to place; otherwise it
      calls the proof valid exactly when the range is smaller than that and the
      serial number, unsigned, lies in it, and then the root is recombined at the
      position in the range. */
  lemma CheckExactly(data: Bytes, serial: int64, leafHash: Hash)
    requires UnmarshalledProof(data).Ok?
    ensures var p := UnmarshalledProof(data).value;
            && AllHashes(p.inclusionProof)
            && (CheckedProof(p, serial, leafHash).Panics?
                <==> p.end - p.start >= TWO_TO_THE_63 && |p.inclusionProof| > 0)
            && (CheckedProof(p, serial, leafHash).Checked? ==>
                  && (CheckedProof(p, serial, leafHash).proofValid
                      <==> p.end - p.start < TWO_TO_THE_63 && p.start <= Unsigned(serial) < p.end)
                  && (CheckedProof(p, serial, leafHash).proofValid ==>
                        CheckedProof(p, serial, leafHash).root ==
                        RootFromInclusionProof(Unsigned(serial) - p.start, p.end - p.start, leafHash,
                                               AsHashes(p.inclusionProof))))
  {
    hide RootFromInclusionProof, SubtreeSize, RelativeIndex, Unsigned, UnmarshalledProof, AllHashes;
    AcceptedShape(data);
    var p := UnmarshalledProof(data).value;
    SizePositiveExactly(p);
    if p.end - p.start < TWO_TO_THE_63 {
      IndexInRangeExactly(p, serial);
    }
  }

  /** What the codec guarantees of an accepted proof. */
  lemma AcceptedShape(data: Bytes)
    requires UnmarshalledProof(data).Ok?
    ensures var p := UnmarshalledProof(data).value;
            p.start < p.end && AllHashes(p.inclusionProof)
  {
    hide FromBigEndian, Chunks, ParseSignatures, AllHashes;
    var n := FromBigEndian(data[16..18]);
    ConcatOfChunks(data[18..18 + n]);
  }

  /** A range of 2^63 entries with one hash is marshalled, read back and makes the
      check panic, under every serial number. */
  lemma HugeRangePanics(h: Hash, serial: int64, leafHash: Hash)
    ensures var p := Proof(0, TWO_TO_THE_63, [h], []);
            && MarshalledProof(p).Ok? && UnmarshalledProof(MarshalledProof(p).value) == Ok(p)
            && SubtreeSize(p) == -TWO_TO_THE_63
            && CheckedProof(p, serial, leafHash) == Panics
  {
    hide BigEndian, FromBigEndian, ParseSignatures, ProofBytes, UnmarshalledProof, CheckedProof;
    var p := Proof(0, TWO_TO_THE_63, [h], []);
    ProofRoundTrip(p);
    CheckExactly(MarshalledProof(p).value, serial, leafHash);
  }

  /** From the log to the check: the proof issued for an appended entry fits the
      codec, reads back, and is found valid with the checkpoint's root. */
  lemma IssuedCertificateVerifies(ops: seq<IssuanceLog.Op>, k: nat, j: nat, entry: IssuanceLog.LogEntry)
    requires k < j < |ops| && ops[k] == IssuanceLog.AppendDirectEntry(entry) && ops[j] == IssuanceLog.CreateCheckpoint
    requires |LogRuns.Run(ops).entries| < TWO_TO_THE_63
    ensures var index, cp := |LogRuns.Run(ops[..k]).entries|, LogRuns.SavedBy(ops, j);
            var path := LogRuns.IssuedProof(ops, k, j);
            && path.Ok? && index < cp.treeSize < TWO_TO_THE_63
            && var p := Proof(0, cp.treeSize, path.value, []);
               && MarshalledProof(p).Ok? && UnmarshalledProof(MarshalledProof(p).value) == Ok(p)
               && CheckedProof(p, index, LeafHash(entry.data)) == Checked(cp.rootHash, true)
  {
    hide LogRuns.Run, LogRuns.SavedBy, LogRuns.IssuedProof, RootFromInclusionProof, LeafHash, CheckedProof,
         UnmarshalledProof, ProofBytes, Pow2, Log2Ceil;
    Pow2OfLevels();
    LogRuns.AppendedThenSaved(ops, k, j, entry);
    LogRuns.IssuedProofRecombines(ops, k, j, entry);
    var index, cp := |LogRuns.Run(ops[..k]).entries|, LogRuns.SavedBy(ops, j);
    var path := LogRuns.IssuedProof(ops, k, j).value;
    LogRuns.IssuedProofShort(ops, k, j, entry);
    var p := Proof(0, cp.treeSize, path, []);
    assert AllEncodable([]) && EncodeSignatures([]) == [];
    ProofRoundTrip(p);
    CheckExactly(MarshalledProof(p).value, index, LeafHash(entry.data));
    assert AsHashes(path) == path;
  }
}
