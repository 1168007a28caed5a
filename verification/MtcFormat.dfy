/** The wire codecs of internal/mtcformat/encoding.go: log entries and the
    proofs that go into a certificate's signature field.  Functions say what is
    encoded and accepted; methods fill and read buffers with a moving offset. */
module MtcFormat {
  import opened Wrappers
  import opened Hashing

  // ----- big-endian integers -----

  /** The low `width` bytes of x, so that a uint16 conversion truncates. */
  function BigEndian(x: nat, width: nat): (b: Bytes)
    ensures |b| == width
  {
    if width == 0 then [] else BigEndian(x / 256, width - 1) + [(x % 256) as byte]
  }

  function FromBigEndian(b: Bytes): nat {
    if |b| == 0 then 0 else FromBigEndian(b[..|b| - 1]) * 256 + b[|b| - 1] as nat
  }

  function Pow256(n: nat): (p: nat)
    ensures p >= 1
  {
    if n == 0 then 1 else 256 * Pow256(n - 1)
  }

  lemma {:induction false} DecodeBigEndian(x: nat, width: nat)
    requires x < Pow256(width)
    ensures FromBigEndian(BigEndian(x, width)) == x
  {
    if width > 0 {
      DecodeBigEndian(x / 256, width - 1);
      assert BigEndian(x, width)[..width - 1] == BigEndian(x / 256, width - 1);
    }
  }

  lemma {:induction false} EncodeBigEndian(b: Bytes)
    ensures BigEndian(FromBigEndian(b), |b|) == b && FromBigEndian(b) < Pow256(|b|)
  {
    if |b| > 0 {
      var init := b[..|b| - 1];
      EncodeBigEndian(init);
      var high, low := FromBigEndian(init), b[|b| - 1];
      LastByte(high, low);
      assert FromBigEndian(b) == high * 256 + low as nat;
      assert Pow256(|b|) == 256 * Pow256(|init|);
      assert b == init + [low];
    }
  }

  lemma LastByte(high: nat, low: byte)
    ensures (high * 256 + low as nat) / 256 == high && (high * 256 + low as nat) % 256 == low as nat
  {
  }

  lemma Widths()
    ensures Pow256(2) == 0x1_0000 && Pow256(3) == 0x100_0000 && Pow256(8) == 0x1_0000_0000_0000_0000
  {
    assert Pow256(1) == 256 && Pow256(2) == 0x1_0000 && Pow256(3) == 0x100_0000 && Pow256(4) == 0x1_0000_0000;
    assert Pow256(5) == 0x100_0000_0000 && Pow256(6) == 0x1_0000_0000_0000 && Pow256(7) == 0x100_0000_0000_0000;
  }

  /** Encoding looks at x modulo 256^width only. */
  lemma {:induction false} BigEndianTruncates(x: nat, y: nat, width: nat)
    requires exists t: int :: x == y + t * Pow256(width)
    ensures BigEndian(x, width) == BigEndian(y, width)
  {
    if width > 0 {
      var t :| x == y + t * Pow256(width);
      var high := t * Pow256(width - 1);
      assert t * Pow256(width) == 256 * high;
      assert x == y + 256 * high;
      assert x / 256 == y / 256 + t * Pow256(width - 1) && x % 256 == y % 256;
      BigEndianTruncates(x / 256, y / 256, width - 1);
    }
  }

  // ----- log entries -----

  const ENTRY_TYPE_NULL := 0
  const ENTRY_TYPE_TBS_CERT := 1

  type uint16 = x: nat | x < 0x1_0000
  type uint64 = x: nat | x < 0x1_0000_0000_0000_0000

  datatype Entry = Entry(entryType: uint16, data: Bytes)

  function MarshalEntry(e: Entry): Result<Bytes> {
    if e.entryType == ENTRY_TYPE_NULL then Ok(BigEndian(ENTRY_TYPE_NULL, 2))
    else if e.entryType == ENTRY_TYPE_TBS_CERT then
      if |e.data| == 0 then Err("empty data")
      else if |e.data| > 0xFFFFFF then Err("data too large")
      else Ok(BigEndian(ENTRY_TYPE_TBS_CERT, 2) + BigEndian(|e.data|, 3) + e.data)
    else Err("unknown entry type")
  }

  function UnmarshalEntry(data: Bytes): Result<Entry> {
    if |data| < 2 then Err("too short")
    else
      var entryType := FromBigEndian(data[..2]);
      if entryType == ENTRY_TYPE_NULL then
        if |data| != 2 then Err("trailing data") else Ok(Entry(ENTRY_TYPE_NULL, []))
      else if entryType == ENTRY_TYPE_TBS_CERT then
        if |data| < 5 then Err("too short")
        else
          var n := FromBigEndian(data[2..5]);
          if n == 0 then Err("zero length")
          else if |data| < 5 + n then Err("truncated")
          else if |data| > 5 + n then Err("trailing data")
          else Ok(Entry(ENTRY_TYPE_TBS_CERT, data[5..5 + n]))
      else Err("unknown entry type")
  }

  lemma BigEndianBytes(x: nat)
    ensures BigEndian(x, 2) == [(x / 256 % 256) as byte, (x % 256) as byte]
    ensures BigEndian(x, 3) == [(x / 0x1_0000 % 256) as byte, (x / 256 % 256) as byte, (x % 256) as byte]
  {
    BigEndianStep(x, 3);
    BigEndianStep(x, 2);
    BigEndianStep(x / 256, 2);
    BigEndianStep(x / 256, 1);
    BigEndianStep(x / 256 / 256, 1);
    assert BigEndian(x / 256 / 256, 0) == [] && BigEndian(x / 256 / 256 / 256, 0) == [];
    assert x / 256 / 256 == x / 0x1_0000;
  }

  lemma BigEndianStep(x: nat, width: nat)
    requires width > 0
    ensures BigEndian(x, width) == BigEndian(x / 256, width - 1) + [(x % 256) as byte]
  {
  }

  /** Which entries are marshalled, and to which bytes: a 16-bit type, and for a
      certificate a 24-bit length and the data. */
  lemma EntryMarshalsExactly(e: Entry)
    ensures MarshalEntry(e).Ok? <==> e.entryType == 0 || (e.entryType == 1 && 1 <= |e.data| <= 0xFF_FFFF)
    ensures e.entryType == 0 ==> MarshalEntry(e) == Ok([0, 0])
    ensures e.entryType == 1 && MarshalEntry(e).Ok? ==>
              var n := |e.data|;
              MarshalEntry(e).value ==
              [0, 1, (n / 0x1_0000) as byte, (n / 256 % 256) as byte, (n % 256) as byte] + e.data
  {
    hide BigEndian;
    BigEndianBytes(0);
    BigEndianBytes(1);
    BigEndianBytes(|e.data|);
  }

  /** What was marshalled reads back, exactly when a null entry has no data. */
  lemma EntryRoundTrip(e: Entry)
    requires MarshalEntry(e).Ok?
    ensures UnmarshalEntry(MarshalEntry(e).value) == Ok(e) <==> (e.entryType == ENTRY_TYPE_NULL ==> e.data == [])
  {
    hide BigEndian, FromBigEndian;
    Widths();
    var b := MarshalEntry(e).value;
    DecodeBigEndian(e.entryType, 2);
    if e.entryType == ENTRY_TYPE_NULL {
      assert b[..2] == b;
    } else {
      DecodeBigEndian(|e.data|, 3);
      assert b[..2] == BigEndian(1, 2) && b[2..5] == BigEndian(|e.data|, 3) && b[5..5 + |e.data|] == e.data;
    }
  }

  /** What is accepted is the encoding of what was read. */
  lemma EntryCanonical(data: Bytes)
    requires UnmarshalEntry(data).Ok?
    ensures MarshalEntry(UnmarshalEntry(data).value) == Ok(data)
  {
    hide BigEndian, FromBigEndian;
    Widths();
    EncodeBigEndian(data[..2]);
    if |data| == 2 {
      assert data[..2] == data;
    } else {
      EncodeBigEndian(data[2..5]);
      var n := FromBigEndian(data[2..5]);
      assert data[5..5 + n] == data[5..];
      assert data == data[..2] + data[2..5] + data[5..];
    }
  }

  // ----- signatures -----

  datatype Signature = Signature(cosignerId: Bytes, signature: Bytes)

  predicate Encodable(s: Signature) {
    1 <= |s.cosignerId| <= 255 && |s.signature| <= 0xFFFF
  }

  function EncodeSignature(s: Signature): Bytes
    requires Encodable(s)
  {
    [|s.cosignerId| as byte] + s.cosignerId + BigEndian(|s.signature|, 2) + s.signature
  }

  predicate AllEncodable(sigs: seq<Signature>) {
    forall i :: 0 <= i < |sigs| ==> Encodable(sigs[i])
  }

  function EncodeSignatures(sigs: seq<Signature>): Bytes
    requires AllEncodable(sigs)
  {
    if |sigs| == 0 then [] else EncodeSignature(sigs[0]) + EncodeSignatures(sigs[1..])
  }

  function MarshalledSignatures(sigs: seq<Signature>): Result<Bytes> {
    if AllEncodable(sigs) then Ok(EncodeSignatures(sigs)) else Err("invalid signature")
  }

  /** The signature at the front of data and how many bytes it takes. */
  function ParseSignature(data: Bytes): Result<(Signature, nat)>
    requires |data| > 0
  {
    var idLen := data[0] as nat;
    if idLen == 0 then Err("zero-length cosigner_id")
    else if 1 + idLen > |data| then Err("truncated cosigner_id")
    else if 1 + idLen + 2 > |data| then Err("truncated signature length")
    else
      var sigLen := FromBigEndian(data[1 + idLen..3 + idLen]);
      if 3 + idLen + sigLen > |data| then Err("truncated signature data")
      else Ok((Signature(data[1..1 + idLen], data[3 + idLen..3 + idLen + sigLen]), 3 + idLen + sigLen))
  }

  function ParseSignatures(data: Bytes): Result<seq<Signature>>
    decreases |data|
  {
    if |data| == 0 then Ok([])
    else
      var one := ParseSignature(data);
      if one.Err? then Err(one.error)
      else
        var rest := ParseSignatures(data[one.value.1..]);
        if rest.Err? then rest else Ok([one.value.0] + rest.value)
  }

  lemma {:induction false} EncodeAppend(sigs: seq<Signature>, s: Signature)
    requires AllEncodable(sigs) && Encodable(s)
    ensures EncodeSignatures(sigs + [s]) == EncodeSignatures(sigs) + EncodeSignature(s)
  {
    hide EncodeSignature;
    if |sigs| == 0 {
      assert (sigs + [s])[1..] == [];
    } else {
      assert (sigs + [s])[1..] == sigs[1..] + [s];
      EncodeAppend(sigs[1..], s);
    }
  }

  lemma ParseOneEncoded(s: Signature, rest: Bytes)
    requires Encodable(s)
    ensures var data := EncodeSignature(s) + rest;
            && ParseSignature(data) == Ok((s, |EncodeSignature(s)|))
            && data[|EncodeSignature(s)|..] == rest && |EncodeSignature(s)| > 0
  {
    hide BigEndian, FromBigEndian;
    Widths();
    var data := EncodeSignature(s) + rest;
    var n, m := |s.cosignerId|, |s.signature|;
    DecodeBigEndian(m, 2);
    assert data[1 + n..3 + n] == BigEndian(m, 2);
    assert data[1..1 + n] == s.cosignerId && data[3 + n..3 + n + m] == s.signature;
  }

  lemma {:induction false} SignaturesRoundTrip(sigs: seq<Signature>)
    requires AllEncodable(sigs)
    ensures ParseSignatures(EncodeSignatures(sigs)) == Ok(sigs)
  {
    hide EncodeSignature, ParseSignature;
    if |sigs| > 0 {
      SignaturesRoundTrip(sigs[1..]);
      ParseOneEncoded(sigs[0], EncodeSignatures(sigs[1..]));
      assert sigs == [sigs[0]] + sigs[1..];
    }
  }

  lemma EncodeOneParsed(data: Bytes)
    requires |data| > 0 && ParseSignature(data).Ok?
    ensures var one := ParseSignature(data).value;
            && Encodable(one.0) && 0 < one.1 <= |data| && EncodeSignature(one.0) == data[..one.1]
  {
    hide BigEndian, FromBigEndian;
    Widths();
    var n := data[0] as nat;
    EncodeBigEndian(data[1 + n..3 + n]);
    var m := FromBigEndian(data[1 + n..3 + n]);
    assert data[..3 + n + m] == [data[0]] + data[1..1 + n] + data[1 + n..3 + n] + data[3 + n..3 + n + m];
  }

  lemma {:induction false} SignaturesCanonical(data: Bytes)
    requires ParseSignatures(data).Ok?
    ensures AllEncodable(ParseSignatures(data).value) && EncodeSignatures(ParseSignatures(data).value) == data
    decreases |data|
  {
    hide EncodeSignature, ParseSignature;
    if |data| > 0 {
      EncodeOneParsed(data);
      var one := ParseSignature(data).value;
      SignaturesCanonical(data[one.1..]);
      var sigs, rest := ParseSignatures(data).value, ParseSignatures(data[one.1..]).value;
      assert sigs[1..] == rest;
      assert data == data[..one.1] + data[one.1..];
    }
  }

  // ----- inclusion proof hashes -----

  function Concat(hashes: seq<Bytes>): Bytes {
    if |hashes| == 0 then [] else Concat(hashes[..|hashes| - 1]) + hashes[|hashes| - 1]
  }

  predicate AllHashes(hashes: seq<Bytes>) {
    forall i :: 0 <= i < |hashes| ==> |hashes[i]| == HASH_SIZE
  }

  function Chunks(b: Bytes): seq<Bytes>
    requires |b| % HASH_SIZE == 0
  {
    if |b| == 0 then [] else Chunks(b[..|b| - HASH_SIZE]) + [b[|b| - HASH_SIZE..]]
  }

  lemma {:induction false} ConcatLength(hashes: seq<Bytes>)
    requires AllHashes(hashes)
    ensures |Concat(hashes)| == |hashes| * HASH_SIZE
  {
    if |hashes| > 0 {
      ConcatLength(hashes[..|hashes| - 1]);
    }
  }

  lemma {:induction false} ChunksOfConcat(hashes: seq<Bytes>)
    requires AllHashes(hashes)
    ensures |Concat(hashes)| == |hashes| * HASH_SIZE && Chunks(Concat(hashes)) == hashes
  {
    ConcatLength(hashes);
    if |hashes| > 0 {
      var init, last := hashes[..|hashes| - 1], hashes[|hashes| - 1];
      ChunksOfConcat(init);
      var b := Concat(hashes);
      assert b[..|b| - HASH_SIZE] == Concat(init) && b[|b| - HASH_SIZE..] == last;
      assert hashes == init + [last];
    }
  }

  lemma OneHashLess(n: nat)
    requires n > 0 && n % HASH_SIZE == 0
    ensures n >= HASH_SIZE && (n - HASH_SIZE) % HASH_SIZE == 0
  {
  }

  lemma ChunksStep(b: Bytes)
    requires |b| > 0 && |b| % HASH_SIZE == 0
    ensures |b| >= HASH_SIZE && |b[..|b| - HASH_SIZE]| % HASH_SIZE == 0
    ensures Chunks(b) == Chunks(b[..|b| - HASH_SIZE]) + [b[|b| - HASH_SIZE..]]
  {
    OneHashLess(|b|);
  }

  lemma ConcatOneMore(init: seq<Bytes>, last: Bytes)
    ensures Concat(init + [last]) == Concat(init) + last
  {
    assert (init + [last])[..|init|] == init;
  }

  lemma {:induction false} ConcatOfChunks(b: Bytes)
    requires |b| % HASH_SIZE == 0
    ensures AllHashes(Chunks(b)) && Concat(Chunks(b)) == b
  {
    if |b| > 0 {
      ChunksStep(b);
      var init, last := b[..|b| - HASH_SIZE], b[|b| - HASH_SIZE..];
      ConcatOfChunks(init);
      hide Chunks, Concat;
      ConcatOneMore(Chunks(init), last);
      assert b == init + last;
    }
  }

  // ----- proofs -----

  datatype Proof = Proof(start: uint64, end: uint64, inclusionProof: seq<Bytes>, signatures: seq<Signature>)

  function ProofBytes(p: Proof, sigs: Bytes): Bytes {
    BigEndian(p.start, 8) + BigEndian(p.end, 8)
    + BigEndian(|p.inclusionProof| * HASH_SIZE, 2) + Concat(p.inclusionProof)
    + BigEndian(|sigs|, 2) + sigs
  }

  function MarshalledProof(p: Proof): Result<Bytes> {
    if p.end <= p.start then Err("invalid subtree range")
    else if |p.inclusionProof| * HASH_SIZE > 0xFFFF then Err("inclusion proof too large")
    else if !AllHashes(p.inclusionProof) then Err("wrong hash size")
    else
      var sigs := MarshalledSignatures(p.signatures);
      if sigs.Err? then Err(sigs.error) else Ok(ProofBytes(p, sigs.value))
  }

  function UnmarshalledProof(data: Bytes): Result<Proof> {
    if |data| < 20 then Err("too short")
    else
      Widths();
      EncodeBigEndian(data[..8]);
      EncodeBigEndian(data[8..16]);
      var start: uint64, end: uint64 := FromBigEndian(data[..8]), FromBigEndian(data[8..16]);
      if end <= start then Err("invalid subtree range")
      else
        var proofLen := FromBigEndian(data[16..18]);
        if proofLen % HASH_SIZE != 0 then Err("proof length not a multiple of the hash size")
        else if 18 + proofLen > |data| then Err("truncated inclusion proof")
        else
          var off := 18 + proofLen;
          if off + 2 > |data| then Err("truncated at signatures length")
          else
            var sigsLen := FromBigEndian(data[off..off + 2]);
            if off + 2 + sigsLen > |data| then Err("truncated signatures")
            else if off + 2 + sigsLen < |data| then Err("trailing data after signatures")
            else
              var sigs := ParseSignatures(data[off + 2..]);
              if sigs.Err? then Err(sigs.error)
              else Ok(Proof(start, end, Chunks(data[18..off]), sigs.value))
  }

  /** Which proofs are marshalled. */
  lemma ProofMarshalsExactly(p: Proof)
    ensures MarshalledProof(p).Ok? <==>
            && p.start < p.end && |p.inclusionProof| * 32 <= 0xFFFF
            && (forall i :: 0 <= i < |p.inclusionProof| ==> |p.inclusionProof[i]| == 32)
            && (forall i :: 0 <= i < |p.signatures| ==>
                  1 <= |p.signatures[i].cosignerId| <= 255 && |p.signatures[i].signature| <= 0xFFFF)
  {
    hide ProofBytes, EncodeSignatures;
  }

  lemma EightBytes(x: nat)
    requires x < 256
    ensures BigEndian(x, 8) == [0, 0, 0, 0, 0, 0, 0, x as byte]
  {
    var high: nat := 0;
    BigEndianStep(x, 8);
    BigEndianStep(0, 7);
    BigEndianStep(0, 6);
    BigEndianStep(0, 5);
    BigEndianStep(0, 4);
    BigEndianBytes(0);
  }

  /** A small proof, byte by byte: both ends, the hashes with their length in
      bytes, and one signature with its identifier, each behind its own length. */
  lemma SmallProofBytes(h: Hash)
    ensures MarshalledProof(Proof(1, 3, [h], [Signature([7], [8, 9])])) ==
            Ok([0, 0, 0, 0, 0, 0, 0, 1] + [0, 0, 0, 0, 0, 0, 0, 3] + [0, 32] + h + [0, 6] + [1, 7, 0, 2, 8, 9])
  {
    EightBytes(1);
    EightBytes(3);
    BigEndianBytes(32);
    BigEndianBytes(6);
    BigEndianBytes(2);
    hide BigEndian;
    var s := Signature([7], [8, 9]);
    assert EncodeSignature(s) == [1, 7, 0, 2, 8, 9];
    assert [s][1..] == [] && EncodeSignatures([s]) == EncodeSignature(s) + EncodeSignatures([]);
    assert [1 as byte, 7, 0, 2, 8, 9] + [] == [1, 7, 0, 2, 8, 9];
    assert [h][..0] == [] && Concat([h]) == [] + h == h;
    ProofMarshalsExactly(Proof(1, 3, [h], [s]));
  }

  /** The fields of an encoded proof, where UnmarshalProof looks for them. */
  lemma ProofFields(p: Proof, sigs: Bytes)
    requires AllHashes(p.inclusionProof) && |p.inclusionProof| * HASH_SIZE <= 0xFFFF
    ensures var data, n := ProofBytes(p, sigs), |p.inclusionProof| * HASH_SIZE;
            && |data| == 20 + n + |sigs|
            && data[..8] == BigEndian(p.start, 8) && data[8..16] == BigEndian(p.end, 8)
            && data[16..18] == BigEndian(n, 2) && data[18..18 + n] == Concat(p.inclusionProof)
            && data[18 + n..20 + n] == BigEndian(|sigs|, 2) && data[20 + n..] == sigs
  {
    hide BigEndian, Concat;
    ConcatLength(p.inclusionProof);
  }

  /** UnmarshalProof undoes MarshalProof exactly when the encoded signatures
      take at most 65535 bytes; beyond that the 16-bit length wraps around and
      the bytes are refused, although MarshalProof reported no error. */
  lemma ProofRoundTrip(p: Proof)
    requires MarshalledProof(p).Ok?
    ensures |EncodeSignatures(p.signatures)| <= 0xFFFF ==> UnmarshalledProof(MarshalledProof(p).value) == Ok(p)
    ensures |EncodeSignatures(p.signatures)| > 0xFFFF ==>
              UnmarshalledProof(MarshalledProof(p).value) == Err("trailing data after signatures")
  {
    hide BigEndian, FromBigEndian, Concat, Chunks, EncodeSignatures, ParseSignatures, ProofBytes, Pow256;
    Widths();
    var sigs := EncodeSignatures(p.signatures);
    var n := |p.inclusionProof| * HASH_SIZE;
    ProofFields(p, sigs);
    DecodeBigEndian(p.start, 8);
    DecodeBigEndian(p.end, 8);
    DecodeBigEndian(n, 2);
    ChunksOfConcat(p.inclusionProof);
    if |sigs| <= 0xFFFF {
      DecodeBigEndian(|sigs|, 2);
      SignaturesRoundTrip(p.signatures);
    } else {
      var wrapped := |sigs| % 0x1_0000;
      assert |sigs| == wrapped + (|sigs| / 0x1_0000) * Pow256(2);
      BigEndianTruncates(|sigs|, wrapped, 2);
      DecodeBigEndian(wrapped, 2);
    }
  }

  /** The smallest such proof: one signature of the largest size allowed, with an
      identifier of one byte, takes 65539 bytes. */
  lemma OversizedSectionRefused()
    ensures var p := Proof(0, 1, [], [Signature([1], seq(0xFFFF, _ => 0))]);
            && MarshalledProof(p).Ok? && |EncodeSignatures(p.signatures)| == 0xFFFF + 4
            && UnmarshalledProof(MarshalledProof(p).value) == Err("trailing data after signatures")
  {
    hide BigEndian, FromBigEndian, ParseSignatures, ProofBytes, UnmarshalledProof;
    var sig := Signature([1], seq(0xFFFF, _ => 0));
    var p := Proof(0, 1, [], [sig]);
    assert AllEncodable(p.signatures) && p.signatures[1..] == [];
    assert |EncodeSignature(sig)| == 0xFFFF + 4;
    ProofRoundTrip(p);
  }

  /** Re-marshalling whatever was accepted returns the same bytes. */
  lemma ProofCanonical(data: Bytes)
    requires UnmarshalledProof(data).Ok?
    ensures MarshalledProof(UnmarshalledProof(data).value) == Ok(data)
  {
    hide BigEndian, FromBigEndian, Concat, Chunks, EncodeSignatures, ParseSignatures, Pow256;
    Widths();
    EncodeBigEndian(data[..8]);
    EncodeBigEndian(data[8..16]);
    EncodeBigEndian(data[16..18]);
    var off := 18 + FromBigEndian(data[16..18]);
    EncodeBigEndian(data[off..off + 2]);
    ConcatOfChunks(data[18..off]);
    var p := UnmarshalledProof(data).value;
    ConcatLength(p.inclusionProof);
    SignaturesCanonical(data[off + 2..]);
    assert data == data[..8] + data[8..16] + data[16..18] + data[18..off] + data[off..off + 2] + data[off + 2..];
  }

  // ----- the buffer code -----

  /** copy(buf[off:], b) */
  method CopyInto(buf: array<byte>, off: nat, b: Bytes) returns (next: nat)
    requires off + |b| <= buf.Length
    modifies buf
    ensures next == off + |b|
    ensures buf[..next] == old(buf[..off]) + b
  {
    for i := 0 to |b|
      invariant buf[..off] == old(buf[..off])
      invariant buf[off..off + i] == b[..i]
    {
      buf[off + i] := b[i];
      assert buf[off..off + i + 1] == buf[off..off + i] + [b[i]] == b[..i + 1];
    }
    next := off + |b|;
    assert buf[..next] == buf[..off] + buf[off..next];
    assert b[..|b|] == b;
  }

  /** marshalSignatures: one pass for the checks and the total size, one that
      fills the buffer. */
  method MarshalSignatures(sigs: seq<Signature>) returns (r: Result<Bytes>)
    ensures r == MarshalledSignatures(sigs)
  {
    hide EncodeSignature, EncodeSignatures;
    if |sigs| == 0 {
      NoSignatures(sigs);
      return Ok([]);
    }
    var total := 0;
    NoSignatures(sigs[..0]);
    for i := 0 to |sigs|
      invariant AllEncodable(sigs[..i])
      invariant total == |EncodeSignatures(sigs[..i])|
    {
      assert sigs[..i + 1] == sigs[..i] + [sigs[i]];
      if !Encodable(sigs[i]) {
        return Err("invalid signature");
      }
      EncodeAppend(sigs[..i], sigs[i]);
      SignatureLength(sigs[i]);
      total := total + 1 + |sigs[i].cosignerId| + 2 + |sigs[i].signature|;
    }
    assert sigs[..|sigs|] == sigs;
    var buf := new byte[total];
    var off: nat := 0;
    for i := 0 to |sigs|
      invariant off <= total && buf[..off] == EncodeSignatures(sigs[..i])
    {
      assert sigs[..i + 1] == sigs[..i] + [sigs[i]];
      EncodeAppend(sigs[..i], sigs[i]);
      EncodePrefixLength(sigs, i + 1);
      off := FillSignature(buf, off, sigs[i]);
    }
    assert buf[..off] == buf[..];
    r := Ok(buf[..]);
  }

  /** One round of the filling loop. */
  method FillSignature(buf: array<byte>, off: nat, s: Signature) returns (next: nat)
    requires Encodable(s) && off + |EncodeSignature(s)| <= buf.Length
    modifies buf
    ensures next == off + |EncodeSignature(s)|
    ensures buf[..next] == old(buf[..off]) + EncodeSignature(s)
  {
    next := CopyInto(buf, off, [|s.cosignerId| as byte]);
    next := CopyInto(buf, next, s.cosignerId);
    next := CopyInto(buf, next, BigEndian(|s.signature|, 2));
    next := CopyInto(buf, next, s.signature);
  }

  lemma NoSignatures(sigs: seq<Signature>)
    requires |sigs| == 0
    ensures EncodeSignatures(sigs) == []
  {
  }

  lemma SignatureLength(s: Signature)
    requires Encodable(s)
    ensures |EncodeSignature(s)| == 1 + |s.cosignerId| + 2 + |s.signature|
  {
  }

  lemma {:induction false} EncodePrefixLength(sigs: seq<Signature>, i: nat)
    requires AllEncodable(sigs) && i <= |sigs|
    ensures |EncodeSignatures(sigs[..i])| <= |EncodeSignatures(sigs)|
    decreases |sigs| - i
  {
    hide EncodeSignature, EncodeSignatures;
    if i == |sigs| {
      assert sigs[..i] == sigs;
    } else {
      assert sigs[..i + 1] == sigs[..i] + [sigs[i]];
      EncodeAppend(sigs[..i], sigs[i]);
      EncodePrefixLength(sigs, i + 1);
    }
  }

  /** unmarshalSignatures: the loop with the moving offset. */
  method UnmarshalSignatures(data: Bytes) returns (r: Result<seq<Signature>>)
    ensures r == ParseSignatures(data)
  {
    hide FromBigEndian, ParseSignatures;
    var sigs: seq<Signature> := [];
    var off := 0;
    assert data[0..] == data;
    PrependedNone(ParseSignatures(data));
    while off < |data|
      invariant off <= |data|
      invariant ParseSignatures(data) == Prepended(sigs, ParseSignatures(data[off..]))
    {
      ghost var tail := data[off..];
      ParseStep(sigs, tail);
      var at := off;
      var idLen := data[at] as nat;
      at := at + 1;
      if idLen == 0 {
        return Err("zero-length cosigner_id");
      }
      if at + idLen > |data| {
        return Err("truncated cosigner_id");
      }
      var cosignerId := data[at..at + idLen];
      at := at + idLen;
      if at + 2 > |data| {
        return Err("truncated signature length");
      }
      TailSlice(data, off, 1 + idLen, 3 + idLen);
      var sigLen := FromBigEndian(data[at..at + 2]);
      at := at + 2;
      if at + sigLen > |data| {
        return Err("truncated signature data");
      }
      var sig := data[at..at + sigLen];
      at := at + sigLen;
      TailSlice(data, off, 1, 1 + idLen);
      TailSlice(data, off, 3 + idLen, 3 + idLen + sigLen);
      assert tail[3 + idLen + sigLen..] == data[at..];
      sigs := sigs + [Signature(cosignerId, sig)];
      off := at;
    }
    assert data[off..] == [];
    ParseNone();
    assert sigs + [] == sigs;
    r := Ok(sigs);
  }

  /** A slice behind the offset, seen from the whole data. */
  lemma TailSlice(data: Bytes, off: nat, lo: nat, hi: nat)
    requires lo <= hi && off + hi <= |data|
    ensures data[off..][lo..hi] == data[off + lo..off + hi]
  {
    forall i | 0 <= i < hi - lo
      ensures data[off..][lo..hi][i] == data[off + lo..off + hi][i]
    {
      assert data[off..][lo + i] == data[off + (lo + i)];
    }
  }

  lemma ParseNone()
    ensures ParseSignatures([]) == Ok([])
  {
  }

  /** One round of the loop, on what is left of the data. */
  lemma ParseStep(sigs: seq<Signature>, tail: Bytes)
    requires |tail| > 0
    ensures var one := ParseSignature(tail);
            && (one.Err? ==> Prepended(sigs, ParseSignatures(tail)) == Err(one.error))
            && (one.Ok? ==>
                  && one.value.1 <= |tail|
                  && Prepended(sigs, ParseSignatures(tail)) ==
                     Prepended(sigs + [one.value.0], ParseSignatures(tail[one.value.1..])))
  {
    hide ParseSignature;
    var one := ParseSignature(tail);
    if one.Ok? {
      EncodeOneParsed(tail);
      var rest := ParseSignatures(tail[one.value.1..]);
      if rest.Ok? {
        assert sigs + ([one.value.0] + rest.value) == (sigs + [one.value.0]) + rest.value;
      }
    }
  }

  method MarshalProof(p: Proof) returns (r: Result<Bytes>)
    ensures r == MarshalledProof(p)
  {
    hide BigEndian, EncodeSignatures, Concat;
    if p.end <= p.start {
      return Err("invalid subtree range");
    }
    var proofLen := |p.inclusionProof| * HASH_SIZE;
    if proofLen > 0xFFFF {
      return Err("inclusion proof too large");
    }
    for i := 0 to |p.inclusionProof|
      invariant AllHashes(p.inclusionProof[..i])
    {
      if |p.inclusionProof[i]| != HASH_SIZE {
        return Err("wrong hash size");
      }
    }
    assert p.inclusionProof[..|p.inclusionProof|] == p.inclusionProof;
    var sigs := MarshalSignatures(p.signatures);
    if sigs.Err? {
      return Err(sigs.error);
    }
    var total := 8 + 8 + 2 + proofLen + 2 + |sigs.value|;
    var buf := new byte[total];
    var off := CopyInto(buf, 0, BigEndian(p.start, 8));
    off := CopyInto(buf, off, BigEndian(p.end, 8));
    off := CopyInto(buf, off, BigEndian(proofLen, 2));
    ghost var head := buf[..off];
    NoHashes(p.inclusionProof[..0]);
    for i := 0 to |p.inclusionProof|
      invariant off == 18 + i * HASH_SIZE <= 18 + proofLen
      invariant buf[..off] == head + Concat(p.inclusionProof[..i])
    {
      ConcatSnoc(p.inclusionProof, i);
      off := CopyInto(buf, off, p.inclusionProof[i]);
    }
    assert p.inclusionProof[..|p.inclusionProof|] == p.inclusionProof;
    off := CopyInto(buf, off, BigEndian(|sigs.value|, 2));
    off := CopyInto(buf, off, sigs.value);
    assert buf[..off] == buf[..];
    assert buf[..] == ProofBytes(p, sigs.value);
    r := Ok(buf[..]);
  }

  lemma NoHashes(hashes: seq<Bytes>)
    requires |hashes| == 0
    ensures Concat(hashes) == []
  {
  }

  lemma ConcatSnoc(hashes: seq<Bytes>, i: nat)
    requires i < |hashes|
    ensures Concat(hashes[..i + 1]) == Concat(hashes[..i]) + hashes[i]
  {
    assert hashes[..i + 1][..i] == hashes[..i];
  }

  method UnmarshalProof(data: Bytes) returns (r: Result<Proof>)
    ensures r == UnmarshalledProof(data)
  {
    hide BigEndian, FromBigEndian, ParseSignatures, Chunks, Pow256;
    if |data| < 20 {
      return Err("too short");
    }
    Widths();
    EncodeBigEndian(data[..8]);
    EncodeBigEndian(data[8..16]);
    var off := 0;
    assert data[0..8] == data[..8];
    var start: uint64 := FromBigEndian(data[off..off + 8]);
    off := off + 8;
    var end: uint64 := FromBigEndian(data[off..off + 8]);
    off := off + 8;
    if end <= start {
      return Err("invalid subtree range");
    }
    var proofLen := FromBigEndian(data[off..off + 2]);
    off := off + 2;
    if proofLen % HASH_SIZE != 0 {
      return Err("proof length not a multiple of the hash size");
    }
    if off + proofLen > |data| {
      return Err("truncated inclusion proof");
    }
    var numHashes := proofLen / HASH_SIZE;
    var hashes: seq<Bytes> := [];
    NoChunks(data[18..18]);
    for i := 0 to numHashes
      invariant off == 18 + i * HASH_SIZE <= 18 + proofLen
      invariant hashes == Chunks(data[18..off])
    {
      ChunksSnoc(data, 18, off);
      hashes := hashes + [data[off..off + HASH_SIZE]];
      off := off + HASH_SIZE;
    }
    if off + 2 > |data| {
      return Err("truncated at signatures length");
    }
    var sigsLen := FromBigEndian(data[off..off + 2]);
    off := off + 2;
    if off + sigsLen > |data| {
      return Err("truncated signatures");
    }
    if off + sigsLen < |data| {
      return Err("trailing data after signatures");
    }
    assert data[off..off + sigsLen] == data[off..];
    var sigs := UnmarshalSignatures(data[off..off + sigsLen]);
    if sigs.Err? {
      return Err(sigs.error);
    }
    r := Ok(Proof(start, end, hashes, sigs.value));
  }

  lemma NoChunks(b: Bytes)
    requires |b| == 0
    ensures Chunks(b) == []
  {
  }

  lemma ChunksSnoc(data: Bytes, lo: nat, hi: nat)
    requires lo <= hi && hi + HASH_SIZE <= |data| && (hi - lo) % HASH_SIZE == 0
    ensures Chunks(data[lo..hi + HASH_SIZE]) == Chunks(data[lo..hi]) + [data[hi..hi + HASH_SIZE]]
  {
    var b := data[lo..hi + HASH_SIZE];
    assert b[..|b| - HASH_SIZE] == data[lo..hi] && b[|b| - HASH_SIZE..] == data[hi..hi + HASH_SIZE];
  }
}
