/** Removing the inclusion proof extension from a TBSCertificate (section 4.1 of
    RFC 5280), as internal/localca/canonical.go does it.  Go's encoding/asn1 is
    represented by a codec for definite-length values with one-byte identifiers. */
module Strip {
  import opened Wrappers
  import opened Hashing
  import opened MtcFormat

  // ----- tag, length, value -----

  datatype Tlv = Tlv(id: byte, content: Bytes)

  const SEQUENCE: byte := 0x30
  const EXTENSIONS: byte := 0xA3
  const OBJECT_IDENTIFIER: byte := 0x06

  /** 1.3.6.1.4.1.99999.1.1, OIDMTCInclusionProof. */
  const MTC_OID: Bytes := [0x2B, 0x06, 0x01, 0x04, 0x01, 0x86, 0x8D, 0x1F, 0x01, 0x01]

  /** Lengths that the decoder accepts, below 2^31. */
  const MAX_LENGTH: nat := 0x8000_0000

  function ByteCount(n: nat): nat {
    if n == 0 then 0 else 1 + ByteCount(n / 256)
  }

  /** A length fits in eight bytes. */
  function LengthBytes(n: nat): nat {
    if ByteCount(n) <= 8 then ByteCount(n) else 8
  }

  function EncodeLength(n: nat): Bytes {
    if n < 0x80 then [n as byte] else [(0x80 + LengthBytes(n)) as byte] + BigEndian(n, LengthBytes(n))
  }

  function Encode(t: Tlv): Bytes {
    [t.id] + EncodeLength(|t.content|) + t.content
  }

  /** The content length and the number of bytes that tell it: short form, or
      one to four bytes without leading zeros and not below 0x80. */
  function ParseLength(data: Bytes): Result<(nat, nat)> {
    if |data| == 0 then Err("truncated")
    else if data[0] < 0x80 then Ok((data[0] as nat, 1))
    else
      var k := data[0] as nat - 0x80;
      if k == 0 || k > 4 || 1 + k > |data| || data[1] == 0 then Err("invalid length")
      else
        var n := FromBigEndian(data[1..1 + k]);
        if n < 0x80 || n >= MAX_LENGTH then Err("invalid length") else Ok((n, 1 + k))
  }

  /** asn1.Unmarshal into a RawValue: the value and how many bytes it takes. */
  function Parse(data: Bytes): Result<(Tlv, nat)> {
    if |data| == 0 then Err("truncated")
    else if data[0] % 32 == 31 then Err("high tag number")
    else
      var len := ParseLength(data[1..]);
      if len.Err? then Err(len.error)
      else
        var start := 1 + len.value.1;
        if start + len.value.0 > |data| then Err("truncated")
        else Ok((Tlv(data[0], data[start..start + len.value.0]), start + len.value.0))
  }

  predicate WellFormed(t: Tlv) {
    t.id % 32 != 31 && |t.content| < MAX_LENGTH
  }

  // ----- the length codec -----

  lemma {:induction false} ByteCountBounds(n: nat)
    requires n > 0
    ensures ByteCount(n) >= 1 && Pow256(ByteCount(n) - 1) <= n < Pow256(ByteCount(n))
  {
    if n >= 256 {
      ByteCountBounds(n / 256);
    } else {
      assert ByteCount(n / 256) == 0;
    }
  }

  lemma ByteCountUnique(n: nat, k: nat)
    requires k >= 1 && Pow256(k - 1) <= n < Pow256(k)
    ensures ByteCount(n) == k
  {
    ByteCountBounds(n);
    var c := ByteCount(n);
    if c < k {
      Pow256Monotone(c, k - 1);
    } else if k < c {
      Pow256Monotone(k, c - 1);
    }
  }

  lemma {:induction false} Pow256Monotone(a: nat, b: nat)
    requires a <= b
    ensures Pow256(a) <= Pow256(b)
    decreases b
  {
    if a < b {
      Pow256Monotone(a, b - 1);
    }
  }

  lemma FourBytes()
    ensures Pow256(0) == 1 && Pow256(4) == 0x1_0000_0000
  {
    assert Pow256(1) == 256 && Pow256(2) == 0x1_0000 && Pow256(3) == 0x100_0000;
  }

  /** The most significant byte of a minimal encoding is not zero. */
  lemma {:induction false} LeadingByte(b: Bytes)
    requires |b| >= 1
    ensures b[0] != 0 <==> FromBigEndian(b) >= Pow256(|b| - 1)
  {
    if |b| > 1 {
      LeadingByte(b[..|b| - 1]);
    } else {
      assert b[..0] == [];
    }
  }

  lemma LengthRoundTrip(n: nat, rest: Bytes)
    requires n < MAX_LENGTH
    ensures ParseLength(EncodeLength(n) + rest) == Ok((n, |EncodeLength(n)|))
  {
    hide BigEndian, FromBigEndian, ByteCount, Pow256;
    if n >= 0x80 {
      ByteCountBounds(n);
      var k := ByteCount(n);
      FourBytes();
      if k > 4 {
        Pow256Monotone(4, k - 1);
      }
      var data, b := EncodeLength(n) + rest, BigEndian(n, k);
      assert data[1..1 + k] == b && data[1] == b[0];
      DecodeBigEndian(n, k);
      LeadingByte(b);
    }
  }

  lemma LengthCanonical(data: Bytes)
    requires ParseLength(data).Ok?
    ensures var v := ParseLength(data).value;
            v.0 < MAX_LENGTH && 0 < v.1 <= |data| && EncodeLength(v.0) == data[..v.1]
  {
    hide BigEndian, FromBigEndian, ByteCount, Pow256;
    if data[0] < 0x80 {
      assert data[..1] == [data[0]];
    } else {
      var k := data[0] as nat - 0x80;
      var b := data[1..1 + k];
      var n := FromBigEndian(b);
      EncodeBigEndian(b);
      LeadingByte(b);
      ByteCountUnique(n, k);
      assert data[..1 + k] == [data[0]] + b;
    }
  }

  lemma {:induction false} EncodeLengthMonotone(m: nat, n: nat)
    requires m <= n
    ensures |EncodeLength(m)| <= |EncodeLength(n)|
  {
    ByteCountMonotone(m, n);
  }

  lemma {:induction false} ByteCountMonotone(m: nat, n: nat)
    requires m <= n
    ensures ByteCount(m) <= ByteCount(n)
    decreases n
  {
    if m > 0 {
      ByteCountMonotone(m / 256, n / 256);
    }
  }

  // ----- values -----

  lemma ParseEncoded(t: Tlv, rest: Bytes)
    requires WellFormed(t)
    ensures Parse(Encode(t) + rest) == Ok((t, |Encode(t)|)) && (Encode(t) + rest)[|Encode(t)|..] == rest
  {
    hide EncodeLength, ParseLength;
    var data := Encode(t) + rest;
    LengthRoundTrip(|t.content|, t.content + rest);
    assert data[1..] == EncodeLength(|t.content|) + (t.content + rest);
    var start := 1 + |EncodeLength(|t.content|)|;
    assert data[start..start + |t.content|] == t.content;
  }

  /** An encoded value is accepted exactly when its identifier is one byte and its
      content is shorter than 2^31 bytes. */
  lemma EncodedParsesExactly(t: Tlv, rest: Bytes)
    ensures Parse(Encode(t) + rest).Ok? <==> t.id % 32 != 31 && |t.content| < 0x8000_0000
  {
    var n, data := |t.content|, Encode(t) + rest;
    if WellFormed(t) {
      ParseEncoded(t, rest);
    } else if t.id % 32 != 31 {
      hide EncodeLength, ParseLength;
      LongLengthRefused(n, t.content + rest);
      assert data[1..] == EncodeLength(n) + (t.content + rest);
    }
  }

  lemma LongLengthRefused(n: nat, rest: Bytes)
    requires n >= 0x8000_0000
    ensures ParseLength(EncodeLength(n) + rest).Err?
  {
    hide BigEndian, FromBigEndian, ByteCount, Pow256;
    ByteCountBounds(n);
    FourBytes();
    var k := ByteCount(n);
    if k <= 4 {
      var data, b := EncodeLength(n) + rest, BigEndian(n, k);
      assert data[1..1 + k] == b;
      Pow256Monotone(k, 4);
      DecodeBigEndian(n, k);
    }
  }

  /** Short and long form, byte by byte. */
  lemma LengthsByteByByte()
    ensures EncodeLength(0x7F) == [0x7F] && EncodeLength(0x80) == [0x81, 0x80]
    ensures EncodeLength(0x1234) == [0x82, 0x12, 0x34] && EncodeLength(0x56789A) == [0x83, 0x56, 0x78, 0x9A]
  {
    Widths();
    ByteCountUnique(0x80, 1);
    ByteCountUnique(0x1234, 2);
    ByteCountUnique(0x56789A, 3);
    ThreeBytes(0x80, 0, 0);
    ThreeBytes(0x34, 0x12, 0);
    ThreeBytes(0x9A, 0x78, 0x56);
  }

  lemma ThreeBytes(low: byte, mid: byte, high: byte)
    ensures BigEndian(low as nat, 1) == [low] && BigEndian(low as nat + 0x100 * mid as nat, 2) == [mid, low]
    ensures BigEndian(low as nat + 0x100 * mid as nat + 0x1_0000 * high as nat, 3) == [high, mid, low]
  {
    var m, h := low as nat + 0x100 * mid as nat, low as nat + 0x100 * mid as nat + 0x1_0000 * high as nat;
    assert h / 256 == mid as nat + 0x100 * high as nat && h % 256 == low as nat;
    assert m / 256 == mid as nat && m % 256 == low as nat && h / 256 / 256 == high as nat;
    assert (h / 256) % 256 == mid as nat;
    OneByte(high);
    OneByte(mid);
    OneByte(low);
  }

  lemma OneByte(b: byte)
    ensures BigEndian(b as nat, 1) == [b]
  {
    assert BigEndian(b as nat / 256, 0) == [];
  }

  lemma EncodeParsed(data: Bytes)
    requires Parse(data).Ok?
    ensures var v := Parse(data).value;
            WellFormed(v.0) && 0 < v.1 <= |data| && Encode(v.0) == data[..v.1]
  {
    hide EncodeLength, ParseLength;
    LengthCanonical(data[1..]);
    var len := ParseLength(data[1..]).value;
    var start := 1 + len.1;
    assert data[..start + len.0] == [data[0]] + data[1..][..len.1] + data[start..start + len.0];
  }

  function EncodeAll(ts: seq<Tlv>): Bytes {
    if |ts| == 0 then [] else Encode(ts[0]) + EncodeAll(ts[1..])
  }

  function ParseAll(data: Bytes): Result<seq<Tlv>>
    decreases |data|
  {
    if |data| == 0 then Ok([])
    else
      var one := Parse(data);
      if one.Err? then Err(one.error)
      else
        EncodeParsed(data);
        var rest := ParseAll(data[one.value.1..]);
        if rest.Err? then rest else Ok([one.value.0] + rest.value)
  }

  ghost predicate AllWellFormed(ts: seq<Tlv>) {
    forall i :: 0 <= i < |ts| ==> WellFormed(ts[i])
  }

  lemma {:induction false} ParseAllEncoded(ts: seq<Tlv>)
    requires AllWellFormed(ts)
    ensures ParseAll(EncodeAll(ts)) == Ok(ts)
  {
    hide Encode, Parse, WellFormed;
    if |ts| > 0 {
      ParseAllEncoded(ts[1..]);
      ParseEncoded(ts[0], EncodeAll(ts[1..]));
      EncodeNonempty(ts[0]);
      assert ts == [ts[0]] + ts[1..];
    }
  }

  lemma EncodeNonempty(t: Tlv)
    ensures |Encode(t)| > |t.content|
  {
  }

  lemma {:induction false} EncodeAllParsed(data: Bytes)
    requires ParseAll(data).Ok?
    ensures AllWellFormed(ParseAll(data).value) && EncodeAll(ParseAll(data).value) == data
    decreases |data|
  {
    hide Encode, Parse, WellFormed;
    if |data| > 0 {
      EncodeParsed(data);
      var one := Parse(data).value;
      EncodeAllParsed(data[one.1..]);
      var ts, rest := ParseAll(data).value, ParseAll(data[one.1..]).value;
      assert ts[1..] == rest;
      assert data == data[..one.1] + data[one.1..];
    }
  }

  lemma {:induction false} EncodeAllConcat(a: seq<Tlv>, b: seq<Tlv>)
    ensures EncodeAll(a + b) == EncodeAll(a) + EncodeAll(b)
  {
    hide Encode;
    if |a| == 0 {
      assert a + b == b;
    } else {
      assert (a + b)[1..] == a[1..] + b;
      EncodeAllConcat(a[1..], b);
    }
  }

  // ----- what is removed -----

  /** shouldSkipExtension: the extension starts with the proof's identifier. */
  predicate ShouldSkip(ext: Tlv) {
    var oid := Parse(ext.content);
    oid.Ok? && oid.value.0 == Tlv(OBJECT_IDENTIFIER, MTC_OID)
  }

  /** An extension is removed exactly when its identifier is the proof's. */
  lemma SkipsExactlyTheProof(oid: Bytes, rest: Bytes)
    requires |oid| < MAX_LENGTH
    ensures ShouldSkip(Tlv(SEQUENCE, Encode(Tlv(OBJECT_IDENTIFIER, oid)) + rest)) <==> oid == MTC_OID
  {
    hide Encode, Parse;
    ParseEncoded(Tlv(OBJECT_IDENTIFIER, oid), rest);
  }

  function Kept(exts: seq<Tlv>): seq<Tlv> {
    if |exts| == 0 then []
    else (if ShouldSkip(exts[0]) then [] else [exts[0]]) + Kept(exts[1..])
  }

  function FilteredExtensions(content: Bytes): Result<Bytes> {
    var outer := Parse(content);
    if outer.Err? then Err(outer.error)
    else if outer.value.1 < |content| then Err("trailing data in extensions field")
    else
      var exts := ParseAll(outer.value.0.content);
      if exts.Err? then Err(exts.error) else Ok(Encode(Tlv(SEQUENCE, EncodeAll(Kept(exts.value)))))
  }

  /** Context-specific class, tag number 3. */
  predicate IsExtensionsField(t: Tlv) {
    t.id == 0xA3 || t.id == 0x83
  }

  /** Universal class, tag number 16; the decoder does not ask for the
      constructed bit. */
  predicate IsSequence(t: Tlv) {
    t.id == 0x30 || t.id == 0x10
  }

  function StrippedField(field: Tlv): Result<Bytes> {
    if !IsExtensionsField(field) then Ok(Encode(field))
    else
      var filtered := FilteredExtensions(field.content);
      if filtered.Err? then Err(filtered.error) else Ok(Encode(Tlv(EXTENSIONS, filtered.value)))
  }

  function StrippedFields(fields: seq<Tlv>): Result<Bytes> {
    if |fields| == 0 then Ok([])
    else
      var init := StrippedFields(fields[..|fields| - 1]);
      if init.Err? then init
      else
        var last := StrippedField(fields[|fields| - 1]);
        if last.Err? then last else Ok(init.value + last.value)
  }

  function Stripped(tbs: Bytes): Result<Bytes> {
    var outer := Parse(tbs);
    if outer.Err? then Err(outer.error)
    else if outer.value.1 < |tbs| then Err("trailing data after TBSCertificate")
    else if !IsSequence(outer.value.0) then Err("expected SEQUENCE")
    else
      var fields := ParseAll(outer.value.0.content);
      if fields.Err? then Err(fields.error)
      else
        var rebuilt := StrippedFields(fields.value);
        if rebuilt.Err? then rebuilt else Ok(Encode(Tlv(SEQUENCE, rebuilt.value)))
  }

  // ----- the loops -----

  method StripMTCExtension(tbs: Bytes) returns (r: Result<Bytes>)
    ensures r == Stripped(tbs)
  {
    hide Encode, Parse, ParseAll, StrippedField;
    var outer := Parse(tbs);
    if outer.Err? {
      return Err(outer.error);
    }
    if outer.value.1 < |tbs| {
      return Err("trailing data after TBSCertificate");
    }
    if !IsSequence(outer.value.0) {
      return Err("expected SEQUENCE");
    }
    var parsed := ParseFields(outer.value.0.content);
    if parsed.Err? {
      return Err(parsed.error);
    }
    var fields := parsed.value;
    var rebuilt: Bytes := [];
    for i := 0 to |fields|
      invariant StrippedFields(fields[..i]) == Ok(rebuilt)
    {
      assert fields[..i + 1][..i] == fields[..i];
      var field := StripField(fields[i]);
      if field.Err? {
        FirstErrorWins(fields, i);
        return field;
      }
      rebuilt := rebuilt + field.value;
    }
    assert fields[..|fields|] == fields;
    return Ok(Encode(Tlv(SEQUENCE, rebuilt)));
  }

  method StripField(field: Tlv) returns (r: Result<Bytes>)
    ensures r == StrippedField(field)
  {
    hide Encode;
    if IsExtensionsField(field) {
      var filtered := FilterExtensions(field.content);
      if filtered.Err? {
        return Err(filtered.error);
      }
      return Ok(Encode(Tlv(EXTENSIONS, filtered.value)));
    }
    return Ok(Encode(field));
  }

  lemma {:induction false} FirstErrorWins(fields: seq<Tlv>, i: nat)
    requires i < |fields| && StrippedFields(fields[..i]).Ok? && StrippedField(fields[i]).Err?
    ensures StrippedFields(fields) == StrippedField(fields[i])
    decreases |fields|
  {
    hide StrippedField;
    var n := |fields| - 1;
    if i == n {
    } else {
      assert fields[..n][..i] == fields[..i];
      FirstErrorWins(fields[..n], i);
    }
  }

  /** The loop that takes field after field off the remaining bytes. */
  method ParseFields(data: Bytes) returns (r: Result<seq<Tlv>>)
    ensures r == ParseAll(data)
  {
    hide Parse, ParseAll;
    var inner := data;
    var fields: seq<Tlv> := [];
    PrependedNone(ParseAll(data));
    while |inner| > 0
      invariant Prepended(fields, ParseAll(inner)) == ParseAll(data)
      decreases |inner|
    {
      ParseAllStep(fields, inner);
      var one := Parse(inner);
      if one.Err? {
        return Err(one.error);
      }
      fields := fields + [one.value.0];
      inner := inner[one.value.1..];
    }
    ParseAllNone(inner);
    assert fields + [] == fields;
    return Ok(fields);
  }

  lemma ParseAllNone(data: Bytes)
    requires |data| == 0
    ensures ParseAll(data) == Ok([])
  {
  }

  lemma ParseAllStep(ts: seq<Tlv>, data: Bytes)
    requires |data| > 0
    ensures var one := Parse(data);
            && (one.Err? ==> Prepended(ts, ParseAll(data)) == Err(one.error))
            && (one.Ok? ==>
                  && 0 < one.value.1 <= |data|
                  && Prepended(ts, ParseAll(data)) == Prepended(ts + [one.value.0], ParseAll(data[one.value.1..])))
  {
    hide Parse, Encode, WellFormed;
    var one := Parse(data);
    if one.Ok? {
      EncodeParsed(data);
      var rest := ParseAll(data[one.value.1..]);
      if rest.Ok? {
        assert ts + ([one.value.0] + rest.value) == (ts + [one.value.0]) + rest.value;
      }
    }
  }

  /** filterExtensions: parses and filters in one loop. */
  method FilterExtensions(content: Bytes) returns (r: Result<Bytes>)
    ensures r == FilteredExtensions(content)
  {
    hide Encode, Parse, ParseAll, ShouldSkip, EncodeAll, Kept;
    var outer := Parse(content);
    if outer.Err? {
      return Err(outer.error);
    }
    if outer.value.1 < |content| {
      return Err("trailing data in extensions field");
    }
    var inner := outer.value.0.content;
    ghost var all := inner;
    ghost var exts: seq<Tlv> := [];
    var filtered: Bytes := [];
    PrependedNone(ParseAll(inner));
    KeptNone();
    while |inner| > 0
      invariant Prepended(exts, ParseAll(inner)) == ParseAll(all)
      invariant filtered == EncodeAll(Kept(exts))
      decreases |inner|
    {
      ParseAllStep(exts, inner);
      var one := Parse(inner);
      if one.Err? {
        return Err(one.error);
      }
      inner := inner[one.value.1..];
      KeptSnoc(exts, one.value.0);
      exts := exts + [one.value.0];
      if ShouldSkip(one.value.0) {
        continue;
      }
      filtered := filtered + Encode(one.value.0);
    }
    ParseAllNone(inner);
    assert exts + [] == exts;
    return Ok(Encode(Tlv(SEQUENCE, filtered)));
  }

  lemma KeptNone()
    ensures EncodeAll(Kept([])) == []
  {
  }

  lemma {:induction false} KeptConcat(a: seq<Tlv>, b: seq<Tlv>)
    ensures Kept(a + b) == Kept(a) + Kept(b)
  {
    hide ShouldSkip;
    if |a| == 0 {
      assert a + b == b;
    } else {
      assert (a + b)[1..] == a[1..] + b;
      KeptConcat(a[1..], b);
    }
  }

  lemma KeptSnoc(exts: seq<Tlv>, ext: Tlv)
    ensures EncodeAll(Kept(exts + [ext])) ==
            EncodeAll(Kept(exts)) + (if ShouldSkip(ext) then [] else Encode(ext))
  {
    hide ShouldSkip, Encode;
    KeptConcat(exts, [ext]);
    assert [ext][1..] == [];
    EncodeAllConcat(Kept(exts), Kept([ext]));
    if !ShouldSkip(ext) {
      assert Kept([ext]) == [ext];
      assert EncodeAll([ext]) == Encode(ext);
    }
  }

  // ----- stripping undoes insertion -----

  function ExtensionsField(exts: seq<Tlv>): Tlv {
    Tlv(EXTENSIONS, Encode(Tlv(SEQUENCE, EncodeAll(exts))))
  }

  /** A TBSCertificate with these extensions between these other fields. */
  function Tbs(before: seq<Tlv>, exts: seq<Tlv>, after: seq<Tlv>): Bytes {
    Encode(Tlv(SEQUENCE, EncodeAll(before + [ExtensionsField(exts)] + after)))
  }

  /** Fields with any identifier but those of context-specific tag 3. */
  ghost predicate OtherFields(fields: seq<Tlv>) {
    AllWellFormed(fields) && forall i :: 0 <= i < |fields| ==> fields[i].id != 0xA3 && fields[i].id != 0x83
  }

  /** A field with either identifier of context-specific tag 3 is filtered, and
      written back as the constructed one. */
  lemma ExtensionsFieldFiltered(id: byte, content: Bytes)
    requires id == 0xA3 || id == 0x83
    ensures FilteredExtensions(content).Ok? ==>
              StrippedField(Tlv(id, content)) == Ok(Encode(Tlv(0xA3, FilteredExtensions(content).value)))
    ensures FilteredExtensions(content).Err? ==> StrippedField(Tlv(id, content)).Err?
  {
    hide FilteredExtensions, Encode;
  }

  /** Every other field is copied. */
  lemma OtherFieldCopied(field: Tlv)
    requires field.id != 0xA3 && field.id != 0x83
    ensures StrippedField(field) == Ok(Encode(field))
  {
    hide FilteredExtensions, Encode;
  }

  lemma {:induction false} OtherFieldsUntouched(fields: seq<Tlv>)
    requires forall i :: 0 <= i < |fields| ==> fields[i].id != 0xA3 && fields[i].id != 0x83
    ensures StrippedFields(fields) == Ok(EncodeAll(fields))
  {
    hide Encode;
    if |fields| > 0 {
      var init, last := fields[..|fields| - 1], fields[|fields| - 1];
      OtherFieldsUntouched(init);
      EncodeAllConcat(init, [last]);
      assert fields == init + [last];
      assert EncodeAll([last]) == Encode(last) by {
        assert [last][1..] == [];
      }
    }
  }

  lemma {:induction false} StrippedFieldsConcat(a: seq<Tlv>, b: seq<Tlv>)
    requires StrippedFields(a).Ok? && StrippedFields(b).Ok?
    ensures StrippedFields(a + b) == Ok(StrippedFields(a).value + StrippedFields(b).value)
    decreases |b|
  {
    hide StrippedField;
    if |b| == 0 {
      assert a + b == a;
      assert StrippedFields(a).value + [] == StrippedFields(a).value;
    } else {
      assert (a + b)[..|a + b| - 1] == a + b[..|b| - 1];
      StrippedFieldsConcat(a, b[..|b| - 1]);
      var x, y, z := StrippedFields(a).value, StrippedFields(b[..|b| - 1]).value, StrippedField(b[|b| - 1]).value;
      assert (x + y) + z == x + (y + z);
    }
  }

  lemma FilteredEncoding(exts: seq<Tlv>)
    requires AllWellFormed(exts) && |EncodeAll(exts)| < MAX_LENGTH
    ensures FilteredExtensions(Encode(Tlv(SEQUENCE, EncodeAll(exts)))) ==
            Ok(Encode(Tlv(SEQUENCE, EncodeAll(Kept(exts)))))
  {
    hide Encode, Parse, ParseAll, EncodeAll, Kept;
    var t := Tlv(SEQUENCE, EncodeAll(exts));
    ParseEncoded(t, []);
    assert Encode(t) + [] == Encode(t);
    ParseAllEncoded(exts);
  }

  lemma {:induction false} KeptAll(exts: seq<Tlv>)
    requires forall i :: 0 <= i < |exts| ==> !ShouldSkip(exts[i])
    ensures Kept(exts) == exts
  {
    hide ShouldSkip;
    if |exts| > 0 {
      KeptAll(exts[1..]);
      assert exts == [exts[0]] + exts[1..];
    }
  }

  lemma SingleFieldStripped(exts: seq<Tlv>)
    requires AllWellFormed(exts) && |EncodeAll(exts)| < MAX_LENGTH
    ensures StrippedFields([ExtensionsField(exts)]) == Ok(Encode(ExtensionsField(Kept(exts))))
  {
    hide Encode, EncodeAll, Kept, FilteredExtensions;
    FilteredEncoding(exts);
    var field := ExtensionsField(exts);
    assert [field][..0] == [];
    assert StrippedFields([]) == Ok([]);
    assert [] + Encode(ExtensionsField(Kept(exts))) == Encode(ExtensionsField(Kept(exts)));
  }

  /** The fields around the extensions are copied, the proof extensions go. */
  lemma StrippedTbs(before: seq<Tlv>, exts: seq<Tlv>, after: seq<Tlv>)
    requires OtherFields(before) && OtherFields(after) && AllWellFormed(exts)
    requires |Tbs(before, exts, after)| < MAX_LENGTH
    ensures Stripped(Tbs(before, exts, after)) == Ok(Tbs(before, Kept(exts), after))
  {
    hide Encode, EncodeAll, Kept, Parse, ParseAll, StrippedFields;
    var field := ExtensionsField(exts);
    var fields := before + [field] + after;
    var outer := Tlv(SEQUENCE, EncodeAll(fields));
    Sizes(before, exts, after);
    ParseEncoded(outer, []);
    assert Encode(outer) + [] == Encode(outer);
    ParseAllEncoded(fields);
    OtherFieldsUntouched(before);
    OtherFieldsUntouched(after);
    SingleFieldStripped(exts);
    StrippedFieldsConcat(before, [field]);
    StrippedFieldsConcat(before + [field], after);
    var now := ExtensionsField(Kept(exts));
    EncodeAllConcat(before, [now]);
    EncodeAllConcat(before + [now], after);
    EncodeAllOne(now);
  }

  lemma EncodeAllOne(t: Tlv)
    ensures EncodeAll([t]) == Encode(t)
  {
    hide Encode;
    assert [t][1..] == [];
  }

  lemma Sizes(before: seq<Tlv>, exts: seq<Tlv>, after: seq<Tlv>)
    requires |Tbs(before, exts, after)| < MAX_LENGTH
    ensures |EncodeAll(before + [ExtensionsField(exts)] + after)| < MAX_LENGTH
    ensures WellFormed(ExtensionsField(exts)) && |EncodeAll(exts)| < MAX_LENGTH
  {
    hide Encode, EncodeAll;
    var field := ExtensionsField(exts);
    EncodeNonempty(Tlv(SEQUENCE, EncodeAll(before + [field] + after)));
    EncodeAllConcat(before, [field]);
    EncodeAllConcat(before + [field], after);
    EncodeAllOne(field);
    EncodeNonempty(field);
    EncodeNonempty(Tlv(SEQUENCE, EncodeAll(exts)));
  }

  /** Stripping undoes insertion, byte for byte. */
  lemma StripUndoesInsertion(before: seq<Tlv>, e1: seq<Tlv>, proof: Tlv, e2: seq<Tlv>, after: seq<Tlv>)
    requires OtherFields(before) && OtherFields(after) && AllWellFormed(e1 + [proof] + e2)
    requires ShouldSkip(proof) && forall i :: 0 <= i < |e1 + e2| ==> !ShouldSkip((e1 + e2)[i])
    requires |Tbs(before, e1 + [proof] + e2, after)| < MAX_LENGTH
    ensures Stripped(Tbs(before, e1 + [proof] + e2, after)) == Ok(Tbs(before, e1 + e2, after))
  {
    hide Tbs, Stripped, ShouldSkip, WellFormed, OtherFields;
    StrippedTbs(before, e1 + [proof] + e2, after);
    KeptConcat(e1 + [proof], e2);
    KeptConcat(e1, [proof]);
    KeptConcat(e1, e2);
    assert [proof][1..] == [];
    assert Kept([proof]) == [];
    assert Kept(e1) + [] == Kept(e1);
    KeptAll(e1 + e2);
  }

  // ----- what is accepted -----

  lemma {:induction false} FieldsAcceptedExactly(fields: seq<Tlv>)
    ensures StrippedFields(fields).Ok? <==>
            forall i :: 0 <= i < |fields| && (fields[i].id == 0xA3 || fields[i].id == 0x83) ==>
              FilteredExtensions(fields[i].content).Ok?
  {
    hide FilteredExtensions, Encode;
    if |fields| > 0 {
      FieldsAcceptedExactly(fields[..|fields| - 1]);
    }
  }

  /** A value is accepted exactly when nothing follows it, it is a sequence of
      values, in either form of the identifier, and every field with context-specific
      tag 3 can be filtered. */
  lemma AcceptedExactly(t: Tlv, rest: Bytes)
    requires WellFormed(t)
    ensures Stripped(Encode(t) + rest).Ok? <==>
            && |rest| == 0 && (t.id == 0x30 || t.id == 0x10) && ParseAll(t.content).Ok?
            && var fields := ParseAll(t.content).value;
               forall i :: 0 <= i < |fields| && (fields[i].id == 0xA3 || fields[i].id == 0x83) ==>
                 FilteredExtensions(fields[i].content).Ok?
  {
    hide Encode, Parse, ParseAll, StrippedFields, FilteredExtensions;
    ParseEncoded(t, rest);
    if ParseAll(t.content).Ok? {
      FieldsAcceptedExactly(ParseAll(t.content).value);
    }
  }

  /** The extensions field is filtered exactly when its content is one value, of
      any type, that holds a sequence of values. */
  lemma FilteredExactly(t: Tlv, rest: Bytes)
    requires WellFormed(t)
    ensures FilteredExtensions(Encode(t) + rest).Ok? <==> |rest| == 0 && ParseAll(t.content).Ok?
  {
    hide Encode, Parse, ParseAll, EncodeAll, Kept;
    ParseEncoded(t, rest);
  }

  // ----- one certificate, byte by byte -----

  lemma ShortEncoding(id: byte, content: Bytes)
    requires |content| < 0x80
    ensures Encode(Tlv(id, content)) == [id, |content| as byte] + content
  {
  }

  const PROOF_BYTES: Bytes :=
    [0x30, 0x0E, 0x06, 0x0A, 0x2B, 0x06, 0x01, 0x04, 0x01, 0x86, 0x8D, 0x1F, 0x01, 0x01, 0x04, 0x00]

  const KEY_USAGE_BYTES: Bytes := [0x30, 0x07, 0x06, 0x03, 0x55, 0x1D, 0x0F, 0x04, 0x00]

  /** An extension with this identifier and an empty value. */
  function EmptyExtension(oid: Bytes): Tlv {
    Tlv(SEQUENCE, Encode(Tlv(OBJECT_IDENTIFIER, oid)) + [0x04, 0x00])
  }

  lemma ExtensionBytes(oid: Bytes)
    requires |oid| < 100
    ensures Encode(EmptyExtension(oid)) == [0x30, (|oid| + 4) as byte, 0x06, |oid| as byte] + oid + [0x04, 0x00]
    ensures ShouldSkip(EmptyExtension(oid)) <==> oid == MTC_OID
    ensures WellFormed(EmptyExtension(oid))
  {
    hide Encode, ShouldSkip;
    ShortEncoding(OBJECT_IDENTIFIER, oid);
    SkipsExactlyTheProof(oid, [0x04, 0x00]);
    ShortEncoding(SEQUENCE, EmptyExtension(oid).content);
  }

  lemma BothExtensions() returns (proof: Tlv, usage: Tlv)
    ensures Encode(proof) == PROOF_BYTES && ShouldSkip(proof) && WellFormed(proof)
    ensures Encode(usage) == KEY_USAGE_BYTES && !ShouldSkip(usage) && WellFormed(usage)
  {
    hide Encode, ShouldSkip, WellFormed;
    var oid: Bytes := [0x2B, 0x06, 0x01, 0x04, 0x01, 0x86, 0x8D, 0x1F, 0x01, 0x01];
    proof, usage := EmptyExtension(oid), EmptyExtension([0x55, 0x1D, 0x0F]);
    ExtensionBytes(oid);
    ExtensionBytes([0x55, 0x1D, 0x0F]);
  }

  /** A version field, the proof extension and a key usage extension: the version
      and the key usage stay, and both lengths around them shrink. */
  lemma StrippedBytes()
    ensures Stripped([0x30, 0x22] + [0xA0, 0x03, 0x02, 0x01, 0x02] + [0xA3, 0x1B, 0x30, 0x19] +
                     ([0x30, 0x0E, 0x06, 0x0A, 0x2B, 0x06, 0x01, 0x04, 0x01, 0x86, 0x8D, 0x1F, 0x01, 0x01, 0x04, 0x00] +
                      [0x30, 0x07, 0x06, 0x03, 0x55, 0x1D, 0x0F, 0x04, 0x00])) ==
            Ok([0x30, 0x12] + [0xA0, 0x03, 0x02, 0x01, 0x02] + [0xA3, 0x0B, 0x30, 0x09] +
               [0x30, 0x07, 0x06, 0x03, 0x55, 0x1D, 0x0F, 0x04, 0x00])
  {
    hide Encode, Parse, Stripped, Kept, ShouldSkip, Tbs;
    var proof, usage := BothExtensions();
    var version := Tlv(0xA0, [0x02, 0x01, 0x02]);
    ShortEncoding(0xA0, version.content);
    assert Encode(version) == [0xA0, 0x03, 0x02, 0x01, 0x02];
    TwoEncoded(proof, usage);
    EncodeAllOne(usage);
    TbsBytes(version, [proof, usage], Encode(proof) + Encode(usage));
    TbsBytes(version, [usage], Encode(usage));
    assert [] + [proof] + [usage] == [proof, usage] && [] + [usage] == [usage];
    StripUndoesInsertion([version], [], proof, [usage], []);
  }

  lemma TwoEncoded(a: Tlv, b: Tlv)
    ensures EncodeAll([a, b]) == Encode(a) + Encode(b)
  {
    hide Encode;
    EncodeAllConcat([a], [b]);
    EncodeAllOne(a);
    EncodeAllOne(b);
    assert [a] + [b] == [a, b];
  }

  /** A small certificate with one field before the extensions. */
  lemma TbsBytes(field: Tlv, exts: seq<Tlv>, e: Bytes)
    requires e == EncodeAll(exts) && |e| + 2 < 0x80 && |Encode(field)| + |e| + 4 < 0x80
    ensures var f := Encode(field);
            Tbs([field], exts, []) ==
            [0x30, (|f| + |e| + 4) as byte] + f + [0xA3, (|e| + 2) as byte, 0x30, |e| as byte] + e
  {
    hide Encode, EncodeAll;
    var extensions, f := ExtensionsField(exts), Encode(field);
    ShortEncoding(SEQUENCE, e);
    ShortEncoding(EXTENSIONS, Encode(Tlv(SEQUENCE, e)));
    assert Encode(extensions) == [0xA3, (|e| + 2) as byte, 0x30, |e| as byte] + e;
    TwoEncoded(field, extensions);
    assert [field] + [extensions] + [] == [field, extensions];
    ShortEncoding(SEQUENCE, f + Encode(extensions));
  }

  // ----- idempotence on everything that is accepted -----

  lemma {:induction false} KeptTwice(exts: seq<Tlv>)
    ensures Kept(Kept(exts)) == Kept(exts)
    ensures AllWellFormed(exts) ==> AllWellFormed(Kept(exts))
    ensures |EncodeAll(Kept(exts))| <= |EncodeAll(exts)|
  {
    hide ShouldSkip, Encode, WellFormed;
    if |exts| > 0 {
      KeptTwice(exts[1..]);
      var rest := Kept(exts[1..]);
      if !ShouldSkip(exts[0]) {
        assert Kept(exts) == [exts[0]] + rest;
        assert ([exts[0]] + rest)[1..] == rest;
        assert AllWellFormed(exts) ==> AllWellFormed(exts[1..]);
      } else {
        assert Kept(exts) == rest;
        assert AllWellFormed(exts) ==> AllWellFormed(exts[1..]);
      }
    }
  }

  lemma EncodeMonotone(a: Tlv, b: Tlv)
    requires |a.content| <= |b.content|
    ensures |Encode(a)| <= |Encode(b)|
  {
    hide EncodeLength;
    EncodeLengthMonotone(|a.content|, |b.content|);
  }

  /** A filtered extensions field is accepted again, unchanged and no longer. */
  lemma FilteredTwice(content: Bytes)
    requires |content| < MAX_LENGTH && FilteredExtensions(content).Ok?
    ensures var filtered := FilteredExtensions(content).value;
            |filtered| <= |content| && FilteredExtensions(filtered) == Ok(filtered)
  {
    hide Encode, Parse, ParseAll, EncodeAll, Kept, WellFormed;
    EncodeParsed(content);
    var outer := Parse(content).value.0;
    var exts := ParseAll(outer.content).value;
    EncodeAllParsed(outer.content);
    KeptTwice(exts);
    assert content == content[..|content|];
    EncodeNonempty(outer);
    EncodeMonotone(Tlv(SEQUENCE, EncodeAll(Kept(exts))), outer);
    FilteredEncoding(Kept(exts));
  }

  /** The field that a stripped field encodes. */
  ghost function FieldAfter(field: Tlv): Tlv
    requires StrippedField(field).Ok?
  {
    if IsExtensionsField(field) then Tlv(EXTENSIONS, FilteredExtensions(field.content).value) else field
  }

  lemma FieldStrippedTwice(field: Tlv)
    requires WellFormed(field) && StrippedField(field).Ok?
    ensures var now := FieldAfter(field);
            && WellFormed(now) && StrippedField(field).value == Encode(now) && |Encode(now)| <= |Encode(field)|
            && StrippedField(now) == Ok(Encode(now))
  {
    hide Encode, FilteredExtensions;
    if IsExtensionsField(field) {
      FilteredTwice(field.content);
      EncodeMonotone(FieldAfter(field), field);
    }
  }

  /** Stripped fields parse back to fields that strip to themselves. */
  lemma {:induction false} FieldsStrippedTwice(fields: seq<Tlv>) returns (now: seq<Tlv>)
    requires AllWellFormed(fields) && StrippedFields(fields).Ok?
    ensures AllWellFormed(now) && StrippedFields(fields).value == EncodeAll(now)
    ensures |EncodeAll(now)| <= |EncodeAll(fields)| && StrippedFields(now) == Ok(EncodeAll(now))
  {
    hide Encode, StrippedField, WellFormed;
    if |fields| == 0 {
      now := [];
    } else {
      var init, last := fields[..|fields| - 1], fields[|fields| - 1];
      var before := FieldsStrippedTwice(init);
      FieldStrippedTwice(last);
      var field := FieldAfter(last);
      now := before + [field];
      assert now[..|now| - 1] == before;
      EncodeAllConcat(before, [field]);
      EncodeAllOne(field);
      assert fields == init + [last];
      EncodeAllConcat(init, [last]);
      EncodeAllOne(last);
    }
  }

  /** Idempotence: whatever StripMTCExtension returns, it returns again. */
  lemma StripTwice(tbs: Bytes)
    requires Stripped(tbs).Ok?
    ensures Stripped(Stripped(tbs).value) == Stripped(tbs)
  {
    hide Encode, Parse, ParseAll, EncodeAll, StrippedFields;
    EncodeParsed(tbs);
    var outer := Parse(tbs).value.0;
    EncodeAllParsed(outer.content);
    var fields := ParseAll(outer.content).value;
    var now := FieldsStrippedTwice(fields);
    var t := Tlv(SEQUENCE, EncodeAll(now));
    ParseEncoded(t, []);
    assert Encode(t) + [] == Encode(t);
    ParseAllEncoded(now);
  }
}
