/** Records, their signatures, and the two nested byte formats (src/crypto/record.rs). */
module Record {
  import opened Wrappers
  import opened Bytes
  import opened Library

  datatype Record = Record(
    topic: Bytes32,
    unixMinute: u64,
    pubKey: Bytes32,
    content: bytes,
    signature: Bytes64)

  datatype EncryptedRecord = EncryptedRecord(encryptedRecord: bytes, encryptedDecryptionKey: bytes)

  /** The randomness one encryption draws: the one-time key and one number per HPKE call. */
  datatype Entropy = Entropy(oneTimeKey: Bytes32, forRecord: nat, forKey: nat)

  const MAX_SIZE := 2048
  const ENCRYPTED_KEY_LENGTH := 88
  const MIN_RECORD_LENGTH := 32 + 8 + 32 + 64

  // ---------- Record ----------

  /** The bytes a signature covers. */
  function SignatureData(topic: Bytes32, unixMinute: u64, pubKey: Bytes32, content: bytes): bytes {
    topic + ToLe(unixMinute, 8) + pubKey + content
  }

  function RecordBytes(r: Record): bytes {
    SignatureData(r.topic, r.unixMinute, r.pubKey, r.content) + r.signature
  }

  function Sign(lib: Library, topic: Bytes32, unixMinute: u64, content: bytes, signingKey: Bytes32): Record {
    var pubKey := lib.verifyingKey(signingKey);
    Record(topic, unixMinute, pubKey, content,
           lib.sign(signingKey, SignatureData(topic, unixMinute, pubKey, content)))
  }

  method SignRecord(lib: Library, topic: Bytes32, unixMinute: u64, content: bytes, signingKey: Bytes32)
    returns (r: Record)
    ensures r == Sign(lib, topic, unixMinute, content, signingKey)
  {
    var signatureData: bytes := [];
    signatureData := signatureData + topic;
    signatureData := signatureData + ToLe(unixMinute, 8);
    signatureData := signatureData + lib.verifyingKey(signingKey);
    signatureData := signatureData + content;
    assert signatureData == SignatureData(topic, unixMinute, lib.verifyingKey(signingKey), content);
    var signature := lib.sign(signingKey, signatureData);
    r := Record(topic, unixMinute, lib.verifyingKey(signingKey), content, signature);
  }

  method SerializeRecord(r: Record) returns (buf: bytes)
    ensures buf == RecordBytes(r)
  {
    buf := [];
    buf := buf + r.topic;
    buf := buf + ToLe(r.unixMinute, 8);
    buf := buf + r.pubKey;
    buf := buf + r.content;
    buf := buf + r.signature;
  }

  function ParseRecord(buf: bytes): Result<Record> {
    if |buf| < MIN_RECORD_LENGTH then Err(BufferTooShort)
    else
      var (topic, buf1) := (buf[..32], buf[32..]);
      var (unixMinute, buf2) := (buf1[..8], buf1[8..]);
      var (pubKey, buf3) := (buf2[..32], buf2[32..]);
      var (content, buf4) := (buf3[..|buf3| - 64], buf3[|buf3| - 64..]);
      var (signature, buf5) := (buf4[..64], buf4[64..]);
      if buf5 != [] then Err(BufferNotEmpty)
      else
        U64RoundTrips(0, unixMinute);
        Ok(Record(topic, FromLe(unixMinute), pubKey, content, signature))
  }

  function Verify(lib: Library, r: Record, actualTopic: Bytes32, actualUnixMinute: u64): Result<()> {
    if r.topic != actualTopic then Err(TopicMismatch)
    else if r.unixMinute != actualUnixMinute then Err(MinuteMismatch)
    else
      var recordBytes := RecordBytes(r);
      var signatureData := recordBytes[..|recordBytes| - 64];
      if !lib.isVerifyingKey(r.pubKey) then Err(MalformedKey)
      else if !lib.verifyStrict(r.pubKey, signatureData, r.signature) then Err(BadSignature)
      else Ok(())
  }

  /** What verification asks for, error by error: the slot's topic and minute, a well-formed key, and a
      signature under that key over topic, minute, key and content. */
  lemma VerifyChecksAll(lib: Library, r: Record, actualTopic: Bytes32, actualUnixMinute: u64)
    ensures Verify(lib, r, actualTopic, actualUnixMinute).Ok? <==>
      && r.topic == actualTopic && r.unixMinute == actualUnixMinute && lib.isVerifyingKey(r.pubKey)
      && lib.verifyStrict(r.pubKey, SignatureData(r.topic, r.unixMinute, r.pubKey, r.content), r.signature)
    ensures Verify(lib, r, actualTopic, actualUnixMinute) == Err(BadSignature) <==>
      && r.topic == actualTopic && r.unixMinute == actualUnixMinute && lib.isVerifyingKey(r.pubKey)
      && !lib.verifyStrict(r.pubKey, SignatureData(r.topic, r.unixMinute, r.pubKey, r.content), r.signature)
  {
    VerifiedBytesAreSignedBytes(r);
  }

  /** Serialising loses nothing. */
  lemma ParseAfterSerialize(r: Record)
    ensures ParseRecord(RecordBytes(r)) == Ok(r)
  {
    U64RoundTrips(r.unixMinute, []);
    var afterKey := r.content + r.signature;
    var afterMinute := r.pubKey + afterKey;
    var afterTopic := ToLe(r.unixMinute, 8) + afterMinute;
    assert RecordBytes(r) == r.topic + afterTopic;
    Cut(r.topic, afterTopic);
    Cut(ToLe(r.unixMinute, 8), afterMinute);
    Cut(r.pubKey, afterKey);
    Cut(r.content, r.signature);
    assert r.signature[..64] == r.signature && r.signature[64..] == [];
  }

  /** The parts `ParseRecord` cuts a buffer into, put together again. */
  lemma PartsOf(buf: bytes)
    requires |buf| >= MIN_RECORD_LENGTH
    ensures var buf1 := buf[32..];
      var buf2 := buf1[8..];
      var buf3 := buf2[32..];
      buf == buf[..32] + (buf1[..8] + (buf2[..32] + (buf3[..|buf3| - 64] + buf3[|buf3| - 64..])))
  {
    var buf1 := buf[32..];
    var buf2 := buf1[8..];
    var buf3 := buf2[32..];
    Join(buf3, |buf3| - 64);
    Join(buf2, 32);
    Join(buf1, 8);
    Join(buf, 32);
  }

  /** Appending one part after the other is the same as nesting them. */
  lemma FiveParts(a: bytes, b: bytes, c: bytes, d: bytes, e: bytes)
    ensures a + b + c + d + e == a + (b + (c + (d + e)))
  {
  }

  /** Parsing accepts exactly the byte strings of at least 136 bytes, and loses nothing either:
      the two functions are inverse bijections. */
  lemma SerializeAfterParse(buf: bytes)
    ensures ParseRecord(buf).Ok? <==> |buf| >= 136
    ensures ParseRecord(buf).Ok? ==> RecordBytes(ParseRecord(buf).value) == buf
    ensures ParseRecord(buf).Err? ==> ParseRecord(buf).error == BufferTooShort
  {
    if |buf| >= MIN_RECORD_LENGTH {
      var buf1 := buf[32..];
      var buf2 := buf1[8..];
      var buf3 := buf2[32..];
      var content, signature := buf3[..|buf3| - 64], buf3[|buf3| - 64..];
      U64RoundTrips(0, buf1[..8]);
      assert signature[..64] == signature && signature[64..] == [];
      assert ParseRecord(buf) == Ok(Record(buf[..32], FromLe(buf1[..8]), buf2[..32], content, signature));
      PartsOf(buf);
      FiveParts(buf[..32], buf1[..8], buf2[..32], content, signature);
    }
  }

  /** The signed encoding determines topic, minute, key and content. */
  lemma SignatureDataInjective(t: Bytes32, m: u64, k: Bytes32, c: bytes, t': Bytes32, m': u64, k': Bytes32, c': bytes)
    requires SignatureData(t, m, k, c) == SignatureData(t', m', k', c')
    ensures t == t' && m == m' && k == k' && c == c'
  {
    U64RoundTrips(m, []);
    U64RoundTrips(m', []);
    assert SignatureData(t, m, k, c) == t + (ToLe(m, 8) + (k + c));
    assert SignatureData(t', m', k', c') == t' + (ToLe(m', 8) + (k' + c'));
    Cut(t, ToLe(m, 8) + (k + c));
    Cut(t', ToLe(m', 8) + (k' + c'));
    Cut(ToLe(m, 8), k + c);
    Cut(ToLe(m', 8), k' + c');
    Cut(k, c);
    Cut(k', c');
  }

  /** What `Verify` checks a signature against is what `Sign` signed. */
  lemma VerifiedBytesAreSignedBytes(r: Record)
    ensures RecordBytes(r)[..|RecordBytes(r)| - 64] == SignatureData(r.topic, r.unixMinute, r.pubKey, r.content)
  {
  }

  /** A signed record that went over the wire verifies for its own topic and minute and for no other. */
  lemma SignedRecordVerifiesExactly(
    lib: Library, topic: Bytes32, unixMinute: u64, content: bytes, signingKey: Bytes32,
    actualTopic: Bytes32, actualUnixMinute: u64)
    requires lib.SignatureLaw() && lib.KeyLaw()
    ensures var sent := ParseRecord(RecordBytes(Sign(lib, topic, unixMinute, content, signingKey)));
      && sent.Ok?
      && (Verify(lib, sent.value, actualTopic, actualUnixMinute).Ok?
          <==> actualTopic == topic && actualUnixMinute == unixMinute)
  {
    var r := Sign(lib, topic, unixMinute, content, signingKey);
    ParseAfterSerialize(r);
    VerifiedBytesAreSignedBytes(r);
  }

  // ---------- EncryptedRecord ----------

  /** The cast `as u32` of a length. */
  function AsU32(n: nat): nat { n % U32_LIMIT }

  function EncryptedBytes(e: EncryptedRecord): Result<bytes> {
    var buf := ToLe(AsU32(|e.encryptedRecord|), 4) + e.encryptedRecord + e.encryptedDecryptionKey;
    if |buf| > MAX_SIZE then Err(SizeAboveMaximum) else Ok(buf)
  }

  method SerializeEncrypted(e: EncryptedRecord) returns (r: Result<bytes>)
    ensures r == EncryptedBytes(e)
  {
    var buf: bytes := [];
    var encryptedRecordLen := AsU32(|e.encryptedRecord|);
    buf := buf + ToLe(encryptedRecordLen, 4);
    buf := buf + e.encryptedRecord;
    buf := buf + e.encryptedDecryptionKey;
    assert buf == ToLe(encryptedRecordLen, 4) + e.encryptedRecord + e.encryptedDecryptionKey;
    if |buf| > MAX_SIZE {
      return Err(SizeAboveMaximum);
    }
    return Ok(buf);
  }

  /** Accepts exactly a length prefix of at most 2048 followed by that many bytes and an 88-byte key,
      so up to 2140 bytes. */
  function ParseEncrypted(buf: bytes): (r: Result<EncryptedRecord>)
    ensures r.Ok? <==>
      |buf| >= 4 && FromLe(buf[..4]) <= MAX_SIZE && |buf| == 4 + FromLe(buf[..4]) + ENCRYPTED_KEY_LENGTH
    ensures r.Ok? ==> 92 <= |buf| <= 2140
    ensures r.Ok? ==> |r.value.encryptedDecryptionKey| == ENCRYPTED_KEY_LENGTH
  {
    if |buf| < 4 then Err(BufferTooShort)
    else
      var encryptedRecordLen := FromLe(buf[..4]);
      var rest := buf[4..];
      var expectedPayloadLen := encryptedRecordLen + ENCRYPTED_KEY_LENGTH;
      if expectedPayloadLen >= U32_LIMIT then Err(LengthOverflow)
      else if encryptedRecordLen > MAX_SIZE then Err(LengthAboveMaximum)
      else if |rest| != expectedPayloadLen then Err(LengthMismatch)
      else Ok(EncryptedRecord(rest[..encryptedRecordLen], rest[encryptedRecordLen..]))
  }

  /** What follows a length prefix is cut at that length, if an 88-byte key remains. */
  lemma ParseAfterPrefix(n: nat, rest: bytes)
    requires n <= MAX_SIZE
    ensures ParseEncrypted(ToLe(n, 4) + rest)
         == if |rest| == n + ENCRYPTED_KEY_LENGTH then Ok(EncryptedRecord(rest[..n], rest[n..]))
            else Err(LengthMismatch)
  {
    U32RoundTrips(n, []);
    Cut(ToLe(n, 4), rest);
  }

  /** Whatever `EncryptedBytes` accepts is written with its true length, and is read back exactly
      when its key part is 88 bytes long; otherwise reading it reports a length mismatch. */
  lemma ParseAfterEncryptedBytes(e: EncryptedRecord)
    requires EncryptedBytes(e).Ok?
    ensures AsU32(|e.encryptedRecord|) == |e.encryptedRecord|
    ensures var back := ParseEncrypted(EncryptedBytes(e).value);
      if |e.encryptedDecryptionKey| == ENCRYPTED_KEY_LENGTH then back == Ok(e) else back == Err(LengthMismatch)
  {
    var buf := EncryptedBytes(e).value;
    var n := |e.encryptedRecord|;
    assert n <= |buf| <= MAX_SIZE;
    var rest := e.encryptedRecord + e.encryptedDecryptionKey;
    assert buf == ToLe(n, 4) + rest;
    ParseAfterPrefix(n, rest);
    Cut(e.encryptedRecord, e.encryptedDecryptionKey);
  }

  /** Writing back what was accepted gives the same bytes exactly when there are at most 2048 of them. */
  lemma EncryptedBytesAfterParse(buf: bytes)
    requires ParseEncrypted(buf).Ok?
    ensures EncryptedBytes(ParseEncrypted(buf).value) == if |buf| <= MAX_SIZE then Ok(buf) else Err(SizeAboveMaximum)
  {
    var n := FromLe(buf[..4]);
    var rest := buf[4..];
    U32RoundTrips(0, buf[..4]);
    Join(buf, 4);
    Join(rest, n);
    assert buf == buf[..4] + rest[..n] + rest[n..];
  }

  /** The longest accepted input really is 2140 bytes, and it cannot be written back. */
  lemma LongestAcceptedInput() returns (buf: bytes)
    ensures |buf| == 2140
    ensures ParseEncrypted(buf).Ok?
    ensures EncryptedBytes(ParseEncrypted(buf).value) == Err(SizeAboveMaximum)
  {
    buf := ToLe(MAX_SIZE, 4) + ZeroBytes(MAX_SIZE + ENCRYPTED_KEY_LENGTH);
    U32RoundTrips(MAX_SIZE, []);
    Cut(ToLe(MAX_SIZE, 4), ZeroBytes(MAX_SIZE + ENCRYPTED_KEY_LENGTH));
    EncryptedBytesAfterParse(buf);
  }

  // ---------- Encryption ----------

  function Encrypt(lib: Library, r: Record, encryptionKey: Bytes32, entropy: Entropy): EncryptedRecord {
    var dataEnc := lib.seal(lib.verifyingKey(entropy.oneTimeKey), entropy.forRecord, RecordBytes(r));
    var keyEnc := lib.seal(lib.verifyingKey(encryptionKey), entropy.forKey, entropy.oneTimeKey);
    EncryptedRecord(dataEnc, keyEnc)
  }

  method EncryptRecord(lib: Library, r: Record, encryptionKey: Bytes32, entropy: Entropy)
    returns (e: EncryptedRecord)
    ensures e == Encrypt(lib, r, encryptionKey, entropy)
  {
    var record := SerializeRecord(r);
    var dataEnc := lib.seal(lib.verifyingKey(entropy.oneTimeKey), entropy.forRecord, record);
    var keyEnc := lib.seal(lib.verifyingKey(encryptionKey), entropy.forKey, entropy.oneTimeKey);
    e := EncryptedRecord(dataEnc, keyEnc);
  }

  function Decrypt(lib: Library, e: EncryptedRecord, decryptionKey: Bytes32): Result<Record> {
    match lib.open(decryptionKey, e.encryptedDecryptionKey)
    case None => Err(DecryptionFailed)
    case Some(oneTimeKey) =>
      if |oneTimeKey| != 32 then Err(KeyLength)
      else
        match lib.open(oneTimeKey, e.encryptedRecord)
        case None => Err(DecryptionFailed)
        case Some(decrypted) => ParseRecord(decrypted)
  }

  /** Exactly what decrypts, and to what: the key part opens under the given key to a one-time key, under
      which the record part opens to the encoding of the record. */
  lemma DecryptsExactly(lib: Library, e: EncryptedRecord, decryptionKey: Bytes32, r: Record)
    ensures Decrypt(lib, e, decryptionKey) == Ok(r) <==>
      var oneTimeKey := lib.open(decryptionKey, e.encryptedDecryptionKey);
      && oneTimeKey.Some? && |oneTimeKey.value| == 32
      && lib.open(oneTimeKey.value, e.encryptedRecord) == Some(RecordBytes(r))
  {
    ParseAfterSerialize(r);
    var oneTimeKey := lib.open(decryptionKey, e.encryptedDecryptionKey);
    if oneTimeKey.Some? && |oneTimeKey.value| == 32 && lib.open(oneTimeKey.value, e.encryptedRecord).Some? {
      SerializeAfterParse(lib.open(oneTimeKey.value, e.encryptedRecord).value);
    }
  }

  lemma DecryptAfterEncrypt(lib: Library, r: Record, encryptionKey: Bytes32, entropy: Entropy)
    requires lib.SealLaw()
    ensures Decrypt(lib, Encrypt(lib, r, encryptionKey, entropy), encryptionKey) == Ok(r)
  {
    ParseAfterSerialize(r);
  }

  /** The bytes a record becomes in the DHT. */
  function WireBytes(lib: Library, r: Record, encryptionKey: Bytes32, entropy: Entropy): Result<bytes> {
    EncryptedBytes(Encrypt(lib, r, encryptionKey, entropy))
  }

  /** Reading DHT bytes: parse, decrypt, parse. */
  function ReadWire(lib: Library, buf: bytes, decryptionKey: Bytes32): Result<Record> {
    match ParseEncrypted(buf)
    case Err(e) => Err(e)
    case Ok(e) => Decrypt(lib, e, decryptionKey)
  }

  /** Both layers together: a record fits exactly when its content has at most 1764 bytes, then
      takes 284 bytes more than the content, and reading it back under the same key returns it. */
  lemma WireRoundTrip(lib: Library, r: Record, encryptionKey: Bytes32, entropy: Entropy)
    requires lib.SealLaw()
    ensures WireBytes(lib, r, encryptionKey, entropy).Ok? <==> |r.content| <= 1764
    ensures |r.content| <= 1764 ==>
      var wire := WireBytes(lib, r, encryptionKey, entropy).value;
      |wire| == |r.content| + 284 && ReadWire(lib, wire, encryptionKey) == Ok(r)
  {
    var e := Encrypt(lib, r, encryptionKey, entropy);
    assert |RecordBytes(r)| == |r.content| + 136;
    assert |e.encryptedRecord| == |r.content| + 192;
    assert |e.encryptedDecryptionKey| == ENCRYPTED_KEY_LENGTH;
    if |r.content| <= 1764 {
      ParseAfterEncryptedBytes(e);
      DecryptAfterEncrypt(lib, r, encryptionKey, entropy);
    }
  }

  /** A gossip record always fits: it takes 604 bytes. */
  lemma GossipRecordsFit(
    lib: Library, topic: Bytes32, unixMinute: u64, g: GossipRecordContent, signingKey: Bytes32,
    encryptionKey: Bytes32, entropy: Entropy)
    requires lib.SealLaw() && lib.ContentLaw()
    ensures var r := Sign(lib, topic, unixMinute, lib.encodeContent(g), signingKey);
      && WireBytes(lib, r, encryptionKey, entropy).Ok?
      && |WireBytes(lib, r, encryptionKey, entropy).value| == 604
  {
    WireRoundTrip(lib, Sign(lib, topic, unixMinute, lib.encodeContent(g), signingKey), encryptionKey, entropy);
  }
}
