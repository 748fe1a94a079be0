/** The envelope the encryption layer puts around its AES-256-GCM output
    (src/crypto/encryption.rs): the little-endian u32 length of what follows, the 12-byte
    nonce, then the ciphertext.

    The cipher itself is not modelled. Sealing and opening are parameters of type `Seal`
    and `Open`, and the random nonce is a parameter of `Encrypt`; only the framing around
    them is verified. */
module Envelope {
  import opened Errors
  import opened Bytes

  /** An AES-256 key: 32 bytes. */
  type Key = k: seq<byte> | |k| == 32 witness seq(32, _ => 0)

  /** A GCM nonce: 12 bytes. */
  type Nonce = n: seq<byte> | |n| == 12 witness seq(12, _ => 0)

  /** `cipher.encrypt(nonce, plaintext)`: the ciphertext with its tag, or None when the
      cipher reports an error. */
  type Seal = (Key, Nonce, seq<byte>) -> Option<seq<byte>>

  /** `cipher.decrypt(nonce, ciphertext)`: the plaintext, or None when authentication fails. */
  type Open = (Key, Nonce, seq<byte>) -> Option<seq<byte>>

  /** The number of bytes in front of the ciphertext: four for the length, twelve for the
      nonce. */
  const HEADER_SIZE: nat := 16

  datatype CryptoManager = CryptoManager(aesKey: Key)

  /** `CryptoManager::with_key`. */
  function WithKey(key: Key): (m: CryptoManager)
    ensures GetKey(m) == key
  {
    CryptoManager(key)
  }

  /** `CryptoManager::get_key`: a copy of the key. */
  function GetKey(m: CryptoManager): Key
  {
    m.aesKey
  }

  /** A manager is given back by its own key. */
  lemma WithGetKey(m: CryptoManager)
    ensures WithKey(GetKey(m)) == m
  {
  }

  /** The envelope of a ciphertext: `(12 + |ct|) as u32` little-endian, the nonce, the
      ciphertext. */
  function Frame(nonce: Nonce, ct: seq<byte>): (r: seq<byte>)
    ensures |r| == HEADER_SIZE + |ct|
    ensures r[4 .. HEADER_SIZE] == nonce && r[HEADER_SIZE..] == ct
    ensures DecodeLE32(r[..4]) == U32(|r| - 4)
  {
    LE32(U32(12 + |ct|)) + nonce + ct
  }

  /** What `encrypt` returns: an EncryptionError when the cipher fails, otherwise the
      envelope of the ciphertext. */
  function Encrypted(m: CryptoManager, seal: Seal, nonce: Nonce, plaintext: seq<byte>): (r: Result<seq<byte>>)
    ensures r.Err? <==> seal(m.aesKey, nonce, plaintext).None?
    ensures r.Err? ==> r.error == EncryptionError
    ensures r.Ok? ==> r.value == Frame(nonce, seal(m.aesKey, nonce, plaintext).value)
  {
    match seal(m.aesKey, nonce, plaintext)
    case None => Err(EncryptionError)
    case Some(ct) => Ok(Frame(nonce, ct))
  }

  /** `encrypt`: seal under the given nonce, put the nonce in front of the ciphertext, then
      the length of the two in front of that. */
  method Encrypt(m: CryptoManager, seal: Seal, nonceBytes: Nonce, plaintext: seq<byte>)
    returns (r: Result<seq<byte>>)
    ensures r == Encrypted(m, seal, nonceBytes, plaintext)
  {
    var encrypted := seal(m.aesKey, nonceBytes, plaintext);
    if encrypted.None? {
      return Err(EncryptionError);
    }
    var result := nonceBytes;
    result := result + encrypted.value;
    var len := U32(|result|);
    var lenBytes := LE32(len);
    var finalResult := lenBytes;
    finalResult := finalResult + result;
    assert finalResult == Frame(nonceBytes, encrypted.value);
    r := Ok(finalResult);
  }

  /** The checks `decrypt` makes before it calls the cipher: at least 17 bytes, and a
      length prefix equal to the number of bytes after it. On success, the nonce and the
      ciphertext the cipher is given. */
  function ParseFrame(bytes: seq<byte>): (r: Option<(Nonce, seq<byte>)>)
    ensures r.Some? <==> |bytes| >= HEADER_SIZE + 1 && DecodeLE32(bytes[..4]) == |bytes| - 4
    ensures r.Some? ==> r.value.0 == bytes[4 .. HEADER_SIZE] && r.value.1 == bytes[HEADER_SIZE..]
  {
    if |bytes| < HEADER_SIZE + 1 then None
    else if DecodeLE32(bytes[..4]) != |bytes| - 4 then None
    else
      var nonce: Nonce := bytes[4 .. HEADER_SIZE];
      Some((nonce, bytes[HEADER_SIZE..]))
  }

  /** `decrypt`: a DecryptionError when the frame is rejected or the cipher fails, otherwise
      the plaintext. */
  function Decrypted(m: CryptoManager, open: Open, bytes: seq<byte>): (r: Result<seq<byte>>)
    ensures r.Err? ==> r.error == DecryptionError
    ensures |bytes| < HEADER_SIZE + 1 ==> r.Err?
    ensures |bytes| >= HEADER_SIZE + 1 && DecodeLE32(bytes[..4]) != |bytes| - 4 ==> r.Err?
    ensures ParseFrame(bytes).Some? ==>
      (r.Ok? <==> open(m.aesKey, bytes[4 .. HEADER_SIZE], bytes[HEADER_SIZE..]).Some?)
    ensures r.Ok? ==> Some(r.value) == open(m.aesKey, bytes[4 .. HEADER_SIZE], bytes[HEADER_SIZE..])
  {
    match ParseFrame(bytes)
    case None => Err(DecryptionError)
    case Some((nonce, ct)) =>
      match open(m.aesKey, nonce, ct)
      case None => Err(DecryptionError)
      case Some(pt) => Ok(pt)
  }

  /** Parsing the envelope of a non-empty ciphertext gives back the nonce and the
      ciphertext, as long as the length fits in a u32. */
  lemma ParseFrameOfFrame(nonce: Nonce, ct: seq<byte>)
    requires 1 <= |ct| && 12 + |ct| < TWO_POW_32
    ensures ParseFrame(Frame(nonce, ct)) == Some((nonce, ct))
  {
  }

  /** A frame that parses is the envelope of the nonce and ciphertext it yields. */
  lemma FrameOfParseFrame(bytes: seq<byte>)
    requires ParseFrame(bytes).Some?
    ensures Frame(ParseFrame(bytes).value.0, ParseFrame(bytes).value.1) == bytes
  {
    var (nonce, ct) := ParseFrame(bytes).value;
    var f := Frame(nonce, ct);
    assert |bytes| - 4 < TWO_POW_32;
    LE32Decode(bytes[..4]);
    assert f[..4] == LE32(U32(12 + |ct|)) == bytes[..4];
    assert f == f[..4] + f[4 .. HEADER_SIZE] + f[HEADER_SIZE..];
    assert bytes == bytes[..4] + bytes[4 .. HEADER_SIZE] + bytes[HEADER_SIZE..];
  }

  /** An envelope whose length does not fit in a u32 gets a truncated prefix and is
      rejected. */
  lemma OversizedFrameRejected(nonce: Nonce, ct: seq<byte>)
    requires 12 + |ct| >= TWO_POW_32
    ensures ParseFrame(Frame(nonce, ct)).None?
  {
  }

  /** `decrypt` undoes `encrypt` for a cipher whose opening undoes its non-empty sealing. */
  lemma EncryptDecrypt(m: CryptoManager, seal: Seal, open: Open, nonce: Nonce, plaintext: seq<byte>)
    requires Encrypted(m, seal, nonce, plaintext).Ok?
    requires 1 <= |seal(m.aesKey, nonce, plaintext).value| < TWO_POW_32 - 12
    requires open(m.aesKey, nonce, seal(m.aesKey, nonce, plaintext).value) == Some(plaintext)
    ensures Decrypted(m, open, Encrypted(m, seal, nonce, plaintext).value) == Ok(plaintext)
  {
    ParseFrameOfFrame(nonce, seal(m.aesKey, nonce, plaintext).value);
  }
}
