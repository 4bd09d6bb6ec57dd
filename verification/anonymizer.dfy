/** The deterministic, format-preserving token transform of main/myanon.c:
    `make_readable_hash` and `anonymize_token`. The keyed digest
    (HMAC-SHA-256, RFC 2104 over FIPS 180-4 SHA-256) is not modelled: it is
    the parameter `hmac`, any function from a key and a message to 32 bytes. */
module Anonymizer {
  import opened CString

  const SHA256_DIGEST_SIZE: nat := 32

  /** A SHA-256 sized digest. */
  type Digest = d: seq<byte> | |d| == SHA256_DIGEST_SIZE witness seq(32, _ => NUL)

  /** The keyed digest: secret key and message to 32 bytes. */
  type KeyedDigest = (seq<byte>, seq<byte>) -> Digest

  /** The three anonymization modes a field can be configured with. */
  datatype Mode = TextHash | EmailHash | IntHash

  /** A field's anonymization rule: mode, requested length and, for
      EmailHash, the domain appended after the `@`. */
  datatype AnonConfig = AnonConfig(mode: Mode, len: nat, domain: seq<byte>)

  /** The returned result: the whole result buffer and the pseudonym length. */
  datatype AnonymizedResult = AnonymizedResult(data: seq<byte>, len: nat)

  const LOWER_A: byte := 97  // 'a'
  const LOWER_Z: byte := 122 // 'z'
  const DIGIT_0: byte := 48  // '0'
  const DIGIT_1: byte := 49  // '1'
  const DIGIT_9: byte := 57  // '9'
  const AT: byte := 64       // '@'

  /** First letter of the alphabet a mode maps digest bytes into. */
  function AlphabetBegin(mode: Mode): byte {
    if mode == IntHash then DIGIT_1 else LOWER_A
  }

  /** Last letter of the alphabet a mode maps digest bytes into. */
  function AlphabetEnd(mode: Mode): byte {
    if mode == IntHash then DIGIT_9 else LOWER_Z
  }

  /** One digest byte mapped into the alphabet `begin`..`end`. */
  function Readable(b: byte, begin: byte, end: byte): (c: byte)
    requires begin <= end
    ensures begin <= c <= end
    ensures c - begin == b % (end - begin + 1)
  {
    b % (end - begin + 1) + begin
  }

  /** The length of the pseudonym for a rule: at most one letter per digest
      byte for TextHash and IntHash; `len` letters, `@` and the domain for
      EmailHash. */
  function ResultLen(config: AnonConfig): (r: nat)
    ensures config.mode != EmailHash ==>
      r <= SHA256_DIGEST_SIZE && r <= config.len && (r == config.len || r == SHA256_DIGEST_SIZE)
    ensures config.mode == EmailHash ==> config.len < r && r - config.len - 1 == |config.domain|
  {
    match config.mode
    case TextHash => Min(SHA256_DIGEST_SIZE, config.len)
    case EmailHash => config.len + 1 + |config.domain|
    case IntHash => Min(SHA256_DIGEST_SIZE, config.len)
  }

  /** The number of hashed letters at the start of the pseudonym. */
  function HashedLen(config: AnonConfig): nat {
    if config.mode == EmailHash then config.len else ResultLen(config)
  }

  /** The result buffer can hold the pseudonym, its terminator and the
      digest `hmac_sha256` writes into it. */
  predicate FitsBuffer(config: AnonConfig, capacity: nat) {
    SHA256_DIGEST_SIZE <= capacity && ResultLen(config) < capacity
  }

  /** Byte `i` of the result buffer once the keyed digest has been written
      into it: the digest for the first 32 bytes, beyond them whatever the
      uninitialised buffer `junk` held. */
  function RawByte(digest: Digest, junk: seq<byte>, i: nat): byte
    requires i < |junk|
  {
    if i < SHA256_DIGEST_SIZE then digest[i] else junk[i]
  }

  /** The pseudonym (terminator excluded) of a token whose keyed digest is
      `digest`, written into a result buffer that held `junk`. */
  function Pseudonym(digest: Digest, config: AnonConfig, junk: seq<byte>): (p: seq<byte>)
    requires FitsBuffer(config, |junk|)
    ensures |p| == ResultLen(config)
    ensures config.mode == TextHash ==> forall i :: 0 <= i < |p| ==> LOWER_A <= p[i] <= LOWER_Z
    ensures config.mode == IntHash ==> forall i :: 0 <= i < |p| ==> DIGIT_1 <= p[i] <= DIGIT_9
    ensures config.mode == EmailHash ==>
      (forall i :: 0 <= i < config.len ==> LOWER_A <= p[i] <= LOWER_Z) &&
      p[config.len] == AT && p[config.len + 1..] == config.domain
    ensures forall i :: 0 <= i < Min(SHA256_DIGEST_SIZE, HashedLen(config)) ==>
      p[i] == Readable(digest[i], AlphabetBegin(config.mode), AlphabetEnd(config.mode))
  {
    var begin, end := AlphabetBegin(config.mode), AlphabetEnd(config.mode);
    var letters := seq(HashedLen(config), i requires 0 <= i < HashedLen(config) =>
                         Readable(RawByte(digest, junk, i), begin, end));
    if config.mode == EmailHash then letters + [AT] + config.domain else letters
  }

  /** Determinism: the same secret, token and rule give the same pseudonym,
      whatever the result buffer held before, except for an EmailHash rule
      longer than the digest (see LongEmailReadsUnwrittenBytes). */
  lemma {:induction false} PseudonymDeterministic(hmac: KeyedDigest, secret: seq<byte>, token: seq<byte>,
                               config: AnonConfig, junk1: seq<byte>, junk2: seq<byte>)
    requires FitsBuffer(config, |junk1|) && FitsBuffer(config, |junk2|)
    requires config.mode != EmailHash || config.len <= SHA256_DIGEST_SIZE
    ensures Pseudonym(hmac(secret, token), config, junk1) == Pseudonym(hmac(secret, token), config, junk2)
  {
  }

  /** An EmailHash rule longer than the digest maps bytes `hmac_sha256`
      never wrote: some other prior content of the result buffer changes
      the pseudonym. */
  lemma {:induction false} LongEmailReadsUnwrittenBytes(digest: Digest, config: AnonConfig, junk: seq<byte>)
    requires FitsBuffer(config, |junk|)
    requires config.mode == EmailHash && SHA256_DIGEST_SIZE < config.len
    ensures exists other: seq<byte> :: |other| == |junk| &&
              Pseudonym(digest, config, other) != Pseudonym(digest, config, junk)
  {
    var i := SHA256_DIGEST_SIZE;
    var b: byte := (junk[i] % 26 + 1) % 26;
    var other := junk[i := b];
    assert Pseudonym(digest, config, other)[i] == Readable(b, LOWER_A, LOWER_Z);
    assert Pseudonym(digest, config, junk)[i] == Readable(junk[i], LOWER_A, LOWER_Z);
  }

  /** No IntHash pseudonym contains the digit `0`. */
  lemma {:induction false} IntHashHasNoZero(digest: Digest, config: AnonConfig, junk: seq<byte>)
    requires FitsBuffer(config, |junk|) && config.mode == IntHash
    ensures DIGIT_0 !in Pseudonym(digest, config, junk)
  {
  }

  /** `make_readable_hash`: write the keyed digest of `token` into `data`,
      then map each of its first `len` bytes into `begin`..`end`. */
  method MakeReadableHash(hmac: KeyedDigest, secret: seq<byte>, token: seq<byte>,
                          data: array<byte>, len: nat, begin: byte, end: byte)
    requires SHA256_DIGEST_SIZE <= data.Length && len <= data.Length
    requires begin <= end
    modifies data
    ensures forall i :: 0 <= i < data.Length ==>
      data[i] == var raw := RawByte(hmac(secret, token), old(data[..]), i);
                 if i < len then Readable(raw, begin, end) else raw
  {
    ghost var junk := data[..];
    var digest := hmac(secret, token);
    // hmac_sha256 fills the first SHA256_DIGEST_SIZE bytes
    forall i | 0 <= i < SHA256_DIGEST_SIZE {
      data[i] := digest[i];
    }
    var i := 0;
    while i < len
      invariant i <= len
      invariant forall k :: 0 <= k < i ==> data[k] == Readable(RawByte(digest, junk, k), begin, end)
      invariant forall k :: i <= k < data.Length ==> data[k] == RawByte(digest, junk, k)
    {
      data[i] := Readable(data[i], begin, end);
      i := i + 1;
    }
  }

  /** C's `memcpy(&a[at], src, |src|)`. */
  method Memcpy(a: array<byte>, at: nat, src: seq<byte>)
    requires at + |src| <= a.Length
    modifies a
    ensures a[..] == old(a[..at]) + src + old(a[at + |src|..])
  {
    var k := 0;
    while k < |src|
      invariant k <= |src|
      invariant a[..] == old(a[..at]) + src[..k] + old(a[at + k..])
    {
      a[at + k] := src[k];
      k := k + 1;
    }
  }

  /** `anonymize_token`: the pseudonym of `token` under `config`, in a
      result buffer whose prior (uninitialised) content is `junk`. */
  method AnonymizeToken(hmac: KeyedDigest, secret: seq<byte>, config: AnonConfig,
                        token: seq<byte>, junk: seq<byte>) returns (res: AnonymizedResult)
    requires FitsBuffer(config, |junk|)
    ensures res.len == ResultLen(config) && |res.data| == |junk|
    ensures res.data[..res.len] == Pseudonym(hmac(secret, token), config, junk)
    ensures res.data[res.len] == NUL
    ensures forall i :: res.len < i < |junk| ==> res.data[i] == RawByte(hmac(secret, token), junk, i)
  {
    ghost var p := Pseudonym(hmac(secret, token), config, junk);
    var data := new byte[|junk|](i requires 0 <= i < |junk| => junk[i]);
    assert data[..] == junk;
    var len: nat;
    match config.mode {
      case TextHash =>
        len := Min(SHA256_DIGEST_SIZE, config.len);
        MakeReadableHash(hmac, secret, token, data, len, LOWER_A, LOWER_Z);
      case EmailHash =>
        len := config.len + 1 + |config.domain|;
        MakeReadableHash(hmac, secret, token, data, len, LOWER_A, LOWER_Z);
        ghost var hashed := data[..];
        assert hashed[..config.len] == p[..config.len];
        data[config.len] := AT;
        Memcpy(data, config.len + 1, config.domain);
        assert data[..len] == hashed[..config.len] + [AT] + config.domain;
        assert p == p[..config.len] + [AT] + config.domain;
        assert data[len + 1..] == hashed[len + 1..];
      case IntHash =>
        len := Min(SHA256_DIGEST_SIZE, config.len);
        MakeReadableHash(hmac, secret, token, data, len, DIGIT_1, DIGIT_9);
    }
    assert data[..len] == p;
    data[len] := NUL;
    res := AnonymizedResult(data[..], len);
  }
}
