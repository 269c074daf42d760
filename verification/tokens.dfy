/**
 * Token issuance of internal/tokens/tokens.go.
 *
 * `GenerateToken` becomes a pure function once its effects are inputs: the
 * clock reading `now`, the outcome of reading 32 bytes from the system's
 * random source, and SHA-256, which is passed in as a function from byte
 * strings to 32-byte digests. Everything the token holds is then determined
 * by those inputs and the caller's arguments.
 */
module Tokens {
  import opened Wrappers
  import opened Base32
  import ByteCodes

  /** The scope of tokens that authenticate a user. */
  const ScopeAuth: string := "authentication"

  /** Number of random bytes behind every token. */
  const RandomBytes: nat := 32

  /** Go's `int` and `time.Duration` on a 64-bit platform. */
  newtype Int64 = x: int | -0x8000_0000_0000_0000 <= x < 0x8000_0000_0000_0000

  /** A time-to-live: a signed count of nanoseconds (Go's `time.Duration`). */
  type Duration = Int64

  /** An instant, as nanoseconds on the clock that `time.Now` reads. */
  type Instant = int

  /** The 32 bytes a successful read of the random source fills in. */
  type Entropy = b: seq<Byte> | |b| == RandomBytes witness seq(32, _ => 0 as Byte)

  /** A SHA-256 digest. */
  type Digest = d: seq<Byte> | |d| == 32 witness seq(32, _ => 0 as Byte)

  /** The error the random source reports. */
  datatype RandError = RandError(reason: string)

  /** The outcome of reading the random source into a 32-byte buffer. */
  datatype RandRead = Filled(bytes: Entropy) | ReadFailed(err: RandError)

  /** The token record; the plaintext goes to the client, the hash is what is stored. */
  datatype Token = Token(plaintext: string, hash: seq<Byte>, userID: Int64, expiry: Instant, scope: string)

  // ---------------------------------------------------------------------
  // Bytes of a string

  predicate IsAscii(s: string) {
    forall i | 0 <= i < |s| :: s[i] < 128 as char
  }

  /** The UTF-8 bytes of an ASCII string, which are its character codes (Go's `[]byte(s)`). */
  function AsciiBytes(s: string): (r: seq<Byte>)
    requires IsAscii(s)
    ensures |r| == |s|
  {
    seq(|s|, i requires 0 <= i < |s| => s[i] as Byte)
  }

  /** The ASCII string whose codes are the given bytes below 128. */
  function AsciiString(b: seq<Byte>): (r: string)
    requires forall i | 0 <= i < |b| :: b[i] < 128
    ensures |r| == |b|
  {
    seq(|b|, i requires 0 <= i < |b| => b[i] as char)
  }

  /** Each byte of an ASCII string is its character's code. */
  lemma AsciiBytesCodes(s: string)
    requires IsAscii(s)
    ensures forall i | 0 <= i < |s| :: AsciiBytes(s)[i] as int == s[i] as int
  {
    forall i | 0 <= i < |s|
      ensures AsciiBytes(s)[i] as int == s[i] as int
    {
      CharCode(s[i]);
    }
  }

  /** An ASCII character converts to the byte of the same code. */
  lemma CharCode(c: char)
    requires c < 128 as char
    ensures (c as Byte) as int == c as int
  {
    ByteCodes.ByteOfSmall(c as int);
    assert c as Byte == (c as int) as Byte;
  }

  /** Converting to bytes loses nothing: the string is read back from its bytes. */
  lemma AsciiRoundTrip(s: string)
    requires IsAscii(s)
    ensures forall i | 0 <= i < |AsciiBytes(s)| :: AsciiBytes(s)[i] < 128
    ensures AsciiString(AsciiBytes(s)) == s
  {
    var b := AsciiBytes(s);
    forall i | 0 <= i < |s|
      ensures b[i] < 128 && b[i] as char == s[i]
    {
      CharCode(s[i]);
    }
  }

  /** Distinct ASCII strings have distinct bytes. */
  lemma AsciiBytesInjective(s: string, t: string)
    requires IsAscii(s) && IsAscii(t) && AsciiBytes(s) == AsciiBytes(t)
    ensures s == t
  {
    AsciiRoundTrip(s);
    AsciiRoundTrip(t);
  }

  /** Base32 symbols are ASCII. */
  lemma SymbolsAreAscii(s: string)
    requires InAlphabet(s)
    ensures IsAscii(s)
  {
  }

  // ---------------------------------------------------------------------
  // Issuance

  /** The plaintext of a token: the unpadded base32 encoding of its random bytes. */
  function Plaintext(bytes: Entropy): (r: string)
    ensures |r| == 52 && InAlphabet(r) && PadChar !in r
    ensures Decode(r) == Success(bytes)
  {
    DecodeEncode(bytes);
    Encode(bytes)
  }

  /**
   * Issues a token for `userID` valid for `ttl` from `now`. A failed read of
   * the random source is returned as the error and no token is issued.
   */
  function GenerateToken(userID: Int64, ttl: Duration, scope: string, now: Instant, draw: RandRead, sum256: seq<Byte> -> Digest): (r: Result<Token, RandError>)
    ensures r.Failure? <==> draw.ReadFailed?
    ensures r.Failure? ==> r.error == draw.err
    ensures r.Success? ==>
      && r.value.userID == userID
      && r.value.scope == scope
      && r.value.expiry == now + ttl as int
    ensures r.Success? ==>
      && |r.value.plaintext| == 52
      && InAlphabet(r.value.plaintext)
      && PadChar !in r.value.plaintext
      && Decode(r.value.plaintext) == Success(draw.bytes)
    ensures r.Success? ==>
      && IsAscii(r.value.plaintext)
      && r.value.hash == sum256(AsciiBytes(r.value.plaintext))
      && |r.value.hash| == 32
  {
    match draw
    case ReadFailed(err) => Failure(err)
    case Filled(bytes) =>
      var plaintext := Plaintext(bytes);
      SymbolsAreAscii(plaintext);
      Success(Token(plaintext, sum256(AsciiBytes(plaintext)), userID, now + ttl as int, scope))
  }

  /**
   * Two issued tokens share a plaintext exactly when they were drawn from the
   * same random bytes, whoever they are for; tokens sharing a plaintext share
   * the hash.
   */
  lemma PlaintextIdentifiesEntropy(
    u1: Int64, ttl1: Duration, scope1: string, now1: Instant, e1: Entropy,
    u2: Int64, ttl2: Duration, scope2: string, now2: Instant, e2: Entropy,
    sum256: seq<Byte> -> Digest)
    ensures var t1 := GenerateToken(u1, ttl1, scope1, now1, Filled(e1), sum256).value;
      var t2 := GenerateToken(u2, ttl2, scope2, now2, Filled(e2), sum256).value;
      && (t1.plaintext == t2.plaintext <==> e1 == e2)
      && (t1.plaintext == t2.plaintext ==> t1.hash == t2.hash)
  {
    var t1 := GenerateToken(u1, ttl1, scope1, now1, Filled(e1), sum256).value;
    var t2 := GenerateToken(u2, ttl2, scope2, now2, Filled(e2), sum256).value;
    if t1.plaintext == t2.plaintext {
      assert Decode(t1.plaintext) == Success(e1);
      assert Decode(t2.plaintext) == Success(e2);
    }
  }

  /**
   * The plaintext and hash depend on the random bytes alone: the user, the
   * lifetime, the scope and the clock do not enter them.
   */
  lemma SecretDependsOnEntropyOnly(
    u1: Int64, ttl1: Duration, scope1: string, now1: Instant,
    u2: Int64, ttl2: Duration, scope2: string, now2: Instant,
    e: Entropy, sum256: seq<Byte> -> Digest)
    ensures var t1 := GenerateToken(u1, ttl1, scope1, now1, Filled(e), sum256).value;
      var t2 := GenerateToken(u2, ttl2, scope2, now2, Filled(e), sum256).value;
      t1.plaintext == t2.plaintext && t1.hash == t2.hash
  {
  }

  /**
   * Two tokens' stored hashes agree exactly when their plaintexts do, unless
   * the digest function collides on the two plaintexts' bytes.
   */
  lemma HashIdentifiesPlaintext(t1: Token, t2: Token, sum256: seq<Byte> -> Digest)
    requires IsAscii(t1.plaintext) && IsAscii(t2.plaintext)
    requires t1.hash == sum256(AsciiBytes(t1.plaintext)) && t2.hash == sum256(AsciiBytes(t2.plaintext))
    requires sum256(AsciiBytes(t1.plaintext)) == sum256(AsciiBytes(t2.plaintext)) ==> AsciiBytes(t1.plaintext) == AsciiBytes(t2.plaintext)
    ensures t1.hash == t2.hash <==> t1.plaintext == t2.plaintext
  {
    if t1.hash == t2.hash {
      AsciiBytesInjective(t1.plaintext, t2.plaintext);
    }
  }

  /** All-zero random bytes give the plaintext of 52 `A`s. */
  lemma ZeroEntropyPlaintext(userID: Int64, ttl: Duration, scope: string, now: Instant, sum256: seq<Byte> -> Digest)
    ensures GenerateToken(userID, ttl, scope, now, Filled(seq(32, _ => 0 as Byte)), sum256).value.plaintext
         == seq(52, _ => 'A')
  {
    EncodeZeroBytes(32);
  }

  // ---------------------------------------------------------------------
  // Client-visible projection

  /** The value of one field of the record. */
  datatype FieldValue =
    | StringValue(s: string)
    | BytesValue(b: seq<Byte>)
    | IntValue(i: int)
    | TimeValue(t: Instant)

  /** A field of the record with its name and the key its `json` tag gives it (`-`: never serialised). */
  datatype Field = Field(name: string, tag: string, value: FieldValue)

  /** The fields of a token in declaration order, with their tags. */
  function Fields(t: Token): (fs: seq<Field>)
    ensures |fs| == 5
    ensures forall i | 0 <= i < |fs| :: fs[i].tag == "-" <==> fs[i].name in {"Hash", "UserID", "Scope"}
  {
    [ Field("Plaintext", "token", StringValue(t.plaintext)),
      Field("Hash", "-", BytesValue(t.hash)),
      Field("UserID", "-", IntValue(t.userID as int)),
      Field("Expiry", "expiry", TimeValue(t.expiry)),
      Field("Scope", "-", StringValue(t.scope)) ]
  }

  /** The members of a JSON object built from fields: each field not tagged `-`, in order, under its tag. */
  function Members(fs: seq<Field>): (r: seq<(string, FieldValue)>)
    ensures |r| <= |fs|
    ensures forall m | m in r :: exists i | 0 <= i < |fs| :: fs[i].tag != "-" && m == (fs[i].tag, fs[i].value)
    ensures forall i | 0 <= i < |fs| && fs[i].tag != "-" :: (fs[i].tag, fs[i].value) in r
  {
    if fs == [] then []
    else if fs[0].tag == "-" then Members(fs[1..])
    else [(fs[0].tag, fs[0].value)] + Members(fs[1..])
  }

  /** The token as a client receives it: the plaintext under `token`, then the expiry under `expiry`. */
  function Serialize(t: Token): (r: seq<(string, FieldValue)>)
    ensures r == [("token", StringValue(t.plaintext)), ("expiry", TimeValue(t.expiry))]
  {
    MembersOfFields(t);
    Members(Fields(t))
  }

  /** Of the five fields only the plaintext and the expiry are not tagged `-`. */
  lemma MembersOfFields(t: Token)
    ensures Members(Fields(t)) == [("token", StringValue(t.plaintext)), ("expiry", TimeValue(t.expiry))]
  {
    var fs := Fields(t);
    assert Members(fs[4..]) == [] by {
      assert fs[4..][1..] == [];
    }
    assert Members(fs[3..]) == [("expiry", TimeValue(t.expiry))] by {
      assert fs[3..][1..] == fs[4..];
    }
    assert Members(fs[1..]) == Members(fs[3..]) by {
      assert fs[1..][1..] == fs[2..];
      assert fs[2..][1..] == fs[3..];
    }
  }

  /** The hash, the user id and the scope never reach the client: two tokens look alike exactly when plaintext and expiry agree. */
  lemma SerializedViewHidesSecrets(t1: Token, t2: Token)
    ensures Serialize(t1) == Serialize(t2) <==> t1.plaintext == t2.plaintext && t1.expiry == t2.expiry
  {
    if Serialize(t1) == Serialize(t2) {
      assert Serialize(t1)[0] == Serialize(t2)[0];
      assert Serialize(t1)[1] == Serialize(t2)[1];
    }
  }

  /** A successful issuance hands the client the plaintext and the expiry `now + ttl`, and nothing else. */
  lemma IssuedTokenView(userID: Int64, ttl: Duration, scope: string, now: Instant, e: Entropy, sum256: seq<Byte> -> Digest)
    ensures var t := GenerateToken(userID, ttl, scope, now, Filled(e), sum256).value;
      Serialize(t) == [("token", StringValue(Encode(e))), ("expiry", TimeValue(now + ttl as int))]
  {
    var t := GenerateToken(userID, ttl, scope, now, Filled(e), sum256).value;
    assert t.plaintext == Plaintext(e);
  }
}
