/** The static class `PasswordHasher`: `Hash` turns a password into a stored
    record `{iterations}{splitChar}{base64(salt)}{splitChar}{base64(key)}` and
    `Verify` checks a candidate password against such a record.

    PBKDF2-HMAC-SHA256 (`Rfc2898DeriveBytes`) is the parameter `kdf`, and the
    random salt that `Rfc2898DeriveBytes` draws is the parameter `salt`. */
module PasswordHasher {
  import opened Primitives
  import Base64
  import Int32Text
  import opened TextSplit

  /** PBKDF2 with HMAC-SHA256: (password, salt, iterations, key length) to key
      bytes. A Dafny function value is total and deterministic. */
  type Pbkdf2 = (string, seq<byte>, int, int) -> seq<byte>

  /** What the key-derivation library promises: a key of the requested length. */
  ghost predicate KdfContract(kdf: Pbkdf2) {
    forall pw: string, salt: seq<byte>, n: int, len: int ::
      len > 0 ==> |kdf(pw, salt, n, len)| == len
  }

  /** The default arguments of `Hash` and `Verify`. */
  const DefaultSaltSize: int16 := 16
  const DefaultKeySize: int16 := 32
  const DefaultIterations: int32 := 10000
  const DefaultSplitChar: char := '.'
  const DefaultPrivateKey: string := ""

  /** The three fields of a stored hash. */
  datatype HashRecord = HashRecord(iterations: int32, salt: seq<byte>, key: seq<byte>)

  /** The record as `Hash` writes it: the decimal count, the base64 salt and
      the base64 key, separated by `splitChar`. */
  function Serialize(rec: HashRecord, splitChar: char): string {
    Int32Text.Format(rec.iterations) + [splitChar] + Base64.Encode(rec.salt) + [splitChar] + Base64.Encode(rec.key)
  }

  /** A written record holds at least the two separators `Serialize` puts
      between its fields. */
  lemma {:induction false} SeparatorsCounted(rec: HashRecord, splitChar: char)
    ensures multiset(Serialize(rec, splitChar))[splitChar] >= 2
  {
    var a, b, d := Int32Text.Format(rec.iterations), Base64.Encode(rec.salt), Base64.Encode(rec.key);
    assert multiset(a + [splitChar] + b + [splitChar] + d)
        == multiset(a) + multiset{splitChar} + multiset(b) + multiset{splitChar} + multiset(d);
  }

  /** How `Verify` reads a stored hash: it has fewer than three fields, one of
      the fields raises an exception, or it yields a record. */
  datatype ParseOutcome = TooFewParts | Malformed(error: Failure) | Parsed(rec: HashRecord)

  function ParseRecord(hash: string, splitChar: char): (r: ParseOutcome)
    ensures multiset(hash)[splitChar] < 2 <==> r == TooFewParts
    ensures r.Malformed? ==> r.error in {FormatException, OverflowException}
  {
    var parts := Split(hash, splitChar, 3);
    SplitCount(hash, splitChar, 3);
    if |parts| != 3 then TooFewParts else ParseFields(parts[0], parts[1], parts[2])
  }

  /** The three fields in the order `Verify` reads them: the iteration count
      with `Convert.ToInt32`, then salt and key with `Convert.FromBase64String`. */
  function ParseFields(iterationsText: string, saltText: string, keyText: string): (r: ParseOutcome)
    ensures r != TooFewParts
    ensures r.Malformed? ==> r.error in {FormatException, OverflowException}
    ensures Int32Text.Parse(iterationsText).Err? ==> r == Malformed(Int32Text.Parse(iterationsText).error)
    ensures Int32Text.Parse(iterationsText).Ok? && (Base64.Decode(saltText).Err? || Base64.Decode(keyText).Err?) ==>
      r == Malformed(FormatException)
    ensures r.Parsed? <==>
      Int32Text.Parse(iterationsText).Ok? && Base64.Decode(saltText).Ok? && Base64.Decode(keyText).Ok?
    ensures r.Parsed? ==>
      r.rec == HashRecord(Int32Text.Parse(iterationsText).value, Base64.Decode(saltText).value, Base64.Decode(keyText).value)
  {
    match Int32Text.Parse(iterationsText)
    case Err(e) => Malformed(e)
    case Ok(n) =>
      match Base64.Decode(saltText)
      case Err(e) => Malformed(e)
      case Ok(salt) =>
        match Base64.Decode(keyText)
        case Err(e) => Malformed(e)
        case Ok(key) => Parsed(HashRecord(n, salt, key))
  }

  /** The argument checks of `Rfc2898DeriveBytes` (a non-negative salt size, a
      positive iteration count) and of `GetBytes` (a positive key size). */
  predicate DerivationArgsValid(saltSize: int, iterations: int, keySize: int) {
    saltSize >= 0 && iterations > 0 && keySize > 0
  }

  /** `PasswordHasher.Hash`. `salt` stands for the `saltSize` random bytes that
      `Rfc2898DeriveBytes` generates. */
  function Hash(password: string, saltSize: int16, keySize: int16, iterations: int32,
                splitChar: char, privateKey: string, salt: seq<byte>, kdf: Pbkdf2): (r: Result<string>)
    requires saltSize >= 0 ==> |salt| == saltSize as int
    ensures |password| == 0 <==> r == Err(InvalidPasswordException)
    ensures r.Ok? <==> |password| > 0 && DerivationArgsValid(saltSize as int, iterations as int, keySize as int)
    ensures r.Err? ==> r.error in {InvalidPasswordException, ArgumentOutOfRangeException}
    ensures r.Ok? ==> multiset(r.value)[splitChar] >= 2
  {
    if |password| == 0 then Err(InvalidPasswordException)
    else
      var effective := password + privateKey;
      if !DerivationArgsValid(saltSize as int, iterations as int, keySize as int) then Err(ArgumentOutOfRangeException)
      else
        var key := kdf(effective, salt, iterations as int, keySize as int);
        var text := Serialize(HashRecord(iterations, salt, key), splitChar);
        assert multiset(text)[splitChar] >= 2 by {
          SeparatorsCounted(HashRecord(iterations, salt, key), splitChar);
        }
        Ok(text)
  }

  /** `PasswordHasher.Verify`. */
  function Verify(hash: string, password: string, keySize: int16, iterations: int32,
                  splitChar: char, privateKey: string, kdf: Pbkdf2): (r: Result<bool>)
    ensures multiset(hash)[splitChar] < 2 ==> r == Ok(false)
    ensures r == Ok(true) ==> iterations > 0 && keySize > 0 && multiset(hash)[splitChar] >= 2
    ensures r.Err? ==> r.error in {FormatException, OverflowException, ArgumentOutOfRangeException}
  {
    var candidate := password + privateKey;
    match ParseRecord(hash, splitChar)
    case TooFewParts => Ok(false)
    case Malformed(e) => Err(e)
    case Parsed(rec) =>
      if rec.iterations != iterations then Ok(false)
      else if !(iterations > 0 && keySize > 0) then Err(ArgumentOutOfRangeException)
      else Ok(kdf(candidate, rec.salt, iterations as int, keySize as int) == rec.key)
  }
}
