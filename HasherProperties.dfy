/** What `Hash` and `Verify` guarantee together: the stored record reads back
    as written, a password verifies against its own hash, and each early exit of
    `Verify` happens exactly where the code puts it. */
module HasherProperties {
  import opened Primitives
  import Base64
  import Int32Text
  import opened TextSplit
  import opened PasswordHasher

  /** The separator cannot be confused with a character of the fields around
      it: it is neither in the decimal text of the iteration count nor in the
      base64 alphabet (A-Z, a-z, 0-9, '+', '/', '='). */
  predicate SeparatorSafe(splitChar: char, iterations: int32) {
    splitChar !in Int32Text.Format(iterations) && !Base64.IsEncodingChar(splitChar)
  }

  /** The default separator '.' is safe for every iteration count. */
  lemma {:induction false} DefaultSeparatorSafe(iterations: int32)
    ensures SeparatorSafe(DefaultSplitChar, iterations)
  {
  }

  /** The three fields of a serialised record are separator-free where they
      must be, so the limit-3 split recovers them. */
  lemma {:induction false} SplitSerialized(rec: HashRecord, splitChar: char)
    requires SeparatorSafe(splitChar, rec.iterations)
    ensures Split(Serialize(rec, splitChar), splitChar, 3)
         == [Int32Text.Format(rec.iterations), Base64.Encode(rec.salt), Base64.Encode(rec.key)]
  {
    Base64.EncodeChars(rec.salt, splitChar);
    SplitThree(Int32Text.Format(rec.iterations), Base64.Encode(rec.salt), Base64.Encode(rec.key), splitChar);
  }

  /** Parsing inverts serialisation when the separator is safe. */
  lemma {:induction false} ParseSerialize(rec: HashRecord, splitChar: char)
    requires SeparatorSafe(splitChar, rec.iterations)
    ensures ParseRecord(Serialize(rec, splitChar), splitChar) == Parsed(rec)
  {
    SplitSerialized(rec, splitChar);
    Int32Text.ParseFormat(rec.iterations);
    Base64.DecodeEncode(rec.salt);
    Base64.DecodeEncode(rec.key);
  }

  /** A successful `Hash` writes exactly three fields, which read back as the
      configured iteration count, the salt and the derived key; writing that
      record again reproduces the text. */
  lemma {:induction false} HashThenParse(password: string, saltSize: int16, keySize: int16, iterations: int32,
                      splitChar: char, privateKey: string, salt: seq<byte>, kdf: Pbkdf2, h: string)
    requires saltSize >= 0 ==> |salt| == saltSize as int
    requires Hash(password, saltSize, keySize, iterations, splitChar, privateKey, salt, kdf) == Ok(h)
    requires SeparatorSafe(splitChar, iterations)
    ensures |Split(h, splitChar, 3)| == 3
    ensures ParseRecord(h, splitChar)
         == Parsed(HashRecord(iterations, salt, kdf(password + privateKey, salt, iterations as int, keySize as int)))
    ensures Serialize(ParseRecord(h, splitChar).rec, splitChar) == h
  {
    var rec := HashRecord(iterations, salt, kdf(password + privateKey, salt, iterations as int, keySize as int));
    HashWrites(password, saltSize, keySize, iterations, splitChar, privateKey, salt, kdf, h);
    SplitSerialized(rec, splitChar);
    ParseSerialize(rec, splitChar);
  }

  /** A successful `Hash` ran with a non-negative salt size and wrote the record
      of the configured count, the salt and the derived key. */
  lemma {:induction false} HashWrites(password: string, saltSize: int16, keySize: int16, iterations: int32,
                   splitChar: char, privateKey: string, salt: seq<byte>, kdf: Pbkdf2, h: string)
    requires saltSize >= 0 ==> |salt| == saltSize as int
    requires Hash(password, saltSize, keySize, iterations, splitChar, privateKey, salt, kdf) == Ok(h)
    ensures saltSize >= 0 && |salt| == saltSize as int
    ensures h == Serialize(HashRecord(iterations, salt, kdf(password + privateKey, salt, iterations as int, keySize as int)), splitChar)
  {
  }

  /** `Verify` on a text made of three fields: an exception from reading any
      field comes first, then the iteration check, then the key comparison,
      always derived with the configured iteration count. */
  lemma {:induction false} VerifyOnFields(hash: string, a: string, b: string, d: string,
                       password: string, keySize: int16, iterations: int32,
                       splitChar: char, privateKey: string, kdf: Pbkdf2)
    requires hash == a + [splitChar] + b + [splitChar] + d
    requires splitChar !in a && splitChar !in b
    ensures Int32Text.Parse(a).Err? ==>
      Verify(hash, password, keySize, iterations, splitChar, privateKey, kdf) == Err(Int32Text.Parse(a).error)
    ensures Int32Text.Parse(a).Ok? && (Base64.Decode(b).Err? || Base64.Decode(d).Err?) ==>
      Verify(hash, password, keySize, iterations, splitChar, privateKey, kdf) == Err(FormatException)
    ensures Int32Text.Parse(a).Ok? && Base64.Decode(b).Ok? && Base64.Decode(d).Ok?
            && Int32Text.Parse(a).value != iterations ==>
      Verify(hash, password, keySize, iterations, splitChar, privateKey, kdf) == Ok(false)
    ensures Int32Text.Parse(a) == Ok(iterations) && Base64.Decode(b).Ok? && Base64.Decode(d).Ok?
            && (iterations <= 0 || keySize <= 0) ==>
      Verify(hash, password, keySize, iterations, splitChar, privateKey, kdf) == Err(ArgumentOutOfRangeException)
    ensures Int32Text.Parse(a) == Ok(iterations) && Base64.Decode(b).Ok? && Base64.Decode(d).Ok?
            && iterations > 0 && keySize > 0 ==>
      Verify(hash, password, keySize, iterations, splitChar, privateKey, kdf)
      == Ok(kdf(password + privateKey, Base64.Decode(b).value, iterations as int, keySize as int) == Base64.Decode(d).value)
  {
    SplitThree(a, b, d, splitChar);
    assert ParseRecord(hash, splitChar) == ParseFields(a, b, d);
  }

  /** A non-numeric iteration field makes `Verify` raise a FormatException
      rather than return false, whatever the password and configuration. */
  lemma {:induction false} VerifyThrowsOnNonNumericIterations(hash: string, a: string, b: string, d: string, i: int,
                                           password: string, keySize: int16, iterations: int32,
                                           splitChar: char, privateKey: string, kdf: Pbkdf2)
    requires hash == a + [splitChar] + b + [splitChar] + d
    requires splitChar !in a && splitChar !in b
    requires 0 <= i < |a| && !Int32Text.IsDigit(a[i]) && a[i] != '-' && a[i] != '+' && !Int32Text.IsParseWhite(a[i])
    ensures Verify(hash, password, keySize, iterations, splitChar, privateKey, kdf) == Err(FormatException)
  {
    Int32Text.ParseRejectsForeignChar(a, i);
    VerifyOnFields(hash, a, b, d, password, keySize, iterations, splitChar, privateKey, kdf);
  }

  /** Verifying any password against a fresh hash compares the two derived keys:
      true exactly when PBKDF2 gives the same key for both effective passwords. */
  lemma {:induction false} VerifyAgainstHash(p1: string, p2: string, saltSize: int16, keySize: int16, iterations: int32,
                          splitChar: char, pk1: string, pk2: string, salt: seq<byte>, kdf: Pbkdf2, h: string)
    requires saltSize >= 0 ==> |salt| == saltSize as int
    requires Hash(p1, saltSize, keySize, iterations, splitChar, pk1, salt, kdf) == Ok(h)
    requires SeparatorSafe(splitChar, iterations)
    ensures Verify(h, p2, keySize, iterations, splitChar, pk2, kdf)
         == Ok(kdf(p2 + pk2, salt, iterations as int, keySize as int) == kdf(p1 + pk1, salt, iterations as int, keySize as int))
  {
    HashThenParse(p1, saltSize, keySize, iterations, splitChar, pk1, salt, kdf, h);
  }

  /** Completeness: a password verifies against its own hash. */
  lemma {:induction false} HashThenVerify(password: string, saltSize: int16, keySize: int16, iterations: int32,
                       splitChar: char, privateKey: string, salt: seq<byte>, kdf: Pbkdf2, h: string)
    requires saltSize >= 0 ==> |salt| == saltSize as int
    requires Hash(password, saltSize, keySize, iterations, splitChar, privateKey, salt, kdf) == Ok(h)
    requires SeparatorSafe(splitChar, iterations)
    ensures Verify(h, password, keySize, iterations, splitChar, privateKey, kdf) == Ok(true)
  {
    VerifyAgainstHash(password, password, saltSize, keySize, iterations, splitChar,
                      privateKey, privateKey, salt, kdf, h);
  }

  /** With every default argument, hashing a non-empty password succeeds and the
      password verifies against the result. */
  lemma {:induction false} DefaultsRoundTrip(password: string, salt: seq<byte>, kdf: Pbkdf2)
    requires |password| > 0 && |salt| == DefaultSaltSize as int
    ensures Hash(password, DefaultSaltSize, DefaultKeySize, DefaultIterations, DefaultSplitChar,
                 DefaultPrivateKey, salt, kdf).Ok?
    ensures Verify(Hash(password, DefaultSaltSize, DefaultKeySize, DefaultIterations, DefaultSplitChar,
                        DefaultPrivateKey, salt, kdf).value,
                   password, DefaultKeySize, DefaultIterations, DefaultSplitChar, DefaultPrivateKey, kdf)
         == Ok(true)
  {
    var r := Hash(password, DefaultSaltSize, DefaultKeySize, DefaultIterations, DefaultSplitChar,
                  DefaultPrivateKey, salt, kdf);
    DefaultSeparatorSafe(DefaultIterations);
    HashThenVerify(password, DefaultSaltSize, DefaultKeySize, DefaultIterations, DefaultSplitChar,
                   DefaultPrivateKey, salt, kdf, r.value);
  }

  /** A record written with another iteration count never verifies: the stored
      count is checked against the configured one, not used for derivation. */
  lemma {:induction false} VerifyRejectsOtherIterations(password: string, saltSize: int16, keySize: int16,
                                     stored: int32, configured: int32, splitChar: char,
                                     privateKey: string, salt: seq<byte>, kdf: Pbkdf2, h: string)
    requires saltSize >= 0 ==> |salt| == saltSize as int
    requires Hash(password, saltSize, keySize, stored, splitChar, privateKey, salt, kdf) == Ok(h)
    requires SeparatorSafe(splitChar, stored)
    requires stored != configured
    ensures Verify(h, password, keySize, configured, splitChar, privateKey, kdf) == Ok(false)
  {
    HashThenParse(password, saltSize, keySize, stored, splitChar, privateKey, salt, kdf, h);
  }

  /** Changing only the private key between `Hash` and `Verify` changes the
      input of PBKDF2, so the correct password is rejected wherever PBKDF2 tells
      the two inputs apart. */
  lemma {:induction false} VerifyWithOtherSecret(password: string, saltSize: int16, keySize: int16, iterations: int32,
                              splitChar: char, pk1: string, pk2: string, salt: seq<byte>,
                              kdf: Pbkdf2, h: string)
    requires saltSize >= 0 ==> |salt| == saltSize as int
    requires Hash(password, saltSize, keySize, iterations, splitChar, pk1, salt, kdf) == Ok(h)
    requires SeparatorSafe(splitChar, iterations)
    requires pk1 != pk2
    requires password + pk1 != password + pk2 ==>
      kdf(password + pk1, salt, iterations as int, keySize as int) != kdf(password + pk2, salt, iterations as int, keySize as int)
    ensures password + pk1 != password + pk2
    ensures Verify(h, password, keySize, iterations, splitChar, pk2, kdf) == Ok(false)
  {
    assert (password + pk1)[|password|..] == pk1;
    assert (password + pk2)[|password|..] == pk2;
    VerifyAgainstHash(password, password, saltSize, keySize, iterations, splitChar, pk1, pk2, salt, kdf, h);
  }

  /** A stored key whose length differs from `keySize` never verifies, since
      PBKDF2 returns exactly `keySize` bytes and the comparison is over whole
      sequences. */
  lemma {:induction false} VerifyRejectsKeyOfOtherLength(hash: string, password: string, keySize: int16, iterations: int32,
                                      splitChar: char, privateKey: string, kdf: Pbkdf2)
    requires KdfContract(kdf)
    requires ParseRecord(hash, splitChar).Parsed?
    requires |ParseRecord(hash, splitChar).rec.key| != keySize as int
    ensures Verify(hash, password, keySize, iterations, splitChar, privateKey, kdf) != Ok(true)
  {
    var rec := ParseRecord(hash, splitChar).rec;
    if rec.iterations == iterations && iterations > 0 && keySize > 0 {
      assert |kdf(password + privateKey, rec.salt, iterations as int, keySize as int)| == keySize as int;
    }
  }

  /** Two hashes of one password with different salts are different texts,
      whatever the separator: both start with the same count field, and the salt
      fields that follow have the same length and differ. */
  lemma {:induction false} DistinctSaltsDistinctHashes(password: string, saltSize: int16, keySize: int16, iterations: int32,
                                    splitChar: char, privateKey: string, salt1: seq<byte>, salt2: seq<byte>,
                                    kdf: Pbkdf2, h1: string, h2: string)
    requires saltSize >= 0 ==> |salt1| == saltSize as int && |salt2| == saltSize as int
    requires Hash(password, saltSize, keySize, iterations, splitChar, privateKey, salt1, kdf) == Ok(h1)
    requires Hash(password, saltSize, keySize, iterations, splitChar, privateKey, salt2, kdf) == Ok(h2)
    requires salt1 != salt2
    ensures h1 != h2
  {
    var k1 := kdf(password + privateKey, salt1, iterations as int, keySize as int);
    var k2 := kdf(password + privateKey, salt2, iterations as int, keySize as int);
    HashWrites(password, saltSize, keySize, iterations, splitChar, privateKey, salt1, kdf, h1);
    HashWrites(password, saltSize, keySize, iterations, splitChar, privateKey, salt2, kdf, h2);
    DistinctSaltsDistinctRecords(HashRecord(iterations, salt1, k1), HashRecord(iterations, salt2, k2), splitChar);
  }

  /** Records with one count and salts of one length but different contents
      are written as different texts, whatever the separator. */
  lemma {:induction false} DistinctSaltsDistinctRecords(rec1: HashRecord, rec2: HashRecord, splitChar: char)
    requires rec1.iterations == rec2.iterations && |rec1.salt| == |rec2.salt| && rec1.salt != rec2.salt
    ensures Serialize(rec1, splitChar) != Serialize(rec2, splitChar)
  {
    var e1, e2 := Base64.Encode(rec1.salt), Base64.Encode(rec2.salt);
    assert e1 != e2 by {
      if e1 == e2 {
        Base64.EncodeInjective(rec1.salt, rec2.salt);
      }
    }
    DistinctMiddleFields(Int32Text.Format(rec1.iterations), e1, e2,
                         Base64.Encode(rec1.key), Base64.Encode(rec2.key), splitChar);
  }

  /** Two texts with the same first field whose second fields have the same
      length but differ are different. */
  lemma {:induction false} DistinctMiddleFields(a: string, e1: string, e2: string, d1: string, d2: string, c: char)
    requires |e1| == |e2| && e1 != e2
    ensures a + [c] + e1 + [c] + d1 != a + [c] + e2 + [c] + d2
  {
    var h1, h2 := a + [c] + e1 + [c] + d1, a + [c] + e2 + [c] + d2;
    assert h1[|a| + 1..|a| + 1 + |e1|] == e1;
    assert h2[|a| + 1..|a| + 1 + |e2|] == e2;
  }

  /** Without a safe separator a password need not verify against its own
      hash: with '1' as the separator and one iteration, the written text starts
      "111", splits into an empty iteration field, and `Verify` raises a
      FormatException. */
  lemma {:induction false} UnsafeSeparatorBreaksVerify(password: string, keySize: int16, privateKey: string, kdf: Pbkdf2, h: string)
    requires Hash(password, 0, keySize, 1, '1', privateKey, [], kdf) == Ok(h)
    ensures Verify(h, password, keySize, 1, '1', privateKey, kdf) == Err(FormatException)
  {
    var key := kdf(password + privateKey, [], 1, keySize as int);
    assert h == Serialize(HashRecord(1, [], key), '1');
    UnsafeSeparatorRecord(key);
  }

  lemma {:induction false} UnsafeSeparatorRecord(key: seq<byte>)
    ensures ParseRecord(Serialize(HashRecord(1, [], key), '1'), '1') == Malformed(FormatException)
  {
    var d := ['1'] + Base64.Encode(key);
    UnsafeSeparatorText(key);
    SplitThree([], [], d, '1');
    EmptyCountRejected();
  }

  /** With count 1, no salt and separator '1', the written text is "1" "1" "" "1" key. */
  lemma {:induction false} UnsafeSeparatorText(key: seq<byte>)
    ensures Serialize(HashRecord(1, [], key), '1') == [] + ['1'] + [] + ['1'] + (['1'] + Base64.Encode(key))
  {
    assert Int32Text.Format(1) == "1";
    assert Base64.Encode([]) == [];
  }

  /** An empty iteration field is not a number. */
  lemma {:induction false} EmptyCountRejected()
    ensures Int32Text.Parse([]) == Err(FormatException)
  {
    assert Int32Text.TrimEnd(Int32Text.TrimStart([])) == [];
  }
}
