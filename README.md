# PasswordHasher in Dafny

A model of the static class `PasswordHasher` of SecureIdentity. It has two operations.

- `Hash` rejects an empty password with `InvalidPasswordException`. It appends the server-side secret (`privateKey`) to the password and derives a key with PBKDF2-HMAC-SHA256 from a random salt. It returns the text `{iterations}{splitChar}{base64(salt)}{splitChar}{base64(key)}`.
- `Verify` appends the same secret to the candidate password and splits the stored text on `splitChar` into at most three parts. It returns false for fewer than three parts. It then parses the iteration count and base64-decodes the salt and key, raising the .NET exception when a field is malformed. It returns false when the stored count differs from the configured one. Otherwise it re-derives the key with the configured count and compares it with the stored key.

The model is pure, like the source: a `static class` without fields whose methods are straight-line code.

- PBKDF2 (`Rfc2898DeriveBytes`) is a function-valued parameter `kdf: Pbkdf2`. It is therefore total and deterministic, and `KdfContract` states that it returns a key of the requested length.
- The salt that `Rfc2898DeriveBytes` draws at random is a parameter of `Hash` with `saltSize` bytes.
- Exceptions are values: `Result<T> = Ok(value) | Err(error)`, where `error` is one of `InvalidPasswordException`, `FormatException`, `OverflowException` or `ArgumentOutOfRangeException`.

Modules:

- `Primitives`: .NET `byte`, `short` and `int` as bounded integers, the exceptions, `Result` and `Option`.
- `Base64`: `Convert.ToBase64String` and `Convert.FromBase64String` (standard, padded base64 of section 4 of RFC 4648).
- `Int32Text`: the decimal text of an `int`, and `Convert.ToInt32(string)`.
- `TextSplit`: `String.Split(char, int count)`.
- `PasswordHasher`: the record, its serialiser and parser, `Hash` and `Verify`.
- `HasherProperties`: the theorems relating `Hash` and `Verify`.

`Verify` does not catch exceptions. `Convert.ToInt32` and `Convert.FromBase64String` (lines 59-61) throw on a malformed field, so `Verify` returns `Err(FormatException)` or `Err(OverflowException)` there, not false.

## Model

| member | source | states |
|---|---|---|
| `Base64.Encode` | SecureIdentity/Password/PasswordHasher.cs:39-40 | The text has 4 * ceil(n/3) characters. |
| `Base64.EncodeChars` | SecureIdentity/Password/PasswordHasher.cs:39-40 | Every character of the encoding is a base64 symbol or the pad '=', so any other character never occurs in it. |
| `Base64.DecodeEncode` | SecureIdentity/Password/PasswordHasher.cs:60-61 | `Convert.FromBase64String` of `Convert.ToBase64String(b)` gives back `b` for every byte sequence. |
| `Base64.EncodeInjective` | SecureIdentity/Password/PasswordHasher.cs:39-40 | Distinct byte sequences have distinct base64 texts. |
| `Base64.Decode` | SecureIdentity/Password/PasswordHasher.cs:60-61 | A malformed salt or key field raises FormatException and nothing else. |
| `Base64.DecodeAccepts` | SecureIdentity/Password/PasswordHasher.cs:60-61 | Decoding succeeds exactly when the text without white space is whole groups of four alphabet symbols, where only the last group may end in "=" or "==". |
| `Base64.DecodeRejectsForeignChar` | SecureIdentity/Password/PasswordHasher.cs:60-61 | A character that is not in the alphabet, not '=' and not skipped white space makes decoding raise FormatException. |
| `Int32Text.Format` | SecureIdentity/Password/PasswordHasher.cs:42 | The interpolated iteration count consists only of decimal digits and '-'. |
| `Int32Text.Parse` | SecureIdentity/Password/PasswordHasher.cs:59 | `Convert.ToInt32` fails only with FormatException or OverflowException. |
| `Int32Text.ParseFormat` | SecureIdentity/Password/PasswordHasher.cs:59 | Parsing the formatted text of any Int32 gives that Int32 back. |
| `Int32Text.ParseRejectsForeignChar` | SecureIdentity/Password/PasswordHasher.cs:59 | A text containing a character other than a digit, a sign or white space raises FormatException (trailing NULs aside, see "Left out"). |
| `TextSplit.IndexOf` | SecureIdentity/Password/PasswordHasher.cs:55 | The index holds the separator and no earlier position does. |
| `TextSplit.Split` | SecureIdentity/Password/PasswordHasher.cs:55 | There are at most `count` parts, and no part but the last contains the separator. |
| `TextSplit.SplitCount` | SecureIdentity/Password/PasswordHasher.cs:55 | With limit `count` >= 1 there are min(count, separators + 1) parts. |
| `TextSplit.SplitJoin` | SecureIdentity/Password/PasswordHasher.cs:55 | With limit `count` >= 1, joining the parts with the separator gives back the text. |
| `TextSplit.SplitThree` | SecureIdentity/Password/PasswordHasher.cs:55 | A text `a.b.d` with no separator in `a` or `b` splits into exactly `[a, b, d]`; any further separators stay in `d`. |
| `PasswordHasher.ParseRecord` | SecureIdentity/Password/PasswordHasher.cs:55-61 | The stored text has fewer than three parts exactly when it holds fewer than two separators. A malformed field gives FormatException or OverflowException. |
| `PasswordHasher.ParseFields` | SecureIdentity/Password/PasswordHasher.cs:59-61 | The fields are read in order. An error in the count field wins with its own exception. Otherwise a bad salt or key field raises FormatException. The result is a record exactly when all three fields read, and it holds the parsed count, salt and key. |
| `PasswordHasher.Hash` | SecureIdentity/Password/PasswordHasher.cs:21-43 | It fails with InvalidPasswordException exactly for the empty password. It succeeds exactly when the password is non-empty and the sizes and count pass the derivation checks. It otherwise fails with ArgumentOutOfRangeException, and a result holds at least two separators. |
| `PasswordHasher.SeparatorsCounted` | SecureIdentity/Password/PasswordHasher.cs:42 | `Serialize`, the interpolation of line 42, writes at least two separators. `Serialize`'s inverse is stated by `HasherProperties.SplitSerialized` and `HasherProperties.ParseSerialize`. |
| `PasswordHasher.Verify` | SecureIdentity/Password/PasswordHasher.cs:45-74 | Fewer than two separators gives false without parsing. True needs a positive count and key size. Errors are only Format, Overflow or ArgumentOutOfRange exceptions. |
| `HasherProperties.DefaultSeparatorSafe` | SecureIdentity/Password/PasswordHasher.cs:26 | The default separator '.' occurs neither in any iteration count's text nor in base64. |
| `HasherProperties.SplitSerialized` | SecureIdentity/Password/PasswordHasher.cs:42-55 | With a safe separator, the limit-3 split of a written record yields exactly its three field texts. |
| `HasherProperties.ParseSerialize` | SecureIdentity/Password/PasswordHasher.cs:42-61 | With a safe separator, reading a written record gives back the same iteration count, salt and key. |
| `HasherProperties.HashThenParse` | SecureIdentity/Password/PasswordHasher.cs:32-42 | With a safe separator (one that is neither in the count's text nor in base64), a successful Hash writes exactly three fields. They read back as the configured count, the salt and `kdf(password + privateKey, salt, iterations, keySize)`, and rewriting them reproduces the text. |
| `HasherProperties.VerifyOnFields` | SecureIdentity/Password/PasswordHasher.cs:55-73 | On `a.b.d`, a bad count field or a bad base64 field raises before the iteration check. A different stored count gives false. Otherwise the result is the comparison of the stored key with the key derived with the configured count, or ArgumentOutOfRangeException for a non-positive count or key size. |
| `HasherProperties.VerifyThrowsOnNonNumericIterations` | SecureIdentity/Password/PasswordHasher.cs:59 | A non-numeric iteration field makes Verify raise FormatException rather than return false (trailing NULs aside, see "Left out"). |
| `HasherProperties.VerifyAgainstHash` | SecureIdentity/Password/PasswordHasher.cs:53-73 | With a safe separator, verifying any password and secret against a fresh hash returns whether PBKDF2 gives the same key for both effective passwords. |
| `HasherProperties.HashThenVerify` | SecureIdentity/Password/PasswordHasher.cs:21-74 | Completeness: with a safe separator, a password verifies true against its own hash. |
| `HasherProperties.DefaultsRoundTrip` | SecureIdentity/Password/PasswordHasher.cs:21-51 | With the default arguments, hashing any non-empty password succeeds and the password verifies true against it. |
| `HasherProperties.VerifyRejectsOtherIterations` | SecureIdentity/Password/PasswordHasher.cs:63-64 | With a separator that is safe for the stored count, a record written with another iteration count verifies false, even for the right password. |
| `HasherProperties.VerifyWithOtherSecret` | SecureIdentity/Password/PasswordHasher.cs:32-73 | A different private key gives a different PBKDF2 input. With a safe separator, and where PBKDF2 tells those inputs apart, the right password verifies false. |
| `HasherProperties.VerifyRejectsKeyOfOtherLength` | SecureIdentity/Password/PasswordHasher.cs:71-73 | A stored key whose length is not `keySize` never verifies true. |
| `HasherProperties.DistinctSaltsDistinctHashes` | SecureIdentity/Password/PasswordHasher.cs:34-42 | Two hashes of one password with different salts are different texts, for every separator. |
| `HasherProperties.DistinctSaltsDistinctRecords` | SecureIdentity/Password/PasswordHasher.cs:42 | Two records with one count and equally long but different salts are written as different texts, for every separator. |
| `HasherProperties.UnsafeSeparatorBreaksVerify` | SecureIdentity/Password/PasswordHasher.cs:42-59 | With a separator that occurs in the iteration count's text ('1', one iteration), Verify on a fresh hash raises FormatException. The safe-separator condition is therefore needed. |

## Left out

- PBKDF2 and HMAC-SHA256 internals (`Rfc2898DeriveBytes`, lines 34-38 and 66-71) are a foreign cryptographic library. They are the parameter `kdf`. Only the library's argument checks are modelled: salt size >= 0, iterations > 0, key size > 0, each raising ArgumentOutOfRangeException. The conversion of the password to UTF-8 bytes happens inside `kdf`. This follows .NET Core, which has no minimum salt length.
- Random salt generation is not modelled; the salt is an input of `Hash` of length `saltSize`.
- Timing is not expressible. `SequenceEqual` short-circuits, and the model states only functional equality.
- `using`/`Dispose` resource handling is plumbing only. The `InvalidPasswordException` class is not part of this model; only its occurrence is.
- Null strings are not values of the model. A null password is not distinguished from an empty one; both fail. A null `hash` in `Verify` would fault at line 55.
- Strings are sequences of Unicode scalar values, not of UTF-16 code units. A .NET `char` that is a lone surrogate (for example as `splitChar`) is not a Dafny `char`, and a Dafny `char` above U+FFFF is two .NET `char`s; such strings are outside the model.
- `Int32Text.Format` and `Int32Text.Parse` assume the invariant culture's '-' and '+' signs.
- `Int32Text.Parse` does not model .NET's tolerance of trailing NUL characters: .NET reads "12\0" as 12, while the model raises FormatException. `Int32Text.ParseRejectsForeignChar` and `HasherProperties.VerifyThrowsOnNonNumericIterations` inherit this.
- `Base64.Decode` follows `Convert.FromBase64String`. It skips ' ', '\t', '\r' and '\n', needs whole groups of four, and allows padding only at the end. It ignores set bits of the final symbol that fall past the last byte.
- `HasherProperties.VerifyWithOtherSecret` does not assume PBKDF2 is injective in the password. It requires only that PBKDF2 separates the two effective passwords at the given salt, count and length. Injectivity over all passwords cannot hold for a fixed key length.
