/** Password records: PBKDF2 (section 5.2 of RFC 8018) behind a `$`-separated line. */
module Passwords {

  import opened Options
  import opened Text
  import opened Base64Url

  /** `pbkdf2_hmac("sha256", ...)`: password, salt and iteration count give a digest. */
  type Kdf = (string, Bytes, nat) -> Bytes

  const ALGORITHM := "pbkdf2_sha256"
  const DEMO_ITERATIONS: nat := 120_000
  const ITERATIONS: nat := 600_000

  function WorkFactor(demo: bool): nat {
    if demo then DEMO_ITERATIONS else ITERATIONS
  }

  /** `salt or secrets.token_bytes(16)`. */
  function SaltOr(salt: Option<Bytes>, random: Bytes): Bytes {
    if salt.Some? && salt.value != [] then salt.value else random
  }

  function HashPassword(kdf: Kdf, demo: bool, password: string, salt: Option<Bytes>, random: Bytes): string {
    var s := SaltOr(salt, random);
    ALGORITHM + "$" + Decimal(WorkFactor(demo)) + "$" + Encode(s) + "$" + Encode(kdf(password, s, WorkFactor(demo)))
  }

  /** `Raises` is the base64 error, which `verify_password` does not catch. */
  datatype Verdict = Accepted | Rejected | Raises

  datatype Record = NoRecord | Record(algorithm: string, iterations: int, salt: string, digest: string)

  /** The fields of a record; three fields are the older format. */
  function Fields(hash: string): Record {
    var parts := Split(hash, '$', |hash|);
    if |parts| == 3 then Record(parts[0], DEMO_ITERATIONS, parts[1], parts[2])
    else if |parts| == 4 then
      match PythonInt(parts[1])
      case None => NoRecord
      case Some(n) => Record(parts[0], n, parts[2], parts[3])
    else NoRecord
  }

  function VerifyPassword(kdf: Kdf, password: string, hash: string): Verdict {
    var f := Fields(hash);
    if f.NoRecord? || f.algorithm != ALGORITHM then Rejected
    else
      var salt, expected := Decode(f.salt), Decode(f.digest);
      if !salt.Ok? || !expected.Ok? then Raises
      else if f.iterations < 1 || f.iterations > 2_000_000 then Rejected
      else if kdf(password, salt.bytes, f.iterations) == expected.bytes then Accepted
      else Rejected
  }

  lemma JoinFour(a: string, b: string, c: string, d: string, sep: char)
    ensures Join([a, b, c, d], sep) == a + [sep] + b + [sep] + c + [sep] + d
  {
    assert [a, b, c, d][1..] == [b, c, d];
    JoinThree(b, c, d, sep);
  }

  /** A record with these four fields reads back as them. */
  lemma FourFields(iterations: nat, salt: Bytes, digest: Bytes)
    requires |Decimal(iterations)| <= MAX_DIGITS
    ensures Fields(ALGORITHM + "$" + Decimal(iterations) + "$" + Encode(salt) + "$" + Encode(digest)) ==
            Record(ALGORITHM, iterations, Encode(salt), Encode(digest))
  {
    NoSeparators(salt);
    NoSeparators(digest);
    FourParse(Decimal(iterations), Encode(salt), Encode(digest));
    IntOfStr(iterations);
  }

  lemma ThreeFields(salt: Bytes, digest: Bytes)
    ensures Fields(ALGORITHM + "$" + Encode(salt) + "$" + Encode(digest)) ==
            Record(ALGORITHM, DEMO_ITERATIONS, Encode(salt), Encode(digest))
  {
    NoSeparators(salt);
    NoSeparators(digest);
    ThreeParse(Encode(salt), Encode(digest));
  }

  /** A hash issued in either mode verifies, in either mode, for exactly the passwords with the
      same digest: in particular for its own password. */
  lemma IssuedHashesVerify(kdf: Kdf, demo: bool, password: string, salt: Option<Bytes>, random: Bytes, attempt: string)
    ensures var s, n := SaltOr(salt, random), WorkFactor(demo);
            VerifyPassword(kdf, attempt, HashPassword(kdf, demo, password, salt, random)) ==
            if kdf(attempt, s, n) == kdf(password, s, n) then Accepted else Rejected
    ensures VerifyPassword(kdf, password, HashPassword(kdf, demo, password, salt, random)) == Accepted
  {
    var s, n := SaltOr(salt, random), WorkFactor(demo);
    WorkFactors();
    FourFields(n, s, kdf(password, s, n));
    RoundTrip(s);
    RoundTrip(kdf(password, s, n));
  }

  /** Records from before the work factor was stored verify at 120000 iterations. */
  lemma LegacyHashesVerify(kdf: Kdf, password: string, salt: Bytes, attempt: string)
    ensures VerifyPassword(kdf, attempt,
              ALGORITHM + "$" + Encode(salt) + "$" + Encode(kdf(password, salt, DEMO_ITERATIONS))) ==
            if kdf(attempt, salt, DEMO_ITERATIONS) == kdf(password, salt, DEMO_ITERATIONS) then Accepted else Rejected
  {
    ThreeFields(salt, kdf(password, salt, DEMO_ITERATIONS));
    RoundTrip(salt);
    RoundTrip(kdf(password, salt, DEMO_ITERATIONS));
  }

  ghost predicate IsRecord(hash: string, iterations: int, salt: string, digest: string) {
    '$' !in salt && '$' !in digest &&
    ((iterations == 120_000 && hash == "pbkdf2_sha256" + "$" + salt + "$" + digest) ||
     exists raw :: '$' !in raw && PythonInt(raw) == Some(iterations) &&
                   hash == "pbkdf2_sha256" + "$" + raw + "$" + salt + "$" + digest)
  }

  lemma ThreeParse(salt: string, digest: string)
    requires '$' !in salt && '$' !in digest
    ensures Fields(ALGORITHM + "$" + salt + "$" + digest) == Record(ALGORITHM, DEMO_ITERATIONS, salt, digest)
  {
    JoinThree(ALGORITHM, salt, digest, '$');
    SplitAll([ALGORITHM, salt, digest], '$');
  }

  lemma FourParse(raw: string, salt: string, digest: string)
    requires '$' !in raw && '$' !in salt && '$' !in digest
    ensures Fields(ALGORITHM + "$" + raw + "$" + salt + "$" + digest) ==
            if PythonInt(raw).Some? then Record(ALGORITHM, PythonInt(raw).value, salt, digest) else NoRecord
  {
    JoinFour(ALGORITHM, raw, salt, digest, '$');
    SplitAll([ALGORITHM, raw, salt, digest], '$');
  }

  /** Every string that yields the fields is one of the two joined forms. */
  lemma FieldsJoin(hash: string)
    ensures Fields(hash).Record? ==>
              var f := Fields(hash);
              '$' !in f.salt && '$' !in f.digest &&
              ((f.iterations == DEMO_ITERATIONS && hash == f.algorithm + "$" + f.salt + "$" + f.digest) ||
               exists raw :: '$' !in raw && PythonInt(raw) == Some(f.iterations) &&
                             hash == f.algorithm + "$" + raw + "$" + f.salt + "$" + f.digest)
  {
    var parts := Split(hash, '$', |hash|);
    JoinSplit(hash, '$', |hash|);
    SplitsFar(hash);
    if |parts| == 3 {
      assert parts == [parts[0], parts[1], parts[2]];
      JoinThree(parts[0], parts[1], parts[2], '$');
    } else if |parts| == 4 {
      assert parts == [parts[0], parts[1], parts[2], parts[3]];
      JoinFour(parts[0], parts[1], parts[2], parts[3], '$');
    }
  }

  lemma RecordMeaning(hash: string, iterations: int, salt: string, digest: string)
    ensures IsRecord(hash, iterations, salt, digest) <==>
            Fields(hash) == Record(ALGORITHM, iterations, salt, digest)
  {
    if IsRecord(hash, iterations, salt, digest) {
      if iterations == DEMO_ITERATIONS && hash == ALGORITHM + "$" + salt + "$" + digest {
        ThreeParse(salt, digest);
      } else {
        var raw :| '$' !in raw && PythonInt(raw) == Some(iterations) &&
                   hash == ALGORITHM + "$" + raw + "$" + salt + "$" + digest;
        FourParse(raw, salt, digest);
      }
    }
    FieldsJoin(hash);
  }

  /** A string of n characters holds at most n separators, so the split is never cut off. */
  lemma SplitsFar(s: string)
    ensures forall i :: 0 <= i < |Split(s, '$', |s|)| ==> '$' !in Split(s, '$', |s|)[i]
  {
    JoinSplit(s, '$', |s|);
    var parts := Split(s, '$', |s|);
    if |parts| == |s| + 1 { FullyCut(parts, '$'); }
  }

  lemma {:induction false} FullyCut(parts: seq<string>, sep: char)
    requires parts != [] && |Join(parts, sep)| + 1 == |parts|
    ensures parts[|parts| - 1] == ""
  {
    if |parts| > 1 {
      JoinIsLonger(parts[1..], sep);
      FullyCut(parts[1..], sep);
    }
  }

  /** What is accepted, and what makes the function raise, for any string at all. */
  lemma VerdictMeaning(kdf: Kdf, password: string, hash: string)
    ensures VerifyPassword(kdf, password, hash).Accepted? <==>
            exists n: int, salt: string, digest: string ::
              IsRecord(hash, n, salt, digest) && Decode(salt).Ok? && 1 <= n <= 2_000_000 &&
              Decode(digest) == Ok(kdf(password, Decode(salt).bytes, n))
    ensures VerifyPassword(kdf, password, hash).Raises? <==>
            exists n: int, salt: string, digest: string ::
              IsRecord(hash, n, salt, digest) && !(Decode(salt).Ok? && Decode(digest).Ok?)
  {
    var f := Fields(hash);
    if f.Record? { RecordMeaning(hash, f.iterations, f.salt, f.digest); }
    forall n, salt, digest | IsRecord(hash, n, salt, digest) ensures f == Record(ALGORITHM, n, salt, digest) {
      RecordMeaning(hash, n, salt, digest);
    }
  }

  /** Such a record: malformed base64 is an exception, not a wrong password. */
  lemma MalformedRecordRaises(kdf: Kdf, password: string)
    ensures VerifyPassword(kdf, password, "pbkdf2_sha256$A$A") == Raises
  {
    OneCharacterIsMalformed();
    ThreeParse("A", "A");
    assert ALGORITHM + "$" + "A" + "$" + "A" == "pbkdf2_sha256$A$A";
  }

  lemma WorkFactors()
    ensures Decimal(120_000) == "120000" && Decimal(600_000) == "600000"
  {
    assert Decimal(12) == "12" && Decimal(60) == "60";
    assert Decimal(120) == "120" && Decimal(600) == "600";
    assert Decimal(1_200) == "1200" && Decimal(6_000) == "6000";
    assert Decimal(12_000) == "12000" && Decimal(60_000) == "60000";
  }

  /** The record `hash_password` issues: the given salt, or the random one for a missing or empty
      salt, and the work factor of the mode, in the text and in the derivation. */
  lemma HashMeaning(kdf: Kdf, password: string, salt: Option<Bytes>, random: Bytes)
    ensures var s := if salt == None || salt == Some([]) then random else salt.value;
      && HashPassword(kdf, true, password, salt, random) ==
           "pbkdf2_sha256" + "$" + "120000" + "$" + Encode(s) + "$" + Encode(kdf(password, s, 120_000))
      && HashPassword(kdf, false, password, salt, random) ==
           "pbkdf2_sha256" + "$" + "600000" + "$" + Encode(s) + "$" + Encode(kdf(password, s, 600_000))
  {
    WorkFactors();
  }
}
