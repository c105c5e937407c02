/**
 * Credential utilities of the auth procedures: the id generator, salted
 * password hashing and its check, random tokens, and the email and password
 * validators. SHA-256 is the `digest` parameter, randomness (`randomBytes`,
 * `Math.random`) and the clock (`Date.now`) are parameters too. The code
 * around them is modelled as written, except that string lengths count
 * characters where JavaScript counts UTF-16 code units.
 */
module AuthUtils {
  import opened Wrappers
  import opened Text

  /** `createHash('sha256').update(x).digest('hex')`, supplied by the caller. */
  type Digest = string -> string

  /** The shape SHA-256 hex output has: 64 lower-case hex digits. */
  ghost predicate DigestShaped(digest: Digest)
  {
    forall x :: |digest(x)| == 64 && IsHexString(digest(x))
  }

  /** A SHA-256-shaped digest never contains the ':' that separates salt from hash. */
  lemma DigestHasNoColon(digest: Digest, x: string)
    requires DigestShaped(digest)
    ensures ':' !in digest(x) && digest(x) != ""
  {
    var h := digest(x);
    assert |h| == 64 && IsHexString(h);
    forall i | 0 <= i < |h|
      ensures h[i] != ':'
    {
      assert IsHexDigit(h[i]);
    }
  }

  // ---------------------------------------------------------------- generateULID

  /**
   * `generateULID()`: `Date.now().toString(36)` followed by
   * `Math.random().toString(36).substring(2, 15)`, padded with '0' to 30
   * characters and cut to 30. `nowMs` is the clock reading and `randomText`
   * the text `Math.random().toString(36)` produced.
   */
  function GenerateUlid(nowMs: nat, randomText: string): (id: string)
    ensures |id| == 30
    ensures var raw := ToBase36(nowMs) + Substring(randomText, 2, 15);
            && (|raw| < 30 ==> id == raw + Repeat('0', 30 - |raw|))
            && (|raw| >= 30 ==> id == raw[..30])
  {
    var raw := ToBase36(nowMs) + Substring(randomText, 2, 15);
    var padded := PadEnd(raw, 30, '0');
    assert |raw| < 30 ==> padded == raw + Repeat('0', 30 - |raw|);
    Substring(padded, 0, 30)
  }

  /** The timestamp can be read back from the front of an id whose clock digits fit in it. */
  lemma UlidStartsWithTimestamp(nowMs: nat, randomText: string)
    requires |ToBase36(nowMs)| <= 30
    ensures var ts := ToBase36(nowMs);
            && GenerateUlid(nowMs, randomText)[..|ts|] == ts
            && FromBase36(GenerateUlid(nowMs, randomText)[..|ts|]) == nowMs
  {
    var ts := ToBase36(nowMs);
    var raw := ts + Substring(randomText, 2, 15);
    var id := GenerateUlid(nowMs, randomText);
    if |raw| < 30 {
      assert id[..|ts|] == raw[..|ts|];
    } else {
      assert id[..|ts|] == raw[..30][..|ts|];
    }
    assert raw[..|ts|] == ts;
    Base36RoundTrip(nowMs);
  }

  // ---------------------------------------------------------------- hashPassword / verifyPassword

  /**
   * `hashPassword(password)`: the salt is `randomBytes(16)` in hex, and the
   * stored value is `salt + ":" + sha256hex(password + salt)`.
   */
  function HashPassword(password: string, saltBytes: seq<Byte>, digest: Digest): (stored: string)
    requires |saltBytes| == 16
    ensures |stored| == 33 + |digest(password + HexEncode(saltBytes))|
    ensures stored[..32] == HexEncode(saltBytes) && IsHexString(stored[..32])
    ensures stored[32] == ':'
    ensures stored[33..] == digest(password + stored[..32])
  {
    var salt := HexEncode(saltBytes);
    salt + ":" + digest(password + salt)
  }

  /**
   * `verifyPassword(password, stored)`: `const [salt, hash] = stored.split(':')`;
   * false when either is missing or empty, otherwise whether the digest of
   * `password + salt` equals `hash`.
   */
  function VerifyPassword(password: string, stored: string, digest: Digest): (ok: bool)
    ensures ok ==> ':' in stored
  {
    var fields := Split(stored, ':');
    var salt := fields[0];
    var hash := if |fields| >= 2 then fields[1] else "";
    var ok := salt != "" && hash != "" && digest(password + salt) == hash;
    if ':' in stored then ok else SplitWithoutSeparator(stored, ':'); ok
  }

  /**
   * A stored value without ':', with an empty segment before the first ':',
   * or with an empty segment after it, never verifies.
   */
  lemma VerifyRejectsMalformed(password: string, salt: string, rest: string, digest: Digest)
    requires ':' !in salt
    requires salt == "" || rest == "" || rest[0] == ':'
    ensures !VerifyPassword(password, salt + ":" + rest, digest)
  {
    SplitAtFirst(salt, rest, ':');
    var fields := Split(salt + ":" + rest, ':');
    assert fields[0] == salt;
    var tail := Split(rest, ':');
    if rest == "" {
      assert tail == [""];
    } else if rest[0] == ':' {
      assert tail[0] == "";
    }
  }

  /**
   * Round trip: for a non-empty salt and hash without ':', the stored value
   * `salt:hash` accepts exactly the passwords whose salted digest is `hash`.
   */
  lemma {:induction false} VerifyStoredIff(password: string, salt: string, hash: string, digest: Digest)
    requires salt != "" && ':' !in salt
    requires hash != "" && ':' !in hash
    ensures VerifyPassword(password, salt + ":" + hash, digest) <==> digest(password + salt) == hash
  {
    SplitAtFirst(salt, hash, ':');
    SplitWithoutSeparator(hash, ':');
    assert Split(salt + ":" + hash, ':') == [salt, hash];
  }

  /** What `hashPassword` stores verifies the same password, for any SHA-256-shaped digest. */
  lemma HashThenVerify(password: string, saltBytes: seq<Byte>, digest: Digest)
    requires |saltBytes| == 16
    requires DigestShaped(digest)
    ensures VerifyPassword(password, HashPassword(password, saltBytes, digest), digest)
  {
    var salt := HexEncode(saltBytes);
    var hash := digest(password + salt);
    DigestHasNoColon(digest, password + salt);
    VerifyStoredIff(password, salt, hash, digest);
  }

  /** A different password verifies against `hashPassword`'s output only on a digest collision. */
  lemma HashRejectsOtherPassword(password: string, other: string, saltBytes: seq<Byte>, digest: Digest)
    requires |saltBytes| == 16
    requires DigestShaped(digest)
    ensures VerifyPassword(other, HashPassword(password, saltBytes, digest), digest)
            <==> digest(other + HexEncode(saltBytes)) == digest(password + HexEncode(saltBytes))
  {
    var salt := HexEncode(saltBytes);
    var hash := digest(password + salt);
    DigestHasNoColon(digest, password + salt);
    VerifyStoredIff(other, salt, hash, digest);
  }

  /** Two different salts give two different stored values, and each verifies the password. */
  lemma DistinctSaltsDistinctHashes(password: string, salt1: seq<Byte>, salt2: seq<Byte>, digest: Digest)
    requires |salt1| == 16 && |salt2| == 16 && salt1 != salt2
    requires DigestShaped(digest)
    ensures HashPassword(password, salt1, digest) != HashPassword(password, salt2, digest)
    ensures VerifyPassword(password, HashPassword(password, salt1, digest), digest)
    ensures VerifyPassword(password, HashPassword(password, salt2, digest), digest)
  {
    HashThenVerify(password, salt1, digest);
    HashThenVerify(password, salt2, digest);
    HexRoundTrip(salt1);
    HexRoundTrip(salt2);
  }

  // ---------------------------------------------------------------- generateToken

  /** `generateToken(length)`: `randomBytes(length)` in hex; `bytes` are the random bytes. */
  function GenerateToken(length: nat, bytes: seq<Byte>): (token: string)
    requires |bytes| == length
    ensures |token| == 2 * length && IsHexString(token) && ':' !in token
    ensures HexDecode(token) == bytes
  {
    HexRoundTrip(bytes);
    HexEncode(bytes)
  }

  // ---------------------------------------------------------------- isValidEmail

  /** One `[^\s@]+` run of the email pattern. */
  predicate EmailRun(x: string)
  {
    |x| > 0 && forall k :: 0 <= k < |x| ==> x[k] != '@' && !IsWhitespace(x[k])
  }

  /** The pattern `/^[^\s@]+@[^\s@]+\.[^\s@]+$/`, written as its three runs. */
  ghost predicate MatchesEmailPattern(s: string)
  {
    exists i, j ::
      0 < i < j < |s| && s[i] == '@' && s[j] == '.'
      && EmailRun(s[..i]) && EmailRun(s[i + 1..j]) && EmailRun(s[j + 1..])
  }

  /** The domain has a '.' that is neither its first nor its last character. */
  predicate HasInnerDot(domain: string)
  {
    exists j :: 0 < j < |domain| - 1 && domain[j] == '.'
  }

  /** The local part before the first '@' and the domain after it are runs, and the domain has an inner dot. */
  predicate EmailPartsValid(local: string, domain: string)
  {
    EmailRun(local) && EmailRun(domain) && HasInnerDot(domain)
  }

  /** `isValidEmail(email)`: whether the email matches the pattern. */
  function IsValidEmail(email: string): (ok: bool)
    ensures ok <==> MatchesEmailPattern(email)
  {
    match IndexOf(email, '@')
    case None =>
      PatternNeedsAt(email);
      false
    case Some(i) =>
      PatternGivesParts(email, i);
      PartsGivePattern(email, i);
      EmailPartsValid(email[..i], email[i + 1..])
  }

  lemma PatternNeedsAt(s: string)
    ensures MatchesEmailPattern(s) ==> '@' in s
  {
    if MatchesEmailPattern(s) {
      var i, j :| 0 < i < j < |s| && s[i] == '@' && s[j] == '.';
      assert s[i] == '@';
    }
  }

  /** An '@' that ends a run of non-'@' characters is the first '@'. */
  lemma FirstAt(s: string, i: nat, k: nat)
    requires i < |s| && s[i] == '@' && '@' !in s[..i]
    requires k < |s| && s[k] == '@' && '@' !in s[..k]
    ensures i == k
  {
    assert forall x :: 0 <= x < i ==> s[..i][x] == s[x];
    assert forall x :: 0 <= x < k ==> s[..k][x] == s[x];
  }

  /** A run may be extended by a character that is neither '@' nor whitespace. */
  lemma RunJoin(a: string, c: char, b: string)
    requires EmailRun(a) && EmailRun(b) && c != '@' && !IsWhitespace(c)
    ensures EmailRun(a + [c] + b)
  {
    var s := a + [c] + b;
    forall k | 0 <= k < |s|
      ensures s[k] != '@' && !IsWhitespace(s[k])
    {
      if k < |a| {
        assert s[k] == a[k];
      } else if k > |a| {
        assert s[k] == b[k - |a| - 1];
      }
    }
  }

  lemma RunHasNoAt(x: string)
    requires EmailRun(x)
    ensures '@' !in x
  {
    forall k | 0 <= k < |x| ensures x[k] != '@' { }
  }

  lemma PatternGivesParts(s: string, i: nat)
    requires i < |s| && s[i] == '@' && '@' !in s[..i]
    ensures MatchesEmailPattern(s) ==> EmailPartsValid(s[..i], s[i + 1..])
  {
    if MatchesEmailPattern(s) {
      PatternGivesPartsWitness(s, i);
    }
  }

  lemma PatternGivesPartsWitness(s: string, i: nat)
    requires i < |s| && s[i] == '@' && '@' !in s[..i]
    requires MatchesEmailPattern(s)
    ensures EmailPartsValid(s[..i], s[i + 1..])
  {
    var a, j :| 0 < a < j < |s| && s[a] == '@' && s[j] == '.'
               && EmailRun(s[..a]) && EmailRun(s[a + 1..j]) && EmailRun(s[j + 1..]);
    assert i == a by {
      RunHasNoAt(s[..a]);
      FirstAt(s, i, a);
    }
    DomainOfPattern(s, i, j);
  }

  /** The two runs after the '@' and the '.' between them form a domain with an inner dot. */
  lemma DomainOfPattern(s: string, i: nat, j: nat)
    requires i < j < |s| && s[j] == '.'
    requires EmailRun(s[i + 1..j]) && EmailRun(s[j + 1..])
    ensures EmailRun(s[i + 1..]) && HasInnerDot(s[i + 1..])
  {
    var mid, tail := s[i + 1..j], s[j + 1..];
    assert s[i + 1..] == mid + ['.'] + tail;
    RunJoin(mid, '.', tail);
    assert (mid + ['.'] + tail)[|mid|] == '.';
  }

  lemma PartsGivePattern(s: string, i: nat)
    requires i < |s| && s[i] == '@'
    ensures EmailPartsValid(s[..i], s[i + 1..]) ==> MatchesEmailPattern(s)
  {
    if EmailPartsValid(s[..i], s[i + 1..]) {
      PartsGivePatternWitness(s, i);
    }
  }

  lemma PartsGivePatternWitness(s: string, i: nat)
    requires i < |s| && s[i] == '@'
    requires EmailPartsValid(s[..i], s[i + 1..])
    ensures MatchesEmailPattern(s)
  {
    var domain := s[i + 1..];
    var d :| 0 < d < |domain| - 1 && domain[d] == '.';
    var j := i + 1 + d;
    assert s[i + 1..j] == domain[..d];
    assert s[j + 1..] == domain[d + 1..];
    assert EmailRun(s[i + 1..j]);
    assert EmailRun(s[j + 1..]);
  }

  /**
   * For every way of writing an email as `local + "@" + domain`, the email is
   * valid exactly when both parts are non-empty runs without '@' or
   * whitespace and the domain has a '.' that is neither first nor last.
   */
  lemma ValidEmailParts(email: string, local: string, domain: string)
    requires email == local + "@" + domain
    ensures IsValidEmail(email) <==> EmailPartsValid(local, domain)
  {
    var i := |local|;
    assert email[..i] == local && email[i + 1..] == domain && email[i] == '@';
    if '@' in local {
      assert email == local + ("@" + domain);
      CountConcat(local, "@" + domain, '@');
      CountConcat("@", domain, '@');
      assert Count("@", '@') == 1;
      assert Count(email, '@') >= 2;
      if IsValidEmail(email) {
        ValidEmailShape(email);
      }
    } else {
      var r := IndexOf(email, '@');
      FirstAt(email, i, r.value);
    }
  }

  /** An accepted email has exactly one '@' and no whitespace. */
  lemma ValidEmailShape(email: string)
    requires IsValidEmail(email)
    ensures Count(email, '@') == 1
    ensures forall k :: 0 <= k < |email| ==> !IsWhitespace(email[k])
  {
    var local, domain := ValidEmailSplit(email);
    RunHasNoAt(local);
    RunHasNoAt(domain);
    SingleAt(local, domain);
    WhitespaceFreeJoin(local, domain);
  }

  /** An accepted email is two runs joined by '@'. */
  lemma ValidEmailSplit(email: string) returns (local: string, domain: string)
    requires IsValidEmail(email)
    ensures email == local + ['@'] + domain && EmailRun(local) && EmailRun(domain)
  {
    var i := IndexOf(email, '@').value;
    local, domain := email[..i], email[i + 1..];
    assert EmailPartsValid(local, domain);
    assert email == local + ['@'] + domain;
  }

  lemma SingleAt(local: string, domain: string)
    requires '@' !in local && '@' !in domain
    ensures Count(local + ['@'] + domain, '@') == 1
  {
    CountConcat(local + ['@'], domain, '@');
    CountConcat(local, ['@'], '@');
  }

  lemma WhitespaceFreeJoin(local: string, domain: string)
    requires EmailRun(local) && EmailRun(domain)
    ensures var s := local + ['@'] + domain; forall k :: 0 <= k < |s| ==> !IsWhitespace(s[k])
  {
    var s := local + ['@'] + domain;
    forall k | 0 <= k < |s|
      ensures !IsWhitespace(s[k])
    {
      if k < |local| {
        assert s[k] == local[k];
      } else if k > |local| {
        assert s[k] == domain[k - |local| - 1];
      }
    }
  }

  // ---------------------------------------------------------------- validatePassword

  /** The four strength rules, in the order `validatePassword` checks them. */
  datatype PasswordRule = MinLength | HasUppercase | HasLowercase | HasDigit

  /** Position of a rule in the checking order. */
  function Rank(rule: PasswordRule): nat
  {
    match rule
    case MinLength => 0
    case HasUppercase => 1
    case HasLowercase => 2
    case HasDigit => 3
  }

  const TooShortMessage := "Password must be at least 8 characters long"
  const NoUppercaseMessage := "Password must contain at least one uppercase letter"
  const NoLowercaseMessage := "Password must contain at least one lowercase letter"
  const NoDigitMessage := "Password must contain at least one number"

  predicate HasCharIn(p: string, lo: char, hi: char)
  {
    exists k :: 0 <= k < |p| && lo <= p[k] <= hi
  }

  /** Length at least 8, `/[A-Z]/`, `/[a-z]/` and `/\d/`. */
  predicate RuleHolds(rule: PasswordRule, p: string)
  {
    match rule
    case MinLength => |p| >= 8
    case HasUppercase => HasCharIn(p, 'A', 'Z')
    case HasLowercase => HasCharIn(p, 'a', 'z')
    case HasDigit => HasCharIn(p, '0', '9')
  }

  function RuleMessage(rule: PasswordRule): string
  {
    match rule
    case MinLength => TooShortMessage
    case HasUppercase => NoUppercaseMessage
    case HasLowercase => NoLowercaseMessage
    case HasDigit => NoDigitMessage
  }

  /** Different rules report different messages, so a message identifies its rule. */
  lemma RuleMessagesDistinct(a: PasswordRule, b: PasswordRule)
    requires a != b
    ensures RuleMessage(a) != RuleMessage(b)
  {
    assert TooShortMessage[14] == 'b';
    assert NoUppercaseMessage[14] == 'c' && NoLowercaseMessage[14] == 'c' && NoDigitMessage[14] == 'c';
    assert NoUppercaseMessage[35] == 'u' && NoLowercaseMessage[35] == 'l' && NoDigitMessage[35] == 'n';
  }

  /** `[rule]` when `p` breaks the rule, otherwise nothing. */
  function FailureOf(rule: PasswordRule, p: string): seq<PasswordRule>
  {
    if RuleHolds(rule, p) then [] else [rule]
  }

  /** The rules `p` breaks, in checking order. */
  function FailedRules(p: string): (failed: seq<PasswordRule>)
    ensures |failed| <= 4
    ensures forall rule :: rule in failed <==> !RuleHolds(rule, p)
    ensures forall i, j :: 0 <= i < j < |failed| ==> Rank(failed[i]) < Rank(failed[j])
  {
    FailureOf(MinLength, p) + FailureOf(HasUppercase, p) + FailureOf(HasLowercase, p) + FailureOf(HasDigit, p)
  }

  /** The message of each rule, in order. */
  function Messages(rules: seq<PasswordRule>): (ms: seq<string>)
    ensures |ms| == |rules|
    ensures forall i :: 0 <= i < |rules| ==> ms[i] == RuleMessage(rules[i])
  {
    if rules == [] then [] else [RuleMessage(rules[0])] + Messages(rules[1..])
  }

  /** The error list `validatePassword` builds. */
  function PasswordErrors(p: string): (errs: seq<string>)
    ensures |errs| <= 4
    ensures forall i :: 0 <= i < |errs| ==>
              errs[i] in {TooShortMessage, NoUppercaseMessage, NoLowercaseMessage, NoDigitMessage}
  {
    Messages(FailedRules(p))
  }

  /**
   * The error list has at most four messages; a rule's message is in it
   * exactly when the password breaks that rule; the messages come in rule
   * order; and the list is empty exactly when every rule holds.
   */
  lemma PasswordErrorsCharacterised(p: string)
    ensures |PasswordErrors(p)| <= 4
    ensures forall rule :: RuleMessage(rule) in PasswordErrors(p) <==> !RuleHolds(rule, p)
    ensures forall i :: 0 <= i < |PasswordErrors(p)| ==> PasswordErrors(p)[i] == RuleMessage(FailedRules(p)[i])
    ensures forall i, j :: 0 <= i < j < |PasswordErrors(p)| ==> Rank(FailedRules(p)[i]) < Rank(FailedRules(p)[j])
    ensures PasswordErrors(p) == [] <==> forall rule :: RuleHolds(rule, p)
  {
    var failed := FailedRules(p);
    var errs := PasswordErrors(p);
    forall rule | RuleMessage(rule) in errs
      ensures !RuleHolds(rule, p)
    {
      var i :| 0 <= i < |errs| && errs[i] == RuleMessage(rule);
      if failed[i] != rule {
        RuleMessagesDistinct(failed[i], rule);
      }
    }
    forall rule | !RuleHolds(rule, p)
      ensures RuleMessage(rule) in errs
    {
      var i :| 0 <= i < |failed| && failed[i] == rule;
      assert errs[i] == RuleMessage(rule);
    }
    if errs != [] {
      assert !RuleHolds(failed[0], p);
    }
  }

  /** Appending a rule appends its message. */
  lemma MessagesSnoc(rules: seq<PasswordRule>, rule: PasswordRule)
    ensures Messages(rules + [rule]) == Messages(rules) + [RuleMessage(rule)]
  {
    assert forall i :: 0 <= i < |rules| ==> (rules + [rule])[i] == rules[i];
  }

  /**
   * `validatePassword(password)`: pushes one message per failed rule, in rule
   * order, and reports valid exactly when none failed.
   */
  method ValidatePassword(password: string) returns (isValid: bool, errors: seq<string>)
    ensures errors == PasswordErrors(password)
    ensures isValid <==> errors == []
    ensures isValid <==> |password| >= 8 && HasCharIn(password, 'A', 'Z')
                         && HasCharIn(password, 'a', 'z') && HasCharIn(password, '0', '9')
  {
    ghost var failed: seq<PasswordRule> := [];
    errors := [];

    if |password| < 8 {
      MessagesSnoc(failed, MinLength);
      errors, failed := errors + [TooShortMessage], failed + [MinLength];
    }
    assert failed == FailureOf(MinLength, password);

    if !HasCharIn(password, 'A', 'Z') {
      MessagesSnoc(failed, HasUppercase);
      errors, failed := errors + [NoUppercaseMessage], failed + [HasUppercase];
    }
    assert failed == FailureOf(MinLength, password) + FailureOf(HasUppercase, password);

    if !HasCharIn(password, 'a', 'z') {
      MessagesSnoc(failed, HasLowercase);
      errors, failed := errors + [NoLowercaseMessage], failed + [HasLowercase];
    }
    assert failed == FailureOf(MinLength, password) + FailureOf(HasUppercase, password)
                     + FailureOf(HasLowercase, password);

    if !HasCharIn(password, '0', '9') {
      MessagesSnoc(failed, HasDigit);
      errors, failed := errors + [NoDigitMessage], failed + [HasDigit];
    }
    assert failed == FailedRules(password);
    assert errors == Messages(failed);

    isValid := |errors| == 0;
  }
}
