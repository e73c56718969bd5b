/**
 * Password policy and history: the strength rule, the reuse check against the newest
 * history entries, and the append-and-trim of the history.
 */
module PasswordServices {
  import opened Wrappers
  import opened Seqs
  import opened Hasher
  import opened UserRepo
  import opened PasswordHistoryRepo

  /** Character classes, over ASCII. */
  predicate IsLower(c: char) { 'a' <= c <= 'z' }
  predicate IsUpper(c: char) { 'A' <= c <= 'Z' }
  predicate IsDigit(c: char) { '0' <= c <= '9' }

  /** The fixed set of special characters the strength rule asks for. */
  const Specials: string := "!@#$%^&*()_+-=[]{}|;:,.<>?"

  predicate IsSpecial(c: char) { c in Specials }

  /** The minimum length of a strong password. */
  const MinLength: nat := 8

  /**
   * `isPasswordStrong`: a password (null is None) is strong when it has at least eight
   * characters and at least one lowercase letter, uppercase letter, digit and special character.
   */
  function IsPasswordStrong(password: Option<string>): (r: bool)
    ensures r <==> && password.Some?
                   && |password.value| >= MinLength
                   && (exists i :: 0 <= i < |password.value| && IsLower(password.value[i]))
                   && (exists i :: 0 <= i < |password.value| && IsUpper(password.value[i]))
                   && (exists i :: 0 <= i < |password.value| && IsDigit(password.value[i]))
                   && (exists i :: 0 <= i < |password.value| && IsSpecial(password.value[i]))
  {
    if password.None? || |password.value| < MinLength then false
    else
      var p := password.value;
      AnyMatch(p, IsLower) && AnyMatch(p, IsUpper) && AnyMatch(p, IsDigit) && AnyMatch(p, IsSpecial)
  }

  /** Passwords the rule accepts. */
  lemma StrongExamples()
    ensures IsPasswordStrong(Some("Valid1!2"))
    ensures IsPasswordStrong(Some("Abc123!@"))
  {
    var v := "Valid1!2";
    assert IsUpper(v[0]) && IsLower(v[1]) && IsDigit(v[5]) && IsSpecial(v[6]);
    var a := "Abc123!@";
    assert IsUpper(a[0]) && IsLower(a[1]) && IsDigit(a[3]) && IsSpecial(a[6]);
  }

  /** Passwords the rule rejects: too short, no uppercase letter, no digit, null. */
  lemma WeakExamples()
    ensures !IsPasswordStrong(Some("short1!"))
    ensures !IsPasswordStrong(Some("alllowercase1!"))
    ensures !IsPasswordStrong(Some("NoDigits!"))
    ensures !IsPasswordStrong(None)
  {
    var w := "alllowercase1!";
    assert forall i :: 0 <= i < |w| ==> !IsUpper(w[i]);
    var n := "NoDigits!";
    assert forall i :: 0 <= i < |n| ==> !IsDigit(n[i]);
  }

  /** Whether `raw` matches the hash of some entry of `entries`. */
  function MatchesAny(encoder: PasswordEncoder, entries: seq<PasswordHistory>, raw: string): (r: bool)
    ensures r <==> exists k :: 0 <= k < |entries| && encoder.Matches(raw, entries[k].passwordHash)
  {
    AnyMatch(entries, (e: PasswordHistory) => encoder.Matches(raw, e.passwordHash))
  }

  class PasswordService {
    const passwordEncoder: PasswordEncoder
    const passwordHistoryRepository: PasswordHistoryRepository

    ghost predicate Valid()
      reads this, passwordHistoryRepository
    {
      passwordEncoder.Valid() && passwordHistoryRepository.Valid()
    }

    constructor (encoder: PasswordEncoder, history: PasswordHistoryRepository)
      requires encoder.Valid() && history.Valid()
      ensures Valid()
      ensures passwordEncoder == encoder && passwordHistoryRepository == history
    {
      passwordEncoder := encoder;
      passwordHistoryRepository := history;
    }

    /** `hashPassword`: the hash verifies against the password it was made from. */
    method HashPassword(plainPassword: string) returns (h: PasswordHash)
      requires Valid()
      modifies passwordEncoder
      ensures Valid()
      ensures VerifyPassword(plainPassword, h)
      ensures h.salt == old(passwordEncoder.nextSalt) && passwordEncoder.nextSalt > h.salt
    {
      h := passwordEncoder.Encode(plainPassword);
    }

    /**
     * `verifyPassword`: a hash made from the password verifies (the encoder being valid), and
     * under the injectivity assumption nothing else does.
     */
    function VerifyPassword(plainPassword: string, hashedPassword: PasswordHash): (r: bool)
      ensures passwordEncoder.Valid() && hashedPassword.secret == plainPassword ==> r
      ensures passwordEncoder.Exact() && r ==> hashedPassword.secret == plainPassword
    {
      passwordEncoder.Matches(plainPassword, hashedPassword)
    }

    /**
     * `isPasswordReused`: the password matches one of the user's (at most three) newest
     * history entries. A pure read of the store.
     */
    function IsPasswordReused(user: User, newPlainPassword: string): (r: bool)
      reads this, passwordHistoryRepository
      ensures var all := FindByUserIdOrderByCreatedAtDesc(passwordHistoryRepository.entries, user.id);
        r <==> exists k :: 0 <= k < |all| && k < 3 && VerifyPassword(newPlainPassword, all[k].passwordHash)
    {
      var recent := FindTop3ByUserIdOrderByCreatedAtDesc(passwordHistoryRepository.entries, user.id);
      MatchesAny(passwordEncoder, recent, newPlainPassword)
    }

    /**
     * While the user has at most three entries, checking the three newest and checking the
     * whole history agree: the reuse check here and the loop in AuthService.changePassword,
     * which reads every entry, give the same answer.
     */
    lemma ReuseChecksAgree(user: User, newPlainPassword: string)
      requires CountByUserId(passwordHistoryRepository.entries, user.id) <= 3
      ensures IsPasswordReused(user, newPlainPassword) ==
        MatchesAny(passwordEncoder, FindRecentPasswordsByUserIdWithLimit(passwordHistoryRepository.entries, user.id, 3), newPlainPassword)
    {
    }

    /**
     * `savePasswordToHistory`: save an entry, re-read the user's history newest first and
     * delete everything past the third.
     */
    method SavePasswordToHistory(user: User, newHashedPassword: PasswordHash)
      requires Valid()
      modifies passwordHistoryRepository
      ensures Valid()
      ensures var e := PasswordHistory(old(passwordHistoryRepository.clock), user.id, newHashedPassword, old(passwordHistoryRepository.clock));
        && passwordHistoryRepository.entries == SaveAndTrim(old(passwordHistoryRepository.entries), e)
        && FindByUserIdOrderByCreatedAtDesc(passwordHistoryRepository.entries, user.id)[0] == e
        && OfUser(passwordHistoryRepository.entries, user.id) == KeepLast(OfUser(old(passwordHistoryRepository.entries), user.id) + [e], 3)
        && (forall v :: v != user.id ==> OfUser(passwordHistoryRepository.entries, v) == OfUser(old(passwordHistoryRepository.entries), v))
      ensures 1 <= CountByUserId(passwordHistoryRepository.entries, user.id) <= 3
      ensures CountByUserId(old(passwordHistoryRepository.entries), user.id) <= 2 ==>
        CountByUserId(passwordHistoryRepository.entries, user.id) == CountByUserId(old(passwordHistoryRepository.entries), user.id) + 1
    {
      ghost var before := passwordHistoryRepository.entries;
      var e := passwordHistoryRepository.Save(user.id, newHashedPassword);
      SaveAndTrimSpec(before, e);
      SaveAndTrimBounds(before, e);
      var allPasswords := FindByUserIdOrderByCreatedAtDesc(passwordHistoryRepository.entries, user.id);
      if |allPasswords| > 3 {
        passwordHistoryRepository.DeleteAll(allPasswords[3..]);
      }
    }
  }
}
