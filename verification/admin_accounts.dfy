/** Admin registration rules: the password strength check and the username
    derived from the e-mail address. */
module AdminAccounts {
  import opened Text

  /** `[\W_]`: anything that is not an ASCII letter or digit. */
  predicate IsSymbol(c: char) {
    !IsLetter(c) && !IsDigit(c)
  }

  predicate HasUpper(s: string) { exists i :: 0 <= i < |s| && IsUpper(s[i]) }
  predicate HasLower(s: string) { exists i :: 0 <= i < |s| && IsLower(s[i]) }
  predicate HasDigit(s: string) { exists i :: 0 <= i < |s| && IsDigit(s[i]) }
  predicate HasSymbol(s: string) { exists i :: 0 <= i < |s| && IsSymbol(s[i]) }

  function Flag(b: bool): nat {
    if b then 1 else 0
  }

  /** Some three of the four classes are present. */
  predicate ThreeClasses(s: string) {
    || (HasUpper(s) && HasLower(s) && HasDigit(s))
    || (HasUpper(s) && HasLower(s) && HasSymbol(s))
    || (HasUpper(s) && HasDigit(s) && HasSymbol(s))
    || (HasLower(s) && HasDigit(s) && HasSymbol(s))
  }

  /** The number of character classes present. */
  function Score(s: string): (n: nat)
    ensures n <= 4
  {
    Flag(HasUpper(s)) + Flag(HasLower(s)) + Flag(HasDigit(s)) + Flag(HasSymbol(s))
  }

  /** The password rule: at least eight characters and a score of at least
      three. */
  function PasswordOk(s: string): (ok: bool)
    ensures ok <==> |s| >= 8 && ThreeClasses(s)
  {
    |s| >= 8 && Score(s) >= 3
  }

  /** Without symbols, all three of upper case, lower case and digits are
      needed. */
  lemma NoSymbolNeedsAllThree(s: string)
    requires forall i :: 0 <= i < |s| ==> !IsSymbol(s[i])
    ensures PasswordOk(s) <==> |s| >= 8 && HasUpper(s) && HasLower(s) && HasDigit(s)
  {
  }

  /** A password of one class only is refused whatever its length. */
  lemma SingleClassRefused(s: string)
    requires forall i :: 0 <= i < |s| ==> IsLower(s[i])
    ensures !PasswordOk(s)
  {
    assert !HasUpper(s) && !HasDigit(s);
    assert !HasSymbol(s) by {
      forall i | 0 <= i < |s| ensures !IsSymbol(s[i]) {
        assert IsLower(s[i]);
      }
    }
  }

  /** `substr($email, 0, strpos($email, '@'))`: the text before the first
      `@`; with no `@` at all, `strpos` yields `false` and the result is
      empty. */
  function Username(email: string): (u: string)
    ensures '@' !in u
    ensures '@' in email ==> |u| < |email| && email[..|u|] == u && email[|u|] == '@'
    ensures '@' !in email ==> u == []
  {
    var k := IndexOf(email, '@');
    if k == |email| then []
    else
      assert forall i :: 0 <= i < k ==> email[..k][i] == email[i];
      email[..k]
  }

  /** The username of `local@domain` is `local` whenever `local` has no `@`,
      even when `domain` has one. */
  lemma UsernameOfAddress(local: string, domain: string)
    requires '@' !in local
    ensures Username(local + "@" + domain) == local
  {
    IndexOfAfter(local, '@', domain);
    var email := local + "@" + domain;
    assert email == local + ['@'] + domain;
    assert email[..|local|] == local;
  }
}
