/** generate_password and the answers generate_and_show_password reads. The random
    choices become a parameter: `picks[i]` is the index secrets.choice would draw for the
    i-th character. */
module Generator {
  import opened Text
  import opened Cipher

  /** string.ascii_letters. */
  const Letters: string := Lowercase + Uppercase

  /** The special characters generate_password may add. */
  const Specials: string := "!@#$%^&*"

  /** The characters generate_password draws from: the letters, then the digits and the
      specials when asked for. */
  function Alphabet(letters: string, digits: string, specials: string, useDigits: bool, useSpecial: bool): string {
    letters + (if useDigits then digits else []) + (if useSpecial then specials else [])
  }

  function Pool(useDigits: bool, useSpecial: bool): (pool: string)
    ensures |pool| >= 52
  {
    Alphabet(Letters, Digits, Specials, useDigits, useSpecial)
  }

  /** `length` draws from `pool`, each given by `picks` (none for a negative length). */
  function Draw(pool: string, length: int, picks: seq<nat>): (pwd: string)
    requires pool != [] && |picks| >= length
    ensures |pwd| == if length < 0 then 0 else length
    ensures forall i :: 0 <= i < |pwd| ==> pwd[i] in pool
  {
    seq(if length < 0 then 0 else length, i requires 0 <= i < |picks| => pool[picks[i] % |pool|])
  }

  /** ''.join(choice(chars) for _ in range(length)). */
  function GeneratePassword(length: int, useDigits: bool, useSpecial: bool, picks: seq<nat>): string
    requires |picks| >= length
  {
    Draw(Pool(useDigits, useSpecial), length, picks)
  }

  /** The draws that produce `pwd`. */
  function PicksFor(pool: string, pwd: string): (picks: seq<nat>)
    requires forall i :: 0 <= i < |pwd| ==> pwd[i] in pool
    ensures |picks| == |pwd|
    ensures forall i :: 0 <= i < |pwd| ==> picks[i] < |pool| && pool[picks[i]] == pwd[i]
  {
    seq(|pwd|, i requires 0 <= i < |pwd| => IndexOf(pool, pwd[i]))
  }

  /** Every string over the pool can be drawn. */
  lemma DrawCovers(pool: string, pwd: string)
    requires pool != [] && forall i :: 0 <= i < |pwd| ==> pwd[i] in pool
    ensures Draw(pool, |pwd|, PicksFor(pool, pwd)) == pwd
  {
    var picks := PicksFor(pool, pwd);
    var g := Draw(pool, |pwd|, picks);
    forall i | 0 <= i < |pwd| ensures g[i] == pwd[i] {
      DrawAt(pool, |pwd|, picks, i);
      SmallRemainder(picks[i], |pool|);
    }
  }

  lemma SmallRemainder(k: nat, n: nat)
    requires k < n
    ensures k % n == k
  {
  }

  lemma DrawAt(pool: string, length: int, picks: seq<nat>, i: int)
    requires pool != [] && |picks| >= length && 0 <= i < length
    ensures Draw(pool, length, picks)[i] == pool[picks[i] % |pool|]
  {
  }

  /** generate_password can produce any password of the requested length made of the
      pool's characters. */
  lemma EveryPasswordPossible(pwd: string, useDigits: bool, useSpecial: bool)
    requires forall i :: 0 <= i < |pwd| ==> pwd[i] in Pool(useDigits, useSpecial)
    ensures GeneratePassword(|pwd|, useDigits, useSpecial, PicksFor(Pool(useDigits, useSpecial), pwd)) == pwd
  {
    DrawCovers(Pool(useDigits, useSpecial), pwd);
  }

  /** The membership rule of an alphabet built from two runs of letters, a run of digits and
      the specials. */
  lemma AlphabetContents(lower: string, upper: string, digits: string, specials: string,
                         useDigits: bool, useSpecial: bool, c: char)
    requires |lower| == 26 && Run(lower, 'a') && |upper| == 26 && Run(upper, 'A')
    requires |digits| == 10 && Run(digits, '0')
    ensures c in Alphabet(lower + upper, digits, specials, useDigits, useSpecial) <==>
      || ('a' <= c <= 'z') || ('A' <= c <= 'Z')
      || (useDigits && '0' <= c <= '9')
      || (useSpecial && c in specials)
  {
    var pool := Alphabet(lower + upper, digits, specials, useDigits, useSpecial);
    var n := |pool|;
    if 'a' <= c <= 'z' {
      assert pool[c as int - 'a' as int] == lower[c as int - 'a' as int];
    } else if 'A' <= c <= 'Z' {
      assert pool[26 + c as int - 'A' as int] == upper[c as int - 'A' as int];
    } else if useDigits && '0' <= c <= '9' {
      assert pool[52 + c as int - '0' as int] == digits[c as int - '0' as int];
    } else if useSpecial && c in specials {
      var k :| 0 <= k < |specials| && specials[k] == c;
      assert pool[n - |specials| + k] == c;
    }
    if c in pool {
      var k :| 0 <= k < n && pool[k] == c;
      if k < 26 {
        assert c == lower[k];
      } else if k < 52 {
        assert c == upper[k - 26];
      } else if useDigits && k < 62 {
        assert c == digits[k - 52];
      } else {
        assert useSpecial && c == specials[k - n + |specials|];
      }
    }
  }

  /** What the pool holds: ASCII letters always, digits and the specials only when asked for. */
  lemma PoolContents(useDigits: bool, useSpecial: bool, c: char)
    ensures c in Pool(useDigits, useSpecial) <==>
      || ('a' <= c <= 'z') || ('A' <= c <= 'Z')
      || (useDigits && '0' <= c <= '9')
      || (useSpecial && c in Specials)
  {
    RunsOfCodes();
    AlphabetContents(Lowercase, Uppercase, Digits, Specials, useDigits, useSpecial, c);
  }

  /** With digits switched off no digit appears, and with the specials switched off only
      letters and digits do. */
  lemma {:induction false} GeneratedRespectsFlags(length: int, useDigits: bool, useSpecial: bool, picks: seq<nat>)
    requires |picks| >= length
    ensures var pwd := GeneratePassword(length, useDigits, useSpecial, picks);
      && (!useDigits ==> forall i :: 0 <= i < |pwd| ==> !('0' <= pwd[i] <= '9'))
      && (!useSpecial ==> forall i :: 0 <= i < |pwd| ==> pwd[i] !in Specials)
  {
    var pwd := GeneratePassword(length, useDigits, useSpecial, picks);
    forall i | 0 <= i < |pwd|
      ensures (!useDigits ==> !('0' <= pwd[i] <= '9')) && (!useSpecial ==> pwd[i] !in Specials)
    {
      PoolContents(useDigits, useSpecial, pwd[i]);
    }
  }

  /** The length answer of generate_and_show_password: a stripped decimal number, every
      other answer and every number below 4 meaning 12. */
  function PasswordLength(answer: string): (n: int)
    ensures n >= 4
  {
    var text := Strip(answer);
    var n := if IsDigits(text) then ParseDigits(text) else 12;
    if n < 4 then 12 else n
  }

  /** A typed length of at least 4 is taken as it is; anything else gives the default 12. */
  lemma LengthAnswers(n: nat, answer: string)
    ensures PasswordLength(DecimalText(n)) == if n < 4 then 12 else n
    ensures !IsDigits(Strip(answer)) ==> PasswordLength(answer) == 12
  {
    DecimalTextTrimmed(n);
    ParseDecimalText(n);
  }

  /** A yes/no answer of generate_and_show_password: everything but "n", in any case and
      padding, means yes. */
  function Flag(answer: string): bool {
    Lower(Strip(answer)) != "n"
  }

  /** Only "n" and "N", however padded, mean no. */
  lemma FlagRule(answer: string)
    ensures !Flag(answer) <==> Strip(answer) == "n" || Strip(answer) == "N"
  {
    var x := Strip(answer);
    if Lower(x) == "n" {
      assert |x| == 1 && LowerChar(x[0]) == 'n';
      assert x == [x[0]];
    }
    if x == "N" {
      assert Lower(x)[0] == 'n';
    }
  }

  /** generate_and_show_password with its three answers given: the result has the chosen
      length, at least 4, and only characters the answers allow. */
  lemma GenerateAndShow(lengthAnswer: string, digitsAnswer: string, specialAnswer: string, picks: seq<nat>)
    requires |picks| >= PasswordLength(lengthAnswer)
    ensures var pwd := GeneratePassword(PasswordLength(lengthAnswer), Flag(digitsAnswer), Flag(specialAnswer), picks);
      && |pwd| == PasswordLength(lengthAnswer) >= 4
      && forall i :: 0 <= i < |pwd| ==> pwd[i] in Pool(Flag(digitsAnswer), Flag(specialAnswer))
  {
  }
}
