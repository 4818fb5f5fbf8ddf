/** The substitution cipher of mykeychain.py (caesar_cipher): every character found in the
    charset moves a fixed number of places along it, wrapping round; every other
    character is copied. The charset is a parameter here instead of a global. */
module Cipher {

  const Digits: string := "0123456789"
  const Lowercase: string := "abcdefghijklmnopqrstuvwxyz"
  const Uppercase: string := "ABCDEFGHIJKLMNOPQRSTUVWXYZ"
  const Punctuation: string := "!\"#$%&'()*+,-./:;<=>?@[\\]^_`{|}~"

  /** The charset written when no charset file exists: the 94 printable ASCII characters
      other than space, in the order digits, lower case, upper case, punctuation. */
  const DefaultCharset: string := Digits + Lowercase + Uppercase + Punctuation

  /** No character occurs twice. */
  predicate Distinct(cs: string) {
    forall i, j :: 0 <= i < j < |cs| ==> cs[i] != cs[j]
  }

  /** str.index: the position of the first occurrence. */
  function IndexOf(cs: string, c: char): (i: nat)
    requires c in cs
    ensures i < |cs| && cs[i] == c
    ensures forall j :: 0 <= j < i ==> cs[j] != c
  {
    if cs[0] == c then 0 else 1 + IndexOf(cs[1..], c)
  }

  /** In a charset without repeats, the position of cs[j] is j. */
  lemma IndexOfDistinct(cs: string, j: nat)
    requires Distinct(cs) && j < |cs|
    ensures IndexOf(cs, cs[j]) == j
  {
  }

  function Direction(decrypt: bool): int {
    if decrypt then -1 else 1
  }

  /** What the loop body of caesar_cipher emits for one character. */
  function ShiftChar(cs: string, c: char, shift: int, decrypt: bool): char {
    if c in cs then cs[(IndexOf(cs, c) + Direction(decrypt) * shift) % |cs|] else c
  }

  /** caesar_cipher(text, shift, decrypt) as a function: the characters emitted so far,
      one per input character. */
  function Transform(cs: string, text: string, shift: int, decrypt: bool): (r: string)
    ensures |r| == |text|
  {
    if text == [] then []
    else Transform(cs, text[..|text| - 1], shift, decrypt) + [ShiftChar(cs, text[|text| - 1], shift, decrypt)]
  }

  /** caesar_cipher: an early return for the empty text, then a loop that appends one
      character per input character. */
  method CaesarCipher(cs: string, text: string, shift: int, decrypt: bool) returns (r: string)
    ensures r == Transform(cs, text, shift, decrypt)
  {
    if text == [] {
      return text;
    }
    var direction := if decrypt then -1 else 1;
    var result := [];
    for k := 0 to |text|
      invariant result == Transform(cs, text[..k], shift, decrypt)
    {
      var c := text[k];
      assert text[..k + 1][..k] == text[..k];
      if c in cs {
        var idx := IndexOf(cs, c);
        var newIdx := (idx + direction * shift) % |cs|;
        result := result + [cs[newIdx]];
      } else {
        result := result + [c];
      }
    }
    assert text[..|text|] == text;
    r := result;
  }

  /** Position by position: a charset character at index idx becomes the character at
      (idx + direction * shift) mod L, anything else is copied. */
  lemma {:induction false} TransformAt(cs: string, text: string, shift: int, decrypt: bool, i: nat)
    requires i < |text|
    ensures Transform(cs, text, shift, decrypt)[i] ==
      if text[i] in cs then cs[(IndexOf(cs, text[i]) + Direction(decrypt) * shift) % |cs|] else text[i]
  {
    if i < |text| - 1 {
      TransformAt(cs, text[..|text| - 1], shift, decrypt, i);
    }
  }

  /** Transform of a longer text extends the transform of its prefix. */
  lemma TransformSnoc(cs: string, text: string, c: char, shift: int, decrypt: bool)
    ensures Transform(cs, text + [c], shift, decrypt) == Transform(cs, text, shift, decrypt) + [ShiftChar(cs, c, shift, decrypt)]
  {
    assert (text + [c])[..|text|] == text;
  }

  lemma MulAtLeast(x: int, n: int)
    requires x >= 1 && n > 0
    ensures x * n >= n
  {
    assert x * n == (x - 1) * n + n;
  }

  /** (i + q*L) mod L == i for an index i of the charset. */
  lemma ModOffset(i: int, q: int, n: int)
    requires n > 0 && 0 <= i < n
    ensures (i + q * n) % n == i
  {
    var a := i + q * n;
    var d, m := a / n, a % n;
    assert a == d * n + m && 0 <= m < n;
    assert (q - d) * n == m - i;
    if q - d >= 1 {
      MulAtLeast(q - d, n);
      assert false;
    } else if d - q >= 1 {
      MulAtLeast(d - q, n);
      assert false;
    }
  }

  /** Moving forwards and then backwards by the same amount returns to the start. */
  lemma ModBack(i: int, k: int, n: int)
    requires n > 0 && 0 <= i < n
    ensures ((i + k) % n + -1 * k) % n == i
  {
    var j := (i + k) % n;
    var q := (i + k) / n;
    assert i + k == q * n + j;
    assert j + -1 * k == i + (-q) * n;
    ModOffset(i, -q, n);
  }

  /** One character: decrypting its encryption gives it back. */
  lemma ShiftCharRoundTrip(cs: string, c: char, shift: int)
    requires Distinct(cs)
    ensures ShiftChar(cs, ShiftChar(cs, c, shift, false), shift, true) == c
  {
    if c in cs {
      var i := IndexOf(cs, c);
      var j := (i + shift) % |cs|;
      IndexOfDistinct(cs, j);
      ModBack(i, shift, |cs|);
    }
  }

  /** The round trip of the cipher: with a charset without repeats, decrypting with the
      shift used to encrypt restores the text, for every integer shift. */
  lemma {:induction false} RoundTrip(cs: string, text: string, shift: int)
    requires Distinct(cs)
    ensures Transform(cs, Transform(cs, text, shift, false), shift, true) == text
  {
    if text != [] {
      var init, last := text[..|text| - 1], text[|text| - 1];
      RoundTrip(cs, init, shift);
      TransformSnoc(cs, Transform(cs, init, shift, false), ShiftChar(cs, last, shift, false), shift, true);
      ShiftCharRoundTrip(cs, last, shift);
      assert text == init + [last];
    }
  }

  /** A shift that is a whole number of turns (in particular 0) changes nothing. */
  lemma {:induction false} WholeTurnsIdentity(cs: string, text: string, shift: int, decrypt: bool)
    requires cs == [] || shift % |cs| == 0
    ensures Transform(cs, text, shift, decrypt) == text
  {
    forall i | 0 <= i < |text| ensures Transform(cs, text, shift, decrypt)[i] == text[i] {
      TransformAt(cs, text, shift, decrypt, i);
      if text[i] in cs {
        var q := shift / |cs|;
        assert shift == q * |cs|;
        assert Direction(decrypt) * shift == (Direction(decrypt) * q) * |cs|;
        ModOffset(IndexOf(cs, text[i]), Direction(decrypt) * q, |cs|);
      }
    }
  }

  /** Text without charset characters passes through unchanged, whatever the shift. */
  lemma {:induction false} OutsideCharsetUnchanged(cs: string, text: string, shift: int, decrypt: bool)
    requires forall i :: 0 <= i < |text| ==> text[i] !in cs
    ensures Transform(cs, text, shift, decrypt) == text
  {
    forall i | 0 <= i < |text| ensures Transform(cs, text, shift, decrypt)[i] == text[i] {
      TransformAt(cs, text, shift, decrypt, i);
    }
  }

  /** Charset characters stay charset characters. */
  lemma {:induction false} TransformStaysInCharset(cs: string, text: string, shift: int, decrypt: bool, i: nat)
    requires i < |text|
    ensures text[i] in cs <==> Transform(cs, text, shift, decrypt)[i] in cs
  {
    TransformAt(cs, text, shift, decrypt, i);
  }

  // Facts about the default charset.

  predicate Rising(s: string) {
    forall i :: 0 <= i < |s| - 1 ==> s[i] < s[i + 1]
  }

  lemma {:induction false} RisingDistinct(s: string)
    requires Rising(s)
    ensures Distinct(s)
    ensures forall i, j :: 0 <= i <= j < |s| ==> s[i] <= s[j]
    decreases |s|
  {
    if |s| > 1 {
      RisingDistinct(s[1..]);
      forall j | 0 < j < |s| ensures s[0] < s[j] {
        assert s[1..][j - 1] == s[j] && s[1..][0] == s[1];
      }
      forall i, j | 0 <= i < j < |s| ensures s[i] < s[j] {
        if i > 0 {
          assert s[1..][i - 1] == s[i] && s[1..][j - 1] == s[j];
        }
      }
    }
  }

  lemma DistinctConcat(a: string, b: string)
    requires Distinct(a) && Distinct(b)
    requires forall i, j :: 0 <= i < |a| && 0 <= j < |b| ==> a[i] != b[j]
    ensures Distinct(a + b)
  {
    var ab := a + b;
    forall i, j | 0 <= i < j < |ab| ensures ab[i] != ab[j] {
      if j < |a| {
      } else if i >= |a| {
        assert ab[i] == b[i - |a|] && ab[j] == b[j - |a|];
      } else {
        assert ab[i] == a[i] && ab[j] == b[j - |a|];
      }
    }
  }

  /** `s` is the run of consecutive codes starting at `first`. */
  predicate Run(s: string, first: char) {
    forall i :: 0 <= i < |s| ==> s[i] as int == first as int + i
  }

  /** The digits and the two alphabets are runs of consecutive codes. */
  lemma RunsOfCodes()
    ensures |Digits| == 10 && Run(Digits, '0')
    ensures |Lowercase| == 26 && Run(Lowercase, 'a')
    ensures |Uppercase| == 26 && Run(Uppercase, 'A')
  {
  }

  /** A run of codes from `first` to `last` stays within them and rises. */
  lemma RunBounds(s: string, first: char, last: char)
    requires Run(s, first) && first as int + |s| - 1 == last as int
    ensures forall i :: 0 <= i < |s| ==> first <= s[i] <= last
    ensures Rising(s)
  {
  }

  /** The punctuation block lies in the four ranges of ASCII punctuation, in rising order. */
  lemma PunctuationBounds()
    ensures forall i :: 0 <= i < |Punctuation| ==>
      ('!' <= Punctuation[i] <= '/') || (':' <= Punctuation[i] <= '@') ||
      ('[' <= Punctuation[i] <= '`') || ('{' <= Punctuation[i] <= '~')
  {
  }

  lemma PunctuationRising()
    ensures Rising(Punctuation)
  {
  }

  lemma BlockBounds()
    ensures forall i :: 0 <= i < |Digits| ==> '0' <= Digits[i] <= '9'
    ensures forall i :: 0 <= i < |Lowercase| ==> 'a' <= Lowercase[i] <= 'z'
    ensures forall i :: 0 <= i < |Uppercase| ==> 'A' <= Uppercase[i] <= 'Z'
    ensures forall i :: 0 <= i < |Punctuation| ==>
      ('!' <= Punctuation[i] <= '/') || (':' <= Punctuation[i] <= '@') ||
      ('[' <= Punctuation[i] <= '`') || ('{' <= Punctuation[i] <= '~')
    ensures Rising(Digits) && Rising(Lowercase) && Rising(Uppercase) && Rising(Punctuation)
  {
    RunsOfCodes();
    RunBounds(Digits, '0', '9');
    RunBounds(Lowercase, 'a', 'z');
    RunBounds(Uppercase, 'A', 'Z');
    PunctuationBounds();
    PunctuationRising();
  }

  /** The default charset has 94 characters, none twice, and '!' among them. */
  lemma DefaultCharsetDistinct()
    ensures |DefaultCharset| == 94
    ensures Distinct(DefaultCharset)
    ensures DefaultCharset[62] == '!' && '!' in DefaultCharset
  {
    BlockBounds();
    RisingDistinct(Digits);
    RisingDistinct(Lowercase);
    RisingDistinct(Uppercase);
    RisingDistinct(Punctuation);
    DistinctConcat(Digits, Lowercase);
    DistinctConcat(Digits + Lowercase, Uppercase) by {
      forall i | 0 <= i < |Digits + Lowercase| ensures (Digits + Lowercase)[i] < 'A' || 'Z' < (Digits + Lowercase)[i] {
        if i >= |Digits| {
          assert (Digits + Lowercase)[i] == Lowercase[i - |Digits|];
        }
      }
    }
    DistinctConcat(Digits + Lowercase + Uppercase, Punctuation) by {
      var front := Digits + Lowercase + Uppercase;
      forall i | 0 <= i < |front| ensures ('0' <= front[i] <= '9') || ('a' <= front[i] <= 'z') || ('A' <= front[i] <= 'Z') {
        if i >= |Digits + Lowercase| {
          assert front[i] == Uppercase[i - |Digits + Lowercase|];
        } else if i >= |Digits| {
          assert front[i] == Lowercase[i - |Digits|];
        }
      }
    }
  }

  /** Every character of the default charset is printable ASCII other than space. */
  lemma DefaultCharsetAscii()
    ensures forall i :: 0 <= i < |DefaultCharset| ==> '!' <= DefaultCharset[i] <= '~'
  {
    BlockBounds();
    forall i | 0 <= i < |DefaultCharset| ensures '!' <= DefaultCharset[i] <= '~' {
      var front := Digits + Lowercase + Uppercase;
      if i >= |front| {
        assert DefaultCharset[i] == Punctuation[i - |front|];
      } else if i >= |Digits + Lowercase| {
        assert DefaultCharset[i] == Uppercase[i - |Digits + Lowercase|];
      } else if i >= |Digits| {
        assert DefaultCharset[i] == Lowercase[i - |Digits|];
      } else {
        assert DefaultCharset[i] == Digits[i];
      }
    }
  }

  /** In the default charset the position of the j-th character is j. */
  lemma DefaultIndexOf(j: nat)
    requires j < |DefaultCharset|
    ensures IndexOf(DefaultCharset, DefaultCharset[j]) == j
  {
    DefaultCharsetDistinct();
    IndexOfDistinct(DefaultCharset, j);
  }

  lemma DefaultCharsetAt()
    ensures DefaultCharset[10] == 'a' && DefaultCharset[11] == 'b'
    ensures DefaultCharset[12] == 'c' && DefaultCharset[13] == 'd'
    ensures DefaultCharset[62] == '!' && DefaultCharset[63] == '"'
  {
    RunsOfCodes();
    var front := Digits + Lowercase;
    var back := Uppercase + Punctuation;
    assert DefaultCharset == front + back;
    assert DefaultCharset[10] == Lowercase[0] && DefaultCharset[11] == Lowercase[1];
    assert DefaultCharset[12] == Lowercase[2] && DefaultCharset[13] == Lowercase[3];
    assert Punctuation[..2] == "!\"";
    assert DefaultCharset[62] == back[26] == Punctuation[0];
    assert DefaultCharset[63] == back[27] == Punctuation[1];
  }

  /** "bcd" shifted by -1 is "abc", in any charset without repeats that has "abcd" at
      positions 10 to 13 as the default one has. */
  lemma ShiftByMinusOneIn(cs: string)
    requires Distinct(cs) && |cs| == 94
    requires cs[10] == 'a' && cs[11] == 'b' && cs[12] == 'c' && cs[13] == 'd'
    ensures Transform(cs, "bcd", -1, false) == "abc"
  {
    IndexOfDistinct(cs, 11);
    IndexOfDistinct(cs, 12);
    IndexOfDistinct(cs, 13);
    var r := Transform(cs, "bcd", -1, false);
    TransformAt(cs, "bcd", -1, false, 0);
    TransformAt(cs, "bcd", -1, false, 1);
    TransformAt(cs, "bcd", -1, false, 2);
    assert r == [r[0], r[1], r[2]];
  }

  lemma ShiftByMinusOne()
    ensures Transform(DefaultCharset, "bcd", -1, false) == "abc"
  {
    DefaultCharsetDistinct();
    DefaultCharsetAt();
    ShiftByMinusOneIn(DefaultCharset);
  }

  /** Cyrillic text is outside the default charset and passes through any shift. */
  lemma CyrillicUnchanged(shift: int, decrypt: bool)
    ensures Transform(DefaultCharset, "Привет", shift, decrypt) == "Привет"
  {
    DefaultCharsetAscii();
    OutsideCharsetUnchanged(DefaultCharset, "Привет", shift, decrypt);
  }

  /** '!' belongs to the default charset, so it is shifted too: encrypting "a!b" is not
      encrypting "a" and "b" around an unchanged '!'. */
  lemma ExclamationIsShiftedIn(cs: string)
    requires Distinct(cs) && |cs| == 94 && cs[62] == '!' && cs[63] == '"'
    ensures Transform(cs, "a!b", 1, false) != Transform(cs, "a", 1, false) + "!" + Transform(cs, "b", 1, false)
  {
    IndexOfDistinct(cs, 62);
    TransformAt(cs, "a!b", 1, false, 1);
    assert Transform(cs, "a!b", 1, false)[1] == '"';
    var rhs := Transform(cs, "a", 1, false) + "!" + Transform(cs, "b", 1, false);
    assert rhs[1] == '!';
  }

  lemma ExclamationIsShifted()
    ensures Transform(DefaultCharset, "a!b", 1, false) !=
            Transform(DefaultCharset, "a", 1, false) + "!" + Transform(DefaultCharset, "b", 1, false)
  {
    DefaultCharsetDistinct();
    DefaultCharsetAt();
    ExclamationIsShiftedIn(DefaultCharset);
  }
}
