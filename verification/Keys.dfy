/**
 WireGuard public keys: `wgtypes.ParseKey`, which decodes standard base64 and
 wants 32 bytes. Two different strings can be the same key: line breaks are
 skipped and the two spare bits of the last digit are dropped.
 */
module Keys {
  import opened Wrappers

  /** The 43 base64 digits of a key, the last one with its spare bits cleared. */
  datatype Key = Key(digits: seq<nat>)

  function Sextet(c: char): Option<nat> {
    if 'A' <= c <= 'Z' then Some(c as nat - 'A' as nat)
    else if 'a' <= c <= 'z' then Some(c as nat - 'a' as nat + 26)
    else if '0' <= c <= '9' then Some(c as nat - '0' as nat + 52)
    else if c == '+' then Some(62)
    else if c == '/' then Some(63)
    else None
  }

  function WithoutLineBreaks(s: string): string {
    if s == "" then ""
    else if s[0] == '\r' || s[0] == '\n' then WithoutLineBreaks(s[1..])
    else [s[0]] + WithoutLineBreaks(s[1..])
  }

  function ParseKey(s: string): Option<Key> {
    var t := WithoutLineBreaks(s);
    if |t| == 44 && t[43] == '=' && forall i | 0 <= i < 43 :: Sextet(t[i]).Some? then
      Some(Key(seq(43, i requires 0 <= i < 43 => if i == 42 then Sextet(t[i]).value / 4 * 4 else Sextet(t[i]).value)))
    else
      None
  }

  /** A key of one repeated digit. */
  function Repeated(c: char): string {
    seq(43, i => c) + "="
  }

  lemma {:induction false} NothingToSkip(s: string)
    requires '\r' !in s && '\n' !in s
    ensures WithoutLineBreaks(s) == s
  {
    if s != "" {
      NothingToSkip(s[1..]);
    }
  }

  lemma RepeatedParses(c: char)
    requires Sextet(c).Some?
    ensures ParseKey(Repeated(c)).Some? && |ParseKey(Repeated(c)).value.digits| == 43
    ensures ParseKey(Repeated(c)).value.digits[0] == Sextet(c).value
  {
    NothingToSkip(Repeated(c));
  }

  // ---------- exactly which strings parse, and as the same key ----------

  /** The base64 alphabet, in order: table 1 of RFC 4648. */
  const ALPHABET := "ABCDEFGHIJKLMNOPQRSTUVWXYZ" + "abcdefghijklmnopqrstuvwxyz" + "0123456789+/"

  lemma Capitals(n: nat)
    requires n < 26
    ensures ALPHABET[n] == 'A' + n as char
  {
  }

  lemma SmallLetters(n: nat)
    requires n < 26
    ensures ALPHABET[26 + n] == 'a' + n as char
  {
  }

  lemma Numerals(n: nat)
    requires n < 10
    ensures ALPHABET[52 + n] == '0' + n as char
  {
  }

  /** A digit stands for its place in the alphabet. */
  lemma SextetIsPlace(c: char, n: nat)
    ensures Sextet(c) == Some(n) <==> n < |ALPHABET| && ALPHABET[n] == c
  {
    if n < 26 {
      Capitals(n);
    } else if n < 52 {
      SmallLetters(n - 26);
    } else if n < 62 {
      Numerals(n - 52);
    }
  }

  lemma DigitsAreInAlphabet(c: char)
    ensures Sextet(c).Some? <==> c in ALPHABET
  {
    if Sextet(c).Some? {
      SextetIsPlace(c, Sextet(c).value);
    }
    if c in ALPHABET {
      var n :| 0 <= n < |ALPHABET| && ALPHABET[n] == c;
      SextetIsPlace(c, n);
    }
  }

  ghost predicate HasLineBreak(s: string) {
    '\r' in s || '\n' in s
  }

  /** Exactly which strings without line breaks are keys. */
  lemma ParsesExactlyWhen(s: string)
    requires !HasLineBreak(s)
    ensures ParseKey(s).Some? <==> |s| == 44 && s[43] == '=' && forall i | 0 <= i < 43 :: s[i] in ALPHABET
  {
    NothingToSkip(s);
    forall i | 0 <= i < |s|
      ensures Sextet(s[i]).Some? <==> s[i] in ALPHABET
    {
      DigitsAreInAlphabet(s[i]);
    }
  }

  lemma {:induction false} BreakIsSkipped(a: string, c: char, b: string)
    requires c == '\r' || c == '\n'
    ensures WithoutLineBreaks(a + [c] + b) == WithoutLineBreaks(a + b)
  {
    if a == "" {
      assert a + [c] + b == [c] + b && a + b == b;
    } else {
      assert (a + [c] + b)[1..] == a[1..] + [c] + b && (a + b)[1..] == a[1..] + b;
      BreakIsSkipped(a[1..], c, b);
    }
  }

  /** And a line break anywhere makes no difference. */
  lemma LineBreakIsIgnored(a: string, c: char, b: string)
    requires c == '\r' || c == '\n'
    ensures ParseKey(a + [c] + b) == ParseKey(a + b)
  {
    BreakIsSkipped(a, c, b);
  }

  /** What two keys have in common that are read as the same: the first 42 digits, and the
      43rd but for its two spare bits. */
  ghost predicate SameButSpareBits(s: string, t: string)
    requires |s| == |t| == 44
  {
    && s[..42] == t[..42]
    && exists m, n :: 0 <= m < |ALPHABET| && 0 <= n < |ALPHABET|
                      && ALPHABET[m] == s[42] && ALPHABET[n] == t[42] && m / 4 == n / 4
  }

  lemma SameDigit(c: char, d: char)
    requires Sextet(c).Some? && Sextet(d).Some?
    ensures Sextet(c) == Sextet(d) <==> c == d
  {
    SextetIsPlace(c, Sextet(c).value);
    SextetIsPlace(d, Sextet(d).value);
  }

  lemma SameLastDigit(c: char, d: char)
    requires Sextet(c).Some? && Sextet(d).Some?
    ensures Sextet(c).value / 4 == Sextet(d).value / 4 <==>
            exists m, n :: 0 <= m < |ALPHABET| && 0 <= n < |ALPHABET|
                           && ALPHABET[m] == c && ALPHABET[n] == d && m / 4 == n / 4
  {
    SextetIsPlace(c, Sextet(c).value);
    SextetIsPlace(d, Sextet(d).value);
    forall m, n | 0 <= m < |ALPHABET| && 0 <= n < |ALPHABET| && ALPHABET[m] == c && ALPHABET[n] == d
      ensures m == Sextet(c).value && n == Sextet(d).value
    {
      SextetIsPlace(c, m);
      SextetIsPlace(d, n);
    }
  }

  lemma KeyDigits(s: string) returns (k: Key)
    requires !HasLineBreak(s) && ParseKey(s).Some?
    ensures ParseKey(s) == Some(k) && |s| == 44 && |k.digits| == 43
    ensures forall i | 0 <= i < 43 :: Sextet(s[i]).Some?
    ensures forall i | 0 <= i < 42 :: k.digits[i] == Sextet(s[i]).value
    ensures k.digits[42] == Sextet(s[42]).value / 4 * 4
  {
    NothingToSkip(s);
    k := ParseKey(s).value;
  }

  lemma SameFirstDigits(s: string, t: string, j: seq<nat>, k: seq<nat>)
    requires |s| == |t| == 44 && |j| == |k| == 43
    requires forall i | 0 <= i < 42 :: Sextet(s[i]) == Some(j[i]) && Sextet(t[i]) == Some(k[i])
    ensures j[..42] == k[..42] <==> s[..42] == t[..42]
  {
    forall i | 0 <= i < 42
      ensures j[..42][i] == k[..42][i] <==> s[..42][i] == t[..42][i]
    {
      SameDigit(s[i], t[i]);
    }
  }

  lemma SameDigits(j: seq<nat>, k: seq<nat>, m: nat, n: nat)
    requires |j| == |k| == 43 && j[42] == m / 4 * 4 && k[42] == n / 4 * 4
    ensures j == k <==> j[..42] == k[..42] && m / 4 == n / 4
  {
    assert j == j[..42] + [j[42]] && k == k[..42] + [k[42]];
  }

  /** Exactly which strings are one key. */
  lemma SameKeyExactlyWhen(s: string, t: string)
    requires !HasLineBreak(s) && !HasLineBreak(t) && ParseKey(s).Some? && ParseKey(t).Some?
    ensures |s| == |t| == 44
    ensures ParseKey(s) == ParseKey(t) <==> SameButSpareBits(s, t)
  {
    var j := KeyDigits(s);
    var k := KeyDigits(t);
    SameFirstDigits(s, t, j.digits, k.digits);
    SameDigits(j.digits, k.digits, Sextet(s[42]).value, Sextet(t[42]).value);
    SameLastDigit(s[42], t[42]);
  }
}
