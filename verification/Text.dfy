/**
 The text forms the server reads and writes: decimal numbers, dotted quads,
 whitespace-separated fields and newline-terminated lines, each printer with the
 parser that undoes it.
 */
module Text {
  import opened Wrappers
  import Address

  // ---------- decimal numbers ----------

  predicate IsDigit(c: char) {
    '0' <= c <= '9'
  }

  predicate AllDigits(s: string) {
    forall i | 0 <= i < |s| :: IsDigit(s[i])
  }

  function DigitsValue(s: string): nat
    requires AllDigits(s)
  {
    if s == "" then 0 else 10 * DigitsValue(s[..|s| - 1]) + (s[|s| - 1] as int - '0' as int)
  }

  function PrintNat(n: nat): (s: string)
    ensures AllDigits(s) && |s| > 0
    ensures DigitsValue(s) == n
    ensures n > 0 ==> s[0] != '0'
  {
    var d := ['0' + (n % 10) as char];
    if n < 10 then
      assert d[..0] == "";
      d
    else
      var h := PrintNat(n / 10);
      assert (h + d)[..|h|] == h;
      h + d
  }

  function ParseNat(s: string): Option<nat> {
    if s != "" && AllDigits(s) then Some(DigitsValue(s)) else None
  }

  function PrintInt(n: int): string {
    if n < 0 then "-" + PrintNat(-n) else PrintNat(n)
  }

  /** `strconv.Atoi` up to its range check: an optional sign, then digits. */
  function ParseInt(s: string): Option<int> {
    if s != "" && s[0] == '-' then
      match ParseNat(s[1..]) case Some(n) => Some(0 - n) case None => None
    else if s != "" && s[0] == '+' then
      match ParseNat(s[1..]) case Some(n) => Some(n as int) case None => None
    else
      match ParseNat(s) case Some(n) => Some(n as int) case None => None
  }

  lemma PrintedNat(n: nat) returns (s: string)
    ensures s == PrintNat(n) && IsWord(s) && ParseNat(s) == Some(n) && IsDigit(s[0])
  {
    s := PrintNat(n);
    DigitsAreWord(s);
  }

  lemma DigitsAreWord(s: string)
    requires s != "" && AllDigits(s)
    ensures IsWord(s) && IsDigit(s[0])
  {
    assert forall c: char | IsDigit(c) :: !IsSpace(c);
  }

  lemma MinusIsWord(s: string)
    requires IsWord(s)
    ensures IsWord("-" + s) && ("-" + s)[1..] == s
  {
    assert !IsSpace('-');
  }

  lemma ParsePrintInt(n: int)
    ensures ParseInt(PrintInt(n)) == Some(n)
    ensures IsWord(PrintInt(n))
  {
    var s := PrintedNat(if n < 0 then -n else n);
    if n < 0 {
      MinusIsWord(s);
    }
  }

  /** The printed form is the only one without superfluous zeros. */
  lemma {:induction false} OnlyDigits(s: string)
    requires s != "" && AllDigits(s) && (|s| > 1 ==> s[0] != '0')
    ensures s == PrintNat(DigitsValue(s))
  {
    var n := |s| - 1;
    var d := s[n] as int - '0' as int;
    assert s == s[..n] + [s[n]];
    if n == 0 {
      assert s[..0] == "";
    } else {
      OnlyDigits(s[..n]);
      NotZero(s[..n]);
    }
  }

  lemma {:induction false} NotZero(s: string)
    requires s != "" && AllDigits(s) && s[0] != '0'
    ensures DigitsValue(s) > 0
  {
    if |s| == 1 {
      assert s[..0] == "";
    } else {
      NotZero(s[..|s| - 1]);
    }
  }

  predicate IsNumeral(s: string) {
    s != "" && AllDigits(s)
  }

  lemma UnsignedInt(s: string)
    requires s != "" ==> s[0] != '+' && s[0] != '-'
    ensures ParseInt(s) == if IsNumeral(s) then Some(DigitsValue(s) as int) else None
  {
  }

  lemma SignedInt(s: string)
    ensures ParseInt("+" + s) == if IsNumeral(s) then Some(DigitsValue(s) as int) else None
    ensures ParseInt("-" + s) == if IsNumeral(s) then Some(0 - DigitsValue(s)) else None
  {
    assert ("+" + s)[1..] == s && ("-" + s)[1..] == s;
  }

  /** What is a number: digits, with at most one sign before them. */
  lemma ParseIntExactlyWhen(s: string)
    ensures ParseInt(s).Some? <==> IsNumeral(s) || (s != "" && (s[0] == '+' || s[0] == '-') && IsNumeral(s[1..]))
  {
    if s != "" && (s[0] == '+' || s[0] == '-') {
      assert s == [s[0]] + s[1..];
      SignedInt(s[1..]);
      assert !IsDigit(s[0]);
    } else {
      UnsignedInt(s);
    }
  }

  // ---------- splitting on a separator ----------

  /** `strings.Split` for a one-character separator. */
  function Split(s: string, sep: char): (parts: seq<string>)
    ensures |parts| > 0
  {
    if s == "" then [""]
    else
      var rest := Split(s[1..], sep);
      if s[0] == sep then [""] + rest else [[s[0]] + rest[0]] + rest[1..]
  }

  lemma {:induction false} SplitAtSeparator(w: string, rest: string, sep: char)
    requires sep !in w
    ensures Split(w + [sep] + rest, sep) == [w] + Split(rest, sep)
  {
    var s := w + [sep] + rest;
    if w == "" {
      assert s[1..] == rest;
    } else {
      assert s[1..] == w[1..] + [sep] + rest;
      SplitAtSeparator(w[1..], rest, sep);
      assert [w[0]] + w[1..] == w;
    }
  }

  lemma {:induction false} SplitWithoutSeparator(w: string, sep: char)
    requires sep !in w
    ensures Split(w, sep) == [w]
  {
    if w != "" {
      SplitWithoutSeparator(w[1..], sep);
      assert [w[0]] + w[1..] == w;
    }
  }

  function Join(parts: seq<string>, sep: char): string
    requires parts != []
  {
    if |parts| == 1 then parts[0] else parts[0] + [sep] + Join(parts[1..], sep)
  }

  /** Splitting gives the parts between the separators: joined again they are the text, and
      none has a separator in it. */
  lemma {:induction false} JoinSplit(s: string, sep: char)
    ensures Join(Split(s, sep), sep) == s
    ensures forall i | 0 <= i < |Split(s, sep)| :: sep !in Split(s, sep)[i]
  {
    if s != "" {
      var rest := Split(s[1..], sep);
      JoinSplit(s[1..], sep);
      assert s == [s[0]] + s[1..];
      if s[0] == sep {
        assert ([""] + rest)[1..] == rest;
      } else {
        assert ([[s[0]] + rest[0]] + rest[1..])[1..] == rest[1..];
      }
    }
  }

  // ---------- IPv4 dotted quads ----------

  function PrintQuad(v: nat): string
    requires v < 0x1_0000_0000
  {
    Dotted(PrintNat(v / 0x100_0000), PrintNat(v / 0x1_0000 % 256), PrintNat(v / 0x100 % 256), PrintNat(v % 256))
  }

  function Dotted(a: string, b: string, c: string, d: string): string {
    a + "." + (b + "." + (c + "." + d))
  }

  /** One field of a dotted quad: 1 to 3 digits, no leading zero, at most 255. */
  function ParseOctet(s: string): (r: Option<nat>)
    ensures r.Some? ==> r.value < 256
  {
    if 1 <= |s| <= 3 && AllDigits(s) && (|s| > 1 ==> s[0] != '0') && DigitsValue(s) < 256 then
      Some(DigitsValue(s))
    else
      None
  }

  function ParseQuad(s: string): (r: Option<nat>)
    ensures r.Some? ==> r.value < 0x1_0000_0000
  {
    var parts := Split(s, '.');
    if |parts| != 4 then None
    else
      match (ParseOctet(parts[0]), ParseOctet(parts[1]), ParseOctet(parts[2]), ParseOctet(parts[3]))
      case (Some(a), Some(b), Some(c), Some(d)) =>
        Some(a * 0x100_0000 + b * 0x1_0000 + c * 0x100 + d)
      case _ => None
  }

  lemma {:induction false} DigitsLowerBound(s: string)
    requires AllDigits(s) && |s| >= 1 && s[0] != '0'
    ensures DigitsValue(s) >= 1 && (|s| >= 2 ==> DigitsValue(s) >= 10)
    ensures |s| >= 3 ==> DigitsValue(s) >= 100
    ensures |s| >= 4 ==> DigitsValue(s) >= 1000
  {
    if |s| == 1 {
      assert s[..0] == "";
    } else {
      DigitsLowerBound(s[..|s| - 1]);
    }
  }

  lemma ParsePrintOctet(n: nat) returns (s: string)
    requires n < 256
    ensures s == PrintNat(n) && ParseOctet(s) == Some(n)
    ensures '.' !in s && IsWord(s)
  {
    s := PrintNat(n);
    if n > 0 {
      DigitsLowerBound(s);
    }
  }

  lemma SplitDotted(a: string, b: string, c: string, d: string)
    requires '.' !in a && '.' !in b && '.' !in c && '.' !in d
    ensures Split(Dotted(a, b, c, d), '.') == [a, b, c, d]
  {
    SplitWithoutSeparator(d, '.');
    SplitAtSeparator(c, d, '.');
    SplitAtSeparator(b, c + "." + d, '.');
    SplitAtSeparator(a, b + "." + (c + "." + d), '.');
  }

  lemma DottedIsWord(a: string, b: string, c: string, d: string)
    requires IsWord(a) && IsWord(b) && IsWord(c) && IsWord(d)
    ensures IsWord(Dotted(a, b, c, d))
  {
    assert !IsSpace('.');
  }

  lemma ParseDotted(sa: string, sb: string, sc: string, sd: string, a: nat, b: nat, c: nat, d: nat)
    requires '.' !in sa && '.' !in sb && '.' !in sc && '.' !in sd
    requires ParseOctet(sa) == Some(a) && ParseOctet(sb) == Some(b)
    requires ParseOctet(sc) == Some(c) && ParseOctet(sd) == Some(d)
    ensures ParseQuad(Dotted(sa, sb, sc, sd)) == Some(a * 0x100_0000 + b * 0x1_0000 + c * 0x100 + d)
  {
    SplitDotted(sa, sb, sc, sd);
  }

  lemma QuadBytes(v: nat)
    requires v < 0x1_0000_0000
    ensures v / 0x100_0000 < 256
    ensures v == v / 0x100_0000 * 0x100_0000 + v / 0x1_0000 % 256 * 0x1_0000 + v / 0x100 % 256 * 0x100 + v % 256
  {
  }

  lemma ParsePrintBytes(a: nat, b: nat, c: nat, d: nat) returns (s: string)
    requires a < 256 && b < 256 && c < 256 && d < 256
    ensures s == Dotted(PrintNat(a), PrintNat(b), PrintNat(c), PrintNat(d)) && IsWord(s)
    ensures ParseQuad(s) == Some(a * 0x100_0000 + b * 0x1_0000 + c * 0x100 + d)
  {
    var sa := ParsePrintOctet(a);
    var sb := ParsePrintOctet(b);
    var sc := ParsePrintOctet(c);
    var sd := ParsePrintOctet(d);
    ParseDotted(sa, sb, sc, sd, a, b, c, d);
    DottedIsWord(sa, sb, sc, sd);
    s := Dotted(sa, sb, sc, sd);
  }

  /** The parser of dotted quads undoes the printer. */
  lemma ParsePrintQuad(v: nat)
    requires v < 0x1_0000_0000
    ensures ParseQuad(PrintQuad(v)) == Some(v)
    ensures IsWord(PrintQuad(v))
  {
    QuadBytes(v);
    var s := ParsePrintBytes(v / 0x100_0000, v / 0x1_0000 % 256, v / 0x100 % 256, v % 256);
  }

  lemma OctetIsPrinted(s: string)
    requires ParseOctet(s).Some?
    ensures s == PrintNat(ParseOctet(s).value)
  {
    OnlyDigits(s);
  }

  lemma JoinFour(parts: seq<string>)
    requires |parts| == 4
    ensures Join(parts, '.') == Dotted(parts[0], parts[1], parts[2], parts[3])
  {
    var p1 := parts[1..];
    var p2 := p1[1..];
    assert p2[1..] == [parts[3]];
    assert Join(p2, '.') == parts[2] + "." + parts[3];
    assert Join(p1, '.') == parts[1] + "." + Join(p2, '.');
  }

  lemma BytesOfQuad(a: nat, b: nat, c: nat, d: nat)
    requires a < 256 && b < 256 && c < 256 && d < 256
    ensures var v := a * 0x100_0000 + b * 0x1_0000 + c * 0x100 + d;
            v / 0x100_0000 == a && v / 0x1_0000 % 256 == b && v / 0x100 % 256 == c && v % 256 == d
  {
    var v := a * 0x100_0000 + b * 0x1_0000 + c * 0x100 + d;
    Address.DivUnique(v, 0x100_0000, a, b * 0x1_0000 + c * 0x100 + d);
    Address.DivUnique(v, 0x1_0000, a * 256 + b, c * 0x100 + d);
    Address.DivUnique(v, 0x100, a * 0x1_0000 + b * 256 + c, d);
    Remainders(a, b);
    Remainders(a * 256 + b, c);
    Remainders(a * 0x1_0000 + b * 256 + c, d);
  }

  lemma Remainders(q: nat, r: nat)
    requires r < 256
    ensures (q * 256 + r) % 256 == r
  {
  }

  /** An address is written byte by byte, the highest first. */
  lemma QuadIsBytes(a: nat, b: nat, c: nat, d: nat)
    requires a < 256 && b < 256 && c < 256 && d < 256
    ensures var v := a * 0x100_0000 + b * 0x1_0000 + c * 0x100 + d;
            && v < 0x1_0000_0000
            && PrintQuad(v) == PrintNat(a) + "." + (PrintNat(b) + "." + (PrintNat(c) + "." + PrintNat(d)))
  {
    BytesOfQuad(a, b, c, d);
  }

  lemma ParsedQuadIsPrinted(s: string)
    requires ParseQuad(s).Some?
    ensures s == PrintQuad(ParseQuad(s).value)
  {
    var parts := Split(s, '.');
    JoinSplit(s, '.');
    JoinFour(parts);
    OctetIsPrinted(parts[0]);
    OctetIsPrinted(parts[1]);
    OctetIsPrinted(parts[2]);
    OctetIsPrinted(parts[3]);
    BytesOfQuad(ParseOctet(parts[0]).value, ParseOctet(parts[1]).value,
                ParseOctet(parts[2]).value, ParseOctet(parts[3]).value);
  }

  /** Exactly which texts are addresses: each has one form. */
  lemma ParseQuadExactlyWhen(s: string, v: nat)
    ensures ParseQuad(s) == Some(v) <==> v < 0x1_0000_0000 && s == PrintQuad(v)
  {
    if ParseQuad(s).Some? {
      ParsedQuadIsPrinted(s);
    }
    if v < 0x1_0000_0000 {
      ParsePrintQuad(v);
    }
  }

  // ---------- whitespace-separated fields ----------

  /** `unicode.IsSpace`. */
  predicate IsSpace(c: char) {
    || c in ['\t', '\n', '\U{0B}', '\U{0C}', '\r', ' ', '\U{85}', '\U{A0}', '\U{1680}']
    || '\U{2000}' <= c <= '\U{200A}'
    || c in ['\U{2028}', '\U{2029}', '\U{202F}', '\U{205F}', '\U{3000}']
  }

  /** A field: non-empty and free of whitespace. */
  predicate IsWord(s: string) {
    s != "" && forall i | 0 <= i < |s| :: !IsSpace(s[i])
  }

  function WordLength(s: string): (n: nat)
    ensures n <= |s|
    ensures forall i | 0 <= i < n :: !IsSpace(s[i])
    ensures n < |s| ==> IsSpace(s[n])
  {
    if s == "" || IsSpace(s[0]) then 0 else 1 + WordLength(s[1..])
  }

  /** `strings.Fields`. */
  function Fields(s: string): seq<string> {
    if s == "" then []
    else if IsSpace(s[0]) then Fields(s[1..])
    else
      var n := WordLength(s);
      [s[..n]] + Fields(s[n..])
  }

  /** The characters with the property White_Space, by their code points. */
  lemma SpacesAre(c: char)
    ensures IsSpace(c) <==>
            var n := c as int;
            || 9 <= n <= 13 || n == 32 || n == 0x85 || n == 0xA0 || n == 0x1680 || 0x2000 <= n <= 0x200A
            || n == 0x2028 || n == 0x2029 || n == 0x202F || n == 0x205F || n == 0x3000
  {
  }

  /** Any whitespace character separates fields. */
  lemma {:induction false} FieldsSplitAtSpace(a: string, c: char, b: string)
    requires IsSpace(c)
    ensures Fields(a + [c] + b) == Fields(a) + Fields(b)
  {
    var all := a + [c] + b;
    if a == "" {
      assert all[1..] == b;
    } else if IsSpace(a[0]) {
      assert all[1..] == a[1..] + [c] + b;
      FieldsSplitAtSpace(a[1..], c, b);
    } else {
      var n := WordLength(a);
      var tail := a[n..];
      assert all[n] == if n < |a| then a[n] else c;
      assert all[n..] == tail + [c] + b;
      FirstWord(all, a, n);
      FieldsSplitAtSpace(tail, c, b);
      FieldsRegroup([a[..n]], Fields(tail), Fields(b));
    }
  }

  lemma FieldsRegroup(x: seq<string>, y: seq<string>, z: seq<string>)
    ensures x + (y + z) == (x + y) + z
  {
  }

  lemma FirstWord(all: string, a: string, n: nat)
    requires a != "" && !IsSpace(a[0]) && n == WordLength(a) && a <= all && n < |all| && IsSpace(all[n])
    ensures Fields(a) == [a[..n]] + Fields(a[n..]) && Fields(all) == [a[..n]] + Fields(all[n..])
  {
    assert all[..n] == a[..n];
    assert forall i | 0 <= i < n :: all[i] == a[i];
    assert WordLength(all) == n;
    assert all[0] == a[0];
  }

  lemma FieldsOfWord(w: string)
    requires IsWord(w)
    ensures Fields(w) == [w]
  {
    assert WordLength(w) == |w|;
    assert w[..|w|] == w && w[|w|..] == "";
  }

  lemma FieldsAfterWord(w: string, rest: string)
    requires IsWord(w)
    ensures Fields(w + " " + rest) == [w] + Fields(rest)
  {
    var s := w + " " + rest;
    var n := WordLength(s);
    assert s[|w|] == ' ' && IsSpace(' ');
    assert forall i | 0 <= i < |w| :: s[i] == w[i];
    assert n == |w|;
    assert s[..n] == w;
    assert s[n..] == " " + rest;
    assert (" " + rest)[1..] == rest;
  }

  lemma {:induction false} FieldsBeforeWord(s: string, w: string)
    requires IsWord(w)
    ensures Fields(s + " " + w) == Fields(s) + [w]
  {
    var all := s + " " + w;
    assert IsSpace(' ');
    if s == "" {
      assert all[1..] == w;
      FieldsOfWord(w);
    } else if IsSpace(s[0]) {
      assert all[1..] == s[1..] + " " + w;
      FieldsBeforeWord(s[1..], w);
    } else {
      var n := WordLength(s);
      assert all[..n] == s[..n] && all[n..] == s[n..] + " " + w;
      assert all[n] == if n < |s| then s[n] else ' ';
      assert WordLength(all) == n;
      FieldsBeforeWord(s[n..], w);
    }
  }

  lemma {:induction false} FieldsAreWords(s: string)
    ensures forall i | 0 <= i < |Fields(s)| :: IsWord(Fields(s)[i])
  {
    if s == "" {
    } else if IsSpace(s[0]) {
      FieldsAreWords(s[1..]);
    } else {
      FieldsAreWords(s[WordLength(s)..]);
    }
  }

  lemma {:induction false} FieldsBeforeSpace(s: string)
    ensures Fields(s + " ") == Fields(s)
  {
    var all := s + " ";
    assert IsSpace(' ');
    if s == "" {
      assert all[1..] == "";
    } else if IsSpace(s[0]) {
      assert all[1..] == s[1..] + " ";
      FieldsBeforeSpace(s[1..]);
    } else {
      var n := WordLength(s);
      assert all[..n] == s[..n] && all[n..] == s[n..] + " ";
      assert all[n] == if n < |s| then s[n] else ' ';
      assert WordLength(all) == n;
      FieldsBeforeSpace(s[n..]);
    }
  }

  /** A text that breaks off has no more fields than the whole. */
  lemma {:induction false} FieldsOfPrefix(s: string, n: nat)
    requires n <= |s|
    ensures |Fields(s[..n])| <= |Fields(s)|
    decreases |s|
  {
    var cut := s[..n];
    if n == 0 {
    } else if IsSpace(s[0]) {
      assert cut[1..] == s[1..][..n - 1];
      FieldsOfPrefix(s[1..], n - 1);
    } else {
      var w := WordLength(s);
      if n <= w {
        FieldsOfWord(cut);
      } else {
        assert cut[..w] == s[..w] && cut[w..] == s[w..][..n - w] && cut[w] == s[w];
        assert WordLength(cut) == w;
        FieldsOfPrefix(s[w..], n - w);
      }
    }
  }

  // ---------- lines ----------

  /** The longest line `bufio.Scanner` hands out, plus one. */
  const LINE_LIMIT: nat := 65536

  function Utf8Size(c: char): nat {
    if c < '\U{80}' then 1 else if c < '\U{800}' then 2 else if c < '\U{10000}' then 3 else 4
  }

  function Utf8Length(s: string): nat {
    if s == "" then 0 else Utf8Size(s[0]) + Utf8Length(s[1..])
  }

  function LineLength(s: string): (n: nat)
    ensures n <= |s|
    ensures forall i | 0 <= i < n :: s[i] != '\n'
    ensures n < |s| ==> s[n] == '\n'
  {
    if s == "" || s[0] == '\n' then 0 else 1 + LineLength(s[1..])
  }

  function DropCR(s: string): string {
    if s != "" && s[|s| - 1] == '\r' then s[..|s| - 1] else s
  }

  /** What a `bufio.Scanner` with its default split function hands out: the
      lines of the text, up to the first one that does not fit its buffer. */
  function ScanLines(text: string): seq<string> {
    if text == "" then []
    else
      var n := LineLength(text);
      var line := text[..n];
      if Utf8Length(line) >= LINE_LIMIT then []
      else if n == |text| then [DropCR(line)]
      else [DropCR(line)] + ScanLines(text[n + 1..])
  }

  /** How many bits `k` bytes carry: section 3 of RFC 3629. */
  function Utf8Bits(k: nat): nat
    requires 1 <= k <= 4
  {
    if k == 1 then 7 else if k == 2 then 11 else if k == 3 then 16 else 21
  }

  /** A character takes the fewest bytes that can carry it. */
  lemma Utf8SizeExactlyWhen(c: char, k: nat)
    requires 1 <= k <= 4
    ensures Utf8Size(c) <= k <==> c as int < Address.Pow2(Utf8Bits(k))
  {
    assert Address.Pow2(7) == 0x80;
    Address.Pow2Add(7, 4);
    Address.Pow2Add(11, 5);
    Address.Pow2Add(16, 5);
    assert Address.Pow2(4) == 16 && Address.Pow2(5) == 32;
  }

  lemma {:induction false} Utf8LengthAppend(a: string, b: string)
    ensures Utf8Length(a + b) == Utf8Length(a) + Utf8Length(b)
  {
    if a == "" {
      assert a + b == b;
    } else {
      assert (a + b)[1..] == a[1..] + b;
      Utf8LengthAppend(a[1..], b);
    }
  }

  /** A character below 128 is one byte. */
  lemma {:induction false} Utf8LengthOfAscii(s: string)
    requires forall c | c in s :: c as int < 128
    ensures Utf8Length(s) == |s|
  {
    if s != "" {
      assert s[0] in s && forall c | c in s[1..] :: c in s;
      Utf8LengthOfAscii(s[1..]);
    }
  }

  /** A carriage return before the end of a line is no part of it. */
  lemma CarriageReturnIsDropped(line: string, rest: string)
    requires '\n' !in line && Utf8Length(line) < LINE_LIMIT - 1
    ensures ScanLines(line + "\r\n" + rest) == [line] + ScanLines(rest)
  {
    var first := line + "\r";
    Utf8LengthAppend(line, "\r");
    assert "\r"[1..] == "";
    ScanFirstLine(first, rest);
    assert line + "\r\n" + rest == first + "\n" + rest;
    assert first[..|line|] == line;
  }

  lemma ScanFirstLine(line: string, rest: string)
    requires '\n' !in line && Utf8Length(line) < LINE_LIMIT
    ensures ScanLines(line + "\n" + rest) == [DropCR(line)] + ScanLines(rest)
  {
    var text := line + "\n" + rest;
    assert text[|line|] == '\n';
    assert forall i | 0 <= i < |line| :: text[i] == line[i];
    assert LineLength(text) == |line|;
    assert text[..|line|] == line && text[|line| + 1..] == rest;
  }
}
