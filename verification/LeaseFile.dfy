/**
 The leases file: one line per record, `username key address expiry`, written in
 whatever order the map iterates and read back field by field. Addresses are
 IPv4; an expiry is a whole number of seconds, printed in decimal.
 */
module LeaseFile {
  import opened Wrappers
  import opened Address
  import opened LeaseTable
  import opened Text

  ghost predicate PrintableAddr(a: Addr) {
    a.family.V4? && a.value < 0x1_0000_0000
  }

  ghost predicate Addressable(t: Table) {
    forall u | u in t :: PrintableAddr(t[u].ip)
  }

  /** `WGRecord.String`. */
  function RecordString(r: WGRecord): string
    requires PrintableAddr(r.ip)
  {
    r.pubKey + " " + (PrintQuad(r.ip.value) + " " + PrintInt(r.expires))
  }

  function PrintLine(u: string, r: WGRecord): string
    requires PrintableAddr(r.ip)
  {
    u + " " + RecordString(r)
  }

  // ---------- reading ----------

  datatype Line = Blank | Malformed | BadAddress | BadExpiry | Entry(user: string, record: WGRecord)

  datatype LoadError = MalformedLine | UnparsableAddress | UnparsableExpiry

  function ParseLine(line: string): Line {
    var tokens := Fields(line);
    if line == "" then Blank
    else if |tokens| != 4 then Malformed
    else
      match (ParseQuad(tokens[2]), ParseInt(tokens[3]))
      case (None, _) => BadAddress
      case (_, None) => BadExpiry
      case (Some(v), Some(e)) => Entry(tokens[0], WGRecord(tokens[1], Addr(V4, v), e))
  }

  function LoadLine(t: Table, line: string, now: int): Result<Table, LoadError> {
    match ParseLine(line)
    case Blank => Ok(t)
    case Malformed => Err(MalformedLine)
    case BadAddress => Err(UnparsableAddress)
    case BadExpiry => Err(UnparsableExpiry)
    case Entry(u, r) => Ok(if r.expires > now then t[u := r] else t)
  }

  /** Loading lines one by one, `times[i]` being the clock when line `i` is read. */
  function LoadLines(lines: seq<string>, times: seq<int>): Result<Table, LoadError>
    requires |lines| == |times|
  {
    if lines == [] then Ok(map[])
    else
      var n := |lines| - 1;
      match LoadLines(lines[..n], times[..n])
      case Err(e) => Err(e)
      case Ok(t) => LoadLine(t, lines[n], times[n])
  }

  // ---------- writing ----------

  /** An order in which the map may be iterated: every key once. */
  ghost predicate IsOrder(order: seq<string>, t: Table) {
    && (forall u :: u in order <==> u in t)
    && (forall i, j | 0 <= i < j < |order| :: order[i] != order[j])
  }

  function Lines(order: seq<string>, t: Table): (lines: seq<string>)
    requires Addressable(t) && forall u | u in order :: u in t
    ensures |lines| == |order|
    ensures forall i | 0 <= i < |order| :: lines[i] == PrintLine(order[i], t[order[i]])
  {
    seq(|order|, i requires 0 <= i < |order| => PrintLine(order[i], t[order[i]]))
  }

  function JoinLines(lines: seq<string>): string {
    if lines == [] then "" else lines[0] + "\n" + JoinLines(lines[1..])
  }

  function PrintTable(order: seq<string>, t: Table): string
    requires Addressable(t) && forall u | u in order :: u in t
  {
    JoinLines(Lines(order, t))
  }

  ghost predicate IsSaved(text: string, t: Table)
    requires Addressable(t)
  {
    exists order :: IsOrder(order, t) && text == PrintTable(order, t)
  }

  /** A line short enough for the scanner's buffer. */
  ghost predicate Short(line: string) {
    Utf8Length(line) < LINE_LIMIT
  }

  ghost predicate Fits(t: Table, u: string)
    requires Addressable(t) && u in t
  {
    Short(PrintLine(u, t[u]))
  }

  // ---------- one line ----------

  /** Name and key are fields: no whitespace in them, and neither is empty. */
  ghost predicate Plain(u: string, r: WGRecord) {
    IsWord(u) && IsWord(r.pubKey)
  }

  ghost predicate NoNewline(u: string, r: WGRecord) {
    '\n' !in u && '\n' !in r.pubKey
  }

  /** Name and key make two fields between them, whatever these are. */
  ghost predicate TwoFields(u: string, r: WGRecord) {
    |Fields(u + " " + r.pubKey)| == 2
  }

  /** What the file carries: such a record, if its line fits the scanner's buffer. */
  ghost predicate Carried(u: string, r: WGRecord) {
    PrintableAddr(r.ip) && Plain(u, r) && Short(PrintLine(u, r))
  }

  ghost predicate Storable(t: Table) {
    forall u | u in t :: Carried(u, t[u])
  }

  ghost predicate OneLine(line: string) {
    '\n' !in line && DropCR(line) == line
  }

  lemma PlainIsTwoFields(u: string, r: WGRecord)
    requires Plain(u, r)
    ensures NoNewline(u, r) && Fields(u + " " + r.pubKey) == [u, r.pubKey]
  {
    assert IsSpace('\n');
    FieldsOfWord(r.pubKey);
    FieldsAfterWord(u, r.pubKey);
  }

  lemma LineIsOneLine(u: string, r: WGRecord)
    requires NoNewline(u, r) && PrintableAddr(r.ip)
    ensures OneLine(PrintLine(u, r))
  {
    ParsePrintQuad(r.ip.value);
    ParsePrintInt(r.expires);
    WordsEndLine(u, r.pubKey, PrintQuad(r.ip.value), PrintInt(r.expires));
  }

  lemma WordsEndLine(u: string, k: string, a: string, e: string)
    requires '\n' !in u && '\n' !in k && IsWord(a) && IsWord(e)
    ensures OneLine(u + " " + (k + " " + (a + " " + e)))
  {
    var line := u + " " + (k + " " + (a + " " + e));
    assert IsSpace('\n') && IsSpace('\r');
    assert '\n' !in a && '\n' !in e;
    assert line[|line| - 1] == e[|e| - 1];
  }

  lemma FieldsOfLine(u: string, k: string, a: string, e: string)
    requires IsWord(a) && IsWord(e)
    ensures Fields(u + " " + (k + " " + (a + " " + e))) == Fields(u + " " + k) + [a, e]
  {
    var front := u + " " + k;
    Regroup(u, k, a, e);
    FieldsBeforeWord(front, a);
    FieldsBeforeWord(front + " " + a, e);
  }

  lemma Regroup(u: string, k: string, a: string, e: string)
    ensures u + " " + (k + " " + (a + " " + e)) == ((u + " " + k) + " " + a) + " " + e
  {
  }

  /** What a printed record parses as, whatever its name and key hold. */
  lemma ParsePrinted(u: string, r: WGRecord)
    requires PrintableAddr(r.ip)
    ensures ParseLine(PrintLine(u, r)) ==
            var front := Fields(u + " " + r.pubKey);
            if TwoFields(u, r) then Entry(front[0], WGRecord(front[1], r.ip, r.expires)) else Malformed
  {
    var a, e := PrintQuad(r.ip.value), PrintInt(r.expires);
    ParsePrintQuad(r.ip.value);
    ParsePrintInt(r.expires);
    FieldsOfLine(u, r.pubKey, a, e);
    ParseTokens(PrintLine(u, r), Fields(u + " " + r.pubKey), a, e, r.ip.value, r.expires);
  }

  lemma ParseTokens(line: string, front: seq<string>, a: string, e: string, v: nat, n: int)
    requires line != "" && Fields(line) == front + [a, e]
    requires ParseQuad(a) == Some(v) && ParseInt(e) == Some(n)
    ensures ParseLine(line) == if |front| == 2 then Entry(front[0], WGRecord(front[1], Addr(V4, v), n)) else Malformed
  {
  }

  /** Field splitting undoes line printing if and only if name and key hold no
      whitespace. */
  lemma ParsePrintLine(u: string, r: WGRecord)
    requires PrintableAddr(r.ip)
    ensures ParseLine(PrintLine(u, r)) == Entry(u, r) <==> Plain(u, r)
  {
    ParsePrinted(u, r);
    FieldsAreWords(u + " " + r.pubKey);
    if Plain(u, r) {
      PlainIsTwoFields(u, r);
    }
  }

  // ---------- the whole file ----------

  /** How many lines the scanner hands out. */
  ghost function Readable(lines: seq<string>): (n: nat)
    ensures n <= |lines|
    ensures forall i | 0 <= i < n :: Short(lines[i])
    ensures n < |lines| ==> !Short(lines[n])
  {
    if lines == [] || !Short(lines[0]) then 0 else 1 + Readable(lines[1..])
  }

  lemma ScanLongLine(line: string, rest: string)
    requires '\n' !in line && !Short(line)
    ensures ScanLines(line + "\n" + rest) == []
  {
    var text := line + "\n" + rest;
    assert text[|line|] == '\n';
    assert forall i | 0 <= i < |line| :: text[i] == line[i];
    assert LineLength(text) == |line|;
    assert text[..|line|] == line;
  }

  lemma {:induction false} ScanJoined(lines: seq<string>)
    requires forall i | 0 <= i < |lines| :: OneLine(lines[i])
    ensures ScanLines(JoinLines(lines)) == lines[..Readable(lines)]
  {
    if lines != [] {
      var line, rest := lines[0], lines[1..];
      assert OneLine(line);
      if Short(line) {
        ScanJoined(rest);
        ScanJoinedNext(line, rest);
        assert lines == [line] + rest;
      } else {
        ScanLongLine(line, JoinLines(rest));
      }
    }
  }

  lemma ScanJoinedNext(line: string, rest: seq<string>)
    requires OneLine(line) && Short(line) && ScanLines(JoinLines(rest)) == rest[..Readable(rest)]
    ensures ScanLines(JoinLines([line] + rest)) == ([line] + rest)[..Readable([line] + rest)]
  {
    var lines := [line] + rest;
    assert lines[1..] == rest;
    ScanFirstLine(line, JoinLines(rest));
    assert lines[..Readable(lines)] == [line] + rest[..Readable(rest)];
  }

  /** A record whose line is read as itself, or, once it has expired, as some record
      that has. */
  ghost predicate Restorable(u: string, r: WGRecord, from: int) {
    if r.expires > from then Plain(u, r) else NoNewline(u, r) && TwoFields(u, r)
  }

  ghost predicate AllRestorable(t: Table, from: int)
    requires Addressable(t)
  {
    forall u | u in t :: Restorable(u, t[u], from) && Fits(t, u)
  }

  /** What `line` is taken for, if it stands for the record `r` of `u`. */
  ghost predicate StandsFor(line: string, u: string, r: WGRecord, from: int) {
    var l := ParseLine(line);
    OneLine(line) && (l == Entry(u, r) || (l.Entry? && l.record.expires <= from && r.expires <= from))
  }

  /** `lines` stand for the records of the users in `order`. */
  ghost predicate Encodes(lines: seq<string>, order: seq<string>, t: Table, from: int) {
    && |lines| == |order|
    && (forall i | 0 <= i < |order| :: order[i] in t && StandsFor(lines[i], order[i], t[order[i]], from))
    && (forall i, j | 0 <= i < j < |order| :: order[i] != order[j])
  }

  /** `r` holds those users of `order` whose record expires after it was read. */
  ghost predicate Keeps(order: seq<string>, t: Table, times: seq<int>, r: Table)
    requires |times| <= |order| && forall u | u in order :: u in t
  {
    && (forall u | u in r :: u in order[..|times|] && r[u] == t[u])
    && (forall i | 0 <= i < |times| :: order[i] in r <==> t[order[i]].expires > times[i])
  }

  lemma LoadEntry(before: Table, line: string, u: string, r: WGRecord, from: int, now: int)
    requires StandsFor(line, u, r, from) && from <= now
    ensures LoadLine(before, line, now) == Ok(if r.expires > now then before[u := r] else before)
  {
  }

  lemma LoadNext(lines: seq<string>, times: seq<int>, before: Table)
    requires |lines| == |times| > 0
    requires LoadLines(lines[..|lines| - 1], times[..|lines| - 1]) == Ok(before)
    ensures LoadLines(lines, times) == LoadLine(before, lines[|lines| - 1], times[|lines| - 1])
  {
  }

  lemma KeepsExtend(order: seq<string>, t: Table, times: seq<int>, before: Table)
    requires |order| == |times| > 0 && forall u | u in order :: u in t
    requires forall i, j | 0 <= i < j < |order| :: order[i] != order[j]
    requires forall u | u in order[..|order| - 1] :: u in t
    requires Keeps(order[..|order| - 1], t, times[..|order| - 1], before)
    ensures var n := |order| - 1;
            Keeps(order, t, times, if t[order[n]].expires > times[n] then before[order[n] := t[order[n]]] else before)
  {
    var n := |order| - 1;
    assert forall i | 0 <= i < n :: order[..n][i] == order[i] && times[..n][i] == times[i];
    assert order[n] !in order[..n];
    assert order[..n][..n] == order[..n] && order[..|times|] == order;
  }

  /** Loading the lines of distinct users keeps exactly those that expire later. */
  lemma {:induction false} LoadEncoded(
      lines: seq<string>, order: seq<string>, t: Table, from: int, times: seq<int>)
    returns (r: Table)
    requires Encodes(lines, order, t, from) && |times| == |order|
    requires forall i | 0 <= i < |times| :: from <= times[i]
    ensures LoadLines(lines, times) == Ok(r)
    ensures (forall u | u in order :: u in t) && Keeps(order, t, times, r)
  {
    r := map[];
    if order != [] {
      var n := |order| - 1;
      var before := LoadEncoded(lines[..n], order[..n], t, from, times[..n]);
      LoadNext(lines, times, before);
      LoadEntry(before, lines[n], order[n], t[order[n]], from, times[n]);
      KeepsExtend(order, t, times, before);
      r := if t[order[n]].expires > times[n] then before[order[n] := t[order[n]]] else before;
    }
  }

  lemma LineStandsFor(u: string, r: WGRecord, from: int)
    requires PrintableAddr(r.ip) && Restorable(u, r, from)
    ensures StandsFor(PrintLine(u, r), u, r, from)
  {
    if r.expires > from {
      PlainIsTwoFields(u, r);
      ParsePrintLine(u, r);
    } else {
      ParsePrinted(u, r);
    }
    LineIsOneLine(u, r);
  }

  /** Every line is one line, and those the scanner can hand out are restorable. */
  ghost predicate Readably(t: Table, from: int)
    requires Addressable(t)
  {
    forall u | u in t :: NoNewline(u, t[u]) && (Fits(t, u) ==> Restorable(u, t[u], from))
  }

  lemma PrintedStandsFor(order: seq<string>, t: Table, from: int, i: nat)
    requires Addressable(t) && IsOrder(order, t) && Readably(t, from) && i < |order|
    ensures order[i] in t && OneLine(Lines(order, t)[i])
    ensures Short(Lines(order, t)[i]) ==> StandsFor(Lines(order, t)[i], order[i], t[order[i]], from)
  {
    var u := order[i];
    assert u in order;
    LineIsOneLine(u, t[u]);
    if Fits(t, u) {
      LineStandsFor(u, t[u], from);
    }
  }

  lemma PrintedEncodes(order: seq<string>, t: Table, from: int)
    requires Addressable(t) && IsOrder(order, t) && Readably(t, from)
    ensures forall i | 0 <= i < |order| :: OneLine(Lines(order, t)[i])
    ensures var n := Readable(Lines(order, t)); Encodes(Lines(order, t)[..n], order[..n], t, from)
  {
    var lines := Lines(order, t);
    var n := Readable(lines);
    forall i | 0 <= i < |order|
      ensures order[i] in t && OneLine(lines[i])
      ensures i < n ==> StandsFor(lines[i], order[i], t[order[i]], from)
    {
      PrintedStandsFor(order, t, from, i);
    }
    StandingLinesEncode(lines, order, t, from, n);
  }

  lemma StandingLinesEncode(lines: seq<string>, order: seq<string>, t: Table, from: int, n: nat)
    requires n <= |lines| == |order| && IsOrder(order, t)
    requires forall i | 0 <= i < n :: order[i] in t && StandsFor(lines[i], order[i], t[order[i]], from)
    ensures Encodes(lines[..n], order[..n], t, from)
  {
  }

  /** What the scanner reads of a saved table: as many records, in the order of
      writing, as there are lines before the first one that is too long. */
  lemma ReadSaved(order: seq<string>, t: Table, from: int, times: seq<int>) returns (r: Table)
    requires Addressable(t) && IsOrder(order, t) && Readably(t, from)
    requires |times| == |ScanLines(PrintTable(order, t))| && forall i | 0 <= i < |times| :: from <= times[i]
    ensures LoadLines(ScanLines(PrintTable(order, t)), times) == Ok(r)
    ensures |times| == Readable(Lines(order, t)) <= |order| && Keeps(order, t, times, r)
  {
    PrintedEncodes(order, t, from);
    ScanJoined(Lines(order, t));
    r := ReadPrefix(Lines(order, t), order, t, from, times);
  }

  lemma ReadPrefix(lines: seq<string>, order: seq<string>, t: Table, from: int, times: seq<int>) returns (r: Table)
    requires |times| <= |order| == |lines| && Encodes(lines[..|times|], order[..|times|], t, from)
    requires IsOrder(order, t) && forall i | 0 <= i < |times| :: from <= times[i]
    ensures LoadLines(lines[..|times|], times) == Ok(r) && Keeps(order, t, times, r)
  {
    var n := |times|;
    r := LoadEncoded(lines[..n], order[..n], t, from, times);
    assert order[..n][..n] == order[..n];
    assert forall i | 0 <= i < n :: order[..n][i] == order[i];
  }

  lemma KeepsAll(order: seq<string>, t: Table, times: seq<int>, r: Table, from: int, to: int)
    requires IsOrder(order, t) && |times| == |order| && Keeps(order, t, times, r)
    requires forall i | 0 <= i < |times| :: from <= times[i] <= to
    ensures Loaded(t, r, from, to)
  {
    forall u | u in t
      ensures exists i | 0 <= i < |order| :: order[i] == u
    {
      assert u in order;
    }
    forall u | u in r
      ensures t[u].expires > from
    {
      var i :| 0 <= i < |order| && order[i] == u;
    }
  }

  /** The round trip: what was saved, in any order, is loaded back, except for
      records that have expired by then. */
  lemma SaveThenLoad(text: string, t: Table, times: seq<int>, from: int, to: int)
    requires Addressable(t) && IsSaved(text, t) && AllRestorable(t, from)
    requires |times| == |ScanLines(text)| && forall i | 0 <= i < |times| :: from <= times[i] <= to
    ensures exists r :: LoadLines(ScanLines(text), times) == Ok(r) && Loaded(t, r, from, to)
  {
    var order :| IsOrder(order, t) && text == PrintTable(order, t);
    RestorableIsReadable(t, from);
    var r := ReadSaved(order, t, from, times);
    EverythingReadable(order, t);
    KeepsAll(order, t, times, r, from, to);
  }

  lemma RestorableIsReadable(t: Table, from: int)
    requires Addressable(t) && forall u | u in t :: Restorable(u, t[u], from)
    ensures Readably(t, from)
  {
    forall u | u in t && t[u].expires > from
      ensures NoNewline(u, t[u])
    {
      PlainIsTwoFields(u, t[u]);
    }
  }

  lemma EverythingReadable(order: seq<string>, t: Table)
    requires Addressable(t) && IsOrder(order, t) && forall u | u in t :: Fits(t, u)
    ensures Readable(Lines(order, t)) == |order|
  {
    assert forall i | 0 <= i < |order| :: order[i] in order;
  }

  /** Neither blank nor a record. */
  predicate BadLine(line: string) {
    var l := ParseLine(line);
    !l.Blank? && !l.Entry?
  }

  /** Exactly which lines are a record, and of whom: four fields, of which the third is an
      address in its one form and the fourth a number. */
  lemma EntryExactlyWhen(line: string, u: string, r: WGRecord)
    ensures ParseLine(line) == Entry(u, r) <==>
            && PrintableAddr(r.ip) && |Fields(line)| == 4
            && Fields(line)[..3] == [u, r.pubKey, PrintQuad(r.ip.value)]
            && ParseInt(Fields(line)[3]) == Some(r.expires)
  {
    var f := Fields(line);
    if |f| == 4 {
      assert f[..3] == [f[0], f[1], f[2]];
      ParseQuadExactlyWhen(f[2], r.ip.value);
      if ParseQuad(f[2]).Some? {
        ParseQuadExactlyWhen(f[2], ParseQuad(f[2]).value);
      }
    }
  }

  ghost predicate IsQuad(s: string) {
    exists v: nat :: v < 0x1_0000_0000 && s == PrintQuad(v)
  }

  /** Exactly which lines stop the reading, and with which error: the empty line is skipped,
      and any other must have four fields with an address and a number for the last two. */
  lemma LineErrorsExactlyWhen(t: Table, line: string, now: int)
    ensures line == "" ==> LoadLine(t, line, now) == Ok(t)
    ensures var f := Fields(line);
            && (LoadLine(t, line, now) == Err(MalformedLine) <==> line != "" && |f| != 4)
            && (LoadLine(t, line, now) == Err(UnparsableAddress) <==> |f| == 4 && !IsQuad(f[2]))
            && (LoadLine(t, line, now) == Err(UnparsableExpiry) <==> |f| == 4 && IsQuad(f[2]) && ParseInt(f[3]).None?)
  {
    var f := Fields(line);
    if |f| == 4 {
      QuadParses(f[2]);
    }
  }

  lemma QuadParses(s: string)
    ensures ParseQuad(s).Some? <==> IsQuad(s)
  {
    if ParseQuad(s).Some? {
      ParseQuadExactlyWhen(s, ParseQuad(s).value);
    }
    if IsQuad(s) {
      var v: nat :| v < 0x1_0000_0000 && s == PrintQuad(v);
      ParseQuadExactlyWhen(s, v);
    }
  }

  lemma LoadLineFails(t: Table, line: string, now: int)
    ensures LoadLine(t, line, now).Err? <==> BadLine(line)
  {
  }

  lemma LoadFailsNext(lines: seq<string>, times: seq<int>)
    requires |lines| == |times| > 0
    ensures var n := |lines| - 1;
            LoadLines(lines, times).Err? <==> LoadLines(lines[..n], times[..n]).Err? || BadLine(lines[n])
  {
    var n := |lines| - 1;
    match LoadLines(lines[..n], times[..n])
    case Err(_) =>
    case Ok(t) =>
      LoadNext(lines, times, t);
      LoadLineFails(t, lines[n], times[n]);
  }

  ghost predicate Any<T>(s: seq<T>, p: T -> bool) {
    exists i :: 0 <= i < |s| && p(s[i])
  }

  lemma AnyNext<T>(s: seq<T>, p: T -> bool)
    requires s != []
    ensures Any(s, p) <==> Any(s[..|s| - 1], p) || p(s[|s| - 1])
  {
    var front := s[..|s| - 1];
    if i :| 0 <= i < |front| && p(front[i]) {
      assert p(s[i]);
    }
    if i :| 0 <= i < |s| && p(s[i]) {
      assert i < |front| ==> p(front[i]);
    }
  }

  ghost predicate AnyBadLine(lines: seq<string>) {
    Any(lines, BadLine)
  }

  lemma BadLineAt(lines: seq<string>, i: nat)
    requires i < |lines| && BadLine(lines[i])
    ensures AnyBadLine(lines)
  {
  }

  /** The file is refused if and only if the scanner hands out a bad line, whatever has
      expired. */
  lemma {:induction false} LoadFailsExactlyWhen(lines: seq<string>, times: seq<int>)
    requires |lines| == |times|
    ensures LoadLines(lines, times).Err? <==> AnyBadLine(lines)
  {
    if lines != [] {
      LoadFailsExactlyWhen(lines[..|lines| - 1], times[..|lines| - 1]);
      LoadFailsNext(lines, times);
      AnyNext(lines, BadLine);
    }
  }

  // ---------- exactly when ----------

  function Constant(n: nat, now: int): (times: seq<int>)
    ensures |times| == n && forall i | 0 <= i < n :: times[i] == now
  {
    seq(n, i => now)
  }

  /** Written in this order, the table is read back in full at time `now`. */
  ghost predicate ReadsBack(order: seq<string>, t: Table, now: int)
    requires Addressable(t) && forall u | u in order :: u in t
  {
    var lines := ScanLines(PrintTable(order, t));
    var r := LoadLines(lines, Constant(|lines|, now));
    r.Ok? && Loaded(t, r.value, now, now)
  }

  /** Whatever is loaded has fields for names and keys. */
  lemma {:induction false} LoadedIsPlain(lines: seq<string>, times: seq<int>)
    requires |lines| == |times| && LoadLines(lines, times).Ok?
    ensures var t := LoadLines(lines, times).value; forall u | u in t :: Plain(u, t[u])
  {
    if lines != [] {
      var n := |lines| - 1;
      LoadedIsPlain(lines[..n], times[..n]);
      FieldsAreWords(lines[n]);
      LoadNext(lines, times, LoadLines(lines[..n], times[..n]).value);
    }
  }

  lemma {:induction false} SomeOrder(s: set<string>) returns (order: seq<string>)
    ensures forall u :: u in order <==> u in s
    ensures forall i, j | 0 <= i < j < |order| :: order[i] != order[j]
    decreases |s|
  {
    if s == {} {
      order := [];
    } else {
      var u :| u in s;
      var rest := SomeOrder(s - {u});
      order := rest + [u];
    }
  }

  lemma ReadsBackInOrder(order: seq<string>, t: Table, now: int)
    requires Addressable(t) && IsOrder(order, t) && Readably(t, now)
    requires (forall u | u in t :: Fits(t, u)) || (forall u | u in t :: t[u].expires <= now)
    ensures ReadsBack(order, t, now)
  {
    if forall u | u in t :: Fits(t, u) {
      FittingReadsBack(order, t, now);
    } else {
      NothingLiveReadsBack(order, t, now);
    }
  }

  lemma FittingReadsBack(order: seq<string>, t: Table, now: int)
    requires Addressable(t) && IsOrder(order, t) && Readably(t, now) && forall u | u in t :: Fits(t, u)
    ensures ReadsBack(order, t, now)
  {
    var times := Constant(|ScanLines(PrintTable(order, t))|, now);
    var r := ReadSaved(order, t, now, times);
    EverythingReadable(order, t);
    KeepsAll(order, t, times, r, now, now);
  }

  lemma NothingLiveReadsBack(order: seq<string>, t: Table, now: int)
    requires Addressable(t) && IsOrder(order, t) && Readably(t, now) && forall u | u in t :: t[u].expires <= now
    ensures ReadsBack(order, t, now)
  {
    var times := Constant(|ScanLines(PrintTable(order, t))|, now);
    var r := ReadSaved(order, t, now, times);
    KeepsNothing(order, t, times, r, now);
  }

  lemma KeepsNothing(order: seq<string>, t: Table, times: seq<int>, r: Table, now: int)
    requires IsOrder(order, t) && |times| <= |order| && Keeps(order, t, times, r)
    requires forall i | 0 <= i < |times| :: times[i] == now
    requires forall u | u in t :: t[u].expires <= now
    ensures Loaded(t, r, now, now)
  {
    assert forall i | 0 <= i < |order| :: order[i] in order;
  }

  lemma OrderWithFirst(s: set<string>, u: string) returns (order: seq<string>)
    requires u in s
    ensures forall w :: w in order <==> w in s
    ensures forall i, j | 0 <= i < j < |order| :: order[i] != order[j]
    ensures order != [] && order[0] == u
  {
    var rest := SomeOrder(s - {u});
    order := [u] + rest;
    forall i, j | 0 <= i < j < |order|
      ensures order[i] != order[j]
    {
      assert order[j] == rest[j - 1] && rest[j - 1] in rest;
      assert i > 0 ==> order[i] == rest[i - 1];
    }
  }

  lemma OrderWithTwoFirst(s: set<string>, u: string, v: string) returns (order: seq<string>)
    requires u in s && v in s && u != v
    ensures forall w :: w in order <==> w in s
    ensures forall i, j | 0 <= i < j < |order| :: order[i] != order[j]
    ensures |order| >= 2 && order[0] == u && order[1] == v
  {
    var rest := SomeOrder(s - {u, v});
    order := [u, v] + rest;
    forall i, j | 0 <= i < j < |order|
      ensures order[i] != order[j]
    {
      assert j >= 2 ==> order[j] == rest[j - 2] && rest[j - 2] in rest;
      assert i >= 2 ==> order[i] == rest[i - 2];
    }
  }

  /** A live record whose name or key holds whitespace, or is empty, is not read back
      in any order. */
  lemma OnlyPlainReadsBack(order: seq<string>, t: Table, u: string, now: int)
    requires Addressable(t) && IsOrder(order, t) && u in t && t[u].expires > now && ReadsBack(order, t, now)
    ensures Plain(u, t[u])
  {
    var lines := ScanLines(PrintTable(order, t));
    LoadedIsPlain(lines, Constant(|lines|, now));
  }

  /** A line that is too long hides the whole file when it comes first. */
  lemma LongLineHidesAll(t: Table, u: string) returns (order: seq<string>)
    requires Addressable(t) && u in t && !Fits(t, u) && NoNewline(u, t[u])
    ensures IsOrder(order, t) && ScanLines(PrintTable(order, t)) == []
  {
    order := OrderWithFirst(t.Keys, u);
    var lines := Lines(order, t);
    LineIsOneLine(u, t[u]);
    assert PrintTable(order, t) == PrintLine(u, t[u]) + "\n" + JoinLines(lines[1..]);
    ScanLongLine(PrintLine(u, t[u]), JoinLines(lines[1..]));
  }

  /** A line without four fields stops the loading when it comes first. */
  lemma BadLineStopsLoading(t: Table, u: string) returns (order: seq<string>)
    requires Addressable(t) && u in t && Fits(t, u) && NoNewline(u, t[u]) && !TwoFields(u, t[u])
    ensures IsOrder(order, t) && AnyBadLine(ScanLines(PrintTable(order, t)))
  {
    order := OrderWithFirst(t.Keys, u);
    var line, lines := PrintLine(u, t[u]), Lines(order, t);
    LineIsOneLine(u, t[u]);
    ParsePrinted(u, t[u]);
    assert PrintTable(order, t) == line + "\n" + JoinLines(lines[1..]);
    ScanFirstLine(line, JoinLines(lines[1..]));
    BadLineAt(ScanLines(PrintTable(order, t)), 0);
  }

  /** What it takes to survive the file. Live records need a name and a key that are
      fields. Of an expired record it is enough that its line has four fields, or never
      reaches the parser. And a line that exceeds the scanner's buffer ends the reading
      silently, so there may be none while there is a live record to lose. */
  ghost predicate Survives(t: Table, now: int)
    requires Addressable(t)
  {
    && (forall u | u in t && t[u].expires > now :: Plain(u, t[u]))
    && (forall u | u in t && Fits(t, u) :: TwoFields(u, t[u]))
    && ((forall u | u in t :: Fits(t, u)) || (forall u | u in t :: t[u].expires <= now))
  }

  ghost predicate ReadsBackInEveryOrder(t: Table, now: int)
    requires Addressable(t)
  {
    forall order | IsOrder(order, t) :: ReadsBack(order, t, now)
  }

  lemma SurvivorIsReadable(t: Table, now: int)
    requires Addressable(t) && Survives(t, now)
    requires forall u | u in t && t[u].expires <= now :: NoNewline(u, t[u])
    ensures Readably(t, now)
  {
    forall u | u in t && t[u].expires > now
      ensures NoNewline(u, t[u])
    {
      PlainIsTwoFields(u, t[u]);
    }
  }

  lemma AlwaysReadBackSurvives(t: Table, now: int)
    requires Addressable(t) && ReadsBackInEveryOrder(t, now)
    requires forall u | u in t && t[u].expires <= now :: NoNewline(u, t[u])
    ensures Survives(t, now)
  {
    forall u | u in t
      ensures t[u].expires > now ==> Plain(u, t[u])
      ensures NoNewline(u, t[u])
    {
      if t[u].expires > now {
        LiveReadBackIsPlain(t, u, now);
      }
    }
    forall u | u in t && Fits(t, u)
      ensures TwoFields(u, t[u])
    {
      if !TwoFields(u, t[u]) {
        BadLineIsNotReadBack(t, u, now);
      }
    }
    forall u, v | u in t && v in t
      ensures Fits(t, u) || t[v].expires <= now
    {
      if !Fits(t, u) && t[v].expires > now {
        LongLineIsNotReadBack(t, u, v, now);
      }
    }
  }

  lemma LongLineIsNotReadBack(t: Table, u: string, v: string, now: int)
    requires Addressable(t) && u in t && !Fits(t, u) && NoNewline(u, t[u])
    requires v in t && t[v].expires > now
    ensures !ReadsBackInEveryOrder(t, now)
  {
    var order := LongLineHidesAll(t, u);
    assert !ReadsBack(order, t, now);
  }

  lemma LiveReadBackIsPlain(t: Table, u: string, now: int)
    requires Addressable(t) && ReadsBackInEveryOrder(t, now) && u in t && t[u].expires > now
    ensures Plain(u, t[u]) && NoNewline(u, t[u])
  {
    var any := SomeOrder(t.Keys);
    assert IsOrder(any, t);
    OnlyPlainReadsBack(any, t, u, now);
    PlainIsTwoFields(u, t[u]);
  }

  lemma BadLineIsNotReadBack(t: Table, u: string, now: int)
    requires Addressable(t) && u in t && Fits(t, u) && NoNewline(u, t[u]) && !TwoFields(u, t[u])
    ensures !ReadsBackInEveryOrder(t, now)
  {
    var order := BadLineStopsLoading(t, u);
    var lines := ScanLines(PrintTable(order, t));
    LoadFailsExactlyWhen(lines, Constant(|lines|, now));
    assert !ReadsBack(order, t, now);
  }

  /** Exactly when a table is read back whatever the map order in which it was written, if
      there is no newline in what has expired. Module LeaseSurvival does without that. */
  lemma ReadsBackWithoutNewlines(t: Table, now: int)
    requires Addressable(t) && forall u | u in t && t[u].expires <= now :: NoNewline(u, t[u])
    ensures ReadsBackInEveryOrder(t, now) <==> Survives(t, now)
  {
    if ReadsBackInEveryOrder(t, now) {
      AlwaysReadBackSurvives(t, now);
    }
    if Survives(t, now) {
      SurvivorIsReadable(t, now);
      forall order | IsOrder(order, t)
        ensures ReadsBack(order, t, now)
      {
        ReadsBackInOrder(order, t, now);
      }
    }
  }

  lemma OnlyFittingIsRestored(text: string, t: Table, times: seq<int>, from: int)
    requires Addressable(t) && IsSaved(text, t) && Readably(t, from)
    requires |times| == |ScanLines(text)| && forall i | 0 <= i < |times| :: from <= times[i]
    requires LoadLines(ScanLines(text), times) == Ok(t)
    ensures forall u | u in t :: Fits(t, u)
  {
    var order :| IsOrder(order, t) && text == PrintTable(order, t);
    var r := ReadSaved(order, t, from, times);
    forall u | u in t
      ensures Fits(t, u)
    {
      assert u in order[..|times|];
      var i :| 0 <= i < |order| && order[i] == u;
      assert Short(Lines(order, t)[i]);
    }
  }

  /** While every record is live the order does not matter: the table comes back
      unchanged if and only if every name and key is a field and every line fits. */
  lemma RestoresExactlyWhen(text: string, t: Table, times: seq<int>, from: int, to: int)
    requires Addressable(t) && IsSaved(text, t) && forall u | u in t :: t[u].expires > to
    requires |times| == |ScanLines(text)| && forall i | 0 <= i < |times| :: from <= times[i] <= to
    requires from <= to
    ensures LoadLines(ScanLines(text), times) == Ok(t) <==> Storable(t)
  {
    var lines := ScanLines(text);
    if LoadLines(lines, times) == Ok(t) {
      LoadedIsPlain(lines, times);
      RestorableIsReadable(t, from);
      OnlyFittingIsRestored(text, t, times, from);
    }
    if Storable(t) {
      PlainIsRestored(text, t, times, from, to);
    }
  }

  lemma PlainIsRestored(text: string, t: Table, times: seq<int>, from: int, to: int)
    requires Addressable(t) && IsSaved(text, t) && forall u | u in t :: t[u].expires > to
    requires |times| == |ScanLines(text)| && forall i | 0 <= i < |times| :: from <= times[i] <= to
    requires forall u | u in t :: Plain(u, t[u]) && Fits(t, u)
    requires from <= to
    ensures LoadLines(ScanLines(text), times) == Ok(t)
  {
    SaveThenLoad(text, t, times, from, to);
    var loaded := LoadLines(ScanLines(text), times);
    assert loaded.Ok? && Loaded(t, loaded.value, from, to);
    LiveIsLoaded(t, loaded.value, from, to);
  }

  lemma LiveIsLoaded(t: Table, r: Table, from: int, to: int)
    requires Loaded(t, r, from, to) && forall u | u in t :: t[u].expires > to
    ensures r == t
  {
  }

  // ---------- starting from a saved file ----------

  /** Reading this text between `from` and `to` succeeds and yields `t`. */
  ghost predicate LoadsTo(text: string, from: int, to: int, t: Table) {
    exists times :: ReadAt(text, times, from, to) && LoadLines(ScanLines(text), times) == Ok(t)
  }

  ghost predicate ReadAt(text: string, times: seq<int>, from: int, to: int) {
    |times| == |ScanLines(text)| && forall i | 0 <= i < |times| :: from <= times[i] <= to
  }

  /** Whenever the text is read from `now` on and before the lease expires, the reading
      succeeds and the lease is there. */
  ghost predicate ComesBack(text: string, u: string, r: WGRecord, now: int) {
    forall times | ReadAt(text, times, now, r.expires - 1) ::
      var t := LoadLines(ScanLines(text), times); t.Ok? && u in t.value && t.value[u] == r
  }

  lemma RestorableLoads(text: string, t: Table, from: int, to: int, r: Table)
    requires Addressable(t) && IsSaved(text, t) && AllRestorable(t, from) && LoadsTo(text, from, to, r)
    ensures Loaded(t, r, from, to)
  {
    var times :| ReadAt(text, times, from, to) && LoadLines(ScanLines(text), times) == Ok(r);
    SaveThenLoad(text, t, times, from, to);
  }

  /** While every record is live: the start that restores the table exists if and only if
      the file carries every record of it. */
  lemma LoadsToItselfExactlyWhen(text: string, t: Table, from: int, to: int)
    requires Addressable(t) && IsSaved(text, t) && from <= to && forall u | u in t :: t[u].expires > to
    ensures LoadsTo(text, from, to, t) <==> Storable(t)
  {
    var now := Constant(|ScanLines(text)|, from);
    RestoresExactlyWhen(text, t, now, from, to);
    if Storable(t) {
      assert ReadAt(text, now, from, to);
    }
    forall times | ReadAt(text, times, from, to) && LoadLines(ScanLines(text), times) == Ok(t)
      ensures Storable(t)
    {
      RestoresExactlyWhen(text, t, times, from, to);
    }
  }

  lemma StorableIsRestorable(t: Table, from: int)
    requires Storable(t)
    ensures AllRestorable(t, from)
  {
    forall u | u in t
      ensures Restorable(u, t[u], from)
    {
      PlainIsTwoFields(u, t[u]);
    }
  }

  lemma RestorableComesBack(text: string, t: Table, u: string, now: int)
    requires Addressable(t) && IsSaved(text, t) && AllRestorable(t, now) && u in t
    ensures ComesBack(text, u, t[u], now)
  {
    forall times | ReadAt(text, times, now, t[u].expires - 1)
      ensures var r := LoadLines(ScanLines(text), times); r.Ok? && u in r.value && r.value[u] == t[u]
    {
      SaveThenLoad(text, t, times, now, t[u].expires - 1);
    }
  }

  // ---------- requests the code accepts and the file does not carry ----------

  lemma {:induction false} Utf8LengthAtLeast(s: string)
    ensures Utf8Length(s) >= |s|
  {
    if s != "" {
      Utf8LengthAtLeast(s[1..]);
    }
  }

  /** A key as long as the scanner's buffer does not fit. */
  lemma LongKeyDoesNotFit(t: Table, u: string)
    requires Addressable(t) && u in t && |t[u].pubKey| >= 65536
    ensures !Fits(t, u)
  {
    Utf8LengthAtLeast(PrintLine(u, t[u]));
  }

  lemma {:induction false} PrintedIsShort(n: nat, k: nat)
    requires k > 0 && n < Pow10(k)
    ensures |PrintNat(n)| <= k
  {
    if n >= 10 {
      PrintedIsShort(n / 10, k - 1);
    }
  }

  function Pow10(k: nat): nat {
    if k == 0 then 1 else 10 * Pow10(k - 1)
  }

  lemma AsciiWord(s: string)
    requires forall c | c in s :: IsDigit(c) || c == '.' || c == '-'
    ensures Utf8Length(s) == |s|
  {
    assert forall c: char | IsDigit(c) || c == '.' || c == '-' :: c as int < 128;
    Utf8LengthOfAscii(s);
  }

  lemma DottedLength(a: string, b: string, c: string, d: string)
    requires AllDigits(a) && AllDigits(b) && AllDigits(c) && AllDigits(d)
    ensures |Dotted(a, b, c, d)| == |a| + |b| + |c| + |d| + 3
    ensures forall x | x in Dotted(a, b, c, d) :: IsDigit(x) || x == '.' || x == '-'
  {
  }

  lemma OctetLength(n: nat)
    requires n < 256
    ensures |PrintNat(n)| <= 3
  {
    assert Pow10(3) == 1000;
    PrintedIsShort(n, 3);
  }

  lemma QuadLength(v: nat)
    requires v < 0x1_0000_0000
    ensures Utf8Length(PrintQuad(v)) == |PrintQuad(v)| <= 15
  {
    QuadBytes(v);
    var a, b, c, d := v / 0x100_0000, v / 0x1_0000 % 256, v / 0x100 % 256, v % 256;
    OctetLength(a);
    OctetLength(b);
    OctetLength(c);
    OctetLength(d);
    DottedLength(PrintNat(a), PrintNat(b), PrintNat(c), PrintNat(d));
    AsciiWord(PrintQuad(v));
  }

  lemma IntLength(n: int)
    requires -1_000_000_000_000_000_000 < n < 1_000_000_000_000_000_000
    ensures Utf8Length(PrintInt(n)) == |PrintInt(n)| <= 19
  {
    var m := if n < 0 then -n else n;
    Pow10Of18();
    PrintedIsShort(m, 18);
    assert forall x | x in PrintInt(n) :: IsDigit(x) || x == '.' || x == '-';
    AsciiWord(PrintInt(n));
  }

  lemma Pow10Of18()
    ensures Pow10(18) == 1_000_000_000_000_000_000
  {
    assert Pow10(9) == 1_000_000_000;
    assert Pow10(14) == 100_000 * Pow10(9);
  }

  lemma LineLengthIs(u: string, r: WGRecord)
    requires PrintableAddr(r.ip)
    ensures Utf8Length(PrintLine(u, r)) ==
            Utf8Length(u) + Utf8Length(r.pubKey)
            + Utf8Length(PrintQuad(r.ip.value)) + Utf8Length(PrintInt(r.expires)) + 3
  {
    LengthOfFour(u, r.pubKey, PrintQuad(r.ip.value), PrintInt(r.expires));
  }

  lemma LengthOfFour(u: string, k: string, a: string, e: string)
    ensures Utf8Length(u + " " + (k + " " + (a + " " + e))) ==
            Utf8Length(u) + Utf8Length(k) + Utf8Length(a) + Utf8Length(e) + 3
  {
    SpaceBetween(a, e);
    SpaceBetween(k, a + " " + e);
    SpaceBetween(u, k + " " + (a + " " + e));
  }

  lemma SpaceBetween(a: string, b: string)
    ensures Utf8Length(a + " " + b) == Utf8Length(a) + Utf8Length(b) + 1
  {
    Utf8LengthAppend(a + " ", b);
    Utf8LengthAppend(a, " ");
    assert " "[1..] == "";
  }

  /** What the file carries in any case: names and keys that are fields, of 65498 bytes at most
      together, and an expiry of at most 18 digits. */
  lemma OrdinaryIsCarried(u: string, r: WGRecord)
    requires PrintableAddr(r.ip) && Plain(u, r)
    requires -1_000_000_000_000_000_000 < r.expires < 1_000_000_000_000_000_000
    requires Utf8Length(u) + Utf8Length(r.pubKey) <= 65498
    ensures Carried(u, r)
  {
    LineLengthIs(u, r);
    QuadLength(r.ip.value);
    IntLength(r.expires);
  }

  /** The lines of a saved table without newlines or long lines, in some order. */
  lemma SavedLines(text: string, t: Table) returns (order: seq<string>)
    requires Addressable(t) && IsSaved(text, t) && forall u | u in t :: NoNewline(u, t[u]) && Fits(t, u)
    ensures IsOrder(order, t) && ScanLines(text) == Lines(order, t)
  {
    order :| IsOrder(order, t) && text == PrintTable(order, t);
    LinesOfOrder(order, t);
  }

  lemma LinesOfOrder(order: seq<string>, t: Table)
    requires Addressable(t) && IsOrder(order, t) && forall u | u in t :: NoNewline(u, t[u]) && Fits(t, u)
    ensures ScanLines(PrintTable(order, t)) == Lines(order, t)
  {
    forall i | 0 <= i < |order|
      ensures OneLine(Lines(order, t)[i])
    {
      assert order[i] in order;
      LineIsOneLine(order[i], t[order[i]]);
    }
    ScanJoined(Lines(order, t));
    EverythingReadable(order, t);
  }

  /** A saved file is refused if and only if some name and key make more, or fewer,
      than two fields between them: then no lease in it comes back, live or not. */
  lemma SavedFileIsRefusedExactlyWhen(text: string, t: Table, times: seq<int>)
    requires Addressable(t) && IsSaved(text, t) && forall u | u in t :: NoNewline(u, t[u]) && Fits(t, u)
    requires |times| == |ScanLines(text)|
    ensures LoadLines(ScanLines(text), times).Err? <==> exists u :: u in t && !TwoFields(u, t[u])
  {
    var order := SavedLines(text, t);
    LoadFailsExactlyWhen(ScanLines(text), times);
    forall i | 0 <= i < |order|
      ensures order[i] in t && (BadLine(ScanLines(text)[i]) <==> !TwoFields(order[i], t[order[i]]))
    {
      assert order[i] in order;
      PrintedIsBad(order[i], t[order[i]]);
    }
    BadLineOfOrder(order, t, ScanLines(text));
  }

  lemma BadLineOfOrder(order: seq<string>, t: Table, lines: seq<string>)
    requires IsOrder(order, t) && |lines| == |order|
    requires forall i | 0 <= i < |order| :: order[i] in t && (BadLine(lines[i]) <==> !TwoFields(order[i], t[order[i]]))
    ensures AnyBadLine(lines) <==> exists u :: u in t && !TwoFields(u, t[u])
  {
    forall u | u in t && !TwoFields(u, t[u])
      ensures AnyBadLine(lines)
    {
      assert u in order;
      var i :| 0 <= i < |order| && order[i] == u;
      BadLineAt(lines, i);
    }
  }

  lemma PrintedIsBad(u: string, r: WGRecord)
    requires PrintableAddr(r.ip)
    ensures BadLine(PrintLine(u, r)) <==> !TwoFields(u, r)
  {
    ParsePrinted(u, r);
  }

  /** A key of two words makes such a line. */
  lemma SpaceInKeyIsBad(u: string, k1: string, k2: string, r: WGRecord)
    requires IsWord(u) && IsWord(k1) && IsWord(k2) && r.pubKey == k1 + " " + k2
    ensures NoNewline(u, r) && !TwoFields(u, r)
  {
    assert IsSpace('\n');
    FieldsOfWord(k2);
    FieldsAfterWord(k1, k2);
    FieldsAfterWord(u, k1 + " " + k2);
    assert u + " " + (k1 + " " + k2) == u + " " + r.pubKey;
  }

  /** A space before a name is dropped: the record comes back as another user's. */
  lemma SpaceBeforeNameIsDropped(u: string, r: WGRecord)
    requires PrintableAddr(r.ip) && Plain(u, r)
    ensures ParseLine(PrintLine(" " + u, r)) == Entry(u, r)
  {
    var front := u + " " + r.pubKey;
    assert IsSpace(' ');
    assert " " + u + " " + r.pubKey == " " + front && (" " + front)[1..] == front;
    PlainIsTwoFields(u, r);
    ParsePrinted(" " + u, r);
  }

  /** The key under which one record prints as the two lines of others. */
  function TwoRecordKey(r1: WGRecord, v: string, r2: WGRecord): string
    requires PrintableAddr(r1.ip)
  {
    RecordString(r1) + "\n" + v + " " + r2.pubKey
  }

  /** The text of that one record. */
  function TwoRecordText(u: string, r1: WGRecord, v: string, r2: WGRecord): string
    requires PrintableAddr(r1.ip) && PrintableAddr(r2.ip)
  {
    PrintLine(u, r1) + "\n" + (PrintLine(v, r2) + "\n")
  }

  /** A newline in a key forges records: whatever `r1`, `v` and `r2` are, a table with
      the one record of `u` is saved and then read back as these two. */
  lemma NewlineInKeyForges(u: string, r1: WGRecord, v: string, r2: WGRecord, at: int)
    requires Carried(u, r1) && Carried(v, r2) && r1.expires > at && r2.expires > at
    ensures var t := map[u := WGRecord(TwoRecordKey(r1, v, r2), r2.ip, r2.expires)];
            Addressable(t) && IsSaved(TwoRecordText(u, r1, v, r2), t)
    ensures LoadsTo(TwoRecordText(u, r1, v, r2), at, at, map[u := r1][v := r2])
  {
    ForgedTextIsSaved(u, r1, v, r2);
    TwoLines(PrintLine(u, r1), PrintLine(v, r2), u, r1, v, r2, [at, at]);
    TwoLinesLoad(TwoRecordText(u, r1, v, r2), PrintLine(u, r1), PrintLine(v, r2), at, map[u := r1][v := r2]);
  }

  lemma TwoLinesLoad(text: string, l1: string, l2: string, at: int, r: Table)
    requires ScanLines(text) == [l1, l2] && LoadLines([l1, l2], [at, at]) == Ok(r)
    ensures LoadsTo(text, at, at, r)
  {
    var times := [at, at];
    assert ReadAt(text, times, at, at);
  }

  lemma ForgedTextIsSaved(u: string, r1: WGRecord, v: string, r2: WGRecord)
    requires PrintableAddr(r1.ip) && PrintableAddr(r2.ip)
    ensures IsSaved(TwoRecordText(u, r1, v, r2), map[u := WGRecord(TwoRecordKey(r1, v, r2), r2.ip, r2.expires)])
  {
    ForgedLine(u, r1, v, r2);
    OneRecordIsSaved(u, WGRecord(TwoRecordKey(r1, v, r2), r2.ip, r2.expires));
    assert TwoRecordText(u, r1, v, r2) == PrintLine(u, r1) + "\n" + PrintLine(v, r2) + "\n";
  }

  lemma OneRecordIsSaved(u: string, r: WGRecord)
    requires PrintableAddr(r.ip)
    ensures IsSaved(PrintLine(u, r) + "\n", map[u := r])
  {
    var t := map[u := r];
    assert Lines([u], t) == [PrintLine(u, r)] && JoinLines([PrintLine(u, r)]) == PrintLine(u, r) + "\n" + "";
    assert IsOrder([u], t);
  }

  lemma ForgedLine(u: string, r1: WGRecord, v: string, r2: WGRecord)
    requires PrintableAddr(r1.ip) && PrintableAddr(r2.ip)
    ensures PrintLine(u, WGRecord(TwoRecordKey(r1, v, r2), r2.ip, r2.expires)) ==
            PrintLine(u, r1) + "\n" + PrintLine(v, r2)
  {
    JoinTwo(u, RecordString(r1), v, r2.pubKey, PrintQuad(r2.ip.value) + " " + PrintInt(r2.expires));
  }

  /** `u a`, a newline and `v k e`, grouped in two ways. */
  lemma JoinTwo(u: string, a: string, v: string, k: string, e: string)
    ensures u + " " + ((a + "\n" + v + " " + k) + " " + e) == (u + " " + a) + "\n" + (v + " " + (k + " " + e))
  {
    var left, right := u + " " + a, v + " " + (k + " " + e);
    assert (v + " " + k) + " " + e == right;
    assert a + "\n" + v + " " + k == a + "\n" + (v + " " + k);
    assert (a + "\n" + (v + " " + k)) + " " + e == a + "\n" + right;
    assert u + " " + (a + "\n" + right) == left + "\n" + right;
  }

  lemma TwoLines(l1: string, l2: string, u: string, r1: WGRecord, v: string, r2: WGRecord, times: seq<int>)
    requires PrintableAddr(r1.ip) && PrintableAddr(r2.ip) && Plain(u, r1) && Plain(v, r2)
    requires l1 == PrintLine(u, r1) && l2 == PrintLine(v, r2) && Short(l1) && Short(l2)
    requires |times| == 2 && times[0] < r1.expires && times[1] < r2.expires
    ensures var text := l1 + "\n" + (l2 + "\n");
            ScanLines(text) == [l1, l2] && LoadLines([l1, l2], times) == Ok(map[u := r1][v := r2])
  {
    LineStandsFor(u, r1, times[0]);
    LineStandsFor(v, r2, times[1]);
    ScanTwoLines(l1, l2);
    LoadTwoLines(l1, l2, u, r1, v, r2, times);
  }

  lemma ScanTwoLines(l1: string, l2: string)
    requires OneLine(l1) && OneLine(l2) && Short(l1) && Short(l2)
    ensures ScanLines(l1 + "\n" + (l2 + "\n")) == [l1, l2]
  {
    assert l2 + "\n" == l2 + "\n" + "";
    ScanFirstLine(l1, l2 + "\n");
    ScanFirstLine(l2, "");
  }

  lemma LoadTwoLines(l1: string, l2: string, u: string, r1: WGRecord, v: string, r2: WGRecord, times: seq<int>)
    requires |times| == 2 && StandsFor(l1, u, r1, times[0]) && StandsFor(l2, v, r2, times[1])
    requires times[0] < r1.expires && times[1] < r2.expires
    ensures LoadLines([l1, l2], times) == Ok(map[u := r1][v := r2])
  {
    LoadEntry(map[], l1, u, r1, times[0], times[0]);
    LoadEntry(map[u := r1], l2, v, r2, times[1], times[1]);
    assert [l1, l2][..1] == [l1] && times[..1] == [times[0]] && [l1][..0] == [];
    assert LoadLines([], []) == Ok(map[]);
    LoadNext([l1], [times[0]], map[]);
    LoadNext([l1, l2], times, map[u := r1]);
  }

  /** A user whose key is two words has no lease in the file that can be read, and
      neither has anybody else. */
  lemma SpaceInKeyIsRefused(text: string, t: Table, u: string, k1: string, k2: string, times: seq<int>)
    requires Addressable(t) && IsSaved(text, t) && forall v | v in t :: NoNewline(v, t[v]) && Fits(t, v)
    requires u in t && IsWord(u) && IsWord(k1) && IsWord(k2) && t[u].pubKey == k1 + " " + k2
    requires |times| == |ScanLines(text)|
    ensures LoadLines(ScanLines(text), times).Err?
  {
    SpaceInKeyIsBad(u, k1, k2, t[u]);
    SavedFileIsRefusedExactlyWhen(text, t, times);
  }

  lemma SmallSpacedRecordIsRefused(u: string, k1: string, k2: string, r: WGRecord, text: string, times: seq<int>)
    requires IsWord(u) && IsWord(k1) && IsWord(k2) && r.pubKey == k1 + " " + k2
    requires |u| == |k1| == |k2| == 1 && r.ip == Addr(V4, 0) && r.expires == 0
    requires IsSaved(text, map[u := r]) && |times| == |ScanLines(text)|
    ensures LoadLines(ScanLines(text), times).Err?
  {
    SpaceInKeyIsBad(u, k1, k2, r);
    SmallLineIsShort(u, r);
    SpaceInKeyIsRefused(text, map[u := r], u, k1, k2, times);
  }

  lemma SmallSpacedRecordsAreRefused(u: string, k1: string, k2: string) returns (r: WGRecord)
    requires IsWord(u) && IsWord(k1) && IsWord(k2) && |u| == |k1| == |k2| == 1
    ensures r == WGRecord(k1 + " " + k2, Addr(V4, 0), 0)
    ensures forall text, times | IsSaved(text, map[u := r]) && |times| == |ScanLines(text)| ::
              LoadLines(ScanLines(text), times).Err?
  {
    r := WGRecord(k1 + " " + k2, Addr(V4, 0), 0);
    forall text, times | IsSaved(text, map[u := r]) && |times| == |ScanLines(text)|
      ensures LoadLines(ScanLines(text), times).Err?
    {
      SmallSpacedRecordIsRefused(u, k1, k2, r, text, times);
    }
  }

  /** One input: user `u` posts the key `a b`. */
  lemma KeyWithSpaceIsRefused() returns (u: string, r: WGRecord)
    ensures u == "u" && r == WGRecord("a b", Addr(V4, 0), 0)
    ensures forall text, times | IsSaved(text, map[u := r]) && |times| == |ScanLines(text)| ::
              LoadLines(ScanLines(text), times).Err?
  {
    u := "u";
    r := SmallSpacedRecordsAreRefused(u, "a", "b");
  }

  lemma SmallLineIsShort(u: string, r: WGRecord)
    requires |u| == 1 && |r.pubKey| == 3 && r.ip == Addr(V4, 0) && r.expires == 0
    ensures Short(PrintLine(u, r))
  {
    assert PrintNat(0) == ['0'];
    assert |Dotted(['0'], ['0'], ['0'], ['0'])| == 7;
    assert |PrintLine(u, r)| == 15;
    Utf8LengthAtMost(PrintLine(u, r));
  }

  lemma {:induction false} Utf8LengthAtMost(s: string)
    ensures Utf8Length(s) <= 4 * |s|
  {
    if s != "" {
      Utf8LengthAtMost(s[1..]);
    }
  }
}
