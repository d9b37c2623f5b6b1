/**
 Restarts. What LeaseProtocol says across the start of a server is for files that carry
 what is live in them; the server itself accepts any name and any key. Here is exactly
 which tables and which requests survive a restart, and what three others do: stop the
 server from starting, hand a live lease's address to somebody else, forge records.
 */
module LeaseRestart {
  import opened Wrappers
  import opened Address
  import opened LeaseTable
  import opened LeaseFile
  import opened LeaseManager
  import opened LeaseProtocol
  import opened LeaseSurvival
  import opened Text

  lemma SoundIsAddressable(p: Prefix, t: Table)
    requires p.Valid() && p.addr.family.V4? && Sound(p, t)
    ensures Addressable(t)
  {
    forall u | u in t
      ensures PrintableAddr(t[u].ip)
    {
      AvailableIsPrintable(p, map[], t[u].ip.value);
    }
  }

  /** Some start of the server, after a crash now, finds the table as it is. */
  ghost predicate CanRestoreUnchanged(s: World, from: int, to: int) {
    exists s' :: StartStep(Crashed(s), from, to, s') && s'.records == s.records
  }

  /** From whatever text the table was saved as, a start at that time finds exactly the
      leases that are live. */
  ghost predicate AlwaysRestores(s: World, at: int)
    requires Addressable(s.records)
  {
    forall text | IsSaved(text, s.records) :: CanRestoreLive(s, text, at)
  }

  ghost predicate CanRestoreLive(s: World, text: string, at: int) {
    exists s' :: StartStep(Crashed(s.(file := text)), at, at, s') && s'.records == Live(s.records, at)
  }

  /** Exactly when a restart gives everybody the live lease back, whatever the map order of
      the save: in any state whose table has IPv4 addresses, as every reachable one has, and
      for any names and keys in it. */
  lemma RestartRestoresExactlyWhen(s: World, at: int)
    requires Addressable(s.records) && s.now <= at
    ensures AlwaysRestores(s, at) <==> SurvivesFile(s.records, at)
  {
    AlwaysLoadsExactlyWhen(s.records, at);
    forall text
      ensures CanRestoreLive(s, text, at) <==> LoadsTo(text, at, at, Live(s.records, at))
    {
      StartExists(Crashed(s.(file := text)), at, at, Live(s.records, at));
    }
  }

  /** While all leases are live the order does not matter, nor the time the reading takes:
      a restart finds the table unchanged if and only if the file carries all of it. */
  lemma LiveRestartExactlyWhen(s: World, from: int, to: int)
    requires IsSavedFrom(s.file, s.records) && s.now <= from <= to
    requires forall u | u in s.records :: s.records[u].expires > to
    ensures CanRestoreUnchanged(s, from, to) <==> Storable(s.records)
  {
    LoadsToItselfExactlyWhen(s.file, s.records, from, to);
    StartExists(Crashed(s), from, to, s.records);
  }

  /** A request was served, and its table got into the file. */
  ghost predicate ServedAndSaved(p: Prefix, s0: World, user: string, key: string, expiry: int, s1: World, s2: World)
    requires p.Valid()
  {
    && Upsert(p, s0.records, user, key, expiry).Ok? && RequestStep(p, s0, user, key, expiry, s1)
    && s2.records == s1.records && IsSavedFrom(s2.file, s2.records)
  }

  lemma ServedTable(p: Prefix, s0: World, user: string, key: string, expiry: int, s1: World, s2: World)
    requires p.Valid() && ServedAndSaved(p, s0, user, key, expiry, s1, s2)
    ensures Addressable(s2.records) && user in s2.records && s2.records[user].pubKey == key
    ensures forall u | u in s2.records && u != user :: u in s0.records && s2.records[u] == s0.records[u]
  {
    UpsertLeavesOthers(p, s0.records, user, key, expiry);
    RecordHasKey(p, s0.records, user, key, expiry);
  }

  lemma RecordHasKey(p: Prefix, t: Table, user: string, key: string, expiry: int)
    requires p.Valid() && Upsert(p, t, user, key, expiry).Ok?
    ensures Upsert(p, t, user, key, expiry).value.record.pubKey == key
  {
  }

  /** The exact condition on one request, where the file carries the records of the others:
      after it is served and saved, a restart gives everybody the live lease back if and
      only if the record of that request survives: while it is live, its name and key are
      fields and its line fits the scanner's buffer; once it has expired, what its lines
      are read as does no harm. */
  lemma RequestSurvivesExactlyWhen(
    p: Prefix, s0: World, user: string, key: string, expiry: int, s1: World, s2: World, at: int)
    requires p.Valid() && ServedAndSaved(p, s0, user, key, expiry, s1, s2) && s2.now <= at
    requires forall u | u in s0.records && u != user :: Carried(u, s0.records[u])
    ensures Addressable(s2.records) && user in s2.records
    ensures AlwaysRestores(s2, at) <==> RecordSurvives(s2.records, user, at)
  {
    ServedTable(p, s0, user, key, expiry, s1, s2);
    OneRecordDecides(s2.records, user, at);
    RestartRestoresExactlyWhen(s2, at);
  }

  lemma StartExists(s: World, from: int, to: int, t: Table)
    requires !s.running && s.now <= from <= to
    ensures (exists s' :: StartStep(s, from, to, s') && s'.records == t) <==> LoadsTo(s.file, from, to, t)
  {
    if LoadsTo(s.file, from, to, t) {
      var s' := s.(running := true, now := to, records := t, ops := map[s.nextId := Boot], nextId := s.nextId + 1,
                   loadedFrom := from, loadedTo := to, saved := false, deviceStale := false, fileStale := false);
      assert StartStep(s, from, to, s') && s'.records == t;
    }
  }

  ghost predicate CanStart(s: World, from: int, to: int) {
    exists s' :: StartStep(s, from, to, s')
  }

  /** The server cannot start again, whatever text its table was saved as, at any time. */
  ghost predicate NeverStarts(s: World)
    requires Addressable(s.records)
  {
    forall text | IsSaved(text, s.records) :: NeverStartsFrom(Crashed(s.(file := text)))
  }

  ghost predicate NeverStartsFrom(s: World) {
    forall from, to :: !CanStart(s, from, to)
  }

  /** Exactly when the server never starts again, for any names and keys: some record on its
      own is read as an error, and so is every record that stops the scanner. */
  lemma NeverStartsExactlyWhen(s: World, now: int)
    requires Addressable(s.records)
    ensures NeverStarts(s) <==>
            && (exists u :: u in s.records && ReadAlone(u, s.records[u], now).Err?)
            && (forall u | u in s.records && !Whole(u, s.records[u]) :: ReadAlone(u, s.records[u], now).Err?)
  {
    NeverStartsIfRefused(s);
    RefusedExactlyWhen(s.records, now);
  }

  lemma NeverStartsIfRefused(s: World)
    requires Addressable(s.records)
    ensures NeverStarts(s) <==> AlwaysRefused(s.records)
  {
    forall text
      ensures NeverStartsFrom(Crashed(s.(file := text))) <==> Refused(text)
    {
      RefusedNeverStarts(Crashed(s.(file := text)));
    }
  }

  lemma RefusedNeverStarts(s: World)
    requires !s.running
    ensures NeverStartsFrom(s) <==> Refused(s.file)
  {
    if !Refused(s.file) {
      ReadableStarts(s);
    }
    forall from, to | Refused(s.file)
      ensures !CanStart(s, from, to)
    {
      RefusedNeverLoads(s.file, from, to);
    }
  }

  lemma RefusedNeverLoads(text: string, from: int, to: int)
    requires Refused(text)
    ensures forall t :: !LoadsTo(text, from, to, t)
  {
  }

  lemma ReadableStarts(s: World)
    requires !s.running && !Refused(s.file)
    ensures CanStart(s, s.now, s.now)
  {
    var now := Constant(|ScanLines(s.file)|, s.now);
    RefusedAtAnyTime(s.file, s.now);
    var r := LoadAt(ScanLines(s.file), s.now);
    assert ReadAt(s.file, now, s.now, s.now) && LoadLines(ScanLines(s.file), now) == Ok(r.value);
    StartExists(s, s.now, s.now, r.value);
  }

  /** A key with a space in it, where every other record is read to its end: the server
      never starts again. */
  lemma SpaceInKeyStopsServer(
    p: Prefix, s0: World, user: string, k1: string, k2: string, expiry: int, s1: World, s2: World)
    requires p.Valid() && ServedAndSaved(p, s0, user, k1 + " " + k2, expiry, s1, s2)
    requires IsWord(user) && IsWord(k1) && IsWord(k2)
    requires Addressable(s2.records) && user in s2.records && Short(PrintLine(user, s2.records[user]))
    requires forall u | u in s2.records && u != user :: Whole(u, s2.records[u])
    ensures NeverStarts(s2)
  {
    ServedTable(p, s0, user, k1 + " " + k2, expiry, s1, s2);
    SpaceInKeyIsBad(user, k1, k2, s2.records[user]);
    OneLineIsRefusedExactlyWhen(user, s2.records[user], 0);
    NeverStartsExactlyWhen(s2, 0);
  }

  /** A key that fills the scanner's buffer: written first, its line hides the whole file,
      and then the next newcomer is given the lowest address, though the lease of its
      holder `v` is as live as it was. */
  lemma LongKeySharesAddress(p: Prefix, t: Table, u: string, v: string, w: string, key: string, expiry: int, at: int)
    returns (text: string)
    requires p.Valid() && p.addr.family.V4? && Sound(p, t)
    requires u in t && NoNewline(u, t[u]) && |t[u].pubKey| >= 65536
    requires v in t && IsLeast(t[v].ip.value, Block(p) - Reserved(p)) && w != "" && key != ""
    ensures IsSavedFrom(text, t) && LoadsTo(text, at, at, map[])
    ensures var o := Upsert(p, map[], w, key, expiry); o.Ok? && o.value.record.ip == t[v].ip
  {
    SoundIsAddressable(p, t);
    LongKeyDoesNotFit(t, u);
    var order := LongLineHidesAll(t, u);
    text := PrintTable(order, t);
    assert ReadAt(text, [], at, at) && LoadLines(ScanLines(text), []) == Ok(map[]);
    assert Leased(map[]) == {};
    assert Available(p, map[]) == Block(p) - Reserved(p);
    LeastIsUnique(t[v].ip.value, Available(p, map[]));
  }

  /** A newline in a key: from a sound table with the one user `u`, a restart makes an
      unsound one, in which `u` and a user of his choice hold the same address. */
  lemma NewlineInKeyBreaksSoundness(p: Prefix, u: string, r1: WGRecord, v: string, r2: WGRecord, at: int)
    returns (t: Table, text: string, restarted: Table)
    requires p.Valid() && p.addr.family.V4? && u != v && r1.ip == r2.ip
    requires r2.ip.family == p.addr.family && r2.ip.value in Block(p) - Reserved(p)
    requires Carried(u, r1) && Carried(v, r2) && r1.expires > at && r2.expires > at
    ensures t == map[u := WGRecord(TwoRecordKey(r1, v, r2), r2.ip, r2.expires)] && Sound(p, t)
    ensures IsSavedFrom(text, t) && LoadsTo(text, at, at, restarted) && !Sound(p, restarted)
  {
    t := map[u := WGRecord(TwoRecordKey(r1, v, r2), r2.ip, r2.expires)];
    text := TwoRecordText(u, r1, v, r2);
    restarted := map[u := r1][v := r2];
    OneHolderIsSound(p, u, t[u]);
    TwoHoldersAreNot(p, u, r1, v, r2);
    NewlineInKeyForges(u, r1, v, r2, at);
  }

  lemma OneHolderIsSound(p: Prefix, u: string, r: WGRecord)
    requires p.Valid() && r.ip.family == p.addr.family && r.ip.value in Block(p) - Reserved(p)
    ensures Sound(p, map[u := r])
  {
  }

  lemma TwoHoldersAreNot(p: Prefix, u: string, r1: WGRecord, v: string, r2: WGRecord)
    requires p.Valid() && u != v && r1.ip == r2.ip
    ensures !Sound(p, map[u := r1][v := r2])
  {
    var t := map[u := r1][v := r2];
    assert u in t && v in t && t[u].ip == t[v].ip;
  }

  lemma {:induction false} DistinctCount(order: seq<string>, s: set<string>)
    requires forall u :: u in order <==> u in s
    requires forall i, j | 0 <= i < j < |order| :: order[i] != order[j]
    ensures |s| == |order|
  {
    if order == [] {
      assert s == {};
    } else {
      var n := |order| - 1;
      var rest := s - {order[n]};
      forall u
        ensures u in order[..n] <==> u in rest
      {
        assert order == order[..n] + [order[n]];
      }
      DistinctCount(order[..n], rest);
      assert s == rest + {order[n]};
    }
  }

  lemma SameLines(order: seq<string>, t: Table, part: Table)
    requires Addressable(t) && Addressable(part)
    requires forall u | u in order :: u in t && u in part && part[u] == t[u]
    ensures Lines(order, part) == Lines(order, t)
  {
    forall i | 0 <= i < |order|
      ensures Lines(order, part)[i] == Lines(order, t)[i]
    {
      assert order[i] in order;
    }
  }

  lemma PrintedPart(order: seq<string>, t: Table, part: Table)
    requires Addressable(t) && IsPartOfOrder(order, t)
    requires part == map u | u in order :: t[u]
    ensures Addressable(part) && IsOrder(order, part) && PrintTable(order, part) == PrintTable(order, t)
    ensures |part| == |order|
  {
    SameLines(order, t, part);
    DistinctCount(order, part.Keys);
  }

  /** A save that is cut short after `n` lines, which truncated the file first: a restart
      gives back exactly `n` leases, so all of them if and only if all lines were
      written. */
  lemma CutShortSaveKeepsWhatWasWritten(text: string, t: Table, n: nat, from: int, to: int, r: Table)
    requires Storable(t) && HoldsLines(text, t, n) && from <= to && forall u | u in t :: t[u].expires > to
    requires LoadsTo(text, from, to, r)
    ensures |r| == n && forall u | u in r :: u in t && r[u] == t[u]
    ensures r == t <==> n == |t|
  {
    var order, part := PartWritten(text, t, n);
    StorableIsRestorable(part, from);
    RestorableLoads(text, part, from, to, r);
    LiveIsLoaded(part, r, from, to);
    PartIsWhole(t, r);
  }

  lemma PartWritten(text: string, t: Table, n: nat) returns (order: seq<string>, part: Table)
    requires Storable(t) && HoldsLines(text, t, n)
    ensures Storable(part) && IsSaved(text, part) && |part| == n
    ensures forall u | u in part :: u in t && part[u] == t[u]
  {
    order :| IsPartOfOrder(order, t) && |order| == n && text == PrintTable(order, t);
    part := map u | u in order :: t[u];
    PrintedPart(order, t, part);
  }

  lemma PartIsWhole(t: Table, r: Table)
    requires forall u | u in r :: u in t && r[u] == t[u]
    ensures r == t <==> |r| == |t|
  {
    assert r.Keys <= t.Keys;
    if |r| == |t| {
      assert |t.Keys - r.Keys| == 0;
      assert t.Keys - r.Keys == {};
      assert r.Keys == t.Keys;
    }
  }

  // ---------- a save cut short in the middle of a line ----------

  /** The line of a record up to its expiry. */
  function Head(u: string, r: WGRecord): string
    requires PrintableAddr(r.ip)
  {
    u + " " + r.pubKey + " " + PrintQuad(r.ip.value) + " "
  }

  lemma TornLineIsBad(u: string, r: WGRecord, n: nat)
    requires Carried(u, r) && 0 < n <= |Head(u, r)|
    ensures BadLine(Head(u, r)[..n])
  {
    var front := u + " " + r.pubKey;
    var quad := PrintQuad(r.ip.value);
    ParsePrintQuad(r.ip.value);
    PlainIsTwoFields(u, r);
    FieldsBeforeWord(front, quad);
    FieldsBeforeSpace(front + " " + quad);
    FieldsOfPrefix(Head(u, r), n);
    TooFewFields(Head(u, r)[..n]);
  }

  lemma TooFewFields(line: string)
    requires line != "" && |Fields(line)| < 4
    ensures BadLine(line)
  {
  }

  lemma TornLineIsOneLine(u: string, r: WGRecord, n: nat)
    requires Carried(u, r) && 0 < n <= |Head(u, r)|
    ensures OneLine(Head(u, r)[..n])
  {
    var head := Head(u, r);
    ParsePrintQuad(r.ip.value);
    assert IsSpace('\n') && IsSpace('\r');
    assert forall i | 0 <= i < |head| :: head[i] != '\n' && head[i] != '\r' by {
      NoBreaks(u, r.pubKey, PrintQuad(r.ip.value));
    }
    assert head[..n][n - 1] == head[n - 1];
  }

  lemma NoBreaks(u: string, k: string, a: string)
    requires IsWord(u) && IsWord(k) && IsWord(a)
    ensures var s := u + " " + k + " " + a + " "; forall i | 0 <= i < |s| :: s[i] != '\n' && s[i] != '\r'
  {
    assert IsSpace('\n') && IsSpace('\r');
  }

  lemma ChunkIsShort(u: string, r: WGRecord)
    requires Carried(u, r)
    ensures EndsLine(Chunk(u, r)) && AllShort(Chunk(u, r))
  {
    PlainAlone(u, r, 0);
  }

  lemma EndsLineAppend(a: string, b: string)
    requires EndsLine(a) && EndsLine(b)
    ensures EndsLine(a + b)
  {
    if b == "" {
      assert a + b == a;
    }
  }

  lemma {:induction false} StorablePrints(order: seq<string>, t: Table)
    requires Storable(t) && forall u | u in order :: u in t
    ensures EndsLine(PrintTable(order, t)) && AllShort(PrintTable(order, t))
  {
    if order != [] {
      var u, rest := order[0], order[1..];
      StorablePrints(rest, t);
      PrintTableNext(order, t);
      ChunkIsShort(u, t[u]);
      AllShortAppend(Chunk(u, t[u]), PrintTable(rest, t));
      EndsLineAppend(Chunk(u, t[u]), PrintTable(rest, t));
    }
  }

  lemma LastLineOf(text: string, torn: string)
    requires EndsLine(text) && AllShort(text) && OneLine(torn) && torn != "" && Short(torn)
    ensures ScanLines(text + torn) == ScanLines(text) + [torn]
  {
    ScanAppend(text, torn);
    assert LineLength(torn) == |torn| && torn[..|torn|] == torn;
  }

  lemma TornFileIsRefused(text: string, torn: string, times: seq<int>)
    requires EndsLine(text) && AllShort(text) && OneLine(torn) && torn != "" && Short(torn) && BadLine(torn)
    requires |times| == |ScanLines(text + torn)|
    ensures LoadLines(ScanLines(text + torn), times).Err?
  {
    LastLineOf(text, torn);
    var lines := ScanLines(text + torn);
    BadLineAt(lines, |lines| - 1);
    LoadFailsExactlyWhen(lines, times);
  }

  lemma {:induction false} Utf8LengthOfPrefix(s: string, n: nat)
    requires n <= |s|
    ensures Utf8Length(s[..n]) <= Utf8Length(s)
  {
    if n > 0 {
      assert s[..n][1..] == s[1..][..n - 1];
      Utf8LengthOfPrefix(s[1..], n - 1);
    }
  }

  lemma TornLineIsShort(u: string, r: WGRecord, n: nat)
    requires Carried(u, r) && n <= |Head(u, r)|
    ensures Short(Head(u, r)[..n])
  {
    var line := PrintLine(u, r);
    HeadIsPrefix(u, r.pubKey, PrintQuad(r.ip.value), PrintInt(r.expires));
    assert Head(u, r)[..n] == line[..n];
    Utf8LengthOfPrefix(line, n);
  }

  lemma HeadIsPrefix(u: string, k: string, a: string, e: string)
    ensures u + " " + (k + " " + (a + " " + e)) == (u + " " + k + " " + a + " ") + e
  {
  }

  /** A save that is cut short in the middle of a line, before its expiry: the file is
      refused, and with it the leases whose lines were written. */
  lemma TornSaveIsRefused(order: seq<string>, t: Table, u: string, n: nat, times: seq<int>)
    requires Storable(t) && IsPartOfOrder(order, t) && u in t && 0 < n <= |Head(u, t[u])|
    requires |times| == |ScanLines(PrintTable(order, t) + Head(u, t[u])[..n])|
    ensures LoadLines(ScanLines(PrintTable(order, t) + Head(u, t[u])[..n]), times).Err?
  {
    StorablePrints(order, t);
    TornLineIsBad(u, t[u], n);
    TornLineIsOneLine(u, t[u], n);
    TornLineIsShort(u, t[u], n);
    TornFileIsRefused(PrintTable(order, t), Head(u, t[u])[..n], times);
  }
}
