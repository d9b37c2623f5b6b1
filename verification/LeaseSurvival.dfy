/**
 Exactly which tables survive their leases file, for any names and keys at all. A
 record may print as several lines, or as none that the scanner hands out; what counts
 is what its own lines are read as, and whether they are read to the end.
 */
module LeaseSurvival {
  import opened Wrappers
  import opened Address
  import opened LeaseTable
  import opened LeaseFile
  import opened Text

  // ---------- scanning and loading in pieces ----------

  /** No line of the text is too long for the scanner. */
  ghost predicate AllShort(text: string)
    decreases |text|
  {
    text == "" ||
    var n := LineLength(text);
    Short(text[..n]) && (n == |text| || AllShort(text[n + 1..]))
  }

  ghost predicate EndsLine(text: string) {
    text == "" || text[|text| - 1] == '\n'
  }

  /** What the scanner does with the first line of a text. */
  lemma ScanNext(text: string, line: string, rest: string)
    requires text != "" && LineLength(text) < |text|
    requires line == text[..LineLength(text)] && rest == text[LineLength(text) + 1..]
    ensures ScanLines(text) == if Short(line) then [DropCR(line)] + ScanLines(rest) else []
    ensures AllShort(text) <==> Short(line) && AllShort(rest)
  {
  }

  /** What the scanner hands out of two texts, the first of which ends a line. */
  lemma {:induction false} ScanAppend(a: string, b: string)
    requires EndsLine(a)
    ensures ScanLines(a + b) == if AllShort(a) then ScanLines(a) + ScanLines(b) else ScanLines(a)
    decreases |a|
  {
    if a == "" {
      assert a + b == b;
    } else {
      FirstLineOf(a, b);
      var n := LineLength(a);
      var line, rest := a[..n], a[n + 1..];
      ScanNext(a, line, rest);
      ScanNext(a + b, line, rest + b);
      ScanAppend(rest, b);
      Regroup([DropCR(line)], ScanLines(rest), ScanLines(b));
    }
  }

  lemma Regroup(a: seq<string>, b: seq<string>, c: seq<string>)
    ensures a + (b + c) == (a + b) + c
  {
  }

  lemma FirstLineOf(a: string, b: string)
    requires a != "" && EndsLine(a)
    ensures var n := LineLength(a);
            && n < |a| && LineLength(a + b) == n && (a + b)[..n] == a[..n]
            && (a + b)[n + 1..] == a[n + 1..] + b && EndsLine(a[n + 1..])
  {
    var n := LineLength(a);
    assert n < |a|;
    assert forall i | 0 <= i <= n :: (a + b)[i] == a[i];
  }

  lemma {:induction false} AllShortAppend(a: string, b: string)
    requires EndsLine(a)
    ensures AllShort(a + b) <==> AllShort(a) && AllShort(b)
    decreases |a|
  {
    if a == "" {
      assert a + b == b;
    } else {
      FirstLineOf(a, b);
      var n := LineLength(a);
      var line, rest := a[..n], a[n + 1..];
      ScanNext(a, line, rest);
      ScanNext(a + b, line, rest + b);
      AllShortAppend(rest, b);
    }
  }

  function LoadAt(lines: seq<string>, now: int): Result<Table, LoadError> {
    LoadLines(lines, Constant(|lines|, now))
  }

  /** One reading after the other; later records replace earlier ones. */
  function Merge(a: Result<Table, LoadError>, b: Result<Table, LoadError>): Result<Table, LoadError> {
    match (a, b)
    case (Err(e), _) => Err(e)
    case (_, Err(e)) => Err(e)
    case (Ok(t), Ok(r)) => Ok(t + r)
  }

  lemma LoadAtNext(lines: seq<string>, line: string, now: int)
    ensures LoadAt(lines + [line], now) ==
            match LoadAt(lines, now) case Err(e) => Err(e) case Ok(t) => LoadLine(t, line, now)
  {
    var all, times := lines + [line], Constant(|lines| + 1, now);
    assert all[..|lines|] == lines && times[..|lines|] == Constant(|lines|, now);
  }

  lemma LoadLineMerges(t: Table, r: Table, line: string, now: int)
    ensures LoadLine(t + r, line, now) == Merge(Ok(t), LoadLine(r, line, now))
  {
    var l := ParseLine(line);
    if l.Entry? {
      assert (t + r)[l.user := l.record] == t + r[l.user := l.record];
    }
  }

  lemma {:induction false} LoadAppend(a: seq<string>, b: seq<string>, now: int)
    ensures LoadAt(a + b, now) == Merge(LoadAt(a, now), LoadAt(b, now))
  {
    if b == [] {
      assert a + b == a;
      NothingMerges(LoadAt(a, now));
    } else {
      var n := |b| - 1;
      LoadAppend(a, b[..n], now);
      assert b[..n] + [b[n]] == b && (a + b[..n]) + [b[n]] == a + b;
      LoadAtNext(b[..n], b[n], now);
      LoadAtNext(a + b[..n], b[n], now);
      LastMerges(LoadAt(a, now), LoadAt(b[..n], now), b[n], now);
    }
  }

  lemma NothingMerges(a: Result<Table, LoadError>)
    ensures Merge(a, Ok(map[])) == a
  {
    if a.Ok? {
      assert a.value + map[] == a.value;
    }
  }

  lemma LastMerges(a: Result<Table, LoadError>, b: Result<Table, LoadError>, line: string, now: int)
    ensures (match Merge(a, b) case Err(e) => Err(e) case Ok(t) => LoadLine(t, line, now)) ==
            Merge(a, match b case Err(e) => Err(e) case Ok(r) => LoadLine(r, line, now))
  {
    if a.Ok? && b.Ok? {
      LoadLineMerges(a.value, b.value, line, now);
    }
  }

  // ---------- one record on its own ----------

  function Chunk(u: string, r: WGRecord): string
    requires PrintableAddr(r.ip)
  {
    PrintLine(u, r) + "\n"
  }

  /** The scanner gets to the end of the record's lines. */
  ghost predicate Whole(u: string, r: WGRecord)
    requires PrintableAddr(r.ip)
  {
    AllShort(Chunk(u, r))
  }

  /** What the record's own lines are read as. */
  function ReadAlone(u: string, r: WGRecord, now: int): Result<Table, LoadError>
    requires PrintableAddr(r.ip)
  {
    LoadAt(ScanLines(Chunk(u, r)), now)
  }

  lemma ScanChunk(line: string)
    requires OneLine(line)
    ensures AllShort(line + "\n") <==> Short(line)
    ensures ScanLines(line + "\n") == if Short(line) then [line] else []
  {
    var text := line + "\n";
    assert text == line + "\n" + "";
    assert text[|line|] == '\n' && forall i | 0 <= i < |line| :: text[i] == line[i];
    assert LineLength(text) == |line|;
    assert text[..|line|] == line && text[|line| + 1..] == "";
    if Short(line) {
      ScanFirstLine(line, "");
    } else {
      ScanLongLine(line, "");
    }
  }

  /** A record whose name and key are fields is read as itself, while it is live and its
      line fits, and otherwise as nothing. */
  lemma PlainAlone(u: string, r: WGRecord, now: int)
    requires PrintableAddr(r.ip) && Plain(u, r)
    ensures Whole(u, r) <==> Short(PrintLine(u, r))
    ensures ReadAlone(u, r, now) == Ok(if Whole(u, r) && r.expires > now then map[u := r] else map[])
  {
    PlainIsTwoFields(u, r);
    LineIsOneLine(u, r);
    ParsePrintLine(u, r);
    EntryAlone(PrintLine(u, r), u, r, now);
  }

  lemma EntryAlone(line: string, u: string, r: WGRecord, now: int)
    requires OneLine(line) && ParseLine(line) == Entry(u, r)
    ensures AllShort(line + "\n") <==> Short(line)
    ensures LoadAt(ScanLines(line + "\n"), now) == Ok(if Short(line) && r.expires > now then map[u := r] else map[])
  {
    ScanChunk(line);
    if Short(line) {
      OneEntryLoads(line, u, r, now);
    }
  }

  lemma OneEntryLoads(line: string, u: string, r: WGRecord, now: int)
    requires ParseLine(line) == Entry(u, r)
    ensures LoadAt([line], now) == Ok(if r.expires > now then map[u := r] else map[])
  {
    assert [] + [line] == [line];
    LoadAtNext([], line, now);
  }

  // ---------- records in some order ----------

  /** What a record on its own is read as, and whether the scanner gets to its end. */
  datatype Outcome = Outcome(read: Result<Table, LoadError>, whole: bool)

  /** Reading the records of these users one after the other, until one stops the scanner. */
  function Replay(order: seq<string>, f: string -> Outcome): Result<Table, LoadError> {
    if order == [] then Ok(map[])
    else if f(order[0]).whole then Merge(f(order[0]).read, Replay(order[1..], f))
    else f(order[0]).read
  }

  ghost predicate Lists(order: seq<string>, users: set<string>) {
    && (forall u :: u in order <==> u in users)
    && (forall i, j | 0 <= i < j < |order| :: order[i] != order[j])
  }

  ghost predicate AlwaysReplays(users: set<string>, f: string -> Outcome, live: Table) {
    forall order | Lists(order, users) :: Replay(order, f) == Ok(live)
  }

  ghost predicate Part(a: Table, b: Table) {
    forall u | u in a :: u in b && a[u] == b[u]
  }

  ghost predicate AllWhole(users: set<string>, f: string -> Outcome) {
    forall u | u in users :: f(u).whole
  }

  /** What one record may be read as. If the scanner gets to the end of every record,
      nothing but live records. If some record stops the scanner, that one must itself
      read as all of the live records, and no other may add a user who is not live. */
  ghost predicate Fitting(o: Outcome, allWhole: bool, live: Table) {
    && o.read.Ok?
    && if allWhole then Part(o.read.value, live)
       else if o.whole then o.read.value.Keys <= live.Keys
       else o.read.value == live
  }

  ghost predicate AllFitting(users: set<string>, f: string -> Outcome, live: Table) {
    forall u | u in users :: Fitting(f(u), AllWhole(users, f), live)
  }

  /** A live record that the scanner reads to the end is read as itself. */
  ghost predicate LiveAreRead(f: string -> Outcome, live: Table) {
    forall u | u in live && f(u).whole :: f(u).read == Ok(map[u := live[u]])
  }

  lemma {:induction false} WholeOrderReplays(order: seq<string>, f: string -> Outcome, live: Table)
    requires LiveAreRead(f, live) && forall u | u in order :: f(u).whole && Fitting(f(u), true, live)
    ensures Replay(order, f).Ok? && Part(Replay(order, f).value, live)
    ensures forall u | u in order && u in live :: u in Replay(order, f).value
  {
    if order != [] {
      assert order[0] in order;
      WholeOrderReplays(order[1..], f, live);
    }
  }

  lemma {:induction false} BrokenOrderReplays(order: seq<string>, f: string -> Outcome, live: Table)
    requires forall u | u in order :: Fitting(f(u), false, live)
    ensures Replay(order, f).Ok? && Replay(order, f).value.Keys <= live.Keys
    ensures (exists u :: u in order && !f(u).whole) ==> Replay(order, f).value == live
  {
    if order != [] {
      var u, rest := order[0], order[1..];
      assert u in order;
      if f(u).whole {
        BrokenOrderReplays(rest, f, live);
        if v :| v in order && !f(v).whole {
          assert v in rest;
          Overwritten(f(u).read.value, live);
        }
      }
    }
  }

  lemma Overwritten(a: Table, b: Table)
    requires a.Keys <= b.Keys
    ensures a + b == b
  {
  }

  lemma FittingReplays(order: seq<string>, users: set<string>, f: string -> Outcome, live: Table)
    requires Lists(order, users) && live.Keys <= users && LiveAreRead(f, live) && AllFitting(users, f, live)
    ensures Replay(order, f) == Ok(live)
  {
    if AllWhole(users, f) {
      WholeListingReplays(order, users, f, live);
    } else {
      BrokenListingReplays(order, users, f, live);
    }
  }

  lemma WholeListingReplays(order: seq<string>, users: set<string>, f: string -> Outcome, live: Table)
    requires Lists(order, users) && live.Keys <= users && LiveAreRead(f, live)
    requires forall u | u in users :: f(u).whole && Fitting(f(u), true, live)
    ensures Replay(order, f) == Ok(live)
  {
    WholeOrderReplays(order, f, live);
    PartWithAllKeys(Replay(order, f).value, live);
  }

  lemma PartWithAllKeys(a: Table, b: Table)
    requires Part(a, b) && forall u | u in b :: u in a
    ensures a == b
  {
  }

  lemma BrokenListingReplays(order: seq<string>, users: set<string>, f: string -> Outcome, live: Table)
    requires Lists(order, users) && forall u | u in users :: Fitting(f(u), false, live)
    requires exists u :: u in users && !f(u).whole
    ensures Replay(order, f) == Ok(live)
  {
    BrokenOrderReplays(order, f, live);
  }

  lemma FirstIsRead(users: set<string>, f: string -> Outcome, live: Table, u: string)
    requires AlwaysReplays(users, f, live) && u in users
    ensures f(u).read.Ok?
    ensures !f(u).whole ==> f(u).read.value == live
  {
    var order := OrderWithFirst(users, u);
    assert Replay(order, f) == Ok(live);
  }

  lemma BeforeABrokenOne(users: set<string>, f: string -> Outcome, live: Table, u: string, w: string)
    requires AlwaysReplays(users, f, live)
    requires u in users && f(u).whole && w in users && !f(w).whole
    ensures f(u).read.Ok? && f(u).read.value.Keys <= live.Keys
  {
    var order := OrderWithTwoFirst(users, u, w);
    assert Replay(order, f) == Ok(live);
    assert order[1..][0] == w;
    MergedKeys(f(u).read, f(w).read);
  }

  lemma MergedKeys(a: Result<Table, LoadError>, b: Result<Table, LoadError>)
    ensures Merge(a, b).Ok? ==>
              && a.Ok? && b.Ok?
              && a.value.Keys <= Merge(a, b).value.Keys && Part(b.value, Merge(a, b).value)
  {
  }

  lemma {:induction false} ReplayLast(order: seq<string>, u: string, f: string -> Outcome)
    requires f(u).whole && forall v | v in order :: f(v).whole
    ensures Replay(order + [u], f) == Merge(Replay(order, f), f(u).read)
  {
    if order == [] {
      assert order + [u] == [u] && [u][1..] == [];
      NothingMerges(f(u).read);
      NothingBefore(f(u).read);
    } else {
      var rest := order[1..];
      assert order[0] in order;
      ReplayLast(rest, u, f);
      assert (order + [u])[1..] == rest + [u];
      MergeAssociates(f(order[0]).read, Replay(rest, f), f(u).read);
    }
  }

  lemma NothingBefore(a: Result<Table, LoadError>)
    ensures Merge(Ok(map[]), a) == a
  {
    if a.Ok? {
      assert map[] + a.value == a.value;
    }
  }

  lemma MergeAssociates(a: Result<Table, LoadError>, b: Result<Table, LoadError>, c: Result<Table, LoadError>)
    ensures Merge(a, Merge(b, c)) == Merge(Merge(a, b), c)
  {
    if a.Ok? && b.Ok? && c.Ok? {
      assert a.value + (b.value + c.value) == (a.value + b.value) + c.value;
    }
  }

  lemma LastIsRead(users: set<string>, f: string -> Outcome, live: Table, u: string)
    requires AlwaysReplays(users, f, live) && AllWhole(users, f) && u in users
    ensures f(u).read.Ok? && Part(f(u).read.value, live)
  {
    var rest := SomeOrder(users - {u});
    var order := rest + [u];
    assert Lists(order, users);
    assert Replay(order, f) == Ok(live);
    ReplayLast(rest, u, f);
    MergedKeys(Replay(rest, f), f(u).read);
  }

  lemma AlwaysReplayedFits(users: set<string>, f: string -> Outcome, live: Table, u: string)
    requires AlwaysReplays(users, f, live) && u in users
    ensures Fitting(f(u), AllWhole(users, f), live)
  {
    FirstIsRead(users, f, live, u);
    if AllWhole(users, f) {
      LastIsRead(users, f, live, u);
    } else if f(u).whole {
      var w :| w in users && !f(w).whole;
      BeforeABrokenOne(users, f, live, u, w);
    }
  }

  /** Whatever the order, the live records are what is read, if and only if each record
      fits. */
  lemma ReplaysExactlyWhen(users: set<string>, f: string -> Outcome, live: Table)
    requires live.Keys <= users && LiveAreRead(f, live)
    ensures AlwaysReplays(users, f, live) <==> AllFitting(users, f, live)
  {
    if AlwaysReplays(users, f, live) {
      forall u | u in users
        ensures Fitting(f(u), AllWhole(users, f), live)
      {
        AlwaysReplayedFits(users, f, live, u);
      }
    }
    if AllFitting(users, f, live) {
      forall order | Lists(order, users)
        ensures Replay(order, f) == Ok(live)
      {
        FittingReplays(order, users, f, live);
      }
    }
  }

  // ---------- a whole file ----------

  /** The outcome for each user of the table. */
  ghost function Outcomes(t: Table, now: int): (f: string -> Outcome)
    requires Addressable(t)
    ensures forall u | u in t :: f(u) == Outcome(ReadAlone(u, t[u], now), Whole(u, t[u]))
  {
    (u: string) => if u in t && PrintableAddr(t[u].ip) then Outcome(ReadAlone(u, t[u], now), Whole(u, t[u]))
                   else Outcome(Ok(map[]), true)
  }

  lemma PrintTableNext(order: seq<string>, t: Table)
    requires Addressable(t) && order != [] && forall u | u in order :: u in t
    ensures PrintTable(order, t) == Chunk(order[0], t[order[0]]) + PrintTable(order[1..], t)
  {
    var lines := Lines(order, t);
    assert lines[1..] == Lines(order[1..], t);
  }

  lemma {:induction false} OrderIsReplayed(order: seq<string>, t: Table, now: int)
    requires Addressable(t) && forall u | u in order :: u in t
    ensures LoadAt(ScanLines(PrintTable(order, t)), now) == Replay(order, Outcomes(t, now))
  {
    if order != [] {
      var u, rest := order[0], order[1..];
      OrderIsReplayed(rest, t, now);
      PrintTableNext(order, t);
      TextIsReplayed(order, Outcomes(t, now), Chunk(u, t[u]), PrintTable(rest, t), now);
    }
  }

  lemma TextIsReplayed(order: seq<string>, f: string -> Outcome, first: string, rest: string, now: int)
    requires order != [] && EndsLine(first)
    requires f(order[0]) == Outcome(LoadAt(ScanLines(first), now), AllShort(first))
    requires LoadAt(ScanLines(rest), now) == Replay(order[1..], f)
    ensures LoadAt(ScanLines(first + rest), now) == Replay(order, f)
  {
    ReadNext(first, rest, now);
  }

  lemma ReadNext(a: string, b: string, now: int)
    requires EndsLine(a)
    ensures LoadAt(ScanLines(a + b), now) ==
            if AllShort(a) then Merge(LoadAt(ScanLines(a), now), LoadAt(ScanLines(b), now))
            else LoadAt(ScanLines(a), now)
  {
    ScanAppend(a, b);
    if AllShort(a) {
      LoadAppend(ScanLines(a), ScanLines(b), now);
    }
  }

  function Live(t: Table, now: int): Table {
    map u | u in t && t[u].expires > now :: t[u]
  }

  lemma LoadedIsLive(t: Table, r: Table, now: int)
    ensures Loaded(t, r, now, now) <==> r == Live(t, now)
  {
  }

  lemma ReadsBackIsReplay(order: seq<string>, t: Table, now: int)
    requires Addressable(t) && IsOrder(order, t)
    ensures ReadsBack(order, t, now) <==> Replay(order, Outcomes(t, now)) == Ok(Live(t, now))
  {
    OrderIsReplayed(order, t, now);
    var r := Replay(order, Outcomes(t, now));
    if r.Ok? {
      LoadedIsLive(t, r.value, now);
    }
  }

  lemma ReadsBackInEveryOrderIsReplay(t: Table, now: int)
    requires Addressable(t)
    ensures ReadsBackInEveryOrder(t, now) <==> AlwaysReplays(t.Keys, Outcomes(t, now), Live(t, now))
  {
    forall order
      ensures IsOrder(order, t) <==> Lists(order, t.Keys)
      ensures IsOrder(order, t) ==> (ReadsBack(order, t, now) <==> Replay(order, Outcomes(t, now)) == Ok(Live(t, now)))
    {
      if IsOrder(order, t) {
        ReadsBackIsReplay(order, t, now);
      }
    }
  }

  /** What it takes: names and keys of live records are fields, and each record fits. */
  ghost predicate SurvivesFile(t: Table, now: int)
    requires Addressable(t)
  {
    && (forall u | u in t && t[u].expires > now :: Plain(u, t[u]))
    && AllFitting(t.Keys, Outcomes(t, now), Live(t, now))
  }

  lemma PlainAreRead(t: Table, now: int)
    requires Addressable(t) && forall u | u in t && t[u].expires > now :: Plain(u, t[u])
    ensures LiveAreRead(Outcomes(t, now), Live(t, now))
  {
    forall u | u in t && t[u].expires > now && Whole(u, t[u])
      ensures ReadAlone(u, t[u], now) == Ok(map[u := t[u]])
    {
      PlainAlone(u, t[u], now);
    }
  }

  /** Exactly when a table is read back whatever the map order in which it was written,
      for any names and keys. */
  lemma ReadsBackExactlyWhen(t: Table, now: int)
    requires Addressable(t)
    ensures ReadsBackInEveryOrder(t, now) <==> SurvivesFile(t, now)
  {
    ReadsBackInEveryOrderIsReplay(t, now);
    if ReadsBackInEveryOrder(t, now) {
      forall u | u in t && t[u].expires > now
        ensures Plain(u, t[u])
      {
        LiveReadBackIsPlain(t, u, now);
      }
    }
    if forall u | u in t && t[u].expires > now :: Plain(u, t[u]) {
      PlainAreRead(t, now);
      ReplaysExactlyWhen(t.Keys, Outcomes(t, now), Live(t, now));
    }
  }

  /** In plain words, where no expired record holds a newline: names and keys of live
      records are fields, every line that fits has four fields, and all lines fit or
      nothing is live. */
  lemma WithoutNewlines(t: Table, now: int)
    requires Addressable(t) && forall u | u in t && t[u].expires <= now :: NoNewline(u, t[u])
    ensures SurvivesFile(t, now) <==> Survives(t, now)
  {
    ReadsBackExactlyWhen(t, now);
    ReadsBackWithoutNewlines(t, now);
  }

  // ---------- the texts it may have been written as ----------

  lemma LoadsAtInstant(text: string, at: int, r: Table)
    ensures LoadsTo(text, at, at, r) <==> LoadAt(ScanLines(text), at) == Ok(r)
  {
    var now := Constant(|ScanLines(text)|, at);
    assert ReadAt(text, now, at, at);
    forall times | ReadAt(text, times, at, at)
      ensures times == now
    {
    }
  }

  ghost predicate AlwaysLoads(t: Table, at: int)
    requires Addressable(t)
  {
    forall text | IsSaved(text, t) :: LoadsTo(text, at, at, Live(t, at))
  }

  lemma OrderLoads(order: seq<string>, t: Table, at: int)
    requires Addressable(t) && IsOrder(order, t)
    ensures ReadsBack(order, t, at) <==> LoadsTo(PrintTable(order, t), at, at, Live(t, at))
  {
    ReadsBackIsReplay(order, t, at);
    OrderIsReplayed(order, t, at);
    LoadsAtInstant(PrintTable(order, t), at, Live(t, at));
  }

  /** Whatever text was saved, a reading at that instant yields the live records. */
  lemma AlwaysLoadsExactlyWhen(t: Table, at: int)
    requires Addressable(t)
    ensures AlwaysLoads(t, at) <==> SurvivesFile(t, at)
  {
    ReadsBackExactlyWhen(t, at);
    if AlwaysLoads(t, at) {
      forall order | IsOrder(order, t)
        ensures ReadsBack(order, t, at)
      {
        OrderLoads(order, t, at);
        assert IsSaved(PrintTable(order, t), t);
      }
    }
    if SurvivesFile(t, at) {
      forall text | IsSaved(text, t)
        ensures LoadsTo(text, at, at, Live(t, at))
      {
        var order :| IsOrder(order, t) && text == PrintTable(order, t);
        OrderLoads(order, t, at);
      }
    }
  }

  // ---------- files that are refused ----------

  /** Some record is read as an error, and none that stops the scanner is not. */
  ghost predicate SurelyBad(users: set<string>, f: string -> Outcome) {
    && (exists u :: u in users && f(u).read.Err?)
    && (forall u | u in users && !f(u).whole :: f(u).read.Err?)
  }

  lemma {:induction false} BadOrderFails(order: seq<string>, f: string -> Outcome)
    requires forall u | u in order && !f(u).whole :: f(u).read.Err?
    requires exists u :: u in order && f(u).read.Err?
    ensures Replay(order, f).Err?
  {
    var u, rest := order[0], order[1..];
    assert u in order;
    if f(u).read.Ok? {
      var v :| v in order && f(v).read.Err?;
      assert v in rest;
      BadOrderFails(rest, f);
    }
  }

  lemma {:induction false} GoodOrderReplays(order: seq<string>, f: string -> Outcome)
    requires forall u | u in order :: f(u).read.Ok?
    ensures Replay(order, f).Ok?
  {
    if order != [] {
      assert order[0] in order;
      GoodOrderReplays(order[1..], f);
    }
  }

  ghost predicate AlwaysFails(users: set<string>, f: string -> Outcome) {
    forall order | Lists(order, users) :: Replay(order, f).Err?
  }

  lemma AlwaysFailingIsBad(users: set<string>, f: string -> Outcome)
    requires AlwaysFails(users, f)
    ensures SurelyBad(users, f)
  {
    var order := SomeOrder(users);
    assert Lists(order, users);
    if forall u | u in users :: f(u).read.Ok? {
      GoodOrderReplays(order, f);
      assert false;
    }
    forall u | u in users && !f(u).whole
      ensures f(u).read.Err?
    {
      var first := OrderWithFirst(users, u);
      assert Lists(first, users) && Replay(first, f) == f(u).read;
    }
  }

  lemma FailsExactlyWhen(users: set<string>, f: string -> Outcome)
    ensures AlwaysFails(users, f) <==> SurelyBad(users, f)
  {
    if AlwaysFails(users, f) {
      AlwaysFailingIsBad(users, f);
    }
    if SurelyBad(users, f) {
      forall order | Lists(order, users)
        ensures Replay(order, f).Err?
      {
        BadOrderFails(order, f);
      }
    }
  }

  /** The text cannot be read, at whatever times its lines are. */
  ghost predicate Refused(text: string) {
    forall times: seq<int> | |times| == |ScanLines(text)| :: LoadLines(ScanLines(text), times).Err?
  }

  lemma RefusedAtAnyTime(text: string, now: int)
    ensures Refused(text) <==> LoadAt(ScanLines(text), now).Err?
  {
    LoadFailsExactlyWhen(ScanLines(text), Constant(|ScanLines(text)|, now));
    forall times: seq<int> | |times| == |ScanLines(text)|
      ensures LoadLines(ScanLines(text), times).Err? <==> AnyBadLine(ScanLines(text))
    {
      LoadFailsExactlyWhen(ScanLines(text), times);
    }
  }

  /** Whatever the map order, the saved file is refused. */
  ghost predicate AlwaysRefused(t: Table)
    requires Addressable(t)
  {
    forall text | IsSaved(text, t) :: Refused(text)
  }

  lemma OrderIsRefused(order: seq<string>, t: Table, now: int)
    requires Addressable(t) && IsOrder(order, t)
    ensures Refused(PrintTable(order, t)) <==> Replay(order, Outcomes(t, now)).Err?
  {
    OrderIsReplayed(order, t, now);
    RefusedAtAnyTime(PrintTable(order, t), now);
  }

  lemma AlwaysRefusedIsReplay(t: Table, now: int)
    requires Addressable(t)
    ensures AlwaysRefused(t) <==> AlwaysFails(t.Keys, Outcomes(t, now))
  {
    forall order
      ensures Lists(order, t.Keys) <==> IsOrder(order, t)
      ensures IsOrder(order, t) ==> (Refused(PrintTable(order, t)) <==> Replay(order, Outcomes(t, now)).Err?)
    {
      if IsOrder(order, t) {
        OrderIsRefused(order, t, now);
      }
    }
    if AlwaysRefused(t) {
      forall order | Lists(order, t.Keys)
        ensures Refused(PrintTable(order, t))
      {
        assert IsSaved(PrintTable(order, t), t);
      }
    }
  }

  /** Exactly when a saved file is refused, with all leases in it, whatever the map order
      and the time, for any names and keys: if and only if some record on its own is read as
      an error, and so is every record that stops the scanner. */
  lemma RefusedExactlyWhen(t: Table, now: int)
    requires Addressable(t)
    ensures AlwaysRefused(t) <==>
            && (exists u :: u in t && ReadAlone(u, t[u], now).Err?)
            && (forall u | u in t && !Whole(u, t[u]) :: ReadAlone(u, t[u], now).Err?)
  {
    AlwaysRefusedIsReplay(t, now);
    FailsExactlyWhen(t.Keys, Outcomes(t, now));
    OutcomesAre(t, now);
  }

  lemma OutcomesAre(t: Table, now: int)
    requires Addressable(t)
    ensures SurelyBad(t.Keys, Outcomes(t, now)) <==>
            && (exists u :: u in t && ReadAlone(u, t[u], now).Err?)
            && (forall u | u in t && !Whole(u, t[u]) :: ReadAlone(u, t[u], now).Err?)
  {
    var f := Outcomes(t, now);
    assert forall u | u in t :: f(u).read == ReadAlone(u, t[u], now) && f(u).whole == Whole(u, t[u]);
  }

  /** A record that prints as one line is read as an error if and only if that line fits
      and its name and key make more, or fewer, than two fields. */
  lemma OneLineIsRefusedExactlyWhen(u: string, r: WGRecord, now: int)
    requires PrintableAddr(r.ip) && NoNewline(u, r)
    ensures ReadAlone(u, r, now).Err? <==> Whole(u, r) && !TwoFields(u, r)
    ensures Whole(u, r) <==> Short(PrintLine(u, r))
  {
    LineIsOneLine(u, r);
    PrintedIsBad(u, r);
    BadLineAlone(PrintLine(u, r), now);
  }

  lemma BadLineAlone(line: string, now: int)
    requires OneLine(line)
    ensures LoadAt(ScanLines(line + "\n"), now).Err? <==> AllShort(line + "\n") && BadLine(line)
    ensures AllShort(line + "\n") <==> Short(line)
  {
    ScanChunk(line);
    assert [] + [line] == [line];
    LoadAtNext([], line, now);
    LoadLineFails(map[], line, now);
  }

  // ---------- one record among carried ones ----------

  /** What it takes of one record: while it is live, that the file carries it; once it has
      expired, that what its lines are read as fits. */
  ghost predicate RecordSurvives(t: Table, user: string, at: int)
    requires Addressable(t) && user in t
  {
    if t[user].expires > at then Carried(user, t[user])
    else Fitting(Outcome(ReadAlone(user, t[user], at), Whole(user, t[user])), Whole(user, t[user]), Live(t, at))
  }

  lemma CarriedFits(t: Table, u: string, allWhole: bool, at: int)
    requires Addressable(t) && u in t && Carried(u, t[u])
    ensures Fitting(Outcomes(t, at)(u), allWhole, Live(t, at)) && Outcomes(t, at)(u).whole
  {
    PlainAlone(u, t[u], at);
  }

  lemma LiveFitsExactlyWhen(t: Table, u: string, at: int)
    requires Addressable(t) && u in t && t[u].expires > at && Plain(u, t[u])
    ensures Fitting(Outcomes(t, at)(u), Whole(u, t[u]), Live(t, at)) <==> Carried(u, t[u])
  {
    PlainAlone(u, t[u], at);
    assert u in Live(t, at);
  }

  lemma OneRecordDecides(t: Table, user: string, at: int)
    requires Addressable(t) && user in t && forall u | u in t && u != user :: Carried(u, t[u])
    ensures SurvivesFile(t, at) <==> RecordSurvives(t, user, at)
  {
    var f, live := Outcomes(t, at), Live(t, at);
    forall u | u in t && u != user
      ensures f(u).whole && Fitting(f(u), AllWhole(t.Keys, f), live)
    {
      CarriedFits(t, u, AllWhole(t.Keys, f), at);
    }
    assert AllWhole(t.Keys, f) <==> Whole(user, t[user]);
    assert AllFitting(t.Keys, f, live) <==> Fitting(f(user), Whole(user, t[user]), live);
    if t[user].expires > at && Plain(user, t[user]) {
      LiveFitsExactlyWhen(t, user, at);
    }
  }
}
