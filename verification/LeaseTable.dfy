/**
 The lease table as a value: what a request, an expiry sweep and an allocation do
 to it, and what every reachable table keeps.
 */
module LeaseTable {
  import opened Wrappers
  import opened Address

  datatype WGRecord = WGRecord(pubKey: string, ip: Addr, expires: int)

  type Table = map<string, WGRecord>

  // ---------- allocation ----------

  /** The addresses never leased: gateway, network and last address. */
  function Reserved(p: Prefix): set<nat>
    requires p.Valid()
  {
    {p.addr.value, p.Masked().value, p.Last().value}
  }

  function Leased(t: Table): set<nat> {
    set u | u in t :: t[u].ip.value
  }

  function Block(p: Prefix): set<nat>
    requires p.Valid()
  {
    Range(p.Masked().value, p.Size())
  }

  function Range(lo: nat, n: nat): (r: set<nat>)
    ensures forall v: nat :: v in r <==> lo <= v < lo + n
    ensures |r| == n
  {
    if n == 0 then {} else Range(lo, n - 1) + {lo + n - 1}
  }

  /** The addresses left to lease. */
  function Available(p: Prefix, t: Table): set<nat>
    requires p.Valid()
  {
    Block(p) - Reserved(p) - Leased(t)
  }

  ghost predicate IsLeast(v: nat, s: set<nat>) {
    v in s && forall w | w in s :: v <= w
  }

  /** The request the code serves with `a.Prefixes()[0].Addr()`: the least element
      of the set, or nothing to serve it from. */
  function Least(s: set<nat>): (r: Option<nat>)
    ensures r.None? <==> s == {}
    ensures r.Some? ==> IsLeast(r.value, s)
  {
    if s == {} then None
    else
      LeastExists(s);
      var v :| v in s && forall w | w in s :: v <= w;
      Some(v)
  }

  lemma {:induction false} LeastExists(s: set<nat>)
    requires s != {}
    ensures exists v :: IsLeast(v, s)
    decreases |s|
  {
    var v :| v in s;
    var rest := s - {v};
    assert s == rest + {v};
    if rest == {} {
      assert IsLeast(v, s);
    } else {
      LeastExists(rest);
      var w :| IsLeast(w, rest);
      assert IsLeast(if v < w then v else w, s);
    }
  }

  // ---------- requests ----------

  datatype RequestError = EmptyUsername | EmptyPublicKey | PoolExhausted

  /** What `createOrUpdatePeer` does to the table. */
  datatype Upserted = Upserted(table: Table, record: WGRecord, needsUpdate: bool)

  function Upsert(p: Prefix, t: Table, user: string, key: string, expiry: int): Result<Upserted, RequestError>
    requires p.Valid()
  {
    if user == "" then Err(EmptyUsername)
    else if key == "" then Err(EmptyPublicKey)
    else if user in t then
      var r := t[user].(pubKey := key, expires := expiry);
      Ok(Upserted(t[user := r], r, t[user].pubKey != key))
    else
      match Least(Available(p, t))
      case None => Err(PoolExhausted)
      case Some(v) =>
        var r := WGRecord(key, Addr(p.addr.family, v), expiry);
        Ok(Upserted(t[user := r], r, true))
  }

  // ---------- expiry ----------

  /** A sweep whose locked section runs from `from` to `to`: what expired before it
      started is deleted, what expires at or after its end is kept, and each record
      in between falls to the instant at which the loop looked at it. */
  ghost predicate Swept(t: Table, t': Table, from: int, to: int) {
    && (forall u | u in t' :: u in t && t'[u] == t[u] && t[u].expires >= from)
    && (forall u | u in t && t[u].expires >= to :: u in t')
  }

  /** Loading a saved table keeps what expires strictly later. */
  ghost predicate Loaded(t: Table, t': Table, from: int, to: int) {
    && (forall u | u in t' :: u in t && t'[u] == t[u] && t[u].expires > from)
    && (forall u | u in t && t[u].expires > to :: u in t')
  }

  // ---------- the invariant ----------

  /** Leased addresses are distinct, lie in the prefix and are not reserved. */
  ghost predicate Sound(p: Prefix, t: Table)
    requires p.Valid()
  {
    && (forall u | u in t :: t[u].ip.family == p.addr.family && t[u].ip.value in Block(p) - Reserved(p))
    && (forall u, v | u in t && v in t && t[u].ip == t[v].ip :: u == v)
  }

  /** A request keeps the table sound, moves nobody, and gives a newcomer the least
      free address. */
  lemma UpsertKeepsSound(p: Prefix, t: Table, user: string, key: string, expiry: int)
    requires p.Valid() && Sound(p, t)
    requires Upsert(p, t, user, key, expiry).Ok?
    ensures var o := Upsert(p, t, user, key, expiry).value;
            && Sound(p, o.table)
            && (forall u | u in t :: u in o.table && o.table[u].ip == t[u].ip)
            && (forall u | u in t && u != user :: o.table[u] == t[u])
            && o.table.Keys == t.Keys + {user}
            && o.table[user] == o.record && o.record.pubKey == key && o.record.expires == expiry
            && (user !in t ==> IsLeast(o.record.ip.value, Available(p, t)))
            && (o.needsUpdate <==> user !in t || t[user].pubKey != key)
  {
    var o := Upsert(p, t, user, key, expiry).value;
    if user in t {
      RenewalKeepsSound(p, t, user, o.record);
    } else {
      NewLeaseKeepsSound(p, t, user, o.record);
    }
  }

  /** The addresses that are never leased: of the server itself, and the ends of the prefix. */
  ghost predicate KeptBack(p: Prefix, a: Addr)
    requires p.Valid()
  {
    a == p.addr || a == p.Masked() || a == p.Last()
  }

  ghost predicate HasLease(t: Table, v: nat) {
    exists u :: u in t && t[u].ip.value == v
  }

  /** What is available, in terms of the prefix: its addresses other than those three and the
      leased ones. */
  lemma AvailableExactlyWhen(p: Prefix, t: Table, a: Addr)
    requires p.Valid() && a.Valid() && a.family == p.addr.family
    ensures a.value in Available(p, t) <==> p.Contains(a) && !KeptBack(p, a) && !HasLease(t, a.value)
  {
    ContainsIsRange(p, a);
    assert a.value in Leased(t) <==> HasLease(t, a.value);
  }

  /** A newcomer is leased the lowest address of the prefix that is neither the server's own,
      nor one of its ends, nor anybody else's. */
  lemma NewcomerGetsLowestFree(p: Prefix, t: Table, user: string, key: string, expiry: int, b: Addr)
    requires p.Valid() && user !in t && Upsert(p, t, user, key, expiry).Ok? && b.Valid() && p.Contains(b)
    ensures var a := Upsert(p, t, user, key, expiry).value.record.ip;
            && a.Valid() && p.Contains(a) && a != p.addr && a != p.Masked() && a != p.Last()
            && !HasLease(t, a.value)
            && (b.value < a.value ==> b == p.addr || b == p.Masked() || b == p.Last() || HasLease(t, b.value))
  {
    var a := Upsert(p, t, user, key, expiry).value.record.ip;
    BlockIsValid(p, a.value);
    AvailableExactlyWhen(p, t, a);
    AvailableExactlyWhen(p, t, b);
  }

  ghost predicate HasFreeAddress(p: Prefix, t: Table)
    requires p.Valid()
  {
    exists a: Addr :: a.Valid() && p.Contains(a) && !KeptBack(p, a) && !HasLease(t, a.value)
  }

  lemma FreeExactlyWhen(p: Prefix, t: Table)
    requires p.Valid()
    ensures HasFreeAddress(p, t) <==> Available(p, t) != {}
  {
    if HasFreeAddress(p, t) {
      var a: Addr :| a.Valid() && p.Contains(a) && !KeptBack(p, a) && !HasLease(t, a.value);
      AvailableExactlyWhen(p, t, a);
    }
    if Available(p, t) != {} {
      var v :| v in Available(p, t);
      BlockIsValid(p, v);
      AvailableExactlyWhen(p, t, Addr(p.addr.family, v));
    }
  }

  /** Exactly which requests are refused: an empty name, an empty key, and a newcomer when no
      address of the prefix is left. */
  lemma RequestRefusedExactlyWhen(p: Prefix, t: Table, user: string, key: string, expiry: int)
    requires p.Valid()
    ensures var o := Upsert(p, t, user, key, expiry);
            && (o == Err(EmptyUsername) <==> user == "")
            && (o == Err(EmptyPublicKey) <==> user != "" && key == "")
            && (o == Err(PoolExhausted) <==> user != "" && key != "" && user !in t && !HasFreeAddress(p, t))
  {
    FreeExactlyWhen(p, t);
  }

  /** In a sound table every address lies in the prefix, is none of those three, and is
      leased once. */
  lemma SoundExactlyWhen(p: Prefix, t: Table)
    requires p.Valid()
    ensures Sound(p, t) <==>
            && (forall u | u in t :: t[u].ip.Valid() && p.Contains(t[u].ip) && !KeptBack(p, t[u].ip))
            && (forall u, v | u in t && v in t && u != v :: t[u].ip != t[v].ip)
  {
    forall u | u in t
      ensures t[u].ip.family == p.addr.family && t[u].ip.value in Block(p) - Reserved(p) <==>
              t[u].ip.Valid() && p.Contains(t[u].ip) && !KeptBack(p, t[u].ip)
    {
      AllowedExactlyWhen(p, t[u].ip);
    }
  }

  lemma AllowedExactlyWhen(p: Prefix, a: Addr)
    requires p.Valid()
    ensures a.family == p.addr.family && a.value in Block(p) - Reserved(p) <==>
            a.Valid() && p.Contains(a) && !KeptBack(p, a)
  {
    if a.family == p.addr.family {
      ContainsIsRange(p, a);
      if a.value in Block(p) {
        BlockIsValid(p, a.value);
      }
    }
  }

  lemma RenewalKeepsSound(p: Prefix, t: Table, user: string, r: WGRecord)
    requires p.Valid() && Sound(p, t) && user in t && r.ip == t[user].ip
    ensures Sound(p, t[user := r])
  {
  }

  lemma NewLeaseKeepsSound(p: Prefix, t: Table, user: string, r: WGRecord)
    requires p.Valid() && Sound(p, t) && user !in t
    requires r.ip.family == p.addr.family && r.ip.value in Available(p, t)
    ensures Sound(p, t[user := r])
  {
    forall u | u in t
      ensures t[u].ip != r.ip
    {
      assert t[u].ip.value in Leased(t);
    }
  }

  lemma SubsetKeepsSound(p: Prefix, t: Table, t': Table)
    requires p.Valid() && Sound(p, t)
    requires forall u | u in t' :: u in t && t'[u] == t[u]
    ensures Sound(p, t')
  {
  }

  // ---------- capacity ----------

  lemma LeasedWithout(t: Table, u: string)
    requires u in t
    ensures |t - {u}| == |t| - 1
    ensures Leased(t) == Leased(t - {u}) + {t[u].ip.value}
  {
    var rest := t - {u};
    assert t.Keys == rest.Keys + {u};
    forall v | v in Leased(t)
      ensures v in Leased(rest) + {t[u].ip.value}
    {
      var w :| w in t && t[w].ip.value == v;
      assert w != u ==> w in rest && rest[w].ip.value == v;
    }
  }

  lemma {:induction false} LeasedAtMost(t: Table)
    ensures |Leased(t)| <= |t|
    decreases |t|
  {
    if t != map[] {
      var u :| u in t;
      var rest := t - {u};
      LeasedWithout(t, u);
      LeasedAtMost(rest);
    } else {
      assert Leased(t) == {};
    }
  }

  lemma {:induction false} LeasedExactly(t: Table)
    requires forall u, v | u in t && v in t && t[u].ip.value == t[v].ip.value :: u == v
    ensures |Leased(t)| == |t|
    decreases |t|
  {
    if t != map[] {
      var u :| u in t;
      var rest := t - {u};
      LeasedWithout(t, u);
      LeasedExactly(rest);
      assert t[u].ip.value !in Leased(rest);
    } else {
      assert Leased(t) == {};
    }
  }

  lemma ReservedInBlock(p: Prefix)
    requires p.Valid()
    ensures Reserved(p) <= Block(p)
  {
    EndsAreValid(p);
    ContainsIsRange(p, p.addr);
  }

  lemma BlockIsValid(p: Prefix, v: nat)
    requires p.Valid() && v in Block(p)
    ensures v < Pow2(p.addr.family.Width())
  {
    EndsAreValid(p);
  }

  lemma DifferenceCardinality(a: set<nat>, b: set<nat>)
    ensures |a - b| >= |a| - |b|
    ensures b <= a ==> |a - b| == |a| - |b|
  {
    assert a == (a - b) + (a * b);
    assert |a| == |a - b| + |a * b|;
    assert b == (b - a) + (a * b);
    assert b <= a ==> a * b == b;
  }

  /** Whatever the table holds, a free address exists while the records number
      fewer than the unreserved addresses. */
  lemma AllocationSucceeds(p: Prefix, t: Table)
    requires p.Valid()
    requires |t| < p.Size() - |Reserved(p)|
    ensures Available(p, t) != {}
  {
    assert |Block(p)| == p.Size();
    LeasedAtMost(t);
    DifferenceCardinality(Block(p), Reserved(p));
    DifferenceCardinality(Block(p) - Reserved(p), Leased(t));
  }

  /** For a table the server can reach, that bound is exact: a new user is turned
      away if and only if every unreserved address is leased. */
  lemma PoolCapacity(p: Prefix, t: Table, user: string, key: string, expiry: int)
    requires p.Valid() && Sound(p, t)
    requires user != "" && key != "" && user !in t
    ensures |t| <= p.Size() - |Reserved(p)|
    ensures Upsert(p, t, user, key, expiry) == Err(PoolExhausted) <==> |t| == p.Size() - |Reserved(p)|
  {
    assert |Block(p)| == p.Size();
    ReservedInBlock(p);
    LeasedExactly(t);
    DifferenceCardinality(Block(p), Reserved(p));
    assert Leased(t) <= Block(p) - Reserved(p);
    DifferenceCardinality(Block(p) - Reserved(p), Leased(t));
  }
}
