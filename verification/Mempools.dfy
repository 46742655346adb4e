/** The transaction pool (src/core/mermai_mempool.cpp). */
module Mempools {
  import opened Bytes
  import opened Types
  import opened Words
  import opened Chain
  import Ledger

  type Pool = map<Text, Transaction>

  type Claim = (Text, u32)

  /** The outputs a transaction spends. */
  function Claims(tx: Transaction): set<Claim>
  {
    set i | 0 <= i < |tx.inputs| :: Outpoint(tx.inputs[i])
  }

  function ClaimsOf(pool: Pool): set<Claim>
  {
    set id, claim | id in pool && claim in Claims(pool[id]) :: claim
  }

  /** No two pooled transactions spend one output. */
  ghost predicate Disjoint(pool: Pool)
  {
    forall i, j | i in pool && j in pool && i != j :: Claims(pool[i]) !! Claims(pool[j])
  }

  // ---------- the transaction that is evicted ----------

  lemma {:induction false} LexTotal(a: Text, b: Text)
    ensures a == b || LexLess(a, b) || LexLess(b, a)
  {
    if a != [] && b != [] {
      LexTotal(a[1..], b[1..]);
      assert a == [a[0]] + a[1..] && b == [b[0]] + b[1..];
    }
  }

  lemma {:induction false} LexTransitive(a: Text, b: Text, d: Text)
    requires LexLess(a, b) && LexLess(b, d)
    ensures LexLess(a, d)
  {
    if a != [] && a[0] == b[0] && b[0] == d[0] {
      LexTransitive(a[1..], b[1..], d[1..]);
    }
  }

  lemma {:induction false} LexAsymmetric(a: Text, b: Text)
    requires LexLess(a, b)
    ensures !LexLess(b, a) && a != b
  {
    if a != [] && a[0] == b[0] {
      LexAsymmetric(a[1..], b[1..]);
    }
  }

  /** `min_element` over the ordered map: the lower fee, then the smaller id. */
  predicate Before(pool: Pool, i: Text, j: Text)
    requires i in pool && j in pool
  {
    pool[i].fee < pool[j].fee || (pool[i].fee == pool[j].fee && LexLess(i, j))
  }

  ghost predicate IsLowest(pool: Pool, low: Text)
  {
    low in pool && forall j | j in pool :: j == low || Before(pool, low, j)
  }

  lemma LowestUnique(pool: Pool, a: Text, b: Text)
    requires IsLowest(pool, a) && IsLowest(pool, b)
    ensures a == b
  {
    if a != b && LexLess(a, b) {
      LexAsymmetric(a, b);
    }
  }

  /** Keeping the better of the best so far and the next one. */
  method FindLowest(pool: Pool) returns (low: Text)
    requires pool != map[]
    ensures IsLowest(pool, low)
  {
    low :| low in pool;
    var rest := pool.Keys - {low};
    while rest != {}
      invariant low in pool && rest <= pool.Keys
      invariant forall j | j in pool && j !in rest :: j == low || Before(pool, low, j)
      decreases |rest|
    {
      var j :| j in rest;
      rest := rest - {j};
      if Before(pool, j, low) {
        ghost var was := low;
        low := j;
        forall i | i in pool && i !in rest ensures i == low || Before(pool, low, i) {
          if i != j && i != was && LexLess(j, was) && LexLess(was, i) {
            LexTransitive(j, was, i);
          }
        }
      } else {
        LexTotal(low, j);
      }
    }
  }

  lemma {:induction false} LowestExists(pool: Pool)
    requires pool != map[]
    ensures exists low :: IsLowest(pool, low)
    decreases |pool|
  {
    var k :| k in pool;
    var rest := pool - {k};
    if rest == map[] {
      forall j | j in pool ensures j == k { assert j !in rest; }
      assert IsLowest(pool, k);
    } else {
      LowestExists(rest);
      var l :| IsLowest(rest, l);
      LexTotal(k, l);
      var low := if Before(pool, k, l) then k else l;
      forall j | j in pool ensures j == low || Before(pool, low, j) {
        if j in rest && j != l && low == k && LexLess(k, l) && LexLess(l, j) {
          LexTransitive(k, l, j);
        }
      }
      assert IsLowest(pool, low);
    }
  }

  ghost function Lowest(pool: Pool): (low: Text)
    requires pool != map[]
    ensures IsLowest(pool, low)
  {
    LowestExists(pool);
    var low :| IsLowest(pool, low);
    low
  }

  // ---------- offering and removing ----------

  /** The answer of `add_transaction` and the pool it leaves. */
  ghost function Admit(pool: Pool, capacity: nat, id: Text, tx: Transaction): (bool, Pool)
  {
    if id in pool || Claims(tx) * ClaimsOf(pool) != {} then (false, pool)
    else if |pool| < capacity then (true, pool[id := tx])
    else if pool == map[] || tx.fee <= pool[Lowest(pool)].fee then (false, pool)
    else (true, (pool - {Lowest(pool)})[id := tx])
  }

  lemma ClaimsWith(pool: Pool, id: Text, tx: Transaction)
    requires id !in pool
    ensures ClaimsOf(pool[id := tx]) == ClaimsOf(pool) + Claims(tx)
  {
    var more := pool[id := tx];
    assert forall i | i in pool :: more[i] == pool[i];
    forall x | x in Claims(tx) ensures x in ClaimsOf(more) {
      assert id in more && x in Claims(more[id]);
    }
    forall x | x in ClaimsOf(pool) ensures x in ClaimsOf(more) {
      var i :| i in pool && x in Claims(pool[i]);
      assert i in more && x in Claims(more[i]);
    }
  }

  lemma ClaimsWithout(pool: Pool, id: Text)
    requires id in pool && Disjoint(pool)
    ensures ClaimsOf(pool - {id}) == ClaimsOf(pool) - Claims(pool[id])
    ensures Disjoint(pool - {id})
  {
    var less := pool - {id};
    forall x | x in ClaimsOf(pool) - Claims(pool[id]) ensures x in ClaimsOf(less) {
      var i :| i in pool && x in Claims(pool[i]);
      assert i in less && x in Claims(less[i]);
    }
    forall x | x in ClaimsOf(less) ensures x in ClaimsOf(pool) - Claims(pool[id]) {
      var i :| i in less && x in Claims(less[i]);
      assert i in pool && x in Claims(pool[i]);
    }
  }

  lemma DisjointWith(pool: Pool, id: Text, tx: Transaction)
    requires id !in pool && Disjoint(pool) && Claims(tx) * ClaimsOf(pool) == {}
    ensures Disjoint(pool[id := tx])
  {
    forall i | i in pool ensures Claims(pool[i]) !! Claims(tx) {
      forall x | x in Claims(pool[i]) ensures x !in Claims(tx) {
        assert x in ClaimsOf(pool) && x !in Claims(tx) * ClaimsOf(pool);
      }
    }
  }

  lemma Fewer(pool: Pool, id: Text)
    requires id in pool
    ensures |pool - {id}| == |pool| - 1
  {
    assert (pool - {id}).Keys == pool.Keys - {id};
    assert |(pool - {id}).Keys| == |pool.Keys| - 1;
  }

  // ---------- the law of admission ----------

  /** A pooled transaction spends an output that `tx` spends too. */
  ghost predicate Conflicting(pool: Pool, tx: Transaction)
  {
    exists id, i, j | id in pool && 0 <= i < |tx.inputs| && 0 <= j < |pool[id].inputs| ::
      tx.inputs[i].prevTxHash == pool[id].inputs[j].prevTxHash
      && tx.inputs[i].prevOutputIdx == pool[id].inputs[j].prevOutputIdx
  }

  /** The pool has given `gone` up: nothing in it pays less, and among what pays as little nothing has a smaller id. */
  ghost predicate GivesUp(pool: Pool, gone: Text)
  {
    gone in pool && forall id | id in pool ::
      pool[gone].fee <= pool[id].fee && (pool[gone].fee == pool[id].fee && gone != id ==> LexLess(gone, id))
  }

  lemma ConflictingExactly(pool: Pool, tx: Transaction)
    ensures Conflicting(pool, tx) <==> Claims(tx) * ClaimsOf(pool) != {}
  {
    if Claims(tx) * ClaimsOf(pool) != {} {
      var x :| x in Claims(tx) * ClaimsOf(pool);
      var i :| 0 <= i < |tx.inputs| && x == Outpoint(tx.inputs[i]);
      var id :| id in pool && x in Claims(pool[id]);
      var j :| 0 <= j < |pool[id].inputs| && x == Outpoint(pool[id].inputs[j]);
      assert tx.inputs[i].prevTxHash == pool[id].inputs[j].prevTxHash
          && tx.inputs[i].prevOutputIdx == pool[id].inputs[j].prevOutputIdx;
    }
    if Conflicting(pool, tx) {
      var id, i, j :| id in pool && 0 <= i < |tx.inputs| && 0 <= j < |pool[id].inputs|
        && tx.inputs[i].prevTxHash == pool[id].inputs[j].prevTxHash
        && tx.inputs[i].prevOutputIdx == pool[id].inputs[j].prevOutputIdx;
      assert Outpoint(tx.inputs[i]) in Claims(tx) && Outpoint(tx.inputs[i]) == Outpoint(pool[id].inputs[j]);
      assert Outpoint(tx.inputs[i]) in Claims(pool[id]) && Outpoint(tx.inputs[i]) in Claims(tx) * ClaimsOf(pool);
    }
  }

  /**
   A transaction is admitted exactly if its id is new, no pooled one spends what it spends, and there is room or a
   pooled one pays less. It joins the others; where there was no room, exactly the one that pays least has gone.
   */
  lemma AdmitsExactly(pool: Pool, capacity: nat, id: Text, tx: Transaction)
    ensures var (ok, after) := Admit(pool, capacity, id, tx);
            && (ok <==> id !in pool && !Conflicting(pool, tx)
                        && (|pool| < capacity || exists k | k in pool :: pool[k].fee < tx.fee))
            && (!ok ==> after == pool)
            && (ok && |pool| < capacity ==> after == pool + map[id := tx])
            && (ok && |pool| >= capacity ==>
                  exists gone :: GivesUp(pool, gone) && pool[gone].fee < tx.fee
                                 && after == pool - {gone} + map[id := tx])
  {
    ConflictingExactly(pool, tx);
    if |pool| >= capacity && pool != map[] {
      var low := Lowest(pool);
      assert GivesUp(pool, low);
      assert (pool - {low})[id := tx] == pool - {low} + map[id := tx];
    }
    assert pool[id := tx] == pool + map[id := tx];
  }

  // ---------- the highest fees stay ----------

  datatype Entry = Entry(id: Text, tx: Transaction)

  /** Offers with different ids that spend different outputs. */
  ghost predicate Independent(offers: seq<Entry>)
  {
    forall i, j | 0 <= i < j < |offers| :: offers[i].id != offers[j].id && Claims(offers[i].tx) !! Claims(offers[j].tx)
  }

  ghost function OfferAll(capacity: nat, offers: seq<Entry>): Pool
  {
    if offers == [] then map[]
    else var last := offers[|offers| - 1];
         Admit(OfferAll(capacity, offers[..|offers| - 1]), capacity, last.id, last.tx).1
  }

  ghost predicate AllOffered(pool: Pool, offers: seq<Entry>)
  {
    forall id | id in pool :: Entry(id, pool[id]) in offers
  }

  /** Nothing that was turned away or evicted pays more than anything that is pooled. */
  ghost predicate Outbids(pool: Pool, offers: seq<Entry>)
  {
    forall e, id | e in offers && e.id !in pool && id in pool :: e.tx.fee <= pool[id].fee
  }

  function Smaller(a: nat, b: nat): nat
  {
    if a < b then a else b
  }

  lemma NoConflict(pool: Pool, offers: seq<Entry>, e: Entry)
    requires AllOffered(pool, offers) && Independent(offers + [e])
    ensures e.id !in pool && Claims(e.tx) * ClaimsOf(pool) == {}
  {
    var all := offers + [e];
    forall id | id in pool ensures id != e.id && Claims(e.tx) !! Claims(pool[id]) {
      var i :| 0 <= i < |offers| && offers[i] == Entry(id, pool[id]);
      assert all[i] == offers[i] && all[|offers|] == e;
    }
  }

  ghost predicate AllIn(pool: Pool, offers: seq<Entry>)
  {
    forall e | e in offers :: e.id in pool
  }

  /** What a stream of offers leaves: the pool is full or holds them all, and nothing better was left out. */
  ghost predicate Best(pool: Pool, capacity: nat, offers: seq<Entry>)
  {
    && AllOffered(pool, offers) && Outbids(pool, offers)
    && |pool| == Smaller(capacity, |offers|)
    && (|offers| <= capacity ==> AllIn(pool, offers))
  }

  lemma RoomKeepsBest(pool: Pool, capacity: nat, offers: seq<Entry>, e: Entry)
    requires Best(pool, capacity, offers) && |pool| < capacity && e.id !in pool
    ensures Best(pool[e.id := e.tx], capacity, offers + [e])
  {
    assert |offers| <= capacity;
    var after := pool[e.id := e.tx];
    assert |after| == |pool| + 1;
    forall x | x in offers + [e] ensures x.id in after {
      assert x == e || x in offers;
    }
  }

  lemma RefusalKeepsBest(pool: Pool, capacity: nat, offers: seq<Entry>, e: Entry)
    requires Best(pool, capacity, offers) && |pool| >= capacity && e.id !in pool
    requires forall id | id in pool :: e.tx.fee <= pool[id].fee
    ensures Best(pool, capacity, offers + [e])
  {
  }

  lemma EvictionOutbids(pool: Pool, offers: seq<Entry>, e: Entry, low: Text)
    requires Outbids(pool, offers) && AllOffered(pool, offers) && e.id !in pool && low in pool
    requires forall x, id | x in offers && id in pool && x.id == id :: x.tx == pool[id]
    requires pool[low].fee < e.tx.fee && forall id | id in pool :: pool[low].fee <= pool[id].fee
    ensures Outbids((pool - {low})[e.id := e.tx], offers + [e])
  {
    var after := (pool - {low})[e.id := e.tx];
    forall x, id | x in offers + [e] && x.id !in after && id in after ensures x.tx.fee <= after[id].fee {
      assert x in offers;
      if x.id in pool {
        assert x.id == low && x.tx == pool[low];
      } else if id == e.id {
        assert x.tx.fee <= pool[low].fee;
      }
    }
  }

  lemma EvictionKeepsBest(pool: Pool, capacity: nat, offers: seq<Entry>, e: Entry, low: Text)
    requires Best(pool, capacity, offers) && |pool| >= capacity && e.id !in pool && low in pool
    requires forall x, id | x in offers && id in pool && x.id == id :: x.tx == pool[id]
    requires pool[low].fee < e.tx.fee && forall id | id in pool :: pool[low].fee <= pool[id].fee
    ensures Best((pool - {low})[e.id := e.tx], capacity, offers + [e])
  {
    EvictionOutbids(pool, offers, e, low);
    Fewer(pool, low);
  }

  lemma SameTransaction(pool: Pool, offers: seq<Entry>, x: Entry)
    requires AllOffered(pool, offers) && Independent(offers) && x in offers && x.id in pool
    ensures x.tx == pool[x.id]
  {
    var i :| 0 <= i < |offers| && offers[i] == x;
    var j :| 0 <= j < |offers| && offers[j] == Entry(x.id, pool[x.id]);
    assert !(i < j) && !(j < i);
  }

  lemma LowestKeepsBest(pool: Pool, capacity: nat, offers: seq<Entry>, e: Entry)
    requires Best(pool, capacity, offers) && Independent(offers) && e.id !in pool
    requires |pool| >= capacity && pool != map[] && e.tx.fee > pool[Lowest(pool)].fee
    ensures Best((pool - {Lowest(pool)})[e.id := e.tx], capacity, offers + [e])
  {
    forall x, id | x in offers && id in pool && x.id == id ensures x.tx == pool[id] {
      SameTransaction(pool, offers, x);
    }
    EvictionKeepsBest(pool, capacity, offers, e, Lowest(pool));
  }

  lemma AdmitKeepsBest(pool: Pool, capacity: nat, offers: seq<Entry>, e: Entry)
    requires Best(pool, capacity, offers) && Independent(offers)
    requires e.id !in pool && Claims(e.tx) * ClaimsOf(pool) == {}
    ensures Best(Admit(pool, capacity, e.id, e.tx).1, capacity, offers + [e])
  {
    if |pool| < capacity {
      RoomKeepsBest(pool, capacity, offers, e);
    } else if pool == map[] || e.tx.fee <= pool[Lowest(pool)].fee {
      RefusalKeepsBest(pool, capacity, offers, e);
    } else {
      LowestKeepsBest(pool, capacity, offers, e);
    }
  }

  /**
   Any stream of independent offers leaves a pool that is full or holds them all, and in which every
   transaction pays at least as much as every one that was left out.
   */
  lemma {:induction false} HighestFeesStay(capacity: nat, offers: seq<Entry>)
    requires Independent(offers)
    ensures Best(OfferAll(capacity, offers), capacity, offers)
  {
    if offers != [] {
      var n := |offers| - 1;
      HighestFeesStay(capacity, offers[..n]);
      assert offers == offers[..n] + [offers[n]];
      NoConflict(OfferAll(capacity, offers[..n]), offers[..n], offers[n]);
      AdmitKeepsBest(OfferAll(capacity, offers[..n]), capacity, offers[..n], offers[n]);
    }
  }

  // ---------- the best-paying transactions ----------

  /** `ids` names different entries of the pool, highest fee first. */
  ghost predicate Ranked(pool: Pool, ids: seq<Text>)
  {
    && (forall i | 0 <= i < |ids| :: ids[i] in pool)
    && forall i, j | 0 <= i < j < |ids| :: ids[i] != ids[j] && pool[ids[i]].fee >= pool[ids[j]].fee
  }

  /** `rest` is what `ids` leaves, and none of it pays more than what `ids` names. */
  ghost predicate Leaves(pool: Pool, ids: seq<Text>, rest: Pool)
    requires Ranked(pool, ids)
  {
    && |rest| == |pool| - |ids|
    && (forall id | id in pool :: id in rest <==> id !in ids)
    && (forall id | id in rest :: id in pool && rest[id] == pool[id])
    && forall i, id | 0 <= i < |ids| && id in rest :: pool[ids[i]].fee >= rest[id].fee
  }

  /** `list` holds the entries `ids` names, and every entry left out pays no more than any of them. */
  ghost predicate Ranks(pool: Pool, ids: seq<Text>, list: seq<Transaction>)
  {
    && Ranked(pool, ids) && |list| == |ids|
    && (forall i | 0 <= i < |ids| :: list[i] == pool[ids[i]])
    && forall i, id | 0 <= i < |ids| && id in pool && id !in ids :: list[i].fee >= pool[id].fee
  }

  lemma NextRanked(pool: Pool, ids: seq<Text>, rest: Pool, top: Text)
    requires Ranked(pool, ids) && Leaves(pool, ids, rest)
    requires top in rest && forall id | id in rest :: rest[id].fee <= rest[top].fee
    ensures Ranked(pool, ids + [top]) && Leaves(pool, ids + [top], rest - {top})
  {
    Fewer(rest, top);
  }

  // ---------- the pool object ----------

  class Mempool {
    const crypto: Crypto
    const capacity: nat
    var transactions: Pool
    var pending: set<Claim>

    /** The index of claimed outputs is exact, the pooled transactions do not conflict, and the pool fits. */
    ghost predicate Valid()
      reads this
    {
      pending == ClaimsOf(transactions) && Disjoint(transactions) && |transactions| <= capacity
    }

    constructor (crypto: Crypto, capacity: nat)
      ensures this.crypto == crypto && this.capacity == capacity
      ensures Valid() && transactions == map[]
    {
      this.crypto, this.capacity := crypto, capacity;
      transactions, pending := map[], {};
    }

    method Conflicts(tx: Transaction) returns (clash: bool)
      ensures clash == (Claims(tx) * pending != {})
    {
      for i := 0 to |tx.inputs|
        invariant forall k | 0 <= k < i :: Outpoint(tx.inputs[k]) !in pending
      {
        if Outpoint(tx.inputs[i]) in pending {
          assert Outpoint(tx.inputs[i]) in Claims(tx) * pending;
          return true;
        }
      }
      clash := false;
    }

    method ReleaseClaims(tx: Transaction)
      modifies `pending
      ensures pending == old(pending) - Claims(tx)
    {
      for i := 0 to |tx.inputs|
        invariant pending == old(pending) - set k | 0 <= k < i :: Outpoint(tx.inputs[k])
      {
        pending := pending - {Outpoint(tx.inputs[i])};
      }
    }

    method RecordClaims(tx: Transaction)
      modifies `pending
      ensures pending == old(pending) + Claims(tx)
    {
      for i := 0 to |tx.inputs|
        invariant pending == old(pending) + set k | 0 <= k < i :: Outpoint(tx.inputs[k])
      {
        pending := pending + {Outpoint(tx.inputs[i])};
      }
    }

    method Discard(id: Text)
      requires Valid() && id in transactions
      modifies this
      ensures Valid() && transactions == old(transactions) - {id}
    {
      ClaimsWithout(transactions, id);
      ReleaseClaims(transactions[id]);
      var rest := transactions - {id};
      assert rest.Keys <= transactions.Keys;
      Fewer(transactions, id);
      transactions := rest;
    }

    method Insert(id: Text, tx: Transaction)
      requires Valid() && id !in transactions && |transactions| < capacity && Claims(tx) * pending == {}
      modifies this
      ensures Valid() && transactions == old(transactions)[id := tx]
    {
      ClaimsWith(transactions, id, tx);
      DisjointWith(transactions, id, tx);
      RecordClaims(tx);
      transactions := transactions[id := tx];
    }

    method AddTransaction(tx: Transaction) returns (ok: bool)
      requires Valid()
      modifies this
      ensures Valid()
      ensures (ok, transactions) == Admit(old(transactions), capacity, Ledger.TxId(crypto, tx), tx)
    {
      var id := Ledger.TxId(crypto, tx);
      if id in transactions { return false; }
      var clash := Conflicts(tx);
      if clash { return false; }
      if |transactions| >= capacity {
        if transactions == map[] { return false; }
        var lowest := FindLowest(transactions);
        LowestUnique(transactions, lowest, Lowest(transactions));
        if transactions[lowest].fee >= tx.fee { return false; }
        Fewer(transactions, lowest);
        ClaimsWithout(transactions, lowest);
        Discard(lowest);
      }
      Insert(id, tx);
      ok := true;
    }

    method RemoveTransaction(id: Text) returns (ok: bool)
      requires Valid()
      modifies this
      ensures Valid()
      ensures ok == (id in old(transactions)) && transactions == old(transactions) - {id}
    {
      ok := id in transactions;
      if ok {
        Discard(id);
      }
    }

    method Clear()
      modifies this
      ensures Valid() && transactions == map[]
    {
      transactions, pending := map[], {};
    }

    method IsUtxoSpent(claim: Claim) returns (spent: bool)
      requires Valid()
      ensures spent <==> exists id :: id in transactions && claim in Claims(transactions[id])
    {
      spent := claim in pending;
    }

    /**
     The best-paying transactions, highest fee first, at most `limit` of them; equal fees may come in
     any order.
     */
    method GetTransactions(limit: u32) returns (list: seq<Transaction>)
      ensures |list| == Smaller(limit, |transactions|)
      ensures exists ids :: Ranks(transactions, ids, list)
    {
      list := [];
      var rest := transactions;
      ghost var ids: seq<Text> := [];
      while |list| < limit && rest != map[]
        invariant |list| == |ids| <= limit
        invariant Ranked(transactions, ids) && Leaves(transactions, ids, rest)
        invariant forall i | 0 <= i < |ids| :: list[i] == transactions[ids[i]]
        decreases |rest|
      {
        var top := FindHighest(rest);
        NextRanked(transactions, ids, rest, top);
        list, ids := list + [rest[top]], ids + [top];
        rest := rest - {top};
      }
      assert Ranks(transactions, ids, list);
    }
  }

  method FindHighest(pool: Pool) returns (top: Text)
    requires pool != map[]
    ensures top in pool && forall id | id in pool :: pool[id].fee <= pool[top].fee
  {
    top :| top in pool;
    var rest := pool.Keys - {top};
    while rest != {}
      invariant top in pool && rest <= pool.Keys
      invariant forall id | id in pool && id !in rest :: pool[id].fee <= pool[top].fee
      decreases |rest|
    {
      var id :| id in rest;
      rest := rest - {id};
      if pool[id].fee > pool[top].fee {
        top := id;
      }
    }
  }
}
