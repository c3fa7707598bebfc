/**
 The ready prefix of an account: the longest run of consecutive nonces, starting at the account
 nonce, whose actions the account balance pays for one after the other.
 */
module ReadyPrefix {
  import opened Actions

  type Items = map<nat, Action>

  function Lookup(items: Items, n: nat): Option<Action> {
    if n in items then Some(items[n]) else None
  }

  /** `acts` lists the actions of `items` at the nonces `gone`, each exactly once. */
  ghost predicate Lists(acts: seq<Action>, items: Items, gone: set<nat>) {
    && (forall a | a in acts :: a.nonce in gone && a.nonce in items && items[a.nonce] == a)
    && (forall n | n in gone :: n in items && items[n] in acts)
    && (forall i, j | 0 <= i < j < |acts| :: acts[i].nonce != acts[j].nonce)
  }

  /** The total cost of the actions with nonces from `a` up to, and not including, `k`. */
  function Spent(items: Items, a: nat, k: nat): int
    decreases k
  {
    if k <= a then 0
    else Spent(items, a, k - 1) + (if k - 1 in items then items[k - 1].cost else 0)
  }

  /** The action at nonce k is present and paid for by what the earlier ones leave. */
  ghost predicate Pays(items: Items, a: nat, balance: int, k: nat) {
    k in items && items[k].cost <= balance - Spent(items, a, k)
  }

  /** Every nonce in [a, p) is present and affordable in sequence. */
  ghost predicate Affordable(items: Items, a: nat, balance: int, p: nat) {
    forall k | a <= k < p :: Pays(items, a, balance, k)
  }

  /** The run cannot be extended past p. */
  ghost predicate Blocked(items: Items, a: nat, balance: int, p: nat) {
    !Pays(items, a, balance, p)
  }

  /** p is the end of the ready prefix. */
  ghost predicate IsReadyEnd(items: Items, a: nat, balance: int, p: nat) {
    a <= p && Affordable(items, a, balance, p) && Blocked(items, a, balance, p)
  }

  lemma PrefixPresent(items: Items, a: nat, balance: int, p: nat)
    requires Affordable(items, a, balance, p)
    ensures forall k | a <= k < p :: k in items
  {
    forall k | a <= k < p ensures k in items {
      assert Pays(items, a, balance, k);
    }
  }

  /** The ready prefix has exactly one end. */
  lemma ReadyEndUnique(items: Items, a: nat, balance: int, p: nat, q: nat)
    requires IsReadyEnd(items, a, balance, p) && IsReadyEnd(items, a, balance, q)
    ensures p == q
  {
  }

  /** Every affordable run lies inside the ready prefix. */
  lemma AffordableIsInside(items: Items, a: nat, balance: int, p: nat, q: nat)
    requires Affordable(items, a, balance, p) && IsReadyEnd(items, a, balance, q)
    ensures p <= q
  {
  }

  /** The cost of a longer stretch begins with the cost of its first action. */
  lemma {:induction false} SpentFromFirst(items: Items, a: nat, k: nat)
    requires a < k
    ensures Spent(items, a, k) == (if a in items then items[a].cost else 0) + Spent(items, a + 1, k)
  {
    if a + 1 < k {
      SpentFromFirst(items, a, k - 1);
    }
  }

  /** What is spent before k depends only on the actions before k. */
  lemma {:induction false} SpentFrame(items: Items, items': Items, a: nat, k: nat)
    requires forall n | a <= n < k :: (n in items <==> n in items') && (n in items ==> items[n] == items'[n])
    ensures Spent(items, a, k) == Spent(items', a, k)
    decreases k
  {
    if a < k {
      SpentFrame(items, items', a, k - 1);
    }
  }

  lemma AffordableFrame(items: Items, items': Items, a: nat, balance: int, p: nat)
    requires forall n | a <= n < p :: (n in items <==> n in items') && (n in items ==> items[n] == items'[n])
    requires Affordable(items, a, balance, p)
    ensures Affordable(items', a, balance, p)
    ensures forall k | a <= k <= p :: Spent(items', a, k) == Spent(items, a, k)
  {
    forall k | a <= k <= p ensures Spent(items', a, k) == Spent(items, a, k) {
      SpentFrame(items, items', a, k);
    }
    forall k | a <= k < p ensures Pays(items', a, balance, k) {
      assert Pays(items, a, balance, k);
    }
  }

  ghost predicate Remembers(items: Items, a: nat, balance: int, cache: map<nat, int>, k: nat) {
    k in cache && cache[k] == balance - Spent(items, a, k)
  }

  /**
   Up to p the run is affordable, and the balance cache holds what the recomputation gives;
   entries above p may be stale, and none sits at or below the account nonce.
   */
  ghost predicate Cached(items: Items, a: nat, balance: int, cache: map<nat, int>, p: nat) {
    && a <= p
    && Affordable(items, a, balance, p)
    && (forall k | a < k <= p :: Remembers(items, a, balance, cache, k))
    && forall k | k in cache :: a < k
  }

  /** The empty prefix needs no cache. */
  lemma NothingCached(items: Items, a: nat, balance: int)
    ensures Cached(items, a, balance, map[], a)
  {
  }

  /** Reading the cache at p gives the balance left at p. */
  lemma CacheRead(items: Items, a: nat, balance: int, cache: map<nat, int>, p: nat)
    requires Cached(items, a, balance, cache, p)
    ensures (if p in cache then cache[p] else balance) == balance - Spent(items, a, p)
  {
    assert a < p ==> Remembers(items, a, balance, cache, p);
  }

  /** One more affordable action moves the cached prefix on by one. */
  lemma CacheStep(items: Items, a: nat, balance: int, cache: map<nat, int>, p: nat, left: int)
    requires Cached(items, a, balance, cache, p)
    requires p in items && items[p].cost <= balance - Spent(items, a, p)
    requires left == balance - Spent(items, a, p) - items[p].cost
    ensures Cached(items, a, balance, cache[p + 1 := left], p + 1)
    ensures left == balance - Spent(items, a, p + 1)
  {
    var cache' := cache[p + 1 := left];
    forall k | a < k <= p ensures Remembers(items, a, balance, cache', k) {
      assert Remembers(items, a, balance, cache, k);
    }
  }

  /** A change at or above p leaves the cached prefix up to p as it was. */
  lemma CacheFrame(items: Items, items': Items, a: nat, balance: int, cache: map<nat, int>, p: nat)
    requires forall n | a <= n < p :: (n in items <==> n in items') && (n in items ==> items[n] == items'[n])
    requires Cached(items, a, balance, cache, p)
    ensures Cached(items', a, balance, cache, p)
    ensures Spent(items', a, p) == Spent(items, a, p)
  {
    AffordableFrame(items, items', a, balance, p);
    forall k | a < k <= p ensures Remembers(items', a, balance, cache, k) {
      assert Remembers(items, a, balance, cache, k);
    }
  }

  /** Forgetting cache entries above p leaves the cached prefix up to p as it was. */
  lemma CachePrune(items: Items, a: nat, balance: int, cache: map<nat, int>, cache': map<nat, int>, p: nat)
    requires Cached(items, a, balance, cache, p)
    requires forall k | k in cache' :: k in cache
    requires forall k | k in cache && k <= p :: k in cache' && cache'[k] == cache[k]
    ensures Cached(items, a, balance, cache', p)
  {
    forall k | a < k <= p ensures Remembers(items, a, balance, cache', k) {
      assert Remembers(items, a, balance, cache, k);
    }
  }

  ghost function From(items: Items, a: nat): set<nat> {
    set k | k in items && a <= k
  }

  lemma FromShrinks(items: Items, a: nat)
    requires a in items
    ensures From(items, a + 1) < From(items, a)
  {
    assert a in From(items, a) && a !in From(items, a + 1);
  }

  /** The end of the ready prefix, found by scanning from the account nonce. */
  function ReadyEnd(items: Items, a: nat, balance: int): (p: nat)
    ensures IsReadyEnd(items, a, balance, p)
    decreases From(items, a)
  {
    if a !in items || balance < items[a].cost then a
    else
      FromShrinks(items, a);
      var rest := balance - items[a].cost;
      var p := ReadyEnd(items, a + 1, rest);
      ReadyEndExtends(items, a, balance, p);
      p
  }

  /** Putting one affordable action before a ready prefix gives a ready prefix. */
  lemma ReadyEndExtends(items: Items, a: nat, balance: int, p: nat)
    requires a in items && items[a].cost <= balance
    requires IsReadyEnd(items, a + 1, balance - items[a].cost, p)
    ensures IsReadyEnd(items, a, balance, p)
  {
    forall k | a < k <= p ensures Spent(items, a, k) == items[a].cost + Spent(items, a + 1, k) {
      SpentFromFirst(items, a, k);
    }
    forall k | a <= k < p ensures Pays(items, a, balance, k) {
      if a < k { assert Pays(items, a + 1, balance - items[a].cost, k); }
    }
  }

  ghost predicate CostNothing(items: Items) {
    forall n | n in items :: items[n].cost == 0
  }

  lemma {:induction false} FreeIsUnspent(items: Items, a: nat, k: nat)
    requires CostNothing(items)
    ensures Spent(items, a, k) == 0
    decreases k
  {
    if a < k {
      FreeIsUnspent(items, a, k - 1);
    }
  }

  /** Actions that cost nothing are ready up to the first gap. */
  lemma FreeUpToGap(items: Items, a: nat, balance: int, e: nat)
    requires balance >= 0 && CostNothing(items)
    requires a <= e && e !in items && forall k: nat | a <= k < e :: k in items
    ensures ReadyEnd(items, a, balance) == e
  {
    forall k | a <= k < e ensures Pays(items, a, balance, k) {
      FreeIsUnspent(items, a, k);
    }
    ReadyEndUnique(items, a, balance, e, ReadyEnd(items, a, balance));
  }
}
