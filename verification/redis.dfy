/** The part of Redis the token store uses: a map from keys to either a
    string or a non-empty set of strings, with GET, SET, SADD, SREM,
    SMEMBERS and DEL. A command applied to a key holding the other kind of
    value fails with WRONGTYPE in Redis; here that is a precondition. */
module Redis {
  import opened Errors

  datatype Value = Str(text: string) | Members(elems: set<string>)

  type Store = map<string, Value>

  predicate HoldsString(st: Store, k: string) {
    k !in st || st[k].Str?
  }

  predicate HoldsSet(st: Store, k: string) {
    k !in st || st[k].Members?
  }

  /** Key `k` is absent from both stores or bound to the same value. */
  predicate SameAt(st: Store, st': Store, k: string) {
    (k in st <==> k in st') && (k in st ==> st[k] == st'[k])
  }

  /** GET: the string at `k`, or nil when the key is absent. */
  function Get(st: Store, k: string): (r: Option<string>)
    requires HoldsString(st, k)
    ensures r.Some? <==> k in st
    ensures r.Some? ==> st[k] == Str(r.value)
  {
    if k in st then Some(st[k].text) else None
  }

  /** SET: binds `k` to the string `v`, whatever it held before. */
  function Set(st: Store, k: string, v: string): (r: Store)
    ensures k in r && r[k] == Str(v)
    ensures Get(r, k) == Some(v)
    ensures forall k' :: k' != k ==> SameAt(st, r, k')
  {
    st[k := Str(v)]
  }

  /** SMEMBERS: the members of the set at `k`, empty when absent. */
  function SMembers(st: Store, k: string): (r: set<string>)
    requires HoldsSet(st, k)
    ensures k in st ==> st[k] == Members(r)
    ensures k !in st ==> r == {}
  {
    if k in st then st[k].elems else {}
  }

  /** SADD: adds `m` to the set at `k`, creating the set when absent. */
  function SAdd(st: Store, k: string, m: string): (r: Store)
    requires HoldsSet(st, k)
    ensures k in r && r[k].Members?
    ensures SMembers(r, k) == SMembers(st, k) + {m}
    ensures forall k' :: k' != k ==> SameAt(st, r, k')
  {
    st[k := Members(SMembers(st, k) + {m})]
  }

  /** SREM: removes `m` from the set at `k`; Redis deletes a set that
      becomes empty. */
  function SRem(st: Store, k: string, m: string): (r: Store)
    requires HoldsSet(st, k)
    ensures HoldsSet(r, k)
    ensures SMembers(r, k) == SMembers(st, k) - {m}
    ensures k in r ==> k in st && r[k].elems != {}
    ensures forall k' :: k' != k ==> SameAt(st, r, k')
  {
    if k !in st then st
    else
      var rest := st[k].elems - {m};
      if rest == {} then st - {k} else st[k := Members(rest)]
  }

  /** DEL: removes every key in `ks`, whatever it holds. */
  function Del(st: Store, ks: set<string>): (r: Store)
    ensures forall k :: k in ks ==> k !in r
    ensures forall k :: k !in ks ==> SameAt(st, r, k)
  {
    st - ks
  }
}
