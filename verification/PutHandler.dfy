/** The `put` query of a storage node: `DhtNode::handle_query` (src/bittorrent/mainline_dht.cpp) on
    top of `DataStore` (src/bittorrent/dht_storage.cpp). */
module PutHandler {
  import opened NodeIds
  import opened Options
  import opened Sequences
  import opened Bencoding
  import opened BencodingRoundTrip
  import opened MutableData

  const PUBLIC_KEY_SIZE: nat := 32
  const SIGNATURE_SIZE: nat := 64
  const MAX_SALT: nat := 64
  const PUT_VALIDITY: real := 7200.0   // seconds

  datatype Stored<T> = Stored(item: T, lastSeen: real)

  datatype Store = Store(mutable: map<Id, Stored<Item>>, immutable: map<Id, Stored<Value>>)

  /** What a query brings along: its arguments, and the answers of the token store and of the routing
      table when the handler asks them. */
  datatype Query = Query(
    arguments: seq<Entry>,
    tokenValid: (Id, string) -> bool,
    closest: Id -> seq<Id>,
    now: real)

  datatype Decision =
    | Refuse(code: int)
    | PutMutable(target: Id, item: Item)
    | PutImmutable(target: Id, value: Value)

  // ------------------------------------------------------------------------------------------
  // Arguments

  predicate HasKey(es: seq<Entry>, key: string) {
    exists i :: 0 <= i < |es| && es[i].key == key
  }

  /** `arguments[key]`.  A missing key is created with a default value, which is the empty string. */
  function Argument(es: seq<Entry>, key: string): Value {
    if es == [] then Str("") else if es[0].key == key then es[0].value else Argument(es[1..], key)
  }

  lemma {:induction false} MissingArgument(es: seq<Entry>, key: string)
    requires !HasKey(es, key)
    ensures Argument(es, key) == Str("")
  {
    if es == [] {
    } else {
      assert es[0].key != key;
      MissingArgument(es[1..], key);
    }
  }

  lemma {:induction false} FoundArgument(es: seq<Entry>, key: string)
    requires HasKey(es, key)
    ensures Entry(key, Argument(es, key)) in es
  {
    if es[0].key == key {
      assert es[0] == Entry(key, Argument(es, key));
    } else {
      FoundArgument(es[1..], key);
    }
  }

  // ------------------------------------------------------------------------------------------
  // Deciding

  function MutableId(crypto: Crypto, publicKey: string, salt: string): Id {
    crypto.sha1(publicKey + salt)
  }

  function ImmutableId(crypto: Crypto, value: Value): Id {
    crypto.sha1(Encode(value))
  }

  /** This node is responsible if it is closer to the target than one of the nodes it knows there. */
  ghost predicate Responsible(self: Id, target: Id, nodes: seq<Id>) {
    exists i :: 0 <= i < |nodes| && Closer(target, self, nodes[i])
  }

  /** The rules that order the versions of an item. */
  function VersionError(existing: Option<Item>, item: Item, cas: Option<int>): Option<int> {
    match existing
    case None => None
    case Some(prev) =>
      if item.seqNo < prev.seqNo then Some(302)
      else if item.seqNo == prev.seqNo && Encode(item.value) != Encode(prev.value) then Some(302)
      else if cas.Some? && cas.value != prev.seqNo then Some(301)
      else None
  }

  function AsInt(v: Value): Option<int> {
    if v.Int? then Some(v.i) else None
  }

  function Existing(store: Store, target: Id): Option<Item> {
    if target in store.mutable then Some(store.mutable[target].item) else None
  }

  /** The checks of the branch for mutable items.  Its caller has checked the size of the value, so the
      check of the signature never throws: asking for its answer is well-formed. */
  ghost function DecideMutable(crypto: Crypto, self: Id, store: Store, q: Query, token: string, value: Value): Decision
    requires |Encode(value)| < MAX_VALUE
  {
    var args := q.arguments;
    var k, sig := Argument(args, "k"), Argument(args, "sig");
    var seqNo, salt := Argument(args, "seq"), Argument(args, "salt");
    if !k.Str? || |k.s| != PUBLIC_KEY_SIZE then Refuse(203)
    else if !sig.Str? || |sig.s| != SIGNATURE_SIZE then Refuse(203)
    else if !seqNo.Int? then Refuse(203)
    else if salt.Str? && |salt.s| > MAX_SALT then Refuse(207)
    else
      var item := Item(k.s, if salt.Str? then salt.s else "", value, seqNo.i, sig.s);
      var target := MutableId(crypto, item.publicKey, item.salt);
      if !q.tokenValid(target, token) then Refuse(203)
      else if !Responsible(self, target, q.closest(target)) then Refuse(201)
      else if !Verify(crypto, item).value then Refuse(206)
      else
        match VersionError(Existing(store, target), item, AsInt(Argument(args, "cas")))
        case Some(code) => Refuse(code)
        case None => PutMutable(target, item)
  }

  ghost function Decide(crypto: Crypto, self: Id, store: Store, q: Query): Decision {
    var token := Argument(q.arguments, "token");
    if !token.Str? then Refuse(203)
    else if !HasKey(q.arguments, "v") then Refuse(203)
    else
      var value := Argument(q.arguments, "v");
      if |Encode(value)| >= MAX_VALUE then Refuse(205)
      else if Argument(q.arguments, "k").Str? then DecideMutable(crypto, self, store, q, token.s, value)
      else
        var target := ImmutableId(crypto, value);
        if !q.tokenValid(target, token.s) then Refuse(203)
        else if !Responsible(self, target, q.closest(target)) then Refuse(201)
        else PutImmutable(target, value)
  }

  function Execute(store: Store, d: Decision, now: real): Store {
    match d
    case Refuse(_) => store
    case PutMutable(target, item) => store.(mutable := store.mutable[target := Stored(item, now)])
    case PutImmutable(target, value) => store.(immutable := store.immutable[target := Stored(value, now)])
  }

  ghost function Put(crypto: Crypto, self: Id, store: Store, q: Query): Store {
    Execute(store, Decide(crypto, self, store, q), q.now)
  }

  predicate Alive<T>(s: Stored<T>, now: real) {
    s.lastSeen + PUT_VALIDITY >= now
  }

  /** The periodic removal of expired items. */
  function Expire(store: Store, now: real): Store {
    Store(map k | k in store.mutable && Alive(store.mutable[k], now) :: store.mutable[k],
          map k | k in store.immutable && Alive(store.immutable[k], now) :: store.immutable[k])
  }

  // ------------------------------------------------------------------------------------------
  // Every run

  datatype Event = PutQuery(query: Query) | Expiry(now: real)

  ghost function Step(crypto: Crypto, self: Id, store: Store, e: Event): Store {
    match e
    case PutQuery(q) => Put(crypto, self, store, q)
    case Expiry(now) => Expire(store, now)
  }

  ghost function Run(crypto: Crypto, self: Id, store: Store, es: seq<Event>): Store
    decreases |es|
  {
    if es == [] then store else Run(crypto, self, Step(crypto, self, store, es[0]), es[1..])
  }

  ghost predicate GoodItem(crypto: Crypto, target: Id, item: Item) {
    && target == MutableId(crypto, item.publicKey, item.salt)
    && |item.publicKey| == PUBLIC_KEY_SIZE && |item.salt| <= MAX_SALT
    && |Encode(item.value)| < MAX_VALUE
    && HasValidSignature(crypto, item)
  }

  ghost predicate StoreInv(crypto: Crypto, store: Store) {
    && (forall t :: t in store.mutable ==> GoodItem(crypto, t, store.mutable[t].item))
    && (forall t :: t in store.immutable ==>
          && t == ImmutableId(crypto, store.immutable[t].item)
          && |Encode(store.immutable[t].item)| < MAX_VALUE)
  }

  /** Every stored item stands under its own key, is short enough and carries a valid signature. */
  lemma {:induction false} RunInv(crypto: Crypto, self: Id, store: Store, es: seq<Event>)
    requires StoreInv(crypto, store)
    ensures StoreInv(crypto, Run(crypto, self, store, es))
    decreases |es|
  {
    if es == [] {
    } else {
      StepInv(crypto, self, store, es[0]);
      RunInv(crypto, self, Step(crypto, self, store, es[0]), es[1..]);
    }
  }

  lemma StepInv(crypto: Crypto, self: Id, store: Store, e: Event)
    requires StoreInv(crypto, store)
    ensures StoreInv(crypto, Step(crypto, self, store, e))
  {
    hide Encode;
    hide Responsible;
    hide DecideMutable;
    hide GoodItem;
    if e.PutQuery? {
      var token, value := Argument(e.query.arguments, "token"), Argument(e.query.arguments, "v");
      if token.Str? && |Encode(value)| < MAX_VALUE {
        StoredIffDeserved(crypto, self, store, e.query, token.s, value);
      }
    }
  }

  /** A later version of the same item: a higher number, or the same number and the same value. */
  ghost predicate Succeeds(prev: Item, now: Item) {
    prev.seqNo < now.seqNo || (prev.seqNo == now.seqNo && prev.value == now.value)
  }

  lemma StepSucceeds(crypto: Crypto, self: Id, store: Store, e: Event, target: Id)
    requires target in store.mutable && target in Step(crypto, self, store, e).mutable
    ensures Succeeds(store.mutable[target].item, Step(crypto, self, store, e).mutable[target].item)
  {
    var prev, now := store.mutable[target].item, Step(crypto, self, store, e).mutable[target].item;
    hide Responsible;
    hide Verify;
    if Encode(now.value) == Encode(prev.value) {
      EncodeInjective(now.value, prev.value);
    }
    hide Encode;
  }

  /** The item that the arguments of a query spell out, if they do. */
  function Offered(args: seq<Entry>, value: Value): Option<Item> {
    var k, sig := Argument(args, "k"), Argument(args, "sig");
    var seqNo, salt := Argument(args, "seq"), Argument(args, "salt");
    if k.Str? && |k.s| == PUBLIC_KEY_SIZE && sig.Str? && |sig.s| == SIGNATURE_SIZE && seqNo.Int? then
      Some(Item(k.s, if salt.Str? then salt.s else "", value, seqNo.i, sig.s))
    else None
  }

  /** What entitles an item to be stored: a valid token, this node's responsibility, the item's own
      merits, and its place after the version that is stored. */
  ghost predicate Deserves(crypto: Crypto, self: Id, store: Store, q: Query, token: string, item: Item) {
    var target := MutableId(crypto, item.publicKey, item.salt);
    && q.tokenValid(target, token) && Responsible(self, target, q.closest(target))
    && GoodItem(crypto, target, item)
    && (target in store.mutable ==>
          && Succeeds(store.mutable[target].item, item)
          && var cas := AsInt(Argument(q.arguments, "cas"));
             cas == None || cas.value == store.mutable[target].item.seqNo)
  }

  /** An item is stored if and only if it is spelled out and deserves it. */
  lemma StoredIffDeserved(crypto: Crypto, self: Id, store: Store, q: Query, token: string, value: Value)
    requires |Encode(value)| < MAX_VALUE
    ensures var d, item := DecideMutable(crypto, self, store, q, token, value), Offered(q.arguments, value);
            && (d.PutMutable? <==> item.Some? && Deserves(crypto, self, store, q, token, item.value))
            && !d.PutImmutable?
            && (d.PutMutable? ==> d.item == item.value && GoodItem(crypto, d.target, d.item))
  {
    var item := Offered(q.arguments, value);
    hide Argument;
    hide Responsible;
    hide Verify;
    if item.Some? {
      SameEncoding(crypto, store, item.value);
      VerifyMeaning(crypto, item.value);
    }
    hide Encode;
  }

  /** Comparing encodings is comparing values. */
  lemma SameEncoding(crypto: Crypto, store: Store, item: Item)
    ensures var target := MutableId(crypto, item.publicKey, item.salt);
            target in store.mutable ==>
              (Encode(item.value) == Encode(store.mutable[target].item.value) <==>
               item.value == store.mutable[target].item.value)
  {
    var target := MutableId(crypto, item.publicKey, item.salt);
    if target in store.mutable && Encode(item.value) == Encode(store.mutable[target].item.value) {
      EncodeInjective(item.value, store.mutable[target].item.value);
    }
  }

  /** The target is still stored after each event. */
  ghost predicate StaysStored(crypto: Crypto, self: Id, store: Store, es: seq<Event>, target: Id)
    decreases |es|
  {
    target in store.mutable &&
    (es == [] || StaysStored(crypto, self, Step(crypto, self, store, es[0]), es[1..], target))
  }

  /** Over any run of queries and expiries that does not remove the target, the stored sequence
      number never decreases, and two items stored with the same number carry equal values. */
  lemma {:induction false} VersionsNeverGoBack(crypto: Crypto, self: Id, store: Store, es: seq<Event>, target: Id)
    requires StaysStored(crypto, self, store, es, target)
    ensures target in Run(crypto, self, store, es).mutable
    ensures Succeeds(store.mutable[target].item, Run(crypto, self, store, es).mutable[target].item)
    decreases |es|
  {
    if es == [] {
    } else {
      StepSucceeds(crypto, self, store, es[0], target);
      VersionsNeverGoBack(crypto, self, Step(crypto, self, store, es[0]), es[1..], target);
    }
  }

  // ------------------------------------------------------------------------------------------
  // How long

  /** Expiry removes exactly what was put more than two hours ago, and changes nothing else. */
  lemma ExpiryMeaning(store: Store, now: real, target: Id)
    ensures var r := Expire(store, now);
            && (target in r.mutable <==> target in store.mutable && store.mutable[target].lastSeen >= now - 7200.0)
            && (target in r.mutable ==> r.mutable[target] == store.mutable[target])
            && (target in r.immutable <==>
                  target in store.immutable && store.immutable[target].lastSeen >= now - 7200.0)
            && (target in r.immutable ==> r.immutable[target] == store.immutable[target])
  {
  }

  /** Clock readings of the run do not precede `since`, and it does not expire anything that recent. */
  ghost predicate Within(es: seq<Event>, since: real) {
    forall i :: 0 <= i < |es| ==>
      match es[i]
      case PutQuery(q) => since <= q.now
      case Expiry(now) => now - 7200.0 <= since
  }

  lemma StepKeeps(crypto: Crypto, self: Id, store: Store, e: Event, target: Id, since: real)
    requires target in store.mutable && store.mutable[target].lastSeen >= since && Within([e], since)
    ensures var r := Step(crypto, self, store, e); target in r.mutable && r.mutable[target].lastSeen >= since
  {
    assert [e][0] == e;
    hide Decide;
  }

  /** For two hours an item that was put is not lost: whatever is put in between, the target is there,
      with the same item or a later version of it. */
  lemma {:induction false} KeptForTwoHours(crypto: Crypto, self: Id, store: Store, es: seq<Event>, target: Id,
                                           since: real)
    requires target in store.mutable && store.mutable[target].lastSeen >= since && Within(es, since)
    ensures target in Run(crypto, self, store, es).mutable
    ensures Succeeds(store.mutable[target].item, Run(crypto, self, store, es).mutable[target].item)
    decreases |es|
  {
    if es == [] {
    } else {
      var next := Step(crypto, self, store, es[0]);
      StepKeeps(crypto, self, store, es[0], target, since);
      StepSucceeds(crypto, self, store, es[0], target);
      KeptForTwoHours(crypto, self, next, es[1..], target, since);
    }
  }

  /** The query spelled the item out at the time that is on record for it. */
  ghost predicate PutBy(e: Event, s: Stored<Item>) {
    e.PutQuery? && e.query.now == s.lastSeen && Offered(e.query.arguments, s.item.value) == Some(s.item)
  }

  lemma StepOrigin(crypto: Crypto, self: Id, store: Store, e: Event, target: Id)
    requires target in Step(crypto, self, store, e).mutable
    ensures var s := Step(crypto, self, store, e).mutable[target];
            (target in store.mutable && s == store.mutable[target]) || PutBy(e, s)
  {
    hide Argument;
    hide Responsible;
    hide Verify;
    hide Encode;
    hide VersionError;
  }

  /** Whatever is stored is what some query of the run put, with the time of that query. */
  lemma {:induction false} ItemOrigin(crypto: Crypto, self: Id, store: Store, es: seq<Event>, target: Id)
    requires target in Run(crypto, self, store, es).mutable
    ensures var s := Run(crypto, self, store, es).mutable[target];
            (target in store.mutable && s == store.mutable[target]) || exists e :: e in es && PutBy(e, s)
    decreases |es|
  {
    if es == [] {
    } else {
      var next := Step(crypto, self, store, es[0]);
      ItemOrigin(crypto, self, next, es[1..], target);
      if target in next.mutable {
        StepOrigin(crypto, self, store, es[0], target);
      }
    }
  }

  // ------------------------------------------------------------------------------------------
  // Targets and refusals

  /** Two signed items share a target only if they share key and salt, and two immutable ones only if
      they are equal, as long as SHA-1 does not collide on them. */
  lemma TargetsDiffer(crypto: Crypto, a: Item, b: Item)
    requires |a.publicKey| == |b.publicKey|
    ensures (crypto.sha1(a.publicKey + a.salt) == crypto.sha1(b.publicKey + b.salt) ==>
               a.publicKey + a.salt == b.publicKey + b.salt) ==>
            (MutableId(crypto, a.publicKey, a.salt) == MutableId(crypto, b.publicKey, b.salt) <==>
             a.publicKey == b.publicKey && a.salt == b.salt)
    ensures (crypto.sha1(Encode(a.value)) == crypto.sha1(Encode(b.value)) ==> Encode(a.value) == Encode(b.value)) ==>
            (ImmutableId(crypto, a.value) == ImmutableId(crypto, b.value) <==> a.value == b.value)
  {
    Parts(a.publicKey, a.salt);
    Parts(b.publicKey, b.salt);
    if Encode(a.value) == Encode(b.value) {
      EncodeInjective(a.value, b.value);
    }
  }

  /** No token or value, or an item that is not spelled out. */
  ghost predicate Malformed(args: seq<Entry>) {
    || !Argument(args, "token").Str? || !HasKey(args, "v")
    || (Argument(args, "k").Str? && Offered(args, Argument(args, "v")) == None)
  }

  /** Every refusal has its reason, told by the code. */
  lemma RefusalHasReason(crypto: Crypto, self: Id, store: Store, q: Query)
    requires Decide(crypto, self, store, q).Refuse?
    ensures var code, v := Decide(crypto, self, store, q).code, Argument(q.arguments, "v");
            var item := Offered(q.arguments, v);
            var target := if item.Some? then MutableId(crypto, item.value.publicKey, item.value.salt)
                          else ImmutableId(crypto, v);
            && code in {201, 203, 205, 206, 207, 301, 302}
            && (code == 203 ==> Malformed(q.arguments) || !q.tokenValid(target, Argument(q.arguments, "token").s))
            && (code == 205 ==> |Encode(v)| >= 1000)
            && (code == 207 ==> item.Some? && |item.value.salt| > 64)
            && (code == 201 ==> !Responsible(self, target, q.closest(target)))
            && (code == 206 ==> item.Some? && !HasValidSignature(crypto, item.value))
            && (code == 302 ==>
                  item.Some? && target in store.mutable && !Succeeds(store.mutable[target].item, item.value))
            && (code == 301 ==>
                  item.Some? && target in store.mutable &&
                  var cas := AsInt(Argument(q.arguments, "cas"));
                  cas.Some? && cas.value != store.mutable[target].item.seqNo)
  {
    hide Argument;
    hide Responsible;
    hide Verify;
    hide HasValidSignature;
    var v := Argument(q.arguments, "v");
    var item := Offered(q.arguments, v);
    if item.Some? {
      SameEncoding(crypto, store, item.value);
      VerifyMeaning(crypto, item.value);
    }
    hide Encode;
  }

  // ------------------------------------------------------------------------------------------
  // Immutable items

  /** An immutable item is stored if and only if the query also carries an argument "k" that is not
      a string; the absence of "k" does not do, because looking it up creates an empty string. */
  lemma ImmutableNeedsKey(crypto: Crypto, self: Id, store: Store, q: Query)
    ensures Decide(crypto, self, store, q).PutImmutable? <==>
            var token, value := Argument(q.arguments, "token"), Argument(q.arguments, "v");
            var target := ImmutableId(crypto, value);
            && token.Str? && HasKey(q.arguments, "v") && |Encode(value)| < MAX_VALUE
            && q.tokenValid(target, token.s) && Responsible(self, target, q.closest(target))
            && HasKey(q.arguments, "k") && !Argument(q.arguments, "k").Str?
    // It is then stored under its hash with the time of the query, and no other immutable item changes.
    ensures var v, r := Argument(q.arguments, "v"), Put(crypto, self, store, q).immutable;
            var target := ImmutableId(crypto, v);
            var stored := Decide(crypto, self, store, q).PutImmutable?;
            && (stored ==> target in r && r[target] == Stored(v, q.now))
            && forall t :: t != target || !stored ==>
                 (t in r <==> t in store.immutable) && (t in r ==> r[t] == store.immutable[t])
  {
    hide Encode;
    hide Responsible;
    if !HasKey(q.arguments, "k") {
      MissingArgument(q.arguments, "k");
    }
  }

  /** So the immutable `put` of BEP 44, which has no "k", is refused whatever else it says. */
  lemma PlainImmutablePutRefused(crypto: Crypto, self: Id, store: Store, q: Query)
    requires !HasKey(q.arguments, "k")
    ensures Decide(crypto, self, store, q).Refuse? && Put(crypto, self, store, q) == store
  {
    hide Encode;
    hide Responsible;
    MissingArgument(q.arguments, "k");
  }

  // ------------------------------------------------------------------------------------------
  // The handler

  method IsResponsible(self: Id, target: Id, nodes: seq<Id>) returns (r: bool)
    ensures r <==> Responsible(self, target, nodes)
  {
    r := false;
    for i := 0 to |nodes|
      invariant r <==> exists j :: 0 <= j < i && Closer(target, self, nodes[j])
    {
      var closer := CloserTo(target, self, nodes[i]);
      if closer {
        r := true;
      }
    }
  }

  /** The loop that removes what has expired from one of the maps. */
  method EraseExpired<T>(m: map<Id, Stored<T>>, now: real) returns (r: map<Id, Stored<T>>)
    ensures r == map k | k in m && Alive(m[k], now) :: m[k]
  {
    r := m;
    var left := m.Keys;
    while left != {}
      invariant left <= m.Keys
      invariant forall k :: k in r <==> k in m && (k in left || Alive(m[k], now))
      invariant forall k :: k in r ==> r[k] == m[k]
    {
      var k :| k in left;
      left := left - {k};
      if m[k].lastSeen + PUT_VALIDITY < now {
        r := r - {k};
      }
    }
  }

  class StorageNode {
    const crypto: Crypto
    const self: Id
    var store: Store

    ghost predicate Valid()
      reads this
    {
      StoreInv(crypto, store)
    }

    constructor (crypto: Crypto, self: Id)
      ensures Valid() && this.crypto == crypto && this.self == self && store == Store(map[], map[])
    {
      this.crypto, this.self, store := crypto, self, Store(map[], map[]);
    }

    /** The reply is an error code, or `None` if the item was stored. */
    method HandlePut(q: Query) returns (error: Option<int>)
      requires Valid()
      modifies this
      ensures Valid()
      ensures store == Put(crypto, self, old(store), q)
      ensures var d := Decide(crypto, self, old(store), q); error == if d.Refuse? then Some(d.code) else None
    {
      StepInv(crypto, self, store, PutQuery(q));
      hide StoreInv;
      hide Encode;
      var token := Argument(q.arguments, "token");
      if !token.Str? {
        return Some(203);
      }
      if !HasKey(q.arguments, "v") {
        return Some(203);
      }
      var value := Argument(q.arguments, "v");
      if |Encode(value)| >= MAX_VALUE {
        return Some(205);
      }
      if Argument(q.arguments, "k").Str? {
        error := HandleMutable(q, token.s, value);
        return;
      }
      var target := ImmutableId(crypto, value);
      if !q.tokenValid(target, token.s) {
        return Some(203);
      }
      var responsible := IsResponsible(self, target, q.closest(target));
      if !responsible {
        return Some(201);
      }
      store := store.(immutable := store.immutable[target := Stored(value, q.now)]);
      return None;
    }

    /** The periodic removal of expired items. */
    method RemoveExpired(now: real)
      requires Valid()
      modifies this
      ensures Valid() && store == Expire(old(store), now)
    {
      var immutable := EraseExpired(store.immutable, now);
      var mutable := EraseExpired(store.mutable, now);
      store := Store(mutable, immutable);
    }

    /** The comparison with the version that is stored. */
    method CheckVersion(target: Id, item: Item, cas: Value) returns (error: Option<int>)
      ensures error == VersionError(Existing(store, target), item, AsInt(cas))
    {
      hide Encode;
      if target in store.mutable {
        var existing := store.mutable[target].item;
        if item.seqNo < existing.seqNo {
          return Some(302);
        }
        if item.seqNo == existing.seqNo && Encode(item.value) != Encode(existing.value) {
          return Some(302);
        }
        if cas.Int? && cas.i != existing.seqNo {
          return Some(301);
        }
      }
      return None;
    }

    /** The branch for mutable items: a refusal changes nothing, and what is stored deserves it. */
    method HandleMutable(q: Query, token: string, value: Value) returns (error: Option<int>)
      requires |Encode(value)| < MAX_VALUE
      modifies this
      ensures var item := Offered(q.arguments, value);
              if item.Some? && Deserves(crypto, self, old(store), q, token, item.value) then
                var target := MutableId(crypto, item.value.publicKey, item.value.salt);
                error == None && store == Execute(old(store), PutMutable(target, item.value), q.now)
              else error.Some? && store == old(store)
      ensures var d := DecideMutable(crypto, self, old(store), q, token, value);
              && store == Execute(old(store), d, q.now)
              && error == if d.Refuse? then Some(d.code) else None
    {
      StoredIffDeserved(crypto, self, store, q, token, value);
      hide Deserves;
      hide Encode;
      hide Responsible;
      hide Argument;
      hide HasValidSignature;
      hide Verify;
      hide VersionError;
      var publicKey := Argument(q.arguments, "k");
      if !publicKey.Str? || |publicKey.s| != PUBLIC_KEY_SIZE {
        return Some(203);
      }
      var signature := Argument(q.arguments, "sig");
      if !signature.Str? || |signature.s| != SIGNATURE_SIZE {
        return Some(203);
      }
      var seqNo := Argument(q.arguments, "seq");
      if !seqNo.Int? {
        return Some(203);
      }
      var salt := Argument(q.arguments, "salt");
      if salt.Str? && |salt.s| > MAX_SALT {
        return Some(207);
      }
      var item := Item(publicKey.s, if salt.Str? then salt.s else "", value, seqNo.i, signature.s);
      var target := MutableId(crypto, item.publicKey, item.salt);
      if !q.tokenValid(target, token) {
        return Some(203);
      }
      var responsible := IsResponsible(self, target, q.closest(target));
      if !responsible {
        return Some(201);
      }
      VerifyMeaning(crypto, item);
      if !Verify(crypto, item).value {
        return Some(206);
      }
      error := CheckVersion(target, item, Argument(q.arguments, "cas"));
      if error.Some? {
        return;
      }
      store := store.(mutable := store.mutable[target := Stored(item, q.now)]);
      return None;
    }
  }
}
