/** Bencoding (src/bittorrent/bencoding.{h,cpp}; section "bencoding" of BEP 3): values, the encoder,
    and what the destructive parser computes. */
module Bencoding {
  import opened Options
  import opened Numbers

  const DEPTH_LIMIT: nat := 100
  const LENGTH_LIMIT: nat := 2_000_000

  /** A dictionary is the sorted vector that `boost::container::flat_map` is. */
  datatype Value = Int(i: int) | Str(s: string) | List(items: seq<Value>) | Dict(entries: seq<Entry>)

  datatype Entry = Entry(key: string, value: Value)

  // ------------------------------------------------------------------------------------------
  // Encoding

  function EncodeString(s: string): string {
    Decimal(|s|) + ":" + s
  }

  function Encode(v: Value): string
    decreases v, 1
  {
    match v
    case Int(i) => "i" + Decimal(i) + "e"
    case Str(s) => EncodeString(s)
    case List(items) => "l" + EncodeItems(items) + "e"
    case Dict(entries) => "d" + EncodeEntries(entries) + "e"
  }

  function EncodeItems(items: seq<Value>): string
    decreases items, 0
  {
    if items == [] then "" else Encode(items[0]) + EncodeItems(items[1..])
  }

  function EncodeEntries(entries: seq<Entry>): string
    decreases entries, 0
  {
    if entries == [] then ""
    else EncodeString(entries[0].key) + Encode(entries[0].value) + EncodeEntries(entries[1..])
  }

  // ------------------------------------------------------------------------------------------
  // Parsing

  /** A parsed thing and the input that is left. */
  datatype Parsed<T> = Parsed(value: T, rest: string)

  /** `destructive_parse_string`. */
  function ParseString(s: string): (r: Option<Parsed<string>>)
    ensures r.Some? ==> |r.value.rest| < |s|
  {
    match ParseInt64(s)
    case None => None
    case Some((n, t)) =>
      if t == "" || t[0] != ':' then None
      // A negative size becomes huge when it is converted to `size_t`.
      else if n < 0 || |t| - 1 < n || n > LENGTH_LIMIT then None
      else Some(Parsed(t[1..n + 1], t[n + 1..]))
  }

  /** `destructive_parse_value`. */
  function ParseValue(s: string, depth: nat): (r: Option<Parsed<Value>>)
    ensures r.Some? ==> |r.value.rest| < |s|
    decreases |s|, 0
  {
    if s == "" || depth > DEPTH_LIMIT then None
    else if s[0] == 'i' then
      match ParseInt64(s[1..])
      case None => None
      case Some((n, t)) => if t == "" || t[0] != 'e' then None else Some(Parsed(Int(n), t[1..]))
    else if IsDigit(s[0]) then
      match ParseString(s)
      case None => None
      case Some(p) => Some(Parsed(Str(p.value), p.rest))
    else if s[0] == 'l' then
      match ParseItems(s[1..], depth + 1, [])
      case None => None
      case Some(p) => Some(Parsed(List(p.value), p.rest))
    else if s[0] == 'd' then
      match ParseEntries(s[1..], depth + 1, [])
      case None => None
      case Some(p) => Some(Parsed(Dict(p.value), p.rest))
    else None
  }

  /** The loop over list items, `acc` being the output so far. */
  function ParseItems(s: string, depth: nat, acc: seq<Value>): (r: Option<Parsed<seq<Value>>>)
    ensures r.Some? ==> |r.value.rest| < |s|
    decreases |s|, 1
  {
    if s == "" then None
    else if s[0] == 'e' then Some(Parsed(acc, s[1..]))
    else
      match ParseValue(s, depth)
      case None => None
      case Some(p) => ParseItems(p.rest, depth, acc + [p.value])
  }

  /** The loop over dictionary entries; keys may come in any order, and the last one wins. */
  function ParseEntries(s: string, depth: nat, acc: seq<Entry>): (r: Option<Parsed<seq<Entry>>>)
    ensures r.Some? ==> |r.value.rest| < |s|
    decreases |s|, 1
  {
    if s == "" then None
    else if s[0] == 'e' then Some(Parsed(acc, s[1..]))
    else
      match ParseString(s)
      case None => None
      case Some(k) =>
        match ParseValue(k.rest, depth)
        case None => None
        case Some(p) => ParseEntries(p.rest, depth, Assign(acc, k.value, p.value))
  }

  /** `bencoding_decode`, which ignores what follows the first value. */
  function Decode(s: string): Option<Value> {
    match ParseValue(s, 1)
    case None => None
    case Some(p) => Some(p.value)
  }

  // ------------------------------------------------------------------------------------------
  // The sorted vector of a dictionary

  /** `std::string::operator<`. */
  predicate KeyLess(a: string, b: string) {
    b != "" && (a == "" || a[0] < b[0] || (a[0] == b[0] && KeyLess(a[1..], b[1..])))
  }

  /** `output[key] = value`. */
  function Assign(es: seq<Entry>, key: string, value: Value): seq<Entry> {
    if es == [] || KeyLess(key, es[0].key) then [Entry(key, value)] + es
    else if es[0].key == key then [Entry(key, value)] + es[1..]
    else [es[0]] + Assign(es[1..], key, value)
  }

  ghost predicate SortedKeys(es: seq<Entry>) {
    forall i, j :: 0 <= i < j < |es| ==> KeyLess(es[i].key, es[j].key)
  }

  lemma {:induction false} KeyLessTrans(a: string, b: string, c: string)
    requires KeyLess(a, b) && KeyLess(b, c)
    ensures KeyLess(a, c)
  {
    if a != "" && a[0] == b[0] == c[0] {
      KeyLessTrans(a[1..], b[1..], c[1..]);
    }
  }

  lemma {:induction false} KeyLessTotal(a: string, b: string)
    ensures KeyLess(a, b) || a == b || KeyLess(b, a)
    ensures !(KeyLess(a, b) && KeyLess(b, a)) && (a == b ==> !KeyLess(a, b))
  {
    if a != "" && b != "" && a[0] == b[0] {
      KeyLessTotal(a[1..], b[1..]);
      assert a == [a[0]] + a[1..] && b == [b[0]] + b[1..];
    }
  }

  /** A key beyond all others goes to the end. */
  lemma {:induction false} AssignLast(es: seq<Entry>, key: string, value: Value)
    requires forall i :: 0 <= i < |es| ==> KeyLess(es[i].key, key)
    ensures Assign(es, key, value) == es + [Entry(key, value)]
  {
    if es == [] {
    } else {
      KeyLessTotal(key, es[0].key);
      AssignLast(es[1..], key, value);
    }
  }

  /** The order is that of the first difference, a proper prefix coming first. */
  lemma {:induction false} KeyLessMeaning(a: string, b: string)
    ensures KeyLess(a, b) <==> a < b || exists k :: 0 <= k < |a| && k < |b| && a[..k] == b[..k] && a[k] < b[k]
  {
    if a == "" || b == "" {
    } else if a[0] != b[0] {
      assert a[..0] == b[..0];
      assert forall k :: 0 < k <= |a| && k <= |b| && a[..k] == b[..k] ==> a[..k][0] == b[..k][0];
    } else {
      KeyLessMeaning(a[1..], b[1..]);
      KeyLessTail(a, b);
    }
  }

  lemma KeyLessTail(a: string, b: string)
    requires a != "" && b != "" && a[0] == b[0]
    ensures a < b <==> a[1..] < b[1..]
    ensures (exists k :: 0 <= k < |a| && k < |b| && a[..k] == b[..k] && a[k] < b[k]) <==>
            exists k :: 0 <= k < |a[1..]| && k < |b[1..]| && a[1..][..k] == b[1..][..k] && a[1..][k] < b[1..][k]
  {
    assert a == [a[0]] + a[1..] && b == [b[0]] + b[1..];
    if k :| 0 <= k < |a| && k < |b| && a[..k] == b[..k] && a[k] < b[k] {
      assert a[1..][..k - 1] == a[..k][1..] && b[1..][..k - 1] == b[..k][1..];
    }
    if k :| 0 <= k < |a[1..]| && k < |b[1..]| && a[1..][..k] == b[1..][..k] && a[1..][k] < b[1..][k] {
      assert a[..k + 1] == [a[0]] + a[1..][..k] && b[..k + 1] == [b[0]] + b[1..][..k];
      assert a[k + 1] < b[k + 1];
    }
  }

  /** Assigning to a key keeps the dictionary sorted, gives the key its value, and changes no other. */
  lemma {:induction false} AssignSorted(es: seq<Entry>, key: string, value: Value)
    requires SortedKeys(es)
    ensures SortedKeys(Assign(es, key, value))
    ensures forall e :: e in Assign(es, key, value) <==> e == Entry(key, value) || (e in es && e.key != key)
  {
    KeyLessTotal(key, key);
    if es == [] {
    } else if KeyLess(key, es[0].key) {
      SortedCons(Entry(key, value), es);
      KeyBefore(es, key);
    } else if es[0].key == key {
      assert es == [es[0]] + es[1..];
      KeyBefore(es[1..], key);
    } else {
      assert es == [es[0]] + es[1..];
      KeyLessTotal(key, es[0].key);
      AssignSorted(es[1..], key, value);
      var r := Assign(es[1..], key, value);
      if r != [] {
        assert r[0] in r;
      }
      SortedCons(es[0], r);
    }
  }

  lemma KeyBefore(es: seq<Entry>, key: string)
    requires SortedKeys(es) && (es != [] ==> KeyLess(key, es[0].key))
    ensures forall e :: e in es ==> e.key != key
  {
    KeyLessTotal(key, key);
    forall i | 0 < i < |es| ensures KeyLess(key, es[i].key) {
      KeyLessTrans(key, es[0].key, es[i].key);
    }
  }

  lemma SortedCons(e: Entry, es: seq<Entry>)
    requires SortedKeys(es) && (es != [] ==> KeyLess(e.key, es[0].key))
    ensures SortedKeys([e] + es)
  {
    forall j | 0 < j < |es| ensures KeyLess(e.key, es[j].key) {
      KeyLessTrans(e.key, es[0].key, es[j].key);
    }
  }

  // ------------------------------------------------------------------------------------------
  // Values within the limits of the parser

  /** What the C++ types guarantee of a value: integers of 64 bits, dictionaries sorted by key. */
  ghost predicate WellFormed(v: Value)
    decreases v, 1
  {
    match v
    case Int(i) => IsInt64(i)
    case Str(_) => true
    case List(items) => WellFormedItems(items)
    case Dict(entries) => SortedKeys(entries) && WellFormedEntries(entries)
  }

  ghost predicate WellFormedItems(items: seq<Value>)
    decreases items, 0
  {
    items == [] || (WellFormed(items[0]) && WellFormedItems(items[1..]))
  }

  ghost predicate WellFormedEntries(entries: seq<Entry>)
    decreases entries, 0
  {
    entries == [] || (WellFormed(entries[0].value) && WellFormedEntries(entries[1..]))
  }

  /** The value is small enough for the parser when it stands at the given depth. */
  ghost predicate Fits(v: Value, depth: nat)
    decreases v, 1
  {
    depth <= DEPTH_LIMIT &&
    match v
    case Int(_) => true
    case Str(s) => |s| <= LENGTH_LIMIT
    case List(items) => FitItems(items, depth + 1)
    case Dict(entries) => FitEntries(entries, depth + 1)
  }

  ghost predicate FitItems(items: seq<Value>, depth: nat)
    decreases items, 0
  {
    items == [] || (Fits(items[0], depth) && FitItems(items[1..], depth))
  }

  ghost predicate FitEntries(entries: seq<Entry>, depth: nat)
    decreases entries, 0
  {
    entries == [] ||
    (|entries[0].key| <= LENGTH_LIMIT && Fits(entries[0].value, depth) && FitEntries(entries[1..], depth))
  }
}
