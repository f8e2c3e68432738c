/** The parser undoes the encoder, and the encoder loses nothing. */
module BencodingRoundTrip {
  import opened Options
  import opened Sequences
  import opened Numbers
  import opened Bencoding

  // ------------------------------------------------------------------------------------------
  // Strings

  lemma EncodedString(s: string, t: string)
    ensures EncodeString(s) + t == Decimal(|s|) + (":" + (s + t))
    ensures Ends(":" + (s + t)) && (":" + (s + t))[1..] == s + t
    ensures Decimal(|s|) != "" && IsDigit((EncodeString(s) + t)[0])
  {
    Assoc(Decimal(|s|) + ":", s, t);
    Assoc(Decimal(|s|), ":", s + t);
    DigitsMean(|s|);
  }

  lemma ParseEncodedString(s: string, t: string)
    ensures ParseString(EncodeString(s) + t) == if |s| <= LENGTH_LIMIT then Some(Parsed(s, t)) else None
  {
    EncodedString(s, t);
    ScanDecimal(|s|, ":" + (s + t));
    Parts(s, t);
    hide EncodeString;
    hide Decimal;
    hide ScanInt;
    var u := ":" + (s + t);
    assert u[1..|s| + 1] == s && u[|s| + 1..] == t;
  }

  // ------------------------------------------------------------------------------------------
  // The round trip

  /** How an encoding starts tells what kind of value it is; it is never an end mark. */
  lemma FirstChar(v: Value, t: string)
    ensures Encode(v) != ""
    ensures match v
            case Int(_) => Encode(v)[0] == 'i'
            case Str(_) => IsDigit(Encode(v)[0])
            case List(_) => Encode(v)[0] == 'l'
            case Dict(_) => Encode(v)[0] == 'd'
    ensures (Encode(v) + t)[0] == Encode(v)[0]
  {
    if v.Str? {
      EncodedString(v.s, "");
    }
  }

  /** Parsing an encoding, with anything after it, gives back the value and what came after, if and
      only if the value is within the limits of the parser. */
  lemma {:induction false} RoundTrip(v: Value, depth: nat, t: string)
    requires WellFormed(v)
    ensures ParseValue(Encode(v) + t, depth) == if Fits(v, depth) then Some(Parsed(v, t)) else None
    decreases v, 1
  {
    hide EncodeString;
    hide EncodeItems;
    hide EncodeEntries;
    hide ParseString;
    hide ParseItems;
    hide ParseEntries;
    FirstChar(v, t);
    match v
    case Int(i) => IntRoundTrip(i, depth, t);
    case Str(s) => ParseEncodedString(s, t);
    case List(items) =>
      ItemsRoundTrip(items, depth + 1, [], t);
      Assoc(items, [], []);
      Bracketed("l", EncodeItems(items), t);
    case Dict(entries) =>
      Assoc(entries, [], []);
      AssignAllSorted([], entries);
      EntriesRoundTrip(entries, depth + 1, [], t);
      Bracketed("d", EncodeEntries(entries), t);
  }

  lemma Bracketed(open: string, body: string, t: string)
    requires |open| == 1
    ensures open + body + "e" + t == open + (body + ("e" + t))
    ensures (open + (body + ("e" + t)))[1..] == body + ("e" + t)
  {
  }

  lemma IntRoundTrip(i: int, depth: nat, t: string)
    requires IsInt64(i)
    ensures ParseValue(Encode(Int(i)) + t, depth) == if depth <= DEPTH_LIMIT then Some(Parsed(Int(i), t)) else None
  {
    Bracketed("i", Decimal(i), t);
    ScanDecimal(i, "e" + t);
    hide Decimal;
    hide ScanInt;
    assert ("e" + t)[1..] == t;
  }

  lemma {:induction false} ItemsRoundTrip(items: seq<Value>, depth: nat, acc: seq<Value>, t: string)
    requires WellFormedItems(items)
    ensures ParseItems(EncodeItems(items) + ("e" + t), depth, acc) ==
            if FitItems(items, depth) then Some(Parsed(acc + items, t)) else None
    decreases items, 0
  {
    if items == [] {
      Assoc("e" + t, [], []);
      Assoc(acc, [], []);
      assert ("e" + t)[1..] == t;
    } else {
      var rest := EncodeItems(items[1..]) + ("e" + t);
      Assoc(Encode(items[0]), EncodeItems(items[1..]), "e" + t);
      FirstChar(items[0], rest);
      RoundTrip(items[0], depth, rest);
      ItemsRoundTrip(items[1..], depth, acc + [items[0]], t);
      assert acc + [items[0]] + items[1..] == acc + items;
    }
  }

  /** The entries assigned one after the other. */
  ghost function AssignAll(acc: seq<Entry>, entries: seq<Entry>): seq<Entry>
    decreases |entries|
  {
    if entries == [] then acc else AssignAll(Assign(acc, entries[0].key, entries[0].value), entries[1..])
  }

  /** In whatever order they come, the parser assigns the entries one after the other. */
  lemma {:induction false} EntriesRoundTrip(entries: seq<Entry>, depth: nat, acc: seq<Entry>, t: string)
    requires WellFormedEntries(entries)
    ensures ParseEntries(EncodeEntries(entries) + ("e" + t), depth, acc) ==
            if FitEntries(entries, depth) then Some(Parsed(AssignAll(acc, entries), t)) else None
    decreases entries, 0
  {
    if entries == [] {
      Assoc("e" + t, [], []);
      Assoc(acc, [], []);
      assert ("e" + t)[1..] == t;
    } else {
      var e := entries[0];
      var rest := EncodeEntries(entries[1..]) + ("e" + t);
      EntryThenRest(entries, t);
      ParseEncodedString(e.key, Encode(e.value) + rest);
      EncodedString(e.key, Encode(e.value) + rest);
      RoundTrip(e.value, depth, rest);
      EntriesRoundTrip(entries[1..], depth, Assign(acc, e.key, e.value), t);
    }
  }

  lemma EntryThenRest(entries: seq<Entry>, t: string)
    requires entries != []
    ensures EncodeEntries(entries) + ("e" + t) ==
            EncodeString(entries[0].key) + (Encode(entries[0].value) + (EncodeEntries(entries[1..]) + ("e" + t)))
  {
  }

  lemma AssignNext(acc: seq<Entry>, entries: seq<Entry>)
    requires entries != [] && SortedKeys(acc + entries)
    ensures Assign(acc, entries[0].key, entries[0].value) == acc + [entries[0]]
    ensures acc + [entries[0]] + entries[1..] == acc + entries
  {
    forall i | 0 <= i < |acc| ensures KeyLess(acc[i].key, entries[0].key) {
      assert (acc + entries)[i] == acc[i] && (acc + entries)[|acc|] == entries[0];
    }
    AssignLast(acc, entries[0].key, entries[0].value);
  }

  lemma {:induction false} AssignAllSorted(acc: seq<Entry>, entries: seq<Entry>)
    requires SortedKeys(acc + entries)
    ensures AssignAll(acc, entries) == acc + entries
    decreases |entries|
  {
    if entries == [] {
      Assoc(acc, [], []);
    } else {
      AssignNext(acc, entries);
      AssignAllSorted(acc + [entries[0]], entries[1..]);
    }
  }

  // ------------------------------------------------------------------------------------------
  // Dictionaries in any order

  /** The entry is the last one with its key. */
  ghost predicate LastOfKey(entries: seq<Entry>, e: Entry) {
    exists i :: 0 <= i < |entries| && entries[i] == e && NoKey(entries[i + 1..], e.key)
  }

  ghost predicate NoKey(entries: seq<Entry>, key: string) {
    forall e :: e in entries ==> e.key != key
  }

  lemma LastOfTail(entries: seq<Entry>, e: Entry)
    requires entries != []
    ensures LastOfKey(entries, e) <==>
            LastOfKey(entries[1..], e) || (entries[0] == e && NoKey(entries[1..], e.key))
  {
    if i :| 0 <= i < |entries| && entries[i] == e && NoKey(entries[i + 1..], e.key) {
      if i > 0 {
        assert entries[1..][i - 1] == e && entries[1..][i..] == entries[i + 1..];
      }
    }
    if i :| 0 <= i < |entries[1..]| && entries[1..][i] == e && NoKey(entries[1..][i + 1..], e.key) {
      assert entries[i + 1] == e && entries[1..][i + 1..] == entries[i + 2..];
    }
  }

  /** What is left of entries with repetition: of every key the last one, and of older entries those
      whose key does not come again. */
  lemma {:induction false} AssignAllMeaning(acc: seq<Entry>, entries: seq<Entry>)
    requires SortedKeys(acc)
    ensures SortedKeys(AssignAll(acc, entries))
    ensures forall e :: e in AssignAll(acc, entries) <==>
              LastOfKey(entries, e) || (e in acc && NoKey(entries, e.key))
    decreases |entries|
  {
    if entries == [] {
    } else {
      var x, rest := entries[0], entries[1..];
      AssignSorted(acc, x.key, x.value);
      AssignAllMeaning(Assign(acc, x.key, x.value), rest);
      hide Assign;
      hide SortedKeys;
      forall e ensures e in AssignAll(acc, entries) <==> LastOfKey(entries, e) || (e in acc && NoKey(entries, e.key)) {
        LastOfTail(entries, e);
        NoKeyTail(entries, e.key);
      }
    }
  }

  lemma NoKeyTail(entries: seq<Entry>, key: string)
    requires entries != []
    ensures NoKey(entries, key) <==> entries[0].key != key && NoKey(entries[1..], key)
  {
    assert entries == [entries[0]] + entries[1..];
  }

  /** A dictionary written in any order and with repeated keys is read as a sorted one that holds, of
      every key, the last entry. */
  lemma AnyOrder(entries: seq<Entry>, depth: nat, t: string) returns (r: seq<Entry>)
    requires WellFormedEntries(entries)
    ensures ParseValue(Encode(Dict(entries)) + t, depth) ==
            if Fits(Dict(entries), depth) then Some(Parsed(Dict(r), t)) else None
    ensures SortedKeys(r) && forall e :: e in r <==> LastOfKey(entries, e)
  {
    hide Assign;
    hide ParseEntries;
    hide EncodeEntries;
    hide LastOfKey;
    r := AssignAll([], entries);
    AssignAllMeaning([], entries);
    EntriesRoundTrip(entries, depth + 1, [], t);
    Bracketed("d", EncodeEntries(entries), t);
  }

  // ------------------------------------------------------------------------------------------
  // Whatever the parser accepts

  /** The parser only makes values that are well formed and within its own limits. */
  lemma {:induction false} ParsedIsSound(s: string, depth: nat)
    ensures var r := ParseValue(s, depth); r.Some? ==> WellFormed(r.value.value) && Fits(r.value.value, depth)
    decreases |s|, 0
  {
    hide ParseItems;
    hide ParseEntries;
    if s != "" && depth <= DEPTH_LIMIT {
      if s[0] == 'l' {
        ParsedItemsAreSound(s[1..], depth + 1, []);
      } else if s[0] == 'd' {
        ParsedEntriesAreSound(s[1..], depth + 1, []);
      }
    }
  }

  lemma {:induction false} ParsedItemsAreSound(s: string, depth: nat, acc: seq<Value>)
    requires WellFormedItems(acc) && FitItems(acc, depth)
    ensures var r := ParseItems(s, depth, acc);
            r.Some? ==> WellFormedItems(r.value.value) && FitItems(r.value.value, depth)
    decreases |s|, 1
  {
    if s != "" && s[0] != 'e' {
      ParsedIsSound(s, depth);
      var p := ParseValue(s, depth);
      if p.Some? {
        ItemsSnoc(acc, p.value.value, depth);
        ParsedItemsAreSound(p.value.rest, depth, acc + [p.value.value]);
      }
    }
  }

  lemma {:induction false} ItemsSnoc(acc: seq<Value>, v: Value, depth: nat)
    requires WellFormedItems(acc) && FitItems(acc, depth) && WellFormed(v) && Fits(v, depth)
    ensures WellFormedItems(acc + [v]) && FitItems(acc + [v], depth)
  {
    if acc == [] {
      assert acc + [v] == [v];
    } else {
      ItemsSnoc(acc[1..], v, depth);
      assert (acc + [v])[1..] == acc[1..] + [v];
    }
  }

  lemma {:induction false} ParsedEntriesAreSound(s: string, depth: nat, acc: seq<Entry>)
    requires SortedKeys(acc) && WellFormedEntries(acc) && FitEntries(acc, depth)
    ensures var r := ParseEntries(s, depth, acc);
            r.Some? ==>
              SortedKeys(r.value.value) && WellFormedEntries(r.value.value) && FitEntries(r.value.value, depth)
    decreases |s|, 1
  {
    if s != "" && s[0] != 'e' {
      var k := ParseString(s);
      if k.Some? {
        ParsedIsSound(k.value.rest, depth);
        var p := ParseValue(k.value.rest, depth);
        if p.Some? {
          AssignSorted(acc, k.value.value, p.value.value);
          AssignSound(acc, k.value.value, p.value.value, depth);
          ParsedEntriesAreSound(p.value.rest, depth, Assign(acc, k.value.value, p.value.value));
        }
      }
    }
  }

  lemma {:induction false} AssignSound(acc: seq<Entry>, key: string, v: Value, depth: nat)
    requires WellFormedEntries(acc) && FitEntries(acc, depth)
    requires |key| <= LENGTH_LIMIT && WellFormed(v) && Fits(v, depth)
    ensures WellFormedEntries(Assign(acc, key, v)) && FitEntries(Assign(acc, key, v), depth)
  {
    if acc == [] || KeyLess(key, acc[0].key) {
      assert ([Entry(key, v)] + acc)[1..] == acc;
    } else if acc[0].key == key {
      assert ([Entry(key, v)] + acc[1..])[1..] == acc[1..];
    } else {
      AssignSound(acc[1..], key, v, depth);
      assert ([acc[0]] + Assign(acc[1..], key, v))[1..] == Assign(acc[1..], key, v);
    }
  }

  /** Although unsorted and repeated keys are accepted: what was decoded encodes to bytes that decode
      to the same value. */
  lemma DecodeEncodeDecode(s: string)
    ensures Decode(s).Some? ==> Decode(Encode(Decode(s).value)) == Decode(s)
  {
    ParsedIsSound(s, 1);
    if Decode(s).Some? {
      RoundTrip(Decode(s).value, 1, "");
      Assoc(Encode(Decode(s).value), [], []);
    }
  }

  // ------------------------------------------------------------------------------------------
  // The encoding is prefix-free, without any limits

  lemma {:induction false} PrefixFree(a: Value, b: Value, x: string, y: string)
    requires Encode(a) + x == Encode(b) + y
    ensures a == b && x == y
    decreases a, 1
  {
    FirstChar(a, x);
    FirstChar(b, y);
    match a
    case Int(i) =>
      Bracketed("i", Decimal(i), x);
      Bracketed("i", Decimal(b.i), y);
      DecimalPrefixFree(i, b.i, "e" + x, "e" + y);
      Cancel("e", x, y);
    case Str(s) =>
      StringPrefixFree(s, b.s, x, y);
    case List(items) =>
      Bracketed("l", EncodeItems(items), x);
      Bracketed("l", EncodeItems(b.items), y);
      ItemsPrefixFree(items, b.items, x, y);
    case Dict(entries) =>
      Bracketed("d", EncodeEntries(entries), x);
      Bracketed("d", EncodeEntries(b.entries), y);
      EntriesPrefixFree(entries, b.entries, x, y);
  }

  lemma StringPrefixFree(s: string, r: string, x: string, y: string)
    requires EncodeString(s) + x == EncodeString(r) + y
    ensures s == r && x == y
  {
    EncodedString(s, x);
    EncodedString(r, y);
    DecimalPrefixFree(|s|, |r|, ":" + (s + x), ":" + (r + y));
    Cancel(":", s + x, r + y);
    Parts(s, x);
    Parts(r, y);
  }

  lemma {:induction false} ItemsPrefixFree(a: seq<Value>, b: seq<Value>, x: string, y: string)
    requires EncodeItems(a) + ("e" + x) == EncodeItems(b) + ("e" + y)
    ensures a == b && x == y
    decreases a, 0
  {
    ItemsStart(a, x);
    ItemsStart(b, y);
    if a == [] {
      Cancel("e", x, y);
    } else {
      var p, q := EncodeItems(a[1..]) + ("e" + x), EncodeItems(b[1..]) + ("e" + y);
      PrefixFree(a[0], b[0], p, q);
      ItemsPrefixFree(a[1..], b[1..], x, y);
      assert a == [a[0]] + a[1..] && b == [b[0]] + b[1..];
    }
  }

  /** A list of items starts with an end mark exactly when it is empty. */
  lemma ItemsStart(a: seq<Value>, x: string)
    ensures EncodeItems(a) + ("e" + x) != "" && ((EncodeItems(a) + ("e" + x))[0] == 'e' <==> a == [])
    ensures a == [] ==> EncodeItems(a) + ("e" + x) == "e" + x
    ensures a != [] ==> EncodeItems(a) + ("e" + x) == Encode(a[0]) + (EncodeItems(a[1..]) + ("e" + x))
  {
    if a != [] {
      Assoc(Encode(a[0]), EncodeItems(a[1..]), "e" + x);
      FirstChar(a[0], EncodeItems(a[1..]) + ("e" + x));
    }
  }

  lemma {:induction false} EntriesPrefixFree(a: seq<Entry>, b: seq<Entry>, x: string, y: string)
    requires EncodeEntries(a) + ("e" + x) == EncodeEntries(b) + ("e" + y)
    ensures a == b && x == y
    decreases a, 0
  {
    EntriesStart(a, x);
    EntriesStart(b, y);
    if a == [] {
      Cancel("e", x, y);
    } else {
      var p, q := EncodeEntries(a[1..]) + ("e" + x), EncodeEntries(b[1..]) + ("e" + y);
      StringPrefixFree(a[0].key, b[0].key, Encode(a[0].value) + p, Encode(b[0].value) + q);
      PrefixFree(a[0].value, b[0].value, p, q);
      EntriesPrefixFree(a[1..], b[1..], x, y);
      assert a == [a[0]] + a[1..] && b == [b[0]] + b[1..];
    }
  }

  lemma EntriesStart(a: seq<Entry>, x: string)
    ensures EncodeEntries(a) + ("e" + x) != "" && ((EncodeEntries(a) + ("e" + x))[0] == 'e' <==> a == [])
    ensures a == [] ==> EncodeEntries(a) + ("e" + x) == "e" + x
    ensures a != [] ==> EncodeEntries(a) + ("e" + x) ==
                        EncodeString(a[0].key) + (Encode(a[0].value) + (EncodeEntries(a[1..]) + ("e" + x)))
  {
    if a != [] {
      EntryThenRest(a, x);
      EncodedString(a[0].key, Encode(a[0].value) + (EncodeEntries(a[1..]) + ("e" + x)));
    }
  }

  /** Different values have different encodings. */
  lemma EncodeInjective(a: Value, b: Value)
    requires Encode(a) == Encode(b)
    ensures a == b
  {
    PrefixFree(a, b, "", "");
  }
}
