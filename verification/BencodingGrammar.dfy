/** The language of the parser: exactly which bytes it reads, and as what.

    It reads more than the encoder writes: numbers with a plus sign or leading zeros, and dictionaries
    in any order and with repeated keys.  A `Text` is one way to write a value down. */
module BencodingGrammar {
  import opened Options
  import opened Sequences
  import opened Numbers
  import opened Bencoding
  import opened BencodingRoundTrip

  datatype Text =
    | IntText(numeral: string)
    | StrText(size: string, s: string)
    | ListText(items: seq<Text>)
    | DictText(entries: seq<EntryText>)

  datatype EntryText = EntryText(size: string, key: string, value: Text)

  // ------------------------------------------------------------------------------------------
  // Numerals

  ghost predicate Signed(x: string) {
    x != "" && (x[0] == '-' || x[0] == '+')
  }

  /** The digits of a numeral, after its sign if it has one. */
  ghost function Body(x: string): string {
    if Signed(x) then x[1..] else x
  }

  ghost predicate Numeral(x: string) {
    Body(x) != "" && AllDigits(Body(x))
  }

  ghost function ValueOf(x: string): int
    requires Numeral(x)
  {
    var v: int := Val(Body(x));
    if x[0] == '-' then -v else v
  }

  /** Scanning takes the longest numeral at the front, if there is one. */
  lemma ScanTakes(s: string)
    ensures ScanInt(s).Some? ==>
              var (n, t) := ScanInt(s).value;
              |t| <= |s| && var x := s[..|s| - |t|]; s == x + t && Numeral(x) && ValueOf(x) == n && Ends(t)
  {
    hide Val;
    var d := Body(s);
    var k := DigitCount(d);
    hide DigitCount;
    if k > 0 {
      var t := d[k..];
      var x := s[..|s| - |t|];
      assert d == d[..k] + t;
      assert Signed(s) ==> s == [s[0]] + d && x == [s[0]] + d[..k];
      assert !Signed(s) ==> x == d[..k];
      assert Body(x) == d[..k];
    }
  }

  lemma ScanNumeral(x: string, t: string)
    requires Numeral(x) && Ends(t)
    ensures ScanInt(x + t) == Some((ValueOf(x), t))
  {
    var d := Body(x);
    CountDigits(d, t);
    hide DigitCount;
    hide Val;
    assert Body(x + t) == d + t;
    Parts(d, t);
  }

  // ------------------------------------------------------------------------------------------
  // Texts and what they mean

  ghost function PrintString(size: string, s: string): string {
    size + (":" + s)
  }

  ghost function Print(x: Text): string
    decreases x, 1
  {
    match x
    case IntText(numeral) => "i" + numeral + "e"
    case StrText(size, s) => PrintString(size, s)
    case ListText(items) => "l" + PrintItems(items) + "e"
    case DictText(entries) => "d" + PrintEntries(entries) + "e"
  }

  ghost function PrintItems(xs: seq<Text>): string
    decreases xs, 0
  {
    if xs == [] then "" else Print(xs[0]) + PrintItems(xs[1..])
  }

  ghost function PrintEntries(xs: seq<EntryText>): string
    decreases xs, 0
  {
    if xs == [] then "" else PrintString(xs[0].size, xs[0].key) + (Print(xs[0].value) + PrintEntries(xs[1..]))
  }

  ghost predicate ProperSize(size: string, s: string) {
    Numeral(size) && ValueOf(size) == |s|
  }

  /** Numbers are numerals of 64 bits and sizes are right.  The size of a string starts with a digit,
      since nothing else tells that it is one; the size of a key may have a sign. */
  ghost predicate Proper(x: Text)
    decreases x, 1
  {
    match x
    case IntText(numeral) => Numeral(numeral) && IsInt64(ValueOf(numeral))
    case StrText(size, s) => ProperSize(size, s) && IsDigit(size[0])
    case ListText(items) => ProperItems(items)
    case DictText(entries) => ProperEntries(entries)
  }

  ghost predicate ProperItems(xs: seq<Text>)
    decreases xs, 0
  {
    xs == [] || (Proper(xs[0]) && ProperItems(xs[1..]))
  }

  ghost predicate ProperEntries(xs: seq<EntryText>)
    decreases xs, 0
  {
    xs == [] || (ProperSize(xs[0].size, xs[0].key) && Proper(xs[0].value) && ProperEntries(xs[1..]))
  }

  /** The text is within the limits of the parser, standing at the given depth. */
  ghost predicate Allowed(x: Text, depth: nat)
    decreases x, 1
  {
    depth <= DEPTH_LIMIT &&
    match x
    case IntText(_) => true
    case StrText(_, s) => |s| <= LENGTH_LIMIT
    case ListText(items) => AllowedItems(items, depth + 1)
    case DictText(entries) => AllowedEntries(entries, depth + 1)
  }

  ghost predicate AllowedItems(xs: seq<Text>, depth: nat)
    decreases xs, 0
  {
    xs == [] || (Allowed(xs[0], depth) && AllowedItems(xs[1..], depth))
  }

  ghost predicate AllowedEntries(xs: seq<EntryText>, depth: nat)
    decreases xs, 0
  {
    xs == [] ||
    (|xs[0].key| <= LENGTH_LIMIT && Allowed(xs[0].value, depth) && AllowedEntries(xs[1..], depth))
  }

  /** The entries of a dictionary count in order: a later one replaces an earlier one with its key. */
  ghost function Meaning(x: Text): Value
    requires Proper(x)
    decreases x, 1
  {
    match x
    case IntText(numeral) => Int(ValueOf(numeral))
    case StrText(_, s) => Str(s)
    case ListText(items) => List(ItemMeanings(items))
    case DictText(entries) => Dict(AssignAll([], EntryMeanings(entries)))
  }

  ghost function ItemMeanings(xs: seq<Text>): seq<Value>
    requires ProperItems(xs)
    decreases xs, 0
  {
    if xs == [] then [] else [Meaning(xs[0])] + ItemMeanings(xs[1..])
  }

  ghost function EntryMeanings(xs: seq<EntryText>): seq<Entry>
    requires ProperEntries(xs)
    decreases xs, 0
  {
    if xs == [] then [] else [Entry(xs[0].key, Meaning(xs[0].value))] + EntryMeanings(xs[1..])
  }

  // ------------------------------------------------------------------------------------------
  // Every proper text is read as what it means

  lemma StringRead(size: string, s: string, t: string)
    requires ProperSize(size, s)
    ensures ParseString(PrintString(size, s) + t) == if |s| <= LENGTH_LIMIT then Some(Parsed(s, t)) else None
    ensures (PrintString(size, s) + t)[0] == size[0] && size[0] != 'e'
  {
    var u := ":" + (s + t);
    Assoc(":", s, t);
    Assoc(size, ":" + s, t);
    ScanNumeral(size, u);
    assert size[0] != 'e' by {
      assert Body(size)[0] == if Signed(size) then size[1] else size[0];
    }
    hide ScanInt;
    hide Numeral;
    hide ValueOf;
    assert u[1..|s| + 1] == s && u[|s| + 1..] == t;
  }

  lemma StartOf(x: Text, t: string)
    requires Proper(x)
    ensures Print(x) != "" && (Print(x) + t)[0] == Print(x)[0]
    ensures match x
            case IntText(_) => Print(x)[0] == 'i'
            case StrText(_, _) => IsDigit(Print(x)[0])
            case ListText(_) => Print(x)[0] == 'l'
            case DictText(_) => Print(x)[0] == 'd'
  {
  }

  lemma IntRead(numeral: string, depth: nat, t: string)
    requires Proper(IntText(numeral))
    ensures ParseValue(Print(IntText(numeral)) + t, depth) ==
            if depth <= DEPTH_LIMIT then Some(Parsed(Int(ValueOf(numeral)), t)) else None
  {
    Bracketed("i", numeral, t);
    ScanNumeral(numeral, "e" + t);
    hide ScanInt;
    hide Numeral;
    hide ValueOf;
    assert ("e" + t)[1..] == t;
  }

  lemma {:induction false} TextRead(x: Text, depth: nat, t: string)
    requires Proper(x)
    ensures ParseValue(Print(x) + t, depth) == if Allowed(x, depth) then Some(Parsed(Meaning(x), t)) else None
    decreases x, 1
  {
    hide PrintString;
    hide PrintItems;
    hide PrintEntries;
    hide ParseString;
    hide ParseItems;
    hide ParseEntries;
    StartOf(x, t);
    match x
    case IntText(numeral) => IntRead(numeral, depth, t);
    case StrText(size, s) => StringRead(size, s, t);
    case ListText(items) =>
      ItemsRead(items, depth + 1, [], t);
      Assoc(ItemMeanings(items), [], []);
      Bracketed("l", PrintItems(items), t);
    case DictText(entries) =>
      EntriesRead(entries, depth + 1, [], t);
      Bracketed("d", PrintEntries(entries), t);
  }

  lemma {:induction false} ItemsRead(xs: seq<Text>, depth: nat, acc: seq<Value>, t: string)
    requires ProperItems(xs)
    ensures ParseItems(PrintItems(xs) + ("e" + t), depth, acc) ==
            if AllowedItems(xs, depth) then Some(Parsed(acc + ItemMeanings(xs), t)) else None
    decreases xs, 0
  {
    if xs == [] {
      Assoc("e" + t, [], []);
      Assoc(acc, [], []);
      assert ("e" + t)[1..] == t;
    } else {
      var rest := PrintItems(xs[1..]) + ("e" + t);
      Assoc(Print(xs[0]), PrintItems(xs[1..]), "e" + t);
      StartOf(xs[0], rest);
      TextRead(xs[0], depth, rest);
      ItemsRead(xs[1..], depth, acc + [Meaning(xs[0])], t);
      Assoc(acc, [Meaning(xs[0])], ItemMeanings(xs[1..]));
      hide Print;
      hide Meaning;
    }
  }

  lemma {:induction false} EntriesRead(xs: seq<EntryText>, depth: nat, acc: seq<Entry>, t: string)
    requires ProperEntries(xs)
    ensures ParseEntries(PrintEntries(xs) + ("e" + t), depth, acc) ==
            if AllowedEntries(xs, depth) then Some(Parsed(AssignAll(acc, EntryMeanings(xs)), t)) else None
    decreases xs, 0
  {
    if xs == [] {
      Assoc("e" + t, [], []);
      assert ("e" + t)[1..] == t;
    } else {
      var e := xs[0];
      var key, value, rest := PrintString(e.size, e.key), Print(e.value), PrintEntries(xs[1..]);
      Assoc(key, value + rest, "e" + t);
      Assoc(value, rest, "e" + t);
      StringRead(e.size, e.key, value + (rest + ("e" + t)));
      TextRead(e.value, depth, rest + ("e" + t));
      EntriesRead(xs[1..], depth, Assign(acc, e.key, Meaning(e.value)), t);
      assert EntryMeanings(xs)[1..] == EntryMeanings(xs[1..]);
      hide Print;
      hide PrintString;
      hide ParseString;
      hide ParseValue;
      hide Meaning;
    }
  }

  // ------------------------------------------------------------------------------------------
  // Nothing else is read

  /** The text is what the parser took from the front of `s`, and it was read as what it means. */
  ghost predicate Took(x: Text, depth: nat, s: string, p: Parsed<Value>) {
    Proper(x) && Allowed(x, depth) && s == Print(x) + p.rest && p.value == Meaning(x)
  }

  lemma StringTaken(s: string) returns (size: string)
    requires ParseString(s).Some?
    ensures var p := ParseString(s).value;
            && ProperSize(size, p.value) && |p.value| <= LENGTH_LIMIT
            && s == PrintString(size, p.value) + p.rest && s[0] == size[0]
  {
    var (n, t) := ScanInt(s).value;
    ScanTakes(s);
    size := s[..|s| - |t|];
    assert size != "";
    hide ScanInt;
    hide Numeral;
    hide ValueOf;
    hide Ends;
    var p := ParseString(s).value;
    assert |p.value| == n;
    AfterColon(t, n);
    Assoc(":", p.value, p.rest);
    Assoc(size, ":" + p.value, p.rest);
  }

  lemma AfterColon(t: string, n: nat)
    requires t != "" && t[0] == ':' && n < |t|
    ensures t == ":" + (t[1..n + 1] + t[n + 1..])
  {
  }

  lemma IntParts(s: string, depth: nat)
    requires s != "" && s[0] == 'i' && ParseValue(s, depth).Some?
    ensures depth <= DEPTH_LIMIT && ScanInt(s[1..]).Some?
    ensures var (n, t) := ScanInt(s[1..]).value;
            && IsInt64(n) && t != "" && t[0] == 'e' && ParseValue(s, depth).value == Parsed(Int(n), t[1..])
  {
    hide ScanInt;
    hide ParseString;
    hide ParseItems;
    hide ParseEntries;
  }

  lemma IntTaken(s: string, depth: nat) returns (x: Text)
    requires s != "" && s[0] == 'i' && ParseValue(s, depth).Some?
    ensures Took(x, depth, s, ParseValue(s, depth).value)
  {
    hide ScanInt;
    hide ParseValue;
    hide Numeral;
    hide ValueOf;
    hide Ends;
    IntParts(s, depth);
    var (n, t) := ScanInt(s[1..]).value;
    ScanTakes(s[1..]);
    var numeral := s[1..][..|s[1..]| - |t|];
    x := IntText(numeral);
    assert s == "i" + s[1..] && t == "e" + t[1..];
    Bracketed("i", numeral, t[1..]);
  }

  lemma {:induction false} TextTaken(s: string, depth: nat) returns (x: Text)
    requires ParseValue(s, depth).Some?
    ensures Took(x, depth, s, ParseValue(s, depth).value)
    decreases |s|, 0
  {
    hide PrintString;
    hide PrintItems;
    hide PrintEntries;
    hide ParseString;
    hide ParseItems;
    hide ParseEntries;
    var p := ParseValue(s, depth).value;
    assert s == [s[0]] + s[1..];
    if s[0] == 'i' {
      x := IntTaken(s, depth);
    } else if IsDigit(s[0]) {
      var size := StringTaken(s);
      x := StrText(size, p.value.s);
    } else if s[0] == 'l' {
      var items := ItemsTaken(s[1..], depth + 1, []);
      x := ListText(items);
      Assoc(ItemMeanings(items), [], []);
      Bracketed("l", PrintItems(items), p.rest);
    } else {
      var entries := EntriesTaken(s[1..], depth + 1, []);
      x := DictText(entries);
      Bracketed("d", PrintEntries(entries), p.rest);
    }
  }

  lemma {:induction false} ItemsTaken(s: string, depth: nat, acc: seq<Value>) returns (xs: seq<Text>)
    requires ParseItems(s, depth, acc).Some?
    ensures ProperItems(xs) && AllowedItems(xs, depth)
    ensures var p := ParseItems(s, depth, acc).value;
            s == PrintItems(xs) + ("e" + p.rest) && p.value == acc + ItemMeanings(xs)
    decreases |s|, 1
  {
    if s[0] == 'e' {
      xs := [];
      Assoc(s, [], []);
      Assoc(acc, [], []);
    } else {
      var p := ParseValue(s, depth).value;
      var x := TextTaken(s, depth);
      var rest := ItemsTaken(p.rest, depth, acc + [p.value]);
      xs := [x] + rest;
      assert xs[1..] == rest;
      Assoc(Print(x), PrintItems(rest), "e" + ParseItems(s, depth, acc).value.rest);
      Assoc(acc, [Meaning(x)], ItemMeanings(rest));
      hide Print;
      hide Meaning;
      hide ParseValue;
    }
  }

  lemma {:induction false} EntriesTaken(s: string, depth: nat, acc: seq<Entry>) returns (xs: seq<EntryText>)
    requires ParseEntries(s, depth, acc).Some?
    ensures ProperEntries(xs) && AllowedEntries(xs, depth)
    ensures var p := ParseEntries(s, depth, acc).value;
            s == PrintEntries(xs) + ("e" + p.rest) && p.value == AssignAll(acc, EntryMeanings(xs))
    decreases |s|, 1
  {
    if s[0] == 'e' {
      xs := [];
      Assoc(s, [], []);
    } else {
      var k := ParseString(s).value;
      var p := ParseValue(k.rest, depth).value;
      var size := StringTaken(s);
      var x := TextTaken(k.rest, depth);
      var rest := EntriesTaken(p.rest, depth, Assign(acc, k.value, p.value));
      xs := [EntryText(size, k.value, x)] + rest;
      assert xs[1..] == rest;
      EntriesPut(acc, xs);
      var t := "e" + ParseEntries(s, depth, acc).value.rest;
      Assoc(Print(x), PrintEntries(rest), t);
      Assoc(PrintString(size, k.value), Print(x) + PrintEntries(rest), t);
      hide Print;
      hide PrintString;
      hide Meaning;
      hide ParseString;
      hide ParseValue;
      hide AssignAll;
    }
  }

  lemma EntriesPut(acc: seq<Entry>, xs: seq<EntryText>)
    requires ProperEntries(xs) && xs != []
    ensures AssignAll(acc, EntryMeanings(xs)) ==
            AssignAll(Assign(acc, xs[0].key, Meaning(xs[0].value)), EntryMeanings(xs[1..]))
  {
    assert EntryMeanings(xs)[1..] == EntryMeanings(xs[1..]);
  }

  /** The parser takes a value from the front of the input if and only if a text of that value, within
      the limits, stands there. */
  lemma ReadsExactly(s: string, depth: nat, p: Parsed<Value>)
    ensures ParseValue(s, depth) == Some(p) <==> exists x :: Took(x, depth, s, p)
  {
    if ParseValue(s, depth) == Some(p) {
      var x := TextTaken(s, depth);
    }
    if x :| Took(x, depth, s, p) {
      TextRead(x, depth, p.rest);
    }
  }
}
