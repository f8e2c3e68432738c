/** Signed mutable items (src/bittorrent/mutable_data.{h,cpp}; BEP 44). */
module MutableData {
  import opened NodeIds
  import opened Options
  import opened Sequences
  import opened Numbers
  import opened Bencoding
  import opened BencodingRoundTrip

  /** SHA-1 and Ed25519 are arbitrary functions: nothing below depends on what they compute. */
  datatype Crypto = Crypto(sha1: string -> Id, verifies: (string, string, string) -> bool)

  const MAX_VALUE: nat := 1000

  datatype Item = Item(publicKey: string, salt: string, value: Value, seqNo: int, signature: string)

  function SaltPart(salt: string): string {
    if salt == "" then "" else "4:salt" + EncodeString(salt)
  }

  function VersionPart(seqNo: int, value: Value): string {
    "3:seqi" + (Decimal(seqNo) + ("e1:v" + Encode(value)))
  }

  /** `mutable_data_signature_buffer`; it throws when the value is too long. */
  function SignatureBuffer(value: Value, salt: string, seqNo: int): Option<string> {
    if |Encode(value)| > MAX_VALUE then None else Some(SaltPart(salt) + VersionPart(seqNo, value))
  }

  /** `MutableDataItem::verify`; `None` if it throws. */
  function Verify(crypto: Crypto, item: Item): Option<bool> {
    match SignatureBuffer(item.value, item.salt, item.seqNo)
    case None => None
    case Some(buffer) => Some(crypto.verifies(item.publicKey, buffer, item.signature))
  }

  // ------------------------------------------------------------------------------------------
  // What is signed

  /** The dictionary of BEP 44: the salt if there is one, the sequence number and the value. */
  ghost function Signed(item: Item): Value {
    Dict((if item.salt == "" then [] else [Entry("salt", Str(item.salt))]) +
         [Entry("seq", Int(item.seqNo)), Entry("v", item.value)])
  }

  /** The signature covers the encoding of that dictionary without its first and last byte. */
  ghost predicate HasValidSignature(crypto: Crypto, item: Item) {
    var d := Encode(Signed(item));
    |d| > 1 && crypto.verifies(item.publicKey, d[1..|d| - 1], item.signature)
  }

  lemma SmallNumbers()
    ensures Decimal(1) == "1" && Decimal(3) == "3" && Decimal(4) == "4"
  {
  }

  lemma EntryText(key: string, v: Value)
    ensures EncodeEntries([Entry(key, v)]) == EncodeString(key) + Encode(v)
  {
    assert EncodeEntries([]) == "";
  }

  lemma {:induction false} EntriesConcat(a: seq<Entry>, b: seq<Entry>)
    ensures EncodeEntries(a + b) == EncodeEntries(a) + EncodeEntries(b)
  {
    hide EncodeString;
    hide Encode;
    if a == [] {
      assert a + b == b;
    } else {
      EntriesConcat(a[1..], b);
      assert (a + b)[1..] == a[1..] + b;
      Assoc(EncodeString(a[0].key) + Encode(a[0].value), EncodeEntries(a[1..]), EncodeEntries(b));
    }
  }

  lemma Regrouped(d: string, e: string)
    ensures "3:seqi" + (d + ("e1:v" + e)) == "3:seq" + ("i" + d + "e") + ("1:v" + e)
  {
  }

  /** The buffer is the encoded entries one after the other. */
  lemma BufferText(item: Item)
    ensures SaltPart(item.salt) + VersionPart(item.seqNo, item.value) == EncodeEntries(Signed(item).entries)
  {
    var salt := if item.salt == "" then [] else [Entry("salt", Str(item.salt))];
    var seqNo, v := [Entry("seq", Int(item.seqNo))], [Entry("v", item.value)];
    assert EncodeString("salt") == "4:salt" && EncodeString("seq") == "3:seq" && EncodeString("v") == "1:v" by {
      SmallNumbers();
    }
    hide EncodeString;
    hide Decimal;
    assert Encode(Int(item.seqNo)) == "i" + Decimal(item.seqNo) + "e";
    assert Encode(Str(item.salt)) == EncodeString(item.salt);
    assert Signed(item).entries == salt + (seqNo + v);
    assert EncodeEntries([]) == "";
    hide EncodeEntries;
    hide Encode;
    EntriesConcat(salt, seqNo + v);
    EntriesConcat(seqNo, v);
    EntryText("salt", Str(item.salt));
    EntryText("seq", Int(item.seqNo));
    EntryText("v", item.value);
    Regrouped(Decimal(item.seqNo), Encode(item.value));
  }

  /** `verify` throws exactly for values that are too long, and otherwise checks that signature. */
  lemma VerifyMeaning(crypto: Crypto, item: Item)
    ensures Verify(crypto, item) ==
            if |Encode(item.value)| > MAX_VALUE then None else Some(HasValidSignature(crypto, item))
  {
    BufferText(item);
    var text := EncodeEntries(Signed(item).entries);
    assert Encode(Signed(item)) == "d" + text + "e";
    assert ("d" + text + "e")[1..|text| + 1] == text;
    hide SaltPart;
    hide VersionPart;
    hide EncodeEntries;
  }

  // ------------------------------------------------------------------------------------------
  // One signature binds one version of one item

  lemma VersionInjective(m: int, n: int, a: Value, b: Value)
    requires VersionPart(m, a) == VersionPart(n, b)
    ensures m == n && a == b
  {
    hide Encode;
    hide Decimal;
    var x, y := "e1:v" + Encode(a), "e1:v" + Encode(b);
    assert x[0] == 'e' && y[0] == 'e';
    Cancel("3:seqi", Decimal(m) + x, Decimal(n) + y);
    DecimalPrefixFree(m, n, x, y);
    Cancel("e1:v", Encode(a), Encode(b));
    EncodeInjective(a, b);
  }

  lemma SaltInjective(s: string, r: string, x: string, y: string)
    requires x != "" && y != "" && x[0] == '3' && y[0] == '3'
    requires SaltPart(s) + x == SaltPart(r) + y
    ensures s == r && x == y
  {
    hide EncodeString;
    SaltStart(s, x);
    SaltStart(r, y);
    if s != "" {
      Cancel("4:salt", EncodeString(s) + x, EncodeString(r) + y);
      StringPrefixFree(s, r, x, y);
    }
  }

  /** The omitted empty salt cannot be mistaken for a salt. */
  lemma SaltStart(s: string, x: string)
    requires x != "" && x[0] == '3'
    ensures if s == "" then SaltPart(s) + x == x
            else SaltPart(s) + x == "4:salt" + (EncodeString(s) + x) && (SaltPart(s) + x)[0] == '4'
  {
  }

  /** Two triples of salt, sequence number and value with the same buffer are equal. */
  lemma BufferInjective(v: Value, salt: string, m: int, w: Value, salt': string, n: int)
    requires SignatureBuffer(v, salt, m).Some? && SignatureBuffer(v, salt, m) == SignatureBuffer(w, salt', n)
    ensures v == w && salt == salt' && m == n
  {
    hide SaltPart;
    SaltInjective(salt, salt', VersionPart(m, v), VersionPart(n, w));
    VersionInjective(m, n, v, w);
  }
}
