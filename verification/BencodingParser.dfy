/** The destructive parser as the source runs it: a shared string that is eaten from the front, by
    loops inside a recursion (src/bittorrent/bencoding.cpp).  When parsing fails the string is left
    half eaten, as in the source; nobody looks at it then. */
module BencodingParser {
  import opened Options
  import opened Numbers
  import opened Bencoding

  class Input {
    var encoded: string

    constructor (s: string)
      ensures encoded == s
    {
      encoded := s;
    }

    method ParseIntAtFront() returns (r: Option<int>)
      modifies this
      ensures match ParseInt64(old(encoded))
              case None => r == None
              case Some((n, rest)) => r == Some(n) && encoded == rest
    {
      // The character after the end of a `std::string` is a null.
      var n := ParseNumber(encoded, '\0');
      if n == None {
        return None;
      }
      encoded := n.value.1;
      return Some(n.value.0);
    }

    method ParseStringAtFront() returns (r: Option<string>)
      modifies this
      ensures match ParseString(old(encoded))
              case None => r == None
              case Some(p) => r == Some(p.value) && encoded == p.rest
    {
      var size := ParseIntAtFront();
      if size == None {
        return None;
      }
      if encoded == "" || encoded[0] != ':' {
        return None;
      }
      ghost var t := encoded;
      encoded := encoded[1..];
      if size.value < 0 || |encoded| < size.value {
        return None;
      }
      if size.value > LENGTH_LIMIT {
        return None;
      }
      var value := encoded[..size.value];
      assert value == t[1..size.value + 1] && encoded[size.value..] == t[size.value + 1..];
      encoded := encoded[size.value..];
      return Some(value);
    }

    method ParseValueAtFront(depth: nat) returns (r: Option<Value>)
      modifies this
      ensures match ParseValue(old(encoded), depth)
              case None => r == None
              case Some(p) => r == Some(p.value) && encoded == p.rest
      decreases |encoded|, 0
    {
      if encoded == "" || depth > DEPTH_LIMIT {
        return None;
      }
      if encoded[0] == 'i' {
        encoded := encoded[1..];
        var n := ParseIntAtFront();
        if n == None || encoded == "" || encoded[0] != 'e' {
          return None;
        }
        encoded := encoded[1..];
        return Some(Int(n.value));
      } else if IsDigit(encoded[0]) {
        var s := ParseStringAtFront();
        return if s == None then None else Some(Str(s.value));
      } else if encoded[0] == 'l' {
        encoded := encoded[1..];
        var items := ParseItemsAtFront(depth + 1);
        return if items == None then None else Some(List(items.value));
      } else if encoded[0] == 'd' {
        encoded := encoded[1..];
        var entries := ParseEntriesAtFront(depth + 1);
        return if entries == None then None else Some(Dict(entries.value));
      } else {
        return None;
      }
    }

    method ParseItemsAtFront(depth: nat) returns (r: Option<seq<Value>>)
      modifies this
      ensures match ParseItems(old(encoded), depth, [])
              case None => r == None
              case Some(p) => r == Some(p.value) && encoded == p.rest
      decreases |encoded|, 1
    {
      var output := [];
      while encoded != "" && encoded[0] != 'e'
        invariant |encoded| <= |old(encoded)|
        invariant ParseItems(encoded, depth, output) == ParseItems(old(encoded), depth, [])
        decreases |encoded|
      {
        var value := ParseValueAtFront(depth);
        if value == None {
          return None;
        }
        output := output + [value.value];
      }
      if encoded == "" {
        return None;
      }
      encoded := encoded[1..];
      return Some(output);
    }

    method ParseEntriesAtFront(depth: nat) returns (r: Option<seq<Entry>>)
      modifies this
      ensures match ParseEntries(old(encoded), depth, [])
              case None => r == None
              case Some(p) => r == Some(p.value) && encoded == p.rest
      decreases |encoded|, 1
    {
      var output := [];
      while encoded != "" && encoded[0] != 'e'
        invariant |encoded| <= |old(encoded)|
        invariant ParseEntries(encoded, depth, output) == ParseEntries(old(encoded), depth, [])
        decreases |encoded|
      {
        var key := ParseStringAtFront();
        if key == None {
          return None;
        }
        var value := ParseValueAtFront(depth);
        if value == None {
          return None;
        }
        output := Assign(output, key.value, value.value);
      }
      if encoded == "" {
        return None;
      }
      encoded := encoded[1..];
      return Some(output);
    }
  }

  /** `bencoding_decode`. */
  method DecodeBytes(s: string) returns (r: Option<Value>)
    ensures r == Decode(s)
  {
    var input := new Input(s);
    r := input.ParseValueAtFront(1);
  }
}
