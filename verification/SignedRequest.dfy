/**
 Signing a spot request: the timestamp goes into the caller's parameter map, the query string
 of that map is signed, and the signature goes into the same map, wherever its key belongs.
 */
module SignedRequest {
  import opened Common
  import opened QueryString

  /** The message authentication code, as hexadecimal text. */
  type Mac = string -> string

  const SIGNATURE := "signature"
  const TIMESTAMP := "timestamp"

  /** The map whose query string is signed. */
  function Timed(ps: seq<Entry>, timestamp: string): seq<Entry> { Put(ps, TIMESTAMP, timestamp) }

  /** The map after signing. */
  function Signed(ps: seq<Entry>, timestamp: string, mac: Mac): seq<Entry> {
    Put(Timed(ps, timestamp), SIGNATURE, mac(Build(Timed(ps, timestamp))))
  }

  class ParameterMap {
    var entries: seq<Entry>

    ghost predicate Valid()
      reads this
    {
      Sorted(entries)
    }

    constructor ()
      ensures Valid() && entries == []
    {
      entries := [];
    }

    method InsertOrAssign(key: string, value: string)
      requires Valid()
      modifies this
      ensures Valid()
      ensures entries == Put(old(entries), key, value)
    {
      PutSorted(entries, key, value);
      entries := Put(entries, key, value);
    }
  }

  /** HTTPSession::P::sign; `signed` is the text passed to the authentication code. */
  method Sign(parameters: ParameterMap, timestamp: string, mac: Mac) returns (signed: string)
    requires parameters.Valid()
    modifies parameters
    ensures parameters.Valid()
    ensures signed == Build(Timed(old(parameters.entries), timestamp))
    ensures parameters.entries == Signed(old(parameters.entries), timestamp, mac)
    ensures exists timed :: Sorted(timed) && Stamps(old(parameters.entries), timed, timestamp) && signed == Build(timed)
    ensures Signs(old(parameters.entries), parameters.entries, timestamp, mac(signed))
  {
    SignedLookups(parameters.entries, timestamp, mac);
    parameters.InsertOrAssign(TIMESTAMP, timestamp);
    signed := CreateQueryStr(parameters.entries);
    parameters.InsertOrAssign(SIGNATURE, mac(signed));
  }

  /** HTTPSession::P::createRequest, up to the target of the request. */
  method CreateRequest(path: string, parameters: ParameterMap, isPublic: bool, timestamp: string, mac: Mac)
    returns (finalPath: string)
    requires parameters.Valid()
    modifies parameters
    ensures parameters.Valid()
    ensures parameters.entries
         == if isPublic then old(parameters.entries) else Signed(old(parameters.entries), timestamp, mac)
    ensures !isPublic ==>
              Signs(old(parameters.entries), parameters.entries, timestamp,
                    mac(Build(Timed(old(parameters.entries), timestamp))))
    ensures finalPath == if parameters.entries == [] then path else path + "?" + Build(parameters.entries)
  {
    finalPath := path;
    if !isPublic {
      var _ := Sign(parameters, timestamp, mac);
    }
    var queryString := CreateQueryStr(parameters.entries);
    EmptyOnlyForEmpty(parameters.entries);
    if queryString != "" {
      finalPath := finalPath + "?";
      finalPath := finalPath + queryString;
    }
  }

  // The map stays in key order, and inserting finds the one place for a key.

  lemma {:induction false} LessTrichotomy(a: string, b: string)
    ensures !(Less(a, b) && Less(b, a))
    ensures a == b || Less(a, b) || Less(b, a)
    ensures !Less(a, a)
  {
    if a != [] && b != [] && a[0] == b[0] {
      LessTrichotomy(a[1..], b[1..]);
      assert a == [a[0]] + a[1..] && b == [b[0]] + b[1..];
    }
    if a != [] { LessIrreflexive(a); }
  }

  lemma {:induction false} LessIrreflexive(a: string)
    ensures !Less(a, a)
  {
    if a != [] { LessIrreflexive(a[1..]); }
  }

  lemma {:induction false} LessTransitive(a: string, b: string, c: string)
    requires Less(a, b) && Less(b, c)
    ensures Less(a, c)
  {
    if a != [] && a[0] == b[0] == c[0] { LessTransitive(a[1..], b[1..], c[1..]); }
  }

  lemma {:induction false} PutKeys(ps: seq<Entry>, key: string, value: string)
    ensures forall e :: e in Put(ps, key, value) ==> e == Entry(key, value) || e in ps
  {
    if ps != [] && !Less(key, ps[0].key) && ps[0].key != key { PutKeys(ps[1..], key, value); }
  }

  lemma {:induction false} PutSorted(ps: seq<Entry>, key: string, value: string)
    requires Sorted(ps)
    ensures Sorted(Put(ps, key, value))
  {
    if ps != [] {
      LessTrichotomy(key, ps[0].key);
      if Less(key, ps[0].key) {
        forall j | 0 < j < |ps| ensures Less(key, ps[j].key) { LessTransitive(key, ps[0].key, ps[j].key); }
      } else if ps[0].key != key {
        var rest := Put(ps[1..], key, value);
        PutSorted(ps[1..], key, value);
        PutKeys(ps[1..], key, value);
        forall j | 0 <= j < |rest| ensures Less(ps[0].key, rest[j].key) {
          assert rest[j] in rest;
          if rest[j] != Entry(key, value) {
            var i :| 0 <= i < |ps[1..]| && ps[1..][i] == rest[j];
            assert Less(ps[0].key, ps[i + 1].key);
          }
        }
      }
    }
  }

  /** Putting a value under a key changes what is found there and nowhere else. */
  lemma {:induction false} LookupPut(ps: seq<Entry>, key: string, value: string, other: string)
    ensures Lookup(Put(ps, key, value), other) == if other == key then Some(value) else Lookup(ps, other)
  {
    var put := Put(ps, key, value);
    if ps == [] || Less(key, ps[0].key) {
      assert put[1..] == ps;
    } else if ps[0].key == key {
      assert put[1..] == ps[1..];
    } else {
      LookupPut(ps[1..], key, value, other);
      assert put[1..] == Put(ps[1..], key, value);
    }
  }

  /** The map `after` is the map `before` with the time stamped in. */
  ghost predicate Stamps(before: seq<Entry>, after: seq<Entry>, timestamp: string) {
    && Lookup(after, "timestamp") == Some(timestamp)
    && forall key :: key != "timestamp" ==> Lookup(after, key) == Lookup(before, key)
  }

  /** The map `after` is the map `before` with the time stamped in and the code of the signed text added. */
  ghost predicate Signs(before: seq<Entry>, after: seq<Entry>, timestamp: string, code: string) {
    && Lookup(after, "timestamp") == Some(timestamp)
    && Lookup(after, "signature") == Some(code)
    && forall key :: key != "timestamp" && key != "signature" ==> Lookup(after, key) == Lookup(before, key)
  }

  lemma SignedLookups(ps: seq<Entry>, timestamp: string, mac: Mac)
    ensures Stamps(ps, Timed(ps, timestamp), timestamp)
    ensures Signs(ps, Signed(ps, timestamp, mac), timestamp, mac(Build(Timed(ps, timestamp))))
  {
    var timed := Timed(ps, timestamp);
    forall key
      ensures Lookup(timed, key) == if key == TIMESTAMP then Some(timestamp) else Lookup(ps, key)
      ensures Lookup(Signed(ps, timestamp, mac), key)
           == if key == SIGNATURE then Some(mac(Build(timed))) else Lookup(timed, key)
    {
      LookupPut(ps, TIMESTAMP, timestamp, key);
      LookupPut(timed, SIGNATURE, mac(Build(timed)), key);
    }
  }

  // What a server does with a signed query: take the signature out and compare what is left.

  lemma {:induction false} DeleteAbsent(ps: seq<Entry>, key: string)
    requires !HasKey(ps, key)
    ensures Delete(ps, key) == ps
  {
    if ps != [] { DeleteAbsent(ps[1..], key); }
  }

  /** Deleting a key just put leaves what deleting it before would have left. */
  lemma {:induction false} DeletePut(ps: seq<Entry>, key: string, value: string)
    ensures Delete(Put(ps, key, value), key) == Delete(ps, key)
  {
    var put := Put(ps, key, value);
    if ps == [] || Less(key, ps[0].key) {
      assert put[1..] == ps;
    } else if ps[0].key == key {
      assert put[1..] == ps[1..];
    } else {
      DeletePut(ps[1..], key, value);
      assert put[1..] == Put(ps[1..], key, value);
    }
  }

  lemma {:induction false} DeleteShortens(ps: seq<Entry>, key: string)
    ensures |Build(Delete(ps, key))| <= |Build(ps)|
    ensures HasKey(ps, key) ==> |Build(Delete(ps, key))| < |Build(ps)|
    ensures |Delete(ps, key)| <= |ps|
  {
    if ps != [] {
      var rest := Delete(ps[1..], key);
      DeleteShortens(ps[1..], key);
      if ps[0].key != key {
        assert Delete(ps, key) == [ps[0]] + rest && ([ps[0]] + rest)[1..] == rest;
        BuildLength(ps);
        BuildLength([ps[0]] + rest);
      } else {
        assert Delete(ps, key) == rest;
        BuildLength(ps);
      }
    }
  }

  lemma BuildLength(ps: seq<Entry>)
    requires ps != []
    ensures |Build(ps)| == |ps[0].key| + |ps[0].value| + 1 + (if |ps| == 1 then 0 else 1 + |Build(ps[1..])|)
    ensures |ps| == 1 ==> Build(ps[1..]) == ""
  {
  }

  lemma {:induction false} PutHasKey(ps: seq<Entry>, key: string, value: string, other: string)
    requires other != key
    ensures HasKey(Put(ps, key, value), other) <==> HasKey(ps, other)
  {
    var put := Put(ps, key, value);
    if ps == [] || Less(key, ps[0].key) {
      assert put[1..] == ps;
    } else if ps[0].key == key {
      assert put[1..] == ps[1..];
    } else {
      PutHasKey(ps[1..], key, value, other);
      assert put[1..] == Put(ps[1..], key, value);
    }
  }

  /**
   Taking the signature out of the final query leaves exactly the text that was signed, if and
   only if the caller's map did not already hold a signature (as it does after a first signing).
   */
  lemma SignatureCoversRestIff(ps: seq<Entry>, timestamp: string, mac: Mac)
    ensures Build(Delete(Signed(ps, timestamp, mac), SIGNATURE)) == Build(Timed(ps, timestamp))
       <==> !HasKey(ps, SIGNATURE)
  {
    var timed := Timed(ps, timestamp);
    DeletePut(timed, SIGNATURE, mac(Build(timed)));
    PutHasKey(ps, TIMESTAMP, timestamp, SIGNATURE);
    if HasKey(ps, SIGNATURE) {
      DeleteShortens(timed, SIGNATURE);
    } else {
      DeleteAbsent(timed, SIGNATURE);
    }
  }

  lemma {:induction false} PutStays(ps: seq<Entry>, key: string, value: string)
    ensures HasKey(Put(ps, key, value), key)
  {
    var put := Put(ps, key, value);
    if ps == [] || Less(key, ps[0].key) || ps[0].key == key {
      assert put[0].key == key;
    } else {
      PutStays(ps[1..], key, value);
      assert put[1..] == Put(ps[1..], key, value);
    }
  }

  /** Signing the same map again therefore always signs the old signature too. */
  lemma SecondSignatureCoversFirst(ps: seq<Entry>, first: string, second: string, mac: Mac)
    ensures var again := Signed(ps, first, mac);
      Build(Delete(Signed(again, second, mac), SIGNATURE)) != Build(Timed(again, second))
  {
    PutStays(Timed(ps, first), SIGNATURE, mac(Build(Timed(ps, first))));
    SignatureCoversRestIff(Signed(ps, first, mac), second, mac);
  }

  /**
   From the query string alone, a server that parses it, takes the signature out and builds the rest
   again gets the signed text.
   */
  lemma ServerRebuildsSignedText(ps: seq<Entry>, timestamp: string, mac: Mac)
    requires !HasKey(ps, SIGNATURE)
    requires forall e :: e in ps ==> Clean(e)
    requires '&' !in timestamp && '&' !in mac(Build(Timed(ps, timestamp)))
    ensures Build(Delete(Parse(Build(Signed(ps, timestamp, mac))), SIGNATURE)) == Build(Timed(ps, timestamp))
  {
    SignedIsClean(ps, timestamp, mac);
    RoundTripIff(Signed(ps, timestamp, mac));
    SignatureCoversRestIff(ps, timestamp, mac);
  }

  /**
   So a server that holds the same key finds the signature it computes itself over the rest of the query,
   and the timestamp that was stamped in.
   */
  lemma ServerAccepts(ps: seq<Entry>, timestamp: string, mac: Mac)
    requires !HasKey(ps, SIGNATURE)
    requires forall e :: e in ps ==> Clean(e)
    requires '&' !in timestamp && '&' !in mac(Build(Timed(ps, timestamp)))
    ensures var received := Parse(Build(Signed(ps, timestamp, mac)));
      && Lookup(received, "signature") == Some(mac(Build(Delete(received, "signature"))))
      && Lookup(received, "timestamp") == Some(timestamp)
  {
    SignedIsClean(ps, timestamp, mac);
    RoundTripIff(Signed(ps, timestamp, mac));
    SignatureCoversRestIff(ps, timestamp, mac);
    SignedLookups(ps, timestamp, mac);
  }

  /** The smallest signed query, character by character. */
  lemma SignedEmptyMap(mac: Mac)
    ensures Build(Signed([], "1", mac)) == "signature=" + mac("timestamp=1") + "&timestamp=1"
  {
    var timed := [Entry("timestamp", "1")];
    assert Build(timed) == "timestamp=1";
    assert "signature"[0] == 's' && "timestamp"[0] == 't';
    var signed := [Entry("signature", mac("timestamp=1")), Entry("timestamp", "1")];
    assert Signed([], "1", mac) == signed;
    assert signed[1..] == timed;
  }

  lemma SignedIsClean(ps: seq<Entry>, timestamp: string, mac: Mac)
    requires forall e :: e in ps ==> Clean(e)
    requires '&' !in timestamp && '&' !in mac(Build(Timed(ps, timestamp)))
    ensures forall e :: e in Signed(ps, timestamp, mac) ==> Clean(e)
  {
    var timed := Timed(ps, timestamp);
    var signature := mac(Build(timed));
    PutKeys(ps, TIMESTAMP, timestamp);
    PutKeys(timed, SIGNATURE, signature);
    assert Clean(Entry(TIMESTAMP, timestamp)) && Clean(Entry(SIGNATURE, signature));
  }
}
