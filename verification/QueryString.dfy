/**
 Query strings and signed spot requests. A parameter map is its list of entries in key order,
 which is how the standard map is walked.
 */
module QueryString {
  import opened Common

  datatype Entry = Entry(key: string, value: string)

  /** Byte-wise order of keys. */
  predicate Less(a: string, b: string) {
    b != [] && (a == [] || a[0] < b[0] || (a[0] == b[0] && Less(a[1..], b[1..])))
  }

  ghost predicate Sorted(ps: seq<Entry>) {
    forall i, j :: 0 <= i < j < |ps| ==> Less(ps[i].key, ps[j].key)
  }

  predicate HasKey(ps: seq<Entry>, key: string) { ps != [] && (ps[0].key == key || HasKey(ps[1..], key)) }

  /** Inserts an entry where its key belongs, or replaces the one with that key. */
  function Put(ps: seq<Entry>, key: string, value: string): seq<Entry> {
    if ps == [] || Less(key, ps[0].key) then [Entry(key, value)] + ps
    else if ps[0].key == key then [Entry(key, value)] + ps[1..]
    else [ps[0]] + Put(ps[1..], key, value)
  }

  /** The value found under a key. */
  function Lookup(ps: seq<Entry>, key: string): Option<string> {
    if ps == [] then None else if ps[0].key == key then Some(ps[0].value) else Lookup(ps[1..], key)
  }

  /** Keys are compared character by character; of two that agree up to the end of one, the shorter comes first. */
  lemma {:induction false} LessIff(a: string, b: string)
    ensures Less(a, b) <==>
            exists k: nat :: k <= |a| && k < |b| && a[..k] == b[..k] && (k == |a| || a[k] < b[k])
  {
    if a != [] && b != [] && a[0] == b[0] {
      LessIff(a[1..], b[1..]);
      if k: nat :| k < |a| && k < |b| - 1 && a[1..][..k] == b[1..][..k] && (k == |a| - 1 || a[1..][k] < b[1..][k]) {
        assert a[..k + 1] == [a[0]] + a[1..][..k] && b[..k + 1] == [b[0]] + b[1..][..k];
      }
      if k: nat :| k <= |a| && k < |b| && a[..k] == b[..k] && (k == |a| || a[k] < b[k]) {
        assert a[1..][..k - 1] == a[..k][1..] && b[1..][..k - 1] == b[..k][1..];
      }
    } else if Less(a, b) {
      assert a[..0] == b[..0];
    } else if b != [] {
      SameHead(a, b);
    }
  }

  lemma SameHead(a: string, b: string)
    requires a != [] && b != []
    ensures forall k: nat :: 0 < k <= |a| && k <= |b| && a[..k] == b[..k] ==> a[0] == b[0]
  {
    assert forall k: nat :: 0 < k <= |a| && k <= |b| ==> a[..k][0] == a[0] && b[..k][0] == b[0];
  }

  function Delete(ps: seq<Entry>, key: string): seq<Entry> {
    if ps == [] then [] else (if ps[0].key == key then [] else [ps[0]]) + Delete(ps[1..], key)
  }

  function Text(e: Entry): string { e.key + "=" + e.value }

  /** The query string: the entries' texts, separated by '&'. */
  function Build(ps: seq<Entry>): string {
    if ps == [] then ""
    else if |ps| == 1 then Text(ps[0])
    else Text(ps[0]) + "&" + Build(ps[1..])
  }

  /** The texts, each followed by '&': what the loop has appended. */
  function Appended(ps: seq<Entry>): string {
    if ps == [] then "" else Appended(ps[..|ps| - 1]) + Text(ps[|ps| - 1]) + "&"
  }

  lemma {:induction false} AppendedFirst(e: Entry, ps: seq<Entry>)
    ensures Appended([e] + ps) == Text(e) + "&" + Appended(ps)
  {
    var all := [e] + ps;
    if ps == [] {
      assert all[..0] == [];
    } else {
      AppendedFirst(e, ps[..|ps| - 1]);
      assert all[..|all| - 1] == [e] + ps[..|ps| - 1];
      var front, last := Appended(ps[..|ps| - 1]), Text(ps[|ps| - 1]);
      assert (Text(e) + "&" + front) + last + "&" == Text(e) + "&" + (front + last + "&");
    }
  }

  lemma {:induction false} AppendedIsBuilt(ps: seq<Entry>)
    requires ps != []
    ensures Appended(ps) == Build(ps) + "&"
  {
    assert ps == [ps[0]] + ps[1..];
    AppendedFirst(ps[0], ps[1..]);
    if |ps| > 1 {
      AppendedIsBuilt(ps[1..]);
      var first, rest := Text(ps[0]), Build(ps[1..]);
      assert first + "&" + (rest + "&") == (first + "&" + rest) + "&";
    }
  }

  /** createQueryStr: appends entry by entry and takes the last separator off again. */
  method CreateQueryStr(parameters: seq<Entry>) returns (queryStr: string)
    ensures queryStr == Build(parameters)
  {
    queryStr := "";
    for i := 0 to |parameters|
      invariant queryStr == Appended(parameters[..i])
    {
      assert parameters[..i + 1][..i] == parameters[..i];
      queryStr := queryStr + parameters[i].key;
      queryStr := queryStr + "=";
      queryStr := queryStr + parameters[i].value;
      queryStr := queryStr + "&";
    }
    assert parameters[..|parameters|] == parameters;
    if parameters != [] { AppendedIsBuilt(parameters); }
    if queryStr != "" {
      queryStr := queryStr[..|queryStr| - 1];
    }
  }

  // Reading a query string back.

  function Split(s: string): (pieces: seq<string>)
    ensures pieces != []
  {
    if s == "" then [""]
    else if s[0] == '&' then [""] + Split(s[1..])
    else
      var rest := Split(s[1..]);
      [[s[0]] + rest[0]] + rest[1..]
  }

  /** Cuts a piece at its first '='. */
  function ParseEntry(piece: string): (e: Entry)
    ensures '=' !in e.key
  {
    if piece == "" then Entry("", "")
    else if piece[0] == '=' then Entry("", piece[1..])
    else
      var rest := ParseEntry(piece[1..]);
      Entry([piece[0]] + rest.key, rest.value)
  }

  function ParseAll(pieces: seq<string>): (ps: seq<Entry>)
    ensures |ps| == |pieces|
    ensures forall i :: 0 <= i < |ps| ==> ps[i] == ParseEntry(pieces[i])
  {
    if pieces == [] then [] else [ParseEntry(pieces[0])] + ParseAll(pieces[1..])
  }

  function Parse(query: string): seq<Entry> {
    if query == "" then [] else ParseAll(Split(query))
  }

  /** How many separators a text contains. */
  function Separators(s: string): nat {
    if s == "" then 0 else (if s[0] == '&' then 1 else 0) + Separators(s[1..])
  }

  lemma {:induction false} SplitCount(s: string)
    ensures |Split(s)| == Separators(s) + 1
  {
    if s != "" { SplitCount(s[1..]); }
  }

  lemma {:induction false} SeparatorsJoin(a: string, b: string)
    ensures Separators(a + b) == Separators(a) + Separators(b)
  {
    if a == "" {
      assert a + b == b;
    } else {
      SeparatorsJoin(a[1..], b);
      assert (a + b)[1..] == a[1..] + b;
    }
  }

  lemma {:induction false} NoSeparators(s: string)
    ensures Separators(s) == 0 <==> '&' !in s
  {
    if s != "" {
      NoSeparators(s[1..]);
      assert s == [s[0]] + s[1..];
    }
  }

  lemma {:induction false} SplitFirst(a: string, b: string)
    requires '&' !in a
    ensures Split(a) == [a]
    ensures Split(a + "&" + b) == [a] + Split(b)
  {
    if a == "" {
      assert a + "&" + b == "&" + b && ("&" + b)[1..] == b;
    } else {
      SplitFirst(a[1..], b);
      assert a == [a[0]] + a[1..];
      assert (a + "&" + b)[1..] == a[1..] + "&" + b;
      assert (a + "&" + b)[0] == a[0];
    }
  }

  lemma {:induction false} ParseText(key: string, value: string)
    ensures ParseEntry(key + "=" + value) == Entry(key, value) <==> '=' !in key
  {
    var t := key + "=" + value;
    if key == "" {
      assert t[0] == '=' && t[1..] == value;
    } else if key[0] != '=' {
      ParseText(key[1..], value);
      assert key == [key[0]] + key[1..];
      assert t[0] == key[0] && t[1..] == key[1..] + "=" + value;
      assert ParseEntry(t).key[1..] == ParseEntry(t[1..]).key;
    } else {
      assert key[0] in key;
    }
  }

  /** Entries that come through a query string: no '&' anywhere and no '=' in a key. */
  predicate Clean(e: Entry) { '&' !in Text(e) && '=' !in e.key }

  /**
   One more than the separators of the whole string is at least the number of entries, with equality
   when no text has its own.
   */
  lemma {:induction false} BuildSeparators(ps: seq<Entry>)
    requires ps != []
    ensures Separators(Build(ps)) >= |ps| - 1
    ensures Separators(Build(ps)) == |ps| - 1 <==> forall e :: e in ps ==> '&' !in Text(e)
  {
    NoSeparators(Text(ps[0]));
    assert ps == [ps[0]] + ps[1..];
    if |ps| == 1 {
      assert ps[1..] == [];
    } else {
      BuildSeparators(ps[1..]);
      SeparatorsJoin(Text(ps[0]) + "&", Build(ps[1..]));
      SeparatorsJoin(Text(ps[0]), "&");
      assert Separators("&") == 1;
    }
  }

  lemma {:induction false} SplitOfBuild(ps: seq<Entry>)
    requires ps != [] && forall e :: e in ps ==> '&' !in Text(e)
    ensures |Split(Build(ps))| == |ps| && forall i :: 0 <= i < |ps| ==> Split(Build(ps))[i] == Text(ps[i])
  {
    assert ps == [ps[0]] + ps[1..];
    if |ps| == 1 {
      SplitFirst(Text(ps[0]), "");
    } else {
      SplitOfBuild(ps[1..]);
      SplitFirst(Text(ps[0]), Build(ps[1..]));
    }
  }

  lemma EmptyOnlyForEmpty(ps: seq<Entry>)
    ensures Build(ps) == "" <==> ps == []
  {
    if ps != [] { assert Text(ps[0]) != ""; }
  }

  /** Reading the built string gives back exactly the entries, if and only if every entry is clean. */
  lemma RoundTripIff(ps: seq<Entry>)
    ensures Parse(Build(ps)) == ps <==> forall e :: e in ps ==> Clean(e)
  {
    if ps != [] {
      EmptyOnlyForEmpty(ps);
      BuildSeparators(ps);
      SplitCount(Build(ps));
      if forall e :: e in ps ==> '&' !in Text(e) {
        SplitOfBuild(ps);
        forall i | 0 <= i < |ps| ensures Parse(Build(ps))[i] == ps[i] <==> Clean(ps[i]) {
          ParseText(ps[i].key, ps[i].value);
        }
      }
    }
  }

  /** So clean maps with the same query string are the same map. */
  lemma BuildInjective(ps: seq<Entry>, qs: seq<Entry>)
    requires forall e :: e in ps + qs ==> Clean(e)
    requires Build(ps) == Build(qs)
    ensures ps == qs
  {
    assert forall e :: e in ps || e in qs ==> e in ps + qs;
    RoundTripIff(ps);
    RoundTripIff(qs);
  }

  /** A value with a separator in it does not come back. */
  lemma SeparatorInValue()
    ensures var ps := [Entry("a", "1&b=2")]; Parse(Build(ps)) != ps
  {
    var e := Entry("a", "1&b=2");
    RoundTripIff([e]);
    assert Text(e)[3] == '&';
    assert !Clean(e) && e in [e];
  }
}
