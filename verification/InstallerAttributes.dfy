/** ParseAttributes of the DSN installer: key=value pairs separated by semicolons, into a map. */
module InstallerAttributes {
  import opened OdbcTypes
  import opened Texts

  /** One entry: everything after its first `=` is the value; a key that is there already keeps its value. */
  function Insert(m: map<string, string>, entry: string): map<string, string> {
    var j := Find(entry, '=');
    if j == |entry| || j == 0 || entry[..j] in m then m else m[entry[..j] := entry[j + 1..]]
  }

  /** The entries of a text from some position on; an empty entry before a semicolon ends the parse. */
  function Parse(m: map<string, string>, s: string): map<string, string>
    decreases |s|
  {
    var i := Find(s, ';');
    if i == 0 && s != "" then m
    else if i == |s| then Insert(m, s)
    else Parse(Insert(m, s[..i]), s[i + 1..])
  }

  method InsertEntry(m: map<string, string>, entry: string) returns (r: map<string, string>)
    ensures r == Insert(m, entry)
  {
    var separator := Find(entry, '=');
    var key, value := "", "";
    if separator < |entry| {
      key, value := entry[..separator], entry[separator + 1..];
    }
    if key != "" && key !in m {
      return m[key := value];
    }
    return m;
  }

  method ParseAttributes(attributes: string) returns (attributeMap: map<string, string>)
    ensures attributeMap == Parse(map[], attributes)
  {
    hide Insert, Find;
    attributeMap := map[];
    if attributes == "" {
      InsertNothing();
      return;
    }
    var begin := 0;
    // The position of the next semicolon; the length stands for npos.
    var end := Find(attributes, ';');
    assert attributes[0..] == attributes;
    while begin != end || end == |attributes|
      invariant 0 <= begin <= end <= |attributes|
      invariant end == begin + Find(attributes[begin..], ';')
      invariant Parse(attributeMap, attributes[begin..]) == Parse(map[], attributes)
      decreases |attributes| - begin
    {
      ghost var rest := attributes[begin..];
      assert rest[..end - begin] == attributes[begin..end];
      attributeMap := InsertEntry(attributeMap, attributes[begin..end]);
      if end == |attributes| {
        assert attributes[begin..end] == rest;
        return;
      }
      assert rest[end - begin + 1..] == attributes[end + 1..];
      begin := end + 1;
      end := begin + Find(attributes[begin..], ';');
    }
  }

  lemma InsertNothing()
    ensures Parse(map[], "") == map[]
  {
  }

  // ----- what the parse of a joined list of entries is -----

  function JoinEntries(entries: seq<string>): string {
    if entries == [] then ""
    else if |entries| == 1 then entries[0]
    else entries[0] + [';'] + JoinEntries(entries[1..])
  }

  function InsertAll(m: map<string, string>, entries: seq<string>): map<string, string>
    decreases |entries|
  {
    if entries == [] then m else InsertAll(Insert(m, entries[0]), entries[1..])
  }

  predicate IsEntry(entry: string) {
    entry != "" && ';' !in entry
  }

  predicate AllEntries(entries: seq<string>) {
    forall i :: 0 <= i < |entries| ==> IsEntry(entries[i])
  }

  /** A list of entries is inserted in order; what follows an empty entry is not looked at. */
  lemma {:induction false} ParseInserts(m: map<string, string>, entries: seq<string>, tail: string)
    requires entries != [] && AllEntries(entries)
    requires tail == "" || tail == ";" || ";;" <= tail
    ensures Parse(m, JoinEntries(entries) + tail) == InsertAll(m, entries)
    decreases |entries|
  {
    hide Insert;
    var first, m1 := entries[0], Insert(m, entries[0]);
    if |entries| == 1 {
      ParseLast(m, first, tail);
    } else {
      var rest := JoinEntries(entries[1..]) + tail;
      assert JoinEntries(entries) + tail == first + [';'] + rest;
      ParseFirst(m, first, rest);
      ParseInserts(m1, entries[1..], tail);
    }
  }

  lemma ParseFirst(m: map<string, string>, first: string, rest: string)
    requires IsEntry(first)
    ensures Parse(m, first + [';'] + rest) == Parse(Insert(m, first), rest)
  {
    hide Insert;
    var s := first + [';'] + rest;
    FindInConcat(first, ';', rest);
    assert s[..|first|] == first && s[|first| + 1..] == rest;
  }

  lemma ParseLast(m: map<string, string>, last: string, tail: string)
    requires IsEntry(last) && (tail == "" || tail == ";" || ";;" <= tail)
    ensures Parse(m, last + tail) == Insert(m, last)
  {
    if tail == "" {
      FindNothing(last, ';');
      assert last + tail == last;
    } else {
      assert last + tail == last + [';'] + tail[1..];
      ParseFirst(m, last, tail[1..]);
      assert tail[1..] == "" || tail[1..][0] == ';';
    }
  }

  datatype Pair = Pair(key: string, value: string)

  function Entry(p: Pair): string {
    p.key + ['='] + p.value
  }

  function Entries(pairs: seq<Pair>): (r: seq<string>)
    ensures |r| == |pairs| && forall i :: 0 <= i < |pairs| ==> r[i] == Entry(pairs[i])
  {
    seq(|pairs|, i requires 0 <= i < |pairs| => Entry(pairs[i]))
  }

  predicate WellFormed(p: Pair) {
    p.key != "" && '=' !in p.key && ';' !in p.key && ';' !in p.value
  }

  predicate AllWellFormed(pairs: seq<Pair>) {
    forall i :: 0 <= i < |pairs| ==> WellFormed(pairs[i])
  }

  /** The first pair with a key. */
  function FirstOf(pairs: seq<Pair>, key: string): Option<string> {
    if pairs == [] then None else if pairs[0].key == key then Some(pairs[0].value) else FirstOf(pairs[1..], key)
  }

  function Lookup(m: map<string, string>, key: string): Option<string> {
    if key in m then Some(m[key]) else None
  }

  lemma InsertPair(m: map<string, string>, p: Pair)
    requires WellFormed(p)
    ensures Insert(m, Entry(p)) == if p.key in m then m else m[p.key := p.value]
  {
    FindInConcat(p.key, '=', p.value);
    assert Entry(p)[..|p.key|] == p.key && Entry(p)[|p.key| + 1..] == p.value;
  }

  lemma {:induction false} FirstWins(m: map<string, string>, pairs: seq<Pair>, key: string)
    requires AllWellFormed(pairs)
    ensures Lookup(InsertAll(m, Entries(pairs)), key) == if key in m then Some(m[key]) else FirstOf(pairs, key)
    decreases |pairs|
  {
    hide Insert, Entry, WellFormed;
    if pairs != [] {
      InsertPair(m, pairs[0]);
      assert Entries(pairs)[1..] == Entries(pairs[1..]);
      FirstWins(Insert(m, Entry(pairs[0])), pairs[1..], key);
    }
  }

  /**
   * The attributes parsed from any list of well-formed pairs, with or without a closing semicolon, are the first
   * value of each key, and nothing else.
   */
  lemma ParsesFirstWins(pairs: seq<Pair>, tail: string, key: string)
    requires AllWellFormed(pairs) && pairs != [] && (tail == "" || tail == ";" || ";;" <= tail)
    ensures Lookup(Parse(map[], JoinEntries(Entries(pairs)) + tail), key) == FirstOf(pairs, key)
  {
    hide Parse, JoinEntries, Lookup, FirstOf;
    forall i | 0 <= i < |pairs|
      ensures IsEntry(Entries(pairs)[i])
    {
      assert WellFormed(pairs[i]);
    }
    ParseInserts(map[], Entries(pairs), tail);
    FirstWins(map[], pairs, key);
  }
}
