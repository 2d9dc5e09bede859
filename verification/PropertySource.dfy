/**
 * The connection string as a stream of properties: a resumable tokenizer that splices the ini properties of a DSN
 * into the middle of its own stream. Chars stand for the narrow characters of a NUL-terminated string.
 */
module PropertySource {
  import opened OdbcTypes
  import opened Texts

  datatype Pair = Pair(name: string, value: string)

  /**
   * What the profile library returns for a key in the section of a DSN: the value as far as the read buffer of 8192
   * characters holds it, empty when there is none.
   */
  type Profile = (string, string) -> string

  predicate Blank(c: char) {
    c == ' ' || c == '\t'
  }

  /** ltrim: how many leading blanks and tabs are skipped. */
  function LeadingBlanks(s: string): (r: nat)
    ensures r <= |s| && (r < |s| ==> !Blank(s[r]))
    ensures forall i :: 0 <= i < r ==> Blank(s[i])
  {
    if s == "" || !Blank(s[0]) then 0 else 1 + LeadingBlanks(s[1..])
  }

  // ----- one segment -----

  /** What one read step makes of the text at the current position. */
  datatype Segment =
    | NoSegment
    | MissingEquals
    | Property(pair: Pair, rest: Option<string>)
    | BadLength(rest: Option<string>)

  /** The value length is the distance from '=' to ';', which is negative when the ';' comes first. */
  function NextSegment(s: string): (r: Segment)
    ensures (r.Property? || r.BadLength?) && r.rest.Some? ==> |r.rest.value| < |s|
    ensures r.Property? ==> s != ""
  {
    var semi, eq := Find(s, ';'), Find(s, '=');
    if s == "" then NoSegment
    else if eq == |s| then MissingEquals
    else
      var b := LeadingBlanks(s);
      var name := if b <= eq then s[b..eq] else "";
      var rest := if semi < |s| then Some(s[semi + 1..]) else None;
      var len := (if semi < |s| then semi else |s|) - (eq + 1);
      if len >= 0 then Property(Pair(name, s[eq + 1..eq + 1 + len]), rest)
      else if len == SQL_NTS then Property(Pair(name, s[eq + 1..]), rest)
      else BadLength(rest)
  }

  lemma BlanksBeforeEquals(s: string)
    ensures Find(s, '=') < |s| ==> LeadingBlanks(s) <= Find(s, '=')
  {
  }

  /** A segment is read as one property, free of the delimiter, exactly when its '=' comes before its ';'. */
  lemma SegmentReadIff(s: string)
    requires s != ""
    ensures (NextSegment(s).Property? && ';' !in NextSegment(s).pair.name && ';' !in NextSegment(s).pair.value)
       <==> Find(s, '=') < Find(s, ';')
  {
    hide Find, LeadingBlanks;
    BlanksBeforeEquals(s);
    var semi, eq, b := Find(s, ';'), Find(s, '='), LeadingBlanks(s);
    if semi < eq < |s| {
      assert s[b..eq][semi - b] == ';';
    }
  }

  /**
   * A semicolon before the first equals sign makes the length of the value negative: minus three means up to the end of
   * the text, so with one character in between the rest is read as the value and read again; otherwise reading throws.
   * Without an equals sign it fails.
   */
  lemma SemicolonFirst(a: string, b: string, c: string)
    requires '=' !in a && '=' !in b && ';' !in a
    ensures NextSegment(a + ";" + b + "=" + c)
         == if |b| == 1 then Property(Pair((a + ";" + b)[LeadingBlanks(a)..], c), Some(b + "=" + c))
            else BadLength(Some(b + "=" + c))
    ensures a != "" ==> NextSegment(a) == MissingEquals
  {
    hide *;
    var head := a + ";" + b;
    var s := head + "=" + c;
    if a != "" {
      NoEquals(a);
    }
    PositionsIn(a, b, c);
    PartsOf(head, "=", c, LeadingBlanks(a));
    BehindFirst(a, b, c);
    SegmentBetween(s, |a|, |head|);
  }

  lemma PartsOf(head: string, mark: string, tail: string, n: nat)
    requires n <= |head| && |mark| == 1
    ensures var s := head + mark + tail;
            |head| < |s| && s[|head| + 1..] == tail && s[n..|head|] == head[n..]
  {
  }

  lemma BehindFirst(a: string, b: string, c: string)
    ensures |a + ";" + b| == |a| + 1 + |b| && (a + ";" + b + "=" + c)[|a| + 1..] == b + "=" + c
  {
    assert a + ";" + b + "=" + c == (a + ";") + (b + "=" + c);
  }

  lemma NoEquals(a: string)
    requires '=' !in a && a != ""
    ensures NextSegment(a) == MissingEquals
  {
    FindNothing(a, '=');
  }

  /** Where a text with a semicolon before its first equals sign has these two, and its leading blanks. */
  lemma PositionsIn(a: string, b: string, c: string)
    requires '=' !in a && '=' !in b && ';' !in a
    ensures var s, head := a + ";" + b + "=" + c, a + ";" + b;
            && Find(s, ';') == |a| && Find(s, '=') == |head|
            && LeadingBlanks(s) == LeadingBlanks(a) && LeadingBlanks(a) <= |a|
  {
    hide Find, LeadingBlanks;
    var head := a + ";" + b;
    assert '=' !in head;
    FindInConcat(head, '=', c);
    assert head + "=" + c == a + [';'] + (b + "=" + c);
    FindInConcat(a, ';', b + "=" + c);
    BlanksStop(a, b + "=" + c);
    assert head + "=" + c == a + ";" + (b + "=" + c);
  }

  lemma SegmentBetween(s: string, semi: nat, eq: nat)
    requires Find(s, ';') == semi < Find(s, '=') == eq < |s| && LeadingBlanks(s) <= semi
    ensures NextSegment(s)
         == if eq == semi + 2 then Property(Pair(s[LeadingBlanks(s)..eq], s[eq + 1..]), Some(s[semi + 1..]))
            else BadLength(Some(s[semi + 1..]))
  {
    hide Find, LeadingBlanks;
  }

  lemma {:induction false} BlanksStop(a: string, more: string)
    ensures LeadingBlanks(a + ";" + more) == LeadingBlanks(a)
    decreases |a|
  {
    if a == "" {
      assert "" + ";" + more == ";" + more;
    } else {
      assert (a + ";" + more)[0] == a[0] && (a + ";" + more)[1..] == a[1..] + ";" + more;
      BlanksStop(a[1..], more);
    }
  }

  // ----- the reader -----

  /** The environment of a read: the shared list of property names and the ini file. */
  datatype Env = Env(names: seq<string>, ini: Profile)

  /** m_connStrp (null or the remaining text), m_readingDSN, the DSN, and the shared name iterator. */
  datatype Reader = Reader(rest: Option<string>, readingDSN: bool, dsn: string, namePos: nat)

  datatype Outcome = Emit(pair: Pair) | End | Malformed | Thrown

  /** The first name from `i` on with a value in the ini section, or the end of the names. */
  function NextName(env: Env, dsn: string, i: nat): (r: nat)
    ensures i <= r && (i <= |env.names| ==> r <= |env.names|)
    ensures r < |env.names| ==> env.ini(dsn, env.names[r]) != ""
    ensures forall j :: i <= j < r ==> j < |env.names| && env.ini(dsn, env.names[j]) == ""
    decreases |env.names| - i
  {
    if i >= |env.names| || env.ini(dsn, env.names[i]) != "" then i else NextName(env, dsn, i + 1)
  }

  function CharsLeft(r: Reader): nat {
    if r.rest.Some? then |r.rest.value| else 0
  }

  function NamesLeft(env: Env, r: Reader): nat {
    if r.namePos < |env.names| then |env.names| - r.namePos else 0
  }

  /** ConnStringPropertyReader::read. */
  function Read(env: Env, r: Reader): (res: (Reader, Outcome))
    ensures CharsLeft(res.0) <= CharsLeft(r) && NamesLeft(env, res.0) <= NamesLeft(env, r)
    ensures res.1.Emit? ==>
      CharsLeft(res.0) < CharsLeft(r)
      || (CharsLeft(res.0) == CharsLeft(r) && NamesLeft(env, res.0) < NamesLeft(env, r))
    decreases CharsLeft(r), r.readingDSN
  {
    if r.readingDSN then
      var i := NextName(env, r.dsn, r.namePos);
      if i < |env.names| then
        (r.(namePos := i + 1), Emit(Pair(env.names[i], env.ini(r.dsn, env.names[i]))))
      else Read(env, r.(readingDSN := false, namePos := i))
    else if r.rest == None then (r, End)
    else
      match NextSegment(r.rest.value)
      case NoSegment => (r, End)
      case MissingEquals => (r, Malformed)
      case BadLength(rest) => (r.(rest := rest), Thrown)
      case Property(pair, rest) =>
        if EqualsIgnoreCase(pair.name, "DSN") && pair.value != "" then
          Read(env, r.(rest := rest, readingDSN := true, dsn := pair.value))
        else (r.(rest := rest), Emit(pair))
  }

  /** Everything repeated reads emit, and how the stream ends. */
  function Drain(env: Env, r: Reader): (seq<Pair>, Outcome)
    decreases CharsLeft(r), NamesLeft(env, r)
  {
    var (r', out) := Read(env, r);
    if out.Emit? then
      var (pairs, last) := Drain(env, r');
      ([out.pair] + pairs, last)
    else ([], out)
  }

  // ----- what the stream of a well-formed string is -----

  /** `<name>=<value>` */
  function Spell(p: Pair): string {
    p.name + "=" + p.value
  }

  function Join(pairs: seq<Pair>): string {
    if pairs == [] then ""
    else if |pairs| == 1 then Spell(pairs[0])
    else Spell(pairs[0]) + ";" + Join(pairs[1..])
  }

  /** A pair as an application writes it, with any blanks before its name. */
  datatype Part = Part(blanks: string, pair: Pair)

  predicate AllBlank(s: string) {
    forall i :: 0 <= i < |s| ==> s[i] in {' ', '\t'}
  }

  /** The text of a list of parts; a closed one ends with a semicolon. None is the null pointer. */
  function TextOf(parts: seq<Part>, closed: bool): Option<string> {
    if parts == [] then if closed then Some("") else None
    else
      var rest := TextOf(parts[1..], closed);
      Some(parts[0].blanks + Spell(parts[0].pair) + (if rest.Some? then ";" + rest.value else ""))
  }

  function Written(parts: seq<Part>, closed: bool): string {
    var text := TextOf(parts, closed);
    if text.Some? then text.value else ""
  }

  function PairsOf(parts: seq<Part>): (r: seq<Pair>)
    ensures |r| == |parts| && forall i :: 0 <= i < |parts| ==> r[i] == parts[i].pair
  {
    seq(|parts|, i requires 0 <= i < |parts| => parts[i].pair)
  }

  /** Names free of the delimiters and of leading blanks, values free of the separator. */
  predicate Spellable(p: Pair) {
    && '=' !in p.name && ';' !in p.name && ';' !in p.value
    && (p.name != "" ==> p.name[0] !in {' ', '\t'})
  }

  predicate AllWritable(parts: seq<Part>) {
    forall i :: 0 <= i < |parts| ==> Spellable(parts[i].pair) && AllBlank(parts[i].blanks)
  }

  predicate AllSpellable(pairs: seq<Pair>) {
    forall i :: 0 <= i < |pairs| ==> Spellable(pairs[i])
  }

  predicate IsDsn(p: Pair) {
    EqualsIgnoreCase(p.name, "DSN") && p.value != ""
  }

  /** The pairs without their DSNs. */
  function WithoutDsn(pairs: seq<Pair>): seq<Pair> {
    if pairs == [] then []
    else if IsDsn(pairs[0]) then WithoutDsn(pairs[1..])
    else [pairs[0]] + WithoutDsn(pairs[1..])
  }

  /** The non-empty ini properties of a DSN, in name order, from name `i` on. */
  function IniPairs(env: Env, dsn: string, i: nat): seq<Pair>
    decreases |env.names| - i
  {
    if i >= |env.names| then []
    else
      var v := env.ini(dsn, env.names[i]);
      (if v != "" then [Pair(env.names[i], v)] else []) + IniPairs(env, dsn, i + 1)
  }

  /** The first DSN is replaced by its ini properties; later ones add nothing. */
  function Expand(env: Env, pairs: seq<Pair>): seq<Pair> {
    if pairs == [] then []
    else if IsDsn(pairs[0]) then IniPairs(env, pairs[0].value, 0) + WithoutDsn(pairs[1..])
    else [pairs[0]] + Expand(env, pairs[1..])
  }

  /** The properties before the first DSN, then its ini properties, then what follows without any further DSN. */
  lemma {:induction false} ExpandAt(env: Env, pairs: seq<Pair>, d: nat)
    requires d < |pairs| && IsDsn(pairs[d]) && forall i :: 0 <= i < d ==> !IsDsn(pairs[i])
    ensures Expand(env, pairs) == pairs[..d] + (IniPairs(env, pairs[d].value, 0) + WithoutDsn(pairs[d + 1..]))
    decreases d
  {
    hide IsDsn, IniPairs, WithoutDsn;
    if d == 0 {
      assert pairs[..0] == [];
    } else {
      ExpandAt(env, pairs[1..], d - 1);
      assert pairs[1..][d..] == pairs[d + 1..];
      assert [pairs[0]] + pairs[1..][..d - 1] == pairs[..d];
      var rest := IniPairs(env, pairs[d].value, 0) + WithoutDsn(pairs[d + 1..]);
      assert [pairs[0]] + (pairs[1..][..d - 1] + rest) == ([pairs[0]] + pairs[1..][..d - 1]) + rest;
    }
  }

  /** Where the parts of a written pair stand in its text. */
  predicate SpelledAt(s: string, blanks: string, p: Pair, more: string) {
    var eq := |blanks| + |p.name|;
    var semi := eq + 1 + |p.value|;
    && |s| == semi + |more| && s[..|blanks|] == blanks && s[|blanks|..eq] == p.name
    && s[eq] == '=' && s[eq + 1..semi] == p.value && s[semi..] == more
  }

  lemma SpelledApart(blanks: string, p: Pair, more: string)
    ensures SpelledAt(blanks + Spell(p) + more, blanks, p, more)
  {
  }

  /** Before its equals sign a written pair has no delimiter, and its blanks end where its name starts. */
  lemma SpelledHead(s: string, blanks: string, p: Pair, more: string)
    requires SpelledAt(s, blanks, p, more) && Spellable(p) && AllBlank(blanks)
    ensures Find(s, '=') == |blanks| + |p.name| && LeadingBlanks(s) == |blanks|
  {
    hide Find, LeadingBlanks;
    var eq := |blanks| + |p.name|;
    forall i | 0 <= i < eq
      ensures s[i] != '='
    {
      assert s[i] == if i < |blanks| then s[..|blanks|][i] else s[|blanks|..eq][i - |blanks|];
    }
    forall i | 0 <= i < |blanks|
      ensures Blank(s[i])
    {
      assert s[i] == s[..|blanks|][i];
    }
    assert s[|blanks|] == if p.name == "" then '=' else s[|blanks|..eq][0];
  }

  /** Its first semicolon is the one behind its value. */
  lemma SpelledEnd(s: string, blanks: string, p: Pair, more: string)
    requires SpelledAt(s, blanks, p, more) && Spellable(p) && AllBlank(blanks) && (more != "" ==> more[0] == ';')
    ensures Find(s, ';') == |s| - |more|
  {
    hide Find, Spellable, AllBlank;
    var semi := |s| - |more|;
    forall i | 0 <= i < semi
      ensures s[i] != ';'
    {
      SpelledChar(s, blanks, p, more, i);
    }
    if more != "" {
      assert s[semi] == s[semi..][0];
    }
  }

  lemma SpelledChar(s: string, blanks: string, p: Pair, more: string, i: nat)
    requires SpelledAt(s, blanks, p, more) && Spellable(p) && AllBlank(blanks) && i < |s| - |more|
    ensures s[i] != ';'
  {
    var eq := |blanks| + |p.name|;
    if i < |blanks| {
      assert s[i] == s[..|blanks|][i];
    } else if i < eq {
      assert s[i] == s[|blanks|..eq][i - |blanks|];
    } else if i > eq {
      assert s[i] == s[eq + 1..eq + 1 + |p.value|][i - (eq + 1)];
    }
  }

  /** A pair with blanks before it, alone or followed by `;` and more, is read back as that pair. */
  lemma SegmentOfSpelled(blanks: string, p: Pair, rest: Option<string>)
    requires Spellable(p) && AllBlank(blanks)
    ensures var s := blanks + Spell(p) + (if rest.Some? then ";" + rest.value else "");
            NextSegment(s) == Property(p, rest)
  {
    hide Find, LeadingBlanks, NextSegment, SpelledAt, Spell, Spellable;
    var more := if rest.Some? then ";" + rest.value else "";
    SpelledApart(blanks, p, more);
    SegmentAt(blanks + Spell(p) + more, blanks, p, rest, more);
  }

  lemma SegmentAt(s: string, blanks: string, p: Pair, rest: Option<string>, more: string)
    requires Spellable(p) && AllBlank(blanks) && SpelledAt(s, blanks, p, more)
    requires more == if rest.Some? then ";" + rest.value else ""
    ensures NextSegment(s) == Property(p, rest)
  {
    hide Find, LeadingBlanks;
    SpelledHead(s, blanks, p, more);
    SpelledEnd(s, blanks, p, more);
    if rest.Some? {
      var semi := |s| - |more|;
      assert s[semi + 1..] == s[semi..][1..];
    }
  }

  lemma TextSegment(parts: seq<Part>, closed: bool)
    requires parts != [] && AllWritable(parts)
    ensures TextOf(parts, closed).Some?
    ensures NextSegment(TextOf(parts, closed).value) == Property(parts[0].pair, TextOf(parts[1..], closed))
  {
    hide NextSegment, Spell;
    SegmentOfSpelled(parts[0].blanks, parts[0].pair, TextOf(parts[1..], closed));
  }

  lemma DrainStep(env: Env, r: Reader, r': Reader, p: Pair)
    requires Read(env, r) == (r', Emit(p))
    ensures Drain(env, r) == ([p] + Drain(env, r').0, Drain(env, r').1)
  {
  }

  lemma DrainSame(env: Env, r: Reader, r': Reader)
    requires Read(env, r) == Read(env, r')
    ensures Drain(env, r) == Drain(env, r')
  {
    hide Read;
  }

  /** While the ini properties are read, they come first, and then the rest of the string. */
  lemma {:induction false} DrainIni(env: Env, r: Reader)
    requires r.readingDSN && r.namePos <= |env.names|
    ensures var tail := Drain(env, r.(readingDSN := false, namePos := |env.names|));
            Drain(env, r) == (IniPairs(env, r.dsn, r.namePos) + tail.0, tail.1)
    decreases |env.names| - r.namePos
  {
    hide NextSegment, Drain;
    var i := NextName(env, r.dsn, r.namePos);
    SkipEmptyNames(env, r.dsn, r.namePos, i);
    var last := r.(readingDSN := false, namePos := |env.names|);
    if i < |env.names| {
      var p, next := Pair(env.names[i], env.ini(r.dsn, env.names[i])), r.(namePos := i + 1);
      assert next.(readingDSN := false, namePos := |env.names|) == last;
      DrainStep(env, r, next, p);
      DrainIni(env, next);
      assert [p] + (IniPairs(env, r.dsn, i + 1) + Drain(env, last).0)
          == ([p] + IniPairs(env, r.dsn, i + 1)) + Drain(env, last).0;
    } else {
      DrainSame(env, r, last);
      assert [] + Drain(env, last).0 == Drain(env, last).0;
    }
  }

  lemma {:induction false} SkipEmptyNames(env: Env, dsn: string, i: nat, k: nat)
    requires i <= |env.names| && k == NextName(env, dsn, i)
    ensures IniPairs(env, dsn, i) == IniPairs(env, dsn, k)
    decreases |env.names| - i
  {
    if i < |env.names| && env.ini(dsn, env.names[i]) == "" {
      SkipEmptyNames(env, dsn, i + 1, k);
    }
  }

  lemma DrainNothing(env: Env, dsn: string, namePos: nat, closed: bool)
    ensures Drain(env, Reader(TextOf([], closed), false, dsn, namePos)) == ([], End)
  {
  }

  /** With the names used up, a DSN adds nothing any more. */
  lemma {:induction false} DrainRest(env: Env, dsn: string, parts: seq<Part>, closed: bool)
    requires AllWritable(parts)
    ensures Drain(env, Reader(TextOf(parts, closed), false, dsn, |env.names|)) == (WithoutDsn(PairsOf(parts)), End)
    decreases |parts|
  {
    hide NextSegment, TextOf, EqualsIgnoreCase;
    if parts == [] {
      DrainNothing(env, dsn, |env.names|, closed);
    } else {
      TextSegment(parts, closed);
      var p, rest := parts[0].pair, parts[1..];
      assert PairsOf(parts) == [p] + PairsOf(rest);
      var r := Reader(TextOf(parts, closed), false, dsn, |env.names|);
      if IsDsn(p) {
        var r1 := Reader(TextOf(rest, closed), true, p.value, |env.names|);
        DrainRest(env, p.value, rest, closed);
        DrainIni(env, r1);
        DrainSame(env, r, r1);
      } else {
        DrainStep(env, r, r.(rest := TextOf(rest, closed)), p);
        DrainRest(env, dsn, rest, closed);
      }
    }
  }

  /**
   * A written list of pairs is emitted in order, its first DSN replaced by that DSN's non-empty ini properties in name
   * order and every later DSN dropped; then the stream ends normally.
   */
  lemma {:induction false} DrainExpands(env: Env, dsn: string, parts: seq<Part>, closed: bool)
    requires AllWritable(parts)
    ensures Drain(env, Reader(TextOf(parts, closed), false, dsn, 0)) == (Expand(env, PairsOf(parts)), End)
    decreases |parts|
  {
    hide NextSegment, TextOf, EqualsIgnoreCase;
    if parts == [] {
      DrainNothing(env, dsn, 0, closed);
    } else {
      TextSegment(parts, closed);
      var p, rest := parts[0].pair, parts[1..];
      assert PairsOf(parts) == [p] + PairsOf(rest);
      var r := Reader(TextOf(parts, closed), false, dsn, 0);
      if IsDsn(p) {
        var r1 := Reader(TextOf(rest, closed), true, p.value, 0);
        DrainIni(env, r1);
        DrainRest(env, p.value, rest, closed);
        DrainSame(env, r, r1);
      } else {
        DrainStep(env, r, r.(rest := TextOf(rest, closed)), p);
        DrainExpands(env, dsn, rest, closed);
      }
    }
  }

  /** The reader as init leaves it for a connection string. */
  function Opened(text: string): Reader {
    Reader(Some(text), false, "", 0)
  }

  /** The whole stream of a connection string, with blanks before its names and with or without a closing semicolon. */
  lemma StreamOfWritten(env: Env, parts: seq<Part>, closed: bool)
    requires AllWritable(parts)
    ensures Drain(env, Opened(Written(parts, closed))) == (Expand(env, PairsOf(parts)), End)
  {
    hide Drain, TextOf;
    DrainExpands(env, "", parts, closed);
    NothingWritten(closed);
    if parts == [] {
      DrainNothing(env, "", 0, true);
    } else {
      TextSegment(parts, closed);
    }
  }

  lemma NothingWritten(closed: bool)
    ensures Written([], closed) == "" && TextOf([], true) == Some("")
  {
  }

  function Plain(pairs: seq<Pair>): (r: seq<Part>)
    ensures |r| == |pairs| && forall i :: 0 <= i < |pairs| ==> r[i] == Part("", pairs[i])
  {
    seq(|pairs|, i requires 0 <= i < |pairs| => Part("", pairs[i]))
  }

  lemma {:induction false} JoinIsWritten(pairs: seq<Pair>)
    ensures Join(pairs) == Written(Plain(pairs), false)
    decreases |pairs|
  {
    hide Spell;
    if pairs != [] {
      JoinIsWritten(pairs[1..]);
      assert Plain(pairs)[1..] == Plain(pairs[1..]);
      assert "" + Spell(pairs[0]) == Spell(pairs[0]);
      assert |pairs| == 1 ==> Spell(pairs[0]) + "" == Spell(pairs[0]);
      assert |pairs| > 1 ==> Spell(pairs[0]) + ";" + Join(pairs[1..]) == Spell(pairs[0]) + (";" + Join(pairs[1..]));
    }
  }

  lemma StreamOfJoined(env: Env, pairs: seq<Pair>)
    requires AllSpellable(pairs)
    ensures Drain(env, Opened(Join(pairs))) == (Expand(env, pairs), End)
  {
    hide Drain, Written, Expand;
    JoinIsWritten(pairs);
    StreamOfWritten(env, Plain(pairs), false);
    assert PairsOf(Plain(pairs)) == pairs;
  }
}
