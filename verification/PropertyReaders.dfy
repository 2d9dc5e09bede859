/**
 * The property readers as the driver runs them: a shared name iterator that the ini reader advances, a connection
 * string reader that moves its position and switches to the ini reader at a DSN, and the loop that reads them.
 */
module PropertyReaders {
  import opened OdbcTypes
  import opened Texts
  import opened PropertySource
  import opened ConnProperties

  class ArrayIterator {
    const items: seq<string>
    var pos: nat

    constructor (items: seq<string>)
      ensures this.items == items && pos == 0
    {
      this.items := items;
      pos := 0;
    }

    predicate HasCurrent()
      reads this
    {
      pos < |items|
    }

    /** operator++ */
    method Advance() returns (more: bool)
      modifies this
      ensures pos == old(pos) + 1 && more == HasCurrent()
    {
      pos := pos + 1;
      more := pos < |items|;
    }
  }

  class IniPropertyReader {
    const ini: Profile
    const propData: ArrayIterator
    var dsn: string

    constructor (ini: Profile, propData: ArrayIterator)
      ensures this.ini == ini && this.propData == propData && dsn == ""
    {
      this.ini, this.propData, dsn := ini, propData, "";
    }

    method Init(dsn: string)
      modifies this`dsn
      ensures this.dsn == dsn
    {
      this.dsn := dsn;
    }

    /** The next non-empty property of the DSN's section, if the shared iterator still has one. */
    method Read() returns (pair: Option<Pair>)
      requires propData.pos <= |propData.items|
      modifies propData
      ensures var env := Env(propData.items, ini);
              var i := NextName(env, dsn, old(propData.pos));
              if i < |env.names| then
                propData.pos == i + 1 && pair == Some(Pair(env.names[i], ini(dsn, env.names[i])))
              else propData.pos == i && pair == None
    {
      ghost var env := Env(propData.items, ini);
      if !propData.HasCurrent() {
        return None;
      }
      while true
        invariant old(propData.pos) <= propData.pos < |propData.items|
        invariant NextName(env, dsn, propData.pos) == NextName(env, dsn, old(propData.pos))
        decreases |propData.items| - propData.pos
      {
        var name := propData.items[propData.pos];
        var value := ini(dsn, name);
        if value != "" {
          var _ := propData.Advance();
          return Some(Pair(name, value));
        }
        var more := propData.Advance();
        if !more {
          return None;
        }
      }
    }
  }

  class ConnStringPropertyReader {
    const iniReader: IniPropertyReader
    var connStr: string
    /** m_connStrp: the index of the next character to read, or null. */
    var connStrp: Option<nat>
    var readingDSN: bool

    constructor (ini: Profile, names: ArrayIterator, connStr: string)
      requires names.pos == 0
      ensures Valid() && GetEnv() == Env(names.items, ini) && AsReader() == Opened(connStr)
      ensures fresh(iniReader) && iniReader.propData == names
    {
      iniReader := new IniPropertyReader(ini, names);
      this.connStr := connStr;
      connStrp := Some(0);
      readingDSN := false;
    }

    ghost predicate Valid()
      reads this, iniReader, iniReader.propData
    {
      && (connStrp.Some? ==> connStrp.value <= |connStr|)
      && iniReader.propData.pos <= |iniReader.propData.items|
    }

    ghost function GetEnv(): Env
      reads this, iniReader
    {
      Env(iniReader.propData.items, iniReader.ini)
    }

    ghost function AsReader(): Reader
      requires Valid()
      reads this, iniReader, iniReader.propData
    {
      Reader(if connStrp == None then None else Some(connStr[connStrp.value..]), readingDSN, iniReader.dsn,
             iniReader.propData.pos)
    }

    /** The next `<key>=<value>` of the string: the position moves past it. */
    method TakeSegment() returns (seg: Segment)
      requires Valid() && connStrp.Some?
      modifies this`connStrp
      ensures Valid() && seg == NextSegment(old(connStr[connStrp.value..]))
      ensures if seg.Property? || seg.BadLength?
              then (if connStrp == None then None else Some(connStr[connStrp.value..])) == seg.rest
              else connStrp == old(connStrp)
    {
      hide Find, LeadingBlanks;
      if connStrp.value == |connStr| {
        return NoSegment;
      }
      var s := connStr[connStrp.value..];
      var semicolon, equal := Find(s, ';'), Find(s, '=');
      if equal == |s| {
        return MissingEquals;
      }
      var start := LeadingBlanks(s);
      BlanksBeforeEquals(s);
      var name := s[start..equal];
      var len;
      if semicolon < |s| {
        len := semicolon - (equal + 1);
        connStrp := Some(connStrp.value + semicolon + 1);
        assert connStr[connStrp.value..] == s[semicolon + 1..];
      } else {
        len := |s| - (equal + 1);
        connStrp := None;
      }
      var rest := if connStrp == None then None else Some(connStr[connStrp.value..]);
      if len >= 0 {
        return Property(Pair(name, s[equal + 1..equal + 1 + len]), rest);
      } else if len == SQL_NTS {
        return Property(Pair(name, s[equal + 1..]), rest);
      } else {
        return BadLength(rest);
      }
    }

    /** read: it calls itself once more when it has just met a DSN. */
    method Read() returns (out: Outcome)
      requires Valid()
      modifies this`connStrp, this`readingDSN, iniReader`dsn, iniReader.propData
      ensures Valid() && GetEnv() == old(GetEnv())
      ensures (AsReader(), out) == PropertySource.Read(GetEnv(), old(AsReader()))
      decreases if connStrp == None then 0 else |connStr| - connStrp.value, readingDSN
    {
      hide NextSegment, NextName, EqualsIgnoreCase;
      if readingDSN {
        var pair := iniReader.Read();
        if pair.Some? {
          return Emit(pair.value);
        }
        readingDSN := false;
      }
      if connStrp == None {
        return End;
      }
      var seg := TakeSegment();
      match seg
      case NoSegment => return End;
      case MissingEquals => return Malformed;
      case BadLength(_) => return Thrown;
      case Property(pair, _) =>
        if EqualsIgnoreCase(pair.name, "DSN") && pair.value != "" {
          iniReader.Init(pair.value);
          readingDSN := true;
          out := Read();
          return;
        }
        return Emit(pair);
    }
  }

  /** The scan of the hash map: `keys` are the keys of the table in whatever order it keeps them. */
  method LookupIgnoringCase(table: map<string, Known>, keys: seq<string>, name: string) returns (r: Option<Known>)
    requires CaseDistinct(table) && forall k :: k in table <==> k in keys
    requires ExactName(table, name) == None
    ensures r == Resolve(table, name)
  {
    var target := WithoutDashes(name);
    for i := 0 to |keys|
      invariant forall j :: 0 <= j < i ==> !EqualsIgnoreCase(target, keys[j])
    {
      if EqualsIgnoreCase(target, keys[i]) {
        assert keys[i] in table;
        ResolveIsAnyMatch(table, name, keys[i]);
        return Some(table[keys[i]]);
      }
    }
    assert forall k :: k in table ==> exists j :: 0 <= j < |keys| && keys[j] == k;
    return None;
  }

  /** readProperties over an opened connection string. */
  method ReadAll(cfg: Config, keys: seq<string>, reader: ConnStringPropertyReader, userName: Option<string>,
                 password: Option<string>, server: string, props: map<string, string>) returns (result: Result)
    requires reader.Valid()
    requires CaseDistinct(cfg.table) && forall k :: k in cfg.table <==> k in keys
    modifies reader`connStrp, reader`readingDSN, reader.iniReader`dsn, reader.iniReader.propData
    ensures result == ReadProperties(cfg, old(reader.GetEnv()), old(reader.AsReader()), userName, password, server,
                                     props)
  {
    hide Resolve, Apply, PropertySource.Read;
    ghost var env := reader.GetEnv();
    ghost var drained := Drain(env, reader.AsReader());
    var user := if userName.Some? then userName.value else "";
    if userName == Some("") {
      return Failed;
    }
    var passwd := if password.Some? then password.value else "";
    var s := Initial(server, user, passwd, props);
    ghost var target := Fold(cfg.table, s, drained.0);
    while true
      invariant reader.Valid() && reader.GetEnv() == env
      invariant Drain(env, reader.AsReader()).1 == drained.1
      invariant Fold(cfg.table, s, Drain(env, reader.AsReader()).0) == target
      decreases CharsLeft(reader.AsReader()), NamesLeft(env, reader.AsReader())
    {
      ghost var before := reader.AsReader();
      var out := reader.Read();
      if !out.Emit? {
        return if out == End then Finish(cfg, s) else Failed;
      }
      DrainStep(env, before, reader.AsReader(), out.pair);
      ghost var rest := Drain(env, reader.AsReader()).0;
      assert ([out.pair] + rest)[1..] == rest;
      var known := ExactName(cfg.table, out.pair.name);
      if known == None {
        known := LookupIgnoringCase(cfg.table, keys, out.pair.name);
      } else {
        ResolveExact(cfg.table, out.pair.name);
      }
      if known == None {
        s := s.(info := true);
      } else {
        var next := Apply(s, known.value, out.pair.value);
        if next == None {
          return Failed;
        }
        s := next.value;
      }
    }
  }

  lemma ResolveExact(table: map<string, Known>, name: string)
    requires ExactName(table, name).Some?
    ensures Resolve(table, name) == ExactName(table, name)
  {
  }
}
