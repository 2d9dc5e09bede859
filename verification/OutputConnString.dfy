/**
 * The output connection string: connectT prints server, port and the property map, and the reader of connection
 * strings takes the text back to the same server, port and map.
 */
module OutputConnString {
  import opened OdbcTypes
  import opened Texts
  import opened PropertySource
  import opened Decimals
  import opened ConnProperties
  import opened OdbcIniKeys

  function Items(keys: seq<string>, props: map<string, string>): (r: seq<Pair>)
    requires forall k :: k in keys ==> k in props
    ensures |r| == |keys| && forall i :: 0 <= i < |keys| ==> r[i] == Pair(keys[i], props[keys[i]])
  {
    seq(|keys|, i requires 0 <= i < |keys| => Pair(keys[i], props[keys[i]]))
  }

  /** Everything the output string spells, in order. */
  function PrintedPairs(server: string, port: nat, keys: seq<string>, props: map<string, string>): seq<Pair>
    requires forall k :: k in keys ==> k in props
  {
    [Pair("server", server), Pair("port", ToDecimal(port))] + Items(keys, props)
  }

  lemma {:induction false} JoinAppends(pairs: seq<Pair>, p: Pair)
    requires pairs != []
    ensures Join(pairs + [p]) == Join(pairs) + ";" + Spell(p)
    decreases |pairs|
  {
    hide Spell;
    var rest := pairs[1..];
    assert (pairs + [p])[1..] == rest + [p];
    if |pairs| > 1 {
      JoinAppends(rest, p);
      ConcatAssociates(Spell(pairs[0]) + ";", Join(rest) + ";", Spell(p));
      ConcatAssociates(Spell(pairs[0]) + ";", Join(rest), ";");
    }
  }

  /** The printing loop of connectT; `keys` is the order in which the map is walked. */
  method PrintConnString(server: string, port: nat, keys: seq<string>, props: map<string, string>)
      returns (connStr: string)
    requires forall k :: k in keys ==> k in props
    ensures connStr == Join(PrintedPairs(server, port, keys, props))
  {
    connStr := "server=" + server + ";port=" + ToDecimal(port);
    ghost var pairs := PrintedPairs(server, port, keys, props);
    assert connStr == Join(pairs[..2]) by {
      assert pairs[..2] == [pairs[0]] + [pairs[1]];
      JoinAppends([pairs[0]], pairs[1]);
      assert "server=" + server + ";port=" + ToDecimal(port)
          == "server" + "=" + server + ";" + ("port" + "=" + ToDecimal(port));
    }
    for i := 0 to |keys|
      invariant connStr == Join(pairs[..2 + i])
    {
      JoinAppends(pairs[..2 + i], pairs[2 + i]);
      assert pairs[..2 + i] + [pairs[2 + i]] == pairs[..2 + (i + 1)];
      connStr := connStr + ";" + keys[i] + "=" + props[keys[i]];
      assert pairs[2 + i] == Pair(keys[i], props[keys[i]]);
    }
    assert pairs[..2 + |keys|] == pairs;
  }

  // ----- reading it back -----

  ghost predicate RoleOf(table: map<string, Known>, k: string, role: Role) {
    Resolve(table, k).Some? && Resolve(table, k).value.role == role
  }

  /**
   * A property that survives printing: a spellable name other than DSN that the table resolves to itself, or the
   * user or password entry, which is stored only when it is not empty.
   */
  ghost predicate Printable(cfg: Config, k: string, v: string) {
    && Spellable(Pair(k, v)) && !EqualsIgnoreCase(k, "DSN")
    && (|| Resolve(cfg.table, k) == Some(Known(k, PlainRole))
        || (k == cfg.userKey && RoleOf(cfg.table, k, UserRole) && v != "")
        || (k == cfg.passwordKey && RoleOf(cfg.table, k, PasswordRole) && v != ""))
  }

  /** The names "server" and "port" lead to their roles. */
  ghost predicate Usable(cfg: Config) {
    RoleOf(cfg.table, "server", ServerRole) && RoleOf(cfg.table, "port", PortRole)
  }

  lemma {:induction false} NoDsnNoExpansion(env: Env, pairs: seq<Pair>)
    requires forall i :: 0 <= i < |pairs| ==> !IsDsn(pairs[i])
    ensures Expand(env, pairs) == pairs
    decreases |pairs|
  {
    hide EqualsIgnoreCase;
    if pairs != [] {
      NoDsnNoExpansion(env, pairs[1..]);
    }
  }

  /** The plain items among `keys` are in the map, and everything else is as before. */
  ghost predicate ExtendsProps(table: map<string, Known>, before: map<string, string>, after: map<string, string>,
                               keys: seq<string>, props: map<string, string>)
    requires forall k :: k in keys ==> k in props
  {
    && (forall k :: k in after <==> k in before || (k in keys && RoleOf(table, k, PlainRole)))
    && (forall k :: k in after ==>
          after[k] == if k in keys && RoleOf(table, k, PlainRole) then props[k] else before[k])
  }

  /** A credential that was empty has the value of its item, if that is among `keys`. */
  ghost predicate ExtendsCredential(table: map<string, Known>, key: string, role: Role, before: string, after: string,
                                    keys: seq<string>, props: map<string, string>)
    requires forall k :: k in keys ==> k in props
  {
    after == if before == "" && key in keys && RoleOf(table, key, role) then props[key] else before
  }

  /** What the items from `keys` on add to the settings. */
  ghost predicate Extends(cfg: Config, s: Settings, r: Settings, keys: seq<string>, props: map<string, string>)
    requires forall k :: k in keys ==> k in props
  {
    && r == s.(user := r.user, passwd := r.passwd, props := r.props)
    && ExtendsProps(cfg.table, s.props, r.props, keys, props)
    && ExtendsCredential(cfg.table, cfg.userKey, UserRole, s.user, r.user, keys, props)
    && ExtendsCredential(cfg.table, cfg.passwordKey, PasswordRole, s.passwd, r.passwd, keys, props)
  }

  lemma StepExtends(cfg: Config, s: Settings, k: string, props: map<string, string>)
    requires k in props && Printable(cfg, k, props[k])
    ensures Step(cfg.table, s, Pair(k, props[k])).Some?
    ensures Extends(cfg, s, Step(cfg.table, s, Pair(k, props[k])).value, [k], props)
  {
    hide Resolve, Spellable, EqualsIgnoreCase, DriverAccepted, PortAccepted, PortValue;
    if RoleOf(cfg.table, k, PlainRole) {
    } else if RoleOf(cfg.table, k, UserRole) {
    } else {
    }
  }

  lemma PropsCompose(table: map<string, Known>, before: map<string, string>, between: map<string, string>,
                     after: map<string, string>, keys: seq<string>, props: map<string, string>)
    requires keys != [] && forall k :: k in keys ==> k in props
    requires ExtendsProps(table, before, between, [keys[0]], props)
    requires ExtendsProps(table, between, after, keys[1..], props)
    ensures ExtendsProps(table, before, after, keys, props)
  {
    hide RoleOf;
    assert forall k :: k in keys <==> k == keys[0] || k in keys[1..];
  }

  lemma CredentialCompose(table: map<string, Known>, key: string, role: Role, before: string, between: string,
                          after: string, keys: seq<string>, props: map<string, string>)
    requires keys != [] && forall k :: k in keys ==> k in props
    requires key in keys && RoleOf(table, key, role) ==> props[key] != ""
    requires ExtendsCredential(table, key, role, before, between, [keys[0]], props)
    requires ExtendsCredential(table, key, role, between, after, keys[1..], props)
    ensures ExtendsCredential(table, key, role, before, after, keys, props)
  {
    hide RoleOf;
    assert key in keys <==> key == keys[0] || key in keys[1..];
  }

  lemma ExtendsCompose(cfg: Config, s: Settings, s1: Settings, r: Settings, keys: seq<string>,
                       props: map<string, string>)
    requires keys != [] && forall k :: k in keys ==> k in props && Printable(cfg, k, props[k])
    requires Extends(cfg, s, s1, [keys[0]], props) && Extends(cfg, s1, r, keys[1..], props)
    ensures Extends(cfg, s, r, keys, props)
  {
    hide RoleOf, Printable, ExtendsProps, ExtendsCredential;
    PropsCompose(cfg.table, s.props, s1.props, r.props, keys, props);
    CredentialFilled(cfg, keys, props);
    CredentialCompose(cfg.table, cfg.userKey, UserRole, s.user, s1.user, r.user, keys, props);
    CredentialCompose(cfg.table, cfg.passwordKey, PasswordRole, s.passwd, s1.passwd, r.passwd, keys, props);
  }

  lemma CredentialFilled(cfg: Config, keys: seq<string>, props: map<string, string>)
    requires forall k :: k in keys ==> k in props && Printable(cfg, k, props[k])
    ensures cfg.userKey in keys && RoleOf(cfg.table, cfg.userKey, UserRole) ==> props[cfg.userKey] != ""
    ensures cfg.passwordKey in keys && RoleOf(cfg.table, cfg.passwordKey, PasswordRole) ==> props[cfg.passwordKey] != ""
  {
    hide Resolve, Spellable, EqualsIgnoreCase;
  }

  lemma {:induction false} FoldItems(cfg: Config, s: Settings, keys: seq<string>, props: map<string, string>)
    requires forall k :: k in keys ==> k in props && Printable(cfg, k, props[k])
    ensures Fold(cfg.table, s, Items(keys, props)).Some?
    ensures Extends(cfg, s, Fold(cfg.table, s, Items(keys, props)).value, keys, props)
    decreases |keys|
  {
    hide Printable, Step;
    if keys != [] {
      StepExtends(cfg, s, keys[0], props);
      var s1 := Step(cfg.table, s, Pair(keys[0], props[keys[0]])).value;
      FoldItems(cfg, s1, keys[1..], props);
      assert Items(keys, props)[1..] == Items(keys[1..], props);
      ExtendsCompose(cfg, s, s1, Fold(cfg.table, s1, Items(keys[1..], props)).value, keys, props);
    }
  }

  /**
   * For a semicolon-free server, a positive port and printable properties, walked in any order, readProperties on
   * the output connection string returns the same server, port and property map, without information.
   */
  lemma OutputStringReadsBack(cfg: Config, env: Env, server: string, port: nat, keys: seq<string>,
                              props: map<string, string>)
    requires Usable(cfg) && ';' !in server && 0 < port < TWO_31
    requires forall k :: k in keys <==> k in props
    requires forall k :: k in props ==> Printable(cfg, k, props[k])
    ensures ReadProperties(cfg, env, Opened(Join(PrintedPairs(server, port, keys, props))), None, None, "", map[])
         == Connectable(server, port, props, Success)
  {
    hide Resolve, Join, Drain, EqualsIgnoreCase;
    var pairs := PrintedPairs(server, port, keys, props);
    PrintedSpellable(cfg, server, port, keys, props);
    StreamOfJoined(env, pairs);
    NoDsnNoExpansion(env, pairs);
    var s0 := Initial("", "", "", map[]);
    FoldHead(cfg, s0, server, port, Items(keys, props));
    var s2 := s0.(server := server, port := port);
    FoldItems(cfg, s2, keys, props);
    FinishRestores(cfg, s2, Fold(cfg.table, s2, Items(keys, props)).value, keys, props);
  }

  lemma PrintedSpellable(cfg: Config, server: string, port: nat, keys: seq<string>, props: map<string, string>)
    requires ';' !in server && forall k :: k in keys ==> k in props && Printable(cfg, k, props[k])
    ensures var pairs := PrintedPairs(server, port, keys, props);
            AllSpellable(pairs) && forall i :: 0 <= i < |pairs| ==> !IsDsn(pairs[i])
  {
    var pairs := PrintedPairs(server, port, keys, props);
    assert |Lower("server")| == 6 && |Lower("port")| == 4 && |Lower("DSN")| == 3;
    forall i | 0 <= i < |pairs|
      ensures Spellable(pairs[i]) && !IsDsn(pairs[i])
    {
      if i >= 2 {
        assert pairs[i] == Pair(keys[i - 2], props[keys[i - 2]]);
      }
    }
  }

  lemma FoldHead(cfg: Config, s: Settings, server: string, port: nat, rest: seq<Pair>)
    requires Usable(cfg) && port < TWO_31
    ensures Fold(cfg.table, s, [Pair("server", server), Pair("port", ToDecimal(port))] + rest)
         == Fold(cfg.table, s.(server := server, port := port), rest)
  {
    hide Resolve;
    DecimalRoundTrip(port);
    var pairs := [Pair("server", server), Pair("port", ToDecimal(port))] + rest;
    assert pairs[1..][1..] == rest;
    assert Step(cfg.table, s, pairs[0]) == Some(s.(server := server));
    assert Step(cfg.table, s.(server := server), pairs[1..][0]) == Some(s.(server := server, port := port));
  }

  lemma FinishRestores(cfg: Config, s: Settings, r: Settings, keys: seq<string>, props: map<string, string>)
    requires Usable(cfg) && s.user == s.passwd == "" && s.props == map[] && !s.info && s.port > 0
    requires forall k :: k in keys <==> k in props
    requires forall k :: k in props ==> Printable(cfg, k, props[k])
    requires Extends(cfg, s, r, keys, props)
    ensures Finish(cfg, r) == Connectable(s.server, s.port, props, Success)
  {
    hide Resolve, Spellable, EqualsIgnoreCase;
    var got := Finish(cfg, r).props;
    forall k
      ensures k in got <==> k in props
      ensures k in got ==> got[k] == props[k]
    {
      if k in props {
        assert Printable(cfg, k, props[k]);
      }
    }
    assert got == props;
  }

  // ----- the driver's own table -----

  /** What init gives the keys whose flags it sets itself; the other roles and names come from the native client. */
  predicate DriverProps(props: seq<Known>) {
    && |props| == |KEYS| == KEY_COUNT
    && props[0].role == DriverRole && props[1].role == ServerRole && props[2].role == PortRole
    && props[6].role == UserRole && props[7].role == PasswordRole
  }

  /** The names under which user and password are stored are those of the keys UID and PWD. */
  function DriverConfig(props: seq<Known>): Config
    requires DriverProps(props)
  {
    Config(TableOf(props, KEY_COUNT), props[6].connName, props[7].connName)
  }

  /** A user or password that is read goes to where the properties UID and PWD are kept. */
  lemma CredentialKeys(props: seq<Known>)
    requires DriverProps(props)
    ensures var cfg := DriverConfig(props);
            && Resolve(cfg.table, "UID") == Some(Known(cfg.userKey, UserRole))
            && Resolve(cfg.table, "PWD") == Some(Known(cfg.passwordKey, PasswordRole))
  {
    hide TableOf;
    assert KEYS[6] == "UID" && KEYS[7] == "PWD";
    TableEntries(props, KEY_COUNT);
  }

  lemma PlainNames()
    ensures |KEYS| == KEY_COUNT && KEYS[1] == "Server" && KEYS[2] == "Port"
    ensures EqualsIgnoreCase("server", "Server") && EqualsIgnoreCase("port", "Port")
    ensures WithoutDashes("server") == "server" && WithoutDashes("port") == "port"
    ensures !StartsWith("server", "snappydata.") && !StartsWith("server", "spark.")
    ensures !StartsWith("port", "snappydata.") && !StartsWith("port", "spark.")
  {

    assert Lower("server") == Lower("Server") && Lower("port") == Lower("Port");
    assert "server"[..6] != "spark." by {
      assert "server"[..6][1] == 'e';
    }
  }

  /** A lower-case name that differs from its key is no key itself, so it is found by the case-insensitive scan. */
  lemma LowerNameResolves(props: seq<Known>, name: string, i: nat)
    requires |props| == |KEYS| == KEY_COUNT && i < KEY_COUNT
    requires EqualsIgnoreCase(name, KEYS[i]) && name != KEYS[i] && WithoutDashes(name) == name
    requires !StartsWith(name, "snappydata.") && !StartsWith(name, "spark.")
    ensures Resolve(TableOf(props, KEY_COUNT), name) == Some(props[i])
  {
    hide KEYS, EqualsIgnoreCase, TableOf, Resolve, StartsWith;
    TableEntries(props, KEY_COUNT);
    if name in TableOf(props, KEY_COUNT) {
      var j :| 0 <= j < KEY_COUNT && KEYS[j] == name;
      KeysDiffer(j, i);
      assert false;
    }
    KeyResolvesInAnyCase(props, name, i);
  }

  /** The lower-case names that connectT prints lead to the server and port roles of the table init builds. */
  lemma DriverTableUsable(props: seq<Known>)
    requires DriverProps(props)
    ensures Usable(DriverConfig(props))
  {
    hide KEYS, EqualsIgnoreCase, TableOf, Resolve, WithoutDashes, StartsWith;
    PlainNames();
    LowerNameResolves(props, "server", 1);
    LowerNameResolves(props, "port", 2);
  }

  /** With the table the driver builds, the output connection string of any printable property map reads back. */
  lemma DriverStringReadsBack(props: seq<Known>, env: Env, server: string, port: nat, keys: seq<string>,
                              stored: map<string, string>)
    requires DriverProps(props) && ';' !in server && 0 < port < TWO_31
    requires forall k :: k in keys <==> k in stored
    requires forall k :: k in stored ==> Printable(DriverConfig(props), k, stored[k])
    ensures
      var text := Join(PrintedPairs(server, port, keys, stored));
      ReadProperties(DriverConfig(props), env, Opened(text), None, None, "", map[])
      == Connectable(server, port, stored, Success)
  {
    hide KEYS, TableOf, Printable, Usable;
    DriverTableUsable(props);
    OutputStringReadsBack(DriverConfig(props), env, server, port, keys, stored);
  }
}
