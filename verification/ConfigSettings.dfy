/**
 * The configuration object of the setup dialog: its map is updated in place by the setters, packed and written to
 * odbc.ini, and filled again from there. Every method is proved against DsnSettings.
 */
module ConfigSettings {
  import opened Texts
  import opened SslProperties
  import opened DsnSettings

  /** odbc.ini: the sections of the data sources. */
  class OdbcIni {
    var sections: map<string, map<string, string>>

    constructor ()
      ensures sections == map[]
    {
      sections := map[];
    }

    /** SQLWriteDSNToIni: the old section is removed before the new one is created, unless the library refuses. */
    method WriteDsn(dsn: string, driver: string, accepts: bool) returns (written: bool)
      modifies this
      ensures written == accepts
      ensures sections == if accepts then old(sections)[dsn := map[DRIVER := driver]] else old(sections)
    {
      if accepts {
        sections := sections[dsn := map[DRIVER := driver]];
      }
      written := accepts;
    }

    method WriteString(dsn: string, key: string, value: string)
      requires dsn in sections
      modifies this
      ensures sections == old(sections)[dsn := old(sections)[dsn][key := value]]
    {
      sections := sections[dsn := sections[dsn][key := value]];
    }

    method RemoveDsn(dsn: string)
      modifies this
      ensures sections == old(sections) - {dsn}
    {
      sections := sections - {dsn};
    }
  }

  class Settings {
    var configuration: Config
    var driver: string
    var dsn: string
    var dsnOrig: string

    constructor ()
      ensures configuration == map[] && driver == "" && dsn == "" && dsnOrig == ""
    {
      configuration, driver, dsn, dsnOrig := map[], "", "", "";
    }

    /** m_configuration[key], which inserts an empty value for a missing key. */
    method At(key: string) returns (value: string)
      modifies this`configuration
      ensures configuration == Touch(old(configuration), key) && value == Get(old(configuration), key)
    {
      if key !in configuration {
        configuration := configuration[key := ""];
      }
      value := configuration[key];
    }

    method Set(key: string, value: string)
      modifies this`configuration
      ensures configuration == old(configuration)[key := value]
    {
      configuration := configuration[key := value];
    }

    /** The two-way part of SetSSLPropeties. */
    method AppendClientKeys(before: string) returns (text: string)
      modifies this`configuration
      ensures configuration == Touch(Touch(Touch(old(configuration), CERTIFICATE), KEYSTORE), KEYSTORE_PASSWORD)
      ensures text == ClientKeysText(old(configuration), before)
    {
      hide Get, Touch, Spelled;
      var certificate := At(CERTIFICATE);
      text := before + "," + Spelled(CERTIFICATE, certificate);
      var keystore := At(KEYSTORE);
      text := text + "," + Spelled(KEYSTORE, keystore);
      var keystorePwd := At(KEYSTORE_PASSWORD);
      if keystorePwd != "" {
        text := text + "," + Spelled(KEYSTORE_PASSWORD, keystorePwd);
      }
    }

    /** The part of SetSSLPropeties for any SSL connection. */
    method AppendStores() returns (text: string)
      modifies this`configuration
      ensures configuration == Touch(Touch(Touch(old(configuration), TWO_WAY), TRUSTSTORE), CIPHERS)
      ensures text == StoresText(old(configuration))
    {
      hide Touch, Spelled, Get;
      var twoWay := At(TWO_WAY);
      text := Spelled(TWO_WAY, twoWay);
      var trusted := At(TRUSTSTORE);
      if trusted != "" {
        text := text + "," + Spelled(TRUSTSTORE, trusted);
      }
      var ciphers := At(CIPHERS);
      if ciphers != "" {
        text := text + "," + Spelled(CIPHERS, ciphers);
      }
    }

    /** SetSSLPropeties. */
    method SetSslProperties()
      modifies this`configuration
      ensures configuration == WithSslProperties(old(configuration))
    {
      hide Pack, SslPieces, On, Touch, Spelled, Get, ClientKeysText, StoresText;
      ghost var c := configuration;
      SslTextIsPacked(c);
      var text := "";
      var mode := At(SSL_MODE);
      if On(mode) {
        TextsCongruent(c, configuration, "");
        text := AppendStores();
        TextsCongruent(c, configuration, text);
        TwoWayPresent(c);
        var twoWay := configuration[TWO_WAY];
        if On(twoWay) {
          text := AppendClientKeys(text);
        }
      }
      assert text == SslText(c);
      configuration := configuration[SSL_PROPERTIES := text];
    }

    /** The loop of WriteConfiguration over the map; a refused key is passed over. */
    method WriteKeys(ini: OdbcIni, refused: set<string>)
      requires dsn in ini.sections && ini.sections[dsn] == map[DRIVER := driver]
      modifies ini
      ensures ini.sections == old(ini.sections)[dsn := Section(configuration - refused, driver)]
    {
      var left := configuration.Keys;
      while left != {}
        invariant left <= configuration.Keys && dsn in ini.sections
        invariant ini.sections == old(ini.sections)[dsn := ini.sections[dsn]]
        invariant ini.sections[dsn] == map[DRIVER := driver] + (configuration - refused - NON_REGISTRY - left)
      {
        var key :| key in left;
        if key !in NON_REGISTRY && key !in refused {
          ini.WriteString(dsn, key, configuration[key]);
        }
        left := left - {key};
      }
      assert configuration - refused - NON_REGISTRY - {} == configuration - refused - NON_REGISTRY;
    }

    /**
     * WriteConfiguration. The library may refuse the data source, single keys, and the removal of the old name; only
     * the first stops the rest.
     */
    method WriteConfiguration(ini: OdbcIni, accepts: bool, refused: set<string>, removes: bool)
      modifies ini, this`dsnOrig
      ensures var renamed := accepts && old(dsnOrig) != "" && old(dsnOrig) != dsn && removes;
              var section := Section(configuration - refused, driver);
              var written := if accepts then old(ini.sections)[dsn := section] else old(ini.sections);
              && ini.sections == (if renamed then written - {old(dsnOrig)} else written)
              && dsnOrig == (if renamed then dsn else old(dsnOrig))
    {
      hide *;
      var written := ini.WriteDsn(dsn, driver, accepts);
      if written {
        WriteKeys(ini, refused);
        WrittenTwice(old(ini.sections), dsn, map[DRIVER := driver], Section(configuration - refused, driver));
        if dsnOrig != "" && dsnOrig != dsn && removes {
          ini.RemoveDsn(dsnOrig);
          dsnOrig := dsn;
        }
      }
    }

    /** ReadConfigurationDSN; false when splitting SSLProperties throws. */
    method ReadConfigurationDsn(ini: OdbcIni) returns (completed: bool)
      modifies this`configuration
      ensures (configuration, completed) == ReadDsn(old(configuration), dsn, ini.sections)
    {
      hide Unpack, On, Get, Touch;
      if dsn == "" {
        return true;
      }
      var section := NonEmpty(if dsn in ini.sections then ini.sections[dsn] else map[]);
      MergeSection(section);
      ghost var c := configuration;
      var error := At(AQP_ERROR);
      var any := error != "";
      if !any {
        var confidence := At(AQP_CONFIDENCE);
        TouchKeeps(c, AQP_ERROR, AQP_CONFIDENCE);
        any := confidence != "";
        if !any {
          var behavior := At(AQP_BEHAVIOR);
          TouchKeeps(c, AQP_ERROR, AQP_BEHAVIOR);
          TouchKeeps(Touch(c, AQP_ERROR), AQP_CONFIDENCE, AQP_BEHAVIOR);
          any := behavior != "";
        }
      }
      if any {
        Set(AQP_CHECK, "true");
      }
      assert configuration == WithAqp(c);
      var mode := At(SSL_MODE);
      TouchKeeps(WithAqp(c), SSL_MODE, SSL_MODE);
      if !On(mode) {
        return true;
      }
      var text := At(SSL_PROPERTIES);
      TouchKeeps(Touch(WithAqp(c), SSL_MODE), SSL_PROPERTIES, SSL_PROPERTIES);
      if text == "" {
        return true;
      }
      completed := EmplacePieces(text);
    }

    /** The loop over the settings read from the section; a read DSN key never clears the name. */
    method MergeSection(section: map<string, string>)
      requires forall k :: k in section ==> section[k] != ""
      modifies this`configuration
      ensures configuration == old(configuration) + section
    {
      var left := section.Keys;
      while left != {}
        invariant left <= section.Keys
        invariant configuration == old(configuration) + (section - left)
      {
        var key :| key in left;
        if DSN != key || section[key] != "" {
          configuration := configuration[key := section[key]];
        }
        left := left - {key};
      }
      assert section - {} == section;
    }

    /** The splitting loop over SSLProperties. */
    method EmplacePieces(text: string) returns (completed: bool)
      modifies this`configuration
      ensures configuration == Emplace(old(configuration), Unpack(text).pieces) && completed == Unpack(text).completed
    {
      hide Find;
      var rest := text;
      ghost var target := Emplace(configuration, Unpack(text).pieces);
      while true
        invariant Emplace(configuration, Unpack(rest).pieces) == target
        invariant Unpack(rest).completed == Unpack(text).completed
        decreases |rest|
      {
        var comma := Find(rest, ',');
        var equals := Find(rest[..comma], '=');
        if equals == comma && comma < |rest| {
          return false;
        }
        ghost var u := Unpack(rest);
        var key, value := rest, "";
        if equals < comma {
          key, value := rest[..equals], rest[equals + 1..comma];
          assert rest[..comma][..equals] == key && rest[..comma][equals + 1..] == value;
        }
        assert u.pieces[0] == Piece(key, value);
        if key !in configuration {
          configuration := configuration[key := value];
        }
        if comma == |rest| {
          return true;
        }
        assert u.pieces[1..] == Unpack(rest[comma + 1..]).pieces;
        rest := rest[comma + 1..];
      }
    }

    /** UpdateConfiguration: the given values override, and name and driver are remembered. */
    method UpdateConfiguration(values: map<string, string>)
      modifies this
      ensures configuration == old(configuration) + values
      ensures dsn == (if DSN in values then values[DSN] else old(dsn))
      ensures dsnOrig == (if DSN in values then values[DSN] else old(dsnOrig))
      ensures driver == (if DRIVER in values then values[DRIVER] else old(driver))
    {
      var left := values.Keys;
      while left != {}
        invariant left <= values.Keys
        invariant configuration == old(configuration) + (values - left)
        invariant dsn == (if DSN in values - left then values[DSN] else old(dsn))
        invariant dsnOrig == (if DSN in values - left then values[DSN] else old(dsnOrig))
        invariant driver == (if DRIVER in values - left then values[DRIVER] else old(driver))
      {
        var key :| key in left;
        OneMoreTaken(old(configuration), values, left, key);
        configuration := configuration[key := values[key]];
        if key == DSN {
          dsnOrig := values[key];
          dsn := dsnOrig;
        } else if key == DRIVER {
          driver := values[key];
        }
        left := left - {key};
      }
      assert values - {} == values;
    }
  }

  lemma OneMoreTaken(before: map<string, string>, values: map<string, string>, left: set<string>, key: string)
    requires key in left && left <= values.Keys
    ensures before + (values - (left - {key})) == (before + (values - left))[key := values[key]]
  {
  }

  lemma WrittenTwice<K, V>(m: map<K, V>, k: K, v: V, v': V)
    ensures m[k := v][k := v'] == m[k := v']
  {
  }

  function ReadDsn(c: Config, dsn: string, sections: map<string, map<string, string>>): (Config, bool) {
    if dsn == "" then (c, true) else Load(c, if dsn in sections then sections[dsn] else map[])
  }

  function Spelled(key: string, value: string): (r: string)
    ensures r == SpellPiece(Piece(key, value))
  {
    key + "=" + value
  }

  function ClientKeysText(c: Config, before: string): string {
    var keys := before + "," + Spelled(CERTIFICATE, Get(c, CERTIFICATE)) + "," + Spelled(KEYSTORE, Get(c, KEYSTORE));
    if Get(c, KEYSTORE_PASSWORD) != "" then keys + "," + Spelled(KEYSTORE_PASSWORD, Get(c, KEYSTORE_PASSWORD)) else keys
  }

  function StoresText(c: Config): string {
    var t0 := Spelled(TWO_WAY, Get(c, TWO_WAY));
    var t1 := if Get(c, TRUSTSTORE) != "" then t0 + "," + Spelled(TRUSTSTORE, Get(c, TRUSTSTORE)) else t0;
    if Get(c, CIPHERS) != "" then t1 + "," + Spelled(CIPHERS, Get(c, CIPHERS)) else t1
  }

  /** The text SetSSLPropeties appends together. */
  function SslText(c: Config): string {
    if !On(Get(c, SSL_MODE)) then ""
    else if On(Get(c, TWO_WAY)) then ClientKeysText(c, StoresText(c))
    else StoresText(c)
  }

  /** Inserting empty values changes no text. */
  lemma TextsCongruent(c: Config, c': Config, before: string)
    requires forall k :: Get(c', k) == Get(c, k)
    ensures StoresText(c') == StoresText(c) && ClientKeysText(c', before) == ClientKeysText(c, before)
  {
    hide Get, Spelled;
  }

  /** It is the packed list of the pieces. */
  lemma SslTextIsPacked(c: Config)
    ensures SslText(c) == Pack(SslPieces(c))
  {
    hide Pack, On, Kept, SpellPiece, Get;
    if On(Get(c, SSL_MODE)) {
      var all := Candidates(c);
      PackStart(all);
      PackStep(all, 1);
      PackStep(all, 2);
      PackStep(all, 3);
      PackStep(all, 4);
      PackStep(all, 5);
      assert all[..6] == all;
    } else {
      PackNone();
    }
  }

  lemma TwoWayPresent(c: Config)
    ensures var m := Touch(Touch(Touch(Touch(c, SSL_MODE), TWO_WAY), TRUSTSTORE), CIPHERS);
            TWO_WAY in m && m[TWO_WAY] == Get(c, TWO_WAY)
  {
    hide Touch;
    var m := Touch(Touch(Touch(Touch(c, SSL_MODE), TWO_WAY), TRUSTSTORE), CIPHERS);
    assert Get(m, TWO_WAY) == Get(c, TWO_WAY);
  }

  lemma TouchKeeps(c: Config, k: string, x: string)
    ensures Get(Touch(c, k), x) == Get(c, x)
  {
  }

  lemma PackNone()
    ensures Pack([]) == ""
  {
  }

  /** The first candidate starts the text. */
  lemma PackStart(all: seq<Candidate>)
    requires all != [] && all[0].keep
    ensures SpellPiece(all[0].piece) == Pack(Kept(all[..1])) && Kept(all[..1]) != []
  {
    assert all[..1] == [all[0]];
    assert Kept(all[..1]) == [all[0].piece];
  }

  lemma {:induction false} KeptAppend(xs: seq<Candidate>, x: Candidate)
    ensures Kept(xs + [x]) == Kept(xs) + (if x.keep then [x.piece] else [])
    decreases |xs|
  {
    if xs == [] {
      assert [] + [x] == [x];
    } else {
      assert (xs + [x])[1..] == xs[1..] + [x];
      KeptAppend(xs[1..], x);
    }
  }

  /** A further candidate is appended behind a comma, if it is kept. */
  lemma PackStep(all: seq<Candidate>, i: nat)
    requires 1 <= i < |all| && Kept(all[..i]) != []
    ensures Kept(all[..i + 1]) != []
    ensures Pack(Kept(all[..i + 1]))
         == if all[i].keep then Pack(Kept(all[..i])) + "," + SpellPiece(all[i].piece) else Pack(Kept(all[..i]))
  {
    hide Pack, Kept, SpellPiece;
    assert all[..i + 1] == all[..i] + [all[i]];
    KeptAppend(all[..i], all[i]);
    if all[i].keep {
      PackAppends(Kept(all[..i]), all[i].piece);
    } else {
      assert Kept(all[..i]) + [] == Kept(all[..i]);
    }
  }
}
