/**
 * The settings of a DSN: what the configuration dialog keeps in one map is saved to odbc.ini and loaded again. Some
 * settings are not stored under their own key but packed into SSLProperties, or derived on load.
 */
module DsnSettings {
  import opened Texts
  import opened SslProperties

  type Config = map<string, string>

  const DRIVER: string := "Driver"
  const DSN: string := "DSN"
  const AQP_ERROR: string := "spark.sql.aqp.error"
  const AQP_BEHAVIOR: string := "spark.sql.aqp.behavior"
  const AQP_CONFIDENCE: string := "spark.sql.aqp.confidence"
  const SSL_MODE: string := "SSLMode"
  const SSL_PROPERTIES: string := "SSLProperties"
  const TRUSTSTORE: string := "truststore"
  const AQP_CHECK: string := "aqp"
  const TWO_WAY: string := "client-auth"
  const CERTIFICATE: string := "certificate"
  const KEYSTORE: string := "keystore"
  const KEYSTORE_PASSWORD: string := "keystore-password"
  const CIPHERS: string := "cipher-suites"

  /** s_nonRegistryKeys */
  const NON_REGISTRY: set<string> :=
    {DSN, AQP_CHECK, TWO_WAY, CIPHERS, TRUSTSTORE, CERTIFICATE, KEYSTORE, KEYSTORE_PASSWORD}

  /** What a getter returns: the empty string for a missing key. */
  function Get(c: Config, k: string): string {
    if k in c then c[k] else ""
  }

  /** operator[] used as a read inserts an empty value. */
  function Touch(c: Config, k: string): (r: Config)
    ensures r.Keys == c.Keys + {k} && forall x :: Get(r, x) == Get(c, x)
  {
    if k in c then c else c[k := ""]
  }

  predicate On(value: string) {
    Lower(value) == "true"
  }

  // ----- saving -----

  /** What may go into SSLProperties, in order, and whether it does. */
  function Candidates(c: Config): (r: seq<Candidate>)
    ensures |r| == 6
  {
    [ Candidate(true, Piece(TWO_WAY, Get(c, TWO_WAY))),
      Candidate(Get(c, TRUSTSTORE) != "", Piece(TRUSTSTORE, Get(c, TRUSTSTORE))),
      Candidate(Get(c, CIPHERS) != "", Piece(CIPHERS, Get(c, CIPHERS))),
      Candidate(On(Get(c, TWO_WAY)), Piece(CERTIFICATE, Get(c, CERTIFICATE))),
      Candidate(On(Get(c, TWO_WAY)), Piece(KEYSTORE, Get(c, KEYSTORE))),
      Candidate(On(Get(c, TWO_WAY)) && Get(c, KEYSTORE_PASSWORD) != "",
                Piece(KEYSTORE_PASSWORD, Get(c, KEYSTORE_PASSWORD)))]
  }

  function SslPieces(c: Config): seq<Piece> {
    if On(Get(c, SSL_MODE)) then Kept(Candidates(c)) else []
  }

  /** The section of the DSN after WriteConfiguration. */
  function Section(c: Config, driver: string): map<string, string> {
    map[DRIVER := driver] + (c - NON_REGISTRY)
  }

  // ----- loading -----

  /** ReadSettings drops keys and values that are empty. */
  function NonEmpty(section: map<string, string>): map<string, string> {
    map k | k in section && k != "" && section[k] != "" :: section[k]
  }

  /** emplace: an existing key keeps its value. */
  function Emplace(c: Config, pieces: seq<Piece>): Config
    decreases |pieces|
  {
    if pieces == [] then c
    else
      var p := pieces[0];
      Emplace(if p.key in c then c else c[p.key := p.value], pieces[1..])
  }

  predicate HasAqp(c: Config) {
    Get(c, AQP_ERROR) != "" || Get(c, AQP_CONFIDENCE) != "" || Get(c, AQP_BEHAVIOR) != ""
  }

  /** The AQP flag is set when some AQP value is there; looking for one stops at the first. */
  function WithAqp(c: Config): Config {
    var c1 := Touch(c, AQP_ERROR);
    var c2 := if Get(c, AQP_ERROR) != "" then c1 else Touch(c1, AQP_CONFIDENCE);
    var c3 := if Get(c, AQP_ERROR) != "" || Get(c, AQP_CONFIDENCE) != "" then c2 else Touch(c2, AQP_BEHAVIOR);
    if HasAqp(c) then c3[AQP_CHECK := "true"] else c3
  }

  /** ReadConfigurationDSN; the flag says whether it ran to its end. */
  function Load(c: Config, section: map<string, string>): (Config, bool) {
    var c1 := Touch(WithAqp(c + NonEmpty(section)), SSL_MODE);
    if !On(Get(c1, SSL_MODE)) then (c1, true)
    else
      var c2 := Touch(c1, SSL_PROPERTIES);
      if Get(c2, SSL_PROPERTIES) == "" then (c2, true)
      else
        var u := Unpack(Get(c2, SSL_PROPERTIES));
        (Emplace(c2, u.pieces), u.completed)
  }

  /** The configuration a dialog starts from: only the name of the DSN is known. */
  function Fresh(dsn: string): Config {
    map[DSN := dsn]
  }

  /** SetSSLPropeties: every setting that is looked at exists afterwards. */
  function WithSslProperties(c: Config): Config {
    var c1 := Touch(c, SSL_MODE);
    var c2 := if On(Get(c, SSL_MODE)) then Touch(Touch(Touch(c1, TWO_WAY), TRUSTSTORE), CIPHERS) else c1;
    var c3 := if On(Get(c, SSL_MODE)) && On(Get(c, TWO_WAY))
              then Touch(Touch(Touch(c2, CERTIFICATE), KEYSTORE), KEYSTORE_PASSWORD) else c2;
    c3[SSL_PROPERTIES := Pack(SslPieces(c))]
  }

  /** Saving a configuration and loading it into another one. */
  function SaveAndLoad(c: Config, driver: string, into: Config): (Config, bool) {
    Load(into, Section(WithSslProperties(c), driver))
  }

  // ----- the round trip -----

  /** The settings that only exist inside SSLProperties. */
  const SSL_KEYS: set<string> := {TWO_WAY, TRUSTSTORE, CIPHERS, CERTIFICATE, KEYSTORE, KEYSTORE_PASSWORD}

  lemma {:induction false} EmplaceValue(c: Config, pieces: seq<Piece>, k: string)
    ensures Get(Emplace(c, pieces), k) ==
      if k in c then c[k] else FirstValue(pieces, k)
    decreases |pieces|
  {
    if pieces != [] {
      var p := pieces[0];
      EmplaceValue(if p.key in c then c else c[p.key := p.value], pieces[1..], k);
    }
  }

  /** The value of an SSL setting that packing keeps: those of client certificates only in two-way mode. */
  function Packed(c: Config, k: string): string {
    if !On(Get(c, SSL_MODE)) then ""
    else if k in {TWO_WAY, TRUSTSTORE, CIPHERS} then Get(c, k)
    else if On(Get(c, TWO_WAY)) then Get(c, k)
    else ""
  }

  /** The names of the packed settings, in packing order. */
  function SslNames(): (r: seq<string>)
    ensures |r| == 6
  {
    [TWO_WAY, TRUSTSTORE, CIPHERS, CERTIFICATE, KEYSTORE, KEYSTORE_PASSWORD]
  }

  lemma SslNamesDistinct()
    ensures forall i, j :: 0 <= i < j < 6 ==> SslNames()[i] != SslNames()[j]
  {
    var n := SslNames();
    assert |n[0]| == 11 && |n[1]| == 10 && |n[2]| == 13 && |n[3]| == 11 && |n[4]| == 8 && |n[5]| == 17;
    assert n[0][1] == 'l' && n[3][1] == 'e';
  }

  lemma SslNamesProper()
    ensures forall i :: 0 <= i < 6 ==> ',' !in SslNames()[i] && '=' !in SslNames()[i] && SslNames()[i] in SSL_KEYS
  {
  }

  lemma CandidatesProper(c: Config)
    ensures DistinctKeys(Candidates(c))
    ensures forall i :: 0 <= i < 6 ==> ProperKey(Candidates(c)[i].piece) && Candidates(c)[i].piece.key in SSL_KEYS
  {
    hide Get, On, SslNames, Candidates;
    SslNamesDistinct();
    SslNamesProper();
    CandidateNames(c);
  }

  lemma CandidateNames(c: Config)
    ensures forall i :: 0 <= i < 6 ==> Candidates(c)[i].piece.key == SslNames()[i]
  {
    hide Get, On;
  }

  /** Every SSL setting is packed with the value that packing keeps, and nothing else is. */
  lemma PiecesKeep(c: Config, k: string)
    ensures FirstValue(SslPieces(c), k) == if k in SSL_KEYS then Packed(c, k) else ""
  {
    hide Kept, FirstValue, On, Get, DistinctKeys, ProperKey;
    CandidatesProper(c);
    var all := Candidates(c);
    if !On(Get(c, SSL_MODE)) {
      NoSuchKey([], k);
      assert Kept([]) == [] by { NothingKept(); }
    } else if k in SSL_KEYS {
      var i := if k == TWO_WAY then 0 else if k == TRUSTSTORE then 1 else if k == CIPHERS then 2
               else if k == CERTIFICATE then 3 else if k == KEYSTORE then 4 else 5;
      assert all[i].piece.key == k;
      KeptValue(all, i);
    } else {
      NoSuchKey(all, k);
    }
  }

  lemma NothingKept()
    ensures Kept([]) == []
  {
  }

  lemma PiecesProper(c: Config)
    ensures ProperKeys(SslPieces(c))
    ensures SslPieces(c) != [] <==> On(Get(c, SSL_MODE))
  {
    hide On, Get, DistinctKeys, ProperKey;
    CandidatesProper(c);
    forall j | 0 <= j < |SslPieces(c)|
      ensures ProperKey(SslPieces(c)[j])
    {
      KeptOnly(Candidates(c), j);
    }
  }

  predicate CommaFree(pieces: seq<Piece>) {
    forall i :: 0 <= i < |pieces| ==> ',' !in pieces[i].value
  }

  /** The merged configuration before the derived settings are filled in. */
  function Merged(c: Config, driver: string, into: Config): Config {
    into + NonEmpty(Section(WithSslProperties(c), driver))
  }

  lemma WithSslPropertiesValue(c: Config, k: string)
    ensures Get(WithSslProperties(c), k) == if k == SSL_PROPERTIES then Pack(SslPieces(c)) else Get(c, k)
  {
    hide Pack, SslPieces, On;
  }

  lemma SectionValue(c: Config, driver: string, k: string)
    ensures k !in NON_REGISTRY && k !in {DRIVER, ""} ==>
      (k in NonEmpty(Section(c, driver)) <==> Get(c, k) != "")
      && (Get(c, k) != "" ==> NonEmpty(Section(c, driver))[k] == Get(c, k))
    ensures k in NON_REGISTRY ==> k !in NonEmpty(Section(c, driver))
  {
    KeysDistinct();
  }

  lemma MergedValues(c: Config, driver: string, into: Config, k: string)
    ensures k in NON_REGISTRY ==>
      (k in Merged(c, driver, into) <==> k in into) && Get(Merged(c, driver, into), k) == Get(into, k)
    ensures k !in NON_REGISTRY && k !in {DRIVER, "", SSL_PROPERTIES} ==>
      (k in Merged(c, driver, into) <==> Get(c, k) != "" || k in into)
      && Get(Merged(c, driver, into), k) == if Get(c, k) != "" then Get(c, k) else Get(into, k)
    ensures Get(Merged(c, driver, into), SSL_PROPERTIES)
         == if SslPieces(c) != [] then Pack(SslPieces(c)) else Get(into, SSL_PROPERTIES)
  {
    hide SslPieces, Pack, WithSslProperties, Section, NonEmpty;
    KeysDistinct();
    PackEmptyIff(SslPieces(c));
    var c1 := WithSslProperties(c);
    WithSslPropertiesValue(c, k);
    WithSslPropertiesValue(c, SSL_PROPERTIES);
    SectionValue(c1, driver, k);
    SectionValue(c1, driver, SSL_PROPERTIES);
  }

  lemma PackEmptyIff(pieces: seq<Piece>)
    ensures Pack(pieces) == "" <==> pieces == []
  {
    if pieces != [] {
      assert |Pack(pieces)| >= |SpellPiece(pieces[0])| >= 1;
    }
  }

  lemma KeysDistinct()
    ensures SSL_KEYS <= NON_REGISTRY
    ensures SSL_MODE !in NON_REGISTRY && SSL_PROPERTIES !in NON_REGISTRY && DRIVER !in NON_REGISTRY
    ensures AQP_ERROR !in NON_REGISTRY && AQP_BEHAVIOR !in NON_REGISTRY && AQP_CONFIDENCE !in NON_REGISTRY
    ensures DSN in NON_REGISTRY && AQP_CHECK in NON_REGISTRY && DSN !in SSL_KEYS && AQP_CHECK !in SSL_KEYS
    ensures SSL_PROPERTIES != DRIVER && SSL_PROPERTIES != "" && SSL_PROPERTIES != SSL_MODE && DSN != AQP_CHECK
  {
  }

  /** The configuration just before SSLProperties is taken apart. */
  function Prepared(m: Config): Config {
    Touch(Touch(WithAqp(m), SSL_MODE), SSL_PROPERTIES)
  }

  lemma PreparedValue(m: Config, k: string)
    ensures Get(Prepared(m), k) == if k == AQP_CHECK && HasAqp(m) then "true" else Get(m, k)
    ensures Get(Touch(WithAqp(m), SSL_MODE), k) == Get(Prepared(m), k)
    ensures k in NON_REGISTRY ==> (k in Prepared(m) <==> k in m || (k == AQP_CHECK && HasAqp(m)))
    ensures k in m ==> k in Prepared(m)
  {
    KeysDistinct();
  }

  /** The value a key has after loading, when the packed pieces come apart as `u`. */
  lemma LoadedValue(c: Config, driver: string, into: Config, k: string)
    requires On(Get(Merged(c, driver, into), SSL_MODE)) && Get(Merged(c, driver, into), SSL_PROPERTIES) != ""
    ensures var m := Prepared(Merged(c, driver, into));
            var u := Unpack(Get(m, SSL_PROPERTIES));
            var (r, completed) := SaveAndLoad(c, driver, into);
            completed == u.completed && Get(r, k) == if k in m then m[k] else FirstValue(u.pieces, k)
  {
    hide SslPieces, Pack, Unpack, NonEmpty, On, WithAqp, Touch;
    KeysDistinct();
    PreparedValue(Merged(c, driver, into), SSL_MODE);
    PreparedValue(Merged(c, driver, into), SSL_PROPERTIES);
    var m := Prepared(Merged(c, driver, into));
    EmplaceValue(m, Unpack(Get(m, SSL_PROPERTIES)).pieces, k);
  }

  lemma LoadedNothing(c: Config, driver: string, into: Config, k: string)
    requires !On(Get(Merged(c, driver, into), SSL_MODE))
    ensures var (r, completed) := SaveAndLoad(c, driver, into);
            completed && Get(r, k) == Get(Prepared(Merged(c, driver, into)), k)
  {
    hide SslPieces, Pack, Unpack, NonEmpty, On, WithAqp;
    KeysDistinct();
    PreparedValue(Merged(c, driver, into), SSL_MODE);
    PreparedValue(Merged(c, driver, into), k);
  }

  lemma MergedHasAqp(c: Config, driver: string, dsn: string)
    ensures HasAqp(Merged(c, driver, Fresh(dsn))) <==> HasAqp(c)
  {
    hide Merged, Get;
    KeysDistinct();
    MergedValues(c, driver, Fresh(dsn), AQP_ERROR);
    MergedValues(c, driver, Fresh(dsn), AQP_CONFIDENCE);
    MergedValues(c, driver, Fresh(dsn), AQP_BEHAVIOR);
    FreshValue(dsn, AQP_ERROR);
    FreshValue(dsn, AQP_CONFIDENCE);
    FreshValue(dsn, AQP_BEHAVIOR);
  }

  lemma FreshValue(dsn: string, k: string)
    ensures Get(Fresh(dsn), k) == if k == DSN then dsn else ""
    ensures k in Fresh(dsn) <==> k == DSN
  {
  }

  /** The value of a key after saving and loading into a fresh configuration, in terms of the pieces taken apart. */
  lemma FreshLoad(c: Config, driver: string, dsn: string, k: string)
    requires k !in {DRIVER, "", SSL_PROPERTIES}
    ensures var (r, completed) := SaveAndLoad(c, driver, Fresh(dsn));
            var u := if SslPieces(c) == [] then Split([], true) else Unpack(Pack(SslPieces(c)));
            && completed == u.completed
            && (k == DSN ==> Get(r, k) == dsn)
            && (k !in NON_REGISTRY && Get(c, k) != "" ==> Get(r, k) == Get(c, k))
            && (k !in NON_REGISTRY && Get(c, k) == "" ==> Get(r, k) in {"", FirstValue(u.pieces, k)})
            && (k in NON_REGISTRY && k != DSN ==>
                  Get(r, k) == if k == AQP_CHECK && HasAqp(c) then "true" else FirstValue(u.pieces, k))
  {
    hide SslPieces, Pack, Unpack, On, Packed, Merged, WithAqp, HasAqp, SaveAndLoad, Fresh, Prepared;
    KeysDistinct();
    var m := Merged(c, driver, Fresh(dsn));
    MergedValues(c, driver, Fresh(dsn), k);
    MergedValues(c, driver, Fresh(dsn), SSL_MODE);
    FreshValue(dsn, k);
    FreshValue(dsn, SSL_MODE);
    FreshValue(dsn, SSL_PROPERTIES);
    MergedHasAqp(c, driver, dsn);
    PreparedValue(m, k);
    PreparedValue(m, SSL_PROPERTIES);
    PiecesProper(c);
    PackEmptyIff(SslPieces(c));
    if On(Get(c, SSL_MODE)) {
      LoadedValue(c, driver, Fresh(dsn), k);
    } else {
      LoadedNothing(c, driver, Fresh(dsn), k);
    }
  }

  lemma FreshRestores(c: Config, driver: string, dsn: string, k: string)
    requires CommaFree(SslPieces(c)) && k !in {DRIVER, "", SSL_PROPERTIES}
    ensures var (r, completed) := SaveAndLoad(c, driver, Fresh(dsn));
            && completed
            && (k == DSN ==> Get(r, k) == dsn)
            && (k !in NON_REGISTRY ==> Get(r, k) == Get(c, k))
            && (k in SSL_KEYS ==> Get(r, k) == Packed(c, k))
            && (k == AQP_CHECK ==> Get(r, k) == if HasAqp(c) then "true" else "")
  {
    hide SslPieces, Pack, Unpack, Packed, HasAqp, SaveAndLoad;
    KeysDistinct();
    FreshLoad(c, driver, dsn, k);
    PiecesProper(c);
    PiecesKeep(c, k);
    if SslPieces(c) != [] {
      UnpackPacked(SslPieces(c));
    }
  }

  predicate SaysTrue(value: string) {
    Lower(value) == "true"
  }

  /** With SSL on, its values hold no comma; those for client certificates only in two-way mode. */
  predicate SslCommaFree(c: Config) {
    SaysTrue(Get(c, "SSLMode")) ==>
      && ',' !in Get(c, "client-auth") && ',' !in Get(c, "truststore") && ',' !in Get(c, "cipher-suites")
      && (SaysTrue(Get(c, "client-auth")) ==>
            ',' !in Get(c, "certificate") && ',' !in Get(c, "keystore") && ',' !in Get(c, "keystore-password"))
  }

  /** The settings that are not stored under their own key, or not as they are. */
  const DERIVED: set<string> :=
    {"DSN", "Driver", "", "SSLProperties", "aqp", "client-auth", "truststore", "cipher-suites", "certificate",
     "keystore", "keystore-password"}

  /**
   * Saving and loading into a fresh configuration, without commas in SSL values: the SSL settings in use are restored
   * and the others dropped, the AQP flag is set exactly when an AQP value is, and every other setting is as it was.
   */
  lemma SaveLoadRestores(c: Config, driver: string, dsn: string)
    requires SslCommaFree(c)
    ensures var (r, completed) := SaveAndLoad(c, driver, Fresh(dsn));
            var ssl := SaysTrue(Get(c, "SSLMode"));
            var both := ssl && SaysTrue(Get(c, "client-auth"));
            && completed && Get(r, "DSN") == dsn
            && Get(r, "client-auth") == (if ssl then Get(c, "client-auth") else "")
            && Get(r, "truststore") == (if ssl then Get(c, "truststore") else "")
            && Get(r, "cipher-suites") == (if ssl then Get(c, "cipher-suites") else "")
            && Get(r, "certificate") == (if both then Get(c, "certificate") else "")
            && Get(r, "keystore") == (if both then Get(c, "keystore") else "")
            && Get(r, "keystore-password") == (if both then Get(c, "keystore-password") else "")
            && Get(r, "aqp") == (if Get(c, "spark.sql.aqp.error") == "" && Get(c, "spark.sql.aqp.confidence") == ""
                                    && Get(c, "spark.sql.aqp.behavior") == "" then "" else "true")
            && forall k :: k !in DERIVED ==> Get(r, k) == Get(c, k)
  {
    hide SslPieces, Pack, Unpack, Get, SaveAndLoad;
    KeysDistinct();
    PackedCommaFree(c);
    forall k | k !in {DRIVER, "", SSL_PROPERTIES}
      ensures var (r, completed) := SaveAndLoad(c, driver, Fresh(dsn));
              && completed
              && (k == DSN ==> Get(r, k) == dsn)
              && (k !in NON_REGISTRY ==> Get(r, k) == Get(c, k))
              && (k in SSL_KEYS ==> Get(r, k) == Packed(c, k))
              && (k == AQP_CHECK ==> Get(r, k) == if HasAqp(c) then "true" else "")
    {
      FreshRestores(c, driver, dsn, k);
    }
    DerivedKeys();
  }

  lemma DerivedKeys()
    ensures forall k :: k in NON_REGISTRY || k in {DRIVER, "", SSL_PROPERTIES} <==> k in DERIVED
    ensures AQP_CHECK !in {DRIVER, "", SSL_PROPERTIES} && DSN !in {DRIVER, "", SSL_PROPERTIES}
    ensures forall k :: k in SSL_KEYS ==> k !in {DRIVER, "", SSL_PROPERTIES}
    ensures TWO_WAY != TRUSTSTORE && TWO_WAY != CIPHERS && CERTIFICATE !in {TWO_WAY, TRUSTSTORE, CIPHERS}
    ensures KEYSTORE !in {TWO_WAY, TRUSTSTORE, CIPHERS} && KEYSTORE_PASSWORD !in {TWO_WAY, TRUSTSTORE, CIPHERS}
  {
  }

  /** The pieces have no comma if the values that go into them have none. */
  lemma PackedCommaFree(c: Config)
    requires SslCommaFree(c)
    ensures CommaFree(SslPieces(c))
  {
    hide Get, On, SaysTrue;
    forall i | 0 <= i < |SslPieces(c)|
      ensures ',' !in SslPieces(c)[i].value
    {
      OnIff(Get(c, SSL_MODE));
      OnIff(Get(c, TWO_WAY));
      KeptOnly(Candidates(c), i);
    }
  }

  lemma OnIff(value: string)
    ensures On(value) <==> SaysTrue(value)
  {
  }

  /** Loading runs to its end exactly when SSL is off or every piece of the list but the last has an equals sign. */
  lemma LoadCompletesIff(c: Config, section: map<string, string>)
    ensures var held := c + NonEmpty(section);
            Load(c, section).1 <==> !SaysTrue(Get(held, "SSLMode")) || KeysAllNamed(Get(held, "SSLProperties"))
  {
    hide Unpack, Lower, Touch;
    var held := c + NonEmpty(section);
    UnpackCompletesIff(Get(held, "SSLProperties"));
  }

  /**
   * The settings that exist after saving and after the AQP check: those of before and those looked at, which a later
   * load into the same configuration cannot restore any more. What was there keeps its value.
   */
  lemma LookedAt(c: Config, k: string)
    ensures var ssl := SaysTrue(Get(c, "SSLMode"));
            var both := ssl && SaysTrue(Get(c, "client-auth"));
            k in WithSslProperties(c) <==>
              || k in c || k in {"SSLMode", "SSLProperties"}
              || (ssl && k in {"client-auth", "truststore", "cipher-suites"})
              || (both && k in {"certificate", "keystore", "keystore-password"})
    ensures k != "SSLProperties" ==> Get(WithSslProperties(c), k) == Get(c, k)
    ensures var noError := Get(c, "spark.sql.aqp.error") == "";
            var noBound := noError && Get(c, "spark.sql.aqp.confidence") == "";
            k in WithAqp(c) <==>
              || k in c || k == "spark.sql.aqp.error" || (noError && k == "spark.sql.aqp.confidence")
              || (noBound && k == "spark.sql.aqp.behavior")
              || (k == "aqp" && !(noBound && Get(c, "spark.sql.aqp.behavior") == ""))
    ensures k != "aqp" ==> Get(WithAqp(c), k) == Get(c, k)
  {
    hide WithSslProperties, WithAqp, Get, Lower;
    SslLookedAt(c, k);
    AqpLookedAt(c, k);
  }

  lemma SslLookedAt(c: Config, k: string)
    ensures var ssl := SaysTrue(Get(c, "SSLMode"));
            var both := ssl && SaysTrue(Get(c, "client-auth"));
            k in WithSslProperties(c) <==>
              || k in c || k in {"SSLMode", "SSLProperties"}
              || (ssl && k in {"client-auth", "truststore", "cipher-suites"})
              || (both && k in {"certificate", "keystore", "keystore-password"})
    ensures k != "SSLProperties" ==> Get(WithSslProperties(c), k) == Get(c, k)
  {
    hide Pack, SslPieces, Lower, Touch;
  }

  lemma AqpLookedAt(c: Config, k: string)
    ensures var noError := Get(c, "spark.sql.aqp.error") == "";
            var noBound := noError && Get(c, "spark.sql.aqp.confidence") == "";
            k in WithAqp(c) <==>
              || k in c || k == "spark.sql.aqp.error" || (noError && k == "spark.sql.aqp.confidence")
              || (noBound && k == "spark.sql.aqp.behavior")
              || (k == "aqp" && !(noBound && Get(c, "spark.sql.aqp.behavior") == ""))
    ensures k != "aqp" ==> Get(WithAqp(c), k) == Get(c, k)
  {
    hide Touch;
  }

  /** The packed settings come back exactly when no packed value contains the separator. */
  lemma SslRestoredIff(c: Config, driver: string, dsn: string)
    ensures (forall k :: k in SSL_KEYS ==> Get(SaveAndLoad(c, driver, Fresh(dsn)).0, k) == Packed(c, k))
       <==> CommaFree(SslPieces(c))
  {
    hide SslPieces, Pack, Unpack, Packed, SaveAndLoad, HasAqp, Get;
    var pieces := SslPieces(c);
    if CommaFree(pieces) {
      forall k | k in SSL_KEYS
        ensures Get(SaveAndLoad(c, driver, Fresh(dsn)).0, k) == Packed(c, k)
      {
        SslKeysPlain(k);
        FreshRestores(c, driver, dsn, k);
      }
    } else {
      var i := FirstWithComma(pieces, 0);
      var k := pieces[i].key;
      PiecesProper(c);
      PieceUnique(c, i);
      UnpackCut(pieces, i);
      var u := Unpack(Pack(pieces)).pieces;
      assert forall j :: 0 <= j < i ==> u[j] == u[..i][j] == pieces[j];
      FirstValueAt(u, i);
      FirstValueAt(pieces, i);
      SslKeysPlain(k);
      FreshLoad(c, driver, dsn, k);
      PiecesKeep(c, k);
      KeysDistinct();
      assert |Cut(pieces[i]).value| < |pieces[i].value|;
    }
  }

  lemma SslKeysPlain(k: string)
    requires k in SSL_KEYS
    ensures k in NON_REGISTRY && k !in {DRIVER, "", SSL_PROPERTIES, DSN, AQP_CHECK}
  {
  }

  function FirstWithComma(pieces: seq<Piece>, i: nat): (r: nat)
    requires i < |pieces| && !CommaFree(pieces) && forall j :: 0 <= j < i ==> ',' !in pieces[j].value
    ensures r < |pieces| && ',' in pieces[r].value && forall j :: 0 <= j < r ==> ',' !in pieces[j].value
    decreases |pieces| - i
  {
    if ',' in pieces[i].value || i == |pieces| - 1 then i else FirstWithComma(pieces, i + 1)
  }

  lemma PieceUnique(c: Config, i: nat)
    requires i < |SslPieces(c)|
    ensures SslPieces(c)[i].key in SSL_KEYS
    ensures forall j :: 0 <= j < i ==> SslPieces(c)[j].key != SslPieces(c)[i].key
  {
    hide On, Get, Kept;
    CandidatesProper(c);
    KeptOnly(Candidates(c), i);
    forall j | 0 <= j < i
      ensures SslPieces(c)[j].key != SslPieces(c)[i].key
    {
      KeptDistinct(Candidates(c), j, i);
    }
  }

  /**
   * Loading does not overwrite a packed setting that the configuration already has, not even the empty value that
   * asking a getter leaves behind: it is restored exactly when it was absent or already equal.
   */
  lemma StaleKeyKept(c: Config, driver: string, into: Config, k: string)
    requires k in SSL_KEYS && CommaFree(SslPieces(c)) && On(Get(c, SSL_MODE))
    ensures var r := SaveAndLoad(c, driver, into).0;
            Get(r, k) == Packed(c, k) <==> k !in into || into[k] == Packed(c, k)
  {
    hide SslPieces, Pack, Unpack, Packed, SaveAndLoad, HasAqp, WithAqp, Merged, On, Prepared;
    KeysDistinct();
    SslKeysPlain(k);
    var m := Merged(c, driver, into);
    MergedValues(c, driver, into, k);
    MergedValues(c, driver, into, SSL_MODE);
    PreparedValue(m, k);
    PreparedValue(m, SSL_PROPERTIES);
    PiecesProper(c);
    PackEmptyIff(SslPieces(c));
    assert Get(c, SSL_MODE) != "" by { OffWhenEmpty(); }
    LoadedValue(c, driver, into, k);
    UnpackPacked(SslPieces(c));
    PiecesKeep(c, k);
  }

  lemma OffWhenEmpty()
    ensures !On("")
  {
    assert |Lower("")| == 0;
  }
}
