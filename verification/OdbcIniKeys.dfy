/** The key table of connection properties that OdbcIniKeys fills once, and that its keys differ by more than case. */
module OdbcIniKeys {
  import opened OdbcTypes
  import opened Texts
  import opened ConnProperties

  /** The keys, in the order in which init inserts them. */
  const KEYS: seq<string> := [
    "Driver", "Server", "Port", "User", "UserName", "Password", "UID", "PWD", "CredentialManager", "LogFile",
    "LogLevel", "LoadBalance", "SecondaryLocators", "AutoReconnect", "ServerGroups", "DefaultSchema", "SSLMode",
    "SSLProperties", "FramedTransport", "BinaryProtocol", "TxSyncCommits", "DisableTXBatching", "SkipListeners",
    "SkipConstraintChecks", "DisableStreaming", "DisableCancel", "ReadTimeout", "KeepAliveIdle", "KeepAliveInterval",
    "KeepAliveCount", "QueryHDFS", "RouteQuery", "spark.sql.aqp.error", "spark.sql.aqp.confidence",
    "spark.sql.aqp.behavior"
  ]

  const KEY_COUNT: nat := 35

  /** A number that case does not change: the length and the first two letters. */
  function KeyCode(s: string): int
    requires |s| >= 2
  {
    (|s| * 256 + LowerChar(s[0]) as int) * 256 + LowerChar(s[1]) as int
  }

  /** The position of the key with a given code; the codes of the keys are all different. */
  function PositionOf(code: int): nat {
    if code == 418930 then 0
    else if code == 422757 then 1
    else if code == 290927 then 2
    else if code == 292211 then 3
    else if code == 554355 then 4
    else if code == 553057 then 5
    else if code == 226665 then 6
    else if code == 225399 then 7
    else if code == 1139570 then 8
    else if code == 486511 then 9
    else if code == 552047 then 10
    else if code == 748655 then 11
    else if code == 1143653 then 12
    else if code == 876917 then 13
    else if code == 815973 then 14
    else if code == 877669 then 15
    else if code == 488307 then 16
    else if code == 881523 then 17
    else if code == 1009266 then 18
    else if code == 942697 then 19
    else if code == 881784 then 20
    else if code == 1139817 then 21
    else if code == 881515 then 22
    else if code == 1340267 then 23
    else if code == 1074281 then 24
    else if code == 877673 then 25
    else if code == 750181 then 26
    else if code == 879461 then 27
    else if code == 1141605 then 28
    else if code == 944997 then 29
    else if code == 618869 then 30
    else if code == 684655 then 31
    else if code == 1274736 then 32
    else if code == 1602416 then 33
    else 34
  }

  lemma EarlyKeyPosition(i: nat)
    requires i < 18
    ensures |KEYS| == KEY_COUNT && |KEYS[i]| >= 2 && PositionOf(KeyCode(KEYS[i])) == i
  {
  }

  lemma LateKeyPosition(i: nat)
    requires 18 <= i < KEY_COUNT
    ensures |KEYS| == KEY_COUNT && |KEYS[i]| >= 2 && PositionOf(KeyCode(KEYS[i])) == i
  {
  }

  lemma KeyPosition(i: nat)
    requires i < KEY_COUNT
    ensures |KEYS| == KEY_COUNT && |KEYS[i]| >= 2 && PositionOf(KeyCode(KEYS[i])) == i
  {
    hide PositionOf, KeyCode;
    if i < 18 {
      EarlyKeyPosition(i);
    } else {
      LateKeyPosition(i);
    }
  }

  lemma CodeIgnoresCase(a: string, b: string)
    requires EqualsIgnoreCase(a, b) && |a| >= 2
    ensures |b| == |a| && KeyCode(a) == KeyCode(b)
  {
    assert |Lower(a)| == |Lower(b)|;
    assert Lower(a)[0] == LowerChar(b[0]) && Lower(a)[1] == LowerChar(b[1]);
  }

  /** No two keys of the driver agree but for case. */
  lemma KeysDiffer(i: nat, j: nat)
    requires i < KEY_COUNT && j < KEY_COUNT && |KEYS| == KEY_COUNT && EqualsIgnoreCase(KEYS[i], KEYS[j])
    ensures i == j
  {
    hide PositionOf, KeyCode, KEYS, EqualsIgnoreCase;
    KeyPosition(i);
    KeyPosition(j);
    CodeIgnoresCase(KEYS[i], KEYS[j]);
  }

  /** The table after the first `n` insertions; what each key stands for comes from the native client. */
  function TableOf(props: seq<Known>, n: nat): (r: map<string, Known>)
    requires n <= |props| == |KEYS|
  {
    if n == 0 then map[] else TableOf(props, n - 1)[KEYS[n - 1] := props[n - 1]]
  }

  lemma {:induction false} TableEntries(props: seq<Known>, n: nat)
    requires n <= |props| == |KEYS| == KEY_COUNT
    ensures forall k :: k in TableOf(props, n) <==> exists i :: 0 <= i < n && KEYS[i] == k
    ensures forall i :: 0 <= i < n ==> KEYS[i] in TableOf(props, n) && TableOf(props, n)[KEYS[i]] == props[i]
    decreases n
  {
    hide KEYS;
    if n > 0 {
      TableEntries(props, n - 1);
      var t, r := TableOf(props, n - 1), TableOf(props, n);
      forall k
        ensures k in r <==> exists i :: 0 <= i < n && KEYS[i] == k
      {
        if k in r && k != KEYS[n - 1] {
          var i :| 0 <= i < n - 1 && KEYS[i] == k;
        }
      }
      forall i | 0 <= i < n
        ensures KEYS[i] in r && r[KEYS[i]] == props[i]
      {
        if KEYS[i] == KEYS[n - 1] {
          KeysDiffer(i, n - 1);
        }
      }
    }
  }

  /** The driver's table is case-distinct, whatever its keys stand for. */
  lemma TableCaseDistinct(props: seq<Known>)
    requires |props| == |KEYS| == KEY_COUNT
    ensures CaseDistinct(TableOf(props, KEY_COUNT))
  {
    hide KEYS, EqualsIgnoreCase, TableOf;
    TableEntries(props, KEY_COUNT);
    var t := TableOf(props, KEY_COUNT);
    forall a, b | a in t && b in t && EqualsIgnoreCase(a, b)
      ensures a == b
    {
      var i :| 0 <= i < KEY_COUNT && KEYS[i] == a;
      var j :| 0 <= j < KEY_COUNT && KEYS[j] == b;
      KeysDiffer(i, j);
    }
  }

  /**
   * A name that is a key of the driver but for case and dashes resolves to that key, whichever match a scan of the
   * hash map meets first.
   */
  lemma KeyResolvesInAnyCase(props: seq<Known>, name: string, i: nat)
    requires |props| == |KEYS| == KEY_COUNT && i < KEY_COUNT
    requires EqualsIgnoreCase(WithoutDashes(name), KEYS[i])
    requires ExactName(TableOf(props, KEY_COUNT), name) == None
    ensures Resolve(TableOf(props, KEY_COUNT), name) == Some(props[i])
  {
    hide KEYS, EqualsIgnoreCase, TableOf, ExactName, Resolve;
    TableEntries(props, KEY_COUNT);
    TableCaseDistinct(props);
    ResolveIsAnyMatch(TableOf(props, KEY_COUNT), name, KEYS[i]);
  }

  /** For instance "load-balance", which is written with a dash that the key does not have. */
  lemma DashedNameResolves(props: seq<Known>)
    requires |props| == |KEYS| == KEY_COUNT
    ensures Resolve(TableOf(props, KEY_COUNT), "load-balance") == Some(props[11])
  {
    hide Resolve, TableOf, KEYS, WithoutDashes, EqualsIgnoreCase, PositionOf, KeyCode;
    var name := "load-balance";
    DashesRemoved("load", "balance");
    assert name == "load" + "-" + "balance" && "load" + "balance" == "loadbalance";
    DashesRemoved("loadbalance", "");
    LoadBalanceKey();
    TableEntries(props, KEY_COUNT);
    if name in TableOf(props, KEY_COUNT) {
      var j :| 0 <= j < KEY_COUNT && KEYS[j] == name;
      KeyPosition(j);
      assert false;
    }
    assert name[1] == 'o' && name[0] == 'l';
    KeyResolvesInAnyCase(props, name, 11);
  }

  lemma LoadBalanceKey()
    ensures |KEYS| == KEY_COUNT && EqualsIgnoreCase("loadbalance", KEYS[11])
    ensures PositionOf(KeyCode("load-balance")) == 34 && |KEYS[34]| == 22
  {
    assert Lower("loadbalance") == Lower("LoadBalance");
  }

  /** The static key map, with the list that keeps the insertion order. */
  class KeyTable {
    var keyMap: map<string, Known>
    var keyList: seq<string>

    constructor ()
      ensures keyMap == map[] && keyList == []
    {
      keyMap, keyList := map[], [];
    }

    method InsertKey(key: string, prop: Known)
      modifies this
      ensures keyMap == old(keyMap)[key := prop] && keyList == old(keyList) + [key]
    {
      keyMap := keyMap[key := prop];
      keyList := keyList + [key];
    }

    method Init(props: seq<Known>)
      requires |props| == |KEYS|
      modifies this
      ensures keyMap == TableOf(props, |KEYS|) && keyList == KEYS
    {
      hide KEYS;
      keyMap, keyList := map[], [];
      var i := 0;
      while i < |KEYS|
        invariant 0 <= i <= |KEYS|
        invariant keyMap == TableOf(props, i) && keyList == KEYS[..i]
      {
        InsertKey(KEYS[i], props[i]);
        i := i + 1;
      }
    }
  }
}
