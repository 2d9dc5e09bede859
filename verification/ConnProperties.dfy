/**
 * What a stream of properties means for a connection: readProperties resolves each name, dispatches on its role and
 * folds the values into server, port, user, password and the property map.
 */
module ConnProperties {
  import opened OdbcTypes
  import opened Texts
  import opened PropertySource
  import opened Decimals

  /** The role that the flags of a key give it, in the order in which readProperties tests them. */
  datatype Role = DriverRole | ServerRole | PortRole | UserRole | PasswordRole | PlainRole | SystemRole

  /** The native connection property a key stands for. */
  datatype Known = Known(connName: string, role: Role)

  /** The key table, and the native names under which user and password are stored. */
  datatype Config = Config(table: map<string, Known>, userKey: string, passwordKey: string)

  const DEFAULT_SERVER_PORT: int := 1527
  const DRIVER_NAME: string := "libsnappyodbc.so"
  const PRODUCT_NAME: string := "SnappyData"
  const OLD_PRODUCT_NAME: string := "TIBCO ComputeDB"

  // ----- resolving a name -----

  /** No two keys agree but for case. */
  predicate CaseDistinct(table: map<string, Known>) {
    forall a, b :: a in table && b in table && EqualsIgnoreCase(a, b) ==> a == b
  }

  function WithoutDashes(s: string): string {
    if s == "" then "" else (if s[0] == '-' then "" else [s[0]]) + WithoutDashes(s[1..])
  }

  predicate StartsWith(s: string, prefix: string) {
    |prefix| <= |s| && s[..|prefix|] == prefix
  }

  /** getConnPropertyName: an exact key, or a name with a pass-through prefix. */
  function ExactName(table: map<string, Known>, name: string): Option<Known> {
    if name in table then Some(table[name])
    else if StartsWith(name, "snappydata.") || StartsWith(name, "spark.") then Some(Known(name, PlainRole))
    else None
  }

  /** An exact name, or else the key that matches case-insensitively once the dashes are removed. */
  ghost function Resolve(table: map<string, Known>, name: string): (r: Option<Known>) {
    var exact := ExactName(table, name);
    if exact.Some? then exact
    else if exists k :: k in table && EqualsIgnoreCase(WithoutDashes(name), k) then
      var k :| k in table && EqualsIgnoreCase(WithoutDashes(name), k);
      Some(table[k])
    else None
  }

  /** Removing the dashes keeps all other characters in order. */
  lemma {:induction false} DashesRemoved(a: string, b: string)
    ensures '-' !in WithoutDashes(a)
    ensures WithoutDashes(a + "-" + b) == WithoutDashes(a + b)
    ensures '-' !in a ==> WithoutDashes(a) == a
    decreases |a|
  {
    if a == "" {
      assert "" + "-" + b == ['-'] + b && ("-" + b)[1..] == b && "" + b == b;
    } else {
      DashesRemoved(a[1..], b);
      assert (a + "-" + b)[1..] == a[1..] + "-" + b && (a + b)[1..] == a[1..] + b;
    }
  }

  // ----- the fold -----

  datatype Settings = Settings(server: string, port: int, user: string, passwd: string,
                               props: map<string, string>, system: map<string, string>, info: bool)

  predicate Contains(s: string, part: string) {
    StartsWith(s, part) || (s != "" && Contains(s[1..], part))
  }

  function Unbraced(v: string): string {
    if v != "" && v[0] == '{' && v[|v| - 1] == '}' then (if |v| >= 2 then v[1..|v| - 1] else "") else v
  }

  /** Whether a driver name is this driver's. */
  predicate DriverAccepted(value: string) {
    var v := Unbraced(value);
    || Contains(v, DRIVER_NAME)
    || StartsWith(Lower(v), Lower(PRODUCT_NAME)) || StartsWith(Lower(v), Lower(OLD_PRODUCT_NAME))
  }

  predicate StandsAt(s: string, part: string, i: int) {
    0 <= i <= |s| - |part| && s[i..i + |part|] == part
  }

  lemma {:induction false} ContainsIff(s: string, part: string)
    ensures Contains(s, part) <==> exists i :: StandsAt(s, part, i)
    decreases |s|
  {
    if StartsWith(s, part) {
      assert StandsAt(s, part, 0);
    } else if s != "" {
      ContainsIff(s[1..], part);
      if i :| StandsAt(s[1..], part, i) {
        assert s[i + 1..i + 1 + |part|] == s[1..][i..i + |part|];
        assert StandsAt(s, part, i + 1);
      }
      if i :| StandsAt(s, part, i) {
        assert i > 0;
        assert s[1..][i - 1..i - 1 + |part|] == s[i..i + |part|];
        assert StandsAt(s[1..], part, i - 1);
      }
    } else {
      assert forall i :: !StandsAt(s, part, i);
    }
  }

  /** The name has the file name of the library in it or starts with the product's, new or old, in any case. */
  ghost predicate NamesDriver(name: string) {
    || (exists i :: StandsAt(name, "libsnappyodbc.so", i))
    || (|name| >= 10 && Lower(name[..10]) == "snappydata")
    || (|name| >= 15 && Lower(name[..15]) == "tibco computedb")
  }

  /** A driver name is accepted, in braces or without, exactly when it names this driver. */
  lemma DriverAcceptedIff(name: string)
    requires !(name != "" && name[0] == '{' && name[|name| - 1] == '}')
    ensures DriverAccepted(name) <==> NamesDriver(name)
    ensures DriverAccepted("{" + name + "}") <==> NamesDriver(name)
  {
    hide Contains, Lower;
    ContainsIff(name, DRIVER_NAME);
    var braced := "{" + name + "}";
    assert braced[1..|braced| - 1] == name;
    ProductNames();
    LowerPrefix(name, 10);
    LowerPrefix(name, 15);
  }

  lemma ProductNames()
    ensures |PRODUCT_NAME| == 10 && |OLD_PRODUCT_NAME| == 15 && DRIVER_NAME == "libsnappyodbc.so"
    ensures Lower(PRODUCT_NAME) == "snappydata" && Lower(OLD_PRODUCT_NAME) == "tibco computedb"
  {
  }

  lemma LowerPrefix(s: string, n: nat)
    ensures n <= |s| ==> Lower(s)[..n] == Lower(s[..n])
  {
  }

  predicate PortAccepted(value: string) {
    StrToL(value).1 == |value|
  }

  function PortValue(value: string): int {
    ToInt32(StrToL(value).0)
  }

  /** A port is a number with nothing behind it, or empty. */
  lemma {:induction false} PortAcceptedIff(spaces: string, sign: string, digits: string, rest: string)
    requires AllSpaces(spaces) && IsSign(sign) && DecimalDigits(digits) && Ends(sign, digits, rest)
    ensures var s := spaces + (sign + (digits + rest));
            PortAccepted(s) <==> s == "" || (digits != "" && rest == "")
  {
    StrToLMeans(spaces, sign, digits, rest);
  }

  /** One property with a resolved name; None is SQL_ERROR. */
  function Apply(s: Settings, known: Known, value: string): Option<Settings> {
    match known.role
    case DriverRole => if DriverAccepted(value) then Some(s) else None
    case ServerRole => Some(s.(server := value))
    case PortRole => if PortAccepted(value) then Some(s.(port := PortValue(value))) else None
    case UserRole => if s.user != "" then Some(s) else if value == "" then None else Some(s.(user := value))
    case PasswordRole => Some(if s.passwd == "" then s.(passwd := value) else s)
    case PlainRole => Some(s.(props := s.props[known.connName := value]))
    case SystemRole => Some(s.(system := s.system[known.connName := value]))
  }

  ghost function Step(table: map<string, Known>, s: Settings, p: Pair): Option<Settings> {
    var known := Resolve(table, p.name);
    if known == None then Some(s.(info := true)) else Apply(s, known.value, p.value)
  }

  ghost function Fold(table: map<string, Known>, s: Settings, pairs: seq<Pair>): Option<Settings>
    decreases |pairs|
  {
    if pairs == [] then Some(s)
    else
      var r := Step(table, s, pairs[0]);
      if r == None then None else Fold(table, r.value, pairs[1..])
  }

  /** What readProperties hands to the connection. */
  datatype Result = Failed | Connectable(server: string, port: int, props: map<string, string>, code: Code)

  function Finish(cfg: Config, s: Settings): Result {
    var props1 := if s.user != "" then s.props[cfg.userKey := s.user] else s.props;
    var props2 := if s.passwd != "" then props1[cfg.passwordKey := s.passwd] else props1;
    Connectable(s.server, if s.port <= 0 then DEFAULT_SERVER_PORT else s.port, props2,
                if s.info then SuccessWithInfo else Success)
  }

  function Initial(server: string, user: string, passwd: string, props: map<string, string>): Settings {
    Settings(server, 0, user, passwd, props, map[], false)
  }

  /** readProperties: a given user name must not be empty; an error of the reader or of a property ends it. */
  ghost function ReadProperties(cfg: Config, env: Env, reader: Reader, user: Option<string>, passwd: Option<string>,
                                server: string, props: map<string, string>): Result
  {
    if user == Some("") then Failed
    else
      var (pairs, last) := Drain(env, reader);
      var s := Fold(cfg.table, Initial(server, if user.Some? then user.value else "",
                                       if passwd.Some? then passwd.value else "", props), pairs);
      if s == None || last != End then Failed else Finish(cfg, s.value)
  }

  // ----- what the fold computes -----

  ghost predicate Has(table: map<string, Known>, p: Pair, role: Role) {
    Resolve(table, p.name).Some? && Resolve(table, p.name).value.role == role
  }

  /** The value of the last property of a role, or a default. */
  ghost function LastOf(table: map<string, Known>, pairs: seq<Pair>, role: Role, default: string): string
    decreases |pairs|
  {
    if pairs == [] then default
    else LastOf(table, pairs[1..], role, if Has(table, pairs[0], role) then pairs[0].value else default)
  }

  ghost predicate AnyOf(table: map<string, Known>, pairs: seq<Pair>, role: Role) {
    exists i :: 0 <= i < |pairs| && Has(table, pairs[i], role)
  }

  /** A given value if it is not empty, otherwise the first non-empty one of a role. */
  ghost function FirstNonEmpty(table: map<string, Known>, pairs: seq<Pair>, role: Role, given: string): string
    decreases |pairs|
  {
    if given != "" || pairs == [] then given
    else FirstNonEmpty(table, pairs[1..], role, if Has(table, pairs[0], role) then pairs[0].value else "")
  }

  /** The property has the role and is known to the client by this name. */
  ghost predicate HasNamed(table: map<string, Known>, p: Pair, role: Role, k: string) {
    Has(table, p, role) && Resolve(table, p.name).value.connName == k
  }

  /** The last value of a map role stored under the native name `k`. */
  ghost function LastNamed(table: map<string, Known>, pairs: seq<Pair>, role: Role, k: string, default: Option<string>)
      : Option<string>
    decreases |pairs|
  {
    if pairs == [] then default
    else
      LastNamed(table, pairs[1..], role, k,
                if HasNamed(table, pairs[0], role, k) then Some(pairs[0].value) else default)
  }

  function Lookup(m: map<string, string>, k: string): Option<string> {
    if k in m then Some(m[k]) else None
  }

  lemma {:induction false} FoldServer(table: map<string, Known>, s: Settings, pairs: seq<Pair>)
    requires Fold(table, s, pairs).Some?
    ensures Fold(table, s, pairs).value.server == LastOf(table, pairs, ServerRole, s.server)
    decreases |pairs|
  {
    hide Resolve, DriverAccepted, PortAccepted, PortValue;
    if pairs != [] {
      FoldServer(table, Step(table, s, pairs[0]).value, pairs[1..]);
    }
  }

  lemma {:induction false} FoldPort(table: map<string, Known>, s: Settings, pairs: seq<Pair>)
    requires Fold(table, s, pairs).Some?
    ensures Fold(table, s, pairs).value.port
         == if AnyOf(table, pairs, PortRole) then PortValue(LastOf(table, pairs, PortRole, "")) else s.port
    decreases |pairs|
  {
    hide Resolve, DriverAccepted, PortAccepted, PortValue, AnyOf;
    NoneOfNothing(table, PortRole);
    if pairs != [] {
      FoldPort(table, Step(table, s, pairs[0]).value, pairs[1..]);
      AnyOfCons(table, pairs, PortRole);
      LastOfDefault(table, pairs[1..], PortRole, pairs[0].value, "");
    }
  }

  lemma StepCredentials(table: map<string, Known>, s: Settings, p: Pair)
    requires Step(table, s, p).Some?
    ensures Step(table, s, p).value.user == FirstNonEmpty(table, [p], UserRole, s.user)
    ensures Step(table, s, p).value.passwd == FirstNonEmpty(table, [p], PasswordRole, s.passwd)
  {
    hide Resolve, DriverAccepted, PortAccepted, PortValue;
  }

  lemma {:induction false} FoldUser(table: map<string, Known>, s: Settings, pairs: seq<Pair>)
    requires Fold(table, s, pairs).Some?
    ensures Fold(table, s, pairs).value.user == FirstNonEmpty(table, pairs, UserRole, s.user)
    decreases |pairs|
  {
    hide Resolve, Step;
    if pairs != [] {
      StepCredentials(table, s, pairs[0]);
      FoldUser(table, Step(table, s, pairs[0]).value, pairs[1..]);
      FirstNonEmptyKeeps(table, pairs[1..], UserRole, s.user);
    }
  }

  lemma {:induction false} FoldPassword(table: map<string, Known>, s: Settings, pairs: seq<Pair>)
    requires Fold(table, s, pairs).Some?
    ensures Fold(table, s, pairs).value.passwd == FirstNonEmpty(table, pairs, PasswordRole, s.passwd)
    decreases |pairs|
  {
    hide Resolve, Step;
    if pairs != [] {
      StepCredentials(table, s, pairs[0]);
      FoldPassword(table, Step(table, s, pairs[0]).value, pairs[1..]);
      FirstNonEmptyKeeps(table, pairs[1..], PasswordRole, s.passwd);
    }
  }

  /** One property adds to the map of its own role only. */
  lemma StepMaps(table: map<string, Known>, s: Settings, p: Pair, k: string)
    requires Step(table, s, p).Some?
    ensures Lookup(Step(table, s, p).value.props, k) == LastNamed(table, [p], PlainRole, k, Lookup(s.props, k))
    ensures Lookup(Step(table, s, p).value.system, k) == LastNamed(table, [p], SystemRole, k, Lookup(s.system, k))
  {
    hide Resolve, DriverAccepted, PortAccepted, PortValue;
  }

  lemma {:induction false} FoldProps(table: map<string, Known>, s: Settings, pairs: seq<Pair>, k: string)
    requires Fold(table, s, pairs).Some?
    ensures Lookup(Fold(table, s, pairs).value.props, k) == LastNamed(table, pairs, PlainRole, k, Lookup(s.props, k))
    decreases |pairs|
  {
    hide Resolve, Step, Lookup;
    if pairs != [] {
      StepMaps(table, s, pairs[0], k);
      FoldProps(table, Step(table, s, pairs[0]).value, pairs[1..], k);
    }
  }

  lemma {:induction false} FoldSystem(table: map<string, Known>, s: Settings, pairs: seq<Pair>, k: string)
    requires Fold(table, s, pairs).Some?
    ensures Lookup(Fold(table, s, pairs).value.system, k) == LastNamed(table, pairs, SystemRole, k, Lookup(s.system, k))
    decreases |pairs|
  {
    hide Resolve, Step, Lookup;
    if pairs != [] {
      StepMaps(table, s, pairs[0], k);
      FoldSystem(table, Step(table, s, pairs[0]).value, pairs[1..], k);
    }
  }

  ghost predicate AnyUnknown(table: map<string, Known>, pairs: seq<Pair>) {
    exists i :: 0 <= i < |pairs| && Resolve(table, pairs[i].name) == None
  }

  lemma AnyUnknownCons(table: map<string, Known>, pairs: seq<Pair>)
    requires pairs != []
    ensures AnyUnknown(table, pairs) <==> Resolve(table, pairs[0].name) == None || AnyUnknown(table, pairs[1..])
  {
    hide Resolve;
    if AnyUnknown(table, pairs[1..]) {
      var i :| 0 <= i < |pairs[1..]| && Resolve(table, pairs[1..][i].name) == None;
      assert pairs[i + 1] == pairs[1..][i];
    }
    assert forall i :: 0 < i < |pairs| ==> pairs[i] == pairs[1..][i - 1];
  }

  lemma AnyOfCons(table: map<string, Known>, pairs: seq<Pair>, role: Role)
    requires pairs != []
    ensures AnyOf(table, pairs, role) <==> Has(table, pairs[0], role) || AnyOf(table, pairs[1..], role)
  {
    hide Has;
    if AnyOf(table, pairs[1..], role) {
      var i :| 0 <= i < |pairs[1..]| && Has(table, pairs[1..][i], role);
      assert pairs[i + 1] == pairs[1..][i];
    }
    assert forall i :: 0 < i < |pairs| ==> pairs[i] == pairs[1..][i - 1];
  }

  lemma FirstNonEmptyKeeps(table: map<string, Known>, pairs: seq<Pair>, role: Role, given: string)
    ensures given != "" ==> FirstNonEmpty(table, pairs, role, given) == given
  {
  }

  lemma {:induction false} FoldInfo(table: map<string, Known>, s: Settings, pairs: seq<Pair>)
    requires Fold(table, s, pairs).Some?
    ensures Fold(table, s, pairs).value.info <==> s.info || AnyUnknown(table, pairs)
    decreases |pairs|
  {
    hide Resolve, DriverAccepted, PortAccepted, PortValue;
    if pairs != [] {
      FoldInfo(table, Step(table, s, pairs[0]).value, pairs[1..]);
      AnyUnknownCons(table, pairs);
    }
  }

  // ----- the same by position -----

  predicate IsLast(hits: seq<bool>, i: int) {
    0 <= i < |hits| && hits[i] && forall j :: i < j < |hits| ==> !hits[j]
  }

  predicate IsFirst(hits: seq<bool>, i: int) {
    0 <= i < |hits| && hits[i] && forall j :: 0 <= j < i ==> !hits[j]
  }

  predicate NoHit(hits: seq<bool>) {
    forall j :: 0 <= j < |hits| ==> !hits[j]
  }

  /** Either nothing is hit, or there is a last hit and a first one. */
  lemma {:induction false} HitsHaveEnds(hits: seq<bool>)
    ensures NoHit(hits) || ((exists i :: IsLast(hits, i)) && exists i :: IsFirst(hits, i))
    decreases |hits|
  {
    if hits != [] {
      var n := |hits| - 1;
      HitsHaveEnds(hits[..n]);
      if hits[n] {
        assert IsLast(hits, n);
        if NoHit(hits[..n]) {
          assert IsFirst(hits, n) by {
            assert forall j :: 0 <= j < n ==> hits[j] == hits[..n][j];
          }
        } else {
          var i :| IsFirst(hits[..n], i);
          assert IsFirst(hits, i);
        }
      } else if !NoHit(hits[..n]) {
        var i, j :| IsFirst(hits[..n], i) && IsLast(hits[..n], j);
        assert IsFirst(hits, i) && IsLast(hits, j);
      }
    }
  }

  /** The positions of a role; of a role with a value; of a role under a native name. */
  ghost function RoleHits(table: map<string, Known>, pairs: seq<Pair>, role: Role): (r: seq<bool>)
    ensures |r| == |pairs| && forall i :: 0 <= i < |pairs| ==> r[i] == Has(table, pairs[i], role)
  {
    seq(|pairs|, i requires 0 <= i < |pairs| => Has(table, pairs[i], role))
  }

  ghost function FilledHits(table: map<string, Known>, pairs: seq<Pair>, role: Role): (r: seq<bool>)
    ensures |r| == |pairs|
    ensures forall i :: 0 <= i < |pairs| ==> r[i] == (Has(table, pairs[i], role) && pairs[i].value != "")
  {
    seq(|pairs|, i requires 0 <= i < |pairs| => Has(table, pairs[i], role) && pairs[i].value != "")
  }

  ghost function NamedHits(table: map<string, Known>, pairs: seq<Pair>, role: Role, k: string): (r: seq<bool>)
    ensures |r| == |pairs| && forall i :: 0 <= i < |pairs| ==> r[i] == HasNamed(table, pairs[i], role, k)
  {
    seq(|pairs|, i requires 0 <= i < |pairs| => HasNamed(table, pairs[i], role, k))
  }

  /** No hit in a list, seen from its first element. */
  lemma NoHitOfCons(h: bool, rest: seq<bool>)
    ensures NoHit([h] + rest) <==> !h && NoHit(rest)
  {
    var hits := [h] + rest;
    assert hits[0] == h && forall k :: 0 <= k < |rest| ==> rest[k] == hits[k + 1];
  }

  lemma LastOfCons(h: bool, rest: seq<bool>, i: int)
    requires IsLast([h] + rest, i)
    ensures if i == 0 then h && NoHit(rest) else IsLast(rest, i - 1)
  {
    var hits := [h] + rest;
    assert forall k :: 0 <= k < |rest| ==> rest[k] == hits[k + 1];
  }

  lemma FirstOfCons(h: bool, rest: seq<bool>, i: int)
    requires IsFirst([h] + rest, i)
    ensures if i == 0 then h else !h && IsFirst(rest, i - 1)
  {
    var hits := [h] + rest;
    assert hits[0] == h && forall k :: 0 <= k < |rest| ==> rest[k] == hits[k + 1];
  }

  lemma {:induction false} LastOfAt(table: map<string, Known>, pairs: seq<Pair>, role: Role, default: string)
    ensures var hits := RoleHits(table, pairs, role);
            && (forall i :: IsLast(hits, i) ==> LastOf(table, pairs, role, default) == pairs[i].value)
            && (NoHit(hits) ==> LastOf(table, pairs, role, default) == default)
    decreases |pairs|
  {
    hide Has, RoleHits;
    if pairs != [] {
      var hits, rest := RoleHits(table, pairs, role), RoleHits(table, pairs[1..], role);
      assert hits == [hits[0]] + rest;
      LastOfAt(table, pairs[1..], role, if hits[0] then pairs[0].value else default);
      NoHitOfCons(hits[0], rest);
      forall i | IsLast(hits, i)
        ensures LastOf(table, pairs, role, default) == pairs[i].value
      {
        LastOfCons(hits[0], rest, i);
      }
    }
  }

  lemma {:induction false} LastNamedAt(table: map<string, Known>, pairs: seq<Pair>, role: Role, k: string,
                                       default: Option<string>)
    ensures var hits := NamedHits(table, pairs, role, k);
            && (forall i :: IsLast(hits, i) ==> LastNamed(table, pairs, role, k, default) == Some(pairs[i].value))
            && (NoHit(hits) ==> LastNamed(table, pairs, role, k, default) == default)
    decreases |pairs|
  {
    hide HasNamed, NamedHits;
    if pairs != [] {
      var hits, rest := NamedHits(table, pairs, role, k), NamedHits(table, pairs[1..], role, k);
      assert hits == [hits[0]] + rest;
      LastNamedAt(table, pairs[1..], role, k, if hits[0] then Some(pairs[0].value) else default);
      NoHitOfCons(hits[0], rest);
      forall i | IsLast(hits, i)
        ensures LastNamed(table, pairs, role, k, default) == Some(pairs[i].value)
      {
        LastOfCons(hits[0], rest, i);
      }
    }
  }

  lemma FirstNonEmptyCons(table: map<string, Known>, pairs: seq<Pair>, role: Role)
    requires pairs != []
    ensures FirstNonEmpty(table, pairs, role, "") ==
      if Has(table, pairs[0], role) && pairs[0].value != "" then pairs[0].value
      else FirstNonEmpty(table, pairs[1..], role, "")
  {
    hide Has;
    FirstNonEmptyKeeps(table, pairs[1..], role, pairs[0].value);
  }

  lemma {:induction false} FirstFilledAt(table: map<string, Known>, pairs: seq<Pair>, role: Role)
    ensures var hits := FilledHits(table, pairs, role);
            && (forall i :: IsFirst(hits, i) ==> FirstNonEmpty(table, pairs, role, "") == pairs[i].value)
            && (NoHit(hits) ==> FirstNonEmpty(table, pairs, role, "") == "")
    decreases |pairs|
  {
    hide Has, FirstNonEmpty, FilledHits;
    FirstOfNothing(table, role);
    if pairs != [] {
      var hits, rest := FilledHits(table, pairs, role), FilledHits(table, pairs[1..], role);
      assert hits == [hits[0]] + rest;
      FirstFilledAt(table, pairs[1..], role);
      FirstNonEmptyCons(table, pairs, role);
      NoHitOfCons(hits[0], rest);
      forall i | IsFirst(hits, i)
        ensures FirstNonEmpty(table, pairs, role, "") == pairs[i].value
      {
        FirstOfCons(hits[0], rest, i);
      }
    }
  }

  lemma FirstOfNothing(table: map<string, Known>, role: Role)
    ensures FirstNonEmpty(table, [], role, "") == ""
  {
  }

  /** The result at the last or first position that matters, or as it was where there is none (HitsHaveEnds). */
  ghost predicate ByPosition(table: map<string, Known>, s: Settings, pairs: seq<Pair>, r: Settings) {
    && (forall i :: IsLast(RoleHits(table, pairs, ServerRole), i) ==> r.server == pairs[i].value)
    && (NoHit(RoleHits(table, pairs, ServerRole)) ==> r.server == s.server)
    && (forall i :: IsLast(RoleHits(table, pairs, PortRole), i) ==> r.port == PortValue(pairs[i].value))
    && (NoHit(RoleHits(table, pairs, PortRole)) ==> r.port == s.port)
    && (s.user != "" ==> r.user == s.user)
    && (s.user == "" ==>
          && (forall i :: IsFirst(FilledHits(table, pairs, UserRole), i) ==> r.user == pairs[i].value)
          && (NoHit(FilledHits(table, pairs, UserRole)) ==> r.user == ""))
    && (s.passwd != "" ==> r.passwd == s.passwd)
    && (s.passwd == "" ==>
          && (forall i :: IsFirst(FilledHits(table, pairs, PasswordRole), i) ==> r.passwd == pairs[i].value)
          && (NoHit(FilledHits(table, pairs, PasswordRole)) ==> r.passwd == ""))
  }

  /** The maps by position: each name has its last value, or what it had. */
  ghost predicate MapsByPosition(table: map<string, Known>, s: Settings, pairs: seq<Pair>, r: Settings) {
    && (forall k, i :: IsLast(NamedHits(table, pairs, PlainRole, k), i) ==>
          Lookup(r.props, k) == Some(pairs[i].value))
    && (forall k :: NoHit(NamedHits(table, pairs, PlainRole, k)) ==> Lookup(r.props, k) == Lookup(s.props, k))
    && (forall k, i :: IsLast(NamedHits(table, pairs, SystemRole, k), i) ==>
          Lookup(r.system, k) == Some(pairs[i].value))
    && (forall k :: NoHit(NamedHits(table, pairs, SystemRole, k)) ==> Lookup(r.system, k) == Lookup(s.system, k))
  }

  lemma MapsMean(table: map<string, Known>, s: Settings, pairs: seq<Pair>)
    requires Fold(table, s, pairs).Some?
    ensures MapsByPosition(table, s, pairs, Fold(table, s, pairs).value)
  {
    hide Fold, LastNamed, NoHit, Lookup;
    var r := Fold(table, s, pairs).value;
    forall k
      ensures forall i ::
        IsLast(NamedHits(table, pairs, PlainRole, k), i) ==> Lookup(r.props, k) == Some(pairs[i].value)
      ensures NoHit(NamedHits(table, pairs, PlainRole, k)) ==> Lookup(r.props, k) == Lookup(s.props, k)
    {
      FoldProps(table, s, pairs, k);
      LastNamedAt(table, pairs, PlainRole, k, Lookup(s.props, k));
    }
    forall k
      ensures forall i ::
        IsLast(NamedHits(table, pairs, SystemRole, k), i) ==> Lookup(r.system, k) == Some(pairs[i].value)
      ensures NoHit(NamedHits(table, pairs, SystemRole, k)) ==> Lookup(r.system, k) == Lookup(s.system, k)
    {
      FoldSystem(table, s, pairs, k);
      LastNamedAt(table, pairs, SystemRole, k, Lookup(s.system, k));
    }
  }

  lemma AnyOfHits(table: map<string, Known>, pairs: seq<Pair>, role: Role)
    ensures AnyOf(table, pairs, role) <==> !NoHit(RoleHits(table, pairs, role))
  {
    hide Has;
    if !NoHit(RoleHits(table, pairs, role)) {
      var j :| 0 <= j < |pairs| && RoleHits(table, pairs, role)[j];
      assert Has(table, pairs[j], role);
    }
    if AnyOf(table, pairs, role) {
      var i :| 0 <= i < |pairs| && Has(table, pairs[i], role);
      assert RoleHits(table, pairs, role)[i];
    }
  }

  /**
   * What the loop over the properties leaves: server and port are those of the last server and port property; a user
   * name or password that is already there wins, otherwise the first non-empty one does; every named property has its
   * last value; unknown names only set the information flag.
   */
  lemma FoldMeans(table: map<string, Known>, s: Settings, pairs: seq<Pair>)
    requires Fold(table, s, pairs).Some?
    ensures var r := Fold(table, s, pairs).value;
            && ByPosition(table, s, pairs, r) && MapsByPosition(table, s, pairs, r)
            && (r.info <==> s.info || AnyUnknown(table, pairs))
  {
    hide Fold, LastOf, PortValue, FirstNonEmpty, AnyUnknown, AnyOf, RoleHits, FilledHits, MapsByPosition, IsLast;
    hide IsFirst, NoHit;
    FoldServer(table, s, pairs);
    LastOfAt(table, pairs, ServerRole, s.server);
    FoldPort(table, s, pairs);
    LastOfAt(table, pairs, PortRole, "");
    AnyOfHits(table, pairs, PortRole);
    HitsNotBoth(RoleHits(table, pairs, PortRole));
    FoldUser(table, s, pairs);
    FirstFilledAt(table, pairs, UserRole);
    FirstNonEmptyKeeps(table, pairs, UserRole, s.user);
    FoldPassword(table, s, pairs);
    FirstFilledAt(table, pairs, PasswordRole);
    FirstNonEmptyKeeps(table, pairs, PasswordRole, s.passwd);
    FoldInfo(table, s, pairs);
    MapsMean(table, s, pairs);
  }

  lemma HitsNotBoth(hits: seq<bool>)
    ensures NoHit(hits) ==> forall i :: !IsLast(hits, i)
  {
  }

  lemma {:induction false} LastOfDefault(table: map<string, Known>, pairs: seq<Pair>, role: Role, a: string, b: string)
    ensures LastOf(table, pairs, role, a) == if AnyOf(table, pairs, role) then LastOf(table, pairs, role, b) else a
    decreases |pairs|
  {
    hide Has, AnyOf;
    if pairs == [] {
      assert !AnyOf(table, pairs, role) by {
        NoneOfNothing(table, role);
      }
    } else {
      var hit := Has(table, pairs[0], role);
      AnyOfCons(table, pairs, role);
      LastOfDefault(table, pairs[1..], role, if hit then pairs[0].value else a, if hit then pairs[0].value else b);
      LastOfDefault(table, pairs[1..], role, a, b);
    }
  }

  lemma NoneOfNothing(table: map<string, Known>, role: Role)
    ensures !AnyOf(table, [], role)
  {
  }

  // ----- when it fails -----

  /** Property `i` is refused: a foreign driver, a port that is no number, or an empty user name that is needed. */
  ghost predicate Refused(table: map<string, Known>, s: Settings, pairs: seq<Pair>, i: int)
    requires 0 <= i < |pairs|
  {
    || (Has(table, pairs[i], DriverRole) && !DriverAccepted(pairs[i].value))
    || (Has(table, pairs[i], PortRole) && !PortAccepted(pairs[i].value))
    || (Has(table, pairs[i], UserRole) && pairs[i].value == "" && s.user == "" && !AnyOf(table, pairs[..i], UserRole))
  }

  /** The fold fails exactly when some property is refused. */
  lemma {:induction false} FoldFailsIff(table: map<string, Known>, s: Settings, pairs: seq<Pair>)
    ensures Fold(table, s, pairs) == None <==> exists i :: 0 <= i < |pairs| && Refused(table, s, pairs, i)
    decreases |pairs|
  {
    hide Resolve, DriverAccepted, PortAccepted, PortValue, AnyOf;
    if pairs != [] {
      NoneOfNothing(table, UserRole);
      assert pairs[..0] == [];
      var r := Step(table, s, pairs[0]);
      assert r == None <==> Refused(table, s, pairs, 0);
      if r.Some? {
        FoldFailsIff(table, r.value, pairs[1..]);
        forall i | 0 < i < |pairs|
          ensures Refused(table, s, pairs, i) <==> Refused(table, r.value, pairs[1..], i - 1)
        {
          AnyOfCons(table, pairs[..i], UserRole);
          assert pairs[..i][1..] == pairs[1..][..i - 1];
        }
        if i :| 0 <= i < |pairs[1..]| && Refused(table, r.value, pairs[1..], i) {
          assert Refused(table, s, pairs, i + 1);
        }
      }
    }
  }

  // ----- a whole connection string -----

  /** What is known before the string is read. */
  function Given(user: Option<string>, passwd: Option<string>, server: string, props: map<string, string>): Settings {
    Initial(server, if user.Some? then user.value else "", if passwd.Some? then passwd.value else "", props)
  }

  /**
   * What the connection is given, from the settings read: the port of the last port property if that is positive and
   * 1527 otherwise, information exactly for unknown names, and the properties with user and password under their keys
   * as far as they are not empty; where both have one key, the password is there.
   */
  ghost predicate Handed(cfg: Config, pairs: seq<Pair>, t: Settings, r: Result) {
    var ports := RoleHits(cfg.table, pairs, PortRole);
    && r.Connectable? && r.server == t.server
    && (forall i :: IsLast(ports, i) ==>
          r.port == if PortValue(pairs[i].value) > 0 then PortValue(pairs[i].value) else 1527)
    && (NoHit(ports) ==> r.port == 1527)
    && r.code == (if AnyUnknown(cfg.table, pairs) then SuccessWithInfo else Success)
    && forall k ::
         Lookup(r.props, k)
         == if t.passwd != "" && k == cfg.passwordKey then Some(t.passwd)
            else if t.user != "" && k == cfg.userKey then Some(t.user)
            else Lookup(t.props, k)
  }

  lemma FinishHands(cfg: Config, s: Settings, pairs: seq<Pair>, t: Settings)
    requires ByPosition(cfg.table, s, pairs, t) && s.port == 0 && (t.info <==> AnyUnknown(cfg.table, pairs))
    ensures Handed(cfg, pairs, t, Finish(cfg, t))
  {
    hide RoleHits, FilledHits, PortValue, AnyUnknown, IsLast, IsFirst, NoHit;
  }

  /**
   * Reading a connection string, from its text to what the connection is given: with its first DSN expanded, it fails
   * exactly when some property is refused, and otherwise hands over the settings that the properties have by their
   * positions.
   */
  lemma WrittenStringMeans(cfg: Config, env: Env, parts: seq<Part>, closed: bool, user: Option<string>,
                           passwd: Option<string>, server: string, props: map<string, string>)
    requires AllWritable(parts)
    ensures
      var r := ReadProperties(cfg, env, Opened(Written(parts, closed)), user, passwd, server, props);
      var s, pairs := Given(user, passwd, server, props), Expand(env, PairsOf(parts));
      if user == Some("") || exists i :: 0 <= i < |pairs| && Refused(cfg.table, s, pairs, i) then r == Failed
      else exists t :: ByPosition(cfg.table, s, pairs, t) && MapsByPosition(cfg.table, s, pairs, t)
                       && Handed(cfg, pairs, t, r)
  {
    hide Drain, Written, Expand, PairsOf, Fold, Refused, ByPosition, MapsByPosition, AnyUnknown, Opened, Handed, Finish;
    var s, pairs := Given(user, passwd, server, props), Expand(env, PairsOf(parts));
    StreamOfWritten(env, parts, closed);
    FoldFailsIff(cfg.table, s, pairs);
    if user != Some("") && Fold(cfg.table, s, pairs).Some? {
      FoldMeans(cfg.table, s, pairs);
      FinishHands(cfg, s, pairs, Fold(cfg.table, s, pairs).value);
    }
  }

  lemma {:induction false} LastOfJoined(table: map<string, Known>, xs: seq<Pair>, ys: seq<Pair>, role: Role,
                                        default: string)
    ensures LastOf(table, xs + ys, role, default) == LastOf(table, ys, role, LastOf(table, xs, role, default))
    decreases |xs|
  {
    hide Has;
    if xs == [] {
      assert xs + ys == ys;
    } else {
      assert (xs + ys)[1..] == xs[1..] + ys;
      LastOfJoined(table, xs[1..], ys, role, if Has(table, xs[0], role) then xs[0].value else default);
    }
  }

  /**
   * Which server wins in a string with a DSN: the last one behind the DSN, else the last one of the DSN, else the last
   * one before it, else the given one (LastOfAt).
   */
  lemma ServerPrecedence(cfg: Config, env: Env, parts: seq<Part>, closed: bool, user: Option<string>,
                         passwd: Option<string>, server: string, props: map<string, string>, d: nat)
    requires AllWritable(parts)
    requires d < |parts| && IsDsn(parts[d].pair) && forall i :: 0 <= i < d ==> !IsDsn(parts[i].pair)
    ensures
      var r := ReadProperties(cfg, env, Opened(Written(parts, closed)), user, passwd, server, props);
      var pairs := PairsOf(parts);
      r.Connectable? ==>
        r.server == LastOf(cfg.table, WithoutDsn(pairs[d + 1..]), ServerRole,
                           LastOf(cfg.table, IniPairs(env, pairs[d].value, 0), ServerRole,
                                  LastOf(cfg.table, pairs[..d], ServerRole, server)))
  {
    hide Drain, Written, Expand, IniPairs, WithoutDsn, IsDsn, Fold, LastOf, Opened;
    var s, pairs := Given(user, passwd, server, props), PairsOf(parts);
    StreamOfWritten(env, parts, closed);
    ExpandAt(env, pairs, d);
    if user != Some("") && Fold(cfg.table, s, Expand(env, pairs)).Some? {
      FoldServer(cfg.table, s, Expand(env, pairs));
      LastOfJoined(cfg.table, pairs[..d], IniPairs(env, pairs[d].value, 0) + WithoutDsn(pairs[d + 1..]), ServerRole,
                   server);
      LastOfJoined(cfg.table, IniPairs(env, pairs[d].value, 0), WithoutDsn(pairs[d + 1..]), ServerRole,
                   LastOf(cfg.table, pairs[..d], ServerRole, server));
    }
  }

  // ----- unknown names, and the order of the table -----

  ghost function KnownOnly(table: map<string, Known>, pairs: seq<Pair>): seq<Pair> {
    if pairs == [] then []
    else if Resolve(table, pairs[0].name) == None then KnownOnly(table, pairs[1..])
    else [pairs[0]] + KnownOnly(table, pairs[1..])
  }

  lemma ApplyIgnoresInfo(s: Settings, known: Known, value: string, info: bool)
    ensures var a, b := Apply(s, known, value), Apply(s.(info := info), known, value);
            (a == None <==> b == None) && (a.Some? ==> b.value == a.value.(info := info))
  {
    hide DriverAccepted, PortAccepted, PortValue;
    match known.role
    case DriverRole =>
    case ServerRole =>
    case PortRole =>
    case UserRole =>
    case PasswordRole =>
    case PlainRole =>
    case SystemRole =>
  }

  lemma StepIgnoresInfo(table: map<string, Known>, s: Settings, p: Pair, info: bool)
    requires Resolve(table, p.name).Some?
    ensures var a, b := Step(table, s, p), Step(table, s.(info := info), p);
            (a == None <==> b == None) && (a.Some? ==> b.value == a.value.(info := info))
  {
    hide Resolve, Apply;
    ApplyIgnoresInfo(s, Resolve(table, p.name).value, p.value, info);
  }

  /** Properties with unknown names change nothing but the information flag. */
  lemma {:induction false} UnknownNamesIgnored(table: map<string, Known>, s: Settings, pairs: seq<Pair>, info: bool)
    ensures var a, b := Fold(table, s, pairs), Fold(table, s.(info := info), KnownOnly(table, pairs));
            (a == None <==> b == None) && (a.Some? ==> b.value == a.value.(info := info))
    decreases |pairs|
  {
    hide Resolve, Apply;
    if pairs != [] {
      var known, rest := KnownOnly(table, pairs), KnownOnly(table, pairs[1..]);
      var r := Step(table, s, pairs[0]);
      if Resolve(table, pairs[0].name) == None {
        UnknownNamesIgnored(table, r.value, pairs[1..], info);
      } else {
        StepIgnoresInfo(table, s, pairs[0], info);
        assert known[0] == pairs[0] && known[1..] == rest;
        if r.Some? {
          UnknownNamesIgnored(table, r.value, pairs[1..], info);
        }
      }
    }
  }

  /** A key means itself, a name for Spark or SnappyData any plain property, and others need a key that they match. */
  lemma ResolvedNames(table: map<string, Known>, name: string)
    ensures name in table ==> Resolve(table, name) == Some(table[name])
    ensures var passed := (|name| >= 11 && name[..11] == "snappydata.") || (|name| >= 6 && name[..6] == "spark.");
            name !in table ==>
              && (passed ==> Resolve(table, name) == Some(Known(name, PlainRole)))
              && (!passed ==> (Resolve(table, name) != None <==>
                                 exists k :: k in table && Lower(k) == Lower(WithoutDashes(name))))
  {
    hide Lower, WithoutDashes;
  }

  /** With case-distinct keys, whichever matching key a scan of the hash map meets first gives the resolution. */
  lemma ResolveIsAnyMatch(table: map<string, Known>, name: string, k: string)
    requires CaseDistinct(table) && ExactName(table, name) == None
    requires k in table && EqualsIgnoreCase(WithoutDashes(name), k)
    ensures Resolve(table, name) == Some(table[k])
  {
    var k' :| k' in table && EqualsIgnoreCase(WithoutDashes(name), k') && Resolve(table, name) == Some(table[k']);
    assert EqualsIgnoreCase(WithoutDashes(name), k');
    assert Lower(k') == Lower(k);
    assert EqualsIgnoreCase(k, k');
  }
}
