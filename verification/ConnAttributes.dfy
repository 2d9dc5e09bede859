/**
 * Connection attributes over the life of a connection: values set before connect are kept and replayed when it opens,
 * values set afterwards are applied at once, and string values are owned copies.
 */
module ConnAttributes {
  import opened OdbcTypes

  datatype Attr =
    | AccessMode | Autocommit | ConnectionTimeout | LoginTimeout | CurrentCatalog | MetadataId | PacketSize
    | QuietMode | TranslateLib | TranslateOption | TxnIsolation
    /** Checked but never stored. */
    | OdbcCursors
    /** Attributes that setAttribute refuses. */
    | OtherAttr

  /** The argument of SQLSetConnectAttr: an integer or pointer, or a string. */
  datatype Input = InWord(n: int) | InString(text: string)

  /** A stored value; a string is a copy of its own, named by its allocation. */
  datatype AttrValue = Word(n: int) | Copy(id: nat, text: string)

  /** What a setting of the native connection or of the driver is after a value has been applied. */
  datatype Effect = Flag(on: bool) | Number(n: int) | Isolation(level: int) | Translator(path: string) | NoEffect

  /** SQL_TXN_READ_UNCOMMITTED .. SQL_TXN_SERIALIZABLE, and 0 for none. */
  const ISOLATION_LEVELS: set<int> := {0, 1, 2, 4, 8}

  /** The only cursor library setting the driver accepts. */
  const SQL_CUR_USE_DRIVER: int := 2

  predicate IsString(a: Attr) {
    a == CurrentCatalog || a == TranslateLib
  }

  /** setConnectionAttribute: the effect of applying a value, or None for SQL_ERROR. */
  function EffectOf(a: Attr, v: AttrValue): Option<Effect> {
    match a
    case AccessMode => if v == Word(1) then Some(Flag(true)) else if v == Word(0) then Some(Flag(false)) else None
    case Autocommit => if v == Word(0) then Some(Flag(false)) else if v == Word(1) then Some(Flag(true)) else None
    case ConnectionTimeout => if v.Word? then Some(Number(ToUint32(v.n * 1000))) else None
    case LoginTimeout => if v.Word? then Some(Number(ToUint32(v.n * 1000))) else None
    case CurrentCatalog => Some(NoEffect)
    case MetadataId => if v == Word(1) then Some(Flag(true)) else if v == Word(0) then Some(Flag(false)) else None
    case PacketSize => if v.Word? then Some(Number(v.n)) else None
    case QuietMode => if v.Word? then Some(Number(v.n)) else None
    case TranslateLib => if v.Copy? then Some(Translator(v.text)) else None
    case TranslateOption => if v.Word? then Some(Number(v.n)) else None
    case TxnIsolation => if v.Word? && v.n in ISOLATION_LEVELS then Some(Isolation(v.n)) else None
    case OdbcCursors => None
    case OtherAttr => None
  }

  predicate NeverStored(a: Attr) {
    a == OdbcCursors || a == OtherAttr
  }

  /** Settings held by the driver object survive a disconnect; the others belong to the native connection. */
  predicate DriverLevel(a: Attr) {
    a in {MetadataId, QuietMode, TranslateLib, TranslateOption}
  }

  datatype State = State(open: bool, attrs: map<Attr, AttrValue>, settings: map<Attr, Effect>,
                         copies: nat, freed: seq<nat>)

  const CLOSED: State := State(false, map[], map[], 0, [])

  /** The value stored for an attribute, with a new copy for a string. */
  function Stored(s: State, a: Attr, input: Input): AttrValue {
    match input
    case InString(text) => Copy(s.copies, text)
    case InWord(n) => Word(if a == QuietMode then n else ToUint32(n))
  }

  /** The input has the shape its attribute expects: a string exactly for the string attributes. */
  predicate Shaped(a: Attr, input: Input) {
    input.InString? <==> a in {CurrentCatalog, TranslateLib}
  }

  /** Storing a value frees the copy it replaces. */
  function Store(s: State, a: Attr, input: Input): State {
    var freed := if IsString(a) && a in s.attrs && s.attrs[a].Copy? then s.freed + [s.attrs[a].id] else s.freed;
    s.(attrs := s.attrs[a := Stored(s, a, input)], freed := freed,
       copies := if input.InString? then s.copies + 1 else s.copies)
  }

  /** A value whose application throws changes nothing, except that an old translation library is already gone. */
  function AfterThrow(settings: map<Attr, Effect>, a: Attr): map<Attr, Effect> {
    if a == TranslateLib then settings - {a} else settings
  }

  /**
   * setAttribute: the value is stored first, and applied at once on an open connection; `throws` says whether the
   * native client or the loading of a library throws then.
   */
  function SetAttribute(s: State, a: Attr, input: Input, throws: bool): (State, Code) {
    if a == OtherAttr || (a == LoginTimeout && s.open) then (s, Error)
    else if a == OdbcCursors then (s, if input == InWord(SQL_CUR_USE_DRIVER) && !s.open then Success else Error)
    else
      var s1 := Store(s, a, input);
      if !s.open || a == LoginTimeout then (s1, Success)
      else
        var e := EffectOf(a, s1.attrs[a]);
        if e == None then (s1, Error)
        else if throws then (s1.(settings := AfterThrow(s1.settings, a)), Error)
        else (s1.(settings := s1.settings[a := e.value]), Success)
  }

  /**
   * The replay loop over the attribute map, in the order the map is walked; it stops at the first error, and at the
   * first attribute whose application throws.
   */
  function Replay(attrs: map<Attr, AttrValue>, settings: map<Attr, Effect>, order: seq<Attr>, throws: set<Attr>)
      : (map<Attr, Effect>, Code)
    requires forall a :: a in order ==> a in attrs
    decreases |order|
  {
    if order == [] then (settings, Success)
    else if order[0] == LoginTimeout then Replay(attrs, settings, order[1..], throws)
    else
      var e := EffectOf(order[0], attrs[order[0]]);
      if e == None then (settings, Error)
      else if order[0] in throws then (AfterThrow(settings, order[0]), Error)
      else Replay(attrs, settings[order[0] := e.value], order[1..], throws)
  }

  predicate Walks(attrs: map<Attr, AttrValue>, order: seq<Attr>) {
    forall a :: a in order <==> a in attrs
  }

  /** A new native connection starts with settings of its own. */
  function StartSettings(s: State, native: map<Attr, Effect>): map<Attr, Effect> {
    map a | a in s.settings.Keys + native.Keys && (if DriverLevel(a) then a in s.settings else a in native)
      :: if DriverLevel(a) then s.settings[a] else native[a]
  }

  /**
   * What the native client does to a connect: the open throws and the connection stays closed, or it brings settings of
   * its own, and then applying some of the attributes throws.
   */
  datatype Opening = OpenThrows | Opens(native: map<Attr, Effect>, throws: set<Attr>)

  /** connectT, as far as attributes go: the connection stays open even when the replay fails. */
  function Connect(s: State, order: seq<Attr>, native: Opening): (State, Code)
    requires Walks(s.attrs, order)
  {
    if s.open || native.OpenThrows? then (s, Error)
    else
      var (settings, code) := Replay(s.attrs, StartSettings(s, native.native), order, native.throws);
      (s.(open := true, settings := settings), code)
  }

  function Disconnect(s: State, native: Closing): (State, Code) {
    if !s.open then (s, Error)
    else (s.(open := native.ThrowsOpen?), if native.Closes? then Success else Error)
  }

  // ----- replay -----

  /** A stored value that setConnectionAttribute accepts; the login timeout is not replayed. */
  predicate Acceptable(attrs: map<Attr, AttrValue>, a: Attr)
    requires a in attrs
  {
    a == LoginTimeout || EffectOf(a, attrs[a]).Some?
  }

  predicate AllAcceptable(attrs: map<Attr, AttrValue>) {
    forall a :: a in attrs ==> Acceptable(attrs, a)
  }

  /** Replaying the attribute goes through. */
  predicate Applies(attrs: map<Attr, AttrValue>, throws: set<Attr>, a: Attr)
    requires a in attrs
  {
    Acceptable(attrs, a) && (a == LoginTimeout || a !in throws)
  }

  /** Every replayed attribute has the effect of its stored value; all other settings are the start's. */
  predicate InForce(attrs: map<Attr, AttrValue>, order: seq<Attr>, start: map<Attr, Effect>, r: map<Attr, Effect>) {
    && (forall a :: a in r <==> a in start || (a in order && a != LoginTimeout))
    && (forall a :: a in r ==>
          if a in order && a in attrs && a != LoginTimeout then EffectOf(a, attrs[a]) == Some(r[a])
          else a in start && r[a] == start[a])
  }

  lemma {:induction false} ReplayApplies(attrs: map<Attr, AttrValue>, settings: map<Attr, Effect>, order: seq<Attr>,
                                         throws: set<Attr>)
    requires forall a :: a in order ==> a in attrs
    ensures Replay(attrs, settings, order, throws).1 == Error <==> exists a :: a in order && !Applies(attrs, throws, a)
    ensures Replay(attrs, settings, order, throws).1 in {Success, Error}
    ensures (forall a :: a in order ==> Applies(attrs, throws, a)) ==>
      InForce(attrs, order, settings, Replay(attrs, settings, order, throws).0)
    decreases |order|
  {
    hide EffectOf;
    if order != [] {
      var a := order[0];
      assert forall x :: x in order <==> x == a || x in order[1..];
      if a == LoginTimeout {
        ReplayApplies(attrs, settings, order[1..], throws);
      } else if EffectOf(a, attrs[a]).Some? && a !in throws {
        ReplayApplies(attrs, settings[a := EffectOf(a, attrs[a]).value], order[1..], throws);
      } else {
        assert !Applies(attrs, throws, a);
      }
    }
  }

  /**
   * Connect fails exactly when the connection is open already, the native open throws, or some stored value is not
   * acceptable or throws when it is applied, in whatever order the map is walked; it leaves the connection open unless
   * the native open threw.
   */
  lemma ConnectFailsIff(s: State, order: seq<Attr>, native: Opening)
    requires Walks(s.attrs, order)
    ensures Connect(s, order, native).1
         == (if !s.open && native.Opens? && forall a :: a in s.attrs ==> Applies(s.attrs, native.throws, a)
             then Success else Error)
    ensures Connect(s, order, native).0.open <==> s.open || native.Opens?
    ensures Connect(s, order, native).0.attrs == s.attrs
  {
    hide EffectOf, Applies, Replay;
    if native.Opens? {
      ReplayApplies(s.attrs, StartSettings(s, native.native), order, native.throws);
    }
  }

  /**
   * How far a replay gets that does not go through: the values before the first attribute that does not apply are in
   * force, and all other settings are as at the start, but for a translation library that could not be replaced.
   */
  lemma {:induction false} ReplayStops(attrs: map<Attr, AttrValue>, start: map<Attr, Effect>, order: seq<Attr>,
                                       throws: set<Attr>, i: nat)
    requires forall a :: a in order ==> a in attrs
    requires i < |order| && !Applies(attrs, throws, order[i])
    requires forall j :: 0 <= j < i ==> Applies(attrs, throws, order[j])
    ensures var r := Replay(attrs, start, order, throws).0;
            var gone := order[i] == TranslateLib && EffectOf(order[i], attrs[order[i]]) != None;
            && (forall a :: a in r <==>
                  !(gone && a == TranslateLib) && (a in start || (a in order[..i] && a != LoginTimeout)))
            && (forall a :: a in r ==>
                  if a in order[..i] && a != LoginTimeout then EffectOf(a, attrs[a]) == Some(r[a])
                  else a in start && r[a] == start[a])
    decreases i
  {
    hide EffectOf;
    if i > 0 {
      var a := order[0];
      assert order[..i] == [a] + order[1..][..i - 1];
      assert forall j :: 0 <= j < i - 1 ==> order[1..][j] == order[j + 1];
      var next := if a == LoginTimeout then start else start[a := EffectOf(a, attrs[a]).value];
      ReplayStops(attrs, next, order[1..], throws, i - 1);
    }
  }

  /** Connecting does not replay what is not set: the driver keeps its own settings, the others come anew. */
  lemma UnsetIsNative(s: State, order: seq<Attr>, native: map<Attr, Effect>, throws: set<Attr>, a: Attr)
    requires Walks(s.attrs, order) && !s.open && (a !in s.attrs || a == LoginTimeout)
    ensures var r := Connect(s, order, Opens(native, throws)).0.settings;
            var from := if a in {MetadataId, QuietMode, TranslateLib, TranslateOption} then s.settings else native;
            (a in r <==> a in from) && (a in r ==> r[a] == from[a])
  {
    ReplayLeaves(s.attrs, StartSettings(s, native), order, throws, a);
  }

  lemma {:induction false} ReplayLeaves(attrs: map<Attr, AttrValue>, settings: map<Attr, Effect>, order: seq<Attr>,
                                        throws: set<Attr>, a: Attr)
    requires forall x :: x in order ==> x in attrs
    requires a !in order || a == LoginTimeout
    ensures var r := Replay(attrs, settings, order, throws).0;
            (a in r <==> a in settings) && (a in r ==> r[a] == settings[a])
    decreases |order|
  {
    hide EffectOf;
    if order != [] {
      if order[0] == LoginTimeout {
        ReplayLeaves(attrs, settings, order[1..], throws, a);
      } else if EffectOf(order[0], attrs[order[0]]).Some? {
        ReplayLeaves(attrs, settings[order[0] := EffectOf(order[0], attrs[order[0]]).value], order[1..], throws, a);
      }
    }
  }

  /** When all values apply, the settings after connect do not depend on the order of the replay. */
  lemma ReplayOrderIndependent(s: State, order: seq<Attr>, order': seq<Attr>, native: Opening)
    requires Walks(s.attrs, order) && Walks(s.attrs, order')
    requires native.Opens? ==> forall a :: a in s.attrs ==> Applies(s.attrs, native.throws, a)
    ensures Connect(s, order, native) == Connect(s, order', native)
  {
    hide EffectOf, Replay, StartSettings;
    if !s.open && native.Opens? {
      var start := StartSettings(s, native.native);
      ReplayApplies(s.attrs, start, order, native.throws);
      ReplayApplies(s.attrs, start, order', native.throws);
      var r, r' := Replay(s.attrs, start, order, native.throws).0, Replay(s.attrs, start, order', native.throws).0;
      assert forall a :: a in r <==> a in r';
      assert forall a :: a in r ==> r[a] == r'[a];
      assert r == r';
    }
  }

  // ----- histories -----

  datatype Op =
    | OpSet(attr: Attr, input: Input, throws: bool)
    | OpConnect(order: seq<Attr>, opening: Opening)
    | OpDisconnect(closing: Closing)

  /** An application keeps to the attribute's value shape, and the map is walked over its own keys. */
  predicate Allowed(s: State, op: Op) {
    match op
    case OpSet(a, input, _) => Shaped(a, input)
    case OpConnect(order, _) => Walks(s.attrs, order)
    case OpDisconnect(_) => true
  }

  function Step(s: State, op: Op): State
    requires Allowed(s, op)
  {
    match op
    case OpSet(a, input, throws) => SetAttribute(s, a, input, throws).0
    case OpConnect(order, native) => Connect(s, order, native).0
    case OpDisconnect(native) => Disconnect(s, native).0
  }

  predicate AllowedRun(s: State, ops: seq<Op>)
    decreases |ops|
  {
    ops == [] || (Allowed(s, ops[0]) && AllowedRun(Step(s, ops[0]), ops[1..]))
  }

  function Run(s: State, ops: seq<Op>): State
    requires AllowedRun(s, ops)
    decreases |ops|
  {
    if ops == [] then s else Run(Step(s, ops[0]), ops[1..])
  }

  /** The 32 bits of a word that are stored for an attribute. */
  function Low32(n: int): int {
    n % 0x1_0000_0000
  }

  /** The values that the driver accepts for an attribute. */
  predicate ValidInput(a: Attr, input: Input) {
    match a
    case AccessMode | Autocommit | MetadataId => input.InWord? && Low32(input.n) in {0, 1}
    case TxnIsolation => input.InWord? && Low32(input.n) in {0, 1, 2, 4, 8}
    case ConnectionTimeout | PacketSize | QuietMode | TranslateOption => input.InWord?
    case TranslateLib => input.InString?
    case CurrentCatalog | LoginTimeout | OdbcCursors | OtherAttr => true
  }

  /**
   * The setting that a value stands for: read-only access, autocommit and metadata identifiers are on for 1 and off for
   * 0, timeouts count milliseconds in 32 bits, and the rest is taken as it is.
   */
  predicate Means(a: Attr, input: Input, e: Effect) {
    match a
    case AccessMode | Autocommit | MetadataId => input.InWord? && e == Flag(Low32(input.n) == 1)
    case ConnectionTimeout | LoginTimeout => input.InWord? && e == Number(Low32(Low32(input.n) * 1000))
    case PacketSize | TranslateOption => input.InWord? && e == Number(Low32(input.n))
    case QuietMode => input.InWord? && e == Number(input.n)
    case TxnIsolation => input.InWord? && e == Isolation(Low32(input.n))
    case TranslateLib => input.InString? && e == Translator(input.text)
    case CurrentCatalog => e == NoEffect
    case OdbcCursors | OtherAttr => false
  }

  /** A small word is taken as it is. */
  lemma SmallWords(n: int)
    requires 0 <= n && 1000 * n < 0x1_0000_0000
    ensures Low32(n) == n && Low32(Low32(n) * 1000) == 1000 * n
  {
  }

  /** An effect is there exactly for the valid values, and it is what the value means. */
  lemma EffectMeans(s: State, a: Attr, input: Input)
    requires Shaped(a, input) && !NeverStored(a)
    ensures EffectOf(a, Stored(s, a, input)).Some? <==> ValidInput(a, input)
    ensures ValidInput(a, input) ==> Means(a, input, EffectOf(a, Stored(s, a, input)).value)
  {
  }

  /**
   * When setting an attribute fails: an attribute that is not supported, the login timeout or the cursor library on an
   * open connection, another cursor library than the driver's, and on an open connection a value that is not valid or
   * throws when it is applied.
   */
  lemma SetFailsIff(s: State, a: Attr, input: Input, throws: bool)
    requires Shaped(a, input)
    ensures SetAttribute(s, a, input, throws).1 == Error <==>
      match a {
        case OtherAttr => true
        case LoginTimeout => s.open
        case OdbcCursors => s.open || input != InWord(2)
        case _ => s.open && (!ValidInput(a, input) || throws)
      }
    ensures SetAttribute(s, a, input, throws).1 in {Success, Error}
  {
    hide EffectOf, Stored, ValidInput, Means;
    if !NeverStored(a) {
      EffectMeans(s, a, input);
    }
  }

  /**
   * What setting an attribute does to the settings: nothing to those of other attributes, and nothing unless the
   * connection is open and the value valid; then the setting is what the value means, or as it was if applying it
   * throws, but for a translation library, which is gone.
   */
  lemma SetChanges(s: State, a: Attr, input: Input, throws: bool)
    requires Shaped(a, input) && !NeverStored(a) && a != LoginTimeout
    ensures var r := SetAttribute(s, a, input, throws).0;
            && r.open == s.open && a in r.attrs
            && (forall b :: b != a ==> (b in r.attrs <==> b in s.attrs) && (b in r.settings <==> b in s.settings))
            && (forall b :: b != a && b in s.attrs ==> r.attrs[b] == s.attrs[b])
            && (forall b :: b != a && b in s.settings ==> r.settings[b] == s.settings[b])
            && (if !s.open || !ValidInput(a, input) then r.settings == s.settings
                else if !throws then a in r.settings && Means(a, input, r.settings[a])
                else if a == TranslateLib then a !in r.settings
                else r.settings == s.settings)
  {
    hide EffectOf, Stored, ValidInput, Means;
    EffectMeans(s, a, input);
  }

  /** A call with a valid value, if any, whose application does not throw. */
  predicate ValidCall(op: Op) {
    match op
    case OpSet(a, input, throws) => ValidInput(a, input) && !throws
    case OpConnect(_, Opens(_, throws)) => throws == {}
    case _ => true
  }

  predicate ValidHistory(ops: seq<Op>) {
    forall i :: 0 <= i < |ops| ==> ValidCall(ops[i])
  }

  /** On an open connection every stored value but the login timeout is in force. */
  predicate Synced(s: State) {
    && AllAcceptable(s.attrs)
    && (s.open ==> forall a :: a in s.attrs && a != LoginTimeout ==>
          a in s.settings && EffectOf(a, s.attrs[a]) == Some(s.settings[a]))
  }

  lemma ValidInputAcceptable(s: State, a: Attr, input: Input)
    requires ValidInput(a, input)
    ensures a == LoginTimeout || NeverStored(a) || EffectOf(a, Stored(s, a, input)).Some?
  {
  }

  lemma StepSynced(s: State, op: Op)
    requires Synced(s) && Allowed(s, op) && ValidCall(op)
    ensures Synced(Step(s, op))
  {
    hide EffectOf, Stored, Replay, StartSettings, ValidInput;
    match op
    case OpSet(a, input, _) => ValidInputAcceptable(s, a, input);
    case OpConnect(order, Opens(native, throws)) => ReplayApplies(s.attrs, StartSettings(s, native), order, throws);
    case _ =>
  }

  /** Over every history of valid values, an open connection has every stored attribute in force. */
  lemma {:induction false} HistorySynced(s: State, ops: seq<Op>)
    requires Synced(s) && AllowedRun(s, ops) && ValidHistory(ops)
    ensures Synced(Run(s, ops))
    decreases |ops|
  {
    hide Synced, Step, ValidCall;
    if ops != [] {
      StepSynced(s, ops[0]);
      HistorySynced(Step(s, ops[0]), ops[1..]);
    }
  }

  /** The last input set for an attribute. */
  function LastInput(ops: seq<Op>, a: Attr, before: Option<Input>): Option<Input>
    decreases |ops|
  {
    if ops == [] then before
    else LastInput(ops[1..], a, if ops[0].OpSet? && ops[0].attr == a then Some(ops[0].input) else before)
  }

  /** The stored value of an attribute is the given input, up to the identity of a copy. */
  predicate StoredIs(s: State, a: Attr, input: Option<Input>) {
    match input
    case None => a !in s.attrs
    case Some(InString(text)) => a in s.attrs && s.attrs[a].Copy? && s.attrs[a].text == text
    case Some(InWord(n)) => a in s.attrs && s.attrs[a] == Word(if a == QuietMode then n else ToUint32(n))
  }

  /** The stored value after one operation: the new input if the operation set this attribute. */
  lemma StepStored(s: State, op: Op, a: Attr, before: Option<Input>)
    requires Allowed(s, op) && a != LoginTimeout && !NeverStored(a) && StoredIs(s, a, before)
    ensures StoredIs(Step(s, op), a, if op.OpSet? && op.attr == a then Some(op.input) else before)
  {
    hide EffectOf, Replay, ToUint32;
  }

  lemma {:induction false} LastInputStored(s: State, ops: seq<Op>, a: Attr, before: Option<Input>)
    requires AllowedRun(s, ops) && a != LoginTimeout && !NeverStored(a) && StoredIs(s, a, before)
    ensures StoredIs(Run(s, ops), a, LastInput(ops, a, before))
    decreases |ops|
  {
    hide Step, StoredIs;
    if ops != [] {
      StepStored(s, ops[0], a, before);
      LastInputStored(Step(s, ops[0]), ops[1..], a,
                      if ops[0].OpSet? && ops[0].attr == a then Some(ops[0].input) else before);
    }
  }

  predicate SetsAttr(op: Op, a: Attr) {
    op.OpSet? && op.attr == a
  }

  /** Call `i` is the last one of a history to set the attribute. */
  predicate IsLastSet(ops: seq<Op>, a: Attr, i: nat) {
    i < |ops| && SetsAttr(ops[i], a) && forall j :: i < j < |ops| ==> !SetsAttr(ops[j], a)
  }

  lemma {:induction false} LastInputKept(ops: seq<Op>, a: Attr, before: Option<Input>)
    requires forall i :: 0 <= i < |ops| ==> !SetsAttr(ops[i], a)
    ensures LastInput(ops, a, before) == before
    decreases |ops|
  {
    if ops != [] {
      assert !SetsAttr(ops[0], a);
      LastInputKept(ops[1..], a, before);
    }
  }

  lemma {:induction false} LastInputAt(ops: seq<Op>, a: Attr, before: Option<Input>, i: nat)
    requires IsLastSet(ops, a, i)
    ensures LastInput(ops, a, before) == Some(ops[i].input)
    decreases |ops|
  {
    if i == 0 {
      LastInputKept(ops[1..], a, Some(ops[0].input));
    } else {
      LastInputAt(ops[1..], a, if SetsAttr(ops[0], a) then Some(ops[0].input) else before, i - 1);
    }
  }

  /** Over every history, open or closed and valid or not, the stored value is that of the last call that set it. */
  lemma LastSetStored(ops: seq<Op>, a: Attr, i: nat)
    requires AllowedRun(CLOSED, ops) && a != LoginTimeout && !NeverStored(a) && IsLastSet(ops, a, i)
    ensures StoredIs(Run(CLOSED, ops), a, Some(ops[i].input))
  {
    hide Run, AllowedRun, LastInput;
    LastInputStored(CLOSED, ops, a, None);
    LastInputAt(ops, a, None, i);
  }

  /**
   * Over every history of valid values, starting from a new connection: whenever the connection is open, each setting
   * is what the last value set for its attribute means, whether that was before or after connecting.
   */
  lemma OpenConnectionHasLastValues(ops: seq<Op>, a: Attr, i: nat)
    requires AllowedRun(CLOSED, ops) && ValidHistory(ops) && a != LoginTimeout && !NeverStored(a)
    requires Run(CLOSED, ops).open && IsLastSet(ops, a, i)
    ensures var s := Run(CLOSED, ops);
            a in s.settings && Means(a, ops[i].input, s.settings[a])
  {
    hide Run, AllowedRun, LastInput, ToUint32, Means, ValidInput;
    var s := Run(CLOSED, ops);
    HistorySynced(CLOSED, ops);
    LastSetStored(ops, a, i);
    LastSetShaped(CLOSED, ops, i);
    assert ValidCall(ops[i]);
    EffectMeans(s, a, ops[i].input);
    StoredEffect(s, a, ops[i].input);
  }

  lemma {:induction false} LastSetShaped(s: State, ops: seq<Op>, i: nat)
    requires AllowedRun(s, ops) && i < |ops| && ops[i].OpSet?
    ensures Shaped(ops[i].attr, ops[i].input)
    decreases |ops|
  {
    hide Step;
    if i > 0 {
      LastSetShaped(Step(s, ops[0]), ops[1..], i - 1);
    }
  }

  /** The effect does not depend on which copy of a string is stored. */
  lemma StoredEffect(s: State, a: Attr, input: Input)
    requires StoredIs(s, a, Some(input))
    ensures EffectOf(a, s.attrs[a]) == EffectOf(a, Stored(s, a, input))
  {
  }

  /** One more acceptable value in the replayed map only changes the setting of its own attribute. */
  lemma ReplayWithOneMore(attrs: map<Attr, AttrValue>, order: seq<Attr>, order': seq<Attr>, start: map<Attr, Effect>,
                          a: Attr, v: AttrValue, r: map<Attr, Effect>, r': map<Attr, Effect>)
    requires Walks(attrs, order) && Walks(attrs[a := v], order')
    requires a != LoginTimeout && EffectOf(a, v).Some?
    requires InForce(attrs, order, start, r) && InForce(attrs[a := v], order', start, r')
    ensures r' == r[a := EffectOf(a, v).value]
  {
    hide EffectOf;
    var t := r[a := EffectOf(a, v).value];
    forall b
      ensures b in r' <==> b in t
      ensures b in r' ==> r'[b] == t[b]
    {
      if b != a && b in attrs {
        assert attrs[a := v][b] == attrs[b];
      }
    }
  }

  /** Setting a valid value before connecting or right after it leaves the same state. */
  lemma SetBeforeOrAfter(s: State, a: Attr, input: Input, order: seq<Attr>, order': seq<Attr>,
                         native: Opening)
    requires !s.open && native.Opens? && native.throws == {} && AllAcceptable(s.attrs)
    requires a != LoginTimeout && !NeverStored(a) && ValidInput(a, input)
    requires Walks(s.attrs, order) && Walks(SetAttribute(s, a, input, false).0.attrs, order')
    ensures Connect(SetAttribute(s, a, input, false).0, order', native).0
         == SetAttribute(Connect(s, order, native).0, a, input, false).0
  {
    hide EffectOf, Replay, StartSettings, ValidInput, Stored, InForce, AllAcceptable;
    var v, start := Stored(s, a, input), StartSettings(s, native.native);
    ValidInputAcceptable(s, a, input);
    AcceptableWithOneMore(s.attrs, a, v);
    StartUnchanged(s, SetAttribute(s, a, input, false).0, native.native);
    ReplayInForce(s.attrs, start, order);
    ReplayInForce(s.attrs[a := v], start, order');
    StoredSame(s, Connect(s, order, native).0, a, input);
    ReplayWithOneMore(s.attrs, order, order', start, a, v, Replay(s.attrs, start, order, {}).0,
                      Replay(s.attrs[a := v], start, order', {}).0);
  }

  lemma AcceptableWithOneMore(attrs: map<Attr, AttrValue>, a: Attr, v: AttrValue)
    requires AllAcceptable(attrs) && EffectOf(a, v).Some?
    ensures AllAcceptable(attrs[a := v])
  {
    hide EffectOf;
  }

  lemma ReplayInForce(attrs: map<Attr, AttrValue>, settings: map<Attr, Effect>, order: seq<Attr>)
    requires Walks(attrs, order) && AllAcceptable(attrs)
    ensures InForce(attrs, order, settings, Replay(attrs, settings, order, {}).0)
  {
    hide EffectOf, InForce, Replay, Acceptable;
    ReplayApplies(attrs, settings, order, {});
  }

  lemma StartUnchanged(s: State, s': State, native: map<Attr, Effect>)
    requires s.settings == s'.settings
    ensures StartSettings(s, native) == StartSettings(s', native)
  {
  }

  lemma StoredSame(s: State, s': State, a: Attr, input: Input)
    requires s.copies == s'.copies
    ensures Stored(s, a, input) == Stored(s', a, input)
  {
  }

  /**
   * A value set while closed is stored without being checked: the call succeeds, and the next connect reports an
   * error although the connection is open.
   */
  lemma UncheckedValue()
    ensures var (s, code) := SetAttribute(CLOSED, AccessMode, InWord(7), false);
            && code == Success && !AllAcceptable(s.attrs)
            && Connect(s, [AccessMode], Opens(map[], {})).0.open
            && Connect(s, [AccessMode], Opens(map[], {})).1 == Error
  {
    var s := SetAttribute(CLOSED, AccessMode, InWord(7), false).0;
    assert s.attrs[AccessMode] == Word(7) && !Acceptable(s.attrs, AccessMode);
    ConnectFailsIff(s, [AccessMode], Opens(map[], {}));
  }

  /**
   * A close that goes through, or throws but leaves the connection closed, keeps the stored attributes; the next
   * connect then opens the connection again. A closed connection cannot be closed.
   */
  lemma ClosedAndOpenedAgain(s: State, native: Closing, order: seq<Attr>, opening: Opening)
    requires Walks(s.attrs, order)
    ensures var (r, code) := Disconnect(s, native);
            && (code == Success <==> s.open && native == Closes) && code in {Success, Error}
            && (r.open <==> s.open && native == ThrowsOpen) && r == s.(open := r.open)
            && (!r.open && opening.Opens? ==> Connect(r, order, opening).0.open)
  {
    hide Replay, StartSettings;
  }

  // ----- ownership of string copies -----

  /** The attribute owns this copy. */
  predicate IsCopy(attrs: map<Attr, AttrValue>, a: Attr, id: nat) {
    a in attrs && attrs[a].Copy? && attrs[a].id == id
  }

  /** Some attribute owns the copy. */
  predicate Owns(s: State, id: nat) {
    exists a :: IsCopy(s.attrs, a, id)
  }

  /** Copies are owned by string attributes, one each. */
  predicate OneOwner(s: State) {
    && (forall a :: a in s.attrs && s.attrs[a].Copy? ==> IsString(a) && s.attrs[a].id < s.copies)
    && (forall a, b :: a in s.attrs && b in s.attrs && s.attrs[a].Copy? && s.attrs[b].Copy? && a != b ==>
          s.attrs[a].id != s.attrs[b].id)
  }

  /** What has been freed is no longer owned, and was freed once. */
  ghost predicate FreedOnce(s: State) {
    && (forall i :: 0 <= i < |s.freed| ==> s.freed[i] < s.copies && !Owns(s, s.freed[i]))
    && Distinct(s.freed)
  }

  ghost predicate NothingLost(s: State) {
    forall id: nat :: id < s.copies ==> id in s.freed || Owns(s, id)
  }

  /** Each copy is owned by one attribute or has been freed, once, and never both. */
  ghost predicate Accounted(s: State) {
    OneOwner(s) && FreedOnce(s) && NothingLost(s)
  }

  /** Storing hands over the copy of its own attribute and no other. */
  lemma StoreOwners(s: State, a: Attr, input: Input, id: nat)
    requires OneOwner(s) && id <= s.copies
    ensures Owns(Store(s, a, input), id) <==>
      if id == s.copies then input.InString? else Owns(s, id) && !IsCopy(s.attrs, a, id)
  {
    var r := Store(s, a, input);
    if id == s.copies && input.InString? {
      assert IsCopy(r.attrs, a, id);
    }
    if Owns(s, id) && !IsCopy(s.attrs, a, id) {
      var b :| IsCopy(s.attrs, b, id);
      assert IsCopy(r.attrs, b, id);
    }
    if Owns(r, id) && id < s.copies {
      var b :| IsCopy(r.attrs, b, id);
      assert IsCopy(s.attrs, b, id);
    }
  }

  lemma StoreFreedOnce(s: State, a: Attr, input: Input)
    requires OneOwner(s) && FreedOnce(s) && Shaped(a, input)
    ensures FreedOnce(Store(s, a, input))
  {
    hide Owns, Stored;
    var r := Store(s, a, input);
    if |r.freed| > |s.freed| {
      assert IsCopy(s.attrs, a, s.attrs[a].id);
      CopyOwned(s, a, s.attrs[a].id);
    }
    forall i | 0 <= i < |r.freed|
      ensures r.freed[i] < r.copies && !Owns(r, r.freed[i])
    {
      StoreOwners(s, a, input, r.freed[i]);
    }
  }

  lemma CopyOwned(s: State, a: Attr, id: nat)
    requires IsCopy(s.attrs, a, id)
    ensures Owns(s, id)
  {
  }

  lemma StoreNothingLost(s: State, a: Attr, input: Input)
    requires NothingLost(s) && OneOwner(s) && Shaped(a, input)
    ensures NothingLost(Store(s, a, input))
  {
    hide Owns, Stored;
    var r := Store(s, a, input);
    forall id: nat | id < r.copies
      ensures id in r.freed || Owns(r, id)
    {
      StoreOwners(s, a, input, id);
      if id < s.copies && IsCopy(s.attrs, a, id) {
        assert r.freed[|s.freed|] == id;
      }
    }
  }

  lemma StoreAccounted(s: State, a: Attr, input: Input)
    requires Accounted(s) && Shaped(a, input)
    ensures Accounted(Store(s, a, input))
  {
    hide FreedOnce, NothingLost;
    StoreFreedOnce(s, a, input);
    StoreNothingLost(s, a, input);
  }

  lemma StepAccounted(s: State, op: Op)
    requires Accounted(s) && Allowed(s, op)
    ensures Accounted(Step(s, op))
  {
    hide Accounted, Store, EffectOf, Replay;
    if op.OpSet? && !NeverStored(op.attr) {
      StoreAccounted(s, op.attr, op.input);
      AccountedFrame(Store(s, op.attr, op.input), Step(s, op));
    }
    AccountedFrame(s, Step(s, op));
  }

  lemma AccountedFrame(s: State, s': State)
    requires Accounted(s)
    ensures s'.attrs == s.attrs && s'.copies == s.copies && s'.freed == s.freed ==> Accounted(s')
  {
  }

  /** Over every history, valid or not, no copy is leaked or freed twice. */
  lemma {:induction false} HistoryAccounted(s: State, ops: seq<Op>)
    requires Accounted(s) && AllowedRun(s, ops)
    ensures Accounted(Run(s, ops))
    decreases |ops|
  {
    hide Accounted, Step;
    if ops != [] {
      StepAccounted(s, ops[0]);
      HistoryAccounted(Step(s, ops[0]), ops[1..]);
    }
  }

  /** A walk over the attribute map: every key, once. */
  predicate WalksOnce(attrs: map<Attr, AttrValue>, order: seq<Attr>) {
    Walks(attrs, order) && Distinct(order)
  }

  /** What the destructor frees: the copies of the string attributes, in the order the map is walked. */
  function Frees(attrs: map<Attr, AttrValue>, order: seq<Attr>): seq<nat>
    requires forall a :: a in order ==> a in attrs
    decreases |order|
  {
    if order == [] then []
    else
      (if IsString(order[0]) && attrs[order[0]].Copy? then [attrs[order[0]].id] else [])
      + Frees(attrs, order[1..])
  }

  function Destroyed(s: State, order: seq<Attr>): State
    requires Walks(s.attrs, order)
  {
    s.(freed := s.freed + Frees(s.attrs, order))
  }

  lemma {:induction false} FreesMembers(attrs: map<Attr, AttrValue>, order: seq<Attr>, id: nat)
    requires forall a :: a in order ==> a in attrs
    ensures id in Frees(attrs, order) <==> exists a :: a in order && IsString(a) && IsCopy(attrs, a, id)
    decreases |order|
  {
    if order != [] {
      FreesMembers(attrs, order[1..], id);
      assert forall a :: a in order <==> a == order[0] || a in order[1..];
    }
  }

  lemma {:induction false} FreesDistinct(s: State, order: seq<Attr>)
    requires OneOwner(s) && forall a :: a in order ==> a in s.attrs
    requires Distinct(order)
    ensures Distinct(Frees(s.attrs, order))
    decreases |order|
  {
    if order != [] {
      FreesDistinct(s, order[1..]);
      if s.attrs[order[0]].Copy? {
        FreesMembers(s.attrs, order[1..], s.attrs[order[0]].id);
      }
    }
  }

  /**
   * At the end of any life, valid values or not and whatever order the map is walked in, every copy that was ever
   * made has been freed, exactly once.
   */
  lemma LifeFreesEverythingOnce(ops: seq<Op>, order: seq<Attr>)
    requires AllowedRun(CLOSED, ops) && WalksOnce(Run(CLOSED, ops).attrs, order)
    ensures var s := Destroyed(Run(CLOSED, ops), order);
            && (forall id: nat :: id < s.copies <==> id in s.freed)
            && Distinct(s.freed)
  {
    hide Run, Walks;
    HistoryAccounted(CLOSED, ops);
    DestroyedFreesAll(Run(CLOSED, ops), order);
  }

  lemma DestroyedFreesAll(s: State, order: seq<Attr>)
    requires Accounted(s) && WalksOnce(s.attrs, order)
    ensures var r := Destroyed(s, order);
            && (forall id: nat :: id < r.copies <==> id in r.freed)
            && Distinct(r.freed)
  {
    hide Frees, Distinct;
    var r, f := Destroyed(s, order), Frees(s.attrs, order);
    FreesDistinct(s, order);
    forall id: nat
      ensures id in f <==> Owns(s, id)
      ensures id < r.copies <==> id in r.freed
    {
      FreesMembers(s.attrs, order, id);
    }
    forall i | 0 <= i < |s.freed|
      ensures s.freed[i] !in f
    {
      FreesMembers(s.attrs, order, s.freed[i]);
      assert !Owns(s, s.freed[i]);
    }
    DistinctTogether(s.freed, f);
  }

  lemma DistinctTogether(x: seq<nat>, y: seq<nat>)
    requires Distinct(x) && Distinct(y)
    requires forall i :: 0 <= i < |x| ==> x[i] !in y
    ensures Distinct(x + y)
  {
    forall i, j | 0 <= i < j < |x + y|
      ensures (x + y)[i] != (x + y)[j]
    {
      if j >= |x| {
        assert (x + y)[j] == y[j - |x|];
        assert (x + y)[i] == if i < |x| then x[i] else y[i - |x|];
      }
    }
  }
}
