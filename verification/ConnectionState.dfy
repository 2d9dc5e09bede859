/**
 * The attribute map of a connection object, updated in place: SnappyConnection's setAttribute, the replay loop of
 * connectT, disconnect and the destructor, each against the functions of ConnAttributes.
 */
module ConnectionState {
  import opened OdbcTypes
  import opened ConnAttributes

  class SnappyConnection {
    var open: bool
    var attributes: map<Attr, AttrValue>
    /** What the native connection and the driver have in force. */
    var settings: map<Attr, Effect>
    /** The allocator of the string copies: how many were made, and which were freed, in order. */
    var copies: nat
    var freed: seq<nat>

    function Contents(): State
      reads this
    {
      State(open, attributes, settings, copies, freed)
    }

    constructor ()
      ensures Contents() == CLOSED
    {
      open, attributes, settings, copies, freed := false, map[], map[], 0, [];
    }

    /** `throws` says whether applying a value throws, which the callers report as an error. */
    method SetConnectionAttribute(a: Attr, v: AttrValue, throws: bool) returns (code: Code)
      modifies this`settings
      ensures code == if EffectOf(a, v).Some? && !throws then Success else Error
      ensures settings == match EffectOf(a, v) {
                case None => old(settings)
                case Some(e) => if throws then AfterThrow(old(settings), a) else old(settings)[a := e]
              }
    {
      match EffectOf(a, v)
      case None => code := Error;
      case Some(e) =>
        if throws {
          settings := AfterThrow(settings, a);
          return Error;
        }
        settings := settings[a := e];
        code := Success;
    }

    /** A string is copied before the old copy of its attribute is freed. */
    method StoreValue(a: Attr, input: Input) returns (v: AttrValue)
      requires Shaped(a, input)
      modifies this`attributes, this`copies, this`freed
      ensures Contents() == Store(old(Contents()), a, input)
      ensures a in attributes && attributes[a] == v
    {
      hide ToUint32;
      match input {
        case InString(text) =>
          v := Copy(copies, text);
          copies := copies + 1;
          if a in attributes && attributes[a].Copy? {
            freed := freed + [attributes[a].id];
          }
          attributes := attributes[a := v];
        case InWord(n) =>
          v := Word(if a == QuietMode then n else ToUint32(n));
          attributes := attributes[a := v];
      }
    }

    method SetAttribute(a: Attr, input: Input, throws: bool) returns (code: Code)
      requires Shaped(a, input)
      modifies this
      ensures (Contents(), code) == ConnAttributes.SetAttribute(old(Contents()), a, input, throws)
    {
      hide Store;
      if a == OtherAttr || (a == LoginTimeout && open) {
        return Error;
      }
      if a == OdbcCursors {
        if input != InWord(SQL_CUR_USE_DRIVER) {
          return Error;
        }
        if open {
          code := SetConnectionAttribute(a, Word(SQL_CUR_USE_DRIVER), false);
          return;
        }
        return Success;
      }
      var v := StoreValue(a, input);
      if open && a != LoginTimeout {
        code := SetConnectionAttribute(a, v, throws);
      } else {
        code := Success;
      }
    }

    /** A fresh native connection comes with settings of its own; the driver's fields keep theirs. */
    method OpenNative(native: map<Attr, Effect>)
      modifies this
      ensures Contents() == old(Contents()).(open := true, settings := StartSettings(old(Contents()), native))
    {
      settings := StartSettings(Contents(), native);
      open := true;
    }

    method Connect(order: seq<Attr>, native: Opening) returns (code: Code)
      requires Walks(attributes, order)
      modifies this
      ensures (Contents(), code) == ConnAttributes.Connect(old(Contents()), order, native)
    {
      if open || native.OpenThrows? {
        return Error;
      }
      OpenNative(native.native);
      code := Success;
      var i := 0;
      while i < |order|
        invariant 0 <= i <= |order| && code == Success
        invariant Contents() == old(Contents()).(open := true, settings := settings)
        invariant Replay(attributes, settings, order[i..], native.throws)
               == Replay(attributes, StartSettings(old(Contents()), native.native), order, native.throws)
      {
        assert order[i..][1..] == order[i + 1..];
        if order[i] != LoginTimeout {
          code := SetConnectionAttribute(order[i], attributes[order[i]], order[i] in native.throws);
          if code == Error {
            return;
          }
        }
        i := i + 1;
      }
    }

    method Disconnect(native: Closing) returns (code: Code)
      modifies this`open
      ensures (Contents(), code) == ConnAttributes.Disconnect(old(Contents()), native)
    {
      if open {
        open := native.ThrowsOpen?;
        return if native.Closes? then Success else Error;
      }
      return Error;
    }

    /** The destructor's walk over the attribute map. */
    method FreeAttributes(order: seq<Attr>)
      requires Walks(attributes, order)
      modifies this`freed
      ensures Contents() == Destroyed(old(Contents()), order)
    {
      var i := 0;
      while i < |order|
        invariant 0 <= i <= |order|
        invariant freed + Frees(attributes, order[i..]) == old(freed) + Frees(attributes, order)
      {
        assert order[i..][1..] == order[i + 1..];
        ghost var rest := Frees(attributes, order[i + 1..]);
        assert forall x: nat :: freed + ([x] + rest) == (freed + [x]) + rest;
        if IsString(order[i]) && attributes[order[i]].Copy? {
          freed := freed + [attributes[order[i]].id];
        }
        i := i + 1;
      }
      assert Frees(attributes, order[i..]) == [];
    }
  }
}
