/**
 * The handle objects themselves: environments with their connection vectors, connections that point back to their
 * environment, and the global list, each call against the step function of HandleRegistry.
 */
module DriverHandles {
  import opened OdbcTypes
  import opened HandleRegistry

  class SnappyConnection {
    const env: SnappyEnvironment
    /** Whether the native connection is open. */
    var open: bool

    constructor (env: SnappyEnvironment)
      ensures this.env == env && !open
    {
      this.env := env;
      open := false;
    }
  }

  function Codes(conns: seq<SnappyConnection>, operation: SnappyConnection -> Code): (r: seq<Code>)
    ensures |r| == |conns|
  {
    seq(|conns|, i requires 0 <= i < |conns| => operation(conns[i]))
  }

  lemma CodesAppend(conns: seq<SnappyConnection>, conn: SnappyConnection, operation: SnappyConnection -> Code)
    ensures Codes(conns + [conn], operation) == Codes(conns, operation) + [operation(conn)]
  {
  }

  function OpenOnes(conns: seq<SnappyConnection>): set<SnappyConnection>
    reads conns
  {
    set c | c in conns && c.open
  }

  class SnappyEnvironment {
    var connections: seq<SnappyConnection>

    constructor ()
      ensures connections == []
    {
      connections := [];
    }

    method AddNewActiveConnection(conn: SnappyConnection)
      modifies this
      ensures connections == old(connections) + [conn]
    {
      connections := connections + [conn];
    }

    /** Erases the connection from the vector, or reports SQL_NO_DATA. */
    method RemoveActiveConnection(conn: SnappyConnection) returns (code: Code)
      modifies this
      ensures connections == RemoveFirst(old(connections), conn)
      ensures code == if conn in old(connections) then Success else NoData
    {
      var i := 0;
      while i < |connections|
        invariant 0 <= i <= |connections| && connections == old(connections)
        invariant conn !in connections[..i]
      {
        if connections[i] == conn {
          RemoveFirstAt(connections, conn, i);
          connections := connections[..i] + connections[i + 1..];
          return Success;
        }
        i := i + 1;
      }
      RemoveFirstNothing(connections, conn);
      return NoData;
    }

    /** The operation is run on every active connection; `visited` records on which, in order. */
    method ForEachActiveConnection(operation: SnappyConnection -> Code)
      returns (result: Code, visited: seq<SnappyConnection>)
      ensures visited == Visited(OpenOnes(connections), connections)
      ensures result == Overall(Codes(visited, operation))
    {
      hide RemoveFirst, Distinct, Codes, Overall;
      result, visited := Success, [];
      assert Codes(visited, operation) == [];
      OverallMeans([]);
      ghost var active := OpenOnes(connections);
      var i := 0;
      while i < |connections|
        invariant 0 <= i <= |connections|
        invariant visited + Visited(active, connections[i..]) == Visited(active, connections)
        invariant result == Overall(Codes(visited, operation))
      {
        var conn := connections[i];
        assert connections[i..][1..] == connections[i + 1..];
        assert conn.open <==> conn in active;
        ghost var rest := Visited(active, connections[i + 1..]);
        assert visited + ([conn] + rest) == (visited + [conn]) + rest;
        if conn.open {
          var res := operation(conn);
          CodesAppend(visited, conn, operation);
          OverallAppend(Codes(visited, operation), res);
          visited := visited + [conn];
          match res
          case Success =>
          case Error => result := Error;
          case SuccessWithInfo =>
            if result == Success {
              result := res;
            }
          case _ =>
            if result != Error {
              result := res;
            }
        }
        i := i + 1;
      }
    }
  }

  /** The driver's handles: the static list of environments, and, for the proofs, which objects are live. */
  class Handles {
    var envHandles: seq<SnappyEnvironment>
    ghost var liveEnvs: set<SnappyEnvironment>
    ghost var liveConns: set<SnappyConnection>

    ghost function Contents(): World<SnappyEnvironment, SnappyConnection>
      reads this, liveEnvs, liveConns
    {
      World(envHandles, map e | e in liveEnvs :: e.connections, map c | c in liveConns :: c.env,
            set c | c in liveConns && c.open)
    }

    ghost predicate Valid()
      reads this, liveEnvs, liveConns
    {
      Consistent(Contents())
    }

    constructor ()
      ensures Valid() && Contents() == EmptyWorld()
    {
      envHandles, liveEnvs, liveConns := [], {}, {};
    }

    method NewEnvironment() returns (env: SnappyEnvironment, code: Code)
      requires Valid()
      modifies this
      ensures Valid() && fresh(env)
      ensures (Contents(), code) == Step(old(Contents()), Op.NewEnvironment(env))
    {
      hide Listed, Registered, Nested, RemoveFirst, Distinct;
      ghost var before := Contents();
      env := new SnappyEnvironment();
      envHandles := envHandles + [env];
      liveEnvs := liveEnvs + {env};
      code := Success;
      assert Contents().lists == before.lists[env := []];
      assert Contents().owner == before.owner && Contents().open == before.open;
      StepConsistent(before, Op.NewEnvironment(env));
    }

    method FreeEnvironment(handle: Option<SnappyEnvironment>) returns (code: Code)
      requires Valid() && (handle.Some? ==> handle.value in liveEnvs)
      modifies this
      ensures Valid()
      ensures (Contents(), code) == Step(old(Contents()), Op.FreeEnvironment(handle))
    {
      hide Listed, Registered, Nested, RemoveFirst, Distinct;
      if handle == None {
        return InvalidHandle;
      }
      var env := handle.value;
      if |env.connections| > 0 {
        return Error;
      }
      ghost var before := Contents();
      var i := 0;
      while i < |envHandles|
        invariant 0 <= i <= |envHandles| && envHandles == before.envs
        invariant env !in envHandles[..i]
      {
        if env == envHandles[i] {
          break;
        }
        i := i + 1;
      }
      if i < |envHandles| {
        RemoveFirstAt(envHandles, env, i);
        envHandles := envHandles[..i] + envHandles[i + 1..];
      } else {
        RemoveFirstNothing(envHandles, env);
      }
      liveEnvs := liveEnvs - {env};
      assert Contents().lists == before.lists - {env};
      assert Contents().owner == before.owner && Contents().open == before.open;
      StepConsistent(before, Op.FreeEnvironment(Some(env)));
      return Success;
    }

    method NewConnection(env: SnappyEnvironment?) returns (code: Code, conn: SnappyConnection?)
      requires Valid() && (env != null ==> env in liveEnvs)
      modifies this, env
      ensures Valid()
      ensures env == null ==> conn == null && code == InvalidHandle && Contents() == old(Contents())
      ensures env != null ==> conn != null && fresh(conn)
                              && (Contents(), code) == Step(old(Contents()), Op.NewConnection(Some(env), conn))
    {
      hide Listed, Registered, Nested, RemoveFirst, Distinct;
      if env == null {
        return InvalidHandle, null;
      }
      ghost var before := Contents();
      conn := new SnappyConnection(env);
      env.AddNewActiveConnection(conn);
      liveConns := liveConns + {conn};
      code := Success;
      assert Contents().lists == before.lists[env := before.lists[env] + [conn]];
      assert Contents().owner == before.owner[conn := env] && Contents().open == before.open;
      StepConsistent(before, Op.NewConnection(Some(env), conn));
    }

    /** `recorded` says whether the destructor records an error, which is reported although the object is gone. */
    method FreeConnection(handle: Option<SnappyConnection>, recorded: bool) returns (code: Code)
      requires Valid() && (handle.Some? ==> handle.value in liveConns)
      modifies this, if handle.Some? then {handle.value.env} else {}
      ensures Valid()
      ensures (Contents(), code) == Step(old(Contents()), Op.FreeConnection(handle, recorded))
    {
      hide Consistent, RemoveFirst, Distinct;
      if handle == None {
        return InvalidHandle;
      }
      var conn := handle.value;
      if conn.open {
        return Error;
      }
      ghost var before := Contents();
      OwnerLive(before, conn);
      code := conn.env.RemoveActiveConnection(conn);
      if code == Success || code == NoData {
        liveConns := liveConns - {conn};
        code := if recorded then Error else Success;
      }
      assert Contents().lists == before.lists[conn.env := RemoveFirst(before.lists[conn.env], conn)];
      assert Contents().owner == before.owner - {conn} && Contents().open == before.open;
      StepConsistent(before, Op.FreeConnection(Some(conn), recorded));
    }

    /** connect, as the registry sees it: if the server is reached it is open, whatever replaying attributes reports. */
    method Open(conn: SnappyConnection, reached: bool, replay: Code) returns (code: Code)
      requires Valid() && conn in liveConns
      modifies conn
      ensures Valid()
      ensures (Contents(), code) == Step(old(Contents()), Op.Open(conn, reached, replay))
    {
      hide Listed, Registered, Nested, RemoveFirst, Distinct;
      if conn.open || !reached {
        return Error;
      }
      ghost var before := Contents();
      conn.open := true;
      assert Contents().lists == before.lists && Contents().owner == before.owner;
      assert Contents().open == before.open + {conn};
      StepConsistent(before, Op.Open(conn, reached, replay));
      return replay;
    }

    method Close(conn: SnappyConnection, native: Closing) returns (code: Code)
      requires Valid() && conn in liveConns
      modifies conn
      ensures Valid()
      ensures (Contents(), code) == Step(old(Contents()), Op.Close(conn, native))
    {
      hide Listed, Registered, Nested, RemoveFirst, Distinct;
      if !conn.open {
        return Error;
      }
      ghost var before := Contents();
      if native.ThrowsOpen? {
        return Error;
      }
      conn.open := false;
      assert Contents().lists == before.lists && Contents().owner == before.owner;
      assert Contents().open == before.open - {conn};
      StepConsistent(before, Op.Close(conn, native));
      return if native.Closes? then Success else Error;
    }
  }
}
