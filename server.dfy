/**
 * The Solargraph server process as the extension manages it: a child
 * process, the port and the pid the child reports on stderr, a ready
 * callback that runs once the three are known, and stop, restart and the
 * `prepare` request.
 */
module Server {
  import opened Js
  import opened Commands

  /** A spawned child process, numbered in the order the server spawned it. */
  datatype Child = Child(id: nat)

  /** The `prepare` request: `request.post` to `url` with the form field `workspace`. */
  datatype PrepareRequest = PrepareRequest(url: string, workspace: string)

  /** What `out.match(/<key>=([0-9]*)/)` captures: the digits after the first `key=`, when there is one. */
  function FieldMatch(out: string, key: string): (r: Option<string>)
    ensures r.Some? ==> AllDigits(r.value)
  {
    var tag := key + "=";
    var k := IndexOf(out, tag);
    if k < 0 then None else Some(DigitRun(out, k + |tag|))
  }

  /** The capture is the longest digit run right after the first `key=`. */
  lemma FieldMatchFirst(out: string, key: string, k: nat)
    requires FirstAt(out, key + "=", k)
    ensures FieldMatch(out, key) == Some(DigitRun(out, k + |key| + 1))
    ensures var d := FieldMatch(out, key).value;
      out[k + |key| + 1..k + |key| + 1 + |d|] == d &&
      (k + |key| + 1 + |d| == |out| || !IsDigit(out[k + |key| + 1 + |d|]))
  {
    IndexOfFirst(out, key + "=");
  }

  /** Output without `key=` sets nothing. */
  lemma FieldMatchAbsent(out: string, key: string)
    requires forall k: nat :: !OccursAt(out, key + "=", k)
    ensures FieldMatch(out, key) == None
  {
    IndexOfFirst(out, key + "=");
  }

  /** The arguments `start` passes to `solargraphCommand`. */
  function ServerArgs(extensionPath: string): seq<string>
  {
    ["server", "--port", "0", "--views", extensionPath + "/views"]
  }

  /** `'' + port` in a URL: the port, or `null` before one is known. */
  function PortText(port: Option<string>): string
  {
    if port.Some? then port.value else "null"
  }

  /** `if (this.pid) process.kill(this.pid)`: the pid to kill, when it is a non-zero number. */
  function PidToKill(pid: Option<Number>): (r: Option<int>)
    ensures r.Some? <==> pid.Some? && NumberTruthy(pid.value)
    ensures r.Some? ==> pid == Some(Int(r.value))
  {
    if pid.Some? && NumberTruthy(pid.value) then Some(pid.value.n) else None
  }

  class SolargraphServer {
    /** The fields `child`, `port` and `pid`; `None` is `null`. */
    var child: Option<Child>
    var port: Option<string>
    var pid: Option<Number>
    /** The closure state of the stderr handler of the last spawn: whether `start` had a callback, and whether it ran. */
    var callback: bool
    var ranCallback: bool
    /** How many children have been spawned; the next one is numbered with it. */
    var spawned: nat

    /** Port and pid are only ever known while there is a child. */
    ghost predicate Valid()
      reads this
    {
      child.None? ==> port.None? && pid.None?
    }

    constructor ()
      ensures Valid() && child.None? && port.None? && pid.None?
      ensures !callback && !ranCallback && spawned == 0
    {
      child, port, pid := None, None, None;
      callback, ranCallback := false, false;
      spawned := 0;
    }

    /** `isRunning`: child, port and pid are all set. */
    predicate IsRunning()
      reads this
    {
      child.Some? && port.Some? && pid.Some?
    }

    /** `!this.port`: no port, or the empty one. */
    predicate PortFalsy()
      reads this
    {
      port.None? || port.value == ""
    }

    /** `start(callback)`: spawns the server unless a child already exists. */
    method Start(hasCallback: bool, extensionPath: string, s: Settings) returns (sp: Option<Spawn>)
      requires Valid()
      modifies this
      ensures Valid()
      ensures old(child).Some? ==> sp.None? && unchanged(this)
      ensures old(child).None? ==> sp.Some? && child == Some(Child(old(spawned))) && spawned == old(spawned) + 1
      ensures old(child).None? ==> port == old(port) && pid == old(pid) && callback == hasCallback && !ranCallback
      ensures old(child).None? && s.useBundler ==>
        sp.value.program == "bundle" && sp.value.args == ["exec", "solargraph"] + ServerArgs(extensionPath)
      ensures old(child).None? && !s.useBundler ==>
        sp.value.program == s.commandPath && sp.value.args == ServerArgs(extensionPath)
    {
      if child.Some? {
        return None;
      }
      var command := SolargraphCommand(ServerArgs(extensionPath), s);
      sp := Some(command);
      child := Some(Child(spawned));
      spawned := spawned + 1;
      callback, ranCallback := hasCallback, false;
    }

    /** The stderr handler: scans a chunk for `port=` and `pid=` while the port is falsy, then fires the ready callback once. */
    method OnStderr(out: string) returns (fired: bool)
      requires Valid() && child.Some?
      modifies this
      ensures Valid()
      ensures old(PortFalsy()) ==>
        port == (if FieldMatch(out, "port").Some? then FieldMatch(out, "port") else old(port))
      ensures old(PortFalsy()) ==>
        pid == (if FieldMatch(out, "pid").Some? then Some(ParseInt(FieldMatch(out, "pid").value)) else old(pid))
      ensures !old(PortFalsy()) ==> port == old(port) && pid == old(pid)
      ensures fired <==> IsRunning() && callback && !old(ranCallback)
      ensures ranCallback == (old(ranCallback) || fired)
      ensures child == old(child) && callback == old(callback) && spawned == old(spawned)
    {
      if PortFalsy() {
        var m := FieldMatch(out, "port");
        if m.Some? {
          port := m;
        }
        m := FieldMatch(out, "pid");
        if m.Some? {
          pid := Some(ParseInt(m.value));
        }
      }
      fired := false;
      if IsRunning() && callback && !ranCallback {
        ranCallback := true;
        fired := true;
      }
    }

    /** The exit handler: forgets the port and nothing else. */
    method OnExit()
      requires Valid()
      modifies this
      ensures Valid()
      ensures port.None?
      ensures child == old(child) && pid == old(pid)
      ensures callback == old(callback) && ranCallback == old(ranCallback) && spawned == old(spawned)
    {
      port := None;
    }

    /** `stop`: kills the child, and the reported pid when it is truthy, then clears all three fields. */
    method Stop() returns (killed: Option<Child>, killedPid: Option<int>)
      requires Valid()
      modifies this
      ensures Valid()
      ensures old(child).None? ==> killed.None? && killedPid.None? && unchanged(this)
      ensures old(child).Some? ==> killed == old(child) && killedPid == PidToKill(old(pid))
      ensures old(child).Some? ==> child.None? && port.None? && pid.None?
      ensures callback == old(callback) && ranCallback == old(ranCallback) && spawned == old(spawned)
    {
      if child.None? {
        return None, None;
      }
      killed := child;
      killedPid := PidToKill(pid);
      pid, port, child := None, None, None;
    }

    /** `restart`: `stop`, then `start` without a callback; a fresh child runs with no port and no pid yet. */
    method Restart(extensionPath: string, s: Settings) returns (killed: Option<Child>, killedPid: Option<int>, sp: Option<Spawn>)
      requires Valid()
      modifies this
      ensures Valid()
      ensures killed == old(child) && killedPid == (if old(child).Some? then PidToKill(old(pid)) else None)
      ensures sp.Some? && child == Some(Child(old(spawned))) && spawned == old(spawned) + 1
      ensures port.None? && pid.None? && !callback && !ranCallback
    {
      killed, killedPid := Stop();
      sp := Start(false, extensionPath, s);
    }

    /** `prepare(workspace)`: the analysis request, sent only for a truthy workspace. */
    function Prepare(workspace: JsText): (r: Option<PrepareRequest>)
      reads this
      ensures r.Some? <==> Truthy(workspace)
      ensures r.Some? ==> r.value.workspace == workspace.s
      ensures r.Some? ==> r.value.url == "http://localhost:" + PortText(port) + "/prepare"
    {
      if Truthy(workspace) then
        Some(PrepareRequest("http://localhost:" + PortText(port) + "/prepare", workspace.s))
      else None
    }
  }
}
