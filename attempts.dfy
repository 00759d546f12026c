/**
 * Attempt classification (`Rfc2782Resolver._get_attempts`): the effective host,
 * port and hostaddr strings, the length matching between hosts and ports, and the
 * per-position decision whether an SRV lookup must be tried.
 */
module Attempts {
  import opened Wrappers
  import opened Records
  import Text
  import SrvPattern

  /** `m.get(key, default)`. */
  function Get(m: map<string, string>, key: string, default: string): (r: string)
    ensures key in m ==> r == m[key]
    ensures key !in m ==> r == default
  {
    if key in m then m[key] else default
  }

  /**
   * `params.get(key, os.environ.get(envKey, ""))`: a connection parameter, else
   * its environment variable, else empty. The environment is passed in as `env`.
   */
  function Setting(params: map<string, string>, env: map<string, string>, key: string, envKey: string): (r: string)
    ensures key in params ==> r == params[key]
    ensures key !in params && envKey in env ==> r == env[envKey]
    ensures key !in params && envKey !in env ==> r == ""
  {
    Get(params, key, Get(env, envKey, ""))
  }

  function HostAddrArg(params: map<string, string>, env: map<string, string>): string
  {
    Setting(params, env, "hostaddr", "PGHOSTADDR")
  }

  function HostArg(params: map<string, string>, env: map<string, string>): string
  {
    Setting(params, env, "host", "PGHOST")
  }

  function PortArg(params: map<string, string>, env: map<string, string>): string
  {
    Setting(params, env, "port", "PGPORT")
  }

  /**
   * The ports matched against `hosts`: a single port is applied to every host
   * (`ports_in *= len(hosts_in)`); otherwise the two lists must have the same length.
   */
  function MatchPorts(hosts: seq<string>, ports: seq<string>): (r: Result<seq<string>, Error>)
    ensures |ports| == 1 ==> r.Ok? && |r.value| == |hosts| && forall k :: 0 <= k < |hosts| ==> r.value[k] == ports[0]
    ensures |ports| != 1 ==> (r.Ok? <==> |ports| == |hosts|)
    ensures |ports| != 1 && r.Ok? ==> r.value == ports
    ensures r.Ok? ==> |r.value| == |hosts|
    ensures r.Err? ==> r.error == HostPortMismatch(|hosts|, |ports|)
  {
    var broadcast := if |ports| == 1 then seq(|hosts|, _ => ports[0]) else ports;
    if |broadcast| != |hosts| then Err(HostPortMismatch(|hosts|, |broadcast|)) else Ok(broadcast)
  }

  /** The record for one host/port position: flagged when the host is SRV-shaped or the port is "srv" in any case. */
  function Classify(host: string, port: string): (r: HostPort)
    ensures r.host == host && r.port == port
    ensures r.totry <==> SrvPattern.MatchSrv(host).Some? || Text.IsSrvPort(port)
    ensures r.target == SrvPattern.MatchSrv(host)
    ensures r.target.Some? ==> r.target.value != "" && forall c :: c in r.target.value ==> c in host
  {
    var m := SrvPattern.MatchSrv(host);
    if m.Some? || Text.IsSrvPort(port) then HostPort(host, port, true, m) else Plain(host, port)
  }

  /**
   * A record keeps its host and port; it is flagged exactly when the host has the
   * `_Service._Proto.Target` shape or the port is one of the spellings of "srv";
   * its target is the parsed target when the host has that shape and None otherwise.
   */
  lemma ClassifySpec(host: string, port: string)
    ensures Classify(host, port).host == host && Classify(host, port).port == port
    ensures Classify(host, port).totry <==>
      (exists service, proto, rest :: SrvPattern.SrvShape(host, service, proto, rest)) ||
      (|port| == 3 && port[0] in "sS" && port[1] in "rR" && port[2] in "vV")
    ensures forall service, proto, rest :: SrvPattern.SrvShape(host, service, proto, rest) ==>
      Classify(host, port).target == Some(SrvPattern.LineHead(rest))
    ensures (forall service, proto, rest :: !SrvPattern.SrvShape(host, service, proto, rest)) ==>
      Classify(host, port).target == None
  {
    SrvPattern.MatchSrvIff(host);
    Text.SrvPortCases(port);
    forall service, proto, rest | SrvPattern.SrvShape(host, service, proto, rest)
      ensures Classify(host, port).target == Some(SrvPattern.LineHead(rest))
    {
      SrvPattern.MatchSrvComplete(host, service, proto, rest);
    }
  }

  /** One record per position of the two lists, in order. */
  function ClassifyAll(hosts: seq<string>, ports: seq<string>): (r: seq<HostPort>)
    requires |hosts| == |ports|
    ensures |r| == |hosts|
    ensures forall k :: 0 <= k < |r| ==> r[k] == Classify(hosts[k], ports[k])
    ensures forall k :: 0 <= k < |r| ==> r[k].host == hosts[k] && r[k].port == ports[k]
  {
    seq(|hosts|, k requires 0 <= k < |hosts| => Classify(hosts[k], ports[k]))
  }

  /** The host list of a parameter set. */
  function HostsIn(params: map<string, string>, env: map<string, string>): seq<string>
  {
    Text.Split(HostArg(params, env))
  }

  /** The port list of a parameter set, before matching it with the hosts. */
  function PortsIn(params: map<string, string>, env: map<string, string>): seq<string>
  {
    Text.Split(PortArg(params, env))
  }

  /**
   * The attempts list, or the host/port mismatch error. Empty when a hostaddr is
   * given and when no position asks for an SRV lookup; otherwise one record per
   * host, in input order, at least one of them flagged.
   */
  function Attempts(params: map<string, string>, env: map<string, string>): (r: Result<seq<HostPort>, Error>)
    ensures HostAddrArg(params, env) != "" ==> r == Ok([])
    ensures HostAddrArg(params, env) == "" ==>
      var matched := MatchPorts(HostsIn(params, env), PortsIn(params, env));
      && (r.Err? <==> matched.Err?)
      && (r.Err? ==> r.error == matched.error)
      && (r.Ok? && r.value != [] ==>
            r.value == ClassifyAll(HostsIn(params, env), matched.value) &&
            exists k :: 0 <= k < |r.value| && r.value[k].totry)
      && (r == Ok([]) ==>
            forall k :: 0 <= k < |HostsIn(params, env)| ==> !ClassifyAll(HostsIn(params, env), matched.value)[k].totry)
  {
    if HostAddrArg(params, env) != "" then Ok([])
    else
      var hosts := HostsIn(params, env);
      var ports :- MatchPorts(hosts, PortsIn(params, env));
      var out := ClassifyAll(hosts, ports);
      if exists k :: 0 <= k < |out| && out[k].totry then Ok(out) else Ok([])
  }

  /** A single port is applied to every host, so one port never causes a mismatch. */
  lemma SinglePortBroadcast(params: map<string, string>, env: map<string, string>)
    requires |PortsIn(params, env)| == 1
    ensures Attempts(params, env).Ok?
    ensures forall hp :: hp in Attempts(params, env).value ==> hp.port == PortArg(params, env)
  {
    assert Text.Join(PortsIn(params, env)) == PortArg(params, env);
  }

  /**
   * Identity law: when no host is SRV-shaped and no port spells "srv", there is
   * nothing to try (or the lists do not match).
   */
  lemma NoSrvNoAttempts(params: map<string, string>, env: map<string, string>)
    requires forall h :: h in HostsIn(params, env) ==>
      forall service, proto, rest :: !SrvPattern.SrvShape(h, service, proto, rest)
    requires forall q :: q in PortsIn(params, env) ==> !Text.IsSrvPort(q)
    ensures Attempts(params, env) == Ok([]) || Attempts(params, env).Err?
  {
    var hosts := HostsIn(params, env);
    var matched := MatchPorts(hosts, PortsIn(params, env));
    if HostAddrArg(params, env) == "" && matched.Ok? {
      var out := ClassifyAll(hosts, matched.value);
      forall k | 0 <= k < |out| ensures !out[k].totry {
        assert hosts[k] in hosts;
        SrvPattern.MatchSrvIff(hosts[k]);
        assert matched.value[k] in PortsIn(params, env);
      }
    }
  }

  /**
   * Every attempt comes from pieces of the comma-separated `host` and `port`
   * values, so no attempt holds a comma in its host, its port or its target.
   */
  lemma AttemptsCommaFree(params: map<string, string>, env: map<string, string>)
    requires Attempts(params, env).Ok?
    ensures forall hp :: hp in Attempts(params, env).value ==> CommaFreeHostPort(hp)
  {
    if HostAddrArg(params, env) == "" {
      var hosts := HostsIn(params, env);
      var portsIn := PortsIn(params, env);
      var ports := MatchPorts(hosts, portsIn).value;
      assert forall k :: 0 <= k < |ports| ==> ',' !in ports[k] by {
        forall k | 0 <= k < |ports| ensures ',' !in ports[k] {
          if |portsIn| == 1 {
            assert ports[k] == portsIn[0];
          }
        }
      }
      var out := ClassifyAll(hosts, ports);
      forall k | 0 <= k < |out| ensures CommaFreeHostPort(out[k]) {
        assert ',' !in hosts[k];
      }
    }
  }

  /** The loop of `_get_attempts` over the zipped lists, building `out` and setting `srv_found`. */
  method ClassifyLoop(hostsIn: seq<string>, portsIn: seq<string>) returns (out: seq<HostPort>, srvFound: bool)
    requires |hostsIn| == |portsIn|
    ensures out == ClassifyAll(hostsIn, portsIn)
    ensures srvFound <==> exists k :: 0 <= k < |out| && out[k].totry
  {
    ghost var all := ClassifyAll(hostsIn, portsIn);
    out := [];
    srvFound := false;
    for k := 0 to |hostsIn|
      invariant out == all[..k]
      invariant srvFound <==> exists j :: 0 <= j < k && all[j].totry
    {
      var hp := Classify(hostsIn[k], portsIn[k]);
      assert hp == all[k];
      if hp.totry {
        srvFound := true;
      }
      assert all[..k + 1] == all[..k] + [hp];
      out := out + [hp];
    }
    assert all[..|hostsIn|] == all;
  }

  /** `_get_attempts`: the hostaddr bypass, the port broadcast, the mismatch error and the classification loop. */
  method GetAttempts(params: map<string, string>, env: map<string, string>) returns (r: Result<seq<HostPort>, Error>)
    ensures r == Attempts(params, env)
  {
    if HostAddrArg(params, env) != "" {
      return Ok([]);
    }
    var hostsIn := HostsIn(params, env);
    var portsIn := PortsIn(params, env);
    ghost var matched := MatchPorts(hostsIn, portsIn);
    if |portsIn| == 1 {
      var single := portsIn[0];
      portsIn := seq(|hostsIn|, _ => single);
    }
    if |portsIn| != |hostsIn| {
      return Err(HostPortMismatch(|hostsIn|, |portsIn|));
    }
    assert matched == Ok(portsIn);
    var out, srvFound := ClassifyLoop(hostsIn, portsIn);
    if srvFound {
      r := Ok(out);
    } else {
      r := Ok([]);
    }
  }
}
