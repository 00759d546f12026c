/**
 * `Rfc2782Resolver.resolve` and the steps after the attempts list: the
 * lookup of every flagged attempt, the turning of its SRV answers into
 * endpoints, and the rewriting of the `host` and `port` parameters.
 * The DNS is a total function from a name to its SRV answers; a failed
 * query is the empty answer.
 */
module Resolver {
  import opened Wrappers
  import opened Records
  import Text
  import Attempts
  import Rfc2782

  /** What is left to try when a name has no SRV answer: a plain lookup of the parsed target. */
  function Fallback(hp: HostPort): (r: seq<HostPort>)
    ensures |r| <= 1
    ensures r != [] <==> hp.target.Some? && hp.target.value != "" && !Text.IsSrvPort(hp.port)
    ensures r != [] ==> r[0].host == hp.target.value && r[0].port == hp.port && !r[0].totry
  {
    if hp.target.Some? && hp.target.value != "" && !Text.IsSrvPort(hp.port) then
      [Plain(hp.target.value, hp.port)]
    else []
  }

  /** One SRV answer as an endpoint: the target without its trailing dots, the port in decimal. */
  function AnswerToHostPort(e: SrvRecord): (r: HostPort)
    ensures !r.totry && r.target.None?
    ensures Text.AllDigits(r.port) && Text.ParseDecimal(r.port) == e.port && ',' !in r.port
    ensures r.host <= e.target && (r.host == [] || r.host[|r.host| - 1] != '.')
    ensures forall k :: |r.host| <= k < |e.target| ==> e.target[k] == '.'
  {
    Text.NatToStringCommaFree(e.port);
    Plain(Text.RStripDots(e.target), Text.NatToString(e.port))
  }

  function ToHostPorts(order: seq<SrvRecord>): (r: seq<HostPort>)
    ensures |r| == |order|
    ensures forall k :: 0 <= k < |r| ==> r[k] == AnswerToHostPort(order[k])
  {
    seq(|order|, k requires 0 <= k < |order| => AnswerToHostPort(order[k]))
  }

  /** A single answer naming the root domain: the service is decidedly not available. */
  predicate IsRootAbort(entries: seq<SrvRecord>)
  {
    |entries| == 1 && entries[0].target == "."
  }

  /** `out` is what `_get_solved_entries` may return for `hp` given the answers `entries`. */
  ghost predicate IsSolved(hp: HostPort, entries: seq<SrvRecord>, out: seq<HostPort>)
  {
    if entries == [] then out == Fallback(hp)
    else if IsRootAbort(entries) then out == []
    else exists order :: Rfc2782.IsRfc2782Order(entries, order) && out == ToHostPorts(order)
  }

  /** `_get_solved_entries`: the fallback, the root-domain abort, or the answers in RFC 2782 order. */
  method SolvedEntries(hp: HostPort, entries: seq<SrvRecord>) returns (r: seq<HostPort>)
    ensures IsSolved(hp, entries, r)
  {
    if entries == [] {
      return Fallback(hp);
    }
    if |entries| == 1 && entries[0].target == "." {
      return [];
    }
    var order := Rfc2782.SortRfc2782(entries);
    r := ToHostPorts(order);
  }

  /**
   * When the answers are neither absent nor the root abort, every answer
   * becomes exactly one plain endpoint, in non-decreasing priority.
   */
  lemma SolvedAnswers(hp: HostPort, entries: seq<SrvRecord>, out: seq<HostPort>)
    requires IsSolved(hp, entries, out)
    requires entries != [] && !IsRootAbort(entries)
    ensures |out| == |entries|
    ensures forall k :: 0 <= k < |out| ==> !out[k].totry && ',' !in out[k].port
    ensures forall k :: 0 <= k < |out| ==> exists e :: e in entries && out[k] == AnswerToHostPort(e)
  {
    var order :| Rfc2782.IsRfc2782Order(entries, order) && out == ToHostPorts(order);
    assert |multiset(order)| == |multiset(entries)|;
    forall k | 0 <= k < |out| ensures exists e :: e in entries && out[k] == AnswerToHostPort(e) {
      assert order[k] in multiset(order);
      assert order[k] in entries;
    }
  }

  /**
   * With comma-free answer targets and a comma-free attempt, every solved
   * endpoint is comma-free: fallback hosts are parsed from the attempt's host,
   * answer hosts are prefixes of the targets, ports are decimal numbers.
   */
  lemma SolvedCommaFree(hp: HostPort, entries: seq<SrvRecord>, out: seq<HostPort>)
    requires IsSolved(hp, entries, out) && CommaFreeHostPort(hp)
    requires forall e :: e in entries ==> ',' !in e.target
    ensures forall x :: x in out ==> CommaFreeHostPort(x)
  {
    if entries != [] && !IsRootAbort(entries) {
      var order: seq<SrvRecord> :| Rfc2782.IsRfc2782Order(entries, order) && out == ToHostPorts(order);
      forall k | 0 <= k < |out| ensures CommaFreeHostPort(out[k]) {
        assert order[k] in multiset(order);
        assert order[k] in entries;
        var t := order[k].target;
        assert out[k].host == t[..|out[k].host|];
      }
    }
  }

  /** `_resolve_srv`: the answers of the name `hp.host`, solved. */
  method ResolveSrv(hp: HostPort, lookup: string -> seq<SrvRecord>) returns (r: seq<HostPort>)
    ensures IsSolved(hp, lookup(hp.host), r)
  {
    var ans := lookup(hp.host);
    r := SolvedEntries(hp, ans);
  }

  function Hosts(hps: seq<HostPort>): (r: seq<string>)
    ensures |r| == |hps| && forall k :: 0 <= k < |r| ==> r[k] == hps[k].host
  {
    seq(|hps|, k requires 0 <= k < |hps| => hps[k].host)
  }

  function Ports(hps: seq<HostPort>): (r: seq<string>)
    ensures |r| == |hps| && forall k :: 0 <= k < |r| ==> r[k] == hps[k].port
  {
    seq(|hps|, k requires 0 <= k < |hps| => hps[k].port)
  }

  /**
   * `_return_params`: no endpoint is an error; otherwise a copy of the
   * parameters whose `host` and `port` are the comma-joined endpoints.
   */
  function ReturnParams(params: map<string, string>, hps: seq<HostPort>): (r: Result<map<string, string>, Error>)
    ensures hps == [] <==> r.Err?
    ensures r.Err? ==> r.error == NoHostFound
    ensures r.Ok? ==> r.value.Keys == params.Keys + {"host", "port"}
    ensures r.Ok? ==> forall k :: k in params && k != "host" && k != "port" ==> r.value[k] == params[k]
    ensures r.Ok? ==> r.value["host"] == Text.Join(Hosts(hps)) && r.value["port"] == Text.Join(Ports(hps))
  {
    if hps == [] then Err(NoHostFound)
    else Ok(params["host" := Text.Join(Hosts(hps))]["port" := Text.Join(Ports(hps))])
  }

  /**
   * The rewritten parameters split back into the endpoints: with comma-free
   * host names, the `host` and `port` lists have one item per endpoint, in order.
   */
  lemma ReturnParamsLists(params: map<string, string>, hps: seq<HostPort>)
    requires hps != []
    requires Text.CommaFree(Hosts(hps)) && Text.CommaFree(Ports(hps))
    ensures ReturnParams(params, hps).Ok?
    ensures Text.Split(ReturnParams(params, hps).value["host"]) == Hosts(hps)
    ensures Text.Split(ReturnParams(params, hps).value["port"]) == Ports(hps)
  {
    Text.SplitOfJoin(Hosts(hps));
    Text.SplitOfJoin(Ports(hps));
  }

  /** The endpoints of every group, in group order (`hps.extend` / `hps.append`): an endpoint is there exactly when some group holds it. */
  function Flatten(groups: seq<seq<HostPort>>): (r: seq<HostPort>)
    ensures forall hp :: hp in r <==> exists k :: 0 <= k < |groups| && hp in groups[k]
  {
    if groups == [] then []
    else
      var init := groups[..|groups| - 1];
      assert forall k :: 0 <= k < |init| ==> init[k] == groups[k];
      Flatten(init) + groups[|groups| - 1]
  }

  lemma {:induction false} FlattenEmpty(groups: seq<seq<HostPort>>)
    ensures Flatten(groups) == [] <==> forall k :: 0 <= k < |groups| ==> groups[k] == []
    decreases |groups|
  {
    if groups != [] {
      var init := groups[..|groups| - 1];
      FlattenEmpty(init);
      assert forall k :: 0 <= k < |init| ==> init[k] == groups[k];
    }
  }

  /** What one attempt contributes: a flagged one its solved answers, any other itself. */
  ghost predicate IsStep(hp: HostPort, lookup: string -> seq<SrvRecord>, group: seq<HostPort>)
  {
    if hp.totry then IsSolved(hp, lookup(hp.host), group) else group == [hp]
  }

  ghost predicate IsExpansion(attempts: seq<HostPort>, lookup: string -> seq<SrvRecord>, groups: seq<seq<HostPort>>)
  {
    |groups| == |attempts| &&
    forall k :: 0 <= k < |groups| ==> IsStep(attempts[k], lookup, groups[k])
  }

  /**
   * "No host found" arises only when every attempt was an SRV lookup that
   * came back with nothing usable: a position that asked for no lookup is kept.
   */
  lemma NoHostOnlyFromSrv(attempts: seq<HostPort>, lookup: string -> seq<SrvRecord>, groups: seq<seq<HostPort>>)
    requires IsExpansion(attempts, lookup, groups)
    requires Flatten(groups) == []
    ensures forall k :: 0 <= k < |attempts| ==> attempts[k].totry
  {
    FlattenEmpty(groups);
    forall k | 0 <= k < |attempts| ensures attempts[k].totry {
      assert groups[k] == [];
    }
  }

  /** Without commas in the attempts or the answer targets, the expanded endpoints hold no comma. */
  lemma ExpansionCommaFree(attempts: seq<HostPort>, lookup: string -> seq<SrvRecord>, groups: seq<seq<HostPort>>)
    requires IsExpansion(attempts, lookup, groups)
    requires forall hp :: hp in attempts ==> CommaFreeHostPort(hp)
    requires forall name, e :: e in lookup(name) ==> ',' !in e.target
    ensures forall x :: x in Flatten(groups) ==> CommaFreeHostPort(x)
  {
    forall k | 0 <= k < |groups| ensures forall x :: x in groups[k] ==> CommaFreeHostPort(x) {
      assert attempts[k] in attempts;
      if attempts[k].totry {
        SolvedCommaFree(attempts[k], lookup(attempts[k].host), groups[k]);
      }
    }
  }

  /**
   * When no answer target holds a comma, the rewritten `host` and `port`
   * values split into one item per endpoint each, so the two lists have the
   * same length.
   */
  lemma ResolveLists(params: map<string, string>, env: map<string, string>,
                     lookup: string -> seq<SrvRecord>, groups: seq<seq<HostPort>>)
    requires Attempts.Attempts(params, env).Ok?
    requires IsExpansion(Attempts.Attempts(params, env).value, lookup, groups)
    requires Flatten(groups) != []
    requires forall name, e :: e in lookup(name) ==> ',' !in e.target
    ensures ReturnParams(params, Flatten(groups)).Ok?
    ensures Text.Split(ReturnParams(params, Flatten(groups)).value["host"]) == Hosts(Flatten(groups))
    ensures Text.Split(ReturnParams(params, Flatten(groups)).value["port"]) == Ports(Flatten(groups))
    ensures |Text.Split(ReturnParams(params, Flatten(groups)).value["host"])| ==
      |Text.Split(ReturnParams(params, Flatten(groups)).value["port"])|
  {
    Attempts.AttemptsCommaFree(params, env);
    ExpansionCommaFree(Attempts.Attempts(params, env).value, lookup, groups);
    ListsCommaFree(Flatten(groups));
    ReturnParamsLists(params, Flatten(groups));
  }

  lemma ListsCommaFree(hps: seq<HostPort>)
    requires forall x :: x in hps ==> CommaFreeHostPort(x)
    ensures Text.CommaFree(Hosts(hps)) && Text.CommaFree(Ports(hps))
  {
    forall k | 0 <= k < |hps| ensures CommaFreeHostPort(hps[k]) {
      assert hps[k] in hps;
    }
  }

  /**
   * A comma inside an answer target survives into the `host` value: one
   * endpoint then splits into two hosts but one port.
   */
  lemma CommaInTarget()
    ensures var r := ReturnParams(map[], [AnswerToHostPort(SrvRecord(0, 0, "a,b.", 5432))]);
      r.Ok? && |Text.Split(r.value["host"])| == 2 && |Text.Split(r.value["port"])| == 1
  {
    var hp := AnswerToHostPort(SrvRecord(0, 0, "a,b.", 5432));
    StripExample();
    assert Text.Join(Hosts([hp])) == "a,b";
    SplitExample();
    Text.SplitOfJoin(Ports([hp]));
  }

  lemma StripExample()
    ensures Text.RStripDots("a,b.") == "a,b"
  {
    assert "a,b."[..3] == "a,b";
  }

  lemma SplitExample()
    ensures |Text.Split("a,b")| == 2
  {
    assert "a,b" == "a" + [','] + "b";
    Text.IndexOfFirst("a", ',', "b");
    assert "a,b"[2..] == "b";
  }

  /** The loop of `resolve`: each attempt replaced by what it contributes, in order. */
  method Expand(attempts: seq<HostPort>, lookup: string -> seq<SrvRecord>)
    returns (hps: seq<HostPort>, ghost groups: seq<seq<HostPort>>)
    ensures IsExpansion(attempts, lookup, groups) && hps == Flatten(groups)
  {
    hps := [];
    groups := [];
    for k := 0 to |attempts|
      invariant |groups| == k
      invariant forall j :: 0 <= j < k ==> IsStep(attempts[j], lookup, groups[j])
      invariant hps == Flatten(groups)
    {
      var hp := attempts[k];
      var more;
      if hp.totry {
        more := ResolveSrv(hp, lookup);
      } else {
        more := [hp];
      }
      assert (groups + [more])[..k] == groups;
      hps := hps + more;
      groups := groups + [more];
    }
  }

  /**
   * `resolve` (and `resolve_srv`): with no lookup requested the parameters
   * come back unchanged; otherwise every flagged attempt is replaced by its
   * solved answers, the others kept, and the parameters rewritten.
   */
  method Resolve(params: map<string, string>, env: map<string, string>, lookup: string -> seq<SrvRecord>)
    returns (r: Result<map<string, string>, Error>)
    ensures Attempts.Attempts(params, env).Err? ==> r == Err(Attempts.Attempts(params, env).error)
    ensures Attempts.Attempts(params, env) == Ok([]) ==> r == Ok(params)
    ensures Attempts.Attempts(params, env).Ok? && Attempts.Attempts(params, env).value != [] ==>
      exists groups ::
        IsExpansion(Attempts.Attempts(params, env).value, lookup, groups) &&
        r == ReturnParams(params, Flatten(groups))
  {
    var attempts :- Attempts.GetAttempts(params, env);
    if attempts == [] {
      return Ok(params);
    }
    var hps, groups := Expand(attempts, lookup);
    r := ReturnParams(params, hps);
  }
}
