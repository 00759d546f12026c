/**
 * The host-name pattern `_Service._Proto.Target` of RFC 2782, as the compiled
 * regular expression `^(_[^.]+)\.(_[^.]+)\.(.+)` matches it with `re.match`.
 */
module SrvPattern {
  import opened Wrappers
  import Text

  /** `_[^.]+`: an underscore followed by at least one character that is not a dot. */
  predicate IsLabel(x: string)
  {
    |x| >= 2 && x[0] == '_' && '.' !in x
  }

  /** What greedy `.+` takes of `rest`: everything up to the first newline. */
  function LineHead(rest: string): (r: string)
    ensures r <= rest && '\n' !in r
  {
    match Text.IndexOf(rest, '\n')
    case None => rest
    case Some(i) => rest[..i]
  }

  /** `host` matches the pattern with these three groups; the `target` group is `LineHead(rest)`. */
  ghost predicate SrvShape(host: string, service: string, proto: string, rest: string)
  {
    IsLabel(service) && IsLabel(proto) && host == service + "." + proto + "." + rest && LineHead(rest) != ""
  }

  /** One `(_[^.]+)\.` step: the label before the first dot and the text after that dot. */
  function CutLabel(s: string): Option<(string, string)>
  {
    match Text.IndexOf(s, '.')
    case None => None
    case Some(i) => if IsLabel(s[..i]) then Some((s[..i], s[i + 1..])) else None
  }

  /** A cut splits `s` around a dot, with a label on its left. */
  lemma CutLabelSound(s: string)
    requires CutLabel(s).Some?
    ensures IsLabel(CutLabel(s).value.0)
    ensures s == CutLabel(s).value.0 + "." + CutLabel(s).value.1
  {
    var i := Text.IndexOf(s, '.').value;
    assert s == s[..i] + [s[i]] + s[i + 1..];
  }

  /** A label followed by a dot is always cut there. */
  lemma CutLabelComplete(name: string, rest: string)
    requires IsLabel(name)
    ensures CutLabel(name + "." + rest) == Some((name, rest))
  {
    var s := name + "." + rest;
    Text.IndexOfFirst(name, '.', rest);
    assert s[..|name|] == name;
    assert s[|name| + 1..] == rest;
  }

  /**
   * `re_srv_rr.match(host)`, giving the `target` group, or None when the host
   * does not match. A target is never empty, stops before any newline and is
   * made of characters of the host.
   */
  function MatchSrv(host: string): (r: Option<string>)
    ensures r.Some? ==> r.value != "" && '\n' !in r.value
    ensures r.Some? ==> forall c :: c in r.value ==> c in host
  {
    match CutLabel(host)
    case None => None
    case Some((_, tail)) =>
      match CutLabel(tail)
      case None => None
      case Some((_, rest)) =>
        CutLabelSound(host);
        CutLabelSound(tail);
        if LineHead(rest) != "" then Some(LineHead(rest)) else None
  }

  /** A match always comes from a decomposition of the host into the three groups. */
  lemma MatchSrvSound(host: string)
    requires MatchSrv(host).Some?
    ensures exists service, proto, rest ::
      SrvShape(host, service, proto, rest) && MatchSrv(host) == Some(LineHead(rest))
  {
    var (service, tail) := CutLabel(host).value;
    var (proto, rest) := CutLabel(tail).value;
    CutLabelSound(host);
    CutLabelSound(tail);
    TwoCuts(host, service, tail, proto, rest);
    assert SrvShape(host, service, proto, rest);
  }

  lemma TwoCuts(host: string, service: string, tail: string, proto: string, rest: string)
    requires host == service + "." + tail && tail == proto + "." + rest
    ensures host == service + "." + proto + "." + rest
  {
  }

  /** Every decomposition of the host into the three groups is a match, with that target. */
  lemma MatchSrvComplete(host: string, service: string, proto: string, rest: string)
    requires SrvShape(host, service, proto, rest)
    ensures MatchSrv(host) == Some(LineHead(rest))
  {
    var tail := proto + "." + rest;
    assert host == service + "." + tail;
    CutLabelComplete(service, tail);
    CutLabelComplete(proto, rest);
  }

  /** The pattern matches exactly the hosts that decompose into the three groups. */
  lemma MatchSrvIff(host: string)
    ensures MatchSrv(host).Some? <==> exists service, proto, rest :: SrvShape(host, service, proto, rest)
  {
    if MatchSrv(host).Some? {
      MatchSrvSound(host);
    } else if exists service, proto, rest :: SrvShape(host, service, proto, rest) {
      var service, proto, rest :| SrvShape(host, service, proto, rest);
      MatchSrvComplete(host, service, proto, rest);
    }
  }

  /** The host `_postgresql._tcp.db.example.com` has the target `db.example.com`. */
  lemma MatchSrvExample()
    ensures MatchSrv("_postgresql._tcp.db.example.com") == Some("db.example.com")
  {
    var rest := "db.example.com";
    assert "_postgresql._tcp.db.example.com" == "_postgresql" + "." + "_tcp" + "." + rest;
    assert '\n' !in rest;
    MatchSrvComplete("_postgresql._tcp.db.example.com", "_postgresql", "_tcp", rest);
  }
}
