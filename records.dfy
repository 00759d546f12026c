/** The values the resolver passes around. */
module Records {
  import opened Wrappers
  import Text

  /** An unsigned 16-bit field of an SRV resource record. */
  type U16 = x: int | 0 <= x < 0x1_0000

  /**
   * One candidate endpoint: `host` and `port` as text, whether an SRV lookup is still
   * to be done for it (`totry`), and the target name parsed from an SRV-shaped host.
   */
  datatype HostPort = HostPort(host: string, port: string, totry: bool, target: Option<string>)

  /** No comma in the host, the port or the target of an endpoint. */
  predicate CommaFreeHostPort(hp: HostPort)
  {
    ',' !in hp.host && ',' !in hp.port && (hp.target.Some? ==> ',' !in hp.target.value)
  }

  /** `HostPort(host=..., port=...)`, with the defaults `totry=False` and `target=None`. */
  function Plain(host: string, port: string): HostPort
  {
    HostPort(host, port, false, None)
  }

  /** One SRV answer: priority, weight, target name in textual form and port. */
  datatype SrvRecord = SrvRecord(priority: U16, weight: U16, target: string, port: U16)

  /** The two `OperationalError`s the resolver raises. */
  datatype Error =
    | HostPortMismatch(hosts: nat, ports: nat)
    | NoHostFound

  /** The message each error carries. */
  function Message(e: Error): (r: string)
    ensures e.NoHostFound? ==> r == "no host found after SRV RR lookup"
    ensures e.HostPortMismatch? ==> "cannot match " + Text.NatToString(e.hosts) + " hosts with " <= r
    ensures e.HostPortMismatch? ==> |r| >= 13 && r[|r| - 13..] == " port numbers"
    ensures e.HostPortMismatch? ==>
      var pre := "cannot match " + Text.NatToString(e.hosts) + " hosts with ";
      |r| == |pre| + |Text.NatToString(e.ports)| + 13 && r[|pre|..|r| - 13] == Text.NatToString(e.ports)
  {
    match e
    case HostPortMismatch(h, p) =>
      "cannot match " + Text.NatToString(h) + " hosts with " + Text.NatToString(p) + " port numbers"
    case NoHostFound => "no host found after SRV RR lookup"
  }
}
