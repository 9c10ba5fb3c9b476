/** The limit nodes of ipstat_system_group_limit/main.c. */
module GroupLimits {

  /** The configuration columns of a row of Rules_GroupTraffic. */
  datatype Config = Config(user: nat, group: nat, period: nat, limitation: int, blocked: bool)

  /** The limit as the node holds it, in an unsigned 64-bit field. */
  function Quota(c: Config): nat { c.limitation % 0x1_0000_0000_0000_0000 }

  const UNLIMITED := 0xFFFF_FFFF_FFFF_FFFF  // what -1 becomes in that field

  /** The verdict of a node. */
  predicate Allows(c: Config, traffic: nat) {
    !c.blocked && (Quota(c) != UNLIMITED ==> traffic < Quota(c))
  }

  /** A limit that fits the field means itself, and -1 means no limit. */
  lemma AllowsMeaning(c: Config, traffic: nat)
    requires -1 <= c.limitation < UNLIMITED
    ensures Allows(c, traffic) <==> !c.blocked && (c.limitation == -1 || traffic < c.limitation)
  {}

  /** NODE_GROUP_LIMIT as a value. */
  datatype Limit = Limit(id: nat, config: Config, traffic: nat, alpha: nat, marked: bool, md5: string)

  /** NODE_GROUP_LIMIT as it is updated in place. */
  class LimitNode {
    const id: nat
    var config: Config
    var traffic: nat
    var alpha: nat
    var marked: bool
    var md5: string

    constructor (id: nat, config: Config, traffic: nat, md5: string)
      ensures View() == Limit(id, config, traffic, 0, false, md5)
    {
      this.id, this.config, this.traffic, alpha, marked := id, config, traffic, 0, false;
      this.md5 := md5;
    }

    function View(): Limit
      reads this
    {
      Limit(id, config, traffic, alpha, marked, md5)
    }
  }

  ghost function Views(nodes: seq<LimitNode>): seq<Limit>
    reads nodes
  {
    seq(|nodes|, i requires 0 <= i < |nodes| reads nodes => nodes[i].View())
  }

  ghost function Configs(nodes: seq<LimitNode>): seq<Config>
    reads nodes
  {
    seq(|nodes|, i requires 0 <= i < |nodes| reads nodes => nodes[i].config)
  }

  ghost function Traffics(nodes: seq<LimitNode>): seq<nat>
    reads nodes
  {
    seq(|nodes|, i requires 0 <= i < |nodes| reads nodes => nodes[i].traffic)
  }
}
