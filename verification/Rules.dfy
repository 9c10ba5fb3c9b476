/**
 The traffic rules of src/core_users.c: users_autz and users_acct walk a user's rule list,
 stop at the first matching rule without CONST_NEXT, and must agree on which rules a packet
 touches.
 */
module Rules {
  import opened Bits
  import opened Inet
  import opened Seqs
  import opened Store

  const SERVICE_TRAFFIC := 1
  const PROTO_ALL := 255
  const TRAFFIC_IN := 1
  const TRAFFIC_OUT := 2
  const TRAFFIC_ALL := 3
  const CONST_NEXT := 1
  const CONST_SUM := 2

  type Mask = m: nat | m <= 32

  /** The fields of NODE_RULE that a load sets. */
  datatype Config = Config(
    service: nat, idType: nat, idGroup: nat, direct: nat, proto: Byte,
    net: Address, mask: Mask, ports: nat, action: nat, status: nat)

  /** PACKET_INFO, and the fields of PACKET_DATA_INFO that a packet arrives with. */
  datatype Packet = Packet(
    proto: Byte, src: Address, dest: Address, srcPort: Port, destPort: Port, mac: string, direct: nat, len: nat)

  /** The verdict fields of PACKET_DATA_INFO. */
  datatype Class = Class(idGroup: nat, idType: nat, notSum: bool)

  function Lower(c: char): char { if 'A' <= c <= 'Z' then c - 'A' + 'a' else c }

  /** strncasecmp over 17 characters: neither case nor what follows them matters. */
  predicate SameMac(a: string, b: string) {
    && (|a| < 17 || |b| < 17 ==> |a| == |b|)
    && forall i | 0 <= i < 17 && i < |a| && i < |b| :: Lower(a[i]) == Lower(b[i])
  }

  function RemoteAddress(p: Packet): Address { if p.direct == TRAFFIC_IN then p.src else p.dest }

  function RemotePort(p: Packet): Port { if p.direct == TRAFFIC_IN then p.srcPort else p.destPort }

  /** The nested conditions of both loops. */
  predicate Matches(c: Config, p: Packet) {
    && c.service == SERVICE_TRAFFIC
    && CompareWithMask(RemoteAddress(p), c.net, c.mask)
    && (c.proto == PROTO_ALL || c.proto == p.proto)
    && ComparePorts(RemotePort(p), c.ports)
    && (c.direct == TRAFFIC_ALL || p.direct == c.direct)
  }

  predicate Continues(c: Config) { BitAnd(c.action, CONST_NEXT) == CONST_NEXT }

  predicate Unsummed(c: Config) { BitAnd(c.action, CONST_SUM) == CONST_SUM }

  /** What a rule says about a packet. */
  datatype Judgement = Judgement(matches: bool, continues: bool, unsummed: bool, active: bool, class_: Class)

  function Judge(c: Config, p: Packet): Judgement {
    Judgement(Matches(c, p), Continues(c), Unsummed(c), c.status == 1, Class(c.idGroup, c.idType, Unsummed(c)))
  }

  /** What a rule says about a packet, from the fields of both: a rule for traffic matches if
      the remote end of the packet lies in its network and has its port, and if the protocol
      and the direction fit; bit 0 of its action alone makes the walk go on, bit 1 alone keeps
      the user from being charged, and status 1 alone admits. */
  lemma JudgeMeaning(c: Config, p: Packet)
    ensures var addr, port := if p.direct == 1 then p.src else p.dest, if p.direct == 1 then p.srcPort else p.destPort;
            Judge(c, p).matches <==>
            && c.service == 1
            && Value(addr) / Pow2(32 - c.mask) == Value(c.net) / Pow2(32 - c.mask)
            && (c.ports % 65536 == 0 || port == c.ports % 65536)
            && (c.proto == 255 || c.proto == p.proto)
            && (c.direct == 3 || c.direct == p.direct)
    ensures Judge(c, p).continues <==> c.action % 2 == 1
    ensures Judge(c, p).unsummed <==> c.action / 2 % 2 == 1
    ensures Judge(c, p).active <==> c.status == 1
    ensures Judge(c, p).class_.idGroup == c.idGroup && Judge(c, p).class_.idType == c.idType
    ensures Judge(c, p).class_.notSum <==> c.action / 2 % 2 == 1
  {
    CompareWithMaskIff(RemoteAddress(p), c.net, c.mask);
    ComparePortsLow(RemotePort(p), c.ports);
    LowBits(c.action);
  }

  /** The local end of a packet does not matter. */
  lemma LocalEndIgnored(c: Config, p: Packet, addr: Address, port: Port)
    ensures p.direct == 1 ==> Judge(c, p.(dest := addr, destPort := port)) == Judge(c, p)
    ensures p.direct != 1 ==> Judge(c, p.(src := addr, srcPort := port)) == Judge(c, p)
  {}

  function First17(s: string): string { if |s| <= 17 then s else s[..17] }

  function LowerAll(s: string): string { seq(|s|, i requires 0 <= i < |s| => Lower(s[i])) }

  /** MAC addresses are the same if their first 17 characters are, in lower case. */
  lemma SameMacIff(a: string, b: string)
    ensures SameMac(a, b) <==> LowerAll(First17(a)) == LowerAll(First17(b))
    ensures LowerAll("0A:1B:2C:3D:4E:FZ") == "0a:1b:2c:3d:4e:fz"
  {
    var x, y := LowerAll(First17(a)), LowerAll(First17(b));
    assert |x| == |First17(a)| && |y| == |First17(b)|;
    if x == y {
      forall i | 0 <= i < 17 && i < |a| && i < |b| ensures Lower(a[i]) == Lower(b[i]) {
        assert x[i] == y[i];
      }
    }
  }

  /** Which rules a packet touches, said without a loop: the matching ones before which every
      matching rule continues. */
  predicate Touched(js: seq<Judgement>, i: nat)
    requires i < |js|
  {
    js[i].matches && forall j | 0 <= j < i && js[j].matches :: js[j].continues
  }

  /** The class of the last touched rule among the first n, or the class before. */
  function LastClass(js: seq<Judgement>, n: nat, before: Class): Class
    requires n <= |js|
  {
    if n == 0 then before
    else if Touched(js, n - 1) then js[n - 1].class_
    else LastClass(js, n - 1, before)
  }

  /** How many touched rules among the first n count for the user's sum. */
  function Summed(js: seq<Judgement>, n: nat): nat
    requires n <= |js|
  {
    if n == 0 then 0
    else Summed(js, n - 1) + if Touched(js, n - 1) && !js[n - 1].unsummed then 1 else 0
  }

  /** What they add to it for a packet of len bytes. */
  function Charge(js: seq<Judgement>, n: nat, len: nat): nat
    requires n <= |js|
  {
    if n == 0 then 0
    else Charge(js, n - 1, len) + if Touched(js, n - 1) && !js[n - 1].unsummed then len else 0
  }

  lemma {:induction false} ChargeIsMultiple(js: seq<Judgement>, n: nat, len: nat)
    requires n <= |js|
    ensures Charge(js, n, len) == len * Summed(js, n)
  {
    if n > 0 {
      ChargeIsMultiple(js, n - 1, len);
      assert len * (Summed(js, n - 1) + 1) == len * Summed(js, n - 1) + len;
    }
  }

  /** Summed counts a set of rules. */
  lemma {:induction false} SummedCounts(js: seq<Judgement>, n: nat)
    requires n <= |js|
    ensures Summed(js, n) == |set i | 0 <= i < n && Touched(js, i) && !js[i].unsummed|
  {
    if n > 0 {
      SummedCounts(js, n - 1);
      var before, after := set i | 0 <= i < n - 1 && Touched(js, i) && !js[i].unsummed, set i | 0 <= i < n && Touched(js, i) && !js[i].unsummed;
      assert after == if Touched(js, n - 1) && !js[n - 1].unsummed then before + {n - 1} else before;
    }
  }

  /** LastClass is the class of the last touched rule. */
  lemma {:induction false} LastClassIs(js: seq<Judgement>, n: nat, before: Class, i: nat)
    requires n <= |js|
    ensures i < n && Touched(js, i) && (forall j | i < j < n :: !Touched(js, j)) ==> LastClass(js, n, before) == js[i].class_
    ensures (forall j | 0 <= j < n :: !Touched(js, j)) ==> LastClass(js, n, before) == before
  {
    if n > 0 { LastClassIs(js, n - 1, before, i); }
  }

  /** Behind a matching rule that does not continue, nothing is touched. */
  lemma {:induction false} NothingBehind(js: seq<Judgement>, n: nat, m: nat, before: Class)
    requires 0 < n <= m <= |js| && js[n - 1].matches && !js[n - 1].continues
    ensures forall k | n <= k < m :: !Touched(js, k)
    ensures LastClass(js, m, before) == LastClass(js, n, before)
    ensures forall len :: Charge(js, m, len) == Charge(js, n, len)
    decreases m
  {
    if n < m { NothingBehind(js, n, m - 1, before); }
  }

  class Rule {
    const config: Config
    var traffic: nat

    constructor (config: Config)
      ensures this.config == config && traffic == 0
    {
      this.config, traffic := config, 0;
    }
  }

  function Judgements(rules: seq<Rule>, judge: Config -> Judgement): seq<Judgement> {
    seq(|rules|, i requires 0 <= i < |rules| => judge(rules[i].config))
  }

  ghost function Traffics(rules: seq<Rule>): seq<nat>
    reads rules
  {
    seq(|rules|, i requires 0 <= i < |rules| reads rules => rules[i].traffic)
  }

  function Judging(p: Packet): Config -> Judgement { (c: Config) => Judge(c, p) }

  /** The rule loop of users_autz, whatever makes a rule match. */
  method AutzWalk(rules: seq<Rule>, judge: Config -> Judgement, before: Class) returns (flag: bool, class_: Class)
    ensures var js := Judgements(rules, judge);
            && (flag <==> exists i | 0 <= i < |js| :: Touched(js, i) && js[i].active)
            && class_ == LastClass(js, |js|, before)
  {
    flag, class_ := false, before;
    ghost var js := Judgements(rules, judge);
    for n := 0 to |rules|
      invariant flag <==> exists i | 0 <= i < n :: Touched(js, i) && js[i].active
      invariant class_ == LastClass(js, n, before)
      invariant forall j | 0 <= j < n && js[j].matches :: js[j].continues
    {
      var rule := judge(rules[n].config);
      if rule.matches {
        assert Touched(js, n);
        if rule.active {
          flag := true;
        }
        class_ := rule.class_;
        if !rule.continues {
          NothingBehind(js, n + 1, |rules|, before);
          return;
        }
      }
    }
  }

  class User {
    const mac: string
    var active: bool
    var traffic: nat
    var rules: seq<Rule>

    constructor (mac: string, active: bool, rules: seq<Rule>)
      ensures this.mac == mac && this.active == active && traffic == 0 && this.rules == rules
    {
      this.mac, this.active, traffic, this.rules := mac, active, 0, rules;
    }

    /** The traffic part of users_autz: the verdict before the external hooks, and the class
        the packet gets. */
    method Autz(p: Packet, before: Class) returns (flag: bool, class_: Class)
      ensures !active || (p.direct == 2 && mac != "" && !SameMac(mac, p.mac)) ==> !flag && class_ == before
      ensures active && (p.direct == 2 && mac != "" ==> SameMac(mac, p.mac)) ==>
                var js := Judgements(rules, Judging(p));
                && (flag <==> exists i | 0 <= i < |js| :: Touched(js, i) && js[i].active)
                && class_ == LastClass(js, |js|, before)
    {
      flag, class_ := false, before;
      if !active {
        return;
      }
      if p.direct == TRAFFIC_OUT && mac != "" && !SameMac(mac, p.mac) {
        return;
      }
      flag, class_ := AutzWalk(rules, Judging(p), before);
    }

    /** The locked update of the rule at place k and of the user. */
    method ChargeRule(k: nat, unsummed: bool, len: nat)
      requires k < |rules| && Distinct(rules)
      modifies this`traffic, rules`traffic
      ensures rules[k].traffic == (old(rules[k].traffic) + len) % WORD
      ensures forall i | 0 <= i < |rules| && i != k :: rules[i].traffic == old(rules[i].traffic)
      ensures traffic == if unsummed then old(traffic) else (old(traffic) + len) % WORD
    {
      rules[k].traffic := (rules[k].traffic + len) % WORD;
      if !unsummed {
        traffic := (traffic + len) % WORD;
      }
    }

    /** What the loop of users_acct has done after n rules, from the traffic counts before. */
    ghost predicate Walked(js: seq<Judgement>, n: nat, len: nat, t: seq<nat>, total: nat)
      requires n <= |js|
      reads this, rules
    {
      && |rules| == |js| == |t|
      && (forall i | 0 <= i < |rules| :: rules[i].traffic == if i < n && js[i].matches then (t[i] + len) % WORD else t[i])
      && traffic == (total + Charge(js, n, len)) % WORD
    }

    method WalkOne(js: seq<Judgement>, n: nat, len: nat, ghost t: seq<nat>, ghost total: nat)
      requires Distinct(rules) && n < |js| && Walked(js, n, len, t, total)
      requires js[n].matches ==> Touched(js, n)
      modifies this`traffic, rules`traffic
      ensures Walked(js, n + 1, len, t, total)
    {
      if js[n].matches {
        WordMod(total + Charge(js, n, len), len);
        ChargeRule(n, js[n].unsummed, len);
      }
    }

    /** Exactly the touched rules have gained len bytes, and the user len bytes for each of
        them without CONST_SUM, from the traffic counts t and total. */
    ghost predicate Charged(js: seq<Judgement>, len: nat, t: seq<nat>, total: nat)
      reads this, rules
    {
      && |rules| == |js| == |t|
      && (forall i | 0 <= i < |rules| :: rules[i].traffic == if Touched(js, i) then (t[i] + len) % WORD else t[i])
      && traffic == (total + len * Summed(js, |js|)) % WORD
    }

    /** The rule loop of users_acct, whatever makes a rule match. */
    method AcctWalk(judge: Config -> Judgement, len: nat)
      requires Distinct(rules) && traffic < WORD
      modifies this`traffic, rules`traffic
      ensures Charged(Judgements(rules, judge), len, old(Traffics(rules)), old(traffic))
    {
      var js := Judgements(rules, judge);
      ghost var t, total := Traffics(rules), traffic;
      var n, stop := 0, false;
      while n < |rules| && !stop
        invariant n <= |rules| && Walked(js, n, len, t, total)
        invariant forall i | 0 <= i < n && js[i].matches && !(stop && i == n - 1) :: js[i].continues
        invariant stop ==> n > 0 && js[n - 1].matches && !js[n - 1].continues
      {
        WalkOne(js, n, len, t, total);
        stop := js[n].matches && !js[n].continues;
        n := n + 1;
      }
      WalkedIsCharged(js, n, len, t, total, stop);
    }

    /** Where the loop ends. */
    lemma WalkedIsCharged(js: seq<Judgement>, n: nat, len: nat, t: seq<nat>, total: nat, stop: bool)
      requires n <= |js| && Walked(js, n, len, t, total) && (stop || n == |js|)
      requires forall i | 0 <= i < n && js[i].matches && !(stop && i == n - 1) :: js[i].continues
      requires stop ==> n > 0 && js[n - 1].matches && !js[n - 1].continues
      ensures Charged(js, len, t, total)
    {
      if stop {
        NothingBehind(js, n, |js|, js[n - 1].class_);
      }
      ChargeIsMultiple(js, |js|, len);
      assert forall i | 0 <= i < n :: Touched(js, i) <==> js[i].matches;
    }

    /** The traffic part of users_acct: exactly the touched rules are charged, and the user
        once for each of them without CONST_SUM. */
    method Acct(p: Packet)
      requires Distinct(rules) && traffic < WORD
      modifies this`traffic, rules`traffic
      ensures Charged(Judgements(rules, Judging(p)), p.len, old(Traffics(rules)), old(traffic))
    {
      AcctWalk(Judging(p), p.len);
    }
  }

  // ---------- the order of a loaded list ----------

  /** order by Proto, Mask desc, Ports desc, Direct. */
  predicate InOrder(a: Config, b: Config) {
    || a.proto < b.proto
    || (a.proto == b.proto &&
        (|| a.mask > b.mask
         || (a.mask == b.mask && (a.ports > b.ports || (a.ports == b.ports && a.direct <= b.direct)))))
  }

  ghost predicate Loaded(cs: seq<Config>) {
    forall i, j | 0 <= i < j < |cs| :: InOrder(cs[i], cs[j])
  }

  /** Rule f is the first that matches. */
  predicate FirstMatch(cs: seq<Config>, p: Packet, f: nat)
    requires f < |cs|
  {
    Matches(cs[f], p) && forall i | 0 <= i < f :: !Matches(cs[i], p)
  }

  /** In a list as rules_mysql_load orders it, the first matching rule names the packet's
      protocol whenever any matching rule does, and among the matching rules with its
      protocol field it has the longest prefix, a network inside all the others. Among those
      of the same length it has the largest port record, so that a rule for all ports comes
      last, and then the lowest direction, so that one for both directions comes last. */
  lemma FirstMatchIsMostSpecific(cs: seq<Config>, p: Packet, f: nat, j: nat)
    requires Loaded(cs) && f < |cs| && j < |cs|
    ensures FirstMatch(cs, p, f) && Matches(cs[j], p) ==>
              && (cs[j].proto == p.proto ==> cs[f].proto == p.proto)
              && (cs[j].proto == cs[f].proto ==>
                    cs[f].mask >= cs[j].mask && CompareWithMask(cs[f].net, cs[j].net, cs[j].mask))
              && (cs[j].proto == cs[f].proto && cs[j].mask == cs[f].mask ==>
                    cs[f].ports >= cs[j].ports && (cs[f].ports == cs[j].ports ==> cs[f].direct <= cs[j].direct))
  {
    assert f <= j || !FirstMatch(cs, p, f) || !Matches(cs[j], p);
    assert f < j ==> InOrder(cs[f], cs[j]);
    if FirstMatch(cs, p, f) && Matches(cs[j], p) && cs[j].proto == cs[f].proto {
      PrefixesNest(RemoteAddress(p), cs[f].net, cs[f].mask, cs[j].net, cs[j].mask);
    }
  }
}
