/** The configuration values that the daemons work with, after parsing. */
module Conf {
  import opened Wire

  type Key = k: seq<byte> | |k| == 32 witness seq(32, i => 0)
  type UserId = u32
  type ResourceId = u32

  datatype ControlPort = ControlPort(port: u16, tcp: bool, udp: bool)

  datatype ErrorPolicy = PolicyAlways | PolicyBasicAuth | PolicyFullAuth

  datatype Resource = Resource(port: u16, tcp: bool, udp: bool, users: seq<UserId>) {
    /** A resource without users is open to every user. */
    predicate ContainsUser(id: UserId) {
      users == [] || id in users
    }
  }

  datatype Config = Config(
    debug: bool,
    port: ControlPort,
    policy: ErrorPolicy,
    keys: map<UserId, Key>,
    resources: map<ResourceId, Resource>,
    nftFamily: string,
    nftTable: string,
    nftChainInput: string,
    nftTimeout: nat)

  /** What table construction guarantees: every resource has a protocol, and no port is used twice. */
  ghost predicate TablesOk(conf: Config) {
    && (forall id <- conf.resources :: conf.resources[id].tcp || conf.resources[id].udp)
    && (forall i <- conf.resources, j <- conf.resources ::
          conf.resources[i].port == conf.resources[j].port ==> i == j)
  }
}
