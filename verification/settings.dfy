/** Per-node configuration and the validator allow-list. */
module Settings {

  /**
   * `NODE_NAME` (from the environment, or random when unset), the listening `port` and the
   * address `getLocalIpAddress()` reports; all three are inputs here.
   */
  datatype Config = Config(nodeName: string, port: string, localIp: string)

  /** `AUTHORIZED_VALIDATORS`: five fixed identities and the node's own name, last. */
  function AuthorizedValidators(cfg: Config): (v: seq<string>)
    ensures |v| == 6 && v[5] == cfg.nodeName
    ensures "genesis" in v
  {
    ["validator1", "validator2", "genesis", "node_alpha", "node_beta", cfg.nodeName]
  }

  predicate IsAuthorized(cfg: Config, validator: string)
  {
    validator in AuthorizedValidators(cfg)
  }

  /** `http://localhost:<port>`. */
  function LocalhostUrl(cfg: Config): string
  {
    "http://localhost:" + cfg.port
  }

  /** `http://<local ip>:<port>`, the address the node announces and seeds its registry with. */
  function IpUrl(cfg: Config): string
  {
    "http://" + cfg.localIp + ":" + cfg.port
  }

  /** One of the two addresses under which conflict resolution recognises the node itself. */
  predicate IsSelf(cfg: Config, url: string)
  {
    url == LocalhostUrl(cfg) || url == IpUrl(cfg)
  }

  /** The node's own name is always on its allow-list, whatever it is. */
  lemma OwnNameAuthorized(cfg: Config)
    ensures IsAuthorized(cfg, cfg.nodeName)
  {
  }
}
