/**
  * The records the hook receives from the Hetzner Cloud API and the outside
  * world it talks to. Every call to the outside world is recorded as an
  * `Event`; the world is given the events that came before a call, so its
  * answer may depend on anything that happened earlier in the run.
  */
module HCloud {
  import opened Wrappers
  import opened Net

  /** A server as the API reports it. */
  datatype Server = Server(id: int, name: string)

  /** `hcloud.FloatingIPType`: "ipv4", "ipv6", or any other string the API sends. */
  datatype FloatingIPType = TypeIPv4 | TypeIPv6 | TypeOther(tag: string)

  /** `hcloud.FloatingIP`: an IPv4 floating IP carries one address, an IPv6 one
      carries a network (nil when absent); `server` is the current assignee. */
  datatype FloatingIP = FloatingIP(
    id: int,
    name: string,
    ipType: FloatingIPType,
    ip: IP,
    network: Option<IPNet>,
    server: Option<Server>)

  /** The action the API returns for an assignment (never read by the hook). */
  datatype Action = Action(id: int)

  /** One call made to the outside world. */
  datatype Event =
    | WriteState(path: string, state: string)
    | GetServerByName(name: string)
    | ListFloatingIPs
    | Assign(floatingIPID: int, serverID: int)

  /** The outside world as four capabilities, each also given the events that
      preceded the call:
      - `writeFile`: `ioutil.WriteFile(path, state)`;
      - `serverByName`: `Server.GetByName`, whose success may carry no server
        (the library's nil pointer when no server has that name);
      - `allFloatingIPs`: `FloatingIP.All`;
      - `assign`: `FloatingIP.Assign`. */
  datatype World = World(
    writeFile: (string, string, seq<Event>) -> Outcome<string>,
    serverByName: (string, seq<Event>) -> Result<Option<Server>, string>,
    allFloatingIPs: seq<Event> -> Result<seq<FloatingIP>, string>,
    assign: (FloatingIP, Server, seq<Event>) -> Result<Action, string>)
}
