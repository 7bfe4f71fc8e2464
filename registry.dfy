/** The remote-client registry: protocol modules register a factory under
    their protocol name once, and executors ask for a client for a node by
    protocol name. The package-level map is the field of one object; the
    lock that guards it is left out. */
module Registry {
  import opened Common

  /** The node a client is made for. */
  datatype Node = Node(name: string, hostname: string, port: int, username: string, connectionType: string)

  /** What a factory returns: a client for the node (by the protocol's
      description of it), or an error's text. */
  datatype ClientResult = Client(description: string) | ClientError(message: string)

  type Factory = Node -> ClientResult

  function NotRegistered(protocolName: string): string
  {
    "remote client for protocol '" + protocolName + "' is not registered"
  }

  class ProtocolRegistry {
    var factories: map<string, Factory>

    constructor ()
      ensures factories == map[]
    {
      factories := map[];
    }

    /** Register: a new protocol name gains its factory and the other entries
        stay; a name already registered panics and changes nothing. */
    method Register(protocolName: string, factory: Factory) returns (panicked: bool)
      modifies this
      ensures panicked <==> protocolName in old(factories)
      ensures panicked ==> factories == old(factories)
      ensures !panicked ==> factories == old(factories)[protocolName := factory]
    {
      if protocolName in factories {
        return true;
      }
      factories := factories[protocolName := factory];
      panicked := false;
    }

    /** GetClient: the registered factory's answer for the node, or a "not
        registered" error. */
    method GetClient(protocolName: string, node: Node) returns (r: ClientResult)
      ensures protocolName !in factories ==> r == ClientError(NotRegistered(protocolName))
      ensures protocolName in factories ==> r == factories[protocolName](node)
    {
      if protocolName !in factories {
        return ClientError(NotRegistered(protocolName));
      }
      var factory := factories[protocolName];
      r := factory(node);
    }
  }
}
