/**
 * The cloud provider's account hierarchy, as input values.
 *
 * Every call the inventory script makes into the provider SDK
 * (`Datacenters()`, `Groups()`, `Subgroups()`, `Servers()` and the
 * per-server detail request) is replaced by data handed to the model.
 */
module Provider {
  import opened Wrappers

  /**
   * A server group. `servers` is `None` when reading the group's member
   * list raises the provider's exception; otherwise it is the member list
   * (server identifiers) in provider order.
   */
  datatype Group = Group(
    name: string,
    typ: string,
    subgroups: seq<Group>,
    servers: Option<seq<string>>)

  /** A datacenter: `id` is its string form, `groups` its top-level groups. */
  datatype Datacenter = Datacenter(id: string, groups: seq<Group>)

  /** One entry of a server record's address list; `internal` may be missing. */
  datatype Address = Address(internal: Option<string>)

  /** The `details` part of a server record; `ipAddresses` may be missing. */
  datatype Details = Details(ipAddresses: Option<seq<Address>>)

  /** A server detail record as returned by the provider. */
  datatype ServerRecord = ServerRecord(name: string, details: Option<Details>)

  /**
   * Outcome of the per-server detail request: either the request raised one
   * of the provider's exceptions, or it returned a record.
   */
  datatype Fetch = FetchFailed | Fetched(record: ServerRecord)
}
