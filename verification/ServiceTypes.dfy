/** Service identifiers and event samples, shared by the service registry and the DDS binding. */
module ServiceTypes {
  import opened Bytes

  /** Text as the octets of a string. */
  type Name = seq<Byte>

  datatype ServiceIdentifier = ServiceIdentifier(
    interfaceId: U32, instanceId: U32, majorVersion: U16, minorVersion: U16)

  datatype EventSample = EventSample(
    service: ServiceIdentifier, eventName: Name, payload: seq<Byte>, sequence: U64)
}
