/**
 * The device-side types the driver and the OS glue share (the `netdev`
 * module): the hardware type of a device and the readiness events it
 * reports. Their declarations are not part of this model; they are
 * reconstructed from their uses in src/driver/mod.rs and src/netdev/sys.rs.
 */
module NetDevice {

  /** `HardwareType`: what a device sends and receives. */
  datatype HardwareType = EthernetII | Ieee802154 | Opaque

  /** `Event`: a set of readiness flags, as the pair of its two flags. */
  datatype Event = Event(readable: bool, writable: bool)

  /** `Event::new`, `Event::READABLE` and `Event::WRITABLE`. */
  const EMPTY: Event := Event(false, false)
  const READABLE: Event := Event(true, false)
  const WRITABLE: Event := Event(false, true)

  /** `|`, the union of two events. */
  function Union(a: Event, b: Event): (u: Event)
    ensures u.readable <==> a.readable || b.readable
    ensures u.writable <==> a.writable || b.writable
  {
    Event(a.readable || b.readable, a.writable || b.writable)
  }
}
